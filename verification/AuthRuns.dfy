// Whole runs of the authentication service: calls in any order, with the clock
// ticking and administrators changing the users table in between. Each call is
// one atomic step.
module AuthRuns {
  import opened Ids
  import opened Users
  import opened Otp
  import opened Tokens
  import opened Auth

  datatype Action =
    | SendOtp(mobile: string, cid: Uuid, number: nat)
    | VerifyOtp(cid: Uuid, code: string, jtis: (Uuid, Uuid))
    | RefreshPair(token: Claims, jtis: (Uuid, Uuid))
    | Authorise(bearer: Option<Claims>)
    | Tick(micros: nat)
    | Outside(users: UserTable)   // any change to the users table from elsewhere

  // uuid4 draws are fresh; the users table keeps its unique constraint.
  ghost predicate Enabled(w: World, a: Action)
  {
    match a
    case SendOtp(_, cid, number) => cid !in w.drawn && number < Pow10(OTP_LENGTH)
    case VerifyOtp(_, _, jtis) => jtis.0 !in w.drawn && jtis.1 !in w.drawn && jtis.0 != jtis.1
    case RefreshPair(_, jtis) => jtis.0 !in w.drawn && jtis.1 !in w.drawn && jtis.0 != jtis.1
    case Outside(users) => UniqueMobile(users)
    case _ => true
  }

  function Outcome(w: World, a: Action, lib: Library): Result
  {
    match a
    case SendOtp(mobile, cid, number) => SendOtpResult(w, mobile, cid)
    case VerifyOtp(cid, code, jtis) => VerifyOtpResult(w, cid, code, jtis)
    case RefreshPair(token, jtis) => RefreshResult(w, token, jtis, lib)
    case Authorise(bearer) => CurrentUser(w, bearer, lib)
    case _ => Done
  }

  ghost function After(w: World, a: Action, lib: Library): World
    requires Enabled(w, a)
  {
    match a
    case SendOtp(mobile, cid, number) => AfterSendOtp(w, mobile, cid, number)
    case VerifyOtp(cid, code, jtis) => AfterVerifyOtp(w, cid, code, jtis)
    case RefreshPair(token, jtis) => AfterRefresh(w, token, jtis, lib)
    case Authorise(bearer) => w
    case Tick(micros) => w.(now := w.now + micros)
    case Outside(users) => w.(users := users)
  }

  ghost predicate IsRun(ws: seq<World>, acts: seq<Action>, lib: Library)
  {
    && |ws| == |acts| + 1
    && ws[0].redis == map[] && ws[0].issued == {} && ws[0].drawn == {} && UniqueMobile(ws[0].users)
    && forall i :: 0 <= i < |acts| ==> Enabled(ws[i], acts[i]) && ws[i + 1] == After(ws[i], acts[i], lib)
  }

  // ---------------------------------------------------------------------
  // The users table
  // ---------------------------------------------------------------------

  // The service's only change to a user is PENDING to VERIFIED, by a
  // successful verification of that user.
  lemma ServiceOnlyPromotes(w: World, a: Action, lib: Library)
    requires Enabled(w, a) && !a.Outside?
    ensures var w' := After(w, a, lib);
            && w'.users.Keys == w.users.Keys
            && forall x :: x in w.users && w'.users[x] != w.users[x] ==>
                 && w.users[x].status == Pending && w'.users[x] == w.users[x].(status := Verified)
                 && a.VerifyOtp? && Outcome(w, a, lib).TokenPair? && Outcome(w, a, lib).pair.subject == x
  {}

  lemma {:induction false} RunKeepsUnique(ws: seq<World>, acts: seq<Action>, lib: Library, i: nat)
    requires IsRun(ws, acts, lib) && i < |ws|
    ensures UniqueMobile(ws[i].users)
    ensures ws[i].settings == ws[0].settings
  {
    if i > 0 {
      RunKeepsUnique(ws, acts, lib, i - 1);
      if !acts[i - 1].Outside? {
        ServiceOnlyPromotes(ws[i - 1], acts[i - 1], lib);
        PromotionKeepsUnique(ws[i - 1].users, ws[i].users);
      }
    }
  }

  lemma PromotionKeepsUnique(users: UserTable, users': UserTable)
    requires UniqueMobile(users) && users'.Keys == users.Keys
    requires forall x :: x in users ==> users'[x].community == users[x].community && users'[x].mobile == users[x].mobile
    ensures UniqueMobile(users')
  {}

  // ---------------------------------------------------------------------
  // Challenges
  // ---------------------------------------------------------------------

  ghost predicate SendsAt(ws: seq<World>, acts: seq<Action>, lib: Library, i: nat, cid: Uuid)
    requires IsRun(ws, acts, lib)
  {
    i < |acts| && acts[i].SendOtp? && acts[i].cid == cid && Outcome(ws[i], acts[i], lib).ChallengeSent?
  }

  // Does step i compare a wrong code with challenge cid?
  ghost predicate WrongAt(ws: seq<World>, acts: seq<Action>, lib: Library, i: nat, cid: Uuid)
    requires IsRun(ws, acts, lib)
  {
    i < |acts| && acts[i].VerifyOtp? && acts[i].cid == cid && Outcome(ws[i], acts[i], lib).InvalidCode?
  }

  // Does step i turn challenge cid into a token pair?
  ghost predicate PairAt(ws: seq<World>, acts: seq<Action>, lib: Library, i: nat, cid: Uuid)
    requires IsRun(ws, acts, lib)
  {
    i < |acts| && acts[i].VerifyOtp? && acts[i].cid == cid && Outcome(ws[i], acts[i], lib).TokenPair?
  }

  // Does step i use challenge cid up: by success, by a try after five wrong
  // codes, or because it names no single existing user?
  ghost predicate BurnsAt(ws: seq<World>, acts: seq<Action>, lib: Library, i: nat, cid: Uuid)
    requires IsRun(ws, acts, lib)
  {
    i < |acts| && acts[i].VerifyOtp? && acts[i].cid == cid && UsesUp(Outcome(ws[i], acts[i], lib))
  }

  ghost predicate UsesUp(r: Result)
  {
    r.TokenPair? || r.TooManyAttempts? || r.Ambiguous? || r.UserGone?
  }

  ghost function WrongCodes(ws: seq<World>, acts: seq<Action>, lib: Library, j: nat, cid: Uuid): nat
    requires IsRun(ws, acts, lib) && j < |ws|
  {
    if j == 0 then 0
    else WrongCodes(ws, acts, lib, j - 1, cid) + (if WrongAt(ws, acts, lib, j - 1, cid) then 1 else 0)
  }

  ghost function Pairs(ws: seq<World>, acts: seq<Action>, lib: Library, j: nat, cid: Uuid): nat
    requires IsRun(ws, acts, lib) && j < |ws|
  {
    if j == 0 then 0
    else Pairs(ws, acts, lib, j - 1, cid) + (if PairAt(ws, acts, lib, j - 1, cid) then 1 else 0)
  }

  // Step i < j sent cid, and s is what it stored but for the attempts.
  ghost predicate SentAs(ws: seq<World>, acts: seq<Action>, lib: Library, i: nat, j: nat, cid: Uuid, s: Stored)
    requires IsRun(ws, acts, lib)
  {
    && i < j && SendsAt(ws, acts, lib, i, cid) && Enabled(ws[i], acts[i])
    && var sent := NewChallenge(ws[i], acts[i].mobile, acts[i].number);
       s == sent.(challenge := sent.challenge.(attempts := s.challenge.attempts))
  }

  ghost predicate ChallengeInv(ws: seq<World>, acts: seq<Action>, lib: Library, j: nat, cid: Uuid)
    requires IsRun(ws, acts, lib) && j < |ws|
  {
    var w := ws[j];
    var wrong, pairs := WrongCodes(ws, acts, lib, j, cid), Pairs(ws, acts, lib, j, cid);
    && wrong <= MAX_ATTEMPTS && pairs <= 1
    && (cid !in w.drawn ==> cid !in w.redis && wrong == 0 && pairs == 0)
    && (cid in w.redis ==>
          && wrong == w.redis[cid].challenge.attempts && pairs == 0
          && exists i: nat :: SentAs(ws, acts, lib, i, j, cid, w.redis[cid]))
  }

  // What one step does to one challenge.
  lemma ChallengeStep(w: World, a: Action, lib: Library, cid: Uuid)
    requires Enabled(w, a)
    ensures var w' := After(w, a, lib);
            var sends := a.SendOtp? && a.cid == cid && Outcome(w, a, lib).ChallengeSent?;
            var wrong := a.VerifyOtp? && a.cid == cid && Outcome(w, a, lib).InvalidCode?;
            var pair := a.VerifyOtp? && a.cid == cid && Outcome(w, a, lib).TokenPair?;
            && w.drawn <= w'.drawn && (a.SendOtp? && a.cid == cid ==> cid !in w.drawn && cid in w'.drawn)
            && (sends ==> cid in w'.redis && w'.redis[cid] == NewChallenge(w, a.mobile, a.number))
            && (wrong ==> cid in w.redis && w.redis[cid].challenge.attempts < MAX_ATTEMPTS && cid in w'.redis)
            && (pair ==> cid in w.redis && cid !in w'.redis)
            && (!sends && cid in w'.redis ==>
                  && cid in w.redis
                  && w'.redis[cid] == w.redis[cid].(challenge := w.redis[cid].challenge.(
                       attempts := w.redis[cid].challenge.attempts + (if wrong then 1 else 0))))
  {}

  lemma {:induction false} RunKeepsChallenge(ws: seq<World>, acts: seq<Action>, lib: Library, j: nat, cid: Uuid)
    requires IsRun(ws, acts, lib) && j < |ws|
    ensures ChallengeInv(ws, acts, lib, j, cid)
  {
    hide After, Outcome, NewChallenge, Enabled;
    if j > 0 {
      RunKeepsChallenge(ws, acts, lib, j - 1, cid);
      var w, a := ws[j - 1], acts[j - 1];
      assert Enabled(w, a) && ws[j] == After(w, a, lib);
      ChallengeStep(w, a, lib, cid);
      if SendsAt(ws, acts, lib, j - 1, cid) {
        NewIsFresh(w, a.mobile, a.number) by { EnabledSend(w, a); }
        assert SentAs(ws, acts, lib, j - 1, j, cid, ws[j].redis[cid]);
      } else if cid in ws[j].redis {
        var i: nat :| SentAs(ws, acts, lib, i, j - 1, cid, w.redis[cid]);
        assert SentAs(ws, acts, lib, i, j, cid, ws[j].redis[cid]);
      }
    }
  }

  lemma EnabledSend(w: World, a: Action)
    requires Enabled(w, a) && a.SendOtp?
    ensures a.number < Pow10(OTP_LENGTH)
  {}

  lemma NewIsFresh(w: World, mobile: string, number: nat)
    requires number < Pow10(OTP_LENGTH)
    ensures NewChallenge(w, mobile, number).challenge.attempts == 0
  {}

  // Over every run a challenge sees at most five wrong codes; while it is
  // stored, its attempt count is exactly that number and its expiry instant is
  // the one set when it was sent.
  lemma AttemptsBounded(ws: seq<World>, acts: seq<Action>, lib: Library, j: nat, cid: Uuid)
    requires IsRun(ws, acts, lib) && j < |ws|
    ensures WrongCodes(ws, acts, lib, j, cid) <= 5
    ensures cid in ws[j].redis ==>
              && ws[j].redis[cid].challenge.attempts == WrongCodes(ws, acts, lib, j, cid)
              && exists i: nat :: i < j && SendsAt(ws, acts, lib, i, cid) &&
                   ws[j].redis[cid].expiresAt == ws[i].now + ws[i].settings.OtpMicros()
  {
    hide After, Outcome;
    RunKeepsChallenge(ws, acts, lib, j, cid);
    if cid in ws[j].redis {
      var i: nat :| SentAs(ws, acts, lib, i, j, cid, ws[j].redis[cid]);
      assert SendsAt(ws, acts, lib, i, cid);
    }
  }

  // u and nobody else holds the mobile.
  ghost predicate OnlyHolder(users: UserTable, mobile: string, u: Uuid)
  {
    forall x :: x in users && users[x].mobile == mobile <==> x == u
  }

  lemma OnlyHolderListed(users: UserTable, mobile: string, u: Uuid)
    ensures ListByMobile(users, mobile) == {u} <==> OnlyHolder(users, mobile, u)
  {
    assert forall x :: x in ListByMobile(users, mobile) <==> x in users && users[x].mobile == mobile;
    if OnlyHolder(users, mobile, u) {
      assert ListByMobile(users, mobile) == {u};
    }
  }

  // What a pair needs at the moment it is issued.
  lemma PairStep(w: World, a: Action, lib: Library)
    requires Enabled(w, a) && a.VerifyOtp? && Outcome(w, a, lib).TokenPair?
    ensures var subject, w' := Outcome(w, a, lib).pair.subject, After(w, a, lib);
            && a.cid in w.redis && w.now < w.redis[a.cid].expiresAt
            && w.redis[a.cid].challenge.code == a.code && w.redis[a.cid].challenge.userIds == {subject}
            && subject in w'.users && w'.users[subject].status == Verified
  {}

  // A challenge yields at most one token pair. Its subject is the only user who
  // held the challenge's mobile when the code was sent; the code is the one
  // sent, it has not expired, and the user is VERIFIED when the pair is issued.
  lemma PairComesFromSend(ws: seq<World>, acts: seq<Action>, lib: Library, j: nat, cid: Uuid)
    requires IsRun(ws, acts, lib) && PairAt(ws, acts, lib, j, cid)
    ensures var subject := Outcome(ws[j], acts[j], lib).pair.subject;
            && (exists i: nat :: i < j && SendsAt(ws, acts, lib, i, cid)
                  && OnlyHolder(ws[i].users, acts[i].mobile, subject)
                  && acts[i].number < Pow10(OTP_LENGTH)
                  && GenerateOtp(OTP_LENGTH, acts[i].number) == Code(acts[j].code)
                  && ws[j].now < ws[i].now + ws[i].settings.OtpMicros())
            && subject in ws[j + 1].users && ws[j + 1].users[subject].status == Verified
    ensures forall k: nat :: k < |acts| && PairAt(ws, acts, lib, k, cid) ==> k == j
  {
    hide After, Outcome;
    RunKeepsChallenge(ws, acts, lib, j, cid);
    assert Enabled(ws[j], acts[j]) && ws[j + 1] == After(ws[j], acts[j], lib);
    PairStep(ws[j], acts[j], lib);
    var i: nat :| SentAs(ws, acts, lib, i, j, cid, ws[j].redis[cid]);
    assert SendsAt(ws, acts, lib, i, cid);
    OnlyHolderListed(ws[i].users, acts[i].mobile, Outcome(ws[j], acts[j], lib).pair.subject);
    forall k: nat | k < |acts| && PairAt(ws, acts, lib, k, cid)
      ensures k == j
    {
      if j < k {
        OnePair(ws, acts, lib, j, k, cid);
      } else if k < j {
        OnePair(ws, acts, lib, k, j, cid);
      }
    }
  }

  // Step i sent cid, to a mobile that u alone held, and step j presents its code
  // in time, while u is there and not revoked.
  ghost predicate Honours(ws: seq<World>, acts: seq<Action>, lib: Library, i: nat, j: nat, cid: Uuid, u: Uuid)
    requires IsRun(ws, acts, lib)
  {
    && j < |acts| && acts[j].VerifyOtp? && cid in ws[j].redis
    && SentAs(ws, acts, lib, i, j, cid, ws[j].redis[cid])
    && ws[j].now < ws[i].now + ws[i].settings.OtpMicros()
    && acts[j].code == Padded(acts[i].number, OTP_LENGTH)
    && OnlyHolder(ws[i].users, acts[i].mobile, u)
    && u in ws[j].users && ws[j].users[u].status != Revoked
  }

  // A verification succeeds exactly when the challenge is still stored and
  // unexpired, the code is the one sent, fewer than five wrong codes came
  // before, and the one user who held the mobile is there and not revoked.
  lemma PairExactly(ws: seq<World>, acts: seq<Action>, lib: Library, j: nat, cid: Uuid)
    requires IsRun(ws, acts, lib) && j < |acts| && acts[j].VerifyOtp? && acts[j].cid == cid
    ensures PairAt(ws, acts, lib, j, cid) <==>
            && WrongCodes(ws, acts, lib, j, cid) < MAX_ATTEMPTS
            && exists i: nat, u: Uuid :: Honours(ws, acts, lib, i, j, cid, u)
  {
    hide After, Outcome, NewChallenge, Enabled, SentAs;
    RunKeepsChallenge(ws, acts, lib, j, cid);
    assert Enabled(ws[j], acts[j]);
    PairNeeds(ws[j], acts[j], lib);
    if PairAt(ws, acts, lib, j, cid) {
      var s := ws[j].redis[cid];
      var i: nat :| SentAs(ws, acts, lib, i, j, cid, s);
      var u: Uuid :| s.challenge.userIds == {u} && u in ws[j].users && ws[j].users[u].status != Revoked;
      SentFor(ws, acts, lib, i, j, cid, s, u);
      assert Honours(ws, acts, lib, i, j, cid, u);
    }
    if i: nat, u: Uuid :| Honours(ws, acts, lib, i, j, cid, u) {
      SentFor(ws, acts, lib, i, j, cid, ws[j].redis[cid], u);
    }
  }

  lemma SentFor(ws: seq<World>, acts: seq<Action>, lib: Library, i: nat, j: nat, cid: Uuid, s: Stored, u: Uuid)
    requires IsRun(ws, acts, lib) && SentAs(ws, acts, lib, i, j, cid, s)
    ensures s.expiresAt == ws[i].now + ws[i].settings.OtpMicros()
    ensures s.challenge.code == Padded(acts[i].number, OTP_LENGTH)
    ensures s.challenge.userIds == {u} <==> OnlyHolder(ws[i].users, acts[i].mobile, u)
  {
    hide After, NewChallenge;
    SentWhat(ws[i], acts[i].mobile, acts[i].number);
    OnlyHolderListed(ws[i].users, acts[i].mobile, u);
  }

  lemma PairNeeds(w: World, a: Action, lib: Library)
    requires Enabled(w, a) && a.VerifyOtp?
    ensures Outcome(w, a, lib).TokenPair? <==>
            && a.cid in w.redis && w.now < w.redis[a.cid].expiresAt
            && var c := w.redis[a.cid].challenge;
               && c.attempts < MAX_ATTEMPTS && c.code == a.code
               && exists u: Uuid :: c.userIds == {u} && u in w.users && w.users[u].status != Revoked
  {}

  lemma SentWhat(w: World, mobile: string, number: nat)
    requires number < Pow10(OTP_LENGTH)
    ensures var s := NewChallenge(w, mobile, number);
            && s.expiresAt == w.now + w.settings.OtpMicros()
            && s.challenge.code == Padded(number, OTP_LENGTH)
            && s.challenge.userIds == ListByMobile(w.users, mobile)
  {}

  // A challenge that is used up is gone for good ...
  lemma {:induction false} BurnedStaysGone(ws: seq<World>, acts: seq<Action>, lib: Library, j: nat, k: nat, cid: Uuid)
    requires IsRun(ws, acts, lib) && j < k < |ws| && BurnsAt(ws, acts, lib, j, cid)
    ensures cid in ws[k].drawn && cid !in ws[k].redis
    ensures forall code, jtis :: VerifyOtpResult(ws[k], cid, code, jtis) == ChallengeNotFound
  {
    hide After, Outcome, Enabled;
    var w, a := ws[k - 1], acts[k - 1];
    assert Enabled(w, a) && ws[k] == After(w, a, lib);
    ChallengeStep(w, a, lib, cid);
    if k == j + 1 {
      BurnStep(w, a, lib, cid);
      RunKeepsChallenge(ws, acts, lib, j, cid);
    } else {
      BurnedStaysGone(ws, acts, lib, j, k - 1, cid);
    }
  }

  // ... and a challenge goes in no other way before it expires: wrong codes and
  // refusals of a revoked account leave it stored.
  lemma StoredUntilUsedUp(ws: seq<World>, acts: seq<Action>, lib: Library, i: nat, j: nat, cid: Uuid)
    requires IsRun(ws, acts, lib) && SendsAt(ws, acts, lib, i, cid) && i < j < |ws|
    ensures Get(ws[j].redis, cid, ws[j].now).Some? <==>
            && ws[j].now < ws[i].now + ws[i].settings.OtpMicros()
            && forall k: nat :: i < k < j ==> !BurnsAt(ws, acts, lib, k, cid)
  {
    hide IsRun, BurnsAt;
    KeptUntilUsedUp(ws, acts, lib, i, j, cid);
  }

  // The same for the key, which the model keeps when it has expired.
  lemma {:induction false} KeptUntilUsedUp(ws: seq<World>, acts: seq<Action>, lib: Library, i: nat, j: nat, cid: Uuid)
    requires IsRun(ws, acts, lib) && SendsAt(ws, acts, lib, i, cid) && i < j < |ws|
    ensures cid in ws[j].redis <==> forall k: nat :: i < k < j ==> !BurnsAt(ws, acts, lib, k, cid)
    ensures cid in ws[j].redis ==> ws[j].redis[cid].expiresAt == ws[i].now + ws[i].settings.OtpMicros()
  {
    hide After, Outcome, Enabled, UsesUp, NewChallenge;
    var w, a := ws[j - 1], acts[j - 1];
    assert Enabled(w, a) && ws[j] == After(w, a, lib);
    ChallengeStep(w, a, lib, cid);
    BurnStep(w, a, lib, cid);
    if i == j - 1 {
      SentWhat(w, a.mobile, a.number) by { EnabledSend(w, a); }
    } else {
      KeptUntilUsedUp(ws, acts, lib, i, j - 1, cid);
      RunKeepsChallenge(ws, acts, lib, j - 1, cid);
      SentIsDrawn(ws, acts, lib, i, j - 1, cid);
      assert !SendsAt(ws, acts, lib, j - 1, cid);
      assert BurnsAt(ws, acts, lib, j - 1, cid) ==> cid !in ws[j].redis;
      assert cid in ws[j].redis <==> cid in w.redis && !BurnsAt(ws, acts, lib, j - 1, cid);
    }
  }

  lemma {:induction false} SentIsDrawn(ws: seq<World>, acts: seq<Action>, lib: Library, i: nat, j: nat, cid: Uuid)
    requires IsRun(ws, acts, lib) && SendsAt(ws, acts, lib, i, cid) && i < j < |ws|
    ensures cid in ws[j].drawn
  {
    hide After, Outcome, Enabled;
    var w, a := ws[j - 1], acts[j - 1];
    assert Enabled(w, a) && ws[j] == After(w, a, lib);
    ChallengeStep(w, a, lib, cid);
    if i < j - 1 {
      SentIsDrawn(ws, acts, lib, i, j - 1, cid);
    }
  }

  lemma BurnStep(w: World, a: Action, lib: Library, cid: Uuid)
    requires Enabled(w, a)
    ensures var burns := a.VerifyOtp? && a.cid == cid && UsesUp(Outcome(w, a, lib));
            && (burns ==> cid in w.redis && cid !in After(w, a, lib).redis)
            && (!burns && cid in w.redis ==> cid in After(w, a, lib).redis)
  {}

  // How a verification that yields no pair is refused: the count of wrong codes
  // so far decides whether the code is looked at, and what is left to try; a
  // right code is refused for what has become of its one user.
  lemma RefusedExactly(ws: seq<World>, acts: seq<Action>, lib: Library, j: nat)
    requires IsRun(ws, acts, lib) && j < |acts| && acts[j].VerifyOtp?
    ensures var w, cid, r := ws[j], acts[j].cid, Outcome(ws[j], acts[j], lib);
            var stored, wrong := cid in w.redis && w.now < w.redis[cid].expiresAt, WrongCodes(ws, acts, lib, j, cid);
            var right := stored && wrong < 5 && w.redis[cid].challenge.code == acts[j].code;
            && (r.ChallengeNotFound? <==> !stored)
            && (r.TooManyAttempts? <==> stored && wrong == 5)
            && (r.InvalidCode? <==> stored && wrong < 5 && !right)
            && (r.InvalidCode? ==> r.attemptsRemaining == 5 - WrongCodes(ws, acts, lib, j + 1, cid))
            && (r.UserGone? <==>
                  right && exists u: Uuid :: w.redis[cid].challenge.userIds == {u} && u !in w.users)
            && (r.AccountRevoked? <==>
                  right && exists u: Uuid :: w.redis[cid].challenge.userIds == {u} && u in w.users &&
                                             w.users[u].status == Revoked)
  {
    RunKeepsChallenge(ws, acts, lib, j, acts[j].cid);
    RefusalStep(ws[j], acts[j], lib);
    hide After, Outcome;
  }

  lemma RefusalStep(w: World, a: Action, lib: Library)
    requires a.VerifyOtp?
    ensures var r := Outcome(w, a, lib);
            var stored := a.cid in w.redis && w.now < w.redis[a.cid].expiresAt;
            var open := stored && w.redis[a.cid].challenge.attempts < 5;
            var right := open && w.redis[a.cid].challenge.code == a.code;
            && (r.ChallengeNotFound? <==> !stored)
            && (r.TooManyAttempts? <==> stored && !open)
            && (r.InvalidCode? <==> open && !right)
            && (r.InvalidCode? ==> r.attemptsRemaining == 5 - (w.redis[a.cid].challenge.attempts + 1))
            && (r.UserGone? <==>
                  right && exists u: Uuid :: w.redis[a.cid].challenge.userIds == {u} && u !in w.users)
            && (r.AccountRevoked? <==>
                  right && exists u: Uuid :: w.redis[a.cid].challenge.userIds == {u} && u in w.users &&
                                             w.users[u].status == Revoked)
  {}

  // Every stored code has the shape the verify request demands.
  lemma CodesHaveRequestShape(ws: seq<World>, acts: seq<Action>, lib: Library, j: nat, cid: Uuid)
    requires IsRun(ws, acts, lib) && j < |ws| && cid in ws[j].redis
    ensures IsCode(ws[j].redis[cid].challenge.code, 6)
  {
    hide After, Outcome;
    RunKeepsChallenge(ws, acts, lib, j, cid);
    var i: nat :| SentAs(ws, acts, lib, i, j, cid, ws[j].redis[cid]);
    PrintThenParse(acts[i].number, OTP_LENGTH);
  }

  lemma OnePair(ws: seq<World>, acts: seq<Action>, lib: Library, j: nat, k: nat, cid: Uuid)
    requires IsRun(ws, acts, lib) && j < k < |acts|
    requires PairAt(ws, acts, lib, j, cid)
    ensures !PairAt(ws, acts, lib, k, cid)
  {
    PairsCount(ws, acts, lib, j + 1, k, cid);
    RunKeepsChallenge(ws, acts, lib, k, cid);
  }

  lemma {:induction false} PairsCount(ws: seq<World>, acts: seq<Action>, lib: Library, j: nat, k: nat, cid: Uuid)
    requires IsRun(ws, acts, lib) && j <= k < |ws|
    ensures Pairs(ws, acts, lib, j, cid) <= Pairs(ws, acts, lib, k, cid)
  {
    if j < k {
      PairsCount(ws, acts, lib, j, k - 1, cid);
    }
  }

  // A correct code with attempts left is ambiguous exactly when the mobile was
  // held in two or more communities when it was sent.
  lemma AmbiguousExactly(ws: seq<World>, acts: seq<Action>, lib: Library, j: nat)
    requires IsRun(ws, acts, lib) && j < |acts| && acts[j].VerifyOtp?
    requires var c := Get(ws[j].redis, acts[j].cid, ws[j].now);
             c.Some? && c.value.attempts < MAX_ATTEMPTS && c.value.code == acts[j].code
    ensures exists i: nat :: i < j && SendsAt(ws, acts, lib, i, acts[j].cid) &&
              var n := |CommunitiesHolding(ws[i].users, acts[i].mobile)|;
              && n >= 1
              && if n >= 2 then Outcome(ws[j], acts[j], lib) == Ambiguous(n)
                 else !Outcome(ws[j], acts[j], lib).Ambiguous?
  {
    hide After;
    var cid := acts[j].cid;
    RunKeepsChallenge(ws, acts, lib, j, cid);
    var i: nat :| SentAs(ws, acts, lib, i, j, cid, ws[j].redis[cid]);
    assert SendsAt(ws, acts, lib, i, cid);
    RunKeepsUnique(ws, acts, lib, i);
    HoldersAreOnePerCommunity(ws[i].users, acts[i].mobile);
  }

  // ---------------------------------------------------------------------
  // Where tokens come from
  // ---------------------------------------------------------------------

  ghost function Subject(token: Claims): Value
  {
    if "sub" in token then token["sub"] else Json("")
  }

  // Step k issues `token`: after a verification of its subject, or in exchange
  // for an earlier token of the same subject that itself has an origin.
  ghost predicate IssuedAt(ws: seq<World>, acts: seq<Action>, lib: Library, k: nat, token: Claims)
    requires IsRun(ws, acts, lib)
    decreases k
  {
    && k < |acts| && Outcome(ws[k], acts[k], lib).TokenPair?
    && token in {Outcome(ws[k], acts[k], lib).pair.access, Outcome(ws[k], acts[k], lib).pair.refresh}
    && Subject(token) == UuidText(Outcome(ws[k], acts[k], lib).pair.subject)
    && (acts[k].VerifyOtp? ||
        (acts[k].RefreshPair? && Subject(acts[k].token) == Subject(token) &&
         exists m: nat :: m < k && IssuedAt(ws, acts, lib, m, acts[k].token)))
  }

  lemma PairSubjects(w: World, a: Action, lib: Library)
    requires Outcome(w, a, lib).TokenPair?
    ensures var p := Outcome(w, a, lib).pair;
            && Subject(p.access) == UuidText(p.subject) && Subject(p.refresh) == UuidText(p.subject)
            && (a.VerifyOtp? || a.RefreshPair?)
            && (a.RefreshPair? ==> a.token in w.issued && Subject(a.token) == UuidText(p.subject))
  {
    if a.RefreshPair? {
      assert Decode(a.token, w.now, lib) == Validate(a.token);
    }
  }

  // Every issued token goes back, through finitely many refreshes, to a
  // successful OTP verification of its subject.
  lemma {:induction false} TokensHaveOrigin(ws: seq<World>, acts: seq<Action>, lib: Library, j: nat, token: Claims)
    requires IsRun(ws, acts, lib) && j < |ws| && token in ws[j].issued
    ensures exists k: nat :: k < j && IssuedAt(ws, acts, lib, k, token)
  {
    var w, a := ws[j - 1], acts[j - 1];
    assert Enabled(w, a) && ws[j] == After(w, a, lib);
    hide After, Outcome;
    if token in w.issued {
      TokensHaveOrigin(ws, acts, lib, j - 1, token);
    } else {
      NewTokens(w, a, lib, token);
      PairSubjects(w, a, lib);
      if a.RefreshPair? {
        TokensHaveOrigin(ws, acts, lib, j - 1, a.token);
      }
      assert IssuedAt(ws, acts, lib, j - 1, token);
    }
  }

  lemma NewTokens(w: World, a: Action, lib: Library, token: Claims)
    requires Enabled(w, a)
    requires token in After(w, a, lib).issued && token !in w.issued
    ensures Outcome(w, a, lib).TokenPair?
    ensures token in {Outcome(w, a, lib).pair.access, Outcome(w, a, lib).pair.refresh}
  {}

  lemma {:induction false} OriginIsVerification(ws: seq<World>, acts: seq<Action>, lib: Library, k: nat, token: Claims)
    requires IsRun(ws, acts, lib) && IssuedAt(ws, acts, lib, k, token)
    ensures exists m: nat, cid :: m <= k && PairAt(ws, acts, lib, m, cid) &&
              Subject(token) == UuidText(Outcome(ws[m], acts[m], lib).pair.subject)
    decreases k
  {
    if acts[k].VerifyOtp? {
      assert PairAt(ws, acts, lib, k, acts[k].cid);
    } else {
      var m: nat :| m < k && IssuedAt(ws, acts, lib, m, acts[k].token);
      OriginIsVerification(ws, acts, lib, m, acts[k].token);
    }
  }

  // Whoever is authorised, and whoever is given a token, has verified an OTP
  // earlier in the run.
  lemma AuthorisedHasVerified(ws: seq<World>, acts: seq<Action>, lib: Library, j: nat, bearer: Option<Claims>, u: Uuid)
    requires IsRun(ws, acts, lib) && j < |ws|
    requires CurrentUser(ws[j], bearer, lib) == Authorised(u)
    ensures exists m: nat, cid ::
              m < j && PairAt(ws, acts, lib, m, cid) && Outcome(ws[m], acts[m], lib).pair.subject == u
  {
    var token := bearer.value;
    assert Decode(token, ws[j].now, lib) == Validate(token);
    hide After, Outcome;
    TokensHaveOrigin(ws, acts, lib, j, token);
    var k: nat :| k < j && IssuedAt(ws, acts, lib, k, token);
    OriginIsVerification(ws, acts, lib, k, token);
  }

  // ---------------------------------------------------------------------
  // What an issued pair is good for
  // ---------------------------------------------------------------------

  lemma IssuedStep(w: World, a: Action, lib: Library)
    requires Enabled(w, a)
    ensures var r, w' := Outcome(w, a, lib), After(w, a, lib);
            && w.issued <= w'.issued && w.drawn <= w'.drawn
            && (r.TokenPair? ==> w'.issued == w.issued + {r.pair.access, r.pair.refresh})
            && (!r.TokenPair? ==> w'.issued == w.issued)
  {}

  lemma {:induction false} IssuedStays(ws: seq<World>, acts: seq<Action>, lib: Library, i: nat, j: nat)
    requires IsRun(ws, acts, lib) && i <= j < |ws|
    ensures ws[i].issued <= ws[j].issued
  {
    hide After, Outcome, Enabled;
    if i < j {
      IssuedStays(ws, acts, lib, i, j - 1);
      assert Enabled(ws[j - 1], acts[j - 1]) && ws[j] == After(ws[j - 1], acts[j - 1], lib);
      IssuedStep(ws[j - 1], acts[j - 1], lib);
    }
  }

  lemma PairIsOfSubject(w: World, a: Action, lib: Library)
    requires Outcome(w, a, lib).TokenPair?
    ensures a.VerifyOtp? || a.RefreshPair?
    ensures var p := Outcome(w, a, lib).pair;
            p.subject in w.users && p == PairFor(w.settings, p.subject, w.users[p.subject], w.now, a.jtis)
  {
    if a.RefreshPair? {
      assert Decode(a.token, w.now, lib) == Validate(a.token);
    }
  }

  // From the moment a pair is issued, and for the lifetimes of its tokens, the
  // access token authorises its subject and the refresh token yields a new pair
  // for the subject, whenever the subject is VERIFIED.
  lemma PairServes(ws: seq<World>, acts: seq<Action>, lib: Library, j: nat, k: nat, jtis: (Uuid, Uuid))
    requires IsRun(ws, acts, lib) && j < k < |ws| && Outcome(ws[j], acts[j], lib).TokenPair?
    ensures var p, w, age := Outcome(ws[j], acts[j], lib).pair, ws[k], Seconds(ws[k].now) - Seconds(ws[j].now);
            p.subject in w.users && w.users[p.subject].status == Verified ==>
              && (age < ws[0].settings.accessTtlMin * 60 ==>
                    CurrentUser(w, Some(p.access), lib) == Authorised(p.subject))
              && (age < ws[0].settings.refreshTtlDays * 86_400 ==>
                    RefreshResult(w, p.refresh, jtis, lib) ==
                    TokenPair(PairFor(ws[0].settings, p.subject, w.users[p.subject], w.now, jtis)))
  {
    hide After, Outcome;
    var w, w', a := ws[j], ws[k], acts[j];
    var p := Outcome(w, a, lib).pair;
    PairIsOfSubject(w, a, lib);
    RunKeepsUnique(ws, acts, lib, j);
    RunKeepsUnique(ws, acts, lib, k);
    IssuedStep(w, a, lib);
    IssuedStays(ws, acts, lib, j + 1, k);
    hide CurrentUser, RefreshResult, AccessToken, RefreshToken, IsRun;
    if p.subject in w'.users && w'.users[p.subject].status == Verified {
      if Seconds(w'.now) < Seconds(w.now) + w.settings.AccessSec() {
        AccessTokenWorks(w, w', p.subject, w.users[p.subject], a.jtis.0, lib);
      }
      if Seconds(w'.now) < Seconds(w.now) + w.settings.RefreshSec() {
        RefreshTokenWorks(w, w', p.subject, a.jtis.1, jtis, lib);
      }
    }
  }

  // Every issued token has an id that was drawn, and no two share one.
  ghost predicate IdsAreUnique(w: World)
  {
    && (forall t: Claims :: t in w.issued ==> "jti" in t && t["jti"].UuidText? && t["jti"].id in w.drawn)
    && (forall t: Claims, t': Claims :: t in w.issued && t' in w.issued && t["jti"] == t'["jti"] ==> t == t')
  }

  lemma {:induction false} RunKeepsIdsUnique(ws: seq<World>, acts: seq<Action>, lib: Library, j: nat)
    requires IsRun(ws, acts, lib) && j < |ws|
    ensures IdsAreUnique(ws[j])
  {
    hide After, Outcome, Enabled;
    if j > 0 {
      RunKeepsIdsUnique(ws, acts, lib, j - 1);
      assert Enabled(ws[j - 1], acts[j - 1]) && ws[j] == After(ws[j - 1], acts[j - 1], lib);
      StepKeepsIdsUnique(ws[j - 1], acts[j - 1], lib);
    }
  }

  lemma StepKeepsIdsUnique(w: World, a: Action, lib: Library)
    requires Enabled(w, a) && IdsAreUnique(w)
    ensures IdsAreUnique(After(w, a, lib))
  {
    IssuedStep(w, a, lib);
    if Outcome(w, a, lib).TokenPair? {
      PairIds(w, a, lib);
    }
    hide After, Outcome;
  }

  lemma PairIds(w: World, a: Action, lib: Library)
    requires Outcome(w, a, lib).TokenPair? && Enabled(w, a)
    ensures a.VerifyOtp? || a.RefreshPair?
    ensures {a.jtis.0, a.jtis.1} <= After(w, a, lib).drawn
    ensures var p := Outcome(w, a, lib).pair;
            && "jti" in p.access && p.access["jti"] == UuidText(a.jtis.0)
            && "jti" in p.refresh && p.refresh["jti"] == UuidText(a.jtis.1)
  {
    PairIsOfSubject(w, a, lib);
  }

  // ---------------------------------------------------------------------
  // Revocation
  // ---------------------------------------------------------------------

  // REVOKED, or deleted after that.
  ghost predicate Barred(users: UserTable, u: Uuid)
  {
    u in users ==> users[u].status == Revoked
  }

  lemma BarredStep(w: World, a: Action, lib: Library, u: Uuid)
    requires Enabled(w, a) && Barred(w.users, u)
    requires a.Outside? ==> Barred(a.users, u)
    ensures Barred(After(w, a, lib).users, u)
    ensures !(Outcome(w, a, lib).TokenPair? && Outcome(w, a, lib).pair.subject == u)
    ensures Outcome(w, a, lib) != Authorised(u)
    ensures forall t :: t in After(w, a, lib).issued && t !in w.issued ==> Subject(t) != UuidText(u)
  {
    if !a.Outside? {
      ServiceOnlyPromotes(w, a, lib);
    }
    if Outcome(w, a, lib).TokenPair? {
      PairSubjects(w, a, lib);
    }
  }

  lemma BarredIsRefused(w: World, u: Uuid, lib: Library)
    requires Barred(w.users, u)
    ensures forall bearer :: CurrentUser(w, bearer, lib) != Authorised(u)
    ensures forall token, jtis :: var r := RefreshResult(w, token, jtis, lib); r.TokenPair? ==> r.pair.subject != u
    ensures forall cid, code, jtis ::
              var r := VerifyOtpResult(w, cid, code, jtis); r.TokenPair? ==> r.pair.subject != u
  {}

  // Once a user is revoked, and as long as no outside step changes that, no
  // call issues a token for the user or authorises a request as the user,
  // whatever tokens and challenges are still around.
  lemma RevokedStaysOut(ws: seq<World>, acts: seq<Action>, lib: Library, i: nat, j: nat, u: Uuid)
    requires IsRun(ws, acts, lib) && i <= j < |ws|
    requires Barred(ws[i].users, u)
    requires forall k :: i <= k < j && acts[k].Outside? ==> Barred(acts[k].users, u)
    ensures Barred(ws[j].users, u)
    ensures forall t :: t in ws[j].issued && Subject(t) == UuidText(u) ==> t in ws[i].issued
    ensures forall bearer :: CurrentUser(ws[j], bearer, lib) != Authorised(u)
    ensures forall token, jtis :: var r := RefreshResult(ws[j], token, jtis, lib); r.TokenPair? ==> r.pair.subject != u
    ensures forall cid, code, jtis ::
              var r := VerifyOtpResult(ws[j], cid, code, jtis); r.TokenPair? ==> r.pair.subject != u
  {
    hide CurrentUser, RefreshResult, VerifyOtpResult, After;
    BarredRun(ws, acts, lib, i, j, u);
    BarredIsRefused(ws[j], u, lib);
  }

  lemma {:induction false} BarredRun(ws: seq<World>, acts: seq<Action>, lib: Library, i: nat, j: nat, u: Uuid)
    requires IsRun(ws, acts, lib) && i <= j < |ws|
    requires Barred(ws[i].users, u)
    requires forall k :: i <= k < j && acts[k].Outside? ==> Barred(acts[k].users, u)
    ensures Barred(ws[j].users, u)
    ensures forall t :: t in ws[j].issued && Subject(t) == UuidText(u) ==> t in ws[i].issued
  {
    hide After, Outcome;
    if i < j {
      BarredRun(ws, acts, lib, i, j - 1, u);
      assert Enabled(ws[j - 1], acts[j - 1]) && ws[j] == After(ws[j - 1], acts[j - 1], lib);
      BarredStep(ws[j - 1], acts[j - 1], lib, u);
    }
  }
}
