// The OTP, token and session service: each call is one atomic step on the
// users table, the Redis store of challenges and the set of issued tokens.
module Auth {
  import opened Ids
  import opened Users
  import opened Otp
  import opened Tokens

  const MAX_ATTEMPTS: nat := 5
  const OTP_LENGTH: nat := 6

  // Lifetimes, in the units they are configured in.
  datatype Settings = Settings(otpTtlSec: nat, accessTtlMin: nat, refreshTtlDays: nat)
  {
    function OtpMicros(): nat { otpTtlSec * MICROS }
    function AccessSec(): nat { accessTtlMin * 60 }
    function RefreshSec(): nat { refreshTtlDays * 24 * 60 * 60 }
  }

  datatype Challenge = Challenge(mobile: string, code: string, attempts: nat, userIds: set<Uuid>)

  // A Redis key with its expiry instant.
  datatype Stored = Stored(challenge: Challenge, expiresAt: nat)

  type Redis = map<Uuid, Stored>

  // Times are in microseconds. `issued` is every token signed so far, `drawn`
  // every uuid4 drawn so far.
  datatype World = World(
    settings: Settings, now: nat, users: UserTable, redis: Redis, issued: set<Claims>, drawn: set<Uuid>)

  datatype Pair = Pair(subject: Uuid, access: Claims, refresh: Claims)

  datatype Result =
    | ChallengeSent(id: Uuid, expiresAt: nat)
    | TokenPair(pair: Pair)
    | Authorised(user: Uuid)
    | MobileNotRegistered
    | ChallengeNotFound
    | TooManyAttempts
    | InvalidCode(attemptsRemaining: int)
    | Ambiguous(userCount: nat)
    | UserGone
    | AccountRevoked
    | BadToken(why: Decoded)
    | WrongTokenType
    | InvalidSubject
    | UserNotFound
    | NotVerified(status: AuthStatus)
    | MalformedCredentials
    | Done

  // ---------------------------------------------------------------------
  // Redis
  // ---------------------------------------------------------------------

  // GET: an expired key is not there.
  function Get(redis: Redis, key: Uuid, now: nat): Option<Challenge>
  {
    if key in redis && now < redis[key].expiresAt then Some(redis[key].challenge) else None
  }

  // ---------------------------------------------------------------------
  // Tokens of a user
  // ---------------------------------------------------------------------

  function RoleName(r: Role): string
  {
    match r
    case Owner => "owner"
    case Tenant => "tenant"
    case Family => "family"
    case Admin => "admin"
    case Staff => "staff"
  }

  function AccessExtras(u: User): Claims
  {
    map["community_id" := UuidText(u.community), "role" := Text(RoleName(u.role))]
  }

  function AccessToken(s: Settings, id: Uuid, u: User, now: nat, jti: Uuid): Claims
  {
    StandardClaims(UuidText(id), Access, s.AccessSec(), now, jti) + AccessExtras(u)
  }

  function RefreshToken(s: Settings, id: Uuid, now: nat, jti: Uuid): Claims
  {
    StandardClaims(UuidText(id), TokenType.Refresh, s.RefreshSec(), now, jti)
  }

  function PairFor(s: Settings, id: Uuid, u: User, now: nat, jtis: (Uuid, Uuid)): Pair
  {
    Pair(id, AccessToken(s, id, u, now, jtis.0), RefreshToken(s, id, now, jtis.1))
  }

  // A token presented to the service: only issued ones have a good signature.
  function DecodeToken(w: World, token: Claims, lib: Library): Decoded
  {
    if token in w.issued then Decode(token, w.now, lib) else InvalidToken
  }

  // ---------------------------------------------------------------------
  // What each call returns
  // ---------------------------------------------------------------------

  function SendOtpResult(w: World, mobile: string, cid: Uuid): Result
  {
    if ListByMobile(w.users, mobile) == {} then MobileNotRegistered
    else ChallengeSent(cid, w.now + w.settings.OtpMicros())
  }

  function VerifyOtpResult(w: World, cid: Uuid, code: string, jtis: (Uuid, Uuid)): Result
  {
    match Get(w.redis, cid, w.now)
    case None => ChallengeNotFound
    case Some(c) =>
      if c.attempts >= MAX_ATTEMPTS then TooManyAttempts
      else if c.code != code then InvalidCode(MAX_ATTEMPTS - (c.attempts + 1))
      else if |c.userIds| != 1 then Ambiguous(|c.userIds|)
      else
        var id := Only(c.userIds);
        if id !in w.users then UserGone
        else if w.users[id].status == Revoked then AccountRevoked
        else TokenPair(PairFor(w.settings, id, w.users[id], w.now, jtis))
  }

  // Loading the user of a decoded token, as refresh and get_current_user do.
  function VerifiedUser(w: World, token: Claims, kind: TokenType, lib: Library): Result
  {
    var d := DecodeToken(w, token, lib);
    if !d.Payload? then BadToken(d)
    else if d.kind != kind then WrongTokenType
    else if !d.sub.UuidText? then InvalidSubject
    else if d.sub.id !in w.users then UserNotFound
    else if w.users[d.sub.id].status != Verified then NotVerified(w.users[d.sub.id].status)
    else Authorised(d.sub.id)
  }

  function RefreshResult(w: World, token: Claims, jtis: (Uuid, Uuid), lib: Library): Result
  {
    match VerifiedUser(w, token, TokenType.Refresh, lib)
    case Authorised(id) =>
      if id in w.users then TokenPair(PairFor(w.settings, id, w.users[id], w.now, jtis)) else UserNotFound
    case r => r
  }

  // get_current_user, for a bearer credential or none (or another scheme)
  function CurrentUser(w: World, bearer: Option<Claims>, lib: Library): Result
  {
    match bearer
    case None => MalformedCredentials
    case Some(token) => VerifiedUser(w, token, Access, lib)
  }

  // require_role
  datatype RoleCheck = Allowed(user: Uuid) | Forbidden(role: Role) | Refused(why: Result)

  function RequireRole(w: World, roles: set<Role>, bearer: Option<Claims>, lib: Library): RoleCheck
  {
    match CurrentUser(w, bearer, lib)
    case Authorised(id) =>
      if id in w.users && w.users[id].role in roles then Allowed(id)
      else if id in w.users then Forbidden(w.users[id].role)
      else Refused(UserNotFound)
    case r => Refused(r)
  }

  // ---------------------------------------------------------------------
  // What each call does to the stores
  // ---------------------------------------------------------------------

  function NewChallenge(w: World, mobile: string, number: nat): Stored
    requires number < Pow10(OTP_LENGTH)
  {
    Stored(Challenge(mobile, Otp.Padded(number, OTP_LENGTH), 0, ListByMobile(w.users, mobile)),
           w.now + w.settings.OtpMicros())
  }

  function AfterSendOtp(w: World, mobile: string, cid: Uuid, number: nat): World
    requires number < Pow10(OTP_LENGTH)
  {
    if SendOtpResult(w, mobile, cid).ChallengeSent? then
      w.(redis := w.redis[cid := NewChallenge(w, mobile, number)], drawn := w.drawn + {cid})
    else w.(drawn := w.drawn + {cid})
  }

  function Issue(w: World, p: Pair, jtis: (Uuid, Uuid)): World
  {
    w.(issued := w.issued + {p.access, p.refresh}, drawn := w.drawn + {jtis.0, jtis.1})
  }

  function AfterVerifyOtp(w: World, cid: Uuid, code: string, jtis: (Uuid, Uuid)): World
  {
    match VerifyOtpResult(w, cid, code, jtis)
    case InvalidCode(_) =>
      if cid in w.redis then
        var s := w.redis[cid];
        w.(redis := w.redis[cid := s.(challenge := s.challenge.(attempts := s.challenge.attempts + 1))])
      else w
    case TooManyAttempts => w.(redis := w.redis - {cid})
    case Ambiguous(_) => w.(redis := w.redis - {cid})
    case UserGone => w.(redis := w.redis - {cid})
    case TokenPair(p) => Issue(w.(users := Promoted(w.users, p.subject), redis := w.redis - {cid}), p, jtis)
    case _ => w
  }

  // _promote_or_check; the UPDATE happens only when something changed.
  function Promoted(users: UserTable, id: Uuid): UserTable
  {
    if id in users && users[id].status == Pending then users[id := users[id].(status := Verified)] else users
  }

  function AfterRefresh(w: World, token: Claims, jtis: (Uuid, Uuid), lib: Library): World
  {
    match RefreshResult(w, token, jtis, lib)
    case TokenPair(p) => Issue(w, p, jtis)
    case _ => w
  }

  // ---------------------------------------------------------------------
  // The service
  // ---------------------------------------------------------------------

  class AuthService {
    const settings: Settings
    var users: UserTable
    var redis: Redis
    var issued: set<Claims>
    ghost var drawn: set<Uuid>
    var now: nat

    ghost function State(): World
      reads this
    {
      World(settings, now, users, redis, issued, drawn)
    }

    constructor (settings: Settings, users: UserTable)
      ensures State() == World(settings, 0, users, map[], {}, {})
    {
      this.settings := settings;
      this.users, redis, issued, drawn, now := users, map[], {}, {}, 0;
    }

    method SendOtp(mobile: string, cid: Uuid, number: nat) returns (r: Result)
      requires number < Pow10(OTP_LENGTH)
      modifies this
      ensures r == SendOtpResult(old(State()), mobile, cid)
      ensures State() == AfterSendOtp(old(State()), mobile, cid, number)
    {
      drawn := drawn + {cid};
      var found := ListByMobile(users, mobile);
      if found == {} {
        return MobileNotRegistered;
      }
      var generated := GenerateOtp(OTP_LENGTH, number);
      var expiresAt := now + settings.OtpMicros();
      redis := redis[cid := Stored(Challenge(mobile, generated.code, 0, found), expiresAt)];
      return ChallengeSent(cid, expiresAt);
    }

    method VerifyOtp(cid: Uuid, code: string, jtis: (Uuid, Uuid)) returns (r: Result)
      modifies this
      ensures r == VerifyOtpResult(old(State()), cid, code, jtis)
      ensures State() == AfterVerifyOtp(old(State()), cid, code, jtis)
    {
      var raw := Get(redis, cid, now);
      if raw.None? {
        return ChallengeNotFound;
      }
      var payload := raw.value;
      var attempts := payload.attempts;
      if attempts >= MAX_ATTEMPTS {
        redis := redis - {cid};
        return TooManyAttempts;
      }
      if payload.code != code {
        payload := payload.(attempts := attempts + 1);
        // SET with keepttl: the expiry instant stays
        redis := redis[cid := redis[cid].(challenge := payload)];
        return InvalidCode(MAX_ATTEMPTS - payload.attempts);
      }
      if |payload.userIds| != 1 {
        redis := redis - {cid};
        return Ambiguous(|payload.userIds|);
      }
      var id := Only(payload.userIds);
      if id !in users {
        redis := redis - {cid};
        return UserGone;
      }
      var user := users[id];
      if user.status == Revoked {
        return AccountRevoked;
      }
      if user.status == Pending {
        users := users[id := user.(status := Verified)];
      }
      redis := redis - {cid};
      var pair := IssueTokens(id, user, jtis);
      return TokenPair(pair);
    }

    method Refresh(token: Claims, jtis: (Uuid, Uuid), lib: Library) returns (r: Result)
      modifies this
      ensures r == RefreshResult(old(State()), token, jtis, lib)
      ensures State() == AfterRefresh(old(State()), token, jtis, lib)
    {
      var payload := if token in issued then Decode(token, now, lib) else InvalidToken;
      if !payload.Payload? {
        return BadToken(payload);
      }
      if payload.kind != TokenType.Refresh {
        return WrongTokenType;
      }
      if !payload.sub.UuidText? {
        return InvalidSubject;
      }
      var id := payload.sub.id;
      if id !in users {
        return UserNotFound;
      }
      if users[id].status != Verified {
        return NotVerified(users[id].status);
      }
      var pair := IssueTokens(id, users[id], jtis);
      return TokenPair(pair);
    }

    method IssueTokens(id: Uuid, user: User, jtis: (Uuid, Uuid)) returns (p: Pair)
      modifies this`issued, this`drawn
      ensures p == PairFor(settings, id, user, now, jtis)
      ensures issued == old(issued) + {p.access, p.refresh}
      ensures drawn == old(drawn) + {jtis.0, jtis.1}
    {
      var access := BuildToken(UuidText(id), Access, settings.AccessSec(), Some(AccessExtras(user)), now, jtis.0);
      var refresh := BuildToken(UuidText(id), TokenType.Refresh, settings.RefreshSec(), None, now, jtis.1);
      NoExtras(StandardClaims(UuidText(id), TokenType.Refresh, settings.RefreshSec(), now, jtis.1));
      p := Pair(id, access.claims, refresh.claims);
      issued := issued + {p.access, p.refresh};
      drawn := drawn + {jtis.0, jtis.1};
    }
  }

  lemma NoExtras(c: Claims)
    ensures c + map[] == c
  {}

  // ---------------------------------------------------------------------
  // Tokens are told apart by type
  // ---------------------------------------------------------------------

  // No token is accepted both by refresh and by get_current_user, whatever the
  // state of the stores at the two calls.
  lemma NoTokenServesBoth(w: World, w': World, token: Claims, jtis: (Uuid, Uuid), lib: Library)
    requires RefreshResult(w, token, jtis, lib).TokenPair?
    ensures !CurrentUser(w', Some(token), lib).Authorised?
  {
    assert Decode(token, w.now, lib) == Validate(token);
  }

  // ---------------------------------------------------------------------
  // What each call needs, told from the stores and the token's claims
  // ---------------------------------------------------------------------

  // No code is sent exactly when nobody holds the mobile. Otherwise one new
  // challenge is stored: for all holders, under a fresh code, with no attempt.
  lemma SendOtpExactly(w: World, mobile: string, cid: Uuid, number: nat)
    requires number < Pow10(OTP_LENGTH)
    ensures SendOtpResult(w, mobile, cid) == MobileNotRegistered <==>
            forall x :: x in w.users ==> w.users[x].mobile != mobile
    ensures var w' := AfterSendOtp(w, mobile, cid, number);
            if forall x :: x in w.users ==> w.users[x].mobile != mobile then w'.redis == w.redis
            else
              var e := w.now + w.settings.otpTtlSec * 1_000_000;
              && SendOtpResult(w, mobile, cid) == ChallengeSent(cid, e)
              && cid in w'.redis && w'.redis - {cid} == w.redis - {cid}
              && IsSent(w'.redis[cid], w.users, mobile, number, e)
  {
    assert forall x :: x in ListByMobile(w.users, mobile) <==> x in w.users && w.users[x].mobile == mobile;
    PrintThenParse(number, OTP_LENGTH);
  }

  ghost predicate IsSent(s: Stored, users: UserTable, mobile: string, number: nat, expiresAt: nat)
  {
    && s.expiresAt == expiresAt && s.challenge.mobile == mobile && s.challenge.attempts == 0
    && IsCode(s.challenge.code, 6) && Parse(s.challenge.code) == number
    && forall x :: x in s.challenge.userIds <==> x in users && users[x].mobile == mobile
  }

  // The token was issued, is not past, and says that it is of this kind and
  // for this subject.
  ghost predicate Presents(w: World, token: Claims, kind: string, sub: Value, lib: Library)
  {
    && token in w.issued
    && {"sub", "type", "iat", "exp", "jti"} <= token.Keys
    && token["sub"] == sub && IsText(sub) && token["type"] == Text(kind)
    && token["iat"].Number? && IsText(token["jti"])
    && token["exp"].Number? && NotPast(token["exp"].n, w.now, lib)
    && (token.Keys !! LIBRARY_CLAIMS || lib.acceptsOther(token))
  }

  // Loading the user of a token succeeds, and fails in each of its ways,
  // exactly as the token's claims and the users table say.
  lemma VerifiedUserExactly(w: World, token: Claims, kind: TokenType, lib: Library, u: Uuid)
    ensures var r, name := VerifiedUser(w, token, kind, lib), if kind == Access then "access" else "refresh";
            var other := if kind == Access then "refresh" else "access";
            && (r == Authorised(u) <==>
                  Presents(w, token, name, UuidText(u), lib) && u in w.users && w.users[u].status == Verified)
            && (Presents(w, token, name, UuidText(u), lib) ==>
                  && (r == UserNotFound <==> u !in w.users)
                  && (r.NotVerified? <==> u in w.users && w.users[u].status != Verified)
                  && (r.NotVerified? ==> r.status == w.users[u].status))
            && (r == InvalidSubject <==> exists t: string :: Presents(w, token, name, Text(t), lib))
            && (r == WrongTokenType <==> exists sub :: Presents(w, token, other, sub, lib))
            && (r.BadToken? <==>
                  forall sub :: !Presents(w, token, "access", sub, lib) && !Presents(w, token, "refresh", sub, lib))
  {
    if token in w.issued {
      var d := Decode(token, w.now, lib);
      if d.Payload? {
        assert Presents(w, token, if d.kind == Access then "access" else "refresh", d.sub, lib);
        assert d.sub.Text? ==> d.sub == Text(d.sub.text);
      }
    }
  }

  // A request is authorised exactly when it bears an access token of a user who
  // is VERIFIED now; a role gate adds the user's role.
  lemma AuthorisedExactly(w: World, roles: set<Role>, bearer: Option<Claims>, lib: Library, u: Uuid)
    ensures CurrentUser(w, bearer, lib) == Authorised(u) <==>
            && bearer.Some? && Presents(w, bearer.value, "access", UuidText(u), lib)
            && u in w.users && w.users[u].status == Verified
    ensures bearer.None? ==> CurrentUser(w, bearer, lib) == MalformedCredentials
    ensures RequireRole(w, roles, bearer, lib) == Allowed(u) <==>
            CurrentUser(w, bearer, lib) == Authorised(u) && u in w.users && w.users[u].role in roles
    ensures CurrentUser(w, bearer, lib) == Authorised(u) && u in w.users && w.users[u].role !in roles ==>
              RequireRole(w, roles, bearer, lib) == Forbidden(w.users[u].role)
    ensures !CurrentUser(w, bearer, lib).Authorised? ==>
              RequireRole(w, roles, bearer, lib) == Refused(CurrentUser(w, bearer, lib))
  {
    hide VerifiedUser, Presents;
    if bearer.Some? {
      VerifiedUserExactly(w, bearer.value, Access, lib, u);
    }
  }

  // A refresh yields a pair exactly for a refresh token of a user who is
  // VERIFIED now, and the pair is that user's.
  lemma RefreshedExactly(w: World, token: Claims, jtis: (Uuid, Uuid), lib: Library, u: Uuid)
    ensures var r := RefreshResult(w, token, jtis, lib);
            && (r.TokenPair? && r.pair.subject == u <==>
                  && Presents(w, token, "refresh", UuidText(u), lib)
                  && u in w.users && w.users[u].status == Verified)
            && (r.TokenPair? && r.pair.subject == u && u in w.users ==>
                  r.pair == PairFor(w.settings, u, w.users[u], w.now, jtis))
            && (!r.TokenPair? ==> r == VerifiedUser(w, token, TokenType.Refresh, lib))
  {
    VerifiedUserExactly(w, token, TokenType.Refresh, lib, u);
    var r := RefreshResult(w, token, jtis, lib);
    if r.TokenPair? {
      VerifiedUserExactly(w, token, TokenType.Refresh, lib, r.pair.subject);
    }
    hide VerifiedUser, Presents;
  }

  // What the tokens of a pair say, for their configured lifetimes: the access
  // token carries the user's community and role, the refresh token neither.

  lemma AccessTokenCarries(w: World, id: Uuid, u: User, jtis: (Uuid, Uuid), later: nat, lib: Library)
    ensures var iat := Seconds(w.now); var exp := iat + w.settings.accessTtlMin * 60;
            var d := Decode(PairFor(w.settings, id, u, w.now, jtis).access, later, lib);
            var extra := map["community_id" := UuidText(u.community), "role" := Text(RoleName(u.role))];
            && (Seconds(later) < exp ==> d == Payload(UuidText(id), Access, iat, exp, UuidText(jtis.0), extra))
            && (Seconds(later) > exp ==> d == TokenExpired)
  {
    hide Decode, Validate;
    var ttl := w.settings.AccessSec();
    BuiltTokenDecodes(UuidText(id), Access, ttl, Some(AccessExtras(u)), w.now, jtis.0, later, lib);
  }

  lemma RefreshTokenCarries(w: World, id: Uuid, u: User, jtis: (Uuid, Uuid), later: nat, lib: Library)
    ensures var iat := Seconds(w.now); var exp := iat + w.settings.refreshTtlDays * 86_400;
            var d := Decode(PairFor(w.settings, id, u, w.now, jtis).refresh, later, lib);
            && (Seconds(later) < exp ==>
                  d == Payload(UuidText(id), TokenType.Refresh, iat, exp, UuidText(jtis.1), map[]))
            && (Seconds(later) > exp ==> d == TokenExpired)
  {
    hide Decode, Validate;
    var ttl := w.settings.RefreshSec();
    BuiltTokenDecodes(UuidText(id), TokenType.Refresh, ttl, None, w.now, jtis.1, later, lib);
    NoExtras(StandardClaims(UuidText(id), TokenType.Refresh, ttl, w.now, jtis.1));
  }

  lemma RoleNames()
    ensures RoleName(Owner) == "owner" && RoleName(Tenant) == "tenant" && RoleName(Family) == "family"
    ensures RoleName(Admin) == "admin" && RoleName(Staff) == "staff"
  {}

  // A token that was issued is accepted by its own endpoint as long as the user
  // stays VERIFIED and the token's lifetime lasts.
  lemma AccessTokenWorks(w: World, w': World, id: Uuid, u: User, jti: Uuid, lib: Library)
    requires AccessToken(w.settings, id, u, w.now, jti) in w'.issued
    requires id in w'.users && w'.users[id].status == Verified
    requires Seconds(w'.now) < Seconds(w.now) + w.settings.AccessSec()
    ensures CurrentUser(w', Some(AccessToken(w.settings, id, u, w.now, jti)), lib) == Authorised(id)
  {
    BuiltTokenDecodes(UuidText(id), Access, w.settings.AccessSec(), Some(AccessExtras(u)), w.now, jti, w'.now, lib);
    hide Decode;
  }

  lemma RefreshTokenWorks(w: World, w': World, id: Uuid, jti: Uuid, jtis: (Uuid, Uuid), lib: Library)
    requires RefreshToken(w.settings, id, w.now, jti) in w'.issued
    requires id in w'.users && w'.users[id].status == Verified
    requires Seconds(w'.now) < Seconds(w.now) + w.settings.RefreshSec()
    ensures RefreshResult(w', RefreshToken(w.settings, id, w.now, jti), jtis, lib) ==
            TokenPair(PairFor(w'.settings, id, w'.users[id], w'.now, jtis))
  {
    BuiltTokenDecodes(UuidText(id), TokenType.Refresh, w.settings.RefreshSec(), None, w.now, jti, w'.now, lib);
    NoExtras(StandardClaims(UuidText(id), TokenType.Refresh, w.settings.RefreshSec(), w.now, jti));
    hide Decode;
  }
}
