// What holds of every run of statements on the database.
module DatabaseRuns {
  import opened Ids
  import opened Users
  import opened Ledger
  import opened Schema

  ghost predicate IsRun(dbs: seq<Db>, ss: seq<Statement>, at: seq<nat>)
  {
    && |dbs| == |ss| + 1 && |at| == |ss|
    && dbs[0] == EMPTY
    && forall i :: 0 <= i < |ss| ==> dbs[i + 1] == Exec(dbs[i], ss[i], at[i])
  }

  // ---------------------------------------------------------------------
  // The constraints hold in every reachable state
  // ---------------------------------------------------------------------

  ghost predicate UsersOk(db: Db)
  {
    && UniqueMobile(db.users)
    && forall x :: x in db.users ==> db.users[x].community in db.communities
  }

  // UNIQUE (community_id, code)
  ghost predicate UniqueCode(units: map<Uuid, Unit>)
  {
    forall x, y :: x in units && y in units && x != y ==>
      units[x].community != units[y].community || units[x].code != units[y].code
  }

  ghost predicate UnitsOk(db: Db)
  {
    && UniqueCode(db.units)
    && forall x :: x in db.units ==> db.units[x].community in db.communities
  }

  // UNIQUE (user_id) and UNIQUE (community_id, username)
  ghost predicate UniqueEndpoint(endpoints: map<Uuid, Endpoint>)
  {
    forall x, y :: x in endpoints && y in endpoints && x != y ==>
      && endpoints[x].user != endpoints[y].user
      && (endpoints[x].community != endpoints[y].community || endpoints[x].username != endpoints[y].username)
  }

  ghost predicate EndpointsOk(db: Db)
  {
    && UniqueEndpoint(db.endpoints)
    && forall x :: x in db.endpoints ==>
         db.endpoints[x].community in db.communities && db.endpoints[x].user in db.users
  }

  // All constraints on a ledger row but UNIQUE (idempotency_key).
  predicate EntryOk(communities: set<Uuid>, users: set<Uuid>, e: Entry)
  {
    && -NUMERIC_18_4 < e.delta < NUMERIC_18_4
    && ScopeOwner(e.scope, e.user)
    && e.community in communities
    && (e.user.Some? ==> e.user.value in users)
  }

  ghost predicate LedgerOk(db: Db)
  {
    && (forall e :: e in db.ledger ==> EntryOk(db.communities.Keys, db.users.Keys, e))
    && UniqueKey(db.ledger)
  }

  // UNIQUE (idempotency_key), under which NULLs are distinct
  ghost predicate UniqueKey(ledger: seq<Entry>)
  {
    forall i, j :: 0 <= i < j < |ledger| && ledger[i].key.Some? ==> ledger[i].key != ledger[j].key
  }

  // UNIQUE (sip_domain)
  ghost predicate UniqueDomain(communities: map<Uuid, Community>)
  {
    forall c, d :: c in communities && d in communities && c != d ==>
      communities[c].sipDomain != communities[d].sipDomain
  }

  ghost predicate CommunitiesOk(db: Db)
  {
    UniqueDomain(db.communities)
  }

  ghost predicate Wf(db: Db)
  {
    CommunitiesOk(db) && UsersOk(db) && UnitsOk(db) && EndpointsOk(db) && LedgerOk(db)
  }

  ghost predicate OwnsLedgerRow(ledger: seq<Entry>, user: Uuid)
  {
    exists e :: e in ledger && e.user == Some(user)
  }

  lemma OwnersHavePlaces(ledger: seq<Entry>, user: Uuid)
    ensures OwnsLedgerRow(ledger, user) <==> Matched(ledger, PlacesOf(ledger, user)) != {}
  {
    if e :| e in ledger && e.user == Some(user) {
      var p: nat :| p < |ledger| && ledger[p] == e;
      assert p in Matched(ledger, PlacesOf(ledger, user));
    }
    if p :| p in Matched(ledger, PlacesOf(ledger, user)) {
      assert ledger[p] in ledger;
    }
  }

  // What a mutation of the ledger comes to, with and without a row to hit.

  lemma {:induction false} RemovedRows(ledger: seq<Entry>, places: set<nat>)
    ensures if Matched(ledger, places) == {} then Removed(ledger, places) == ledger
            else |Removed(ledger, places)| < |ledger|
  {
    if |ledger| > 0 {
      var rest, last := ledger[..|ledger| - 1], |ledger| - 1;
      RemovedRows(rest, places);
      assert ledger == rest + [ledger[last]];
      assert last in places <==> last in Matched(ledger, places);
      assert Matched(ledger, places) == Matched(rest, places) + (if last in places then {last} else {});
    }
  }

  lemma OverwrittenRows(ledger: seq<Entry>, places: set<nat>, e: Entry)
    ensures Matched(ledger, places) == {} ==> Overwritten(ledger, places, e) == ledger
  {
    forall p: nat | p < |ledger| && p in places ensures p in Matched(ledger, places) {}
  }

  lemma DisownedRows(ledger: seq<Entry>, user: Uuid)
    ensures Disowned(ledger, user) == ledger <==> !OwnsLedgerRow(ledger, user)
  {
    if e :| e in ledger && e.user == Some(user) {
      var p: nat :| p < |ledger| && ledger[p] == e;
      assert Disowned(ledger, user)[p] != ledger[p];
    }
  }

  // A committed statement leaves every row of the ledger as it was.
  lemma CommitsOnlyAppend(db: Db, s: Statement, now: nat)
    requires Verdict(db, s) == Committed
    ensures Rewrite(db, s, now).ledger ==
            if s.AppendLedger? then db.ledger + [s.entry.(createdAt := now)] else db.ledger
  {
    match s
    case UpdateLedger(places, e) => OverwrittenRows(db.ledger, places, e);
    case DeleteLedger(places) => RemovedRows(db.ledger, places);
    case DeleteUser(id) =>
      OwnersHavePlaces(db.ledger, id);
      DisownedRows(db.ledger, id);
    case _ =>
  }

  // What a commit says about the statement.
  lemma CommitMeans(db: Db, s: Statement)
    requires Verdict(db, s) == Committed
    ensures s.DeleteCommunity? && s.id in db.communities ==> !Referenced(db, s.id)
    ensures s.InsertUser? ==> s.id !in db.users
    ensures s.InsertUser? || (s.UpdateUser? && s.id in db.users) ==>
              UserFits(db.users, s.id, s.user) && s.user.community in db.communities
    ensures s.DeleteUser? && s.id in db.users ==> !OwnsLedgerRow(db.ledger, s.id)
    ensures s.InsertUnit? ==> s.id !in db.units
    ensures s.InsertUnit? || (s.UpdateUnit? && s.id in db.units) ==>
              UnitFits(db.units, s.id, s.unit) && s.unit.community in db.communities
    ensures s.InsertEndpoint? ==> s.id !in db.endpoints
    ensures s.InsertEndpoint? || (s.UpdateEndpoint? && s.id in db.endpoints) ==>
              EndpointFits(db.endpoints, s.id, s.endpoint) &&
              s.endpoint.community in db.communities && s.endpoint.user in db.users
    ensures s.AppendLedger? ==>
              EntryOk(db.communities.Keys, db.users.Keys, s.entry) &&
              (s.entry.key.Some? ==> s.entry.key.value !in Keys(db.ledger))
  {
    if s.DeleteUser? {
      OwnersHavePlaces(db.ledger, s.id);
    }
  }

  // Aborts change nothing; bumps change no key.
  lemma ExecKeys(db: Db, s: Statement, now: nat)
    ensures var db' := Exec(db, s, now);
            if Verdict(db, s) != Committed then db' == db
            else db' == Rewrite(db, s, now).(communities := db'.communities) &&
                 db'.communities.Keys == Rewrite(db, s, now).communities.Keys
  {
    hide Verdict, Writes, Rewrite;
  }

  // Which tables a committed statement leaves alone, and which keys it keeps.
  lemma Untouched(db: Db, s: Statement, now: nat)
    requires Verdict(db, s) == Committed
    ensures var db' := Rewrite(db, s, now);
            && (s.InsertUser? || s.UpdateUser? || s.DeleteUser? || db'.users == db.users)
            && (s.InsertUnit? || s.UpdateUnit? || s.DeleteUnit? || db'.units == db.units)
            && (s.InsertEndpoint? || s.UpdateEndpoint? || s.DeleteEndpoint? || s.DeleteUser? ||
                db'.endpoints == db.endpoints)
            && (s.AppendLedger? || db'.ledger == db.ledger)
            && (s.DeleteUser? || db.users.Keys <= db'.users.Keys)
            && (forall c :: c in db.communities && c !in db'.communities ==> !Referenced(db, c))
  {
    if s.DeleteCommunity? {
      CommitMeans(db, s);
    }
    CommitsOnlyAppend(db, s, now);
    hide Verdict, Referenced, Overwritten, Removed, Disowned;
  }

  lemma CommunitiesStayOk(db: Db, s: Statement, now: nat)
    requires CommunitiesOk(db)
    ensures CommunitiesOk(Exec(db, s, now))
  {
    hide Writes;
    if Verdict(db, s) == Committed {
      DomainsStayDistinct(db, s, now);
      hide Verdict, Rewrite;
      var mid, after := Rewrite(db, s, now).communities, Exec(db, s, now).communities;
      assert after.Keys == mid.Keys && forall c :: c in mid ==> after[c].sipDomain == mid[c].sipDomain;
    }
  }

  lemma DomainsStayDistinct(db: Db, s: Statement, now: nat)
    requires CommunitiesOk(db) && Verdict(db, s) == Committed
    ensures CommunitiesOk(Rewrite(db, s, now))
  {
    if !s.InsertCommunity? { hide Verdict; }
    hide Overwritten, Removed, Disowned, EndpointsOf, View;
  }

  lemma UsersStayOk(db: Db, s: Statement, now: nat)
    requires UsersOk(db)
    ensures UsersOk(Exec(db, s, now))
  {
    ExecKeys(db, s, now);
    hide Exec;
    if Verdict(db, s) == Committed {
      Untouched(db, s, now);
      if s.InsertUser? || s.UpdateUser? || s.DeleteUser? {
        UserWriteOk(db, s, now);
      }
    }
  }

  lemma UserWriteOk(db: Db, s: Statement, now: nat)
    requires UsersOk(db) && Verdict(db, s) == Committed
    requires s.InsertUser? || s.UpdateUser? || s.DeleteUser?
    ensures UsersOk(Rewrite(db, s, now))
  {}

  lemma UnitsStayOk(db: Db, s: Statement, now: nat)
    requires UnitsOk(db)
    ensures UnitsOk(Exec(db, s, now))
  {
    ExecKeys(db, s, now);
    hide Exec;
    if Verdict(db, s) == Committed {
      Untouched(db, s, now);
      if s.InsertUnit? || s.UpdateUnit? || s.DeleteUnit? {
        UnitWriteOk(db, s, now);
      }
    }
  }

  lemma UnitWriteOk(db: Db, s: Statement, now: nat)
    requires UnitsOk(db) && Verdict(db, s) == Committed
    requires s.InsertUnit? || s.UpdateUnit? || s.DeleteUnit?
    ensures UnitsOk(Rewrite(db, s, now))
  {}

  lemma EndpointsStayOk(db: Db, s: Statement, now: nat)
    requires EndpointsOk(db)
    ensures EndpointsOk(Exec(db, s, now))
  {
    ExecKeys(db, s, now);
    hide Exec;
    if Verdict(db, s) == Committed {
      Untouched(db, s, now);
      if s.InsertEndpoint? || s.UpdateEndpoint? || s.DeleteEndpoint? || s.DeleteUser? {
        EndpointWriteOk(db, s, now);
      }
    }
  }

  lemma EndpointWriteOk(db: Db, s: Statement, now: nat)
    requires EndpointsOk(db) && Verdict(db, s) == Committed
    requires s.InsertEndpoint? || s.UpdateEndpoint? || s.DeleteEndpoint? || s.DeleteUser?
    ensures EndpointsOk(Rewrite(db, s, now))
  {}

  lemma LedgerStaysOk(db: Db, s: Statement, now: nat)
    requires LedgerOk(db)
    ensures LedgerOk(Exec(db, s, now))
  {
    ExecKeys(db, s, now);
    hide Exec;
    if Verdict(db, s) == Committed {
      Untouched(db, s, now);
      if s.AppendLedger? || s.DeleteUser? {
        LedgerWriteOk(db, s, now);
      }
    }
  }

  lemma LedgerWriteOk(db: Db, s: Statement, now: nat)
    requires LedgerOk(db) && Verdict(db, s) == Committed
    requires s.AppendLedger? || s.DeleteUser?
    ensures LedgerOk(Rewrite(db, s, now))
  {
    CommitMeans(db, s);
    CommitsOnlyAppend(db, s, now);
    hide Verdict, Disowned;
  }

  lemma {:induction false} RunKeepsWf(dbs: seq<Db>, ss: seq<Statement>, at: seq<nat>, i: nat)
    requires IsRun(dbs, ss, at) && i < |dbs|
    ensures Wf(dbs[i])
  {
    if i > 0 {
      RunKeepsWf(dbs, ss, at, i - 1);
      CommunitiesStayOk(dbs[i - 1], ss[i - 1], at[i - 1]);
      UsersStayOk(dbs[i - 1], ss[i - 1], at[i - 1]);
      UnitsStayOk(dbs[i - 1], ss[i - 1], at[i - 1]);
      EndpointsStayOk(dbs[i - 1], ss[i - 1], at[i - 1]);
      LedgerStaysOk(dbs[i - 1], ss[i - 1], at[i - 1]);
    }
  }

  // ---------------------------------------------------------------------
  // The ledger is append-only
  // ---------------------------------------------------------------------

  // The earlier ledger is contained, row for row unchanged, in the later one.
  lemma {:induction false} LedgerOnlyGrows(dbs: seq<Db>, ss: seq<Statement>, at: seq<nat>, i: nat, j: nat)
    requires IsRun(dbs, ss, at) && i <= j < |dbs|
    ensures dbs[i].ledger <= dbs[j].ledger
  {
    hide Exec;
    if i < j {
      LedgerOnlyGrows(dbs, ss, at, i, j - 1);
      assert dbs[j] == Exec(dbs[j - 1], ss[j - 1], at[j - 1]);
      LedgerStep(dbs[j - 1], ss[j - 1], at[j - 1]);
    }
  }

  lemma LedgerStep(db: Db, s: Statement, now: nat)
    ensures db.ledger <= Exec(db, s, now).ledger
  {
    if Verdict(db, s) == Committed {
      CommitsOnlyAppend(db, s, now);
    }
    hide Verdict, Rewrite, Writes, BumpEach;
  }

  // The triggers abort a statement exactly when its writes, cascades included,
  // would change or remove a row that is there, or are an UPDATE that hits
  // some rows and finds them as it would leave them.
  lemma AppendOnlyAbortsExactly(db: Db, s: Statement, now: nat)
    ensures Verdict(db, s) == Aborted(AppendOnly) <==>
            || !(db.ledger <= Rewrite(db, s, now).ledger)
            || (s.UpdateLedger? && Matched(db.ledger, s.places) != {} && Rewrite(db, s, now).ledger == db.ledger)
    ensures s.UpdateLedger? ==>
              (db.ledger <= Rewrite(db, s, now).ledger <==>
               forall p :: p in s.places && p < |db.ledger| ==> db.ledger[p] == s.entry)
  {
    match s
    case UpdateLedger(places, e) =>
      OverwrittenRows(db.ledger, places, e);
      OverwrittenDiffers(db.ledger, places, e);
    case DeleteLedger(places) => RemovedRows(db.ledger, places);
    case DeleteUser(id) =>
      OwnersHavePlaces(db.ledger, id);
      DisownedRows(db.ledger, id);
    case _ =>
  }

  lemma OverwrittenDiffers(ledger: seq<Entry>, places: set<nat>, e: Entry)
    ensures Overwritten(ledger, places, e) == ledger <==> forall p :: p in places && p < |ledger| ==> ledger[p] == e
  {
    if p :| p in places && p < |ledger| && ledger[p] != e {
      assert Overwritten(ledger, places, e)[p] == e;
    }
  }

  // Deleting a user aborts, and changes nothing, exactly when ON DELETE SET
  // NULL would rewrite a ledger row; otherwise the user goes, with every
  // endpoint of the user.
  lemma DeleteUserAbortsExactly(db: Db, user: Uuid, now: nat)
    requires user in db.users
    ensures Rewrite(db, DeleteUser(user), now).ledger != db.ledger <==> OwnsLedgerRow(db.ledger, user)
    ensures Verdict(db, DeleteUser(user)) == (if OwnsLedgerRow(db.ledger, user) then Aborted(AppendOnly) else Committed)
    ensures OwnsLedgerRow(db.ledger, user) ==> Exec(db, DeleteUser(user), now) == db
    ensures !OwnsLedgerRow(db.ledger, user) ==>
              var db' := Exec(db, DeleteUser(user), now);
              && user !in db'.users && db'.ledger == db.ledger
              && forall x :: x in db'.endpoints ==> db'.endpoints[x].user != user
  {
    hide BumpEach, CommunitiesOfEndpoints, OwnsLedgerRow, Disowned;
    OwnersHavePlaces(db.ledger, user);
    DisownedRows(db.ledger, user);
  }

  // The write that the trigger stops there would have broken ck_scope_owner:
  // it leaves an entry of a user without its user.
  lemma SetNullBreaksScopeOwner(db: Db, user: Uuid, now: nat)
    requires LedgerOk(db) && user in db.users && OwnsLedgerRow(db.ledger, user)
    ensures exists e :: e in Rewrite(db, DeleteUser(user), now).ledger && !ScopeOwner(e.scope, e.user)
  {
    var e :| e in db.ledger && e.user == Some(user);
    assert EntryOk(db.communities.Keys, db.users.Keys, e);
    var p: nat :| p < |db.ledger| && db.ledger[p] == e;
    assert Disowned(db.ledger, user)[p] == e.(user := None);
  }

  // A user who owns a ledger row cannot be deleted, then or ever after.
  lemma LedgerOwnersStay(dbs: seq<Db>, ss: seq<Statement>, at: seq<nat>, i: nat, j: nat, user: Uuid)
    requires IsRun(dbs, ss, at) && i <= j < |dbs|
    requires OwnsLedgerRow(dbs[i].ledger, user)
    ensures user in dbs[j].users
    ensures Verdict(dbs[j], DeleteUser(user)) == Aborted(AppendOnly)
  {
    RunKeepsWf(dbs, ss, at, j);
    LedgerOnlyGrows(dbs, ss, at, i, j);
    hide Verdict;
    var e :| e in dbs[i].ledger && e.user == Some(user);
    assert e in dbs[j].ledger;
    assert EntryOk(dbs[j].communities.Keys, dbs[j].users.Keys, e);
    DeleteUserAbortsExactly(dbs[j], user, 0);
  }

  // ---------------------------------------------------------------------
  // Balances
  // ---------------------------------------------------------------------

  // How long the ledger was at the last refresh before state j.
  function RefreshedLength(dbs: seq<Db>, ss: seq<Statement>, j: nat): nat
    requires |dbs| == |ss| + 1 && j < |dbs|
  {
    if j == 0 then 0
    else if ss[j - 1].RefreshBalances? then |dbs[j - 1].ledger|
    else RefreshedLength(dbs, ss, j - 1)
  }

  lemma RefreshAlwaysCommits(dbs: seq<Db>, ss: seq<Statement>, at: seq<nat>, i: nat)
    requires IsRun(dbs, ss, at) && i < |dbs|
    ensures Verdict(dbs[i], RefreshBalances) == Committed
  {
    RunKeepsWf(dbs, ss, at, i);
    forall e | e in dbs[i].ledger ensures ScopeOwner(e.scope, e.user) {
      assert EntryOk(dbs[i].communities.Keys, dbs[i].users.Keys, e);
    }
    ScopeOwnerKeepsIndex(dbs[i].ledger);
  }

  lemma {:induction false} ViewIsOfPrefix(dbs: seq<Db>, ss: seq<Statement>, at: seq<nat>, j: nat)
    requires IsRun(dbs, ss, at) && j < |dbs|
    ensures RefreshedLength(dbs, ss, j) <= |dbs[j].ledger|
    ensures dbs[j].balances == View(dbs[j].ledger[..RefreshedLength(dbs, ss, j)])
  {
    hide View, Exec;
    if j == 0 {
      ViewOfNothing();
      assert dbs[0].ledger[..0] == [];
    } else {
      var db := dbs[j - 1];
      ViewIsOfPrefix(dbs, ss, at, j - 1);
      RefreshAlwaysCommits(dbs, ss, at, j - 1);
      assert dbs[j] == Exec(db, ss[j - 1], at[j - 1]);
      LedgerStep(db, ss[j - 1], at[j - 1]);
      BalancesStep(db, ss[j - 1], at[j - 1]);
      var n := RefreshedLength(dbs, ss, j);
      assert dbs[j].ledger[..n] == db.ledger[..n];
      assert db.ledger[..|db.ledger|] == db.ledger;
    }
  }

  // So at any point of a run it shows the groups of that prefix, each with the
  // time of its latest entry there.
  lemma ViewShowsLatest(dbs: seq<Db>, ss: seq<Statement>, at: seq<nat>, j: nat, g: Group)
    requires IsRun(dbs, ss, at) && j < |dbs|
    ensures RefreshedLength(dbs, ss, j) <= |dbs[j].ledger|
    ensures var seen, view := dbs[j].ledger[..RefreshedLength(dbs, ss, j)], dbs[j].balances;
            && (g in view <==> exists e :: e in seen && InGroup(e, g))
            && (g in view ==>
                  && (forall e :: e in seen && InGroup(e, g) ==> e.createdAt <= view[g].lastChangeAt)
                  && (exists e :: e in seen && InGroup(e, g) && e.createdAt == view[g].lastChangeAt))
  {
    hide View, Exec;
    ViewIsOfPrefix(dbs, ss, at, j);
    ViewIsExact(dbs[j].ledger[..RefreshedLength(dbs, ss, j)], g);
  }

  // Only a refresh writes the view.
  lemma BalancesStep(db: Db, s: Statement, now: nat)
    ensures Exec(db, s, now).balances ==
            if s.RefreshBalances? && Verdict(db, s) == Committed then View(db.ledger) else db.balances
  {
    hide Verdict, Writes, BumpEach, View;
  }

  lemma ViewOfNothing()
    ensures View([]) == map[]
  {
    assert Groups([]) == {};
  }

  // At any point of a run the true balance of a group is what the view shows
  // plus the deltas appended since the last refresh.
  lemma BalanceIsViewPlusRecent(dbs: seq<Db>, ss: seq<Statement>, at: seq<nat>, j: nat, g: Group)
    requires IsRun(dbs, ss, at) && j < |dbs|
    ensures RefreshedLength(dbs, ss, j) <= |dbs[j].ledger|
    ensures BalanceOf(dbs[j].ledger, g) ==
            Shown(dbs[j].balances, g) + BalanceOf(dbs[j].ledger[RefreshedLength(dbs, ss, j)..], g)
  {
    ViewIsOfPrefix(dbs, ss, at, j);
    var l, n := dbs[j].ledger, RefreshedLength(dbs, ss, j);
    assert l == l[..n] + l[n..];
    BalanceAdds(l[..n], l[n..], g);
    ShownIsBalance(l[..n], g);
  }

  // ---------------------------------------------------------------------
  // Idempotency keys
  // ---------------------------------------------------------------------

  function Acceptable(communities: set<Uuid>, users: set<Uuid>): Entry -> bool
  {
    (e: Entry) => EntryOk(communities, users, e)
  }

  // Requests, each made at its createdAt.
  function ExecAppends(db: Db, es: seq<Entry>): Db
    decreases |es|
  {
    if |es| == 0 then db else ExecAppends(Exec(db, AppendLedger(es[0]), es[0].createdAt), es[1..])
  }

  lemma {:induction false} AppendsAreLedgerAppends(db: Db, es: seq<Entry>)
    ensures ExecAppends(db, es) ==
            db.(ledger := AppendAll(db.ledger, es, Acceptable(db.communities.Keys, db.users.Keys)))
    decreases |es|
  {
    if |es| > 0 {
      var db' := Exec(db, AppendLedger(es[0]), es[0].createdAt);
      assert BumpEach(db.communities, multiset{}, es[0].createdAt) == db.communities;
      assert db' == db.(ledger := Append(db.ledger, es[0], Acceptable(db.communities.Keys, db.users.Keys)));
      AppendsAreLedgerAppends(db', es[1..]);
    }
  }

  // Any number of retries leaves the database, and so every balance, as one
  // attempt per key would.
  lemma RetriedAppendsChangeNothing(db: Db, es: seq<Entry>)
    requires forall d, e :: d in es && e in es && d.key.Some? && d.key == e.key ==>
               d.(createdAt := 0) == e.(createdAt := 0)
    ensures ExecAppends(db, es) == ExecAppends(db, DropRepeats(es, {}))
  {
    AppendsAreLedgerAppends(db, es);
    AppendsAreLedgerAppends(db, DropRepeats(es, {}));
    RetriesChangeNothing(db.ledger, es, Acceptable(db.communities.Keys, db.users.Keys));
  }

  // Once an append under a key has committed, the ledger holds that one entry
  // under the key for good, and every later append under it aborts and changes
  // nothing, whatever statements come in between.
  lemma KeyCommitsOnce(dbs: seq<Db>, ss: seq<Statement>, at: seq<nat>, i: nat, j: nat)
    requires IsRun(dbs, ss, at) && i < j < |dbs|
    requires ss[i].AppendLedger? && ss[i].entry.key.Some? && Verdict(dbs[i], ss[i]) == Committed
    ensures exists p: nat :: IsOnlyOfItsKey(dbs[j].ledger, p) && dbs[j].ledger[p] == ss[i].entry.(createdAt := at[i])
    ensures j < |ss| && ss[j].AppendLedger? && ss[j].entry.key == ss[i].entry.key ==>
              Verdict(dbs[j], ss[j]).Aborted? && dbs[j + 1] == dbs[j]
    ensures j < |ss| && ss[j].AppendLedger? && ss[j].entry.(createdAt := 0) == ss[i].entry.(createdAt := 0) ==>
              Verdict(dbs[j], ss[j]) == Aborted(UniqueViolation)
  {
    CommitsOnlyAppend(dbs[i], ss[i], at[i]);
    CommitMeans(dbs[i], ss[i]);
    LedgerOnlyGrows(dbs, ss, at, i + 1, j);
    RunKeepsWf(dbs, ss, at, j);
    var e, p := ss[i].entry.(createdAt := at[i]), |dbs[i].ledger|;
    assert dbs[i + 1] == Exec(dbs[i], ss[i], at[i]);
    ExecKeys(dbs[i], ss[i], at[i]);
    assert dbs[j].ledger[p] == e;
    assert e in dbs[j].ledger;
    assert IsOnlyOfItsKey(dbs[j].ledger, p);
    if j < |ss| {
      assert dbs[j + 1] == Exec(dbs[j], ss[j], at[j]);
    }
  }

  ghost predicate IsOnlyOfItsKey(ledger: seq<Entry>, p: nat)
  {
    p < |ledger| && forall q :: 0 <= q < |ledger| && q != p ==> ledger[q].key != ledger[p].key
  }

  // Appends under one key whose contents differ can tell the two apart.
  lemma ChangedRetryCanSucceed(db: Db, c: Uuid, key: string)
    requires c in db.communities && key !in Keys(db.ledger)
    ensures var e := Entry(CommunityScope, c, None, 1, Some(key), 0);
            var es := [e.(scope := UserScope), e];
            ExecAppends(db, DropRepeats(es, {})).ledger == db.ledger && ExecAppends(db, es).ledger == db.ledger + [e]
  {
    var e := Entry(CommunityScope, c, None, 1, Some(key), 0);
    var bad := e.(scope := UserScope);
    var es := [bad, e];
    AppendsAreLedgerAppends(db, es);
    AppendsAreLedgerAppends(db, DropRepeats(es, {}));
    assert es[1..] == [e] && [e][1..] == [] && [bad][1..] == [];
    assert DropRepeats([e], {key}) == [];
    assert {} + {key} == {key};
    assert DropRepeats(es, {}) == [bad] + DropRepeats(es[1..], {} + {key});
    assert AppendAll(db.ledger, [bad], Acceptable(db.communities.Keys, db.users.Keys)) == db.ledger;
    assert AppendAll(db.ledger, [e], Acceptable(db.communities.Keys, db.users.Keys)) == db.ledger + [e];
  }

  // ---------------------------------------------------------------------
  // updated_at
  // ---------------------------------------------------------------------

  // Every row that a statement changes carries the statement's time, whether
  // the statement itself or a version trigger changed it. Inserted rows keep
  // the values they came with.
  lemma ChangedRowsAreStamped(db: Db, s: Statement, now: nat)
    ensures var db' := Exec(db, s, now);
            && Stamped(db.communities, db'.communities, (c: Community) => c.updatedAt, now)
            && Stamped(db.users, db'.users, (u: User) => u.updatedAt, now)
            && Stamped(db.units, db'.units, (u: Unit) => u.updatedAt, now)
            && Stamped(db.endpoints, db'.endpoints, (e: Endpoint) => e.updatedAt, now)
  {
    ExecKeys(db, s, now);
    CommunitiesStamped(db, s, now);
    if Verdict(db, s) == Committed {
      RowsStamped(db, s, now);
    }
    hide Exec, Rewrite;
  }

  lemma CommunitiesStamped(db: Db, s: Statement, now: nat)
    ensures Stamped(db.communities, Exec(db, s, now).communities, (c: Community) => c.updatedAt, now)
  {
    forall c {
      CommunityKept(db, s, now, c);
    }
    hide Verdict, Rewrite, Writes;
  }

  lemma RowsStamped(db: Db, s: Statement, now: nat)
    requires Verdict(db, s) == Committed
    ensures var db' := Rewrite(db, s, now);
            && Stamped(db.users, db'.users, (u: User) => u.updatedAt, now)
            && Stamped(db.units, db'.units, (u: Unit) => u.updatedAt, now)
            && Stamped(db.endpoints, db'.endpoints, (e: Endpoint) => e.updatedAt, now)
  {
    CommitMeans(db, s);
    hide Verdict, Overwritten, Removed, Disowned, EndpointsOf, View;
  }

  ghost predicate Stamped<R>(before: map<Uuid, R>, after: map<Uuid, R>, stamp: R -> nat, now: nat)
  {
    forall x :: x in before && x in after && after[x] != before[x] ==> stamp(after[x]) == now
  }

  // ---------------------------------------------------------------------
  // Community versions
  // ---------------------------------------------------------------------

  datatype Rows = Rows(users: UserTable, units: map<Uuid, Unit>, endpoints: map<Uuid, Endpoint>)

  function UsersOf(users: UserTable, c: Uuid): UserTable
  {
    map x | x in users && users[x].community == c :: users[x]
  }

  function UnitsOf(units: map<Uuid, Unit>, c: Uuid): map<Uuid, Unit>
  {
    map x | x in units && units[x].community == c :: units[x]
  }

  function EndpointsIn(endpoints: map<Uuid, Endpoint>, c: Uuid): map<Uuid, Endpoint>
  {
    map x | x in endpoints && endpoints[x].community == c :: endpoints[x]
  }

  function RowsOf(db: Db, c: Uuid): Rows
  {
    Rows(UsersOf(db.users, c), UnitsOf(db.units, c), EndpointsIn(db.endpoints, c))
  }

  function Version(db: Db, c: Uuid): nat
  {
    if c in db.communities then db.communities[c].currentVersion else 0
  }

  // Rows of c that a statement writes, 0 when it aborts.
  function WritesTo(db: Db, s: Statement, c: Uuid): nat
  {
    if Verdict(db, s) == Committed then Writes(db, s)[c] else 0
  }

  // The statement takes a row of c to another community.
  predicate MovesRowOut(db: Db, s: Statement, c: Uuid)
  {
    Verdict(db, s) == Committed &&
    match s
    case UpdateUser(id, u) => id in db.users && db.users[id].community == c && u.community != c
    case UpdateUnit(id, u) => id in db.units && db.units[id].community == c && u.community != c
    case UpdateEndpoint(id, e) => id in db.endpoints && db.endpoints[id].community == c && e.community != c
    case _ => false
  }

  function UserHome(u: User): Uuid { u.community }
  function UnitHome(u: Unit): Uuid { u.community }
  function EndpointHome(e: Endpoint): Uuid { e.community }

  // The rows of c that are new, changed or gone in `after`.
  function Written<R(==)>(before: map<Uuid, R>, after: map<Uuid, R>, home: R -> Uuid, c: Uuid): set<Uuid>
  {
    (set x | x in after && home(after[x]) == c && (x in before ==> before[x] != after[x])) +
    (set x | x in before && home(before[x]) == c && x !in after)
  }

  // How many synced rows of c differ between two states.
  function RowsWritten(db: Db, db': Db, c: Uuid): nat
  {
    |Written(db.users, db'.users, UserHome, c)| +
    |Written(db.units, db'.units, UnitHome, c)| +
    |Written(db.endpoints, db'.endpoints, EndpointHome, c)|
  }

  // An UPDATE of a row of c that leaves the row, its stamp included, as it was.
  predicate IdleUpdate(db: Db, s: Statement, now: nat, c: Uuid)
  {
    Verdict(db, s) == Committed &&
    match s
    case UpdateUser(id, u) => id in db.users && db.users[id] == u.(updatedAt := now) && u.community == c
    case UpdateUnit(id, u) => id in db.units && db.units[id] == u.(updatedAt := now) && u.community == c
    case UpdateEndpoint(id, e) => id in db.endpoints && db.endpoints[id] == e.(updatedAt := now) && e.community == c
    case _ => false
  }

  // The triggers fire once for every row of c that the statement changes, those
  // of its cascades included, and once for an UPDATE that changes nothing.
  lemma FiredPerRow(db: Db, s: Statement, now: nat, c: Uuid)
    ensures WritesTo(db, s, c) == RowsWritten(db, Exec(db, s, now), c) + (if IdleUpdate(db, s, now, c) then 1 else 0)
  {
    ExecKeys(db, s, now);
    NothingWritten(db, c);
    hide Exec, Written;
    if Verdict(db, s) == Committed {
      Untouched(db, s, now);
      hide Verdict, Rewrite;
      if s.InsertUser? || s.UpdateUser? {
        FiredPerUser(db, s, now, c);
      } else if s.DeleteUser? {
        FiredPerCascade(db, s, now, c);
      } else if s.InsertUnit? || s.UpdateUnit? {
        FiredPerUnit(db, s, now, c);
      } else if s.InsertEndpoint? || s.UpdateEndpoint? {
        FiredPerEndpoint(db, s, now, c);
      } else if s.DeleteUnit? || s.DeleteEndpoint? {
        FiredPerDelete(db, s, now, c);
      }
    }
  }

  ghost predicate Fired(db: Db, s: Statement, now: nat, c: Uuid)
  {
    Writes(db, s)[c] == RowsWritten(db, Rewrite(db, s, now), c) + (if IdleUpdate(db, s, now, c) then 1 else 0)
  }

  lemma FiredPerUser(db: Db, s: Statement, now: nat, c: Uuid)
    requires s.InsertUser? || s.UpdateUser?
    requires Verdict(db, s) == Committed
    ensures Fired(db, s, now, c)
  {
    assert s.InsertUser? ==> s.id !in db.users by { CommitMeans(db, s); }
    NothingWritten(db, c);
    hide Verdict, Written, EndpointsOf, CommunitiesOfEndpoints, Overwritten, Removed, Disowned, View;
    match s
    case InsertUser(id, u) => OneWritten(db.users, UserHome, id, u, c);
    case UpdateUser(id, u) => if id in db.users { OneWritten(db.users, UserHome, id, u.(updatedAt := now), c); }
  }

  lemma FiredPerUnit(db: Db, s: Statement, now: nat, c: Uuid)
    requires s.InsertUnit? || s.UpdateUnit?
    requires Verdict(db, s) == Committed
    ensures Fired(db, s, now, c)
  {
    assert s.InsertUnit? ==> s.id !in db.units by { CommitMeans(db, s); }
    NothingWritten(db, c);
    hide Verdict, Written, EndpointsOf, CommunitiesOfEndpoints, Overwritten, Removed, Disowned, View;
    match s
    case InsertUnit(id, u) => OneWritten(db.units, UnitHome, id, u, c);
    case UpdateUnit(id, u) => if id in db.units { OneWritten(db.units, UnitHome, id, u.(updatedAt := now), c); }
  }

  lemma FiredPerEndpoint(db: Db, s: Statement, now: nat, c: Uuid)
    requires s.InsertEndpoint? || s.UpdateEndpoint?
    requires Verdict(db, s) == Committed
    ensures Fired(db, s, now, c)
  {
    assert s.InsertEndpoint? ==> s.id !in db.endpoints by { CommitMeans(db, s); }
    NothingWritten(db, c);
    hide Verdict, Written, EndpointsOf, CommunitiesOfEndpoints, Overwritten, Removed, Disowned, View;
    match s
    case InsertEndpoint(id, e) => OneWritten(db.endpoints, EndpointHome, id, e, c);
    case UpdateEndpoint(id, e) =>
      if id in db.endpoints { OneWritten(db.endpoints, EndpointHome, id, e.(updatedAt := now), c); }
  }

  lemma FiredPerDelete(db: Db, s: Statement, now: nat, c: Uuid)
    requires s.DeleteUnit? || s.DeleteEndpoint?
    ensures Fired(db, s, now, c)
  {
    NothingWritten(db, c);
    hide Verdict, Written, EndpointsOf, CommunitiesOfEndpoints, Overwritten, Removed, Disowned, View;
    match s
    case DeleteUnit(id) =>
      if id in db.units { OneGone(db.units, UnitHome, id, c); } else { assert db.units - {id} == db.units; }
    case DeleteEndpoint(id) =>
      if id in db.endpoints {
        OneGone(db.endpoints, EndpointHome, id, c);
      } else {
        assert db.endpoints - {id} == db.endpoints;
      }
  }

  lemma FiredPerCascade(db: Db, s: Statement, now: nat, c: Uuid)
    requires s.DeleteUser?
    ensures Fired(db, s, now, c)
  {
    NothingWritten(db, c);
    hide Disowned, Written, CommunitiesOfEndpoints, Overwritten, Removed, View;
    if s.id in db.users {
      DeleteUserCounts(db, s.id, c);
      OneGone(db.users, UserHome, s.id, c);
      EndpointsGone(db.endpoints, EndpointsOf(db.endpoints, s.id), c);
      hide Writes, EndpointsOf, InCommunity;
    }
  }

  lemma NothingWritten(db: Db, c: Uuid)
    ensures Written(db.users, db.users, UserHome, c) == {}
    ensures Written(db.units, db.units, UnitHome, c) == {}
    ensures Written(db.endpoints, db.endpoints, EndpointHome, c) == {}
  {}

  lemma OneWritten<R>(before: map<Uuid, R>, home: R -> Uuid, id: Uuid, row: R, c: Uuid)
    ensures Written(before, before[id := row], home, c) ==
            if (home(row) == c && (id in before ==> before[id] != row)) then {id} else {}
  {}

  lemma OneGone<R>(before: map<Uuid, R>, home: R -> Uuid, id: Uuid, c: Uuid)
    requires id in before
    ensures Written(before, before - {id}, home, c) == if home(before[id]) == c then {id} else {}
  {}

  lemma EndpointsGone(before: map<Uuid, Endpoint>, gone: set<Uuid>, c: Uuid)
    requires gone <= before.Keys
    ensures Written(before, before - gone, EndpointHome, c) == InCommunity(before, gone, c)
  {}

  // So the counter of c tells how many of its rows a statement has changed.
  lemma VersionCountsWrites(db: Db, s: Statement, now: nat, c: Uuid)
    requires c in db.communities && c in Exec(db, s, now).communities
    ensures var db' := Exec(db, s, now);
            Version(db', c) == Version(db, c) + RowsWritten(db, db', c) + (if IdleUpdate(db, s, now, c) then 1 else 0)
  {
    FiredPerRow(db, s, now, c);
    BumpsCount(db, s, now, c);
    hide Verdict, RowsWritten, IdleUpdate, WritesTo;
  }

  lemma BumpsCount(db: Db, s: Statement, now: nat, c: Uuid)
    requires c in db.communities && c in Exec(db, s, now).communities
    ensures Version(Exec(db, s, now), c) == Version(db, c) + WritesTo(db, s, c)
  {
    CommunityKept(db, s, now, c);
    hide Verdict, Rewrite, Writes;
  }

  // But for its triggers no statement changes a community that stays.
  lemma CommunityKept(db: Db, s: Statement, now: nat, c: Uuid)
    ensures Verdict(db, s) == Committed && c in db.communities && c in Rewrite(db, s, now).communities ==>
              Rewrite(db, s, now).communities[c] == db.communities[c]
  {
    if !s.InsertCommunity? { hide Verdict; }
    hide Overwritten, Removed, Disowned, EndpointsOf, View;
  }

  // Over a run: the row changes in between, and the idle updates.
  function ChangesBetween(dbs: seq<Db>, ss: seq<Statement>, at: seq<nat>, i: nat, j: nat, c: Uuid): nat
    requires |dbs| == |ss| + 1 == |at| + 1 && i <= j < |dbs|
    decreases j
  {
    if i == j then 0
    else ChangesBetween(dbs, ss, at, i, j - 1, c) + RowsWritten(dbs[j - 1], dbs[j], c) +
         (if IdleUpdate(dbs[j - 1], ss[j - 1], at[j - 1], c) then 1 else 0)
  }

  lemma {:induction false} VersionCountsRun(dbs: seq<Db>, ss: seq<Statement>, at: seq<nat>, i: nat, j: nat, c: Uuid)
    requires IsRun(dbs, ss, at) && i <= j < |dbs|
    requires forall k :: i <= k <= j ==> c in dbs[k].communities
    ensures Version(dbs[j], c) == Version(dbs[i], c) + ChangesBetween(dbs, ss, at, i, j, c)
    decreases j
  {
    hide Exec, RowsWritten, IdleUpdate, Version;
    if i < j {
      VersionCountsRun(dbs, ss, at, i, j - 1, c);
      assert dbs[j] == Exec(dbs[j - 1], ss[j - 1], at[j - 1]);
      VersionCountsWrites(dbs[j - 1], ss[j - 1], at[j - 1], c);
    }
  }

  // Deleting a user counts the user's row and every endpoint that goes with it,
  // each in its own community.
  lemma DeleteUserCounts(db: Db, user: Uuid, c: Uuid)
    requires user in db.users
    ensures Writes(db, DeleteUser(user))[c] ==
            |InCommunity(db.endpoints, EndpointsOf(db.endpoints, user), c)| +
            (if db.users[user].community == c then 1 else 0)
  {
    CountEndpoints(db.endpoints, EndpointsOf(db.endpoints, user), c);
  }

  function InCommunity(endpoints: map<Uuid, Endpoint>, xs: set<Uuid>, c: Uuid): set<Uuid>
    requires xs <= endpoints.Keys
  {
    set x | x in xs && endpoints[x].community == c
  }

  lemma {:induction false} CountEndpoints(endpoints: map<Uuid, Endpoint>, xs: set<Uuid>, c: Uuid)
    requires xs <= endpoints.Keys
    ensures CommunitiesOfEndpoints(endpoints, xs)[c] == |InCommunity(endpoints, xs, c)|
  {
    if xs != {} {
      var x := Least(xs);
      CountEndpoints(endpoints, xs - {x}, c);
      TakeLeast(endpoints, xs);
      hide CommunitiesOfEndpoints;
      var rest := InCommunity(endpoints, xs - {x}, c);
      assert x !in rest;
      assert InCommunity(endpoints, xs, c) == if endpoints[x].community == c then rest + {x} else rest;
    }
  }

  // A statement changes rows of c behind its counter's back exactly when it
  // moves one of them to another community.
  lemma OnlyMovesGoUnseen(db: Db, s: Statement, now: nat, c: Uuid)
    requires c in db.communities && c in Exec(db, s, now).communities
    ensures Version(Exec(db, s, now), c) == Version(db, c) && RowsOf(Exec(db, s, now), c) != RowsOf(db, c) <==>
            MovesRowOut(db, s, c)
  {
    BumpsCount(db, s, now, c);
    var db' := Exec(db, s, now);
    if MovesRowOut(db, s, c) {
      MoveChangesRows(db, s, now, c);
    } else if WritesTo(db, s, c) == 0 {
      NoWritesKeepRows(db, s, now, c);
    }
  }

  lemma MoveChangesRows(db: Db, s: Statement, now: nat, c: Uuid)
    requires MovesRowOut(db, s, c)
    ensures WritesTo(db, s, c) == 0 && RowsOf(Exec(db, s, now), c) != RowsOf(db, c)
  {
    hide BumpEach;
    var after := RowsOf(Exec(db, s, now), c);
    match s
    case UpdateUser(id, u) => assert id in RowsOf(db, c).users && id !in after.users;
    case UpdateUnit(id, u) => assert id in RowsOf(db, c).units && id !in after.units;
    case UpdateEndpoint(id, e) => assert id in RowsOf(db, c).endpoints && id !in after.endpoints;
  }

  lemma NoWritesKeepRows(db: Db, s: Statement, now: nat, c: Uuid)
    requires WritesTo(db, s, c) == 0 && !MovesRowOut(db, s, c)
    ensures RowsOf(Exec(db, s, now), c) == RowsOf(db, c)
  {
    hide BumpEach, Verdict, CommunitiesOfEndpoints;
    if Verdict(db, s) == Committed {
      UsersUnwritten(db, s, now, c);
      UnitsUnwritten(db, s, now, c);
      EndpointsUnwritten(db, s, now, c);
    }
  }

  lemma UsersUnwritten(db: Db, s: Statement, now: nat, c: Uuid)
    requires Verdict(db, s) == Committed && Writes(db, s)[c] == 0 && !MovesRowOut(db, s, c)
    ensures UsersOf(Rewrite(db, s, now).users, c) == UsersOf(db.users, c)
  {
    Untouched(db, s, now);
    if s.InsertUser? || s.UpdateUser? || s.DeleteUser? {
      CommitMeans(db, s);
      hide Verdict, CommunitiesOfEndpoints, EndpointsOf, UserFits, Overwritten, Removed, Disowned, View;
    } else {
      hide Rewrite;
    }
  }

  lemma UnitsUnwritten(db: Db, s: Statement, now: nat, c: Uuid)
    requires Verdict(db, s) == Committed && Writes(db, s)[c] == 0 && !MovesRowOut(db, s, c)
    ensures UnitsOf(Rewrite(db, s, now).units, c) == UnitsOf(db.units, c)
  {
    Untouched(db, s, now);
    if s.InsertUnit? || s.UpdateUnit? || s.DeleteUnit? {
      CommitMeans(db, s);
      hide Verdict, UnitFits, Overwritten, Removed, Disowned, View;
    } else {
      hide Rewrite;
    }
  }

  lemma EndpointsUnwritten(db: Db, s: Statement, now: nat, c: Uuid)
    requires Verdict(db, s) == Committed && Writes(db, s)[c] == 0 && !MovesRowOut(db, s, c)
    ensures EndpointsIn(Rewrite(db, s, now).endpoints, c) == EndpointsIn(db.endpoints, c)
  {
    Untouched(db, s, now);
    if s.DeleteUser? {
      if s.id in db.users {
        DeleteUserCounts(db, s.id, c);
        CascadeElsewhere(db, s.id, c);
      }
    } else if s.InsertEndpoint? || s.UpdateEndpoint? || s.DeleteEndpoint? {
      CommitMeans(db, s);
      hide Verdict, EndpointFits;
    } else {
      hide Rewrite;
    }
  }

  lemma CascadeElsewhere(db: Db, user: Uuid, c: Uuid)
    requires |InCommunity(db.endpoints, EndpointsOf(db.endpoints, user), c)| == 0
    ensures EndpointsIn(db.endpoints - EndpointsOf(db.endpoints, user), c) == EndpointsIn(db.endpoints, c)
  {
    EndpointsElsewhere(db, user, c);
  }

  lemma EndpointsElsewhere(db: Db, user: Uuid, c: Uuid)
    requires |InCommunity(db.endpoints, EndpointsOf(db.endpoints, user), c)| == 0
    ensures forall x :: x in EndpointsOf(db.endpoints, user) ==> db.endpoints[x].community != c
  {
    var gone := InCommunity(db.endpoints, EndpointsOf(db.endpoints, user), c);
    assert forall x :: x in EndpointsOf(db.endpoints, user) && db.endpoints[x].community == c ==> x in gone;
  }

  // Two states of one run that show the same version for a community have the
  // same users, units and sip_endpoints rows in it, if none was moved out and
  // the community itself was not deleted in between.
  lemma {:induction false} SameVersionSameRows(dbs: seq<Db>, ss: seq<Statement>, at: seq<nat>, i: nat, j: nat, c: Uuid)
    requires IsRun(dbs, ss, at) && i <= j < |dbs|
    requires forall k :: i <= k <= j ==> c in dbs[k].communities
    requires forall k :: i <= k < j ==> !MovesRowOut(dbs[k], ss[k], c)
    ensures Version(dbs[i], c) <= Version(dbs[j], c)
    ensures Version(dbs[i], c) == Version(dbs[j], c) ==> RowsOf(dbs[i], c) == RowsOf(dbs[j], c)
  {
    if i < j {
      SameVersionSameRows(dbs, ss, at, i, j - 1, c);
      assert dbs[j] == Exec(dbs[j - 1], ss[j - 1], at[j - 1]);
      BumpsCount(dbs[j - 1], ss[j - 1], at[j - 1], c);
      OnlyMovesGoUnseen(dbs[j - 1], ss[j - 1], at[j - 1], c);
    }
  }

  // A community that is deleted and made anew counts from 0 again, and so can
  // show an earlier version over other rows.
  lemma RecreatedCommunityRepeatsVersion(c: Uuid, d: string, x: Uuid, y: Uuid, u: Unit)
    requires x != y && u.community == c
    ensures exists dbs: seq<Db>, ss: seq<Statement>, at: seq<nat>, i: nat, j: nat ::
              && IsRun(dbs, ss, at) && i < j < |dbs|
              && c in dbs[i].communities && c in dbs[j].communities
              && (forall k :: i <= k < j ==> !MovesRowOut(dbs[k], ss[k], c))
              && Version(dbs[i], c) == Version(dbs[j], c) && RowsOf(dbs[i], c) != RowsOf(dbs[j], c)
  {
    var dbs, ss, at := RecreatingRun(c, d, x, y, u);
    assert x in RowsOf(dbs[2], c).units && x !in RowsOf(dbs[6], c).units;
    hide Verdict, IsRun, RowsOf;
    assert 2 < 6 < |dbs| && Version(dbs[2], c) == Version(dbs[6], c) && RowsOf(dbs[2], c) != RowsOf(dbs[6], c);
  }

  lemma RecreatingRun(c: Uuid, d: string, x: Uuid, y: Uuid, u: Unit)
    returns (dbs: seq<Db>, ss: seq<Statement>, at: seq<nat>)
    requires u.community == c
    ensures IsRun(dbs, ss, at) && |dbs| == 7
    ensures dbs[2] == EMPTY.(communities := map[c := Community(d, 1, 0)], units := map[x := u])
    ensures dbs[6] == EMPTY.(communities := map[c := Community(d, 1, 0)], units := map[y := u])
    ensures forall k :: 0 <= k < |ss| ==> !ss[k].UpdateUser? && !ss[k].UpdateUnit? && !ss[k].UpdateEndpoint?
  {
    hide Exec;
    ss := [InsertCommunity(c, d), InsertUnit(x, u), DeleteUnit(x), DeleteCommunity(c),
           InsertCommunity(c, d), InsertUnit(y, u)];
    at := [0, 0, 0, 0, 0, 0];
    var none := EMPTY.(communities := map[c := Community(d, 0, 0)]);
    var one := EMPTY.(communities := map[c := Community(d, 1, 0)], units := map[x := u]);
    var gone := EMPTY.(communities := map[c := Community(d, 2, 0)]);
    var other := EMPTY.(communities := map[c := Community(d, 1, 0)], units := map[y := u]);
    dbs := [EMPTY, none, one, gone, EMPTY, none, other];
    FirstUnit(c, d, x, u);
    FirstUnit(c, d, y, u);
    LastUnit(c, d, x, u);
    NewAndGone(c, d);
  }

  lemma FirstUnit(c: Uuid, d: string, x: Uuid, u: Unit)
    requires u.community == c
    ensures Exec(EMPTY.(communities := map[c := Community(d, 0, 0)]), InsertUnit(x, u), 0) ==
            EMPTY.(communities := map[c := Community(d, 1, 0)], units := map[x := u])
  {
    var db := EMPTY.(communities := map[c := Community(d, 0, 0)]);
    assert BumpEach(db.communities, multiset{c}, 0) == map[c := Community(d, 1, 0)];
  }

  lemma LastUnit(c: Uuid, d: string, x: Uuid, u: Unit)
    requires u.community == c
    ensures Exec(EMPTY.(communities := map[c := Community(d, 1, 0)], units := map[x := u]), DeleteUnit(x), 0) ==
            EMPTY.(communities := map[c := Community(d, 2, 0)])
  {
    var db := EMPTY.(communities := map[c := Community(d, 1, 0)], units := map[x := u]);
    assert BumpEach(db.communities, multiset{c}, 0) == map[c := Community(d, 2, 0)];
    assert db.units - {x} == map[];
  }

  lemma NewAndGone(c: Uuid, d: string)
    ensures Exec(EMPTY, InsertCommunity(c, d), 0) == EMPTY.(communities := map[c := Community(d, 0, 0)])
    ensures Exec(EMPTY.(communities := map[c := Community(d, 2, 0)]), DeleteCommunity(c), 0) == EMPTY
  {
    var made, last := map[c := Community(d, 0, 0)], map[c := Community(d, 2, 0)];
    assert map[][c := Community(d, 0, 0)] == made;
    assert BumpEach(made, multiset{}, 0) == made;
    assert last - {c} == map[];
    assert BumpEach(map[], multiset{}, 0) == map[];
  }
}
