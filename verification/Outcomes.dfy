// Which statements commit, and why the others abort, told from the tables that
// a statement would leave behind: nothing here looks at how it is checked.
module Outcomes {
  import opened Ids
  import opened Users
  import opened Ledger
  import opened Schema
  import opened DatabaseRuns

  // ---------------------------------------------------------------------
  // The constraints, by kind
  // ---------------------------------------------------------------------

  ghost predicate AllUnique(db: Db)
  {
    && UniqueDomain(db.communities) && UniqueMobile(db.users) && UniqueCode(db.units)
    && UniqueEndpoint(db.endpoints) && UniqueKey(db.ledger)
  }

  ghost predicate AllReferencesHold(db: Db)
  {
    && (forall x :: x in db.users ==> db.users[x].community in db.communities)
    && (forall x :: x in db.units ==> db.units[x].community in db.communities)
    && (forall x :: x in db.endpoints ==>
          db.endpoints[x].community in db.communities && db.endpoints[x].user in db.users)
    && (forall e :: e in db.ledger ==>
          e.community in db.communities && (e.user.Some? ==> e.user.value in db.users))
  }

  // NUMERIC(18, 4), in units of 0.0001
  ghost predicate AllDeltasFit(db: Db)
  {
    forall e :: e in db.ledger ==> -1_000_000_000_000_000_000 < e.delta < 1_000_000_000_000_000_000
  }

  // ck_scope_owner
  ghost predicate AllOwned(db: Db)
  {
    forall e :: e in db.ledger ==> (e.scope == CommunityScope <==> e.user == None)
  }

  // The id that an INSERT brings is not taken.
  ghost predicate IdIsNew(db: Db, s: Statement)
  {
    && (s.InsertCommunity? ==> s.id !in db.communities)
    && (s.InsertUser? ==> s.id !in db.users)
    && (s.InsertUnit? ==> s.id !in db.units)
    && (s.InsertEndpoint? ==> s.id !in db.endpoints)
  }

  // The statement updates or deletes a ledger row, itself or by SET NULL.
  ghost predicate HitsLedger(db: Db, s: Statement)
  {
    || ((s.UpdateLedger? || s.DeleteLedger?) && exists p :: p in s.places && p < |db.ledger|)
    || (s.DeleteUser? && s.id in db.users && exists e :: e in db.ledger && e.user == Some(s.id))
  }

  // What comes of a statement, if it would leave db' behind.
  ghost function Judged(db: Db, s: Statement, db': Db): Outcome
  {
    if HitsLedger(db, s) then Aborted(AppendOnly)
    else if !AllDeltasFit(db') then Aborted(NumericOverflow)
    else if !AllOwned(db') then Aborted(CheckViolation)
    else if !IdIsNew(db, s) || !AllUnique(db') then Aborted(UniqueViolation)
    else if !AllReferencesHold(db') then Aborted(ForeignKeyViolation)
    else Committed
  }

  lemma WellFormedByKind(db: Db)
    ensures Wf(db) <==> AllUnique(db) && AllReferencesHold(db) && AllDeltasFit(db) && AllOwned(db)
  {
    assert forall e :: EntryOk(db.communities.Keys, db.users.Keys, e) <==>
                       && -1_000_000_000_000_000_000 < e.delta < 1_000_000_000_000_000_000
                       && (e.scope == CommunityScope <==> e.user == None)
                       && e.community in db.communities && (e.user.Some? ==> e.user.value in db.users);
  }

  // ---------------------------------------------------------------------
  // Every statement comes to what its result would be judged as
  // ---------------------------------------------------------------------

  // In a database that meets its constraints a statement commits exactly when
  // what it writes, cascades included, would meet them too, its id is new, and
  // it hits no ledger row; otherwise it aborts for the first of these that fails.
  lemma OutcomeExactly(db: Db, s: Statement, now: nat)
    requires Wf(db)
    ensures Verdict(db, s) == Judged(db, s, Rewrite(db, s, now))
  {
    WellFormedByKind(db);
    hide Verdict, Judged, Rewrite, Wf;
    match s
    case InsertCommunity(id, d) => CommunityInserted(db, id, d, now);
    case DeleteCommunity(id) => CommunityDeleted(db, id, now);
    case InsertUser(id, u) => UserInserted(db, id, u, now);
    case UpdateUser(id, u) => UserUpdated(db, id, u, now);
    case DeleteUser(id) => UserDeleted(db, id, now);
    case InsertUnit(id, u) => UnitInserted(db, id, u, now);
    case UpdateUnit(id, u) => UnitUpdated(db, id, u, now);
    case InsertEndpoint(id, e) => EndpointInserted(db, id, e, now);
    case UpdateEndpoint(id, e) => EndpointUpdated(db, id, e, now);
    case AppendLedger(e) => EntryAppended(db, e, now);
    case UpdateLedger(places, e) => LedgerUpdated(db, places, e, now);
    case DeleteLedger(places) => LedgerDeleted(db, places, now);
    case RefreshBalances => Refreshed(db, now);
    case DeleteUnit(id) => UnitDeleted(db, id, now);
    case DeleteEndpoint(id) => EndpointDeleted(db, id, now);
  }

  // For inserts, column by column: only a row with the same values in all
  // columns of a unique constraint stands in the way, and a missing parent.
  lemma InsertsExactly(db: Db, id: Uuid, d: string, u: User, unit: Unit, e: Endpoint)
    ensures Verdict(db, InsertCommunity(id, d)) == Committed <==>
            id !in db.communities && forall x :: x in db.communities ==> db.communities[x].sipDomain != d
    ensures Verdict(db, InsertUser(id, u)) == Committed <==>
            && id !in db.users && u.community in db.communities
            && forall x :: x in db.users && db.users[x].community == u.community ==> db.users[x].mobile != u.mobile
    ensures Verdict(db, InsertUnit(id, unit)) == Committed <==>
            && id !in db.units && unit.community in db.communities
            && forall x :: x in db.units && db.units[x].community == unit.community ==> db.units[x].code != unit.code
    ensures Verdict(db, InsertEndpoint(id, e)) == Committed <==>
            && id !in db.endpoints && e.community in db.communities && e.user in db.users
            && (forall x :: x in db.endpoints ==> db.endpoints[x].user != e.user)
            && forall x :: x in db.endpoints && db.endpoints[x].community == e.community ==>
                 db.endpoints[x].username != e.username
  {}

  // All constraints hold, by kind.
  ghost predicate Sound(db: Db)
  {
    AllUnique(db) && AllReferencesHold(db) && AllDeltasFit(db) && AllOwned(db)
  }

  ghost predicate AsJudged(db: Db, s: Statement, now: nat)
  {
    Verdict(db, s) == Judged(db, s, Rewrite(db, s, now))
  }

  // One more row, or one row replaced.

  lemma CommunityRow(db: Db, id: Uuid, c: Community)
    requires Sound(db) && id !in db.communities
    ensures var db' := db.(communities := db.communities[id := c]);
            && (AllUnique(db') <==> DomainFits(db.communities, c.sipDomain))
            && AllReferencesHold(db') && AllDeltasFit(db') && AllOwned(db')
  {
    var after := db.communities[id := c];
    assert forall x :: x in db.communities ==> x in after && after[x] == db.communities[x];
    assert id in after && after[id] == c;
  }

  lemma UserRow(db: Db, id: Uuid, u: User)
    requires Sound(db)
    ensures var db' := db.(users := db.users[id := u]);
            && (AllUnique(db') <==> UserFits(db.users, id, u))
            && (AllReferencesHold(db') <==> u.community in db.communities)
            && AllDeltasFit(db') && AllOwned(db')
  {
    var after := db.users[id := u];
    assert forall x :: x in db.users && x != id ==> x in after && after[x] == db.users[x];
    assert id in after && after[id] == u;
  }

  lemma UnitRow(db: Db, id: Uuid, u: Unit)
    requires Sound(db)
    ensures var db' := db.(units := db.units[id := u]);
            && (AllUnique(db') <==> UnitFits(db.units, id, u))
            && (AllReferencesHold(db') <==> u.community in db.communities)
            && AllDeltasFit(db') && AllOwned(db')
  {
    var after := db.units[id := u];
    assert forall x :: x in db.units && x != id ==> x in after && after[x] == db.units[x];
    assert id in after && after[id] == u;
  }

  lemma EndpointRow(db: Db, id: Uuid, e: Endpoint)
    requires Sound(db)
    ensures var db' := db.(endpoints := db.endpoints[id := e]);
            && (AllUnique(db') <==> EndpointFits(db.endpoints, id, e))
            && (AllReferencesHold(db') <==> e.community in db.communities && e.user in db.users)
            && AllDeltasFit(db') && AllOwned(db')
  {
    var after := db.endpoints[id := e];
    hide UniqueDomain, UniqueMobile, UniqueCode, UniqueKey;
    assert forall x :: x in db.endpoints && x != id ==> x in after && after[x] == db.endpoints[x];
    assert id in after && after[id] == e;
  }

  lemma EntryRow(db: Db, e: Entry)
    requires Sound(db)
    ensures var db' := db.(ledger := db.ledger + [e]);
            && (AllUnique(db') <==> (e.key.Some? ==> e.key.value !in Keys(db.ledger)))
            && (AllReferencesHold(db') <==>
                  e.community in db.communities && (e.user.Some? ==> e.user.value in db.users))
            && (AllDeltasFit(db') <==> -NUMERIC_18_4 < e.delta < NUMERIC_18_4)
            && (AllOwned(db') <==> ScopeOwner(e.scope, e.user))
  {
    var after := db.ledger + [e];
    assert forall d :: d in after <==> d in db.ledger || d == e;
    if e.key.Some? {
      KeyIsNew(db.ledger, e);
    }
    assert UniqueKey(after) <==> (e.key.Some? ==> forall i :: 0 <= i < |db.ledger| ==> db.ledger[i].key != e.key) by {
      assert forall i :: 0 <= i < |db.ledger| ==> after[i] == db.ledger[i];
      assert after[|db.ledger|] == e;
    }
  }

  lemma KeyIsNew(ledger: seq<Entry>, e: Entry)
    requires e.key.Some?
    ensures e.key.value !in Keys(ledger) <==> forall i :: 0 <= i < |ledger| ==> ledger[i].key != e.key
  {
    if i: nat :| i < |ledger| && ledger[i].key == e.key {
      assert ledger[i] in ledger;
    }
  }

  // The statements, table by table.

  lemma SameLedger(db: Db, s: Statement, now: nat)
    requires Sound(db)
    ensures var db' := Rewrite(db, s, now);
            db'.ledger == db.ledger ==> AllDeltasFit(db') && AllOwned(db') && UniqueKey(db'.ledger)
  {
    hide Rewrite;
  }

  lemma CommunityInserted(db: Db, id: Uuid, d: string, now: nat)
    requires Sound(db)
    ensures AsJudged(db, InsertCommunity(id, d), now)
  {
    SameLedger(db, InsertCommunity(id, d), now);
    if id !in db.communities {
      CommunityRow(db, id, Community(d, 0, now));
    }
    hide AllUnique, AllReferencesHold, AllDeltasFit, AllOwned, DomainFits;
  }

  lemma CommunityDeleted(db: Db, id: Uuid, now: nat)
    requires Sound(db)
    ensures AsJudged(db, DeleteCommunity(id), now)
  {
    SameLedger(db, DeleteCommunity(id), now);
    FewerRows(db, db.(communities := db.communities - {id}));
    assert id !in db.communities ==> db.communities - {id} == db.communities;
    if id in db.communities {
      WithoutCommunity(db, id);
    }
    hide AllUnique, AllReferencesHold, AllDeltasFit, AllOwned, Referenced;
  }

  lemma WithoutCommunity(db: Db, id: Uuid)
    requires Sound(db) && id in db.communities
    ensures AllReferencesHold(db.(communities := db.communities - {id})) <==> !Referenced(db, id)
  {
    hide AllUnique, AllDeltasFit, AllOwned;
  }

  lemma FewerRows(db: Db, db': Db)
    requires AllUnique(db) && db'.ledger == db.ledger
    requires db'.communities.Keys <= db.communities.Keys && db'.users.Keys <= db.users.Keys
    requires db'.units.Keys <= db.units.Keys && db'.endpoints.Keys <= db.endpoints.Keys
    requires forall x :: x in db'.communities ==> db'.communities[x] == db.communities[x]
    requires forall x :: x in db'.users ==> db'.users[x] == db.users[x]
    requires forall x :: x in db'.units ==> db'.units[x] == db.units[x]
    requires forall x :: x in db'.endpoints ==> db'.endpoints[x] == db.endpoints[x]
    ensures AllUnique(db')
  {}

  lemma UserInserted(db: Db, id: Uuid, u: User, now: nat)
    requires Sound(db)
    ensures AsJudged(db, InsertUser(id, u), now)
  {
    hide AllUnique, AllReferencesHold, AllDeltasFit, AllOwned, UserFits;
    assert Rewrite(db, InsertUser(id, u), now) == db.(users := db.users[id := u]);
    hide Rewrite;
    SameLedger(db, InsertUser(id, u), now);
    UserRow(db, id, u);
  }

  lemma UserUpdated(db: Db, id: Uuid, u: User, now: nat)
    requires Sound(db)
    ensures AsJudged(db, UpdateUser(id, u), now)
  {
    assert UserFits(db.users, id, u.(updatedAt := now)) <==> UserFits(db.users, id, u);
    hide AllUnique, AllReferencesHold, AllDeltasFit, AllOwned, UserFits;
    assert Rewrite(db, UpdateUser(id, u), now) ==
           if id in db.users then db.(users := db.users[id := u.(updatedAt := now)]) else db;
    hide Rewrite;
    SameLedger(db, UpdateUser(id, u), now);
    UserRow(db, id, u.(updatedAt := now));
  }

  lemma UserDeleted(db: Db, id: Uuid, now: nat)
    requires Sound(db)
    ensures AsJudged(db, DeleteUser(id), now)
  {
    OwnersHavePlaces(db.ledger, id);
    DisownedRows(db.ledger, id);
    hide Disowned, Matched, PlacesOf;
    if id in db.users && !OwnsLedgerRow(db.ledger, id) {
      SameLedger(db, DeleteUser(id), now);
      var db' := db.(users := db.users - {id}, endpoints := db.endpoints - EndpointsOf(db.endpoints, id));
      FewerRows(db, db');
      WithoutUser(db, id);
      hide AllUnique, AllReferencesHold, AllDeltasFit, AllOwned, EndpointsOf;
    } else {
      hide EndpointsOf;
    }
  }

  lemma WithoutUser(db: Db, id: Uuid)
    requires Sound(db) && !OwnsLedgerRow(db.ledger, id)
    ensures AllReferencesHold(
              db.(users := db.users - {id}, endpoints := db.endpoints - EndpointsOf(db.endpoints, id)))
  {
    hide AllUnique, AllDeltasFit, AllOwned;
  }

  lemma UnitInserted(db: Db, id: Uuid, u: Unit, now: nat)
    requires Sound(db)
    ensures AsJudged(db, InsertUnit(id, u), now)
  {
    hide AllUnique, AllReferencesHold, AllDeltasFit, AllOwned, UnitFits;
    assert Rewrite(db, InsertUnit(id, u), now) == db.(units := db.units[id := u]);
    hide Rewrite;
    SameLedger(db, InsertUnit(id, u), now);
    UnitRow(db, id, u);
  }

  lemma UnitUpdated(db: Db, id: Uuid, u: Unit, now: nat)
    requires Sound(db)
    ensures AsJudged(db, UpdateUnit(id, u), now)
  {
    assert UnitFits(db.units, id, u.(updatedAt := now)) <==> UnitFits(db.units, id, u);
    hide AllUnique, AllReferencesHold, AllDeltasFit, AllOwned, UnitFits;
    assert Rewrite(db, UpdateUnit(id, u), now) ==
           if id in db.units then db.(units := db.units[id := u.(updatedAt := now)]) else db;
    hide Rewrite;
    SameLedger(db, UpdateUnit(id, u), now);
    UnitRow(db, id, u.(updatedAt := now));
  }

  lemma EndpointInserted(db: Db, id: Uuid, e: Endpoint, now: nat)
    requires Sound(db)
    ensures AsJudged(db, InsertEndpoint(id, e), now)
  {
    hide AllUnique, AllReferencesHold, AllDeltasFit, AllOwned, EndpointFits;
    assert Rewrite(db, InsertEndpoint(id, e), now) == db.(endpoints := db.endpoints[id := e]);
    hide Rewrite;
    SameLedger(db, InsertEndpoint(id, e), now);
    EndpointRow(db, id, e);
  }

  lemma FitsWhenStamped(db: Db, id: Uuid, e: Endpoint, now: nat)
    ensures EndpointFits(db.endpoints, id, e.(updatedAt := now)) <==> EndpointFits(db.endpoints, id, e)
  {}

  lemma EndpointUpdated(db: Db, id: Uuid, e: Endpoint, now: nat)
    requires Sound(db)
    ensures AsJudged(db, UpdateEndpoint(id, e), now)
  {
    FitsWhenStamped(db, id, e, now);
    hide AllUnique, AllReferencesHold, AllDeltasFit, AllOwned, EndpointFits;
    assert Rewrite(db, UpdateEndpoint(id, e), now) ==
           if id in db.endpoints then db.(endpoints := db.endpoints[id := e.(updatedAt := now)]) else db;
    hide Rewrite;
    SameLedger(db, UpdateEndpoint(id, e), now);
    EndpointRow(db, id, e.(updatedAt := now));
  }

  lemma UnitDeleted(db: Db, id: Uuid, now: nat)
    requires Sound(db)
    ensures AsJudged(db, DeleteUnit(id), now)
  {
    hide AllUnique, AllReferencesHold, AllDeltasFit, AllOwned;
    var db' := db.(units := db.units - {id});
    assert Rewrite(db, DeleteUnit(id), now) == db';
    hide Rewrite;
    SameLedger(db, DeleteUnit(id), now);
    FewerRows(db, db');
    UnitReferences(db, id);
  }

  lemma UnitReferences(db: Db, id: Uuid)
    requires AllReferencesHold(db)
    ensures AllReferencesHold(db.(units := db.units - {id}))
  {}

  lemma EndpointDeleted(db: Db, id: Uuid, now: nat)
    requires Sound(db)
    ensures AsJudged(db, DeleteEndpoint(id), now)
  {
    hide AllUnique, AllReferencesHold, AllDeltasFit, AllOwned;
    var db' := db.(endpoints := db.endpoints - {id});
    assert Rewrite(db, DeleteEndpoint(id), now) == db';
    hide Rewrite;
    SameLedger(db, DeleteEndpoint(id), now);
    FewerRows(db, db');
    EndpointReferences(db, id);
  }

  lemma EndpointReferences(db: Db, id: Uuid)
    requires AllReferencesHold(db)
    ensures AllReferencesHold(db.(endpoints := db.endpoints - {id}))
  {}

  lemma EntryAppended(db: Db, e: Entry, now: nat)
    requires Sound(db)
    ensures AsJudged(db, AppendLedger(e), now)
  {
    EntryRow(db, e.(createdAt := now));
    hide AllUnique, AllReferencesHold, AllDeltasFit, AllOwned;
  }

  lemma LedgerUpdated(db: Db, places: set<nat>, e: Entry, now: nat)
    requires Sound(db)
    ensures AsJudged(db, UpdateLedger(places, e), now)
  {
    hide AllUnique, AllReferencesHold, AllDeltasFit, AllOwned;
    assert Rewrite(db, UpdateLedger(places, e), now) == db.(ledger := Overwritten(db.ledger, places, e));
    OverwrittenRows(db.ledger, places, e);
    SomeMatched(db.ledger, places);
    hide Rewrite, Matched, Overwritten;
  }

  lemma LedgerDeleted(db: Db, places: set<nat>, now: nat)
    requires Sound(db)
    ensures AsJudged(db, DeleteLedger(places), now)
  {
    hide AllUnique, AllReferencesHold, AllDeltasFit, AllOwned;
    assert Rewrite(db, DeleteLedger(places), now) == db.(ledger := Removed(db.ledger, places));
    RemovedRows(db.ledger, places);
    SomeMatched(db.ledger, places);
    hide Rewrite, Matched, Removed;
  }

  lemma SomeMatched(ledger: seq<Entry>, places: set<nat>)
    ensures Matched(ledger, places) != {} <==> exists p :: p in places && p < |ledger|
  {
    if p :| p in places && p < |ledger| {
      assert p in Matched(ledger, places);
    }
  }

  lemma Refreshed(db: Db, now: nat)
    requires Sound(db)
    ensures AsJudged(db, RefreshBalances, now)
  {
    assert IndexHolds(Groups(db.ledger)) by {
      ScopeOwnerKeepsIndex(db.ledger);
    }
    SameRows(db, db.(balances := View(db.ledger)));
    hide AllUnique, AllReferencesHold, AllDeltasFit, AllOwned, IndexHolds, View, Groups;
  }

  lemma SameRows(db: Db, db': Db)
    requires Sound(db) && db' == db.(balances := db'.balances)
    ensures Sound(db')
  {}
}
