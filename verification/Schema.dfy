// The part of the schema the model covers, and what each statement on it does:
// commit with all its triggers and cascades, or abort and change nothing.
module Schema {
  import opened Ids
  import opened Users
  import opened Ledger

  datatype Community = Community(sipDomain: string, currentVersion: nat, updatedAt: nat)

  datatype Unit = Unit(community: Uuid, code: string, columns: Columns, updatedAt: nat)

  datatype Endpoint = Endpoint(user: Uuid, community: Uuid, username: string, columns: Columns, updatedAt: nat)

  datatype Db = Db(
    communities: map<Uuid, Community>, users: UserTable, units: map<Uuid, Unit>,
    endpoints: map<Uuid, Endpoint>, ledger: seq<Entry>, balances: map<Group, Balance>)

  const EMPTY := Db(map[], map[], map[], map[], [], map[])

  datatype Reason = UniqueViolation | ForeignKeyViolation | CheckViolation | NumericOverflow | AppendOnly

  datatype Outcome = Committed | Aborted(reason: Reason)

  // Ledger rows are named by their place, as a WHERE clause would pick them.
  datatype Statement =
    | InsertCommunity(id: Uuid, sipDomain: string)
    | DeleteCommunity(id: Uuid)
    | InsertUser(id: Uuid, user: User)
    | UpdateUser(id: Uuid, user: User)
    | DeleteUser(id: Uuid)
    | InsertUnit(id: Uuid, unit: Unit)
    | UpdateUnit(id: Uuid, unit: Unit)
    | DeleteUnit(id: Uuid)
    | InsertEndpoint(id: Uuid, endpoint: Endpoint)
    | UpdateEndpoint(id: Uuid, endpoint: Endpoint)
    | DeleteEndpoint(id: Uuid)
    | AppendLedger(entry: Entry)
    | UpdateLedger(places: set<nat>, entry: Entry)
    | DeleteLedger(places: set<nat>)
    | RefreshBalances

  // ---------------------------------------------------------------------
  // Constraints
  // ---------------------------------------------------------------------

  // No other row (than `id`) has these values in the unique columns.

  predicate UserFits(users: UserTable, id: Uuid, u: User)
  {
    forall x :: x in users && x != id ==> users[x].community != u.community || users[x].mobile != u.mobile
  }

  predicate UnitFits(units: map<Uuid, Unit>, id: Uuid, u: Unit)
  {
    forall x :: x in units && x != id ==> units[x].community != u.community || units[x].code != u.code
  }

  predicate EndpointFits(endpoints: map<Uuid, Endpoint>, id: Uuid, e: Endpoint)
  {
    forall x :: x in endpoints && x != id ==>
      && endpoints[x].user != e.user
      && (endpoints[x].community != e.community || endpoints[x].username != e.username)
  }

  predicate DomainFits(communities: map<Uuid, Community>, sipDomain: string)
  {
    forall x :: x in communities ==> communities[x].sipDomain != sipDomain
  }

  // ON DELETE RESTRICT from units, users, sip_endpoints and token_ledger.
  predicate Referenced(db: Db, c: Uuid)
  {
    || (exists x :: x in db.users && db.users[x].community == c)
    || (exists x :: x in db.units && db.units[x].community == c)
    || (exists x :: x in db.endpoints && db.endpoints[x].community == c)
    || (exists e :: e in db.ledger && e.community == c)
  }

  // The ledger rows that ON DELETE SET NULL updates when a user goes.
  function PlacesOf(ledger: seq<Entry>, user: Uuid): set<nat>
  {
    set p: nat | p < |ledger| && ledger[p].user == Some(user)
  }

  function Matched(ledger: seq<Entry>, places: set<nat>): set<nat>
  {
    set p | p in places && p < |ledger|
  }

  // What an UPDATE, a DELETE and ON DELETE SET NULL would do to the ledger.

  function Overwritten(ledger: seq<Entry>, places: set<nat>, e: Entry): (r: seq<Entry>)
    ensures |r| == |ledger|
  {
    seq(|ledger|, p requires 0 <= p < |ledger| => if p in places then e else ledger[p])
  }

  function Removed(ledger: seq<Entry>, places: set<nat>): seq<Entry>
  {
    if |ledger| == 0 then []
    else
      var rest := Removed(ledger[..|ledger| - 1], places);
      if |ledger| - 1 in places then rest else rest + [ledger[|ledger| - 1]]
  }

  function Disowned(ledger: seq<Entry>, user: Uuid): (r: seq<Entry>)
    ensures |r| == |ledger|
  {
    seq(|ledger|, p requires 0 <= p < |ledger| =>
          if ledger[p].user == Some(user) then ledger[p].(user := None) else ledger[p])
  }

  function EntryRefusal(db: Db, e: Entry): Outcome
  {
    if !(-NUMERIC_18_4 < e.delta < NUMERIC_18_4) then Aborted(NumericOverflow)
    else if !ScopeOwner(e.scope, e.user) then Aborted(CheckViolation)
    else if e.key.Some? && e.key.value in Keys(db.ledger) then Aborted(UniqueViolation)
    else if e.community !in db.communities || (e.user.Some? && e.user.value !in db.users) then
      Aborted(ForeignKeyViolation)
    else Committed
  }

  // Does the statement go through?
  function Verdict(db: Db, s: Statement): Outcome
  {
    match s
    case InsertCommunity(id, d) =>
      if id in db.communities || !DomainFits(db.communities, d) then Aborted(UniqueViolation) else Committed
    case DeleteCommunity(id) =>
      if id in db.communities && Referenced(db, id) then Aborted(ForeignKeyViolation) else Committed
    case InsertUser(id, u) =>
      if id in db.users || !UserFits(db.users, id, u) then Aborted(UniqueViolation)
      else if u.community !in db.communities then Aborted(ForeignKeyViolation) else Committed
    case UpdateUser(id, u) =>
      if id !in db.users then Committed
      else if !UserFits(db.users, id, u) then Aborted(UniqueViolation)
      else if u.community !in db.communities then Aborted(ForeignKeyViolation) else Committed
    case DeleteUser(id) =>
      // ON DELETE SET NULL updates the user's ledger rows, and the trigger on them fires
      if id in db.users && Matched(db.ledger, PlacesOf(db.ledger, id)) != {} then Aborted(AppendOnly) else Committed
    case InsertUnit(id, u) =>
      if id in db.units || !UnitFits(db.units, id, u) then Aborted(UniqueViolation)
      else if u.community !in db.communities then Aborted(ForeignKeyViolation) else Committed
    case UpdateUnit(id, u) =>
      if id !in db.units then Committed
      else if !UnitFits(db.units, id, u) then Aborted(UniqueViolation)
      else if u.community !in db.communities then Aborted(ForeignKeyViolation) else Committed
    case DeleteUnit(id) => Committed
    case InsertEndpoint(id, e) =>
      if id in db.endpoints || !EndpointFits(db.endpoints, id, e) then Aborted(UniqueViolation)
      else if e.community !in db.communities || e.user !in db.users then Aborted(ForeignKeyViolation) else Committed
    case UpdateEndpoint(id, e) =>
      if id !in db.endpoints then Committed
      else if !EndpointFits(db.endpoints, id, e) then Aborted(UniqueViolation)
      else if e.community !in db.communities || e.user !in db.users then Aborted(ForeignKeyViolation) else Committed
    case DeleteEndpoint(id) => Committed
    case AppendLedger(e) => EntryRefusal(db, e)
    case UpdateLedger(places, e) => if Matched(db.ledger, places) != {} then Aborted(AppendOnly) else Committed
    case DeleteLedger(places) => if Matched(db.ledger, places) != {} then Aborted(AppendOnly) else Committed
    case RefreshBalances => if !IndexHolds(Groups(db.ledger)) then Aborted(UniqueViolation) else Committed
  }

  // ---------------------------------------------------------------------
  // Triggers
  // ---------------------------------------------------------------------

  // tg_bump_community_version, fired once for every occurrence of a community
  // in `writes`; the UPDATE it does sets updated_at.
  function BumpEach(communities: map<Uuid, Community>, writes: multiset<Uuid>, now: nat): map<Uuid, Community>
  {
    map c | c in communities ::
      if writes[c] == 0 then communities[c]
      else communities[c].(currentVersion := communities[c].currentVersion + writes[c], updatedAt := now)
  }

  // sip_endpoints that go when a user goes.
  function EndpointsOf(endpoints: map<Uuid, Endpoint>, user: Uuid): (xs: set<Uuid>)
    ensures xs <= endpoints.Keys
  {
    set x | x in endpoints && endpoints[x].user == user
  }

  // The communities of the rows deleted with them.
  function CommunitiesOfEndpoints(endpoints: map<Uuid, Endpoint>, xs: set<Uuid>): multiset<Uuid>
    requires xs <= endpoints.Keys
  {
    // UNIQUE (user_id): at most one row
    if xs == {} then multiset{} else
    var x := Least(xs);
    multiset{endpoints[x].community} + CommunitiesOfEndpoints(endpoints, xs - {x})
  }

  lemma {:induction false} HasLeast(xs: set<Uuid>)
    requires xs != {}
    ensures exists x :: IsLeast(xs, x)
  {
    var x :| x in xs;
    var rest := xs - {x};
    assert forall y :: y in xs ==> y == x || y in rest;
    if rest == {} {
      assert IsLeast(xs, x);
    } else {
      HasLeast(rest);
      var y :| IsLeast(rest, y);
      assert IsLeast(xs, if x <= y then x else y);
    }
  }

  predicate IsLeast(xs: set<Uuid>, x: Uuid)
  {
    x in xs && forall y :: y in xs ==> x <= y
  }

  function Least(xs: set<Uuid>): (x: Uuid)
    requires xs != {}
    ensures x in xs
  {
    HasLeast(xs);
    var x :| x in xs && IsLeast(xs, x);
    x
  }

  lemma TakeLeast(endpoints: map<Uuid, Endpoint>, xs: set<Uuid>)
    requires xs <= endpoints.Keys && xs != {}
    ensures CommunitiesOfEndpoints(endpoints, xs) ==
            multiset{endpoints[Least(xs)].community} + CommunitiesOfEndpoints(endpoints, xs - {Least(xs)})
  {}

  // The communities of all synced rows (users, units, sip_endpoints) that a
  // committed statement inserts, updates or deletes, one occurrence per row.
  function Writes(db: Db, s: Statement): multiset<Uuid>
  {
    match s
    case InsertUser(id, u) => multiset{u.community}
    case UpdateUser(id, u) => if id in db.users then multiset{u.community} else multiset{}
    case DeleteUser(id) =>
      if id in db.users then
        CommunitiesOfEndpoints(db.endpoints, EndpointsOf(db.endpoints, id)) + multiset{db.users[id].community}
      else multiset{}
    case InsertUnit(id, u) => multiset{u.community}
    case UpdateUnit(id, u) => if id in db.units then multiset{u.community} else multiset{}
    case DeleteUnit(id) => if id in db.units then multiset{db.units[id].community} else multiset{}
    case InsertEndpoint(id, e) => multiset{e.community}
    case UpdateEndpoint(id, e) => if id in db.endpoints then multiset{e.community} else multiset{}
    case DeleteEndpoint(id) => if id in db.endpoints then multiset{db.endpoints[id].community} else multiset{}
    case _ => multiset{}
  }

  // ---------------------------------------------------------------------
  // Effects
  // ---------------------------------------------------------------------

  // What a statement writes, triggers left aside: an UPDATE is stamped by
  // trg_updated_at, an INSERT keeps the values it came with.
  function Rewrite(db: Db, s: Statement, now: nat): Db
  {
    match s
    case InsertCommunity(id, d) => db.(communities := db.communities[id := Community(d, 0, now)])
    case DeleteCommunity(id) => db.(communities := db.communities - {id})
    case InsertUser(id, u) => db.(users := db.users[id := u])
    case UpdateUser(id, u) => if id in db.users then db.(users := db.users[id := u.(updatedAt := now)]) else db
    case DeleteUser(id) =>
      if id in db.users then
        db.(users := db.users - {id}, ledger := Disowned(db.ledger, id),
            endpoints := db.endpoints - EndpointsOf(db.endpoints, id))
      else db
    case InsertUnit(id, u) => db.(units := db.units[id := u])
    case UpdateUnit(id, u) => if id in db.units then db.(units := db.units[id := u.(updatedAt := now)]) else db
    case DeleteUnit(id) => db.(units := db.units - {id})
    case InsertEndpoint(id, e) => db.(endpoints := db.endpoints[id := e])
    case UpdateEndpoint(id, e) =>
      if id in db.endpoints then db.(endpoints := db.endpoints[id := e.(updatedAt := now)]) else db
    case DeleteEndpoint(id) => db.(endpoints := db.endpoints - {id})
    case AppendLedger(e) => db.(ledger := db.ledger + [e.(createdAt := now)])
    case UpdateLedger(places, e) => db.(ledger := Overwritten(db.ledger, places, e))
    case DeleteLedger(places) => db.(ledger := Removed(db.ledger, places))
    case RefreshBalances => db.(balances := View(db.ledger))
  }

  function Exec(db: Db, s: Statement, now: nat): Db
  {
    if Verdict(db, s) != Committed then db
    else
      var db' := Rewrite(db, s, now);
      db'.(communities := BumpEach(db'.communities, Writes(db, s), now))
  }
}
