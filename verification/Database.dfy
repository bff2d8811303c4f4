// The database as an object: its tables are fields, its triggers are methods
// that the row-level statements call.
module Database {
  import opened Ids
  import opened Users
  import opened Ledger
  import opened Schema

  class Tables {
    var communities: map<Uuid, Community>
    var users: UserTable
    var units: map<Uuid, Unit>
    var endpoints: map<Uuid, Endpoint>
    var ledger: seq<Entry>
    var balances: map<Group, Balance>

    ghost function State(): Db
      reads this
    {
      Db(communities, users, units, endpoints, ledger, balances)
    }

    constructor ()
      ensures State() == EMPTY
    {
      communities, users, units, endpoints, ledger, balances := map[], map[], map[], map[], [], map[];
    }

    // tg_bump_community_version, then trg_updated_at on communities.
    method BumpCommunityVersion(cid: Uuid, now: nat)
      modifies this`communities
      ensures communities == BumpEach(old(communities), multiset{cid}, now)
    {
      if cid in communities {
        var c := communities[cid];
        communities := communities[cid := c.(currentVersion := c.currentVersion + 1, updatedAt := now)];
      }
    }

    method InsertCommunity(id: Uuid, sipDomain: string, now: nat) returns (r: Outcome)
      modifies this
      ensures r == Verdict(old(State()), Statement.InsertCommunity(id, sipDomain))
      ensures State() == Exec(old(State()), Statement.InsertCommunity(id, sipDomain), now)
    {
      if id in communities || !DomainFits(communities, sipDomain) {
        return Aborted(UniqueViolation);
      }
      communities := communities[id := Community(sipDomain, 0, now)];
      NoBumps(communities, now);
      return Committed;
    }

    method DeleteCommunity(id: Uuid, now: nat) returns (r: Outcome)
      modifies this
      ensures r == Verdict(old(State()), Statement.DeleteCommunity(id))
      ensures State() == Exec(old(State()), Statement.DeleteCommunity(id), now)
    {
      if id in communities {
        var referenced := Referenced(Db(communities, users, units, endpoints, ledger, balances), id);
        if referenced {
          return Aborted(ForeignKeyViolation);
        }
        communities := communities - {id};
      }
      NoBumps(communities, now);
      assert id !in communities ==> communities - {id} == communities;
      return Committed;
    }

    method InsertUser(id: Uuid, user: User, now: nat) returns (r: Outcome)
      modifies this
      ensures r == Verdict(old(State()), Statement.InsertUser(id, user))
      ensures State() == Exec(old(State()), Statement.InsertUser(id, user), now)
    {
      if id in users || !UserFits(users, id, user) {
        return Aborted(UniqueViolation);
      }
      if user.community !in communities {
        return Aborted(ForeignKeyViolation);
      }
      users := users[id := user];
      BumpCommunityVersion(user.community, now);
      return Committed;
    }

    method UpdateUser(id: Uuid, user: User, now: nat) returns (r: Outcome)
      modifies this
      ensures r == Verdict(old(State()), Statement.UpdateUser(id, user))
      ensures State() == Exec(old(State()), Statement.UpdateUser(id, user), now)
    {
      if id !in users {
        NoBumps(communities, now);
        return Committed;
      }
      if !UserFits(users, id, user) {
        return Aborted(UniqueViolation);
      }
      if user.community !in communities {
        return Aborted(ForeignKeyViolation);
      }
      users := users[id := user.(updatedAt := now)];
      BumpCommunityVersion(user.community, now);
      return Committed;
    }

    // ON DELETE SET NULL first updates the user's ledger rows, unless their
    // trigger aborts the statement; ON DELETE CASCADE deletes the user's sip_endpoints,
    // each firing its own version trigger.
    method DeleteUser(id: Uuid, now: nat) returns (r: Outcome)
      modifies this
      ensures r == Verdict(old(State()), Statement.DeleteUser(id))
      ensures State() == Exec(old(State()), Statement.DeleteUser(id), now)
    {
      hide PlacesOf, Matched, Disowned, EndpointsOf, CommunitiesOfEndpoints, BumpEach;
      if id !in users {
        NoBumps(communities, now);
        return Committed;
      }
      var forbidden := ForbidLedgerMutation(PlacesOf(ledger, id));
      if forbidden != Committed {
        return forbidden;
      }
      var community := users[id].community;
      ledger := Disowned(ledger, id);
      users := users - {id};
      DeleteEndpointsOf(id, now);
      BumpCommunityVersion(community, now);
      ghost var cascaded := CommunitiesOfEndpoints(old(endpoints), EndpointsOf(old(endpoints), id));
      BumpsAdd(old(communities), cascaded, multiset{community}, now);
      return Committed;
    }

    // ON DELETE CASCADE from users to sip_endpoints.
    method DeleteEndpointsOf(user: Uuid, now: nat)
      modifies this`endpoints, this`communities
      ensures endpoints == old(endpoints) - EndpointsOf(old(endpoints), user)
      ensures communities ==
              BumpEach(old(communities), CommunitiesOfEndpoints(old(endpoints), EndpointsOf(old(endpoints), user)), now)
    {
      hide BumpEach, CommunitiesOfEndpoints, EndpointsOf;
      ghost var rows, versions := endpoints, communities;
      var left := EndpointsOf(endpoints, user);
      ghost var all, done := left, multiset{};
      NoBumps(communities, now);
      MinusNothing(rows, all);
      while left != {}
        invariant left <= all
        invariant endpoints == rows - (all - left)
        invariant communities == BumpEach(versions, done, now)
        invariant done + CommunitiesOfEndpoints(rows, left) == CommunitiesOfEndpoints(rows, all)
        decreases left
      {
        var x := Least(left);
        TakeLeast(rows, left);
        var cid := endpoints[x].community;
        endpoints := endpoints - {x};
        BumpCommunityVersion(cid, now);
        BumpsAdd(versions, done, multiset{cid}, now);
        MinusOneMore(rows, all, left, x);
        done := done + multiset{cid};
        left := left - {x};
      }
      NoRowsNoCommunities(rows, left);
      assert done == CommunitiesOfEndpoints(rows, all);
      MinusNothing(rows, all);
    }

    method InsertUnit(id: Uuid, unit: Unit, now: nat) returns (r: Outcome)
      modifies this
      ensures r == Verdict(old(State()), Statement.InsertUnit(id, unit))
      ensures State() == Exec(old(State()), Statement.InsertUnit(id, unit), now)
    {
      if id in units || !UnitFits(units, id, unit) {
        return Aborted(UniqueViolation);
      }
      if unit.community !in communities {
        return Aborted(ForeignKeyViolation);
      }
      units := units[id := unit];
      BumpCommunityVersion(unit.community, now);
      return Committed;
    }

    method UpdateUnit(id: Uuid, unit: Unit, now: nat) returns (r: Outcome)
      modifies this
      ensures r == Verdict(old(State()), Statement.UpdateUnit(id, unit))
      ensures State() == Exec(old(State()), Statement.UpdateUnit(id, unit), now)
    {
      if id !in units {
        NoBumps(communities, now);
        return Committed;
      }
      if !UnitFits(units, id, unit) {
        return Aborted(UniqueViolation);
      }
      if unit.community !in communities {
        return Aborted(ForeignKeyViolation);
      }
      units := units[id := unit.(updatedAt := now)];
      BumpCommunityVersion(unit.community, now);
      return Committed;
    }

    method DeleteUnit(id: Uuid, now: nat) returns (r: Outcome)
      modifies this
      ensures r == Verdict(old(State()), Statement.DeleteUnit(id))
      ensures State() == Exec(old(State()), Statement.DeleteUnit(id), now)
    {
      if id in units {
        var cid := units[id].community;
        units := units - {id};
        BumpCommunityVersion(cid, now);
      } else {
        NoBumps(communities, now);
        assert units - {id} == units;
      }
      return Committed;
    }

    method InsertEndpoint(id: Uuid, endpoint: Endpoint, now: nat) returns (r: Outcome)
      modifies this
      ensures r == Verdict(old(State()), Statement.InsertEndpoint(id, endpoint))
      ensures State() == Exec(old(State()), Statement.InsertEndpoint(id, endpoint), now)
    {
      if id in endpoints || !EndpointFits(endpoints, id, endpoint) {
        return Aborted(UniqueViolation);
      }
      if endpoint.community !in communities || endpoint.user !in users {
        return Aborted(ForeignKeyViolation);
      }
      endpoints := endpoints[id := endpoint];
      BumpCommunityVersion(endpoint.community, now);
      return Committed;
    }

    method UpdateEndpoint(id: Uuid, endpoint: Endpoint, now: nat) returns (r: Outcome)
      modifies this
      ensures r == Verdict(old(State()), Statement.UpdateEndpoint(id, endpoint))
      ensures State() == Exec(old(State()), Statement.UpdateEndpoint(id, endpoint), now)
    {
      if id !in endpoints {
        NoBumps(communities, now);
        return Committed;
      }
      if !EndpointFits(endpoints, id, endpoint) {
        return Aborted(UniqueViolation);
      }
      if endpoint.community !in communities || endpoint.user !in users {
        return Aborted(ForeignKeyViolation);
      }
      endpoints := endpoints[id := endpoint.(updatedAt := now)];
      BumpCommunityVersion(endpoint.community, now);
      return Committed;
    }

    method DeleteEndpoint(id: Uuid, now: nat) returns (r: Outcome)
      modifies this
      ensures r == Verdict(old(State()), Statement.DeleteEndpoint(id))
      ensures State() == Exec(old(State()), Statement.DeleteEndpoint(id), now)
    {
      if id in endpoints {
        var cid := endpoints[id].community;
        endpoints := endpoints - {id};
        BumpCommunityVersion(cid, now);
      } else {
        NoBumps(communities, now);
        assert endpoints - {id} == endpoints;
      }
      return Committed;
    }

    method AppendLedger(entry: Entry, now: nat) returns (r: Outcome)
      modifies this
      ensures r == Verdict(old(State()), Statement.AppendLedger(entry))
      ensures State() == Exec(old(State()), Statement.AppendLedger(entry), now)
    {
      NoBumps(communities, now);
      if !(-NUMERIC_18_4 < entry.delta < NUMERIC_18_4) {
        return Aborted(NumericOverflow);
      }
      if !ScopeOwner(entry.scope, entry.user) {
        return Aborted(CheckViolation);
      }
      if entry.key.Some? && entry.key.value in Keys(ledger) {
        return Aborted(UniqueViolation);
      }
      if entry.community !in communities || (entry.user.Some? && entry.user.value !in users) {
        return Aborted(ForeignKeyViolation);
      }
      ledger := ledger + [entry.(createdAt := now)];
      return Committed;
    }

    // UPDATE and DELETE on the ledger: forbid_ledger_mutation fires before the
    // first row that matches.
    method UpdateLedger(places: set<nat>, entry: Entry, now: nat) returns (r: Outcome)
      modifies this
      ensures r == Verdict(old(State()), Statement.UpdateLedger(places, entry))
      ensures State() == Exec(old(State()), Statement.UpdateLedger(places, entry), now)
    {
      NoBumps(communities, now);
      r := ForbidLedgerMutation(places);
      if r == Committed {
        ledger := Overwritten(ledger, places, entry);
      }
    }

    method DeleteLedger(places: set<nat>, now: nat) returns (r: Outcome)
      modifies this
      ensures r == Verdict(old(State()), Statement.DeleteLedger(places))
      ensures State() == Exec(old(State()), Statement.DeleteLedger(places), now)
    {
      NoBumps(communities, now);
      r := ForbidLedgerMutation(places);
      if r == Committed {
        ledger := Removed(ledger, places);
      }
    }

    method ForbidLedgerMutation(places: set<nat>) returns (r: Outcome)
      ensures r == if Matched(ledger, places) != {} then Aborted(AppendOnly) else Committed
    {
      for i := 0 to |ledger|
        invariant forall p :: p in places ==> i <= p
      {
        if i in places {
          assert i in Matched(ledger, places);
          return Aborted(AppendOnly);
        }
      }
      return Committed;
    }

    method RefreshBalances(now: nat) returns (r: Outcome)
      modifies this
      ensures r == Verdict(old(State()), Statement.RefreshBalances)
      ensures State() == Exec(old(State()), Statement.RefreshBalances, now)
    {
      NoBumps(communities, now);
      if !IndexHolds(Groups(ledger)) {
        return Aborted(UniqueViolation);
      }
      balances := View(ledger);
      return Committed;
    }
  }

  lemma NoBumps(communities: map<Uuid, Community>, now: nat)
    ensures BumpEach(communities, multiset{}, now) == communities
  {}

  lemma BumpsAdd(communities: map<Uuid, Community>, a: multiset<Uuid>, b: multiset<Uuid>, now: nat)
    ensures BumpEach(BumpEach(communities, a, now), b, now) == BumpEach(communities, a + b, now)
  {}

  lemma NoRowsNoCommunities(endpoints: map<Uuid, Endpoint>, none: set<Uuid>)
    requires none == {}
    ensures CommunitiesOfEndpoints(endpoints, none) == multiset{}
  {}

  lemma MinusNothing(endpoints: map<Uuid, Endpoint>, all: set<Uuid>)
    ensures endpoints - (all - all) == endpoints && all - {} == all
  {}

  lemma MinusOneMore(endpoints: map<Uuid, Endpoint>, all: set<Uuid>, left: set<Uuid>, x: Uuid)
    requires x in left && left <= all
    ensures endpoints - (all - left) - {x} == endpoints - (all - (left - {x}))
  {}
}
