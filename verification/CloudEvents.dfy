// Where the cloud's side of the sync protocol comes from: every synced row that
// a database statement writes becomes one event, with the version that the
// trigger counted for it. Runs of the database so are runs of the protocol.
module CloudEvents {
  import opened Ids
  import opened Users
  import opened Schema
  import opened DeltaLog
  import opened EdgeNode
  import opened SyncRuns
  import DatabaseRuns

  datatype SyncedRow = UserRow(user: User) | UnitRow(unit: Unit) | EndpointRow(endpoint: Endpoint)

  // What an event carries of a row.
  type Serializer = SyncedRow -> Columns

  function UserName(id: Uuid): Entity { Entity("users", id) }
  function UnitName(id: Uuid): Entity { Entity("units", id) }
  function EndpointName(id: Uuid): Entity { Entity("sip_endpoints", id) }

  // The row of that name, if it is there and belongs to c.
  function RowNamed(db: Db, c: Uuid, n: Entity): Option<SyncedRow>
  {
    if n.table == "users" && n.id in db.users && db.users[n.id].community == c then
      Some(UserRow(db.users[n.id]))
    else if n.table == "units" && n.id in db.units && db.units[n.id].community == c then
      Some(UnitRow(db.units[n.id]))
    else if n.table == "sip_endpoints" && n.id in db.endpoints && db.endpoints[n.id].community == c then
      Some(EndpointRow(db.endpoints[n.id]))
    else None
  }

  function Serialized(r: Option<SyncedRow>, cols: Serializer): Option<Columns>
  {
    match r
    case None => None
    case Some(row) => Some(cols(row))
  }

  // t holds the rows of c, serialized, and nothing else.
  ghost predicate Mirrors(t: Tables, db: Db, c: Uuid, cols: Serializer)
  {
    forall n :: Value(t, n) == Serialized(RowNamed(db, c, n), cols)
  }

  // ---------------------------------------------------------------------
  // The events of a statement
  // ---------------------------------------------------------------------

  function If(here: bool, e: Event): seq<Event>
  {
    if here then [e] else []
  }

  function Gone(n: Entity): Event
  {
    Event(n, Tombstone)
  }

  // Of the endpoints that go with a user, in the order of the cascade.
  function CascadeEvents(endpoints: map<Uuid, Endpoint>, xs: set<Uuid>, c: Uuid): seq<Event>
    requires xs <= endpoints.Keys
  {
    if xs == {} then []
    else
      var x := Least(xs);
      If(endpoints[x].community == c, Gone(EndpointName(x))) + CascadeEvents(endpoints, xs - {x}, c)
  }

  // Of a committed statement, for community c.
  function EventsOf(db: Db, s: Statement, now: nat, c: Uuid, cols: Serializer): seq<Event>
  {
    match s
    case InsertUser(id, u) => If(u.community == c, Event(UserName(id), Upsert(cols(UserRow(u)))))
    case UpdateUser(id, u) =>
      If(id in db.users && u.community == c, Event(UserName(id), Upsert(cols(UserRow(u.(updatedAt := now))))))
    case DeleteUser(id) =>
      if id in db.users then
        CascadeEvents(db.endpoints, EndpointsOf(db.endpoints, id), c) +
        If(db.users[id].community == c, Gone(UserName(id)))
      else []
    case InsertUnit(id, u) => If(u.community == c, Event(UnitName(id), Upsert(cols(UnitRow(u)))))
    case UpdateUnit(id, u) =>
      If(id in db.units && u.community == c, Event(UnitName(id), Upsert(cols(UnitRow(u.(updatedAt := now))))))
    case DeleteUnit(id) => If(id in db.units && db.units[id].community == c, Gone(UnitName(id)))
    case InsertEndpoint(id, e) => If(e.community == c, Event(EndpointName(id), Upsert(cols(EndpointRow(e)))))
    case UpdateEndpoint(id, e) =>
      If(id in db.endpoints && e.community == c,
         Event(EndpointName(id), Upsert(cols(EndpointRow(e.(updatedAt := now))))))
    case DeleteEndpoint(id) => If(id in db.endpoints && db.endpoints[id].community == c, Gone(EndpointName(id)))
    case _ => []
  }

  // One event for each time the version trigger fires.
  lemma EventPerBump(db: Db, s: Statement, now: nat, c: Uuid, cols: Serializer)
    ensures |EventsOf(db, s, now, c, cols)| == Writes(db, s)[c]
  {
    if s.DeleteUser? {
      if s.id in db.users {
        CascadePerBump(db.endpoints, EndpointsOf(db.endpoints, s.id), c);
      }
      hide CascadeEvents, CommunitiesOfEndpoints, EndpointsOf;
    } else {
      EventPerRow(db, s, now, c, cols);
      hide EventsOf, Writes;
    }
  }

  lemma EventPerRow(db: Db, s: Statement, now: nat, c: Uuid, cols: Serializer)
    requires !s.DeleteUser?
    ensures |EventsOf(db, s, now, c, cols)| == Writes(db, s)[c]
  {}

  lemma {:induction false} CascadePerBump(endpoints: map<Uuid, Endpoint>, xs: set<Uuid>, c: Uuid)
    requires xs <= endpoints.Keys
    ensures |CascadeEvents(endpoints, xs, c)| == CommunitiesOfEndpoints(endpoints, xs)[c]
  {
    if xs != {} {
      CascadePerBump(endpoints, xs - {Least(xs)}, c);
    }
  }

  // Written to the mirrored tables, the events of a statement do what the
  // statement did to the rows of c, if it moved none of them away.
  lemma EventsFollow(t: Tables, db: Db, s: Statement, now: nat, c: Uuid, cols: Serializer)
    requires Mirrors(t, db, c, cols)
    requires Verdict(db, s) == Committed && !DatabaseRuns.MovesRowOut(db, s, c)
    ensures Mirrors(WriteAll(t, EventsOf(db, s, now, c, cols)), Exec(db, s, now), c, cols)
  {
    DatabaseRuns.CommitMeans(db, s);
    forall n
      ensures Value(WriteAll(t, EventsOf(db, s, now, c, cols)), n) == Serialized(RowNamed(Exec(db, s, now), c, n), cols)
    {
      OnlyRowsCount(db, s, now, c, n);
      assert Value(t, n) == Serialized(RowNamed(db, c, n), cols);
      hide Exec, Verdict, WriteAll, Value, EventsOf, RowNamed, Rewrite, Mirrors;
      if s.DeleteUser? {
        CascadeFollows(t, db, s.id, now, c, cols, n);
      } else if s.InsertUser? || s.UpdateUser? {
        UserFollows(t, db, s, now, c, cols, n);
      } else if s.InsertUnit? || s.UpdateUnit? {
        UnitFollows(t, db, s, now, c, cols, n);
      } else if s.InsertEndpoint? || s.UpdateEndpoint? {
        EndpointFollows(t, db, s, now, c, cols, n);
      } else if s.DeleteUnit? {
        UnitDeletionFollows(t, db, s.id, now, c, cols, n);
      } else if s.DeleteEndpoint? {
        EndpointDeletionFollows(t, db, s.id, now, c, cols, n);
      } else {
        OthersFollow(t, db, s, now, c, cols, n);
      }
    }
  }

  // Version bumps change no synced row.
  lemma OnlyRowsCount(db: Db, s: Statement, now: nat, c: Uuid, n: Entity)
    requires Verdict(db, s) == Committed
    ensures RowNamed(Exec(db, s, now), c, n) == RowNamed(Rewrite(db, s, now), c, n)
  {
    hide Verdict, Rewrite, Writes;
  }

  lemma OthersFollow(t: Tables, db: Db, s: Statement, now: nat, c: Uuid, cols: Serializer, n: Entity)
    requires s.InsertCommunity? || s.DeleteCommunity? || s.AppendLedger? || s.UpdateLedger? || s.DeleteLedger? ||
             s.RefreshBalances?
    requires Value(t, n) == Serialized(RowNamed(db, c, n), cols)
    ensures Value(WriteAll(t, EventsOf(db, s, now, c, cols)), n) ==
            Serialized(RowNamed(Rewrite(db, s, now), c, n), cols)
  {
    WriteNothing(t);
  }

  lemma UserFollows(t: Tables, db: Db, s: Statement, now: nat, c: Uuid, cols: Serializer, n: Entity)
    requires s.InsertUser? || s.UpdateUser?
    requires Value(t, n) == Serialized(RowNamed(db, c, n), cols)
    requires s.InsertUser? ==> s.id !in db.users
    requires s.UpdateUser? && s.id in db.users && db.users[s.id].community == c ==> s.user.community == c
    ensures Value(WriteAll(t, EventsOf(db, s, now, c, cols)), n) ==
            Serialized(RowNamed(Rewrite(db, s, now), c, n), cols)
  {
    hide WriteAll, Value, CascadeEvents, EndpointsOf, Overwritten, Removed, Disowned;
    match s
    case InsertUser(id, u) => WriteIf(t, u.community == c, Event(UserName(id), Upsert(cols(UserRow(u)))), n);
    case UpdateUser(id, u) =>
      WriteIf(t, id in db.users && u.community == c,
              Event(UserName(id), Upsert(cols(UserRow(u.(updatedAt := now))))), n);
  }

  lemma UnitFollows(t: Tables, db: Db, s: Statement, now: nat, c: Uuid, cols: Serializer, n: Entity)
    requires s.InsertUnit? || s.UpdateUnit?
    requires Value(t, n) == Serialized(RowNamed(db, c, n), cols)
    requires s.InsertUnit? ==> s.id !in db.units
    requires s.UpdateUnit? && s.id in db.units && db.units[s.id].community == c ==> s.unit.community == c
    ensures Value(WriteAll(t, EventsOf(db, s, now, c, cols)), n) ==
            Serialized(RowNamed(Rewrite(db, s, now), c, n), cols)
  {
    hide WriteAll, Value, CascadeEvents, EndpointsOf, Overwritten, Removed, Disowned;
    match s
    case InsertUnit(id, u) => WriteIf(t, u.community == c, Event(UnitName(id), Upsert(cols(UnitRow(u)))), n);
    case UpdateUnit(id, u) =>
      WriteIf(t, id in db.units && u.community == c,
              Event(UnitName(id), Upsert(cols(UnitRow(u.(updatedAt := now))))), n);
  }

  lemma EndpointFollows(t: Tables, db: Db, s: Statement, now: nat, c: Uuid, cols: Serializer, n: Entity)
    requires s.InsertEndpoint? || s.UpdateEndpoint?
    requires Value(t, n) == Serialized(RowNamed(db, c, n), cols)
    requires s.InsertEndpoint? ==> s.id !in db.endpoints
    requires s.UpdateEndpoint? && s.id in db.endpoints && db.endpoints[s.id].community == c ==>
               s.endpoint.community == c
    ensures Value(WriteAll(t, EventsOf(db, s, now, c, cols)), n) ==
            Serialized(RowNamed(Rewrite(db, s, now), c, n), cols)
  {
    hide WriteAll, Value, CascadeEvents, EndpointsOf, Overwritten, Removed, Disowned;
    match s
    case InsertEndpoint(id, e) =>
      WriteIf(t, e.community == c, Event(EndpointName(id), Upsert(cols(EndpointRow(e)))), n);
    case UpdateEndpoint(id, e) =>
      WriteIf(t, id in db.endpoints && e.community == c,
              Event(EndpointName(id), Upsert(cols(EndpointRow(e.(updatedAt := now))))), n);
  }

  lemma UnitDeletionFollows(t: Tables, db: Db, id: Uuid, now: nat, c: Uuid, cols: Serializer, n: Entity)
    requires Value(t, n) == Serialized(RowNamed(db, c, n), cols)
    ensures Value(WriteAll(t, EventsOf(db, DeleteUnit(id), now, c, cols)), n) ==
            Serialized(RowNamed(Rewrite(db, DeleteUnit(id), now), c, n), cols)
  {
    hide WriteAll, Value;
    WriteIf(t, id in db.units && db.units[id].community == c, Gone(UnitName(id)), n);
  }

  lemma EndpointDeletionFollows(t: Tables, db: Db, id: Uuid, now: nat, c: Uuid, cols: Serializer, n: Entity)
    requires Value(t, n) == Serialized(RowNamed(db, c, n), cols)
    ensures Value(WriteAll(t, EventsOf(db, DeleteEndpoint(id), now, c, cols)), n) ==
            Serialized(RowNamed(Rewrite(db, DeleteEndpoint(id), now), c, n), cols)
  {
    hide WriteAll, Value;
    WriteIf(t, id in db.endpoints && db.endpoints[id].community == c, Gone(EndpointName(id)), n);
  }

  lemma WriteIf(t: Tables, here: bool, e: Event, n: Entity)
    ensures Value(WriteAll(t, If(here, e)), n) ==
            if here && e.entity == n then (if e.op.Upsert? then Some(e.op.data) else None) else Value(t, n)
  {
    WriteAllLeaves(t, If(here, e), n);
  }

  lemma CascadeFollows(t: Tables, db: Db, id: Uuid, now: nat, c: Uuid, cols: Serializer, n: Entity)
    requires Value(t, n) == Serialized(RowNamed(db, c, n), cols)
    ensures Value(WriteAll(t, EventsOf(db, DeleteUser(id), now, c, cols)), n) ==
            Serialized(RowNamed(Rewrite(db, DeleteUser(id), now), c, n), cols)
  {
    hide WriteAll, Value, CascadeEvents, Disowned;
    if id in db.users {
      var xs := EndpointsOf(db.endpoints, id);
      var first := CascadeEvents(db.endpoints, xs, c);
      CascadeWrites(t, db.endpoints, xs, c, n);
      WriteAllConcat(t, first, If(db.users[id].community == c, Gone(UserName(id))));
      WriteIf(WriteAll(t, first), db.users[id].community == c, Gone(UserName(id)), n);
    } else {
      WriteNothing(t);
    }
  }

  lemma {:induction false} CascadeWrites(
      t: Tables, endpoints: map<Uuid, Endpoint>, xs: set<Uuid>, c: Uuid, n: Entity)
    requires xs <= endpoints.Keys
    ensures Value(WriteAll(t, CascadeEvents(endpoints, xs, c)), n) ==
            if n == EndpointName(n.id) && n.id in xs && endpoints[n.id].community == c then None else Value(t, n)
    decreases xs
  {
    hide WriteAll, Value;
    if xs == {} {
      WriteNothing(t);
    } else {
      var x := Least(xs);
      var first := If(endpoints[x].community == c, Gone(EndpointName(x)));
      WriteAllConcat(t, first, CascadeEvents(endpoints, xs - {x}, c));
      CascadeWrites(WriteAll(t, first), endpoints, xs - {x}, c, n);
      WriteIf(t, endpoints[x].community == c, Gone(EndpointName(x)), n);
    }
  }

  // ---------------------------------------------------------------------
  // Runs
  // ---------------------------------------------------------------------

  // w is the cloud's side for c as the database has it.
  ghost predicate Agrees(w: World, db: Db, c: Uuid, cols: Serializer)
  {
    w.current == DatabaseRuns.Version(db, c) && Mirrors(w.tables, db, c, cols)
  }

  ghost predicate OnlyWrites(ss: seq<Step>, first: nat)
  {
    forall k :: 0 <= k < |ss| ==> ss[k].Write? && ss[k].version == first + k
  }

  // From any state of a run, a list of events can be written one by one, under
  // consecutive versions.
  lemma {:induction false} EmitAll(c: Uuid, ws: seq<World>, ss: seq<Step>, es: seq<Event>)
    returns (ws': seq<World>, more: seq<Step>)
    requires IsRun(c, ws, ss)
    ensures IsRun(c, ws', ss + more) && ws <= ws' && |more| == |es|
    ensures var w, w' := ws[|ss|], ws'[|ss + more|];
            && OnlyWrites(more, w.current + 1)
            && w'.tables == WriteAll(w.tables, es) && w'.current == w.current + |es|
    decreases |es|
  {
    if |es| == 0 {
      ws', more := ws, [];
      assert ss + [] == ss;
    } else {
      var w := ws[|ss|];
      var s := Write(w.current + 1, es[0]);
      var ws1, ss1 := Extend(c, ws, ss, s, After(c, w, s));
      var rest;
      ws', rest := EmitAll(c, ws1, ss1, es[1..]);
      more := [s] + rest;
      assert ss1 + rest == ss + more;
    }
  }

  // Whatever the edge has done so far, a statement of the database continues a
  // run of the protocol: its events are enabled writes, under the versions the
  // trigger has counted, and both sides agree again afterwards.
  lemma StatementEmits(
      c: Uuid, ws: seq<World>, ss: seq<Step>, db: Db, s: Statement, now: nat, cols: Serializer)
    returns (ws': seq<World>, more: seq<Step>)
    requires IsRun(c, ws, ss) && Agrees(ws[|ss|], db, c, cols)
    requires c in db.communities && c in Exec(db, s, now).communities
    requires !DatabaseRuns.MovesRowOut(db, s, c)
    ensures IsRun(c, ws', ss + more) && ws <= ws' && OnlyWrites(more, ws[|ss|].current + 1)
    ensures ws'[|ss + more|].current == ws[|ss|].current + |more|
    ensures Agrees(ws'[|ss + more|], Exec(db, s, now), c, cols)
  {
    assert |ws| == |ss| + 1;
    hide IsRun, Mirrors;
    DatabaseRuns.BumpsCount(db, s, now, c);
    hide DatabaseRuns.Version, EventsOf, Writes;
    if Verdict(db, s) == Committed {
      hide Verdict, Exec;
      EventsFollow(ws[|ss|].tables, db, s, now, c, cols);
      EventPerBump(db, s, now, c, cols);
      ws', more := EmitAll(c, ws, ss, EventsOf(db, s, now, c, cols));
    } else {
      hide Verdict;
      ws', more := ws, [];
      assert ss + [] == ss;
    }
  }

  lemma NoCommunityNoRows(db: Db, c: Uuid, cols: Serializer)
    requires DatabaseRuns.Wf(db) && c !in db.communities
    ensures forall n :: RowNamed(db, c, n) == None
    ensures Agrees(START, db, c, cols)
  {}

  lemma CommunityAppears(db: Db, s: Statement, now: nat, c: Uuid, cols: Serializer)
    requires DatabaseRuns.Wf(db) && DatabaseRuns.Wf(Exec(db, s, now)) && c !in db.communities
    ensures Agrees(START, Exec(db, s, now), c, cols)
  {
    hide DatabaseRuns.Wf, Exec, Agrees;
    var db' := Exec(db, s, now);
    if c in db'.communities {
      NoCommunityNoRows(db, c, cols);
      NewCommunity(db, s, now, c);
      SameRowsAgree(db, db', c, cols);
    } else {
      NoCommunityNoRows(db', c, cols);
    }
  }

  lemma SameRowsAgree(db: Db, db': Db, c: Uuid, cols: Serializer)
    requires db'.users == db.users && db'.units == db.units && db'.endpoints == db.endpoints
    requires DatabaseRuns.Version(db', c) == 0 && Agrees(START, db, c, cols)
    ensures Agrees(START, db', c, cols)
  {}

  lemma NewCommunity(db: Db, s: Statement, now: nat, c: Uuid)
    requires c !in db.communities && c in Exec(db, s, now).communities
    ensures var db' := Exec(db, s, now);
            && db'.users == db.users && db'.units == db.units && db'.endpoints == db.endpoints
            && DatabaseRuns.Version(db', c) == 0
  {
    DatabaseRuns.ExecKeys(db, s, now);
    hide Verdict;
    assert s.InsertCommunity?;
  }

  // So every run of the database in which c is not deleted, and keeps its rows,
  // is a run of the protocol's cloud side: version k of c is its k-th event.
  lemma {:induction false} DatabaseRunEmits(
      dbs: seq<Db>, stmts: seq<Statement>, at: seq<nat>, j: nat, c: Uuid, cols: Serializer)
    returns (ws: seq<World>, ss: seq<Step>)
    requires DatabaseRuns.IsRun(dbs, stmts, at) && j < |dbs|
    requires forall k :: 0 <= k < j ==> !DatabaseRuns.MovesRowOut(dbs[k], stmts[k], c)
    requires forall k :: 0 <= k < j && c in dbs[k].communities ==> c in dbs[k + 1].communities
    ensures IsRun(c, ws, ss) && OnlyWrites(ss, 1) && |ss| == ws[|ss|].current
    ensures Agrees(ws[|ss|], dbs[j], c, cols)
  {
    hide IsRun, Agrees, Exec;
    if j == 0 || c !in dbs[j - 1].communities {
      ws, ss := [START], [];
      OnlyStart(c);
      DatabaseRuns.RunKeepsWf(dbs, stmts, at, j);
      if j > 0 {
        DatabaseRuns.RunKeepsWf(dbs, stmts, at, j - 1);
        assert dbs[j] == Exec(dbs[j - 1], stmts[j - 1], at[j - 1]);
        CommunityAppears(dbs[j - 1], stmts[j - 1], at[j - 1], c, cols);
      } else {
        NoCommunityNoRows(dbs[0], c, cols);
      }
    } else {
      ws, ss := DatabaseRunEmits(dbs, stmts, at, j - 1, c, cols);
      assert dbs[j] == Exec(dbs[j - 1], stmts[j - 1], at[j - 1]);
      var more;
      ws, more := StatementEmits(c, ws, ss, dbs[j - 1], stmts[j - 1], at[j - 1], cols);
      ss := ss + more;
    }
  }
}
