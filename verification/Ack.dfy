// The ack: the edge sends its community root, the cloud compares it with its
// own. This ties the Merkle root to the rows that the protocol mirrors.
module Ack {
  import opened Ids
  import opened Bytes
  import opened Merkle
  import opened CommunityRoot
  import opened DeltaLog
  import opened EdgeNode
  import opened SyncRuns

  // A row under its name: of the cloud's tables, or of the edge's store.
  type Named<V> = (Entity, V)

  // rows lists the rows of one table, each once, in any order.
  ghost predicate Lists<V(!new)>(t: map<Entity, V>, table: string, rows: seq<Named<V>>)
  {
    && (forall i, j :: 0 <= i < j < |rows| ==> rows[i] != rows[j])
    && (forall r :: r in rows <==> r.0 in t && t[r.0] == r.1 && r.0.table == table)
  }

  // How the tables of a side are read out: the label of each synced table, the
  // name behind the label, and the rows under it.
  ghost predicate ReadsOut<V(!new)>(
      t: map<Entity, V>, names: seq<Bytes>, tableOf: Bytes -> string, rows: TableRows<Named<V>>)
  {
    && (forall i :: 0 <= i < |names| ==> Lists(t, tableOf(Label(names[i])), rows(Label(names[i]))))
    && (forall n :: n in t ==> exists i :: 0 <= i < |names| && tableOf(Label(names[i])) == n.table)
  }

  ghost predicate InjectiveOn<Row(!new)>(canon: Row -> Bytes, xs: seq<Row>, ys: seq<Row>)
  {
    forall x, y :: (x in xs || x in ys) && (y in xs || y in ys) && canon(x) == canon(y) ==> x == y
  }

  // The hypotheses under which a root stands for its rows: no collision among
  // what is hashed, and rows of a table serialize differently.
  ghost predicate RootsMeanRows<Row(!new)>(
      sha: Sha, canon: Row -> Bytes, names: seq<Bytes>, cloud: TableRows<Row>, edge: TableRows<Row>)
  {
    && TableNames(names)
    && (forall i :: 0 <= i < |names| ==>
          var l := Label(names[i]);
          Trustworthy(sha, canon, cloud(l), edge(l)) && InjectiveOn(canon, cloud(l), edge(l)))
    && CollisionFree(sha, iset{SortedConcat(names, TableRoots(sha, canon, cloud)),
                               SortedConcat(names, TableRoots(sha, canon, edge))})
  }

  lemma DistinctSerialize<Row(!new)>(canon: Row -> Bytes, xs: seq<Row>, ys: seq<Row>)
    requires InjectiveOn(canon, xs, ys)
    requires forall i, j :: 0 <= i < j < |xs| ==> xs[i] != xs[j]
    requires forall i, j :: 0 <= i < j < |ys| ==> ys[i] != ys[j]
    ensures NoDuplicates(canon, xs) && NoDuplicates(canon, ys)
    ensures Serialized(canon, xs) == Serialized(canon, ys) <==>
            ((forall r :: r in xs ==> r in ys) && (forall r :: r in ys ==> r in xs))
  {
    if Serialized(canon, xs) == Serialized(canon, ys) {
      forall r | r in xs ensures r in ys { SerializedMember(canon, xs, ys, r); }
      forall r | r in ys ensures r in xs { SerializedMember(canon, ys, xs, r); }
    }
    if (forall r :: r in xs ==> r in ys) && (forall r :: r in ys ==> r in xs) {
      SameMembersSerialize(canon, xs, ys);
      SameMembersSerialize(canon, ys, xs);
    }
  }

  lemma SerializedMember<Row(!new)>(canon: Row -> Bytes, xs: seq<Row>, ys: seq<Row>, r: Row)
    requires InjectiveOn(canon, xs, ys) && r in xs && Serialized(canon, xs) == Serialized(canon, ys)
    ensures r in ys
  {
    var i :| 0 <= i < |xs| && xs[i] == r;
    assert canon(xs[i]) in Serialized(canon, ys);
    var j :| 0 <= j < |ys| && canon(ys[j]) == canon(r);
    assert ys[j] in ys;
  }

  lemma SameMembersSerialize<Row(!new)>(canon: Row -> Bytes, xs: seq<Row>, ys: seq<Row>)
    requires forall r :: r in xs ==> r in ys
    ensures Serialized(canon, xs) <= Serialized(canon, ys)
  {
    forall b | b in Serialized(canon, xs) ensures b in Serialized(canon, ys) {
      var i :| 0 <= i < |xs| && canon(xs[i]) == b;
      assert xs[i] in ys;
      var j :| 0 <= j < |ys| && ys[j] == xs[i];
    }
  }

  ghost predicate SameRows<Row(!new)>(names: seq<Bytes>, cloud: TableRows<Row>, edge: TableRows<Row>)
  {
    forall i :: 0 <= i < |names| ==>
      && (forall r :: r in cloud(Label(names[i])) ==> r in edge(Label(names[i])))
      && (forall r :: r in edge(Label(names[i])) ==> r in cloud(Label(names[i])))
  }

  // Two nodes agree on the community root exactly when they hold the same rows,
  // whatever a row is.
  lemma RootsDecideRows<V(!new)>(
      sha: Sha, canon: Named<V> -> Bytes, names: seq<Bytes>, tableOf: Bytes -> string,
      cloud: map<Entity, V>, edge: map<Entity, V>,
      cloudRows: TableRows<Named<V>>, edgeRows: TableRows<Named<V>>)
    requires ReadsOut(cloud, names, tableOf, cloudRows) && ReadsOut(edge, names, tableOf, edgeRows)
    requires RootsMeanRows(sha, canon, names, cloudRows, edgeRows)
    ensures CombinedRoot(sha, canon, names, cloudRows) == CombinedRoot(sha, canon, names, edgeRows) <==> cloud == edge
  {
    hide SortedConcat, Serialized, Trustworthy, CombinedRoot, TableNames, Label;
    forall i | 0 <= i < |names|
      ensures var l := Label(names[i]);
              && NoDuplicates(canon, cloudRows(l)) && NoDuplicates(canon, edgeRows(l))
              && (Serialized(canon, cloudRows(l)) == Serialized(canon, edgeRows(l)) <==>
                  (forall r :: r in cloudRows(l) ==> r in edgeRows(l)) &&
                  (forall r :: r in edgeRows(l) ==> r in cloudRows(l)))
    {
      DistinctSerialize(canon, cloudRows(Label(names[i])), edgeRows(Label(names[i])));
    }
    CommunityRootDecides(sha, canon, names, cloudRows, edgeRows);
    SameListsSameTables(names, tableOf, cloud, edge, cloudRows, edgeRows);
  }

  lemma SameListsSameTables<V(!new)>(
      names: seq<Bytes>, tableOf: Bytes -> string, cloud: map<Entity, V>, edge: map<Entity, V>,
      cloudRows: TableRows<Named<V>>, edgeRows: TableRows<Named<V>>)
    requires ReadsOut(cloud, names, tableOf, cloudRows) && ReadsOut(edge, names, tableOf, edgeRows)
    ensures cloud == edge <==> SameRows(names, cloudRows, edgeRows)
  {
    hide Label;
    if SameRows(names, cloudRows, edgeRows) {
      ListedRowsCarryOver(names, tableOf, cloud, edge, cloudRows, edgeRows);
      ListedRowsCarryOver(names, tableOf, edge, cloud, edgeRows, cloudRows);
    }
  }

  lemma ListedRowsCarryOver<V(!new)>(
      names: seq<Bytes>, tableOf: Bytes -> string, t: map<Entity, V>, u: map<Entity, V>,
      tRows: TableRows<Named<V>>, uRows: TableRows<Named<V>>)
    requires ReadsOut(t, names, tableOf, tRows) && ReadsOut(u, names, tableOf, uRows)
    requires forall i :: 0 <= i < |names| ==> forall r :: r in tRows(Label(names[i])) ==> r in uRows(Label(names[i]))
    ensures forall n :: n in t ==> n in u && u[n] == t[n]
  {
    hide Label;
    forall n | n in t ensures n in u && u[n] == t[n] {
      var i :| 0 <= i < |names| && tableOf(Label(names[i])) == n.table;
      assert (n, t[n]) in tRows(Label(names[i]));
      assert (n, t[n]) in uRows(Label(names[i]));
    }
  }

  // ---------------------------------------------------------------------
  // The root over the rows an edge serves
  // ---------------------------------------------------------------------

  // The cloud accepts an ack exactly when the edge serves the cloud's rows.
  lemma AckDetectsDrift(
      sha: Sha, canon: Named<Columns> -> Bytes, names: seq<Bytes>, tableOf: Bytes -> string,
      cloud: Tables, edge: Store, cloudRows: TableRows<Named<Columns>>, edgeRows: TableRows<Named<Columns>>)
    requires ReadsOut(cloud, names, tableOf, cloudRows) && ReadsOut(Live(edge), names, tableOf, edgeRows)
    requires RootsMeanRows(sha, canon, names, cloudRows, edgeRows)
    ensures CombinedRoot(sha, canon, names, cloudRows) == CombinedRoot(sha, canon, names, edgeRows) <==>
            Live(edge) == cloud
  {
    hide ReadsOut, RootsMeanRows, CombinedRoot;
    RootsDecideRows(sha, canon, names, tableOf, cloud, Live(edge), cloudRows, edgeRows);
  }

  // So in every run an edge that has drained the log is acknowledged.
  lemma DrainedEdgeIsAcknowledged(
      c: Uuid, ws: seq<World>, ss: seq<Step>, i: nat,
      sha: Sha, canon: Named<Columns> -> Bytes, names: seq<Bytes>, tableOf: Bytes -> string,
      cloudRows: TableRows<Named<Columns>>, edgeRows: TableRows<Named<Columns>>)
    requires IsRun(c, ws, ss) && i < |ss| && ss[i] == Pull
    requires Covered(ws[i].log, ws[i].history, c, ws[i].version)
    requires Batch(ws[i + 1], c) == []
    requires ReadsOut(ws[i + 1].tables, names, tableOf, cloudRows)
    requires ReadsOut(Live(ws[i + 1].rows), names, tableOf, edgeRows)
    requires RootsMeanRows(sha, canon, names, cloudRows, edgeRows)
    ensures CombinedRoot(sha, canon, names, cloudRows) == CombinedRoot(sha, canon, names, edgeRows)
  {
    hide ReadsOut, RootsMeanRows, Inv, After;
    DrainedEdgeServesCloud(c, ws, ss, i);
    AckDetectsDrift(sha, canon, names, tableOf, ws[i + 1].tables, ws[i + 1].rows, cloudRows, edgeRows);
  }

  // A full sync commits only when the roots agree: then, whatever arrived (rows
  // lost, repeated or altered), the edge serves exactly the snapshot.
  lemma AcceptedSyncServesSnapshot(
      received: seq<SnapshotRow>, snapshot: Tables, root: Tables -> Bytes,
      sha: Sha, canon: Named<Columns> -> Bytes, names: seq<Bytes>, tableOf: Bytes -> string,
      cloudRows: TableRows<Named<Columns>>, edgeRows: TableRows<Named<Columns>>)
    requires ReadsOut(snapshot, names, tableOf, cloudRows) && ReadsOut(Staged(received), names, tableOf, edgeRows)
    requires RootsMeanRows(sha, canon, names, cloudRows, edgeRows)
    requires root(snapshot) == CombinedRoot(sha, canon, names, cloudRows)
    requires root(Staged(received)) == CombinedRoot(sha, canon, names, edgeRows)
    ensures root(Staged(received)) == root(snapshot) <==> Live(Fresh(Staged(received))) == snapshot
  {
    hide ReadsOut, RootsMeanRows, CombinedRoot;
    RootsDecideRows(sha, canon, names, tableOf, snapshot, Staged(received), cloudRows, edgeRows);
  }

  // ---------------------------------------------------------------------
  // The root over the rows an edge keeps
  // ---------------------------------------------------------------------

  ghost predicate NoMarks(rows: Store)
  {
    forall n :: n in rows ==> !rows[n].deleted
  }

  // Taken over all kept rows, marks included, the root is accepted exactly when
  // the edge serves the cloud's rows and keeps no deleted one.
  lemma KeptRowsAckExactly(
      sha: Sha, canon: Named<Row> -> Bytes, names: seq<Bytes>, tableOf: Bytes -> string,
      cloud: Tables, edge: Store, cloudRows: TableRows<Named<Row>>, edgeRows: TableRows<Named<Row>>)
    requires ReadsOut(Fresh(cloud), names, tableOf, cloudRows) && ReadsOut(edge, names, tableOf, edgeRows)
    requires RootsMeanRows(sha, canon, names, cloudRows, edgeRows)
    ensures CombinedRoot(sha, canon, names, cloudRows) == CombinedRoot(sha, canon, names, edgeRows) <==>
            Live(edge) == cloud && NoMarks(edge)
  {
    hide ReadsOut, RootsMeanRows, CombinedRoot;
    RootsDecideRows(sha, canon, names, tableOf, Fresh(cloud), edge, cloudRows, edgeRows);
    UnmarkedIsFresh(cloud, edge);
  }

  lemma UnmarkedIsFresh(cloud: Tables, edge: Store)
    ensures Fresh(cloud) == edge <==> Live(edge) == cloud && NoMarks(edge)
  {
    if Live(edge) == cloud && NoMarks(edge) {
      assert forall n :: n in edge <==> n in cloud;
      assert forall n :: n in edge ==> edge[n] == Row(cloud[n], false);
    }
  }

  // So an edge that follows a deletion to the end, and serves the cloud's rows,
  // would be refused: a row is written, synced in full and deleted, and the
  // deletion is pulled.
  lemma DeletionIsRefused(
      c: Uuid, m: Entity, d: Columns, sha: Sha, canon: Named<Row> -> Bytes, names: seq<Bytes>,
      tableOf: Bytes -> string, cloudRows: TableRows<Named<Row>>, edgeRows: TableRows<Named<Row>>)
    returns (ws: seq<World>, ss: seq<Step>)
    ensures IsRun(c, ws, ss) && |ss| > 0 && ss[|ss| - 1] == Pull && Batch(ws[|ss|], c) == []
    ensures Live(ws[|ss|].rows) == ws[|ss|].tables
    ensures ReadsOut(Fresh(ws[|ss|].tables), names, tableOf, cloudRows) &&
            ReadsOut(ws[|ss|].rows, names, tableOf, edgeRows) &&
            RootsMeanRows(sha, canon, names, cloudRows, edgeRows) ==>
              CombinedRoot(sha, canon, names, cloudRows) != CombinedRoot(sha, canon, names, edgeRows)
  {
    hide ReadsOut, RootsMeanRows, CombinedRoot;
    ws, ss := DeletionRun(c, m, d);
    var w := ws[|ss|];
    assert !NoMarks(w.rows);
    if ReadsOut(Fresh(w.tables), names, tableOf, cloudRows) && ReadsOut(w.rows, names, tableOf, edgeRows) &&
       RootsMeanRows(sha, canon, names, cloudRows, edgeRows) {
      KeptRowsAckExactly(sha, canon, names, tableOf, w.tables, w.rows, cloudRows, edgeRows);
    }
  }

  lemma DeletionRun(c: Uuid, m: Entity, d: Columns) returns (ws: seq<World>, ss: seq<Step>)
    ensures IsRun(c, ws, ss) && |ss| > 0 && |ws| == |ss| + 1 && ss[|ss| - 1] == Pull && Batch(ws[|ss|], c) == []
    ensures Live(ws[|ss|].rows) == ws[|ss|].tables
    ensures m in ws[|ss|].rows && ws[|ss|].rows[m].deleted
  {
    hide Delta, BatchRows, IsRun;
    var down := Event(m, Tombstone);
    ws, ss := SyncedThenWritten(c, m, d, down);
    var w := SyncedThenOne(c, m, d, down);
    var w' := PullOne(c, w, 2);
    assert Key(c, 1) in w.log;
    ws, ss := Extend(c, ws, ss, Pull, w');
    assert Versions(w'.log, c, w'.version) == {};
    CutSkipsNothing(w'.log, c, w'.version);
    assert Elems(Pending(w'.log, c, w'.version)) == {};
  }

  // A pull when one event is pending, and is the newest.
  lemma PullOne(c: Uuid, w: World, v: nat) returns (w': World)
    requires v > w.version && Key(c, v) in w.log
    requires forall k :: k in w.log && k.community == c && k.version > w.version ==> k.version == v
    ensures w' == After(c, w, Pull)
    ensures var rows := ApplyOne(w.rows, w.log[Key(c, v)]);
            w' == w.(rows := rows, version := v, base := rows, touched := [])
  {
    w' := After(c, w, Pull);
    OneEventBatch(c, w.log, w.version, v);
    BatchIsSpan(w.log, c, w.version);
    BatchRetained(w.log, c, w.version);
    var batch := Batch(w, c);
    assert |batch| == 1;
    assert batch[0] in batch;
    assert Replay(w.rows, [w.log[Key(c, v)]]) == ApplyOne(w.rows, w.log[Key(c, v)]);
  }
}
