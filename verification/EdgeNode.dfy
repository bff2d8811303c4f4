// The edge side of the sync protocol: applying delta batches row by row,
// catching up, and the staged full sync.
module EdgeNode {
  import opened Ids
  import opened DeltaLog

  // A mirrored row. A tombstone marks it and keeps it.
  datatype Row = Row(data: Columns, deleted: bool)

  type Store = map<Entity, Row>

  type Tables = map<Entity, Columns>

  // ---------------------------------------------------------------------
  // Replaying events
  // ---------------------------------------------------------------------

  // UPSERT writes the row as sent; a tombstone marks a row that is there.
  function ApplyOne(rows: Store, e: Event): Store
  {
    match e.op
    case Upsert(data) => rows[e.entity := Row(data, false)]
    case Tombstone =>
      if e.entity in rows then rows[e.entity := rows[e.entity].(deleted := true)] else rows
  }

  function Replay(rows: Store, es: seq<Event>): Store
    decreases |es|
  {
    if |es| == 0 then rows else Replay(ApplyOne(rows, es[0]), es[1..])
  }

  lemma {:induction false} ReplayConcat(rows: Store, a: seq<Event>, b: seq<Event>)
    ensures Replay(rows, a + b) == Replay(Replay(rows, a), b)
    decreases |a|
  {
    if |a| == 0 {
      assert a + b == b;
    } else {
      assert (a + b)[1..] == a[1..] + b;
      ReplayConcat(ApplyOne(rows, a[0]), a[1..], b);
    }
  }

  // Rows that differ only where an upsert is still to come end up the same.
  lemma {:induction false} UpsertOverwrites(x: Store, y: Store, e: Event, es: seq<Event>)
    requires e.op.Upsert? && e in es
    requires x - {e.entity} == y - {e.entity}
    ensures Replay(x, es) == Replay(y, es)
    decreases |es|
  {
    var x', y' := ApplyOne(x, es[0]), ApplyOne(y, es[0]);
    AgreeElsewhere(x, y, e.entity);
    if es[0].entity == e.entity && es[0].op.Upsert? {
      assert x' == y';
    } else {
      AgreeElsewhere(x', y', e.entity);
      assert e in es[1..];
      UpsertOverwrites(x', y', e, es[1..]);
    }
  }

  lemma AgreeElsewhere(x: Store, y: Store, n: Entity)
    ensures x - {n} == y - {n} <==>
            forall k :: k != n ==> (k in x <==> k in y) && (k in x && k in y ==> x[k] == y[k])
  {
    if x - {n} == y - {n} {
      forall k | k != n ensures (k in x <==> k in y) && (k in x && k in y ==> x[k] == y[k]) {
        assert k in x - {n} <==> k in x;
        assert k in y - {n} <==> k in y;
        if k in x && k in y {
          assert (x - {n})[k] == x[k] && (y - {n})[k] == y[k];
        }
      }
    }
  }

  // An event that a batch contains changes nothing when it is applied once
  // more before the batch ...
  lemma {:induction false} AbsorbOne(rows: Store, e: Event, es: seq<Event>)
    requires e in es
    ensures Replay(ApplyOne(rows, e), es) == Replay(rows, es)
    decreases |es|
  {
    var f := es[0];
    if e == f {
      assert ApplyOne(ApplyOne(rows, e), e) == ApplyOne(rows, e);
    } else if e.entity != f.entity {
      assert ApplyOne(ApplyOne(rows, e), f) == ApplyOne(ApplyOne(rows, f), e);
      assert e in es[1..];
      AbsorbOne(ApplyOne(rows, f), e, es[1..]);
    } else if f.op.Upsert? {
      assert ApplyOne(ApplyOne(rows, e), f) == ApplyOne(rows, f);
    } else {
      assert e in es[1..];
      UpsertOverwrites(ApplyOne(ApplyOne(rows, e), f), ApplyOne(rows, f), e, es[1..]);
    }
  }

  // ... and so do any number of them, in any order.
  lemma {:induction false} AbsorbAll(rows: Store, done: seq<Event>, es: seq<Event>)
    requires forall e :: e in done ==> e in es
    ensures Replay(Replay(rows, done), es) == Replay(rows, es)
    decreases |done|
  {
    if |done| > 0 {
      AbsorbAll(ApplyOne(rows, done[0]), done[1..], es);
      AbsorbOne(rows, done[0], es);
    }
  }

  // Crash-safe application: any prefix of a batch, then the batch again,
  // possibly grown, is one clean application.
  lemma CrashedPrefixIsAbsorbed(rows: Store, batch: seq<Event>, k: nat, longer: seq<Event>)
    requires k <= |batch| && batch <= longer
    ensures Replay(Replay(rows, batch[..k]), longer) == Replay(rows, longer)
  {
    forall e | e in batch[..k] ensures e in longer {
      var i :| 0 <= i < k && batch[..k][i] == e;
      assert longer[i] == e;
    }
    AbsorbAll(rows, batch[..k], longer);
  }

  // This hangs on UPSERT clearing the mark. If it kept the mark of a row that
  // is already there, a crash could delete a row that a clean run keeps.
  function ApplyKeepingMark(rows: Store, e: Event): Store
  {
    match e.op
    case Upsert(data) => rows[e.entity := Row(data, e.entity in rows && rows[e.entity].deleted)]
    case Tombstone => ApplyOne(rows, e)
  }

  lemma KeepingTheMarkIsNotCrashSafe(n: Entity, d: Columns)
    ensures var gone, back := Event(n, Tombstone), Event(n, Upsert(d));
            var clean := ApplyKeepingMark(ApplyKeepingMark(map[], gone), back);
            var crashed := ApplyKeepingMark(ApplyKeepingMark(clean, gone), back);
            n in clean && !clean[n].deleted && n in crashed && crashed[n].deleted
  {}

  // What replaying leaves of one row: a row once mirrored is kept for good; it
  // holds what was last upserted, and carries a mark if a tombstone came last.
  lemma {:induction false} ReplayedRow(rows: Store, es: seq<Event>, n: Entity)
    ensures var r := Replay(rows, es);
            && (n in r <==> n in rows || LastUpsert(es, n).Some?)
            && (n in r ==>
                  && r[n].data == (if LastUpsert(es, n).Some? then LastUpsert(es, n).value else rows[n].data)
                  && (r[n].deleted <==> LastOn(es, n) == Some(Tombstone) ||
                                        (LastOn(es, n) == None && n in rows && rows[n].deleted)))
    decreases |es|
  {
    if |es| > 0 {
      var rest, last := es[..|es| - 1], es[|es| - 1];
      assert es == rest + [last];
      ReplayedRow(rows, rest, n);
      ReplayConcat(rows, rest, [last]);
      assert Replay(Replay(rows, rest), [last]) == ApplyOne(Replay(rows, rest), last);
    }
  }

  function LastOn(es: seq<Event>, n: Entity): Option<Op>
  {
    if |es| == 0 then None
    else if es[|es| - 1].entity == n then Some(es[|es| - 1].op)
    else LastOn(es[..|es| - 1], n)
  }

  function LastUpsert(es: seq<Event>, n: Entity): Option<Columns>
  {
    if |es| == 0 then None
    else if es[|es| - 1].entity == n && es[|es| - 1].op.Upsert? then Some(es[|es| - 1].op.data)
    else LastUpsert(es[..|es| - 1], n)
  }

  lemma RowsAreKept(rows: Store, es: seq<Event>)
    ensures rows.Keys <= Replay(rows, es).Keys
  {
    forall n | n in rows ensures n in Replay(rows, es) {
      ReplayedRow(rows, es, n);
    }
  }

  // ---------------------------------------------------------------------
  // The live rows
  // ---------------------------------------------------------------------

  // What the edge serves: rows that carry no mark.
  function Live(rows: Store): Tables
  {
    map n | n in rows && !rows[n].deleted :: rows[n].data
  }

  // The same events as statements on the cloud's tables.
  function WriteOne(t: Tables, e: Event): Tables
  {
    match e.op
    case Upsert(data) => t[e.entity := data]
    case Tombstone => t - {e.entity}
  }

  function WriteAll(t: Tables, es: seq<Event>): Tables
    decreases |es|
  {
    if |es| == 0 then t else WriteAll(WriteOne(t, es[0]), es[1..])
  }

  lemma {:induction false} WriteAllConcat(t: Tables, a: seq<Event>, b: seq<Event>)
    ensures WriteAll(t, a + b) == WriteAll(WriteAll(t, a), b)
    decreases |a|
  {
    if |a| == 0 {
      assert a + b == b;
    } else {
      assert (a + b)[1..] == a[1..] + b;
      WriteAllConcat(WriteOne(t, a[0]), a[1..], b);
    }
  }

  lemma {:induction false} LiveFollowsWrites(rows: Store, es: seq<Event>)
    ensures Live(Replay(rows, es)) == WriteAll(Live(rows), es)
    decreases |es|
  {
    if |es| > 0 {
      assert Live(ApplyOne(rows, es[0])) == WriteOne(Live(rows), es[0]);
      LiveFollowsWrites(ApplyOne(rows, es[0]), es[1..]);
    }
  }

  // What a list of events leaves of one row depends on the last event on it.

  function Value(t: Tables, n: Entity): Option<Columns>
  {
    if n in t then Some(t[n]) else None
  }

  function Leaves(t: Tables, es: seq<Event>, n: Entity): Option<Columns>
  {
    match LastOn(es, n)
    case None => Value(t, n)
    case Some(Upsert(data)) => Some(data)
    case Some(Tombstone) => None
  }

  lemma {:induction false} WriteAllLeaves(t: Tables, es: seq<Event>, n: Entity)
    ensures Value(WriteAll(t, es), n) == Leaves(t, es, n)
  {
    if |es| > 0 {
      var rest, last := es[..|es| - 1], es[|es| - 1];
      WriteAllLeaves(t, rest, n);
      assert es == rest + [last];
      WriteAllConcat(t, rest, [last]);
      assert WriteAll(WriteAll(t, rest), [last]) == WriteOne(WriteAll(t, rest), last);
    }
  }

  ghost predicate SameEffect(t: Tables, a: seq<Event>, b: seq<Event>)
  {
    forall n :: Leaves(t, a, n) == Leaves(t, b, n)
  }

  lemma SameEffectExactly(t: Tables, a: seq<Event>, b: seq<Event>)
    ensures WriteAll(t, a) == WriteAll(t, b) <==> SameEffect(t, a, b)
  {
    var x, y := WriteAll(t, a), WriteAll(t, b);
    forall n ensures Value(x, n) == Leaves(t, a, n) && Value(y, n) == Leaves(t, b, n) {
      WriteAllLeaves(t, a, n);
      WriteAllLeaves(t, b, n);
    }
    if SameEffect(t, a, b) {
      forall n ensures (n in x <==> n in y) && (n in x ==> x[n] == y[n]) {
        assert Value(x, n) == Value(y, n);
      }
      assert x == y;
    }
  }

  // ---------------------------------------------------------------------
  // Snapshots
  // ---------------------------------------------------------------------

  datatype SnapshotRow = SnapshotRow(entity: Entity, data: Columns)

  const PAGE: nat := 1000

  // Rows of a snapshot, inserted in order.
  function Staged(rows: seq<SnapshotRow>): Tables
  {
    if |rows| == 0 then map[]
    else Staged(rows[..|rows| - 1])[rows[|rows| - 1].entity := rows[|rows| - 1].data]
  }

  // A snapshot lists the rows of t, each entity once.
  ghost predicate IsSnapshotOf(rows: seq<SnapshotRow>, t: Tables)
  {
    && (forall i, j :: 0 <= i < j < |rows| ==> rows[i].entity != rows[j].entity)
    && (forall r :: r in rows ==> r.entity in t && t[r.entity] == r.data)
    && (forall n :: n in t ==> SnapshotRow(n, t[n]) in rows)
  }

  // Staging such a snapshot rebuilds the tables.
  lemma StagingRebuilds(rows: seq<SnapshotRow>, t: Tables)
    requires IsSnapshotOf(rows, t)
    ensures Staged(rows) == t
  {
    StagedHolds(rows);
    forall n | n in t ensures n in Staged(rows) && Staged(rows)[n] == t[n] {
      assert SnapshotRow(n, t[n]) in rows;
    }
  }

  lemma {:induction false} StagedHolds(rows: seq<SnapshotRow>)
    requires forall i, j :: 0 <= i < j < |rows| ==> rows[i].entity != rows[j].entity
    ensures forall r :: r in rows ==> r.entity in Staged(rows) && Staged(rows)[r.entity] == r.data
    ensures forall n :: n in Staged(rows) ==> SnapshotRow(n, Staged(rows)[n]) in rows
  {
    if |rows| > 0 {
      var rest, last := rows[..|rows| - 1], rows[|rows| - 1];
      StagedHolds(rest);
      assert rows == rest + [last];
      assert forall r :: r in rows <==> r in rest || r == last;
      assert forall i :: 0 <= i < |rest| ==> rest[i].entity != last.entity;
    }
  }

  function Fresh(t: Tables): (s: Store)
    ensures Live(s) == t
  {
    map n | n in t :: Row(t[n], false)
  }

  datatype Health = Healthy | Resyncing

  // ---------------------------------------------------------------------
  // The edge
  // ---------------------------------------------------------------------

  class Edge {
    var rows: Store
    var version: nat
    var staging: Tables
    var health: Health

    constructor ()
      ensures rows == map[] && version == 0 && staging == map[] && health == Healthy
    {
      rows, version, staging, health := map[], 0, map[], Healthy;
    }

    // One delta batch. `steps` is how far the agent gets before it stops: a
    // step per row, and a last one that records the version.
    method ApplyDelta(batch: seq<Event>, toVersion: nat, steps: nat)
      modifies this`rows, this`version
      ensures rows == Replay(old(rows), Prefix(batch, steps))
      ensures version == if steps > |batch| then toVersion else old(version)
    {
      var i := 0;
      while i < |batch| && i < steps
        invariant 0 <= i <= |batch| && i <= steps
        invariant rows == Replay(old(rows), batch[..i])
        invariant version == old(version)
      {
        assert batch[..i + 1] == batch[..i] + [batch[i]];
        ReplayConcat(old(rows), batch[..i], [batch[i]]);
        var e := batch[i];
        match e.op {
          case Upsert(data) =>
            rows := rows[e.entity := Row(data, false)];
          case Tombstone =>
            if e.entity in rows {
              rows := rows[e.entity := rows[e.entity].(deleted := true)];
            }
        }
        i := i + 1;
      }
      assert Prefix(batch, steps) == batch[..i];
      if steps > |batch| {
        version := toVersion;
      }
    }

    // Pull until a batch comes back empty, from a log that stands still.
    // Every pending event is applied exactly once, in version order, in
    // ceil(n / 500) non-empty batches.
    method CatchUp(log: Log, c: Uuid) returns (pulls: nat, ghost delivered: seq<nat>)
      modifies this`rows, this`version
      ensures delivered == Pending(log, c, old(version))
      ensures rows == Replay(old(rows), Rows(log, c, delivered))
      ensures version == Resume(delivered, old(version))
      ensures Pending(log, c, version) == []
      ensures pulls == (|delivered| + BATCH - 1) / BATCH
    {
      hide Pending, Delta, Rows, Replay, Prefix, Pulled;
      pulls, delivered := 0, [];
      RowsOfNone(log, c, rows);
      NonePulled(|Pending(log, c, version)|);
      ghost var all := Pending(log, c, version);
      var batch := QueryDelta(log, c, version);
      while |batch| > 0
        invariant batch == Delta(log, c, version)
        invariant all == delivered + Pending(log, c, version)
        invariant forall v :: v in delivered ==> Key(c, v) in log
        invariant rows == Replay(old(rows), Rows(log, c, delivered))
        invariant version == Resume(delivered, old(version))
        invariant Pulled(pulls, |delivered|, |Pending(log, c, version)|)
        decreases |Pending(log, c, version)|
      {
        CutSkipsNothing(log, c, version);
        BatchSize(log, c, version);
        OnePullMore(pulls, |delivered|, |Pending(log, c, version)|, |batch|);
        BatchRetained(log, c, version);
        BatchFollows(log, c, version, old(rows), rows, delivered);
        ghost var rest := Pending(log, c, Resume(batch, version));
        ApplyDelta(Rows(log, c, batch), Resume(batch, version), |batch| + 1);
        PrefixAll(Rows(log, c, batch), |batch| + 1);
        assert all == (delivered + batch) + rest;
        delivered := delivered + batch;
        pulls := pulls + 1;
        batch := QueryDelta(log, c, version);
      }
      CutSkipsNothing(log, c, version);
      assert all == delivered;
      AllPulled(pulls, |delivered|);
    }

    // Full sync: pages of 1000 rows go to the staging tables; the live tables
    // are swapped in one transaction after the cloud has accepted the root of
    // what was staged. `received` is what arrives, `pages` how many pages of it
    // come before the connection drops, `expected` the root the cloud has.
    method FullSync<R(==)>(
        received: seq<SnapshotRow>, snapshotVersion: nat, pages: nat, root: Tables -> R, expected: R)
      returns (done: bool)
      modifies this
      ensures done <==> pages * 1000 >= |received| && root(Staged(received)) == expected
      ensures done ==> rows == Fresh(Staged(received)) && version == snapshotVersion && health == Healthy
      ensures !done ==> rows == old(rows) && version == old(version) && health == Resyncing
    {
      health := Resyncing;
      staging := map[];
      var cursor, arrived := 0, 0;
      while cursor < |received| && arrived < pages
        invariant 0 <= cursor <= |received| && arrived <= pages
        invariant cursor == if arrived * PAGE < |received| then arrived * PAGE else |received|
        invariant staging == Staged(received[..cursor])
        invariant rows == old(rows) && version == old(version) && health == Resyncing
        decreases pages - arrived
      {
        var next := if cursor + PAGE <= |received| then cursor + PAGE else |received|;
        while cursor < next
          invariant cursor <= next <= |received|
          invariant staging == Staged(received[..cursor])
          invariant rows == old(rows) && version == old(version) && health == Resyncing
        {
          assert received[..cursor + 1][..cursor] == received[..cursor];
          staging := staging[received[cursor].entity := received[cursor].data];
          cursor := cursor + 1;
        }
        arrived := arrived + 1;
      }
      assert cursor == |received| ==> received[..cursor] == received;
      done := cursor == |received| && root(staging) == expected;
      if done {
        rows, version, health := Fresh(staging), snapshotVersion, Healthy;
      }
    }
  }

  lemma BatchRetained(log: Log, c: Uuid, since: nat)
    ensures forall v: nat :: v in Delta(log, c, since) ==> Key(c, v) in log && v > since
    ensures forall v: nat :: v in Pending(log, c, since) ==> Key(c, v) in log && v > since
  {
    var all := Pending(log, c, since);
    forall v: nat | v in all ensures Key(c, v) in log && v > since {
      assert v in Elems(all);
    }
    forall v: nat | v in Delta(log, c, since) ensures v in all {
      var i :| 0 <= i < |Delta(log, c, since)| && Delta(log, c, since)[i] == v;
      assert all[i] == v;
    }
  }

  lemma BatchSize(log: Log, c: Uuid, since: nat)
    ensures |Delta(log, c, since)| <= BATCH
    ensures |Delta(log, c, since)| < |Pending(log, c, since)| ==> |Delta(log, c, since)| == BATCH
  {}

  // After `pulls` full batches, the last of which may be short when nothing is left.
  ghost predicate Pulled(pulls: nat, delivered: nat, left: nat)
  {
    delivered == pulls * BATCH || (left == 0 && (pulls - 1) * BATCH < delivered < pulls * BATCH)
  }

  lemma NonePulled(left: nat)
    ensures Pulled(0, 0, left)
  {}

  lemma OnePullMore(pulls: nat, delivered: nat, left: nat, batch: nat)
    requires Pulled(pulls, delivered, left)
    requires 0 < batch <= left && batch <= BATCH && (batch < left ==> batch == BATCH)
    ensures Pulled(pulls + 1, delivered + batch, left - batch)
  {}

  lemma AllPulled(pulls: nat, delivered: nat)
    requires Pulled(pulls, delivered, 0)
    ensures pulls == (delivered + BATCH - 1) / BATCH
  {}

  lemma BatchFollows(log: Log, c: Uuid, since: nat, start: Store, rows: Store, delivered: seq<nat>)
    requires forall v: nat :: v in delivered ==> Key(c, v) in log
    requires rows == Replay(start, Rows(log, c, delivered))
    ensures var batch := Delta(log, c, since);
            && (forall v: nat :: v in delivered + batch ==> Key(c, v) in log)
            && Replay(rows, Rows(log, c, batch)) == Replay(start, Rows(log, c, delivered + batch))
  {
    hide Replay, Delta;
    var batch := Delta(log, c, since);
    BatchRetained(log, c, since);
    ReplayConcat(start, Rows(log, c, delivered), Rows(log, c, batch));
    RowsConcat(log, c, delivered, batch);
  }

  lemma PrefixAll(s: seq<Event>, n: nat)
    requires n >= |s|
    ensures Prefix(s, n) == s
  {}

  lemma RowsOfNone(log: Log, c: Uuid, rows: Store)
    ensures Replay(rows, Rows(log, c, [])) == rows
  {}

  lemma RowsConcat(log: Log, c: Uuid, a: seq<nat>, b: seq<nat>)
    requires forall v: nat :: v in a || v in b ==> Key(c, v) in log
    ensures Rows(log, c, a + b) == Rows(log, c, a) + Rows(log, c, b)
  {}
}
