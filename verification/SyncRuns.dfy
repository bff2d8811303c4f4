// Whole runs of the sync protocol, seen from one edge: the cloud writes, emits
// and prunes; the edge pulls, crashes half-way, pulls again and resyncs. Every
// interleaving of these steps is a run. A lost ack is a pull like any other,
// since the edge records its version before the ack and never waits for it.
module SyncRuns {
  import opened Ids
  import opened DeltaLog
  import opened EdgeNode

  datatype Snapshot = Snapshot(tables: Tables, version: nat)

  // c is the edge's community throughout. `history` is the log as it would be
  // without pruning. `base` is what the edge held when it last recorded its
  // version, `touched` what crashed pulls have applied since; `origin` is what
  // it held at originVersion, when it was last swapped in full.
  datatype World = World(
    tables: Tables, current: nat, history: Log, log: Log,
    rows: Store, version: nat, snapshot: Option<Snapshot>,
    base: Store, touched: seq<Event>, origin: Store, originVersion: nat)

  datatype Step =
    | Write(version: nat, event: Event)      // a write to a synced row of c, and its event
    | Bump(version: nat)                     // a version bump that emits nothing
    | WriteElsewhere(key: Key, event: Event) // the same in another community
    | Prune(kept: Log)
    | CrashedPull(applied: nat)
    | Pull
    | BeginFullSync
    | CommitFullSync   // accepted, so what was staged is the snapshot

  const START := World(map[], 0, map[], map[], map[], 0, None, map[], [], map[], 0)

  ghost function Batch(w: World, c: Uuid): seq<nat>
  {
    Delta(w.log, c, w.version)
  }

  ghost predicate Enabled(c: Uuid, w: World, s: Step)
  {
    match s
    case Write(v, e) => v > w.current
    case Bump(v) => v > w.current
    case WriteElsewhere(k, e) => k.community != c && k !in w.history && NewestOfItsCommunity(k, w.history)
    case Prune(kept) => (forall k :: k in kept ==> k in w.log) && Retained(kept, w.history)
    case CrashedPull(n) => !Stale(w.log, c, w.version)
    case Pull => !Stale(w.log, c, w.version)
    case BeginFullSync => true
    case CommitFullSync => w.snapshot.Some?
  }

  ghost predicate NewestOfItsCommunity(k: Key, history: Log)
  {
    forall l :: l in history && l.community == k.community ==> l.version < k.version
  }

  ghost function BatchRows(log: Log, c: Uuid, since: nat): seq<Event>
  {
    BatchRetained(log, c, since);
    Rows(log, c, Delta(log, c, since))
  }

  ghost function After(c: Uuid, w: World, s: Step): World
  {
    match s
    case Write(v, e) =>
      w.(tables := WriteOne(w.tables, e), current := v,
         history := w.history[Key(c, v) := e], log := w.log[Key(c, v) := e])
    case Bump(v) => w.(current := v)
    case WriteElsewhere(k, e) => w.(history := w.history[k := e], log := w.log[k := e])
    case Prune(kept) => w.(log := kept)
    case CrashedPull(n) =>
      var done := Prefix(BatchRows(w.log, c, w.version), n);
      w.(rows := Replay(w.rows, done), touched := w.touched + done)
    case Pull =>
      var batch := Batch(w, c);
      var rows := Replay(w.rows, BatchRows(w.log, c, w.version));
      if |batch| == 0 then w
      else w.(rows := rows, version := Resume(batch, w.version), base := rows, touched := [])
    case BeginFullSync => w.(snapshot := Some(Snapshot(w.tables, w.current)))
    case CommitFullSync =>
      if w.snapshot.None? then w
      else
        var rows := Fresh(w.snapshot.value.tables);
        var v := w.snapshot.value.version;
        w.(rows := rows, version := v, snapshot := None, base := rows, touched := [],
           origin := rows, originVersion := v)
  }

  ghost predicate IsRun(c: Uuid, ws: seq<World>, ss: seq<Step>)
  {
    && |ws| == |ss| + 1
    && ws[0] == START
    && forall i :: 0 <= i < |ss| ==> Enabled(c, ws[i], ss[i]) && ws[i + 1] == After(c, ws[i], ss[i])
  }

  // ---------------------------------------------------------------------
  // The events between two versions
  // ---------------------------------------------------------------------

  function SpanSet(h: Log, c: Uuid, a: nat, b: nat): set<nat>
  {
    set v | v in Versions(h, c, a) && v <= b
  }

  ghost function Span(h: Log, c: Uuid, a: nat, b: nat): (r: seq<nat>)
    ensures forall v: nat :: v in r ==> Key(c, v) in h
  {
    var r := Ascending(SpanSet(h, c, a, b));
    assert forall v: nat :: v in r ==> v in Elems(r);
    r
  }

  ghost function SpanRows(h: Log, c: Uuid, a: nat, b: nat): seq<Event>
  {
    Rows(h, c, Span(h, c, a, b))
  }

  // The cloud's tables at version v: all events up to v, on empty tables.
  ghost function AsOf(h: Log, c: Uuid, v: nat): Tables
  {
    WriteAll(map[], SpanRows(h, c, 0, v))
  }

  lemma SpanJoins(h: Log, c: Uuid, x: nat, y: nat, z: nat)
    requires x <= y <= z
    ensures SpanRows(h, c, x, z) == SpanRows(h, c, x, y) + SpanRows(h, c, y, z)
  {
    hide Rows;
    assert SpanSet(h, c, x, z) == SpanSet(h, c, x, y) + SpanSet(h, c, y, z);
    AscendingGrows(SpanSet(h, c, x, y), SpanSet(h, c, y, z));
    RowsConcat(h, c, Span(h, c, x, y), Span(h, c, y, z));
  }

  lemma AsOfAdvances(h: Log, c: Uuid, y: nat, z: nat)
    requires y <= z
    ensures AsOf(h, c, z) == WriteAll(AsOf(h, c, y), SpanRows(h, c, y, z))
  {
    SpanJoins(h, c, 0, y, z);
    WriteAllConcat(map[], SpanRows(h, c, 0, y), SpanRows(h, c, y, z));
  }

  // A batch is the span from the version it was asked for to the one it ends at.
  lemma BatchIsSpan(h: Log, c: Uuid, since: nat)
    requires |Delta(h, c, since)| > 0
    ensures var upTo := Resume(Delta(h, c, since), since);
            since < upTo && Key(c, upTo) in h && BatchRows(h, c, since) == SpanRows(h, c, since, upTo)
  {
    var all, batch := Pending(h, c, since), Delta(h, c, since);
    var k := |batch| - 1;
    assert all[..k + 1] == batch;
    assert all[k] in Elems(all);
    ElemsUpTo(all, k);
    assert Elems(batch) == SpanSet(h, c, since, all[k]);
    IncreasingUnique(batch, Span(h, c, since, all[k]));
  }

  // ---------------------------------------------------------------------
  // What every step keeps
  // ---------------------------------------------------------------------

  ghost predicate CloudInv(c: Uuid, w: World)
  {
    && (forall k :: k in w.history && k.community == c ==> 0 < k.version <= w.current)
    && Retained(w.log, w.history)
    && w.tables == AsOf(w.history, c, w.current)
    && (w.snapshot.Some? ==>
          && w.snapshot.value.version <= w.current
          && w.snapshot.value.tables == AsOf(w.history, c, w.snapshot.value.version))
  }

  ghost predicate EdgeInv(c: Uuid, w: World)
  {
    && w.originVersion <= w.version <= w.current
    && Live(w.origin) == AsOf(w.history, c, w.originVersion)
    && w.base == Replay(w.origin, SpanRows(w.history, c, w.originVersion, w.version))
    && w.rows == Replay(w.base, w.touched)
    && (forall e :: e in w.touched ==> e in BatchRows(w.history, c, w.version))
  }

  ghost predicate Inv(c: Uuid, w: World)
  {
    CloudInv(c, w) && EdgeInv(c, w)
  }

  // h grows into g by events of c above `current` and by events elsewhere.
  ghost predicate Grows(c: Uuid, h: Log, g: Log, current: nat)
  {
    && (forall k :: k in h ==> k in g && g[k] == h[k])
    && (forall k :: k in h && k.community == c ==> k.version <= current)
    && (forall k :: k in g && k !in h && k.community == c ==> k.version > current)
  }

  lemma GrowthKeepsSpans(c: Uuid, h: Log, g: Log, current: nat, a: nat, b: nat)
    requires Grows(c, h, g, current) && b <= current
    ensures SpanRows(g, c, a, b) == SpanRows(h, c, a, b)
  {
    assert SpanSet(g, c, a, b) == SpanSet(h, c, a, b);
  }

  lemma GrowthKeepsBatch(c: Uuid, h: Log, g: Log, current: nat, since: nat)
    requires Grows(c, h, g, current)
    ensures BatchRows(h, c, since) <= BatchRows(g, c, since)
  {
    hide Rows;
    var more := Versions(g, c, since) - Versions(h, c, since);
    assert Versions(g, c, since) == Versions(h, c, since) + more;
    AscendingGrows(Versions(h, c, since), more);
    BatchRetained(h, c, since);
    BatchRetained(g, c, since);
    LongerPrefix(Pending(h, c, since), Ascending(more), BATCH);
    RowsPrefix(h, g, c, Delta(h, c, since), Delta(g, c, since));
  }

  lemma LongerPrefix<T>(a: seq<T>, b: seq<T>, n: nat)
    ensures Prefix(a, n) <= Prefix(a + b, n)
  {}

  lemma RowsPrefix(h: Log, g: Log, c: Uuid, a: seq<nat>, b: seq<nat>)
    requires a <= b
    requires forall v: nat :: v in b ==> Key(c, v) in g
    requires forall v: nat :: v in a ==> Key(c, v) in h
    requires forall k :: k in h ==> k in g && g[k] == h[k]
    ensures Rows(h, c, a) <= Rows(g, c, b)
  {
    forall i | 0 <= i < |a| ensures Rows(h, c, a)[i] == Rows(g, c, b)[i] {
      assert a[i] in a && a[i] == b[i];
    }
  }

  lemma GrowthKeepsEdge(c: Uuid, w: World, w': World)
    requires EdgeInv(c, w)
    requires w' == w.(tables := w'.tables, current := w'.current, history := w'.history, log := w'.log)
    requires w.current <= w'.current && Grows(c, w.history, w'.history, w.current)
    ensures EdgeInv(c, w')
  {
    hide SpanRows, BatchRows, Replay;
    GrowthKeepsSpans(c, w.history, w'.history, w.current, 0, w.originVersion);
    GrowthKeepsSpans(c, w.history, w'.history, w.current, w.originVersion, w.version);
    GrowthKeepsBatch(c, w.history, w'.history, w.current, w.version);
  }

  lemma GrowthKeepsAsOf(c: Uuid, h: Log, g: Log, current: nat, v: nat)
    requires Grows(c, h, g, current) && v <= current
    ensures AsOf(g, c, v) == AsOf(h, c, v)
  {
    hide SpanRows;
    GrowthKeepsSpans(c, h, g, current, 0, v);
  }

  lemma GrowthKeepsSnapshot(c: Uuid, w: World, w': World)
    requires CloudInv(c, w)
    requires w'.snapshot == w.snapshot && w.current <= w'.current && Grows(c, w.history, w'.history, w.current)
    ensures w'.snapshot.Some? ==>
              && w'.snapshot.value.version <= w'.current
              && w'.snapshot.value.tables == AsOf(w'.history, c, w'.snapshot.value.version)
  {
    hide AsOf;
    if w.snapshot.Some? {
      GrowthKeepsAsOf(c, w.history, w'.history, w.current, w.snapshot.value.version);
    }
  }

  lemma WriteKeepsInv(c: Uuid, w: World, v: nat, e: Event)
    requires Inv(c, w) && v > w.current
    ensures Inv(c, After(c, w, Write(v, e)))
  {
    var w' := After(c, w, Write(v, e));
    WriteGrowsLog(c, w, v, e);
    hide AsOf, EdgeInv, Retained, Grows, WriteOne;
    GrowthKeepsEdge(c, w, w');
    GrowthKeepsSnapshot(c, w, w');
    WriteExtendsAsOf(c, w, v, e);
  }

  lemma WriteGrowsLog(c: Uuid, w: World, v: nat, e: Event)
    requires CloudInv(c, w) && v > w.current
    ensures var w' := After(c, w, Write(v, e));
            Retained(w'.log, w'.history) && Grows(c, w.history, w'.history, w.current)
  {
    hide AsOf;
  }

  lemma WriteExtendsAsOf(c: Uuid, w: World, v: nat, e: Event)
    requires CloudInv(c, w) && v > w.current
    ensures AsOf(w.history[Key(c, v) := e], c, v) == WriteOne(w.tables, e)
  {
    hide AsOf, SpanRows;
    var h' := w.history[Key(c, v) := e];
    GrowthKeepsAsOf(c, w.history, h', w.current, w.current);
    NewestEvent(c, h', w.current, v);
    AsOfAdvances(h', c, w.current, v);
    assert WriteAll(w.tables, [e]) == WriteOne(w.tables, e);
  }

  lemma NewestEvent(c: Uuid, h: Log, current: nat, v: nat)
    requires v > current && Key(c, v) in h
    requires forall k :: k in h && k.community == c && k.version > current ==> k.version == v
    ensures SpanRows(h, c, current, v) == [h[Key(c, v)]]
  {
    assert SpanSet(h, c, current, v) == {v};
    var r := Span(h, c, current, v);
    assert |r| == 1 && r[0] in Elems(r);
  }

  lemma QuietKeepsInv(c: Uuid, w: World, s: Step)
    requires Inv(c, w) && Enabled(c, w, s)
    requires s.Bump? || s.WriteElsewhere? || s.Prune? || s.BeginFullSync?
    ensures Inv(c, After(c, w, s))
  {
    var w' := After(c, w, s);
    QuietGrowsLog(c, w, s);
    hide AsOf, EdgeInv, Retained, Grows;
    if s.BeginFullSync? {
      SnapshotKeepsEdge(c, w, w');
    } else {
      GrowthKeepsEdge(c, w, w');
      GrowthKeepsSnapshot(c, w, w');
      GrowthKeepsAsOf(c, w.history, w'.history, w.current, w.current);
      QuietAsOf(c, w'.history, w.current, w'.current);
    }
  }

  lemma QuietGrowsLog(c: Uuid, w: World, s: Step)
    requires CloudInv(c, w) && Enabled(c, w, s)
    requires s.Bump? || s.WriteElsewhere? || s.Prune? || s.BeginFullSync?
    ensures var w' := After(c, w, s);
            && Retained(w'.log, w'.history) && Grows(c, w.history, w'.history, w.current)
            && forall k :: k in w'.history && k.community == c ==> 0 < k.version <= w.current
  {
    hide AsOf;
  }

  lemma SnapshotKeepsEdge(c: Uuid, w: World, w': World)
    requires EdgeInv(c, w) && w' == w.(snapshot := w'.snapshot)
    ensures EdgeInv(c, w')
  {}

  lemma QuietAsOf(c: Uuid, h: Log, a: nat, b: nat)
    requires a <= b && forall k :: k in h && k.community == c ==> k.version <= a
    ensures AsOf(h, c, b) == AsOf(h, c, a)
  {
    AsOfAdvances(h, c, a, b);
    assert SpanSet(h, c, a, b) == {};
    assert SpanRows(h, c, a, b) == [];
  }

  // A pull of a covered edge reads the history.
  lemma AnswerIsHistory(c: Uuid, w: World)
    requires Inv(c, w) && !Stale(w.log, c, w.version)
    requires Covered(w.log, w.history, c, w.version)
    ensures Batch(w, c) == Delta(w.history, c, w.version)
    ensures BatchRows(w.log, c, w.version) == BatchRows(w.history, c, w.version)
  {
    hide Replay, Live, WriteAll;
    CoveredMissesNothing(w.log, w.history, c, w.version);
    BatchRetained(w.log, c, w.version);
  }

  lemma EmptyLogAnswersNothing(c: Uuid, log: Log, since: nat)
    requires forall v: nat :: Key(c, v) !in log
    ensures Delta(log, c, since) == []
  {
    assert Versions(log, c, since) == {};
  }

  lemma CrashedPullKeepsInv(c: Uuid, w: World, n: nat)
    requires Inv(c, w) && Enabled(c, w, CrashedPull(n))
    ensures Inv(c, After(c, w, CrashedPull(n)))
  {
    var done := Prefix(BatchRows(w.log, c, w.version), n);
    hide Replay, Live, WriteAll, BatchRows;
    ReplayConcat(w.base, w.touched, done);
    if Covered(w.log, w.history, c, w.version) {
      AnswerIsHistory(c, w);
      assert forall e :: e in done ==> e in BatchRows(w.log, c, w.version);
    } else {
      EmptyLogAnswersNothing(c, w.log, w.version);
      EmptyBatchRows(c, w.log, w.version);
    }
  }

  lemma EmptyBatchRows(c: Uuid, log: Log, since: nat)
    requires Delta(log, c, since) == []
    ensures BatchRows(log, c, since) == []
  {}

  lemma PullKeepsInv(c: Uuid, w: World)
    requires Inv(c, w) && Enabled(c, w, Pull)
    ensures Inv(c, After(c, w, Pull))
    ensures Covered(w.log, w.history, c, w.version) ==> After(c, w, Pull).touched == []
  {
    hide Replay, Live, WriteAll, BatchRows;
    if Covered(w.log, w.history, c, w.version) {
      AnswerIsHistory(c, w);
      if |Batch(w, c)| > 0 {
        FullBatchKeepsEdge(c, w);
      } else {
        EmptyBatchRows(c, w.history, w.version);
        NothingTouched(w.touched, BatchRows(w.history, c, w.version));
      }
    } else {
      EmptyLogAnswersNothing(c, w.log, w.version);
    }
  }

  lemma NothingTouched(es: seq<Event>, bound: seq<Event>)
    requires forall e :: e in es ==> e in bound
    ensures |es| > 0 ==> |bound| > 0
  {
    if |es| > 0 {
      assert es[0] in bound;
    }
  }

  lemma FullBatchKeepsEdge(c: Uuid, w: World)
    requires Inv(c, w)
    requires |Batch(w, c)| > 0 && Batch(w, c) == Delta(w.history, c, w.version)
    requires BatchRows(w.log, c, w.version) == BatchRows(w.history, c, w.version)
    ensures EdgeInv(c, After(c, w, Pull))
  {
    hide Replay, Live, WriteAll, BatchRows, SpanRows, AsOf;
    var w' := After(c, w, Pull);
    var es := BatchRows(w.history, c, w.version);
    BatchIsSpan(w.history, c, w.version);
    AbsorbAll(w.base, w.touched, es);
    SpanJoins(w.history, c, w.originVersion, w.version, w'.version);
    ReplayConcat(w.origin, SpanRows(w.history, c, w.originVersion, w.version), es);
    ReplayNothing(w'.base);
    assert Key(c, w'.version) in w.history;
  }

  lemma ReplayNothing(rows: Store)
    ensures Replay(rows, []) == rows
  {}

  lemma CommitKeepsInv(c: Uuid, w: World)
    requires Inv(c, w) && w.snapshot.Some?
    ensures Inv(c, After(c, w, CommitFullSync))
  {
    hide AsOf, WriteAll, Rows;
    var w' := After(c, w, CommitFullSync);
    assert SpanSet(w.history, c, w'.version, w'.version) == {};
    assert SpanRows(w.history, c, w'.version, w'.version) == [];
  }

  lemma StepKeepsInv(c: Uuid, w: World, s: Step)
    requires Inv(c, w) && Enabled(c, w, s)
    ensures Inv(c, After(c, w, s))
  {
    hide Inv, After;
    match s
    case Write(v, e) => WriteKeepsInv(c, w, v, e);
    case CrashedPull(n) => CrashedPullKeepsInv(c, w, n);
    case Pull => PullKeepsInv(c, w);
    case CommitFullSync => CommitKeepsInv(c, w);
    case _ => QuietKeepsInv(c, w, s);
  }

  lemma {:induction false} RunKeepsInv(c: Uuid, ws: seq<World>, ss: seq<Step>, i: nat)
    requires IsRun(c, ws, ss) && i < |ws|
    ensures Inv(c, ws[i])
  {
    if i == 0 {
      assert SpanSet(map[], c, 0, 0) == {};
      assert SpanRows(map[], c, 0, 0) == [];
    } else {
      RunKeepsInv(c, ws, ss, i - 1);
      StepKeepsInv(c, ws[i - 1], ss[i - 1]);
    }
  }

  // ---------------------------------------------------------------------
  // What holds of every run
  // ---------------------------------------------------------------------

  // After a completed pull, whatever crashed before it, the edge holds the
  // replay of all events up to the version it records, on top of what it was
  // last swapped to; the rows it serves are the cloud's tables at that version.
  lemma PulledEdgeIsReplay(c: Uuid, ws: seq<World>, ss: seq<Step>, i: nat)
    requires IsRun(c, ws, ss) && i < |ss| && ss[i] == Pull
    requires Covered(ws[i].log, ws[i].history, c, ws[i].version)
    ensures Settled(c, ws[i + 1])
  {
    RunKeepsInv(c, ws, ss, i);
    PullKeepsInv(c, ws[i]);
    SettledEdge(c, ws[i + 1]);
  }

  ghost predicate Settled(c: Uuid, w: World)
  {
    && w.originVersion <= w.version
    && w.rows == Replay(w.origin, SpanRows(w.history, c, w.originVersion, w.version))
    && Live(w.rows) == AsOf(w.history, c, w.version)
  }

  lemma SettledEdge(c: Uuid, w: World)
    requires Inv(c, w) && w.touched == []
    ensures Settled(c, w)
  {
    hide Live, AsOf, SpanRows;
    BaseIsAsOf(c, w);
    ReplayNothing(w.base);
  }

  // What the edge served when it last recorded its version.
  lemma BaseIsAsOf(c: Uuid, w: World)
    requires Inv(c, w)
    ensures Live(w.base) == AsOf(w.history, c, w.version)
  {
    hide SpanRows, Live, WriteAll;
    LiveFollowsWrites(w.origin, SpanRows(w.history, c, w.originVersion, w.version));
    AsOfAdvances(w.history, c, w.originVersion, w.version);
  }

  // The events that the edge has not recorded yet.
  ghost function Missed(c: Uuid, w: World): seq<Event>
  {
    SpanRows(w.history, c, w.version, w.current)
  }

  // In any state of a run: what crashed pulls have touched since the version
  // was recorded decides, row by row, whether the edge serves the cloud's
  // tables at its version, or those of the present.
  lemma ServesExactly(c: Uuid, ws: seq<World>, ss: seq<Step>, i: nat)
    requires IsRun(c, ws, ss) && i < |ws|
    ensures var w := ws[i];
            && (Live(w.rows) == AsOf(w.history, c, w.version) <==> SameEffect(Live(w.base), w.touched, []))
            && (Live(w.rows) == w.tables <==> SameEffect(Live(w.base), w.touched, Missed(c, w)))
  {
    RunKeepsInv(c, ws, ss, i);
    WorldServesExactly(c, ws[i]);
  }

  lemma WorldServesExactly(c: Uuid, w: World)
    requires Inv(c, w)
    ensures Live(w.rows) == AsOf(w.history, c, w.version) <==> SameEffect(Live(w.base), w.touched, [])
    ensures Live(w.rows) == w.tables <==> SameEffect(Live(w.base), w.touched, Missed(c, w))
  {
    hide Live, WriteAll, Replay, SpanRows, AsOf, SameEffect;
    BaseIsAsOf(c, w);
    LiveFollowsWrites(w.base, w.touched);
    WriteNothing(Live(w.base));
    SameEffectExactly(Live(w.base), w.touched, []);
    AsOfAdvances(w.history, c, w.version, w.current);
    SameEffectExactly(Live(w.base), w.touched, Missed(c, w));
  }

  // So a pull leaves the edge serving the cloud's tables at its version exactly
  // when the edge was covered, or the last events of crashed pulls on each row
  // had left the row as it was.
  lemma PullSettlesExactly(c: Uuid, ws: seq<World>, ss: seq<Step>, i: nat)
    requires IsRun(c, ws, ss) && i < |ss| && ss[i] == Pull
    ensures Live(ws[i + 1].rows) == AsOf(ws[i + 1].history, c, ws[i + 1].version) <==>
            || Covered(ws[i].log, ws[i].history, c, ws[i].version)
            || SameEffect(Live(ws[i].base), ws[i].touched, [])
  {
    hide Live, AsOf, SameEffect;
    if Covered(ws[i].log, ws[i].history, c, ws[i].version) {
      PulledEdgeIsReplay(c, ws, ss, i);
    } else {
      EmptyLogAnswersNothing(c, ws[i].log, ws[i].version);
      assert ws[i + 1] == After(c, ws[i], ss[i]);
      ServesExactly(c, ws, ss, i);
    }
  }

  // When a pull of a covered edge leaves nothing pending, the edge serves
  // exactly the cloud's rows.
  lemma DrainedEdgeServesCloud(c: Uuid, ws: seq<World>, ss: seq<Step>, i: nat)
    requires IsRun(c, ws, ss) && i < |ss| && ss[i] == Pull
    requires Covered(ws[i].log, ws[i].history, c, ws[i].version)
    requires Batch(ws[i + 1], c) == []
    ensures Live(ws[i + 1].rows) == ws[i + 1].tables
  {
    var w := ws[i + 1];
    RunKeepsInv(c, ws, ss, i);
    RunKeepsInv(c, ws, ss, i + 1);
    PulledEdgeIsReplay(c, ws, ss, i);
    DrainedWorld(c, ws[i], w);
  }

  // In general it does so exactly when it was covered, or the events of crashed
  // pulls have left every row as the missed events would.
  lemma DrainedExactly(c: Uuid, ws: seq<World>, ss: seq<Step>, i: nat)
    requires IsRun(c, ws, ss) && i < |ss| && ss[i] == Pull
    requires Batch(ws[i + 1], c) == []
    ensures Live(ws[i + 1].rows) == ws[i + 1].tables <==>
            || Covered(ws[i].log, ws[i].history, c, ws[i].version)
            || SameEffect(Live(ws[i].base), ws[i].touched, Missed(c, ws[i]))
  {
    hide Live, AsOf, SameEffect, Missed;
    if Covered(ws[i].log, ws[i].history, c, ws[i].version) {
      DrainedEdgeServesCloud(c, ws, ss, i);
    } else {
      EmptyLogAnswersNothing(c, ws[i].log, ws[i].version);
      assert ws[i + 1] == After(c, ws[i], ss[i]);
      ServesExactly(c, ws, ss, i);
    }
  }

  lemma DrainedWorld(c: Uuid, w: World, w': World)
    requires Inv(c, w) && Inv(c, w') && Enabled(c, w, Pull) && w' == After(c, w, Pull)
    requires Covered(w.log, w.history, c, w.version)
    requires Batch(w', c) == []
    ensures w'.tables == AsOf(w'.history, c, w'.version)
  {
    hide Inv, AsOf, BatchRows, Pending, Delta;
    PullAnswersFromLog(c, w);
    CutSkipsNothing(w'.log, c, w'.version);
    QuietTail(c, w');
  }

  lemma PullAnswersFromLog(c: Uuid, w: World)
    requires Inv(c, w) && Enabled(c, w, Pull)
    requires Covered(w.log, w.history, c, w.version)
    ensures NothingMissed(w.log, w.history, c, After(c, w, Pull).version)
  {
    CoveredMissesNothing(w.log, w.history, c, w.version);
    CutSkipsNothing(w.log, c, w.version);
  }

  lemma QuietTail(c: Uuid, w: World)
    requires Inv(c, w)
    requires NothingMissed(w.log, w.history, c, w.version) && Pending(w.log, c, w.version) == []
    ensures w.tables == AsOf(w.history, c, w.version)
  {
    hide Rows, WriteAll;
    assert Elems(Pending(w.log, c, w.version)) == {};
    assert SpanSet(w.history, c, w.version, w.current) == {};
    assert SpanRows(w.history, c, w.version, w.current) == [];
    AsOfAdvances(w.history, c, w.version, w.current);
    WriteNothing(AsOf(w.history, c, w.version));
  }

  lemma WriteNothing(t: Tables)
    ensures WriteAll(t, []) == t
  {}

  // Under the repaired rule a pull always settles, and serves the present once
  // nothing is pending.
  lemma RepairedPullSettles(c: Uuid, ws: seq<World>, ss: seq<Step>, i: nat)
    requires IsRun(c, ws, ss) && i < |ss| && ss[i] == Pull
    requires !StaleOrSilent(ws[i].log, c, ws[i].version, ws[i].current)
    ensures Settled(c, ws[i + 1])
    ensures Batch(ws[i + 1], c) == [] ==> Live(ws[i + 1].rows) == ws[i + 1].tables
  {
    hide Settled, Live;
    RunKeepsInv(c, ws, ss, i);
    assert CloudInv(c, ws[i]);
    RepairedRuleIsSafe(ws[i].log, ws[i].history, c, ws[i].version, ws[i].current);
    PulledEdgeIsReplay(c, ws, ss, i);
    if Batch(ws[i + 1], c) == [] {
      DrainedEdgeServesCloud(c, ws, ss, i);
    }
  }

  // A committed full sync serves the cloud's tables at the snapshot's version,
  // whatever the edge held before and whatever was written meanwhile.
  lemma CommittedEdgeServesSnapshot(c: Uuid, ws: seq<World>, ss: seq<Step>, i: nat)
    requires IsRun(c, ws, ss) && i < |ss| && ss[i] == CommitFullSync
    ensures Live(ws[i + 1].rows) == AsOf(ws[i + 1].history, c, ws[i + 1].version)
  {
    RunKeepsInv(c, ws, ss, i + 1);
    SettledEdge(c, ws[i + 1]);
  }

  // The rule as it is written does not give that. First, an edge that is
  // behind when its community's log runs empty is told that nothing is pending.
  lemma EmptyLogLosesWrites(c: Uuid, m: Entity, d: Columns)
    ensures exists ws: seq<World>, ss: seq<Step> ::
              && IsRun(c, ws, ss) && |ss| > 0 && ss[|ss| - 1] == Pull
              && Batch(ws[|ss|], c) == [] && Live(ws[|ss|].rows) == AsOf(ws[|ss|].history, c, ws[|ss|].version)
              && m in ws[|ss|].tables && m !in Live(ws[|ss|].rows)
  {
    hide Delta, BatchRows, IsRun;
    var e := Event(m, Upsert(d));
    assert IsRun(c, [START], []) by { OnlyStart(c); }
    var w1 := After(c, START, Write(1, e));
    var ws, ss := Extend(c, [START], [], Write(1, e), w1);
    var w2 := After(c, w1, Prune(map[]));
    ws, ss := Extend(c, ws, ss, Prune(map[]), w2);
    EmptyLogAnswersNothing(c, w2.log, w2.version);
    ws, ss := Extend(c, ws, ss, Pull, w2);
    assert SpanSet(w2.history, c, 0, 0) == {};
    assert SpanRows(w2.history, c, 0, 0) == [];
    WriteNothing(map[]);
    assert Live(w2.rows) == map[];
  }

  lemma OnlyStart(c: Uuid)
    ensures IsRun(c, [START], [])
  {}

  // Second, a batch is applied but its version not yet recorded when the edge
  // stops; the cloud deletes the row, and the log runs empty before the next
  // pull. That pull is answered with an empty batch, and the edge serves a row
  // that the cloud has not. Both runs meet the stale-version rule; what they
  // break is the rule on lagging more than a week (see SyncTimes).
  lemma EmptyLogLeavesCrashedBatch(c: Uuid, m: Entity, n: Entity, d: Columns)
    requires m != n
    ensures exists ws: seq<World>, ss: seq<Step> ::
              && IsRun(c, ws, ss) && |ss| > 0 && ss[|ss| - 1] == Pull
              && n in Live(ws[|ss|].rows) && n !in ws[|ss|].tables
              && n !in AsOf(ws[|ss|].history, c, ws[|ss|].version)
  {
    hide Delta, BatchRows, AsOf, Replay, IsRun;
    var up, down := Event(n, Upsert(d)), Event(n, Tombstone);
    var w := SyncedThenOne(c, m, d, up);
    var ws, ss := SyncedThenWritten(c, m, d, up);
    var w5 := After(c, w, CrashedPull(1));
    assert Key(c, 1) in w.log;
    OneEventCrash(c, w, 2);
    ws, ss := Extend(c, ws, ss, CrashedPull(1), w5);
    var v := w5.current + 1;
    ws, ss := WriteThenForget(c, ws, ss, w5, v, down);
    SecondRowNotYet(c, w5.history[Key(c, v) := down], m, n, d);
  }

  // A write, then a week of silence, then a pull.
  lemma WriteThenForget(c: Uuid, ws: seq<World>, ss: seq<Step>, w: World, v: nat, e: Event)
    returns (ws': seq<World>, ss': seq<Step>)
    requires IsRun(c, ws, ss) && |ws| == |ss| + 1 && ws[|ss|] == w && v > w.current
    ensures IsRun(c, ws', ss') && |ss'| == |ss| + 3 && |ws'| == |ss'| + 1 && ss'[|ss'| - 1] == Pull
    ensures ws'[|ss'|] == w.(tables := WriteOne(w.tables, e), current := v,
                             history := w.history[Key(c, v) := e], log := map[])
  {
    hide Delta, BatchRows, IsRun;
    var w6 := After(c, w, Write(v, e));
    ws', ss' := Extend(c, ws, ss, Write(v, e), w6);
    var w7 := After(c, w6, Prune(map[]));
    ws', ss' := Extend(c, ws', ss', Prune(map[]), w7);
    EmptyLogAnswersNothing(c, w7.log, w7.version);
    ws', ss' := Extend(c, ws', ss', Pull, w7);
  }

  lemma Extend(c: Uuid, ws: seq<World>, ss: seq<Step>, s: Step, w: World)
    returns (ws': seq<World>, ss': seq<Step>)
    requires IsRun(c, ws, ss) && |ws| == |ss| + 1 && Enabled(c, ws[|ss|], s) && w == After(c, ws[|ss|], s)
    ensures ws' == ws + [w] && ss' == ss + [s] && IsRun(c, ws', ss') && ws'[|ss'|] == w
    ensures |ws'| == |ss'| + 1
  {
    hide Enabled, After;
    ws', ss' := ws + [w], ss + [s];
  }

  // A row is written and synced in full, as version 1; version 2 is pending.
  ghost function SyncedThenOne(c: Uuid, m: Entity, d: Columns, e: Event): World
  {
    var log: Log := map[Key(c, 1) := Event(m, Upsert(d)), Key(c, 2) := e];
    World(WriteOne(map[m := d], e), 2, log, log,
          Fresh(map[m := d]), 1, None, Fresh(map[m := d]), [], Fresh(map[m := d]), 1)
  }

  lemma SyncedThenWritten(c: Uuid, m: Entity, d: Columns, e: Event)
    returns (ws: seq<World>, ss: seq<Step>)
    ensures IsRun(c, ws, ss) && |ws| == |ss| + 1 && ws[|ss|] == SyncedThenOne(c, m, d, e)
  {
    ws, ss := [START], [];
    var w1 := After(c, START, Write(1, Event(m, Upsert(d))));
    ws, ss := Extend(c, ws, ss, Write(1, Event(m, Upsert(d))), w1);
    var w2 := After(c, w1, BeginFullSync);
    ws, ss := Extend(c, ws, ss, BeginFullSync, w2);
    var w3 := After(c, w2, CommitFullSync);
    ws, ss := Extend(c, ws, ss, CommitFullSync, w3);
    ws, ss := Extend(c, ws, ss, Write(2, e), SyncedThenOne(c, m, d, e));
  }

  lemma SecondRowNotYet(c: Uuid, h: Log, m: Entity, n: Entity, d: Columns)
    requires m != n && Key(c, 1) in h && h[Key(c, 1)] == Event(m, Upsert(d))
    requires forall k :: k in h && k.community == c && k.version > 0 ==> k.version == 1 || k.version > 1
    ensures n !in AsOf(h, c, 1)
  {
    assert SpanSet(h, c, 0, 1) == {1};
    var r := Span(h, c, 0, 1);
    assert |r| == 1 && r[0] in Elems(r);
    assert SpanRows(h, c, 0, 1) == [Event(m, Upsert(d))];
    assert WriteAll(map[], [Event(m, Upsert(d))]) == WriteOne(map[], Event(m, Upsert(d)));
  }

  lemma OneEventCrash(c: Uuid, w: World, v: nat)
    requires v > w.version && Key(c, v) in w.log
    requires forall k :: k in w.log && k.community == c && k.version > w.version ==> k.version == v
    ensures After(c, w, CrashedPull(1)) ==
            w.(rows := ApplyOne(w.rows, w.log[Key(c, v)]), touched := w.touched + [w.log[Key(c, v)]])
  {
    OneEventBatch(c, w.log, w.version, v);
    var e := w.log[Key(c, v)];
    assert Prefix([e], 1) == [e];
    assert Replay(w.rows, [e]) == ApplyOne(w.rows, e);
  }

  lemma OneEventBatch(c: Uuid, log: Log, since: nat, v: nat)
    requires v > since && Key(c, v) in log
    requires forall k :: k in log && k.community == c && k.version > since ==> k.version == v
    ensures BatchRows(log, c, since) == [log[Key(c, v)]]
  {
    assert Versions(log, c, since) == {v};
    var r := Pending(log, c, since);
    assert |r| == 1 && r[0] in Elems(r);
  }
}
