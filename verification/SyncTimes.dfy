// Runs of the sync protocol with times: events are retained for seven days,
// and an edge that lags more than seven days does a full sync instead of a pull.
module SyncTimes {
  import opened Ids
  import opened DeltaLog
  import opened EdgeNode
  import opened SyncRuns

  // in seconds
  const WEEK: nat := 7 * 24 * 60 * 60

  ghost predicate Writes(s: Step, v: nat)
  {
    s.Write? && s.version == v
  }

  // Step i happens at time at[i]. Pruning takes only events that were written
  // more than a week before.
  ghost predicate IsTimedRun(c: Uuid, ws: seq<World>, ss: seq<Step>, at: seq<nat>)
  {
    && IsRun(c, ws, ss) && |at| == |ss|
    && (forall i, j :: 0 <= i <= j < |at| ==> at[i] <= at[j])
    && (forall i: nat :: i < |ss| ==> PrunesOldOnly(c, ws, ss, at, i))
  }

  ghost predicate PrunesOldOnly(c: Uuid, ws: seq<World>, ss: seq<Step>, at: seq<nat>, i: nat)
    requires IsRun(c, ws, ss) && |at| == |ss| && i < |ss|
  {
    ss[i].Prune? ==>
      forall v: nat :: Key(c, v) in ws[i].log && Key(c, v) !in ss[i].kept ==> IsOld(ss, at, v, i)
  }

  // Version v was written more than a week before step i.
  ghost predicate IsOld(ss: seq<Step>, at: seq<nat>, v: nat, i: nat)
    requires |at| == |ss| && i < |ss|
  {
    exists j: nat :: j < i && Writes(ss[j], v) && at[j] + WEEK < at[i]
  }

  // At step i the edge lags by at most a week: what it has not recorded was
  // written no longer ago.
  ghost predicate OnTime(c: Uuid, ws: seq<World>, ss: seq<Step>, at: seq<nat>, i: nat)
    requires IsRun(c, ws, ss) && |at| == |ss| && i < |ss|
  {
    forall j: nat :: j < i && ss[j].Write? && ss[j].version > ws[i].version ==> at[i] <= at[j] + WEEK
  }

  // Only old events are ever missing from the log.
  lemma {:induction false} MissingAreOld(c: Uuid, ws: seq<World>, ss: seq<Step>, at: seq<nat>, i: nat, v: nat)
    requires IsTimedRun(c, ws, ss, at) && i < |ws|
    requires Key(c, v) in ws[i].history && Key(c, v) !in ws[i].log
    ensures exists k: nat :: k < i && IsOld(ss, at, v, k)
  {
    hide After, Enabled, IsOld;
    if i > 0 {
      assert ws[i] == After(c, ws[i - 1], ss[i - 1]);
      assert PrunesOldOnly(c, ws, ss, at, i - 1);
      LogStep(c, ws[i - 1], ss[i - 1], v);
      if Key(c, v) in ws[i - 1].history && Key(c, v) !in ws[i - 1].log {
        MissingAreOld(c, ws, ss, at, i - 1, v);
      } else {
        assert IsOld(ss, at, v, i - 1);
      }
    }
  }

  // Writes enter history and log; only pruning takes from the log.
  lemma LogStep(c: Uuid, w: World, s: Step, v: nat)
    ensures var w' := After(c, w, s);
            && (Key(c, v) in w.history ==> Key(c, v) in w'.history)
            && (Writes(s, v) ==> Key(c, v) in w'.history)
            && (Key(c, v) in w'.history && Key(c, v) !in w'.log ==>
                  Key(c, v) in w.history && (Key(c, v) in w.log ==> s.Prune? && Key(c, v) !in s.kept))
  {
    hide Delta, BatchRows;
  }

  lemma MissingIsOldNow(c: Uuid, ws: seq<World>, ss: seq<Step>, at: seq<nat>, i: nat, v: nat)
    requires IsTimedRun(c, ws, ss, at) && i < |ss|
    requires Key(c, v) in ws[i].history && Key(c, v) !in ws[i].log
    ensures IsOld(ss, at, v, i)
  {
    MissingAreOld(c, ws, ss, at, i, v);
    var k: nat :| k < i && IsOld(ss, at, v, k);
    var j: nat :| j < k && Writes(ss[j], v) && at[j] + WEEK < at[k];
    assert Writes(ss[j], v) && at[k] <= at[i];
  }

  lemma OnTimeMissesNothing(c: Uuid, ws: seq<World>, ss: seq<Step>, at: seq<nat>, i: nat)
    requires IsTimedRun(c, ws, ss, at) && i < |ss| && OnTime(c, ws, ss, at, i)
    ensures NothingMissed(ws[i].log, ws[i].history, c, ws[i].version)
  {
    forall v: nat | v > ws[i].version && Key(c, v) in ws[i].history
      ensures Key(c, v) in ws[i].log
    {
      if Key(c, v) !in ws[i].log {
        MissingIsOldNow(c, ws, ss, at, i, v);
      }
    }
  }

  // So with both rules every pull settles, whatever crashed before it, and
  // serves the present once nothing is pending.
  lemma TimelyPullSettles(c: Uuid, ws: seq<World>, ss: seq<Step>, at: seq<nat>, i: nat)
    requires IsTimedRun(c, ws, ss, at) && i < |ss| && ss[i] == Pull && OnTime(c, ws, ss, at, i)
    ensures Settled(c, ws[i + 1])
    ensures Batch(ws[i + 1], c) == [] ==> Live(ws[i + 1].rows) == ws[i + 1].tables
  {
    hide Settled, Live;
    OnTimeMissesNothing(c, ws, ss, at, i);
    PulledEdgeIsReplay(c, ws, ss, i);
    if Batch(ws[i + 1], c) == [] {
      DrainedEdgeServesCloud(c, ws, ss, i);
    }
  }

  // ---------------------------------------------------------------------
  // Being offline for at most a week
  // ---------------------------------------------------------------------

  lemma {:induction false} WrittenIsHistory(c: Uuid, ws: seq<World>, ss: seq<Step>, j: nat, i: nat, v: nat)
    requires IsRun(c, ws, ss) && j < i < |ws| && Writes(ss[j], v)
    ensures Key(c, v) in ws[i].history
  {
    hide After, Enabled;
    assert ws[i] == After(c, ws[i - 1], ss[i - 1]);
    LogStep(c, ws[i - 1], ss[i - 1], v);
    if j < i - 1 {
      WrittenIsHistory(c, ws, ss, j, i - 1, v);
    }
  }

  lemma {:induction false} VersionOnlyGrows(c: Uuid, ws: seq<World>, ss: seq<Step>, i: nat, j: nat)
    requires IsRun(c, ws, ss) && i <= j < |ws|
    requires forall k :: i <= k < j ==> ss[k] != CommitFullSync
    ensures ws[i].version <= ws[j].version
  {
    hide After, Enabled;
    if i < j {
      VersionOnlyGrows(c, ws, ss, i, j - 1);
      assert ws[j] == After(c, ws[j - 1], ss[j - 1]);
      VersionStep(c, ws[j - 1], ss[j - 1]);
    }
  }

  lemma VersionStep(c: Uuid, w: World, s: Step)
    requires s != CommitFullSync
    ensures w.version <= After(c, w, s).version
  {
    CutSkipsNothing(w.log, c, w.version);
    hide Delta, BatchRows;
  }

  // An edge is on time as long as its last pull that left nothing pending, made
  // on time itself, is at most a week ago. A pull that stops at the limit of
  // 500 does not do: what it leaves may be older than the pull.
  lemma OfflineAWeekIsOnTime(c: Uuid, ws: seq<World>, ss: seq<Step>, at: seq<nat>, p: nat, i: nat)
    requires IsTimedRun(c, ws, ss, at) && p < i < |ss|
    requires ss[p] == Pull && OnTime(c, ws, ss, at, p) && Batch(ws[p + 1], c) == []
    requires forall k :: p < k < i ==> ss[k] != CommitFullSync
    requires at[i] <= at[p] + WEEK
    ensures OnTime(c, ws, ss, at, i)
  {
    OnTimeMissesNothing(c, ws, ss, at, p);
    RunKeepsInv(c, ws, ss, p);
    VersionOnlyGrows(c, ws, ss, p + 1, i);
    assert Enabled(c, ws[p], Pull) && ws[p + 1] == After(c, ws[p], Pull);
    hide After, Enabled, Inv;
    forall j: nat | j < i && ss[j].Write? && ss[j].version > ws[i].version
      ensures at[i] <= at[j] + WEEK
    {
      if j < p {
        WrittenIsHistory(c, ws, ss, j, p, ss[j].version);
        DrainedHasSeen(c, ws[p], ss[j].version);
      }
    }
  }

  lemma DrainedHasSeen(c: Uuid, w: World, v: nat)
    requires Inv(c, w) && Enabled(c, w, Pull) && Key(c, v) in w.history
    requires NothingMissed(w.log, w.history, c, w.version)
    requires Batch(After(c, w, Pull), c) == []
    ensures v <= After(c, w, Pull).version
  {
    var w' := After(c, w, Pull);
    CutSkipsNothing(w.log, c, w.version);
    CutSkipsNothing(w'.log, c, w'.version);
    assert Elems(Pending(w'.log, c, w'.version)) == {};
    assert v > w'.version ==> v in Versions(w'.log, c, w'.version);
  }
}
