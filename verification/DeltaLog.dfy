// The cloud's `sync_events` table and the delta query over it.
module DeltaLog {
  import opened Ids

  // entity_type and entity_id
  datatype Entity = Entity(table: string, id: Uuid)

  datatype Op = Upsert(data: Columns) | Tombstone

  datatype Event = Event(entity: Entity, op: Op)

  datatype Key = Key(community: Uuid, version: nat)

  // UNIQUE (community_id, version) makes the pair a key of the table.
  type Log = map<Key, Event>

  const BATCH: nat := 500

  // ---------------------------------------------------------------------
  // ORDER BY version
  // ---------------------------------------------------------------------

  ghost predicate Increasing(s: seq<nat>)
  {
    forall i, j :: 0 <= i < j < |s| ==> s[i] < s[j]
  }

  predicate IsMax(s: set<nat>, m: nat)
  {
    m in s && forall x :: x in s ==> x <= m
  }

  lemma {:induction false} HasMax(s: set<nat>)
    requires s != {}
    ensures exists m :: IsMax(s, m)
  {
    var y :| y in s;
    var rest := s - {y};
    assert forall x :: x in s ==> x == y || x in rest;
    if rest == {} {
      assert IsMax(s, y);
    } else {
      HasMax(rest);
      var m :| IsMax(rest, m);
      assert IsMax(s, if m < y then y else m);
    }
  }

  function Max(s: set<nat>): (m: nat)
    requires s != {}
    ensures m in s && forall x :: x in s ==> x <= m
  {
    HasMax(s);
    var m :| m in s && IsMax(s, m);
    m
  }

  // The members of a set in increasing order.
  function SortVersions(s: set<nat>): (r: seq<nat>)
    ensures Increasing(r)
    ensures Elems(r) == s
    ensures |r| == |s|
    decreases |s|
  {
    if s == {} then []
    else
      var r := SortVersions(s - {Max(s)});
      AppendGreater(r, Max(s));
      r + [Max(s)]
  }

  lemma AppendGreater(r: seq<nat>, m: nat)
    requires Increasing(r) && forall x :: x in Elems(r) ==> x < m
    ensures Increasing(r + [m])
    ensures Elems(r + [m]) == Elems(r) + {m}
  {
    assert forall i :: 0 <= i < |r| ==> r[i] in Elems(r);
  }

  ghost function Elems(s: seq<nat>): set<nat>
  {
    set x | x in s
  }

  lemma ElemsLast(a: seq<nat>)
    requires Increasing(a) && |a| > 0
    ensures Increasing(a[..|a| - 1])
    ensures Elems(a[..|a| - 1]) == Elems(a) - {a[|a| - 1]}
    ensures a[|a| - 1] in Elems(a) && forall x :: x in Elems(a) ==> x <= a[|a| - 1]
    ensures a == a[..|a| - 1] + [a[|a| - 1]]
  {}

  // A set of numbers has one increasing arrangement.
  lemma {:induction false} IncreasingUnique(a: seq<nat>, b: seq<nat>)
    requires Increasing(a) && Increasing(b)
    requires Elems(a) == Elems(b)
    ensures a == b
    decreases |a|
  {
    assert |a| > 0 ==> a[0] in Elems(a);
    assert |b| > 0 ==> b[0] in Elems(b);
    if |a| > 0 && |b| > 0 {
      ElemsLast(a);
      ElemsLast(b);
      hide Elems, Increasing;
      IncreasingUnique(a[..|a| - 1], b[..|b| - 1]);
    }
  }

  // That arrangement.
  ghost function Ascending(s: set<nat>): (r: seq<nat>)
    ensures Increasing(r)
    ensures Elems(r) == s
    ensures |r| == |s|
  {
    assert Increasing(SortVersions(s)) && Elems(SortVersions(s)) == s;
    var r :| Increasing(r) && Elems(r) == s;
    IncreasingUnique(r, SortVersions(s));
    r
  }

  // Numbers above all of a set come after it.
  lemma AscendingGrows(s: set<nat>, t: set<nat>)
    requires forall x, y :: x in s && y in t ==> x < y
    ensures Ascending(s + t) == Ascending(s) + Ascending(t)
  {
    var a, b := Ascending(s), Ascending(t);
    forall i, j | 0 <= i < j < |a + b| ensures (a + b)[i] < (a + b)[j] {
      if i < |a| <= j {
        assert a[i] in Elems(a) && b[j - |a|] in Elems(b);
      }
    }
    assert Elems(a + b) == Elems(a) + Elems(b);
    IncreasingUnique(Ascending(s + t), a + b);
  }

  lemma ElemsUpTo(r: seq<nat>, k: nat)
    requires Increasing(r) && k < |r|
    ensures Elems(r[..k + 1]) == set x | x in Elems(r) && x <= r[k]
  {
    forall x | x in Elems(r) && x <= r[k] ensures x in Elems(r[..k + 1]) {
      var i :| 0 <= i < |r| && r[i] == x;
      assert r[..k + 1][i] == x;
    }
  }

  // What lies above the k-th member is the rest of the row.
  lemma AscendingAbove(s: set<nat>, k: nat)
    requires k < |Ascending(s)|
    ensures Ascending(set x | x in s && x > Ascending(s)[k]) == Ascending(s)[k + 1..]
  {
    hide Elems;
    var r := Ascending(s);
    var low, high := set x | x in s && x <= r[k], set x | x in s && x > r[k];
    assert s == low + high;
    AscendingGrows(low, high);
    ElemsUpTo(r, k);
    IncreasingUnique(Ascending(low), r[..k + 1]);
  }

  // ---------------------------------------------------------------------
  // The delta query
  // ---------------------------------------------------------------------

  function Versions(log: Log, c: Uuid, since: nat): (r: set<nat>)
    ensures forall v: nat :: v in r <==> Key(c, v) in log && v > since
  {
    var r := set k | k in log && k.community == c && k.version > since :: k.version;
    assert forall v: nat :: Key(c, v) in log && v > since ==> Key(c, v).version in r;
    r
  }

  // WHERE community_id = c AND version > since ORDER BY version
  ghost function Pending(log: Log, c: Uuid, since: nat): (r: seq<nat>)
    ensures Increasing(r)
    ensures Elems(r) == Versions(log, c, since)
  {
    Ascending(Versions(log, c, since))
  }

  function Prefix<T>(s: seq<T>, n: nat): seq<T>
  {
    if |s| <= n then s else s[..n]
  }

  // ... LIMIT 500
  ghost function Delta(log: Log, c: Uuid, since: nat): seq<nat>
  {
    Prefix(Pending(log, c, since), BATCH)
  }

  // The query itself.
  method QueryDelta(log: Log, c: Uuid, since: nat) returns (batch: seq<nat>)
    ensures batch == Delta(log, c, since)
  {
    var all := SortVersions(Versions(log, c, since));
    IncreasingUnique(all, Pending(log, c, since));
    batch := Prefix(all, BATCH);
  }

  // The rows behind a list of versions.
  function Rows(log: Log, c: Uuid, versions: seq<nat>): (r: seq<Event>)
    requires forall v: nat :: v in versions ==> Key(c, v) in log
    ensures |r| == |versions|
  {
    seq(|versions|, i requires 0 <= i < |versions| => log[Key(c, versions[i])])
  }

  // `to_v` of a batch: where the next pull resumes.
  function Resume(batch: seq<nat>, since: nat): nat
  {
    if |batch| == 0 then since else batch[|batch| - 1]
  }

  // Resuming from the last version of a batch neither skips nor repeats: what
  // is pending then is what was pending before, less the batch.
  lemma CutSkipsNothing(log: Log, c: Uuid, since: nat)
    ensures var all := Pending(log, c, since); var batch := Delta(log, c, since);
            && all == batch + Pending(log, c, Resume(batch, since))
            && |batch| == (if |all| <= 500 then |all| else 500)
            && Resume(batch, since) >= since
  {
    var all, batch := Pending(log, c, since), Delta(log, c, since);
    if |batch| > 0 {
      var k := |batch| - 1;
      assert all[k] in Elems(all);
      AscendingAbove(Versions(log, c, since), k);
      assert Versions(log, c, all[k]) == set x | x in Versions(log, c, since) && x > all[k];
    }
  }

  // ---------------------------------------------------------------------
  // Retention
  // ---------------------------------------------------------------------

  // "since is older than the oldest sync_events row"
  ghost predicate Stale(log: Log, c: Uuid, since: nat)
  {
    && (exists v: nat :: Key(c, v) in log)
    && (forall v: nat :: Key(c, v) in log ==> since < v)
  }

  // log is what daily pruning has left of history: of each community, the
  // oldest events are gone.
  ghost predicate Retained(log: Log, history: Log)
  {
    && (forall k :: k in log ==> k in history && log[k] == history[k])
    && (forall k, l :: k in log && l in history && l.community == k.community && l.version >= k.version ==> l in log)
  }

  ghost predicate NothingMissed(log: Log, history: Log, c: Uuid, since: nat)
  {
    forall v: nat :: v > since && Key(c, v) in history ==> Key(c, v) in log
  }

  // An answer that is not stale hides no pruned event, provided the community
  // has any event left.
  lemma StaleRuleIsSafe(log: Log, history: Log, c: Uuid, since: nat)
    requires Retained(log, history)
    requires exists v: nat :: Key(c, v) in log
    requires !Stale(log, c, since)
    ensures NothingMissed(log, history, c, since)
    ensures Pending(log, c, since) == Pending(history, c, since)
  {
    var v: nat :| Key(c, v) in log && v <= since;
    forall w: nat | w > since && Key(c, w) in history ensures Key(c, w) in log {
      assert Key(c, v) in log && Key(c, w) in history;
    }
    assert Versions(log, c, since) == Versions(history, c, since);
  }

  // What the rule lets through: an answer hides a pruned event exactly when
  // pruning left the community no event at all while one lies beyond since.
  lemma StaleRuleMisses(log: Log, history: Log, c: Uuid, since: nat)
    requires Retained(log, history)
    ensures !Stale(log, c, since) && !NothingMissed(log, history, c, since) <==>
            && (forall v: nat :: Key(c, v) !in log)
            && (exists v: nat :: v > since && Key(c, v) in history)
  {
    if !Stale(log, c, since) && exists v: nat :: Key(c, v) in log {
      StaleRuleIsSafe(log, history, c, since);
    }
  }

  // The log still has an event of the community, or nothing beyond since is gone.
  ghost predicate Covered(log: Log, history: Log, c: Uuid, since: nat)
  {
    (exists v: nat :: Key(c, v) in log) || NothingMissed(log, history, c, since)
  }

  lemma CoveredMissesNothing(log: Log, history: Log, c: Uuid, since: nat)
    requires Retained(log, history) && !Stale(log, c, since)
    ensures Covered(log, history, c, since) <==> NothingMissed(log, history, c, since)
    ensures Covered(log, history, c, since) ==> Pending(log, c, since) == Pending(history, c, since)
  {
    if exists v: nat :: Key(c, v) in log {
      StaleRuleIsSafe(log, history, c, since);
    } else if NothingMissed(log, history, c, since) {
      assert Versions(log, c, since) == Versions(history, c, since);
    }
  }

  // A rule without that gap: an empty log answers only an edge that has the
  // community's current version.
  ghost predicate StaleOrSilent(log: Log, c: Uuid, since: nat, current: nat)
  {
    if exists v: nat :: Key(c, v) in log then Stale(log, c, since) else since != current
  }

  lemma RepairedRuleIsSafe(log: Log, history: Log, c: Uuid, since: nat, current: nat)
    requires Retained(log, history)
    requires forall v: nat :: Key(c, v) in history ==> v <= current
    requires !StaleOrSilent(log, c, since, current)
    ensures !Stale(log, c, since) && NothingMissed(log, history, c, since)
  {
    if exists v: nat :: Key(c, v) in log {
      StaleRuleIsSafe(log, history, c, since);
    }
  }

  // The written rule also turns away an edge that has missed nothing: one that is up to date
  // when the only retained event is the next one.
  lemma StaleRuleRefusesUpToDate(c: Uuid, v: nat, e: Event)
    ensures var log: Log := map[Key(c, v + 1) := e];
            Stale(log, c, v) && NothingMissed(log, log, c, v)
  {
    var log: Log := map[Key(c, v + 1) := e];
    assert Key(c, v + 1) in log;
  }
}
