// The per-community root: one hash over the sorted, concatenated
// "name:root" entries of the synced tables.
module CommunityRoot {
  import opened Bytes
  import opened Merkle

  const COLON: byte := 58

  function Label(name: Bytes): Bytes
  {
    name + [COLON]
  }

  // The label of "users" is "users:".
  lemma LabelIsNameAndColon(name: string)
    requires forall i :: 0 <= i < |name| ==> name[i] as int < 128
    ensures Label(Ascii(name)) == Ascii(name + ":")
  {}

  function Labels(names: seq<Bytes>): (r: seq<Bytes>)
    ensures |r| == |names|
    ensures forall i :: 0 <= i < |names| ==> r[i] == Label(names[i])
  {
    seq(|names|, i requires 0 <= i < |names| => Label(names[i]))
  }

  function Entries(labels: seq<Bytes>, root: Bytes -> Bytes): (r: seq<Bytes>)
    ensures |r| == |labels|
  {
    if |labels| == 0 then [] else [labels[0] + root(labels[0])] + Entries(labels[1..], root)
  }

  function Concat(s: seq<Bytes>): Bytes
  {
    if |s| == 0 then [] else s[0] + Concat(s[1..])
  }

  // `sorted_concat` of the entries of all tables.
  ghost function SortedConcat(names: seq<Bytes>, root: Bytes -> Bytes): Bytes
  {
    Concat(Arranged(Entries(Labels(names), root)))
  }

  // A community's tables, by label.
  type TableRows<Row> = Bytes -> seq<Row>

  ghost function TableRoots<Row>(sha: Sha, canon: Row -> Bytes, tables: TableRows<Row>): Bytes -> Bytes
  {
    l => Root(sha, canon, tables(l))
  }

  ghost function CombinedRoot<Row>(sha: Sha, canon: Row -> Bytes, names: seq<Bytes>, tables: TableRows<Row>): Bytes
  {
    Hex(sha(SortedConcat(names, TableRoots(sha, canon, tables))))
  }

  // ---------------------------------------------------------------------
  // The order of the entries does not depend on the roots
  // ---------------------------------------------------------------------

  ghost predicate PrefixFree(labels: seq<Bytes>)
  {
    forall i, j :: 0 <= i < |labels| && 0 <= j < |labels| && i != j ==> !(labels[i] <= labels[j])
  }

  lemma {:induction false} LabelDecidesOrder(k: Bytes, l: Bytes, x: Bytes, y: Bytes)
    requires !(k <= l) && !(l <= k)
    ensures Leq(k + x, l + y) == Leq(k, l)
    decreases |k|
  {
    assert |k| > 0 && |l| > 0;
    if k[0] == l[0] {
      assert k == [k[0]] + k[1..] && l == [l[0]] + l[1..];
      assert (k + x)[1..] == k[1..] + x && (l + y)[1..] == l[1..] + y;
      LabelDecidesOrder(k[1..], l[1..], x, y);
    }
  }

  lemma {:induction false} InsertEntry(k: Bytes, labels: seq<Bytes>, root: Bytes -> Bytes)
    requires forall i :: 0 <= i < |labels| ==> !(k <= labels[i]) && !(labels[i] <= k)
    ensures Insert(k + root(k), Entries(labels, root)) == Entries(Insert(k, labels), root)
  {
    if |labels| > 0 {
      LabelDecidesOrder(k, labels[0], root(k), root(labels[0]));
      assert Entries(labels, root)[1..] == Entries(labels[1..], root);
      InsertEntry(k, labels[1..], root);
    }
  }

  lemma {:induction false} SortEntries(labels: seq<Bytes>, root: Bytes -> Bytes)
    requires PrefixFree(labels)
    ensures Sort(Entries(labels, root)) == Entries(Sort(labels), root)
  {
    if |labels| > 0 {
      var k, rest := labels[0], labels[1..];
      assert forall i :: 0 <= i < |rest| ==> rest[i] == labels[i + 1];
      assert PrefixFree(rest);
      var entries, sorted := Entries(rest, root), Sort(rest);
      hide Insert, Leq, Sorted, Sort, Entries;
      SortEntries(rest, root);
      InsertEntry(k, sorted, root) by {
        assert forall i :: 0 <= i < |sorted| ==> sorted[i] in rest;
      }
      EntriesStep(labels, root);
      SortStep(labels);
      SortStep(Entries(labels, root));
    }
  }

  lemma EntriesStep(labels: seq<Bytes>, root: Bytes -> Bytes)
    requires |labels| > 0
    ensures var e := Entries(labels, root);
            e[0] == labels[0] + root(labels[0]) && e[1..] == Entries(labels[1..], root)
  {}

  lemma SortStep(s: seq<Bytes>)
    requires |s| > 0
    ensures Sort(s) == Insert(s[0], Sort(s[1..]))
  {
    hide Insert, Leq, Sorted;
  }

  lemma {:induction false} ConcatInjective(labels: seq<Bytes>, r: Bytes -> Bytes, s: Bytes -> Bytes)
    requires forall k :: k in labels ==> |r(k)| == |s(k)|
    ensures Concat(Entries(labels, r)) == Concat(Entries(labels, s)) <==> forall k :: k in labels ==> r(k) == s(k)
  {
    if |labels| > 0 {
      var k, rest := labels[0], labels[1..];
      var a, b := Concat(Entries(rest, r)), Concat(Entries(rest, s));
      ConcatInjective(rest, r, s);
      assert Entries(labels, r)[1..] == Entries(rest, r) && Entries(labels, s)[1..] == Entries(rest, s);
      assert Concat(Entries(labels, r)) == (k + r(k)) + a;
      assert Concat(Entries(labels, s)) == (k + s(k)) + b;
      var n := |k| + |r(k)|;
      assert ((k + r(k)) + a)[..n] == k + r(k) && ((k + r(k)) + a)[n..] == a;
      assert ((k + s(k)) + b)[..n] == k + s(k) && ((k + s(k)) + b)[n..] == b;
      assert (k + r(k))[|k|..] == r(k) && (k + s(k))[|k|..] == s(k);
      assert forall l :: l in labels <==> l == k || l in rest;
    }
  }

  // ---------------------------------------------------------------------
  // What an acknowledged community root means
  // ---------------------------------------------------------------------

  // Table names are distinct and contain no colon.
  ghost predicate TableNames(names: seq<Bytes>)
  {
    && (forall i, j :: 0 <= i < j < |names| ==> names[i] != names[j])
    && (forall i :: 0 <= i < |names| ==> COLON !in names[i])
  }

  lemma LabelIsNoPrefix(a: Bytes, b: Bytes)
    requires COLON !in b
    ensures Label(a) <= Label(b) ==> a == b
  {
    assert Label(a)[|a|] == COLON;
    if |a| < |b| {
      assert Label(b)[|a|] == b[|a|];
    } else {
      assert Label(b)[..|b|] == b && Label(a)[..|a|] == a;
    }
  }

  lemma LabelsPrefixFree(names: seq<Bytes>)
    requires TableNames(names)
    ensures PrefixFree(Labels(names))
  {
    hide Label;
    forall i, j | 0 <= i < |names| && 0 <= j < |names| && i != j
      ensures !(Labels(names)[i] <= Labels(names)[j])
    {
      LabelIsNoPrefix(names[i], names[j]);
    }
  }

  lemma SortedConcatDecides(names: seq<Bytes>, r: Bytes -> Bytes, s: Bytes -> Bytes)
    requires TableNames(names)
    requires forall i :: 0 <= i < |names| ==> |r(Label(names[i]))| == |s(Label(names[i]))|
    ensures SortedConcat(names, r) == SortedConcat(names, s) <==>
            forall i :: 0 <= i < |names| ==> r(Label(names[i])) == s(Label(names[i]))
  {
    hide Sort, Entries, Concat;
    var labels := Labels(names);
    LabelsPrefixFree(names);
    SortEntries(labels, r);
    SortEntries(labels, s);
    SortArranges(Entries(labels, r));
    SortArranges(Entries(labels, s));
    assert forall k :: k in Sort(labels) <==> k in labels;
    ConcatInjective(Sort(labels), r, s);
  }

  // The string that is hashed: the least label and its root first, then the
  // same of the other tables, and nothing for none.
  lemma LeastEntryFirst(names: seq<Bytes>, i: nat, root: Bytes -> Bytes)
    requires TableNames(names) && i < |names|
    requires forall j :: 0 <= j < |names| ==> Leq(Label(names[i]), Label(names[j]))
    ensures SortedConcat(names, root) ==
            Label(names[i]) + root(Label(names[i])) + SortedConcat(names[..i] + names[i + 1..], root)
    ensures SortedConcat([], root) == []
  {
    hide Label, Sort, Entries, Leq;
    var rest := names[..i] + names[i + 1..];
    var all := Labels(names);
    assert Labels(rest) == all[..i] + all[i + 1..];
    assert forall j :: 0 <= j < |rest| ==> rest[j] == names[if j < i then j else j + 1];
    LeastFirst(all, i);
    EntriesAsSorted(names, root);
    EntriesAsSorted(rest, root);
    EntriesOfFirst(Label(names[i]), Sort(Labels(rest)), root);
    NoEntries(root);
  }

  lemma EntriesAsSorted(names: seq<Bytes>, root: Bytes -> Bytes)
    requires TableNames(names)
    ensures SortedConcat(names, root) == Concat(Entries(Sort(Labels(names)), root))
  {
    LabelsPrefixFree(names);
    SortEntries(Labels(names), root);
    SortArranges(Entries(Labels(names), root));
  }

  lemma EntriesOfFirst(l: Bytes, ls: seq<Bytes>, root: Bytes -> Bytes)
    ensures Concat(Entries([l] + ls, root)) == l + root(l) + Concat(Entries(ls, root))
  {
    assert ([l] + ls)[1..] == ls;
  }

  lemma NoEntries(root: Bytes -> Bytes)
    ensures SortedConcat([], root) == []
  {
    assert |Arranged(Entries(Labels([]), root))| == 0;
  }

  // Two nodes agree on the community root exactly when they hold the same
  // rows in every synced table.
  lemma CommunityRootDecides<Row>(
      sha: Sha, canon: Row -> Bytes, names: seq<Bytes>, cloud: TableRows<Row>, edge: TableRows<Row>)
    requires TableNames(names)
    requires forall i :: 0 <= i < |names| ==>
               var l := Label(names[i]);
               && Trustworthy(sha, canon, cloud(l), edge(l))
               && NoDuplicates(canon, cloud(l)) && NoDuplicates(canon, edge(l))
    requires CollisionFree(sha, iset{SortedConcat(names, TableRoots(sha, canon, cloud)),
                                     SortedConcat(names, TableRoots(sha, canon, edge))})
    ensures CombinedRoot(sha, canon, names, cloud) == CombinedRoot(sha, canon, names, edge) <==>
            forall i :: 0 <= i < |names| ==>
              Serialized(canon, cloud(Label(names[i]))) == Serialized(canon, edge(Label(names[i])))
  {
    hide SortedConcat, Serialized, Trustworthy, Root;
    var r, s := TableRoots(sha, canon, cloud), TableRoots(sha, canon, edge);
    if CombinedRoot(sha, canon, names, cloud) == CombinedRoot(sha, canon, names, edge) {
      HexInjective(sha(SortedConcat(names, r)), sha(SortedConcat(names, s)));
    }
    SortedConcatDecides(names, r, s);
    forall i | 0 <= i < |names|
      ensures r(Label(names[i])) == s(Label(names[i])) <==>
              Serialized(canon, cloud(Label(names[i]))) == Serialized(canon, edge(Label(names[i])))
    {
      RootDecidesTable(sha, canon, cloud(Label(names[i])), edge(Label(names[i])));
    }
  }
}
