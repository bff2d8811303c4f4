// The Merkle root that cloud and edge compute over a synced table.
//
// SHA-256 is a parameter: any function from byte strings to 32-byte digests.
// Collision-freeness is never assumed of the whole function (no such function
// exists); where it is needed it is asked of the finitely many inputs that the
// two computations actually hash.
module Merkle {
  import opened Bytes
  import opened PairTree

  type Digest = d: Bytes | |d| == 32 witness seq(32, _ => 0 as byte)

  type Sha = Bytes -> Digest

  // `left || right`, the input of an internal node.
  function Join(l: Digest, r: Digest): (b: Bytes)
    ensures |b| == 64 && b[..32] == l && b[32..] == r
  {
    var lb: Bytes := l;
    lb + r
  }

  function NodeHash(sha: Sha): (Digest, Digest) -> Digest
  {
    (l, r) => sha(Join(l, r))
  }

  // ---------------------------------------------------------------------
  // merkle_root
  // ---------------------------------------------------------------------

  // `row_hash` of every row; canon is the canonical serialization.
  function RowHashes<Row>(sha: Sha, canon: Row -> Bytes, rows: seq<Row>): (r: seq<Digest>)
    ensures |r| == |rows|
  {
    seq(|rows|, i requires 0 <= i < |rows| => sha(canon(rows[i])))
  }

  ghost function SortedLeaves<Row>(sha: Sha, canon: Row -> Bytes, rows: seq<Row>): (r: seq<Digest>)
    ensures |r| == |rows|
    ensures Sorted(r)
    ensures multiset(r) == multiset(RowHashes(sha, canon, rows))
  {
    var s: seq<Bytes> := RowHashes(sha, canon, rows);
    assert forall x :: x in s ==> |x| == 32;
    Arranged(s)
  }

  ghost function Root<Row>(sha: Sha, canon: Row -> Bytes, rows: seq<Row>): (r: Bytes)
    ensures |r| == 64
  {
    Hex(if |rows| == 0 then sha([]) else Tree(NodeHash(sha), SortedLeaves(sha, canon, rows)))
  }

  ghost function Serialized<Row>(canon: Row -> Bytes, rows: seq<Row>): set<Bytes>
  {
    set i | 0 <= i < |rows| :: canon(rows[i])
  }

  // What computing a root feeds to the hash function besides the rows: the
  // nodes' inputs, or the empty string.
  ghost function NodeInputs<Row>(sha: Sha, canon: Row -> Bytes, rows: seq<Row>): iset<Bytes>
  {
    if |rows| == 0 then iset{[]}
    else iset x | IsJoin(TreePairs(NodeHash(sha), SortedLeaves(sha, canon, rows)), x)
  }

  // Everything that it feeds to it.
  ghost function HashedInputs<Row>(sha: Sha, canon: Row -> Bytes, rows: seq<Row>): iset<Bytes>
  {
    iset x | x in Serialized(canon, rows) || x in NodeInputs(sha, canon, rows)
  }

  ghost predicate IsJoin(pairs: iset<(Digest, Digest)>, x: Bytes)
  {
    exists p :: p in pairs && x == Join(p.0, p.1)
  }

  // The reference implementation. The ghost results count the rounds of its
  // loop and collect what it hashed.
  method MerkleRoot<Row>(sha: Sha, canon: Row -> Bytes, rows: seq<Row>)
    returns (root: Bytes, ghost rounds: nat, ghost asked: iset<Bytes>)
    ensures root == Root(sha, canon, rows)
    ensures rounds == CeilLog2(|rows|)
    ensures asked == HashedInputs(sha, canon, rows)
  {
    if |rows| == 0 {
      assert HashedInputs(sha, canon, rows) == iset{[]};
      return Hex(sha([])), 0, iset{[]};
    }
    ghost var nodes;
    SortArranges(RowHashes(sha, canon, rows));
    var hashes := Sort(RowHashes(sha, canon, rows));
    assert hashes == SortedLeaves(sha, canon, rows);
    root, rounds, nodes := LevelLoop(sha, hashes);
    asked := iset x | x in Serialized(canon, rows) || x in nodes;
    root := Hex(root);
  }

  // Its level loop.
  method LevelLoop(sha: Sha, leaves: seq<Digest>) returns (top: Digest, ghost rounds: nat, ghost asked: iset<Bytes>)
    requires |leaves| >= 1
    ensures top == Tree(NodeHash(sha), leaves)
    ensures rounds == CeilLog2(|leaves|)
    ensures forall x :: x in asked <==> IsJoin(TreePairs(NodeHash(sha), leaves), x)
  {
    hide *;
    ghost var pair := NodeHash(sha);
    var hashes := leaves;
    rounds, asked := 0, iset{};
    while |hashes| > 1
      invariant |hashes| >= 1
      invariant Tree(pair, hashes) == Tree(pair, leaves)
      invariant rounds + CeilLog2(|hashes|) == CeilLog2(|leaves|)
      invariant forall x :: x in asked || IsJoin(TreePairs(pair, hashes), x) <==> IsJoin(TreePairs(pair, leaves), x)
      decreases |hashes|
    {
      RoundKeepsTree(pair, hashes);
      RoundJoins(pair, hashes);
      asked := asked + iset x | x in RoundInputs(hashes);
      hashes := Round(sha, hashes);
      rounds := rounds + 1;
    }
    TreeOfOne(sha, hashes);
    top := hashes[0];
  }

  // What one round feeds to the hash function.
  ghost function RoundInputs(level: seq<Digest>): set<Bytes>
    requires |level| >= 1
  {
    var ps := RoundPairs(level);
    set i | 0 <= i < |ps| :: Join(ps[i].0, ps[i].1)
  }

  lemma RoundJoins(pair: (Digest, Digest) -> Digest, level: seq<Digest>)
    requires |level| > 1
    ensures forall x :: IsJoin(TreePairs(pair, level), x) <==>
                        x in RoundInputs(level) || IsJoin(TreePairs(pair, NextLevel(pair, level)), x)
  {
    hide TreePairs, NextLevel, RoundPairs;
    RoundKeepsTree(pair, level);
    forall x | IsJoin(TreePairs(pair, level), x)
      ensures x in RoundInputs(level) || IsJoin(TreePairs(pair, NextLevel(pair, level)), x)
    {
      var p :| p in TreePairs(pair, level) && x == Join(p.0, p.1);
      if p in RoundPairs(level) {
        var i :| 0 <= i < |RoundPairs(level)| && RoundPairs(level)[i] == p;
      }
    }
    forall x | x in RoundInputs(level)
      ensures IsJoin(TreePairs(pair, level), x)
    {
      var i :| 0 <= i < |RoundPairs(level)| && x == Join(RoundPairs(level)[i].0, RoundPairs(level)[i].1);
      assert RoundPairs(level)[i] in TreePairs(pair, level);
    }
  }

  lemma TreeOfOne(sha: Sha, leaves: seq<Digest>)
    requires |leaves| == 1
    ensures Tree(NodeHash(sha), leaves) == leaves[0]
    ensures CeilLog2(|leaves|) == 0
    ensures forall x :: !IsJoin(TreePairs(NodeHash(sha), leaves), x)
  {}

  // The body of the loop.
  method Round(sha: Sha, level: seq<Digest>) returns (hashes: seq<Digest>)
    requires |level| >= 1
    ensures hashes == NextLevel(NodeHash(sha), level)
  {
    hashes := level;
    if |hashes| % 2 == 1 {
      hashes := hashes + [hashes[|hashes| - 1]];
    }
    hashes := seq(|hashes| / 2, i requires 0 <= i < |hashes| / 2 => sha(Join(hashes[2 * i], hashes[2 * i + 1])));
  }

  // ---------------------------------------------------------------------
  // What the root says about the table
  // ---------------------------------------------------------------------

  // The root depends on the multiset of row hashes alone.
  lemma RootIgnoresOrder<Row>(sha: Sha, canon: Row -> Bytes, xs: seq<Row>, ys: seq<Row>)
    requires multiset(RowHashes(sha, canon, xs)) == multiset(RowHashes(sha, canon, ys))
    ensures Root(sha, canon, xs) == Root(sha, canon, ys)
  {
    assert |xs| == |multiset(RowHashes(sha, canon, xs))| == |multiset(RowHashes(sha, canon, ys))| == |ys|;
    SortedUnique(SortedLeaves(sha, canon, xs), SortedLeaves(sha, canon, ys));
  }

  // So it depends on the multiset of rows alone.
  lemma RootIsOfMultiset<Row>(sha: Sha, canon: Row -> Bytes, xs: seq<Row>, ys: seq<Row>)
    requires multiset(xs) == multiset(ys)
    ensures Root(sha, canon, xs) == Root(sha, canon, ys)
  {
    SameRowsSameHashes(sha, canon, xs, ys);
    RootIgnoresOrder(sha, canon, xs, ys);
  }

  lemma {:induction false} SameRowsSameHashes<Row>(sha: Sha, canon: Row -> Bytes, xs: seq<Row>, ys: seq<Row>)
    requires multiset(xs) == multiset(ys)
    ensures multiset(RowHashes(sha, canon, xs)) == multiset(RowHashes(sha, canon, ys))
    decreases |xs|
  {
    hide RowHashes;
    assert |multiset(xs)| == |xs| && |multiset(ys)| == |ys|;
    if |xs| > 0 {
      assert xs[0] in multiset(ys);
      var k :| 0 <= k < |ys| && ys[k] == xs[0];
      var a, b := Without(xs, 0), Without(ys, k);
      HashesTakeOut(sha, canon, xs, 0);
      HashesTakeOut(sha, canon, ys, k);
      hide Without;
      SameRowsSameHashes(sha, canon, a, b);
    } else {
      assert xs == ys;
    }
  }

  function Without<T>(s: seq<T>, k: nat): (r: seq<T>)
    requires k < |s|
    ensures |r| == |s| - 1
    ensures multiset(r) == multiset(s) - multiset{s[k]}
    ensures multiset(s) == multiset(r) + multiset{s[k]}
  {
    assert s == s[..k] + [s[k]] + s[k + 1..];
    s[..k] + s[k + 1..]
  }

  lemma HashesTakeOut<Row>(sha: Sha, canon: Row -> Bytes, rows: seq<Row>, k: nat)
    requires k < |rows|
    ensures multiset(RowHashes(sha, canon, rows)) ==
            multiset(RowHashes(sha, canon, Without(rows, k))) + multiset{sha(canon(rows[k]))}
  {
    var h: seq<Bytes> := RowHashes(sha, canon, rows);
    assert RowHashes(sha, canon, Without(rows, k)) == Without(h, k);
  }

  ghost predicate CollisionFree(sha: Sha, inputs: iset<Bytes>)
  {
    forall x, y {:trigger x in inputs, y in inputs} :: x in inputs && y in inputs && sha(x) == sha(y) ==> x == y
  }

  // No row of either table is serialized as something else that is hashed.
  ghost predicate RowsApart<Row>(sha: Sha, canon: Row -> Bytes, xs: seq<Row>, ys: seq<Row>)
  {
    forall x :: x in Serialized(canon, xs) || x in Serialized(canon, ys) ==>
      x !in NodeInputs(sha, canon, xs) && x !in NodeInputs(sha, canon, ys)
  }

  ghost predicate Trustworthy<Row>(sha: Sha, canon: Row -> Bytes, xs: seq<Row>, ys: seq<Row>)
  {
    && CollisionFree(sha, HashedInputs(sha, canon, xs) + HashedInputs(sha, canon, ys))
    && RowsApart(sha, canon, xs, ys)
  }

  // For that it is enough that no row is serialized in 64 bytes, or in none.
  lemma LengthsKeepApart<Row>(sha: Sha, canon: Row -> Bytes, xs: seq<Row>, ys: seq<Row>)
    requires forall x :: x in Serialized(canon, xs) || x in Serialized(canon, ys) ==> |x| != 64 && |x| != 0
    ensures RowsApart(sha, canon, xs, ys)
  {
    hide TreePairs, SortedLeaves, Serialized;
  }

  lemma LeavesAreRowHashes<Row>(sha: Sha, canon: Row -> Bytes, rows: seq<Row>)
    ensures forall d :: d in Elements(SortedLeaves(sha, canon, rows)) <==>
                        exists x :: x in Serialized(canon, rows) && d == sha(x)
  {
    var leaves, hashes := SortedLeaves(sha, canon, rows), RowHashes(sha, canon, rows);
    forall d
      ensures d in Elements(leaves) <==> exists x :: x in Serialized(canon, rows) && d == sha(x)
    {
      assert d in leaves <==> d in multiset(leaves);
      assert d in hashes <==> d in multiset(hashes);
      if d in hashes {
        var i :| 0 <= i < |hashes| && hashes[i] == d;
        assert canon(rows[i]) in Serialized(canon, rows);
      }
      if x :| x in Serialized(canon, rows) && d == sha(x) {
        var i :| 0 <= i < |rows| && canon(rows[i]) == x;
        assert hashes[i] == d;
      }
    }
  }

  lemma TrustworthySeparates<Row>(sha: Sha, canon: Row -> Bytes, xs: seq<Row>, ys: seq<Row>)
    requires |xs| > 0 && |ys| > 0
    requires Trustworthy(sha, canon, xs, ys)
    ensures var lx, ly := SortedLeaves(sha, canon, xs), SortedLeaves(sha, canon, ys);
            Separates(NodeHash(sha), TreePairs(NodeHash(sha), lx) + TreePairs(NodeHash(sha), ly),
                      Elements(lx) + Elements(ly))
  {
    hide TreePairs, SortedLeaves, Serialized;
    var lx, ly := SortedLeaves(sha, canon, xs), SortedLeaves(sha, canon, ys);
    var pairs := TreePairs(NodeHash(sha), lx) + TreePairs(NodeHash(sha), ly);
    var inputs := HashedInputs(sha, canon, xs) + HashedInputs(sha, canon, ys);
    LeavesAreRowHashes(sha, canon, xs);
    LeavesAreRowHashes(sha, canon, ys);
    assert forall x :: x in Serialized(canon, xs) + Serialized(canon, ys) ==> x in inputs;
    forall p | p in pairs
      ensures Join(p.0, p.1) in NodeInputs(sha, canon, xs) + NodeInputs(sha, canon, ys)
      ensures Join(p.0, p.1) in inputs && NodeHash(sha)(p.0, p.1) == sha(Join(p.0, p.1))
    {
      assert IsJoin(TreePairs(NodeHash(sha), lx), Join(p.0, p.1)) ||
             IsJoin(TreePairs(NodeHash(sha), ly), Join(p.0, p.1));
    }
    forall p, q | p in pairs && q in pairs && NodeHash(sha)(p.0, p.1) == NodeHash(sha)(q.0, q.1)
      ensures p == q
    {
      assert Join(p.0, p.1) == Join(q.0, q.1);
    }
    forall p, x | p in pairs && x in Serialized(canon, xs) + Serialized(canon, ys)
      ensures sha(x) != NodeHash(sha)(p.0, p.1)
    {
      assert x != Join(p.0, p.1);
    }
  }

  // Two tables have the same root exactly when their sorted, expanded leaf
  // rows are equal (or both tables are empty).
  lemma RootsAgree<Row>(sha: Sha, canon: Row -> Bytes, xs: seq<Row>, ys: seq<Row>)
    requires Trustworthy(sha, canon, xs, ys)
    ensures Root(sha, canon, xs) == Root(sha, canon, ys) <==>
            if |xs| == 0 || |ys| == 0 then |xs| == |ys| == 0
            else Expanded(SortedLeaves(sha, canon, xs)) == Expanded(SortedLeaves(sha, canon, ys))
    ensures Root(sha, canon, xs) == Root(sha, canon, ys) && |xs| > 0 && |ys| > 0 ==>
            Elements(SortedLeaves(sha, canon, xs)) == Elements(SortedLeaves(sha, canon, ys))
  {
    hide Expanded, SortedLeaves, Hex, Elements;
    if Root(sha, canon, xs) == Root(sha, canon, ys) {
      RootBeforeHex(sha, canon, xs, ys);
    }
    if |xs| > 0 && |ys| > 0 {
      TrustworthySeparates(sha, canon, xs, ys);
      TreesAgree(NodeHash(sha), SortedLeaves(sha, canon, xs), SortedLeaves(sha, canon, ys));
    } else if |xs| > 0 {
      EmptyRootDiffers(sha, canon, xs, ys);
    } else if |ys| > 0 {
      EmptyRootDiffers(sha, canon, ys, xs);
    }
  }

  ghost function RootDigest<Row>(sha: Sha, canon: Row -> Bytes, rows: seq<Row>): Digest
  {
    if |rows| == 0 then sha([]) else Tree(NodeHash(sha), SortedLeaves(sha, canon, rows))
  }

  lemma RootBeforeHex<Row>(sha: Sha, canon: Row -> Bytes, xs: seq<Row>, ys: seq<Row>)
    requires Root(sha, canon, xs) == Root(sha, canon, ys)
    ensures RootDigest(sha, canon, xs) == RootDigest(sha, canon, ys)
  {
    HexInjective(RootDigest(sha, canon, xs), RootDigest(sha, canon, ys));
  }

  // The root of a non-empty table hashes a serialized row or a node's input.
  lemma RootIsHashed<Row>(sha: Sha, canon: Row -> Bytes, rows: seq<Row>)
    returns (input: Bytes)
    requires |rows| > 0
    ensures RootDigest(sha, canon, rows) == sha(input)
    ensures input in Serialized(canon, rows) || |input| == 64
    ensures input in HashedInputs(sha, canon, rows)
  {
    var leaves, pair := SortedLeaves(sha, canon, rows), NodeHash(sha);
    hide SortedLeaves, Serialized, Subtree, Elements;
    var h := CeilLog2(|leaves|);
    CeilLog2IsLeast(|leaves|);
    if h == 0 {
      LeavesAreRowHashes(sha, canon, rows);
      SubtreeOfOne(pair, leaves);
      input :| input in Serialized(canon, rows) && leaves[0] == sha(input);
    } else {
      SubtreeStep(pair, leaves, h);
      var (l, r) := Halves(leaves, h);
      var p := (Subtree(pair, l, h - 1), Subtree(pair, r, h - 1));
      input := Join(p.0, p.1);
      assert IsJoin(TreePairs(pair, leaves), input);
      assert input in NodeInputs(sha, canon, rows);
    }
  }

  lemma EmptyRootDiffers<Row>(sha: Sha, canon: Row -> Bytes, xs: seq<Row>, ys: seq<Row>)
    requires |xs| > 0 && |ys| == 0
    requires CollisionFree(sha, HashedInputs(sha, canon, xs) + HashedInputs(sha, canon, ys))
    requires [] !in Serialized(canon, xs)
    ensures Root(sha, canon, xs) != Root(sha, canon, ys)
  {
    var input := RootIsHashed(sha, canon, xs);
    var all := HashedInputs(sha, canon, xs) + HashedInputs(sha, canon, ys);
    assert [] in NodeInputs(sha, canon, ys);
    assert input in all && [] in all && input != [];
    if Root(sha, canon, xs) == Root(sha, canon, ys) {
      RootBeforeHex(sha, canon, xs, ys);
    }
  }

  // Equal roots mean equal sets of rows, whatever the two table sizes.
  lemma EqualRootsSameRows<Row>(sha: Sha, canon: Row -> Bytes, xs: seq<Row>, ys: seq<Row>)
    requires Trustworthy(sha, canon, xs, ys)
    requires Root(sha, canon, xs) == Root(sha, canon, ys)
    ensures Serialized(canon, xs) == Serialized(canon, ys)
  {
    RootsAgree(sha, canon, xs, ys);
    if |xs| > 0 {
      EqualLeavesContain(sha, canon, xs, ys);
      EqualLeavesContain(sha, canon, ys, xs);
    }
  }

  lemma EqualLeavesContain<Row>(sha: Sha, canon: Row -> Bytes, xs: seq<Row>, ys: seq<Row>)
    requires |xs| > 0 && |ys| > 0
    requires CollisionFree(sha, HashedInputs(sha, canon, xs) + HashedInputs(sha, canon, ys))
    requires Elements(SortedLeaves(sha, canon, xs)) == Elements(SortedLeaves(sha, canon, ys))
    ensures Serialized(canon, xs) <= Serialized(canon, ys)
  {
    hide SortedLeaves, Serialized, TreePairs;
    LeavesAreRowHashes(sha, canon, xs);
    LeavesAreRowHashes(sha, canon, ys);
    forall x | x in Serialized(canon, xs)
      ensures x in Serialized(canon, ys)
    {
      assert sha(x) in Elements(SortedLeaves(sha, canon, ys));
      var y :| y in Serialized(canon, ys) && sha(x) == sha(y);
      assert x in HashedInputs(sha, canon, xs) && y in HashedInputs(sha, canon, ys);
    }
  }

  ghost predicate NoDuplicates<Row>(canon: Row -> Bytes, rows: seq<Row>)
  {
    forall i, j :: 0 <= i < j < |rows| ==> canon(rows[i]) != canon(rows[j])
  }

  // For tables without duplicate rows the root decides equality of the tables.
  lemma RootDecidesTable<Row>(sha: Sha, canon: Row -> Bytes, xs: seq<Row>, ys: seq<Row>)
    requires Trustworthy(sha, canon, xs, ys)
    requires NoDuplicates(canon, xs) && NoDuplicates(canon, ys)
    ensures Root(sha, canon, xs) == Root(sha, canon, ys) <==> Serialized(canon, xs) == Serialized(canon, ys)
  {
    if Root(sha, canon, xs) == Root(sha, canon, ys) {
      EqualRootsSameRows(sha, canon, xs, ys);
    }
    if Serialized(canon, xs) == Serialized(canon, ys) {
      SameSetSameHashes(sha, canon, xs, ys);
      RootIgnoresOrder(sha, canon, xs, ys);
    }
  }

  lemma SameSetSameHashes<Row>(sha: Sha, canon: Row -> Bytes, xs: seq<Row>, ys: seq<Row>)
    requires Trustworthy(sha, canon, xs, ys)
    requires NoDuplicates(canon, xs) && NoDuplicates(canon, ys)
    requires Serialized(canon, xs) == Serialized(canon, ys)
    ensures multiset(RowHashes(sha, canon, xs)) == multiset(RowHashes(sha, canon, ys))
  {
    var hx: seq<Bytes>, hy: seq<Bytes> := RowHashes(sha, canon, xs), RowHashes(sha, canon, ys);
    RowHashesDistinct(sha, canon, xs);
    RowHashesDistinct(sha, canon, ys);
    CountDistinct(hx);
    CountDistinct(hy);
    LeavesAreRowHashes(sha, canon, xs);
    LeavesAreRowHashes(sha, canon, ys);
    forall d: Bytes
      ensures multiset(hx)[d] == multiset(hy)[d]
    {
      assert d in hx <==> d in multiset(SortedLeaves(sha, canon, xs));
      assert d in hy <==> d in multiset(SortedLeaves(sha, canon, ys));
      assert d in Elements(SortedLeaves(sha, canon, xs)) <==> d in Elements(SortedLeaves(sha, canon, ys));
    }
  }

  lemma RowHashesDistinct<Row>(sha: Sha, canon: Row -> Bytes, rows: seq<Row>)
    requires CollisionFree(sha, HashedInputs(sha, canon, rows)) && NoDuplicates(canon, rows)
    ensures var h := RowHashes(sha, canon, rows); forall i, j :: 0 <= i < j < |h| ==> h[i] != h[j]
  {
    hide TreePairs;
    forall i | 0 <= i < |rows|
      ensures canon(rows[i]) in HashedInputs(sha, canon, rows)
    {
      assert canon(rows[i]) in Serialized(canon, rows);
    }
  }

  lemma {:induction false} CountDistinct(s: seq<Bytes>)
    requires forall i, j :: 0 <= i < j < |s| ==> s[i] != s[j]
    ensures forall d :: multiset(s)[d] == if d in s then 1 else 0
  {
    if |s| > 0 {
      CountDistinct(s[1..]);
      assert s == [s[0]] + s[1..];
    }
  }

  // Without that condition it does not: a table with an odd number of rows,
  // three or more, keeps its root when its greatest-hash row is repeated.
  lemma RepeatedRowKeepsRoot<Row>(sha: Sha, canon: Row -> Bytes, rows: seq<Row>, row: Row)
    requires |rows| >= 3 && |rows| % 2 == 1
    requires row in rows && forall r :: r in rows ==> Leq(sha(canon(r)), sha(canon(row)))
    ensures Root(sha, canon, rows + [row]) == Root(sha, canon, rows)
  {
    var leaves, more := SortedLeaves(sha, canon, rows), SortedLeaves(sha, canon, rows + [row]);
    var last := leaves[|leaves| - 1];
    GreatestIsLast(sha, canon, rows, row);
    assert RowHashes(sha, canon, rows + [row]) == RowHashes(sha, canon, rows) + [last];
    assert Sorted(leaves + [last]) by {
      LeqTotal(last, last);
    }
    SortedUnique(more, leaves + [last]);
    RepeatedLastKeepsTree(NodeHash(sha), leaves);
  }

  lemma GreatestIsLast<Row>(sha: Sha, canon: Row -> Bytes, rows: seq<Row>, row: Row)
    requires row in rows && forall r :: r in rows ==> Leq(sha(canon(r)), sha(canon(row)))
    ensures var leaves := SortedLeaves(sha, canon, rows); leaves[|leaves| - 1] == sha(canon(row))
  {
    var leaves, hashes := SortedLeaves(sha, canon, rows), RowHashes(sha, canon, rows);
    var d, last := sha(canon(row)), leaves[|leaves| - 1];
    assert last in multiset(leaves);
    var j :| 0 <= j < |hashes| && hashes[j] == last;
    var k :| 0 <= k < |rows| && rows[k] == row;
    assert hashes[k] == d;
    assert d in multiset(hashes);
    var i :| 0 <= i < |leaves| && leaves[i] == d;
    LeqTotal(d, d);
    LeqAntisymmetric(d, last);
  }

  // Nor without the condition on lengths: a row whose serialization is the
  // input of an internal node has the root of the two rows under that node.
  lemma NodeLookalikeKeepsRoot<Row>(sha: Sha, canon: Row -> Bytes, a: Row, b: Row, c: Row)
    requires Leq(sha(canon(a)), sha(canon(b)))
    requires canon(c) == Join(sha(canon(a)), sha(canon(b)))
    ensures Root(sha, canon, [c]) == Root(sha, canon, [a, b])
  {
    var two: seq<Digest> := [sha(canon(a)), sha(canon(b))];
    assert RowHashes(sha, canon, [a, b]) == two;
    assert RowHashes(sha, canon, [c]) == [sha(canon(c))];
    SortedUnique(SortedLeaves(sha, canon, [a, b]), two);
    SortedUnique(SortedLeaves(sha, canon, [c]), [sha(canon(c))]);
    RoundKeepsTree(NodeHash(sha), two);
    assert NextLevel(NodeHash(sha), two) == [sha(canon(c))];
  }
}
