// The shape of the Merkle computation, for any way of combining two values:
// rounds over a level, the recursive tree, and the tree's expanded leaf row.
module PairTree {

  // ---------------------------------------------------------------------
  // Sizes
  // ---------------------------------------------------------------------

  function Pow2(h: nat): (p: nat)
    ensures p >= 1
  {
    if h == 0 then 1 else 2 * Pow2(h - 1)
  }

  // The least h with n <= 2^h (see CeilLog2IsLeast).
  function CeilLog2(n: nat): nat
  {
    if n <= 1 then 0 else 1 + CeilLog2((n + 1) / 2)
  }

  lemma {:induction false} CeilLog2IsLeast(n: nat)
    ensures n <= Pow2(CeilLog2(n))
    ensures n > 1 ==> Pow2(CeilLog2(n) - 1) < n
  {
    if n > 1 {
      CeilLog2IsLeast((n + 1) / 2);
    }
  }

  lemma {:induction false} Pow2Injective(h: nat, g: nat)
    requires Pow2(h) == Pow2(g)
    ensures h == g
  {
    if h > 0 && g > 0 {
      Pow2Injective(h - 1, g - 1);
    }
  }

  // ---------------------------------------------------------------------
  // One round over a level
  // ---------------------------------------------------------------------

  // Duplicate the last value of a level of odd length.
  function Padded<D>(level: seq<D>): (p: seq<D>)
    requires |level| >= 1
    ensures |p| == 2 * ((|level| + 1) / 2)
  {
    if |level| % 2 == 1 then level + [level[|level| - 1]] else level
  }

  // The neighbours that one round combines, in order.
  function RoundPairs<D>(level: seq<D>): (r: seq<(D, D)>)
    requires |level| >= 1
    ensures |r| == (|level| + 1) / 2
  {
    var p := Padded(level);
    seq(|p| / 2, i requires 0 <= i < |p| / 2 => (p[2 * i], p[2 * i + 1]))
  }

  function Combine<D>(pair: (D, D) -> D, ps: seq<(D, D)>): (r: seq<D>)
    ensures |r| == |ps|
  {
    seq(|ps|, i requires 0 <= i < |ps| => pair(ps[i].0, ps[i].1))
  }

  // What one round rebinds the level to.
  function NextLevel<D>(pair: (D, D) -> D, level: seq<D>): (r: seq<D>)
    requires |level| >= 1
    ensures |r| == (|level| + 1) / 2
  {
    Combine(pair, RoundPairs(level))
  }

  ghost function Elements<T>(s: seq<T>): set<T>
  {
    set x | x in s
  }

  // ---------------------------------------------------------------------
  // The recursive tree
  // ---------------------------------------------------------------------

  // The two halves of a tree of height h >= 1: a row of leaves is cut at
  // 2^(h-1); a row that is not longer than that stands on both sides, which is
  // how a short right subtree is lifted by pairing it with itself.
  function Halves<D>(leaves: seq<D>, h: nat): (r: (seq<D>, seq<D>))
    requires h >= 1 && 1 <= |leaves| <= Pow2(h)
    ensures 1 <= |r.0| <= Pow2(h - 1) && 1 <= |r.1| <= Pow2(h - 1)
  {
    if |leaves| <= Pow2(h - 1) then (leaves, leaves)
    else (leaves[..Pow2(h - 1)], leaves[Pow2(h - 1)..])
  }

  function Subtree<D>(pair: (D, D) -> D, leaves: seq<D>, h: nat): D
    requires 1 <= |leaves| <= Pow2(h)
    decreases h
  {
    if h == 0 then leaves[0]
    else
      var (l, r) := Halves(leaves, h);
      pair(Subtree(pair, l, h - 1), Subtree(pair, r, h - 1))
  }

  // Is p one of the pairs combined in that tree?
  ghost predicate IsNode<D(!new)>(pair: (D, D) -> D, leaves: seq<D>, h: nat, p: (D, D))
    requires 1 <= |leaves| <= Pow2(h)
    decreases h
  {
    h > 0 &&
    var (l, r) := Halves(leaves, h);
    || p == (Subtree(pair, l, h - 1), Subtree(pair, r, h - 1))
    || IsNode(pair, l, h - 1, p)
    || IsNode(pair, r, h - 1, p)
  }

  // The 2^h leaves of the tree once every duplication is written out.
  function Expand<D>(leaves: seq<D>, h: nat): (e: seq<D>)
    requires 1 <= |leaves| <= Pow2(h)
    ensures |e| == Pow2(h)
    decreases h
  {
    if h == 0 then leaves
    else
      var (l, r) := Halves(leaves, h);
      Expand(l, h - 1) + Expand(r, h - 1)
  }

  // The three of them at the least height that holds the leaves.

  function Tree<D>(pair: (D, D) -> D, leaves: seq<D>): D
    requires |leaves| >= 1
  {
    CeilLog2IsLeast(|leaves|);
    Subtree(pair, leaves, CeilLog2(|leaves|))
  }

  // All pairs combined in the tree.
  ghost function TreePairs<D(!new)>(pair: (D, D) -> D, leaves: seq<D>): iset<(D, D)>
    requires |leaves| >= 1
  {
    CeilLog2IsLeast(|leaves|);
    iset p | IsNode(pair, leaves, CeilLog2(|leaves|), p)
  }

  function Expanded<D>(leaves: seq<D>): seq<D>
    requires |leaves| >= 1
  {
    CeilLog2IsLeast(|leaves|);
    Expand(leaves, CeilLog2(|leaves|))
  }

  // The tree splits n leaves at the largest power of two below n.
  lemma TreeSplit<D(!new)>(pair: (D, D) -> D, leaves: seq<D>)
    requires |leaves| >= 2
    ensures var h := CeilLog2(|leaves|) - 1; var k := Pow2(h);
            && k < |leaves| <= 2 * k
            && Tree(pair, leaves) == pair(Subtree(pair, leaves[..k], h), Subtree(pair, leaves[k..], h))
  {
    hide Subtree;
    CeilLog2IsLeast(|leaves|);
    SubtreeStep(pair, leaves, CeilLog2(|leaves|));
  }

  // One unfolding of the recursive definition.
  lemma SubtreeStep<D(!new)>(pair: (D, D) -> D, leaves: seq<D>, h: nat)
    requires h >= 1 && 1 <= |leaves| <= Pow2(h)
    ensures var (l, r) := Halves(leaves, h);
            && Subtree(pair, leaves, h) == pair(Subtree(pair, l, h - 1), Subtree(pair, r, h - 1))
            && IsNode(pair, leaves, h, (Subtree(pair, l, h - 1), Subtree(pair, r, h - 1)))
  {
    hide Halves;
  }

  // ---------------------------------------------------------------------
  // One round lowers the tree by one level
  // ---------------------------------------------------------------------

  lemma RoundPairsSplit<D>(l: seq<D>, r: seq<D>)
    requires |l| >= 1 && |r| >= 1 && |l| % 2 == 0
    ensures RoundPairs(l + r) == RoundPairs(l) + RoundPairs(r)
  {
    assert Padded(l + r) == l + Padded(r);
  }

  lemma RoundSplits<D>(pair: (D, D) -> D, leaves: seq<D>, h: nat)
    requires h >= 2 && 1 <= |leaves| <= Pow2(h)
    ensures |NextLevel(pair, leaves)| <= Pow2(h - 1)
    ensures var (l, r) := Halves(leaves, h);
            && Halves(NextLevel(pair, leaves), h - 1) == (NextLevel(pair, l), NextLevel(pair, r))
            && (forall p :: p in RoundPairs(leaves) <==> p in RoundPairs(l) || p in RoundPairs(r))
  {
    hide RoundPairs;
    var k, half := Pow2(h - 1), Pow2(h - 2);
    assert k == 2 * half;
    if |leaves| > k {
      var l, r := leaves[..k], leaves[k..];
      assert leaves == l + r;
      RoundPairsSplit(l, r);
      assert NextLevel(pair, leaves) == NextLevel(pair, l) + NextLevel(pair, r);
    }
  }

  lemma LastRound<D(!new)>(pair: (D, D) -> D, leaves: seq<D>)
    requires 1 <= |leaves| <= 2
    ensures |NextLevel(pair, leaves)| == 1
    ensures Subtree(pair, leaves, 1) == Subtree(pair, NextLevel(pair, leaves), 0)
    ensures forall p :: IsNode(pair, leaves, 1, p) <==> p in RoundPairs(leaves)
  {
    var p := Padded(leaves);
    var (l, r) := Halves(leaves, 1);
    assert Subtree(pair, l, 0) == p[0] && Subtree(pair, r, 0) == p[1];
    assert RoundPairs(leaves) == [(p[0], p[1])];
  }

  // One round on a row of leaves keeps the root.
  lemma {:induction false} RoundKeepsSubtree<D(!new)>(pair: (D, D) -> D, leaves: seq<D>, h: nat)
    requires h >= 1 && 1 <= |leaves| <= Pow2(h)
    ensures |NextLevel(pair, leaves)| <= Pow2(h - 1)
    ensures Subtree(pair, leaves, h) == Subtree(pair, NextLevel(pair, leaves), h - 1)
    decreases h
  {
    hide Subtree, Halves, NextLevel;
    if h == 1 {
      LastRound(pair, leaves);
    } else {
      var (l, r) := Halves(leaves, h);
      RoundSplits(pair, leaves, h);
      RoundKeepsSubtree(pair, l, h - 1);
      RoundKeepsSubtree(pair, r, h - 1);
      SubtreeStep(pair, leaves, h);
      SubtreeStep(pair, NextLevel(pair, leaves), h - 1);
    }
  }

  // The pairs it combines are exactly the bottom layer of the tree.
  lemma {:induction false} RoundKeepsNodes<D(!new)>(pair: (D, D) -> D, leaves: seq<D>, h: nat, p: (D, D))
    requires h >= 1 && 1 <= |leaves| <= Pow2(h)
    ensures |NextLevel(pair, leaves)| <= Pow2(h - 1)
    ensures IsNode(pair, leaves, h, p) <==>
            p in RoundPairs(leaves) || IsNode(pair, NextLevel(pair, leaves), h - 1, p)
    decreases h
  {
    hide Subtree, Halves, NextLevel, RoundPairs;
    if h == 1 {
      LastRound(pair, leaves);
    } else {
      var (l, r) := Halves(leaves, h);
      RoundSplits(pair, leaves, h);
      RoundKeepsSubtree(pair, l, h - 1);
      RoundKeepsSubtree(pair, r, h - 1);
      RoundKeepsNodes(pair, l, h - 1, p);
      RoundKeepsNodes(pair, r, h - 1, p);
    }
  }

  lemma RoundKeepsTree<D(!new)>(pair: (D, D) -> D, leaves: seq<D>)
    requires |leaves| > 1
    ensures CeilLog2(|leaves|) == 1 + CeilLog2(|NextLevel(pair, leaves)|)
    ensures Tree(pair, leaves) == Tree(pair, NextLevel(pair, leaves))
    ensures forall p :: p in TreePairs(pair, leaves) <==>
                        p in RoundPairs(leaves) || p in TreePairs(pair, NextLevel(pair, leaves))
  {
    hide Subtree, NextLevel, IsNode;
    CeilLog2IsLeast(|leaves|);
    RoundKeepsSubtree(pair, leaves, CeilLog2(|leaves|));
    forall p {
      RoundKeepsNodes(pair, leaves, CeilLog2(|leaves|), p);
    }
  }

  // ---------------------------------------------------------------------
  // What equal roots say about the leaves
  // ---------------------------------------------------------------------

  lemma ElementsSplit<T>(a: seq<T>, b: seq<T>)
    ensures Elements(a + b) == Elements(a) + Elements(b)
  {}

  // The expanded row starts with the leaves and holds nothing else.
  lemma {:induction false} ExpandKeepsLeaves<D>(leaves: seq<D>, h: nat)
    requires 1 <= |leaves| <= Pow2(h)
    ensures Expand(leaves, h)[..|leaves|] == leaves
    ensures Elements(Expand(leaves, h)) == Elements(leaves)
    decreases h
  {
    hide Expand, Elements;
    ExpandStep(leaves, h);
    if h > 0 {
      var (l, r) := Halves(leaves, h);
      ExpandKeepsLeaves(l, h - 1);
      ExpandKeepsLeaves(r, h - 1);
      var le, re := Expand(l, h - 1), Expand(r, h - 1);
      ElementsSplit(le, re);
      if |leaves| > Pow2(h - 1) {
        assert leaves == l + r;
        ElementsSplit(l, r);
        assert le == le[..|l|];
        assert (le + re)[..|leaves|] == le + re[..|r|];
      } else {
        assert (le + re)[..|leaves|] == le[..|l|];
      }
    }
  }

  lemma ExpandStep<D>(leaves: seq<D>, h: nat)
    requires 1 <= |leaves| <= Pow2(h)
    ensures h == 0 ==> Expand(leaves, h) == leaves && leaves[..|leaves|] == leaves
    ensures h > 0 ==> var (l, r) := Halves(leaves, h); Expand(leaves, h) == Expand(l, h - 1) + Expand(r, h - 1)
  {
    hide Halves;
  }

  // No two of the pairs combine to the same value, and none to a leaf.
  ghost predicate Separates<D(!new)>(pair: (D, D) -> D, pairs: iset<(D, D)>, leaves: set<D>)
  {
    && (forall p, q :: p in pairs && q in pairs && pair(p.0, p.1) == pair(q.0, q.1) ==> p == q)
    && (forall p :: p in pairs ==> pair(p.0, p.1) !in leaves)
  }

  // Trees with the same root have the same height and the same expanded row.
  lemma {:induction false} SubtreeInjective<D(!new)>(
      pair: (D, D) -> D, pairs: iset<(D, D)>, values: set<D>, xs: seq<D>, h: nat, ys: seq<D>, g: nat)
    requires 1 <= |xs| <= Pow2(h) && 1 <= |ys| <= Pow2(g)
    requires forall p :: IsNode(pair, xs, h, p) || IsNode(pair, ys, g, p) ==> p in pairs
    requires Elements(xs) <= values && Elements(ys) <= values
    requires Separates(pair, pairs, values)
    requires Subtree(pair, xs, h) == Subtree(pair, ys, g)
    ensures h == g && Expand(xs, h) == Expand(ys, g)
    decreases h
  {
    hide Halves, Expand, Subtree, Elements;
    ExpandStep(xs, h);
    ExpandStep(ys, g);
    if h > 0 {
      SubtreeStep(pair, xs, h);
    } else {
      SubtreeOfOne(pair, xs);
    }
    if g > 0 {
      SubtreeStep(pair, ys, g);
    } else {
      SubtreeOfOne(pair, ys);
    }
    if h > 0 && g > 0 {
      var (xl, xr) := Halves(xs, h);
      var (yl, yr) := Halves(ys, g);
      HalvesElements(xs, h);
      HalvesElements(ys, g);
      assert (Subtree(pair, xl, h - 1), Subtree(pair, xr, h - 1)) ==
             (Subtree(pair, yl, g - 1), Subtree(pair, yr, g - 1));
      SubtreeInjective(pair, pairs, values, xl, h - 1, yl, g - 1);
      SubtreeInjective(pair, pairs, values, xr, h - 1, yr, g - 1);
    }
  }

  lemma SubtreeOfOne<D>(pair: (D, D) -> D, leaves: seq<D>)
    requires |leaves| == 1
    ensures Subtree(pair, leaves, 0) == leaves[0] && leaves == [leaves[0]]
    ensures leaves[0] in Elements(leaves)
  {}

  lemma HalvesElements<D>(leaves: seq<D>, h: nat)
    requires h >= 1 && 1 <= |leaves| <= Pow2(h)
    ensures var (l, r) := Halves(leaves, h); Elements(l) <= Elements(leaves) && Elements(r) <= Elements(leaves)
  {}

  // A tree's root is a function of its expanded row.
  lemma {:induction false} ExpandDeterminesSubtree<D(!new)>(pair: (D, D) -> D, xs: seq<D>, ys: seq<D>, h: nat)
    requires 1 <= |xs| <= Pow2(h) && 1 <= |ys| <= Pow2(h)
    requires Expand(xs, h) == Expand(ys, h)
    ensures Subtree(pair, xs, h) == Subtree(pair, ys, h)
    decreases h
  {
    hide Halves;
    if h > 0 {
      var (xl, xr) := Halves(xs, h);
      var (yl, yr) := Halves(ys, h);
      var half := Pow2(h - 1);
      assert Expand(xl, h - 1) == Expand(xs, h)[..half] == Expand(ys, h)[..half] == Expand(yl, h - 1);
      assert Expand(xr, h - 1) == Expand(xs, h)[half..] == Expand(ys, h)[half..] == Expand(yr, h - 1);
      ExpandDeterminesSubtree(pair, xl, yl, h - 1);
      ExpandDeterminesSubtree(pair, xr, yr, h - 1);
      SubtreeStep(pair, xs, h);
      SubtreeStep(pair, ys, h);
    }
  }

  // Equal roots: exactly when the expanded rows are equal.
  lemma TreesAgree<D(!new)>(pair: (D, D) -> D, xs: seq<D>, ys: seq<D>)
    requires |xs| >= 1 && |ys| >= 1
    requires Separates(pair, TreePairs(pair, xs) + TreePairs(pair, ys), Elements(xs) + Elements(ys))
    ensures Tree(pair, xs) == Tree(pair, ys) <==> Expanded(xs) == Expanded(ys)
    ensures Tree(pair, xs) == Tree(pair, ys) ==> Elements(xs) == Elements(ys)
  {
    var h, g := CeilLog2(|xs|), CeilLog2(|ys|);
    CeilLog2IsLeast(|xs|);
    CeilLog2IsLeast(|ys|);
    ExpandKeepsLeaves(xs, h);
    ExpandKeepsLeaves(ys, g);
    if Tree(pair, xs) == Tree(pair, ys) {
      SubtreeInjective(pair, TreePairs(pair, xs) + TreePairs(pair, ys), Elements(xs) + Elements(ys), xs, h, ys, g);
    }
    if Expanded(xs) == Expanded(ys) {
      Pow2Injective(h, g);
      ExpandDeterminesSubtree(pair, xs, ys, h);
    }
  }

  // Repeating the last leaf of an odd row of three or more changes nothing.
  lemma RepeatedLastKeepsTree<D(!new)>(pair: (D, D) -> D, leaves: seq<D>)
    requires |leaves| >= 3 && |leaves| % 2 == 1
    ensures Tree(pair, leaves + [leaves[|leaves| - 1]]) == Tree(pair, leaves)
  {
    hide Tree;
    var more := leaves + [leaves[|leaves| - 1]];
    assert Padded(more) == Padded(leaves);
    RoundKeepsTree(pair, leaves);
    RoundKeepsTree(pair, more);
  }
}
