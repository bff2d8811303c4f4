// Byte strings, their lexicographic order (Python's order on `bytes` and, for
// ASCII text, on `str`), sorting, and lower-case hexadecimal text.
module Bytes {

  newtype byte = x: int | 0 <= x < 256

  type Bytes = seq<byte>

  // Lexicographic order, a prefix first.
  predicate Leq(a: Bytes, b: Bytes)
    decreases |a|
  {
    |a| == 0 ||
    (|b| > 0 && (a[0] < b[0] || (a[0] == b[0] && Leq(a[1..], b[1..]))))
  }

  // a is a prefix of b, or has the smaller byte where the two first differ.
  lemma {:induction false} LeqIsLexicographic(a: Bytes, b: Bytes)
    ensures Leq(a, b) <==> a <= b || exists k: nat :: FirstDifference(a, b, k) && a[k] < b[k]
    decreases |a|
  {
    if |a| > 0 && |b| > 0 && a[0] == b[0] {
      assert Leq(a, b) <==> Leq(a[1..], b[1..]);
      LeqIsLexicographic(a[1..], b[1..]);
      hide Leq, FirstDifference;
      assert a == [a[0]] + a[1..] && b == [b[0]] + b[1..];
      assert a <= b <==> a[1..] <= b[1..];
      if k: nat :| FirstDifference(a[1..], b[1..], k) && a[1..][k] < b[1..][k] {
        SameFirst(a, b, k + 1);
        assert a[k + 1] < b[k + 1];
      }
      if k: nat :| FirstDifference(a, b, k) && a[k] < b[k] {
        SameFirst(a, b, k);
        assert a[1..][k - 1] < b[1..][k - 1];
      }
    } else if |a| > 0 && |b| > 0 {
      assert FirstDifference(a, b, 0);
    }
  }

  ghost predicate FirstDifference(a: Bytes, b: Bytes, k: nat)
    ensures FirstDifference(a, b, k) ==> k < |a| && k < |b|
  {
    k < |a| && k < |b| && a[..k] == b[..k] && a[k] != b[k]
  }

  lemma SameFirst(a: Bytes, b: Bytes, k: nat)
    requires |a| > 0 && |b| > 0 && a[0] == b[0]
    ensures FirstDifference(a, b, k) <==> k > 0 && FirstDifference(a[1..], b[1..], k - 1)
  {
    if k > 0 && k < |a| && k < |b| {
      assert a[..k] == [a[0]] + a[1..][..k - 1] && b[..k] == [b[0]] + b[1..][..k - 1];
    }
  }

  lemma LeqTotal(a: Bytes, b: Bytes)
    ensures Leq(a, b) || Leq(b, a)
    decreases |a|
  {
    if |a| > 0 && |b| > 0 {
      LeqTotal(a[1..], b[1..]);
    }
  }

  lemma LeqTransitive(a: Bytes, b: Bytes, c: Bytes)
    requires Leq(a, b) && Leq(b, c)
    ensures Leq(a, c)
    decreases |a|
  {
    if |a| > 0 && a[0] == b[0] == c[0] {
      LeqTransitive(a[1..], b[1..], c[1..]);
    }
  }

  lemma LeqAntisymmetric(a: Bytes, b: Bytes)
    requires Leq(a, b) && Leq(b, a)
    ensures a == b
    decreases |a|
  {
    if |a| > 0 {
      LeqAntisymmetric(a[1..], b[1..]);
      assert a == [a[0]] + a[1..];
      assert b == [b[0]] + b[1..];
    }
  }

  ghost predicate Sorted(s: seq<Bytes>)
  {
    forall i, j :: 0 <= i < j < |s| ==> Leq(s[i], s[j])
  }

  function Insert(x: Bytes, s: seq<Bytes>): (r: seq<Bytes>)
    ensures |r| == |s| + 1
    ensures multiset(r) == multiset(s) + multiset{x}
    ensures Sorted(s) ==> Sorted(r)
  {
    if |s| == 0 then [x]
    else if Leq(x, s[0]) then
      assert Sorted(s) ==> Sorted([x] + s) by { InsertFront(x, s); }
      [x] + s
    else
      assert s == [s[0]] + s[1..];
      var t := Insert(x, s[1..]);
      assert Sorted(s) ==> Sorted([s[0]] + t) by { InsertBehind(x, s, t); }
      [s[0]] + t
  }

  lemma InsertFront(x: Bytes, s: seq<Bytes>)
    requires |s| > 0 && Leq(x, s[0])
    ensures Sorted(s) ==> Sorted([x] + s)
  {
    if Sorted(s) {
      forall j | 0 <= j < |s| ensures Leq(x, s[j]) {
        if j > 0 { LeqTransitive(x, s[0], s[j]); }
      }
    }
  }

  lemma InsertBehind(x: Bytes, s: seq<Bytes>, t: seq<Bytes>)
    requires |s| > 0 && !Leq(x, s[0])
    requires Sorted(s[1..]) ==> Sorted(t)
    requires multiset(t) == multiset(s[1..]) + multiset{x}
    ensures Sorted(s) ==> Sorted([s[0]] + t)
  {
    if Sorted(s) {
      LeqTotal(x, s[0]);
      forall j | 0 <= j < |t| ensures Leq(s[0], t[j]) {
        assert t[j] in multiset(t);
        if t[j] != x {
          assert t[j] in s[1..];
        }
      }
    }
  }

  // Python's `sorted` on a list of byte strings.
  function Sort(s: seq<Bytes>): (r: seq<Bytes>)
    ensures |r| == |s|
    ensures Sorted(r)
    ensures multiset(r) == multiset(s)
    ensures forall x :: x in r <==> x in s
  {
    if |s| == 0 then []
    else
      assert s == [s[0]] + s[1..];
      var r := Insert(s[0], Sort(s[1..]));
      assert multiset(r) == multiset(s);
      assert forall x :: x in r <==> x in multiset(r);
      assert forall x :: x in s <==> x in multiset(s);
      r
  }

  // A multiset of byte strings has one sorted arrangement.
  lemma {:induction false} SortedUnique(a: seq<Bytes>, b: seq<Bytes>)
    requires Sorted(a) && Sorted(b)
    requires multiset(a) == multiset(b)
    ensures a == b
    decreases |a|
  {
    assert |a| == |multiset(a)| == |multiset(b)| == |b|;
    if |a| > 0 {
      assert a[0] in multiset(b) && b[0] in multiset(a);
      var i :| 0 <= i < |b| && b[i] == a[0];
      var j :| 0 <= j < |a| && a[j] == b[0];
      LeqTotal(a[0], a[0]);
      LeqTotal(b[0], b[0]);
      LeqAntisymmetric(a[0], b[0]);
      assert a == [a[0]] + a[1..];
      assert b == [b[0]] + b[1..];
      assert multiset(a[1..]) == multiset(a) - multiset{a[0]};
      assert multiset(b[1..]) == multiset(b) - multiset{b[0]};
      SortedUnique(a[1..], b[1..]);
    }
  }

  // Sorting puts a least member first.
  lemma LeastFirst(s: seq<Bytes>, i: nat)
    requires i < |s| && forall j :: 0 <= j < |s| ==> Leq(s[i], s[j])
    ensures Sort(s) == [s[i]] + Sort(s[..i] + s[i + 1..])
  {
    hide Leq, Sort;
    var rest := s[..i] + s[i + 1..];
    OneOut(s, i);
    LeastBehind(s[i], Sort(rest));
    SortedUnique(Sort(s), [s[i]] + Sort(rest));
  }

  lemma OneOut(s: seq<Bytes>, i: nat)
    requires i < |s|
    ensures var rest := s[..i] + s[i + 1..];
            multiset(s) == multiset{s[i]} + multiset(rest) && forall x :: x in rest ==> x in s
  {
    assert s == s[..i] + [s[i]] + s[i + 1..];
  }

  lemma LeastBehind(x: Bytes, s: seq<Bytes>)
    requires Sorted(s) && forall y :: y in s ==> Leq(x, y)
    ensures Sorted([x] + s) && multiset([x] + s) == multiset{x} + multiset(s)
  {}

  // That arrangement.
  ghost function Arranged(s: seq<Bytes>): (r: seq<Bytes>)
    ensures Sorted(r) && multiset(r) == multiset(s)
    ensures |r| == |s|
    ensures forall x :: x in r <==> x in s
  {
    assert Sorted(Sort(s)) && multiset(Sort(s)) == multiset(s);
    var r :| Sorted(r) && multiset(r) == multiset(s);
    assert |r| == |multiset(r)| == |s|;
    assert forall x :: x in r <==> x in multiset(r);
    assert forall x :: x in s <==> x in multiset(s);
    r
  }

  lemma SortArranges(s: seq<Bytes>)
    ensures Sort(s) == Arranged(s)
  {
    SortedUnique(Sort(s), Arranged(s));
  }

  // ---------------------------------------------------------------------
  // Text
  // ---------------------------------------------------------------------

  function Ascii(s: string): (b: Bytes)
    requires forall i :: 0 <= i < |s| ==> s[i] as int < 128
    ensures |b| == |s|
  {
    seq(|s|, i requires 0 <= i < |s| => s[i] as int as byte)
  }

  // The character of one hexadecimal digit.
  function HexDigit(n: int): byte
    requires 0 <= n < 16
  {
    if n < 10 then (48 + n) as byte else (87 + n) as byte
  }

  // Python's `bytes.hex()`.
  function Hex(b: Bytes): (r: Bytes)
    ensures |r| == 2 * |b|
  {
    if |b| == 0 then []
    else [HexDigit(b[0] as int / 16), HexDigit(b[0] as int % 16)] + Hex(b[1..])
  }

  // Reading lower-case hexadecimal text.

  predicate IsHexDigit(c: byte)
  {
    '0' as int <= c as int <= '9' as int || 'a' as int <= c as int <= 'f' as int
  }

  ghost predicate IsHex(t: Bytes)
  {
    |t| % 2 == 0 && forall i :: 0 <= i < |t| ==> IsHexDigit(t[i])
  }

  function HexValue(c: byte): (n: int)
    requires IsHexDigit(c)
    ensures 0 <= n < 16
  {
    if c as int <= '9' as int then c as int - '0' as int else c as int - 'a' as int + 10
  }

  function Unhex(t: Bytes): (b: Bytes)
    requires IsHex(t)
    ensures 2 * |b| == |t|
  {
    if |t| == 0 then []
    else [(16 * HexValue(t[0]) + HexValue(t[1])) as byte] + Unhex(t[2..])
  }

  // Hex writes lower-case digits, the high half of a byte first, and reading
  // them gives the bytes back.
  lemma {:induction false} HexThenUnhex(b: Bytes)
    ensures IsHex(Hex(b)) && Unhex(Hex(b)) == b
  {
    if |b| > 0 {
      HexThenUnhex(b[1..]);
      assert Hex(b)[2..] == Hex(b[1..]);
      assert b == [b[0]] + b[1..];
    }
  }

  // Every such text is the hexadecimal text of the bytes that it reads as.
  lemma {:induction false} UnhexThenHex(t: Bytes)
    requires IsHex(t)
    ensures Hex(Unhex(t)) == t
  {
    if |t| > 0 {
      UnhexThenHex(t[2..]);
      var high, low := HexValue(t[0]), HexValue(t[1]);
      HexDigitOfValue(t[0]);
      HexDigitOfValue(t[1]);
      hide HexDigit, HexValue;
      assert (16 * high + low) / 16 == high && (16 * high + low) % 16 == low;
      assert t == [t[0], t[1]] + t[2..];
    }
  }

  lemma HexDigitOfValue(c: byte)
    requires IsHexDigit(c)
    ensures HexDigit(HexValue(c)) == c
  {}

  lemma HexInjective(a: Bytes, b: Bytes)
    requires Hex(a) == Hex(b)
    ensures a == b
  {
    HexThenUnhex(a);
    HexThenUnhex(b);
  }
}
