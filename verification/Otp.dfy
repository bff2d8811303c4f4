// One-time codes: a drawn number, printed with leading zeros to a fixed width.
module Otp {
  import opened Ids

  function Pow10(n: nat): (p: nat)
    ensures p >= 1
  {
    if n == 0 then 1 else 10 * Pow10(n - 1)
  }

  predicate IsDigit(c: char)
  {
    '0' <= c <= '9'
  }

  function Digit(d: nat): (c: char)
    requires d < 10
    ensures IsDigit(c)
  {
    '0' + d as char
  }

  function DigitValue(c: char): (d: nat)
    requires IsDigit(c)
    ensures d < 10
  {
    (c - '0') as nat
  }

  // ^\d{n}$, for the ASCII digits
  ghost predicate IsCode(s: string, n: nat)
  {
    |s| == n && forall i :: 0 <= i < |s| ==> IsDigit(s[i])
  }

  // str(n): decimal digits, no leading zero but for 0 itself.
  function Decimal(n: nat): (s: string)
    ensures |s| >= 1 && IsCode(s, |s|)
  {
    if n < 10 then [Digit(n)] else Decimal(n / 10) + [Digit(n % 10)]
  }

  function Zeros(n: nat): (s: string)
    ensures IsCode(s, n)
  {
    seq(n, _ => '0')
  }

  // Pad with zeros on the left up to the width.
  function Padded(n: nat, length: nat): string
  {
    var s := Decimal(n);
    if |s| >= length then s else Zeros(length - |s|) + s
  }

  // int(s)
  function Parse(s: string): nat
    requires IsCode(s, |s|)
  {
    if |s| == 0 then 0 else 10 * Parse(s[..|s| - 1]) + DigitValue(s[|s| - 1])
  }

  datatype Generated = Code(code: string) | ValueError

  // generate_otp, for the number that randbelow(10**length) drew.
  function GenerateOtp(length: int, drawn: nat): Generated
    requires 4 <= length <= 10 ==> drawn < Pow10(length)
  {
    if 4 <= length <= 10 then Code(Padded(drawn, length)) else ValueError
  }

  // ---------------------------------------------------------------------
  // Printing and parsing are inverse
  // ---------------------------------------------------------------------

  // A number below 10^length has at most that many digits.
  lemma {:induction false} DecimalLength(n: nat, length: nat)
    requires length >= 1 && n < Pow10(length)
    ensures |Decimal(n)| <= length
  {
    if n >= 10 {
      assert n < 10 * Pow10(length - 1);
      assert length > 1;
      DecimalLength(n / 10, length - 1);
    }
  }

  lemma {:induction false} ParseDecimal(n: nat)
    ensures Parse(Decimal(n)) == n
  {
    if n < 10 {
      assert Decimal(n)[..0] == "";
    } else {
      ParseDecimal(n / 10);
      assert Decimal(n)[..|Decimal(n)| - 1] == Decimal(n / 10);
    }
  }

  lemma {:induction false} ParseIgnoresZeros(k: nat, s: string)
    requires IsCode(s, |s|)
    ensures IsCode(Zeros(k) + s, k + |s|)
    ensures Parse(Zeros(k) + s) == Parse(s)
    decreases |s|, k
  {
    var z := Zeros(k) + s;
    if |s| > 0 {
      assert z[..|z| - 1] == Zeros(k) + s[..|s| - 1];
      ParseIgnoresZeros(k, s[..|s| - 1]);
    } else if k > 0 {
      assert z[..|z| - 1] == Zeros(k - 1) + s;
      ParseIgnoresZeros(k - 1, s);
    }
  }

  lemma {:induction false} ParseBelow(s: string)
    requires IsCode(s, |s|)
    ensures Parse(s) < Pow10(|s|)
  {
    if |s| > 0 {
      ParseBelow(s[..|s| - 1]);
    }
  }

  // Two digit strings of one length that parse alike are the same.
  lemma {:induction false} ParseInjective(s: string, t: string)
    requires IsCode(s, |s|) && IsCode(t, |s|) && Parse(s) == Parse(t)
    ensures s == t
    decreases |s|
  {
    if |s| > 0 {
      var a, b := s[|s| - 1], t[|t| - 1];
      var x, y := Parse(s[..|s| - 1]), Parse(t[..|t| - 1]);
      assert 10 * x + DigitValue(a) == 10 * y + DigitValue(b);
      LastDigitUnique(x, DigitValue(a), y, DigitValue(b));
      hide Parse;
      ParseInjective(s[..|s| - 1], t[..|t| - 1]);
      assert s == s[..|s| - 1] + [a] && t == t[..|t| - 1] + [b];
    }
  }

  lemma LastDigitUnique(x: nat, a: nat, y: nat, b: nat)
    requires a < 10 && b < 10 && 10 * x + a == 10 * y + b
    ensures x == y && a == b
  {}

  // Every drawn number prints to exactly `length` digits, and parsing them
  // gives the number back.
  lemma PrintThenParse(n: nat, length: nat)
    requires length >= 1 && n < Pow10(length)
    ensures IsCode(Padded(n, length), length)
    ensures Parse(Padded(n, length)) == n
  {
    hide Decimal, Parse, Pow10, Zeros;
    DecimalLength(n, length);
    ParseDecimal(n);
    ParseIgnoresZeros(length - |Decimal(n)|, Decimal(n));
    assert Zeros(0) + Decimal(n) == Decimal(n);
    assert Padded(n, length) == Zeros(length - |Decimal(n)|) + Decimal(n);
  }

  // Every code of `length` digits is printed from exactly the number it parses to.
  lemma ParseThenPrint(s: string)
    requires |s| >= 1 && IsCode(s, |s|)
    ensures Parse(s) < Pow10(|s|) && Padded(Parse(s), |s|) == s
  {
    ParseBelow(s);
    PrintThenParse(Parse(s), |s|);
    ParseInjective(Padded(Parse(s), |s|), s);
  }

  // Character by character: the k-th from the right is the digit of 10^k.
  lemma PaddedDigits(n: nat, length: nat, k: nat)
    requires length >= 1 && n < Pow10(length) && k < length
    ensures |Padded(n, length)| == length
    ensures Padded(n, length)[length - 1 - k] == "0123456789"[(n / Pow10(k)) % 10]
  {
    PrintThenParse(n, length);
    ParsedDigit(Padded(n, length), k);
  }

  lemma {:induction false} ParsedDigit(s: string, k: nat)
    requires IsCode(s, |s|) && k < |s|
    ensures s[|s| - 1 - k] == "0123456789"[(Parse(s) / Pow10(k)) % 10]
  {
    var rest, last := s[..|s| - 1], s[|s| - 1];
    assert Parse(s) == 10 * Parse(rest) + DigitValue(last);
    if k == 0 {
      assert Parse(s) / Pow10(0) == Parse(s);
    } else {
      ParsedDigit(rest, k - 1);
      DropDigit(Parse(rest), DigitValue(last), Pow10(k - 1));
    }
  }

  lemma DropDigit(n: nat, d: nat, p: nat)
    requires d < 10 && p >= 1
    ensures (10 * n + d) / (10 * p) == n / p
  {
    var q, r := n / p, n % p;
    assert n == q * p + r;
    assert 10 * n + d == q * (10 * p) + (10 * r + d);
    assert 0 <= 10 * r + d < 10 * p;
    QuotientIs(10 * n + d, 10 * p, q, 10 * r + d);
  }

  lemma QuotientIs(n: nat, m: nat, q: nat, r: nat)
    requires m >= 1 && n == q * m + r && r < m
    ensures n / m == q
  {
    var e := n / m - q;
    assert n == (n / m) * m + n % m;
    assert e * m == r - n % m;
    if e != 0 {
      NonZeroMultiple(e, m);
    }
  }

  lemma NonZeroMultiple(e: int, m: int)
    requires e != 0 && m >= 1
    ensures e * m >= m || e * m <= -m
  {
    if e >= 1 {
      AtLeast(e, m);
    } else {
      AtLeast(-e, m);
      assert (-e) * m == -(e * m);
    }
  }

  lemma AtLeast(e: nat, m: nat)
    requires e >= 1
    ensures e * m >= m
  {}

  // So for each length generate_otp is a bijection from the numbers randbelow
  // can draw to the codes of that length; other lengths it refuses.

  lemma OtherLengthsAreRefused(length: int, n: nat)
    requires 4 <= length <= 10 ==> n < Pow10(length)
    ensures GenerateOtp(length, n) == ValueError <==> !(4 <= length <= 10)
  {}

  lemma GenerateOtpIsBijection(length: int)
    requires 4 <= length <= 10
    ensures forall n: nat :: n < Pow10(length) ==>
              GenerateOtp(length, n).Code? && IsCode(GenerateOtp(length, n).code, length)
    ensures forall m: nat, n: nat ::
              (m < Pow10(length) && n < Pow10(length) && GenerateOtp(length, m) == GenerateOtp(length, n)) ==> m == n
    ensures forall s: string :: IsCode(s, length) ==>
              Parse(s) < Pow10(length) && GenerateOtp(length, Parse(s)) == Code(s)
  {
    forall n: nat | n < Pow10(length)
      ensures IsCode(GenerateOtp(length, n).code, length) && Parse(GenerateOtp(length, n).code) == n
    {
      PrintThenParse(n, length);
    }
    forall s: string | IsCode(s, length)
      ensures Parse(s) < Pow10(length) && GenerateOtp(length, Parse(s)) == Code(s)
    {
      ParseThenPrint(s);
    }
  }
}
