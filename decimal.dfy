/** Decimal digit arithmetic: the value of a digit string, the digits of a number
    and its exact digit count (which replaces `floor(log10(n)) + 1` on floats). */
module Decimal {

  type Digit = d: nat | d < 10

  function Pow10(k: nat): (p: nat)
    ensures p >= 1
  {
    if k == 0 then 1 else 10 * Pow10(k - 1)
  }

  lemma {:induction false} Pow10Add(a: nat, b: nat)
    ensures Pow10(a + b) == Pow10(a) * Pow10(b)
  {
    if b > 0 {
      var x, y := Pow10(a), Pow10(b - 1);
      calc {
        Pow10(a + b);
        10 * Pow10(a + (b - 1));
        { Pow10Add(a, b - 1); }
        10 * (x * y);
        { MulTen(x, y); }
        x * (10 * y);
      }
    }
  }

  lemma MulTen(x: int, y: int)
    ensures 10 * (x * y) == x * (10 * y)
  {}

  lemma {:induction false} Pow10Monotone(a: nat, b: nat)
    ensures a < b <==> Pow10(a) < Pow10(b)
  {
    if a < b {
      var x, y := Pow10(a), Pow10(b - a);
      Pow10Add(a, b - a);
      assert y >= 10 by { assert y == 10 * Pow10(b - a - 1); }
      MulAtLeast(y, x);
    } else {
      var x, y := Pow10(b), Pow10(a - b);
      Pow10Add(b, a - b);
      MulAtLeast(y, x);
    }
  }

  /** The number written by the digits `ds`, most significant digit first. */
  function Num(ds: seq<Digit>): (n: nat)
    decreases |ds|
  {
    if ds == [] then 0 else 10 * Num(ds[..|ds| - 1]) + ds[|ds| - 1]
  }

  /** A number written with k digits is below 10^k. */
  lemma {:induction false} NumBound(ds: seq<Digit>)
    ensures Num(ds) < Pow10(|ds|)
  {
    if ds != [] {
      NumBound(ds[..|ds| - 1]);
    }
  }

  /** Writing `b` after `a` shifts `a` by |b| places. */
  lemma {:induction false} NumAppend(a: seq<Digit>, b: seq<Digit>)
    ensures Num(a + b) == Num(a) * Pow10(|b|) + Num(b)
    decreases |b|
  {
    if b == [] {
      assert a + b == a;
    } else {
      var b' := b[..|b| - 1];
      assert (a + b)[..|a + b| - 1] == a + b';
      NumAppend(a, b');
      assert Num(a + b) == 10 * Num(a + b') + b[|b| - 1];
      ShiftDigit(Num(a), Pow10(|b'|), Num(b'), b[|b| - 1]);
    }
  }

  lemma ShiftDigit(x: nat, p: nat, y: nat, last: nat)
    ensures 10 * (x * p + y) + last == x * (10 * p) + (10 * y + last)
  {}

  /** A digit string whose leading digit is not zero has exactly its length in digits. */
  lemma NumLowerBound(ds: seq<Digit>)
    requires ds != [] && ds[0] != 0
    ensures Pow10(|ds| - 1) <= Num(ds)
  {
    NumAppend([ds[0]], ds[1..]);
    assert [ds[0]] + ds[1..] == ds;
    assert Num([ds[0]]) == ds[0] by { assert [ds[0]][..0] == []; }
  }

  /** Two digit strings of the same length write the same number only if they are equal. */
  lemma {:induction false} NumInjective(a: seq<Digit>, b: seq<Digit>)
    requires |a| == |b| && Num(a) == Num(b)
    ensures a == b
  {
    if a != [] {
      var a', b' := a[..|a| - 1], b[..|b| - 1];
      DivModUnique(Num(a), Num(a'), a[|a| - 1], 10);
      DivModUnique(Num(b), Num(b'), b[|b| - 1], 10);
      NumInjective(a', b');
      assert a == a' + [a[|a| - 1]] && b == b' + [b[|b| - 1]];
    }
  }

  lemma MulAtLeast(a: int, d: int)
    requires a >= 1 && d > 0
    ensures a * d >= d
  {}

  lemma MulDistrib(a: int, b: int, d: int)
    ensures (a - b) * d == a * d - b * d
  {}

  /** Euclidean division is determined by its quotient and remainder. */
  lemma DivModUnique(n: int, q: int, r: int, d: int)
    requires d > 0 && 0 <= r < d && n == q * d + r
    ensures n / d == q && n % d == r
  {
    var q', r' := n / d, n % d;
    assert q' * d + r' == n;
    if q' > q {
      MulAtLeast(q' - q, d);
      MulDistrib(q', q, d);
    } else if q' < q {
      MulAtLeast(q - q', d);
      MulDistrib(q, q', d);
    }
  }

  /** The decimal digits of n, most significant first and without leading zeros
      (the digits of 0 are [0]). */
  function Digits(n: nat): (ds: seq<Digit>)
    ensures ds != []
    ensures n > 0 ==> ds[0] != 0
    decreases n
  {
    if n < 10 then [n] else Digits(n / 10) + [n % 10]
  }

  /** Exact digit count; `floor(log10(n)) + 1` for n >= 1, and 1 for n == 0. */
  function NumDigits(n: nat): (d: nat)
  {
    |Digits(n)|
  }

  /** `Digits` and `Num` are inverse, and the digit count is the k with
      10^(k-1) <= n < 10^k. */
  lemma {:induction false} NumDigitsOf(n: nat)
    ensures Num(Digits(n)) == n
    ensures NumDigits(n) >= 1
    ensures n < Pow10(NumDigits(n))
    ensures n > 0 ==> Pow10(NumDigits(n) - 1) <= n
    decreases n
  {
    if n < 10 {
      assert Num([n]) == n by { assert [n][..0] == []; }
    } else {
      var ds := Digits(n);
      NumDigitsOf(n / 10);
      assert ds[..|ds| - 1] == Digits(n / 10);
      NumBound(ds);
      NumLowerBound(ds);
    }
  }

  /** A number with k digits is below 10^k; conversely a number in
      [10^(k-1), 10^k) has exactly k digits. */
  lemma NumDigitsUnique(n: nat, k: nat)
    requires k >= 1 && Pow10(k - 1) <= n < Pow10(k)
    ensures NumDigits(n) == k
  {
    NumDigitsOf(n);
    var d := NumDigits(n);
    if d < k {
      Pow10Monotone(d, k - 1);
    } else if d > k {
      Pow10Monotone(k, d - 1);
    }
  }

  /** 10^k is written with k + 1 digits. */
  lemma NumDigitsPow10(k: nat)
    ensures NumDigits(Pow10(k)) == k + 1
  {
    Pow10Monotone(k, k + 1);
    NumDigitsUnique(Pow10(k), k + 1);
  }

  /** Splitting the digits of a number at any point is division and remainder
      by the matching power of ten. */
  lemma SplitDigits(ds: seq<Digit>, j: nat)
    requires j <= |ds|
    ensures Num(ds) / Pow10(j) == Num(ds[..|ds| - j])
    ensures Num(ds) % Pow10(j) == Num(ds[|ds| - j..])
  {
    var a, b := ds[..|ds| - j], ds[|ds| - j..];
    assert a + b == ds;
    NumAppend(a, b);
    NumBound(b);
    DivModUnique(Num(ds), Num(a), Num(b), Pow10(j));
  }
}
