/** Decimal digits and rounding to them. */
module Decimals {
  import opened U32
  import opened BigNum
  import Arith

  /** The number a row of digits stands for, most significant first. */
  function Decimal(s: seq<nat>): nat {
    if |s| == 0 then 0 else 10 * Decimal(s[..|s| - 1]) + s[|s| - 1]
  }

  /** `a / b` to the nearest integer, ties to the even one. */
  function RoundHalfEven(a: nat, b: nat): nat
    requires b > 0
  {
    if 2 * (a % b) > b || (2 * (a % b) == b && a / b % 2 == 1) then a / b + 1 else a / b
  }

  /** `q` is an integer nearest to `a / b`, and even if there are two. */
  ghost predicate IsNearest(q: int, a: int, b: int) {
    && -b <= 2 * (q * b - a) <= b
    && ((2 * (q * b - a) == b || 2 * (q * b - a) == -b) ==> q % 2 == 0)
  }

  /** Rounding is what the standard calls roundTiesToEven, and only that. */
  lemma RoundingIsNearest(a: nat, b: nat, q: int)
    requires b > 0
    ensures IsNearest(q, a, b) <==> q == RoundHalfEven(a, b)
  {
    var d, r := a / b, a % b;
    assert a == d * b + r;
    var k := q - d;
    assert q * b - a == k * b - r;
    if k >= 2 {
      Monotone(2, k, b);
    } else if k <= -1 {
      Monotone(1, -k, b);
    }
  }

  /** What rounds to `t` or more: from halfway below it, and that itself when `t` is
      even. */
  lemma RoundsToAtLeast(a: nat, b: nat, t: nat)
    requires b > 0 && t > 0
    ensures t <= RoundHalfEven(a, b) <==> (2 * t - 1) * b < 2 * a || ((2 * t - 1) * b == 2 * a && t % 2 == 0)
  {
    var q, r := a / b, a % b;
    assert a == q * b + r;
    var k := q + 1 - t;
    assert 2 * a - (2 * t - 1) * b == 2 * (k * b) - b + 2 * r;
    if k >= 1 {
      Monotone(1, k, b);
    } else if k <= -1 {
      Monotone(1, -k, b);
    }
  }

  // ---------------------------------------------------------------- digits

  ghost predicate AllDigits(s: seq<nat>) {
    forall i :: 0 <= i < |s| ==> s[i] < 10
  }

  lemma {:induction false} DecimalUpdate(s: seq<nat>, i: nat, d: nat)
    requires i < |s|
    ensures Decimal(s[i := d]) == Decimal(s) + (d - s[i]) * Power(10, |s| - 1 - i)
  {
    var n := |s| - 1;
    if i == n {
      assert s[i := d][..n] == s[..n];
      assert Power(10, 0) == 1;
    } else {
      DecimalUpdate(s[..n], i, d);
      assert s[i := d][..n] == s[..n][i := d];
      var x, p := d - s[i], Power(10, n - 1 - i);
      assert x * (10 * p) == 10 * (x * p);
    }
  }

  lemma DecimalPrefix(s: seq<nat>, i: nat)
    requires i < |s|
    ensures Decimal(s[..i + 1]) == 10 * Decimal(s[..i]) + s[i]
  {
    assert s[..i + 1][..i] == s[..i];
  }

  lemma DecimalPush(s: seq<nat>, d: nat)
    ensures Decimal(s + [d]) == 10 * Decimal(s) + d
    ensures AllDigits(s) && d < 10 ==> AllDigits(s + [d])
  {
    assert (s + [d])[..|s|] == s;
  }

  lemma {:induction false} DecimalBounds(s: seq<nat>)
    requires AllDigits(s)
    ensures Decimal(s) < Power(10, |s|)
    ensures |s| > 0 ==> (s[0] > 0 <==> Decimal(s) >= Power(10, |s| - 1))
  {
    if |s| == 1 {
      assert s[..0] == [] && Power(10, 0) == 1;
    } else if |s| > 1 {
      DecimalBounds(s[..|s| - 1]);
    }
  }

  /** Moving a ten one place up changes nothing. */
  lemma CarryDigit(s: seq<nat>, i: nat)
    requires 0 < i < |s| && s[i] == 10
    ensures Decimal(s[i := 0][i - 1 := s[i - 1] + 1]) == Decimal(s)
  {
    DecimalUpdate(s, i, 0);
    DecimalUpdate(s[i := 0], i - 1, s[i - 1] + 1);
    assert Power(10, |s| - i) == 10 * Power(10, |s| - 1 - i);
  }

  lemma {:induction false} TenThenZeros(s: seq<nat>)
    requires |s| > 0 && forall x :: 0 < x < |s| ==> s[x] == 0
    ensures Decimal(s) == s[0] * Power(10, |s| - 1)
  {
    if |s| == 1 {
      assert s[..0] == [] && Power(10, 0) == 1;
    } else {
      TenThenZeros(s[..|s| - 1]);
      var x, p := s[0], Power(10, |s| - 2);
      assert x * (10 * p) == 10 * (x * p);
    }
  }

  lemma Tens(k: nat)
    ensures Power(10, 0) == 1 && Power(10, 1) == 10 && Power(10, k + 1) == 10 * Power(10, k)
  {
  }

  // -------------------------------------------------- the value f * 2^e

  function Pos(x: int): nat {
    if x >= 0 then x else 0
  }

  /** `f * 2^e` in units of `10^p`, as a fraction: the numerator. */
  function ScaledNum(f: nat, e: int, p: int): nat {
    f * Power(2, Pos(e)) * Power(10, Pos(-p))
  }

  /** And the denominator. */
  function ScaledDen(e: int, p: int): (d: nat)
    ensures d > 0
  {
    MulPositive(Power(2, Pos(-e)), Power(10, Pos(p)));
    Power(2, Pos(-e)) * Power(10, Pos(p))
  }

  lemma MulPositive(a: int, b: int)
    requires a > 0 && b > 0
    ensures a * b > 0
  {
  }

  /** A unit ten times smaller. */
  lemma SmallerUnit(f: nat, e: int, p: int)
    ensures ScaledNum(f, e, p - 1) * ScaledDen(e, p) == 10 * ScaledNum(f, e, p) * ScaledDen(e, p - 1)
  {
    var x, y := f * Power(2, Pos(e)), Power(2, Pos(-e));
    if p >= 1 {
      var t := Power(10, p - 1);
      assert ScaledDen(e, p) == y * (10 * t) && ScaledDen(e, p - 1) == y * t;
      assert ScaledNum(f, e, p) == x * 1 && ScaledNum(f, e, p - 1) == x * 1;
      assert x * (y * (10 * t)) == 10 * x * (y * t);
    } else {
      var t := Power(10, -p);
      assert ScaledDen(e, p) == y * 1 && ScaledDen(e, p - 1) == y * 1;
      assert ScaledNum(f, e, p) == x * t && ScaledNum(f, e, p - 1) == x * (10 * t);
      assert x * (10 * t) == 10 * (x * t);
    }
  }

  /** Equal fractions stay equal when multiplied by ten and measured in a unit ten
      times smaller. */
  lemma SameRatio(n: nat, d: nat, f: nat, e: int, p: int)
    requires n * ScaledDen(e, p) == d * ScaledNum(f, e, p)
    ensures 10 * n * ScaledDen(e, p - 1) == d * ScaledNum(f, e, p - 1)
  {
    SmallerUnit(f, e, p);
    TenRatio(n, d, ScaledNum(f, e, p), ScaledDen(e, p), ScaledNum(f, e, p - 1), ScaledDen(e, p - 1));
  }

  lemma TenRatio(n: int, d: int, a: int, b: int, a': int, b': int)
    requires n * b == d * a && a' * b == 10 * a * b' && b > 0
    ensures 10 * n * b' == d * a'
  {
    assert 10 * n * b' * b == 10 * (n * b) * b' by { Arith.MulAssociative(10 * n, b', b); Arith.MulAssociative(10 * n, b, b'); }
    assert d * a' * b == d * (a' * b) by { Arith.MulAssociative(d, a', b); }
    assert d * (10 * a * b') == 10 * (d * a) * b' by {
      Arith.MulAssociative(d, 10 * a, b');
    }
    Cancel(10 * n * b', d * a', b);
  }

  lemma Cancel(x: int, y: int, b: int)
    requires b > 0 && x * b == y * b
    ensures x == y
  {
    assert (x - y) * b == 0;
    Arith.MulAtLeast(x - y, b);
  }

  lemma {:induction false} SameRatioPower(n: nat, d: nat, f: nat, e: int, p: int, k: nat)
    requires n * ScaledDen(e, p) == d * ScaledNum(f, e, p)
    ensures n * Power(10, k) * ScaledDen(e, p - k) == d * ScaledNum(f, e, p - k)
  {
    hide Power, ScaledNum, ScaledDen;
    Tens(0);
    if k > 0 {
      SameRatioPower(n, d, f, e, p, k - 1);
      SameRatio(n * Power(10, k - 1), d, f, e, p - (k - 1));
      Tens(k - 1);
      var x, y := n * Power(10, k - 1), n * Power(10, k);
      assert y == 10 * x;
    }
  }

  /** Rounding depends only on the ratio. */
  lemma RatioRounds(a: nat, b: nat, c: nat, d: nat)
    requires b > 0 && d > 0 && a * d == b * c
    ensures RoundHalfEven(a, b) == RoundHalfEven(c, d)
  {
    var q := RoundHalfEven(a, b);
    RoundingIsNearest(a, b, q);
    NearestRatio(q, a, b, c, d);
    RoundingIsNearest(c, d, q);
  }

  lemma NearestRatio(q: int, a: int, b: int, c: int, d: int)
    requires b > 0 && d > 0 && a * d == b * c && IsNearest(q, a, b)
    ensures IsNearest(q, c, d)
  {
    var x, y := 2 * (q * b - a), 2 * (q * d - c);
    assert x * d == 2 * (q * b * d) - 2 * (a * d);
    assert y * b == 2 * (q * d * b) - 2 * (c * b);
    assert q * b * d == q * d * b by { Arith.MulAssociative(q, b, d); Arith.MulAssociative(q, d, b); }
    assert x * d == y * b;
    CompareScaled(x, y, b, d);
  }

  lemma CompareScaled(x: int, y: int, b: int, d: int)
    requires b > 0 && d > 0 && x * d == y * b && -b <= x <= b
    ensures -d <= y <= d && (y == d ==> x == b) && (y == -d ==> x == -b)
  {
    assert (b - x) * d == (d - y) * b && (b + x) * d == (d + y) * b;
    SignScaled(b - x, d - y, d, b);
    SignScaled(b + x, d + y, d, b);
  }

  lemma SignScaled(x: int, y: int, p: int, q: int)
    requires p > 0 && q > 0 && x * p == y * q && x >= 0
    ensures y >= 0 && (y == 0 ==> x == 0)
  {
    Arith.MulAtLeast(x, p);
    Arith.MulAtLeast(y, q);
  }
}
