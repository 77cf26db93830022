/**
 `format_dragon` as a whole: from significand and exponent to decimal digits.
 */
module FormatDragon {
  import opened U32
  import opened Bits
  import opened BigNum
  import opened Bigints
  import opened Decimals
  import opened DragonFixed
  import opened DragonShortest
  import Arith

  /** The estimate of the decimal exponent is not too small for shortest digits: the
      upper boundary of the value is at most ten units, and less when it is even. */
  ghost predicate NotTooSmall(f: nat, e: int, exp10: int) {
    Sign(2 * ScaledNum(f, e, exp10) + ScaledNum(1, e, exp10) - 20 * ScaledDen(e, exp10)) + Even(f) <= 0
  }

  /** The estimate is one too large: even the upper boundary of the value does not
      reach one unit. */
  ghost predicate TooLarge(f: nat, e: int, exp10: int) {
    Sign(2 * ScaledNum(f, e, exp10) + ScaledNum(1, e, exp10) - 2 * ScaledDen(e, exp10)) + Even(f) <= 0
  }

  function Even(f: nat): int {
    if f % 2 == 0 then 1 else 0
  }

  /** What a value needs besides: the bigits' exponents are in order, or it is no power
      of ten, which alone could be hurt. */
  ghost predicate ExponentsInOrder(f: nat, e: int, exp10: int, closer: bool) {
    || NumeratorExp(e, exp10, closer) <= DenominatorExp(e, exp10, closer)
    || forall j: nat :: ScaledNum(f, e, exp10) * Power(10, j) != ScaledDen(e, exp10)
  }

  /** For shortest digits the distance to the midpoint takes part too. */
  ghost predicate LowerInOrder(e: int, exp10: int, closer: bool) {
    || NumeratorExp(e, exp10, closer) <= LowerExp(e, exp10)
    || DenominatorExp(e, exp10, closer) <= LowerExp(e, exp10)
  }

  /** The value is below ten units. */
  ghost predicate InRange(f: nat, e: int, exp10: int) {
    ScaledNum(f, e, exp10) < 10 * ScaledDen(e, exp10)
  }

  ghost predicate Supported(f: nat, e: int, exp10: int, closer: bool) {
    && 0 < f < MODULUS * MODULUS * MODULUS * MODULUS && -0x4000_0000 < exp10 < 0x4000_0000
    && InRange(f, e, exp10) && ExponentsInOrder(f, e, exp10, closer)
  }

  /** What shortest digits need besides. */
  ghost predicate ShortestSupported(f: nat, e: int, exp10: int, closer: bool) {
    NotTooSmall(f, e, exp10) && LowerInOrder(e, exp10, closer)
  }

  lemma SignOfExponent(f: nat, e: int, exp10: int)
    requires f > 0 && InRange(f, e, exp10)
    ensures e >= 0 ==> exp10 >= 0
  {
    if e >= 0 && exp10 < 0 {
      assert Power(2, 0) == 1 && Power(10, 0) == 1;
      Positive(2, e);
      MulPositive(f, Power(2, e));
      PowerMore(10, 1, -exp10);
      assert Power(10, 1) == 10;
      hide Power;
      Arith.MulAtLeast(f * Power(2, e), Power(10, -exp10));
    }
  }

  // ------------------------------------------------- 64 bits are supported

  lemma {:induction false} PowerOfFiveOdd(k: nat)
    ensures Power(5, k) % 2 == 1
  {
    if k > 0 {
      PowerOfFiveOdd(k - 1);
      FiveTimesOdd(Power(5, k - 1));
    }
  }

  lemma FiveTimesOdd(x: int)
    requires x % 2 == 1
    ensures 5 * x % 2 == 1
  {
  }

  /** A value with a large binary exponent and a significand of 64 bits is no power
      of ten. */
  lemma NoPowerOfTen(f: nat, e: nat, k: nat)
    requires 0 < f < 0x1_0000_0000_0000_0000 && e >= 30
    ensures f * Power(2, e) != Power(10, k)
  {
    hide Power;
    PowerOfProduct(5, 2, k);
    if f * Power(2, e) == Power(10, k) {
      if k < e {
        PowerSum(2, e - k, k);
        PowerSum(2, 1, e - k - 1);
        Two();
        var x := Power(2, e - k - 1);
        assert f * (2 * x * Power(2, k)) == 2 * (f * x) * Power(2, k) by { Reorder(f, x, Power(2, k)); }
        Positive(2, k);
        Cancel(2 * (f * x), Power(5, k), Power(2, k));
        PowerOfFiveOdd(k);
        assert false;
      } else {
        PowerSum(2, k - e, e);
        Positive(2, e);
        Arith.MulAssociative(Power(5, k), Power(2, k - e), Power(2, e));
        Cancel(f, Power(5, k) * Power(2, k - e), Power(2, e));
        Positive(2, k - e);
        Arith.MulAtLeast(Power(2, k - e), Power(5, k));
        PowerMore(5, 30, k);
        FiveTo30();
        assert false;
      }
    }
  }

  lemma Reorder(f: int, x: int, p: int)
    ensures f * (2 * x * p) == 2 * (f * x) * p
  {
    Arith.MulAssociative(f, 2 * x, p);
  }

  lemma Two()
    ensures Power(2, 1) == 2
  {
    assert Power(2, 0) == 1;
  }

  lemma Positive(b: nat, k: nat)
    requires b >= 1
    ensures Power(b, k) >= 1
  {
  }

  lemma {:induction false} PowerMore(b: nat, j: nat, k: nat)
    requires b >= 1 && j <= k
    ensures Power(b, j) <= Power(b, k)
  {
    if j < k {
      PowerMore(b, j, k - 1);
      Monotone(1, b, Power(b, k - 1));
    }
  }

  lemma FiveTo30()
    ensures Power(5, 30) > 0x1_0000_0000_0000_0000
  {
    assert Power(5, 0) == 1 && Power(5, 1) == 5;
    PowerSum(5, 1, 1);
    PowerSum(5, 2, 2);
    PowerSum(5, 4, 4);
    PowerSum(5, 8, 8);
    PowerSum(5, 16, 8);
    PowerSum(5, 24, 4);
    PowerSum(5, 28, 2);
  }

  lemma SmallEstimate(f: nat, e: int, exp10: int)
    requires 0 < f && e < 0 && exp10 < 0 && InRange(f, e, exp10)
    ensures -exp10 <= -e
  {
    var m, k := -e, -exp10;
    Tens(0);
    assert ScaledNum(f, e, exp10) == f * Power(10, k) by { assert Power(2, 0) == 1; }
    assert ScaledDen(e, exp10) == Power(2, m);
    if k > m {
      PowerMore(10, m + 1, k);
      Tens(m);
      PowerOfProduct(5, 2, m);
      hide Power;
      Positive(5, m);
      Arith.MulAtLeast(Power(5, m), Power(2, m));
      Arith.MulAtLeast(f, Power(10, k));
    }
  }

  lemma LargeEstimate(f: nat, e: nat, exp10: nat)
    requires 0 < f < 0x1_0000_0000_0000_0000 && e >= 30
    requires ScaledDen(e, exp10) <= 10 * ScaledNum(f, e, exp10)
    ensures exp10 <= e
  {
    assert Power(2, 0) == 1 && Power(10, 0) == 1;
    assert ScaledNum(f, e, exp10) == f * Power(2, e) && ScaledDen(e, exp10) == Power(10, exp10);
    hide Power;
    if exp10 > e {
      PowerMore(10, e + 1, exp10);
      Tens(e);
      PowerOfProduct(5, 2, e);
      PowerMore(5, 30, e);
      FiveTo30();
      Positive(2, e);
      FewerTwos(f, Power(2, e), Power(5, e), Power(10, exp10));
    }
  }

  lemma FewerTwos(f: nat, p: nat, q: nat, t: nat)
    requires t <= 10 * (f * p) && t >= 10 * (q * p) && p >= 1
    ensures q <= f
  {
    if f < q {
      Monotone(f + 1, q, p);
    }
  }

  lemma NeverEqual(f: nat, e: nat, exp10: nat, j: nat)
    requires 0 < f < 0x1_0000_0000_0000_0000 && e >= 30
    ensures ScaledNum(f, e, exp10) * Power(10, j) != ScaledDen(e, exp10)
  {
    assert Power(2, 0) == 1 && Power(10, 0) == 1;
    var v := f * Power(2, e);
    assert ScaledNum(f, e, exp10) == v && ScaledDen(e, exp10) == Power(10, exp10);
    Positive(2, e);
    MulPositive(f, Power(2, e));
    Positive(10, j);
    hide Power, ScaledNum, ScaledDen;
    if j <= exp10 {
      PowerSum(10, exp10 - j, j);
      NoPowerOfTen(f, e, exp10 - j);
      if v * Power(10, j) == Power(10, exp10) {
        Cancel(v, Power(10, exp10 - j), Power(10, j));
      }
    } else {
      PowerMore(10, exp10 + 1, j);
      Tens(exp10);
      Positive(10, exp10);
      Arith.MulAtLeast(v, Power(10, j));
    }
  }

  /** For a significand of up to 64 bits, and an exponent that is exact or one too
      large, nothing else needs to be assumed. */
  lemma SixtyFourBitsAreSupported(f: nat, e: int, exp10: int, closer: bool)
    requires 0 < f < 0x1_0000_0000_0000_0000 && -0x4000_0000 < exp10 < 0x4000_0000
    requires InRange(f, e, exp10) && ScaledDen(e, exp10) <= 10 * ScaledNum(f, e, exp10)
    ensures Supported(f, e, exp10, closer) && LowerInOrder(e, exp10, closer)
  {
    hide InRange, ScaledNum, ScaledDen, Power;
    SignOfExponent(f, e, exp10);
    if e < 0 && exp10 < 0 {
      SmallEstimate(f, e, exp10);
    } else if e >= 30 {
      LargeEstimate(f, e, exp10);
      forall j: nat ensures ScaledNum(f, e, exp10) * Power(10, j) != ScaledDen(e, exp10) {
        NeverEqual(f, e, exp10, j);
      }
    }
  }

  lemma OneGap(f: nat, e: int, p: int)
    ensures ScaledNum(f, e, p) == f * ScaledNum(1, e, p)
  {
    Arith.MulAssociative(f, Power(2, Pos(e)), Power(10, Pos(-p)));
  }

  /** An estimate from the binary exponent alone, the power of ten at or next above the
      power of two below the value: it is exact or one too large, and not too small for
      shortest digits. The slack is more than its rounding needs. */
  lemma EstimateIsSupported(f: nat, e: int, exp10: int, closer: bool, low: nat)
    requires 0 < low <= f < 2 * low && f < 0x1_0000_0000_0000_0000 && -0x4000_0000 < exp10 < 0x4000_0000
    requires ScaledNum(low, e, exp10) <= 4 * ScaledDen(e, exp10) && ScaledDen(e, exp10) <= 10 * ScaledNum(low, e, exp10)
    ensures Supported(f, e, exp10, closer) && ShortestSupported(f, e, exp10, closer)
  {
    hide ScaledNum, ScaledDen, Supported, LowerInOrder;
    OneGap(f, e, exp10);
    OneGap(low, e, exp10);
    GapPositive(e, exp10);
    WithinOctave(f, low, ScaledNum(1, e, exp10), ScaledDen(e, exp10));
    SixtyFourBitsAreSupported(f, e, exp10, closer);
  }

  lemma WithinOctave(f: nat, low: nat, g: nat, d: nat)
    requires 0 < low <= f < 2 * low && g > 0 && low * g <= 4 * d && d <= 10 * (low * g)
    ensures f * g < 10 * d && d <= 10 * (f * g) && 2 * (f * g) + g < 20 * d
  {
    Monotone(low, f, g);
    Monotone(f + 1, 2 * low, g);
  }

  // ---------------------------------------------------------------- results

  /** How much closer the lower midpoint is, in halves of the gap. */
  function Closeness(closer: bool): nat {
    if closer then 4 else 2
  }

  /** `x * 10^p` lies between the midpoints of `f * 2^e` and its neighbours among the
      representable values, or on one that counts. */
  ghost predicate Reads(f: nat, e: int, closer: bool, ends: Ends, p: int, x: nat) {
    var a, b, gap := ScaledNum(f, e, p), ScaledDen(e, p), ScaledNum(1, e, p);
    && (Closeness(closer) * (a - x * b) < gap || (ends.lower && Closeness(closer) * (a - x * b) == gap))
    && (2 * (x * b - a) < gap || (ends.upper && 2 * (x * b - a) == gap))
  }

  /** `x * 10^p` read with ties to even is `f * 2^e`: both midpoints belong to an even
      significand and neither to an odd one. */
  ghost predicate ReadsBack(f: nat, e: int, closer: bool, p: int, x: nat) {
    Reads(f, e, closer, Ends(f % 2 == 0, f % 2 == 0), p, x)
  }

  /** `x * 10^p` is the lower midpoint. */
  ghost predicate OnLowerMidpoint(f: nat, e: int, closer: bool, p: int, x: nat) {
    Closeness(closer) * (ScaledNum(f, e, p) - x * ScaledDen(e, p)) == ScaledNum(1, e, p)
  }

  /** The midpoints that count for the program. */
  ghost function EndsFor(f: nat, e: int, exp10: int, closer: bool): Ends {
    var n, d := NumeratorExp(e, exp10, closer), DenominatorExp(e, exp10, closer);
    Ends(f % 2 == 0 && (if n <= d then n else d) == LowerExp(e, exp10), f % 2 == 0)
  }

  /** How far `x * 10^p` is from the value, in the scale of the fraction. */
  ghost function Distance(f: nat, e: int, p: int, x: nat): nat {
    Abs(x * ScaledDen(e, p) - ScaledNum(f, e, p))
  }

  /** The digits `buf` in units of `10^p` print the value in its shortest form: they
      lie in its interval, no number in any larger unit does, and no other in the
      same unit is nearer. */
  ghost predicate PrintsShortest(f: nat, e: int, closer: bool, ends: Ends, buf: seq<nat>, p: int) {
    && |buf| > 0 && AllDigits(buf)
    && Reads(f, e, closer, ends, p, Decimal(buf))
    && (forall k, x: nat | p < k :: !Reads(f, e, closer, ends, k, x))
    && (forall x: nat :: Reads(f, e, closer, ends, p, x) ==> Distance(f, e, p, Decimal(buf)) <= Distance(f, e, p, x))
  }

  /** The digits in units of `10^exp` are the value rounded to units of `10^p`. */
  ghost predicate PrintsRounded(f: nat, e: int, buf: seq<nat>, exp: int, p: int) {
    && AllDigits(buf) && exp >= p
    && Decimal(buf) * Power(10, exp - p) == RoundHalfEven(ScaledNum(f, e, p), ScaledDen(e, p))
  }

  /** The value, rounded to units of `10^p`, is at least `t` of them. */
  ghost predicate Reaches(f: nat, e: int, p: int, t: nat) {
    t <= RoundHalfEven(ScaledNum(f, e, p), ScaledDen(e, p))
  }

  /** So a value prints as many significant digits as asked for from half a unit
      below the power of ten of its exponent. */
  lemma ReachesExactly(f: nat, e: int, scale: int, digits: nat)
    requires digits > 0
    ensures var p, t := scale - (digits - 1), Power(10, digits - 1);
            var a, b := 2 * ScaledNum(f, e, p), (2 * t - 1) * ScaledDen(e, p);
            Reaches(f, e, p, t) <==> b < a || (b == a && digits > 1)
  {
    hide Power, ScaledNum, ScaledDen, RoundHalfEven;
    Positive(10, digits - 1);
    EvenTens(digits - 1);
    RoundsToAtLeast(ScaledNum(f, e, scale - (digits - 1)), ScaledDen(e, scale - (digits - 1)), Power(10, digits - 1));
  }

  lemma EvenTens(k: nat)
    ensures Power(10, k) % 2 == 0 <==> k > 0
  {
    if k > 0 {
      TenTimesEven(Power(10, k - 1));
    }
  }

  lemma TenTimesEven(x: int)
    ensures 10 * x % 2 == 0
  {
  }

  lemma SameSign(x: int, y: int, p: int, q: int)
    requires p > 0 && q > 0 && x * p == y * q
    ensures (x < 0 <==> y < 0) && (x <= 0 <==> y <= 0)
  {
    Arith.MulAtLeast(x, p);
    Arith.MulAtLeast(y, q);
  }

  /** A distance below a multiple, compared in two scales of the same fraction. */
  lemma BelowScale(n: int, d: int, l: int, a: int, b: int, g: int, x: int, c: int)
    requires n * b == d * a && c * l * b == d * g && b > 0 && d > 0 && c > 0
    ensures n - x * d < l <==> c * (a - x * b) < g
    ensures n - x * d <= l <==> c * (a - x * b) <= g
  {
    var s, t := n - x * d - l, c * (a - x * b) - g;
    assert s * b == d * a - x * d * b - l * b;
    assert c * (s * b) == c * (d * a) - c * (x * d * b) - c * l * b;
    assert t * d == c * (a - x * b) * d - g * d;
    assert c * (a - x * b) * d == c * (d * a) - c * (x * d * b) by { Spread(c, a, x, b, d); }
    assert s * b * c == t * d;
    Arith.MulAssociative(s, b, c);
    MulPositive(b, c);
    SameSign(s, t, b * c, d);
  }

  lemma Spread(c: int, a: int, x: int, b: int, d: int)
    ensures c * (a - x * b) * d == c * (d * a) - c * (x * d * b)
  {
    Arith.MulAssociative(c, a - x * b, d);
    assert (a - x * b) * d == d * a - x * b * d;
    Arith.MulAssociative(x, b, d);
    Arith.MulAssociative(x, d, b);
  }

  /** And above it: the same with signs reversed. */
  lemma AboveScale(n: int, d: int, u: int, a: int, b: int, g: int, x: int)
    requires n * b == d * a && 2 * u * b == d * g && b > 0 && d > 0
    ensures x * d - n < u <==> 2 * (x * b - a) < g
    ensures x * d - n <= u <==> 2 * (x * b - a) <= g
  {
    assert (-n) * b == d * (-a);
    assert -n - (-x) * d == x * d - n && -a - (-x) * b == x * b - a;
    BelowScale(-n, d, u, -a, b, g, -x, 2);
  }

  /** The fraction of `k` more digits, in the unit `p - k`. */
  lemma ScaledAt(n: nat, d: nat, l: nat, u: nat, f: nat, e: int, p: int, closer: bool, k: nat)
    requires ScaledValue(n, d, l, u, f, e, p, closer)
    ensures n * Power(10, k) * ScaledDen(e, p - k) == d * ScaledNum(f, e, p - k)
    ensures (if closer then 4 else 2) * (l * Power(10, k)) * ScaledDen(e, p - k) == d * ScaledNum(1, e, p - k)
    ensures 2 * (u * Power(10, k)) * ScaledDen(e, p - k) == d * ScaledNum(1, e, p - k)
  {
    hide Power, ScaledNum, ScaledDen;
    SameRatioPower(n, d, f, e, p, k);
    var c: nat := if closer then 4 else 2;
    SameRatioPower(c * l, d, 1, e, p, k);
    SameRatioPower(2 * u, d, 1, e, p, k);
    Arith.MulAssociative(c, l, Power(10, k));
    Arith.MulAssociative(2, u, Power(10, k));
  }

  /** What the two scales say about one candidate `x`. */
  lemma ReadsScale(n: nat, d: nat, l: nat, u: nat, f: nat, e: int, p: int, closer: bool, ends: Ends, k: nat, x: nat)
    requires ScaledValue(n, d, l, u, f, e, p, closer) && d > 0
    ensures Reads(f, e, closer, ends, p - k, x) <==> Inside(n, d, l, u, ends, k, x)
  {
    hide Power, ScaledNum, ScaledDen, ScaledValue;
    ScaledAt(n, d, l, u, f, e, p, closer, k);
    var a, b, g, t := ScaledNum(f, e, p - k), ScaledDen(e, p - k), ScaledNum(1, e, p - k), Power(10, k);
    BelowScale(n * t, d, l * t, a, b, g, x, Closeness(closer));
    AboveScale(n * t, d, u * t, a, b, g, x);
  }

  /** A number in some unit is also one in a unit ten times smaller. */
  lemma FinerUnit(f: nat, e: int, closer: bool, ends: Ends, p: int, x: nat)
    requires Reads(f, e, closer, ends, p, x)
    ensures Reads(f, e, closer, ends, p - 1, 10 * x)
  {
    hide ScaledNum, ScaledDen;
    SmallerUnit(f, e, p);
    SmallerUnit(1, e, p);
    FinerScale(ScaledNum(f, e, p), ScaledDen(e, p), ScaledNum(1, e, p),
               ScaledNum(f, e, p - 1), ScaledDen(e, p - 1), ScaledNum(1, e, p - 1), x, Closeness(closer));
  }

  lemma FinerScale(a: int, b: int, g: int, a': int, b': int, g': int, x: int, c: int)
    requires a' * b == 10 * a * b' && g' * b == 10 * g * b' && b > 0 && b' > 0
    ensures c * (a - x * b) < g <==> c * (a' - 10 * x * b') < g'
    ensures c * (a - x * b) == g <==> c * (a' - 10 * x * b') == g'
    ensures 2 * (x * b - a) < g <==> 2 * (10 * x * b' - a') < g'
    ensures 2 * (x * b - a) == g <==> 2 * (10 * x * b' - a') == g'
  {
    var s, s' := a - x * b, a' - 10 * x * b';
    assert s' * b == s * (10 * b') by {
      assert s' * b == 10 * a * b' - 10 * x * b' * b;
      assert s * (10 * b') == 10 * a * b' - x * b * (10 * b');
      Swap(10 * x, b', b);
      Arith.MulAssociative(x * b, 10, b');
    }
    FinerGap(s, s', g, g', b, 10 * b', c);
    FinerGap(s, s', g, g', b, 10 * b', -2);
  }

  lemma FinerGap(s: int, s': int, g: int, g': int, b: int, t: int, c: int)
    requires s' * b == s * t && g' * b == g * t && b > 0 && t > 0
    ensures c * s < g <==> c * s' < g'
    ensures c * s == g <==> c * s' == g'
  {
    Arith.MulAssociative(c, s, t);
    Arith.MulAssociative(c, s', b);
    var x, y := c * s - g, c * s' - g';
    assert x * t == y * b;
    SameSign(x, y, t, b);
    SameSign(y, x, b, t);
  }

  lemma {:induction false} FinerUnits(f: nat, e: int, closer: bool, ends: Ends, p: int, x: nat, k: nat)
    requires Reads(f, e, closer, ends, p, x)
    ensures Reads(f, e, closer, ends, p - k, x * Power(10, k))
  {
    hide Power, Reads;
    Tens(0);
    if k > 0 {
      FinerUnits(f, e, closer, ends, p, x, k - 1);
      FinerUnit(f, e, closer, ends, p - (k - 1), x * Power(10, k - 1));
      Tens(k - 1);
      assert 10 * (x * Power(10, k - 1)) == x * Power(10, k);
    }
  }

  /** The value is well above the distance to its lower midpoint. */
  lemma ValueAboveDistance(n: nat, d: nat, l: nat, u: nat, f: nat, e: int, p: int, closer: bool)
    requires ScaledValue(n, d, l, u, f, e, p, closer) && d > 0 && f > 0
    ensures n > l
  {
    var g, b := ScaledNum(1, e, p), ScaledDen(e, p);
    GapPositive(e, p);
    assert ScaledNum(f, e, p) == f * g by { Arith.MulAssociative(f, Power(2, Pos(e)), Power(10, Pos(-p))); }
    hide ScaledNum, ScaledDen, Power;
    AboveDistance(n, d, l, f, g, b, if closer then 4 else 2);
  }

  lemma GapPositive(e: int, p: int)
    ensures ScaledNum(1, e, p) > 0
  {
    MulPositive(Power(2, Pos(e)), Power(10, Pos(-p)));
  }

  lemma AboveDistance(n: nat, d: nat, l: nat, f: nat, g: nat, b: nat, c: nat)
    requires n * b == d * (f * g) && c * l * b == d * g && b > 0 && d > 0 && f > 0 && g > 0 && c >= 2
    ensures n > l
  {
    MulPositive(d, g);
    Monotone(1, f, g);
    MulMonotone(d, d, g, f * g);
    if n <= l {
      Monotone(n, l, b);
      Monotone(2, c, l);
      Monotone(2 * l, c * l, b);
    }
  }

  /** No number of two digits or more before the last place, and no zero, is inside:
      the estimate of the exponent is not too small. */
  lemma OneDigitInside(n: nat, d: nat, l: nat, u: nat, ends: Ends, even: int, x: nat)
    requires Short(n, u, d, even) && n > l && (ends.upper ==> even == 1) && 0 <= even
    requires Inside(n, d, l, u, ends, 0, x)
    ensures 0 < x < 10
  {
    Tens(0);
    if x >= 10 {
      Monotone(10, x, d);
    }
  }

  lemma DistanceScale(n: int, d: int, a: int, b: int, q: nat, x: nat)
    requires n * b == d * a && b > 0 && d > 0 && Abs(q * d - n) <= Abs(x * d - n)
    ensures Abs(q * b - a) <= Abs(x * b - a)
  {
    hide Abs;
    AbsScale(n, d, a, b, q);
    AbsScale(n, d, a, b, x);
    SameOrder(Abs(q * d - n), Abs(x * d - n), Abs(q * b - a), Abs(x * b - a), b, d);
  }

  lemma SameOrder(s: int, t: int, s': int, t': int, p: int, q: int)
    requires p > 0 && q > 0 && s * p == s' * q && t * p == t' * q && s <= t
    ensures s' <= t'
  {
    assert (s - t) * p == (s' - t') * q;
    SameSign(s - t, s' - t', p, q);
  }

  lemma AbsScale(n: int, d: int, a: int, b: int, x: nat)
    requires n * b == d * a && b > 0 && d > 0
    ensures Abs(x * d - n) * b == Abs(x * b - a) * d
  {
    var s, t := x * d - n, x * b - a;
    assert s * b == x * d * b - d * a && t * d == x * b * d - a * d;
    Swap(x, d, b);
    assert s * b == t * d;
    SameSign(s, t, b, d);
    assert (-s) * b == (-t) * d;
  }

  /** The digits of the shortest path, in terms of the value. */
  lemma ShortestScale(n: nat, d: nat, l: nat, u: nat, f: nat, e: int, top: int, closer: bool, ends: Ends, even: int,
                      buf: seq<nat>)
    requires ScaledValue(n, d, l, u, f, e, top, closer) && d > 0 && f > 0 && Identifies(n, d, l, u, ends, buf)
    requires Short(n, u, d, even) && (ends.upper ==> even == 1) && 0 <= even
    ensures PrintsShortest(f, e, closer, ends, buf, top - (|buf| - 1))
  {
    hide Power, ScaledNum, ScaledDen, ScaledValue, Reads, Inside, Decimal, Short;
    var k, q := |buf| - 1, Decimal(buf);
    var p := top - k;
    ReadsScale(n, d, l, u, f, e, top, closer, ends, k, q);
    forall j, x: nat | p < j ensures !Reads(f, e, closer, ends, j, x) {
      if Reads(f, e, closer, ends, j, x) {
        NoneLarger(n, d, l, u, f, e, top, closer, ends, even, buf, j, x);
      }
    }
    forall x: nat | Reads(f, e, closer, ends, p, x) ensures Distance(f, e, p, q) <= Distance(f, e, p, x) {
      ReadsScale(n, d, l, u, f, e, top, closer, ends, k, x);
      ScaledAt(n, d, l, u, f, e, top, closer, k);
      DistanceScale(n * Power(10, k), d, ScaledNum(f, e, p), ScaledDen(e, p), q, x);
    }
  }

  /** A number in the interval is in a unit no larger than that of the last digit. */
  lemma NoneLarger(n: nat, d: nat, l: nat, u: nat, f: nat, e: int, top: int, closer: bool, ends: Ends, even: int,
                   buf: seq<nat>, j: int, x: nat)
    requires ScaledValue(n, d, l, u, f, e, top, closer) && d > 0 && f > 0 && Identifies(n, d, l, u, ends, buf)
    requires Short(n, u, d, even) && (ends.upper ==> even == 1) && 0 <= even
    requires Reads(f, e, closer, ends, j, x)
    ensures j <= top - (|buf| - 1)
  {
    hide Power, ScaledNum, ScaledDen, ScaledValue, Reads, Inside, Decimal, Short;
    if top - (|buf| - 1) < j <= top {
      assert NoneInside(n, d, l, u, ends, top - j);
      ReadsScale(n, d, l, u, f, e, top, closer, ends, top - j, x);
    } else if j > top {
      FinerUnits(f, e, closer, ends, j, x, j - top);
      ReadsScale(n, d, l, u, f, e, top, closer, ends, 0, x * Power(10, j - top));
      ValueAboveDistance(n, d, l, u, f, e, top, closer);
      OneDigitInside(n, d, l, u, ends, even, x * Power(10, j - top));
      Tens(j - top - 1);
      NotOneDigit(x, Power(10, j - top - 1));
    }
  }

  lemma NotOneDigit(x: nat, p: nat)
    requires p > 0
    ensures x * (10 * p) == 0 || x * (10 * p) >= 10
  {
    if x > 0 {
      Monotone(1, x, 10 * p);
    }
  }

  /** What is printed reads back as the value, whichever midpoints the program
      counts. */
  lemma ShortestReadsBack(f: nat, e: int, closer: bool, ends: Ends, buf: seq<nat>, p: int)
    requires PrintsShortest(f, e, closer, ends, buf, p) && (ends.lower || ends.upper ==> f % 2 == 0)
    ensures ReadsBack(f, e, closer, p, Decimal(buf))
  {
  }

  /** The program does not count the lower midpoint of an even value, and that is a
      number in a unit in which nothing else is in the interval. */
  ghost predicate MissesMidpoint(f: nat, e: int, closer: bool, ends: Ends) {
    && f % 2 == 0 && !ends.lower
    && exists k, x: nat :: OnLowerMidpoint(f, e, closer, k, x) && NoneReads(f, e, closer, ends, k)
  }

  ghost predicate NoneReads(f: nat, e: int, closer: bool, ends: Ends, p: int) {
    forall x: nat :: !Reads(f, e, closer, ends, p, x)
  }

  /** Whether fewer digits would have read back as the value: exactly when that
      midpoint is missed. */
  lemma ShortestExactly(f: nat, e: int, closer: bool, ends: Ends, buf: seq<nat>, p: int)
    requires PrintsShortest(f, e, closer, ends, buf, p) && ends.upper == (f % 2 == 0) && (ends.lower ==> f % 2 == 0)
    ensures (exists k, x: nat :: p < k && ReadsBack(f, e, closer, k, x)) <==> MissesMidpoint(f, e, closer, ends)
  {
    hide Decimal, Reads, OnLowerMidpoint;
    if k, x: nat :| p < k && ReadsBack(f, e, closer, k, x) {
      OnlyMidpointMissed(f, e, closer, ends, k, x);
      assert NoneReads(f, e, closer, ends, k);
    }
    if MissesMidpoint(f, e, closer, ends) {
      var k, x: nat :| OnLowerMidpoint(f, e, closer, k, x) && NoneReads(f, e, closer, ends, k);
      if k <= p {
        FinerUnits(f, e, closer, ends, p, Decimal(buf), p - k);
        assert false;
      }
      OnlyMidpointMissed(f, e, closer, ends, k, x);
      assert ReadsBack(f, e, closer, k, x);
    }
  }

  lemma OnlyMidpointMissed(f: nat, e: int, closer: bool, ends: Ends, k: int, x: nat)
    requires !Reads(f, e, closer, ends, k, x) && ends.upper == (f % 2 == 0) && (ends.lower ==> f % 2 == 0)
    ensures ReadsBack(f, e, closer, k, x) <==> f % 2 == 0 && !ends.lower && OnLowerMidpoint(f, e, closer, k, x)
  {
    GapPositive(e, k);
  }

  /** The correction of an estimate that is one too large. */
  method Fixup(numerator: Bigint, denominator: Bigint, lower: Bigint, upper: Bigint, even: int, shortest: bool,
               exp10: int, ghost f: nat, ghost e: int, ghost closer: bool) returns (exp: int)
    requires numerator != denominator && lower != numerator && lower != denominator
    requires upper != numerator && upper != denominator && 0 <= even <= 1
    requires Normal(numerator.State()) && Normal(denominator.State())
    requires Normal(lower.State()) && Normal(upper.State())
    requires ScaledValue(numerator.V(), denominator.V(), lower.V(), upper.V(), f, e, exp10, closer)
    requires Dividing(numerator.State(), denominator.State())
    requires shortest ==> Short(numerator.V(), upper.V(), denominator.V(), even)
    modifies numerator, lower, upper
    ensures exp == if Sign(old(numerator.V() + upper.V()) - denominator.V()) + even <= 0 then exp10 - 1 else exp10
    ensures Normal(numerator.State()) && Normal(lower.State()) && Normal(upper.State())
    ensures Clear(numerator.State(), denominator.State())
    ensures numerator.exp == old(numerator.exp) && lower.exp == old(lower.exp)
    ensures Dividing(numerator.State(), denominator.State())
    ensures numerator.V() * ScaledDen(e, exp) == denominator.V() * ScaledNum(f, e, exp)
    ensures shortest ==> ScaledValue(numerator.V(), denominator.V(), lower.V(), upper.V(), f, e, exp, closer)
    ensures shortest ==> Short(numerator.V(), upper.V(), denominator.V(), even)
  {
    hide Val, ScaledNum, ScaledDen;
    ghost var n, d, l, u := numerator.V(), denominator.V(), lower.V(), upper.V();
    ValBounds(upper.State());
    exp := exp10;
    var c := Bigint.AddCompare(numerator, upper, denominator);
    if c + even <= 0 {
      exp := exp10 - 1;
      ghost var was := numerator.State();
      numerator.Multiply(10);
      ClearTenfold(was, numerator.State(), denominator.State());
      SameRatio(n, d, f, e, exp10);
      if shortest {
        lower.Multiply(10);
        if upper != lower {
          upper.Multiply(10);
        }
        ghost var k: nat := if closer then 4 else 2;
        SameRatio(k * l, d, 1, e, exp10);
        SameRatio(2 * u, d, 1, e, exp10);
      }
    }
  }

  /** The estimate, seen in the numbers of the setup. */
  lemma EstimateScale(n: nat, d: nat, l: nat, u: nat, f: nat, e: int, exp10: int, closer: bool)
    requires ScaledValue(n, d, l, u, f, e, exp10, closer) && d > 0
    ensures NotTooSmall(f, e, exp10) ==> Short(n, u, d, Even(f))
    ensures TooLarge(f, e, exp10) <==> Sign(n + u - d) + Even(f) <= 0
  {
    hide ScaledNum, ScaledDen;
    SumScale(n, u, 10 * d, ScaledNum(f, e, exp10), ScaledNum(1, e, exp10), 10 * ScaledDen(e, exp10), d, ScaledDen(e, exp10));
    SumScale(n, u, d, ScaledNum(f, e, exp10), ScaledNum(1, e, exp10), ScaledDen(e, exp10), d, ScaledDen(e, exp10));
  }

  lemma SumScale(n: int, u: int, x: int, a: int, g: int, y: int, d: int, b: int)
    requires n * b == d * a && 2 * u * b == d * g && d > 0 && b > 0 && x * b == d * y
    ensures Sign(n + u - x) == Sign(2 * a + g - 2 * y)
  {
    var s, t := n + u - x, 2 * a + g - 2 * y;
    assert s * (2 * b) == 2 * (n * b) + 2 * u * b - 2 * (x * b);
    assert t * d == 2 * (d * a) + d * g - 2 * (d * y);
    SameSign(s, t, 2 * b, d);
  }

  lemma ClearScale(n: Big, d: Big, f: nat, e: int, exp10: int)
    requires Val(n) * ScaledDen(e, exp10) == Val(d) * ScaledNum(f, e, exp10) && Val(d) > 0
    requires n.exp <= d.exp || forall j: nat :: ScaledNum(f, e, exp10) * Power(10, j) != ScaledDen(e, exp10)
    ensures Clear(n, d)
  {
    hide Val, ScaledNum, ScaledDen, Power;
    if n.exp > d.exp {
      forall j: nat ensures Val(n) * Power(10, j) != Val(d) {
        assert ScaledNum(f, e, exp10) * Power(10, j) != ScaledDen(e, exp10);
        if Val(n) * Power(10, j) == Val(d) {
          EqualScale(Val(n), Val(d), ScaledNum(f, e, exp10), ScaledDen(e, exp10), Power(10, j));
        }
      }
    }
  }

  lemma EqualScale(n: int, d: int, a: int, b: int, t: int)
    requires n * b == d * a && d > 0 && n * t == d
    ensures a * t == b
  {
    assert d * a * t == n * b * t;
    Arith.MulAssociative(d, a, t);
    Swap(n, b, t);
    Cancel(a * t, b, d);
  }

  /** The fraction in a unit `10^k` times larger. */
  lemma {:induction false} LargerUnits(n: nat, d: nat, f: nat, e: int, p: int, k: nat)
    requires n * ScaledDen(e, p) == d * ScaledNum(f, e, p)
    ensures n * ScaledDen(e, p + k) == d * Power(10, k) * ScaledNum(f, e, p + k)
  {
    hide Power, ScaledNum, ScaledDen;
    Tens(0);
    if k > 0 {
      LargerUnits(n, d, f, e, p, k - 1);
      SmallerUnit(f, e, p + k);
      Tens(k - 1);
      var x, y := d * Power(10, k - 1), d * Power(10, k);
      assert y == 10 * x;
      TenfoldRatio(n, x, ScaledNum(f, e, p + k - 1), ScaledDen(e, p + k - 1), ScaledNum(f, e, p + k), ScaledDen(e, p + k));
    }
  }

  lemma TenfoldRatio(n: int, d: int, a: int, b: int, a': int, b': int)
    requires n * b == d * a && a * b' == 10 * a' * b && b > 0
    ensures n * b' == 10 * d * a'
  {
    assert n * b' * b == d * (a * b') by { Swap(n, b', b); Arith.MulAssociative(d, a, b'); }
    assert d * (10 * a' * b) == 10 * d * a' * b by { Spin(d, a', b); }
    Cancel(n * b', 10 * d * a', b);
  }

  lemma Spin(d: int, a: int, b: int)
    ensures d * (10 * a * b) == 10 * d * a * b
  {
    Arith.MulAssociative(d, 10 * a, b);
  }

  /** The fixed path, in terms of the value. */
  lemma FixedScale(n: nat, d: nat, f: nat, e: int, scale: int, digits: int, buf: seq<nat>, exp: int)
    requires n * ScaledDen(e, scale) == d * ScaledNum(f, e, scale) && 0 < d && AllDigits(buf)
    requires digits > 0 && exp >= scale - (digits - 1)
    requires Decimal(buf) * Power(10, exp - (scale - (digits - 1))) == RoundHalfEven(n * Power(10, digits - 1), d)
    ensures PrintsRounded(f, e, buf, exp, scale - (digits - 1))
    ensures Reaches(f, e, scale - (digits - 1), Power(10, digits - 1))
       <==> Power(10, digits - 1) <= RoundHalfEven(n * Power(10, digits - 1), d)
  {
    hide Power, ScaledNum, ScaledDen, Decimal, RoundHalfEven;
    var p := scale - (digits - 1);
    SameRatioPower(n, d, f, e, scale, digits - 1);
    RatioRounds(n * Power(10, digits - 1), d, ScaledNum(f, e, p), ScaledDen(e, p));
  }

  lemma NoDigitsScale(n: nat, d: nat, f: nat, e: int, scale: int, digits: int)
    requires n * ScaledDen(e, scale) == d * ScaledNum(f, e, scale) && 0 < d && n < 10 * d && digits <= 0
    ensures var p := scale - (digits - 1);
            PrintsRounded(f, e, [if 2 * n > 10 * d then 1 else 0], p, p)
            <==> digits == 0 || ScaledNum(f, e, scale) <= 5 * ScaledDen(e, scale)
  {
    hide Power, ScaledNum, ScaledDen, Decimal, RoundHalfEven;
    var p, k := scale - (digits - 1), 1 - digits;
    var digit: nat := if 2 * n > 10 * d then 1 else 0;
    OneDigit(f, e, digit, p);
    LargerUnits(n, d, f, e, scale, k);
    Positive(10, k);
    MulPositive(d, Power(10, k));
    RatioRounds(n, d * Power(10, k), ScaledNum(f, e, p), ScaledDen(e, p));
    NoDigitsRounding(n, d, digits);
    FiveUnits(n, d, ScaledNum(f, e, scale), ScaledDen(e, scale));
  }

  lemma OneDigit(f: nat, e: int, digit: nat, p: int)
    requires digit < 10
    ensures PrintsRounded(f, e, [digit], p, p) <==> digit == RoundHalfEven(ScaledNum(f, e, p), ScaledDen(e, p))
  {
    NoDigits();
    DecimalPush([], digit);
    assert [] + [digit] == [digit];
    Tens(0);
  }

  lemma FiveUnits(n: int, d: int, a: int, b: int)
    requires n * b == d * a && d > 0 && b > 0
    ensures 2 * n <= 10 * d <==> a <= 5 * b
  {
    var s, t := n - 5 * d, a - 5 * b;
    assert s * b == t * d;
    SameSign(s, t, b, d);
  }

  lemma ScaledRatio(n: nat, d: nat, l: nat, u: nat, f: nat, e: int, exp10: int, closer: bool)
    requires ScaledValue(n, d, l, u, f, e, exp10, closer)
    ensures n * ScaledDen(e, exp10) == d * ScaledNum(f, e, exp10)
  {
  }

  /** The range, seen in the numbers of the setup. */
  lemma RangeScale(num: Big, den: Big, f: nat, e: int, exp10: int)
    requires Val(num) * ScaledDen(e, exp10) == Val(den) * ScaledNum(f, e, exp10) && Val(den) > 0
    requires InRange(f, e, exp10) && Normal(num) && Normal(den) && Clear(num, den)
    ensures Dividing(num, den)
  {
    hide Val, Clear, ScaledNum, ScaledDen, Normal;
    var n: int, d: int, a: int, b: int := Val(num), Val(den), ScaledNum(f, e, exp10), ScaledDen(e, exp10);
    assert (n - 10 * d) * b == (a - 10 * b) * d;
    SameSign(n - 10 * d, a - 10 * b, b, d);
  }

  function Lesser(a: nat, b: nat): nat {
    if a <= b then a else b
  }

  /** Ready to generate digits: in range, and no equal numbers in the wrong order. */
  lemma Divides(num: Big, den: Big, up: Big, even: int)
    requires Normal(num) && Normal(den) && Normal(up) && Clear(num, den) && 0 <= even
    requires Short(Val(num), Val(up), Val(den), even)
    ensures Dividing(num, den)
  {
    hide Val, Clear;
    ValBounds(up);
  }

  lemma Ready(num: Big, den: Big, low: Big, up: Big, even: int)
    requires Normal(num) && Normal(den) && Normal(low) && Normal(up) && Clear(num, den) && 0 <= even
    requires Short(Val(num), Val(up), Val(den), even) && Val(num) > Val(low)
    requires num.exp <= low.exp || den.exp <= low.exp
    ensures Round(num, den, low, up, even, Lesser(num.exp, den.exp))
  {
    hide Val, Clear, Short;
    Divides(num, den, up, even);
  }

  /** The digits asked for, once the exponent is known. */
  function Digits(numDigits: int, fixup: bool, fixed: bool, scale: int): int {
    if fixup && fixed then numDigits + scale + 1 else numDigits
  }

  /** The shortest path on numbers that are set up for the value. */
  method FormatShortest(numerator: Bigint, denominator: Bigint, lower: Bigint, upper: Bigint, even: int, scale: int,
                        ghost f: nat, ghost e: int, ghost closer: bool, ghost level: nat)
      returns (buf: seq<nat>, exp: int)
    requires numerator != denominator && lower != numerator && lower != denominator
    requires upper != numerator && upper != denominator && even == Even(f) && f > 0
    requires ScaledValue(numerator.V(), denominator.V(), lower.V(), upper.V(), f, e, scale, closer)
    requires Normal(numerator.State()) && Normal(denominator.State()) && Normal(lower.State()) && Normal(upper.State())
    requires Clear(numerator.State(), denominator.State())
    requires Short(numerator.V(), upper.V(), denominator.V(), even)
    requires numerator.exp <= lower.exp || denominator.exp <= lower.exp
    requires level == Lesser(numerator.exp, denominator.exp)
    modifies numerator, lower, upper
    ensures PrintsShortest(f, e, closer, EndsOf(even, level, old(lower.exp)), buf, exp)
    ensures exp == scale - (|buf| - 1) && ReadsBack(f, e, closer, exp, Decimal(buf))
  {
    hide Val, ScaledValue, PrintsShortest, Short, ReadsBack, Decimal, Round, Clear, Identifies, Normal;
    ghost var den, n, l, u := denominator.State(), numerator.V(), lower.V(), upper.V();
    ghost var ends := EndsOf(even, level, lower.exp);
    ValBounds(den);
    ValueAboveDistance(n, Val(den), l, u, f, e, scale, closer);
    Ready(numerator.State(), den, lower.State(), upper.State(), even);
    buf, exp := ShortestDigits(numerator, denominator, lower, upper, even, scale, level);
    ShortestScale(n, Val(den), l, u, f, e, scale, closer, ends, even, buf);
    ShortestReadsBack(f, e, closer, ends, buf, exp);
  }

  /** The other path: for a positive number of digits, and for none or fewer. */
  method FormatFixed(numerator: Bigint, denominator: Bigint, digits: int, scale: int, ghost f: nat, ghost e: int)
      returns (buf: seq<nat>, exp: int)
    requires numerator != denominator && Dividing(numerator.State(), denominator.State())
    requires numerator.V() * ScaledDen(e, scale) == denominator.V() * ScaledNum(f, e, scale)
    modifies numerator, denominator
    ensures |buf| == (if digits > 0 then digits else 1)
    ensures PrintsRounded(f, e, buf, exp, scale - (digits - 1))
       <==> digits >= 0 || ScaledNum(f, e, scale) <= 5 * ScaledDen(e, scale)
    ensures digits > 0 ==> (buf[0] > 0 <==> Reaches(f, e, scale - (digits - 1), Power(10, digits - 1)))
  {
    hide Val, ScaledNum, ScaledDen, PrintsRounded, Reaches, Decimal, Power, RoundHalfEven, Dividing;
    ghost var n, d := numerator.V(), denominator.V();
    DividingMeans(numerator.State(), denominator.State());
    buf, exp := FixedDigits(numerator, denominator, digits, scale);
    if digits > 0 {
      FixedScale(n, d, f, e, scale, digits, buf, exp);
    } else {
      NoDigitsScale(n, d, f, e, scale, digits);
    }
  }

  lemma EndsForIs(f: nat, e: int, exp10: int, closer: bool)
    ensures var n, d := NumeratorExp(e, exp10, closer), DenominatorExp(e, exp10, closer);
            n >= 0 && d >= 0 && LowerExp(e, exp10) >= 0 ==>
              EndsFor(f, e, exp10, closer) == EndsOf(Even(f), Lesser(n, d), LowerExp(e, exp10))
  {
  }

  /** `format_dragon`. For a negative `numDigits` the shortest digits that lie in the
      interval of `f * 2^e`, which read back as it; otherwise the value rounded, ties
      to even, to the last place asked for. Two cases go wrong: asked for a digit left
      of the value's first, it is right only up to half of ten units; and it prints as
      many significant digits as asked for exactly when the rounded value has them. */
  method Format(f: nat, e: int, closer: bool, fixup: bool, fixed: bool, numDigits: int, exp10: int)
      returns (buf: seq<nat>, exp: int, scale: int)
    requires Supported(f, e, exp10, closer) && (numDigits < 0 ==> ShortestSupported(f, e, exp10, closer))
    ensures scale == if fixup && TooLarge(f, e, exp10) then exp10 - 1 else exp10
    ensures numDigits < 0 ==> PrintsShortest(f, e, closer, EndsFor(f, e, exp10, closer), buf, exp)
    ensures numDigits < 0 ==> exp == scale - (|buf| - 1) && ReadsBack(f, e, closer, exp, Decimal(buf))
    ensures numDigits >= 0 ==>
              var digits := Digits(numDigits, fixup, fixed, scale);
              |buf| == (if digits > 0 then digits else 1)
    ensures numDigits >= 0 ==>
              var digits := Digits(numDigits, fixup, fixed, scale);
              PrintsRounded(f, e, buf, exp, scale - (digits - 1))
              <==> digits >= 0 || ScaledNum(f, e, scale) <= 5 * ScaledDen(e, scale)
    ensures numDigits >= 0 ==>
              var digits := Digits(numDigits, fixup, fixed, scale);
              digits > 0 ==> (buf[0] > 0 <==> Reaches(f, e, scale - (digits - 1), Power(10, digits - 1)))
  {
    hide Val, ScaledNum, ScaledDen, ScaledValue, NotTooSmall, TooLarge, PrintsShortest, PrintsRounded, Short, Reaches,
      ReadsBack, Decimal, Power, EndsFor, Clear, Dividing, Normal, InRange;
    SignOfExponent(f, e, exp10);
    var numerator, denominator, lower, upper := Setup(f, e, exp10, closer);
    ghost var den, level := denominator.State(), Lesser(numerator.exp, denominator.exp);
    EndsForIs(f, e, exp10, closer);
    ValBounds(den);
    EstimateScale(numerator.V(), Val(den), lower.V(), upper.V(), f, e, exp10, closer);
    ScaledRatio(numerator.V(), Val(den), lower.V(), upper.V(), f, e, exp10, closer);
    ClearScale(numerator.State(), den, f, e, exp10);
    RangeScale(numerator.State(), den, f, e, exp10);
    scale := exp10;
    if fixup {
      scale := Fixup(numerator, denominator, lower, upper, Even(f), numDigits < 0, exp10, f, e, closer);
    }
    if numDigits < 0 {
      buf, exp := FormatShortest(numerator, denominator, lower, upper, Even(f), scale, f, e, closer, level);
    } else {
      buf, exp := FormatFixed(numerator, denominator, Digits(numDigits, fixup, fixed, scale), scale, f, e);
    }
  }

  // ------------------------------------------------------------- witnesses

  /** The double 1e23, whose exponent 22 is known exactly where digits are asked for. Its
      upper midpoint is ten units, so for shortest digits it would be too small. */
  const JUST_BELOW_TEN_UNITS: nat := 0x15_2d02_c7e1_4af6

  lemma ExactExponentExample(closer: bool)
    ensures Supported(JUST_BELOW_TEN_UNITS, 24, 22, closer) && !NotTooSmall(JUST_BELOW_TEN_UNITS, 24, 22)
  {
    PowersOfTwo();
    PowersOfTen();
    PowerSum(10, 20, 2);
    hide Power;
    SixtyFourBitsAreSupported(JUST_BELOW_TEN_UNITS, 24, 22, closer);
  }

  /** Three extended-precision values, with the exponents the program estimates. */
  const JUST_BELOW_A_POWER: nat := 9313225746154785156
  const ABOVE_A_SHORT_MIDPOINT: nat := 11175870895385742188
  const A_SIXTEENTH: nat := 0x8000_0000_0000_0000

  lemma PowersOfTen()
    ensures Power(10, 0) == 1 && Power(10, 1) == 10 && Power(10, 2) == 100
    ensures Power(10, 8) == 1_0000_0000 && Power(10, 9) == 10_0000_0000 && Power(10, 10) == 100_0000_0000
    ensures Power(10, 20) == 1_0000_0000_0000_0000_0000
    ensures Power(10, 27) == 1000_0000_0000_0000_0000_0000_0000
    ensures Power(10, 28) == 10 * Power(10, 27) && Power(10, 29) == 100 * Power(10, 27)
  {
    assert Power(10, 0) == 1 && Power(10, 1) == 10 && Power(10, 2) == 100;
    hide Power;
    PowerSum(10, 2, 2);
    PowerSum(10, 4, 4);
    PowerSum(10, 8, 2);
    PowerSum(10, 10, 10);
    PowerSum(10, 8, 1);
    PowerSum(10, 9, 9);
    PowerSum(10, 18, 9);
    PowerSum(10, 1, 27);
    PowerSum(10, 2, 27);
  }

  lemma PowersOfTwo()
    ensures Power(2, 0) == 1 && Power(2, 24) == 0x100_0000
    ensures Power(2, 30) == 0x4000_0000 && Power(2, 32) == 0x1_0000_0000
  {
    assert Power(2, 0) == 1 && Power(2, 1) == 2 && Power(2, 2) == 4;
    hide Power;
    PowerSum(2, 2, 1);
    PowerSum(2, 3, 2);
    PowerSum(2, 5, 5);
    PowerSum(2, 10, 10);
    PowerSum(2, 2, 2);
    PowerSum(2, 20, 4);
    PowerSum(2, 20, 10);
    PowerSum(2, 30, 2);
  }

  lemma LargePowerOfTwo()
    ensures Power(2, 67) == 0x8_0000_0000_0000_0000
  {
    assert Power(2, 3) == 8 by { assert Power(2, 0) == 1; }
    PowersOfTwo();
    hide Power;
    PowerSum(2, 32, 32);
    PowerSum(2, 64, 3);
  }

  /** 10^28 - 2^28 with 21 digits: the upper midpoint is past 10^28, so the larger
      exponent stays, and the first of the digits is a zero. */
  lemma LeadingZeroExample(closer: bool)
    ensures Supported(JUST_BELOW_A_POWER, 30, 28, closer) && !TooLarge(JUST_BELOW_A_POWER, 30, 28)
    ensures !Reaches(JUST_BELOW_A_POWER, 30, 28 - (21 - 1), Power(10, 21 - 1))
  {
    PowersOfTwo();
    PowersOfTen();
    hide Power;
    SixtyFourBitsAreSupported(JUST_BELOW_A_POWER, 30, 28, closer);
  }

  /** The first unit in which a number is in the interval without its lower end. */
  lemma NineZeros(p: int, x: nat)
    requires Reads(ABOVE_A_SHORT_MIDPOINT, 32, false, Ends(false, true), p, x)
    ensures p <= 9
  {
    PowersOfTwo();
    PowersOfTen();
    hide Power;
    if p >= 10 {
      FinerUnits(ABOVE_A_SHORT_MIDPOINT, 32, false, Ends(false, true), p, x, p - 10);
      assert false;
    }
  }

  /** 4.8 * 10^28 is the lower midpoint of the value, which is even and the one it reads
      back as; the program prints digits down to units of 10^9, twenty where two do. */
  lemma ExtraDigitsExample(buf: seq<nat>, p: int)
    requires PrintsShortest(ABOVE_A_SHORT_MIDPOINT, 32, false, EndsFor(ABOVE_A_SHORT_MIDPOINT, 32, 29, false), buf, p)
    ensures Supported(ABOVE_A_SHORT_MIDPOINT, 32, 29, false) && ShortestSupported(ABOVE_A_SHORT_MIDPOINT, 32, 29, false)
    ensures TooLarge(ABOVE_A_SHORT_MIDPOINT, 32, 29)
    ensures ReadsBack(ABOVE_A_SHORT_MIDPOINT, 32, false, 27, 48) && p == 9
  {
    PowersOfTwo();
    PowersOfTen();
    hide Power, Decimal;
    NineZeros(p, Decimal(buf));
    assert Reads(ABOVE_A_SHORT_MIDPOINT, 32, false, Ends(false, true), 9, 48_0000_0000_0000_0000_02);
    assert ReadsBack(ABOVE_A_SHORT_MIDPOINT, 32, false, 27, 48);
    hide PrintsShortest, Reads;
    SixtyFourBitsAreSupported(ABOVE_A_SHORT_MIDPOINT, 32, 29, false);
  }

  /** 1/16 with no digits after the point: nearest is 0, and the digit printed, in
      units of ten hundredths, is that of a value past half of them. */
  lemma NegativeDigitsExample(closer: bool)
    ensures Supported(A_SIXTEENTH, -67, -1, closer) && TooLarge(A_SIXTEENTH, -67, -1) && Digits(0, true, true, -2) < 0
    ensures ScaledNum(A_SIXTEENTH, -67, -2) > 5 * ScaledDen(-67, -2)
    ensures RoundHalfEven(ScaledNum(A_SIXTEENTH, -67, 0), ScaledDen(-67, 0)) == 0
  {
    PowersOfTwo();
    LargePowerOfTwo();
    PowersOfTen();
    hide Power;
    SixtyFourBitsAreSupported(A_SIXTEENTH, -67, -1, closer);
  }
}
