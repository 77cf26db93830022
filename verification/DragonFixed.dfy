/**
 The digit generation of `format_dragon` for a requested number of digits.

 Digits are numbers here; the program stores them as characters from '0'.
 */
module DragonFixed {
  import opened U32
  import opened BigNum
  import opened Bigints
  import opened Bits
  import opened Decimals
  import Arith

  const OVERFLOW: nat := 10

  /** The carry propagation at the end of `format_dragon`: from a ten in the last
      place to digits below ten, and the exponent raised when all were nines. */
  method PropagateCarry(digits: seq<nat>, exp10: int) returns (buf: seq<nat>, exp: int)
    requires |digits| > 0 && digits[|digits| - 1] == OVERFLOW && AllDigits(digits[..|digits| - 1])
    ensures |buf| == |digits| && AllDigits(buf) && exp10 <= exp <= exp10 + 1
    ensures Decimal(buf) * Power(10, exp - exp10) == Decimal(digits)
    ensures exp > exp10 <==> Decimal(digits) == Power(10, |digits|)
    ensures buf[0] > 0 <==> Decimal(digits) >= Power(10, |digits| - 1)
  {
    hide Decimal, Power;
    buf, exp := digits, exp10;
    var i := |buf| - 1;
    while i > 0 && buf[i] == OVERFLOW
      invariant 0 <= i < |buf| == |digits| && buf[i] <= OVERFLOW
      invariant forall x :: 0 <= x < i ==> buf[x] < 10
      invariant forall x :: i < x < |buf| ==> buf[x] == 0
      invariant Decimal(buf) == Decimal(digits)
    {
      CarryDigit(buf, i);
      buf := buf[i := 0][i - 1 := buf[i - 1] + 1];
      i := i - 1;
    }
    Tens(|buf| - 1);
    if buf[0] == OVERFLOW {
      TenThenZeros(buf);
      buf := buf[0 := 1];
      exp := exp + 1;
      TenThenZeros(buf);
    } else {
      DecimalBounds(buf);
    }
  }

  // ------------------------------------------------------------ generation

  /** The division of equal numbers with different exponents, which goes wrong, will
      not come up at any digit. */
  ghost predicate Clear(n: Big, d: Big) {
    n.exp <= d.exp || forall j: nat :: Val(n) * Power(10, j) != Val(d)
  }

  /** Numerator and denominator as the invariant of digit generation has them. */
  ghost predicate Dividing(n: Big, d: Big) {
    Normal(d) && Fits(n, d) && Clear(n, d) && Val(n) < 10 * Val(d)
  }

  lemma DividingMeans(n: Big, d: Big)
    requires Dividing(n, d)
    ensures Normal(d) && Fits(n, d) && 0 < Val(d) && Val(n) < 10 * Val(d)
  {
    ValBounds(d);
  }

  lemma ClearNow(n: Big, d: Big)
    requires Clear(n, d)
    ensures Val(n) == Val(d) ==> n.exp <= d.exp
  {
    hide Val;
    assert Val(n) * Power(10, 0) == Val(n) by { Tens(0); }
  }

  lemma ClearTenfold(n: Big, m: Big, d: Big)
    requires Clear(n, d) && Val(m) == 10 * Val(n) && m.exp <= n.exp
    ensures Clear(m, d)
  {
    hide Val, Power;
    if m.exp > d.exp {
      forall j: nat ensures Val(m) * Power(10, j) != Val(d) {
        Tens(j);
        assert Val(n) * (10 * Power(10, j)) == 10 * Val(n) * Power(10, j);
        assert Val(n) * Power(10, j + 1) != Val(d);
      }
    }
  }

  lemma DividingSize(n: Big, d: Big)
    requires Dividing(n, d)
    ensures Size(n) <= Size(d) + 1
  {
    hide Val;
    ValBounds(d);
    NotMuchLonger(n, d);
  }

  /** One digit, leaving the remainder in the numerator. */
  method NextDigit(numerator: Bigint, denominator: Bigint) returns (digit: nat)
    requires numerator != denominator && Dividing(numerator.State(), denominator.State())
    modifies numerator
    ensures old(numerator.V()) == digit * denominator.V() + numerator.V()
    ensures digit < 10 && numerator.V() < denominator.V()
    ensures numerator.exp == if digit > 0 && old(numerator.exp) > denominator.exp then denominator.exp else old(numerator.exp)
    ensures Dividing(numerator.State(), denominator.State())
  {
    hide Val, Fits;
    ClearNow(numerator.State(), denominator.State());
    DividingSize(numerator.State(), denominator.State());
    ValBounds(denominator.State());
    digit := numerator.DivmodAssign(denominator);
    QuotientDigit(old(numerator.V()), denominator.V());
  }

  lemma QuotientDigit(n: nat, d: nat)
    requires n < 10 * d
    ensures n == n / d * d + n % d && n % d < d && n / d < 10
  {
    var q := n / d;
    Monotone(10, if q >= 10 then q else 10, d);
  }

  /** `numerator *= 10` between digits. */
  method TimesTen(numerator: Bigint, denominator: Bigint)
    requires numerator != denominator && Dividing(numerator.State(), denominator.State())
    requires numerator.V() < denominator.V()
    modifies numerator
    ensures numerator.V() == 10 * old(numerator.V()) && Dividing(numerator.State(), denominator.State())
    ensures numerator.exp == old(numerator.exp) && (old(Normal(numerator.State())) ==> Normal(numerator.State()))
  {
    ghost var n := numerator.State();
    numerator.Multiply(10);
    ClearTenfold(n, numerator.State(), denominator.State());
    if !Normal(n) {
      ZeroStays(numerator.State(), n);
    }
  }

  lemma ZeroStays(n: Big, before: Big)
    requires Num(before.bigits) == 0 && Val(n) == 10 * Val(before) && |n.bigits| == |before.bigits| && n.exp == before.exp
    ensures Num(n.bigits) == 0
  {
    hide Num, Base;
    if Num(n.bigits) > 0 {
      Monotone(1, Num(n.bigits), Base(n.exp));
    }
  }

  /** The digits so far and what is left of the numerator: nothing is lost. */
  ghost predicate Generated(n: nat, d: nat, i: nat, q: nat, rest: nat) {
    n * Power(10, i) == 10 * q * d + rest
  }

  lemma GeneratedStep(n: nat, d: nat, i: nat, q: nat, rest: nat, digit: nat, r: nat)
    requires Generated(n, d, i, q, rest) && rest == digit * d + r
    ensures n * Power(10, i) == (10 * q + digit) * d + r
    ensures Generated(n, d, i + 1, 10 * q + digit, 10 * r)
  {
    hide Power;
    Tens(i);
    var p, x := Power(10, i), 10 * q + digit;
    assert x * d == 10 * q * d + digit * d;
    assert n * (10 * p) == 10 * (n * p);
    assert 10 * x * d == 10 * (x * d);
  }

  /** The digits before the last. */
  method LeadingDigits(numerator: Bigint, denominator: Bigint, numDigits: nat) returns (buf: seq<nat>)
    requires numDigits > 0 && numerator != denominator && Dividing(numerator.State(), denominator.State())
    modifies numerator
    ensures |buf| == numDigits && AllDigits(buf[..numDigits - 1])
    ensures Generated(old(numerator.V()), denominator.V(), numDigits - 1, Decimal(buf[..numDigits - 1]), numerator.V())
    ensures Dividing(numerator.State(), denominator.State())
  {
    hide Decimal, Power, Val, Dividing;
    buf := seq(numDigits, _ => 0);
    ghost var n, d := numerator.V(), denominator.State();
    Tens(0);
    assert Decimal(buf[..0]) == 0 by { assert buf[..0] == []; NoDigits(); }
    var i := 0;
    while i < numDigits - 1
      invariant i < numDigits == |buf| && AllDigits(buf[..i]) && denominator.State() == d
      invariant Generated(n, Val(d), i, Decimal(buf[..i]), numerator.V())
      invariant Dividing(numerator.State(), d)
    {
      ghost var rest := numerator.V();
      var digit := NextDigit(numerator, denominator);
      GeneratedStep(n, Val(d), i, Decimal(buf[..i]), rest, digit, numerator.V());
      ghost var was := buf;
      buf := buf[i := digit];
      DecimalPrefix(buf, i);
      assert buf[..i] == was[..i];
      TimesTen(numerator, denominator);
      i := i + 1;
    }
  }

  lemma NoDigits()
    ensures Decimal([]) == 0
  {
  }

  /** What the last digit and the rounding decision make of the exact quotient. */
  lemma LastDigit(n: nat, d: nat, i: nat, q: nat, rest: nat, digit: nat, r: nat)
    requires Generated(n, d, i, q, rest) && rest == digit * d + r && r < d
    ensures var up := Sign(r + r - d) > 0 || (Sign(r + r - d) == 0 && digit % 2 != 0);
            RoundHalfEven(n * Power(10, i), d) == 10 * q + digit + (if up then 1 else 0)
  {
    hide Power;
    GeneratedStep(n, d, i, q, rest, digit, r);
    Arith.DivUnique(n * Power(10, i), d, 10 * q + digit, r);
  }

  /** The fixed-digit path of `format_dragon`. For a positive number of digits the
      digits with the final exponent are the value correctly rounded; the first is
      zero exactly when the rounded value has fewer digits than asked for. */
  method FixedDigits(numerator: Bigint, denominator: Bigint, numDigits: int, exp10: int)
      returns (buf: seq<nat>, exp: int)
    requires numerator != denominator && Dividing(numerator.State(), denominator.State())
    modifies numerator, denominator
    ensures AllDigits(buf) && exp >= exp10 - (numDigits - 1)
    ensures numDigits > 0 ==> |buf| == numDigits
    ensures numDigits > 0 ==>
              Decimal(buf) * Power(10, exp - (exp10 - (numDigits - 1)))
              == old(RoundHalfEven(numerator.V() * Power(10, numDigits - 1), denominator.V()))
    ensures numDigits > 0 ==>
              (buf[0] > 0 <==> Power(10, numDigits - 1)
                               <= old(RoundHalfEven(numerator.V() * Power(10, numDigits - 1), denominator.V())))
    ensures numDigits <= 0 ==> exp == exp10 - (numDigits - 1)
    ensures numDigits <= 0 ==> buf == [if old(2 * numerator.V() > 10 * denominator.V()) then 1 else 0]
  {
    hide Decimal, Power, Val, RoundHalfEven;
    exp := exp10 - (numDigits - 1);
    Tens(0);
    if numDigits <= 0 {
      denominator.Multiply(10);
      ValBounds(old(denominator.State()));
      LargerNotShorter(old(denominator.State()), denominator.State());
      var c := Bigint.AddCompare(numerator, numerator, denominator);
      buf := [if c > 0 then 1 else 0];
      return;
    }
    ghost var n, d := numerator.V(), denominator.V();
    ValBounds(denominator.State());
    buf := LeadingDigits(numerator, denominator, numDigits);
    ghost var q, rest := Decimal(buf[..numDigits - 1]), numerator.V();
    var digit := NextDigit(numerator, denominator);
    var result := Bigint.AddCompare(numerator, numerator, denominator);
    LastDigit(n, d, numDigits - 1, q, rest, digit, numerator.V());
    ghost var leading := buf[..numDigits - 1];
    if result > 0 || (result == 0 && digit % 2 != 0) {
      if digit == 9 {
        buf := buf[numDigits - 1 := OVERFLOW];
        WithLast(buf, leading);
        buf, exp := PropagateCarry(buf, exp);
        return;
      }
      digit := digit + 1;
    }
    buf := buf[numDigits - 1 := digit];
    WithLast(buf, leading);
    DecimalBounds(buf);
  }

  lemma LargerNotShorter(n: Big, m: Big)
    requires Normal(n) && Val(n) <= Val(m)
    ensures Size(n) <= Size(m)
  {
    if Size(m) < Size(n) {
      LongerIsLarger(n, m);
    }
  }

  lemma WithLast(buf: seq<nat>, leading: seq<nat>)
    requires |buf| > 0 && buf[..|buf| - 1] == leading && AllDigits(leading)
    ensures Decimal(buf) == 10 * Decimal(leading) + buf[|buf| - 1]
    ensures buf[|buf| - 1] < 10 ==> AllDigits(buf)
  {
    forall i | 0 <= i < |buf| && buf[|buf| - 1] < 10 ensures buf[i] < 10 {
      if i < |buf| - 1 {
        assert buf[i] == leading[i];
      }
    }
  }

  /** Asked for no digits, or fewer, the program prints one digit in the unit above
      the last requested place. That is the rounded value exactly when no digit
      was asked for or the value is at most half of ten units of `exp10`. */
  lemma NoDigitsRounding(n: nat, d: nat, numDigits: int)
    requires 0 < d && n < 10 * d && numDigits <= 0
    ensures (if 2 * n > 10 * d then 1 else 0) == RoundHalfEven(n, d * Power(10, 1 - numDigits))
            <==> numDigits == 0 || 2 * n <= 10 * d
  {
    Tens(-numDigits);
    var p, q := Power(10, -numDigits), Power(10, 1 - numDigits);
    assert d * q == 10 * (d * p);
    Monotone(1, p, d);
    if numDigits < 0 {
      Tens(-numDigits - 1);
      Monotone(10, p, d);
    }
    Arith.DivUnique(n, d * q, 0, n);
  }

  // ----------------------------------------------------------------- setup

  /** Numerator, denominator and the distances to the neighbours' midpoints, all in
      the same scale, for the value `f * 2^e`. `closer` is the flag for a lower
      neighbour at half the distance. */
  ghost predicate ScaledValue(n: nat, d: nat, l: nat, u: nat, f: nat, e: int, exp10: int, closer: bool) {
    && n * ScaledDen(e, exp10) == d * ScaledNum(f, e, exp10)
    && (if closer then 4 else 2) * l * ScaledDen(e, exp10) == d * ScaledNum(1, e, exp10)
    && 2 * u * ScaledDen(e, exp10) == d * ScaledNum(1, e, exp10)
  }

  /** The first part of `format_dragon`: the four numbers from significand and
      exponents, in three cases. */
  method Setup(f: nat, e: int, exp10: int, closer: bool)
      returns (numerator: Bigint, denominator: Bigint, lower: Bigint, upper: Bigint)
    requires 0 < f < MODULUS * MODULUS * MODULUS * MODULUS
    requires -0x4000_0000 < exp10 < 0x4000_0000 && (e >= 0 ==> exp10 >= 0)
    ensures fresh(numerator) && fresh(denominator) && fresh(lower) && fresh(upper)
    ensures numerator != denominator && lower != numerator && lower != denominator
    ensures upper != numerator && upper != denominator && (upper == lower <==> !closer)
    ensures Normal(numerator.State()) && Normal(denominator.State())
    ensures Normal(lower.State()) && Normal(upper.State())
    ensures ScaledValue(numerator.V(), denominator.V(), lower.V(), upper.V(), f, e, exp10, closer)
    ensures numerator.exp == NumeratorExp(e, exp10, closer) && denominator.exp == DenominatorExp(e, exp10, closer)
    ensures lower.exp == LowerExp(e, exp10)
  {
    hide ScaledValue, Val;
    numerator := new Bigint();
    denominator := new Bigint();
    lower := new Bigint();
    upper := lower;
    if closer {
      upper := new Bigint();
    }
    if e >= 0 {
      SetupIntegral(numerator, denominator, lower, upper, f, e, exp10, closer);
    } else if exp10 < 0 {
      SetupSmall(numerator, denominator, lower, upper, f, e, exp10, closer);
    } else {
      SetupMixed(numerator, denominator, lower, upper, f, e, exp10, closer);
    }
  }

  method SetupIntegral(numerator: Bigint, denominator: Bigint, lower: Bigint, upper: Bigint,
      f: nat, e: int, exp10: int, closer: bool)
    requires 0 < f && 0 <= e && 0 <= exp10 < 0x4000_0000
    requires numerator != denominator && lower != numerator && lower != denominator
    requires upper != numerator && upper != denominator && (upper == lower <==> !closer)
    modifies numerator, denominator, lower, upper
    ensures Normal(numerator.State()) && Normal(denominator.State())
    ensures Normal(lower.State()) && Normal(upper.State())
    ensures ScaledValue(numerator.V(), denominator.V(), lower.V(), upper.V(), f, e, exp10, closer)
    ensures numerator.exp == NumeratorExp(e, exp10, closer) && denominator.exp == DenominatorExp(e, exp10, closer)
    ensures lower.exp == LowerExp(e, exp10)
  {
    hide Num, Base, Power, Pow2, Val, ScaledValue;
    var shift := if closer then 2 else 1;
    numerator.Assign(f);
    numerator.ShiftLeft(e + shift);
    lower.Assign(1);
    lower.ShiftLeft(e);
    if closer {
      upper.Assign(1);
      upper.ShiftLeft(e + 1);
    }
    denominator.AssignPow10(exp10);
    denominator.ShiftLeft(shift);
    IntegralScale(numerator.V(), denominator.V(), lower.V(), upper.V(), f, e, exp10, closer);
  }

  method SetupSmall(numerator: Bigint, denominator: Bigint, lower: Bigint, upper: Bigint,
      f: nat, e: int, exp10: int, closer: bool)
    requires 0 < f < MODULUS * MODULUS * MODULUS * MODULUS && e < 0 && -0x4000_0000 < exp10 < 0
    requires numerator != denominator && lower != numerator && lower != denominator
    requires upper != numerator && upper != denominator && (upper == lower <==> !closer)
    modifies numerator, denominator, lower, upper
    ensures Normal(numerator.State()) && Normal(denominator.State())
    ensures Normal(lower.State()) && Normal(upper.State())
    ensures ScaledValue(numerator.V(), denominator.V(), lower.V(), upper.V(), f, e, exp10, closer)
    ensures numerator.exp == NumeratorExp(e, exp10, closer) && denominator.exp == DenominatorExp(e, exp10, closer)
    ensures lower.exp == LowerExp(e, exp10)
  {
    hide Num, Base, Power, Pow2, Val, ScaledValue;
    var shift := if closer then 2 else 1;
    numerator.AssignPow10(-exp10);
    lower.AssignBigint(numerator);
    if closer {
      upper.AssignBigint(numerator);
      upper.ShiftLeft(1);
    }
    numerator.MultiplyWide(f, MODULUS * MODULUS);
    numerator.ShiftLeft(shift);
    denominator.Assign(1);
    denominator.ShiftLeft(shift - e);
    SmallScale(numerator.V(), denominator.V(), lower.V(), upper.V(), f, e, exp10, closer);
  }

  method SetupMixed(numerator: Bigint, denominator: Bigint, lower: Bigint, upper: Bigint,
      f: nat, e: int, exp10: int, closer: bool)
    requires 0 < f && e < 0 && 0 <= exp10 < 0x4000_0000
    requires numerator != denominator && lower != numerator && lower != denominator
    requires upper != numerator && upper != denominator && (upper == lower <==> !closer)
    modifies numerator, denominator, lower, upper
    ensures Normal(numerator.State()) && Normal(denominator.State())
    ensures Normal(lower.State()) && Normal(upper.State())
    ensures ScaledValue(numerator.V(), denominator.V(), lower.V(), upper.V(), f, e, exp10, closer)
    ensures numerator.exp == NumeratorExp(e, exp10, closer) && denominator.exp == DenominatorExp(e, exp10, closer)
    ensures lower.exp == LowerExp(e, exp10)
  {
    hide Num, Base, Power, Pow2, Val, ScaledValue;
    var shift := if closer then 2 else 1;
    numerator.Assign(f);
    numerator.ShiftLeft(shift);
    denominator.AssignPow10(exp10);
    denominator.ShiftLeft(shift - e);
    lower.Assign(1);
    if closer {
      upper.Assign(2);
    }
    MixedScale(numerator.V(), denominator.V(), lower.V(), upper.V(), f, e, exp10, closer);
  }

  ghost function Shift(closer: bool): nat {
    if closer then 2 else 1
  }

  /** The bigit exponents the three cases leave. */
  ghost function NumeratorExp(e: int, exp10: int, closer: bool): int {
    if e >= 0 then (e + Shift(closer)) / WORD else if exp10 < 0 then -exp10 / WORD else 0
  }

  ghost function DenominatorExp(e: int, exp10: int, closer: bool): int {
    if e >= 0 then exp10 / WORD
    else if exp10 < 0 then (Shift(closer) - e) / WORD
    else exp10 / WORD + (Shift(closer) - e) / WORD
  }

  ghost function LowerExp(e: int, exp10: int): int {
    if e >= 0 then e / WORD else if exp10 < 0 then -exp10 / WORD else 0
  }

  lemma IntegralScale(n: nat, d: nat, l: nat, u: nat, f: nat, e: nat, exp10: nat, closer: bool)
    requires n == f * Pow2(e + Shift(closer)) && d == Power(10, exp10) * Pow2(Shift(closer))
    requires l == Pow2(e) && u == if closer then Pow2(e + 1) else l
    ensures ScaledValue(n, d, l, u, f, e, exp10, closer)
  {
    Tens(0);
    Pow2Sum(e, Shift(closer));
    Pow2IsPower(e);
    assert Power(2, 0) == 1;
    NextPow2(e);
    hide Power, Pow2;
    Arith.MulAssociative(f, Pow2(e), Pow2(Shift(closer)));
    CommonScale(n, d, l, u, f, e, exp10, closer);
  }

  lemma SmallScale(n: nat, d: nat, l: nat, u: nat, f: nat, e: int, exp10: int, closer: bool)
    requires e < 0 && exp10 < 0
    requires n == Power(10, -exp10) * f * Pow2(Shift(closer)) && d == Pow2(Shift(closer) - e)
    requires l == Power(10, -exp10) && u == if closer then l * Pow2(1) else l
    ensures ScaledValue(n, d, l, u, f, e, exp10, closer)
  {
    Tens(0);
    Pow2Sum(Shift(closer), -e);
    Pow2IsPower(-e);
    assert Power(2, 0) == 1 && Pow2(1) == 2 * Pow2(0) == 2;
    hide Power, Pow2, ScaledValue;
    assert ScaledNum(f, e, exp10) == f * Power(10, -exp10) && ScaledNum(1, e, exp10) == Power(10, -exp10);
    assert ScaledDen(e, exp10) == Pow2(-e);
    hide ScaledNum, ScaledDen;
    CommonScale(n, d, l, u, f, e, exp10, closer);
  }

  lemma MixedScale(n: nat, d: nat, l: nat, u: nat, f: nat, e: int, exp10: int, closer: bool)
    requires e < 0 && exp10 >= 0
    requires n == f * Pow2(Shift(closer)) && d == Power(10, exp10) * Pow2(Shift(closer) - e)
    requires l == 1 && u == if closer then 2 else l
    ensures ScaledValue(n, d, l, u, f, e, exp10, closer)
  {
    Tens(0);
    Pow2Sum(Shift(closer), -e);
    Pow2IsPower(-e);
    assert Power(2, 0) == 1;
    hide Power, Pow2, ScaledValue;
    assert ScaledNum(f, e, exp10) == f && ScaledNum(1, e, exp10) == 1;
    assert ScaledDen(e, exp10) == Pow2(-e) * Power(10, exp10);
    hide ScaledNum, ScaledDen;
    var t, x, y := Power(10, exp10), Pow2(Shift(closer)), Pow2(-e);
    Arith.MulAssociative(t, x, y);
    Arith.MulAssociative(x, t, y);
    CommonScale(n, d, l, u, f, e, exp10, closer);
  }

  /** A factor common to all four numbers does not matter. */
  lemma CommonScale(n: nat, d: nat, l: nat, u: nat, f: nat, e: int, exp10: int, closer: bool)
    requires var c := Pow2(Shift(closer));
             n == c * ScaledNum(f, e, exp10) && d == c * ScaledDen(e, exp10)
    requires l == ScaledNum(1, e, exp10) && u == (if closer then 2 * l else l)
    ensures ScaledValue(n, d, l, u, f, e, exp10, closer)
  {
    assert Pow2(1) == 2 && Pow2(2) == 4 by { assert Pow2(0) == 1; }
    hide ScaledNum, ScaledDen, Pow2;
    var c := Pow2(Shift(closer));
    Swap(c, ScaledNum(f, e, exp10), ScaledDen(e, exp10));
    Swap(c, l, ScaledDen(e, exp10));
  }

  lemma Swap(c: int, a: int, b: int)
    ensures c * a * b == c * b * a
  {
    Arith.MulAssociative(c, a, b);
    Arith.MulAssociative(c, b, a);
  }
}
