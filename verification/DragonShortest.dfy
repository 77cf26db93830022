/**
 The shortest-representation path of `format_dragon`: digits are generated until
 what was printed identifies the value.
 */
module DragonShortest {
  import opened BigNum
  import opened Bigints
  import opened Decimals
  import opened DragonFixed
  import Arith

  /** How an interval around the value is closed: whether its lower end counts, and
      whether its upper end does. */
  datatype Ends = Ends(lower: bool, upper: bool)

  /** `x`, read with `k` digits after the first, lies in the interval from `l / d`
      below `n / d` to `u / d` above it. */
  ghost predicate Inside(n: nat, d: nat, l: nat, u: nat, ends: Ends, k: nat, x: nat) {
    && (n * Power(10, k) - x * d < l * Power(10, k) || (ends.lower && n * Power(10, k) - x * d == l * Power(10, k)))
    && (x * d - n * Power(10, k) < u * Power(10, k) || (ends.upper && x * d - n * Power(10, k) == u * Power(10, k)))
  }

  ghost predicate NoneInside(n: nat, d: nat, l: nat, u: nat, ends: Ends, k: nat) {
    forall x: nat :: !Inside(n, d, l, u, ends, k, x)
  }

  /** The two tests, exactly: the digit itself, or the next one, is inside. */
  predicate IsLow(r: nat, l: nat, ends: Ends) {
    r < l || (ends.lower && r == l)
  }

  predicate IsHigh(r: nat, u: nat, d: nat, ends: Ends) {
    r + u > d || (ends.upper && r + u == d)
  }

  /** If neither test succeeds, no number with these digits is inside. */
  lemma ContinueMeansNone(n: nat, d: nat, l: nat, u: nat, ends: Ends, k: nat, q: nat, r: nat)
    requires n * Power(10, k) == q * d + r
    requires !IsLow(r, l * Power(10, k), ends) && !IsHigh(r, u * Power(10, k), d, ends)
    ensures NoneInside(n, d, l, u, ends, k)
  {
    hide Power;
    var p := Power(10, k);
    forall x: nat ensures !Inside(n, d, l, u, ends, k, x) {
      if x <= q {
        Monotone(x, q, d);
      } else {
        Monotone(q + 1, x, d);
      }
    }
  }

  /** Whether a tenfold remainder may still reach the next digit. */
  ghost predicate Short(rest: nat, u: nat, d: nat, even: int) {
    Sign(rest + u - 10 * d) + even <= 0
  }

  /** The exponent the numerator has whenever it can equal `lower`: it is `exp` from
      the start, or from the first nonzero digit, and before that larger. */
  ghost predicate Levelled(num: Big, den: Big, low: Big, exp: nat) {
    && exp <= low.exp && exp <= den.exp
    && (num.exp == exp || (num.exp > exp == den.exp && Normal(num) && Val(num) > Val(low)))
  }

  /** The numbers of one round of the loop. */
  ghost predicate Round(num: Big, den: Big, low: Big, up: Big, even: int, exp: nat) {
    && Dividing(num, den) && Normal(low) && Normal(up)
    && Levelled(num, den, low, exp)
    && Short(Val(num), Val(up), Val(den), even)
  }

  /** The ends that count for the program: both for an even significand, except the
      lower one when `compare` sees a larger exponent in `lower`. */
  function EndsOf(even: int, exp: nat, lowExp: nat): Ends {
    Ends(even == 1 && exp == lowExp, even == 1)
  }

  /** The two tests after a digit, exactly. */
  method Decide(numerator: Bigint, denominator: Bigint, lower: Bigint, upper: Bigint, even: int, ghost exp: nat)
      returns (low: bool, high: bool)
    requires Normal(denominator.State()) && Fits(numerator.State(), denominator.State())
    requires Normal(lower.State()) && Normal(upper.State()) && 0 <= even <= 1
    requires Levelled(numerator.State(), denominator.State(), lower.State(), exp)
    ensures low <==> IsLow(numerator.V(), lower.V(), EndsOf(even, exp, lower.exp))
    ensures high <==> IsHigh(numerator.V(), upper.V(), denominator.V(), EndsOf(even, exp, lower.exp))
  {
    hide Val, Num;
    var c := Bigint.Compare(numerator, lower);
    low := c - even < 0;
    c := Bigint.AddCompare(numerator, upper, denominator);
    high := c + even > 0;
  }

  /** The last digit, once a test has succeeded. */
  method Finish(digit: nat, low: bool, high: bool, numerator: Bigint, denominator: Bigint) returns (last: nat)
    requires low || high
    requires Normal(denominator.State()) && Fits(numerator.State(), denominator.State())
    ensures last == digit || last == digit + 1
    ensures last == digit + 1 ==> high
    ensures last == digit ==> low
    ensures low && high ==> (last == digit + 1 ==> 2 * numerator.V() >= denominator.V())
    ensures low && high ==> (last == digit ==> 2 * numerator.V() <= denominator.V())
  {
    last := digit;
    if !low {
      last := digit + 1;
    } else if high {
      var result := Bigint.AddCompare(numerator, numerator, denominator);
      if result > 0 || (result == 0 && digit % 2 != 0) {
        last := digit + 1;
      }
    }
  }

  function Abs(x: int): nat {
    if x >= 0 then x else -x
  }

  /** No number with `k` digits after the first inside the interval is nearer. */
  ghost predicate Closest(n: nat, d: nat, l: nat, u: nat, ends: Ends, k: nat, q: nat) {
    forall x: nat :: Inside(n, d, l, u, ends, k, x)
             ==> Abs(q * d - n * Power(10, k)) <= Abs(x * d - n * Power(10, k))
  }

  lemma FinishMeansClosest(n: nat, d: nat, l: nat, u: nat, ends: Ends, k: nat, q: nat, r: nat, q': nat)
    requires n * Power(10, k) == q * d + r && r < d && l * Power(10, k) > 0 && u * Power(10, k) > 0
    requires var low, high := IsLow(r, l * Power(10, k), ends), IsHigh(r, u * Power(10, k), d, ends);
             (q' == q && low && (high ==> 2 * r <= d)) || (q' == q + 1 && high && (low ==> 2 * r >= d))
    ensures Inside(n, d, l, u, ends, k, q') && Closest(n, d, l, u, ends, k, q')
  {
    hide Power;
    var p := Power(10, k);
    assert (q + 1) * d == q * d + d;
    forall x: nat | Inside(n, d, l, u, ends, k, x)
      ensures Abs(q' * d - n * p) <= Abs(x * d - n * p)
    {
      if x <= q {
        Monotone(x, q, d);
      } else {
        Monotone(q + 1, x, d);
      }
    }
  }

  /** All three numbers times ten, between digits. */
  method TenfoldAll(numerator: Bigint, denominator: Bigint, lower: Bigint, upper: Bigint, even: int, ghost exp: nat)
    requires numerator != denominator && lower != numerator && lower != denominator
    requires upper != numerator && upper != denominator
    requires Dividing(numerator.State(), denominator.State()) && numerator.V() < denominator.V()
    requires Normal(lower.State()) && Normal(upper.State())
    requires Sign(numerator.V() + upper.V() - denominator.V()) + even <= 0
    requires Levelled(numerator.State(), denominator.State(), lower.State(), exp)
    modifies numerator, lower, upper
    ensures numerator.V() == 10 * old(numerator.V()) && lower.V() == 10 * old(lower.V())
    ensures upper.V() == 10 * old(upper.V()) && lower.exp == old(lower.exp)
    ensures Round(numerator.State(), denominator.State(), lower.State(), upper.State(), even, exp)
  {
    hide Val, Dividing;
    TimesTen(numerator, denominator);
    lower.Multiply(10);
    if upper != lower {
      upper.Multiply(10);
    }
  }

  /** A digit that is still to be raised is not a nine. */
  lemma NotNine(rest: nat, u: nat, d: nat, even: int, digit: nat, r: nat)
    requires Short(rest, u, d, even) && rest == digit * d + r && digit < 10
    requires Sign(r + u - d) + even > 0
    ensures digit < 9
  {
    assert digit == 9 ==> digit * d == 9 * d;
  }

  /** Taking a digit levels the numerator, or leaves it as it was. */
  lemma Remainder(num: Big, before: Big, den: Big, low: Big, exp: nat, digit: nat)
    requires Levelled(before, den, low, exp) && Fits(num, den)
    requires num.exp == if digit > 0 && before.exp > den.exp then den.exp else before.exp
    requires digit == 0 ==> Val(num) == Val(before)
    ensures Levelled(num, den, low, exp)
  {
    if num.exp > exp {
      FitsPositive(num, den);
    }
  }

  lemma TenfoldDistance(l: nat, k: nat)
    ensures 10 * (l * Power(10, k)) == l * Power(10, k + 1)
  {
    Tens(k);
  }

  /** What has been printed, with what is left of the three numbers. */
  ghost predicate Progress(n: nat, d: nat, l: nat, u: nat, ends: Ends, buf: seq<nat>, rest: nat, low: nat, up: nat) {
    && AllDigits(buf) && Generated(n, d, |buf|, Decimal(buf), rest)
    && low == l * Power(10, |buf|) && up == u * Power(10, |buf|)
    && forall k | 0 <= k < |buf| :: NoneInside(n, d, l, u, ends, k)
  }

  /** The digits printed are right: inside the interval, as few as possible, and the
      nearest of as many. */
  ghost predicate Identifies(n: nat, d: nat, l: nat, u: nat, ends: Ends, buf: seq<nat>) {
    && |buf| > 0 && AllDigits(buf)
    && Inside(n, d, l, u, ends, |buf| - 1, Decimal(buf))
    && Closest(n, d, l, u, ends, |buf| - 1, Decimal(buf))
    && forall k | 0 <= k < |buf| - 1 :: NoneInside(n, d, l, u, ends, k)
  }

  lemma ProgressNone(n: nat, d: nat, l: nat, u: nat, ends: Ends)
    ensures Progress(n, d, l, u, ends, [], n, l, u)
  {
    NoDigits();
    Tens(0);
  }

  lemma ProgressStep(n: nat, d: nat, l: nat, u: nat, ends: Ends, buf: seq<nat>, rest: nat, low: nat, up: nat,
                     digit: nat, r: nat)
    requires Progress(n, d, l, u, ends, buf, rest, low, up)
    requires rest == digit * d + r && digit < 10 && !IsLow(r, low, ends) && !IsHigh(r, up, d, ends)
    ensures Progress(n, d, l, u, ends, buf + [digit], 10 * r, 10 * low, 10 * up)
  {
    hide Decimal, Power, Generated, NoneInside;
    GeneratedStep(n, d, |buf|, Decimal(buf), rest, digit, r);
    ContinueMeansNone(n, d, l, u, ends, |buf|, 10 * Decimal(buf) + digit, r);
    TenfoldDistance(l, |buf|);
    TenfoldDistance(u, |buf|);
    DecimalPush(buf, digit);
  }

  lemma ProgressEnd(n: nat, d: nat, l: nat, u: nat, ends: Ends, buf: seq<nat>, rest: nat, low: nat, up: nat,
                    digit: nat, r: nat, last: nat)
    requires Progress(n, d, l, u, ends, buf, rest, low, up) && low > 0 && up > 0
    requires rest == digit * d + r && r < d && last < 10
    requires var isLow, isHigh := IsLow(r, low, ends), IsHigh(r, up, d, ends);
             (last == digit && isLow && (isHigh ==> 2 * r <= d)) || (last == digit + 1 && isHigh && (isLow ==> 2 * r >= d))
    ensures Identifies(n, d, l, u, ends, buf + [last])
  {
    hide Decimal, Power, Generated, NoneInside, Inside, Closest;
    GeneratedStep(n, d, |buf|, Decimal(buf), rest, digit, r);
    FinishMeansClosest(n, d, l, u, ends, |buf|, 10 * Decimal(buf) + digit, r, 10 * Decimal(buf) + last);
    DecimalPush(buf, last);
  }

  /** The loop of the shortest path. */
  method ShortestDigits(numerator: Bigint, denominator: Bigint, lower: Bigint, upper: Bigint, even: int, exp10: int,
                        ghost level: nat) returns (buf: seq<nat>, exp: int)
    requires numerator != denominator && lower != numerator && lower != denominator
    requires upper != numerator && upper != denominator && 0 <= even <= 1
    requires Round(numerator.State(), denominator.State(), lower.State(), upper.State(), even, level)
    modifies numerator, lower, upper
    ensures exp == exp10 - (|buf| - 1)
    ensures Identifies(old(numerator.V()), denominator.V(), old(lower.V()), old(upper.V()),
                       EndsOf(even, level, old(lower.exp)), buf)
  {
    hide Val, Dividing, Progress, Identifies, Fits, Base;
    ghost var n, d, l, u := numerator.V(), denominator.V(), lower.V(), upper.V();
    ghost var den, ends := denominator.State(), EndsOf(even, level, lower.exp);
    buf := [];
    ProgressNone(n, d, l, u, ends);
    while true
      invariant denominator.State() == den && lower.exp == old(lower.exp)
      invariant Progress(n, d, l, u, ends, buf, numerator.V(), lower.V(), upper.V())
      invariant Round(numerator.State(), den, lower.State(), upper.State(), even, level)
      decreases d - lower.V()
    {
      ghost var rest, num := numerator.V(), numerator.State();
      var digit := NextDigit(numerator, denominator);
      DividingMeans(numerator.State(), den);
      Remainder(numerator.State(), num, den, lower.State(), level, digit);
      ValBounds(lower.State());
      ValBounds(upper.State());
      var low, high := Decide(numerator, denominator, lower, upper, even, level);
      ghost var r := numerator.V();
      if low || high {
        var last := Finish(digit, low, high, numerator, denominator);
        if high {
          NotNine(rest, upper.V(), d, even, digit, r);
        }
        ProgressEnd(n, d, l, u, ends, buf, rest, lower.V(), upper.V(), digit, r, last);
        buf := buf + [last];
        exp := exp10 - (|buf| - 1);
        return;
      }
      ProgressStep(n, d, l, u, ends, buf, rest, lower.V(), upper.V(), digit, r);
      buf := buf + [digit];
      TenfoldAll(numerator, denominator, lower, upper, even, level);
    }
  }
}
