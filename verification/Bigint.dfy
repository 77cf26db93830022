/** `fmt::detail::bigint`: exact arithmetic on arrays of 32-bit digits. */
module Bigints {
  import opened U32
  import opened Bits
  import opened BigNum
  import opened Convolution
  import Arith

  const WORD: nat := 32

  class Bigint {
    var bigits: seq<u32>
    var exp: nat

    constructor ()
      ensures State() == Big([], 0)
    {
      bigits, exp := [], 0;
    }

    function State(): Big
      reads this
    {
      Big(bigits, exp)
    }

    ghost function V(): nat
      reads this
    {
      Val(State())
    }

    /** `operator*=` with a 32-bit factor. */
    method Multiply(value: u32)
      requires value > 0
      modifies `bigits
      ensures V() == old(V()) * value
      ensures old(Normal(State())) ==> Normal(State())
      ensures old(Num(bigits)) == 0 ==> |bigits| == old(|bigits|)
    {
      hide Num, Base, Multiplied;
      var carry: u32 := 0;
      ghost var before := bigits;
      var i, n := 0, |bigits|;
      MultipliedNone(bigits, value);
      while i < n
        invariant i <= n == |bigits| == |before| && carry < value
        invariant Multiplied(bigits, before, value, carry, i)
        invariant i == n > 0 && before[n - 1] != 0 ==> bigits[n - 1] != 0 || carry != 0
      {
        var result := bigits[i] * value + carry;
        NarrowStep(bigits[i], value, carry);
        MultipliedStep(bigits, before, value, carry, i, Wrap(result), result / MODULUS);
        bigits := bigits[i := Wrap(result)];
        carry := result / MODULUS;
        i := i + 1;
      }
      MultipliedAll(bigits, before, value, carry);
      if carry != 0 {
        Monotone(1, carry, Base(n));
        NumPush(bigits, carry);
        bigits := bigits + [carry];
      }
      Scale(Num(before), value, Base(exp));
    }

    /** `operator*=` with a 64-bit factor (halves of one bigit) or a 128-bit one
        (halves of two), whose product with a bigit does not fit the type. */
    method MultiplyWide(value: nat, half: nat)
      requires half == MODULUS || half == MODULUS * MODULUS
      requires 0 < value < half * half
      modifies `bigits
      ensures V() == old(V()) * value
      ensures old(Normal(State())) ==> Normal(State())
    {
      hide Num, Base, Multiplied;
      var lower, upper := value % half, value / half;
      var carry: nat := 0;
      ghost var before := bigits;
      var i, n := 0, |bigits|;
      MultipliedNone(bigits, value);
      while i < n
        invariant i <= n == |bigits| == |before| && carry < value
        invariant Multiplied(bigits, before, value, carry, i)
        invariant i == n > 0 && before[n - 1] != 0 ==> bigits[n - 1] != 0 || carry != 0
      {
        var result := lower * bigits[i] + carry % MODULUS;
        WideStep(value, half, bigits[i], carry);
        ghost var was, c := bigits, carry;
        carry := upper * bigits[i] * (half / MODULUS) + result / MODULUS + carry / MODULUS;
        MultipliedStep(was, before, value, c, i, Wrap(result), carry);
        bigits := bigits[i := Wrap(result)];
        i := i + 1;
      }
      MultipliedAll(bigits, before, value, carry);
      while carry != 0
        invariant Num(bigits) + carry * Base(|bigits|) == Num(before) * value
        invariant |before| > 0 && before[n - 1] != 0 && carry == 0 ==> Normal(State())
        decreases carry
      {
        CarryOut(bigits, carry);
        bigits := bigits + [Wrap(carry)];
        carry := carry / MODULUS;
      }
      Scale(Num(before), value, Base(exp));
    }

    method Assign(value: nat)
      modifies this
      ensures V() == value && exp == 0 && |bigits| > 0
      ensures value > 0 ==> Normal(State())
    {
      hide Num, Base;
      bigits, exp := [], 0;
      var n: nat := value;
      Empty();
      while true
        invariant exp == 0 && Num(bigits) + n * Base(|bigits|) == value
        invariant n >= 0 && (n == 0 ==> |bigits| == 0)
        decreases n
      {
        CarryOut(bigits, n);
        bigits := bigits + [Wrap(n)];
        n := n / MODULUS;
        if n == 0 {
          break;
        }
      }
    }

    method AssignBigint(other: Bigint)
      modifies this
      ensures State() == old(other.State())
    {
      bigits, exp := other.bigits, other.exp;
    }

    /** The loop of `operator<<=`: a shift by less than a bigit. */
    method ShiftBits(s: nat)
      requires 0 < s < WORD
      modifies `bigits
      ensures Num(bigits) == Num(old(bigits)) * Pow2(s)
      ensures old(Normal(State())) ==> Normal(State())
    {
      hide Num, Base, Pow2, Multiplied;
      var carry: u32 := 0;
      ghost var before := bigits;
      var i, n := 0, |bigits|;
      MultipliedNone(bigits, Pow2(s));
      while i < n
        invariant i <= n == |bigits| == |before| && carry < Pow2(s)
        invariant Multiplied(bigits, before, Pow2(s), carry, i)
        invariant i == n > 0 && before[n - 1] != 0 ==> bigits[n - 1] != 0 || carry != 0
      {
        ShiftStep(bigits[i], s, carry);
        var c := bigits[i] / Pow2(WORD - s);
        MultipliedStep(bigits, before, Pow2(s), carry, i, Wrap(bigits[i] * Pow2(s)) + carry, c);
        bigits := bigits[i := Wrap(bigits[i] * Pow2(s)) + carry];
        carry := c;
        i := i + 1;
      }
      MultipliedAll(bigits, before, Pow2(s), carry);
      if carry != 0 {
        NumPush(bigits, carry);
        bigits := bigits + [carry];
      }
    }

    /** `operator<<=`. */
    method ShiftLeft(shift: nat)
      modifies this
      ensures V() == old(V()) * Pow2(shift) && exp == old(exp) + shift / WORD
      ensures old(Normal(State())) ==> Normal(State())
    {
      hide Num, Base, Pow2;
      exp := exp + shift / WORD;
      Empty();
      if shift % WORD != 0 {
        ShiftBits(shift % WORD);
      }
      ShiftParts(Num(bigits), Num(old(bigits)), old(exp), shift);
    }

    /** Compares two numbers. Of equal numbers, the one with the smaller exponent
        is reported as larger. */
    static method Compare(lhs: Bigint, rhs: Bigint) returns (c: int)
      requires Ranked(lhs.State(), rhs.State())
      ensures lhs.V() != rhs.V() ==> c == Sign(lhs.V() - rhs.V())
      ensures lhs.V() == rhs.V() ==> c == Sign(rhs.exp - lhs.exp)
    {
      hide Num, Base, Below;
      ghost var l, r := lhs.State(), rhs.State();
      DifferentSizes(l, r);
      if Size(lhs.State()) != Size(rhs.State()) {
        return if Size(lhs.State()) > Size(rhs.State()) then 1 else -1;
      }
      var i, j := |lhs.bigits| - 1, |rhs.bigits| - 1;
      var end := if i - j < 0 then 0 else i - j;
      ValIsBelow(l, Size(l));
      ValIsBelow(r, Size(r));
      while i >= end
        invariant end - 1 <= i < |lhs.bigits| && -1 <= j < |rhs.bigits|
        invariant i + lhs.exp == j + rhs.exp
        invariant Val(l) - Val(r) == Below(l, i + 1 + l.exp) - Below(r, i + 1 + l.exp)
      {
        var a, b := lhs.bigits[i], rhs.bigits[j];
        BigitDecides(l, r, i + l.exp);
        BigitDecides(r, l, i + l.exp);
        if a != b {
          return if a > b then 1 else -1;
        }
        i, j := i - 1, j - 1;
      }
      BelowBound(l, i + 1 + l.exp);
      BelowBound(r, i + 1 + l.exp);
      if i != j {
        return if i > j then 1 else -1;
      }
      c := 0;
    }

    /** Compares `a + b` with `c` without forming the sum. */
    static method AddCompare(lhs1: Bigint, lhs2: Bigint, rhs: Bigint) returns (c: int)
      requires Normal(rhs.State())
      requires Normal(lhs1.State()) || Size(lhs1.State()) <= Size(rhs.State())
      requires Normal(lhs2.State()) || Size(lhs2.State()) <= Size(rhs.State())
      ensures c == Sign(lhs1.V() + lhs2.V() - rhs.V())
    {
      hide Num, Base, Below;
      ghost var a, b, r := lhs1.State(), lhs2.State(), rhs.State();
      var longest := if Size(lhs1.State()) > Size(lhs2.State()) then Size(lhs1.State()) else Size(lhs2.State());
      var size := Size(rhs.State());
      EarlyExits(a, b, r, longest);
      if longest + 1 < size {
        return -1;
      }
      if longest > size {
        return 1;
      }
      var borrow := 0;
      var minExp := if lhs1.exp < lhs2.exp then lhs1.exp else lhs2.exp;
      minExp := if rhs.exp < minExp then rhs.exp else minExp;
      var i := size - 1;
      ValIsBelow(a, size);
      ValIsBelow(b, size);
      ValIsBelow(r, size);
      ghost var owed := 0;
      while i >= minExp
        invariant minExp - 1 <= i < size && 0 <= owed <= 1 && borrow == owed * MODULUS
        invariant Val(r) - Val(a) - Val(b) == Excess(a, b, r, i + 1) + owed * Base(i + 1)
      {
        ExcessStep(a, b, r, i, owed);
        var sum := Bigit(lhs1.State(), i) + Bigit(lhs2.State(), i);
        var digit := Bigit(rhs.State(), i);
        ExcessDecides(a, b, r, i, digit + borrow - sum);
        if sum > digit + borrow {
          return 1;
        }
        borrow := digit + borrow - sum;
        if borrow > 1 {
          return -1;
        }
        owed := borrow;
        borrow := borrow * MODULUS;
        i := i - 1;
      }
      NothingBelow(a, b, r, minExp, owed);
      c := if borrow != 0 then -1 else 0;
    }

    method RemoveLeadingZeros()
      modifies `bigits
      ensures Num(bigits) == old(Num(bigits)) && Trimmed(bigits)
      ensures |bigits| <= old(|bigits|) && (old(|bigits|) > 0 ==> |bigits| > 0)
    {
      hide Num, Base;
      var k := |bigits| - 1;
      AllBigits(bigits);
      while k > 0 && bigits[k] == 0
        invariant -1 <= k < |bigits| && Num(bigits[..k + 1]) == Num(bigits)
        invariant |bigits| > 0 ==> k >= 0
        invariant bigits == old(bigits)
      {
        NumPrefix(bigits, k);
        k := k - 1;
      }
      bigits := bigits[..k + 1];
    }

    /** The inner loop of `square` for the lower half: column `c` on top of a carry. */
    static method AddLowColumn(n: seq<u32>, c: nat, carry: nat) returns (sum: nat)
      requires c < |n| <= HALF && carry <= |n| * MODULUS
      ensures sum == carry + Column(n, |n|, c) < MODULUS * MODULUS * MODULUS * MODULUS
    {
      sum := carry;
      var i, j := 0, c;
      while j >= 0
        invariant 0 <= i <= c + 1 && j == c - i && sum == carry + Column(n, i, c)
        invariant sum < MODULUS * MODULUS * MODULUS * MODULUS
      {
        ColumnFits(n, i + 1, c, carry);
        sum := sum + n[i] as nat * n[j] as nat;
        i, j := i + 1, j - 1;
      }
      ColumnFull(n, |n|, c);
    }

    /** And for the upper half. */
    static method AddHighColumn(n: seq<u32>, c: nat, carry: nat) returns (sum: nat)
      requires |n| <= c < 2 * |n| && |n| <= HALF && carry <= |n| * MODULUS
      ensures sum == carry + Column(n, |n|, c) < MODULUS * MODULUS * MODULUS * MODULUS
    {
      sum := carry;
      var j := |n| - 1;
      var i := c - j;
      ColumnEmpty(n, i, c);
      while i < |n|
        invariant c - |n| < i <= |n| && j == c - i && sum == carry + Column(n, i, c)
        invariant sum < MODULUS * MODULUS * MODULUS * MODULUS
      {
        ColumnFits(n, i + 1, c, carry);
        sum := sum + n[i] as nat * n[j] as nat;
        i, j := i + 1, j - 1;
      }
    }

    /** Squares in place. The 128-bit column sum does not overflow for any number
        of bigits that an `int` can count. */
    method Square()
      requires |bigits| <= HALF
      modifies this
      ensures V() == old(V()) * old(V()) && exp == 2 * old(exp)
      ensures Trimmed(bigits) && (old(|bigits|) > 0 ==> |bigits| > 0)
    {
      hide Num, Base, Column;
      var n, m := bigits, |bigits|;
      bigits := seq(2 * m, _ => 0);    // every bigit is overwritten before it is read
      var sum: nat := 0;
      Empty();
      assert bigits[..0] == [];
      var c := 0;
      while c < m
        invariant c <= m && |bigits| == 2 * m && sum <= m * MODULUS
        invariant Num(bigits[..c]) + sum * Base(c) == Columns(n, m, c)
        invariant exp == old(exp)
      {
        ghost var sum0 := sum;
        sum := AddLowColumn(n, c, sum);
        ColumnDone(bigits, n, c, sum0, sum);
        bigits := bigits[c := Wrap(sum)];
        sum := sum / MODULUS;
        c := c + 1;
      }
      while c < 2 * m
        invariant m <= c <= 2 * m && |bigits| == 2 * m && sum <= m * MODULUS
        invariant Num(bigits[..c]) + sum * Base(c) == Columns(n, m, c)
        invariant exp == old(exp)
      {
        ghost var sum0 := sum;
        sum := AddHighColumn(n, c, sum);
        ColumnDone(bigits, n, c, sum0, sum);
        bigits := bigits[c := Wrap(sum)];
        sum := sum / MODULUS;
        c := c + 1;
      }
      SquareDone(bigits, n, sum);
      RemoveLeadingZeros();
      exp := exp * 2;
      SquareVal(Num(n), old(exp));
    }

    /** Assigns a power of ten: a power of five by repeated squaring, shifted. The
        bound keeps the bit mask inside an `int`. */
    method AssignPow10(e: nat)
      requires e < 0x4000_0000
      modifies this
      ensures V() == Power(10, e) && Normal(State()) && exp == e / WORD
    {
      hide Num, Base, Power, Pow2, And, HighBits;
      Powers(e);
      if e == 0 {
        Assign(1);
        return;
      }
      var bitmask := 1;
      ghost var k: nat := 0;
      while e >= bitmask
        invariant bitmask == Pow2(k) <= 2 * e && bitmask < HALF
      {
        NextPow2(k);
        bitmask := bitmask * 2;
        k := k + 1;
      }
      assert k > 0 by { Empty(); }
      k := k - 1;
      NextPow2(k);
      bitmask := bitmask / 2;
      TopBit(e, k);
      Assign(5);
      bitmask := bitmask / 2;
      while bitmask != 0
        invariant bitmask == Pow2(k) / 2 && exp == 0
        invariant V() == Power(5, HighBits(e, k)) && Normal(State())
        decreases bitmask
      {
        Empty();
        assert k > 0;
        NextBit(e, k - 1);
        NextPow2(k - 1);
        PowerSize(State(), HighBits(e, k));
        PowerSum(5, HighBits(e, k), HighBits(e, k));
        Square();
        ghost var v := V();
        Positive(State());
        if And(e, bitmask) != 0 {
          Multiply(5);
          PowerNext(5, 2 * (HighBits(e, k)));
        }
        bitmask := bitmask / 2;
        k := k - 1;
      }
      AllBits(e, k);
      ShiftLeft(e);
    }

    /** Lowers the exponent to that of `other` by adding zero bigits below. */
    method Align(other: Bigint)
      modifies this
      ensures V() == old(V()) && Size(State()) == old(Size(State()))
      ensures exp == if old(exp) > old(other.exp) then old(other.exp) else old(exp)
      ensures old(Normal(State())) ==> Normal(State())
    {
      hide Num, Base, Moved;
      if exp <= other.exp {
        return;
      }
      var difference := exp - other.exp;
      var n := |bigits|;
      ghost var before := bigits;
      bigits := bigits + seq(difference, _ => 0);    // these values are never read
      var i, j := n - 1, n - 1 + difference;
      MovedNone(bigits, before, difference);
      while i >= 0
        invariant -1 <= i < n && j == i + difference && |bigits| == n + difference && exp == old(exp)
        invariant Moved(bigits, before, difference, i)
      {
        MovedStep(bigits, before, difference, i);
        bigits := bigits[j := bigits[i]];
        i, j := i - 1, j - 1;
      }
      MovedAll(bigits, before, difference);
      bigits := seq(difference, _ => 0) + bigits[difference..];
      AlignVal(before, difference, exp - difference);
      exp := exp - difference;
    }

    /** `subtract_bigits`: one bigit less another and a borrow, in 64-bit
        arithmetic that wraps. */
    method SubtractBigits(i: nat, other: u32, borrow: u32) returns (borrow': u32)
      requires i < |bigits| && borrow <= 1
      modifies `bigits
      ensures bigits == old(bigits)[i := Wrap(old(bigits[i]) - other - borrow)]
      ensures borrow' == if old(bigits[i]) < other + borrow then 1 else 0
    {
      var result := (bigits[i] - other - borrow) % (MODULUS * MODULUS);
      bigits := bigits[i := Wrap(result)];
      borrow' := result / (MODULUS * HALF);
    }

    /** The loop of `subtract_aligned` over the bigits of the other number. */
    method SubtractAll(other: Bigint) returns (borrow: u32)
      requires this != other && exp <= other.exp && Size(other.State()) <= Size(State())
      modifies `bigits
      ensures borrow <= 1
      ensures Subtracted(bigits, old(bigits), other.bigits, other.exp - exp, |other.bigits|, borrow)
    {
      hide Num, Base, Wrap;
      ghost var before, o, k := bigits, other.bigits, other.exp - exp;
      borrow := 0;
      var i, j, n := other.exp - exp, 0, |other.bigits|;
      SubtractedNone(before, o, k);
      while j != n
        invariant j <= n && i == k + j && borrow <= 1
        invariant Subtracted(bigits, before, o, k, j, borrow)
      {
        ghost var s := bigits;
        var b := SubtractBigits(i, other.bigits[j], borrow);
        SubtractedStep(s, before, o, k, j, borrow);
        borrow := b;
        i, j := i + 1, j + 1;
      }
    }

    /** Its second loop, which takes the borrow from one bigit again and again. */
    method TakeBorrow(i: nat, lent: u32)
      requires lent <= 1 && (lent > 0 ==> i < |bigits|)
      modifies `bigits
      ensures |bigits| == old(|bigits|) && (lent == 0 ==> bigits == old(bigits))
      ensures lent == 1 ==> i < old(|bigits|) && Lent(old(bigits), i, bigits, 0)
    {
      hide Lent, Wrap;
      ghost var s := bigits;
      var borrow: u32 := lent;
      while borrow > 0
        invariant borrow <= lent && |bigits| == |s| && (lent > 0 ==> i < |s|)
        invariant bigits == s || (lent == 1 && Lent(s, i, bigits, borrow))
        invariant bigits == s ==> borrow == lent || (lent == 1 && Lent(s, i, bigits, borrow))
        decreases borrow, bigits == s
      {
        LentStep(s, i, bigits, borrow);
        borrow := SubtractBigits(i, 0, borrow);
      }
    }

    /** Subtracts an aligned number. A borrow out of the top of `other` is taken
        from one bigit only; when that bigit is zero the result is too large by
        almost the next power of the base. */
    method SubtractAligned(other: Bigint)
      requires this != other && exp <= other.exp && Size(other.State()) <= Size(State())
      requires other.V() <= V()
      modifies `bigits
      ensures V() == old(V()) - other.V()
                     + (if old(LosesBorrow(State(), other.State())) then (MODULUS - 1) * Base(Size(other.State())) else 0)
      ensures V() == old(V()) - other.V() <==> !old(LosesBorrow(State(), other.State()))
      ensures Trimmed(bigits) && |bigits| <= old(|bigits|) && (old(|bigits|) > 0 ==> |bigits| > 0)
    {
      hide Num, Base, Val, LosesBorrow, Lent, Trimmed;
      ghost var n, d := State(), other.State();
      var borrow := SubtractAll(other);
      ghost var s := bigits;
      SubtractedEnough(s, n, d, borrow);
      TakeBorrow(other.exp - exp + |other.bigits|, borrow);
      SubtractDone(s, bigits, n, d, borrow);
      ghost var left := State();
      RemoveLeadingZeros();
      SameVal(left, State());
    }

    /** One round of the division, and the comparison that ends it. */
    method SubtractOnce(divisor: Bigint) returns (c: int)
      requires this != divisor && Normal(divisor.State()) && Normal(State())
      requires divisor.V() <= V() && exp <= divisor.exp && Size(State()) <= Size(divisor.State()) + 1
      modifies `bigits
      ensures V() == old(V()) - divisor.V() && Fits(State(), divisor.State())
      ensures c < 0 <==> V() < divisor.V()
      ensures c >= 0 ==> Normal(State()) && Size(State()) <= Size(divisor.State()) + 1
    {
      hide Num, Base, Below, Val, LosesBorrow;
      NothingLost(State(), divisor.State());
      SubtractAligned(divisor);
      TrimmedFits(State(), divisor.State());
      c := Compare(this, divisor);
    }

    /** Quotient, leaving the remainder. The one case that goes wrong is a
        dividend equal to the divisor but held with a larger exponent. */
    method DivmodAssign(divisor: Bigint) returns (quotient: nat)
      requires this != divisor && Normal(divisor.State())
      requires Fits(State(), divisor.State()) && Size(State()) <= Size(divisor.State()) + 1
      modifies this
      ensures old(V() == divisor.V() && exp > divisor.exp) ==> quotient == 0 && State() == old(State())
      ensures !old(V() == divisor.V() && exp > divisor.exp) ==>
                quotient == old(V()) / divisor.V() && V() == old(V()) % divisor.V()
      ensures Fits(State(), divisor.State())
      ensures exp == if quotient > 0 && old(exp) > divisor.exp then divisor.exp else old(exp)
    {
      hide Num, Base, Below, Val, LosesBorrow, Rounds;
      ghost var d := divisor.State();
      ValBounds(d);
      var c := Compare(this, divisor);
      quotient := 0;
      if c < 0 {
        DivUnlessMisjudged(V(), divisor.V());
        return;
      }
      FitsPositive(State(), d);
      Align(divisor);
      NoRounds(V(), divisor.V());
      while true
        invariant divisor.State() == d && divisor.V() <= V()
        invariant exp == if old(exp) > d.exp then d.exp else old(exp)
        invariant Normal(State()) && Size(State()) <= Size(d) + 1
        invariant Rounds(old(V()), quotient, divisor.V(), V())
        decreases V()
      {
        OneRound(old(V()), quotient, divisor.V(), V());
        c := SubtractOnce(divisor);
        quotient := quotient + 1;
        if c < 0 {
          break;
        }
      }
      RoundsDone(old(V()), quotient, divisor.V(), V());
    }
  }

  /** After `q` rounds of subtraction `rest` is left of `n`. */
  ghost predicate Rounds(n: int, q: int, d: int, rest: int) {
    n == q * d + rest
  }

  lemma NoRounds(n: int, d: int)
    ensures Rounds(n, 0, d, n)
  {
  }

  lemma OneRound(n: int, q: int, d: int, rest: int)
    requires Rounds(n, q, d, rest)
    ensures Rounds(n, q + 1, d, rest - d)
  {
  }

  lemma RoundsDone(n: int, q: int, d: int, rest: int)
    requires Rounds(n, q, d, rest) && 0 <= rest < d
    ensures q == n / d && rest == n % d
  {
    Arith.DivUnique(n, d, q, rest);
  }

  lemma Scale(n: int, v: int, p: int)
    ensures n * v * p == n * p * v
  {
    Arith.MulAssociative(n, v, p);
    Arith.MulAssociative(n, p, v);
  }

  lemma MultipliedNone(s: seq<u32>, v: nat)
    ensures Multiplied(s, s, v, 0, 0)
  {
    assert s[..0] == [];
  }

  lemma NarrowStep(o: u32, v: u32, carry: u32)
    requires carry < v
    ensures (o * v + carry) / MODULUS < v && o * v + carry < MODULUS * MODULUS
    ensures o * v + carry == Wrap(o * v + carry) + (o * v + carry) / MODULUS * MODULUS
    ensures o > 0 ==> o * v + carry > 0
  {
    Monotone(o, MODULUS - 1, v);
    if o > 0 {
      Monotone(1, o, v);
    }
  }

  /** A wide product: no intermediate leaves the type, and the carry stays below
      the factor. */
  lemma WideStep(value: nat, half: nat, o: u32, carry: nat)
    requires half == MODULUS || half == MODULUS * MODULUS
    requires carry < value < half * half
    ensures var lower, upper := value % half, value / half;
            var result := lower * o + carry % MODULUS;
            var carry' := upper * o * (half / MODULUS) + result / MODULUS + carry / MODULUS;
            && result < half * half && 0 <= carry' < value
            && o * value + carry == Wrap(result) + carry' * MODULUS
            && (o > 0 ==> Wrap(result) != 0 || carry' != 0)
  {
    var lower, upper := value % half, value / half;
    NarrowBound(o, value, carry);
    Monotone(o, MODULUS - 1, lower);
    WideSplit(value, half, half / MODULUS, upper, lower, o, carry, lower * o);
  }

  lemma WideSplit(value: nat, half: nat, g: nat, upper: nat, lower: nat, o: nat, carry: nat, x: nat)
    requires half == g * MODULUS && value == upper * half + lower && x == lower * o
    ensures var result := x + Wrap(carry);
            o * value + carry == Wrap(result) + (upper * o * g + result / MODULUS + carry / MODULUS) * MODULUS
  {
    assert o * value == upper * half * o + x;
    Arith.MulAssociative(upper, half, o);
    Arith.MulAssociative(upper, o, half);
    assert upper * o * half == upper * o * g * MODULUS by { Arith.MulAssociative(upper * o, g, MODULUS); }
  }

  lemma NarrowBound(o: u32, v: nat, carry: nat)
    requires carry < v
    ensures o * v + carry < v * MODULUS
    ensures o > 0 ==> o * v + carry > 0
  {
    Monotone(o, MODULUS - 1, v);
    if o > 0 {
      Monotone(1, o, v);
    }
  }

  lemma Empty()
    ensures Num([]) == 0 && Base(0) == 1 && Pow2(0) == 1
  {
  }

  lemma {:induction false} Pow2OfWords(k: nat)
    ensures Pow2(WORD * k) == Base(k)
  {
    if k > 0 {
      Pow2OfWords(k - 1);
      Pow2Sum(WORD, WORD * (k - 1));
      Pow2Of32();
    }
  }

  /** A shift is whole bigits and a rest. */
  lemma ShiftParts(m: nat, n: nat, exp: nat, shift: nat)
    requires m == n * Pow2(shift % WORD)
    ensures m * Base(exp + shift / WORD) == n * Base(exp) * Pow2(shift)
  {
    hide Pow2, Base;
    var k, s := shift / WORD, shift % WORD;
    Pow2Sum(WORD * k, s);
    Pow2OfWords(k);
    BaseSum(exp, k);
    assert shift == WORD * k + s;
    ShiftProduct(n, Pow2(s), Base(exp), Base(k), Base(exp + k), Pow2(shift));
  }

  lemma ShiftProduct(n: int, f: int, e: int, k: int, x: int, y: int)
    requires x == e * k && y == k * f
    ensures n * f * x == n * e * y
  {
    Regroup(n, f, e, k);
  }

  /** The bits shifted out of a bigit are its quotient by the complementary
      power, and adding the carry to the rest never overflows. */
  lemma ShiftStep(o: u32, s: nat, carry: u32)
    requires 0 < s < WORD && carry < Pow2(s)
    ensures Wrap(o * Pow2(s)) + carry < MODULUS
    ensures o / Pow2(WORD - s) < Pow2(s)
    ensures o * Pow2(s) + carry == Wrap(o * Pow2(s)) + carry + o / Pow2(WORD - s) * MODULUS
    ensures o > 0 ==> Wrap(o * Pow2(s)) + carry != 0 || o / Pow2(WORD - s) != 0
  {
    hide Pow2;
    Pow2Sum(WORD - s, s);
    Pow2Of32();
    SplitProduct(o, Pow2(s), Pow2(WORD - s));
  }

  lemma SplitProduct(o: u32, f: nat, g: nat)
    requires f >= 1 && g >= 1 && g * f == MODULUS
    ensures Wrap(o * f) <= MODULUS - f && o / g < f && (o > 0 ==> o * f > 0)
    ensures o * f == Wrap(o * f) + o / g * MODULUS
  {
    var q, r := o / g, o % g;
    SplitParts(o, f, g, q, r);
    Arith.DivUnique(o * f, MODULUS, q, r * f);
    if o > 0 {
      Monotone(1, o, f);
    }
  }

  lemma SplitParts(o: u32, f: nat, g: nat, q: nat, r: nat)
    requires f >= 1 && g * f == MODULUS && o == q * g + r && r < g
    ensures o * f == q * MODULUS + r * f && r * f <= MODULUS - f && q < f
  {
    Arith.MulAssociative(q, g, f);
    Monotone(r, g - 1, f);
    if q >= f {
      Monotone(f, q, g);
    }
  }

  lemma TwiceBase(i: nat)
    ensures Base(i + 1) >= 2 * Base(i)
  {
  }

  /** The two early exits of `add_compare`. */
  lemma EarlyExits(a: Big, b: Big, r: Big, longest: nat)
    requires Normal(r) && (Normal(a) || Size(a) <= Size(r)) && (Normal(b) || Size(b) <= Size(r))
    requires longest == if Size(a) > Size(b) then Size(a) else Size(b)
    ensures longest + 1 < Size(r) ==> Val(a) + Val(b) < Val(r)
    ensures longest > Size(r) ==> Val(a) + Val(b) > Val(r)
  {
    hide Val, Base, Num;
    ValBounds(a);
    ValBounds(b);
    ValBounds(r);
    BaseMonotone(Size(a), longest);
    BaseMonotone(Size(b), longest);
    if longest + 1 < Size(r) {
      BaseMonotone(longest + 1, Size(r) - 1);
      TwiceBase(longest);
    }
    if longest > Size(r) {
      BaseMonotone(Size(r), longest - 1);
    }
  }

  lemma NothingBelow(a: Big, b: Big, r: Big, i: nat, owed: nat)
    requires i <= a.exp && i <= b.exp && i <= r.exp
    ensures Excess(a, b, r, i) == 0
    ensures owed > 0 ==> owed * Base(i) > 0
  {
    hide Below, Base;
    BelowBound(a, i);
    BelowBound(b, i);
    BelowBound(r, i);
    if owed > 0 {
      Monotone(1, owed, Base(i));
    }
  }

  /** No zero bigit on top, except in a single zero. */
  ghost predicate Trimmed(s: seq<u32>) {
    |s| > 1 ==> s[|s| - 1] != 0
  }

  lemma AllBigits(s: seq<u32>)
    ensures s[..|s| - 1 + 1] == s
  {
  }

  /** A column sum with the carry from below it. */
  lemma ColumnFits(n: seq<u32>, k: nat, c: nat, sum0: nat)
    requires k <= |n| <= HALF && sum0 <= |n| * MODULUS
    ensures sum0 + Column(n, k, c) <= |n| * (MODULUS * MODULUS) < MODULUS * MODULUS * MODULUS * MODULUS
  {
    ColumnBound(n, k, c);
    Monotone(k, |n|, (MODULUS - 1) * (MODULUS - 1));
  }

  lemma ColumnDone(s: seq<u32>, n: seq<u32>, c: nat, sum0: nat, sum: nat)
    requires c < |s| && |n| <= HALF && sum0 <= |n| * MODULUS
    requires Num(s[..c]) + sum0 * Base(c) == Columns(n, |n|, c)
    requires sum == sum0 + Column(n, |n|, c)
    ensures sum / MODULUS <= |n| * MODULUS
    ensures Num(s[c := Wrap(sum)][..c + 1]) + sum / MODULUS * Base(c + 1) == Columns(n, |n|, c + 1)
  {
    hide Num, Base;
    ColumnFits(n, |n|, c, sum0);
    NumPrefix(s[c := Wrap(sum)], c);
    assert s[c := Wrap(sum)][..c] == s[..c];
    BaseNext(c);
    CarryColumn(Num(s[..c]), sum0, Column(n, |n|, c), Wrap(sum), sum / MODULUS, Base(c));
  }

  /** A column with its carry, split into a bigit and the carry out of it. */
  lemma CarryColumn(low: int, sum0: int, column: int, d: int, q: int, p: int)
    requires d + q * MODULUS == sum0 + column
    ensures low + d * p + q * (MODULUS * p) == low + sum0 * p + column * p
  {
    Arith.MulAssociative(q, MODULUS, p);
    assert (d + q * MODULUS) * p == d * p + q * MODULUS * p;
    assert (sum0 + column) * p == sum0 * p + column * p;
  }

  lemma SquareDone(s: seq<u32>, n: seq<u32>, sum: nat)
    requires |s| == 2 * |n| && Num(s[..2 * |n|]) + sum * Base(2 * |n|) == Columns(n, |n|, 2 * |n|)
    ensures Num(s) == Num(n) * Num(n)
  {
    hide Num, Base;
    var m := |n|;
    ColumnsAreProduct(n, m, 2 * m);
    assert n[..m] == n && s[..2 * m] == s;
    NumBelow(n);
    BaseSum(m, m);
    MulLess(Num(n), Base(m));
    if sum > 0 {
      Monotone(1, sum, Base(2 * m));
    }
  }

  lemma MulLess(a: nat, b: nat)
    requires a < b
    ensures a * a < b * b
  {
    MulMonotone(a, b - 1, a, b - 1);
    assert (b - 1) * (b - 1) == b * b - 2 * b + 1;
  }

  lemma SquareVal(n: nat, exp: nat)
    ensures n * n * Base(exp * 2) == n * Base(exp) * (n * Base(exp))
  {
    BaseSum(exp, exp);
    Regroup(n, n, Base(exp), Base(exp));
  }

  // ---------------------------------------------------------------- powers

  lemma Powers(e: nat)
    ensures e == 0 ==> Power(10, e) == 1
    ensures Power(5, 1) == 5 && Base(0) == 1 && Pow2(0) == 1
    ensures Power(5, e) * Pow2(e) == Power(10, e)
  {
    assert Power(5, 0) == 1;
    PowerOfProduct(5, 2, e);
    Pow2IsPower(e);
  }

  lemma NextPow2(k: nat)
    ensures Pow2(k + 1) == 2 * Pow2(k)
  {
  }

  lemma PowerNext(b: nat, k: nat)
    ensures Power(b, k + 1) == b * Power(b, k)
  {
  }

  /** Successive high parts grow by one bit. */
  lemma NextBit(e: nat, k: nat)
    ensures HighBits(e, k) == 2 * HighBits(e, k + 1) + (if And(e, Pow2(k)) != 0 then 1 else 0)
    ensures HighBits(e, k) <= e
  {
    hide And, Pow2, HighBits;
    BitTest(e, k);
    OneBitLess(e, k);
  }

  lemma AllBits(e: nat, k: nat)
    requires Pow2(k) / 2 == 0
    ensures HighBits(e, k) == e
  {
  }

  lemma PowerSize(n: Big, x: nat)
    requires Val(n) == Power(5, x) && Normal(n) && n.exp == 0 && x < HALF
    ensures |n.bigits| <= HALF
  {
    hide Power, Base, Val;
    ValBounds(n);
    BaseIsPower(x);
    BaseNext(x);
    PowerAtLeast(5, MODULUS, x);
    if |n.bigits| - 1 > x {
      BaseMonotone(x + 1, |n.bigits| - 1);
    }
  }

  lemma {:induction false} BaseIsPower(k: nat)
    ensures Base(k) == Power(MODULUS, k)
  {
    if k > 0 {
      BaseIsPower(k - 1);
    }
  }

  lemma Positive(n: Big)
    requires Val(n) > 0 && Trimmed(n.bigits)
    ensures Normal(n)
  {
    if forall i :: 0 <= i < |n.bigits| ==> n.bigits[i] == 0 {
      NumZeros(n.bigits);
    }
  }

  // ----------------------------------------------------------- subtraction

  /** Bigits above position `i` have been copied `d` places up. */
  ghost predicate Moved(s: seq<u32>, before: seq<u32>, d: nat, i: int) {
    && |s| == |before| + d && -1 <= i < |before|
    && (forall x :: 0 <= x <= i ==> s[x] == before[x])
    && (forall x :: i + 1 + d <= x < |s| ==> s[x] == before[x - d])
  }

  lemma MovedNone(s: seq<u32>, before: seq<u32>, d: nat)
    requires |s| == |before| + d && s[..|before|] == before
    ensures Moved(s, before, d, |before| - 1)
  {
    assert forall x :: 0 <= x < |before| ==> s[x] == s[..|before|][x];
  }

  lemma MovedAll(s: seq<u32>, before: seq<u32>, d: nat)
    requires Moved(s, before, d, -1)
    ensures s[d..] == before
  {
  }

  lemma MovedStep(s: seq<u32>, before: seq<u32>, d: nat, i: int)
    requires d > 0 && i >= 0 && Moved(s, before, d, i)
    ensures Moved(s[i + d := s[i]], before, d, i - 1)
  {
  }

  lemma AlignVal(s: seq<u32>, d: nat, e: nat)
    ensures Num(seq(d, _ => 0) + s) * Base(e) == Num(s) * Base(e + d)
  {
    hide Num, Base;
    var z: seq<u32> := seq(d, _ => 0);
    NumZeros(z);
    NumSum(z, s);
    BaseSum(d, e);
    assert Base(d) * Num(s) * Base(e) == Num(s) * (Base(d) * Base(e)) by {
      Arith.MulAssociative(Num(s), Base(d), Base(e));
    }
  }

  /** The bigits of `n` that `d` reaches are together less than it, and the next
      one has nothing to lend. */
  ghost predicate LosesBorrow(n: Big, d: Big) {
    && n.exp <= d.exp && Size(d) < Size(n)
    && Below(n, Size(d)) < Val(d) && Bigit(n, Size(d)) == 0
  }

  /** The first `j` bigits of `o`, moved up by `k`, have been subtracted. */
  ghost predicate Subtracted(s: seq<u32>, before: seq<u32>, o: seq<u32>, k: nat, j: nat, borrow: nat) {
    && k + |o| <= |s| == |before| && j <= |o| && s[k + j..] == before[k + j..]
    && Num(s[..k + j]) + Num(o[..j]) * Base(k) == Num(before[..k + j]) + borrow * Base(k + j)
  }

  lemma SubtractedNone(s: seq<u32>, o: seq<u32>, k: nat)
    requires k + |o| <= |s|
    ensures Subtracted(s, s, o, k, 0, 0)
  {
    assert o[..0] == [];
    Empty();
  }

  lemma SubtractedStep(s: seq<u32>, before: seq<u32>, o: seq<u32>, k: nat, j: nat, b: nat)
    requires Subtracted(s, before, o, k, j, b) && j < |o| && b <= 1
    ensures Subtracted(s[k + j := Wrap(s[k + j] - o[j] - b)], before, o, k, j + 1, if s[k + j] < o[j] + b then 1 else 0)
  {
    hide Num, Base;
    var i, x, y := k + j, s[k + j], o[j];
    var d := Wrap(x - y - b);
    var b' := if x < y + b then 1 else 0;
    assert d == x - y - b + b' * MODULUS;
    var s' := s[i := d];
    assert s[i] == s[i..][0] == before[i..][0] == before[i];
    assert s'[..i] == s[..i] && s'[i + 1..] == s[i..][1..] == before[i..][1..] == before[i + 1..];
    NumPrefix(s', i);
    NumPrefix(before, i);
    NumPrefix(o, j);
    BaseNext(i);
    BaseSum(j, k);
    ScaleSum(Num(o[..j + 1]), Num(o[..j]), y, Base(j), Base(k), Base(i));
    SubtractStep(d, x, y, b, b', Base(i));
  }

  lemma SubtractStep(d: int, x: int, y: int, b: int, b': int, p: int)
    requires d == x - y - b + b' * MODULUS
    ensures d * p + y * p == x * p - b * p + b' * (MODULUS * p)
  {
    Arith.MulAssociative(b', MODULUS, p);
    assert d * p == x * p - y * p - b * p + b' * MODULUS * p;
  }

  /** The two states the borrow loop passes through after its first round. */
  ghost predicate Lent(s: seq<u32>, i: nat, s': seq<u32>, borrow: nat)
    requires i < |s|
  {
    if s[i] > 0 then borrow == 0 && s' == s[i := s[i] - 1]
    else (borrow == 1 && s' == s[i := MODULUS - 1]) || (borrow == 0 && s' == s[i := MODULUS - 2])
  }

  lemma LentStep(s: seq<u32>, i: nat, cur: seq<u32>, borrow: nat)
    requires i < |s| && borrow == 1 && (cur == s || Lent(s, i, cur, borrow))
    ensures var b := if cur[i] < 0 + borrow then 1 else 0;
            var next := cur[i := Wrap(cur[i] - 0 - borrow)];
            Lent(s, i, next, b) && (b == 1 ==> cur == s && next != s)
  {
    assert cur[i := Wrap(cur[i] - 0 - borrow)][i] == Wrap(cur[i] - 0 - borrow);
  }

  /** A borrow out of the top bigit would make the result negative. */
  lemma SubtractedEnough(s: seq<u32>, n: Big, d: Big, borrow: nat)
    requires n.exp <= d.exp && Val(d) <= Val(n)
    requires Subtracted(s, n.bigits, d.bigits, d.exp - n.exp, |d.bigits|, borrow)
    ensures borrow > 0 ==> Size(d) - n.exp < |s|
  {
    NoneLent(s, n.bigits, d.bigits, d.exp - n.exp, borrow, n.exp);
  }

  lemma SameVal(a: Big, b: Big)
    requires Num(a.bigits) == Num(b.bigits) && a.exp == b.exp
    ensures Val(a) == Val(b)
  {
  }

  lemma NoneLent(s: seq<u32>, before: seq<u32>, o: seq<u32>, k: nat, borrow: nat, exp: nat)
    requires Subtracted(s, before, o, k, |o|, borrow)
    requires Num(o) * Base(k + exp) <= Num(before) * Base(exp)
    ensures borrow > 0 ==> k + |o| < |s|
  {
    hide Num, Base;
    if borrow > 0 && k + |o| == |s| {
      assert s[..|s|] == s && before[..|s|] == before && o[..|o|] == o;
      NumBelow(s);
      BaseSum(k, exp);
      Arith.MulAssociative(Num(o), Base(k), Base(exp));
      Monotone(1, borrow, Base(|s|));
      Monotone(Num(before) + 1, Num(o) * Base(k), Base(exp));
    }
  }

  lemma NumUpdate(s: seq<u32>, i: nat, d: u32)
    requires i < |s|
    ensures Num(s[i := d]) == Num(s) + (d - s[i]) * Base(i)
  {
    hide Num, Base;
    var rest := s[i + 1..];
    assert s == s[..i + 1] + rest && s[i := d] == s[i := d][..i + 1] + rest;
    NumSum(s[..i + 1], rest);
    NumSum(s[i := d][..i + 1], rest);
    NumPrefix(s, i);
    NumPrefix(s[i := d], i);
    assert s[i := d][..i] == s[..i];
  }

  /** The rest above the subtracted part is untouched, so the whole changed by as
      much as that part. */
  lemma SubtractedNum(s: seq<u32>, before: seq<u32>, o: seq<u32>, k: nat, borrow: nat)
    requires Subtracted(s, before, o, k, |o|, borrow)
    ensures Num(s) + Num(o) * Base(k) == Num(before) + borrow * Base(k + |o|)
  {
    hide Num, Base;
    var t := k + |o|;
    assert s == s[..t] + s[t..] && before == before[..t] + before[t..] && o[..|o|] == o;
    NumSum(s[..t], s[t..]);
    NumSum(before[..t], before[t..]);
  }

  lemma LentNum(s: seq<u32>, i: nat, s': seq<u32>)
    requires i < |s| && Lent(s, i, s', 0)
    ensures Num(s') == Num(s) - Base(i) + (if s[i] == 0 then (MODULUS - 1) * Base(i) else 0)
  {
    hide Num, Base;
    var d := if s[i] > 0 then s[i] - 1 else MODULUS - 2;
    NumUpdate(s, i, d);
    Lend(d - s[i], Base(i));
  }

  lemma Lend(x: int, p: int)
    ensures x == -1 ==> x * p == -p
    ensures x == MODULUS - 2 ==> x * p == (MODULUS - 1) * p - p
  {
  }

  /** Whether a borrow is due is visible before the subtraction. */
  lemma BorrowIs(s: seq<u32>, n: Big, o: Big, lent: nat)
    requires n.exp <= o.exp && lent <= 1
    requires Subtracted(s, n.bigits, o.bigits, o.exp - n.exp, |o.bigits|, lent)
    ensures lent == 1 <==> Below(n, Size(o)) < Val(o)
  {
    hide Num, Base, Below;
    var k := o.exp - n.exp;
    var t := k + |o.bigits|;
    BelowIsNum(n, t);
    NumBelow(s[..t]);
    BaseSum(k, n.exp);
    assert o.bigits[..|o.bigits|] == o.bigits;
    var low, part, e := Num(n.bigits[..t]), Num(o.bigits) * Base(k), Base(n.exp);
    Arith.MulAssociative(Num(o.bigits), Base(k), e);
    assert lent == 1 <==> low < part;
    LessScaled(low, part, e);
  }

  lemma LessScaled(x: nat, y: nat, e: nat)
    requires e > 0
    ensures x < y <==> x * e < y * e
  {
    if x < y {
      Monotone(x + 1, y, e);
    } else {
      Monotone(y, x, e);
    }
  }

  lemma SubtractDone(s: seq<u32>, s': seq<u32>, n: Big, o: Big, lent: nat)
    requires n.exp <= o.exp && lent <= 1
    requires Subtracted(s, n.bigits, o.bigits, o.exp - n.exp, |o.bigits|, lent)
    requires lent == 0 ==> s' == s
    requires lent == 1 ==> Size(o) < Size(n) && Lent(s, Size(o) - n.exp, s', 0)
    ensures Val(Big(s', n.exp))
         == Val(n) - Val(o) + (if LosesBorrow(n, o) then (MODULUS - 1) * Base(Size(o)) else 0)
    ensures Val(Big(s', n.exp)) == Val(n) - Val(o) <==> !LosesBorrow(n, o)
  {
    hide Num, Val, LosesBorrow;
    SubtractVal(s, s', n, o, lent);
    BasePositive(Size(o));
  }

  lemma BasePositive(i: nat)
    ensures (MODULUS - 1) * Base(i) > 0
  {
  }

  lemma SubtractVal(s: seq<u32>, s': seq<u32>, n: Big, o: Big, lent: nat)
    requires n.exp <= o.exp && lent <= 1
    requires Subtracted(s, n.bigits, o.bigits, o.exp - n.exp, |o.bigits|, lent)
    requires lent == 0 ==> s' == s
    requires lent == 1 ==> Size(o) < Size(n) && Lent(s, Size(o) - n.exp, s', 0)
    ensures Val(Big(s', n.exp))
         == Val(n) - Val(o) + (if LosesBorrow(n, o) then (MODULUS - 1) * Base(Size(o)) else 0)
  {
    hide Num, Base, Below;
    var k := o.exp - n.exp;
    var t := k + |o.bigits|;
    SubtractedNum(s, n.bigits, o.bigits, k, lent);
    BorrowIs(s, n, o, lent);
    BaseSum(k, n.exp);
    BaseSum(t, n.exp);
    if lent == 1 {
      LentNum(s, t, s');
      assert s[t] == s[t..][0] == n.bigits[t..][0] == n.bigits[t];
    }
    var extra := if LosesBorrow(n, o) then MODULUS - 1 else 0;
    assert Num(s') == Num(n.bigits) - Num(o.bigits) * Base(k) + extra * Base(t);
    ScaleDifference(Num(s'), Num(n.bigits), Num(o.bigits), Base(k), extra, Base(t), Base(n.exp));
  }

  lemma ScaleDifference(m: int, n: int, o: int, k: int, x: int, t: int, e: int)
    requires m == n - o * k + x * t
    ensures m * e == n * e - o * (k * e) + x * (t * e)
  {
    Arith.MulAssociative(o, k, e);
    Arith.MulAssociative(x, t, e);
    assert (n - o * k + x * t) * e == n * e - o * k * e + x * t * e;
  }

  /** A number that `divmod_assign` accepts and leaves: normal, or a zero no longer
      than the divisor. */
  ghost predicate Fits(n: Big, d: Big) {
    Normal(n) || (Num(n.bigits) == 0 && |n.bigits| <= 1 && Size(n) <= Size(d))
  }

  lemma TrimmedFits(n: Big, d: Big)
    requires Trimmed(n.bigits) && Normal(d) && n.exp <= d.exp
    ensures Fits(n, d) && (Val(d) <= Val(n) ==> Normal(n))
  {
    ValBounds(d);
    if !Normal(n) {
      NumZeros(n.bigits);
    }
  }

  lemma FitsPositive(n: Big, d: Big)
    requires Fits(n, d) && 0 < Val(n)
    ensures Normal(n)
  {
    assert 0 * Base(n.exp) == 0;
  }

  lemma DivUnlessMisjudged(v: nat, d: nat)
    requires 0 < d
    ensures v < d ==> v / d == 0 && v % d == v
  {
    if v < d {
      Arith.DivUnique(v, d, 0, v);
    }
  }

  /** With at most one bigit above the divisor's, and that not zero, a borrow
      always finds what it takes. */
  lemma NothingLost(n: Big, d: Big)
    requires Normal(d) && Val(d) <= Val(n)
    requires Normal(n) || Size(n) <= Size(d)
    requires Size(n) <= Size(d) + 1
    ensures !LosesBorrow(n, d) && Size(d) <= Size(n)
  {
    hide Val, Below;
    if Size(n) < Size(d) {
      LongerIsLarger(d, n);
    }
  }

  /** Subtraction is exact exactly when no borrow is lost; this one loses it. */
  lemma BorrowCanBeLost()
    ensures var n, d := Big([0, 0, 1], 0), Big([1], 0);
            Normal(n) && Normal(d) && Val(d) < Val(n) && LosesBorrow(n, d)
  {
    var n, d := Big([0, 0, 1], 0), Big([1], 0);
    LongerIsLarger(n, d);
    assert Below(n, 1) == Below(n, 0) + 0 == 0;
    ValBounds(d);
  }

  /** A dividend that `divmod_assign` takes for smaller than its equal. */
  lemma EqualCanBeMisjudged()
    ensures var n, d := Big([1], 1), Big([0, 1], 0);
            Normal(n) && Normal(d) && Val(n) == Val(d) && n.exp > d.exp
  {
    var n, d := Big([1], 1), Big([0, 1], 0);
    assert n.bigits[..0] == [] && d.bigits[..1] == [0] && [0][..0] == [];
    assert Base(0) == 1 && Base(1) == MODULUS;
    assert Num([0]) == 0 && Num([0, 1]) == MODULUS && Num([1]) == 1;
  }
}
