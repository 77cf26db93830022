/**
 The numbers that sequences of 32-bit digits ("bigits") stand for.
 */
module BigNum {
  import opened U32
  import opened Bits
  import Arith

  function Power(b: nat, k: nat): (p: nat)
    ensures b >= 1 ==> p >= 1
  {
    if k == 0 then 1 else b * Power(b, k - 1)
  }

  /** The weight of the bigit at position `k`. */
  function Base(k: nat): (p: nat)
    ensures p >= 1
  {
    if k == 0 then 1 else MODULUS * Base(k - 1)
  }

  /** The number with the given bigits, least significant first. */
  function Num(s: seq<u32>): nat {
    if |s| == 0 then 0 else Num(s[..|s| - 1]) + s[|s| - 1] * Base(|s| - 1)
  }

  /** A number as the program holds it: bigits, and how many zero bigits lie below. */
  datatype Big = Big(bigits: seq<u32>, exp: nat)

  function Val(n: Big): nat {
    Num(n.bigits) * Base(n.exp)
  }

  /** Positions up to the highest bigit. */
  function Size(n: Big): nat {
    |n.bigits| + n.exp
  }

  /** The bigit at a position, zero outside those held. */
  function Bigit(n: Big, i: nat): u32 {
    if n.exp <= i < Size(n) then n.bigits[i - n.exp] else 0
  }

  /** The part of the number below position `i`. */
  function Below(n: Big, i: nat): nat {
    if i == 0 then 0 else Below(n, i - 1) + Bigit(n, i - 1) * Base(i - 1)
  }

  ghost predicate Normal(n: Big) {
    |n.bigits| > 0 && n.bigits[|n.bigits| - 1] != 0
  }

  // ---------------------------------------------------------------- powers

  lemma {:induction false} PowerSum(b: nat, j: nat, k: nat)
    ensures Power(b, j + k) == Power(b, j) * Power(b, k)
  {
    if j > 0 {
      PowerSum(b, j - 1, k);
      Arith.MulAssociative(b, Power(b, j - 1), Power(b, k));
    }
  }

  lemma {:induction false} PowerAtLeast(b: nat, c: nat, k: nat)
    requires b <= c
    ensures Power(b, k) <= Power(c, k)
  {
    if k > 0 {
      PowerAtLeast(b, c, k - 1);
      MulMonotone(b, c, Power(b, k - 1), Power(c, k - 1));
    }
  }

  lemma MulMonotone(a: nat, b: nat, c: nat, d: nat)
    requires a <= b && c <= d
    ensures a * c <= b * d
  {
    assert a * c <= b * c by { Monotone(a, b, c); }
    assert c * b <= d * b by { Monotone(c, d, b); }
  }

  lemma Monotone(a: nat, b: nat, c: nat)
    requires a <= b
    ensures a * c <= b * c
  {
    assert b * c - a * c == (b - a) * c;
  }

  lemma {:induction false} PowerOfProduct(a: nat, b: nat, k: nat)
    ensures Power(a * b, k) == Power(a, k) * Power(b, k)
  {
    if k > 0 {
      PowerOfProduct(a, b, k - 1);
      var x, y := Power(a, k - 1), Power(b, k - 1);
      assert (a * b) * (x * y) == (a * x) * (b * y) by { Regroup(a, b, x, y); }
    }
  }

  lemma Regroup(a: int, b: int, x: int, y: int)
    ensures (a * b) * (x * y) == (a * x) * (b * y)
  {
    Arith.MulAssociative(a * b, x, y);
    Arith.MulAssociative(a, b, x);
    Arith.MulAssociative(a, x, b);
    Arith.MulAssociative(a * x, b, y);
  }

  lemma {:induction false} Pow2IsPower(k: nat)
    ensures Pow2(k) == Power(2, k)
  {
    if k > 0 {
      Pow2IsPower(k - 1);
    }
  }

  lemma {:induction false} BaseSum(j: nat, k: nat)
    ensures Base(j + k) == Base(j) * Base(k)
  {
    if j > 0 {
      BaseSum(j - 1, k);
      Arith.MulAssociative(MODULUS, Base(j - 1), Base(k));
    }
  }

  lemma {:induction false} BaseMonotone(j: nat, k: nat)
    requires j <= k
    ensures Base(j) <= Base(k) && (j < k ==> MODULUS * Base(j) <= Base(k))
  {
    if j < k {
      BaseMonotone(j, k - 1);
    }
  }

  // ---------------------------------------------------------------- values

  lemma {:induction false} NumBelow(s: seq<u32>)
    ensures Num(s) < Base(|s|)
    ensures |s| > 0 && s[|s| - 1] > 0 ==> Base(|s| - 1) <= Num(s)
  {
    if |s| > 0 {
      NumBelow(s[..|s| - 1]);
      Monotone(s[|s| - 1], MODULUS - 1, Base(|s| - 1));
      if s[|s| - 1] > 0 {
        Monotone(1, s[|s| - 1], Base(|s| - 1));
      }
    }
  }

  lemma {:induction false} NumSum(s: seq<u32>, t: seq<u32>)
    ensures Num(s + t) == Num(s) + Base(|s|) * Num(t)
  {
    if |t| == 0 {
      assert s + t == s;
    } else {
      var h, x := t[..|t| - 1], t[|t| - 1];
      NumSum(s, h);
      assert (s + t)[..|s + t| - 1] == s + h;
      BaseSum(|s|, |t| - 1);
      Distribute(Base(|s|), Num(h), x, Base(|t| - 1));
    }
  }

  lemma Distribute(p: int, n: int, x: int, q: int)
    ensures p * (n + x * q) == p * n + x * (p * q)
  {
    Arith.MulAssociative(x, p, q);
    Arith.MulAssociative(p, x, q);
  }

  lemma ScaleSum(m: int, n: int, x: int, q: int, p: int, qp: int)
    requires m == n + x * q && qp == q * p
    ensures m * p == n * p + x * qp
  {
    Distribute(p, n, x, q);
  }

  lemma {:induction false} NumZeros(s: seq<u32>)
    requires forall i :: 0 <= i < |s| ==> s[i] == 0
    ensures Num(s) == 0
  {
    if |s| > 0 {
      NumZeros(s[..|s| - 1]);
    }
  }

  lemma {:induction false} BelowBound(n: Big, i: nat)
    ensures Below(n, i) < Base(i)
    ensures i <= n.exp ==> Below(n, i) == 0
  {
    if i > 0 {
      BelowBound(n, i - 1);
      Monotone(Bigit(n, i - 1), MODULUS - 1, Base(i - 1));
    }
  }

  lemma BelowNext(n: Big, i: nat)
    ensures Below(n, i + 1) == Below(n, i) + Bigit(n, i) * Base(i)
  {
  }

  lemma {:induction false} BelowIsNum(n: Big, k: nat)
    requires k <= |n.bigits|
    ensures Below(n, n.exp + k) == Num(n.bigits[..k]) * Base(n.exp)
  {
    if k == 0 {
      BelowBound(n, n.exp);
    } else {
      hide Num, Base, Below;
      BelowIsNum(n, k - 1);
      BelowNext(n, n.exp + k - 1);
      NumPrefix(n.bigits, k - 1);
      BaseSum(k - 1, n.exp);
      ScaleSum(Num(n.bigits[..k]), Num(n.bigits[..k - 1]), n.bigits[k - 1], Base(k - 1), Base(n.exp), Base(k - 1 + n.exp));
    }
  }

  lemma {:induction false} ValIsBelow(n: Big, i: nat)
    requires Size(n) <= i
    ensures Val(n) == Below(n, i)
  {
    if i == Size(n) {
      BelowIsNum(n, |n.bigits|);
      assert n.bigits[..|n.bigits|] == n.bigits;
    } else {
      ValIsBelow(n, i - 1);
    }
  }

  /** Where a number lies among the powers of the base. */
  lemma ValBounds(n: Big)
    ensures Val(n) < Base(Size(n))
    ensures Normal(n) ==> Base(Size(n) - 1) <= Val(n)
  {
    ValIsBelow(n, Size(n));
    BelowBound(n, Size(n));
    if Normal(n) {
      var s := n.bigits;
      NumBelow(s);
      BaseSum(|s| - 1, n.exp);
      Monotone(Base(|s| - 1), Num(s), Base(n.exp));
    }
  }

  lemma LongerIsLarger(n: Big, m: Big)
    requires Normal(n) && Size(m) < Size(n)
    ensures Val(m) < Val(n)
  {
    ValBounds(n);
    ValBounds(m);
    BaseMonotone(Size(m), Size(n) - 1);
  }

  /** A number that is no larger than `v` times another is not much longer. */
  lemma NotMuchLonger(n: Big, m: Big)
    requires Val(n) < MODULUS * Val(m)
    ensures Normal(n) ==> Size(n) <= Size(m) + 1
  {
    ValBounds(n);
    ValBounds(m);
    assert Base(Size(m) + 1) == MODULUS * Base(Size(m));
    if Normal(n) && Size(n) > Size(m) + 1 {
      BaseMonotone(Size(m) + 1, Size(n) - 1);
    }
  }

  // ----------------------------------------------------------------- steps

  /** From the product of the lower bigits with a carry to that of one more. */
  lemma MulStep(old0: int, new0: int, v: int, carry: int, o: int, d: int, carry': int, p: int)
    requires new0 + carry * p == old0 * v
    requires o * v + carry == d + carry' * MODULUS
    ensures (new0 + d * p) + carry' * (MODULUS * p) == (old0 + o * p) * v
  {
    assert (o * v + carry) * p == o * v * p + carry * p;
    assert (d + carry' * MODULUS) * p == d * p + carry' * MODULUS * p;
    Arith.MulAssociative(carry', MODULUS, p);
    assert o * v * p == o * p * v by { Arith.MulAssociative(o, v, p); Arith.MulAssociative(o, p, v); }
  }

  /** `s` is `old`, with the first `i` bigits multiplied by `v` and `carry` left
      over; none is lost. */
  ghost predicate Multiplied(s: seq<u32>, before: seq<u32>, v: nat, carry: nat, i: nat) {
    && i <= |s| == |before| && s[i..] == before[i..]
    && Num(s[..i]) + carry * Base(i) == Num(before[..i]) * v
  }

  lemma MultipliedStep(s: seq<u32>, before: seq<u32>, v: nat, carry: nat, i: nat, d: u32, carry': nat)
    requires i < |s| == |before| && Multiplied(s, before, v, carry, i)
    requires s[i] * v + carry == d + carry' * MODULUS
    ensures Multiplied(s[i := d], before, v, carry', i + 1) && s[i] == before[i]
  {
    hide Num, Base;
    assert s[i] == s[i..][0] == before[i..][0] == before[i];
    MulStep(Num(before[..i]), Num(s[..i]), v, carry, s[i], d, carry', Base(i));
    NumPrefix(before, i);
    NumPrefix(s[i := d], i);
    BaseNext(i);
    assert s[i := d][..i] == s[..i];
    assert s[i := d][i + 1..] == s[i..][1..] == before[i..][1..] == before[i + 1..];
  }

  lemma BaseNext(i: nat)
    ensures Base(i + 1) == MODULUS * Base(i)
  {
  }

  lemma NumPrefix(s: seq<u32>, i: nat)
    requires i < |s|
    ensures Num(s[..i + 1]) == Num(s[..i]) + s[i] * Base(i)
  {
    assert s[..i + 1][..i] == s[..i];
  }

  /** One more bigit at the top. */
  lemma NumPush(s: seq<u32>, c: u32)
    ensures Num(s + [c]) == Num(s) + c * Base(|s|)
  {
    assert (s + [c])[..|s|] == s;
  }

  lemma MultipliedAll(s: seq<u32>, before: seq<u32>, v: nat, carry: nat)
    requires Multiplied(s, before, v, carry, |s|)
    ensures Num(s) + carry * Base(|s|) == Num(before) * v
  {
    assert s[..|s|] == s && before[..|s|] == before;
  }

  /** A carry split into the next bigit and the rest. */
  lemma CarryOut(s: seq<u32>, carry: nat)
    ensures Num(s) + carry * Base(|s|) == Num(s + [Wrap(carry)]) + carry / MODULUS * Base(|s| + 1)
  {
    hide Num, Base;
    NumPush(s, Wrap(carry));
    BaseNext(|s|);
    var p, q := Base(|s|), carry / MODULUS;
    assert (Wrap(carry) + q * MODULUS) * p == Wrap(carry) * p + q * MODULUS * p;
    Arith.MulAssociative(q, MODULUS, p);
  }

  // ------------------------------------------------------------ comparison

  function Sign(x: int): int {
    if x > 0 then 1 else if x < 0 then -1 else 0
  }

  /** The longer of two numbers has a nonzero top bigit. */
  ghost predicate Ranked(l: Big, r: Big) {
    && (Size(l) > Size(r) ==> Normal(l))
    && (Size(l) < Size(r) ==> Normal(r))
  }

  lemma DifferentSizes(l: Big, r: Big)
    requires Ranked(l, r)
    ensures Size(l) > Size(r) ==> Val(l) > Val(r)
    ensures Size(l) < Size(r) ==> Val(l) < Val(r)
  {
    if Size(l) > Size(r) {
      LongerIsLarger(l, r);
    } else if Size(l) < Size(r) {
      LongerIsLarger(r, l);
    }
  }

  /** The highest bigit in which two numbers differ decides. */
  lemma BigitDecides(l: Big, r: Big, p: nat)
    ensures Bigit(l, p) > Bigit(r, p) ==> Below(l, p + 1) > Below(r, p + 1)
    ensures Bigit(l, p) == Bigit(r, p) ==> Below(l, p + 1) - Below(r, p + 1) == Below(l, p) - Below(r, p)
  {
    hide Below, Bigit, Base;
    BelowBound(r, p);
    BelowNext(l, p);
    BelowNext(r, p);
    if Bigit(l, p) > Bigit(r, p) {
      Monotone(Bigit(r, p) + 1, Bigit(l, p), Base(p));
    }
  }

  /** How far the parts of `c` below position `i` exceed those of `a` and `b`. */
  ghost function Excess(a: Big, b: Big, c: Big, i: nat): int {
    Below(c, i) - Below(a, i) - Below(b, i)
  }

  lemma ExcessStep(a: Big, b: Big, c: Big, i: nat, borrow: int)
    ensures Excess(a, b, c, i + 1) + borrow * Base(i + 1)
         == Excess(a, b, c, i) + (Bigit(c, i) + borrow * MODULUS - Bigit(a, i) - Bigit(b, i)) * Base(i)
    ensures -2 * Base(i) < Excess(a, b, c, i) < Base(i)
  {
    BelowBound(a, i);
    BelowBound(b, i);
    BelowBound(c, i);
    var p := Base(i);
    Arith.MulAssociative(borrow, MODULUS, p);
    assert (Bigit(c, i) + borrow * MODULUS - Bigit(a, i) - Bigit(b, i)) * p
        == Bigit(c, i) * p + borrow * MODULUS * p - Bigit(a, i) * p - Bigit(b, i) * p;
  }

  /** A surplus of one at some position outweighs all below it, and a deficit of
      two outweighs both addends. */
  lemma ExcessDecides(a: Big, b: Big, c: Big, i: nat, d: int)
    requires -2 * Base(i) < Excess(a, b, c, i) < Base(i)
    ensures d < 0 ==> Excess(a, b, c, i) + d * Base(i) < 0
    ensures d > 1 ==> Excess(a, b, c, i) + d * Base(i) > 0
  {
    if d < 0 {
      Arith.MulAtLeast(d, Base(i));
    } else if d > 1 {
      Monotone(2, d, Base(i));
    }
  }
}
