/** Bitwise operations on naturals, and powers of two. */
module Bits {
  import Arith

  function Pow2(k: nat): (p: nat)
    ensures p >= 1
  {
    if k == 0 then 1 else 2 * Pow2(k - 1)
  }

  /** Bitwise and. */
  function And(x: nat, y: nat): nat {
    if x == 0 || y == 0 then 0 else 2 * And(x / 2, y / 2) + (if x % 2 == 1 && y % 2 == 1 then 1 else 0)
  }

  /** Number of bits up to the highest set one; 32 minus this is `__builtin_clz`
      of a nonzero 32-bit number. */
  function BitLength(x: nat): nat {
    if x == 0 then 0 else 1 + BitLength(x / 2)
  }

  ghost predicate IsPow2(n: nat) {
    exists k: nat :: n == Pow2(k)
  }

  lemma {:induction false} Pow2Monotone(j: nat, k: nat)
    requires j <= k
    ensures Pow2(j) <= Pow2(k)
    ensures j < k ==> 2 * Pow2(j) <= Pow2(k)
  {
    if j < k {
      Pow2Monotone(j, k - 1);
    }
  }

  lemma {:induction false} Pow2Sum(j: nat, k: nat)
    ensures Pow2(j + k) == Pow2(j) * Pow2(k)
  {
    if j > 0 {
      Pow2Sum(j - 1, k);
      assert 2 * (Pow2(j - 1) * Pow2(k)) == 2 * Pow2(j - 1) * Pow2(k);
    }
  }

  lemma Pow2Of32()
    ensures Pow2(32) == 0x1_0000_0000
  {
    assert Pow2(2) == 4 && Pow2(4) == 16;
    Pow2Sum(4, 4);
    assert Pow2(8) == 256;
    Pow2Sum(8, 8);
    assert Pow2(16) == 0x1_0000;
    Pow2Sum(16, 16);
  }

  lemma ModTwice(x: nat, h: nat)
    requires h >= 1
    ensures x % (2 * h) == 2 * (x / 2 % h) + x % 2
  {
    var q, r := x / 2 / h, x / 2 % h;
    assert x / 2 == q * h + r;
    assert q * (2 * h) == 2 * (q * h);
    Arith.DivUnique(x, 2 * h, q, 2 * r + x % 2);
  }

  /** Masking with `2^k - 1` is taking the remainder. */
  lemma {:induction false} MaskIsMod(x: nat, k: nat)
    ensures And(x, Pow2(k) - 1) == x % Pow2(k)
  {
    if x == 0 {
      Arith.DivUnique(0, Pow2(k), 0, 0);
    } else if k == 0 {
      assert x % 1 == 0;
    } else {
      MaskIsMod(x / 2, k - 1);
      MaskTwice(x, Pow2(k - 1));
    }
  }

  lemma MaskTwice(x: nat, h: nat)
    requires x > 0 && h >= 1 && And(x / 2, h - 1) == x / 2 % h
    ensures And(x, 2 * h - 1) == x % (2 * h)
  {
    hide And;
    ModTwice(x, h);
    AndOdd(x, h);
  }

  lemma AndOdd(x: nat, h: nat)
    requires x > 0 && h >= 1
    ensures And(x, 2 * h - 1) == 2 * And(x / 2, h - 1) + x % 2
  {
    assert (2 * h - 1) / 2 == h - 1 && (2 * h - 1) % 2 == 1;
  }

  /** `n & (n - 1)` clears the lowest set bit: it is zero exactly for a power of
      two (and is not asked for 0 here). */
  lemma {:induction false} PowerOfTwoTest(n: nat)
    requires n >= 1
    ensures And(n, n - 1) == 0 <==> IsPow2(n)
  {
    if n == 1 {
      assert Pow2(0) == 1;
    } else if n % 2 == 1 {
      assert n / 2 == (n - 1) / 2 && n / 2 > 0;
      AndSelf(n / 2);
      forall k: nat ensures n != Pow2(k) {
      }
    } else {
      assert (n - 1) / 2 == n / 2 - 1 && (n - 1) % 2 == 1;
      PowerOfTwoTest(n / 2);
      if IsPow2(n / 2) {
        var k: nat :| n / 2 == Pow2(k);
        assert n == Pow2(k + 1);
      }
      if IsPow2(n) {
        var k: nat :| n == Pow2(k);
        assert k > 0 && n / 2 == Pow2(k - 1);
      }
    }
  }

  lemma {:induction false} AndSelf(x: nat)
    ensures And(x, x) == x
  {
    if x > 0 {
      AndSelf(x / 2);
    }
  }

  /** `1 << BitLength(n - 1)` is the least power of two not below `n`. */
  lemma {:induction false} RoundUp(n: nat)
    requires n >= 1
    ensures n <= Pow2(BitLength(n - 1)) && Pow2(BitLength(n - 1)) < 2 * n
    ensures forall k: nat :: n <= Pow2(k) ==> Pow2(BitLength(n - 1)) <= Pow2(k)
  {
    if n > 1 {
      BitLengthBounds(n - 1);
    }
    var b := BitLength(n - 1);
    forall k: nat | n <= Pow2(k) ensures Pow2(b) <= Pow2(k) {
      if k < b {
        Pow2Monotone(k, b);
      } else {
        Pow2Monotone(b, k);
      }
    }
  }

  lemma {:induction false} BitLengthBounds(x: nat)
    requires x >= 1
    ensures x < Pow2(BitLength(x)) <= 2 * x
  {
    if x > 1 {
      BitLengthBounds(x / 2);
    } else {
      assert BitLength(0) == 0 && Pow2(1) == 2 * Pow2(0);
    }
  }

  lemma {:induction false} BitLengthAtMost(x: nat, k: nat)
    requires x < Pow2(k)
    ensures BitLength(x) <= k
  {
    if x > 0 {
      assert k > 0 && x / 2 < Pow2(k - 1);
      BitLengthAtMost(x / 2, k - 1);
    }
  }

  /** A number without its lowest `k` bits. */
  function HighBits(x: nat, k: nat): nat {
    if k == 0 then x else HighBits(x / 2, k - 1)
  }

  /** Testing one bit of a number. */
  lemma {:induction false} BitTest(x: nat, k: nat)
    ensures And(x, Pow2(k)) != 0 <==> HighBits(x, k) % 2 == 1
  {
    if x == 0 {
      NoBits(k);
    } else if k == 0 {
      assert And(x / 2, 0) == 0;
    } else {
      BitTest(x / 2, k - 1);
      AndEven(x, Pow2(k - 1));
    }
  }

  lemma {:induction false} NoBits(k: nat)
    ensures HighBits(0, k) == 0
  {
    if k > 0 {
      NoBits(k - 1);
    }
  }

  lemma {:induction false} OneBitLess(x: nat, k: nat)
    ensures HighBits(x, k + 1) == HighBits(x, k) / 2
    ensures HighBits(x, k) <= x
  {
    if k > 0 {
      OneBitLess(x / 2, k - 1);
    }
  }

  lemma {:induction false} TopBit(x: nat, k: nat)
    requires Pow2(k) <= x < 2 * Pow2(k)
    ensures HighBits(x, k) == 1
  {
    if k > 0 {
      TopBit(x / 2, k - 1);
    }
  }

  lemma AndEven(x: nat, h: nat)
    requires x > 0 && h >= 1
    ensures And(x, 2 * h) == 2 * And(x / 2, h)
  {
    assert 2 * h / 2 == h && 2 * h % 2 == 0;
  }
}
