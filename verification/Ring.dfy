/**
 Arithmetic of a byte ring addressed by counters that never wrap, and of the
 32-bit counters and masks that stand for them.
 */
module Ring {
  import opened U32
  import opened Bits
  import Arith

  const MAX_BITS: nat := 31

  /** Offset of position `p` in a ring of `size` bytes, one turn at a time. */
  function Offset(p: nat, size: nat): (o: nat)
    requires size > 0
    ensures o < size
  {
    if p < size then p else Offset(p - size, size)
  }

  lemma {:induction false} OffsetIsMod(p: nat, size: nat)
    requires size > 0
    ensures Offset(p, size) == p % size
  {
    if p < size {
      Arith.DivUnique(p, size, 0, p);
    } else {
      OffsetIsMod(p - size, size);
      Arith.DivAddMultiple(p - size, size, 1);
    }
  }

  /** Going `i` further, less than once round. */
  lemma {:induction false} OffsetPlus(p: nat, i: nat, size: nat)
    requires size > 0 && i < size
    ensures Offset(p + i, size) == if Offset(p, size) + i < size then Offset(p, size) + i else Offset(p, size) + i - size
  {
    if p >= size {
      OffsetPlus(p - size, i, size);
    }
  }

  lemma WrapKeepsOffset(p: nat, size: nat, turns: nat)
    requires size > 0 && turns * size == MODULUS
    ensures Wrap(p) % size == p % size
  {
    var q := p / MODULUS;
    assert p == q * MODULUS + Wrap(p);
    Arith.MulAssociative(q, turns, size);
    Arith.DivAddMultiple(Wrap(p), size, q * turns);
  }

  /** The masked 32-bit counter is the offset of the unbounded position, because
      the size is a power of two and so divides 2^32. */
  lemma MaskedCounter(p: nat, bits: nat)
    requires bits <= 32
    ensures And(Wrap(p), Pow2(bits) - 1) == Offset(p, Pow2(bits))
  {
    Pow2Of32();
    Pow2Sum(32 - bits, bits);
    WrapKeepsOffset(p, Pow2(bits), Pow2(32 - bits));
    OffsetIsMod(p, Pow2(bits));
    MaskIsMod(Wrap(p), bits);
  }

  /** The byte of ring `b` at position `p`. */
  function At<T>(b: seq<T>, p: nat): T
    requires |b| > 0
  {
    b[Offset(p, |b|)]
  }

  /** `n` bytes of ring `b` from position `from`. */
  function Slice<T>(b: seq<T>, from: nat, n: nat): (s: seq<T>)
    requires |b| > 0
    ensures |s| == n
  {
    if n == 0 then [] else Slice(b, from, n - 1) + [At(b, from + n - 1)]
  }

  lemma {:induction false} SliceSum<T>(b: seq<T>, from: nat, m: nat, n: nat)
    requires |b| > 0
    ensures Slice(b, from, m + n) == Slice(b, from, m) + Slice(b, from + m, n)
  {
    if n > 0 {
      SliceSum(b, from, m, n - 1);
    }
  }

  lemma {:induction false} SliceSame<T>(b: seq<T>, c: seq<T>, from: nat, n: nat)
    requires |b| > 0 && |c| > 0
    requires forall p :: from <= p < from + n ==> At(b, p) == At(c, p)
    ensures Slice(b, from, n) == Slice(c, from, n)
  {
    if n > 0 {
      SliceSame(b, c, from, n - 1);
    }
  }

  /** A slice that stays inside the array. */
  lemma {:induction false} SliceStraight<T>(b: seq<T>, from: nat, n: nat)
    requires |b| > 0 && Offset(from, |b|) + n <= |b|
    ensures Slice(b, from, n) == b[Offset(from, |b|)..Offset(from, |b|) + n]
  {
    var o := Offset(from, |b|);
    if n > 0 {
      SliceStraight(b, from, n - 1);
      OffsetPlus(from, n - 1, |b|);
      assert At(b, from + n - 1) == b[o + n - 1];
      assert b[o..o + n] == b[o..o + n - 1] + [b[o + n - 1]];
    }
  }

  /** A slice in two pieces, the second from the start of the array. */
  lemma SliceTurned<T>(b: seq<T>, from: nat, n: nat, tail: nat)
    requires |b| > 0 && n <= |b|
    requires tail == if n < |b| - Offset(from, |b|) then n else |b| - Offset(from, |b|)
    ensures Slice(b, from, n) == b[Offset(from, |b|)..Offset(from, |b|) + tail] + b[..n - tail]
  {
    hide Slice, Offset;
    SliceSum(b, from, tail, n - tail);
    SliceStraight(b, from, tail);
    if n > tail {
      OffsetPlus(from, tail, |b|);
      SliceStraight(b, from + tail, n - tail);
    }
  }

  /** Index, counted from `cur` and round the end, of offset `j`. */
  function Turn(j: nat, cur: nat, size: nat): nat
    requires j < size && cur < size
  {
    if j >= cur then j - cur else j - cur + size
  }

  /** Ring `b` after `data` was written from offset `cur`. */
  function Overlay<T>(b: seq<T>, cur: nat, data: seq<T>): (r: seq<T>)
    requires cur < |b|
    ensures |r| == |b|
    ensures forall j | 0 <= j < |b| :: r[j] == if Turn(j, cur, |b|) < |data| then data[Turn(j, cur, |b|)] else b[j]
  {
    seq(|b|, j requires 0 <= j < |b| =>
      if Turn(j, cur, |b|) < |data| then data[Turn(j, cur, |b|)] else b[j])
  }

  /** Ring `b` after `data` was written from position `p`. */
  function Written<T>(b: seq<T>, p: nat, data: seq<T>): (r: seq<T>)
    requires |b| > 0
    ensures |r| == |b|
  {
    Overlay(b, Offset(p, |b|), data)
  }

  lemma WrittenAt<T>(b: seq<T>, p: nat, data: seq<T>, i: nat)
    requires |data| <= |b| && i < |b|
    ensures At(Written(b, p, data), p + i) == if i < |data| then data[i] else At(b, p + i)
  {
    OffsetPlus(p, i, |b|);
  }

  lemma {:induction false} WrittenPrefix<T>(b: seq<T>, p: nat, data: seq<T>, n: nat)
    requires 0 < |b| && n <= |data| <= |b|
    ensures Slice(Written(b, p, data), p, n) == data[..n]
  {
    if n > 0 {
      WrittenPrefix(b, p, data, n - 1);
      WrittenAt(b, p, data, n - 1);
    }
  }

  /** What was written is read back. */
  lemma WrittenSlice<T>(b: seq<T>, p: nat, data: seq<T>)
    requires 0 < |b| && |data| <= |b|
    ensures Slice(Written(b, p, data), p, |data|) == data
  {
    WrittenPrefix(b, p, data, |data|);
    assert data[..|data|] == data;
  }

  lemma AtOneTurnOn<T>(b: seq<T>, p: nat)
    requires |b| > 0
    ensures At(b, p + |b|) == At(b, p)
  {
  }

  /** What lies within one turn before the end of the write is untouched. */
  lemma WrittenKeeps<T>(b: seq<T>, p: nat, data: seq<T>, from: nat, n: nat)
    requires 0 < |b| && |data| <= |b|
    requires from + n <= p && p + |data| <= from + |b|
    ensures Slice(Written(b, p, data), from, n) == Slice(b, from, n)
  {
    forall q | from <= q < from + n ensures At(Written(b, p, data), q) == At(b, q) {
      AtOneTurnOn(b, q);
      AtOneTurnOn(Written(b, p, data), q);
      WrittenAt(b, p, data, q + |b| - p);
    }
    SliceSame(Written(b, p, data), b, from, n);
  }
}
