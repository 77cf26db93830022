/**
 Fixed-width integers and the modular comparison of `ikcp.c`.

 A 32-bit sequence number on the wire is the remainder of an unbounded index.
 `Near` recovers the index closest to a base; the lemmas say when it is the
 right one.
 */
module U32 {

  const MODULUS: int := 0x1_0000_0000
  const HALF: int := 0x8000_0000

  type u8 = x: int | 0 <= x < 0x100
  type u16 = x: int | 0 <= x < 0x1_0000
  type u32 = x: int | 0 <= x < 0x1_0000_0000

  /** Conversion to a 32-bit unsigned integer. */
  function Wrap(x: int): u32 {
    x % MODULUS
  }

  /** Conversion of a 32-bit unsigned integer to a signed one. */
  function Signed(x: u32): int {
    if x < HALF then x else x - MODULUS
  }

  /** `_itimediff`: the signed 32-bit value of `later - earlier`. */
  function TimeDiff(later: u32, earlier: u32): int {
    Signed(Wrap(later - earlier))
  }

  /** The index within half the number space of `base` that wraps to `w`. */
  function Near(base: int, w: u32): (x: int)
    ensures base - HALF <= x < base + HALF
    ensures Wrap(x) == w
    ensures x == base + TimeDiff(w, Wrap(base))
  {
    base + TimeDiff(w, Wrap(base))
  }

  /** The modular difference is the true one exactly within half the number space. */
  lemma TimeDiffExact(x: int, y: int)
    ensures TimeDiff(Wrap(x), Wrap(y)) == x - y <==> -HALF <= x - y < HALF
  {
    assert (Wrap(x) - Wrap(y)) % MODULUS == (x - y) % MODULUS;
  }

  /** A wrapped index is decoded correctly exactly when it is within half the
      number space of the base. */
  lemma NearExact(base: int, x: int)
    ensures Near(base, Wrap(x)) == x <==> base - HALF <= x < base + HALF
  {
    TimeDiffExact(x, base);
  }

  /** Within one turn of the counter, equal remainders mean equal indices. */
  lemma WrapInjective(x: int, y: int)
    requires -MODULUS < x - y < MODULUS
    ensures Wrap(x) == Wrap(y) <==> x == y
  {
    assert (Wrap(x) - Wrap(y)) % MODULUS == (x - y) % MODULUS;
  }
}
