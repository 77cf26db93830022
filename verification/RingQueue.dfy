/**
 `RingQueue`: a byte ring holding length-prefixed messages, used by one thread.
 */
module RingQueue {
  import opened U32
  import opened KcpCodec
  import opened Bits
  import opened Ring

  const HEAD: nat := 4

  /** What one message occupies: its length, then its bytes. */
  function Packed(m: seq<u8>): (r: seq<u8>)
    requires |m| < MODULUS
    ensures |r| == HEAD + |m|
  {
    Put32(|m|) + m
  }

  ghost predicate Small(ms: seq<seq<u8>>) {
    forall m :: m in ms ==> |m| < MODULUS
  }

  ghost function Stored(ms: seq<seq<u8>>): seq<u8>
    requires Small(ms)
  {
    if ms == [] then [] else Packed(ms[0]) + Stored(ms[1..])
  }

  lemma {:induction false} StoredSnoc(ms: seq<seq<u8>>, m: seq<u8>)
    requires Small(ms) && |m| < MODULUS
    ensures Small(ms + [m]) && Stored(ms + [m]) == Stored(ms) + Packed(m)
  {
    if ms == [] {
      assert ms + [m] == [m] && [m][1..] == [];
      assert Packed(m) + [] == Packed(m) == [] + Packed(m);
    } else {
      StoredSnoc(ms[1..], m);
      assert (ms + [m])[1..] == ms[1..] + [m];
      SumAssociative(Packed(ms[0]), Stored(ms[1..]), Packed(m));
    }
  }

  /** The least power of two not below `num`. */
  function RoundPowOfTwo(num: nat): nat {
    if num < 2 then 1 else Pow2(BitLength(num - 1))
  }

  class RingQueue {
    const size: nat
    ghost const bits: nat
    const buf: array<u8>
    var head: u32
    var tail: u32
    var writeHead: u32
    var readTail: u32
    ghost var put: nat                   // bytes ever written
    ghost var got: nat                   // bytes ever read
    ghost var contents: seq<seq<u8>>     // messages waiting

    ghost predicate Sized() {
      buf.Length == size <= HALF && (size == 0 || (size == Pow2(bits) && bits <= MAX_BITS))
    }

    ghost predicate Valid()
      reads this, buf
    {
      && Sized()
      && head == writeHead == Wrap(put) && tail == readTail == Wrap(got)
      && Holds(buf[..], put, got, contents)
    }

    /** The ring's size is the least power of two that holds `n` bytes; a ring of
        0 bytes stays one, because 0 passes the power-of-two test. */
    constructor (n: u32)
      requires n <= HALF
      ensures Valid() && contents == []
      ensures n <= size && (n > 0 ==> IsPow2(size) && size < 2 * n)
      ensures n > 0 ==> forall k: nat :: n <= Pow2(k) ==> size <= Pow2(k)
    {
      var length: nat := n;
      if And(n, Wrap(n - 1)) != 0 {
        length := RoundPowOfTwo(n);
      }
      ghost var k := SizeBits(n, length);
      size := length;
      bits := k;
      buf := new u8[length];
      head, tail, writeHead, readTail := 0, 0, 0, 0;
      put, got, contents := 0, 0, [];
    }

    function RemainingSpace(): u32
      reads this
    {
      Wrap(size - head + tail)
    }

    /** Copies into the ring at `writeHead`, in two pieces when the end of the
        array is in the way. */
    method WriteData(data: seq<u8>)
      requires Sized() && size > 0 && |data| <= size && writeHead == Wrap(put)
      modifies buf, `writeHead, `put
      ensures buf[..] == Written(old(buf[..]), old(put), data)
      ensures put == old(put) + |data| && writeHead == Wrap(put)
    {
      hide And, Pow2, Offset, Wrap;
      var cur := And(writeHead, size - 1);
      MaskedCounter(put, bits);
      var lenTail := if |data| < size - cur then |data| else size - cur;
      forall i | 0 <= i < lenTail {
        buf[cur + i] := data[i];
      }
      var lenHead := |data| - lenTail;
      forall i | 0 <= i < lenHead {
        buf[i] := data[lenTail + i];
      }
      assert buf[..] == Overlay(old(buf[..]), cur, data);
      WrapPlus(put, |data|);
      writeHead := Wrap(writeHead + |data|);
      put := put + |data|;
    }

    /** Copies out of the ring from `readTail`, likewise. */
    method ReadData(n: nat) returns (data: seq<u8>)
      requires Sized() && size > 0 && n <= size && readTail == Wrap(got)
      modifies `readTail, `got
      ensures data == Slice(buf[..], old(got), n)
      ensures got == old(got) + n && readTail == Wrap(got)
    {
      hide And, Pow2, Offset, Wrap;
      var cur := And(readTail, size - 1);
      MaskedCounter(got, bits);
      var lenTail := if n < size - cur then n else size - cur;
      data := buf[cur..cur + lenTail] + buf[..n - lenTail];
      SliceTurned(buf[..], got, n, lenTail);
      WrapPlus(got, n);
      readTail := Wrap(readTail + n);
      got := got + n;
    }

    /** The two copies of `Push`. */
    method WriteMessage(data: seq<u8>)
      requires Sized() && size > 0 && HEAD + |data| <= size && writeHead == Wrap(put)
      modifies buf, `writeHead, `put
      ensures put == old(put) + HEAD + |data| && writeHead == Wrap(put)
      ensures buf[..] == Written(Written(old(buf[..]), old(put), Put32(|data|)), old(put) + HEAD, data)
    {
      WriteData(Put32(|data|));
      WriteData(data);
    }

    /** Appends a message if it fits behind a length word; otherwise fails and
        changes nothing. */
    method Push(data: seq<u8>) returns (ret: int)
      requires Valid() && |data| < MODULUS
      modifies `head, `writeHead, `put, `contents, buf
      ensures Valid()
      ensures ret == if HEAD + |data| <= size - (old(put) - got) then 0 else -1
      ensures contents == if ret == 0 then old(contents) + [data] else old(contents)
      ensures ret != 0 ==> put == old(put) && buf[..] == old(buf[..])
    {
      hide Slice, Written, Stored, Pow2;
      SpaceIs(size, put, got);
      if |data| + HEAD > RemainingSpace() {
        return -1;
      }
      PushHolds(buf[..], put, got, contents, data);
      WriteMessage(data);
      contents := contents + [data];
      head := writeHead;
      ret := 0;
    }

    /** The two copies of `Pop`. */
    method ReadMessage(ghost m: seq<u8>) returns (n: u32, data: seq<u8>)
      requires Sized() && size > 0 && readTail == Wrap(got)
      requires Starts(buf[..], got, m)
      modifies `readTail, `got
      ensures n == |m| && data == m && got == old(got) + HEAD + |m| && readTail == Wrap(got)
    {
      var bytes := ReadData(HEAD);
      n := Get32(bytes, 0);
      data := ReadData(n);
    }

    /** Removes and returns the first message. Returns 0 and no bytes both for an
        empty queue and for a message without bytes. */
    method Pop() returns (n: u32, data: seq<u8>)
      requires Valid()
      modifies `tail, `readTail, `got, `contents
      ensures Valid()
      ensures old(contents) == [] ==> n == 0 && data == [] && contents == [] && got == old(got)
      ensures old(contents) != [] ==> data == old(contents)[0] && contents == old(contents)[1..]
      ensures n == |data|
    {
      WrapInjective(put, got);
      PopHolds(buf[..], put, got, contents);
      if head == tail {
        return 0, [];
      }
      n, data := ReadMessage(contents[0]);
      contents := contents[1..];
      tail := readTail;
    }
  }

  /** The ring `b` holds the messages `ms` between the two positions. */
  ghost predicate Holds(b: seq<u8>, put: nat, got: nat, ms: seq<seq<u8>>) {
    && got <= put <= got + |b|
    && Small(ms)
    && if |b| == 0 then ms == [] else Slice(b, got, put - got) == Stored(ms)
  }

  /** The ring has message `m` and its length at a position. */
  ghost predicate Starts(b: seq<u8>, got: nat, m: seq<u8>) {
    && 0 < |b| && HEAD + |m| <= |b| && |m| < MODULUS
    && Slice(b, got, HEAD) == Put32(|m|) && Get32(Put32(|m|), 0) == |m|
    && Slice(b, got + HEAD, |m|) == m
  }

  /** Writing a length and a message appends exactly that message. */
  lemma PushHolds(b: seq<u8>, put: nat, got: nat, ms: seq<seq<u8>>, data: seq<u8>)
    requires Holds(b, put, got, ms) && put - got + HEAD + |data| <= |b| && |data| < MODULUS
    ensures Holds(Written(Written(b, put, Put32(|data|)), put + HEAD, data), put + HEAD + |data|, got, ms + [data])
  {
    StoredSnoc(ms, data);
    PushFrame(b, put, got, ms, Put32(|data|), data);
  }

  lemma PushFrame(b: seq<u8>, put: nat, got: nat, ms: seq<seq<u8>>, h: seq<u8>, data: seq<u8>)
    requires Holds(b, put, got, ms) && put - got + |h| + |data| <= |b| && |h| == HEAD
    requires Small(ms + [data]) && Stored(ms + [data]) == Stored(ms) + (h + data)
    ensures Holds(Written(Written(b, put, h), put + HEAD, data), put + HEAD + |data|, got, ms + [data])
  {
    hide Slice, Written;
    PushedSlice(b, got, put - got, Stored(ms), h, data);
  }

  /** The queue is empty exactly when the counters meet; otherwise the first
      message starts at the read position and the rest follow it. */
  lemma PopHolds(b: seq<u8>, put: nat, got: nat, ms: seq<seq<u8>>)
    requires Holds(b, put, got, ms)
    ensures ms == [] <==> put == got
    ensures ms != [] ==> Starts(b, got, ms[0]) && Holds(b, put, got + HEAD + |ms[0]|, ms[1..])
  {
    EmptyStored(ms);
    if put > got {
      FirstStored(b, got, put - got, ms);
    }
  }

  lemma EmptyStored(ms: seq<seq<u8>>)
    requires Small(ms)
    ensures ms != [] ==> |Stored(ms)| >= HEAD
  {
  }

  // -------------------------------------------------------------- the ring

  lemma SizeBits(n: u32, length: nat) returns (k: nat)
    requires n <= HALF
    requires length == if And(n, Wrap(n - 1)) != 0 then RoundPowOfTwo(n) else n
    ensures n <= length <= HALF
    ensures n > 0 ==> length == Pow2(k) && k <= MAX_BITS && length < 2 * n
    ensures n > 0 ==> forall j: nat :: n <= Pow2(j) ==> length <= Pow2(j)
  {
    k := 0;
    if n > 0 {
      RoundUp(n);
      HalfBits(n - 1);
      k := BitLength(n - 1);
      Pow2Monotone(k, MAX_BITS);
      RoundedIs(n);
    }
  }

  /** Rounding up, or leaving a power of two alone, is the same thing. */
  lemma RoundedIs(n: u32)
    requires 0 < n <= HALF
    ensures (if And(n, Wrap(n - 1)) != 0 then RoundPowOfTwo(n) else n) == Pow2(BitLength(n - 1))
  {
    assert Wrap(n - 1) == n - 1;
    PowerOfTwoTest(n);
    if IsPow2(n) {
      RoundUp(n);
      var j: nat :| n == Pow2(j);
      assert Pow2(BitLength(n - 1)) <= Pow2(j);
    } else {
      assert Pow2(0) == 1;
      HalfBits(n - 1);
    }
  }

  lemma HalfBits(x: nat)
    requires x < HALF
    ensures BitLength(x) <= MAX_BITS && Pow2(MAX_BITS) == HALF
  {
    Pow2Of32();
    assert Pow2(32) == 2 * Pow2(31);
    BitLengthAtMost(x, MAX_BITS);
  }

  lemma WrapPlus(x: int, d: int)
    ensures Wrap(Wrap(x) + d) == Wrap(x + d)
  {
  }

  /** The free space is computed right although both counters wrap. */
  lemma SpaceIs(size: nat, put: nat, got: nat)
    requires size <= HALF && got <= put <= got + size
    ensures Wrap(size - Wrap(put) + Wrap(got)) == size - (put - got)
  {
  }

  lemma AppendSlice(b: seq<u8>, got: nat, n: nat, s: seq<u8>, data: seq<u8>)
    requires 0 < |b| && n + |data| <= |b| && Slice(b, got, n) == s
    ensures Slice(Written(b, got + n, data), got, n + |data|) == s + data
  {
    hide Slice, Written;
    WrittenKeeps(b, got + n, data, got, n);
    WrittenSlice(b, got + n, data);
    SliceSum(Written(b, got + n, data), got, n, |data|);
  }

  /** The bytes between the counters after a push of `h` and then `data`. */
  lemma PushedSlice(b: seq<u8>, got: nat, n: nat, s: seq<u8>, h: seq<u8>, data: seq<u8>)
    requires 0 < |b| && Slice(b, got, n) == s && n + |h| + |data| <= |b|
    ensures var b1 := Written(b, got + n, h); var b2 := Written(b1, got + n + |h|, data);
            Slice(b2, got, n + |h| + |data|) == s + (h + data)
  {
    hide Slice, Written;
    AppendSlice(b, got, n, s, h);
    AppendSlice(Written(b, got + n, h), got, n + |h|, s + h, data);
    SumAssociative(s, h, data);
  }

  lemma SplitSlice(b: seq<u8>, from: nat, n: nat, s: seq<u8>, t: seq<u8>)
    requires 0 < |b| && Slice(b, from, n) == s + t
    ensures Slice(b, from, |s|) == s && Slice(b, from + |s|, |t|) == t && n == |s| + |t|
  {
    SliceSum(b, from, |s|, |t|);
    var u, v := Slice(b, from, |s|), Slice(b, from + |s|, |t|);
    assert |u + v| == |s + t|;
    assert u == (u + v)[..|s|] && v == (u + v)[|s|..];
    assert s == (s + t)[..|s|] && t == (s + t)[|s|..];
  }

  lemma StoredFirst(ms: seq<seq<u8>>)
    requires Small(ms)
    ensures if ms == [] then Stored(ms) == [] else Stored(ms) == Put32(|ms[0]|) + ms[0] + Stored(ms[1..])
  {
  }

  /** The first length word and message, read separately. */
  lemma FirstStored(b: seq<u8>, got: nat, n: nat, ms: seq<seq<u8>>)
    requires 0 < |b| && n > 0 && Small(ms) && Slice(b, got, n) == Stored(ms)
    ensures ms != [] && HEAD + |ms[0]| <= n
    ensures Slice(b, got, HEAD) == Put32(|ms[0]|) && Get32(Put32(|ms[0]|), 0) == |ms[0]|
    ensures Slice(b, got + HEAD, |ms[0]|) == ms[0]
    ensures Slice(b, got + HEAD + |ms[0]|, n - HEAD - |ms[0]|) == Stored(ms[1..])
  {
    hide Stored, Slice, Put32, Get32;
    StoredFirst(ms);
    var m, rest := ms[0], Stored(ms[1..]);
    SumAssociative(Put32(|m|), m, rest);
    SplitSlice(b, got, n, Put32(|m|), m + rest);
    SplitSlice(b, got + HEAD, |m| + |rest|, m, rest);
    assert [] + Put32(|m|) == Put32(|m|);
    Get32AfterPut([], |m|, Put32(|m|));
  }
}
