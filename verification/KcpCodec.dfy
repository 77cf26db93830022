/**
 The byte format of KCP datagrams: a 24-byte little-endian header followed by
 the payload, repeated until fewer than 24 bytes remain.
 */
module KcpCodec {
  import opened U32

  const CMD_PUSH: u8 := 81
  const CMD_ACK: u8 := 82
  const CMD_WASK: u8 := 83
  const CMD_WINS: u8 := 84
  const OVERHEAD: nat := 24

  /** One segment as it travels. `sn` and `una` are unbounded so that the same
      type serves the protocol layer; on the wire they are 32 bits wide. */
  datatype Frame = Frame(cmd: u8, frg: u8, wnd: u16, ts: u32, sn: int, una: int, data: seq<u8>)

  /** What the receiver of a frame sees: the low 32 bits of both indices. */
  function OnWire(f: Frame): Frame {
    f.(sn := Wrap(f.sn), una := Wrap(f.una))
  }

  predicate KnownCmd(cmd: u8) {
    cmd == CMD_PUSH || cmd == CMD_ACK || cmd == CMD_WASK || cmd == CMD_WINS
  }

  predicate Sendable(f: Frame) {
    KnownCmd(f.cmd) && |f.data| < HALF
  }

  function Put16(w: u16): (b: seq<u8>)
    ensures |b| == 2
  {
    [w % 0x100, w / 0x100]
  }

  function Put32(l: u32): (b: seq<u8>)
    ensures |b| == 4
  {
    [l % 0x100, l / 0x100 % 0x100, l / 0x1_0000 % 0x100, l / 0x100_0000]
  }

  function Get16(b: seq<u8>, at: nat): u16
    requires at + 2 <= |b|
  {
    b[at] as int + b[at + 1] as int * 0x100
  }

  function Get32(b: seq<u8>, at: nat): u32
    requires at + 4 <= |b|
  {
    b[at] as int + b[at + 1] as int * 0x100 + b[at + 2] as int * 0x1_0000 + b[at + 3] as int * 0x100_0000
  }

  lemma Get16AfterPut(pre: seq<u8>, w: u16, b: seq<u8>)
    requires pre + Put16(w) <= b
    ensures Get16(b, |pre|) == w
  {
    var p := pre + Put16(w);
    assert forall i | 0 <= i < 2 :: b[|pre| + i] == p[|pre| + i] == Put16(w)[i];
  }

  lemma Get32AfterPut(pre: seq<u8>, l: u32, b: seq<u8>)
    requires pre + Put32(l) <= b
    ensures Get32(b, |pre|) == l
  {
    var p := pre + Put32(l);
    assert b[|pre|] == p[|pre|] == l % 0x100;
    assert b[|pre| + 1] == p[|pre| + 1] == l / 0x100 % 0x100;
    assert b[|pre| + 2] == p[|pre| + 2] == l / 0x1_0000 % 0x100;
    assert b[|pre| + 3] == p[|pre| + 3] == l / 0x100_0000;
    FourBytes(l);
  }

  lemma FourBytes(l: u32)
    ensures l == l % 0x100 + l / 0x100 % 0x100 * 0x100 + l / 0x1_0000 % 0x100 * 0x1_0000 + l / 0x100_0000 * 0x100_0000
  {
    assert l / 0x1_0000 == l / 0x100 / 0x100;
    assert l / 0x100_0000 == l / 0x1_0000 / 0x100;
  }

  /** The header `ikcp_encode_seg` writes. */
  function Head(conv: u32, f: Frame): (b: seq<u8>)
    ensures |b| == OVERHEAD
  {
    Put32(conv) + [f.cmd, f.frg] + Put16(f.wnd) + Put32(f.ts)
    + Put32(Wrap(f.sn)) + Put32(Wrap(f.una)) + Put32(Wrap(|f.data|))
  }

  function Encode(conv: u32, f: Frame): (b: seq<u8>)
    ensures |b| == OVERHEAD + |f.data|
  {
    Head(conv, f) + f.data
  }

  function EncodeAll(conv: u32, fs: seq<Frame>): seq<u8>
  {
    if fs == [] then [] else EncodeAll(conv, fs[..|fs| - 1]) + Encode(conv, fs[|fs| - 1])
  }

  /** One header and its payload, read from a buffer known to hold them. */
  function DecodeAt(b: seq<u8>): Frame
    requires |b| >= OVERHEAD && |b| - OVERHEAD >= Get32(b, 20)
  {
    Frame(b[4], b[5], Get16(b, 6), Get32(b, 8), Get32(b, 12), Get32(b, 16),
          b[OVERHEAD..OVERHEAD + Get32(b, 20)])
  }

  /** The header loop of `ikcp_input`: the frames read before it stops, and the
      code it stops with. Trailing bytes too short for a header are ignored. */
  function Parse(conv: u32, b: seq<u8>): (r: (seq<Frame>, int))
    decreases |b|
  {
    if |b| < OVERHEAD then ([], 0)
    else if Get32(b, 0) != conv then ([], -1)
    else if |b| - OVERHEAD < Get32(b, 20) || Signed(Get32(b, 20)) < 0 then ([], -2)
    else if !KnownCmd(b[4]) then ([], -3)
    else
      var rest := Parse(conv, b[OVERHEAD + Get32(b, 20)..]);
      ([DecodeAt(b)] + rest.0, rest.1)
  }

  lemma HeadFields(conv: u32, f: Frame, b: seq<u8>)
    requires Head(conv, f) <= b
    ensures Get32(b, 0) == conv && b[4] == f.cmd && b[5] == f.frg && Get16(b, 6) == f.wnd
    ensures Get32(b, 8) == f.ts && Get32(b, 12) == Wrap(f.sn)
    ensures Get32(b, 16) == Wrap(f.una) && Get32(b, 20) == Wrap(|f.data|)
  {
    var p0 := Put32(conv);
    var p1 := p0 + [f.cmd, f.frg];
    var p2 := p1 + Put16(f.wnd);
    var p3 := p2 + Put32(f.ts);
    var p4 := p3 + Put32(Wrap(f.sn));
    var p5 := p4 + Put32(Wrap(f.una));
    assert p5 + Put32(Wrap(|f.data|)) == Head(conv, f);
    PrefixOfSum(p5, Put32(Wrap(|f.data|)), b);
    PrefixOfSum(p4, Put32(Wrap(f.una)), b);
    PrefixOfSum(p3, Put32(Wrap(f.sn)), b);
    PrefixOfSum(p2, Put32(f.ts), b);
    PrefixOfSum(p1, Put16(f.wnd), b);
    PrefixOfSum(p0, [f.cmd, f.frg], b);
    assert p1[4] == f.cmd && p1[5] == f.frg;
    assert [] + p0 == p0;
    Get32AfterPut([], conv, b);
    Get16AfterPut(p1, f.wnd, b);
    Get32AfterPut(p2, f.ts, b);
    Get32AfterPut(p3, Wrap(f.sn), b);
    Get32AfterPut(p4, Wrap(f.una), b);
    Get32AfterPut(p5, Wrap(|f.data|), b);
  }

  lemma PrefixOfSum(p: seq<u8>, q: seq<u8>, b: seq<u8>)
    requires p + q <= b
    ensures p <= b
  {
    assert p == (p + q)[..|p|];
  }

  /** The parser takes exactly one encoded frame off the front of a buffer. */
  lemma ParseEncode(conv: u32, f: Frame, rest: seq<u8>)
    requires Sendable(f)
    ensures Parse(conv, Encode(conv, f) + rest)
         == ([OnWire(f)] + Parse(conv, rest).0, Parse(conv, rest).1)
  {
    var b := Encode(conv, f) + rest;
    assert b == Head(conv, f) + (f.data + rest);
    HeadFields(conv, f, b);
    assert b[OVERHEAD..OVERHEAD + |f.data|] == f.data;
    assert b[OVERHEAD + |f.data|..] == rest;
    assert DecodeAt(b) == OnWire(f);
  }

  function OnWireAll(fs: seq<Frame>): (r: seq<Frame>)
    ensures |r| == |fs| && forall i | 0 <= i < |fs| :: r[i] == OnWire(fs[i])
  {
    seq(|fs|, i requires 0 <= i < |fs| => OnWire(fs[i]))
  }

  /** Parsing a datagram gives back the frames packed into it, in order, with
      their indices reduced to 32 bits. */
  lemma {:induction false} ParseEncodeAll(conv: u32, fs: seq<Frame>, rest: seq<u8>)
    requires forall f | f in fs :: Sendable(f)
    ensures Parse(conv, EncodeAll(conv, fs) + rest)
         == (OnWireAll(fs) + Parse(conv, rest).0, Parse(conv, rest).1)
  {
    if fs == [] {
      assert EncodeAll(conv, fs) + rest == rest;
      assert OnWireAll(fs) + Parse(conv, rest).0 == Parse(conv, rest).0;
    } else {
      var init, f := fs[..|fs| - 1], fs[|fs| - 1];
      var tail := Encode(conv, f) + rest;
      SumAssociative(EncodeAll(conv, init), Encode(conv, f), rest);
      ParseEncodeAll(conv, init, tail);
      ParseEncode(conv, f, rest);
      assert OnWireAll(fs) == OnWireAll(init) + [OnWire(f)];
      SumAssociative(OnWireAll(init), [OnWire(f)], Parse(conv, rest).0);
    }
  }

  lemma SumAssociative<T>(a: seq<T>, b: seq<T>, c: seq<T>)
    ensures (a + b) + c == a + (b + c)
  {
  }

  // ------------------------------------------------------------- byte layout

  /** The number whose digits to base 256 are `b`, the lowest first. */
  function LittleEndian(b: seq<u8>): nat {
    if b == [] then 0 else b[0] as int + 0x100 * LittleEndian(b[1..])
  }

  lemma ReadsLittleEndian(b: seq<u8>, at: nat)
    ensures at + 2 <= |b| ==> Get16(b, at) == LittleEndian(b[at..at + 2])
    ensures at + 4 <= |b| ==> Get32(b, at) == LittleEndian(b[at..at + 4])
  {
    if at + 2 <= |b| {
      TwoDigits(b[at..at + 2]);
    }
    if at + 4 <= |b| {
      var d := b[at..at + 4];
      assert d[2..][0] == b[at + 2] && d[2..][1] == b[at + 3];
      TwoDigits(d[2..]);
      assert d[1..][1..] == d[2..] && d[1..][0] == b[at + 1] && d[0] == b[at];
      assert LittleEndian(d[1..]) == d[1..][0] as int + 0x100 * LittleEndian(d[2..]);
    }
  }

  lemma TwoDigits(d: seq<u8>)
    requires |d| == 2
    ensures LittleEndian(d) == d[0] as int + 0x100 * d[1] as int
  {
    assert d[1..][1..] == [];
    assert LittleEndian(d[1..]) == d[1..][0] as int + 0x100 * LittleEndian([]);
  }

  /** Where each field lies in a datagram, in little-endian bytes. */
  lemma HeaderLayout(conv: u32, f: Frame)
    ensures var b := Encode(conv, f);
            && LittleEndian(b[0..4]) == conv
            && b[4] == f.cmd && b[5] == f.frg
            && LittleEndian(b[6..8]) == f.wnd
            && LittleEndian(b[8..12]) == f.ts
            && LittleEndian(b[12..16]) == Wrap(f.sn)
            && LittleEndian(b[16..20]) == Wrap(f.una)
            && LittleEndian(b[20..24]) == Wrap(|f.data|)
            && b[24..] == f.data
  {
    hide LittleEndian, Get16, Get32, Head;
    var b := Encode(conv, f);
    HeadFields(conv, f, b);
    ReadsLittleEndian(b, 0);
    ReadsLittleEndian(b, 6);
    ReadsLittleEndian(b, 8);
    ReadsLittleEndian(b, 12);
    ReadsLittleEndian(b, 16);
    ReadsLittleEndian(b, 20);
  }

  /** Behind any frames, a header stops the parser for the first of three faults: another
      conversation, a length that is not there or negative, an unknown command. */
  lemma StopsAtFault(conv: u32, fs: seq<Frame>, tail: seq<u8>)
    requires (forall f | f in fs :: Sendable(f)) && |tail| >= OVERHEAD
    ensures var p := Parse(conv, EncodeAll(conv, fs) + tail);
            var id, len := LittleEndian(tail[0..4]), LittleEndian(tail[20..24]);
            if id != conv then p == (OnWireAll(fs), -1)
            else if |tail| < 24 + len || len >= 0x8000_0000 then p == (OnWireAll(fs), -2)
            else if tail[4] !in {81, 82, 83, 84} then p == (OnWireAll(fs), -3)
            else |p.0| > |fs| && p.0[|fs|].data == tail[24..24 + len]
  {
    hide EncodeAll, LittleEndian, Get32;
    ParseEncodeAll(conv, fs, tail);
    ReadsLittleEndian(tail, 0);
    ReadsLittleEndian(tail, 20);
    var rest := Parse(conv, tail);
    assert OnWireAll(fs) + [] == OnWireAll(fs);
  }

  /** And bytes too few for a header are ignored. */
  lemma ShortTailIgnored(conv: u32, fs: seq<Frame>, tail: seq<u8>)
    requires (forall f | f in fs :: Sendable(f)) && |tail| < OVERHEAD
    ensures Parse(conv, EncodeAll(conv, fs) + tail) == (OnWireAll(fs), 0)
  {
    hide EncodeAll;
    ParseEncodeAll(conv, fs, tail);
    assert OnWireAll(fs) + [] == OnWireAll(fs);
  }
}
