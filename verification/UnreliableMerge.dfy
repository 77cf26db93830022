/**
 Unreliable messages share packets: the sender appends them, each behind its
 length, to a zeroed packet that is always sent whole, and the receiver splits the
 packet again.
 */
module UnreliableMerge {
  import opened U32
  import opened KcpCodec

  const MAX_PACKET_SIZE: nat := 548
  const MAX_UNRELIABLE_MSG_SIZE: nat := 545
  const LENGTH: nat := 2

  /** The packet head: type 5, data, in the low seven bits; not reliable. */
  const DATA_HEAD: u8 := 5

  ghost predicate Small(ms: seq<seq<u8>>) {
    forall m :: m in ms ==> |m| <= MAX_UNRELIABLE_MSG_SIZE
  }

  function Framed(ms: seq<seq<u8>>): seq<u8> {
    if ms == [] then [] else Put16(|ms[0]| % 0x1_0000) + ms[0] + Framed(ms[1..])
  }

  /** What a packet with these messages occupies. */
  function Filled(ms: seq<seq<u8>>): nat {
    1 + |Framed(ms)|
  }

  function Zeros(n: nat): seq<u8> {
    seq(n, _ => 0)
  }

  /** The packet as it is sent. */
  function Image(ms: seq<seq<u8>>): (b: seq<u8>)
    requires Filled(ms) <= MAX_PACKET_SIZE
    ensures |b| == MAX_PACKET_SIZE
  {
    [DATA_HEAD] + Framed(ms) + Zeros(MAX_PACKET_SIZE - Filled(ms))
  }

  /** `RecvUnreliable`: the messages found in the data of a packet. */
  function Split(b: seq<u8>): seq<seq<u8>>
    decreases |b|
  {
    if |b| < LENGTH then []
    else
      var n := Get16(b, 0);
      if |b| < LENGTH + n || n == 0 || n > MAX_UNRELIABLE_MSG_SIZE then []
      else [b[LENGTH..LENGTH + n]] + Split(b[LENGTH + n..])
  }

  /** The messages before the first one without bytes. */
  function UpToEmpty(ms: seq<seq<u8>>): seq<seq<u8>> {
    if ms == [] || ms[0] == [] then [] else [ms[0]] + UpToEmpty(ms[1..])
  }

  lemma {:induction false} FramedSnoc(ms: seq<seq<u8>>, m: seq<u8>)
    requires |m| <= MAX_UNRELIABLE_MSG_SIZE
    ensures Framed(ms + [m]) == Framed(ms) + (Put16(|m|) + m)
  {
    hide Put16;
    if ms == [] {
      assert ms + [m] == [m] && [m][1..] == [];
      assert Framed([m]) == Put16(|m|) + m + [];
    } else {
      FramedSnoc(ms[1..], m);
      assert (ms + [m])[1..] == ms[1..] + [m] && (ms + [m])[0] == ms[0];
      SumAssociative(Put16(|ms[0]| % 0x1_0000) + ms[0], Framed(ms[1..]), Put16(|m|) + m);
    }
  }

  lemma LengthRead(m: seq<u8>, rest: seq<u8>)
    requires |m| <= MAX_UNRELIABLE_MSG_SIZE
    ensures var b := Put16(|m|) + m + rest;
            && Get16(b, 0) == |m| && b[LENGTH..LENGTH + |m|] == m && b[LENGTH + |m|..] == rest
  {
    var b := Put16(|m|) + m + rest;
    assert [] + Put16(|m|) == Put16(|m|);
    Get16AfterPut([], |m|, b);
  }

  lemma PaddingIsNothing(k: nat)
    ensures Split(Zeros(k)) == []
  {
  }

  /** Splitting gives back the messages up to the first empty one; padding is never
      taken for a message. */
  lemma {:induction false} SplitFramed(ms: seq<seq<u8>>, k: nat)
    requires Small(ms)
    ensures Split(Framed(ms) + Zeros(k)) == UpToEmpty(ms)
  {
    hide Put16, Get16;
    if ms == [] {
      assert [] + Zeros(k) == Zeros(k);
      PaddingIsNothing(k);
    } else {
      var m, rest := ms[0], Framed(ms[1..]) + Zeros(k);
      assert m in ms;
      SumAssociative(Put16(|m|) + m, Framed(ms[1..]), Zeros(k));
      assert Framed(ms) + Zeros(k) == Put16(|m|) + m + rest;
      LengthRead(m, rest);
      SplitFramed(ms[1..], k);
    }
  }

  lemma SplitImage(ms: seq<seq<u8>>)
    requires Small(ms) && Filled(ms) <= MAX_PACKET_SIZE
    ensures Split(Image(ms)[1..]) == UpToEmpty(ms)
  {
    var k := MAX_PACKET_SIZE - Filled(ms);
    SumAssociative([DATA_HEAD], Framed(ms), Zeros(k));
    assert Image(ms)[1..] == Framed(ms) + Zeros(k);
    SplitFramed(ms, k);
  }

  /** Neither length nor bytes of a message stand at the front of `b`. */
  predicate NoMessage(b: seq<u8>) {
    |b| < 2 || Get16(b, 0) == 0 || Get16(b, 0) > 545 || |b| - 2 < Get16(b, 0)
  }

  /** Whatever bytes arrive, the messages found are those it begins with, each of 1 to
      545 bytes, and no other follows. */
  lemma {:induction false} SplitExactly(b: seq<u8>) returns (rest: seq<u8>)
    ensures b == Framed(Split(b)) + rest && NoMessage(rest)
    ensures forall m :: m in Split(b) ==> 1 <= |m| <= 545
  {
    hide Split, Framed, Put16, Get16;
    if NoMessage(b) {
      NoneTaken(b);
      rest := b;
    } else {
      var n := Get16(b, 0);
      var m, tail := b[LENGTH..LENGTH + n], b[LENGTH + n..];
      FirstTaken(b);
      rest := SplitExactly(tail);
      FramedCons(m, Split(tail));
      SumAssociative(Put16(n) + m, Framed(Split(tail)), rest);
    }
  }

  lemma NoneTaken(b: seq<u8>)
    requires NoMessage(b)
    ensures Split(b) == [] && b == Framed([]) + b
  {
    assert [] + b == b;
  }

  lemma FirstTaken(b: seq<u8>)
    requires !NoMessage(b)
    ensures var n := Get16(b, 0);
            && b == Put16(n) + b[LENGTH..LENGTH + n] + b[LENGTH + n..]
            && Split(b) == [b[LENGTH..LENGTH + n]] + Split(b[LENGTH + n..])
  {
    var n := Get16(b, 0);
    assert Put16(n)[0] == b[0] && Put16(n)[1] == b[1];
  }

  lemma FramedCons(m: seq<u8>, ms: seq<seq<u8>>)
    requires |m| <= MAX_UNRELIABLE_MSG_SIZE
    ensures Framed([m] + ms) == Put16(|m|) + m + Framed(ms)
  {
    hide Put16;
    assert ([m] + ms)[1..] == ms && ([m] + ms)[0] == m;
    assert |m| % 0x1_0000 == |m|;
  }

  // ------------------------------------------------------------- the sender

  /** Packets not yet written, by the messages in them, and whether the last of them
      still takes messages. */
  datatype Outbox = Outbox(packets: seq<seq<seq<u8>>>, open: bool)

  function Last(o: Outbox): seq<seq<u8>>
    requires o.packets != []
  {
    o.packets[|o.packets| - 1]
  }

  function Accepts(m: seq<u8>): bool {
    |m| <= MAX_UNRELIABLE_MSG_SIZE
  }

  /** Whether the current packet has room; a message that would fill it exactly is
      sent in a new one. */
  predicate Room(o: Outbox, m: seq<u8>) {
    o.open && o.packets != [] && Filled(Last(o)) + LENGTH + |m| < MAX_PACKET_SIZE
  }

  function Add(o: Outbox, m: seq<u8>): Outbox {
    if !Accepts(m) then o
    else if Room(o, m) then o.(packets := o.packets[|o.packets| - 1 := Last(o) + [m]])
    else Outbox(o.packets + [[m]], true)
  }

  function Written(o: Outbox): Outbox {
    if o.packets == [] then o else Outbox(o.packets[1..], o.open && |o.packets| > 1)
  }

  ghost predicate Fitting(packets: seq<seq<seq<u8>>>) {
    forall p :: p in packets ==> Small(p) && Filled(p) <= MAX_PACKET_SIZE
  }

  // ---------------------------------------------------------------- the link

  datatype Op = Send(m: seq<u8>) | Write

  /** The outbox, the packets already written, and the messages accepted. */
  datatype Link = Link(out: Outbox, gone: seq<seq<seq<u8>>>, accepted: seq<seq<u8>>)

  function Next(l: Link, op: Op): Link {
    match op
    case Send(m) => Link(Add(l.out, m), l.gone, if Accepts(m) then l.accepted + [m] else l.accepted)
    case Write => if l.out.packets == [] then l else Link(Written(l.out), l.gone + [l.out.packets[0]], l.accepted)
  }

  function Run(ops: seq<Op>): Link {
    if ops == [] then Link(Outbox([], false), [], []) else Next(Run(ops[..|ops| - 1]), ops[|ops| - 1])
  }

  function Flatten(packets: seq<seq<seq<u8>>>): seq<seq<u8>> {
    if packets == [] then [] else Flatten(packets[..|packets| - 1]) + packets[|packets| - 1]
  }

  /** What the receiver makes of the packets written, in the order written. */
  function Delivered(packets: seq<seq<seq<u8>>>): seq<seq<u8>>
    requires forall p :: p in packets ==> Filled(p) <= MAX_PACKET_SIZE
  {
    if packets == [] then []
    else Delivered(packets[..|packets| - 1]) + Split(Image(packets[|packets| - 1])[1..])
  }

  ghost predicate LinkInv(l: Link) {
    && Fitting(l.gone + l.out.packets)
    && Flatten(l.gone + l.out.packets) == l.accepted
    && (l.out.open ==> l.out.packets != [])
  }

  lemma OneMessageFits(m: seq<u8>)
    requires Accepts(m)
    ensures Small([m]) && Filled([m]) <= MAX_PACKET_SIZE
  {
    FramedSnoc([], m);
    assert [] + [m] == [m];
  }

  lemma AddedFits(p: seq<seq<u8>>, m: seq<u8>)
    requires Small(p) && Accepts(m) && Filled(p) + LENGTH + |m| <= MAX_PACKET_SIZE
    ensures Small(p + [m]) && Filled(p + [m]) == Filled(p) + LENGTH + |m|
  {
    FramedSnoc(p, m);
  }

  /** The packets hold the messages, in order. */
  ghost predicate Holding(ps: seq<seq<seq<u8>>>, ms: seq<seq<u8>>) {
    Fitting(ps) && Flatten(ps) == ms
  }

  lemma LastExtended(ps: seq<seq<seq<u8>>>, p: seq<seq<u8>>, ms: seq<seq<u8>>, m: seq<u8>)
    requires Holding(ps + [p], ms) && Accepts(m) && Filled(p) + LENGTH + |m| <= MAX_PACKET_SIZE
    ensures Holding(ps + [p + [m]], ms + [m])
  {
    hide Flatten, Filled, Small, Accepts;
    assert p in ps + [p];
    AddedFits(p, m);
    FlattenPush(ps, p);
    FlattenPush(ps, p + [m]);
    SumAssociative2(Flatten(ps), p, [m]);
    assert forall q :: q in ps ==> q in ps + [p];
    FittingPush(ps, p + [m]);
  }

  lemma PacketAdded(ps: seq<seq<seq<u8>>>, ms: seq<seq<u8>>, m: seq<u8>)
    requires Holding(ps, ms) && Accepts(m)
    ensures Holding(ps + [[m]], ms + [m])
  {
    hide Flatten, Filled, Small, Accepts;
    OneMessageFits(m);
    FlattenPush(ps, [m]);
    FittingPush(ps, [m]);
  }

  lemma SendInv(l: Link, m: seq<u8>)
    requires LinkInv(l)
    ensures LinkInv(Next(l, Send(m)))
  {
    hide Flatten, Filled, Small, Accepts, Fitting;
    if Accepts(m) {
      var ps, n := l.out.packets, |l.out.packets| - 1;
      if Room(l.out, m) {
        var p := Last(l.out);
        assert l.gone + ps == l.gone + ps[..n] + [p];
        LastExtended(l.gone + ps[..n], p, l.accepted, m);
        assert l.gone + ps[n := p + [m]] == l.gone + ps[..n] + [p + [m]];
      } else {
        PacketAdded(l.gone + ps, l.accepted, m);
        assert l.gone + (ps + [[m]]) == l.gone + ps + [[m]];
      }
    }
  }

  lemma SumAssociative2<T>(a: seq<T>, b: seq<T>, c: seq<T>)
    ensures a + b + c == a + (b + c)
  {
  }

  lemma FlattenPush(ps: seq<seq<seq<u8>>>, p: seq<seq<u8>>)
    ensures Flatten(ps + [p]) == Flatten(ps) + p
  {
    assert (ps + [p])[..|ps|] == ps;
  }

  lemma FittingPush(ps: seq<seq<seq<u8>>>, p: seq<seq<u8>>)
    requires Small(p) && Filled(p) <= MAX_PACKET_SIZE && forall q :: q in ps ==> Small(q) && Filled(q) <= MAX_PACKET_SIZE
    ensures Fitting(ps + [p])
  {
  }

  lemma WriteInv(l: Link)
    requires LinkInv(l)
    ensures LinkInv(Next(l, Write))
  {
    if l.out.packets != [] {
      var l' := Next(l, Write);
      assert l'.gone + l'.out.packets == l.gone + l.out.packets;
    }
  }

  lemma {:induction false} RunInv(ops: seq<Op>)
    ensures LinkInv(Run(ops))
  {
    if ops != [] {
      RunInv(ops[..|ops| - 1]);
      match ops[|ops| - 1]
      case Send(m) => SendInv(Run(ops[..|ops| - 1]), m);
      case Write => WriteInv(Run(ops[..|ops| - 1]));
    }
  }

  // -------------------------------------------------------------- the results

  ghost predicate NoEmpty(ms: seq<seq<u8>>) {
    forall m :: m in ms ==> m != []
  }

  lemma {:induction false} UpToEmptyIsAll(ms: seq<seq<u8>>)
    ensures |UpToEmpty(ms)| <= |ms|
    ensures |UpToEmpty(ms)| == |ms| <==> NoEmpty(ms)
    ensures NoEmpty(ms) ==> UpToEmpty(ms) == ms
  {
    if ms != [] {
      UpToEmptyIsAll(ms[1..]);
      NoEmptySum([ms[0]], ms[1..]);
      assert ms == [ms[0]] + ms[1..];
      assert NoEmpty([ms[0]]) <==> ms[0] != [] by { assert ms[0] in [ms[0]]; }
    }
  }

  lemma {:induction false} DeliveredIsAll(ps: seq<seq<seq<u8>>>)
    requires Fitting(ps)
    ensures |Delivered(ps)| <= |Flatten(ps)|
    ensures |Delivered(ps)| == |Flatten(ps)| <==> NoEmpty(Flatten(ps))
    ensures NoEmpty(Flatten(ps)) ==> Delivered(ps) == Flatten(ps)
  {
    if ps != [] {
      var before, p := ps[..|ps| - 1], ps[|ps| - 1];
      assert p in ps;
      DeliveredIsAll(before);
      SplitImage(p);
      UpToEmptyIsAll(p);
      NoEmptySum(Flatten(before), p);
    }
  }

  lemma NoEmptySum(a: seq<seq<u8>>, b: seq<seq<u8>>)
    ensures NoEmpty(a + b) <==> NoEmpty(a) && NoEmpty(b)
  {
    if NoEmpty(a + b) {
      forall m | m in a ensures m != [] {
        assert m in a + b;
      }
      forall m | m in b ensures m != [] {
        assert m in a + b;
      }
    }
  }

  /** However sends and writes interleave, every accepted message has its place in
      exactly one packet, in order, and every packet fits. */
  lemma NothingLostOrMoved(ops: seq<Op>)
    ensures var l := Run(ops);
            && Flatten(l.gone + l.out.packets) == l.accepted
            && forall p :: p in l.gone + l.out.packets ==> Filled(p) <= MAX_PACKET_SIZE
  {
    RunInv(ops);
  }

  /** When all packets have been written, the receiver has exactly the accepted
      messages if and only if none of them was without bytes. */
  lemma RoundTrip(ops: seq<Op>)
    requires Run(ops).out.packets == []
    ensures var l := Run(ops);
            && (forall p :: p in l.gone ==> Filled(p) <= MAX_PACKET_SIZE)
            && (Delivered(l.gone) == l.accepted <==> NoEmpty(l.accepted))
  {
    RunInv(ops);
    var l := Run(ops);
    assert l.gone + l.out.packets == l.gone;
    DeliveredIsAll(l.gone);
  }

  // ------------------------------------------------------- neither too many

  /** The messages sent that are not too long. */
  function ShortEnough(ops: seq<Op>): seq<seq<u8>> {
    if ops == [] then []
    else
      var op := ops[|ops| - 1];
      ShortEnough(ops[..|ops| - 1]) + if op.Send? && |op.m| <= 545 then [op.m] else []
  }

  /** A packet waiting has something in it, and only a single message can fill it up. */
  predicate WellFilled(p: seq<seq<u8>>) {
    p != [] && (|p| > 1 ==> Filled(p) < MAX_PACKET_SIZE)
  }

  /** While packets wait the last is open, and none was begun for a message for which the
      one before had a byte to spare. */
  ghost predicate Dense(o: Outbox) {
    && (o.open <==> o.packets != [])
    && (forall p :: p in o.packets ==> WellFilled(p))
    && (forall i :: 0 < i < |o.packets| ==>
          o.packets[i] != [] && Filled(o.packets[i - 1]) + LENGTH + |o.packets[i][0]| >= MAX_PACKET_SIZE)
  }

  lemma SendIsDense(o: Outbox, m: seq<u8>)
    requires Dense(o) && Fitting(o.packets)
    ensures Dense(Add(o, m))
  {
    hide Filled, Small;
    var ps, n := o.packets, |o.packets| - 1;
    if Accepts(m) && Room(o, m) {
      var p := ps[n];
      assert p in ps;
      AddedFits(p, m);
      forall q | q in Add(o, m).packets ensures WellFilled(q) {
        assert q in ps || q == p + [m];
      }
    } else if Accepts(m) {
      assert ps != [] ==> Last(o) in ps;
      forall q | q in Add(o, m).packets ensures WellFilled(q) {
        assert q in ps || q == [m];
      }
    }
  }

  lemma WriteIsDense(o: Outbox)
    requires Dense(o)
    ensures Dense(Written(o))
  {
    hide Filled;
    if o.packets != [] {
      forall p | p in o.packets[1..] ensures WellFilled(p) {
        assert p in o.packets;
      }
    }
  }

  /** A new packet is begun only when it has to be, and exactly the messages of up to 545
      bytes are accepted. */
  lemma {:induction false} NoPacketWasted(ops: seq<Op>)
    ensures Dense(Run(ops).out)
    ensures Run(ops).accepted == ShortEnough(ops)
  {
    hide Dense;
    if ops == [] {
      NothingIsDense();
    } else {
      var before := ops[..|ops| - 1];
      NoPacketWasted(before);
      var l := Run(before);
      RunInv(before);
      forall p | p in l.out.packets ensures p in l.gone + l.out.packets {
      }
      match ops[|ops| - 1]
      case Send(m) => SendIsDense(l.out, m);
      case Write => WriteIsDense(l.out);
    }
  }

  lemma NothingIsDense()
    ensures Dense(Outbox([], false))
  {
  }

  // -------------------------------------------------------------- the methods

  /** A packet and its buffer, zeroed when made. */
  class NetPacket {
    const buf: array<u8>
    var dataLen: nat

    constructor ()
      ensures fresh(buf) && buf.Length == MAX_PACKET_SIZE && dataLen == 0
      ensures buf[..] == Zeros(MAX_PACKET_SIZE)
    {
      buf := new u8[MAX_PACKET_SIZE](_ => 0);
      dataLen := 0;
    }

    ghost predicate Holds(ms: seq<seq<u8>>)
      reads this, buf
    {
      Small(ms) && dataLen == Filled(ms) <= MAX_PACKET_SIZE && buf[..] == Image(ms)
    }

    /** Writing the head, into a new packet. */
    method WriteHead()
      requires buf.Length == MAX_PACKET_SIZE && dataLen == 0 && buf[..] == Zeros(MAX_PACKET_SIZE)
      modifies this, buf
      ensures Holds([])
    {
      buf[0] := DATA_HEAD;
      dataLen := 1;
      assert buf[..] == Image([]);
    }

    /** `WriteUnreliable` behind the data. */
    method WriteUnreliable(data: seq<u8>, ghost ms: seq<seq<u8>>)
      requires Holds(ms) && Accepts(data) && dataLen + LENGTH + |data| <= MAX_PACKET_SIZE
      modifies this, buf
      ensures Holds(ms + [data])
    {
      AddedFits(ms, data);
      ghost var was := buf[..];
      buf[dataLen] := |data| % 0x100;
      buf[dataLen + 1] := |data| / 0x100;
      forall i | 0 <= i < |data| {
        buf[dataLen + LENGTH + i] := data[i];
      }
      FramedSnoc(ms, data);
      AppendedImage(was, buf[..], ms, data);
      dataLen := dataLen + LENGTH + |data|;
    }
  }

  lemma AppendedImage(b: seq<u8>, b': seq<u8>, ms: seq<seq<u8>>, data: seq<u8>)
    requires Filled(ms) + LENGTH + |data| <= MAX_PACKET_SIZE && Accepts(data)
    requires b == Image(ms) && |b'| == |b|
    requires Filled(ms + [data]) <= MAX_PACKET_SIZE && Framed(ms + [data]) == Framed(ms) + (Put16(|data|) + data)
    requires forall i :: 0 <= i < |b| ==>
               b'[i] == if i < Filled(ms) then b[i]
                        else if i < Filled(ms) + LENGTH then Put16(|data|)[i - Filled(ms)]
                        else if i < Filled(ms) + LENGTH + |data| then data[i - Filled(ms) - LENGTH]
                        else b[i]
    ensures b' == Image(ms + [data])
  {
    hide Framed;
    assert |Framed(ms)| == Filled(ms) - 1;
  }

  /** The unreliable packets of a connection and the one that still takes messages. */
  class Merger {
    var queue: seq<NetPacket>
    var merge: NetPacket?
    ghost var contents: seq<seq<seq<u8>>>

    ghost predicate Valid()
      reads this, queue, set i | 0 <= i < |queue| :: queue[i].buf
    {
      && |contents| == |queue|
      && (forall i :: 0 <= i < |queue| ==> queue[i].Holds(contents[i]))
      && (forall i, j :: 0 <= i < j < |queue| ==> queue[i] != queue[j] && queue[i].buf != queue[j].buf)
      && (merge != null ==> |queue| > 0 && merge == queue[|queue| - 1])
    }

    ghost function View(): Outbox
      reads this
    {
      Outbox(contents, merge != null)
    }

    constructor ()
      ensures Valid() && View() == Outbox([], false)
    {
      queue, merge, contents := [], null, [];
    }

    /** The second half of `GetCurMergePacket`: a new packet, which becomes the
        current one. */
    method NewMergePacket()
      requires Valid()
      modifies this
      ensures Valid() && merge != null && fresh(merge) && fresh(merge.buf)
      ensures contents == old(contents) + [[]] && queue == old(queue) + [merge]
    {
      hide Image, Framed, Filled, Small;
      var packet := new NetPacket();
      packet.WriteHead();
      merge := packet;
      queue := queue + [packet];
      contents := contents + [[]];
    }

    /** The current packet if the message fits it with a byte to spare, or else a new
        one behind it. */
    method GetCurMergePacket(data: seq<u8>)
      requires Valid() && Accepts(data)
      modifies this
      ensures Valid() && merge != null
      ensures merge.dataLen + LENGTH + |data| <= MAX_PACKET_SIZE
      ensures if Room(old(View()), data) then unchanged(this)
              else contents == old(contents) + [[]] && queue == old(queue) + [merge] && fresh(merge) && fresh(merge.buf)
    {
      hide Image, Framed;
      if merge != null {
        assert merge.Holds(contents[|queue| - 1]);
        if MAX_PACKET_SIZE - merge.dataLen > |data| + LENGTH {
          return;
        }
      }
      NewMergePacket();
      assert merge.Holds([]);
      EmptyFrame();
    }

    method SendUnreliable(data: seq<u8>) returns (ret: int)
      requires Valid()
      modifies this, queue, set i | 0 <= i < |queue| :: queue[i].buf
      ensures Valid() && View() == Add(old(View()), data)
      ensures ret == if Accepts(data) then 0 else -1
    {
      hide Image, Framed, Filled, NetPacket.Holds;
      if MAX_UNRELIABLE_MSG_SIZE < |data| {
        return -1;
      }
      ghost var was := View();
      GetCurMergePacket(data);
      ghost var now := contents;
      Append(data);
      AddIs(was, now, contents, data);
      ret := 0;
    }

    /** Writes a message into the current packet. */
    method Append(data: seq<u8>)
      requires Valid() && Accepts(data) && merge != null && merge.dataLen + LENGTH + |data| <= MAX_PACKET_SIZE
      modifies `contents, merge, merge.buf
      ensures Valid() && contents == old(contents)[|queue| - 1 := old(contents)[|queue| - 1] + [data]]
    {
      hide Image, Framed, Filled, Small;
      ghost var n := |queue| - 1;
      merge.WriteUnreliable(data, contents[n]);
      contents := contents[n := contents[n] + [data]];
    }

    /** Writing the first packet to the network: it is sent whole, and if it was the
        current one the next message starts a new one. */
    method IoWrite() returns (sent: seq<u8>)
      requires Valid() && queue != []
      modifies this
      ensures Valid() && View() == Written(old(View()))
      ensures Filled(old(contents)[0]) <= MAX_PACKET_SIZE && sent == Image(old(contents)[0])
    {
      hide Image, Framed;
      assert queue[0].Holds(contents[0]);
      sent := queue[0].buf[..];
      if queue[0] == merge {
        merge := null;
      }
      queue := queue[1..];
      contents := contents[1..];
    }
  }

  /** Choosing the packet and writing to it is what `Add` says. */
  lemma AddIs(o: Outbox, chosen: seq<seq<seq<u8>>>, added: seq<seq<seq<u8>>>, m: seq<u8>)
    requires Accepts(m) && chosen == (if Room(o, m) then o.packets else o.packets + [[]])
    requires chosen != [] && added == chosen[|chosen| - 1 := chosen[|chosen| - 1] + [m]]
    ensures Outbox(added, true) == Add(o, m)
  {
    assert [] + [m] == [m];
  }

  lemma EmptyFrame()
    ensures Framed([]) == []
  {
  }

  /** `RecvUnreliable`, with `PeekUnreliable` at each step. */
  method RecvUnreliable(data: seq<u8>) returns (ms: seq<seq<u8>>)
    ensures ms == Split(data)
  {
    hide Get16;
    ms := [];
    var at := 0;
    assert data[0..] == data;
    while at < |data|
      invariant at <= |data| && Split(data) == ms + Split(data[at..])
    {
      if |data| - at < LENGTH {
        break;
      }
      var n := Get16(data, at);
      GetFrom(data, at);
      if |data| - at < LENGTH + n {
        break;
      }
      if n == 0 || MAX_UNRELIABLE_MSG_SIZE < n {
        break;
      }
      SplitStep(data, at, n);
      SumAssociative2(ms, [data[at + LENGTH..at + LENGTH + n]], Split(data[at + LENGTH + n..]));
      ms := ms + [data[at + LENGTH..at + LENGTH + n]];
      at := at + LENGTH + n;
    }
  }

  lemma GetFrom(data: seq<u8>, at: nat)
    requires at + LENGTH <= |data|
    ensures Get16(data[at..], 0) == Get16(data, at)
  {
  }

  lemma SplitStep(data: seq<u8>, at: nat, n: nat)
    requires at + LENGTH + n <= |data| && n == Get16(data, at) && 0 < n <= MAX_UNRELIABLE_MSG_SIZE
    ensures Split(data[at..]) == [data[at + LENGTH..at + LENGTH + n]] + Split(data[at + LENGTH + n..])
  {
    var b := data[at..];
    GetFrom(data, at);
    hide Get16;
    assert b[LENGTH..LENGTH + n] == data[at + LENGTH..at + LENGTH + n];
    assert b[LENGTH + n..] == data[at + LENGTH + n..];
  }
}
