/**
 `RingQueue` shared by one producer thread and one consumer thread.

 A state machine over the loads, byte copies and stores of `Push` and `Pop`, in
 any interleaving. Counters are unbounded here; every test and address is
 computed from their low 32 bits, as the program does.
 */
module RingSpsc {
  import opened U32
  import opened KcpCodec
  import opened Bits
  import opened Ring
  import RQ = RingQueue

  /** Where the producer is in `Push(m)`; `k` counts bytes copied by the current
      `WriteData`. */
  datatype Producer =
    | PIdle
    | PLength(m: seq<u8>, k: nat)
    | PBytes(m: seq<u8>, k: nat)
    | PCopied(m: seq<u8>)

  /** Where the consumer is in `Pop`; `bytes` is what the current `ReadData` has
      copied. */
  datatype Consumer =
    | CIdle
    | CLength(bytes: seq<u8>)
    | CBytes(n: u32, bytes: seq<u8>)
    | CCopied(m: seq<u8>)

  datatype Queue = Queue(
    bits: nat, buf: seq<u8>,
    head: nat, tail: nat, writeHead: nat, readTail: nat,
    producer: Producer, consumer: Consumer,
    pushed: seq<seq<u8>>,     // messages whose Push has published head
    popped: seq<seq<u8>>)     // messages whose Pop has published tail

  datatype Act = Begin(m: seq<u8>) | Produce | Consume

  function Initial(bits: nat, buf: seq<u8>): Queue {
    Queue(bits, buf, 0, 0, 0, 0, PIdle, CIdle, [], [])
  }

  function Size(q: Queue): nat {
    Pow2(q.bits)
  }

  /** The array index of the `k`-th byte of a copy that starts at `counter`. */
  function Address(counter: u32, size: nat, k: nat): int
    requires size > 0
  {
    var cur := And(counter, size - 1);
    if k < size - cur then cur + k else k - (size - cur)
  }

  /** The room a producer sees. */
  function Room(q: Queue): u32 {
    Wrap(Size(q) - Wrap(q.head) + Wrap(q.tail))
  }

  /** The array after the `k`-th byte of a copy from `counter` was stored. */
  function Store(buf: seq<u8>, counter: u32, k: nat, b: u8): (r: seq<u8>)
    ensures |r| == |buf|
  {
    if |buf| == 0 then buf
    else
      var a := Address(counter, |buf|, k);
      if 0 <= a < |buf| then buf[a := b] else buf
  }

  function Load(buf: seq<u8>, counter: u32, k: nat): u8 {
    if |buf| == 0 then 0
    else
      var a := Address(counter, |buf|, k);
      if 0 <= a < |buf| then buf[a] else 0
  }

  /** The producer's next load, copy or store. */
  function ProducerStep(q: Queue): Queue {
    match q.producer
    case PIdle => q
    case PLength(m, k) =>
      if k < RQ.HEAD
      then q.(buf := Store(q.buf, Wrap(q.writeHead), k, Put32(Wrap(|m|))[k]), producer := PLength(m, k + 1))
      else q.(writeHead := q.writeHead + RQ.HEAD, producer := PBytes(m, 0))
    case PBytes(m, k) =>
      if k < |m|
      then q.(buf := Store(q.buf, Wrap(q.writeHead), k, m[k]), producer := PBytes(m, k + 1))
      else q.(writeHead := q.writeHead + |m|, producer := PCopied(m))
    case PCopied(m) =>
      q.(head := q.writeHead, producer := PIdle, pushed := q.pushed + [m])
  }

  /** The consumer's next load, copy or store. */
  function ConsumerStep(q: Queue): Queue {
    match q.consumer
    case CIdle => if Wrap(q.head) == Wrap(q.tail) then q else q.(consumer := CLength([]))
    case CLength(bytes) =>
      if |bytes| < RQ.HEAD
      then q.(consumer := CLength(bytes + [Load(q.buf, Wrap(q.readTail), |bytes|)]))
      else q.(readTail := q.readTail + RQ.HEAD, consumer := CBytes(Get32(bytes, 0), []))
    case CBytes(n, bytes) =>
      if |bytes| < n
      then q.(consumer := CBytes(n, bytes + [Load(q.buf, Wrap(q.readTail), |bytes|)]))
      else q.(readTail := q.readTail + n, consumer := CCopied(bytes))
    case CCopied(m) =>
      q.(tail := q.readTail, consumer := CIdle, popped := q.popped + [m])
  }

  /** `Begin` is the space test of `Push`; a message that does not fit is refused. */
  function Next(q: Queue, act: Act): Queue {
    match act
    case Begin(m) =>
      if q.producer.PIdle? && |m| < MODULUS && |m| + RQ.HEAD <= Room(q) then q.(producer := PLength(m, 0)) else q
    case Produce => ProducerStep(q)
    case Consume => ConsumerStep(q)
  }

  function Run(q: Queue, acts: seq<Act>): Queue {
    if acts == [] then q else Next(Run(q, acts[..|acts| - 1]), acts[|acts| - 1])
  }

  // ---------------------------------------------------------- the invariant

  /** The message being pushed, as it will lie in the ring. */
  ghost function Incoming(p: Producer): seq<u8> {
    if p.PIdle? || |p.m| >= MODULUS then [] else RQ.Packed(p.m)
  }

  /** How much of it has been copied. */
  ghost function Copied(p: Producer): nat {
    match p
    case PIdle => 0
    case PLength(_, k) => k
    case PBytes(_, k) => RQ.HEAD + k
    case PCopied(m) => RQ.HEAD + |m|
  }

  /** Ring bytes from `from` on are `s`. */
  ghost predicate Bears(buf: seq<u8>, from: nat, s: seq<u8>) {
    |buf| > 0 && forall i :: 0 <= i < |s| ==> At(buf, from + i) == s[i]
  }

  ghost predicate ProducerAt(p: Producer, head: nat, writeHead: nat, limit: nat) {
    && (!p.PIdle? ==> |p.m| < MODULUS)
    && Copied(p) <= |Incoming(p)| <= limit - head
    && match p
       case PIdle => writeHead == head
       case PLength(_, k) => writeHead == head && k <= RQ.HEAD
       case PBytes(_, k) => writeHead == head + RQ.HEAD
       case PCopied(m) => writeHead == head + RQ.HEAD + |m|
  }

  /** `waiting` are the published messages not yet released. */
  ghost predicate ConsumerAt(c: Consumer, tail: nat, readTail: nat, waiting: seq<seq<u8>>) {
    && (!c.CIdle? ==> waiting != [] && |waiting[0]| < MODULUS)
    && match c
       case CIdle => readTail == tail
       case CLength(bytes) => readTail == tail && bytes <= Put32(|waiting[0]|)
       case CBytes(n, bytes) => readTail == tail + RQ.HEAD && n == |waiting[0]| && bytes <= waiting[0]
       case CCopied(m) => readTail == tail + RQ.HEAD + |m| && m == waiting[0]
  }

  ghost predicate Placed(buf: seq<u8>, tail: nat, head: nat, waiting: seq<seq<u8>>) {
    && RQ.Small(waiting) && head == tail + |RQ.Stored(waiting)|
    && Bears(buf, tail, RQ.Stored(waiting))
  }

  ghost function Waiting(q: Queue): seq<seq<u8>> {
    if |q.popped| <= |q.pushed| then q.pushed[|q.popped|..] else []
  }

  /** Delivered messages are a prefix of the published ones; the others lie
      untouched between the counters, and what has been copied of the next one
      lies behind them. */
  ghost predicate QueueInv(q: Queue) {
    && q.bits <= MAX_BITS && |q.buf| == Size(q) && q.popped <= q.pushed
    && Placed(q.buf, q.tail, q.head, Waiting(q))
    && ProducerAt(q.producer, q.head, q.writeHead, q.tail + |q.buf|)
    && Bears(q.buf, q.head, Incoming(q.producer)[..Copied(q.producer)])
    && ConsumerAt(q.consumer, q.tail, q.readTail, Waiting(q))
  }

  lemma InitialInv(bits: nat, buf: seq<u8>)
    requires bits <= MAX_BITS && |buf| == Pow2(bits)
    ensures QueueInv(Initial(bits, buf))
  {
  }

  // ------------------------------------------------------------- addresses

  /** The two-piece copy addresses the ring position it means to. */
  lemma AddressIs(counter: nat, bits: nat, k: nat)
    requires bits <= MAX_BITS && k < Pow2(bits)
    ensures Address(Wrap(counter), Pow2(bits), k) == Offset(counter + k, Pow2(bits))
  {
    MaskedCounter(counter, bits);
    OffsetPlus(counter, k, Pow2(bits));
  }

  /** Positions less than one turn apart never share a byte. */
  lemma Apart(p: nat, p': nat, size: nat)
    requires p < p' < p + size
    ensures Offset(p, size) != Offset(p', size)
  {
    OffsetPlus(p, p' - p, size);
  }

  lemma BearsStore(buf: seq<u8>, from: nat, s: seq<u8>, at: nat, b: u8)
    requires Bears(buf, from, s) && from + |s| <= at < from + |buf|
    ensures Bears(buf[Offset(at, |buf|) := b], from, s)
    ensures at == from + |s| ==> Bears(buf[Offset(at, |buf|) := b], from, s + [b])
  {
    var buf' := buf[Offset(at, |buf|) := b];
    forall i | 0 <= i < |s| ensures At(buf', from + i) == s[i] {
      Apart(from + i, at, |buf|);
    }
  }

  lemma BearsSum(buf: seq<u8>, from: nat, s: seq<u8>, t: seq<u8>)
    requires Bears(buf, from, s) && Bears(buf, from + |s|, t)
    ensures Bears(buf, from, s + t)
  {
    forall i | 0 <= i < |s + t| ensures At(buf, from + i) == (s + t)[i] {
      if i >= |s| {
        assert from + i == from + |s| + (i - |s|);
      }
    }
  }

  lemma BearsRest(buf: seq<u8>, from: nat, s: seq<u8>, t: seq<u8>)
    requires Bears(buf, from, s + t)
    ensures Bears(buf, from, s) && Bears(buf, from + |s|, t)
  {
    forall i | 0 <= i < |s| ensures At(buf, from + i) == s[i] {
      assert (s + t)[i] == s[i];
    }
    forall i | 0 <= i < |t| ensures At(buf, from + |s| + i) == t[i] {
      assert from + |s| + i == from + (|s| + i) && (s + t)[|s| + i] == t[i];
    }
  }

  /** The next byte of `all` goes behind the `done` ones already copied and leaves
      the published bytes `s` alone. */
  lemma StoreNext(buf: seq<u8>, bits: nat, tail: nat, s: seq<u8>, all: seq<u8>, done: nat, counter: nat, k: nat)
    requires bits <= MAX_BITS && |buf| == Pow2(bits)
    requires done < |all| && |s| + |all| <= |buf|
    requires Bears(buf, tail, s) && Bears(buf, tail + |s|, all[..done])
    requires counter + k == tail + |s| + done && k <= done
    ensures Bears(Store(buf, Wrap(counter), k, all[done]), tail, s)
    ensures Bears(Store(buf, Wrap(counter), k, all[done]), tail + |s|, all[..done + 1])
  {
    hide Bears, And, Wrap, Address, Offset, Pow2;
    AddressIs(counter, bits, k);
    BearsStore(buf, tail, s, counter + k, all[done]);
    BearsStore(buf, tail + |s|, all[..done], counter + k, all[done]);
    assert all[..done + 1] == all[..done] + [all[done]];
  }

  /** The next byte loaded extends a prefix of the bytes that lie there. */
  lemma LoadNext(buf: seq<u8>, bits: nat, s: seq<u8>, got: seq<u8>, counter: nat)
    requires bits <= MAX_BITS && |buf| == Pow2(bits) && |s| <= |buf|
    requires Bears(buf, counter, s) && got <= s && |got| < |s|
    ensures got + [Load(buf, Wrap(counter), |got|)] <= s
  {
    hide And, Wrap, Address;
    AddressIs(counter, bits, |got|);
    assert At(buf, counter + |got|) == s[|got|];
  }

  /** What lies at the tail is the first message behind its length, then the rest. */
  lemma FirstWaiting(buf: seq<u8>, tail: nat, head: nat, waiting: seq<seq<u8>>)
    requires Placed(buf, tail, head, waiting) && waiting != []
    ensures |waiting[0]| < MODULUS && tail + RQ.HEAD + |waiting[0]| <= head
    ensures Bears(buf, tail, Put32(|waiting[0]|)) && Bears(buf, tail + RQ.HEAD, waiting[0])
    ensures Placed(buf, tail + RQ.HEAD + |waiting[0]|, head, waiting[1..])
  {
    hide Bears;
    var m, rest := waiting[0], RQ.Stored(waiting[1..]);
    assert m in waiting;
    BearsRest(buf, tail, RQ.Packed(m), rest);
    BearsRest(buf, tail, Put32(|m|), m);
  }

  // ------------------------------------------------------------- the steps

  lemma BeginInv(q: Queue, m: seq<u8>)
    requires QueueInv(q)
    ensures QueueInv(Next(q, Begin(m)))
  {
    hide Placed, ConsumerAt, Pow2;
    CountersInOrder(q);
    Pow2Monotone(q.bits, MAX_BITS);
    RQ.HalfBits(0);
    RQ.SpaceIs(Size(q), q.head, q.tail);
  }

  lemma LengthByteInv(q: Queue)
    requires QueueInv(q) && q.producer.PLength? && q.producer.k < RQ.HEAD
    ensures QueueInv(ProducerStep(q))
  {
    hide Bears, Store, ConsumerAt, RQ.Stored, Pow2, Put32, Wrap;
    var m, k := q.producer.m, q.producer.k;
    WrapSmall(|m|);
    assert RQ.Packed(m)[k] == Put32(|m|)[k];
    StoreNext(q.buf, q.bits, q.tail, RQ.Stored(Waiting(q)), RQ.Packed(m), k, q.writeHead, k);
  }

  lemma MessageByteInv(q: Queue)
    requires QueueInv(q) && q.producer.PBytes? && q.producer.k < |q.producer.m|
    ensures QueueInv(ProducerStep(q))
  {
    hide Bears, Store, ConsumerAt, RQ.Stored, Pow2, Put32, Wrap;
    var m, k := q.producer.m, q.producer.k;
    assert RQ.Packed(m)[RQ.HEAD + k] == m[k];
    StoreNext(q.buf, q.bits, q.tail, RQ.Stored(Waiting(q)), RQ.Packed(m), RQ.HEAD + k, q.writeHead, k);
  }

  lemma AdvanceInv(q: Queue)
    requires QueueInv(q)
    requires match q.producer case PLength(_, k) => k >= RQ.HEAD case PBytes(m, k) => k >= |m| case _ => false
    ensures QueueInv(ProducerStep(q))
  {
    hide Bears, Placed, ConsumerAt, Pow2, Put32;
  }

  lemma PublishInv(q: Queue)
    requires QueueInv(q) && q.producer.PCopied?
    ensures QueueInv(ProducerStep(q))
  {
    hide Bears, Pow2, Placed, RQ.Packed, ConsumerAt;
    var m, waiting := q.producer.m, Waiting(q);
    OneMoreWaiting(q.consumer, q.tail, q.readTail, waiting, m);
    assert Waiting(ProducerStep(q)) == waiting + [m];
    PackedLength(m);
    assert RQ.Packed(m)[..RQ.HEAD + |m|] == RQ.Packed(m);
    OneMorePlaced(q.buf, q.tail, q.head, waiting, m);
    Nothing(q.buf, q.writeHead);
  }

  lemma PackedLength(m: seq<u8>)
    requires |m| < MODULUS
    ensures |RQ.Packed(m)| == RQ.HEAD + |m|
  {
  }

  /** Nor the messages before it, which with it are what now lies there. */
  lemma OneMorePlaced(buf: seq<u8>, tail: nat, head: nat, waiting: seq<seq<u8>>, m: seq<u8>)
    requires Placed(buf, tail, head, waiting) && |m| < MODULUS && Bears(buf, head, RQ.Packed(m))
    ensures Placed(buf, tail, head + RQ.HEAD + |m|, waiting + [m])
  {
    hide Bears, RQ.Stored, Put32;
    RQ.StoredSnoc(waiting, m);
    BearsSum(buf, tail, RQ.Stored(waiting), RQ.Packed(m));
  }

  /** A message published behind the others does not disturb the consumer. */
  lemma OneMoreWaiting(c: Consumer, tail: nat, readTail: nat, waiting: seq<seq<u8>>, m: seq<u8>)
    requires ConsumerAt(c, tail, readTail, waiting)
    ensures ConsumerAt(c, tail, readTail, waiting + [m])
  {
    hide Put32;
    assert waiting != [] ==> (waiting + [m])[0] == waiting[0];
  }

  lemma Nothing(buf: seq<u8>, from: nat)
    requires |buf| > 0
    ensures Bears(buf, from, [][..0])
  {
  }

  /** A pop begins only when a message waits: the wrapped counters differ exactly
      when the true ones do. */
  lemma StartInv(q: Queue)
    requires QueueInv(q) && q.consumer.CIdle?
    ensures QueueInv(ConsumerStep(q))
  {
    hide Bears, ProducerAt, Incoming, Copied;
    CountersInOrder(q);
    Pow2Monotone(q.bits, MAX_BITS);
    RQ.HalfBits(0);
    WrapInjective(q.head, q.tail);
    if Waiting(q) != [] {
      assert Waiting(q)[0] in Waiting(q);
    }
  }

  lemma LengthLoadInv(q: Queue)
    requires QueueInv(q) && q.consumer.CLength? && |q.consumer.bytes| < RQ.HEAD
    ensures QueueInv(ConsumerStep(q))
  {
    hide Bears, Load, ProducerAt, Incoming, Copied, Placed, Pow2, Put32;
    CountersInOrder(q);
    FirstWaiting(q.buf, q.tail, q.head, Waiting(q));
    LoadNext(q.buf, q.bits, Put32(|Waiting(q)[0]|), q.consumer.bytes, q.readTail);
  }

  lemma MessageLoadInv(q: Queue)
    requires QueueInv(q) && q.consumer.CBytes? && |q.consumer.bytes| < q.consumer.n
    ensures QueueInv(ConsumerStep(q))
  {
    hide Bears, Load, ProducerAt, Incoming, Copied, Placed, Pow2, Put32;
    CountersInOrder(q);
    FirstWaiting(q.buf, q.tail, q.head, Waiting(q));
    LoadNext(q.buf, q.bits, Waiting(q)[0], q.consumer.bytes, q.readTail);
  }

  lemma TurnInv(q: Queue)
    requires QueueInv(q)
    requires match q.consumer case CLength(b) => |b| >= RQ.HEAD case CBytes(n, b) => |b| >= n case _ => false
    ensures QueueInv(ConsumerStep(q))
  {
    hide Bears, ProducerAt, Incoming, Copied, Placed, Pow2, Put32, Get32;
    LengthRead(Waiting(q)[0]);
    if q.consumer.CLength? {
      assert q.consumer.bytes == Put32(|Waiting(q)[0]|);
    }
  }

  lemma LengthRead(m: seq<u8>)
    requires |m| < MODULUS
    ensures Get32(Put32(|m|), 0) == |m|
  {
    assert [] + Put32(|m|) == Put32(|m|);
    Get32AfterPut([], |m|, Put32(|m|));
  }

  lemma ReleaseInv(q: Queue)
    requires QueueInv(q) && q.consumer.CCopied?
    ensures QueueInv(ConsumerStep(q))
  {
    hide Bears, Incoming, Copied, Placed, Pow2;
    FirstWaiting(q.buf, q.tail, q.head, Waiting(q));
    assert Waiting(ConsumerStep(q)) == Waiting(q)[1..];
  }

  lemma WrapSmall(n: nat)
    requires n < MODULUS
    ensures Wrap(n) == n
  {
  }

  lemma NextInv(q: Queue, act: Act)
    requires QueueInv(q)
    ensures QueueInv(Next(q, act)) && Next(q, act).bits == q.bits
  {
    hide QueueInv;
    match act
    case Begin(m) => BeginInv(q, m);
    case Produce =>
      match q.producer {
        case PIdle =>
        case PLength(m, k) => if k < RQ.HEAD { LengthByteInv(q); } else { AdvanceInv(q); }
        case PBytes(m, k) => if k < |m| { MessageByteInv(q); } else { AdvanceInv(q); }
        case PCopied(m) => PublishInv(q);
      }
    case Consume =>
      match q.consumer {
        case CIdle => StartInv(q);
        case CLength(bytes) => if |bytes| < RQ.HEAD { LengthLoadInv(q); } else { TurnInv(q); }
        case CBytes(n, bytes) => if |bytes| < n { MessageLoadInv(q); } else { TurnInv(q); }
        case CCopied(m) => ReleaseInv(q);
      }
  }

  lemma {:induction false} RunInv(q: Queue, acts: seq<Act>)
    requires QueueInv(q)
    ensures QueueInv(Run(q, acts)) && Run(q, acts).bits == q.bits
  {
    hide QueueInv, Next;
    if acts != [] {
      RunInv(q, acts[..|acts| - 1]);
      NextInv(Run(q, acts[..|acts| - 1]), acts[|acts| - 1]);
    }
  }

  // ----------------------------------------------------------- the results

  lemma CountersInOrder(q: Queue)
    requires QueueInv(q)
    ensures q.tail <= q.readTail <= q.head <= q.writeHead <= q.tail + Size(q)
  {
    hide Bears, Pow2, Put32;
    if Waiting(q) != [] {
      FirstWaiting(q.buf, q.tail, q.head, Waiting(q));
    }
  }

  /** The array index the producer's next step stores to, or -1. */
  function NextStore(q: Queue): int {
    match q.producer
    case PLength(_, k) => if k < RQ.HEAD then Address(Wrap(q.writeHead), Size(q), k) else -1
    case PBytes(m, k) => if k < |m| then Address(Wrap(q.writeHead), Size(q), k) else -1
    case _ => -1
  }

  /** The array index the consumer's next step loads from, or -1. */
  function NextLoad(q: Queue): int {
    match q.consumer
    case CLength(bytes) => if |bytes| < RQ.HEAD then Address(Wrap(q.readTail), Size(q), |bytes|) else -1
    case CBytes(n, bytes) => if |bytes| < n then Address(Wrap(q.readTail), Size(q), |bytes|) else -1
    case _ => -1
  }

  /** Stores and loads stay inside the array and never meet. */
  lemma NoSharedByte(q: Queue)
    requires QueueInv(q)
    ensures NextStore(q) < |q.buf| && NextLoad(q) < |q.buf|
    ensures NextStore(q) >= 0 ==> NextStore(q) != NextLoad(q)
  {
    hide Bears, Pow2, Put32, And, Wrap, Address, Placed, Incoming;
    CountersInOrder(q);
    if NextStore(q) != -1 {
      assert |Incoming(q.producer)| == RQ.HEAD + |q.producer.m| by { IncomingLength(q.producer); }
      AddressIs(q.writeHead, q.bits, q.producer.k);
    }
    if NextLoad(q) != -1 {
      FirstWaiting(q.buf, q.tail, q.head, Waiting(q));
      AddressIs(q.readTail, q.bits, |q.consumer.bytes|);
      if NextStore(q) != -1 {
        Apart(q.readTail + |q.consumer.bytes|, q.writeHead + q.producer.k, Size(q));
      }
    }
  }

  lemma IncomingLength(p: Producer)
    requires !p.PIdle? && |p.m| < MODULUS
    ensures |Incoming(p)| == RQ.HEAD + |p.m|
  {
  }

  /** After any interleaving of one producer with one consumer, from any initial
      contents of the array: what was popped is a prefix of what was pushed, the
      counters are in order, and the two threads are never about to touch the
      same byte or one outside the array. */
  lemma EveryInterleavingIsFifo(bits: nat, buf: seq<u8>, acts: seq<Act>)
    requires bits <= MAX_BITS && |buf| == Pow2(bits)
    ensures var q := Run(Initial(bits, buf), acts);
            && q.popped <= q.pushed
            && q.tail <= q.readTail <= q.head <= q.writeHead <= q.tail + Pow2(bits)
            && NextStore(q) < |q.buf| && NextLoad(q) < |q.buf|
            && (NextStore(q) >= 0 ==> NextStore(q) != NextLoad(q))
  {
    InitialInv(bits, buf);
    RunInv(Initial(bits, buf), acts);
    CountersInOrder(Run(Initial(bits, buf), acts));
    NoSharedByte(Run(Initial(bits, buf), acts));
  }

  /** A push is accepted exactly when the message and its length fit beside what
      the consumer has not released, although the test is on wrapped counters. */
  lemma PushAcceptsExactly(q: Queue, m: seq<u8>)
    requires QueueInv(q) && |m| < MODULUS && q.producer.PIdle?
    ensures Next(q, Begin(m)).producer.PLength? <==> RQ.HEAD + |m| <= Size(q) - (q.head - q.tail)
  {
    hide Placed, ConsumerAt, Pow2, Bears;
    CountersInOrder(q);
    Pow2Monotone(q.bits, MAX_BITS);
    RQ.HalfBits(0);
    RQ.SpaceIs(Size(q), q.head, q.tail);
  }

  /** An idle consumer finds the queue empty exactly when every published message
      has been popped. */
  lemma PopStartsExactly(q: Queue)
    requires QueueInv(q) && q.consumer.CIdle?
    ensures ConsumerStep(q).consumer.CIdle? <==> q.popped == q.pushed
  {
    hide Bears, ProducerAt, Incoming, Copied, Put32;
    CountersInOrder(q);
    Pow2Monotone(q.bits, MAX_BITS);
    RQ.HalfBits(0);
    WrapInjective(q.head, q.tail);
    RQ.EmptyStored(Waiting(q));
    assert q.pushed == q.popped + Waiting(q);
  }

  // --------------------------------------------------------------- progress

  /** The steps the producer has left in its `Push`. */
  function PushLeft(p: Producer): int {
    match p
    case PIdle => 0
    case PLength(m, k) => RQ.HEAD - k + |m| + 3
    case PBytes(m, k) => |m| - k + 2
    case PCopied(_) => 1
  }

  /** The steps the consumer has left in popping `w`. */
  function PopLeft(c: Consumer, w: seq<u8>): int {
    match c
    case CIdle => RQ.HEAD + |w| + 4
    case CLength(bytes) => RQ.HEAD - |bytes| + |w| + 3
    case CBytes(n, bytes) => n - |bytes| + 2
    case CCopied(_) => 1
  }

  function Count(acts: seq<Act>, act: Act): nat {
    if acts == [] then 0 else Count(acts[..|acts| - 1], act) + if acts[|acts| - 1] == act then 1 else 0
  }

  /** After `done` steps of the push of `m`. */
  ghost predicate Pushing(q: Queue, before: seq<seq<u8>>, m: seq<u8>, done: nat) {
    if done < |m| + 7 then
      && !q.producer.PIdle? && q.producer.m == m && q.pushed == before
      && PushLeft(q.producer) == |m| + 7 - done
    else q.producer.PIdle? && q.pushed == before + [m]
  }

  lemma PushingStep(q: Queue, before: seq<seq<u8>>, m: seq<u8>, done: nat, act: Act)
    requires QueueInv(q) && Pushing(q, before, m, done) && !act.Begin? && (act == Produce ==> done < |m| + 7)
    ensures Pushing(Next(q, act), before, m, done + if act == Produce then 1 else 0)
  {
    hide Store, Load, Placed, Bears, ConsumerAt, Put32, Wrap;
  }

  /** An accepted push takes a fixed number of the producer's own steps, whatever the
      consumer does meanwhile, and its message is published at the last of them. */
  lemma {:induction false} PushCompletes(q: Queue, m: seq<u8>, acts: seq<Act>)
    requires QueueInv(q) && q.producer.PIdle? && Next(q, Begin(m)).producer.PLength?
    requires (forall a :: a in acts ==> !a.Begin?) && Count(acts, Produce) <= |m| + 7
    ensures var r := Run(Next(q, Begin(m)), acts);
            if Count(acts, Produce) < |m| + 7 then r.pushed == q.pushed && !r.producer.PIdle?
            else r.pushed == q.pushed + [m] && r.producer.PIdle?
  {
    hide QueueInv, Next, Run;
    PushUnderway(q, m, acts);
  }

  lemma {:induction false} PushUnderway(q: Queue, m: seq<u8>, acts: seq<Act>)
    requires QueueInv(q) && q.producer.PIdle? && Next(q, Begin(m)).producer.PLength?
    requires (forall a :: a in acts ==> !a.Begin?) && Count(acts, Produce) <= |m| + 7
    ensures Pushing(Run(Next(q, Begin(m)), acts), q.pushed, m, Count(acts, Produce))
  {
    hide QueueInv, Pushing;
    var start := Next(q, Begin(m));
    NextInv(q, Begin(m));
    PushBegun(q, m);
    hide Next;
    if acts != [] {
      var n := |acts| - 1;
      PushUnderway(q, m, acts[..n]);
      RunInv(start, acts[..n]);
      PushingStep(Run(start, acts[..n]), q.pushed, m, Count(acts[..n], Produce), acts[n]);
    }
  }

  lemma PushBegun(q: Queue, m: seq<u8>)
    requires q.producer.PIdle? && Next(q, Begin(m)).producer.PLength?
    ensures Pushing(Next(q, Begin(m)), q.pushed, m, 0)
  {
  }

  /** After `done` steps of the pop of `w`. */
  ghost predicate Popping(q: Queue, before: seq<seq<u8>>, w: seq<u8>, done: nat) {
    if done < |w| + 8 then
      && q.popped == before && Waiting(q) != [] && Waiting(q)[0] == w
      && PopLeft(q.consumer, w) == |w| + 8 - done
    else q.consumer.CIdle? && q.popped == before + [w]
  }

  lemma PoppingStep(q: Queue, before: seq<seq<u8>>, w: seq<u8>, done: nat, act: Act)
    requires QueueInv(q) && Popping(q, before, w, done) && (act == Consume ==> done < |w| + 8)
    ensures Popping(Next(q, act), before, w, done + if act == Consume then 1 else 0)
  {
    hide Store, Load, Placed, Bears, ProducerAt, Put32, Get32;
    if act == Consume {
      PopStep(q, before, w, done);
    } else {
      OthersWait(q, act);
    }
  }

  lemma OthersWait(q: Queue, act: Act)
    requires QueueInv(q) && act != Consume
    ensures Next(q, act).consumer == q.consumer && Next(q, act).popped == q.popped
    ensures Waiting(q) <= Waiting(Next(q, act))
  {
    hide Store, Load, Placed, Bears, ProducerAt, ConsumerAt, Put32, Get32, Wrap, Room;
  }

  lemma PopStep(q: Queue, before: seq<seq<u8>>, w: seq<u8>, done: nat)
    requires QueueInv(q) && Popping(q, before, w, done) && done < |w| + 8
    ensures Popping(ConsumerStep(q), before, w, done + 1)
  {
    hide Store, Load, Placed, Bears, ProducerAt, Put32, Get32, Wrap;
    if q.consumer.CIdle? {
      PopStartsExactly(q);
    }
    if q.consumer.CLength? && |q.consumer.bytes| >= RQ.HEAD {
      LengthRead(w);
      assert q.consumer.bytes == Put32(|w|);
    }
  }

  /** An idle consumer that finds a message has it after a fixed number of its own steps,
      whatever the producer does meanwhile, and it is the oldest. */
  lemma {:induction false} PopCompletes(q: Queue, acts: seq<Act>)
    requires QueueInv(q) && q.consumer.CIdle? && |q.popped| < |q.pushed|
    requires Count(acts, Consume) <= |q.pushed[|q.popped|]| + 8
    ensures var w, r := q.pushed[|q.popped|], Run(q, acts);
            if Count(acts, Consume) < |w| + 8 then r.popped == q.popped
            else r.popped == q.popped + [w] && r.consumer.CIdle?
  {
    hide QueueInv, Next, Run;
    PopUnderway(q, acts);
  }

  lemma {:induction false} PopUnderway(q: Queue, acts: seq<Act>)
    requires QueueInv(q) && q.consumer.CIdle? && |q.popped| < |q.pushed|
    requires Count(acts, Consume) <= |q.pushed[|q.popped|]| + 8
    ensures Popping(Run(q, acts), q.popped, q.pushed[|q.popped|], Count(acts, Consume))
  {
    hide QueueInv, Next, Popping;
    var w := q.pushed[|q.popped|];
    if acts == [] {
      PopReady(q);
    } else {
      var n := |acts| - 1;
      PopUnderway(q, acts[..n]);
      RunInv(q, acts[..n]);
      PoppingStep(Run(q, acts[..n]), q.popped, w, Count(acts[..n], Consume), acts[n]);
    }
  }

  lemma PopReady(q: Queue)
    requires q.consumer.CIdle? && |q.popped| < |q.pushed|
    ensures Popping(q, q.popped, q.pushed[|q.popped|], 0)
  {
  }
}
