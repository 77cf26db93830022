/**
 Two KCP endpoints and a network that may lose, duplicate, delay and reorder
 datagrams but never invents one.

 Each endpoint keeps, beside its control block, a history that the program does
 not have: the payload of every segment it has numbered, and of every segment
 its application has taken out. A datagram stays deliverable for ever once sent,
 so not delivering it is loss and delivering it twice is duplication. The only
 restriction on delivery is the age of a datagram: `Fresh`.
 */
module KcpProtocol {
  import opened U32
  import opened KcpCodec
  import opened KcpModel
  import opened KcpInvariants
  import opened KcpPacking

  datatype Piece = Piece(frg: u8, data: seq<u8>)

  datatype Node = Node(
    cb: Cb,
    log: seq<Piece>,             // payload of segment i, for every i below snd_nxt
    taken: seq<Piece>,           // segments popped by ikcp_recv
    accepted: seq<seq<u8>>,      // messages ikcp_send accepted
    returned: seq<seq<u8>>)      // messages ikcp_recv returned

  type Wires = set<seq<Frame>>

  datatype Step =
    | SendMsg(msg: seq<u8>)
    | RecvMsg(len: int)
    | Tick(now: u32)
    | Deliver(d: seq<Frame>)
    | Resume

  function PieceOf(s: Seg): Piece {
    Piece(s.frg, s.data)
  }

  function Pieces(segs: seq<Seg>): (r: seq<Piece>)
    ensures |r| == |segs| && forall i | 0 <= i < |segs| :: r[i] == PieceOf(segs[i])
  {
    seq(|segs|, i requires 0 <= i < |segs| => PieceOf(segs[i]))
  }

  lemma PiecesSum(a: seq<Seg>, b: seq<Seg>)
    ensures Pieces(a + b) == Pieces(a) + Pieces(b)
  {
  }

  lemma PiecesSplit(q: seq<Seg>, k: nat)
    requires k <= |q|
    ensures Pieces(q) == Pieces(q[..k]) + Pieces(q[k..])
  {
    assert q == q[..k] + q[k..];
    PiecesSum(q[..k], q[k..]);
  }

  /** A frame is young enough to be decoded: its numbers are less than half the
      number space behind the edges the receiving endpoint compares them with. */
  predicate FreshFrame(cb: Cb, f: Frame) {
    && f.una >= cb.snd.nxt - HALF
    && (f.cmd == CMD_ACK ==> f.sn >= cb.snd.nxt - HALF)
    && (f.cmd == CMD_PUSH ==> f.sn >= Taken(cb.rcv) + 2 * cb.cfg.rcvWnd - HALF)
  }

  ghost predicate Fresh(cb: Cb, d: seq<Frame>) {
    forall f :: f in d ==> FreshFrame(cb, f)
  }

  /** Fresh, and still so when both edges have moved on by `k`. */
  predicate FreshFor(cb: Cb, f: Frame, k: nat) {
    && f.una >= cb.snd.nxt + k - HALF
    && (f.cmd == CMD_ACK ==> f.sn >= cb.snd.nxt + k - HALF)
    && (f.cmd == CMD_PUSH ==> f.sn >= Taken(cb.rcv) + k + 2 * cb.cfg.rcvWnd - HALF)
  }

  lemma StaysFresh(cb: Cb, later: Cb, f: Frame, k: nat)
    requires FreshFor(cb, f, k) && later.cfg == cb.cfg
    requires later.snd.nxt <= cb.snd.nxt + k && Taken(later.rcv) <= Taken(cb.rcv) + k
    ensures FreshFrame(later, f)
  {
  }

  ghost predicate Enabled(n: Node, inbox: Wires, step: Step) {
    step.Deliver? ==> step.d in inbox && Fresh(n.cb, step.d)
  }

  function TakeMsg(n: Node, len: int): Node {
    var wnd := n.cb.cfg.rcvWnd;
    var r := Recv(wnd, n.cb.rcv, len);
    var cb := n.cb.(rcv := r.0, ctl := n.cb.ctl.(askTell := n.cb.ctl.askTell || (r.1 >= 0 && Reopened(wnd, n.cb.rcv, r.0))));
    if r.1 < 0 || len < 0 then n.(cb := cb)
    else n.(cb := cb,
            taken := n.taken + Pieces(n.cb.rcv.queue[..FirstMessage(n.cb.rcv.queue)]),
            returned := n.returned + [r.2])
  }

  /** One endpoint's move: its new state and the datagrams it sends. */
  function NodeStep(n: Node, step: Step): (Node, seq<seq<Frame>>)
    requires n.cb.cfg.Valid()
  {
    match step
    case SendMsg(msg) =>
      var r := Send(n.cb.cfg, n.cb.snd, msg);
      (n.(cb := n.cb.(snd := r.0), accepted := if r.1 < 0 then n.accepted else n.accepted + [msg]), [])
    case RecvMsg(len) => (TakeMsg(n, len), [])
    case Tick(now) =>
      var r := Update(n.cb, now);
      var k := r.0.snd.nxt - n.cb.snd.nxt;
      (n.(cb := r.0, log := n.log + if 0 <= k <= |n.cb.snd.queue| then Pieces(n.cb.snd.queue[..k]) else []),
       Datagrams(n.cb.cfg.mtu, r.1))
    case Deliver(d) => (n.(cb := Input(n.cb, EncodeAll(n.cb.cfg.conv, d)).0), [])
    case Resume => (n.(cb := Reconnect(n.cb)), [])
  }

  // ---------------------------------------------------------- the invariant

  ghost predicate Carried(log: seq<Piece>, segs: seq<Seg>) {
    forall s :: s in segs ==> 0 <= s.sn < |log| && log[s.sn] == PieceOf(s)
  }

  ghost predicate PushOk(log: seq<Piece>, f: Frame) {
    f.cmd == CMD_PUSH ==> 0 <= f.sn < |log| && log[f.sn] == Piece(f.frg, f.data)
  }

  ghost predicate BackOk(r: Receiver, f: Frame) {
    0 <= f.una <= r.nxt && (f.cmd == CMD_ACK ==> Received(r, f.sn))
  }

  /** Shape of every datagram: never empty, well formed, one `una` throughout. */
  ghost predicate WellFormed(d: seq<Frame>) {
    && d != []
    && (forall f :: f in d ==> Sendable(f))
    && (forall f, g :: f in d && g in d ==> f.una == g.una)
  }

  ghost predicate WireOk(log: seq<Piece>, r: Receiver, d: seq<Frame>) {
    WellFormed(d) && forall f :: f in d ==> PushOk(log, f) && BackOk(r, f)
  }

  /** The sender's records agree with the payload it has numbered. */
  ghost predicate SendSide(log: seq<Piece>, s: Sender) {
    |log| == s.nxt && Carried(log, s.buf)
  }

  /** What has been taken out, followed by what waits in `rcv_queue`, is exactly
      the first `rcv_nxt` segments of the peer, in order. */
  ghost predicate RecvSide(log: seq<Piece>, taken: seq<Piece>, r: Receiver) {
    && 0 <= r.nxt <= |log|
    && taken + Pieces(r.queue) == log[..r.nxt]
    && Carried(log, r.buf)
    && (forall a :: a in r.acks ==> Received(r, a.sn))
  }

  /** No segment is released before the peer has it. */
  ghost predicate Kept(s: Sender, r: Receiver) {
    forall i :: 0 <= i < s.nxt ==> Received(r, i) || i in Sns(s.buf)
  }

  /** The traffic one endpoint sends to the other. */
  ghost predicate Flow(s: Node, r: Node) {
    && SendSide(s.log, s.cb.snd)
    && RecvSide(s.log, r.taken, r.cb.rcv)
    && Kept(s.cb.snd, r.cb.rcv)
  }

  ghost predicate NodeInv(n: Node) {
    Inv(n.cb) && n.cb.ctl.state != STATE_BROKEN
  }

  ghost predicate Pair(n: Node, p: Node, out: Wires, inbox: Wires) {
    && NodeInv(n) && NodeInv(p) && n.cb.cfg.conv == p.cb.cfg.conv
    && Flow(n, p) && Flow(p, n)
    && (forall d :: d in out ==> WireOk(n.log, n.cb.rcv, d))
    && (forall d :: d in inbox ==> WireOk(p.log, p.cb.rcv, d))
  }

  // ------------------------------------------------------------- one frame

  lemma ReceivedBelow(wnd: nat, r: Receiver, sn: int)
    requires ReceiverInv(wnd, r) && Received(r, sn)
    ensures sn < r.nxt + wnd
  {
  }

  /** The sender's window cannot run ahead of the receiver's by more than both
      windows, because everything below `snd_una` has been received. */
  lemma SenderNotAhead(swnd: nat, mss: nat, s: Sender, rwnd: nat, r: Receiver)
    requires SenderInv(swnd, mss, s) && ReceiverInv(rwnd, r) && Kept(s, r)
    ensures s.una <= r.nxt + rwnd && s.nxt <= r.nxt + rwnd + swnd
  {
    if s.una > 0 {
      assert s.una - 1 !in Sns(s.buf);
      ReceivedBelow(rwnd, r, s.una - 1);
    }
  }

  /** An honest frame drops only segments the peer has. */
  lemma SenderFrame(cfg: Config, s: Sender, rwnd: nat, r: Receiver, f: Frame)
    requires cfg.Valid() && SenderInv(cfg.sndWnd, cfg.Mss(), s)
    requires ReceiverInv(rwnd, r) && rwnd <= MAX_WND && r.nxt <= s.nxt
    requires Kept(s, r) && BackOk(r, f)
    requires f.una >= s.nxt - HALF && (f.cmd == CMD_ACK ==> f.sn >= s.nxt - HALF)
    ensures Kept(SenderInput(s, f), r)
    ensures forall x :: x in SenderInput(s, f).buf ==> x in s.buf
  {
    var mss := cfg.Mss();
    NearExact(s.una, f.una);
    ParseUnaInv(cfg.sndWnd, mss, s, Wrap(f.una));
    var s1 := ParseUna(s, Wrap(f.una));
    KeptSubset(s, s1, r);
    if f.cmd == CMD_ACK {
      ReceivedBelow(rwnd, r, f.sn);
      NearExact(s1.una, f.sn);
      ParseAckInv(cfg.sndWnd, mss, s1, Wrap(f.sn));
      KeptSubset(s1, ParseAck(s1, Wrap(f.sn)), r);
    }
  }

  lemma KeptSubset(s: Sender, s': Sender, r: Receiver)
    requires Kept(s, r) && s'.nxt == s.nxt
    requires forall x :: x in s.buf && !Received(r, x.sn) ==> x in s'.buf
    ensures Kept(s', r)
  {
    forall i | 0 <= i < s.nxt ensures Received(r, i) || i in Sns(s'.buf) {
      if !Received(r, i) {
        var x :| x in s.buf && x.sn == i;
        assert x in s'.buf;
      }
    }
  }

  /** Moving segments from `rcv_buf` to `rcv_queue` extends the delivered prefix
      by exactly the next segments of the log. */
  lemma MoveReadySide(wnd: nat, log: seq<Piece>, taken: seq<Piece>, r: Receiver)
    requires WindowInv(wnd, r) && RecvSide(log, taken, r)
    ensures RecvSide(log, taken, MoveReady(wnd, r))
  {
    var k := MoveReadyEffect(wnd, r);
    MoveReadyInv(wnd, r);
    var r' := MoveReady(wnd, r);
    MovedPieces(log, r.buf, r.nxt, k);
    PiecesSum(r.queue, r.buf[..k]);
    SumAssociative(taken, Pieces(r.queue), Pieces(r.buf[..k]));
  }

  lemma MovedPieces(log: seq<Piece>, buf: seq<Seg>, nxt: nat, k: nat)
    requires nxt <= |log| && k <= |buf| && Carried(log, buf)
    requires forall i :: 0 <= i < k ==> buf[i].sn == nxt + i
    ensures nxt + k <= |log| && log[..nxt] + Pieces(buf[..k]) == log[..nxt + k]
  {
    assert k > 0 ==> buf[k - 1].sn < |log|;
    forall i | 0 <= i < k ensures log[nxt + i] == PieceOf(buf[i]) {
      assert buf[i].sn == nxt + i && buf[i] in buf;
    }
  }

  /** An honest PUSH is filed under its true number. */
  lemma ReceiverFrame(wnd: nat, log: seq<Piece>, taken: seq<Piece>, r: Receiver, f: Frame)
    requires ReceiverInv(wnd, r) && wnd <= MAX_WND && RecvSide(log, taken, r)
    requires |log| <= r.nxt + wnd + MAX_WND
    requires PushOk(log, f)
    requires f.cmd == CMD_PUSH ==> f.sn >= Taken(r) + 2 * wnd - HALF
    ensures RecvSide(log, taken, ReceiverInput(wnd, r, f))
  {
    hide Near, Insert, MoveReady;
    if f.cmd == CMD_PUSH {
      NearExact(r.nxt + wnd, f.sn);
      var s := Arrived(f, f.sn);
      var r1 := r.(acks := AckPush(r.acks, f.sn, f.ts));
      if r.nxt <= f.sn < r.nxt + wnd {
        InsertEffect(r1.buf, s);
        var r2 := r1.(buf := Insert(r1.buf, s));
        assert forall x :: Received(r, x) ==> Received(r2, x);
        MoveReadySide(wnd, log, taken, r2);
      } else if f.sn < r.nxt {
        assert forall x :: Received(r, x) ==> Received(r1, x);
      }
    }
  }

  /** Why delivery is restricted to fresh datagrams: a segment a whole turn of the
      counter old that falls into the window is taken for the one now due there,
      and its payload is what waits under that number. */
  lemma StaleFrameIsMisfiled(wnd: nat, r: Receiver, f: Frame)
    requires ReceiverInv(wnd, r) && wnd <= MAX_WND && f.cmd == CMD_PUSH
    requires r.nxt <= f.sn + MODULUS < r.nxt + wnd
    ensures Received(ReceiverInput(wnd, r, f), f.sn + MODULUS)
    ensures var r' := ReceiverInput(wnd, r, f);
            !Received(r, f.sn + MODULUS) ==> Arrived(f, f.sn + MODULUS) in r'.buf + r'.queue
  {
    hide Near, Wrap, ParseData, Received, ReceiverInv, Arrived, AckPush;
    var sn := f.sn + MODULUS;
    WrapTurn(f.sn);
    NearExact(r.nxt + wnd, sn);
    var r1 := r.(acks := AckPush(r.acks, sn, f.ts));
    AcksApart(wnd, r, sn, f.ts);
    ArrivedNumber(f, sn);
    assert ReceiverInput(wnd, r, f) == ParseData(wnd, r1, Arrived(f, sn));
    ParseDataInv(wnd, r1, Arrived(f, sn));
    Filed(wnd, r1, Arrived(f, sn));
  }

  lemma WrapTurn(x: int)
    ensures Wrap(x) == Wrap(x + MODULUS)
  {
  }

  lemma ArrivedNumber(f: Frame, sn: int)
    ensures Arrived(f, sn).sn == sn
  {
  }

  lemma AcksApart(wnd: nat, r: Receiver, sn: int, ts: u32)
    requires ReceiverInv(wnd, r)
    ensures var r1 := r.(acks := AckPush(r.acks, sn, ts)); ReceiverInv(wnd, r1) && (Received(r1, sn) <==> Received(r, sn))
  {
  }

  /** A new segment in the window is held afterwards. */
  lemma Filed(wnd: nat, r: Receiver, s: Seg)
    requires ReceiverInv(wnd, r) && r.nxt <= s.sn < r.nxt + wnd
    ensures var r' := ParseData(wnd, r, s); !Received(r, s.sn) ==> s in r'.buf + r'.queue
  {
    hide Insert, MoveReady;
    InsertEffect(r.buf, s);
    NothingDropped(wnd, r.(buf := Insert(r.buf, s)));
  }

  /** What moves to the queue is still held. */
  lemma NothingDropped(wnd: nat, r: Receiver)
    requires |r.queue| <= wnd
    ensures var r' := MoveReady(wnd, r); forall s :: s in r.buf ==> s in r'.buf + r'.queue
  {
    var k := MoveReadyEffect(wnd, r);
    assert r.buf == r.buf[..k] + r.buf[k..];
  }

  lemma BackOkMonotone(r: Receiver, r': Receiver, f: Frame)
    requires BackOk(r, f) && r.nxt <= r'.nxt && forall x :: Received(r, x) ==> Received(r', x)
    ensures BackOk(r', f)
  {
  }

  // ---------------------------------------------------------- one datagram

  lemma InputFrameOnWire(cb: Cb, f: Frame)
    ensures InputFrame(cb, OnWire(f)) == InputFrame(cb, f)
  {
    assert Wrap(Wrap(f.sn)) == Wrap(f.sn) && Wrap(Wrap(f.una)) == Wrap(f.una);
    assert forall sn :: Arrived(OnWire(f), sn) == Arrived(f, sn);
  }

  /** Reducing numbers to 32 bits loses nothing the endpoint looks at. */
  lemma {:induction false} InputFramesOnWire(cb: Cb, d: seq<Frame>)
    ensures InputFrames(cb, OnWireAll(d)) == InputFrames(cb, d)
  {
    if d != [] {
      var init, e := d[..|d| - 1], OnWireAll(d);
      InputFramesOnWire(cb, init);
      assert e[..|e| - 1] == OnWireAll(init);
      assert e[|e| - 1] == OnWire(d[|d| - 1]);
      InputFrameOnWire(InputFrames(cb, init), d[|d| - 1]);
    }
  }

  lemma {:induction false} MaximaOnWire(d: seq<Frame>)
    ensures MaxAck(OnWireAll(d)) == MaxAck(d) && MaxUna(OnWireAll(d)) == MaxUna(d)
  {
    if d != [] {
      var init, e := d[..|d| - 1], OnWireAll(d);
      MaximaOnWire(init);
      assert e[..|e| - 1] == OnWireAll(init);
      var f, g := d[|d| - 1], e[|e| - 1];
      assert g == OnWire(f);
      assert Wrap(g.sn) == Wrap(f.sn) && Wrap(g.una) == Wrap(f.una);
    }
  }

  /** All frames of a datagram, one after the other. */
  lemma {:induction false} DatagramFrames(n: Node, p: Node, d: seq<Frame>)
    requires NodeInv(n) && NodeInv(p) && Flow(n, p) && Flow(p, n)
    requires forall f :: f in d ==> PushOk(p.log, f) && BackOk(p.cb.rcv, f)
    requires Fresh(n.cb, d)
    ensures var n' := n.(cb := InputFrames(n.cb, d));
            Inv(n'.cb) && Flow(n', p) && Flow(p, n') && Taken(n'.cb.rcv) == Taken(n.cb.rcv)
            && n'.cb.snd.nxt == n.cb.snd.nxt && n'.cb.rcv.nxt >= n.cb.rcv.nxt && n'.cb.snd.queue == n.cb.snd.queue
            && n'.cb.ctl.state == n.cb.ctl.state
            && forall x :: Received(n.cb.rcv, x) ==> Received(n'.cb.rcv, x)
  {
    if d != [] {
      var init, f := d[..|d| - 1], d[|d| - 1];
      assert d == init + [f] && f in d;
      DatagramFrames(n, p, init);
      var m := n.(cb := InputFrames(n.cb, init));
      assert FreshFrame(n.cb, f) && FreshFrame(m.cb, f);
      OneFrame(m, p, f);
    }
  }

  lemma OneFrame(n: Node, p: Node, f: Frame)
    requires Inv(n.cb) && Inv(p.cb) && Flow(n, p) && Flow(p, n)
    requires PushOk(p.log, f) && BackOk(p.cb.rcv, f) && FreshFrame(n.cb, f)
    ensures var n' := n.(cb := InputFrame(n.cb, f));
            Inv(n'.cb) && Flow(n', p) && Flow(p, n') && Taken(n'.cb.rcv) == Taken(n.cb.rcv)
            && n'.cb.snd.nxt == n.cb.snd.nxt && n'.cb.rcv.nxt >= n.cb.rcv.nxt && n'.cb.snd.queue == n.cb.snd.queue
            && n'.cb.ctl.state == n.cb.ctl.state
            && forall x :: Received(n.cb.rcv, x) ==> Received(n'.cb.rcv, x)
  {
    var cfg := n.cb.cfg;
    SenderInputInv(cfg.sndWnd, cfg.Mss(), n.cb.snd, f);
    SenderFrame(cfg, n.cb.snd, p.cb.cfg.rcvWnd, p.cb.rcv, f);
    ReceiverInputInv(cfg.rcvWnd, n.cb.rcv, f);
    SenderNotAhead(p.cb.cfg.sndWnd, p.cb.cfg.Mss(), p.cb.snd, cfg.rcvWnd, n.cb.rcv);
    ReceiverFrame(cfg.rcvWnd, p.log, n.taken, n.cb.rcv, f);
  }

  lemma {:induction false} UniformMaxUna(d: seq<Frame>)
    requires WellFormed(d)
    ensures MaxUna(d) == Wrap(d[0].una)
  {
    var init, f := d[..|d| - 1], d[|d| - 1];
    assert f in d && d[0] in d;
    if init != [] {
      assert forall g :: g in init ==> g in d;
      UniformMaxUna(init);
    } else {
      assert MaxUna(init) == 0;
    }
  }

  /** A well-formed datagram is read to its end without error. */
  lemma DeliverIs(cb: Cb, d: seq<Frame>)
    requires cb.cfg.Valid() && WellFormed(d)
    ensures Input(cb, EncodeAll(cb.cfg.conv, d))
         == (InputFinish(InputFrames(cb, d), cb.snd.una, MaxAck(d), Wrap(d[0].una)), 0)
  {
    ParseDatagram(cb.cfg.conv, d);
    EncodedSize(cb.cfg.conv, d);
    InputFramesOnWire(cb, d);
    MaximaOnWire(d);
    UniformMaxUna(d);
  }

  lemma FinishStep(n: Node, p: Node, prevUna: int, maxAck: Option<u32>, una: int)
    requires Inv(n.cb) && n.cb.ctl.state != STATE_BROKEN && NodeInv(p) && Flow(n, p) && Flow(p, n)
    requires n.cb.snd.nxt - HALF <= una <= p.cb.rcv.nxt
    ensures var n' := n.(cb := InputFinish(n.cb, prevUna, maxAck, Wrap(una)));
            NodeInv(n') && Flow(n', p) && Flow(p, n') && n'.cb.rcv == n.cb.rcv
  {
    var cb := n.cb;
    TimeDiffExact(una, cb.snd.nxt);
    if maxAck.Some? {
      ParseFastackInv(cb.cfg.sndWnd, cb.cfg.Mss(), cb.snd, maxAck.value);
      SameNumbersSide(n.log, cb.snd, ParseFastack(cb.snd, maxAck.value), p.cb.rcv);
    }
  }

  /** Delivering a datagram of the peer keeps the invariant; in particular the
      broken-sequence detector of `ikcp_input` never fires. */
  lemma DeliverStep(n: Node, p: Node, out: Wires, inbox: Wires, d: seq<Frame>)
    requires Pair(n, p, out, inbox) && d in inbox && Fresh(n.cb, d)
    ensures Pair(NodeStep(n, Deliver(d)).0, p, out, inbox)
  {
    assert WireOk(p.log, p.cb.rcv, d) && d[0] in d;
    assert FreshFrame(n.cb, d[0]);
    DeliverIs(n.cb, d);
    DatagramFrames(n, p, d);
    var m := n.(cb := InputFrames(n.cb, d));
    FinishStep(m, p, n.cb.snd.una, MaxAck(d), d[0].una);
    WiresMonotone(n.log, n.log, n.cb.rcv, m.cb.rcv, out);
  }

  lemma SameNumbersSide(log: seq<Piece>, s: Sender, s': Sender, r: Receiver)
    requires SendSide(log, s) && Kept(s, r)
    requires s'.nxt == s.nxt && |s'.buf| == |s.buf|
    requires forall i :: 0 <= i < |s.buf| ==> s'.buf[i].sn == s.buf[i].sn && PieceOf(s'.buf[i]) == PieceOf(s.buf[i])
    ensures SendSide(log, s') && Kept(s', r)
  {
    forall x | x in s'.buf ensures 0 <= x.sn < |log| && log[x.sn] == PieceOf(x) {
      var i :| 0 <= i < |s'.buf| && s'.buf[i] == x;
      assert s.buf[i] in s.buf;
    }
    forall i | i in Sns(s.buf) ensures i in Sns(s'.buf) {
      var j :| 0 <= j < |s.buf| && s.buf[j].sn == i;
      assert s'.buf[j].sn == i;
    }
  }

  /** Old datagrams stay valid as the sender numbers more segments and as the
      endpoint that sent them receives more. */
  lemma WiresMonotone(log: seq<Piece>, log': seq<Piece>, r: Receiver, r': Receiver, ws: Wires)
    requires log <= log' && r.nxt <= r'.nxt && forall x :: Received(r, x) ==> Received(r', x)
    requires forall d :: d in ws ==> WireOk(log, r, d)
    ensures forall d :: d in ws ==> WireOk(log', r', d)
  {
    forall d, f | d in ws && f in d ensures PushOk(log', f) && BackOk(r', f) {
      assert WireOk(log, r, d);
      BackOkMonotone(r, r', f);
    }
    assert forall d :: d in ws ==> WireOk(log, r, d) ==> WellFormed(d);
  }

  // ------------------------------------------------------------ the others

  lemma TakeSide(wnd: nat, log: seq<Piece>, taken: seq<Piece>, r: Receiver, k: nat)
    requires ReceiverInv(wnd, r) && RecvSide(log, taken, r) && k <= |r.queue|
    ensures RecvSide(log, taken + Pieces(r.queue[..k]), MoveReady(wnd, r.(queue := r.queue[k..])))
  {
    var r1 := r.(queue := r.queue[k..]);
    PiecesSplit(r.queue, k);
    SumAssociative(taken, Pieces(r.queue[..k]), Pieces(r1.queue));
    assert forall x :: Received(r1, x) <==> Received(r, x);
    MoveReadySide(wnd, log, taken + Pieces(r.queue[..k]), r1);
  }

  lemma TakeStep(n: Node, p: Node, out: Wires, inbox: Wires, len: int)
    requires Pair(n, p, out, inbox)
    ensures Pair(TakeMsg(n, len), p, out, inbox)
  {
    var wnd, r := n.cb.cfg.rcvWnd, n.cb.rcv;
    var n' := TakeMsg(n, len);
    RecvInv(wnd, r, len);
    WiresMonotone(n.log, n.log, r, n'.cb.rcv, out);
    if Recv(wnd, r, len).1 >= 0 {
      if len < 0 {
        MoveReadySide(wnd, p.log, n.taken, r);
      } else {
        TakeSide(wnd, p.log, n.taken, r, FirstMessage(r.queue));
      }
    }
  }

  lemma SendStep(n: Node, p: Node, out: Wires, inbox: Wires, msg: seq<u8>)
    requires Pair(n, p, out, inbox)
    ensures Pair(NodeStep(n, SendMsg(msg)).0, p, out, inbox)
  {
    SendInv(n.cb.cfg, n.cb.snd, msg);
  }

  lemma ResumeStep(n: Node, p: Node, out: Wires, inbox: Wires)
    requires Pair(n, p, out, inbox)
    ensures Pair(NodeStep(n, Resume).0, p, out, inbox)
  {
    ReconnectInv(n.cb);
    SameNumbersSide(n.log, n.cb.snd, Reconnect(n.cb).snd, p.cb.rcv);
  }

  /** Numbering `k` queued segments extends the log by their payload. */
  lemma AdmitSide(log: seq<Piece>, s: Sender, s': Sender, w: Sweep, k: nat)
    requires SendSide(log, s) && Admits(s, s', w, k)
    ensures SendSide(log + Pieces(s.queue[..k]), s')
  {
    var added := NumberedAll(w, s.queue[..k], s.nxt);
    var log' := log + Pieces(s.queue[..k]);
    forall x | x in s'.buf ensures 0 <= x.sn < |log'| && log'[x.sn] == PieceOf(x) {
      if x in added {
        var i :| 0 <= i < k && added[i] == x;
        assert log'[|log| + i] == PieceOf(s.queue[i]);
      }
    }
  }

  lemma AdmitKept(s: Sender, s': Sender, w: Sweep, k: nat, r: Receiver)
    requires Kept(s, r) && Admits(s, s', w, k)
    ensures Kept(s', r)
  {
    var added := NumberedAll(w, s.queue[..k], s.nxt);
    forall i | 0 <= i < s'.nxt ensures Received(r, i) || i in Sns(s'.buf) {
      if i >= s.nxt {
        assert added[i - s.nxt] in s'.buf;
      } else if i in Sns(s.buf) {
        var x :| x in s.buf && x.sn == i;
        assert x in s'.buf;
      }
    }
  }

  lemma RecvSideGrow(log: seq<Piece>, log': seq<Piece>, taken: seq<Piece>, r: Receiver)
    requires RecvSide(log, taken, r) && log <= log'
    ensures RecvSide(log', taken, r)
  {
    assert log'[..r.nxt] == log[..r.nxt];
  }

  /** Every PUSH frame is a segment of `snd_buf`, stamped with the current `una`. */
  lemma {:induction false} PushFramesFrom(w: Sweep, buf: seq<Seg>, f: Frame)
    requires f in PushFrames(w, buf)
    ensures exists s :: s in buf && f.cmd == CMD_PUSH && f.una == w.una && f.sn == s.sn && f.frg == s.frg && f.data == s.data
  {
    var init, s := buf[..|buf| - 1], buf[|buf| - 1];
    assert s in buf;
    if f in PushFrames(w, init) {
      PushFramesFrom(w, init, f);
    }
  }

  lemma OutputOk(cb: Cb, log: seq<Piece>, f: Frame)
    requires Inv(cb) && f in Output(cb)
    requires Carried(log, Admitted(cb).buf)
    requires forall a :: a in cb.rcv.acks ==> Received(cb.rcv, a.sn)
    ensures PushOk(log, f) && BackOk(cb.rcv, f) && f.una == cb.rcv.nxt
  {
    if f in PushFrames(SweepOf(cb), Admitted(cb).buf) {
      PushFramesFrom(SweepOf(cb), Admitted(cb).buf, f);
    } else {
      var n := |cb.rcv.acks|;
      if f in AckFrames(cb, n) {
        var i :| 0 <= i < n && AckFrames(cb, n)[i] == f;
        assert cb.rcv.acks[i] in cb.rcv.acks;
      }
    }
  }

  /** What a flush puts out is fresh for its receiver, and stays so while that numbers
      or takes 2^29 further segments, unless it repeats an ack that is older. */
  lemma OutputIsFresh(n: Node, p: Node, out: Wires, inbox: Wires, f: Frame)
    requires Pair(n, p, out, inbox) && f in Output(n.cb)
    ensures FreshFor(p.cb, f, MAX_WND) <==> (f.cmd == CMD_ACK ==> f.sn >= p.cb.snd.nxt + MAX_WND - HALF)
  {
    AdmittedInv(n.cb);
    SenderNotAhead(p.cb.cfg.sndWnd, p.cb.cfg.Mss(), p.cb.snd, n.cb.cfg.rcvWnd, n.cb.rcv);
    if f in PushFrames(SweepOf(n.cb), Admitted(n.cb).buf) {
      PushFramesFrom(SweepOf(n.cb), Admitted(n.cb).buf, f);
    }
  }

  lemma GroupsOk(cb: Cb, log: seq<Piece>, g: seq<Frame>)
    requires Inv(cb) && g in Datagrams(cb.cfg.mtu, Output(cb))
    requires Carried(log, Admitted(cb).buf)
    requires forall a :: a in cb.rcv.acks ==> Received(cb.rcv, a.sn)
    ensures WireOk(log, cb.rcv, g)
  {
    OutputFits(cb);
    DatagramsSound(cb.cfg.mtu, Output(cb));
    forall f | f in g
      ensures PushOk(log, f) && BackOk(cb.rcv, f) && f.una == cb.rcv.nxt && Sendable(f)
    {
      FlattenMember(Datagrams(cb.cfg.mtu, Output(cb)), g, f);
      OutputOk(cb, log, f);
    }
  }

  ghost function Added(ws: Wires, groups: seq<seq<Frame>>): Wires {
    ws + set g | g in groups
  }

  /** `ikcp_update` keeps the invariant, and everything it sends is honest. */
  lemma TickStep(n: Node, p: Node, out: Wires, inbox: Wires, now: u32)
    requires Pair(n, p, out, inbox)
    ensures var r := NodeStep(n, Tick(now)); Pair(r.0, p, Added(out, r.1), inbox)
  {
    hide Pair, NodeStep, Flushed, Ticked, Output, Datagrams, FlushDue;
    var m := n.(cb := Ticked(n.cb, now));
    TickedPair(n, p, out, inbox, now);
    TickIs(n, out, now);
    if FlushDue(n.cb.ctl, now) {
      FlushStep(m, p, out, inbox);
    }
  }

  /** Reading the clock changes nothing that the invariant is about. */
  lemma TickedPair(n: Node, p: Node, out: Wires, inbox: Wires, now: u32)
    requires Pair(n, p, out, inbox)
    ensures n.cb.cfg.Valid() && Pair(n.(cb := Ticked(n.cb, now)), p, out, inbox)
  {
    hide FlushDue, NextFlush, SenderInv, ReceiverInv, SendSide, RecvSide, Kept, WireOk;
  }

  lemma TickIs(n: Node, out: Wires, now: u32)
    requires n.cb.cfg.Valid()
    ensures var m, r := n.(cb := Ticked(n.cb, now)), NodeStep(n, Tick(now));
            m.cb.cfg == n.cb.cfg
            && if FlushDue(n.cb.ctl, now) then r == (Flushed(m), Datagrams(m.cb.cfg.mtu, Output(m.cb)))
               else r.0 == m && Added(out, r.1) == out
  {
    hide Flush, Output, FlushDue, NextFlush;
    assert Pieces(n.cb.snd.queue[..0]) == [];
    assert n.log + [] == n.log;
    assert Datagrams(n.cb.cfg.mtu, []) == [];
  }

  /** A flush of endpoint `n`, with the history extended accordingly. */
  function Flushed(n: Node): Node
    requires n.cb.cfg.Valid()
  {
    var k := Flush(n.cb).snd.nxt - n.cb.snd.nxt;
    n.(cb := Flush(n.cb), log := n.log + if 0 <= k <= |n.cb.snd.queue| then Pieces(n.cb.snd.queue[..k]) else [])
  }

  lemma FlushState(cb: Cb)
    requires cb.cfg.Valid() && cb.ctl.state != STATE_BROKEN
    ensures Flush(cb).ctl.state != STATE_BROKEN
  {
  }

  /** The resend loop rewrites only fields that are not carried. */
  lemma SweptSame(w: Sweep, buf: seq<Seg>)
    ensures forall i :: 0 <= i < |buf| ==>
              SweptAll(w, buf)[i].sn == buf[i].sn && PieceOf(SweptAll(w, buf)[i]) == PieceOf(buf[i])
  {
  }

  lemma FlushSender(n: Node, r: Receiver)
    requires Inv(n.cb) && n.cb.ctl.updated && SendSide(n.log, n.cb.snd) && Kept(n.cb.snd, r)
    ensures n.log <= Flushed(n).log && Carried(Flushed(n).log, Admitted(n.cb).buf)
    ensures SendSide(Flushed(n).log, Flush(n.cb).snd) && Kept(Flush(n.cb).snd, r)
  {
    hide Window, SweepOf, FlushControl, ControlFrames;
    var cb, w := n.cb, SweepOf(n.cb);
    var k := AdmitEffect(cb.snd, Window(cb.cfg, cb.ctl), w);
    var s := Admitted(cb);
    SweptSame(w, s.buf);
    AdmitSide(n.log, cb.snd, s, w, k);
    AdmitKept(cb.snd, s, w, k, r);
    SameNumbersSide(Flushed(n).log, s, Flush(cb).snd, r);
  }

  lemma FlushFlow(n: Node, p: Node)
    requires Pair(n, p, {}, {}) && n.cb.ctl.updated
    ensures NodeInv(Flushed(n)) && Flow(Flushed(n), p) && Flow(p, Flushed(n))
  {
    FlushSender(n, p.cb.rcv);
    RecvSideGrow(n.log, Flushed(n).log, p.taken, p.cb.rcv);
    FlushInv(n.cb);
    FlushReceiver(n, p);
    FlushState(n.cb);
  }

  lemma FlushStep(n: Node, p: Node, out: Wires, inbox: Wires)
    requires Pair(n, p, out, inbox)
    ensures Pair(Flushed(n), p, Added(out, Datagrams(n.cb.cfg.mtu, Output(n.cb))), inbox)
  {
    if n.cb.ctl.updated {
      var cb, n' := n.cb, Flushed(n);
      FlushSender(n, p.cb.rcv);
      FlushFlow(n, p);
      FlushReceiver(n, p);
      WiresMonotone(n.log, n'.log, cb.rcv, n'.cb.rcv, out);
      forall g | g in Datagrams(cb.cfg.mtu, Output(cb)) ensures WireOk(n'.log, n'.cb.rcv, g) {
        GroupsOk(cb, n'.log, g);
        WiresMonotone(n'.log, n'.log, cb.rcv, n'.cb.rcv, {g});
      }
    } else {
      assert Pieces(n.cb.snd.queue[..0]) == [];
      assert n.log + [] == n.log;
      assert Added(out, Datagrams(n.cb.cfg.mtu, [])) == out;
    }
  }

  lemma FlushReceiver(n: Node, p: Node)
    requires RecvSide(p.log, n.taken, n.cb.rcv) && n.cb.cfg.Valid() && n.cb.ctl.updated
    ensures RecvSide(p.log, n.taken, Flush(n.cb).rcv)
    ensures forall x :: Received(n.cb.rcv, x) <==> Received(Flush(n.cb).rcv, x)
  {
  }

  lemma PairStep(n: Node, p: Node, out: Wires, inbox: Wires, step: Step)
    requires Pair(n, p, out, inbox) && Enabled(n, inbox, step)
    ensures var r := NodeStep(n, step); Pair(r.0, p, Added(out, r.1), inbox)
  {
    assert Added(out, []) == out;
    match step
    case SendMsg(msg) => SendStep(n, p, out, inbox, msg);
    case RecvMsg(len) => TakeStep(n, p, out, inbox, len);
    case Tick(now) => TickStep(n, p, out, inbox, now);
    case Deliver(d) => DeliverStep(n, p, out, inbox, d);
    case Resume => ResumeStep(n, p, out, inbox);
  }
}
