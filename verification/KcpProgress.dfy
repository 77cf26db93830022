/**
 Progress: what one delivery of the right datagram achieves, however much was lost
 before.
 */
module KcpProgress {
  import opened U32
  import opened KcpCodec
  import opened KcpModel
  import opened KcpInvariants
  import opened KcpPacking
  import opened KcpProtocol
  import opened KcpControl

  /** Among the frames is segment `x`. */
  ghost predicate Carries(d: seq<Frame>, x: int) {
    exists f :: f in d && f.cmd == CMD_PUSH && f.sn == x
  }

  /** Filing the segment at `rcv_nxt` moves `rcv_nxt` on, unless the application has
      left the receive queue full. */
  lemma HeadMoves(wnd: nat, r: Receiver, f: Frame)
    requires ReceiverInv(wnd, r) && 0 < wnd <= MAX_WND && |r.queue| < wnd
    requires f.cmd == CMD_PUSH && f.sn == r.nxt
    ensures ReceiverInput(wnd, r, f).nxt > r.nxt && ReceiverInput(wnd, r, f).acks != []
  {
    hide MoveReady, Insert, Near;
    var r' := ReceiverInput(wnd, r, f);
    NearExact(r.nxt + wnd, f.sn);
    InputPushInv(wnd, r, f);
    PushAcks(wnd, r, f);
    assert Received(r', r.nxt);
    FrontIsHead(wnd, r');
  }

  /** If the segment at `rcv_nxt` waits at all, it waits at the front. */
  lemma FrontIsHead(wnd: nat, r: Receiver)
    requires WindowInv(wnd, r)
    ensures r.nxt in Sns(r.buf) ==> r.buf != [] && r.buf[0].sn == r.nxt
  {
    if s :| s in r.buf && s.sn == r.nxt {
      var i :| 0 <= i < |r.buf| && r.buf[i] == s;
      AscendingGap(r.buf, i);
      assert r.buf[0] in r.buf;
    }
  }

  lemma PushAcks(wnd: nat, r: Receiver, f: Frame)
    requires ReceiverInv(wnd, r) && f.cmd == CMD_PUSH && Near(r.nxt + wnd, Wrap(f.sn)) < r.nxt + wnd
    ensures ReceiverInput(wnd, r, f).acks != []
  {
    hide MoveReady, Insert, Near;
    var sn := Near(r.nxt + wnd, Wrap(f.sn));
    ParseDataInv(wnd, r.(acks := AckPush(r.acks, sn, f.ts)), Arrived(f, sn));
  }

  lemma AcksStay(wnd: nat, r: Receiver, f: Frame)
    requires ReceiverInv(wnd, r) && r.acks != []
    ensures ReceiverInput(wnd, r, f).acks != []
  {
    hide MoveReady, Insert, Near;
    if f.cmd == CMD_PUSH && Near(r.nxt + wnd, Wrap(f.sn)) < r.nxt + wnd {
      PushAcks(wnd, r, f);
    }
  }

  /** What the arrival of a segment numbered `x`, up to `rcv_nxt`, leads to: something
      to acknowledge, and if it is the one waited for, `rcv_nxt` behind it. */
  ghost predicate Noticed(cb: Cb, x: int, r: Receiver) {
    && r.nxt >= cb.rcv.nxt && r.acks != []
    && (|cb.rcv.queue| < cb.cfg.rcvWnd ==> r.nxt > x)
  }

  /** Anywhere in a datagram. */
  lemma {:induction false} SegmentAmongFrames(cb: Cb, d: seq<Frame>, x: int)
    requires Inv(cb) && Carries(d, x) && Taken(cb.rcv) + 2 * cb.cfg.rcvWnd - HALF <= x <= cb.rcv.nxt
    ensures Noticed(cb, x, InputFrames(cb, d).rcv)
  {
    hide Near, ReceiverInput;
    var init, f := d[..|d| - 1], d[|d| - 1];
    var c := InputFrames(cb, init);
    InputFramesInv(cb, init);
    assert d == init + [f];
    if Carries(init, x) {
      SegmentAmongFrames(cb, init, x);
      ReceiverInputInv(cb.cfg.rcvWnd, c.rcv, f);
      AcksStay(cb.cfg.rcvWnd, c.rcv, f);
    } else {
      assert f.cmd == CMD_PUSH && f.sn == x;
      LastIsSegment(cb, c, f);
    }
  }

  lemma LastIsSegment(cb: Cb, c: Cb, f: Frame)
    requires Inv(cb) && Inv(c) && c.cfg == cb.cfg
    requires c.rcv.nxt >= cb.rcv.nxt && Taken(c.rcv) == Taken(cb.rcv)
    requires f.cmd == CMD_PUSH && Taken(cb.rcv) + 2 * cb.cfg.rcvWnd - HALF <= f.sn <= cb.rcv.nxt
    ensures Noticed(cb, f.sn, InputFrame(c, f).rcv)
  {
    hide Near, ReceiverInput;
    var wnd := c.cfg.rcvWnd;
    ReceiverInputInv(wnd, c.rcv, f);
    NearExact(c.rcv.nxt + wnd, f.sn);
    PushAcks(wnd, c.rcv, f);
    if c.rcv.nxt == f.sn && |cb.rcv.queue| < wnd {
      HeadMoves(wnd, c.rcv, f);
    }
  }

  /** One delivery of a segment up to the one an endpoint waits for leaves it something
      to acknowledge, and if it is that one, moves `rcv_nxt`. */
  lemma HeadArrives(n: Node, p: Node, out: Wires, inbox: Wires, d: seq<Frame>, x: int)
    requires Pair(n, p, out, inbox) && d in inbox && Fresh(n.cb, d)
    requires Carries(d, x) && x <= n.cb.rcv.nxt
    ensures Noticed(n.cb, x, NodeStep(n, Deliver(d)).0.cb.rcv)
  {
    assert WireOk(p.log, p.cb.rcv, d);
    DeliverIs(n.cb, d);
    SegmentAmongFrames(n.cb, d, x);
  }

  /** A receiver that has room is not behind its sender: what has been released has
      arrived and moved up. */
  lemma NotBehind(swnd: nat, mss: nat, s: Sender, wnd: nat, r: Receiver)
    requires SenderInv(swnd, mss, s) && ReceiverInv(wnd, r) && Kept(s, r) && |r.queue| < wnd
    ensures r.nxt >= s.una
  {
    if r.nxt < s.una {
      assert r.nxt !in Sns(s.buf);
      assert Received(r, r.nxt);
      FrontIsHead(wnd, r);
    }
  }

  /** Until `snd_una` reaches it, every frame's `una` is honoured. */
  lemma {:induction false} UnaAmongFrames(n: Node, p: Node, d: seq<Frame>)
    requires NodeInv(n) && NodeInv(p) && Flow(n, p) && Flow(p, n) && d != []
    requires forall f :: f in d ==> PushOk(p.log, f) && BackOk(p.cb.rcv, f)
    requires Fresh(n.cb, d)
    ensures InputFrames(n.cb, d).snd.una >= d[|d| - 1].una
  {
    var init, f := d[..|d| - 1], d[|d| - 1];
    assert f in d && d == init + [f];
    DatagramFrames(n, p, init);
    InputFramesInv(n.cb, init);
    var c := InputFrames(n.cb, init);
    UnaHonoured(c.cfg, c.snd, f);
  }

  lemma UnaHonoured(cfg: Config, s: Sender, f: Frame)
    requires cfg.Valid() && SenderInv(cfg.sndWnd, cfg.Mss(), s)
    requires s.nxt - HALF <= f.una <= s.nxt
    ensures SenderInput(s, f).una >= f.una
  {
    hide Near, Remove, DropBelow;
    NearExact(s.una, f.una);
    ParseUnaInv(cfg.sndWnd, cfg.Mss(), s, Wrap(f.una));
    var s1 := ParseUna(s, Wrap(f.una));
    HeadAtLeast(s1, f.una);
    ParseAckInv(cfg.sndWnd, cfg.Mss(), s1, Wrap(f.sn));
  }

  lemma HeadAtLeast(s: Sender, una: int)
    requires s.una == Shrink(s).una && una <= s.nxt && forall x :: x in s.buf ==> x.sn >= una
    ensures s.una >= una
  {
    if s.buf != [] {
      assert s.buf[0] in s.buf;
    }
  }

  /** One delivery of any datagram sent since releases everything below the `una` it
      carries. */
  lemma AnswerReleases(n: Node, p: Node, out: Wires, inbox: Wires, d: seq<Frame>)
    requires Pair(n, p, out, inbox) && d in inbox && Fresh(n.cb, d)
    ensures d != [] && NodeStep(n, Deliver(d)).0.cb.snd.una >= d[0].una
  {
    assert WireOk(p.log, p.cb.rcv, d) && d[0] in d && d[|d| - 1] in d;
    DeliverIs(n.cb, d);
    UnaAmongFrames(n, p, d);
    var c := InputFrames(n.cb, d);
    if MaxAck(d).Some? {
      hide ParseFastack;
      InputFramesInv(n.cb, d);
      ParseFastackInv(c.cfg.sndWnd, c.cfg.Mss(), c.snd, MaxAck(d).value);
    }
  }

  /** A flush with acks pending sends a datagram, and all it sends carries `rcv_nxt`. */
  lemma FlushAnswers(cb: Cb)
    requires Inv(cb) && cb.ctl.updated && cb.rcv.acks != []
    ensures Datagrams(cb.cfg.mtu, Output(cb)) != []
    ensures forall g: seq<Frame> :: g in Datagrams(cb.cfg.mtu, Output(cb)) ==> g != [] && g[0].una == cb.rcv.nxt
  {
    OutputFits(cb);
    DatagramsSound(cb.cfg.mtu, Output(cb));
    var groups := Datagrams(cb.cfg.mtu, Output(cb));
    assert Output(cb)[0] == AckFrames(cb, |cb.rcv.acks|)[0];
    assert groups == [] ==> Flatten(groups) == [];
    forall g: seq<Frame> | g in groups ensures g != [] && g[0].una == cb.rcv.nxt {
      assert Datagram(cb.cfg.mtu, g) && g[0] in g;
      FlattenMember(groups, g, g[0]);
      StampedWithNext(cb, g[0]);
    }
  }

  lemma StampedWithNext(cb: Cb, f: Frame)
    requires cb.cfg.Valid() && f in Output(cb)
    ensures f.una == cb.rcv.nxt
  {
    if f in PushFrames(SweepOf(cb), Admitted(cb).buf) {
      PushFramesFrom(SweepOf(cb), Admitted(cb).buf, f);
    }
  }

  /** A flush when the oldest segment in flight is due sends it. */
  lemma FlushSendsHead(cb: Cb)
    requires Inv(cb) && cb.ctl.updated
    requires Admitted(cb).buf != [] && !DueOf(SweepOf(cb), Admitted(cb).buf[0]).NotDue?
    ensures exists g :: g in Datagrams(cb.cfg.mtu, Output(cb)) && Carries(g, cb.snd.una)
  {
    var w, s := SweepOf(cb), Admitted(cb);
    AdmittedInv(cb);
    DueIsSent(w, s.buf, 0);
    var f := FrameOf(Swept(w, s.buf[0]));
    assert f in PushFrames(w, s.buf) && f in Output(cb);
    OutputFits(cb);
    DatagramsSound(cb.cfg.mtu, Output(cb));
    var g := FlattenSource(Datagrams(cb.cfg.mtu, Output(cb)), f);
    assert f.cmd == CMD_PUSH && f.sn == cb.snd.una;
    assert Carries(g, cb.snd.una);
  }

  lemma {:induction false} FlattenSource(groups: seq<seq<Frame>>, f: Frame) returns (g: seq<Frame>)
    requires f in Flatten(groups)
    ensures g in groups && f in g
  {
    var init, last := groups[..|groups| - 1], groups[|groups| - 1];
    if f in last {
      g := last;
    } else {
      g := FlattenSource(init, f);
    }
  }

  /** Input does not stop the timer. */
  lemma {:induction false} FramesKeepUpdated(cb: Cb, fs: seq<Frame>)
    ensures InputFrames(cb, fs).ctl.updated == cb.ctl.updated
  {
    if fs != [] {
      FramesKeepUpdated(cb, fs[..|fs| - 1]);
    }
  }

  lemma InputKeepsUpdated(cb: Cb, b: seq<u8>)
    requires cb.cfg.Valid()
    ensures Input(cb, b).0.ctl.updated == cb.ctl.updated
  {
    hide Grow;
    FramesKeepUpdated(cb, Parse(cb.cfg.conv, b).0);
    GrowBounded(cb.cfg, InputFrames(cb, Parse(cb.cfg.conv, b).0).ctl);
  }

  /** A loss-free round trip moves the window. Endpoint `n` flushes; `p`, which has room
      or is already ahead, gets the datagram `d` with the oldest segment `n` has in
      flight, for the first time or again, and flushes; then there is something in that
      flush, and when `n` gets any of it, `snd_una` has moved on: whatever else was lost,
      and even if every ack was dropped. */
  lemma RoundTripAdvances(n: Node, p: Node, out: Wires, inbox: Wires, d: seq<Frame>)
    requires Pair(n, p, out, inbox) && n.cb.ctl.updated && p.cb.ctl.updated
    requires |p.cb.rcv.queue| < p.cb.cfg.rcvWnd || p.cb.rcv.nxt > n.cb.snd.una
    requires d in Datagrams(n.cb.cfg.mtu, Output(n.cb)) && Carries(d, n.cb.snd.una) && Fresh(p.cb, d)
    ensures var p1 := NodeStep(p, Deliver(d)).0;
            && Datagrams(p1.cb.cfg.mtu, Output(p1.cb)) != []
            && forall e :: e in Datagrams(p1.cb.cfg.mtu, Output(p1.cb)) && Fresh(Flushed(n).cb, e) ==>
                 NodeStep(Flushed(n), Deliver(e)).0.cb.snd.una > n.cb.snd.una
  {
    hide Output, Datagrams, NodeStep, Flushed, Carries, Noticed;
    var groups := Datagrams(n.cb.cfg.mtu, Output(n.cb));
    var n1, sent := Flushed(n), Added(out, groups);
    FlushStep(n, p, out, inbox);
    FlushKeeps(n);
    PairFlipped(n1, p, sent, inbox);
    HeadReaches(n, p, n1, inbox, sent, out, d);
    DeliverStep(p, n1, inbox, sent, d);
    DeliveredUpdated(p, d);
    var p1 := NodeStep(p, Deliver(d)).0;
    FlushAnswers(p1.cb);
    var answers := Added(inbox, Datagrams(p1.cb.cfg.mtu, Output(p1.cb)));
    FlushStep(p1, n1, inbox, sent);
    PairFlipped(Flushed(p1), n1, answers, sent);
    forall e | e in Datagrams(p1.cb.cfg.mtu, Output(p1.cb)) && Fresh(n1.cb, e)
      ensures NodeStep(n1, Deliver(e)).0.cb.snd.una > n.cb.snd.una
    {
      AnswerReleases(n1, Flushed(p1), sent, answers, e);
    }
  }

  /** The receiver ends beyond the oldest segment in flight, whether that is new to it
      or repeated. */
  lemma HeadReaches(n: Node, p: Node, n1: Node, inbox: Wires, sent: Wires, out: Wires, d: seq<Frame>)
    requires Pair(n, p, out, inbox) && Pair(p, n1, inbox, sent) && d in sent && Fresh(p.cb, d)
    requires |p.cb.rcv.queue| < p.cb.cfg.rcvWnd || p.cb.rcv.nxt > n.cb.snd.una
    requires Carries(d, n.cb.snd.una)
    ensures NodeStep(p, Deliver(d)).0.cb.rcv.nxt > n.cb.snd.una && NodeStep(p, Deliver(d)).0.cb.rcv.acks != []
  {
    hide NodeStep, Carries, SenderInv, ReceiverInv, Kept;
    if |p.cb.rcv.queue| < p.cb.cfg.rcvWnd {
      NotBehind(n.cb.cfg.sndWnd, n.cb.cfg.Mss(), n.cb.snd, p.cb.cfg.rcvWnd, p.cb.rcv);
    }
    HeadArrives(p, n1, inbox, sent, d, n.cb.snd.una);
  }

  lemma DeliveredUpdated(p: Node, d: seq<Frame>)
    requires p.cb.cfg.Valid()
    ensures NodeStep(p, Deliver(d)).0.cb.ctl.updated == p.cb.ctl.updated
  {
    InputKeepsUpdated(p.cb, EncodeAll(p.cb.cfg.conv, d));
  }

  lemma FlushKeeps(n: Node)
    requires Inv(n.cb)
    ensures Flushed(n).cb.snd.una == n.cb.snd.una && Flushed(n).cb.cfg == n.cb.cfg
  {
    FlushInv(n.cb);
  }

  lemma PairFlipped(n: Node, p: Node, out: Wires, inbox: Wires)
    requires Pair(n, p, out, inbox)
    ensures Pair(p, n, inbox, out)
  {
  }
}
