/**
 Whole runs of two endpoints, and what holds after every one of them.
 */
module KcpRuns {
  import opened U32
  import opened KcpCodec
  import opened KcpModel
  import opened KcpInvariants
  import opened KcpControl
  import opened KcpProtocol
  import opened KcpMessages

  /** Two endpoints and every datagram each has ever sent to the other. */
  datatype Sys = Sys(a: Node, b: Node, ab: Wires, ba: Wires)

  datatype Move = Move(byA: bool, step: Step)

  function Start(cfg: Config): Node {
    Node(Create(cfg), [], [], [], [])
  }

  function Initial(ca: Config, cb: Config): Sys {
    Sys(Start(ca), Start(cb), {}, {})
  }

  ghost predicate CanMove(s: Sys, m: Move) {
    if m.byA then Enabled(s.a, s.ba, m.step) else Enabled(s.b, s.ab, m.step)
  }

  ghost function Next(s: Sys, m: Move): Sys
    requires s.a.cb.cfg.Valid() && s.b.cb.cfg.Valid()
  {
    if m.byA then
      var r := NodeStep(s.a, m.step); s.(a := r.0, ab := Added(s.ab, r.1))
    else
      var r := NodeStep(s.b, m.step); s.(b := r.0, ba := Added(s.ba, r.1))
  }

  /** The states a run passes through: each but the first follows from the one
      before by a move that was possible there. */
  ghost predicate Run(states: seq<Sys>, moves: seq<Move>) {
    && |states| == |moves| + 1
    && (exists ca: Config, cb: Config :: ca.Valid() && cb.Valid() && ca.conv == cb.conv && states[0] == Initial(ca, cb))
    && forall i :: 0 <= i < |moves| ==>
         && states[i].a.cb.cfg.Valid() && states[i].b.cb.cfg.Valid()
         && CanMove(states[i], moves[i])
         && states[i + 1] == Next(states[i], moves[i])
  }

  ghost predicate SysInv(s: Sys) {
    && Pair(s.a, s.b, s.ab, s.ba) && MsgFlow(s.a, s.b) && MsgFlow(s.b, s.a)
    && Controlled(s.a.cb) && Controlled(s.b.cb)
  }

  ghost predicate Controlled(cb: Cb) {
    ControlInv(cb.cfg, cb.ctl)
  }

  lemma StepControl(n: Node, step: Step)
    requires n.cb.cfg.Valid() && Controlled(n.cb)
    ensures Controlled(NodeStep(n, step).0.cb)
  {
    hide Update, Input;
    match step
    case Tick(now) => UpdateKeepsConfig(n.cb, now); UpdateControl(n.cb, now);
    case Deliver(d) => InputKeepsConfig(n.cb, EncodeAll(n.cb.cfg.conv, d)); InputControl(n.cb, EncodeAll(n.cb.cfg.conv, d));
    case _ =>
  }

  lemma UpdateKeepsConfig(cb: Cb, now: u32)
    requires cb.cfg.Valid()
    ensures Update(cb, now).0.cfg == cb.cfg
  {
  }

  lemma InputKeepsConfig(cb: Cb, b: seq<u8>)
    requires cb.cfg.Valid()
    ensures Input(cb, b).0.cfg == cb.cfg
  {
  }

  lemma PairFlip(n: Node, p: Node, out: Wires, inbox: Wires)
    requires Pair(n, p, out, inbox)
    ensures Pair(p, n, inbox, out)
  {
  }

  lemma NextInv(s: Sys, m: Move)
    requires SysInv(s) && CanMove(s, m)
    ensures SysInv(Next(s, m))
  {
    hide NodeStep, ControlInv;
    if m.byA {
      StepControl(s.a, m.step);
      PairStep(s.a, s.b, s.ab, s.ba, m.step);
      StepMessages(s.a, s.b, s.ab, s.ba, m.step);
    } else {
      StepControl(s.b, m.step);
      PairFlip(s.a, s.b, s.ab, s.ba);
      PairStep(s.b, s.a, s.ba, s.ab, m.step);
      StepMessages(s.b, s.a, s.ba, s.ab, m.step);
      var r := NodeStep(s.b, m.step);
      PairFlip(r.0, s.a, Added(s.ba, r.1), s.ab);
    }
  }

  lemma InitialInv(ca: Config, cb: Config)
    requires ca.Valid() && cb.Valid() && ca.conv == cb.conv
    ensures SysInv(Initial(ca, cb))
  {
    CreateInv(ca);
    CreateInv(cb);
    CreateControl(ca);
    CreateControl(cb);
  }

  lemma {:induction false} RunInv(states: seq<Sys>, moves: seq<Move>, i: nat)
    requires Run(states, moves) && i < |states|
    ensures SysInv(states[i])
  {
    if i == 0 {
      var ca: Config, cb: Config :| ca.Valid() && cb.Valid() && ca.conv == cb.conv && states[0] == Initial(ca, cb);
      InitialInv(ca, cb);
    } else {
      RunInv(states, moves, i - 1);
      assert CanMove(states[i - 1], moves[i - 1]);
      NextInv(states[i - 1], moves[i - 1]);
    }
  }

  // ------------------------------------------------------------ the theorems

  function Joined(pieces: seq<Piece>): seq<u8> {
    if pieces == [] then [] else Joined(pieces[..|pieces| - 1]) + pieces[|pieces| - 1].data
  }

  /** Segment `i` is in the list, with its payload intact. */
  ghost predicate Holds(segs: seq<Seg>, i: int, p: Piece) {
    exists x :: x in segs && x.sn == i && PieceOf(x) == p
  }

  /** Sender to receiver: the stream is intact, nothing is released early, and
      messages keep their boundaries. */
  ghost predicate Reliable(s: Node, r: Node) {
    // What was read, then what waits, is the sender's first rcv_nxt segments.
    && 0 <= r.cb.rcv.nxt <= |s.log| == s.cb.snd.nxt
    && r.taken + Pieces(r.cb.rcv.queue) == s.log[..r.cb.rcv.nxt]
    && Joined(r.taken) + Bytes(r.cb.rcv.queue) == Joined(s.log[..r.cb.rcv.nxt])
    // Every numbered segment is still held by one side.
    && (forall i :: 0 <= i < s.cb.snd.nxt ==>
          Holds(s.cb.snd.buf, i, s.log[i]) || i < r.cb.rcv.nxt || Holds(r.cb.rcv.buf, i, s.log[i]))
    // Messages come out as they went in.
    && r.returned <= s.accepted
    // A full receive queue can be read.
    && (|r.cb.rcv.queue| >= r.cb.cfg.rcvWnd ==> PeekSize(r.cb.rcv.queue) >= 0)
    // The endpoint is never declared broken.
    && r.cb.ctl.state != STATE_BROKEN
  }

  lemma {:induction false} JoinedPieces(pre: seq<Piece>, segs: seq<Seg>)
    ensures Joined(pre + Pieces(segs)) == Joined(pre) + Bytes(segs)
  {
    if segs == [] {
      assert pre + Pieces(segs) == pre;
    } else {
      var init, s := segs[..|segs| - 1], segs[|segs| - 1];
      var all := pre + Pieces(segs);
      assert all[..|all| - 1] == pre + Pieces(init);
      JoinedPieces(pre, init);
      SumAssociative(Joined(pre), Bytes(init), s.data);
    }
  }

  lemma StillHeld(s: Node, r: Node, i: nat)
    requires Flow(s, r) && i < s.cb.snd.nxt
    ensures Holds(s.cb.snd.buf, i, s.log[i]) || i < r.cb.rcv.nxt || Holds(r.cb.rcv.buf, i, s.log[i])
  {
    if i in Sns(s.cb.snd.buf) {
      var x :| x in s.cb.snd.buf && x.sn == i;
    } else if i in Sns(r.cb.rcv.buf) {
      var x :| x in r.cb.rcv.buf && x.sn == i;
    }
  }

  lemma FlowReliable(s: Node, r: Node)
    requires NodeInv(s) && NodeInv(r) && Flow(s, r) && MsgFlow(s, r)
    ensures Reliable(s, r)
  {
    JoinedPieces(r.taken, r.cb.rcv.queue);
    if |r.cb.rcv.queue| >= r.cb.cfg.rcvWnd {
      FullQueueIsReadable(s, r);
    }
    forall i | 0 <= i < s.cb.snd.nxt
      ensures Holds(s.cb.snd.buf, i, s.log[i]) || i < r.cb.rcv.nxt || Holds(r.cb.rcv.buf, i, s.log[i])
    {
      StillHeld(s, r, i);
    }
  }

  /** After every step of every run, in both directions: bytes read followed by
      bytes waiting are a prefix of the bytes sent, no unacknowledged segment has
      been let go, messages arrive whole and in order, a full window is readable
      and no endpoint has been declared broken; and at both ends the lists stay
      within their windows and the timers within their bounds. */
  lemma EveryRunIsReliable(states: seq<Sys>, moves: seq<Move>, i: nat)
    requires Run(states, moves) && i < |states|
    ensures Reliable(states[i].a, states[i].b) && Reliable(states[i].b, states[i].a)
    ensures Inv(states[i].a.cb) && Inv(states[i].b.cb)
    ensures Bounded(states[i].a.cb) && Bounded(states[i].b.cb)
    ensures Controlled(states[i].a.cb) && Controlled(states[i].b.cb)
  {
    hide Reliable, Bounded, Controlled;
    RunInv(states, moves, i);
    InvBounds(states[i].a.cb);
    InvBounds(states[i].b.cb);
    FlowReliable(states[i].a, states[i].b);
    FlowReliable(states[i].b, states[i].a);
  }
}
