/**
 Message boundaries: what one `ikcp_send` accepted is what one `ikcp_recv` returns.
 */
module KcpMessages {
  import opened U32
  import opened KcpCodec
  import opened KcpModel
  import opened KcpInvariants
  import opened KcpProtocol
  import Arith

  // ----------------------------------------------------------- one message

  lemma {:induction false} BytesCons(s: Seg, segs: seq<Seg>)
    ensures Bytes([s] + segs) == s.data + Bytes(segs)
  {
    var all := [s] + segs;
    if segs == [] {
      assert Bytes(all[..0]) == [];
    } else {
      assert all[..|all| - 1] == [s] + segs[..|segs| - 1];
      BytesCons(s, segs[..|segs| - 1]);
    }
  }

  /** The pieces count down to 0, hold at most `mss` bytes each, all but the last
      exactly `mss`, and joined they are the message. */
  lemma {:induction false} SplitShape(mss: nat, msg: seq<u8>)
    requires mss > 0 && FragCount(mss, |msg|) <= 0x100
    ensures |Split(mss, msg)| == FragCount(mss, |msg|)
    ensures forall i :: 0 <= i < |Split(mss, msg)| ==>
              var s := Split(mss, msg)[i];
              s.frg as int == |Split(mss, msg)| - 1 - i
              && |s.data| <= mss && (s.frg > 0 ==> |s.data| == mss)
    ensures Bytes(Split(mss, msg)) == msg
    decreases |msg|
  {
    if |msg| > mss {
      SplitShape(mss, msg[mss..]);
      BytesCons(FreshSeg(FragCount(mss, |msg|) - 1, msg[..mss]), Split(mss, msg[mss..]));
    } else {
      BytesCons(FreshSeg(0, msg), []);
    }
  }

  /** The count is the ceiling of `len / mss`, and 1 for an empty message: at most
      `n` segments are needed exactly when `n` full ones would hold the bytes. */
  lemma {:induction false} FragCountIsCeiling(mss: nat, len: nat, n: nat)
    requires mss > 0 && n > 0
    ensures FragCount(mss, len) <= n <==> len <= n * mss
  {
    assert n * mss == (n - 1) * mss + mss;
    if len > mss {
      if n == 1 {
        assert (n - 1) * mss == 0;
      } else {
        FragCountIsCeiling(mss, len - mss, n - 1);
      }
    } else {
      Arith.MulAtLeast(n, mss);
    }
  }

  /** `ikcp_send` refuses exactly the messages that need 128 segments or more,
      and then changes nothing. */
  lemma SendRefusesExactly(cfg: Config, s: Sender, msg: seq<u8>)
    requires cfg.Valid()
    ensures Send(cfg, s, msg).1 < 0 <==> |msg| > (WND_RCV - 1) * cfg.Mss()
    ensures Send(cfg, s, msg).1 < 0 ==> Send(cfg, s, msg) == (s, -2)
    ensures Send(cfg, s, msg).1 >= 0 ==> Send(cfg, s, msg).1 == |msg|
  {
    FragCountIsCeiling(cfg.Mss(), |msg|, WND_RCV - 1);
  }

  /** A queue that starts with a complete countdown is read up to its end. */
  lemma {:induction false} FirstMessageOf(q: seq<Seg>, c: nat)
    requires 0 < c <= |q|
    requires forall i :: 0 <= i < c ==> q[i].frg as int == c - 1 - i
    ensures FirstMessage(q) == c
  {
    if c > 1 {
      FirstMessageOf(q[1..], c - 1);
    }
  }

  lemma {:induction false} BytesOfPieces(a: seq<Seg>, b: seq<Seg>)
    requires Pieces(a) == Pieces(b)
    ensures Bytes(a) == Bytes(b)
  {
    assert |a| == |Pieces(a)| == |Pieces(b)| == |b|;
    if a != [] {
      var n := |a| - 1;
      assert Pieces(a[..n]) == Pieces(a)[..n] == Pieces(b)[..n] == Pieces(b[..n]);
      BytesOfPieces(a[..n], b[..n]);
      assert PieceOf(a[n]) == Pieces(a)[n] == Pieces(b)[n] == PieceOf(b[n]);
    }
  }

  // ---------------------------------------------------------- many messages

  ghost predicate Sized(mss: nat, msgs: seq<seq<u8>>) {
    mss > 0 && forall m :: m in msgs ==> FragCount(mss, |m|) < WND_RCV
  }

  ghost function Fragments(mss: nat, msgs: seq<seq<u8>>): seq<Piece>
    requires Sized(mss, msgs)
  {
    if msgs == [] then []
    else
      assert msgs[|msgs| - 1] in msgs && forall m :: m in msgs[..|msgs| - 1] ==> m in msgs;
      Fragments(mss, msgs[..|msgs| - 1]) + Pieces(Split(mss, msgs[|msgs| - 1]))
  }

  lemma FragmentsSnoc(mss: nat, msgs: seq<seq<u8>>, m: seq<u8>)
    requires Sized(mss, msgs) && FragCount(mss, |m|) < WND_RCV
    ensures Sized(mss, msgs + [m])
    ensures Fragments(mss, msgs + [m]) == Fragments(mss, msgs) + Pieces(Split(mss, m))
  {
    assert (msgs + [m])[..|msgs|] == msgs;
  }

  lemma {:induction false} FragmentsPrefix(mss: nat, msgs: seq<seq<u8>>, j: nat)
    requires Sized(mss, msgs) && j <= |msgs|
    ensures Sized(mss, msgs[..j])
    ensures Fragments(mss, msgs[..j]) <= Fragments(mss, msgs)
  {
    if j == |msgs| {
      assert msgs[..j] == msgs;
    } else {
      assert forall m :: m in msgs[..|msgs| - 1] ==> m in msgs;
      assert msgs[..|msgs| - 1][..j] == msgs[..j];
      FragmentsPrefix(mss, msgs[..|msgs| - 1], j);
    }
  }

  /** The numbered segments followed by the queued ones are the fragments of the
      accepted messages. */
  ghost predicate SentOk(mss: nat, accepted: seq<seq<u8>>, log: seq<Piece>, queue: seq<Seg>) {
    Sized(mss, accepted) && log + Pieces(queue) == Fragments(mss, accepted)
  }

  /** The messages returned are a prefix of those accepted, and the segments taken
      out are their fragments. */
  ghost predicate TakenOk(mss: nat, accepted: seq<seq<u8>>, returned: seq<seq<u8>>, taken: seq<Piece>) {
    && Sized(mss, accepted) && Sized(mss, returned)
    && returned <= accepted
    && taken == Fragments(mss, returned)
  }

  ghost predicate MsgFlow(s: Node, r: Node) {
    && s.cb.cfg.Valid()
    && SentOk(s.cb.cfg.Mss(), s.accepted, s.log, s.cb.snd.queue)
    && TakenOk(s.cb.cfg.Mss(), s.accepted, r.returned, r.taken)
  }

  /** What follows the fragments of the messages returned so far are those of the
      next message. */
  lemma NextFragments(mss: nat, accepted: seq<seq<u8>>, returned: seq<seq<u8>>, taken: seq<Piece>, q: seq<Piece>)
    returns (m: seq<u8>)
    requires TakenOk(mss, accepted, returned, taken)
    requires taken + q <= Fragments(mss, accepted) && q != []
    ensures |returned| < |accepted| && m == accepted[|returned|]
    ensures FragCount(mss, |m|) < WND_RCV
    ensures Pieces(Split(mss, m)) <= q || q <= Pieces(Split(mss, m))
  {
    var j, all := |returned|, Fragments(mss, accepted);
    assert returned == accepted[..j];
    assert |taken + q| > |taken|;
    assert returned != accepted;
    m := accepted[j];
    assert m in accepted;
    FragmentsPrefix(mss, accepted, j + 1);
    assert accepted[..j + 1] == returned + [m];
    FragmentsSnoc(mss, returned, m);
    PrefixesCompare(taken, Pieces(Split(mss, m)), q, all);
  }

  /** What waits in `rcv_queue` starts with the fragments of the next message. */
  lemma NextMessage(s: Node, r: Node) returns (m: seq<u8>)
    requires MsgFlow(s, r) && RecvSide(s.log, r.taken, r.cb.rcv)
    requires r.cb.rcv.queue != []
    ensures |r.returned| < |s.accepted| && m == s.accepted[|r.returned|]
    ensures FragCount(s.cb.cfg.Mss(), |m|) < WND_RCV
    ensures var q := Pieces(r.cb.rcv.queue); var sp := Pieces(Split(s.cb.cfg.Mss(), m));
            sp <= q || q <= sp
  {
    var q := Pieces(r.cb.rcv.queue);
    assert r.taken + q <= s.log <= s.log + Pieces(s.cb.snd.queue);
    m := NextFragments(s.cb.cfg.Mss(), s.accepted, r.returned, r.taken, q);
  }

  lemma PrefixesCompare<T>(base: seq<T>, a: seq<T>, b: seq<T>, all: seq<T>)
    requires base + a <= all && base + b <= all
    ensures a <= b || b <= a
  {
    assert forall i :: 0 <= i < |a| ==> a[i] == all[|base| + i];
    assert forall i :: 0 <= i < |b| ==> b[i] == all[|base| + i];
  }

  /** The pieces of one message, or the first of them. */
  ghost predicate Countdown(sp: seq<Seg>) {
    sp != [] && forall i :: 0 <= i < |sp| ==> sp[i].frg as int == |sp| - 1 - i
  }

  lemma SplitCountdown(mss: nat, m: seq<u8>)
    requires mss > 0 && FragCount(mss, |m|) <= 0x100
    ensures Countdown(Split(mss, m)) && Bytes(Split(mss, m)) == m && |Split(mss, m)| == FragCount(mss, |m|)
  {
    hide Split, Bytes;
    SplitShape(mss, m);
  }

  lemma SamePieces(q: seq<Seg>, sp: seq<Seg>, i: nat)
    requires (Pieces(sp) <= Pieces(q) || Pieces(q) <= Pieces(sp)) && i < |q| && i < |sp|
    ensures PieceOf(q[i]) == PieceOf(sp[i])
  {
    assert Pieces(q)[i] == Pieces(sp)[i];
  }

  /** A queue whose peek succeeds, or that is long, holds the whole of a message it
      starts with. */
  lemma WholeMessage(q: seq<Seg>, sp: seq<Seg>)
    requires (Pieces(sp) <= Pieces(q) || Pieces(q) <= Pieces(sp)) && q != [] && Countdown(sp)
    ensures PeekSize(q) >= 0 <==> |sp| <= |q|
  {
    hide Pieces, Bytes, FirstMessage;
    SamePieces(q, sp, 0);
  }

  lemma {:induction false} PeekOf(q: seq<Seg>, sp: seq<Seg>)
    requires Pieces(sp) <= Pieces(q) && Countdown(sp)
    ensures |sp| <= |q| && FirstMessage(q) == |sp| && Pieces(q[..|sp|]) == Pieces(sp)
    ensures Bytes(q[..|sp|]) == Bytes(sp) && PeekSize(q) == |Bytes(sp)|
  {
    hide FirstMessage, Bytes;
    assert |sp| <= |q|;
    forall i | 0 <= i < |sp| ensures PieceOf(q[i]) == PieceOf(sp[i]) {
      SamePieces(q, sp, i);
    }
    assert Pieces(q[..|sp|]) == Pieces(sp);
    FirstMessageOf(q, |sp|);
    BytesOfPieces(q[..|sp|], sp);
    if q[0].frg == 0 {
      assert q[..1] == [q[0]] + [];
      BytesCons(q[0], []);
      NoBytes();
    }
  }

  lemma NoBytes()
    ensures Bytes([]) == []
  {
  }

  /** A successful peek sees the whole next message, and `ikcp_recv` would copy
      out exactly it. */
  lemma PeekSeesMessage(s: Node, r: Node) returns (m: seq<u8>)
    requires MsgFlow(s, r) && RecvSide(s.log, r.taken, r.cb.rcv)
    requires PeekSize(r.cb.rcv.queue) >= 0
    ensures |r.returned| < |s.accepted| && m == s.accepted[|r.returned|]
    ensures FragCount(s.cb.cfg.Mss(), |m|) < WND_RCV
    ensures var q := r.cb.rcv.queue; var n := FirstMessage(q);
            Pieces(q[..n]) == Pieces(Split(s.cb.cfg.Mss(), m)) && Bytes(q[..n]) == m
            && PeekSize(q) == |m|
  {
    hide Pieces, Split, Bytes, FirstMessage, Countdown, RecvSide, FragCount;
    var q, mss := r.cb.rcv.queue, s.cb.cfg.Mss();
    m := NextMessage(s, r);
    SplitCountdown(mss, m);
    WholeMessage(q, Split(mss, m));
    PeekOf(q, Split(mss, m));
  }

  /** A full receive queue always holds a complete message, so a reader with a
      large enough buffer can always make room: the window cannot wedge. */
  lemma FullQueueIsReadable(s: Node, r: Node)
    requires MsgFlow(s, r) && RecvSide(s.log, r.taken, r.cb.rcv)
    requires r.cb.cfg.Valid() && |r.cb.rcv.queue| >= r.cb.cfg.rcvWnd
    ensures 0 <= PeekSize(r.cb.rcv.queue)
    ensures forall len :: len >= PeekSize(r.cb.rcv.queue) ==>
              Recv(r.cb.cfg.rcvWnd, r.cb.rcv, len).1 == PeekSize(r.cb.rcv.queue)
              && Recv(r.cb.cfg.rcvWnd, r.cb.rcv, len).0.nxt - |Recv(r.cb.cfg.rcvWnd, r.cb.rcv, len).0.queue| > Taken(r.cb.rcv)
  {
    hide Pieces, Split, Bytes, FirstMessage, Countdown, RecvSide, FragCount, PeekSize, MoveReady;
    var q, mss := r.cb.rcv.queue, s.cb.cfg.Mss();
    var m := NextMessage(s, r);
    SplitCountdown(mss, m);
    WholeMessage(q, Split(mss, m));
    var _ := PeekSeesMessage(s, r);
    forall len | len >= PeekSize(q)
      ensures Recv(r.cb.cfg.rcvWnd, r.cb.rcv, len).1 == PeekSize(q)
      ensures Taken(Recv(r.cb.cfg.rcvWnd, r.cb.rcv, len).0) > Taken(r.cb.rcv)
    {
      var r1 := r.cb.rcv.(queue := q[FirstMessage(q)..]);
      MoveReadyTaken(r.cb.cfg.rcvWnd, r1);
    }
  }

  lemma {:induction false} MoveReadyTaken(wnd: nat, r: Receiver)
    ensures Taken(MoveReady(wnd, r)) == Taken(r)
    decreases |r.buf|
  {
    if r.buf != [] && r.buf[0].sn == r.nxt && |r.queue| < wnd {
      MoveReadyTaken(wnd, Receiver(r.nxt + 1, r.buf[1..], r.queue + [r.buf[0]], r.acks));
    }
  }

  /** What `ikcp_recv` returns: -1 with nothing there, -2 while the next message is not
      whole, -3 if it does not fit, and otherwise that message, of which it takes all the
      segments, or none when it only peeks. */
  lemma ReadsExactly(s: Node, r: Node, len: int)
    requires MsgFlow(s, r) && RecvSide(s.log, r.taken, r.cb.rcv)
    ensures var rcv, mss := r.cb.rcv, s.cb.cfg.Mss();
            var res := Recv(r.cb.cfg.rcvWnd, rcv, len);
            if rcv.queue == [] then res == (rcv, -1, [])
            else
              && |r.returned| < |s.accepted|
              && var m := s.accepted[|r.returned|];
                 if |rcv.queue| < FragCount(mss, |m|) then res == (rcv, -2, [])
                 else if |m| > Max(len, -len) then res == (rcv, -3, [])
                 else res.1 == |m| && res.2 == m
                      && Taken(res.0) == Taken(rcv) + if len < 0 then 0 else FragCount(mss, |m|)
  {
    hide Pieces, Split, Bytes, FirstMessage, Countdown, RecvSide, FragCount, PeekSize, MoveReady;
    var rcv, mss := r.cb.rcv, s.cb.cfg.Mss();
    if rcv.queue != [] {
      var m := NextMessage(s, r);
      SplitCountdown(mss, m);
      WholeMessage(rcv.queue, Split(mss, m));
      if |rcv.queue| >= FragCount(mss, |m|) {
        var n := FirstMessage(rcv.queue);
        var _ := PeekSeesMessage(s, r);
        ReadCount(rcv.queue, Split(mss, m));
        MoveReadyTaken(r.cb.cfg.rcvWnd, if len < 0 then rcv else rcv.(queue := rcv.queue[n..]));
      }
    }
  }

  lemma ReadCount(q: seq<Seg>, sp: seq<Seg>)
    requires (Pieces(sp) <= Pieces(q) || Pieces(q) <= Pieces(sp)) && Countdown(sp) && |sp| <= |q|
    ensures FirstMessage(q) == |sp|
  {
    hide Bytes, FirstMessage;
    assert |Pieces(q)| == |q| && |Pieces(sp)| == |sp|;
    assert Pieces(sp) <= Pieces(q);
    PeekOf(q, sp);
  }

  // --------------------------------------------------------------- the steps

  lemma ReturnMessage(mss: nat, accepted: seq<seq<u8>>, returned: seq<seq<u8>>, taken: seq<Piece>, m: seq<u8>)
    requires TakenOk(mss, accepted, returned, taken)
    requires |returned| < |accepted| && m == accepted[|returned|] && FragCount(mss, |m|) < WND_RCV
    ensures TakenOk(mss, accepted, returned + [m], taken + Pieces(Split(mss, m)))
  {
    FragmentsSnoc(mss, returned, m);
    assert returned + [m] == accepted[..|returned| + 1];
  }

  lemma TakeMessages(n: Node, p: Node, len: int)
    requires MsgFlow(n, p) && MsgFlow(p, n) && RecvSide(p.log, n.taken, n.cb.rcv)
    ensures MsgFlow(NodeStep(n, RecvMsg(len)).0, p) && MsgFlow(p, NodeStep(n, RecvMsg(len)).0)
  {
    hide Pieces, Split, Bytes, FirstMessage, PeekSize, MoveReady, Fragments, FragCount;
    var r := Recv(n.cb.cfg.rcvWnd, n.cb.rcv, len);
    if len >= 0 && r.1 >= 0 {
      var m := PeekSeesMessage(p, n);
      assert r.2 == m;
      ReturnMessage(p.cb.cfg.Mss(), p.accepted, n.returned, n.taken, m);
    }
  }

  lemma AcceptMessage(mss: nat, accepted: seq<seq<u8>>, log: seq<Piece>, queue: seq<Seg>, msg: seq<u8>)
    requires SentOk(mss, accepted, log, queue) && FragCount(mss, |msg|) < WND_RCV
    ensures SentOk(mss, accepted + [msg], log, queue + Split(mss, msg))
  {
    FragmentsSnoc(mss, accepted, msg);
    var more := Split(mss, msg);
    PiecesSum(queue, more);
    SumAssociative(log, Pieces(queue), Pieces(more));
  }

  lemma SendMessages(n: Node, p: Node, msg: seq<u8>)
    requires MsgFlow(n, p) && MsgFlow(p, n)
    ensures MsgFlow(NodeStep(n, SendMsg(msg)).0, p) && MsgFlow(p, NodeStep(n, SendMsg(msg)).0)
  {
    if FragCount(n.cb.cfg.Mss(), |msg|) < WND_RCV {
      AcceptMessage(n.cb.cfg.Mss(), n.accepted, n.log, n.cb.snd.queue, msg);
    }
  }

  /** Numbering moves pieces from the queue to the log and loses none. */
  lemma NumberMessages(mss: nat, accepted: seq<seq<u8>>, log: seq<Piece>, queue: seq<Seg>, k: nat)
    requires SentOk(mss, accepted, log, queue) && k <= |queue|
    ensures SentOk(mss, accepted, log + Pieces(queue[..k]), queue[k..])
  {
    PiecesSplit(queue, k);
    SumAssociative(log, Pieces(queue[..k]), Pieces(queue[k..]));
  }

  lemma UpdateNumbers(cb: Cb, now: u32) returns (k: nat)
    requires cb.cfg.Valid()
    ensures k <= |cb.snd.queue| && Update(cb, now).0.snd.queue == cb.snd.queue[k..]
    ensures Update(cb, now).0.snd.nxt == cb.snd.nxt + k && Update(cb, now).0.cfg == cb.cfg
  {
    var t := Ticked(cb, now);
    k := 0;
    if FlushDue(cb.ctl, now) && t.ctl.updated {
      k := AdmitEffect(t.snd, Window(t.cfg, t.ctl), SweepOf(t));
    }
  }

  lemma TickMessages(n: Node, p: Node, now: u32)
    requires MsgFlow(n, p) && MsgFlow(p, n)
    ensures MsgFlow(NodeStep(n, Tick(now)).0, p) && MsgFlow(p, NodeStep(n, Tick(now)).0)
  {
    hide Update, Datagrams, Fragments;
    var k := UpdateNumbers(n.cb, now);
    NumberMessages(n.cb.cfg.Mss(), n.accepted, n.log, n.cb.snd.queue, k);
  }

  lemma DeliverQueue(cb: Cb, d: seq<Frame>)
    requires Inv(cb) && WellFormed(d)
    ensures Input(cb, EncodeAll(cb.cfg.conv, d)).0.cfg == cb.cfg
    ensures Input(cb, EncodeAll(cb.cfg.conv, d)).0.snd.queue == cb.snd.queue
  {
    DeliverIs(cb, d);
    InputFramesInv(cb, d);
  }

  lemma DeliverMessages(n: Node, p: Node, d: seq<Frame>)
    requires MsgFlow(n, p) && MsgFlow(p, n) && Inv(n.cb) && WellFormed(d)
    ensures MsgFlow(NodeStep(n, Deliver(d)).0, p) && MsgFlow(p, NodeStep(n, Deliver(d)).0)
  {
    hide Input, Fragments, Pieces, EncodeAll;
    DeliverQueue(n.cb, d);
  }

  lemma ResumeMessages(n: Node, p: Node)
    requires MsgFlow(n, p) && MsgFlow(p, n)
    ensures MsgFlow(NodeStep(n, Resume).0, p) && MsgFlow(p, NodeStep(n, Resume).0)
  {
    hide Fragments, Pieces, Restarted;
  }

  /** Every move of an endpoint keeps message boundaries in both directions. */
  lemma StepMessages(n: Node, p: Node, out: Wires, inbox: Wires, step: Step)
    requires Pair(n, p, out, inbox) && Enabled(n, inbox, step)
    requires MsgFlow(n, p) && MsgFlow(p, n)
    ensures MsgFlow(NodeStep(n, step).0, p) && MsgFlow(p, NodeStep(n, step).0)
  {
    hide NodeStep, MsgFlow, RecvSide, WellFormed, Inv;
    match step
    case SendMsg(msg) => SendMessages(n, p, msg);
    case RecvMsg(len) => TakeMessages(n, p, len);
    case Tick(now) => TickMessages(n, p, now);
    case Deliver(d) => DeliverMessages(n, p, d);
    case Resume => ResumeMessages(n, p);
  }
}
