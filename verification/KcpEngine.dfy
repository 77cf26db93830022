/**
 The 32-bit engine of `ikcp.c`: lists, counters, the fixed ack array and the
 shared output buffer, updated in place.

 The ghost fields `snd` and `rcv` are the same state with unbounded indices. Every
 method ensures that they change by the function of `KcpModel` of the same name, for
 every argument: modular comparison never misleads the engine.
 */
module KcpEngine {
  import opened U32
  import opened KcpCodec
  import opened KcpModel
  import opened KcpInvariants
  import opened KcpPacking

  /** A list entry as the engine stores it. */
  function Low(s: Seg): Seg {
    s.(sn := Wrap(s.sn), una := Wrap(s.una))
  }

  function LowSweep(w: Sweep): Sweep {
    w.(una := Wrap(w.una))
  }

  ghost predicate Lows(c: seq<Seg>, segs: seq<Seg>) {
    |c| == |segs| && forall i :: 0 <= i < |c| ==> c[i] == Low(segs[i])
  }

  ghost predicate SendVals(una: u32, nxt: u32, queue: seq<Seg>, buf: seq<Seg>, nque: u32, nbuf: int, s: Sender) {
    && una == Wrap(s.una) && nxt == Wrap(s.nxt)
    && queue == s.queue && Lows(buf, s.buf)
    && nque == Wrap(|queue|) && nbuf == |buf|
  }

  ghost predicate RecvVals(nxt: u32, buf: seq<Seg>, queue: seq<Seg>, nbuf: int, nque: int, r: Receiver) {
    && nxt == Wrap(r.nxt)
    && Lows(buf, r.buf) && Lows(queue, r.queue)
    && nbuf == |buf| && nque == |queue|
  }

  lemma SplitStep(mss: nat, rest: seq<u8>)
    requires mss > 0 && FragCount(mss, |rest|) <= 0x100
    ensures var n := FragCount(mss, |rest|); var size := Min(mss, |rest|); var sp := Split(mss, rest);
            && sp != [] && sp[0] == FreshSeg(n - 1, rest[..size])
            && (n > 1 ==> |rest| > mss && FragCount(mss, |rest| - mss) == n - 1 && sp[1..] == Split(mss, rest[mss..]))
            && (n == 1 ==> sp[1..] == [])
  {
  }

  lemma HeadMatches(wnd: nat, r: Receiver, buf: seq<Seg>)
    requires wnd <= MAX_WND && WindowInv(wnd, r) && Lows(buf, r.buf) && buf != []
    ensures buf[0].sn == Wrap(r.nxt) <==> r.buf[0].sn == r.nxt
  {
    assert r.buf[0] in r.buf;
    WrapInjective(r.buf[0].sn, r.nxt);
  }

  function MoveOne(r: Receiver): Receiver
    requires r.buf != []
  {
    Receiver(r.nxt + 1, r.buf[1..], r.queue + [r.buf[0]], r.acks)
  }

  lemma MoveOneInv(wnd: nat, r: Receiver)
    requires WindowInv(wnd, r) && r.buf != [] && r.buf[0].sn == r.nxt && |r.queue| < wnd
    ensures WindowInv(wnd, MoveOne(r))
    ensures MoveReady(wnd, MoveOne(r)) == MoveReady(wnd, r)
  {
    assert r.buf[..1] == [r.buf[0]];
    MovedWindow(wnd, r, MoveOne(r), 1);
  }

  /** The bytes of finished datagrams. */
  ghost function Encoded(conv: u32, groups: seq<seq<Frame>>): (r: seq<seq<u8>>)
    ensures |r| == |groups| && forall i :: 0 <= i < |r| ==> r[i] == EncodeAll(conv, groups[i])
  {
    seq(|groups|, i requires 0 <= i < |groups| => EncodeAll(conv, groups[i]))
  }

  class Kcp {
    const cfg: Config
    var sndUna: u32
    var sndNxt: u32
    var rcvNxt: u32
    var sndQueue: seq<Seg>
    var sndBuf: seq<Seg>
    var rcvBuf: seq<Seg>
    var rcvQueue: seq<Seg>
    var nsndQue: u32
    var nsndBuf: int
    var nrcvBuf: int
    var nrcvQue: int
    var ctl: Control             // timers, windows and congestion state
    const acklist: array<u32>    // sn and ts of each pending ack, alternating
    var ackcount: nat
    const buffer: array<u8>      // shared by all instances
    ghost var snd: Sender
    ghost var rcv: Receiver

    /** The fields of the sending half represent `snd`. */
    ghost predicate SendRep()
      reads `sndUna, `sndNxt, `sndQueue, `sndBuf, `nsndQue, `nsndBuf, `snd
    {
      SendVals(sndUna, sndNxt, sndQueue, sndBuf, nsndQue, nsndBuf, snd)
    }

    ghost predicate AcksMatch()
      reads `ackcount, `rcv, acklist
    {
      && acklist.Length == 2 * ACK_BLOCK
      && ackcount == |rcv.acks| <= ACK_BLOCK
      && forall k :: 0 <= k < ackcount ==>
           acklist[2 * k] == Wrap(rcv.acks[k].sn) && acklist[2 * k + 1] == rcv.acks[k].ts
    }

    /** The lists of the receiving half represent those of `rcv`. */
    ghost predicate RecvRep()
      reads `rcvNxt, `rcvBuf, `rcvQueue, `nrcvBuf, `nrcvQue, `rcv
    {
      RecvVals(rcvNxt, rcvBuf, rcvQueue, nrcvBuf, nrcvQue, rcv)
    }

    ghost predicate Valid()
      reads this, acklist
    {
      && cfg.Valid() && buffer.Length == 3 * cfg.mtu
      && SendRep() && RecvRep() && AcksMatch()
      && SenderInv(cfg.sndWnd, cfg.Mss(), snd)
      && ReceiverInv(cfg.rcvWnd, rcv)
    }

    /** The state the fields stand for. */
    ghost function State(): Cb
      reads this
    {
      Cb(cfg, snd, rcv, ctl)
    }

    /** `ikcp_create` with the settings of `KcpWrapper::Init`. */
    constructor (cfg: Config, acks: array<u32>, buf: array<u8>)
      requires cfg.Valid() && acks.Length == 2 * ACK_BLOCK && buf.Length == 3 * cfg.mtu
      ensures Valid() && State() == Create(cfg) && acklist == acks && buffer == buf
    {
      this.cfg := cfg;
      sndUna, sndNxt, rcvNxt := 0, 0, 0;
      sndQueue, sndBuf, rcvBuf, rcvQueue := [], [], [], [];
      nsndQue, nsndBuf, nrcvBuf, nrcvQue := 0, 0, 0, 0;
      ctl := Create(cfg).ctl;
      acklist, ackcount, buffer := acks, 0, buf;
      snd, rcv := Create(cfg).snd, Create(cfg).rcv;
    }

    // -------------------------------------------------------------- sending

    /** The fragmenting loop of `ikcp_send`. */
    method Fragment(mss: nat, msg: seq<u8>, count: nat)
      requires mss > 0 && count == FragCount(mss, |msg|) < WND_RCV
      requires nsndQue == Wrap(|sndQueue|)
      modifies `sndQueue, `nsndQue
      ensures sndQueue == old(sndQueue) + Split(mss, msg)
      ensures nsndQue == Wrap(|sndQueue|)
    {
      var i, rest := 0, msg;
      ghost var todo := Split(mss, msg);
      while i < count
        invariant 0 <= i <= count
        invariant i < count ==> FragCount(mss, |rest|) == count - i && todo == Split(mss, rest)
        invariant i == count ==> todo == []
        invariant sndQueue + todo == old(sndQueue) + Split(mss, msg)
        invariant nsndQue == Wrap(|sndQueue|)
      {
        var size := if |rest| > mss then mss else |rest|;
        SplitStep(mss, rest);
        var seg := FreshSeg(count - i - 1, rest[..size]);
        assert todo == [seg] + todo[1..];
        SumAssociative(sndQueue, [seg], todo[1..]);
        WrapSum(|sndQueue|, 1);
        sndQueue := sndQueue + [seg];
        nsndQue := Wrap(nsndQue + 1);
        todo := todo[1..];
        rest := rest[size..];
        i := i + 1;
      }
      assert sndQueue + [] == sndQueue;
    }

    method Send(msg: seq<u8>) returns (ret: int)
      requires Valid()
      modifies `sndQueue, `nsndQue, `snd
      ensures Valid()
      ensures (snd, ret) == KcpModel.Send(cfg, old(snd), msg)
    {
      var mss := cfg.Mss();
      var count := if |msg| <= mss then 1 else (|msg| + mss - 1) / mss;
      if |msg| > mss {
        FragCountIsQuotient(mss, |msg|);
      }
      if count >= WND_RCV {
        return -2;
      }
      SendInv(cfg, snd, msg);
      Fragment(mss, msg, count);
      snd := KcpModel.Send(cfg, snd, msg).0;
      ret := |msg|;
    }

    // ------------------------------------------------------------ receiving

    method PeekSize() returns (len: int)
      requires RecvRep()
      ensures len == KcpModel.PeekSize(rcv.queue)
    {
      if rcvQueue == [] {
        return -1;
      }
      if rcvQueue[0].frg == 0 {
        return |rcvQueue[0].data|;
      }
      if nrcvQue < rcvQueue[0].frg as int + 1 {
        return -1;
      }
      len := 0;
      var i := 0;
      ghost var q := rcv.queue;
      while i < |rcvQueue|
        invariant 0 <= i <= |q|
        invariant len == |Bytes(q[..i])|
        invariant FirstMessage(q) == i + FirstMessage(q[i..])
        decreases |rcvQueue| - i
      {
        assert q[..i + 1][..i] == q[..i];
        assert rcvQueue[i] == Low(q[i]);
        len := len + |rcvQueue[i].data|;
        i := i + 1;
        if rcvQueue[i - 1].frg == 0 {
          break;
        }
        assert q[i - 1..][1..] == q[i..];
      }
    }

    /** Unlinks the head of `rcv_buf` and links it to the tail of `rcv_queue`. */
    method MoveFirst()
      requires RecvRep() && rcvBuf != []
      modifies `rcvBuf, `nrcvBuf, `rcvQueue, `nrcvQue, `rcvNxt, `rcv
      ensures RecvRep() && rcv == MoveOne(old(rcv))
    {
      var seg := rcvBuf[0];
      rcvBuf := rcvBuf[1..];
      nrcvBuf := nrcvBuf - 1;
      rcvQueue := rcvQueue + [seg];
      nrcvQue := nrcvQue + 1;
      rcvNxt := Wrap(rcvNxt + 1);
      rcv := MoveOne(rcv);
    }

    /** The loop that both `ikcp_recv` and `ikcp_parse_data` end with. */
    method MoveReady()
      requires cfg.Valid() && RecvRep() && WindowInv(cfg.rcvWnd, rcv)
      modifies `rcvBuf, `nrcvBuf, `rcvQueue, `nrcvQue, `rcvNxt, `rcv
      ensures RecvRep()
      ensures rcv == KcpModel.MoveReady(cfg.rcvWnd, old(rcv))
    {
      ghost var goal := KcpModel.MoveReady(cfg.rcvWnd, rcv);
      while rcvBuf != []
        invariant RecvRep() && WindowInv(cfg.rcvWnd, rcv)
        invariant KcpModel.MoveReady(cfg.rcvWnd, rcv) == goal
        decreases |rcvBuf|
      {
        HeadMatches(cfg.rcvWnd, rcv, rcvBuf);
        if rcvBuf[0].sn == rcvNxt && nrcvQue < cfg.rcvWnd {
          MoveOneInv(cfg.rcvWnd, rcv);
          MoveFirst();
        } else {
          break;
        }
      }
    }

    /** Copies out the first message, unlinking its segments unless peeking. */
    method TakeFirst(peek: bool) returns (out: seq<u8>)
      requires RecvRep() && rcvQueue != []
      modifies `rcvQueue, `nrcvQue, `rcv
      ensures RecvRep()
      ensures var n := FirstMessage(old(rcv.queue));
              out == Bytes(old(rcv.queue)[..n])
              && rcv == if peek then old(rcv) else old(rcv).(queue := old(rcv.queue)[n..])
    {
      hide FirstMessage, Bytes, Low;
      out := [];
      var i := 0;
      ghost var q := rcv.queue;
      var all := rcvQueue;
      NothingTaken(q);
      while i < |all|
        invariant 0 <= i <= |q|
        invariant out == Bytes(q[..i])
        invariant FirstMessage(q) == i + FirstMessage(q[i..])
        invariant rcvQueue == if peek then all else all[i..]
        invariant nrcvQue == |rcvQueue|
        decreases |all| - i
        modifies `rcvQueue, `nrcvQue
      {
        TakenStep(q, i, all[i]);
        out := out + all[i].data;
        if !peek {
          rcvQueue := rcvQueue[1..];
          nrcvQue := nrcvQue - 1;
        }
        i := i + 1;
        if all[i - 1].frg == 0 {
          break;
        }
      }
      if !peek {
        rcv := rcv.(queue := q[i..]);
      }
    }

    /** `ikcp_recv` up to the window announcement. */
    method RecvLists(len: int) returns (ret: int, out: seq<u8>)
      requires cfg.Valid() && RecvRep() && AcksMatch() && ReceiverInv(cfg.rcvWnd, rcv)
      modifies `rcvQueue, `nrcvQue, `rcvBuf, `nrcvBuf, `rcvNxt, `rcv
      ensures RecvRep() && AcksMatch() && nrcvQue == |rcv.queue|
      ensures (rcv, ret, out) == KcpModel.Recv(cfg.rcvWnd, old(rcv), len)
    {
      RecvKeeps(cfg.rcvWnd, rcv, len);
      if rcvQueue == [] {
        return -1, [];
      }
      var size := PeekSize();
      if size < 0 {
        return -2, [];
      }
      if size > (if len < 0 then -len else len) {
        return -3, [];
      }
      TakeWindow(cfg.rcvWnd, rcv);
      out := TakeFirst(len < 0);
      MoveReady();
      ret := |out|;
    }

    method Recv(len: int) returns (ret: int, out: seq<u8>)
      requires Valid()
      modifies `rcvQueue, `nrcvQue, `rcvBuf, `nrcvBuf, `rcvNxt, `rcv, `ctl
      ensures Valid()
      ensures (rcv, ret, out) == KcpModel.Recv(cfg.rcvWnd, old(rcv), len)
      ensures ctl == old(ctl).(askTell := old(ctl.askTell) || (ret >= 0 && Reopened(cfg.rcvWnd, old(rcv), rcv)))
    {
      hide KcpModel.Recv, ReceiverInv, SenderInv, Kcp.SendRep, Kcp.RecvRep, Kcp.AcksMatch, Reopened;
      RecvKeeps(cfg.rcvWnd, rcv, len);
      ret, out := RecvAnnounced(len);
    }

    method RecvAnnounced(len: int) returns (ret: int, out: seq<u8>)
      requires cfg.Valid() && RecvRep() && AcksMatch() && ReceiverInv(cfg.rcvWnd, rcv)
      modifies `rcvQueue, `nrcvQue, `rcvBuf, `nrcvBuf, `rcvNxt, `rcv, `ctl
      ensures RecvRep() && AcksMatch()
      ensures (rcv, ret, out) == KcpModel.Recv(cfg.rcvWnd, old(rcv), len)
      ensures ctl == old(ctl).(askTell := old(ctl.askTell) || (ret >= 0 && Reopened(cfg.rcvWnd, old(rcv), rcv)))
    {
      assert nrcvQue == |rcv.queue|;
      hide KcpModel.Recv, ReceiverInv, Kcp.RecvRep, Kcp.AcksMatch;
      var recover := nrcvQue >= cfg.rcvWnd;
      ret, out := RecvLists(len);
      if ret >= 0 && nrcvQue < cfg.rcvWnd && recover {
        ctl := ctl.(askTell := true);
      }
    }

    // ------------------------------------------------------ acknowledgements

    method ShrinkBuf()
      requires SendRep()
      modifies `sndUna, `snd
      ensures SendRep() && snd == Shrink(old(snd))
    {
      if sndBuf != [] {
        sndUna := sndBuf[0].sn;
      } else {
        sndUna := sndNxt;
      }
      snd := Shrink(snd);
    }

    method DropFirst()
      requires SendRep() && sndBuf != []
      modifies `sndBuf, `nsndBuf, `snd
      ensures SendRep() && snd == old(snd).(buf := old(snd.buf)[1..])
    {
      sndBuf := sndBuf[1..];
      nsndBuf := nsndBuf - 1;
      snd := snd.(buf := snd.buf[1..]);
    }

    /** `ikcp_parse_una`: unlinks from the head while it is older than `una`. */
    method ParseUna(una: u32)
      requires cfg.Valid() && SendRep() && SenderInv(cfg.sndWnd, cfg.Mss(), snd)
      modifies `sndBuf, `nsndBuf, `snd
      ensures SendRep()
      ensures snd == old(snd).(buf := DropBelow(old(snd.buf), Near(old(snd.una), una)))
    {
      ghost var x := Near(snd.una, una);
      ghost var first, goal := snd, DropBelow(snd.buf, x);
      ghost var k := 0;
      while sndBuf != []
        invariant SendRep() && k <= |first.buf| && snd == first.(buf := first.buf[k..])
        invariant DropBelow(snd.buf, x) == goal
        invariant k > 0 ==> x > first.una
        decreases |sndBuf|
      {
        UnaDiff(cfg, first, k, una);
        assert sndBuf[0] == Low(snd.buf[0]);
        if TimeDiff(una, sndBuf[0].sn) > 0 {
          DropFirst();
          k := k + 1;
        } else {
          break;
        }
      }
    }

    /** The position `ikcp_parse_ack` stops at, or the length of the list. */
    static method FindAcked(list: seq<Seg>, sn: u32, ghost segs: seq<Seg>, ghost x: int) returns (i: nat)
      requires Lows(list, segs) && Faithful(segs, sn, x)
      ensures i <= |segs|
      ensures Remove(segs, x) == if i < |segs| then segs[..i] + segs[i + 1..] else segs
    {
      i := 0;
      while i < |list|
        invariant 0 <= i <= |list|
        invariant RemovedUpTo(segs, i, x)
      {
        FaithfulAt(list, segs, i, sn, x);
        RemoveStep(segs, i, x);
        if sn == list[i].sn {
          return;
        }
        if TimeDiff(sn, list[i].sn) < 0 {
          return |list|;
        }
        i := i + 1;
      }
      assert segs[..i] + [] == segs;
    }

    method Unlink(i: nat)
      requires SendRep() && i < |sndBuf|
      modifies `sndBuf, `nsndBuf, `snd
      ensures SendRep() && snd == old(snd).(buf := old(snd.buf)[..i] + old(snd.buf)[i + 1..])
    {
      sndBuf := sndBuf[..i] + sndBuf[i + 1..];
      nsndBuf := nsndBuf - 1;
      snd := snd.(buf := snd.buf[..i] + snd.buf[i + 1..]);
    }

    /** `ikcp_parse_ack`: unlinks the one segment that was acknowledged. */
    method ParseAck(sn: u32)
      requires cfg.Valid() && SendRep() && SenderInv(cfg.sndWnd, cfg.Mss(), snd)
      modifies `sndBuf, `nsndBuf, `snd
      ensures SendRep()
      ensures Shrink(snd) == KcpModel.ParseAck(old(snd), sn)
    {
      OutstandingDiff(cfg, snd, sn);
      if TimeDiff(sn, sndUna) < 0 || TimeDiff(sn, sndNxt) >= 0 {
        return;
      }
      AllFaithful(cfg, snd, sn);
      var i := FindAcked(sndBuf, sn, snd.buf, Near(snd.una, sn));
      if i < |sndBuf| {
        Unlink(i);
      }
    }

    method BumpFastack(i: nat)
      requires SendRep() && i < |sndBuf|
      modifies `sndBuf, `snd
      ensures SendRep()
      ensures snd == old(snd).(buf := old(snd.buf)[i := old(snd.buf)[i].(fastack := Wrap(old(snd.buf)[i].fastack + 1))])
    {
      var seg := sndBuf[i];
      sndBuf := sndBuf[i := seg.(fastack := Wrap(seg.fastack + 1))];
      snd := snd.(buf := snd.buf[i := snd.buf[i].(fastack := Wrap(snd.buf[i].fastack + 1))]);
    }

    /** One step of the walk of `ikcp_parse_fastack`, which stops at the first
        segment beyond the ack. */
    method PassOne(i: nat, sn: u32, ghost first: seq<Seg>, ghost x: int) returns (stop: bool)
      requires SendRep() && i < |first| && SkippedUpTo(first, snd.buf, i, x)
      requires Faithful([first[i]], sn, x)
      modifies `sndBuf, `snd
      ensures SendRep() && snd == old(snd).(buf := snd.buf)
      ensures if stop then snd.buf == Skipped(first, x) else SkippedUpTo(first, snd.buf, i + 1, x)
    {
      SkippedStep(first, snd.buf, i, x);
      FaithfulAt([sndBuf[i]], [first[i]], 0, sn, x);
      hide SkippedUpTo, Skipped, Faithful, TimeDiff, Wrap;
      stop := TimeDiff(sn, sndBuf[i].sn) < 0;
      if !stop && sn != sndBuf[i].sn {
        BumpFastack(i);
      }
    }

    /** The list walk of `ikcp_parse_fastack`: counts the segments an ack has
        passed over. */
    method PassOver(sn: u32, ghost x: int)
      requires SendRep() && Faithful(snd.buf, sn, x)
      modifies `sndBuf, `snd
      ensures SendRep() && snd == old(snd).(buf := Skipped(old(snd.buf), x))
    {
      ghost var first := snd.buf;
      var i := 0;
      while i < |sndBuf|
        invariant SendRep() && snd == old(snd).(buf := snd.buf)
        invariant 0 <= i <= |sndBuf| && SkippedUpTo(first, snd.buf, i, x)
        decreases |first| - i
      {
        assert first[i] in first;
        var stop := PassOne(i, sn, first, x);
        if stop {
          return;
        }
        i := i + 1;
      }
      SkippedDone(first, snd.buf, x);
    }

    method ParseFastack(sn: u32)
      requires cfg.Valid() && SendRep() && SenderInv(cfg.sndWnd, cfg.Mss(), snd)
      modifies `sndBuf, `snd
      ensures SendRep()
      ensures snd == KcpModel.ParseFastack(old(snd), sn)
    {
      OutstandingDiff(cfg, snd, sn);
      if TimeDiff(sn, sndUna) < 0 || TimeDiff(sn, sndNxt) >= 0 {
        return;
      }
      AllFaithful(cfg, snd, sn);
      PassOver(sn, Near(snd.una, sn));
    }

    /** `ikcp_ack_push`. */
    method AckPush(sn: u32, ts: u32, ghost x: int)
      requires AcksMatch() && sn == Wrap(x)
      modifies acklist, `ackcount, `rcv
      ensures AcksMatch()
      ensures rcv == old(rcv).(acks := KcpModel.AckPush(old(rcv.acks), x, ts))
    {
      if ackcount + 1 > ACK_BLOCK {
        return;
      }
      acklist[2 * ackcount] := sn;
      acklist[2 * ackcount + 1] := ts;
      ackcount := ackcount + 1;
      rcv := rcv.(acks := rcv.acks + [Ack(x, ts)]);
    }

    // ---------------------------------------------------------------- input

    /** Where `ikcp_parse_data` stops walking back, and whether it found `sn`. */
    static method FindSlot(list: seq<Seg>, sn: u32, ghost segs: seq<Seg>, ghost s: Seg) returns (i: nat, repeat: bool)
      requires Lows(list, segs) && Faithful(segs, sn, s.sn)
      ensures i <= |list|
      ensures Insert(segs, s) == if repeat then segs else segs[..i] + [s] + segs[i..]
    {
      hide Insert, InsertedFrom, TimeDiff, Wrap;
      i, repeat := |list|, false;
      InsertEnds(segs, s);
      while i > 0
        invariant 0 <= i <= |list|
        invariant InsertedFrom(segs, i, s)
      {
        FaithfulAt(list, segs, i - 1, sn, s.sn);
        InsertStep(segs, i, s);
        if list[i - 1].sn == sn {
          return i, true;
        }
        if TimeDiff(sn, list[i - 1].sn) > 0 {
          return;
        }
        i := i - 1;
      }
    }

    method LinkAt(i: nat, seg: Seg, ghost s: Seg)
      requires RecvRep() && i <= |rcvBuf| && seg == Low(s)
      modifies `rcvBuf, `nrcvBuf, `rcv
      ensures RecvRep() && rcv == old(rcv).(buf := old(rcv.buf)[..i] + [s] + old(rcv.buf)[i..])
    {
      rcvBuf := rcvBuf[..i] + [seg] + rcvBuf[i..];
      nrcvBuf := nrcvBuf + 1;
      rcv := rcv.(buf := rcv.buf[..i] + [s] + rcv.buf[i..]);
    }

    /** `ikcp_parse_data`. */
    method ParseData(seg: Seg, ghost s: Seg)
      requires cfg.Valid() && RecvRep() && ReceiverInv(cfg.rcvWnd, rcv)
      requires seg == Low(s) && s.sn == Near(rcv.nxt + cfg.rcvWnd, seg.sn)
      modifies `rcvBuf, `nrcvBuf, `rcvQueue, `nrcvQue, `rcvNxt, `rcv
      ensures RecvRep()
      ensures rcv == KcpModel.ParseData(cfg.rcvWnd, old(rcv), s)
    {
      WindowDiff(cfg.rcvWnd, rcv, seg.sn);
      WrapSum(rcv.nxt, cfg.rcvWnd);
      if TimeDiff(seg.sn, Wrap(rcvNxt + cfg.rcvWnd)) >= 0 || TimeDiff(seg.sn, rcvNxt) < 0 {
        return;
      }
      CloseIsFaithful(rcv.buf, rcv.nxt, rcv.nxt + cfg.rcvWnd, s.sn);
      InsertWindow(cfg.rcvWnd, rcv, s);
      var i, repeat := FindSlot(rcvBuf, seg.sn, rcv.buf, s);
      if !repeat {
        LinkAt(i, seg, s);
      }
      MoveReady();
    }

    /** The PUSH branch of `ikcp_input`. */
    method InputPush(f: Frame)
      requires cfg.Valid() && RecvRep() && AcksMatch() && ReceiverInv(cfg.rcvWnd, rcv) && OnWire(f) == f
      modifies acklist, `ackcount, `rcvBuf, `nrcvBuf, `rcvQueue, `nrcvQue, `rcvNxt, `rcv
      ensures RecvRep() && AcksMatch()
      ensures rcv == KcpModel.InputPush(cfg.rcvWnd, old(rcv), f)
    {
      hide Near, TimeDiff, ReceiverInv, KcpModel.AckPush, KcpModel.ParseData, Arrived, Low, Lows, Wrap;
      ghost var x := Near(rcv.nxt + cfg.rcvWnd, f.sn);
      PushOnWire(f, x);
      WindowDiff(cfg.rcvWnd, rcv, f.sn);
      WrapSum(rcv.nxt, cfg.rcvWnd);
      InputPushAcks(cfg.rcvWnd, rcv, f);
      PendingAside(cfg.rcvWnd, rcv, KcpModel.AckPush(rcv.acks, x, f.ts));
      if x < rcv.nxt {
        NotNew(cfg.rcvWnd, rcv.(acks := KcpModel.AckPush(rcv.acks, x, f.ts)), Arrived(f, x));
      }
      if TimeDiff(f.sn, Wrap(rcvNxt + cfg.rcvWnd)) < 0 {
        AckPush(f.sn, f.ts, x);
        if TimeDiff(f.sn, rcvNxt) >= 0 {
          ParseData(Arrived(f, f.sn), Arrived(f, x));
        }
      }
    }

    method AcceptUna(una: u32)
      requires cfg.Valid() && SendRep() && SenderInv(cfg.sndWnd, cfg.Mss(), snd)
      modifies `sndBuf, `nsndBuf, `sndUna, `snd
      ensures SendRep() && SenderInv(cfg.sndWnd, cfg.Mss(), snd)
      ensures snd == KcpModel.ParseUna(old(snd), una)
    {
      ParseUnaInv(cfg.sndWnd, cfg.Mss(), snd, una);
      ParseUna(una);
      ShrinkBuf();
    }

    method AcceptAck(sn: u32)
      requires cfg.Valid() && SendRep() && SenderInv(cfg.sndWnd, cfg.Mss(), snd)
      modifies `sndBuf, `nsndBuf, `sndUna, `snd
      ensures SendRep() && SenderInv(cfg.sndWnd, cfg.Mss(), snd)
      ensures snd == KcpModel.ParseAck(old(snd), sn)
    {
      ParseAckInv(cfg.sndWnd, cfg.Mss(), snd, sn);
      ParseAck(sn);
      ShrinkBuf();
    }

    method AcceptPush(f: Frame)
      requires cfg.Valid() && RecvRep() && AcksMatch() && ReceiverInv(cfg.rcvWnd, rcv) && OnWire(f) == f
      modifies acklist, `ackcount, `rcvBuf, `nrcvBuf, `rcvQueue, `nrcvQue, `rcvNxt, `rcv
      ensures RecvRep() && AcksMatch() && ReceiverInv(cfg.rcvWnd, rcv)
      ensures rcv == KcpModel.InputPush(cfg.rcvWnd, old(rcv), f)
    {
      InputPushInv(cfg.rcvWnd, rcv, f);
      InputPush(f);
    }

    /** The acknowledging part of one pass of the loop in `ikcp_input`. */
    method InputAcks(f: Frame)
      requires cfg.Valid() && SendRep() && SenderInv(cfg.sndWnd, cfg.Mss(), snd) && OnWire(f) == f
      modifies `sndBuf, `nsndBuf, `sndUna, `snd, `ctl
      ensures SendRep() && SenderInv(cfg.sndWnd, cfg.Mss(), snd)
      ensures snd == SenderInput(old(snd), f)
      ensures ctl == if f.cmd == CMD_WASK then old(ctl).(rmtWnd := f.wnd) else ControlInput(cfg, old(ctl), f)
    {
      ctl := ctl.(rmtWnd := f.wnd);
      AcceptUna(f.una);
      if f.cmd == CMD_ACK {
        if TimeDiff(ctl.current, f.ts) >= 0 {
          ctl := UpdateAck(cfg, ctl, TimeDiff(ctl.current, f.ts));
        }
        AcceptAck(f.sn);
      }
    }

    /** One pass of the loop in `ikcp_input`, after the header was read. */
    method InputFrame(f: Frame)
      requires Valid() && OnWire(f) == f
      modifies this, acklist
      ensures Valid()
      ensures State() == KcpModel.InputFrame(old(State()), f)
    {
      hide SenderInv, ReceiverInv, Kcp.SendRep, Kcp.RecvRep, Kcp.AcksMatch, SenderInput, KcpModel.InputPush, Wrap, TimeDiff;
      InputAcks(f);
      if f.cmd == CMD_PUSH {
        AcceptPush(f);
      } else if f.cmd == CMD_WASK {
        ctl := ctl.(askTell := true);
      }
    }

    /** What `ikcp_input` does after the last frame. */
    method InputFinish(prevUna: u32, maxAck: Option<u32>, maxUna: u32, ghost before: int)
      requires Valid() && prevUna == Wrap(before) && before <= snd.una <= before + cfg.sndWnd
      modifies `sndBuf, `snd, `ctl
      ensures Valid()
      ensures State() == KcpModel.InputFinish(old(State()), before, maxAck, maxUna)
    {
      TimeDiffExact(snd.una, before);
      if maxAck.Some? {
        ParseFastackInv(cfg.sndWnd, cfg.Mss(), snd, maxAck.value);
        ParseFastack(maxAck.value);
      }
      if TimeDiff(sndUna, prevUna) > 0 {
        ctl := Grow(cfg, ctl);
      }
      if TimeDiff(maxUna, sndNxt) > 0 {
        ctl := ctl.(state := STATE_BROKEN);
      }
    }

    /** `ikcp_input`. */
    method Input(b: seq<u8>) returns (ret: int)
      requires Valid()
      modifies this, acklist
      ensures Valid()
      ensures (State(), ret) == KcpModel.Input(old(State()), b)
    {
      if |b| < OVERHEAD {
        return -1;
      }
      var prevUna := sndUna;
      var data := b;
      var maxAck: Option<u32>, maxUna: u32 := None, 0;
      ghost var start, frames := State(), [];
      assert [] + Parse(cfg.conv, b).0 == Parse(cfg.conv, b).0;
      while |data| >= OVERHEAD
        invariant Valid() && State() == InputFrames(start, frames)
        invariant maxAck == MaxAck(frames) && maxUna == MaxUna(frames)
        invariant ReadUpTo(cfg.conv, b, data, frames)
        decreases |data|
      {
        ReadStop(cfg.conv, b, data, frames);
        if Get32(data, 0) != cfg.conv {
          return -1;
        }
        if |data| - OVERHEAD < Get32(data, 20) || Signed(Get32(data, 20)) < 0 {
          return -2;
        }
        if !KnownCmd(data[4]) {
          return -3;
        }
        var f := DecodeAt(data);
        ReadOne(cfg.conv, b, data, frames);
        ReadFolds(start, frames, f);
        maxUna := if f.una > maxUna then f.una else maxUna;
        InputFrame(f);
        if f.cmd == CMD_ACK && (maxAck.None? || TimeDiff(f.sn, maxAck.value) > 0) {
          maxAck := Some(f.sn);
        }
        frames := frames + [f];
        data := data[OVERHEAD + Get32(data, 20)..];
      }
      ReadStop(cfg.conv, b, data, frames);
      InputFramesInv(start, frames);
      InputFinish(prevUna, maxAck, maxUna, start.snd.una);
      ret := 0;
    }

    // ---------------------------------------------------------------- flush

    /** `out` are the finished datagrams of the frames `fs`, and the first `ptr`
        bytes of the buffer are the one being filled. */
    ghost predicate Holding(ptr: nat, out: seq<seq<u8>>, fs: seq<Frame>)
      reads buffer
    {
      var p := Pack(cfg.mtu, fs);
      && ptr <= buffer.Length && buffer[..ptr] == EncodeAll(cfg.conv, p.1)
      && out == Encoded(cfg.conv, p.0)
    }

    /** `memcpy` into the shared buffer. */
    method Write(at: nat, bytes: seq<u8>) returns (end: nat)
      requires at + |bytes| <= buffer.Length
      modifies buffer
      ensures end == at + |bytes|
      ensures buffer[..end] == old(buffer[..at]) + bytes
    {
      forall i | 0 <= i < |bytes| {
        buffer[at + i] := bytes[i];
      }
      end := at + |bytes|;
    }

    /** Outputs the buffer if the frame does not fit behind what it holds, then
        encodes the frame there. It never runs past the end of the buffer. */
    method Put(ptr: nat, out: seq<seq<u8>>, f: Frame, ghost fs: seq<Frame>, ghost g: Frame)
      returns (ptr': nat, out': seq<seq<u8>>)
      requires buffer.Length == 3 * cfg.mtu
      requires Packable(cfg.mtu, fs) && Holding(ptr, out, fs)
      requires f == OnWire(g) && FrameSize(g) <= cfg.mtu
      modifies buffer
      ensures Holding(ptr', out', fs + [g])
    {
      ghost var p := Pack(cfg.mtu, fs);
      PutPacked(cfg.mtu, cfg.conv, fs, g);
      ptr', out' := ptr, out;
      if ptr + OVERHEAD + |f.data| > cfg.mtu {
        if ptr > 0 {
          out' := out + [buffer[..ptr]];
        }
        ptr' := 0;
      }
      ghost var kept := buffer[..ptr'];
      ptr' := Write(ptr', KcpCodec.Head(cfg.conv, f));
      ptr' := Write(ptr', f.data);
      assert buffer[..ptr'] == kept + KcpCodec.Head(cfg.conv, f) + f.data;
      SumAssociative(kept, KcpCodec.Head(cfg.conv, f), f.data);
    }

    method AckGet(p: nat) returns (sn: u32, ts: u32)
      requires AcksMatch() && p < ackcount
      ensures sn == Wrap(rcv.acks[p].sn) && ts == rcv.acks[p].ts
    {
      sn, ts := acklist[2 * p], acklist[2 * p + 1];
    }

    lemma NothingHeld(cb: Cb)
      requires cb.cfg == cfg && cfg.Valid()
      ensures Holding(0, [], AckFrames(cb, 0)) && LastAck(cb.rcv.acks[..0]) == Ack(0, 0)
    {
      assert AckFrames(cb, 0) == [];
    }

    method FlushAck(i: nat, wnd: u32, ptr: nat, out: seq<seq<u8>>, ghost cb: Cb)
      returns (ptr': nat, out': seq<seq<u8>>, sn: u32, ts: u32)
      requires cb.cfg == cfg && cfg.Valid() && buffer.Length == 3 * cfg.mtu
      requires AcksMatch() && i < ackcount && cb.rcv == rcv && rcvNxt == Wrap(rcv.nxt) && wnd == WndUnused(cb)
      requires Holding(ptr, out, AckFrames(cb, i))
      modifies buffer
      ensures Holding(ptr', out', AckFrames(cb, i + 1)) && AcksMatch()
      ensures Ack(sn, ts) == LastAck(rcv.acks[..i + 1])
    {
      hide Holding, WndUnused;
      AckFramesSnoc(cb, i);
      sn, ts := AckGet(i);
      ptr', out' := Put(ptr, out, Frame(CMD_ACK, 0, wnd % 0x1_0000, ts, sn, rcvNxt, []),
                        AckFrames(cb, i), HeadFrame(cb, CMD_ACK, rcv.acks[i].sn, rcv.acks[i].ts));
    }

    /** The ack loop of `ikcp_flush`; also returns the last number and time. */
    method FlushAcks(wnd: u32, ghost cb: Cb) returns (ptr: nat, out: seq<seq<u8>>, sn: u32, ts: u32)
      requires cb.cfg == cfg && cfg.Valid() && buffer.Length == 3 * cfg.mtu
      requires AcksMatch() && cb.rcv == rcv && rcvNxt == Wrap(rcv.nxt) && wnd == WndUnused(cb)
      modifies buffer
      ensures Holding(ptr, out, AckFrames(cb, |cb.rcv.acks|))
      ensures Ack(sn, ts) == LastAck(rcv.acks)
    {
      hide Holding, WndUnused, Wrap, LastAck;
      ptr, out, sn, ts := 0, [], 0, 0;
      NothingHeld(cb);
      var i := 0;
      while i < ackcount
        invariant 0 <= i <= ackcount && AcksMatch()
        invariant Holding(ptr, out, AckFrames(cb, i))
        invariant Ack(sn, ts) == LastAck(rcv.acks[..i])
      {
        ptr, out, sn, ts := FlushAck(i, wnd, ptr, out, cb);
        i := i + 1;
      }
      assert rcv.acks[..i] == rcv.acks;
    }

    method PutProbe(ask: bool, cmd: u8, wnd: u32, sn: u32, ts: u32, ptr: nat, out: seq<seq<u8>>,
                    ghost cb: Cb, ghost last: Ack, ghost fs: seq<Frame>)
      returns (ptr': nat, out': seq<seq<u8>>)
      requires cb.cfg == cfg && cfg.Valid() && buffer.Length == 3 * cfg.mtu && wnd == WndUnused(cb)
      requires rcvNxt == Wrap(cb.rcv.nxt) && sn == Wrap(last.sn) && ts == last.ts
      requires Packable(cfg.mtu, fs) && Holding(ptr, out, fs)
      modifies buffer
      ensures Holding(ptr', out', fs + if ask then [HeadFrame(cb, cmd, last.sn, last.ts)] else [])
    {
      ptr', out' := ptr, out;
      if ask {
        ptr', out' := Put(ptr, out, Frame(cmd, 0, wnd % 0x1_0000, ts, sn, rcvNxt, []), fs, HeadFrame(cb, cmd, last.sn, last.ts));
      } else {
        assert fs + [] == fs;
      }
    }

    method ClearAcks()
      requires RecvRep() && AcksMatch()
      modifies `ackcount, `rcv
      ensures RecvRep() && AcksMatch() && rcv == old(rcv).(acks := [])
    {
      ackcount := 0;
      rcv := rcv.(acks := []);
    }

    /** The two probes, which reuse the header of the last ack. */
    method FlushProbes(wnd: u32, sn: u32, ts: u32, ptr: nat, out: seq<seq<u8>>, ghost cb: Cb)
      returns (ptr': nat, out': seq<seq<u8>>)
      requires cb.cfg == cfg && cfg.Valid() && ctl == Probe(cb.ctl) && buffer.Length == 3 * cfg.mtu
      requires rcvNxt == Wrap(cb.rcv.nxt) && wnd == WndUnused(cb) && Ack(sn, ts) == LastAck(cb.rcv.acks)
      requires Holding(ptr, out, AckFrames(cb, |cb.rcv.acks|))
      modifies buffer, `ctl
      ensures Holding(ptr', out', ControlFrames(cb))
      ensures ctl == Probe(cb.ctl).(askSend := false, askTell := false)
    {
      ControlParts(cb);
      ghost var last := Last(cb.rcv.acks);
      ghost var fs := AckFrames(cb, |cb.rcv.acks|);
      ghost var fs' := fs + if ctl.askSend then [HeadFrame(cb, CMD_WASK, last.sn, last.ts)] else [];
      ptr', out' := PutProbe(ctl.askSend, CMD_WASK, wnd, sn, ts, ptr, out, cb, last, fs);
      ptr', out' := PutProbe(ctl.askTell, CMD_WINS, wnd, sn, ts, ptr', out', cb, last, fs');
      ctl := ctl.(askSend := false, askTell := false);
    }

    /** Acks, the probe timer and the two probes. */
    method FlushHead(wnd: u32, ghost cb: Cb) returns (ptr: nat, out: seq<seq<u8>>)
      requires cb.cfg == cfg && cb.rcv == rcv && cb.ctl == ctl
      requires cfg.Valid() && buffer.Length == 3 * cfg.mtu
      requires RecvRep() && AcksMatch() && wnd == WndUnused(cb)
      modifies buffer, `ackcount, `rcv, `ctl
      ensures Holding(ptr, out, ControlFrames(cb)) && RecvRep() && AcksMatch()
      ensures rcv == cb.rcv.(acks := [])
      ensures ctl == Probe(cb.ctl).(askSend := false, askTell := false)
    {
      hide Holding, Probe, ControlFrames, AckFrames, WndUnused, Kcp.AcksMatch, LastAck;
      var sn, ts;
      ptr, out, sn, ts := FlushAcks(wnd, cb);
      ClearAcks();
      ctl := Probe(ctl);
      ptr, out := FlushProbes(wnd, sn, ts, ptr, out, cb);
    }

    /** Unlinks the head of `snd_queue`, numbers it and links it to `snd_buf`. */
    method AdmitFirst(low: Sweep, ghost w: Sweep)
      requires low == LowSweep(w) && SendRep() && sndQueue != []
      modifies `sndQueue, `nsndQue, `sndBuf, `nsndBuf, `sndNxt, `snd
      ensures SendRep()
      ensures snd == Sender(old(snd).una, old(snd).nxt + 1, old(snd).queue[1..],
                            old(snd).buf + [Numbered(w, old(snd).queue[0], old(snd).nxt)])
    {
      hide Lows, Low, Numbered, Wrap, LowSweep;
      ghost var s := Numbered(w, snd.queue[0], snd.nxt);
      var newseg := Numbered(low, sndQueue[0], sndNxt);
      NumberedLow(w, snd.queue[0], snd.nxt);
      LowsPush(sndBuf, snd.buf, newseg, s);
      WrapSum(|sndQueue|, -1);
      WrapSum(snd.nxt, 1);
      sndQueue := sndQueue[1..];
      sndBuf := sndBuf + [newseg];
      nsndQue := Wrap(nsndQue - 1);
      nsndBuf := nsndBuf + 1;
      sndNxt := Wrap(sndNxt + 1);
      snd := Sender(snd.una, snd.nxt + 1, snd.queue[1..], snd.buf + [s]);
    }

    /** The loop of `ikcp_flush` that fills the send window. */
    method AdmitQueued(window: nat, low: Sweep, ghost w: Sweep)
      requires low == LowSweep(w) && SendRep() && window <= MAX_WND && snd.una <= snd.nxt <= snd.una + MAX_WND
      modifies `sndQueue, `nsndQue, `sndBuf, `nsndBuf, `sndNxt, `snd
      ensures SendRep() && snd == Admit(old(snd), window, w)
    {
      ghost var goal := Admit(snd, window, w);
      while sndQueue != []
        invariant SendRep() && Admit(snd, window, w) == goal
        invariant snd.una == old(snd).una && snd.una <= snd.nxt <= snd.una + MAX_WND
        decreases |sndQueue|
      {
        TimeDiffExact(snd.nxt, snd.una + window);
        WrapSum(snd.una, window);
        if TimeDiff(sndNxt, Wrap(sndUna + window)) >= 0 {
          break;
        }
        AdmitFirst(low, w);
      }
    }

    /** One pass of the resend loop: restamps the segment and outputs it if due. */
    method SweepOne(i: nat, low: Sweep, ghost w: Sweep, ptr: nat, out: seq<seq<u8>>, ghost fs: seq<Frame>, ghost first: seq<Seg>)
      returns (ptr': nat, out': seq<seq<u8>>, due: Due)
      requires low == LowSweep(w) && SendRep() && i < |first| && SweptUpTo(w, first, snd.buf, i)
      requires buffer.Length == 3 * cfg.mtu && |first[i].data| + OVERHEAD <= cfg.mtu
      requires Packable(cfg.mtu, fs) && Holding(ptr, out, fs)
      modifies `sndBuf, `snd, buffer
      ensures SendRep() && snd == old(snd).(buf := snd.buf) && SweptUpTo(w, first, snd.buf, i + 1)
      ensures due == DueOf(w, first[i])
      ensures Holding(ptr', out', fs + if due.NotDue? then [] else [FrameOf(Swept(w, first[i]))])
      ensures i < |sndBuf| && sndBuf[i].xmit == Swept(w, first[i]).xmit
    {
      hide SweptUpTo, Swept, DueOf, Packable, Wrap, Pack, EncodeAll, Encoded;
      SweptStep(w, first, snd.buf, i);
      ghost var s := snd.buf[i];
      due := DueOf(low, sndBuf[i]);
      SweptLow(w, s);
      sndBuf := sndBuf[i := Swept(low, sndBuf[i])];
      snd := snd.(buf := snd.buf[i := Swept(w, s)]);
      ptr', out' := ptr, out;
      if due != NotDue {
        ptr', out' := Put(ptr, out, FrameOf(sndBuf[i]), fs, FrameOf(Swept(w, s)));
      } else {
        assert fs + [] == fs;
      }
    }

    /** One pass of the resend loop with its bookkeeping. */
    method SweepNext(i: nat, low: Sweep, ghost w: Sweep, ptr: nat, out: seq<seq<u8>>, lost: nat, fast: nat,
                     ghost fs: seq<Frame>, ghost first: seq<Seg>, ghost c0: Control)
      returns (ptr': nat, out': seq<seq<u8>>, lost': nat, fast': nat)
      requires low == LowSweep(w) && SendRep() && buffer.Length == 3 * cfg.mtu && cfg.Valid()
      requires i < |first| && Fits(first, cfg.Mss()) && Packable(cfg.mtu, fs)
      requires SweptUpTo(w, first, snd.buf, i) && Tallied(c0, w, first[..i], lost, fast, ctl)
      requires Holding(ptr, out, fs + PushFrames(w, first[..i]))
      modifies `sndBuf, `snd, `ctl, buffer
      ensures SendRep() && snd == old(snd).(buf := snd.buf)
      ensures SweptUpTo(w, first, snd.buf, i + 1) && Tallied(c0, w, first[..i + 1], lost', fast', ctl)
      ensures Holding(ptr', out', fs + PushFrames(w, first[..i + 1]))
    {
      hide *;
      FitsAt(cfg, first, i);
      PrefixPackable(w, first, i, cfg, fs);
      PushFramesStep(w, first, i, fs);
      TallyStep(c0, w, first, i, lost, fast, ctl);
      var due;
      ptr', out', due := SweepOne(i, low, w, ptr, out, fs + PushFrames(w, first[..i]), first);
      lost', fast', ctl := Tally(due, sndBuf[i].xmit, lost, fast, ctl);
    }

    /** The resend loop of `ikcp_flush`, starting from the frames `fs`. */
    method SweepBuf(low: Sweep, ghost w: Sweep, ptr: nat, out: seq<seq<u8>>, ghost fs: seq<Frame>)
      returns (ptr': nat, out': seq<seq<u8>>, lost: nat, fast: nat)
      requires low == LowSweep(w) && SendRep() && buffer.Length == 3 * cfg.mtu && cfg.Valid()
      requires Fits(snd.buf, cfg.Mss())
      requires Packable(cfg.mtu, fs) && Holding(ptr, out, fs)
      modifies `sndBuf, `snd, `ctl, buffer
      ensures SendRep() && snd == old(snd).(buf := SweptAll(w, old(snd).buf))
      ensures Holding(ptr', out', fs + PushFrames(w, old(snd).buf))
      ensures Tallied(old(ctl), w, old(snd).buf, lost, fast, ctl)
    {
      ghost var first, c0 := snd.buf, ctl;
      var n, i := |sndBuf|, 0;
      ptr', out', lost, fast := ptr, out, 0, 0;
      SweptNone(w, first, fs);
      while i < n
        invariant 0 <= i <= n == |first| && SendRep() && snd == old(snd).(buf := snd.buf)
        invariant SweptUpTo(w, first, snd.buf, i)
        invariant Holding(ptr', out', fs + PushFrames(w, first[..i]))
        invariant Tallied(c0, w, first[..i], lost, fast, ctl)
      {
        ptr', out', lost, fast := SweepNext(i, low, w, ptr', out', lost, fast, fs, first, c0);
        i := i + 1;
      }
      assert first[..n] == first;
      SweptDone(w, first, snd.buf);
    }

    /** Fills the send window and resends what is due. */
    method FlushSend(low: Sweep, window: nat, ptr: nat, out: seq<seq<u8>>, ghost cb: Cb, ghost fs: seq<Frame>)
      returns (ptr': nat, out': seq<seq<u8>>, lost: nat, fast: nat)
      requires SendRep() && buffer.Length == 3 * cfg.mtu && cfg.Valid()
      requires cb.cfg == cfg && cb.snd == snd && window == Window(cfg, cb.ctl)
      requires low == LowSweep(SweepOf(cb))
      requires snd.una <= snd.nxt <= snd.una + MAX_WND && Fits(Admitted(cb).buf, cfg.Mss())
      requires Packable(cfg.mtu, fs) && Holding(ptr, out, fs)
      modifies `sndQueue, `nsndQue, `sndBuf, `nsndBuf, `sndNxt, `snd, `ctl, buffer
      ensures SendRep() && snd == Admitted(cb).(buf := SweptAll(SweepOf(cb), Admitted(cb).buf))
      ensures Holding(ptr', out', fs + PushFrames(SweepOf(cb), Admitted(cb).buf))
      ensures Tallied(old(ctl), SweepOf(cb), Admitted(cb).buf, lost, fast, ctl)
    {
      AdmitQueued(window, low, SweepOf(cb));
      ptr', out', lost, fast := SweepBuf(low, SweepOf(cb), ptr, out, fs);
    }

    /** Outputs what is left in the buffer. */
    method PutLast(ptr: nat, out: seq<seq<u8>>, ghost fs: seq<Frame>) returns (out': seq<seq<u8>>)
      requires Packable(cfg.mtu, fs) && Holding(ptr, out, fs)
      ensures out' == Encoded(cfg.conv, Datagrams(cfg.mtu, fs))
    {
      PackHeld(cfg.mtu, cfg.conv, fs);
      out' := if ptr > 0 then out + [buffer[..ptr]] else out;
    }

    /** `ikcp_flush` after the control frames. */
    method FlushRest(low: Sweep, window: nat, ptr: nat, out: seq<seq<u8>>, ghost cb: Cb)
      returns (out': seq<seq<u8>>)
      requires SendRep() && buffer.Length == 3 * cfg.mtu && cfg.Valid()
      requires cb.cfg == cfg && cb.snd == snd && cb.ctl.updated && rcv == cb.rcv.(acks := [])
      requires ctl == Probe(cb.ctl).(askSend := false, askTell := false)
      requires low == LowSweep(SweepOf(cb)) && window == Window(cfg, cb.ctl)
      requires snd.una <= snd.nxt <= snd.una + MAX_WND && Fits(Admitted(cb).buf, cfg.Mss())
      requires Packable(cfg.mtu, ControlFrames(cb)) && Packable(cfg.mtu, Output(cb))
      requires Holding(ptr, out, ControlFrames(cb))
      modifies `sndQueue, `nsndQue, `sndBuf, `nsndBuf, `sndNxt, `snd, `ctl, buffer
      ensures SendRep() && State() == KcpModel.Flush(cb)
      ensures out' == Encoded(cfg.conv, Datagrams(cfg.mtu, Output(cb)))
    {
      var ptr', lost, fast;
      ptr', out', lost, fast := FlushSend(low, window, ptr, out, cb, ControlFrames(cb));
      out' := PutLast(ptr', out', Output(cb));
      FlushTail(low.resent, window, lost, fast, cb);
    }

    /** The values of this flush: window to announce, timeouts, thresholds. */
    method FlushValues(ghost cb: Cb) returns (low: Sweep, window: nat)
      requires RecvRep() && cfg.Valid() && cb == State()
      ensures low == LowSweep(SweepOf(cb)) && window == Window(cfg, cb.ctl)
    {
      var wnd: u32 := if nrcvQue < cfg.rcvWnd then cfg.rcvWnd - nrcvQue else 0;
      low := Sweep(ctl.current, ctl.rto, if cfg.nodelay == 0 then ctl.rto / 8 else 0,
                   if cfg.fastResend > 0 then cfg.fastResend else 0xffff_ffff, wnd, rcvNxt, cfg.nodelay);
      window := Window(cfg, ctl);
    }

    /** `ikcp_flush` once `ikcp_update` has been called. */
    method FlushUpdated(ghost cb: Cb) returns (out: seq<seq<u8>>)
      requires SendRep() && RecvRep() && AcksMatch() && buffer.Length == 3 * cfg.mtu && cfg.Valid()
      requires cb == State() && ctl.updated
      requires snd.una <= snd.nxt <= snd.una + MAX_WND && Fits(Admitted(cb).buf, cfg.Mss())
      requires Packable(cfg.mtu, ControlFrames(cb)) && Packable(cfg.mtu, Output(cb))
      modifies `sndQueue, `nsndQue, `sndBuf, `nsndBuf, `sndNxt, `snd, `ctl, `ackcount, `rcv, buffer
      ensures SendRep() && RecvRep() && AcksMatch() && State() == KcpModel.Flush(cb)
      ensures out == Encoded(cfg.conv, Datagrams(cfg.mtu, Output(cb)))
    {
      hide Admitted, ControlFrames, Output, Datagrams, KcpModel.Flush, Packable;
      var low, window := FlushValues(cb);
      var ptr: nat;
      ptr, out := FlushHead(low.wnd, cb);
      out := FlushRest(low, window, ptr, out, cb);
    }

    /** `ikcp_flush`: the datagrams handed to the output callback, in order. */
    method Flush() returns (out: seq<seq<u8>>)
      requires Valid()
      modifies `sndQueue, `nsndQue, `sndBuf, `nsndBuf, `sndNxt, `snd, `ctl, `ackcount, `rcv, buffer
      ensures Valid()
      ensures State() == KcpModel.Flush(old(State()))
      ensures out == Encoded(cfg.conv, Datagrams(cfg.mtu, Output(old(State()))))
    {
      if ctl.updated {
        ghost var cb := State();
        FlushReady(cb);
        out := FlushUpdated(cb);
        InvParts(KcpModel.Flush(cb), cfg, snd, rcv);
      } else {
        out := [];
      }
    }

    /** The congestion update at the end of `ikcp_flush`. */
    method FlushTail(resent: u32, window: nat, lost: nat, fast: nat, ghost cb: Cb)
      requires cfg.Valid() && cb.cfg == cfg && cb.ctl.updated
      requires sndUna == Wrap(snd.una) && sndNxt == Wrap(snd.nxt)
      requires resent == SweepOf(cb).resent && window == Window(cfg, cb.ctl)
      requires snd == Admitted(cb).(buf := SweptAll(SweepOf(cb), Admitted(cb).buf))
      requires rcv == cb.rcv.(acks := [])
      requires Tallied(Probe(cb.ctl).(askSend := false, askTell := false), SweepOf(cb), Admitted(cb).buf, lost, fast, ctl)
      modifies `ctl
      ensures State() == KcpModel.Flush(cb)
    {
      var inflight := Wrap(sndNxt - sndUna);
      FlushIs(cb, snd, lost, fast, ctl, inflight);
      ctl := Congestion(cfg, ctl, inflight, window, fast > 0, lost > 0, resent);
    }

    // ---------------------------------------------------------------- timer

    /** The clock handling of `ikcp_update`, and whether it goes on to flush. */
    method Advance(now: u32) returns (due: bool)
      modifies `ctl
      ensures ctl == Ticked(old(State()), now).ctl
      ensures due == FlushDue(old(ctl), now)
    {
      hide Wrap, TimeDiff;
      ctl := ctl.(current := now);
      if !ctl.updated {
        ctl := ctl.(updated := true, tsFlush := now);
      }
      var slap := TimeDiff(ctl.current, ctl.tsFlush);
      if slap >= RESYNC || slap < -RESYNC {
        ctl := ctl.(tsFlush := ctl.current);
        slap := 0;
      }
      if slap >= 0 {
        ctl := ctl.(tsFlush := Wrap(ctl.tsFlush + cfg.interval));
        if TimeDiff(ctl.current, ctl.tsFlush) >= 0 {
          ctl := ctl.(tsFlush := Wrap(ctl.current + cfg.interval));
        }
      }
      due := slap >= 0;
    }

    /** `ikcp_update`. */
    method Update(now: u32) returns (out: seq<seq<u8>>)
      requires Valid()
      modifies this, buffer
      ensures Valid()
      ensures State() == KcpModel.Update(old(State()), now).0
      ensures out == Encoded(cfg.conv, Datagrams(cfg.mtu, KcpModel.Update(old(State()), now).1))
    {
      var due := Advance(now);
      out := [];
      if due {
        out := Flush();
      }
    }

    /** The loop of `ikcp_check` over `snd_buf`. */
    static method Soonest(list: seq<Seg>, now: u32, limit: nat, ghost segs: seq<Seg>) returns (wait: nat)
      requires Lows(list, segs)
      ensures wait == PacketWait(segs, now, limit)
    {
      wait := limit;
      var i := 0;
      while i < |list|
        invariant 0 <= i <= |list|
        invariant wait == PacketWait(segs[..i], now, limit)
      {
        PacketWaitStep(segs, i, now, limit);
        assert list[i] == Low(segs[i]);
        var diff := TimeDiff(list[i].resendts, now);
        if diff <= 0 {
          PacketWaitZero(segs, i + 1, now, limit);
          return 0;
        }
        if diff < wait {
          wait := diff;
        }
        i := i + 1;
      }
      assert segs[..i] == segs;
    }

    /** `ikcp_check`. */
    method Check(now: u32) returns (t: u32)
      requires Lows(sndBuf, snd.buf)
      ensures t == KcpModel.Check(State(), now)
    {
      if !ctl.updated {
        return now;
      }
      var slap := TimeDiff(now, ctl.tsFlush);
      if slap >= RESYNC || slap < -RESYNC || slap >= 0 {
        return now;
      }
      FlushAhead(now, ctl.tsFlush);
      var wait := Soonest(sndBuf, now, TimeDiff(ctl.tsFlush, now), snd.buf);
      t := Wrap(now + if wait >= cfg.interval then cfg.interval else wait);
    }

    // ------------------------------------------------------------ reconnect

    method RestartAt(i: nat)
      requires SendRep() && i < |sndBuf|
      modifies `sndBuf, `snd
      ensures SendRep() && snd == old(snd).(buf := old(snd.buf)[i := old(snd.buf)[i].(xmit := 0)])
    {
      sndBuf := sndBuf[i := sndBuf[i].(xmit := 0)];
      snd := snd.(buf := snd.buf[i := snd.buf[i].(xmit := 0)]);
    }

    method RestartAll()
      requires SendRep()
      modifies `sndBuf, `snd
      ensures SendRep() && snd == old(snd).(buf := Restarted(old(snd.buf)))
    {
      ghost var first := snd.buf;
      var i := 0;
      hide Restarted, RestartedUpTo;
      RestartNone(first);
      while i < |sndBuf|
        invariant SendRep() && snd == old(snd).(buf := snd.buf)
        invariant 0 <= i <= |first| == |snd.buf|
        invariant RestartedUpTo(first, snd.buf, i)
        decreases |first| - i
      {
        RestartStep(first, snd.buf, i);
        RestartAt(i);
        i := i + 1;
      }
      RestartDone(first, snd.buf);
    }

    /** `KcpWrapper::Reconnect` on a live instance. */
    method Reconnect()
      requires Valid()
      modifies `sndBuf, `snd, `ctl
      ensures Valid()
      ensures State() == KcpModel.Reconnect(old(State()))
    {
      ReconnectInv(State());
      ctl := ctl.(state := 0);
      RestartAll();
    }
  }

  /** A message is read to its last segment, or to the end of the queue. */
  lemma NothingTaken(q: seq<Seg>)
    ensures Bytes(q[..0]) == [] && FirstMessage(q) == 0 + FirstMessage(q[0..]) && FirstMessage(q[|q|..]) == 0
  {
  }

  lemma TakenStep(q: seq<Seg>, i: nat, s: Seg)
    requires i < |q| && s == Low(q[i])
    ensures Bytes(q[..i + 1]) == Bytes(q[..i]) + s.data
    ensures FirstMessage(q[i..]) == if s.frg == 0 then 1 else 1 + FirstMessage(q[i + 1..])
  {
    assert q[..i + 1][..i] == q[..i];
    assert q[i..][1..] == q[i + 1..];
  }

  /** The first `i` segments have been reset. */
  ghost predicate RestartedUpTo(first: seq<Seg>, cur: seq<Seg>, i: nat) {
    i <= |first| && cur == Restarted(first[..i]) + first[i..]
  }

  lemma RestartNone(first: seq<Seg>)
    ensures RestartedUpTo(first, first, 0)
  {
  }

  lemma RestartStep(first: seq<Seg>, cur: seq<Seg>, i: nat)
    requires RestartedUpTo(first, cur, i) && i < |first|
    ensures |cur| == |first| && RestartedUpTo(first, cur[i := cur[i].(xmit := 0)], i + 1)
  {
    assert Restarted(first[..i + 1]) == Restarted(first[..i]) + [first[i].(xmit := 0)];
  }

  lemma RestartDone(first: seq<Seg>, cur: seq<Seg>)
    requires RestartedUpTo(first, cur, |first|)
    ensures cur == Restarted(first)
  {
    assert first[..|first|] == first;
  }

  lemma NumberedLow(w: Sweep, s: Seg, sn: int)
    ensures Numbered(LowSweep(w), s, Wrap(sn)) == Low(Numbered(w, s, sn))
  {
  }

  lemma LowsPush(c: seq<Seg>, segs: seq<Seg>, a: Seg, s: Seg)
    requires Lows(c, segs) && a == Low(s)
    ensures Lows(c + [a], segs + [s])
  {
  }

  lemma PacketWaitStep(segs: seq<Seg>, i: nat, now: u32, limit: nat)
    requires i < |segs|
    ensures PacketWait(segs[..i + 1], now, limit)
         == Max(0, Min(PacketWait(segs[..i], now, limit), TimeDiff(segs[i].resendts, now)))
  {
    assert segs[..i + 1][..i] == segs[..i];
  }

  lemma FlushIs(cb: Cb, s: Sender, lost: nat, fast: nat, c: Control, inflight: u32)
    requires cb.cfg.Valid() && cb.ctl.updated
    requires s == Admitted(cb).(buf := SweptAll(SweepOf(cb), Admitted(cb).buf))
    requires inflight == Wrap(Wrap(s.nxt) - Wrap(s.una))
    requires Tallied(Probe(cb.ctl).(askSend := false, askTell := false), SweepOf(cb), Admitted(cb).buf, lost, fast, c)
    ensures Flush(cb) == Cb(cb.cfg, s, cb.rcv.(acks := []),
              Congestion(cb.cfg, c, inflight, Window(cb.cfg, cb.ctl), fast > 0, lost > 0, SweepOf(cb).resent))
  {
    WrapDifference(s.nxt, s.una);
  }

  lemma InvParts(cb: Cb, cfg: Config, snd: Sender, rcv: Receiver)
    requires Inv(cb) && cb.cfg == cfg && cb.snd == snd && cb.rcv == rcv
    ensures SenderInv(cfg.sndWnd, cfg.Mss(), snd) && ReceiverInv(cfg.rcvWnd, rcv)
  {
  }

  lemma FlushReady(cb: Cb)
    requires Inv(cb)
    ensures Inv(Flush(cb))
    ensures Fits(Admitted(cb).buf, cb.cfg.Mss())
    ensures Packable(cb.cfg.mtu, ControlFrames(cb)) && Packable(cb.cfg.mtu, Output(cb))
  {
    FlushInv(cb);
    AdmittedInv(cb);
    ControlParts(cb);
    OutputFits(cb);
  }

  lemma WrapDifference(x: int, y: int)
    ensures Wrap(Wrap(x) - Wrap(y)) == Wrap(x - y)
  {
  }

  lemma FlushAhead(now: u32, t: u32)
    requires -RESYNC <= TimeDiff(now, t) < 0
    ensures TimeDiff(t, now) == -TimeDiff(now, t)
  {
  }

  /** An overdue segment makes the wait 0 whatever follows it. */
  lemma {:induction false} PacketWaitZero(buf: seq<Seg>, i: nat, now: u32, limit: nat)
    requires i <= |buf| && PacketWait(buf[..i], now, limit) == 0
    ensures PacketWait(buf, now, limit) == 0
  {
    if i < |buf| {
      assert buf[..|buf| - 1][..i] == buf[..i];
      PacketWaitZero(buf[..|buf| - 1], i, now, limit);
    } else {
      assert buf[..i] == buf;
    }
  }

  /** Bookkeeping of the resend loop for one segment: timeouts, fast resends, the
      transmission counter and the dead-link test. */
  method Tally(due: Due, xmit: u32, lost: nat, fast: nat, c: Control) returns (lost': nat, fast': nat, c': Control)
    ensures (lost', fast', c') == Counted(due, xmit, lost, fast, c)
  {
    lost', fast', c' := lost, fast, c;
    if due == Timeout {
      lost' := lost + 1;
      c' := c'.(xmit := Wrap(c'.xmit + 1));
    } else if due == Fast {
      fast' := fast + 1;
    }
    if due != NotDue && xmit >= DEAD_LINK {
      c' := c'.(state := STATE_DEAD);
    }
  }

  function Counted(due: Due, xmit: u32, lost: nat, fast: nat, c: Control): (nat, nat, Control) {
    var c1 := if due == Timeout then c.(xmit := Wrap(c.xmit + 1)) else c;
    (lost + if due == Timeout then 1 else 0,
     fast + if due == Fast then 1 else 0,
     if due != NotDue && xmit >= DEAD_LINK then c1.(state := STATE_DEAD) else c1)
  }

  /** The counts over the segments passed so far. */
  ghost predicate Tallied(c0: Control, w: Sweep, buf: seq<Seg>, lost: nat, fast: nat, c: Control) {
    && lost == CountDue(w, buf, Timeout) && fast == CountDue(w, buf, Fast)
    && c == SweptControl(c0, w, buf)
  }

  lemma TallyStep(c0: Control, w: Sweep, first: seq<Seg>, i: nat, lost: nat, fast: nat, c: Control)
    requires i < |first| && Tallied(c0, w, first[..i], lost, fast, c)
    ensures var r := Counted(DueOf(w, first[i]), Swept(w, first[i]).xmit, lost, fast, c);
            Tallied(c0, w, first[..i + 1], r.0, r.1, r.2)
  {
    var a, b := first[..i], first[..i + 1];
    assert b[..i] == a && b[i] == first[i];
    assert forall j :: 0 <= j < i ==> b[j] == a[j];
    WrapSum(c0.xmit + CountDue(w, a, Timeout), 1);
  }

  lemma PushFramesStep(w: Sweep, first: seq<Seg>, i: nat, fs: seq<Frame>)
    requires i < |first|
    ensures fs + PushFrames(w, first[..i + 1])
         == fs + PushFrames(w, first[..i]) + (if DueOf(w, first[i]).NotDue? then [] else [FrameOf(Swept(w, first[i]))])
  {
    var b := first[..i + 1];
    assert b[..i] == first[..i] && b[i] == first[i];
    SumAssociative(fs, PushFrames(w, first[..i]), if DueOf(w, first[i]).NotDue? then [] else [FrameOf(Swept(w, first[i]))]);
  }

  /** The control frames in the order they are put, and that they fit. */
  lemma ControlParts(cb: Cb)
    requires cb.cfg.Valid()
    ensures var last, ask := Last(cb.rcv.acks), Probe(cb.ctl);
            var fs := AckFrames(cb, |cb.rcv.acks|);
            var fs' := fs + if ask.askSend then [HeadFrame(cb, CMD_WASK, last.sn, last.ts)] else [];
            && ControlFrames(cb) == fs' + (if ask.askTell then [HeadFrame(cb, CMD_WINS, last.sn, last.ts)] else [])
            && Packable(cb.cfg.mtu, fs) && Packable(cb.cfg.mtu, fs') && Packable(cb.cfg.mtu, ControlFrames(cb))
  {
  }

  function Last(acks: seq<Ack>): Ack {
    if acks == [] then Ack(0, 0) else acks[|acks| - 1]
  }

  /** The counters the resend loop keeps in the control block. */
  function SweptControl(c: Control, w: Sweep, buf: seq<Seg>): Control {
    c.(xmit := Wrap(c.xmit + CountDue(w, buf, Timeout)), state := if LinkDead(w, buf) then STATE_DEAD else c.state)
  }

  /** The first `i` segments have been swept. */
  ghost predicate SweptUpTo(w: Sweep, first: seq<Seg>, cur: seq<Seg>, i: nat) {
    i <= |first| && cur == SweptAll(w, first[..i]) + first[i..]
  }

  lemma SweptNone(w: Sweep, first: seq<Seg>, fs: seq<Frame>)
    ensures SweptUpTo(w, first, first, 0)
    ensures fs + PushFrames(w, first[..0]) == fs
  {
    assert SweptAll(w, first[..0]) == [];
  }

  lemma SweptStep(w: Sweep, first: seq<Seg>, cur: seq<Seg>, i: nat)
    requires SweptUpTo(w, first, cur, i) && i < |first|
    ensures |cur| == |first| && cur[i] == first[i]
    ensures SweptUpTo(w, first, cur[i := Swept(w, cur[i])], i + 1)
  {
    assert SweptAll(w, first[..i + 1]) == SweptAll(w, first[..i]) + [Swept(w, first[i])];
    assert cur[i := Swept(w, cur[i])] == SweptAll(w, first[..i + 1]) + first[i + 1..];
  }

  lemma SweptDone(w: Sweep, first: seq<Seg>, cur: seq<Seg>)
    requires SweptUpTo(w, first, cur, |first|)
    ensures cur == SweptAll(w, first)
  {
    assert first[..|first|] == first;
  }

  lemma SweptLow(w: Sweep, s: Seg)
    ensures var low := LowSweep(w);
            && DueOf(low, Low(s)) == DueOf(w, s)
            && Swept(low, Low(s)) == Low(Swept(w, s))
            && FrameOf(Low(Swept(w, s))) == OnWire(FrameOf(Swept(w, s)))
            && Swept(w, s).data == s.data
  {
  }

  lemma FitsAt(cfg: Config, segs: seq<Seg>, i: nat)
    requires cfg.Valid() && Fits(segs, cfg.Mss()) && i < |segs|
    ensures |segs[i].data| + OVERHEAD <= cfg.mtu
  {
    assert segs[i] in segs;
  }

  lemma PrefixPackable(w: Sweep, first: seq<Seg>, i: nat, cfg: Config, fs: seq<Frame>)
    requires cfg.Valid() && i <= |first| && Fits(first, cfg.Mss()) && Packable(cfg.mtu, fs)
    ensures Packable(cfg.mtu, fs + PushFrames(w, first[..i]))
  {
    assert forall s :: s in first[..i] ==> s in first;
    PushFramesFit(w, first[..i], cfg.Mss());
  }

  function LastAck(acks: seq<Ack>): Ack {
    Ack(Wrap(Last(acks).sn), Last(acks).ts)
  }

  lemma PackHeld(mtu: nat, conv: u32, fs: seq<Frame>)
    requires Packable(mtu, fs)
    ensures var g := Pack(mtu, fs).1;
            |EncodeAll(conv, g)| == Size(g) <= mtu && (g == [] <==> Size(g) == 0)
  {
    PackSound(mtu, fs);
    EncodedSize(conv, Pack(mtu, fs).1);
  }

  lemma EncodeAllSnoc(conv: u32, fs: seq<Frame>, g: Frame)
    ensures EncodeAll(conv, fs + [g]) == EncodeAll(conv, fs) + Encode(conv, g)
  {
    assert (fs + [g])[..|fs|] == fs;
  }

  lemma EncodeOne(conv: u32, g: Frame)
    ensures EncodeAll(conv, [g]) == Encode(conv, g)
  {
    hide Encode;
    EncodeAllSnoc(conv, [], g);
    assert [] + [g] == [g] && [] + Encode(conv, g) == Encode(conv, g);
  }

  lemma PackSnoc(mtu: nat, fs: seq<Frame>, g: Frame)
    ensures var p := Pack(mtu, fs);
            Pack(mtu, fs + [g]) == if Size(p.1) + FrameSize(g) > mtu
                                   then (if Size(p.1) == 0 then p.0 else p.0 + [p.1], [g]) else (p.0, p.1 + [g])
  {
    assert (fs + [g])[..|fs|] == fs;
  }

  lemma EncodeOnWire(conv: u32, g: Frame)
    ensures Encode(conv, OnWire(g)) == Encode(conv, g)
  {
    assert Wrap(Wrap(g.sn)) == Wrap(g.sn) && Wrap(Wrap(g.una)) == Wrap(g.una);
  }

  /** Putting one more frame: the packing after it, in bytes. */
  lemma PutPacked(mtu: nat, conv: u32, fs: seq<Frame>, g: Frame)
    requires Packable(mtu, fs) && FrameSize(g) <= mtu
    ensures var p, q := Pack(mtu, fs), Pack(mtu, fs + [g]);
            && |EncodeAll(conv, p.1)| == Size(p.1) <= mtu
            && (if Size(p.1) + FrameSize(g) > mtu
                then Encoded(conv, q.0) == Encoded(conv, p.0) + (if Size(p.1) == 0 then [] else [EncodeAll(conv, p.1)])
                     && EncodeAll(conv, q.1) == Encode(conv, OnWire(g))
                else Encoded(conv, q.0) == Encoded(conv, p.0)
                     && EncodeAll(conv, q.1) == EncodeAll(conv, p.1) + Encode(conv, OnWire(g)))
  {
    PackHeld(mtu, conv, fs);
    EncodeOnWire(conv, g);
    PackSnoc(mtu, fs, g);
    hide Encode, EncodeAll, OnWire, Packable, Size, Pack;
    var p := Pack(mtu, fs);
    if Size(p.1) + FrameSize(g) > mtu {
      EncodeOne(conv, g);
    } else {
      EncodeAllSnoc(conv, p.1, g);
    }
  }

  lemma AckFramesSnoc(cb: Cb, i: nat)
    requires cb.cfg.Valid() && i < |cb.rcv.acks|
    ensures AckFrames(cb, i + 1) == AckFrames(cb, i) + [HeadFrame(cb, CMD_ACK, cb.rcv.acks[i].sn, cb.rcv.acks[i].ts)]
  {
  }

  /** The parser has taken `frames` off the front of `b` and `data` is left. */
  ghost predicate ReadUpTo(conv: u32, b: seq<u8>, data: seq<u8>, frames: seq<Frame>) {
    Parse(conv, b) == (frames + Parse(conv, data).0, Parse(conv, data).1)
  }

  /** The header at the front of `data` is a good one. */
  predicate Readable(conv: u32, data: seq<u8>) {
    && |data| >= OVERHEAD && Get32(data, 0) == conv
    && |data| - OVERHEAD >= Get32(data, 20) && Signed(Get32(data, 20)) >= 0
    && KnownCmd(data[4])
  }

  lemma ReadStop(conv: u32, b: seq<u8>, data: seq<u8>, frames: seq<Frame>)
    requires ReadUpTo(conv, b, data, frames)
    ensures !Readable(conv, data) ==> Parse(conv, b) == (frames, Parse(conv, data).1)
  {
    assert frames + [] == frames;
  }

  lemma ParsedOne(conv: u32, data: seq<u8>)
    requires Readable(conv, data)
    ensures var rest := Parse(conv, data[OVERHEAD + Get32(data, 20)..]);
            Parse(conv, data) == ([DecodeAt(data)] + rest.0, rest.1)
  {
    hide Get32, DecodeAt;
  }

  lemma DecodedOnWire(data: seq<u8>)
    requires |data| >= OVERHEAD && |data| - OVERHEAD >= Get32(data, 20)
    ensures OnWire(DecodeAt(data)) == DecodeAt(data)
  {
    hide Get32;
  }

  lemma ReadOne(conv: u32, b: seq<u8>, data: seq<u8>, frames: seq<Frame>)
    requires ReadUpTo(conv, b, data, frames) && Readable(conv, data)
    ensures ReadUpTo(conv, b, data[OVERHEAD + Get32(data, 20)..], frames + [DecodeAt(data)])
    ensures OnWire(DecodeAt(data)) == DecodeAt(data)
  {
    ParsedOne(conv, data);
    DecodedOnWire(data);
    hide Get32, DecodeAt, Parse, OnWire;
    SumAssociative(frames, [DecodeAt(data)], Parse(conv, data[OVERHEAD + Get32(data, 20)..]).0);
  }

  lemma ReadFolds(start: Cb, frames: seq<Frame>, f: Frame)
    requires OnWire(f) == f
    ensures InputFrames(start, frames + [f]) == InputFrame(InputFrames(start, frames), f)
    ensures MaxUna(frames + [f]) == if f.una > MaxUna(frames) then f.una else MaxUna(frames)
    ensures MaxAck(frames + [f]) ==
            if f.cmd == CMD_ACK && (MaxAck(frames).None? || TimeDiff(f.sn, MaxAck(frames).value) > 0) then Some(f.sn)
            else MaxAck(frames)
  {
    assert (frames + [f])[..|frames|] == frames;
  }

  lemma InsertWindow(wnd: nat, r: Receiver, s: Seg)
    requires WindowInv(wnd, r) && r.nxt <= s.sn < r.nxt + wnd
    ensures WindowInv(wnd, r.(buf := Insert(r.buf, s)))
  {
    InsertEffect(r.buf, s);
  }

  lemma InputPushAcks(wnd: nat, r: Receiver, f: Frame)
    requires ReceiverInv(wnd, r)
    ensures var x := Near(r.nxt + wnd, Wrap(f.sn));
            InputPush(wnd, r, f).acks == if x < r.nxt + wnd then AckPush(r.acks, x, f.ts) else r.acks
  {
    var x := Near(r.nxt + wnd, Wrap(f.sn));
    ParseDataInv(wnd, r.(acks := AckPush(r.acks, x, f.ts)), Arrived(f, x));
  }

  lemma RecvKeeps(wnd: nat, r: Receiver, len: int)
    requires ReceiverInv(wnd, r)
    ensures ReceiverInv(wnd, Recv(wnd, r, len).0) && Recv(wnd, r, len).0.acks == r.acks
  {
    hide Recv, ReceiverInv;
    RecvInv(wnd, r, len);
  }

  lemma PushOnWire(f: Frame, x: int)
    requires OnWire(f) == f
    ensures Wrap(f.sn) == f.sn && Wrap(f.una) == f.una
    ensures Arrived(f, Wrap(x)) == Low(Arrived(f, x)) && Arrived(f, Wrap(x)).sn == Wrap(x) && Arrived(f, x).sn == x
  {
  }

  lemma NotNew(wnd: nat, r: Receiver, s: Seg)
    requires s.sn < r.nxt
    ensures ParseData(wnd, r, s) == r
  {
  }

  lemma PendingAside(wnd: nat, r: Receiver, acks: seq<Ack>)
    requires ReceiverInv(wnd, r)
    ensures |acks| <= ACK_BLOCK ==> ReceiverInv(wnd, r.(acks := acks))
  {
  }

  lemma TakeWindow(wnd: nat, r: Receiver)
    requires ReceiverInv(wnd, r)
    ensures WindowInv(wnd, r.(queue := r.queue[FirstMessage(r.queue)..]))
  {
  }

  // ------------------------------------------- modular tests against indices

  /** The test of `ikcp_parse_una` at the `k`-th entry, the earlier ones being
      older than `una`. */
  lemma UnaDiff(cfg: Config, s: Sender, k: nat, una: u32)
    requires cfg.Valid() && SenderInv(cfg.sndWnd, cfg.Mss(), s) && k < |s.buf|
    requires k > 0 ==> Near(s.una, una) > s.una
    ensures TimeDiff(una, Low(s.buf[k]).sn) > 0 <==> s.buf[k].sn < Near(s.una, una)
  {
    assert s.buf[k] in s.buf;
    TimeDiffExact(Near(s.una, una), s.buf[k].sn);
  }

  /** The range test of `ikcp_parse_ack` and `ikcp_parse_fastack`. */
  lemma OutstandingDiff(cfg: Config, s: Sender, sn: u32)
    requires cfg.Valid() && SenderInv(cfg.sndWnd, cfg.Mss(), s)
    ensures TimeDiff(sn, Wrap(s.una)) < 0 || TimeDiff(sn, Wrap(s.nxt)) >= 0 <==> !Outstanding(s, Near(s.una, sn))
  {
    TimeDiffExact(Near(s.una, sn), s.nxt);
  }

  /** Comparing `sn` with these segments modulo 2^32 is comparing `x` with them. */
  ghost predicate Faithful(segs: seq<Seg>, sn: u32, x: int) {
    forall s :: s in segs ==>
      && (sn == Wrap(s.sn) <==> x == s.sn)
      && (TimeDiff(sn, Wrap(s.sn)) < 0 <==> x < s.sn)
      && (TimeDiff(sn, Wrap(s.sn)) > 0 <==> x > s.sn)
  }

  lemma CloseIsFaithful(segs: seq<Seg>, lo: int, hi: int, x: int)
    requires Within(segs, lo, hi) && lo <= x < hi && hi - lo <= HALF
    ensures Faithful(segs, Wrap(x), x)
  {
    forall t | t in segs
      ensures Wrap(x) == Wrap(t.sn) <==> x == t.sn
      ensures TimeDiff(Wrap(x), Wrap(t.sn)) == x - t.sn
    {
      WrapInjective(x, t.sn);
      TimeDiffExact(x, t.sn);
    }
  }

  lemma AllFaithful(cfg: Config, s: Sender, sn: u32)
    requires cfg.Valid() && SenderInv(cfg.sndWnd, cfg.Mss(), s)
    requires Outstanding(s, Near(s.una, sn))
    ensures Faithful(s.buf, sn, Near(s.una, sn))
  {
    CloseIsFaithful(s.buf, s.una, s.nxt, Near(s.una, sn));
  }

  /** The window tests of `ikcp_input` and `ikcp_parse_data`. */
  lemma WindowDiff(wnd: nat, r: Receiver, sn: u32)
    requires wnd <= MAX_WND
    ensures var x := Near(r.nxt + wnd, sn);
            && (TimeDiff(sn, Wrap(r.nxt + wnd)) < 0 <==> x < r.nxt + wnd)
            && (x < r.nxt + wnd ==> (TimeDiff(sn, Wrap(r.nxt)) < 0 <==> x < r.nxt))
  {
    TimeDiffExact(Near(r.nxt + wnd, sn), r.nxt);
  }

  lemma WrapSum(x: int, d: int)
    ensures Wrap(Wrap(x) + d) == Wrap(x + d)
  {
  }

  lemma FaithfulAt(list: seq<Seg>, segs: seq<Seg>, i: nat, sn: u32, x: int)
    requires Lows(list, segs) && Faithful(segs, sn, x) && i < |segs|
    ensures sn == list[i].sn <==> x == segs[i].sn
    ensures TimeDiff(sn, list[i].sn) < 0 <==> x < segs[i].sn
    ensures TimeDiff(sn, list[i].sn) > 0 <==> x > segs[i].sn
  {
    assert segs[i] in segs && list[i] == Low(segs[i]);
  }

  /** Every entry from `i` on is beyond `s`. */
  ghost predicate InsertedFrom(segs: seq<Seg>, i: nat, s: Seg) {
    i <= |segs| && Insert(segs, s) == Insert(segs[..i], s) + segs[i..]
  }

  lemma InsertEnds(segs: seq<Seg>, s: Seg)
    ensures InsertedFrom(segs, |segs|, s)
    ensures InsertedFrom(segs, 0, s) ==> Insert(segs, s) == segs[..0] + [s] + segs[0..]
  {
    assert segs[..|segs|] == segs && Insert(segs, s) + [] == Insert(segs, s);
  }

  lemma InsertStep(segs: seq<Seg>, i: nat, s: Seg)
    requires InsertedFrom(segs, i, s) && i > 0
    ensures s.sn == segs[i - 1].sn ==> Insert(segs, s) == segs
    ensures s.sn > segs[i - 1].sn ==> Insert(segs, s) == segs[..i] + [s] + segs[i..]
    ensures s.sn < segs[i - 1].sn ==> InsertedFrom(segs, i - 1, s)
  {
    assert segs[..i][..i - 1] == segs[..i - 1];
    assert segs[i - 1..] == [segs[i - 1]] + segs[i..];
    assert segs[..i] + segs[i..] == segs;
    SumAssociative(Insert(segs[..i - 1], s), [segs[i - 1]], segs[i..]);
  }

  /** Every entry before `i` is older than `x`. */
  ghost predicate RemovedUpTo(segs: seq<Seg>, i: nat, x: int) {
    i <= |segs| && Remove(segs, x) == segs[..i] + Remove(segs[i..], x)
  }

  lemma RemoveStep(segs: seq<Seg>, i: nat, x: int)
    requires RemovedUpTo(segs, i, x) && i < |segs|
    ensures x == segs[i].sn ==> Remove(segs, x) == segs[..i] + segs[i + 1..]
    ensures x < segs[i].sn ==> Remove(segs, x) == segs
    ensures x > segs[i].sn ==> RemovedUpTo(segs, i + 1, x)
  {
    assert segs[i..][1..] == segs[i + 1..];
    assert segs[..i] + segs[i..] == segs;
    assert segs[..i + 1] == segs[..i] + [segs[i]];
    SumAssociative(segs[..i], [segs[i]], Remove(segs[i + 1..], x));
  }

  /** The first `i` entries have been passed. */
  ghost predicate SkippedUpTo(first: seq<Seg>, cur: seq<Seg>, i: nat, x: int) {
    && i <= |first| == |cur|
    && cur[i..] == first[i..]
    && Skipped(first, x) == cur[..i] + Skipped(first[i..], x)
  }

  lemma SkippedHead(segs: seq<Seg>, i: nat, x: int)
    requires i < |segs|
    ensures x < segs[i].sn ==> Skipped(segs[i..], x) == segs[i..]
    ensures x == segs[i].sn ==> Skipped(segs[i..], x) == [segs[i]] + Skipped(segs[i + 1..], x)
    ensures x > segs[i].sn ==>
              Skipped(segs[i..], x) == [segs[i].(fastack := Wrap(segs[i].fastack + 1))] + Skipped(segs[i + 1..], x)
  {
    hide Wrap;
    assert segs[i..][1..] == segs[i + 1..];
  }

  lemma SkippedStep(first: seq<Seg>, cur: seq<Seg>, i: nat, x: int)
    requires SkippedUpTo(first, cur, i, x) && i < |first|
    ensures cur[i] == first[i]
    ensures x < first[i].sn ==> cur == Skipped(first, x)
    ensures x == first[i].sn ==> SkippedUpTo(first, cur, i + 1, x)
    ensures x > first[i].sn ==>
              SkippedUpTo(first, cur[i := cur[i].(fastack := Wrap(cur[i].fastack + 1))], i + 1, x)
  {
    SkippedHead(first, i, x);
    hide Skipped, Wrap;
    assert cur[i] == cur[i..][0] == first[i..][0];
    if x < first[i].sn {
      assert cur == cur[..i] + cur[i..];
    } else {
      var s := if first[i].sn == x then cur[i] else cur[i].(fastack := Wrap(cur[i].fastack + 1));
      Rewritten(first, cur, i, s);
      assert x == first[i].sn ==> cur[i := s] == cur;
      SumAssociative(cur[..i], [s], Skipped(first[i + 1..], x));
    }
  }

  lemma Rewritten(first: seq<Seg>, cur: seq<Seg>, i: nat, s: Seg)
    requires |first| == |cur| && i < |cur| && cur[i..] == first[i..]
    ensures cur[i := s][i + 1..] == first[i + 1..] && cur[i := s][..i + 1] == cur[..i] + [s]
  {
    assert first[i..][1..] == first[i + 1..] && cur[i..][1..] == cur[i + 1..];
  }

  lemma SkippedDone(first: seq<Seg>, cur: seq<Seg>, x: int)
    requires SkippedUpTo(first, cur, |first|, x)
    ensures cur == Skipped(first, x)
  {
    assert cur[..|first|] + [] == cur;
  }
}
