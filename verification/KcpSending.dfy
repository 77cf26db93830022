/**
 What a flush sends, and what it leaves behind, in terms of the segments and settings
 it finds.
 */
module KcpSending {
  import opened U32
  import opened KcpCodec
  import opened KcpModel
  import opened KcpInvariants
  import opened KcpControl
  import opened KcpProtocol
  import Arith

  // ------------------------------------------------------------- data frames

  /** How often a segment must have been passed over to be sent again at once; without
      fast resend only a full counter is as large. */
  function Threshold(cfg: Config): nat {
    if cfg.fastResend > 0 then cfg.fastResend else 0xffff_ffff
  }

  /** Sent before, and its time is up. */
  predicate TimedOut(cb: Cb, s: Seg) {
    s.xmit != 0 && TimeDiff(cb.ctl.current, s.resendts) >= 0
  }

  /** Sent before, its time is not up, but others behind it were acknowledged. */
  predicate PassedOver(cb: Cb, s: Seg) {
    && s.xmit != 0 && TimeDiff(cb.ctl.current, s.resendts) < 0
    && s.fastack >= Threshold(cb.cfg) && Signed(s.xmit) <= FASTACK_LIMIT
  }

  /** The segments of `snd_buf` that a flush must send. */
  predicate MustSend(cb: Cb, s: Seg) {
    s.xmit == 0 || TimedOut(cb, s) || PassedOver(cb, s)
  }

  /** The frame for a segment: stamped with the time, the free space of the receive
      queue and the next number expected. */
  function DataFrame(cb: Cb, sn: int, s: Seg): Frame
    requires |cb.rcv.queue| <= cb.cfg.rcvWnd
  {
    Frame(CMD_PUSH, s.frg, (cb.cfg.rcvWnd - |cb.rcv.queue|) % 0x1_0000, cb.ctl.current, sn, cb.rcv.nxt, s.data)
  }

  lemma DueIs(cb: Cb, s: Seg)
    requires cb.cfg.Valid()
    ensures var due := DueOf(SweepOf(cb), s);
            && (due.First? <==> s.xmit == 0) && (due.Timeout? <==> TimedOut(cb, s))
            && (due.Fast? <==> PassedOver(cb, s)) && (due.NotDue? <==> !MustSend(cb, s))
  {
    hide TimeDiff, Signed;
  }

  lemma FrameIs(cb: Cb, s: Seg)
    requires Inv(cb) && MustSend(cb, s)
    ensures FrameOf(Swept(SweepOf(cb), s)) == DataFrame(cb, s.sn, s)
  {
    hide TimeDiff, Signed, SenderInv, Wrap, Backoff;
    DueIs(cb, s);
  }

  /** The frames of the resend loop and where they come from. */
  lemma {:induction false} SentFrom(w: Sweep, buf: seq<Seg>, f: Frame) returns (k: nat)
    requires f in PushFrames(w, buf)
    ensures k < |buf| && !DueOf(w, buf[k]).NotDue? && f == FrameOf(Swept(w, buf[k]))
  {
    hide DueOf, Swept;
    var n := |buf| - 1;
    if f in PushFrames(w, buf[..n]) {
      k := SentFrom(w, buf[..n], f);
    } else {
      k := n;
    }
  }

  lemma DataIsPush(cb: Cb, f: Frame)
    requires cb.cfg.Valid() && cb.ctl.updated
    ensures f in Output(cb) && f.cmd == CMD_PUSH <==> f in PushFrames(SweepOf(cb), Admitted(cb).buf)
  {
    hide Probe, WndUnused, DueOf, Swept, Admitted;
    if f in PushFrames(SweepOf(cb), Admitted(cb).buf) {
      var k := SentFrom(SweepOf(cb), Admitted(cb).buf, f);
    }
  }

  /** `s`, at place `j` of `snd_buf`, has come from the queue and is numbered. */
  ghost predicate NewSegment(snd: Sender, j: nat, s: Seg) {
    var i := j - |snd.buf|;
    && 0 <= i < |snd.queue| && s.sn == snd.nxt + i && s.xmit == 0
    && s.frg == snd.queue[i].frg && s.data == snd.queue[i].data
  }

  lemma AdmitsParts(s: Sender, s': Sender, w: Sweep, k: nat)
    requires Admits(s, s', w, k)
    ensures |s'.buf| == |s.buf| + k && s'.buf[..|s.buf|] == s.buf
    ensures forall j :: |s.buf| <= j < |s'.buf| ==> NewSegment(s, j, s'.buf[j])
  {
    var added := NumberedAll(w, s.queue[..k], s.nxt);
    forall j | |s.buf| <= j < |s'.buf| ensures NewSegment(s, j, s'.buf[j]) {
      assert s'.buf[j] == added[j - |s.buf|];
    }
  }

  /** `snd_buf` as the resend loop finds it: what was there, then what is new. */
  lemma AdmittedIs(cb: Cb) returns (k: nat)
    requires Inv(cb)
    ensures k <= |cb.snd.queue| && Admitted(cb).nxt == cb.snd.nxt + k && Admitted(cb).queue == cb.snd.queue[k..]
    ensures var b := Admitted(cb).buf; |b| == |cb.snd.buf| + k && b[..|cb.snd.buf|] == cb.snd.buf && Ascending(b)
    ensures forall j :: |cb.snd.buf| <= j < |Admitted(cb).buf| ==> NewSegment(cb.snd, j, Admitted(cb).buf[j])
  {
    hide Window, Ascending, Fits, Within, ReceiverInv, NumberedAll, Admit, NewSegment;
    AdmittedInv(cb);
    k := AdmitEffect(cb.snd, Window(cb.cfg, cb.ctl), SweepOf(cb));
    AdmitsParts(cb.snd, Admitted(cb), SweepOf(cb), k);
  }

  /** A flush sends every segment it numbers, at once. */
  lemma NewAreSent(cb: Cb, i: nat)
    requires Inv(cb) && cb.ctl.updated && i < Flush(cb).snd.nxt - cb.snd.nxt
    ensures i < |cb.snd.queue| && DataFrame(cb, cb.snd.nxt + i, cb.snd.queue[i]) in Output(cb)
  {
    hide Admitted, FlushControl, ControlFrames, DueOf, Swept, PushFrames, SenderInv;
    var k := AdmittedIs(cb);
    var b := Admitted(cb).buf;
    var s := b[|cb.snd.buf| + i];
    assert NewSegment(cb.snd, |cb.snd.buf| + i, s);
    DueIs(cb, s);
    DueIsSent(SweepOf(cb), b, |cb.snd.buf| + i);
    FrameIs(cb, s);
  }

  /** Of those in flight it sends exactly the ones that have never been sent, whose time
      is up, or that were passed over often enough. */
  lemma OldAreSentExactly(cb: Cb, s: Seg)
    requires Inv(cb) && cb.ctl.updated && s in cb.snd.buf
    ensures (exists f :: f in Output(cb) && f.cmd == CMD_PUSH && f.sn == s.sn) <==> MustSend(cb, s)
    ensures MustSend(cb, s) ==> DataFrame(cb, s.sn, s) in Output(cb)
  {
    hide Admitted, FlushControl, ControlFrames, DueOf, Swept, PushFrames, SenderInv, MustSend, Output;
    var k := AdmittedIs(cb);
    var b := Admitted(cb).buf;
    var i :| 0 <= i < |cb.snd.buf| && cb.snd.buf[i] == s;
    assert b[i] == b[..|cb.snd.buf|][i];
    DueIs(cb, s);
    DueIsSent(SweepOf(cb), b, i);
    if MustSend(cb, s) {
      FrameIs(cb, s);
      DataIsPush(cb, DataFrame(cb, s.sn, s));
    }
    if f :| f in Output(cb) && f.cmd == CMD_PUSH && f.sn == s.sn {
      DataIsPush(cb, f);
    }
  }

  /** And nothing else. */
  lemma OnlyTheseAreSent(cb: Cb, f: Frame)
    requires Inv(cb) && cb.ctl.updated && f in Output(cb) && f.cmd == CMD_PUSH
    ensures || (exists s :: s in cb.snd.buf && MustSend(cb, s) && f == DataFrame(cb, s.sn, s))
            || (exists i :: 0 <= i < |cb.snd.queue| && cb.snd.nxt + i < Flush(cb).snd.nxt
                            && f == DataFrame(cb, cb.snd.nxt + i, cb.snd.queue[i]))
  {
    hide Admitted, FlushControl, ControlFrames, DueOf, Swept, PushFrames, SenderInv, Output;
    DataIsPush(cb, f);
    var k := AdmittedIs(cb);
    var b := Admitted(cb).buf;
    var j := SentFrom(SweepOf(cb), b, f);
    DueIs(cb, b[j]);
    FrameIs(cb, b[j]);
    if j < |cb.snd.buf| {
      assert b[j] == b[..|cb.snd.buf|][j] == cb.snd.buf[j];
      assert cb.snd.buf[j] in cb.snd.buf;
    } else {
      assert NewSegment(cb.snd, j, b[j]);
      var i := j - |cb.snd.buf|;
      assert f == DataFrame(cb, cb.snd.nxt + i, cb.snd.queue[i]);
    }
  }

  // ----------------------------------------------------- the segments after it

  lemma EntryIs(cb: Cb, i: nat)
    requires Inv(cb) && cb.ctl.updated && i < |cb.snd.buf|
    ensures i < |Flush(cb).snd.buf| && Flush(cb).snd.buf[i] == Swept(SweepOf(cb), cb.snd.buf[i])
  {
    hide Admitted, FlushControl, DueOf, Swept, SenderInv;
    var k := AdmittedIs(cb);
    var b := Admitted(cb).buf;
    assert b[i] == b[..|cb.snd.buf|][i];
  }

  /** What is new is in flight after it, sent once, with the present timeout and, in the
      ordinary mode, an eighth of grace. */
  lemma NewAreStamped(cb: Cb, i: nat)
    requires Inv(cb) && cb.ctl.updated && i < Flush(cb).snd.nxt - cb.snd.nxt
    ensures i < |cb.snd.queue| && |cb.snd.buf| + i < |Flush(cb).snd.buf|
    ensures var s, t := cb.snd.queue[i], Flush(cb).snd.buf[|cb.snd.buf| + i];
            && t.sn == cb.snd.nxt + i && t.frg == s.frg && t.data == s.data
            && t.xmit == 1 && t.ts == cb.ctl.current && t.rto == cb.ctl.rto
            && t.resendts == Wrap(cb.ctl.current + cb.ctl.rto + if cb.cfg.nodelay == 0 then cb.ctl.rto / 8 else 0)
  {
    hide Admitted, FlushControl, SenderInv, Signed, TimeDiff, Backoff;
    var k := AdmittedIs(cb);
    var j := |cb.snd.buf| + i;
    assert NewSegment(cb.snd, j, Admitted(cb).buf[j]);
    assert Flush(cb).snd.buf[j] == Swept(SweepOf(cb), Admitted(cb).buf[j]);
  }

  /** What is not sent is left as it is. */
  lemma UnsentIsKept(cb: Cb, i: nat)
    requires Inv(cb) && cb.ctl.updated && i < |cb.snd.buf| && !MustSend(cb, cb.snd.buf[i])
    ensures i < |Flush(cb).snd.buf| && Flush(cb).snd.buf[i] == cb.snd.buf[i]
  {
    hide Flush, TimeDiff, Signed, SenderInv, DueOf, SweepOf, MustSend;
    EntryIs(cb, i);
    DueIs(cb, cb.snd.buf[i]);
  }

  /** The timeout of a segment after it has run out: in the ordinary mode at least
      doubled, in the faster modes half as long again, or longer by half the present
      estimate. */
  predicate BackedOff(cb: Cb, before: u32, after: u32) {
    if cb.cfg.nodelay == 0 then after == Wrap(if before >= cb.ctl.rto then 2 * before else before + cb.ctl.rto)
    else if cb.cfg.nodelay == 1 then
      if before < HALF then 2 * after == 3 * before - before % 2 else after == before - (MODULUS - before) / 2
    else after == Wrap(before + cb.ctl.rto / 2)
  }

  /** How long a segment that was just sent waits for its acknowledgement. */
  function Patience(cb: Cb, s: Seg, t: Seg): nat {
    t.rto + if s.xmit == 0 && cb.cfg.nodelay == 0 then cb.ctl.rto / 8 else 0
  }

  lemma BackoffIs(cb: Cb, rto: u32)
    requires cb.cfg.Valid()
    ensures BackedOff(cb, rto, Backoff(SweepOf(cb), rto))
  {
    HalfStep(rto);
  }

  lemma HalfStep(rto: u32)
    ensures rto < HALF ==> Wrap(rto + Halve(Signed(rto))) == rto + rto / 2
    ensures rto >= HALF ==> Wrap(rto + Halve(Signed(rto))) == rto - (MODULUS - rto) / 2
  {
  }

  /** What is sent is counted and stamped, and its timer set: with the present estimate
      the first time, the timeout backed off if it had run out and as it was if the
      segment was only passed over. */
  lemma SentIsRestamped(cb: Cb, i: nat)
    requires Inv(cb) && cb.ctl.updated && i < |cb.snd.buf| && MustSend(cb, cb.snd.buf[i])
    ensures i < |Flush(cb).snd.buf|
    ensures var s, t := cb.snd.buf[i], Flush(cb).snd.buf[i];
            && t.sn == s.sn && t.frg == s.frg && t.data == s.data
            && t.xmit == Wrap(s.xmit + 1) && t.ts == cb.ctl.current
            && t.fastack == (if PassedOver(cb, s) then 0 else s.fastack)
            && (s.xmit == 0 ==> t.rto == cb.ctl.rto)
            && (TimedOut(cb, s) ==> BackedOff(cb, s.rto, t.rto))
            && (PassedOver(cb, s) ==> t.rto == s.rto)
            && t.resendts == Wrap(cb.ctl.current + Patience(cb, s, t))
  {
    hide Flush, TimeDiff, Signed, SenderInv, DueOf, MustSend, Backoff, BackedOff, WndUnused, Wrap;
    var s := cb.snd.buf[i];
    EntryIs(cb, i);
    DueIs(cb, s);
    BackoffIs(cb, s.rto);
  }

  /** So its time is up again exactly when that long has passed. */
  lemma TimerRunsOut(cb: Cb, i: nat, k: nat)
    requires Inv(cb) && cb.ctl.updated && i < |cb.snd.buf| && MustSend(cb, cb.snd.buf[i]) && k < HALF
    ensures i < |Flush(cb).snd.buf|
    ensures var s, t := cb.snd.buf[i], Flush(cb).snd.buf[i];
            Patience(cb, s, t) < HALF ==>
              (TimeDiff(Wrap(cb.ctl.current + k), t.resendts) >= 0 <==> k >= Patience(cb, s, t))
  {
    hide Flush, SenderInv, ReceiverInv, MustSend, BackedOff, PassedOver, TimedOut, Patience, Wrap, TimeDiff;
    SentIsRestamped(cb, i);
    var wait := Patience(cb, cb.snd.buf[i], Flush(cb).snd.buf[i]);
    TimeDiffExact(cb.ctl.current + k, cb.ctl.current + wait);
  }

  // --------------------------------------------------------- dead and congested

  lemma {:induction false} SomeDue(w: Sweep, buf: seq<Seg>, due: Due)
    ensures CountDue(w, buf, due) > 0 <==> exists s :: s in buf && DueOf(w, s) == due
  {
    hide DueOf;
    if buf != [] {
      var init, last := buf[..|buf| - 1], buf[|buf| - 1];
      assert buf == init + [last] && last in buf;
      SomeDue(w, init, due);
      assert forall s :: s in buf <==> s in init || s == last;
    }
  }

  /** New segments have not timed out. */
  lemma DueAmongOld(cb: Cb, due: Due)
    requires Inv(cb) && (due == Timeout || due == Fast)
    ensures (exists s :: s in Admitted(cb).buf && DueOf(SweepOf(cb), s) == due)
       <==> (exists s :: s in cb.snd.buf && DueOf(SweepOf(cb), s) == due)
  {
    hide Admitted, SenderInv, TimeDiff, Signed, SweepOf;
    var k := AdmittedIs(cb);
    var a, b := cb.snd.buf, Admitted(cb).buf;
    forall s | s in b && DueOf(SweepOf(cb), s) == due ensures s in a {
      var j: nat :| j < |b| && b[j] == s;
      assert j >= |a| ==> NewSegment(cb.snd, j, s);
      assert j < |a| ==> b[..|a|][j] == a[j];
    }
    forall s | s in a ensures s in b {
      assert s in b[..|a|];
    }
  }

  predicate AnyTimedOut(cb: Cb) {
    exists s :: s in cb.snd.buf && TimedOut(cb, s)
  }

  predicate AnyPassedOver(cb: Cb) {
    exists s :: s in cb.snd.buf && PassedOver(cb, s)
  }

  lemma CountsAre(cb: Cb)
    requires Inv(cb)
    ensures CountDue(SweepOf(cb), Admitted(cb).buf, Timeout) > 0 <==> AnyTimedOut(cb)
    ensures CountDue(SweepOf(cb), Admitted(cb).buf, Fast) > 0 <==> AnyPassedOver(cb)
  {
    hide Admitted, SenderInv, DueOf, SweepOf, TimedOut, PassedOver;
    SomeDue(SweepOf(cb), Admitted(cb).buf, Timeout);
    SomeDue(SweepOf(cb), Admitted(cb).buf, Fast);
    DueAmongOld(cb, Timeout);
    DueAmongOld(cb, Fast);
    forall s | s in cb.snd.buf
      ensures (DueOf(SweepOf(cb), s) == Timeout <==> TimedOut(cb, s)) && (DueOf(SweepOf(cb), s) == Fast <==> PassedOver(cb, s))
    {
      DueIs(cb, s);
    }
  }

  /** The window in force: the least of the sender's own, the peer's, and the congestion
      window unless that is switched off. */
  function InForce(cb: Cb): nat {
    var w := if cb.cfg.sndWnd <= cb.ctl.rmtWnd then cb.cfg.sndWnd else cb.ctl.rmtWnd;
    if !cb.cfg.noCwnd && cb.ctl.cwnd < w then cb.ctl.cwnd else w
  }

  /** A timeout closes the congestion window to one segment and halves the threshold; a
      fast retransmission alone sets the threshold to half of what is in flight and the
      window a little above; otherwise both stay, but the window opens to one. */
  lemma FlushAdapts(cb: Cb)
    requires Inv(cb) && cb.ctl.updated
    ensures var c, mss := Flush(cb).ctl, cb.cfg.Mss();
            var half := Max((Flush(cb).snd.nxt - cb.snd.una) / 2, 2);
            && (AnyTimedOut(cb) ==> c.cwnd == 1 && c.incr == mss && c.ssthresh == Max(InForce(cb) / 2, 2))
            && (!AnyTimedOut(cb) && AnyPassedOver(cb) ==>
                  && c.ssthresh == half && c.cwnd == Max(Wrap(half + Threshold(cb.cfg)), 1)
                  && c.incr == Wrap(c.cwnd * mss))
            && (!AnyTimedOut(cb) && !AnyPassedOver(cb) ==>
                  c.ssthresh == cb.ctl.ssthresh && c.cwnd == Max(cb.ctl.cwnd, 1))
            && (cb.ctl.cwnd == 0 && !AnyPassedOver(cb) ==> c.incr == mss)
  {
    hide AnyTimedOut, AnyPassedOver, CountDue, LinkDead, Admitted, SweptAll, Congestion, Window, SenderInv, ReceiverInv,
      Probe, InForce;
    CountsAre(cb);
    InFlight(cb);
    InForceIs(cb);
    ProbeControl'(cb.ctl);
    var s, w, c := Admitted(cb), SweepOf(cb), Probe(cb.ctl);
    var lost := CountDue(w, s.buf, Timeout);
    var c1 := c.(askSend := false, askTell := false, xmit := Wrap(c.xmit + lost),
                 state := if LinkDead(w, s.buf) then STATE_DEAD else c.state);
    CongestionIs(cb.cfg, c1, s.nxt - s.una, Window(cb.cfg, cb.ctl), CountDue(w, s.buf, Fast) > 0, lost > 0, w.resent);
  }

  lemma InFlight(cb: Cb)
    requires Inv(cb)
    ensures var s := Admitted(cb); s.una == cb.snd.una && 0 <= s.nxt - s.una <= MAX_WND && Wrap(s.nxt - s.una) == s.nxt - s.una
  {
    hide Admitted, ReceiverInv;
    AdmittedInv(cb);
  }

  lemma InForceIs(cb: Cb)
    requires cb.cfg.Valid()
    ensures Window(cb.cfg, cb.ctl) == InForce(cb) && InForce(cb) <= cb.cfg.sndWnd
  {
  }

  /** The congestion update as such. */
  lemma CongestionIs(cfg: Config, c: Control, inflight: nat, window: nat, fast: bool, lost: bool, resent: u32)
    requires cfg.Valid() && window <= MAX_WND && inflight <= MAX_WND
    ensures var c', mss := Congestion(cfg, c, inflight, window, fast, lost, resent), cfg.Mss();
            var half := Max(inflight / 2, 2);
            && (lost ==> c'.cwnd == 1 && c'.incr == mss && c'.ssthresh == Max(window / 2, 2))
            && (!lost && fast ==>
                  && c'.ssthresh == half && c'.cwnd == Max(Wrap(half + resent), 1)
                  && c'.incr == Wrap(c'.cwnd * mss))
            && (!lost && !fast ==> c'.ssthresh == c.ssthresh && c'.cwnd == Max(c.cwnd, 1))
            && (c.cwnd == 0 && !fast ==> c'.incr == mss)
  {
    hide Wrap;
    Small(1 * cfg.Mss());
    Small(Max(window / 2, THRESH_MIN));
  }

  lemma ProbeControl'(c: Control)
    ensures Probe(c) == c.(tsProbe := Probe(c).tsProbe, probeWait := Probe(c).probeWait, askSend := Probe(c).askSend)
  {
  }

  /** The places in `buf` that are due in this way. */
  function Places(w: Sweep, buf: seq<Seg>, due: Due): set<nat> {
    set i: nat | i < |buf| && DueOf(w, buf[i]) == due
  }

  lemma PlacesSnoc(w: Sweep, init: seq<Seg>, s: Seg, due: Due)
    ensures Places(w, init + [s], due) == Places(w, init, due) + if DueOf(w, s) == due then {|init|} else {}
  {
    hide DueOf;
    var buf := init + [s];
    forall i: nat ensures i in Places(w, buf, due) <==> i in Places(w, init, due) || (i == |init| && DueOf(w, s) == due) {
      assert i < |init| ==> buf[i] == init[i];
    }
  }

  lemma {:induction false} CountIsNumber(w: Sweep, buf: seq<Seg>, due: Due)
    ensures CountDue(w, buf, due) == |Places(w, buf, due)|
  {
    hide DueOf, Places;
    if buf == [] {
      NoPlaces(w, due);
    } else {
      var n := |buf| - 1;
      CountIsNumber(w, buf[..n], due);
      PlacesSnoc(w, buf[..n], buf[n], due);
      assert buf[..n] + [buf[n]] == buf;
      NotAPlace(w, buf[..n], due);
    }
  }

  lemma NoPlaces(w: Sweep, due: Due)
    ensures Places(w, [], due) == {}
  {
  }

  lemma NotAPlace(w: Sweep, buf: seq<Seg>, due: Due)
    ensures |buf| !in Places(w, buf, due)
  {
  }

  /** Every timeout is counted. */
  lemma TimeoutsCounted(cb: Cb)
    requires Inv(cb) && cb.ctl.updated
    ensures Flush(cb).ctl.xmit == Wrap(cb.ctl.xmit + |set i: nat | i < |cb.snd.buf| && TimedOut(cb, cb.snd.buf[i])|)
  {
    hide SenderInv, DueOf, SweepOf, TimedOut, Flush, Admitted, NewSegment;
    var k := AdmittedIs(cb);
    var a, b, w := cb.snd.buf, Admitted(cb).buf, SweepOf(cb);
    XmitIs(cb);
    CountIsNumber(w, b, Timeout);
    forall i: nat | i < |b| ensures DueOf(w, b[i]) == Timeout <==> i < |a| && TimedOut(cb, a[i]) {
      DueIs(cb, b[i]);
      if i < |a| {
        assert b[..|a|][i] == a[i];
      } else {
        NewIsNotTimedOut(cb, i, b[i]);
      }
    }
    assert Places(w, b, Timeout) == (set i: nat | i < |a| && TimedOut(cb, a[i]));
  }

  lemma NewIsNotTimedOut(cb: Cb, j: nat, s: Seg)
    requires NewSegment(cb.snd, j, s)
    ensures !TimedOut(cb, s)
  {
  }

  lemma XmitIs(cb: Cb)
    requires cb.cfg.Valid() && cb.ctl.updated
    ensures Flush(cb).ctl.xmit == Wrap(cb.ctl.xmit + CountDue(SweepOf(cb), Admitted(cb).buf, Timeout))
  {
    hide Admitted, SweepOf, LinkDead, CountDue, SweptAll, Mul;
    ProbeControl'(cb.ctl);
  }

  /** A link is given up exactly when a segment goes out for the twentieth time or more. */
  lemma DeadExactly(cb: Cb)
    requires Inv(cb) && cb.ctl.updated
    ensures Flush(cb).ctl.state ==
              if exists t :: t in Flush(cb).snd.buf && t.xmit >= 20
                             && exists f :: f in Output(cb) && f.cmd == CMD_PUSH && f.sn == t.sn
              then STATE_DEAD else cb.ctl.state
  {
    hide Admitted, SenderInv, SweepOf, DueOf, Swept, Output, CountDue, PushFrames;
    var k := AdmittedIs(cb);
    var w, b := SweepOf(cb), Admitted(cb).buf;
    StateIs(cb);
    SweptNumbers(w, b);
    forall i | 0 <= i < |b|
      ensures !DueOf(w, b[i]).NotDue? <==> exists f :: f in Output(cb) && f.cmd == CMD_PUSH && f.sn == b[i].sn
    {
      SentAt(cb, i);
    }
    if LinkDead(w, b) {
      var i :| 0 <= i < |b| && !DueOf(w, b[i]).NotDue? && Swept(w, b[i]).xmit >= DEAD_LINK;
      assert Flush(cb).snd.buf[i] in Flush(cb).snd.buf;
    }
  }

  lemma StateIs(cb: Cb)
    requires cb.cfg.Valid() && cb.ctl.updated
    ensures Flush(cb).ctl.state == if LinkDead(SweepOf(cb), Admitted(cb).buf) then STATE_DEAD else cb.ctl.state
    ensures Flush(cb).snd.buf == SweptAll(SweepOf(cb), Admitted(cb).buf)
  {
    hide Admitted, SweepOf, LinkDead, CountDue, SweptAll, Mul;
    ProbeControl'(cb.ctl);
  }

  lemma SweptNumbers(w: Sweep, buf: seq<Seg>)
    ensures forall i :: 0 <= i < |buf| ==> Swept(w, buf[i]).sn == buf[i].sn
  {
    hide DueOf, Backoff;
  }

  lemma SentAt(cb: Cb, i: nat)
    requires Inv(cb) && cb.ctl.updated && i < |Admitted(cb).buf|
    ensures !DueOf(SweepOf(cb), Admitted(cb).buf[i]).NotDue?
       <==> exists f :: f in Output(cb) && f.cmd == CMD_PUSH && f.sn == Admitted(cb).buf[i].sn
  {
    hide Admitted, SenderInv, SweepOf, DueOf, Swept, Output, PushFrames;
    var k := AdmittedIs(cb);
    var w, b := SweepOf(cb), Admitted(cb).buf;
    DueIsSent(w, b, i);
    if f :| f in Output(cb) && f.cmd == CMD_PUSH && f.sn == b[i].sn {
      DataIsPush(cb, f);
    }
    if f :| f in PushFrames(w, b) && f.sn == b[i].sn {
      DataIsPush(cb, f);
    }
  }

  // ------------------------------------------------------ acks, window, probes

  /** A frame without data. */
  function BareFrame(cb: Cb, cmd: u8, sn: int, ts: u32): Frame
    requires |cb.rcv.queue| <= cb.cfg.rcvWnd
  {
    Frame(cmd, 0, (cb.cfg.rcvWnd - |cb.rcv.queue|) % 0x1_0000, ts, sn, cb.rcv.nxt, [])
  }

  lemma HeadIsBare(cb: Cb, cmd: u8, sn: int, ts: u32)
    requires Inv(cb)
    ensures HeadFrame(cb, cmd, sn, ts) == BareFrame(cb, cmd, sn, ts)
  {
    hide SenderInv;
  }

  /** A probe is due: the peer's window is zero, the timer runs and has run out. */
  predicate ProbeDue(c: Control) {
    c.rmtWnd == 0 && c.probeWait != 0 && TimeDiff(c.current, c.tsProbe) >= 0
  }

  /** Every frame without data a flush puts out: an ack for each number waiting, a
      window probe when one is due or still owed, and the window when it was asked
      for or has reopened. */
  lemma BareFramesAre(cb: Cb, f: Frame)
    requires Inv(cb) && cb.ctl.updated
    ensures f.cmd == CMD_ACK ==> (f in Output(cb) <==> exists a :: a in cb.rcv.acks && f == BareFrame(cb, CMD_ACK, a.sn, a.ts))
    ensures f in Output(cb) && (f.cmd == CMD_WASK || f.cmd == CMD_WINS) ==> f == BareFrame(cb, f.cmd, f.sn, f.ts)
    ensures f in Output(cb) ==> f.cmd == CMD_ACK || f.cmd == CMD_WASK || f.cmd == CMD_WINS || f.cmd == CMD_PUSH
  {
    hide SenderInv, Probe, HeadFrame, PushFrames, Admitted, SweepOf;
    var acks := cb.rcv.acks;
    var frames := AckFrames(cb, |acks|);
    forall i | 0 <= i < |acks| ensures frames[i] == BareFrame(cb, CMD_ACK, acks[i].sn, acks[i].ts) && acks[i] in acks {
      HeadIsBare(cb, CMD_ACK, acks[i].sn, acks[i].ts);
    }
    forall a | a in acks ensures BareFrame(cb, CMD_ACK, a.sn, a.ts) in frames {
      var i :| 0 <= i < |acks| && acks[i] == a;
      assert frames[i] == BareFrame(cb, CMD_ACK, a.sn, a.ts);
    }
    var last := if |acks| > 0 then acks[|acks| - 1] else Ack(0, 0);
    HeadIsBare(cb, CMD_WASK, last.sn, last.ts);
    HeadIsBare(cb, CMD_WINS, last.sn, last.ts);
    if f in PushFrames(SweepOf(cb), Admitted(cb).buf) {
      PushFramesFrom(SweepOf(cb), Admitted(cb).buf, f);
    }
  }

  /** When a probe and when the window are sent. */
  lemma ProbesExactly(cb: Cb)
    requires Inv(cb) && cb.ctl.updated
    ensures (exists f :: f in Output(cb) && f.cmd == CMD_WASK) <==> cb.ctl.askSend || ProbeDue(cb.ctl)
    ensures (exists f :: f in Output(cb) && f.cmd == CMD_WINS) <==> cb.ctl.askTell
  {
    var acks := cb.rcv.acks;
    var last := if |acks| > 0 then acks[|acks| - 1] else Ack(0, 0);
    var wask, wins := HeadFrame(cb, CMD_WASK, last.sn, last.ts), HeadFrame(cb, CMD_WINS, last.sn, last.ts);
    assert wask.cmd == CMD_WASK && wins.cmd == CMD_WINS;
    ProbeAsks(cb.ctl);
    hide SenderInv, Probe, HeadFrame, PushFrames, Admitted, SweepOf, ProbeDue;
    assert Probe(cb.ctl).askSend ==> wask in ControlFrames(cb);
    assert Probe(cb.ctl).askTell ==> wins in ControlFrames(cb);
    forall f | f in Output(cb) && (f.cmd == CMD_WASK || f.cmd == CMD_WINS)
      ensures f == if f.cmd == CMD_WASK then wask else wins
      ensures if f.cmd == CMD_WASK then Probe(cb.ctl).askSend else Probe(cb.ctl).askTell
    {
      NotData(cb, f);
    }
  }

  lemma ProbeAsks(c: Control)
    ensures Probe(c).askSend <==> c.askSend || ProbeDue(c)
    ensures Probe(c).askTell == c.askTell
  {
  }

  lemma NotData(cb: Cb, f: Frame)
    requires Inv(cb) && cb.ctl.updated && f in Output(cb) && (f.cmd == CMD_WASK || f.cmd == CMD_WINS)
    ensures f in ControlFrames(cb) && f !in AckFrames(cb, |cb.rcv.acks|)
  {
    hide SenderInv, Probe, PushFrames, Admitted, SweepOf;
    if f in PushFrames(SweepOf(cb), Admitted(cb).buf) {
      PushFramesFrom(SweepOf(cb), Admitted(cb).buf, f);
    }
  }

  /** The probe timer: started at seven seconds when the peer's window is zero, longer by
      half each time it runs out, up to two minutes, and stopped when the window opens. */
  lemma ProbeTimer(cb: Cb)
    requires Inv(cb) && cb.ctl.updated && ControlInv(cb.cfg, cb.ctl)
    ensures var c, c' := cb.ctl, Flush(cb).ctl;
            && (c.rmtWnd != 0 ==> c'.probeWait == 0)
            && (c.rmtWnd == 0 && c.probeWait == 0 ==> c'.probeWait == 7000)
            && (ProbeDue(c) ==> c'.probeWait == Min(c.probeWait + c.probeWait / 2, 120000))
            && (c.rmtWnd == 0 && (c.probeWait == 0 || ProbeDue(c)) ==> TimeDiff(c'.tsProbe, c.current) == c'.probeWait)
            && (c.rmtWnd == 0 && c.probeWait != 0 && !ProbeDue(c) ==>
                  c'.probeWait == c.probeWait && c'.tsProbe == c.tsProbe)
  {
    hide Flush, Probe, ProbeDue, SenderInv, ReceiverInv;
    FlushProbes(cb);
    ProbeIs(cb.ctl);
  }

  lemma FlushProbes(cb: Cb)
    requires cb.cfg.Valid() && cb.ctl.updated
    ensures Flush(cb).ctl.probeWait == Probe(cb.ctl).probeWait && Flush(cb).ctl.tsProbe == Probe(cb.ctl).tsProbe
  {
    hide Admitted, SweepOf, CountDue, LinkDead, Mul, Probe, SweptAll;
  }

  lemma ProbeIs(c: Control)
    requires c.probeWait == 0 || PROBE_INIT <= c.probeWait <= PROBE_LIMIT
    ensures var c' := Probe(c);
            && (c.rmtWnd != 0 ==> c'.probeWait == 0)
            && (c.rmtWnd == 0 && c.probeWait == 0 ==> c'.probeWait == 7000)
            && (ProbeDue(c) ==> c'.probeWait == Min(c.probeWait + c.probeWait / 2, 120000))
            && (c.rmtWnd == 0 && (c.probeWait == 0 || ProbeDue(c)) ==> TimeDiff(c'.tsProbe, c.current) == c'.probeWait)
            && (c.rmtWnd == 0 && c.probeWait != 0 && !ProbeDue(c) ==>
                  c'.probeWait == c.probeWait && c'.tsProbe == c.tsProbe)
  {
    hide TimeDiff, Wrap;
    Small(Max(c.probeWait, PROBE_INIT) + Max(c.probeWait, PROBE_INIT) / 2);
    Ahead(c.current, Probe(c).probeWait);
  }

  lemma Small(x: int)
    requires 0 <= x < MODULUS
    ensures Wrap(x) == x
  {
  }

  lemma Ahead(now: u32, w: u32)
    requires w < HALF
    ensures TimeDiff(Wrap(now + w), now) == w
  {
    TimeDiffExact(now + w, now);
    assert Wrap(now) == now;
  }

  /** Acks and requests are gone after a flush; estimates, clock and peer's window are
      not touched. Before the first call of the timer it does nothing. */
  lemma FlushLeaves(cb: Cb)
    requires cb.cfg.Valid()
    ensures !cb.ctl.updated ==> Flush(cb) == cb && Output(cb) == []
    ensures cb.ctl.updated ==> Flush(cb).cfg == cb.cfg && Flush(cb).rcv == cb.rcv.(acks := [])
    ensures var c, c' := cb.ctl, Flush(cb).ctl;
            cb.ctl.updated ==>
            && !c'.askSend && !c'.askTell && c'.updated
            && c'.rto == c.rto && c'.srtt == c.srtt && c'.rttval == c.rttval
            && c'.rmtWnd == c.rmtWnd && c'.current == c.current && c'.tsFlush == c.tsFlush
  {
    hide Admitted, SweepOf, CountDue, LinkDead, Mul, SweptAll;
    ProbeControl'(cb.ctl);
  }
}
