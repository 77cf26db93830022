/**
 The timers, windows and congestion state of one endpoint: what they stay within,
 whatever arrives and whenever the clock is read.
 */
module KcpControl {
  import opened U32
  import opened KcpCodec
  import opened KcpModel
  import opened KcpInvariants

  /** The retransmission timeout is the default or between its bounds, the slow-start
      threshold at least 2 and a running probe timer between its bounds. */
  ghost predicate ControlInv(cfg: Config, c: Control) {
    && (c.rto == RTO_DEF || Min(cfg.minRto, RTO_MAX) <= c.rto <= RTO_MAX)
    && THRESH_MIN <= c.ssthresh
    && (c.probeWait == 0 || PROBE_INIT <= c.probeWait <= PROBE_LIMIT)
  }

  lemma CreateControl(cfg: Config)
    ensures ControlInv(cfg, Create(cfg).ctl)
  {
  }

  lemma {:induction false} FramesControl(cb: Cb, fs: seq<Frame>)
    requires ControlInv(cb.cfg, cb.ctl)
    ensures ControlInv(cb.cfg, InputFrames(cb, fs).ctl)
  {
    if fs != [] {
      FramesControl(cb, fs[..|fs| - 1]);
      FrameControl(cb.cfg, InputFrames(cb, fs[..|fs| - 1]).ctl, fs[|fs| - 1]);
    }
  }

  lemma FrameControl(cfg: Config, c: Control, f: Frame)
    requires ControlInv(cfg, c)
    ensures ControlInv(cfg, ControlInput(cfg, c, f))
  {
  }

  /** New acknowledgements never open the congestion window beyond what the peer
      advertises, or leave it where it already was. */
  lemma GrowBounded(cfg: Config, c: Control)
    requires cfg.Valid()
    ensures Grow(cfg, c) == c || Grow(cfg, c).cwnd <= c.rmtWnd
    ensures Grow(cfg, c) == c.(cwnd := Grow(cfg, c).cwnd, incr := Grow(cfg, c).incr)
  {
    hide Mul, Div;
  }

  /** Any bytes from the network. */
  lemma InputControl(cb: Cb, b: seq<u8>)
    requires cb.cfg.Valid() && ControlInv(cb.cfg, cb.ctl)
    ensures ControlInv(cb.cfg, Input(cb, b).0.ctl)
  {
    hide Grow;
    var p := Parse(cb.cfg.conv, b);
    FramesControl(cb, p.0);
    GrowBounded(cb.cfg, InputFrames(cb, p.0).ctl);
  }

  /** A flush, after which the congestion window is never closed. */
  lemma FlushControlInv(cb: Cb)
    requires cb.cfg.Valid() && ControlInv(cb.cfg, cb.ctl)
    ensures ControlInv(cb.cfg, Flush(cb).ctl)
    ensures cb.ctl.updated ==> Flush(cb).ctl.cwnd >= 1
  {
    hide Admit, CountDue, LinkDead, SweptAll, Mul;
    ProbeControl(cb.cfg, cb.ctl);
  }

  lemma ProbeControl(cfg: Config, c: Control)
    requires ControlInv(cfg, c)
    ensures ControlInv(cfg, Probe(c))
    ensures Probe(c) == c.(tsProbe := Probe(c).tsProbe, probeWait := Probe(c).probeWait, askSend := Probe(c).askSend)
  {
  }

  /** Any call of `ikcp_update`, at any time. */
  lemma UpdateControl(cb: Cb, now: u32)
    requires cb.cfg.Valid() && ControlInv(cb.cfg, cb.ctl)
    ensures ControlInv(cb.cfg, Update(cb, now).0.ctl)
  {
    FlushControlInv(Ticked(cb, now));
  }

  /** A flush numbers segments exactly as long as every window allows it: ours, the
      peer's and, unless it is switched off, the congestion window. */
  lemma AdmitsToTheWindow(cb: Cb)
    requires cb.cfg.Valid()
    ensures var s := Admitted(cb);
            && (s.nxt > cb.snd.nxt ==>
                  && s.nxt <= s.una + cb.cfg.sndWnd && s.nxt <= s.una + cb.ctl.rmtWnd
                  && (cb.cfg.noCwnd || s.nxt <= s.una + cb.ctl.cwnd))
            && (s.queue == []
                || s.nxt >= s.una + cb.cfg.sndWnd || s.nxt >= s.una + cb.ctl.rmtWnd
                || (!cb.cfg.noCwnd && s.nxt >= s.una + cb.ctl.cwnd))
  {
    var k := AdmitEffect(cb.snd, Window(cb.cfg, cb.ctl), SweepOf(cb));
  }

  /** A flush puts out a frame for a segment of `snd_buf` exactly when it is due. */
  lemma {:induction false} DueIsSent(w: Sweep, buf: seq<Seg>, i: nat)
    requires Ascending(buf) && i < |buf|
    ensures (exists f :: f in PushFrames(w, buf) && f.sn == buf[i].sn) <==> !DueOf(w, buf[i]).NotDue?
    ensures !DueOf(w, buf[i]).NotDue? ==> FrameOf(Swept(w, buf[i])) in PushFrames(w, buf)
  {
    var n := |buf| - 1;
    var before := PushFrames(w, buf[..n]);
    if i < n {
      DueIsSent(w, buf[..n], i);
    } else {
      forall f | f in before ensures f.sn != buf[n].sn {
        var k := FrameSource(w, buf[..n], f);
      }
      if !DueOf(w, buf[n]).NotDue? {
        var f := FrameOf(Swept(w, buf[n]));
        assert f in [f] && f.sn == buf[n].sn;
        assert PushFrames(w, buf) == before + [f];
      }
    }
  }

  lemma {:induction false} FrameSource(w: Sweep, buf: seq<Seg>, f: Frame) returns (k: nat)
    requires f in PushFrames(w, buf)
    ensures k < |buf| && f.sn == buf[k].sn
  {
    var n := |buf| - 1;
    if f in PushFrames(w, buf[..n]) {
      k := FrameSource(w, buf[..n], f);
    } else {
      k := n;
    }
  }
}
