/**
 What arriving bytes, and taking messages out, do to an endpoint, in terms of the frames
 the bytes hold.
 */
module KcpReceiving {
  import opened U32
  import opened KcpCodec
  import opened KcpModel
  import opened KcpInvariants
  import opened KcpControl
  import opened KcpProtocol
  import opened KcpSending
  import Arith

  /** The frames that take effect: all up to the first malformed header. */
  function Frames(cb: Cb, b: seq<u8>): seq<Frame> {
    Parse(cb.cfg.conv, b).0
  }

  // ------------------------------------------------------------- peer's window

  lemma {:induction false} FramesControlIs(cb: Cb, fs: seq<Frame>)
    ensures var c, c' := cb.ctl, InputFrames(cb, fs).ctl;
            && c'.rmtWnd == (if fs == [] then c.rmtWnd else fs[|fs| - 1].wnd)
            && (c'.askTell <==> c.askTell || exists f :: f in fs && f.cmd == CMD_WASK)
            && c'.askSend == c.askSend && c'.current == c.current && c'.tsFlush == c.tsFlush && c'.updated == c.updated
            && c'.tsProbe == c.tsProbe && c'.probeWait == c.probeWait && c'.xmit == c.xmit
            && c'.cwnd == c.cwnd && c'.incr == c.incr && c'.ssthresh == c.ssthresh && c'.state == c.state
  {
    if fs != [] {
      var init, f := fs[..|fs| - 1], fs[|fs| - 1];
      FramesControlIs(cb, init);
      assert fs == init + [f] && forall g :: g in fs <==> g in init || g == f;
      FrameControlIs(cb.cfg, InputFrames(cb, init).ctl, f);
    }
  }

  lemma FrameControlIs(cfg: Config, c: Control, f: Frame)
    ensures var c' := ControlInput(cfg, c, f);
            && c'.rmtWnd == f.wnd && (c'.askTell <==> c.askTell || f.cmd == CMD_WASK)
            && c' == c.(rmtWnd := c'.rmtWnd, askTell := c'.askTell, srtt := c'.srtt, rttval := c'.rttval, rto := c'.rto)
  {
  }

  /** Whatever arrives: the peer's window is that of the last frame, the window is to be
      told if any frame asks for it, and clock, timers and probes are not touched. */
  lemma InputTells(cb: Cb, b: seq<u8>)
    requires cb.cfg.Valid()
    ensures var fs, c, c' := Frames(cb, b), cb.ctl, Input(cb, b).0.ctl;
            && c'.rmtWnd == (if fs == [] then c.rmtWnd else fs[|fs| - 1].wnd)
            && (c'.askTell <==> c.askTell || exists f :: f in fs && f.cmd == CMD_WASK)
            && c'.askSend == c.askSend && c'.current == c.current && c'.tsFlush == c.tsFlush && c'.updated == c.updated
            && c'.tsProbe == c.tsProbe && c'.probeWait == c.probeWait && c'.xmit == c.xmit && c'.ssthresh == c.ssthresh
  {
    hide Input, InputFrames, Parse;
    FramesControlIs(cb, Frames(cb, b));
    LastControl(cb, b);
  }

  lemma LastControl(cb: Cb, b: seq<u8>)
    requires cb.cfg.Valid()
    ensures var c, r := InputFrames(cb, Frames(cb, b)).ctl, Input(cb, b).0.ctl;
            r == c.(cwnd := r.cwnd, incr := r.incr, state := r.state)
  {
    hide FinishControl, MaxAck, MaxUna, ParseFastack, InputFrame, TimeDiff, Wrap;
    var fs := Frames(cb, b);
    var c := InputFrames(cb, fs);
    FinishIs(cb.cfg, c.ctl, c.snd.una > cb.snd.una, TimeDiff(MaxUna(fs), Wrap(c.snd.nxt)) > 0);
    UpdatedSelf(c.ctl);
    assert |b| < OVERHEAD ==> c == cb;
  }

  lemma UpdatedSelf(c: Control)
    ensures c == c.(cwnd := c.cwnd, incr := c.incr, state := c.state)
  {
  }

  lemma FinishIs(cfg: Config, c: Control, advanced: bool, broken: bool)
    requires cfg.Valid()
    ensures var r := FinishControl(cfg, c, advanced, broken); r == c.(cwnd := r.cwnd, incr := r.incr, state := r.state)
  {
    hide Grow;
    GrowBounded(cfg, c);
  }

  /** So after a datagram whose last frame advertises `w`, a flush numbers nothing beyond
      `snd_una + w`. */
  lemma AdvertisedIsRespected(cb: Cb, b: seq<u8>)
    requires Inv(cb) && Frames(cb, b) != []
    ensures var c, w := Input(cb, b).0, Frames(cb, b)[|Frames(cb, b)| - 1].wnd;
            c.cfg.Valid() && (Flush(c).snd.nxt > c.snd.nxt ==> Flush(c).snd.nxt <= c.snd.una + w)
  {
    hide Input, Admitted, FlushControl, SweptAll;
    InputInv(cb, b);
    InputTells(cb, b);
    AdmitsToTheWindow(Input(cb, b).0);
    AdmittedInv(Input(cb, b).0);
  }

  // ---------------------------------------------------------------- releases

  /** A frame with numbers of this half of the number space releases exactly what it
      acknowledges: everything below its `una`, and the number itself if it is an ack. */
  lemma FrameReleases(cb: Cb, f: Frame)
    requires Inv(cb) && cb.snd.nxt - HALF <= f.una <= cb.snd.nxt
    requires f.cmd == CMD_ACK ==> cb.snd.nxt - HALF <= f.sn < cb.snd.una + HALF
    ensures forall s :: s in InputFrame(cb, f).snd.buf <==>
                          s in cb.snd.buf && s.sn >= f.una && !(f.cmd == CMD_ACK && s.sn == f.sn)
    ensures InputFrame(cb, f).snd.nxt == cb.snd.nxt && InputFrame(cb, f).snd.queue == cb.snd.queue
  {
    hide Near, ParseUna, ParseAck, ReceiverInv, Fits, Within;
    var wnd, mss, s := cb.cfg.sndWnd, cb.cfg.Mss(), cb.snd;
    NearExact(s.una, f.una);
    ParseUnaInv(wnd, mss, s, Wrap(f.una));
    SenderInputInv(wnd, mss, s, f);
    if f.cmd == CMD_ACK {
      var s1 := ParseUna(s, Wrap(f.una));
      UnaKeepsNext(s, Wrap(f.una));
      NearExact(s1.una, f.sn);
      ParseAckInv(wnd, mss, s1, Wrap(f.sn));
    }
  }

  lemma UnaKeepsNext(s: Sender, una: u32)
    ensures ParseUna(s, una).nxt == s.nxt
  {
  }

  // ------------------------------------------------------------- fast resend

  lemma {:induction false} SkippedExactly(buf: seq<Seg>, x: int)
    requires Ascending(buf)
    ensures forall i :: 0 <= i < |buf| ==>
              Skipped(buf, x)[i] == if buf[i].sn < x then buf[i].(fastack := Wrap(buf[i].fastack + 1)) else buf[i]
  {
    if buf != [] && buf[0].sn <= x {
      SkippedExactly(buf[1..], x);
    }
  }

  /** The index an ack stands for. */
  function Acked(base: int, f: Frame): int {
    Near(base, Wrap(f.sn))
  }

  /** All acks are within a quarter of the number space of `base`. */
  ghost predicate AcksClose(fs: seq<Frame>, base: int) {
    forall f :: f in fs && f.cmd == CMD_ACK ==> base - HALF / 2 < Acked(base, f) < base + HALF / 2
  }

  /** The number remembered from the acks of a datagram is the greatest. */
  lemma {:induction false} GreatestAck(fs: seq<Frame>, base: int)
    requires AcksClose(fs, base)
    ensures MaxAck(fs).Some? <==> exists f :: f in fs && f.cmd == CMD_ACK
    ensures MaxAck(fs).Some? ==> exists f :: f in fs && f.cmd == CMD_ACK && MaxAck(fs).value == Wrap(f.sn)
    ensures MaxAck(fs).Some? ==>
              forall g :: g in fs && g.cmd == CMD_ACK ==> Acked(base, g) <= Near(base, MaxAck(fs).value)
  {
    hide Near, Wrap, TimeDiff;
    if fs != [] {
      var init, f := fs[..|fs| - 1], fs[|fs| - 1];
      assert fs == init + [f] && f in fs && forall g :: g in init ==> g in fs;
      GreatestAck(init, base);
      if f.cmd == CMD_ACK && MaxAck(init).Some? {
        var g :| g in init && g.cmd == CMD_ACK && MaxAck(init).value == Wrap(g.sn);
        assert g in fs;
        NearOrder(base, Wrap(f.sn), Wrap(g.sn));
      }
    }
  }

  /** Numbers close to the base compare as the indices they stand for. */
  lemma NearOrder(base: int, a: u32, b: u32)
    requires base - HALF / 2 < Near(base, a) < base + HALF / 2 && base - HALF / 2 < Near(base, b) < base + HALF / 2
    ensures TimeDiff(a, b) > 0 <==> Near(base, a) > Near(base, b)
  {
    hide TimeDiff;
    TimeDiffExact(Near(base, a), Near(base, b));
  }

  /** After a datagram the counter of a segment rises by one exactly if a segment behind
      it was acknowledged there, however often. */
  lemma CountersRise(cb: Cb, b: seq<u8>, i: nat)
    requires Inv(cb) && OVERHEAD <= |b| && Parse(cb.cfg.conv, b).1 == 0
    requires var c := InputFrames(cb, Frames(cb, b));
             && AcksClose(Frames(cb, b), c.snd.una) && i < |c.snd.buf|
             && forall f :: f in Frames(cb, b) && f.cmd == CMD_ACK ==> Acked(c.snd.una, f) < c.snd.nxt
    ensures |Input(cb, b).0.snd.buf| == |InputFrames(cb, Frames(cb, b)).snd.buf|
    ensures var fs := Frames(cb, b);
            var c := InputFrames(cb, fs);
            var s := c.snd.buf[i];
            var passed := exists f :: f in fs && f.cmd == CMD_ACK && Acked(c.snd.una, f) > s.sn;
            Input(cb, b).0.snd.buf[i] == if passed then s.(fastack := Wrap(s.fastack + 1)) else s
  {
    hide Near, Wrap, TimeDiff, Input, InputFrames, Skipped, ReceiverInv, Fits, MaxAck, Acked, AcksClose, Frames, Parse;
    var fs := Frames(cb, b);
    InputFramesInv(cb, fs);
    LastStep(cb, b);
    var c := InputFrames(cb, fs);
    var s := c.snd.buf[i];
    PassedIs(fs, c.snd.una, s.sn);
    assert s in c.snd.buf;
    if MaxAck(fs).Some? {
      AckedBelow(fs, c.snd.una, c.snd.nxt);
      SkippedExactly(c.snd.buf, Near(c.snd.una, MaxAck(fs).value));
    }
  }

  /** Behind `sn` something was acknowledged if the greatest ack is behind it. */
  lemma PassedIs(fs: seq<Frame>, base: int, sn: int)
    requires AcksClose(fs, base)
    ensures (exists f :: f in fs && f.cmd == CMD_ACK && Acked(base, f) > sn)
       <==> MaxAck(fs).Some? && Near(base, MaxAck(fs).value) > sn
  {
    hide Near, Wrap, MaxAck;
    GreatestAck(fs, base);
    if MaxAck(fs).Some? {
      var g :| g in fs && g.cmd == CMD_ACK && MaxAck(fs).value == Wrap(g.sn);
      assert Acked(base, g) == Near(base, MaxAck(fs).value);
    }
  }

  lemma AckedBelow(fs: seq<Frame>, base: int, nxt: int)
    requires AcksClose(fs, base) && MaxAck(fs).Some?
    requires forall f :: f in fs && f.cmd == CMD_ACK ==> Acked(base, f) < nxt
    ensures Near(base, MaxAck(fs).value) < nxt
  {
    hide Near, Wrap, MaxAck;
    GreatestAck(fs, base);
  }

  /** What follows the last frame of a whole datagram, apart from the windows. */
  lemma LastStep(cb: Cb, b: seq<u8>)
    requires cb.cfg.Valid()
    ensures var fs := Frames(cb, b);
            var c, r, whole := InputFrames(cb, fs), Input(cb, b).0, |b| >= OVERHEAD && Parse(cb.cfg.conv, b).1 == 0;
            && r.snd == (if whole && MaxAck(fs).Some? then ParseFastack(c.snd, MaxAck(fs).value) else c.snd)
            && r.ctl.state == (if whole && TimeDiff(MaxUna(fs), Wrap(c.snd.nxt)) > 0 then STATE_BROKEN else c.ctl.state)
  {
    hide Grow, MaxAck, MaxUna, ParseFastack, TimeDiff, Wrap, InputFrame;
    GrowBounded(cb.cfg, InputFrames(cb, Frames(cb, b)).ctl);
    assert |b| < OVERHEAD ==> InputFrames(cb, Frames(cb, b)) == cb;
  }

  // -------------------------------------------------------------- round trips

  /** The estimates after a measurement: the first is taken as it is; later ones count an
      eighth for the mean and a quarter for the deviation, rounded down. */
  predicate Averaged(c: Control, c': Control, rtt: nat) {
    if c.srtt == 0 then c'.srtt == rtt && c'.rttval == rtt / 2
    else
      && (8 * c'.srtt <= 7 * c.srtt + rtt < 8 * c'.srtt + 8 || (7 * c.srtt + rtt < 8 && c'.srtt == 1))
      && (var delta := if rtt >= c.srtt then rtt - c.srtt else c.srtt - rtt;
          4 * c'.rttval <= 3 * c.rttval + delta < 4 * c'.rttval + 4)
  }

  /** An ack that echoes a time not in the future is a measurement, and sets the timeout to
      the mean plus four deviations, or plus the interval if that is more, within its
      bounds; nothing else touches the estimates. */
  lemma FrameMeasures(cb: Cb, f: Frame)
    ensures var c, c', rtt := cb.ctl, InputFrame(cb, f).ctl, TimeDiff(cb.ctl.current, f.ts);
            if f.cmd == CMD_ACK && rtt >= 0 then
              && Averaged(c, c', rtt)
              && (c'.srtt + 4 * c'.rttval < MODULUS && c'.srtt + cb.cfg.interval < MODULUS ==>
                    c'.rto == Min(Max(cb.cfg.minRto, c'.srtt + Max(cb.cfg.interval, 4 * c'.rttval)), 60000))
            else c'.srtt == c.srtt && c'.rttval == c.rttval && c'.rto == c.rto
  {
    hide TimeDiff, Averaged, SenderInput, ReceiverInput;
    var rtt := TimeDiff(cb.ctl.current, f.ts);
    if f.cmd == CMD_ACK && rtt >= 0 {
      AckMeasures(cb.cfg, cb.ctl.(rmtWnd := f.wnd), rtt);
      AverageApart(cb.ctl, f.wnd, UpdateAck(cb.cfg, cb.ctl.(rmtWnd := f.wnd), rtt), rtt);
    }
  }

  lemma AverageApart(c: Control, wnd: u32, c': Control, rtt: nat)
    ensures Averaged(c.(rmtWnd := wnd), c', rtt) <==> Averaged(c, c', rtt)
  {
  }

  lemma AckMeasures(cfg: Config, c: Control, rtt: nat)
    ensures var c' := UpdateAck(cfg, c, rtt);
            && Averaged(c, c', rtt)
            && (c'.srtt + 4 * c'.rttval < MODULUS && c'.srtt + cfg.interval < MODULUS ==>
                  c'.rto == Min(Max(cfg.minRto, c'.srtt + Max(cfg.interval, 4 * c'.rttval)), 60000))
  {
    hide UpdateAck, Averaged;
    AckAverages(cfg, c, rtt);
    AckSetsTimeout(cfg, c, rtt);
  }

  lemma AckAverages(cfg: Config, c: Control, rtt: nat)
    ensures Averaged(c, UpdateAck(cfg, c, rtt), rtt)
  {
    hide Wrap, Min;
  }

  lemma AckSetsTimeout(cfg: Config, c: Control, rtt: nat)
    ensures var c' := UpdateAck(cfg, c, rtt);
            c'.srtt + 4 * c'.rttval < MODULUS && c'.srtt + cfg.interval < MODULUS ==>
              c'.rto == Min(Max(cfg.minRto, c'.srtt + Max(cfg.interval, 4 * c'.rttval)), 60000)
  {
    hide Wrap, Min, Averaged;
    var c' := UpdateAck(cfg, c, rtt);
    if c'.srtt + 4 * c'.rttval < MODULUS && c'.srtt + cfg.interval < MODULUS {
      Small(4 * c'.rttval);
      Small(c'.srtt + Max(cfg.interval, 4 * c'.rttval));
    }
  }

  // ------------------------------------------------------------- broken peers

  lemma {:induction false} MaxUnaIs(fs: seq<Frame>)
    ensures forall f :: f in fs ==> Wrap(f.una) <= MaxUna(fs)
    ensures fs != [] ==> exists f :: f in fs && Wrap(f.una) == MaxUna(fs)
  {
    if fs != [] {
      var init, f := fs[..|fs| - 1], fs[|fs| - 1];
      assert fs == init + [f] && f in fs && forall g :: g in init ==> g in fs;
      MaxUnaIs(init);
      hide Wrap;
    }
  }

  /** The endpoint is declared broken exactly by a whole datagram whose greatest `una`, as
      a plain 32-bit number, acknowledges what was never sent. */
  lemma BrokenExactly(cb: Cb, b: seq<u8>)
    requires Inv(cb)
    ensures var fs := Frames(cb, b);
            var broken := |b| >= OVERHEAD && Parse(cb.cfg.conv, b).1 == 0
                          && exists f :: f in fs && TimeDiff(Wrap(f.una), Wrap(cb.snd.nxt)) > 0
                                         && forall g :: g in fs ==> Wrap(g.una) <= Wrap(f.una);
            Input(cb, b).0.ctl.state == if broken then STATE_BROKEN else cb.ctl.state
  {
    hide Input, InputFrames, Parse, MaxUna, Wrap, TimeDiff, SenderInv, ReceiverInv;
    var fs := Frames(cb, b);
    FramesControlIs(cb, fs);
    InputFramesInv(cb, fs);
    LastStep(cb, b);
    MaxUnaIs(fs);
    if |b| >= OVERHEAD && Parse(cb.cfg.conv, b).1 == 0 {
      SomeFrame(cb.cfg.conv, b);
    }
  }

  lemma SomeFrame(conv: u32, b: seq<u8>)
    requires |b| >= OVERHEAD && Parse(conv, b).1 == 0
    ensures Parse(conv, b).0 != []
  {
  }

  // --------------------------------------------------------------------- acks

  /** A segment inside the window, or already received, is put down for an answer with its
      number and time, behind the others, as long as there is room for it. */
  lemma PushIsAcked(cb: Cb, f: Frame)
    requires Inv(cb) && f.cmd == CMD_PUSH
    ensures var x, r := Near(cb.rcv.nxt + cb.cfg.rcvWnd, Wrap(f.sn)), cb.rcv;
            InputFrame(cb, f).rcv.acks ==
              if x < r.nxt + cb.cfg.rcvWnd && |r.acks| < 138 then r.acks + [Ack(x, f.ts)] else r.acks
  {
    hide Near, Wrap, SenderInv, MoveReady, Insert, ParseData;
    var wnd, x := cb.cfg.rcvWnd, Near(cb.rcv.nxt + cb.cfg.rcvWnd, Wrap(f.sn));
    if x < cb.rcv.nxt + wnd {
      ParseDataInv(wnd, cb.rcv.(acks := AckPush(cb.rcv.acks, x, f.ts)), Arrived(f, x));
    }
  }

  // ------------------------------------------------------------------- growth

  /** Sizes for which 32 bits are enough. */
  predicate Moderate(c: Control, mss: nat) {
    mss < 0x1_0000 && c.incr < HALF && c.cwnd < HALF && (c.cwnd + 1) * mss < HALF
  }

  /** What the bytes counted towards the next segment become: a full segment's worth is
      spread over a window, and a sixteenth of it added. */
  function Credit(c: Control, mss: nat): int
    requires mss > 0
  {
    var base := if c.incr < mss then mss else c.incr;
    base + mss * mss / base + mss / 16
  }

  /** New acknowledgements open the congestion window below the peer's: by one segment up to
      the threshold, and beyond it to the least number of segments that holds the bytes
      counted, once they are worth another. */
  lemma GrowsExactly(cfg: Config, c: Control)
    requires cfg.Valid()
    ensures var c', mss := Grow(cfg, c), cfg.Mss();
            && (c.cwnd >= c.rmtWnd ==> c' == c)
            && (c.cwnd < c.rmtWnd && c.cwnd < c.ssthresh ==>
                  c'.cwnd == c.cwnd + 1 && c'.incr == Wrap(c.incr + mss))
            && (c.cwnd < c.rmtWnd && c.cwnd >= c.ssthresh && Moderate(c, mss) ==> Avoids(c, c', mss))
  {
    hide Mul, Div;
    var mss := cfg.Mss();
    if c.cwnd < c.rmtWnd && c.cwnd >= c.ssthresh && Moderate(c, mss) {
      GrowsSlowly(cfg, c);
    }
  }

  /** Beyond the threshold. */
  predicate Avoids(c: Control, c': Control, mss: nat)
    requires mss > 0
  {
    var credit := Credit(c, mss);
    if (c.cwnd + 1) * mss > credit then c'.cwnd == c.cwnd && c'.incr == credit
    else
      || (c'.cwnd <= c.rmtWnd && (c'.cwnd - 1) * mss < credit <= c'.cwnd * mss && c'.incr == credit)
      || (c'.cwnd == c.rmtWnd && c.rmtWnd * mss < credit && c'.incr == Wrap(c.rmtWnd * mss))
  }

  lemma GrowsSlowly(cfg: Config, c: Control)
    requires cfg.Valid() && c.cwnd < c.rmtWnd && c.cwnd >= c.ssthresh && Moderate(c, cfg.Mss())
    ensures Avoids(c, Grow(cfg, c), cfg.Mss())
  {
    var mss := cfg.Mss();
    hide Mul, Div, Wrap, Moderate, Credit;
    GrowIs(cfg, c);
    CreditFits(c, mss);
    CeilingIs(Credit(c, mss), mss);
    CapIs(Credit(c, mss), mss, c.rmtWnd);
  }

  lemma CreditFits(c: Control, mss: nat)
    requires mss > 0 && Moderate(c, mss)
    ensures mss <= Credit(c, mss) < MODULUS - mss
  {
    SquareFits(mss, if c.incr < mss then mss else c.incr);
  }

  lemma SquareFits(mss: nat, base: nat)
    requires 0 < mss < 0x1_0000 && base >= mss
    ensures 0 <= mss * mss < MODULUS && 0 <= mss * mss / base <= mss
  {
    Monotone'(mss, 0xffff, mss);
    Monotone'(mss, base, mss);
    QuotientAtMost(mss * mss, base, mss);
  }

  lemma QuotientAtMost(a: nat, b: nat, k: nat)
    requires b > 0 && a <= b * k
    ensures 0 <= a / b <= k
  {
    var q, r := a / b, a % b;
    assert a == q * b + r;
    Arith.MulAtLeast(q, b);
    Arith.MulAtLeast(q - k, b);
    assert (q - k) * b == q * b - b * k;
  }

  lemma Monotone'(x: nat, y: nat, z: nat)
    requires x <= y
    ensures x * z <= y * z
  {
  }

  /** The wrapped computation in its range. */
  lemma GrowIs(cfg: Config, c: Control)
    requires cfg.Valid() && c.cwnd < c.rmtWnd && c.cwnd >= c.ssthresh && Moderate(c, cfg.Mss())
    ensures var mss, c' := cfg.Mss(), Grow(cfg, c);
            var credit := Credit(c, mss);
            var most := (credit + mss - 1) / mss;
            if (c.cwnd + 1) * mss <= credit then
              if most > c.rmtWnd then c'.cwnd == c.rmtWnd && c'.incr == Wrap(c.rmtWnd * mss)
              else c'.cwnd == most && c'.incr == credit
            else c'.cwnd == c.cwnd && c'.incr == credit
  {
    hide Wrap, Moderate, Mul, Div, Credit;
    InRange(c, cfg.Mss());
    MulIs(c.rmtWnd, cfg.Mss());
  }

  lemma InRange(c: Control, mss: nat)
    requires mss > 0 && Moderate(c, mss)
    ensures var credit, base := Credit(c, mss), if c.incr < mss then mss else c.incr;
            && Wrap(c.cwnd + 1) == c.cwnd + 1 && Mul(c.cwnd + 1, mss) == (c.cwnd + 1) * mss
            && Wrap(base + Div(Mul(mss, mss), base) + mss / 16) == credit >= mss
            && Div(Wrap(credit + mss - 1), mss) == (credit + mss - 1) / mss
  {
    hide Wrap, Credit, Mul, Div;
    SquareFits(mss, mss);
    CreditFits(c, mss);
    CreditIs(c, mss);
    ProductFits(c.cwnd + 1, mss);
    ProductFits(mss, mss);
    Small(c.cwnd + 1);
    Small(Credit(c, mss));
    Small(Credit(c, mss) + mss - 1);
    QuotientIs(Credit(c, mss) + mss - 1, mss);
  }

  lemma MulIs(a: nat, b: nat)
    ensures Mul(a, b) == Wrap(a * b)
  {
  }

  lemma ProductFits(a: nat, b: nat)
    requires 0 <= a * b < MODULUS
    ensures Mul(a, b) == a * b
  {
    Small(a * b);
  }

  lemma QuotientIs(a: u32, b: nat)
    requires b > 0
    ensures Div(a, b) == a / b
  {
  }

  lemma CreditIs(c: Control, mss: nat)
    requires mss > 0 && 0 <= mss * mss < MODULUS
    ensures var base := if c.incr < mss then mss else c.incr;
            Credit(c, mss) == base + Div(mss * mss, base) + mss / 16
  {
  }

  lemma CeilingIs(n: nat, mss: nat)
    requires mss > 0
    ensures var w := (n + mss - 1) / mss; (w - 1) * mss < n <= w * mss
  {
    var w, r := (n + mss - 1) / mss, (n + mss - 1) % mss;
    assert n + mss - 1 == w * mss + r;
  }

  /** A cap below the number of segments leaves bytes over. */
  lemma CapIs(n: nat, mss: nat, cap: nat)
    requires mss > 0
    ensures (n + mss - 1) / mss > cap ==> cap * mss < n
  {
    var w := (n + mss - 1) / mss;
    CeilingIs(n, mss);
    if w > cap {
      Monotone'(cap, w - 1, mss);
    }
  }

  /** And only new acknowledgements do. */
  lemma GrowsOnProgress(cb: Cb, b: seq<u8>)
    requires Inv(cb)
    ensures var c := InputFrames(cb, Frames(cb, b)).ctl;
            var grown := if Input(cb, b).1 == 0 && Input(cb, b).0.snd.una > cb.snd.una then Grow(cb.cfg, c) else c;
            Input(cb, b).0.ctl.cwnd == grown.cwnd && Input(cb, b).0.ctl.incr == grown.incr
    ensures InputFrames(cb, Frames(cb, b)).ctl.cwnd == cb.ctl.cwnd && InputFrames(cb, Frames(cb, b)).ctl.incr == cb.ctl.incr
  {
    hide Grow, MaxUna, SenderInv, ReceiverInv, Skipped, TimeDiff, Near;
    FramesControlIs(cb, Frames(cb, b));
  }

  /** Fewer bytes than a header are refused with -1 and change nothing; otherwise the code
      is the parser's, and after a fault nothing follows the frames before it. */
  lemma InputAnswers(cb: Cb, b: seq<u8>)
    requires cb.cfg.Valid()
    ensures if |b| < 24 then Input(cb, b) == (cb, -1) else Input(cb, b).1 == Parse(cb.cfg.conv, b).1
    ensures Input(cb, b).1 != 0 ==> Input(cb, b).0 == InputFrames(cb, Frames(cb, b))
  {
    hide Parse, InputFinish;
    if |b| < 24 {
      NoFrames(cb, b);
    }
  }

  lemma NoFrames(cb: Cb, b: seq<u8>)
    requires |b| < OVERHEAD
    ensures Frames(cb, b) == []
  {
  }

  // ------------------------------------------------------------ reading, resuming

  /** Taking a message out of a full queue, so that there is room again, is announced by
      the next flush with the room there is; nothing else asks for that. */
  lemma ReopeningIsAnnounced(n: Node, len: int)
    requires Inv(n.cb) && n.cb.ctl.updated
    ensures var wnd, before, c := n.cb.cfg.rcvWnd, n.cb.rcv, TakeMsg(n, len).cb;
            && Inv(c) && c.ctl.updated
            && (c.ctl.askTell <==> n.cb.ctl.askTell || (|before.queue| == wnd && |c.rcv.queue| < wnd))
            && (|before.queue| == wnd && |c.rcv.queue| < wnd ==>
                  exists f :: f in Output(c) && f.cmd == CMD_WINS && f.wnd == (wnd - |c.rcv.queue|) % 0x1_0000)
  {
    hide SenderInv, Recv, Output;
    var wnd, before, c := n.cb.cfg.rcvWnd, n.cb.rcv, TakeMsg(n, len).cb;
    RecvInv(wnd, before, len);
    RecvFails(wnd, before, len);
    assert Inv(c);
    if |before.queue| == wnd && |c.rcv.queue| < wnd {
      ProbesExactly(c);
      var f :| f in Output(c) && f.cmd == CMD_WINS;
      BareFramesAre(c, f);
    }
  }

  lemma RecvFails(wnd: nat, r: Receiver, len: int)
    ensures Recv(wnd, r, len).1 < 0 ==> Recv(wnd, r, len).0 == r
  {
    hide MoveReady, PeekSize, FirstMessage, Bytes;
  }

  /** Resuming clears the dead mark and changes nothing but that and the transmission
      counts, so that the next flush sends every segment in flight again. */
  lemma ResumedIsResent(cb: Cb, s: Seg)
    requires Inv(cb) && cb.ctl.updated && s in cb.snd.buf
    ensures var c := Reconnect(cb);
            && c == cb.(ctl := cb.ctl.(state := 0), snd := cb.snd.(buf := c.snd.buf))
            && Inv(c) && DataFrame(c, s.sn, s) in Output(c)
  {
    hide Output, SenderInv, ReceiverInv;
    ReconnectInv(cb);
    var c := Reconnect(cb);
    var i :| 0 <= i < |cb.snd.buf| && cb.snd.buf[i] == s;
    assert c.snd.buf[i] == s.(xmit := 0);
    OldAreSentExactly(c, c.snd.buf[i]);
  }

  /** From nothing to the wire: the first message on a new endpoint leaves with the first
      call of the timer, unless it is too long or the congestion window has to open. */
  lemma FirstMessageLeaves(cfg: Config, msg: seq<u8>, now: u32, i: nat)
    requires cfg.Valid() && cfg.noCwnd && FragCount(cfg.Mss(), |msg|) < WND_RCV
    requires i < FragCount(cfg.Mss(), |msg|) && i < cfg.sndWnd
    ensures var cb := Create(cfg).(snd := Send(cfg, Create(cfg).snd, msg).0);
            && i < |Split(cfg.Mss(), msg)|
            && exists f :: f in Update(cb, now).1 && f.cmd == CMD_PUSH && f.sn == i && f.data == Split(cfg.Mss(), msg)[i].data
  {
    hide Split, Output, SenderInv, ReceiverInv, Flush, Ticked, Update, Create, Send, FragCount;
    var cb := Create(cfg).(snd := Send(cfg, Create(cfg).snd, msg).0);
    SentFirst(cfg, msg);
    FirstTick(cfg, cb.snd, now);
    var t := Ticked(cb, now);
    FirstAdmits(t, i);
    NewAreSent(t, i);
    assert DataFrame(t, t.snd.nxt + i, t.snd.queue[i]) in Update(cb, now).1;
  }

  /** Without that setting the congestion window has to open first: whatever waits, the
      first call sends nothing, and the second a single segment. */
  lemma OpensWithOne(cfg: Config, msg: seq<u8>, now: u32)
    requires cfg.Valid() && !cfg.noCwnd && FragCount(cfg.Mss(), |msg|) < WND_RCV
    ensures var c := Update(Create(cfg).(snd := Send(cfg, Create(cfg).snd, msg).0), now);
            && c.1 == [] && c.0.ctl.cwnd == 1 && c.0.ctl.rto == 200
            && c.0.cfg.Valid() && Flush(c.0).snd.nxt == 1
  {
    hide Split, SenderInv, ReceiverInv, Flush, Ticked, Update, Create, Send, FragCount, Output;
    var cb := Create(cfg).(snd := Send(cfg, Create(cfg).snd, msg).0);
    SentFirst(cfg, msg);
    FirstTick(cfg, cb.snd, now);
    FirstEstimates(cfg, cb.snd, now);
    var t := Ticked(cb, now);
    NothingAdmitted(t);
    OneAdmitted(Flush(t));
  }

  lemma FirstEstimates(cfg: Config, snd: Sender, now: u32)
    requires cfg.Valid()
    ensures var t := Ticked(Create(cfg).(snd := snd), now);
            && t.ctl.cwnd == 0 && t.ctl.rto == 200 && t.ctl.rmtWnd == 128 && !t.ctl.askTell && !t.ctl.askSend
            && t.rcv.acks == [] && Update(Create(cfg).(snd := snd), now) == (Flush(t), Output(t))
  {
    hide Output, Flush, NextFlush;
  }

  lemma NothingAdmitted(t: Cb)
    requires Inv(t) && t.ctl.updated && !t.cfg.noCwnd && t.ctl.cwnd == 0 && t.ctl.rmtWnd == 128
    requires t.snd.buf == [] && t.snd.una == t.snd.nxt && t.rcv.acks == [] && !t.ctl.askTell && !t.ctl.askSend
    ensures Output(t) == [] && Inv(Flush(t)) && Flush(t).snd == t.snd && Flush(t).cfg == t.cfg
    ensures var c := Flush(t).ctl; c.cwnd == 1 && c.rto == t.ctl.rto && c.rmtWnd == 128 && c.updated
  {
    hide SenderInv, ReceiverInv;
    FlushInv(t);
  }

  lemma OneAdmitted(c: Cb)
    requires Inv(c) && c.ctl.updated && !c.cfg.noCwnd && c.ctl.cwnd == 1 && c.ctl.rmtWnd == 128
    requires c.snd.una == 0 && c.snd.nxt == 0 && c.snd.queue != []
    ensures Flush(c).snd.nxt == 1
  {
    hide Admitted, FlushControl, SweptAll, ReceiverInv;
    AdmitsToTheWindow(c);
    AdmittedInv(c);
    var k := AdmittedIs(c);
  }

  lemma SentFirst(cfg: Config, msg: seq<u8>)
    requires cfg.Valid() && FragCount(cfg.Mss(), |msg|) < WND_RCV
    ensures var s := Send(cfg, Create(cfg).snd, msg).0;
            && Inv(Create(cfg).(snd := s)) && s.una == 0 && s.nxt == 0 && s.buf == []
            && s.queue == Split(cfg.Mss(), msg) && |s.queue| == FragCount(cfg.Mss(), |msg|)
  {
    CreateInv(cfg);
    SendInv(cfg, Create(cfg).snd, msg);
    SplitCount(cfg.Mss(), msg);
    assert [] + Split(cfg.Mss(), msg) == Split(cfg.Mss(), msg);
  }

  lemma FirstTick(cfg: Config, snd: Sender, now: u32)
    requires cfg.Valid() && Inv(Create(cfg).(snd := snd))
    ensures var cb := Create(cfg).(snd := snd);
            var t := Ticked(cb, now);
            && t.cfg == cfg && t.snd == snd && t.rcv == cb.rcv && t.ctl.updated && t.ctl.rmtWnd == 128
            && t.rcv.queue == [] && Inv(t) && Update(cb, now).1 == Output(t)
  {
    hide Output, Flush, SenderInv, NextFlush;
  }

  lemma FirstAdmits(t: Cb, i: nat)
    requires Inv(t) && t.cfg.noCwnd && t.snd.una == 0 && t.snd.nxt == 0 && t.ctl.updated && t.ctl.rmtWnd == 128
    requires i < |t.snd.queue| && i < 128 && i < t.cfg.sndWnd
    ensures i < Flush(t).snd.nxt
  {
    hide Admitted, FlushControl, SweptAll, ReceiverInv;
    AdmitsToTheWindow(t);
    AdmittedInv(t);
    var k := AdmittedIs(t);
  }

  lemma {:induction false} SplitCount(mss: nat, msg: seq<u8>)
    requires mss > 0 && FragCount(mss, |msg|) <= 0x100
    ensures |Split(mss, msg)| == FragCount(mss, |msg|)
    decreases |msg|
  {
    if |msg| > mss {
      SplitCount(mss, msg[mss..]);
    }
  }
}
