/**
 The state of one KCP endpoint and what each operation does to it.

 Sequence numbers are unbounded indices here. Frames that arrive carry only the
 low 32 bits of an index; the operations decode them with `Near` against the
 window edge that the source compares them with. `KcpEngine` shows that the
 32-bit code computes exactly these functions for every input.
 */
module KcpModel {
  import opened U32
  import opened KcpCodec
  import Arith

  const ACK_BLOCK: nat := 138
  const WND_RCV: nat := 128
  const MAX_WND: nat := 0x2000_0000
  const DEAD_LINK: nat := 20
  const FASTACK_LIMIT: nat := 5
  const THRESH_INIT: u32 := 2
  const THRESH_MIN: u32 := 2
  const RTO_DEF: u32 := 200
  const RTO_MAX: u32 := 60000
  const PROBE_INIT: u32 := 7000
  const PROBE_LIMIT: u32 := 120000
  const INTERVAL: u32 := 100
  const RESYNC: int := 10000
  const STATE_DEAD: u32 := 0xffff_ffff
  const STATE_BROKEN: u32 := 0xffff_fffe

  /** Settings fixed when the endpoint is created. */
  datatype Config = Config(
    conv: u32, mtu: nat, sndWnd: nat, rcvWnd: nat,
    interval: u32, nodelay: nat, fastResend: nat, noCwnd: bool, minRto: u32)
  {
    predicate Valid() {
      && OVERHEAD < mtu < HALF
      && 0 < sndWnd <= MAX_WND
      && WND_RCV <= rcvWnd <= MAX_WND
      && fastResend < HALF
    }

    function Mss(): (mss: nat)
      requires Valid()
    {
      mtu - OVERHEAD
    }
  }

  /** `IKCPSEG`: an entry of any of the four queues. */
  datatype Seg = Seg(
    frg: u8, data: seq<u8>, wnd: u32, ts: u32, sn: int, una: int,
    resendts: u32, rto: u32, fastack: u32, xmit: u32)

  datatype Ack = Ack(sn: int, ts: u32)

  /** What a Cb holds of its outgoing segments: `snd_una`, `snd_nxt`,
      `snd_queue`, `snd_buf`. */
  datatype Sender = Sender(una: int, nxt: int, queue: seq<Seg>, buf: seq<Seg>)

  /** What it holds of incoming ones: `rcv_nxt`, `rcv_buf`, `rcv_queue`, `acklist`. */
  datatype Receiver = Receiver(nxt: int, buf: seq<Seg>, queue: seq<Seg>, acks: seq<Ack>)

  /** Timers, windows and congestion state. */
  datatype Control = Control(
    state: u32, ssthresh: u32, rttval: nat, srtt: nat, rto: u32,
    rmtWnd: u32, cwnd: u32, incr: u32, askSend: bool, askTell: bool,
    current: u32, tsFlush: u32, tsProbe: u32, probeWait: u32, xmit: u32, updated: bool)

  /** `IKCPCB` without the counters that mirror queue lengths. */
  datatype Cb = Cb(cfg: Config, snd: Sender, rcv: Receiver, ctl: Control)

  /** `ikcp_create`, followed by the settings of `KcpWrapper::Init`. */
  function Create(cfg: Config): Cb {
    Cb(cfg, Sender(0, 0, [], []), Receiver(0, [], [], []),
       Control(0, THRESH_INIT, 0, 0, RTO_DEF, WND_RCV, 0, 0, false, false, 0, INTERVAL, 0, 0, 0, false))
  }

  function Mul(a: int, b: int): u32 {
    Wrap(a * b)
  }

  function Div(a: u32, b: int): u32
    requires b > 0
  {
    Arith.DivAtMost(a, b);
    a / b
  }

  function Max(a: int, b: int): int {
    if a >= b then a else b
  }

  function Min(a: int, b: int): int {
    if a <= b then a else b
  }

  // ---------------------------------------------------------------- sending

  function FreshSeg(frg: u8, data: seq<u8>): Seg {
    Seg(frg, data, 0, 0, 0, 0, 0, 0, 0, 0)
  }

  /** How many segments a message of `len` bytes takes: a full one at a time. */
  function FragCount(mss: nat, len: nat): (n: nat)
    requires mss > 0
    ensures n >= 1
  {
    if len <= mss then 1 else 1 + FragCount(mss, len - mss)
  }

  /** One message as segments: full ones first, `frg` counting down to 0. */
  function Split(mss: nat, msg: seq<u8>): seq<Seg>
    requires mss > 0 && FragCount(mss, |msg|) <= 0x100
    decreases |msg|
  {
    if |msg| <= mss then [FreshSeg(0, msg)]
    else [FreshSeg(FragCount(mss, |msg|) - 1, msg[..mss])] + Split(mss, msg[mss..])
  }

  /** The division in `ikcp_send` computes the same number. */
  lemma {:induction false} FragCountIsQuotient(mss: nat, len: nat)
    requires 0 < mss < len
    ensures FragCount(mss, len) == (len + mss - 1) / mss
  {
    Arith.DivAddMultiple(len - 1, mss, 1);
    if len - mss > mss {
      FragCountIsQuotient(mss, len - mss);
    } else {
      Arith.DivUnique(len - 1, mss, 1, len - 1 - mss);
    }
  }

  /** `ikcp_send` outside streaming mode: the new sender and the return value. */
  function Send(cfg: Config, snd: Sender, msg: seq<u8>): (Sender, int)
    requires cfg.Valid()
  {
    if FragCount(cfg.Mss(), |msg|) >= WND_RCV then (snd, -2)
    else (snd.(queue := snd.queue + Split(cfg.Mss(), msg)), |msg|)
  }

  // -------------------------------------------------------------- receiving

  function Bytes(segs: seq<Seg>): seq<u8> {
    if segs == [] then [] else Bytes(segs[..|segs| - 1]) + segs[|segs| - 1].data
  }

  /** How many segments `ikcp_recv` and `ikcp_peeksize` walk: up to and
      including the first whose `frg` is 0, or all of them. */
  function FirstMessage(q: seq<Seg>): (n: nat)
    ensures n <= |q|
    ensures q != [] ==> n > 0
  {
    if q == [] then 0 else if q[0].frg == 0 then 1 else 1 + FirstMessage(q[1..])
  }

  /** `ikcp_peeksize`. */
  function PeekSize(q: seq<Seg>): int {
    if q == [] then -1
    else if q[0].frg == 0 then |q[0].data|
    else if |q| < q[0].frg as int + 1 then -1
    else |Bytes(q[..FirstMessage(q)])|
  }

  /** Moves what has become contiguous from `buf` to `queue`. */
  function MoveReady(wnd: nat, r: Receiver): Receiver
    decreases |r.buf|
  {
    if r.buf != [] && r.buf[0].sn == r.nxt && |r.queue| < wnd then
      MoveReady(wnd, Receiver(r.nxt + 1, r.buf[1..], r.queue + [r.buf[0]], r.acks))
    else r
  }

  /** `ikcp_recv`: a negative `len` peeks. Returns the new receiver, the return
      value and the bytes copied out. */
  function Recv(wnd: nat, r: Receiver, len: int): (Receiver, int, seq<u8>) {
    var peek := PeekSize(r.queue);
    if r.queue == [] then (r, -1, [])
    else if peek < 0 then (r, -2, [])
    else if peek > (if len < 0 then -len else len) then (r, -3, [])
    else
      var n := FirstMessage(r.queue);
      var out := Bytes(r.queue[..n]);
      (MoveReady(wnd, if len < 0 then r else r.(queue := r.queue[n..])), |out|, out)
  }

  /** Whether `ikcp_recv` has reopened a full window and wants to announce it. */
  predicate Reopened(wnd: nat, before: Receiver, after: Receiver) {
    |before.queue| >= wnd && |after.queue| < wnd
  }

  // ------------------------------------------------------- acknowledgements

  /** `ikcp_update_ack`. */
  function UpdateAck(cfg: Config, c: Control, rtt: nat): Control {
    var delta := if rtt < c.srtt then c.srtt - rtt else rtt - c.srtt;
    var rttval := if c.srtt == 0 then rtt / 2 else (3 * c.rttval + delta) / 4;
    var srtt := if c.srtt == 0 then rtt else Max((7 * c.srtt + rtt) / 8, 1);
    var rto := Wrap(srtt + Max(cfg.interval, Wrap(4 * rttval)));
    c.(rttval := rttval, srtt := srtt, rto := Min(Max(cfg.minRto, rto), RTO_MAX))
  }

  /** `ikcp_shrink_buf`. */
  function Shrink(s: Sender): Sender {
    s.(una := if s.buf == [] then s.nxt else s.buf[0].sn)
  }

  /** The list walk of `ikcp_parse_una`. */
  function DropBelow(buf: seq<Seg>, una: int): seq<Seg> {
    if buf != [] && buf[0].sn < una then DropBelow(buf[1..], una) else buf
  }

  /** `ikcp_parse_una` and the `ikcp_shrink_buf` after it. */
  function ParseUna(s: Sender, una: u32): Sender {
    Shrink(s.(buf := DropBelow(s.buf, Near(s.una, una))))
  }

  /** The list walk of `ikcp_parse_ack`. */
  function Remove(buf: seq<Seg>, sn: int): seq<Seg> {
    if buf == [] || sn < buf[0].sn then buf
    else if buf[0].sn == sn then buf[1..]
    else [buf[0]] + Remove(buf[1..], sn)
  }

  predicate Outstanding(s: Sender, sn: int) {
    s.una <= sn < s.nxt
  }

  /** `ikcp_parse_ack` and the `ikcp_shrink_buf` after it. */
  function ParseAck(s: Sender, sn: u32): Sender {
    var x := Near(s.una, sn);
    Shrink(if Outstanding(s, x) then s.(buf := Remove(s.buf, x)) else s)
  }

  /** The list walk of `ikcp_parse_fastack`. */
  function Skipped(buf: seq<Seg>, sn: int): (r: seq<Seg>)
    ensures |r| == |buf|
  {
    if buf == [] || sn < buf[0].sn then buf
    else
      var head := if sn == buf[0].sn then buf[0] else buf[0].(fastack := Wrap(buf[0].fastack + 1));
      [head] + Skipped(buf[1..], sn)
  }

  /** `ikcp_parse_fastack`. */
  function ParseFastack(s: Sender, sn: u32): Sender {
    var x := Near(s.una, sn);
    if Outstanding(s, x) then s.(buf := Skipped(s.buf, x)) else s
  }

  // ------------------------------------------------------------------ input

  /** `ikcp_ack_push`: acks beyond the fixed block are dropped. */
  function AckPush(acks: seq<Ack>, sn: int, ts: u32): seq<Ack> {
    if |acks| + 1 > ACK_BLOCK then acks else acks + [Ack(sn, ts)]
  }

  /** Inserts in order of index; a segment already present is kept. */
  function Insert(buf: seq<Seg>, s: Seg): seq<Seg> {
    if buf == [] || buf[|buf| - 1].sn < s.sn then buf + [s]
    else if buf[|buf| - 1].sn == s.sn then buf
    else Insert(buf[..|buf| - 1], s) + [buf[|buf| - 1]]
  }

  /** The segment `ikcp_input` builds for a PUSH frame, whose fields used only by
      a sender stay unset. */
  function Arrived(f: Frame, sn: int): Seg {
    Seg(f.frg, f.data, f.wnd, f.ts, sn, Wrap(f.una), 0, 0, 0, 0)
  }

  /** `ikcp_parse_data`. */
  function ParseData(wnd: nat, r: Receiver, s: Seg): Receiver {
    if s.sn >= r.nxt + wnd || s.sn < r.nxt then r
    else MoveReady(wnd, r.(buf := Insert(r.buf, s)))
  }

  /** The PUSH branch of `ikcp_input`. */
  function InputPush(wnd: nat, r: Receiver, f: Frame): Receiver {
    var sn := Near(r.nxt + wnd, Wrap(f.sn));
    if sn >= r.nxt + wnd then r
    else ParseData(wnd, r.(acks := AckPush(r.acks, sn, f.ts)), Arrived(f, sn))
  }

  function SenderInput(s: Sender, f: Frame): Sender {
    var s1 := ParseUna(s, Wrap(f.una));
    if f.cmd == CMD_ACK then ParseAck(s1, Wrap(f.sn)) else s1
  }

  function ReceiverInput(wnd: nat, r: Receiver, f: Frame): Receiver {
    if f.cmd == CMD_PUSH then InputPush(wnd, r, f) else r
  }

  function ControlInput(cfg: Config, c: Control, f: Frame): Control {
    var c1 := c.(rmtWnd := f.wnd);
    if f.cmd == CMD_ACK && TimeDiff(c.current, f.ts) >= 0 then UpdateAck(cfg, c1, TimeDiff(c.current, f.ts))
    else if f.cmd == CMD_WASK then c1.(askTell := true)
    else c1
  }

  /** One pass of the loop in `ikcp_input`. */
  function InputFrame(cb: Cb, f: Frame): Cb {
    Cb(cb.cfg, SenderInput(cb.snd, f), ReceiverInput(cb.cfg.rcvWnd, cb.rcv, f), ControlInput(cb.cfg, cb.ctl, f))
  }

  function InputFrames(cb: Cb, fs: seq<Frame>): (r: Cb)
    ensures r.cfg == cb.cfg
  {
    if fs == [] then cb else InputFrame(InputFrames(cb, fs[..|fs| - 1]), fs[|fs| - 1])
  }

  datatype Option<T> = None | Some(value: T)

  /** The acknowledged number that `ikcp_input` hands to `ikcp_parse_fastack`. */
  function MaxAck(fs: seq<Frame>): Option<u32> {
    if fs == [] then None
    else
      var prev, f := MaxAck(fs[..|fs| - 1]), fs[|fs| - 1];
      if f.cmd != CMD_ACK then prev
      else if prev.None? || TimeDiff(Wrap(f.sn), prev.value) > 0 then Some(Wrap(f.sn))
      else prev
  }

  /** The largest `una` of a datagram, compared as plain 32-bit integers. */
  function MaxUna(fs: seq<Frame>): u32 {
    if fs == [] then 0
    else
      var prev, una := MaxUna(fs[..|fs| - 1]), Wrap(fs[|fs| - 1].una);
      if una > prev then una else prev
  }

  /** Growth of the congestion window after new data was acknowledged. */
  function Grow(cfg: Config, c: Control): Control
    requires cfg.Valid()
  {
    if c.cwnd >= c.rmtWnd then c
    else
      var mss := cfg.Mss();
      var c1 :=
        if c.cwnd < c.ssthresh then c.(cwnd := Wrap(c.cwnd + 1), incr := Wrap(c.incr + mss))
        else
          var base := if c.incr < mss then mss else c.incr;
          var incr := Wrap(base + Div(Mul(mss, mss), base) + mss / 16);
          if Mul(Wrap(c.cwnd + 1), mss) <= incr then c.(incr := incr, cwnd := Div(Wrap(incr + mss - 1), mss))
          else c.(incr := incr);
      if c1.cwnd > c1.rmtWnd then c1.(cwnd := c1.rmtWnd, incr := Mul(c1.rmtWnd, mss)) else c1
  }

  function FinishControl(cfg: Config, c: Control, advanced: bool, broken: bool): Control
    requires cfg.Valid()
  {
    var c1 := if advanced then Grow(cfg, c) else c;
    if broken then c1.(state := STATE_BROKEN) else c1
  }

  /** What `ikcp_input` does after a datagram was read to its end. */
  function InputFinish(cb: Cb, prevUna: int, maxAck: Option<u32>, maxUna: u32): Cb
    requires cb.cfg.Valid()
  {
    Cb(cb.cfg,
       if maxAck.Some? then ParseFastack(cb.snd, maxAck.value) else cb.snd,
       cb.rcv,
       FinishControl(cb.cfg, cb.ctl, cb.snd.una > prevUna, TimeDiff(maxUna, Wrap(cb.snd.nxt)) > 0))
  }

  /** `ikcp_input`: frames before a malformed one have already taken effect when
      the error is returned. */
  function Input(cb: Cb, b: seq<u8>): (Cb, int)
    requires cb.cfg.Valid()
  {
    if |b| < OVERHEAD then (cb, -1)
    else
      var p := Parse(cb.cfg.conv, b);
      var c1 := InputFrames(cb, p.0);
      if p.1 != 0 then (c1, p.1)
      else (InputFinish(c1, cb.snd.una, MaxAck(p.0), MaxUna(p.0)), 0)
  }

  // ------------------------------------------------------------------ flush

  /** `ikcp_wnd_unused`. */
  function WndUnused(cb: Cb): u32
    requires cb.cfg.Valid()
  {
    if |cb.rcv.queue| < cb.cfg.rcvWnd then cb.cfg.rcvWnd - |cb.rcv.queue| else 0
  }

  function HeadFrame(cb: Cb, cmd: u8, sn: int, ts: u32): Frame
    requires cb.cfg.Valid()
  {
    Frame(cmd, 0, WndUnused(cb) % 0x1_0000, ts, sn, cb.rcv.nxt, [])
  }

  function AckFrames(cb: Cb, n: nat): (fs: seq<Frame>)
    requires cb.cfg.Valid() && n <= |cb.rcv.acks|
    ensures |fs| == n
    ensures forall i | 0 <= i < n :: fs[i] == HeadFrame(cb, CMD_ACK, cb.rcv.acks[i].sn, cb.rcv.acks[i].ts)
  {
    seq(n, i requires 0 <= i < n => HeadFrame(cb, CMD_ACK, cb.rcv.acks[i].sn, cb.rcv.acks[i].ts))
  }

  /** The probe timer: asks for the peer's window while it is advertised as 0. */
  function Probe(c: Control): Control {
    if c.rmtWnd != 0 then c.(tsProbe := 0, probeWait := 0)
    else if c.probeWait == 0 then
      c.(probeWait := PROBE_INIT, tsProbe := Wrap(c.current + PROBE_INIT))
    else if TimeDiff(c.current, c.tsProbe) >= 0 then
      var w0 := Max(c.probeWait, PROBE_INIT);
      var w1 := Min(Wrap(w0 + w0 / 2), PROBE_LIMIT);
      c.(probeWait := w1, tsProbe := Wrap(c.current + w1), askSend := true)
    else c
  }

  /** Acks, then the two window probes. Probes repeat the number and time of the
      last ack, because the source reuses one header for all of them. */
  function ControlFrames(cb: Cb): seq<Frame>
    requires cb.cfg.Valid()
  {
    var n := |cb.rcv.acks|;
    var last := if n > 0 then cb.rcv.acks[n - 1] else Ack(0, 0);
    var ask := Probe(cb.ctl);
    AckFrames(cb, n)
    + (if ask.askSend then [HeadFrame(cb, CMD_WASK, last.sn, last.ts)] else [])
    + (if ask.askTell then [HeadFrame(cb, CMD_WINS, last.sn, last.ts)] else [])
  }

  function Window(cfg: Config, c: Control): nat {
    var w := Min(cfg.sndWnd, c.rmtWnd);
    if cfg.noCwnd then w else Min(c.cwnd, w)
  }

  /** The values `ikcp_flush` writes into segments. */
  datatype Sweep = Sweep(current: u32, rto: u32, rtoMin: u32, resent: u32, wnd: u32, una: int, nodelay: nat)

  function SweepOf(cb: Cb): Sweep
    requires cb.cfg.Valid()
  {
    Sweep(cb.ctl.current, cb.ctl.rto,
          if cb.cfg.nodelay == 0 then cb.ctl.rto / 8 else 0,
          if cb.cfg.fastResend > 0 then cb.cfg.fastResend else 0xffff_ffff,
          WndUnused(cb), cb.rcv.nxt, cb.cfg.nodelay)
  }

  function Numbered(w: Sweep, s: Seg, sn: int): Seg {
    Seg(s.frg, s.data, w.wnd, w.current, sn, w.una, w.current, w.rto, 0, 0)
  }

  /** Moves segments from `queue` to `buf` while the window has room. */
  function Admit(s: Sender, window: nat, w: Sweep): Sender
    decreases |s.queue|
  {
    if s.nxt < s.una + window && s.queue != [] then
      Admit(Sender(s.una, s.nxt + 1, s.queue[1..], s.buf + [Numbered(w, s.queue[0], s.nxt)]), window, w)
    else s
  }

  datatype Due = NotDue | First | Timeout | Fast

  function DueOf(w: Sweep, s: Seg): Due {
    if s.xmit == 0 then First
    else if TimeDiff(w.current, s.resendts) >= 0 then Timeout
    else if s.fastack >= w.resent && Signed(s.xmit) <= FASTACK_LIMIT then Fast
    else NotDue
  }

  function Halve(x: int): int {
    if x >= 0 then x / 2 else -(-x / 2)
  }

  function Backoff(w: Sweep, rto: u32): u32 {
    if w.nodelay == 0 then Wrap(rto + Max(rto, w.rto))
    else Wrap(rto + Halve(if w.nodelay < 2 then Signed(rto) else w.rto))
  }

  /** One segment after the resend loop has passed it. */
  function Swept(w: Sweep, s: Seg): Seg {
    var s1 := s.(xmit := Wrap(s.xmit + 1), ts := w.current, wnd := w.wnd, una := w.una);
    match DueOf(w, s)
    case NotDue => s
    case First => s1.(rto := w.rto, resendts := Wrap(w.current + w.rto + w.rtoMin))
    case Timeout => s1.(rto := Backoff(w, s.rto), resendts := Wrap(w.current + Backoff(w, s.rto)))
    case Fast => s1.(fastack := 0, resendts := Wrap(w.current + s.rto))
  }

  function SweptAll(w: Sweep, buf: seq<Seg>): (r: seq<Seg>)
    ensures |r| == |buf| && forall i | 0 <= i < |buf| :: r[i] == Swept(w, buf[i])
  {
    seq(|buf|, i requires 0 <= i < |buf| => Swept(w, buf[i]))
  }

  function FrameOf(s: Seg): Frame {
    Frame(CMD_PUSH, s.frg, s.wnd % 0x1_0000, s.ts, s.sn, s.una, s.data)
  }

  /** The PUSH frames the resend loop puts out, in `snd_buf` order. */
  function PushFrames(w: Sweep, buf: seq<Seg>): seq<Frame> {
    if buf == [] then []
    else
      var s := buf[|buf| - 1];
      PushFrames(w, buf[..|buf| - 1]) + if DueOf(w, s).NotDue? then [] else [FrameOf(Swept(w, s))]
  }

  function CountDue(w: Sweep, buf: seq<Seg>, due: Due): nat {
    if buf == [] then 0
    else CountDue(w, buf[..|buf| - 1], due) + if DueOf(w, buf[|buf| - 1]) == due then 1 else 0
  }

  predicate LinkDead(w: Sweep, buf: seq<Seg>) {
    exists i :: 0 <= i < |buf| && !DueOf(w, buf[i]).NotDue? && Swept(w, buf[i]).xmit >= DEAD_LINK
  }

  /** Window changes at the end of `ikcp_flush`. */
  function Congestion(cfg: Config, c: Control, inflight: u32, window: nat, fast: bool, lost: bool, resent: u32): Control
    requires cfg.Valid()
  {
    var mss := cfg.Mss();
    var c1 :=
      if !fast then c
      else
        var thresh := Max(inflight / 2, THRESH_MIN);
        var cwnd := Wrap(thresh + resent);
        c.(ssthresh := thresh, cwnd := cwnd, incr := Mul(cwnd, mss));
    var c2 := if lost then c1.(ssthresh := Wrap(Max(window / 2, THRESH_MIN)), cwnd := 1, incr := mss) else c1;
    if c2.cwnd < 1 then c2.(cwnd := 1, incr := mss) else c2
  }

  /** The sender as the resend loop finds it. */
  function Admitted(cb: Cb): Sender
    requires cb.cfg.Valid()
  {
    Admit(cb.snd, Window(cb.cfg, cb.ctl), SweepOf(cb))
  }

  function FlushControl(cb: Cb): Control
    requires cb.cfg.Valid()
  {
    var s, w := Admitted(cb), SweepOf(cb);
    var c := Probe(cb.ctl);
    var lost := CountDue(w, s.buf, Timeout);
    Congestion(cb.cfg,
      c.(askSend := false, askTell := false, xmit := Wrap(c.xmit + lost),
         state := if LinkDead(w, s.buf) then STATE_DEAD else c.state),
      Wrap(s.nxt - s.una), Window(cb.cfg, cb.ctl), CountDue(w, s.buf, Fast) > 0, lost > 0, w.resent)
  }

  /** `ikcp_flush`: the new state. */
  function Flush(cb: Cb): Cb
    requires cb.cfg.Valid()
  {
    if !cb.ctl.updated then cb
    else
      var s := Admitted(cb);
      Cb(cb.cfg, s.(buf := SweptAll(SweepOf(cb), s.buf)), cb.rcv.(acks := []), FlushControl(cb))
  }

  /** `ikcp_flush`: the frames it puts out, in order. */
  function Output(cb: Cb): seq<Frame>
    requires cb.cfg.Valid()
  {
    if !cb.ctl.updated then [] else ControlFrames(cb) + PushFrames(SweepOf(cb), Admitted(cb).buf)
  }

  function FrameSize(f: Frame): nat {
    OVERHEAD + |f.data|
  }

  function Size(fs: seq<Frame>): nat {
    if fs == [] then 0 else Size(fs[..|fs| - 1]) + FrameSize(fs[|fs| - 1])
  }

  /** Frames grouped into datagrams: the groups already output and the one being
      filled. A frame that does not fit starts a new group. */
  function Pack(mtu: nat, fs: seq<Frame>): (seq<seq<Frame>>, seq<Frame>) {
    if fs == [] then ([], [])
    else
      var p, f := Pack(mtu, fs[..|fs| - 1]), fs[|fs| - 1];
      if Size(p.1) + FrameSize(f) > mtu then (if p.1 == [] then p.0 else p.0 + [p.1], [f])
      else (p.0, p.1 + [f])
  }

  /** Everything `ikcp_flush` hands to the output callback, as frame groups. */
  function Datagrams(mtu: nat, fs: seq<Frame>): seq<seq<Frame>> {
    var p := Pack(mtu, fs);
    if p.1 == [] then p.0 else p.0 + [p.1]
  }

  // ------------------------------------------------------------------ timer

  function Clock(c: Control, now: u32): Control {
    if c.updated then c.(current := now)
    else c.(current := now, updated := true, tsFlush := now)
  }

  /** Whether `ikcp_update` at time `now` would flush. */
  predicate FlushDue(c: Control, now: u32) {
    var slap := TimeDiff(now, Clock(c, now).tsFlush);
    slap >= 0 || slap < -RESYNC
  }

  function NextFlush(tsFlush: u32, now: u32, interval: u32): u32 {
    var slap := TimeDiff(now, tsFlush);
    var base := if slap >= RESYNC || slap < -RESYNC then now else tsFlush;
    var next := Wrap(base + interval);
    if TimeDiff(now, next) >= 0 then Wrap(now + interval) else next
  }

  /** The state in which `ikcp_update` decides to flush. */
  function Ticked(cb: Cb, now: u32): Cb {
    var c := Clock(cb.ctl, now);
    cb.(ctl := if FlushDue(cb.ctl, now) then c.(tsFlush := NextFlush(c.tsFlush, now, cb.cfg.interval)) else c)
  }

  /** `ikcp_update`: the new state and the frames it puts out. */
  function Update(cb: Cb, now: u32): (Cb, seq<Frame>)
    requires cb.cfg.Valid()
  {
    var c := Ticked(cb, now);
    if FlushDue(cb.ctl, now) then (Flush(c), Output(c)) else (c, [])
  }

  /** The least time to a retransmission, at most `limit`; 0 when one is overdue. */
  function PacketWait(buf: seq<Seg>, now: u32, limit: nat): nat {
    if buf == [] then limit
    else Max(0, Min(PacketWait(buf[..|buf| - 1], now, limit), TimeDiff(buf[|buf| - 1].resendts, now)))
  }

  /** `ikcp_check`. */
  function Check(cb: Cb, now: u32): u32 {
    if !cb.ctl.updated || FlushDue(cb.ctl, now) then now
    else
      var wait := PacketWait(cb.snd.buf, now, TimeDiff(cb.ctl.tsFlush, now));
      Wrap(now + Min(wait, cb.cfg.interval))
  }

  // -------------------------------------------------------------- reconnect

  function Restarted(buf: seq<Seg>): (r: seq<Seg>)
    ensures |r| == |buf| && forall i | 0 <= i < |buf| :: r[i] == buf[i].(xmit := 0)
  {
    seq(|buf|, i requires 0 <= i < |buf| => buf[i].(xmit := 0))
  }

  /** `KcpWrapper::Reconnect` on a live instance. */
  function Reconnect(cb: Cb): Cb {
    cb.(ctl := cb.ctl.(state := 0), snd := cb.snd.(buf := Restarted(cb.snd.buf)))
  }
}
