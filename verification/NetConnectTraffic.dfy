/**
 The traffic limit of a connection: 5000 packets or 1024000 bytes in ten seconds.
 The program restarts the ten seconds and not the counters.
 */
module NetConnectTraffic {
  import opened U32
  import opened NetConnectModel
  import opened NetConnectRuns
  import Arith

  /** Packets and bytes. */
  datatype Load = Load(packets: nat, bytes: nat)

  function Plus(a: Load, b: Load): Load {
    Load(a.packets + b.packets, a.bytes + b.bytes)
  }

  predicate Over(load: Load) {
    load.packets > MAX_CONN_RECV_NUM || load.bytes > MAX_CONN_RECV_SIZE
  }

  /** What a step adds: a packet that is answered with a reset is not counted. */
  function Adds(c: Conn, t: Timed): Load {
    if t.step.Receive? && c.state != Closed && c.state != Disconnected then Load(1, t.step.size) else Load(0, 0)
  }

  /** All that was counted in a run. */
  function Lifetime(start: Conn, ts: seq<Timed>): Load {
    if ts == [] then Load(0, 0)
    else Plus(Lifetime(start, ts[..|ts| - 1]), Adds(Run(start, ts[..|ts| - 1]), ts[|ts| - 1]))
  }

  /** A tick at which the ten seconds are over, so that the next ten begin. */
  predicate Refreshes(c: Conn, t: Timed) {
    t.step.Tick? && t.at >= c.traffic.since + CONN_STATE_INTERVAL
  }

  /** What was counted since the last such tick. */
  function Interval(start: Conn, ts: seq<Timed>): Load {
    if ts == [] then Load(0, 0)
    else
      var c, t := Run(start, ts[..|ts| - 1]), ts[|ts| - 1];
      if Refreshes(c, t) then Load(0, 0) else Plus(Interval(start, ts[..|ts| - 1]), Adds(c, t))
  }

  // ---------------------------------------------------------------- counters

  lemma WrapNext(n: nat, k: nat)
    ensures Wrap(Wrap(n) + k) == Wrap(n + k)
  {
    Arith.DivAddMultiple(Wrap(n) + k, MODULUS, n / MODULUS);
  }

  lemma WrapSmall(n: nat)
    ensures n < MODULUS ==> Wrap(n) == n
  {
  }

  lemma CounterStep(c: Conn, t: Timed)
    ensures Next(c, t).traffic.packets ==
              if Adds(c, t).packets == 0 then c.traffic.packets else Wrap(c.traffic.packets + Adds(c, t).packets)
    ensures Next(c, t).traffic.bytes ==
              if Adds(c, t).packets == 0 then c.traffic.bytes else Wrap(c.traffic.bytes + Adds(c, t).bytes)
    ensures Next(c, t).traffic.since == if Refreshes(c, t) then t.at else c.traffic.since
  {
    hide Wrap;
    match t.step
    case Tick => TickKeepsCounters(c, t.at);
    case _ =>
  }

  lemma TickKeepsCounters(c: Conn, now: int)
    ensures var d := Tick1S(c, now);
            d.traffic == c.traffic.(since := if now >= c.traffic.since + CONN_STATE_INTERVAL then now else c.traffic.since)
  {
    assert TickState(c, now).traffic == c.traffic;
    assert TickBind(TickState(c, now), now).traffic == c.traffic;
  }

  /** Neither counter is ever reset: they hold all packets and all bytes since the
      connection was opened, modulo 2^32. */
  lemma {:induction false} CountersAreForever(start: Conn, ts: seq<Timed>)
    requires start.traffic.packets == 0 && start.traffic.bytes == 0
    ensures Run(start, ts).traffic.packets == Wrap(Lifetime(start, ts).packets)
    ensures Run(start, ts).traffic.bytes == Wrap(Lifetime(start, ts).bytes)
  {
    hide Next, Wrap;
    WrapSmall(0);
    if ts != [] {
      var before := ts[..|ts| - 1];
      CountersAreForever(start, before);
      var all, more := Lifetime(start, before), Adds(Run(start, before), ts[|ts| - 1]);
      CounterStep(Run(start, before), ts[|ts| - 1]);
      WrapNext(all.packets, more.packets);
      WrapNext(all.bytes, more.bytes);
    }
  }

  // ----------------------------------------------------------------- verdict

  /** When the ten seconds are over, a tick finds the connection flooded exactly when
      its packets or bytes since it was opened, modulo 2^32, are over the limit. */
  lemma TrafficVerdict(start: Conn, ts: seq<Timed>, now: int)
    requires start.traffic.packets == 0 && start.traffic.bytes == 0
    requires now >= Run(start, ts).traffic.since + CONN_STATE_INTERVAL
    ensures var all := Lifetime(start, ts);
            Flooded(Run(start, ts), now) <==> Over(Load(Wrap(all.packets), Wrap(all.bytes)))
    ensures var all := Lifetime(start, ts);
            all.packets < MODULUS && all.bytes < MODULUS ==> (Flooded(Run(start, ts), now) <==> Over(all))
  {
    hide Run, Lifetime, Wrap;
    CountersAreForever(start, ts);
    WrapSmall(Lifetime(start, ts).packets);
    WrapSmall(Lifetime(start, ts).bytes);
  }

  lemma {:induction false} IntervalWithin(start: Conn, ts: seq<Timed>)
    ensures Interval(start, ts).packets <= Lifetime(start, ts).packets
    ensures Interval(start, ts).bytes <= Lifetime(start, ts).bytes
  {
    hide Run, Refreshes, Adds;
    if ts != [] {
      IntervalWithin(start, ts[..|ts| - 1]);
    }
  }

  /** The verdict is that of the ten-second limit exactly when the lifetime totals are
      within the limit or those of the interval are over it. */
  lemma LimitIsMet(start: Conn, ts: seq<Timed>, now: int)
    requires start.traffic.packets == 0 && start.traffic.bytes == 0
    requires Lifetime(start, ts).packets < MODULUS && Lifetime(start, ts).bytes < MODULUS
    requires now >= Run(start, ts).traffic.since + CONN_STATE_INTERVAL
    ensures (Flooded(Run(start, ts), now) <==> Over(Interval(start, ts)))
       <==> !Over(Lifetime(start, ts)) || Over(Interval(start, ts))
  {
    hide Run, Lifetime, Interval, Flooded;
    TrafficVerdict(start, ts, now);
    IntervalWithin(start, ts);
  }

  /** At the first check, before any refresh, it is that one. */
  lemma FirstCheck(start: Conn, ts: seq<Timed>, now: int)
    requires start.traffic.packets == 0 && start.traffic.bytes == 0
    requires Lifetime(start, ts).packets < MODULUS && Lifetime(start, ts).bytes < MODULUS
    requires now >= start.traffic.since + CONN_STATE_INTERVAL
    requires forall i :: 0 <= i < |ts| ==> !Refreshes(start, ts[i])
    ensures Flooded(Run(start, ts), now) <==> Over(Interval(start, ts))
  {
    hide Run, Lifetime, Interval, Flooded;
    NotRefreshed(start, ts);
    TrafficVerdict(start, ts, now);
  }

  lemma {:induction false} NotRefreshed(start: Conn, ts: seq<Timed>)
    requires forall i :: 0 <= i < |ts| ==> !Refreshes(start, ts[i])
    ensures Run(start, ts).traffic.since == start.traffic.since && Interval(start, ts) == Lifetime(start, ts)
  {
    hide Next;
    if ts != [] {
      NotRefreshed(start, ts[..|ts| - 1]);
      CounterStep(Run(start, ts[..|ts| - 1]), ts[|ts| - 1]);
    }
  }

  // ----------------------------------------------------------------- witness

  /** A heartbeat of 21 bytes in second `n`. */
  function Beat(id: u32, n: nat): Timed {
    Timed(Receive(HeartBeat(id), 21), n)
  }

  /** A peer that is bound at once and then sends a heartbeat in every second, each
      followed by the program's tick. */
  function Beating(id: u32, n: nat): seq<Timed> {
    if n == 0 then [Timed(BindCall(1), 0)] else Beating(id, n - 1) + [Beat(id, n), Timed(Tick, n)]
  }

  /** What arrives from `begin` on and before `end`. */
  function Arriving(ts: seq<Timed>, begin: int, end: int): Load {
    if ts == [] then Load(0, 0)
    else Plus(Arriving(ts[..|ts| - 1], begin, end), Arrives(ts[|ts| - 1], begin, end))
  }

  function Arrives(t: Timed, begin: int, end: int): Load {
    if t.step.Receive? && begin <= t.at < end then Load(1, t.step.size) else Load(0, 0)
  }

  /** Little arrives in the ten seconds from `x` on. */
  predicate Calm(ts: seq<Timed>, x: int) {
    var load := Arriving(ts, x, x + CONN_STATE_INTERVAL);
    load.packets <= 10 && load.bytes <= 210
  }

  lemma ArrivingPush(ts: seq<Timed>, t: Timed, u: Timed, begin: int, end: int)
    requires !u.step.Receive?
    ensures Arriving(ts + [t, u], begin, end) == Plus(Arriving(ts, begin, end), Arrives(t, begin, end))
  {
    assert (ts + [t, u])[..|ts| + 1] == ts + [t];
    assert (ts + [t])[..|ts|] == ts;
  }

  /** How many of the seconds 1 to `n` are in a stretch. */
  function Overlap(n: nat, begin: int, end: int): nat {
    var low, high := if begin < 1 then 1 else begin, if end <= n then end else n + 1;
    if low < high then high - low else 0
  }

  lemma OverlapNext(n: nat, begin: int, end: int)
    requires n > 0
    ensures Overlap(n, begin, end) == Overlap(n - 1, begin, end) + (if begin <= n < end then 1 else 0)
  {
  }

  lemma BeatingNext(id: u32, n: nat)
    ensures Beating(id, n + 1) == Beating(id, n) + [Beat(id, n + 1), Timed(Tick, n + 1)]
  {
  }

  lemma NothingArrives(id: u32, begin: int, end: int)
    ensures Arriving(Beating(id, 0), begin, end) == Load(0, 0)
  {
    assert Beating(id, 0)[..0] == [];
  }

  lemma {:induction false} ArrivingIs(id: u32, n: nat, begin: int, end: int)
    ensures Arriving(Beating(id, n), begin, end) == Load(Overlap(n, begin, end), 21 * Overlap(n, begin, end))
  {
    hide Arriving, Beating;
    if n == 0 {
      NothingArrives(id, begin, end);
    } else {
      ArrivingIs(id, n - 1, begin, end);
      BeatingNext(id, n - 1);
      OverlapNext(n, begin, end);
      ArrivingPush(Beating(id, n - 1), Beat(id, n), Timed(Tick, n), begin, end);
      hide Overlap;
    }
  }

  lemma BeatingIsCalm(id: u32, n: nat, x: int)
    ensures Calm(Beating(id, n), x)
  {
    hide Arriving, Beating;
    ArrivingIs(id, n, x, x + CONN_STATE_INTERVAL);
  }

  /** A connection that is alive, last heard of in second `beat`, with `n` packets. */
  predicate Alive(c: Conn, id: u32, beat: nat, since: nat, n: nat) {
    && c.state == Established && c.id == id && c.bind == 1 && c.clocks.beat == beat
    && c.traffic.since == since && c.traffic.packets == n && c.traffic.bytes == 21 * n
  }

  lemma BeatStep(c: Conn, id: u32, beat: nat, since: nat, n: nat)
    requires Alive(c, id, beat, since, n) && n < 5010
    ensures Alive(Next(c, Beat(id, n + 1)), id, n + 1, since, n + 1)
  {
    WrapSmall(n + 1);
    WrapSmall(21 * n + 21);
  }

  lemma TickStep(c: Conn, id: u32, since: nat, n: nat)
    requires Alive(c, id, n, since, n) && n < 5010
    requires n < since + CONN_STATE_INTERVAL || n <= MAX_CONN_RECV_NUM
    ensures Alive(Next(c, Timed(Tick, n)), id, n, if n < since + CONN_STATE_INTERVAL then since else n, n)
  {
  }

  lemma LastTick(c: Conn, id: u32)
    requires Alive(c, id, 5010, 5000, 5010)
    ensures Next(c, Timed(Tick, 5010)).state == Closed
    ensures Next(c, Timed(Tick, 5010)).reason == CLOSE_REASON_FLOW_CONTROL
  {
  }

  lemma RunPair(c: Conn, ts: seq<Timed>, t: Timed, u: Timed)
    ensures Run(c, ts + [t, u]) == Next(Next(Run(c, ts), t), u)
  {
    hide Next;
    assert (ts + [t, u])[..|ts| + 1] == ts + [t];
    assert (ts + [t])[..|ts|] == ts;
  }

  lemma AliveAtFirst(id: u32)
    ensures Alive(Run(Opened(id, 0), Beating(id, 0)), id, 0, 0, 0)
  {
    assert Beating(id, 0)[..0] == [];
  }

  lemma {:induction false} StaysAlive(id: u32, n: nat)
    requires n < 5010
    ensures Alive(Run(Opened(id, 0), Beating(id, n)), id, n, n - n % CONN_STATE_INTERVAL, n)
  {
    hide Next, Run, Alive, Beating, Opened, Beat;
    if n == 0 {
      AliveAtFirst(id);
    } else {
      var m := n - 1;
      var since := m - m % CONN_STATE_INTERVAL;
      StaysAlive(id, m);
      BeatingNext(id, m);
      RunPair(Opened(id, 0), Beating(id, m), Beat(id, n), Timed(Tick, n));
      var c := Run(Opened(id, 0), Beating(id, m));
      BeatStep(c, id, m, since, m);
      TickStep(Next(c, Beat(id, n)), id, since, n);
    }
  }

  /** Such a peer is cut off after 5010 seconds, although no ten seconds ever saw more
      than ten packets of 210 bytes in all. */
  lemma SlowPeerIsCutOff(id: u32)
    ensures var c := Run(Opened(id, 0), Beating(id, 5010)); c.state == Closed && c.reason == CLOSE_REASON_FLOW_CONTROL
    ensures forall x: int :: Calm(Beating(id, 5010), x)
  {
    hide Next, Run, Alive, Beating, Opened, Beat, Calm;
    StaysAlive(id, 5009);
    BeatingNext(id, 5009);
    RunPair(Opened(id, 0), Beating(id, 5009), Beat(id, 5010), Timed(Tick, 5010));
    var c := Run(Opened(id, 0), Beating(id, 5009));
    BeatStep(c, id, 5009, 5000, 5009);
    LastTick(Next(c, Beat(id, 5010)), id);
    forall x: int ensures Calm(Beating(id, 5010), x) {
      BeatingIsCalm(id, 5010, x);
    }
  }
}
