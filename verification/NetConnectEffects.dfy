/**
 What one step does to a connection: its answers, its notifications, its clocks and
 its state, each by guards on the state and the step.
 */
module NetConnectEffects {
  import opened U32
  import opened NetConnectModel
  import opened NetConnectRuns

  /** Packets reach a connection that is neither lost nor closed. */
  predicate Live(c: Conn) {
    c.state != Disconnected && c.state != Closed
  }

  predicate Got(t: Timed, p: Packet) {
    t.step.Receive? && t.step.p == p
  }

  /** Reliable data that the engine took and broke on. */
  predicate Broke(t: Timed) {
    Got(t, Reliable(true, true))
  }

  predicate Silence(c: Conn, t: Timed) {
    t.step.Tick? && c.state == Established && t.at >= c.clocks.beat + HEARTBEAT_TIMEOUT
  }

  // ------------------------------------------------------------------- answers

  predicate Pings(c: Conn, t: Timed) {
    Live(c) && Got(t, HeartBeat(c.id))
  }

  predicate ResetsLost(c: Conn, t: Timed) {
    (t.step.Receive? && c.state == Disconnected) || (Live(c) && Broke(t))
  }

  predicate ResetsClosed(c: Conn, t: Timed) {
    t.step.Receive? && c.state == Closed
  }

  predicate AnswersFin(c: Conn, t: Timed) {
    (c.state == FinWait2 || c.state == TimeWait) && Got(t, ClientFin(c.id))
  }

  /** All that was sent has been acknowledged, and the last FIN is 200 ms old. */
  predicate SendsFin(c: Conn, t: Timed) {
    && c.state == FinWait1 && t.step.ProcCall? && t.step.waiting == 0
    && c.clocks.finSent + FIN_RESEND_MS < t.step.nowMs
  }

  /** The peer is answered exactly once in these five cases, and never otherwise. */
  lemma RepliesExactly(c: Conn, t: Timed)
    ensures Pings(c, t) ==> Next(c, t).replies == c.replies + [HeartBeatAck]
    ensures ResetsLost(c, t) ==> Next(c, t).replies == c.replies + [RstDisconnected]
    ensures ResetsClosed(c, t) ==> Next(c, t).replies == c.replies + [RstClosed]
    ensures AnswersFin(c, t) ==> Next(c, t).replies == c.replies + [FinAck(c.reason)]
    ensures SendsFin(c, t) ==> Next(c, t).replies == c.replies + [Fin(c.reason)]
    ensures Next(c, t).replies != c.replies ==>
              Pings(c, t) || ResetsLost(c, t) || ResetsClosed(c, t) || AnswersFin(c, t) || SendsFin(c, t)
  {
    hide Wrap, Tick1S, HandleNetMsg;
    match t.step
    case Tick => TickSaysNothing(c, t.at);
    case Receive(p, size) => PacketReplies(c, p, size, t.at);
    case _ =>
  }

  /** Likewise, for packets. */
  lemma PacketReplies(c: Conn, p: Packet, size: nat, now: int)
    ensures HandleNetMsg(c, p, size, now).replies == c.replies +
              if c.state == Disconnected then [RstDisconnected]
              else if c.state == Closed then [RstClosed]
              else if p == Reliable(true, true) then [RstDisconnected]
              else if p == HeartBeat(c.id) then [HeartBeatAck]
              else if p == ClientFin(c.id) && (c.state == FinWait2 || c.state == TimeWait) then [FinAck(c.reason)]
              else []
  {
    hide Wrap;
  }

  lemma TickSaysNothing(c: Conn, now: int)
    ensures Tick1S(c, now).replies == c.replies
  {
    assert TickState(c, now).replies == c.replies;
    assert TickBind(TickState(c, now), now).replies == c.replies;
  }

  /** A packet that is refused changes nothing but the traffic, unless it broke the
      engine. */
  lemma RefusedHasNoEffect(c: Conn, p: Packet, size: nat, now: int)
    requires !Accepts(c, p) && p != Reliable(true, true)
    ensures HandleNetMsg(c, p, size, now) == c.(traffic := Counted(c, size).traffic)
  {
  }

  // ------------------------------------------------------------- notifications

  function When(guard: bool, e: Event): seq<Event> {
    if guard then [e] else []
  }

  predicate TickEnds(c: Conn, now: int) {
    c.state != Closed && (Expired(c, now) || Unbound(c, now) || Flooded(c, now))
  }

  /** The reason for which a tick at `now` closes a connection: the first that applies. */
  function TickReason(c: Conn, now: int): int {
    if Expired(c, now) then
      match c.state
      case Disconnected => CLOSE_REASON_DISCONNECT_TIMEOUT
      case TimeWait => CLOSE_REASON_NONE
      case _ => CLOSE_REASON_FIN_TIMEOUT
    else if Unbound(c, now) then CLOSE_REASON_BIND_TIMEOUT
    else CLOSE_REASON_FLOW_CONTROL
  }

  /** What the state's own timer tells: a loss and the network data of a bound connection. */
  function TimerEvents(c: Conn, now: int): seq<Event> {
    When(c.state == Established && now >= c.clocks.beat + HEARTBEAT_TIMEOUT, Lost(DISCONNECT_REASON_HEARTBEAT))
    + When(c.state == Established && c.bind != 0 && now >= c.clocks.synced + NETWORK_SYN_INTERVAL, Network)
  }

  /** Loss, network data and the close for a reason, in this order. */
  lemma TickTells(c: Conn, now: int)
    ensures var d := Tick1S(c, now);
            && d.events == c.events + TimerEvents(c, now)
                 + When(TickEnds(c, now) && TickReason(c, now) != CLOSE_REASON_NONE, Close(TickReason(c, now)))
            && d.reason == (if TickEnds(c, now) then TickReason(c, now) else c.reason)
            && (d.state == Closed <==> c.state == Closed || TickEnds(c, now))
  {
    hide TickState, TickBind, TickTraffic;
    StateTells(c, now);
    ChecksTell(TickState(c, now), now);
  }

  lemma StateTells(c: Conn, now: int)
    ensures var d := TickState(c, now);
            && d.bind == c.bind && d.traffic == c.traffic && d.clocks.created == c.clocks.created
            && (d.state == Closed <==> c.state == Closed || Expired(c, now))
            && d.reason == (if Expired(c, now) then TickReason(c, now) else c.reason)
            && d.events == c.events + TimerEvents(c, now)
                 + When(Expired(c, now) && c.state != TimeWait, Close(TickReason(c, now)))
  {
  }

  /** The bind and the traffic check. */
  lemma ChecksTell(c: Conn, now: int)
    ensures var d := TickTraffic(TickBind(c, now), now);
            var why := if Unbound(c, now) then CLOSE_REASON_BIND_TIMEOUT else CLOSE_REASON_FLOW_CONTROL;
            var ends := c.state != Closed && (Unbound(c, now) || Flooded(c, now));
            && d.events == c.events + When(ends, Close(why))
            && d.reason == (if ends then why else c.reason)
            && (d.state == Closed <==> c.state == Closed || ends)
  {
  }

  lemma PacketTells(c: Conn, p: Packet, size: nat, now: int)
    ensures HandleNetMsg(c, p, size, now).events ==
              c.events + When(c.state == Established && p == Reliable(true, true), Lost(DISCONNECT_REASON_KCP_DEAD_LINK))
              + When(Live(c) && p == ClientClose(c.id), Close(CLOSE_REASON_CLIENT_FIN))
              + When(c.state == FinWait2 && p == ClientFin(c.id), Close(c.reason))
    ensures HandleNetMsg(c, p, size, now).reason ==
              if Live(c) && p == ClientClose(c.id) then CLOSE_REASON_CLIENT_FIN else c.reason
  {
    hide Wrap;
  }

  /** What a call that is not a tick tells. */
  function CallEvents(c: Conn, s: Step): seq<Event> {
    match s
    case FinCall(why) => When(c.state == Disconnected && why != CLOSE_REASON_NONE, Close(why))
    case BindCall(data) => When(c.bind == 0 && data != 0, Bound(data))
    case ReconnectCall(engine) => When(engine && (c.state == Established || c.state == Disconnected), Reconnected)
    case ProcCall(dead, _, _) => When(dead && c.state == Established, Lost(DISCONNECT_REASON_KCP_DEAD_LINK))
    case _ => []
  }

  lemma CallTells(c: Conn, t: Timed)
    requires !t.step.Tick? && !t.step.Receive?
    ensures Next(c, t).events == c.events + CallEvents(c, t.step)
    ensures Next(c, t).reason ==
              if t.step.FinCall? && (c.state == Disconnected || c.state == Established) then t.step.why else c.reason
  {
  }

  // -------------------------------------------------------- state and clocks

  /** The state after any step but a tick, for which see `TickOutcome`. */
  lemma StateExactly(c: Conn, t: Timed)
    requires !t.step.Tick?
    ensures Next(c, t).state ==
              if Live(c) && Got(t, ClientClose(c.id)) then Closed
              else if c.state == Disconnected && t.step.FinCall? then Closed
              else if c.state == Established && (Broke(t) || (t.step.ProcCall? && t.step.dead)) then Disconnected
              else if c.state == Disconnected && t.step == ReconnectCall(true) then Established
              else if c.state == Established && t.step.FinCall? then FinWait1
              else if c.state == FinWait1 && Got(t, ClientFinAck) then FinWait2
              else if c.state == FinWait2 && Got(t, ClientFin(c.id)) then TimeWait
              else c.state
  {
    hide Wrap;
  }

  /** When each clock is set; each is set to the time of the step. */
  function SetClocks(c: Conn, t: Timed, closes: bool): Clocks {
    var k, s := c.clocks, t.step;
    Clocks(
      k.created,
      if Pings(c, t) || (s == ReconnectCall(true) && (c.state == Established || c.state == Disconnected)) then t.at else k.beat,
      if c.state == Established && (Silence(c, t) || Broke(t) || (s.ProcCall? && s.dead)) then t.at else k.lost,
      if c.state == Established && s.FinCall? then t.at else k.finBegin,
      if SendsFin(c, t) then s.nowMs else k.finSent,
      if c.state == FinWait2 && Got(t, ClientFin(c.id)) then t.at else k.timeWait,
      if closes then t.at else k.closed,
      if s.Tick? && c.state == Established && c.bind != 0 && t.at >= k.synced + NETWORK_SYN_INTERVAL then t.at else k.synced)
  }

  lemma ClocksExactly(c: Conn, t: Timed)
    ensures Next(c, t).clocks == SetClocks(c, t, c.state != Closed && Next(c, t).state == Closed)
    ensures Next(c, t).id == c.id
    ensures Next(c, t).bind == if c.bind == 0 && t.step.BindCall? then t.step.data else c.bind
  {
    hide Wrap;
    if t.step.Tick? {
      TickClocks(c, t);
    }
  }

  lemma TickClocks(c: Conn, t: Timed)
    requires t.step.Tick?
    ensures var d := Tick1S(c, t.at);
            d.id == c.id && d.bind == c.bind && d.clocks == SetClocks(c, t, c.state != Closed && d.state == Closed)
  {
    var d := TickState(c, t.at);
    assert d.bind == c.bind && d.id == c.id && d.traffic == c.traffic && d.clocks.created == c.clocks.created;
  }

  // ------------------------------------------------------------ time allowed

  /** What ends a connection before the deadline of its state. */
  predicate CutsShort(c: Conn, t: Timed) {
    || (t.step.Tick? && (Unbound(c, t.at) || Flooded(c, t.at)))
    || (Live(c) && Got(t, ClientClose(c.id)))
    || (c.state == Disconnected && t.step.FinCall?)
  }

  ghost predicate CutShort(c: Conn, ts: seq<Timed>) {
    exists i :: 0 <= i < |ts| && CutsShort(Run(c, ts[..i]), ts[i])
  }

  ghost predicate Within(ts: seq<Timed>, begin: int, seconds: int) {
    forall i :: 0 <= i < |ts| ==> begin <= ts[i].at < begin + seconds
  }

  lemma CutShortLater(c: Conn, ts: seq<Timed>)
    requires ts != []
    ensures var before := ts[..|ts| - 1];
            CutShort(c, ts) <==> CutShort(c, before) || CutsShort(Run(c, before), ts[|ts| - 1])
  {
    hide CutsShort, Run;
    var before := ts[..|ts| - 1];
    forall i | 0 <= i <= |before| ensures before[..i] == ts[..i] {
    }
    if i :| 0 <= i < |before| && CutsShort(Run(c, before[..i]), before[i]) {
      assert CutsShort(Run(c, ts[..i]), ts[i]);
    }
    if i :| 0 <= i < |ts| && CutsShort(Run(c, ts[..i]), ts[i]) {
      assert i < |before| ==> CutsShort(Run(c, before[..i]), before[i]);
    }
  }

  /** A connection lost, closing or waiting since `begin`. */
  predicate LostSince(c: Conn, begin: int) {
    c.state == Disconnected && c.clocks.lost == begin
  }

  predicate ClosingSince(c: Conn, begin: int) {
    || ((c.state == FinWait1 || c.state == FinWait2) && c.clocks.finBegin == begin)
    || (c.state == TimeWait && c.clocks.timeWait >= begin)
  }

  predicate WaitingSince(c: Conn, begin: int) {
    c.state == TimeWait && c.clocks.timeWait == begin
  }

  lemma LostStep(c: Conn, t: Timed, begin: int)
    requires LostSince(c, begin) && t.step != ReconnectCall(true) && t.at < begin + RECONNECT_TIMEOUT
    ensures if CutsShort(c, t) then Next(c, t).state == Closed else LostSince(Next(c, t), begin)
  {
    OneStep(c, t);
  }

  lemma ClosingStep(c: Conn, t: Timed, begin: int)
    requires ClosingSince(c, begin) && begin <= t.at < begin + FIN_WAIT_SECONDS
    ensures if CutsShort(c, t) then Next(c, t).state == Closed else ClosingSince(Next(c, t), begin)
  {
    OneStep(c, t);
  }

  lemma WaitingUntil(c: Conn, t: Timed, begin: int)
    requires WaitingSince(c, begin) && t.at < begin + TIME_WAIT_SECONDS
    ensures if CutsShort(c, t) then Next(c, t).state == Closed else WaitingSince(Next(c, t), begin)
  {
    OneStep(c, t);
  }

  /** State and clocks after any step. */
  lemma OneStep(c: Conn, t: Timed)
    ensures t.step.Tick? ==> TickResult(c, Next(c, t).state, t.at)
    ensures Next(c, t).clocks == SetClocks(c, t, c.state != Closed && Next(c, t).state == Closed)
    ensures Next(c, t).id == c.id
  {
    hide TickResult, SetClocks;
    ClocksExactly(c, t);
    if t.step.Tick? {
      TickOutcome(c, t.at);
    }
  }

  lemma {:induction false} LostRun(c: Conn, ts: seq<Timed>, begin: int)
    requires LostSince(c, begin) && Within(ts, begin, RECONNECT_TIMEOUT)
    requires forall i :: 0 <= i < |ts| ==> ts[i].step != ReconnectCall(true)
    ensures if CutShort(c, ts) then Run(c, ts).state == Closed else LostSince(Run(c, ts), begin)
  {
    hide Next, CutsShort, CutShort, LostSince;
    if ts == [] {
      NotYetCutShort(c);
    } else {
      var before, t := ts[..|ts| - 1], ts[|ts| - 1];
      LostRun(c, before, begin);
      CutShortLater(c, ts);
      var d := Run(c, before);
      if CutShort(c, before) {
        ClosedStep(d, t);
      } else {
        LostStep(d, t, begin);
      }
    }
  }

  lemma NotYetCutShort(c: Conn)
    ensures !CutShort(c, [])
  {
  }

  /** A lost connection has 240 seconds in which to come back. In that time it is closed
      exactly if it is ended by the business or found unbound or over the traffic limit. */
  lemma {:induction false} TimeToReconnect(c: Conn, why: int, begin: int, ts: seq<Timed>)
    requires c.state == Established && Within(ts, begin, RECONNECT_TIMEOUT)
    requires forall i :: 0 <= i < |ts| ==> ts[i].step != ReconnectCall(true)
    ensures var start := DisConnect(c, why, begin);
            var d := Run(start, ts);
            if CutShort(start, ts) then d.state == Closed
            else
              && d.state == Disconnected
              && (forall now :: Next(d, Timed(ReconnectCall(true), now)).state == Established)
              && (forall now :: now >= begin + 240 ==> Next(d, Timed(Tick, now)).state == Closed)
  {
    hide Run, CutShort, Next;
    var start := DisConnect(c, why, begin);
    LostRun(start, ts, begin);
    var d := Run(start, ts);
    if !CutShort(start, ts) {
      forall now ensures Next(d, Timed(ReconnectCall(true), now)).state == Established {
        StateExactly(d, Timed(ReconnectCall(true), now));
      }
      forall now | now >= begin + 240 ensures Next(d, Timed(Tick, now)).state == Closed {
        OneStep(d, Timed(Tick, now));
      }
    }
  }

  lemma {:induction false} ClosingRun(c: Conn, ts: seq<Timed>, begin: int)
    requires ClosingSince(c, begin) && Within(ts, begin, FIN_WAIT_SECONDS)
    ensures if CutShort(c, ts) then Run(c, ts).state == Closed else ClosingSince(Run(c, ts), begin)
  {
    hide Next, CutsShort, CutShort, ClosingSince;
    if ts == [] {
      NotYetCutShort(c);
    } else {
      var before, t := ts[..|ts| - 1], ts[|ts| - 1];
      ClosingRun(c, before, begin);
      CutShortLater(c, ts);
      var d := Run(c, before);
      if CutShort(c, before) {
        ClosedStep(d, t);
      } else {
        ClosingStep(d, t, begin);
      }
    }
  }

  /** An active close leaves the peer three seconds for its FIN and the ack of ours: in
      that time it is closed exactly if it is cut short. Without a FIN the first tick
      after it closes. */
  lemma {:induction false} TimeToFinish(c: Conn, why: int, begin: int, ts: seq<Timed>)
    requires c.state == Established && Within(ts, begin, FIN_WAIT_SECONDS)
    ensures var start := FinConnect(c, why, begin);
            var d := Run(start, ts);
            if CutShort(start, ts) then d.state == Closed
            else
              && (d.state == FinWait1 || d.state == FinWait2 || d.state == TimeWait)
              && (d.state != TimeWait ==> forall now :: now >= begin + 3 ==> Next(d, Timed(Tick, now)).state == Closed)
  {
    hide Run, CutShort, Next;
    var start := FinConnect(c, why, begin);
    ClosingRun(start, ts, begin);
    var d := Run(start, ts);
    if !CutShort(start, ts) && d.state != TimeWait {
      forall now | now >= begin + 3 ensures Next(d, Timed(Tick, now)).state == Closed {
        OneStep(d, Timed(Tick, now));
      }
    }
  }

  lemma {:induction false} WaitingFor(c: Conn, ts: seq<Timed>, begin: int)
    requires WaitingSince(c, begin) && Within(ts, begin, TIME_WAIT_SECONDS)
    ensures if CutShort(c, ts) then Run(c, ts).state == Closed else WaitingSince(Run(c, ts), begin)
  {
    hide Next, CutsShort, CutShort, WaitingSince;
    if ts == [] {
      NotYetCutShort(c);
    } else {
      var before, t := ts[..|ts| - 1], ts[|ts| - 1];
      WaitingFor(c, before, begin);
      CutShortLater(c, ts);
      var d := Run(c, before);
      if CutShort(c, before) {
        ClosedStep(d, t);
      } else {
        WaitingUntil(d, t, begin);
      }
    }
  }

  /** From the peer's FIN on the connection waits six seconds, so that a repeated FIN is
      answered again, and closes at the first tick after them. */
  lemma {:induction false} TimeToRepeat(c: Conn, size: nat, begin: int, ts: seq<Timed>)
    requires c.state == FinWait2 && Within(ts, begin, TIME_WAIT_SECONDS)
    ensures var start := Next(c, Timed(Receive(ClientFin(c.id), size), begin));
            var d := Run(start, ts);
            if CutShort(start, ts) then d.state == Closed
            else
              && d.state == TimeWait
              && (forall now :: now >= begin + 6 ==> Next(d, Timed(Tick, now)).state == Closed)
  {
    hide Run, CutShort, Next;
    var t := Timed(Receive(ClientFin(c.id), size), begin);
    var start := Next(c, t);
    OneStep(c, t);
    StateExactly(c, t);
    WaitingFor(start, ts, begin);
    var d := Run(start, ts);
    if !CutShort(start, ts) {
      forall now | now >= begin + 6 ensures Next(d, Timed(Tick, now)).state == Closed {
        OneStep(d, Timed(Tick, now));
      }
    }
  }

  // ------------------------------------------------------- bound and in bounds

  /** Bound, and not over the traffic limit. */
  predicate Sound(c: Conn) {
    c.bind != 0 && c.traffic.packets <= MAX_CONN_RECV_NUM && c.traffic.bytes <= MAX_CONN_RECV_SIZE
  }

  lemma SoundStep(c: Conn, t: Timed)
    requires c.state == Disconnected && Sound(c) && !t.step.FinCall?
    ensures !CutsShort(c, t) && Sound(Next(c, t))
  {
    ClocksExactly(c, t);
    if t.step.Tick? {
      TickKeepsTraffic(c, t.at);
    }
  }

  lemma TickKeepsTraffic(c: Conn, now: int)
    ensures Tick1S(c, now).traffic.packets == c.traffic.packets && Tick1S(c, now).traffic.bytes == c.traffic.bytes
  {
    assert TickState(c, now).traffic == c.traffic;
    assert TickBind(TickState(c, now), now).traffic == c.traffic;
  }

  lemma {:induction false} SoundRun(c: Conn, ts: seq<Timed>, begin: int)
    requires LostSince(c, begin) && Sound(c) && Within(ts, begin, RECONNECT_TIMEOUT)
    requires forall i :: 0 <= i < |ts| ==> ts[i].step != ReconnectCall(true) && !ts[i].step.FinCall?
    ensures !CutShort(c, ts) && LostSince(Run(c, ts), begin) && Sound(Run(c, ts))
  {
    hide Next, CutsShort, CutShort, Sound;
    if ts == [] {
      NotYetCutShort(c);
    } else {
      var before, t := ts[..|ts| - 1], ts[|ts| - 1];
      SoundRun(c, before, begin);
      CutShortLater(c, ts);
      SoundStep(Run(c, before), t);
      LostRun(c, ts, begin);
    }
  }

  /** So a bound connection within its limits is never closed before 240 seconds are over,
      whatever ticks, packets and calls but `FinConnect` come: packets no longer count. */
  lemma {:induction false} NeverGivenUpEarly(c: Conn, why: int, begin: int, ts: seq<Timed>)
    requires c.state == Established && Sound(c) && Within(ts, begin, RECONNECT_TIMEOUT)
    requires forall i :: 0 <= i < |ts| ==> ts[i].step != ReconnectCall(true) && !ts[i].step.FinCall?
    ensures Run(DisConnect(c, why, begin), ts).state == Disconnected
  {
    hide Run, CutShort, Next;
    SoundRun(DisConnect(c, why, begin), ts, begin);
  }

  // ------------------------------------------------------------------ heartbeat

  /** What takes an established connection out of that state, other than silence. */
  predicate Leaves(c: Conn, t: Timed) {
    || CutsShort(c, t) || t.step.FinCall? || Broke(t)
    || (t.step.ProcCall? && t.step.dead)
  }

  predicate HeardSince(c: Conn, begin: int) {
    c.state == Established && c.clocks.beat >= begin
  }

  lemma HeardStep(c: Conn, t: Timed, begin: int)
    requires HeardSince(c, begin) && begin <= t.at < begin + HEARTBEAT_TIMEOUT && !Leaves(c, t)
    ensures HeardSince(Next(c, t), begin)
    ensures Quiet(c, t) ==> Next(c, t).clocks.beat == c.clocks.beat
  {
    OneStep(c, t);
    if !t.step.Tick? {
      StateExactly(c, t);
    }
  }

  lemma {:induction false} HeardRun(c: Conn, ts: seq<Timed>, begin: int)
    requires HeardSince(c, begin) && Within(ts, begin, HEARTBEAT_TIMEOUT)
    requires forall i :: 0 <= i < |ts| ==> !Leaves(Run(c, ts[..i]), ts[i])
    ensures HeardSince(Run(c, ts), begin) && Run(c, ts).id == c.id
    ensures (forall i :: 0 <= i < |ts| ==> Quiet(c, ts[i])) ==> Run(c, ts).clocks.beat == c.clocks.beat
  {
    hide Next, Leaves, HeardSince;
    if ts != [] {
      var before, t := ts[..|ts| - 1], ts[|ts| - 1];
      forall i | 0 <= i <= |before| ensures before[..i] == ts[..i] {
      }
      HeardRun(c, before, begin);
      HeardStep(Run(c, before), t, begin);
      OneStep(Run(c, before), t);
    }
  }

  /** A heartbeat keeps the connection for 30 seconds, and with no other it is lost at the
      first tick after them. */
  lemma {:induction false} HeartBeatLasts(c: Conn, size: nat, begin: int, ts: seq<Timed>)
    requires c.state == Established && Within(ts, begin, HEARTBEAT_TIMEOUT)
    requires var start := Next(c, Timed(Receive(HeartBeat(c.id), size), begin));
             forall i :: 0 <= i < |ts| ==> !Leaves(Run(start, ts[..i]), ts[i])
    ensures var d := Run(Next(c, Timed(Receive(HeartBeat(c.id), size), begin)), ts);
            && d.state == Established
            && ((forall i :: 0 <= i < |ts| ==> Quiet(c, ts[i])) ==>
                  forall now :: now >= begin + 30 && !CutsShort(d, Timed(Tick, now)) ==>
                    Next(d, Timed(Tick, now)).state == Disconnected)
  {
    hide Run, Next, Leaves;
    var t := Timed(Receive(HeartBeat(c.id), size), begin);
    var start := Next(c, t);
    OneStep(c, t);
    StateExactly(c, t);
    HeardRun(start, ts, begin);
    var d := Run(start, ts);
    if forall i :: 0 <= i < |ts| ==> Quiet(c, ts[i]) {
      forall now | now >= begin + 30 && !CutsShort(d, Timed(Tick, now))
        ensures Next(d, Timed(Tick, now)).state == Disconnected
      {
        OneStep(d, Timed(Tick, now));
      }
    }
  }
}
