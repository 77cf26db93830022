/** What every run of a connection keeps. */
module NetConnectRuns {
  import opened U32
  import opened NetConnectModel

  /** One thing that happens to a connection: a timer, a packet or a call. */
  datatype Step =
    | Tick
    | Receive(p: Packet, size: nat)
    | FinCall(why: int)
    | BindCall(data: nat)
    | ReconnectCall(engine: bool)
    | ProcCall(dead: bool, waiting: nat, nowMs: int)

  datatype Timed = Timed(step: Step, at: int)

  function Next(c: Conn, t: Timed): Conn {
    match t.step
    case Tick => Tick1S(c, t.at)
    case Receive(p, size) => HandleNetMsg(c, p, size, t.at)
    case FinCall(why) => FinConnect(c, why, t.at)
    case BindCall(data) => BindConnect(c, data)
    case ReconnectCall(engine) => Reconnect(c, engine, t.at)
    case ProcCall(dead, waiting, nowMs) => Proc(c, dead, waiting, nowMs, t.at)
  }

  function Run(c: Conn, ts: seq<Timed>): Conn {
    if ts == [] then c else Next(Run(c, ts[..|ts| - 1]), ts[|ts| - 1])
  }

  /** The clock never goes back. */
  ghost predicate Ordered(ts: seq<Timed>) {
    forall i, j :: 0 <= i < j < |ts| ==> ts[i].at <= ts[j].at
  }

  lemma {:induction false} RunSplit(c: Conn, ts: seq<Timed>, k: nat)
    requires k <= |ts|
    ensures Run(c, ts) == Run(Run(c, ts[..k]), ts[k..])
  {
    if k == |ts| {
      assert ts[..k] == ts && ts[k..] == [];
    } else {
      RunSplit(c, ts[..|ts| - 1], k);
      assert ts[..|ts| - 1][..k] == ts[..k];
      assert ts[k..][..|ts[k..]| - 1] == ts[..|ts| - 1][k..];
    }
  }

  lemma RunStep(c: Conn, ts: seq<Timed>, i: nat)
    requires i < |ts|
    ensures Run(c, ts[..i + 1]) == Next(Run(c, ts[..i]), ts[i])
  {
    assert ts[..i + 1][..i] == ts[..i];
  }

  // ------------------------------------------------------------- transitions

  /** The state changes there are. */
  predicate Allowed(s: State, t: State) {
    || s == t
    || (s == Established && (t == Disconnected || t == FinWait1 || t == Closed))
    || (s == Disconnected && (t == Established || t == Closed))
    || (s == FinWait1 && (t == FinWait2 || t == Closed))
    || (s == FinWait2 && (t == TimeWait || t == Closed))
    || (s == TimeWait && t == Closed)
  }

  /** In particular TIME_WAIT is entered from FIN_WAIT2 alone, that from FIN_WAIT1
      alone, and nothing leaves CLOSE. */
  lemma StepsAreAllowed(c: Conn, t: Timed)
    ensures Allowed(c.state, Next(c, t).state)
  {
  }

  /** CLOSE is absorbing, and a closed connection tells the business thread nothing
      unless it is still being bound. */
  lemma {:induction false} ClosedForever(c: Conn, ts: seq<Timed>)
    requires c.state == Closed
    ensures Run(c, ts).state == Closed && Run(c, ts).reason == c.reason
    ensures Closes(Run(c, ts).events) == Closes(c.events)
  {
    if ts != [] {
      ClosedForever(c, ts[..|ts| - 1]);
      ClosedStep(Run(c, ts[..|ts| - 1]), ts[|ts| - 1]);
    }
  }

  lemma ClosedStep(c: Conn, t: Timed)
    requires c.state == Closed
    ensures Next(c, t).state == Closed && Next(c, t).reason == c.reason
    ensures Closes(Next(c, t).events) == Closes(c.events)
  {
    if t.step.BindCall? {
      ClosesPush(c.events, Bound(t.step.data));
    }
  }

  // ---------------------------------------------------------------- deadlines

  ghost predicate TickWithin(ts: seq<Timed>, from: int, d: int) {
    exists i :: 0 <= i < |ts| && ts[i].step.Tick? && from <= ts[i].at <= from + d
  }

  /** Between `from` and `to` there is a tick in every stretch of `d` seconds. */
  ghost predicate TicksEvery(ts: seq<Timed>, from: int, to: int, d: int) {
    forall x :: from <= x && x + d <= to ==> TickWithin(ts, x, d)
  }

  /** An active close that began at `begin`, seen at a time up to `now`. */
  ghost predicate Finishing(c: Conn, begin: int, now: int) {
    || ((c.state == FinWait1 || c.state == FinWait2) && c.clocks.finBegin == begin)
    || (c.state == TimeWait && c.clocks.timeWait <= now)
    || c.state == Closed
  }

  lemma FinishingStep(c: Conn, t: Timed, begin: int, now: int)
    requires Finishing(c, begin, now) && t.at <= now
    ensures Finishing(Next(c, t), begin, now)
    ensures t.step.Tick? && t.at >= begin + FIN_WAIT_SECONDS ==> Next(c, t).state == TimeWait || Next(c, t).state == Closed
  {
  }

  lemma {:induction false} FinishingRun(c: Conn, ts: seq<Timed>, begin: int, now: int)
    requires Finishing(c, begin, now) && forall i :: 0 <= i < |ts| ==> ts[i].at <= now
    ensures Finishing(Run(c, ts), begin, now)
  {
    if ts != [] {
      FinishingRun(c, ts[..|ts| - 1], begin, now);
      FinishingStep(Run(c, ts[..|ts| - 1]), ts[|ts| - 1], begin, now);
    }
  }

  /** A connection waiting in TIME_WAIT stays there with its deadline, until closed. */
  ghost predicate Waiting(c: Conn, since: int) {
    (c.state == TimeWait && c.clocks.timeWait <= since) || c.state == Closed
  }

  lemma WaitingStep(c: Conn, t: Timed, since: int)
    requires Waiting(c, since)
    ensures Waiting(Next(c, t), since)
    ensures t.step.Tick? && t.at >= since + TIME_WAIT_SECONDS ==> Next(c, t).state == Closed
  {
  }

  lemma {:induction false} WaitingRun(c: Conn, ts: seq<Timed>, since: int)
    requires Waiting(c, since)
    ensures Waiting(Run(c, ts), since)
    ensures (exists i :: 0 <= i < |ts| && ts[i].step.Tick? && ts[i].at >= since + TIME_WAIT_SECONDS) ==> Run(c, ts).state == Closed
  {
    if ts != [] {
      var before := ts[..|ts| - 1];
      WaitingRun(c, before, since);
      WaitingStep(Run(c, before), ts[|ts| - 1], since);
      if i :| 0 <= i < |ts| && ts[i].step.Tick? && ts[i].at >= since + TIME_WAIT_SECONDS {
        if i < |before| {
          assert before[i] == ts[i];
          ClosedStep(Run(c, before), ts[|ts| - 1]);
        }
      }
    }
  }

  /** With a tick at least every `d` seconds, an active close that began at `begin`
      has ended by `begin + 9 + 2 * d`, whatever the peer sends or withholds. */
  lemma FinDeadline(c: Conn, ts: seq<Timed>, begin: int, end: int, d: int)
    requires c.state == FinWait1 && c.clocks.finBegin == begin && d >= 0
    requires Ordered(ts) && TicksEvery(ts, begin, end, d)
    requires end >= begin + FIN_WAIT_SECONDS + TIME_WAIT_SECONDS + 2 * d
    ensures Run(c, ts).state == Closed
  {
    hide Next, Run;
    var since := begin + FIN_WAIT_SECONDS + d;
    assert TickWithin(ts, begin + FIN_WAIT_SECONDS, d);
    var k :| 0 <= k < |ts| && ts[k].step.Tick? && begin + FIN_WAIT_SECONDS <= ts[k].at <= since;
    assert TickWithin(ts, since + TIME_WAIT_SECONDS, d);
    var m :| 0 <= m < |ts| && ts[m].step.Tick? && ts[m].at >= since + TIME_WAIT_SECONDS;
    assert k < m;
    FinishingRun(c, ts[..k], begin, since);
    FinishingStep(Run(c, ts[..k]), ts[k], begin, since);
    RunStep(c, ts, k);
    assert ts[k + 1..][m - k - 1] == ts[m];
    WaitingRun(Run(c, ts[..k + 1]), ts[k + 1..], since);
    RunSplit(c, ts, k + 1);
  }

  /** A deadline of the present state has passed. */
  predicate Expired(c: Conn, now: int) {
    || (c.state == Disconnected && now >= c.clocks.lost + RECONNECT_TIMEOUT)
    || ((c.state == FinWait1 || c.state == FinWait2) && now >= c.clocks.finBegin + FIN_WAIT_SECONDS)
    || (c.state == TimeWait && now >= c.clocks.timeWait + TIME_WAIT_SECONDS)
  }

  predicate Unbound(c: Conn, now: int) {
    c.bind == 0 && now >= c.clocks.created + BIND_TIMEOUT
  }

  predicate Flooded(c: Conn, now: int) {
    && now >= c.traffic.since + CONN_STATE_INTERVAL
    && (c.traffic.packets > MAX_CONN_RECV_NUM || c.traffic.bytes > MAX_CONN_RECV_SIZE)
  }

  /** The state `d` after a tick: closed exactly for one of three causes, disconnected
      exactly when the heartbeat is 30 seconds old (or it already was), and
      otherwise as before. */
  predicate TickResult(c: Conn, d: State, now: int) {
    var closing := c.state == Closed || Expired(c, now) || Unbound(c, now) || Flooded(c, now);
    && (d == Closed <==> closing)
    && (d == Disconnected <==>
          !closing && (c.state == Disconnected || (c.state == Established && now >= c.clocks.beat + HEARTBEAT_TIMEOUT)))
    && (d != Closed && d != Disconnected ==> d == c.state)
  }

  /** The three checks do not disturb each other. */
  lemma TickOutcome(c: Conn, now: int)
    ensures TickResult(c, Tick1S(c, now).state, now)
  {
    var d := TickState(c, now);
    assert d.bind == c.bind && d.traffic == c.traffic && d.clocks.created == c.clocks.created;
    assert TickBind(d, now).traffic == c.traffic;
  }

  /** Neither a heartbeat nor a reconnect. */
  predicate Quiet(c: Conn, t: Timed) {
    && (t.step.Receive? ==> t.step.p != HeartBeat(c.id))
    && (t.step.ReconnectCall? ==> !t.step.engine)
  }

  /** A connection last heard of at `beat`, on its way out. `early` bounds when it
      was lost or an active close began, `late` when TIME_WAIT was entered. */
  ghost predicate Fading(c: Conn, beat: int, early: int, late: int) {
    match c.state
    case Established => c.clocks.beat == beat
    case Disconnected => c.clocks.lost <= early
    case TimeWait => c.clocks.timeWait <= late
    case Closed => true
    case _ => c.clocks.finBegin <= early
  }

  lemma FadingStep(c: Conn, t: Timed, beat: int, early: int, late: int)
    requires Fading(c, beat, early, late) && Quiet(c, t) && t.at <= late && (c.state == Established ==> t.at <= early)
    ensures Fading(Next(c, t), beat, early, late) && Next(c, t).id == c.id
    ensures c.state != Established ==> Next(c, t).state != Established
    ensures c.state == Disconnected || c.state == TimeWait ==> Next(c, t).state == c.state || Next(c, t).state == Closed
  {
    match t.step
    case Tick => FadingTick(c, t.at, beat, early, late);
    case Receive(p, size) => FadingPacket(c, p, size, t.at, beat, early, late);
    case _ =>
  }

  lemma FadingTick(c: Conn, now: int, beat: int, early: int, late: int)
    requires Fading(c, beat, early, late) && (c.state == Established ==> now <= early)
    ensures Fading(Tick1S(c, now), beat, early, late) && Tick1S(c, now).id == c.id
    ensures c.state != Established ==> Tick1S(c, now).state != Established
    ensures c.state == Disconnected || c.state == TimeWait ==>
              Tick1S(c, now).state == c.state || Tick1S(c, now).state == Closed
  {
  }

  lemma FadingPacket(c: Conn, p: Packet, size: nat, now: int, beat: int, early: int, late: int)
    requires Fading(c, beat, early, late) && p != HeartBeat(c.id) && now <= late
    requires c.state == Established ==> now <= early
    ensures var d := HandleNetMsg(c, p, size, now);
            && Fading(d, beat, early, late) && d.id == c.id && (c.state != Established ==> d.state != Established)
            && (c.state == Disconnected || c.state == TimeWait ==> d.state == c.state || d.state == Closed)
  {
  }

  lemma {:induction false} FadingRun(c: Conn, ts: seq<Timed>, beat: int, early: int, late: int)
    requires Fading(c, beat, early, late)
    requires forall i :: 0 <= i < |ts| ==> Quiet(c, ts[i]) && ts[i].at <= late
    requires c.state == Established ==> forall i :: 0 <= i < |ts| ==> ts[i].at <= early
    ensures Fading(Run(c, ts), beat, early, late) && Run(c, ts).id == c.id
    ensures c.state != Established ==> Run(c, ts).state != Established
    ensures c.state == Disconnected || c.state == TimeWait || c.state == Closed ==>
              Run(c, ts).state == c.state || Run(c, ts).state == Closed
  {
    hide Next, Fading;
    if ts != [] {
      var before := ts[..|ts| - 1];
      FadingRun(c, before, beat, early, late);
      var d := Run(c, before);
      FadingStep(d, ts[|ts| - 1], beat, early, late);
      if d.state == Closed {
        ClosedStep(d, ts[|ts| - 1]);
      }
    }
  }

  /** A tick at index `k` no later than `d` after `from`. */
  lemma TickAfter(ts: seq<Timed>, begin: int, end: int, d: int, from: int) returns (k: nat)
    requires TicksEvery(ts, begin, end, d) && begin <= from && from + d <= end
    ensures k < |ts| && ts[k].step.Tick? && from <= ts[k].at <= from + d
  {
    assert TickWithin(ts, from, d);
    k :| 0 <= k < |ts| && ts[k].step.Tick? && from <= ts[k].at <= from + d;
  }

  /** A connection whose peer has gone silent is closed, at the latest 270 seconds and
      three tick intervals after the last heartbeat: 30 until it is noticed and 240
      for a reconnect that does not come. */
  lemma SilentPeerIsReclaimed(c: Conn, ts: seq<Timed>, end: int, d: int)
    requires c.state == Established && 0 <= d
    requires Ordered(ts) && TicksEvery(ts, c.clocks.beat, end, d)
    requires forall i :: 0 <= i < |ts| ==> Quiet(c, ts[i])
    requires end >= c.clocks.beat + HEARTBEAT_TIMEOUT + RECONNECT_TIMEOUT + 3 * d
    ensures Run(c, ts).state == Closed
  {
    hide Run, Next, Fading, Tick1S;
    var beat := c.clocks.beat;
    var s1 := beat + HEARTBEAT_TIMEOUT + d;
    var s2 := s1 + FIN_WAIT_SECONDS + d;
    var j := TickAfter(ts, beat, end, d, beat + HEARTBEAT_TIMEOUT);
    var k := TickAfter(ts, beat, end, d, s1 + FIN_WAIT_SECONDS);
    var m := TickAfter(ts, beat, end, d, s1 + RECONNECT_TIMEOUT + d);
    assert j < k < m;
    Noticed(c, ts, j, s1, s2);
    Settled(c, ts, j, k, s1, s2);
    Reclaimed(c, ts, k, m, s1, s2);
    ClosedForever(Run(c, ts[..m + 1]), ts[m + 1..]);
    RunSplit(c, ts, m + 1);
  }

  lemma Noticed(c: Conn, ts: seq<Timed>, j: nat, s1: int, s2: int)
    requires c.state == Established && j < |ts| && Ordered(ts)
    requires forall i :: 0 <= i < |ts| ==> Quiet(c, ts[i])
    requires ts[j].step.Tick? && c.clocks.beat + HEARTBEAT_TIMEOUT <= ts[j].at <= s1 <= s2
    ensures var e := Run(c, ts[..j + 1]);
            e.state != Established && e.id == c.id && Fading(e, c.clocks.beat, s1, s2)
  {
    hide Run, Next, Tick1S;
    assert Fading(c, c.clocks.beat, s1, s2);
    FadingRun(c, ts[..j], c.clocks.beat, s1, s2);
    var e := Run(c, ts[..j]);
    FadingStep(e, ts[j], c.clocks.beat, s1, s2);
    RunStep(c, ts, j);
    TickIs(e, ts[j]);
    TickOutcome(e, ts[j].at);
  }

  lemma TickIs(c: Conn, t: Timed)
    requires t.step.Tick?
    ensures Next(c, t) == Tick1S(c, t.at)
  {
  }

  lemma Settled(c: Conn, ts: seq<Timed>, j: nat, k: nat, s1: int, s2: int)
    requires j < k < |ts| && Ordered(ts) && forall i :: 0 <= i < |ts| ==> Quiet(c, ts[i])
    requires ts[k].step.Tick? && s1 + FIN_WAIT_SECONDS <= ts[k].at <= s2
    requires var e := Run(c, ts[..j + 1]);
             e.state != Established && e.id == c.id && Fading(e, c.clocks.beat, s1, s2)
    ensures var e := Run(c, ts[..k + 1]);
            e.id == c.id && Fading(e, c.clocks.beat, s1, s2)
            && (e.state == Disconnected || e.state == TimeWait || e.state == Closed)
  {
    hide Run, Next, Tick1S;
    var e := Run(c, ts[..j + 1]);
    FadingRun(e, ts[j + 1..k], c.clocks.beat, s1, s2);
    RunBetween(c, ts, j + 1, k);
    var g := Run(c, ts[..k]);
    FadingStep(g, ts[k], c.clocks.beat, s1, s2);
    RunStep(c, ts, k);
    TickIs(g, ts[k]);
    TickOutcome(g, ts[k].at);
  }

  lemma Reclaimed(c: Conn, ts: seq<Timed>, k: nat, m: nat, s1: int, s2: int)
    requires k < m < |ts| && Ordered(ts) && forall i :: 0 <= i < |ts| ==> Quiet(c, ts[i])
    requires ts[m].step.Tick? && ts[m].at >= s1 + RECONNECT_TIMEOUT && ts[m].at >= s2 + TIME_WAIT_SECONDS
    requires var e := Run(c, ts[..k + 1]);
             e.id == c.id && Fading(e, c.clocks.beat, s1, s2)
             && (e.state == Disconnected || e.state == TimeWait || e.state == Closed)
    ensures Run(c, ts[..m + 1]).state == Closed
  {
    hide Run, Next, Tick1S;
    var e := Run(c, ts[..k + 1]);
    Lingering(e, ts[k + 1..m], c.clocks.beat, s1, s2);
    RunBetween(c, ts, k + 1, m);
    var g := Run(c, ts[..m]);
    RunStep(c, ts, m);
    TickIs(g, ts[m]);
    TickOutcome(g, ts[m].at);
  }

  /** A lost or finished connection keeps its deadline until it is closed. */
  lemma {:induction false} Lingering(c: Conn, ts: seq<Timed>, beat: int, early: int, late: int)
    requires Fading(c, beat, early, late) && (c.state == Disconnected || c.state == TimeWait || c.state == Closed)
    requires forall i :: 0 <= i < |ts| ==> Quiet(c, ts[i])
    ensures Fading(Run(c, ts), beat, early, late) && Run(c, ts).id == c.id
    ensures Run(c, ts).state == c.state || Run(c, ts).state == Closed
  {
    hide Next;
    if ts != [] {
      Lingering(c, ts[..|ts| - 1], beat, early, late);
      LingeringStep(Run(c, ts[..|ts| - 1]), ts[|ts| - 1], beat, early, late);
    }
  }

  lemma LingeringStep(c: Conn, t: Timed, beat: int, early: int, late: int)
    requires Fading(c, beat, early, late) && (c.state == Disconnected || c.state == TimeWait || c.state == Closed)
    requires Quiet(c, t)
    ensures Fading(Next(c, t), beat, early, late) && Next(c, t).id == c.id
    ensures Next(c, t).state == c.state || Next(c, t).state == Closed
  {
  }

  lemma RunBetween(c: Conn, ts: seq<Timed>, j: nat, k: nat)
    requires j <= k <= |ts|
    ensures Run(Run(c, ts[..j]), ts[j..k]) == Run(c, ts[..k])
  {
    RunSplit(c, ts[..k], j);
    assert ts[..k][..j] == ts[..j] && ts[..k][j..] == ts[j..k];
  }

  // ------------------------------------------------------------ close events

  function Closes(events: seq<Event>): nat {
    if events == [] then 0
    else Closes(events[..|events| - 1]) + (if events[|events| - 1].Close? then 1 else 0)
  }

  lemma ClosesPush(events: seq<Event>, e: Event)
    ensures Closes(events + [e]) == Closes(events) + (if e.Close? then 1 else 0)
  {
    assert (events + [e])[..|events|] == events;
  }

  /** Closing without a word: the business ends a disconnected connection and gives
      no reason. */
  predicate Silent(c: Conn, t: Timed) {
    c.state == Disconnected && t.step == FinCall(CLOSE_REASON_NONE)
  }

  /** A close, a bind timeout or the traffic limit cutting short a TIME_WAIT, whose
      close has been reported. */
  predicate Repeated(c: Conn, t: Timed) {
    && c.state == TimeWait
    && (|| (t.step.Receive? && t.step.p == ClientClose(c.id))
        || (t.step.Tick? && !Expired(c, t.at) && (Unbound(c, t.at) || Flooded(c, t.at))))
  }

  /** That is what leaves TIME_WAIT for a reason. */
  lemma RepeatedCloses(c: Conn, t: Timed)
    requires c.state == TimeWait
    ensures Repeated(c, t) <==> Next(c, t).state == Closed && Next(c, t).reason != CLOSE_REASON_NONE
  {
  }

  /** The step from `c` to `d` reports a close exactly when it enters TIME_WAIT or
      closes for a reason. */
  ghost predicate Accounted(c: Conn, d: Conn) {
    Closes(d.events) == Closes(c.events)
      + (if c.state == FinWait2 && d.state == TimeWait then 1
         else if c.state != Closed && d.state == Closed && d.reason != CLOSE_REASON_NONE then 1
         else 0)
  }

  lemma CloseAccounted(c: Conn, why: int, now: int)
    ensures Accounted(c, CloseConnect(c, why, now))
  {
    ClosesPush(c.events, Close(why));
  }

  lemma DisConnectAccounted(c: Conn, why: int, now: int)
    ensures Accounted(c, DisConnect(c, why, now))
  {
    ClosesPush(c.events, Lost(why));
  }

  lemma TickAccounted(c: Conn, now: int)
    ensures Accounted(c, Tick1S(c, now))
  {
    hide Closes;
    var d := TickState(c, now);
    StateAccounted(c, now);
    CloseAccounted(d, CLOSE_REASON_BIND_TIMEOUT, now);
    CloseAccounted(TickBind(d, now), CLOSE_REASON_FLOW_CONTROL, now);
  }

  lemma StateAccounted(c: Conn, now: int)
    ensures Accounted(c, TickState(c, now))
  {
    hide Closes;
    DisConnectAccounted(c, DISCONNECT_REASON_HEARTBEAT, now);
    var d := if now >= c.clocks.beat + HEARTBEAT_TIMEOUT then DisConnect(c, DISCONNECT_REASON_HEARTBEAT, now) else c;
    ClosesPush(d.events, Network);
    CloseAccounted(c, CLOSE_REASON_DISCONNECT_TIMEOUT, now);
    CloseAccounted(c, CLOSE_REASON_FIN_TIMEOUT, now);
    CloseAccounted(c, CLOSE_REASON_NONE, now);
  }

  lemma PacketAccounted(c: Conn, p: Packet, size: nat, now: int)
    ensures Accounted(c, HandleNetMsg(c, p, size, now))
  {
    hide Closes;
    DisConnectAccounted(c, DISCONNECT_REASON_KCP_DEAD_LINK, now);
    CloseAccounted(c, CLOSE_REASON_CLIENT_FIN, now);
    ClosesPush(c.events, Close(c.reason));
  }

  lemma StepAccounted(c: Conn, t: Timed)
    ensures Accounted(c, Next(c, t))
  {
    hide Closes;
    match t.step
    case Tick => TickAccounted(c, t.at);
    case Receive(p, size) => PacketAccounted(c, p, size, t.at);
    case FinCall(why) => CloseAccounted(c, why, t.at);
    case BindCall(data) => ClosesPush(c.events, Bound(data));
    case ReconnectCall(_) => ClosesPush(c.events, Reconnected);
    case ProcCall(_, _, _) => DisConnectAccounted(c, DISCONNECT_REASON_KCP_DEAD_LINK, t.at);
  }

  /** A live connection is closed without a reason only silently. */
  lemma ReasonUnlessSilent(c: Conn, t: Timed)
    requires c.state != Closed && c.state != TimeWait && Next(c, t).state == Closed
    ensures Next(c, t).reason == CLOSE_REASON_NONE <==> Silent(c, t)
  {
  }

  /** The close events a whole run reports: none before the end is in sight, one in
      TIME_WAIT; after that one as well, but none if it was closed silently, and two
      if TIME_WAIT was cut short for a reason. */
  ghost predicate Ledger(start: Conn, ts: seq<Timed>) {
    var c := Run(start, ts);
    var silent, again := SilentlyClosed(start, ts), ClosedAgain(start, ts);
    match c.state
    case Closed => Closes(c.events) == (if silent then 0 else if again then 2 else 1)
    case TimeWait => Closes(c.events) == 1 && !silent && !again
    case _ => Closes(c.events) == 0 && !silent && !again
  }

  ghost predicate SilentlyClosed(start: Conn, ts: seq<Timed>) {
    exists i :: 0 <= i < |ts| && Silent(Run(start, ts[..i]), ts[i])
  }

  ghost predicate ClosedAgain(start: Conn, ts: seq<Timed>) {
    exists i :: 0 <= i < |ts| && Repeated(Run(start, ts[..i]), ts[i])
  }

  lemma LaterStep(start: Conn, ts: seq<Timed>, t: Timed)
    ensures SilentlyClosed(start, ts + [t]) <==> SilentlyClosed(start, ts) || Silent(Run(start, ts), t)
    ensures ClosedAgain(start, ts + [t]) <==> ClosedAgain(start, ts) || Repeated(Run(start, ts), t)
  {
    var us := ts + [t];
    forall i | 0 <= i <= |ts| ensures us[..i] == ts[..i] {
    }
    assert us[..|ts|] == ts && us[|ts|] == t;
    if i :| 0 <= i < |ts| && Silent(Run(start, ts[..i]), ts[i]) {
      assert Silent(Run(start, us[..i]), us[i]);
    }
    if i :| 0 <= i < |ts| && Repeated(Run(start, ts[..i]), ts[i]) {
      assert Repeated(Run(start, us[..i]), us[i]);
    }
    if Silent(Run(start, ts), t) {
      assert Silent(Run(start, us[..|ts|]), us[|ts|]);
    }
    if Repeated(Run(start, ts), t) {
      assert Repeated(Run(start, us[..|ts|]), us[|ts|]);
    }
  }

  lemma SilentCloses(c: Conn, t: Timed)
    requires Silent(c, t)
    ensures Next(c, t).state == Closed && Next(c, t).reason == CLOSE_REASON_NONE
  {
  }

  lemma LedgerStep(start: Conn, ts: seq<Timed>, t: Timed)
    requires Ledger(start, ts)
    ensures Ledger(start, ts + [t])
  {
    hide Closes, Next, SilentlyClosed, ClosedAgain;
    var c := Run(start, ts);
    assert (ts + [t])[..|ts|] == ts;
    assert Run(start, ts + [t]) == Next(c, t);
    LaterStep(start, ts, t);
    StepAccounted(c, t);
    StepsAreAllowed(c, t);
    if Silent(c, t) {
      SilentCloses(c, t);
    }
    if c.state == Closed {
      ClosedStep(c, t);
    } else if c.state == TimeWait {
      RepeatedCloses(c, t);
    } else if && Next(c, t).state == Closed {
      ReasonUnlessSilent(c, t);
    }
  }

  /** Every route to CLOSE reports it, except ending a disconnected connection
      without a reason. */
  lemma {:induction false} CloseIsReported(start: Conn, ts: seq<Timed>)
    requires start.state == Established && Closes(start.events) == 0
    ensures Ledger(start, ts)
  {
    if ts != [] {
      CloseIsReported(start, ts[..|ts| - 1]);
      LedgerStep(start, ts[..|ts| - 1], ts[|ts| - 1]);
      assert ts[..|ts| - 1] + [ts[|ts| - 1]] == ts;
    }
  }

  /** A second report does happen: an active close of a connection that was never
      bound, whose TIME_WAIT falls on the bind timeout. */
  lemma ReportedTwice(id: u32)
    ensures var c := Run(Opened(id, 0), ShortTimeWait(id)); c.state == Closed && Closes(c.events) == 2
  {
    hide Run, Next, Closes, Opened;
    RunOfFour(Opened(id, 0), ShortTimeWait(id));
    TwiceFirst(id);
    TwiceThen(id);
    TwiceLast(id);
    ClosesPush([], Close(2));
    ClosesPush([Close(2)], Close(CLOSE_REASON_BIND_TIMEOUT));
    assert [] + [Close(2)] == [Close(2)];
    NoCloses();
  }

  function ShortTimeWait(id: u32): seq<Timed> {
    [Timed(FinCall(2), 58), Timed(Receive(ClientFinAck, 8), 58), Timed(Receive(ClientFin(id), 8), 58), Timed(Tick, 60)]
  }

  lemma TwiceFirst(id: u32)
    ensures Next(Opened(id, 0), Timed(FinCall(2), 58))
         == Conn(FinWait1, id, 0, 2, Clocks(0, 0, 0, 58, 0, 0, 0, 0), Traffic(0, 0, 0), [], [])
  {
  }

  lemma TwiceThen(id: u32)
    ensures var c := Conn(FinWait1, id, 0, 2, Clocks(0, 0, 0, 58, 0, 0, 0, 0), Traffic(0, 0, 0), [], []);
            var d := Next(Next(c, Timed(Receive(ClientFinAck, 8), 58)), Timed(Receive(ClientFin(id), 8), 58));
            d == Conn(TimeWait, id, 0, 2, Clocks(0, 0, 0, 58, 0, 58, 0, 0), Traffic(0, 2, 16), [Close(2)], [FinAck(2)])
  {
  }

  lemma TwiceLast(id: u32)
    ensures var c := Conn(TimeWait, id, 0, 2, Clocks(0, 0, 0, 58, 0, 58, 0, 0), Traffic(0, 2, 16), [Close(2)], [FinAck(2)]);
            var d := Next(c, Timed(Tick, 60));
            d.state == Closed && d.events == [Close(2)] + [Close(CLOSE_REASON_BIND_TIMEOUT)]
  {
  }

  lemma NoCloses()
    ensures Closes([]) == 0
  {
  }

  lemma RunOfFour(c: Conn, ts: seq<Timed>)
    requires |ts| == 4
    ensures Run(c, ts) == Next(Next(Next(Next(c, ts[0]), ts[1]), ts[2]), ts[3])
  {
    hide Next;
    RunStep(c, ts, 0);
    RunStep(c, ts, 1);
    RunStep(c, ts, 2);
    RunStep(c, ts, 3);
    assert ts[..0] == [] && ts[..4] == ts;
  }
}
