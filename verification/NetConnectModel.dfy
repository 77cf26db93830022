/**
 The life of one `NetConnect` as functions on values: state, deadlines and what it
 tells the business thread and the peer.
 */
module NetConnectModel {
  import opened U32

  const HEARTBEAT_TIMEOUT := 30
  const RECONNECT_TIMEOUT := 240
  const FIN_WAIT_SECONDS := 3
  const TIME_WAIT_SECONDS := 6
  const BIND_TIMEOUT := 60
  const CONN_STATE_INTERVAL := 10
  const NETWORK_SYN_INTERVAL := 10
  const MAX_CONN_RECV_NUM := 5000
  const MAX_CONN_RECV_SIZE := 1024000
  const FIN_RESEND_MS := 200

  const CLOSE_REASON_NONE := 0
  const CLOSE_REASON_CLIENT_FIN := 1
  const CLOSE_REASON_DISCONNECT_TIMEOUT := 3
  const CLOSE_REASON_FIN_TIMEOUT := 4
  const CLOSE_REASON_BIND_TIMEOUT := 5
  const CLOSE_REASON_FLOW_CONTROL := 6
  const DISCONNECT_REASON_HEARTBEAT := 1
  const DISCONNECT_REASON_KCP_DEAD_LINK := 5

  /** The states the program enters; its other enumerators are never used. */
  datatype State = Closed | Established | Disconnected | FinWait1 | FinWait2 | TimeWait

  /** Notifications to the business thread. */
  datatype Event = Lost(why: int) | Close(why: int) | Bound(data: nat) | Reconnected | Network

  /** Control packets to the peer. */
  datatype Reply = RstDisconnected | RstClosed | Fin(why: int) | FinAck(why: int) | HeartBeatAck

  datatype Clocks = Clocks(
    created: int, beat: int, lost: int, finBegin: int, finSent: int, timeWait: int, closed: int, synced: int)

  datatype Traffic = Traffic(since: int, packets: u32, bytes: u32)

  datatype Conn = Conn(
    state: State, id: u32, bind: nat, reason: int,
    clocks: Clocks, traffic: Traffic,
    events: seq<Event>, replies: seq<Reply>)

  /** A packet of this connection. For reliable data, what `ikcp_input` made of it:
      whether it was accepted and whether the engine is now broken. */
  datatype Packet =
    | Reliable(accepted: bool, broken: bool)
    | Unreliable
    | HeartBeat(id: u32)
    | ClientClose(id: u32)
    | ClientFin(id: u32)
    | ClientFinAck
    | Unknown

  function Opened(id: u32, now: int): Conn {
    Conn(Established, id, 0, 0, Clocks(now, now, 0, 0, 0, 0, 0, 0), Traffic(now, 0, 0), [], [])
  }

  function Notify(c: Conn, e: Event): Conn {
    c.(events := c.events + [e])
  }

  function Answer(c: Conn, r: Reply): Conn {
    c.(replies := c.replies + [r])
  }

  function DisConnect(c: Conn, reason: int, now: int): Conn {
    if c.state != Established then c
    else Notify(c.(state := Disconnected, clocks := c.clocks.(lost := now)), Lost(reason))
  }

  function CloseConnect(c: Conn, reason: int, now: int): Conn {
    if c.state == Closed then c
    else
      var d := c.(state := Closed, reason := reason, clocks := c.clocks.(closed := now));
      if reason != CLOSE_REASON_NONE then Notify(d, Close(reason)) else d
  }

  function FinConnect(c: Conn, reason: int, now: int): Conn {
    if c.state == Disconnected then CloseConnect(c, reason, now)
    else if c.state != Established then c
    else c.(state := FinWait1, reason := reason, clocks := c.clocks.(finBegin := now))
  }

  function BindConnect(c: Conn, data: nat): Conn {
    if data == 0 || c.bind != 0 then c else Notify(c.(bind := data), Bound(data))
  }

  /** `Reconnect`; `engine` is whether the KCP instance could be set up again. */
  function Reconnect(c: Conn, engine: bool, now: int): Conn {
    if (c.state != Disconnected && c.state != Established) || !engine then c
    else Notify(c.(state := Established, clocks := c.clocks.(beat := now)), Reconnected)
  }

  // ----------------------------------------------------------------- packets

  function HandleFin(c: Conn, id: u32, now: int): Conn {
    if (c.state != FinWait2 && c.state != TimeWait) || id != c.id then c
    else if c.state == FinWait2 then
      Answer(Notify(c.(state := TimeWait, clocks := c.clocks.(timeWait := now)), Close(c.reason)), FinAck(c.reason))
    else Answer(c, FinAck(c.reason))
  }

  function RecvReliable(c: Conn, accepted: bool, broken: bool, now: int): Conn {
    if accepted && broken then Answer(DisConnect(c, DISCONNECT_REASON_KCP_DEAD_LINK, now), RstDisconnected) else c
  }

  function HandleHeartBeat(c: Conn, id: u32, now: int): Conn {
    if id != c.id then c else Answer(c.(clocks := c.clocks.(beat := now)), HeartBeatAck)
  }

  function Counted(c: Conn, size: nat): Conn {
    c.(traffic := c.traffic.(packets := Wrap(c.traffic.packets + 1), bytes := Wrap(c.traffic.bytes + size)))
  }

  function Dispatch(c: Conn, p: Packet, now: int): Conn {
    match p
    case Reliable(accepted, broken) => RecvReliable(c, accepted, broken, now)
    case Unreliable => c
    case HeartBeat(id) => HandleHeartBeat(c, id, now)
    case ClientClose(id) => if id != c.id then c else CloseConnect(c, CLOSE_REASON_CLIENT_FIN, now)
    case ClientFin(id) => HandleFin(c, id, now)
    case ClientFinAck => if c.state == FinWait1 then c.(state := FinWait2) else c
    case Unknown => c
  }

  function HandleNetMsg(c: Conn, p: Packet, size: nat, now: int): Conn {
    if c.state == Disconnected then Answer(c, RstDisconnected)
    else if c.state == Closed then Answer(c, RstClosed)
    else Dispatch(Counted(c, size), p, now)
  }

  /** Whether a packet is answered with success: it is this connection's, and in
      place. */
  predicate Accepts(c: Conn, p: Packet) {
    c.state == Disconnected || c.state == Closed ||
    match p
    case Reliable(accepted, broken) => accepted && !broken
    case HeartBeat(id) => id == c.id
    case ClientClose(id) => id == c.id
    case ClientFin(id) => c.state == Established || (id == c.id && (c.state == FinWait2 || c.state == TimeWait))
    case _ => true
  }

  // ------------------------------------------------------------------- timers

  function TickSync(c: Conn, now: int): Conn {
    if c.bind != 0 && now >= c.clocks.synced + NETWORK_SYN_INTERVAL
    then Notify(c.(clocks := c.clocks.(synced := now)), Network)
    else c
  }

  function TickState(c: Conn, now: int): Conn {
    match c.state
    case Established =>
      TickSync(if now >= c.clocks.beat + HEARTBEAT_TIMEOUT then DisConnect(c, DISCONNECT_REASON_HEARTBEAT, now) else c, now)
    case Disconnected =>
      if now >= c.clocks.lost + RECONNECT_TIMEOUT then CloseConnect(c, CLOSE_REASON_DISCONNECT_TIMEOUT, now) else c
    case FinWait1 =>
      if now >= c.clocks.finBegin + FIN_WAIT_SECONDS then CloseConnect(c, CLOSE_REASON_FIN_TIMEOUT, now) else c
    case FinWait2 =>
      if now >= c.clocks.finBegin + FIN_WAIT_SECONDS then CloseConnect(c, CLOSE_REASON_FIN_TIMEOUT, now) else c
    case TimeWait =>
      if now >= c.clocks.timeWait + TIME_WAIT_SECONDS then CloseConnect(c, CLOSE_REASON_NONE, now) else c
    case Closed => c
  }

  function TickBind(c: Conn, now: int): Conn {
    if c.state != Closed && c.bind == 0 && now >= c.clocks.created + BIND_TIMEOUT
    then CloseConnect(c, CLOSE_REASON_BIND_TIMEOUT, now)
    else c
  }

  /** Ten-second traffic check; only the start of the interval is reset, as in the
      program. */
  function TickTraffic(c: Conn, now: int): Conn {
    if now < c.traffic.since + CONN_STATE_INTERVAL then c
    else
      var d := if c.traffic.packets > MAX_CONN_RECV_NUM || c.traffic.bytes > MAX_CONN_RECV_SIZE
               then CloseConnect(c, CLOSE_REASON_FLOW_CONTROL, now) else c;
      d.(traffic := d.traffic.(since := now))
  }

  function Tick1S(c: Conn, now: int): Conn {
    TickTraffic(TickBind(TickState(c, now), now), now)
  }

  /** `Proc`, called with milliseconds; `dead` and `waiting` are the engine's. */
  function Proc(c: Conn, dead: bool, waiting: nat, nowMs: int, now: int): Conn {
    if c.state != Established && c.state != FinWait1 && c.state != FinWait2 then c
    else if dead && c.state == Established then DisConnect(c, DISCONNECT_REASON_KCP_DEAD_LINK, now)
    else if c.state == FinWait1 && waiting == 0 && c.clocks.finSent + FIN_RESEND_MS < nowMs
    then Answer(c.(clocks := c.clocks.(finSent := nowMs)), Fin(c.reason))
    else c
  }
}
