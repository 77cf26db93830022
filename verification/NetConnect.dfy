/**
 The class `NetConnect`: its life, with the fields it keeps.

 Every method says how its state may change and what it reports to the business
 thread, besides computing the function that specifies it.
 */
module NetConnect {
  import opened U32
  import opened NetConnectModel
  import opened NetConnectRuns

  class NetConnect {
    var state: State
    const id: u32
    var bind: nat
    var reason: int
    var clocks: Clocks
    var traffic: Traffic
    var events: seq<Event>
    var replies: seq<Reply>

    function View(): Conn
      reads this
    {
      Conn(state, id, bind, reason, clocks, traffic, events, replies)
    }

    constructor (connId: u32, now: int)
      ensures View() == Opened(connId, now)
    {
      state, id, bind, reason := Established, connId, 0, 0;
      clocks := Clocks(now, now, 0, 0, 0, 0, 0, 0);
      traffic := Traffic(now, 0, 0);
      events, replies := [], [];
    }

    method DisConnect(why: int, now: int) returns (ret: int)
      modifies this
      ensures View() == NetConnectModel.DisConnect(old(View()), why, now)
      ensures ret == if old(state) == Established then 0 else -1
      ensures Allowed(old(state), state) && Accounted(old(View()), View())
    {
      hide Accounted;
      DisConnectAccounted(View(), why, now);
      if state != Established {
        return -1;
      }
      state := Disconnected;
      clocks := clocks.(lost := now);
      events := events + [Lost(why)];
      ret := 0;
    }

    method CloseConnect(why: int, now: int)
      modifies this
      ensures View() == NetConnectModel.CloseConnect(old(View()), why, now)
      ensures Allowed(old(state), state) && Accounted(old(View()), View())
    {
      hide Accounted;
      CloseAccounted(View(), why, now);
      if state == Closed {
        return;
      }
      state := Closed;
      reason := why;
      clocks := clocks.(closed := now);
      if why != CLOSE_REASON_NONE {
        events := events + [Close(why)];
      }
    }

    method FinConnect(why: int, now: int) returns (ret: int)
      modifies this
      ensures View() == NetConnectModel.FinConnect(old(View()), why, now)
      ensures ret == if old(state) == Established || old(state) == Disconnected then 0 else -1
      ensures Allowed(old(state), state) && Accounted(old(View()), View())
    {
      hide Accounted;
      StepAccounted(View(), Timed(FinCall(why), now));
      if state == Disconnected {
        CloseConnect(why, now);
        return 0;
      }
      if state != Established {
        return -1;
      }
      state := FinWait1;
      reason := why;
      clocks := clocks.(finBegin := now);
      ret := 0;
    }

    method BindConnect(data: nat) returns (ret: int)
      modifies this
      ensures View() == NetConnectModel.BindConnect(old(View()), data)
      ensures ret == if data != 0 && old(bind) == 0 then 0 else -1
      ensures Allowed(old(state), state) && Accounted(old(View()), View())
    {
      hide Accounted;
      StepAccounted(View(), Timed(BindCall(data), 0));
      if data == 0 {
        return -1;
      }
      if bind != 0 {
        return -1;
      }
      bind := data;
      events := events + [Bound(data)];
      ret := 0;
    }

    method Reconnect(engine: bool, now: int) returns (ret: int)
      modifies this
      ensures View() == NetConnectModel.Reconnect(old(View()), engine, now)
      ensures ret == 0 <==> engine && (old(state) == Disconnected || old(state) == Established)
      ensures Allowed(old(state), state) && Accounted(old(View()), View())
    {
      hide Accounted;
      StepAccounted(View(), Timed(ReconnectCall(engine), now));
      if state != Disconnected && state != Established {
        return -1;
      }
      if !engine {
        return -1;
      }
      state := Established;
      clocks := clocks.(beat := now);
      events := events + [Reconnected];
      ret := 0;
    }

    method HandleFin(connId: u32, now: int) returns (ret: int)
      modifies this
      ensures View() == NetConnectModel.HandleFin(old(View()), connId, now)
      ensures ret == 0 <==> old(Accepts(View(), ClientFin(connId))) && old(state) != Disconnected && old(state) != Closed
    {
      if state == Established {
        return 0;
      }
      if state != FinWait2 && state != TimeWait {
        return -1;
      }
      if connId != id {
        return -1;
      }
      if state == FinWait2 {
        state := TimeWait;
        clocks := clocks.(timeWait := now);
        events := events + [Close(reason)];
      }
      replies := replies + [FinAck(reason)];
      ret := 0;
    }

    method RecvReliable(accepted: bool, broken: bool, now: int) returns (ret: int)
      modifies this
      ensures View() == NetConnectModel.RecvReliable(old(View()), accepted, broken, now)
      ensures ret == if accepted && !broken then 0 else -1
    {
      if !accepted {
        return -1;
      }
      if broken {
        var _ := DisConnect(DISCONNECT_REASON_KCP_DEAD_LINK, now);
        replies := replies + [RstDisconnected];
        return -1;
      }
      ret := 0;
    }

    method HandleNetMsg(p: Packet, size: nat, now: int) returns (ret: int)
      modifies this
      ensures View() == NetConnectModel.HandleNetMsg(old(View()), p, size, now)
      ensures ret == 0 <==> old(Accepts(View(), p))
      ensures Allowed(old(state), state) && Accounted(old(View()), View())
    {
      hide Accounted, Wrap;
      PacketAccounted(View(), p, size, now);
      ret := 0;
      if state == Disconnected {
        replies := replies + [RstDisconnected];
        return;
      }
      if state == Closed {
        replies := replies + [RstClosed];
        return;
      }
      traffic := traffic.(packets := Wrap(traffic.packets + 1), bytes := Wrap(traffic.bytes + size));
      match p {
        case Reliable(accepted, broken) =>
          ret := RecvReliable(accepted, broken, now);
        case HeartBeat(connId) =>
          if connId != id {
            return -1;
          }
          clocks := clocks.(beat := now);
          replies := replies + [HeartBeatAck];
        case ClientClose(connId) =>
          if connId != id {
            return -1;
          }
          CloseConnect(CLOSE_REASON_CLIENT_FIN, now);
        case ClientFin(connId) =>
          ret := HandleFin(connId, now);
        case ClientFinAck =>
          if state == FinWait1 {
            state := FinWait2;
          }
        case _ =>
      }
    }

    method TickState(now: int)
      modifies this
      ensures View() == NetConnectModel.TickState(old(View()), now)
    {
      match state {
        case Established =>
          if now >= clocks.beat + HEARTBEAT_TIMEOUT {
            var _ := DisConnect(DISCONNECT_REASON_HEARTBEAT, now);
          }
          if bind != 0 && now >= clocks.synced + NETWORK_SYN_INTERVAL {
            clocks := clocks.(synced := now);
            events := events + [Network];
          }
        case Disconnected =>
          if now >= clocks.lost + RECONNECT_TIMEOUT {
            CloseConnect(CLOSE_REASON_DISCONNECT_TIMEOUT, now);
          }
        case TimeWait =>
          if now >= clocks.timeWait + TIME_WAIT_SECONDS {
            CloseConnect(CLOSE_REASON_NONE, now);
          }
        case Closed =>
        case _ =>
          if now >= clocks.finBegin + FIN_WAIT_SECONDS {
            CloseConnect(CLOSE_REASON_FIN_TIMEOUT, now);
          }
      }
    }

    method Tick1S(now: int)
      modifies this
      ensures View() == NetConnectModel.Tick1S(old(View()), now)
      ensures TickResult(old(View()), state, now)
      ensures Allowed(old(state), state) && Accounted(old(View()), View())
    {
      hide Accounted, TickResult;
      TickOutcome(View(), now);
      TickAccounted(View(), now);
      TickState(now);
      if state != Closed && bind == 0 && now >= clocks.created + BIND_TIMEOUT {
        CloseConnect(CLOSE_REASON_BIND_TIMEOUT, now);
      }
      if now >= traffic.since + CONN_STATE_INTERVAL {
        if traffic.packets > MAX_CONN_RECV_NUM || traffic.bytes > MAX_CONN_RECV_SIZE {
          CloseConnect(CLOSE_REASON_FLOW_CONTROL, now);
        }
        traffic := traffic.(since := now);
      }
    }

    method Proc(dead: bool, waiting: nat, nowMs: int, now: int)
      modifies this
      ensures View() == NetConnectModel.Proc(old(View()), dead, waiting, nowMs, now)
      ensures Allowed(old(state), state) && Accounted(old(View()), View())
    {
      hide Accounted;
      StepAccounted(View(), Timed(ProcCall(dead, waiting, nowMs), now));
      if state != Established && state != FinWait1 && state != FinWait2 {
        return;
      }
      if dead && state == Established {
        var _ := DisConnect(DISCONNECT_REASON_KCP_DEAD_LINK, now);
        return;
      }
      if state == FinWait1 && waiting == 0 && clocks.finSent + FIN_RESEND_MS < nowMs {
        replies := replies + [Fin(reason)];
        clocks := clocks.(finSent := nowMs);
      }
    }
  }
}
