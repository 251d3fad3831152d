/** The ping and pong modules: what each scheduled tick does to the two modules and the two slots
    between them, and the two module classes proved to do that. */
module PingPong {
  import opened Options
  import opened BucketIndex
  import opened Agendas
  import opened Ports

  datatype Message = PING | PONG

  datatype Task = PingUpdate | PingTrySend | PongUpdate | PongTrySend

  /** The two modules and the slots of their out ports. */
  datatype System = System(
    pingSending: bool, pingStart: bool, pingSent: nat,
    pongSending: bool, pongSent: nat,
    connected: bool, pingOut: Option<Message>, pongOut: Option<Message>)

  const FRESH: System := System(false, true, 0, false, 0, false, None, None)

  /** What a module sees through its in port. */
  function Heard(s: System, slot: Option<Message>): Option<Message> { if s.connected then slot else None }

  function Step(task: Task, s: System): System
  {
    match task {
      case PingUpdate =>
        if Heard(s, s.pongOut) == Some(PONG) then s.(pingSending := true, pongOut := None)
        else s.(pingSending := s.pingStart)
      case PingTrySend =>
        if s.pingSending then s.(pingOut := Some(PING), pingSent := s.pingSent + 1, pingStart := false) else s
      case PongUpdate =>
        if Heard(s, s.pingOut) == Some(PING) then s.(pongSending := true, pingOut := None)
        else s.(pongSending := false)
      case PongTrySend =>
        if s.pongSending then s.(pongOut := Some(PONG), pongSent := s.pongSent + 1) else s
    }
  }

  /** Every tick reschedules itself one period later. */
  function Behave(period: Time): Behaviour<Task, System>
  {
    (task: Task, t: Time, s: System) => Effect(Step(task, s), [Event(Plus(t, period), task)])
  }

  // ---------- the modules ----------

  class PingModule {
    const port: BidirectionalPort<Message>
    const period: Time
    var sendMessage: bool
    var startSend: bool
    var numMsgSent: nat

    constructor (period: Time, port: BidirectionalPort<Message>)
      ensures this.period == period && this.port == port
      ensures !sendMessage && startSend && numMsgSent == 0
    {
      this.period, this.port := period, port;
      sendMessage, startSend, numMsgSent := false, true, 0;
    }

    method UpdateState(now: Time, ghost peer: PongModule) returns (request: Event<Task>)
      requires Joined(this, peer)
      modifies this`sendMessage, peer.port.outPort
      ensures Joined(this, peer) && View(this, peer) == Step(PingUpdate, old(View(this, peer)))
      ensures sendMessage <==> startSend || old(port.inPort.Slot()) == Some(PONG)
      ensures port.inPort.Slot() == if old(port.inPort.Slot()) == Some(PONG) then None else old(port.inPort.Slot())
      ensures request == Event(Plus(now, period), PingUpdate)
    {
      request := Event(Plus(now, period), PingUpdate);
      sendMessage := startSend;
      var val := port.inPort.Peek();
      if val != None && val.value == PONG {
        port.inPort.Clear();
        sendMessage := true;
      }
    }

    method TrySend(now: Time, ghost peer: PongModule) returns (request: Event<Task>)
      requires Joined(this, peer)
      modifies this`numMsgSent, this`startSend, port.outPort`storage, port.outPort`state
      ensures Joined(this, peer) && View(this, peer) == Step(PingTrySend, old(View(this, peer)))
      ensures sendMessage ==> numMsgSent == old(numMsgSent) + 1 && port.outPort.Slot() == Some(PING) && !startSend
      ensures !sendMessage ==>
        numMsgSent == old(numMsgSent) && port.outPort.Slot() == old(port.outPort.Slot()) && startSend == old(startSend)
      ensures request == Event(Plus(now, period), PingTrySend)
    {
      request := Event(Plus(now, period), PingTrySend);
      if sendMessage {
        var _ := port.outPort.Send(PING);
        numMsgSent := numMsgSent + 1;
        startSend := false;
      }
    }
  }

  class PongModule {
    const port: BidirectionalPort<Message>
    const period: Time
    var sendMessage: bool
    var numMsgSent: nat

    constructor (period: Time, port: BidirectionalPort<Message>)
      ensures this.period == period && this.port == port
      ensures !sendMessage && numMsgSent == 0
    {
      this.period, this.port := period, port;
      sendMessage, numMsgSent := false, 0;
    }

    method UpdateState(now: Time, ghost peer: PingModule) returns (request: Event<Task>)
      requires Joined(peer, this)
      modifies this`sendMessage, peer.port.outPort
      ensures Joined(peer, this) && View(peer, this) == Step(PongUpdate, old(View(peer, this)))
      ensures sendMessage <==> old(port.inPort.Slot()) == Some(PING)
      ensures port.inPort.Slot() == if old(port.inPort.Slot()) == Some(PING) then None else old(port.inPort.Slot())
      ensures request == Event(Plus(now, period), PongUpdate)
    {
      request := Event(Plus(now, period), PongUpdate);
      sendMessage := false;
      var val := port.inPort.Peek();
      if val != None && val.value == PING {
        port.inPort.Clear();
        sendMessage := true;
      }
    }

    method TrySend(now: Time, ghost peer: PingModule) returns (request: Event<Task>)
      requires Joined(peer, this)
      modifies this`numMsgSent, port.outPort`storage, port.outPort`state
      ensures Joined(peer, this) && View(peer, this) == Step(PongTrySend, old(View(peer, this)))
      ensures sendMessage ==> numMsgSent == old(numMsgSent) + 1 && port.outPort.Slot() == Some(PONG)
      ensures !sendMessage ==> numMsgSent == old(numMsgSent) && port.outPort.Slot() == old(port.outPort.Slot())
      ensures request == Event(Plus(now, period), PongTrySend)
    {
      request := Event(Plus(now, period), PongTrySend);
      if sendMessage {
        var _ := port.outPort.Send(PONG);
        numMsgSent := numMsgSent + 1;
      }
    }
  }

  /** The two modules own different ports, wired to each other or not at all. */
  ghost predicate Joined(ping: PingModule, pong: PongModule)
    reads ping.port.inPort, pong.port.inPort
  {
    && ping.port.outPort != pong.port.outPort && ping.port.inPort != pong.port.inPort
    && ((ping.port.inPort.connectingPort == null && pong.port.inPort.connectingPort == null) || Wired(ping, pong))
  }

  ghost predicate Wired(ping: PingModule, pong: PongModule)
    reads ping.port.inPort, pong.port.inPort
  {
    ping.port.inPort.connectingPort == pong.port.outPort && pong.port.inPort.connectingPort == ping.port.outPort
  }

  ghost function View(ping: PingModule, pong: PongModule): System
    reads ping, pong, ping.port.inPort, pong.port.inPort, ping.port.outPort, pong.port.outPort
  {
    System(ping.sendMessage, ping.startSend, ping.numMsgSent, pong.sendMessage, pong.numMsgSent,
           Wired(ping, pong), ping.port.outPort.Slot(), pong.port.outPort.Slot())
  }

  /** Dispatch of a scheduled callback: the modules do what `Behave` says they do. */
  method RunTask(task: Task, now: Time, ping: PingModule, pong: PongModule) returns (request: Event<Task>)
    requires Joined(ping, pong) && ping.period == pong.period
    modifies ping, pong, ping.port.outPort, pong.port.outPort
    ensures Joined(ping, pong)
    ensures Effect(View(ping, pong), [request]) == Behave(ping.period)(task, now, old(View(ping, pong)))
  {
    match task {
      case PingUpdate => request := ping.UpdateState(now, pong);
      case PingTrySend => request := ping.TrySend(now, pong);
      case PongUpdate => request := pong.UpdateState(now, ping);
      case PongTrySend => request := pong.TrySend(now, ping);
    }
  }

  /** Wiring the two modules connects the system and leaves everything else alone. */
  method ConnectModules(ping: PingModule, pong: PongModule)
    requires Joined(ping, pong)
    modifies ping.port.outPort, ping.port.inPort, pong.port.outPort, pong.port.inPort
    ensures Joined(ping, pong) && View(ping, pong) == old(View(ping, pong)).(connected := true)
  {
    var ok := ping.port.Connect(pong.port);
  }
}
