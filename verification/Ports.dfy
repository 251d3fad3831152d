/** One-slot ports. The payload sits in the sending port; the receiving port reaches it through a pointer. */
module Ports {
  import opened Options

  datatype SendOutcome = NEW | REPLACED

  datatype PortState = EMPTY | FILLED

  class OutPort<P(0)> {
    var storage: P
    var state: PortState
    var connectingPort: InPort?<P>

    constructor ()
      ensures state == EMPTY && connectingPort == null
    {
      state := EMPTY;
      connectingPort := null;
    }

    /** The message in flight, if any. */
    ghost function Slot(): Option<P>
      reads this
    {
      if state == FILLED then Some(storage) else None
    }

    method Connect(other: InPort?<P>) returns (ok: bool)
      modifies this`connectingPort, if other != null then {other} else {}
      ensures ok == (other != null)
      ensures other != null ==> connectingPort == other && other.connectingPort == this
      ensures other == null ==> connectingPort == old(connectingPort)
    {
      if other == null { return false; }
      connectingPort := other;
      other.connectingPort := this;
      return true;
    }

    method Send(payload: P) returns (outcome: SendOutcome)
      modifies this`storage, this`state
      ensures Slot() == Some(payload)
      ensures outcome == if old(Slot()) == None then NEW else REPLACED
    {
      storage := payload;
      match state {
        case EMPTY => state := FILLED; return NEW;
        case FILLED => state := FILLED; return REPLACED;
      }
    }

    method Clear()
      modifies this`state
      ensures Slot() == None
    {
      state := EMPTY;
    }
  }

  class InPort<P(0)> {
    var connectingPort: OutPort?<P>

    constructor ()
      ensures connectingPort == null
    {
      connectingPort := null;
    }

    ghost function Slot(): Option<P>
      reads this, connectingPort
    {
      if connectingPort == null then None else connectingPort.Slot()
    }

    method Peek() returns (p: Option<P>)
      ensures p == Slot()
    {
      if connectingPort == null || connectingPort.state == EMPTY { return None; }
      return Some(connectingPort.storage);
    }

    method Connect(other: OutPort?<P>) returns (ok: bool)
      modifies this, if other != null then {other} else {}
      ensures ok == (other != null)
      ensures other != null ==>
        connectingPort == other && other.connectingPort == this && other.Slot() == old(other.Slot())
      ensures other == null ==> connectingPort == old(connectingPort)
    {
      if other == null { return false; }
      connectingPort := other;
      other.connectingPort := this;
      return true;
    }

    method Clear()
      modifies connectingPort
      ensures Slot() == None && connectingPort == old(connectingPort)
      ensures connectingPort != null ==> connectingPort.connectingPort == old(connectingPort.connectingPort)
    {
      if connectingPort != null { connectingPort.Clear(); }
    }
  }

  class BidirectionalPort<P(0)> {
    const outPort: OutPort<P>
    const inPort: InPort<P>

    constructor ()
      ensures fresh(outPort) && fresh(inPort)
      ensures outPort.Slot() == None && outPort.connectingPort == null && inPort.connectingPort == null
    {
      outPort := new OutPort();
      inPort := new InPort();
    }

    /** Each side's in port reads the other side's out port. */
    method Connect(other: BidirectionalPort<P>) returns (ok: bool)
      requires other == this || (other.inPort != inPort && other.outPort != outPort)
      modifies outPort, inPort, other.outPort, other.inPort
      ensures ok && inPort.connectingPort == other.outPort && other.inPort.connectingPort == outPort
      ensures outPort.Slot() == old(outPort.Slot()) && other.outPort.Slot() == old(other.outPort.Slot())
    {
      ok := outPort.Connect(other.inPort);
      var back := inPort.Connect(other.outPort);
      ok := ok && back;
    }
  }
}
