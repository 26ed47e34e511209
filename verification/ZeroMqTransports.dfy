/** The ZeroMQ transport as objects: two sockets' queues and the waiting flag. */
module ZeroMqTransports {
  import opened PacketCodec
  import opened Wrappers
  import opened FifoQueue
  import opened ZeroMqLink

  /** The messages accepted in one direction between two sockets. */
  class Connection {
    var arrived: seq<Message>
    var inFlight: seq<Message>

    constructor ()
      ensures Contents() == Wire([], [])
    {
      arrived, inFlight := [], [];
    }

    ghost function Contents(): Wire
      reads this
    {
      Wire(arrived, inFlight)
    }

    /** The network delivers the next `count` messages. */
    method Deliver(count: nat)
      requires count <= |inFlight|
      modifies this
      ensures arrived == old(arrived) + old(inFlight)[..count] && inFlight == old(inFlight)[count..]
    {
      arrived, inFlight := arrived + inFlight[..count], inFlight[count..];
    }

    /** `recv` with `ZMQ_DONTWAIT`. */
    method TryReceive() returns (message: Option<Message>)
      modifies this
      ensures inFlight == old(inFlight)
      ensures Held(message, arrived) == old(arrived)
      ensures message.None? ==> arrived == []
    {
      if arrived == [] {
        return None;
      }
      message := Some(arrived[0]);
      arrived := arrived[1..];
    }
  }

  /** A message just taken from the socket, then the messages still there. */
  function Held(taken: Option<Message>, arrived: seq<Message>): seq<Message> {
    (if taken.Some? then [taken.value] else []) + arrived
  }

  lemma DecodeOneMore(taken: seq<Message>, message: Message, junk: Message -> Packet)
    ensures DecodeAll(taken + [message], junk) == DecodeAll(taken, junk) + [Decode(message, junk)]
  {
    hide Decode;
  }

  /** A turn of the draining loop only moves the boundary between what was taken and what is held. */
  lemma DrainTurn(taken: seq<Message>, message: Message, arrived: seq<Message>, more: seq<Message>)
    ensures taken + Held(Some(message), arrived) + more == taken + [message] + (arrived + more)
  {
    Associative(taken, [message], arrived);
    Associative(taken + [message], arrived, more);
  }

  class ZmqTransport {
    const outgoing: Connection
    const incoming: Connection
    var waitForMessages: bool

    constructor (outgoing: Connection, incoming: Connection, waitForMessages: bool)
      ensures this.outgoing == outgoing && this.incoming == incoming && this.waitForMessages == waitForMessages
    {
      this.outgoing, this.incoming, this.waitForMessages := outgoing, incoming, waitForMessages;
    }

    method SetWaitForMessages(wait: bool)
      modifies this
      ensures waitForMessages == wait
    {
      waitForMessages := wait;
    }

    /** `ready`: a peer can take the message now. A waiting send returns when one can. The result says whether the
     *  message was accepted, or which exception ended the call. */
    method Send(packet: Packet, ready: bool) returns (r: Result<bool, Error>)
      requires Fits(packet)
      modifies outgoing
      ensures outgoing.Contents() == AfterSend(old(outgoing.Contents()), waitForMessages, ready, packet)
      ensures Everything(outgoing.Contents()) == Everything(old(outgoing.Contents())) +
              if Allocatable(packet) && (waitForMessages || ready) then [Serialized(packet)] else []
      ensures r == if Allocatable(packet) then Success(waitForMessages || ready) else Failure(LengthError)
    {
      var buffer := SerializePacket(packet);
      if buffer.Failure? {
        return Failure(buffer.error);
      }
      var accepted := waitForMessages || ready;
      if accepted {
        outgoing.inFlight := outgoing.inFlight + [buffer.value[..]];
      }
      r := Success(accepted);
    }

    /**
     * Any number of messages may arrive before each look at the socket; `late` is how many did. The result
     * is `None` when the call waits and there is no message to wait for.
     */
    method Receive(junk: Message -> Packet) returns (packets: Option<seq<Packet>>, ghost late: nat)
      modifies incoming
      ensures packets.None? ==> waitForMessages && late == 0 && incoming.Contents() == old(incoming.Contents())
      ensures packets.None? <==> waitForMessages && Everything(old(incoming.Contents())) == []
      ensures packets.Some? ==>
                CanReceive(old(incoming.Contents()), waitForMessages, late)
                && packets.value == DecodeAll(Taken(old(incoming.Contents()), waitForMessages, late), junk)
                && incoming.Contents() == AfterReceive(old(incoming.Contents()), waitForMessages, late)
    {
      if waitForMessages {
        packets, late := ReceiveOne(junk);
      } else {
        var all;
        all, late := Drain(junk);
        packets := Some(all);
      }
    }

    method Drain(junk: Message -> Packet) returns (packets: seq<Packet>, ghost late: nat)
      modifies incoming
      ensures CanReceive(old(incoming.Contents()), false, late)
      ensures packets == DecodeAll(Taken(old(incoming.Contents()), false, late), junk)
      ensures incoming.Contents() == AfterReceive(old(incoming.Contents()), false, late)
    {
      packets, late := [], 0;
      ghost var flying, waiting := incoming.inFlight, incoming.arrived;
      ghost var taken: seq<Message> := [];
      var count: nat :| count <= |incoming.inFlight|;
      incoming.Deliver(count);
      late := count;
      var received := incoming.TryReceive();
      assert [] + Held(received, incoming.arrived) == waiting + flying[..late];
      while received.Some?
        invariant late <= |flying| && incoming.inFlight == flying[late..]
        invariant received.None? ==> incoming.arrived == []
        invariant taken + Held(received, incoming.arrived) == waiting + flying[..late]
        invariant packets == DecodeAll(taken, junk)
        decreases |incoming.inFlight| + |Held(received, incoming.arrived)|
      {
        hide Decode, DecodeAll;
        DecodeOneMore(taken, received.value, junk);
        packets := packets + [Decode(received.value, junk)];
        count :| 0 <= count <= |incoming.inFlight|;
        ghost var more := incoming.inFlight[..count];
        DrainTurn(taken, received.value, incoming.arrived, more);
        Associative(waiting, flying[..late], more);
        assert flying[..late + count] == flying[..late] + more;
        taken, late := taken + [received.value], late + count;
        incoming.Deliver(count);
        received := incoming.TryReceive();
      }
      assert taken + [] == taken;
    }

    method ReceiveOne(junk: Message -> Packet) returns (packets: Option<seq<Packet>>, ghost late: nat)
      modifies incoming
      ensures packets.None? ==> late == 0 && incoming.Contents() == old(incoming.Contents())
      ensures packets.None? <==> Everything(old(incoming.Contents())) == []
      ensures packets.Some? ==>
                CanReceive(old(incoming.Contents()), true, late)
                && packets.value == DecodeAll(Taken(old(incoming.Contents()), true, late), junk)
                && incoming.Contents() == AfterReceive(old(incoming.Contents()), true, late)
    {
      late := 0;
      if incoming.arrived == [] && incoming.inFlight == [] {
        return None, 0;
      }
      // The call waits until at least one message has arrived.
      var count: nat :| count <= |incoming.inFlight| && (incoming.arrived == [] ==> count > 0);
      incoming.Deliver(count);
      late := count;
      var message := incoming.TryReceive();
      packets := Some([Decode(message.value, junk)]);
    }
  }
}
