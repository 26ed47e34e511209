/** The relay: nodes in and out of any transport. Encoding and decoding a node are parameters. */
module Relay {
  import opened LittleEndian
  import opened PacketCodec
  import opened Wrappers
  import opened FifoQueue
  import opened FileLog
  import opened FileTransports
  import opened SharedMemoryTransports

  /** Decoding inverts encoding. */
  ghost predicate Inverse<Node(!new)>(encode: Node -> Packet, decode: Packet -> Node) {
    forall n :: decode(encode(n)) == n
  }

  function PacketsOf<Node>(encode: Node -> Packet, nodes: seq<Node>): (ps: seq<Packet>)
    ensures |ps| == |nodes| && forall i | 0 <= i < |ps| :: ps[i] == encode(nodes[i])
  {
    seq(|nodes|, i requires 0 <= i < |nodes| => encode(nodes[i]))
  }

  function NodesOf<Node>(decode: Packet -> Node, ps: seq<Packet>): (nodes: seq<Node>)
    ensures |nodes| == |ps| && forall i | 0 <= i < |ps| :: nodes[i] == decode(ps[i])
  {
    seq(|ps|, i requires 0 <= i < |ps| => decode(ps[i]))
  }

  lemma NodesOfPackets<Node(!new)>(encode: Node -> Packet, decode: Packet -> Node, nodes: seq<Node>)
    requires Inverse(encode, decode)
    ensures NodesOf(decode, PacketsOf(encode, nodes)) == nodes
  {
  }

  /** The receiving loop of a relay. */
  method CreateNodes<Node>(decode: Packet -> Node, packets: seq<Packet>) returns (nodes: seq<Node>)
    ensures nodes == NodesOf(decode, packets)
  {
    nodes := [];
    for i := 0 to |packets|
      invariant |nodes| == i && forall j | 0 <= j < i :: nodes[j] == decode(packets[j])
    {
      nodes := nodes + [decode(packets[i])];
    }
  }

  // ---------- Histories ----------

  /** What the relay's callers see of an event of the transport. */
  function Lift<Node>(decode: Packet -> Node, e: Event<Packet>): Event<Node> {
    match e
    case Enqueue(packet) => Enqueue(decode(packet))
    case Dequeue(batch) => Dequeue(NodesOf(decode, batch))
  }

  function LiftAll<Node>(decode: Packet -> Node, events: seq<Event<Packet>>): seq<Event<Node>> {
    if events == [] then []
    else LiftAll(decode, events[..|events| - 1]) + [Lift(decode, events[|events| - 1])]
  }

  lemma NodesOfConcat<Node>(decode: Packet -> Node, ps: seq<Packet>, qs: seq<Packet>)
    ensures NodesOf(decode, ps + qs) == NodesOf(decode, ps) + NodesOf(decode, qs)
  {
  }

  lemma LiftedEvent<Node>(decode: Packet -> Node, queue: seq<Packet>, e: Event<Packet>)
    requires e.Dequeue? ==> e.batch <= queue
    ensures Lift(decode, e).Dequeue? ==> Lift(decode, e).batch <= NodesOf(decode, queue)
    ensures Apply(NodesOf(decode, queue), Lift(decode, e)) == NodesOf(decode, Apply(queue, e))
    ensures In(Lift(decode, e)) == NodesOf(decode, In(e))
    ensures Out(Lift(decode, e)) == NodesOf(decode, Out(e))
  {
    match e
    case Enqueue(packet) =>
      assert NodesOf(decode, [packet]) == [decode(packet)];
      NodesOfConcat(decode, queue, [packet]);
    case Dequeue(batch) =>
      var rest := queue[|batch|..];
      assert queue == batch + rest;
      NodesOfConcat(decode, batch, rest);
      assert NodesOf(decode, queue)[|batch|..] == NodesOf(decode, rest);
  }

  /** A relay over a first-in-first-out transport is first-in-first-out for nodes. */
  lemma {:induction false} LiftedHistory<Node>(decode: Packet -> Node, queue: seq<Packet>, events: seq<Event<Packet>>)
    requires Legal(queue, events)
    ensures Legal(NodesOf(decode, queue), LiftAll(decode, events))
    ensures ApplyAll(NodesOf(decode, queue), LiftAll(decode, events)) == NodesOf(decode, ApplyAll(queue, events))
    ensures Enqueued(LiftAll(decode, events)) == NodesOf(decode, Enqueued(events))
    ensures Dequeued(LiftAll(decode, events)) == NodesOf(decode, Dequeued(events))
  {
    hide NodesOf, Apply, In, Out, Lift;
    if events == [] {
      assert NodesOf(decode, []) == [];
    } else {
      var front, last := events[..|events| - 1], events[|events| - 1];
      LiftedHistory(decode, queue, front);
      LiftedEvent(decode, ApplyAll(queue, front), last);
      var n := |LiftAll(decode, front)|;
      assert LiftAll(decode, events)[..n] == LiftAll(decode, front);
      NodesOfConcat(decode, Enqueued(front), In(last));
      NodesOfConcat(decode, Dequeued(front), Out(last));
    }
  }

  /**
   * Whatever the transport did to the packets of the sent nodes in first-in-first-out order: the nodes
   * received, then the nodes of the packets still stored, are the nodes sent.
   */
  lemma RelayDelivers<Node(!new)>(encode: Node -> Packet, decode: Packet -> Node,
                                  nodes: seq<Node>, events: seq<Event<Packet>>)
    requires Inverse(encode, decode)
    requires Legal([], events) && Enqueued(events) == PacketsOf(encode, nodes)
    ensures Dequeued(LiftAll(decode, events)) + NodesOf(decode, ApplyAll([], events)) == nodes
    ensures Legal([], LiftAll(decode, events))
  {
    LiftedHistory(decode, [], events);
    NodesOfPackets(encode, decode, nodes);
    Conservation([], LiftAll(decode, events));
    assert NodesOf(decode, []) == [];
    assert [] + Enqueued(LiftAll(decode, events)) == Enqueued(LiftAll(decode, events));
  }

  // ---------- Relays over two of the transports ----------

  class SharedMemoryRelay<Node> {
    const encode: Node -> Packet
    const decode: Packet -> Node
    const transport: SharedMemoryTransport

    constructor (encode: Node -> Packet, decode: Packet -> Node, transport: SharedMemoryTransport)
      ensures this.encode == encode && this.decode == decode && this.transport == transport
    {
      this.encode, this.decode, this.transport := encode, decode, transport;
    }

    method Send(node: Node)
      requires transport.Valid() && !transport.mutex.locked
      modifies transport.mutex, transport.segment`packetStorage
      ensures transport.Valid() && !transport.mutex.locked
      ensures transport.segment.Contents().store ==
              Apply(old(transport.segment.Contents().store), Enqueue(encode(node)))
    {
      transport.Send(encode(node));
    }

    method Receive() returns (nodes: seq<Node>)
      requires transport.Valid() && !transport.mutex.locked
      modifies transport.mutex, transport.segment`packetStorage
      ensures transport.Valid() && !transport.mutex.locked
      ensures nodes == NodesOf(decode, old(transport.segment.Contents().store))
      ensures transport.segment.Contents().store == []
    {
      var packets := transport.Receive();
      nodes := CreateNodes(decode, packets);
    }
  }

  class FileRelay<Node> {
    const encode: Node -> Packet
    const decode: Packet -> Node
    const transport: FileTransport

    constructor (encode: Node -> Packet, decode: Packet -> Node, transport: FileTransport)
      ensures this.encode == encode && this.decode == decode && this.transport == transport
    {
      this.encode, this.decode, this.transport := encode, decode, transport;
    }

    method Send(node: Node) returns (thrown: Option<Error>)
      requires Fits(encode(node))
      modifies transport, transport.file
      ensures thrown == if Allocatable(encode(node)) then None else Some(LengthError)
      ensures !transport.firstTimeSending
      ensures transport.file.content ==
              Some(AfterSend(old(transport.file.content), old(transport.firstTimeSending), encode(node)))
    {
      thrown := transport.Send(encode(node));
    }

    method Receive(junk: seq<byte> -> Packet) returns (r: Result<seq<Node>, Error>)
      ensures match Received(transport.file.content, junk)
              case Success(packets) => r == Success(NodesOf(decode, packets))
              case Failure(error) => r == Failure(error)
    {
      var packets := transport.Receive(junk);
      match packets
      case Success(value) =>
        var nodes := CreateNodes(decode, value);
        r := Success(nodes);
      case Failure(error) =>
        r := Failure(error);
    }
  }
}
