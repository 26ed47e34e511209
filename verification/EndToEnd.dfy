/** Nodes through relays and transports, and the transports against each other. */
module EndToEnd {
  import opened LittleEndian
  import opened PacketCodec
  import opened Wrappers
  import opened FifoQueue
  import FileLog
  import FileRuns
  import opened SharedMemory
  import opened SharedMemoryCalls
  import SharedMemoryDelivery
  import ZeroMqLink
  import opened Relay

  /**
   * Relays over shared memory, in every interleaving of the small steps of any number of calls: with no call
   * in its critical section, the nodes received, then the nodes of the stored packets, are the nodes sent,
   * each exactly once and in order; every receive takes all there is.
   */
  lemma SharedMemoryRelaysDeliver<Node(!new)>(encode: Node -> Packet, decode: Packet -> Node, nodes: seq<Node>,
                                              steps: seq<Step>, g: nat)
    requires Inverse(encode, decode)
    requires Valid(EMPTY, steps) && SharedMemoryDelivery.Quiet(Final(EMPTY, steps), g)
    requires Arguments(Returned(steps, g)) == PacketsOf(encode, nodes)
    ensures var replies := LiftAll(decode, Replies(EMPTY, steps, g));
            && Dequeued(replies) + NodesOf(decode, Store(Final(EMPTY, steps), g)) == nodes
            && Legal([], replies)
  {
    var replies := Replies(EMPTY, steps, g);
    SharedMemoryDelivery.ExactlyOnceWhenQuiet(steps, g);
    hide Linked, Valid, Final, Replies, Store, SharedMemoryDelivery.Quiet;
    DrainingIsLegal([], replies);
    RelayDelivers(encode, decode, nodes, replies);
    Conservation([], replies);
    assert [] + Enqueued(replies) == Enqueued(replies);
    SameRest(Dequeued(replies), ApplyAll([], replies), Store(Final(EMPTY, steps), g));
  }

  lemma SameRest<T>(front: seq<T>, x: seq<T>, y: seq<T>)
    requires front + x == front + y
    ensures x == y
  {
    assert x == (front + x)[|front|..] && y == (front + y)[|front|..];
  }

  /** While no writer truncates what another one wrote, a reading relay gets all nodes written so far, every time. */
  lemma FileRelayDelivers<Node(!new)>(encode: Node -> Packet, decode: Packet -> Node, nodes: seq<Node>,
                                      initial: Option<seq<byte>>, sends: seq<FileRuns.Send>, junk: seq<byte> -> Packet)
    requires Inverse(encode, decode)
    requires (sends == [] ==> !FileLog.HasSignature(initial)) && FileRuns.NothingTruncated(sends)
    requires FileRuns.Written(sends) == PacketsOf(encode, nodes)
    ensures var r := FileLog.Received(FileRuns.Run(initial, sends).content, junk);
            r.Success? && NodesOf(decode, r.value) == nodes
  {
    FileRuns.NothingLostIffNothingTruncated(initial, sends, junk);
    NodesOfPackets(encode, decode, nodes);
  }

  /** Relays over ZeroMQ, when no send's packet was lost: nodes received, then nodes under way, are the nodes sent. */
  lemma ZeroMqRelaysDeliver<Node(!new)>(encode: Node -> Packet, decode: Packet -> Node, nodes: seq<Node>,
                                        ops: seq<ZeroMqLink.Op>, senderWaits: bool, receiverWaits: bool,
                                        junk: seq<byte> -> Packet)
    requires Inverse(encode, decode)
    requires var start := ZeroMqLink.Link(ZeroMqLink.Wire([], []), senderWaits, receiverWaits);
             ZeroMqLink.Valid(start, ops) && ZeroMqLink.NothingLost(senderWaits, ops)
    requires ZeroMqLink.Sent(ops) == PacketsOf(encode, nodes)
    ensures var start := ZeroMqLink.Link(ZeroMqLink.Wire([], []), senderWaits, receiverWaits);
            var effects := LiftAll(decode, ZeroMqLink.Effects(start, ops, junk));
            var wire := ZeroMqLink.Everything(ZeroMqLink.Final(start, ops).wire);
            && Dequeued(effects) + NodesOf(decode, ZeroMqLink.DecodeAll(wire, junk)) == nodes
            && Legal([], effects)
  {
    var start := ZeroMqLink.Link(ZeroMqLink.Wire([], []), senderWaits, receiverWaits);
    var effects := ZeroMqLink.Effects(start, ops, junk);
    ZeroMqLink.Delivery(ops, senderWaits, receiverWaits, junk);
    ZeroMqLink.RunIsQueue(start, ops, [], junk);
    ZeroMqLink.DecodeCarried(ZeroMqLink.Everything(ZeroMqLink.Final(start, ops).wire), ApplyAll([], effects), junk);
    RelayDelivers(encode, decode, nodes, effects);
  }

  /**
   * The transports agree: for the same sends, a receive from the file returns all that the receives from
   * shared memory have returned so far, followed by what is still stored there.
   */
  lemma FileAgreesWithSharedMemory(initial: Option<seq<byte>>, sends: seq<FileRuns.Send>, junk: seq<byte> -> Packet,
                                   steps: seq<Step>, g: nat)
    requires (sends == [] ==> !FileLog.HasSignature(initial)) && FileRuns.NothingTruncated(sends)
    requires Valid(EMPTY, steps) && SharedMemoryDelivery.Quiet(Final(EMPTY, steps), g)
    requires Arguments(Returned(steps, g)) == FileRuns.Written(sends)
    ensures FileLog.Received(FileRuns.Run(initial, sends).content, junk) ==
            Success(Dequeued(Replies(EMPTY, steps, g)) + Store(Final(EMPTY, steps), g))
  {
    FileRuns.NothingLostIffNothingTruncated(initial, sends, junk);
    SharedMemoryDelivery.ExactlyOnceWhenQuiet(steps, g);
  }
}
