/**
 * One direction of a ZeroMQ connection: a sender that may be refused, messages under way, and a receiver
 * that either drains what has arrived or waits for one message.
 */
module ZeroMqLink {
  import opened LittleEndian
  import opened PacketCodec
  import opened FifoQueue

  type Message = seq<byte>

  /** Accepted messages: those that have arrived at the receiving socket, then those still under way. */
  datatype Wire = Wire(arrived: seq<Message>, inFlight: seq<Message>)

  /**
   * `wait_for_messages_` decides whether the send may be refused, `ready` says whether a peer can take it. A
   * packet whose message cannot be allocated never reaches the socket.
   */
  predicate Accepts(wait: bool, ready: bool, packet: Packet) {
    Allocatable(packet) && (wait || ready)
  }

  function AfterSend(wire: Wire, wait: bool, ready: bool, packet: Packet): Wire {
    if Accepts(wait, ready, packet) then wire.(inFlight := wire.inFlight + [Serialized(packet)]) else wire
  }

  /** What a receive can get at when `late` more messages arrive while it runs. */
  function Pool(wire: Wire, late: nat): seq<Message>
    requires late <= |wire.inFlight|
  {
    wire.arrived + wire.inFlight[..late]
  }

  /** A receive that waits returns only once there is a message. */
  predicate CanReceive(wire: Wire, wait: bool, late: nat) {
    late <= |wire.inFlight| && (wait ==> Pool(wire, late) != [])
  }

  function Taken(wire: Wire, wait: bool, late: nat): seq<Message>
    requires CanReceive(wire, wait, late)
  {
    if wait then Pool(wire, late)[..1] else Pool(wire, late)
  }

  function AfterReceive(wire: Wire, wait: bool, late: nat): Wire
    requires CanReceive(wire, wait, late)
  {
    Wire(if wait then Pool(wire, late)[1..] else [], wire.inFlight[late..])
  }

  function DecodeAll(ms: seq<Message>, junk: Message -> Packet): (ps: seq<Packet>)
    ensures |ps| == |ms| && forall i | 0 <= i < |ps| :: ps[i] == Decode(ms[i], junk)
  {
    seq(|ms|, i requires 0 <= i < |ms| => Decode(ms[i], junk))
  }

  // ---------- Runs ----------

  datatype Op =
    | SetSenderWait(wait: bool)
    | SetReceiverWait(wait: bool)
    | Send(packet: Packet, ready: bool)
    | Arrive
    | Receive(late: nat)

  datatype Link = Link(wire: Wire, senderWaits: bool, receiverWaits: bool)

  predicate Enabled(link: Link, op: Op) {
    match op
    case Arrive => link.wire.inFlight != []
    case Receive(late) => CanReceive(link.wire, link.receiverWaits, late)
    case _ => true
  }

  function Next(link: Link, op: Op): Link
    requires Enabled(link, op)
  {
    match op
    case SetSenderWait(wait) => link.(senderWaits := wait)
    case SetReceiverWait(wait) => link.(receiverWaits := wait)
    case Send(packet, ready) => link.(wire := AfterSend(link.wire, link.senderWaits, ready, packet))
    case Arrive => link.(wire := Wire(Pool(link.wire, 1), link.wire.inFlight[1..]))
    case Receive(late) => link.(wire := AfterReceive(link.wire, link.receiverWaits, late))
  }

  /** The accepted send, or the packets that the receive returns. */
  function Effect(link: Link, op: Op, junk: Message -> Packet): seq<Event<Packet>>
    requires Enabled(link, op)
  {
    match op
    case Send(packet, ready) => if Accepts(link.senderWaits, ready, packet) then [Enqueue(packet)] else []
    case Receive(late) => [Dequeue(DecodeAll(Taken(link.wire, link.receiverWaits, late), junk))]
    case _ => []
  }

  predicate Valid(link: Link, ops: seq<Op>)
    decreases |ops|, 0
  {
    ops != [] ==> Valid(link, ops[..|ops| - 1]) && Enabled(Final(link, ops[..|ops| - 1]), ops[|ops| - 1])
  }

  function Final(link: Link, ops: seq<Op>): Link
    requires Valid(link, ops)
    decreases |ops|, 1
  {
    if ops == [] then link else Next(Final(link, ops[..|ops| - 1]), ops[|ops| - 1])
  }

  function Effects(link: Link, ops: seq<Op>, junk: Message -> Packet): seq<Event<Packet>>
    requires Valid(link, ops)
  {
    if ops == [] then []
    else
      var front, last := ops[..|ops| - 1], ops[|ops| - 1];
      Effects(link, front, junk) + Effect(Final(link, front), last, junk)
  }

  // ---------- The wire is a queue of serialized packets ----------

  predicate Carries(ms: seq<Message>, ps: seq<Packet>) {
    |ms| == |ps| && forall i | 0 <= i < |ms| :: Fits(ps[i]) && ms[i] == Serialized(ps[i])
  }

  function Everything(wire: Wire): seq<Message> {
    wire.arrived + wire.inFlight
  }

  lemma DecodeCarried(ms: seq<Message>, ps: seq<Packet>, junk: Message -> Packet)
    requires Carries(ms, ps)
    ensures DecodeAll(ms, junk) == ps
  {
    forall i | 0 <= i < |ms| ensures Decode(ms[i], junk) == ps[i] {
      DeserializeSerialized(ps[i], []);
      assert Serialized(ps[i]) + [] == ms[i];
    }
  }

  /**
   * A send adds its serialized packet behind everything accepted before, if it waits or a peer is ready, and
   * otherwise adds nothing.
   */
  lemma SendAppends(wire: Wire, wait: bool, ready: bool, packet: Packet)
    requires Allocatable(packet)
    ensures Everything(AfterSend(wire, wait, ready, packet)) ==
            Everything(wire) + if wait || ready then [Serialized(packet)] else []
    ensures AfterSend(wire, wait, ready, packet).arrived == wire.arrived
  {
    hide Serialized;
    Associative(wire.arrived, wire.inFlight, [Serialized(packet)]);
    assert Everything(wire) + [] == Everything(wire);
  }

  /** Arriving moves messages without reordering them. */
  lemma PoolSplits(wire: Wire, late: nat)
    requires late <= |wire.inFlight|
    ensures Everything(wire) == Pool(wire, late) + wire.inFlight[late..]
  {
    Associative(wire.arrived, wire.inFlight[..late], wire.inFlight[late..]);
    assert wire.inFlight == wire.inFlight[..late] + wire.inFlight[late..];
  }

  /** A receive takes a prefix of everything that was accepted, and leaves the rest. */
  lemma ReceiveSplits(wire: Wire, wait: bool, late: nat)
    requires CanReceive(wire, wait, late)
    ensures Everything(wire) == Taken(wire, wait, late) + Everything(AfterReceive(wire, wait, late))
  {
    PoolSplits(wire, late);
    var pool, rest := Pool(wire, late), wire.inFlight[late..];
    hide Pool;
    if wait {
      assert pool == pool[..1] + pool[1..];
      Associative(pool[..1], pool[1..], rest);
    } else {
      assert [] + rest == rest;
    }
  }

  lemma CarriesPrefix(taken: seq<Message>, rest: seq<Message>, queue: seq<Packet>, junk: Message -> Packet)
    requires Carries(taken + rest, queue)
    ensures DecodeAll(taken, junk) == queue[..|taken|]
    ensures Carries(rest, queue[|taken|..])
  {
    hide Serialized, Decode;
    assert forall i | 0 <= i < |taken| :: (taken + rest)[i] == taken[i];
    assert forall i | 0 <= i < |rest| :: (taken + rest)[|taken| + i] == rest[i];
    DecodeCarried(taken, queue[..|taken|], junk);
  }

  lemma StepIsQueue(link: Link, op: Op, queue: seq<Packet>, junk: Message -> Packet)
    requires Carries(Everything(link.wire), queue) && Enabled(link, op)
    ensures Legal(queue, Effect(link, op, junk))
    ensures Carries(Everything(Next(link, op).wire), ApplyAll(queue, Effect(link, op, junk)))
  {
    match op
    case Send(packet, ready) =>
      if Allocatable(packet) {
        SendAppends(link.wire, link.senderWaits, ready, packet);
      }
      hide Everything, Serialized;
      if !Accepts(link.senderWaits, ready, packet) {
        assert Effect(link, op, junk) == [];
      }
    case Arrive =>
      PoolSplits(link.wire, 1);
      hide Carries;
      assert Effect(link, op, junk) == [];
    case Receive(late) =>
      ReceiveSplits(link.wire, link.receiverWaits, late);
      hide Everything, Carries, DecodeAll, Taken, AfterReceive;
      var taken := Taken(link.wire, link.receiverWaits, late);
      CarriesPrefix(taken, Everything(Next(link, op).wire), queue, junk);
      CarriesLength(taken + Everything(Next(link, op).wire), queue);
    case _ =>
      assert Effect(link, op, junk) == [];
  }

  lemma CarriesLength(ms: seq<Message>, ps: seq<Packet>)
    requires Carries(ms, ps)
    ensures |ms| == |ps|
  {
  }

  lemma {:induction false} RunIsQueue(link: Link, ops: seq<Op>, queue: seq<Packet>, junk: Message -> Packet)
    requires Carries(Everything(link.wire), queue) && Valid(link, ops)
    ensures Legal(queue, Effects(link, ops, junk))
    ensures Carries(Everything(Final(link, ops).wire), ApplyAll(queue, Effects(link, ops, junk)))
  {
    hide Carries, Everything, Enabled, Next, Effect;
    if ops != [] {
      var front, last := ops[..|ops| - 1], ops[|ops| - 1];
      RunIsQueue(link, front, queue, junk);
      var mid := Final(link, front);
      StepIsQueue(mid, last, ApplyAll(queue, Effects(link, front, junk)), junk);
      ConcatLegal(queue, Effects(link, front, junk), Effect(mid, last, junk));
    }
  }

  // ---------- Delivery ----------

  function Sent(ops: seq<Op>): seq<Packet> {
    if ops == [] then []
    else
      var last := ops[|ops| - 1];
      Sent(ops[..|ops| - 1]) + if last.Send? then [last.packet] else []
  }

  /** The sender's flag after the operations: what it was last set to. */
  function SenderWaits(initially: bool, ops: seq<Op>): bool {
    if ops == [] then initially
    else
      var last := ops[|ops| - 1];
      if last.SetSenderWait? then last.wait else SenderWaits(initially, ops[..|ops| - 1])
  }

  function ReceiverWaits(initially: bool, ops: seq<Op>): bool {
    if ops == [] then initially
    else
      var last := ops[|ops| - 1];
      if last.SetReceiverWait? then last.wait else ReceiverWaits(initially, ops[..|ops| - 1])
  }

  /** The flags are what they were last set to, and nothing else changes them. */
  lemma {:induction false} FlagsAsLastSet(link: Link, ops: seq<Op>)
    requires Valid(link, ops)
    ensures Final(link, ops).senderWaits == SenderWaits(link.senderWaits, ops)
    ensures Final(link, ops).receiverWaits == ReceiverWaits(link.receiverWaits, ops)
  {
    if ops != [] {
      FlagsAsLastSet(link, ops[..|ops| - 1]);
    }
  }

  /**
   * The operation at `i` is a send whose packet is lost: no vector can hold the message, or the sender was last
   * told not to wait and no peer is ready.
   */
  predicate Lost(senderWaits: bool, ops: seq<Op>, i: nat)
    requires i < |ops|
  {
    && ops[i].Send?
    && (!Allocatable(ops[i].packet) || (!ops[i].ready && !SenderWaits(senderWaits, ops[..i])))
  }

  predicate NothingLost(senderWaits: bool, ops: seq<Op>) {
    forall i | 0 <= i < |ops| :: !Lost(senderWaits, ops, i)
  }

  /** The packets of the sends that are not lost. */
  function Unlost(senderWaits: bool, ops: seq<Op>): seq<Packet> {
    if ops == [] then []
    else
      var n := |ops| - 1;
      Unlost(senderWaits, ops[..n]) + if ops[n].Send? && !Lost(senderWaits, ops, n) then [ops[n].packet] else []
  }

  lemma LostOfFront(senderWaits: bool, ops: seq<Op>)
    requires ops != []
    ensures var front, n := ops[..|ops| - 1], |ops| - 1;
            NothingLost(senderWaits, ops) <==> NothingLost(senderWaits, front) && !Lost(senderWaits, ops, n)
  {
    var front := ops[..|ops| - 1];
    forall i | 0 <= i < |front| ensures Lost(senderWaits, front, i) <==> Lost(senderWaits, ops, i) {
      assert front[..i] == ops[..i];
    }
  }

  /** `xs` arises from `ys` by leaving elements out. */
  predicate Subsequence<T(==)>(xs: seq<T>, ys: seq<T>) {
    xs == [] ||
    (ys != [] &&
     var front, last := ys[..|ys| - 1], ys[|ys| - 1];
     Subsequence(xs, front) || (xs[|xs| - 1] == last && Subsequence(xs[..|xs| - 1], front)))
  }

  lemma {:induction false} PrefixOfSubsequence<T>(xs: seq<T>, more: seq<T>, ys: seq<T>)
    requires Subsequence(xs + more, ys)
    ensures Subsequence(xs, ys)
  {
    if more == [] {
      assert xs + more == xs;
    } else if xs != [] {
      var front := ys[..|ys| - 1];
      if Subsequence(xs + more, front) {
        PrefixOfSubsequence(xs, more, front);
      } else {
        assert (xs + more)[..|xs + more| - 1] == xs + more[..|more| - 1];
        PrefixOfSubsequence(xs, more[..|more| - 1], front);
      }
    }
  }

  lemma {:induction false} AcceptedOfSent(link: Link, ops: seq<Op>, junk: Message -> Packet)
    requires Valid(link, ops)
    ensures var accepted := Enqueued(Effects(link, ops, junk));
            && Subsequence(accepted, Sent(ops))
            && |accepted| <= |Sent(ops)|
            && (|accepted| == |Sent(ops)| ==> accepted == Sent(ops))
            && (|accepted| < |Sent(ops)| <==> !NothingLost(link.senderWaits, ops))
  {
    hide Enabled, Next;
    if ops != [] {
      var front, last := ops[..|ops| - 1], ops[|ops| - 1];
      AcceptedOfSent(link, front, junk);
      FlagsAsLastSet(link, front);
      LostOfFront(link.senderWaits, ops);
      var mid := Final(link, front);
      var before, effect := Effects(link, front, junk), Effect(mid, last, junk);
      var added := if last.Send? && Accepts(mid.senderWaits, last.ready, last.packet) then [last.packet] else [];
      assert Enqueued(effect) == added by { EffectEnqueues(mid, last, junk); }
      ConcatHistories(before, effect);
      assert Sent(ops) == Sent(front) + if last.Send? then [last.packet] else [];
      assert Enqueued(Effects(link, ops, junk)) == Enqueued(before) + added;
      hide Enqueued, Effects, Effect, Sent, NothingLost, SenderWaits, ReceiverWaits;
      SubsequenceStep(Enqueued(before), Sent(front), last, added);
    }
  }

  /** The accepted packets are those of the sends that are not lost. */
  lemma {:induction false} UnlostAreAccepted(link: Link, ops: seq<Op>, junk: Message -> Packet)
    requires Valid(link, ops)
    ensures Enqueued(Effects(link, ops, junk)) == Unlost(link.senderWaits, ops)
  {
    hide Enabled, Next, SenderWaits, ReceiverWaits;
    if ops == [] {
      NoHistory<Packet>();
    } else {
      var front, last := ops[..|ops| - 1], ops[|ops| - 1];
      UnlostAreAccepted(link, front, junk);
      FlagsAsLastSet(link, front);
      EffectEnqueues(Final(link, front), last, junk);
      ConcatHistories(Effects(link, front, junk), Effect(Final(link, front), last, junk));
      hide Enqueued, Effect;
    }
  }

  lemma EffectEnqueues(link: Link, op: Op, junk: Message -> Packet)
    requires Enabled(link, op)
    ensures Enqueued(Effect(link, op, junk)) ==
            if op.Send? && Accepts(link.senderWaits, op.ready, op.packet) then [op.packet] else []
  {
  }

  lemma SubsequenceStep(xs: seq<Packet>, ys: seq<Packet>, op: Op, added: seq<Packet>)
    requires Subsequence(xs, ys)
    requires added == [] || (op.Send? && added == [op.packet])
    ensures Subsequence(xs + added, ys + if op.Send? then [op.packet] else [])
  {
    assert xs + [] == xs && ys + [] == ys;
    if op.Send? {
      assert (ys + [op.packet])[..|ys|] == ys;
      assert (xs + [op.packet])[..|xs|] == xs;
    }
  }

  /**
   * In any mix of modes: what was received, then what is still on the wire, is exactly what was accepted, in
   * order, and that is every packet that was not lost when it was sent. Received packets are a subsequence of
   * the sent ones, and nothing is missing exactly when no packet was lost.
   */
  lemma Delivery(ops: seq<Op>, senderWaits: bool, receiverWaits: bool, junk: Message -> Packet)
    requires Valid(Link(Wire([], []), senderWaits, receiverWaits), ops)
    ensures var start := Link(Wire([], []), senderWaits, receiverWaits);
            var effects := Effects(start, ops, junk);
            var pending := DecodeAll(Everything(Final(start, ops).wire), junk);
            && Dequeued(effects) + pending == Enqueued(effects) == Unlost(senderWaits, ops)
            && Subsequence(Dequeued(effects), Sent(ops))
            && (Dequeued(effects) + pending == Sent(ops) <==> NothingLost(senderWaits, ops))
  {
    var start := Link(Wire([], []), senderWaits, receiverWaits);
    var effects := Effects(start, ops, junk);
    var queue := ApplyAll([], effects);
    RunIsQueue(start, ops, [], junk);
    DecodeCarried(Everything(Final(start, ops).wire), queue, junk);
    Conservation([], effects);
    AcceptedOfSent(start, ops, junk);
    UnlostAreAccepted(start, ops, junk);
    hide Enqueued, Dequeued, Effects, ApplyAll, Sent, NothingLost, Unlost;
    assert [] + Enqueued(effects) == Enqueued(effects);
    PrefixOfSubsequence(Dequeued(effects), queue, Sent(ops));
  }

  /** Sending and setting a flag are always possible. */
  lemma {:induction false} SendsAreValid(link: Link, ops: seq<Op>)
    requires forall i | 0 <= i < |ops| :: !ops[i].Arrive? && !ops[i].Receive?
    ensures Valid(link, ops)
  {
    if ops != [] {
      SendsAreValid(link, ops[..|ops| - 1]);
    }
  }

  /** Receiving is possible exactly when the receiver does not wait or some message was accepted and not received. */
  lemma ReceivePossible(link: Link)
    ensures (exists late :: Enabled(link, Receive(late))) <==> !link.receiverWaits || Everything(link.wire) != []
  {
    var all := |link.wire.inFlight|;
    assert Pool(link.wire, all) == Everything(link.wire);
    assert !link.receiverWaits || Everything(link.wire) != [] ==> Enabled(link, Receive(all));
  }

  predicate OnlyReceives(ops: seq<Op>) {
    forall i | 0 <= i < |ops| :: ops[i].Arrive? || ops[i] == Receive(0)
  }

  lemma {:induction false} ReceivesSendNothing(ops: seq<Op>)
    requires OnlyReceives(ops)
    ensures Sent(ops) == []
  {
    if ops != [] {
      ReceivesSendNothing(ops[..|ops| - 1]);
    }
  }

  lemma Extend(link: Link, ops: seq<Op>, op: Op)
    requires Valid(link, ops) && Enabled(Final(link, ops), op)
    ensures Valid(link, ops + [op]) && Final(link, ops + [op]) == Next(Final(link, ops), op)
  {
    hide Enabled, Next;
    assert (ops + [op])[..|ops + [op]| - 1] == ops;
  }

  /** From any state, in either mode, messages can arrive and be received until everything accepted is received. */
  lemma EverythingCanBeReceived(link: Link, queue: seq<Packet>, junk: Message -> Packet) returns (ops: seq<Op>)
    requires Carries(Everything(link.wire), queue)
    ensures Valid(link, ops) && OnlyReceives(ops)
    ensures Dequeued(Effects(link, ops, junk)) == queue && Everything(Final(link, ops).wire) == []
  {
    ops := [];
    while Everything(Final(link, ops).wire) != []
      invariant Valid(link, ops) && OnlyReceives(ops)
      decreases 2 * |Final(link, ops).wire.inFlight| + |Final(link, ops).wire.arrived|
    {
      hide Effects, Carries, Sent;
      var op := if Final(link, ops).wire.inFlight != [] then Arrive else Receive(0);
      Extend(link, ops, op);
      ops := ops + [op];
    }
    var effects := Effects(link, ops, junk);
    RunIsQueue(link, ops, queue, junk);
    ReceivesSendNothing(ops);
    AcceptedOfSent(link, ops, junk);
    Conservation(queue, effects);
    CarriesLength(Everything(Final(link, ops).wire), ApplyAll(queue, effects));
    hide Effects, Enqueued, Dequeued, ApplyAll, Carries, Everything, Final, Valid;
    assert queue + [] == queue && Dequeued(effects) + [] == Dequeued(effects);
  }

  /**
   * A waiting receive returns the oldest packet and nothing else; a draining one returns everything that had
   * arrived or arrives meanwhile. A receive returns all it could get exactly when it drains or there is only
   * one packet to get.
   */
  lemma ReceiveModes(link: Link, late: nat, queue: seq<Packet>, junk: Message -> Packet)
    requires Carries(Everything(link.wire), queue) && Enabled(link, Receive(late))
    ensures var got := Dequeued(Effect(link, Receive(late), junk));
            var available := |Pool(link.wire, late)|;
            && available <= |queue| && queue[..available] == DecodeAll(Pool(link.wire, late), junk)
            && got == (if link.receiverWaits then queue[..1] else queue[..available])
            && (got == queue[..available] <==> !link.receiverWaits || available == 1)
            && (Next(link, Receive(late)).wire.arrived == [] <==> got == queue[..available])
  {
    hide Carries, DecodeAll;
    var pool := Pool(link.wire, late);
    var taken := Taken(link.wire, link.receiverWaits, late);
    PoolSplits(link.wire, late);
    CarriesPrefix(pool, link.wire.inFlight[late..], queue, junk);
    CarriesLength(Everything(link.wire), queue);
    ReceiveSplits(link.wire, link.receiverWaits, late);
    CarriesPrefix(taken, Everything(AfterReceive(link.wire, link.receiverWaits, late)), queue, junk);
    NoHistory<Packet>();
    HistoryExtended([], Dequeue(DecodeAll(taken, junk)));
    assert [] + [Dequeue(DecodeAll(taken, junk))] == Effect(link, Receive(late), junk);
  }

  /** Two packets have arrived: a waiting receive leaves the second one behind. */
  lemma WaitingReceiveLeavesPackets(p: Packet, q: Packet, junk: Message -> Packet)
    requires Allocatable(p) && Allocatable(q)
    ensures var link := Link(Wire([Serialized(p), Serialized(q)], []), true, true);
            && Enabled(link, Receive(0))
            && Dequeued(Effect(link, Receive(0), junk)) == [p]
            && Next(link, Receive(0)).wire.arrived == [Serialized(q)]
  {
    hide Serialized, Decode;
    var link := Link(Wire([Serialized(p), Serialized(q)], []), true, true);
    ReceiveModes(link, 0, [p, q], junk);
    assert Pool(link.wire, 0) == [Serialized(p), Serialized(q)];
  }
}
