/**
 * The shared-memory transport as a step system: any number of handles on one name, any number of
 * calls in flight, each call with its own program counter. A run is any interleaving of steps.
 */
module SharedMemory {
  import opened PacketCodec
  import opened Wrappers
  import opened FifoQueue

  // ---------- State ----------

  /** What lives in one generation of the named segment. */
  datatype Segment = Segment(store: seq<Packet>, count: int)

  /** The segment and the mutex that a transport object opened, by their position in the memory. */
  datatype Handle = Handle(segment: nat, mutex: nat)

  datatype Pc =
    | SendWaiting(packet: Packet)
    | SendBuilding(packet: Packet)
    | SendBuilt(packet: Packet, internal: Packet)
    | SendDone(packet: Packet)
    | ReceiveWaiting
    | ReceiveCopying(next: nat, received: seq<Packet>)
    | ReceiveDone(received: seq<Packet>)
  {
    /** The call holds the scoped lock. */
    predicate Critical() {
      !SendWaiting? && !ReceiveWaiting?
    }
  }

  datatype Call = Call(handle: nat, pc: Pc)

  datatype Memory = Memory(
    segments: seq<Segment>,         // every generation ever created
    owners: seq<Option<nat>>,       // every mutex ever created, with the call that holds it
    segmentName: Option<nat>,       // what the segment's name is bound to
    mutexName: Option<nat>,         // what the mutex's name is bound to
    live: map<nat, Handle>,
    crashed: map<nat, Handle>,      // handles whose process ended without a destructor
    calls: map<nat, Call>)

  /** References resolve. */
  predicate Linked(m: Memory) {
    && (m.segmentName.Some? ==> m.segmentName.value < |m.segments|)
    && (m.mutexName.Some? ==> m.mutexName.value < |m.owners|)
    && (forall h | h in m.live :: m.live[h].segment < |m.segments| && m.live[h].mutex < |m.owners|)
    && (forall h | h in m.crashed :: m.crashed[h].segment < |m.segments|)
    && (forall h | h in m.live :: h !in m.crashed)
    && (forall c | c in m.calls :: m.calls[c].handle in m.live)
  }

  type State = m: Memory | Linked(m) witness Memory([], [], None, None, map[], map[], map[])

  const EMPTY: State := Memory([], [], None, None, map[], map[], map[])

  function SegmentOf(s: State, c: nat): (g: nat)
    requires c in s.calls
    ensures g < |s.segments|
  {
    s.live[s.calls[c].handle].segment
  }

  function MutexOf(s: State, c: nat): (i: nat)
    requires c in s.calls
    ensures i < |s.owners|
  {
    s.live[s.calls[c].handle].mutex
  }

  function Store(s: State, g: nat): seq<Packet> {
    if g < |s.segments| then s.segments[g].store else []
  }

  // ---------- Steps ----------

  datatype Step =
    | Open(h: nat)
    | Close(h: nat)
    | Destroy
    | Crash(h: nat)
    | BeginSend(c: nat, h: nat, packet: Packet)
    | BeginReceive(c: nat, h: nat)
    | Lock(c: nat)
    | Build(c: nat)
    | Push(c: nat)
    | Copy(c: nat)
    | Clear(c: nat)
    | Unlock(c: nat)
    | Abort(c: nat)   // an allocation failed; the exception releases the scoped lock

  predicate Enabled(s: State, step: Step) {
    match step
    case Open(h) => h !in s.live && h !in s.crashed
    case Close(h) => h in s.live && forall c | c in s.calls :: s.calls[c].handle != h
    case Destroy => true
    case Crash(h) => h in s.live && forall c | c in s.calls && s.calls[c].handle == h :: !s.calls[c].pc.Critical()
    case BeginSend(c, h, _) => c !in s.calls && h in s.live
    case BeginReceive(c, h) => c !in s.calls && h in s.live
    case Lock(c) => c in s.calls && !s.calls[c].pc.Critical() && s.owners[MutexOf(s, c)].None?
    case Build(c) => c in s.calls && s.calls[c].pc.SendBuilding?
    case Push(c) => c in s.calls && s.calls[c].pc.SendBuilt?
    case Copy(c) => c in s.calls && s.calls[c].pc.ReceiveCopying? && s.calls[c].pc.next < |Store(s, SegmentOf(s, c))|
    case Clear(c) => c in s.calls && s.calls[c].pc.ReceiveCopying? && s.calls[c].pc.next >= |Store(s, SegmentOf(s, c))|
    case Unlock(c) => c in s.calls && (s.calls[c].pc.SendDone? || s.calls[c].pc.ReceiveDone?)
    case Abort(c) =>
      c in s.calls && (s.calls[c].pc.SendBuilding? || s.calls[c].pc.SendBuilt? || s.calls[c].pc.ReceiveCopying?)
  }

  /** Opening the segment, finding or constructing its two objects, and counting the new handle. */
  function Attach(found: Option<Segment>): Segment {
    var segment := found.GetOr(Segment([], 0));
    segment.(count := segment.count + 1)
  }

  function Detach(segment: Segment): Segment {
    segment.(count := segment.count - 1)
  }

  function WithPc(s: State, c: nat, pc: Pc): State
    requires c in s.calls
  {
    s.(calls := s.calls[c := s.calls[c].(pc := pc)])
  }

  function WithStore(s: State, c: nat, store: seq<Packet>): State
    requires c in s.calls
  {
    var g := SegmentOf(s, c);
    s.(segments := s.segments[g := s.segments[g].(store := store)])
  }

  /** The scoped lock is released and the call ends. */
  function Leave(s: State, c: nat): State
    requires c in s.calls
  {
    s.(owners := s.owners[MutexOf(s, c) := None], calls := s.calls - {c})
  }

  function OpenHandle(s: State, h: nat): State
    requires Enabled(s, Open(h))
  {
    var g := s.segmentName.GetOr(|s.segments|);
    var i := s.mutexName.GetOr(|s.owners|);
    s.(segments := if g < |s.segments| then s.segments[g := Attach(Some(s.segments[g]))]
                   else s.segments + [Attach(None)],
       owners := if i < |s.owners| then s.owners else s.owners + [None],
       segmentName := Some(g),
       mutexName := Some(i),
       live := s.live[h := Handle(g, i)])
  }

  /** The last handle of a generation removes both names, whatever they are bound to by then. */
  function CloseHandle(s: State, h: nat): State
    requires Enabled(s, Close(h))
  {
    var g := s.live[h].segment;
    var segment := Detach(s.segments[g]);
    var closed := s.(segments := s.segments[g := segment], live := s.live - {h});
    if segment.count == 0 then closed.(segmentName := None, mutexName := None) else closed
  }

  function Next(s: State, step: Step): State
    requires Enabled(s, step)
  {
    match step
    case Open(h) => OpenHandle(s, h)
    case Close(h) => CloseHandle(s, h)
    case Destroy => s.(segmentName := None, mutexName := None)
    case Crash(h) =>
      s.(live := s.live - {h},
         crashed := s.crashed[h := s.live[h]],
         calls := map c | c in s.calls && s.calls[c].handle != h :: s.calls[c])
    case BeginSend(c, h, packet) => s.(calls := s.calls[c := Call(h, SendWaiting(packet))])
    case BeginReceive(c, h) => s.(calls := s.calls[c := Call(h, ReceiveWaiting)])
    case Lock(c) =>
      var pc := s.calls[c].pc;
      var entered := if pc.SendWaiting? then SendBuilding(pc.packet) else ReceiveCopying(0, []);
      WithPc(s, c, entered).(owners := s.owners[MutexOf(s, c) := Some(c)])
    case Build(c) =>
      var packet := s.calls[c].pc.packet;
      WithPc(s, c, SendBuilt(packet, Packet(packet.schema, packet.data)))
    case Push(c) =>
      var pc := s.calls[c].pc;
      WithStore(WithPc(s, c, SendDone(pc.packet)), c, Store(s, SegmentOf(s, c)) + [pc.internal])
    case Copy(c) =>
      var pc := s.calls[c].pc;
      var element := Store(s, SegmentOf(s, c))[pc.next];
      WithPc(s, c, ReceiveCopying(pc.next + 1, pc.received + [Packet(element.schema, element.data)]))
    case Clear(c) => WithStore(WithPc(s, c, ReceiveDone(s.calls[c].pc.received)), c, [])
    case Unlock(c) => Leave(s, c)
    case Abort(c) => Leave(s, c)
  }

  // ---------- Runs ----------

  /** From `s`, every step is enabled when its turn comes. */
  predicate Valid(s: State, steps: seq<Step>)
    decreases |steps|, 0
  {
    steps != [] ==>
      Valid(s, steps[..|steps| - 1]) && Enabled(Final(s, steps[..|steps| - 1]), steps[|steps| - 1])
  }

  function Final(s: State, steps: seq<Step>): State
    requires Valid(s, steps)
    decreases |steps|, 1
  {
    if steps == [] then s else Next(Final(s, steps[..|steps| - 1]), steps[|steps| - 1])
  }

  /** What a step does to the queue of generation `g`, labelled by the call's own argument or result. */
  function Effect(s: State, step: Step, g: nat): seq<Event<Packet>>
    requires Enabled(s, step)
  {
    match step
    case Push(c) => if SegmentOf(s, c) == g then [Enqueue(s.calls[c].pc.packet)] else []
    case Clear(c) => if SegmentOf(s, c) == g then [Dequeue(s.calls[c].pc.received)] else []
    case _ => []
  }

  /** What a caller on generation `g` observes when its call returns. */
  function Reply(s: State, step: Step, g: nat): seq<Event<Packet>>
    requires Enabled(s, step)
  {
    match step
    case Unlock(c) => if SegmentOf(s, c) == g then ReplyOf(s.calls[c].pc) else []
    case _ => []
  }

  function ReplyOf(pc: Pc): seq<Event<Packet>> {
    match pc
    case SendDone(packet) => [Enqueue(packet)]
    case ReceiveDone(received) => [Dequeue(received)]
    case _ => []
  }

  /** The reply of a call that has taken effect on `g` and not returned yet. */
  function PendingReply(s: State, g: nat): seq<Event<Packet>> {
    if g < |s.owners| && s.owners[g].Some? && s.owners[g].value in s.calls
    then ReplyOf(s.calls[s.owners[g].value].pc)
    else []
  }

  function Effects(s: State, steps: seq<Step>, g: nat): seq<Event<Packet>>
    requires Valid(s, steps)
  {
    if steps == [] then []
    else
      var front, last := steps[..|steps| - 1], steps[|steps| - 1];
      Effects(s, front, g) + Effect(Final(s, front), last, g)
  }

  function Replies(s: State, steps: seq<Step>, g: nat): seq<Event<Packet>>
    requires Valid(s, steps)
  {
    if steps == [] then []
    else
      var front, last := steps[..|steps| - 1], steps[|steps| - 1];
      Replies(s, front, g) + Reply(Final(s, front), last, g)
  }

  lemma Extend(s: State, steps: seq<Step>, step: Step, g: nat)
    requires Valid(s, steps) && Enabled(Final(s, steps), step)
    ensures Valid(s, steps + [step])
    ensures Final(s, steps + [step]) == Next(Final(s, steps), step)
    ensures Effects(s, steps + [step], g) == Effects(s, steps, g) + Effect(Final(s, steps), step, g)
  {
    hide Linked, Enabled, Next, Effect;
    var all := steps + [step];
    assert all[..|all| - 1] == steps;
  }

  /** A run may be cut anywhere. */
  lemma {:induction false} RunConcat(s: State, xs: seq<Step>, ys: seq<Step>)
    requires Valid(s, xs) && Valid(Final(s, xs), ys)
    ensures Valid(s, xs + ys) && Final(s, xs + ys) == Final(Final(s, xs), ys)
  {
    hide Linked, Enabled, Next;
    if ys == [] {
      assert xs + ys == xs;
    } else {
      var front, last := ys[..|ys| - 1], ys[|ys| - 1];
      RunConcat(s, xs, front);
      var n := |xs + ys| - 1;
      assert (xs + ys)[..n] == xs + front && (xs + ys)[n] == last;
    }
  }

  lemma {:induction false} EffectsConcat(s: State, xs: seq<Step>, ys: seq<Step>, g: nat)
    requires Valid(s, xs) && Valid(Final(s, xs), ys)
    ensures Valid(s, xs + ys)
    ensures Effects(s, xs + ys, g) == Effects(s, xs, g) + Effects(Final(s, xs), ys, g)
  {
    hide Linked, Enabled, Next, Effect;
    RunConcat(s, xs, ys);
    if ys == [] {
      assert xs + ys == xs;
    } else {
      var front, last := ys[..|ys| - 1], ys[|ys| - 1];
      EffectsConcat(s, xs, front, g);
      RunConcat(s, xs, front);
      hide Final, Valid;
      var n := |xs + ys| - 1;
      assert (xs + ys)[..n] == xs + front && (xs + ys)[n] == last;
      var effect := Effect(Final(s, xs + front), last, g);
      assert Effects(s, xs + ys, g) == Effects(s, xs + front, g) + effect;
      assert Effects(Final(s, xs), ys, g) == Effects(Final(s, xs), front, g) + effect;
    }
  }

  lemma {:induction false} RepliesConcat(s: State, xs: seq<Step>, ys: seq<Step>, g: nat)
    requires Valid(s, xs) && Valid(Final(s, xs), ys)
    ensures Valid(s, xs + ys)
    ensures Replies(s, xs + ys, g) == Replies(s, xs, g) + Replies(Final(s, xs), ys, g)
  {
    hide Linked, Enabled, Next, Reply;
    RunConcat(s, xs, ys);
    if ys == [] {
      assert xs + ys == xs;
    } else {
      var front, last := ys[..|ys| - 1], ys[|ys| - 1];
      RepliesConcat(s, xs, front, g);
      RunConcat(s, xs, front);
      hide Final, Valid;
      var n := |xs + ys| - 1;
      assert (xs + ys)[..n] == xs + front && (xs + ys)[n] == last;
      var reply := Reply(Final(s, xs + front), last, g);
      assert Replies(s, xs + ys, g) == Replies(s, xs + front, g) + reply;
      assert Replies(Final(s, xs), ys, g) == Replies(Final(s, xs), front, g) + reply;
    }
  }

  /** A run that starts with one step. */
  lemma StartWith(s: State, step: Step, rest: seq<Step>, g: nat)
    requires Enabled(s, step) && Valid(Next(s, step), rest)
    ensures Valid(s, [step] + rest)
    ensures Final(s, [step] + rest) == Final(Next(s, step), rest)
    ensures Effects(s, [step] + rest, g) == Effect(s, step, g) + Effects(Next(s, step), rest, g)
  {
    hide Linked, Enabled, Next, Effect;
    assert [] + [step] == [step];
    Extend(s, [], step, g);
    RunConcat(s, [step], rest);
    EffectsConcat(s, [step], rest, g);
  }
}
