/** What each caller asked for, told from the steps that began the calls, and whether that is what it got. */
module SharedMemoryCalls {
  import opened PacketCodec
  import opened Wrappers
  import opened FifoQueue
  import opened SharedMemory
  import opened SharedMemoryInvariants

  /** The step that began call `c`; the most recent one, since numbers of returned calls can be used again. */
  function Begun(steps: seq<Step>, c: nat): (begin: Option<Step>)
    ensures begin.Some? ==> Begins(begin.value) && begin.value.c == c
  {
    if steps == [] then None
    else
      var last := steps[|steps| - 1];
      if Begins(last) && last.c == c then Some(last) else Begun(steps[..|steps| - 1], c)
  }

  /** The argument that a send carries through its critical section; a receive has none. */
  function Argument(pc: Pc): Option<Packet> {
    match pc
    case SendWaiting(packet) => Some(packet)
    case SendBuilding(packet) => Some(packet)
    case SendBuilt(packet, _) => Some(packet)
    case SendDone(packet) => Some(packet)
    case _ => None
  }

  /** The call works on the handle and with the argument of the step that began it. */
  predicate Serves(call: Call, begin: Step) {
    match begin
    case BeginSend(_, h, packet) => call.handle == h && Argument(call.pc) == Some(packet)
    case BeginReceive(_, h) => call.handle == h && Argument(call.pc) == None
    case _ => false
  }

  lemma StepServes(s: State, step: Step, c: nat)
    requires Enabled(s, step) && c in Next(s, step).calls
    ensures var call := Next(s, step).calls[c];
            if Begins(step) && step.c == c then Serves(call, step)
            else c in s.calls && call.handle == s.calls[c].handle && Argument(call.pc) == Argument(s.calls[c].pc)
  {
    if Lifecycle(step) {
      LifecycleFrame(s, step);
      hide Next, Enabled;
    }
  }

  /** In every run, each call in flight serves the step that began it. */
  lemma {:induction false} CallsServe(steps: seq<Step>, c: nat)
    requires Valid(EMPTY, steps) && c in Final(EMPTY, steps).calls
    ensures Begun(steps, c).Some? && Serves(Final(EMPTY, steps).calls[c], Begun(steps, c).value)
  {
    hide Linked, Enabled, Next, Argument;
    if steps != [] {
      var front, last := steps[..|steps| - 1], steps[|steps| - 1];
      StepServes(Final(EMPTY, front), last, c);
      if !(Begins(last) && last.c == c) {
        CallsServe(front, c);
      }
    }
  }

  // ---------- Calls that have returned ----------

  /** The call, if its handle is on generation `g`. */
  function OnGeneration(s: State, begin: Option<Step>, g: nat): seq<Step>
    requires begin.Some? ==> Begins(begin.value)
  {
    if begin.Some? && begin.value.h in s.live && s.live[begin.value.h].segment == g then [begin.value] else []
  }

  /** The calls on `g` that have returned without failing, in the order of their returns. */
  function Returned(steps: seq<Step>, g: nat): seq<Step>
    requires Valid(EMPTY, steps)
  {
    if steps == [] then []
    else
      var front, last := steps[..|steps| - 1], steps[|steps| - 1];
      Returned(front, g) +
      if last.Unlock? then OnGeneration(Final(EMPTY, front), Begun(front, last.c), g) else []
  }

  /** The call on `g` that has taken effect and not returned yet, if there is one. */
  function Unreported(steps: seq<Step>, g: nat): seq<Step>
    requires Valid(EMPTY, steps)
  {
    var s := Final(EMPTY, steps);
    if PendingReply(s, g) != [] then OnGeneration(s, Begun(steps, s.owners[g].value), g) else []
  }

  /** The packets that the sends among the calls were given. */
  function Arguments(begins: seq<Step>): seq<Packet> {
    if begins == [] then []
    else
      var last := begins[|begins| - 1];
      Arguments(begins[..|begins| - 1]) + if last.BeginSend? then [last.packet] else []
  }

  /** Every call has its own reply: a send that its argument was put in, a receive that a batch was taken out. */
  predicate Answers(begins: seq<Step>, replies: seq<Event<Packet>>) {
    && |begins| == |replies|
    && forall i | 0 <= i < |begins| ::
         match begins[i]
         case BeginSend(_, _, packet) => replies[i] == Enqueue(packet)
         case BeginReceive(_, _) => replies[i].Dequeue?
         case _ => false
  }

  lemma AnswersConcat(xs: seq<Step>, ys: seq<Step>, events: seq<Event<Packet>>, more: seq<Event<Packet>>)
    requires Answers(xs, events) && Answers(ys, more)
    ensures Answers(xs + ys, events + more)
  {
  }

  lemma {:induction false} AnswersToArguments(begins: seq<Step>, replies: seq<Event<Packet>>)
    requires Answers(begins, replies)
    ensures Enqueued(replies) == Arguments(begins)
  {
    if begins != [] {
      AnswersToArguments(begins[..|begins| - 1], replies[..|replies| - 1]);
    }
  }

  lemma ReplyAnswers(s: State, c: nat, begin: Step, g: nat)
    requires Enabled(s, Unlock(c)) && Begins(begin) && Serves(s.calls[c], begin)
    ensures Answers(OnGeneration(s, Some(begin), g), Reply(s, Unlock(c), g))
  {
  }

  /** In every run, the replies on a generation answer exactly the calls that have returned, each its own. */
  lemma {:induction false} RepliesAnswerCalls(steps: seq<Step>, g: nat)
    requires Valid(EMPTY, steps)
    ensures Answers(Returned(steps, g), Replies(EMPTY, steps, g))
  {
    hide Linked, Enabled, Next, Reply, Serves, OnGeneration;
    if steps != [] {
      var front, last := steps[..|steps| - 1], steps[|steps| - 1];
      var mid := Final(EMPTY, front);
      RepliesAnswerCalls(front, g);
      if last.Unlock? {
        UnlocksOwnCall(mid, last.c);
        CallsServe(front, last.c);
        ReplyAnswers(mid, last.c, Begun(front, last.c).value, g);
        AnswersConcat(Returned(front, g), OnGeneration(mid, Begun(front, last.c), g),
                      Replies(EMPTY, front, g), Reply(mid, last, g));
      } else {
        NoReply(mid, last, g);
      }
    }
  }

  lemma UnlocksOwnCall(s: State, c: nat)
    requires Enabled(s, Unlock(c))
    ensures c in s.calls
  {
  }

  lemma NoReply(s: State, step: Step, g: nat)
    requires Enabled(s, step) && !step.Unlock?
    ensures Reply(s, step, g) == []
  {
  }

  lemma PendingAnswers(s: State, begin: Step, g: nat)
    requires Inv(s) && PendingReply(s, g) != [] && Begins(begin) && Serves(s.calls[s.owners[g].value], begin)
    ensures Answers(OnGeneration(s, Some(begin), g), PendingReply(s, g))
  {
    hide Progressing, Counted;
    var c := s.owners[g].value;
    assert c in s.calls && MutexOf(s, c) == g;
    assert SegmentOf(s, c) == g;
  }

  lemma UnreportedAnswered(steps: seq<Step>, g: nat)
    requires Valid(EMPTY, steps)
    ensures Answers(Unreported(steps, g), PendingReply(Final(EMPTY, steps), g))
  {
    EmptyInv();
    InvOfRun(EMPTY, steps);
    var s := Final(EMPTY, steps);
    if PendingReply(s, g) != [] {
      var c := s.owners[g].value;
      CallsServe(steps, c);
      hide Inv, Linked, Serves, OnGeneration, PendingReply, Final, Valid, Begun;
      PendingAnswers(s, Begun(steps, c).value, g);
    }
  }
}
