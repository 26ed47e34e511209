/** The shared-memory system delivers every packet exactly once and in order, and never blocks for good. */
module SharedMemoryDelivery {
  import opened PacketCodec
  import opened Wrappers
  import opened FifoQueue
  import opened SharedMemory
  import opened SharedMemoryInvariants
  import opened SharedMemoryCalls

  // ---------- Refinement of the atomic queue ----------

  lemma MoveRefinesQueue(s: State, step: Step, g: nat)
    requires Progressing(s) && Enabled(s, step) && Moves(step)
    ensures Draining(Store(s, g), Effect(s, step, g))
    ensures Store(Next(s, step), g) == ApplyAll(Store(s, g), Effect(s, step, g))
  {
    MoveFrame(s, step);
    var c := step.c;
    assert PcMatches(s.calls[c].pc, Store(s, SegmentOf(s, c)));
    hide Progressing;
    if SegmentOf(s, c) != g {
      assert Effect(s, step, g) == [];
      hide Next;
    } else if step.Push? {
      assert Effect(s, step, g) == [Enqueue(s.calls[c].pc.packet)];
      assert ApplyAll(Store(s, g), []) == Store(s, g);
    } else if step.Clear? {
      var received := s.calls[c].pc.received;
      assert received == Store(s, g);
      assert Effect(s, step, g) == [Dequeue(received)];
      assert ApplyAll(Store(s, g), []) == Store(s, g);
    }
  }

  lemma OtherStepsKeepStores(s: State, step: Step, g: nat)
    requires Enabled(s, step) && !Moves(step)
    ensures Effect(s, step, g) == [] && Store(Next(s, step), g) == Store(s, g)
  {
    if Lifecycle(step) {
      LifecycleFrame(s, step);
      hide Next, Store;
    }
  }

  /** A step that has an effect on `g` acts on its store like the atomic queue; no other step touches the store. */
  lemma StepRefinesQueue(s: State, step: Step, g: nat)
    requires Inv(s) && Enabled(s, step)
    ensures Draining(Store(s, g), Effect(s, step, g))
    ensures Store(Next(s, step), g) == ApplyAll(Store(s, g), Effect(s, step, g))
  {
    hide Enabled, Next, Effect, Store;
    if Moves(step) {
      MoveRefinesQueue(s, step, g);
    } else {
      OtherStepsKeepStores(s, step, g);
    }
  }

  /**
   * Every interleaving of the small steps acts on each generation like a run of the atomic queue,
   * in which a send takes effect at its push and a receive takes the whole queue at its clear.
   */
  lemma {:induction false} RunRefinesQueue(s: State, steps: seq<Step>, g: nat)
    requires Inv(s) && Valid(s, steps)
    ensures Draining(Store(s, g), Effects(s, steps, g))
    ensures Store(Final(s, steps), g) == ApplyAll(Store(s, g), Effects(s, steps, g))
  {
    hide Linked, Inv, Enabled, Next, Effect, Store;
    if steps != [] {
      var front, last := steps[..|steps| - 1], steps[|steps| - 1];
      RunRefinesQueue(s, front, g);
      InvOfRun(s, front);
      StepRefinesQueue(Final(s, front), last, g);
      ConcatDraining(Store(s, g), Effects(s, front, g), Effect(Final(s, front), last, g));
    }
  }

  // ---------- What callers observe ----------

  /** Lifecycle steps, waiting calls and entered locks leave the pending replies alone. */
  lemma PendingReplyUnchanged(s: State, step: Step, g: nat)
    requires Inv(s) && Enabled(s, step) && (Lifecycle(step) || Begins(step) || step.Lock?)
    ensures PendingReply(Next(s, step), g) == PendingReply(s, g)
  {
    hide Progressing, Counted;
    var t := Next(s, step);
    if g < |s.owners| && s.owners[g].Some? {
      var d := s.owners[g].value;
      assert d in s.calls && s.calls[d].pc.Critical() && MutexOf(s, d) == g;
      if Lifecycle(step) {
        LifecycleFrame(s, step);
        hide Next, Enabled;
      } else {
        assert d in t.calls && t.calls[d] == s.calls[d];
      }
    } else if Lifecycle(step) {
      LifecycleFrame(s, step);
      hide Next, Enabled;
    }
  }

  /** A move of a call on `g` turns its effect, if it has one, into the pending reply. */
  lemma PendingReplyOfMove(s: State, step: Step, g: nat)
    requires Inv(s) && Enabled(s, step) && Moves(step)
    ensures PendingReply(s, g) + Effect(s, step, g) == PendingReply(Next(s, step), g)
  {
    hide Progressing, Counted;
    var t, c := Next(s, step), step.c;
    MoveFrame(s, step);
    assert s.owners[MutexOf(s, c)] == Some(c);
    if SegmentOf(s, c) == g {
      assert ReplyOf(s.calls[c].pc) + Effect(s, step, g) == ReplyOf(t.calls[c].pc);
    } else {
      assert Effect(s, step, g) == [];
      hide Next, Enabled, ReplyOf;
      assert g < |s.owners| ==> s.owners[g] != Some(c);
    }
  }

  /** A call that returns reports its pending reply; one that aborts has none. */
  lemma PendingReplyOfLeave(s: State, step: Step, g: nat)
    requires Inv(s) && Enabled(s, step) && (step.Unlock? || step.Abort?)
    ensures PendingReply(s, g) == Reply(s, step, g) + PendingReply(Next(s, step), g)
  {
    hide Progressing, Counted;
    var c := step.c;
    assert Next(s, step) == Leave(s, c);
    assert s.owners[MutexOf(s, c)] == Some(c);
    if SegmentOf(s, c) != g {
      assert g < |s.owners| ==> s.owners[g] != Some(c);
    }
  }

  lemma StepReplies(s: State, step: Step, g: nat)
    requires Inv(s) && Enabled(s, step)
    ensures PendingReply(s, g) + Effect(s, step, g) == Reply(s, step, g) + PendingReply(Next(s, step), g)
  {
    if Lifecycle(step) || Begins(step) || step.Lock? {
      hide PendingReply, Inv;
      PendingReplyUnchanged(s, step, g);
      assert Effect(s, step, g) == [] && Reply(s, step, g) == [];
    } else if Moves(step) {
      hide PendingReply, Inv;
      PendingReplyOfMove(s, step, g);
      assert Reply(s, step, g) == [];
    } else {
      hide PendingReply, Inv;
      PendingReplyOfLeave(s, step, g);
      assert Effect(s, step, g) == [];
    }
  }

  /**
   * The replies that callers see are the effects, in the same order; at most one effect, that of the
   * call still holding the lock, has not been reported yet.
   */
  lemma {:induction false} RepliesFollowEffects(s: State, steps: seq<Step>, g: nat)
    requires Inv(s) && Valid(s, steps)
    ensures PendingReply(s, g) + Effects(s, steps, g) == Replies(s, steps, g) + PendingReply(Final(s, steps), g)
  {
    hide Linked, Inv, Enabled, Next, Effect, Reply, PendingReply;
    if steps == [] {
      assert PendingReply(s, g) + [] == [] + PendingReply(s, g);
    } else {
      var front, last := steps[..|steps| - 1], steps[|steps| - 1];
      var mid := Final(s, front);
      RepliesFollowEffects(s, front, g);
      InvOfRun(s, front);
      StepReplies(mid, last, g);
      calc {
        PendingReply(s, g) + Effects(s, steps, g);
        PendingReply(s, g) + Effects(s, front, g) + Effect(mid, last, g);
        Replies(s, front, g) + (PendingReply(mid, g) + Effect(mid, last, g));
        Replies(s, front, g) + Reply(mid, last, g) + PendingReply(Next(mid, last), g);
      }
    }
  }

  /**
   * Between any two states: what was stored, then what was pushed, is what was taken, then what is stored.
   */
  lemma RunConserves(s: State, steps: seq<Step>, g: nat)
    requires Inv(s) && Valid(s, steps)
    ensures Store(s, g) + Enqueued(Effects(s, steps, g)) == Dequeued(Effects(s, steps, g)) + Store(Final(s, steps), g)
  {
    RunRefinesQueue(s, steps, g);
    DrainingIsLegal(Store(s, g), Effects(s, steps, g));
    Conservation(Store(s, g), Effects(s, steps, g));
  }

  /**
   * Exactly-once delivery, in terms of what callers asked for and what they got: from the start, in every
   * interleaving, the packets that the returned sends (and the send about to return) were given are the batches
   * of the returned receives (and of the receive about to return) followed by the store.
   */
  lemma ExactlyOnce(steps: seq<Step>, g: nat)
    requires Valid(EMPTY, steps)
    ensures var end := Final(EMPTY, steps);
            var returned, unreported := Returned(steps, g), Unreported(steps, g);
            var replies, pending := Replies(EMPTY, steps, g), PendingReply(end, g);
            && Answers(returned, replies) && Answers(unreported, pending)
            && Arguments(returned) + Arguments(unreported) == Dequeued(replies) + Dequeued(pending) + Store(end, g)
            && Draining([], replies + pending)
  {
    EmptyInv();
    assert PendingReply(EMPTY, g) == [] && Store(EMPTY, g) == [];
    var end := Final(EMPTY, steps);
    var replies, pending := Replies(EMPTY, steps, g), PendingReply(end, g);
    RunConserves(EMPTY, steps, g);
    RunRefinesQueue(EMPTY, steps, g);
    RepliesFollowEffects(EMPTY, steps, g);
    RepliesAnswerCalls(steps, g);
    UnreportedAnswered(steps, g);
    hide Linked, Inv, Valid, Final, Replies, PendingReply, Effects, Store, Answers, Returned, Unreported;
    hide Enqueued, Dequeued, Draining, ApplyAll, Arguments;
    AnswersToArguments(Returned(steps, g), replies);
    AnswersToArguments(Unreported(steps, g), pending);
    assert [] + Effects(EMPTY, steps, g) == Effects(EMPTY, steps, g);
    ConcatHistories(replies, pending);
    assert [] + Enqueued(replies + pending) == Enqueued(replies + pending);
  }

  /** No call on `g` is inside its critical section. */
  predicate Quiet(s: State, g: nat) {
    forall c | c in s.calls && SegmentOf(s, c) == g :: !s.calls[c].pc.Critical()
  }

  lemma QuietHasNoPendingReply(s: State, g: nat)
    requires Inv(s) && Quiet(s, g)
    ensures PendingReply(s, g) == []
  {
  }

  /** With no call in its critical section, the packets sent are the packets received, then the store. */
  lemma ExactlyOnceWhenQuiet(steps: seq<Step>, g: nat)
    requires Valid(EMPTY, steps) && Quiet(Final(EMPTY, steps), g)
    ensures var replies := Replies(EMPTY, steps, g);
            && Answers(Returned(steps, g), replies)
            && Arguments(Returned(steps, g)) == Enqueued(replies) == Dequeued(replies) + Store(Final(EMPTY, steps), g)
            && Draining([], replies)
  {
    EmptyInv();
    InvOfRun(EMPTY, steps);
    QuietHasNoPendingReply(Final(EMPTY, steps), g);
    ExactlyOnce(steps, g);
    NothingToAnswer(Unreported(steps, g));
    hide Inv, Valid, Final, Replies, PendingReply, Quiet, Store, Answers, Returned, Unreported, Arguments;
    var replies, returned := Replies(EMPTY, steps, g), Returned(steps, g);
    AnswersToArguments(returned, replies);
    assert replies + [] == replies;
    NoHistory<Packet>();
    assert Dequeued(replies) + [] == Dequeued(replies);
    assert Arguments(returned) + [] == Arguments(returned);
  }

  lemma NothingToAnswer(begins: seq<Step>)
    ensures Answers(begins, []) ==> Arguments(begins) == []
  {
  }

  // ---------- What others cannot do to a critical section ----------

  /**
   * Only a call's own steps, and the crash of its process, touch a call in flight; while it is in its critical
   * section, they alone touch its store.
   */
  lemma CallIsUndisturbed(s: State, step: Step, c: nat)
    requires Inv(s) && Enabled(s, step) && c in s.calls
    requires step !in {Build(c), Push(c), Copy(c), Clear(c), Unlock(c), Abort(c)}
    requires !s.calls[c].pc.Critical() ==> step != Lock(c) && step != Crash(s.calls[c].handle)
    ensures var t := Next(s, step);
            && c in t.calls && t.calls[c] == s.calls[c]
            && SegmentOf(t, c) == SegmentOf(s, c) && MutexOf(t, c) == MutexOf(s, c)
            && (s.calls[c].pc.Critical() ==> Store(t, SegmentOf(t, c)) == Store(s, SegmentOf(s, c)))
  {
    hide Counted, Progressing;
    var t := Next(s, step);
    if Lifecycle(step) {
      assert c in t.calls;
      LifecycleFrame(s, step);
      hide Next, Enabled;
    } else if Moves(step) {
      MoveFrame(s, step);
      hide Next;
      if s.calls[c].pc.Critical() {
        MutualExclusion(s, c, step.c);
      }
    } else {
      assert t.segments == s.segments && t.live == s.live;
    }
  }

  /** Only its own destructor and its own crash touch a handle. */
  lemma HandleIsUndisturbed(s: State, step: Step, h: nat)
    requires Enabled(s, step) && h in s.live && step != Close(h) && step != Crash(h)
    ensures h in Next(s, step).live && Next(s, step).live[h] == s.live[h]
  {
  }

  // ---------- Nobody blocks for good ----------

  /** The next step of a call inside its critical section. */
  function Onward(s: State, c: nat): (step: Step)
    requires c in s.calls && s.calls[c].pc.Critical()
    ensures Enabled(s, step) && (Moves(step) || step.Unlock?) && step.c == c
  {
    match s.calls[c].pc
    case SendBuilding(_) => Build(c)
    case SendBuilt(_, _) => Push(c)
    case SendDone(_) => Unlock(c)
    case ReceiveCopying(next, _) => if next < |Store(s, SegmentOf(s, c))| then Copy(c) else Clear(c)
    case ReceiveDone(_) => Unlock(c)
  }

  /** How many steps are left in the critical section. */
  function Work(s: State, c: nat): nat
    requires c in s.calls
  {
    match s.calls[c].pc
    case SendBuilding(_) => 3
    case SendBuilt(_, _) => 2
    case SendDone(_) => 1
    case ReceiveDone(_) => 1
    case ReceiveCopying(next, _) =>
      var size := |Store(s, SegmentOf(s, c))|;
      if next < size then size - next + 2 else 2
    case _ => 0
  }

  /** What a call in its critical section has still to do to the queue. */
  function Outcome(s: State, c: nat): seq<Event<Packet>>
    requires c in s.calls
  {
    match s.calls[c].pc
    case SendBuilding(packet) => [Enqueue(packet)]
    case SendBuilt(packet, _) => [Enqueue(packet)]
    case ReceiveCopying(_, _) => [Dequeue(Store(s, SegmentOf(s, c)))]
    case _ => []
  }

  lemma OnwardWorks(s: State, c: nat)
    requires Inv(s) && c in s.calls && s.calls[c].pc.Critical()
    ensures var t := Next(s, Onward(s, c));
            && (forall d | d in s.calls && d != c :: d in t.calls && t.calls[d] == s.calls[d])
            && t.live == s.live
            && if c in t.calls
               then t.calls[c].pc.Critical() && Work(t, c) < Work(s, c) && MutexOf(t, c) == MutexOf(s, c)
               else t.owners == s.owners[MutexOf(s, c) := None]
  {
    hide Inv;
    var step := Onward(s, c);
    if step.Unlock? {
      assert Next(s, step) == Leave(s, c);
    } else {
      MoveFrame(s, step);
    }
  }

  lemma OnwardOutcome(s: State, c: nat)
    requires Progressing(s) && c in s.calls && s.calls[c].pc.Critical()
    ensures var t, g := Next(s, Onward(s, c)), SegmentOf(s, c);
            Outcome(s, c) ==
            Effect(s, Onward(s, c), g) + if c in t.calls then Outcome(t, c) else []
  {
    var step := Onward(s, c);
    assert PcMatches(s.calls[c].pc, Store(s, SegmentOf(s, c)));
    if step.Unlock? {
      assert c !in Next(s, step).calls && Effect(s, step, SegmentOf(s, c)) == [];
    } else {
      MoveFrame(s, step);
      var t, g := Next(s, step), SegmentOf(s, c);
      assert SegmentOf(t, c) == g;
      if step.Clear? {
        var received := s.calls[c].pc.received;
        assert received == Store(s, g);
        assert t.calls[c].pc == ReceiveDone(received);
      } else {
        assert Effect(s, step, g) + Outcome(t, c) == Outcome(s, c);
      }
    }
  }

  /** A step that a call takes without failing. */
  predicate Unfailing(step: Step) {
    Moves(step) || step.Lock? || step.Unlock?
  }

  predicate AllUnfailing(steps: seq<Step>) {
    forall i | 0 <= i < |steps| :: Unfailing(steps[i])
  }

  /** All steps are those of the one call, and none of them fails. */
  predicate Solo(steps: seq<Step>, c: nat) {
    forall i | 0 <= i < |steps| :: Unfailing(steps[i]) && steps[i].c == c
  }

  lemma SoloStart(step: Step, rest: seq<Step>, c: nat)
    requires Unfailing(step) && step.c == c && Solo(rest, c)
    ensures Solo([step] + rest, c)
  {
  }

  lemma SoloIsUnfailing(steps: seq<Step>, c: nat)
    requires Solo(steps, c)
    ensures AllUnfailing(steps)
    ensures forall d :: d != c ==> NoneOf(steps, d)
  {
  }

  /** All steps are inside other calls than this one. */
  predicate NoneOf(steps: seq<Step>, c: nat) {
    forall i | 0 <= i < |steps| :: Unfailing(steps[i]) && steps[i].c != c
  }

  /** A call in its critical section can run to its end, have its outcome, and leave the lock free. */
  lemma {:induction false} CriticalSectionEnds(s: State, c: nat) returns (steps: seq<Step>)
    requires Inv(s) && c in s.calls && s.calls[c].pc.Critical()
    ensures Valid(s, steps) && Solo(steps, c)
    ensures var t := Final(s, steps);
            && c !in t.calls && t.live == s.live
            && (forall d | d in s.calls && d != c :: d in t.calls && t.calls[d] == s.calls[d])
            && MutexOf(s, c) < |t.owners| && t.owners[MutexOf(s, c)].None?
    ensures Effects(s, steps, SegmentOf(s, c)) == Outcome(s, c)
    decreases Work(s, c)
  {
    var step := Onward(s, c);
    var t := Next(s, step);
    var g := SegmentOf(s, c);
    hide Linked, Inv, Enabled, Next, Work, Valid, Final, Effect, Effects, Outcome, Onward;
    hide SegmentOf, MutexOf, Solo;
    OnwardWorks(s, c);
    OnwardOutcome(s, c);
    InvKept(s, step);
    assert Unfailing(step) && step.c == c;
    var rest: seq<Step> := [];
    assert Solo(rest, c) by { NothingSolo(c); }
    if c in t.calls {
      SameMutexSameSegment(s, t, c);
      rest := CriticalSectionEnds(t, c);
    } else {
      NoSteps(t, g);
    }
    StartWith(s, step, rest, g);
    SoloStart(step, rest, c);
    steps := [step] + rest;
  }

  lemma NothingSolo(c: nat)
    ensures Solo([], c)
  {
  }

  lemma NoSteps(s: State, g: nat)
    ensures Valid(s, []) && Final(s, []) == s && Effects(s, [], g) == []
  {
  }

  lemma SameMutexSameSegment(s: State, t: State, c: nat)
    requires Inv(s) && Inv(t) && c in s.calls && c in t.calls && MutexOf(s, c) == MutexOf(t, c)
    ensures SegmentOf(s, c) == SegmentOf(t, c)
  {
  }

  lemma LockCanBecomeFree(s: State, c: nat) returns (steps: seq<Step>)
    requires Inv(s) && c in s.calls && !s.calls[c].pc.Critical()
    ensures Valid(s, steps) && AllUnfailing(steps)
    ensures NoneOf(steps, c) && (s.owners[MutexOf(s, c)].None? ==> steps == [])
    ensures Enabled(Final(s, steps), Lock(c))
    ensures var t := Final(s, steps);
            && c in t.calls && t.calls[c] == s.calls[c] && t.live == s.live
            && SegmentOf(t, c) == SegmentOf(s, c) && MutexOf(t, c) == MutexOf(s, c)
            && t.owners[MutexOf(s, c)].None?
  {
    var i := MutexOf(s, c);
    if s.owners[i].None? {
      steps := [];
    } else {
      var d := s.owners[i].value;
      assert d in s.calls && s.calls[d].pc.Critical() && MutexOf(s, d) == i;
      hide Inv, Next, Valid, Final;
      steps := CriticalSectionEnds(s, d);
      SoloIsUnfailing(steps, d);
    }
  }

  /** What a call that has not got its lock yet will do to the queue when it gets it. */
  function Intent(pc: Pc, store: seq<Packet>): seq<Event<Packet>> {
    match pc
    case SendWaiting(packet) => [Enqueue(packet)]
    case ReceiveWaiting => [Dequeue(store)]
    case _ => []
  }

  lemma LockWorks(s: State, c: nat)
    requires Enabled(s, Lock(c))
    ensures var t, g := Next(s, Lock(c)), SegmentOf(s, c);
            && c in t.calls && t.calls[c].pc.Critical() && SegmentOf(t, c) == g && t.live == s.live
            && MutexOf(t, c) == MutexOf(s, c)
            && Effect(s, Lock(c), g) == []
            && Outcome(t, c) == Intent(s.calls[c].pc, Store(s, g))
  {
  }

  /** The event that a call asks for when the queue is `store`. */
  function Asked(begin: Step, store: seq<Packet>): Event<Packet>
    requires Begins(begin)
  {
    match begin
    case BeginSend(_, _, packet) => Enqueue(packet)
    case BeginReceive(_, _) => Dequeue(store)
  }

  /** A call can begin on any live handle at any time, whoever holds the lock. */
  lemma BeginWorks(s: State, begin: Step)
    requires Begins(begin) && begin.c !in s.calls && begin.h in s.live
    ensures Enabled(s, begin)
    ensures var t, c, g := Next(s, begin), begin.c, s.live[begin.h].segment;
            && c in t.calls && !t.calls[c].pc.Critical()
            && SegmentOf(t, c) == g && MutexOf(t, c) == s.live[begin.h].mutex
            && Store(t, g) == Store(s, g) && t.live == s.live && t.owners == s.owners
            && Effect(s, begin, g) == [] && Reply(s, begin, g) == []
            && forall store :: Intent(t.calls[c].pc, store) == [Asked(begin, store)]
  {
  }

  lemma FreeLockLeadsToReturn(s: State, c: nat) returns (steps: seq<Step>)
    requires Inv(s) && Enabled(s, Lock(c))
    ensures Valid(s, steps) && Solo(steps, c) && c !in Final(s, steps).calls
    ensures Final(s, steps).live == s.live
    ensures MutexOf(s, c) < |Final(s, steps).owners| && Final(s, steps).owners[MutexOf(s, c)].None?
    ensures Effects(s, steps, SegmentOf(s, c)) == Intent(s.calls[c].pc, Store(s, SegmentOf(s, c)))
  {
    var locked, g := Next(s, Lock(c)), SegmentOf(s, c);
    LockWorks(s, c);
    hide Linked, Inv, Enabled, Next, Valid, Final, Effect, Effects, Outcome, Intent, SegmentOf, MutexOf, Solo;
    InvKept(s, Lock(c));
    var rest := CriticalSectionEnds(locked, c);
    StartWith(s, Lock(c), rest, g);
    SoloStart(Lock(c), rest, c);
    steps := [Lock(c)] + rest;
  }

  /** No deadlock: from every reachable state, every call in flight can still return, without failing. */
  lemma EveryCallCanReturn(s: State, c: nat) returns (steps: seq<Step>)
    requires Inv(s) && c in s.calls
    ensures Valid(s, steps) && AllUnfailing(steps)
    ensures c !in Final(s, steps).calls && Final(s, steps).live == s.live
  {
    hide Linked, Inv, Enabled, Next, Valid, Final, Effects, Moves;
    if s.calls[c].pc.Critical() {
      steps := CriticalSectionEnds(s, c);
      SoloIsUnfailing(steps, c);
    } else {
      var before := LockCanBecomeFree(s, c);
      var mid := Final(s, before);
      InvOfRun(s, before);
      var rest := FreeLockLeadsToReturn(mid, c);
      RunConcat(s, before, rest);
      SoloIsUnfailing(rest, c);
      steps := before + rest;
    }
  }

  /** A run that goes from free lock to free lock with one event ends with that event, done and replied. */
  lemma LastEvent(s: State, waiting: seq<Step>, rest: seq<Step>, g: nat, event: Event<Packet>)
    requires Inv(s) && Valid(s, waiting) && Valid(Final(s, waiting), rest)
    requires PendingReply(Final(s, waiting), g) == [] && PendingReply(Final(Final(s, waiting), rest), g) == []
    requires Effects(Final(s, waiting), rest, g) == [event]
    ensures Valid(s, waiting + rest) && Final(s, waiting + rest) == Final(Final(s, waiting), rest)
    ensures Effects(s, waiting + rest, g) == Effects(s, waiting, g) + [event]
    ensures Replies(s, waiting + rest, g) == Replies(s, waiting, g) + [event]
    ensures Store(Final(s, waiting + rest), g) == Apply(Store(Final(s, waiting), g), event)
  {
    hide Linked, Enabled, Next, Inv, Valid, Final, Effects, Replies, Store, PendingReply, Draining, Apply;
    var mid := Final(s, waiting);
    InvOfRun(s, waiting);
    EffectsConcat(s, waiting, rest, g);
    RepliesConcat(s, waiting, rest, g);
    RunConcat(s, waiting, rest);
    RepliesFollowEffects(mid, rest, g);
    assert [] + [event] == [event];
    assert Replies(mid, rest, g) + [] == Replies(mid, rest, g);
    RunRefinesQueue(mid, rest, g);
    assert [event][..0] == [];
  }

  /**
   * A send or a receive that begins on a live handle, whoever holds the lock, can get its turn and return: then
   * it has done, as the last event so far, what it was asked to do, and tells so.
   */
  lemma BegunCallReturns(s: State, begin: Step) returns (before: seq<Step>, rest: seq<Step>)
    requires Inv(s) && Begins(begin) && begin.c !in s.calls && begin.h in s.live
    ensures NoneOf(before, begin.c) && Solo(rest, begin.c)
    ensures s.owners[s.live[begin.h].mutex].None? ==> before == []
    ensures var waiting := [begin] + before;
            && Valid(s, waiting) && Valid(s, waiting + rest)
            && begin.c !in Final(s, waiting + rest).calls && Final(s, waiting + rest).live == s.live
            && var g := s.live[begin.h].segment;
            var store := Store(Final(s, waiting), g);
            && Effects(s, waiting + rest, g) == Effects(s, waiting, g) + [Asked(begin, store)]
            && Replies(s, waiting + rest, g) == Replies(s, waiting, g) + [Asked(begin, store)]
            && Store(Final(s, waiting + rest), g) == Apply(store, Asked(begin, store))
  {
    var c, g := begin.c, s.live[begin.h].segment;
    BeginWorks(s, begin);
    var begun := Next(s, begin);
    assert g == s.live[begin.h].mutex;
    hide Linked, Enabled, Next, Inv, Valid, Final, Effect, Effects, Store, SegmentOf, MutexOf, Intent, Solo;
    hide Replies, PendingReply, Draining, Apply, ApplyAll, Asked, NoneOf;
    InvKept(s, begin);
    before := LockCanBecomeFree(begun, c);
    InvOfRun(begun, before);
    StartWith(s, begin, before, g);
    var mid := Final(begun, before);
    rest := FreeLockLeadsToReturn(mid, c);
    assert Intent(mid.calls[c].pc, Store(mid, g)) == [Asked(begin, Store(mid, g))];
    var end := Final(mid, rest);
    FreeHasNoPendingReply(mid, g);
    FreeHasNoPendingReply(end, g);
    LastEvent(s, [begin] + before, rest, g, Asked(begin, Store(mid, g)));
  }

  lemma FreeHasNoPendingReply(s: State, g: nat)
    requires g < |s.owners| && s.owners[g].None?
    ensures PendingReply(s, g) == []
  {
  }

  lemma BeginIsSilent(s: State, begin: Step, g: nat)
    requires Inv(s) && Enabled(s, begin) && Begins(begin)
    ensures Valid(s, [begin]) && Final(s, [begin]) == Next(s, begin)
    ensures Effects(s, [begin], g) == [] && Replies(s, [begin], g) == []
    ensures Store(Next(s, begin), g) == Store(s, g)
  {
    OtherStepsKeepStores(s, begin, g);
    NoReply(s, begin, g);
    hide Linked, Enabled, Next, Effect, Reply, Store;
    var steps := [begin];
    assert steps[..|steps| - 1] == [] && steps[|steps| - 1] == begin;
    NoSteps(s, g);
    assert Valid(s, steps);
    assert Replies(s, steps, g) == Replies(s, [], g) + Reply(s, begin, g);
    assert Effects(s, steps, g) == Effects(s, [], g) + Effect(s, begin, g);
  }

  /** While the lock is free, a call on a live handle does what it was asked to by its own steps alone. */
  lemma FreeCallReturns(s: State, begin: Step) returns (rest: seq<Step>)
    requires Inv(s) && Begins(begin) && begin.c !in s.calls && begin.h in s.live
    requires s.owners[s.live[begin.h].mutex].None?
    ensures Solo(rest, begin.c)
    ensures var g, steps := s.live[begin.h].segment, [begin] + rest;
            && Valid(s, steps) && begin.c !in Final(s, steps).calls && Final(s, steps).live == s.live
            && Effects(s, steps, g) == [Asked(begin, Store(s, g))]
            && Replies(s, steps, g) == [Asked(begin, Store(s, g))]
            && Store(Final(s, steps), g) == Apply(Store(s, g), Asked(begin, Store(s, g)))
  {
    var g := s.live[begin.h].segment;
    BeginWorks(s, begin);
    var before;
    before, rest := BegunCallReturns(s, begin);
    BeginIsSilent(s, begin, g);
    hide Linked, Inv, Enabled, Next, Valid, Final, Effects, Replies, Store, Asked, Apply, Solo;
    assert [begin] + before == [begin];
    var event := Asked(begin, Store(s, g));
    assert [] + [event] == [event];
  }

  /**
   * While the lock is free, a send on any live handle stores its argument behind what is stored, by its own
   * steps alone and without failing, and reports it.
   */
  lemma SendIsStored(s: State, h: nat, c: nat, p: Packet) returns (rest: seq<Step>)
    requires Inv(s) && h in s.live && c !in s.calls && s.owners[s.live[h].mutex].None?
    ensures Solo(rest, c)
    ensures var g, steps := s.live[h].segment, [BeginSend(c, h, p)] + rest;
            && Valid(s, steps) && c !in Final(s, steps).calls && Final(s, steps).live == s.live
            && Effects(s, steps, g) == [Enqueue(p)]
            && Replies(s, steps, g) == [Enqueue(p)]
            && Store(Final(s, steps), g) == Store(s, g) + [p]
  {
    hide Linked, Inv, Valid, Final, Effects, Replies, Store, Solo;
    rest := FreeCallReturns(s, BeginSend(c, h, p));
  }

  /**
   * While the lock is free, any live handle can receive exactly the whole store: a call that it begins takes
   * nothing but its own steps, does not fail, and returns the store, which is then empty.
   */
  lemma StoreIsDeliverable(s: State, h: nat, c: nat) returns (rest: seq<Step>)
    requires Inv(s) && h in s.live && c !in s.calls && s.owners[s.live[h].mutex].None?
    ensures Solo(rest, c)
    ensures var g, steps := s.live[h].segment, [BeginReceive(c, h)] + rest;
            && Valid(s, steps) && c !in Final(s, steps).calls && Final(s, steps).live == s.live
            && Effects(s, steps, g) == [Dequeue(Store(s, g))]
            && Replies(s, steps, g) == [Dequeue(Store(s, g))]
            && Store(Final(s, steps), g) == []
  {
    hide Linked, Inv, Valid, Final, Effects, Replies, Store, Solo;
    rest := FreeCallReturns(s, BeginReceive(c, h));
  }

  /**
   * A call can fail exactly while its effect is still ahead of it, and then leaves everything but the lock, which
   * it gives back, as if it had not been made.
   */
  lemma FailingCallHasNoEffect(s: State, c: nat)
    requires Inv(s) && c in s.calls
    ensures Enabled(s, Abort(c)) <==> Outcome(s, c) != []
    ensures Enabled(s, Abort(c)) ==>
              var t := Next(s, Abort(c));
              && t.segments == s.segments && t.live == s.live && t.calls == s.calls - {c}
              && t.owners == s.owners[MutexOf(s, c) := None]
              && forall g :: Effect(s, Abort(c), g) == [] && Reply(s, Abort(c), g) == []
  {
  }

  // ---------- Every handle can be closed ----------

  /** The calls in flight on a handle. */
  function CallsOn(s: State, h: nat): set<nat> {
    set c | c in s.calls && s.calls[c].handle == h
  }

  lemma UnfailingStep(s: State, step: Step)
    requires Enabled(s, step) && Unfailing(step)
    ensures var t := Next(s, step);
            t.live == s.live && forall c | c in t.calls :: c in s.calls && t.calls[c].handle == s.calls[c].handle
  {
  }

  /** Steps inside calls begin no new ones. */
  lemma {:induction false} UnfailingRun(s: State, steps: seq<Step>)
    requires Valid(s, steps) && AllUnfailing(steps)
    ensures var t := Final(s, steps);
            t.live == s.live && forall c | c in t.calls :: c in s.calls && t.calls[c].handle == s.calls[c].handle
  {
    hide Linked, Enabled, Next, Unfailing;
    if steps != [] {
      UnfailingRun(s, steps[..|steps| - 1]);
      UnfailingStep(Final(s, steps[..|steps| - 1]), steps[|steps| - 1]);
    }
  }

  lemma CloseNeedsNoCalls(s: State, h: nat)
    requires h in s.live && CallsOn(s, h) == {}
    ensures Enabled(s, Close(h)) && h !in Next(s, Close(h)).live
  {
    assert forall c | c in s.calls :: c !in CallsOn(s, h);
  }

  /**
   * Every live handle can be closed, whatever is stored and whoever else uses it: at once if no call of its own is
   * in flight, and otherwise after those calls have returned.
   */
  lemma {:induction false} EveryHandleCanClose(s: State, h: nat) returns (steps: seq<Step>)
    requires Inv(s) && h in s.live
    ensures Valid(s, steps) && AllUnfailing(steps)
    ensures CallsOn(s, h) == {} ==> steps == []
    ensures h in Final(s, steps).live && Enabled(Final(s, steps), Close(h))
    ensures h !in Next(Final(s, steps), Close(h)).live
    decreases CallsOn(s, h)
  {
    hide Linked, Inv, Enabled, Next, Valid, Final, Unfailing;
    if c :| c in CallsOn(s, h) {
      var first := EveryCallCanReturn(s, c);
      UnfailingRun(s, first);
      InvOfRun(s, first);
      var mid := Final(s, first);
      assert CallsOn(mid, h) <= CallsOn(s, h) && c !in CallsOn(mid, h);
      var rest := EveryHandleCanClose(mid, h);
      RunConcat(s, first, rest);
      steps := first + rest;
    } else {
      steps := [];
      NoSteps(s, 0);
      CloseNeedsNoCalls(s, h);
    }
  }
}
