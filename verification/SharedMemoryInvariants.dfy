/** What every step of the shared-memory system keeps, and the queue it implements. */
module SharedMemoryInvariants {
  import opened PacketCodec
  import opened Wrappers
  import opened FifoQueue
  import opened SharedMemory

  // ---------- Invariants ----------

  /** Both names are bound together, and every handle opened the two objects of one generation. */
  predicate Paired(s: State) {
    && s.segmentName == s.mutexName
    && |s.segments| == |s.owners|
    && (forall h | h in s.live :: s.live[h].segment == s.live[h].mutex)
  }

  /** The mutex of a call is owned by it exactly while the call is in its critical section. */
  predicate Exclusive(s: State) {
    && (forall c | c in s.calls && s.calls[c].pc.Critical() :: s.owners[MutexOf(s, c)] == Some(c))
    && (forall i | 0 <= i < |s.owners| && s.owners[i].Some? ::
          var c := s.owners[i].value;
          c in s.calls && s.calls[c].pc.Critical() && MutexOf(s, c) == i)
  }

  /** A built packet is a copy of the argument; a copy loop has copied a prefix of the store. */
  predicate Progressing(s: State) {
    forall c | c in s.calls :: PcMatches(s.calls[c].pc, Store(s, SegmentOf(s, c)))
  }

  predicate PcMatches(pc: Pc, store: seq<Packet>) {
    match pc
    case SendBuilt(packet, internal) => internal == packet
    case ReceiveCopying(next, received) => next <= |store| && received == store[..next]
    case _ => true
  }

  lemma WaitingMatches(pc: Pc, store: seq<Packet>)
    ensures !pc.Critical() ==> PcMatches(pc, store)
  {
  }

  function OnSegment(handles: map<nat, Handle>, g: nat): set<nat> {
    set h | h in handles && handles[h].segment == g
  }

  /** The reference count of a generation. */
  predicate Counted(s: State) {
    forall g | 0 <= g < |s.segments| ::
      s.segments[g].count == |OnSegment(s.live, g)| + |OnSegment(s.crashed, g)|
  }

  predicate Inv(s: State) {
    Paired(s) && Exclusive(s) && Progressing(s) && Counted(s)
  }

  // ---------- Steps keep the invariants ----------

  /** The steps of constructors, destructors, `Destroy` and crashes. */
  predicate Lifecycle(step: Step) {
    step.Open? || step.Close? || step.Destroy? || step.Crash?
  }

  predicate Begins(step: Step) {
    step.BeginSend? || step.BeginReceive?
  }

  /** The steps inside a critical section. */
  predicate Moves(step: Step) {
    step.Build? || step.Push? || step.Copy? || step.Clear?
  }

  /** A step inside a critical section changes the call's own progress, and at most its own store. */
  lemma MoveFrame(s: State, step: Step)
    requires Enabled(s, step) && Moves(step)
    ensures var t, c, g := Next(s, step), step.c, SegmentOf(s, step.c);
            && s.calls[c].pc.Critical()
            && t.live == s.live && t.owners == s.owners
            && c in t.calls && t.calls[c].pc.Critical() && t.calls[c].handle == s.calls[c].handle
            && t.calls == s.calls[c := t.calls[c]]
            && t.segments == s.segments[g := s.segments[g].(store := Store(t, g))]
            && (step.Build? || step.Copy? ==> Store(t, g) == Store(s, g))
  {
    var t, c, g := Next(s, step), step.c, SegmentOf(s, step.c);
    if step.Build? || step.Copy? {
      assert t.segments == s.segments;
    }
  }

  /** A lifecycle step leaves the stores, the owners and the calls it keeps as they were. */
  lemma LifecycleFrame(s: State, step: Step)
    requires Enabled(s, step) && Lifecycle(step)
    ensures var t := Next(s, step);
            && (forall g: nat :: Store(t, g) == Store(s, g))
            && (forall c | c in t.calls ::
                  c in s.calls && t.calls[c] == s.calls[c]
                  && SegmentOf(t, c) == SegmentOf(s, c) && MutexOf(t, c) == MutexOf(s, c))
            && (forall c | c in s.calls && s.calls[c].pc.Critical() :: c in t.calls)
            && s.owners <= t.owners
            && (forall i | |s.owners| <= i < |t.owners| :: t.owners[i].None?)
  {
  }

  lemma PairedKept(s: State, step: Step)
    requires Paired(s) && Enabled(s, step)
    ensures Paired(Next(s, step))
  {
  }

  lemma ExclusiveKeptByLifecycle(s: State, step: Step)
    requires Paired(s) && Exclusive(s) && Enabled(s, step) && Lifecycle(step)
    ensures Exclusive(Next(s, step))
  {
    LifecycleFrame(s, step);
    hide Next, Enabled, SegmentOf, MutexOf;
  }

  lemma ExclusiveKeptByMoves(s: State, step: Step)
    requires Exclusive(s) && Enabled(s, step) && Moves(step)
    ensures Exclusive(Next(s, step))
  {
    MoveFrame(s, step);
    hide Next, Enabled;
    assert forall d | d in s.calls :: MutexOf(Next(s, step), d) == MutexOf(s, d);
  }

  lemma ExclusiveKeptByBegin(s: State, step: Step)
    requires Exclusive(s) && Enabled(s, step) && Begins(step)
    ensures Exclusive(Next(s, step))
  {
    var t, c := Next(s, step), step.c;
    assert t == s.(calls := s.calls[c := t.calls[c]]) && !t.calls[c].pc.Critical();
    assert forall d | d in s.calls :: MutexOf(t, d) == MutexOf(s, d);
  }

  lemma ExclusiveKeptByLock(s: State, c: nat)
    requires Exclusive(s) && Enabled(s, Lock(c))
    ensures Exclusive(Next(s, Lock(c)))
  {
    var t := Next(s, Lock(c));
    assert forall d | d in s.calls :: MutexOf(t, d) == MutexOf(s, d);
  }

  lemma ExclusiveKeptByLeave(s: State, c: nat)
    requires Exclusive(s) && c in s.calls && s.calls[c].pc.Critical()
    ensures Exclusive(Leave(s, c))
  {
    var t := Leave(s, c);
    assert forall d | d in t.calls :: t.calls[d] == s.calls[d] && MutexOf(t, d) == MutexOf(s, d);
  }

  lemma ExclusiveKept(s: State, step: Step)
    requires Paired(s) && Exclusive(s) && Enabled(s, step)
    ensures Exclusive(Next(s, step))
  {
    if Lifecycle(step) {
      ExclusiveKeptByLifecycle(s, step);
    } else if Moves(step) {
      ExclusiveKeptByMoves(s, step);
    } else if Begins(step) {
      ExclusiveKeptByBegin(s, step);
    } else if step.Lock? {
      ExclusiveKeptByLock(s, step.c);
    } else {
      ExclusiveKeptByLeave(s, step.c);
    }
  }

  /** Two calls in their critical sections are on different generations. */
  lemma MutualExclusion(s: State, c: nat, d: nat)
    requires Paired(s) && Exclusive(s) && c != d
    requires c in s.calls && s.calls[c].pc.Critical()
    requires d in s.calls && s.calls[d].pc.Critical()
    ensures SegmentOf(s, c) != SegmentOf(s, d)
  {
    assert s.owners[MutexOf(s, c)] == Some(c);
    assert s.owners[MutexOf(s, d)] == Some(d);
  }

  lemma ProgressingKeptByLifecycle(s: State, step: Step)
    requires Progressing(s) && Enabled(s, step) && Lifecycle(step)
    ensures Progressing(Next(s, step))
  {
    LifecycleFrame(s, step);
    hide Next, Enabled, SegmentOf, MutexOf, Store;
  }

  lemma MoveMatches(s: State, step: Step)
    requires Progressing(s) && Enabled(s, step) && Moves(step)
    ensures step.c in Next(s, step).calls
    ensures PcMatches(Next(s, step).calls[step.c].pc, Store(Next(s, step), SegmentOf(s, step.c)))
  {
    assert PcMatches(s.calls[step.c].pc, Store(s, SegmentOf(s, step.c)));
  }

  lemma ProgressingKeptByMove(s: State, step: Step)
    requires Paired(s) && Exclusive(s) && Progressing(s) && Enabled(s, step) && Moves(step)
    ensures Progressing(Next(s, step))
  {
    var t, c := Next(s, step), step.c;
    MoveFrame(s, step);
    MoveMatches(s, step);
    hide Next, Enabled, PcMatches;
    forall d | d in t.calls ensures PcMatches(t.calls[d].pc, Store(t, SegmentOf(t, d))) {
      assert SegmentOf(t, d) == SegmentOf(s, d);
      if d != c {
        assert PcMatches(s.calls[d].pc, Store(s, SegmentOf(s, d)));
        if s.calls[d].pc.Critical() {
          MutualExclusion(s, c, d);
        }
        WaitingMatches(s.calls[d].pc, Store(t, SegmentOf(s, d)));
      }
    }
  }

  lemma ProgressingKeptByCalls(s: State, step: Step)
    requires Progressing(s) && Enabled(s, step) && !Lifecycle(step) && !Moves(step)
    ensures Progressing(Next(s, step))
  {
    var t := Next(s, step);
    assert t.segments == s.segments && t.live == s.live;
    forall c | c in t.calls ensures PcMatches(t.calls[c].pc, Store(t, SegmentOf(t, c))) {
      if c in s.calls {
        assert PcMatches(s.calls[c].pc, Store(s, SegmentOf(s, c)));
      }
    }
  }

  lemma OnSegmentWithout(handles: map<nat, Handle>, h: nat, g: nat)
    requires h in handles
    ensures |OnSegment(handles - {h}, g)| ==
            |OnSegment(handles, g)| - if handles[h].segment == g then 1 else 0
  {
    if handles[h].segment == g {
      assert h in OnSegment(handles, g);
      assert OnSegment(handles - {h}, g) == OnSegment(handles, g) - {h};
    } else {
      assert OnSegment(handles - {h}, g) == OnSegment(handles, g);
    }
  }

  lemma OnSegmentWith(handles: map<nat, Handle>, h: nat, handle: Handle, g: nat)
    requires h !in handles
    ensures |OnSegment(handles[h := handle], g)| ==
            |OnSegment(handles, g)| + if handle.segment == g then 1 else 0
  {
    if handle.segment == g {
      assert OnSegment(handles[h := handle], g) == OnSegment(handles, g) + {h};
    } else {
      assert OnSegment(handles[h := handle], g) == OnSegment(handles, g);
    }
  }

  lemma CountedKeptByOpen(s: State, h: nat)
    requires Counted(s) && Enabled(s, Open(h))
    ensures Counted(Next(s, Open(h)))
  {
    var t := Next(s, Open(h));
    forall g | 0 <= g < |t.segments|
      ensures t.segments[g].count == |OnSegment(t.live, g)| + |OnSegment(t.crashed, g)|
    {
      OnSegmentWith(s.live, h, t.live[h], g);
      if g == |s.segments| {
        assert OnSegment(s.live, g) == {} && OnSegment(s.crashed, g) == {};
      } else {
        assert s.segments[g].count == |OnSegment(s.live, g)| + |OnSegment(s.crashed, g)|;
      }
    }
  }

  lemma CountedKeptByRemoval(s: State, step: Step)
    requires Counted(s) && Enabled(s, step) && (step.Close? || step.Crash?)
    ensures Counted(Next(s, step))
  {
    hide OnSegment;
    var t, h := Next(s, step), step.h;
    forall g | 0 <= g < |t.segments|
      ensures t.segments[g].count == |OnSegment(t.live, g)| + |OnSegment(t.crashed, g)|
    {
      OnSegmentWithout(s.live, h, g);
      OnSegmentWith(s.crashed, h, s.live[h], g);
      assert s.segments[g].count == |OnSegment(s.live, g)| + |OnSegment(s.crashed, g)|;
    }
  }

  lemma CountsUnchanged(s: State, step: Step)
    requires Counted(s) && Enabled(s, step) && !step.Open? && !step.Close? && !step.Crash?
    ensures Counted(Next(s, step))
  {
    hide OnSegment;
    var t := Next(s, step);
    if Moves(step) {
      MoveFrame(s, step);
    } else {
      assert t.segments == s.segments;
    }
  }

  lemma CountedKept(s: State, step: Step)
    requires Counted(s) && Enabled(s, step)
    ensures Counted(Next(s, step))
  {
    match step
    case Open(h) => CountedKeptByOpen(s, h);
    case Close(_) => CountedKeptByRemoval(s, step);
    case Crash(_) => CountedKeptByRemoval(s, step);
    case _ => CountsUnchanged(s, step);
  }

  lemma InvKept(s: State, step: Step)
    requires Inv(s) && Enabled(s, step)
    ensures Inv(Next(s, step))
  {
    PairedKept(s, step);
    ExclusiveKept(s, step);
    CountedKept(s, step);
    if Lifecycle(step) {
      ProgressingKeptByLifecycle(s, step);
    } else if Moves(step) {
      ProgressingKeptByMove(s, step);
    } else {
      ProgressingKeptByCalls(s, step);
    }
  }

  /** Every run keeps the invariants; `EMPTY` starts with them. */
  lemma {:induction false} InvOfRun(s: State, steps: seq<Step>)
    requires Inv(s) && Valid(s, steps)
    ensures Inv(Final(s, steps))
  {
    hide Linked, Inv, Enabled, Next;
    if steps != [] {
      InvOfRun(s, steps[..|steps| - 1]);
      InvKept(Final(s, steps[..|steps| - 1]), steps[|steps| - 1]);
    }
  }

  lemma EmptyInv()
    ensures Inv(EMPTY)
  {
  }
}
