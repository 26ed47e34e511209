/** Which stored packets can still be received, and which steps put them out of reach. */
module SharedMemorySurvival {
  import opened PacketCodec
  import opened Wrappers
  import opened FifoQueue
  import opened SharedMemory
  import opened SharedMemoryInvariants
  import opened SharedMemoryDelivery
  import opened SharedMemoryLifecycle

  /** Nothing can reach the generation any more. */
  predicate Dead(s: State, g: nat) {
    && g < |s.segments|
    && s.segmentName != Some(g)
    && (forall h | h in s.live :: s.live[h].segment != g)
  }

  lemma DeadKept(s: State, step: Step, g: nat)
    requires Dead(s, g) && Enabled(s, step)
    ensures Dead(Next(s, step), g)
    ensures Effect(s, step, g) == []
  {
  }

  lemma {:induction false} DeadForever(s: State, steps: seq<Step>, g: nat)
    requires Dead(s, g) && Valid(s, steps)
    ensures Dead(Final(s, steps), g)
    ensures Effects(s, steps, g) == []
  {
    hide Linked, Dead, Enabled, Next, Effect;
    if steps != [] {
      DeadForever(s, steps[..|steps| - 1], g);
      DeadKept(Final(s, steps[..|steps| - 1]), steps[|steps| - 1], g);
    }
  }

  // ---------- What can still be received ----------

  /** A number above all that are in use. */
  lemma {:induction false} Unused(ids: set<nat>) returns (n: nat)
    ensures forall i | i in ids :: i < n
  {
    if ids == {} {
      n := 0;
    } else {
      var i :| i in ids;
      var others := ids - {i};
      var m := Unused(others);
      n := if m <= i then i + 1 else m;
      assert forall j | j in ids :: j == i || j in others;
    }
  }

  /** Whoever holds the lock of `g` can be waited for. */
  lemma LockCanBeFreed(s: State, g: nat) returns (steps: seq<Step>)
    requires Inv(s) && g < |s.segments|
    ensures Valid(s, steps) && AllUnfailing(steps)
    ensures Final(s, steps).live == s.live
    ensures g < |Final(s, steps).owners| && Final(s, steps).owners[g].None?
  {
    if s.owners[g].None? {
      steps := [];
    } else {
      var d := s.owners[g].value;
      assert d in s.calls && s.calls[d].pc.Critical() && MutexOf(s, d) == g;
      hide Linked, Inv, Enabled, Next, Valid, Final;
      steps := CriticalSectionEnds(s, d);
      SoloIsUnfailing(steps, d);
    }
  }

  /** A live handle can empty the store of its generation, whoever holds the lock. */
  lemma LiveHandleCanDrain(s: State, h: nat) returns (steps: seq<Step>)
    requires Inv(s) && h in s.live
    ensures Valid(s, steps) && Store(Final(s, steps), s.live[h].segment) == []
  {
    var g := s.live[h].segment;
    assert g == s.live[h].mutex;
    hide Linked, Inv, Enabled, Next, Valid, Final, Store, Effects, Replies;
    var before := LockCanBeFreed(s, g);
    var mid := Final(s, before);
    InvOfRun(s, before);
    var c := Unused(mid.calls.Keys);
    assert c !in mid.calls;
    var rest := StoreIsDeliverable(mid, h, c);
    RunConcat(s, before, [BeginReceive(c, h)] + rest);
    steps := before + ([BeginReceive(c, h)] + rest);
  }

  lemma OpenAttachesToBound(s: State, h: nat)
    requires Inv(s) && Enabled(s, Open(h)) && s.segmentName.Some?
    ensures var t := Next(s, Open(h)); h in t.live && t.live[h].segment == s.segmentName.value
  {
  }

  /** Unless it is dead, the store of a generation can be emptied, by a new handle if there is no other. */
  lemma CanDrain(s: State, g: nat) returns (steps: seq<Step>)
    requires Inv(s) && g < |s.segments| && !Dead(s, g)
    ensures Valid(s, steps) && Store(Final(s, steps), g) == []
  {
    if h :| h in s.live && s.live[h].segment == g {
      hide Linked, Inv, Enabled, Next, Valid, Final, Store, Dead;
      steps := LiveHandleCanDrain(s, h);
    } else {
      var h := Unused(s.live.Keys + s.crashed.Keys);
      assert h !in s.live.Keys + s.crashed.Keys;
      assert h !in s.live && h !in s.crashed;
      var attach := Open(h);
      assert s.segmentName == Some(g) && Enabled(s, attach);
      OpenAttachesToBound(s, h);
      InvKept(s, attach);
      hide Linked, Inv, Enabled, Next, Valid, Final, Store, Dead, Effect, Effects;
      var rest := LiveHandleCanDrain(Next(s, attach), h);
      StartWith(s, attach, rest, g);
      steps := [attach] + rest;
    }
  }

  /** Some continuation receives everything that is stored, in order. */
  ghost predicate Deliverable(s: State, g: nat) {
    exists steps :: Valid(s, steps) && Store(s, g) <= Dequeued(Effects(s, steps, g))
  }

  /** What is stored can still be received if and only if its generation is not dead. */
  lemma DeliverableIffNotDead(s: State, g: nat)
    requires Inv(s) && g < |s.segments| && Store(s, g) != []
    ensures Deliverable(s, g) <==> !Dead(s, g)
  {
    hide Linked, Inv, Enabled, Next, Valid, Final, Store, Dead, Effects, Enqueued, Dequeued;
    if Dead(s, g) {
      forall steps | Valid(s, steps) ensures !(Store(s, g) <= Dequeued(Effects(s, steps, g))) {
        DeadForever(s, steps, g);
        NoHistory<Packet>();
      }
    } else {
      var steps := CanDrain(s, g);
      RunConserves(s, steps, g);
      var taken := Dequeued(Effects(s, steps, g));
      assert taken + [] == taken;
      assert Store(s, g) <= taken;
    }
  }

  /**
   * Some continuation of the run receives, in order, all that was stored at its start and all that was
   * pushed during it.
   */
  ghost predicate NothingLost(s: State, steps: seq<Step>, g: nat)
    requires Valid(s, steps)
  {
    exists more ::
      && Valid(Final(s, steps), more)
      && Store(s, g) + Enqueued(Effects(s, steps, g))
         <= Dequeued(Effects(s, steps, g)) + Dequeued(Effects(Final(s, steps), more, g))
  }

  /** After any run, a generation has lost packets exactly when it is dead with packets in its store. */
  lemma LostIffDeadWithPackets(s: State, steps: seq<Step>, g: nat)
    requires Inv(s) && Valid(s, steps) && g < |Final(s, steps).segments|
    ensures NothingLost(s, steps, g) <==> !Dead(Final(s, steps), g) || Store(Final(s, steps), g) == []
  {
    var t := Final(s, steps);
    InvOfRun(s, steps);
    RunConserves(s, steps, g);
    hide Linked, Inv, Enabled, Next, Valid, Final, Store, Dead, Effects, Enqueued, Dequeued;
    var went, rest := Dequeued(Effects(s, steps, g)), Store(t, g);
    assert Store(s, g) + Enqueued(Effects(s, steps, g)) == went + rest;
    if Dead(t, g) {
      forall more | Valid(t, more) ensures Dequeued(Effects(t, more, g)) == [] {
        DeadForever(t, more, g);
        NoHistory<Packet>();
      }
      if rest == [] {
        NoSteps(t, g);
        assert went + rest <= went + Dequeued(Effects(t, [], g));
      }
    } else {
      var more := CanDrain(t, g);
      RunConserves(t, more, g);
      var taken := Dequeued(Effects(t, more, g));
      assert taken + [] == taken;
      PrefixOfRest(went, taken, rest);
    }
  }

  /**
   * While handles come and go but some handle is always live, all of them stay on one generation and no
   * packet is lost: whatever closed handles have pushed can still be received, in order.
   */
  lemma HandOver(s: State, steps: seq<Step>, g: nat)
    requires Inv(s) && Settled(s) && s.segmentName == Some(g)
    requires Valid(s, steps) && AllAllowed(s, steps) && AlwaysLive(s, steps)
    ensures forall h | h in Final(s, steps).live :: Final(s, steps).live[h].segment == g
    ensures NothingLost(s, steps, g)
  {
    HealthyRun(s, steps);
    NameIsKept(s, steps);
    InvOfRun(s, steps);
    assert !Dead(Final(s, steps), g) && g < |Final(s, steps).segments|;
    LostIffDeadWithPackets(s, steps, g);
  }

  // ---------- What kills a generation ----------

  /** The steps that cut the last way to generation `g`. */
  predicate Kills(s: State, step: Step, g: nat) {
    match step
    case Close(h) =>
      && h in s.live && s.live[h].segment < |s.segments|
      && OnSegment(s.live, g) <= {h}
      && (s.segments[s.live[h].segment].count == 1 || s.segmentName != Some(g))
    case Crash(h) => OnSegment(s.live, g) == {h} && s.segmentName != Some(g)
    case Destroy => OnSegment(s.live, g) == {}
    case _ => false
  }

  lemma DeadIffUnreachable(s: State, g: nat)
    ensures Dead(s, g) <==> g < |s.segments| && s.segmentName != Some(g) && OnSegment(s.live, g) == {}
  {
    assert forall h | h in s.live && s.live[h].segment == g :: h in OnSegment(s.live, g);
  }

  /** A generation that is not dead dies by a step if and only if the step is one of these. */
  lemma DiesIffKilled(s: State, step: Step, g: nat)
    requires g < |s.segments| && !Dead(s, g) && Enabled(s, step)
    ensures Dead(Next(s, step), g) <==> Kills(s, step, g)
    ensures Kills(s, step, g) ==> Effect(s, step, g) == [] && Store(Next(s, step), g) == Store(s, g)
  {
    var t := Next(s, step);
    DeadIffUnreachable(s, g);
    DeadIffUnreachable(t, g);
    match step
    case Close(h) => assert OnSegment(t.live, g) == OnSegment(s.live, g) - {h};
    case Crash(h) => assert OnSegment(t.live, g) == OnSegment(s.live, g) - {h};
    case Open(h) => OpenDoesNotKill(s, h, g);
    case Destroy =>
    case _ =>
      assert t.live == s.live && t.segmentName == s.segmentName;
  }

  lemma OpenDoesNotKill(s: State, h: nat, g: nat)
    requires g < |s.segments| && !Dead(s, g) && Enabled(s, Open(h))
    ensures !Dead(Next(s, Open(h)), g)
  {
    var t := Next(s, Open(h));
    if k :| k in s.live && s.live[k].segment == g {
      assert k in t.live && t.live[k].segment == g;
    }
  }

  /** Some step of the run killed the generation. */
  predicate Killed(steps: seq<Step>, g: nat)
    requires Valid(EMPTY, steps)
  {
    steps != [] &&
    var front, last := steps[..|steps| - 1], steps[|steps| - 1];
    var s := Final(EMPTY, front);
    Killed(front, g) || (g < |s.segments| && !Dead(s, g) && Kills(s, last, g))
  }

  lemma NewGenerationIsAlive(s: State, step: Step, g: nat)
    requires |s.segments| <= g && Enabled(s, step)
    ensures !Dead(Next(s, step), g)
  {
  }

  /** In every run, a generation is dead exactly when some step has killed it. */
  lemma {:induction false} DeadIffKilled(steps: seq<Step>, g: nat)
    requires Valid(EMPTY, steps)
    ensures Dead(Final(EMPTY, steps), g) <==> Killed(steps, g)
  {
    if steps != [] {
      var front, last := steps[..|steps| - 1], steps[|steps| - 1];
      DeadIffKilled(front, g);
      var s := Final(EMPTY, front);
      hide Linked, Enabled, Next, Kills;
      if Dead(s, g) {
        DeadKept(s, last, g);
      } else if g < |s.segments| {
        hide Dead;
        DiesIffKilled(s, last, g);
      } else {
        NewGenerationIsAlive(s, last, g);
      }
    }
  }

  lemma NothingAfterKill(s: State, step: Step, after: seq<Step>, g: nat)
    requires g < |s.segments| && !Dead(s, g) && Enabled(s, step) && Kills(s, step, g)
    requires Valid(Next(s, step), after)
    ensures Valid(s, [step] + after)
    ensures Effects(s, [step] + after, g) == []
    ensures Dead(Final(s, [step] + after), g)
  {
    hide Linked, Enabled, Next, Dead, Kills, Effect, Effects, Valid, Final;
    DiesIffKilled(s, step, g);
    DeadForever(Next(s, step), after, g);
    StartWith(s, step, after, g);
  }

  /**
   * What a killing step takes away is exactly the undelivered suffix: whatever happens later, the packets
   * pushed to the generation are those taken from it, followed by what was stored when it was killed.
   */
  lemma VanishedPacketsAreTheUndelivered(before: seq<Step>, step: Step, after: seq<Step>, g: nat)
    requires Valid(EMPTY, before) && Enabled(Final(EMPTY, before), step)
    requires var s := Final(EMPTY, before); g < |s.segments| && !Dead(s, g) && Kills(s, step, g)
    requires Valid(Next(Final(EMPTY, before), step), after)
    ensures var run := before + ([step] + after);
            && Valid(EMPTY, run)
            && Enqueued(Effects(EMPTY, run, g)) == Dequeued(Effects(EMPTY, run, g)) + Store(Final(EMPTY, before), g)
            && Dead(Final(EMPTY, run), g)
  {
    assert Store(EMPTY, g) == [];
    hide Linked, Inv, Enabled, Next, Dead, Kills, Effect, Effects, Valid, Final, Enqueued, Dequeued, Store;
    var s := Final(EMPTY, before);
    NothingAfterKill(s, step, after, g);
    RunConcat(EMPTY, before, [step] + after);
    EffectsConcat(EMPTY, before, [step] + after, g);
    EmptyInv();
    RunConserves(EMPTY, before, g);
    var effects := Effects(EMPTY, before, g);
    assert effects + [] == effects;
    assert [] + Enqueued(effects) == Enqueued(effects);
  }

  lemma FirstSendSteps(p: Packet)
    ensures Enabled(EMPTY, Open(0)) && Enabled(Next(EMPTY, Open(0)), BeginSend(0, 0, p))
    ensures Effect(EMPTY, Open(0), 0) == [] && Effect(Next(EMPTY, Open(0)), BeginSend(0, 0, p), 0) == []
    ensures var s := Next(Next(EMPTY, Open(0)), BeginSend(0, 0, p));
            && Inv(s) && s.live == map[0 := Handle(0, 0)] && Store(s, 0) == []
            && Enabled(s, Lock(0)) && s.calls[0].pc == SendWaiting(p)
            && SegmentOf(s, 0) == 0 && MutexOf(s, 0) == 0
  {
    EmptyInv();
    InvKept(EMPTY, Open(0));
    InvKept(Next(EMPTY, Open(0)), BeginSend(0, 0, p));
  }

  lemma CrashOfOnlyHandle(s: State, g: nat)
    requires Inv(s) && s.live.Keys == {0} && s.live[0].segment == g && s.owners[s.live[0].mutex].None?
    ensures Enabled(s, Crash(0)) && Effect(s, Crash(0), g) == [] && Store(Next(s, Crash(0)), g) == Store(s, g)
    ensures var t := Next(Next(s, Crash(0)), Destroy);
            Dead(t, g) && Store(t, g) == Store(s, g) && t.segments[g].count >= 1
  {
    assert forall c | c in s.calls :: !s.calls[c].pc.Critical();
    var t := Next(s, Crash(0));
    assert t.live == map[];
    InvKept(s, Crash(0));
    assert 0 in OnSegment(t.crashed, g);
    assert |OnSegment(t.crashed, g)| >= 1;
  }

  /** Losing a packet without any destructor: send, crash, and `Destroy` the name that is left. */
  lemma CrashThenDestroyLosesPackets(p: Packet) returns (rest: seq<Step>)
    ensures Solo(rest, 0)
    ensures var steps := [Open(0), BeginSend(0, 0, p)] + rest + [Crash(0), Destroy];
            && Valid(EMPTY, steps)
            && Dead(Final(EMPTY, steps), 0) && Store(Final(EMPTY, steps), 0) == [p]
            && Final(EMPTY, steps).segments[0].count >= 1
            && !NothingLost(EMPTY, steps, 0)
  {
    FirstSendSteps(p);
    var s1 := Next(EMPTY, Open(0));
    var s2 := Next(s1, BeginSend(0, 0, p));
    assert Intent(s2.calls[0].pc, []) == [Enqueue(p)];
    hide Linked, Inv, Enabled, Next, Valid, Final, Effect, Effects, Store, SegmentOf, MutexOf, Intent, Solo;
    rest := FreeLockLeadsToReturn(s2, 0);
    RunRefinesQueue(s2, rest, 0);
    assert ApplyAll([], [Enqueue(p)]) == [p] by { OneEnqueue(p); }
    var s3 := Final(s2, rest);
    InvOfRun(s2, rest);
    CrashOfOnlyHandle(s3, 0);
    var s4 := Next(s3, Crash(0));
    var tail := [Crash(0), Destroy];
    assert Enabled(s4, Destroy) by { DestroyIsEnabled(s4); }
    TwoSteps(s3, Crash(0), Destroy);
    TwoSteps(EMPTY, Open(0), BeginSend(0, 0, p));
    RunConcat(EMPTY, [Open(0), BeginSend(0, 0, p)], rest);
    RunConcat(EMPTY, [Open(0), BeginSend(0, 0, p)] + rest, tail);
    EmptyInv();
    hide Dead;
    var steps := [Open(0), BeginSend(0, 0, p)] + rest + tail;
    assert 0 < |Final(EMPTY, steps).segments| by { DeadExists(Final(EMPTY, steps), 0); }
    LostIffDeadWithPackets(EMPTY, steps, 0);
  }

  lemma DeadExists(s: State, g: nat)
    requires Dead(s, g)
    ensures g < |s.segments|
  {
  }

  lemma DestroyIsEnabled(s: State)
    ensures Enabled(s, Destroy)
  {
  }

  lemma OneEnqueue(p: Packet)
    ensures ApplyAll([], [Enqueue(p)]) == [p]
  {
    assert [Enqueue(p)][..0] == [];
    assert [] + [p] == [p];
  }

  lemma TwoSteps(s: State, step: Step, next: Step)
    requires Enabled(s, step) && Enabled(Next(s, step), next)
    ensures Valid(s, [step, next]) && Final(s, [step, next]) == Next(Next(s, step), next)
  {
    hide Linked, Enabled, Next;
    assert [step, next][..1] == [step] && [step][..0] == [];
    assert Valid(s, []) && Final(s, []) == s;
    assert Valid(s, [step]) && Final(s, [step]) == Next(s, step);
  }
}
