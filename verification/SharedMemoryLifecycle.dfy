/** Generations of the shared memory: when the name and the live handles agree, and what a closing handle leaves. */
module SharedMemoryLifecycle {
  import opened PacketCodec
  import opened Wrappers
  import opened FifoQueue
  import opened SharedMemory
  import opened SharedMemoryInvariants
  import opened SharedMemoryDelivery

  /** Every run from the start keeps the invariants. */
  lemma Reachable(steps: seq<Step>)
    requires Valid(EMPTY, steps)
    ensures Inv(Final(EMPTY, steps))
  {
    EmptyInv();
    InvOfRun(EMPTY, steps);
  }

  // ---------- Sharing ----------

  /** In every run, two live handles share a store exactly when they share a mutex. */
  lemma StoreSharedIffMutexShared(steps: seq<Step>, h: nat, k: nat)
    requires Valid(EMPTY, steps)
    requires h in Final(EMPTY, steps).live && k in Final(EMPTY, steps).live
    ensures var s := Final(EMPTY, steps);
            s.live[h].segment == s.live[k].segment <==> s.live[h].mutex == s.live[k].mutex
  {
    Reachable(steps);
  }

  /** A constructor finds the segment and the mutex of the handles that are there, and joins them. */
  lemma HandlesShare(s: State, h: nat, k: nat)
    requires Inv(s) && k in s.live && s.segmentName == Some(s.live[k].segment)
    requires h !in s.live && h !in s.crashed
    ensures Enabled(s, Open(h))
    ensures var t, g := Next(s, Open(h)), s.live[k].segment;
            && t.live == s.live[h := s.live[k]] && t.calls == s.calls && t.owners == s.owners
            && t.segmentName == s.segmentName && t.crashed == s.crashed
            && Store(t, g) == Store(s, g) && t.segments[g].count == s.segments[g].count + 1
  {
  }

  /** After `n` constructors. */
  ghost predicate AllShare(s: State, n: nat) {
    && (forall h: nat :: h in s.live <==> h < n)
    && (forall h | h in s.live :: s.live[h] == Handle(0, 0))
    && s.crashed == map[] && s.calls == map[]
    && (n > 0 ==> s.segmentName == Some(0))
  }

  /** Any number of handles share one store and one mutex. */
  lemma {:induction false} AnyNumberShare(n: nat) returns (steps: seq<Step>)
    ensures Valid(EMPTY, steps) && |steps| == n && forall i | 0 <= i < n :: steps[i] == Open(i)
    ensures AllShare(Final(EMPTY, steps), n)
  {
    hide Linked, Inv, Enabled, Next, Valid, Final, AllShare, Effect, Effects;
    if n == 0 {
      steps := [];
      NoSteps(EMPTY, 0);
      NoneShare();
    } else {
      var front := AnyNumberShare(n - 1);
      Reachable(front);
      if n == 1 {
        NoSteps(EMPTY, 0);
      }
      OneMoreShares(Final(EMPTY, front), n - 1);
      Extend(EMPTY, front, Open(n - 1), 0);
      steps := front + [Open(n - 1)];
    }
  }

  lemma NoneShare()
    ensures AllShare(EMPTY, 0)
  {
  }

  lemma OneMoreShares(s: State, n: nat)
    requires Inv(s) && AllShare(s, n) && (n == 0 ==> s == EMPTY)
    ensures Enabled(s, Open(n)) && AllShare(Next(s, Open(n)), n + 1)
  {
    if n > 0 {
      HandlesShare(s, n, 0);
      hide Next;
    }
  }

  /** In every run, at most one call per store is in its critical section. */
  lemma OneCallPerStore(steps: seq<Step>, c: nat, d: nat)
    requires Valid(EMPTY, steps)
    requires var s := Final(EMPTY, steps);
             && c in s.calls && s.calls[c].pc.Critical()
             && d in s.calls && s.calls[d].pc.Critical()
    ensures var s := Final(EMPTY, steps);
            SegmentOf(s, c) == SegmentOf(s, d) <==> c == d
  {
    Reachable(steps);
    if c != d {
      MutualExclusion(Final(EMPTY, steps), c, d);
    }
  }

  /** In every run, a count is the number of live and crashed handles of its generation. */
  lemma CountIsLiveAndCrashed(steps: seq<Step>, g: nat)
    requires Valid(EMPTY, steps) && g < |Final(EMPTY, steps).segments|
    ensures var s := Final(EMPTY, steps);
            && s.segments[g].count == |OnSegment(s.live, g)| + |OnSegment(s.crashed, g)|
            && (s.crashed == map[] ==> s.segments[g].count == |OnSegment(s.live, g)|)
  {
    Reachable(steps);
    var s := Final(EMPTY, steps);
    if s.crashed == map[] {
      assert OnSegment(s.crashed, g) == {};
    }
  }

  predicate OneWaitsForOther(s: State, p: Packet) {
    && 0 in s.calls && s.calls[0].pc == SendBuilding(p)
    && 1 in s.calls && s.calls[1].pc == ReceiveWaiting && !Enabled(s, Lock(1))
    && s.calls[0].handle != s.calls[1].handle && SegmentOf(s, 0) == SegmentOf(s, 1)
  }

  /** Two calls of two handles on one generation: one holds the lock, and the other waits for it. */
  lemma CallsShareLock(p: Packet) returns (opens: seq<Step>)
    ensures opens == [Open(0), Open(1)]
    ensures Valid(EMPTY, opens + [BeginSend(0, 0, p)] + [BeginReceive(1, 1)] + [Lock(0)])
    ensures OneWaitsForOther(Final(EMPTY, opens + [BeginSend(0, 0, p)] + [BeginReceive(1, 1)] + [Lock(0)]), p)
  {
    opens := AnyNumberShare(2);
    assert opens == [opens[0], opens[1]];
    Reachable(opens);
    TwoCallsOneLock(Final(EMPTY, opens), p);
    hide Linked, Inv, Enabled, Next, Valid, Final, AllShare, OneWaitsForOther, Effect, Effects;
    var send, receive := BeginSend(0, 0, p), BeginReceive(1, 1);
    Extend(EMPTY, opens, send, 0);
    Extend(EMPTY, opens + [send], receive, 0);
    Extend(EMPTY, opens + [send] + [receive], Lock(0), 0);
  }

  lemma TwoCallsOneLock(s: State, p: Packet)
    requires Inv(s) && AllShare(s, 2)
    ensures Enabled(s, BeginSend(0, 0, p)) && Enabled(Next(s, BeginSend(0, 0, p)), BeginReceive(1, 1))
    ensures Enabled(Next(Next(s, BeginSend(0, 0, p)), BeginReceive(1, 1)), Lock(0))
    ensures OneWaitsForOther(Next(Next(Next(s, BeginSend(0, 0, p)), BeginReceive(1, 1)), Lock(0)), p)
  {
  }

  // ---------- When the name and the live handles agree ----------

  /** The name is bound exactly while some handle is live, and all live handles are on what it is bound to. */
  predicate Healthy(s: State) {
    && (s.segmentName.Some? <==> s.live != map[])
    && (forall h | h in s.live :: s.segmentName == Some(s.live[h].segment))
  }

  /**
   * What a caller has to observe: no `Destroy` while handles are live, and the last live handle neither
   * crashes nor closes behind a crashed one.
   */
  predicate Allowed(s: State, step: Step) {
    match step
    case Destroy => s.live == map[]
    case Close(h) => s.live.Keys == {h} ==> s.crashed == map[]
    case Crash(h) => s.live.Keys != {h}
    case _ => true
  }

  /** In a healthy run crashed handles stay on the bound generation, which then never ends. */
  predicate Settled(s: State) {
    && Healthy(s)
    && (s.crashed != map[] ==> s.live != map[])
    && (forall h | h in s.crashed :: s.segmentName == Some(s.crashed[h].segment))
  }

  lemma SettledCount(s: State, h: nat)
    requires Inv(s) && Settled(s) && h in s.live
    ensures s.segments[s.live[h].segment].count == |s.live.Keys| + |s.crashed.Keys|
  {
    var g := s.live[h].segment;
    assert OnSegment(s.live, g) == s.live.Keys;
    assert OnSegment(s.crashed, g) == s.crashed.Keys;
  }

  lemma CloseIsHealthyIffAllowed(s: State, h: nat)
    requires Inv(s) && Settled(s) && Enabled(s, Close(h))
    ensures Healthy(Next(s, Close(h))) <==> Allowed(s, Close(h))
    ensures Allowed(s, Close(h)) ==> Settled(Next(s, Close(h)))
  {
    SettledCount(s, h);
    hide Inv;
    var t := Next(s, Close(h));
    assert t.live.Keys == s.live.Keys - {h};
    if s.live.Keys == {h} {
      assert t.live == map[];
      assert |s.crashed.Keys| == 0 <==> s.crashed == map[];
    } else {
      var k :| k in s.live && k != h;
      assert k in t.live;
      assert |s.live.Keys| > 1 by { assert {h, k} <= s.live.Keys; CardinalityOfSubset({h, k}, s.live.Keys); }
    }
  }

  lemma {:induction false} CardinalityOfSubset(xs: set<nat>, ys: set<nat>)
    requires xs <= ys
    ensures |xs| <= |ys|
  {
    if x :| x in xs {
      CardinalityOfSubset(xs - {x}, ys - {x});
    }
  }

  lemma StepIsHealthyIffAllowed(s: State, step: Step)
    requires Inv(s) && Settled(s) && Enabled(s, step)
    ensures Healthy(Next(s, step)) <==> Allowed(s, step)
    ensures Allowed(s, step) ==> Settled(Next(s, step))
  {
    var t := Next(s, step);
    match step
    case Close(h) => CloseIsHealthyIffAllowed(s, h);
    case Open(h) => assert h in t.live;
    case Destroy =>
    case Crash(h) =>
      if s.live.Keys == {h} {
        assert t.live == map[];
      } else {
        var k :| k in s.live && k != h;
        assert k in t.live;
      }
    case _ =>
      assert t.live == s.live && t.crashed == s.crashed && t.segmentName == s.segmentName;
  }

  /** Healthy at every moment of the run. */
  predicate AlwaysHealthy(s: State, steps: seq<Step>)
    requires Valid(s, steps)
  {
    Healthy(Final(s, steps)) && (steps != [] ==> AlwaysHealthy(s, steps[..|steps| - 1]))
  }

  predicate AllAllowed(s: State, steps: seq<Step>)
    requires Valid(s, steps)
  {
    steps != [] ==>
      var front, last := steps[..|steps| - 1], steps[|steps| - 1];
      AllAllowed(s, front) && Allowed(Final(s, front), last)
  }

  lemma {:induction false} HealthyRun(s: State, steps: seq<Step>)
    requires Inv(s) && Settled(s) && Valid(s, steps)
    ensures AlwaysHealthy(s, steps) <==> AllAllowed(s, steps)
    ensures AllAllowed(s, steps) ==> Settled(Final(s, steps))
  {
    if steps != [] {
      var front, last := steps[..|steps| - 1], steps[|steps| - 1];
      HealthyRun(s, front);
      InvOfRun(s, front);
      var mid := Final(s, front);
      if Settled(mid) {
        StepIsHealthyIffAllowed(mid, last);
      }
      hide Linked, Inv, Enabled, Next, Healthy, Settled, Allowed;
    }
  }

  /**
   * The name is bound exactly while some handle is live, with all live handles on that one generation, at
   * every moment of a run, if and only if every step of the run is allowed.
   */
  lemma AlwaysHealthyIffAllAllowed(steps: seq<Step>)
    requires Valid(EMPTY, steps)
    ensures AlwaysHealthy(EMPTY, steps) <==> AllAllowed(EMPTY, steps)
  {
    EmptyInv();
    HealthyRun(EMPTY, steps);
  }

  /** Constructors, destructors, sends and receives alone never break the agreement. */
  lemma {:induction false} OrdinaryUseIsHealthy(steps: seq<Step>)
    requires Valid(EMPTY, steps)
    requires forall i | 0 <= i < |steps| :: !steps[i].Destroy? && !steps[i].Crash?
    ensures AllAllowed(EMPTY, steps) && AlwaysHealthy(EMPTY, steps)
    ensures Final(EMPTY, steps).crashed == map[]
  {
    AlwaysHealthyIffAllAllowed(steps);
    if steps != [] {
      OrdinaryUseIsHealthy(steps[..|steps| - 1]);
      var mid, last := Final(EMPTY, steps[..|steps| - 1]), steps[|steps| - 1];
      assert Next(mid, last).crashed == mid.crashed;
    }
  }

  /** Two live handles of one name without a common store, the older about to unbind the name of the newer. */
  predicate Split(s: State) {
    && s.live.Keys == {0, 1} && s.live[0].segment != s.live[1].segment
    && Enabled(s, Close(0)) && s.segments[s.live[0].segment].count == 1
    && s.segmentName == Some(s.live[1].segment)
  }

  /** One `Destroy` too early, and two live handles with the same name no longer share a store. */
  lemma DestroyWhileLiveSplits() returns (steps: seq<Step>)
    ensures Valid(EMPTY, steps) && !AllAllowed(EMPTY, steps)
    ensures Split(Final(EMPTY, steps))
  {
    FirstSteps();
    ReopenSplits(Next(Next(EMPTY, Open(0)), Destroy));
    hide Linked, Enabled, Next, Healthy, Split, Effect, Effects;
    steps := [] + [Open(0)];
    Extend(EMPTY, [], Open(0), 0);
    Extend(EMPTY, steps, Destroy, 0);
    Extend(EMPTY, steps + [Destroy], Open(1), 0);
    steps := steps + [Destroy] + [Open(1)];
    AlwaysHealthyIffAllAllowed(steps);
  }

  lemma FirstSteps()
    ensures Enabled(EMPTY, Open(0)) && Enabled(Next(EMPTY, Open(0)), Destroy)
    ensures Next(Next(EMPTY, Open(0)), Destroy) ==
            Memory([Segment([], 1)], [None], None, None, map[0 := Handle(0, 0)], map[], map[])
  {
  }

  lemma ReopenSplits(s: State)
    requires s == Memory([Segment([], 1)], [None], None, None, map[0 := Handle(0, 0)], map[], map[])
    ensures Enabled(s, Open(1))
    ensures Split(Next(s, Open(1))) && !Healthy(Next(s, Open(1)))
  {
    var t := Next(s, Open(1));
    assert 0 in t.live && t.live[0].segment == 0 && t.live[1].segment == 1;
  }

  /** A destructor removes by name: the last handle of an old generation unbinds the name of a newer one. */
  lemma OldGenerationUnbindsNewName(s: State, h: nat, k: nat)
    requires Inv(s) && Enabled(s, Close(h)) && s.segments[s.live[h].segment].count == 1
    requires k in s.live && s.segmentName == Some(s.live[k].segment) && s.live[k].segment != s.live[h].segment
    ensures var t := Next(s, Close(h));
            k in t.live && t.segmentName.None? && t.mutexName.None? && !Healthy(t)
  {
    var t := Next(s, Close(h));
    assert k in t.live;
  }

  /** A crash outside critical sections takes the handle and its waiting calls, and leaves its count behind. */
  lemma CrashLeavesCount(s: State, h: nat)
    requires h in s.live && forall c | c in s.calls && s.calls[c].handle == h :: !s.calls[c].pc.Critical()
    ensures Enabled(s, Crash(h))
    ensures var t := Next(s, Crash(h));
            && t.live == s.live - {h} && t.segments == s.segments && t.owners == s.owners
            && t.segmentName == s.segmentName && t.mutexName == s.mutexName
            && forall c :: c in t.calls <==> c in s.calls && s.calls[c].handle != h
  {
  }

  // ---------- A new generation ----------

  /** A constructor starts a new generation exactly when the name is unbound; it is then empty and counts one. */
  lemma OpenIsFreshIffUnbound(s: State, h: nat)
    requires Inv(s) && h !in s.live && h !in s.crashed
    ensures Enabled(s, Open(h))
    ensures var t := Next(s, Open(h));
            && (t.live[h].segment == |s.segments| <==> s.segmentName.None?)
            && (s.segmentName.None? ==> t.segments[t.live[h].segment] == Segment([], 1))
  {
  }

  /** After the last destructor of an allowed run, the next constructor sees an empty store and counts only itself. */
  lemma NextGenerationIsFresh(steps: seq<Step>, h: nat)
    requires Valid(EMPTY, steps) && AllAllowed(EMPTY, steps)
    requires Final(EMPTY, steps).live == map[] && h !in Final(EMPTY, steps).crashed
    ensures Enabled(Final(EMPTY, steps), Open(h))
    ensures var s := Final(EMPTY, steps);
            var t := Next(s, Open(h));
            && t.live[h].segment == |s.segments|
            && t.segments[t.live[h].segment] == Segment([], 1)
  {
    Reachable(steps);
    AlwaysHealthyIffAllAllowed(steps);
    assert Healthy(Final(EMPTY, steps));
    hide AllAllowed, Valid, Final;
    OpenIsFreshIffUnbound(Final(EMPTY, steps), h);
  }

  // ---------- While some handle is always live ----------

  /** Some handle is live at every moment of the run. */
  predicate AlwaysLive(s: State, steps: seq<Step>)
    requires Valid(s, steps)
  {
    Final(s, steps).live != map[] && (steps != [] ==> AlwaysLive(s, steps[..|steps| - 1]))
  }

  lemma {:induction false} NameIsKept(s: State, steps: seq<Step>)
    requires Inv(s) && Settled(s) && Valid(s, steps) && AllAllowed(s, steps) && AlwaysLive(s, steps)
    ensures Final(s, steps).segmentName == s.segmentName
  {
    if steps != [] {
      var front, last := steps[..|steps| - 1], steps[|steps| - 1];
      NameIsKept(s, front);
      HealthyRun(s, front);
      InvOfRun(s, front);
      NameKept(Final(s, front), last);
    }
  }

  lemma NameKept(s: State, step: Step)
    requires Inv(s) && Settled(s) && s.live != map[]
    requires Enabled(s, step) && Allowed(s, step) && Next(s, step).live != map[]
    ensures Next(s, step).segmentName == s.segmentName
  {
    StepIsHealthyIffAllowed(s, step);
  }
}
