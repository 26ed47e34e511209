/** The atomic first-in-first-out queue that the transports are measured against. */
module FifoQueue {

  datatype Event<T> =
    | Enqueue(item: T)
    | Dequeue(batch: seq<T>)

  function Apply<T>(queue: seq<T>, e: Event<T>): seq<T> {
    match e
    case Enqueue(item) => queue + [item]
    case Dequeue(batch) => if |batch| <= |queue| then queue[|batch|..] else []
  }

  /** The queue after all events. */
  function ApplyAll<T>(queue: seq<T>, events: seq<Event<T>>): seq<T> {
    if events == [] then queue else Apply(ApplyAll(queue, events[..|events| - 1]), events[|events| - 1])
  }

  /** Every batch is taken from the front of the queue. */
  ghost predicate Legal<T>(queue: seq<T>, events: seq<Event<T>>) {
    events != [] ==>
      var front, last := events[..|events| - 1], events[|events| - 1];
      Legal(queue, front) && (last.Dequeue? ==> last.batch <= ApplyAll(queue, front))
  }

  /** Every batch is the whole queue. */
  ghost predicate Draining<T>(queue: seq<T>, events: seq<Event<T>>) {
    events != [] ==>
      var front, last := events[..|events| - 1], events[|events| - 1];
      Draining(queue, front) && (last.Dequeue? ==> last.batch == ApplyAll(queue, front))
  }

  function In<T>(e: Event<T>): seq<T> {
    match e case Enqueue(item) => [item] case Dequeue(_) => []
  }

  function Out<T>(e: Event<T>): seq<T> {
    match e case Enqueue(_) => [] case Dequeue(batch) => batch
  }

  function Enqueued<T>(events: seq<Event<T>>): seq<T> {
    if events == [] then [] else Enqueued(events[..|events| - 1]) + In(events[|events| - 1])
  }

  function Dequeued<T>(events: seq<Event<T>>): seq<T> {
    if events == [] then [] else Dequeued(events[..|events| - 1]) + Out(events[|events| - 1])
  }

  lemma Associative<T>(a: seq<T>, b: seq<T>, c: seq<T>)
    ensures (a + b) + c == a + (b + c)
  {
  }

  lemma NoHistory<T>()
    ensures Enqueued<T>([]) == [] && Dequeued<T>([]) == []
  {
  }

  lemma HistoryExtended<T>(events: seq<Event<T>>, e: Event<T>)
    ensures Enqueued(events + [e]) == Enqueued(events) + In(e)
    ensures Dequeued(events + [e]) == Dequeued(events) + Out(e)
  {
    hide In, Out;
    assert (events + [e])[..|events + [e]| - 1] == events;
  }

  lemma {:induction false} DrainingIsLegal<T>(queue: seq<T>, events: seq<Event<T>>)
    requires Draining(queue, events)
    ensures Legal(queue, events)
  {
    if events != [] {
      DrainingIsLegal(queue, events[..|events| - 1]);
    }
  }

  lemma ConservationStep<T>(queue: seq<T>, came: seq<T>, went: seq<T>, before: seq<T>, e: Event<T>)
    requires queue + came == went + before
    requires e.Dequeue? ==> e.batch <= before
    ensures queue + (came + In(e)) == (went + Out(e)) + Apply(before, e)
  {
    match e
    case Enqueue(item) =>
      Associative(queue, came, [item]);
      Associative(went, before, [item]);
      assert went + [] == went;
    case Dequeue(batch) =>
      assert before == batch + before[|batch|..];
      Associative(went, batch, before[|batch|..]);
      assert came + [] == came;
  }

  /** Nothing is lost, duplicated or reordered: what came in is what went out, then what is still there. */
  lemma {:induction false} Conservation<T>(queue: seq<T>, events: seq<Event<T>>)
    requires Legal(queue, events)
    ensures queue + Enqueued(events) == Dequeued(events) + ApplyAll(queue, events)
  {
    hide Apply, In, Out;
    if events == [] {
      assert queue + [] == [] + queue;
    } else {
      var front, last := events[..|events| - 1], events[|events| - 1];
      Conservation(queue, front);
      ConservationStep(queue, Enqueued(front), Dequeued(front), ApplyAll(queue, front), last);
    }
  }

  /** A history is legal exactly when, at every moment, what went out is a prefix of what came in. */
  lemma {:induction false} LegalIffPrefixes<T>(queue: seq<T>, events: seq<Event<T>>)
    ensures Legal(queue, events) <==>
            forall k | 0 <= k <= |events| :: PrefixLegal(queue, events, k)
  {
    hide Enqueued, Dequeued, ApplyAll, PrefixLegal;
    PrefixLegalAtEnd(queue, events);
    if events == [] {
      NoHistory<T>();
    } else {
      var front, last := events[..|events| - 1], events[|events| - 1];
      LegalIffPrefixes(queue, front);
      LegalExtended(queue, front, last);
      assert front + [last] == events;
      hide Legal;
      forall k | 0 <= k <= |front|
        ensures PrefixLegal(queue, events, k) <==> PrefixLegal(queue, front, k)
      {
        PrefixLegalOfFront(queue, events, k);
      }
    }
  }

  lemma PrefixLegalAtEnd<T>(queue: seq<T>, events: seq<Event<T>>)
    ensures PrefixLegal(queue, events, |events|) <==> Dequeued(events) <= queue + Enqueued(events)
  {
    hide Enqueued, Dequeued;
    assert events[..|events|] == events;
  }

  lemma PrefixLegalOfFront<T>(queue: seq<T>, events: seq<Event<T>>, k: nat)
    requires k < |events|
    ensures PrefixLegal(queue, events, k) <==> PrefixLegal(queue, events[..|events| - 1], k)
  {
    hide Enqueued, Dequeued;
    assert events[..k] == events[..|events| - 1][..k];
  }

  /** At the moment `k`, what went out is a prefix of what came in. */
  ghost predicate PrefixLegal<T>(queue: seq<T>, events: seq<Event<T>>, k: nat)
    requires k <= |events|
  {
    Dequeued(events[..k]) <= queue + Enqueued(events[..k])
  }

  lemma LegalExtended<T>(queue: seq<T>, front: seq<Event<T>>, last: Event<T>)
    ensures Legal(queue, front + [last]) <==>
            Legal(queue, front) && Dequeued(front + [last]) <= queue + Enqueued(front + [last])
  {
    assert (front + [last])[..|front + [last]| - 1] == front;
    hide Enqueued, Dequeued, ApplyAll;
    if Legal(queue, front) {
      Conservation(queue, front);
      LegalStep(queue, front, last);
    }
  }

  lemma LegalStep<T>(queue: seq<T>, front: seq<Event<T>>, last: Event<T>)
    requires queue + Enqueued(front) == Dequeued(front) + ApplyAll(queue, front)
    ensures (last.Dequeue? ==> last.batch <= ApplyAll(queue, front)) <==>
            Dequeued(front + [last]) <= queue + Enqueued(front + [last])
  {
    HistoryExtended(front, last);
    hide Enqueued, Dequeued;
    var before, out := ApplyAll(queue, front), Dequeued(front);
    match last
    case Enqueue(item) =>
      Associative(queue, Enqueued(front), [item]);
      Associative(out, before, [item]);
      assert out + [] == out;
    case Dequeue(batch) =>
      assert Enqueued(front) + [] == Enqueued(front);
      PrefixOfRest(out, before, batch);
  }

  lemma PrefixOfRest<T>(out: seq<T>, rest: seq<T>, batch: seq<T>)
    ensures out + batch <= out + rest <==> batch <= rest
  {
    if out + batch <= out + rest {
      assert (out + rest)[|out|..] == rest;
      assert (out + batch)[|out|..] == batch;
    }
    if batch <= rest {
      assert rest == batch + rest[|batch|..];
      Associative(out, batch, rest[|batch|..]);
    }
  }

  lemma {:induction false} ConcatHistories<T>(xs: seq<Event<T>>, ys: seq<Event<T>>)
    ensures Enqueued(xs + ys) == Enqueued(xs) + Enqueued(ys)
    ensures Dequeued(xs + ys) == Dequeued(xs) + Dequeued(ys)
  {
    hide Enqueued, Dequeued, In, Out;
    if ys == [] {
      NoHistory<T>();
      assert xs + ys == xs;
      assert Enqueued(xs) + [] == Enqueued(xs) && Dequeued(xs) + [] == Dequeued(xs);
    } else {
      var front, last := ys[..|ys| - 1], ys[|ys| - 1];
      assert front + [last] == ys;
      ConcatHistories(xs, front);
      HistoryExtended(xs + front, last);
      HistoryExtended(front, last);
      Associative(xs, front, [last]);
      Associative(Enqueued(xs), Enqueued(front), In(last));
      Associative(Dequeued(xs), Dequeued(front), Out(last));
    }
  }

  lemma {:induction false} ConcatDraining<T>(queue: seq<T>, xs: seq<Event<T>>, ys: seq<Event<T>>)
    ensures ApplyAll(queue, xs + ys) == ApplyAll(ApplyAll(queue, xs), ys)
    ensures Draining(queue, xs + ys) <==> Draining(queue, xs) && Draining(ApplyAll(queue, xs), ys)
  {
    if ys == [] {
      assert xs + ys == xs;
    } else {
      var front := ys[..|ys| - 1];
      ConcatDraining(queue, xs, front);
      assert (xs + ys)[..|xs + ys| - 1] == xs + front;
    }
  }

  lemma {:induction false} ConcatLegal<T>(queue: seq<T>, xs: seq<Event<T>>, ys: seq<Event<T>>)
    ensures ApplyAll(queue, xs + ys) == ApplyAll(ApplyAll(queue, xs), ys)
    ensures Legal(queue, xs + ys) <==> Legal(queue, xs) && Legal(ApplyAll(queue, xs), ys)
  {
    if ys == [] {
      assert xs + ys == xs;
    } else {
      var front := ys[..|ys| - 1];
      ConcatLegal(queue, xs, front);
      assert (xs + ys)[..|xs + ys| - 1] == xs + front;
    }
  }
}
