/** The bounded capture queue between one capture thread and the ingest loop. When it is full the producer drops
    the oldest event to make room, in two separate queue operations that the consumer may come between. */
module CaptureQueue {
  import opened Wrappers

  /** Where the producer is inside `_emit`: outside it, after the failed put, or after the eviction. */
  datatype Producer<T> = Idle | Refused(event: T) | Evicted(event: T)

  /** The queue, the dropped counter, the producer, and the history: everything emitted and drained so far.
      `crashed` is an escaped `queue.Full`. */
  datatype State<T> = State(
    capacity: int, queue: seq<T>, dropped: nat, producer: Producer<T>, emitted: seq<T>, drained: seq<T>, crashed: bool)

  /** The atomic queue operations. `Take` is one `get_nowait` of the consumer's drain loop. */
  datatype Event<T> = Put(event: T) | Evict | Retry | Take

  /** A maximum size of zero or less means no bound. */
  predicate HasRoom<T>(s: State<T>) { s.capacity <= 0 || |s.queue| < s.capacity }

  predicate Enabled<T(==)>(s: State<T>, ev: Event<T>)
  {
    match ev
    case Put(_) => s.producer == Idle && !s.crashed
    case Evict => s.producer.Refused?
    case Retry => s.producer.Evicted?
    case Take => s.queue != []
  }

  function Next<T(==)>(s: State<T>, ev: Event<T>): State<T>
    requires Enabled(s, ev)
  {
    match ev
    case Put(e) =>
      var t := s.(emitted := s.emitted + [e]);
      if HasRoom(t) then t.(queue := t.queue + [e]) else t.(dropped := t.dropped + 1, producer := Refused(e))
    case Evict =>
      if s.queue == [] then s.(producer := Idle)
      else s.(queue := s.queue[1..], producer := Evicted(s.producer.event))
    case Retry =>
      if HasRoom(s) then s.(queue := s.queue + [s.producer.event], producer := Idle)
      else s.(producer := Idle, crashed := true)
    case Take => s.(drained := s.drained + [s.queue[0]], queue := s.queue[1..])
  }

  function Initial<T>(capacity: int): State<T> { State(capacity, [], 0, Idle, [], [], false) }

  predicate Reaches<T(==)>(s: State<T>, evs: seq<Event<T>>, t: State<T>)
    decreases |evs|
  {
    if evs == [] then s == t else Enabled(s, evs[0]) && Reaches(Next(s, evs[0]), evs[1..], t)
  }

  /** `a` stands in `b` in order, at these strictly rising places. */
  ghost predicate Embeds<T>(a: seq<T>, b: seq<T>, places: seq<nat>)
  {
    && |places| == |a|
    && (forall i :: 0 <= i < |a| ==> places[i] < |b| && a[i] == b[places[i]])
    && (forall i, j :: 0 <= i < j < |a| ==> places[i] < places[j])
  }

  ghost predicate Subsequence<T(!new)>(a: seq<T>, b: seq<T>) { exists places: seq<nat> :: Embeds(a, b, places) }

  lemma SubsequenceGrows<T(!new)>(a: seq<T>, b: seq<T>, x: T)
    requires Subsequence(a, b)
    ensures Subsequence(a, b + [x]) && Subsequence(a + [x], b + [x])
  {
    var places: seq<nat> :| Embeds(a, b, places);
    assert Embeds(a, b + [x], places);
    assert Embeds(a + [x], b + [x], places + [|b|]);
  }

  lemma SubsequenceLoses<T(!new)>(a: seq<T>, k: nat, b: seq<T>)
    requires Subsequence(a, b) && k < |a|
    ensures Subsequence(a[..k] + a[k + 1..], b)
  {
    var places: seq<nat> :| Embeds(a, b, places);
    assert Embeds(a[..k] + a[k + 1..], b, places[..k] + places[k + 1..]);
  }

  /** Between operations: within capacity; nothing has escaped; what is drained and queued is in emission order
      (an event the producer still holds is the last emitted and not among them); and every emitted event is
      drained, queued, counted as dropped or in the producer's hand. */
  ghost predicate Inv<T(!new)>(s: State<T>)
  {
    && !s.crashed
    && (s.capacity > 0 ==> |s.queue| <= s.capacity)
    && (s.producer.Evicted? ==> HasRoom(s))
    && (s.producer.Refused? ==> s.capacity > 0)
    && |s.emitted| == |s.drained| + |s.queue| + s.dropped + (if s.producer.Evicted? then 1 else 0)
    && (if s.producer.Idle? then Subsequence(s.drained + s.queue, s.emitted)
        else s.emitted != [] && s.emitted[|s.emitted| - 1] == s.producer.event
             && Subsequence(s.drained + s.queue, s.emitted[..|s.emitted| - 1]))
  }

  lemma InitialInv<T(!new)>(capacity: int)
    ensures Inv(Initial<T>(capacity))
  {
    assert Embeds<T>([] + [], [], []);
  }

  lemma InvNext<T(!new)>(s: State<T>, ev: Event<T>)
    requires Inv(s) && Enabled(s, ev)
    ensures Inv(Next(s, ev))
  {
    match ev
    case Put(e) => PutKeeps(s, e);
    case Evict => EvictKeeps(s);
    case Retry => RetryKeeps(s);
    case Take =>
      assert s.drained + [s.queue[0]] + s.queue[1..] == s.drained + s.queue;
  }

  lemma PutKeeps<T(!new)>(s: State<T>, e: T)
    requires Inv(s) && Enabled(s, Put(e))
    ensures Inv(Next(s, Put(e)))
  {
    hide Subsequence;
    SubsequenceGrows(s.drained + s.queue, s.emitted, e);
    assert s.drained + (s.queue + [e]) == s.drained + s.queue + [e];
    assert (s.emitted + [e])[..|s.emitted|] == s.emitted;
  }

  lemma EvictKeeps<T(!new)>(s: State<T>)
    requires Inv(s) && Enabled(s, Evict)
    ensures Inv(Next(s, Evict))
  {
    hide Subsequence;
    var all, before := s.drained + s.queue, s.emitted[..|s.emitted| - 1];
    assert s.emitted == before + [s.producer.event];
    if s.queue == [] {
      SubsequenceGrows(all, before, s.producer.event);
    } else {
      SubsequenceLoses(all, |s.drained|, before);
      assert all[..|s.drained|] + all[|s.drained| + 1..] == s.drained + s.queue[1..];
    }
  }

  lemma RetryKeeps<T(!new)>(s: State<T>)
    requires Inv(s) && Enabled(s, Retry)
    ensures Inv(Next(s, Retry))
  {
    hide Subsequence;
    var all, before := s.drained + s.queue, s.emitted[..|s.emitted| - 1];
    assert s.emitted == before + [s.producer.event];
    SubsequenceGrows(all, before, s.producer.event);
    assert s.drained + (s.queue + [s.producer.event]) == all + [s.producer.event];
  }

  lemma {:induction false} KeepsFrom<T(!new)>(s: State<T>, evs: seq<Event<T>>, t: State<T>)
    requires Inv(s) && Reaches(s, evs, t)
    ensures Inv(t)
    decreases |evs|
  {
    hide Inv, Next;
    if evs != [] {
      InvNext(s, evs[0]);
      KeepsFrom(Next(s, evs[0]), evs[1..], t);
    }
  }

  /** Under every interleaving of the producer and the consumer: the queue stays within its capacity, no
      exception escapes, drained plus queued events are an in-order subsequence of those emitted, and whenever
      the producer is idle, emitted = drained + queued + dropped. */
  lemma QueueIsSafe<T(!new)>(capacity: int, evs: seq<Event<T>>, s: State<T>)
    requires Reaches(Initial(capacity), evs, s)
    ensures !s.crashed && (capacity > 0 ==> |s.queue| <= capacity)
    ensures Subsequence(s.drained + s.queue, s.emitted)
    ensures s.producer.Idle? ==> |s.emitted| == |s.drained| + |s.queue| + s.dropped
  {
    InitialInv<T>(capacity);
    KeepsFrom(Initial(capacity), evs, s);
    CapacityFixed(Initial(capacity), evs, s);
    if !s.producer.Idle? {
      assert s.emitted == s.emitted[..|s.emitted| - 1] + [s.producer.event];
      SubsequenceGrows(s.drained + s.queue, s.emitted[..|s.emitted| - 1], s.producer.event);
    }
  }

  /** What is queued is the end of what was emitted, leaving out the event still in the producer's hand. */
  predicate Newest<T(==)>(s: State<T>)
  {
    var before := if s.producer.Idle? || s.emitted == [] then s.emitted else s.emitted[..|s.emitted| - 1];
    |s.queue| <= |before| && s.queue == before[|before| - |s.queue|..]
  }

  lemma {:induction false} NewestStays<T(!new)>(s: State<T>, evs: seq<Event<T>>, t: State<T>)
    requires Inv(s) && Newest(s) && Reaches(s, evs, t)
    ensures Newest(t)
    decreases |evs|
  {
    hide Inv, Newest, Next, Enabled;
    if evs != [] {
      InvNext(s, evs[0]);
      NewestNext(s, evs[0]);
      NewestStays(Next(s, evs[0]), evs[1..], t);
    }
  }

  /** So a full queue gives up its oldest event, never a newer one. */
  lemma QueueIsNewest<T(!new)>(capacity: int, evs: seq<Event<T>>, s: State<T>)
    requires Reaches(Initial(capacity), evs, s)
    ensures Newest(s)
  {
    InitialInv<T>(capacity);
    NewestStays(Initial(capacity), evs, s);
  }

  lemma NewestNext<T(!new)>(s: State<T>, ev: Event<T>)
    requires Inv(s) && Newest(s) && Enabled(s, ev)
    ensures Newest(Next(s, ev))
  {
    hide Subsequence;
    if !s.producer.Idle? { assert s.emitted == s.emitted[..|s.emitted| - 1] + [s.producer.event]; }
  }

  lemma {:induction false} CapacityFixed<T>(s: State<T>, evs: seq<Event<T>>, t: State<T>)
    requires Reaches(s, evs, t)
    ensures t.capacity == s.capacity
    decreases |evs|
  {
    if evs != [] { CapacityFixed(Next(s, evs[0]), evs[1..], t); }
  }

  /** The backend object. `Emit` and `Drain` are the source's methods running undisturbed; each is a run of the
      operations above. */
  class CaptureBackend<T(!new, ==)> {
    const capacity: int
    var queue: seq<T>
    var dropped: nat

    ghost predicate Valid()
      reads this
    {
      capacity > 0 ==> |queue| <= capacity
    }

    ghost function View(emitted: seq<T>, drained: seq<T>): State<T>
      reads this
    {
      State(capacity, queue, dropped, Idle, emitted, drained, false)
    }

    constructor (queueMax: int)
      ensures Valid() && View([], []) == Initial(queueMax)
    {
      capacity, queue, dropped := queueMax, [], 0;
    }

    method Emit(event: T)
      requires Valid()
      modifies this
      ensures Valid()
      ensures forall emitted, drained ::
                var s := old(View(emitted, drained));
                var evs := if HasRoom(s) then [Put(event)] else [Put(event), Evict, Retry];
                Reaches(s, evs, View(emitted + [event], drained))
      ensures if capacity <= 0 || |old(queue)| < capacity then queue == old(queue) + [event] && dropped == old(dropped)
              else queue == old(queue)[1..] + [event] && dropped == old(dropped) + 1
    {
      if capacity <= 0 || |queue| < capacity {
        queue := queue + [event];
        EmitRuns(old(queue), dropped, capacity, event);
      } else {
        dropped := dropped + 1;
        queue := queue[1..];
        assert |queue| < capacity;
        queue := queue + [event];
        EmitRuns(old(queue), old(dropped), capacity, event);
      }
    }

    method Drain(maxItems: int) returns (items: seq<T>)
      requires Valid()
      modifies this`queue
      ensures Valid() && items + queue == old(queue)
      ensures forall emitted, drained ::
                Reaches(old(View(emitted, drained)), Takes<T>(|items|), View(emitted, drained + items))
      ensures |items| == if maxItems <= 0 then 0 else if maxItems <= |old(queue)| then maxItems else |old(queue)|
    {
      items := [];
      while |items| < maxItems && queue != []
        invariant Valid() && items + queue == old(queue)
        invariant maxItems > 0 ==> |items| <= maxItems
        invariant maxItems <= 0 ==> items == []
        decreases |queue|
      {
        items := items + [queue[0]];
        queue := queue[1..];
      }
      forall emitted, drained
        ensures Reaches(old(View(emitted, drained)), Takes<T>(|items|), View(emitted, drained + items))
      {
        TakesRun(old(View(emitted, drained)), |items|);
        assert old(queue)[..|items|] == items && old(queue)[|items|..] == queue;
      }
    }
  }

  function Takes<T>(n: nat): seq<Event<T>> { seq(n, _ => Take) }

  /** Taking the `n` oldest events, one operation each. */
  lemma {:induction false} TakesRun<T>(s: State<T>, n: nat)
    requires n <= |s.queue|
    ensures Reaches(s, Takes<T>(n), s.(drained := s.drained + s.queue[..n], queue := s.queue[n..]))
    decreases n
  {
    if n == 0 {
      assert s.drained + s.queue[..0] == s.drained;
    } else {
      var t := Next(s, Take);
      TakesRun(t, n - 1);
      assert Takes<T>(n)[1..] == Takes<T>(n - 1);
      assert s.drained + s.queue[..n] == t.drained + t.queue[..n - 1];
      assert s.queue[n..] == t.queue[n - 1..];
    }
  }

  /** An undisturbed emission as operations. */
  lemma EmitRuns<T>(queue: seq<T>, dropped: nat, capacity: int, event: T)
    requires capacity > 0 ==> |queue| <= capacity
    ensures forall emitted: seq<T>, drained: seq<T> ::
              var s := State(capacity, queue, dropped, Idle, emitted, drained, false);
              var evs := if HasRoom(s) then [Put(event)] else [Put(event), Evict, Retry];
              var t := if HasRoom(s) then s.(queue := queue + [event], emitted := emitted + [event])
                       else s.(queue := queue[1..] + [event], dropped := dropped + 1, emitted := emitted + [event]);
              Reaches(s, evs, t)
  {
    forall emitted: seq<T>, drained: seq<T>
      ensures var s := State(capacity, queue, dropped, Idle, emitted, drained, false);
              var evs := if HasRoom(s) then [Put(event)] else [Put(event), Evict, Retry];
              var t := if HasRoom(s) then s.(queue := queue + [event], emitted := emitted + [event])
                       else s.(queue := queue[1..] + [event], dropped := dropped + 1, emitted := emitted + [event]);
              Reaches(s, evs, t)
    {
      var s := State(capacity, queue, dropped, Idle, emitted, drained, false);
      var a := Next(s, Put(event));
      if HasRoom(s) {
        assert Reaches(a, [Put(event)][1..], a);
      } else {
        var evs := [Put(event), Evict, Retry];
        var b := Next(a, Evict);
        var c := Next(b, Retry);
        assert evs[1..] == [Evict, Retry] && evs[1..][1..] == [Retry] && evs[1..][1..][1..] == [];
        assert Reaches(c, evs[1..][1..][1..], c);
        assert Reaches(b, evs[1..][1..], c);
        assert Reaches(a, evs[1..], c);
      }
    }
  }
}
