/**
  The circular buffer refines the bounded FIFO queue of capacity
  `BufferSize - 1`: under the abstraction `Contents`, every insert and remove
  does to the stored items what the abstract queue does, reports the same
  event, and the contention counters count exactly the rejected requests.
 */
module Refinement {
  import Q = BoundedQueue
  import RB = RingBuffer

  /** An accepted insert appends its item to the abstract queue. */
  lemma InsertRefines(s: RB.BufferState, x: int)
    requires RB.Valid(s)
    ensures RB.InsertItem(s, x).inserted <==> |RB.Contents(s)| < RB.Capacity
    ensures RB.Contents(RB.InsertItem(s, x).after) == Q.Enqueue(RB.Capacity, RB.Contents(s), x).0
  {
    var o := RB.InsertItem(s, x);
    var q, q' := RB.Contents(s), RB.Contents(o.after);
    if o.inserted {
      var n := RB.Occupancy(s);
      assert (s.bufferOut + n) % RB.BufferSize == s.bufferIn;
      forall k | 0 <= k < n
        ensures q'[k] == q[k]
      {
        assert (s.bufferOut + k) % RB.BufferSize != s.bufferIn;
      }
      assert q' == q + [x];
    }
  }

  /** An accepted remove hands out the head of the abstract queue and drops it. */
  lemma RemoveRefines(s: RB.BufferState, dest: int)
    requires RB.Valid(s)
    ensures RB.RemoveItem(s, dest).removed <==> |RB.Contents(s)| > 0
    ensures RB.RemoveItem(s, dest).removed ==> RB.RemoveItem(s, dest).item == RB.Contents(s)[0]
    ensures RB.Contents(RB.RemoveItem(s, dest).after) == Q.Dequeue(RB.Contents(s)).0
  {
    var o := RB.RemoveItem(s, dest);
    var q, q' := RB.Contents(s), RB.Contents(o.after);
    if o.removed {
      forall k | 0 <= k < |q'|
        ensures q'[k] == q[k + 1]
      {
        assert ((s.bufferOut + 1) % RB.BufferSize + k) % RB.BufferSize
            == (s.bufferOut + (k + 1)) % RB.BufferSize;
      }
      assert q' == q[1..];
    }
  }

  /** One request: same event, and the abstraction commutes with the step. */
  lemma StepRefines(s: RB.BufferState, op: Q.Op)
    requires RB.Valid(s)
    ensures RB.Step(s, op).1 == Q.Step(RB.Capacity, RB.Contents(s), op).1
    ensures RB.Contents(RB.Step(s, op).0) == Q.Step(RB.Capacity, RB.Contents(s), op).0
  {
    match op
    case Put(x) => InsertRefines(s, x);
    case Take => RemoveRefines(s, 0);
  }

  /**
    Any sequence of requests: the buffer produces the same events as the
    abstract queue started from the buffer's contents, and ends holding
    what the queue ends holding.
   */
  lemma {:induction false} RunRefines(s: RB.BufferState, ops: seq<Q.Op>)
    requires RB.Valid(s)
    ensures RB.Run(s, ops).1 == Q.Run(RB.Capacity, RB.Contents(s), ops).1
    ensures RB.Contents(RB.Run(s, ops).0) == Q.Run(RB.Capacity, RB.Contents(s), ops).0
    decreases |ops|
  {
    if |ops| > 0 {
      StepRefines(s, ops[0]);
      var (s', e) := RB.Step(s, ops[0]);
      RunRefines(s', ops[1..]);
    }
  }

  /**
    The counters grow by exactly the number of rejected requests of their
    kind, and by nothing else.
   */
  lemma {:induction false} CountersCountRejections(s: RB.BufferState, ops: seq<Q.Op>)
    requires RB.Valid(s)
    ensures RB.Run(s, ops).0.timesFull == s.timesFull + Q.CountFull(RB.Run(s, ops).1)
    ensures RB.Run(s, ops).0.timesEmpty == s.timesEmpty + Q.CountEmpty(RB.Run(s, ops).1)
    decreases |ops|
  {
    if |ops| > 0 {
      var (s', e) := RB.Step(s, ops[0]);
      var (final, events) := RB.Run(s', ops[1..]);
      CountersCountRejections(s', ops[1..]);
      assert RB.Run(s, ops) == (final, [e] + events);
      assert ([e] + events)[1..] == events;
    }
  }

  /**
    From a freshly initialised buffer, whatever requests arrive: the
    indices stay in range, at most `Capacity` items are held, the
    successful removes return the successful inserts in first-in-first-out
    order, and the inserted items are the removed ones followed by what the
    buffer still holds.
   */
  lemma FifoAfterInitialize(s0: RB.BufferState, ops: seq<Q.Op>)
    ensures var (final, events) := RB.Run(RB.Initialize(s0), ops);
            && RB.Valid(final)
            && RB.Occupancy(final) <= RB.Capacity
            && Q.RemovedItems(events) <= Q.InsertedItems(events)
            && |Q.InsertedItems(events)| - |Q.RemovedItems(events)| == RB.Occupancy(final)
            && Q.InsertedItems(events) == Q.RemovedItems(events) + RB.Contents(final)
  {
    RunRefines(RB.Initialize(s0), ops);
    Q.FifoFromEmpty(RB.Capacity, ops);
  }

  /**
    The diagnostic count is the true number of stored items exactly when
    the indices have not wrapped; once they have, it is never right.
   */
  lemma BuffersOccupiedExactIffUnwrapped(s: RB.BufferState)
    requires RB.Valid(s)
    ensures RB.BuffersOccupied(s) == |RB.Contents(s)| <==> s.bufferIn >= s.bufferOut
  {
  }

  /**
    The state a fresh buffer is in after inserting 1, 2 and 3, removing
    three times, and inserting 4, 5 and 6, each call made directly.
   */
  function WrappedScenario(s0: RB.BufferState): (s: RB.BufferState)
    ensures RB.Valid(s)
  {
    var t0 := RB.Initialize(s0);
    var t1 := RB.InsertItem(t0, 1).after;
    var t2 := RB.InsertItem(t1, 2).after;
    var t3 := RB.InsertItem(t2, 3).after;
    var t4 := RB.RemoveItem(t3, 0).after;
    var t5 := RB.RemoveItem(t4, 0).after;
    var t6 := RB.RemoveItem(t5, 0).after;
    var t7 := RB.InsertItem(t6, 4).after;
    var t8 := RB.InsertItem(t7, 5).after;
    RB.InsertItem(t8, 6).after
  }

  /**
    That scenario leaves the indices wrapped with three items held, the
    last three inserted, while the diagnostic count says two.
   */
  lemma BuffersOccupiedMisreports(s0: RB.BufferState)
    ensures WrappedScenario(s0).bufferIn < WrappedScenario(s0).bufferOut
    ensures RB.Contents(WrappedScenario(s0)) == [4, 5, 6]
    ensures RB.BuffersOccupied(WrappedScenario(s0)) == 2
  {
    var t0 := RB.Initialize(s0);
    var t1 := RB.InsertItem(t0, 1).after;
    assert t1.bufferIn == 1 && t1.bufferOut == 0;
    var t2 := RB.InsertItem(t1, 2).after;
    assert t2.bufferIn == 2 && t2.bufferOut == 0;
    var t3 := RB.InsertItem(t2, 3).after;
    assert t3.bufferIn == 3 && t3.bufferOut == 0;
    var t4 := RB.RemoveItem(t3, 0).after;
    assert t4.bufferIn == 3 && t4.bufferOut == 1;
    var t5 := RB.RemoveItem(t4, 0).after;
    assert t5.bufferIn == 3 && t5.bufferOut == 2;
    var t6 := RB.RemoveItem(t5, 0).after;
    assert t6.bufferIn == 3 && t6.bufferOut == 3;
    var t7 := RB.InsertItem(t6, 4).after;
    assert t7.bufferIn == 4 && t7.bufferOut == 3 && t7.buff[3] == 4;
    var t8 := RB.InsertItem(t7, 5).after;
    assert t8.bufferIn == 0 && t8.bufferOut == 3 && t8.buff[3] == 4 && t8.buff[4] == 5;
    var t9 := RB.InsertItem(t8, 6).after;
    assert t9.bufferIn == 1 && t9.bufferOut == 3;
    assert t9.buff[3] == 4 && t9.buff[4] == 5 && t9.buff[0] == 6;
    assert t9 == WrappedScenario(s0);
    var c := RB.Contents(t9);
    assert |c| == 3 && c[0] == 4 && c[1] == 5 && c[2] == 6;
  }
}
