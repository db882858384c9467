/**
  The abstract specification the circular buffer is meant to implement: a
  first-in-first-out queue of integers that holds at most `cap` items.
  Putting into a full queue and taking from an empty one are not errors;
  they leave the queue alone and are reported as contention events.
 */
module BoundedQueue {

  /** One request made of the buffer: store an item, or take the oldest one. */
  datatype Op = Put(item: int) | Take

  /** What a request did, as observed by the caller. */
  datatype Event =
    | Inserted(item: int)
    | RejectedFull
    | Removed(item: int)
    | RejectedEmpty

  /** Enqueue `x` unless the queue already holds `cap` items. */
  function Enqueue(cap: nat, q: seq<int>, x: int): (r: (seq<int>, Event))
    ensures |q| < cap ==> r.0 == q + [x] && r.1 == Inserted(x)
    ensures |q| >= cap ==> r.0 == q && r.1 == RejectedFull
  {
    if |q| >= cap then (q, RejectedFull) else (q + [x], Inserted(x))
  }

  /** Dequeue the oldest item unless the queue is empty. */
  function Dequeue(q: seq<int>): (r: (seq<int>, Event))
    ensures |q| > 0 ==> r.1 == Removed(q[0]) && [q[0]] + r.0 == q
    ensures |q| == 0 ==> r.0 == q && r.1 == RejectedEmpty
  {
    if |q| == 0 then (q, RejectedEmpty) else (q[1..], Removed(q[0]))
  }

  function Step(cap: nat, q: seq<int>, op: Op): (seq<int>, Event)
  {
    match op
    case Put(x) => Enqueue(cap, q, x)
    case Take => Dequeue(q)
  }

  /** Apply `ops` in order; the result is the final queue and the events. */
  function Run(cap: nat, q: seq<int>, ops: seq<Op>): (seq<int>, seq<Event>)
    decreases |ops|
  {
    if |ops| == 0 then (q, [])
    else
      var (q', e) := Step(cap, q, ops[0]);
      var (final, events) := Run(cap, q', ops[1..]);
      (final, [e] + events)
  }

  /** The items of the successful puts among `events`, in order. */
  function InsertedItems(events: seq<Event>): seq<int>
  {
    if |events| == 0 then []
    else (if events[0].Inserted? then [events[0].item] else []) + InsertedItems(events[1..])
  }

  /** The items handed out by the successful takes among `events`, in order. */
  function RemovedItems(events: seq<Event>): seq<int>
  {
    if |events| == 0 then []
    else (if events[0].Removed? then [events[0].item] else []) + RemovedItems(events[1..])
  }

  /** Number of puts rejected because the queue was full. */
  function CountFull(events: seq<Event>): nat
  {
    if |events| == 0 then 0
    else (if events[0] == RejectedFull then 1 else 0) + CountFull(events[1..])
  }

  /** Number of takes rejected because the queue was empty. */
  function CountEmpty(events: seq<Event>): nat
  {
    if |events| == 0 then 0
    else (if events[0] == RejectedEmpty then 1 else 0) + CountEmpty(events[1..])
  }

  /**
    Conservation and order: what was in the queue followed by everything
    successfully put equals everything successfully taken followed by what
    is left. The queue never grows beyond its capacity.
   */
  lemma {:induction false} RunConserves(cap: nat, q: seq<int>, ops: seq<Op>)
    requires |q| <= cap
    ensures q + InsertedItems(Run(cap, q, ops).1) == RemovedItems(Run(cap, q, ops).1) + Run(cap, q, ops).0
    ensures |Run(cap, q, ops).0| <= cap
    decreases |ops|
  {
    if |ops| > 0 {
      var (q', e) := Step(cap, q, ops[0]);
      var (final, events) := Run(cap, q', ops[1..]);
      RunConserves(cap, q', ops[1..]);
      assert Run(cap, q, ops) == (final, [e] + events);
      assert ([e] + events)[1..] == events;
      assert InsertedItems([e] + events) == (if e.Inserted? then [e.item] else []) + InsertedItems(events);
      assert RemovedItems([e] + events) == (if e.Removed? then [e.item] else []) + RemovedItems(events);
      match ops[0]
      case Put(x) =>
        if |q| < cap {
          assert q' == q + [x] && e == Inserted(x);
          calc {
            q + InsertedItems([e] + events);
            q + ([x] + InsertedItems(events));
            (q + [x]) + InsertedItems(events);
            RemovedItems(events) + final;
            RemovedItems([e] + events) + final;
          }
        } else {
          assert q' == q && e == RejectedFull;
          assert InsertedItems([e] + events) == InsertedItems(events);
        }
      case Take =>
        if |q| > 0 {
          assert [q[0]] + q' == q && e == Removed(q[0]);
          calc {
            RemovedItems([e] + events) + final;
            ([q[0]] + RemovedItems(events)) + final;
            [q[0]] + (q' + InsertedItems(events));
            ([q[0]] + q') + InsertedItems(events);
            q + InsertedItems([e] + events);
          }
        } else {
          assert q' == q && e == RejectedEmpty;
          assert RemovedItems([e] + events) == RemovedItems(events);
        }
    }
  }

  /**
    Starting from an empty queue, the successful takes return exactly the
    oldest successful puts, in the order they were put, and the puts not
    yet taken are what the queue holds.
   */
  lemma FifoFromEmpty(cap: nat, ops: seq<Op>)
    ensures RemovedItems(Run(cap, [], ops).1) <= InsertedItems(Run(cap, [], ops).1)
    ensures |InsertedItems(Run(cap, [], ops).1)| - |RemovedItems(Run(cap, [], ops).1)| == |Run(cap, [], ops).0|
    ensures InsertedItems(Run(cap, [], ops).1) == RemovedItems(Run(cap, [], ops).1) + Run(cap, [], ops).0
  {
    RunConserves(cap, [], ops);
    var events := Run(cap, [], ops).1;
    assert [] + InsertedItems(events) == InsertedItems(events);
  }
}
