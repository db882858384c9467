/**
  The shared circular buffer of the producer/consumer program: five integer
  slots, a write index `bufferIn`, a read index `bufferOut`, and two
  contention counters. The buffer is empty when the indices are equal and
  full when advancing the write index would make it equal to the read
  index, so one slot is always left unused and at most four items fit.

  The program keeps this state in globals mutated under a lock; here it is
  an immutable record and every operation returns the next state.
 */
module RingBuffer {
  import Q = BoundedQueue

  /** Number of slots in the storage array. */
  const BufferSize: nat := 5

  /** Number of items the buffer can hold at once. */
  const Capacity: nat := BufferSize - 1

  /** The storage array always has exactly `BufferSize` slots. */
  type Slots = b: seq<int> | |b| == BufferSize witness [0, 0, 0, 0, 0]

  datatype BufferState = BufferState(
    bufferIn: int,     // where the next insert writes
    bufferOut: int,    // where the next remove reads
    buff: Slots,
    timesFull: int,    // inserts rejected because the buffer was full
    timesEmpty: int    // removes rejected because the buffer was empty
  )

  /** Both indices address a slot of the array. */
  predicate Valid(s: BufferState)
  {
    0 <= s.bufferIn < BufferSize && 0 <= s.bufferOut < BufferSize
  }

  predicate IsEmpty(s: BufferState)
  {
    s.bufferIn == s.bufferOut
  }

  /** The indices are never negative, so C's `%` agrees with Dafny's here. */
  predicate IsFull(s: BufferState)
    requires Valid(s)
  {
    (s.bufferIn + 1) % BufferSize == s.bufferOut
  }

  /**
    The number of items actually stored: the distance from the read index
    forward to the write index, going round the array.
   */
  function Occupancy(s: BufferState): (r: nat)
    requires Valid(s)
    ensures r == (s.bufferIn - s.bufferOut) % BufferSize
    ensures r <= Capacity
    ensures r == 0 <==> IsEmpty(s)
    ensures r == Capacity <==> IsFull(s)
  {
    if s.bufferIn >= s.bufferOut then s.bufferIn - s.bufferOut
    else BufferSize - (s.bufferOut - s.bufferIn)
  }

  /**
    The occupancy as the program computes it for its diagnostics: right
    when the indices have not wrapped, and the distance the other way
    round when they have.
   */
  function BuffersOccupied(s: BufferState): (r: nat)
    requires Valid(s)
    ensures r <= Capacity
    ensures s.bufferIn >= s.bufferOut ==> r == Occupancy(s)
    ensures s.bufferIn < s.bufferOut ==> r == BufferSize - Occupancy(s)
  {
    if s.bufferIn >= s.bufferOut then s.bufferIn - s.bufferOut
    else s.bufferOut - s.bufferIn
  }

  /**
    The queue the buffer stands for: the stored items, oldest first, read
    forward from `bufferOut` round the array.
   */
  function Contents(s: BufferState): (q: seq<int>)
    requires Valid(s)
    ensures |q| == Occupancy(s)
    ensures forall k :: 0 <= k < |q| ==> q[k] == s.buff[(s.bufferOut + k) % BufferSize]
  {
    seq(Occupancy(s), k requires 0 <= k < Occupancy(s) => s.buff[(s.bufferOut + k) % BufferSize])
  }

  /** Reset both indices and both counters; the slots keep their contents. */
  function Initialize(s: BufferState): (r: BufferState)
    ensures Valid(r) && IsEmpty(r) && Contents(r) == []
    ensures r.bufferIn == 0 && r.bufferOut == 0
    ensures r.timesFull == 0 && r.timesEmpty == 0
    ensures r.buff == s.buff
  {
    BufferState(0, 0, s.buff, 0, 0)
  }

  /** The result of an insert: whether it succeeded, and the next state. */
  datatype InsertOutcome = InsertOutcome(inserted: bool, after: BufferState)

  /**
    A rejected remove leaves the caller's destination as it was, so the
    outcome carries the destination's value after the call.
   */
  datatype RemoveOutcome = RemoveOutcome(removed: bool, item: int, after: BufferState)

  /** Store `item` at the write index unless the buffer is full. */
  function InsertItem(s: BufferState, item: int): (r: InsertOutcome)
    requires Valid(s)
    ensures Valid(r.after)
    ensures r.inserted <==> !IsFull(s)
    ensures !r.inserted ==>
      r.after == s.(timesFull := s.timesFull + 1)
    ensures r.inserted ==>
      && r.after.buff[s.bufferIn] == item
      && (forall k :: 0 <= k < BufferSize && k != s.bufferIn ==> r.after.buff[k] == s.buff[k])
      && r.after.bufferIn == (s.bufferIn + 1) % BufferSize
      && r.after.bufferOut == s.bufferOut
      && r.after.timesFull == s.timesFull
      && r.after.timesEmpty == s.timesEmpty
    ensures Occupancy(r.after) == if r.inserted then Occupancy(s) + 1 else Occupancy(s)
  {
    if (s.bufferIn + 1) % BufferSize == s.bufferOut then
      InsertOutcome(false, s.(timesFull := s.timesFull + 1))
    else
      InsertOutcome(true, s.(buff := s.buff[s.bufferIn := item],
                             bufferIn := (s.bufferIn + 1) % BufferSize))
  }

  /**
    Take the item at the read index unless the buffer is empty; `dest` is
    the value the caller's destination holds before the call.
   */
  function RemoveItem(s: BufferState, dest: int): (r: RemoveOutcome)
    requires Valid(s)
    ensures Valid(r.after)
    ensures r.removed <==> !IsEmpty(s)
    ensures !r.removed ==>
      r.item == dest && r.after == s.(timesEmpty := s.timesEmpty + 1)
    ensures r.removed ==>
      && r.item == s.buff[s.bufferOut]
      && r.after.bufferOut == (s.bufferOut + 1) % BufferSize
      && r.after.bufferIn == s.bufferIn
      && r.after.buff == s.buff
      && r.after.timesFull == s.timesFull
      && r.after.timesEmpty == s.timesEmpty
    ensures Occupancy(r.after) == if r.removed then Occupancy(s) - 1 else Occupancy(s)
  {
    if s.bufferIn == s.bufferOut then
      RemoveOutcome(false, dest, s.(timesEmpty := s.timesEmpty + 1))
    else
      RemoveOutcome(true, s.buff[s.bufferOut], s.(bufferOut := (s.bufferOut + 1) % BufferSize))
  }

  /**
    One request against the buffer, reported in the vocabulary of the
    abstract queue. A remove's destination is not observable in the event,
    so any starting value will do.
   */
  function Step(s: BufferState, op: Q.Op): (r: (BufferState, Q.Event))
    requires Valid(s)
    ensures Valid(r.0)
  {
    match op
    case Put(x) =>
      var o := InsertItem(s, x);
      (o.after, if o.inserted then Q.Inserted(x) else Q.RejectedFull)
    case Take =>
      var o := RemoveItem(s, 0);
      (o.after, if o.removed then Q.Removed(o.item) else Q.RejectedEmpty)
  }

  /** Apply `ops` in order; the result is the final state and the events. */
  function Run(s: BufferState, ops: seq<Q.Op>): (r: (BufferState, seq<Q.Event>))
    requires Valid(s)
    ensures Valid(r.0)
    ensures |r.1| == |ops|
    decreases |ops|
  {
    if |ops| == 0 then (s, [])
    else
      var (s', e) := Step(s, ops[0]);
      var (final, events) := Run(s', ops[1..]);
      (final, [e] + events)
  }
}
