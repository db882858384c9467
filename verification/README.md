# Producer/consumer circular buffer — Dafny model

This project models the sequential core of a producer/consumer program in
which producer threads put random integers into a shared circular buffer
and consumer threads take them out. When verbose output is on, a consumer
also tests each item it removes for primality, only to decide what to print.

The buffer has `BUFFER_SIZE` = 5 integer slots. It has a write index
`buffer_in`, a read index `buffer_out`, and two contention counters:
`timesFull` counts rejected inserts and `timesEmpty` counts rejected removes.
The buffer is empty when the two indices are equal. It is full when
advancing `buffer_in` would make it equal to `buffer_out`, so one slot always
stays unused and at most four items are held.

The model has four modules:

- `BoundedQueue` (`bounded_queue.dfy`) is the abstract specification: a FIFO
  queue of integers with a capacity. It also defines the request (`Op`) and
  event (`Event`) vocabulary and proves conservation and FIFO order for any
  run of requests.
- `RingBuffer` (`ring_buffer.dfy`) holds the buffer state as an immutable
  record. It gives `initialize` (index and counter resets only),
  `buffer_insert_item`, `buffer_remove_item` and `buffers_occupied` as pure
  functions with exact post-states, and adds `Step`/`Run` to drive them with
  any sequence of requests.
- `Refinement` (`refinement.dfy`) maps a buffer state to the queue it stands
  for (`RingBuffer.Contents`). It proves that the buffer refines the queue of
  capacity 4 and that the counters count exactly the rejected requests. It
  also proves what `buffers_occupied` really returns.
- `Primality` (`primality.dfy`) models `isPrime`, the trial-division test the
  verbose printout applies to removed items, and relates it to the textbook
  notion of a prime.

In the program, a remove writes through an out-parameter and leaves it alone
when it fails. The model passes the destination's old value in (`dest`) and
returns its value after the call.

## Model

| member | source | states |
|---|---|---|
| `RingBuffer.Initialize` | ABecker2Proj4.cpp:102-107 | Both indices and both counters become 0. The slots are untouched. The result is a valid, empty buffer whose abstract contents are the empty queue. |
| `RingBuffer.InsertItem` | ABecker2Proj4.cpp:123-134 | The insert succeeds exactly when the buffer is not full. On a full buffer, the only change is `timesFull` going up by one. Otherwise the item is written at the old `buffer_in` and every other slot is kept. `buffer_in` advances modulo 5, and `buffer_out` and both counters are unchanged. Indices stay in range, and the occupancy grows by one exactly on success. |
| `RingBuffer.RemoveItem` | ABecker2Proj4.cpp:144-155 | The remove succeeds exactly when the buffer is not empty. On an empty buffer, the only change is `timesEmpty` going up by one, and the destination keeps its old value. Otherwise the item at the old `buffer_out` is output and `buffer_out` advances modulo 5. The slots, `buffer_in` and the counters are unchanged. Indices stay in range, and the occupancy shrinks by one exactly on success. |
| `RingBuffer.Occupancy` | ABecker2Proj4.cpp:163-170 | The corrected occupancy: `(buffer_in - buffer_out) mod 5`, always in [0, 4]. It is 0 exactly when the buffer is empty and 4 exactly when it is full. |
| `RingBuffer.BuffersOccupied` | ABecker2Proj4.cpp:163-170 | What the code returns: a value in [0, 4]. It equals the true occupancy when `buffer_in >= buffer_out`. In the wrapped case it equals 5 minus the true occupancy. |
| `RingBuffer.Step` | ABecker2Proj4.cpp:123-155 | One insert or remove keeps both indices in [0, 5). |
| `RingBuffer.Run` | ABecker2Proj4.cpp:123-155 | Any sequence of inserts and removes keeps both indices in [0, 5) and reports one event per request. |
| `Refinement.InsertRefines` | ABecker2Proj4.cpp:123-134 | An insert succeeds exactly when fewer than 4 items are held. The new contents are what the abstract enqueue of capacity 4 gives: the old contents with the item appended, or the old contents unchanged. |
| `Refinement.RemoveRefines` | ABecker2Proj4.cpp:144-155 | A remove succeeds exactly when some item is held. A successful remove outputs the oldest item. The new contents are what the abstract dequeue gives. |
| `Refinement.StepRefines` | ABecker2Proj4.cpp:123-155 | One request on the buffer reports the same event as the abstract queue. The abstraction commutes with the step. |
| `Refinement.RunRefines` | ABecker2Proj4.cpp:123-155 | Any sequence of requests produces the same events on the buffer as on the abstract queue of capacity 4 started from the buffer's contents. Both end holding the same items. |
| `Refinement.CountersCountRejections` | ABecker2Proj4.cpp:125-129 | Over any sequence of requests, `timesFull` grows by exactly the number of rejected inserts and `timesEmpty` by exactly the number of rejected removes. |
| `Refinement.FifoAfterInitialize` | ABecker2Proj4.cpp:102-155 | After `initialize`, for any sequence of requests, the indices stay in range and at most 4 items are held. The successful removes return a prefix of the successfully inserted items, in insertion order. The inserted items are exactly the removed items followed by the items still held, oldest first. |
| `Refinement.BuffersOccupiedExactIffUnwrapped` | ABecker2Proj4.cpp:163-170 | `buffers_occupied` equals the number of held items if and only if `buffer_in >= buffer_out`. |
| `Refinement.BuffersOccupiedMisreports` | ABecker2Proj4.cpp:163-170 | Start from a freshly initialised buffer. Insert 1, 2 and 3, remove three times, then insert 4, 5 and 6. This leaves `buffer_in < buffer_out` with the items 4, 5, 6 held, oldest first. `buffers_occupied` reports 2. |
| `Primality.IsPrime` | ABecker2Proj4.cpp:81-93 | The result is false exactly when some `i` with `2 <= i <= num/2` divides `num`, where `/` truncates toward zero. Hence the result is true for every `num <= 3`, including 0, 1 and negatives. |
| `Primality.HalfTowardZero` | ABecker2Proj4.cpp:84 | The loop bound `num/2` with C's truncating division. For non-negative `num` twice the result is `num` or `num - 1`. For negative `num` it is `num` or `num + 1`. |
| `Primality.ProperDivisorAtMostHalf` | ABecker2Proj4.cpp:84-86 | Any divisor of `n` between 2 and `n - 1` is at most `n/2`, so the shortened search misses none. |
| `Primality.IsPrimeAgreesWithPrimality` | ABecker2Proj4.cpp:81-93 | For `n >= 2`, the search finds no divisor exactly when `n` is prime. For `n < 2`, it finds none although `n` is not prime. |

## Findings

| source | as written | input that shows it | evidently intended | confidence | as-written member | corrected member |
|---|---|---|---|---|---|---|
| ABecker2Proj4.cpp:163-170 | When the indices have wrapped (`buffer_in < buffer_out`), `buffers_occupied` returns `buffer_out - buffer_in`. | `initialize`, then insert 1, 2, 3, remove three times, and insert 4, 5, 6. This leaves `buffer_in = 1` and `buffer_out = 3` with three items held, but the function returns 2. | Return `BUFFER_SIZE - (buffer_out - buffer_in)`, the number of items held, as the function's comment says. | high; not executed | `RingBuffer.BuffersOccupied`, `Refinement.BuffersOccupiedMisreports` | `RingBuffer.Occupancy` |

Because `BUFFER_SIZE` is odd, the wrapped-case value is never right. This is
what `Refinement.BuffersOccupiedExactIffUnwrapped` proves. The program uses
the value only in its diagnostic printout. The model uses `RingBuffer.Occupancy`
everywhere else, including for the abstraction `RingBuffer.Contents`.

## Left out

- Semaphores, the mutex and the thread attribute (`pthread_attr_init`, `pthread_mutex_init`, `sem_init` in `initialize`; `sem_wait`/`sem_post` in the thread loops) are concurrency primitives with no sequential meaning. No claim is made that the semaphore protocol keeps inserts from hitting a full buffer. It does not: `empty` starts at 5, not 4, and `full` is posted even after a failed insert.
- The `producer` and `consumer` thread loops, thread creation and joining in `main`, the shared `sim` stop flag and the courtesy posts at thread exit are left out because they only have meaning under concurrency.
- Sleeping (`nanosleep`) and random numbers (`rand_r` with the shared seed) are left out because they are timing and randomness, not functional behaviour. In the model, the items and the order of requests are free parameters (`Op` sequences).
- `print_buffer_stats` and all console output are left out because they are formatting only.
- Argument checking, `atoi` parsing and aggregation of per-thread totals in `main` are left out because they are process glue and reporting.
- RingBuffer.InsertItem: `timesFull` is a `long int` in the program. The model uses an unbounded integer and does not model 64-bit overflow, which would take more than 2^63 rejected inserts.
- RingBuffer.RemoveItem: `timesEmpty` is unbounded in the model for the same reason.
- Primality.IsPrime: `num` is an unbounded integer rather than a 32-bit `int`. Nothing in the function can overflow: the loop counter starts at 2 and ends at most at `num/2 + 1`, which is below 2^30 + 1 for any 32-bit `num`, so the results agree on every 32-bit input.
- RingBuffer.Initialize: the storage array is never cleared by the program (it is a zero-initialised global). The model keeps whatever the slots held, and no property depends on their contents before the first insert.
