# Bounded FIFO of longs on a circular array

This project models `com.abc.sync.CircularArrayLongFifo`. It is a bounded,
thread-safe FIFO of Java `long` values. It implements the `LongFifo`
interface, and producers and consumers coordinate through it with
`wait`/`notifyAll` on one lock object.

- `java_ints.dfy` (module `JavaInts`): Java `int` and `long` as the newtypes
  `Int32` and `Int64`. `Wrap64` is `long` arithmetic with wrap-around modulo
  2^64.
- `long_fifo.dfy` (module `LongFifo`): the interface contract. The abstract
  value `Fifo` holds the items, oldest first, and the fixed capacity. `Clear`,
  `Add` and `Remove` state what the interface's `clear`, `add` and `remove`
  do to that value. `Run` executes a single thread's trace of adds and
  removes. Lemmas prove that traces keep FIFO order.
- `circular_array.dfy` (module `CircularArray`): the class
  `CircularArrayLongFifo`. It has a fixed `slots` array (`const`, as the
  Java field is `final`) and the `Int32` fields `head`, `tail` and `count`.
  A ghost `Contents` holds the live window `slots[head]`,
  `slots[(head+1) % capacity]`, and so on, for `count` items.
  `Valid()` is the representation invariant:
  - the capacity is at most `Integer.MAX_VALUE`, the largest Java array length;
  - `0 <= count <= capacity`;
  - for a positive capacity, `head` and `tail` lie in `[0, capacity)` and
    `tail == (head + count) % capacity`;
  - for capacity 0, `head` and `tail` are both 0;
  - `Contents` is that window.

  Every method is specified by what it does to `Abstract()`, the `LongFifo.Fifo`
  value the object stands for. The capacity is `slots.Length`. `slots` is a
  `const`, so the capacity cannot change over the object's lifetime.
- `monitor_wait.dfy` (module `MonitorWait`): the shared algorithm of
  `waitWhileFull`, `waitWhileEmpty` and `waitUntilEmpty`. The other threads
  and the clock are given as a list of wakeups.
- `demo.dfy` (module `Demo`): the demonstration program's expected output,
  with its scenarios run by one thread.

Blocking is modelled through the state a method starts in. A model method
starts in the state that its wait left behind, because the wait holds the lock
when it returns.

`waitWhileFull` returns false only right after it sees `isFull()` under the
lock, and it returns true only right after it sees the opposite. So
`add(value, msTimeout)` with a nonzero timeout succeeds exactly when the ring
is not full in that state (`AddWithin`). With timeout 0 the wait returns only
once there is room, so `AddWithin(v, 0)` and `Add(v)` require room.
`Remove` requires an item for the same reason.

The model accepts capacity 0, as the code does
(CircularArrayLongFifo.java:35). Such a FIFO is both empty and full. A timed
add on it returns false without reaching the `% slots.length` of `add`
(line 92). `remove` needs an item, so it never reaches its own
`% slots.length` (line 112) on such a FIFO. A negative capacity is not
accepted by the constructor, because Java's `new long[n]` throws for it.

## Model

| member | source | states |
|---|---|---|
| `JavaInts.Wrap64` | HW05-WaitNotifyLongFifo_Solution/src/java/com/abc/sync/CircularArrayLongFifo.java:186-193 | `long` arithmetic: the result is congruent to the exact value modulo 2^64, and equals it when it fits in a `long` |
| `LongFifo.Clear` | HW05-WaitNotifyLongFifo_Solution/src/java/com/abc/sync/LongFifo.java:13-14 | clear leaves the FIFO empty, with the same capacity |
| `LongFifo.Add` | HW05-WaitNotifyLongFifo_Solution/src/java/com/abc/sync/LongFifo.java:22-32 | adding to a FIFO that is not full keeps it within capacity: the items held stay as they were, the new value comes after them, and the capacity is unchanged |
| `LongFifo.Remove` | HW05-WaitNotifyLongFifo_Solution/src/java/com/abc/sync/LongFifo.java:34-37 | remove returns the oldest item; that item followed by the remaining items is exactly the old contents; the result is not full |
| `LongFifo.Run` | HW05-WaitNotifyLongFifo_Solution/src/java/com/abc/sync/LongFifo.java:22-37 | any trace of adds and removes that does not block ends within capacity, with capacity unchanged |
| `LongFifo.RunPreservesOrder` | HW05-WaitNotifyLongFifo_Solution/src/java/com/abc/sync/LongFifo.java:34-37 | FIFO order: over any trace, the values removed followed by the items left are the initial items followed by the values added |
| `LongFifo.RunPutAll` | HW05-WaitNotifyLongFifo_Solution/src/java/com/abc/sync/LongFifo.java:22-25 | adding values that fit never blocks and appends them in order |
| `LongFifo.RunTakeN` | HW05-WaitNotifyLongFifo_Solution/src/java/com/abc/sync/LongFifo.java:34-37 | `n` removes from a FIFO with at least `n` items return its `n` oldest items and leave the rest |
| `LongFifo.FillThenDrain` | HW05-WaitNotifyLongFifo_Solution/src/java/com/abc/sync/Demo.java:23-49 | on an empty FIFO, up to `capacity` adds followed by as many removes return the values in order and leave it empty |
| `CircularArray.WindowStore` | HW05-WaitNotifyLongFifo_Solution/src/java/com/abc/sync/CircularArrayLongFifo.java:91-93 | writing at `(head + count) % capacity` appends the value to the live window and leaves the items already held unchanged |
| `CircularArray.WindowTake` | HW05-WaitNotifyLongFifo_Solution/src/java/com/abc/sync/CircularArrayLongFifo.java:111-113 | the slot at `head` is the oldest item; advancing `head` modulo capacity leaves the window of the remaining items |
| `CircularArray.CircularArrayLongFifo.constructor` | HW05-WaitNotifyLongFifo_Solution/src/java/com/abc/sync/CircularArrayLongFifo.java:29-39 | a new FIFO is valid and empty, `head == tail == count == 0`, its capacity is `fixedCapacity`, and its slots are zero |
| `CircularArray.CircularArrayLongFifo.GetCount` | HW05-WaitNotifyLongFifo_Solution/src/java/com/abc/sync/CircularArrayLongFifo.java:48-52 | returns the number of items held |
| `CircularArray.CircularArrayLongFifo.IsEmpty` | HW05-WaitNotifyLongFifo_Solution/src/java/com/abc/sync/CircularArrayLongFifo.java:56-60 | true exactly when no item is held (getCount() == 0) |
| `CircularArray.CircularArrayLongFifo.IsFull` | HW05-WaitNotifyLongFifo_Solution/src/java/com/abc/sync/CircularArrayLongFifo.java:64-68 | true exactly when the number of items equals the capacity |
| `CircularArray.CircularArrayLongFifo.GetCapacity` | HW05-WaitNotifyLongFifo_Solution/src/java/com/abc/sync/CircularArrayLongFifo.java:82-84 | returns `slots.Length`, the abstract capacity |
| `CircularArray.CircularArrayLongFifo.Clear` | HW05-WaitNotifyLongFifo_Solution/src/java/com/abc/sync/CircularArrayLongFifo.java:71-78 | keeps the invariant, sets `head == tail == count == 0` and empties the contents; the capacity and the slots are untouched |
| `CircularArray.CircularArrayLongFifo.AddWithin` | HW05-WaitNotifyLongFifo_Solution/src/java/com/abc/sync/CircularArrayLongFifo.java:87-100 | keeps the invariant; returns true exactly when there was room. On true, the value is appended to the contents, stored at the old `tail`, `count` goes up by one and no other slot changes. On false, nothing changes |
| `CircularArray.CircularArrayLongFifo.Add` | HW05-WaitNotifyLongFifo_Solution/src/java/com/abc/sync/CircularArrayLongFifo.java:103-105 | always stores the value: it is appended to the contents, stored at the old `tail`, `head` is kept, `count` goes up by one, and no other slot changes |
| `CircularArray.CircularArrayLongFifo.Remove` | HW05-WaitNotifyLongFifo_Solution/src/java/com/abc/sync/CircularArrayLongFifo.java:108-117 | keeps the invariant; returns the oldest item, drops it from the contents and decrements `count`; `tail` and the slots are untouched |
| `MonitorWait.WaitWhile` | HW05-WaitNotifyLongFifo_Solution/src/java/com/abc/sync/CircularArrayLongFifo.java:175-197 | returns at once when the condition does not hold; otherwise returns true at the first wakeup that finds it gone. With a positive timeout it waits on only while time is left, and returns false at the first wakeup that finds the condition holding with time left `<= 0`. A negative timeout returns false at once. Timeout 0 never returns false |
| `MonitorWait.RemainingIsExact` | HW05-WaitNotifyLongFifo_Solution/src/java/com/abc/sync/CircularArrayLongFifo.java:186-193 | even if `start + msTimeout` overflows, `endTime - now` computed with wrap-around is the true time left whenever that fits in a `long` |
| `MonitorWait.TimeOutMeansDeadlinePassed` | HW05-WaitNotifyLongFifo_Solution/src/java/com/abc/sync/CircularArrayLongFifo.java:188-195 | a timed wait gives up only once at least `msTimeout` ms have passed by the clock, provided the true time left (`msTimeout - (now - start)`) fits in a `long`; when the clock steps back far enough for that value to overflow, `endTime - now` wraps to a negative value and the wait can give up at once |
| `Demo.Observe` | HW05-WaitNotifyLongFifo_Solution/src/java/com/abc/sync/Demo.java:27-29 | the three values the demonstration prints: isEmpty is true exactly when nothing is held, isFull exactly when the count equals the capacity, and getCount is the number of items held |
| `Demo.SimpleCheck` | HW05-WaitNotifyLongFifo_Solution/src/java/com/abc/sync/Demo.java:23-49 | capacity 5: empty/not full/0 at the start; after adding 5, 7, 3, not empty/not full/3; the removes return 5, 7, 3; then empty/not full/0 |
| `Demo.EmptyCheck` | HW05-WaitNotifyLongFifo_Solution/src/java/com/abc/sync/Demo.java:5-21 | after 10, 20, 30 are added and removed, the removes returned them in order, and waitUntilEmpty returns at once |
| `Demo.WrapAroundCheck` | HW05-WaitNotifyLongFifo_Solution/src/java/com/abc/sync/CircularArrayLongFifo.java:10-15 | in a capacity-3 ring, where both indices wrap past the last slot, the values come out in the order they went in, and the ring ends empty |
| `Demo.TimedWaitCheck` | HW05-WaitNotifyLongFifo_Solution/src/java/com/abc/sync/CircularArrayLongFifo.java:186-196 | a 10 ms wait whose first wakeup at 1000 ms still finds the condition holding gives up there (false) and does not wait for the next wakeup |
| `Demo.TimeoutCheck` | HW05-WaitNotifyLongFifo_Solution/src/java/com/abc/sync/CircularArrayLongFifo.java:87-100 | capacity 1: a timed add while full returns false and keeps the item; after a remove the same add succeeds |

The same wait algorithm appears three times in the source:
`waitUntilEmpty` (lines 120-142), `waitWhileEmpty` (lines 150-172) and
`waitWhileFull` (lines 175-197). `MonitorWait.WaitWhile` models all three.
The `blocked` argument is the condition being waited out: "not empty",
"empty" or "full".

## Left out

- Mutual exclusion (`synchronized (lockObject)`), `notifyAll` and `getLockObject`:
  thread coordination has no single-threaded meaning. Each model method stands
  for one critical section.
- Interleaving with other threads during a wait: `WaitWhile` takes what those
  threads do as its list of wakeups. The class methods start in the state the
  wait returned in, instead of running the wait themselves.
- `InterruptedException` from `wait`: this is thread cancellation, and it leaves
  the state as it was.
- `CircularArray.CircularArrayLongFifo.constructor`: a negative `fixedCapacity`
  makes Java throw `NegativeArraySizeException`. The model requires a
  non-negative capacity instead.
- `CircularArray.CircularArrayLongFifo.Add` and `CircularArray.CircularArrayLongFifo.Remove`
  (and `AddWithin` with timeout 0) require room or an item. The source blocks
  until another thread provides it, which a single thread cannot model.
- The `Remover` thread and the timing printout in `Demo.java`: `Demo.EmptyCheck`
  makes the remover's calls in line, and no time is measured.
