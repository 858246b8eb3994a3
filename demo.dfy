/**
 * The demonstration program's scenarios, run by a single thread against the
 * model: what `Demo` prints as expected values is stated here as postconditions.
 */
module Demo {
  import opened JavaInts
  import opened CircularArray
  import MonitorWait

  /** What the demonstration prints about a FIFO at one point. */
  datatype Snapshot = Snapshot(isEmpty: bool, isFull: bool, count: Int32)

  /** The isEmpty, isFull and getCount values the demonstration prints at each checkpoint. */
  method Observe(fifo: CircularArrayLongFifo) returns (s: Snapshot)
    requires fifo.Valid()
    ensures s.isEmpty <==> fifo.Contents == []
    ensures s.isFull <==> |fifo.Contents| == fifo.slots.Length
    ensures s.count as int == |fifo.Contents|
  {
    var empty := fifo.IsEmpty();
    var full := fifo.IsFull();
    var count := fifo.GetCount();
    s := Snapshot(empty, full, count);
  }

  /**
   * simpleCheck: a capacity-5 FIFO starts empty, holds 3 items after adding
   * 5, 7 and 3, gives them back in that order and is empty again.
   */
  method SimpleCheck() returns (atStart: Snapshot, afterAdds: Snapshot, removed: seq<Int64>, atEnd: Snapshot)
    ensures atStart == Snapshot(true, false, 0)
    ensures afterAdds == Snapshot(false, false, 3)
    ensures removed == [5, 7, 3]
    ensures atEnd == Snapshot(true, false, 0)
  {
    var fifo := new CircularArrayLongFifo(5);
    atStart := Observe(fifo);
    fifo.Add(5);
    fifo.Add(7);
    fifo.Add(3);
    afterAdds := Observe(fifo);
    var a := fifo.Remove();
    var b := fifo.Remove();
    var c := fifo.Remove();
    removed := [a, b, c];
    atEnd := Observe(fifo);
  }

  /**
   * emptyCheck with its remover thread's calls made in line: 10, 20 and 30
   * come out in order, after which waitUntilEmpty returns at once.
   */
  method EmptyCheck() returns (removed: seq<Int64>, waited: MonitorWait.Outcome)
    ensures removed == [10, 20, 30]
    ensures waited == MonitorWait.Ready
  {
    var fifo := new CircularArrayLongFifo(5);
    fifo.Add(10);
    fifo.Add(20);
    fifo.Add(30);
    var a := fifo.Remove();
    var b := fifo.Remove();
    var c := fifo.Remove();
    removed := [a, b, c];
    var empty := fifo.IsEmpty();
    var used;
    waited, used := MonitorWait.WaitWhile(!empty, 0, 0, []);
  }

  /**
   * Both indices run past the last slot of a capacity-3 ring and wrap to 0;
   * the order of the items is kept across the wrap.
   */
  method WrapAroundCheck() returns (removed: seq<Int64>, atEnd: Snapshot)
    ensures removed == [1, 2, 3, 4, 5]
    ensures atEnd == Snapshot(true, false, 0)
  {
    var fifo := new CircularArrayLongFifo(3);
    fifo.Add(1);
    fifo.Add(2);
    fifo.Add(3);
    var a := fifo.Remove();
    fifo.Add(4);
    var b := fifo.Remove();
    fifo.Add(5);
    var c := fifo.Remove();
    var d := fifo.Remove();
    var e := fifo.Remove();
    removed := [a, b, c, d, e];
    atEnd := Observe(fifo);
  }

  /**
   * A capacity-1 FIFO holding one item refuses add(2, 500) and keeps its item;
   * once that item is removed the same call succeeds.
   */
  method TimeoutCheck() returns (whileFull: bool, afterRemove: bool, kept: Int64, last: Int64)
    ensures !whileFull && afterRemove
    ensures kept == 1 && last == 2
  {
    var fifo := new CircularArrayLongFifo(1);
    fifo.Add(1);
    whileFull := fifo.AddWithin(2, 500);
    kept := fifo.Remove();
    afterRemove := fifo.AddWithin(2, 500);
    last := fifo.Remove();
  }

  /**
   * A timed wait of 10 ms whose first wakeup, 1000 ms after the call, still
   * finds the condition holding gives up there, and does not wait on for the
   * later wakeup that would have found the condition gone.
   */
  method TimedWaitCheck() returns (outcome: MonitorWait.Outcome, used: nat)
    ensures outcome == MonitorWait.TimedOut && used == 1
  {
    var wakeups := [MonitorWait.Wakeup(true, 1000), MonitorWait.Wakeup(false, 2000)];
    outcome, used := MonitorWait.WaitWhile(true, 10, 0, wakeups);
    assert MonitorWait.Remaining(0, 10, wakeups[0].now) == -990;
    assert !MonitorWait.AllBlocked(wakeups) by {
      assert !wakeups[1].blocked;
    }
  }
}
