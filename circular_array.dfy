/**
 * `CircularArrayLongFifo`: a `LongFifo` kept in a fixed array used as a ring.
 *
 * `count` items are held. While the FIFO is not empty, `head` indexes the next
 * item to remove; while it is not full, `tail` indexes the next slot to fill.
 * Both step forward and jump back to index 0 after the last index, so the items
 * held are `slots[head]`, `slots[(head + 1) % capacity]`, ... (`count` of them).
 * `count`, never `head == tail`, tells an empty ring from a full one.
 *
 * Blocking is not modelled: a method starts in the state its wait left it in.
 * `add` with a timeout other than 0 returns whether there was room at that moment;
 * `add` with timeout 0 and `remove` only ever return once there is room or an
 * item, so they require it.
 */
module CircularArray {
  import opened JavaInts
  import LongFifo

  /** For an index past the end by less than one lap, `%` wraps it back once. */
  lemma ModOneLap(x: int, n: int)
    requires 0 < n && 0 <= x < 2 * n
    ensures x % n == if x < n then x else x - n
  {
  }

  /**
   * The items a ring holds: `count` slots read from `head` on, wrapping past the
   * last index back to 0.
   */
  ghost function Window(slots: seq<Int64>, head: int, count: int): (w: seq<Int64>)
    requires 0 <= count <= |slots|
    requires 0 <= head
  {
    seq(count, i requires 0 <= i < count => slots[(head + i) % |slots|])
  }

  /**
   * Writing at the slot just past the window (where `tail` points) extends the
   * window by that value and leaves the items already held as they were.
   */
  lemma WindowStore(slots: seq<Int64>, head: int, count: int, value: Int64)
    requires 0 <= head < |slots| && 0 <= count < |slots|
    ensures Window(slots[(head + count) % |slots| := value], head, count + 1)
            == Window(slots, head, count) + [value]
  {
    var n := |slots|;
    var before := Window(slots, head, count);
    var after := Window(slots[(head + count) % n := value], head, count + 1);
    ModOneLap(head + count, n);
    forall i | 0 <= i < count
      ensures after[i] == before[i]
    {
      ModOneLap(head + i, n);
    }
    assert after == before + [value];
  }

  /**
   * Reading at `head` yields the oldest item; stepping `head` on by one (with
   * wrap-around) leaves the window of the remaining items.
   */
  lemma WindowTake(slots: seq<Int64>, head: int, count: int)
    requires 0 <= head < |slots| && 0 < count <= |slots|
    ensures Window(slots, head, count)[0] == slots[head]
    ensures Window(slots, (head + 1) % |slots|, count - 1) == Window(slots, head, count)[1..]
  {
    var n := |slots|;
    var next := (head + 1) % n;
    var before := Window(slots, head, count);
    var after := Window(slots, next, count - 1);
    ModOneLap(head, n);
    ModOneLap(head + 1, n);
    forall i | 0 <= i < count - 1
      ensures after[i] == before[i + 1]
    {
      ModOneLap(next + i, n);
      ModOneLap(head + 1 + i, n);
    }
    assert after == before[1..];
  }

  class CircularArrayLongFifo {
    const slots: array<Int64>
    var head: Int32
    var tail: Int32
    var count: Int32

    /** The items held, oldest first. */
    ghost var Contents: seq<Int64>

    /** The representation invariant. */
    ghost predicate Valid()
      reads this, slots
    {
      && slots.Length <= MAX_ARRAY_LENGTH
      && 0 <= count as int <= slots.Length
      && (slots.Length == 0 ==> head == 0 && tail == 0)
      && (slots.Length > 0 ==>
            && 0 <= head as int < slots.Length
            && 0 <= tail as int < slots.Length
            && tail as int == (head as int + count as int) % slots.Length)
      && Contents == Window(slots[..], head as int, count as int)
    }

    /** The `LongFifo` value this object stands for. */
    ghost function Abstract(): LongFifo.Fifo
      reads this
    {
      LongFifo.Fifo(Contents, slots.Length)
    }

    /**
     * A ring of `fixedCapacity` zeroed slots holding nothing. A negative
     * capacity makes Java's array allocation throw, so it is not accepted; a
     * capacity of 0 is, and gives a FIFO that is both empty and full.
     */
    constructor (fixedCapacity: Int32)
      requires fixedCapacity >= 0
      ensures Valid() && fresh(slots)
      ensures slots.Length == fixedCapacity as int
      ensures forall i :: 0 <= i < slots.Length ==> slots[i] == 0
      ensures head == 0 && tail == 0 && count == 0
      ensures Abstract() == LongFifo.Fifo([], fixedCapacity as nat)
    {
      slots := new Int64[fixedCapacity](_ => 0);
      head := 0;
      tail := 0;
      count := 0;
      Contents := [];
    }

    /** getCount */
    method GetCount() returns (c: Int32)
      requires Valid()
      ensures c as int == |Contents| == Abstract().Count()
    {
      c := count;
    }

    /** isEmpty */
    method IsEmpty() returns (empty: bool)
      requires Valid()
      ensures empty <==> Contents == []
      ensures empty <==> Abstract().IsEmpty()
    {
      empty := count == 0;
    }

    /** isFull */
    method IsFull() returns (full: bool)
      requires Valid()
      ensures full <==> |Contents| == slots.Length
      ensures full <==> Abstract().IsFull()
    {
      full := count as int == slots.Length;
    }

    /** getCapacity: the length of `slots`, which is fixed when the object is made. */
    method GetCapacity() returns (capacity: Int32)
      requires Valid()
      ensures capacity as int == slots.Length == Abstract().capacity
    {
      capacity := slots.Length as Int32;
    }

    /** clear: both indices back to 0 and nothing held; the slots keep their old values. */
    method Clear()
      requires Valid()
      modifies this
      ensures Valid()
      ensures head == 0 && tail == 0 && count == 0
      ensures Abstract() == LongFifo.Clear(old(Abstract()))
    {
      head := 0;
      tail := 0;
      count := 0;
      Contents := [];
    }

    /**
     * add(value, msTimeout), from the moment its wait for room returns. That
     * wait reports success exactly when the ring is not full, and with timeout 0
     * it only returns once there is room. On success the value goes into the slot
     * at `tail` and nothing else in `slots` changes; on a time-out nothing changes.
     */
    method AddWithin(value: Int64, msTimeout: Int64) returns (added: bool)
      requires Valid()
      requires msTimeout == 0 ==> count as int < slots.Length
      modifies this, slots
      ensures Valid()
      ensures added <==> old(count as int) < slots.Length
      ensures added ==> Abstract() == LongFifo.Add(old(Abstract()), value)
      ensures added ==> head == old(head) && count == old(count) + 1
      ensures added ==> slots[old(tail)] == value
      ensures added ==> forall i :: 0 <= i < slots.Length && i != old(tail) as int ==> slots[i] == old(slots[i])
      ensures !added ==> unchanged(this) && unchanged(slots)
    {
      var notFull := count as int != slots.Length;
      if notFull {
        WindowStore(slots[..], head as int, count as int, value);
        slots[tail] := value;
        tail := (tail + 1) % (slots.Length as Int32);
        count := count + 1;
        Contents := Contents + [value];
        ModOneLap(old(tail) as int + 1, slots.Length);
        ModOneLap(head as int + old(count) as int, slots.Length);
        ModOneLap(head as int + count as int, slots.Length);
        added := true;
      } else {
        added := false;
      }
    }

    /** add(value): add(value, 0), which always stores the value. */
    method Add(value: Int64)
      requires Valid()
      requires count as int < slots.Length
      modifies this, slots
      ensures Valid()
      ensures Abstract() == LongFifo.Add(old(Abstract()), value)
      ensures Contents == old(Contents) + [value]
      ensures head == old(head) && count == old(count) + 1
      ensures slots[old(tail)] == value
      ensures forall i :: 0 <= i < slots.Length && i != old(tail) as int ==> slots[i] == old(slots[i])
    {
      var added := AddWithin(value, 0);
    }

    /**
     * remove(), from the moment its wait for an item returns: the item at
     * `head` comes out and `head` steps on; the slots are not written.
     */
    method Remove() returns (item: Int64)
      requires Valid()
      requires count > 0
      modifies this
      ensures Valid()
      ensures (item, Abstract()) == LongFifo.Remove(old(Abstract()))
      ensures item == old(Contents)[0] && Contents == old(Contents)[1..]
      ensures tail == old(tail) && count == old(count) - 1
    {
      WindowTake(slots[..], head as int, count as int);
      item := slots[head];
      head := (head + 1) % (slots.Length as Int32);
      count := count - 1;
      Contents := Contents[1..];
      ModOneLap(old(head) as int + 1, slots.Length);
      ModOneLap(old(head) as int + old(count) as int, slots.Length);
      ModOneLap(head as int + count as int, slots.Length);
    }
  }
}
