/**
 * The contract of the `LongFifo` interface, stated on the abstract value that
 * every implementation exposes: the items it holds, oldest first, and its fixed
 * capacity. Implementations are specified by how each of their operations
 * changes this value.
 */
module LongFifo {
  import opened JavaInts

  datatype Option<T> = None | Some(value: T)

  /** What a bounded FIFO of longs holds: its items, oldest first, and its capacity. */
  datatype Fifo = Fifo(items: seq<Int64>, capacity: nat) {

    /** A FIFO never holds more items than its capacity. */
    predicate Valid() {
      |items| <= capacity
    }

    /** getCount: the number of items currently held. */
    function Count(): nat {
      |items|
    }

    /** isEmpty: getCount() == 0. */
    predicate IsEmpty() {
      Count() == 0
    }

    /** isFull: getCount() == getCapacity(). */
    predicate IsFull() {
      Count() == capacity
    }
  }

  /** clear: every item is gone; the capacity is what it was. */
  function Clear(f: Fifo): (r: Fifo)
    ensures r.Valid() && r.IsEmpty() && r.capacity == f.capacity
  {
    Fifo([], f.capacity)
  }

  /** add, once the FIFO is not full: the value joins behind every item held. */
  function Add(f: Fifo, value: Int64): (r: Fifo)
    requires f.Valid() && !f.IsFull()
    ensures r.Valid() && !r.IsEmpty() && r.capacity == f.capacity
    ensures r.Count() == f.Count() + 1
    ensures r.items[..f.Count()] == f.items && r.items[f.Count()] == value
  {
    Fifo(f.items + [value], f.capacity)
  }

  /** remove, once the FIFO is not empty: the oldest item comes out. */
  function Remove(f: Fifo): (r: (Int64, Fifo))
    requires f.Valid() && !f.IsEmpty()
    ensures r.1.Valid() && !r.1.IsFull() && r.1.capacity == f.capacity
    ensures [r.0] + r.1.items == f.items
  {
    (f.items[0], Fifo(f.items[1..], f.capacity))
  }

  /** One call made by a single thread: add(value) or remove(). */
  datatype Op = Put(value: Int64) | Take

  /** The values a trace adds, in order. */
  function Puts(ops: seq<Op>): seq<Int64>
  {
    if ops == [] then []
    else (if ops[0].Put? then [ops[0].value] else []) + Puts(ops[1..])
  }

  /** The trace that adds `values` one after the other. */
  function PutAll(values: seq<Int64>): (ops: seq<Op>)
  {
    if values == [] then [] else [Put(values[0])] + PutAll(values[1..])
  }

  /** The trace of `n` removes. */
  function TakeN(n: nat): (ops: seq<Op>)
  {
    if n == 0 then [] else [Take] + TakeN(n - 1)
  }

  /**
   * Runs a trace on `f` with no other thread present. It is None when some
   * call would block for ever (an add on a full FIFO, a remove on an empty one);
   * otherwise it is the final FIFO and the values the removes returned.
   */
  function Run(f: Fifo, ops: seq<Op>): (r: Option<(Fifo, seq<Int64>)>)
    requires f.Valid()
    ensures r.Some? ==> r.value.0.Valid() && r.value.0.capacity == f.capacity
    decreases |ops|
  {
    if ops == [] then Some((f, []))
    else if ops[0].Put? then
      if f.IsFull() then None else Run(Add(f, ops[0].value), ops[1..])
    else if f.IsEmpty() then None
    else
      var after := Run(Remove(f).1, ops[1..]);
      if after.None? then None else Some((after.value.0, [Remove(f).0] + after.value.1))
  }

  /**
   * Order preservation: nothing is lost, duplicated, invented or reordered.
   * The values removed, followed by the items still held, are exactly the items
   * held at the start followed by the values added.
   */
  lemma {:induction false} RunPreservesOrder(f: Fifo, ops: seq<Op>, last: Fifo, removed: seq<Int64>)
    requires f.Valid() && Run(f, ops) == Some((last, removed))
    ensures removed + last.items == f.items + Puts(ops)
    decreases |ops|
  {
    if ops == [] {
      return;
    }
    var rest := ops[1..];
    if ops[0].Put? {
      var g := Add(f, ops[0].value);
      RunPreservesOrder(g, rest, last, removed);
      SeqAssoc(f.items, [ops[0].value], Puts(rest));
    } else {
      var x, g := Remove(f).0, Remove(f).1;
      assert f.items == [x] + g.items;
      var out := RunTakeStep(f, ops, last, removed);
      RunPreservesOrder(g, rest, last, out);
      assert Puts(ops) == Puts(rest);
      SeqAssoc([x], out, last.items);
      SeqAssoc([x], g.items, Puts(rest));
    }
  }

  /** Unfolds Run on a trace that starts with a remove that goes through. */
  lemma RunTakeStep(f: Fifo, ops: seq<Op>, last: Fifo, removed: seq<Int64>) returns (out: seq<Int64>)
    requires f.Valid() && ops != [] && ops[0].Take?
    requires Run(f, ops) == Some((last, removed))
    ensures !f.IsEmpty() && Run(Remove(f).1, ops[1..]) == Some((last, out))
    ensures removed == [f.items[0]] + out
  {
    out := Run(Remove(f).1, ops[1..]).value.1;
  }

  lemma SeqAssoc<T>(a: seq<T>, b: seq<T>, c: seq<T>)
    ensures (a + b) + c == a + (b + c)
  {
  }

  /** Adding values that fit never blocks and appends them in order. */
  lemma {:induction false} RunPutAll(f: Fifo, values: seq<Int64>, rest: seq<Op>)
    requires f.Valid() && f.Count() + |values| <= f.capacity
    ensures Run(f, PutAll(values) + rest) == Run(Fifo(f.items + values, f.capacity), rest)
    decreases |values|
  {
    if values == [] {
      assert PutAll(values) + rest == rest;
      assert f.items + values == f.items;
    } else {
      var ops := PutAll(values) + rest;
      assert ops[0] == Put(values[0]);
      assert ops[1..] == PutAll(values[1..]) + rest;
      var g := Add(f, values[0]);
      assert Run(f, ops) == Run(g, ops[1..]);
      RunPutAll(g, values[1..], rest);
      SeqAssoc(f.items, [values[0]], values[1..]);
      assert [values[0]] + values[1..] == values;
    }
  }

  /** `n` removes on a FIFO holding at least `n` items return its `n` oldest items. */
  lemma {:induction false} RunTakeN(f: Fifo, n: nat)
    requires f.Valid() && n <= f.Count()
    ensures Run(f, TakeN(n)) == Some((Fifo(f.items[n..], f.capacity), f.items[..n]))
    decreases n
  {
    if n == 0 {
      assert f.items[0..] == f.items;
    } else {
      var (x, g) := Remove(f);
      RunTakeN(g, n - 1);
      assert TakeN(n)[1..] == TakeN(n - 1);
      assert g.items[n - 1..] == f.items[n..];
      assert [x] + g.items[..n - 1] == f.items[..n];
    }
  }

  /**
   * Drain: on an empty FIFO, adding up to `capacity` values and then removing
   * as many returns those values in the order they were added and leaves the
   * FIFO empty again.
   */
  lemma FillThenDrain(capacity: nat, values: seq<Int64>)
    requires |values| <= capacity
    ensures Run(Fifo([], capacity), PutAll(values) + TakeN(|values|))
              == Some((Fifo([], capacity), values))
  {
    var full := Fifo([] + values, capacity);
    RunPutAll(Fifo([], capacity), values, TakeN(|values|));
    RunTakeN(full, |values|);
    assert full.items[|values|..] == [];
    assert full.items[..|values|] == values;
  }
}
