/** The circular queue that grows when full (c-stl/queue.c). */
module Queues {
  import opened Sliding

  datatype Slot<T> = Null | Item(value: T)

  datatype Pushed = Done | FullError

  /** One step forward in a table of `capacity` slots, as the code computes it. */
  function Next(i: nat, capacity: nat): (r: nat)
    requires i < capacity
    ensures r == (if i + 1 == capacity then 0 else i + 1) && r < capacity
  {
    assert i + 1 < capacity ==> (i + 1) / capacity == 0;
    (i + 1) % capacity
  }

  /** The slot `k` steps from `head`. */
  function At(head: nat, k: nat, capacity: nat): (r: nat)
    requires head < capacity && k < capacity
    ensures r < capacity
  {
    if head + k < capacity then head + k else head + k - capacity
  }

  class Queue<T> {
    var size: int
    var capacity: nat
    var head: nat
    var tail: nat
    var table: array<Slot<T>>
    ghost var items: seq<T>

    ghost predicate Valid()
      reads this, table
    {
      && table.Length == capacity >= 1
      && head < capacity && tail < capacity
      && |items| < capacity
      && size == |items|
      && tail == At(head, |items|, capacity)
      && forall k {:trigger items[k]} :: 0 <= k < |items| ==> table[At(head, k, capacity)] == Item(items[k])
    }

    /** `queue_init`. A queue without slots is not a queue: its pushes and pops divide by zero. */
    constructor (capacity: nat)
      ensures Valid() <==> capacity > 0
      ensures items == [] && this.capacity == capacity && fresh(table)
    {
      size, head, tail, items := 0, 0, 0, [];
      this.capacity := capacity;
      table := new Slot<T>[capacity](_ => Null);
    }

    /** `size` is the distance from head to tail around the table. */
    lemma SizeIsDistance()
      requires Valid()
      ensures size == (tail - head) % capacity
    {
      if tail < head {
        ModIs(tail - head, -1, tail - head + capacity, capacity);
      }
    }

    predicate Full()
      requires head < capacity && tail < capacity
      reads this
    {
      head == Next(tail, capacity)
    }

    /** The indices are those of some slot. */
    ghost predicate Indices()
      reads this
    {
      table.Length == capacity >= 1 && head < capacity && tail < capacity
    }

    /** The last three lines of both pushes. */
    method Put(item: T)
      requires Indices()
      modifies this`size, this`tail, this`items, table
      ensures Indices() && items == old(items) + [item]
      ensures table[old(tail)] == Item(item) && size == old(size) + 1
      ensures old(Valid() && !Full()) ==> Valid()
    {
      table[tail] := Item(item);
      tail := Next(tail, capacity);
      size := size + 1;
      items := items + [item];
    }

    /**
     `queue_push`: when full, half as many slots again, the wrapped half sliding to the new end. It keeps a queue if
     and only if there is more than one slot: half of one is none, so the item goes to the only slot in any case.
     */
    method Push(item: T)
      requires Indices()
      modifies this, table
      ensures Indices() && items == old(items) + [item] && size == old(size) + 1
      ensures capacity == old(if Full() then capacity + capacity / 2 else capacity)
      ensures old(Valid()) ==> (Valid() <==> old(capacity) >= 2)
      ensures old(capacity) == 1 ==> table[0] == Item(item)
      ensures table == old(table) || fresh(table)
    {
      if Full() {
        Grow(capacity + capacity / 2);
      }
      Put(item);
    }

    /** What is left of two items pushed to a queue of one slot: the second takes the place of the first. */
    method PushTwo(first: T, second: T)
      requires Valid() && capacity == 1
      modifies this, table
      ensures items == [first, second] && size == 2
      ensures capacity == table.Length == 1 && table[0] == Item(second)
    {
      Push(first);
      Push(second);
    }

    method Grow(newCapacity: nat)
      requires Indices() && Full() && newCapacity >= capacity
      modifies this
      ensures Indices() && items == old(items) && size == old(size) && capacity == newCapacity && fresh(table)
      ensures old(Valid()) ==> Valid() && (newCapacity > old(capacity) ==> !Full())
    {
      ghost var was := table[..];
      var newTable := new Slot<T>[newCapacity](_ => Null);
      forall i | 0 <= i < capacity {
        newTable[i] := table[i];
      }
      if head > tail {
        assert newTable[head..capacity] == was[head..];
        assert newTable[..head] == was[..head];
        var index := SlideUp(newTable, head, capacity);
        forall k | 0 <= k < |items| && |items| < capacity
          ensures newTable[At(index, k, newCapacity)] == was[At(head, k, capacity)]
        {
          assert head + k < capacity ==> newTable[index + k] == newTable[index..][k] == was[head..][k];
          assert head + k >= capacity ==> newTable[head + k - capacity] == newTable[..head][head + k - capacity];
        }
        head := index;
      }
      table, capacity := newTable, newCapacity;
    }

    /** `queue_push_fixed`. */
    method PushFixed(item: T) returns (res: Pushed)
      requires Valid()
      modifies this`size, this`tail, this`items, table
      ensures Valid() && capacity == old(capacity)
      ensures res == (if |old(items)| == capacity - 1 then FullError else Done)
      ensures items == if res == Done then old(items) + [item] else old(items)
    {
      if Full() { return FullError; }
      Put(item);
      return Done;
    }

    /** `queue_pop`. */
    method Pop() returns (item: Slot<T>)
      requires Valid()
      modifies this`size, this`head, this`items, table
      ensures Valid() && capacity == old(capacity)
      ensures if old(items) == [] then item == Null && items == [] else
        item == Item(old(items)[0]) && items == old(items)[1..] && table[old(head)] == Null
    {
      if size == 0 { return Null; }
      assert At(head, 0, capacity) == head && items[0] == items[0];
      item := table[head];
      table[head] := Null;
      head := Next(head, capacity);
      size := size - 1;
      ghost var was := items;
      items := items[1..];
      assert forall k {:trigger items[k]} :: 0 <= k < |items| ==> items[k] == was[k + 1];
    }
  }
}
