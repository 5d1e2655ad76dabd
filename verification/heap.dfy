/**
 The binary min-heap of timers (c-stl/heap.c, c-stl/heap.h). Slots are counted from 1, and every node carries the
 index of the slot it is in.
 */
module Heaps {

  type ULong = k: int | 0 <= k < 0x1_0000_0000_0000_0000

  type Int32 = i: int | -0x8000_0000 <= i < 0x8000_0000

  /** A heap node with the timer it heads (src/timer.h). `addr` is where it was allocated. */
  class Timer {
    var index: nat
    var key: ULong
    var after: Int32
    var repeat: Int32
    const addr: nat

    constructor (key: ULong, after: Int32, repeat: Int32, addr: nat)
      ensures this.key == key && this.after == after && this.repeat == repeat && this.addr == addr
    {
      index := 0;
      this.key, this.after, this.repeat, this.addr := key, after, repeat, addr;
    }
  }

  /** The order of a heap, as a property of the keys in its slots; slot 0 is not used. */
  ghost predicate Ordered(ks: seq<int>) {
    forall j :: 2 <= j < |ks| ==> Below(ks, j)
  }

  predicate Below(ks: seq<int>, j: nat)
    requires 2 <= j < |ks|
  {
    ks[j / 2] <= ks[j]
  }

  predicate BelowGrandparent(ks: seq<int>, j: nat)
    requires 4 <= j < |ks|
  {
    ks[j / 2 / 2] <= ks[j]
  }

  /** Ordered but for slot `k`, whose key may be too small for its parent or too large for its children. */
  ghost predicate OrderedBut(ks: seq<int>, k: nat) {
    && (forall j :: 2 <= j < |ks| && j != k && j / 2 != k ==> Below(ks, j))
    && (forall j :: 4 <= j < |ks| && j / 2 == k ==> BelowGrandparent(ks, j))
  }

  ghost predicate ParentOk(ks: seq<int>, k: nat) {
    2 <= k < |ks| ==> Below(ks, k)
  }

  ghost predicate ChildrenOk(ks: seq<int>, k: nat) {
    forall j :: 2 <= j < |ks| && j / 2 == k ==> Below(ks, j)
  }

  function Swapped(ks: seq<int>, a: nat, b: nat): seq<int>
    requires a < |ks| && b < |ks|
  {
    ks[a := ks[b]][b := ks[a]]
  }

  /** A key smaller than its parent changes places with it; the disorder moves up one level. */
  lemma UpStep(ks: seq<int>, k: nat)
    requires 2 <= k < |ks| && OrderedBut(ks, k) && ks[k] < ks[k / 2]
    ensures ChildrenOk(ks, k)
    ensures var ks' := Swapped(ks, k, k / 2); OrderedBut(ks', k / 2) && ChildrenOk(ks', k / 2)
  {
    var ks', p := Swapped(ks, k, k / 2), k / 2;
    forall j | 2 <= j < |ks|
      ensures j / 2 == k ==> Below(ks, j)
      ensures j != p ==> Below(ks', j)
      ensures 4 <= j && j / 2 == p ==> BelowGrandparent(ks', j)
    {
      assert j / 2 == k ==> BelowGrandparent(ks, j);
      assert j != k && j / 2 != k ==> Below(ks, j);
      assert p >= 2 ==> Below(ks, p);
    }
  }

  ghost predicate LeastChild(ks: seq<int>, k: nat, c: nat) {
    c < |ks| && c / 2 == k && forall j {:trigger ks[j]} :: 2 <= j < |ks| && j / 2 == k ==> ks[c] <= ks[j]
  }

  /** A key larger than its smallest child changes places with that; the disorder moves down one level. */
  lemma DownStep(ks: seq<int>, k: nat, c: nat)
    requires 1 <= k && LeastChild(ks, k, c) && OrderedBut(ks, k)
    ensures ks[c] >= ks[k] ==> ChildrenOk(ks, k)
    ensures ks[c] < ks[k] ==> ParentOk(ks, k)
    ensures ks[c] < ks[k] ==> var ks' := Swapped(ks, c, k); OrderedBut(ks', c) && ParentOk(ks', c)
  {
    assert 2 <= k ==> BelowGrandparent(ks, c);
    if ks[c] < ks[k] {
      var ks' := Swapped(ks, c, k);
      forall j | 2 <= j < |ks|
        ensures j / 2 != c ==> Below(ks', j)
        ensures 4 <= j && j / 2 == c ==> BelowGrandparent(ks', j)
      {
        assert j != k && j / 2 != k ==> Below(ks, j);
        assert 4 <= j && j / 2 == k ==> BelowGrandparent(ks, j);
      }
    }
  }

  /** With one slot in doubt, order is a matter of that slot's parent and children. */
  lemma Settled(ks: seq<int>, k: nat)
    requires OrderedBut(ks, k)
    ensures Ordered(ks) <==> ParentOk(ks, k) && ChildrenOk(ks, k)
  {
  }

  /** Any key may be put in the slot of another that is taken out: only that slot is in doubt. */
  lemma Replaced(ks: seq<int>, ks': seq<int>, k: nat)
    requires Ordered(ks) && 1 <= k <= |ks'| <= |ks|
    requires forall j :: 1 <= j < |ks'| && j != k ==> ks'[j] == ks[j]
    ensures OrderedBut(ks', k)
  {
    forall j | 2 <= j < |ks'|
      ensures j != k && j / 2 != k ==> Below(ks', j)
      ensures 4 <= j && j / 2 == k ==> BelowGrandparent(ks', j)
    {
      assert Below(ks, j);
      assert 4 <= j ==> Below(ks, j / 2);
    }
  }

  /** The order around the slot in doubt, in terms of the keys there were before. */
  lemma Compared(ks: seq<int>, ks': seq<int>, k: nat)
    requires 1 <= k <= |ks'| <= |ks|
    requires forall j :: 1 <= j < |ks'| && j != k ==> ks'[j] == ks[j]
    ensures k < |ks'| ==>
      && (ParentOk(ks', k) <==> (k > 1 ==> ks[k / 2] <= ks'[k]))
      && (ChildrenOk(ks', k) <==> forall j {:trigger ks[j]} :: 2 <= j < |ks'| && j / 2 == k ==> ks'[k] <= ks[j])
    ensures k == |ks'| ==> ParentOk(ks', k) && ChildrenOk(ks', k)
  {
    if k < |ks'| {
      forall j | 2 <= j < |ks'| && j / 2 == k
        ensures Below(ks', j) <==> ks'[k] <= ks[j]
      {
      }
    }
  }

  /** The root of an ordered heap has the least key. */
  lemma {:induction false} RootIsLeast(ks: seq<int>, k: nat)
    requires Ordered(ks) && 1 <= k < |ks|
    ensures ks[1] <= ks[k]
  {
    if k > 1 {
      assert Below(ks, k);
      RootIsLeast(ks, k / 2);
    }
  }

  class Heap {
    var size: nat
    var count: nat
    var table: array<Timer?>
    ghost var nodes: set<Timer>

    /** Slots 1 to `count` hold exactly `nodes`, each once and each knowing its slot. */
    ghost predicate Valid()
      reads this, table, nodes
    {
      && table.Length == size
      && 2 <= size && count < size
      && (forall i {:trigger table[i]} :: 1 <= i <= count ==>
            table[i] != null && table[i] in nodes && table[i].index == i)
      && (forall t {:trigger t in nodes} :: t in nodes ==> 1 <= t.index <= count && table[t.index] == t)
    }

    ghost function Keys(): (ks: seq<int>)
      requires Valid()
      reads this, table, nodes
      ensures |ks| == count + 1 && forall i {:trigger ks[i]} :: 1 <= i <= count ==> ks[i] == table[i].key
    {
      seq(count + 1, i requires 0 <= i <= count && Valid() reads this, table, nodes =>
        if i == 0 then 0 else table[i].key)
    }

    /** `heap_init`. With fewer than two slots the heap could never grow. */
    constructor (size: nat)
      requires size >= 2
      ensures Valid() && Ordered(Keys()) && nodes == {} && count == 0 && this.size == size && fresh(table)
    {
      this.size, count, nodes := size, 0, {};
      table := new Timer?[size](_ => null);
    }

    /** The macro `heap_swap`. */
    method Swap(a: nat, b: nat)
      requires Valid() && 1 <= a <= count && 1 <= b <= count
      modifies table, nodes`index
      ensures Valid() && Keys() == Swapped(old(Keys()), a, b)
      ensures table[a] == old(table[b]) && table[b] == old(table[a])
      ensures forall i {:trigger table[i]} :: 0 <= i < size && i != a && i != b ==> table[i] == old(table[i])
    {
      var temp := table[a];
      table[a] := table[b];
      table[b] := temp;
      table[a].index := a;
      table[b].index := b;
    }

    /**
     A slot `heap_adjust` may be asked about: one in use, or the one just vacated at the end, which still holds the
     pointer to a node that is no smaller than its parent.
     */
    ghost predicate Adjustable(k: nat)
      requires Valid()
      reads this, table, nodes, if k < table.Length && table[k] != null then {table[k]} else {}
    {
      && 1 <= k <= count + 1
      && k < size
      && table[k] != null
      && (k == count + 1 && k > 1 ==> table[k / 2].key <= table[k].key)
    }

    /** `heap_up`. It repairs the heap exactly when the node is not too large for its children. */
    method HeapUp(k: nat)
      requires Valid() && Adjustable(k) && OrderedBut(Keys(), k)
      modifies table, nodes`index
      ensures Valid()
      ensures Ordered(Keys()) <==> old(ChildrenOk(Keys(), k))
      ensures old(k > 1 ==> table[k / 2].key <= table[k].key) ==> table[..] == old(table[..])
    {
      var i: nat := k;
      ghost var good, stays := ChildrenOk(Keys(), k), k > 1 ==> table[k / 2].key <= table[k].key;
      while i > 1
        invariant stays ==> i == k && table[..] == old(table[..])
        invariant Valid() && Adjustable(i)
        invariant OrderedBut(Keys(), i) && ChildrenOk(Keys(), i) == good
        decreases i
      {
        var parent := i / 2;
        if table[i].key < table[parent].key {
          UpStep(Keys(), i);
          Swap(i, parent);
          i := parent;
        } else {
          break;
        }
      }
      Settled(Keys(), i);
    }

    /** The child `heap_down` compares with: the right one only if it is smaller. */
    method LesserChild(i: nat) returns (next: nat)
      requires Valid() && 1 <= i && i * 2 <= count
      ensures LeastChild(Keys(), i, next)
    {
      next := i * 2;
      if next < count && table[next + 1].key < table[next].key {
        next := next + 1;
      }
    }

    /** `heap_down`. It repairs the heap exactly when the node is not too small for its parent. */
    method HeapDown(k: nat)
      requires Valid() && 1 <= k && OrderedBut(Keys(), k)
      modifies table, nodes`index
      ensures Valid()
      ensures Ordered(Keys()) <==> old(ParentOk(Keys(), k))
    {
      var i := k;
      while i * 2 <= count
        invariant Valid() && 1 <= i
        invariant OrderedBut(Keys(), i) && ParentOk(Keys(), i) == old(ParentOk(Keys(), k))
        decreases count - i
      {
        var next := LesserChild(i);
        DownStep(Keys(), i, next);
        if table[next].key < table[i].key {
          Swap(next, i);
          i := next;
        } else {
          break;
        }
      }
      Settled(Keys(), i);
    }

    /** `heap_push`, growing the table by half when it is full. */
    method Push(item: Timer)
      requires Valid() && Ordered(Keys()) && item !in nodes
      modifies this, table, nodes`index, item`index
      ensures Valid() && Ordered(Keys()) && nodes == old(nodes) + {item} && count == old(count) + 1
      ensures table == old(table) || fresh(table)
      ensures size == if old(count) + 1 == old(size) then old(size + size / 2) else old(size)
      ensures (forall t :: t in old(nodes) ==> t.key <= item.key) ==>
        forall i {:trigger table[i]} :: 1 <= i <= count ==> table[i] == if i == count then item else old(table[i])
    {
      if count + 1 == size {
        Grow(size + size / 2);
      }
      Append(item);
      label Appended:
      HeapUp(count);
      assert forall i {:trigger table[i]} :: 0 <= i < size ==> table[..][i] == table[i];
      assert forall i {:trigger old@Appended(table[i])} ::
        0 <= i < size ==> old@Appended(table[..])[i] == old@Appended(table[i]);
    }

    method Grow(newSize: nat)
      requires Valid() && newSize > size
      modifies this`table, this`size
      ensures Valid() && size == newSize && fresh(table) && Keys() == old(Keys())
      ensures forall i {:trigger table[i]} :: 0 <= i < old(size) ==> table[i] == old(table[i])
    {
      var newTable := new Timer?[newSize](_ => null);
      forall i | 0 <= i < size {
        newTable[i] := table[i];
      }
      table, size := newTable, newSize;
    }

    /** The new node goes to the first free slot; only its parent may be out of order with it. */
    method Append(item: Timer)
      requires Valid() && Ordered(Keys()) && item !in nodes && count + 1 < size
      modifies this`count, this`nodes, table, item`index
      ensures Valid() && nodes == old(nodes) + {item} && count == old(count) + 1
      ensures OrderedBut(Keys(), count) && ChildrenOk(Keys(), count)
      ensures table[count] == item
      ensures forall i {:trigger table[i]} :: 0 <= i < size && i != count ==> table[i] == old(table[i])
    {
      ghost var ks := Keys();
      count := count + 1;
      table[count] := item;
      item.index := count;
      nodes := nodes + {item};
      forall j | 2 <= j < count
        ensures Below(Keys(), j)
      {
        assert Below(ks, j);
      }
    }

    /** `heap_pop`: the least node, or none. */
    method Pop() returns (least: Timer?)
      requires Valid() && Ordered(Keys())
      modifies this`count, this`nodes, table, nodes`index
      ensures Valid() && Ordered(Keys())
      ensures if old(nodes) == {} then least == null && nodes == {} else
        && least != null && least in old(nodes) && nodes == old(nodes) - {least}
        && forall t :: t in old(nodes) ==> least.key <= t.key
    {
      if count == 0 { return null; }
      LeastOfNodes();
      ghost var ks := Keys();
      Swap(1, count);
      least := table[count];
      count := count - 1;
      nodes := nodes - {least};
      Replaced(ks, Keys(), 1);
      HeapDown(1);
    }

    /** The root has the least key of all nodes. */
    lemma LeastOfNodes()
      requires Valid() && Ordered(Keys()) && count > 0
      ensures table[1] != null && table[1] in nodes
      ensures forall t :: t in nodes ==> table[1].key <= t.key
    {
      forall t | t in nodes
        ensures table[1].key <= t.key
      {
        RootIsLeast(Keys(), t.index);
      }
    }

    /** The macro `heap_adjust`. It compares the pointers to the nodes, not their keys. */
    method HeapAdjust(k: nat)
      requires Valid() && Adjustable(k) && OrderedBut(Keys(), k)
      modifies table, nodes`index
      ensures Valid()
      ensures Ordered(Keys()) <==>
        old(if k > 1 && table[k].addr < table[k / 2].addr then ChildrenOk(Keys(), k) else ParentOk(Keys(), k))
    {
      if k > 1 && table[k].addr < table[k / 2].addr {
        HeapUp(k);
      } else {
        HeapDown(k);
      }
    }

    /**
     When erasing slot `k` leaves a heap: if the last node, which takes the slot, is compared with the neighbours
     it needs comparing with. The comparison of addresses decides which those are.
     */
    ghost predicate ErasesWell(k: nat)
      requires Valid() && 1 <= k <= count
      reads this, table, nodes
    {
      var last, ks := table[count], Keys();
      || k == count
      || if k > 1 && last.addr < table[k / 2].addr then
           forall j {:trigger ks[j]} :: 2 <= j < count && j / 2 == k ==> last.key <= ks[j]
         else
           k > 1 ==> ks[k / 2] <= last.key
    }

    /** `heap_erase`. */
    method Erase(k: nat) returns (erased: Timer?)
      requires Valid() && Ordered(Keys())
      modifies this`count, this`nodes, table, nodes`index
      ensures Valid()
      ensures !(1 <= k <= old(count)) ==> erased == null && nodes == old(nodes) && Ordered(Keys())
      ensures 1 <= k <= old(count) ==>
        && erased == old(table[k])
        && nodes == old(nodes) - {erased}
        && (Ordered(Keys()) <==> old(ErasesWell(k)))
    {
      if k == 0 || k > count { return null; }
      ghost var ks := Keys();
      assert k > 1 ==> Below(ks, k);
      erased := table[k];
      table[k] := table[count];
      count := count - 1;
      nodes := nodes - {erased};
      table[k].index := k;
      Replaced(ks, Keys(), k);
      Compared(ks, Keys(), k);
      HeapAdjust(k);
    }

    /** Erasing works at the root and at the last slot whatever the addresses, and anywhere if they follow the keys. */
    lemma ErasesWellWhen(k: nat)
      requires Valid() && Ordered(Keys()) && 1 <= k <= count
      requires k == 1 || k == count || (table[count].addr < table[k / 2].addr <==> table[count].key < table[k / 2].key)
      ensures ErasesWell(k)
    {
      if 1 < k {
        assert Below(Keys(), k);
        forall j | 2 <= j < count && j / 2 == k
          ensures Keys()[k / 2] <= Keys()[j]
        {
          assert Below(Keys(), j);
        }
      }
    }
  }

  /** Five nodes in key order; the address of the last is below that of the root, so it is never compared downwards. */
  method EraseBreaksOrder() returns (h: Heap)
    ensures h.Valid() && !Ordered(h.Keys()) && fresh(h)
  {
    h := new Heap(8);
    var i := 0;
    while i < 5
      invariant h.Valid() && Ordered(h.Keys()) && fresh(h) && fresh(h.table) && fresh(h.nodes)
      invariant h.count == i <= 5 && h.size == 8
      invariant forall j {:trigger h.table[j]} :: 1 <= j <= i ==> h.table[j].key == j && h.table[j].addr == 10 - j
    {
      i := i + 1;
      var t := new Timer(i, 0, 0, 10 - i);
      assert forall u :: u in h.nodes ==> h.table[u.index] == u && u.key == u.index;
      h.Push(t);
    }
    assert h.table[5].addr < h.table[1].addr && h.table[5].key == 5;
    assert 2 <= 4 < h.count && h.Keys()[4] == 4;
    var _ := h.Erase(2);
  }
}
