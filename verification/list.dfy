/** The intrusive circular doubly linked list (c-stl/list.c, c-stl/list.h). */
module Lists {

  /** The links stand at the front of whatever structure is put into a list, here its `payload`. */
  class Item<T> {
    var prev: Item?<T>
    var next: Item?<T>
    var payload: T

    constructor (payload: T)
      ensures this.payload == payload && prev == null && next == null
    {
      this.payload, prev, next := payload, null, null;
    }
  }

  ghost predicate Distinct<T>(s: seq<T>) {
    forall i, j :: 0 <= i < j < |s| ==> s[i] != s[j]
  }

  function Succ(i: nat, n: nat): nat { if i + 1 == n then 0 else i + 1 }

  function Pred(i: nat, n: nat): int { if i == 0 then n - 1 else i - 1 }

  ghost predicate Linked<T>(s: seq<Item<T>>, i: nat)
    requires i < |s|
    reads s
  {
    s[i].next == s[Succ(i, |s|)] && s[Succ(i, |s|)].prev == s[i]
  }

  /** `s` is closed into a ring both ways. */
  ghost predicate Ring<T>(s: seq<Item<T>>)
    reads s
  {
    forall i :: 0 <= i < |s| ==> Linked(s, i)
  }

  function Inserted<T>(s: seq<T>, k: nat, x: T): seq<T>
    requires k <= |s|
  {
    s[..k] + [x] + s[k..]
  }

  function Removed<T>(s: seq<T>, k: nat): seq<T>
    requires k < |s|
  {
    s[..k] + s[k + 1..]
  }

  lemma DistinctInserted<T>(s: seq<T>, k: nat, x: T)
    requires Distinct(s) && x !in s && k <= |s|
    ensures Distinct(Inserted(s, k, x))
  {
  }

  lemma DistinctRemoved<T>(s: seq<T>, k: nat)
    requires Distinct(s) && k < |s|
    ensures Distinct(Removed(s, k)) && s[k] !in Removed(s, k)
  {
  }

  /** A ring but for the link before place `k`, where `x` now stands between the two neighbours. */
  lemma RingInserted<T>(s: seq<Item<T>>, k: nat, x: Item<T>)
    requires k <= |s| && |s| > 0
    requires forall i :: 0 <= i < |s| && i != Pred(k, |s|) ==> Linked(s, i)
    requires var left, right := s[Pred(k, |s|)], s[if k == |s| then 0 else k];
      left.next == x && x.prev == left && x.next == right && right.prev == x
    ensures Ring(Inserted(s, k, x))
  {
    var r, n := Inserted(s, k, x), |s|;
    forall i | 0 <= i <= n
      ensures Linked(r, i)
    {
      var j := if i < k then i else i - 1;
      if i != k && j != Pred(k, n) {
        assert Linked(s, j);
        assert r[i] == s[j] && r[Succ(i, n + 1)] == s[Succ(j, n)];
      }
    }
  }

  /** A ring but for the links around place `k`, where the two neighbours now link to each other. */
  lemma RingRemoved<T>(s: seq<Item<T>>, k: nat)
    requires k < |s| && |s| > 1
    requires forall i :: 0 <= i < |s| && i != k && i != Pred(k, |s|) ==> Linked(s, i)
    requires var left, right := s[Pred(k, |s|)], s[Succ(k, |s|)]; left.next == right && right.prev == left
    ensures Ring(Removed(s, k))
  {
    var r, n := Removed(s, k), |s|;
    forall i | 0 <= i < n - 1
      ensures Linked(r, i)
    {
      var j := if i < k then i else i + 1;
      if j != Pred(k, n) {
        assert Linked(s, j);
        assert r[i] == s[j] && r[Succ(i, n - 1)] == s[Succ(j, n)];
      }
    }
  }

  /** What a traversal leaves if it erases the items it is told to. */
  function Kept<T>(s: seq<T>, erase: seq<bool>): seq<T>
    requires |s| <= |erase|
  {
    if s == [] then []
    else
      var last := |s| - 1;
      Kept(s[..last], erase) + if erase[last] then [] else [s[last]]
  }

  lemma KeptNext<T>(s: seq<T>, erase: seq<bool>, j: nat)
    requires j < |s| <= |erase|
    ensures Kept(s[..j + 1], erase) == Kept(s[..j], erase) + if erase[j] then [] else [s[j]]
  {
    assert s[..j + 1][..j] == s[..j];
  }

  /** Where a traversal stands before and after one more item. */
  lemma TraverseStep<T>(all: seq<T>, visited: seq<T>, erase: seq<bool>)
    requires |all| <= |erase| && visited <= all && |visited| < |all|
    ensures var j := |visited|;
      var items, k := Kept(visited, erase) + all[j..], |Kept(visited, erase)|;
      && items[k] == all[j] && (j + 1 < |all| ==> k + 1 < |items| && items[k + 1] == all[j + 1])
      && visited + [all[j]] <= all
      && Kept(visited + [all[j]], erase) + all[j + 1..] == if erase[j] then Removed(items, k) else items
  {
    var j, before := |visited|, Kept(visited, erase);
    var x, rest := all[j], all[j + 1..];
    assert visited == all[..j] && visited + [x] == all[..j + 1];
    KeptNext(all, erase, j);
    assert all[j..] == [x] + rest;
    Middle(before, x, rest);
  }

  lemma Middle<T>(before: seq<T>, x: T, rest: seq<T>)
    ensures var s := before + ([x] + rest);
      && s[|before|] == x && (rest != [] ==> s[|before| + 1] == rest[0])
      && s == before + [x] + rest && Removed(s, |before|) == before + [] + rest
  {
  }

  lemma {:induction false} KeptNone<T>(s: seq<T>, erase: seq<bool>)
    requires |s| <= |erase| && forall i :: 0 <= i < |s| ==> erase[i]
    ensures Kept(s, erase) == []
  {
    if s != [] {
      KeptNone(s[..|s| - 1], erase);
    }
  }

  /** Exactly the items not erased are left. */
  lemma {:induction false} KeptExactly<T>(s: seq<T>, erase: seq<bool>)
    requires Distinct(s) && |s| <= |erase|
    ensures forall x :: x in Kept(s, erase) ==> x in s
    ensures forall i :: 0 <= i < |s| ==> (s[i] in Kept(s, erase) <==> !erase[i])
  {
    if s != [] {
      var last := |s| - 1;
      KeptExactly(s[..last], erase);
      assert s[last] !in s[..last];
      forall i | 0 <= i < last
        ensures s[i] in Kept(s, erase) <==> !erase[i]
      {
        assert s[..last][i] == s[i];
      }
    }
  }

  class List<T> {
    var size: int
    var head: Item?<T>
    var tail: Item?<T>
    ghost var items: seq<Item<T>>

    ghost predicate Valid()
      reads this, items
    {
      && size == |items|
      && Distinct(items)
      && Ring(items)
      && if items == [] then head == tail == null
         else head == items[0] && tail == items[|items| - 1]
    }

    ghost function Members(): set<Item<T>>
      reads this
    {
      set x | x in items
    }

    /** `list_create`. */
    constructor ()
      ensures Valid() && items == []
    {
      size, head, tail, items := 0, null, null, [];
    }

    /** `list_insert_before`, at the head when `pos` is the head. */
    method InsertBefore(pos: Item<T>, item: Item<T>, ghost k: nat)
      requires Valid() && k < |items| && items[k] == pos && item !in items
      modifies this, Members()`prev, Members()`next, item`prev, item`next
      ensures Valid() && items == Inserted(old(items), k, item)
    {
      assert Linked(items, Pred(k, |items|));
      item.prev := pos.prev;
      pos.prev.next := item;
      item.next := pos;
      pos.prev := item;
      size := size + 1;
      if head == pos {
        head := item;
      }
      forall i | 0 <= i < |items| && i != Pred(k, |items|)
        ensures Linked(items, i)
      {
        assert old(Linked(items, i));
      }
      RingInserted(items, k, item);
      DistinctInserted(items, k, item);
      items := Inserted(items, k, item);
    }

    /** `list_insert_after`, at the tail when `pos` is the tail. */
    method InsertAfter(pos: Item<T>, item: Item<T>, ghost k: nat)
      requires Valid() && k < |items| && items[k] == pos && item !in items
      modifies this, Members()`prev, Members()`next, item`prev, item`next
      ensures Valid() && items == Inserted(old(items), k + 1, item)
    {
      assert Linked(items, k);
      item.next := pos.next;
      pos.next.prev := item;
      item.prev := pos;
      pos.next := item;
      size := size + 1;
      if tail == pos {
        tail := item;
      }
      forall i | 0 <= i < |items| && i != Pred(k + 1, |items|)
        ensures Linked(items, i)
      {
        assert old(Linked(items, i));
      }
      RingInserted(items, k + 1, item);
      DistinctInserted(items, k + 1, item);
      items := Inserted(items, k + 1, item);
    }

    /** The macro `list_insert_first`. */
    method InsertFirst(item: Item<T>)
      requires Valid() && items == []
      modifies this, item`prev, item`next
      ensures Valid() && items == [item]
    {
      head, tail, size := item, item, 1;
      item.prev, item.next := item, item;
      items := [item];
    }

    /** `list_push_front`. */
    method PushFront(item: Item<T>)
      requires Valid() && item !in items
      modifies this, Members()`prev, Members()`next, item`prev, item`next
      ensures Valid() && items == [item] + old(items)
    {
      if size == 0 {
        InsertFirst(item);
      } else {
        InsertBefore(head, item, 0);
      }
    }

    /** `list_push_back`. */
    method PushBack(item: Item<T>)
      requires Valid() && item !in items
      modifies this, Members()`prev, Members()`next, item`prev, item`next
      ensures Valid() && items == old(items) + [item]
    {
      if size == 0 {
        InsertFirst(item);
      } else {
        InsertAfter(tail, item, |items| - 1);
      }
    }

    /** `list_erase`. */
    method Erase(item: Item<T>, ghost k: nat)
      requires Valid() && k < |items| && items[k] == item
      modifies this, Members()`prev, Members()`next
      ensures Valid() && items == Removed(old(items), k)
      ensures item !in items && item.prev == null && item.next == null
    {
      DistinctRemoved(items, k);
      if size == 1 {
        head, tail := null, null;
      } else {
        assert Linked(items, k) && Linked(items, Pred(k, |items|));
        item.prev.next := item.next;
        item.next.prev := item.prev;
        if head == item {
          head := item.next;
        } else if tail == item {
          tail := item.prev;
        }
        forall i | 0 <= i < |items| && i != k && i != Pred(k, |items|)
          ensures Linked(items, i)
        {
          assert old(Linked(items, i));
        }
        RingRemoved(items, k);
      }
      ghost var left := Removed(items, k);
      Detach(item, left);
    }

    /** The macro `list_pop_front`. */
    method PopFront() returns (item: Item<T>)
      requires Valid() && items != []
      modifies this, Members()`prev, Members()`next
      ensures Valid() && item == old(items)[0] && items == old(items)[1..] && item !in items
    {
      item := head;
      Erase(item, 0);
      assert Removed(old(items), 0) == old(items)[1..];
    }

    method Detach(item: Item<T>, ghost left: seq<Item<T>>)
      requires item !in left && size == |left| + 1 && Distinct(left) && Ring(left)
      requires if left == [] then head == tail == null else head == left[0] && tail == left[|left| - 1]
      modifies this`size, this`items, item`prev, item`next
      ensures Valid() && items == left && item.prev == null && item.next == null
    {
      size := size - 1;
      item.prev := null;
      item.next := null;
      items := left;
      forall i | 0 <= i < |left|
        ensures Linked(left, i)
      {
        assert old(Linked(left, i));
      }
    }

    /** In the middle of a traversal of `all`: those `visited` are kept or erased, the others still in place. */
    ghost predicate Traversing(all: seq<Item<T>>, visited: seq<Item<T>>, erase: seq<bool>)
      requires |all| <= |erase|
      reads this, items
    {
      && Valid()
      && visited <= all
      && items == Kept(visited, erase) + all[|visited|..]
      && forall x :: x in items ==> x in all
    }

    /** The visitor: it may erase the item from the list. Its successor was looked up before. */
    method Visit(item: Item<T>, erase: seq<bool>, ghost all: seq<Item<T>>, visited: seq<Item<T>>)
      returns (next: Item?<T>)
      requires |all| <= |erase| && Traversing(all, visited, erase) && |visited| < |all| && item == all[|visited|]
      modifies this, Members()`prev, Members()`next
      ensures Traversing(all, visited + [item], erase)
      ensures |visited| + 1 < |all| ==> next == all[|visited| + 1]
      ensures forall x :: x in items ==> x in old(items)
    {
      ghost var k := |Kept(visited, erase)|;
      TraverseStep(all, visited, erase);
      assert Linked(items, k);
      next := item.next;
      if erase[|visited|] {
        Erase(item, k);
      }
    }

    /**
     `list_for_each`: the next pointer is read before the visitor runs, which may therefore erase the item it is
     given. Every item there was at the start is visited once, in order.
     */
    method ForEach(erase: seq<bool>) returns (visited: seq<Item<T>>)
      requires Valid() && |erase| >= |items|
      modifies this, Members()`prev, Members()`next
      ensures Valid() && visited == old(items) && items == Kept(old(items), erase)
    {
      visited := [];
      if size == 0 { return; }
      ghost var all := items;
      var i, item := size, head;
      while i > 0
        invariant 0 <= i == |all| - |visited| && Traversing(all, visited, erase)
        invariant i > 0 ==> item == all[|visited|]
      {
        var next := Visit(item, erase, all, visited);
        visited := visited + [item];
        item := next;
        i := i - 1;
      }
    }

    /** The macro `list_foreach`, which also counts and stops at a null item. */
    method Foreach(erase: seq<bool>) returns (visited: seq<Item<T>>)
      requires Valid() && |erase| >= |items|
      modifies this, Members()`prev, Members()`next
      ensures Valid() && visited == old(items) && items == Kept(old(items), erase)
    {
      visited := [];
      ghost var all := items;
      var index, item := size, head;
      while index > 0 && item != null
        invariant 0 <= index == |all| - |visited| && Traversing(all, visited, erase)
        invariant index > 0 ==> item == all[|visited|]
      {
        var temp := Visit(item, erase, all, visited);
        visited := visited + [item];
        item := temp;
        index := index - 1;
      }
    }

    /** `list_clear`: every item is erased and released, so the list ends empty. */
    method Clear() returns (released: seq<Item<T>>)
      requires Valid()
      modifies this, Members()`prev, Members()`next
      ensures Valid() && items == [] && released == old(items)
    {
      released := [];
      if size == 0 { return; }
      var erase := seq(size, _ => true);
      KeptNone(items, erase);
      released := ForEach(erase);
    }
  }
}
