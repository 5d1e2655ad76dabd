/**
 The coroutine scheduler (coroutine/coroutine.c). A body is a finite script of what it does between switches; real
 context switching is replaced by running the script up to its next yield.
 */
module Scheduler {
  import opened Bytes
  import opened Folding

  const STACK_SIZE: nat := 1024 * 1024
  const DEFAULT_COROUTINE: nat := 16

  /** A body overwrites any part of the shared stack, creates coroutines, and yields with some stack in use. */
  datatype Op = Touch(at: nat, bytes: seq<Byte>) | New(body: seq<Op>) | Yield(depth: nat)

  datatype Status = Ready | Running | Suspended

  /** `_save_stack` asserts that the stack in use fits. */
  predicate Fits(script: seq<Op>) {
    script == [] || (FitsOp(script[0]) && Fits(script[1..]))
  }

  predicate FitsOp(op: Op) {
    match op
    case Touch(at, bytes) => at + |bytes| <= STACK_SIZE
    case New(body) => Fits(body)
    case Yield(depth) => depth <= STACK_SIZE
  }

  /** Steps in a script, counting those of the coroutines it creates and one more for ending each of them. */
  function Weight(script: seq<Op>): nat {
    if script == [] then 0 else OpWeight(script[0]) + Weight(script[1..])
  }

  function OpWeight(op: Op): nat {
    match op
    case Touch(_, _) => 1
    case New(body) => 2 + Weight(body)
    case Yield(_) => 1
  }

  function Sum(s: seq<nat>): nat {
    if s == [] then 0 else s[0] + Sum(s[1..])
  }

  function CountNonZero(s: seq<nat>): nat {
    if s == [] then 0 else (if s[0] > 0 then 1 else 0) + CountNonZero(s[1..])
  }

  lemma {:induction false} UpdateTotals(s: seq<nat>, i: nat, v: nat)
    requires i < |s|
    ensures Sum(s[i := v]) == Sum(s) - s[i] + v
    ensures CountNonZero(s[i := v]) == CountNonZero(s) - (if s[i] > 0 then 1 else 0) + if v > 0 then 1 else 0
    ensures Sum(s) >= s[i] && (s[i] > 0 ==> CountNonZero(s) > 0)
  {
    if i == 0 {
      assert s[i := v][1..] == s[1..];
    } else {
      assert s[i := v][1..] == s[1..][i - 1 := v];
      UpdateTotals(s[1..], i - 1, v);
    }
  }

  /** A slot that was free counts now. */
  lemma OneMore(s: seq<nat>, i: nat, v: nat)
    requires i < |s| && s[i] == 0 && v > 0
    ensures Sum(s[i := v]) == Sum(s) + v && CountNonZero(s[i := v]) == CountNonZero(s) + 1
  {
    UpdateTotals(s, i, v);
  }

  /** Doubling the table adds free slots only. */
  lemma {:induction false} PadTotals(s: seq<nat>, n: nat)
    ensures Sum(s + seq(n, _ => 0)) == Sum(s)
    ensures CountNonZero(s + seq(n, _ => 0)) == CountNonZero(s)
  {
    var pad := seq(n, _ => 0);
    if s != [] {
      assert (s + pad)[1..] == s[1..] + pad;
      PadTotals(s[1..], n);
    } else if n > 0 {
      assert s + pad == pad && pad[1..] == [] + seq<nat>(n - 1, _ => 0);
      PadTotals([], n - 1);
    } else {
      assert s + pad == [];
    }
  }

  /** By counting: with fewer live slots than slots one of them is free, and with none live all are. */
  lemma {:induction false} Pigeonhole(s: seq<nat>)
    ensures CountNonZero(s) <= |s|
    ensures (forall i :: 0 <= i < |s| ==> s[i] > 0) ==> CountNonZero(s) == |s|
    ensures CountNonZero(s) == 0 <==> forall i :: 0 <= i < |s| ==> s[i] == 0
    ensures Sum(s) == 0 <==> forall i :: 0 <= i < |s| ==> s[i] == 0
  {
    if s != [] {
      Pigeonhole(s[1..]);
      assert forall i :: 0 < i < |s| ==> s[i] == s[1..][i - 1];
    }
  }

  /** How many slots are probed before slot `j` when probing starts at slot `nco`. */
  function Turn(j: nat, nco: nat, cap: nat): int {
    if j >= nco then j - nco else j + cap - nco
  }

  lemma ProbeIndex(i: nat, nco: nat, cap: nat)
    requires i < cap && nco < cap
    ensures (i + nco) % cap == if i + nco < cap then i + nco else i + nco - cap
  {
  }

  /** The scripts of the coroutines that some steps create, in order. */
  function NewsOf(steps: seq<Op>): seq<seq<Op>> {
    if steps == [] then []
    else
      var last := |steps| - 1;
      NewsOf(steps[..last]) + if steps[last].New? then [steps[last].body] else []
  }

  /** Each as often as a step asks for it. */
  lemma {:induction false} NewsCounted(steps: seq<Op>, body: seq<Op>, at: set<int>)
    requires forall i :: i in at ==> 0 <= i < |steps| && steps[i] == New(body)
    requires forall i :: 0 <= i < |steps| && steps[i] == New(body) ==> i in at
    ensures multiset(NewsOf(steps))[body] == |at|
    decreases |steps|
  {
    if steps == [] {
      assert forall i :: i !in at;
      assert at == {};
    } else {
      NewsCounted(steps[..|steps| - 1], body, at - {|steps| - 1});
    }
  }

  /** What some steps make of the shared stack. */
  function Touched(stack: seq<Byte>, steps: seq<Op>): (touched: seq<Byte>)
    ensures |touched| == |stack|
  {
    if steps == [] then stack
    else
      var before := Touched(stack, steps[..|steps| - 1]);
      match steps[|steps| - 1]
      case Touch(at, bytes) =>
        if at + |bytes| <= |stack| then before[..at] + bytes + before[at + |bytes|..] else before
      case _ => before
  }

  /** Every byte is as the last step that wrote there left it, or as it was. */
  lemma {:induction false} TouchedAt(stack: seq<Byte>, steps: seq<Op>, k: nat, i: int)
    requires k < |stack| && -1 <= i < |steps|
    requires i >= 0 ==>
      steps[i].Touch? && steps[i].at <= k < steps[i].at + |steps[i].bytes| && steps[i].at + |steps[i].bytes| <= |stack|
    requires forall j :: i < j < |steps| && steps[j].Touch? && steps[j].at + |steps[j].bytes| <= |stack| ==>
      k < steps[j].at || k >= steps[j].at + |steps[j].bytes|
    ensures Touched(stack, steps)[k] == if i == -1 then stack[k] else steps[i].bytes[k - steps[i].at]
    decreases |steps|
  {
    if i < |steps| - 1 {
      TouchedAt(stack, steps[..|steps| - 1], k, i);
    }
  }

  /** The shared stack with what was saved of it put back. */
  function Restored(stack: seq<Byte>, saved: seq<Byte>): seq<Byte> {
    if |saved| <= |stack| then stack[..|stack| - |saved|] + saved else stack
  }

  /** That a coroutine was created, and by whom; from outside of any if `parent` is null. */
  datatype Birth = Birth(parent: Coroutine?, child: Coroutine)

  /** The scripts of those that `c` created, in order. */
  ghost function BodiesBy(log: seq<Birth>, c: Coroutine?): seq<seq<Op>> {
    if log == [] then []
    else
      var last := |log| - 1;
      BodiesBy(log[..last], c) + if log[last].parent == c then [log[last].child.body] else []
  }

  lemma {:induction false} BodiesByAppend(a: seq<Birth>, b: seq<Birth>, c: Coroutine?)
    ensures BodiesBy(a + b, c) == BodiesBy(a, c) + BodiesBy(b, c)
    decreases |b|
  {
    if b == [] {
      assert a + b == a;
    } else {
      BodiesByAppend(a, b[..|b| - 1], c);
      assert (a + b)[..|a + b| - 1] == a + b[..|b| - 1];
    }
  }

  lemma {:induction false} NotParent(log: seq<Birth>, c: Coroutine?)
    requires forall b :: b in log ==> b.parent != c
    ensures BodiesBy(log, c) == []
    decreases |log|
  {
    if log != [] {
      assert log[|log| - 1] in log;
      NotParent(log[..|log| - 1], c);
    }
  }

  ghost function Children(log: seq<Birth>): set<Coroutine> {
    set b | b in log :: b.child
  }

  /** A slice of a script ends with its first yield, or with the script. */
  ghost predicate Slice(steps: seq<Op>, yielded: bool) {
    && (forall i :: 0 <= i < |steps| - 1 ==> !steps[i].Yield?)
    && (yielded <==> steps != [] && steps[|steps| - 1].Yield?)
  }

  /**
   The `steps` of a slice of `c` were carried out: every `Touch`, in order, has made the shared stack what it is `now`,
   and every `New` was answered by one of the `births`, with its script. The slice ends with the first yield, if it was
   reached; then the part of the stack in use is saved.
   */
  ghost predicate SliceDone(c: Coroutine, steps: seq<Op>, births: seq<Birth>, start: seq<Byte>, now: seq<Byte>,
                            saved: seq<Byte>, yielded: bool)
  {
    && Slice(steps, yielded)
    && now == Touched(start, steps)
    && (forall b :: b in births ==> b.parent == c)
    && BodiesBy(births, c) == NewsOf(steps)
    && (yielded ==> var depth := steps[|steps| - 1].depth; depth <= |now| && saved == now[|now| - depth..])
  }

  /** What an op makes of the shared stack, of those created and of what `c` has saved. */
  ghost predicate OpDone(c: Coroutine, op: Op, births: seq<Birth>, births': seq<Birth>, now: seq<Byte>, now': seq<Byte>,
                         saved': seq<Byte>)
  {
    match op
    case Touch(at, bytes) =>
      births' == births && at + |bytes| <= |now| && now' == now[..at] + bytes + now[at + |bytes|..]
    case New(body) =>
      && now' == now && births' != []
      && var b := births'[|births'| - 1];
      births' == births + [b] && b.parent == c && b.child.body == body
    case Yield(depth) =>
      births' == births && now' == now && depth <= |now| && saved' == now[|now| - depth..]
  }

  lemma SliceOn(c: Coroutine, steps: seq<Op>, births: seq<Birth>, start: seq<Byte>, now: seq<Byte>, saved: seq<Byte>,
                op: Op, births': seq<Birth>, now': seq<Byte>, saved': seq<Byte>)
    requires SliceDone(c, steps, births, start, now, saved, false)
    requires OpDone(c, op, births, births', now, now', saved')
    ensures SliceDone(c, steps + [op], births', start, now', saved', op.Yield?)
  {
    assert (steps + [op])[..|steps|] == steps;
    if op.New? { assert births'[..|births|] == births; }
  }

  /** The same for the steps that `c` has done since `before` and the births since `were`. */
  ghost predicate CarriedOut(c: Coroutine, before: seq<Op>, done: seq<Op>, were: seq<Birth>, created: seq<Birth>,
                             start: seq<Byte>, now: seq<Byte>, saved: seq<Byte>, yielded: bool)
  {
    forall u {:trigger Unfold(Parenting, u)} :: Unfold(Parenting, u) ==>
      && before <= done && were <= created
      && SliceDone(c, done[|before|..], created[|were|..], start, now, saved, yielded)
  }

  lemma NothingCarried(c: Coroutine, done: seq<Op>, created: seq<Birth>, start: seq<Byte>, saved: seq<Byte>)
    ensures CarriedOut(c, done, done, created, created, start, start, saved, false)
  {
    assert done[|done|..] == [] && created[|created|..] == [];
  }

  lemma CarryOn(c: Coroutine, before: seq<Op>, done: seq<Op>, were: seq<Birth>, created: seq<Birth>,
                start: seq<Byte>, now: seq<Byte>, saved: seq<Byte>,
                op: Op, created': seq<Birth>, now': seq<Byte>, saved': seq<Byte>)
    requires CarriedOut(c, before, done, were, created, start, now, saved, false)
    requires OpDone(c, op, created, created', now, now', saved')
    ensures CarriedOut(c, before, done + [op], were, created', start, now', saved', op.Yield?)
  {
    assert Unfold(Parenting, 0);
    assert (done + [op])[|before|..] == done[|before|..] + [op];
    if op.New? {
      assert created'[|were|..] == created[|were|..] + [created'[|created|]];
    }
    SliceOn(c, done[|before|..], created[|were|..], start, now, saved, op, created'[|were|..], now', saved');
  }

  /** All creations since were by coroutines. */
  ghost predicate Inside(before: seq<Birth>, after: seq<Birth>) {
    forall u {:trigger Unfold(Parenting, u)} :: Unfold(Parenting, u) ==>
      before <= after && forall b :: b in after[|before|..] ==> b.parent != null
  }

  lemma NoneSince(log: seq<Birth>)
    ensures Inside(log, log)
  {
    assert log[|log|..] == [];
  }

  lemma StillInside(a: seq<Birth>, b: seq<Birth>, c: seq<Birth>)
    requires Inside(a, b) && Inside(b, c)
    ensures Inside(a, c)
  {
    assert Unfold(Parenting, 0);
    assert c[|a|..] == b[|a|..] + c[|b|..];
  }

  lemma CarriedInside(c: Coroutine, before: seq<Op>, done: seq<Op>, were: seq<Birth>, created: seq<Birth>,
                      start: seq<Byte>, now: seq<Byte>, saved: seq<Byte>, yielded: bool)
    requires CarriedOut(c, before, done, were, created, start, now, saved, yielded)
    ensures Inside(were, created)
  {
    assert Unfold(Parenting, 0);
  }

  /** The scripts of all that were created. */
  ghost function Bodies(log: seq<Birth>): multiset<seq<Op>> {
    if log == [] then multiset{} else Bodies(log[..|log| - 1]) + multiset{log[|log| - 1].child.body}
  }

  /** The scripts of all that the scripts of those created are to create. */
  ghost function Asked(log: seq<Birth>): multiset<seq<Op>> {
    if log == [] then multiset{} else Asked(log[..|log| - 1]) + multiset(NewsOf(log[|log| - 1].child.body))
  }

  /** The scripts of all whose parents are the children in `kids`. */
  ghost function BodiesByAll(log: seq<Birth>, kids: seq<Birth>): multiset<seq<Op>> {
    if kids == [] then multiset{}
    else BodiesByAll(log, kids[..|kids| - 1]) + multiset(BodiesBy(log, kids[|kids| - 1].child))
  }

  ghost predicate Distinct(log: seq<Birth>) {
    forall i, j :: 0 <= i < j < |log| ==> log[i].child != log[j].child
  }

  /** One more creation counts once, if its parent is among the distinct `kids`. */
  lemma {:induction false} CountOnce(log: seq<Birth>, b: Birth, kids: seq<Birth>)
    requires Distinct(kids)
    ensures BodiesByAll(log + [b], kids) ==
      BodiesByAll(log, kids) + if b.parent in Children(kids) then multiset{b.child.body} else multiset{}
    decreases |kids|
  {
    if kids != [] {
      var some, last := kids[..|kids| - 1], kids[|kids| - 1].child;
      CountOnce(log, b, some);
      LastChild(kids);
      assert BodiesByAll(log + [b], kids) == BodiesByAll(log + [b], some) + multiset(BodiesBy(log + [b], last));
      CountHere(log, b, last);
    }
  }

  lemma LastChild(log: seq<Birth>)
    requires log != [] && Distinct(log)
    ensures var (some, last) := (log[..|log| - 1], log[|log| - 1].child);
      Distinct(some) && Children(log) == Children(some) + {last} && last !in Children(some)
  {
    assert log == log[..|log| - 1] + [log[|log| - 1]];
  }

  lemma CountHere(log: seq<Birth>, b: Birth, c: Coroutine)
    ensures multiset(BodiesBy(log + [b], c)) ==
      multiset(BodiesBy(log, c)) + if b.parent == c then multiset{b.child.body} else multiset{}
  {
    assert (log + [b])[..|log|] == log;
  }

  lemma {:induction false} CountNone(kids: seq<Birth>)
    ensures BodiesByAll([], kids) == multiset{}
    decreases |kids|
  {
    if kids != [] { CountNone(kids[..|kids| - 1]); }
  }

  /** Everybody was created from outside, or by somebody of `kids`. */
  lemma {:induction false} CountAll(log: seq<Birth>, kids: seq<Birth>)
    requires Distinct(kids) && forall b :: b in log ==> b.parent == null || b.parent in Children(kids)
    ensures Bodies(log) == multiset(BodiesBy(log, null)) + BodiesByAll(log, kids)
    decreases |log|
  {
    if log == [] {
      CountNone(kids);
    } else {
      var before, b := log[..|log| - 1], log[|log| - 1];
      assert b in log && log == before + [b];
      CountAll(before, kids);
      CountOnce(before, b, kids);
    }
  }

  lemma {:induction false} AskedIsDone(log: seq<Birth>, kids: seq<Birth>)
    requires forall b :: b in kids ==> BodiesBy(log, b.child) == NewsOf(b.child.body)
    ensures BodiesByAll(log, kids) == Asked(kids)
    decreases |kids|
  {
    if kids != [] {
      assert kids[|kids| - 1] in kids;
      AskedIsDone(log, kids[..|kids| - 1]);
    }
  }

  /** Each as often as `c` has created one with it. */
  lemma {:induction false} BodiesCounted(log: seq<Birth>, c: Coroutine?, body: seq<Op>, at: set<int>)
    requires forall i :: i in at ==> 0 <= i < |log| && log[i].parent == c && log[i].child.body == body
    requires forall i :: 0 <= i < |log| && log[i].parent == c && log[i].child.body == body ==> i in at
    ensures multiset(BodiesBy(log, c))[body] == |at|
    decreases |log|
  {
    if log == [] {
      assert forall i :: i !in at;
      assert at == {};
    } else {
      BodiesCounted(log[..|log| - 1], c, body, at - {|log| - 1});
    }
  }

  /** Each as often as there is a coroutine with it. */
  lemma {:induction false} AllCounted(log: seq<Birth>, body: seq<Op>, with: set<Coroutine>)
    requires Distinct(log) && forall c :: c in with ==> c in Children(log) && c.body == body
    requires forall i :: 0 <= i < |log| && log[i].child.body == body ==> log[i].child in with
    ensures Bodies(log)[body] == |with|
    decreases |log|
  {
    if log == [] {
      assert with == {};
    } else {
      var before, last := log[..|log| - 1], log[|log| - 1];
      LastChild(log);
      AllCounted(before, body, with - {last.child});
    }
  }

  /** If every script was carried out, those created are those there were from outside, and all that were asked for. */
  lemma Census(log: seq<Birth>)
    requires Distinct(log) && forall b :: b in log ==> b.parent == null || b.parent in Children(log)
    requires forall b :: b in log ==> BodiesBy(log, b.child) == NewsOf(b.child.body)
    ensures Bodies(log) == multiset(BodiesBy(log, null)) + Asked(log)
  {
    CountAll(log, log);
    AskedIsDone(log, log);
  }

  class Coroutine {
    const body: seq<Op>
    var rest: seq<Op>
    var status: Status
    var cap: nat
    var size: nat
    var stack: seq<Byte>
    ghost var slot: nat
    ghost var done: seq<Op>
    ghost var saved: seq<Byte>   // the live part of the shared stack at the last yield
    ghost var found: seq<Byte>   // that part of the shared stack when it was last resumed

    /** `_co_new`. */
    constructor (body: seq<Op>)
      ensures this.body == body && rest == body && done == []
      ensures status == Ready && Sound()
    {
      this.body, rest, status, cap, size, stack := body, body, Ready, 0, 0, [];
      slot, done, saved, found := 0, [], [], [];
    }

    /** The script is being run in order, and what was saved of the stack is intact. */
    ghost predicate Sound()
      reads this
    {
      && done + rest == body
      && |stack| == cap >= size == |saved|
      && size <= STACK_SIZE
      && stack[..size] == saved
    }
  }

  class Schedule {
    var co: seq<Coroutine?>
    var nco: nat
    var cap: nat
    var running: int
    var stack: array<Byte>
    ghost var all: set<Coroutine>                  // every coroutine ever created
    ghost var created: seq<Birth>                  // how they were, in order
    ghost var owed: seq<nat>                       // per slot, the steps left to its coroutine
    ghost var resumed: seq<(nat, Coroutine)>       // the slots resumed, with who was in them

    ghost predicate Valid()
      reads this`co, this`nco, this`cap, this`running, this`stack, this`all, this`owed, all
    {
      && |co| == cap == |owed| && cap > 0
      && stack.Length == STACK_SIZE
      && nco == CountNonZero(owed)
      && -1 <= running < cap
      && (running >= 0 ==> co[running] != null)
      && (forall i :: 0 <= i < cap ==> SlotOk(i))
      && (forall c :: c in all ==> c.Sound() && (Live(c) || c.rest == []))
    }

    /** Everybody was created once, and the steps done that create somebody are answered by those who were created. */
    ghost predicate Family()
      reads this`all, this`created, all`done
    {
      forall u {:trigger Unfold(Parenting, u)} :: Unfold(Parenting, u) ==>
        && all == Children(created)
        && Distinct(created)
        && (forall b :: b in created ==> b.parent == null || b.parent in all)
        && (forall c :: c in all ==> NewsOf(c.done) == BodiesBy(created, c))
    }

    ghost predicate Live(c: Coroutine)
      reads this`co, c`slot
    {
      c.slot < |co| && co[c.slot] == c
    }

    /** A slot is free, or holds a coroutine that knows its slot and is running just when the schedule says so. */
    ghost predicate SlotOk(i: nat)
      requires i < |co| == |owed|
      reads this`co, this`running, this`all, this`owed, all
    {
      if co[i] == null then owed[i] == 0
      else
        && co[i] in all
        && co[i].slot == i
        && owed[i] == 1 + Weight(co[i].rest)
        && Fits(co[i].rest)
        && (co[i].status == Running <==> i == running)
    }

    /** `coroutine_open`. */
    constructor ()
      ensures Valid() && nco == 0 && running == -1 && all == {} && resumed == [] && fresh(stack)
      ensures created == [] && Family()
    {
      nco, cap, running := 0, DEFAULT_COROUTINE, -1;
      co := seq(DEFAULT_COROUTINE, _ => null);
      stack := new Byte[STACK_SIZE];
      all, created, owed, resumed := {}, [], seq(DEFAULT_COROUTINE, _ => 0), [];
      new;
      Pigeonhole(owed);
    }

    /** Who creates a coroutine now. */
    ghost function Creator(): Coroutine?
      reads this`running, this`co
    {
      if 0 <= running < |co| then co[running] else null
    }

    /** Put a new coroutine into a free slot. */
    method Place(c: Coroutine, id: nat)
      requires Valid() && id < cap && co[id] == null
      requires c !in all && c.rest == c.body && c.done == [] && c.Sound() && c.status == Ready && Fits(c.body)
      modifies this`co, this`nco, this`all, this`owed, c`slot
      ensures Valid() && co == old(co)[id := c] && nco == old(nco) + 1
      ensures all == old(all) + {c} && owed == old(owed)[id := 1 + Weight(c.rest)] && Live(c)
      ensures Sum(owed) == old(Sum(owed)) + 1 + Weight(c.rest)
    {
      assert SlotOk(id);
      OneMore(owed, id, 1 + Weight(c.rest));
      c.slot := id;
      co := co[id := c];
      nco := nco + 1;
      all := all + {c};
      owed := owed[id := 1 + Weight(c.rest)];
      forall i | 0 <= i < cap
        ensures SlotOk(i)
      {
        assert old(SlotOk(i));
      }
    }

    /** `coroutine_new`: the first free slot from `nco` on, or twice as many slots. */
    method CoroutineNew(body: seq<Op>) returns (id: nat)
      requires Valid() && Fits(body)
      modifies this`co, this`cap, this`nco, this`all, this`created, this`owed
      ensures Valid() && id < cap && nco == old(nco) + 1 && running == old(running)
      ensures cap == if old(nco) >= old(cap) then 2 * old(cap) else old(cap)
      ensures if old(nco) >= old(cap) then id == old(cap) else
        forall j :: 0 <= j < cap && Turn(j, old(nco), cap) < Turn(id, old(nco), cap) ==> old(co)[j] != null
      ensures forall i :: 0 <= i < old(cap) && old(co)[i] != null ==>
        i != id && co[i] == old(co)[i] && owed[i] == old(owed)[i]
      ensures co[id] != null && fresh(co[id]) && all == old(all) + {co[id]} && Live(co[id])
      ensures created == old(created) + [Birth(old(Creator()), co[id])]
      ensures old(Family()) && running == -1 ==> Family()
      ensures co[id].body == co[id].rest == body && co[id].done == [] && co[id].status == Ready
      ensures Sum(owed) == old(Sum(owed)) + 1 + Weight(body)
    {
      var c := new Coroutine(body);
      created := created + [Birth(Creator(), c)];
      id := MakeSlot();
      Place(c, id);
      if old(Family()) && running == -1 { BornOutside(c); }
    }

    /** A creation from outside keeps the family in order. */
    twostate lemma BornOutside(new n: Coroutine)
      requires old(Family()) && n !in old(all) && n.done == []
      requires all == old(all) + {n} && created == old(created) + [Birth(null, n)]
      requires forall d :: d in old(all) ==> d.done == old(d.done)
      ensures Family()
    {
      assert Unfold(Parenting, 0);
      NotParent(old(created), n);
      Extended(old(created), Birth(null, n));
    }

    /** So does a step of a body that is one. */
    twostate lemma BornInside(c: Coroutine, new op: Op, new n: Coroutine)
      requires old(Family()) && c in old(all) && c.done == old(c.done) + [op]
      requires forall d :: d in old(all) && d != c ==> d.done == old(d.done)
      requires op.New? && n !in old(all) && n.done == [] && n.body == op.body
      requires all == old(all) + {n} && created == old(created) + [Birth(c, n)]
      ensures Family()
    {
      assert Unfold(Parenting, 0);
      assert c.done[..|c.done| - 1] == old(c.done);
      NotParent(old(created), n);
      Extended(old(created), Birth(c, n));
    }

    /** And one that is not. */
    twostate lemma NoneBorn(c: Coroutine, new op: Op)
      requires old(Family()) && c in old(all) && c.done == old(c.done) + [op] && !op.New?
      requires forall d :: d in old(all) && d != c ==> d.done == old(d.done)
      requires all == old(all) && created == old(created)
      ensures Family()
    {
      assert Unfold(Parenting, 0);
      assert c.done[..|c.done| - 1] == old(c.done);
    }

    static lemma Extended(log: seq<Birth>, b: Birth)
      requires Distinct(log) && b.child !in Children(log)
      ensures Distinct(log + [b]) && Children(log + [b]) == Children(log) + {b.child}
      ensures forall c: Coroutine? ::
        BodiesBy(log + [b], c) == BodiesBy(log, c) + if b.parent == c then [b.child.body] else []
    {
      assert (log + [b])[..|log|] == log;
      assert forall x :: x in log ==> x.child in Children(log);
    }

    /** A free slot, if need be in a larger table. */
    method MakeSlot() returns (id: nat)
      requires Valid()
      modifies this`co, this`cap, this`owed
      ensures Valid() && id < cap && co[id] == null && Sum(owed) == old(Sum(owed))
      ensures cap == if nco >= old(cap) then 2 * old(cap) else old(cap)
      ensures if nco >= old(cap) then id == old(cap) else
        forall j :: 0 <= j < cap && Turn(j, nco, cap) < Turn(id, nco, cap) ==> co[j] != null
      ensures old(co) <= co && old(owed) <= owed
      ensures forall i :: old(cap) <= i < cap ==> co[i] == null
    {
      if nco >= cap {
        id := cap;
        Double();
      } else {
        id := FreeSlot();
      }
    }

    /** `realloc` to twice the slots, the new ones cleared. */
    method Double()
      requires Valid()
      modifies this`co, this`cap, this`owed
      ensures Valid() && cap == 2 * old(cap) && Sum(owed) == old(Sum(owed))
      ensures forall i :: 0 <= i < cap ==> co[i] == if i < old(cap) then old(co)[i] else null
      ensures forall i :: 0 <= i < cap ==> owed[i] == if i < old(cap) then old(owed)[i] else 0
    {
      PadTotals(owed, cap);
      co := co + seq(cap, _ => null);
      owed := owed + seq(cap, _ => 0);
      cap := cap * 2;
      forall i | 0 <= i < cap
        ensures SlotOk(i)
      {
        assert i < cap / 2 ==> old(SlotOk(i));
      }
    }

    /** The rotated probe of `coroutine_new`: it visits every slot, so it finds a free one. */
    method FreeSlot() returns (id: nat)
      requires Valid() && nco < cap
      ensures id < cap && co[id] == null
      ensures forall j :: 0 <= j < cap && Turn(j, nco, cap) < Turn(id, nco, cap) ==> co[j] != null
    {
      var i := 0;
      while i < cap
        invariant i <= cap
        invariant forall j :: 0 <= j < cap && Turn(j, nco, cap) < i ==> co[j] != null
      {
        ProbeIndex(i, nco, cap);
        id := (i + nco) % cap;
        if co[id] == null { return id; }
        i := i + 1;
      }
      AllTaken();
      assert false;
    }

    lemma AllTaken()
      requires Valid() && forall j :: 0 <= j < cap ==> co[j] != null
      ensures nco == cap
    {
      forall j | 0 <= j < cap
        ensures owed[j] > 0
      {
        assert SlotOk(j);
      }
      Pigeonhole(owed);
    }

    /** The coroutine that is running, which has something left to do. */
    ghost predicate Busy(c: Coroutine)
      reads this, all
    {
      Valid() && running >= 0 && co[running] == c
    }

    /** Go past the next step of the running script. */
    method Fetch(c: Coroutine) returns (op: Op)
      requires Busy(c) && c.rest != []
      modifies c`rest, c`done, this`owed
      ensures Busy(c) && op == old(c.rest[0]) && FitsOp(op)
      ensures c.done == old(c.done + [c.rest[0]]) && c.rest == old(c.rest[1..])
      ensures |owed| == |old(owed)| && Sum(owed) == old(Sum(owed)) - OpWeight(op)
    {
      assert SlotOk(running);
      op := c.rest[0];
      c.done := c.done + [op];
      c.rest := c.rest[1..];
      UpdateTotals(owed, running, 1 + Weight(c.rest));
      owed := owed[running := 1 + Weight(c.rest)];
      forall i | 0 <= i < cap
        ensures SlotOk(i)
      {
        assert old(SlotOk(i));
        assert i != running && co[i] != null ==> co[i] != c;
      }
    }

    /** `_save_stack`: copy the part of the shared stack in use, in a larger block if needed. */
    method SaveStack(c: Coroutine, depth: nat)
      requires stack.Length == STACK_SIZE && depth <= STACK_SIZE && c.Sound()
      modifies c`cap, c`size, c`stack, c`saved
      ensures c.Sound() && c.size == depth && c.saved == stack[STACK_SIZE - depth..]
      ensures c.cap == if old(c.cap) < depth then depth else old(c.cap)
    {
      if c.cap < depth {
        c.cap := depth;
        c.stack := seq(depth, _ => 0);
      }
      c.size := depth;
      c.stack := stack[STACK_SIZE - depth..] + c.stack[depth..];
      c.saved := stack[STACK_SIZE - depth..];
    }

    /** `coroutine_yield`. */
    method CoroutineYield(c: Coroutine, depth: nat)
      requires Busy(c) && depth <= STACK_SIZE
      modifies c`cap, c`size, c`stack, c`saved, c`status, this`running
      ensures Valid() && running == -1 && co == old(co) && owed == old(owed)
      ensures c.status == Suspended && c.size == depth && c.saved == stack[STACK_SIZE - depth..]
    {
      assert SlotOk(running);
      SaveStack(c, depth);
      c.status := Suspended;
      running := -1;
      forall i | 0 <= i < cap
        ensures SlotOk(i)
      {
        assert old(SlotOk(i));
      }
    }

    /** The end of `mainfunc`: the body has returned and its slot becomes free. */
    method Retire(c: Coroutine)
      requires Busy(c) && c.rest == []
      modifies this`co, this`nco, this`running, this`owed
      ensures Valid() && running == -1 && co == old(co)[old(running) := null] && nco == old(nco) - 1
      ensures Sum(owed) == old(Sum(owed)) - 1 && cap == old(cap)
    {
      assert SlotOk(running);
      UpdateTotals(owed, running, 0);
      co := co[running := null];
      nco := nco - 1;
      owed := owed[running := 0];
      running := -1;
      forall i | 0 <= i < cap
        ensures SlotOk(i)
      {
        assert old(SlotOk(i));
      }
    }

    /** `memcpy` of the saved stack back onto the shared one: whatever others wrote there, it is as it was left. */
    method RestoreStack(c: Coroutine)
      requires stack.Length == STACK_SIZE && c.Sound()
      modifies stack
      ensures stack[STACK_SIZE - c.size..] == c.saved
      ensures stack[..] == Restored(old(stack[..]), c.saved)
    {
      forall i | 0 <= i < c.size {
        stack[STACK_SIZE - c.size + i] := c.stack[i];
      }
      assert stack[STACK_SIZE - c.size..] == c.stack[..c.size];
      assert stack[..] == stack[..STACK_SIZE - c.size] + stack[STACK_SIZE - c.size..];
    }

    /** Nobody has been moved out of a slot other than `id`, and none left the table. */
    twostate predicate Undisturbed(id: nat)
      reads this
    {
      && old(cap) <= cap == |co|
      && old(|co|) == old(cap)
      && forall j :: 0 <= j < old(cap) && j != id && old(co[j]) != null ==> co[j] == old(co[j])
    }

    /** What a slice of `c` that started on the shared stack `start` has done, and whom it has created. */
    twostate predicate Carried(c: Coroutine, start: seq<Byte>, yielded: bool)
      reads this, stack, c
    {
      && stack == old(stack)
      && CarriedOut(c, old(c.done), c.done, old(created), created, start, stack[..], c.saved, yielded)
    }

    /** The running body goes on until it yields or returns. */
    method RunSlice(c: Coroutine)
      requires Busy(c) && Family()
      modifies this`co, this`cap, this`nco, this`all, this`created, this`owed, this`running, stack
      modifies c`rest, c`done, c`status, c`cap, c`size, c`stack, c`saved
      ensures Valid() && running == -1 && Undisturbed(old(running)) && Sum(owed) < old(Sum(owed))
      ensures Family() && old(all) <= all && fresh(all - old(all)) && resumed == old(resumed)
      ensures co[old(running)] == null <==> co[old(running)] != c
      ensures Carried(c, old(stack[..]), co[old(running)] == c)
      ensures if co[old(running)] == c then c.status == Suspended else c.rest == []
    {
      ghost var id := running;
      assert SlotOk(id);
      NothingCarried(c, c.done, created, stack[..], c.saved);
      var busy := true;
      while busy
        invariant Valid() && Undisturbed(id) && Family() && old(all) <= all && fresh(all - old(all)) && c in all
        invariant if busy then running == id && co[id] == c && Sum(owed) <= old(Sum(owed))
          else running == -1 && Sum(owed) < old(Sum(owed))
        invariant Carried(c, old(stack[..]), !busy && co[id] == c)
        invariant !busy ==> if co[id] == c then c.status == Suspended else co[id] == null && c.rest == []
        decreases busy, Sum(owed)
      {
        ghost var left, done, births, now, saved := c.rest, c.done, created, stack[..], c.saved;
        busy := RunOp(c);
        if left != [] {
          CarryOn(c, old(c.done), done, old(created), births, old(stack[..]), now, saved,
                  left[0], created, stack[..], c.saved);
        }
      }
    }

    /** What a step of a body does besides being done. */
    twostate predicate Effect(c: Coroutine, op: Op, busy: bool)
      reads this, stack, c, all
    {
      && stack == old(stack) && busy == !op.Yield?
      && OpDone(c, op, old(created), created, old(stack[..]), stack[..], c.saved)
      && match op
         case Touch(_, _) => all == old(all)
         case New(_) =>
           && created != []
           && var n := created[|created| - 1].child;
           && all == old(all) + {n} && n !in old(all)
           && n.rest == n.body && n.done == [] && n.status == Ready && Live(n)
         case Yield(_) => all == old(all) && c.status == Suspended
    }

    /** What a body does to the stack. */
    method Overwrite(at: nat, bytes: seq<Byte>)
      requires at + |bytes| <= stack.Length
      modifies stack
      ensures stack[..] == old(stack[..])[..at] + bytes + old(stack[..])[at + |bytes|..]
    {
      ghost var was := stack[..];
      forall i | 0 <= i < |bytes| {
        stack[at + i] := bytes[i];
      }
      assert stack[..] == was[..at] + bytes + was[at + |bytes|..];
    }

    /** One step of the running body; false if it has yielded or returned. */
    method RunOp(c: Coroutine) returns (busy: bool)
      requires Busy(c) && Family()
      modifies this`co, this`cap, this`nco, this`all, this`created, this`owed, this`running, stack
      modifies c`rest, c`done, c`status, c`cap, c`size, c`stack, c`saved
      ensures Valid() && Undisturbed(old(running)) && Sum(owed) < old(Sum(owed))
      ensures Family() && old(all) <= all && fresh(all - old(all))
      ensures if busy then running == old(running) && co[running] == c else running == -1
      ensures co[old(running)] == if old(c.rest) == [] then null else c
      ensures if old(c.rest) == [] then
          && !busy && c.done == old(c.done) && c.rest == []
          && stack == old(stack) && stack[..] == old(stack[..]) && all == old(all) && created == old(created)
        else c.done == old(c.done + [c.rest[0]]) && c.rest == old(c.rest[1..]) && Effect(c, old(c.rest[0]), busy)
    {
      assert SlotOk(running);
      if c.rest == [] {
        Retire(c);
        return false;
      }
      busy := Perform(c);
    }

    /** The next step of a body that has not returned. */
    method Perform(c: Coroutine) returns (busy: bool)
      requires Busy(c) && Family() && c in all && c.rest != []
      modifies this`co, this`cap, this`nco, this`all, this`created, this`owed, this`running, stack
      modifies c`rest, c`done, c`status, c`cap, c`size, c`stack, c`saved
      ensures Valid() && Undisturbed(old(running)) && Sum(owed) < old(Sum(owed))
      ensures Family() && old(all) <= all && fresh(all - old(all))
      ensures (if busy then running == old(running) else running == -1) && co[old(running)] == c
      ensures c.done == old(c.done + [c.rest[0]]) && c.rest == old(c.rest[1..]) && Effect(c, old(c.rest[0]), busy)
    {
      var op := Fetch(c);
      match op
      case Touch(at, bytes) =>
        Overwrite(at, bytes);
        NoneBorn(c, op);
        return true;
      case New(body) =>
        var id := CoroutineNew(body);
        BornInside(c, op, co[id]);
        return true;
      case Yield(depth) =>
        CoroutineYield(c, depth);
        NoneBorn(c, op);
        return false;
    }

    ghost function At(id: nat): set<Coroutine>
      reads this
    {
      if id < |co| && co[id] != null then {co[id]} else {}
    }

    /** `coroutine_resume`. Of the coroutines there are, only the one resumed is written to. */
    method Resume(id: nat)
      requires Valid() && Family() && running == -1 && id < cap
      modifies this, stack, At(id)
      ensures Valid() && Family() && running == -1 && Undisturbed(id)
      ensures old(all) <= all && fresh(all - old(all)) && stack == old(stack)
      ensures Inside(old(created), created) && (old(co[id]) == null ==> unchanged(this))
      ensures old(co[id]) != null && old(co[id].status) == Suspended ==> old(co[id]).found == old(co[id].saved)
      ensures old(co[id]) != null ==> resumed == old(resumed + [(id, co[id])]) && Sum(owed) < old(Sum(owed))
      ensures old(co[id]) != null ==> old(co[id]).slot == id && old(co[id]) in all
      ensures old(co[id]) != null ==> var c := old(co[id]);
        && Carried(c, old(Found(c)), co[id] == c)
        && if co[id] == c then c.status == Suspended else co[id] == null && c.rest == []
    {
      var c := co[id];
      if c == null {
        NoneSince(created);
        return;
      }
      assert SlotOk(id);
      Enter(c, id);
      ghost var start := stack[..];
      RunSlice(c);
      CarriedInside(c, old(co[id].done), c.done, old(created), created, start, stack[..], c.saved, co[id] == c);
    }

    /** The shared stack as a coroutine finds it. */
    ghost function Found(c: Coroutine): seq<Byte>
      reads stack, this`stack, c
    {
      if c.status == Suspended then Restored(stack[..], c.saved) else stack[..]
    }

    /** Up to the switch to its context. */
    method Enter(c: Coroutine, id: nat)
      requires Valid() && running == -1 && id < cap && co[id] == c
      modifies stack, this`running, this`resumed, c`status, c`found
      ensures Busy(c) && running == id && resumed == old(resumed) + [(id, c)]
      ensures stack[..] == old(Found(c))
      ensures old(c.status) == Suspended ==> c.found == c.saved
    {
      assert SlotOk(id);
      if c.status == Suspended {
        RestoreStack(c);
      } else if c.status != Ready {
        assert false;
      }
      Switch(c, id);
    }

    method Switch(c: Coroutine, id: nat)
      requires Valid() && running == -1 && id < cap && co[id] == c
      modifies this`running, this`resumed, c`status, c`found
      ensures Busy(c) && running == id && resumed == old(resumed) + [(id, c)]
      ensures c.size <= STACK_SIZE == stack.Length && c.found == stack[STACK_SIZE - c.size..]
    {
      assert SlotOk(id);
      c.status := Running;
      c.found := stack[STACK_SIZE - c.size..];
      running := id;
      resumed := resumed + [(id, c)];
      forall i | 0 <= i < cap
        ensures SlotOk(i)
      {
        assert old(SlotOk(i));
      }
    }

    /**
     The inner loop of `coroutine_run`: one sweep over the table, which bodies may lengthen meanwhile. Slots are
     resumed in increasing order, each coroutine live at the start exactly once and in its own slot.
     */
    method Sweep()
      requires Valid() && Family() && running == -1
      modifies this, stack, all
      ensures Valid() && Family() && running == -1
      ensures old(all) <= all && fresh(all - old(all)) && stack == old(stack) && Inside(old(created), created)
      ensures old(resumed) <= resumed && Increasing(resumed[|old(resumed)|..])
      ensures forall i :: 0 <= i < old(cap) && old(co[i]) != null ==> (i, old(co[i])) in resumed[|old(resumed)|..]
      ensures OnceEach(resumed[|old(resumed)|..])
      ensures old(nco) > 0 ==> Sum(owed) < old(Sum(owed))
    {
      ghost var start, n, some := co, |resumed|, SomeLive();
      NoneSince(created);
      var i := 0;
      while i < cap
        invariant Valid() && Family() && running == -1 && i <= cap && |start| <= cap
        invariant old(all) <= all && fresh(all - old(all)) && stack == old(stack) && Inside(old(created), created)
        invariant old(resumed) <= resumed && Swept(start, resumed[n..], i)
        invariant forall j :: i <= j < |start| && start[j] != null ==> co[j] == start[j]
        invariant forall r :: r in resumed[n..] ==> r.1 in all && r.1.slot == r.0 < i
        invariant Sum(owed) <= old(Sum(owed)) && (resumed[n..] != [] ==> Sum(owed) < old(Sum(owed)))
        decreases Sum(owed), cap - i
      {
        ghost var before, c := resumed[n..], co[i];
        assert SlotOk(i);
        ghost var log := created;
        Resume(i);
        StillInside(old(created), log, created);
        assert resumed[n..] == before + if c == null then [] else [(i, c)];
        SweptStep(start, before, i, c);
        i := i + 1;
      }
      SweptAll(start, resumed[n..], i);
      assert forall a :: 0 <= a < |resumed[n..]| ==> resumed[n..][a] in resumed[n..];
      assert old(nco) > 0 ==> (some, start[some]) in resumed[n..];
    }

    ghost function SomeLive(): (i: nat)
      requires Valid()
      reads this, all
      ensures nco > 0 ==> i < cap && co[i] != null
    {
      Pigeonhole(owed);
      if nco > 0 then
        var i :| 0 <= i < cap && owed[i] > 0;
        assert SlotOk(i);
        i
      else 0
    }

    lemma AllReturned()
      requires Valid() && nco == 0
      ensures forall c :: c in all ==> c.done == c.body && c.rest == []
    {
      Pigeonhole(owed);
      forall i | 0 <= i < cap
        ensures co[i] == null
      {
        assert SlotOk(i);
      }
      forall c | c in all
        ensures c.done == c.body && c.rest == []
      {
        assert !Live(c);
        assert c.done + [] == c.done;
      }
    }

    /**
     `coroutine_run`: it ends, with every coroutine ever created gone, its body run completely and in order, and all
     that it was to create created: those that there are then are those from outside, and all that bodies ask for.
     */
    method Run()
      requires Valid() && Family() && running == -1
      modifies this, stack, all
      ensures Valid() && Family() && running == -1 && nco == 0 && old(all) <= all
      ensures forall c :: c in all ==> c.done == c.body && c.rest == []
      ensures all == Children(created) && Distinct(created) && old(created) <= created
      ensures forall c :: c in all ==> BodiesBy(created, c) == NewsOf(c.body)
      ensures Bodies(created) == multiset(old(BodiesBy(created, null))) + Asked(created)
    {
      NoneSince(created);
      while nco > 0
        invariant Valid() && Family() && running == -1
        invariant old(all) <= all && fresh(all - old(all)) && stack == old(stack) && Inside(old(created), created)
        decreases Sum(owed)
      {
        ghost var log := created;
        Sweep();
        StillInside(old(created), log, created);
      }
      AllReturned();
      AllCreated(old(created));
    }

    lemma AllCreated(before: seq<Birth>)
      requires Family() && Inside(before, created) && forall c :: c in all ==> c.done == c.body
      ensures all == Children(created) && Distinct(created) && before <= created
      ensures forall c :: c in all ==> BodiesBy(created, c) == NewsOf(c.body)
      ensures Bodies(created) == multiset(BodiesBy(before, null)) + Asked(created)
    {
      assert Unfold(Parenting, 0);
      NotParent(created[|before|..], null);
      BodiesByAppend(before, created[|before|..], null);
      assert before + created[|before|..] == created;
      Census(created);
    }
  }

  ghost predicate Increasing(resumed: seq<(nat, Coroutine)>) {
    forall i, j :: 0 <= i < j < |resumed| ==> resumed[i].0 < resumed[j].0
  }

  /** No coroutine is resumed twice. */
  ghost predicate OnceEach(resumed: seq<(nat, Coroutine)>) {
    forall i, j :: 0 <= i < j < |resumed| ==> resumed[i].1 != resumed[j].1
  }

  /** The resumptions of a sweep that has passed `i` slots of a table that was `start` when it began. */
  ghost predicate Swept(start: seq<Coroutine?>, log: seq<(nat, Coroutine)>, i: nat) {
    forall u {:trigger Unfold(Sweeping, u)} :: Unfold(Sweeping, u) ==>
      && Increasing(log)
      && (forall r :: r in log ==> r.0 < i)
      && (forall j :: 0 <= j < i && j < |start| && start[j] != null ==> (j, start[j]) in log)
  }

  lemma SweptStep(start: seq<Coroutine?>, log: seq<(nat, Coroutine)>, i: nat, c: Coroutine?)
    requires Swept(start, log, i) && (i < |start| && start[i] != null ==> c == start[i])
    ensures Swept(start, log + if c == null then [] else [(i, c)], i + 1)
  {
  }

  lemma SweptAll(start: seq<Coroutine?>, log: seq<(nat, Coroutine)>, i: nat)
    requires Swept(start, log, i)
    ensures Increasing(log)
    ensures forall j :: 0 <= j < i && j < |start| && start[j] != null ==> (j, start[j]) in log
  {
    assert Unfold(Sweeping, 0);
  }
}
