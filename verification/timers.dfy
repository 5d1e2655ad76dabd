/** Timers over the heap (src/timer.c): adding, deleting, and one pass of checking what is due. */
module Timers {
  import opened Folding
  import opened Heaps

  /** `time_t` on a clock that has been set. */
  type Time = t: int | 0 <= t < 0x8000_0000_0000_0000

  const ULONG_RANGE := 0x1_0000_0000_0000_0000

  /** A key is unsigned and 64 bits wide: adding a negative period to a small one gives a very large one. */
  function Rekey(key: ULong, after: Int32): (r: ULong)
    ensures r == key + after || (key + after < 0 && r == key + after + ULONG_RANGE)
      || (key + after >= ULONG_RANGE && r == key + after - ULONG_RANGE)
  {
    (key + after) % ULONG_RANGE
  }

  /** What a pass leaves of a timer. */
  datatype Left = Gone | Stays(key: ULong, repeat: Int32)

  /** What a pass at a given time does with one timer: when it fires, and what is left of it. */
  datatype Due = Due(deadlines: seq<ULong>, left: Left)

  datatype Firing = Firing(timer: Timer, deadline: ULong)

  /** How far a key is from one that is not due. */
  function Distance(key: ULong, after: Int32, now: Time): nat {
    if key >= now then 0 else if after > 0 then 1 + now - key else 1 + key
  }

  /** An endless timer (`repeat` -1) fires while it is due; another at most `repeat` times more than once. */
  function Run(key: ULong, after: Int32, repeat: Int32, now: Time): Due
    requires repeat == -1 && key < now ==> after != 0
    decreases if repeat == -1 then Distance(key, after, now) else repeat
  {
    if key >= now then Due([], Stays(key, repeat))
    else if repeat == -1 || repeat > 0 then
      var d := Run(Rekey(key, after), after, if repeat == -1 then -1 else repeat - 1, now);
      Due([key] + d.deadlines, d.left)
    else Due([key], Gone)
  }

  /** `n` is how many periods begin within `late` seconds. */
  predicate Periods(late: int, after: int, n: nat) {
    (n - 1) * after < late <= n * after
  }

  lemma OnePeriodLess(late: int, after: int, n: nat)
    requires after >= 1 && late > 0 && Periods(late, after, n)
    ensures n >= 1 && (n == 1 <==> late <= after)
    ensures n > 1 ==> Periods(late - after, after, n - 1)
  {
  }

  /** How often a timer with counted repeats can fire. */
  function Shots(repeat: int): nat {
    if repeat > 0 then repeat + 1 else 1
  }

  /**
   `n` is how many steps a due key takes until it is not due any more: going up it reaches the present, going down it
   passes zero.
   */
  predicate Steps(key: ULong, after: int, now: Time, n: nat) {
    if after >= 1 then Periods(now - key, after, n) else after <= -1 ==> Periods(key + 1, -after, n)
  }

  /** How often a due timer fires: once for each step its key takes, unless its repeats run out. */
  function Fires(after: int, repeat: int, n: nat): nat {
    if after != 0 && (repeat == -1 || n <= Shots(repeat)) then n else Shots(repeat)
  }

  /**
   In closed form: the deadlines are one period apart, and a timer stays exactly when its repeats have not run out. Only
   one without a period uses all its repeats up at once.
   */
  lemma {:induction false} RunExact(key: ULong, after: Int32, repeat: Int32, now: Time, n: nat)
    requires key < now && (repeat == -1 ==> after != 0) && Steps(key, after, now, n)
    ensures var d := Run(key, after, repeat, now);
      && |d.deadlines| == Fires(after, repeat, n)
      && (forall j :: 0 <= j < |d.deadlines| ==> d.deadlines[j] == key + j * after)
      && if after != 0 && (repeat == -1 || n <= repeat)
         then d.left.Stays? && d.left.repeat == (if repeat == -1 then -1 else repeat - n)
           && d.left.key == key + n * after + if after > 0 then 0 else ULONG_RANGE
         else d.left == Gone
    decreases if repeat == -1 then n else repeat
  {
    if after >= 1 { OnePeriodLess(now - key, after, n); }
    var down: int := after;
    if after <= -1 { OnePeriodLess(key + 1, -down, n); }
    if repeat == -1 || repeat > 0 {
      var less: Int32 := if repeat == -1 then -1 else repeat - 1;
      var next := Rekey(key, after);
      var d, rest := Run(key, after, repeat, now), Run(next, after, less, now);
      assert d.deadlines == [key] + rest.deadlines;
      if after == 0 {
        RunExact(next, after, less, now, n);
      } else if n > 1 {
        RunExact(next, after, less, now, n - 1);
      }
      assert key + after + (n - 1) * after == key + n * after by { assert (n - 1) * after == n * after - after; }
      forall j | 0 <= j < |d.deadlines|
        ensures d.deadlines[j] == key + j * after
      {
        if j > 0 {
          assert d.deadlines[j] == rest.deadlines[j - 1] == key + after + (j - 1) * after;
          assert (j - 1) * after == j * after - after;
        }
      }
    }
  }

  /** The deadlines at which `t` fired. */
  function Of(log: seq<Firing>, t: Timer): seq<ULong> {
    if log == [] then []
    else Of(log[..|log| - 1], t) + if log[|log| - 1].timer == t then [log[|log| - 1].deadline] else []
  }

  lemma OfAppend(log: seq<Firing>, f: Firing, t: Timer)
    ensures Of(log + [f], t) == Of(log, t) + if f.timer == t then [f.deadline] else []
  {
  }

  /** An endless timer that is due must have a period, or it would be due forever. */
  ghost predicate Advances(nodes: set<Timer>, now: Time)
    reads nodes
  {
    forall t :: t in nodes && t.repeat == -1 && t.key < now ==> t.after != 0
  }

  ghost function Plan(nodes: set<Timer>, now: Time): map<Timer, Due>
    requires Advances(nodes, now)
    reads nodes
  {
    map t | t in nodes :: Run(t.key, t.after, t.repeat, now)
  }

  /** `add_timer`. */
  method AddTimer(h: Heap, now: Time, after: Int32, repeat: Int32, addr: nat) returns (timer: Timer)
    requires h.Valid() && Ordered(h.Keys())
    modifies h, h.table, h.nodes`index
    ensures h.Valid() && Ordered(h.Keys()) && fresh(timer) && h.nodes == old(h.nodes) + {timer}
    ensures timer.key == Rekey(now, after) && timer.after == after && timer.repeat == repeat
  {
    timer := new Timer(Rekey(now, after), after, repeat, addr);
    h.Push(timer);
  }

  /** `del_timer`. */
  method DelTimer(h: Heap, timer: Timer) returns (ok: bool)
    requires h.Valid() && Ordered(h.Keys()) && timer in h.nodes
    modifies h`count, h`nodes, h.table, h.nodes`index
    ensures h.Valid() && ok && h.nodes == old(h.nodes) - {timer}
    ensures Ordered(h.Keys()) <==> old(h.ErasesWell(timer.index))
  {
    var erased := h.Erase(timer.index);
    ok := erased != null;
  }

  /** One turn of the inner loop of `check_timers`: the timer with the least deadline fires, whatever its period. */
  method Turn(h: Heap, now: Time) returns (f: Firing)
    requires h.Valid() && Ordered(h.Keys()) && h.count > 0 && h.table[1].key < now
    modifies h`count, h`nodes, h.table, h.nodes`index, h.nodes`key, h.nodes`repeat
    ensures h.Valid() && Ordered(h.Keys())
    ensures f == old(Firing(h.table[1], h.table[1].key)) && f.timer in old(h.nodes)
    ensures h.nodes ==
      if old(f.timer.repeat == -1 || f.timer.repeat > 0) then old(h.nodes) else old(h.nodes) - {f.timer}
    ensures forall t :: t in h.nodes && t != f.timer ==> t.key == old(t.key) && t.repeat == old(t.repeat)
    ensures f.timer in h.nodes ==> f.timer.key == Rekey(f.deadline, f.timer.after)
    ensures f.timer in h.nodes ==> f.timer.repeat == old(if f.timer.repeat == -1 then -1 else f.timer.repeat - 1)
  {
    var timer := h.table[1];
    f := Firing(timer, timer.key);
    if timer.repeat == -1 {
      Postpone(h, timer);
    } else if timer.repeat > 0 {
      Countdown(h, timer);
      Postpone(h, timer);
    } else {
      h.ErasesWellWhen(timer.index);
      var ok := DelTimer(h, timer);
    }
  }

  /** A turn takes the first planned firing of its timer, and leaves all other plans as they are. */
  method FireTop(h: Heap, now: Time) returns (f: Firing)
    requires h.Valid() && Ordered(h.Keys()) && h.count > 0 && h.table[1].key < now && Advances(h.nodes, now)
    modifies h`count, h`nodes, h.table, h.nodes`index, h.nodes`key, h.nodes`repeat
    ensures h.Valid() && Ordered(h.Keys()) && Advances(h.nodes, now)
    ensures f.timer in old(h.nodes) && f == old(Firing(h.table[1], h.table[1].key))
    ensures var was := old(Plan(h.nodes, now)); var d := was[f.timer];
      && d.deadlines != [] && d.deadlines[0] == f.deadline
      && (f.timer in h.nodes ==> Plan(h.nodes, now) == was[f.timer := Due(d.deadlines[1..], d.left)])
      && (f.timer !in h.nodes ==> Plan(h.nodes, now) == was - {f.timer} && d == Due([f.deadline], Gone))
    ensures h.nodes == old(h.nodes) || h.nodes == old(h.nodes) - {f.timer}
    ensures forall t :: t in h.nodes && t != f.timer ==> t.key == old(t.key)
    ensures f.timer in h.nodes ==> f.timer.key == Rekey(f.deadline, f.timer.after)
  {
    f := Turn(h, now);
  }

  /**
   Otherwise the inner loop never ends: a due endless timer without a period keeps something due after any number of
   turns.
   */
  method Spin(h: Heap, now: Time, n: nat) returns (log: seq<Firing>)
    requires h.Valid() && Ordered(h.Keys()) && !Advances(h.nodes, now)
    modifies h`count, h`nodes, h.table, h.nodes`index, h.nodes`key, h.nodes`repeat
    ensures h.Valid() && Ordered(h.Keys()) && |log| == n
    ensures !Advances(h.nodes, now) && h.count > 0 && h.table[1].key < now
  {
    log := [];
    ghost var stuck :| stuck in h.nodes && stuck.repeat == -1 && stuck.key < now && stuck.after == 0;
    while |log| < n
      invariant h.Valid() && Ordered(h.Keys()) && |log| <= n && h.nodes <= old(h.nodes)
      invariant stuck in h.nodes && stuck.repeat == -1 && stuck.key < now && stuck.after == 0
    {
      h.LeastOfNodes();
      var f := Turn(h, now);
      log := log + [f];
    }
    h.LeastOfNodes();
  }

  method Countdown(h: Heap, timer: Timer)
    requires h.Valid() && timer in h.nodes && timer.repeat > 0
    modifies timer`repeat
    ensures h.Valid() && h.Keys() == old(h.Keys()) && timer.repeat == old(timer.repeat) - 1
  {
    timer.repeat := timer.repeat - 1;
  }

  /** A later deadline for the timer at the root, which then sinks. */
  method Postpone(h: Heap, timer: Timer)
    requires h.Valid() && Ordered(h.Keys()) && timer in h.nodes && timer.index == 1
    modifies h.table, h.nodes`index, timer`key
    ensures h.Valid() && Ordered(h.Keys()) && timer.key == Rekey(old(timer.key), timer.after)
  {
    ghost var ks := h.Keys();
    timer.key := Rekey(timer.key, timer.after);
    Replaced(ks, h.Keys(), 1);
    h.HeapDown(timer.index);
  }

  ghost function Any(ts: set<Timer>): (t: Timer)
    requires ts != {}
    ensures t in ts
  {
    var t :| t in ts;
    t
  }

  /** The firings a plan still holds for some timers. */
  ghost function Remaining(ts: set<Timer>, plan: map<Timer, Due>): nat
    decreases |ts|
  {
    if ts == {} then 0
    else
      var t := Any(ts);
      (if t in plan then |plan[t].deadlines| else 0) + Remaining(ts - {t}, plan)
  }

  lemma {:induction false} RemainingDrops(ts: set<Timer>, plan: map<Timer, Due>, plan': map<Timer, Due>, t: Timer)
    requires t in plan && plan[t].deadlines != []
    requires t in plan' ==> |plan'[t].deadlines| < |plan[t].deadlines|
    requires forall u :: u in plan' ==> u in plan && (u != t ==> plan'[u] == plan[u])
    requires forall u :: u in plan && u != t ==> u in plan'
    ensures Remaining(ts, plan') <= Remaining(ts, plan)
    ensures t in ts ==> Remaining(ts, plan') < Remaining(ts, plan)
    decreases |ts|
  {
    if ts != {} {
      RemainingDrops(ts - {Any(ts)}, plan, plan', t);
    }
  }

  /** How far a pass has come: what fired and what is planned make up what was planned at its start. */
  ghost predicate Accounted(log: seq<Firing>, plan: map<Timer, Due>, start: map<Timer, Due>) {
    forall i {:trigger Unfold(Planning, i)} :: Unfold(Planning, i) ==>
      && plan.Keys <= start.Keys
      && (forall f :: f in log ==> f.timer in start)
      && forall t :: t in start ==>
        if t in plan then start[t] == Due(Of(log, t) + plan[t].deadlines, plan[t].left)
        else start[t] == Due(Of(log, t), Gone)
  }

  lemma AccountedStep(log: seq<Firing>, plan: map<Timer, Due>, start: map<Timer, Due>,
                      f: Firing, plan': map<Timer, Due>)
    requires Accounted(log, plan, start) && f.timer in plan
    requires plan[f.timer].deadlines != [] && plan[f.timer].deadlines[0] == f.deadline
    requires if f.timer in plan' then plan' == plan[f.timer := Due(plan[f.timer].deadlines[1..], plan[f.timer].left)]
             else plan' == plan - {f.timer} && plan[f.timer] == Due([f.deadline], Gone)
    ensures Accounted(log + [f], plan', start)
  {
    assert Unfold(Planning, 0);
    forall t | t in start
      ensures if t in plan' then start[t] == Due(Of(log + [f], t) + plan'[t].deadlines, plan'[t].left)
              else start[t] == Due(Of(log + [f], t), Gone)
    {
      OfAppend(log, f, t);
      if t == f.timer {
        assert plan[t].deadlines == [f.deadline] + plan[t].deadlines[1..];
      }
    }
  }

  /** Nothing is due any more: what was planned at the start has all happened. */
  lemma AllHappened(log: seq<Firing>, nodes: set<Timer>, now: Time, start: map<Timer, Due>)
    requires Advances(nodes, now) && Accounted(log, Plan(nodes, now), start)
    requires forall t :: t in nodes ==> t.key >= now
    ensures forall f :: f in log ==> f.timer in start
    ensures forall t :: t in start ==> Of(log, t) == start[t].deadlines
    ensures forall t :: t in nodes <==> t in start && start[t].left != Gone
    ensures forall t :: t in nodes ==> start[t].left == Stays(t.key, t.repeat)
  {
    assert Unfold(Planning, 0);
    var plan := Plan(nodes, now);
    forall t | t in start
      ensures Of(log, t) == start[t].deadlines
      ensures t in nodes <==> start[t].left != Gone
      ensures t in nodes ==> start[t].left == Stays(t.key, t.repeat)
    {
      if t in nodes {
        assert plan[t] == Due([], Stays(t.key, t.repeat));
        assert Of(log, t) + [] == Of(log, t);
      }
    }
  }

  ghost predicate Chronological(log: seq<Firing>) {
    forall i, j :: 0 <= i < j < |log| ==> log[i].deadline <= log[j].deadline
  }

  /** No timer that is due has a negative period, and none is due before something that already fired. */
  ghost predicate Forward(log: seq<Firing>, nodes: set<Timer>, now: Time)
    reads nodes
  {
    && Chronological(log)
    && (forall t :: t in nodes && t.key < now ==> t.after >= 0)
    && forall f, t :: f in log && t in nodes ==> f.deadline <= t.key
  }

  /** In the middle of a pass; `forward` says that no due timer had a negative period. */
  ghost predicate Checking(h: Heap, now: Time, log: seq<Firing>, start: map<Timer, Due>, forward: bool)
    reads h, h.table, h.nodes
  {
    && h.Valid() && Ordered(h.Keys()) && Advances(h.nodes, now)
    && Accounted(log, Plan(h.nodes, now), start)
    && (forward ==> Forward(log, h.nodes, now))
  }

  method CheckOne(h: Heap, now: Time, log: seq<Firing>,
                  ghost start: map<Timer, Due>, ghost forward: bool, ghost all: set<Timer>)
    returns (f: Firing)
    requires h.nodes <= all
    requires Checking(h, now, log, start, forward) && h.count > 0 && h.table[1].key < now
    modifies h`count, h`nodes, h.table, h.nodes`index, h.nodes`key, h.nodes`repeat
    ensures Checking(h, now, log + [f], start, forward) && h.nodes <= old(h.nodes)
    ensures Remaining(all, Plan(h.nodes, now)) < old(Remaining(all, Plan(h.nodes, now)))
  {
    h.LeastOfNodes();
    ghost var plan := Plan(h.nodes, now);
    f := FireTop(h, now);
    AccountedStep(log, plan, start, f, Plan(h.nodes, now));
    RemainingDrops(all, plan, Plan(h.nodes, now), f.timer);
  }

  /**
   One pass of `check_timers` at time `now`, with callbacks that leave the heap alone. It ends, provided every endless
   timer that is due has a period.
   */
  method CheckPass(h: Heap, now: Time) returns (log: seq<Firing>)
    requires h.Valid() && Ordered(h.Keys()) && Advances(h.nodes, now)
    modifies h`count, h`nodes, h.table, h.nodes`index, h.nodes`key, h.nodes`repeat
    ensures h.Valid() && Ordered(h.Keys())
    ensures var start := old(Plan(h.nodes, now));
      && (forall f :: f in log ==> f.timer in start)
      && (forall t :: t in start ==> Of(log, t) == start[t].deadlines)
      && (forall t :: t in h.nodes <==> t in start && start[t].left != Gone)
      && (forall t :: t in h.nodes ==> start[t].left == Stays(t.key, t.repeat))
    ensures forall t :: t in h.nodes ==> t.key >= now
    ensures old(Forward([], h.nodes, now)) ==> Chronological(log)
  {
    log := [];
    ghost var start, forward := Plan(h.nodes, now), Forward([], h.nodes, now);
    while h.count != 0 && h.table[1].key < now
      invariant Checking(h, now, log, start, forward) && h.nodes <= old(h.nodes)
      decreases Remaining(old(h.nodes), Plan(h.nodes, now))
    {
      var f := CheckOne(h, now, log, start, forward, old(h.nodes));
      log := log + [f];
    }
    if h.count > 0 { h.LeastOfNodes(); }
    AllHappened(log, h.nodes, now, start);
  }
}
