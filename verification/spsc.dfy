/**
 The queue between two threads (c-stl/queue.c, src/database.c): one posts with `queue_push_fixed`, the other takes
 with `queue_pop`, without a lock. Each access to shared memory is a step of its own, in program order.
 */
module TwoThreads {
  import opened Queues
  import opened Sliding

  /** Where the posting thread is between two accesses; `Counting` has read `size` to increment it. */
  datatype Producer<T> = Posting | Checked(item: T) | Written | Moved | Counting(seen: int)

  /** Where the taking thread is; `Discounting` has read `size` to decrement it. */
  datatype Consumer = Idle | Found | Held | Cleared | Left | Discounting(seen: int)

  /**
   Shared memory and the two threads. `sent` are the items written to slots, `taken` the slot contents read, and
   `moved` and `freed` count how often `tail` and `head` have advanced.
   */
  datatype State<T> = State(
    table: seq<Slot<T>>, head: nat, tail: nat, size: int,
    producer: Producer<T>, consumer: Consumer,
    sent: seq<T>, taken: seq<Slot<T>>, moved: nat, freed: nat)

  datatype Event<T> =
    | Push(item: T) | WriteSlot | AdvanceTail | LoadToAdd | StoreAdded
    | Check | ReadSlot | ClearSlot | AdvanceHead | LoadToSubtract | StoreSubtracted

  function Init<T>(capacity: nat): State<T> {
    State(seq(capacity, _ => Null), 0, 0, 0, Posting, Idle, [], [], 0, 0)
  }

  /** Each thread takes its steps in the order of its code. */
  predicate Enabled<T(==)>(s: State<T>, e: Event<T>) {
    && s.head < |s.table| && s.tail < |s.table|
    && match e
       case Push(_) => s.producer.Posting?
       case WriteSlot => s.producer.Checked?
       case AdvanceTail => s.producer.Written?
       case LoadToAdd => s.producer.Moved?
       case StoreAdded => s.producer.Counting?
       case Check => s.consumer.Idle?
       case ReadSlot => s.consumer.Found?
       case ClearSlot => s.consumer.Held?
       case AdvanceHead => s.consumer.Cleared?
       case LoadToSubtract => s.consumer.Left?
       case StoreSubtracted => s.consumer.Discounting?
  }

  /** A push of a full queue and a pop of an empty one change nothing. */
  function Step<T(==)>(s: State<T>, e: Event<T>): State<T>
    requires Enabled(s, e)
  {
    var capacity := |s.table|;
    match e
    case Push(item) => if s.head == Next(s.tail, capacity) then s else s.(producer := Checked(item))
    case WriteSlot =>
      s.(table := s.table[s.tail := Item(s.producer.item)], sent := s.sent + [s.producer.item], producer := Written)
    case AdvanceTail => s.(tail := Next(s.tail, capacity), moved := s.moved + 1, producer := Moved)
    case LoadToAdd => s.(producer := Counting(s.size))
    case StoreAdded => s.(size := s.producer.seen + 1, producer := Posting)
    case Check => if s.size == 0 then s else s.(consumer := Found)
    case ReadSlot => s.(taken := s.taken + [s.table[s.head]], consumer := Held)
    case ClearSlot => s.(table := s.table[s.head := Null], consumer := Cleared)
    case AdvanceHead => s.(head := Next(s.head, capacity), freed := s.freed + 1, consumer := Left)
    case LoadToSubtract => s.(consumer := Discounting(s.size))
    case StoreSubtracted => s.(size := s.consumer.seen - 1, consumer := Idle)
  }

  /** A check that lets the taking thread go on does so when `tail` is ahead of `head`. */
  predicate Finds<T(==)>(s: State<T>, e: Event<T>) {
    e.Check? && s.size != 0 ==> Between(s) > 0
  }

  /** The increment does not overwrite a decrement stored since `size` was read for it. */
  predicate Keeps<T(==)>(s: State<T>, e: Event<T>) {
    e.StoreAdded? && s.producer.Counting? ==> s.producer.seen == s.size
  }

  /** Neither thread reads `size` to change it while the other is about to store its own change. */
  predicate Exclusive<T(==)>(s: State<T>, e: Event<T>) {
    && (e.LoadToAdd? ==> !s.consumer.Discounting?)
    && (e.LoadToSubtract? ==> !s.producer.Counting?)
  }

  /** Items announced by `tail` and not yet given back by `head`. */
  function Between<T>(s: State<T>): int { s.moved - s.freed }

  /** How far `size` falls behind the number of items: increments that a later store has overwritten. */
  function Slack<T>(s: State<T>): int {
    Between(s) - Uncounted(s) + (if s.consumer.Left? || s.consumer.Discounting? then 1 else 0) - s.size
  }

  /** `size` may fall behind but never runs ahead, and the taking thread is only at work while it is positive. */
  ghost predicate Counted<T>(s: State<T>) {
    && 0 <= s.size && 0 <= Slack(s)
    && (!s.consumer.Idle? ==> s.size >= 1)
    && (s.consumer.Discounting? ==> 1 <= s.consumer.seen <= s.size)
    && (s.producer.Counting? ==> s.size <= s.producer.seen)
  }

  ghost predicate Indexed<T>(s: State<T>) {
    var capacity := |s.table|;
    && capacity >= 2
    && s.head == s.freed % capacity && s.tail == s.moved % capacity
    && 0 <= Between(s) < capacity
    && |s.sent| == s.moved + (if s.producer.Written? then 1 else 0)
    && |s.taken| == s.freed + (if s.consumer.Held? || s.consumer.Cleared? then 1 else 0)
    && (s.producer.Checked? || s.producer.Written? ==> Between(s) < capacity - 1)
    && (s.consumer.Found? || s.consumer.Held? || s.consumer.Cleared? ==> Between(s) > 0)
  }

  /** A push whose item is announced but not counted. */
  function Uncounted<T>(s: State<T>): nat {
    if s.producer.Moved? || s.producer.Counting? then 1 else 0
  }

  /** The first slot, counting from the start of time, that still holds what was sent. */
  function Oldest<T>(s: State<T>): nat {
    s.freed + if s.consumer.Cleared? then 1 else 0
  }

  ghost predicate Stored<T>(s: State<T>)
    requires |s.table| > 0
  {
    && |s.taken| <= |s.sent|
    && (forall n :: 0 <= n < |s.taken| ==> s.taken[n] == Item(s.sent[n]))
    && (forall n {:trigger s.sent[n]} :: Oldest(s) <= n < |s.sent| ==> s.table[n % |s.table|] == Item(s.sent[n]))
  }

  ghost predicate Inv<T>(s: State<T>) {
    Indexed(s) && Counted(s) && Stored(s)
  }

  /** Two counts less than a table apart fall on different slots. */
  lemma Apart(a: nat, b: nat, capacity: nat)
    requires a < b < a + capacity
    ensures a % capacity != b % capacity
  {
    var q := a / capacity;
    if a % capacity + (b - a) < capacity {
      ModIs(b, q, a % capacity + (b - a), capacity);
    } else {
      ModIs(b, q + 1, a % capacity + (b - a) - capacity, capacity);
    }
  }

  lemma Follows(a: nat, capacity: nat)
    requires capacity > 0
    ensures (a + 1) % capacity == Next(a % capacity, capacity)
  {
    var q := a / capacity;
    if a % capacity + 1 < capacity {
      ModIs(a + 1, q, a % capacity + 1, capacity);
    } else {
      ModIs(a + 1, q + 1, 0, capacity);
    }
  }

  lemma InitInv<T>(capacity: nat)
    requires capacity >= 2
    ensures Inv(Init<T>(capacity))
  {
  }

  lemma CountedStep<T>(s: State<T>, e: Event<T>)
    requires Counted(s) && Enabled(s, e) && Keeps(s, e)
    ensures Counted(Step(s, e)) && Slack(Step(s, e)) >= Slack(s)
  {
  }

  lemma IndexedStep<T>(s: State<T>, e: Event<T>)
    requires Indexed(s) && Enabled(s, e)
    requires Finds(s, e)
    ensures Indexed(Step(s, e))
  {
    var capacity := |s.table|;
    match e
    case Push(_) => NotFull(s);
    case AdvanceTail => Follows(s.moved, capacity);
    case AdvanceHead => Follows(s.freed, capacity);
    case _ =>
  }

  /** The full test is exact: the slot after `tail` is `head` just when only one slot is unused. */
  lemma NotFull<T>(s: State<T>)
    requires Indexed(s)
    ensures Between(s) == |s.table| - 1 <==> s.head == Next(s.tail, |s.table|)
  {
    var capacity := |s.table|;
    Follows(s.moved, capacity);
    if Between(s) == capacity - 1 {
      ModIs(s.moved + 1, s.freed / capacity + 1, s.freed % capacity, capacity);
    } else {
      Apart(s.freed, s.moved + 1, capacity);
    }
  }

  lemma StoredWrite<T>(s: State<T>)
    requires Indexed(s) && Stored(s) && s.producer.Checked?
    ensures Stored(Step(s, WriteSlot))
  {
    var s' := Step(s, WriteSlot);
    forall n | Oldest(s) <= n < |s'.sent|
      ensures s'.table[n % |s'.table|] == Item(s'.sent[n])
    {
      if n < |s.sent| {
        Apart(n, s.moved, |s.table|);
        assert s.table[n % |s.table|] == Item(s.sent[n]);
      }
    }
  }

  lemma StoredRead<T>(s: State<T>)
    requires Indexed(s) && Stored(s) && s.consumer.Found?
    ensures Stored(Step(s, ReadSlot)) && s.table[s.head] == Item(s.sent[s.freed])
  {
    assert s.table[s.freed % |s.table|] == Item(s.sent[s.freed]);
  }

  lemma StoredClear<T>(s: State<T>)
    requires Indexed(s) && Stored(s) && s.consumer.Held?
    ensures Stored(Step(s, ClearSlot))
  {
    var s' := Step(s, ClearSlot);
    forall n | Oldest(s') <= n < |s'.sent|
      ensures s'.table[n % |s'.table|] == Item(s'.sent[n])
    {
      Apart(s.freed, n, |s.table|);
      assert s.table[n % |s.table|] == Item(s.sent[n]);
    }
  }

  /** Every step of either thread keeps the invariant. */
  lemma StepKeepsInv<T>(s: State<T>, e: Event<T>)
    requires Inv(s) && Enabled(s, e) && Keeps(s, e)
    ensures Inv(Step(s, e))
  {
    CountedStep(s, e);
    IndexedStep(s, e);
    StoredStep(s, e);
  }

  lemma StoredStep<T>(s: State<T>, e: Event<T>)
    requires Indexed(s) && Stored(s) && Enabled(s, e)
    ensures Stored(Step(s, e))
  {
    match e
    case WriteSlot => StoredWrite(s);
    case ReadSlot => StoredRead(s);
    case ClearSlot => StoredClear(s);
    case _ =>
  }

  /** A schedule both threads can follow. */
  predicate Possible<T(==)>(s: State<T>, schedule: seq<Event<T>>)
    decreases |schedule|
  {
    schedule == [] || (Enabled(s, schedule[0]) && Possible(Step(s, schedule[0]), schedule[1..]))
  }

  function Run<T(==)>(s: State<T>, schedule: seq<Event<T>>): State<T>
    requires Possible(s, schedule)
    decreases |schedule|
  {
    if schedule == [] then s else Run(Step(s, schedule[0]), schedule[1..])
  }

  /** The two changes of `size` never overlap, as if each were one step. */
  predicate AllExclusive<T(==)>(s: State<T>, schedule: seq<Event<T>>)
    requires Possible(s, schedule)
    decreases |schedule|
  {
    schedule == [] || (Exclusive(s, schedule[0]) && AllExclusive(Step(s, schedule[0]), schedule[1..]))
  }

  /** No decrement of `size` is ever overwritten. */
  predicate AllKeep<T(==)>(s: State<T>, schedule: seq<Event<T>>)
    requires Possible(s, schedule)
    decreases |schedule|
  {
    schedule == [] || (Keeps(s, schedule[0]) && AllKeep(Step(s, schedule[0]), schedule[1..]))
  }

  lemma {:induction false} RunKeepsInv<T>(s: State<T>, schedule: seq<Event<T>>)
    requires Inv(s) && Possible(s, schedule) && AllKeep(s, schedule)
    ensures Inv(Run(s, schedule))
    decreases |schedule|
  {
    if schedule != [] {
      StepKeepsInv(s, schedule[0]);
      RunKeepsInv(Step(s, schedule[0]), schedule[1..]);
    }
  }

  /** What was taken is a prefix of what was sent. */
  ghost predicate Safe<T>(s: State<T>) {
    |s.taken| <= |s.sent| && forall n :: 0 <= n < |s.taken| ==> s.taken[n] == Item(s.sent[n])
  }

  /** Both threads are at work on the same slot. */
  predicate Clash<T>(s: State<T>) {
    && (s.producer.Checked? || s.producer.Written?)
    && (s.consumer.Found? || s.consumer.Held? || s.consumer.Cleared?)
    && s.tail == s.head
  }

  /** What was taken is a prefix of what was sent, a slot about to be read was written, and the threads do not clash. */
  ghost predicate Sound<T>(s: State<T>) {
    && Safe(s) && !Clash(s)
    && (s.consumer.Found? ==>
         |s.taken| < |s.sent| && s.head < |s.table| && s.table[s.head] == Item(s.sent[|s.taken|]))
  }

  ghost predicate AllSound<T>(s: State<T>, schedule: seq<Event<T>>)
    requires Possible(s, schedule)
    decreases |schedule|
  {
    Sound(s) && (schedule == [] || AllSound(Step(s, schedule[0]), schedule[1..]))
  }

  predicate AllFind<T(==)>(s: State<T>, schedule: seq<Event<T>>)
    requires Possible(s, schedule)
    decreases |schedule|
  {
    schedule == [] || (Finds(s, schedule[0]) && AllFind(Step(s, schedule[0]), schedule[1..]))
  }

  lemma IndexedSound<T>(s: State<T>)
    requires Indexed(s) && Stored(s)
    ensures Sound(s)
  {
    if s.consumer.Found? {
      StoredRead(s);
    }
    if Between(s) > 0 {
      Apart(s.freed, s.moved, |s.table|);
    }
  }

  /** Going on with an empty queue puts the taking thread before a slot not written, or one being written. */
  lemma NotFound<T>(s: State<T>)
    requires Indexed(s) && Stored(s) && s.consumer.Idle? && s.size != 0 && Between(s) == 0
    ensures !Sound(Step(s, Check))
  {
  }

  lemma {:induction false} SoundIffFinds<T>(s: State<T>, schedule: seq<Event<T>>)
    requires Indexed(s) && Stored(s) && Possible(s, schedule)
    ensures AllSound(s, schedule) <==> AllFind(s, schedule)
    decreases |schedule|
  {
    IndexedSound(s);
    if schedule != [] {
      var e, rest := schedule[0], schedule[1..];
      if Finds(s, e) {
        IndexedStep(s, e);
        StoredStep(s, e);
        SoundIffFinds(Step(s, e), rest);
      } else {
        NotFound(s);
      }
    }
  }

  /**
   For every schedule, however the changes of `size` overlap: all states on the way are sound if and only if every
   check that let the taking thread go on did so when `tail` was ahead of `head`.
   */
  lemma SafeIffFinds<T>(capacity: nat, schedule: seq<Event<T>>)
    requires capacity >= 2 && Possible(Init<T>(capacity), schedule)
    ensures AllSound(Init<T>(capacity), schedule) <==> AllFind(Init<T>(capacity), schedule)
  {
    InitInv<T>(capacity);
    SoundIffFinds(Init<T>(capacity), schedule);
  }

  lemma {:induction false} KeptFinds<T>(s: State<T>, schedule: seq<Event<T>>)
    requires Inv(s) && Possible(s, schedule) && AllKeep(s, schedule)
    ensures AllFind(s, schedule)
    decreases |schedule|
  {
    if schedule != [] {
      StepKeepsInv(s, schedule[0]);
      KeptFinds(Step(s, schedule[0]), schedule[1..]);
    }
  }

  /** That is so in every schedule that overwrites no decrement of `size`; lost increments only leave items untaken. */
  lemma SafeAlways<T>(capacity: nat, schedule: seq<Event<T>>)
    requires capacity >= 2 && Possible(Init<T>(capacity), schedule) && AllKeep(Init<T>(capacity), schedule)
    ensures AllSound(Init<T>(capacity), schedule)
    ensures var s := Run(Init<T>(capacity), schedule);
      Sound(s) && (s.producer.Posting? && s.consumer.Idle? ==> 0 <= s.size <= |s.sent| - |s.taken| < capacity)
  {
    InitInv<T>(capacity);
    KeptFinds(Init<T>(capacity), schedule);
    SafeIffFinds<T>(capacity, schedule);
    RunKeepsInv(Init<T>(capacity), schedule);
    RunKeepsTable(Init<T>(capacity), schedule);
    IndexedSound(Run(Init<T>(capacity), schedule));
  }

  /** A change of `size` is under way that will overwrite another, or be overwritten. */
  predicate Overlapping<T>(s: State<T>) {
    || (s.producer.Counting? && (s.consumer.Discounting? || s.producer.seen != s.size))
    || (s.consumer.Discounting? && s.consumer.seen != s.size)
  }

  /** An overlap lasts until an increment is lost, and only an overlap loses one. */
  lemma OverlapStep<T>(s: State<T>, e: Event<T>)
    requires Counted(s) && Enabled(s, e) && Keeps(s, e)
    ensures var s' := Step(s, e);
      Slack(s') == Slack(s) && !Overlapping(s') <==> !Overlapping(s) && Exclusive(s, e)
  {
  }

  lemma {:induction false} OverlapRun<T>(s: State<T>, schedule: seq<Event<T>>)
    requires Counted(s) && Possible(s, schedule) && AllKeep(s, schedule)
    ensures Slack(Run(s, schedule)) >= Slack(s)
    ensures Slack(Run(s, schedule)) == Slack(s) && !Overlapping(Run(s, schedule))
      <==> !Overlapping(s) && AllExclusive(s, schedule)
    decreases |schedule|
  {
    if schedule != [] {
      var next := Step(s, schedule[0]);
      CountedStep(s, schedule[0]);
      OverlapStep(s, schedule[0]);
      OverlapRun(next, schedule[1..]);
    }
  }

  /** Over whole runs that end with both threads at rest, `size` is exact if and only if no two changes overlapped. */
  lemma CountRightIffExclusive<T>(capacity: nat, schedule: seq<Event<T>>)
    requires capacity >= 2 && Possible(Init<T>(capacity), schedule) && AllKeep(Init<T>(capacity), schedule)
    requires var s := Run(Init<T>(capacity), schedule); s.producer.Posting? && s.consumer.Idle?
    ensures var s := Run(Init<T>(capacity), schedule);
      s.size == |s.sent| - |s.taken| <==> AllExclusive(Init<T>(capacity), schedule)
  {
    InitInv<T>(capacity);
    RunKeepsInv(Init<T>(capacity), schedule);
    OverlapRun(Init<T>(capacity), schedule);
  }

  lemma {:induction false} RunKeepsTable<T>(s: State<T>, schedule: seq<Event<T>>)
    requires Possible(s, schedule)
    ensures |Run(s, schedule).table| == |s.table|
    decreases |schedule|
  {
    if schedule != [] {
      RunKeepsTable(Step(s, schedule[0]), schedule[1..]);
    }
  }

  /** One more step at the end of a schedule. */
  lemma {:induction false} Then<T>(start: State<T>, schedule: seq<Event<T>>, e: Event<T>)
    requires Possible(start, schedule) && Enabled(Run(start, schedule), e)
    ensures Possible(start, schedule + [e]) && Run(start, schedule + [e]) == Step(Run(start, schedule), e)
    ensures AllKeep(start, schedule + [e]) <==> AllKeep(start, schedule) && Keeps(Run(start, schedule), e)
    decreases |schedule|
  {
    var longer := schedule + [e];
    if schedule == [] {
      assert longer[1..] == [];
    } else {
      Then(Step(start, schedule[0]), schedule[1..], e);
      assert longer[1..] == schedule[1..] + [e];
    }
  }

  /** Overlapping changes of `size` can make the taking thread read a slot that nothing was written to. */
  lemma LostUpdate() returns (schedule: seq<Event<int>>)
    ensures Possible(Init<int>(2), schedule)
    ensures var s := Run(Init<int>(2), schedule); s.sent == [1, 2] && s.taken == [Item(1), Item(2), Null]
  {
    schedule := [];
    schedule := PushOf(schedule, 1);
    schedule := Both(schedule, LoadToAdd, StoreAdded);
    schedule := PopOf(schedule);
    schedule := PushOf(schedule, 2);
    schedule := Both(schedule, LoadToAdd, LoadToSubtract);
    schedule := Both(schedule, StoreSubtracted, StoreAdded);
    schedule := PopOf(schedule);
    schedule := Both(schedule, LoadToSubtract, StoreSubtracted);
    schedule := PopOf(schedule);
  }

  lemma Both(before: seq<Event<int>>, e: Event<int>, e': Event<int>) returns (schedule: seq<Event<int>>)
    requires Possible(Init<int>(2), before)
    requires Enabled(Run(Init<int>(2), before), e) && Enabled(Step(Run(Init<int>(2), before), e), e')
    ensures Possible(Init<int>(2), schedule)
    ensures Run(Init<int>(2), schedule) == Step(Step(Run(Init<int>(2), before), e), e')
  {
    Then(Init<int>(2), before, e);
    Then(Init<int>(2), before + [e], e');
    schedule := before + [e] + [e'];
  }

  /** A whole push up to the change of `size`. */
  lemma PushOf(before: seq<Event<int>>, item: int) returns (schedule: seq<Event<int>>)
    requires Possible(Init<int>(2), before)
    requires var s := Run(Init<int>(2), before);
      s.producer == Posting && |s.table| == 2 && s.head < 2 && s.tail < 2 && s.head != Next(s.tail, 2)
    ensures Possible(Init<int>(2), schedule)
    ensures var s := Run(Init<int>(2), before);
      Run(Init<int>(2), schedule) == s.(table := s.table[s.tail := Item(item)], tail := Next(s.tail, 2),
        moved := s.moved + 1, sent := s.sent + [item], producer := Moved)
  {
    schedule := Both(before, Push(item), WriteSlot);
    Then(Init<int>(2), schedule, AdvanceTail);
    schedule := schedule + [AdvanceTail];
  }

  /** A whole pop up to the change of `size`. */
  lemma PopOf(before: seq<Event<int>>) returns (schedule: seq<Event<int>>)
    requires Possible(Init<int>(2), before)
    requires var s := Run(Init<int>(2), before);
      s.consumer == Idle && s.size != 0 && |s.table| == 2 && s.head < 2 && s.tail < 2
    ensures Possible(Init<int>(2), schedule)
    ensures var s := Run(Init<int>(2), before);
      Run(Init<int>(2), schedule) == s.(table := s.table[s.head := Null], head := Next(s.head, 2),
        freed := s.freed + 1, taken := s.taken + [s.table[s.head]], consumer := Left)
  {
    schedule := Both(before, Check, ReadSlot);
    schedule := Both(schedule, ClearSlot, AdvanceHead);
  }

  /** Neither thread is in the middle of anything. */
  ghost predicate AtRest<T>(s: State<T>) {
    Inv(s) && s.producer.Posting? && s.consumer.Idle?
  }

  /** The items in the queue. */
  function Waiting<T>(s: State<T>): seq<T> {
    if |s.taken| <= |s.sent| then s.sent[|s.taken|..] else []
  }

  /** Some steps of one thread while the other rests. */
  lemma Alone<T>(s: State<T>, schedule: seq<Event<T>>, e: Event<T>) returns (longer: seq<Event<T>>)
    requires Possible(s, schedule) && AllKeep(s, schedule)
    requires Enabled(Run(s, schedule), e) && Keeps(Run(s, schedule), e)
    ensures Possible(s, longer) && AllKeep(s, longer) && Run(s, longer) == Step(Run(s, schedule), e)
  {
    Then(s, schedule, e);
    longer := schedule + [e];
  }

  /** A push that nothing interrupts is `queue_push_fixed`: it appends, or refuses just when one slot is unused. */
  lemma WholePush<T>(s: State<T>, item: T) returns (schedule: seq<Event<T>>)
    requires AtRest(s)
    ensures Possible(s, schedule) && AllKeep(s, schedule)
    ensures var s' := Run(s, schedule);
      && AtRest(s') && Slack(s') == Slack(s)
      && Waiting(s') == if |Waiting(s)| == |s.table| - 1 then Waiting(s) else Waiting(s) + [item]
  {
    NotFull(s);
    schedule := Alone(s, [], Push(item));
    if |Waiting(s)| < |s.table| - 1 {
      schedule := Alone(s, schedule, WriteSlot);
      schedule := Alone(s, schedule, AdvanceTail);
      schedule := Alone(s, schedule, LoadToAdd);
      schedule := Alone(s, schedule, StoreAdded);
    }
    RunKeepsInv(s, schedule);
  }

  /** The six steps of a pop that finds something. */
  function Popped<T(==)>(s: State<T>): State<T>
    requires s.head < |s.table| && s.consumer.Idle?
  {
    s.(table := s.table[s.head := Null], head := Next(s.head, |s.table|), size := s.size - 1,
       taken := s.taken + [s.table[s.head]], freed := s.freed + 1)
  }

  lemma PopSteps<T>(s: State<T>) returns (schedule: seq<Event<T>>)
    requires s.head < |s.table| && s.tail < |s.table| && s.consumer.Idle? && s.size != 0
    ensures Possible(s, schedule) && AllKeep(s, schedule) && Run(s, schedule) == Popped(s)
  {
    schedule := Alone(s, [], Check);
    schedule := Alone(s, schedule, ReadSlot);
    schedule := Alone(s, schedule, ClearSlot);
    schedule := Alone(s, schedule, AdvanceHead);
    schedule := Alone(s, schedule, LoadToSubtract);
    schedule := Alone(s, schedule, StoreSubtracted);
  }

  /** A pop that nothing interrupts is `queue_pop`: it takes the oldest item, or nothing if `size` says so. */
  lemma WholePop<T>(s: State<T>) returns (schedule: seq<Event<T>>)
    requires AtRest(s)
    ensures Possible(s, schedule) && AllKeep(s, schedule)
    ensures var s' := Run(s, schedule);
      if s.size == 0 then s' == s else
        && AtRest(s') && Slack(s') == Slack(s)
        && Waiting(s) != [] && Waiting(s') == Waiting(s)[1..] && s'.taken == s.taken + [Item(Waiting(s)[0])]
  {
    if s.size == 0 {
      schedule := Alone(s, [], Check);
    } else {
      schedule := PopSteps(s);
      StoredRead(Step(s, Check));
      RunKeepsInv(s, schedule);
    }
  }

  /** Neither thread is in the middle of anything, whatever `size` may be. */
  ghost predicate Quiet<T>(s: State<T>) {
    Indexed(s) && Stored(s) && s.producer.Posting? && s.consumer.Idle?
  }

  lemma PoppedQuiet<T>(s: State<T>)
    requires Quiet(s) && Waiting(s) != []
    ensures Quiet(Popped(s)) && Waiting(Popped(s)) == Waiting(s)[1..]
  {
    var t := s.(size := 1);
    var t1 := Step(t, Check);
    var t2 := Step(t1, ReadSlot);
    var t3 := Step(t2, ClearSlot);
    IndexedStep(t, Check);
    IndexedStep(t1, ReadSlot);
    IndexedStep(t2, ClearSlot);
    IndexedStep(t3, AdvanceHead);
    StoredRead(t1);
    StoredClear(t2);
  }

  lemma {:induction false} Together<T>(s: State<T>, first: seq<Event<T>>, rest: seq<Event<T>>)
    requires Possible(s, first) && AllKeep(s, first)
    requires Possible(Run(s, first), rest) && AllKeep(Run(s, first), rest)
    ensures Possible(s, first + rest) && AllKeep(s, first + rest)
    ensures Run(s, first + rest) == Run(Run(s, first), rest)
    decreases |first|
  {
    if first == [] {
      assert first + rest == rest;
    } else {
      Together(Step(s, first[0]), first[1..], rest);
      assert (first + rest)[1..] == first[1..] + rest;
    }
  }

  /** If `size` is wrong in any other way than falling behind, popping goes on after the last item was taken. */
  lemma {:induction false} OverRead<T>(s: State<T>) returns (schedule: seq<Event<T>>)
    requires Quiet(s) && (s.size < 0 || s.size > |Waiting(s)|)
    ensures Possible(s, schedule) && AllKeep(s, schedule) && !Safe(Run(s, schedule))
    decreases |Waiting(s)|
  {
    schedule := PopSteps(s);
    if Waiting(s) != [] {
      PoppedQuiet(s);
      var rest := OverRead(Popped(s));
      Together(s, schedule, rest);
      schedule := schedule + rest;
    }
  }

  /** With both threads at rest, what follows is safe if and only if `size` does not run ahead of the items. */
  lemma SafeIffNotAhead<T(!new)>(s: State<T>)
    requires Quiet(s)
    ensures 0 <= s.size <= |Waiting(s)| <==>
      forall schedule :: Possible(s, schedule) && AllKeep(s, schedule) ==> Safe(Run(s, schedule))
  {
    if 0 <= s.size <= |Waiting(s)| {
      forall schedule | Possible(s, schedule) && AllKeep(s, schedule)
        ensures Safe(Run(s, schedule))
      {
        RunKeepsInv(s, schedule);
      }
    } else {
      var schedule := OverRead(s);
    }
  }

  /** The items of the pushes that the full test let pass, in order. */
  function Accepted<T(==)>(s: State<T>, schedule: seq<Event<T>>): seq<T>
    requires Possible(s, schedule)
    decreases |schedule|
  {
    if schedule == [] then []
    else
      var e := schedule[0];
      (if e.Push? && Step(s, e).producer.Checked? then [e.item] else []) + Accepted(Step(s, e), schedule[1..])
  }

  /** The item accepted and not yet written. */
  function Pending<T>(s: State<T>): seq<T> {
    if s.producer.Checked? then [s.producer.item] else []
  }

  /** What was sent are the accepted items, but perhaps for one that is still to be written. */
  lemma {:induction false} SentIsAccepted<T>(s: State<T>, schedule: seq<Event<T>>)
    requires Possible(s, schedule)
    ensures var last := Run(s, schedule); last.sent + Pending(last) == s.sent + Pending(s) + Accepted(s, schedule)
    decreases |schedule|
  {
    if schedule != [] {
      SentIsAccepted(Step(s, schedule[0]), schedule[1..]);
    }
  }
}
