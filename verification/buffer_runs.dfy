/** Whole runs of the buffer, compared with a plain queue of segments. */
module RingRuns {
  import opened Bytes
  import opened GapRing

  /**
   `Reserve` is `buffer_rectify`, `Fill` a copy and `seek_write`, `Write` is `buffer_write`, and `Consume` a
   whole-segment `buffer_read`.
   */
  datatype Op = Reserve(need: nat) | Fill(bytes: Segment) | Write(bytes: Segment) | Consume(length: nat)

  /** A queue with no memory layout at all. */
  datatype Fifo = Fifo(segments: seq<Segment>, open: Segment, room: nat)

  /** What the buffer demands of its callers: one segment at a time, within its reservation, and whole reads. */
  predicate Allowed(f: Fifo, op: Op) {
    match op
    case Reserve(need) => need > 0 && f.open == []
    case Fill(bytes) => f.room > 0 && |bytes| <= f.room
    case Write(_) => f.open == []
    case Consume(length) => f.segments != [] && length == |f.segments[0]|
  }

  function Step(f: Fifo, op: Op): Fifo
    requires Allowed(f, op)
  {
    match op
    case Reserve(need) => Fifo(f.segments, [], need)
    case Fill(bytes) =>
      if |bytes| == f.room then Fifo(f.segments + [f.open + bytes], [], 0)
      else Fifo(f.segments, f.open + bytes, f.room - |bytes|)
    case Write(bytes) => Fifo(f.segments + [bytes], [], 0)
    case Consume(_) => f.(segments := f.segments[1..])
  }

  predicate AllAllowed(f: Fifo, ops: seq<Op>)
    decreases |ops|
  {
    ops == [] || (Allowed(f, ops[0]) && AllAllowed(Step(f, ops[0]), ops[1..]))
  }

  /** What the consumer of the plain queue sees. */
  function Outputs(f: Fifo, ops: seq<Op>): seq<Segment>
    requires AllAllowed(f, ops)
    decreases |ops|
  {
    if ops == [] then []
    else Out(f, ops[0]) + Outputs(Step(f, ops[0]), ops[1..])
  }

  function Last(f: Fifo, ops: seq<Op>): Fifo
    requires AllAllowed(f, ops)
    decreases |ops|
  {
    if ops == [] then f else Last(Step(f, ops[0]), ops[1..])
  }

  ghost function Abstract(b: Buffer): Fifo
    reads b
  {
    Fifo(b.Contents(), b.q.open, b.q.room)
  }

  method Apply(b: Buffer, op: Op) returns (out: seq<Segment>)
    requires b.Valid() && Allowed(Abstract(b), op)
    modifies b, b.buf
    ensures b.Valid() && (b.buf == old(b.buf) || fresh(b.buf))
    ensures Abstract(b) == Step(old(Abstract(b)), op)
    ensures out == old(Out(Abstract(b), op))
  {
    out := [];
    match op
    case Reserve(need) =>
      var _ := b.Rectify(need);
    case Fill(bytes) =>
      b.Fill(bytes);
    case Write(bytes) =>
      var _ := b.Write(bytes);
    case Consume(length) =>
      var ptr := b.Read(length, true);
      out := [b.buf[ptr..ptr + length]];
  }

  /**
   Over every run the buffer behaves as the plain queue: each read returns the oldest unread segment byte for
   byte, whatever wraps, resets and growth the writes in between have caused, and a reservation stays usable
   across reads.
   */
  method Run(b: Buffer, ops: seq<Op>) returns (out: seq<Segment>)
    requires b.Valid() && AllAllowed(Abstract(b), ops)
    modifies b, b.buf
    ensures b.Valid() && Abstract(b) == Last(old(Abstract(b)), ops)
    ensures out == Outputs(old(Abstract(b)), ops)
  {
    out := [];
    ghost var start := Abstract(b);
    for i := 0 to |ops|
      invariant b.Valid() && (b.buf == old(b.buf) || fresh(b.buf))
      invariant AllAllowed(Abstract(b), ops[i..])
      invariant Last(start, ops) == Last(Abstract(b), ops[i..])
      invariant Outputs(start, ops) == out + Outputs(Abstract(b), ops[i..])
    {
      assert ops[i..][1..] == ops[i + 1..];
      var one := Apply(b, ops[i]);
      out := out + one;
    }
  }

  /** All bytes a queue holds, oldest first. */
  function Held(f: Fifo): Segment {
    Flatten(f.segments) + f.open
  }

  function In(op: Op): Segment {
    if op.Fill? || op.Write? then op.bytes else []
  }

  function Out(f: Fifo, op: Op): seq<Segment>
    requires Allowed(f, op)
  {
    if op.Consume? then [f.segments[0]] else []
  }

  lemma StepKeeps(f: Fifo, op: Op)
    requires Allowed(f, op)
    ensures Flatten(Out(f, op)) + Held(Step(f, op)) == Held(f) + In(op)
  {
    if op.Fill? {
      FlattenAppend(f.segments, [f.open + op.bytes]);
      FlattenOne(f.open + op.bytes);
    } else if op.Write? {
      FlattenAppend(f.segments, [op.bytes]);
      FlattenOne(op.bytes);
    } else if op.Consume? {
      FlattenOne(f.segments[0]);
    }
  }

  /** The bytes written in the course of a run. */
  function Written(ops: seq<Op>): Segment {
    if ops == [] then [] else In(ops[0]) + Written(ops[1..])
  }

  /** Bytes come out in the order they went in, and none is lost, doubled or made up on the way. */
  lemma {:induction false} NothingLost(f: Fifo, ops: seq<Op>)
    requires AllAllowed(f, ops)
    ensures Flatten(Outputs(f, ops)) + Held(Last(f, ops)) == Held(f) + Written(ops)
    decreases |ops|
  {
    if ops != [] {
      var next, rest := Step(f, ops[0]), ops[1..];
      NothingLost(next, rest);
      StepKeeps(f, ops[0]);
      FlattenAppend(Out(f, ops[0]), Outputs(next, rest));
      Chain(Flatten(Out(f, ops[0])), Flatten(Outputs(next, rest)), Held(Last(f, ops)),
            Held(next), Written(rest), Held(f), In(ops[0]));
    }
  }

  /** The bytes of the first step and those of the others, put together. */
  lemma Chain(out: Segment, outs: Segment, last: Segment, next: Segment, ins: Segment, first: Segment, into: Segment)
    requires out + next == first + into && outs + last == next + ins
    ensures out + outs + last == first + (into + ins)
  {
    assert out + outs + last == out + (outs + last);
    assert out + (next + ins) == out + next + ins;
    assert first + into + ins == first + (into + ins);
  }
}
