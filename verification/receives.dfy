/**
 What a socket gives: the kernel's side of `recv`, `circle_recv`, and how much one `circle_recv` and one `tcp_read` get
 (epollet/epollet.c).
 */
module Receives {
  import opened Bytes
  import opened Folding
  import opened GapRing
  import opened Frames

  /** What successive calls of `recv` do; `Available(n)` has at most `n` bytes ready. */
  datatype Event = Available(n: nat) | Interrupted | WouldBlock | Failed

  datatype Recv = Got(bytes: Segment) | Eintr | Eagain | Error

  /** The kernel's side: the bytes still to come and the outcomes of the calls that will ask for them. */
  class Socket {
    var stream: Segment
    var events: seq<Event>

    constructor (stream: Segment, events: seq<Event>)
      ensures this.stream == stream && this.events == events
    {
      this.stream, this.events := stream, events;
    }

    method Recv(len: nat) returns (r: Recv)
      modifies this
      ensures r.Got? ==> r.bytes + stream == old(stream)
      ensures !r.Got? ==> stream == old(stream)
      ensures events == if old(events) == [] then [] else old(events)[1..]
      ensures if old(events) == [] then r == Eagain else
        match old(events)[0]
        case Available(n) => r.Got? && |r.bytes| == Min(n, Min(len, |old(stream)|))
        case Interrupted => r == Eintr
        case WouldBlock => r == Eagain
        case Failed => r == Error
    {
      if events == [] { return Eagain; }
      var e := events[0];
      events := events[1..];
      match e
      case Available(n) =>
        var k := Min(n, Min(len, |stream|));
        r := Got(stream[..k]);
        stream := stream[k..];
      case Interrupted => r := Eintr;
      case WouldBlock => r := Eagain;
      case Failed => r := Error;
    }
  }

  datatype Received = Received(n: nat) | NetError

  function Min(x: nat, y: nat): nat { if x < y then x else y }

  /** How much arrives, which events are left, and whether an error ended it. */
  datatype Outcome = Outcome(n: nat, events: seq<Event>, failed: bool)

  /** What asking for `len` bytes comes to: go on until they have come, nothing is ready, or an error. */
  function Drain(events: seq<Event>, available: nat, len: nat): (o: Outcome)
    ensures o.n <= len && o.n <= available && |o.events| <= |events|
    ensures o.n > 0 ==> |o.events| < |events|
    decreases |events|
  {
    if len == 0 || events == [] then Outcome(0, events, false)
    else
      match events[0]
      case Interrupted => Drain(events[1..], available, len)
      case WouldBlock => Outcome(0, events[1..], false)
      case Failed => Outcome(0, events[1..], true)
      case Available(n) =>
        var k := Min(n, Min(len, available));
        if k == 0 then Outcome(0, events[1..], false)
        else
          var o := Drain(events[1..], available - k, len - k);
          o.(n := k + o.n)
  }

  ghost predicate Drains(events: seq<Event>, available: nat, len: nat, o: Outcome) {
    forall i {:trigger Unfold(Draining, i)} :: Unfold(Draining, i) ==> o == Drain(events, available, len)
  }

  /** Outcomes with which a receive has no reason to stop short: no error, and never empty hands. */
  predicate Eager(events: seq<Event>) {
    forall e :: e in events ==> e == Interrupted || (e.Available? && e.n > 0)
  }

  /** A receive then stops only when it has all it asked for, or all there is, or was never called again. */
  lemma {:induction false} EagerDrain(events: seq<Event>, available: nat, len: nat)
    requires Eager(events)
    ensures var o := Drain(events, available, len);
      !o.failed && Eager(o.events) && (o.n == Min(len, available) || o.events == [])
    decreases |events|
  {
    if len > 0 && events != [] {
      assert events[0] in events;
      match events[0]
      case Interrupted => EagerDrain(events[1..], available, len);
      case Available(n) =>
        var k := Min(n, Min(len, available));
        if k > 0 { EagerDrain(events[1..], available - k, len - k); }
    }
  }

  /** How many bytes some outcomes bring if nothing limits them. */
  function Brought(events: seq<Event>): nat {
    if events == [] then 0 else (if events[0].Available? then events[0].n else 0) + Brought(events[1..])
  }

  lemma {:induction false} DrainBrings(events: seq<Event>, available: nat, len: nat)
    requires Eager(events) && Brought(events) < Min(len, available)
    ensures Drain(events, available, len).n == Brought(events)
    decreases |events|
  {
    if events != [] {
      assert events[0] in events;
      var k := if events[0].Available? then events[0].n else 0;
      DrainBrings(events[1..], available - k, len - k);
    }
  }

  /** A receive goes on up to outcome `i`: the ones before are no errors and bring some bytes, but not all. */
  ghost predicate Reached(events: seq<Event>, i: nat, available: nat, len: nat) {
    i < |events| && Eager(events[..i]) && Brought(events[..i]) < Min(len, available)
  }

  /** Outcomes that bring fewer bytes than are asked for and available are gone through, and the bytes add up. */
  lemma DrainThrough(pre: seq<Event>, rest: seq<Event>, available: nat, len: nat)
    requires Eager(pre) && Brought(pre) < Min(len, available)
    ensures var k := Brought(pre);
      var o := Drain(rest, available - k, len - k);
      Drain(pre + rest, available, len) == Outcome(k + o.n, o.events, o.failed)
  {
    DrainBrings(pre, available, len);
    var o, r := DrainsOn(pre, rest, available, len);
    DrainsIs(pre, available, len, o);
    DrainsIs(rest, available - o.n, len - o.n, r);
    DrainsIs(pre + rest, available, len, Outcome(o.n + r.n, r.events, r.failed));
  }

  /**
   The first outcome `e` that brings nothing ends a receive with the bytes that came before: as an error if it is one,
   quietly if there was nothing to get; and so does an outcome that brings the last of the bytes asked for.
   */
  lemma DrainUntil(events: seq<Event>, i: nat, available: nat, len: nat)
    requires Reached(events, i, available, len)
    ensures var k, o := Brought(events[..i]), Drain(events, available, len);
      && (events[i] == Failed ==> o == Outcome(k, events[i + 1..], true))
      && (events[i] == WouldBlock || events[i] == Available(0) ==> o == Outcome(k, events[i + 1..], false))
      && (events[i].Available? && len <= available && k + events[i].n >= len ==>
           o == Outcome(len, events[i + 1..], false))
  {
    DrainThrough(events[..i], events[i..], available, len);
    assert events == events[..i] + events[i..] && events[i..][1..] == events[i + 1..];
  }

  /** With no further outcome nothing more is got. */
  lemma DrainShort(events: seq<Event>, available: nat, len: nat)
    requires Eager(events) && Brought(events) < Min(len, available)
    ensures Drain(events, available, len) == Outcome(Brought(events), [], false)
  {
    DrainThrough(events, [], available, len);
    assert events + [] == events;
  }

  lemma DrainsUntil(events: seq<Event>, available: nat, len: nat, o: Outcome)
    requires Drains(events, available, len, o)
    ensures forall i: nat :: Reached(events, i, available, len) ==>
      && (events[i] == Failed ==> o == Outcome(Brought(events[..i]), events[i + 1..], true))
      && (events[i] == WouldBlock || events[i] == Available(0) ==>
           o == Outcome(Brought(events[..i]), events[i + 1..], false))
  {
    assert Unfold(Draining, 0);
    forall i: nat | Reached(events, i, available, len)
      ensures events[i] == Failed ==> o == Outcome(Brought(events[..i]), events[i + 1..], true)
      ensures events[i] == WouldBlock || events[i] == Available(0) ==>
        o == Outcome(Brought(events[..i]), events[i + 1..], false)
    {
      DrainUntil(events, i, available, len);
    }
  }

  /** The kernel always has something for a receive, and goes on having it for more than `available` of them. */
  predicate Plenty(events: seq<Event>, available: nat) {
    |events| > available && forall e :: e in events ==> e.Available? && e.n > 0
  }

  /** A receive then gets all it asked for, or all there is. */
  lemma {:induction false} PlentyDrain(events: seq<Event>, available: nat, len: nat)
    requires Plenty(events, available)
    ensures var o := Drain(events, available, len);
      && !o.failed && o.n == Min(len, available)
      && (o.n == len ==> Plenty(o.events, available - o.n))
    decreases |events|
  {
    if len > 0 {
      assert events[0] in events;
      var k := Min(events[0].n, Min(len, available));
      if k > 0 { PlentyDrain(events[1..], available - k, len - k); }
    }
  }

  lemma PlentyDrains(events: seq<Event>, available: nat, len: nat, o: Outcome)
    requires Plenty(events, available) && Drains(events, available, len, o)
    ensures !o.failed && o.n == Min(len, available)
    ensures o.n == len ==> Plenty(o.events, available - o.n)
  {
    assert Unfold(Draining, 0);
    PlentyDrain(events, available, len);
  }

  lemma DrainsShrink(events: seq<Event>, available: nat, len: nat, o: Outcome)
    requires Drains(events, available, len, o)
    ensures o.n > 0 ==> |o.events| < |events|
  {
    assert Unfold(Draining, 0);
  }

  /** What the first outcome of a receive leaves to the others. */
  lemma DrainsFirst(e: Event, later: seq<Event>, available: nat, len: nat, k: nat, o: Outcome)
    requires 0 < len && k <= len && k <= available && Drains(later, available - k, len - k, o)
    requires (e == Interrupted && k == 0) || (e.Available? && k == Min(e.n, Min(len, available)) > 0)
    ensures o.n <= len - k && o.n <= available - k && Drains([e] + later, available, len, o.(n := k + o.n))
  {
    assert Unfold(Draining, 0);
    assert ([e] + later)[1..] == later;
  }

  lemma DrainsOf(events: seq<Event>, available: nat, len: nat) returns (o: Outcome)
    ensures o == Drain(events, available, len) && Drains(events, available, len, o)
  {
    o := Drain(events, available, len);
  }

  lemma DrainsBounds(events: seq<Event>, available: nat, len: nat, o: Outcome)
    requires Drains(events, available, len, o)
    ensures o.n <= len && o.n <= available
  {
    assert Unfold(Draining, 0);
  }

  lemma DrainsIs(events: seq<Event>, available: nat, len: nat, o: Outcome)
    requires Drains(events, available, len, o)
    ensures o == Drain(events, available, len)
  {
    assert Unfold(Draining, 0);
  }

  lemma DrainsOnNothing(pre: seq<Event>, rest: seq<Event>, available: nat, len: nat) returns (o: Outcome, r: Outcome)
    requires Eager(pre) && (pre == [] || len == 0 || available == 0)
    ensures Drains(pre, available, len, o) && o.n == 0 && !o.failed
    ensures 0 < len && 0 < available ==>
      o.events == [] && Drains(rest, available, len, r) && Drains(pre + rest, available, len, r)
    ensures len == 0 ==> Drains(pre + rest, available, len, o.(events := o.events + rest))
  {
    EagerDrain(pre, available, len);
    o := DrainsOf(pre, available, len);
    r := DrainsOf(pre + rest, available, len);
    assert pre == [] ==> pre + rest == rest;
  }

  /** Outcomes that neither fail nor come with empty hands are gone through; what follows decides the rest. */
  lemma {:induction false} DrainsOn(pre: seq<Event>, rest: seq<Event>, available: nat, len: nat)
    returns (o: Outcome, r: Outcome)
    requires Eager(pre)
    ensures Drains(pre, available, len, o) && o.n <= len && o.n <= available && !o.failed
    ensures o.n < len && o.n < available ==>
      && o.events == [] && Drains(rest, available - o.n, len - o.n, r)
      && Drains(pre + rest, available, len, Outcome(o.n + r.n, r.events, r.failed))
    ensures o.n == len ==> Drains(pre + rest, available, len, o.(events := o.events + rest))
    decreases |pre|
  {
    if pre == [] || len == 0 || available == 0 {
      o, r := DrainsOnNothing(pre, rest, available, len);
    } else {
      assert pre[0] in pre;
      var k := if pre[0] == Interrupted then 0 else Min(pre[0].n, Min(len, available));
      o, r := DrainsOn(pre[1..], rest, available - k, len - k);
      DrainsOnFirst(pre, rest, available, len, k, o, r);
      o := o.(n := k + o.n);
    }
  }

  lemma DrainsOnFirst(pre: seq<Event>, rest: seq<Event>, available: nat, len: nat, k: nat, o: Outcome, r: Outcome)
    requires pre != [] && 0 < len && k <= len && k <= available
    requires (pre[0] == Interrupted && k == 0) || (pre[0].Available? && k == Min(pre[0].n, Min(len, available)) > 0)
    requires Drains(pre[1..], available - k, len - k, o) && !o.failed
    requires o.n < len - k && o.n < available - k ==>
      Drains(pre[1..] + rest, available - k, len - k, Outcome(o.n + r.n, r.events, r.failed))
    requires o.n == len - k ==> Drains(pre[1..] + rest, available - k, len - k, o.(events := o.events + rest))
    ensures Drains(pre, available, len, o.(n := k + o.n))
    ensures o.n < len - k && o.n < available - k ==>
      Drains(pre + rest, available, len, Outcome(k + o.n + r.n, r.events, r.failed))
    ensures o.n == len - k ==> Drains(pre + rest, available, len, Outcome(len, o.events + rest, false))
  {
    var e, later := pre[0], pre[1..];
    assert pre == [e] + later && pre + rest == [e] + (later + rest);
    DrainsFirst(e, later, available, len, k, o);
    if o.n == len - k {
      DrainsFirst(e, later + rest, available, len, k, o.(events := o.events + rest));
    } else if o.n < available - k {
      DrainsFirst(e, later + rest, available, len, k, Outcome(o.n + r.n, r.events, r.failed));
    }
  }

  lemma EagerRest(events: seq<Event>, available: nat, len: nat, o: Outcome)
    requires Eager(events) && Drains(events, available, len, o)
    ensures Eager(o.events)
  {
    assert Unfold(Draining, 0);
    EagerDrain(events, available, len);
  }

  /** How a turn of the loop in `circle_recv` ends. */
  datatype Turn = Again | Stop | Fail

  /** What a turn comes to, and how many bytes it gets. */
  function TurnOf(events: seq<Event>, available: nat, len: nat): (Turn, nat) {
    if events == [] then (Stop, 0)
    else
      match events[0]
      case Interrupted => (Again, 0)
      case WouldBlock => (Stop, 0)
      case Failed => (Fail, 0)
      case Available(n) =>
        var k := Min(n, Min(len, available));
        (if k == 0 then Stop else Again, k)
  }

  /** After some turns, the last of which was `turn`: what has come and what is still to come make up `o`. */
  ghost predicate ToCome(o: Outcome, turn: Turn, received: nat, events: seq<Event>, available: nat, len: nat) {
    forall i {:trigger Unfold(Draining, i)} :: Unfold(Draining, i) ==>
      && received <= len
      && if turn == Again then
           var rest := Drain(events, available, len - received);
           o == Outcome(received + rest.n, rest.events, rest.failed)
         else o == Outcome(received, events, turn == Fail)
  }

  lemma AllToCome(events: seq<Event>, available: nat, len: nat) returns (o: Outcome)
    ensures Drains(events, available, len, o) && ToCome(o, Again, 0, events, available, len)
  {
    o := Drain(events, available, len);
  }

  lemma ToComeStep(o: Outcome, received: nat, events: seq<Event>, available: nat, len: nat)
    requires ToCome(o, Again, received, events, available, len) && received < len
    ensures var (t, k) := TurnOf(events, available, len - received);
      && received + k <= len && k <= available && (t == Again ==> events != [])
      && ToCome(o, t, received + k, if events == [] then [] else events[1..], available - k, len)
  {
    assert Unfold(Draining, 0);
  }

  lemma AllCame(o: Outcome, turn: Turn, received: nat, events: seq<Event>, available: nat, len: nat)
    requires ToCome(o, turn, received, events, available, len) && (turn != Again || received >= len)
    ensures received == o.n <= len && events == o.events && o.failed == (turn == Fail)
  {
    assert Unfold(Draining, 0);
  }

  /** The bytes `got` so far of the `len` that room is reserved for. */
  ghost predicate Filling(b: Buffer, got: Segment, len: nat)
    reads b, b.buf
  {
    forall i {:trigger Unfold(Receiving, i)} :: Unfold(Receiving, i) ==>
      b.Valid() && |got| <= len <= b.q.room && b.HoldsAtWrite(got)
  }

  lemma Filled(b: Buffer, got: Segment, len: nat)
    requires Filling(b, got, len)
    ensures b.Valid() && |got| <= len <= b.q.room && b.HoldsAtWrite(got)
  {
    assert Unfold(Receiving, 0);
  }

  method RecvOnce(sock: Socket, b: Buffer, len: nat, received: nat, ghost got: Segment, ghost was: seq<Byte>)
    returns (t: Turn, received': nat, ghost got': Segment)
    requires Filling(b, got, len) && |got| == received < len && b.KeptBeyond(was)
    modifies sock, b.buf
    ensures Filling(b, got', len) && |got'| == received'
    ensures got' + sock.stream == got + old(sock.stream) && b.KeptBeyond(was)
    ensures sock.events == if old(sock.events) == [] then [] else old(sock.events)[1..]
    ensures received <= received' && |sock.stream| == |old(sock.stream)| - (received' - received)
    ensures (t, received' - received) == old(TurnOf(sock.events, |sock.stream|, len - received))
  {
    Filled(b, got, len);
    var actual := sock.Recv(len - received);
    match actual
    case Eintr => return Again, received, got;
    case Eagain => return Stop, received, got;
    case Error => return Fail, received, got;
    case Got(bytes) =>
      if bytes == [] { return Stop, received, got; }
      b.StoreNext(received, got, bytes, was);
      return Again, received + |bytes|, got + bytes;
  }

  /** `circle_recv`: fill up to `len` reserved bytes at the write pointer. */
  method CircleRecv(sock: Socket, b: Buffer, len: nat) returns (r: Received, ghost got: Segment, ghost o: Outcome)
    requires b.Valid() && 0 < len <= b.q.room
    modifies sock, b.buf
    ensures b.Valid() && b.HoldsAtWrite(got) && got + sock.stream == old(sock.stream)
    ensures b.KeptBeyond(old(b.buf[..]))
    ensures Drains(old(sock.events), |old(sock.stream)|, len, o)
    ensures |got| == o.n <= len && sock.events == o.events && r == if o.failed then NetError else Received(o.n)
    ensures forall i: nat :: Reached(old(sock.events), i, |old(sock.stream)|, len) ==>
      && (old(sock.events)[i] == Failed ==> r == NetError)
      && (old(sock.events)[i] == WouldBlock || old(sock.events)[i] == Available(0) ==>
           r == Received(Brought(old(sock.events)[..i])))
  {
    ghost var events, available := sock.events, |sock.stream|;
    var received, turn := 0, Again;
    ghost var was := b.buf[..];
    got := [];
    o := AllToCome(sock.events, |sock.stream|, len);
    while turn == Again && received < len
      invariant Filling(b, got, len) && |got| == received
      invariant got + sock.stream == old(sock.stream) && b.KeptBeyond(was)
      invariant ToCome(o, turn, received, sock.events, |sock.stream|, len)
      decreases turn == Again, |sock.events|
    {
      ToComeStep(o, received, sock.events, |sock.stream|, len);
      turn, received, got := RecvOnce(sock, b, len, received, got, was);
    }
    AllCame(o, turn, received, sock.events, |sock.stream|, len);
    Filled(b, got, len);
    r := if turn == Fail then NetError else Received(received);
    DrainsUntil(events, available, len, o);
  }

  /** How many bytes the guide waits for after `received`; none if that was rejected. */
  function Wants(received: Segment): (n: nat)
    ensures n == 0 <==> Parse(received).Rejected?
  {
    ParseBounds(received);
    if Parse(received).Rejected? then 0 else Wanted(Parse(received))
  }

  /** Getting part of what is wanted leaves the rest of it wanted. */
  ghost predicate Steady(want: Segment -> nat) {
    forall i {:trigger Unfold(Draining, i)} :: Unfold(Draining, i) ==>
      forall before: Segment, got: Segment {:trigger want(before + got)} ::
        |got| < want(before) ==> want(before + got) == want(before) - |got|
  }

  lemma StillWanted(want: Segment -> nat, before: Segment, got: Segment)
    requires Steady(want) && |got| < want(before)
    ensures want(before + got) == want(before) - |got|
  {
    assert Unfold(Draining, 0);
  }

  lemma WantsSteady()
    ensures Steady(Wants)
  {
    forall before: Segment, got: Segment | |got| < Wants(before)
      ensures Wants(before + got) == Wants(before) - |got|
    {
      ParseBounds(before);
      AdvanceIsParse(before, got);
    }
  }

  /**
   All that `tcp_read` gets of `stream` after `before`, with `want` to say how much to ask for: it goes on until a
   receive comes short or fails, or nothing is wanted any more.
   */
  function ReadAll(want: Segment -> nat, before: Segment, events: seq<Event>, stream: Segment): (a: Outcome)
    ensures a.n <= |stream|
    decreases |events|
  {
    var o := Drain(events, |stream|, want(before));
    if o.failed || o.n < want(before) || o.n == 0 then o
    else
      var a := ReadAll(want, before + stream[..o.n], o.events, stream[o.n..]);
      a.(n := o.n + a.n)
  }

  /** With results enough it gets everything, unless it is told to stop. */
  lemma {:induction false} PlentyReadAll(want: Segment -> nat, before: Segment, events: seq<Event>, stream: Segment)
    requires Plenty(events, |stream|)
    ensures var a := ReadAll(want, before, events, stream);
      !a.failed && (a.n == |stream| || want(before + stream[..a.n]) == 0)
    decreases |events|
  {
    var n := want(before);
    PlentyDrain(events, |stream|, n);
    if n == 0 {
      assert before + stream[..0] == before;
    } else if n <= |stream| {
      var more, rest, left := before + stream[..n], stream[n..], Drain(events, |stream|, n).events;
      PlentyReadAll(want, more, left, rest);
      var k := ReadAll(want, more, left, rest).n;
      assert more + rest[..k] == before + stream[..n + k];
    }
  }

  lemma PlentyReadsAll(want: Segment -> nat, before: Segment, events: seq<Event>, stream: Segment)
    requires Plenty(events, |stream|) && forall n :: 0 <= n <= |stream| ==> want(before + stream[..n]) > 0
    ensures ReadAll(want, before, events, stream).n == |stream|
  {
    PlentyReadAll(want, before, events, stream);
  }

  /** Unless it is told to stop, it gets everything, or there was nothing to call `recv` for any more. */
  lemma {:induction false} EagerReadAll(want: Segment -> nat, before: Segment, events: seq<Event>, stream: Segment)
    requires Eager(events)
    ensures var a := ReadAll(want, before, events, stream);
      && !a.failed && Eager(a.events)
      && (a.n == |stream| || a.events == [] || want(before + stream[..a.n]) == 0)
    decreases |events|
  {
    var n := want(before);
    EagerDrain(events, |stream|, n);
    var o := Drain(events, |stream|, n);
    if n == 0 {
      assert before + stream[..0] == before;
    } else if o.n == n {
      var more, rest := before + stream[..n], stream[n..];
      EagerReadAll(want, more, o.events, rest);
      var k := ReadAll(want, more, o.events, rest).n;
      assert more + rest[..k] == before + stream[..n + k];
    }
  }

  ghost predicate Reads(want: Segment -> nat, before: Segment, events: seq<Event>, stream: Segment, a: Outcome) {
    forall i {:trigger Unfold(Draining, i)} :: Unfold(Draining, i) ==> a == ReadAll(want, before, events, stream)
  }

  lemma ReadsOf(want: Segment -> nat, before: Segment, events: seq<Event>, stream: Segment) returns (a: Outcome)
    ensures a == ReadAll(want, before, events, stream) && Reads(want, before, events, stream, a) && a.n <= |stream|
  {
    a := ReadAll(want, before, events, stream);
  }

  /** One receive that came short. */
  lemma ReadsShort(want: Segment -> nat, before: Segment, events: seq<Event>, stream: Segment, o: Outcome)
    requires Drains(events, |stream|, want(before), o) && (o.failed || o.n < want(before) || want(before) == 0)
    ensures Reads(want, before, events, stream, o)
  {
  }

  /** One receive that got all that was wanted, and all those that follow. */
  lemma ReadsFull(want: Segment -> nat, before: Segment, got: Segment, events: seq<Event>, stream: Segment,
                  o: Outcome, a: Outcome)
    requires Drains(events, |got| + |stream|, |got|, o) && |got| == want(before) == o.n > 0 && !o.failed
    requires Reads(want, before + got, o.events, stream, a)
    ensures Reads(want, before, events, got + stream, a.(n := o.n + a.n))
  {
    assert Unfold(Draining, 0);
    assert (got + stream)[..o.n] == got && (got + stream)[o.n..] == stream;
  }

  /** Where the last receive came short, reading goes on as if it had not stopped. */
  lemma ReadsOnward(want: Segment -> nat, before: Segment, got: Segment, pre: seq<Event>, rest: seq<Event>,
                    left: Segment, r: Outcome)
    returns (a: Outcome)
    requires Steady(want) && |got| < want(before) && r.n <= want(before) - |got| && r.n <= |left|
    requires Drains(rest, |left|, want(before) - |got|, r)
    requires Drains(pre + rest, |got| + |left|, want(before), Outcome(|got| + r.n, r.events, r.failed))
    ensures Reads(want, before + got, rest, left, a)
    ensures Reads(want, before, pre + rest, got + left, Outcome(|got| + a.n, a.events, a.failed))
  {
    StillWanted(want, before, got);
    if r.failed || |got| + r.n < want(before) {
      a := r;
      assert |got + left| == |got| + |left|;
      ReadsShort(want, before + got, rest, left, r);
      ReadsShort(want, before, pre + rest, got + left, Outcome(|got| + r.n, r.events, r.failed));
    } else {
      assert left == left[..r.n] + left[r.n..];
      a := ReadsOn(want, before, got, left[..r.n], pre, rest, left[r.n..], r);
    }
  }

  /** The receive that goes on gets all that was wanted. */
  lemma ReadsOn(want: Segment -> nat, before: Segment, got: Segment, more: Segment, pre: seq<Event>, rest: seq<Event>,
                last: Segment, r: Outcome)
    returns (a: Outcome)
    requires |got| + |more| == want(before) && want(before + got) == |more| == r.n > 0 && !r.failed
    requires Drains(rest, |more| + |last|, |more|, r)
    requires Drains(pre + rest, |got| + (|more| + |last|), want(before), Outcome(|got| + r.n, r.events, false))
    ensures Reads(want, before + got, rest, more + last, a)
    ensures Reads(want, before, pre + rest, got + (more + last), Outcome(|got| + a.n, a.events, a.failed))
  {
    a := ReadsOf(want, before + got + more, r.events, last);
    assert before + got + more == before + (got + more) && got + more + last == got + (more + last);
    ReadsFull(want, before + got, more, rest, last, r, a);
    ReadsFull(want, before, got + more, pre + rest, last, Outcome(|got| + r.n, r.events, false), a);
    a := a.(n := r.n + a.n);
  }

  /** The same for a whole `tcp_read`, as long as the stream is not used up and more is wanted. */
  lemma {:induction false} ReadsThrough(
    want: Segment -> nat, before: Segment, pre: seq<Event>, rest: seq<Event>, stream: Segment)
    returns (x: Outcome, a: Outcome, got: Segment, left: Segment)
    requires Eager(pre) && Steady(want)
    ensures Reads(want, before, pre, stream, x) && !x.failed && stream == got + left && x.n == |got|
    ensures left != [] && want(before + got) > 0 ==>
      && x.events == [] && Reads(want, before + got, rest, left, a)
      && Reads(want, before, pre + rest, stream, Outcome(x.n + a.n, a.events, a.failed))
    decreases |pre|, 1
  {
    var n := want(before);
    var o, r := DrainsOn(pre, rest, |stream|, n);
    got, left := stream[..o.n], stream[o.n..];
    x, a := o, o;
    if o.n < n {
      ReadsShort(want, before, pre, stream, o);
      if left != [] {
        DrainsBounds(rest, |left|, n - o.n, r);
        a := ReadsOnward(want, before, got, pre, rest, left, r);
      }
    } else if n == 0 {
      ReadsShort(want, before, pre, stream, o);
      assert before + got == before;
    } else {
      DrainsShrink(pre, |stream|, n, o);
      EagerRest(pre, |stream|, n, o);
      x, a, got, left := ReadsFurther(want, before, got, left, pre, rest, o);
    }
  }

  lemma {:induction false} ReadsFurther(want: Segment -> nat, before: Segment, first: Segment, later: Segment,
                                        pre: seq<Event>, rest: seq<Event>, o: Outcome)
    returns (x: Outcome, a: Outcome, got: Segment, left: Segment)
    requires Steady(want) && |first| == want(before) == o.n > 0 && !o.failed && Eager(o.events) && |o.events| < |pre|
    requires Drains(pre, |first| + |later|, |first|, o)
    requires Drains(pre + rest, |first| + |later|, |first|, o.(events := o.events + rest))
    ensures Reads(want, before, pre, first + later, x) && !x.failed && first + later == got + left && x.n == |got|
    ensures left != [] && want(before + got) > 0 ==>
      && x.events == [] && Reads(want, before + got, rest, left, a)
      && Reads(want, before, pre + rest, first + later, Outcome(x.n + a.n, a.events, a.failed))
    decreases |pre|, 0
  {
    x, a, got, left := ReadsThrough(want, before + first, o.events, rest, later);
    ReadsAgain(want, before, first, pre, rest, later, o, x, a);
    assert before + first + got == before + (first + got) && first + got + left == first + later;
    x, got := x.(n := o.n + x.n), first + got;
  }

  lemma ReadsAgain(want: Segment -> nat, before: Segment, got: Segment, pre: seq<Event>, rest: seq<Event>,
                   left: Segment, o: Outcome, x: Outcome, a: Outcome)
    requires |got| == want(before) == o.n > 0 && !o.failed && x.n <= |left|
    requires Drains(pre, |got| + |left|, |got|, o)
    requires Drains(pre + rest, |got| + |left|, |got|, o.(events := o.events + rest))
    requires Reads(want, before + got, o.events, left, x)
    ensures Reads(want, before, pre, got + left, x.(n := o.n + x.n))
    ensures Reads(want, before + got, o.events + rest, left, Outcome(x.n + a.n, a.events, a.failed)) ==>
      Reads(want, before, pre + rest, got + left, Outcome(o.n + x.n + a.n, a.events, a.failed))
  {
    ReadsFull(want, before, got, pre, left, o, x);
    var y := Outcome(x.n + a.n, a.events, a.failed);
    if Reads(want, before + got, o.events + rest, left, y) {
      ReadsFull(want, before, got, pre + rest, left, o.(events := o.events + rest), y);
    }
  }

  lemma ReadsIs(want: Segment -> nat, before: Segment, events: seq<Event>, stream: Segment, a: Outcome)
    requires Reads(want, before, events, stream, a)
    ensures a == ReadAll(want, before, events, stream)
  {
    assert Unfold(Draining, 0);
  }

  /** Outcomes that neither fail nor come with empty hands are gone through, until all is read or a head is rejected. */
  lemma ReadThrough(before: Segment, pre: seq<Event>, rest: seq<Event>, stream: Segment)
    requires Eager(pre)
    ensures var k := ReadAll(Wants, before, pre, stream).n;
      var a := ReadAll(Wants, before + stream[..k], rest, stream[k..]);
      k < |stream| && Parse(before + stream[..k]).Reading? ==>
        && ReadAll(Wants, before, pre, stream) == Outcome(k, [], false)
        && ReadAll(Wants, before, pre + rest, stream) == Outcome(k + a.n, a.events, a.failed)
  {
    WantsSteady();
    var x, a, got, left := ReadsThrough(Wants, before, pre, rest, stream);
    assert stream[..x.n] == got && stream[x.n..] == left;
    ReadsIs(Wants, before, pre, stream, x);
    if left != [] && Wants(before + got) > 0 {
      ReadsIs(Wants, before + got, rest, left, a);
      ReadsIs(Wants, before, pre + rest, stream, Outcome(x.n + a.n, a.events, a.failed));
    }
  }

  /**
   The first outcome that brings nothing ends a `tcp_read` that was in the middle of the stream: as an error if it is
   one, quietly if there was nothing to get. An interruption is passed over.
   */
  lemma ReadUntil(before: Segment, pre: seq<Event>, e: Event, rest: seq<Event>, stream: Segment)
    requires Eager(pre)
    ensures var k, a := ReadAll(Wants, before, pre, stream).n, ReadAll(Wants, before, pre + [e] + rest, stream);
      k < |stream| && Parse(before + stream[..k]).Reading? ==>
        && (e == Failed ==> a == Outcome(k, rest, true))
        && (e == WouldBlock || e == Available(0) ==> a == Outcome(k, rest, false))
        && (e == Interrupted ==> a == ReadAll(Wants, before, pre + rest, stream))
  {
    var k := ReadAll(Wants, before, pre, stream).n;
    var left := [e] + rest;
    ReadThrough(before, pre, left, stream);
    ReadThrough(before, pre, rest, stream);
    assert pre + left == pre + [e] + rest && left[1..] == rest;
  }

  /** After some receives, the last of which made another one pointless unless `more`: what has come makes up `a`. */
  ghost predicate ToRead(want: Segment -> nat, a: Outcome, more: bool, n: nat,
                         before: Segment, events: seq<Event>, stream: Segment, failed: bool)
  {
    forall i {:trigger Unfold(Draining, i)} :: Unfold(Draining, i) ==>
      if more then
        var r := ReadAll(want, before, events, stream);
        a == Outcome(n + r.n, r.events, r.failed)
      else a == Outcome(n, events, failed)
  }

  /** One receive brings a `tcp_read` a step further. */
  lemma ToReadStep(want: Segment -> nat, a: Outcome, n: nat, before: Segment, events: seq<Event>, stream: Segment,
                   o: Outcome, before': Segment, stream': Segment, more: bool)
    requires ToRead(want, a, true, n, before, events, stream, false)
    requires Drains(events, |stream|, want(before), o)
    requires before' + stream' == before + stream && |before'| == |before| + o.n
    requires o.failed ==> !more
    requires !o.failed && more ==> o.n == want(before) > 0
    requires !o.failed && !more ==> o.n < want(before) || want(before) == 0 || want(before') == 0
    ensures ToRead(want, a, more, n + o.n, before', o.events, stream', o.failed)
  {
    assert Unfold(Draining, 0);
    assert before' == (before + stream)[..|before'|] == before + stream[..o.n];
    assert stream' == (before + stream)[|before'|..] == stream[o.n..];
    var _ := ReadAll(want, before', o.events, stream');
  }

  lemma AllRead(want: Segment -> nat, a: Outcome, n: nat, before: Segment, events: seq<Event>, stream: Segment,
                failed: bool)
    requires ToRead(want, a, false, n, before, events, stream, failed)
    ensures a == Outcome(n, events, failed)
  {
    assert Unfold(Draining, 0);
  }

  /** What eager results mean for all that was got. */
  lemma EagerReads(want: Segment -> nat, before: Segment, events: seq<Event>, stream: Segment, a: Outcome,
                   before': Segment, stream': Segment)
    requires Eager(events) && Reads(want, before, events, stream, a)
    requires before' + stream' == before + stream && |before'| == |before| + a.n
    ensures !a.failed && (want(before') > 0 ==> stream' == [] || a.events == [])
  {
    assert Unfold(Draining, 0);
    EagerReadAll(want, before, events, stream);
    assert before' == (before + stream)[..|before'|] == before + stream[..a.n];
  }

  /** And plenty of them. */
  lemma PlentyReads(want: Segment -> nat, before: Segment, events: seq<Event>, stream: Segment, a: Outcome,
                    before': Segment, stream': Segment)
    requires Plenty(events, |stream|) && Reads(want, before, events, stream, a)
    requires before' + stream' == before + stream && |before'| == |before| + a.n
    ensures !a.failed && (want(before') > 0 ==> stream' == [])
  {
    assert Unfold(Draining, 0);
    PlentyReadAll(want, before, events, stream);
    assert before' == (before + stream)[..|before'|] == before + stream[..a.n];
  }
}
