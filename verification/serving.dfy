/** One client over its lifetime: what the peer sends against what the handlers get. */
module Servers {
  import opened Bytes
  import opened Folding
  import opened Frames
  import opened Receives
  import opened Framing

  /** What a server does with one client: its socket becomes readable, or the dispatcher reaches it. */
  datatype Work = Readable(events: seq<Event>) | Dispatch

  /** Of the `frames` sent, those whole in the first `n` bytes were handled, in `out`, or wait; `all` is all of them. */
  ghost predicate Served(frames: seq<Frame>, out: seq<Frame>, waiting: seq<Frame>, n: nat, all: bool) {
    forall i {:trigger Unfold(Ledgers, i)} :: Unfold(Ledgers, i) ==>
      out + waiting == frames[..Whole(frames, n)] && (all ==> out + waiting == frames)
  }

  lemma ServedBatch(frames: seq<Frame>, out: seq<Frame>, batch: seq<Frame>, waiting: seq<Frame>, n: nat, all: bool)
    requires Served(frames, out, batch + waiting, n, all)
    ensures Served(frames, out + batch, waiting, n, all)
    ensures batch + waiting == Due(frames, |out|, n)
    ensures out + batch <= frames
  {
    assert Unfold(Ledgers, 0);
    assert out + (batch + waiting) == out + batch + waiting;
  }

  /** What the ledger says about the frames sent, when `t` is still to come. */
  lemma KeptFrames(frames: seq<Frame>, s: Segment, t: Segment, queued: seq<Segment>, part: Part, l: Ledger)
    requires (forall f :: f in frames ==> f.Sendable()) && s + t == Encode(frames)
    requires Parse(s).Reading? ==> Kept(queued, Parse(s).segments, part, l)
    ensures Parse(s).Reading? && Served(frames, l.handled, l.waiting, |s|, t == [])
  {
    PrefixFrames(frames, s, t);
    assert Unfold(Ledgers, 0);
  }

  /**
   How a client is served, without its buffer, segments and parts: how much was received, what its socket will do
   next, whether it failed, and the frames handled.
   */
  datatype Play = Play(received: nat, events: seq<Event>, failed: bool, out: seq<Frame>)

  /** The frames that have arrived whole with the first `n` bytes, but for the first `handled`. */
  function Due(frames: seq<Frame>, handled: nat, n: nat): seq<Frame> {
    if handled <= Whole(frames, n) then frames[handled..Whole(frames, n)] else []
  }

  function Played(frames: seq<Frame>, p: Play, work: Work): (q: Play)
    requires p.received <= |Encode(frames)|
    ensures p.received <= q.received <= |Encode(frames)|
  {
    match work
    case Readable(events) =>
      var s := Encode(frames);
      var a := ReadAll(Wants, s[..p.received], p.events + events, s[p.received..]);
      Play(p.received + a.n, a.events, a.failed, p.out)
    case Dispatch =>
      p.(out := p.out + Batch(Due(frames, |p.out|, p.received)))
  }

  /** What some works come to, one after the other, on a socket that starts with `events`. */
  function Plays(frames: seq<Frame>, events: seq<Event>, works: seq<Work>): (p: Play)
    ensures p.received <= |Encode(frames)|
  {
    if works == [] then Play(0, events, false, [])
    else Played(frames, Plays(frames, events, works[..|works| - 1]), works[|works| - 1])
  }

  lemma PlaysNext(frames: seq<Frame>, events: seq<Event>, works: seq<Work>, n: nat)
    requires n < |works|
    ensures Plays(frames, events, works[..n + 1]) == Played(frames, Plays(frames, events, works[..n]), works[n])
  {
    assert works[..n + 1][..n] == works[..n];
  }

  function Dispatches(works: seq<Work>): nat {
    if works == [] then 0
    else Dispatches(works[..|works| - 1]) + if works[|works| - 1].Dispatch? then 1 else 0
  }

  lemma {:induction false} WholeGrows(frames: seq<Frame>, m: nat, n: nat)
    requires m <= n
    ensures Whole(frames, m) <= Whole(frames, n)
    ensures Whole(frames, |Encode(frames)|) == |frames|
  {
    if frames != [] {
      var k := HEAD_SIZE + |frames[0].data|;
      WholeGrows(frames[1..], if m < k then 0 else m - k, if n < k then 0 else n - k);
    }
  }

  /** Only frames that have arrived are handled, and in order. */
  lemma {:induction false} PlayInOrder(frames: seq<Frame>, events: seq<Event>, works: seq<Work>)
    ensures var p := Plays(frames, events, works);
      |p.out| <= Whole(frames, p.received) && p.out == frames[..|p.out|]
    decreases |works|
  {
    if works != [] {
      var before, work := works[..|works| - 1], works[|works| - 1];
      PlayInOrder(frames, events, before);
      var p := Plays(frames, events, before);
      WholeGrows(frames, p.received, Played(frames, p, work).received);
    }
  }

  /** What was sent is not rejected. */
  lemma MoreWanted(frames: seq<Frame>, s: Segment, t: Segment)
    requires (forall f :: f in frames ==> f.Sendable()) && s + t == Encode(frames)
    ensures Wants(s) > 0
  {
    PrefixFrames(frames, s, t);
  }

  /** A readable event with results enough brings all there is. */
  lemma PlayReceives(frames: seq<Frame>, p: Play, events: seq<Event>)
    requires (forall f :: f in frames ==> f.Sendable()) && p.received <= |Encode(frames)|
    requires Plenty(p.events + events, |Encode(frames)| - p.received)
    ensures Played(frames, p, Readable(events)).received == |Encode(frames)|
  {
    var s := Encode(frames);
    var before, stream := s[..p.received], s[p.received..];
    forall n | 0 <= n <= |stream|
      ensures Wants(before + stream[..n]) > 0
    {
      assert before + stream[..n] + stream[n..] == s;
      MoreWanted(frames, before + stream[..n], stream[n..]);
    }
    PlentyReadsAll(Wants, before, p.events + events, stream);
  }

  /** Once all was received, every dispatch hands over a frame, as long as there are any left. */
  lemma {:induction false} PlayHandles(frames: seq<Frame>, events: seq<Event>, works: seq<Work>, later: seq<Work>)
    requires Plays(frames, events, works).received == |Encode(frames)|
    ensures var p := Plays(frames, events, works + later);
      && p.received == |Encode(frames)| && p.out <= frames
      && (p.out == frames || |p.out| >= Dispatches(later))
    decreases |later|
  {
    PlayInOrder(frames, events, works + later);
    WholeGrows(frames, 0, 0);
    if later == [] {
      assert works + later == works;
    } else {
      var before, work := later[..|later| - 1], later[|later| - 1];
      PlayHandles(frames, events, works, before);
      assert (works + later)[..|works + later| - 1] == works + before;
      PlayInOrder(frames, events, works + before);
    }
  }

  /** After work `i` everything has been received, and as many dispatches follow as there are frames. */
  ghost predicate Suffices(frames: seq<Frame>, events: seq<Event>, works: seq<Work>, i: nat) {
    && i < |works| && works[i].Readable?
    && var p := Plays(frames, events, works[..i]);
    && Plenty(p.events + works[i].events, |Encode(frames)| - p.received)
    && Dispatches(works[i + 1..]) >= |frames|
  }

  /** Then all the frames are handled. */
  lemma PlayEnds(frames: seq<Frame>, events: seq<Event>, works: seq<Work>, i: nat)
    requires (forall f :: f in frames ==> f.Sendable()) && Suffices(frames, events, works, i)
    ensures Plays(frames, events, works).out == frames
  {
    PlaysNext(frames, events, works, i);
    PlayReceives(frames, Plays(frames, events, works[..i]), works[i].events);
    PlayHandles(frames, events, works[..i + 1], works[i + 1..]);
    assert works[..i + 1] + works[i + 1..] == works;
  }

  /**
   Nothing of what the peer sent is lost, invented or reordered; `disturbed` means `need` was overwritten. The client
   goes astray exactly when a head was received that strayed.
   */
  ghost predicate Serving(c: Client, frames: seq<Frame>, out: seq<Frame>, disturbed: bool)
    reads c, c.inb, c.inb.buf, c.sock
  {
    && out == c.ledger.handled && out <= frames
    && (c.astray <==> !c.AllFound())
    && (c.Open() ==>
         && Served(frames, out, c.ledger.waiting, |c.consumed|, c.sock.stream == [])
         && c.consumed + c.sock.stream == Encode(frames)
         && if disturbed then c.Disturbed() else c.InStep())
  }

  method ServeReadable(c: Client, events: seq<Event>, ghost frames: seq<Frame>, ghost out: seq<Frame>)
    requires (forall f :: f in frames ==> f.Sendable()) && c.Open() && Serving(c, frames, out, false)
    modifies c, c.inb, c.inb.buf, c.sock
    ensures c.inb == old(c.inb) && c.sock == old(c.sock) && (c.inb.buf == old(c.inb.buf) || fresh(c.inb.buf))
    ensures Serving(c, frames, out, false)
    ensures !c.astray ==> var a := ReadAll(Wants, old(c.consumed), old(c.sock.events) + events, old(c.sock.stream));
      |c.consumed| == |old(c.consumed)| + a.n && c.sock.events == a.events && c.closed == a.failed
    ensures Plenty(old(c.sock.events) + events, |old(c.sock.stream)|) && !c.astray ==> c.Open() && c.sock.stream == []
  {
    c.sock.events := c.sock.events + events;
    var res := c.TcpRead();
    if res >= -1 {
      KeptFrames(frames, c.consumed, c.sock.stream, c.inb.Contents(), c.status, c.ledger);
    }
  }

  method ServeDispatch(c: Client, ghost frames: seq<Frame>, ghost out: seq<Frame>, was: bool)
    returns (batch: seq<Frame>, disturbed: bool)
    requires c.Open() && Serving(c, frames, out, was)
    modifies c, c.inb
    ensures c.inb == old(c.inb) && c.sock == old(c.sock) && c.inb.buf == old(c.inb.buf)
    ensures batch == Batch(old(c.ledger.waiting)) && Serving(c, frames, out + batch, disturbed)
    ensures old(c.ledger.waiting) == Due(frames, |out|, |c.consumed|) && c.consumed == old(c.consumed)
    ensures disturbed <==> was || old(c.status == Data && !HasKernel(c.ledger.waiting))
    ensures c.Open() && c.status == old(c.status) && batch + c.ledger.waiting == old(c.ledger.waiting)
  {
    BatchEnds(c.ledger.waiting);
    batch := c.DealTcpMsg();
    ServedBatch(frames, out, batch, c.ledger.waiting, |c.consumed|, c.sock.stream == []);
    disturbed := was || (c.status == Data && !EndsInKernel(batch));
  }

  /** A client is where `p` says, unless it went astray; what it has handed over is what `p` says in any case. */
  ghost predicate AsPlayed(c: Client, p: Play, out: seq<Frame>)
    reads c, c.sock
  {
    && out == p.out
    && (!c.astray ==> |c.consumed| == p.received && c.sock.events == p.events && c.closed == p.failed)
  }

  /** One more work. */
  method ServeOne(c: Client, work: Work, ghost frames: seq<Frame>, out: seq<Frame>, was: bool, ghost p: Play)
    returns (out': seq<Frame>, disturbed: bool)
    requires (forall f :: f in frames ==> f.Sendable()) && c.Open() && Serving(c, frames, out, was)
    requires AsPlayed(c, p, out) && p.received <= |Encode(frames)| && (was ==> work.Dispatch?)
    modifies c, c.inb, c.inb.buf, c.sock
    ensures c.inb == old(c.inb) && c.sock == old(c.sock) && (c.inb.buf == old(c.inb.buf) || fresh(c.inb.buf))
    ensures Serving(c, frames, out', disturbed) && AsPlayed(c, Played(frames, p, work), out')
  {
    assert Encode(frames)[..p.received] == c.consumed && Encode(frames)[p.received..] == c.sock.stream;
    out', disturbed := out, was;
    match work {
      case Readable(events) =>
        ServeReadable(c, events, frames, out);
      case Dispatch =>
        var batch;
        batch, disturbed := ServeDispatch(c, frames, out, was);
        out' := out + batch;
    }
  }

  /**
   Any schedule of receiving and dispatching, for a peer that sends `frames`. Of the `works` the first `done` are done;
   only a connection that ends, a head that strays, or a receive with a disturbed `need` keeps it from doing all. What
   is handed over is what the works done come to, and it is everything once enough of them read and dispatch.
   */
  method Serve(c: Client, works: seq<Work>, ghost frames: seq<Frame>)
    returns (out: seq<Frame>, disturbed: bool, done: nat)
    requires c.InStep() && c.consumed == [] && c.ledger == Ledger([], [], [])
    requires (forall f :: f in frames ==> f.Sendable()) && c.sock.stream == Encode(frames)
    modifies c, c.inb, c.inb.buf, c.sock
    ensures Serving(c, frames, out, disturbed)
    ensures done <= |works| && (done < |works| ==> !c.Open() || (disturbed && works[done].Readable?))
    ensures AsPlayed(c, Plays(frames, old(c.sock.events), works[..done]), out)
    ensures forall i: nat :: Suffices(frames, old(c.sock.events), works, i) ==> out == frames || !c.Open() || disturbed
  {
    out, disturbed, done := [], false, 0;
    ghost var events := c.sock.events;
    KeptFrames(frames, c.consumed, c.sock.stream, c.inb.Contents(), c.status, c.ledger);
    while done < |works| && c.Open() && !(disturbed && works[done].Readable?)
      invariant c.inb == old(c.inb) && c.sock == old(c.sock) && (c.inb.buf == old(c.inb.buf) || fresh(c.inb.buf))
      invariant done <= |works| && Serving(c, frames, out, disturbed)
      invariant AsPlayed(c, Plays(frames, events, works[..done]), out)
    {
      PlaysNext(frames, events, works, done);
      out, disturbed := ServeOne(c, works[done], frames, out, disturbed, Plays(frames, events, works[..done]));
      done := done + 1;
    }
    AllDone(frames, events, works, done, out);
  }

  lemma AllDone(frames: seq<Frame>, events: seq<Event>, works: seq<Work>, done: nat, out: seq<Frame>)
    requires (forall f :: f in frames ==> f.Sendable())
    requires done <= |works| && out == Plays(frames, events, works[..done]).out
    ensures forall i: nat :: done == |works| && Suffices(frames, events, works, i) ==> out == frames
  {
    forall i: nat | done == |works| && Suffices(frames, events, works, i)
      ensures out == frames
    {
      PlayEnds(frames, events, works, i);
      assert works[..done] == works;
    }
  }

  lemma AllReceived(frames: seq<Frame>, s: Segment)
    requires (forall f :: f in frames ==> f.Sendable()) && s == Encode(frames)
    ensures Parse(s).Reading? && Parse(s).part == Head
  {
    assert s + [] == s;
    PrefixFrames(frames, s, []);
  }

  lemma AllServed(frames: seq<Frame>, out: seq<Frame>, n: nat)
    requires Served(frames, out, [], n, true)
    ensures out == frames
  {
    assert Unfold(Ledgers, 0);
  }

  /** Everything was received, and `done` was handed over. */
  ghost predicate Delivering(c: Client, frames: seq<Frame>, done: seq<Frame>)
    reads c, c.inb, c.inb.buf, c.sock
  {
    forall i {:trigger Unfold(Finishing, i)} :: Unfold(Finishing, i) ==>
      c.Open() && c.status == Head && c.sock.stream == [] && Serving(c, frames, done, false)
  }

  method DeliverTurn(c: Client, ghost frames: seq<Frame>, ghost done: seq<Frame>) returns (batch: seq<Frame>)
    requires Delivering(c, frames, done)
    modifies c, c.inb
    ensures c.inb == old(c.inb) && c.sock == old(c.sock) && c.inb.buf == old(c.inb.buf)
    ensures Delivering(c, frames, done + batch)
    ensures batch == Batch(old(c.ledger.waiting)) && batch + c.ledger.waiting == old(c.ledger.waiting)
  {
    assert Unfold(Finishing, 0);
    var disturbed;
    batch, disturbed := ServeDispatch(c, frames, done, false);
  }

  lemma Delivered(c: Client, frames: seq<Frame>, out: seq<Frame>)
    requires Delivering(c, frames, out) && c.ledger.waiting == []
    ensures out == frames && c.InStep()
  {
    assert Unfold(Finishing, 0);
    AllServed(frames, out, |c.consumed|);
  }

  lemma AllArrived(c: Client, frames: seq<Frame>, done: seq<Frame>)
    requires (forall f :: f in frames ==> f.Sendable())
    requires c.Open() && Serving(c, frames, done, false) && c.sock.stream == []
    ensures Delivering(c, frames, done)
  {
    assert c.consumed + c.sock.stream == c.consumed;
    AllReceived(frames, c.consumed);
  }

  /** Dispatching until nothing is handled any more. */
  method DealAll(c: Client, ghost frames: seq<Frame>, ghost before: seq<Frame>) returns (out: seq<Frame>)
    requires Delivering(c, frames, before)
    modifies c, c.inb
    ensures Delivering(c, frames, before + out) && c.ledger.waiting == []
  {
    out := [];
    assert before + out == before;
    var more := true;
    while more
      invariant c.inb == old(c.inb) && c.sock == old(c.sock) && c.inb.buf == old(c.inb.buf)
      invariant Delivering(c, frames, before + out)
      invariant !more ==> c.ledger.waiting == []
      decreases more, |c.ledger.waiting|
    {
      var batch := DeliverTurn(c, frames, before + out);
      assert before + (out + batch) == before + out + batch;
      out := out + batch;
      more := batch != [];
    }
  }

  /** Once everything was received, `deal_tcp_msg` called often enough hands over exactly the rest of the frames. */
  method Deliver(c: Client, ghost frames: seq<Frame>, ghost before: seq<Frame>) returns (out: seq<Frame>)
    requires (forall f :: f in frames ==> f.Sendable())
    requires c.Open() && Serving(c, frames, before, false) && c.sock.stream == []
    modifies c, c.inb
    ensures before + out == frames && c.InStep() && c.ledger.waiting == []
  {
    AllArrived(c, frames, before);
    out := DealAll(c, frames, before);
    Delivered(c, frames, before + out);
  }
}
