/**
 The framing of a TCP byte stream (proto/proto.h, proto/proto.c), as functions on bytes: a one-shot parser, the
 incremental steps the server takes, and the proof that they agree for every way of chunking the stream.
 */
module Frames {
  import opened Bytes

  const HEAD_SIZE: nat := 8
  const MAX_CMDDATA_LEN: nat := 65000
  const CMD_KERNEL_END: nat := 0x0F

  /** A head is `data_size` in four bytes, `cmd_code` in two and `proto_ver` in two. */
  function DataSize(head: Segment): nat
    requires |head| == HEAD_SIZE
  {
    FromLittleEndian(head[..4])
  }

  function Code(head: Segment): nat
    requires |head| == HEAD_SIZE
  {
    FromLittleEndian(head[4..6])
  }

  function Version(head: Segment): nat
    requires |head| == HEAD_SIZE
  {
    FromLittleEndian(head[6..])
  }

  datatype Frame = Frame(code: nat, version: nat, data: Segment) {
    predicate Sendable() {
      code < 0x1_0000 && version < 0x1_0000 && |data| <= MAX_CMDDATA_LEN
    }

    predicate Kernel() { code <= CMD_KERNEL_END }

    function Head(): (head: Segment)
      ensures |head| == HEAD_SIZE
    {
      ToLittleEndian(|data|, 4) + ToLittleEndian(code, 2) + ToLittleEndian(version, 2)
    }

    /** The segments this frame is received in: an empty body is never read for. */
    function Segments(): seq<Segment> {
      if data == [] then [Head()] else [Head(), data]
    }
  }

  function ToFrame(head: Segment, data: Segment): Frame
    requires |head| == HEAD_SIZE
  {
    Frame(Code(head), Version(head), data)
  }

  /** Where the fields of a head lie: `data_size` in the first four bytes, `cmd_code` in two and `proto_ver` in two. */
  lemma HeadFields(h: Segment, data: Segment)
    requires |h| == 8
    ensures DataSize(h) == h[0] as nat + 256 * h[1] as nat + 65536 * h[2] as nat + 16777216 * h[3] as nat
    ensures ToFrame(h, data).code == h[4] as nat + 256 * h[5] as nat
    ensures ToFrame(h, data).version == h[6] as nat + 256 * h[7] as nat
    ensures ToFrame(h, data).data == data
  {
    LittleEndianBytes(h[..4]);
    LittleEndianBytes(h[4..6]);
    LittleEndianBytes(h[6..]);
  }

  lemma HeadRoundTrip(f: Frame)
    requires f.Sendable()
    ensures DataSize(f.Head()) == |f.data| && ToFrame(f.Head(), f.data) == f
  {
    assert Pow256(4) == 0x1_0000_0000 && Pow256(2) == 0x1_0000;
    LittleEndianRoundTrip(|f.data|, 4);
    LittleEndianRoundTrip(f.code, 2);
    LittleEndianRoundTrip(f.version, 2);
    assert f.Head()[..4] == ToLittleEndian(|f.data|, 4);
    assert f.Head()[4..6] == ToLittleEndian(f.code, 2);
    assert f.Head()[6..] == ToLittleEndian(f.version, 2);
  }

  datatype Part = Head | Data

  /**
   What a prefix of the stream amounts to: the completed segments, which part is being read, how long it is and
   what has arrived of it; or the offset at which a head announced too much data.
   */
  datatype Progress =
    | Reading(segments: seq<Segment>, part: Part, need: nat, partial: Segment)
    | Rejected(segments: seq<Segment>, offset: nat)

  const START := Reading([], Head, HEAD_SIZE, [])

  function After(done: seq<Segment>, offset: nat, p: Progress): Progress {
    match p
    case Reading(segments, part, need, partial) => Reading(done + segments, part, need, partial)
    case Rejected(segments, o) => Rejected(done + segments, offset + o)
  }

  /** The reference: parse a whole prefix of the stream at once, frame by frame. */
  function Parse(s: Segment): Progress
    decreases |s|
  {
    if |s| < HEAD_SIZE then Reading([], Head, HEAD_SIZE, s)
    else
      var head, rest := s[..HEAD_SIZE], s[HEAD_SIZE..];
      var n := DataSize(head);
      if n > MAX_CMDDATA_LEN then Rejected([], HEAD_SIZE)
      else if n == 0 then After([head], HEAD_SIZE, Parse(rest))
      else if |rest| < n then Reading([head], Data, n, rest)
      else After([head, rest[..n]], HEAD_SIZE + n, Parse(rest[n..]))
  }

  /** Between receives something is always wanted, and never more than fits in 16 bits. */
  predicate Expecting(p: Progress) {
    p.Reading? ==> |p.partial| < p.need <= MAX_CMDDATA_LEN && (p.part == Head ==> p.need == HEAD_SIZE)
  }

  /** Bytes still wanted by the part being read. */
  function Wanted(p: Progress): nat
    requires p.Reading? && Expecting(p)
  {
    p.need - |p.partial|
  }

  /** One receive of at most the wanted bytes, followed by the decision of `tcp_guide`. */
  function Advance(p: Progress, received: nat, t: Segment): (r: Progress)
    requires p.Reading? && Expecting(p) && |t| <= Wanted(p)
  {
    var got := p.partial + t;
    if |got| < p.need then p.(partial := got)
    else if p.part == Head then
      var n := DataSize(got);
      if n > MAX_CMDDATA_LEN then Rejected(p.segments, received + |t|)
      else if n > 0 then Reading(p.segments + [got], Data, n, [])
      else Reading(p.segments + [got], Head, HEAD_SIZE, [])
    else Reading(p.segments + [got], Head, HEAD_SIZE, [])
  }

  lemma {:induction false} ParseBounds(s: Segment)
    ensures Expecting(Parse(s))
    ensures Parse(s).Rejected? ==> Parse(s).offset <= |s|
    decreases |s|
  {
    if |s| >= HEAD_SIZE {
      var rest := s[HEAD_SIZE..];
      var n := DataSize(s[..HEAD_SIZE]);
      if n == 0 { ParseBounds(rest); }
      else if n <= |rest| { ParseBounds(rest[n..]); }
    }
  }

  /** What the first head of a stream decides, in its own bytes: more than 65000 is too much. */
  lemma FirstHead(s: Segment)
    requires |s| >= 8
    ensures var size := s[0] as nat + 256 * s[1] as nat + 65536 * s[2] as nat + 16777216 * s[3] as nat;
      && (size > 65000 <==> Parse(s) == Rejected([], 8))
      && (size > 0 && size <= 65000 && |s| - 8 < size ==> Parse(s) == Reading([s[..8]], Data, size, s[8..]))
      && (0 == size && |s| == 8 ==> Parse(s) == Reading([s], Head, 8, []))
  {
    HeadFields(s[..8], []);
    assert s[..HEAD_SIZE] == s[..8];
    if |s| == 8 { assert s[..8] == s && s[8..] == []; }
  }

  /** A stream that was rejected stays rejected at the same offset, whatever follows. */
  lemma {:induction false} RejectedForGood(s: Segment, t: Segment)
    requires Parse(s).Rejected?
    ensures Parse(s + t) == Parse(s)
    decreases |s|
  {
    var head, rest := s[..HEAD_SIZE], s[HEAD_SIZE..];
    assert (s + t)[..HEAD_SIZE] == head && (s + t)[HEAD_SIZE..] == rest + t;
    var n := DataSize(head);
    if n == 0 {
      RejectedForGood(rest, t);
    } else if n <= MAX_CMDDATA_LEN {
      assert (rest + t)[..n] == rest[..n] && (rest + t)[n..] == rest[n..] + t;
      RejectedForGood(rest[n..], t);
    }
  }

  lemma ShiftedAdvance(done: seq<Segment>, offset: nat, p: Progress, received: nat, t: Segment)
    requires p.Reading? && Expecting(p) && |t| <= Wanted(p)
    ensures Advance(After(done, offset, p), offset + received, t) == After(done, offset, Advance(p, received, t))
  {
    var got := p.partial + t;
    assert done + (p.segments + [got]) == done + p.segments + [got];
  }

  /** The incremental machine and the one-shot parser agree after every receive. */
  lemma {:induction false} AdvanceIsParse(s: Segment, t: Segment)
    requires Parse(s).Reading? && Expecting(Parse(s)) && |t| <= Wanted(Parse(s))
    ensures Parse(s + t) == Advance(Parse(s), |s|, t)
    decreases |s|
  {
    ParseBounds(s);
    if |s| < HEAD_SIZE {
      if |s + t| == HEAD_SIZE {
        assert (s + t)[..HEAD_SIZE] == s + t && (s + t)[HEAD_SIZE..] == [];
      }
    } else {
      var head, rest := s[..HEAD_SIZE], s[HEAD_SIZE..];
      assert (s + t)[..HEAD_SIZE] == head && (s + t)[HEAD_SIZE..] == rest + t;
      var n := DataSize(head);
      if n == 0 {
        AdvanceIsParse(rest, t);
        ShiftedAdvance([head], HEAD_SIZE, Parse(rest), |rest|, t);
      } else if |rest| < n {
        if |rest + t| == n {
          assert (rest + t)[..n] == rest + t && (rest + t)[n..] == [];
        }
      } else {
        assert (rest + t)[..n] == rest[..n] && (rest + t)[n..] == rest[n..] + t;
        AdvanceIsParse(rest[n..], t);
        ShiftedAdvance([head, rest[..n]], HEAD_SIZE + n, Parse(rest[n..]), |rest[n..]|, t);
      }
    }
  }

  /** Receiving `t` after `received` bytes: at most the wanted bytes at a time, until rejected or used up. */
  function Feed(p: Progress, received: nat, t: Segment): (r: Progress)
    requires Expecting(p)
    ensures Expecting(r)
    decreases |t|
  {
    if p.Rejected? || t == [] then p
    else
      var n := if |t| < Wanted(p) then |t| else Wanted(p);
      Feed(Advance(p, received, t[..n]), received + n, t[n..])
  }

  function FeedAll(p: Progress, received: nat, chunks: seq<Segment>): Progress
    requires Expecting(p)
    decreases |chunks|
  {
    if chunks == [] then p
    else FeedAll(Feed(p, received, chunks[0]), received + |chunks[0]|, chunks[1..])
  }

  lemma FeedStep(p: Progress, received: nat, t: Segment, n: nat)
    requires p.Reading? && Expecting(p) && t != []
    requires n == if |t| < Wanted(p) then |t| else Wanted(p)
    ensures Expecting(Advance(p, received, t[..n]))
    ensures Feed(p, received, t) == Feed(Advance(p, received, t[..n]), received + n, t[n..])
  {
  }

  /** One receive of a stream that is still being read. */
  lemma FeedNext(s: Segment, t: Segment) returns (n: nat)
    requires Parse(s).Reading? && Expecting(Parse(s)) && t != []
    ensures 0 < n <= |t| && Expecting(Parse(s + t[..n]))
    ensures Feed(Parse(s), |s|, t) == Feed(Parse(s + t[..n]), |s + t[..n]|, t[n..])
  {
    var p := Parse(s);
    n := if |t| < Wanted(p) then |t| else Wanted(p);
    AdvanceIsParse(s, t[..n]);
    FeedStep(p, |s|, t, n);
  }

  lemma {:induction false} FeedIsParse(s: Segment, t: Segment)
    ensures Expecting(Parse(s)) && Feed(Parse(s), |s|, t) == Parse(s + t)
    decreases |t|
  {
    ParseBounds(s);
    if Parse(s).Rejected? {
      RejectedForGood(s, t);
    } else if t == [] {
      assert s + t == s;
    } else {
      var n := FeedNext(s, t);
      var more := s + t[..n];
      FeedIsParse(more, t[n..]);
      assert more + t[n..] == s + t;
    }
  }

  /** Framing does not depend on chunking: only the bytes matter, and so does the offset of a rejection. */
  lemma {:induction false} ChunkingIndependent(s: Segment, chunks: seq<Segment>)
    ensures Expecting(Parse(s)) && FeedAll(Parse(s), |s|, chunks) == Parse(s + Flatten(chunks))
    decreases |chunks|
  {
    ParseBounds(s);
    if chunks == [] {
      assert s + Flatten(chunks) == s;
    } else {
      FeedIsParse(s, chunks[0]);
      ChunkingIndependent(s + chunks[0], chunks[1..]);
      assert s + chunks[0] + Flatten(chunks[1..]) == s + Flatten(chunks);
    }
  }

  /** Segments in the order they are received: a head that announces a body is followed by that body. */
  predicate Paired(segments: seq<Segment>, part: Part) {
    if segments == [] then part == Head
    else
      && |segments[0]| == HEAD_SIZE
      && DataSize(segments[0]) <= MAX_CMDDATA_LEN
      && if DataSize(segments[0]) == 0 then Paired(segments[1..], part)
         else if |segments| == 1 then part == Data
         else |segments[1]| == DataSize(segments[0]) && Paired(segments[2..], part)
  }

  /** The frames whose head and body have both arrived. */
  function Complete(segments: seq<Segment>): seq<Frame> {
    if segments == [] || |segments[0]| != HEAD_SIZE then []
    else if DataSize(segments[0]) == 0 then [ToFrame(segments[0], [])] + Complete(segments[1..])
    else if |segments| == 1 then []
    else [ToFrame(segments[0], segments[1])] + Complete(segments[2..])
  }

  /** A head arriving between frames. */
  lemma {:induction false} PairedHead(segments: seq<Segment>, head: Segment)
    requires Paired(segments, Head) && |head| == HEAD_SIZE && DataSize(head) <= MAX_CMDDATA_LEN
    ensures Paired(segments + [head], if DataSize(head) == 0 then Head else Data)
    ensures Complete(segments + [head]) ==
      Complete(segments) + if DataSize(head) == 0 then [ToFrame(head, [])] else []
  {
    var all := segments + [head];
    if segments == [] {
      assert all == [head] && all[1..] == [];
    } else if DataSize(segments[0]) == 0 {
      PairedHead(segments[1..], head);
      assert all[1..] == segments[1..] + [head];
    } else {
      PairedHead(segments[2..], head);
      assert all[2..] == segments[2..] + [head];
    }
  }

  /** The body of the head that was received last. */
  lemma {:induction false} PairedBody(segments: seq<Segment>, body: Segment)
    requires Paired(segments, Data)
    ensures segments != [] && |segments[|segments| - 1]| == HEAD_SIZE
    ensures var head := segments[|segments| - 1];
      |body| == DataSize(head) ==>
        && Paired(segments + [body], Head)
        && Complete(segments + [body]) == Complete(segments) + [ToFrame(head, body)]
  {
    var all := segments + [body];
    if DataSize(segments[0]) == 0 {
      assert all[1..] == segments[1..] + [body];
      PairedBody(segments[1..], body);
      assert segments[1..][|segments| - 2] == segments[|segments| - 1];
    } else if |segments| == 1 {
      assert all == [segments[0], body] && all[2..] == [];
    } else {
      assert all[2..] == segments[2..] + [body];
      PairedBody(segments[2..], body);
      assert segments[2..][|segments| - 3] == segments[|segments| - 1];
    }
  }

  /** The segments of a stream are always paired, and a body is awaited with the size its head announced. */
  lemma {:induction false} ParsePaired(s: Segment)
    requires Parse(s).Reading?
    ensures var p := Parse(s);
      && Paired(p.segments, p.part)
      && (p.part == Data ==>
           && p.segments != []
           && |p.segments[|p.segments| - 1]| == HEAD_SIZE
           && DataSize(p.segments[|p.segments| - 1]) == p.need)
    decreases |s|
  {
    if |s| >= HEAD_SIZE {
      var rest := s[HEAD_SIZE..];
      var n := DataSize(s[..HEAD_SIZE]);
      var p := Parse(s);
      if n == 0 {
        ParsePaired(rest);
        assert p.segments[1..] == Parse(rest).segments;
      } else if n <= |rest| {
        ParsePaired(rest[n..]);
        assert p.segments[2..] == Parse(rest[n..]).segments;
      }
    }
  }

  /** What one call of `deal_tcp_msg` handles: everything up to and including the first kernel frame. */
  function Batch(frames: seq<Frame>): (batch: seq<Frame>)
    ensures batch <= frames
  {
    if frames == [] then [] else [frames[0]] + if frames[0].Kernel() then [] else Batch(frames[1..])
  }

  predicate HasKernel(frames: seq<Frame>) {
    exists i :: 0 <= i < |frames| && frames[i].Kernel()
  }

  /** A call stops early exactly at a kernel frame, which is then the last it handled. */
  lemma {:induction false} BatchShape(frames: seq<Frame>)
    ensures HasKernel(frames) ==> Batch(frames) != [] && Batch(frames)[|Batch(frames)| - 1].Kernel()
    ensures forall i :: 0 <= i < |Batch(frames)| - 1 ==> !frames[i].Kernel()
    ensures !HasKernel(frames) ==> Batch(frames) == frames
  {
    if frames != [] && !frames[0].Kernel() {
      BatchShape(frames[1..]);
      assert forall i :: 0 < i < |frames| ==> frames[i] == frames[1..][i - 1];
    }
  }

  /** It handles everything up to and including the first frame with a code of at most 15, and all if there is none. */
  lemma BatchStops(frames: seq<Frame>)
    ensures forall n ::
      0 <= n < |frames| && frames[n].code <= 15 && (forall i :: 0 <= i < n ==> frames[i].code > 15) ==>
      Batch(frames) == frames[..n + 1]
    ensures (forall i :: 0 <= i < |frames| ==> frames[i].code > 15) ==> Batch(frames) == frames
  {
    forall n | 0 <= n < |frames| && frames[n].code <= 15 && forall i :: 0 <= i < n ==> frames[i].code > 15
      ensures Batch(frames) == frames[..n + 1]
    {
      BatchIs(frames, n);
    }
    if forall i :: 0 <= i < |frames| ==> frames[i].code > 15 {
      BatchIs(frames, |frames|);
    }
  }

  predicate EndsInKernel(batch: seq<Frame>) {
    batch != [] && batch[|batch| - 1].Kernel()
  }

  lemma BatchEnds(frames: seq<Frame>)
    ensures EndsInKernel(Batch(frames)) <==> HasKernel(frames)
  {
    BatchShape(frames);
  }

  predicate NoneKernel(frames: seq<Frame>) {
    forall i :: 0 <= i < |frames| ==> !frames[i].Kernel()
  }

  /** The batch ends at the first kernel frame, or takes everything. */
  lemma {:induction false} BatchIs(frames: seq<Frame>, n: nat)
    requires n <= |frames| && forall i :: 0 <= i < n ==> !frames[i].Kernel()
    ensures n < |frames| && frames[n].Kernel() ==> Batch(frames) == frames[..n + 1] && HasKernel(frames)
    ensures n == |frames| ==> Batch(frames) == frames && !HasKernel(frames)
  {
    if n > 0 {
      BatchIs(frames[1..], n - 1);
      assert n < |frames| ==> frames[1..][n - 1] == frames[n] && frames[..n + 1] == [frames[0]] + frames[1..][..n];
    } else if frames != [] {
      assert frames[..1] == [frames[0]];
    }
  }

  /** The bytes a peer sends for a list of frames. */
  function Encode(frames: seq<Frame>): Segment {
    if frames == [] then [] else frames[0].Head() + frames[0].data + Encode(frames[1..])
  }

  function AllSegments(frames: seq<Frame>): seq<Segment> {
    if frames == [] then [] else frames[0].Segments() + AllSegments(frames[1..])
  }

  lemma ParseOne(f: Frame, rest: Segment)
    requires f.Sendable()
    ensures Parse(f.Head() + f.data + rest) == After(f.Segments(), HEAD_SIZE + |f.data|, Parse(rest))
  {
    var s := f.Head() + f.data + rest;
    HeadRoundTrip(f);
    assert s[..HEAD_SIZE] == f.Head() && s[HEAD_SIZE..] == f.data + rest;
    assert (f.data + rest)[..|f.data|] == f.data && (f.data + rest)[|f.data|..] == rest;
  }

  lemma CompleteOne(f: Frame, more: seq<Segment>)
    requires f.Sendable()
    ensures Complete(f.Segments() + more) == [f] + Complete(more)
  {
    var all := f.Segments() + more;
    HeadRoundTrip(f);
    assert all[0] == f.Head();
    assert if f.data == [] then all[1..] == more else all[1] == f.data && all[2..] == more;
  }

  lemma AfterAfter(a: seq<Segment>, m: nat, b: seq<Segment>, n: nat, p: Progress)
    ensures After(a, m, After(b, n, p)) == After(a + b, m + n, p)
  {
  }

  /** Any list of frames survives the wire: parsing what was sent gives its segments, and those its frames. */
  lemma {:induction false} RoundTrip(frames: seq<Frame>, tail: Segment)
    requires forall f :: f in frames ==> f.Sendable()
    ensures Parse(Encode(frames) + tail) == After(AllSegments(frames), |Encode(frames)|, Parse(tail))
    ensures Complete(AllSegments(frames)) == frames
  {
    if frames == [] {
      assert Encode(frames) + tail == tail;
      assert After([], 0, Parse(tail)) == Parse(tail);
    } else {
      var f, rest := frames[0], Encode(frames[1..]) + tail;
      assert Encode(frames) + tail == f.Head() + f.data + rest;
      RoundTrip(frames[1..], tail);
      ParseOne(f, rest);
      CompleteOne(f, AllSegments(frames[1..]));
      AfterAfter(f.Segments(), HEAD_SIZE + |f.data|, AllSegments(frames[1..]), |Encode(frames[1..])|, Parse(tail));
    }
  }

  /** However the bytes of some frames are cut into receives, exactly those frames come out and nothing is left over. */
  lemma FramesSurviveChunking(frames: seq<Frame>, chunks: seq<Segment>)
    requires forall f :: f in frames ==> f.Sendable()
    requires Flatten(chunks) == Encode(frames)
    ensures FeedAll(START, 0, chunks) == Reading(AllSegments(frames), Head, HEAD_SIZE, [])
    ensures Complete(FeedAll(START, 0, chunks).segments) == frames
  {
    RoundTrip(frames, []);
    ChunkingIndependent([], chunks);
    assert [] + Flatten(chunks) == Encode(frames) + [];
    assert AllSegments(frames) + [] == AllSegments(frames);
  }

  /** A part of a frame yields no frame. */
  lemma CutShort(f: Frame, n: nat)
    requires f.Sendable() && n < HEAD_SIZE + |f.data|
    ensures var p := Parse((f.Head() + f.data)[..n]); p.Reading? && Complete(p.segments) == []
  {
    HeadRoundTrip(f);
    var s := (f.Head() + f.data)[..n];
    if n >= HEAD_SIZE { assert s[..HEAD_SIZE] == f.Head(); }
  }

  lemma CutAt(s: Segment, t: Segment, first: Segment, more: Segment)
    requires s + t == first + more
    ensures if |s| < |first| then s == first[..|s|] else s == first + s[|first|..] && s[|first|..] + t == more
  {
    assert (s + t)[..|first|] == first && (s + t)[|first|..] == more;
  }

  lemma FirstWhole(f: Frame, more: seq<Frame>, rest: Segment)
    requires f.Sendable() && Parse(rest).Reading? && Complete(Parse(rest).segments) <= more
    ensures var p, k := Parse(f.Head() + f.data + rest), |Complete(Parse(rest).segments)|;
      && p.Reading? && p.part == Parse(rest).part && p.partial == Parse(rest).partial
      && Complete(p.segments) == ([f] + more)[..1 + k]
  {
    ParseOne(f, rest);
    CompleteOne(f, Parse(rest).segments);
  }

  /** How many of some frames have arrived whole when `n` bytes have. */
  function Whole(frames: seq<Frame>, n: nat): (k: nat)
    ensures k <= |frames|
  {
    if frames == [] || n < HEAD_SIZE + |frames[0].data| then 0
    else 1 + Whole(frames[1..], n - HEAD_SIZE - |frames[0].data|)
  }

  /** A prefix of what was sent is never rejected, and yields the frames that are in it whole. */
  lemma {:induction false} PrefixFrames(frames: seq<Frame>, s: Segment, t: Segment)
    requires forall f :: f in frames ==> f.Sendable()
    requires s + t == Encode(frames)
    ensures Parse(s).Reading? && Complete(Parse(s).segments) == frames[..Whole(frames, |s|)]
    ensures t == [] ==> Whole(frames, |s|) == |frames| && Parse(s).part == Head && Parse(s).partial == []
  {
    if frames == [] {
      assert s == [];
    } else {
      var f := frames[0];
      var first := f.Head() + f.data;
      HeadRoundTrip(f);
      CutAt(s, t, first, Encode(frames[1..]));
      if |s| < |first| {
        CutShort(f, |s|);
      } else {
        var rest := s[|first|..];
        PrefixFrames(frames[1..], rest, t);
        FirstWhole(f, frames[1..], rest);
        assert frames == [f] + frames[1..];
      }
    }
  }

  /** A head is exactly what is sent for the frame it was read as. */
  lemma HeadExact(head: Segment, data: Segment)
    requires |head| == HEAD_SIZE && |data| == DataSize(head)
    ensures ToFrame(head, data).Head() == head
  {
    LittleEndianExact(head[..4]);
    LittleEndianExact(head[4..6]);
    LittleEndianExact(head[6..]);
    assert head == head[..4] + head[4..6] + head[6..];
  }

  /** The head that announced the body being received, if one is. */
  function Pending(segments: seq<Segment>, part: Part): Segment {
    if part == Head || segments == [] then [] else segments[|segments| - 1]
  }

  lemma EncodeOne(f: Frame, more: seq<Frame>)
    ensures Encode([f] + more) == f.Head() + f.data + Encode(more)
  {
    assert ([f] + more)[1..] == more;
  }

  lemma Regroup(head: Segment, data: Segment, encoded: Segment, pending: Segment)
    ensures head + (data + (encoded + pending)) == head + data + encoded + pending
    ensures head + data + (encoded + pending) == head + data + encoded + pending
  {
  }

  /** Sending the complete frames again gives the bytes they came in. */
  lemma {:induction false} CompleteExact(segments: seq<Segment>, part: Part)
    requires Paired(segments, part)
    ensures Flatten(segments) == Encode(Complete(segments)) + Pending(segments, part)
  {
    if segments != [] {
      var head := segments[0];
      if DataSize(head) > 0 && |segments| == 1 {
        FlattenOne(head);
        assert segments == [head] && Encode([]) + head == head;
      } else {
        var k := if DataSize(head) == 0 then 1 else 2;
        var data, rest := if k == 1 then [] else segments[1], segments[k..];
        HeadExact(head, data);
        CompleteExact(rest, part);
        EncodeOne(ToFrame(head, data), Complete(rest));
        assert k == 2 ==> segments[1..][1..] == rest;
        assert k == 1 ==> [] + Flatten(rest) == Flatten(rest);
        assert Flatten(segments) == head + (data + Flatten(rest));
        Regroup(head, data, Encode(Complete(rest)), Pending(rest, part));
        assert Pending(rest, part) == Pending(segments, part);
      }
    }
  }

  /** The segments of the frame at the front of a stream. */
  function FirstSegments(s: Segment, n: nat): seq<Segment>
    requires HEAD_SIZE + n <= |s|
  {
    if n == 0 then [s[..HEAD_SIZE]] else [s[..HEAD_SIZE], s[HEAD_SIZE..][..n]]
  }

  lemma FirstBytes(s: Segment, n: nat)
    requires HEAD_SIZE + n <= |s|
    ensures Flatten(FirstSegments(s, n)) == s[..HEAD_SIZE + n]
  {
    FlattenOne(s[..HEAD_SIZE]);
    FlattenOne(s[HEAD_SIZE..][..n]);
    assert n > 0 ==> FirstSegments(s, n)[1..] == [s[HEAD_SIZE..][..n]];
  }

  /** Every byte is in a completed segment or in the one being read; a rejected head ends at the offset. */
  predicate Exact(s: Segment, p: Progress) {
    if p.Reading? then Flatten(p.segments) + p.partial == s
    else
      && HEAD_SIZE <= p.offset <= |s|
      && Flatten(p.segments) == s[..p.offset - HEAD_SIZE]
      && DataSize(s[p.offset - HEAD_SIZE..p.offset]) > MAX_CMDDATA_LEN
  }

  /** Some segments in front of such a stream. */
  lemma ExactBehind(s: Segment, first: seq<Segment>, m: nat, q: Progress)
    requires m <= |s| && Flatten(first) == s[..m] && Exact(s[m..], q)
    ensures Exact(s, After(first, m, q))
  {
    FlattenAppend(first, q.segments);
    if q.Reading? {
      Behind(s, m, Flatten(q.segments), q.partial);
    } else {
      BehindCut(s, m, q.offset - HEAD_SIZE);
    }
  }

  lemma {:induction false} ParseExact(s: Segment)
    ensures Exact(s, Parse(s))
    decreases |s|
  {
    if |s| >= HEAD_SIZE {
      var head, rest := s[..HEAD_SIZE], s[HEAD_SIZE..];
      var n := DataSize(head);
      if n <= MAX_CMDDATA_LEN && n <= |rest| {
        assert rest[n..] == s[HEAD_SIZE + n..];
        ParseExact(rest[n..]);
        FirstBytes(s, n);
        ExactBehind(s, FirstSegments(s, n), HEAD_SIZE + n, Parse(rest[n..]));
        assert n == 0 ==> rest[n..] == rest;
      } else {
        FlattenOne(head);
      }
    }
  }

  lemma Behind(s: Segment, n: nat, flat: Segment, partial: Segment)
    requires n <= |s| && flat + partial == s[n..]
    ensures s[..n] + flat + partial == s
  {
    assert s[..n] + flat + partial == s[..n] + (flat + partial);
  }

  lemma BehindCut(s: Segment, n: nat, k: nat)
    requires n + k + HEAD_SIZE <= |s|
    ensures s[..n] + s[n..][..k] == s[..n + k]
    ensures s[n..][k..k + HEAD_SIZE] == s[n + k..n + k + HEAD_SIZE]
  {
  }

  /** The converse of the round trip: any stream that is not rejected is the encoding of its frames and what is open. */
  lemma Lossless(s: Segment)
    requires Parse(s).Reading?
    ensures var p := Parse(s); s == Encode(Complete(p.segments)) + Pending(p.segments, p.part) + p.partial
  {
    ParseExact(s);
    ParsePaired(s);
    CompleteExact(Parse(s).segments, Parse(s).part);
  }
}
