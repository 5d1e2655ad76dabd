/** Runs of a client on which receiving does not work as intended, each ordinary in itself. */
module FramingLimits {
  import opened Bytes
  import opened Folding
  import opened Frames
  import opened Receives
  import opened Framing

  lemma {:induction false} EncodeMore(frames: seq<Frame>, f: Frame)
    ensures Encode(frames + [f]) == Encode(frames) + Encode([f])
  {
    if frames == [] {
      assert frames + [f] == [f];
    } else {
      var first, rest := frames[0], frames[1..];
      EncodeMore(rest, f);
      EncodeOne(first, rest);
      EncodeOne(first, rest + [f]);
      assert frames == [first] + rest && frames + [f] == [first] + (rest + [f]);
      Regroup(first.Head(), first.data, Encode(rest), Encode([f]));
    }
  }

  lemma EncodedLength(f: Frame)
    ensures |Encode([f])| == HEAD_SIZE + |f.data|
  {
    EncodeOne(f, []);
    assert [f] + [] == [f];
  }

  /** What has been received of some frames sent, when that is all of them. */
  lemma WholeFrames(c: Client, frames: seq<Frame>)
    requires c.InStep() && c.consumed == Encode(frames) && forall f :: f in frames ==> f.Sendable()
    ensures c.status == Head && c.need == HEAD_SIZE && c.read == 0
    ensures c.ledger.handled + c.ledger.waiting == frames
    ensures c.ledger.waiting == [] <==> c.inb.Contents() == []
    ensures c.inb.len == 0 <==> c.inb.Contents() == []
  {
    RoundTrip(frames, []);
    assert Encode(frames) + [] == Encode(frames) && AllSegments(frames) + [] == AllSegments(frames);
    assert Unfold(Ledgers, 0);
    KeptAwaits(c.consumed, c.inb.Contents(), c.ledger);
    LengthTells(c.inb.Contents(), Parse(c.consumed).segments, Head, c.ledger, [], HEAD_SIZE);
    c.inb.LengthIsExact();
  }

  /** A frame that fits behind `write` is received there, and the client is ready for the next. */
  method Arrive(c: Client, ghost frames: seq<Frame>, f: Frame)
    requires c.InStep() && c.consumed == Encode(frames)
    requires f.Sendable() && forall g :: g in frames ==> g.Sendable()
    requires c.Straight(c.inb.read, c.inb.write, c.inb.size)
    requires c.inb.write + HEAD_SIZE + |f.data| < c.inb.size
    modifies c, c.inb, c.inb.buf, c.sock
    ensures c.inb == old(c.inb) && c.sock == old(c.sock) && (c.inb.buf == old(c.inb.buf) || fresh(c.inb.buf))
    ensures c.InStep() && c.consumed == Encode(frames + [f]) && c.ledger.handled == old(c.ledger.handled)
    ensures c.Ended(old(c.inb.read), old(c.inb.write) + HEAD_SIZE + |f.data|, old(c.inb.size))
  {
    var bytes := Encode([f]);
    EncodeMore(frames, f);
    EncodedLength(f);
    c.sock.stream, c.sock.events := bytes, seq(|bytes| + 1, _ => Available(|bytes|));
    var res := c.TcpRead();
    PrefixFrames(frames + [f], c.consumed, c.sock.stream);
    assert c.consumed + [] == c.consumed;
    WholeFrames(c, frames + [f]);
  }

  const FIRST := Frame(16, 0, seq(92, _ => 0))
  const SECOND := Frame(16, 0, seq(145, _ => 0))
  const THIRD := Frame(16, 0, [])

  lemma BatchOfOne()
    ensures Batch([FIRST]) == [FIRST]
  {
    BatchStops([FIRST]);
  }

  /** A new client receives a frame of 8 + 92 bytes. */
  method FirstArrives() returns (c: Client)
    ensures fresh(c) && fresh(c.inb) && fresh(c.inb.buf) && fresh(c.sock)
    ensures c.InStep() && c.consumed == Encode([FIRST]) && c.ledger.handled == [] && c.ledger.waiting == [FIRST]
    ensures c.Straight(c.inb.read, 100, CLI_BUF_ORIGIN_SIZE)
  {
    c := new Client();
    c.Accept([], []);
    Arrive(c, [], FIRST);
    WholeFrames(c, [FIRST]);
  }

  /** It is dispatched. */
  method FirstFrame() returns (c: Client)
    ensures fresh(c) && fresh(c.inb) && fresh(c.inb.buf) && fresh(c.sock)
    ensures c.InStep() && c.consumed == Encode([FIRST]) && c.ledger.handled == [FIRST]
    ensures c.Straight(c.inb.read, 100, CLI_BUF_ORIGIN_SIZE) && c.inb.read >= HEAD_SIZE
  {
    c := FirstArrives();
    var out := c.DealTcpMsg();
    BatchOfOne();
    WholeFrames(c, [FIRST]);
  }

  /**
   Then one of 8 + 145 comes. Only three bytes are left behind it in the 256 of the buffer, so room for the next head
   will be taken at index 0.
   */
  method TwoFrames() returns (c: Client)
    ensures fresh(c) && fresh(c.inb) && fresh(c.inb.buf) && fresh(c.sock)
    ensures c.InStep() && c.consumed == Encode([FIRST, SECOND]) && c.WillPass() && c.need - c.read == HEAD_SIZE
  {
    c := FirstFrame();
    Arrive(c, [FIRST], SECOND);
    WholeFrames(c, [FIRST, SECOND]);
  }

  /** When the third frame comes, the guide looks for its head at index 253. */
  method HeadStrays() returns (c: Client)
    ensures c.astray && c.consumed + c.sock.stream == Encode([FIRST, SECOND, THIRD])
  {
    c := TwoFrames();
    EncodeMore([FIRST, SECOND], THIRD);
    EncodedLength(THIRD);
    c.sock.stream, c.sock.events := Encode([THIRD]), seq(9, _ => Available(8));
    var res := c.TcpRead();
  }

  /** A head announcing one byte has been received and its body has not. */
  method HeadOnly() returns (c: Client)
    ensures fresh(c) && fresh(c.inb) && c.InStep() && c.consumed == LONE_HEAD
  {
    c := new Client();
    c.Accept(LONE_HEAD, seq(9, _ => Available(8)));
    ParseLoneHead();
    var res := c.TcpRead();
    NotRejected(c.consumed, c.sock.stream);
    assert res == 0 ==> c.consumed + c.sock.stream == c.consumed;
  }

  /** Dispatching now makes `need` 9 instead of 1. */
  method DispatchInsideBody() returns (c: Client)
    ensures c.Disturbed() && c.need == 9 && Parse(c.consumed) == Reading([LONE_HEAD], Data, 1, [])
  {
    c := HeadOnly();
    ParseLoneHead();
    NothingWaits(c.inb.Contents(), c.ledger);
    var batch := c.DealTcpMsg();
  }

  const LONE_HEAD: Segment := [1, 0, 0, 0, 16, 0, 0, 0]

  lemma ParseLoneHead()
    ensures Parse(LONE_HEAD) == Reading([LONE_HEAD], Data, 1, [])
    ensures Parse([]) == Reading([], Head, HEAD_SIZE, [])
  {
    var s := LONE_HEAD[..4];
    assert s == [1, 0, 0, 0];
    assert s[1..] == [0, 0, 0] && s[1..][1..] == [0, 0] && s[1..][1..][1..] == [0];
    assert FromLittleEndian([0]) == 0;
    assert FromLittleEndian([0, 0]) == 0 && FromLittleEndian([0, 0, 0]) == 0;
    assert LONE_HEAD[..HEAD_SIZE] == LONE_HEAD && LONE_HEAD[HEAD_SIZE..] == [];
  }

  lemma NotRejected(s: Segment, t: Segment)
    requires s + t == LONE_HEAD
    ensures Parse(s).Reading?
  {
    ParseLoneHead();
    if Parse(s).Rejected? { RejectedForGood(s, t); }
  }

  lemma NothingWaits(queued: seq<Segment>, l: Ledger)
    requires Kept(queued, [LONE_HEAD], Data, l)
    ensures !HasKernel(l.waiting)
  {
    assert Unfold(Ledgers, 0);
    ParseLoneHead();
  }
}
