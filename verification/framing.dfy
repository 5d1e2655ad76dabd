/**
 Receiving and dispatching on one TCP client: `read_data` and `tcp_read` (epollet/epollet.c), `tcp_guide`, `verify`
 and `deal_tcp_msg` (proto/proto.c).
 */
module Framing {
  import opened Bytes
  import opened Folding
  import opened GapRing
  import opened Frames
  import opened Receives

  datatype Verdict = Ready | NotYet | TooBig

  /** The segments dispatch has read, the frames it has handled, and those that wait for it. */
  datatype Ledger = Ledger(retired: seq<Segment>, handled: seq<Frame>, waiting: seq<Frame>)

  /** Of the segments `all`, those `queued` wait for dispatch, and no frame is lost or out of order. */
  ghost predicate Kept(queued: seq<Segment>, all: seq<Segment>, part: Part, l: Ledger) {
    forall i {:trigger Unfold(Ledgers, i)} :: Unfold(Ledgers, i) ==>
      && Paired(queued, part)
      && l.retired + queued == all
      && l.waiting == Complete(queued)
      && l.handled + l.waiting == Complete(all)
  }

  lemma KeptHead(queued: seq<Segment>, all: seq<Segment>, l: Ledger, head: Segment)
    requires Kept(queued, all, Head, l) && Paired(all, Head)
    requires |head| == HEAD_SIZE && DataSize(head) <= MAX_CMDDATA_LEN
    ensures if DataSize(head) == 0
      then Kept(queued + [head], all + [head], Head, l.(waiting := l.waiting + [ToFrame(head, [])]))
      else Kept(queued + [head], all + [head], Data, l)
  {
    assert Unfold(Ledgers, 0);
    PairedHead(queued, head);
    PairedHead(all, head);
    assert l.retired + (queued + [head]) == all + [head];
  }

  lemma KeptBody(queued: seq<Segment>, all: seq<Segment>, l: Ledger, body: Segment)
    requires Kept(queued, all, Data, l) && Paired(all, Data)
    requires all != [] && |all[|all| - 1]| == HEAD_SIZE && |body| == DataSize(all[|all| - 1])
    ensures var head := all[|all| - 1];
      Kept(queued + [body], all + [body], Head, l.(waiting := l.waiting + [ToFrame(head, body)]))
  {
    assert Unfold(Ledgers, 0);
    PairedBody(queued, body);
    PairedBody(all, body);
    assert all[|all| - 1] == queued[|queued| - 1];
    assert l.retired + (queued + [body]) == all + [body];
  }

  /** `p'` is what `tcp_guide` makes of `p` once `got` has arrived. */
  ghost predicate Steps(p: Progress, received: nat, got: Segment, p': Progress) {
    p.Reading? && forall i {:trigger Unfold(Receiving, i)} :: Unfold(Receiving, i) ==>
      Expecting(p) && |got| <= Wanted(p) && p' == Advance(p, received, got)
  }

  /** A head that was just received. */
  function LastHead(received: Segment): (head: Segment)
    ensures |head| == HEAD_SIZE
  {
    if |received| < HEAD_SIZE then seq(HEAD_SIZE, _ => 0) else received[|received| - HEAD_SIZE..]
  }

  /** What is being read are the last bytes received. */
  lemma LastBytes(before: Segment, got: Segment)
    requires Parse(before).Reading?
    ensures var last := Parse(before).partial + got;
      |last| == HEAD_SIZE ==> LastHead(before + got) == last
  {
    ParseExact(before);
    var p := Parse(before);
    assert before + got == Flatten(p.segments) + (p.partial + got);
  }

  lemma Stepped(p: Progress, received: nat, got: Segment) returns (p': Progress)
    requires p.Reading? && Expecting(p) && |got| <= Wanted(p)
    ensures Steps(p, received, got, p')
  {
    p' := Advance(p, received, got);
  }

  /** The segment that `got` completes, if it does. */
  function Completes(p: Progress, got: Segment): seq<Segment>
    requires p.Reading?
  {
    if |p.partial| + |got| < p.need then [] else [p.partial + got]
  }

  /** Receiving leads where the one-shot parser is, and adds at most one frame to those waiting. */
  lemma KeptAdvance(before: Segment, got: Segment, p': Progress, queued: seq<Segment>, l: Ledger) returns (l': Ledger)
    requires Steps(Parse(before), |before|, got, p')
    requires Kept(queued, Parse(before).segments, Parse(before).part, l)
    ensures p' == Parse(before + got)
    ensures p'.Reading? ==> Kept(queued + Completes(Parse(before), got), p'.segments, p'.part, l')
    ensures l'.handled == l.handled
  {
    assert Unfold(Receiving, 0) && Unfold(Ledgers, 0);
    AdvanceIsParse(before, got);
    var p := Parse(before);
    var part := p.partial + got;
    l' := l.(waiting := Complete(queued + Completes(p, got)));
    ParsePaired(before);
    if p'.Reading? {
      if |part| < p.need {
        assert queued + [] == queued;
      } else if p.part == Head {
        KeptHead(queued, p.segments, l, part);
      } else {
        KeptBody(queued, p.segments, l, part);
      }
    }
  }

  /** While a body is awaited, the head announcing it is the newest segment. */
  ghost predicate Awaiting(queued: seq<Segment>, part: Part, need: nat) {
    part == Data ==>
      && queued != []
      && |queued[|queued| - 1]| == HEAD_SIZE
      && DataSize(queued[|queued| - 1]) == need
  }

  lemma KeptAwaits(consumed: Segment, queued: seq<Segment>, l: Ledger)
    requires Parse(consumed).Reading?
    requires Kept(queued, Parse(consumed).segments, Parse(consumed).part, l)
    ensures Awaiting(queued, Parse(consumed).part, Parse(consumed).need)
  {
    assert Unfold(Ledgers, 0);
    var all := Parse(consumed).segments;
    ParsePaired(consumed);
    if Parse(consumed).part == Data {
      assert all[|all| - 1] == queued[|queued| - 1];
    }
  }

  /** The lengths `verify` compares tell whether the oldest frame has arrived. */
  lemma LengthTells(queued: seq<Segment>, all: seq<Segment>, part: Part, l: Ledger, open: Segment, need: nat)
    requires Kept(queued, all, part, l) && Awaiting(queued, part, need)
    requires |open| < need && (part == Head ==> need == HEAD_SIZE)
    ensures var len := |Flatten(queued)| + |open|;
      && (len < HEAD_SIZE <==> queued == [])
      && (queued == [] ==> part == Head && l.waiting == [])
      && (queued != [] ==>
           && |queued[0]| == HEAD_SIZE && DataSize(queued[0]) <= MAX_CMDDATA_LEN
           && (l.waiting != [] <==> HEAD_SIZE + DataSize(queued[0]) <= len)
           && (l.waiting == [] ==> part == Data && DataSize(queued[0]) == need))
  {
    assert Unfold(Ledgers, 0);
    if queued != [] {
      assert Flatten(queued) == queued[0] + Flatten(queued[1..]);
      if |queued| > 1 {
        assert Flatten(queued[1..]) == queued[1] + Flatten(queued[1..][1..]);
      }
    }
  }

  /** The oldest frame's segments. */
  function Front(queued: seq<Segment>): nat
    requires queued != [] && |queued[0]| == HEAD_SIZE
  {
    if DataSize(queued[0]) == 0 then 1 else 2
  }

  lemma KeptTake(queued: seq<Segment>, all: seq<Segment>, part: Part, need: nat, l: Ledger)
    requires Kept(queued, all, part, l) && Awaiting(queued, part, need) && l.waiting != []
    ensures queued != [] && |queued[0]| == HEAD_SIZE && Front(queued) <= |queued|
    ensures DataSize(queued[0]) > 0 ==> |queued[1]| == DataSize(queued[0])
    ensures var k := Front(queued);
      && l.waiting[0] == ToFrame(queued[0], if k == 1 then [] else queued[1])
      && Kept(queued[k..], all, part, Ledger(l.retired + queued[..k], l.handled + l.waiting[..1], l.waiting[1..]))
      && Awaiting(queued[k..], part, need)
  {
    assert Unfold(Ledgers, 0);
    var k := Front(queued);
    assert l.retired + queued[..k] + queued[k..] == all;
    assert l.handled + l.waiting[..1] + l.waiting[1..] == l.handled + l.waiting;
  }

  /**
   What `tcp_guide` does: go on, kick the client out, take a wrong size for that of the head, or read past the end of
   the buffer.
   */
  datatype Guidance = Fine | Kicked | Misled | Lost

  /** How the size of a head is found where `seek` points: as it is, or as old bytes have it, or not in the buffer. */
  datatype Course = OnCourse | Misread | Past

  /** The size of a size in a head. */
  const SIZE_SIZE: nat := 4

  function SizeAt(b: seq<Byte>, i: nat): nat
    requires i + SIZE_SIZE <= |b|
  {
    FromLittleEndian(b[i..i + SIZE_SIZE])
  }

  lemma HeadAt(b: seq<Byte>, i: nat, head: Segment)
    requires |head| == HEAD_SIZE && i + HEAD_SIZE <= |b| && b[i..i + HEAD_SIZE] == head
    ensures SizeAt(b, i) == DataSize(head)
  {
    assert b[i..i + HEAD_SIZE][..SIZE_SIZE] == b[i..i + SIZE_SIZE];
  }

  /** Bytes that agree from `from` on give the same sizes there. */
  lemma SameSize(b: seq<Byte>, c: seq<Byte>, from: nat, i: nat)
    requires from <= i && i + SIZE_SIZE <= |b| == |c| && b[from..] == c[from..]
    ensures SizeAt(b, i) == SizeAt(c, i)
  {
    assert b[from..][i - from..i - from + SIZE_SIZE] == b[i..i + SIZE_SIZE];
    assert c[from..][i - from..i - from + SIZE_SIZE] == c[i..i + SIZE_SIZE];
  }

  /** The guide does the same for both sizes. */
  predicate SameVerdict(found: nat, size: nat) {
    found == size || (found > MAX_CMDDATA_LEN && size > MAX_CMDDATA_LEN)
  }

  /** How the size of `head` is found at `seek` in the bytes `b`, where it is unless `stray`. */
  function CourseOf(stray: bool, b: seq<Byte>, seek: nat, head: Segment): Course
    requires |head| == HEAD_SIZE
  {
    if !stray then OnCourse
    else if seek + SIZE_SIZE > |b| then Past
    else if SameVerdict(SizeAt(b, seek), DataSize(head)) then OnCourse
    else Misread
  }

  /** `c` is how the size of `head` is found, if that was just received in full. */
  ghost predicate Tells(c: Course, done: bool, stray: bool, b: seq<Byte>, seek: nat, head: Segment) {
    (!done || !stray ==> c == OnCourse) &&
    forall i {:trigger Unfold(Finding, i)} :: Unfold(Finding, i) ==>
      c == if done && |head| == HEAD_SIZE then CourseOf(stray, b, seek, head) else OnCourse
  }

  lemma ToldPast(c: Course, b: seq<Byte>, seek: nat, head: Segment)
    requires Tells(c, true, true, b, seek, head) && |head| == HEAD_SIZE && seek + SIZE_SIZE > |b|
    ensures c == Past
  {
    assert Unfold(Finding, 0);
  }

  /** What the guide decides on a size. */
  datatype Decision = Kick | Read(part: Part, need: nat)

  function DecisionOn(size: nat): Decision {
    if size > MAX_CMDDATA_LEN then Kick else if size > 0 then Read(Data, size) else Read(Head, HEAD_SIZE)
  }

  /** No result of the code: the guide did not find the size of a head, and what follows is not modelled. */
  const ASTRAY := -100

  const PARAM_ERROR := -2

  /** The size a client's buffers start with. */
  const CLI_BUF_ORIGIN_SIZE := 256

  /** The receive completes a head. */
  predicate HeadDone(p: Progress, n: nat) {
    p.Reading? && p.part == Head && |p.partial| + n == p.need
  }

  /** What a client is reading, and the indices of its buffer. */
  datatype Place = Place(
    status: Part, need: nat, read: nat, from: nat, write: nat, seek: nat, len: nat, size: nat)
  {
    predicate Wrapped() { len > 0 && from >= write }

    predicate Strayed() { status == Head && seek + read != write }

    predicate WillStray() {
      || Strayed()
      || (status == Head && read == 0 && !Wrapped() && len > 0 && write + need > size && from >= need)
    }

    /** Room for the segment that comes next lies right behind `write`. */
    predicate Plain() { read == 0 && !Wrapped() && write + need <= size }

    /** Nothing is read of the next segment, which will lie right behind `write` unless that is too near the end. */
    predicate Straight(from: nat, at: nat, size: nat) {
      !Wrapped() && this.from == from && write == at && this.size == size && read == 0 && !Strayed()
    }

    /** Received in full up to here, and nothing of the next head: when that will stray. */
    predicate Ended(from: nat, at: nat, size: nat) {
      if at + HEAD_SIZE <= size then Straight(from, at, size) && !WillStray()
      else
        && (WillStray() <==> len > 0 && from >= HEAD_SIZE)
        && (WillStray() ==> seek == at && this.size == size)
    }

    /** In one piece, with `write` moved on by `n` to `q`. */
    predicate Shifted(q: Place, n: nat) {
      !q.Wrapped() && q.write == write + n && q.size == size && q.from == from
    }
  }

  /** From `p` to `q` by reserving room for a segment, if nothing of it was read. */
  ghost predicate Prepared(p: Place, q: Place) {
    forall i {:trigger Unfold(Placing, i)} :: Unfold(Placing, i) ==>
      && q.status == p.status && q.need == p.need && q.read == p.read && q.len == p.len
      && q.Strayed() == q.WillStray() == p.WillStray()
      && (p.Plain() ==> p.Shifted(q, 0))
      && (p.WillStray() ==> q.seek == p.seek && q.size == p.size)
  }

  /** From `p` to `q` by counting `n` bytes and asking the guide. */
  ghost predicate Absorbed(p: Place, q: Place, n: nat, res: int) {
    forall i {:trigger Unfold(Placing, i)} :: Unfold(Placing, i) ==>
      && q.size == p.size && q.from == p.from && q.len == p.len + n
      && q.write == (if p.write + n == p.size then 0 else p.write + n)
      && (res == 0 ==>
           q.status == p.status && q.need == p.need && q.read == p.read + n && q.seek == p.seek
           && q.Strayed() == p.Strayed())
      && (res > 0 ==> q.read == 0 && !q.Strayed())
  }

  /** From `p` to `q` by a `read_data` that got `n` bytes. */
  ghost predicate Went(p: Place, q: Place, n: nat, res: int) {
    forall i {:trigger Unfold(Placing, i)} :: Unfold(Placing, i) ==>
      && (res >= 0 ==> q.len == p.len + n)
      && (res >= 0 && p.Plain() && p.write + n < p.size ==> p.Shifted(q, n))
      && (res > 0 ==> q.read == 0 && !q.Strayed())
      && (res == 0 ==>
           && q.status == p.status && q.need == p.need && q.read == p.read + n
           && q.Strayed() == q.WillStray() == p.WillStray()
           && (p.WillStray() ==> q.seek == p.seek && q.size == p.size))
  }

  /** What is received of a head that strays does not touch the bytes that its size is looked for in. */
  lemma ToldBefore(c: Course, done: bool, p: Place, q: Place, b: seq<Byte>, b': seq<Byte>, head: Segment)
    requires Prepared(p, q) && Tells(c, done, q.Strayed(), b', q.seek, head)
    requires p.WillStray() ==> q.seek >= HEAD_SIZE && SameFrom(b', b, HEAD_SIZE)
    ensures Tells(c, done, p.WillStray(), b, p.seek, head)
  {
    assert Unfold(Placing, 0) && Unfold(Finding, 0) && Unfold(Tails, 0);
    if p.WillStray() && p.seek + SIZE_SIZE <= |b| {
      SameSize(b, b', HEAD_SIZE, p.seek);
    }
  }

  /** As long as there is room to the end, the buffer is simply filled up, and no head strays. */
  ghost predicate Along(p: Place, q: Place, n: nat, res: int) {
    forall i {:trigger Unfold(Placing, i)} :: Unfold(Placing, i) ==>
      p.Straight(p.from, p.write, p.size) && p.write + n < p.size ==>
        && res != ASTRAY
        && (res > 0 ==> q.Straight(p.from, p.write + n, p.size))
        && (res == 0 && q.status == Head && q.read == 0 ==> q.Ended(p.from, p.write + n, p.size))
  }

  lemma AlongStart(p: Place)
    ensures Along(p, p, 0, 1)
  {
  }

  lemma AlongStep(p: Place, m: nat, q: Place, n: nat, res: int, r: Place)
    requires Along(p, q, m, 1) && Went(q, r, n, res) && n <= q.need && (q.status == Head ==> q.need == HEAD_SIZE)
    requires res > 0 ==> n + q.read == q.need
    requires res == ASTRAY ==> q.WillStray() && n + q.read == q.need
    ensures Along(p, r, m + n, res)
  {
    assert Unfold(Placing, 0);
  }

  lemma AlongAll(p: Place, q: Place, n: nat, res: int)
    requires Along(p, q, n, res) && p.Straight(p.from, p.write, p.size) && p.write + n < p.size
    ensures res != ASTRAY && (res > 0 ==> q.Straight(p.from, p.write + n, p.size))
    ensures res == 0 && q.status == Head && q.read == 0 ==> q.Ended(p.from, p.write + n, p.size)
  {
    assert Unfold(Placing, 0);
  }

  lemma WentBy(p: Place, m: Place, q: Place, n: nat, res: int)
    requires Prepared(p, m) && Absorbed(m, q, n, res) && (n == 0 ==> res <= 0)
    requires m.write < m.size && (!m.Wrapped() ==> m.from <= m.write)
    ensures Went(p, q, n, res)
  {
    assert Unfold(Placing, 0);
  }

  class Client {
    var inb: Buffer
    var sock: Socket
    var need: nat
    var read: nat
    var status: Part
    var isOk: bool
    var closed: bool
    var astray: bool                  // no field of the code: the guide has not found the size of a head

    ghost var consumed: Segment       // every byte received so far
    ghost var ledger: Ledger
    ghost var heads: seq<Course>      // for every head received, how its size was found

    /** The connection stands, and the guide has not lost its way. */
    predicate Open()
      reads this
    {
      !closed && !astray
    }

    /** A head is being received, but not where `seek` points. */
    predicate Strayed()
      reads this, inb
    {
      status == Head && inb.seek + read != inb.write
    }

    /** It is not, or it will not be: the reservation for it is about to start over at index 0. */
    predicate WillStray()
      reads this, inb
    {
      Strayed() || (status == Head && read == 0 && inb.WrapsFor(need))
    }

    /** And fewer bytes than a size takes are left where `seek` points: no head can be found there. */
    predicate WillPass()
      reads this, inb
    {
      WillStray() && inb.seek + SIZE_SIZE > inb.size
    }

    ghost function Where(): Place
      reads this, inb
    {
      Place(status, need, read, inb.read, inb.write, inb.seek, inb.len, inb.size)
    }

    /** A head that strayed starts at index 0, and `seek` points where none fits before the end of the buffer. */
    ghost predicate SeekMarks()
      reads this, inb
    {
      forall i {:trigger Unfold(Marking, i)} :: Unfold(Marking, i) ==>
        && 2 * HEAD_SIZE <= inb.size
        && (Strayed() ==>
             inb.write == read && inb.seek + HEAD_SIZE > inb.size && inb.q.room + read == HEAD_SIZE)
    }

    /** The client is where a parser in state `p` is, except perhaps for `need`. */
    ghost predicate At(p: Progress)
      reads this, inb, inb.buf
    {
      && inb.Valid()
      && Open()
      && p.Reading?
      && status == p.part
      && read == |p.partial|
      && inb.q.open == p.partial
      && (read > 0 ==> inb.q.room + read == p.need)
      && SeekMarks()
    }

    /** The size of every head so far was found. */
    ghost predicate AllFound()
      reads this
    {
      forall c :: c in heads ==> c == OnCourse
    }

    /** The client is where the one-shot parser is after `consumed`, and dispatch has lost nothing. */
    ghost predicate InStep()
      reads this, inb, inb.buf
    {
      && At(Parse(consumed))
      && need == Parse(consumed).need
      && Kept(inb.Contents(), Parse(consumed).segments, status, ledger)
      && AllFound()
    }

    /** As in step, but `need` was overwritten while a body was being received. */
    ghost predicate Disturbed()
      reads this, inb, inb.buf
    {
      && At(Parse(consumed))
      && status == Data && need == Parse(consumed).need + HEAD_SIZE
      && Kept(inb.Contents(), Parse(consumed).segments, status, ledger)
      && AllFound()
    }

    /** As the pool hands a client out: but for `read` and `isOk`, which `client_reset` leaves as they were. */
    ghost predicate Cleared()
      reads this, inb
    {
      && status == Head && need == 0
      && inb.q == Backlog([], [], [], 0) && inb.buf.Length == inb.size >= 2 * HEAD_SIZE
      && inb.read == inb.write == inb.seek == inb.len == inb.gap == inb.end == 0
    }

    /** `client_init`. */
    constructor ()
      ensures Cleared() && read == 0 && !isOk && fresh(inb) && fresh(inb.buf) && inb.size == CLI_BUF_ORIGIN_SIZE
    {
      inb := new Buffer(CLI_BUF_ORIGIN_SIZE);
      sock := new Socket([], []);
      need, read, status, isOk, closed, astray := 0, 0, Head, false, false, false;
      consumed, ledger, heads := [], Ledger([], [], []), [];
    }

    /** What `tcp_accept` does with a client from the pool: a new connection, and `need` set to the size of a head. */
    method Accept(stream: Segment, events: seq<Event>)
      requires Cleared()
      modifies this
      ensures inb == old(inb) && read == old(read) && isOk == old(isOk) && status == Head && need == HEAD_SIZE
      ensures fresh(sock) && sock.stream == stream && sock.events == events
      ensures consumed == [] && ledger == Ledger([], [], []) && heads == []
      ensures Open()
      ensures InStep() <==> read == 0
      ensures read == 0 ==> Straight(0, 0, inb.size) && inb.size >= 2 * HEAD_SIZE
      ensures read > 0 ==> LeftOver()
    {
      sock := new Socket(stream, events);
      need, closed, astray := HEAD_SIZE, false, false;
      consumed, ledger, heads := [], Ledger([], [], []), [];
    }

    /** A client's buffer has room for two heads. */
    lemma Sized()
      requires InStep()
      ensures inb.buf.Length == inb.size >= 2 * HEAD_SIZE
    {
      assert Unfold(Marking, 0);
    }

    /** `client_reset`. */
    method Reset()
      requires inb.buf.Length == inb.size >= 2 * HEAD_SIZE
      modifies this`status, this`need, inb
      ensures Cleared() && inb.buf == old(inb.buf) && inb.size == old(inb.size)
    {
      status, need := Head, 0;
      inb.Reset();
    }

    /** The start of `read_data` for a new segment: reserve room for all of it. */
    method Prepare(ghost p: Progress)
      requires At(p) && need == p.need > 0 && (p.part == Head ==> need == HEAD_SIZE) && read == 0
      modifies inb
      ensures At(p) && inb.q.room == need && inb.Contents() == old(inb.Contents())
      ensures inb.buf == old(inb.buf) || fresh(inb.buf)
      ensures Prepared(old(Where()), Where())
      ensures old(WillStray()) ==> inb.buf == old(inb.buf)
    {
      assert Unfold(Marking, 0);
      var _ := inb.Rectify(need);
    }

    /** Where the segment just completed starts: it ends at `write`, or at the end of the buffer. */
    function SegmentStart(n: nat): int
      reads this, inb
    {
      (if inb.write == 0 then inb.size else inb.write) - n
    }

    /**
     The state `tcp_guide` is called in: `got` has been added to what a parser in state `p` had, and the
     segment is in the buffer if that completed it.
     */
    ghost predicate Arrived(p: Progress, got: Segment, stray: bool)
      requires p.Reading? && Expecting(p) && |got| <= Wanted(p)
      reads this, inb, inb.buf
    {
      && inb.Valid()
      && Open()
      && status == p.part && need == p.need
      && read == |p.partial| + |got|
      && (stray ==> status == Head)
      && 2 * HEAD_SIZE <= inb.size
      && var part := p.partial + got;
      if read < need then
        inb.q.open == part && inb.q.room + read == need && SeekMarks() && Strayed() == stray
      else
        inb.q.open == [] && Completed(part, stray)
    }

    /** A whole segment was just received; `seek` is where its head starts, or where none fits. */
    ghost predicate Completed(part: Segment, stray: bool)
      reads this, inb, inb.buf
    {
      status == Head ==>
        && |part| == HEAD_SIZE
        && var at := SegmentStart(HEAD_SIZE);
        && 0 <= at && at + HEAD_SIZE <= inb.size == inb.buf.Length
        && inb.buf[at..at + HEAD_SIZE] == part
        && if stray then inb.seek + HEAD_SIZE > inb.size else inb.seek == at
    }

    /** `seek_write` for the bytes received, and the count of bytes read. */
    method Deposit(n: nat, ghost p: Progress, ghost got: Segment)
      requires At(p) && Expecting(p) && need == p.need && inb.q.room + read == need && inb.q.room > 0
      requires |got| == n && inb.HoldsAtWrite(got)
      modifies this`read, inb
      ensures |got| <= Wanted(p) && Arrived(p, got, old(Strayed()))
      ensures inb.buf == old(inb.buf) && inb.Contents() == old(inb.Contents()) + Completes(p, got)
      ensures inb.size == old(inb.size) && inb.read == old(inb.read) && inb.len == old(inb.len) + n
      ensures inb.write == (if old(inb.write) + n == inb.size then 0 else old(inb.write) + n)
      ensures inb.seek == old(inb.seek)
    {
      assert Unfold(Marking, 0);
      inb.GotIsContiguous(got);
      read := read + n;
      inb.SeekWrite(n, got);
    }

    /** The client was kicked out, or reads the part it is to read. */
    predicate DecisionTaken(d: Decision)
      reads this
    {
      if d == Kick then closed else !closed && status == d.part && need == d.need
    }

    /** What the first four bytes of a head decide: more than 65000 is too much, and nothing means another head. */
    ghost predicate SizeDecides(head: Segment)
      reads this
    {
      |head| == 8 &&
      var size := head[0] as nat + 256 * head[1] as nat + 65536 * head[2] as nat + 16777216 * head[3] as nat;
      && (closed <==> size > 65000)
      && (0 < size <= 65000 ==> status == Data && need == size)
      && (size == 0 ==> status == Head && need == 8)
    }

    /** Kicked out or not, and reading the same part with the same need, as a parser in state `p` would be. */
    ghost predicate Following(p: Progress)
      reads this
    {
      if p.Rejected? then closed else !closed && status == p.part && need == p.need
    }

    /**
     `tcp_guide`: decide what to read next. It takes the size of a head from the four bytes at `seek`. It does what a
     parser does if and only if it finds the size of the head there, or both are too large. It ends without a return
     statement; that is taken as success.
     */
    method Guide(ghost p: Progress, ghost received: nat, ghost got: Segment, ghost stray: bool)
      returns (g: Guidance, ghost p': Progress, ghost c: Course)
      requires p.Reading? && Expecting(p) && |got| <= Wanted(p) && Arrived(p, got, stray)
      modifies this`need, this`read, this`status, this`isOk, this`closed, this`astray, inb`seek
      ensures Steps(p, received, got, p')
      ensures Tells(c, HeadDone(p, |got|), stray, old(inb.buf[..]), old(inb.seek), p.partial + got)
      ensures (g == Lost <==> c == Past) && (g == Misled <==> c == Misread) && (astray <==> c != OnCourse)
      ensures c == OnCourse ==> if p'.Rejected? then g == Kicked && closed else g == Fine && At(p') && need == p'.need
      ensures c != Past ==> (Following(p') <==> c == OnCourse)
      ensures g == Lost <==> HeadDone(p, |got|) && stray && old(inb.seek) + 4 > old(inb.size)
      ensures HeadDone(p, |got|) && c == OnCourse ==> SizeDecides(p.partial + got)
      ensures |got| < Wanted(p) ==> g == Fine && unchanged(this) && Strayed() == stray && inb.seek == old(inb.seek)
      ensures g == Fine && |got| == Wanted(p) ==> read == 0 && !Strayed()
    {
      p' := Stepped(p, received, got);
      if read < need {
        assert Unfold(Receiving, 0);
        return Fine, p', OnCourse;
      }
      g, c := Complete(p, received, got, stray, p');
    }

    /** `tcp_guide` from the point where a segment is complete. */
    method Complete(ghost p: Progress, ghost received: nat, ghost got: Segment, ghost stray: bool, ghost p': Progress)
      returns (g: Guidance, ghost c: Course)
      requires p.Reading? && Expecting(p) && |got| == Wanted(p) && Arrived(p, got, stray) && Steps(p, received, got, p')
      modifies this`need, this`read, this`status, this`isOk, this`closed, this`astray, inb`seek
      ensures Tells(c, HeadDone(p, |got|), stray, old(inb.buf[..]), old(inb.seek), p.partial + got)
      ensures (g == Lost <==> c == Past) && (g == Misled <==> c == Misread) && (astray <==> c != OnCourse)
      ensures c == OnCourse ==> if p'.Rejected? then g == Kicked && closed else g == Fine && At(p') && need == p'.need
      ensures c != Past ==> (Following(p') <==> c == OnCourse)
      ensures g == Lost <==> HeadDone(p, |got|) && stray && old(inb.seek) + 4 > old(inb.size)
      ensures HeadDone(p, |got|) && c == OnCourse ==> SizeDecides(p.partial + got)
      ensures g == Fine ==> read == 0 && !Strayed()
    {
      assert Unfold(Receiving, 0);
      g, c := Fine, OnCourse;
      if status == Head {
        g, c := TakeSize(p.partial + got, stray);
        if g == Lost || closed { return; }
      } else {
        status, need, isOk := Head, HEAD_SIZE, true;
      }
      NextSegment();
    }

    /** The part of `tcp_guide` for a head that was just received. */
    method TakeSize(ghost head: Segment, ghost stray: bool) returns (g: Guidance, ghost c: Course)
      requires inb.Valid() && Open() && status == Head && need == HEAD_SIZE && |head| == HEAD_SIZE
      requires Completed(head, stray)
      modifies this`need, this`status, this`isOk, this`closed, this`astray
      ensures c == old(CourseOf(stray, inb.buf[..], inb.seek, head))
      ensures (g == Lost <==> c == Past) && (g == Misled <==> c == Misread) && (astray <==> c != OnCourse)
      ensures c == Past ==> !closed
      ensures c != Past ==> (DecisionTaken(DecisionOn(DataSize(head))) <==> c == OnCourse)
      ensures c == OnCourse ==> g == if closed then Kicked else Fine
      ensures g == Lost <==> stray && old(inb.seek) + 4 > old(inb.size)
      ensures c == OnCourse ==> SizeDecides(head)
    {
      HeadFields(head, []);
      c := CourseOf(stray, inb.buf[..], inb.seek, head);
      if inb.seek + SIZE_SIZE > inb.size {
        astray := true;
        return Lost, c;
      }
      var n, at := SizeAt(inb.buf[..], inb.seek), SegmentStart(HEAD_SIZE);
      if !stray { HeadAt(inb.buf[..], inb.seek, head); }
      astray := !SameVerdict(n, DataSize(inb.buf[at..at + HEAD_SIZE]));
      if n > MAX_CMDDATA_LEN {
        closed := true;
        return if astray then Misled else Kicked, c;
      }
      if n > 0 {
        status, need := Data, n;
      } else {
        isOk := true;
      }
      return if astray then Misled else Fine, c;
    }

    /** The end of `tcp_guide`: nothing is read of the next segment yet, and it will start at `write`. */
    method NextSegment()
      requires inb.Valid() && inb.q.open == []
      modifies this`read, inb`seek
      ensures inb.Valid() && read == 0 && inb.seek == inb.write
    {
      read := 0;
      inb.Mark();
    }

    /** The end of `read_data`: `seek_write`, ask the guide what to read next, and say whether there may be more. */
    method Absorb(n: nat, ghost p: Progress, ghost received: nat, ghost got: Segment,
                  ghost from: Place, ghost b: seq<Byte>)
      returns (res: int, ghost p': Progress, ghost c: Course)
      requires At(p) && Expecting(p) && need == p.need && inb.q.room + read == need && inb.q.room > 0
      requires |got| == n && inb.HoldsAtWrite(got)
      requires Prepared(from, Where())
      requires from.WillStray() ==> inb.seek >= HEAD_SIZE && SameFrom(inb.buf[..], b, HEAD_SIZE)
      modifies this`need, this`read, this`status, this`isOk, this`closed, this`astray, inb
      ensures inb.buf == old(inb.buf) && inb.Contents() == old(inb.Contents()) + Completes(p, got)
      ensures Steps(p, received, got, p')
      ensures Tells(c, HeadDone(p, n), from.WillStray(), b, from.seek, p.partial + got)
      ensures res == ASTRAY <==> c != OnCourse
      ensures (astray <==> res == ASTRAY) && (res != ASTRAY ==> (closed <==> res == -1))
      ensures res != ASTRAY ==>
        if p'.Rejected? then res == -1
        else At(p') && need == p'.need && res == if n < old(need - read) then 0 else n
      ensures n < old(need - read) ==> res == 0
      ensures Went(from, Where(), n, res)
    {
      ghost var there, now := Where(), inb.buf[..];
      res, p', c := Count(n, p, received, got);
      ToldBefore(c, HeadDone(p, n), from, there, b, now, p.partial + got);
      WentBy(from, there, Where(), n, res);
    }

    /** `seek_write`, and what the guide makes of that. */
    method Count(n: nat, ghost p: Progress, ghost received: nat, ghost got: Segment)
      returns (res: int, ghost p': Progress, ghost c: Course)
      requires At(p) && Expecting(p) && need == p.need && inb.q.room + read == need && inb.q.room > 0
      requires |got| == n && inb.HoldsAtWrite(got)
      modifies this`need, this`read, this`status, this`isOk, this`closed, this`astray, inb
      ensures inb.buf == old(inb.buf) && inb.Contents() == old(inb.Contents()) + Completes(p, got)
      ensures Steps(p, received, got, p')
      ensures Tells(c, HeadDone(p, n), old(Where().Strayed()), old(inb.buf[..]), old(inb.seek), p.partial + got)
      ensures res == ASTRAY <==> c != OnCourse
      ensures (astray <==> res == ASTRAY) && (res != ASTRAY ==> (closed <==> res == -1))
      ensures res != ASTRAY ==>
        if p'.Rejected? then res == -1
        else At(p') && need == p'.need && res == if n < old(need - read) then 0 else n
      ensures n < old(need - read) ==> res == 0
      ensures Absorbed(old(Where()), Where(), n, res)
    {
      var len := need - read;
      ghost var stray := Strayed();
      Deposit(n, p, got);
      var g;
      g, p', c := Guide(p, received, got, stray);
      res := if g == Lost || g == Misled then ASTRAY else if g == Kicked then -1 else if n < len then 0 else n;
    }

    /** A head that strayed is written in front of where `seek` points. */
    lemma StrayedBehind(p: Progress, was: seq<Byte>)
      requires At(p) && inb.KeptBeyond(was)
      ensures Strayed() ==> inb.seek >= HEAD_SIZE && SameFrom(inb.buf[..], was, HEAD_SIZE)
    {
      assert Unfold(Marking, 0) && Unfold(Tails, 0);
    }

    /** `read_data` up to its receiving: room is reserved unless some of the segment was read. */
    method Reserve(ghost p: Progress)
      requires At(p) && Expecting(p) && need == p.need
      modifies inb
      ensures At(p) && inb.q.room + read == need && inb.Contents() == old(inb.Contents())
      ensures inb.buf == old(inb.buf) || fresh(inb.buf)
      ensures Prepared(old(Where()), Where())
      ensures old(WillStray()) ==> Strayed() && inb.buf == old(inb.buf) && inb.buf[..] == old(inb.buf[..])
    {
      if read == 0 { Prepare(p); }
      assert Unfold(Placing, 0);
    }

    /** The receiving half of `read_data`. */
    method ReceiveSome(ghost p: Progress) returns (r: Received, ghost got: Segment, ghost o: Outcome)
      requires At(p) && Expecting(p) && need == p.need
      modifies inb, inb.buf, sock
      ensures At(p) && inb.q.room + read == need && inb.HoldsAtWrite(got)
      ensures inb.buf == old(inb.buf) || fresh(inb.buf)
      ensures inb.Contents() == old(inb.Contents()) && got + sock.stream == old(sock.stream)
      ensures Drains(old(sock.events), |old(sock.stream)|, need - read, o)
      ensures |got| == o.n && sock.events == o.events && r == if o.failed then NetError else Received(o.n)
      ensures Prepared(old(Where()), Where())
      ensures old(WillStray()) ==> inb.seek >= HEAD_SIZE && SameFrom(inb.buf[..], old(inb.buf[..]), HEAD_SIZE)
    {
      Reserve(p);
      r, got, o := FillReserved(p);
    }

    /** `circle_recv` for what is missing of the segment. */
    method FillReserved(ghost p: Progress) returns (r: Received, ghost got: Segment, ghost o: Outcome)
      requires At(p) && Expecting(p) && need == p.need && inb.q.room + read == need
      modifies inb.buf, sock
      ensures At(p) && inb.HoldsAtWrite(got) && got + sock.stream == old(sock.stream)
      ensures Drains(old(sock.events), |old(sock.stream)|, need - read, o)
      ensures |got| == o.n && sock.events == o.events && r == if o.failed then NetError else Received(o.n)
      ensures Strayed() ==> inb.seek >= HEAD_SIZE && SameFrom(inb.buf[..], old(inb.buf[..]), HEAD_SIZE)
    {
      ghost var was := inb.buf[..];
      r, got, o := CircleRecv(sock, inb, need - read);
      StrayedBehind(p, was);
    }

    /** `read_data` on a client that is where a parser in state `p` is. */
    method ReadSegment(ghost p: Progress, ghost received: nat)
      returns (res: int, ghost got: Segment, ghost o: Outcome, ghost p': Progress, ghost c: Course)
      requires At(p) && Expecting(p) && need == p.need
      modifies this`need, this`read, this`status, this`isOk, this`closed, this`astray, inb, inb.buf, sock
      ensures inb.buf == old(inb.buf) || fresh(inb.buf)
      ensures Steps(p, received, got, p')
      ensures res != -4 ==>
        Tells(c, HeadDone(p, |got|), old(WillStray()), old(inb.buf[..]), old(inb.seek), p.partial + got)
      ensures (res == ASTRAY <==> c != OnCourse)
      ensures astray <==> res == ASTRAY
      ensures res != ASTRAY ==> (closed <==> res == -4 || res == -1)
      ensures res != ASTRAY && res != -4 ==> (p'.Rejected? <==> res == -1)
      ensures res >= 0 ==> At(p') && need == p'.need
      ensures res >= -1 || res == -4 || res == ASTRAY
      ensures got + sock.stream == old(sock.stream)
      ensures res != -4 ==> inb.Contents() == old(inb.Contents()) + Completes(p, got)
      ensures Drains(old(sock.events), |old(sock.stream)|, old(need - read), o)
      ensures |got| == o.n && sock.events == o.events && (o.failed <==> res == -4)
      ensures res >= 0 ==> res == if o.n < old(need - read) then 0 else o.n
      ensures o.n < old(need - read) && !o.failed ==> res == 0
      ensures Went(old(Where()), Where(), o.n, res)
    {
      ghost var b, from := inb.buf[..], Where();
      var r;
      r, got, o := ReceiveSome(p);
      if r.NetError? {
        p' := Stepped(p, received, got);
        closed := true;
        return -4, got, o, p', OnCourse;
      }
      res, p', c := Absorb(r.n, p, received, got, from, b);
    }

    /**
     `read_data`: one segment's worth of receiving. A positive result means the kernel may have more, zero that
     it has none for now, a negative one that the connection is closed. It goes astray if and only if it completes a
     head whose size is not found.
     */
    method ReadData() returns (res: int, ghost o: Outcome, ghost c: Course)
      requires InStep()
      modifies this, inb, inb.buf, sock
      ensures inb == old(inb) && sock == old(sock) && (inb.buf == old(inb.buf) || fresh(inb.buf))
      ensures ledger.handled == old(ledger.handled)
      ensures res >= -1 || res == -4 || res == ASTRAY
      ensures if res == ASTRAY then astray else if res < 0 then closed && !astray else InStep()
      ensures consumed + sock.stream == old(consumed + sock.stream)
      ensures res == -1 <==> res >= -1 && Parse(consumed).Rejected?
      ensures Drains(old(sock.events), |old(sock.stream)|, old(need - read), o)
      ensures sock.events == o.events && |consumed| == |old(consumed)| + o.n && (o.failed <==> res == -4)
      ensures res >= 0 ==> res == if o.n < old(need - read) then 0 else o.n
      ensures res > 0 ==> |sock.events| < |old(sock.events)|
      ensures res == ASTRAY <==> !AllFound()
      ensures !(old(status) == Head && o.n == old(need - read) && !o.failed) ==> heads == old(heads) && res != ASTRAY
      ensures old(status) == Head && o.n == old(need - read) && !o.failed ==>
        && heads == old(heads) + [c] && (res == ASTRAY <==> c != OnCourse)
        && Tells(c, true, old(WillStray()), old(inb.buf[..]), old(inb.seek), LastHead(consumed))
      ensures old(WillPass()) && o.n == old(need - read) && !o.failed ==> res == ASTRAY
      ensures Went(old(Where()), Where(), o.n, res)
      ensures forall i: nat :: Reached(old(sock.events), i, |old(sock.stream)|, old(need - read)) ==>
        && (old(sock.events)[i] == Failed ==> res == -4 && closed)
        && (old(sock.events)[i] == WouldBlock || old(sock.events)[i] == Available(0) ==>
             res == 0 && InStep() && |consumed| == |old(consumed)| + Brought(old(sock.events)[..i]))
    {
      ghost var p, part, left := Parse(consumed), status, need - read;
      ParseBounds(consumed);
      ghost var queued, got, p' := inb.Contents(), [], p;
      ghost var events, available, b, seek, pass := sock.events, |sock.stream|, inb.buf[..], inb.seek, WillPass();
      res, got, o, p', c := ReadSegment(p, |consumed|);
      DrainsShrink(events, available, left, o);
      ghost var done := part == Head && o.n == left && !o.failed;
      if done { LastBytes(consumed, got); }
      if done && pass { ToldPast(c, b, seek, p.partial + got); }
      Record(got, p', queued, if done then [c] else []);
      DrainsUntil(events, available, left, o);
    }

    /** What a receive adds to the account of the stream, the frames and the heads. */
    ghost method Record(got: Segment, p': Progress, queued: seq<Segment>, head: seq<Course>)
      requires Steps(Parse(consumed), |consumed|, got, p') && |head| <= 1
      requires Kept(queued, Parse(consumed).segments, Parse(consumed).part, ledger)
      modifies this`consumed, this`ledger, this`heads
      ensures consumed == old(consumed) + got && heads == old(heads) + head
      ensures AllFound() <==> old(AllFound()) && (head == [] || head[0] == OnCourse)
      ensures p' == Parse(consumed) && ledger.handled == old(ledger.handled)
      ensures p'.Reading? ==>
        Kept(queued + Completes(Parse(old(consumed)), got), p'.segments, p'.part, ledger)
    {
      ledger := KeptAdvance(consumed, got, p', queued, ledger);
      assert forall c :: c in heads + head <==> c in heads || c in head;
      assert |head| == 1 ==> head == [head[0]] && head[0] in head;
      consumed, heads := consumed + got, heads + head;
    }

    /** What dispatch does not do to the buffer. */
    twostate predicate SamePlace()
      reads this, inb
    {
      && inb == old(inb)
      && inb.write == old(inb.write) && inb.seek == old(inb.seek) && inb.size == old(inb.size)
      && (!old(inb.Wrapped()) ==> !inb.Wrapped())
    }

    /** `verify`: has the oldest frame arrived whole? If only its head has, `need` is overwritten. */
    method Verify() returns (v: Verdict)
      requires inb.Valid() && (inb.len >= HEAD_SIZE ==> inb.Contents() != [] && |inb.Contents()[0]| == HEAD_SIZE)
      modifies this`need, this`closed
      ensures inb.len < HEAD_SIZE ==> v == NotYet && need == old(need) && closed == old(closed)
      ensures inb.len >= HEAD_SIZE ==> var n := DataSize(inb.Contents()[0]);
        && (v == TooBig <==> n > MAX_CMDDATA_LEN)
        && (v == TooBig ==> closed)
        && (v != TooBig ==> (v == Ready <==> HEAD_SIZE + n <= inb.len) && closed == old(closed))
        && need == if v == NotYet then HEAD_SIZE + n else old(need)
    {
      if inb.len < HEAD_SIZE { return NotYet; }
      inb.Oldest();
      var n := DataSize(inb.buf[inb.read..inb.read + HEAD_SIZE]);
      if n > MAX_CMDDATA_LEN {
        closed := true;
        return TooBig;
      }
      var total := n + HEAD_SIZE;
      if total > inb.len {
        need := total;
        return NotYet;
      }
      return Ready;
    }

    /** The two `buffer_read`s of `deal_tcp_msg`; the handler gets the head and body where they lie. */
    method TakeFrame() returns (f: Frame)
      requires inb.Valid() && inb.Contents() != [] && |inb.Contents()[0]| == HEAD_SIZE
      requires DataSize(inb.Contents()[0]) > 0 ==>
        |inb.Contents()| > 1 && |inb.Contents()[1]| == DataSize(inb.Contents()[0])
      modifies inb
      ensures inb.Valid() && inb.buf == old(inb.buf) && inb.size == old(inb.size)
      ensures inb.q.open == old(inb.q.open) && inb.q.room == old(inb.q.room)
      ensures inb.write == old(inb.write) && inb.seek == old(inb.seek)
      ensures !old(inb.Wrapped()) ==> !inb.Wrapped()
      ensures inb.Contents() == old(inb.Contents()[Front(inb.Contents())..])
      ensures f == old(ToFrame(inb.Contents()[0], if Front(inb.Contents()) == 1 then [] else inb.Contents()[1]))
      ensures old(inb.read) + 8 <= inb.buf.Length
      ensures f.code == old(inb.buf[inb.read + 4]) as nat + 256 * old(inb.buf[inb.read + 5]) as nat
      ensures f.version == old(inb.buf[inb.read + 6]) as nat + 256 * old(inb.buf[inb.read + 7]) as nat
    {
      inb.Oldest();
      HeadFields(inb.buf[inb.read..inb.read + 8], []);
      var at := inb.Read(HEAD_SIZE, true);
      var head := inb.buf[at..at + HEAD_SIZE];
      var data := TakeBody(DataSize(head));
      f := ToFrame(head, data);
    }

    method TakeBody(n: nat) returns (data: Segment)
      requires inb.Valid() && (n > 0 ==> inb.Contents() != [] && |inb.Contents()[0]| == n)
      modifies inb
      ensures inb.Valid() && inb.buf == old(inb.buf) && inb.size == old(inb.size)
      ensures inb.q.open == old(inb.q.open) && inb.q.room == old(inb.q.room)
      ensures inb.write == old(inb.write) && inb.seek == old(inb.seek)
      ensures !old(inb.Wrapped()) ==> !inb.Wrapped()
      ensures data == if n == 0 then [] else old(inb.Contents()[0])
      ensures inb.Contents() == if n == 0 then old(inb.Contents()) else old(inb.Contents()[1..])
    {
      var ptr := inb.Read(n, n > 0);
      data := inb.buf[ptr..ptr + n];
    }

    /** What holds all through `deal_tcp_msg`, whatever becomes of `need`. */
    ghost predicate Dispatching(p: Progress)
      reads this, inb, inb.buf
    {
      p.Reading? && forall i {:trigger Unfold(Dealing, i)} :: Unfold(Dealing, i) ==>
        && At(p) && Expecting(p)
        && Kept(inb.Contents(), p.segments, p.part, ledger)
        && Awaiting(inb.Contents(), p.part, p.need)
    }

    method NextReady(ghost p: Progress) returns (ready: bool)
      requires Dispatching(p)
      modifies this`need, this`closed
      ensures Dispatching(p) && ready == (ledger.waiting != [])
      ensures need == if !ready && p.part == Data then p.need + HEAD_SIZE else old(need)
      ensures !ready && inb.len == 0 ==> p.part == Head
    {
      assert Unfold(Dealing, 0);
      inb.LengthIsExact();
      LengthTells(inb.Contents(), p.segments, p.part, ledger, inb.q.open, p.need);
      var v := Verify();
      ready := v == Ready;
    }

    method DealOne(ghost p: Progress) returns (f: Frame)
      requires Dispatching(p) && ledger.waiting != []
      modifies this`ledger, inb
      ensures Dispatching(p) && inb.buf == old(inb.buf)
      ensures SamePlace()
      ensures f == old(ledger.waiting)[0] && ledger.waiting == old(ledger.waiting)[1..]
      ensures ledger.handled == old(ledger.handled) + [f]
    {
      ghost var was := inb.Contents();
      assert Unfold(Marking, 0) && Unfold(Dealing, 0);
      KeptTake(was, p.segments, p.part, p.need, ledger);
      f := TakeFrame();
      ledger := Ledger(ledger.retired + was[..Front(was)], ledger.handled + ledger.waiting[..1], ledger.waiting[1..]);
    }

    /** One turn of the loop of `deal_tcp_msg`: the frame it handles, if there is one. */
    method DealTurn(ghost p: Progress) returns (got: seq<Frame>)
      requires Dispatching(p)
      modifies this`need, this`closed, this`ledger, inb
      ensures Dispatching(p) && inb.buf == old(inb.buf)
      ensures SamePlace()
      ensures |got| <= 1 && (got == [] <==> old(ledger.waiting) == [])
      ensures got + ledger.waiting == old(ledger.waiting) && ledger.handled == old(ledger.handled) + got
      ensures need == if got == [] && p.part == Data then p.need + HEAD_SIZE else old(need)
      ensures got == [] && inb.len == 0 ==> p.part == Head
    {
      var ready := NextReady(p);
      got := [];
      if ready {
        var f := DealOne(p);
        got := [f];
      }
    }

    /** The loop of `deal_tcp_msg`, on a client that is where a parser in state `p` is. */
    method DealLoop(ghost p: Progress) returns (out: seq<Frame>)
      requires Dispatching(p)
      modifies this`need, this`closed, this`ledger, inb
      ensures Dispatching(p) && inb.buf == old(inb.buf)
      ensures SamePlace()
      ensures out + ledger.waiting == old(ledger.waiting) && ledger.handled == old(ledger.handled) + out
      ensures out == Batch(old(ledger.waiting))
      ensures need == if old(HasKernel(ledger.waiting)) || p.part == Head then old(need) else p.need + HEAD_SIZE
      ensures !old(HasKernel(ledger.waiting)) && inb.len == 0 ==> p.part == Head
    {
      ghost var frames, kernel := ledger.waiting, HasKernel(ledger.waiting);
      out := [];
      var more := true;
      while more
        invariant Dispatching(p) && inb.buf == old(inb.buf)
        invariant SamePlace()
        invariant out + ledger.waiting == frames && ledger.handled == old(ledger.handled) + out
        invariant need == if more || kernel || p.part == Head then old(need) else p.need + HEAD_SIZE
        invariant !more && !kernel && inb.len == 0 ==> p.part == Head
        invariant if more then NoneKernel(out) else out == Batch(frames)
        decreases more, |ledger.waiting|
      {
        var got := DealTurn(p);
        BatchIs(frames, |out|);
        out := out + got;
        more := got != [] && !got[0].Kernel();
      }
    }

    /**
     `deal_tcp_msg`: handle the frames that have arrived, up to and including the first kernel frame. The parser's
     `need` survives unless a body is being received and no kernel frame ended the loop early.
     */
    method DealTcpMsg() returns (out: seq<Frame>)
      requires InStep() || Disturbed()
      modifies this`need, this`closed, this`ledger, inb
      ensures out == Batch(old(ledger.waiting)) && ledger.handled == old(ledger.handled) + out
      ensures out + ledger.waiting == old(ledger.waiting)
      ensures var frames := old(ledger.waiting);
        && (forall n ::
             0 <= n < |frames| && frames[n].code <= 15 && (forall i :: 0 <= i < n ==> frames[i].code > 15) ==>
             out == frames[..n + 1])
        && ((forall i :: 0 <= i < |frames| ==> frames[i].code > 15) ==> out == frames)
      ensures inb.buf == old(inb.buf) && status == old(status) && Open()
      ensures SamePlace()
      ensures if old(InStep() && (status == Head || HasKernel(ledger.waiting))) then InStep() else Disturbed()
    {
      assert Unfold(Dealing, 0);
      ghost var frames := ledger.waiting;
      ParseBounds(consumed);
      KeptAwaits(consumed, inb.Contents(), ledger);
      BatchEnds(frames);
      out := DealLoop(Parse(consumed));
      if !EndsInKernel(out) && inb.len == 0 {
        need := HEAD_SIZE;
      }
      BatchStops(frames);
    }

    /** See `Place`. */
    ghost predicate Straight(from: nat, at: nat, size: nat)
      reads this, inb
    {
      Where().Straight(from, at, size)
    }

    ghost predicate Ended(from: nat, at: nat, size: nat)
      reads this, inb
    {
      Where().Ended(from, at, size)
    }

    /** A client of which `read` was left over by an earlier connection, and the bytes received on the present one. */
    ghost predicate LeftOver()
      reads this, inb, inb.buf
    {
      && Open() && status == Head && need == HEAD_SIZE && read > 0
      && inb.Valid() && inb.q.open == consumed && inb.Contents() == [] && 2 * HEAD_SIZE <= inb.size
      && inb.read == inb.seek == 0 && inb.len == inb.write == |consumed| < HEAD_SIZE
      && (read < HEAD_SIZE ==> read > |consumed|)
    }

    /**
     `read_data` on such a client. From a head's worth on, the length asked for is not positive and `circle_recv`
     refuses it. Otherwise no room is reserved, and the first head is taken to be complete as many bytes too early: its
     size is read from the bytes at index 0, which are of the stream if at least four came, and the client is out of
     step with the parser, which is still inside that head.
     */
    method ReadLeftOver() returns (res: int, ghost o: Outcome)
      requires LeftOver()
      modifies this, inb, inb.buf, sock
      ensures inb == old(inb) && sock == old(sock) && inb.buf == old(inb.buf)
      ensures consumed + sock.stream == old(consumed + sock.stream)
      ensures old(read) >= HEAD_SIZE ==> closed && res == PARAM_ERROR
      ensures old(read) < HEAD_SIZE ==>
        && Drains(old(sock.events), |old(sock.stream)|, HEAD_SIZE - old(read), o)
        && |consumed| == |old(consumed)| + o.n
        && (o.failed ==> closed && res == -4)
        && (!o.failed && o.n < HEAD_SIZE - old(read) ==> LeftOver() && read == old(read) + o.n && res == 0)
        && (!o.failed && o.n == HEAD_SIZE - old(read) ==>
             && 0 < |consumed| < HEAD_SIZE && Parse(consumed) == Reading([], Head, HEAD_SIZE, consumed)
             && inb.buf[..|consumed|] == consumed
             && DecisionTaken(DecisionOn(SizeAt(inb.buf[..], 0)))
             && !InStep() && (!closed ==> read == 0))
    {
      if read >= need {
        closed, o := true, Outcome(0, [], false);
        return PARAM_ERROR, o;
      }
      var r;
      r, o := ReceiveLeftOver();
      if r.NetError? { return -4, o; }
      if read < need { return 0, o; }
      GuideLeftOver();
      return if closed then -1 else r.n, o;
    }

    /** The receiving on such a client. */
    method ReceiveLeftOver() returns (r: Received, ghost o: Outcome)
      requires LeftOver() && read < HEAD_SIZE
      modifies this`read, this`closed, this`consumed, inb, inb.buf, sock
      ensures inb.buf == old(inb.buf) && consumed + sock.stream == old(consumed + sock.stream)
      ensures Drains(old(sock.events), |old(sock.stream)|, HEAD_SIZE - old(read), o)
      ensures |consumed| == |old(consumed)| + o.n && r == if o.failed then NetError else Received(o.n)
      ensures closed <==> o.failed
      ensures !o.failed ==> read == old(read) + o.n <= HEAD_SIZE && inb.Valid()
      ensures !o.failed && read < HEAD_SIZE ==> LeftOver()
      ensures !o.failed && read == HEAD_SIZE ==>
        && inb.q.open == [] && inb.seek == 0 && inb.size >= 2 * HEAD_SIZE && 0 < |consumed| < HEAD_SIZE
        && inb.buf[..|consumed|] == consumed
    {
      var len := need - read;
      inb.Claim(len);
      ghost var got;
      r, got, o := CircleRecv(sock, inb, len);
      if r.NetError? {
        consumed, closed := consumed + got, true;
        return;
      }
      DepositLeftOver(r.n, got);
    }

    /** `seek_write` for the bytes received, and the count of bytes read. */
    method DepositLeftOver(n: nat, ghost got: Segment)
      requires LeftOver() && read < HEAD_SIZE && inb.q.room == HEAD_SIZE - read
      requires |got| == n && inb.HoldsAtWrite(got)
      modifies this`read, this`consumed, inb
      ensures inb.buf == old(inb.buf) && inb.Valid() && consumed == old(consumed) + got
      ensures read == old(read) + n <= HEAD_SIZE
      ensures read < HEAD_SIZE ==> LeftOver()
      ensures read == HEAD_SIZE ==>
        && inb.q.open == [] && inb.seek == 0 && inb.size >= 2 * HEAD_SIZE && 0 < |consumed| < HEAD_SIZE
        && inb.buf[..|consumed|] == consumed
    {
      ghost var all := consumed + got;
      assert inb.buf[..|all|] == all by { inb.GotIsContiguous(got); }
      inb.SeekWrite(n, got);
      read := read + n;
      consumed := all;
    }

    /** `tcp_guide` on a head that seems to be complete. */
    method GuideLeftOver()
      requires inb.Valid() && inb.q.open == [] && inb.seek == 0 && 2 * HEAD_SIZE <= inb.size
      requires Open() && status == Head && need == HEAD_SIZE && 0 < |consumed| < HEAD_SIZE
      modifies this`need, this`read, this`status, this`isOk, this`closed, inb`seek
      ensures inb.Valid() && !InStep() && (!closed ==> read == 0)
      ensures DecisionTaken(DecisionOn(SizeAt(inb.buf[..], 0)))
      ensures Parse(consumed) == Reading([], Head, HEAD_SIZE, consumed)
    {
      var n := SizeAt(inb.buf[..], inb.seek);
      if n > MAX_CMDDATA_LEN {
        closed := true;
        return;
      }
      if n > 0 {
        status, need := Data, n;
      } else {
        isOk := true;
      }
      NextSegment();
    }

    lemma Wanting()
      requires InStep()
      ensures Wants(consumed) == need - read > 0 && (status == Head ==> need == HEAD_SIZE)
    {
      ParseBounds(consumed);
    }

    /** `read_data` as a step of `tcp_read`, which started at `from` and has got `n` bytes of all that it will. */
    method ReadOn(ghost a: Outcome, ghost n: nat, ghost from: Place) returns (res: int, ghost o: Outcome)
      requires InStep() && ToRead(Wants, a, true, n, consumed, sock.events, sock.stream, false)
      requires Along(from, Where(), n, 1)
      modifies this, inb, inb.buf, sock
      ensures inb == old(inb) && sock == old(sock) && (inb.buf == old(inb.buf) || fresh(inb.buf))
      ensures ledger.handled == old(ledger.handled)
      ensures res >= -1 || res == -4 || res == ASTRAY
      ensures if res == ASTRAY then astray else if res < 0 then closed && !astray else InStep()
      ensures consumed + sock.stream == old(consumed + sock.stream) && |consumed| == |old(consumed)| + o.n
      ensures res == -1 <==> res >= -1 && Parse(consumed).Rejected?
      ensures res == ASTRAY <==> !AllFound()
      ensures res > 0 ==> |sock.events| < |old(sock.events)|
      ensures res != ASTRAY ==> ToRead(Wants, a, res > 0, n + o.n, consumed, sock.events, sock.stream, res == -4)
      ensures old(Plenty(sock.events, |sock.stream|) && WillPass() && |sock.stream| >= need - read) ==> res == ASTRAY
      ensures Along(from, Where(), n + o.n, res)
    {
      Wanting();
      ghost var events, stream, before, len := sock.events, sock.stream, consumed, need - read;
      ghost var there := Where();
      ghost var c;
      res, o, c := ReadData();
      DrainsBounds(events, |stream|, len, o);
      if Plenty(events, |stream|) { PlentyDrains(events, |stream|, len, o); }
      AlongStep(from, n, there, o.n, res, Where());
      if res != ASTRAY { ToReadStep(Wants, a, n, before, events, stream, o, consumed, sock.stream, res > 0); }
    }

    /** `tcp_read`: receive until the kernel has nothing more. Only errors and emptiness end it early. */
    method TcpRead() returns (res: int)
      requires InStep()
      modifies this, inb, inb.buf, sock
      ensures inb == old(inb) && sock == old(sock) && (inb.buf == old(inb.buf) || fresh(inb.buf))
      ensures ledger.handled == old(ledger.handled)
      ensures res == 0 || res == -1 || res == -4 || res == ASTRAY
      ensures if res == ASTRAY then astray else if res < 0 then closed && !astray else InStep()
      ensures consumed + sock.stream == old(consumed + sock.stream)
      ensures res == -1 <==> res >= -1 && Parse(consumed).Rejected?
      ensures res == ASTRAY <==> !AllFound()
      ensures res != ASTRAY ==> var a := old(ReadAll(Wants, consumed, sock.events, sock.stream));
        |consumed| == |old(consumed)| + a.n && sock.events == a.events && (res == -4 <==> a.failed)
      ensures old(Eager(sock.events)) ==> res != -4 && (res == 0 ==> sock.stream == [] || sock.events == [])
      ensures old(Plenty(sock.events, |sock.stream|)) ==> res != -4 && (res == 0 ==> sock.stream == [])
      ensures old(Plenty(sock.events, |sock.stream|) && WillPass() && |sock.stream| >= need - read) ==> res == ASTRAY
      ensures |consumed| >= |old(consumed)|
      ensures old(Straight(inb.read, inb.write, inb.size)) ==>
        var at := old(inb.write) + |consumed| - |old(consumed)|;
        at < old(inb.size) ==>
          && res != ASTRAY
          && (res == 0 && status == Head && read == 0 ==> Ended(old(inb.read), at, old(inb.size)))
    {
      ghost var before, events, stream, from := consumed, sock.events, sock.stream, Where();
      ghost var a := StartRead();
      AlongStart(from);
      ghost var n;
      res, n := ReadLoop(a, from);
      if res != ASTRAY {
        AllRead(Wants, a, n, consumed, sock.events, sock.stream, res == -4);
        if res == 0 { Wanting(); }
        if Eager(events) { EagerReads(Wants, before, events, stream, a, consumed, sock.stream); }
        if Plenty(events, |stream|) { PlentyReads(Wants, before, events, stream, a, consumed, sock.stream); }
      }
      if from.Straight(from.from, from.write, from.size) && from.write + n < from.size {
        AlongAll(from, Where(), n, res);
      }
    }

    /** Its loop, which starts with a first turn. */
    method ReadLoop(ghost a: Outcome, ghost from: Place) returns (res: int, ghost n: nat)
      requires InStep() && ToRead(Wants, a, true, 0, consumed, sock.events, sock.stream, false)
      requires Along(from, Where(), 0, 1)
      modifies this, inb, inb.buf, sock
      ensures inb == old(inb) && sock == old(sock) && (inb.buf == old(inb.buf) || fresh(inb.buf))
      ensures ledger.handled == old(ledger.handled)
      ensures res == 0 || res == -1 || res == -4 || res == ASTRAY
      ensures if res == ASTRAY then astray else if res < 0 then closed && !astray else InStep()
      ensures consumed + sock.stream == old(consumed + sock.stream) && |consumed| == |old(consumed)| + n
      ensures res == -1 <==> res >= -1 && Parse(consumed).Rejected?
      ensures res == ASTRAY <==> !AllFound()
      ensures res != ASTRAY ==> ToRead(Wants, a, false, n, consumed, sock.events, sock.stream, res == -4)
      ensures Along(from, Where(), n, res)
      ensures old(Plenty(sock.events, |sock.stream|) && WillPass() && |sock.stream| >= need - read) ==> res == ASTRAY
    {
      ghost var o;
      res, o := ReadOn(a, 0, from);
      n := o.n;
      if res > 0 { res, n := ReadMore(a, n, from); }
    }

    /** Its turns after the first, while `n` bytes have been got. */
    method ReadMore(ghost a: Outcome, ghost n: nat, ghost from: Place) returns (res: int, ghost n': nat)
      requires InStep() && ToRead(Wants, a, true, n, consumed, sock.events, sock.stream, false)
      requires Along(from, Where(), n, 1)
      modifies this, inb, inb.buf, sock
      ensures inb == old(inb) && sock == old(sock) && (inb.buf == old(inb.buf) || fresh(inb.buf))
      ensures ledger.handled == old(ledger.handled)
      ensures res == 0 || res == -1 || res == -4 || res == ASTRAY
      ensures if res == ASTRAY then astray else if res < 0 then closed && !astray else InStep()
      ensures consumed + sock.stream == old(consumed + sock.stream) && |consumed| == |old(consumed)| + n' - n
      ensures res == -1 <==> res >= -1 && Parse(consumed).Rejected?
      ensures res == ASTRAY <==> !AllFound()
      ensures res != ASTRAY ==> ToRead(Wants, a, false, n', consumed, sock.events, sock.stream, res == -4)
      ensures Along(from, Where(), n', res) && n <= n'
    {
      res, n' := 1, n;
      while res > 0
        invariant inb == old(inb) && sock == old(sock) && (inb.buf == old(inb.buf) || fresh(inb.buf))
        invariant ledger.handled == old(ledger.handled)
        invariant res >= -1 || res == -4 || res == ASTRAY
        invariant if res == ASTRAY then astray else if res < 0 then closed && !astray else InStep()
        invariant consumed + sock.stream == old(consumed + sock.stream)
        invariant n <= n' && |consumed| == |old(consumed)| + n' - n
        invariant res == -1 <==> res >= -1 && Parse(consumed).Rejected?
        invariant res == ASTRAY <==> !AllFound()
        invariant res != ASTRAY ==> ToRead(Wants, a, res > 0, n', consumed, sock.events, sock.stream, res == -4)
        invariant Along(from, Where(), n', res)
        decreases res > 0, |sock.events|
      {
        ghost var o;
        res, o := ReadOn(a, n', from);
        n' := n' + o.n;
      }
    }

    /** All that a `tcp_read` is about to get. */
    lemma StartRead() returns (a: Outcome)
      ensures a == ReadAll(Wants, consumed, sock.events, sock.stream)
      ensures Reads(Wants, consumed, sock.events, sock.stream, a)
      ensures ToRead(Wants, a, true, 0, consumed, sock.events, sock.stream, false)
    {
      a := ReadAll(Wants, consumed, sock.events, sock.stream);
    }
  }
}
