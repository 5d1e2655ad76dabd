/** Messages to the database thread (src/database.c): a buffer holding a command and its data, passed by queue. */
module Database {
  import opened Bytes
  import opened GapRing
  import opened Queues
  import opened TwoThreads

  datatype Message = Message(cmd: int, data: Segment)

  /** Reading a 32-bit `int` from memory. */
  function IntOf(bytes: Segment): int {
    var n := FromLittleEndian(bytes);
    if n < 0x8000_0000 then n else n - 0x1_0000_0000
  }

  lemma IntRoundTrip(num: int)
    requires -0x8000_0000 <= num < 0x8000_0000
    ensures IntOf(IntBytes(num)) == num
    ensures FromLittleEndian(IntBytes(num)) == if num < 0 then num + 0x1_0000_0000 else num
  {
    assert Pow256(4) == 0x1_0000_0000;
    LittleEndianRoundTrip(num % 0x1_0000_0000, 4);
  }

  /** A buffer as the pool hands it out: new, or reset by `recycle_buffer`. */
  ghost predicate Recycled(b: Buffer)
    reads b, b.buf
  {
    b.Valid() && b.Contents() == [] && b.q.open == [] && b.read == b.write == b.len == 0
  }

  /** The message is the whole content of the buffer, in one piece from its start. */
  ghost predicate Holding(b: Buffer, m: Message)
    reads b, b.buf
  {
    && b.Valid() && b.q.open == [] && b.Contents() == [IntBytes(m.cmd), m.data]
    && b.read == 0 && !b.Wrapped() && b.len == 4 + |m.data|
  }

  /** The two writes of `post_db_msg`. Starting from an empty buffer neither of them ever wraps. */
  method Compose(b: Buffer, m: Message)
    requires Recycled(b)
    modifies b, b.buf
    ensures Holding(b, m) && (b.buf == old(b.buf) || fresh(b.buf))
  {
    var _ := b.WriteInt(m.cmd);
    assert b.read == 0 && b.write == 4;
    var _ := b.Write(m.data);
  }

  /** What `issue_db_msg` reads from a buffer, before recycling it. */
  method Extract(b: Buffer, ghost m: Message) returns (cmd: int, data: Segment)
    requires Holding(b, m) && -0x8000_0000 <= m.cmd < 0x8000_0000
    modifies b
    ensures cmd == m.cmd && data == m.data
    ensures Recycled(b) && b.buf == old(b.buf)
  {
    IntRoundTrip(m.cmd);
    var at := b.Read(4, true);
    cmd := IntOf(b.buf[at..at + 4]);
    b.Oldest();
    data := b.buf[b.read..b.read + b.len];
    b.Reset();
  }

  /** The queue holds buffers with these messages, no two sharing memory. */
  ghost predicate Mail(q: Queue<Buffer>, messages: seq<Message>)
    reads q, q.table, q.items, set b | b in q.items :: b.buf
  {
    && q.Valid()
    && |q.items| == |messages|
    && (forall k :: 0 <= k < |messages| ==> Holding(q.items[k], messages[k]))
    && (forall j, k :: 0 <= j < k < |messages| ==> q.items[j] != q.items[k] && q.items[j].buf != q.items[k].buf)
  }

  /** `post_db_msg`, with the buffer it extracted. */
  method PostDbMsg(q: Queue<Buffer>, b: Buffer, m: Message, ghost messages: seq<Message>) returns (res: Pushed)
    requires Mail(q, messages) && Recycled(b)
    requires forall k :: 0 <= k < |messages| ==> q.items[k] != b && q.items[k].buf != b.buf
    modifies q`size, q`tail, q`items, q.table, b, b.buf
    ensures res == if |messages| == q.capacity - 1 then FullError else Done
    ensures Mail(q, if res == Done then messages + [m] else messages)
    ensures res == Done ==> q.items == old(q.items) + [b]
  {
    Compose(b, m);
    res := q.PushFixed(b);
  }

  /** One round of `issue_db_msg`: the oldest message, and its buffer ready for reuse. */
  method IssueDbMsg(q: Queue<Buffer>, ghost messages: seq<Message>) returns (got: seq<Message>, b: Slot<Buffer>)
    requires Mail(q, messages) && forall m :: m in messages ==> -0x8000_0000 <= m.cmd < 0x8000_0000
    modifies q`size, q`head, q`items, q.table, q.items
    ensures got == messages[..if messages == [] then 0 else 1]
    ensures Mail(q, messages[|got|..])
    ensures messages != [] ==> b == Item(old(q.items)[0]) && Recycled(b.value) && b.value !in q.items
  {
    b := q.Pop();
    if b == Null { return [], b; }
    var cmd, data := Extract(b.value, messages[0]);
    got := [Message(cmd, data)];
  }

  /** The content of a buffer in the queue, as `Holding` describes it. */
  function Packed(m: Message): seq<Segment> {
    [IntBytes(m.cmd), m.data]
  }

  /** What the taking thread reads from such a content. */
  function Unpacked(content: seq<Segment>): Message {
    if |content| == 2 then Message(IntOf(content[0]), content[1]) else Message(0, [])
  }

  /**
   Between two threads: if the messages posted are `posted`, in every schedule in which no decrement of the queue's
   `size` is overwritten the first of them are delivered, in order, and nothing else is.
   */
  lemma MailArrives(capacity: nat, schedule: seq<Event<seq<Segment>>>, posted: seq<Message>)
    requires capacity >= 2 && Possible(Init(capacity), schedule) && AllKeep(Init(capacity), schedule)
    requires Accepted(Init(capacity), schedule) == seq(|posted|, i requires 0 <= i < |posted| => Packed(posted[i]))
    requires forall m :: m in posted ==> -0x8000_0000 <= m.cmd < 0x8000_0000
    ensures var taken := Run(Init(capacity), schedule).taken;
      && |taken| <= |posted|
      && forall n :: 0 <= n < |taken| ==> taken[n].Item? && Unpacked(taken[n].value) == posted[n]
  {
    SafeAlways(capacity, schedule);
    SentIsAccepted(Init(capacity), schedule);
    var s := Run(Init(capacity), schedule);
    forall n | 0 <= n < |s.taken|
      ensures n < |posted| && s.taken[n].Item? && Unpacked(s.taken[n].value) == posted[n]
    {
      assert s.taken[n] == Item(s.sent[n]) && (s.sent + Pending(s))[n] == s.sent[n];
      IntRoundTrip(posted[n].cmd);
    }
  }
}
