/**
 The circular byte buffer whose segments are always contiguous (common/buffer.c, common/buffer.h).
 A segment that does not fit at the tail leaves a gap there and starts over at index 0, or makes the
 buffer grow and slides the older half up to the new end.
 */
module GapRing {
  import opened Bytes
  import opened Folding
  import opened Sliding

  datatype Status = Success | ParamError

  /** A 32-bit `int` in memory, in two's complement. */
  function IntBytes(num: int): (r: Segment)
    ensures |r| == 4
  {
    ToLittleEndian(num % 0x1_0000_0000, 4)
  }

  function Max(x: nat, y: nat): nat { if x > y then x else y }

  /**
   What a buffer holds: the complete unread segments, oldest first, and the one being written with the
   number of bytes still reserved for it. While the buffer is wrapped, `upper` are those in [read, end).
   */
  datatype Backlog = Backlog(upper: seq<Segment>, lower: seq<Segment>, open: Segment, room: nat) {

    ghost function Segments(): seq<Segment> {
      upper + lower
    }

    /** `bytes` join the open segment, which is complete once the reservation is used up. */
    ghost function Push(bytes: Segment): (r: Backlog)
      requires |bytes| <= room
      ensures r.room == room - |bytes|
      ensures |bytes| < room ==> r.Segments() == Segments() && r.open == open + bytes
      ensures |bytes| == room ==> r.Segments() == Segments() + [open + bytes] && r.open == []
    {
      assert upper + (lower + [open + bytes]) == upper + lower + [open + bytes];
      if |bytes| == room then Backlog(upper, lower + [open + bytes], [], 0)
      else Backlog(upper, lower, open + bytes, room - |bytes|)
    }

    ghost function Pop(): (r: Backlog)
      requires Segments() != []
      ensures r.Segments() == Segments()[1..]
    {
      if upper != [] then this.(upper := upper[1..]) else this.(lower := lower[1..])
    }

    /** The buffer goes from one piece to two. */
    ghost function Split(): (r: Backlog)
      requires upper == []
      ensures r.Segments() == Segments()
    {
      this.(upper := lower, lower := [])
    }

    /** The buffer goes from two pieces to one. */
    ghost function Join(): (r: Backlog)
      ensures r.Segments() == Segments()
    {
      this.(upper := [], lower := upper + lower)
    }

    /** The oldest segment is read if `whole`; then the two pieces become one if `rejoin`. */
    ghost function Take(whole: bool, rejoin: bool): (r: Backlog)
      requires whole ==> Segments() != []
      ensures r.Segments() == if whole then Segments()[1..] else Segments()
      ensures r.open == open && r.room == room
    {
      var left := if whole then Pop() else this;
      if rejoin then left.Join() else left
    }
  }

  /** Where the unread segments and the open one lie in the bytes `b`: in one piece or in two. */
  ghost predicate Stored(b: seq<Byte>, wrapped: bool, read: nat, write: nat, end: nat, q: Backlog) {
    && (if wrapped then write <= read <= end <= |b| else read <= write <= |b| && q.upper == [])
    && forall i {:trigger Unfold(Layout, i)} :: Unfold(Layout, i) ==>
      if wrapped then
        b[read..end] == Flatten(q.upper) && b[..write] == Flatten(q.lower) + q.open
      else
        b[read..write] == Flatten(q.lower) + q.open
  }

  lemma StoredPush(b: seq<Byte>, wrapped: bool, read: nat, write: nat, end: nat, off: nat, q: Backlog)
    requires Stored(b, wrapped, read, write, end, q) && off <= q.room
    requires write + off <= if wrapped then read else |b|
    ensures Stored(b, wrapped, read, write + off, end, q.Push(b[write..write + off]))
  {
    assert Unfold(Layout, 0);
    var from, open := if wrapped then 0 else read, q.open + b[write..write + off];
    assert b[from..write + off] == b[from..write] + b[write..write + off];
    assert b[from..write + off] == Flatten(q.lower) + open;
    if off == q.room {
      FlattenAppend(q.lower, [open]);
      FlattenOne(open);
      assert Flatten(q.lower + [open]) + [] == Flatten(q.lower) + open;
    }
  }

  lemma SplitSlice(b: seq<Byte>, lo: nat, hi: nat, first: Segment, rest: Segment)
    requires lo <= hi <= |b| && b[lo..hi] == first + rest
    ensures lo + |first| <= hi
    ensures b[lo..lo + |first|] == first && b[lo + |first|..hi] == rest
  {
    assert b[lo..lo + |first|] == b[lo..hi][..|first|];
    assert b[lo + |first|..hi] == b[lo..hi][|first|..];
  }

  /** The oldest segment lies contiguously at `read`, and the others are stored from its end on. */
  lemma StoredPop(b: seq<Byte>, wrapped: bool, read: nat, write: nat, end: nat, q: Backlog)
    requires Stored(b, wrapped, read, write, end, q) && q.Segments() != []
    requires wrapped ==> read < end
    ensures var n := |q.Segments()[0]|;
      && read + n <= (if wrapped then end else write)
      && b[read..read + n] == q.Segments()[0]
      && Stored(b, wrapped, read + n, write, end, q.Pop())
  {
    assert Unfold(Layout, 0);
    if wrapped {
      SplitSlice(b, read, end, q.upper[0], Flatten(q.upper[1..]));
    } else {
      assert Flatten(q.lower) + q.open == q.lower[0] + (Flatten(q.lower[1..]) + q.open);
      SplitSlice(b, read, write, q.lower[0], Flatten(q.lower[1..]) + q.open);
    }
  }

  /** What remains stored after a read; with the upper piece used up it is one piece starting at 0. */
  lemma StoredTake(b: seq<Byte>, wrapped: bool, read: nat, write: nat, end: nat, q: Backlog, off: nat, whole: bool)
    requires Stored(b, wrapped, read, write, end, q)
    requires if whole then q.Segments() != [] && off == |q.Segments()[0]| else off == 0
    requires wrapped ==> read < end
    ensures read + off <= if wrapped then end else write
    ensures var rejoin := wrapped && read + off == end;
      if rejoin then Stored(b, false, 0, write, write, q.Take(whole, true))
      else Stored(b, wrapped, read + off, write, end, q.Take(whole, false))
  {
    assert Unfold(Layout, 0);
    if whole { StoredPop(b, wrapped, read, write, end, q); }
    if wrapped && read + off == end {
      var left := q.Take(whole, false);
      FlattenAppend(left.upper, left.lower);
      assert Flatten(left.upper + left.lower) == Flatten(left.lower);
    }
  }

  /** A larger block with the same bytes in front stores the same. */
  lemma StoredEnlarged(b: seq<Byte>, c: seq<Byte>, wrapped: bool, read: nat, write: nat, end: nat, q: Backlog)
    requires Stored(b, wrapped, read, write, end, q) && |b| <= |c| && c[..|b|] == b
    ensures Stored(c, wrapped, read, write, end, q)
  {
    assert Unfold(Layout, 0);
    SameSlice(c, b, 0, write);
    if wrapped { SameSlice(c, b, read, end); } else { SameSlice(c, b, read, write); }
  }

  /** Sliding the upper piece to the end of the block keeps both pieces. */
  lemma StoredSlid(c: seq<Byte>, d: seq<Byte>, read: nat, write: nat, end: nat, q: Backlog)
    requires Stored(c, true, read, write, end, q) && |d| == |c|
    requires var index := |d| - (end - read); d[index..] == c[read..end] && d[..read] == c[..read]
    ensures Stored(d, true, |d| - (end - read), write, |d|, q)
  {
    assert Unfold(Layout, 0);
    SameSlice(d, c[..read], 0, write);
    SameSlice(c, c[..read], 0, write);
    assert d[|d| - (end - read)..|d|] == d[|d| - (end - read)..];
  }

  /** `realloc` of a block of memory to a larger size. */
  method Enlarged(block: array<Byte>, newSize: nat) returns (bytes: array<Byte>)
    requires block.Length <= newSize
    ensures fresh(bytes) && bytes.Length == newSize && bytes[..block.Length] == block[..]
  {
    bytes := new Byte[newSize];
    forall i | 0 <= i < block.Length {
      bytes[i] := block[i];
    }
  }

  /** Bytes stored right behind others extend them. */
  lemma Extended(b: seq<Byte>, c: seq<Byte>, at: nat, had: Segment, src: Segment)
    requires at + |had| + |src| <= |c| && |b| == |c|
    requires b[at..at + |had|] == had && c[..at + |had|] == b[..at + |had|]
    requires c[at + |had|..at + |had| + |src|] == src
    ensures c[at..at + |had| + |src|] == had + src
  {
  }

  /** Bytes that agree up to `to` agree between `from` and `to`. */
  lemma SameSlice(c: seq<Byte>, b: seq<Byte>, from: nat, to: nat)
    requires from <= to <= |b| && to <= |c| && c[..to] == b[..to]
    ensures c[from..to] == b[from..to]
  {
  }

  /** The same bytes from `at` on. */
  ghost predicate SameFrom(c: seq<Byte>, b: seq<Byte>, at: nat) {
    forall i {:trigger Unfold(Tails, i)} :: Unfold(Tails, i) ==> at <= |b| == |c| && c[at..] == b[at..]
  }

  lemma StillSameFrom(c: seq<Byte>, b: seq<Byte>, was: seq<Byte>, from: nat, at: nat)
    requires SameFrom(b, was, at) && from <= at && from <= |b| == |c| && c[from..] == b[from..]
    ensures SameFrom(c, was, at)
  {
    assert Unfold(Tails, 0);
    assert c[at..] == c[from..][at - from..];
    assert b[at..] == b[from..][at - from..];
  }

  class Buffer {
    var read: nat
    var write: nat
    var seek: nat
    var len: nat
    var gap: nat
    var size: nat
    var end: nat
    var buf: array<Byte>
    ghost var q: Backlog

    /** The two-piece shape: the test `buffer_realloc` makes. */
    predicate Wrapped()
      reads this
    {
      len > 0 && read >= write
    }

    ghost predicate Indices()
      reads this
    {
      && write < size
      && if Wrapped() then
           && write + q.room <= read < end <= size
           && gap == size - end
           && len == end - read + write
         else
           && read <= write == end
           && write + q.room <= size
           && gap == 0
           && len == write - read
    }

    ghost predicate Valid()
      reads this, buf
    {
      buf.Length == size && Indices() && Stored(buf[..], Wrapped(), read, write, end, q)
    }

    /** The complete unread segments, oldest first: what the buffer is an implementation of. */
    ghost function Contents(): seq<Segment>
      reads this
    {
      q.Segments()
    }

    /** An index holding neither unread data nor the gap. */
    ghost predicate Free(i: nat)
      reads this
    {
      i < size && if Wrapped() then write <= i < read else i < read || write <= i
    }

    ghost predicate FreeRun(from: nat, need: nat)
      reads this
    {
      from + need <= size && forall i :: from <= i < from + need ==> Free(i)
    }

    /** `buffer_init` asserts a positive size. */
    constructor (size: nat)
      requires size > 0
      ensures Valid() && fresh(buf) && q == Backlog([], [], [], 0)
      ensures this.size == size && read == 0 && write == 0 && seek == 0 && len == 0 && gap == 0 && end == 0
    {
      read, write, seek, len, gap, end := 0, 0, 0, 0, 0, 0;
      this.size := size;
      buf := new Byte[size](_ => 0);
      q := Backlog([], [], [], 0);
    }

    /** `buffer_reset`. It forgets everything, but segments without bytes may be taken to be there still. */
    method Reset(ghost kept: seq<Segment> := [])
      requires buf.Length == size > 0 && Flatten(kept) == []
      modifies this
      ensures Valid() && q == Backlog([], kept, [], 0)
      ensures buf == old(buf) && size == old(size)
      ensures read == 0 && write == 0 && seek == 0 && len == 0 && gap == 0 && end == 0
    {
      q := Backlog([], kept, [], 0);
      read, write, seek, len, gap, end := 0, 0, 0, 0, 0, 0;
    }

    /** `buffer_realloc`: grow, and if wrapped slide [read, end) up to the new end. */
    method Realloc(newSize: nat)
      requires Valid() && q.room == 0 && newSize >= size
      modifies this
      ensures Valid() && fresh(buf) && size == newSize && q == old(q)
      ensures write == old(write) && seek == old(seek) && len == old(len)
      ensures Wrapped() == old(Wrapped())
      ensures Wrapped() ==> read - write == newSize - len
    {
      ghost var b := buf[..];
      var bytes := Enlarged(buf, newSize);
      StoredEnlarged(b, bytes[..], Wrapped(), read, write, end, q);
      if len > 0 && read >= write {
        ghost var c := bytes[..];
        var index := SlideUp(bytes, read, end);
        StoredSlid(c, bytes[..], read, write, end, q);
        read, end := index, newSize;
      }
      buf, size, gap := bytes, newSize, 0;
    }

    /** The guard of the branch of `buffer_rectify` that starts over at index 0. */
    predicate WrapsFor(need: nat)
      reads this
    {
      !Wrapped() && len > 0 && write + need > size && read >= need
    }

    /** The guard of the branch that empties an empty buffer. */
    predicate ResetsFor(need: nat)
      reads this
    {
      len == 0 && need <= size && write + need > size
    }

    /** There are `need` contiguous bytes somewhere outside the unread data and the gap. */
    predicate Fits(need: nat)
      reads this
    {
      if Wrapped() then write + need <= read
      else if len == 0 then need <= size
      else write + need <= size || need <= read
    }

    lemma FitsMeansFreeRun(need: nat)
      requires Valid() && need > 0
      ensures Fits(need) <==> exists from: nat :: FreeRun(from, need)
    {
      if Wrapped() || write + need <= size {
        assert write + need <= (if Wrapped() then read else size) ==> FreeRun(write, need);
      } else {
        assert need <= (if len == 0 then size else read) ==> FreeRun(0, need);
      }
      forall from: nat | FreeRun(from, need)
        ensures Free(from) && Free(from + need - 1) && (from <= read < from + need ==> Free(read))
      {
      }
    }

    /** `buffer_rectify`: make `need` contiguous bytes available at `write`. */
    method Rectify(need: nat) returns (res: Status)
      requires Valid() && q.open == []
      modifies this
      ensures Valid() && q.open == [] && Contents() == old(Contents())
      ensures buf == old(buf) || fresh(buf)
      ensures need == 0 ==> res == ParamError && unchanged(this)
      ensures need > 0 ==> res == Success && q.room == need
      ensures need > 0 ==> size == if old(Fits(need)) then old(size) else old(size + Max(size / 2, need * 10))
      ensures need > 0 ==> write == if old(WrapsFor(need) || ResetsFor(need)) then 0 else old(write)
      ensures need > 0 ==> seek == if old(ResetsFor(need)) then 0 else old(seek)
      ensures old(Fits(need) && !ResetsFor(need)) ==> read == old(read)
      ensures old(Fits(need)) ==> buf == old(buf)
      ensures len == old(len)
    {
      if need == 0 { return ParamError; }
      q := q.(room := 0);
      MakeRoom(need);
      q := q.(room := need);
      return Success;
    }

    /** The body of `buffer_rectify` after its parameter check. */
    method MakeRoom(need: nat)
      requires Valid() && q.open == [] && q.room == 0 && need > 0
      modifies this
      ensures Valid() && q.open == [] && q.room == 0 && Contents() == old(Contents())
      ensures write + need <= if Wrapped() then read else size
      ensures buf == old(buf) || fresh(buf)
      ensures size == if old(Fits(need)) then old(size) else old(size + Max(size / 2, need * 10))
      ensures write == if old(WrapsFor(need) || ResetsFor(need)) then 0 else old(write)
      ensures seek == if old(ResetsFor(need)) then 0 else old(seek)
      ensures old(Fits(need) && !ResetsFor(need)) ==> read == old(read)
      ensures old(Fits(need)) ==> buf == old(buf)
      ensures len == old(len)
    {
      var newSize := size + Max(size / 2, need * 10);
      if size - len - gap < need || (write < read && write + need > read) {
        Realloc(newSize);
      } else if write >= read && write + need > size {
        if len == 0 {
          assert Unfold(Layout, 0);
          Reset(q.lower);
        } else if read >= need {
          StartOver();
        } else {
          Realloc(newSize);
        }
      }
    }

    /** Leave the tail as a gap and continue at index 0. */
    method StartOver()
      requires Valid() && !Wrapped() && len > 0 && q.open == [] && q.room == 0
      modifies this`write, this`gap, this`q
      ensures Valid() && q == old(q).Split()
      ensures write == 0
    {
      assert Unfold(Layout, 0);
      write := 0;
      gap := size - end;
      q := q.Split();
    }

    /** What a `memcpy` or `recv` into the reserved space does. */
    method Store(at: nat, src: seq<Byte>)
      requires Valid() && write <= at && at + |src| <= write + q.room
      modifies buf
      ensures Valid() && buf[at..at + |src|] == src
      ensures buf[..at] == old(buf[..at])
      ensures buf[at + |src|..] == old(buf[at + |src|..])
    {
      assert Unfold(Layout, 0);
      ghost var was := buf[..];
      forall i | 0 <= i < |src| {
        buf[at + i] := src[i];
      }
      assert buf[at + |src|..] == was[at + |src|..];
      if Wrapped() {
        assert buf[..][read..end] == was[read..end];
        assert buf[..][..write] == was[..write];
      } else {
        assert buf[..][read..write] == was[read..write];
      }
    }

    /** Reserved memory already filled, which `seek_write` has not been told about. */
    ghost predicate HoldsAtWrite(got: Segment)
      requires Valid()
      reads this, buf
    {
      |got| <= q.room && buf[write..write + |got|] == got
    }

    /** The bytes behind the reserved ones are as they were. */
    ghost predicate KeptBeyond(was: seq<Byte>)
      reads this, buf
    {
      SameFrom(buf[..], was, write + q.room)
    }

    /** A `recv` behind the bytes `had` that earlier ones left at the write pointer. */
    method StoreNext(n: nat, ghost had: Segment, src: Segment, ghost was: seq<Byte>)
      requires Valid() && HoldsAtWrite(had) && |had| == n && n + |src| <= q.room && KeptBeyond(was)
      modifies buf
      ensures Valid() && HoldsAtWrite(had + src) && KeptBeyond(was)
    {
      ghost var b := buf[..];
      Store(write + n, src);
      StillSameFrom(buf[..], b, was, write + n + |src|, write + q.room);
      Extended(b, buf[..], write, had, src);
    }

    /** Memory behind `write` that nothing is held in may be written to without `buffer_rectify`. */
    ghost method Claim(room: nat)
      requires Valid() && !Wrapped() && write + room <= size
      modifies this`q
      ensures Valid() && q == old(q).(room := room)
    {
      q := q.(room := room);
    }

    /** A segment may be closed before its reservation is used up: the terminator stays outside it. */
    ghost method Close()
      requires Valid()
      modifies this`q
      ensures Valid() && q == old(Backlog(q.upper, q.lower + [q.open], [], 0))
    {
      StoredPush(buf[..], Wrapped(), read, write, end, 0, q.(room := 0));
      assert q.open + [] == q.open;
      q := Backlog(q.upper, q.lower + [q.open], [], 0);
    }

    /** The terminator is written past the segment and not counted in it. */
    method Terminate()
      requires Valid() && q.room == 1
      modifies buf, this`q
      ensures Valid() && q.open == [] && q.room == 0 && Contents() == old(Contents() + [q.open])
      ensures Free(write) && buf[write] == 0
    {
      Store(write, [0]);
      assert buf[write..write + 1][0] == 0;
      Close();
    }

    /** The macro `seek_write`, over the bytes `got` stored at the write pointer. */
    method SeekWrite(off: nat, ghost got: Segment)
      requires Valid() && q.room > 0 && |got| == off && HoldsAtWrite(got)
      modifies this
      ensures Valid() && buf == old(buf) && size == old(size) && seek == old(seek) && read == old(read)
      ensures write == (if old(write) + off == size then 0 else old(write) + off)
      ensures len == old(len) + off && q.room == old(q.room) - off
      ensures off < old(q.room) ==> q.open == old(q.open) + got && Contents() == old(Contents())
      ensures off == old(q.room) ==> q.open == [] && Contents() == old(Contents()) + [old(q.open) + got]
    {
      StoredPush(buf[..], Wrapped(), read, write, end, off, q);
      MoveOn(off, got);
      if write == size {
        TurnOver();
      }
    }

    /** The indices as they are right after `off` bytes were counted. */
    method MoveOn(off: nat, ghost got: Segment)
      requires |got| == off <= q.room
      modifies this`write, this`len, this`end, this`q
      ensures q == old(q).Push(got) && len == old(len) + off && write == old(write) + off
      ensures end == Max(write, old(end))
    {
      q := q.Push(got);
      len := len + off;
      write := write + off;
      end := Max(write, end);
    }

    /** The last byte of the buffer was written: the next segment starts at index 0. */
    method TurnOver()
      requires buf.Length == size && read < write == end == size && len == write - read && gap == 0
      requires q.open == [] && q.room == 0 && Stored(buf[..], false, read, write, end, q)
      modifies this`write, this`q
      ensures Valid() && write == 0 && q == old(q).Split()
    {
      assert Unfold(Layout, 0);
      write := 0;
      q := q.Split();
    }

    /** With bytes stored at the write pointer the open segment is contiguous. */
    lemma GotIsContiguous(got: Segment)
      requires Valid() && HoldsAtWrite(got)
      ensures var at := write - |q.open|;
        0 <= at && write + |got| <= size && buf[at..write + |got|] == q.open + got
    {
      ghost var b := buf[..];
      OpenIsContiguous();
      assert b[write..write + |got|] == got;
      Extended(b, b, write - |q.open|, q.open, got);
    }

    /** A copy to the write pointer followed by `seek_write`. */
    method Fill(src: Segment)
      requires Valid() && |src| <= q.room && q.room > 0
      modifies this, buf
      ensures Valid() && buf == old(buf) && size == old(size) && seek == old(seek) && read == old(read)
      ensures len == old(len) + |src| && q.room == old(q.room) - |src|
      ensures write == (if old(write) + |src| == size then 0 else old(write) + |src|)
      ensures |src| < old(q.room) ==> q.open == old(q.open) + src && Contents() == old(Contents())
      ensures |src| == old(q.room) ==> q.open == [] && Contents() == old(Contents()) + [old(q.open) + src]
    {
      Store(write, src);
      SeekWrite(|src|, src);
    }

    /** `buffer_write`: one segment, followed by a terminator outside it that never hits unread data. */
    method Write(src: Segment) returns (res: Status)
      requires Valid() && q.open == []
      modifies this, buf
      ensures Valid() && res == Success && q.open == [] && q.room == 0
      ensures Contents() == old(Contents()) + [src]
      ensures buf == old(buf) || fresh(buf)
      ensures Free(write) && buf[write] == 0
      ensures write == (if old(WrapsFor(|src| + 1) || ResetsFor(|src| + 1)) then 0 else old(write)) + |src|
      ensures len == old(len) + |src|
    {
      res := Rectify(|src| + 1);
      Fill(src);
      assert q.open == src;
      Terminate();
    }

    /** `buffer_write_int`: the same steps with the four bytes of a 32-bit number, least significant first. */
    method WriteInt(num: int) returns (res: Status)
      requires Valid() && q.open == []
      modifies this, buf
      ensures Valid() && res == Success && q.open == [] && q.room == 0
      ensures Contents() == old(Contents()) + [IntBytes(num)]
      ensures buf == old(buf) || fresh(buf)
      ensures Free(write) && buf[write] == 0
      ensures write == (if old(WrapsFor(5) || ResetsFor(5)) then 0 else old(write)) + 4
      ensures len == old(len) + 4
    {
      res := Write(IntBytes(num));
    }

    /** `seek` catches up with `write`. */
    method Mark()
      requires Valid()
      modifies this`seek
      ensures Valid() && seek == write
    {
      seek := write;
    }

    /** The macro `seek_read`, taking the oldest segment whole, or nothing. */
    method SeekRead(off: nat, ghost whole: bool)
      requires Valid()
      requires if whole then Contents() != [] && off == |Contents()[0]| else off == 0
      modifies this
      ensures Valid() && buf == old(buf) && size == old(size)
      ensures write == old(write) && seek == old(seek) && len == old(len) - off
      ensures !old(Wrapped()) ==> !Wrapped()
      ensures q.open == old(q.open) && q.room == old(q.room)
      ensures Contents() == if whole then old(Contents())[1..] else old(Contents())
    {
      ghost var b, two := buf[..], Wrapped();
      StoredTake(b, two, read, write, end, q, off, whole);
      q := q.Take(whole, two && read + off == end);
      read := read + off;
      len := len - off;
      assert buf[..] == b;
      if read >= end && read != write {
        Rewind();
      }
    }

    /** The upper piece is used up: what remains is one piece from index 0. */
    method Rewind()
      requires buf.Length == size && write + q.room <= size && write < size && len == write
      requires Stored(buf[..], false, 0, write, write, q)
      modifies this`read, this`gap, this`end
      ensures Valid()
    {
      read := 0;
      gap := 0;
      end := write;
    }

    /** The macro `buffer_read`: the oldest segment starts at the returned index. */
    method Read(n: nat, ghost whole: bool) returns (ptr: nat)
      requires Valid()
      requires if whole then Contents() != [] && n == |Contents()[0]| else n == 0
      modifies this
      ensures Valid() && buf == old(buf) && size == old(size)
      ensures write == old(write) && seek == old(seek) && len == old(len) - n
      ensures !old(Wrapped()) ==> !Wrapped()
      ensures q.open == old(q.open) && q.room == old(q.room)
      ensures Contents() == if whole then old(Contents())[1..] else old(Contents())
      ensures ptr + n <= size && (whole ==> buf[ptr..ptr + n] == old(Contents())[0])
    {
      ptr := read;
      if whole { Oldest(); }
      SeekRead(n, whole);
    }

    /** The segment being written lies contiguously before `write`. */
    lemma OpenIsContiguous()
      requires Valid()
      ensures |q.open| <= write && buf[write - |q.open|..write] == q.open
    {
      assert Unfold(Layout, 0);
      var from := if Wrapped() then 0 else read;
      SplitSlice(buf[..], from, write, Flatten(q.lower), q.open);
    }

    /** `len` counts the bytes of all segments held. */
    lemma LengthIsExact()
      requires Valid()
      ensures len == |Flatten(Contents())| + |q.open|
    {
      assert Unfold(Layout, 0);
      FlattenAppend(q.upper, q.lower);
    }

    /** The oldest unread segment lies contiguously at `read`. */
    lemma Oldest()
      requires Valid() && Contents() != []
      ensures read + |Contents()[0]| <= (if Wrapped() then end else write)
      ensures |Contents()[0]| <= len
      ensures buf[read..read + |Contents()[0]|] == Contents()[0]
    {
      StoredPop(buf[..], Wrapped(), read, write, end, q);
    }
  }
}
