/** The pools of clients (epollet/client.c) and of memory blocks (common/store.c), both over the intrusive list. */
module Pools {
  import opened Bytes
  import opened Frames
  import opened Receives
  import opened Framing
  import opened GapRing
  import opened Lists

  const INVALID_SOCKET := -1

  /** A client: what receiving and dispatching use of it is `state`, an object of its own here. */
  datatype Record = Record(
    id: nat, fd: int, parent: int, ip: nat, aliveTime: nat, isSafe: bool, isReady: bool, state: Client)

  /** What `client_reset` sets outside `state`; `parent`, `ip` and `alive_time` stay. */
  function Reset(r: Record): Record {
    r.(fd := INVALID_SOCKET, isSafe := false, isReady := false)
  }

  /** As `client_init` leaves a client. */
  ghost predicate AsNew(r: Record)
    reads r.state, r.state.inb
  {
    && r == Record(r.id, INVALID_SOCKET, 0, 0, 0, false, false, r.state)
    && r.state.Cleared() && r.state.read == 0 && !r.state.isOk
  }

  /** As `client_reset` leaves one. */
  ghost predicate AsReset(r: Record)
    reads r.state, r.state.inb
  {
    r == Reset(r) && r.state.Cleared()
  }

  /** The id table and the list of free clients. */
  class ClientPool {
    var free: List<Record>
    var table: seq<Item<Record>>
    ghost var outstanding: set<Item<Record>>
    ghost var states: seq<Client>
    ghost var buffers: seq<Buffer>

    /** A client sits at its id, and was reset if it is free. */
    ghost predicate Seated(i: nat)
      requires i < |table| == |states| == |buffers|
      reads this, free, table, states, buffers
    {
      && table[i].payload.id == i && table[i].payload.state == states[i] && states[i].inb == buffers[i]
      && (table[i] in free.items ==> table[i].payload == Reset(table[i].payload) && states[i].Cleared())
    }

    /** Every client sits at its id, with memory of its own, and is either free or outstanding. */
    ghost predicate Valid()
      reads this, free, free.items, table, states, buffers
    {
      && free.Valid()
      && |table| == |states| == |buffers| && Distinct(states) && Distinct(buffers)
      && (forall i :: 0 <= i < |table| ==> Seated(i))
      && (forall x :: x in outstanding ==> x in table && x !in free.items)
      && (forall x :: x in free.items ==> x in table)
      && (forall x :: x in table ==> x in free.items || x in outstanding)
    }

    /** `client_store_init`. */
    constructor ()
      ensures Valid() && table == [] && outstanding == {} && fresh(free)
    {
      free := new List();
      table, outstanding, states, buffers := [], {}, [], [];
    }

    /** `extract_client`: a free client if there is one, otherwise a new one with the next id. */
    method Extract() returns (c: Item<Record>)
      requires Valid()
      modifies this, free, free.Members()`prev, free.Members()`next
      ensures Valid() && free == old(free)
      ensures c !in old(outstanding) && outstanding == old(outstanding) + {c}
      ensures AsReset(c.payload)
      ensures AsNew(c.payload) <==>
        && c.payload.state.read == 0 && !c.payload.state.isOk
        && c.payload.parent == c.payload.ip == c.payload.aliveTime == 0
      ensures old(free.items) != [] ==>
        c == old(free.items)[0] && table == old(table) && free.items == old(free.items)[1..] && states == old(states)
      ensures old(free.items) == [] ==>
        && fresh(c) && fresh(c.payload.state) && fresh(c.payload.state.inb) && fresh(c.payload.state.inb.buf)
        && table == old(table) + [c]
        && free.items == [] && c.payload.id == |old(table)| && AsNew(c.payload)
    {
      if free.size > 0 {
        c := Reuse();
      } else {
        c := Add();
      }
    }

    method Reuse() returns (c: Item<Record>)
      requires Valid() && free.items != []
      modifies this`outstanding, free, free.Members()`prev, free.Members()`next
      ensures Valid() && c == old(free.items)[0] && c !in old(outstanding) && outstanding == old(outstanding) + {c}
      ensures free.items == old(free.items)[1..] && AsReset(c.payload)
    {
      FoundUnderId(free.items[0]);
      assert Seated(free.items[0].payload.id);
      c := free.PopFront();
      outstanding := outstanding + {c};
      forall i | 0 <= i < |table|
        ensures Seated(i)
      {
        assert old(Seated(i));
      }
    }

    method Add() returns (c: Item<Record>)
      requires Valid()
      modifies this`outstanding, this`table, this`states, this`buffers
      ensures Valid()
      ensures fresh(c) && fresh(c.payload.state) && fresh(c.payload.state.inb) && fresh(c.payload.state.inb.buf)
      ensures outstanding == old(outstanding) + {c} && table == old(table) + [c]
      ensures c.payload.id == |old(table)| && AsNew(c.payload) && AsReset(c.payload)
    {
      var state := new Client();
      c := new Item(Record(|table|, INVALID_SOCKET, 0, 0, 0, false, false, state));
      table := table + [c];
      states, buffers := states + [state], buffers + [state.inb];
      outstanding := outstanding + {c};
      forall i | 0 <= i < |table|
        ensures Seated(i)
      {
        assert i < |table| - 1 ==> old(Seated(i));
      }
    }

    /** `recycle_client`. */
    method Recycle(c: Item<Record>)
      requires Valid() && c in outstanding
      requires c.payload.state.inb.buf.Length == c.payload.state.inb.size >= 2 * HEAD_SIZE
      modifies this`outstanding, free, free.Members()`prev, free.Members()`next, c
      modifies c.payload.state`status, c.payload.state`need, c.payload.state.inb
      ensures Valid() && table == old(table) && outstanding == old(outstanding) - {c} && states == old(states)
      ensures free == old(free) && free.items == old(free.items) + [c] && c.payload == Reset(old(c.payload))
    {
      FoundUnderId(c);
      ghost var k := c.payload.id;
      assert Seated(k);
      c.payload.state.Reset();
      c.payload := Reset(c.payload);
      free.PushBack(c);
      outstanding := outstanding - {c};
      forall i | 0 <= i < |table|
        ensures Seated(i)
      {
        assert old(Seated(i));
        assert i != k ==> states[i] != states[k] && buffers[i] != buffers[k];
      }
    }

    /**
     The client a connection gets in `tcp_accept`. It will receive as it should if and only if the one extracted was
     recycled between segments, because `read` is not reset.
     */
    method Accept(fd: int, ip: nat, parent: int, stream: Segment, events: seq<Event>) returns (c: Item<Record>)
      requires Valid()
      modifies this, free, free.Members(), states
      ensures Valid() && free == old(free) && c !in old(outstanding) && outstanding == old(outstanding) + {c}
      ensures c.payload.fd == fd && c.payload.ip == ip && c.payload.parent == parent
      ensures c.payload.state.sock.stream == stream && c.payload.state.sock.events == events
      ensures c.payload.state.consumed == [] && c.payload.state.need == HEAD_SIZE
      ensures c.payload.state.read == old(if free.head == null then 0 else free.head.payload.state.read)
      ensures c.payload.state.InStep() <==> c.payload.state.read == 0
      ensures c.payload.state.read == 0 ==>
        c.payload.state.Straight(0, 0, c.payload.state.inb.size) && c.payload.state.inb.size >= 2 * HEAD_SIZE
      ensures c.payload.state.read > 0 ==> c.payload.state.LeftOver()
      ensures table == if old(free.items) == [] then old(table) + [c] else old(table)
      ensures old(free.items) == [] ==>
        && free.items == [] && fresh(c) && fresh(c.payload.state)
        && fresh(c.payload.state.inb) && fresh(c.payload.state.inb.buf)
      ensures old(free.items) != [] ==> free.items == old(free.items)[1..] && c == old(free.items)[0]
      ensures fresh(c.payload.state.sock)
    {
      c := Extract();
      FoundUnderId(c);
      assert Seated(c.payload.id);
      Connect(c, fd, ip, parent, stream, events);
    }

    method Connect(c: Item<Record>, fd: int, ip: nat, parent: int, stream: Segment, events: seq<Event>)
      requires Valid() && c in outstanding && AsReset(c.payload)
      modifies c`payload, c.payload.state
      ensures Valid() && c.payload == old(c.payload).(fd := fd, ip := ip, parent := parent)
      ensures c.payload.state.sock.stream == stream && c.payload.state.sock.events == events
      ensures c.payload.state.consumed == [] && c.payload.state.need == HEAD_SIZE
      ensures c.payload.state.read == old(c.payload.state.read)
      ensures c.payload.state.InStep() <==> c.payload.state.read == 0
      ensures c.payload.state.inb == old(c.payload.state.inb) && fresh(c.payload.state.sock)
      ensures c.payload.state.read == 0 ==>
        c.payload.state.Straight(0, 0, c.payload.state.inb.size) && c.payload.state.inb.size >= 2 * HEAD_SIZE
      ensures c.payload.state.read > 0 ==> c.payload.state.LeftOver()
    {
      FoundUnderId(c);
      ghost var k := c.payload.id;
      assert Seated(k);
      c.payload := c.payload.(fd := fd, ip := ip, parent := parent);
      c.payload.state.Accept(stream, events);
      forall i | 0 <= i < |table|
        ensures Seated(i)
      {
        assert old(Seated(i));
        assert i != k ==> states[i] != states[k] && buffers[i] != buffers[k];
      }
    }

    /** `tcp_read` on a client that is not free leaves the pool as it is. */
    method Receive(c: Item<Record>) returns (res: int)
      requires Valid() && c in outstanding && c.payload.state.InStep()
      modifies c.payload.state, c.payload.state.inb, c.payload.state.inb.buf, c.payload.state.sock
      ensures Valid() && c.payload.state.inb == old(c.payload.state.inb)
      ensures res == 0 || res == -1 || res == -4 || res == ASTRAY
      ensures var state := c.payload.state;
        && state.consumed + state.sock.stream == old(state.consumed + state.sock.stream)
        && (res == -1 <==> res >= -1 && Parse(state.consumed).Rejected?)
        && (state.InStep() <==> res == 0)
        && (old(Plenty(state.sock.events, |state.sock.stream|)) ==> res != -4 && (res == 0 ==> state.sock.stream == []))
        && (res == ASTRAY ==> old(state.inb.write + |state.sock.stream| >= state.inb.size
              || !state.Straight(state.inb.read, state.inb.write, state.inb.size)))
    {
      FoundUnderId(c);
      ghost var k := c.payload.id;
      assert Seated(k);
      var state := c.payload.state;
      ghost var all := |state.consumed + state.sock.stream|;
      res := state.TcpRead();
      assert |state.consumed + state.sock.stream| == all;
      forall i | 0 <= i < |table|
        ensures Seated(i)
      {
        assert old(Seated(i));
        assert i != k ==> states[i] != states[k] && buffers[i] != buffers[k];
      }
    }

    /** `get_client`. */
    method GetClient(id: nat) returns (c: Item?<Record>)
      requires Valid()
      ensures if id < |table| then c != null && c == table[id] && c.payload.id == id else c == null
    {
      if id >= |table| { return null; }
      assert Seated(id);
      return table[id];
    }

    /** A client is found under its own id for as long as it exists. */
    lemma FoundUnderId(c: Item<Record>)
      requires Valid() && (c in outstanding || c in free.items)
      ensures c.payload.id < |table| && table[c.payload.id] == c
    {
      assert c in table;
      var i :| 0 <= i < |table| && table[i] == c;
      assert Seated(i);
    }
  }

  method ThreeBytes(pool: ClientPool, c: Item<Record>)
    requires pool.Valid() && c in pool.outstanding && c.payload.state.InStep() && c.payload.state.consumed == []
    requires |c.payload.state.sock.stream| == 3 && Plenty(c.payload.state.sock.events, 3)
    requires c.payload.state.Straight(0, 0, c.payload.state.inb.size) && c.payload.state.inb.size >= 2 * HEAD_SIZE
    modifies c.payload.state, c.payload.state.inb, c.payload.state.inb.buf, c.payload.state.sock
    ensures pool.Valid() && c.payload.state.inb == old(c.payload.state.inb) && c.payload.state.read == 3
    ensures c.payload.state.inb.buf.Length == c.payload.state.inb.size >= 2 * HEAD_SIZE
  {
    var res := pool.Receive(c);
    assert |c.payload.state.consumed + c.payload.state.sock.stream| == 3;
    c.payload.state.Sized();
  }

  /** The first connection ends after three bytes of a head, and its client is recycled. */
  method HeadCutShort() returns (pool: ClientPool, first: Item<Record>)
    ensures pool.Valid() && pool.free.items == [first] && pool.states == [first.payload.state]
    ensures fresh(pool) && fresh(pool.free) && fresh(first) && fresh(first.payload.state)
    ensures first.payload.state.read == 3
  {
    pool := new ClientPool();
    first := pool.Accept(5, 0, 3, [1, 0, 0], seq(4, _ => Available(3)));
    ghost var state := first.payload.state;
    assert pool.Seated(0) && pool.states == [state];
    ThreeBytes(pool, first);
    pool.Recycle(first);
  }

  /** The next connection gets that client, which takes the three bytes for its own and asks for the five missing. */
  method RecycledInsideHead(stream: Segment, events: seq<Event>) returns (c: Item<Record>)
    ensures c.payload.state.sock.stream == stream && c.payload.state.sock.events == events
    ensures c.payload.state.consumed == [] && c.payload.state.need == HEAD_SIZE
    ensures c.payload.state.read == 3 && !c.payload.state.InStep() && c.payload.state.LeftOver()
  {
    var pool, first := HeadCutShort();
    c := pool.Accept(6, 0, 3, stream, events);
  }

  /** Five bytes later the guide of such a client decides on a size, while the parser is still inside the head. */
  method HeadTooShort(c: Client)
    requires c.LeftOver() && c.read == 3 && c.consumed == []
    requires |c.sock.stream| >= 5 && Plenty(c.sock.events, |c.sock.stream|)
    modifies c, c.inb, c.inb.buf, c.sock
    ensures c.consumed == old(c.sock.stream[..5]) && Parse(c.consumed) == Reading([], Head, HEAD_SIZE, c.consumed)
    ensures c.DecisionTaken(DecisionOn(FromLittleEndian(old(c.sock.stream[..SIZE_SIZE])))) && !c.InStep()
  {
    ghost var stream, events := c.sock.stream, c.sock.events;
    var res;
    ghost var o;
    res, o := c.ReadLeftOver();
    PlentyDrains(events, |stream|, 5, o);
    assert c.consumed == (c.consumed + c.sock.stream)[..5];
    assert c.inb.buf[..][..SIZE_SIZE] == c.inb.buf[..5][..SIZE_SIZE] == stream[..SIZE_SIZE];
  }

  /** The store of equal blocks. The list item in front of a block is not part of it. */
  class Store {
    const chunkSize: nat
    var chunks: List<seq<Byte>>
    ghost var all: set<Item<seq<Byte>>>
    ghost var outstanding: set<Item<seq<Byte>>>

    ghost predicate Valid()
      reads this, chunks, chunks.items
    {
      && chunks.Valid()
      && outstanding <= all
      && (forall x :: x in chunks.items ==> x in all && x !in outstanding)
      && (forall x :: x in all ==> x in chunks.items || x in outstanding)
    }

    /** `create_store`. */
    constructor (chunkSize: nat)
      ensures Valid() && all == outstanding == {} && fresh(chunks) && this.chunkSize == chunkSize
    {
      this.chunkSize := chunkSize;
      chunks := new List();
      all, outstanding := {}, {};
    }

    /** `extract_chunk`: the block recycled longest ago, or a new one filled with zeros. */
    method Extract() returns (chunk: Item<seq<Byte>>)
      requires Valid()
      modifies this`all, this`outstanding, chunks, chunks.Members()`prev, chunks.Members()`next
      ensures Valid() && chunk !in old(outstanding) && outstanding == old(outstanding) + {chunk}
      ensures if old(chunks.items) != [] then chunk == old(chunks.items)[0] && all == old(all)
        else fresh(chunk) && all == old(all) + {chunk} && chunk.payload == seq(chunkSize, _ => 0)
    {
      if chunks.size > 0 {
        chunk := chunks.PopFront();
      } else {
        chunk := new Item(seq(chunkSize, _ => 0));
        all := all + {chunk};
      }
      outstanding := outstanding + {chunk};
    }

    /** The macro `recycle_chunk`. */
    method Recycle(chunk: Item<seq<Byte>>)
      requires Valid() && chunk in outstanding
      modifies this`outstanding, chunks, chunks.Members()`prev, chunks.Members()`next, chunk`prev, chunk`next
      ensures Valid() && outstanding == old(outstanding) - {chunk} && all == old(all)
      ensures chunks.items == old(chunks.items) + [chunk]
    {
      chunks.PushBack(chunk);
      outstanding := outstanding - {chunk};
    }
  }
}
