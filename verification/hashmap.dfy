/** The chained hash map with caller-supplied entries (c-stl/map.c). */
module HashMaps {
  import opened Folding
  import opened Lists

  const DEFAULT_TABLE_SIZE := 32

  /** The links stand at the front of whatever structure is put into the map. */
  class Entry {
    var hashcode: nat
    var key: string
    var next: Entry?

    constructor ()
    {
      hashcode, key, next := 0, "", null;
    }
  }

  ghost predicate Chained(chain: seq<Entry>)
    reads chain
  {
    && Distinct(chain)
    && forall i {:trigger NextIn(chain, i)} :: 0 <= i < |chain| ==> chain[i].next == NextIn(chain, i)
  }

  ghost function NextIn(chain: seq<Entry>, i: nat): Entry? {
    if i + 1 < |chain| then chain[i + 1] else null
  }

  /** A chain but for the entry in place `i`, which its predecessor now skips. */
  lemma ChainedRemoved(chain: seq<Entry>, i: nat)
    requires Distinct(chain) && i < |chain|
    requires forall j {:trigger NextIn(chain, j)} ::
      0 <= j < |chain| && j != i && j + 1 != i ==> chain[j].next == NextIn(chain, j)
    requires i > 0 ==> chain[i - 1].next == NextIn(chain, i)
    ensures Chained(Removed(chain, i)) && chain[i] !in Removed(chain, i)
  {
    DistinctRemoved(chain, i);
    var left := Removed(chain, i);
    forall j | 0 <= j < |left|
      ensures left[j].next == NextIn(left, j)
    {
      var k := if j < i then j else j + 1;
      assert left[j] == chain[k] && NextIn(left, j) == if j + 1 == i then NextIn(chain, i) else NextIn(chain, k);
    }
  }

  /** A chain whose last entry now leads on to another. */
  lemma ChainedAppended(chain: seq<Entry>, value: Entry)
    requires Distinct(chain) && value !in chain && value.next == null
    requires forall j {:trigger NextIn(chain, j)} :: 0 <= j < |chain| - 1 ==> chain[j].next == NextIn(chain, j)
    requires chain != [] ==> chain[|chain| - 1].next == value
    ensures Chained(chain + [value])
  {
    var more := chain + [value];
    forall j | 0 <= j < |more|
      ensures more[j].next == NextIn(more, j)
    {
      assert j < |chain| - 1 ==> NextIn(more, j) == NextIn(chain, j);
    }
  }

  class HashMap {
    var table: array<Entry?>
    var tableSize: nat
    var size: nat
    var conflict: nat
    var puts: nat
    const hash: string -> nat
    ghost var chains: seq<seq<Entry>>
    ghost var entries: set<Entry>
    ghost var content: map<string, Entry>

    function Bucket(key: string): (b: nat)
      requires tableSize > 0
      reads this`tableSize
      ensures b < tableSize
    {
      hash(key) % tableSize
    }

    ghost predicate ChainOk(b: nat)
      requires b < table.Length == |chains| == tableSize
      reads this`table, this`tableSize, this`chains, this`entries, table, entries
    {
      var chain := chains[b];
      && (forall i :: 0 <= i < |chain| ==> chain[i] in entries)
      && Chained(chain)
      && table[b] == (if chain == [] then null else chain[0])
      && (forall e {:trigger e in chain} :: e in chain ==> Bucket(e.key) == b)
    }

    ghost predicate EntryOk(e: Entry)
      requires tableSize > 0
      reads this`tableSize, this`chains, this`content, e
    {
      && |chains| == tableSize
      && e.hashcode == hash(e.key)
      && e.key in content && content[e.key] == e
      && e in chains[Bucket(e.key)]
    }

    ghost predicate KeyOk(key: string)
      reads this`entries, this`content, entries
    {
      key in content && content[key] in entries && content[key].key == key
    }

    /** Entries and keys agree, whatever the links between the entries. */
    ghost predicate Indexed()
      reads this`table, this`tableSize, this`chains, this`entries, this`content, table, entries
    {
      && table.Length == |chains| == tableSize > 0
      && forall i {:trigger Unfold(Chaining, i)} :: Unfold(Chaining, i) ==>
        && (forall e {:trigger EntryOk(e)} :: e in entries ==> EntryOk(e))
        && (forall key {:trigger KeyOk(key)} :: key in content ==> KeyOk(key))
    }

    /** Every chain in order but perhaps one. */
    ghost predicate Others(pos: nat)
      reads this`table, this`tableSize, this`chains, this`entries, this`content, table, entries
    {
      Indexed() && forall b :: 0 <= b < tableSize && b != pos ==> ChainOk(b)
    }

    /** Every chain in order. */
    ghost predicate Whole()
      reads this`table, this`tableSize, this`chains, this`entries, this`content, table, entries
    {
      Indexed() && forall b :: 0 <= b < tableSize ==> ChainOk(b)
    }

    /** The entries are those of the map they stand for, each in the chain of its key's bucket. */
    ghost predicate Valid()
      reads this`table, this`tableSize, this`size, this`chains, this`entries, this`content, table, entries
    {
      Whole() && size == |content|
    }

    /** `map_init_custom` with any hash function; a table smaller than the default is not made. */
    constructor (spar: nat, hash: string -> nat)
      ensures Valid() && content == map[] && entries == {} && this.hash == hash && fresh(table)
      ensures tableSize == if spar < DEFAULT_TABLE_SIZE then DEFAULT_TABLE_SIZE else spar
    {
      var room := if spar < DEFAULT_TABLE_SIZE then DEFAULT_TABLE_SIZE else spar;
      this.hash := hash;
      tableSize, size, conflict, puts := room, 0, 0, 0;
      table := new Entry?[room](_ => null);
      chains := seq(room, _ => []);
      entries, content := {}, map[];
    }

    /** A key of the map is found in its chain, and only there. */
    lemma InItsChain(key: string)
      requires Valid()
      ensures key in content ==> content[key] in chains[Bucket(key)] && content[key].key == key
      ensures forall e :: e in chains[Bucket(key)] && e.key == key ==> key in content && content[key] == e
      ensures forall e :: e in chains[Bucket(key)] ==> e.hashcode == hash(e.key)
    {
      assert ChainOk(Bucket(key)) && Unfold(Chaining, 0);
      if key in content {
        assert KeyOk(key);
        assert EntryOk(content[key]);
      }
      forall e | e in chains[Bucket(key)]
        ensures e.hashcode == hash(e.key) && (e.key == key ==> key in content && content[key] == e)
      {
        assert EntryOk(e);
      }
    }

    /** The comparison made along a chain; with equal sizes `memcmp` compares the whole keys. */
    predicate Same(e: Entry, hashcode: nat, key: string)
      reads e
    {
      e.hashcode == hashcode && |e.key| == |key| && e.key == key
    }

    /** `map_get_str`. */
    method GetStr(key: string) returns (found: Entry?)
      requires Valid()
      ensures found == if key in content then content[key] else null
    {
      var hashcode := hash(key);
      var pos := hashcode % tableSize;
      ghost var chain, i := chains[pos], 0;
      assert ChainOk(pos);
      InItsChain(key);
      var temp := table[pos];
      while temp != null
        invariant i <= |chain| && temp == (if i < |chain| then chain[i] else null)
        invariant forall j :: 0 <= j < i ==> chain[j].key != key
        decreases |chain| - i
      {
        if Same(temp, hashcode, key) { return temp; }
        assert NextIn(chain, i) == temp.next;
        temp := temp.next;
        i := i + 1;
      }
      return null;
    }

    /** The walk of `map_put_str` along a chain: whether the key is taken, and the entry the walk ended at. */
    method Walk(pos: nat, hashcode: nat, key: string) returns (last: Entry?, taken: bool)
      requires Valid() && pos == Bucket(key) && hashcode == hash(key)
      ensures taken == (key in content)
      ensures !taken ==> last == if chains[pos] == [] then null else chains[pos][|chains[pos]| - 1]
    {
      ghost var chain, i := chains[pos], 0;
      assert ChainOk(pos);
      InItsChain(key);
      var temp := table[pos];
      last, taken := null, false;
      while temp != null
        invariant i <= |chain| && temp == (if i < |chain| then chain[i] else null)
        invariant last == if i == 0 then null else chain[i - 1]
        invariant forall j :: 0 <= j < i ==> chain[j].key != key
        decreases |chain| - i
      {
        last := temp;
        if Same(temp, hashcode, key) { return last, true; }
        assert NextIn(chain, i) == temp.next;
        temp := temp.next;
        i := i + 1;
      }
    }

    /** An empty chain is no conflict; another is walked to its end. */
    method Probe(pos: nat, hashcode: nat, key: string) returns (last: Entry?, taken: bool)
      requires Valid() && pos == Bucket(key) && hashcode == hash(key)
      modifies this`conflict
      ensures Valid() && taken == (key in content)
      ensures !taken ==> last == if chains[pos] == [] then null else chains[pos][|chains[pos]| - 1]
      ensures conflict == old(conflict) + (if table[pos] == null then 0 else 1)
    {
      assert ChainOk(pos);
      InItsChain(key);
      if table[pos] == null { return null, false; }
      conflict := conflict + 1;
      last, taken := Walk(pos, hashcode, key);
    }

    /** `map_put_str`: it fails exactly on a key already there, and then only the offered entry is written to. */
    method PutStr(key: string, value: Entry) returns (ok: bool)
      requires Valid() && value !in entries
      modifies this`size, this`conflict, this`puts, this`chains, this`entries, this`content, table, entries`next, value
      ensures Valid() && ok == (key !in old(content))
      ensures content == if ok then old(content)[key := value] else old(content)
      ensures entries == if ok then old(entries) + {value} else old(entries)
      ensures chains == if ok then old(chains)[Bucket(key) := old(chains)[Bucket(key)] + [value]] else old(chains)
      ensures puts == old(puts) + (if ok then 1 else 0)
      ensures conflict == old(conflict) + (if old(table[Bucket(key)]) == null then 0 else 1)
    {
      value.next := null;
      value.hashcode := hash(key);
      var pos := value.hashcode % tableSize;
      var found, taken := Probe(pos, value.hashcode, key);
      if taken { return false; }
      value.key := key;
      Insert(pos, found, value);
      puts := puts + 1;
      return true;
    }

    /** Entries and keys do not depend on links. */
    twostate lemma StillIndexed()
      requires old(Indexed())
      requires table == old(table) && tableSize == old(tableSize) && chains == old(chains)
      requires entries == old(entries) && content == old(content)
      requires forall e :: e in entries ==> e.key == old(e.key) && e.hashcode == old(e.hashcode)
      ensures Indexed()
    {
      assert Unfold(Chaining, 0);
      forall e | e in entries
        ensures EntryOk(e)
      {
        assert old(EntryOk(e));
      }
      forall key | key in content
        ensures KeyOk(key)
      {
        assert old(KeyOk(key));
      }
    }

    /** A chain apart from what was written to. */
    twostate lemma StillChained(b: nat)
      requires |chains| == table.Length == tableSize && b < tableSize
      requires table == old(table) && tableSize == old(tableSize) && chains == old(chains) && entries == old(entries)
      requires old(ChainOk(b)) && table[b] == old(table[b])
      requires forall e :: e in chains[b] ==> e.key == old(e.key) && e.next == old(e.next)
      ensures ChainOk(b)
    {
    }

    /** The pointer that makes `value` the last of its chain. */
    method Link(pos: nat, last: Entry?, value: Entry)
      requires Valid() && pos < tableSize && value !in entries && value.next == null
      requires last == if chains[pos] == [] then null else chains[pos][|chains[pos]| - 1]
      modifies table, entries`next
      ensures Others(pos)
      ensures Chained(chains[pos] + [value]) && table[pos] == (chains[pos] + [value])[0]
    {
      ghost var chain := chains[pos];
      assert ChainOk(pos);
      assert last != null ==> last in chain && Bucket(last.key) == pos;
      if last == null {
        table[pos] := value;
      } else {
        last.next := value;
      }
      ChainedAppended(chain, value);
      forall b | 0 <= b < tableSize && b != pos
        ensures ChainOk(b)
      {
        assert old(ChainOk(b));
        assert last != null ==> last !in chains[b];
        StillChained(b);
      }
      StillIndexed();
    }

    /** The bookkeeping for an entry just linked. */
    ghost method Register(pos: nat, value: Entry)
      requires Others(pos) && size == |content|
      requires value !in entries && tableSize > 0 && pos == Bucket(value.key)
      requires (forall e :: e in chains[pos] ==> e in entries && Bucket(e.key) == pos)
      requires Chained(chains[pos] + [value]) && table[pos] == (chains[pos] + [value])[0]
      requires value.key !in content && value.hashcode == hash(value.key)
      modifies this`chains, this`entries, this`content
      ensures size == old(|content|) && |content| == size + 1
      ensures content == old(content)[value.key := value] && entries == old(entries) + {value}
      ensures chains == old(chains)[pos := old(chains)[pos] + [value]]
      ensures Whole()
    {
      assert Unfold(Chaining, 0);
      chains := chains[pos := chains[pos] + [value]];
      entries := entries + {value};
      content := content[value.key := value];
      forall b | 0 <= b < tableSize
        ensures ChainOk(b)
      {
        if b != pos { assert old(ChainOk(b)); }
      }
      forall e | e in entries
        ensures EntryOk(e)
      {
        assert e != value ==> old(EntryOk(e));
      }
      forall key | key in content
        ensures KeyOk(key)
      {
        assert key != value.key ==> old(KeyOk(key));
      }
    }

    /** Link and count a new entry. */
    method Insert(pos: nat, last: Entry?, value: Entry)
      requires Valid() && value !in entries && value.next == null
      requires value.key !in content && value.hashcode == hash(value.key) && pos == Bucket(value.key)
      requires last == if chains[pos] == [] then null else chains[pos][|chains[pos]| - 1]
      modifies this`size, this`chains, this`entries, this`content, table, entries`next
      ensures Valid() && content == old(content)[value.key := value] && entries == old(entries) + {value}
      ensures chains == old(chains)[pos := old(chains)[pos] + [value]]
    {
      assert ChainOk(pos);
      Link(pos, last, value);
      Register(pos, value);
      size := size + 1;
    }

    /** The walk of `map_remove`: the entry with the key and the one before it in the chain. */
    method Find(pos: nat, hashcode: nat, key: string) returns (found: Entry?, prev: Entry?, ghost i: nat)
      requires Valid() && pos == Bucket(key) && hashcode == hash(key)
      ensures found == if key in content then content[key] else null
      ensures found != null ==> found.key == key && i < |chains[pos]| && found == chains[pos][i]
      ensures found != null ==> prev == if i == 0 then null else chains[pos][i - 1]
    {
      ghost var chain := chains[pos];
      assert ChainOk(pos);
      InItsChain(key);
      i, found, prev := 0, null, null;
      var temp := table[pos];
      while temp != null
        invariant i <= |chain| && temp == (if i < |chain| then chain[i] else null)
        invariant prev == if i == 0 then null else chain[i - 1]
        invariant forall j :: 0 <= j < i ==> chain[j].key != key
        decreases |chain| - i
      {
        if Same(temp, hashcode, key) { return temp, prev, i; }
        prev := temp;
        assert NextIn(chain, i) == temp.next;
        temp := temp.next;
        i := i + 1;
      }
    }

    /** Where the entries of a chain belong. */
    lemma Chainmates(pos: nat)
      requires Whole() && pos < tableSize
      ensures forall e :: e in chains[pos] ==> e in entries && Bucket(e.key) == pos
    {
      assert ChainOk(pos);
    }

    /** The pointers that take the entry in place `i` out of its chain. */
    method Unlink(pos: nat, ghost i: nat, found: Entry, prev: Entry?)
      requires Whole() && pos < tableSize && i < |chains[pos]| && found == chains[pos][i]
      requires prev == if i == 0 then null else chains[pos][i - 1]
      modifies table, entries`next
      ensures Others(pos) && found.next == null
      ensures var left := Removed(chains[pos], i);
        Chained(left) && found !in left && table[pos] == if left == [] then null else left[0]
    {
      ghost var chain := chains[pos];
      assert ChainOk(pos);
      assert found in chain && Bucket(found.key) == pos && found.next == NextIn(chain, i);
      assert prev != null ==> prev in chain && Bucket(prev.key) == pos;
      if prev == null {
        var p := found.next;
        found.next := null;
        table[pos] := p;
      } else {
        prev.next := found.next;
        found.next := null;
      }
      ChainedRemoved(chain, i);
      StillIndexed();
      forall b | 0 <= b < tableSize && b != pos
        ensures ChainOk(b)
      {
        assert old(ChainOk(b));
        assert found !in chains[b] && (prev != null ==> prev !in chains[b]);
        StillChained(b);
      }
    }

    /** The bookkeeping for an entry just unlinked. */
    ghost method Unregister(pos: nat, i: nat, found: Entry)
      requires Others(pos)
      requires pos < tableSize && i < |chains[pos]| && found == chains[pos][i]
      requires found in entries && pos == Bucket(found.key)
      requires forall e :: e in chains[pos] ==> e in entries && Bucket(e.key) == pos
      requires var left := Removed(chains[pos], i);
        Chained(left) && found !in left && table[pos] == if left == [] then null else left[0]
      modifies this`chains, this`entries, this`content
      ensures content == old(content) - {found.key} && entries == old(entries) - {found}
      ensures Whole() && |content| == old(|content|) - 1
    {
      assert Unfold(Chaining, 0);
      ghost var chain := chains[pos];
      assert EntryOk(found);
      chains := chains[pos := Removed(chain, i)];
      entries := entries - {found};
      content := content - {found.key};
      assert content.Keys == old(content).Keys - {found.key};
      forall b | 0 <= b < tableSize
        ensures ChainOk(b)
      {
        if b != pos {
          assert old(ChainOk(b));
          assert found !in chains[b];
        }
      }
      forall e | e in entries
        ensures EntryOk(e)
      {
        assert old(EntryOk(e));
        assert e in chain && e != found ==> e in Removed(chain, i);
      }
      forall key | key in content
        ensures KeyOk(key)
      {
        assert old(KeyOk(key));
      }
    }

    /** Unlink and uncount an entry. */
    method Cut(pos: nat, ghost i: nat, found: Entry, prev: Entry?)
      requires Valid() && pos < tableSize && i < |chains[pos]| && found == chains[pos][i]
      requires prev == if i == 0 then null else chains[pos][i - 1]
      requires found.key in content && content[found.key] == found
      modifies this`size, this`chains, this`entries, this`content, table, entries`next
      ensures Valid() && content == old(content) - {found.key}
      ensures entries == old(entries) - {found} && found.next == null
    {
      Chainmates(pos);
      assert found in chains[pos];
      Unlink(pos, i, found, prev);
      Unregister(pos, i, found);
      size := size - 1;
    }

    /** `map_remove`: the entry with the key, now outside the map, or none. */
    method Remove(key: string) returns (found: Entry?)
      requires Valid()
      modifies this`size, this`chains, this`entries, this`content, table, entries`next
      ensures Valid() && content == old(content) - {key}
      ensures if key in old(content)
        then found == old(content)[key] && found.next == null && entries == old(entries) - {found}
        else found == null && entries == old(entries)
    {
      if size == 0 { return null; }
      var hashcode := hash(key);
      var pos := hashcode % tableSize;
      var prev;
      ghost var i;
      found, prev, i := Find(pos, hashcode, key);
      if found == null { return; }
      Cut(pos, i, found, prev);
    }

    /** One bucket of `map_clear`: every entry of its chain loses its link. */
    method Sever(pos: nat)
      requires pos < tableSize && |chains| == table.Length == tableSize && ChainOk(pos)
      modifies table, entries`next
      ensures table[..] == old(table[..])[pos := null]
      ensures forall e :: e in chains[pos] ==> e.next == null
      ensures forall e :: e in entries && e !in chains[pos] ==> e.next == old(e.next)
    {
      ghost var chain, i := chains[pos], 0;
      var temp := table[pos];
      while temp != null
        invariant i <= |chain| && temp == (if i < |chain| then chain[i] else null)
        invariant forall j :: 0 <= j < i ==> chain[j].next == null
        invariant forall j {:trigger NextIn(chain, j)} :: i <= j < |chain| ==> chain[j].next == NextIn(chain, j)
        invariant forall e :: e in entries && e !in chain ==> e.next == old(e.next)
        invariant table[..] == old(table[..])
        decreases |chain| - i
      {
        assert NextIn(chain, i) == temp.next;
        var next := temp.next;
        temp.next := null;
        temp := next;
        i := i + 1;
      }
      table[pos] := null;
    }

    /** Severing a chain leaves the later ones as they are. */
    method SeverOne(pos: nat)
      requires pos < tableSize && |chains| == table.Length == tableSize
      requires forall b :: pos <= b < tableSize ==> ChainOk(b)
      modifies table, entries`next
      ensures table[pos] == null && forall b :: 0 <= b < tableSize && b != pos ==> table[b] == old(table[b])
      ensures forall e :: e in entries && e in chains[pos] ==> e.next == null
      ensures forall e :: e in entries && e !in chains[pos] ==> e.next == old(e.next)
      ensures forall b :: pos < b < tableSize ==> ChainOk(b)
    {
      assert ChainOk(pos);
      assert forall e :: e in chains[pos] ==> Bucket(e.key) == pos;
      Sever(pos);
      assert forall b :: 0 <= b < tableSize ==> table[b] == table[..][b] == old(table[..])[pos := null][b];
      forall b | pos < b < tableSize
        ensures ChainOk(b)
      {
        assert old(ChainOk(b));
        assert forall e :: e in chains[b] ==> e in entries && Bucket(e.key) == b;
        StillChained(b);
      }
    }

    /** The bucket loop of `map_clear`. */
    method SeverAll()
      requires Whole()
      modifies table, entries`next
      ensures forall b :: 0 <= b < tableSize ==> table[b] == null
      ensures forall e :: e in entries ==> e.next == null
    {
      assert forall e :: e in entries ==> e in chains[Bucket(e.key)] by {
        assert Unfold(Chaining, 0);
        assert forall e :: e in entries ==> EntryOk(e);
      }
      for i := 0 to tableSize
        invariant forall b :: 0 <= b < i ==> table[b] == null
        invariant forall b :: i <= b < tableSize ==> ChainOk(b)
        invariant forall e :: e in entries && Bucket(e.key) < i ==> e.next == null
      {
        SeverOne(i);
      }
    }

    /** `map_clear`: nothing is left in the map, and nothing that was in it still points into it. */
    method Clear()
      requires Valid()
      modifies this`size, this`conflict, this`puts, this`chains, this`entries, this`content, table, entries`next
      ensures Valid() && content == map[] && entries == {} && size == conflict == puts == 0
      ensures forall e :: e in old(entries) ==> e.next == null
    {
      SeverAll();
      size, conflict, puts := 0, 0, 0;
      chains := seq(tableSize, _ => []);
      entries, content := {}, map[];
    }

    /** The map as its integer keys see it. */
    ghost function Numbered(): map<int, Entry>
      reads this`content
    {
      map k: int | -TWO_TO_THE_31 <= k < TWO_TO_THE_31 && Printed(k) in content :: content[Printed(k)]
    }

    /** `map_put`. */
    method Put(key: int, value: Entry) returns (ok: bool)
      requires Valid() && value !in entries && -TWO_TO_THE_31 <= key < TWO_TO_THE_31
      modifies this`size, this`conflict, this`puts, this`chains, this`entries, this`content, table, entries`next, value
      ensures Valid() && ok == (key !in old(Numbered()))
      ensures Numbered() == if ok then old(Numbered())[key := value] else old(Numbered())
    {
      ok := PutStr(Printed(key), value);
      forall k | -TWO_TO_THE_31 <= k < TWO_TO_THE_31 && k != key
        ensures Printed(k) != Printed(key)
      {
        PrintedInjective(k, key);
      }
    }

    /** `map_get`. */
    method Get(key: int) returns (found: Entry?)
      requires Valid() && -TWO_TO_THE_31 <= key < TWO_TO_THE_31
      ensures found == if key in Numbered() then Numbered()[key] else null
    {
      found := GetStr(Printed(key));
    }
  }

  const TWO_TO_THE_31 := 0x8000_0000

  /** The room `map_put` and `map_get` leave for a printed key, its terminator included. */
  const KEY_ROOM := 16

  function Digits(n: nat): (s: string)
    ensures |s| > 0 && forall c :: c in s ==> '0' <= c <= '9'
  {
    if n < 10 then ['0' + n as char] else Digits(n / 10) + ['0' + (n % 10) as char]
  }

  /** The number a string of digits stands for. */
  function Number(s: string): nat
    requires forall c :: c in s ==> '0' <= c <= '9'
  {
    if s == [] then 0 else
      var last := |s| - 1;
      assert s[last] in s && forall c :: c in s[..last] ==> c in s;
      10 * Number(s[..last]) + (s[last] - '0') as nat
  }

  lemma {:induction false} DigitsNumber(n: nat)
    ensures Number(Digits(n)) == n
  {
    if n >= 10 {
      DigitsNumber(n / 10);
      assert Digits(n)[..|Digits(n)| - 1] == Digits(n / 10);
    }
  }

  lemma {:induction false} DigitsFit(n: nat, digits: nat, power: nat)
    requires n < power && power == Power(digits) && digits > 0
    ensures |Digits(n)| <= digits
  {
    if n >= 10 {
      DigitsFit(n / 10, digits - 1, Power(digits - 1));
    }
  }

  function Power(digits: nat): nat {
    if digits == 0 then 1 else 10 * Power(digits - 1)
  }

  /** `%d`. */
  function Render(n: int): string {
    if n < 0 then ['-'] + Digits(-n) else Digits(n)
  }

  /** What `snprintf` leaves of it in the room there is. */
  function Printed(n: int): string {
    if |Render(n)| < KEY_ROOM then Render(n) else Render(n)[..KEY_ROOM - 1]
  }

  /** The room is enough for any 32-bit integer, and no two of them are printed alike. */
  lemma PrintedInjective(m: int, n: int)
    requires -TWO_TO_THE_31 <= m < TWO_TO_THE_31 && -TWO_TO_THE_31 <= n < TWO_TO_THE_31
    ensures Printed(m) == Render(m) && Printed(n) == Render(n)
    ensures Printed(m) == Printed(n) ==> m == n
  {
    assert Power(10) == 10_000_000_000;
    var a, b := if m < 0 then -m else m, if n < 0 then -n else n;
    DigitsFit(a, 10, Power(10));
    DigitsFit(b, 10, Power(10));
    DigitsNumber(a);
    DigitsNumber(b);
    if Printed(m) == Printed(n) {
      assert m < 0 <==> n < 0 by {
        assert Render(m)[0] == Render(n)[0];
        assert m >= 0 ==> Render(m)[0] in Digits(m);
        assert n >= 0 ==> Render(n)[0] in Digits(n);
      }
      assert m < 0 ==> Digits(a) == Render(m)[1..] && Digits(b) == Render(n)[1..];
    }
  }
}
