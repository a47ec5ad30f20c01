/** The chained hash map of src/domain/hashmap.h: buckets of linked entries allocated from an
    arena, front insertion, unlinking through the predecessor, values updated in place. */
module HashMapModel {
  import opened Bits
  import opened ArenaModel

  /** The block a value lives in; callers keep pointers to it and write through them. */
  class Cell<V> {
    var contents: V

    constructor (v: V)
      ensures contents == v
    {
      contents := v;
    }
  }

  class Entry<K, V> {
    const key: K
    const value: Cell<V>
    var next: Entry?<K, V>

    constructor (key: K, value: Cell<V>, next: Entry?<K, V>)
      ensures this.key == key && this.value == value && this.next == next
    {
      this.key, this.value, this.next := key, value, next;
    }
  }

  /** The caller's equality is an equivalence and equal keys hash alike. */
  ghost predicate LawfulKeys<K(!new)>(hash: K -> nat, eql: (K, K) -> bool) {
    && (forall a :: eql(a, a))
    && (forall a, b :: eql(a, b) ==> hash(a) == hash(b) && eql(b, a) && SameClass(eql, a, b))
  }

  ghost predicate SameClass<K(!new)>(eql: (K, K) -> bool, a: K, b: K) {
    forall c :: eql(b, c) ==> eql(a, c)
  }

  ghost function At<K, V>(chain: seq<Entry<K, V>>, i: int): Entry?<K, V> {
    if 0 <= i < |chain| then chain[i] else null
  }

  /** The entries from head on, in link order, are the chain: so it is acyclic and ends. */
  ghost predicate Linked<K, V>(head: Entry?<K, V>, chain: seq<Entry<K, V>>)
    reads chain
  {
    && head == At(chain, 0)
    && forall i {:trigger chain[i].next} :: 0 <= i < |chain| ==> chain[i].next == At(chain, i + 1)
  }

  /** The bucket a hash value selects among n. */
  function Slot(hashValue: nat, n: nat): (b: nat)
    requires n > 0
    ensures b < n
  {
    hashValue % n
  }

  // ------------------------------------------------------------ the table behind the chains

  /** Each entry sits in the bucket of its key, no two entries have equal keys, and together they
      are the map `cells`, whose value blocks are all distinct. Nothing here depends on links. */
  ghost predicate TableOk<K(!new), V>(chains: seq<seq<Entry<K, V>>>, cells: map<K, Cell<V>>,
                                      hash: K -> nat, eql: (K, K) -> bool)
  {
    && |chains| > 0
    && (forall b, i {:trigger EntryOk(chains[b][i], b, |chains|, cells, hash)} ::
          0 <= b < |chains| && 0 <= i < |chains[b]| ==> EntryOk(chains[b][i], b, |chains|, cells, hash))
    && (forall b, i, j :: 0 <= b < |chains| && 0 <= i < j < |chains[b]| ==>
          !eql(chains[b][i].key, chains[b][j].key))
    && (forall k {:trigger Filed(k, chains[Slot(hash(k), |chains|)])} :: k in cells ==>
          Filed(k, chains[Slot(hash(k), |chains|)]))
    && (forall k, k' :: k in cells && k' in cells && k != k' ==> cells[k] != cells[k'])
  }

  ghost predicate EntryOk<K(!new), V>(e: Entry<K, V>, b: nat, n: nat, cells: map<K, Cell<V>>, hash: K -> nat)
    requires n > 0
  {
    Slot(hash(e.key), n) == b && e.key in cells && cells[e.key] == e.value
  }

  ghost predicate Filed<K, V>(k: K, chain: seq<Entry<K, V>>) {
    exists i :: 0 <= i < |chain| && chain[i].key == k
  }

  /** The stored key equal to the given one, or the given one itself. */
  ghost function Stored<K(!new)>(keys: set<K>, eql: (K, K) -> bool, key: K): K {
    if k :| k in keys && eql(k, key) then k else key
  }

  ghost predicate NoneEqual<K, V>(chain: seq<Entry<K, V>>, eql: (K, K) -> bool, key: K) {
    forall i :: 0 <= i < |chain| ==> !eql(chain[i].key, key)
  }

  lemma Symmetric<K(!new)>(hash: K -> nat, eql: (K, K) -> bool, a: K, b: K)
    requires LawfulKeys(hash, eql)
    ensures eql(a, b) <==> eql(b, a)
  {
  }

  lemma NotInChain<K(!new), V>(chains: seq<seq<Entry<K, V>>>, cells: map<K, Cell<V>>,
                               hash: K -> nat, eql: (K, K) -> bool, key: K)
    requires LawfulKeys(hash, eql) && TableOk(chains, cells, hash, eql)
    requires NoneEqual(chains[Slot(hash(key), |chains|)], eql, key)
    ensures Stored(cells.Keys, eql, key) == key && key !in cells
    ensures forall k :: k in cells ==> !eql(k, key)
  {
    assert eql(key, key);
    forall k | k in cells
      ensures !eql(k, key)
    {
      var chain := chains[Slot(hash(k), |chains|)];
      assert Filed(k, chain);
      var i :| 0 <= i < |chain| && chain[i].key == k;
      assert eql(k, key) ==> hash(k) == hash(key);
    }
  }

  /** No two stored keys are equal. */
  lemma KeysDistinct<K(!new), V>(chains: seq<seq<Entry<K, V>>>, cells: map<K, Cell<V>>,
                                 hash: K -> nat, eql: (K, K) -> bool, k: K, k': K)
    requires LawfulKeys(hash, eql) && TableOk(chains, cells, hash, eql)
    requires k in cells && k' in cells && eql(k, k')
    ensures k == k'
  {
    var chain := chains[Slot(hash(k), |chains|)];
    assert hash(k) == hash(k');
    assert Filed(k, chain) && Filed(k', chain);
    var i :| 0 <= i < |chain| && chain[i].key == k;
    var j :| 0 <= j < |chain| && chain[j].key == k';
    assert eql(k', k);
  }

  /** A stored key equal to the given one is the only one. */
  lemma StoredIs<K(!new), V>(chains: seq<seq<Entry<K, V>>>, cells: map<K, Cell<V>>,
                             hash: K -> nat, eql: (K, K) -> bool, k: K, key: K)
    requires LawfulKeys(hash, eql) && TableOk(chains, cells, hash, eql)
    requires k in cells && eql(k, key)
    ensures Stored(cells.Keys, eql, key) == k
  {
    assert k in cells.Keys;
    var s := Stored(cells.Keys, eql, key);
    Symmetric(hash, eql, k, key);
    assert eql(s, k);
    KeysDistinct(chains, cells, hash, eql, s, k);
  }

  /** Dropping the one entry with an equal key drops exactly that key. */
  lemma UnlinkTable<K(!new), V>(chains: seq<seq<Entry<K, V>>>, cells: map<K, Cell<V>>,
                                hash: K -> nat, eql: (K, K) -> bool, h: nat, i: nat, key: K)
    requires LawfulKeys(hash, eql) && TableOk(chains, cells, hash, eql)
    requires h < |chains| && i < |chains[h]| && eql(chains[h][i].key, key)
    ensures var chain := chains[h][..i] + chains[h][i + 1..];
            TableOk(chains[h := chain], cells - {Stored(cells.Keys, eql, key)}, hash, eql)
  {
    var gone := chains[h][i].key;
    var chain := chains[h][..i] + chains[h][i + 1..];
    var chains' := chains[h := chain];
    var cells' := cells - {gone};
    assert EntryOk(chains[h][i], h, |chains|, cells, hash);
    StoredIs(chains, cells, hash, eql, gone, key);
    forall b, j | 0 <= b < |chains'| && 0 <= j < |chains'[b]|
      ensures EntryOk(chains'[b][j], b, |chains'|, cells', hash)
    {
      UnlinkEntry(chains, cells, hash, eql, h, i, b, j);
    }
    forall k | k in cells'
      ensures Filed(k, chains'[Slot(hash(k), |chains'|)])
    {
      var b := Slot(hash(k), |chains|);
      assert Filed(k, chains[b]);
      if b == h {
        UnlinkFiled(chains[h], i, k);
      }
    }
    forall b, j, j' | 0 <= b < |chains'| && 0 <= j < j' < |chains'[b]|
      ensures !eql(chains'[b][j].key, chains'[b][j'].key)
    {
      if b == h {
        UnlinkOrder(chains[h], i, j);
        UnlinkOrder(chains[h], i, j');
      }
    }
  }

  lemma UnlinkOrder<K, V>(chain: seq<Entry<K, V>>, i: nat, j: nat)
    requires i < |chain| && j < |chain| - 1
    ensures (chain[..i] + chain[i + 1..])[j] == chain[if j < i then j else j + 1]
  {
  }

  lemma UnlinkFiled<K, V>(chain: seq<Entry<K, V>>, i: nat, k: K)
    requires i < |chain| && Filed(k, chain) && chain[i].key != k
    ensures Filed(k, chain[..i] + chain[i + 1..])
  {
    var rest := chain[..i] + chain[i + 1..];
    var j :| 0 <= j < |chain| && chain[j].key == k;
    assert rest[if j < i then j else j - 1].key == k;
  }

  /** Every other entry keeps its place in the table and has another key. */
  lemma UnlinkEntry<K(!new), V>(chains: seq<seq<Entry<K, V>>>, cells: map<K, Cell<V>>,
                                hash: K -> nat, eql: (K, K) -> bool, h: nat, i: nat, b: nat, j: nat)
    requires LawfulKeys(hash, eql) && TableOk(chains, cells, hash, eql)
    requires h < |chains| && i < |chains[h]| && b < |chains|
    requires j < |if b == h then chains[h][..i] + chains[h][i + 1..] else chains[b]|
    ensures var e := (if b == h then chains[h][..i] + chains[h][i + 1..] else chains[b])[j];
            EntryOk(e, b, |chains|, cells, hash) && e.key != chains[h][i].key
  {
    var e := (if b == h then chains[h][..i] + chains[h][i + 1..] else chains[b])[j];
    assert EntryOk(chains[h][i], h, |chains|, cells, hash);
    if b == h {
      var s := if j < i then j else j + 1;
      assert e == chains[h][s];
      assert eql(e.key, e.key);
    } else {
      assert e == chains[b][j];
    }
  }

  /** Adding an entry under a key equal to none adds exactly that key. */
  lemma InsertTable<K(!new), V>(chains: seq<seq<Entry<K, V>>>, cells: map<K, Cell<V>>,
                                hash: K -> nat, eql: (K, K) -> bool, e: Entry<K, V>)
    requires LawfulKeys(hash, eql) && TableOk(chains, cells, hash, eql)
    requires forall k :: k in cells ==> !eql(k, e.key) && cells[k] != e.value
    ensures var h := Slot(hash(e.key), |chains|);
            TableOk(chains[h := [e] + chains[h]], cells[e.key := e.value], hash, eql)
  {
    var h := Slot(hash(e.key), |chains|);
    var chain := [e] + chains[h];
    var chains' := chains[h := chain];
    var cells' := cells[e.key := e.value];
    assert eql(e.key, e.key);
    forall b, j | 0 <= b < |chains'| && 0 <= j < |chains'[b]|
      ensures EntryOk(chains'[b][j], b, |chains'|, cells', hash)
    {
      if b != h {
        assert EntryOk(chains[b][j], b, |chains|, cells, hash);
      } else if j > 0 {
        assert chain[j] == chains[h][j - 1];
        assert EntryOk(chains[h][j - 1], h, |chains|, cells, hash);
      }
    }
    forall k | k in cells'
      ensures Filed(k, chains'[Slot(hash(k), |chains'|)])
    {
      var b := Slot(hash(k), |chains|);
      if k == e.key {
        assert chain[0].key == k;
      } else {
        assert Filed(k, chains[b]);
        var j :| 0 <= j < |chains[b]| && chains[b][j].key == k;
        assert b == h ==> chain[j + 1].key == k;
      }
    }
    forall b, j, j' | 0 <= b < |chains'| && 0 <= j < j' < |chains'[b]|
      ensures !eql(chains'[b][j].key, chains'[b][j'].key)
    {
      if b == h {
        assert chain[j'] == chains[h][j' - 1];
        if j > 0 {
          assert chain[j] == chains[h][j - 1];
        } else {
          assert EntryOk(chain[j'], h, |chains|, cells, hash);
          Symmetric(hash, eql, e.key, chain[j'].key);
        }
      }
    }
  }

  /** Entries of the table at different places are different objects. */
  lemma PlacesDistinct<K(!new), V>(chains: seq<seq<Entry<K, V>>>, cells: map<K, Cell<V>>,
                                   hash: K -> nat, eql: (K, K) -> bool, b: nat, i: nat, b': nat, i': nat)
    requires LawfulKeys(hash, eql) && TableOk(chains, cells, hash, eql)
    requires b < |chains| && i < |chains[b]| && b' < |chains| && i' < |chains[b']|
    requires chains[b][i] == chains[b'][i']
    ensures b == b' && i == i'
  {
    var e := chains[b][i];
    assert EntryOk(e, b, |chains|, cells, hash);
    assert EntryOk(chains[b'][i'], b', |chains|, cells, hash);
    assert eql(e.key, e.key);
  }

  ghost predicate EntriesWithin<K, V>(chains: seq<seq<Entry<K, V>>>, objects: set<object>) {
    forall b, i :: 0 <= b < |chains| && 0 <= i < |chains[b]| ==> chains[b][i] in objects
  }

  ghost predicate CellsOutside<K, V>(cells: map<K, Cell<V>>, objects: set<object>) {
    forall k :: k in cells ==> cells[k] as object !in objects
  }

  lemma UnlinkWithin<K, V>(chains: seq<seq<Entry<K, V>>>, objects: set<object>, h: nat, i: nat)
    requires h < |chains| && i < |chains[h]| && EntriesWithin(chains, objects)
    ensures EntriesWithin(chains[h := chains[h][..i] + chains[h][i + 1..]], objects)
  {
  }

  /** The value blocks hold these values. */
  ghost predicate Contain<K, V>(cells: map<K, Cell<V>>, values: map<K, V>)
    reads cells.Values
  {
    cells.Keys == values.Keys && forall k :: k in cells ==> cells[k].contents == values[k]
  }

  const ENTRY_SIZE: nat := 24

  class HashMap<K(!new), V> {
    const hash: K -> nat
    const eql: (K, K) -> bool
    const arena: Arena
    const valueSize: nat
    const buckets: array<Entry?<K, V>>
    ghost var chains: seq<seq<Entry<K, V>>>
    ghost var cells: map<K, Cell<V>>
    ghost var Repr: set<object>

    /** The buckets link up the chains of a well-formed table. */
    ghost predicate Valid()
      reads this, Repr
    {
      && this in Repr && buckets in Repr && arena !in Repr
      && LawfulKeys(hash, eql) && valueSize <= LARGE
      && buckets.Length == |chains|
      && TableOk(chains, cells, hash, eql)
      && EntriesWithin(chains, Repr) && CellsOutside(cells, Repr)
      && (forall b :: 0 <= b < |chains| ==> Linked(buckets[b], chains[b]))
    }

    constructor (arena: Arena, bucketCount: nat, valueSize: nat, hash: K -> nat, eql: (K, K) -> bool)
      requires LawfulKeys(hash, eql) && 0 < bucketCount && valueSize <= LARGE
      ensures Valid() && fresh(Repr) && cells == map[]
      ensures this.arena == arena && this.hash == hash && this.eql == eql && this.valueSize == valueSize
      ensures buckets.Length == bucketCount
    {
      this.arena, this.valueSize, this.hash, this.eql := arena, valueSize, hash, eql;
      var table := new Entry?<K, V>[bucketCount](_ => null);
      buckets := table;
      chains := seq(bucketCount, _ => []);
      cells := map[];
      Repr := {this, table};
    }

    /** `hashmap_create`; null when the arena has no room for the buckets. */
    static method Create(arena: Arena, bucketCount: nat, valueSize: nat, hash: K -> nat, eql: (K, K) -> bool)
      returns (m: HashMap?<K, V>)
      requires LawfulKeys(hash, eql) && 0 < bucketCount && 8 * bucketCount <= LARGE && valueSize <= LARGE
      requires arena.Valid()
      modifies arena
      ensures arena.Valid()
      ensures m != null <==> old(arena.offset) + 8 * bucketCount <= arena.capacity
      ensures m != null ==> m.Valid() && fresh(m) && fresh(m.Repr) && m.cells == map[]
                            && m.arena == arena && m.hash == hash && m.eql == eql && m.valueSize == valueSize
                            && m.buckets.Length == bucketCount
                            && arena.offset == old(arena.offset) + 8 * bucketCount
    {
      AllocateWholeWords(arena.Value(), bucketCount);
      var ok, _ := arena.Alloc(8 * bucketCount);
      m := null;
      if ok {
        m := new HashMap(arena, bucketCount, valueSize, hash, eql);
      }
    }

    /** `hashmap_get`: the value block stored under an equal key. */
    method Get(key: K) returns (cell: Cell?<V>)
      requires Valid()
      ensures var k := Stored(cells.Keys, eql, key);
              cell == if k in cells then cells[k] else null
    {
      var h := Slot(hash(key), buckets.Length);
      var bucket := buckets[h];
      ghost var i := 0;
      while bucket != null
        invariant 0 <= i <= |chains[h]| && bucket == At(chains[h], i)
        invariant forall j :: 0 <= j < i ==> !eql(chains[h][j].key, key)
        decreases |chains[h]| - i
      {
        if eql(bucket.key, key) {
          cell := bucket.value;
          assert EntryOk(chains[h][i], h, |chains|, cells, hash);
          StoredIs(chains, cells, hash, eql, bucket.key, key);
          return;
        }
        bucket := bucket.next;
        i := i + 1;
      }
      NotInChain(chains, cells, hash, eql, key);
      cell := null;
    }

    /** The arena bytes one new entry takes: its three pointers, the key and the value. */
    function EntryBytes(keySize: nat): nat {
      3 * 8 + RoundUp(keySize, 8) + RoundUp(valueSize, 8)
    }

    /** The three allocations of a new entry; false at the first that does not fit. */
    method AllocEntry(keySize: nat) returns (ok: bool)
      requires arena.Valid() && keySize <= LARGE && valueSize <= LARGE
      modifies arena
      ensures arena.Valid()
      ensures ok <==> old(arena.offset) + EntryBytes(keySize) <= arena.capacity
      ensures ok ==> arena.offset == old(arena.offset) + EntryBytes(keySize)
    {
      AllocateLarge(arena.Value(), ENTRY_SIZE);
      var granted, addr := arena.Alloc(ENTRY_SIZE);
      if !granted { return false; }
      AllocateLarge(arena.Value(), keySize);
      granted, addr := arena.Alloc(keySize);
      if !granted { return false; }
      AllocateLarge(arena.Value(), valueSize);
      ok, addr := arena.Alloc(valueSize);
    }

    /** The first entry of a chain is the one of this key, in front of what was first before. */
    ghost predicate AtFront(b: nat, key: K, first: Entry?<K, V>)
      reads this, Repr, buckets
    {
      && b < buckets.Length && buckets[b] != null && buckets[b] in Repr
      && buckets[b].key == key && buckets[b].next == first
      && key in cells && buckets[b].value == cells[key]
    }

    /** `hashmap_put`: writes through the value block of the equal stored key, or adds an entry in
        front of its chain; false when the arena has no room for the entry. */
    method Put(key: K, value: V, keySize: nat) returns (ok: bool)
      requires Valid() && arena.Valid() && keySize <= LARGE
      modifies Repr, arena, cells.Values
      ensures Valid() && arena.Valid() && fresh(Repr - old(Repr))
      ensures var k := Stored(old(cells.Keys), eql, key);
              && (k in old(cells) ==> ok && cells == old(cells) && arena.offset == old(arena.offset))
              && (k !in old(cells) ==> && (ok <==> old(arena.offset) + EntryBytes(keySize) <= arena.capacity)
                                       && (ok ==> arena.offset == old(arena.offset) + EntryBytes(keySize)))
              && (if ok then && k in cells && cells[k].contents == value && cells == old(cells)[k := cells[k]]
                             && (k in old(cells) || fresh(cells[k]))
                  else cells == old(cells))
      ensures forall k :: k in old(cells) && k != Stored(old(cells.Keys), eql, key) ==>
                old(cells)[k].contents == old(cells[k].contents)
      ensures ok && Stored(old(cells.Keys), eql, key) !in old(cells) ==>
                AtFront(hash(key) % buckets.Length, key, old(buckets[hash(key) % buckets.Length]))
    {
      var h := Slot(hash(key), buckets.Length);
      var bucket := buckets[h];
      ghost var i := 0;
      while bucket != null
        invariant 0 <= i <= |chains[h]| && bucket == At(chains[h], i)
        invariant forall j :: 0 <= j < i ==> !eql(chains[h][j].key, key)
        decreases |chains[h]| - i
      {
        if eql(bucket.key, key) {
          assert EntryOk(chains[h][i], h, |chains|, cells, hash);
          StoredIs(chains, cells, hash, eql, bucket.key, key);
          bucket.value.contents := value;
          return true;
        }
        bucket := bucket.next;
        i := i + 1;
      }
      NotInChain(chains, cells, hash, eql, key);
      ok := AllocEntry(keySize);
      if ok {
        PushFront(h, key, value);
      }
    }

    method PushFront(h: nat, key: K, value: V)
      requires Valid() && h == Slot(hash(key), buckets.Length)
      requires forall k :: k in cells ==> !eql(k, key)
      modifies Repr
      ensures Valid() && fresh(Repr - old(Repr))
      ensures key in cells && fresh(cells[key]) && cells == old(cells)[key := cells[key]]
      ensures cells[key].contents == value
      ensures AtFront(h, key, old(buckets[h]))
    {
      var cell := new Cell(value);
      var entry := new Entry(key, cell, buckets[h]);
      InsertTable(chains, cells, hash, eql, entry);
      LinkFront(h, entry);
      Install(chains[h := [entry] + chains[h]], cells[key := cell], Repr + {entry});
    }

    method LinkFront(h: nat, entry: Entry<K, V>)
      requires h < |chains| == buckets.Length && entry.next == buckets[h]
      requires forall b :: 0 <= b < |chains| ==> Linked(buckets[b], chains[b])
      modifies buckets
      ensures Linked(buckets[h], [entry] + chains[h])
      ensures forall b :: 0 <= b < |chains| && b != h ==> Linked(buckets[b], chains[b])
    {
      ghost var chain := [entry] + chains[h];
      buckets[h] := entry;
      assert forall i :: 0 < i < |chain| ==> chain[i] == chains[h][i - 1];
    }

    /** `hashmap_remove`: unlinks the entry with an equal key and touches no value block. */
    method Remove(key: K)
      requires Valid()
      modifies Repr
      ensures Valid() && Repr == old(Repr)
      ensures cells == old(cells) - {Stored(old(cells.Keys), eql, key)}
    {
      var h := Slot(hash(key), buckets.Length);
      var bucket := buckets[h];
      var prev: Entry?<K, V> := null;
      ghost var i := 0;
      while bucket != null
        invariant 0 <= i <= |chains[h]| && bucket == At(chains[h], i) && prev == At(chains[h], i - 1)
        invariant forall j :: 0 <= j < i ==> !eql(chains[h][j].key, key)
        decreases |chains[h]| - i
      {
        if eql(bucket.key, key) {
          Unlink(h, i, prev, bucket, key);
          return;
        }
        prev := bucket;
        bucket := bucket.next;
        i := i + 1;
      }
      NotInChain(chains, cells, hash, eql, key);
    }

    method Unlink(h: nat, ghost i: nat, prev: Entry?<K, V>, bucket: Entry<K, V>, ghost key: K)
      requires Valid() && h < |chains| && i < |chains[h]| && bucket == chains[h][i]
      requires prev == At(chains[h], i - 1) && eql(bucket.key, key)
      modifies Repr
      ensures Valid() && Repr == old(Repr)
      ensures cells == old(cells) - {Stored(old(cells.Keys), eql, key)}
    {
      ghost var chain := chains[h][..i] + chains[h][i + 1..];
      UnlinkTable(chains, cells, hash, eql, h, i, key);
      forall b, j | 0 <= b < |chains| && 0 <= j < |chains[b]| && chains[b][j] == prev
        ensures b == h && j == i - 1
      {
        PlacesDistinct(chains, cells, hash, eql, b, j, h, i - 1);
      }
      UnlinkWithin(chains, Repr, h, i);
      Relink(h, i, prev, bucket);
      Install(chains[h := chain], cells - {Stored(cells.Keys, eql, key)}, Repr);
    }

    /** Records the chains that the buckets now link up. */
    ghost method Install(chains': seq<seq<Entry<K, V>>>, cells': map<K, Cell<V>>, Repr': set<object>)
      requires this in Repr' && buckets in Repr' && arena !in Repr'
      requires LawfulKeys(hash, eql) && valueSize <= LARGE && buckets.Length == |chains'|
      requires TableOk(chains', cells', hash, eql)
      requires EntriesWithin(chains', Repr') && CellsOutside(cells', Repr')
      requires forall b :: 0 <= b < |chains'| ==> Linked(buckets[b], chains'[b])
      modifies this
      ensures Valid() && chains == chains' && cells == cells' && Repr == Repr'
    {
      chains, cells, Repr := chains', cells', Repr';
    }

    method Relink(h: nat, ghost i: nat, prev: Entry?<K, V>, bucket: Entry<K, V>)
      requires h < |chains| == buckets.Length && i < |chains[h]| && bucket == chains[h][i]
      requires prev == At(chains[h], i - 1)
      requires forall b, j :: 0 <= b < |chains| && 0 <= j < |chains[b]| && chains[b][j] == prev ==> b == h && j == i - 1
      requires forall b :: 0 <= b < |chains| ==> Linked(buckets[b], chains[b])
      modifies if prev == null then {buckets} else {prev}
      ensures Linked(buckets[h], chains[h][..i] + chains[h][i + 1..])
      ensures forall b :: 0 <= b < |chains| && b != h ==> Linked(buckets[b], chains[b])
    {
      ghost var chain := chains[h];
      assert Linked(buckets[h], chain);
      if prev != null {
        prev.next := bucket.next;
      } else {
        buckets[h] := bucket.next;
      }
    }
  }
}
