/** Whole runs of the hash map: any sequence of puts, gets and removes answers like the same
    sequence on a finite map, and value blocks keep their identity. */
module HashMapRuns {
  import opened Bits
  import opened ArenaModel
  import opened HashMapModel

  datatype MapOp<+K, +V> = Put(key: K, value: V) | Get(key: K) | Remove(key: K)

  // ------------------------------------------------------------ one operation on the heap

  /** The table after an operation, by stored key. */
  ghost function Apply<K(!new), V>(values: map<K, V>, eql: (K, K) -> bool, op: MapOp<K, V>): map<K, V> {
    var k := Stored(values.Keys, eql, op.key);
    match op
    case Put(_, value) => values[k := value]
    case Get(_) => values
    case Remove(_) => values - {k}
  }

  ghost function Answer<K(!new), V>(values: map<K, V>, eql: (K, K) -> bool, op: MapOp<K, V>): Option<V> {
    var k := Stored(values.Keys, eql, op.key);
    if op.Get? && k in values then Some(values[k]) else None
  }

  /** Every key that stays keeps its very value block; new keys get new ones. */
  ghost predicate SameBlocks<K, V>(before: map<K, Cell<V>>, after: map<K, Cell<V>>, gone: set<K>) {
    forall k :: k in before && k !in gone ==> k in after && after[k] == before[k]
  }

  /** The blocks of the keys that have gone are no longer in the table, whatever was put since. */
  ghost predicate Detached<K, V>(before: map<K, Cell<V>>, after: map<K, Cell<V>>, gone: set<K>) {
    forall k :: k in before && k in gone ==> before[k] !in after.Values
  }

  ghost function Gone<K(!new), V>(keys: set<K>, eql: (K, K) -> bool, op: MapOp<K, V>): set<K> {
    if op.Remove? then {Stored(keys, eql, op.key)} else {}
  }

  /** The entries an operation adds. */
  ghost function New<K(!new), V>(values: map<K, V>, eql: (K, K) -> bool, op: MapOp<K, V>): nat {
    if op.Put? && Stored(values.Keys, eql, op.key) !in values then 1 else 0
  }

  method PutStep<K(!new), V>(t: HashMap<K, V>, key: K, value: V, keySize: nat, ghost values: map<K, V>)
    returns (ok: bool)
    requires t.Valid() && t.arena.Valid() && keySize <= LARGE && Contain(t.cells, values)
    modifies t.Repr, t.arena, t.cells.Values
    ensures t.Valid() && t.arena.Valid() && fresh(t.Repr - old(t.Repr))
    ensures Contain(t.cells, if ok then values[Stored(values.Keys, t.eql, key) := value] else values)
    ensures ok <==> || Stored(values.Keys, t.eql, key) in values
                    || old(t.arena.offset) + t.EntryBytes(keySize) <= t.arena.capacity
    ensures ok ==> t.arena.offset == old(t.arena.offset) +
                                     if Stored(values.Keys, t.eql, key) in values then 0 else t.EntryBytes(keySize)
    ensures SameBlocks(old(t.cells), t.cells, {})
    ensures forall k :: k in t.cells && k !in old(t.cells) ==> fresh(t.cells[k])
    ensures forall k :: k in old(t.cells) && k != Stored(values.Keys, t.eql, key) ==>
              old(t.cells)[k].contents == old(t.cells[k].contents)
  {
    ok := t.Put(key, value, keySize);
    ghost var k := Stored(values.Keys, t.eql, key);
    ghost var after := if ok then values[k := value] else values;
    assert t.cells.Keys == after.Keys;
    forall k' | k' in t.cells
      ensures t.cells[k'].contents == after[k']
    {
      if k' != k {
        assert k' in old(t.cells) && t.cells[k'] == old(t.cells)[k'];
      }
    }
  }

  method Step<K(!new), V>(t: HashMap<K, V>, op: MapOp<K, V>, keySize: nat, ghost values: map<K, V>)
    returns (ok: bool, answer: Option<V>)
    requires t.Valid() && t.arena.Valid() && keySize <= LARGE && Contain(t.cells, values)
    modifies t.Repr, t.arena, t.cells.Values
    ensures t.Valid() && t.arena.Valid() && fresh(t.Repr - old(t.Repr))
    ensures Contain(t.cells, if ok then Apply(values, t.eql, op) else values)
    ensures ok ==> answer == Answer(values, t.eql, op)
    ensures ok <==> New(values, t.eql, op) == 0 || old(t.arena.offset) + t.EntryBytes(keySize) <= t.arena.capacity
    ensures ok ==> t.arena.offset == old(t.arena.offset) + New(values, t.eql, op) * t.EntryBytes(keySize)
    ensures SameBlocks(old(t.cells), t.cells, Gone(values.Keys, t.eql, op))
    ensures forall k :: k in t.cells && k !in old(t.cells) ==> fresh(t.cells[k])
    ensures Detached(old(t.cells), t.cells, Gone(values.Keys, t.eql, op))
    ensures forall k :: k in Gone(values.Keys, t.eql, op) && k in old(t.cells) ==>
              old(t.cells)[k].contents == values[k]
  {
    ok, answer := true, None;
    match op
    case Put(key, value) =>
      ok := PutStep(t, key, value, keySize, values);
    case Get(key) =>
      var cell := t.Get(key);
      if cell != null {
        answer := Some(cell.contents);
      }
    case Remove(key) =>
      t.Remove(key);
  }

  // ------------------------------------------------------------ runs

  ghost function ApplyAll<K(!new), V>(values: map<K, V>, eql: (K, K) -> bool, ops: seq<MapOp<K, V>>): map<K, V>
    decreases |ops|
  {
    if ops == [] then values else ApplyAll(Apply(values, eql, ops[0]), eql, ops[1..])
  }

  ghost function Answers<K(!new), V>(values: map<K, V>, eql: (K, K) -> bool, ops: seq<MapOp<K, V>>): seq<Option<V>>
    decreases |ops|
  {
    if ops == [] then [] else [Answer(values, eql, ops[0])] + Answers(Apply(values, eql, ops[0]), eql, ops[1..])
  }

  /** The entries a run adds. */
  ghost function Added<K(!new), V>(values: map<K, V>, eql: (K, K) -> bool, ops: seq<MapOp<K, V>>): nat
    decreases |ops|
  {
    if ops == [] then 0 else New(values, eql, ops[0]) + Added(Apply(values, eql, ops[0]), eql, ops[1..])
  }

  /** A run from an offset is over after `done` operations: what was added fits, and the next one
      would add an entry for which there is no room. */
  ghost predicate StopsAt<K(!new), V>(values: map<K, V>, eql: (K, K) -> bool, ops: seq<MapOp<K, V>>,
                                      offset: nat, capacity: nat, entryBytes: nat, done: nat)
  {
    && done <= |ops|
    && offset + Added(values, eql, ops[..done]) * entryBytes <= capacity
    && (done < |ops| ==> && New(ApplyAll(values, eql, ops[..done]), eql, ops[done]) == 1
                         && offset + (Added(values, eql, ops[..done]) + 1) * entryBytes > capacity)
  }

  /** The arena offset after a run that got through. */
  ghost function GrownBy<K(!new), V>(values: map<K, V>, eql: (K, K) -> bool, ops: seq<MapOp<K, V>>,
                                     offset: nat, entryBytes: nat): nat
  {
    offset + Added(values, eql, ops) * entryBytes
  }

  lemma StopsLater<K(!new), V>(values: map<K, V>, eql: (K, K) -> bool, ops: seq<MapOp<K, V>>,
                               offset: nat, capacity: nat, entryBytes: nat, n: nat)
    requires ops != []
    requires StopsAt(Apply(values, eql, ops[0]), eql, ops[1..], offset + New(values, eql, ops[0]) * entryBytes,
                     capacity, entryBytes, n)
    ensures StopsAt(values, eql, ops, offset, capacity, entryBytes, n + 1)
    ensures GrownBy(values, eql, ops, offset, entryBytes) ==
            GrownBy(Apply(values, eql, ops[0]), eql, ops[1..], offset + New(values, eql, ops[0]) * entryBytes,
                    entryBytes)
  {
    var more := New(values, eql, ops[0]);
    var all := Added(Apply(values, eql, ops[0]), eql, ops[1..]);
    assert (more + all) * entryBytes == more * entryBytes + all * entryBytes;
    assert ops[..n + 1][0] == ops[0] && ops[..n + 1][1..] == ops[1..][..n];
    var added := Added(Apply(values, eql, ops[0]), eql, ops[1..][..n]);
    assert (more + added) * entryBytes == more * entryBytes + added * entryBytes;
  }

  /** So a run goes through exactly if all it adds fits. */
  lemma {:induction false} AllDoneExact<K(!new), V>(values: map<K, V>, eql: (K, K) -> bool, ops: seq<MapOp<K, V>>,
                                                    offset: nat, capacity: nat, entryBytes: nat, done: nat)
    requires StopsAt(values, eql, ops, offset, capacity, entryBytes, done)
    ensures done == |ops| <==> offset + Added(values, eql, ops) * entryBytes <= capacity
  {
    assert ops[..|ops|] == ops;
    if done < |ops| {
      AddedGrows(values, eql, ops, done);
      var n := Added(values, eql, ops[..done]) + 1;
      assert Added(values, eql, ops) * entryBytes >= n * entryBytes;
    }
  }

  lemma {:induction false} AddedGrows<K(!new), V>(values: map<K, V>, eql: (K, K) -> bool, ops: seq<MapOp<K, V>>, n: nat)
    requires n < |ops|
    ensures Added(values, eql, ops) >= Added(values, eql, ops[..n]) + New(ApplyAll(values, eql, ops[..n]), eql, ops[n])
    decreases n
  {
    if n > 0 {
      assert ops[..n][0] == ops[0] && ops[..n][1..] == ops[1..][..n - 1];
      AddedGrows(Apply(values, eql, ops[0]), eql, ops[1..], n - 1);
    }
  }

  /** The first n + 1 operations are the first one and n of the others. */
  lemma FirstOfRun<K(!new), V>(values: map<K, V>, eql: (K, K) -> bool, ops: seq<MapOp<K, V>>, n: nat)
    requires n < |ops|
    ensures var values', run, rest := Apply(values, eql, ops[0]), ops[..n + 1], ops[1..][..n];
            && Answers(values, eql, run) == [Answer(values, eql, ops[0])] + Answers(values', eql, rest)
            && ApplyAll(values, eql, run) == ApplyAll(values', eql, rest)
            && Removed(values, eql, run) == Gone(values.Keys, eql, ops[0]) + Removed(values', eql, rest)
            && (forall k :: k in values && k !in Gone(values.Keys, eql, ops[0]) ==>
                  LastHeld(values, eql, run, k) == LastHeld(values', eql, rest, k))
            && (forall k :: k in values && k in Gone(values.Keys, eql, ops[0]) ==>
                  LastHeld(values, eql, run, k) == values[k])
  {
    assert ops[..n + 1][0] == ops[0] && ops[..n + 1][1..] == ops[1..][..n];
  }

  /** Runs the operations one after the other, until an assert of the arena fails. */
  method Replay<K(!new), V>(t: HashMap<K, V>, ops: seq<MapOp<K, V>>, keySize: nat, ghost values: map<K, V>)
    returns (done: nat, answers: seq<Option<V>>)
    requires t.Valid() && t.arena.Valid() && keySize <= LARGE && Contain(t.cells, values)
    modifies t.Repr, t.arena, t.cells.Values
    ensures t.Valid() && t.arena.Valid() && fresh(t.Repr - old(t.Repr))
    ensures StopsAt(values, t.eql, ops, old(t.arena.offset), t.arena.capacity, t.EntryBytes(keySize), done)
    ensures done == |ops| ==>
              t.arena.offset == GrownBy(values, t.eql, ops, old(t.arena.offset), t.EntryBytes(keySize))
    ensures answers == Answers(values, t.eql, ops[..done])
    ensures Contain(t.cells, ApplyAll(values, t.eql, ops[..done]))
    ensures SameBlocks(old(t.cells), t.cells, Removed(values, t.eql, ops[..done]))
    ensures Detached(old(t.cells), t.cells, Removed(values, t.eql, ops[..done]))
    ensures forall k :: k in t.cells ==> (k in old(t.cells) && t.cells[k] == old(t.cells)[k]) || fresh(t.cells[k])
    ensures forall k :: k in old(t.cells) ==>
              old(t.cells)[k].contents == LastHeld(values, t.eql, ops[..done], k)
    decreases |ops|
  {
    done, answers := 0, [];
    if ops == [] {
      return;
    }
    var ok, answer := Step(t, ops[0], keySize, values);
    if !ok {
      return;
    }
    var n, later := Replay(t, ops[1..], keySize, Apply(values, t.eql, ops[0]));
    done, answers := n + 1, [answer] + later;
    FirstOfRun(values, t.eql, ops, n);
    StopsLater(values, t.eql, ops, old(t.arena.offset), t.arena.capacity, t.EntryBytes(keySize), n);
  }

  /** What the value block of a key stored at the start holds after a run: the value put there
      last before the key's first removal. */
  ghost function LastHeld<K(!new), V>(values: map<K, V>, eql: (K, K) -> bool, ops: seq<MapOp<K, V>>, k: K): V
    requires k in values
    decreases |ops|
  {
    if ops == [] || k in Gone(values.Keys, eql, ops[0]) then values[k]
    else LastHeld(Apply(values, eql, ops[0]), eql, ops[1..], k)
  }

  /** The stored keys that removes unlink during a run. */
  ghost function Removed<K(!new), V>(values: map<K, V>, eql: (K, K) -> bool, ops: seq<MapOp<K, V>>): set<K>
    decreases |ops|
  {
    if ops == [] then {}
    else Gone(values.Keys, eql, ops[0]) + Removed(Apply(values, eql, ops[0]), eql, ops[1..])
  }

  // ------------------------------------------------------------ the same run on a finite map

  /** rep picks one key of each equality class. */
  ghost predicate Picks<K(!new)>(rep: K -> K, eql: (K, K) -> bool) {
    forall a, b {:trigger eql(a, b)} :: eql(a, b) <==> rep(a) == rep(b)
  }

  ghost function Class<K(!new)>(eql: (K, K) -> bool, a: K): iset<K> {
    iset k: K | eql(a, k)
  }

  ghost function AnyOf<K(!new)>(c: iset<K>): (k: K)
    requires c != iset{}
    ensures k in c
  {
    var k :| k in c;
    k
  }

  /** The chosen key of a class depends on the class alone. */
  ghost function Member<K(!new)>(eql: (K, K) -> bool, a: K): K {
    if Class(eql, a) == iset{} then a else AnyOf(Class(eql, a))
  }

  lemma SameClasses<K(!new)>(hash: K -> nat, eql: (K, K) -> bool, a: K, b: K)
    requires LawfulKeys(hash, eql)
    ensures a in Class(eql, a)
    ensures eql(a, b) <==> b in Class(eql, a)
    ensures eql(a, b) ==> Class(eql, a) == Class(eql, b)
  {
    Symmetric(hash, eql, a, b);
    if eql(a, b) {
      assert SameClass(eql, a, b) && SameClass(eql, b, a);
    }
  }

  lemma MemberDecides<K(!new)>(hash: K -> nat, eql: (K, K) -> bool, a: K, b: K)
    requires LawfulKeys(hash, eql)
    ensures eql(a, b) <==> Member(eql, a) == Member(eql, b)
  {
    SameClasses(hash, eql, a, b);
    SameClasses(hash, eql, b, b);
    if Member(eql, a) == Member(eql, b) {
      SameClasses(hash, eql, a, Member(eql, a));
      SameClasses(hash, eql, b, Member(eql, b));
    }
  }

  /** Every lawful equality has such a choice. */
  lemma LawfulKeysPick<K(!new)>(hash: K -> nat, eql: (K, K) -> bool)
    requires LawfulKeys(hash, eql)
    ensures exists rep :: Picks(rep, eql)
  {
    var rep: K -> K := k => Member(eql, k);
    forall a, b {:trigger eql(a, b)}
      ensures eql(a, b) <==> rep(a) == rep(b)
    {
      MemberDecides(hash, eql, a, b);
    }
    assert Picks(rep, eql);
  }

  ghost function FiniteApply<K, V>(m: map<K, V>, rep: K -> K, op: MapOp<K, V>): map<K, V> {
    match op
    case Put(key, value) => m[rep(key) := value]
    case Get(_) => m
    case Remove(key) => m - {rep(key)}
  }

  /** A finite map over the representatives after the operations. */
  ghost function FiniteMap<K, V>(m: map<K, V>, rep: K -> K, ops: seq<MapOp<K, V>>): map<K, V>
    decreases |ops|
  {
    if ops == [] then m else FiniteMap(FiniteApply(m, rep, ops[0]), rep, ops[1..])
  }

  ghost function FiniteAnswers<K, V>(m: map<K, V>, rep: K -> K, ops: seq<MapOp<K, V>>): seq<Option<V>>
    decreases |ops|
  {
    if ops == [] then []
    else
      var r := rep(ops[0].key);
      [if ops[0].Get? && r in m then Some(m[r]) else None] + FiniteAnswers(FiniteApply(m, rep, ops[0]), rep, ops[1..])
  }

  /** The table holds one key of each class in the finite map, with its value. */
  ghost predicate Represents<K(!new), V>(values: map<K, V>, m: map<K, V>, rep: K -> K) {
    && (forall k :: k in values ==> rep(k) in m && m[rep(k)] == values[k])
    && (forall k, k' :: k in values && k' in values && rep(k) == rep(k') ==> k == k')
    && (forall r :: r in m ==> Covered(values.Keys, rep, r))
  }

  ghost predicate Covered<K(!new)>(keys: set<K>, rep: K -> K, r: K) {
    exists k :: k in keys && rep(k) == r
  }

  lemma PutRepresents<K(!new), V>(values: map<K, V>, m: map<K, V>, rep: K -> K, r: K, value: V, k: K)
    requires Represents(values, m, rep) && rep(k) == r
    requires k in values || forall k' :: k' in values ==> rep(k') != r
    ensures Represents(values[k := value], m[r := value], rep)
  {
    var m' := m[r := value];
    forall r' | r' in m'
      ensures Covered(values[k := value].Keys, rep, r')
    {
      if r' == r {
        assert k in values[k := value].Keys;
      } else {
        assert Covered(values.Keys, rep, r');
        var k' :| k' in values.Keys && rep(k') == r';
        assert k' in values[k := value].Keys;
      }
    }
  }

  lemma RemoveRepresents<K(!new), V>(values: map<K, V>, m: map<K, V>, rep: K -> K, r: K, k: K)
    requires Represents(values, m, rep) && rep(k) == r
    requires k in values || forall k' :: k' in values ==> rep(k') != r
    ensures Represents(values - {k}, m - {r}, rep)
  {
    var m' := m - {r};
    forall r' | r' in m'
      ensures Covered((values - {k}).Keys, rep, r')
    {
      assert Covered(values.Keys, rep, r');
      var k' :| k' in values.Keys && rep(k') == r';
      assert k' in (values - {k}).Keys;
    }
  }

  lemma StoredRepresents<K(!new), V>(values: map<K, V>, m: map<K, V>, rep: K -> K, eql: (K, K) -> bool, key: K)
    requires Represents(values, m, rep) && Picks(rep, eql)
    ensures var k := Stored(values.Keys, eql, key);
            && rep(k) == rep(key)
            && (k in values <==> rep(key) in m)
            && (k in values || forall k' :: k' in values ==> rep(k') != rep(key))
  {
    var k := Stored(values.Keys, eql, key);
    assert eql(key, key);
    if rep(key) in m {
      assert Covered(values.Keys, rep, rep(key));
      var k' :| k' in values.Keys && rep(k') == rep(key);
      assert eql(k', key);
    }
    forall k' | k' in values && rep(k') == rep(key)
      ensures k in values
    {
      assert k' in values.Keys && eql(k', key);
    }
  }

  /** Any sequence of operations on the table answers exactly like the same sequence on a finite
      map over the equality classes, and ends representing that map. */
  lemma {:induction false} RunsLikeFiniteMap<K(!new), V>(values: map<K, V>, m: map<K, V>, rep: K -> K,
                                                         eql: (K, K) -> bool, ops: seq<MapOp<K, V>>)
    requires Represents(values, m, rep) && Picks(rep, eql)
    ensures Answers(values, eql, ops) == FiniteAnswers(m, rep, ops)
    ensures Represents(ApplyAll(values, eql, ops), FiniteMap(m, rep, ops), rep)
    decreases |ops|
  {
    if ops != [] {
      var r, k := rep(ops[0].key), Stored(values.Keys, eql, ops[0].key);
      StoredRepresents(values, m, rep, eql, ops[0].key);
      match ops[0] {
        case Put(_, value) => PutRepresents(values, m, rep, r, value, k);
        case Get(_) =>
        case Remove(_) => RemoveRepresents(values, m, rep, r, k);
      }
      RunsLikeFiniteMap(Apply(values, eql, ops[0]), FiniteApply(m, rep, ops[0]), rep, eql, ops[1..]);
    }
  }

  /** A new table answers like a finite map that starts empty; null when the arena has no room for
      the buckets. */
  method CreateAndReplay<K(==, !new), V>(arena: Arena, bucketCount: nat, valueSize: nat, hash: K -> nat,
                                     eql: (K, K) -> bool, ops: seq<MapOp<K, V>>, keySize: nat)
    returns (t: HashMap?<K, V>, done: nat, answers: seq<Option<V>>)
    requires LawfulKeys(hash, eql) && 0 < bucketCount && 8 * bucketCount <= LARGE && valueSize <= LARGE
    requires arena.Valid() && keySize <= LARGE
    modifies arena
    ensures arena.Valid() && (t != null <==> old(arena.offset) + 8 * bucketCount <= arena.capacity)
    ensures t != null ==>
              && var start := old(arena.offset) + 8 * bucketCount;
                 var entryBytes := 24 + RoundUp(keySize, 8) + RoundUp(valueSize, 8);
              && StopsAt(map[], eql, ops, start, arena.capacity, entryBytes, done)
              && t.Valid() && Contain(t.cells, ApplyAll(map[], eql, ops[..done]))
              && (done == |ops| <==> start + Added(map[], eql, ops) * entryBytes <= arena.capacity)
              && (done == |ops| ==> arena.offset == start + Added(map[], eql, ops) * entryBytes)
    ensures exists rep :: Picks(rep, eql)
    ensures t != null ==> forall rep :: Picks(rep, eql) ==>
              && answers == FiniteAnswers(map[], rep, ops[..done])
              && Represents(ApplyAll(map[], eql, ops[..done]), FiniteMap(map[], rep, ops[..done]), rep)
  {
    LawfulKeysPick(hash, eql);
    t := HashMap.Create(arena, bucketCount, valueSize, hash, eql);
    done, answers := 0, [];
    if t != null {
      ghost var start := arena.offset;
      done, answers := Replay(t, ops, keySize, map[]);
      AllDoneExact(map[], eql, ops, start, arena.capacity, t.EntryBytes(keySize), done);
      forall rep | Picks(rep, eql)
        ensures answers == FiniteAnswers(map[], rep, ops[..done])
        ensures Represents(ApplyAll(map[], eql, ops[..done]), FiniteMap(map[], rep, ops[..done]), rep)
      {
        RunsLikeFiniteMap(map[], map[], rep, eql, ops[..done]);
      }
    }
  }
}
