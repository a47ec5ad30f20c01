/** Arenas carved out of arenas (src/domain/arena.h): a tree of regions with the blocks each one
    has handed out, and the proof that no interleaving of allocations, carvings and resets ever
    hands out an address twice. */
module ArenaTree {
  import opened Bits
  import opened ArenaModel

  /** One arena with everything handed out since its last reset, oldest first. */
  datatype Tree = Node(region: Region, items: seq<Item>)

  datatype Item = Block(addr: nat, size: nat) | Sub(tree: Tree)

  /** What a caller does to one arena of the tree. */
  datatype Action = Alloc(size: nat) | Carve(size: nat) | Reset

  datatype Op = Op(path: seq<nat>, action: Action)

  /** One action on the arena itself; None when its assert fails. */
  function Act(t: Tree, a: Action, page: nat): Option<Tree>
    requires 0 < page < W64
  {
    match a
    case Alloc(size) =>
      (match Allocate(t.region, size)
       case Refused => None
       case Granted(addr, r) => Some(Node(r, t.items + [Block(addr, size)])))
    case Carve(size) =>
      (match Scratch(t.region, size, page)
       case NoRoom => None
       case Carved(child, r) => Some(Node(r, t.items + [Sub(Node(child, []))])))
    case Reset =>
      Some(Node(t.region.(offset := 0), []))
  }

  /** The arena at a path of item positions, if the path still names one. */
  function ArenaAt(t: Tree, path: seq<nat>): Option<Tree>
    decreases |path|
  {
    if path == [] then Some(t)
    else if path[0] < |t.items| && t.items[path[0]].Sub? then ArenaAt(t.items[path[0]].tree, path[1..])
    else None
  }

  /** The action applied at the arena named by the path. */
  function Perform(t: Tree, path: seq<nat>, a: Action, page: nat): Option<Tree>
    requires 0 < page < W64
    decreases |path|
  {
    if path == [] then Act(t, a, page)
    else if path[0] < |t.items| && t.items[path[0]].Sub? then
      match Perform(t.items[path[0]].tree, path[1..], a, page)
      case None => None
      case Some(sub) => Some(Node(t.region, t.items[path[0] := Sub(sub)]))
    else None
  }

  /** The live block at a path of item positions. */
  function BlockAt(t: Tree, path: seq<nat>): Option<Item>
    decreases |path|
  {
    if path == [] || path[0] >= |t.items| then None
    else match t.items[path[0]]
      case Block(_, _) => if |path| == 1 then Some(t.items[path[0]]) else None
      case Sub(sub) => BlockAt(sub, path[1..])
  }

  // ------------------------------------------------------------ layout invariant

  function Low(i: Item): nat {
    match i
    case Block(addr, _) => addr
    case Sub(sub) => sub.region.base
  }

  /** The byte address one past the item, with the word-scaled extent for arenas. */
  function High(i: Item): nat {
    match i
    case Block(addr, size) => addr + size
    case Sub(sub) => sub.region.base + 8 * sub.region.capacity
  }

  ghost predicate Placed(t: Tree, i: Item) {
    t.region.base <= Low(i) && Low(i) <= High(i) <= t.region.base + 8 * t.region.offset
  }

  /** Regions are well formed and every arena's items lie side by side below its offset. */
  ghost predicate TreeOk(t: Tree) {
    && RegionOk(t.region)
    && (forall i :: 0 <= i < |t.items| ==> Placed(t, t.items[i]))
    && (forall i, j :: 0 <= i < j < |t.items| ==> High(t.items[i]) <= Low(t.items[j]))
    && (forall i :: 0 <= i < |t.items| && t.items[i].Sub? ==> TreeOk(t.items[i].tree))
  }

  /** The sizes for which the 64-bit arithmetic of the addressed arena cannot wrap. */
  ghost predicate Honest(t: Tree, op: Op, page: nat)
    requires 0 < page < W64
  {
    var target := ArenaAt(t, op.path);
    target.Some? ==>
      var r := target.value.region;
      match op.action
      case Alloc(size) => size <= W64 - WORD - r.offset
      case Carve(size) => size <= W64 - page && r.offset + AlignUp(size, page) < W64
      case Reset => true
  }

  lemma ActKeeps(t: Tree, a: Action, page: nat)
    requires IsPage(page) && 0 < page < W64
    requires TreeOk(t) && Honest(t, Op([], a), page) && Act(t, a, page).Some?
    ensures var t' := Act(t, a, page).value;
            TreeOk(t') && t'.region.base == t.region.base && t'.region.capacity == t.region.capacity
  {
    var t' := Act(t, a, page).value;
    assert ArenaAt(t, []) == Some(t);
    match a
    case Alloc(size) =>
      AllocateKeeps(t.region, size);
      AppendKeeps(t, t', Block(Allocate(t.region, size).addr, size));
    case Carve(size) =>
      ScratchKeeps(t.region, size, page);
      AppendKeeps(t, t', Sub(Node(Scratch(t.region, size, page).child, [])));
    case Reset =>
  }

  /** Appending an item that starts at the old offset and ends by the new one. */
  lemma AppendKeeps(t: Tree, t': Tree, item: Item)
    requires TreeOk(t) && RegionOk(t'.region) && t'.items == t.items + [item]
    requires t'.region.base == t.region.base && t.region.offset <= t'.region.offset
    requires Low(item) == t.region.base + 8 * t.region.offset
    requires Low(item) <= High(item) <= t.region.base + 8 * t'.region.offset
    requires item.Sub? ==> TreeOk(item.tree)
    ensures TreeOk(t')
  {
    forall i | 0 <= i < |t'.items|
      ensures Placed(t', t'.items[i])
    {
      assert i < |t.items| ==> Placed(t, t.items[i]);
    }
    forall i, j | 0 <= i < j < |t'.items|
      ensures High(t'.items[i]) <= Low(t'.items[j])
    {
      assert Placed(t, t.items[i]);
    }
  }

  /** Every operation on any arena of the tree keeps the layout and the root's extent. */
  lemma {:induction false} PerformKeeps(t: Tree, path: seq<nat>, a: Action, page: nat)
    requires IsPage(page) && 0 < page < W64
    requires TreeOk(t) && Honest(t, Op(path, a), page) && Perform(t, path, a, page).Some?
    ensures var t' := Perform(t, path, a, page).value;
            TreeOk(t') && t'.region.base == t.region.base && t'.region.capacity == t.region.capacity
    decreases |path|
  {
    if path == [] {
      ActKeeps(t, a, page);
    } else {
      var p := path[0];
      var sub := t.items[p].tree;
      assert Honest(sub, Op(path[1..], a), page);
      PerformKeeps(sub, path[1..], a, page);
      var t' := Perform(t, path, a, page).value;
      assert Placed(t, t.items[p]);
      forall i | 0 <= i < |t'.items|
        ensures Low(t'.items[i]) == Low(t.items[i]) && High(t'.items[i]) == High(t.items[i])
      {
      }
      forall i | 0 <= i < |t'.items|
        ensures Placed(t', t'.items[i])
      {
        assert Placed(t, t.items[i]);
      }
    }
  }

  // ------------------------------------------------------------ disjointness

  lemma {:induction false} BlockWithin(t: Tree, q: seq<nat>)
    requires TreeOk(t) && BlockAt(t, q).Some?
    ensures Placed(t, BlockAt(t, q).value)
    decreases |q|
  {
    assert Placed(t, t.items[q[0]]);
    if t.items[q[0]].Sub? {
      BlockWithin(t.items[q[0]].tree, q[1..]);
    }
  }

  /** Any two distinct live blocks of the whole tree, whichever arenas they come from, occupy
      disjoint byte ranges. */
  lemma {:induction false} BlocksDisjoint(t: Tree, p: seq<nat>, q: seq<nat>)
    requires TreeOk(t) && p != q && BlockAt(t, p).Some? && BlockAt(t, q).Some?
    ensures var b, c := BlockAt(t, p).value, BlockAt(t, q).value;
            High(b) <= Low(c) || High(c) <= Low(b)
    decreases |p|
  {
    if p[0] == q[0] {
      if t.items[p[0]].Sub? {
        assert p == [p[0]] + p[1..] && q == [q[0]] + q[1..];
        BlocksDisjoint(t.items[p[0]].tree, p[1..], q[1..]);
      }
    } else {
      BlockInItem(t, p);
      BlockInItem(t, q);
    }
  }

  lemma BlockInItem(t: Tree, q: seq<nat>)
    requires TreeOk(t) && BlockAt(t, q).Some?
    ensures var b := BlockAt(t, q).value;
            Low(t.items[q[0]]) <= Low(b) && High(b) <= High(t.items[q[0]])
  {
    if t.items[q[0]].Sub? {
      BlockWithin(t.items[q[0]].tree, q[1..]);
      assert RegionOk(t.items[q[0]].tree.region);
    }
  }

  // ------------------------------------------------------------ what each operation retires

  /** What a path names after an operation: an allocation adds exactly one block, a carving adds
      none, and a reset removes exactly the blocks at and below the addressed arena. */
  ghost predicate Effect(t: Tree, t': Tree, op: Op, page: nat, q: seq<nat>)
    requires 0 < page < W64
    requires ArenaAt(t, op.path).Some?
  {
    var target := ArenaAt(t, op.path).value;
    match op.action
    case Alloc(size) =>
      BlockAt(t', q) == if q == op.path + [|target.items|] then Some(Block(Top(target.region), size))
                        else BlockAt(t, q)
    case Carve(size) => BlockAt(t', q) == BlockAt(t, q)
    case Reset => BlockAt(t', q) == if op.path <= q then None else BlockAt(t, q)
  }

  lemma {:induction false} PerformNeedsArena(t: Tree, path: seq<nat>, a: Action, page: nat)
    requires 0 < page < W64 && Perform(t, path, a, page).Some?
    ensures ArenaAt(t, path).Some?
    decreases |path|
  {
    if path != [] {
      PerformNeedsArena(t.items[path[0]].tree, path[1..], a, page);
    }
  }

  lemma {:induction false} PerformEffect(t: Tree, path: seq<nat>, a: Action, page: nat, q: seq<nat>)
    requires 0 < page < W64 && Perform(t, path, a, page).Some?
    ensures ArenaAt(t, path).Some?
    ensures Effect(t, Perform(t, path, a, page).value, Op(path, a), page, q)
    decreases |path|
  {
    PerformNeedsArena(t, path, a, page);
    var t' := Perform(t, path, a, page).value;
    if path == [] {
      ActEffect(t, a, page, q);
    } else if q != [] && q[0] == path[0] {
      var sub := t.items[path[0]].tree;
      PerformEffect(sub, path[1..], a, page, q[1..]);
      assert q == [q[0]] + q[1..] && path == [path[0]] + path[1..];
      assert path <= q <==> path[1..] <= q[1..];
      var n := |ArenaAt(t, path).value.items|;
      assert path + [n] == [path[0]] + (path[1..] + [n]);
      assert q == path + [n] <==> q[1..] == path[1..] + [n];
    } else {
      assert !(path <= q);
      var n := |ArenaAt(t, path).value.items|;
      assert (path + [n])[0] == path[0];
      assert BlockAt(t', q) == BlockAt(t, q);
    }
  }

  lemma ActEffect(t: Tree, a: Action, page: nat, q: seq<nat>)
    requires 0 < page < W64 && Act(t, a, page).Some?
    ensures Effect(t, Act(t, a, page).value, Op([], a), page, q)
  {
    var t' := Act(t, a, page).value;
    assert ArenaAt(t, []) == Some(t);
    match a
    case Alloc(size) =>
      var n := |t.items|;
      assert [] + [n] == [n];
      if q != [] && q[0] == n {
        assert q == [n] <==> |q| == 1;
      }
    case Carve(size) =>
      if q != [] && q[0] == |t.items| {
        assert BlockAt(Node(Scratch(t.region, size, page).child, []), q[1..]) == None;
      }
    case Reset =>
  }

  // ------------------------------------------------------------ what each operation does to arenas

  /** The arena is there and, for a request, so is the room. */
  ghost predicate Feasible(t: Tree, op: Op, page: nat)
    requires page > 0
  {
    ArenaAt(t, op.path).Some? &&
    var r := ArenaAt(t, op.path).value.region;
    match op.action
    case Alloc(size) => Taken(r, Rounded(size, 8)).Some?
    case Carve(size) => Taken(r, Rounded(size, page)).Some?
    case Reset => true
  }

  /** The item that a request adds behind an arena's others. */
  ghost function Added(r: Region, a: Action, page: nat): seq<Item>
    requires page > 0
  {
    match a
    case Alloc(size) => [Block(r.base + 8 * r.offset, size)]
    case Carve(size) => [Sub(Node(Region(r.base + 8 * r.offset, 0, Rounded(size, page)), []))]
    case Reset => []
  }

  /** What a path names after an operation. The addressed arena moves its offset up by the rounded
      size and gets one item more, for a carving a new empty arena over just that stretch; a reset
      empties it. Arenas on the way to it keep their region and number of items, all others are
      untouched, and a reset leaves none below. */
  ghost predicate ArenaEffect(t: Tree, t': Tree, op: Op, page: nat, q: seq<nat>)
    requires page > 0 && Feasible(t, op, page)
  {
    var target := ArenaAt(t, op.path).value;
    var r, n := target.region, |target.items|;
    if q == op.path then
      ArenaAt(t', q) ==
      (match op.action
       case Alloc(size) =>
         Some(Node(r.(offset := Taken(r, Rounded(size, 8)).value), target.items + Added(r, op.action, page)))
       case Carve(size) =>
         Some(Node(r.(offset := Taken(r, Rounded(size, page)).value), target.items + Added(r, op.action, page)))
       case Reset => Some(Node(r.(offset := 0), [])))
    else if op.path <= q && op.action.Reset? then ArenaAt(t', q) == None
    else if q == op.path + [n] && op.action.Carve? then
      ArenaAt(t', q) == Some(Node(Region(r.base + 8 * r.offset, 0, Rounded(op.action.size, page)), []))
    else if q <= op.path then
      && ArenaAt(t, q).Some? && ArenaAt(t', q).Some?
      && ArenaAt(t', q).value.region == ArenaAt(t, q).value.region
      && |ArenaAt(t', q).value.items| == |ArenaAt(t, q).value.items|
    else ArenaAt(t', q) == ArenaAt(t, q)
  }

  /** What the addressed arena has to be for the arithmetic of a 64-bit request to be defined. */
  ghost predicate Defined(t: Tree, op: Op) {
    Amount(op.action) < W64 && (ArenaAt(t, op.path).Some? ==> RegionFits(ArenaAt(t, op.path).value.region))
  }

  lemma ActIs(t: Tree, a: Action, page: nat)
    requires IsPage(page) && 0 < page < W64 && Defined(t, Op([], a))
    ensures Act(t, a, page).Some? <==> Feasible(t, Op([], a), page)
    ensures Act(t, a, page).Some? ==>
              Act(t, a, page).value ==
              Node(t.region.(offset := match a
                                       case Alloc(size) => Taken(t.region, Rounded(size, 8)).value
                                       case Carve(size) => Taken(t.region, Rounded(size, page)).value
                                       case Reset => 0),
                   if a.Reset? then [] else t.items + Added(t.region, a, page))
  {
    assert ArenaAt(t, []) == Some(t);
    match a
    case Alloc(size) => AllocateIs(t.region, size);
    case Carve(size) => ScratchIs(t.region, size, page);
    case Reset =>
  }

  /** An operation succeeds exactly if its path names an arena and the room is there. */
  lemma {:induction false} PerformSucceeds(t: Tree, path: seq<nat>, a: Action, page: nat)
    requires IsPage(page) && 0 < page < W64 && Defined(t, Op(path, a))
    ensures Perform(t, path, a, page).Some? <==> Feasible(t, Op(path, a), page)
    decreases |path|
  {
    if path == [] {
      ActIs(t, a, page);
    } else if path[0] < |t.items| && t.items[path[0]].Sub? {
      PerformSucceeds(t.items[path[0]].tree, path[1..], a, page);
    }
  }

  /** And it changes exactly what it should, whatever arena one looks at afterwards. */
  lemma {:induction false} PerformOnArenas(t: Tree, path: seq<nat>, a: Action, page: nat, q: seq<nat>)
    requires IsPage(page) && 0 < page < W64 && Defined(t, Op(path, a)) && Feasible(t, Op(path, a), page)
    ensures Perform(t, path, a, page).Some?
    ensures ArenaEffect(t, Perform(t, path, a, page).value, Op(path, a), page, q)
    decreases |path|
  {
    PerformSucceeds(t, path, a, page);
    var n := |ArenaAt(t, path).value.items|;
    if path == [] {
      ActOnArenas(t, a, page, q);
    } else if q != [] && q[0] == path[0] {
      PerformOnArenas(t.items[path[0]].tree, path[1..], a, page, q[1..]);
      assert q == [q[0]] + q[1..] && path == [path[0]] + path[1..];
      assert path <= q <==> path[1..] <= q[1..];
      assert q <= path <==> q[1..] <= path[1..];
      assert q == path <==> q[1..] == path[1..];
      assert path + [n] == [path[0]] + (path[1..] + [n]);
      assert q == path + [n] <==> q[1..] == path[1..] + [n];
    } else {
      assert !(path <= q) && (q <= path ==> q == []);
      assert (path + [n])[0] == path[0];
    }
  }

  lemma ActOnArenas(t: Tree, a: Action, page: nat, q: seq<nat>)
    requires IsPage(page) && 0 < page < W64 && Defined(t, Op([], a)) && Feasible(t, Op([], a), page)
    ensures Act(t, a, page).Some? && ArenaEffect(t, Act(t, a, page).value, Op([], a), page, q)
  {
    ActIs(t, a, page);
    var n := |t.items|;
    assert ArenaAt(t, []) == Some(t) && [] + [n] == [n];
    if q != [] && q[0] == n {
      assert q == [n] <==> q[1..] == [];
      if a.Carve? {
        var child := Node(Region(t.region.base + 8 * t.region.offset, 0, Rounded(a.size, page)), []);
        assert ArenaAt(Act(t, a, page).value, q) == ArenaAt(child, q[1..]);
      }
    }
  }

  // ------------------------------------------------------------ whole runs

  /** A run of operations; None as soon as an assert fails or a retired arena is addressed. */
  function Run(t: Tree, ops: seq<Op>, page: nat): Option<Tree>
    requires 0 < page < W64
    decreases |ops|
  {
    if ops == [] then Some(t)
    else match Perform(t, ops[0].path, ops[0].action, page)
      case None => None
      case Some(t') => Run(t', ops[1..], page)
  }

  /** A run goes on from where it was with each further operation. */
  lemma {:induction false} RunAppend(t: Tree, ops: seq<Op>, op: Op, page: nat)
    requires 0 < page < W64
    ensures Run(t, [], page) == Some(t)
    ensures Run(t, ops + [op], page) == match Run(t, ops, page)
                                        case None => None
                                        case Some(t') => Perform(t', op.path, op.action, page)
    decreases |ops|
  {
    if ops == [] {
      assert [op][1..] == [];
    } else {
      assert (ops + [op])[0] == ops[0] && (ops + [op])[1..] == ops[1..] + [op];
      match Perform(t, ops[0].path, ops[0].action, page)
      case None =>
      case Some(t') => RunAppend(t', ops[1..], op, page);
    }
  }

  ghost predicate HonestRun(t: Tree, ops: seq<Op>, page: nat)
    requires 0 < page < W64
    decreases |ops|
  {
    ops == [] ||
    (&& Honest(t, ops[0], page)
     && match Perform(t, ops[0].path, ops[0].action, page)
        case None => true
        case Some(t') => HonestRun(t', ops[1..], page))
  }

  /** After any run over any tree of arenas the live blocks of parents, children and siblings
      are pairwise disjoint, and every arena's offset is a multiple of 8 within its capacity. */
  lemma {:induction false} RunKeepsBlocksDisjoint(t: Tree, ops: seq<Op>, page: nat)
    requires IsPage(page) && 0 < page < W64
    requires TreeOk(t) && HonestRun(t, ops, page) && Run(t, ops, page).Some?
    ensures var t' := Run(t, ops, page).value;
            && TreeOk(t')
            && (forall p, q :: p != q && BlockAt(t', p).Some? && BlockAt(t', q).Some? ==>
                  var b, c := BlockAt(t', p).value, BlockAt(t', q).value;
                  High(b) <= Low(c) || High(c) <= Low(b))
    decreases |ops|
  {
    if ops == [] {
      forall p, q | p != q && BlockAt(t, p).Some? && BlockAt(t, q).Some?
        ensures var b, c := BlockAt(t, p).value, BlockAt(t, q).value;
                High(b) <= Low(c) || High(c) <= Low(b)
      {
        BlocksDisjoint(t, p, q);
      }
    } else {
      var op := ops[0];
      PerformKeeps(t, op.path, op.action, page);
      RunKeepsBlocksDisjoint(Perform(t, op.path, op.action, page).value, ops[1..], page);
    }
  }

  /** Requests and pages of at most 2^62 bytes never come near the wrap-around. */
  lemma {:induction false} LargeRequestsAreHonest(t: Tree, ops: seq<Op>, page: nat)
    requires IsPage(page) && 0 < page <= LARGE && TreeOk(t)
    requires forall i :: 0 <= i < |ops| ==> Amount(ops[i].action) <= LARGE
    ensures HonestRun(t, ops, page)
    decreases |ops|
  {
    if ops != [] {
      var op := ops[0];
      LargeRequestIsHonest(t, op, page);
      match Perform(t, op.path, op.action, page)
      case None =>
      case Some(t') =>
        PerformKeeps(t, op.path, op.action, page);
        LargeRequestsAreHonest(t', ops[1..], page);
    }
  }

  function Amount(a: Action): nat {
    match a
    case Alloc(size) => size
    case Carve(size) => size
    case Reset => 0
  }

  lemma LargeRequestIsHonest(t: Tree, op: Op, page: nat)
    requires IsPage(page) && 0 < page <= LARGE && TreeOk(t) && Amount(op.action) <= LARGE
    ensures Honest(t, op, page)
  {
    match ArenaAt(t, op.path)
    case None =>
    case Some(target) =>
      ArenaAtOk(t, op.path);
      if op.action.Carve? {
        PageAligned(op.action.size, page);
      }
  }

  lemma {:induction false} ArenaAtOk(t: Tree, path: seq<nat>)
    requires TreeOk(t) && ArenaAt(t, path).Some?
    ensures TreeOk(ArenaAt(t, path).value)
    decreases |path|
  {
    if path != [] {
      ArenaAtOk(t.items[path[0]].tree, path[1..]);
    }
  }

  /** A run that never resets an arena at or above a live block leaves that block where it is. */
  lemma {:induction false} RunKeepsLiveBlock(t: Tree, ops: seq<Op>, page: nat, q: seq<nat>)
    requires 0 < page < W64 && Run(t, ops, page).Some?
    requires BlockAt(t, q).Some?
    requires forall i :: 0 <= i < |ops| && ops[i].path <= q ==> ops[i].action != Reset
    ensures BlockAt(Run(t, ops, page).value, q) == BlockAt(t, q)
    decreases |ops|
  {
    if ops != [] {
      var op := ops[0];
      PerformEffect(t, op.path, op.action, page, q);
      FreshSlotIsEmpty(t, op.path);
      RunKeepsLiveBlock(Perform(t, op.path, op.action, page).value, ops[1..], page, q);
    }
  }

  lemma {:induction false} FreshSlotIsEmpty(t: Tree, path: seq<nat>)
    requires ArenaAt(t, path).Some?
    ensures BlockAt(t, path + [|ArenaAt(t, path).value.items|]) == None
    decreases |path|
  {
    var slot := path + [|ArenaAt(t, path).value.items|];
    if path != [] {
      FreshSlotIsEmpty(t.items[path[0]].tree, path[1..]);
      assert slot[1..] == path[1..] + [|ArenaAt(t, path).value.items|];
    }
  }
}
