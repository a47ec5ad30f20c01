/** The stack-like arena of ui_c/src/base/base_arena.c: push, pop, and scratch brackets that
    remember a position and return to it. */
module BaseArena {
  import opened Bits
  import opened ArenaModel

  /** A block that was handed out, in offset units: bytes start (inclusive) to stop (exclusive). */
  datatype Block = Block(start: nat, stop: nat)

  /** An arena with the nonempty blocks still live in it, oldest first. */
  datatype Stack = Stack(region: Region, live: seq<Block>)

  /** A failing assert ends the program: no room on a push, or popping upwards. */
  datatype Outcome = Done(stack: Stack) | OutOfMemory | BadPop

  datatype Cmd =
    | Push(size: nat)
    | Pop(amount: nat)
    | PopTo(pos: nat)
    | Reset
    | Bracket(body: seq<Cmd>)

  ghost predicate StackOk(s: Stack) {
    && RegionFits(s.region)
    && (forall i :: 0 <= i < |s.live| ==> s.live[i].start < s.live[i].stop <= s.region.offset)
    && (forall i, j :: 0 <= i < j < |s.live| ==> s.live[i].stop <= s.live[j].start)
  }

  /** The blocks that end at or below a position. */
  function Below(live: seq<Block>, pos: nat): (kept: seq<Block>)
    ensures kept <= live
  {
    if live == [] || live[|live| - 1].stop <= pos then live else Below(live[..|live| - 1], pos)
  }

  /** `arena_push`. */
  function PushStep(s: Stack, size: nat): Outcome {
    match Allocate(s.region, size)
    case Refused => OutOfMemory
    case Granted(_, r) =>
      Done(Stack(r, if size == 0 then s.live else s.live + [Block(s.region.offset, s.region.offset + size)]))
  }

  /** `arena_pop_to`. */
  function PopToStep(s: Stack, pos: nat): Outcome {
    if s.region.offset >= pos then Done(Stack(s.region.(offset := pos), Below(s.live, pos))) else BadPop
  }

  /** Where `arena_pop` lands: an amount equal to the whole content pops nothing. */
  function PopTarget(offset: nat, amount: nat): nat {
    if amount < offset then offset - amount else offset
  }

  function Exec(s: Stack, c: Cmd): Outcome
    decreases c, 1
  {
    match c
    case Push(size) => PushStep(s, size)
    case Pop(amount) => PopToStep(s, PopTarget(s.region.offset, amount))
    case PopTo(pos) => PopToStep(s, pos)
    case Reset => PopToStep(s, 0)
    case Bracket(body) =>
      match ExecAll(s, body)
      case Done(s') => PopToStep(s', s.region.offset)
      case failed => failed
  }

  function ExecAll(s: Stack, cmds: seq<Cmd>): Outcome
    decreases cmds, 0
  {
    if cmds == [] then Done(s)
    else match Exec(s, cmds[0])
      case Done(s') => ExecAll(s', cmds[1..])
      case failed => failed
  }

  function States(o: Outcome): seq<Stack> {
    match o
    case Done(s) => [s]
    case _ => []
  }

  /** Every state passed through, inside brackets too. */
  function Trace(s: Stack, c: Cmd): seq<Stack>
    decreases c, 1
  {
    match c
    case Bracket(body) => TraceAll(s, body) + States(Exec(s, c))
    case _ => States(Exec(s, c))
  }

  function TraceAll(s: Stack, cmds: seq<Cmd>): seq<Stack>
    decreases cmds, 0
  {
    if cmds == [] then []
    else Trace(s, cmds[0]) + match Exec(s, cmds[0]) case Done(s') => TraceAll(s', cmds[1..]) case _ => []
  }

  /** Pushes for which no 64-bit sum wraps. */
  ghost predicate Sane(s: Stack, c: Cmd)
    decreases c, 1
  {
    match c
    case Push(size) => NoWrap(s.region, size)
    case Bracket(body) => SaneAll(s, body)
    case _ => true
  }

  ghost predicate SaneAll(s: Stack, cmds: seq<Cmd>)
    decreases cmds, 0
  {
    cmds == [] ||
    (&& Sane(s, cmds[0])
     && match Exec(s, cmds[0])
        case Done(s') => SaneAll(s', cmds[1..])
        case _ => true)
  }

  // ------------------------------------------------------------ single steps

  ghost predicate KeptFrom(kept: seq<Block>, floor: nat, s: Stack) {
    && kept <= s.live
    && (kept == [] || kept[|kept| - 1].stop <= floor)
  }

  lemma {:induction false} BelowKeeps(kept: seq<Block>, live: seq<Block>, pos: nat)
    requires kept <= live && (kept == [] || kept[|kept| - 1].stop <= pos)
    ensures kept <= Below(live, pos)
  {
    if live != [] && live[|live| - 1].stop > pos {
      assert kept != live;
      BelowKeeps(kept, live[..|live| - 1], pos);
    }
  }

  lemma {:induction false} BelowEnds(live: seq<Block>, pos: nat)
    requires forall i, j :: 0 <= i < j < |live| ==> live[i].stop <= live[j].start
    requires forall i :: 0 <= i < |live| ==> live[i].start < live[i].stop
    ensures forall b :: b in Below(live, pos) ==> b.stop <= pos
  {
    if live == [] || live[|live| - 1].stop <= pos {
    } else {
      BelowEnds(live[..|live| - 1], pos);
    }
  }

  lemma PopToKeeps(s: Stack, pos: nat, kept: seq<Block>, floor: nat)
    requires StackOk(s) && KeptFrom(kept, floor, s) && floor <= pos <= s.region.offset
    ensures StackOk(PopToStep(s, pos).stack) && KeptFrom(kept, floor, PopToStep(s, pos).stack)
  {
    BelowKeeps(kept, s.live, pos);
    BelowEnds(s.live, pos);
    var s' := PopToStep(s, pos).stack;
    forall i | 0 <= i < |s'.live|
      ensures s'.live[i].start < s'.live[i].stop <= pos
    {
      assert s'.live[i] in s'.live && s'.live[i] == s.live[i];
    }
  }

  lemma PushKeeps(s: Stack, size: nat, kept: seq<Block>, floor: nat)
    requires StackOk(s) && KeptFrom(kept, floor, s) && NoWrap(s.region, size)
    requires PushStep(s, size).Done?
    ensures StackOk(PushStep(s, size).stack) && KeptFrom(kept, floor, PushStep(s, size).stack)
    ensures PushStep(s, size).stack.region == s.region.(offset := s.region.offset + AlignUp(size, WORD))
    ensures size <= AlignUp(size, WORD)
  {
    var amount := AlignUp(size, WORD);
    AlignWord(size);
    BumpFits(s.region, amount);
    AppendBlock(s, s.region.offset + amount, size);
  }

  lemma AppendBlock(s: Stack, offset: nat, size: nat)
    requires StackOk(s) && 0 <= size && s.region.offset + size <= offset <= s.region.capacity
    ensures StackOk(Stack(s.region.(offset := offset), s.live))
    ensures size > 0 ==>
              StackOk(Stack(s.region.(offset := offset), s.live + [Block(s.region.offset, s.region.offset + size)]))
  {
  }

  // ------------------------------------------------------------ every command, exactly

  /** Of the blocks live before, those that end at or below the position are left. */
  ghost predicate LeftBelow(live: seq<Block>, left: seq<Block>, pos: nat) {
    left <= live && forall i :: 0 <= i < |live| ==> (i < |left| <==> live[i].stop <= pos)
  }

  /** Popping to a position: upwards it fails, otherwise the offset is there and what ends above
      is gone. */
  ghost predicate PoppedTo(s: Stack, o: Outcome, pos: nat) {
    if pos > s.region.offset then o == BadPop
    else o.Done? && o.stack.region == s.region.(offset := pos) && LeftBelow(s.live, o.stack.live, pos)
  }

  lemma PopToExact(s: Stack, pos: nat)
    requires StackOk(s)
    ensures PoppedTo(s, PopToStep(s, pos), pos)
  {
    BelowEnds(s.live, pos);
    BelowDropsAbove(s.live, pos);
    var left := Below(s.live, pos);
    forall i | 0 <= i < |left|
      ensures s.live[i].stop <= pos
    {
      assert left[i] in left && s.live[i] == left[i];
    }
  }

  lemma {:induction false} BelowDropsAbove(live: seq<Block>, pos: nat)
    requires forall i, j :: 0 <= i < j < |live| ==> live[i].stop <= live[j].start
    requires forall i :: 0 <= i < |live| ==> live[i].start < live[i].stop
    ensures forall i :: |Below(live, pos)| <= i < |live| ==> live[i].stop > pos
  {
    if live != [] && live[|live| - 1].stop > pos {
      BelowDropsAbove(live[..|live| - 1], pos);
    }
  }

  /** What a command comes to. A push fails exactly without room for the rounded size; a pop never
      fails, and one of the whole content or more does nothing; a pop to a position fails exactly
      upwards; a bracket is its body and then a pop to where it began. */
  lemma {:induction false} ExecExact(s: Stack, c: Cmd)
    requires StackOk(s) && (c.Push? ==> c.size < W64)
    ensures match c
            case Push(size) =>
              (match Taken(s.region, Rounded(size, 8))
               case None => Exec(s, c) == OutOfMemory
               case Some(o) =>
                 var block := Block(s.region.offset, s.region.offset + size);
                 Exec(s, c) == Done(Stack(s.region.(offset := o), s.live + if size == 0 then [] else [block])))
            case Pop(amount) =>
              PoppedTo(s, Exec(s, c), if s.region.offset > amount then s.region.offset - amount else s.region.offset)
            case PopTo(pos) => PoppedTo(s, Exec(s, c), pos)
            case Reset => Exec(s, c) == Done(Stack(s.region.(offset := 0), []))
            case Bracket(body) =>
              if ExecAll(s, body).Done? then
                StackOk(ExecAll(s, body).stack) ==> PoppedTo(ExecAll(s, body).stack, Exec(s, c), s.region.offset)
              else Exec(s, c) == ExecAll(s, body)
  {
    match c
    case Push(size) => AllocateIs(s.region, size);
    case Pop(amount) => PopToExact(s, PopTarget(s.region.offset, amount));
    case PopTo(pos) => PopToExact(s, pos);
    case Reset =>
      PopToExact(s, 0);
      BelowZero(s.live);
    case Bracket(body) =>
      if ExecAll(s, body).Done? && StackOk(ExecAll(s, body).stack) {
        PopToExact(ExecAll(s, body).stack, s.region.offset);
      }
  }

  /** Commands run one after the other, until one fails. */
  lemma {:induction false} ExecAllAppend(s: Stack, cmds: seq<Cmd>, c: Cmd)
    ensures ExecAll(s, []) == Done(s)
    ensures ExecAll(s, cmds + [c]) == if ExecAll(s, cmds).Done? then Exec(ExecAll(s, cmds).stack, c)
                                      else ExecAll(s, cmds)
    decreases |cmds|
  {
    if cmds == [] {
      assert [c][1..] == [] && cmds + [c] == [c];
      match Exec(s, c)
      case Done(s') => assert ExecAll(s', []) == Done(s');
      case _ =>
    } else {
      assert (cmds + [c])[0] == cmds[0] && (cmds + [c])[1..] == cmds[1..] + [c];
      match Exec(s, cmds[0])
      case Done(s') => ExecAllAppend(s', cmds[1..], c);
      case _ =>
    }
  }

  // ------------------------------------------------------------ blocks below a floor

  /** While no state of a run falls below a floor, every block that ends at or below it stays
      live, and no two live blocks of any state overlap. */
  lemma {:induction false} FloorKeeps(s: Stack, c: Cmd, kept: seq<Block>, floor: nat)
    requires StackOk(s) && Sane(s, c) && KeptFrom(kept, floor, s)
    requires forall st :: st in Trace(s, c) ==> floor <= st.region.offset
    ensures forall st :: st in Trace(s, c) ==> StackOk(st) && KeptFrom(kept, floor, st)
    decreases c, 1
  {
    match c
    case Push(size) =>
      if PushStep(s, size).Done? {
        PushKeeps(s, size, kept, floor);
      }
    case Bracket(body) =>
      assert forall st :: st in TraceAll(s, body) ==> st in Trace(s, c);
      FloorKeepsAll(s, body, kept, floor);
      match ExecAll(s, body) {
        case Done(s') => EndOfBracketKeeps(s, c, s', kept, floor);
        case _ =>
      }
    case Pop(amount) => EndOfPopKeeps(s, PopTarget(s.region.offset, amount), kept, floor);
    case PopTo(pos) => EndOfPopKeeps(s, pos, kept, floor);
    case Reset => EndOfPopKeeps(s, 0, kept, floor);
  }

  lemma EndOfPopKeeps(s: Stack, pos: nat, kept: seq<Block>, floor: nat)
    requires StackOk(s) && KeptFrom(kept, floor, s)
    requires forall st :: st in States(PopToStep(s, pos)) ==> floor <= st.region.offset
    ensures forall st :: st in States(PopToStep(s, pos)) ==> StackOk(st) && KeptFrom(kept, floor, st)
  {
    if PopToStep(s, pos).Done? {
      assert PopToStep(s, pos).stack in States(PopToStep(s, pos));
      PopToKeeps(s, pos, kept, floor);
    }
  }

  lemma EndOfBracketKeeps(s: Stack, c: Cmd, s': Stack, kept: seq<Block>, floor: nat)
    requires c.Bracket? && ExecAll(s, c.body) == Done(s')
    requires StackOk(s') && KeptFrom(kept, floor, s')
    requires forall st :: st in Trace(s, c) ==> floor <= st.region.offset
    ensures forall st :: st in States(Exec(s, c)) ==> StackOk(st) && KeptFrom(kept, floor, st)
  {
    assert Exec(s, c) == PopToStep(s', s.region.offset);
    assert forall st :: st in States(Exec(s, c)) ==> st in Trace(s, c);
    EndOfPopKeeps(s', s.region.offset, kept, floor);
  }

  lemma {:induction false} FloorKeepsAll(s: Stack, cmds: seq<Cmd>, kept: seq<Block>, floor: nat)
    requires StackOk(s) && SaneAll(s, cmds) && KeptFrom(kept, floor, s)
    requires forall st :: st in TraceAll(s, cmds) ==> floor <= st.region.offset
    ensures forall st :: st in TraceAll(s, cmds) ==> StackOk(st) && KeptFrom(kept, floor, st)
    ensures ExecAll(s, cmds).Done? ==>
              StackOk(ExecAll(s, cmds).stack) && KeptFrom(kept, floor, ExecAll(s, cmds).stack)
    decreases cmds, 0
  {
    if cmds != [] {
      assert forall st :: st in Trace(s, cmds[0]) ==> st in TraceAll(s, cmds);
      FloorKeeps(s, cmds[0], kept, floor);
      match Exec(s, cmds[0])
      case Done(s') =>
        LastState(s, cmds[0]);
        assert forall st :: st in TraceAll(s', cmds[1..]) ==> st in TraceAll(s, cmds);
        FloorKeepsAll(s', cmds[1..], kept, floor);
      case _ =>
    }
  }

  lemma LastState(s: Stack, c: Cmd)
    requires Exec(s, c).Done?
    ensures Exec(s, c).stack in Trace(s, c)
  {
    assert Exec(s, c).stack in States(Exec(s, c));
  }

  /** The trace of a run holds the state after each of its commands, and a bracket's that of its
      body. */
  lemma {:induction false} StatesTraced(s: Stack, cmds: seq<Cmd>, n: nat)
    requires 0 < n <= |cmds| && ExecAll(s, cmds[..n]).Done?
    ensures ExecAll(s, cmds[..n]).stack in TraceAll(s, cmds)
    ensures forall st :: st in TraceAll(s, cmds) ==> st in Trace(s, Bracket(cmds))
    decreases n
  {
    assert cmds[..n][0] == cmds[0] && cmds[..n][1..] == cmds[1..][..n - 1];
    var s' := Exec(s, cmds[0]).stack;
    LastState(s, cmds[0]);
    if n == 1 {
      assert ExecAll(s', cmds[..n][1..]) == Done(s');
    } else {
      StatesTraced(s', cmds[1..], n - 1);
    }
  }

  // ------------------------------------------------------------ scratch brackets

  /** Pops that the caller may make above a floor; a nested bracket has its own floor. */
  ghost predicate Bracketed(s: Stack, c: Cmd, floor: nat)
    decreases c, 1
  {
    match c
    case Push(_) => true
    case Pop(amount) => floor <= PopTarget(s.region.offset, amount)
    case PopTo(pos) => floor <= pos <= s.region.offset
    case Reset => floor == 0
    case Bracket(body) => BracketedAll(s, body, s.region.offset)
  }

  ghost predicate BracketedAll(s: Stack, cmds: seq<Cmd>, floor: nat)
    decreases cmds, 0
  {
    cmds == [] ||
    (&& Bracketed(s, cmds[0], floor)
     && match Exec(s, cmds[0])
        case Done(s') => BracketedAll(s', cmds[1..], floor)
        case _ => true)
  }

  /** A bracketed command never pops upwards and never falls below the floor; a whole bracket
      ends at the position where it began. */
  lemma {:induction false} BracketedStaysAbove(s: Stack, c: Cmd, floor: nat)
    requires StackOk(s) && Sane(s, c) && floor <= s.region.offset && Bracketed(s, c, floor)
    ensures Exec(s, c) != BadPop
    ensures forall st :: st in Trace(s, c) ==> floor <= st.region.offset
    ensures Exec(s, c).Done? ==> floor <= Exec(s, c).stack.region.offset && StackOk(Exec(s, c).stack)
    ensures Exec(s, c).Done? && c.Bracket? ==> Exec(s, c).stack.region == s.region
    decreases c, 1
  {
    match c
    case Push(size) =>
      if PushStep(s, size).Done? {
        PushKeeps(s, size, [], 0);
      }
    case Bracket(body) =>
      BracketedAllStaysAbove(s, body, s.region.offset);
      match ExecAll(s, body) {
        case Done(s') => PopToKeeps(s', s.region.offset, [], 0);
        case _ =>
      }
    case Pop(amount) => PopToKeeps(s, PopTarget(s.region.offset, amount), [], 0);
    case PopTo(pos) => PopToKeeps(s, pos, [], 0);
    case Reset => PopToKeeps(s, 0, [], 0);
  }

  lemma {:induction false} BracketedAllStaysAbove(s: Stack, cmds: seq<Cmd>, floor: nat)
    requires StackOk(s) && SaneAll(s, cmds) && floor <= s.region.offset && BracketedAll(s, cmds, floor)
    ensures ExecAll(s, cmds) != BadPop
    ensures forall st :: st in TraceAll(s, cmds) ==> floor <= st.region.offset
    ensures ExecAll(s, cmds).Done? ==>
              && floor <= ExecAll(s, cmds).stack.region.offset
              && StackOk(ExecAll(s, cmds).stack)
              && ExecAll(s, cmds).stack.region.base == s.region.base
              && ExecAll(s, cmds).stack.region.capacity == s.region.capacity
    decreases cmds, 0
  {
    if cmds != [] {
      BracketedStaysAbove(s, cmds[0], floor);
      match Exec(s, cmds[0])
      case Done(s') =>
        SameRegion(s, cmds[0]);
        BracketedAllStaysAbove(s', cmds[1..], floor);
      case _ =>
    }
  }

  lemma {:induction false} SameRegion(s: Stack, c: Cmd)
    requires Exec(s, c).Done?
    ensures Exec(s, c).stack.region.base == s.region.base
    ensures Exec(s, c).stack.region.capacity == s.region.capacity
    decreases c, 1
  {
    if c.Bracket? {
      SameRegionAll(s, c.body);
    }
  }

  lemma {:induction false} SameRegionAll(s: Stack, cmds: seq<Cmd>)
    requires ExecAll(s, cmds).Done?
    ensures ExecAll(s, cmds).stack.region.base == s.region.base
    ensures ExecAll(s, cmds).stack.region.capacity == s.region.capacity
    decreases cmds, 0
  {
    if cmds != [] {
      SameRegion(s, cmds[0]);
      SameRegionAll(Exec(s, cmds[0]).stack, cmds[1..]);
    }
  }

  lemma BodyKeeps(s: Stack, body: seq<Cmd>)
    requires StackOk(s) && SaneAll(s, body) && BracketedAll(s, body, s.region.offset)
    ensures forall st :: st in TraceAll(s, body) ==> StackOk(st) && s.live <= st.live
    ensures ExecAll(s, body) == OutOfMemory
         || (ExecAll(s, body).Done? && PopToStep(ExecAll(s, body).stack, s.region.offset) == Done(s))
  {
    var mark := s.region.offset;
    BracketedAllStaysAbove(s, body, mark);
    FloorKeepsAll(s, body, s.live, mark);
    AboveAll(s, body, s.live, mark);
    match ExecAll(s, body)
    case Done(s') => BelowExactly(s.live, s'.live, mark);
    case _ =>
  }

  /** A scratch bracket whose inner pops stay at or above its mark, nested brackets included:
      the assert of `arena_pop_to` never fires, the end restores the arena exactly as it was,
      and in every state in between the blocks live at the beginning are still live, disjoint
      from everything else that is live. */
  lemma BracketRestores(s: Stack, body: seq<Cmd>)
    requires StackOk(s) && SaneAll(s, body) && BracketedAll(s, body, s.region.offset)
    ensures Exec(s, Bracket(body)) in {OutOfMemory, Done(s)}
    ensures forall st :: st in Trace(s, Bracket(body)) ==> StackOk(st) && s.live <= st.live
  {
    BodyKeeps(s, body);
    assert Exec(s, Bracket(body)) == if ExecAll(s, body).Done? then Done(s) else OutOfMemory;
  }

  lemma {:induction false} BelowExactly(kept: seq<Block>, live: seq<Block>, mark: nat)
    requires kept <= live && (kept == [] || kept[|kept| - 1].stop <= mark)
    requires forall i :: |kept| <= i < |live| ==> mark <= live[i].start < live[i].stop
    ensures Below(live, mark) == kept
  {
    if |live| > |kept| {
      BelowExactly(kept, live[..|live| - 1], mark);
    }
  }

  /** What is live beyond the first n blocks starts at or above the mark. */
  ghost predicate RestAbove(s: Stack, n: nat, mark: nat) {
    n <= |s.live| && forall i :: n <= i < |s.live| ==> mark <= s.live[i].start
  }

  lemma {:induction false} AboveOne(s: Stack, c: Cmd, kept: seq<Block>, mark: nat)
    requires StackOk(s) && Sane(s, c) && KeptFrom(kept, mark, s) && mark <= s.region.offset
    requires RestAbove(s, |kept|, mark)
    requires forall st :: st in Trace(s, c) ==> mark <= st.region.offset
    ensures Exec(s, c).Done? ==> RestAbove(Exec(s, c).stack, |kept|, mark)
    decreases c, 1
  {
    if Exec(s, c).Done? {
      FloorKeeps(s, c, kept, mark);
      LastState(s, c);
      if c.Bracket? {
        assert forall st :: st in TraceAll(s, c.body) ==> st in Trace(s, c);
        AboveAll(s, c.body, kept, mark);
      }
    }
  }

  lemma {:induction false} AboveAll(s: Stack, cmds: seq<Cmd>, kept: seq<Block>, mark: nat)
    requires StackOk(s) && SaneAll(s, cmds) && KeptFrom(kept, mark, s) && mark <= s.region.offset
    requires RestAbove(s, |kept|, mark)
    requires forall st :: st in TraceAll(s, cmds) ==> mark <= st.region.offset
    ensures ExecAll(s, cmds).Done? ==> RestAbove(ExecAll(s, cmds).stack, |kept|, mark)
    decreases cmds, 0
  {
    if cmds != [] {
      assert forall st :: st in Trace(s, cmds[0]) ==> st in TraceAll(s, cmds);
      AboveOne(s, cmds[0], kept, mark);
      FloorKeeps(s, cmds[0], kept, mark);
      match Exec(s, cmds[0])
      case Done(s') =>
        LastState(s, cmds[0]);
        assert forall st :: st in TraceAll(s', cmds[1..]) ==> st in TraceAll(s, cmds);
        AboveAll(s', cmds[1..], kept, mark);
      case _ =>
    }
  }

  /** Where the newest live block ends. */
  function LiveEnd(s: Stack): nat {
    if s.live == [] then 0 else s.live[|s.live| - 1].stop
  }

  /** The blocks live at the beginning survive every state of the body exactly when no state falls
      below the end of the newest of them. */
  lemma SurvivalExact(s: Stack, body: seq<Cmd>)
    requires StackOk(s) && SaneAll(s, body)
    ensures (forall st :: st in TraceAll(s, body) ==> StackOk(st) && s.live <= st.live)
       <==> (forall st :: st in TraceAll(s, body) ==> LiveEnd(s) <= st.region.offset)
  {
    var floor := LiveEnd(s);
    if forall st :: st in TraceAll(s, body) ==> floor <= st.region.offset {
      FloorKeepsAll(s, body, s.live, floor);
    }
    forall st | st in TraceAll(s, body) && StackOk(st) && s.live <= st.live
      ensures floor <= st.region.offset
    {
      if s.live != [] {
        assert st.live[|s.live| - 1] == s.live[|s.live| - 1];
      }
    }
  }

  /** `arena_pop` undoes a push of the same size exactly when nothing was pushed, or a whole number
      of words on top of something: the padding of other sizes stays behind, and popping the
      entire content is ignored. */
  lemma PopUndoesPush(s: Stack, size: nat)
    requires StackOk(s) && NoWrap(s.region, size) && PushStep(s, size).Done?
    ensures Exec(PushStep(s, size).stack, Pop(size)) == Done(s)
       <==> size == 0 || (size % WORD == 0 && s.region.offset > 0)
  {
    var amount := Padded(s, size);
    WholeWordsExact(size, amount);
    BelowAll(s);
    PopTop(s, size, amount, PushStep(s, size).stack);
  }

  /** What a push adds to the offset. */
  lemma Padded(s: Stack, size: nat) returns (amount: nat)
    requires StackOk(s) && NoWrap(s.region, size) && PushStep(s, size).Done?
    ensures LeastMultiple(amount, size, WORD)
    ensures PushStep(s, size).stack ==
            Stack(s.region.(offset := s.region.offset + amount),
                  if size == 0 then s.live else s.live + [Block(s.region.offset, s.region.offset + size)])
  {
    amount := AlignUp(size, WORD);
    AlignWord(size);
    BumpFits(s.region, amount);
  }

  lemma WholeWordsExact(size: nat, amount: nat)
    requires LeastMultiple(amount, size, WORD)
    ensures amount == size <==> size % WORD == 0
  {
  }

  lemma BelowAll(s: Stack)
    requires StackOk(s)
    ensures Below(s.live, s.region.offset) == s.live
  {
  }

  lemma PopTop(s: Stack, size: nat, amount: nat, pushed: Stack)
    requires StackOk(s) && size <= amount && (size == 0 ==> amount == 0)
    requires pushed.region == s.region.(offset := s.region.offset + amount)
    requires pushed.live ==
             if size == 0 then s.live else s.live + [Block(s.region.offset, s.region.offset + size)]
    requires Below(s.live, s.region.offset) == s.live
    ensures Exec(pushed, Pop(size)) == Done(s) <==> size == 0 || (amount == size && s.region.offset > 0)
  {
    if size > 0 && amount == size && s.region.offset > 0 {
      assert pushed.live[..|pushed.live| - 1] == s.live;
      assert Below(pushed.live, s.region.offset) == Below(s.live, s.region.offset);
    }
  }

  /** The assert at the end of a bracket does not notice a body that dips below the mark and
      climbs back: from any nonempty arena this body hands out all of it a second time and the
      bracket still ends quietly at its mark. */
  lemma DipGoesUnnoticed(s: Stack)
    requires StackOk(s) && 0 < s.region.offset && s.region.offset % WORD == 0
    ensures Exec(s, Bracket([Reset, Push(s.region.offset)])) == Done(Stack(s.region, [Block(0, s.region.offset)]))
  {
    var mark := s.region.offset;
    var empty := Stack(s.region.(offset := 0), []);
    var refilled := Stack(s.region, [Block(0, mark)]);
    BelowZero(s.live);
    assert Exec(s, Reset) == Done(empty);
    RefillStep(empty, mark);
    var body := [Reset, Push(mark)];
    assert body[1..] == [Push(mark)] && [Push(mark)][1..] == [];
    assert ExecAll(refilled, []) == Done(refilled);
    assert ExecAll(empty, [Push(mark)]) == Done(refilled);
    assert ExecAll(s, body) == Done(refilled);
    assert Below(refilled.live, mark) == refilled.live;
  }

  lemma RefillStep(s: Stack, size: nat)
    requires StackOk(s) && s.region.offset == 0 && s.live == []
    requires 0 < size <= s.region.capacity && size % WORD == 0
    ensures Exec(s, Push(size)) == Done(Stack(s.region.(offset := size), [Block(0, size)]))
  {
    AlignWholeWords(size);
    AllocateWhole(s.region, size);
    PushGranted(s, size, Top(s.region), s.region.(offset := size));
  }

  lemma PushGranted(s: Stack, size: nat, addr: nat, r: Region)
    requires size > 0 && Allocate(s.region, size) == Granted(addr, r)
    ensures Exec(s, Push(size)) == Done(Stack(r, s.live + [Block(s.region.offset, s.region.offset + size)]))
  {
  }

  lemma {:induction false} BelowZero(live: seq<Block>)
    requires forall i :: 0 <= i < |live| ==> 0 < live[i].stop
    ensures Below(live, 0) == []
  {
    if live != [] {
      BelowZero(live[..|live| - 1]);
    }
  }

  // ------------------------------------------------------------ the arena object

  class StackArena {
    const base: nat
    var offset: nat
    const capacity: nat
    ghost var live: seq<Block>

    ghost function Value(): Stack
      reads this
    {
      Stack(Region(base, offset, capacity), live)
    }

    constructor (base: nat, capacity: nat, page: nat)
      requires IsPage(page) && 0 < page < W64 && capacity <= W64 - page
      requires base + 8 * AlignUp(capacity, page) < W64
      ensures Value() == Stack(Region(base, 0, AlignUp(capacity, page)), []) && StackOk(Value())
      ensures capacity <= this.capacity < capacity + page
    {
      PageAligned(capacity, page);
      this.base, offset, this.capacity, live := base, 0, AlignUp(capacity, page), [];
    }

    method Push(size: nat) returns (ok: bool, addr: nat)
      modifies this
      ensures ok == PushStep(old(Value()), size).Done?
      ensures ok ==> Value() == PushStep(old(Value()), size).stack && addr == Wrap(base + 8 * old(offset))
      ensures !ok ==> Value() == old(Value())
    {
      var alignedSize := AlignUp(size, WORD);
      addr := 0;
      ok := Wrap(offset + alignedSize) <= capacity;
      if ok {
        addr := Wrap(base + 8 * offset);
        live := if size == 0 then live else live + [Block(offset, offset + size)];
        offset := Wrap(offset + alignedSize);
      }
    }

    method Pop(amount: nat) returns (ok: bool)
      modifies this
      ensures ok && Done(Value()) == Exec(old(Value()), Cmd.Pop(amount))
    {
      var oldOffset := offset;
      var newOffset := oldOffset;
      if amount < oldOffset {
        newOffset := oldOffset - amount;
      }
      ok := PopTo(newOffset);
    }

    method Reset() returns (ok: bool)
      modifies this
      ensures ok && Done(Value()) == Exec(old(Value()), Cmd.Reset)
    {
      ok := PopTo(0);
    }

    method PopTo(pos: nat) returns (ok: bool)
      modifies this
      ensures ok == PopToStep(old(Value()), pos).Done?
      ensures Value() == if ok then PopToStep(old(Value()), pos).stack else old(Value())
    {
      ok := offset >= pos;
      if ok {
        offset := pos;
        live := Below(live, pos);
      }
    }

    /** `arena_scratch_begin`: the mark to give back to ScratchEnd. */
    method ScratchBegin() returns (mark: nat)
      ensures mark == offset
    {
      mark := offset;
    }

    method ScratchEnd(mark: nat) returns (ok: bool)
      modifies this
      ensures ok == PopToStep(old(Value()), mark).Done?
      ensures Value() == if ok then PopToStep(old(Value()), mark).stack else old(Value())
    {
      ok := PopTo(mark);
    }
  }
}
