/** Debugging is transparent: through the breakpoint overlay, every session of set, remove and
    continue commands shows the debuggee exactly on its own undebugged run. */
module Transparency {
  import opened Bits
  import opened TraceeModel
  import opened DebuggerSpec

  /** The next native instruction keeps off the given addresses, apart from its own first byte. */
  ghost predicate Untouched(cpu: Cpu, s: Proc, addrs: set<nat>) {
    AtInt3(s) ||
    forall a :: a in addrs && a != s.pc ==> a !in cpu.readSet(s) && a !in cpu.writeSet(s)
  }

  /** So do the next k. */
  ghost predicate Quiet(cpu: Cpu, s: Proc, addrs: set<nat>, k: nat) {
    forall i: nat :: i < k ==> Untouched(cpu, Iter(cpu, s, i), addrs)
  }

  /** The patched process p shadows the native one n. */
  ghost predicate Shadows(p: Proc, n: Proc, armed: set<nat>) {
    && p.pc == n.pc && p.rest == n.rest
    && armed <= n.mem.Keys
    && p.mem == Overlay(n.mem, armed)
  }

  ghost predicate SameBytes(m: Memory, m': Memory, addrs: set<nat>) {
    forall a :: a in addrs ==> SameAt(m, m', a)
  }

  // ------------------------------------------------------------ one instruction

  /** Away from the armed addresses the patched and the native process do the same. */
  lemma PatchedStep(cpu: Cpu, p: Proc, n: Proc, armed: set<nat>)
    requires Lawful(cpu) && Shadows(p, n, armed)
    requires n.pc !in armed && Untouched(cpu, n, armed)
    ensures AtInt3(p) <==> AtInt3(n)
    ensures Shadows(Step(cpu, p), Step(cpu, n), armed)
    ensures SameBytes(n.mem, Step(cpu, n).mem, armed)
  {
    if !AtInt3(n) {
      assert AgreeOn(n, p, cpu.readSet(n));
      assert SameEffect(cpu, n, p);
      var p', n' := cpu.exec(p), cpu.exec(n);
      forall a: nat
        ensures a in armed ==> SameAt(n.mem, n'.mem, a) && SameAt(p.mem, p'.mem, a)
        ensures a !in armed ==> SameAt(p'.mem, n'.mem, a)
      {
        if a !in cpu.writeSet(n) {
          assert SameAt(n.mem, n'.mem, a) && SameAt(p.mem, p'.mem, a);
        } else {
          assert SameAt(n'.mem, p'.mem, a);
        }
      }
      assert p'.mem.Keys == Overlay(n'.mem, armed).Keys;
      assert p'.mem == Overlay(n'.mem, armed);
    }
  }

  lemma UntouchedSubset(cpu: Cpu, s: Proc, some: set<nat>, all: set<nat>)
    requires some <= all && Untouched(cpu, s, all)
    ensures Untouched(cpu, s, some)
  {
  }

  lemma QuietFrom(cpu: Cpu, s: Proc, addrs: set<nat>, m: nat, k: nat)
    requires Quiet(cpu, s, addrs, m + k)
    ensures Quiet(cpu, Iter(cpu, s, m), addrs, k)
  {
    forall i: nat | i < k
      ensures Untouched(cpu, Iter(cpu, Iter(cpu, s, m), i), addrs)
    {
      IterAdd(cpu, s, m, i);
      assert Untouched(cpu, Iter(cpu, s, m + i), addrs);
    }
  }

  // ------------------------------------------------------------ stepping over

  /** At a trap, stepping over executes exactly the one native instruction at the breakpoint and
      leaves the same breakpoints armed; the entry stepped over saves the byte that the
      instruction left there, even if it overwrote itself, and nothing else in the table changes.
      It aborts exactly if the word there is no longer mapped, or afterwards is unmapped or all
      ones. Without a trap nothing changes. */
  lemma StepOverTransparent(cpu: Cpu, d: Dbg)
    requires Lawful(cpu) && Inv(d) && (AtTrap(d) ==> Untouched(cpu, View(d), Enabled(d)))
    ensures var b, n := TrapAddr(d), Step(cpu, View(d));
            match StepOver(cpu, d)
            case Done(d') =>
              if AtTrap(d) then
                && Inv(d') && Enabled(d') == Enabled(d) && RunningView(d') == n
                && b in n.mem && d'.bps == d.bps[b := d.bps[b].(saved := n.mem[b])]
                && WindowMapped(d.proc.mem, b) && PeekOk(Overlay(n.mem, Enabled(d) - {b}), b)
              else d' == d
            case Running(_) => false
            case Aborted =>
              && AtTrap(d)
              && (WindowMapped(d.proc.mem, b) ==> !PeekOk(Overlay(n.mem, Enabled(d) - {b}), b))
  {
    if AtTrap(d) {
      var b := TrapAddr(d);
      var n := View(d);
      var others := Enabled(d) - {b};
      DisarmNeverAborts(d, b);
      var p := Proc(d.proc.mem[b := d.bps[b].saved], b, d.proc.rest);
      DisarmedShadows(d, p);
      UntouchedSubset(cpu, n, others, Enabled(d));
      PatchedStep(cpu, p, n, others);
      StepStaysIn64(cpu, p);
      if PeekOk(Step(cpu, p).mem, b) {
        Rearm(d, Step(cpu, p), Step(cpu, n));
      }
    }
  }

  lemma DisarmedShadows(d: Dbg, p: Proc)
    requires Inv(d) && AtTrap(d)
    requires p == Proc(d.proc.mem[TrapAddr(d) := d.bps[TrapAddr(d)].saved], TrapAddr(d), d.proc.rest)
    ensures Shadows(p, View(d), Enabled(d) - {TrapAddr(d)})
  {
    assert p.mem == Overlay(Native(d), Enabled(d) - {TrapAddr(d)});
  }

  /** The debuggee p' stopped after the single step, with its breakpoint at the old trap set again. */
  ghost function Rearmed(d: Dbg, p': Proc): Dbg
    requires TrapAddr(d) in d.bps && TrapAddr(d) in p'.mem
  {
    var b := TrapAddr(d);
    Dbg(p'.(mem := p'.mem[b := INT3]), d.bps[b := d.bps[b].(saved := p'.mem[b], enabled := true)])
  }

  lemma Rearm(d: Dbg, p': Proc, n': Proc)
    requires Inv(d) && AtTrap(d) && p'.pc < W64 && TrapAddr(d) in p'.mem
    requires Shadows(p', n', Enabled(d) - {TrapAddr(d)})
    requires SameBytes(Native(d), n'.mem, Enabled(d) - {TrapAddr(d)})
    ensures var d' := Rearmed(d, p');
            && Inv(d') && Enabled(d') == Enabled(d) && RunningView(d') == n'
            && TrapAddr(d) in n'.mem && d'.bps[TrapAddr(d)].saved == n'.mem[TrapAddr(d)]
  {
    var b := TrapAddr(d);
    var d' := Rearmed(d, p');
    assert Enabled(d') == Enabled(d);
    forall a | a in Enabled(d)
      ensures a in n'.mem && d'.bps[a].saved == n'.mem[a]
    {
      if a != b {
        assert SameAt(Native(d), n'.mem, a);
      }
    }
    assert d'.proc.mem == Overlay(n'.mem, Enabled(d));
    OverlaysIsNative(d', n'.mem);
  }

  lemma StepStaysIn64(cpu: Cpu, s: Proc)
    requires Lawful(cpu)
    ensures Step(cpu, s).pc < W64
  {
  }

  // ------------------------------------------------------------ running to the next trap

  /** The wait status w, reached from the patched process after k instructions, follows the
      native run from n: the first k instructions meet neither an armed address nor a native
      int3, and a stop happens one past the first address that is one. */
  ghost predicate Follows(cpu: Cpu, n: Proc, armed: set<nat>, k: nat, w: Wait) {
    && (forall i: nat :: i < k ==> Iter(cpu, n, i).pc !in armed && !AtInt3(Iter(cpu, n, i)))
    && SameBytes(n.mem, Iter(cpu, n, k).mem, armed)
    && (w.Stopped? ==> Iter(cpu, n, k).pc in armed || AtInt3(Iter(cpu, n, k)))
    && w.proc.pc == (if w.Stopped? then Wrap(Iter(cpu, n, k).pc + 1) else Iter(cpu, n, k).pc)
    && Shadows(w.proc.(pc := Iter(cpu, n, k).pc), Iter(cpu, n, k), armed)
  }

  lemma FollowsFromNext(cpu: Cpu, n: Proc, armed: set<nat>, k: nat, w: Wait)
    requires n.pc !in armed && !AtInt3(n) && SameBytes(n.mem, Step(cpu, n).mem, armed)
    requires Follows(cpu, Step(cpu, n), armed, k, w)
    ensures Follows(cpu, n, armed, k + 1, w)
  {
    var n' := Step(cpu, n);
    assert Iter(cpu, n, 0) == n;
    assert Iter(cpu, n, 1) == n';
    IterAdd(cpu, n, 1, k);
    forall i: nat | i < k + 1
      ensures Iter(cpu, n, i).pc !in armed && !AtInt3(Iter(cpu, n, i))
    {
      if i > 0 {
        IterAdd(cpu, n, 1, i - 1);
      }
    }
    forall a | a in armed
      ensures SameAt(n.mem, Iter(cpu, n, k + 1).mem, a)
    {
      assert SameAt(n.mem, n'.mem, a) && SameAt(n'.mem, Iter(cpu, n', k).mem, a);
    }
  }

  /** The native instructions before the first armed address or native int3, up to a budget. */
  ghost function NativeSteps(cpu: Cpu, n: Proc, armed: set<nat>, budget: nat): nat
    decreases budget
  {
    if budget == 0 || n.pc in armed || AtInt3(n) then 0
    else 1 + NativeSteps(cpu, Step(cpu, n), armed, budget - 1)
  }

  lemma TrapsTogether(p: Proc, n: Proc, armed: set<nat>)
    requires Shadows(p, n, armed)
    ensures AtInt3(p) <==> n.pc in armed || AtInt3(n)
  {
  }

  lemma FollowsAtOnce(cpu: Cpu, p: Proc, n: Proc, armed: set<nat>, budget: nat)
    requires Shadows(p, n, armed) && (budget == 0 || AtInt3(p))
    ensures Follows(cpu, n, armed, 0, RunToTrap(cpu, p, budget))
  {
    TrapsTogether(p, n, armed);
    assert Iter(cpu, n, 0) == n;
    assert p.(pc := n.pc) == p;
  }

  /** PTRACE_CONT on the patched process follows the native run one instruction for one, as long
      as the instructions executed keep off the armed addresses; it stops if and only if the
      native run comes to one of them, or to a native int3, within the budget. */
  lemma {:induction false} RunTransparent(cpu: Cpu, p: Proc, n: Proc, armed: set<nat>, budget: nat)
    requires Lawful(cpu) && Shadows(p, n, armed)
    requires Quiet(cpu, n, armed, NativeSteps(cpu, n, armed, budget))
    ensures Follows(cpu, n, armed, NativeSteps(cpu, n, armed, budget), RunToTrap(cpu, p, budget))
    ensures StepsToTrap(cpu, p, budget) == NativeSteps(cpu, n, armed, budget) <= budget
    ensures RunToTrap(cpu, p, budget).Stopped? <==> NativeSteps(cpu, n, armed, budget) < budget
    decreases budget
  {
    TrapsTogether(p, n, armed);
    if budget == 0 || AtInt3(p) {
      FollowsAtOnce(cpu, p, n, armed, budget);
    } else {
      assert Iter(cpu, n, 0) == n;
      var k := NativeSteps(cpu, Step(cpu, n), armed, budget - 1);
      assert Untouched(cpu, Iter(cpu, n, 0), armed);
      PatchedStep(cpu, p, n, armed);
      assert Iter(cpu, n, 1) == Step(cpu, n);
      QuietFrom(cpu, n, armed, 1, k);
      RunTransparent(cpu, cpu.exec(p), Step(cpu, n), armed, budget - 1);
      FollowsFromNext(cpu, n, armed, k, RunToTrap(cpu, p, budget));
    }
  }

  // ------------------------------------------------------------ continue

  /** The native instructions that one continue command executes: the one stepped over, those up
      to the next trap, and a native int3 if that is what stopped the process. */
  ghost function Executed(cpu: Cpu, d: Dbg, budget: nat): nat {
    var over := if AtTrap(d) then 1 else 0;
    var s := Iter(cpu, View(d), over);
    var k := NativeSteps(cpu, s, Enabled(d), budget);
    over + k + if k < budget && Iter(cpu, s, k).pc !in Enabled(d) then 1 else 0
  }

  /** d' is where k native instructions lead from d, with the same breakpoints armed. */
  ghost predicate Advanced(cpu: Cpu, d: Dbg, d': Dbg, view': Proc, k: nat) {
    && Inv(d') && Enabled(d') == Enabled(d)
    && view' == Iter(cpu, View(d), k)
    && d'.bps.Keys == d.bps.Keys
  }

  /** After the instruction stepped over, no breakpoint is run through. */
  ghost predicate NoneMissed(cpu: Cpu, d: Dbg, k: nat) {
    forall i: nat :: (if AtTrap(d) then 1 else 0) <= i < k ==> Iter(cpu, View(d), i).pc !in Enabled(d)
  }

  lemma SteppedOver(cpu: Cpu, d: Dbg)
    requires Lawful(cpu) && Inv(d) && (AtTrap(d) ==> Untouched(cpu, View(d), Enabled(d)))
    requires StepOver(cpu, d).Done?
    ensures var d1, over := StepOver(cpu, d).dbg, if AtTrap(d) then 1 else 0;
            && Inv(d1) && Enabled(d1) == Enabled(d) && d1.bps.Keys == d.bps.Keys
            && RunningView(d1) == Iter(cpu, View(d), over)
            && Shadows(d1.proc, Iter(cpu, View(d), over), Enabled(d))
  {
    var d1 := StepOver(cpu, d).dbg;
    StepOverTransparent(cpu, d);
    assert Iter(cpu, View(d), 0) == View(d);
    assert Iter(cpu, View(d), 1) == Step(cpu, View(d));
    OverlaysIsNative(d1, Native(d1));
    assert d1.bps.Keys == d.bps.Keys;
  }

  lemma {:induction false} IterIn64(cpu: Cpu, s: Proc, n: nat)
    requires Lawful(cpu) && s.pc < W64
    ensures Iter(cpu, s, n).pc < W64
  {
    if n != 0 {
      IterIn64(cpu, s, n - 1);
    }
  }

  lemma ForthAndBack(pc: nat)
    requires pc < W64
    ensures Wrap(Wrap(pc + 1) - 1) == pc
  {
  }

  /** The debugger that waited is again an overlay, over the native memory reached. */
  lemma WaitOverlay(cpu: Cpu, d1: Dbg, s: Proc, k: nat, w: Wait)
    requires Inv(d1) && Native(d1) == s.mem && Iter(cpu, s, k).pc < W64
    requires Follows(cpu, s, Enabled(d1), k, w)
    ensures var d' := d1.(proc := w.proc);
            Inv(d') && Enabled(d') == Enabled(d1) && Native(d') == Iter(cpu, s, k).mem
  {
    var n := Iter(cpu, s, k);
    var d' := d1.(proc := w.proc);
    assert Enabled(d') == Enabled(d1);
    OverlaysIsNative(d1, s.mem);
    forall a | a in Enabled(d1)
      ensures d1.bps[a].saved == n.mem[a]
    {
      assert SameAt(s.mem, n.mem, a);
    }
    OverlaysIsNative(d', n.mem);
  }

  /** Its view is the native state reached, or the next one after a native int3. */
  lemma WaitView(cpu: Cpu, d1: Dbg, s: Proc, k: nat, w: Wait)
    requires Inv(d1) && Native(d1) == s.mem && Iter(cpu, s, k).pc < W64
    requires Follows(cpu, s, Enabled(d1), k, w)
    ensures var n, d' := Iter(cpu, s, k), d1.(proc := w.proc);
            && Inv(d') && Enabled(d') == Enabled(d1)
            && (w.StillRunning? ==> RunningView(d') == n)
            && (w.Stopped? && n.pc in Enabled(d1) ==> AtTrap(d') && View(d') == n)
            && (w.Stopped? && n.pc !in Enabled(d1) ==> AtInt3(n) && View(d') == Step(cpu, n))
  {
    WaitOverlay(cpu, d1, s, k, w);
    ForthAndBack(Iter(cpu, s, k).pc);
  }

  lemma NoneMissedOnTheWay(cpu: Cpu, d: Dbg, over: nat, k: nat, w: Wait)
    requires over == (if AtTrap(d) then 1 else 0)
    requires Follows(cpu, Iter(cpu, View(d), over), Enabled(d), k, w)
    ensures NoneMissed(cpu, d, over + k)
    ensures Iter(cpu, View(d), over + k).pc !in Enabled(d) ==> NoneMissed(cpu, d, over + k + 1)
  {
    var s := Iter(cpu, View(d), over);
    forall i: nat | over <= i < over + k
      ensures Iter(cpu, View(d), i).pc !in Enabled(d)
    {
      IterAdd(cpu, View(d), over, i - over);
      assert Iter(cpu, s, i - over).pc !in Enabled(d);
    }
  }

  /** What one continue command that executed k native instructions promises. */
  ghost predicate ContinuedTo(cpu: Cpu, d: Dbg, o: Outcome, k: nat) {
    match o
    case Done(d') =>
      && Advanced(cpu, d, d', View(d'), k) && NoneMissed(cpu, d, k)
      && (AtTrap(d') || (k > 0 && AtInt3(Iter(cpu, View(d), k - 1))))
    case Running(d') =>
      Advanced(cpu, d, d', RunningView(d'), k) && NoneMissed(cpu, d, k)
    case Aborted => StepOver(cpu, d).Aborted?
  }

  lemma ContinuedFrom(cpu: Cpu, d: Dbg, d1: Dbg, over: nat, k: nat, w: Wait)
    requires over == (if AtTrap(d) then 1 else 0)
    requires Inv(d1) && Enabled(d1) == Enabled(d) && d1.bps.Keys == d.bps.Keys
    requires RunningView(d1) == Iter(cpu, View(d), over)
    requires Follows(cpu, Iter(cpu, View(d), over), Enabled(d), k, w)
    requires Iter(cpu, View(d), over + k).pc < W64
    ensures var d' := d1.(proc := w.proc);
            if w.StillRunning? then ContinuedTo(cpu, d, Running(d'), over + k)
            else if Iter(cpu, View(d), over + k).pc in Enabled(d) then ContinuedTo(cpu, d, Done(d'), over + k)
            else ContinuedTo(cpu, d, Done(d'), over + k + 1)
  {
    var s := Iter(cpu, View(d), over);
    IterAdd(cpu, View(d), over, k);
    WaitView(cpu, d1, s, k, w);
    NoneMissedOnTheWay(cpu, d, over, k, w);
    assert Iter(cpu, View(d), over + k + 1) == Step(cpu, Iter(cpu, s, k));
  }

  lemma ContinueIs(cpu: Cpu, d: Dbg, budget: nat, d1: Dbg, over: nat, k: nat, w: Wait)
    requires StepOver(cpu, d) == Done(d1) && over == (if AtTrap(d) then 1 else 0)
    requires k == NativeSteps(cpu, Iter(cpu, View(d), over), Enabled(d), budget)
    requires w == RunToTrap(cpu, d1.proc, budget) && (w.Stopped? <==> k < budget)
    ensures Continue(cpu, d, budget) ==
            (if w.Stopped? then Done(d1.(proc := w.proc)) else Running(d1.(proc := w.proc)))
    ensures Executed(cpu, d, budget) ==
            if w.Stopped? && Iter(cpu, View(d), over + k).pc !in Enabled(d) then over + k + 1 else over + k
  {
    IterAdd(cpu, View(d), over, k);
  }

  /** The instructions that a continue command executes keep off the breakpoints enabled then,
      unless it aborts. */
  ghost predicate QuietContinue(cpu: Cpu, d: Dbg, budget: nat) {
    !Continue(cpu, d, budget).Aborted? ==> Quiet(cpu, View(d), Enabled(d), Executed(cpu, d, budget))
  }

  /** One continue command: the view moves along the native run by exactly the instructions
      executed, no breakpoint on the way is missed, the same breakpoints stay armed, and a stop
      is either at an armed breakpoint or just past a native int3. It aborts only in stepping over. */
  lemma ContinueTransparent(cpu: Cpu, d: Dbg, budget: nat)
    requires Lawful(cpu) && Inv(d) && QuietContinue(cpu, d, budget)
    ensures ContinuedTo(cpu, d, Continue(cpu, d, budget), Executed(cpu, d, budget))
  {
    var over: nat := if AtTrap(d) then 1 else 0;
    var s := Iter(cpu, View(d), over);
    var k := NativeSteps(cpu, s, Enabled(d), budget);
    if StepOver(cpu, d).Done? {
      assert !Continue(cpu, d, budget).Aborted?;
      assert Iter(cpu, View(d), 0) == View(d);
      assert AtTrap(d) ==> Untouched(cpu, Iter(cpu, View(d), 0), Enabled(d));
      var d1, w := StepOver(cpu, d).dbg, RunToTrap(cpu, StepOver(cpu, d).dbg.proc, budget);
      SteppedOver(cpu, d);
      QuietFrom(cpu, View(d), Enabled(d), over, k);
      RunTransparent(cpu, d1.proc, s, Enabled(d), budget);
      IterIn64(cpu, View(d), over + k);
      ContinuedFrom(cpu, d, d1, over, k, w);
      ContinueIs(cpu, d, budget, d1, over, k, w);
    }
  }

  /** How one continue command ends and what it does to the table: it fails exactly if stepping
      over does, it does not return exactly if the budget runs out before the next armed address
      or native int3, and of the entries only the one stepped over changes, in its saved byte. */
  lemma ContinueEnds(cpu: Cpu, d: Dbg, budget: nat)
    requires Lawful(cpu) && Inv(d) && QuietContinue(cpu, d, budget)
    ensures var b, over := TrapAddr(d), if AtTrap(d) then 1 else 0;
            var n, o := Step(cpu, View(d)), Continue(cpu, d, budget);
            && (o.Aborted? <==> AtTrap(d) && StepOver(cpu, d).Aborted?)
            && (o.Running? <==> !o.Aborted? && NativeSteps(cpu, Iter(cpu, View(d), over), Enabled(d), budget) == budget)
            && (!o.Aborted? ==> if AtTrap(d) then b in n.mem && o.dbg.bps == d.bps[b := d.bps[b].(saved := n.mem[b])]
                                else o.dbg.bps == d.bps)
  {
    if !Continue(cpu, d, budget).Aborted? {
      var over: nat := if AtTrap(d) then 1 else 0;
      var s := Iter(cpu, View(d), over);
      var k := NativeSteps(cpu, s, Enabled(d), budget);
      var d1 := StepOver(cpu, d).dbg;
      assert Iter(cpu, View(d), 0) == View(d);
      assert AtTrap(d) ==> Untouched(cpu, Iter(cpu, View(d), 0), Enabled(d));
      StepOverTransparent(cpu, d);
      SteppedOver(cpu, d);
      QuietFrom(cpu, View(d), Enabled(d), over, k);
      RunTransparent(cpu, d1.proc, s, Enabled(d), budget);
      ContinueIs(cpu, d, budget, d1, over, k, RunToTrap(cpu, d1.proc, budget));
    }
  }

  // ------------------------------------------------------------ whole sessions

  datatype Command = Set(addr: Address) | Remove(addr: Address) | Go(budget: nat)

  function Perform(cpu: Cpu, c: Config, d: Dbg, cmd: Command): Outcome {
    match cmd
    case Set(addr) => SetBreakpoint(c, d, addr)
    case Remove(addr) => RemoveBreakpoint(c, d, addr)
    case Go(budget) => Continue(cpu, d, budget)
  }

  /** Commands are given while the debuggee is stopped, until one fails or never returns. */
  function Session(cpu: Cpu, c: Config, d: Dbg, cmds: seq<Command>): Outcome
    decreases |cmds|
  {
    if cmds == [] then Done(d)
    else match Perform(cpu, c, d, cmds[0])
      case Done(d') => Session(cpu, c, d', cmds[1..])
      case other => other
  }

  /** A session goes on from where it was with each further command. */
  lemma {:induction false} SessionAppend(cpu: Cpu, c: Config, d: Dbg, cmds: seq<Command>, cmd: Command)
    ensures Session(cpu, c, d, []) == Done(d)
    ensures Session(cpu, c, d, cmds + [cmd]) ==
            if Session(cpu, c, d, cmds).Done? then Perform(cpu, c, Session(cpu, c, d, cmds).dbg, cmd)
            else Session(cpu, c, d, cmds)
    decreases |cmds|
  {
    if cmds == [] {
      assert cmds + [cmd] == [cmd] && [cmd][1..] == [];
      match Perform(cpu, c, d, cmd)
      case Done(d') => assert Session(cpu, c, d', []) == Done(d');
      case _ =>
    } else {
      assert (cmds + [cmd])[0] == cmds[0] && (cmds + [cmd])[1..] == cmds[1..] + [cmd];
      match Perform(cpu, c, d, cmds[0])
      case Done(d') => SessionAppend(cpu, c, d', cmds[1..], cmd);
      case _ =>
    }
  }

  /** The native instructions that one command executes. */
  ghost function Executes(cpu: Cpu, d: Dbg, cmd: Command): nat {
    if cmd.Go? then Executed(cpu, d, cmd.budget) else 0
  }

  ghost function Elapsed(cpu: Cpu, c: Config, d: Dbg, cmds: seq<Command>): nat
    decreases |cmds|
  {
    if cmds == [] then 0
    else
      match Perform(cpu, c, d, cmds[0])
      case Done(d') => Executes(cpu, d, cmds[0]) + Elapsed(cpu, c, d', cmds[1..])
      case _ => Executes(cpu, d, cmds[0])
  }

  /** A continue is safe if what it executes keeps off the breakpoints enabled at that time; a set
      or remove that fails is always safe. */
  ghost predicate SafeCommand(cpu: Cpu, c: Config, d: Dbg, cmd: Command) {
    match cmd
    case Set(addr) => SetBreakpoint(c, d, addr).Done? ==> SafeSet(c, d, addr)
    case Remove(addr) => RemoveBreakpoint(c, d, addr).Done? ==> SafeRemove(c, d, addr)
    case Go(budget) => QuietContinue(cpu, d, budget)
  }

  ghost predicate SafeSession(cpu: Cpu, c: Config, d: Dbg, cmds: seq<Command>)
    decreases |cmds|
  {
    cmds == [] ||
    (&& SafeCommand(cpu, c, d, cmds[0])
     && match Perform(cpu, c, d, cmds[0])
        case Done(d') => SafeSession(cpu, c, d', cmds[1..])
        case _ => true)
  }

  /** What a session has come to: its view is the native state after k instructions, memory is
      that state's memory with int3 at exactly the enabled addresses, and their entries hold the
      native bytes. */
  ghost predicate OnNativeRun(cpu: Cpu, start: Proc, o: Outcome, k: nat) {
    match o
    case Aborted => true
    case Done(d) => View(d) == Iter(cpu, start, k) && Inv(d) && Overlays(d, Iter(cpu, start, k).mem)
    case Running(d) => RunningView(d) == Iter(cpu, start, k) && Inv(d) && Overlays(d, Iter(cpu, start, k).mem)
  }

  lemma OneCommand(cpu: Cpu, c: Config, d: Dbg, cmd: Command)
    requires Lawful(cpu) && Inv(d) && SafeCommand(cpu, c, d, cmd)
    ensures OnNativeRun(cpu, View(d), Perform(cpu, c, d, cmd), Executes(cpu, d, cmd))
  {
    assert Iter(cpu, View(d), 0) == View(d);
    match cmd
    case Set(addr) =>
      if SetBreakpoint(c, d, addr).Done? {
        SetExact(c, d, addr);
        var d' := SetBreakpoint(c, d, addr).dbg;
        OverlaysIsNative(d', Native(d'));
      }
    case Remove(addr) =>
      if RemoveBreakpoint(c, d, addr).Done? {
        RemoveExact(c, d, addr);
        var d' := RemoveBreakpoint(c, d, addr).dbg;
        OverlaysIsNative(d', Native(d'));
      }
    case Go(budget) =>
      ContinueTransparent(cpu, d, budget);
      ContinuedOnNativeRun(cpu, d, Continue(cpu, d, budget), Executed(cpu, d, budget));
  }

  lemma ContinuedOnNativeRun(cpu: Cpu, d: Dbg, o: Outcome, k: nat)
    requires ContinuedTo(cpu, d, o, k)
    ensures OnNativeRun(cpu, View(d), o, k)
  {
    match o
    case Done(d') => OverlaysIsNative(d', Native(d'));
    case Running(d') => OverlaysIsNative(d', Native(d'));
    case Aborted =>
  }

  lemma LaterOnNativeRun(cpu: Cpu, start: Proc, k: nat, o: Outcome, k': nat)
    requires OnNativeRun(cpu, Iter(cpu, start, k), o, k')
    ensures OnNativeRun(cpu, start, o, k + k')
  {
    IterAdd(cpu, start, k, k');
  }

  /** A session that goes on after its first command. */
  lemma SessionIs(cpu: Cpu, c: Config, d: Dbg, cmds: seq<Command>, d': Dbg)
    requires cmds != [] && Perform(cpu, c, d, cmds[0]) == Done(d')
    ensures Session(cpu, c, d, cmds) == Session(cpu, c, d', cmds[1..])
    ensures Elapsed(cpu, c, d, cmds) == Executes(cpu, d, cmds[0]) + Elapsed(cpu, c, d', cmds[1..])
    ensures SafeSession(cpu, c, d, cmds) <==> SafeCommand(cpu, c, d, cmds[0]) && SafeSession(cpu, c, d', cmds[1..])
  {
  }

  /** Debugging is transparent: after any session of safe commands the view through the overlay is
      the native state after exactly the instructions executed, with none skipped and none
      repeated. */
  lemma {:induction false} SessionTransparent(cpu: Cpu, c: Config, d: Dbg, cmds: seq<Command>)
    requires Lawful(cpu) && Inv(d) && SafeSession(cpu, c, d, cmds)
    ensures OnNativeRun(cpu, View(d), Session(cpu, c, d, cmds), Elapsed(cpu, c, d, cmds))
    decreases |cmds|
  {
    if cmds == [] {
      OverlaysIsNative(d, Native(d));
      assert Iter(cpu, View(d), 0) == View(d);
    } else {
      OneCommand(cpu, c, d, cmds[0]);
      match Perform(cpu, c, d, cmds[0])
      case Done(d') =>
        SessionIs(cpu, c, d, cmds, d');
        SessionTransparent(cpu, c, d', cmds[1..]);
        LaterOnNativeRun(cpu, View(d), Executes(cpu, d, cmds[0]),
                         Session(cpu, c, d', cmds[1..]), Elapsed(cpu, c, d', cmds[1..]));
      case _ =>
    }
  }

  /** Right after attaching there is no overlay, so the whole session is measured against the
      debuggee's own run. */
  lemma AttachedSessionTransparent(cpu: Cpu, c: Config, s: Proc, cmds: seq<Command>)
    requires Lawful(cpu) && s.pc < W64 && SafeSession(cpu, c, Dbg(s, map[]), cmds)
    ensures OnNativeRun(cpu, s, Session(cpu, c, Dbg(s, map[]), cmds), Elapsed(cpu, c, Dbg(s, map[]), cmds))
  {
    var d := Dbg(s, map[]);
    assert Enabled(d) == {};
    assert View(d) == s;
    SessionTransparent(cpu, c, d, cmds);
  }

  // ------------------------------------------------------------ sessions, exactly

  /** What the continues of a session execute keeps off the breakpoints enabled at the time. */
  ghost predicate QuietSession(cpu: Cpu, c: Config, d: Dbg, cmds: seq<Command>)
    decreases |cmds|
  {
    cmds == [] ||
    (&& (cmds[0].Go? ==> QuietContinue(cpu, d, cmds[0].budget))
     && match Perform(cpu, c, d, cmds[0])
        case Done(d') => QuietSession(cpu, c, d', cmds[1..])
        case _ => true)
  }

  /** No set and no remove of a session changes what the debuggee looks like. */
  ghost predicate Unseen(cpu: Cpu, c: Config, d: Dbg, cmds: seq<Command>)
    decreases |cmds|
  {
    cmds == [] ||
    match Perform(cpu, c, d, cmds[0])
    case Done(d') => (!cmds[0].Go? ==> View(d') == View(d)) && Unseen(cpu, c, d', cmds[1..])
    case _ => true
  }

  /** Over whole sessions, sets and removes go unseen if and only if each of them is safe. */
  lemma {:induction false} SessionExact(cpu: Cpu, c: Config, d: Dbg, cmds: seq<Command>)
    requires Lawful(cpu) && Inv(d) && QuietSession(cpu, c, d, cmds)
    ensures SafeSession(cpu, c, d, cmds) <==> Unseen(cpu, c, d, cmds)
    decreases |cmds|
  {
    if cmds != [] && Perform(cpu, c, d, cmds[0]).Done? {
      CommandExact(cpu, c, d, cmds[0]);
      SessionExact(cpu, c, Perform(cpu, c, d, cmds[0]).dbg, cmds[1..]);
    }
  }

  lemma CommandExact(cpu: Cpu, c: Config, d: Dbg, cmd: Command)
    requires Lawful(cpu) && Inv(d) && (cmd.Go? ==> QuietContinue(cpu, d, cmd.budget))
    requires Perform(cpu, c, d, cmd).Done?
    ensures Inv(Perform(cpu, c, d, cmd).dbg)
    ensures SafeCommand(cpu, c, d, cmd) <==> cmd.Go? || View(Perform(cpu, c, d, cmd).dbg) == View(d)
  {
    match cmd
    case Set(addr) => SetExact(c, d, addr);
    case Remove(addr) => RemoveExact(c, d, addr);
    case Go(budget) => OneCommand(cpu, c, d, cmd);
  }
}
