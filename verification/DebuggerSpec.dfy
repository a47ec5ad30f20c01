/** What the debugger's operations do to a debuggee and its breakpoint table
    (src/core/debugger.c, src/core/breakpoint.c), on values, and exactly when setting and removing
    a breakpoint goes unseen. Whole sessions are in Transparency. */
module DebuggerSpec {
  import opened Bits
  import opened TraceeModel

  datatype Breakpoint = Breakpoint(addr: nat, pid: int, saved: Byte, enabled: bool)

  datatype Config = Config(base: nat, pid: int)

  datatype Dbg = Dbg(proc: Proc, bps: map<nat, Breakpoint>)

  /** A stopped debuggee, a debuggee still running under PTRACE_CONT, or a failed assert. */
  datatype Outcome = Done(dbg: Dbg) | Running(dbg: Dbg) | Aborted

  /** `set_breakpoint_at_addr`: enable on the stack, then put under the absolute address. */
  function SetBreakpoint(c: Config, d: Dbg, addr: Address): Outcome {
    var a := Wrap(addr + c.base);
    var m := d.proc.mem;
    if PeekOk(m, a) then
      Done(Dbg(d.proc.(mem := m[a := INT3]), d.bps[a := Breakpoint(a, c.pid, m[a], true)]))
    else Aborted
  }

  /** `remove_breakpoint_at_addr`: looks up the absolute address, removes the relative one. */
  function RemoveBreakpoint(c: Config, d: Dbg, addr: Address): Outcome {
    var a := Wrap(addr + c.base);
    if a !in d.bps then Aborted
    else
      var bp := d.bps[a];
      var bps := d.bps - {addr};
      if PeekOk(d.proc.mem, bp.addr) then
        Done(Dbg(d.proc.(mem := d.proc.mem[bp.addr := bp.saved]),
                 if a in bps then bps[a := bp.(enabled := false)] else bps))
      else Aborted
  }

  /** The address the debugger takes the process to have trapped at. */
  function TrapAddr(d: Dbg): nat {
    Wrap(d.proc.pc - 1)
  }

  /** `step_over_breakpoint`. */
  function StepOver(cpu: Cpu, d: Dbg): Outcome {
    var a := TrapAddr(d);
    if a in d.bps && d.bps[a].enabled then
      var bp := d.bps[a];
      if PeekOk(d.proc.mem, bp.addr) then
        var p := Step(cpu, Proc(d.proc.mem[bp.addr := bp.saved], a, d.proc.rest));
        if PeekOk(p.mem, bp.addr) then
          Done(Dbg(p.(mem := p.mem[bp.addr := INT3]),
                   d.bps[a := bp.(saved := p.mem[bp.addr], enabled := true)]))
        else Aborted
      else Aborted
    else Done(d)
  }

  /** `continue_execution`, observed for at most `budget` instructions after the step-over. */
  function Continue(cpu: Cpu, d: Dbg, budget: nat): Outcome {
    match StepOver(cpu, d)
    case Done(d') =>
      (match RunToTrap(cpu, d'.proc, budget)
       case Stopped(p) => Done(d'.(proc := p))
       case StillRunning(p) => Running(d'.(proc := p)))
    case other => other
  }

  // ------------------------------------------------------------ memory and table, entry by entry

  /** Memory with one byte changed. */
  ghost predicate OnlyByte(m: Memory, m': Memory, a: nat, b: Byte) {
    m'.Keys == m.Keys && a in m && m'[a] == b && forall x :: x in m && x != a ==> m'[x] == m[x]
  }

  /** The entries of these keys are as they were. */
  ghost predicate SameEntries(d: Dbg, d': Dbg, keys: set<nat>) {
    forall k :: k in keys ==> k in d.bps && k in d'.bps && d'.bps[k] == d.bps[k]
  }

  /** Set succeeds exactly if the word at the 64-bit absolute address can be told from an error. It
      writes the one byte 0xCC and files a complete entry; all other entries stay. */
  lemma SetEffect(c: Config, d: Dbg, addr: Address)
    ensures var a := (addr + c.base) % 0x1_0000_0000_0000_0000;
            match SetBreakpoint(c, d, addr)
            case Done(d') =>
              && PeekOk(d.proc.mem, a)
              && OnlyByte(d.proc.mem, d'.proc.mem, a, 0xCC) && d'.proc.pc == d.proc.pc && d'.proc.rest == d.proc.rest
              && d'.bps.Keys == d.bps.Keys + {a} && SameEntries(d, d', d.bps.Keys - {a})
              && d'.bps[a] == Breakpoint(a, c.pid, d.proc.mem[a], true)
            case Running(_) => false
            case Aborted => !PeekOk(d.proc.mem, a)
  {
  }

  /** Remove succeeds exactly if there is an entry, enabled or not, at the absolute address and the
      word at its own address is readable. It puts the saved byte back and drops the entry of the
      relative address; the absolute one, if that is another, stays behind disabled. */
  lemma RemoveEffect(c: Config, d: Dbg, addr: Address)
    ensures var a := (addr + c.base) % 0x1_0000_0000_0000_0000;
            match RemoveBreakpoint(c, d, addr)
            case Done(d') =>
              && a in d.bps && PeekOk(d.proc.mem, d.bps[a].addr)
              && OnlyByte(d.proc.mem, d'.proc.mem, d.bps[a].addr, d.bps[a].saved)
              && d'.proc.pc == d.proc.pc && d'.proc.rest == d.proc.rest
              && d'.bps.Keys == d.bps.Keys - {addr} && SameEntries(d, d', d.bps.Keys - {addr, a})
              && (a != addr ==> d'.bps[a] == Breakpoint(d.bps[a].addr, d.bps[a].pid, d.bps[a].saved, false))
            case Running(_) => false
            case Aborted => !(a in d.bps && PeekOk(d.proc.mem, d.bps[a].addr))
  {
  }

  /** Set and then remove: always succeeds, and the process is as it was. Unless the program is
      loaded at 0 a disabled entry is left at the absolute address, so that the same remove
      succeeds again whenever the word can be read; loaded at 0 it finds none. */
  lemma SetRemoveRoundTrip(c: Config, d: Dbg, addr: Address)
    requires SetBreakpoint(c, d, addr).Done?
    ensures var a := Wrap(addr + c.base);
            var o := RemoveBreakpoint(c, SetBreakpoint(c, d, addr).dbg, addr);
            && o.Done? && o.dbg.proc == d.proc
            && o.dbg.bps.Keys == d.bps.Keys + {a} - {addr} && SameEntries(d, o.dbg, d.bps.Keys - {a, addr})
            && (a != addr ==> o.dbg.bps[a] == Breakpoint(a, c.pid, d.proc.mem[a], false))
            && (RemoveBreakpoint(c, o.dbg, addr).Done? <==> a != addr)
  {
    var a: nat := Wrap(addr + c.base);
    var d1 := SetBreakpoint(c, d, addr).dbg;
    assert d1.proc.mem[a] != 255 && WindowMapped(d1.proc.mem, a) by {
      forall x: nat | a <= x < a + 8
        ensures x in d1.proc.mem
      {
        assert x in d.proc.mem;
      }
    }
    assert d1.proc.mem[a := d.proc.mem[a]] == d.proc.mem;
  }

  // ------------------------------------------------------------ the view through the overlay

  ghost function Enabled(d: Dbg): set<nat> {
    set a | a in d.bps && d.bps[a].enabled
  }

  ghost predicate AtTrap(d: Dbg) {
    TrapAddr(d) in Enabled(d)
  }

  /** Memory with the saved bytes put back. */
  ghost function Native(d: Dbg): Memory {
    d.proc.mem + map a | a in Enabled(d) :: d.bps[a].saved
  }

  /** A stopped debuggee as its undebugged self: saved bytes back, pc rewound at a trap. */
  ghost function View(d: Dbg): Proc {
    Proc(Native(d), if AtTrap(d) then TrapAddr(d) else d.proc.pc, d.proc.rest)
  }

  /** A running debuggee as its undebugged self. */
  ghost function RunningView(d: Dbg): Proc {
    Proc(Native(d), d.proc.pc, d.proc.rest)
  }

  /** Memory with int3 at the given addresses. */
  ghost function Overlay(m: Memory, addrs: set<nat>): Memory {
    m + map a | a in addrs :: INT3
  }

  /** Every entry is filed under its own address, and every enabled one has its int3 in place. */
  ghost predicate Inv(d: Dbg) {
    && (forall a :: a in d.bps ==> d.bps[a].addr == a && a < W64)
    && (forall a :: a in Enabled(d) ==> a in d.proc.mem && d.proc.mem[a] == INT3)
    && d.proc.pc < W64
  }

  /** Memory is m with int3 at exactly the enabled addresses, and what the enabled entries saved
      are m's bytes there. */
  ghost predicate Overlays(d: Dbg, m: Memory) {
    && Enabled(d) <= m.Keys
    && d.proc.mem == Overlay(m, Enabled(d))
    && (forall a :: a in Enabled(d) ==> d.bps[a].saved == m[a])
  }

  lemma OverlaysIsNative(d: Dbg, m: Memory)
    requires forall a :: a in d.bps ==> d.bps[a].addr == a && a < W64
    requires d.proc.pc < W64
    ensures Overlays(d, m) <==> Inv(d) && Native(d) == m
  {
    if Overlays(d, m) {
      assert Native(d) == m;
    }
    if Inv(d) && Native(d) == m {
      assert forall a :: a in Enabled(d) ==> a in m && m[a] == d.bps[a].saved;
      assert d.proc.mem == Overlay(m, Enabled(d));
    }
  }

  // ------------------------------------------------------------ set and remove, exactly

  /** Setting is invisible unless the address is already enabled, where the debugger saves its own
      int3, or is the one just before the pc, where it will take the stop for a trap. */
  ghost predicate SafeSet(c: Config, d: Dbg, addr: Address) {
    var a := Wrap(addr + c.base);
    if a in Enabled(d) then d.bps[a].saved == INT3 else a != TrapAddr(d)
  }

  /** The address that `hashmap_remove` is given must not name another armed breakpoint, and the
      process must not be stopped on the breakpoint that goes. A disabled entry that stayed in
      the table must still hold the byte that is in memory. */
  ghost predicate SafeRemove(c: Config, d: Dbg, addr: Address)
    requires Wrap(addr + c.base) in d.bps
  {
    var a := Wrap(addr + c.base);
    && (if a in Enabled(d) then a != TrapAddr(d) else a in d.proc.mem && d.proc.mem[a] == d.bps[a].saved)
    && (addr == a || addr !in Enabled(d) || (d.bps[addr].saved == INT3 && addr != TrapAddr(d)))
  }

  lemma BackOneMoves(pc: nat)
    requires pc < W64
    ensures Wrap(pc - 1) != pc
  {
  }

  lemma SetKeepsInv(c: Config, d: Dbg, addr: Address)
    requires Inv(d) && SetBreakpoint(c, d, addr).Done?
    ensures var d', a := SetBreakpoint(c, d, addr).dbg, Wrap(addr + c.base);
            && Inv(d')
            && Enabled(d') == Enabled(d) + {a}
            && Native(d') == Native(d)[a := d.proc.mem[a]]
  {
    var a := Wrap(addr + c.base);
    var d' := SetBreakpoint(c, d, addr).dbg;
    assert Enabled(d') == Enabled(d) + {a};
    assert Native(d') == Native(d)[a := d.proc.mem[a]];
  }

  /** What the view loses or keeps when a breakpoint is set. */
  lemma SetExact(c: Config, d: Dbg, addr: Address)
    requires Inv(d) && SetBreakpoint(c, d, addr).Done?
    ensures var d' := SetBreakpoint(c, d, addr).dbg;
            && Inv(d')
            && Enabled(d') == Enabled(d) + {Wrap(addr + c.base)}
            && (View(d') == View(d) <==> SafeSet(c, d, addr))
  {
    var a := Wrap(addr + c.base);
    SetKeepsInv(c, d, addr);
    NativeAt(d, a);
    SameByte(Native(d), a, d.proc.mem[a]);
    SameView(d, SetBreakpoint(c, d, addr).dbg);
  }

  lemma NativeAt(d: Dbg, a: nat)
    requires a in d.proc.mem
    ensures a in Native(d)
    ensures Native(d)[a] == if a in Enabled(d) then d.bps[a].saved else d.proc.mem[a]
  {
  }

  lemma SameByte(m: Memory, a: nat, b: Byte)
    requires a in m
    ensures m[a := b] == m <==> m[a] == b
  {
    if m[a] == b {
      assert m[a := b] == m;
    } else {
      assert m[a := b][a] != m[a];
    }
  }

  lemma SameTwoBytes(m: Memory, a: nat, b: Byte, a': nat, b': Byte)
    requires a in m && a' in m && a != a'
    ensures m[a := b][a' := b'] == m <==> m[a] == b && m[a'] == b'
  {
    if m[a] == b && m[a'] == b' {
      assert m[a := b][a' := b'] == m;
    } else {
      assert m[a := b][a' := b'][a] == b && m[a := b][a' := b'][a'] == b';
    }
  }

  /** Two states with the same registers look alike exactly when their native memories do and
      both or neither are taken to be stopped at a trap. */
  lemma SameView(d: Dbg, d': Dbg)
    requires Inv(d) && d'.proc == d.proc.(mem := d'.proc.mem)
    ensures View(d') == View(d) <==> Native(d') == Native(d) && (AtTrap(d') <==> AtTrap(d))
  {
    BackOneMoves(d.proc.pc);
  }

  lemma RemoveKeepsInv(c: Config, d: Dbg, addr: Address)
    requires Inv(d) && RemoveBreakpoint(c, d, addr).Done?
    ensures var d', a := RemoveBreakpoint(c, d, addr).dbg, Wrap(addr + c.base);
            && Inv(d')
            && Enabled(d') == Enabled(d) - {a, addr}
            && a in d.proc.mem && d'.proc == d.proc.(mem := d.proc.mem[a := d.bps[a].saved])
  {
    var a := Wrap(addr + c.base);
    var d' := RemoveBreakpoint(c, d, addr).dbg;
    assert Enabled(d') == Enabled(d) - {a, addr};
  }

  lemma RemoveNative(c: Config, d: Dbg, addr: Address)
    requires Inv(d) && RemoveBreakpoint(c, d, addr).Done?
    ensures var d', a := RemoveBreakpoint(c, d, addr).dbg, Wrap(addr + c.base);
            Native(d') == (if addr != a && addr in Enabled(d) then Native(d)[a := d.bps[a].saved][addr := INT3]
                           else Native(d)[a := d.bps[a].saved])
  {
    RemoveKeepsInv(c, d, addr);
  }

  /** What the view loses or keeps when a breakpoint is removed. */
  lemma RemoveExact(c: Config, d: Dbg, addr: Address)
    requires Inv(d) && RemoveBreakpoint(c, d, addr).Done?
    ensures var d', a := RemoveBreakpoint(c, d, addr).dbg, Wrap(addr + c.base);
            && Inv(d')
            && Enabled(d') == Enabled(d) - {a, addr}
            && (View(d') == View(d) <==> SafeRemove(c, d, addr))
  {
    var a := Wrap(addr + c.base);
    RemoveKeepsInv(c, d, addr);
    RemoveNative(c, d, addr);
    NativeAt(d, a);
    SameByte(Native(d), a, d.bps[a].saved);
    SameView(d, RemoveBreakpoint(c, d, addr).dbg);
    if addr != a && addr in Enabled(d) {
      NativeAt(d, addr);
      SameTwoBytes(Native(d), a, d.bps[a].saved, addr, INT3);
    }
  }

  /** The assert on the word read back by `breakpoint_disable` cannot fire for an armed breakpoint
      whose word is still mapped: the int3 keeps it from being all ones. */
  lemma DisarmNeverAborts(d: Dbg, a: nat)
    requires Inv(d) && a in Enabled(d)
    ensures PeekOk(d.proc.mem, a) <==> WindowMapped(d.proc.mem, a)
  {
    assert d.proc.mem[a] != 255;
  }
}
