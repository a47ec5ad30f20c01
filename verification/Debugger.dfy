/** The debugger object (src/core/debugger.c, src/core/breakpoint.c): breakpoints kept by pointer
    in the chained hash map and patched into the debuggee word by word. Each method is proved
    against the operation of DebuggerSpec. */
module DebuggerModel {
  import opened Bits
  import opened ArenaModel
  import opened HashMapModel
  import opened TraceeModel
  import opened DebuggerSpec

  // ------------------------------------------------------------ address keys

  /** `addr_hash`. */
  function AddrHash(key: nat): nat {
    Xor(key, Shr(key, 32))
  }

  /** `addr_eql`. */
  function AddrEql(a: nat, b: nat): bool {
    a == b
  }

  /** Hashing twice gives the address back, so no two addresses share a full hash value and
      entries meet in a chain only through the bucket count. */
  lemma AddrHashInvolution(key: nat)
    requires key < W64
    ensures AddrHash(key) < W64
    ensures AddrHash(AddrHash(key)) == key
  {
    var high := Shr(key, 32);
    Pow2Is64();
    ShrShr(key, 32, 32);
    ShrAll(key, 64);
    ShrXor(key, high, 32);
    XorZero(high);
    assert Shr(AddrHash(key), 32) == high;
    XorCancels(key, high);
    ShrBound(key, 32, 64);
    XorBound(key, high, 64);
  }

  /** The hash keeps the upper 32 bits and mixes them into the lower ones. */
  lemma AddrHashParts(key: nat)
    requires key < W64
    ensures AddrHash(key) / 0x1_0000_0000 == key / 0x1_0000_0000
    ensures AddrHash(key) % 0x1_0000_0000 == Xor(key % 0x1_0000_0000, key / 0x1_0000_0000)
  {
    var p, high := Pow2(32), Shr(key, 32);
    Pow2Is32();
    ShrDivides(key, 32);
    assert high < p && high / p == 0 && high % p == high;
    ShrDivides(high, 32);
    ShrXor(key, high, 32);
    XorZero(key / p);
    ShrDivides(AddrHash(key), 32);
    XorLowBits(key, high, 32);
  }

  lemma Pow2Is32()
    ensures Pow2(32) == 0x1_0000_0000
  {
    Pow2Shift8(0);
    Pow2Shift8(8);
    Pow2Shift8(16);
    Pow2Shift8(24);
  }

  lemma {:induction false} ShrBound(x: nat, k: nat, w: nat)
    requires x < Pow2(w)
    ensures Shr(x, k) < Pow2(w)
  {
    if k != 0 {
      ShrBound(x / 2, k - 1, w);
    }
  }

  lemma AddrHashInjective(a: nat, b: nat)
    requires a < W64 && b < W64 && AddrHash(a) == AddrHash(b)
    ensures a == b
  {
    AddrHashInvolution(a);
    AddrHashInvolution(b);
  }

  // ------------------------------------------------------------ breakpoints

  /** `breakpoint_enable`; false when the word read back is the error value. */
  method Enable(tracee: Tracee, bp: Cell<Breakpoint>) returns (ok: bool)
    modifies tracee`mem, bp
    ensures ok <==> PeekOk(old(tracee.mem), old(bp.contents).addr)
    ensures ok ==> var a := old(bp.contents).addr;
                   && tracee.mem == old(tracee.mem)[a := INT3]
                   && bp.contents == old(bp.contents).(saved := old(tracee.mem)[a], enabled := true)
    ensures !ok ==> tracee.mem == old(tracee.mem) && bp.contents == old(bp.contents)
  {
    var a := bp.contents.addr;
    var data := tracee.Peek(a);
    PeekOkExact(tracee.mem, a);
    ok := data != W64 - 1;
    if ok {
      PatchIsByteWrite(tracee.mem, a, INT3);
      var saved: Byte := And(data, 0xFF);
      var int3 := Or(And(data, Not64(0xFF)), INT3);
      bp.contents := bp.contents.(saved := saved);
      tracee.Poke(a, int3);
      bp.contents := bp.contents.(enabled := true);
    }
  }

  /** `breakpoint_disable`. */
  method Disable(tracee: Tracee, bp: Cell<Breakpoint>) returns (ok: bool)
    modifies tracee`mem, bp
    ensures ok <==> PeekOk(old(tracee.mem), old(bp.contents).addr)
    ensures ok ==> && tracee.mem == old(tracee.mem)[old(bp.contents).addr := old(bp.contents).saved]
                   && bp.contents == old(bp.contents).(enabled := false)
    ensures !ok ==> tracee.mem == old(tracee.mem) && bp.contents == old(bp.contents)
  {
    var a := bp.contents.addr;
    var data := tracee.Peek(a);
    PeekOkExact(tracee.mem, a);
    ok := data != W64 - 1;
    if ok {
      PatchIsByteWrite(tracee.mem, a, bp.contents.saved);
      var restored := Or(And(data, Not64(0xFF)), bp.contents.saved);
      tracee.Poke(a, restored);
      bp.contents := bp.contents.(enabled := false);
    }
  }

  // ------------------------------------------------------------ the debugger

  const BUCKETS: nat := 100
  const BREAKPOINT_SIZE: nat := 16
  const KEY_SIZE: nat := 8

  datatype Status = Ok | AssertFailed | OutOfMemory

  class Debugger {
    const tracee: Tracee
    const table: HashMap<nat, Breakpoint>
    const config: Config
    ghost var bps: map<nat, Breakpoint>

    /** The table's value blocks hold the breakpoints `bps`. */
    ghost predicate Valid()
      reads this, tracee, table, table.Repr, table.arena, table.cells.Values
    {
      && table.Valid() && table.arena.Valid()
      && tracee as object !in table.Repr && this as object !in table.Repr
      && (forall a, b :: table.eql(a, b) <==> a == b) && table.valueSize == BREAKPOINT_SIZE
      && Contain(table.cells, bps)
    }

    ghost function State(): Dbg
      reads this, tracee
    {
      Dbg(tracee.State(), bps)
    }

    constructor (tracee: Tracee, table: HashMap<nat, Breakpoint>, config: Config)
      requires table.Valid() && table.arena.Valid() && tracee as object !in table.Repr
      requires table.cells == map[] && table.valueSize == BREAKPOINT_SIZE
      requires forall a, b :: table.eql(a, b) <==> a == b
      ensures Valid() && this.tracee == tracee && this.table == table && this.config == config
      ensures State() == Dbg(tracee.State(), map[])
    {
      this.tracee, this.table, this.config, bps := tracee, table, config, map[];
    }

    /** `debugger`, in an arena with room for the buckets; null when it has none. */
    static method Create(arena: Arena, tracee: Tracee, config: Config) returns (dbg: Debugger?)
      requires arena.Valid()
      modifies arena
      ensures arena.Valid()
      ensures dbg != null <==> old(arena.offset) + 800 <= arena.capacity
      ensures dbg != null ==> && arena.offset == old(arena.offset) + 800 && dbg.table.arena == arena
                              && dbg.table.buckets.Length == 100 && forall k :: dbg.table.hash(k) == AddrHash(k)
      ensures dbg != null ==> && fresh(dbg) && dbg.Valid() && dbg.tracee == tracee && dbg.config == config
                              && dbg.State() == Dbg(tracee.State(), map[])
    {
      dbg := null;
      var table := HashMap<nat, Breakpoint>.Create(arena, BUCKETS, BREAKPOINT_SIZE, AddrHash, AddrEql);
      if table != null {
        dbg := new Debugger(tracee, table, config);
      }
    }

    lemma StoredAddr(a: nat)
      requires forall a, b :: table.eql(a, b) <==> a == b
      ensures Stored(table.cells.Keys, table.eql, a) == a
    {
    }

    // ---------------------------------------------------------- the table and its value blocks

    /** bp is the block stored under a, or no longer a block of the table at all. */
    ghost predicate BlockOf(bp: Cell<Breakpoint>, a: nat)
      reads this, table
    {
      if a in table.cells then table.cells[a] == bp else forall k :: k in table.cells ==> table.cells[k] != bp
    }

    method Find(a: nat) returns (bp: Cell?<Breakpoint>)
      requires Valid()
      ensures bp != null <==> a in bps
      ensures bp != null ==> a in table.cells && BlockOf(bp, a) && bp.contents == bps[a]
    {
      StoredAddr(a);
      bp := table.Get(a);
    }

    method File(a: nat, bp: Breakpoint) returns (ok: bool)
      requires Valid()
      modifies this`bps, table.Repr, table.arena, table.cells.Values
      ensures Valid() && fresh(table.Repr - old(table.Repr))
      ensures bps == if ok then old(bps)[a := bp] else old(bps)
      ensures forall k :: k in table.cells ==> table.cells[k] in old(table.cells.Values) || fresh(table.cells[k])
      ensures ok <==> a in old(bps) || old(table.arena.offset) + 48 <= table.arena.capacity
      ensures ok ==> table.arena.offset == old(table.arena.offset) + if a in old(bps) then 0 else 48
    {
      StoredAddr(a);
      assert table.EntryBytes(KEY_SIZE) == 48;
      ok := table.Put(a, bp, KEY_SIZE);
      if ok {
        bps := bps[a := bp];
        forall k | k in table.cells
          ensures table.cells[k].contents == bps[k]
        {
          assert k != a ==> k in old(table.cells) && table.cells[k] == old(table.cells)[k];
        }
      }
    }

    method Unfile(addr: nat, ghost bp: Cell<Breakpoint>, ghost a: nat)
      requires Valid() && a in table.cells && BlockOf(bp, a)
      modifies this`bps, table.Repr
      ensures Valid() && table.Repr == old(table.Repr)
      ensures table.cells == old(table.cells) - {addr}
      ensures bps == old(bps) - {addr} && BlockOf(bp, a)
    {
      StoredAddr(addr);
      table.Remove(addr);
      bps := bps - {addr};
    }

    method EnableBlock(bp: Cell<Breakpoint>, ghost a: nat) returns (ok: bool)
      requires Valid() && a in table.cells && BlockOf(bp, a)
      modifies this`bps, tracee`mem, bp
      ensures ok <==> PeekOk(old(tracee.mem), old(bps[a]).addr)
      ensures ok ==> var x := old(bps[a]).addr;
                     && Valid() && tracee.mem == old(tracee.mem)[x := INT3]
                     && bps == old(bps)[a := old(bps[a]).(saved := old(tracee.mem)[x], enabled := true)]
    {
      ok := Enable(tracee, bp);
      if ok {
        bps := bps[a := bp.contents];
      }
    }

    method DisableBlock(bp: Cell<Breakpoint>, ghost a: nat) returns (ok: bool)
      requires Valid() && BlockOf(bp, a)
      modifies this`bps, tracee`mem, bp
      ensures ok <==> PeekOk(old(tracee.mem), old(bp.contents).addr)
      ensures ok ==> && Valid() && tracee.mem == old(tracee.mem)[old(bp.contents).addr := old(bp.contents).saved]
                     && bp.contents == old(bp.contents).(enabled := false)
                     && bps == if a in old(bps) then old(bps)[a := bp.contents] else old(bps)
    {
      ok := Disable(tracee, bp);
      if ok && a in bps {
        bps := bps[a := bp.contents];
      }
    }

    // ---------------------------------------------------------- operations

    /** `set_breakpoint_at_addr`. */
    method SetBreakpointAtAddr(addr: Address) returns (status: Status)
      requires Valid()
      modifies this`bps, tracee`mem, table.Repr, table.arena, table.cells.Values
      ensures (status == Ok ==> Valid()) && fresh(table.Repr - old(table.Repr))
      ensures forall k :: k in table.cells ==> table.cells[k] in old(table.cells.Values) || fresh(table.cells[k])
      ensures match status
              case Ok =>
                && SetBreakpoint(config, old(State()), addr) == Done(State())
                && table.arena.offset ==
                   old(table.arena.offset) + if Wrap(addr + config.base) in old(bps) then 0 else 48
              case AssertFailed => SetBreakpoint(config, old(State()), addr) == Aborted
              case OutOfMemory =>
                && SetBreakpoint(config, old(State()), addr).Done?
                && Wrap(addr + config.base) !in old(bps)
                && old(table.arena.offset) + 48 > table.arena.capacity
      ensures status == Ok && Wrap(addr + config.base) !in old(bps) ==>
                old(table.arena.offset) + 48 <= table.arena.capacity
    {
      var a := Wrap(addr + config.base);
      var bp := new Cell(Breakpoint(a, config.pid, 0, false));
      var ok := Enable(tracee, bp);
      if !ok {
        return AssertFailed;
      }
      ok := File(a, bp.contents);
      status := if ok then Ok else OutOfMemory;
    }

    /** `remove_breakpoint_at_addr`: looks the absolute address up, takes the relative one out of
        the map, and disables through the pointer it got before. */
    method RemoveBreakpointAtAddr(addr: Address) returns (status: Status)
      requires Valid()
      modifies this`bps, tracee`mem, table.Repr, table.cells.Values
      ensures (status == Ok ==> Valid()) && table.Repr == old(table.Repr)
      ensures forall k :: k in table.cells ==> k in old(table.cells) && table.cells[k] == old(table.cells)[k]
      ensures status != OutOfMemory
      ensures RemoveBreakpoint(config, old(State()), addr) == (if status == Ok then Done(State()) else Aborted)
    {
      var a := Wrap(addr + config.base);
      var bp := Find(a);
      if bp == null {
        return AssertFailed;
      }
      Unfile(addr, bp, a);
      var ok := DisableBlock(bp, a);
      status := if ok then Ok else AssertFailed;
    }

    /** `step_over_breakpoint`. */
    method StepOverBreakpoint() returns (status: Status)
      requires Valid()
      modifies this`bps, tracee, table.cells.Values
      ensures status == Ok ==> Valid()
      ensures table.cells == old(table.cells)
      ensures status != OutOfMemory
      ensures StepOver(tracee.cpu, old(State())) == (if status == Ok then Done(State()) else Aborted)
    {
      var pc: int := tracee.GetPc();
      var maybeBreakpoint := Wrap(pc - 1);
      var bp := Find(maybeBreakpoint);
      status := Ok;
      if bp != null && bp.contents.enabled {
        var ok := StepPast(bp, maybeBreakpoint);
        status := if ok then Ok else AssertFailed;
      }
    }

    method StepPast(bp: Cell<Breakpoint>, a: nat) returns (ok: bool)
      requires Valid() && a in table.cells && BlockOf(bp, a) && bp.contents == bps[a]
      modifies this`bps, tracee, bp
      ensures ok ==> Valid()
      ensures var x := old(bps[a]).addr;
              var p := Step(tracee.cpu, Proc(old(tracee.mem)[x := old(bps[a]).saved], a, old(tracee.rest)));
              && (ok <==> PeekOk(old(tracee.mem), x) && PeekOk(p.mem, x))
              && (ok ==> && tracee.State() == p.(mem := p.mem[x := INT3])
                         && bps == old(bps)[a := old(bps[a]).(saved := p.mem[x], enabled := true)])
    {
      tracee.SetPc(a);
      ok := DisableBlock(bp, a);
      if ok {
        tracee.SingleStep();
        ghost var between := bps;
        ok := EnableBlock(bp, a);
        if ok {
          UpdateTwice(old(bps), a, between[a], bps[a]);
        }
      }
    }

    lemma UpdateTwice(m: map<nat, Breakpoint>, a: nat, x: Breakpoint, y: Breakpoint)
      ensures m[a := x][a := y] == m[a := y]
    {
    }

    /** `continue_execution`; stopped is false when waitpid has not returned within the budget. */
    method ContinueExecution(budget: nat) returns (status: Status, stopped: bool)
      requires Valid()
      modifies this`bps, tracee, table.cells.Values
      ensures status == Ok ==> Valid()
      ensures table.cells == old(table.cells)
      ensures status != OutOfMemory
      ensures Continue(tracee.cpu, old(State()), budget) ==
              if status != Ok then Aborted else if stopped then Done(State()) else Running(State())
    {
      stopped := false;
      status := StepOverBreakpoint();
      if status == Ok {
        stopped := tracee.Cont(budget);
      }
    }
  }
}
