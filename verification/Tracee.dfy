/** The debugged process as ptrace shows it: byte memory read and written through 8-byte
    little-endian words, and an abstract processor that executes one instruction at a time. */
module TraceeModel {
  import opened Bits

  type Memory = map<nat, Byte>

  const INT3: Byte := 0xCC

  /** `rest` is everything besides memory and pc that an instruction's outcome depends on. */
  datatype Proc = Proc(mem: Memory, pc: nat, rest: seq<int>)

  // ------------------------------------------------------------ words of memory

  predicate WindowMapped(m: Memory, a: nat) {
    forall x: nat :: a <= x < a + 8 ==> x in m
  }

  function Window(m: Memory, a: nat): (bytes: seq<Byte>)
    requires WindowMapped(m, a)
    ensures |bytes| == 8
    ensures forall i :: 0 <= i < 8 ==> bytes[i] == m[a + i]
  {
    [m[a], m[a + 1], m[a + 2], m[a + 3], m[a + 4], m[a + 5], m[a + 6], m[a + 7]]
  }

  /** PTRACE_PEEKDATA; an unmapped word reads as the error value -1. */
  function PeekWord(m: Memory, a: nat): nat {
    if WindowMapped(m, a) then Pack(Window(m, a)) else W64 - 1
  }

  function WriteBytes(m: Memory, a: nat, bytes: seq<Byte>): Memory
    decreases |bytes|
  {
    if bytes == [] then m else WriteBytes(m[a := bytes[0]], a + 1, bytes[1..])
  }

  /** PTRACE_POKEDATA; an unmapped word is refused and changes nothing. */
  function PokeWord(m: Memory, a: nat, w: nat): Memory {
    if WindowMapped(m, a) then WriteBytes(m, a, Unpack(w, 8)) else m
  }

  /** A word that can be told apart from the error value. */
  predicate PeekOk(m: Memory, a: nat) {
    WindowMapped(m, a) && exists x: nat :: a <= x < a + 8 && m[x] != 255
  }

  lemma PeekOkExact(m: Memory, a: nat)
    ensures PeekWord(m, a) < W64
    ensures PeekWord(m, a) != W64 - 1 <==> PeekOk(m, a)
  {
    if WindowMapped(m, a) {
      var bytes := Window(m, a);
      PackedWord(bytes);
      if i :| 0 <= i < 8 && bytes[i] != 255 {
        assert m[a + i] != 255;
      } else {
        forall x: nat | a <= x < a + 8
          ensures m[x] == 255
        {
          assert bytes[x - a] == 255;
        }
      }
    }
  }

  lemma {:induction false} WriteBack(m: Memory, a: nat, bytes: seq<Byte>)
    requires forall x: nat :: a <= x < a + |bytes| ==> x in m && m[x] == bytes[x - a]
    ensures WriteBytes(m, a, bytes) == m
    decreases |bytes|
  {
    if bytes != [] {
      assert a in m && m[a] == bytes[0];
      assert m[a := bytes[0]] == m;
      WriteBack(m, a + 1, bytes[1..]);
    }
  }

  /** Patching the low byte of the word at a, through the mask, the or and a little-endian store,
      changes the byte at a and nothing else, although eight bytes are written. */
  lemma PatchIsByteWrite(m: Memory, a: nat, b: Byte)
    requires PeekOk(m, a)
    ensures PokeWord(m, a, Or(And(PeekWord(m, a), Not64(0xFF)), b)) == m[a := b]
    ensures And(PeekWord(m, a), 0xFF) == m[a]
  {
    var bytes := Window(m, a);
    PatchLowByte(bytes, b);
    var patched := [b] + bytes[1..];
    UnpackPack(patched);
    var m' := m[a := b];
    var tail := bytes[1..];
    assert patched[1..] == tail;
    forall x: nat | a + 1 <= x < a + 1 + |tail|
      ensures x in m' && m'[x] == tail[x - (a + 1)]
    {
      assert bytes[x - a] == m[a + (x - a)];
    }
    WriteBack(m', a + 1, tail);
  }

  // ------------------------------------------------------------ the processor

  /** One instruction, with the addresses it may read (its own bytes included) and write. */
  datatype Cpu = Cpu(exec: Proc -> Proc, readSet: Proc -> set<nat>, writeSet: Proc -> set<nat>)

  ghost predicate SameAt(m: Memory, m': Memory, a: nat) {
    (a in m <==> a in m') && (a in m ==> m[a] == m'[a])
  }

  ghost predicate AgreeOn(s: Proc, t: Proc, addrs: set<nat>) {
    s.pc == t.pc && s.rest == t.rest && forall a :: a in addrs ==> SameAt(s.mem, t.mem, a)
  }

  ghost predicate SameEffect(cpu: Cpu, s: Proc, t: Proc) {
    && cpu.writeSet(s) == cpu.writeSet(t)
    && cpu.exec(s).pc == cpu.exec(t).pc
    && cpu.exec(s).rest == cpu.exec(t).rest
    && forall a :: a in cpu.writeSet(s) ==> SameAt(cpu.exec(s).mem, cpu.exec(t).mem, a)
  }

  /** The footprints tell the truth: an instruction changes nothing it does not write, and what
      it does is decided by the registers and by what it reads. */
  ghost predicate Lawful(cpu: Cpu) {
    && (forall s {:trigger cpu.exec(s)} :: cpu.exec(s).pc < W64)
    && (forall s, a: nat {:trigger a in cpu.writeSet(s)} :: a !in cpu.writeSet(s) ==> SameAt(s.mem, cpu.exec(s).mem, a))
    && (forall s, t {:trigger SameEffect(cpu, s, t)} :: AgreeOn(s, t, cpu.readSet(s)) ==> SameEffect(cpu, s, t))
  }

  predicate AtInt3(s: Proc) {
    s.pc in s.mem && s.mem[s.pc] == INT3
  }

  /** One instruction; int3 only advances the pc, whoever wrote it. */
  function Step(cpu: Cpu, s: Proc): Proc {
    if AtInt3(s) then s.(pc := Wrap(s.pc + 1)) else cpu.exec(s)
  }

  function Iter(cpu: Cpu, s: Proc, n: nat): Proc {
    if n == 0 then s else Step(cpu, Iter(cpu, s, n - 1))
  }

  lemma {:induction false} IterAdd(cpu: Cpu, s: Proc, m: nat, n: nat)
    ensures Iter(cpu, Iter(cpu, s, m), n) == Iter(cpu, s, m + n)
  {
    if n != 0 {
      IterAdd(cpu, s, m, n - 1);
    }
  }

  /** What waitpid reports: a stop, or nothing yet within the observed number of instructions. */
  datatype Wait = Stopped(proc: Proc) | StillRunning(proc: Proc)

  /** PTRACE_CONT, observed for at most `budget` instructions: it stops one past an int3. */
  function RunToTrap(cpu: Cpu, s: Proc, budget: nat): Wait
    decreases budget
  {
    if budget == 0 then StillRunning(s)
    else if AtInt3(s) then Stopped(s.(pc := Wrap(s.pc + 1)))
    else RunToTrap(cpu, cpu.exec(s), budget - 1)
  }

  /** The instructions PTRACE_CONT executes before the int3 it stops on. */
  function StepsToTrap(cpu: Cpu, s: Proc, budget: nat): nat
    decreases budget
  {
    if budget == 0 || AtInt3(s) then 0 else 1 + StepsToTrap(cpu, cpu.exec(s), budget - 1)
  }

  class Tracee {
    const cpu: Cpu
    var mem: Memory
    var pc: nat
    var rest: seq<int>

    function State(): Proc
      reads this
    {
      Proc(mem, pc, rest)
    }

    constructor (cpu: Cpu, s: Proc)
      ensures this.cpu == cpu && State() == s
    {
      this.cpu, mem, pc, rest := cpu, s.mem, s.pc, s.rest;
    }

    method Peek(a: nat) returns (word: nat)
      ensures word == PeekWord(mem, a)
    {
      word := PeekWord(mem, a);
    }

    method Poke(a: nat, word: nat)
      modifies this`mem
      ensures mem == PokeWord(old(mem), a, word)
    {
      mem := PokeWord(mem, a, word);
    }

    method GetPc() returns (value: nat)
      ensures value == pc
    {
      value := pc;
    }

    method SetPc(value: nat)
      modifies this`pc
      ensures pc == value
    {
      pc := value;
    }

    method SingleStep()
      modifies this
      ensures State() == Step(cpu, old(State()))
    {
      var s := Step(cpu, Proc(mem, pc, rest));
      mem, pc, rest := s.mem, s.pc, s.rest;
    }

    method Cont(budget: nat) returns (stopped: bool)
      modifies this
      ensures (if stopped then Stopped(State()) else StillRunning(State())) == RunToTrap(cpu, old(State()), budget)
    {
      var n: nat := budget;
      while n > 0 && !AtInt3(Proc(mem, pc, rest))
        invariant n <= budget
        invariant RunToTrap(cpu, State(), n) == RunToTrap(cpu, old(State()), budget)
      {
        var s := cpu.exec(Proc(mem, pc, rest));
        mem, pc, rest := s.mem, s.pc, s.rest;
        n := n - 1;
      }
      stopped := n > 0;
      if stopped {
        pc := Wrap(pc + 1);
      }
    }
  }
}
