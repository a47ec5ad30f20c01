/** The source view of src/ui/step_view.c: clicking a line flips its flag and sets or removes a
    breakpoint there, space continues. What keeps the flags and the debugger in step. */
module StepViewModel {
  import opened Bits
  import opened TraceeModel
  import opened DebuggerSpec
  import opened Transparency
  import opened DebuggerModel

  datatype Line = Line(sourceNum: int, enabled: bool)

  datatype Ui = Ui(lines: seq<Line>, dbg: Dbg)

  datatype UiOutcome = Ready(ui: Ui) | Blocked(ui: Ui) | Failed

  /** A click on a line, or the space key. */
  datatype Event = Click(line: nat) | Space(budget: nat)

  function Lift(lines: seq<Line>, o: Outcome): UiOutcome {
    match o
    case Done(d) => Ready(Ui(lines, d))
    case Running(d) => Blocked(Ui(lines, d))
    case Aborted => Failed
  }

  /** The toggle: the flag flips first, then the debugger is called. `find` is the address of a
      source line, 0 if it has none. */
  function Toggle(c: Config, find: int -> Address, ui: Ui, i: nat): UiOutcome
    requires i < |ui.lines|
  {
    var line := ui.lines[i].(enabled := !ui.lines[i].enabled);
    var addr := find(line.sourceNum);
    Lift(ui.lines[i := line],
         if line.enabled then SetBreakpoint(c, ui.dbg, addr) else RemoveBreakpoint(c, ui.dbg, addr))
  }

  function Handle(cpu: Cpu, c: Config, find: int -> Address, ui: Ui, e: Event): UiOutcome {
    match e
    case Click(i) => if i < |ui.lines| then Toggle(c, find, ui, i) else Ready(ui)
    case Space(budget) => Lift(ui.lines, Continue(cpu, ui.dbg, budget))
  }

  function HandleAll(cpu: Cpu, c: Config, find: int -> Address, ui: Ui, events: seq<Event>): UiOutcome
    decreases |events|
  {
    if events == [] then Ready(ui)
    else match Handle(cpu, c, find, ui, events[0])
      case Ready(ui') => HandleAll(cpu, c, find, ui', events[1..])
      case other => other
  }

  // ------------------------------------------------------------ what an event and a run come to

  /** A toggle that goes through flips the one flag and no other line; switched on, the line's
      address becomes enabled, switched off, it and the relative address do no longer. */
  lemma ToggleEffect(c: Config, find: int -> Address, ui: Ui, i: nat)
    requires i < |ui.lines|
    ensures var addr := find(ui.lines[i].sourceNum);
            var a := (addr + c.base) % 0x1_0000_0000_0000_0000;
            match Toggle(c, find, ui, i)
            case Ready(ui') =>
              && |ui'.lines| == |ui.lines|
              && (forall j :: 0 <= j < |ui.lines| && j != i ==> ui'.lines[j] == ui.lines[j])
              && ui'.lines[i] == Line(ui.lines[i].sourceNum, !ui.lines[i].enabled)
              && Enabled(ui'.dbg) ==
                 (if ui.lines[i].enabled then Enabled(ui.dbg) - {a, addr} else Enabled(ui.dbg) + {a})
              && (if ui.lines[i].enabled then a in ui.dbg.bps else ui'.dbg.bps.Keys == ui.dbg.bps.Keys + {a})
            case Blocked(_) => false
            case Failed =>
              if ui.lines[i].enabled then !(a in ui.dbg.bps && PeekOk(ui.dbg.proc.mem, ui.dbg.bps[a].addr))
              else !PeekOk(ui.dbg.proc.mem, a)
  {
    var addr := find(ui.lines[i].sourceNum);
    SetEffect(c, ui.dbg, addr);
    RemoveEffect(c, ui.dbg, addr);
    if Toggle(c, find, ui, i).Ready? {
      if ui.lines[i].enabled { EnabledAfterRemove(c, ui.dbg, addr); } else { EnabledAfterSet(c, ui.dbg, addr); }
    }
  }

  /** The arena entries that an event adds: one for a click that sets a breakpoint where the table
      has no entry. */
  ghost function Adds(c: Config, find: int -> Address, ui: Ui, e: Event): nat {
    if && e.Click? && e.line < |ui.lines| && !ui.lines[e.line].enabled
       && Absolute(c, find, ui.lines[e.line]) !in ui.dbg.bps && Toggle(c, find, ui, e.line).Ready?
    then 1 else 0
  }

  ghost function EntriesAdded(cpu: Cpu, c: Config, find: int -> Address, ui: Ui, events: seq<Event>): nat
    decreases |events|
  {
    if events == [] then 0
    else
      Adds(c, find, ui, events[0]) +
      match Handle(cpu, c, find, ui, events[0])
      case Ready(ui') => EntriesAdded(cpu, c, find, ui', events[1..])
      case _ => 0
  }

  /** The rest of a run starts where its beginning ended. */
  lemma {:induction false} RunSplits(cpu: Cpu, c: Config, find: int -> Address, ui: Ui, events: seq<Event>, n: nat)
    requires n <= |events|
    ensures var o := HandleAll(cpu, c, find, ui, events[..n]);
            && HandleAll(cpu, c, find, ui, events) ==
               (if o.Ready? then HandleAll(cpu, c, find, o.ui, events[n..]) else o)
            && EntriesAdded(cpu, c, find, ui, events) ==
               EntriesAdded(cpu, c, find, ui, events[..n]) +
               if o.Ready? then EntriesAdded(cpu, c, find, o.ui, events[n..]) else 0
    decreases n
  {
    if n == 0 {
      assert events[..0] == [] && events[0..] == events;
    } else {
      assert events[..n][0] == events[0] && events[..n][1..] == events[1..][..n - 1];
      assert events[1..][n - 1..] == events[n..];
      match Handle(cpu, c, find, ui, events[0])
      case Ready(ui') => RunSplits(cpu, c, find, ui', events[1..], n - 1);
      case _ =>
    }
  }

  /** After n events a run from an arena offset is in this state, at this offset. */
  ghost predicate Handled(cpu: Cpu, c: Config, find: int -> Address, ui: Ui, events: seq<Event>, start: nat,
                          n: nat, now: Ui, offset: nat)
  {
    && n <= |events| && HandleAll(cpu, c, find, ui, events[..n]) == Ready(now)
    && offset == start + 48 * EntriesAdded(cpu, c, find, ui, events[..n])
  }

  /** How a run over an arena ends: as the value-level run, or out of memory. That happens exactly
      if the entries the run adds do not all fit, and then at the first that does not: the events
      before it went through, and the next one is a click that has to add an entry. */
  ghost predicate RunEnds(cpu: Cpu, c: Config, find: int -> Address, ui: Ui, events: seq<Event>, start: nat,
                          capacity: nat, status: Status, o: UiOutcome, handled: nat)
  {
    && (status == Ok ==> HandleAll(cpu, c, find, ui, events) == o)
    && (status == AssertFailed ==> HandleAll(cpu, c, find, ui, events) == Failed)
    && (status == OutOfMemory <==> start + 48 * EntriesAdded(cpu, c, find, ui, events) > capacity)
    && (status == OutOfMemory ==>
          && handled < |events|
          && var before := HandleAll(cpu, c, find, ui, events[..handled]);
             var added := EntriesAdded(cpu, c, find, ui, events[..handled]);
          && before.Ready? && Adds(c, find, before.ui, events[handled]) == 1
          && start + 48 * added <= capacity < start + 48 * (added + 1))
  }

  lemma HandledNone(cpu: Cpu, c: Config, find: int -> Address, ui: Ui, events: seq<Event>, start: nat)
    ensures Handled(cpu, c, find, ui, events, start, 0, ui, start)
  {
    assert events[..0] == [];
  }

  lemma HandledAll(cpu: Cpu, c: Config, find: int -> Address, ui: Ui, events: seq<Event>, start: nat,
                   now: Ui, offset: nat, capacity: nat)
    requires Handled(cpu, c, find, ui, events, start, |events|, now, offset) && offset <= capacity
    ensures RunEnds(cpu, c, find, ui, events, start, capacity, Ok, Ready(now), |events|)
  {
    assert events[..|events|] == events;
  }

  ghost predicate OnlySpaces(events: seq<Event>) {
    forall i :: 0 <= i < |events| ==> events[i].Space?
  }

  /** Runs of the space key add nothing to the table. */
  lemma {:induction false} SpacesAddNothing(cpu: Cpu, c: Config, find: int -> Address, ui: Ui, events: seq<Event>)
    ensures OnlySpaces(events) ==> EntriesAdded(cpu, c, find, ui, events) == 0
    decreases |events|
  {
    if events != [] && OnlySpaces(events) {
      match Handle(cpu, c, find, ui, events[0])
      case Ready(ui') => SpacesAddNothing(cpu, c, find, ui', events[1..]);
      case _ =>
    }
  }

  /** So the space key alone never runs out of memory. */
  lemma SpacesNeverRunOut(cpu: Cpu, c: Config, find: int -> Address, ui: Ui, events: seq<Event>, start: nat,
                          capacity: nat, status: Status, o: UiOutcome, handled: nat)
    requires RunEnds(cpu, c, find, ui, events, start, capacity, status, o, handled)
    requires OnlySpaces(events) && start <= capacity
    ensures status != OutOfMemory
  {
    SpacesAddNothing(cpu, c, find, ui, events);
  }

  /** The next event either goes through or ends the run. */
  lemma HandledNext(cpu: Cpu, c: Config, find: int -> Address, ui: Ui, events: seq<Event>, start: nat,
                    n: nat, now: Ui, offset: nat, capacity: nat)
    requires n < |events| && Handled(cpu, c, find, ui, events, start, n, now, offset) && offset <= capacity
    ensures var o, added := Handle(cpu, c, find, now, events[n]), Adds(c, find, now, events[n]);
            && (o.Ready? ==> Handled(cpu, c, find, ui, events, start, n + 1, o.ui, offset + 48 * added))
            && (o.Blocked? && offset + 48 * added <= capacity ==>
                  RunEnds(cpu, c, find, ui, events, start, capacity, Ok, o, n))
            && (o.Failed? && offset + 48 * added <= capacity ==>
                  RunEnds(cpu, c, find, ui, events, start, capacity, AssertFailed, Failed, n))
            && (added == 1 && offset + 48 > capacity ==>
                  RunEnds(cpu, c, find, ui, events, start, capacity, OutOfMemory, o, n))
  {
    var o := Handle(cpu, c, find, now, events[n]);
    RunSplits(cpu, c, find, ui, events[..n + 1], n);
    assert events[..n + 1][..n] == events[..n] && events[..n + 1][n..] == [events[n]];
    assert [events[n]][1..] == [];
    assert HandleAll(cpu, c, find, now, [events[n]]) == o;
    RunSplits(cpu, c, find, ui, events, n + 1);
  }

  function Clicks(events: seq<Event>, i: nat): nat {
    if events == [] then 0 else Clicks(events[1..], i) + if events[0] == Click(i) then 1 else 0
  }

  predicate OddlyClicked(events: seq<Event>, i: nat) {
    Clicks(events, i) % 2 == 1
  }

  /** After a run a line's flag is flipped exactly if it was clicked an odd number of times, and
      lines are otherwise as they were. */
  lemma {:induction false} RunFlipsFlags(cpu: Cpu, c: Config, find: int -> Address, ui: Ui, events: seq<Event>)
    ensures match HandleAll(cpu, c, find, ui, events)
            case Ready(ui') =>
              && |ui'.lines| == |ui.lines|
              && forall i :: 0 <= i < |ui.lines| ==>
                   ui'.lines[i] == Line(ui.lines[i].sourceNum, ui.lines[i].enabled != OddlyClicked(events, i))
            case _ => true
    decreases |events|
  {
    if events != [] {
      match Handle(cpu, c, find, ui, events[0])
      case Ready(ui') =>
        EventFlipsFlags(cpu, c, find, ui, events[0]);
        RunFlipsFlags(cpu, c, find, ui', events[1..]);
        forall i | 0 <= i < |ui.lines|
          ensures OddlyClicked(events, i) == (OddlyClicked(events[1..], i) != (events[0] == Click(i)))
        {
        }
      case _ =>
    }
  }

  lemma EventFlipsFlags(cpu: Cpu, c: Config, find: int -> Address, ui: Ui, e: Event)
    ensures match Handle(cpu, c, find, ui, e)
            case Ready(ui') =>
              && |ui'.lines| == |ui.lines|
              && forall i :: 0 <= i < |ui.lines| ==>
                   ui'.lines[i] == Line(ui.lines[i].sourceNum, ui.lines[i].enabled != (e == Click(i)))
            case _ => true
  {
    if e.Click? && e.line < |ui.lines| {
      ToggleEffect(c, find, ui, e.line);
    }
  }

  // ------------------------------------------------------------ agreement

  function Absolute(c: Config, find: int -> Address, l: Line): nat {
    Wrap(find(l.sourceNum) + c.base)
  }

  /** A line's flag is set exactly when a breakpoint is enabled at its address, and every enabled
      breakpoint is some line's. */
  ghost predicate Agree(c: Config, find: int -> Address, ui: Ui) {
    && (forall i :: 0 <= i < |ui.lines| ==>
          (ui.lines[i].enabled <==> Absolute(c, find, ui.lines[i]) in Enabled(ui.dbg)))
    && (forall a :: a in Enabled(ui.dbg) ==> IsLine(c, find, ui.lines, a))
  }

  ghost predicate IsLine(c: Config, find: int -> Address, lines: seq<Line>, a: nat) {
    exists i :: 0 <= i < |lines| && Absolute(c, find, lines[i]) == a
  }

  /** No other line has line i's address, and none that is to stay armed has the relative address
      under which the map is told to remove line i. */
  ghost predicate Unshared(c: Config, find: int -> Address, lines: seq<Line>, i: nat)
    requires i < |lines|
  {
    forall j :: 0 <= j < |lines| && j != i ==>
      && Absolute(c, find, lines[j]) != Absolute(c, find, lines[i])
      && (lines[i].enabled && lines[j].enabled ==> Absolute(c, find, lines[j]) != find(lines[i].sourceNum))
  }

  lemma EnabledAfterSet(c: Config, d: Dbg, addr: Address)
    requires SetBreakpoint(c, d, addr).Done?
    ensures Enabled(SetBreakpoint(c, d, addr).dbg) == Enabled(d) + {Wrap(addr + c.base)}
  {
  }

  lemma EnabledAfterRemove(c: Config, d: Dbg, addr: Address)
    requires RemoveBreakpoint(c, d, addr).Done?
    ensures Enabled(RemoveBreakpoint(c, d, addr).dbg) == Enabled(d) - {Wrap(addr + c.base), addr}
  {
  }

  lemma EnabledAfterContinue(cpu: Cpu, d: Dbg, budget: nat)
    requires !Continue(cpu, d, budget).Aborted?
    ensures Enabled(Continue(cpu, d, budget).dbg) == Enabled(d)
  {
    assert Enabled(StepOver(cpu, d).dbg) == Enabled(d);
  }

  /** A toggle keeps the agreement exactly when the line shares its address with no other. */
  lemma ToggleExact(c: Config, find: int -> Address, ui: Ui, i: nat)
    requires i < |ui.lines| && Agree(c, find, ui) && Toggle(c, find, ui, i).Ready?
    ensures Agree(c, find, Toggle(c, find, ui, i).ui) <==> Unshared(c, find, ui.lines, i)
  {
    var addr := find(ui.lines[i].sourceNum);
    var a := Wrap(addr + c.base);
    var ui' := Toggle(c, find, ui, i).ui;
    if ui.lines[i].enabled {
      EnabledAfterRemove(c, ui.dbg, addr);
    } else {
      EnabledAfterSet(c, ui.dbg, addr);
    }
    assert forall j :: 0 <= j < |ui.lines| ==> Absolute(c, find, ui'.lines[j]) == Absolute(c, find, ui.lines[j]);
    forall b | b in Enabled(ui'.dbg)
      ensures IsLine(c, find, ui'.lines, b)
    {
      if b == a {
        assert Absolute(c, find, ui'.lines[i]) == b;
      } else {
        assert IsLine(c, find, ui.lines, b);
        var j :| 0 <= j < |ui.lines| && Absolute(c, find, ui.lines[j]) == b;
        assert Absolute(c, find, ui'.lines[j]) == b;
      }
    }
    if !Unshared(c, find, ui.lines, i) {
      var j :| 0 <= j < |ui.lines| && j != i &&
        (|| Absolute(c, find, ui.lines[j]) == a
         || (ui.lines[i].enabled && ui.lines[j].enabled && Absolute(c, find, ui.lines[j]) == addr));
      assert ui'.lines[j] == ui.lines[j];
    }
  }

  /** While they agree, set is never called on an enabled address, remove always finds its entry,
      and a toggle fails only because the word at the address cannot be told from an error. */
  lemma ToggleCallsAreSound(c: Config, find: int -> Address, ui: Ui, i: nat)
    requires i < |ui.lines| && Agree(c, find, ui)
    ensures var a := Absolute(c, find, ui.lines[i]);
            && (if ui.lines[i].enabled then a in ui.dbg.bps else a !in Enabled(ui.dbg))
            && (Inv(ui.dbg) ==> (Toggle(c, find, ui, i).Failed? <==> !PeekOk(ui.dbg.proc.mem, a)))
  {
    var a := Absolute(c, find, ui.lines[i]);
    assert ui.lines[i].enabled <==> a in Enabled(ui.dbg);
  }

  // ------------------------------------------------------------ whole runs

  /** A line with an address of its own shares it with no other line when the program is loaded at
      0, or above that address; other lines may share theirs. */
  lemma BaseUnshares(c: Config, find: int -> Address, lines: seq<Line>, i: nat)
    requires i < |lines|
    requires forall j :: 0 <= j < |lines| && j != i ==> find(lines[j].sourceNum) != find(lines[i].sourceNum)
    requires c.base == 0 || (find(lines[i].sourceNum) < c.base &&
                             forall j :: 0 <= j < |lines| ==> find(lines[j].sourceNum) + c.base < W64)
    ensures Unshared(c, find, lines, i)
  {
    forall j | 0 <= j < |lines| && j != i
      ensures Absolute(c, find, lines[j]) != Absolute(c, find, lines[i])
      ensures Absolute(c, find, lines[j]) != find(lines[i].sourceNum)
    {
      SameOffset(find(lines[j].sourceNum), find(lines[i].sourceNum), c.base);
    }
  }

  lemma SameOffset(x: Address, y: Address, base: nat)
    ensures Wrap(x + base) == Wrap(y + base) ==> x == y
  {
  }

  /** One event keeps the agreement exactly when it is not a click on a shared line. */
  lemma EventExact(cpu: Cpu, c: Config, find: int -> Address, ui: Ui, e: Event)
    requires Agree(c, find, ui)
    ensures match Handle(cpu, c, find, ui, e)
            case Ready(ui') =>
              Agree(c, find, ui') <==> (e.Click? && e.line < |ui.lines| ==> Unshared(c, find, ui.lines, e.line))
            case Blocked(ui') => Agree(c, find, ui')
            case Failed => true
  {
    match e
    case Click(i) =>
      if i < |ui.lines| && Toggle(c, find, ui, i).Ready? {
        ToggleExact(c, find, ui, i);
      }
    case Space(budget) =>
      if !Continue(cpu, ui.dbg, budget).Aborted? {
        EnabledAfterContinue(cpu, ui.dbg, budget);
      }
  }

  /** Flags and enabled breakpoints agree in every state of a run. */
  ghost predicate AllAgree(cpu: Cpu, c: Config, find: int -> Address, ui: Ui, events: seq<Event>)
    decreases |events|
  {
    Agree(c, find, ui) &&
    (events == [] ||
     match Handle(cpu, c, find, ui, events[0])
     case Ready(ui') => AllAgree(cpu, c, find, ui', events[1..])
     case Blocked(ui') => Agree(c, find, ui')
     case Failed => true)
  }

  /** Every click that goes through is on a line that shares its address with no other. */
  ghost predicate ClicksUnshared(cpu: Cpu, c: Config, find: int -> Address, ui: Ui, events: seq<Event>)
    decreases |events|
  {
    events == [] ||
    match Handle(cpu, c, find, ui, events[0])
    case Ready(ui') =>
      && (events[0].Click? && events[0].line < |ui.lines| ==> Unshared(c, find, ui.lines, events[0].line))
      && ClicksUnshared(cpu, c, find, ui', events[1..])
    case _ => true
  }

  /** A run of clicks and continues keeps flags and enabled breakpoints in agreement throughout if
      and only if every click that goes through is on an unshared line. */
  lemma {:induction false} RunAgreesExact(cpu: Cpu, c: Config, find: int -> Address, ui: Ui, events: seq<Event>)
    requires Agree(c, find, ui)
    ensures AllAgree(cpu, c, find, ui, events) <==> ClicksUnshared(cpu, c, find, ui, events)
    decreases |events|
  {
    if events != [] {
      EventExact(cpu, c, find, ui, events[0]);
      match Handle(cpu, c, find, ui, events[0])
      case Ready(ui') =>
        if Agree(c, find, ui') {
          RunAgreesExact(cpu, c, find, ui', events[1..]);
        } else {
          DisagreesFromStart(cpu, c, find, ui', events[1..]);
        }
      case _ =>
    }
  }

  lemma DisagreesFromStart(cpu: Cpu, c: Config, find: int -> Address, ui: Ui, events: seq<Event>)
    requires !Agree(c, find, ui)
    ensures !AllAgree(cpu, c, find, ui, events)
  {
  }

  /** The state in which a run ends, or goes on running, is one of those. */
  lemma {:induction false} RunEndsAgreed(cpu: Cpu, c: Config, find: int -> Address, ui: Ui, events: seq<Event>)
    requires AllAgree(cpu, c, find, ui, events) && HandleAll(cpu, c, find, ui, events) != Failed
    ensures Agree(c, find, HandleAll(cpu, c, find, ui, events).ui)
    decreases |events|
  {
    if events != [] {
      match Handle(cpu, c, find, ui, events[0])
      case Ready(ui') => RunEndsAgreed(cpu, c, find, ui', events[1..]);
      case _ =>
    }
  }

  /** Two lines at one address, such as two lines without code, which both get address 0: setting
      both and clearing one leaves no breakpoint enabled there and an int3 in the program for
      good, whatever byte it had. */
  lemma SharedAddressLosesByte(c: Config, find: int -> Address, ui: Ui, i: nat, j: nat)
    requires i < |ui.lines| && j < |ui.lines| && i != j
    requires !ui.lines[i].enabled && !ui.lines[j].enabled
    requires find(ui.lines[i].sourceNum) == find(ui.lines[j].sourceNum)
    requires PeekOk(ui.dbg.proc.mem, Absolute(c, find, ui.lines[i]))
    ensures var a := Absolute(c, find, ui.lines[i]);
            var first := Toggle(c, find, ui, i);
            first.Ready? &&
            var second := Toggle(c, find, first.ui, j);
            second.Ready? &&
            var third := Toggle(c, find, second.ui, i);
            third.Ready? &&
            var d := third.ui.dbg;
            a in d.proc.mem && d.proc.mem[a] == INT3 && a !in Enabled(d)
  {
    var a := Absolute(c, find, ui.lines[i]);
    var addr := find(ui.lines[i].sourceNum);
    var d1 := SetBreakpoint(c, ui.dbg, addr).dbg;
    assert d1.proc.mem[a] == INT3;
    var d2 := SetBreakpoint(c, d1, addr).dbg;
    assert d2.bps[a].saved == INT3 && d2.proc.mem[a] == INT3;
    EnabledAfterRemove(c, d2, addr);
  }

  // ------------------------------------------------------------ transparency of the view

  /** The debugger command behind an event. */
  function CommandOf(find: int -> Address, ui: Ui, e: Event): seq<Command> {
    match e
    case Click(i) =>
      if i >= |ui.lines| then []
      else [if ui.lines[i].enabled then Remove(find(ui.lines[i].sourceNum)) else Set(find(ui.lines[i].sourceNum))]
    case Space(budget) => [Go(budget)]
  }

  /** The commands behind a run. */
  function Commands(cpu: Cpu, c: Config, find: int -> Address, ui: Ui, events: seq<Event>): seq<Command>
    decreases |events|
  {
    if events == [] then []
    else
      var rest := match Handle(cpu, c, find, ui, events[0])
                  case Ready(ui') => Commands(cpu, c, find, ui', events[1..])
                  case _ => [];
      CommandOf(find, ui, events[0]) + rest
  }

  /** A click that goes through is on an unshared line and not on the one whose address is just
      before the pc, which the process is stopped on or would be taken to be; what a continue
      executes keeps off the breakpoints enabled then. */
  ghost predicate SafeEvent(cpu: Cpu, c: Config, find: int -> Address, ui: Ui, e: Event) {
    match e
    case Click(i) =>
      i < |ui.lines| && Toggle(c, find, ui, i).Ready? ==>
        Unshared(c, find, ui.lines, i) && Absolute(c, find, ui.lines[i]) != TrapAddr(ui.dbg)
    case Space(budget) => QuietContinue(cpu, ui.dbg, budget)
  }

  ghost predicate SafeRun(cpu: Cpu, c: Config, find: int -> Address, ui: Ui, events: seq<Event>)
    decreases |events|
  {
    events == [] ||
    (&& SafeEvent(cpu, c, find, ui, events[0])
     && match Handle(cpu, c, find, ui, events[0])
        case Ready(ui') => SafeRun(cpu, c, find, ui', events[1..])
        case _ => true)
  }

  /** A click on an unshared line goes unseen by the debuggee exactly when its address is not the
      one just before the pc. */
  lemma ClickExact(cpu: Cpu, c: Config, find: int -> Address, ui: Ui, i: nat)
    requires i < |ui.lines| && Agree(c, find, ui) && Unshared(c, find, ui.lines, i)
    requires Toggle(c, find, ui, i).Ready?
    ensures SafeCommand(cpu, c, ui.dbg, CommandOf(find, ui, Click(i))[0])
       <==> Absolute(c, find, ui.lines[i]) != TrapAddr(ui.dbg)
  {
    var addr := find(ui.lines[i].sourceNum);
    assert ui.lines[i].enabled <==> Absolute(c, find, ui.lines[i]) in Enabled(ui.dbg);
    if ui.lines[i].enabled && addr in Enabled(ui.dbg) {
      assert IsLine(c, find, ui.lines, addr);
      var j :| 0 <= j < |ui.lines| && Absolute(c, find, ui.lines[j]) == addr;
      assert j == i;
    }
  }

  function Debuggee(o: UiOutcome): Outcome {
    match o
    case Ready(ui) => Done(ui.dbg)
    case Blocked(ui) => Running(ui.dbg)
    case Failed => Aborted
  }

  lemma OneEvent(cpu: Cpu, c: Config, find: int -> Address, ui: Ui, e: Event)
    ensures Debuggee(Handle(cpu, c, find, ui, e)) == Session(cpu, c, ui.dbg, CommandOf(find, ui, e))
  {
    var cmds := CommandOf(find, ui, e);
    if cmds != [] {
      assert cmds[1..] == [];
    }
  }

  lemma EventIsSafe(cpu: Cpu, c: Config, find: int -> Address, ui: Ui, e: Event)
    requires Agree(c, find, ui) && SafeEvent(cpu, c, find, ui, e)
    ensures SafeSession(cpu, c, ui.dbg, CommandOf(find, ui, e))
  {
    var cmds := CommandOf(find, ui, e);
    if cmds != [] {
      assert cmds == [cmds[0]];
      SessionOne(cpu, c, ui.dbg, cmds[0]);
      if e.Click? && Toggle(c, find, ui, e.line).Ready? {
        ClickExact(cpu, c, find, ui, e.line);
      }
    }
  }

  lemma SessionOne(cpu: Cpu, c: Config, d: Dbg, cmd: Command)
    ensures Session(cpu, c, d, [cmd]) == Perform(cpu, c, d, cmd)
    ensures SafeSession(cpu, c, d, [cmd]) <==> SafeCommand(cpu, c, d, cmd)
  {
    assert [cmd][1..] == [];
  }

  lemma SessionPrepend(cpu: Cpu, c: Config, d: Dbg, cmd: seq<Command>, rest: seq<Command>)
    requires |cmd| <= 1 && Session(cpu, c, d, cmd).Done?
    ensures Session(cpu, c, d, cmd + rest) == Session(cpu, c, Session(cpu, c, d, cmd).dbg, rest)
    ensures SafeSession(cpu, c, d, cmd) && SafeSession(cpu, c, Session(cpu, c, d, cmd).dbg, rest) ==>
              SafeSession(cpu, c, d, cmd + rest)
  {
    if cmd == [] {
      assert cmd + rest == rest;
    } else {
      var all := cmd + rest;
      assert cmd == [cmd[0]] && all[0] == cmd[0] && all[1..] == rest;
      SessionOne(cpu, c, d, cmd[0]);
      SessionIs(cpu, c, d, all, Session(cpu, c, d, cmd).dbg);
    }
  }

  /** Every run of the view, safe or not, is a session of the debugger. */
  lemma {:induction false} RunIsSession(cpu: Cpu, c: Config, find: int -> Address, ui: Ui, events: seq<Event>)
    ensures Session(cpu, c, ui.dbg, Commands(cpu, c, find, ui, events)) ==
            Debuggee(HandleAll(cpu, c, find, ui, events))
    decreases |events|
  {
    if events != [] {
      var cmd := CommandOf(find, ui, events[0]);
      OneEvent(cpu, c, find, ui, events[0]);
      match Handle(cpu, c, find, ui, events[0])
      case Ready(ui') =>
        RunIsSession(cpu, c, find, ui', events[1..]);
        SessionPrepend(cpu, c, ui.dbg, cmd, Commands(cpu, c, find, ui', events[1..]));
      case _ =>
        assert cmd + [] == cmd;
    }
  }

  /** A safe run of the view is a safe session of the debugger. */
  lemma {:induction false} RunIsSafeSession(cpu: Cpu, c: Config, find: int -> Address, ui: Ui, events: seq<Event>)
    requires Agree(c, find, ui) && SafeRun(cpu, c, find, ui, events)
    ensures var cmds := Commands(cpu, c, find, ui, events);
            && Session(cpu, c, ui.dbg, cmds) == Debuggee(HandleAll(cpu, c, find, ui, events))
            && SafeSession(cpu, c, ui.dbg, cmds)
    decreases |events|
  {
    if events != [] {
      var cmd := CommandOf(find, ui, events[0]);
      OneEvent(cpu, c, find, ui, events[0]);
      EventIsSafe(cpu, c, find, ui, events[0]);
      EventExact(cpu, c, find, ui, events[0]);
      match Handle(cpu, c, find, ui, events[0])
      case Ready(ui') =>
        RunIsSafeSession(cpu, c, find, ui', events[1..]);
        SessionPrepend(cpu, c, ui.dbg, cmd, Commands(cpu, c, find, ui', events[1..]));
      case _ =>
        assert cmd + [] == cmd;
    }
  }

  /** Through the whole view: after any safe run of clicks and continues, whatever the other lines
      are, the debuggee is on its own undebugged run. */
  lemma ViewTransparent(cpu: Cpu, c: Config, find: int -> Address, ui: Ui, events: seq<Event>)
    requires Lawful(cpu) && Inv(ui.dbg)
    requires Agree(c, find, ui) && SafeRun(cpu, c, find, ui, events)
    ensures OnNativeRun(cpu, View(ui.dbg), Debuggee(HandleAll(cpu, c, find, ui, events)),
                        Elapsed(cpu, c, ui.dbg, Commands(cpu, c, find, ui, events)))
  {
    RunIsSafeSession(cpu, c, find, ui, events);
    SessionTransparent(cpu, c, ui.dbg, Commands(cpu, c, find, ui, events));
  }

  // ------------------------------------------------------------ the view object

  class StepView {
    const lines: array<Line>
    const dbg: Debugger
    const find: int -> Address

    ghost predicate Valid()
      reads this, lines, dbg, dbg.tracee, dbg.table, dbg.table.Repr, dbg.table.arena, dbg.table.cells.Values
    {
      dbg.Valid() && lines as object !in dbg.table.Repr
    }

    ghost function State(): Ui
      reads this, lines, dbg, dbg.tracee
    {
      Ui(lines[..], dbg.State())
    }

    constructor (lines: array<Line>, dbg: Debugger, find: int -> Address)
      requires dbg.Valid() && lines as object !in dbg.table.Repr
      ensures Valid() && State() == Ui(lines[..], dbg.State())
      ensures this.lines == lines && this.dbg == dbg && this.find == find
    {
      this.lines, this.dbg, this.find := lines, dbg, find;
    }

    /** The debugger call behind a toggle. */
    lemma ToggleIs(ui: Ui, i: nat)
      requires i < |ui.lines|
      ensures var line, addr := ui.lines[i].(enabled := !ui.lines[i].enabled), find(ui.lines[i].sourceNum);
              var o := if line.enabled then SetBreakpoint(dbg.config, ui.dbg, addr)
                       else RemoveBreakpoint(dbg.config, ui.dbg, addr);
              && Toggle(dbg.config, find, ui, i) == Lift(ui.lines[i := line], o)
              && Adds(dbg.config, find, ui, Click(i)) ==
                 if line.enabled && Wrap(addr + dbg.config.base) !in ui.dbg.bps && o.Done? then 1 else 0
    {
    }

    /** A click on line i. */
    method ClickLine(i: nat) returns (status: Status)
      requires Valid() && i < lines.Length
      modifies lines, dbg`bps, dbg.tracee`mem, dbg.table.Repr, dbg.table.arena, dbg.table.cells.Values
      ensures fresh(dbg.table.Repr - old(dbg.table.Repr))
      ensures forall k :: k in dbg.table.cells ==>
                dbg.table.cells[k] in old(dbg.table.cells.Values) || fresh(dbg.table.cells[k])
      ensures status == Ok ==> Valid() && Toggle(dbg.config, find, old(State()), i) == Ready(State())
      ensures status == Ok ==> dbg.table.arena.offset == old(dbg.table.arena.offset) +
                                                         48 * Adds(dbg.config, find, old(State()), Click(i))
      ensures status == AssertFailed ==> Toggle(dbg.config, find, old(State()), i) == Failed
      ensures status == OutOfMemory ==> Adds(dbg.config, find, old(State()), Click(i)) == 1
      ensures status != AssertFailed ==>
                (status == OutOfMemory <==>
                 old(dbg.table.arena.offset) + 48 * Adds(dbg.config, find, old(State()), Click(i))
                 > dbg.table.arena.capacity)
    {
      ToggleIs(State(), i);
      lines[i] := lines[i].(enabled := !lines[i].enabled);
      assert lines[..] == old(State()).lines[i := lines[i]];
      var addrOfLine := find(lines[i].sourceNum);
      if lines[i].enabled {
        status := dbg.SetBreakpointAtAddr(addrOfLine);
      } else {
        status := dbg.RemoveBreakpointAtAddr(addrOfLine);
      }
    }

    /** The space key. */
    method PressSpace(budget: nat) returns (status: Status, stopped: bool)
      requires Valid()
      modifies dbg`bps, dbg.tracee, dbg.table.cells.Values
      ensures dbg.table.cells == old(dbg.table.cells)
      ensures status != OutOfMemory
      ensures status == Ok ==> Valid()
      ensures Handle(dbg.tracee.cpu, dbg.config, find, old(State()), Space(budget)) ==
              if status != Ok then Failed else if stopped then Ready(State()) else Blocked(State())
    {
      status, stopped := dbg.ContinueExecution(budget);
    }

    /** One event: a click on a line, or the space key. */
    method HandleEvent(e: Event) returns (status: Status, stopped: bool)
      requires Valid()
      modifies lines, dbg`bps, dbg.tracee, dbg.table.Repr, dbg.table.arena, dbg.table.cells.Values
      ensures fresh(dbg.table.Repr - old(dbg.table.Repr))
      ensures forall k :: k in dbg.table.cells ==>
                dbg.table.cells[k] in old(dbg.table.cells.Values) || fresh(dbg.table.cells[k])
      ensures match status
              case Ok =>
                && Valid()
                && Handle(dbg.tracee.cpu, dbg.config, find, old(State()), e) ==
                   (if stopped then Ready(State()) else Blocked(State()))
                && dbg.table.arena.offset == old(dbg.table.arena.offset) + 48 * Adds(dbg.config, find, old(State()), e)
              case AssertFailed =>
                && Handle(dbg.tracee.cpu, dbg.config, find, old(State()), e) == Failed
                && Adds(dbg.config, find, old(State()), e) == 0
              case OutOfMemory =>
                && Adds(dbg.config, find, old(State()), e) == 1
                && old(dbg.table.arena.offset) + 48 > dbg.table.arena.capacity
    {
      status, stopped := Ok, true;
      match e
      case Click(i) =>
        if i < lines.Length {
          status := ClickLine(i);
        }
      case Space(budget) =>
        status, stopped := PressSpace(budget);
    }

    /** The event loop: one event after the other until one fails or never returns. */
    method Run(events: seq<Event>) returns (status: Status, stopped: bool, handled: nat)
      requires Valid()
      modifies lines, dbg`bps, dbg.tracee, dbg.table.Repr, dbg.table.arena, dbg.table.cells.Values
      ensures status == Ok ==> Valid()
      ensures RunEnds(dbg.tracee.cpu, dbg.config, find, old(State()), events, old(dbg.table.arena.offset),
                      dbg.table.arena.capacity, status, if stopped then Ready(State()) else Blocked(State()), handled)
    {
      status, stopped, handled := Ok, true, 0;
      ghost var ui, start := State(), dbg.table.arena.offset;
      HandledNone(dbg.tracee.cpu, dbg.config, find, ui, events, start);
      while handled < |events|
        invariant status == Ok && stopped
        invariant Valid() && fresh(dbg.table.Repr - old(dbg.table.Repr))
        invariant forall k :: k in dbg.table.cells ==>
                    dbg.table.cells[k] in old(dbg.table.cells.Values) || fresh(dbg.table.cells[k])
        invariant Handled(dbg.tracee.cpu, dbg.config, find, ui, events, start, handled, State(), dbg.table.arena.offset)
      {
        HandledNext(dbg.tracee.cpu, dbg.config, find, ui, events, start, handled, State(),
                    dbg.table.arena.offset, dbg.table.arena.capacity);
        status, stopped := HandleEvent(events[handled]);
        if status != Ok || !stopped {
          return;
        }
        handled := handled + 1;
      }
      HandledAll(dbg.tracee.cpu, dbg.config, find, ui, events, start, State(),
                 dbg.table.arena.offset, dbg.table.arena.capacity);
    }

    /** The event loop under the conditions of ViewTransparent: whatever was clicked and continued,
        the process that the objects hold is on its own undebugged run, with int3 in its memory at
        exactly the enabled addresses; it only ends otherwise when an assert of the debugger fails
        or the entries added do not fit. */
    method RunStaysNative(events: seq<Event>) returns (status: Status, stopped: bool, handled: nat)
      requires Valid() && Lawful(dbg.tracee.cpu) && Inv(dbg.State())
      requires Agree(dbg.config, find, State()) && SafeRun(dbg.tracee.cpu, dbg.config, find, State(), events)
      modifies lines, dbg`bps, dbg.tracee, dbg.table.Repr, dbg.table.arena, dbg.table.cells.Values
      ensures status == Ok ==>
                var n := Iter(dbg.tracee.cpu, old(View(dbg.State())),
                              Elapsed(dbg.tracee.cpu, dbg.config, old(dbg.State()),
                                      Commands(dbg.tracee.cpu, dbg.config, find, old(State()), events)));
                && (if stopped then View(dbg.State()) == n else RunningView(dbg.State()) == n)
                && Overlays(dbg.State(), n.mem)
      ensures RunEnds(dbg.tracee.cpu, dbg.config, find, old(State()), events, old(dbg.table.arena.offset),
                      dbg.table.arena.capacity, status, if stopped then Ready(State()) else Blocked(State()), handled)
    {
      ghost var ui := State();
      ViewTransparent(dbg.tracee.cpu, dbg.config, find, ui, events);
      status, stopped, handled := Run(events);
    }
  }
}
