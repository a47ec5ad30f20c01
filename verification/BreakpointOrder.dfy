/** Enabling many breakpoints and disabling them in any other order (src/core/breakpoint.c): the
    8-byte windows overlap, yet memory comes back byte for byte. */
module BreakpointOrder {
  import opened Bits
  import opened TraceeModel
  import opened DebuggerSpec

  datatype Arming = Failed | Armed(mem: Memory, saved: map<nat, Byte>)

  /** `breakpoint_enable` at each address in turn. */
  function EnableAll(m: Memory, addrs: seq<nat>): Arming
    decreases |addrs|
  {
    if addrs == [] then Armed(m, map[])
    else if !PeekOk(m, addrs[0]) then Failed
    else match EnableAll(m[addrs[0] := INT3], addrs[1..])
      case Failed => Failed
      case Armed(m', saved) => Armed(m', saved[addrs[0] := m[addrs[0]]])
  }

  /** `breakpoint_disable` at each address in turn. */
  function DisableAll(m: Memory, saved: map<nat, Byte>, addrs: seq<nat>): Arming
    requires forall i :: 0 <= i < |addrs| ==> addrs[i] in saved
    decreases |addrs|
  {
    if addrs == [] then Armed(m, saved)
    else if !PeekOk(m, addrs[0]) then Failed
    else
      assert forall i :: 0 <= i < |addrs[1..]| ==> addrs[1..][i] == addrs[i + 1];
      DisableAll(m[addrs[0] := saved[addrs[0]]], saved, addrs[1..])
  }

  ghost predicate Distinct(addrs: seq<nat>) {
    forall i, j :: 0 <= i < j < |addrs| ==> addrs[i] != addrs[j]
  }

  ghost function Elements(addrs: seq<nat>): set<nat> {
    set a | a in addrs
  }

  /** The windows of all addresses are mapped and their bytes are the saved ones. */
  ghost predicate Recorded(m: Memory, saved: map<nat, Byte>, addrs: set<nat>) {
    forall a :: a in addrs ==> WindowMapped(m, a) && a in m && a in saved && saved[a] == m[a]
  }

  lemma TailElements(addrs: seq<nat>)
    requires Distinct(addrs) && addrs != []
    ensures Distinct(addrs[1..]) && addrs[0] !in Elements(addrs[1..])
    ensures Elements(addrs) == {addrs[0]} + Elements(addrs[1..])
  {
    assert forall i :: 0 <= i < |addrs[1..]| ==> addrs[1..][i] == addrs[i + 1];
    assert addrs == [addrs[0]] + addrs[1..];
  }

  lemma OverlayOneMore(m: Memory, a: nat, addrs: set<nat>)
    requires a in m && a !in addrs
    ensures Overlay(m[a := INT3], addrs) == Overlay(m, {a} + addrs)
    ensures Overlay(m, {a} + addrs)[a := m[a]] == Overlay(m, addrs)
  {
  }

  lemma OverlayNone(m: Memory)
    ensures Overlay(m, {}) == m
  {
  }

  lemma SameKeysMapped(m: Memory, m': Memory, a: nat)
    requires m.Keys <= m'.Keys && WindowMapped(m, a)
    ensures WindowMapped(m', a)
  {
    forall x: nat | a <= x < a + 8
      ensures x in m'
    {
      assert x in m;
    }
  }

  lemma RecordedMore(m: Memory, saved: map<nat, Byte>, a: nat, addrs: set<nat>)
    requires WindowMapped(m, a) && a in m && a !in addrs && Recorded(m[a := INT3], saved, addrs)
    ensures Recorded(m, saved[a := m[a]], {a} + addrs)
  {
    forall x | x in addrs
      ensures WindowMapped(m, x)
    {
      SameKeysMapped(m[a := INT3], m, x);
    }
  }

  lemma {:induction false} EnableAllOverlays(m: Memory, addrs: seq<nat>)
    requires Distinct(addrs) && EnableAll(m, addrs).Armed?
    ensures EnableAll(m, addrs).mem == Overlay(m, Elements(addrs))
    ensures Recorded(m, EnableAll(m, addrs).saved, Elements(addrs))
    decreases |addrs|
  {
    if addrs == [] {
      OverlayNone(m);
    } else {
      var a, rest := addrs[0], addrs[1..];
      TailElements(addrs);
      EnableAllOverlays(m[a := INT3], rest);
      assert a in m;
      OverlayOneMore(m, a, Elements(rest));
      RecordedMore(m, EnableAll(m[a := INT3], rest).saved, a, Elements(rest));
    }
  }

  lemma ArmedIsReadable(m: Memory, a: nat, addrs: set<nat>)
    requires WindowMapped(m, a) && a in addrs
    ensures PeekOk(Overlay(m, addrs), a)
  {
    SameKeysMapped(m, Overlay(m, addrs), a);
    assert Overlay(m, addrs)[a] != 255;
  }

  lemma {:induction false} DisableAllRestores(m: Memory, saved: map<nat, Byte>, addrs: seq<nat>)
    requires Distinct(addrs) && Recorded(m, saved, Elements(addrs))
    ensures forall i :: 0 <= i < |addrs| ==> addrs[i] in saved
    ensures DisableAll(Overlay(m, Elements(addrs)), saved, addrs) == Armed(m, saved)
    decreases |addrs|
  {
    forall i | 0 <= i < |addrs|
      ensures addrs[i] in saved
    {
      assert addrs[i] in Elements(addrs);
    }
    if addrs == [] {
      OverlayNone(m);
    } else {
      var a, rest := addrs[0], addrs[1..];
      TailElements(addrs);
      assert a in Elements(addrs);
      ArmedIsReadable(m, a, Elements(addrs));
      OverlayOneMore(m, a, Elements(rest));
      DisableAllRestores(m, saved, rest);
    }
  }

  /** Whatever distinct addresses were enabled, disabling them in any order never trips the assert
      and restores memory byte for byte. */
  lemma AnyOrderRestores(m: Memory, addrs: seq<nat>, order: seq<nat>)
    requires Distinct(addrs) && Distinct(order) && Elements(order) == Elements(addrs)
    requires EnableAll(m, addrs).Armed?
    ensures var on := EnableAll(m, addrs);
            && (forall i :: 0 <= i < |order| ==> order[i] in on.saved)
            && DisableAll(on.mem, on.saved, order) == Armed(m, on.saved)
  {
    EnableAllOverlays(m, addrs);
    DisableAllRestores(m, EnableAll(m, addrs).saved, order);
  }

  /** When the i-th address is enabled its word is mapped, and one of the bytes in it is not 0xFF:
      by nature, or because an earlier int3 is there. */
  ghost predicate Readable(m: Memory, addrs: seq<nat>, i: nat)
    requires i < |addrs|
  {
    WindowMapped(m, addrs[i]) && NotAllOnes(m, addrs[..i], addrs[i])
  }

  ghost predicate NotAllOnes(m: Memory, earlier: seq<nat>, a: nat) {
    exists x: nat :: a <= x < a + 8 && x in m && (m[x] != 255 || x in earlier)
  }

  lemma ReadableNext(m: Memory, addrs: seq<nat>, i: nat)
    requires i + 1 < |addrs| && addrs[0] in m
    ensures Readable(m[addrs[0] := INT3], addrs[1..], i) <==> Readable(m, addrs, i + 1)
  {
    var m', rest, a := m[addrs[0] := INT3], addrs[1..], addrs[i + 1];
    if WindowMapped(m, a) { SameKeysMapped(m, m', a); }
    if WindowMapped(m', a) { SameKeysMapped(m', m, a); }
    var now, next := addrs[..i + 1], rest[..i];
    assert now == [addrs[0]] + next;
    assert forall x :: x in now <==> x == addrs[0] || x in next;
    if NotAllOnes(m, now, a) {
      var x: nat :| a <= x < a + 8 && x in m && (m[x] != 255 || x in now);
      assert x in m' && (m'[x] != 255 || x in next);
    }
    if NotAllOnes(m', next, a) {
      var x: nat :| a <= x < a + 8 && x in m' && (m'[x] != 255 || x in next);
      assert x in m && (m[x] != 255 || x in now);
    }
  }

  /** Enabling one after the other gets through exactly when every address is readable in turn;
      repeated addresses are no obstacle. */
  lemma {:induction false} EnableAllExact(m: Memory, addrs: seq<nat>)
    ensures EnableAll(m, addrs).Armed? <==> forall i: nat :: i < |addrs| ==> Readable(m, addrs, i)
    decreases |addrs|
  {
    if addrs != [] {
      assert PeekOk(m, addrs[0]) <==> Readable(m, addrs, 0);
      if PeekOk(m, addrs[0]) {
        assert addrs[0] in m;
        var m', rest := m[addrs[0] := INT3], addrs[1..];
        EnableAllExact(m', rest);
        if i: nat :| i < |rest| && !Readable(m', rest, i) {
          ReadableNext(m, addrs, i);
        }
        if i: nat :| i < |addrs| && !Readable(m, addrs, i) {
          ReadableNext(m, addrs, i - 1);
        }
      }
    }
  }

  /** So the order can decide: in a word of all ones the second address must come first. */
  lemma OrderDecides(m: Memory, a: nat)
    requires WindowMapped(m, a) && WindowMapped(m, a + 1)
    requires (forall x: nat :: a <= x < a + 8 ==> m[x] == 255) && m[a + 8] != 255
    ensures EnableAll(m, [a, a + 1]) == Failed && EnableAll(m, [a + 1, a]).Armed?
  {
    EnableAllExact(m, [a, a + 1]);
    EnableAllExact(m, [a + 1, a]);
    assert !Readable(m, [a, a + 1], 0);
    assert [a + 1, a][..1] == [a + 1];
    assert a + 1 in [a + 1, a][..1];
    assert Readable(m, [a + 1, a], 0) && Readable(m, [a + 1, a], 1);
  }

  /** Enabling in another order patches and saves the same bytes, when it gets through. */
  lemma OrderIndependent(m: Memory, addrs: seq<nat>, order: seq<nat>)
    requires Distinct(addrs) && Distinct(order) && Elements(order) == Elements(addrs)
    requires EnableAll(m, addrs).Armed? && EnableAll(m, order).Armed?
    ensures EnableAll(m, order).mem == EnableAll(m, addrs).mem
    ensures forall a :: a in Elements(addrs) ==>
              && a in EnableAll(m, addrs).saved && a in EnableAll(m, order).saved
              && EnableAll(m, order).saved[a] == EnableAll(m, addrs).saved[a]
  {
    EnableAllOverlays(m, addrs);
    EnableAllOverlays(m, order);
  }
}
