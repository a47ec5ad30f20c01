/** The address-range cache of src/dwarf/addr_range_cache.c: insertion into a doubling array kept
    sorted by start address, and binary search over closed ranges. */
module AddrRangeCache {
  import opened Bits
  import opened ArenaModel

  datatype Range = Range(startAddr: nat, endAddr: nat, line: int)

  // ------------------------------------------------------------ insertion

  /** Where the swap loop leaves a new range: behind the last one that starts no later. */
  function Inserted(s: seq<Range>, r: Range): (t: seq<Range>)
    ensures |t| == |s| + 1
  {
    if s == [] || s[|s| - 1].startAddr <= r.startAddr then s + [r]
    else Inserted(s[..|s| - 1], r) + [s[|s| - 1]]
  }

  function InsertedAll(rs: seq<Range>): (t: seq<Range>)
    ensures |t| == |rs|
  {
    if rs == [] then [] else Inserted(InsertedAll(rs[..|rs| - 1]), rs[|rs| - 1])
  }

  ghost predicate Sorted(s: seq<Range>) {
    forall i, j :: 0 <= i < j < |s| ==> s[i].startAddr <= s[j].startAddr
  }

  /** The ranges that start at k, in order. */
  function StartingAt(s: seq<Range>, k: nat): seq<Range> {
    if s == [] then []
    else StartingAt(s[..|s| - 1], k) + if s[|s| - 1].startAddr == k then [s[|s| - 1]] else []
  }

  /** s is the stable sort of rs: sorted by start, ties in their original order. */
  ghost predicate StableSortOf(s: seq<Range>, rs: seq<Range>) {
    Sorted(s) && forall k: nat :: StartingAt(s, k) == StartingAt(rs, k)
  }

  lemma StartingAtAppend(s: seq<Range>, r: Range, k: nat)
    ensures StartingAt(s + [r], k) == StartingAt(s, k) + if r.startAddr == k then [r] else []
  {
    assert (s + [r])[..|s|] == s;
  }

  lemma {:induction false} InsertedStarts(s: seq<Range>, r: Range)
    ensures forall x :: x in Inserted(s, r) ==> x in s || x == r
    ensures multiset(Inserted(s, r)) == multiset(s) + multiset{r}
  {
    if s == [] || s[|s| - 1].startAddr <= r.startAddr {
    } else {
      InsertedStarts(s[..|s| - 1], r);
      assert s == s[..|s| - 1] + [s[|s| - 1]];
    }
  }

  lemma {:induction false} InsertedSorted(s: seq<Range>, r: Range)
    requires Sorted(s)
    ensures Sorted(Inserted(s, r))
  {
    if s == [] || s[|s| - 1].startAddr <= r.startAddr {
    } else {
      var last := s[|s| - 1];
      InsertedSorted(s[..|s| - 1], r);
      InsertedStarts(s[..|s| - 1], r);
      var t := Inserted(s[..|s| - 1], r);
      forall i | 0 <= i < |t|
        ensures t[i].startAddr <= last.startAddr
      {
        assert t[i] in t;
      }
    }
  }

  lemma {:induction false} NothingStartsAt(s: seq<Range>, k: nat)
    requires forall i :: 0 <= i < |s| ==> s[i].startAddr != k
    ensures StartingAt(s, k) == []
  {
    if s != [] {
      NothingStartsAt(s[..|s| - 1], k);
    }
  }

  lemma {:induction false} InsertedIsStable(s: seq<Range>, r: Range, k: nat)
    requires Sorted(s)
    ensures StartingAt(Inserted(s, r), k) == StartingAt(s, k) + if r.startAddr == k then [r] else []
  {
    if s == [] || s[|s| - 1].startAddr <= r.startAddr {
      StartingAtAppend(s, r, k);
    } else {
      var init, last := s[..|s| - 1], s[|s| - 1];
      InsertedIsStable(init, r, k);
      var tail := if last.startAddr == k then [last] else [];
      StartingAtAppend(Inserted(init, r), last, k);
      assert StartingAt(s, k) == StartingAt(init, k) + tail;
      assert r.startAddr == k ==> tail == [];
    }
  }

  /** Repeated insertion is the stable sort of everything inserted. */
  lemma {:induction false} InsertedAllIsStableSort(rs: seq<Range>)
    ensures StableSortOf(InsertedAll(rs), rs)
    ensures multiset(InsertedAll(rs)) == multiset(rs)
  {
    if rs != [] {
      var init, last := rs[..|rs| - 1], rs[|rs| - 1];
      InsertedAllIsStableSort(init);
      InsertedSorted(InsertedAll(init), last);
      InsertedStarts(InsertedAll(init), last);
      assert rs == init + [last];
      forall k: nat
        ensures StartingAt(InsertedAll(rs), k) == StartingAt(rs, k)
      {
        InsertedIsStable(InsertedAll(init), last, k);
      }
    }
  }

  /** There is only one stable sort, so the array contents are determined by the inputs. */
  lemma {:induction false} StableSortUnique(s: seq<Range>, t: seq<Range>)
    requires Sorted(s) && Sorted(t) && forall k: nat :: StartingAt(s, k) == StartingAt(t, k)
    ensures s == t
    decreases |s| + |t|
  {
    if s != [] && t != [] {
      var x, y := s[|s| - 1], t[|t| - 1];
      var s', t' := s[..|s| - 1], t[..|t| - 1];
      assert StartingAt(s, x.startAddr) == StartingAt(t, x.startAddr);
      assert StartingAt(s, y.startAddr) == StartingAt(t, y.startAddr);
      LastNotBelow(s, t);
      LastNotBelow(t, s);
      LastOfStart(s);
      LastOfStart(t);
      forall k: nat
        ensures StartingAt(s', k) == StartingAt(t', k)
      {
        assert StartingAt(s, k) == StartingAt(t, k);
        DropLast(s, k);
        DropLast(t, k);
      }
      StableSortUnique(s', t');
      assert s == s' + [x] && t == t' + [y];
    } else {
      if s == [] { EmptyStarts(s, t); } else { EmptyStarts(t, s); }
    }
  }

  lemma LastOfStart(s: seq<Range>)
    requires s != []
    ensures var f := StartingAt(s, s[|s| - 1].startAddr);
            f != [] && f[|f| - 1] == s[|s| - 1]
  {
  }

  lemma EmptyStarts(s: seq<Range>, t: seq<Range>)
    requires s == [] && forall k: nat :: StartingAt(s, k) == StartingAt(t, k)
    ensures t == []
  {
    if t != [] {
      LastOfStart(t);
      assert StartingAt(s, t[|t| - 1].startAddr) == [];
    }
  }

  lemma DropLast(s: seq<Range>, k: nat)
    requires s != []
    ensures var f := StartingAt(s, k);
            StartingAt(s[..|s| - 1], k) == if s[|s| - 1].startAddr == k then f[..|f| - 1] else f
  {
  }

  lemma LastNotBelow(s: seq<Range>, t: seq<Range>)
    requires Sorted(s) && s != [] && t != []
    requires StartingAt(s, t[|t| - 1].startAddr) == StartingAt(t, t[|t| - 1].startAddr)
    ensures s[|s| - 1].startAddr >= t[|t| - 1].startAddr
  {
    LastOfStart(t);
    if s[|s| - 1].startAddr < t[|t| - 1].startAddr {
      NothingStartsAt(s, t[|t| - 1].startAddr);
    }
  }

  // ------------------------------------------------------------ lookup

  predicate Contains(r: Range, addr: nat) {
    r.startAddr <= addr <= r.endAddr
  }

  function Mid(left: nat, right: int): (mid: nat)
    requires left <= right
    ensures left <= mid <= right && 2 * mid <= left + right <= 2 * mid + 1
  {
    (left + right) / 2
  }

  /** The binary search between two positions; None when it runs out of positions. */
  function Search(s: seq<Range>, left: nat, right: int, addr: nat): Option<nat>
    requires right < |s|
    decreases right - left
  {
    if left > right then None
    else
      var mid := Mid(left, right);
      if Contains(s[mid], addr) then Some(mid)
      else if addr < s[mid].startAddr then Search(s, left, mid - 1, addr)
      else Search(s, mid + 1, right, addr)
  }

  function Lookup(s: seq<Range>, addr: nat): Option<nat> {
    Search(s, 0, |s| - 1, addr)
  }

  /** The first range that contains the address. */
  function LinearScan(s: seq<Range>, addr: nat, from: nat): Option<nat>
    requires from <= |s|
    decreases |s| - from
  {
    if from == |s| then None else if Contains(s[from], addr) then Some(from) else LinearScan(s, addr, from + 1)
  }

  /** Range i contains the address but range j, behind it, starts in time and ends too early: a
      search that probes j turns away from i. */
  ghost predicate Hides(s: seq<Range>, j: nat, i: nat, addr: nat)
    requires i < |s| && j < |s|
  {
    i < j && Contains(s[i], addr) && s[j].startAddr <= addr && s[j].endAddr < addr
  }

  /** The positions a search looks at, in order. */
  function Probes(s: seq<Range>, left: nat, right: int, addr: nat): seq<nat>
    requires right < |s|
    decreases right - left
  {
    if left > right then []
    else
      var mid := Mid(left, right);
      if Contains(s[mid], addr) then [mid]
      else if addr < s[mid].startAddr then [mid] + Probes(s, left, mid - 1, addr)
      else [mid] + Probes(s, mid + 1, right, addr)
  }

  /** A search that has looked at `probed` goes on between left and right and will end with this
      result, having looked at these positions. */
  ghost predicate GoesOn(s: seq<Range>, left: nat, right: int, addr: nat, probed: seq<nat>,
                         result: Option<nat>, probes: seq<nat>)
    requires right < |s|
  {
    Search(s, left, right, addr) == result && probed + Probes(s, left, right, addr) == probes
  }

  /** One round of it. */
  lemma SearchRound(s: seq<Range>, left: nat, right: int, addr: nat, probed: seq<nat>,
                    result: Option<nat>, probes: seq<nat>)
    requires left <= right < |s| && GoesOn(s, left, right, addr, probed, result, probes)
    ensures var mid := Mid(left, right);
            if Contains(s[mid], addr) then result == Some(mid) && probes == probed + [mid]
            else if addr < s[mid].startAddr then GoesOn(s, left, mid - 1, addr, probed + [mid], result, probes)
            else GoesOn(s, mid + 1, right, addr, probed + [mid], result, probes)
  {
    var mid: nat := Mid(left, right);
    if !Contains(s[mid], addr) {
      var left', right' := if addr < s[mid].startAddr then left else mid + 1,
                           if addr < s[mid].startAddr then mid - 1 else right;
      var rest := Probes(s, left', right', addr);
      assert probed + ([mid] + rest) == probed + [mid] + rest;
    }
  }

  lemma SearchEnds(s: seq<Range>, left: nat, right: int, addr: nat, probed: seq<nat>,
                   result: Option<nat>, probes: seq<nat>)
    requires right < |s| && left > right && GoesOn(s, left, right, addr, probed, result, probes)
    ensures result == None && probes == probed
  {
  }

  /** Position j is a midpoint above position i when the stretch from left to right is halved
      until i is reached; the stored ranges have no part in it. */
  predicate Above(left: nat, right: int, j: nat, i: nat)
    decreases right - left
  {
    left <= right &&
    var mid := Mid(left, right);
    if i < mid then j == mid || Above(left, mid - 1, j, i)
    else if mid < i then j == mid || Above(mid + 1, right, j, i)
    else false
  }

  ghost predicate HiddenAbove(s: seq<Range>, left: nat, right: int, i: nat, addr: nat)
    requires i < |s|
  {
    exists j: nat :: Above(left, right, j, i) && j < |s| && Hides(s, j, i, addr)
  }

  /** Every range between the bounds that contains the address is hidden by a midpoint above it. */
  ghost predicate AllHidden(s: seq<Range>, left: nat, right: int, addr: nat)
    requires right < |s|
  {
    forall i :: left <= i <= right && Contains(s[i], addr) ==> HiddenAbove(s, left, right, i, addr)
  }

  /** One round: a midpoint that starts in time hides what lies in front of it, and every other
      containing range is hidden exactly if it is so in the half where the search goes on. */
  lemma HiddenRound(s: seq<Range>, left: nat, right: int, i: nat, addr: nat)
    requires Sorted(s) && left <= i <= right < |s|
    requires Contains(s[i], addr) && !Contains(s[Mid(left, right)], addr)
    ensures var mid := Mid(left, right);
            if addr < s[mid].startAddr then
              i < mid && (HiddenAbove(s, left, right, i, addr) <==> HiddenAbove(s, left, mid - 1, i, addr))
            else if i < mid then HiddenAbove(s, left, right, i, addr)
            else mid < i && (HiddenAbove(s, left, right, i, addr) <==> HiddenAbove(s, mid + 1, right, i, addr))
  {
    var mid := Mid(left, right);
    if addr >= s[mid].startAddr && i < mid {
      assert Above(left, right, mid, i) && Hides(s, mid, i, addr);
    } else {
      var left', right' := if i < mid then left else mid + 1, if i < mid then mid - 1 else right;
      assert forall j: nat :: Above(left, right, j, i) <==> j == mid || Above(left', right', j, i);
      assert !Hides(s, mid, i, addr);
    }
  }

  /** A search comes back empty exactly when every range between its bounds that contains the
      address is hidden by a midpoint above it; what it finds contains the address and is not
      hidden. */
  lemma {:induction false} SearchExact(s: seq<Range>, left: nat, right: int, addr: nat)
    requires Sorted(s) && right < |s|
    ensures Search(s, left, right, addr) == None <==> AllHidden(s, left, right, addr)
    ensures Search(s, left, right, addr).Some? ==>
              left <= Search(s, left, right, addr).value <= right &&
              Contains(s[Search(s, left, right, addr).value], addr) &&
              !HiddenAbove(s, left, right, Search(s, left, right, addr).value, addr)
    decreases right - left
  {
    if left <= right {
      var mid := Mid(left, right);
      if !Contains(s[mid], addr) {
        var left', right' := if addr < s[mid].startAddr then left else mid + 1,
                             if addr < s[mid].startAddr then mid - 1 else right;
        SearchExact(s, left', right', addr);
        AllHiddenRound(s, left, right, addr, left', right');
      } else {
        assert !HiddenAbove(s, left, right, mid, addr);
      }
    }
  }

  lemma AllHiddenRound(s: seq<Range>, left: nat, right: int, addr: nat, left': nat, right': int)
    requires Sorted(s) && left <= right < |s| && !Contains(s[Mid(left, right)], addr)
    requires if addr < s[Mid(left, right)].startAddr then left' == left && right' == Mid(left, right) - 1
             else left' == Mid(left, right) + 1 && right' == right
    ensures AllHidden(s, left, right, addr) <==> AllHidden(s, left', right', addr)
    ensures forall i :: left' <= i <= right' && Contains(s[i], addr) ==>
              (HiddenAbove(s, left, right, i, addr) <==> HiddenAbove(s, left', right', i, addr))
  {
    forall i | left <= i <= right && Contains(s[i], addr)
      ensures HiddenAbove(s, left, right, i, addr) <==>
              (left' <= i <= right' ==> HiddenAbove(s, left', right', i, addr))
    {
      HiddenRound(s, left, right, i, addr);
    }
  }

  /** A search for i that comes to j goes no further towards it: j contains the address itself, or
      the address lies on the other side of where j starts. */
  ghost predicate Stops(s: seq<Range>, j: nat, i: nat, addr: nat)
    requires j < |s|
  {
    Contains(s[j], addr) || (if i < j then s[j].startAddr <= addr else addr < s[j].startAddr)
  }

  /** Position i contains the address and no midpoint above it stops a search on the way. */
  ghost predicate Reached(s: seq<Range>, left: nat, right: int, i: nat, addr: nat)
    requires right < |s|
  {
    && left <= i <= right && Contains(s[i], addr)
    && forall j: nat :: j < |s| && Above(left, right, j, i) ==> !Stops(s, j, i, addr)
  }

  /** To be reached is not to be stopped at the first midpoint and to be reached in its half. */
  lemma ReachedRound(s: seq<Range>, left: nat, right: int, i: nat, addr: nat)
    requires left <= right < |s| && left <= i <= right && i != Mid(left, right)
    ensures Reached(s, left, right, i, addr)
       <==> && !Stops(s, Mid(left, right), i, addr)
            && if i < Mid(left, right) then Reached(s, left, Mid(left, right) - 1, i, addr)
               else Reached(s, Mid(left, right) + 1, right, i, addr)
  {
    var mid := Mid(left, right);
    var left', right' := if i < mid then left else mid + 1, if i < mid then mid - 1 else right;
    assert Above(left, right, mid, i);
    assert forall j: nat :: Above(left, right, j, i) <==> j == mid || Above(left', right', j, i);
  }

  lemma {:induction false} SearchReaches(s: seq<Range>, left: nat, right: int, addr: nat, i: nat)
    requires right < |s|
    ensures Search(s, left, right, addr) == Some(i) <==> Reached(s, left, right, i, addr)
    decreases right - left
  {
    FoundWithin(s, left, right, addr);
    if left <= i <= right {
      var mid := Mid(left, right);
      if i < mid {
        SearchReaches(s, left, mid - 1, addr, i);
        ReachedRound(s, left, right, i, addr);
        FoundWithin(s, mid + 1, right, addr);
      } else if mid < i {
        SearchReaches(s, mid + 1, right, addr, i);
        ReachedRound(s, left, right, i, addr);
        FoundWithin(s, left, mid - 1, addr);
      } else {
        MidReached(s, left, right, addr);
      }
    }
  }

  lemma MidReached(s: seq<Range>, left: nat, right: int, addr: nat)
    requires left <= right < |s|
    ensures var mid := Mid(left, right);
            && (Search(s, left, right, addr) == Some(mid) <==> Contains(s[mid], addr))
            && (Reached(s, left, right, mid, addr) <==> Contains(s[mid], addr))
  {
    FoundWithin(s, left, Mid(left, right) - 1, addr);
    FoundWithin(s, Mid(left, right) + 1, right, addr);
  }

  lemma {:induction false} FoundWithin(s: seq<Range>, left: nat, right: int, addr: nat)
    requires right < |s|
    ensures match Search(s, left, right, addr) case Some(k) => left <= k <= right case None => true
    decreases right - left
  {
    if left <= right && !Contains(s[Mid(left, right)], addr) {
      if addr < s[Mid(left, right)].startAddr {
        FoundWithin(s, left, Mid(left, right) - 1, addr);
      } else {
        FoundWithin(s, Mid(left, right) + 1, right, addr);
      }
    }
  }

  /** Which range a lookup returns, where several contain the address: the one that no midpoint
      above it stops the search from reaching. In any array, sorted or not. */
  lemma LookupReturns(s: seq<Range>, addr: nat, i: nat)
    ensures Lookup(s, addr) == Some(i)
       <==> && i < |s| && s[i].startAddr <= addr <= s[i].endAddr
            && forall j: nat :: j < |s| && Above(0, |s| - 1, j, i) ==>
                 !Contains(s[j], addr) && (if i < j then addr < s[j].startAddr else s[j].startAddr <= addr)
  {
    SearchReaches(s, 0, |s| - 1, addr, i);
  }

  /** Every position looked at is inside the array, and there are at most floor(log2 n) + 1. */
  lemma {:induction false} ProbesBound(s: seq<Range>, left: nat, right: int, addr: nat)
    requires right < |s|
    ensures forall j :: j in Probes(s, left, right, addr) ==> left <= j <= right
    ensures |Probes(s, left, right, addr)| > 0 ==> Pow2(|Probes(s, left, right, addr)| - 1) <= right - left + 1
    decreases right - left
  {
    if left <= right {
      var mid: int := Mid(left, right);
      if !Contains(s[mid], addr) {
        var left', right' := if addr < s[mid].startAddr then left else mid + 1,
                             if addr < s[mid].startAddr then mid - 1 else right;
        ProbesBound(s, left', right', addr);
        var later := Probes(s, left', right', addr);
        assert Probes(s, left, right, addr) == [mid] + later;
        if later != [] {
          HalfWidth(|later|, right' - left' + 1, right - left + 1);
        }
      }
    }
  }

  lemma HalfWidth(n: nat, inner: int, outer: int)
    requires n > 0 && Pow2(n - 1) <= inner && 2 * inner <= outer
    ensures Pow2(n) <= outer
  {
  }

  lemma {:induction false} LinearScanFinds(s: seq<Range>, addr: nat, from: nat)
    requires from <= |s|
    ensures match LinearScan(s, addr, from)
            case Some(k) => from <= k < |s| && Contains(s[k], addr)
            case None => forall i :: from <= i < |s| ==> !Contains(s[i], addr)
    decreases |s| - from
  {
    if from < |s| {
      LinearScanFinds(s, addr, from + 1);
    }
  }

  /** Unless the range that contains an address is hidden, binary search agrees with a linear scan
      on whether there is one. */
  lemma LookupAgreesUnlessHidden(s: seq<Range>, addr: nat)
    requires Sorted(s)
    requires forall i: nat, j: nat :: i < |s| && j < |s| ==> !Hides(s, j, i, addr)
    ensures Lookup(s, addr).Some? <==> LinearScan(s, addr, 0).Some?
    ensures Lookup(s, addr).Some? ==> Lookup(s, addr).value < |s| && Contains(s[Lookup(s, addr).value], addr)
  {
    SearchExact(s, 0, |s| - 1, addr);
    LinearScanFinds(s, addr, 0);
  }

  /** Nested ranges do go missing: 50 lies in the first of these three, which the second hides. */
  lemma NestedRangeMissed()
    ensures var s := InsertedAll([Range(0, 100, 1), Range(10, 20, 2), Range(30, 40, 3)]);
            Lookup(s, 50) == None && LinearScan(s, 50, 0) == Some(0)
  {
    var x, y, z := Range(0, 100, 1), Range(10, 20, 2), Range(30, 40, 3);
    assert [x, y, z][..2] == [x, y] && [x, y][..1] == [x] && [x][..0] == [];
    assert InsertedAll([x]) == [x];
    assert InsertedAll([x, y]) == [x, y];
    assert InsertedAll([x, y, z]) == [x, y, z];
  }

  // ------------------------------------------------------------ whole runs

  /** A smaller start never has a larger end, and equal starts have equal ends. */
  ghost predicate Compatible(rs: seq<Range>) {
    forall x, y :: x in rs && y in rs ==>
      (x.startAddr < y.startAddr ==> x.endAddr <= y.endAddr) &&
      (x.startAddr == y.startAddr ==> x.endAddr == y.endAddr)
  }

  lemma SameElements(rs: seq<Range>)
    ensures forall r :: r in InsertedAll(rs) <==> r in rs
  {
    InsertedAllIsStableSort(rs);
    forall r
      ensures r in InsertedAll(rs) <==> r in rs
    {
      assert r in InsertedAll(rs) <==> r in multiset(InsertedAll(rs));
      assert r in rs <==> r in multiset(rs);
    }
  }

  /** After any sequence of compatible insertions, lookup finds a stored range containing the
      address exactly when one was inserted. */
  lemma RunFindsContaining(rs: seq<Range>, addr: nat)
    requires Compatible(rs)
    ensures var s := InsertedAll(rs);
            match Lookup(s, addr)
            case Some(k) => k < |s| && Contains(s[k], addr) && s[k] in rs
            case None => forall r :: r in rs ==> !Contains(r, addr)
  {
    var s := InsertedAll(rs);
    InsertedAllIsStableSort(rs);
    SameElements(rs);
    forall i: nat, j: nat | i < |s| && j < |s|
      ensures !Hides(s, j, i, addr)
    {
      assert s[i] in rs && s[j] in rs;
    }
    LookupAgreesUnlessHidden(s, addr);
    LinearScanFinds(s, addr, 0);
  }

  /** After any sequence of insertions at all the cache holds exactly the ranges inserted, and lookup
      misses those that contain the address exactly when each of them, at its place in the stable
      sort, is hidden by a midpoint above it. */
  lemma RunMissesExactly(rs: seq<Range>, addr: nat)
    ensures var s := InsertedAll(rs);
            && StableSortOf(s, rs)
            && (forall r :: r in s <==> r in rs)
            && (Lookup(s, addr) == None <==> AllHidden(s, 0, |s| - 1, addr))
            && (Lookup(s, addr).Some? ==> Lookup(s, addr).value < |s| && s[Lookup(s, addr).value] in rs
                                          && Contains(s[Lookup(s, addr).value], addr))
  {
    var s := InsertedAll(rs);
    InsertedAllIsStableSort(rs);
    SameElements(rs);
    SearchExact(s, 0, |s| - 1, addr);
    match Lookup(s, addr)
    case Some(k) => assert s[k] in s;
    case None =>
  }

  /** With pairwise disjoint nonempty ranges the very range that contains the address is found. */
  lemma RunFindsTheRange(rs: seq<Range>, addr: nat, r: Range)
    requires r in rs && Contains(r, addr)
    requires forall x :: x in rs ==> x.startAddr <= x.endAddr
    requires forall x, y, a :: x in rs && y in rs && Contains(x, a) && Contains(y, a) ==> x == y
    ensures var s := InsertedAll(rs);
            Lookup(s, addr).Some? && Lookup(s, addr).value < |s| && s[Lookup(s, addr).value] == r
  {
    var s := InsertedAll(rs);
    InsertedAllIsStableSort(rs);
    SameElements(rs);
    forall i: nat, j: nat | i < |s| && j < |s|
      ensures !Hides(s, j, i, addr)
    {
      assert s[i] in rs && s[j] in rs;
      if Hides(s, j, i, addr) {
        assert Contains(s[i], s[j].startAddr) && Contains(s[j], s[j].startAddr);
      }
    }
    assert r in s;
    LookupAgreesUnlessHidden(s, addr);
    LinearScanFinds(s, addr, 0);
  }

  // ------------------------------------------------------------ the cache object

  const CACHE_SIZE: nat := 32
  const RANGE_SIZE: nat := 24

  /** The capacity after n insertions into an array that started with c places. */
  function CapacityAfter(c: nat, n: nat): nat {
    if n == 0 then c
    else
      var before := CapacityAfter(c, n - 1);
      if before == n - 1 then 2 * before else before
  }

  /** The elements that growing has copied after n insertions. */
  function CopiedAfter(c: nat, n: nat): nat {
    if n == 0 then 0
    else CopiedAfter(c, n - 1) + if CapacityAfter(c, n - 1) == n - 1 then n - 1 else 0
  }

  /** The arena bytes of the cache after n insertions: its struct and every array it ever had. */
  function BytesAfter(c: nat, n: nat): nat {
    if n == 0 then CACHE_SIZE + RANGE_SIZE * c
    else BytesAfter(c, n - 1) + if CapacityAfter(c, n - 1) == n - 1 then RANGE_SIZE * CapacityAfter(c, n) else 0
  }

  /** Amortised growth: n insertions copy fewer than 2n elements, the arena bytes follow from the
      capacity alone, and a grown array is more than half full. */
  lemma {:induction false} GrowthCost(c: nat, n: nat)
    requires c >= 1
    ensures n <= CapacityAfter(c, n) && c <= CapacityAfter(c, n)
    ensures CopiedAfter(c, n) == CapacityAfter(c, n) - c
    ensures n >= 1 ==> CopiedAfter(c, n) < 2 * n
    ensures CapacityAfter(c, n) > c ==> CapacityAfter(c, n) < 2 * n
    ensures BytesAfter(c, n) == BytesUsed(c, CapacityAfter(c, n))
  {
    if n != 0 {
      GrowthCost(c, n - 1);
    }
  }

  /** Arena bytes of a cache that started with room for `initial` ranges and now has `capacity`:
      its own struct, and every array it ever had. */
  function BytesUsed(initial: nat, capacity: nat): int {
    CACHE_SIZE + RANGE_SIZE * (2 * capacity - initial)
  }

  class Cache {
    const arena: Arena
    var ranges: array<Range>
    var size: nat
    var capacity: nat
    ghost const initial: nat
    ghost var copied: nat
    ghost var bytes: nat

    /** The array holds `size` ranges, and capacity, copying and arena use are those of that many
        insertions. */
    ghost predicate Valid()
      reads this
    {
      && ranges.Length == capacity && size <= capacity
      && 1 <= initial && RANGE_SIZE * capacity <= LARGE / 2
      && capacity == CapacityAfter(initial, size)
      && copied == CopiedAfter(initial, size)
      && bytes == BytesAfter(initial, size)
    }

    ghost function Contents(): seq<Range>
      requires Valid()
      reads this, ranges
    {
      ranges[..size]
    }

    constructor (arena: Arena, ranges: array<Range>)
      requires 1 <= ranges.Length && RANGE_SIZE * ranges.Length <= LARGE / 2
      ensures Valid() && Contents() == [] && this.arena == arena && this.ranges == ranges
      ensures initial == capacity == ranges.Length
    {
      this.arena, this.ranges, size, capacity := arena, ranges, 0, ranges.Length;
      initial, copied, bytes := ranges.Length, 0, BytesAfter(ranges.Length, 0);
    }

    /** `arc_create`; null when the arena has no room. */
    static method Create(arena: Arena, initialCap: nat) returns (cache: Cache?)
      requires arena.Valid() && 1 <= initialCap && RANGE_SIZE * initialCap <= LARGE / 2
      modifies arena
      ensures arena.Valid()
      ensures cache != null <==> old(arena.offset) + CACHE_SIZE + RANGE_SIZE * initialCap <= arena.capacity
      ensures cache != null ==> && fresh(cache) && fresh(cache.ranges) && cache.Valid() && cache.Contents() == []
                                && cache.arena == arena && cache.capacity == cache.initial == initialCap
                                && arena.offset == old(arena.offset) + cache.bytes
    {
      cache := null;
      AllocateWholeWords(arena.Value(), 4);
      var ok, addr := arena.Alloc(8 * 4);
      if ok {
        AllocateWholeWords(arena.Value(), 3 * initialCap);
        ok, addr := arena.Alloc(8 * (3 * initialCap));
        if ok {
          var ranges := new Range[initialCap];
          cache := new Cache(arena, ranges);
        }
      }
    }

    /** Doubles the array when it is full; false when the arena has no room for the new one. */
    method Grow() returns (ok: bool)
      requires Valid() && arena.Valid() && size == capacity
      modifies this, arena
      ensures arena.Valid() && ranges.Length == capacity && size == old(size)
      ensures ok <==> old(arena.offset) + RANGE_SIZE * 2 * old(capacity) <= arena.capacity
      ensures ok ==> && fresh(ranges) && capacity == 2 * old(capacity) && ranges[..size] == old(Contents())
                     && RANGE_SIZE * capacity <= LARGE / 2
                     && copied == old(copied) + size && bytes == old(bytes) + RANGE_SIZE * capacity
                     && arena.offset == old(arena.offset) + (bytes - old(bytes))
      ensures !ok ==> Valid() && ranges == old(ranges) && capacity == old(capacity) && bytes == old(bytes)
                      && arena.offset == old(arena.offset)
    {
      var newCapacity := capacity * 2;
      AllocateWholeWords(arena.Value(), 3 * newCapacity);
      var addr;
      ok, addr := arena.Alloc(8 * (3 * newCapacity));
      if ok {
        var newRanges := new Range[newCapacity];
        forall i | 0 <= i < size {
          newRanges[i] := ranges[i];
        }
        copied := copied + size;
        bytes := bytes + RANGE_SIZE * newCapacity;
        ranges, capacity := newRanges, newCapacity;
      }
    }

    /** `arc_insert`; false when growing fails. */
    method Insert(range: Range) returns (ok: bool)
      requires Valid() && arena.Valid()
      modifies this, ranges, arena
      ensures Valid() && arena.Valid() && (ranges == old(ranges) || fresh(ranges))
      ensures !ok <==> old(size) == old(capacity) && old(arena.offset) + RANGE_SIZE * 2 * old(capacity) > arena.capacity
      ensures Contents() == if ok then Inserted(old(Contents()), range) else old(Contents())
      ensures arena.offset == old(arena.offset) + (bytes - old(bytes))
      ensures !ok ==> arena.offset == old(arena.offset) && capacity == old(capacity)
    {
      ghost var s := Contents();
      GrowthCost(initial, size);
      if size == capacity {
        ok := Grow();
        if !ok {
          return;
        }
      }
      ranges[size] := range;
      size := size + 1;
      ok := true;
      Sift(s, range);
    }

    /** The swap loop: moves the last range down behind the last one that starts no later. */
    method Sift(ghost s: seq<Range>, ghost range: Range)
      requires |s| == size - 1 < ranges.Length && ranges[..size - 1] == s && ranges[size - 1] == range
      modifies ranges
      ensures ranges[..size] == Inserted(s, range)
    {
      var i := size - 1;
      while i > 0
        invariant 0 <= i <= |s|
        invariant ranges[..i] == s[..i] && ranges[i] == range && ranges[i + 1..size] == s[i..]
        invariant Inserted(s, range) == Inserted(s[..i], range) + s[i..]
      {
        assert ranges[i - 1] == ranges[..i][i - 1] == s[i - 1];
        if ranges[i].startAddr < ranges[i - 1].startAddr {
          SwapDown(s, i, range);
          Swap(i);
          assert ranges[..i - 1] == s[..i][..i - 1] == s[..i - 1];
          assert s[i - 1..] == [s[i - 1]] + s[i..];
        } else {
          break;
        }
        i := i - 1;
      }
      InsertedHere(s[..i], range);
      assert ranges[..size] == ranges[..i] + [ranges[i]] + ranges[i + 1..size];
    }

    lemma InsertedHere(s: seq<Range>, range: Range)
      requires s == [] || s[|s| - 1].startAddr <= range.startAddr
      ensures Inserted(s, range) == s + [range]
    {
    }

    method Swap(i: nat)
      requires 0 < i < size <= ranges.Length
      modifies ranges
      ensures ranges[..i - 1] == old(ranges[..i][..i - 1]) && ranges[i - 1] == old(ranges[i])
      ensures ranges[i..size] == [old(ranges[i - 1])] + old(ranges[i + 1..size])
    {
      var temp := ranges[i];
      ranges[i] := ranges[i - 1];
      ranges[i - 1] := temp;
    }

    lemma SwapDown(s: seq<Range>, i: nat, range: Range)
      requires 0 < i <= |s| && range.startAddr < s[i - 1].startAddr
      requires Inserted(s, range) == Inserted(s[..i], range) + s[i..]
      ensures Inserted(s, range) == Inserted(s[..i - 1], range) + s[i - 1..]
    {
      assert s[..i][..i - 1] == s[..i - 1];
      assert s[i - 1..] == [s[i - 1]] + s[i..];
    }

    /** Insertions one after the other, until one fails: the contents are the stable sort of the
        ranges inserted, and all growing together copied fewer than two ranges per insertion. */
    method InsertAll(rs: seq<Range>) returns (done: nat)
      requires Valid() && arena.Valid() && size == 0
      modifies this, ranges, arena
      ensures Valid() && arena.Valid()
      ensures done <= |rs| && Contents() == InsertedAll(rs[..done])
      ensures done < |rs| ==> size == capacity && arena.offset + RANGE_SIZE * 2 * capacity > arena.capacity
      ensures done >= 1 ==> copied < 2 * done
      ensures arena.offset == old(arena.offset) + RANGE_SIZE * 2 * (capacity - initial)
    {
      done := 0;
      var ok := true;
      assert old(bytes) == CACHE_SIZE + RANGE_SIZE * initial && rs[..0] == [];
      while done < |rs|
        invariant Valid() && arena.Valid() && (ranges == old(ranges) || fresh(ranges))
        invariant done <= |rs| && size == done && Contents() == InsertedAll(rs[..done])
        invariant arena.offset == old(arena.offset) + (bytes - old(bytes))
      {
        ok := Insert(rs[done]);
        if !ok {
          break;
        }
        assert rs[..done + 1][..done] == rs[..done];
        done := done + 1;
      }
      GrowthCost(initial, done);
      assert bytes == BytesUsed(initial, capacity);
    }

    /** `arc_lookup`: the position found, with the positions the loop probed. */
    method Find(addr: nat) returns (found: Option<nat>, ghost probes: seq<nat>)
      requires Valid() && size >= 1
      ensures found == Lookup(Contents(), addr)
      ensures forall i: nat :: found == Some(i) <==> i < size && Reached(Contents(), 0, size - 1, i, addr)
      ensures probes == Probes(Contents(), 0, size - 1, addr)
    {
      found, probes := SearchLoop(addr, Contents());
      forall i: nat
        ensures found == Some(i) <==> i < size && Reached(Contents(), 0, size - 1, i, addr)
      {
        SearchReaches(Contents(), 0, size - 1, addr, i);
      }
    }

    method SearchLoop(addr: nat, ghost s: seq<Range>) returns (found: Option<nat>, ghost probes: seq<nat>)
      requires 1 <= size <= ranges.Length && s == ranges[..size]
      ensures found == Lookup(s, addr) && probes == Probes(s, 0, size - 1, addr)
    {
      var left := 0;
      var right := size - 1;
      ghost var result, path := Lookup(s, addr), Probes(s, 0, size - 1, addr);
      probes := [];
      while left <= right
        invariant 0 <= left && 0 <= right < size
        invariant GoesOn(s, left, right, addr, probes, result, path)
        decreases right - left
      {
        var mid := (left + right) / 2;
        assert mid == Mid(left, right) && s[mid] == ranges[mid];
        SearchRound(s, left, right, addr, probes, result, path);
        probes := probes + [mid];
        if ranges[mid].startAddr <= addr && addr <= ranges[mid].endAddr {
          return Some(mid), probes;
        } else if addr < ranges[mid].startAddr {
          if mid == 0 {
            SearchEnds(s, left, -1, addr, probes, result, path);
            return None, probes;
          }
          right := mid - 1;
        } else {
          left := mid + 1;
        }
      }
      SearchEnds(s, left, right, addr, probes, result, path);
      found := None;
    }
  }
}
