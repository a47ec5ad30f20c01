/** The bump arena of src/domain/arena.h: allocation, nested scratch arenas and reset, over
    64-bit offsets. `base` points to 8-byte words while `offset` counts bytes, so the block
    handed out at offset o starts at byte address base + 8 * o. */
module ArenaModel {
  import opened Bits

  datatype Option<+T> = None | Some(value: T)

  const WORD: nat := 8

  datatype Region = Region(base: nat, offset: nat, capacity: nat)

  /** The offset is inside, and the word-scaled extent stays below 2^64. */
  ghost predicate RegionFits(r: Region) {
    r.offset <= r.capacity && r.base + 8 * r.capacity < W64
  }

  ghost predicate RegionOk(r: Region) {
    RegionFits(r) && r.offset % WORD == 0
  }

  /** The byte address of the next block. */
  function Top(r: Region): nat {
    Wrap(r.base + 8 * r.offset)
  }

  /** The bound check and the bump shared by both operations; None is the failing assert. */
  function Bump(r: Region, amount: nat): Option<Region> {
    if Wrap(r.offset + amount) <= r.capacity then Some(r.(offset := Wrap(r.offset + amount))) else None
  }

  datatype Grant = Refused | Granted(addr: nat, region: Region)

  /** `arena_alloc`. */
  function Allocate(r: Region, size: nat): Grant {
    match Bump(r, AlignUp(size, WORD))
    case None => Refused
    case Some(r') => Granted(Top(r), r')
  }

  datatype Carve = NoRoom | Carved(child: Region, region: Region)

  /** `arena_scratch`, with pages of `page` bytes. */
  function Scratch(r: Region, size: nat, page: nat): Carve
    requires 0 < page < W64
  {
    var tempCapacity := AlignUp(size, page);
    match Bump(r, tempCapacity)
    case None => NoRoom
    case Some(r') => Carved(Region(Top(r), 0, tempCapacity), r')
  }

  ghost predicate IsPage(page: nat) {
    exists k :: 3 <= k < 64 && page == Pow2(k)
  }

  // ------------------------------------------------ when the arithmetic can be trusted

  /** A request is answered honestly: it is refused, or the offset moves up by enough room
      for it (less than one unit more) and stays within the capacity. */
  ghost predicate HonestAnswer(r: Region, size: nat, unit: nat, answer: Option<Region>)
    requires unit > 0
  {
    answer.None? ||
    (&& answer.value.base == r.base && answer.value.capacity == r.capacity
     && answer.value.offset <= r.capacity
     && LeastMultiple(answer.value.offset - r.offset, size, unit))
  }

  lemma BumpExact(r: Region, size: nat, unit: nat, amount: nat)
    requires RegionOk(r) && 0 < unit < W64 && amount < W64
    requires LeastMultiple(amount, size, unit) || amount == 0 < size
    ensures HonestAnswer(r, size, unit, Bump(r, amount))
        <==> LeastMultiple(amount, size, unit) && r.offset + amount < W64
  {
    if r.offset + amount >= W64 {
      assert Wrap(r.offset + amount) == r.offset + amount - W64;
    } else if Bump(r, amount).Some? {
      assert Bump(r, amount).value.offset - r.offset == amount;
    }
  }

  lemma BumpKeeps(r: Region, amount: nat)
    requires RegionOk(r) && amount % WORD == 0 && r.offset + amount < W64
    requires Bump(r, amount).Some?
    ensures Bump(r, amount).value == r.(offset := r.offset + amount)
    ensures RegionOk(Bump(r, amount).value)
    ensures Top(r) == r.base + 8 * r.offset
  {
  }

  lemma Pow2Of3()
    ensures Pow2(3) == WORD
  {
  }

  lemma AlignWord(size: nat)
    requires size < W64
    ensures LeastMultiple(AlignUp(size, WORD), size, WORD) <==> size <= W64 - WORD
    ensures AlignUp(size, WORD) < W64 && AlignUp(size, WORD) % WORD == 0
    ensures size > W64 - WORD ==> AlignUp(size, WORD) == 0
  {
    Pow2Of3();
    AlignUpExact(size, 3);
  }

  /** `arena_alloc` is trustworthy exactly for requests that cannot wrap: above this size the
      alignment or the bound check overflows and a request is granted without the room. */
  lemma AllocateExact(r: Region, size: nat)
    requires RegionOk(r) && size < W64
    ensures HonestAnswer(r, size, WORD, Bump(r, AlignUp(size, WORD))) <==> size <= W64 - WORD - r.offset
  {
    AlignWord(size);
    BumpExact(r, size, WORD, AlignUp(size, WORD));
  }

  /** The same for `arena_scratch`, whose unit is the page. */
  lemma ScratchExact(r: Region, size: nat, page: nat)
    requires RegionOk(r) && size < W64 && IsPage(page)
    ensures 0 < page < W64
    ensures HonestAnswer(r, size, page, Bump(r, AlignUp(size, page)))
        <==> size <= W64 - page && r.offset + AlignUp(size, page) < W64
  {
    var k :| 3 <= k < 64 && page == Pow2(k);
    Pow2Below(k);
    AlignUpExact(size, k);
    BumpExact(r, size, page, AlignUp(size, page));
  }

  lemma PageIsWords(n: nat, k: nat)
    requires 3 <= k && n % Pow2(k) == 0
    ensures n % WORD == 0
  {
    Pow2Of3();
    Pow2Divides(3, k);
    MultipleOfMultiple(n, Pow2(k), WORD);
  }

  lemma MultipleOfMultiple(n: nat, p: nat, d: nat)
    requires p > 0 && d > 0 && n % p == 0 && p % d == 0
    ensures n % d == 0
  {
    var q, s := n / p, p / d;
    assert n == p * q && p == d * s;
    assert n == d * (s * q);
    DivModUnique(n, d, s * q, 0);
  }

  /** A trusted answer keeps the region well formed. */
  lemma AllocateKeeps(r: Region, size: nat)
    requires RegionOk(r) && size <= W64 - WORD - r.offset
    requires Allocate(r, size).Granted?
    ensures var g := Allocate(r, size);
            && RegionOk(g.region)
            && g.region.base == r.base && g.region.capacity == r.capacity
            && g.addr == r.base + 8 * r.offset
            && r.offset + size <= g.region.offset
  {
    var amount := AlignUp(size, WORD);
    AlignWord(size);
    AlignedFits(r.offset, size, amount);
    BumpKeeps(r, amount);
  }

  lemma AllocateKeepsIfSmall(r: Region, size: nat)
    ensures RegionOk(r) && size <= W64 - WORD - r.offset && Allocate(r, size).Granted? ==>
              RegionOk(Allocate(r, size).region)
  {
    if RegionOk(r) && size <= W64 - WORD - r.offset && Allocate(r, size).Granted? {
      AllocateKeeps(r, size);
    }
  }

  const LARGE: nat := 0x4000_0000_0000_0000

  /** The request does not wrap. */
  ghost predicate NoWrap(r: Region, size: nat) {
    size <= W64 - WORD && r.offset + AlignUp(size, WORD) < W64
  }

  lemma LargeDoesNotWrap(r: Region, size: nat)
    requires RegionFits(r) && size <= LARGE
    ensures NoWrap(r, size)
  {
    AlignWord(size);
  }

  /** Requests that do not wrap are granted exactly when their aligned size fits. */
  lemma AllocateFits(r: Region, size: nat)
    requires RegionFits(r) && NoWrap(r, size)
    ensures var amount := AlignUp(size, WORD);
            && LeastMultiple(amount, size, WORD)
            && Allocate(r, size) == (if r.offset + amount <= r.capacity
                                     then Granted(r.base + 8 * r.offset, r.(offset := r.offset + amount))
                                     else Refused)
  {
    AlignWord(size);
    BumpFits(r, AlignUp(size, WORD));
  }

  lemma BumpFits(r: Region, amount: nat)
    requires RegionFits(r) && r.offset + amount < W64
    ensures Bump(r, amount) == (if r.offset + amount <= r.capacity then Some(r.(offset := r.offset + amount)) else None)
    ensures Top(r) == r.base + 8 * r.offset
  {
  }

  /** What a request for a number of bytes takes, in units: nothing at all once rounding wraps. */
  function Rounded(size: nat, unit: nat): nat
    requires unit > 0
  {
    if size + unit <= 0x1_0000_0000_0000_0000 then RoundUp(size, unit) else 0
  }

  /** Where the offset goes; a sum past 2^64 comes back below the old offset and is granted. */
  function Taken(r: Region, amount: nat): Option<nat> {
    if r.offset + amount >= 0x1_0000_0000_0000_0000 then Some(r.offset + amount - 0x1_0000_0000_0000_0000)
    else if r.offset + amount <= r.capacity then Some(r.offset + amount)
    else None
  }

  lemma BumpTakes(r: Region, amount: nat)
    requires RegionFits(r) && amount < W64
    ensures Bump(r, amount) == (if Taken(r, amount).Some? then Some(r.(offset := Taken(r, amount).value)) else None)
    ensures Top(r) == r.base + 8 * r.offset
  {
  }

  /** The whole answer of `arena_alloc`, for every size of a 64-bit request. */
  lemma AllocateIs(r: Region, size: nat)
    requires RegionFits(r) && size < W64
    ensures match Taken(r, Rounded(size, 8))
            case Some(o) => Allocate(r, size) == Granted(r.base + 8 * r.offset, r.(offset := o))
            case None => Allocate(r, size) == Refused
  {
    AlignWord(size);
    RoundUpIsLeast(size, 8, AlignUp(size, 8));
    BumpTakes(r, AlignUp(size, 8));
  }

  /** Sizes of at most 2^62 take their rounded size or are refused. */
  lemma AllocateLarge(r: Region, size: nat)
    requires RegionFits(r) && size <= LARGE
    ensures Allocate(r, size) == (if r.offset + RoundUp(size, 8) <= r.capacity
                                  then Granted(r.base + 8 * r.offset, r.(offset := r.offset + RoundUp(size, 8)))
                                  else Refused)
  {
    AllocateIs(r, size);
    RoundUpIsLeast(size, 8, RoundUp(size, 8));
  }

  /** The whole answer of `arena_scratch`: the child is what the parent gives up. */
  lemma ScratchIs(r: Region, size: nat, page: nat)
    requires RegionFits(r) && size < W64 && IsPage(page) && 0 < page < W64
    ensures match Taken(r, Rounded(size, page))
            case Some(o) =>
              Scratch(r, size, page) ==
              Carved(Region(r.base + 8 * r.offset, 0, Rounded(size, page)), r.(offset := o))
            case None => Scratch(r, size, page) == NoRoom
  {
    var k :| 3 <= k < 64 && page == Pow2(k);
    AlignUpExact(size, k);
    RoundUpIsLeast(size, page, AlignUp(size, page));
    BumpTakes(r, AlignUp(size, page));
  }

  lemma AlignWholeWords(size: nat)
    requires size <= W64 - WORD && size % WORD == 0
    ensures AlignUp(size, WORD) == size
  {
    AlignWord(size);
    LeastMultipleIsLeast(AlignUp(size, WORD), size, WORD, size);
  }

  lemma AllocateWhole(r: Region, size: nat)
    requires RegionFits(r) && r.offset + size < W64 && AlignUp(size, WORD) == size
    ensures Allocate(r, size) == (if r.offset + size <= r.capacity
                                  then Granted(r.base + 8 * r.offset, r.(offset := r.offset + size))
                                  else Refused)
  {
    BumpFits(r, size);
  }

  lemma AllocateWholeWords(r: Region, words: nat)
    requires RegionFits(r) && 8 * words <= LARGE
    ensures Allocate(r, 8 * words) == (if r.offset + 8 * words <= r.capacity
                                       then Granted(r.base + 8 * r.offset, r.(offset := r.offset + 8 * words))
                                       else Refused)
  {
    AlignWholeWords(8 * words);
    AllocateWhole(r, 8 * words);
  }

  lemma AlignedFits(offset: nat, size: nat, amount: nat)
    requires offset % WORD == 0 && LeastMultiple(amount, size, WORD)
    requires size <= W64 - WORD - offset
    ensures offset + amount < W64
  {
  }

  lemma ScratchKeeps(r: Region, size: nat, page: nat)
    requires RegionOk(r) && IsPage(page) && 0 < page < W64
    requires size <= W64 - page && r.offset + AlignUp(size, page) < W64
    requires Scratch(r, size, page).Carved?
    ensures var c := Scratch(r, size, page);
            && RegionOk(c.region) && RegionOk(c.child)
            && c.region.base == r.base && c.region.capacity == r.capacity
            && c.child.base == r.base + 8 * r.offset
            && c.region.offset == r.offset + c.child.capacity
            && size <= c.child.capacity
  {
    var amount := AlignUp(size, page);
    PageAligned(size, page);
    BumpKeeps(r, amount);
    assert Scratch(r, size, page) == Carved(Region(Top(r), 0, amount), r.(offset := r.offset + amount));
  }

  lemma PageAligned(size: nat, page: nat)
    requires IsPage(page) && 0 < page < W64 && size <= W64 - page
    ensures AlignUp(size, page) % WORD == 0
    ensures size <= AlignUp(size, page) < size + page
  {
    var k :| 3 <= k < 64 && page == Pow2(k);
    AlignUpExact(size, k);
    PageIsWords(AlignUp(size, page), k);
  }

  // ------------------------------------------------------------ the arena object

  class Arena {
    const base: nat
    var offset: nat
    const capacity: nat

    function Value(): Region
      reads this
    {
      Region(base, offset, capacity)
    }

    ghost predicate Valid()
      reads this
    {
      RegionOk(Value())
    }

    /** `arena_create` once the mapping exists: `base` is where it landed. */
    constructor (base: nat, capacity: nat, page: nat)
      requires IsPage(page) && 0 < page < W64 && capacity <= W64 - page
      requires base + 8 * AlignUp(capacity, page) < W64
      ensures Valid()
      ensures Value() == Region(base, 0, AlignUp(capacity, page))
      ensures capacity <= this.capacity < capacity + page
    {
      PageAligned(capacity, page);
      this.base, offset, this.capacity := base, 0, AlignUp(capacity, page);
    }

    /** A view of a region that already exists, as the struct `arena_scratch` returns. */
    constructor View(r: Region)
      ensures Value() == r
    {
      base, offset, capacity := r.base, r.offset, r.capacity;
    }

    method Alloc(size: nat) returns (ok: bool, addr: nat)
      modifies this
      ensures ok == Allocate(old(Value()), size).Granted?
      ensures ok ==> Value() == Allocate(old(Value()), size).region && addr == Allocate(old(Value()), size).addr
      ensures !ok ==> Value() == old(Value())
      ensures old(Valid()) && size <= W64 - WORD - old(offset) ==> Valid()
    {
      var alignedSize := AlignUp(size, WORD);
      addr := 0;
      ok := Wrap(offset + alignedSize) <= capacity;
      if ok {
        AllocateKeepsIfSmall(old(Value()), size);
        addr := Wrap(base + 8 * offset);
        offset := Wrap(offset + alignedSize);
      }
    }

    method CarveScratch(size: nat, page: nat) returns (ok: bool, temp: Arena)
      requires 0 < page < W64
      modifies this
      ensures fresh(temp)
      ensures ok == Scratch(old(Value()), size, page).Carved?
      ensures ok ==> var c := Scratch(old(Value()), size, page);
                     Value() == c.region && temp.Value() == c.child
      ensures !ok ==> Value() == old(Value())
    {
      var tempCapacity := AlignUp(size, page);
      temp := new Arena.View(Region(Wrap(base + 8 * offset), 0, tempCapacity));
      ok := Wrap(offset + tempCapacity) <= capacity;
      if ok {
        offset := Wrap(offset + tempCapacity);
      }
    }

    method Reset()
      modifies this
      ensures Value() == old(Value()).(offset := 0)
      ensures old(Valid()) ==> Valid()
    {
      offset := 0;
    }
  }
}
