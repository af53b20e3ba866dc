/**
 Virtual-address allocation over a set of disjoint address intervals: first fit by whole pages,
 release, and the range check behind user-pointer validation.
 */
module UserVaddr {
  import opened Wrappers
  import opened IntervalMap
  import opened PhysicalMemory

  datatype Unit = Unit

  type AddressSet = IMap<Unit>

  const USER_MIN: nat := 0x1000
  const USER_MAX: nat := 0x7FFF_FFFF_FFFF
  const HIGHER_HALF_START: nat := 0xFFFF_8000_0000_0000
  const U64_MAX: nat := 0xFFFF_FFFF_FFFF_FFFF

  predicate Allocated(s: AddressSet, x: int) {
    Get(s, x).Some?
  }

  /** n pages from `a` on are page-aligned, inside lo..=hi and free. */
  ghost predicate Fits(s: AddressSet, lo: nat, hi: nat, n: nat, a: nat) {
    a % PAGE_SIZE == 0 && lo <= a && a + n * PAGE_SIZE - 1 <= hi && Vacant(s, a, a + n * PAGE_SIZE - 1)
  }

  /** s' is s with the n pages at `a` added, and nothing else changed. */
  ghost predicate Added(s: AddressSet, s': AddressSet, a: nat, n: nat) {
    Canonical(s') && forall x: int :: Allocated(s', x) <==> Allocated(s, x) || a <= x < a + n * PAGE_SIZE
  }

  /** s' is s with the bytes of [a, a+size) removed, and nothing else changed. */
  ghost predicate Removed(s: AddressSet, s': AddressSet, a: nat, size: nat) {
    Canonical(s') && forall x: int :: Allocated(s', x) <==> Allocated(s, x) && !(a <= x < a + size)
  }

  /** Address sets are determined by their members. */
  lemma SameMembersSameSet(s: AddressSet, s': AddressSet)
    requires Canonical(s) && Canonical(s') && forall x: int :: Allocated(s, x) <==> Allocated(s', x)
    ensures s == s'
  {
    forall x: int ensures Get(s, x) == Get(s', x) {
      assert Allocated(s, x) <==> Allocated(s', x);
      if Allocated(s, x) { assert Get(s, x).value.Unit? && Get(s', x).value.Unit?; }
    }
    CanonicalIsUnique(s, s');
  }

  /** A whole-page run fits in a gap exactly when it fits at the gap's first aligned address. */
  method AllocateInRange(s: AddressSet, lo: nat, hi: nat, n: nat) returns (s': AddressSet, start: Option<nat>)
    requires Canonical(s) && 0 < n
    ensures start.Some? ==> Fits(s, lo, hi, n, start.value) && Added(s, s', start.value, n)
    ensures start.Some? ==> forall a: nat :: a < start.value ==> !Fits(s, lo, hi, n, a)
    ensures start.None? ==> s' == s && forall a: nat :: !Fits(s, lo, hi, n, a)
  {
    var total := n * PAGE_SIZE;
    var gaps := Gaps(s, lo, hi);
    GapsAreVacant(s, lo, hi);
    for k := 0 to |gaps|
      invariant forall i :: 0 <= i < k ==> gaps[i].hi < NextMultiple(gaps[i].lo) + total - 1
    {
      var alignedStart := NextMultiple(gaps[k].lo);
      var end := alignedStart + total - 1;
      if end <= gaps[k].hi {
        FitsInGap(s, lo, hi, n, k);
        NoEarlierFit(s, lo, hi, n, k);
        InsertRefines(s, alignedStart, end, Unit);
        s' := Insert(s, alignedStart, end, Unit).value;
        return s', Some(alignedStart);
      }
    }
    NoEarlierFit(s, lo, hi, n, |gaps|);
    return s, None;
  }

  lemma FitsInGap(s: AddressSet, lo: nat, hi: nat, n: nat, k: nat)
    requires Canonical(s) && 0 < n && k < |Gaps(s, lo, hi)|
    requires NextMultiple(Gaps(s, lo, hi)[k].lo) + n * PAGE_SIZE - 1 <= Gaps(s, lo, hi)[k].hi
    ensures Fits(s, lo, hi, n, NextMultiple(Gaps(s, lo, hi)[k].lo))
  {
    var g := Gaps(s, lo, hi)[k];
    GapsAreVacant(s, lo, hi);
    VacantIsApart(s, g.lo, g.hi);
  }

  /** If the first k gaps are too small, nothing fits below the first aligned address of gap k. */
  lemma NoEarlierFit(s: AddressSet, lo: nat, hi: nat, n: nat, k: nat)
    requires Canonical(s) && 0 < n && k <= |Gaps(s, lo, hi)|
    requires forall i :: 0 <= i < k ==>
      Gaps(s, lo, hi)[i].hi < NextMultiple(Gaps(s, lo, hi)[i].lo) + n * PAGE_SIZE - 1
    ensures forall a: nat :: Fits(s, lo, hi, n, a) ==>
      k < |Gaps(s, lo, hi)| && NextMultiple(Gaps(s, lo, hi)[k].lo) <= a
  {
    hide Gaps;
    GapsAreVacant(s, lo, hi);
    forall a: nat | Fits(s, lo, hi, n, a)
      ensures k < |Gaps(s, lo, hi)| && NextMultiple(Gaps(s, lo, hi)[k].lo) <= a
    {
      VacantIsApart(s, a, a + n * PAGE_SIZE - 1);
      var i := VacantRunInGap(s, lo, hi, a, a + n * PAGE_SIZE - 1);
      assert NextMultiple(Gaps(s, lo, hi)[i].lo) <= a;
      assert k <= i;
    }
  }

  /** Allocate n user pages: the lowest place they fit, and failure only if they fit nowhere. */
  method AllocateUserPages(s: AddressSet, n: nat) returns (s': AddressSet, start: Option<nat>)
    requires Canonical(s) && 0 < n
    ensures start.Some? ==> Fits(s, USER_MIN, USER_MAX, n, start.value) && Added(s, s', start.value, n)
    ensures start.Some? ==> forall a: nat :: a < start.value ==> !Fits(s, USER_MIN, USER_MAX, n, a)
    ensures start.None? ==> s' == s && forall a: nat :: !Fits(s, USER_MIN, USER_MAX, n, a)
  {
    s', start := AllocateInRange(s, USER_MIN, USER_MAX, n);
  }

  // --- Range queries ---

  /** Some interval contains first..=last. */
  predicate InOneInterval(s: AddressSet, first: nat, last: nat) {
    exists i :: 0 <= i < |s| && s[i].lo <= first && last <= s[i].hi
  }

  /** The single-interval test is exact: it holds exactly when every address of the range is allocated. */
  lemma RangeTestIsExact(s: AddressSet, first: nat, last: nat)
    requires Canonical(s) && first <= last
    ensures InOneInterval(s, first, last) <==> forall x :: first <= x <= last ==> Allocated(s, x)
  {
    if i :| 0 <= i < |s| && s[i].lo <= first && last <= s[i].hi {
      forall x | first <= x <= last ensures Allocated(s, x) { GetIn(s, i, x); }
    } else if forall x :: first <= x <= last ==> Allocated(s, x) {
      forall x | first <= x <= last ensures Get(s, x) == Get(s, first) {
        assert Allocated(s, x) && Allocated(s, first);
        assert Get(s, x).value.Unit? && Get(s, first).value.Unit?;
      }
      assert Allocated(s, first);
      var i := RunInOneEntry(s, first, last);
    }
  }

  /** Release [addr, addr+size) if all of it is allocated; otherwise change nothing. */
  method FreeUserPages(s: AddressSet, addr: nat, size: nat) returns (s': AddressSet, ok: bool)
    requires Canonical(s) && 0 < size
    ensures ok <==> forall x :: addr <= x < addr + size ==> Allocated(s, x)
    ensures ok ==> Removed(s, s', addr, size)
    ensures !ok ==> s' == s
  {
    var last := addr + size - 1;
    RangeTestIsExact(s, addr, last);
    var covered := false;
    for k := 0 to |s|
      invariant covered <==> exists i :: 0 <= i < k && s[i].lo <= addr && last <= s[i].hi
    {
      covered := covered || (s[k].lo <= addr && last <= s[k].hi);
    }
    if !covered { return s, false; }
    CutRefines(s, addr, last);
    return Cut(s, addr, last), true;
  }

  /** What checking a user pointer comes to; the address type refuses addresses outside the two halves
      by a panic. */
  datatype Verdict = Accepted | Rejected | Panics

  /** Is [ptr, ptr+size) memory of a user task whose addresses are `s`?  None models a caller that is
      not a user task. */
  function ValidateUserPtr(task: Option<AddressSet>, ptr: nat, size: nat): Verdict {
    if ptr == 0 || size == 0 then Rejected
    else if ptr + size > U64_MAX then Rejected
    else if ptr < USER_MIN || ptr + size > USER_MAX + 1 then Rejected
    else if task.None? then Rejected
    else if !Canonicals(ptr) || !Canonicals(ptr + size) then Panics
    else if InOneInterval(task.value, ptr, ptr + size - 1) then Accepted else Rejected
  }

  /** The addresses the address type can hold. */
  predicate Canonicals(a: nat) {
    a <= USER_MAX || HIGHER_HALF_START <= a <= U64_MAX
  }

  /** The range is not empty and lies in user space. */
  predicate InUserSpace(ptr: nat, size: nat) {
    0 < size && USER_MIN <= ptr && ptr + size - 1 <= USER_MAX
  }

  /** For a user task the check panics exactly if the range reaches the very end of user space, allocated
      or not; any other range is accepted exactly if it is non-empty, in user space and wholly allocated. */
  lemma ValidationIsExact(s: AddressSet, ptr: nat, size: nat)
    requires Canonical(s)
    ensures ValidateUserPtr(Some(s), ptr, size).Panics? <==> InUserSpace(ptr, size) && ptr + size == USER_MAX + 1
    ensures ptr + size != USER_MAX + 1 ==>
      (ValidateUserPtr(Some(s), ptr, size).Accepted? <==>
        InUserSpace(ptr, size) && forall x :: ptr <= x < ptr + size ==> Allocated(s, x))
    ensures ValidateUserPtr(None, ptr, size).Rejected?
  {
    if 0 < size { RangeTestIsExact(s, ptr, ptr + size - 1); }
  }

  /** The last page of user space, even if it is allocated. */
  lemma LastPagePanics()
    ensures var s := [Entry(0x7FFF_FFFF_F000, USER_MAX, Unit)];
      && Canonical(s) && (forall x :: 0x7FFF_FFFF_F000 <= x < 0x7FFF_FFFF_F000 + PAGE_SIZE ==> Allocated(s, x))
      && ValidateUserPtr(Some(s), 0x7FFF_FFFF_F000, PAGE_SIZE).Panics?
  {
    var s := [Entry(0x7FFF_FFFF_F000, USER_MAX, Unit)];
    forall x | 0x7FFF_FFFF_F000 <= x < 0x7FFF_FFFF_F000 + PAGE_SIZE ensures Allocated(s, x) { GetIn(s, 0, x); }
  }

  // --- The kernel's allocator over any run ---

  datatype Block = Block(start: nat, pages: nat)

  predicate InBlock(b: Block, x: int) {
    b.start <= x < b.start + b.pages * PAGE_SIZE
  }

  ghost predicate Disjoint(live: set<Block>) {
    forall b, c, x {:trigger InBlock(b, x), InBlock(c, x)} ::
      b in live && c in live && InBlock(b, x) && InBlock(c, x) ==> b == c
  }

  /** The kernel-side allocator.  `live` is the set of blocks handed out and not yet released. */
  class VirtualMemoryAllocator {
    var taken: AddressSet
    ghost var live: set<Block>

    ghost predicate Valid()
      reads this
    {
      && Canonical(taken)
      && Disjoint(live)
      && (forall b, x :: b in live && InBlock(b, x) ==> Allocated(taken, x))
    }

    /** Start from the addresses occupied at boot. */
    constructor (occupied: AddressSet)
      requires Canonical(occupied)
      ensures Valid() && taken == occupied && live == {}
    {
      taken := occupied;
      live := {};
    }

    method AllocateContiguousPages(lo: nat, hi: nat, n: nat) returns (start: Option<nat>)
      requires Valid() && 0 < n
      modifies this
      ensures Valid()
      ensures start.Some? ==> Fits(old(taken), lo, hi, n, start.value) && Added(old(taken), taken, start.value, n)
      ensures start.Some? ==> forall a: nat :: a < start.value ==> !Fits(old(taken), lo, hi, n, a)
      ensures start.Some? ==> live == old(live) + {Block(start.value, n)}
      ensures start.None? ==> unchanged(this) && forall a: nat :: !Fits(taken, lo, hi, n, a)
    {
      var s;
      s, start := AllocateInRange(taken, lo, hi, n);
      if start.Some? {
        ghost var b := Block(start.value, n);
        forall c, x | c in live && InBlock(c, x) ensures !InBlock(b, x) {
          assert Allocated(taken, x);
        }
        taken := s;
        live := live + {b};
      }
    }

    method AllocateKernelPages(n: nat) returns (start: Option<nat>)
      requires Valid() && 0 < n
      modifies this
      ensures Valid()
      ensures start.Some? ==> Fits(old(taken), HIGHER_HALF_START, U64_MAX, n, start.value)
      ensures start.Some? ==> Added(old(taken), taken, start.value, n)
      ensures start.Some? ==> forall a: nat :: a < start.value ==> !Fits(old(taken), HIGHER_HALF_START, U64_MAX, n, a)
      ensures start.Some? ==> live == old(live) + {Block(start.value, n)}
      ensures start.None? ==> unchanged(this) && forall a: nat :: !Fits(taken, HIGHER_HALF_START, U64_MAX, n, a)
    {
      start := AllocateContiguousPages(HIGHER_HALF_START, U64_MAX, n);
    }

    /** Release any run of pages: the blocks it touches are no longer live, all others stay allocated. */
    method FreeKernelPages(start: nat, n: nat)
      requires Valid() && 0 < n
      modifies this
      ensures Valid() && Removed(old(taken), taken, start, n * PAGE_SIZE)
      ensures live == set b | b in old(live) && !Touches(b, Block(start, n))
      ensures Block(start, n) in old(live) ==> live == old(live) - {Block(start, n)}
    {
      var end := start + n * PAGE_SIZE - 1;
      CutRefines(taken, start, end);
      taken := Cut(taken, start, end);
      ghost var freed := Block(start, n);
      if freed in live { TouchesOnlyItself(live, freed); }
      live := set b | b in live && !Touches(b, freed);
      forall c, x | c in live && InBlock(c, x) ensures Allocated(taken, x) {
        assert !InBlock(freed, x);
      }
    }
  }

  ghost predicate Touches(b: Block, c: Block) {
    exists x {:trigger InBlock(b, x)} :: InBlock(b, x) && InBlock(c, x)
  }

  /** Of pairwise disjoint blocks, each touches only itself. */
  lemma TouchesOnlyItself(live: set<Block>, b: Block)
    requires Disjoint(live) && b in live && 0 < b.pages
    ensures (set c | c in live && !Touches(c, b)) == live - {b}
  {
    assert InBlock(b, b.start);
  }
}
