/**
 The loader of the first program, which runs out of the boot module's own frames.  While segments are
 mapped the module is cut out of the physical memory map, so no allocation can land in it; afterwards
 a loop gives every byte of the module that no segment refers to back as usable memory.
 */
module ModuleLoader {
  import opened Wrappers
  import opened IntervalMap
  import opened PhysicalMemory
  import opened ElfImage

  /** The boot module: its first byte and the last byte of its last page. */
  datatype Extent = Extent(lo: nat, hi: nat)

  function ModuleExtent(start: nat, size: nat): Extent
    requires 0 < size
  {
    Extent(start, NextMultiple(start + size) - 1)
  }

  /** The frames a segment's file bytes are on. */
  function FrameLo(start: nat, seg: Segment): nat { (start + seg.offset) / PAGE_SIZE * PAGE_SIZE }
  function FrameEnd(start: nat, seg: Segment): nat { FrameLo(start, seg) + FilePages(seg) * PAGE_SIZE }

  predicate RefersTo(start: nat, seg: Segment, x: int) {
    seg.load && FrameLo(start, seg) <= x < FrameEnd(start, seg)
  }

  ghost predicate Referenced(start: nat, segments: seq<Segment>, x: int) {
    exists i :: 0 <= i < |segments| && RefersTo(start, segments[i], x)
  }

  /** In a page-aligned module, a segment's frames hold its file bytes, and stay inside the module, exactly
      if the number of its pages, counted by address, suits the position of its bytes in the file. */
  lemma FramesSuitSegment(start: nat, size: nat, seg: Segment)
    requires start % PAGE_SIZE == 0 && seg.filesz > 0
    ensures start <= FrameLo(start, seg) <= start + seg.offset
    ensures start + seg.offset + seg.filesz <= FrameEnd(start, seg) <==>
      PageCount(seg.offset % PAGE_SIZE + seg.filesz) <= PageCount(seg.vaddr % PAGE_SIZE + seg.filesz)
    ensures FrameEnd(start, seg) <= NextMultiple(start + size) <==>
      seg.offset / PAGE_SIZE + PageCount(seg.vaddr % PAGE_SIZE + seg.filesz) <= PageCount(size)
  {
    PagesFrom(seg.vaddr, seg.filesz);
    PagesFrom(seg.offset, seg.filesz);
    ShiftedPages(start, seg.offset);
    ShiftedPages(start, size);
    var n := PageCount(seg.vaddr % PAGE_SIZE + seg.filesz);
    assert FrameEnd(start, seg) == start + (seg.offset / PAGE_SIZE + n) * PAGE_SIZE;
    EndOfPages(seg.offset, seg.filesz, n);
  }

  /** Congruent offset and address, which the System V ABI (chapter 5, Program Header) demands, are enough. */
  lemma CongruentSegmentSuits(start: nat, size: nat, seg: Segment)
    requires start % PAGE_SIZE == 0 && seg.filesz > 0 && seg.offset + seg.filesz <= size
    requires seg.offset % PAGE_SIZE == seg.vaddr % PAGE_SIZE
    ensures start + seg.offset + seg.filesz <= FrameEnd(start, seg) <= NextMultiple(start + size)
  {
    FramesSuitSegment(start, size, seg);
    PagesFrom(seg.offset, seg.filesz);
    assert PageCount(seg.offset + seg.filesz) <= PageCount(size);
  }

  /** Without that the loader takes a frame beyond the module: one page of file at address 1. */
  lemma StrayFrame()
    ensures var seg := Segment(true, 0, 1, PAGE_SIZE, PAGE_SIZE);
      InFile(Zeros(PAGE_SIZE), seg) && FrameEnd(0, seg) == NextMultiple(PAGE_SIZE) + PAGE_SIZE
  {
    assert NextMultiple(PAGE_SIZE) == PAGE_SIZE;
  }

  lemma PagesFrom(a: nat, n: nat)
    ensures PageCount(a + n) == a / PAGE_SIZE + PageCount(a % PAGE_SIZE + n)
  {
  }

  lemma EndOfPages(a: nat, n: nat, k: nat)
    ensures a + n <= (a / PAGE_SIZE + k) * PAGE_SIZE <==> PageCount(a % PAGE_SIZE + n) <= k
  {
  }

  lemma ShiftedPages(start: nat, a: nat)
    requires start % PAGE_SIZE == 0
    ensures (start + a) / PAGE_SIZE * PAGE_SIZE == start + a / PAGE_SIZE * PAGE_SIZE
    ensures NextMultiple(start + a) == start + PageCount(a) * PAGE_SIZE
  {
    assert start == start / PAGE_SIZE * PAGE_SIZE;
  }

  predicate InModule(m: Extent, x: int) { m.lo <= x <= m.hi }

  // --- The memory map during the load ---

  /** A load in progress: the map it started from, the module, what the rest of the module is in the map,
      and the segments whose frames have been claimed. */
  datatype Load = Load(was: TypeMap, m: Extent, hole: Option<MemoryType>, start: nat, segments: seq<Segment>)

  /** The type of a byte that was neither claimed for a segment nor allocated. */
  function Under(l: Load, x: int): Option<MemoryType> {
    if InModule(l.m, x) then l.hole else Get(l.was, x)
  }

  ghost predicate Claimed(l: Load, x: int) {
    Referenced(l.start, l.segments, x)
  }

  /** Frames referred to by segments and the frames in `taken` are user memory; every other byte of the
      module is `hole` and every other byte elsewhere is as it was. */
  ghost predicate Loading(l: Load, now: TypeMap, taken: set<Frame>) {
    && (forall x: int :: Get(now, x) == if Claimed(l, x) || Taken(taken, x) then Some(UsedByUserMode) else Under(l, x))
    && TakenOk(l, taken)
  }

  /** The frames allocated were usable, and none of them lies in a part of the module in use. */
  ghost predicate TakenOk(l: Load, taken: set<Frame>) {
    forall f: Frame, x: int :: f in taken && InFrame(f, x) ==>
      Under(l, x) == Some(Usable) && (InModule(l.m, x) ==> !Claimed(l, x))
  }

  /** An allocated frame is new, and lies in the module only once the rest of it is usable. */
  lemma AllocationMissesModule(l: Load, now: TypeMap, now': TypeMap, taken: set<Frame>, f: Frame)
    requires Loading(l, now, taken) && Spacious(now, f) && Retyped(now, now', f, UsedByUserMode)
    ensures f !in taken && Loading(l, now', taken + {f})
  {
    hide Claimed, Under;
    forall x: int | InFrame(f, x) ensures Under(l, x) == Some(Usable) && !Claimed(l, x) && !Taken(taken, x) {
      assert Get(now, x) == Some(Usable);
    }
    assert InFrame(f, Base(f));
    if f in taken { TakenFrame(taken, f); }
    forall x: int ensures Taken(taken + {f}, x) <==> Taken(taken, x) || InFrame(f, x) { }
  }

  /** Allocate a frame. */
  method TakeOne(phys: PhysicalMemory, ghost l: Load, ghost taken: set<Frame>) returns (f: Option<Frame>)
    requires phys.Valid() && Loading(l, phys.types, taken)
    modifies phys
    ensures phys.Valid()
    ensures f.Some? ==> f.value !in taken && Loading(l, phys.types, taken + {f.value})
    ensures f.None? ==> Scarce(phys.types, 0)
  {
    hide Loading, Scarce;
    ghost var now := phys.types;
    f := phys.AllocateFrame(UsedByUserMode);
    if f.None? {
      NoneIsScarce(phys.types);
    } else {
      AllocationMissesModule(l, now, phys.types, taken, f.value);
    }
  }

  /** Type a segment's file frames as user memory. */
  method ClaimFrames(phys: PhysicalMemory, ghost l: Load, start: nat, seg: Segment, ghost taken: set<Frame>)
    requires phys.Valid() && seg.load && l.hole.None? && l.start == start && Loading(l, phys.types, taken)
    modifies phys
    ensures phys.Valid() && Loading(WithSegment(l, seg), phys.types, taken)
  {
    hide Loading, FilePages;
    ghost var now := phys.types;
    if FilePages(seg) > 0 {
      var lo, end := FrameLo(start, seg), FrameEnd(start, seg);
      phys.CutRange(lo, end - 1);
      phys.InsertRange(lo, end - 1, UsedByUserMode);
    }
    SegmentClaimed(l, now, phys.types, seg, taken);
  }

  ghost function WithSegment(l: Load, seg: Segment): Load {
    l.(segments := l.segments + [seg])
  }

  lemma SegmentClaimed(l: Load, now: TypeMap, now': TypeMap, seg: Segment, taken: set<Frame>)
    requires Loading(l, now, taken) && l.hole.None?
    requires forall x: int :: Get(now', x) == if RefersTo(l.start, seg, x) then Some(UsedByUserMode) else Get(now, x)
    ensures Loading(WithSegment(l, seg), now', taken)
  {
    hide Referenced, RefersTo;
    forall x: int ensures Claimed(WithSegment(l, seg), x) <==> Claimed(l, x) || RefersTo(l.start, seg, x) {
      ReferencedOneMore(l.start, l.segments, seg, x);
    }
  }

  lemma ReferencedOneMore(start: nat, segments: seq<Segment>, seg: Segment, x: int)
    ensures Referenced(start, segments + [seg], x) <==> Referenced(start, segments, x) || RefersTo(start, seg, x)
  {
    hide RefersTo;
    var all := segments + [seg];
    if i :| 0 <= i < |segments| && RefersTo(start, segments[i], x) { assert all[i] == segments[i]; }
    if RefersTo(start, seg, x) { assert all[|segments|] == seg; }
  }

  lemma SkippedClaims(l: Load, now: TypeMap, seg: Segment, taken: set<Frame>)
    requires Loading(l, now, taken) && !seg.load
    ensures Loading(WithSegment(l, seg), now, taken)
  {
    hide Referenced;
    forall x: int ensures Claimed(WithSegment(l, seg), x) <==> Claimed(l, x) {
      ReferencedOneMore(l.start, l.segments, seg, x);
    }
  }

  /** Fill the gaps of the module, first gap first, until there is none. */
  method FillGaps(phys: PhysicalMemory, m: Extent, ghost l: Load, ghost taken: set<Frame>)
    requires phys.Valid() && m.lo <= m.hi && l.m == m && l.hole.None? && Loading(l, phys.types, taken)
    modifies phys
    ensures phys.Valid() && Loading(l.(hole := Some(Usable)), phys.types, taken)
  {
    hide Referenced;
    ghost var done := m.lo;
    ghost var before := phys.types;
    while Gaps(phys.types, m.lo, m.hi) != []
      invariant phys.Valid() && m.lo <= done <= m.hi + 1
      invariant forall x: int :: Get(phys.types, x) == if m.lo <= x < done && Get(before, x) == None then Some(Usable)
                                                       else Get(before, x)
      decreases m.hi + 1 - done
    {
      var gap := Gaps(phys.types, m.lo, m.hi)[0];
      FirstGap(phys.types, m, done);
      phys.InsertRange(gap.lo, gap.hi, Usable);
      done := gap.hi + 1;
    }
    NoGapNoHole(phys.types, m);
    HoleFilled(l, before, phys.types, taken);
  }

  lemma HoleFilled(l: Load, before: TypeMap, now: TypeMap, taken: set<Frame>)
    requires l.hole.None? && Loading(l, before, taken)
    requires forall x: int :: Get(now, x) == if InModule(l.m, x) && Get(before, x) == None then Some(Usable)
                                             else Get(before, x)
    ensures Loading(l.(hole := Some(Usable)), now, taken)
  {
    hide Referenced;
    var l' := l.(hole := Some(Usable));
    forall x: int ensures Claimed(l', x) <==> Claimed(l, x) { }
  }

  /** The first gap: everything before it is taken, it is vacant, and it starts past what is filled. */
  lemma FirstGap(types: TypeMap, m: Extent, done: nat)
    requires Canonical(types) && m.lo <= m.hi && Gaps(types, m.lo, m.hi) != []
    requires forall x: int :: m.lo <= x < done ==> Get(types, x).Some?
    ensures var g := Gaps(types, m.lo, m.hi)[0];
      && m.lo <= g.lo <= g.hi <= m.hi && done <= g.lo && Vacant(types, g.lo, g.hi)
      && forall x: int :: m.lo <= x < g.lo ==> Get(types, x).Some?
  {
    var g := Gaps(types, m.lo, m.hi)[0];
    GapsAreVacant(types, m.lo, m.hi);
    VacantIsApart(types, g.lo, g.hi);
    assert Get(types, g.lo) == None;
    forall x: int | m.lo <= x < g.lo ensures Get(types, x).Some? {
      if Get(types, x).None? {
        VacantIsApart(types, x, x);
        var i := VacantRunInGap(types, m.lo, m.hi, x, x);
      }
    }
  }

  lemma NoGapNoHole(types: TypeMap, m: Extent)
    requires Canonical(types) && m.lo <= m.hi && Gaps(types, m.lo, m.hi) == []
    ensures forall x: int :: m.lo <= x <= m.hi ==> Get(types, x).Some?
  {
    forall x: int | m.lo <= x <= m.hi ensures Get(types, x).Some? {
      if Get(types, x).None? {
        VacantIsApart(types, x, x);
        var i := VacantRunInGap(types, m.lo, m.hi, x, x);
      }
    }
  }

}
