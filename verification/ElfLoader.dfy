/**
 The copying program loader.  On success the new task's memory holds every PT_LOAD segment's bytes,
 no segment or stack page overwrites another, all pages are recorded in the task's address set and
 no memory of anybody else is touched.
 */
module ElfLoader {
  import opened Wrappers
  import opened IntervalMap
  import opened PhysicalMemory
  import opened UserVaddr
  import opened Ownership
  import opened PageTables
  import opened ElfImage

  /** What to write into a fresh page before it is mapped; stack pages are left as they are. */
  datatype Fill = FromFile(bytes: seq<Byte>, seg: Segment) | Zeroed | AsIs

  datatype LoadResult = Loaded | InvalidElf | OutOfMemory | Panic

  predicate FillOk(fill: Fill) {
    fill.FromFile? ==> InFile(fill.bytes, fill.seg)
  }

  function Content(fill: Fill, page: nat, was: FrameBytes): FrameBytes
    requires FillOk(fill)
  {
    match fill
    case FromFile(bytes, seg) => FilePage(bytes, seg, page)
    case Zeroed => Zeros(PAGE_SIZE)
    case AsIs => was
  }

  /** Mapped pages keep their frames and bytes. */
  ghost predicate Keeps(s: Space, ram: Ram, s': Space, ram': Ram) {
    forall p :: p in s.pages ==> p in s'.pages && s'.pages[p] == s.pages[p] && ram'(s.pages[p]) == ram(s.pages[p])
  }

  /** Only usable frames were taken, and only the bytes of those written. */
  ghost predicate OnlyUsable(ty: Types, ty': Types, ram: Ram, ram': Ram) {
    forall g: Frame {:trigger ty'(g)} {:trigger ram'(g)} ::
      && (ty(g) != Some(Usable) ==> ty'(g) == ty(g) && ram'(g) == ram(g))
      && (ty'(g) == Some(Usable) ==> ram'(g) == ram(g))
  }

  lemma OnlyUsableStep(ty: Types, ty1: Types, ty2: Types, ram: Ram, ram1: Ram, ram2: Ram)
    requires OnlyUsable(ty, ty1, ram, ram1) && OnlyUsable(ty1, ty2, ram1, ram2)
    ensures OnlyUsable(ty, ty2, ram, ram2)
  {
  }

  /** The page is mapped and its frame, which held what it holds in `ram`, was filled. */
  ghost predicate Filled(fill: Fill, s: Space, ram: Ram, ram': Ram, page: nat)
    requires FillOk(fill)
  {
    page in s.pages && ram'(s.pages[page]) == Content(fill, page, ram(s.pages[page]))
  }

  /** Allocate a frame, fill it and map it.  Nothing is undone on failure. */
  method InstallPage(phys: PhysicalMemory, ghost rest: Holding, ghost task: TaskId, s: Space, ram: Ram, page: nat,
                     fill: Fill)
    returns (s': Space, ram': Ram, f: Frame, ok: bool)
    requires Ledger(phys, rest, task, s, {}) && PagesOk(s) && page < USER_PAGES && FillOk(fill)
    modifies phys
    ensures phys.Valid()
    ensures ok ==> Ledger(phys, rest, task, s', {}) && PagesOk(s')
    ensures ok ==> s' == s.(tables := s'.tables, pages := s'.pages) && PutPage(s.pages, s'.pages, page, f)
    ensures !ok && page !in s.pages ==> Scarce(phys.types, 0)
    ensures ok ==> Keeps(s, ram, s', ram') && Filled(fill, s', ram, ram', page)
    ensures ok ==> old(phys.typeOf)(f) == Some(Usable) && OnlyUsable(old(phys.typeOf), phys.typeOf, ram, ram')
  {
    hide FilePage, PagesOk, Scarce, Owned, OnlyTables;
    ghost var ty1 := phys.typeOf;
    var frame := phys.AllocateFrame(UsedByUserMode);
    if frame.None? {
      NoneIsScarce(phys.types);
      return s, ram, 0, false;
    }
    f := frame.value;
    ghost var ty2 := phys.typeOf;
    var content := Content(fill, page, ram(f));
    ram' := Write(ram, f, content);
    Reserve(ty1, ty2, With(rest, task, s), {}, f, UsedByUserMode);
    assert {} + {f} == {f};
    NotMapped(With(rest, task, s), rest, task, s, f);
    s', ok := MapTo(phys, rest, task, s, page, f, {f});
    assert {f} - {f} == {};
    TakenFromUsable(ty1, ty2, phys.typeOf, s.tables, s'.tables, f, ram, ram');
  }

  lemma TakenFromUsable(ty: Types, ty1: Types, ty2: Types, tables: map<TableId, Frame>, tables': map<TableId, Frame>,
                        f: Frame, ram: Ram, ram': Ram)
    requires ty(f) == Some(Usable) && SetType(ty, ty1, f, UsedByUserMode) && OnlyTables(ty1, ty2, tables, tables')
    requires forall g: Frame :: g != f ==> ram'(g) == ram(g)
    ensures OnlyUsable(ty, ty2, ram, ram')
  {
    forall g: Frame | ty2(g) == Some(Usable) ensures g != f { assert ty1(g) == ty2(g); }
  }

  /** n pages from `first` on are new and filled; the others are as they were. */
  ghost predicate Installed(fill: Fill, s: Space, ram: Ram, s': Space, ram': Ram, first: nat, n: nat)
    requires FillOk(fill)
  {
    && Extended(s.pages, s'.pages, first, n) && Keeps(s, ram, s', ram')
    && forall p: nat :: InRange(first, n, p) ==> p !in s.pages && Filled(fill, s', ram, ram', p)
  }

  lemma InstalledNone(fill: Fill, s: Space, ram: Ram, first: nat, ty: Types)
    requires FillOk(fill)
    ensures Installed(fill, s, ram, s, ram, first, 0) && OnlyUsable(ty, ty, ram, ram) && WereUsable(ty, s, first, 0)
  {
  }

  lemma InstalledOneMore(fill: Fill, s: Space, s1: Space, s2: Space, ram: Ram, ram1: Ram, ram2: Ram, first: nat, i: nat,
                         f: Frame)
    requires FillOk(fill) && Installed(fill, s, ram, s1, ram1, first, i) && PutPage(s1.pages, s2.pages, first + i, f)
    requires Keeps(s1, ram1, s2, ram2) && Filled(fill, s2, ram1, ram2, first + i) && ram1(f) == ram(f)
    ensures Installed(fill, s, ram, s2, ram2, first, i + 1)
  {
    hide Content;
    ExtendedByOne(s.pages, s1.pages, s2.pages, first, i, f);
    forall p: nat | InRange(first, i + 1, p) ensures p !in s.pages && Filled(fill, s2, ram, ram2, p) {
      if p != first + i { assert InRange(first, i, p); }
    }
  }

  /** The frames of the range were usable. */
  ghost predicate WereUsable(ty: Types, s: Space, first: nat, n: nat) {
    forall p: nat :: InRange(first, n, p) ==> p in s.pages && ty(s.pages[p]) == Some(Usable)
  }

  lemma OneMoreWasUsable(ty: Types, s1: Space, s2: Space, first: nat, i: nat, f: Frame)
    requires WereUsable(ty, s1, first, i) && PutPage(s1.pages, s2.pages, first + i, f) && ty(f) == Some(Usable)
    ensures WereUsable(ty, s2, first, i + 1)
  {
    forall p: nat | InRange(first, i + 1, p) ensures p in s2.pages && ty(s2.pages[p]) == Some(Usable) {
      if p != first + i { assert InRange(first, i, p); }
    }
  }

  /** Some page of the range is already mapped. */
  ghost predicate Occupied(s: Space, first: nat, n: nat) {
    exists p: nat :: InRange(first, n, p) && p in s.pages
  }

  lemma WasOccupied(fill: Fill, s: Space, ram: Ram, s': Space, ram': Ram, first: nat, i: nat, n: nat)
    requires FillOk(fill) && Installed(fill, s, ram, s', ram', first, i) && i < n && first + i in s'.pages
    ensures Occupied(s, first, n)
  {
  }

  /** Install n consecutive pages; the address of a page past the user half cannot be computed. */
  method InstallPages(phys: PhysicalMemory, ghost rest: Holding, ghost task: TaskId, s: Space, ram: Ram, first: nat,
                      n: nat, fill: Fill)
    returns (s': Space, ram': Ram, r: LoadResult)
    requires Ledger(phys, rest, task, s, {}) && PagesOk(s) && first <= USER_PAGES && FillOk(fill)
    modifies phys
    ensures phys.Valid() && !r.InvalidElf?
    ensures r.Loaded? ==> Ledger(phys, rest, task, s', {}) && PagesOk(s') && first + n <= USER_PAGES
    ensures r.Loaded? ==> s' == s.(tables := s'.tables, pages := s'.pages)
    ensures r.Loaded? ==> Installed(fill, s, ram, s', ram', first, n)
    ensures r.Loaded? ==> OnlyUsable(old(phys.typeOf), phys.typeOf, ram, ram')
    ensures r.Loaded? ==> WereUsable(old(phys.typeOf), s', first, n)
    ensures r.OutOfMemory? ==> Scarce(phys.types, 0) || Occupied(s, first, n)
    ensures r.Panic? ==> USER_PAGES < first + n
  {
    hide PagesOk, Owned, PutPage, Installed, Keeps, Filled, OnlyUsable, WereUsable, Scarce, Occupied;
    s', ram' := s, ram;
    InstalledNone(fill, s, ram, first, phys.typeOf);
    for i := 0 to n
      invariant Ledger(phys, rest, task, s', {}) && PagesOk(s') && first + i <= USER_PAGES
      invariant s' == s.(tables := s'.tables, pages := s'.pages) && Installed(fill, s, ram, s', ram', first, i)
      invariant OnlyUsable(old(phys.typeOf), phys.typeOf, ram, ram') && WereUsable(old(phys.typeOf), s', first, i)
    {
      if first + i == USER_PAGES { return s', ram', Panic; }
      ghost var ty := phys.typeOf;
      var s1, ram1, f, done := InstallPage(phys, rest, task, s', ram', first + i, fill);
      if !done {
        if first + i in s'.pages { WasOccupied(fill, s, ram, s', ram', first, i, n); }
        return s1, ram1, OutOfMemory;
      }
      WasUntouched(old(phys.typeOf), ty, ram, ram', f);
      InstalledOneMore(fill, s, s', s1, ram, ram', ram1, first, i, f);
      OneMoreWasUsable(old(phys.typeOf), s', s1, first, i, f);
      OnlyUsableStep(old(phys.typeOf), ty, phys.typeOf, ram, ram', ram1);
      s', ram' := s1, ram1;
    }
    r := Loaded;
  }

  /** A frame that is usable holds what it held at the start. */
  lemma WasUntouched(ty: Types, ty': Types, ram: Ram, ram': Ram, f: Frame)
    requires OnlyUsable(ty, ty', ram, ram') && ty'(f) == Some(Usable)
    ensures ty(f) == Some(Usable) && ram'(f) == ram(f)
  {
    assert ty'(f) == ty'(f);
  }

  // --- Segments ---

  predicate StackPage(p: nat) {
    InRange(STACK_TOP / PAGE_SIZE - STACK_PAGES, STACK_PAGES, p)
  }

  /** The stack is the 64 KiB that end one page below the end of the user half. */
  lemma StackPlace(v: nat)
    ensures StackPage(v / PAGE_SIZE) <==> 0x7FFF_FFFE_F000 <= v < 0x7FFF_FFFF_F000
  {
  }

  /** Every byte of the segment's pages is the segment's byte there. */
  ghost predicate SegmentLoaded(s: Space, ram: Ram, bytes: seq<Byte>, seg: Segment)
    requires InFile(bytes, seg)
  {
    forall v: nat :: OnPages(seg, v) ==> ByteAt(s, ram, v) == Some(SegmentByte(bytes, seg, v))
  }

  lemma SegmentComplete(s: Space, ram: Ram, s1: Space, ram1: Ram, s2: Space, ram2: Ram, bytes: seq<Byte>, seg: Segment)
    requires InFile(bytes, seg)
    requires Installed(FromFile(bytes, seg), s, ram, s1, ram1, FirstPage(seg), FilePages(seg))
    requires Installed(Zeroed, s1, ram1, s2, ram2, FirstPage(seg) + FilePages(seg), ExtraPages(seg))
    ensures SegmentLoaded(s2, ram2, bytes, seg) && Keeps(s, ram, s2, ram2)
    ensures Extended(s.pages, s2.pages, FirstPage(seg), TotalPages(seg))
    ensures forall p: nat :: PageOf(seg, p) ==> p !in s.pages
  {
    hide Filled, FirstPage, FilePages, ExtraPages;
    var first, files, extra := FirstPage(seg), FilePages(seg), ExtraPages(seg);
    forall p: nat
      ensures InRange(first, files + extra, p) <==> InRange(first, files, p) || InRange(first + files, extra, p)
    {
    }
    forall v: nat | OnPages(seg, v) ensures ByteAt(s2, ram2, v) == Some(SegmentByte(bytes, seg, v)) {
      var page := v / PAGE_SIZE;
      if InRange(first, files, page) {
        FileByte(s1, ram, ram1, bytes, seg, v);
      } else {
        assert InRange(first + files, extra, page);
        ZeroByte(s2, ram1, ram2, bytes, seg, v);
      }
    }
  }

  lemma FileByte(s: Space, was: Ram, ram: Ram, bytes: seq<Byte>, seg: Segment, v: nat)
    requires InFile(bytes, seg) && Filled(FromFile(bytes, seg), s, was, ram, v / PAGE_SIZE)
    ensures ByteAt(s, ram, v) == Some(SegmentByte(bytes, seg, v))
  {
    FilePageIsRight(bytes, seg, v / PAGE_SIZE);
  }

  lemma ZeroByte(s: Space, was: Ram, ram: Ram, bytes: seq<Byte>, seg: Segment, v: nat)
    requires InFile(bytes, seg) && Filled(Zeroed, s, was, ram, v / PAGE_SIZE)
    requires FirstPage(seg) + FilePages(seg) <= v / PAGE_SIZE
    ensures ByteAt(s, ram, v) == Some(SegmentByte(bytes, seg, v))
  {
  }

  /** Record freshly mapped pages in the address set; they cannot overlap what is in it. */
  method Track(ghost was: Space, s: Space, first: nat, n: nat) returns (s': Space)
    requires AddrsOk(was) && s.addrs == was.addrs && Extended(was.pages, s.pages, first, n)
    requires forall p: nat :: InRange(first, n, p) ==> p !in was.pages
    ensures AddrsOk(s') && s' == s.(addrs := s'.addrs)
  {
    if n == 0 { return s; }
    var start, end := first * PAGE_SIZE, (first + n) * PAGE_SIZE - 1;
    RangeIsVacant(was, first, n);
    InsertRefines(s.addrs, start, end, Unit);
    s' := s.(addrs := Insert(s.addrs, start, end, Unit).value);
    AddrsAfterMap(was, s', first, n);
  }

  lemma RangeIsVacant(s: Space, first: nat, n: nat)
    requires AddrsOk(s) && forall p: nat :: InRange(first, n, p) ==> p !in s.pages
    ensures Vacant(s.addrs, first * PAGE_SIZE, (first + n) * PAGE_SIZE - 1)
  {
    forall x | first * PAGE_SIZE <= x <= (first + n) * PAGE_SIZE - 1 ensures Get(s.addrs, x) == None {
      assert InRange(first, n, x / PAGE_SIZE);
      assert !Allocated(s.addrs, x);
    }
  }

  lemma SameButAddrs(ty: Types, rest: Holding, task: TaskId, s: Space, s': Space)
    requires s' == s.(addrs := s'.addrs) && Owned(ty, With(rest, task, s), {}) && PagesOk(s)
    ensures Owned(ty, With(rest, task, s'), {}) && PagesOk(s')
  {
  }

  /** Neither bytes nor the pages they are on depend on the address set. */
  lemma BytesIgnoreAddrs(was: Space, ram0: Ram, s: Space, s': Space, ram: Ram, bytes: seq<Byte>, seg: Segment)
    requires s' == s.(addrs := s'.addrs) && InFile(bytes, seg)
    requires SegmentLoaded(s, ram, bytes, seg) && Keeps(was, ram0, s, ram)
    ensures SegmentLoaded(s', ram, bytes, seg) && Keeps(was, ram0, s', ram)
  {
  }

  lemma MoreOccupied(s: Space, first: nat, k: nat, n: nat)
    requires k <= n
    ensures Occupied(s, first, k) ==> Occupied(s, first, n)
  {
  }

  lemma StillOccupied(s: Space, ram: Ram, s1: Space, ram1: Ram, bytes: seq<Byte>, seg: Segment)
    requires InFile(bytes, seg) && Installed(FromFile(bytes, seg), s, ram, s1, ram1, FirstPage(seg), FilePages(seg))
    ensures Occupied(s1, FirstPage(seg) + FilePages(seg), ExtraPages(seg)) ==>
      Occupied(s, FirstPage(seg), TotalPages(seg))
  {
  }

  /** Load one segment: file pages, zero pages, and the address range. */
  method LoadSegment(phys: PhysicalMemory, ghost rest: Holding, ghost task: TaskId, s: Space, ram: Ram,
                     bytes: seq<Byte>, seg: Segment)
    returns (s': Space, ram': Ram, r: LoadResult)
    requires Ledger(phys, rest, task, s, {}) && PagesOk(s) && AddrsOk(s) && seg.vaddr < HIGHER_HALF_START
    modifies phys
    ensures phys.Valid()
    ensures r.InvalidElf? <==> !InFile(bytes, seg)
    ensures r.OutOfMemory? ==> Scarce(phys.types, 0) || Occupied(s, FirstPage(seg), TotalPages(seg))
    ensures r.Panic? ==> LeavesHalf(seg)
    ensures r.Loaded? ==> Ledger(phys, rest, task, s', {}) && PagesOk(s') && AddrsOk(s') && s'.l4 == s.l4
    ensures r.Loaded? ==> !LeavesHalf(seg)
    ensures r.Loaded? ==> SegmentLoaded(s', ram', bytes, seg) && Keeps(s, ram, s', ram')
    ensures r.Loaded? ==> Extended(s.pages, s'.pages, FirstPage(seg), TotalPages(seg))
    ensures r.Loaded? ==> forall p: nat :: PageOf(seg, p) ==> p !in s.pages
    ensures r.Loaded? ==> OnlyUsable(old(phys.typeOf), phys.typeOf, ram, ram')
  {
    hide PagesOk, Owned, Installed, OnlyUsable, Keeps, SegmentLoaded, AddrsOk, FilePages, ExtraPages, Scarce, Occupied,
         WereUsable;
    if !InFile(bytes, seg) { return s, ram, InvalidElf; }
    if LOWER_HALF_END < seg.vaddr { return s, ram, Panic; }
    var first, files, extra := FirstPage(seg), FilePages(seg), ExtraPages(seg);
    var s1, ram1, s2, ram2;
    s1, ram1, r := InstallPages(phys, rest, task, s, ram, first, files, FromFile(bytes, seg));
    if !r.Loaded? {
      MoreOccupied(s, first, files, files + extra);
      return s1, ram1, r;
    }
    if seg.filesz < seg.memsz && first + files == USER_PAGES { return s1, ram1, Panic; }
    ghost var ty := phys.typeOf;
    s2, ram2, r := InstallPages(phys, rest, task, s1, ram1, first + files, extra, Zeroed);
    if !r.Loaded? {
      StillOccupied(s, ram, s1, ram1, bytes, seg);
      return s2, ram2, r;
    }
    SegmentComplete(s, ram, s1, ram1, s2, ram2, bytes, seg);
    OnlyUsableStep(old(phys.typeOf), ty, phys.typeOf, ram, ram1, ram2);
    s' := Track(s, s2, first, files + extra);
    ram' := ram2;
    SameButAddrs(phys.typeOf, rest, task, s2, s');
    BytesIgnoreAddrs(s, ram, s2, s', ram2, bytes, seg);
  }

  // --- Programs ---

  /** The first k segments are in memory, each on pages of its own, and nothing else is mapped. */
  ghost predicate SegmentsLoaded(s: Space, ram: Ram, elf: Elf, k: nat)
    requires k <= |elf.segments|
  {
    && (forall i :: 0 <= i < k && elf.segments[i].load ==>
          InFile(elf.bytes, elf.segments[i]) && SegmentLoaded(s, ram, elf.bytes, elf.segments[i]))
    && (forall p: nat :: p in s.pages <==> InSegments(elf, k, p))
    && (forall i, j, p: nat :: 0 <= i < j < k && LoadsPage(elf.segments[i], p) ==> !LoadsPage(elf.segments[j], p))
  }

  ghost predicate InSegments(elf: Elf, k: nat, p: nat)
    requires k <= |elf.segments|
  {
    exists i :: 0 <= i < k && LoadsPage(elf.segments[i], p)
  }

  /** The whole program and its stack. */
  ghost predicate ProgramLoaded(s: Space, ram: Ram, elf: Elf) {
    && (forall i :: 0 <= i < |elf.segments| && elf.segments[i].load ==>
          InFile(elf.bytes, elf.segments[i]) && SegmentLoaded(s, ram, elf.bytes, elf.segments[i]))
    && (forall p: nat :: p in s.pages <==> InSegments(elf, |elf.segments|, p) || StackPage(p))
    && (forall i, j, p: nat :: 0 <= i < j < |elf.segments| && LoadsPage(elf.segments[i], p) ==>
          !LoadsPage(elf.segments[j], p))
    && (forall p: nat :: StackPage(p) ==> !InSegments(elf, |elf.segments|, p))
  }

  lemma LoadedStays(s: Space, ram: Ram, s': Space, ram': Ram, bytes: seq<Byte>, seg: Segment)
    requires InFile(bytes, seg) && SegmentLoaded(s, ram, bytes, seg) && Keeps(s, ram, s', ram')
    ensures SegmentLoaded(s', ram', bytes, seg)
  {
  }

  lemma OneMoreSegment(s: Space, ram: Ram, s': Space, ram': Ram, elf: Elf, k: nat)
    requires k < |elf.segments| && SegmentsLoaded(s, ram, elf, k) && elf.segments[k].load
    requires InFile(elf.bytes, elf.segments[k]) && SegmentLoaded(s', ram', elf.bytes, elf.segments[k])
    requires Keeps(s, ram, s', ram')
    requires Extended(s.pages, s'.pages, FirstPage(elf.segments[k]), TotalPages(elf.segments[k]))
    requires forall p: nat :: PageOf(elf.segments[k], p) ==> p !in s.pages
    ensures SegmentsLoaded(s', ram', elf, k + 1)
  {
    hide SegmentLoaded, Keeps, FirstPage, TotalPages;
    forall i | 0 <= i < k && elf.segments[i].load ensures SegmentLoaded(s', ram', elf.bytes, elf.segments[i]) {
      LoadedStays(s, ram, s', ram', elf.bytes, elf.segments[i]);
    }
    forall p: nat ensures p in s'.pages <==> InSegments(elf, k + 1, p) {
      assert p in s'.pages <==> p in s.pages || PageOf(elf.segments[k], p);
      if i :| 0 <= i < k + 1 && LoadsPage(elf.segments[i], p) {
        assert i < k ==> InSegments(elf, k, p);
      }
    }
    forall i, j, p: nat | 0 <= i < j < k + 1 && LoadsPage(elf.segments[i], p)
      ensures !LoadsPage(elf.segments[j], p)
    {
      assert InSegments(elf, j, p);
      if j == k { assert p in s.pages; }
    }
  }

  lemma SkippedSegment(s: Space, ram: Ram, elf: Elf, k: nat)
    requires k < |elf.segments| && SegmentsLoaded(s, ram, elf, k) && !elf.segments[k].load
    ensures SegmentsLoaded(s, ram, elf, k + 1)
  {
    hide SegmentLoaded, PageOf;
    forall p: nat ensures p in s.pages <==> InSegments(elf, k + 1, p) {
      assert InSegments(elf, k, p) <==> InSegments(elf, k + 1, p);
    }
  }

  lemma ProgramComplete(s: Space, ram: Ram, s1: Space, s': Space, ram': Ram, elf: Elf)
    requires SegmentsLoaded(s, ram, elf, |elf.segments|) && s' == s1.(addrs := s'.addrs)
    requires Installed(AsIs, s, ram, s1, ram', STACK_TOP / PAGE_SIZE - STACK_PAGES, STACK_PAGES)
    ensures ProgramLoaded(s', ram', elf)
  {
    hide SegmentLoaded, Filled, InSegments;
    forall i | 0 <= i < |elf.segments| && elf.segments[i].load
      ensures SegmentLoaded(s', ram', elf.bytes, elf.segments[i])
    {
      LoadedStays(s, ram, s', ram', elf.bytes, elf.segments[i]);
    }
    forall p: nat ensures p in s'.pages <==> InSegments(elf, |elf.segments|, p) || StackPage(p) {
      assert p in s1.pages <==> p in s.pages || StackPage(p);
    }
  }

  /** A fresh root frame makes an empty address space for a task that had none. */
  lemma NewSpace(ty: Types, ty': Types, rest: Holding, task: TaskId, f: Frame)
    requires Owned(ty, rest, {}) && ty(f) == Some(Usable) && SetType(ty, ty', f, UsedByUserMode)
    requires forall r: Slot :: !r.Shared? && r.task == task ==> rest(r) == None
    ensures Owned(ty', With(rest, task, Space([], map[], map[], f)), {})
  {
    var h := With(rest, task, Space([], map[], map[], f));
    Reserve(ty, ty', rest, {}, f, UsedByUserMode);
    assert {} + {f} == {f};
    Attach(ty', rest, h, {f}, Root(task), f);
    assert {f} - {f} == {};
  }

  /** Not a program, a segment outside the file, or no entry point. */
  ghost predicate Malformed(parsed: Option<Elf>) {
    parsed.None? || var elf := parsed.value;
    elf.entry == 0 ||
    exists i :: 0 <= i < |elf.segments| && elf.segments[i].load && !InFile(elf.bytes, elf.segments[i])
  }

  /** No loadable segment asks for an address of the kernel half. */
  predicate InModel(parsed: Option<Elf>) {
    parsed.Some? ==> forall i :: 0 <= i < |parsed.value.segments| && parsed.value.segments[i].load ==>
      parsed.value.segments[i].vaddr < HIGHER_HALF_START
  }

  /** Some loadable segment leaves the user half. */
  ghost predicate Misplaced(elf: Elf) {
    exists i :: 0 <= i < |elf.segments| && elf.segments[i].load && LeavesHalf(elf.segments[i])
  }

  /** The stack is not cleared: it reads what its frames held while they were usable. */
  ghost predicate StackAsFound(ty: Types, s: Space, ram: Ram, ram': Ram) {
    forall p: nat :: StackPage(p) ==>
      p in s.pages && ty(s.pages[p]) == Some(Usable) && ram'(s.pages[p]) == ram(s.pages[p])
  }

  /** Two segments share a page, or a segment has a page of the stack. */
  ghost predicate Overlapping(elf: Elf) {
    || (exists i, j, p: nat :: 0 <= i < j < |elf.segments| && elf.segments[i].load && elf.segments[j].load
          && PageOf(elf.segments[i], p) && PageOf(elf.segments[j], p))
    || (exists p: nat :: StackPage(p) && InSegments(elf, |elf.segments|, p))
  }

  lemma OccupiedMeansOverlap(s: Space, ram: Ram, elf: Elf, k: nat)
    requires k <= |elf.segments| && SegmentsLoaded(s, ram, elf, k)
    requires if k < |elf.segments|
             then elf.segments[k].load && Occupied(s, FirstPage(elf.segments[k]), TotalPages(elf.segments[k]))
             else Occupied(s, STACK_TOP / PAGE_SIZE - STACK_PAGES, STACK_PAGES)
    ensures Overlapping(elf)
  {
    hide FirstPage, TotalPages, SegmentLoaded;
    if k < |elf.segments| {
      var p: nat :| InRange(FirstPage(elf.segments[k]), TotalPages(elf.segments[k]), p) && p in s.pages;
      assert InSegments(elf, k, p) && PageOf(elf.segments[k], p);
    } else {
      var p: nat :| InRange(STACK_TOP / PAGE_SIZE - STACK_PAGES, STACK_PAGES, p) && p in s.pages;
      assert InSegments(elf, k, p) && StackPage(p);
    }
  }

  /** Build a task's memory from a parsed program. */
  method LoadElf(phys: PhysicalMemory, ghost rest: Holding, ghost task: TaskId, parsed: Option<Elf>, ram: Ram)
    returns (r: LoadResult, s: Space, ram': Ram)
    requires phys.Valid() && Owned(phys.typeOf, rest, {})
    requires forall slot: Slot :: !slot.Shared? && slot.task == task ==> rest(slot) == None
    requires InModel(parsed)
    modifies phys
    ensures phys.Valid()
    ensures r.Loaded? ==> parsed.Some? && ProgramLoaded(s, ram', parsed.value)
    ensures r.Loaded? ==> Ledger(phys, rest, task, s, {}) && PagesOk(s) && AddrsOk(s)
    ensures r.Loaded? ==> OnlyUsable(old(phys.typeOf), phys.typeOf, ram, ram')
    ensures r.Loaded? ==> StackAsFound(old(phys.typeOf), s, ram, ram')
    ensures r.InvalidElf? ==> Malformed(parsed)
    ensures r.OutOfMemory? ==> Scarce(phys.types, 0) || (parsed.Some? && Overlapping(parsed.value))
    ensures r.Panic? ==> Scarce(phys.types, 0) || (parsed.Some? && Misplaced(parsed.value))
    ensures r.Loaded? ==> parsed.value.entry != 0 && !Misplaced(parsed.value)
  {
    hide Owned, OnlyUsable, Keeps, SegmentLoaded, SegmentsLoaded, ProgramLoaded, AddrsOk, PagesOk, Installed,
         LeavesHalf, StackAsFound, Scarce, Occupied, Overlapping;
    ram' := ram;
    s := Space([], map[], map[], 0);
    if parsed.None? { return InvalidElf, s, ram; }
    var elf := parsed.value;
    ghost var ty := phys.typeOf;
    var l4 := phys.AllocateFrame(UsedByUserMode);
    if l4.None? {
      NoneIsScarce(phys.types);
      return Panic, s, ram;
    }
    s := Space([], map[], map[], l4.value);
    NewSpace(ty, phys.typeOf, rest, task, l4.value);
    StartEmpty(ty, phys.typeOf, ram, elf, l4.value);
    for k := 0 to |elf.segments|
      invariant Ledger(phys, rest, task, s, {}) && PagesOk(s) && AddrsOk(s)
      invariant SegmentsLoaded(s, ram', elf, k) && OnlyUsable(ty, phys.typeOf, ram, ram')
      invariant forall i :: 0 <= i < k && elf.segments[i].load ==> !LeavesHalf(elf.segments[i])
    {
      if elf.segments[k].load {
        ghost var ty1 := phys.typeOf;
        var s1, ram1, r1 := LoadSegment(phys, rest, task, s, ram', elf.bytes, elf.segments[k]);
        if !r1.Loaded? {
          if r1.OutOfMemory? && !Scarce(phys.types, 0) { OccupiedMeansOverlap(s, ram', elf, k); }
          return r1, s1, ram1;
        }
        OneMoreSegment(s, ram', s1, ram1, elf, k);
        OnlyUsableStep(ty, ty1, phys.typeOf, ram, ram', ram1);
        s, ram' := s1, ram1;
      } else {
        SkippedSegment(s, ram', elf, k);
      }
    }
    if elf.entry == 0 { return InvalidElf, s, ram'; }
    r, s, ram' := LoadStack(phys, rest, task, s, ram', elf, ram, ty);
  }

  lemma StartEmpty(ty: Types, ty': Types, ram: Ram, elf: Elf, f: Frame)
    requires ty(f) == Some(Usable) && SetType(ty, ty', f, UsedByUserMode)
    ensures SegmentsLoaded(Space([], map[], map[], f), ram, elf, 0) && OnlyUsable(ty, ty', ram, ram)
    ensures AddrsOk(Space([], map[], map[], f)) && PagesOk(Space([], map[], map[], f))
  {
  }

  /** Sixteen stack pages below the last page of the user half. */
  method LoadStack(phys: PhysicalMemory, ghost rest: Holding, ghost task: TaskId, s: Space, ram: Ram, ghost elf: Elf,
                   ghost ram0: Ram, ghost ty0: Types)
    returns (r: LoadResult, s': Space, ram': Ram)
    requires Ledger(phys, rest, task, s, {}) && PagesOk(s) && AddrsOk(s)
    requires SegmentsLoaded(s, ram, elf, |elf.segments|) && OnlyUsable(ty0, phys.typeOf, ram0, ram)
    modifies phys
    ensures phys.Valid() && (r.Loaded? || r.OutOfMemory?)
    ensures r.OutOfMemory? ==> Scarce(phys.types, 0) || Overlapping(elf)
    ensures r.Loaded? ==> Ledger(phys, rest, task, s', {}) && PagesOk(s') && AddrsOk(s')
    ensures r.Loaded? ==> ProgramLoaded(s', ram', elf) && OnlyUsable(ty0, phys.typeOf, ram0, ram')
    ensures r.Loaded? ==> StackAsFound(ty0, s', ram0, ram')
  {
    hide Owned, OnlyUsable, WereUsable, SegmentsLoaded, ProgramLoaded, StackAsFound, AddrsOk, PagesOk, Scarce,
         Occupied, Overlapping;
    ghost var ty := phys.typeOf;
    var first := STACK_TOP / PAGE_SIZE - STACK_PAGES;
    var s1, ram1;
    s1, ram1, r := InstallPages(phys, rest, task, s, ram, first, STACK_PAGES, AsIs);
    if !r.Loaded? {
      if !Scarce(phys.types, 0) { OccupiedMeansOverlap(s, ram, elf, |elf.segments|); }
      return r, s1, ram1;
    }
    s' := Track(s, s1, first, STACK_PAGES);
    ram' := ram1;
    SameButAddrs(phys.typeOf, rest, task, s1, s');
    ProgramComplete(s, ram, s1, s', ram', elf);
    StackIsAsFound(ty0, ty, s, s1, s', ram0, ram, ram');
    OnlyUsableStep(ty0, ty, phys.typeOf, ram0, ram, ram1);
  }

  lemma StackIsAsFound(ty0: Types, ty: Types, s: Space, s1: Space, s': Space, ram0: Ram, ram: Ram, ram': Ram)
    requires Installed(AsIs, s, ram, s1, ram', STACK_TOP / PAGE_SIZE - STACK_PAGES, STACK_PAGES) && s'.pages == s1.pages
    requires WereUsable(ty, s1, STACK_TOP / PAGE_SIZE - STACK_PAGES, STACK_PAGES) && OnlyUsable(ty0, ty, ram0, ram)
    ensures StackAsFound(ty0, s', ram0, ram')
  {
    hide OnlyUsable;
    forall p: nat | StackPage(p)
      ensures p in s'.pages && ty0(s'.pages[p]) == Some(Usable) && ram'(s'.pages[p]) == ram0(s'.pages[p])
    {
      assert Filled(AsIs, s1, ram, ram', p);
      WasUntouched(ty0, ty, ram0, ram, s'.pages[p]);
    }
  }

  /** What a loaded segment shows its program: the file bytes and then zeros, provided the segment has
      file bytes, is empty or starts on a page boundary. */
  lemma ImageIsRight(s: Space, ram: Ram, elf: Elf, i: nat, k: nat)
    requires ProgramLoaded(s, ram, elf) && i < |elf.segments| && elf.segments[i].load
    requires var seg := elf.segments[i];
      (seg.filesz > 0 || seg.memsz == 0 || seg.vaddr % PAGE_SIZE == 0) && k < Max(seg.filesz, seg.memsz)
    ensures var seg := elf.segments[i];
      ByteAt(s, ram, seg.vaddr + k) == Some(if k < seg.filesz then elf.bytes[seg.offset + k] else 0)
  {
    hide PageOf, OnPages, ByteAt;
    var seg := elf.segments[i];
    CoverageIsExact(seg);
    assert OnPages(seg, seg.vaddr + k);
    assert SegmentLoaded(s, ram, elf.bytes, seg);
  }

  /** Otherwise the last bytes of a zero-only segment are missing, unless another segment or the stack
      happens to lie there. */
  lemma TailIsMissing(s: Space, ram: Ram, elf: Elf, i: nat)
    requires ProgramLoaded(s, ram, elf) && i < |elf.segments| && elf.segments[i].load
    requires var seg := elf.segments[i]; seg.filesz == 0 && seg.memsz > 0 && seg.vaddr % PAGE_SIZE != 0
    ensures var last := elf.segments[i].vaddr + elf.segments[i].memsz - 1;
      ByteAt(s, ram, last).Some? ==>
        || StackPage(last / PAGE_SIZE)
        || exists j :: 0 <= j < |elf.segments| && j != i && LoadsPage(elf.segments[j], last / PAGE_SIZE)
  {
    var seg := elf.segments[i];
    var last := seg.vaddr + seg.memsz - 1;
    assert !PageOf(seg, last / PAGE_SIZE) by {
      assert PageCount(seg.vaddr) == FirstPage(seg) + 1 && last / PAGE_SIZE + 1 == PageCount(seg.vaddr + seg.memsz);
    }
    if ByteAt(s, ram, last).Some? && !StackPage(last / PAGE_SIZE) {
      assert InSegments(elf, |elf.segments|, last / PAGE_SIZE);
    }
  }
}
