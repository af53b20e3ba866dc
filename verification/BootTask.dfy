/**
 The first task: its pages are the boot module's own frames, its zero pages, page tables and stack are
 allocated.  Proved: which frames its pages map, when its memory fits into the accounting of the memory
 system, and what it reads.
 */
module BootTask {
  import opened Wrappers
  import opened IntervalMap
  import opened PhysicalMemory
  import opened UserVaddr
  import opened Ownership
  import opened PageTables
  import opened ElfImage
  import opened ElfLoader
  import opened ModuleLoader

  // --- The task's own frames ---

  /** What the task holds apart from the module: `own` are the pages with allocated frames. */
  ghost function Slots(task: TaskId, s: Space, own: map<nat, Frame>): Holding {
    With((r: Slot) => None, task, s.(pages := own))
  }

  /** Each frame of `taken` is in exactly one slot of the task's own, and no other frame is. */
  ghost predicate Books(task: TaskId, s: Space, own: map<nat, Frame>, taken: set<Frame>) {
    var h := Slots(task, s, own);
    && (forall r: Slot :: h(r).Some? ==> h(r).value in taken)
    && (forall f: Frame :: f in taken ==> Held(h, f))
    && (forall r: Slot, q: Slot :: h(r).Some? && h(r) == h(q) ==> r == q)
  }

  /** Putting a new frame into an empty slot. */
  lemma Book(task: TaskId, s: Space, own: map<nat, Frame>, taken: set<Frame>, s': Space, own': map<nat, Frame>, r: Slot,
             f: Frame)
    requires Books(task, s, own, taken) && f !in taken
    requires Slots(task, s, own)(r) == None && SetSlot(Slots(task, s, own), Slots(task, s', own'), r, Some(f))
    ensures Books(task, s', own', taken + {f})
  {
    var h, h' := Slots(task, s, own), Slots(task, s', own');
    hide Slots;
    HeldGrows(h, h', r, f);
  }

  /** The books speak of tables, root and own pages only. */
  lemma SameBooks(task: TaskId, s: Space, s': Space, own: map<nat, Frame>, taken: set<Frame>)
    requires Books(task, s, own, taken) && s'.tables == s.tables && s'.l4 == s.l4
    ensures Books(task, s', own, taken)
  {
    var h, h' := Slots(task, s, own), Slots(task, s', own);
    assert forall r: Slot :: h'(r) == h(r);
    hide Slots;
    forall f: Frame | f in taken ensures Held(h', f) { var r: Slot :| h(r) == Some(f); assert h'(r) == Some(f); }
  }

  lemma BookRoot(task: TaskId, f: Frame)
    ensures Books(task, Space([], map[], map[], f), map[], {f})
  {
    var h := Slots(task, Space([], map[], map[], f), map[]);
    assert h(Root(task)) == Some(f);
  }

  /** The load so far: memory map, page tables and books agree.  Frames in `spare` are allocated and not
      yet in a slot. */
  ghost predicate Underway(phys: PhysicalMemory, l: Load, task: TaskId, s: Space, own: map<nat, Frame>,
                           taken: set<Frame>, spare: set<Frame>)
    reads phys
  {
    phys.Valid() && Loading(l, phys.types, taken) && PagesOk(s) && spare <= taken && Books(task, s, own, taken - spare)
  }

  /** Make sure one table exists. */
  method MakeTable(phys: PhysicalMemory, ghost l: Load, ghost task: TaskId, s: Space, ghost own: map<nat, Frame>,
                   ghost taken: set<Frame>, ghost spare: set<Frame>, id: TableId)
    returns (s': Space, ghost taken': set<Frame>, ok: bool)
    requires Underway(phys, l, task, s, own, taken, spare) && Hangs(s.tables, id)
    modifies phys
    ensures phys.Valid() && (!ok ==> Scarce(phys.types, 0))
    ensures ok ==> Underway(phys, l, task, s', own, taken', spare) && taken <= taken'
    ensures ok ==> s' == s.(tables := s'.tables) && id in s'.tables && forall t :: t in s.tables ==> t in s'.tables
  {
    hide Loading, Books, Scarce;
    if id in s.tables { return s, taken, true; }
    var f := TakeOne(phys, l, taken);
    if f.None? { return s, taken, false; }
    s' := s.(tables := s.tables[id := f.value]);
    taken' := taken + {f.value};
    ok := true;
    TableBooked(task, s, own, taken - spare, id, f.value);
    assert taken' - spare == taken - spare + {f.value};
  }

  lemma TableBooked(task: TaskId, s: Space, own: map<nat, Frame>, taken: set<Frame>, id: TableId, f: Frame)
    requires Books(task, s, own, taken) && f !in taken && id !in s.tables
    ensures Books(task, s.(tables := s.tables[id := f]), own, taken + {f})
  {
    Book(task, s, own, taken, s.(tables := s.tables[id := f]), own, Table(task, id), f);
  }

  /** Make sure the three tables of a page exist, from the top level down. */
  method MakeTables(phys: PhysicalMemory, ghost l: Load, ghost task: TaskId, s: Space, ghost own: map<nat, Frame>,
                    ghost taken: set<Frame>, ghost spare: set<Frame>, page: nat)
    returns (s': Space, ghost taken': set<Frame>, ok: bool)
    requires Underway(phys, l, task, s, own, taken, spare) && page < USER_PAGES
    modifies phys
    ensures phys.Valid() && (!ok ==> Scarce(phys.types, 0))
    ensures ok ==> Underway(phys, l, task, s', own, taken', spare) && taken <= taken'
    ensures ok ==> s' == s.(tables := s'.tables) && HasTables(s'.tables, page)
  {
    hide Loading, Books, Scarce, Hangs;
    TableParents(s.tables, page);
    s', taken', ok := MakeTable(phys, l, task, s, own, taken, spare, TableFor(3, page));
    if !ok { return; }
    TableParents(s'.tables, page);
    s', taken', ok := MakeTable(phys, l, task, s', own, taken', spare, TableFor(2, page));
    if !ok { return; }
    TableParents(s'.tables, page);
    s', taken', ok := MakeTable(phys, l, task, s', own, taken', spare, TableFor(1, page));
  }

  // --- Pages ---

  /** How loading ends; all but Ready are panics. */
  datatype Outcome = Ready | PastFile | BadAddress | PageTwice | SecondTail | NoEntry | OutOfFrames

  /** The frame of the module that page p of a segment maps. */
  function FileFrame(start: nat, seg: Segment, p: nat): Frame
    requires FirstPage(seg) <= p
  {
    (start + seg.offset) / PAGE_SIZE + (p - FirstPage(seg))
  }

  /** The first n pages of the segment are new and map the module's frames. */
  ghost predicate InPlace(was: map<nat, Frame>, now: map<nat, Frame>, start: nat, seg: Segment, n: nat) {
    && Extended(was, now, FirstPage(seg), n)
    && (forall p: nat :: InRange(FirstPage(seg), n, p) ==> p !in was && now[p] == FileFrame(start, seg, p))
  }

  lemma OneMoreInPlace(was: map<nat, Frame>, now: map<nat, Frame>, start: nat, seg: Segment, n: nat)
    requires InPlace(was, now, start, seg, n) && FirstPage(seg) + n !in now
    ensures InPlace(was, now[FirstPage(seg) + n := FileFrame(start, seg, FirstPage(seg) + n)], start, seg, n + 1)
  {
    hide FirstPage, FileFrame;
    var now' := now[FirstPage(seg) + n := FileFrame(start, seg, FirstPage(seg) + n)];
    forall p: nat | InRange(FirstPage(seg), n + 1, p) ensures p !in was && now'[p] == FileFrame(start, seg, p) {
      if p != FirstPage(seg) + n { assert InRange(FirstPage(seg), n, p); }
    }
  }

  /** A page of the module keeps the books as they are. */
  lemma PageKeepsBooks(task: TaskId, s: Space, own: map<nat, Frame>, taken: set<Frame>, page: nat, f: Frame)
    requires Books(task, s, own, taken) && PagesOk(s) && HasTables(s.tables, page) && page < USER_PAGES
    ensures Books(task, s.(pages := s.pages[page := f]), own, taken) && PagesOk(s.(pages := s.pages[page := f]))
  {
    SameBooks(task, s, s.(pages := s.pages[page := f]), own, taken);
  }

  /** Map a segment's file pages to the module's frames. */
  method MapFilePages(phys: PhysicalMemory, ghost l: Load, ghost task: TaskId, s: Space, ghost own: map<nat, Frame>,
                      ghost taken: set<Frame>, start: nat, seg: Segment)
    returns (s': Space, ghost taken': set<Frame>, r: Outcome)
    requires Underway(phys, l, task, s, own, taken, {}) && FirstPage(seg) <= USER_PAGES
    modifies phys
    ensures phys.Valid() && (r.Ready? || r.BadAddress? || r.PageTwice? || r.OutOfFrames?)
    ensures r.Ready? ==> Underway(phys, l, task, s', own, taken', {}) && taken <= taken'
    ensures r.Ready? ==> FirstPage(seg) + FilePages(seg) <= USER_PAGES
    ensures r.Ready? ==> s' == s.(tables := s'.tables, pages := s'.pages)
    ensures r.Ready? ==> InPlace(s.pages, s'.pages, start, seg, FilePages(seg))
    ensures r.BadAddress? ==> USER_PAGES < FirstPage(seg) + FilePages(seg)
    ensures r.PageTwice? ==> Occupied(s, FirstPage(seg), FilePages(seg))
    ensures r.OutOfFrames? ==> Scarce(phys.types, 0)
  {
    hide Loading, Books, Scarce, FirstPage, FilePages, FileFrame, PagesOk, HasTables;
    s', taken' := s, taken;
    for i := 0 to FilePages(seg)
      invariant Underway(phys, l, task, s', own, taken', {}) && taken <= taken' && FirstPage(seg) + i <= USER_PAGES
      invariant s' == s.(tables := s'.tables, pages := s'.pages) && InPlace(s.pages, s'.pages, start, seg, i)
    {
      var page := FirstPage(seg) + i;
      if page == USER_PAGES { return s', taken', BadAddress; }
      var s1, ok;
      s1, taken', ok := MakeTables(phys, l, task, s', own, taken', {}, page);
      if !ok { return s', taken', OutOfFrames; }
      if page in s1.pages {
        assert InRange(FirstPage(seg), FilePages(seg), page) && page in s.pages;
        return s', taken', PageTwice;
      }
      OneMoreInPlace(s.pages, s1.pages, start, seg, i);
      PageKeepsBooks(task, s1, own, taken' - {}, page, FileFrame(start, seg, page));
      s' := s1.(pages := s1.pages[page := FileFrame(start, seg, page)]);
    }
    r := Ready;
  }

  /** n pages from `first` on are new and map new frames of the task's own, which were filled. */
  ghost predicate Fresh(s: Space, own: map<nat, Frame>, taken: set<Frame>, ram: Ram, s': Space, own': map<nat, Frame>,
                        taken': set<Frame>, ram': Ram, first: nat, n: nat, fill: Fill)
    requires FillOk(fill)
  {
    && Extended(s.pages, s'.pages, first, n) && Extended(own, own', first, n) && taken <= taken'
    && (forall p: nat :: InRange(first, n, p) ==> p !in s.pages && s'.pages[p] == own'[p] && own'[p] in taken')
    && (forall p: nat :: InRange(first, n, p) ==> own'[p] !in taken && ram'(own'[p]) == Content(fill, p, ram(own'[p])))
    && (forall g: Frame :: g in taken || g !in taken' ==> ram'(g) == ram(g))
  }

  lemma FreshNone(s: Space, own: map<nat, Frame>, taken: set<Frame>, ram: Ram, first: nat, fill: Fill)
    requires FillOk(fill)
    ensures Fresh(s, own, taken, ram, s, own, taken, ram, first, 0, fill)
  {
  }

  lemma FreshOneMore(s: Space, own: map<nat, Frame>, taken: set<Frame>, ram: Ram, s1: Space, own1: map<nat, Frame>,
                     taken1: set<Frame>, ram1: Ram, first: nat, n: nat, fill: Fill, s2: Space, taken2: set<Frame>,
                     f: Frame)
    requires FillOk(fill) && Fresh(s, own, taken, ram, s1, own1, taken1, ram1, first, n, fill)
    requires s2.pages == s1.pages && first + n !in s1.pages && first + n !in own1 && f !in taken1 && f in taken2
    requires taken1 <= taken2
    ensures Fresh(s, own, taken, ram, s2.(pages := s2.pages[first + n := f]), own1[first + n := f], taken2,
                  Write(ram1, f, Content(fill, first + n, ram1(f))), first, n + 1, fill)
  {
    hide Content;
    var own2, ram2 := own1[first + n := f], Write(ram1, f, Content(fill, first + n, ram1(f)));
    forall p: nat | InRange(first, n + 1, p)
      ensures p !in s.pages && own2[p] in taken2 && own2[p] !in taken && ram2(own2[p]) == Content(fill, p, ram(own2[p]))
    {
      if p != first + n { assert InRange(first, n, p); }
    }
  }

  /** A page with a spare frame of the task's own. */
  lemma PageBooked(task: TaskId, s: Space, own: map<nat, Frame>, taken: set<Frame>, page: nat, f: Frame)
    requires Books(task, s, own, taken - {f}) && f in taken && page !in own
    requires PagesOk(s) && HasTables(s.tables, page) && page < USER_PAGES
    ensures Books(task, s.(pages := s.pages[page := f]), own[page := f], taken)
    ensures PagesOk(s.(pages := s.pages[page := f]))
  {
    Book(task, s, own, taken - {f}, s.(pages := s.pages[page := f]), own[page := f], Data(task, page), f);
    assert taken - {f} + {f} == taken;
  }

  /** Map n pages to newly allocated frames. */
  method MapFresh(phys: PhysicalMemory, ghost l: Load, ghost task: TaskId, s: Space, ghost own: map<nat, Frame>,
                  ghost taken: set<Frame>, ram: Ram, first: nat, n: nat, fill: Fill)
    returns (s': Space, ghost own': map<nat, Frame>, ghost taken': set<Frame>, ram': Ram, r: Outcome)
    requires Underway(phys, l, task, s, own, taken, {}) && first <= USER_PAGES && FillOk(fill)
    requires forall p :: p in own ==> p in s.pages
    modifies phys
    ensures phys.Valid() && (r.Ready? || r.BadAddress? || r.PageTwice? || r.OutOfFrames?)
    ensures r.Ready? ==> Underway(phys, l, task, s', own', taken', {}) && first + n <= USER_PAGES
    ensures r.Ready? ==> s' == s.(tables := s'.tables, pages := s'.pages)
    ensures r.Ready? ==> Fresh(s, own, taken, ram, s', own', taken', ram', first, n, fill)
    ensures r.BadAddress? ==> USER_PAGES < first + n
    ensures r.PageTwice? ==> Occupied(s, first, n)
    ensures r.OutOfFrames? ==> Scarce(phys.types, 0)
  {
    hide Loading, Books, Scarce, PagesOk, HasTables, Fresh, Content;
    s', own', taken', ram' := s, own, taken, ram;
    FreshNone(s, own, taken, ram, first, fill);
    for i := 0 to n
      invariant Underway(phys, l, task, s', own', taken', {}) && first + i <= USER_PAGES
      invariant s' == s.(tables := s'.tables, pages := s'.pages) && (forall p :: p in own' ==> p in s'.pages)
      invariant Fresh(s, own, taken, ram, s', own', taken', ram', first, i, fill)
    {
      var page := first + i;
      if page == USER_PAGES { return s', own', taken', ram', BadAddress; }
      var f := TakeOne(phys, l, taken');
      if f.None? { return s', own', taken', ram', OutOfFrames; }
      ghost var spare, taken1 := {f.value}, taken' + {f.value};
      assert taken1 - spare == taken' - {};
      var s1, ok;
      ghost var taken2;
      s1, taken2, ok := MakeTables(phys, l, task, s', own', taken1, spare, page);
      if !ok { return s', own', taken', ram', OutOfFrames; }
      if page in s1.pages {
        FreshOccupied(s, own, taken, ram, s', own', taken', ram', first, i, fill, n);
        return s', own', taken', ram', PageTwice;
      }
      FreshOneMore(s, own, taken, ram, s', own', taken', ram', first, i, fill, s1, taken2, f.value);
      PageBooked(task, s1, own', taken2, page, f.value);
      assert taken2 - {} == taken2;
      ram' := Write(ram', f.value, Content(fill, page, ram'(f.value)));
      s', own', taken' := s1.(pages := s1.pages[page := f.value]), own'[page := f.value], taken2;
    }
    r := Ready;
  }

  lemma FreshOccupied(s: Space, own: map<nat, Frame>, taken: set<Frame>, ram: Ram, s': Space, own': map<nat, Frame>,
                      taken': set<Frame>, ram': Ram, first: nat, i: nat, fill: Fill, n: nat)
    requires FillOk(fill) && Fresh(s, own, taken, ram, s', own', taken', ram', first, i, fill) && i < n
    requires first + i in s'.pages
    ensures Occupied(s, first, n)
  {
    assert InRange(first, n, first + i);
  }

  // --- Segments ---

  predicate FilePageOf(seg: Segment, p: nat) {
    seg.load && InRange(FirstPage(seg), FilePages(seg), p)
  }

  predicate ZeroPageOf(seg: Segment, p: nat) {
    seg.load && InRange(FirstPage(seg) + FilePages(seg), ExtraPages(seg), p)
  }

  ghost predicate OnFilePage(segments: seq<Segment>, p: nat) {
    exists i :: 0 <= i < |segments| && FilePageOf(segments[i], p)
  }

  /** File pages map the module's frames, every other page is the task's own. */
  ghost predicate Laid(s: Space, own: map<nat, Frame>, start: nat, segments: seq<Segment>) {
    && (forall p: nat :: p in own ==> p in s.pages && s.pages[p] == own[p])
    && (forall p: nat :: p in s.pages ==> p in own || OnFilePage(segments, p))
    && (forall i, p: nat :: 0 <= i < |segments| && FilePageOf(segments[i], p) ==>
          p !in own && p in s.pages && s.pages[p] == FileFrame(start, segments[i], p))
  }

  ghost predicate ZeroFilled(own: map<nat, Frame>, ram: Ram, segments: seq<Segment>) {
    forall i, p: nat :: 0 <= i < |segments| && ZeroPageOf(segments[i], p) ==>
      p in own && ram(own[p]) == Zeros(PAGE_SIZE)
  }

  ghost predicate Untouched(ram: Ram, ram': Ram, taken: set<Frame>) {
    forall g: Frame :: g !in taken ==> ram'(g) == ram(g)
  }

  /** What has been built of the task's memory. */
  ghost predicate Built(l: Load, s: Space, own: map<nat, Frame>, taken: set<Frame>, ram0: Ram, ram: Ram) {
    Laid(s, own, l.start, l.segments) && AddrsOk(s) && ZeroFilled(own, ram, l.segments) && Untouched(ram0, ram, taken)
  }

  lemma OwnIsTaken(task: TaskId, s: Space, own: map<nat, Frame>, taken: set<Frame>, p: nat)
    requires Books(task, s, own, taken) && p in own
    ensures own[p] in taken
  {
    assert Slots(task, s, own)(Data(task, p)) == Some(own[p]);
  }

  /** A segment's pages were put down: file pages first, then zero pages. */
  ghost predicate SegmentIn(s: Space, own: map<nat, Frame>, s': Space, own': map<nat, Frame>, start: nat,
                            seg: Segment) {
    && Extended(s.pages, s'.pages, FirstPage(seg), TotalPages(seg))
    && Extended(own, own', FirstPage(seg) + FilePages(seg), ExtraPages(seg))
    && (forall p: nat :: PageOf(seg, p) ==> p !in s.pages)
    && (forall p: nat :: FilePageOf(seg, p) ==> p in s'.pages && s'.pages[p] == FileFrame(start, seg, p))
    && (forall p: nat :: ZeroPageOf(seg, p) ==> p in s'.pages && p in own' && s'.pages[p] == own'[p])
  }

  lemma SegmentAdded(s: Space, own: map<nat, Frame>, s1: Space, s2: Space, own2: map<nat, Frame>, start: nat,
                     seg: Segment)
    requires seg.load && InPlace(s.pages, s1.pages, start, seg, FilePages(seg))
    requires Extended(s1.pages, s2.pages, FirstPage(seg) + FilePages(seg), ExtraPages(seg))
    requires Extended(own, own2, FirstPage(seg) + FilePages(seg), ExtraPages(seg))
    requires forall p: nat :: InRange(FirstPage(seg) + FilePages(seg), ExtraPages(seg), p) ==>
      p !in s1.pages && s2.pages[p] == own2[p]
    ensures SegmentIn(s, own, s2, own2, start, seg)
  {
    hide FirstPage, FilePages, ExtraPages, FileFrame;
    forall p: nat ensures PageOf(seg, p) <==> FilePageOf(seg, p) || ZeroPageOf(seg, p) { }
  }

  lemma SegmentLaid(s: Space, own: map<nat, Frame>, s2: Space, own2: map<nat, Frame>, start: nat,
                    segments: seq<Segment>, seg: Segment)
    requires Laid(s, own, start, segments) && seg.load && SegmentIn(s, own, s2, own2, start, seg)
    ensures Laid(s2, own2, start, segments + [seg])
  {
    hide FileFrame, OnFilePage, SegmentIn, Extended, FilePages;
    var all := segments + [seg];
    forall p: nat | p in own2
      ensures p in s2.pages && s2.pages[p] == own2[p]
    {
      OwnStays(s, own, s2, own2, start, segments, seg, p);
    }
    forall p: nat | p in s2.pages
      ensures p in own2 || OnFilePage(all, p)
    {
      OldOrNew(s, own, s2, own2, start, segments, seg, p);
    }
    forall i, p: nat | 0 <= i < |all| && FilePageOf(all[i], p)
      ensures p !in own2 && p in s2.pages && s2.pages[p] == FileFrame(start, all[i], p)
    {
      FileStays(s, own, s2, own2, start, segments, seg, i, p);
    }
  }

  lemma OwnStays(s: Space, own: map<nat, Frame>, s2: Space, own2: map<nat, Frame>, start: nat, segments: seq<Segment>,
                 seg: Segment, p: nat)
    requires Laid(s, own, start, segments) && seg.load && SegmentIn(s, own, s2, own2, start, seg) && p in own2
    ensures p in s2.pages && s2.pages[p] == own2[p]
  {
    hide FirstPage, FilePages, ExtraPages, FileFrame;
    if p !in own { assert ZeroPageOf(seg, p); }
  }

  lemma FileStays(s: Space, own: map<nat, Frame>, s2: Space, own2: map<nat, Frame>, start: nat, segments: seq<Segment>,
                  seg: Segment, i: nat, p: nat)
    requires Laid(s, own, start, segments) && seg.load && SegmentIn(s, own, s2, own2, start, seg)
    requires i <= |segments| && FilePageOf((segments + [seg])[i], p)
    ensures p !in own2 && p in s2.pages && s2.pages[p] == FileFrame(start, (segments + [seg])[i], p)
  {
    hide FirstPage, FilePages, ExtraPages, FileFrame;
    if i < |segments| {
      assert FilePageOf(segments[i], p) && p in s.pages && !PageOf(seg, p);
    } else {
      assert FilePageOf(seg, p) && PageOf(seg, p) && p !in s.pages;
    }
  }

  lemma OldOrNew(s: Space, own: map<nat, Frame>, s2: Space, own2: map<nat, Frame>, start: nat, segments: seq<Segment>,
                 seg: Segment, p: nat)
    requires Laid(s, own, start, segments) && seg.load && SegmentIn(s, own, s2, own2, start, seg) && p in s2.pages
    ensures p in own2 || OnFilePage(segments + [seg], p)
  {
    hide FirstPage, FilePages, ExtraPages, FileFrame;
    var all := segments + [seg];
    assert all[|segments|] == seg;
    if p in s.pages {
      if p !in own {
        var i :| 0 <= i < |segments| && FilePageOf(segments[i], p);
        assert all[i] == segments[i];
      }
    } else {
      assert PageOf(seg, p) && (FilePageOf(seg, p) || ZeroPageOf(seg, p));
    }
  }

  lemma SegmentZeroed(task: TaskId, s: Space, own: map<nat, Frame>, taken: set<Frame>, ram0: Ram, ram: Ram, s1: Space,
                      taken1: set<Frame>, s2: Space, own2: map<nat, Frame>, taken2: set<Frame>, ram2: Ram,
                      segments: seq<Segment>, seg: Segment)
    requires Books(task, s, own, taken) && taken <= taken1 && seg.load
    requires ZeroFilled(own, ram, segments) && Untouched(ram0, ram, taken)
    requires
      Fresh(s1, own, taken1, ram, s2, own2, taken2, ram2, FirstPage(seg) + FilePages(seg), ExtraPages(seg), Zeroed)
    ensures ZeroFilled(own2, ram2, segments + [seg]) && Untouched(ram0, ram2, taken2)
  {
    hide FirstPage, FilePages, ExtraPages, Books;
    var all := segments + [seg];
    forall i, p: nat | 0 <= i < |all| && ZeroPageOf(all[i], p) ensures p in own2 && ram2(own2[p]) == Zeros(PAGE_SIZE) {
      if i < |segments| {
        assert all[i] == segments[i] && p in own;
        OwnIsTaken(task, s, own, taken, p);
      }
    }
  }

  /** A segment whose zeros begin behind file bytes, and where in the module they do. */
  predicate Tailed(seg: Segment) { seg.load && seg.memsz > seg.filesz > 0 }
  function TailOf(start: nat, seg: Segment): nat { start + seg.offset + seg.filesz }

  /** What mapping a segment has come to, given the pages mapped before and whether there was a tail. */
  ghost predicate SegmentOutcome(r: Outcome, seg: Segment, size: nat, s: Space, tail: bool, types: TypeMap) {
    match r
    case Ready => seg.offset + seg.filesz <= size && !(tail && Tailed(seg)) && !LeavesHalf(seg)
    case PastFile => seg.offset + seg.filesz > size
    case BadAddress => LeavesHalf(seg)
    case PageTwice => Occupied(s, FirstPage(seg), TotalPages(seg))
    case SecondTail => tail && Tailed(seg)
    case NoEntry => false
    case OutOfFrames => Scarce(types, 0)
  }

  /** Map one segment: tables for its file pages, its frames, then frames and tables for its zero pages. */
  method MapSegment(phys: PhysicalMemory, ghost l: Load, ghost task: TaskId, s: Space, ghost own: map<nat, Frame>,
                    ghost taken: set<Frame>, ghost ram0: Ram, ram: Ram, start: nat, size: nat, seg: Segment, tail: bool)
    returns (s': Space, ghost own': map<nat, Frame>, ghost taken': set<Frame>, ram': Ram, r: Outcome)
    requires Underway(phys, l, task, s, own, taken, {}) && Built(l, s, own, taken, ram0, ram)
    requires l.start == start && l.hole.None? && seg.load && seg.vaddr < HIGHER_HALF_START
    modifies phys
    ensures phys.Valid() && SegmentOutcome(r, seg, size, s, tail, phys.types)
    ensures r.Ready? ==> Underway(phys, WithSegment(l, seg), task, s', own', taken', {})
    ensures r.Ready? ==> Built(WithSegment(l, seg), s', own', taken', ram0, ram')
    ensures r.Ready? ==> Extended(s.pages, s'.pages, FirstPage(seg), TotalPages(seg))
    ensures r.Ready? ==> forall p: nat :: PageOf(seg, p) ==> p !in s.pages
  {
    hide Loading, Books, PagesOk, AddrsOk, FilePages, ExtraPages, Scarce, Fresh, InPlace, Laid, ZeroFilled, Untouched,
         Occupied;
    s', own', taken', ram' := s, own, taken, ram;
    if seg.offset + seg.filesz > size { return s', own', taken', ram', PastFile; }
    if LOWER_HALF_END < seg.vaddr { return s', own', taken', ram', BadAddress; }
    var first, files, extra := FirstPage(seg), FilePages(seg), ExtraPages(seg);
    var s1;
    s1, taken', r := MapFilePages(phys, l, task, s, own, taken, start, seg);
    if !r.Ready? {
      MoreOccupied(s, first, files, files + extra);
      return;
    }
    ghost var taken1 := taken';
    ClaimFrames(phys, l, start, seg, taken');
    if tail && Tailed(seg) { return s', own', taken', ram', SecondTail; }
    if seg.filesz < seg.memsz && first + files == USER_PAGES { return s', own', taken', ram', BadAddress; }
    LaidOwn(s, own, s1, start, l.segments, seg);
    var s2;
    s2, own', taken', ram', r := MapFresh(phys, WithSegment(l, seg), task, s1, own, taken1, ram, first + files, extra,
                                          Zeroed);
    if !r.Ready? {
      InPlaceOccupied(s, s1, start, seg);
      return;
    }
    FreshPages(s1, own, taken1, ram, s2, own', taken', ram', first + files, extra, Zeroed);
    SegmentAdded(s, own, s1, s2, own', start, seg);
    SegmentLaid(s, own, s2, own', start, l.segments, seg);
    assert taken - {} == taken;
    SegmentZeroed(task, s, own, taken, ram0, ram, s1, taken1, s2, own', taken', ram', l.segments, seg);
    s' := Track(s, s2, first, files + extra);
    SameBooks(task, s2, s', own', taken' - {});
    AddrsKeepLaid(s2, s', own', start, l.segments + [seg]);
  }

  lemma LaidOwn(s: Space, own: map<nat, Frame>, s1: Space, start: nat, segments: seq<Segment>, seg: Segment)
    requires Laid(s, own, start, segments) && InPlace(s.pages, s1.pages, start, seg, FilePages(seg))
    ensures forall p :: p in own ==> p in s1.pages
  {
  }

  lemma InPlaceOccupied(s: Space, s1: Space, start: nat, seg: Segment)
    requires InPlace(s.pages, s1.pages, start, seg, FilePages(seg))
    ensures Occupied(s1, FirstPage(seg) + FilePages(seg), ExtraPages(seg)) ==>
      Occupied(s, FirstPage(seg), TotalPages(seg))
  {
    hide FirstPage, FilePages, ExtraPages, FileFrame;
    if Occupied(s1, FirstPage(seg) + FilePages(seg), ExtraPages(seg)) {
      var p: nat :| InRange(FirstPage(seg) + FilePages(seg), ExtraPages(seg), p) && p in s1.pages;
      assert InRange(FirstPage(seg), TotalPages(seg), p) && p in s.pages;
    }
  }

  lemma FreshPages(s: Space, own: map<nat, Frame>, taken: set<Frame>, ram: Ram, s': Space, own': map<nat, Frame>,
                   taken': set<Frame>, ram': Ram, first: nat, n: nat, fill: Fill)
    requires FillOk(fill) && Fresh(s, own, taken, ram, s', own', taken', ram', first, n, fill)
    ensures Extended(s.pages, s'.pages, first, n) && Extended(own, own', first, n) && taken <= taken'
    ensures forall p: nat :: InRange(first, n, p) ==> p !in s.pages && s'.pages[p] == own'[p]
  {
  }

  lemma AddrsKeepLaid(s: Space, s': Space, own: map<nat, Frame>, start: nat, segments: seq<Segment>)
    requires Laid(s, own, start, segments) && s' == s.(addrs := s'.addrs) && PagesOk(s)
    ensures Laid(s', own, start, segments) && PagesOk(s')
  {
  }

  // --- The whole module ---

  /** All segments inside the file and the user half, each on pages of its own, at most one with a tail. */
  ghost predicate Loadable(segments: seq<Segment>, size: nat) {
    && (forall i :: 0 <= i < |segments| && segments[i].load ==>
          segments[i].offset + segments[i].filesz <= size && !LeavesHalf(segments[i]))
    && (forall i, j, p: nat :: 0 <= i < j < |segments| && LoadsPage(segments[i], p) ==> !LoadsPage(segments[j], p))
    && (forall i, j :: 0 <= i < j < |segments| && Tailed(segments[i]) ==> !Tailed(segments[j]))
  }

  ghost predicate OnPage(segments: seq<Segment>, p: nat) {
    exists i :: 0 <= i < |segments| && LoadsPage(segments[i], p)
  }

  /** What the loader remembers of the segments so far: their pages and the place of the tail. */
  ghost predicate Remembers(start: nat, segments: seq<Segment>, s: Space, tail: Option<nat>) {
    && (forall p: nat :: p in s.pages <==> OnPage(segments, p))
    && (tail.Some? ==> exists i :: 0 <= i < |segments| && Tailed(segments[i]))
    && (forall i :: 0 <= i < |segments| && Tailed(segments[i]) ==> tail == Some(TailOf(start, segments[i])))
  }

  lemma OneMoreSegment(start: nat, segments: seq<Segment>, size: nat, s: Space, s': Space, tail: Option<nat>,
                       seg: Segment)
    requires Loadable(segments, size) && Remembers(start, segments, s, tail) && seg.load
    requires seg.offset + seg.filesz <= size && !LeavesHalf(seg) && !(tail.Some? && Tailed(seg))
    requires Extended(s.pages, s'.pages, FirstPage(seg), TotalPages(seg)) && forall p: nat :: PageOf(seg, p) ==>
      p !in s.pages
    ensures Loadable(segments + [seg], size)
    ensures Remembers(start, segments + [seg], s', if Tailed(seg) then Some(TailOf(start, seg)) else tail)
  {
    hide TotalPages, FirstPage, LeavesHalf, Tailed, TailOf;
    var all := segments + [seg];
    assert all[|segments|] == seg && forall i :: 0 <= i < |segments| ==> all[i] == segments[i];
    forall p: nat ensures p in s'.pages <==> OnPage(all, p) {
      if OnPage(segments, p) {
        var i :| 0 <= i < |segments| && LoadsPage(segments[i], p);
        assert all[i] == segments[i];
      }
      assert p in s'.pages <==> p in s.pages || PageOf(seg, p);
    }
    if tail.Some? { var i :| 0 <= i < |segments| && Tailed(segments[i]); assert all[i] == segments[i]; }
    forall i, j, p: nat | 0 <= i < j < |all| && LoadsPage(all[i], p)
      ensures !LoadsPage(all[j], p)
    {
      if j == |segments| { assert OnPage(segments, p); }
    }
  }

  lemma NotLoaded(start: nat, segments: seq<Segment>, size: nat, s: Space, tail: Option<nat>, seg: Segment)
    requires Loadable(segments, size) && Remembers(start, segments, s, tail) && !seg.load
    ensures Loadable(segments + [seg], size) && Remembers(start, segments + [seg], s, tail)
  {
    hide PageOf, LeavesHalf, TailOf;
    var all := segments + [seg];
    assert all[|segments|] == seg && forall i :: 0 <= i < |segments| ==> all[i] == segments[i];
    forall p: nat ensures OnPage(segments, p) <==> OnPage(all, p) {
      if OnPage(segments, p) {
        var i :| 0 <= i < |segments| && LoadsPage(segments[i], p);
        assert all[i] == segments[i];
      }
    }
    if tail.Some? { var i :| 0 <= i < |segments| && Tailed(segments[i]); assert all[i] == segments[i]; }
  }

  /** A panic over a segment means that the segments do not fit together, or memory is out. */
  lemma PanicHasReason(start: nat, segments: seq<Segment>, k: nat, size: nat, s: Space, tail: Option<nat>, r: Outcome,
                       types: TypeMap)
    requires k < |segments| && segments[k].load && Remembers(start, segments[..k], s, tail)
    requires SegmentOutcome(r, segments[k], size, s, tail.Some?, types) && !r.Ready? && !r.OutOfFrames?
    ensures !Loadable(segments, size)
  {
    hide Tailed, TailOf, LeavesHalf, FirstPage, TotalPages;
    if r.PageTwice? {
      var p: nat :| InRange(FirstPage(segments[k]), TotalPages(segments[k]), p) && p in s.pages;
      var i :| 0 <= i < k && LoadsPage(segments[..k][i], p);
      assert LoadsPage(segments[i], p) && LoadsPage(segments[k], p);
    } else if r.SecondTail? {
      var i :| 0 <= i < k && Tailed(segments[..k][i]);
      assert Tailed(segments[i]);
    }
  }

  lemma SkippedIsBuilt(l: Load, s: Space, own: map<nat, Frame>, taken: set<Frame>, ram0: Ram, ram: Ram, seg: Segment)
    requires Built(l, s, own, taken, ram0, ram) && !seg.load
    ensures Built(WithSegment(l, seg), s, own, taken, ram0, ram)
  {
    hide AddrsOk, Untouched, Laid, ZeroFilled;
    SkippedIsLaid(s, own, l.start, l.segments, seg);
    SkippedIsZeroed(own, ram, l.segments, seg);
  }

  lemma SkippedIsLaid(s: Space, own: map<nat, Frame>, start: nat, segments: seq<Segment>, seg: Segment)
    requires Laid(s, own, start, segments) && !seg.load
    ensures Laid(s, own, start, segments + [seg])
  {
    hide FirstPage, FilePages, FileFrame;
    var all := segments + [seg];
    assert all[|segments|] == seg && forall i :: 0 <= i < |segments| ==> all[i] == segments[i];
    forall p: nat | OnFilePage(segments, p) ensures OnFilePage(all, p) {
      var i :| 0 <= i < |segments| && FilePageOf(segments[i], p);
      assert all[i] == segments[i];
    }
  }

  lemma SkippedIsZeroed(own: map<nat, Frame>, ram: Ram, segments: seq<Segment>, seg: Segment)
    requires ZeroFilled(own, ram, segments) && !seg.load
    ensures ZeroFilled(own, ram, segments + [seg])
  {
    hide FirstPage, FilePages, ExtraPages;
    var all := segments + [seg];
    assert all[|segments|] == seg && forall i :: 0 <= i < |segments| ==> all[i] == segments[i];
  }

  /** Before the load no byte of the module can be allocated. */
  ghost predicate Reserved(types: TypeMap, m: Extent) {
    forall x: int :: InModule(m, x) ==> Get(types, x) != Some(Usable) && !UserTyped(Get(types, x))
  }

  lemma RootTaken(was: TypeMap, now: TypeMap, now': TypeMap, m: Extent, start: nat, f: Frame)
    requires Reserved(was, m) && Spacious(was, f) && Retyped(was, now, f, UsedByUserMode)
    requires forall x: int :: Get(now', x) == if m.lo <= x <= m.hi then None else Get(now, x)
    ensures Loading(Load(was, m, None, start, []), now', {f})
  {
    forall x: int | InFrame(f, x) ensures !InModule(m, x) && Get(was, x) == Some(Usable) { }
    forall x: int ensures Taken({f}, x) <==> InFrame(f, x) { }
  }

  lemma NothingBuilt(l: Load, f: Frame, ram: Ram, size: nat)
    requires l.segments == []
    ensures Built(l, Space([], map[], map[], f), map[], {f}, ram, ram) && PagesOk(Space([], map[], map[], f))
    ensures Loadable([], size) && Remembers(l.start, [], Space([], map[], map[], f), None)
  {
  }

  /** Map all segments of the module. */
  method MapModule(phys: PhysicalMemory, ghost task: TaskId, start: nat, size: nat, segments: seq<Segment>, ram: Ram)
    returns (r: Outcome, s: Space, ram': Ram, tail: Option<nat>, ghost own: map<nat, Frame>, ghost taken: set<Frame>)
    requires phys.Valid() && 0 < size && Reserved(phys.types, ModuleExtent(start, size)) && BelowKernel(segments)
    modifies phys
    ensures phys.Valid() && !r.NoEntry?
    ensures r.OutOfFrames? ==> Scarce(phys.types, 0)
    ensures !r.Ready? && !r.OutOfFrames? ==> !Loadable(segments, size)
    ensures r.Ready? ==> Loadable(segments, size) && Remembers(start, segments, s, tail)
    ensures r.Ready? ==> var l := Load(old(phys.types), ModuleExtent(start, size), None, start, segments);
      Underway(phys, l, task, s, own, taken, {}) && Built(l, s, own, taken, ram, ram')
  {
    hide Loading, Built, Books, PagesOk, Loadable, Remembers, SegmentOutcome, Scarce, LeavesHalf, TailOf, Tailed;
    var m := ModuleExtent(start, size);
    s, ram', tail, own, taken := Space([], map[], map[], 0), ram, None, map[], {};
    ghost var was := phys.types;
    var l4 := phys.AllocateFrame(UsedByUserMode);
    if l4.None? {
      NoneIsScarce(phys.types);
      return OutOfFrames, s, ram', tail, own, taken;
    }
    ghost var now := phys.types;
    phys.CutRange(m.lo, m.hi);
    s, taken := s.(l4 := l4.value), {l4.value};
    ghost var l := Load(was, m, None, start, segments[..0]);
    RootTaken(was, now, phys.types, m, start, l4.value);
    BookRoot(task, l4.value);
    assert taken - {} == taken;
    NothingBuilt(l, l4.value, ram, size);
    for k := 0 to |segments|
      invariant l == Load(was, m, None, start, segments[..k])
      invariant Underway(phys, l, task, s, own, taken, {}) && Built(l, s, own, taken, ram, ram')
      invariant Loadable(segments[..k], size) && Remembers(start, segments[..k], s, tail)
    {
      assert segments[..k + 1] == segments[..k] + [segments[k]];
      if segments[k].load {
        var s1, ram1;
        ghost var own1, taken1;
        s1, own1, taken1, ram1, r := MapSegment(phys, l, task, s, own, taken, ram, ram', start, size, segments[k],
                                                tail.Some?);
        OutcomeFacts(r, segments[k], size, s, tail.Some?, phys.types);
        if !r.Ready? {
          if !r.OutOfFrames? { PanicHasReason(start, segments, k, size, s, tail, r, phys.types); }
          return;
        }
        OneMoreSegment(start, segments[..k], size, s, s1, tail, segments[k]);
        tail := if Tailed(segments[k]) then Some(TailOf(start, segments[k])) else tail;
        s, own, taken, ram' := s1, own1, taken1, ram1;
      } else {
        SkippedClaims(l, phys.types, segments[k], taken);
        SkippedIsBuilt(l, s, own, taken, ram, ram', segments[k]);
        NotLoaded(start, segments[..k], size, s, tail, segments[k]);
      }
      l := WithSegment(l, segments[k]);
    }
    assert segments[..|segments|] == segments;
    r := Ready;
  }

  /** No loadable segment asks for an address of the kernel half. */
  predicate BelowKernel(segments: seq<Segment>) {
    forall i :: 0 <= i < |segments| && segments[i].load ==> segments[i].vaddr < HIGHER_HALF_START
  }

  lemma OutcomeFacts(r: Outcome, seg: Segment, size: nat, s: Space, tail: bool, types: TypeMap)
    requires SegmentOutcome(r, seg, size, s, tail, types)
    ensures r.Ready? ==> seg.offset + seg.filesz <= size && !(tail && Tailed(seg)) && !LeavesHalf(seg)
    ensures r.OutOfFrames? ==> Scarce(types, 0)
    ensures !r.NoEntry?
  {
  }

  // --- Clearing what is behind the file bytes ---

  /** The frame's bytes at physical addresses lo..end become zero. */
  function ZeroPart(bytes: FrameBytes, f: Frame, lo: nat, end: nat): FrameBytes {
    seq(PAGE_SIZE, o requires 0 <= o < PAGE_SIZE => if lo <= Base(f) + o < end then 0 else bytes[o])
  }

  function ZeroRange(ram: Ram, lo: nat, end: nat): Ram {
    (f: Frame) => ZeroPart(ram(f), f, lo, end)
  }

  /** The rest of the page behind the file bytes of a segment that goes on with zeros, and the rest of the
      module's last page. */
  ghost predicate Wiped(start: nat, size: nat, segments: seq<Segment>, x: int) {
    || (exists i :: 0 <= i < |segments| && Tailed(segments[i]) && BehindTail(TailOf(start, segments[i]), x))
    || BehindTail(start + size, x)
  }

  predicate BehindTail(tail: nat, x: int) {
    tail <= x < NextMultiple(tail)
  }

  ghost predicate WipedFrom(ram: Ram, ram': Ram, start: nat, size: nat, segments: seq<Segment>) {
    forall f: Frame, o: nat :: o < PAGE_SIZE ==>
      ram'(f)[o] == if Wiped(start, size, segments, Base(f) + o) then 0 else ram(f)[o]
  }

  function Wipe(ram: Ram, start: nat, size: nat, tail: Option<nat>): Ram {
    var ram1 := if tail.Some? then ZeroRange(ram, tail.value, NextMultiple(tail.value)) else ram;
    ZeroRange(ram1, start + size, NextMultiple(start + size))
  }

  lemma WipeIsRight(ram: Ram, start: nat, size: nat, segments: seq<Segment>, s: Space, tail: Option<nat>)
    requires Remembers(start, segments, s, tail)
    ensures WipedFrom(ram, Wipe(ram, start, size, tail), start, size, segments)
  {
    hide NextMultiple, TailOf;
    forall x: int
      ensures Wiped(start, size, segments, x) <==>
        (tail.Some? && BehindTail(tail.value, x)) || BehindTail(start + size, x)
    {
    }
    forall f: Frame, o: nat | o < PAGE_SIZE
      ensures Wipe(ram, start, size, tail)(f)[o] == if Wiped(start, size, segments, Base(f) + o) then 0 else ram(f)[o]
    {
      WipeAt(ram, start, size, tail, f, o);
    }
  }

  lemma WipeAt(ram: Ram, start: nat, size: nat, tail: Option<nat>, f: Frame, o: nat)
    requires o < PAGE_SIZE
    ensures Wipe(ram, start, size, tail)(f)[o] ==
      if (tail.Some? && BehindTail(tail.value, Base(f) + o)) || BehindTail(start + size, Base(f) + o) then 0
      else ram(f)[o]
  {
    hide NextMultiple, ZeroPart;
    var bytes := if tail.Some? then ZeroPart(ram(f), f, tail.value, NextMultiple(tail.value)) else ram(f);
    if tail.Some? { ZeroPartAt(ram(f), f, tail.value, NextMultiple(tail.value), o); }
    ZeroPartAt(bytes, f, start + size, NextMultiple(start + size), o);
  }

  lemma ZeroPartAt(bytes: FrameBytes, f: Frame, lo: nat, end: nat, o: nat)
    requires o < PAGE_SIZE
    ensures ZeroPart(bytes, f, lo, end)[o] == if lo <= Base(f) + o < end then 0 else bytes[o]
  {
  }

  /** Where no frame was allocated, memory is as before except for what was cleared. */
  ghost predicate Kept(ram: Ram, ram': Ram, start: nat, size: nat, segments: seq<Segment>, taken: set<Frame>) {
    forall f: Frame, o: nat :: f !in taken && o < PAGE_SIZE ==>
      ram'(f)[o] == if Wiped(start, size, segments, Base(f) + o) then 0 else ram(f)[o]
  }

  lemma WipeKeeps(ram0: Ram, ram: Ram, ram': Ram, start: nat, size: nat, segments: seq<Segment>, own: map<nat, Frame>,
                  taken: set<Frame>)
    requires Untouched(ram0, ram, taken) && ZeroFilled(own, ram, segments)
    requires WipedFrom(ram, ram', start, size, segments)
    ensures Kept(ram0, ram', start, size, segments, taken) && ZeroFilled(own, ram', segments)
  {
    hide Wiped, ZeroPageOf;
    forall i, p: nat | 0 <= i < |segments| && ZeroPageOf(segments[i], p)
      ensures p in own && ram'(own[p]) == Zeros(PAGE_SIZE)
    {
      forall o: nat | o < PAGE_SIZE ensures ram'(own[p])[o] == 0 { assert ram(own[p])[o] == 0; }
    }
  }

  // --- The stack ---

  lemma StackKeeps(task: TaskId, s: Space, own: map<nat, Frame>, taken: set<Frame>, ram0: Ram, ram: Ram, s': Space,
                   own': map<nat, Frame>, taken': set<Frame>, ram': Ram, start: nat, size: nat, segments: seq<Segment>,
                   first: nat, n: nat)
    requires Books(task, s, own, taken) && Fresh(s, own, taken, ram, s', own', taken', ram', first, n, AsIs)
    requires Laid(s, own, start, segments) && ZeroFilled(own, ram, segments)
    requires Kept(ram0, ram, start, size, segments, taken)
    ensures Laid(s', own', start, segments) && ZeroFilled(own', ram', segments)
    ensures Kept(ram0, ram', start, size, segments, taken')
  {
    hide FileFrame, Wiped, FilePageOf, ZeroPageOf, Books;
    forall p: nat | p in own'
      ensures p in s'.pages && s'.pages[p] == own'[p]
    {
      assert p in own || InRange(first, n, p);
    }
    forall i, p: nat | 0 <= i < |segments| && ZeroPageOf(segments[i], p)
      ensures p in own' && ram'(own'[p]) == Zeros(PAGE_SIZE)
    {
      OwnIsTaken(task, s, own, taken, p);
    }
  }

  /** The segments fit together and leave the stack alone, and the program says where to start. */
  ghost predicate Sensible(segments: seq<Segment>, size: nat, entry: nat) {
    Loadable(segments, size) && entry != 0 && forall p: nat :: StackPage(p) ==> !OnPage(segments, p)
  }

  ghost predicate BootPages(s: Space, segments: seq<Segment>) {
    forall p: nat :: p in s.pages <==> OnPage(segments, p) || StackPage(p)
  }

  lemma StackAdded(start: nat, segments: seq<Segment>, s: Space, s': Space, tail: Option<nat>)
    requires Remembers(start, segments, s, tail)
    requires Extended(s.pages, s'.pages, STACK_TOP / PAGE_SIZE - STACK_PAGES, STACK_PAGES)
    ensures BootPages(s', segments)
  {
    hide OnPage;
    forall p: nat ensures p in s'.pages <==> OnPage(segments, p) || StackPage(p) { }
  }

  lemma StackIsClear(start: nat, segments: seq<Segment>, s: Space, tail: Option<nat>)
    requires Remembers(start, segments, s, tail)
    ensures Occupied(s, STACK_TOP / PAGE_SIZE - STACK_PAGES, STACK_PAGES) <==>
      exists p: nat :: StackPage(p) && OnPage(segments, p)
  {
    hide OnPage;
    if p: nat :| StackPage(p) && OnPage(segments, p) { assert p in s.pages; }
  }

  lemma NotOccupied(s: Space, first: nat, n: nat)
    requires forall p: nat :: InRange(first, n, p) ==> p !in s.pages
    ensures !Occupied(s, first, n)
  {
  }

  lemma OwnIsMapped(s: Space, own: map<nat, Frame>, start: nat, segments: seq<Segment>)
    requires Laid(s, own, start, segments)
    ensures forall p :: p in own ==> p in s.pages
  {
  }

  /** Build the first task: map the segments, reclaim the rest of the module, clear what is behind the file
      bytes, and map a stack. */
  method LoadModule(phys: PhysicalMemory, ghost task: TaskId, start: nat, size: nat, segments: seq<Segment>, entry: nat,
                    ram: Ram)
    returns (r: Outcome, s: Space, ram': Ram, ghost own: map<nat, Frame>, ghost taken: set<Frame>)
    requires phys.Valid() && 0 < size && Reserved(phys.types, ModuleExtent(start, size)) && BelowKernel(segments)
    modifies phys
    ensures phys.Valid()
    ensures r.OutOfFrames? ==> Scarce(phys.types, 0)
    ensures !r.Ready? && !r.OutOfFrames? ==> !Sensible(segments, size, entry)
    ensures r.Ready? ==> Sensible(segments, size, entry) && BootPages(s, segments) && PagesOk(s) && AddrsOk(s)
    ensures r.Ready? ==>
      Loading(Load(old(phys.types), ModuleExtent(start, size), Some(Usable), start, segments), phys.types, taken)
    ensures r.Ready? ==> Books(task, s, own, taken) && Laid(s, own, start, segments)
    ensures r.Ready? ==> ZeroFilled(own, ram', segments) && Kept(ram, ram', start, size, segments, taken)
  {
    hide Loading, Books, PagesOk, AddrsOk, Laid, ZeroFilled, Untouched, Kept, WipedFrom, Loadable, Remembers, Scarce,
         Fresh, OnPage, Wipe, Occupied;
    var m, tail := ModuleExtent(start, size), None;
    ghost var was := phys.types;
    r, s, ram', tail, own, taken := MapModule(phys, task, start, size, segments, ram);
    if !r.Ready? { return; }
    ghost var l := Load(was, m, None, start, segments);
    FillGaps(phys, m, l, taken);
    if entry == 0 { return NoEntry, s, ram', own, taken; }
    ghost var ram1 := ram';
    ram' := Wipe(ram', start, size, tail);
    WipeIsRight(ram1, start, size, segments, s, tail);
    WipeKeeps(ram, ram1, ram', start, size, segments, own, taken);
    StackIsClear(start, segments, s, tail);
    assert taken - {} == taken;
    OwnIsMapped(s, own, start, segments);
    var first := STACK_TOP / PAGE_SIZE - STACK_PAGES;
    ghost var own1, taken1, ram2 := own, taken, ram';
    var s1;
    s1, own, taken, ram', r := MapFresh(phys, l.(hole := Some(Usable)), task, s, own, taken, ram', first, STACK_PAGES,
                                        AsIs);
    if !r.Ready? { return; }
    FreshPages(s, own1, taken1, ram2, s1, own, taken, ram', first, STACK_PAGES, AsIs);
    StackKeeps(task, s, own1, taken1, ram, ram2, s1, own, taken, ram', start, size, segments, first, STACK_PAGES);
    var s2 := Track(s, s1, first, STACK_PAGES);
    StackAdded(start, segments, s, s2, tail);
    assert taken - {} == taken;
    SameBooks(task, s1, s2, own, taken);
    AddrsKeepLaid(s1, s2, own, start, segments);
    NotOccupied(s, first, STACK_PAGES);
    s := s2;
  }

  // --- The task in the accounting of the memory system ---

  predicate HasFrames(seg: Segment) {
    seg.load && FilePages(seg) > 0
  }

  /** The file frames of every segment lie in the module. */
  predicate Inside(start: nat, size: nat, segments: seq<Segment>) {
    forall i :: 0 <= i < |segments| && HasFrames(segments[i]) ==>
      FrameEnd(start, segments[i]) <= NextMultiple(start + size)
  }

  predicate FramesApart(start: nat, a: Segment, b: Segment) {
    FrameEnd(start, a) <= FrameLo(start, b) || FrameEnd(start, b) <= FrameLo(start, a)
  }

  /** No frame holds file bytes of two segments. */
  predicate NoCommonFrame(start: nat, segments: seq<Segment>) {
    forall i, j :: 0 <= i < j < |segments| && HasFrames(segments[i]) && HasFrames(segments[j]) ==>
      FramesApart(start, segments[i], segments[j])
  }

  /** The frame holds file bytes of a segment. */
  ghost predicate IsFileFrame(l: Load, f: Frame) {
    Claimed(l, Base(f))
  }

  /** What the load did to the types, frame by frame. */
  ghost predicate BootTyped(l: Load, ty: Types, ty': Types, taken: set<Frame>) {
    && (forall f: Frame {:trigger ty'(f)} ::
          if IsFileFrame(l, f) || f in taken then ty'(f) == Some(UsedByUserMode) && !UserTyped(ty(f))
          else ty'(f) == ty(f) || (!UserTyped(ty'(f)) && !UserTyped(ty(f))))
    && (forall f: Frame :: IsFileFrame(l, f) ==> f !in taken)
  }

  lemma RefersByFrame(start: nat, seg: Segment, f: Frame, x: int)
    requires InFrame(f, x)
    ensures RefersTo(start, seg, x) <==> RefersTo(start, seg, Base(f))
  {
  }

  lemma ClaimedByFrame(l: Load, f: Frame, x: int)
    requires InFrame(f, x)
    ensures Claimed(l, x) <==> IsFileFrame(l, f)
  {
    hide RefersTo;
    forall i | 0 <= i < |l.segments|
      ensures RefersTo(l.start, l.segments[i], x) <==> RefersTo(l.start, l.segments[i], Base(f))
    {
      RefersByFrame(l.start, l.segments[i], f, x);
    }
  }

  /** The module is made of whole frames. */
  predicate Aligned(m: Extent) {
    m.lo % PAGE_SIZE == 0 && (m.hi + 1) % PAGE_SIZE == 0
  }

  lemma ModuleByFrame(m: Extent, f: Frame, x: int)
    requires Aligned(m) && InFrame(f, x)
    ensures InModule(m, x) <==> InModule(m, Base(f))
  {
  }

  lemma UniformType(types: TypeMap, f: Frame, t: Option<MemoryType>)
    requires forall x: int :: InFrame(f, x) ==> Get(types, x) == t
    ensures FrameType(types, f) == t
  {
    assert InFrame(f, Base(f));
  }

  lemma SameType(types: TypeMap, types': TypeMap, f: Frame)
    requires forall x: int :: InFrame(f, x) ==> Get(types', x) == Get(types, x)
    ensures FrameType(types', f) == FrameType(types, f)
  {
    assert InFrame(f, Base(f));
  }

  /** One frame after the load. */
  lemma BootFrame(l: Load, now: TypeMap, taken: set<Frame>, f: Frame)
    requires Loading(l, now, taken) && l.hole == Some(Usable) && Aligned(l.m) && Reserved(l.was, l.m)
    requires forall g: Frame :: IsFileFrame(l, g) ==> InModule(l.m, Base(g))
    ensures IsFileFrame(l, f) || f in taken ==> FrameType(now, f) == Some(UsedByUserMode)
    ensures IsFileFrame(l, f) || f in taken ==> !UserTyped(FrameType(l.was, f))
    ensures IsFileFrame(l, f) ==> f !in taken
    ensures !(IsFileFrame(l, f) || f in taken) ==>
      FrameType(now, f) == FrameType(l.was, f) || (!UserTyped(FrameType(now, f)) && !UserTyped(FrameType(l.was, f)))
  {
    hide Claimed, IsFileFrame;
    forall x: int | InFrame(f, x) ensures (Claimed(l, x) <==> IsFileFrame(l, f)) && (Taken(taken, x) <==> f in taken) {
      ClaimedByFrame(l, f, x);
      FrameOfByte(f, x);
    }
    forall x: int | InFrame(f, x) ensures InModule(l.m, x) <==> InModule(l.m, Base(f)) { ModuleByFrame(l.m, f, x); }
    assert InFrame(f, Base(f));
    if IsFileFrame(l, f) || f in taken {
      UniformType(now, f, Some(UsedByUserMode));
    } else if InModule(l.m, Base(f)) {
      UniformType(now, f, Some(Usable));
    } else {
      SameType(l.was, now, f);
    }
  }

  lemma FileFramesInside(start: nat, size: nat, segments: seq<Segment>, l: Load, f: Frame)
    requires start % PAGE_SIZE == 0 && 0 < size && Inside(start, size, segments)
    requires l.start == start && l.segments == segments && l.m == ModuleExtent(start, size) && IsFileFrame(l, f)
    ensures InModule(l.m, Base(f))
  {
    var i :| 0 <= i < |segments| && RefersTo(start, segments[i], Base(f));
    assert HasFrames(segments[i]);
  }

  lemma BootTypes(phys: PhysicalMemory, l: Load, ty: Types, size: nat, taken: set<Frame>)
    requires phys.Valid() && Loading(l, phys.types, taken) && l.hole == Some(Usable) && Reserved(l.was, l.m)
    requires 0 < size && l.m == ModuleExtent(l.start, size) && l.start % PAGE_SIZE == 0
    requires Inside(l.start, size, l.segments)
    requires forall f: Frame {:trigger FrameType(l.was, f)} :: ty(f) == FrameType(l.was, f)
    ensures BootTyped(l, ty, phys.typeOf, taken)
  {
    hide Loading, Reserved, IsFileFrame, FrameType;
    forall g: Frame | IsFileFrame(l, g)
      ensures InModule(l.m, Base(g))
    {
      FileFramesInside(l.start, size, l.segments, l, g);
    }
    assert Aligned(l.m);
    forall f: Frame
      ensures IsFileFrame(l, f) ==> f !in taken
      ensures if IsFileFrame(l, f) || f in taken then phys.typeOf(f) == Some(UsedByUserMode) && !UserTyped(ty(f))
              else phys.typeOf(f) == ty(f) || (!UserTyped(phys.typeOf(f)) && !UserTyped(ty(f)))
    {
      BootFrame(l, phys.types, taken, f);
      assert phys.typeOf(f) == FrameType(phys.types, f) && ty(f) == FrameType(l.was, f);
    }
  }

  // --- File pages and file frames ---

  lemma FrameOfFilePage(l: Load, i: nat, p: nat)
    requires i < |l.segments| && FilePageOf(l.segments[i], p)
    ensures RefersTo(l.start, l.segments[i], Base(FileFrame(l.start, l.segments[i], p)))
    ensures IsFileFrame(l, FileFrame(l.start, l.segments[i], p))
  {
  }

  lemma FilePageOfFrame(start: nat, seg: Segment, f: Frame) returns (p: nat)
    requires RefersTo(start, seg, Base(f))
    ensures FilePageOf(seg, p) && FileFrame(start, seg, p) == f
  {
    p := FirstPage(seg) + (f - (start + seg.offset) / PAGE_SIZE);
  }

  /** Two pages on one frame belong to two segments that have it in common. */
  lemma CommonFrame(start: nat, segments: seq<Segment>, i: nat, p: nat, j: nat, q: nat)
    requires i < |segments| && j < |segments| && FilePageOf(segments[i], p) && FilePageOf(segments[j], q)
    requires FileFrame(start, segments[i], p) == FileFrame(start, segments[j], q) && p != q
    ensures !NoCommonFrame(start, segments)
  {
    assert i != j;
    var a, b := segments[i], segments[j];
    assert !FramesApart(start, a, b) && HasFrames(a) && HasFrames(b);
    if j < i { assert !FramesApart(start, b, a); }
  }

  /** Segments that have a frame in common have two pages on it. */
  lemma SharedFramePages(start: nat, segments: seq<Segment>, size: nat) returns (p: nat, i: nat, q: nat, j: nat)
    requires Loadable(segments, size) && !NoCommonFrame(start, segments)
    ensures i < |segments| && j < |segments| && FilePageOf(segments[i], p) && FilePageOf(segments[j], q) && p != q
    ensures FileFrame(start, segments[i], p) == FileFrame(start, segments[j], q)
  {
    hide FilePages, FirstPage, FileFrame, RefersTo, LeavesHalf, FramesApart;
    i, j :| 0 <= i < j < |segments| && HasFrames(segments[i]) && HasFrames(segments[j])
         && !FramesApart(start, segments[i], segments[j]);
    var f := CommonTo(start, segments[i], segments[j]);
    p := FilePageOfFrame(start, segments[i], f);
    q := FilePageOfFrame(start, segments[j], f);
    FileIsPage(segments[i], p);
    FileIsPage(segments[j], q);
  }

  lemma CommonTo(start: nat, a: Segment, b: Segment) returns (f: Frame)
    requires HasFrames(a) && HasFrames(b) && !FramesApart(start, a, b)
    ensures RefersTo(start, a, Base(f)) && RefersTo(start, b, Base(f))
  {
    hide FilePages;
    f := Max((start + a.offset) / PAGE_SIZE, (start + b.offset) / PAGE_SIZE);
  }

  lemma FileIsPage(seg: Segment, p: nat)
    requires FilePageOf(seg, p)
    ensures LoadsPage(seg, p)
  {
  }

  // --- The books of the whole system ---

  /** The task is new to the system. */
  ghost predicate NoSlots(rest: Holding, task: TaskId) {
    forall r: Slot :: !r.Shared? && r.task == task ==> rest(r) == None
  }

  /** A slot of the task's own. */
  ghost predicate OwnSlot(task: TaskId, s: Space, own: map<nat, Frame>, taken: set<Frame>, r: Slot, f: Frame) {
    Slots(task, s, own)(r) == Some(f) && f in taken && !r.Shared?
  }

  /** A file page. */
  ghost predicate FileSlot(task: TaskId, l: Load, r: Slot, f: Frame) {
    r.Data? && r.task == task && IsFileFrame(l, f) && OnFrame(l, r.page, f)
  }

  ghost predicate OnFrame(l: Load, p: nat, f: Frame) {
    exists i: nat :: i < |l.segments| && FilePageOf(l.segments[i], p) && f == FileFrame(l.start, l.segments[i], p)
  }

  /** A slot of the system with the first task: somebody else's, one of the task's own, or a file page. */
  lemma SlotKind(rest: Holding, task: TaskId, l: Load, s: Space, own: map<nat, Frame>, taken: set<Frame>, r: Slot,
                 f: Frame)
    requires Books(task, s, own, taken) && Laid(s, own, l.start, l.segments) && NoSlots(rest, task)
    requires With(rest, task, s)(r) == Some(f)
    ensures rest(r) == Some(f) || OwnSlot(task, s, own, taken, r, f) || FileSlot(task, l, r, f)
  {
    hide IsFileFrame, FilePageOf;
    if !r.Shared? && r.task == task && r.Data? && r.page !in own {
      var i: nat :| i < |l.segments| && FilePageOf(l.segments[i], r.page);
      FrameOfFilePage(l, i, r.page);
    } else if !r.Shared? && r.task == task {
      assert Slots(task, s, own)(r) == Some(f);
    }
  }

  lemma RestIsUserTyped(l: Load, ty: Types, ty': Types, rest: Holding, taken: set<Frame>, r: Slot, f: Frame)
    requires Owned(ty, rest, {}) && BootTyped(l, ty, ty', taken) && rest(r) == Some(f)
    ensures ty'(f) == ty(f) && TypeFits(r, ty(f)) && !IsFileFrame(l, f) && f !in taken
  {
    hide IsFileFrame;
    assert TypeFits(r, ty(rest(r).value));
    assert ty'(f) == ty'(f);
  }

  /** Two slots with one private frame are the same slot, if segments have no frame in common. */
  lemma BootExclusive(l: Load, ty: Types, ty': Types, rest: Holding, task: TaskId, s: Space, own: map<nat, Frame>,
                      taken: set<Frame>, r: Slot, q: Slot, f: Frame)
    requires Owned(ty, rest, {}) && NoSlots(rest, task) && BootTyped(l, ty, ty', taken)
    requires Books(task, s, own, taken) && Laid(s, own, l.start, l.segments) && NoCommonFrame(l.start, l.segments)
    requires With(rest, task, s)(r) == Some(f) && With(rest, task, s)(q) == Some(f)
    requires ty'(f) == Some(UsedByUserMode) || (r.Shared? && q.Shared?)
    ensures r == q
  {
    SlotKind(rest, task, l, s, own, taken, r, f);
    SlotKind(rest, task, l, s, own, taken, q, f);
    hide With, Slots, Laid, IsFileFrame, NoCommonFrame, FilePageOf, FileFrame;
    if rest(r) == Some(f) {
      RestIsUserTyped(l, ty, ty', rest, taken, r, f);
    } else if rest(q) == Some(f) {
      RestIsUserTyped(l, ty, ty', rest, taken, q, f);
    } else if FileSlot(task, l, r, f) && FileSlot(task, l, q, f) && r != q {
      var i: nat :| i < |l.segments| && FilePageOf(l.segments[i], r.page)
                 && f == FileFrame(l.start, l.segments[i], r.page);
      var j: nat :| j < |l.segments| && FilePageOf(l.segments[j], q.page)
                 && f == FileFrame(l.start, l.segments[j], q.page);
      CommonFrame(l.start, l.segments, i, r.page, j, q.page);
    }
  }

  lemma BootWellTyped(l: Load, ty: Types, ty': Types, rest: Holding, task: TaskId, s: Space, own: map<nat, Frame>,
                      taken: set<Frame>, r: Slot, f: Frame)
    requires Owned(ty, rest, {}) && NoSlots(rest, task) && BootTyped(l, ty, ty', taken)
    requires Books(task, s, own, taken) && Laid(s, own, l.start, l.segments) && With(rest, task, s)(r) == Some(f)
    ensures TypeFits(r, ty'(f)) && (r.Data? && ty'(f) == Some(SharedBuffer) ==> InRegistry(With(rest, task, s), f))
  {
    SlotKind(rest, task, l, s, own, taken, r, f);
    SameRegistry(rest, task, s, f);
    hide With, Slots, Laid, Books, IsFileFrame;
    if rest(r) == Some(f) {
      RestIsUserTyped(l, ty, ty', rest, taken, r, f);
      assert r.Data? && ty(rest(r).value) == Some(SharedBuffer) ==> InRegistry(rest, f);
    } else {
      assert ty'(f) == Some(UsedByUserMode);
    }
  }

  lemma BootNoLeak(l: Load, ty: Types, ty': Types, rest: Holding, task: TaskId, s: Space, own: map<nat, Frame>,
                   taken: set<Frame>, f: Frame)
    requires Owned(ty, rest, {}) && NoSlots(rest, task) && BootTyped(l, ty, ty', taken)
    requires Books(task, s, own, taken) && Laid(s, own, l.start, l.segments) && UserTyped(ty'(f))
    ensures Held(With(rest, task, s), f)
  {
    var h := With(rest, task, s);
    if f in taken {
      var r: Slot :| Slots(task, s, own)(r) == Some(f);
      assert h(r) == Some(f);
    } else if IsFileFrame(l, f) {
      var i :| 0 <= i < |l.segments| && RefersTo(l.start, l.segments[i], Base(f));
      var p := FilePageOfFrame(l.start, l.segments[i], f);
      assert h(Data(task, p)) == Some(f);
    } else {
      assert ty'(f) == ty(f) && Held(rest, f);
      var r: Slot :| rest(r) == Some(f);
      assert h(r) == Some(f);
    }
  }

  /** The first task fits into the accounting if and only if no two of its segments refer to a common frame. */
  lemma BootOwned(l: Load, ty: Types, ty': Types, rest: Holding, task: TaskId, s: Space, own: map<nat, Frame>,
                  taken: set<Frame>, size: nat)
    requires Owned(ty, rest, {}) && NoSlots(rest, task) && BootTyped(l, ty, ty', taken) && Loadable(l.segments, size)
    requires Books(task, s, own, taken) && Laid(s, own, l.start, l.segments)
    ensures Owned(ty', With(rest, task, s), {}) <==> NoCommonFrame(l.start, l.segments)
  {
    hide Books, Laid, BootTyped, NoCommonFrame, NoSlots, Loadable, TypeFits;
    var h := With(rest, task, s);
    if NoCommonFrame(l.start, l.segments) {
      hide With;
      forall r: Slot | h(r).Some?
        ensures TypeFits(r, ty'(h(r).value))
        ensures r.Data? && ty'(h(r).value) == Some(SharedBuffer) ==> InRegistry(h, h(r).value)
      {
        BootWellTyped(l, ty, ty', rest, task, s, own, taken, r, h(r).value);
      }
      forall r: Slot, q: Slot | h(r).Some? && h(r) == h(q)
          && (ty'(h(r).value) == Some(UsedByUserMode) || (r.Shared? && q.Shared?))
        ensures r == q
      {
        BootExclusive(l, ty, ty', rest, task, s, own, taken, r, q, h(r).value);
      }
      forall f: Frame | UserTyped(ty'(f)) ensures Held(h, f) { BootNoLeak(l, ty, ty', rest, task, s, own, taken, f); }
    } else {
      SharedFrameBreaks(l, ty, ty', rest, task, s, own, taken, size);
    }
  }

  lemma SharedFrameBreaks(l: Load, ty: Types, ty': Types, rest: Holding, task: TaskId, s: Space, own: map<nat, Frame>,
                          taken: set<Frame>, size: nat)
    requires BootTyped(l, ty, ty', taken) && Loadable(l.segments, size) && Laid(s, own, l.start, l.segments)
    requires !NoCommonFrame(l.start, l.segments)
    ensures !Owned(ty', With(rest, task, s), {})
  {
    var p, i, q, j := SharedFramePages(l.start, l.segments, size);
    FileSlotIs(l, ty, ty', rest, task, s, own, taken, i, p);
    FileSlotIs(l, ty, ty', rest, task, s, own, taken, j, q);
    hide BootTyped, Laid, FilePageOf, FileFrame, Loadable, NoCommonFrame, Owned, With;
    TwoSlots(ty', With(rest, task, s), Data(task, p), Data(task, q), FileFrame(l.start, l.segments[i], p));
  }

  lemma FileSlotIs(l: Load, ty: Types, ty': Types, rest: Holding, task: TaskId, s: Space, own: map<nat, Frame>,
                   taken: set<Frame>, i: nat, p: nat)
    requires BootTyped(l, ty, ty', taken) && Laid(s, own, l.start, l.segments) && i < |l.segments|
    requires FilePageOf(l.segments[i], p)
    ensures var f := FileFrame(l.start, l.segments[i], p);
      With(rest, task, s)(Data(task, p)) == Some(f) && ty'(f) == Some(UsedByUserMode)
  {
    FrameOfFilePage(l, i, p);
    hide IsFileFrame, FilePages, FirstPage;
    assert ty'(s.pages[p]) == Some(UsedByUserMode);
  }

  lemma TwoSlots(ty: Types, h: Holding, r: Slot, q: Slot, f: Frame)
    requires h(r) == Some(f) && h(q) == Some(f) && r != q && ty(f) == Some(UsedByUserMode)
    ensures !Owned(ty, h, {})
  {
  }

  // --- What the task reads ---

  /** The module's bytes are in memory. */
  ghost predicate ModuleHolds(ram: Ram, start: nat, bytes: seq<Byte>) {
    forall at: nat :: at < |bytes| ==> ram((start + at) / PAGE_SIZE)[(start + at) % PAGE_SIZE] == bytes[at]
  }

  /** The place in the module that an address on a file page shows. */
  function Position(seg: Segment, v: nat): nat
    requires FirstPage(seg) <= v / PAGE_SIZE
  {
    seg.offset / PAGE_SIZE * PAGE_SIZE + (v - FirstPage(seg) * PAGE_SIZE)
  }

  /** The place is behind the file bytes of a segment that goes on with zeros, on the same page. */
  ghost predicate InTail(segments: seq<Segment>, at: nat) {
    exists i :: 0 <= i < |segments| && Tailed(segments[i]) && BehindTail(segments[i].offset + segments[i].filesz, at)
  }

  /** What is left of the file in the module. */
  ghost function BootByte(bytes: seq<Byte>, segments: seq<Segment>, at: nat): Byte {
    if at < |bytes| && !InTail(segments, at) then bytes[at] else 0
  }

  lemma AlignedTail(start: nat, tail: nat, at: nat)
    requires start % PAGE_SIZE == 0
    ensures BehindTail(start + tail, start + at) <==> BehindTail(tail, at)
  {
    ShiftedPages(start, tail);
  }

  lemma WipedPlace(start: nat, size: nat, segments: seq<Segment>, at: nat)
    requires start % PAGE_SIZE == 0
    ensures Wiped(start, size, segments, start + at) <==> InTail(segments, at) || BehindTail(size, at)
  {
    hide BehindTail;
    AlignedTail(start, size, at);
    forall i | 0 <= i < |segments|
      ensures BehindTail(TailOf(start, segments[i]), start + at) <==>
        BehindTail(segments[i].offset + segments[i].filesz, at)
    {
      AlignedTail(start, segments[i].offset + segments[i].filesz, at);
    }
  }

  /** Where a file page leads. */
  lemma PlaceOfFilePage(start: nat, seg: Segment, v: nat)
    requires start % PAGE_SIZE == 0 && FilePageOf(seg, v / PAGE_SIZE)
    ensures start + Position(seg, v) == Base(FileFrame(start, seg, v / PAGE_SIZE)) + v % PAGE_SIZE
    ensures (start + Position(seg, v)) / PAGE_SIZE == FileFrame(start, seg, v / PAGE_SIZE)
    ensures (start + Position(seg, v)) % PAGE_SIZE == v % PAGE_SIZE
    ensures start + Position(seg, v) < FrameEnd(start, seg)
  {
    ShiftedPages(start, seg.offset);
  }

  /** The first task reads the module's bytes in place: on file pages what is left of the file at the place
      the address shows, on zero pages zero. */
  lemma BootReads(l: Load, s: Space, own: map<nat, Frame>, taken: set<Frame>, ram: Ram, ram': Ram, now: TypeMap,
                  bytes: seq<Byte>, i: nat, v: nat)
    requires bytes != [] && l.start % PAGE_SIZE == 0 && l.m == ModuleExtent(l.start, |bytes|)
    requires Inside(l.start, |bytes|, l.segments)
    requires Loading(l, now, taken) && Laid(s, own, l.start, l.segments) && ZeroFilled(own, ram', l.segments)
    requires ModuleHolds(ram, l.start, bytes) && Kept(ram, ram', l.start, |bytes|, l.segments, taken)
    requires i < |l.segments| && l.segments[i].load && OnPages(l.segments[i], v)
    ensures ByteAt(s, ram', v) ==
      Some(if FilePageOf(l.segments[i], v / PAGE_SIZE) then BootByte(bytes, l.segments, Position(l.segments[i], v))
           else 0)
  {
    hide Loading, Inside, InTail, ModuleHolds, Kept, Wiped, FilePages, ExtraPages, FirstPage, Position;
    var seg, p := l.segments[i], v / PAGE_SIZE;
    if FilePageOf(seg, p) {
      FileByteLeft(l, taken, ram, ram', now, bytes, i, v);
    } else {
      assert ZeroPageOf(seg, p);
    }
  }

  lemma FileByteLeft(l: Load, taken: set<Frame>, ram: Ram, ram': Ram, now: TypeMap, bytes: seq<Byte>, i: nat, v: nat)
    requires bytes != [] && l.start % PAGE_SIZE == 0 && l.m == ModuleExtent(l.start, |bytes|)
    requires Inside(l.start, |bytes|, l.segments)
    requires Loading(l, now, taken) && ModuleHolds(ram, l.start, bytes)
    requires Kept(ram, ram', l.start, |bytes|, l.segments, taken)
    requires i < |l.segments| && FilePageOf(l.segments[i], v / PAGE_SIZE)
    ensures ram'(FileFrame(l.start, l.segments[i], v / PAGE_SIZE))[v % PAGE_SIZE] ==
      BootByte(bytes, l.segments, Position(l.segments[i], v))
  {
    hide Loading, Inside, InTail, FilePages, FirstPage, Position, IsFileFrame, Wiped, NextMultiple, ModuleExtent,
         FrameEnd;
    var seg := l.segments[i];
    var f, at := FileFrame(l.start, seg, v / PAGE_SIZE), Position(seg, v);
    FrameOfFilePage(l, i, v / PAGE_SIZE);
    FileFramesInside(l.start, |bytes|, l.segments, l, f);
    FileFrameNotTaken(l, now, taken, f);
    PlaceOfFilePage(l.start, seg, v);
    WipedPlace(l.start, |bytes|, l.segments, at);
    InsideAt(l.start, |bytes|, l.segments, i, l.start + at);
    EndOfModule(l.start, |bytes|, at);
    hide FileFrame, FilePageOf, RefersTo;
  }

  lemma InsideAt(start: nat, size: nat, segments: seq<Segment>, i: nat, x: nat)
    requires Inside(start, size, segments) && i < |segments| && HasFrames(segments[i])
    requires x < FrameEnd(start, segments[i])
    ensures x < NextMultiple(start + size)
  {
  }

  lemma EndOfModule(start: nat, size: nat, at: nat)
    requires start % PAGE_SIZE == 0 && start + at < NextMultiple(start + size)
    ensures at < size || BehindTail(size, at)
  {
    ShiftedPages(start, size);
  }

  lemma FileFrameNotTaken(l: Load, now: TypeMap, taken: set<Frame>, f: Frame)
    requires Loading(l, now, taken) && IsFileFrame(l, f) && InModule(l.m, Base(f))
    ensures f !in taken
  {
    assert InFrame(f, Base(f));
  }

  /** Offset and address of a segment are congruent, as the System V ABI (chapter 5, Program Header) demands. */
  predicate Congruent(seg: Segment) {
    seg.offset % PAGE_SIZE == seg.vaddr % PAGE_SIZE
  }

  /** Byte k of a congruent segment with file bytes: on a file page it shows byte offset + k of the module,
      and past the file bytes that is behind the segment's own tail. */
  lemma ByteOfSegment(segments: seq<Segment>, i: nat, k: nat)
    requires i < |segments| && segments[i].load && segments[i].filesz > 0 && Congruent(segments[i])
    requires k < Max(segments[i].filesz, segments[i].memsz)
    ensures var seg, v := segments[i], segments[i].vaddr + k;
      && OnPages(seg, v) && (k < seg.filesz ==> FilePageOf(seg, v / PAGE_SIZE))
      && (FilePageOf(seg, v / PAGE_SIZE) ==> Position(seg, v) == seg.offset + k)
      && (FilePageOf(seg, v / PAGE_SIZE) && seg.filesz <= k ==> InTail(segments, seg.offset + k))
  {
    var seg, v := segments[i], segments[i].vaddr + k;
    OnPagesWhenCovered(seg, v);
    if FilePageOf(seg, v / PAGE_SIZE) && seg.filesz <= k {
      assert Tailed(seg) && BehindTail(seg.offset + seg.filesz, seg.offset + k) by { TailOnPage(seg, k); }
    }
  }

  lemma TailOnPage(seg: Segment, k: nat)
    requires seg.filesz > 0 && Congruent(seg) && seg.filesz <= k && FilePageOf(seg, (seg.vaddr + k) / PAGE_SIZE)
    ensures BehindTail(seg.offset + seg.filesz, seg.offset + k)
  {
    assert (seg.vaddr + k) / PAGE_SIZE < PageCount(seg.vaddr + seg.filesz);
    TailEnd(seg.offset + seg.filesz, seg.vaddr + seg.filesz, k - seg.filesz);
  }

  /** Congruent numbers are equally far from the next multiple. */
  lemma TailEnd(a: nat, b: nat, d: nat)
    requires a % PAGE_SIZE == b % PAGE_SIZE && (b + d) / PAGE_SIZE < PageCount(b)
    ensures a + d < NextMultiple(a)
  {
    RoundedUp(a);
    RoundedUp(b);
    hide PageCount, NextMultiple;
    assert b == b / PAGE_SIZE * PAGE_SIZE + b % PAGE_SIZE && a == a / PAGE_SIZE * PAGE_SIZE + a % PAGE_SIZE;
  }

  lemma RoundedUp(x: nat)
    ensures PageCount(x) == x / PAGE_SIZE + if x % PAGE_SIZE == 0 then 0 else 1
    ensures NextMultiple(x) == PageCount(x) * PAGE_SIZE
  {
  }

  /** What the first task finds at byte k of a segment. */
  lemma ImageByte(l: Load, s: Space, own: map<nat, Frame>, taken: set<Frame>, ram: Ram, ram': Ram, now: TypeMap,
                  bytes: seq<Byte>, i: nat, k: nat)
    requires bytes != [] && l.start % PAGE_SIZE == 0 && l.m == ModuleExtent(l.start, |bytes|)
    requires Inside(l.start, |bytes|, l.segments)
    requires Loading(l, now, taken) && Laid(s, own, l.start, l.segments) && ZeroFilled(own, ram', l.segments)
    requires ModuleHolds(ram, l.start, bytes) && Kept(ram, ram', l.start, |bytes|, l.segments, taken)
    requires i < |l.segments| && l.segments[i].load && l.segments[i].filesz > 0 && Congruent(l.segments[i])
    requires l.segments[i].offset + l.segments[i].filesz <= |bytes|
    requires k < Max(l.segments[i].filesz, l.segments[i].memsz)
    ensures var seg := l.segments[i];
      ByteAt(s, ram', seg.vaddr + k) ==
        Some(if k < seg.filesz && !InTail(l.segments, seg.offset + k) then bytes[seg.offset + k] else 0)
  {
    hide Loading, Laid, ZeroFilled, ModuleHolds, Kept, Inside, InTail, FilePageOf, PageOf, ByteAt, Congruent, Position;
    ByteOfSegment(l.segments, i, k);
    BootReads(l, s, own, taken, ram, ram', now, bytes, i, l.segments[i].vaddr + k);
  }

  /** Segments without a common frame have no file byte behind another's tail. */
  lemma NoTailInFile(start: nat, segments: seq<Segment>, i: nat, k: nat)
    requires start % PAGE_SIZE == 0 && NoCommonFrame(start, segments)
    requires forall j :: 0 <= j < |segments| && segments[j].load ==> Congruent(segments[j])
    requires i < |segments| && segments[i].load && k < segments[i].filesz
    ensures !InTail(segments, segments[i].offset + k)
  {
    hide NoCommonFrame, RefersTo, BehindTail, Congruent;
    var at := segments[i].offset + k;
    forall j: nat | j < |segments| && Tailed(segments[j])
      ensures !BehindTail(segments[j].offset + segments[j].filesz, at)
    {
      if BehindTail(segments[j].offset + segments[j].filesz, at) {
        FrameOfByteIn(start, segments[i], k);
        TailSharesFrame(start, segments[j], at);
        NotBehindItself(segments[i], segments[j], k);
        InCommon(start, segments, i, j, (start + at) / PAGE_SIZE * PAGE_SIZE);
      }
    }
  }

  lemma NotBehindItself(a: Segment, b: Segment, k: nat)
    requires k < a.filesz && BehindTail(b.offset + b.filesz, a.offset + k)
    ensures a != b
  {
  }

  /** What is behind a tail is on the frame of the segment's last file byte. */
  lemma TailSharesFrame(start: nat, seg: Segment, at: nat)
    requires start % PAGE_SIZE == 0 && Tailed(seg) && Congruent(seg) && BehindTail(seg.offset + seg.filesz, at)
    ensures RefersTo(start, seg, (start + at) / PAGE_SIZE * PAGE_SIZE)
  {
    var last := seg.offset + seg.filesz - 1;
    SamePage(last, at);
    ShiftedPages(start, at);
    ShiftedPages(start, last);
    hide RefersTo, Congruent, Tailed, BehindTail;
    FrameOfByteIn(start, seg, seg.filesz - 1);
  }

  lemma SamePage(last: nat, at: nat)
    requires BehindTail(last + 1, at)
    ensures at / PAGE_SIZE == last / PAGE_SIZE
  {
  }

  lemma InCommon(start: nat, segments: seq<Segment>, i: nat, j: nat, x: nat)
    requires i < |segments| && j < |segments| && i != j && NoCommonFrame(start, segments)
    requires RefersTo(start, segments[i], x)
    ensures !RefersTo(start, segments[j], x)
  {
    hide FilePages;
  }

  /** A file byte of a congruent segment is on one of its file frames. */
  lemma FrameOfByteIn(start: nat, seg: Segment, k: nat)
    requires start % PAGE_SIZE == 0 && seg.load && Congruent(seg) && k < seg.filesz
    ensures RefersTo(start, seg, (start + seg.offset + k) / PAGE_SIZE * PAGE_SIZE)
  {
    PagesFrom(seg.vaddr, seg.filesz);
    PagesFrom(seg.offset, seg.filesz);
    ShiftedPages(start, seg.offset);
    ShiftedPages(start, seg.offset + k);
  }

  /** Byte k of the segment is in its place. */
  ghost predicate ReadsByte(s: Space, ram: Ram, bytes: seq<Byte>, seg: Segment, k: nat)
    requires InFile(bytes, seg)
  {
    ByteAt(s, ram, seg.vaddr + k) == Some(if k < seg.filesz then bytes[seg.offset + k] else 0)
  }

  ghost predicate ReadsSegment(s: Space, ram: Ram, bytes: seq<Byte>, seg: Segment)
    requires InFile(bytes, seg)
  {
    forall k: nat :: k < Max(seg.filesz, seg.memsz) ==> ReadsByte(s, ram, bytes, seg, k)
  }

  /** A cleared tail takes byte k of the segment. */
  ghost predicate Loses(bytes: seq<Byte>, segments: seq<Segment>, seg: Segment, k: nat)
    requires InFile(bytes, seg) && k < seg.filesz
  {
    InTail(segments, seg.offset + k) && bytes[seg.offset + k] != 0
  }

  ghost predicate NothingLost(bytes: seq<Byte>, segments: seq<Segment>, seg: Segment)
    requires InFile(bytes, seg)
  {
    forall k: nat :: k < seg.filesz ==> !Loses(bytes, segments, seg, k)
  }

  /** A congruent segment reads right if and only if no cleared tail takes a byte of it. */
  lemma ImageIsRightExactly(l: Load, s: Space, own: map<nat, Frame>, taken: set<Frame>, ram: Ram, ram': Ram,
                            now: TypeMap, bytes: seq<Byte>, i: nat)
    requires bytes != [] && l.start % PAGE_SIZE == 0 && l.m == ModuleExtent(l.start, |bytes|)
    requires Inside(l.start, |bytes|, l.segments)
    requires Loading(l, now, taken) && Laid(s, own, l.start, l.segments) && ZeroFilled(own, ram', l.segments)
    requires ModuleHolds(ram, l.start, bytes) && Kept(ram, ram', l.start, |bytes|, l.segments, taken)
    requires i < |l.segments| && l.segments[i].load && l.segments[i].filesz > 0 && Congruent(l.segments[i])
    requires InFile(bytes, l.segments[i])
    ensures ReadsSegment(s, ram', bytes, l.segments[i]) <==> NothingLost(bytes, l.segments, l.segments[i])
  {
    hide Loading, Laid, ZeroFilled, ModuleHolds, Kept, Inside, InTail, ByteAt, Congruent;
    var seg := l.segments[i];
    forall k: nat | k < Max(seg.filesz, seg.memsz)
      ensures ReadsByte(s, ram', bytes, seg, k) <==> (k < seg.filesz ==> !Loses(bytes, l.segments, seg, k))
    {
      ImageByte(l, s, own, taken, ram, ram', now, bytes, i, k);
    }
  }

  /** Two segments on one page of the file: the zeros of the first take the byte of the second. */
  lemma SharedPageLosesAByte()
    ensures var a, b := Segment(true, 0, 0x40_0000, 1, 2), Segment(true, 1, 0x50_0001, 1, 1);
      && Loadable([a, b], 2) && Congruent(a) && Congruent(b) && Inside(0, 2, [a, b])
      && InTail([a, b], b.offset) && !NoCommonFrame(0, [a, b])
  {
    var a, b := Segment(true, 0, 0x40_0000, 1, 2), Segment(true, 1, 0x50_0001, 1, 1);
    var segments := [a, b];
    assert segments[0] == a && segments[1] == b;
    assert FilePages(a) == 1 && ExtraPages(a) == 0 && FilePages(b) == 1 && ExtraPages(b) == 0;
    assert FrameEnd(0, a) == PAGE_SIZE && FrameEnd(0, b) == PAGE_SIZE && NextMultiple(2) == PAGE_SIZE;
    assert BehindTail(1, 1) by { assert NextMultiple(1) == PAGE_SIZE; }
    hide FilePages, ExtraPages, FrameEnd, NextMultiple, BehindTail;
    assert Tailed(segments[0]);
    assert HasFrames(segments[0]) && HasFrames(segments[1]) && !FramesApart(0, segments[0], segments[1]);
  }
}
