/**
 A task's user page tables: the leaf map `pages` together with the table frames below the root.
 Installing a page creates the tables it lacks from the user-mode frame allocator and can fail at
 each of them; removing a page frees its frame if the frame is private.
 */
module PageTables {
  import opened Wrappers
  import opened IntervalMap
  import opened PhysicalMemory
  import opened UserVaddr
  import opened Ownership

  /** Pages of the lower half: the root entries 0..256. */
  const USER_PAGES: nat := 0x8_0000_0000

  datatype Space = Space(addrs: AddressSet, pages: map<nat, Frame>, tables: map<TableId, Frame>, l4: Frame)

  function TableFor(level: nat, page: nat): TableId {
    TableId(level, if level == 1 then page / 512 else if level == 2 then page / 262144 else page / 134217728)
  }

  /** A table in the lower half whose parent table exists. */
  predicate Hangs(tables: map<TableId, Frame>, id: TableId) {
    && 1 <= id.level <= 3
    && (id.level == 1 ==> id.index < 67108864 && TableId(2, id.index / 512) in tables)
    && (id.level == 2 ==> id.index < 131072 && TableId(3, id.index / 512) in tables)
    && (id.level == 3 ==> id.index < 256)
  }

  lemma TableParents(tables: map<TableId, Frame>, page: nat)
    requires page < USER_PAGES
    ensures Hangs(tables, TableFor(3, page))
    ensures TableFor(3, page) in tables ==> Hangs(tables, TableFor(2, page))
    ensures TableFor(2, page) in tables ==> Hangs(tables, TableFor(1, page))
  {
  }

  ghost predicate TablesOk(tables: map<TableId, Frame>) {
    forall id :: id in tables ==> Hangs(tables, id)
  }

  ghost predicate HasTables(tables: map<TableId, Frame>, page: nat) {
    TableFor(3, page) in tables && TableFor(2, page) in tables && TableFor(1, page) in tables
  }

  /** The mapped pages are in the lower half and reachable through tables. */
  ghost predicate PagesOk(s: Space) {
    TablesOk(s.tables) && forall p :: p in s.pages ==> p < USER_PAGES && HasTables(s.tables, p)
  }

  /** The mapped pages are exactly the pages of the address set. */
  ghost predicate AddrsOk(s: Space) {
    Canonical(s.addrs) && forall x: int :: Allocated(s.addrs, x) <==> x >= 0 && x / PAGE_SIZE in s.pages
  }

  /** The byte a task reads at address v. */
  function ByteAt(s: Space, ram: Ram, v: nat): Option<Byte> {
    if v / PAGE_SIZE in s.pages then Some(ram(s.pages[v / PAGE_SIZE])[v % PAGE_SIZE]) else None
  }

  /** The holdings of one task on top of everybody else's. */
  ghost function With(rest: Holding, task: TaskId, s: Space): Holding {
    (slot: Slot) =>
      match slot
      case Data(t, p) => if t != task then rest(slot) else if p in s.pages then Some(s.pages[p]) else None
      case Table(t, id) => if t != task then rest(slot) else if id in s.tables then Some(s.tables[id]) else None
      case Root(t) => if t != task then rest(slot) else Some(s.l4)
      case Shared(_, _) => rest(slot)
  }

  /** The books balance with `s` as the page tables of `task`. */
  ghost predicate Ledger(phys: PhysicalMemory, rest: Holding, task: TaskId, s: Space, fl: set<Frame>)
    reads phys
  {
    phys.Valid() && Owned(phys.typeOf, With(rest, task, s), fl)
  }

  /** Between two type maps only new page tables were taken from usable memory. */
  ghost predicate OnlyTables(ty: Types, ty': Types, tables: map<TableId, Frame>, tables': map<TableId, Frame>) {
    && (forall id :: id in tables ==> id in tables' && tables'[id] == tables[id])
    && forall g: Frame {:trigger ty'(g)} :: ty'(g) == ty(g) || BecameTable(ty, ty', tables, tables', g)
  }

  ghost predicate BecameTable(ty: Types, ty': Types, tables: map<TableId, Frame>, tables': map<TableId, Frame>,
                              g: Frame)
  {
    ty(g) == Some(Usable) && ty'(g) == Some(UsedByUserMode) && NewTable(tables, tables', g)
  }

  ghost predicate NewTable(tables: map<TableId, Frame>, tables': map<TableId, Frame>, g: Frame) {
    exists id :: id in tables' && id !in tables && tables'[id] == g
  }

  lemma OnlyTablesReflexive(ty: Types, tables: map<TableId, Frame>)
    ensures OnlyTables(ty, ty, tables, tables)
  {
  }

  lemma OnlyTablesTransitive(ty: Types, ty': Types, ty'': Types, a: map<TableId, Frame>, b: map<TableId, Frame>,
                             c: map<TableId, Frame>)
    requires OnlyTables(ty, ty', a, b) && OnlyTables(ty', ty'', b, c)
    ensures OnlyTables(ty, ty'', a, c)
  {
  }

  /** A usable frame becomes a page table of a task. */
  lemma AddTable(ty: Types, ty': Types, rest: Holding, task: TaskId, s: Space, fl: set<Frame>, id: TableId, f: Frame)
    requires Owned(ty, With(rest, task, s), fl) && ty(f) == Some(Usable) && SetType(ty, ty', f, UsedByUserMode)
    requires id !in s.tables
    ensures Owned(ty', With(rest, task, s.(tables := s.tables[id := f])), fl)
    ensures OnlyTables(ty, ty', s.tables, s.tables[id := f])
  {
    var s' := s.(tables := s.tables[id := f]);
    var h, h' := With(rest, task, s), With(rest, task, s');
    Reserve(ty, ty', h, fl, f, UsedByUserMode);
    Attach(ty', h, h', fl + {f}, Table(task, id), f);
    assert fl + {f} - {f} == fl;
    assert s'.tables[id] == f;
  }

  lemma AddrsDoNotHold(ty: Types, rest: Holding, task: TaskId, s: Space, s': Space, fl: set<Frame>)
    requires s' == s.(addrs := s'.addrs) && Owned(ty, With(rest, task, s), fl)
    ensures Owned(ty, With(rest, task, s'), fl)
  {
  }

  /** A frame that may be installed: private and in flight, or of a shared buffer. */
  ghost predicate Installable(ty: Types, rest: Holding, fl: set<Frame>, f: Frame) {
    || (ty(f) == Some(UsedByUserMode) && f in fl)
    || (ty(f) == Some(SharedBuffer) && (f in fl || InRegistry(rest, f)))
  }

  lemma SameRegistry(rest: Holding, task: TaskId, s: Space, f: Frame)
    ensures InRegistry(rest, f) <==> InRegistry(With(rest, task, s), f)
  {
  }

  lemma AddPage(ty: Types, rest: Holding, task: TaskId, s: Space, fl: set<Frame>, page: nat, f: Frame)
    requires Owned(ty, With(rest, task, s), fl) && Installable(ty, rest, fl, f) && page !in s.pages
    ensures Owned(ty, With(rest, task, s.(pages := s.pages[page := f])),
                  if ty(f) == Some(UsedByUserMode) then fl - {f} else fl)
  {
    var h, h' := With(rest, task, s), With(rest, task, s.(pages := s.pages[page := f]));
    if ty(f) == Some(UsedByUserMode) {
      Attach(ty, h, h', fl, Data(task, page), f);
    } else {
      SameRegistry(rest, task, s, f);
      AttachShared(ty, h, h', fl, Data(task, page), f);
    }
  }

  /** A page goes away: a private frame is freed, a shared frame keeps its type. */
  lemma RemovePage(ty: Types, ty': Types, rest: Holding, task: TaskId, s: Space, fl: set<Frame>, page: nat, f: Frame)
    requires Owned(ty, With(rest, task, s), fl) && page in s.pages && s.pages[page] == f
    requires if ty(f) == Some(UsedByUserMode) then SetType(ty, ty', f, Usable) else ty' == ty
    ensures Owned(ty', With(rest, task, s.(pages := s.pages - {page})), fl)
  {
    var h, h' := With(rest, task, s), With(rest, task, s.(pages := s.pages - {page}));
    Detach(ty, h, h', fl, Data(task, page), f);
    if ty(f) == Some(UsedByUserMode) {
      assert f !in fl by { assert h(Data(task, page)) == Some(f); }
      Release(ty, ty', h', fl + {f}, f);
      assert fl + {f} - {f} == fl;
    }
  }

  predicate InRange(first: nat, count: nat, page: nat) {
    first <= page < first + count
  }

  /** The leaf mappings outside a range of pages. */
  function PagesOutside(pages: map<nat, Frame>, first: nat, count: nat): map<nat, Frame> {
    map p | p in pages && !InRange(first, count, p) :: pages[p]
  }

  /** Some page of the range maps frame g. */
  ghost predicate MappedIn(pages: map<nat, Frame>, first: nat, count: nat, g: Frame) {
    exists p :: InRange(first, count, p) && p in pages && pages[p] == g
  }

  /** Exactly the private frames mapped in the range became usable. */
  ghost predicate FreedIn(ty: Types, ty': Types, pages: map<nat, Frame>, first: nat, count: nat) {
    forall g: Frame {:trigger ty'(g)} ::
      ty'(g) == if ty(g) == Some(UsedByUserMode) && MappedIn(pages, first, count, g) then Some(Usable) else ty(g)
  }

  lemma OutsideNothing(ty: Types, pages: map<nat, Frame>, first: nat)
    ensures PagesOutside(pages, first, 0) == pages && FreedIn(ty, ty, pages, first, 0)
  {
  }

  lemma OutsideOneMore(pages: map<nat, Frame>, first: nat, count: nat)
    ensures PagesOutside(pages, first, count) - {first + count} == PagesOutside(pages, first, count + 1)
    ensures first + count in PagesOutside(pages, first, count) <==> first + count in pages
  {
  }

  lemma FreedOneMore(ty: Types, ty1: Types, ty2: Types, pages: map<nat, Frame>, first: nat, count: nat)
    requires FreedIn(ty, ty1, pages, first, count)
    requires var p := first + count;
      if p in pages && ty1(pages[p]) == Some(UsedByUserMode) then SetType(ty1, ty2, pages[p], Usable) else ty2 == ty1
    ensures FreedIn(ty, ty2, pages, first, count + 1)
  {
  }

  /** `now` is `was` with one new page, mapping f. */
  ghost predicate PutPage(was: map<nat, Frame>, now: map<nat, Frame>, page: nat, f: Frame) {
    && page !in was && page in now && now[page] == f
    && (forall p: nat :: p in now <==> p in was || p == page)
    && (forall p :: p in was ==> p in now && now[p] == was[p])
  }

  /** `now` maps what `was` mapped and the first k pages of a range besides. */
  ghost predicate Extended(was: map<nat, Frame>, now: map<nat, Frame>, first: nat, k: nat) {
    && (forall p: nat :: p in now <==> p in was || InRange(first, k, p))
    && (forall p :: p in was ==> p in now && now[p] == was[p])
  }

  lemma ExtendedByOne(a: map<nat, Frame>, b: map<nat, Frame>, c: map<nat, Frame>, first: nat, k: nat, f: Frame)
    requires Extended(a, b, first, k) && PutPage(b, c, first + k, f)
    ensures Extended(a, c, first, k + 1)
  {
  }

  /** After taking n pages of addresses and mapping exactly those, the two agree again. */
  lemma AddrsAfterMap(s: Space, s': Space, first: nat, n: nat)
    requires AddrsOk(s) && Added(s.addrs, s'.addrs, first * PAGE_SIZE, n) && Extended(s.pages, s'.pages, first, n)
    ensures AddrsOk(s')
  {
  }

  /** Usable frames became page tables or fresh pages of the range, of type t; nothing else changed. */
  ghost predicate GrownBy(ty: Types, ty': Types, s: Space, s': Space, first: nat, k: nat, t: MemoryType) {
    && (forall id :: id in s.tables ==> id in s'.tables && s'.tables[id] == s.tables[id])
    && (forall g: Frame {:trigger ty'(g)} ::
          if MappedIn(s'.pages, first, k, g) then ty(g) == Some(Usable) && ty'(g) == Some(t)
          else ty'(g) == ty(g) || BecameTable(ty, ty', s.tables, s'.tables, g))
  }

  lemma GrownByNothing(ty: Types, s: Space, first: nat, t: MemoryType)
    ensures GrownBy(ty, ty, s, s, first, 0, t) && Extended(s.pages, s.pages, first, 0)
  {
  }

  lemma MappedInGrows(pages: map<nat, Frame>, pages': map<nat, Frame>, first: nat, k: nat, f: Frame)
    requires PutPage(pages, pages', first + k, f)
    ensures forall g: Frame :: MappedIn(pages', first, k + 1, g) <==> MappedIn(pages, first, k, g) || g == f
  {
    assert InRange(first, k + 1, first + k) && pages'[first + k] == f;
    forall g: Frame ensures MappedIn(pages', first, k + 1, g) <==> MappedIn(pages, first, k, g) || g == f {
      if MappedIn(pages, first, k, g) {
        var q :| InRange(first, k, q) && q in pages && pages[q] == g;
        assert InRange(first, k + 1, q) && pages'[q] == g;
      }
      if MappedIn(pages', first, k + 1, g) {
        var q :| InRange(first, k + 1, q) && q in pages' && pages'[q] == g;
        if q != first + k { assert InRange(first, k, q) && pages[q] == g; }
      }
    }
  }

  /** One more page of the range: allocate a frame of type t (ty1 to ty2), then install it (ty2 to ty3). */
  lemma GrownStep(ty: Types, ty1: Types, ty2: Types, ty3: Types, s: Space, s1: Space, s3: Space, first: nat, k: nat,
                  f: Frame, t: MemoryType)
    requires UserTyped(Some(t)) && GrownBy(ty, ty1, s, s1, first, k, t)
    requires ty1(f) == Some(Usable) && SetType(ty1, ty2, f, t) && OnlyTables(ty2, ty3, s1.tables, s3.tables)
    requires PutPage(s1.pages, s3.pages, first + k, f)
    ensures GrownBy(ty, ty3, s, s3, first, k + 1, t)
  {
    MappedInGrows(s1.pages, s3.pages, first, k, f);
    forall g: Frame
      ensures if MappedIn(s3.pages, first, k + 1, g) then ty(g) == Some(Usable) && ty3(g) == Some(t)
              else ty3(g) == ty(g) || BecameTable(ty, ty3, s.tables, s3.tables, g)
    {
      TablesStay(ty2, ty3, s, s1, s3, g);
      assert ty2(g) == if g == f then Some(t) else ty1(g);
    }
  }

  lemma TablesStay(ty2: Types, ty3: Types, s: Space, s1: Space, s3: Space, g: Frame)
    requires OnlyTables(ty2, ty3, s1.tables, s3.tables)
    requires forall id :: id in s.tables ==> id in s1.tables && s1.tables[id] == s.tables[id]
    ensures NewTable(s.tables, s1.tables, g) || NewTable(s1.tables, s3.tables, g) ==> NewTable(s.tables, s3.tables, g)
  {
  }

  /** The install fails and the frame is freed again (ty3 to ty4): only tables remain of the step. */
  lemma GrownUndo(ty: Types, ty1: Types, ty2: Types, ty3: Types, ty4: Types, s: Space, s1: Space, s3: Space, first: nat,
                  k: nat, f: Frame, t: MemoryType)
    requires UserTyped(Some(t)) && GrownBy(ty, ty1, s, s1, first, k, t)
    requires ty1(f) == Some(Usable) && SetType(ty1, ty2, f, t) && OnlyTables(ty2, ty3, s1.tables, s3.tables)
    requires SetType(ty3, ty4, f, Usable) && s3.pages == s1.pages
    ensures GrownBy(ty, ty4, s, s3, first, k, t)
  {
    forall g: Frame
      ensures if MappedIn(s3.pages, first, k, g) then ty(g) == Some(Usable) && ty4(g) == Some(t)
              else ty4(g) == ty(g) || BecameTable(ty, ty4, s.tables, s3.tables, g)
    {
      TablesStay(ty2, ty3, s, s1, s3, g);
      assert ty4(g) == if g == f then Some(Usable) else ty3(g);
      assert ty2(g) == if g == f then Some(t) else ty1(g);
    }
  }

  // --- Installing pages ---

  /** Make sure one table exists. */
  method EnsureTable(phys: PhysicalMemory, ghost rest: Holding, ghost task: TaskId, s: Space, id: TableId,
                     ghost fl: set<Frame>)
    returns (s': Space, ok: bool)
    requires Ledger(phys, rest, task, s, fl) && PagesOk(s) && Hangs(s.tables, id)
    modifies phys
    ensures Ledger(phys, rest, task, s', fl) && PagesOk(s')
    ensures s' == s.(tables := s'.tables) && (ok ==> id in s'.tables) && (!ok ==> Scarce(phys.types, 0))
    ensures OnlyTables(old(phys.typeOf), phys.typeOf, s.tables, s'.tables)
  {
    if id in s.tables { return s, true; }
    ghost var ty := phys.typeOf;
    var frame := phys.AllocateFrame(UsedByUserMode);
    if frame.None? {
      NoneIsScarce(phys.types);
      return s, false;
    }
    AddTable(ty, phys.typeOf, rest, task, s, fl, id, frame.value);
    return s.(tables := s.tables[id := frame.value]), true;
  }

  /** Make sure the three tables of a page exist, from the top level down. */
  method EnsureTables(phys: PhysicalMemory, ghost rest: Holding, ghost task: TaskId, s: Space, page: nat,
                      ghost fl: set<Frame>)
    returns (s': Space, ok: bool)
    requires Ledger(phys, rest, task, s, fl) && PagesOk(s) && page < USER_PAGES
    modifies phys
    ensures Ledger(phys, rest, task, s', fl) && PagesOk(s')
    ensures s' == s.(tables := s'.tables) && (ok ==> HasTables(s'.tables, page)) && (!ok ==> Scarce(phys.types, 0))
    ensures OnlyTables(old(phys.typeOf), phys.typeOf, s.tables, s'.tables)
  {
    ghost var ty0 := phys.typeOf;
    TableParents(s.tables, page);
    var s1, s2;
    s1, ok := EnsureTable(phys, rest, task, s, TableFor(3, page), fl);
    if !ok { return s1, false; }
    ghost var ty1 := phys.typeOf;
    TableParents(s1.tables, page);
    s2, ok := EnsureTable(phys, rest, task, s1, TableFor(2, page), fl);
    ghost var ty2 := phys.typeOf;
    OnlyTablesTransitive(ty0, ty1, ty2, s.tables, s1.tables, s2.tables);
    if !ok { return s2, false; }
    TableParents(s2.tables, page);
    s', ok := EnsureTable(phys, rest, task, s2, TableFor(1, page), fl);
    OnlyTablesTransitive(ty0, ty2, phys.typeOf, s.tables, s2.tables, s'.tables);
  }

  /** Install one page.  A failed install leaves the leaf mappings as they were; tables it created stay. */
  method MapTo(phys: PhysicalMemory, ghost rest: Holding, ghost task: TaskId, s: Space, page: nat, frame: Frame,
               ghost fl: set<Frame>)
    returns (s': Space, ok: bool)
    requires Ledger(phys, rest, task, s, fl) && PagesOk(s) && page < USER_PAGES
    requires Installable(phys.typeOf, rest, fl, frame)
    modifies phys
    ensures Ledger(phys, rest, task, s', if ok && old(phys.typeOf)(frame) == Some(UsedByUserMode) then fl - {frame}
                                         else fl)
    ensures PagesOk(s') && s' == s.(tables := s'.tables, pages := s'.pages)
    ensures ok ==> PutPage(s.pages, s'.pages, page, frame)
    ensures !ok ==> s'.pages == s.pages
    ensures !ok && page !in s.pages ==> Scarce(phys.types, 0)
    ensures OnlyTables(old(phys.typeOf), phys.typeOf, s.tables, s'.tables)
    ensures phys.typeOf(frame) == old(phys.typeOf)(frame)
  {
    s', ok := EnsureTables(phys, rest, task, s, page, fl);
    assert phys.typeOf(frame) == old(phys.typeOf)(frame);
    if !ok { return; }
    if page in s'.pages { return s', false; }
    AddPage(phys.typeOf, rest, task, s', fl, page, frame);
    s' := s'.(pages := s'.pages[page := frame]);
  }

  // --- Removing pages ---

  /** Unmap one page if it is mapped; free its frame if the frame is private. */
  method UnmapPrivatePage(phys: PhysicalMemory, ghost rest: Holding, ghost task: TaskId, s: Space, page: nat,
                          ghost fl: set<Frame>)
    returns (s': Space)
    requires Ledger(phys, rest, task, s, fl)
    modifies phys
    ensures Ledger(phys, rest, task, s', fl) && s' == s.(pages := s.pages - {page})
    ensures if page in s.pages && old(phys.typeOf)(s.pages[page]) == Some(UsedByUserMode)
            then SetType(old(phys.typeOf), phys.typeOf, s.pages[page], Usable) else phys.typeOf == old(phys.typeOf)
    ensures Eases(old(phys.types), phys.types, 2)
  {
    hide Scarce, Eases;
    EasesByTwo(phys.types);
    if page in s.pages {
      var frame := s.pages[page];
      ghost var ty := phys.typeOf;
      var freed := phys.FreeFrame(frame, UsedByUserMode);
      if freed == Freed { FreeingEases(old(phys.types), phys.types, frame); }
      RemovePage(ty, phys.typeOf, rest, task, s, fl, page, frame);
      s' := s.(pages := s.pages - {page});
    } else {
      assert s.pages - {page} == s.pages;
      s' := s;
    }
  }

  /** Unmap a range of pages: the loop of munmap and of the rollback of a failed mmap. */
  method UnmapPrivate(phys: PhysicalMemory, ghost rest: Holding, ghost task: TaskId, s: Space, first: nat, count: nat,
                      ghost fl: set<Frame>)
    returns (s': Space)
    requires Ledger(phys, rest, task, s, fl)
    modifies phys
    ensures Ledger(phys, rest, task, s', fl) && s' == s.(pages := PagesOutside(s.pages, first, count))
    ensures FreedIn(old(phys.typeOf), phys.typeOf, s.pages, first, count)
    ensures Eases(old(phys.types), phys.types, 2 * count)
  {
    hide Ledger, FreedIn, Eases;
    s' := s;
    OutsideNothing(phys.typeOf, s.pages, first);
    EasesNone(phys.types);
    for i := 0 to count
      invariant Ledger(phys, rest, task, s', fl) && s' == s.(pages := PagesOutside(s.pages, first, i))
      invariant FreedIn(old(phys.typeOf), phys.typeOf, s.pages, first, i)
      invariant Eases(old(phys.types), phys.types, 2 * i)
    {
      ghost var ty, types := phys.typeOf, phys.types;
      s' := UnmapPrivatePage(phys, rest, task, s', first + i, fl);
      EasesMore(old(phys.types), types, phys.types, 2 * i, 2);
      FreedOneMore(old(phys.typeOf), ty, phys.typeOf, s.pages, first, i);
      OutsideOneMore(s.pages, first, i);
    }
  }

  // --- Mapping fresh private memory ---

  /** Only frames that were usable have been written. */
  ghost predicate Writes(ty: Types, ram: Ram, ram': Ram) {
    forall g: Frame {:trigger ram'(g)} :: ty(g) != Some(Usable) ==> ram'(g) == ram(g)
  }

  /** The first k pages of a range are mapped and all zero. */
  ghost predicate ZeroPages(s: Space, ram: Ram, first: nat, k: nat) {
    forall p: nat :: InRange(first, k, p) ==> p in s.pages && ram(s.pages[p]) == Zeros(PAGE_SIZE)
  }

  /** Zeroing a usable frame, and mapping it or not. */
  lemma ZeroStep(ty: Types, ty1: Types, h: Holding, rest: Holding, task: TaskId, s: Space, s1: Space, s2: Space,
                 ram: Ram, ram1: Ram, first: nat, k: nat, f: Frame, t: MemoryType)
    requires GrownBy(ty, ty1, s, s1, first, k, t) && UserTyped(Some(t)) && ty1(f) == Some(Usable)
    requires h == With(rest, task, s1) && !Held(h, f)
    requires Writes(ty, ram, ram1) && ZeroPages(s1, ram1, first, k)
    ensures Writes(ty, ram, Write(ram1, f, Zeros(PAGE_SIZE)))
    ensures s2.pages == s1.pages ==> ZeroPages(s2, Write(ram1, f, Zeros(PAGE_SIZE)), first, k)
    ensures PutPage(s1.pages, s2.pages, first + k, f) ==> ZeroPages(s2, Write(ram1, f, Zeros(PAGE_SIZE)), first, k + 1)
  {
    assert ty(f) == Some(Usable) by { assert ty1(f) == Some(Usable); }
    hide GrownBy;
    NotMapped(h, rest, task, s1, f);
    forall p: nat | InRange(first, k + 1, p) ensures InRange(first, k, p) || p == first + k { }
  }

  lemma NotMapped(h: Holding, rest: Holding, task: TaskId, s: Space, f: Frame)
    requires h == With(rest, task, s) && !Held(h, f)
    ensures forall p :: p in s.pages ==> s.pages[p] != f
  {
    forall p | p in s.pages ensures s.pages[p] != f { assert h(Data(task, p)) == Some(s.pages[p]); }
  }

  /** Allocate a frame; if that fails, none passes the allocator's test. */
  method TakeFrame(phys: PhysicalMemory, t: MemoryType) returns (r: Option<Frame>)
    requires phys.Valid()
    modifies phys
    ensures phys.Valid()
    ensures r.Some? ==> old(phys.typeOf)(r.value) == Some(Usable) && SetType(old(phys.typeOf), phys.typeOf, r.value, t)
    ensures r.None? ==> phys.typeOf == old(phys.typeOf) && Scarce(phys.types, 2)
  {
    r := phys.AllocateFrame(t);
    if r.None? {
      NoneIsScarce(phys.types);
      ScarceMore(phys.types, 0, 2);
    }
  }

  /** Give back a frame that could not be installed because memory ran out. */
  method GiveBack(phys: PhysicalMemory, f: Frame, t: MemoryType)
    requires phys.Valid() && phys.typeOf(f) == Some(t) && Scarce(phys.types, 0)
    modifies phys
    ensures phys.Valid() && SetType(old(phys.typeOf), phys.typeOf, f, Usable) && Scarce(phys.types, 2)
  {
    var _ := phys.FreeFrame(f, t);
    ScarceAfterFree(old(phys.types), phys.types, f);
  }

  /** One round of the mapping loop: a fresh frame, installed, or everything but tables undone. */
  method MapFreshPage(phys: PhysicalMemory, ghost rest: Holding, ghost task: TaskId, s: Space, ram: Ram, first: nat,
                      k: nat, ghost s0: Space, ghost ty0: Types, ghost ram0: Ram)
    returns (s': Space, ram': Ram, ok: bool, f: Frame)
    requires Ledger(phys, rest, task, s, {}) && PagesOk(s) && first + k < USER_PAGES && first + k !in s.pages
    requires GrownBy(ty0, phys.typeOf, s0, s, first, k, UsedByUserMode)
    requires Writes(ty0, ram0, ram) && ZeroPages(s, ram, first, k)
    modifies phys
    ensures Ledger(phys, rest, task, s', {}) && PagesOk(s')
    ensures s' == s.(tables := s'.tables, pages := s'.pages)
    ensures ok ==> PutPage(s.pages, s'.pages, first + k, f)
    ensures !ok ==> s'.pages == s.pages && Scarce(phys.types, 2)
    ensures Writes(ty0, ram0, ram') && ZeroPages(s', ram', first, if ok then k + 1 else k)
    ensures GrownBy(ty0, phys.typeOf, s0, s', first, if ok then k + 1 else k, UsedByUserMode)
  {
    hide Scarce, GrownBy, OnlyTables, PutPage, PagesOk, Owned, Writes, ZeroPages;
    ghost var ty1 := phys.typeOf;
    var frame := TakeFrame(phys, UsedByUserMode);
    if frame.None? { return s, ram, false, 0; }
    f := frame.value;
    ghost var ty2 := phys.typeOf;
    Reserve(ty1, ty2, With(rest, task, s), {}, f, UsedByUserMode);
    assert {} + {f} == {f};
    ram' := Write(ram, f, Zeros(PAGE_SIZE));
    s', ok := MapTo(phys, rest, task, s, first + k, f, {f});
    ghost var ty3 := phys.typeOf;
    ZeroStep(ty0, ty1, With(rest, task, s), rest, task, s0, s, s', ram0, ram, first, k, f, UsedByUserMode);
    if ok {
      GrownStep(ty0, ty1, ty2, ty3, s0, s, s', first, k, f, UsedByUserMode);
      assert {f} - {f} == {};
    } else {
      GiveBack(phys, f, UsedByUserMode);
      GrownUndo(ty0, ty1, ty2, ty3, phys.typeOf, s0, s, s', first, k, f, UsedByUserMode);
      AloftIsUnheld(ty3, With(rest, task, s'), {f}, f);
      Release(ty3, phys.typeOf, With(rest, task, s'), {f}, f);
      assert {f} - {f} == {};
    }
  }

  /** Map fresh private frames at consecutive pages until done or something fails. */
  method MapFreshPages(phys: PhysicalMemory, ghost rest: Holding, ghost task: TaskId, s: Space, ram: Ram, first: nat,
                       n: nat)
    returns (s': Space, ram': Ram, done: nat)
    requires Ledger(phys, rest, task, s, {}) && PagesOk(s) && first + n <= USER_PAGES
    requires forall p: nat :: InRange(first, n, p) ==> p !in s.pages
    modifies phys
    ensures Ledger(phys, rest, task, s', {}) && PagesOk(s') && done <= n
    ensures s' == s.(tables := s'.tables, pages := s'.pages)
    ensures Extended(s.pages, s'.pages, first, done)
    ensures GrownBy(old(phys.typeOf), phys.typeOf, s, s', first, done, UsedByUserMode)
    ensures Writes(old(phys.typeOf), ram, ram') && ZeroPages(s', ram', first, done)
    ensures done < n ==> Scarce(phys.types, 2)
  {
    hide Ledger, PagesOk, GrownBy, PutPage, Scarce;
    s', ram', done := s, ram, 0;
    GrownByNothing(phys.typeOf, s, first, UsedByUserMode);
    while done < n
      invariant done <= n && Ledger(phys, rest, task, s', {}) && PagesOk(s')
      invariant s' == s.(tables := s'.tables, pages := s'.pages)
      invariant Extended(s.pages, s'.pages, first, done)
      invariant GrownBy(old(phys.typeOf), phys.typeOf, s, s', first, done, UsedByUserMode)
      invariant Writes(old(phys.typeOf), ram, ram') && ZeroPages(s', ram', first, done)
    {
      assert InRange(first, n, first + done);
      var s1, ram1, ok, f := MapFreshPage(phys, rest, task, s', ram', first, done, s, old(phys.typeOf), ram);
      if !ok { return s1, ram1, done; }
      ExtendedByOne(s.pages, s'.pages, s1.pages, first, done, f);
      s', ram' := s1, ram1;
      done := done + 1;
    }
  }

  // --- Shared frames ---

  /** Pages first.. of s map the given frames, in order. */
  ghost predicate MapsAll(pages: map<nat, Frame>, first: nat, frames: seq<Frame>) {
    forall p: nat :: InRange(first, |frames|, p) ==> p in pages && pages[p] == frames[p - first]
  }

  /** Each of the frames is held by its page of the range and by nothing else. */
  ghost predicate SoleMapping(h: Holding, task: TaskId, first: nat, frames: seq<Frame>) {
    forall slot, j :: 0 <= j < |frames| && h(slot) == Some(frames[j]) ==> slot == Data(task, first + j)
  }

  ghost predicate Distinct(frames: seq<Frame>) {
    forall i, j :: 0 <= i < j < |frames| ==> frames[i] != frames[j]
  }

  ghost function Frames(frames: seq<Frame>): set<Frame> {
    set f | f in frames
  }

  /** Map given frames at consecutive pages until done or an install fails.  Nothing is asked of the
      frames: the books are kept for the space without the new pages. */
  method MapSharedFrames(phys: PhysicalMemory, ghost rest: Holding, ghost task: TaskId, s: Space, first: nat,
                         frames: seq<Frame>)
    returns (s': Space, done: nat)
    requires Ledger(phys, rest, task, s, {}) && PagesOk(s) && first + |frames| <= USER_PAGES
    requires forall p: nat :: InRange(first, |frames|, p) ==> p !in s.pages
    modifies phys
    ensures Ledger(phys, rest, task, s'.(pages := s.pages), {}) && PagesOk(s') && done <= |frames|
    ensures s' == s.(tables := s'.tables, pages := s'.pages)
    ensures Extended(s.pages, s'.pages, first, done) && MapsAll(s'.pages, first, frames[..done])
    ensures OnlyTables(old(phys.typeOf), phys.typeOf, s.tables, s'.tables)
    ensures done < |frames| ==> Scarce(phys.types, 0)
  {
    hide Ledger, PagesOk, OnlyTables, PutPage, Scarce;
    s', done := s, 0;
    OnlyTablesReflexive(phys.typeOf, s.tables);
    while done < |frames|
      invariant done <= |frames| && Ledger(phys, rest, task, s'.(pages := s.pages), {}) && PagesOk(s')
      invariant PagesOk(s'.(pages := s.pages))
      invariant s' == s.(tables := s'.tables, pages := s'.pages)
      invariant Extended(s.pages, s'.pages, first, done) && MapsAll(s'.pages, first, frames[..done])
      invariant OnlyTables(old(phys.typeOf), phys.typeOf, s.tables, s'.tables)
    {
      assert InRange(first, |frames|, first + done);
      var s1, ok := MapSharedPage(phys, rest, task, s', first + done, frames[done], s, old(phys.typeOf));
      if !ok { return s1, done; }
      ExtendedByOne(s.pages, s'.pages, s1.pages, first, done, frames[done]);
      MapsOneMore(s'.pages, s1.pages, first, frames[..done], frames[done]);
      assert frames[..done + 1] == frames[..done] + [frames[done]];
      s' := s1;
      done := done + 1;
    }
  }

  /** Install one page on a frame that may be anybody's. */
  method MapSharedPage(phys: PhysicalMemory, ghost rest: Holding, ghost task: TaskId, s: Space, page: nat, frame: Frame,
                       s0: Space, ghost ty0: Types) returns (s': Space, ok: bool)
    requires Ledger(phys, rest, task, s.(pages := s0.pages), {}) && PagesOk(s) && page < USER_PAGES && page !in s.pages
    requires s == s0.(tables := s.tables, pages := s.pages) && PagesOk(s.(pages := s0.pages))
    requires OnlyTables(ty0, phys.typeOf, s0.tables, s.tables)
    modifies phys
    ensures Ledger(phys, rest, task, s'.(pages := s0.pages), {}) && PagesOk(s') && PagesOk(s'.(pages := s0.pages))
    ensures s' == s.(tables := s'.tables, pages := s'.pages)
    ensures ok ==> PutPage(s.pages, s'.pages, page, frame)
    ensures !ok ==> s'.pages == s.pages && Scarce(phys.types, 0)
    ensures OnlyTables(ty0, phys.typeOf, s0.tables, s'.tables)
  {
    hide Ledger, PagesOk, OnlyTables, Scarce;
    ghost var ty := phys.typeOf;
    var t;
    t, ok := EnsureTables(phys, rest, task, s.(pages := s0.pages), page, {});
    OnlyTablesTransitive(ty0, ty, phys.typeOf, s0.tables, s.tables, t.tables);
    s' := s.(tables := t.tables, pages := if ok then s.pages[page := frame] else s.pages);
    StillHasTables(ty, phys.typeOf, s, s', page, ok);
    assert s'.(pages := s0.pages) == t;
  }

  lemma StillHasTables(ty: Types, ty': Types, s: Space, s': Space, page: nat, put: bool)
    requires PagesOk(s) && OnlyTables(ty, ty', s.tables, s'.tables) && TablesOk(s'.tables) && page < USER_PAGES
    requires forall p: nat :: p in s'.pages ==> p in s.pages || (put && p == page)
    requires put ==> HasTables(s'.tables, page)
    ensures PagesOk(s')
  {
  }

  /** Pages that map given frames fit the books exactly if the frames are shared ones. */
  lemma SharedPagesOwned(ty: Types, rest: Holding, task: TaskId, t: Space, s: Space, first: nat, frames: seq<Frame>)
    requires Owned(ty, With(rest, task, t), {}) && s == t.(pages := s.pages)
    requires Extended(t.pages, s.pages, first, |frames|) && MapsAll(s.pages, first, frames)
    requires forall p: nat :: InRange(first, |frames|, p) ==> p !in t.pages
    ensures Owned(ty, With(rest, task, s), {}) <==>
      forall j :: 0 <= j < |frames| ==> ty(frames[j]) == Some(SharedBuffer)
  {
    if Owned(ty, With(rest, task, s), {}) {
      forall j | 0 <= j < |frames|
        ensures ty(frames[j]) == Some(SharedBuffer)
      {
        OwnedPageIsShared(ty, rest, task, t, s, first, frames, j);
      }
    }
    if forall j :: 0 <= j < |frames| ==> ty(frames[j]) == Some(SharedBuffer) {
      SharedPagesFit(ty, rest, task, t, s, first, frames);
    }
  }

  lemma OwnedPageIsShared(ty: Types, rest: Holding, task: TaskId, t: Space, s: Space, first: nat, frames: seq<Frame>,
                          j: nat)
    requires Owned(ty, With(rest, task, t), {}) && Owned(ty, With(rest, task, s), {}) && s == t.(pages := s.pages)
    requires j < |frames|
    requires Extended(t.pages, s.pages, first, |frames|) && MapsAll(s.pages, first, frames)
    requires forall p: nat :: InRange(first, |frames|, p) ==> p !in t.pages
    ensures ty(frames[j]) == Some(SharedBuffer)
  {
    var h, h', f := With(rest, task, t), With(rest, task, s), frames[j];
    var slot := Data(task, first + j);
    assert InRange(first, |frames|, first + j) && h'(slot) == Some(f) && h(slot) == None;
    assert TypeFits(slot, ty(h'(slot).value));
    assert forall r: Slot :: h(r).Some? ==> h'(r) == h(r);
    var held := Held(h, f);
  }

  lemma SharedPagesFit(ty: Types, rest: Holding, task: TaskId, t: Space, s: Space, first: nat, frames: seq<Frame>)
    requires Owned(ty, With(rest, task, t), {}) && s == t.(pages := s.pages)
    requires Extended(t.pages, s.pages, first, |frames|) && MapsAll(s.pages, first, frames)
    requires forall j :: 0 <= j < |frames| ==> ty(frames[j]) == Some(SharedBuffer)
    ensures Owned(ty, With(rest, task, s), {})
  {
    var h, h' := With(rest, task, t), With(rest, task, s);
    forall r: Slot ensures h'(r) == h(r) || (r.Data? && h'(r).Some? && ty(h'(r).value) == Some(SharedBuffer)) {
      if r.Data? && r.task == task && r.page in s.pages && r.page !in t.pages {
        assert InRange(first, |frames|, r.page);
      }
    }
    forall f: Frame | Held(h, f) ensures Held(h', f) { HeldStays(h, h', rest, task, t, s, f); }
    forall f: Frame | InRegistry(h, f) ensures InRegistry(h', f) {
      var b: BufId, i: nat :| h(Shared(b, i)) == Some(f);
      assert h'(Shared(b, i)) == Some(f);
    }
    forall f: Frame | ty(f) == Some(SharedBuffer) ensures InRegistry(h, f) {
      assert Held(h, f);
      var r: Slot :| h(r) == Some(f);
      assert TypeFits(r, ty(h(r).value));
    }
  }

  lemma HeldStays(h: Holding, h': Holding, rest: Holding, task: TaskId, t: Space, s: Space, f: Frame)
    requires h == With(rest, task, t) && h' == With(rest, task, s) && s == t.(pages := s.pages) && Held(h, f)
    requires forall p :: p in t.pages ==> p in s.pages && s.pages[p] == t.pages[p]
    ensures Held(h', f)
  {
    var r: Slot :| h(r) == Some(f);
    assert h'(r) == Some(f);
  }

  lemma MapsOneMore(a: map<nat, Frame>, b: map<nat, Frame>, first: nat, frames: seq<Frame>, f: Frame)
    requires MapsAll(a, first, frames) && PutPage(a, b, first + |frames|, f)
    ensures MapsAll(b, first, frames + [f])
  {
  }

  /** One round of creating a buffer: a fresh shared frame, installed, or everything but tables undone. */
  method MapNewSharedPage(phys: PhysicalMemory, ghost rest: Holding, ghost task: TaskId, s: Space, ram: Ram, first: nat,
                          k: nat, ghost s0: Space, ghost ty0: Types, ghost ram0: Ram, ghost fl: set<Frame>)
    returns (s': Space, ram': Ram, ok: bool, f: Frame)
    requires Ledger(phys, rest, task, s, fl) && PagesOk(s) && first + k < USER_PAGES && first + k !in s.pages
    requires GrownBy(ty0, phys.typeOf, s0, s, first, k, SharedBuffer)
    requires Writes(ty0, ram0, ram) && ZeroPages(s, ram, first, k)
    modifies phys
    ensures PagesOk(s') && s' == s.(tables := s'.tables, pages := s'.pages)
    ensures Ledger(phys, rest, task, s', if ok then fl + {f} else fl)
    ensures ok ==> PutPage(s.pages, s'.pages, first + k, f) && f !in fl && !Held(With(rest, task, s), f)
    ensures ok ==> phys.typeOf(f) == Some(SharedBuffer)
    ensures !ok ==> s'.pages == s.pages && Scarce(phys.types, 2)
    ensures Writes(ty0, ram0, ram') && ZeroPages(s', ram', first, if ok then k + 1 else k)
    ensures GrownBy(ty0, phys.typeOf, s0, s', first, if ok then k + 1 else k, SharedBuffer)
  {
    hide Scarce, GrownBy, OnlyTables, PutPage, PagesOk, Owned, Writes, ZeroPages;
    ghost var ty1 := phys.typeOf;
    var frame := TakeFrame(phys, SharedBuffer);
    if frame.None? { return s, ram, false, 0; }
    f := frame.value;
    ghost var ty2 := phys.typeOf;
    Reserve(ty1, ty2, With(rest, task, s), fl, f, SharedBuffer);
    ram' := Write(ram, f, Zeros(PAGE_SIZE));
    s', ok := MapTo(phys, rest, task, s, first + k, f, fl + {f});
    ghost var ty3 := phys.typeOf;
    ZeroStep(ty0, ty1, With(rest, task, s), rest, task, s0, s, s', ram0, ram, first, k, f, SharedBuffer);
    if ok {
      GrownStep(ty0, ty1, ty2, ty3, s0, s, s', first, k, f, SharedBuffer);
    } else {
      GiveBack(phys, f, SharedBuffer);
      GrownUndo(ty0, ty1, ty2, ty3, phys.typeOf, s0, s, s', first, k, f, SharedBuffer);
      StillUnheld(ty3, rest, task, s, s', fl + {f}, f);
      Release(ty3, phys.typeOf, With(rest, task, s'), fl + {f}, f);
      assert fl + {f} - {f} == fl;
    }
  }

  /** New tables never hold a shared frame. */
  lemma StillUnheld(ty: Types, rest: Holding, task: TaskId, s: Space, s': Space, fl: set<Frame>, f: Frame)
    requires Owned(ty, With(rest, task, s'), fl) && ty(f) == Some(SharedBuffer) && f in fl
    requires s'.pages == s.pages && s'.l4 == s.l4 && !Held(With(rest, task, s), f)
    ensures !Held(With(rest, task, s'), f)
  {
    var h, h' := With(rest, task, s), With(rest, task, s');
    forall slot: Slot ensures h'(slot) != Some(f) {
      assert h(slot) != Some(f);
    }
  }

  /** What creating a buffer has built after mapping `frames`: each new frame at its page and nowhere else. */
  ghost predicate Building(phys: PhysicalMemory, rest: Holding, task: TaskId, s: Space, first: nat, frames: seq<Frame>)
    reads phys
  {
    && Ledger(phys, rest, task, s, Frames(frames)) && PagesOk(s)
    && MapsAll(s.pages, first, frames) && Distinct(frames)
    && SoleMapping(With(rest, task, s), task, first, frames)
  }

  lemma TypesOfMapped(ty: Types, ty': Types, s: Space, s': Space, first: nat, frames: seq<Frame>, t: MemoryType)
    requires GrownBy(ty, ty', s, s', first, |frames|, t) && MapsAll(s'.pages, first, frames)
    ensures forall j :: 0 <= j < |frames| ==> ty'(frames[j]) == Some(t) && ty(frames[j]) == Some(Usable)
  {
    forall j | 0 <= j < |frames| ensures ty'(frames[j]) == Some(t) && ty(frames[j]) == Some(Usable) {
      assert InRange(first, |frames|, first + j);
      assert MappedIn(s'.pages, first, |frames|, frames[j]);
    }
  }

  /** New tables change nothing about who holds the new frames. */
  lemma SoleStays(ty: Types, rest: Holding, task: TaskId, s: Space, s': Space, first: nat, frames: seq<Frame>)
    requires Owned(ty, With(rest, task, s'), Frames(frames))
    requires s'.pages == s.pages && SoleMapping(With(rest, task, s), task, first, frames)
    ensures SoleMapping(With(rest, task, s'), task, first, frames)
  {
    var h, h' := With(rest, task, s), With(rest, task, s');
    forall slot, j | 0 <= j < |frames| && h'(slot) == Some(frames[j]) ensures slot == Data(task, first + j) {
      assert frames[j] in Frames(frames) && slot.Data?;
      assert h(slot) == h'(slot);
    }
  }

  lemma BuildingFacts(phys: PhysicalMemory, rest: Holding, task: TaskId, s: Space, first: nat, frames: seq<Frame>)
    requires Building(phys, rest, task, s, first, frames)
    ensures Ledger(phys, rest, task, s, Frames(frames)) && PagesOk(s) && MapsAll(s.pages, first, frames)
    ensures Distinct(frames)
  {
  }

  lemma BuildingNothing(phys: PhysicalMemory, rest: Holding, task: TaskId, s: Space, first: nat)
    requires Ledger(phys, rest, task, s, {}) && PagesOk(s)
    ensures Building(phys, rest, task, s, first, [])
  {
  }

  /** A frame just taken and installed is held by its page only. */
  lemma SoleAfterMap(ty: Types, rest: Holding, task: TaskId, s: Space, s': Space, fl: set<Frame>, first: nat,
                     frames: seq<Frame>, f: Frame)
    requires Owned(ty, With(rest, task, s'), fl) && f in fl && (forall g :: g in frames ==> g in fl)
    requires s' == s.(tables := s'.tables, pages := s'.pages) && PutPage(s.pages, s'.pages, first + |frames|, f)
    requires !Held(With(rest, task, s), f) && f !in frames
    requires SoleMapping(With(rest, task, s), task, first, frames)
    ensures SoleMapping(With(rest, task, s'), task, first, frames + [f])
  {
    var h, h', more := With(rest, task, s), With(rest, task, s'), frames + [f];
    forall slot, j | 0 <= j < |more| && h'(slot) == Some(more[j]) ensures slot == Data(task, first + j) {
      assert more[j] in fl && slot.Data?;
      if slot != Data(task, first + |frames|) {
        assert h(slot) == Some(more[j]) && Held(h, more[j]);
      }
    }
  }

  /** Allocate and map the frames of a new buffer until done or something fails. */
  method MapNewShared(phys: PhysicalMemory, ghost rest: Holding, ghost task: TaskId, s: Space, ram: Ram, first: nat,
                      n: nat)
    returns (s': Space, ram': Ram, frames: seq<Frame>)
    requires Ledger(phys, rest, task, s, {}) && PagesOk(s) && first + n <= USER_PAGES
    requires forall p: nat :: InRange(first, n, p) ==> p !in s.pages
    modifies phys
    ensures |frames| <= n && Building(phys, rest, task, s', first, frames)
    ensures s' == s.(tables := s'.tables, pages := s'.pages)
    ensures Extended(s.pages, s'.pages, first, |frames|)
    ensures GrownBy(old(phys.typeOf), phys.typeOf, s, s', first, |frames|, SharedBuffer)
    ensures Writes(old(phys.typeOf), ram, ram') && ZeroPages(s', ram', first, |frames|)
    ensures |frames| < n ==> Scarce(phys.types, 2)
  {
    hide GrownBy, PutPage, Building, Scarce;
    s', ram', frames := s, ram, [];
    GrownByNothing(phys.typeOf, s, first, SharedBuffer);
    BuildingNothing(phys, rest, task, s, first);
    while |frames| < n
      invariant |frames| <= n && Building(phys, rest, task, s', first, frames)
      invariant s' == s.(tables := s'.tables, pages := s'.pages)
      invariant Extended(s.pages, s'.pages, first, |frames|)
      invariant GrownBy(old(phys.typeOf), phys.typeOf, s, s', first, |frames|, SharedBuffer)
      invariant Writes(old(phys.typeOf), ram, ram') && ZeroPages(s', ram', first, |frames|)
      decreases n - |frames|
    {
      assert InRange(first, n, first + |frames|);
      var s1, ram1, ok, f := BuildOneMore(phys, rest, task, s', ram', first, frames, s, old(phys.typeOf), ram);
      if !ok { return s1, ram1, frames; }
      ExtendedByOne(s.pages, s'.pages, s1.pages, first, |frames|, f);
      s', ram', frames := s1, ram1, frames + [f];
    }
  }

  method BuildOneMore(phys: PhysicalMemory, ghost rest: Holding, ghost task: TaskId, s: Space, ram: Ram, first: nat,
                      frames: seq<Frame>, ghost s0: Space, ghost ty0: Types, ghost ram0: Ram)
    returns (s': Space, ram': Ram, ok: bool, f: Frame)
    requires Building(phys, rest, task, s, first, frames)
    requires first + |frames| < USER_PAGES && first + |frames| !in s.pages
    requires GrownBy(ty0, phys.typeOf, s0, s, first, |frames|, SharedBuffer)
    requires Writes(ty0, ram0, ram) && ZeroPages(s, ram, first, |frames|)
    modifies phys
    ensures s' == s.(tables := s'.tables, pages := s'.pages)
    ensures !ok ==> s'.pages == s.pages && Building(phys, rest, task, s', first, frames) && Scarce(phys.types, 2)
    ensures ok ==> PutPage(s.pages, s'.pages, first + |frames|, f)
    ensures ok ==> Building(phys, rest, task, s', first, frames + [f])
    ensures Writes(ty0, ram0, ram') && ZeroPages(s', ram', first, if ok then |frames| + 1 else |frames|)
    ensures GrownBy(ty0, phys.typeOf, s0, s', first, if ok then |frames| + 1 else |frames|, SharedBuffer)
  {
    hide Owned, PagesOk, GrownBy, PutPage, SoleMapping, MapsAll, Scarce, Writes, ZeroPages;
    ghost var fl := Frames(frames);
    s', ram', ok, f := MapNewSharedPage(phys, rest, task, s, ram, first, |frames|, s0, ty0, ram0, fl);
    if ok {
      assert Frames(frames + [f]) == fl + {f};
      MapsOneMore(s.pages, s'.pages, first, frames, f);
      SoleAfterMap(phys.typeOf, rest, task, s, s', fl + {f}, first, frames, f);
    } else {
      SoleStays(phys.typeOf, rest, task, s, s', first, frames);
    }
  }

  /** Undo one page of a new buffer: unmap it and free its frame as a shared one. */
  method RollbackSharedPage(phys: PhysicalMemory, ghost rest: Holding, ghost task: TaskId, s: Space, page: nat,
                            ghost fl: set<Frame>)
    returns (s': Space)
    requires Ledger(phys, rest, task, s, fl) && page in s.pages && phys.typeOf(s.pages[page]) == Some(SharedBuffer)
    requires s.pages[page] in fl && forall slot :: With(rest, task, s)(slot) == Some(s.pages[page]) ==>
      slot == Data(task, page)
    modifies phys
    ensures s' == s.(pages := s.pages - {page}) && Ledger(phys, rest, task, s', fl - {s.pages[page]})
    ensures SetType(old(phys.typeOf), phys.typeOf, s.pages[page], Usable) && Eases(old(phys.types), phys.types, 2)
  {
    hide Eases;
    var frame := s.pages[page];
    s' := s.(pages := s.pages - {page});
    ghost var ty, h, h' := phys.typeOf, With(rest, task, s), With(rest, task, s');
    Detach(ty, h, h', fl, Data(task, page), frame);
    var _ := phys.FreeFrame(frame, SharedBuffer);
    FreeingEases(old(phys.types), phys.types, frame);
    assert !Held(h', frame) by { assert forall slot :: slot != Data(task, page) ==> h'(slot) == h(slot); }
    Release(ty, phys.typeOf, h', fl, frame);
  }

  /** Exactly the listed frames became usable. */
  ghost predicate FreedFrames(ty: Types, ty': Types, frames: seq<Frame>) {
    forall g: Frame {:trigger ty'(g)} :: ty'(g) == if g in frames then Some(Usable) else ty(g)
  }

  lemma FreedNone(ty: Types, frames: seq<Frame>)
    ensures FreedFrames(ty, ty, frames[..0]) && frames[0..] == frames
  {
  }

  lemma FreedOneFrame(ty: Types, ty1: Types, ty2: Types, frames: seq<Frame>, i: nat)
    requires i < |frames| && Distinct(frames)
    requires FreedFrames(ty, ty1, frames[..i]) && SetType(ty1, ty2, frames[i], Usable)
    ensures FreedFrames(ty, ty2, frames[..i + 1])
    ensures Frames(frames[i..]) - {frames[i]} == Frames(frames[i + 1..])
  {
  }

  /** The i-th new frame is still to be freed and still only at its page. */
  lemma StillSole(ty: Types, ty1: Types, rest: Holding, task: TaskId, s: Space, s1: Space, first: nat,
                  frames: seq<Frame>, i: nat)
    requires i < |frames| && Distinct(frames) && MapsAll(s.pages, first, frames)
    requires SoleMapping(With(rest, task, s), task, first, frames)
    requires s1 == s.(pages := PagesOutside(s.pages, first, i))
    requires FreedFrames(ty, ty1, frames[..i]) && ty(frames[i]) == Some(SharedBuffer)
    ensures first + i in s1.pages && s1.pages[first + i] == frames[i] && frames[i] in Frames(frames[i..])
    ensures ty1(frames[i]) == Some(SharedBuffer)
    ensures forall slot :: With(rest, task, s1)(slot) == Some(frames[i]) ==> slot == Data(task, first + i)
  {
    assert InRange(first, |frames|, first + i) && frames[i..][0] == frames[i];
    var h, h1 := With(rest, task, s), With(rest, task, s1);
    forall slot | h1(slot) == Some(frames[i]) ensures slot == Data(task, first + i) {
      assert h(slot) == h1(slot);
    }
    assert ty1(frames[i]) == ty(frames[i]);
  }

  /** The first i pages of a buffer are undone, from the state s0 it was built in. */
  ghost predicate Undoing(phys: PhysicalMemory, rest: Holding, task: TaskId, s0: Space, s: Space, first: nat,
                          frames: seq<Frame>, i: nat, ty0: Types, types0: TypeMap)
    reads phys
  {
    && i <= |frames| && Distinct(frames) && MapsAll(s0.pages, first, frames)
    && SoleMapping(With(rest, task, s0), task, first, frames)
    && (forall j :: 0 <= j < |frames| ==> ty0(frames[j]) == Some(SharedBuffer))
    && Ledger(phys, rest, task, s, Frames(frames[i..])) && s == s0.(pages := PagesOutside(s0.pages, first, i))
    && FreedFrames(ty0, phys.typeOf, frames[..i]) && Eases(types0, phys.types, 2 * i)
  }

  method UndoOne(phys: PhysicalMemory, ghost rest: Holding, ghost task: TaskId, ghost s0: Space, s: Space, first: nat,
                 ghost frames: seq<Frame>, i: nat, ghost ty0: Types, ghost types0: TypeMap) returns (s': Space)
    requires i < |frames| && Undoing(phys, rest, task, s0, s, first, frames, i, ty0, types0)
    modifies phys
    ensures Undoing(phys, rest, task, s0, s', first, frames, i + 1, ty0, types0)
  {
    hide Ledger, SoleMapping, MapsAll, Eases, FreedFrames, PagesOutside, Distinct;
    ghost var ty, types := phys.typeOf, phys.types;
    StillSole(ty0, ty, rest, task, s0, s, first, frames, i);
    s' := RollbackSharedPage(phys, rest, task, s, first + i, Frames(frames[i..]));
    EasesMore(types0, types, phys.types, 2 * i, 2);
    FreedOneFrame(ty0, ty, phys.typeOf, frames, i);
    OutsideOneMore(s0.pages, first, i);
  }

  lemma UndoingNone(phys: PhysicalMemory, rest: Holding, task: TaskId, s: Space, first: nat, frames: seq<Frame>)
    requires Building(phys, rest, task, s, first, frames)
    requires forall j :: 0 <= j < |frames| ==> phys.typeOf(frames[j]) == Some(SharedBuffer)
    ensures Undoing(phys, rest, task, s, s, first, frames, 0, phys.typeOf, phys.types)
  {
    hide Ledger, SoleMapping, MapsAll, Eases;
    OutsideNothing(phys.typeOf, s.pages, first);
    EasesNone(phys.types);
    FreedNone(phys.typeOf, frames);
  }

  /** Undo the pages of a buffer that could not be created, freeing its frames. */
  method RollbackCreate(phys: PhysicalMemory, ghost rest: Holding, ghost task: TaskId, s: Space, first: nat,
                        frames: seq<Frame>)
    returns (s': Space)
    requires Building(phys, rest, task, s, first, frames)
    requires forall j :: 0 <= j < |frames| ==> phys.typeOf(frames[j]) == Some(SharedBuffer)
    modifies phys
    ensures Ledger(phys, rest, task, s', {}) && s' == s.(pages := PagesOutside(s.pages, first, |frames|))
    ensures FreedFrames(old(phys.typeOf), phys.typeOf, frames) && Eases(old(phys.types), phys.types, 2 * |frames|)
  {
    s' := s;
    UndoingNone(phys, rest, task, s, first, frames);
    for i := 0 to |frames|
      invariant Undoing(phys, rest, task, s, s', first, frames, i, old(phys.typeOf), old(phys.types))
    {
      hide Undoing;
      s' := UndoOne(phys, rest, task, s, s', first, frames, i, old(phys.typeOf), old(phys.types));
    }
    assert frames[|frames|..] == [] && Frames([]) == {} && frames[..|frames|] == frames;
  }

  /** Undo the pages of a mapping of an existing buffer: page-table entries only, no frame is freed. */
  method RollbackMap(s: Space, first: nat, count: nat) returns (s': Space)
    ensures s' == s.(pages := PagesOutside(s.pages, first, count))
  {
    s' := s;
    OutsideNothing((_: Frame) => None, s.pages, first);
    for i := 0 to count
      invariant s' == s.(pages := PagesOutside(s.pages, first, i))
    {
      OutsideOneMore(s.pages, first, i);
      s' := s'.(pages := s'.pages - {first + i});
    }
  }
}
