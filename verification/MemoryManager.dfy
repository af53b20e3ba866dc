/**
 The memory system calls: anonymous mappings, their removal and shared buffers.  `Valid` is the
 invariant of the memory system over every run of them; each failed call is all-or-nothing up to
 page tables.
 */
module MemoryManager {
  import opened Wrappers
  import opened IntervalMap
  import opened PhysicalMemory
  import opened UserVaddr
  import opened Ownership
  import opened PageTables
  import opened Teardown
  import opened ElfImage
  import opened ElfLoader
  import opened UserMemory

  type Spaces = map<TaskId, Space>
  type Registry = map<BufId, seq<Frame>>

  ghost function SlotFrame(spaces: Spaces, registry: Registry, s: Slot): Option<Frame> {
    match s
    case Data(t, p) => if t in spaces && p in spaces[t].pages then Some(spaces[t].pages[p]) else None
    case Table(t, id) => if t in spaces && id in spaces[t].tables then Some(spaces[t].tables[id]) else None
    case Root(t) => if t in spaces then Some(spaces[t].l4) else None
    case Shared(b, i) => if b in registry && i < |registry[b]| then Some(registry[b][i]) else None
  }

  ghost function Holds(spaces: Spaces, registry: Registry): Holding {
    (s: Slot) => SlotFrame(spaces, registry, s)
  }

  /** Replacing one task's tables, seen slot by slot. */
  lemma HoldsWith(ty: Types, spaces: Spaces, registry: Registry, task: TaskId, s: Space, fl: set<Frame>)
    ensures Owned(ty, With(Holds(spaces, registry), task, s), fl) <==> Owned(ty, Holds(spaces[task := s], registry), fl)
  {
    var h, h' := With(Holds(spaces, registry), task, s), Holds(spaces[task := s], registry);
    assert SameSlots(h, h') && SameSlots(h', h);
    if Owned(ty, h, fl) { OwnedSame(ty, h, h', fl); }
    if Owned(ty, h', fl) { OwnedSame(ty, h', h, fl); }
  }

  /** Addresses that fit are pages nothing is mapped at. */
  lemma FitsMeansUnmapped(s: Space, first: nat, n: nat)
    requires AddrsOk(s) && 0 < n && Fits(s.addrs, USER_MIN, USER_MAX, n, first * PAGE_SIZE)
    ensures first + n <= USER_PAGES && forall p: nat :: InRange(first, n, p) ==> p !in s.pages
  {
    forall p: nat | InRange(first, n, p) ensures p !in s.pages {
      var x := p * PAGE_SIZE;
      assert Get(s.addrs, x) == None;
      assert !Allocated(s.addrs, x) && x / PAGE_SIZE == p;
    }
  }

  /** Giving back addresses that were free before restores the address set exactly. */
  lemma AddrsRestored(s: AddressSet, s1: AddressSet, s2: AddressSet, a: nat, n: nat)
    requires Canonical(s) && Vacant(s, a, a + n * PAGE_SIZE - 1)
    requires Added(s, s1, a, n) && Removed(s1, s2, a, n * PAGE_SIZE)
    ensures s2 == s
  {
    forall x: int ensures Allocated(s2, x) <==> Allocated(s, x) {
      if a <= x < a + n * PAGE_SIZE { assert Get(s, x) == None; }
    }
    SameMembersSameSet(s2, s);
  }

  /** Unmapping the pages of a failed mapping leaves nothing of it but page tables. */
  lemma RollbackIsExact(ty: Types, ty1: Types, ty2: Types, s: Space, s1: Space, first: nat, k: nat)
    requires GrownBy(ty, ty1, s, s1, first, k, UsedByUserMode) && Extended(s.pages, s1.pages, first, k)
    requires forall p: nat :: InRange(first, k, p) ==> p !in s.pages
    requires FreedIn(ty1, ty2, s1.pages, first, k)
    ensures forall p :: p in s.pages ==> p in s1.pages
    ensures OnlyTables(ty, ty2, s.tables, s1.tables) && PagesOutside(s1.pages, first, k) == s.pages
  {
    forall g: Frame ensures ty2(g) == ty(g) ||
        (ty(g) == Some(Usable) && ty2(g) == Some(UsedByUserMode) && NewTable(s.tables, s1.tables, g))
    {
      assert ty2(g) == if ty1(g) == Some(UsedByUserMode) && MappedIn(s1.pages, first, k, g) then Some(Usable)
                       else ty1(g);
    }
  }

  /** The same for new shared frames. */
  lemma SharedRollbackIsExact(ty: Types, ty1: Types, ty2: Types, s: Space, s1: Space, first: nat, frames: seq<Frame>)
    requires GrownBy(ty, ty1, s, s1, first, |frames|, SharedBuffer) && MapsAll(s1.pages, first, frames)
    requires FreedFrames(ty1, ty2, frames)
    ensures OnlyTables(ty, ty2, s.tables, s1.tables)
  {
    forall g: Frame ensures ty2(g) == ty(g) ||
        (ty(g) == Some(Usable) && ty2(g) == Some(UsedByUserMode) && NewTable(s.tables, s1.tables, g))
    {
      assert ty2(g) == if g in frames then Some(Usable) else ty1(g);
      if g in frames {
        var i :| 0 <= i < |frames| && frames[i] == g;
        assert InRange(first, |frames|, first + i) && MappedIn(s1.pages, first, |frames|, g);
        assert ty1(g) == Some(SharedBuffer);
      }
      if MappedIn(s1.pages, first, |frames|, g) {
        var p: nat :| InRange(first, |frames|, p) && p in s1.pages && s1.pages[p] == g;
        assert g == frames[p - first];
      }
    }
  }

  lemma OutsideExtended(s: Space, s1: Space, first: nat, k: nat)
    requires Extended(s.pages, s1.pages, first, k)
    requires forall p: nat :: InRange(first, k, p) ==> p !in s.pages
    ensures PagesOutside(s1.pages, first, k) == s.pages && forall p :: p in s.pages ==> p in s1.pages
  {
  }

  lemma KeepsShared(ty: Types, ty': Types, tables: map<TableId, Frame>, tables': map<TableId, Frame>,
                    frames: seq<Frame>)
    requires OnlyTables(ty, ty', tables, tables') && AllShared(ty, frames)
    ensures AllShared(ty', frames)
  {
    forall j | 0 <= j < |frames|
      ensures ty'(frames[j]) == Some(SharedBuffer)
    {
      assert ty'(frames[j]) == ty'(frames[j]);
    }
  }

  lemma RegistryFrames(ty: Types, spaces: Spaces, registry: Registry, b: BufId)
    requires Owned(ty, Holds(spaces, registry), {}) && b in registry
    ensures forall j :: 0 <= j < |registry[b]| ==>
      ty(registry[b][j]) == Some(SharedBuffer) && InRegistry(Holds(spaces, registry), registry[b][j])
  {
    var h := Holds(spaces, registry);
    forall j | 0 <= j < |registry[b]|
      ensures ty(registry[b][j]) == Some(SharedBuffer) && InRegistry(h, registry[b][j])
    {
      assert h(Shared(b, j)) == Some(registry[b][j]);
      assert TypeFits(Shared(b, j), ty(h(Shared(b, j)).value));
    }
  }

  /** Enter a finished buffer into the registry. */
  lemma RegisterBuffer(ty: Types, spaces: Spaces, registry: Registry, task: TaskId, s: Space, b: BufId,
                       frames: seq<Frame>)
    requires Owned(ty, With(Holds(spaces, registry), task, s), Frames(frames)) && b !in registry && Distinct(frames)
    requires forall j :: 0 <= j < |frames| ==> ty(frames[j]) == Some(SharedBuffer)
    ensures Owned(ty, With(Holds(spaces, registry[b := frames]), task, s), {})
  {
    var h, h' := With(Holds(spaces, registry), task, s), With(Holds(spaces, registry[b := frames]), task, s);
    Register(ty, h, h', Frames(frames), b, frames);
    assert (set f: Frame | f in Frames(frames) && f !in frames) == {};
  }

  lemma EnrolledBuffers(registry: Registry, doomed: Registry, next: BufId, frames: seq<Frame>)
    requires forall b :: b in registry + doomed ==> b < next
    ensures next !in registry + doomed && registry[next := frames] + doomed == (registry + doomed)[next := frames]
  {
    assert forall b :: b in doomed ==> b in registry + doomed;
  }

  lemma RegistryDistinct(ty: Types, spaces: Spaces, registry: Registry, b: BufId)
    requires Owned(ty, Holds(spaces, registry), {}) && b in registry
    ensures Distinct(registry[b])
  {
    var h := Holds(spaces, registry);
    forall i, j | 0 <= i < j < |registry[b]| ensures registry[b][i] != registry[b][j] {
      assert h(Shared(b, i)) == Some(registry[b][i]) && h(Shared(b, j)) == Some(registry[b][j]);
    }
  }

  /** Some page of some task maps a frame of the buffer. */
  predicate StillMapped(spaces: Spaces, frames: seq<Frame>) {
    exists t, p :: t in spaces && p in spaces[t].pages && spaces[t].pages[p] in frames
  }

  /** Freeing the frames of a buffer that no page maps. */
  lemma BufferReleased(ty: Types, ty': Types, spaces: Spaces, registry: Registry, b: BufId)
    requires Owned(ty, Holds(spaces, registry), {}) && b in registry
    requires FreedFrames(ty, ty', registry[b]) && !StillMapped(spaces, registry[b])
    ensures Owned(ty', Holds(spaces, registry - {b}), {})
  {
    var h, h' := Holds(spaces, registry), Holds(spaces, registry - {b});
    var frames := registry[b];
    forall r: Slot | r.Data? && h(r).Some? ensures h(r).value !in frames {
      assert r.task in spaces && r.page in spaces[r.task].pages;
    }
    Unregister(ty, h, h', {}, b, frames);
    var fl := {} + set f: Frame | f in frames;
    forall s: Slot | h'(s).Some? ensures h'(s).value !in frames { assert Held(h', h'(s).value); }
    forall f: Frame | UserTyped(ty'(f)) ensures Held(h', f) { assert f !in fl; }
  }

  /** Freeing the frames of a buffer some page maps leaves a page on a usable frame. */
  lemma MappedBufferDangles(ty: Types, ty': Types, spaces: Spaces, registry: Registry, registry': Registry, b: BufId)
    requires b in registry && FreedFrames(ty, ty', registry[b]) && StillMapped(spaces, registry[b])
    ensures !Owned(ty', Holds(spaces, registry'), {})
  {
    var t, p :| t in spaces && p in spaces[t].pages && spaces[t].pages[p] in registry[b];
    var h := Holds(spaces, registry');
    assert h(Data(t, p)) == Some(spaces[t].pages[p]) && ty'(spaces[t].pages[p]) == Some(Usable);
    assert !TypeFits(Data(t, p), ty'(h(Data(t, p)).value));
  }

  /** The effect of unmapping n pages at addr: private frames become usable, shared ones keep their type. */
  ghost predicate Unmapped(ty: Types, ty': Types, spaces: Spaces, spaces': Spaces, task: TaskId, addr: nat, n: nat) {
    && task in spaces && task in spaces'
    && spaces' == spaces[task := spaces[task].(addrs := spaces'[task].addrs,
                                               pages := PagesOutside(spaces[task].pages, addr / PAGE_SIZE, n))]
    && Removed(spaces[task].addrs, spaces'[task].addrs, addr, n * PAGE_SIZE)
    && FreedIn(ty, ty', spaces[task].pages, addr / PAGE_SIZE, n)
  }

  /** A page-aligned, non-empty range all of whose pages are allocated. */
  ghost predicate Releasable(spaces: Spaces, task: TaskId, addr: nat, size: nat) {
    && 0 < size && addr % PAGE_SIZE == 0 && task in spaces
    && forall x :: addr <= x < addr + PageCount(size) * PAGE_SIZE ==> Allocated(spaces[task].addrs, x)
  }

  lemma AddrsAfterUnmap(s: Space, s': Space, addr: nat, n: nat)
    requires AddrsOk(s) && addr % PAGE_SIZE == 0 && Removed(s.addrs, s'.addrs, addr, n * PAGE_SIZE)
    requires s'.pages == PagesOutside(s.pages, addr / PAGE_SIZE, n)
    ensures AddrsOk(s')
  {
    forall x: int ensures Allocated(s'.addrs, x) <==> x >= 0 && x / PAGE_SIZE in s'.pages {
      assert Allocated(s.addrs, x) <==> x >= 0 && x / PAGE_SIZE in s.pages;
      if x >= 0 { assert InRange(addr / PAGE_SIZE, n, x / PAGE_SIZE) <==> addr <= x < addr + n * PAGE_SIZE; }
    }
  }

  /** The check of the place where a caller wants the buffer's address. */
  function OutCheck(spaces: Spaces, task: TaskId, outPtr: nat): Verdict {
    ValidateUserPtr(if task in spaces then Some(spaces[task].addrs) else None, outPtr, 8)
  }

  /** The word of the address goes through the caller's pages; everybody who maps the place sees it, and
      nobody sees anything else change. */
  ghost predicate WordWritten(spaces: Spaces, ram: Ram, ram': Ram, task: TaskId, at: nat, word: nat) {
    task in spaces && forall t, v: nat :: t in spaces ==>
      Seen(spaces[t], v, ram, ram', spaces[task], at, LittleEndian(word, 8))
  }

  ghost predicate HoldsWord(spaces: Spaces, ram: Ram, task: TaskId, at: nat, word: nat) {
    task in spaces && Reaches(spaces[task], at, 8) && FromLittleEndian(ReadBytes(spaces[task], ram, at, 8)) == word
  }

  lemma OutIsMapped(spaces: Spaces, task: TaskId, outPtr: nat)
    requires task in spaces && AddrsOk(spaces[task]) && OutCheck(spaces, task, outPtr).Accepted?
    ensures Reaches(spaces[task], outPtr, 8)
  {
    var s := spaces[task].addrs;
    ValidationIsExact(s, outPtr, 8);
    forall v: nat | outPtr <= v < outPtr + 8 ensures Maps(spaces[task], v) { assert Allocated(s, v); }
  }

  lemma OutStaysMapped(ty: Types, ty': Types, spaces: Spaces, spaces': Spaces, task: TaskId, start: nat, n: nat,
                       outPtr: nat)
    requires Mapped(ty, ty', spaces, spaces', task, start, n, SharedBuffer) && 0 < n && Reaches(spaces[task], outPtr, 8)
    ensures task in spaces' && Reaches(spaces'[task], outPtr, 8) && start < Bound(8)
    ensures forall s: Space, v: nat, u: nat :: outPtr <= u < outPtr + 8 ==>
      (SamePlace(s, v, spaces'[task], u) <==> SamePlace(s, v, spaces[task], u))
  {
    hide GrownBy;
    forall v: nat | outPtr <= v < outPtr + 8
      ensures Maps(spaces[task], v) && Maps(spaces'[task], v)
      ensures spaces'[task].pages[v / PAGE_SIZE] == spaces[task].pages[v / PAGE_SIZE]
    {
      assert Maps(spaces[task], v);
    }
    assert Bound(8) == 0x1_0000_0000_0000_0000;
  }

  lemma WordSeen(spaces: Spaces, spaces': Spaces, ram: Ram, ram1: Ram, task: TaskId, outPtr: nat, word: nat)
    requires task in spaces && task in spaces' && SameMemory(spaces, ram, ram1)
    requires Reaches(spaces'[task], outPtr, 8) && word < Bound(8)
    requires forall s: Space, v: nat, u: nat :: outPtr <= u < outPtr + 8 ==>
      (SamePlace(s, v, spaces'[task], u) <==> SamePlace(s, v, spaces[task], u))
    ensures var ram' := Store(spaces'[task], ram1, outPtr, LittleEndian(word, 8));
      WordWritten(spaces, ram, ram', task, outPtr, word) && HoldsWord(spaces', ram', task, outPtr, word)
  {
    hide ByteAt, SamePlace, Store, LittleEndian, FromLittleEndian, ReadBytes, Bound;
    var s', bytes := spaces'[task], LittleEndian(word, 8);
    var ram' := Store(s', ram1, outPtr, bytes);
    forall t, v: nat | t in spaces ensures Seen(spaces[t], v, ram, ram', spaces[task], outPtr, bytes) {
      StoreSeen(s', ram1, outPtr, bytes, spaces[t], v);
      assert ByteAt(spaces[t], ram1, v) == ByteAt(spaces[t], ram, v);
    }
    StoreThenRead(s', ram1, outPtr, word, 8);
  }

  datatype Creation = Created(id: BufId, start: nat) | Refused | Panicked

  /** A new buffer of n frames, mapped in order for its creator, all zero. */
  ghost predicate NewBuffer(registry: Registry, registry': Registry, spaces': Spaces, ram': Ram, task: TaskId,
                            id: BufId, start: nat, n: nat) {
    && id in registry' && registry' == registry[id := registry'[id]] && |registry'[id]| == n && task in spaces'
    && MapsAll(spaces'[task].pages, start / PAGE_SIZE, registry'[id]) && ReadsZero(spaces'[task], ram', start, n)
  }

  lemma BufferIsNew(registry: Registry, registry': Registry, spaces': Spaces, ram': Ram, task: TaskId, id: BufId,
                    start: nat, frames: seq<Frame>)
    requires registry' == registry[id := frames] && task in spaces'
    requires MapsAll(spaces'[task].pages, start / PAGE_SIZE, frames) && ReadsZero(spaces'[task], ram', start, |frames|)
    ensures NewBuffer(registry, registry', spaces', ram', task, id, start, |frames|)
  {
  }

  /** Why the second step of a map call fails. */
  ghost predicate InstallRefused(spaces: Spaces, c: Snapshot, types: TypeMap) {
    c.task !in spaces || NoRoom(spaces, c.task, |c.frames|) || Scarce(types, 0)
  }

  /** A map call past its look-up: it has copied the buffer's frames and holds no lock. */
  datatype Snapshot = Snapshot(task: TaskId, buf: BufId, frames: seq<Frame>)

  type CallId = nat

  /** Some map call has copied the buffer's frames and not yet installed them. */
  predicate InFlight(snapshots: map<CallId, Snapshot>, b: BufId) {
    exists k :: k in snapshots && snapshots[k].buf == b
  }

  /** No place for n pages in the task's addresses. */
  ghost predicate NoRoom(spaces: Spaces, task: TaskId, n: nat) {
    task in spaces && forall a: nat :: !Fits(spaces[task].addrs, USER_MIN, USER_MAX, n, a)
  }

  /** A failed call: at most page tables of the task are new. */
  ghost predicate Undone(ty: Types, ty': Types, spaces: Spaces, spaces': Spaces, task: TaskId) {
    if task !in spaces then spaces' == spaces && ty' == ty
    else
      && task in spaces'
      && spaces' == spaces[task := spaces[task].(tables := spaces'[task].tables)]
      && OnlyTables(ty, ty', spaces[task].tables, spaces'[task].tables)
  }

  /** n new pages at the lowest place they fit; every other page keeps its frame. */
  ghost predicate Placed(spaces: Spaces, spaces': Spaces, task: TaskId, start: nat, n: nat) {
    && task in spaces && task in spaces'
    && spaces' == spaces[task := spaces'[task]] && spaces'[task].l4 == spaces[task].l4
    && Fits(spaces[task].addrs, USER_MIN, USER_MAX, n, start)
    && (forall a: nat :: a < start ==> !Fits(spaces[task].addrs, USER_MIN, USER_MAX, n, a))
    && Added(spaces[task].addrs, spaces'[task].addrs, start, n)
    && Extended(spaces[task].pages, spaces'[task].pages, start / PAGE_SIZE, n)
  }

  /** New pages backed by frames that were usable and now have type t. */
  ghost predicate Mapped(ty: Types, ty': Types, spaces: Spaces, spaces': Spaces, task: TaskId, start: nat, n: nat,
                         t: MemoryType) {
    && Placed(spaces, spaces', task, start, n)
    && GrownBy(ty, ty', spaces[task], spaces'[task], start / PAGE_SIZE, n, t)
  }

  /** New pages that map existing shared frames, in order. */
  ghost predicate SharedMapped(ty: Types, ty': Types, spaces: Spaces, spaces': Spaces, task: TaskId, start: nat,
                               frames: seq<Frame>) {
    && Placed(spaces, spaces', task, start, |frames|)
    && MapsAll(spaces'[task].pages, start / PAGE_SIZE, frames)
    && OnlyTables(ty, ty', spaces[task].tables, spaces'[task].tables)
  }

  /** Addresses for n pages were taken at `start`, the lowest place they fit; nothing else changed. */
  ghost predicate Begun(was: Space, s: Space, start: nat, n: nat) {
    && s == was.(addrs := s.addrs) && Canonical(was.addrs)
    && Fits(was.addrs, USER_MIN, USER_MAX, n, start)
    && (forall a: nat :: a < start ==> !Fits(was.addrs, USER_MIN, USER_MAX, n, a))
    && Added(was.addrs, s.addrs, start, n)
    && start / PAGE_SIZE + n <= USER_PAGES
    && forall p: nat :: InRange(start / PAGE_SIZE, n, p) ==> p !in was.pages
  }

  lemma BegunFacts(was: Space, s: Space, start: nat, n: nat)
    requires Begun(was, s, start, n)
    ensures s.pages == was.pages && s.tables == was.tables && s.l4 == was.l4
    ensures start / PAGE_SIZE + n <= USER_PAGES && forall p: nat :: InRange(start / PAGE_SIZE, n, p) ==> p !in s.pages
    ensures start / PAGE_SIZE * PAGE_SIZE == start
    ensures PagesOk(was) ==> PagesOk(s)
  {
  }

  /** Removing leaf mappings keeps the tables in order. */
  lemma FewerPagesOk(s: Space, s': Space)
    requires PagesOk(s) && s'.tables == s.tables && forall p :: p in s'.pages ==> p in s.pages
    ensures PagesOk(s')
  {
  }

  lemma Placement(spaces: Spaces, task: TaskId, s: Space, s': Space, start: nat, n: nat)
    requires task in spaces && AddrsOk(spaces[task]) && Begun(spaces[task], s, start, n)
    requires s' == s.(tables := s'.tables, pages := s'.pages)
    requires Extended(s.pages, s'.pages, start / PAGE_SIZE, n)
    ensures AddrsOk(s') && Placed(spaces, spaces[task := s'], task, start, n)
  {
    BegunFacts(spaces[task], s, start, n);
    AddrsAfterMap(spaces[task], s', start / PAGE_SIZE, n);
  }

  lemma MappingDone(ty: Types, ty': Types, spaces: Spaces, task: TaskId, s: Space, s': Space, start: nat, n: nat,
                    t: MemoryType)
    requires task in spaces && AddrsOk(spaces[task]) && Begun(spaces[task], s, start, n)
    requires s' == s.(tables := s'.tables, pages := s'.pages)
    requires Extended(s.pages, s'.pages, start / PAGE_SIZE, n)
    requires GrownBy(ty, ty', s, s', start / PAGE_SIZE, n, t)
    ensures AddrsOk(s') && Mapped(ty, ty', spaces, spaces[task := s'], task, start, n, t)
  {
    hide GrownBy, Placed;
    GrownFrom(ty, ty', spaces[task], s, s', start / PAGE_SIZE, n, t);
    Placement(spaces, task, s, s', start, n);
  }

  lemma SharedMappingDone(ty: Types, ty': Types, spaces: Spaces, task: TaskId, s: Space, s': Space, start: nat,
                          frames: seq<Frame>)
    requires task in spaces && AddrsOk(spaces[task]) && Begun(spaces[task], s, start, |frames|)
    requires s' == s.(tables := s'.tables, pages := s'.pages)
    requires Extended(s.pages, s'.pages, start / PAGE_SIZE, |frames|) && MapsAll(s'.pages, start / PAGE_SIZE, frames)
    requires OnlyTables(ty, ty', s.tables, s'.tables)
    ensures AddrsOk(s') && SharedMapped(ty, ty', spaces, spaces[task := s'], task, start, frames)
  {
    hide Placed, OnlyTables, MapsAll;
    Placement(spaces, task, s, s', start, |frames|);
  }

  lemma GrownFrom(ty: Types, ty': Types, was: Space, s: Space, s': Space, first: nat, n: nat, t: MemoryType)
    requires was.tables == s.tables && GrownBy(ty, ty', s, s', first, n, t)
    ensures GrownBy(ty, ty', was, s', first, n, t)
  {
    forall g: Frame ensures
        if MappedIn(s'.pages, first, n, g) then ty(g) == Some(Usable) && ty'(g) == Some(t)
        else ty'(g) == ty(g) || BecameTable(ty, ty', was.tables, s'.tables, g)
    {
      assert ty'(g) == ty'(g);
      assert NewTable(was.tables, s'.tables, g) <==> NewTable(s.tables, s'.tables, g);
    }
  }

  lemma MappingUndone(ty: Types, ty': Types, spaces: Spaces, task: TaskId, tables: map<TableId, Frame>)
    requires task in spaces && OnlyTables(ty, ty', spaces[task].tables, tables)
    ensures Undone(ty, ty', spaces, spaces[task := spaces[task].(tables := tables)], task)
  {
  }

  lemma OnlyTablesSame(ty: Types, spaces: Spaces, task: TaskId)
    ensures Undone(ty, ty, spaces, spaces, task)
  {
    if task in spaces {
      OnlyTablesReflexive(ty, spaces[task].tables);
      assert spaces == spaces[task := spaces[task].(tables := spaces[task].tables)];
    }
  }

  /** Every frame a slot of the task holds is one of its frames, and the other way round. */
  lemma TaskSlots(spaces: Spaces, registry: Registry, task: TaskId, g: Frame)
    requires task in spaces
    ensures g in TaskFrames(spaces[task]) <==>
      exists r: Slot :: !r.Shared? && r.task == task && Holds(spaces, registry)(r) == Some(g)
  {
    var h, s := Holds(spaces, registry), spaces[task];
    if g in TaskFrames(s) {
      if g == s.l4 {
        assert h(Root(task)) == Some(g);
      } else if p :| p in s.pages && s.pages[p] == g {
        assert h(Data(task, p)) == Some(g);
      } else {
        var id :| id in s.tables && s.tables[id] == g;
        assert h(Table(task, id)) == Some(g);
      }
    }
  }

  /** Freeing a task's private frames and dropping its tables keeps the books. */
  lemma TaskReleased(ty: Types, ty': Types, spaces: Spaces, registry: Registry, task: TaskId)
    requires Owned(ty, Holds(spaces, registry), {}) && task in spaces && FreedSet(ty, ty', TaskFrames(spaces[task]))
    ensures Owned(ty', Holds(spaces - {task}, registry), {})
  {
    hide TaskFrames;
    var h, h' := Holds(spaces, registry), Holds(spaces - {task}, registry);
    assert forall r: Slot :: h'(r) == if !r.Shared? && r.task == task then None else h(r);
    forall r: Slot | h'(r).Some? ensures ty'(h'(r).value) == ty(h'(r).value) {
      SurvivorsKeepType(ty, ty', spaces, registry, task, r);
    }
    forall f: Frame | InRegistry(h, f) ensures InRegistry(h', f) && Held(h', f) {
      var b: BufId, i: nat :| h(Shared(b, i)) == Some(f);
      assert h'(Shared(b, i)) == Some(f);
    }
    forall f: Frame | UserTyped(ty'(f)) ensures Held(h', f) {
      assert ty'(f) == ty(f) && Held(h, f);
      var r: Slot :| h(r) == Some(f);
      if !r.Shared? && r.task == task { TaskSlots(spaces, registry, task, f); } else { assert h'(r) == Some(f); }
    }
  }

  lemma SurvivorsKeepType(ty: Types, ty': Types, spaces: Spaces, registry: Registry, task: TaskId, r: Slot)
    requires Owned(ty, Holds(spaces, registry), {}) && task in spaces && FreedSet(ty, ty', TaskFrames(spaces[task]))
    requires (r.Shared? || r.task != task) && Holds(spaces, registry)(r).Some?
    ensures ty'(Holds(spaces, registry)(r).value) == ty(Holds(spaces, registry)(r).value)
  {
    hide TaskFrames;
    var h := Holds(spaces, registry);
    var g := h(r).value;
    TaskSlots(spaces, registry, task, g);
    if g in TaskFrames(spaces[task]) && ty(g) == Some(UsedByUserMode) {
      var q: Slot :| !q.Shared? && q.task == task && h(q) == Some(g);
      assert false;
    }
    assert ty'(g) == ty(g);
  }

  /** Tasks read the same bytes as before. */
  ghost predicate SameMemory(spaces: Spaces, ram: Ram, ram': Ram) {
    forall t, v: nat :: t in spaces ==> ByteAt(spaces[t], ram', v) == ByteAt(spaces[t], ram, v)
  }

  /** Writing usable frames disturbs nobody. */
  lemma OthersUndisturbed(ty: Types, spaces: Spaces, registry: Registry, ram: Ram, ram': Ram)
    requires Owned(ty, Holds(spaces, registry), {}) && Writes(ty, ram, ram')
    ensures SameMemory(spaces, ram, ram')
  {
    var h := Holds(spaces, registry);
    forall t, v: nat | t in spaces ensures ByteAt(spaces[t], ram', v) == ByteAt(spaces[t], ram, v) {
      var p := v / PAGE_SIZE;
      if p in spaces[t].pages {
        var g := spaces[t].pages[p];
        assert h(Data(t, p)) == Some(g) && TypeFits(Data(t, p), ty(h(Data(t, p)).value));
        assert ram'(g) == ram(g);
      }
    }
  }

  /** Every byte of n pages from `start` on reads zero. */
  ghost predicate ReadsZero(s: Space, ram: Ram, start: nat, n: nat) {
    forall v: nat :: start <= v < start + n * PAGE_SIZE ==> ByteAt(s, ram, v) == Some(0)
  }

  /** The buffer's frames were usable, so the caller's word is not in them. */
  lemma BufferStaysZero(ty: Types, ty': Types, spaces: Spaces, buffers: Registry, registry: Registry,
                        registry': Registry, spaces': Spaces, ram: Ram, task: TaskId, id: BufId, start: nat, n: nat,
                        outPtr: nat)
    requires Owned(ty, Holds(spaces, buffers), {}) && Mapped(ty, ty', spaces, spaces', task, start, n, SharedBuffer)
    requires NewBuffer(registry, registry', spaces', ram, task, id, start, n)
    requires Reaches(spaces[task], outPtr, 8) && Reaches(spaces'[task], outPtr, 8)
    ensures var ram' := Store(spaces'[task], ram, outPtr, LittleEndian(start, 8));
      NewBuffer(registry, registry', spaces', ram', task, id, start, n)
  {
    hide Owned, Store, LittleEndian, MapsAll;
    var s, s', bytes := spaces[task], spaces'[task], LittleEndian(start, 8);
    forall v: nat | start <= v < start + n * PAGE_SIZE ensures ByteAt(s', Store(s', ram, outPtr, bytes), v) == Some(0) {
      forall u: nat | outPtr <= u < outPtr + 8 ensures !SamePlace(s', v, s', u) {
        assert Maps(s, u);
        NewPageIsApart(ty, ty', spaces, buffers, spaces', task, start, n, v / PAGE_SIZE, u / PAGE_SIZE);
      }
      StoreSeen(s', ram, outPtr, bytes, s', v);
      assert ByteAt(s', ram, v) == Some(0);
    }
  }

  lemma NewPageIsApart(ty: Types, ty': Types, spaces: Spaces, buffers: Registry, spaces': Spaces, task: TaskId,
                       start: nat, n: nat, p: nat, q: nat)
    requires Owned(ty, Holds(spaces, buffers), {}) && Mapped(ty, ty', spaces, spaces', task, start, n, SharedBuffer)
    requires InRange(start / PAGE_SIZE, n, p) && q in spaces[task].pages
    ensures p in spaces'[task].pages && q in spaces'[task].pages && spaces'[task].pages[p] != spaces'[task].pages[q]
  {
    var h, s' := Holds(spaces, buffers), spaces'[task];
    var g := s'.pages[q];
    assert h(Data(task, q)) == Some(g) && TypeFits(Data(task, q), ty(h(Data(task, q)).value));
    assert MappedIn(s'.pages, start / PAGE_SIZE, n, s'.pages[p]);
    assert ty'(s'.pages[p]) == Some(SharedBuffer) && ty(s'.pages[p]) == Some(Usable);
  }

  lemma ZeroPagesReadZero(s: Space, ram: Ram, start: nat, n: nat)
    requires start % PAGE_SIZE == 0 && ZeroPages(s, ram, start / PAGE_SIZE, n)
    ensures ReadsZero(s, ram, start, n)
  {
    forall v: nat | start <= v < start + n * PAGE_SIZE ensures ByteAt(s, ram, v) == Some(0) {
      assert InRange(start / PAGE_SIZE, n, v / PAGE_SIZE);
    }
  }

  /** Free the frames of a buffer one by one. */
  method FreeFrames(phys: PhysicalMemory, frames: seq<Frame>)
    requires phys.Valid() && Distinct(frames)
    requires forall j :: 0 <= j < |frames| ==> phys.typeOf(frames[j]) == Some(SharedBuffer)
    modifies phys
    ensures phys.Valid() && FreedFrames(old(phys.typeOf), phys.typeOf, frames)
  {
    for i := 0 to |frames|
      invariant phys.Valid() && FreedFrames(old(phys.typeOf), phys.typeOf, frames[..i])
    {
      ghost var ty := phys.typeOf;
      assert frames[i] !in frames[..i];
      assert ty(frames[i]) == Some(SharedBuffer);
      var _ := phys.FreeFrame(frames[i], SharedBuffer);
      FreedOneFrame(old(phys.typeOf), ty, phys.typeOf, frames, i);
    }
    assert frames[..|frames|] == frames;
  }

  /** `registry` holds the buffers that can be looked up, `doomed` those taken out and not yet freed. */
  class MemoryManager {
    const phys: PhysicalMemory
    var spaces: Spaces
    var registry: Registry
    var doomed: Registry
    var nextBuf: BufId
    var snapshots: map<CallId, Snapshot>
    var nextCall: CallId
    var ram: Ram

    constructor (phys: PhysicalMemory, ram: Ram)
      requires phys.Valid() && forall f: Frame :: !UserTyped(phys.typeOf(f))
      ensures Valid() && this.phys == phys && this.ram == ram
      ensures spaces == map[] && registry == map[] && doomed == map[] && snapshots == map[]
    {
      this.phys, this.ram := phys, ram;
      spaces, registry, doomed, nextBuf, snapshots, nextCall := map[], map[], map[], 1, map[], 0;
    }

    /** With one task.  The books balance exactly if they do for its page tables. */
    constructor WithTask(phys: PhysicalMemory, ram: Ram, task: TaskId, s: Space)
      requires phys.Valid() && PagesOk(s) && AddrsOk(s)
      ensures this.phys == phys && this.ram == ram
      ensures spaces == map[task := s] && registry == map[] && doomed == map[] && snapshots == map[]
      ensures Valid() <==> Owned(phys.typeOf, Holds(map[task := s], map[]), {})
    {
      this.phys, this.ram := phys, ram;
      spaces, registry, doomed, nextBuf, snapshots, nextCall := map[task := s], map[], map[], 1, map[], 0;
      new;
      hide Owned, PagesOk, AddrsOk;
      assert Buffers() == map[];
    }

    /** All buffers whose frames are not freed. */
    function Buffers(): Registry
      reads `registry, `doomed
    {
      registry + doomed
    }

    ghost predicate Accounted(fl: set<Frame>)
      reads this, phys
    {
      phys.Valid() && Owned(phys.typeOf, Holds(spaces, Buffers()), fl)
    }

    ghost predicate SpacesOk()
      reads `spaces
    {
      forall t :: t in spaces ==> AddrsOk(spaces[t]) && PagesOk(spaces[t])
    }

    ghost predicate RegistryOk()
      reads `registry, `doomed, `nextBuf, `snapshots, `nextCall
    {
      && registry.Keys !! doomed.Keys
      && (forall b :: b in Buffers() ==> b < nextBuf && 0 < |Buffers()[b]|)
      && (forall k :: k in snapshots ==> k < nextCall && 0 < |snapshots[k].frames|)
    }

    /** Pages, frames and buffers agree. */
    ghost predicate Sound()
      reads this, phys
    {
      Accounted({}) && SpacesOk() && RegistryOk()
    }

    /** Every copied frame list is that of a buffer not yet freed. */
    ghost predicate SnapshotsOk()
      reads `registry, `doomed, `snapshots
    {
      forall k :: k in snapshots ==> snapshots[k].buf in Buffers() && Buffers()[snapshots[k].buf] == snapshots[k].frames
    }

    /** The invariant of the memory system over every run. */
    ghost predicate Valid()
      reads this, phys
    {
      Sound() && SnapshotsOk()
    }

    /** The books with one task's tables taken out, its addresses already changed. */
    lemma Lend(task: TaskId, addrs: AddressSet)
      requires Accounted({}) && task in spaces
      ensures Ledger(phys, Holds(spaces, Buffers()), task, spaces[task].(addrs := addrs), {})
    {
      var was := spaces[task];
      assert spaces[task := was] == spaces;
      HoldsWith(phys.typeOf, spaces, Buffers(), task, was, {});
      AddrsDoNotHold(phys.typeOf, Holds(spaces, Buffers()), task, was, was.(addrs := addrs), {});
    }

    lemma SpaceOk(task: TaskId)
      requires SpacesOk() && task in spaces
      ensures AddrsOk(spaces[task]) && PagesOk(spaces[task])
    {
    }

    /** Take addresses for n pages in one task's space: the lowest place they fit. */
    method Begin(task: TaskId, n: nat) returns (s: Space, start: Option<nat>)
      requires Sound() && task in spaces && 0 < n
      ensures start.None? <==> forall a: nat :: !Fits(spaces[task].addrs, USER_MIN, USER_MAX, n, a)
      ensures start.Some? ==> Begun(spaces[task], s, start.value, n)
      ensures start.Some? ==> Ledger(phys, Holds(spaces, Buffers()), task, s, {})
    {
      var was := spaces[task];
      var addrs;
      addrs, start := AllocateUserPages(was.addrs, n);
      s := was.(addrs := addrs);
      if start.Some? {
        FitsMeansUnmapped(was, start.value / PAGE_SIZE, n);
        Lend(task, addrs);
      }
    }

    /** Install a task's tables. */
    method Commit(task: TaskId, s: Space)
      requires SpacesOk() && AddrsOk(s) && PagesOk(s)
      requires Ledger(phys, Holds(spaces, Buffers()), task, s, {})
      modifies `spaces
      ensures Accounted({}) && SpacesOk() && spaces == old(spaces)[task := s]
    {
      HoldsWith(phys.typeOf, spaces, Buffers(), task, s, {});
      spaces := spaces[task := s];
    }

    /** Give up a mapping whose pages are already removed: the addresses go back too. */
    method Abandon(task: TaskId, s: Space, start: nat, n: nat)
      requires SpacesOk() && task in spaces && 0 < n
      requires s == spaces[task].(addrs := s.addrs, tables := s.tables) && PagesOk(s)
      requires Begun(spaces[task], spaces[task].(addrs := s.addrs), start, n)
      requires Ledger(phys, Holds(spaces, Buffers()), task, s, {})
      modifies `spaces
      ensures Accounted({}) && SpacesOk()
      ensures spaces == old(spaces)[task := old(spaces[task]).(tables := s.tables)]
    {
      var was := spaces[task];
      var addrs, ok := FreeUserPages(s.addrs, start, n * PAGE_SIZE);
      AddrsRestored(was.addrs, s.addrs, addrs, start, n);
      var s' := was.(tables := s.tables);
      AddrsDoNotHold(phys.typeOf, Holds(spaces, Buffers()), task, s, s', {});
      assert s.(addrs := addrs) == s';
      Commit(task, s.(addrs := addrs));
    }

    /** Allocate fresh memory for a user task; it reads zero, and nobody else's memory changes. */
    method Mmap(task: TaskId, size: nat) returns (r: Option<nat>)
      requires Sound()
      modifies `spaces, `ram, phys
      ensures Sound() && SameMemory(old(spaces), old(ram), ram)
      ensures r.Some? ==> 0 < size
      ensures r.Some? ==>
        Mapped(old(phys.typeOf), phys.typeOf, old(spaces), spaces, task, r.value, PageCount(size), UsedByUserMode)
      ensures r.Some? ==> ReadsZero(spaces[task], ram, r.value, PageCount(size))
      ensures r.None? ==> Undone(old(phys.typeOf), phys.typeOf, old(spaces), spaces, task)
      ensures r.None? ==>
        || size == 0 || task !in old(spaces)
        || NoRoom(old(spaces), task, PageCount(size)) || Scarce(phys.types, 2 * PageCount(size))
    {
      hide Ledger, PagesOk, AddrsOk, GrownBy, Extended, OnlyTables, FreedIn, Owned, Begun, Mapped, Undone, Scarce,
           Writes, ZeroPages, ReadsZero, SameMemory, Buffers, RegistryOk, SpacesOk;
      if size == 0 || task !in spaces {
        OnlyTablesSame(phys.typeOf, spaces, task);
        Unchanged(spaces, ram);
        return None;
      }
      var s, start := Begin(task, PageCount(size));
      if start.None? {
        OnlyTablesSame(phys.typeOf, spaces, task);
        Unchanged(spaces, ram);
        return None;
      }
      var ok := MapAnonymous(task, s, start.value, PageCount(size));
      if ok { r := start; } else { r := None; }
    }

    /** Back n pages whose addresses are taken with fresh zero frames, or undo it all. */
    method MapAnonymous(task: TaskId, s: Space, start: nat, n: nat) returns (ok: bool)
      requires Sound() && task in spaces && 0 < n && Begun(spaces[task], s, start, n)
      requires Ledger(phys, Holds(spaces, Buffers()), task, s, {})
      modifies `spaces, `ram, phys
      ensures Sound() && SameMemory(old(spaces), old(ram), ram)
      ensures ok ==> Mapped(old(phys.typeOf), phys.typeOf, old(spaces), spaces, task, start, n, UsedByUserMode)
      ensures ok ==> ReadsZero(spaces[task], ram, start, n)
      ensures !ok ==> Undone(old(phys.typeOf), phys.typeOf, old(spaces), spaces, task) && Scarce(phys.types, 2 * n)
    {
      hide Ledger, PagesOk, AddrsOk, GrownBy, Extended, OnlyTables, FreedIn, Owned, Begun, Mapped, Undone, Scarce,
           Writes, ZeroPages, ReadsZero, SameMemory, Buffers, RegistryOk, SpacesOk, PagesOutside, Holds;
      ghost var was, rest := spaces[task], Holds(spaces, Buffers());
      ghost var ty := phys.typeOf;
      var first := start / PAGE_SIZE;
      SpaceOk(task);
      BegunFacts(was, s, start, n);
      var s1, ram1, done := MapFreshPages(phys, rest, task, s, ram, first, n);
      OthersUndisturbed(ty, spaces, Buffers(), ram, ram1);
      ram := ram1;
      if done < n {
        UndoAnonymous(task, ty, s, s1, start, n, done);
        return false;
      }
      MappingDone(ty, phys.typeOf, spaces, task, s, s1, start, n, UsedByUserMode);
      ZeroPagesReadZero(s1, ram, start, n);
      Commit(task, s1);
      ok := true;
    }

    /** Unmap the pages of a mapping that ran out of memory and give their addresses back. */
    method UndoAnonymous(task: TaskId, ghost ty: Types, ghost s: Space, s1: Space, start: nat, n: nat, done: nat)
      requires SpacesOk() && task in spaces && done < n && Begun(spaces[task], s, start, n) && Scarce(phys.types, 2)
      requires s1 == s.(tables := s1.tables, pages := s1.pages) && PagesOk(s1)
      requires Ledger(phys, Holds(spaces, Buffers()), task, s1, {})
      requires Extended(s.pages, s1.pages, start / PAGE_SIZE, done)
      requires GrownBy(ty, phys.typeOf, s, s1, start / PAGE_SIZE, done, UsedByUserMode)
      modifies `spaces, phys
      ensures Accounted({}) && SpacesOk() && Scarce(phys.types, 2 * n)
      ensures Undone(ty, phys.typeOf, old(spaces), spaces, task)
    {
      hide PagesOk, AddrsOk, GrownBy, Extended, OnlyTables, FreedIn, Owned, Begun, Undone, Scarce, Buffers, Holds,
           SpacesOk, PagesOutside;
      ghost var rest, ty1 := Holds(spaces, Buffers()), phys.typeOf;
      BegunFacts(spaces[task], s, start, n);
      var s2 := UnmapPrivate(phys, rest, task, s1, start / PAGE_SIZE, done, {});
      RollbackIsExact(ty, ty1, phys.typeOf, s, s1, start / PAGE_SIZE, done);
      ScarceMore(phys.types, 2 + 2 * done, 2 * n);
      FewerPagesOk(s1, s2);
      Abandon(task, s2, start, n);
      MappingUndone(ty, phys.typeOf, old(spaces), task, s2.tables);
    }

    /** Release pages; addresses that are not all allocated are refused. */
    method Munmap(task: TaskId, addr: nat, size: nat) returns (ok: bool)
      requires Sound()
      modifies `spaces, phys
      ensures Sound()
      ensures ok <==> Releasable(old(spaces), task, addr, size)
      ensures ok ==> Unmapped(old(phys.typeOf), phys.typeOf, old(spaces), spaces, task, addr, PageCount(size))
      ensures !ok ==> spaces == old(spaces) && phys.typeOf == old(phys.typeOf)
    {
      hide Ledger, PagesOk, FreedIn, Owned, Removed;
      if size == 0 || addr % PAGE_SIZE != 0 || task !in spaces { return false; }
      var n := PageCount(size);
      var s := spaces[task];
      var addrs;
      addrs, ok := FreeUserPages(s.addrs, addr, n * PAGE_SIZE);
      if !ok { return; }
      ghost var rest := Holds(spaces, Buffers());
      Lend(task, addrs);
      var s1 := s.(addrs := addrs);
      var s2 := UnmapPrivate(phys, rest, task, s1, addr / PAGE_SIZE, n, {});
      FewerPagesOk(s, s2);
      AddrsAfterUnmap(s, s2, addr, n);
      Commit(task, s2);
    }

    /** The system call: check the request, then create. */
    method CreateSharedBuf(task: TaskId, size: nat, outPtr: nat) returns (r: Creation)
      requires Sound()
      modifies `spaces, `registry, `nextBuf, `ram, phys
      ensures Sound() && (old(SnapshotsOk()) ==> SnapshotsOk())
      ensures !r.Created? ==> SameMemory(old(spaces), old(ram), ram)
      ensures r.Created? ==> WordWritten(old(spaces), old(ram), ram, task, outPtr, r.start)
      ensures r.Created? ==> HoldsWord(spaces, ram, task, outPtr, r.start)
      ensures r.Panicked? <==> 0 < size && OutCheck(old(spaces), task, outPtr).Panics?
      ensures r.Created? ==> 0 < size && r.id == old(nextBuf) && r.id !in old(Buffers())
      ensures r.Created? ==> NewBuffer(old(registry), registry, spaces, ram, task, r.id, r.start, PageCount(size))
      ensures r.Created? ==>
        Mapped(old(phys.typeOf), phys.typeOf, old(spaces), spaces, task, r.start, PageCount(size), SharedBuffer)
      ensures !r.Created? ==> registry == old(registry)
      ensures !r.Created? ==> Undone(old(phys.typeOf), phys.typeOf, old(spaces), spaces, task)
      ensures r.Refused? ==>
        || size == 0 || OutCheck(old(spaces), task, outPtr).Rejected?
        || NoRoom(old(spaces), task, PageCount(size)) || Scarce(phys.types, 2 * PageCount(size))
    {
      hide Mapped, Undone, OutCheck, Scarce, NewBuffer, SameMemory, WordWritten, HoldsWord, Owned, Buffers, RegistryOk,
           SpacesOk, SnapshotsOk;
      ValidationNeedsTask(spaces, task, outPtr);
      if size == 0 || !OutCheck(spaces, task, outPtr).Accepted? {
        OnlyTablesSame(phys.typeOf, spaces, task);
        Unchanged(spaces, ram);
        return if size > 0 && OutCheck(spaces, task, outPtr).Panics? then Panicked else Refused;
      }
      SpaceOk(task);
      ghost var was, ram0, ty := spaces, ram, phys.typeOf;
      OutIsMapped(spaces, task, outPtr);
      r := BuildSharedBuf(task, PageCount(size));
      if r.Created? {
        OutStaysMapped(ty, phys.typeOf, was, spaces, task, r.start, PageCount(size), outPtr);
        var ram1 := ram;
        ram := Store(spaces[task], ram1, outPtr, LittleEndian(r.start, 8));
        WordSeen(was, spaces, ram0, ram1, task, outPtr, r.start);
        BufferStaysZero(ty, phys.typeOf, was, old(Buffers()), old(registry), registry, spaces, ram1, task, r.id,
                        r.start, PageCount(size), outPtr);
      }
    }

    /** Create a buffer of n shared frames and map it for the caller; it reads zero. */
    method BuildSharedBuf(task: TaskId, n: nat) returns (r: Creation)
      requires Sound() && task in spaces && 0 < n
      modifies `spaces, `registry, `nextBuf, `ram, phys
      ensures Sound() && (old(SnapshotsOk()) ==> SnapshotsOk()) && SameMemory(old(spaces), old(ram), ram)
      ensures !r.Panicked?
      ensures r.Created? ==> r.id == old(nextBuf) && r.id !in old(Buffers())
      ensures r.Created? ==> NewBuffer(old(registry), registry, spaces, ram, task, r.id, r.start, n)
      ensures r.Created? ==> Mapped(old(phys.typeOf), phys.typeOf, old(spaces), spaces, task, r.start, n, SharedBuffer)
      ensures r.Refused? ==> registry == old(registry)
      ensures r.Refused? ==> Undone(old(phys.typeOf), phys.typeOf, old(spaces), spaces, task)
      ensures r.Refused? ==> NoRoom(old(spaces), task, n) || Scarce(phys.types, 2 * n)
    {
      hide Ledger, PagesOk, AddrsOk, GrownBy, Extended, OnlyTables, FreedFrames, Owned, Begun, Mapped, Undone, Scarce,
           Building, MapsAll, Distinct, Frames, Writes, ZeroPages, ReadsZero, SameMemory, Buffers, RegistryOk, SpacesOk,
           SnapshotsOk, NewBuffer;
      var s, start := Begin(task, n);
      if start.None? {
        OnlyTablesSame(phys.typeOf, spaces, task);
        Unchanged(spaces, ram);
        return Refused;
      }
      r := BackWithShared(task, s, start.value, n);
    }

    /** Back n pages whose addresses are taken with a new buffer, or undo it all. */
    method BackWithShared(task: TaskId, s: Space, start: nat, n: nat) returns (r: Creation)
      requires Sound() && task in spaces && 0 < n && Begun(spaces[task], s, start, n)
      requires Ledger(phys, Holds(spaces, Buffers()), task, s, {})
      modifies `spaces, `registry, `nextBuf, `ram, phys
      ensures Sound() && (old(SnapshotsOk()) ==> SnapshotsOk())
      ensures SameMemory(old(spaces), old(ram), ram) && !r.Panicked?
      ensures r.Created? ==> r.id == old(nextBuf) && r.id !in old(Buffers())
      ensures r.Created? ==> NewBuffer(old(registry), registry, spaces, ram, task, r.id, r.start, n)
      ensures r.Created? ==>
        Mapped(old(phys.typeOf), phys.typeOf, old(spaces), spaces, task, r.start, n, SharedBuffer)
      ensures r.Refused? ==> registry == old(registry) && Scarce(phys.types, 2 * n)
      ensures r.Refused? ==> Undone(old(phys.typeOf), phys.typeOf, old(spaces), spaces, task)
    {
      hide Ledger, PagesOk, AddrsOk, GrownBy, Extended, OnlyTables, FreedFrames, Owned, Begun, Mapped, Undone, Scarce,
           Building, MapsAll, Distinct, Frames, Writes, ZeroPages, ReadsZero, SameMemory, Buffers, RegistryOk, SpacesOk,
           SnapshotsOk, NewBuffer, PagesOutside, Holds;
      ghost var rest, ty := Holds(spaces, Buffers()), phys.typeOf;
      var first := start / PAGE_SIZE;
      SpaceOk(task);
      BegunFacts(spaces[task], s, start, n);
      var s1, ram1, frames := MapNewShared(phys, rest, task, s, ram, first, n);
      OthersUndisturbed(ty, spaces, Buffers(), ram, ram1);
      ram := ram1;
      BuildingFacts(phys, rest, task, s1, first, frames);
      TypesOfMapped(ty, phys.typeOf, s, s1, first, frames, SharedBuffer);
      if |frames| < n {
        UndoShared(task, ty, s, s1, start, n, frames);
        return Refused;
      }
      r := Created(nextBuf, start);
      Enroll(task, s1, frames);
      MappingDone(ty, phys.typeOf, spaces, task, s, s1, start, n, SharedBuffer);
      ZeroPagesReadZero(s1, ram, start, n);
      Commit(task, s1);
      BufferIsNew(old(registry), registry, spaces, ram, task, r.id, r.start, frames);
    }

    /** Unmap and free the frames of a buffer that ran out of memory and give its addresses back. */
    method UndoShared(task: TaskId, ghost ty: Types, ghost s: Space, s1: Space, start: nat, n: nat, frames: seq<Frame>)
      requires SpacesOk() && task in spaces && |frames| < n && Begun(spaces[task], s, start, n) && Scarce(phys.types, 2)
      requires s1 == s.(tables := s1.tables, pages := s1.pages)
      requires Building(phys, Holds(spaces, Buffers()), task, s1, start / PAGE_SIZE, frames)
      requires Extended(s.pages, s1.pages, start / PAGE_SIZE, |frames|)
      requires GrownBy(ty, phys.typeOf, s, s1, start / PAGE_SIZE, |frames|, SharedBuffer)
      modifies `spaces, phys
      ensures Accounted({}) && SpacesOk() && Scarce(phys.types, 2 * n)
      ensures Undone(ty, phys.typeOf, old(spaces), spaces, task)
    {
      hide PagesOk, AddrsOk, GrownBy, Extended, OnlyTables, FreedFrames, Owned, Begun, Undone, Scarce, Building,
           MapsAll, Distinct, Frames, Buffers, Holds, SpacesOk, PagesOutside;
      ghost var rest, ty1, first := Holds(spaces, Buffers()), phys.typeOf, start / PAGE_SIZE;
      BegunFacts(spaces[task], s, start, n);
      BuildingFacts(phys, rest, task, s1, first, frames);
      TypesOfMapped(ty, phys.typeOf, s, s1, first, frames, SharedBuffer);
      var s2 := RollbackCreate(phys, rest, task, s1, start / PAGE_SIZE, frames);
      SharedRollbackIsExact(ty, ty1, phys.typeOf, s, s1, first, frames);
      OutsideExtended(s, s1, first, |frames|);
      ScarceMore(phys.types, 2 + 2 * |frames|, 2 * n);
      FewerPagesOk(s1, s2);
      Abandon(task, s2, start, n);
      MappingUndone(ty, phys.typeOf, old(spaces), task, s2.tables);
    }

    /** Enter new shared frames into the registry under the next identifier. */
    method Enroll(ghost task: TaskId, ghost s: Space, frames: seq<Frame>)
      requires SpacesOk() && RegistryOk() && Ledger(phys, Holds(spaces, Buffers()), task, s, Frames(frames))
      requires 0 < |frames| && Distinct(frames) && forall j :: 0 <= j < |frames| ==>
        phys.typeOf(frames[j]) == Some(SharedBuffer)
      modifies `registry, `nextBuf
      ensures old(SnapshotsOk()) ==> SnapshotsOk()
      ensures SpacesOk() && RegistryOk() && Ledger(phys, Holds(spaces, Buffers()), task, s, {})
      ensures old(nextBuf) !in old(Buffers()) && registry == old(registry)[old(nextBuf) := frames]
    {
      hide Owned, Distinct, AddrsOk, PagesOk;
      RegisterBuffer(phys.typeOf, spaces, Buffers(), task, s, nextBuf, frames);
      EnrolledBuffers(registry, doomed, nextBuf, frames);
      registry := registry[nextBuf := frames];
      nextBuf := nextBuf + 1;
    }

    /** The first step of mapping a buffer: copy its frame list under the registry lock. */
    method LookUp(id: BufId, task: TaskId) returns (r: Option<CallId>)
      requires Sound()
      modifies `snapshots, `nextCall
      ensures Sound() && (old(SnapshotsOk()) ==> SnapshotsOk())
      ensures r.Some? <==> task in spaces && id in registry
      ensures r.Some? ==> r.value !in old(snapshots)
      ensures r.Some? ==> snapshots == old(snapshots)[r.value := Snapshot(task, id, registry[id])]
      ensures r.None? ==> snapshots == old(snapshots)
    {
      if task !in spaces || id !in registry { return None; }
      assert id in Buffers() && Buffers()[id] == registry[id];
      r := Some(nextCall);
      snapshots := snapshots[nextCall := Snapshot(task, id, registry[id])];
      nextCall := nextCall + 1;
    }

    /** Take a map call out of those in flight. */
    method Resume(k: CallId) returns (c: Snapshot)
      requires Sound() && k in snapshots
      modifies `snapshots
      ensures Sound() && c == old(snapshots)[k] && snapshots == old(snapshots) - {k} && 0 < |c.frames|
      ensures old(SnapshotsOk()) ==> SnapshotsOk() && AllShared(phys.typeOf, c.frames)
    {
      c := snapshots[k];
      if SnapshotsOk() { RegistryFrames(phys.typeOf, spaces, Buffers(), c.buf); }
      snapshots := snapshots - {k};
    }

    /** The second step, under the task's and the frame lock: map the copied frames.  Pages, frames and
        buffers still agree afterwards exactly if the frames are shared ones at that time. */
    method Install(k: CallId) returns (r: Option<nat>)
      requires Sound() && k in snapshots
      modifies `spaces, `snapshots, phys
      ensures snapshots == old(snapshots) - {k} && (old(SnapshotsOk()) ==> Valid())
      ensures r.Some? ==> var c := old(snapshots)[k];
        SharedMapped(old(phys.typeOf), phys.typeOf, old(spaces), spaces, c.task, r.value, c.frames)
      ensures r.Some? ==> (Sound() <==> AllShared(phys.typeOf, old(snapshots)[k].frames))
      ensures r.None? ==> Sound() && Undone(old(phys.typeOf), phys.typeOf, old(spaces), spaces, old(snapshots)[k].task)
      ensures r.None? ==> InstallRefused(old(spaces), old(snapshots)[k], phys.types)
    {
      hide Ledger, PagesOk, AddrsOk, Extended, OnlyTables, Owned, Begun, SharedMapped, Undone, Scarce, AllShared,
           Buffers, RegistryOk, SpacesOk, SnapshotsOk;
      ghost var ok := SnapshotsOk();
      var c := Resume(k);
      var task, frames := c.task, c.frames;
      if task !in spaces {
        OnlyTablesSame(phys.typeOf, spaces, task);
        return None;
      }
      var n := |frames|;
      var s, start := Begin(task, n);
      if start.None? {
        OnlyTablesSame(phys.typeOf, spaces, task);
        return None;
      }
      ghost var rest, ty := Holds(spaces, Buffers()), phys.typeOf;
      var first := start.value / PAGE_SIZE;
      SpaceOk(task);
      BegunFacts(spaces[task], s, start.value, n);
      var s1, done := MapSharedFrames(phys, rest, task, s, first, frames);
      if done < n {
        var s2 := RollbackMap(s1, first, done);
        OutsideExtended(s, s1, first, done);
        FewerPagesOk(s1, s2);
        Abandon(task, s2, start.value, n);
        MappingUndone(ty, phys.typeOf, old(spaces), task, s2.tables);
        return None;
      }
      assert frames[..done] == frames;
      if ok { KeepsShared(ty, phys.typeOf, s.tables, s1.tables, frames); }
      SharedMappingDone(ty, phys.typeOf, spaces, task, s, s1, start.value, frames);
      CommitCopied(task, s, s1, first, frames);
      r := start;
    }

    method CommitCopied(task: TaskId, ghost s: Space, s1: Space, ghost first: nat, ghost frames: seq<Frame>)
      requires SpacesOk() && RegistryOk() && AddrsOk(s1) && PagesOk(s1)
      requires s1 == s.(tables := s1.tables, pages := s1.pages)
      requires Ledger(phys, Holds(spaces, Buffers()), task, s1.(pages := s.pages), {})
      requires Extended(s.pages, s1.pages, first, |frames|) && MapsAll(s1.pages, first, frames)
      requires forall p: nat :: InRange(first, |frames|, p) ==> p !in s.pages
      modifies `spaces
      ensures spaces == old(spaces)[task := s1] && (Sound() <==> AllShared(phys.typeOf, frames))
    {
      hide Owned, Extended, MapsAll, AddrsOk, PagesOk;
      HoldsWith(phys.typeOf, spaces, Buffers(), task, s1, {});
      SharedPagesOwned(phys.typeOf, Holds(spaces, Buffers()), task, s1.(pages := s.pages), s1, first, frames);
      spaces := spaces[task := s1];
    }

    /** The first step of destroying a buffer: take it out of the registry, under its lock. */
    method Remove(id: BufId) returns (found: bool)
      requires Sound()
      modifies `registry, `doomed
      ensures Sound() && (old(SnapshotsOk()) ==> SnapshotsOk()) && Buffers() == old(Buffers())
      ensures found <==> id in old(registry)
      ensures registry == old(registry) - {id}
      ensures doomed == if found then old(doomed)[id := old(registry)[id]] else old(doomed)
    {
      hide Owned, AddrsOk, PagesOk, Holds;
      found := id in registry;
      if found {
        doomed := doomed[id := registry[id]];
      }
      registry := registry - {id};
      assert Buffers() == old(Buffers());
    }

    /** The second step, under the frame lock: free the frames.  The invariant survives exactly if no page
        maps a frame of the buffer and no map call has it in flight. */
    method Free(id: BufId)
      requires Valid() && id in doomed
      modifies `doomed, phys
      ensures doomed == old(doomed) - {id} && FreedFrames(old(phys.typeOf), phys.typeOf, old(doomed)[id])
      ensures Sound() <==> !StillMapped(spaces, old(doomed)[id])
      ensures Valid() <==> !StillMapped(spaces, old(doomed)[id]) && !InFlight(snapshots, id)
    {
      hide Owned, FreedFrames, StillMapped;
      ghost var ty, was := phys.typeOf, Buffers();
      var frames := doomed[id];
      assert was[id] == frames;
      RegistryFrames(ty, spaces, was, id);
      RegistryDistinct(ty, spaces, was, id);
      doomed := doomed - {id};
      assert Buffers() == was - {id};
      FreeFrames(phys, frames);
      if StillMapped(spaces, frames) {
        MappedBufferDangles(ty, phys.typeOf, spaces, was, Buffers(), id);
      } else {
        BufferReleased(ty, phys.typeOf, spaces, was, id);
      }
    }

    /** The last reference to a task is gone: its address space is freed. */
    method Exit(task: TaskId)
      requires Sound() && task in spaces
      modifies `spaces, phys
      ensures Sound() && spaces == old(spaces) - {task}
      ensures FreedSet(old(phys.typeOf), phys.typeOf, TaskFrames(old(spaces)[task]))
    {
      hide Owned, FreedSet, TaskFrames;
      ghost var ty := phys.typeOf;
      FreeUserAddressSpace(phys, spaces[task]);
      TaskReleased(ty, phys.typeOf, spaces, Buffers(), task);
      spaces := spaces - {task};
    }

    /** Start a task from a program.  A failed load undoes nothing, so only success keeps the invariant. */
    method Spawn(task: TaskId, parsed: Option<Elf>) returns (r: LoadResult)
      requires Sound() && task !in spaces && InModel(parsed)
      modifies `spaces, `ram, phys
      ensures r.Loaded? ==> Sound() && task in spaces && spaces == old(spaces)[task := spaces[task]]
      ensures r.Loaded? ==> parsed.Some? && ProgramLoaded(spaces[task], ram, parsed.value)
      ensures r.Loaded? ==> SameMemory(old(spaces), old(ram), ram)
      ensures r.Loaded? ==> StackAsFound(old(phys.typeOf), spaces[task], old(ram), ram)
      ensures !r.Loaded? ==> spaces == old(spaces)
      ensures !r.Loaded? ==>
        || Malformed(parsed) || Scarce(phys.types, 0)
        || (parsed.Some? && (Overlapping(parsed.value) || Misplaced(parsed.value)))
    {
      hide Owned, ProgramLoaded, OnlyUsable, AddrsOk, PagesOk, SameMemory, StackAsFound, Scarce, Malformed,
           Overlapping, Misplaced, Writes;
      ghost var ty, rest := phys.typeOf, Holds(spaces, Buffers());
      var s, ram';
      r, s, ram' := LoadElf(phys, rest, task, parsed, ram);
      if r.Loaded? {
        OnlyUsableWrites(ty, phys.typeOf, ram, ram');
        OthersUndisturbed(ty, spaces, Buffers(), ram, ram');
        Commit(task, s);
      }
      ram := ram';
    }
  }

  ghost predicate AllShared(ty: Types, frames: seq<Frame>) {
    forall j :: 0 <= j < |frames| ==> ty(frames[j]) == Some(SharedBuffer)
  }

  lemma Unchanged(spaces: Spaces, ram: Ram)
    ensures SameMemory(spaces, ram, ram)
  {
  }

  lemma ValidationNeedsTask(spaces: Spaces, task: TaskId, outPtr: nat)
    ensures OutCheck(spaces, task, outPtr).Accepted? ==> task in spaces
  {
  }

  lemma OnlyUsableWrites(ty: Types, ty': Types, ram: Ram, ram': Ram)
    requires OnlyUsable(ty, ty', ram, ram')
    ensures Writes(ty, ram, ram')
  {
  }

  /** A map call and a destroy call that cross.  No page maps the buffer when it is freed, and the map
      call, which copied the frames before, puts a page on frames that are no longer shared. */
  method MapRacesDestroy(m: MemoryManager, id: BufId, task: TaskId) returns (r: Option<nat>)
    requires m.Valid() && id in m.registry && task in m.spaces && !StillMapped(m.spaces, m.registry[id])
    modifies m, m.phys
    ensures r.Some? ==> !m.Sound()
    ensures r.None? ==> NoRoom(old(m.spaces), task, |old(m.registry)[id]|) || Scarce(m.phys.types, 0)
  {
    hide Owned, FreedFrames, SharedMapped, Undone, Scarce, StillMapped;
    ghost var frames := m.registry[id];
    var k := m.LookUp(id, task);
    var found := m.Remove(id);
    m.Free(id);
    ghost var ty := m.phys.typeOf;
    FreedIsUsable(old(m.phys.typeOf), ty, frames);
    r := m.Install(k.value);
    if r.Some? { StaysUnshared(ty, m.phys.typeOf, old(m.spaces), m.spaces, task, r.value, frames); }
  }

  lemma FreedIsUsable(ty: Types, ty': Types, frames: seq<Frame>)
    requires FreedFrames(ty, ty', frames) && 0 < |frames|
    ensures ty'(frames[0]) == Some(Usable)
  {
  }

  /** Mapping makes no frame a shared one. */
  lemma StaysUnshared(ty: Types, ty': Types, spaces: Spaces, spaces': Spaces, task: TaskId, start: nat,
                      frames: seq<Frame>)
    requires SharedMapped(ty, ty', spaces, spaces', task, start, frames) && 0 < |frames|
    requires ty(frames[0]) == Some(Usable)
    ensures !AllShared(ty', frames)
  {
    assert ty'(frames[0]) != Some(SharedBuffer);
  }
}
