/**
 Runs of the memory system: any interleaving of the critical sections of system calls by any tasks,
 and what the invariant they keep says in terms of pages and frames.
 */
module MemoryRuns {
  import opened Wrappers
  import opened PhysicalMemory
  import opened Ownership
  import opened PageTables
  import opened Teardown
  import opened ElfImage
  import opened ElfLoader
  import opened MemoryManager

  /** One critical section: mapping and destroying a buffer take two each. */
  datatype Call =
    | Start(task: TaskId, program: Option<Elf>)
    | Map(task: TaskId, size: nat)
    | Unmap(task: TaskId, addr: nat, size: nat)
    | CreateBuf(task: TaskId, size: nat, outPtr: nat)
    | LookUpBuf(id: BufId, task: TaskId)
    | InstallBuf(call: CallId)
    | RemoveBuf(id: BufId)
    | FreeBuf(id: BufId)
    | End(task: TaskId)

  /** The section belongs to a call in progress, and a task is started once. */
  predicate Due(call: Call, m: MemoryManager)
    reads m
  {
    match call
    case Start(task, program) => task !in m.spaces && InModel(program)
    case InstallBuf(k) => k in m.snapshots
    case FreeBuf(id) => id in m.doomed
    case End(task) => task in m.spaces
    case _ => true
  }

  /** Freeing a buffer that some page maps or some map call has in flight, which callers must not cause. */
  predicate Breaks(call: Call, m: MemoryManager)
    reads m
  {
    call.FreeBuf? && call.id in m.doomed && (StillMapped(m.spaces, m.doomed[call.id]) || InFlight(m.snapshots, call.id))
  }

  /** Serve sections in any order, up to the first that would break the invariant or failed load. */
  method Serve(m: MemoryManager, calls: seq<Call>) returns (served: nat, loading: bool)
    requires m.Valid()
    modifies m, m.phys
    ensures served <= |calls| && (loading ==> served < |calls| && calls[served].Start?)
    ensures !loading ==> m.Valid() && (served < |calls| ==> !Due(calls[served], m) || Breaks(calls[served], m))
  {
    hide Due, Breaks;
    served, loading := 0, false;
    while served < |calls| && Due(calls[served], m) && !Breaks(calls[served], m)
      invariant m.Valid() && served <= |calls| && !loading
    {
      loading := ServeOne(m, calls[served]);
      if loading { return; }
      served := served + 1;
    }
  }

  method ServeOne(m: MemoryManager, call: Call) returns (loading: bool)
    requires m.Valid() && Due(call, m) && !Breaks(call, m)
    modifies m, m.phys
    ensures (loading ==> call.Start?) && (!loading ==> m.Valid())
  {
    hide Owned, Mapped, Undone, WordWritten, HoldsWord, NewBuffer, SameMemory, ProgramLoaded, StackAsFound, Malformed,
         Overlapping, Misplaced, SharedMapped, Unmapped, FreedSet, FreedFrames, TaskFrames, AddrsOk, PagesOk, ReadsZero;
    loading := false;
    match call {
      case Start(task, program) =>
        var r := m.Spawn(task, program);
        loading := !r.Loaded?;
      case Map(task, size) => var _ := m.Mmap(task, size);
      case Unmap(task, addr, size) => var _ := m.Munmap(task, addr, size);
      case CreateBuf(task, size, outPtr) => var _ := m.CreateSharedBuf(task, size, outPtr);
      case LookUpBuf(id, task) => var _ := m.LookUp(id, task);
      case InstallBuf(k) => var _ := m.Install(k);
      case RemoveBuf(id) => var _ := m.Remove(id);
      case FreeBuf(id) => m.Free(id);
      case End(task) => m.Exit(task);
    }
  }

  /** A private frame is mapped at most once in the whole system, and is nobody's page table. */
  lemma PrivateFramesAreMappedOnce(ty: Types, spaces: Spaces, registry: Registry, t: TaskId, p: nat, u: TaskId, q: nat)
    requires Owned(ty, Holds(spaces, registry), {})
    requires t in spaces && p in spaces[t].pages && u in spaces && q in spaces[u].pages
    requires spaces[t].pages[p] == spaces[u].pages[q] && ty(spaces[t].pages[p]) != Some(SharedBuffer)
    ensures t == u && p == q && ty(spaces[t].pages[p]) == Some(UsedByUserMode)
    ensures forall v, id :: v in spaces && id in spaces[v].tables ==> spaces[v].tables[id] != spaces[t].pages[p]
  {
    var h := Holds(spaces, registry);
    var f := spaces[t].pages[p];
    assert h(Data(t, p)) == Some(f) && h(Data(u, q)) == Some(f);
    assert TypeFits(Data(t, p), ty(h(Data(t, p)).value));
    assert Data(t, p) == Data(u, q);
    forall v, id | v in spaces && id in spaces[v].tables ensures spaces[v].tables[id] != f {
      assert h(Table(v, id)) == Some(spaces[v].tables[id]);
      assert Table(v, id) != Data(t, p);
    }
  }

  predicate Entry(registry: Registry, b: BufId, i: int) {
    b in registry && 0 <= i < |registry[b]|
  }

  /** Buffers never share a frame, hold only shared frames, and every mapped shared frame is in one. */
  lemma BuffersAreDisjoint(ty: Types, spaces: Spaces, registry: Registry)
    requires Owned(ty, Holds(spaces, registry), {})
    ensures forall b, c, i, j :: Entry(registry, b, i) && Entry(registry, c, j) && registry[b][i] == registry[c][j] ==>
      b == c && i == j
    ensures forall b, i :: Entry(registry, b, i) ==> ty(registry[b][i]) == Some(SharedBuffer)
    ensures forall t, p :: t in spaces && p in spaces[t].pages && ty(spaces[t].pages[p]) == Some(SharedBuffer) ==>
              InSomeBuffer(registry, spaces[t].pages[p])
  {
    var h := Holds(spaces, registry);
    forall b, c, i, j | Entry(registry, b, i) && Entry(registry, c, j) && registry[b][i] == registry[c][j]
      ensures b == c && i == j
    {
      assert h(Shared(b, i)) == Some(registry[b][i]) && h(Shared(c, j)) == Some(registry[c][j]);
    }
    forall b, i | Entry(registry, b, i) ensures ty(registry[b][i]) == Some(SharedBuffer) {
      RegistryFrames(ty, spaces, registry, b);
    }
    forall t, p | t in spaces && p in spaces[t].pages && ty(spaces[t].pages[p]) == Some(SharedBuffer)
      ensures InSomeBuffer(registry, spaces[t].pages[p])
    {
      assert h(Data(t, p)) == Some(spaces[t].pages[p]);
      var b: BufId, i: nat :| h(Shared(b, i)) == Some(spaces[t].pages[p]);
      assert Entry(registry, b, i);
    }
  }

  ghost predicate InSomeBuffer(registry: Registry, f: Frame) {
    exists b, i :: Entry(registry, b, i) && registry[b][i] == f
  }

  /** No frame is lost: a user frame is mapped, a page table or root, or in a buffer. */
  lemma NoFrameIsLost(ty: Types, spaces: Spaces, registry: Registry, f: Frame)
    requires Owned(ty, Holds(spaces, registry), {}) && UserTyped(ty(f))
    ensures InSomeBuffer(registry, f) || exists t :: t in spaces && InTask(spaces[t], f)
  {
    var h := Holds(spaces, registry);
    assert Held(h, f);
    var r: Slot :| h(r) == Some(f);
    if r.Shared? { assert Entry(registry, r.buf, r.index); } else { assert InTask(spaces[r.task], f); }
  }

  ghost predicate InTask(s: Space, f: Frame) {
    f == s.l4 || (exists p :: p in s.pages && s.pages[p] == f) || exists id :: id in s.tables && s.tables[id] == f
  }
}
