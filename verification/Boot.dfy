/**
 From the boot module to the memory system in operation: the state in which the first system call finds it.
 */
module Boot {
  import opened Wrappers
  import opened PhysicalMemory
  import opened Ownership
  import opened PageTables
  import opened ElfImage
  import opened ModuleLoader
  import opened BootTask
  import opened MemoryManager
  import opened MemoryRuns

  /** What the boot loader hands over: a page-aligned module in memory whose bytes are not in the map as
      usable, and no user memory. */
  ghost predicate HandedOver(phys: PhysicalMemory, ram: Ram, start: nat, bytes: seq<Byte>)
    reads phys
  {
    && phys.Valid() && (forall f: Frame :: !UserTyped(phys.typeOf(f)))
    && bytes != [] && start % PAGE_SIZE == 0 && ModuleHolds(ram, start, bytes)
    && Reserved(phys.types, ModuleExtent(start, |bytes|))
  }

  predicate AllCongruent(segments: seq<Segment>) {
    forall i :: 0 <= i < |segments| && segments[i].load ==> Congruent(segments[i])
  }

  /** Every segment with file bytes reads right. */
  ghost predicate AllRead(s: Space, ram: Ram, bytes: seq<Byte>, segments: seq<Segment>) {
    forall i :: 0 <= i < |segments| && segments[i].load && segments[i].filesz > 0 ==>
      InFile(bytes, segments[i]) && ReadsSegment(s, ram, bytes, segments[i])
  }

  /** Build the first task and the memory system around it.  With segments inside the module, the invariant
      of the memory system holds exactly if no two of them have a frame in common. */
  method BootManager(phys: PhysicalMemory, task: TaskId, start: nat, bytes: seq<Byte>, segments: seq<Segment>,
                     entry: nat, ram: Ram)
    returns (r: Outcome, m: MemoryManager?)
    requires HandedOver(phys, ram, start, bytes) && BelowKernel(segments)
    modifies phys
    ensures r.Ready? ==> m != null && fresh(m) && m.phys == phys && m.spaces.Keys == {task}
    ensures r.Ready? ==> Sensible(segments, |bytes|, entry) && BootPages(m.spaces[task], segments)
    ensures !r.Ready? ==> m == null && phys.Valid() && (Scarce(phys.types, 0) || !Sensible(segments, |bytes|, entry))
    ensures r.Ready? && Inside(start, |bytes|, segments) ==> (m.Valid() <==> NoCommonFrame(start, segments))
    ensures r.Ready? && AllCongruent(segments) && NoCommonFrame(start, segments) ==>
      AllRead(m.spaces[task], m.ram, bytes, segments)
  {
    hide Owned, Loading, Books, Laid, ZeroFilled, Kept, PagesOk, AddrsOk, Reserved, ModuleHolds, Scarce, BootPages,
         Loadable, OnPage, Inside,
         NoCommonFrame, AllCongruent, AllRead;
    ghost var rest, ty, was := Holds(map[], map[]), phys.typeOf, phys.types;
    NothingOwned(ty);
    var s, ram';
    ghost var own, taken;
    r, s, ram', own, taken := LoadModule(phys, task, start, |bytes|, segments, entry, ram);
    if !r.Ready? { return r, null; }
    m := new MemoryManager.WithTask(phys, ram', task, s);
    ghost var l := Load(was, ModuleExtent(start, |bytes|), Some(Usable), start, segments);
    if Inside(start, |bytes|, segments) {
      BootTypes(phys, l, ty, |bytes|, taken);
      BootOwned(l, ty, phys.typeOf, rest, task, s, own, taken, |bytes|);
      HoldsWith(phys.typeOf, map[], map[], task, s, {});
    }
    if AllCongruent(segments) && NoCommonFrame(start, segments) {
      AllReadRight(l, s, own, taken, ram, ram', phys.types, bytes);
    }
  }

  lemma NothingOwned(ty: Types)
    requires forall f: Frame :: !UserTyped(ty(f))
    ensures Owned(ty, Holds(map[], map[]), {})
  {
  }

  lemma CongruentIsInside(start: nat, size: nat, segments: seq<Segment>)
    requires start % PAGE_SIZE == 0 && Loadable(segments, size) && AllCongruent(segments)
    ensures Inside(start, size, segments)
  {
    hide FilePages, LeavesHalf;
    forall i | 0 <= i < |segments| && HasFrames(segments[i])
      ensures FrameEnd(start, segments[i]) <= NextMultiple(start + size)
    {
      HasFramesHasBytes(segments[i]);
      CongruentSegmentSuits(start, size, segments[i]);
    }
  }

  lemma HasFramesHasBytes(seg: Segment)
    requires HasFrames(seg)
    ensures seg.filesz > 0
  {
  }

  lemma AllReadRight(l: Load, s: Space, own: map<nat, Frame>, taken: set<Frame>, ram: Ram, ram': Ram, now: TypeMap,
                     bytes: seq<Byte>)
    requires bytes != [] && l.start % PAGE_SIZE == 0 && l.m == ModuleExtent(l.start, |bytes|)
    requires Loadable(l.segments, |bytes|)
    requires Loading(l, now, taken) && Laid(s, own, l.start, l.segments) && ZeroFilled(own, ram', l.segments)
    requires ModuleHolds(ram, l.start, bytes) && Kept(ram, ram', l.start, |bytes|, l.segments, taken)
    requires AllCongruent(l.segments) && NoCommonFrame(l.start, l.segments)
    ensures AllRead(s, ram', bytes, l.segments)
  {
    hide Loading, Laid, ZeroFilled, ModuleHolds, Kept, Inside, InTail, NoCommonFrame, ReadsSegment, LeavesHalf,
         Congruent;
    CongruentIsInside(l.start, |bytes|, l.segments);
    forall i | 0 <= i < |l.segments| && l.segments[i].load && l.segments[i].filesz > 0
      ensures InFile(bytes, l.segments[i]) && ReadsSegment(s, ram', bytes, l.segments[i])
    {
      forall k: nat | k < l.segments[i].filesz ensures !Loses(bytes, l.segments, l.segments[i], k) {
        NoTailInFile(l.start, l.segments, i, k);
      }
      ImageIsRightExactly(l, s, own, taken, ram, ram', now, bytes, i);
    }
  }

  /** Every run of the system from its real first state keeps the invariant, up to the first critical section
      that would break it or failed load, for a boot module whose segments keep to frames of their own. */
  method BootAndServe(phys: PhysicalMemory, task: TaskId, start: nat, bytes: seq<Byte>, segments: seq<Segment>,
                      entry: nat, ram: Ram, calls: seq<Call>)
    returns (r: Outcome, m: MemoryManager?, served: nat, loading: bool)
    requires HandedOver(phys, ram, start, bytes) && BelowKernel(segments)
    requires Inside(start, |bytes|, segments) && NoCommonFrame(start, segments)
    modifies phys
    ensures r.Ready? ==> m != null && served <= |calls| && (loading ==> served < |calls| && calls[served].Start?)
    ensures r.Ready? && !loading ==> m.Valid()
    ensures r.Ready? && !loading ==> (served < |calls| ==> !Due(calls[served], m) || Breaks(calls[served], m))
    ensures !r.Ready? ==> Scarce(phys.types, 0) || !Sensible(segments, |bytes|, entry)
  {
    hide HandedOver, Sensible, Scarce, BootPages, Inside, NoCommonFrame, AllRead, AllCongruent, Due, Breaks;
    served, loading := 0, false;
    r, m := BootManager(phys, task, start, bytes, segments, entry, ram);
    if r.Ready? { served, loading := Serve(m, calls); }
  }
}
