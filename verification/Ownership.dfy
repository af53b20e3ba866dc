/**
 Who holds which physical frame.  A slot is a place that refers to a frame: a mapped page, a page
 table or root of a task, or an entry of a shared buffer.  `Owned` is the accounting every memory
 operation keeps; frames an operation has allocated but not yet put into a slot are in flight.
 */
module Ownership {
  import opened Wrappers
  import opened PhysicalMemory

  type TaskId = nat
  type BufId = nat

  /** A page table below the root: level 3 covers 2^27 pages, level 2 2^18, level 1 2^9. */
  datatype TableId = TableId(level: nat, index: nat)

  datatype Slot =
    | Data(task: TaskId, page: nat)
    | Table(task: TaskId, id: TableId)
    | Root(task: TaskId)
    | Shared(buf: BufId, index: nat)

  type Types = Frame -> Option<MemoryType>
  type Holding = Slot -> Option<Frame>

  predicate UserTyped(t: Option<MemoryType>) {
    t == Some(UsedByUserMode) || t == Some(SharedBuffer)
  }

  /** The type a frame in this slot must have. */
  predicate TypeFits(s: Slot, t: Option<MemoryType>) {
    match s
    case Data(_, _) => UserTyped(t)
    case Table(_, _) => t == Some(UsedByUserMode)
    case Root(_) => t == Some(UsedByUserMode)
    case Shared(_, _) => t == Some(SharedBuffer)
  }

  ghost predicate Held(h: Holding, f: Frame) {
    exists s :: h(s) == Some(f)
  }

  ghost predicate InRegistry(h: Holding, f: Frame) {
    exists b, i :: h(Shared(b, i)) == Some(f)
  }

  /** Every held frame has the type its slot needs. */
  ghost predicate WellTyped(ty: Types, h: Holding) {
    forall s: Slot :: h(s).Some? ==> TypeFits(s, ty(h(s).value))
  }

  /** A private frame is in one slot only, and a shared frame in one buffer entry only. */
  ghost predicate Exclusive(ty: Types, h: Holding) {
    forall s: Slot, r: Slot ::
      (h(s).Some? && h(s) == h(r) && (ty(h(s).value) == Some(UsedByUserMode) || (s.Shared? && r.Shared?))) ==> s == r
  }

  /** A mapped shared frame belongs to a live buffer. */
  ghost predicate Backed(ty: Types, h: Holding, fl: set<Frame>) {
    forall s: Slot :: s.Data? && h(s).Some? && ty(h(s).value) == Some(SharedBuffer) ==>
      h(s).value in fl || InRegistry(h, h(s).value)
  }

  /** No frame is lost: each user frame is in a slot or in flight. */
  ghost predicate NoLeak(ty: Types, h: Holding, fl: set<Frame>) {
    forall f: Frame {:trigger Held(h, f)} :: UserTyped(ty(f)) ==> f in fl || Held(h, f)
  }

  /** Frames in flight are in no slot, except that new shared frames may already be mapped. */
  ghost predicate Aloft(ty: Types, h: Holding, fl: set<Frame>) {
    && (forall f: Frame {:trigger f in fl} :: f in fl ==> UserTyped(ty(f)))
    && (forall s: Slot :: h(s).Some? && h(s).value in fl ==> s.Data? && ty(h(s).value) == Some(SharedBuffer))
  }

  ghost predicate Owned(ty: Types, h: Holding, fl: set<Frame>) {
    WellTyped(ty, h) && Exclusive(ty, h) && Backed(ty, h, fl) && NoLeak(ty, h, fl) && Aloft(ty, h, fl)
  }

  /** h' is h with slot s changed to v. */
  ghost predicate SetSlot(h: Holding, h': Holding, s: Slot, v: Option<Frame>) {
    forall r: Slot :: h'(r) == if r == s then v else h(r)
  }

  ghost predicate SameSlots(h: Holding, h': Holding) {
    forall r: Slot :: h'(r) == h(r)
  }

  lemma OwnedSame(ty: Types, h: Holding, h': Holding, fl: set<Frame>)
    requires Owned(ty, h, fl) && SameSlots(h, h')
    ensures Owned(ty, h', fl)
  {
    forall f: Frame | Held(h, f) ensures Held(h', f) { var s :| h(s) == Some(f); assert h'(s) == Some(f); }
    forall f: Frame | InRegistry(h, f) ensures InRegistry(h', f) {
      var b, i :| h(Shared(b, i)) == Some(f);
      assert h'(Shared(b, i)) == Some(f);
    }
  }

  lemma Reserve(ty: Types, ty': Types, h: Holding, fl: set<Frame>, f: Frame, t: MemoryType)
    requires Owned(ty, h, fl) && ty(f) == Some(Usable) && UserTyped(Some(t)) && SetType(ty, ty', f, t)
    ensures Owned(ty', h, fl + {f}) && f !in fl && !Held(h, f)
  {
  }

  lemma AloftIsUnheld(ty: Types, h: Holding, fl: set<Frame>, f: Frame)
    requires Owned(ty, h, fl) && f in fl && ty(f) == Some(UsedByUserMode)
    ensures !Held(h, f)
  {
  }

  lemma Release(ty: Types, ty': Types, h: Holding, fl: set<Frame>, f: Frame)
    requires Owned(ty, h, fl) && f in fl && !Held(h, f) && SetType(ty, ty', f, Usable)
    ensures Owned(ty', h, fl - {f})
  {
  }

  /** Put a private frame in flight into an empty slot. */
  lemma Attach(ty: Types, h: Holding, h': Holding, fl: set<Frame>, s: Slot, f: Frame)
    requires Owned(ty, h, fl) && f in fl && ty(f) == Some(UsedByUserMode)
    requires !s.Shared? && h(s) == None && SetSlot(h, h', s, Some(f))
    ensures Owned(ty, h', fl - {f})
  {
    HeldGrows(h, h', s, f);
  }

  lemma HeldGrows(h: Holding, h': Holding, s: Slot, f: Frame)
    requires h(s) == None && SetSlot(h, h', s, Some(f))
    ensures forall g: Frame :: Held(h', g) <==> Held(h, g) || g == f
    ensures !s.Shared? ==> forall g: Frame :: InRegistry(h', g) <==> InRegistry(h, g)
  {
  }

  /** Map a frame of a shared buffer, live or being created. */
  lemma AttachShared(ty: Types, h: Holding, h': Holding, fl: set<Frame>, s: Slot, f: Frame)
    requires Owned(ty, h, fl) && ty(f) == Some(SharedBuffer) && (f in fl || InRegistry(h, f))
    requires s.Data? && h(s) == None && SetSlot(h, h', s, Some(f))
    ensures Owned(ty, h', fl)
  {
    HeldGrows(h, h', s, f);
  }

  lemma HeldShrinks(h: Holding, h': Holding, s: Slot)
    requires s.Data? && SetSlot(h, h', s, None)
    ensures forall g: Frame :: Held(h', g) ==> Held(h, g)
    ensures forall g: Frame :: Held(h, g) && h(s) != Some(g) ==> Held(h', g)
    ensures forall g: Frame :: InRegistry(h', g) <==> InRegistry(h, g)
    ensures forall g: Frame :: InRegistry(h', g) ==> Held(h', g)
  {
  }

  /** Unmap a page: a private frame goes in flight, a shared one stays where it was. */
  lemma Detach(ty: Types, h: Holding, h': Holding, fl: set<Frame>, s: Slot, f: Frame)
    requires Owned(ty, h, fl) && s.Data? && h(s) == Some(f) && SetSlot(h, h', s, None)
    ensures ty(f) == Some(UsedByUserMode) ==> Owned(ty, h', fl + {f}) && !Held(h', f)
    ensures ty(f) == Some(SharedBuffer) ==> Owned(ty, h', fl)
    ensures UserTyped(ty(f))
  {
    assert TypeFits(s, ty(h(s).value));
    HeldShrinks(h, h', s);
    if ty(f) == Some(UsedByUserMode) {
      forall r: Slot ensures h'(r) != Some(f) { assert r != s ==> h'(r) == h(r); }
    }
  }

  /** Hand the shared frames in flight to a new buffer. */
  lemma Register(ty: Types, h: Holding, h': Holding, fl: set<Frame>, b: BufId, frames: seq<Frame>)
    requires Owned(ty, h, fl)
    requires forall i :: 0 <= i < |frames| ==> frames[i] in fl && ty(frames[i]) == Some(SharedBuffer)
    requires forall i, j :: 0 <= i < j < |frames| ==> frames[i] != frames[j]
    requires forall i :: h(Shared(b, i)) == None
    requires forall r: Slot :: h'(r) == if !(r.Shared? && r.buf == b) then h(r)
                                        else if r.index < |frames| then Some(frames[r.index]) else None
    ensures Owned(ty, h', set f: Frame | f in fl && f !in frames)
  {
    var rest := set f: Frame | f in fl && f !in frames;
    forall f: Frame | f in frames ensures InRegistry(h', f) && Held(h', f) {
      var i :| 0 <= i < |frames| && frames[i] == f;
      assert h'(Shared(b, i)) == Some(f);
    }
    forall f: Frame | Held(h, f) ensures Held(h', f) { var s :| h(s) == Some(f); assert h'(s) == Some(f); }
    forall f: Frame | InRegistry(h, f)
      ensures InRegistry(h', f)
    {
      var c, i :| h(Shared(c, i)) == Some(f);
      assert h'(Shared(c, i)) == Some(f);
    }
    forall s, r | h'(s).Some? && h'(s) == h'(r) && s.Shared? && r.Shared? ensures s == r {
      assert s.buf != b ==> h(s) == h'(s);
      assert r.buf != b ==> h(r) == h'(r);
    }
  }

  /** Take a buffer that is mapped nowhere out of the registry. */
  lemma Unregister(ty: Types, h: Holding, h': Holding, fl: set<Frame>, b: BufId, frames: seq<Frame>)
    requires Owned(ty, h, fl)
    requires forall r: Slot :: r.Shared? && r.buf == b ==>
      h(r) == if r.index < |frames| then Some(frames[r.index]) else None
    requires forall r: Slot :: r.Data? && h(r).Some? ==> h(r).value !in frames
    requires forall r: Slot :: h'(r) == if r.Shared? && r.buf == b then None else h(r)
    ensures Owned(ty, h', fl + set f: Frame | f in frames)
    ensures forall f: Frame :: f in frames ==> !Held(h', f) && ty(f) == Some(SharedBuffer)
    ensures forall i, j :: 0 <= i < j < |frames| ==> frames[i] != frames[j]
  {
    forall i | 0 <= i < |frames| ensures ty(frames[i]) == Some(SharedBuffer) && !Held(h', frames[i]) {
      assert h(Shared(b, i)) == Some(frames[i]);
      assert TypeFits(Shared(b, i), ty(h(Shared(b, i)).value));
      forall r: Slot ensures h'(r) != Some(frames[i]) { assert r != Shared(b, i) ==> h'(r) == None || h'(r) == h(r); }
    }
    forall i, j | 0 <= i < j < |frames| ensures frames[i] != frames[j] {
      assert h(Shared(b, i)) == Some(frames[i]) && h(Shared(b, j)) == Some(frames[j]);
    }
    forall f: Frame | Held(h, f) && f !in frames ensures Held(h', f) {
      var s :| h(s) == Some(f);
      assert h'(s) == Some(f);
    }
    forall f: Frame | InRegistry(h, f) && f !in frames ensures InRegistry(h', f) {
      var c, i :| h(Shared(c, i)) == Some(f);
      assert h'(Shared(c, i)) == Some(f);
    }
  }
}
