/**
 The typed physical-memory map and its frame allocator.  A frame is named by its number;
 frame f is the PAGE_SIZE bytes from Base(f) on.
 */
module PhysicalMemory {
  import opened Wrappers
  import opened IntervalMap

  const PAGE_SIZE: nat := 4096

  datatype KernelUse = PageTables | GlobalAllocatorHeap | Stack

  datatype MemoryType = Usable | UsedByLimine | UsedByKernel(use: KernelUse) | UsedByUserMode | SharedBuffer

  datatype FreeResult = Freed | FrameNotAllocated | WrongMemoryType(expected: MemoryType, found: MemoryType)

  type Frame = nat

  type TypeMap = IMap<MemoryType>

  type Byte = x: int | 0 <= x < 256

  function Zeros(n: nat): (r: seq<Byte>)
    ensures |r| == n
  {
    seq(n, _ => 0)
  }

  /** What one frame holds. */
  type FrameBytes = bytes: seq<Byte> | |bytes| == PAGE_SIZE witness Zeros(PAGE_SIZE)

  /** The bytes of every frame.  Page tables are kept apart from the bytes of data frames. */
  type Ram = Frame -> FrameBytes

  function Write(ram: Ram, f: Frame, content: FrameBytes): Ram {
    (g: Frame) => if g == f then content else ram(g)
  }

  function Base(f: Frame): nat { f * PAGE_SIZE }

  /** The number of pages that `size` bytes take up. */
  function PageCount(size: nat): (r: nat)
    ensures size <= r * PAGE_SIZE < size + PAGE_SIZE
  {
    (size + PAGE_SIZE - 1) / PAGE_SIZE
  }

  function NextMultiple(x: nat): (r: nat)
    ensures x <= r < x + PAGE_SIZE && r % PAGE_SIZE == 0
  {
    (x + PAGE_SIZE - 1) / PAGE_SIZE * PAGE_SIZE
  }

  predicate InFrame(f: Frame, x: int) {
    Base(f) <= x < Base(f) + PAGE_SIZE
  }

  /** The type all bytes of a frame share, if they share one. */
  ghost function FrameType(m: TypeMap, f: Frame): Option<MemoryType> {
    if forall x :: InFrame(f, x) ==> Get(m, x) == Get(m, Base(f)) then Get(m, Base(f)) else None
  }

  /** m' is m with frame f given type t, and not a byte else changed. */
  ghost predicate Retyped(m: TypeMap, m': TypeMap, f: Frame, t: MemoryType) {
    forall x: int :: Get(m', x) == if InFrame(f, x) then Some(t) else Get(m, x)
  }

  /** The allocator's test: the frame and the byte after it are usable. */
  ghost predicate Spacious(m: TypeMap, f: Frame) {
    forall x :: Base(f) <= x <= Base(f) + PAGE_SIZE ==> Get(m, x) == Some(Usable)
  }

  /** At most k frames pass the allocator's test. */
  ghost predicate Scarce(m: TypeMap, k: nat) {
    exists s: set<Frame> :: |s| <= k && Includes(m, s)
  }

  ghost predicate Includes(m: TypeMap, s: set<Frame>) {
    forall f: Frame :: Spacious(m, f) ==> f in s
  }

  /** No more than n further frames pass the test. */
  ghost predicate Eases(m: TypeMap, m': TypeMap, n: nat) {
    forall k: nat {:trigger Scarce(m, k)} :: Scarce(m, k) ==> Scarce(m', k + n)
  }

  lemma NoneIsScarce(m: TypeMap)
    requires forall f: Frame :: !Spacious(m, f)
    ensures Scarce(m, 0)
  {
    assert Includes(m, {});
  }

  /** Freeing a frame makes at most it and the frame before it pass. */
  lemma FreeingEases(m: TypeMap, m': TypeMap, f: Frame)
    requires Retyped(m, m', f, Usable)
    ensures Eases(m, m', 2)
  {
    forall k: nat | Scarce(m, k) ensures Scarce(m', k + 2) {
      var s: set<Frame> :| |s| <= k && Includes(m, s);
      var near: set<Frame> := {f, if f == 0 then 0 else f - 1};
      assert |s + near| <= k + 2;
      forall g: Frame | Spacious(m', g) ensures g in s + near {
        if g !in near { NearbyOnly(m, m', f, g); }
      }
      assert Includes(m', s + near);
    }
  }

  lemma NearbyOnly(m: TypeMap, m': TypeMap, f: Frame, g: Frame)
    requires Retyped(m, m', f, Usable) && Spacious(m', g) && g != f && g + 1 != f
    ensures Spacious(m, g)
  {
  }

  /** When no frame passes, freeing one leaves at most two that do. */
  lemma ScarceAfterFree(m: TypeMap, m': TypeMap, f: Frame)
    requires Scarce(m, 0) && Retyped(m, m', f, Usable)
    ensures Scarce(m', 2)
  {
    FreeingEases(m, m', f);
  }

  lemma EasesMore(m: TypeMap, m1: TypeMap, m2: TypeMap, a: nat, b: nat)
    requires Eases(m, m1, a) && Eases(m1, m2, b)
    ensures Eases(m, m2, a + b)
  {
  }

  lemma EasesNone(m: TypeMap)
    ensures Eases(m, m, 0)
  {
  }

  lemma EasesByTwo(m: TypeMap)
    ensures Eases(m, m, 2)
  {
  }

  lemma ScarceMore(m: TypeMap, k: nat, n: nat)
    requires Scarce(m, k) && k <= n
    ensures Scarce(m, n)
  {
  }

  /** Retyping a frame, seen frame by frame. */
  lemma RetypedFrames(m: TypeMap, m': TypeMap, f: Frame, t: MemoryType)
    requires Retyped(m, m', f, t)
    ensures forall g: Frame :: FrameType(m', g) == if g == f then Some(t) else FrameType(m, g)
  {
  }

  predicate HoldsFrame(e: Entry<MemoryType>, f: Frame) {
    e.lo <= Base(f) && Base(f) + PAGE_SIZE - 1 <= e.hi
  }

  /** An interval holds the whole frame exactly when the frame has one type. */
  lemma FrameInterval(m: TypeMap, f: Frame)
    requires Canonical(m)
    ensures forall i :: 0 <= i < |m| && HoldsFrame(m[i], f) ==> FrameType(m, f) == Some(m[i].val)
    ensures FrameType(m, f).Some? <==> exists i :: 0 <= i < |m| && HoldsFrame(m[i], f)
  {
    forall i | 0 <= i < |m| && HoldsFrame(m[i], f)
      ensures FrameType(m, f) == Some(m[i].val)
    {
      forall x | InFrame(f, x) ensures Get(m, x) == Some(m[i].val) { GetIn(m, i, x); }
      assert InFrame(f, Base(f));
    }
    if FrameType(m, f).Some? {
      assert forall x :: Base(f) <= x <= Base(f) + PAGE_SIZE - 1 ==> InFrame(f, x);
      var i := RunInOneEntry(m, Base(f), Base(f) + PAGE_SIZE - 1);
    }
  }

  /** The first interval that is usable and passes the inclusive-end test holds the lowest spacious frame. */
  lemma SpaciousInterval(m: TypeMap, f: Frame) returns (i: nat)
    requires Canonical(m) && Spacious(m, f)
    ensures i < |m| && m[i].val == Usable && m[i].lo <= Base(f) && Base(f) + PAGE_SIZE <= m[i].hi
    ensures NextMultiple(m[i].lo) <= Base(f)
  {
    i := RunInOneEntry(m, Base(f), Base(f) + PAGE_SIZE);
  }

  /** `typeOf` is the same map seen frame by frame. */
  class PhysicalMemory {
    var types: TypeMap
    ghost var typeOf: Frame -> Option<MemoryType>

    ghost predicate Valid()
      reads this
    {
      Canonical(types) && forall f: Frame {:trigger FrameType(types, f)} :: typeOf(f) == FrameType(types, f)
    }

    constructor (types: TypeMap)
      requires Canonical(types)
      ensures Valid() && this.types == types
    {
      this.types := types;
      this.typeOf := (f: Frame) => FrameType(types, f);
    }

    /** Retype the lowest frame that passes the allocator's test; fail only if no frame does. */
    method AllocateFrame(t: MemoryType) returns (r: Option<Frame>)
      requires Valid()
      modifies this
      ensures Valid()
      ensures r.None? ==> unchanged(this) && forall f: Frame :: !Spacious(types, f)
      ensures r.Some? ==> Spacious(old(types), r.value) && forall f: Frame :: f < r.value ==> !Spacious(old(types), f)
      ensures r.Some? ==> Retyped(old(types), types, r.value, t)
      ensures r.Some? ==> old(typeOf)(r.value) == Some(Usable) && SetType(old(typeOf), typeOf, r.value, t)
    {
      var k := 0;
      while k < |types|
        invariant k <= |types|
        invariant forall i :: 0 <= i < k ==>
          !(types[i].val == Usable && NextMultiple(types[i].lo) + PAGE_SIZE <= types[i].hi)
      {
        if types[k].val == Usable {
          var alignedStart := NextMultiple(types[k].lo);
          var requiredEnd := alignedStart + PAGE_SIZE;
          if requiredEnd <= types[k].hi {
            var f := alignedStart / PAGE_SIZE;
            FirstFit(types, k, f);
            SpaciousIsUsable(types, f);
            Assign(f, t);
            return Some(f);
          }
        }
        k := k + 1;
      }
      forall f: Frame ensures !Spacious(types, f) {
        if Spacious(types, f) { var i := SpaciousInterval(types, f); }
      }
      r := None;
    }

    /** Cut a frame out of the map and insert it again with its new type. */
    method Assign(f: Frame, t: MemoryType)
      requires Valid()
      modifies this
      ensures Valid() && Retyped(old(types), types, f, t) && SetType(old(typeOf), typeOf, f, t)
    {
      var start := f * PAGE_SIZE;
      AssignRefines(types, start, start + PAGE_SIZE - 1, t);
      ghost var before := types;
      types := Cut(types, start, start + PAGE_SIZE - 1);
      types := Insert(types, start, start + PAGE_SIZE - 1, t).value;
      RetypedFrames(before, types, f, t);
      ghost var now := types;
      typeOf := (g: Frame) => FrameType(now, g);
    }

    /** Take the bytes a..=b out of the map. */
    method CutRange(a: nat, b: nat)
      requires Valid() && a <= b
      modifies this
      ensures Valid() && forall x: int :: Get(types, x) == if a <= x <= b then None else Get(old(types), x)
    {
      CutRefines(types, a, b);
      types := Cut(types, a, b);
      ghost var now := types;
      typeOf := (g: Frame) => FrameType(now, g);
    }

    /** Give type t to the bytes a..=b, which are not in the map. */
    method InsertRange(a: nat, b: nat, t: MemoryType)
      requires Valid() && a <= b && Vacant(types, a, b)
      modifies this
      ensures Valid() && forall x: int :: Get(types, x) == if a <= x <= b then Some(t) else Get(old(types), x)
    {
      InsertRefines(types, a, b, t);
      types := Insert(types, a, b, t).value;
      ghost var now := types;
      typeOf := (g: Frame) => FrameType(now, g);
    }

    /** Make a frame usable again if it has the expected type; report why not otherwise. */
    method FreeFrame(f: Frame, expected: MemoryType) returns (r: FreeResult)
      requires Valid()
      modifies this
      ensures Valid()
      ensures r == match old(typeOf)(f)
                   case None => FrameNotAllocated
                   case Some(found) => if found == expected then Freed else WrongMemoryType(expected, found)
      ensures r == Freed ==> Retyped(old(types), types, f, Usable) && SetType(old(typeOf), typeOf, f, Usable)
      ensures r != Freed ==> unchanged(this)
    {
      FrameInterval(types, f);
      assert typeOf(f) == FrameType(types, f);
      var k := 0;
      while k < |types| && !HoldsFrame(types[k], f)
        invariant k <= |types|
        invariant forall i :: 0 <= i < k ==> !HoldsFrame(types[i], f)
      {
        k := k + 1;
      }
      if k == |types| { return FrameNotAllocated; }
      var found := types[k].val;
      if found != expected { return WrongMemoryType(expected, found); }
      Assign(f, Usable);
      r := Freed;
    }
  }

  /** ty' is ty with frame f given type t. */
  ghost predicate SetType(ty: Frame -> Option<MemoryType>, ty': Frame -> Option<MemoryType>, f: Frame, t: MemoryType) {
    forall g: Frame {:trigger ty'(g)} :: ty'(g) == if g == f then Some(t) else ty(g)
  }

  lemma SpaciousIsUsable(m: TypeMap, f: Frame)
    requires Spacious(m, f)
    ensures FrameType(m, f) == Some(Usable)
  {
  }

  lemma FirstFit(m: TypeMap, k: nat, f: Frame)
    requires Canonical(m) && k < |m| && m[k].val == Usable
    requires Base(f) == NextMultiple(m[k].lo) && Base(f) + PAGE_SIZE <= m[k].hi
    requires forall i :: 0 <= i < k ==> !(m[i].val == Usable && NextMultiple(m[i].lo) + PAGE_SIZE <= m[i].hi)
    ensures Spacious(m, f) && forall g: Frame :: g < f ==> !Spacious(m, g)
  {
    forall x | Base(f) <= x <= Base(f) + PAGE_SIZE ensures Get(m, x) == Some(Usable) { GetIn(m, k, x); }
    forall g: Frame | g < f ensures !Spacious(m, g) {
      if Spacious(m, g) {
        var i := SpaciousInterval(m, g);
      }
    }
  }

  /** Allocating a frame and freeing it again restores the map exactly, interval for interval. */
  lemma AllocateThenFree(m: TypeMap, m1: TypeMap, m2: TypeMap, f: Frame, t: MemoryType)
    requires Canonical(m) && Canonical(m2) && Spacious(m, f)
    requires Retyped(m, m1, f, t) && Retyped(m1, m2, f, Usable)
    ensures FrameType(m1, f) == Some(t) && m2 == m
  {
    RetypedFrames(m, m1, f, t);
    forall x: int ensures Get(m2, x) == Get(m, x) {}
    CanonicalIsUnique(m2, m);
  }

  /** A frame is wholly usable and so is the byte after it. */
  ghost predicate Reachable(m: TypeMap, f: Frame) {
    FrameType(m, f) == Some(Usable) && Get(m, Base(f) + PAGE_SIZE) == Some(Usable)
  }

  lemma ReachableIsSpacious(m: TypeMap, f: Frame)
    ensures Reachable(m, f) <==> Spacious(m, f)
  {
    assert forall x :: Base(f) <= x < Base(f) + PAGE_SIZE <==> InFrame(f, x);
    if Spacious(m, f) { SpaciousIsUsable(m, f); }
  }

  /** What a run of allocations has left: the frames handed out have type t, lowest frames first. */
  ghost predicate Drained(was: TypeMap, now: TypeMap, got: set<Frame>, next: Frame, t: MemoryType) {
    && (forall x: int :: Get(now, x) == if Taken(got, x) then Some(t) else Get(was, x))
    && (forall f: Frame :: f in got <==> f < next && Spacious(was, f))
  }

  predicate Taken(got: set<Frame>, x: int) {
    x >= 0 && x / PAGE_SIZE in got
  }

  lemma FrameOfByte(f: Frame, x: int)
    requires Base(f) <= x <= Base(f) + PAGE_SIZE
    ensures x / PAGE_SIZE == if x < Base(f) + PAGE_SIZE then f else f + 1
  {
  }

  /** From the first frame not yet considered on, the test is as it was at the start. */
  lemma StillSpacious(was: TypeMap, now: TypeMap, got: set<Frame>, next: Frame, t: MemoryType, f: Frame)
    requires Drained(was, now, got, next, t) && t != Usable
    ensures Spacious(now, f) <==> next <= f && Spacious(was, f)
  {
    if Spacious(now, f) {
      NowSpacious(was, now, got, next, t, f);
    } else if next <= f && Spacious(was, f) {
      hide Taken;
      forall x | Base(f) <= x <= Base(f) + PAGE_SIZE ensures Get(now, x) == Some(Usable) { NotTaken(got, next, f, x); }
    }
  }

  lemma NotTaken(got: set<Frame>, next: Frame, f: Frame, x: int)
    requires (forall g :: g in got ==> g < next) && next <= f && Base(f) <= x <= Base(f) + PAGE_SIZE
    ensures !Taken(got, x)
  {
    FrameOfByte(f, x);
  }

  lemma NowSpacious(was: TypeMap, now: TypeMap, got: set<Frame>, next: Frame, t: MemoryType, f: Frame)
    requires Drained(was, now, got, next, t) && t != Usable && Spacious(now, f)
    ensures next <= f && Spacious(was, f)
  {
    hide Taken;
    forall x | Base(f) <= x <= Base(f) + PAGE_SIZE
      ensures Get(was, x) == Some(Usable)
    {
      assert Get(now, x) == Some(Usable);
    }
    if f in got { TakenFrame(got, f); }
  }

  lemma TakenFrame(got: set<Frame>, f: Frame)
    requires f in got
    ensures Taken(got, Base(f))
  {
    FrameOfByte(f, Base(f));
  }

  lemma NothingDrained(was: TypeMap, t: MemoryType)
    ensures Drained(was, was, {}, 0, t)
  {
  }

  lemma OneMoreDrained(was: TypeMap, now: TypeMap, now': TypeMap, got: set<Frame>, next: Frame, t: MemoryType, f: Frame)
    requires Drained(was, now, got, next, t) && t != Usable && Retyped(now, now', f, t)
    requires Spacious(now, f) && forall g: Frame :: g < f ==> !Spacious(now, g)
    ensures next <= f && Drained(was, now', got + {f}, f + 1, t)
  {
    StillSpacious(was, now, got, next, t, f);
    hide Spacious;
    forall g: Frame
      ensures g in got + {f} <==> g < f + 1 && Spacious(was, g)
    {
      StillSpacious(was, now, got, next, t, g);
    }
    forall x: int ensures Taken(got + {f}, x) <==> Taken(got, x) || InFrame(f, x) { TakenMore(got, f, x); }
    hide Taken, InFrame;
  }

  lemma TakenMore(got: set<Frame>, f: Frame, x: int)
    ensures Taken(got + {f}, x) <==> Taken(got, x) || InFrame(f, x)
  {
  }

  /** Frames beyond the last interval never pass the test. */
  lemma SpaciousIsBounded(m: TypeMap, f: Frame)
    requires Canonical(m) && Spacious(m, f)
    ensures m != [] && f <= m[|m| - 1].hi
  {
    var i := SpaciousInterval(m, f);
    if i < |m| - 1 { assert m[i].hi < m[|m| - 1].lo <= m[|m| - 1].hi; }
  }

  /** Asking for frames until there is none: a frame is ever handed out exactly if it is wholly usable
      and the byte after it is usable too, so a usable run that ends with a frame never gives that one up. */
  method Drain(phys: PhysicalMemory, t: MemoryType) returns (got: set<Frame>)
    requires phys.Valid() && t != Usable
    modifies phys
    ensures phys.Valid() && forall f: Frame :: f in got <==> Reachable(old(phys.types), f)
  {
    hide Spacious, Reachable;
    ghost var was := phys.types;
    NothingDrained(was, t);
    ghost var next: nat, bound := 0, if was == [] then 0 else was[|was| - 1].hi + 1;
    got := {};
    var f := Some(0);
    while f.Some?
      invariant phys.Valid() && Drained(was, phys.types, got, next, t) && next <= bound
      invariant f.None? ==> forall g: Frame :: !Spacious(phys.types, g)
      decreases if f.Some? then 1 + bound - next else 0
    {
      ghost var now := phys.types;
      f := phys.AllocateFrame(t);
      if f.Some? {
        OneMoreDrained(was, now, phys.types, got, next, t, f.value);
        SpaciousIsBounded(was, f.value);
        got := got + {f.value};
        next := f.value + 1;
      }
    }
    forall g: Frame ensures g in got <==> Reachable(was, g) {
      StillSpacious(was, phys.types, got, next, t, g);
      ReachableIsSpacious(was, g);
    }
  }

  lemma LoneFrameIsUnreachable()
    ensures var m := [Entry(0, PAGE_SIZE - 1, Usable)];
      Canonical(m) && FrameType(m, 0) == Some(Usable) && forall f: Frame :: !Spacious(m, f)
  {
    var m := [Entry(0, PAGE_SIZE - 1, Usable)];
    FrameInterval(m, 0);
    assert FrameType(m, 0) == Some(m[0].val);
    forall f: Frame ensures !Spacious(m, f) {
      if Spacious(m, f) { var i := SpaciousInterval(m, f); }
    }
  }
}
