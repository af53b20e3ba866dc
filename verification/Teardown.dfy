/**
 Freeing a dead task's address space: a walk of the four-level page tables from the root.  Every
 private frame the walk reaches becomes usable, shared frames and everything else keep their type,
 and on well-formed tables the walk reaches exactly the frames the task holds.
 */
module Teardown {
  import opened Wrappers
  import opened PhysicalMemory
  import opened Ownership
  import opened PageTables

  /** Exactly the private frames of the set became usable. */
  ghost predicate FreedSet(ty: Types, ty': Types, frames: set<Frame>) {
    forall g: Frame {:trigger ty'(g)} :: ty'(g) == if g in frames && ty(g) == Some(UsedByUserMode) then Some(Usable)
                                                   else ty(g)
  }

  ghost function LeafFrames(s: Space, lo: nat, hi: nat): set<Frame> {
    set p: nat | p in s.pages && lo <= p < hi :: s.pages[p]
  }

  ghost function TableFrames(s: Space, level: nat, lo: nat, hi: nat): set<Frame> {
    set id: TableId | id in s.tables && id.level == level && lo <= id.index < hi :: s.tables[id]
  }

  /** The frames at or below the tables lo..hi of a level; level 0 stands for the mapped pages. */
  ghost function Under(s: Space, level: nat, lo: nat, hi: nat): set<Frame> {
    if level == 0 then LeafFrames(s, lo, hi)
    else Under(s, level - 1, 512 * lo, 512 * hi) + TableFrames(s, level, lo, hi)
  }

  predicate Present(s: Space, level: nat, index: nat) {
    if level == 0 then index in s.pages else TableId(level, index) in s.tables
  }

  lemma {:induction false} UnderSplit(s: Space, level: nat, lo: nat, mid: nat, hi: nat)
    requires lo <= mid <= hi
    ensures Under(s, level, lo, mid) + Under(s, level, mid, hi) == Under(s, level, lo, hi)
  {
    if level > 0 {
      UnderSplit(s, level - 1, 512 * lo, 512 * mid, 512 * hi);
      assert TableFrames(s, level, lo, mid) + TableFrames(s, level, mid, hi) == TableFrames(s, level, lo, hi);
    } else {
      assert LeafFrames(s, lo, mid) + LeafFrames(s, mid, hi) == LeafFrames(s, lo, hi);
    }
  }

  /** A present entry has its parent present. */
  lemma ParentPresent(s: Space, level: nat, index: nat)
    requires PagesOk(s) && level < 3 && Present(s, level, index)
    ensures Present(s, level + 1, index / 512)
  {
  }

  /** Whatever lies at or below a range of entries lies below one that is present. */
  lemma {:induction false} SomePresent(s: Space, level: nat, lo: nat, hi: nat) returns (c: nat)
    requires PagesOk(s) && level <= 3 && Under(s, level, lo, hi) != {}
    ensures lo <= c < hi && Present(s, level, c)
  {
    if level == 0 {
      var g :| g in LeafFrames(s, lo, hi);
      c :| c in s.pages && lo <= c < hi && s.pages[c] == g;
    } else if Under(s, level - 1, 512 * lo, 512 * hi) != {} {
      var d := SomePresent(s, level - 1, 512 * lo, 512 * hi);
      ParentPresent(s, level - 1, d);
      c := d / 512;
    } else {
      var g :| g in TableFrames(s, level, lo, hi);
      var id :| id in s.tables && id.level == level && lo <= id.index < hi && s.tables[id] == g;
      c := id.index;
    }
  }

  lemma NothingUnder(s: Space, level: nat, index: nat)
    requires PagesOk(s) && level <= 3 && !Present(s, level, index)
    ensures Under(s, level, index, index + 1) == {}
  {
    if Under(s, level, index, index + 1) != {} {
      var c := SomePresent(s, level, index, index + 1);
    }
  }

  lemma FreedMore(ty: Types, ty1: Types, ty2: Types, a: set<Frame>, b: set<Frame>)
    requires FreedSet(ty, ty1, a) && FreedSet(ty1, ty2, b)
    ensures FreedSet(ty, ty2, a + b)
  {
  }

  /** Free a frame if it is private. */
  method FreePrivate(phys: PhysicalMemory, f: Frame)
    requires phys.Valid()
    modifies phys
    ensures phys.Valid() && FreedSet(old(phys.typeOf), phys.typeOf, {f})
  {
    var _ := phys.FreeFrame(f, UsedByUserMode);
  }

  /** One entry of a table of the level above: free what it leads to. */
  method FreeEntry(phys: PhysicalMemory, s: Space, level: nat, index: nat)
    requires phys.Valid() && PagesOk(s) && level <= 3
    modifies phys
    ensures phys.Valid() && FreedSet(old(phys.typeOf), phys.typeOf, Under(s, level, index, index + 1))
    decreases level, 1
  {
    if level == 0 {
      if index in s.pages {
        assert LeafFrames(s, index, index + 1) == {s.pages[index]};
        FreePrivate(phys, s.pages[index]);
      } else {
        NothingUnder(s, 0, index);
      }
    } else if TableId(level, index) in s.tables {
      FreeTable(phys, s, level, index);
    } else {
      NothingUnder(s, level, index);
    }
  }

  /** A table: its 512 entries, then its own frame. */
  method FreeTable(phys: PhysicalMemory, s: Space, level: nat, index: nat)
    requires phys.Valid() && PagesOk(s) && 1 <= level <= 3 && TableId(level, index) in s.tables
    modifies phys
    ensures phys.Valid() && FreedSet(old(phys.typeOf), phys.typeOf, Under(s, level, index, index + 1))
    decreases level, 0
  {
    hide PagesOk, FreedSet, Under;
    var lo := 512 * index;
    FreedNothing(phys.typeOf, s, level - 1, lo);
    for e := 0 to 512
      invariant phys.Valid() && FreedSet(old(phys.typeOf), phys.typeOf, Under(s, level - 1, lo, lo + e))
    {
      ghost var ty := phys.typeOf;
      FreeEntry(phys, s, level - 1, lo + e);
      FreedMore(old(phys.typeOf), ty, phys.typeOf, Under(s, level - 1, lo, lo + e),
                Under(s, level - 1, lo + e, lo + e + 1));
      UnderSplit(s, level - 1, lo, lo + e, lo + e + 1);
    }
    ghost var ty := phys.typeOf;
    FreePrivate(phys, s.tables[TableId(level, index)]);
    FreedMore(old(phys.typeOf), ty, phys.typeOf, Under(s, level - 1, lo, lo + 512), {s.tables[TableId(level, index)]});
    UnderTable(s, level, index);
  }

  lemma FreedNothing(ty: Types, s: Space, level: nat, at: nat)
    ensures FreedSet(ty, ty, Under(s, level, at, at))
  {
  }

  lemma UnderTable(s: Space, level: nat, index: nat)
    requires 1 <= level && TableId(level, index) in s.tables
    ensures Under(s, level, index, index + 1) ==
      Under(s, level - 1, 512 * index, 512 * index + 512) + {s.tables[TableId(level, index)]}
  {
    hide LeafFrames, TableFrames;
    OneTable(s, level, index);
    var below := Under(s, level - 1, 512 * index, 512 * index + 512);
    assert Under(s, level, index, index + 1) == below + TableFrames(s, level, index, index + 1);
  }

  lemma OneTable(s: Space, level: nat, index: nat)
    requires TableId(level, index) in s.tables
    ensures TableFrames(s, level, index, index + 1) == {s.tables[TableId(level, index)]}
  {
  }

  /** Every frame the task holds. */
  ghost function TaskFrames(s: Space): set<Frame> {
    (set p | p in s.pages :: s.pages[p]) + (set id | id in s.tables :: s.tables[id]) + {s.l4}
  }

  lemma {:induction false} UnderInTask(s: Space, level: nat, lo: nat, hi: nat)
    ensures Under(s, level, lo, hi) <= TaskFrames(s)
  {
    if level > 0 { UnderInTask(s, level - 1, 512 * lo, 512 * hi); }
  }

  lemma UnderGrows(s: Space, level: nat, lo: nat, hi: nat)
    ensures Under(s, level, 512 * lo, 512 * hi) <= Under(s, level + 1, lo, hi)
  {
  }

  /** The user half of the root covers every frame of well-formed tables. */
  lemma RootCoversAll(s: Space)
    requires PagesOk(s)
    ensures Under(s, 3, 0, 256) + {s.l4} == TaskFrames(s)
  {
    UnderInTask(s, 3, 0, 256);
    UnderGrows(s, 0, 0, 67108864);
    UnderGrows(s, 1, 0, 131072);
    UnderGrows(s, 2, 0, 256);
    forall p | p in s.pages ensures s.pages[p] in Under(s, 0, 0, USER_PAGES) { }
    forall id | id in s.tables ensures s.tables[id] in Under(s, 3, 0, 256) { TableInRoot(s, id); }
  }

  lemma TableInRoot(s: Space, id: TableId)
    requires PagesOk(s) && id in s.tables
    ensures s.tables[id] in Under(s, 3, 0, 256)
  {
    assert Hangs(s.tables, id);
    UnderGrows(s, 1, 0, 131072);
    UnderGrows(s, 2, 0, 256);
    if id.level == 1 { assert s.tables[id] in TableFrames(s, 1, 0, 67108864); }
    else if id.level == 2 { assert s.tables[id] in TableFrames(s, 2, 0, 131072); }
    else { assert s.tables[id] in TableFrames(s, 3, 0, 256); }
  }

  /** Free a task's whole address space. */
  method FreeUserAddressSpace(phys: PhysicalMemory, s: Space)
    requires phys.Valid() && PagesOk(s)
    modifies phys
    ensures phys.Valid() && FreedSet(old(phys.typeOf), phys.typeOf, TaskFrames(s))
  {
    hide PagesOk, FreedSet, Under, TaskFrames;
    FreedNothing(phys.typeOf, s, 3, 0);
    for i := 0 to 256
      invariant phys.Valid() && FreedSet(old(phys.typeOf), phys.typeOf, Under(s, 3, 0, i))
    {
      ghost var ty := phys.typeOf;
      FreeEntry(phys, s, 3, i);
      FreedMore(old(phys.typeOf), ty, phys.typeOf, Under(s, 3, 0, i), Under(s, 3, i, i + 1));
      UnderSplit(s, 3, 0, i, i + 1);
    }
    ghost var ty := phys.typeOf;
    FreePrivate(phys, s.l4);
    FreedMore(old(phys.typeOf), ty, phys.typeOf, Under(s, 3, 0, 256), {s.l4});
    RootCoversAll(s);
  }
}
