/**
 What each client request does to the desktop a user sees: which windows there are, where they
 lie, what they hold and which of them is on top at a pixel, one request at a time and over
 whole batches.
 */
module Requests {
  import opened Wrappers
  import opened Rects
  import opened Framebuffer
  import opened ZOrder
  import opened Desk

  /** Every window but `id`. */
  ghost function Except(id: WindowId): Window -> bool {
    (w: Window) => w.id != id
  }

  /** Exactly the live windows can be found. */
  lemma FindIsLive(t: Table, id: WindowId)
    ensures Find(t, id).Some? <==> id in LiveIds(t)
    ensures Find(t, id).Some? ==> Find(t, id).value.id == id
  {
    hide SlotOf;
    var slot := SlotOf(t, id);
    if slot.Some? { assert t[slot.value].value.id in LiveIds(t); }
  }

  // --- Which window is on top ---

  lemma {:induction false} TopOfConcat(a: seq<WindowId>, b: seq<WindowId>, t: Table, x: int, y: int)
    requires TableOk(t)
    ensures var upper := Top(b, t, Everything, x, y);
      Top(a + b, t, Everything, x, y) == if upper.Some? then upper else Top(a, t, Everything, x, y)
  {
    hide Find, WindowOk;
    if b == [] {
      assert a + b == a;
    } else {
      var n := |b| - 1;
      assert (a + b)[..|a| + n] == a + b[..n];
      TopOfConcat(a, b[..n], t, x, y);
    }
  }

  /** Leaving a window out of the stack or out of the drawing is the same. */
  lemma {:induction false} TopOfOthers(z: seq<WindowId>, t: Table, id: WindowId, x: int, y: int)
    requires TableOk(t)
    ensures Top(Others(z, id), t, Everything, x, y) == Top(z, t, Except(id), x, y)
  {
    hide SlotOf, WindowOk;
    if z != [] {
      var n := |z| - 1;
      assert z == z[..n] + [z[n]];
      OthersOfConcat(z[..n], [z[n]], id);
      TopOfOthers(z[..n], t, id, x, y);
      var others := Others(z[..n], id);
      assert Others([z[n]], id) == if z[n] == id then [] else [z[n]];
      if z[n] == id {
        assert Others(z, id) == others;
      } else {
        assert Others(z, id) == others + [z[n]] && Others(z, id)[..|others|] == others;
      }
    }
  }

  /** A window that is not the topmost makes no difference to which one is. */
  lemma {:induction false} TopWithoutHidden(z: seq<WindowId>, t: Table, id: WindowId, x: int, y: int)
    requires TableOk(t)
    ensures var top := Top(z, t, Everything, x, y);
      top.None? || top.value.id != id ==> Top(z, t, Except(id), x, y) == top
  {
    hide SlotOf, WindowOk;
    if z != [] { TopWithoutHidden(z[..|z| - 1], t, id, x, y); }
  }

  /** Two tables that agree on every window but `id`, which the second lacks. */
  ghost predicate Lacks(t: Table, t': Table, id: WindowId) {
    Find(t', id).None? && forall other: WindowId :: other != id ==> Find(t', other) == Find(t, other)
  }

  lemma {:induction false} TopOfLacking(z: seq<WindowId>, t: Table, t': Table, id: WindowId, x: int, y: int)
    requires TableOk(t) && TableOk(t') && Lacks(t, t', id)
    ensures Top(z, t', Everything, x, y) == Top(z, t, Except(id), x, y)
  {
    hide SlotOf, WindowOk;
    if z != [] {
      TopOfLacking(z[..|z| - 1], t, t', id, x, y);
      FindIsLive(t, z[|z| - 1]);
    }
  }

  // --- One request ---

  /** Closing takes away exactly the named window: every other is found as before, in the order it was. */
  lemma ClosedWindow(d: Desk, id: WindowId)
    requires DeskOk(d)
    ensures var after := Step(d, CloseWindow(id));
      && LiveIds(after.windows) == LiveIds(d.windows) - {id}
      && Lacks(d.windows, after.windows, id)
      && (StackOk(d) ==> after.z == Others(d.z, id))
  {
    var slot := SlotOf(d.windows, id);
    hide SlotOf;
    if slot.Some? {
      LiveIdsAfterSet(d.windows, slot.value, None, d.nextId);
      var t' := d.windows[slot.value := None];
      FindIsLive(t', id);
      forall other: WindowId | other != id ensures Find(t', other) == Find(d.windows, other) {
        FindAfterClose(d.windows, slot.value, other);
      }
      RemoveIsOthers(d.z, id);
    } else {
      FindIsLive(d.windows, id);
      if StackOk(d) { OthersWithoutId(d.z, id); }
    }
  }

  lemma FindAfterClose(t: Table, slot: nat, other: WindowId)
    requires slot < |t| && t[slot].Some? && t[slot].value.id != other
    ensures Find(t[slot := None], other) == Find(t, other)
  {
    hide SlotOf;
    var t' := t[slot := None];
    var s, s' := SlotOf(t, other), SlotOf(t', other);
    if s.Some? { assert s.value != slot && t'[s.value] == t[s.value]; }
    if s'.Some? { assert s'.value != slot && t'[s'.value] == t[s'.value]; }
    assert s == s';
  }

  lemma RemoveIsOthers(z: seq<WindowId>, id: WindowId)
    ensures NoDup(z) ==> ZRemove(z, id) == Others(z, id)
  {
    if NoDup(z) {
      RemoveArranged(z, id);
      OthersWithoutId(ZRemove(z, id), id);
      OthersOfRemove(z, id);
    }
  }

  /** Where a closed window was, the topmost of the others appears. */
  lemma ClosedWindowUncovers(d: Desk, id: WindowId, x: int, y: int)
    requires DeskOk(d)
    ensures var after := Step(d, CloseWindow(id));
      && DeskOk(after)
      && Top(after.z, after.windows, Everything, x, y) == Top(d.z, d.windows, Except(id), x, y)
  {
    var after := Step(d, CloseWindow(id));
    StepKeepsDesk(d, CloseWindow(id));
    ClosedWindow(d, id);
    TopOfLacking(after.z, d.windows, after.windows, id, x, y);
    TopOfOthers(after.z, d.windows, id, x, y);
    TopOfOthers(d.z, d.windows, id, x, y);
    OthersOfRemove(d.z, id);
  }

  /** Two tables that agree on every window but `id`. */
  ghost predicate Elsewhere(t: Table, t': Table, id: WindowId) {
    forall other: WindowId :: other != id ==> Find(t', other) == Find(t, other)
  }

  /** Moving puts the window, otherwise as it was, where the request says, and touches no other. */
  lemma MovedWindow(d: Desk, id: WindowId, x: int, y: int)
    requires DeskOk(d)
    ensures var after := Step(d, MoveWindow(id, x, y));
      && Elsewhere(d.windows, after.windows, id) && LiveIds(after.windows) == LiveIds(d.windows)
      && after.z == d.z && after.nextId == d.nextId
      && match Find(d.windows, id)
         case None => Find(after.windows, id).None?
         case Some(w) => Find(after.windows, id) == Some(Window(id, x, y, w.width, w.height, w.pixels))
  {
    ReplaceKeepsLive(d, MoveWindow(id, x, y));
    var slot := SlotOf(d.windows, id);
    hide SlotOf;
    if slot.Some? {
      var w := d.windows[slot.value].value.(x := x, y := y);
      forall other ensures Find(d.windows[slot.value := Some(w)], other) ==
                           if other == id then Some(w) else Find(d.windows, other)
      {
        FindAfterReplace(d.windows, slot.value, w, other);
      }
    }
  }

  /** An update changes the stored pixels of its window and nothing else of it, and touches no other. */
  lemma UpdatedWindow(d: Desk, m: Message)
    requires DeskOk(d) && m.UpdateWindow?
    ensures var after := Step(d, m);
      && Elsewhere(d.windows, after.windows, m.id) && LiveIds(after.windows) == LiveIds(d.windows)
      && after.z == d.z && after.nextId == d.nextId
      && match Find(d.windows, m.id)
         case None => Find(after.windows, m.id).None?
         case Some(w) => Find(after.windows, m.id).Some? && Repainted(w, Find(after.windows, m.id).value, m.stores)
  {
    ReplaceKeepsLive(d, m);
    var slot := SlotOf(d.windows, m.id);
    hide SlotOf;
    if slot.Some? {
      var was := d.windows[slot.value].value;
      var w := was.(pixels := Stored(was.pixels, m.stores));
      forall other ensures Find(d.windows[slot.value := Some(w)], other) ==
                           if other == m.id then Some(w) else Find(d.windows, other)
      {
        FindAfterReplace(d.windows, slot.value, w, other);
      }
    }
  }

  /** The same window but for the stored pixels. */
  ghost predicate Repainted(was: Window, w: Window, stores: map<nat, Pixel>) {
    && w.id == was.id && w.x == was.x && w.y == was.y && w.width == was.width && w.height == was.height
    && |w.pixels| == |was.pixels|
    && forall i :: 0 <= i < |was.pixels| ==> w.pixels[i] == if i in stores then stores[i] else was.pixels[i]
  }

  /** Where a stacked window lies some window is the topmost. */
  lemma StackedIsTopOrHidden(z: seq<WindowId>, t: Table, id: WindowId, x: int, y: int)
    requires TableOk(t) && id in z
    ensures var w := Find(t, id); w.Some? && Covers(w.value, x, y) ==> Top(z, t, Everything, x, y).Some?
  {
    hide Find, Top;
    var k :| 0 <= k < |z| && z[k] == id;
    TopIsTopmost(z, t, Everything, x, y);
    assert Find(t, id).Some? && Covers(Find(t, id).value, x, y) ==> Visible(t, z[k], Everything, x, y);
  }

  /** A raised window is the topmost wherever it lies; elsewhere the topmost is as before. */
  lemma RaisedWindow(d: Desk, id: WindowId, x: int, y: int)
    requires DeskOk(d) && StackOk(d) && id in LiveIds(d.windows)
    ensures Step(d, RaiseWindow(id)).windows == d.windows && Find(d.windows, id).Some?
    ensures var after, w := Step(d, RaiseWindow(id)), Find(d.windows, id).value;
      Top(after.z, d.windows, Everything, x, y) ==
        if Covers(w, x, y) then Some(w) else Top(d.z, d.windows, Everything, x, y)
  {
    FindIsLive(d.windows, id);
    RestackArranges(d.z, LiveIds(d.windows), id);
    TopRaised(d.z, d.windows, id, x, y);
    hide Top, Find, UniqueIds, WindowOk, NoDup;
  }

  lemma TopRaised(z: seq<WindowId>, t: Table, id: WindowId, x: int, y: int)
    requires TableOk(t) && Find(t, id).Some?
    ensures var w := Find(t, id).value;
      Top(Others(z, id) + [id], t, Everything, x, y) ==
        if Covers(w, x, y) then Some(w) else Top(z, t, Everything, x, y)
  {
    TopOfOne(t, id, x, y);
    hide Top, Find, WindowOk, Others;
    TopOfConcat(Others(z, id), [id], t, x, y);
    TopOfOthers(z, t, id, x, y);
    TopIsLive(z, t, x, y);
    TopWithoutHidden(z, t, id, x, y);
  }

  lemma TopOfOne(t: Table, id: WindowId, x: int, y: int)
    requires TableOk(t)
    ensures var w := Find(t, id);
      Top([id], t, Everything, x, y) == if w.Some? && Covers(w.value, x, y) then w else None
  {
  }

  /** A lowered window is the topmost only where no other lies; where it was not, nothing changes. */
  lemma LoweredWindow(d: Desk, id: WindowId, x: int, y: int)
    requires DeskOk(d) && StackOk(d) && id in LiveIds(d.windows)
    ensures Step(d, LowerWindow(id)).windows == d.windows && Find(d.windows, id).Some?
    ensures var w, top := Find(d.windows, id).value, Top(Step(d, LowerWindow(id)).z, d.windows, Everything, x, y);
      var was, rest := Top(d.z, d.windows, Everything, x, y), Top(d.z, d.windows, Except(id), x, y);
      && top == (if rest.Some? then rest else if Covers(w, x, y) then Some(w) else None)
      && (was != Some(w) ==> top == was)
  {
    FindIsLive(d.windows, id);
    RestackArranges(d.z, LiveIds(d.windows), id);
    TopOfOne(d.windows, id, x, y);
    hide Top, Find, UniqueIds, WindowOk, NoDup;
    StackedIsTopOrHidden(d.z, d.windows, id, x, y);
    TopOfConcat([id], Others(d.z, id), d.windows, x, y);
    TopOfOthers(d.z, d.windows, id, x, y);
    TopIsLive(d.z, d.windows, x, y);
    TopWithoutHidden(d.z, d.windows, id, x, y);
  }

  /** A request for a window is granted exactly if its sides are from 1 to 4096, fewer than MAX_WINDOWS
      windows are open and the kernel has a buffer for it; a missing buffer still uses up the id. */
  lemma CreationIsGranted(d: Desk, m: Message)
    requires DeskOk(d) && m.CreateWindow?
    ensures d.nextId in LiveIds(Step(d, m).windows) <==>
      && 1 <= m.width <= 4096 && 1 <= m.height <= 4096
      && |LiveIds(d.windows)| < MAX_WINDOWS && m.bufferAvailable
    ensures Step(d, m).nextId == d.nextId +
      if 1 <= m.width <= 4096 && 1 <= m.height <= 4096 && |LiveIds(d.windows)| < MAX_WINDOWS then 1 else 0
  {
    LiveIdsBound(d.windows);
    if FreeSlot(d.windows).None? { FullTable(d.windows, d.nextId); }
    assert d.nextId !in LiveIds(d.windows);
    if Creates(d, m) {
      LiveIdsAfterSet(d.windows, FreeSlot(d.windows).value, Some(NewWindow(d.nextId, m)), d.nextId);
    }
  }

  lemma {:induction false} FullTable(t: Table, next: WindowId)
    requires UniqueIds(t, next) && forall k :: 0 <= k < |t| ==> t[k].Some?
    ensures |LiveIds(t)| == |t|
  {
    if t == [] {
      assert LiveIds(t) == {};
    } else {
      var n := |t| - 1;
      FullTable(t[..n], next);
      LiveIdsOfLast(t);
      var last := t[n].value.id;
      assert last !in LiveIds(t[..n]);
    }
  }

  /** A granted window has a new id and the place and size asked for, is blank and on top of everything;
      whether or not it is granted, every other window is found as before. */
  lemma CreatedWindow(d: Desk, m: Message, x: int, y: int)
    requires DeskOk(d) && StackOk(d) && m.CreateWindow?
    ensures DeskOk(Step(d, m)) && Elsewhere(d.windows, Step(d, m).windows, d.nextId)
    ensures var after, w := Step(d, m), Find(Step(d, m).windows, d.nextId);
      && (w.None? ==> after.windows == d.windows && after.z == d.z)
      && (w.Some? ==>
          && w.value.id == d.nextId < after.nextId
          && w.value.x == m.x && w.value.y == m.y && w.value.width == m.width && w.value.height == m.height
          && WindowOk(w.value) && (forall i :: 0 <= i < |w.value.pixels| ==> w.value.pixels[i] == 0)
          && Top(after.z, after.windows, Everything, x, y) ==
             if Covers(w.value, x, y) then w else Top(d.z, d.windows, Everything, x, y))
  {
    StepKeepsDesk(d, m);
    FindIsLive(d.windows, d.nextId);
    if Creates(d, m) {
      var slot, w := FreeSlot(d.windows).value, NewWindow(d.nextId, m);
      forall other ensures Find(d.windows[slot := Some(w)], other) ==
                           if other == d.nextId then Some(w) else Find(d.windows, other)
      {
        FindAfterInsert(d.windows, slot, w, other);
      }
      NewWindowIsStacked(d, m);
      TopAfterInsert(d, m, x, y);
    }
  }

  lemma FindAfterInsert(t: Table, slot: nat, w: Window, other: WindowId)
    requires slot < |t| && t[slot].None? && Find(t, w.id).None?
    ensures Find(t[slot := Some(w)], other) == if other == w.id then Some(w) else Find(t, other)
  {
    hide SlotOf;
    var t' := t[slot := Some(w)];
    var s, s' := SlotOf(t, other), SlotOf(t', other);
    if other == w.id {
      assert t'[slot] == Some(w);
      forall k | 0 <= k < |t| && k != slot && t'[k].Some? ensures t'[k].value.id != w.id { assert t'[k] == t[k]; }
      assert s' == Some(slot);
    } else {
      if s.Some? { assert s.value != slot && t'[s.value] == t[s.value]; }
      if s'.Some? { assert s'.value != slot && t'[s'.value] == t[s'.value]; }
      assert s == s';
    }
  }

  lemma TopAfterInsert(d: Desk, m: Message, x: int, y: int)
    requires DeskOk(d) && StackOk(d) && m.CreateWindow? && Creates(d, m)
    requires Elsewhere(d.windows, Step(d, m).windows, d.nextId) && TableOk(Step(d, m).windows)
    requires Find(Step(d, m).windows, d.nextId) == Some(NewWindow(d.nextId, m))
    ensures var after, w := Step(d, m), NewWindow(d.nextId, m);
      Top(after.z, after.windows, Everything, x, y) ==
        if Covers(w, x, y) then Some(w) else Top(d.z, d.windows, Everything, x, y)
  {
    NewWindowIsStacked(d, m);
    assert (d.z + [d.nextId])[..|d.z|] == d.z;
    TopAgrees(d.z, d.windows, Step(d, m).windows, d.nextId, x, y);
  }

  lemma {:induction false} TopAgrees(z: seq<WindowId>, t: Table, t': Table, id: WindowId, x: int, y: int)
    requires TableOk(t) && TableOk(t') && Elsewhere(t, t', id) && id !in z
    ensures Top(z, t', Everything, x, y) == Top(z, t, Everything, x, y)
  {
    hide Find, WindowOk;
    if z != [] { TopAgrees(z[..|z| - 1], t, t', id, x, y); }
  }

  // --- How much is repainted ---

  predicate Around(c: Rect, r: Option<Rect>) {
    r.Some? ==> Encloses(c, r.value)
  }

  /** The damage of `after` is the least rectangle around the damage of `before` and two boxes. */
  ghost predicate LeastDamage(before: Desk, after: Desk, a: Option<Rect>, b: Option<Rect>) {
    && after.fullRedraw == before.fullRedraw
    && (after.pending.None? <==> before.pending.None? && a.None? && b.None?)
    && forall c :: Around(c, after.pending) <==> Around(c, before.pending) && Around(c, a) && Around(c, b)
  }

  lemma AroundHull(c: Rect, a: Option<Rect>, b: Option<Rect>)
    ensures Around(c, HullOption(a, b)) <==> Around(c, a) && Around(c, b)
  {
    if a.Some? && b.Some? { HullIsLeast(a.value, b.value, c); }
  }

  /** Opening, closing and restacking redraw everything; moving a window marks just its old and its new box,
      updating one just its box, and neither marks anything off the screen. */
  lemma RequestMarks(d: Desk, m: Message)
    requires DeskOk(d)
    ensures m.RaiseWindow? || m.LowerWindow? ==> Step(d, m).fullRedraw
    ensures m.CreateWindow? && Step(d, m).windows != d.windows ==> Step(d, m).fullRedraw
    ensures m.CloseWindow? && m.id in LiveIds(d.windows) ==> Step(d, m).fullRedraw
    ensures m.MoveWindow? ==>
      match Find(d.windows, m.id)
      case None => LeastDamage(d, Step(d, m), None, None)
      case Some(w) => LeastDamage(d, Step(d, m), WindowRect(d, w.x, w.y, w), WindowRect(d, m.x, m.y, w))
    ensures m.UpdateWindow? ==>
      match Find(d.windows, m.id)
      case None => LeastDamage(d, Step(d, m), None, None)
      case Some(w) =>
        LeastDamage(d, Step(d, m), if RectangleFits(m, w) then WindowRect(d, w.x, w.y, w) else None, None)
  {
    if m.CloseWindow? {
      FindIsLive(d.windows, m.id);
    } else if m.MoveWindow? || m.UpdateWindow? {
      var w := Find(d.windows, m.id);
      if w.Some? {
        var box := WindowRect(d, w.value.x, w.value.y, w.value);
        var moved := if m.MoveWindow? then WindowRect(d, m.x, m.y, w.value) else None;
        forall c ensures Around(c, HullOption(d.pending, box)) <==> Around(c, d.pending) && Around(c, box)
          ensures Around(c, HullOption(d.pending, HullOption(box, moved))) <==>
                  Around(c, d.pending) && Around(c, box) && Around(c, moved)
        {
          AroundHull(c, d.pending, box);
          AroundHull(c, d.pending, HullOption(box, moved));
          AroundHull(c, box, moved);
        }
      }
    }
  }

  // --- Whole batches ---

  /** A window after one request, by that request alone. */
  ghost function Touched(w: Option<Window>, id: WindowId, m: Message): Option<Window> {
    if w.None? then None
    else
      match m
      case CloseWindow(named) => if named == id then None else w
      case MoveWindow(named, x, y) => if named == id then Some(w.value.(x := x, y := y)) else w
      case UpdateWindow(named, _, _, _, _, stores) =>
        if named == id then Some(w.value.(pixels := Stored(w.value.pixels, stores))) else w
      case _ => w
  }

  ghost function Fate(w: Option<Window>, id: WindowId, ms: seq<Message>): Option<Window> {
    if ms == [] then w else Touched(Fate(w, id, ms[..|ms| - 1]), id, ms[|ms| - 1])
  }

  /** Over any batch the place, size and contents of a window, and whether it is still open, depend only on
      the requests that name it, in the order they came. */
  lemma {:induction false} WindowHasItsFate(d: Desk, ms: seq<Message>, id: WindowId)
    requires DeskOk(d) && id < d.nextId
    ensures Find(Steps(d, ms).windows, id) == Fate(Find(d.windows, id), id, ms)
    ensures DeskOk(Steps(d, ms)) && d.nextId <= Steps(d, ms).nextId
  {
    if ms != [] {
      var n := |ms| - 1;
      WindowHasItsFate(d, ms[..n], id);
      StepKeepsDesk(Steps(d, ms[..n]), ms[n]);
      StepTouches(Steps(d, ms[..n]), ms[n], id);
    }
  }

  lemma StepTouches(d: Desk, m: Message, id: WindowId)
    requires DeskOk(d) && id < d.nextId
    ensures Find(Step(d, m).windows, id) == Touched(Find(d.windows, id), id, m)
    ensures d.nextId <= Step(d, m).nextId
  {
    hide Find, DeskOk;
    match m
    case CreateWindow(_, _, _, _, _) => CreateTouchesNone(d, m, id);
    case UpdateWindow(named, _, _, _, _, stores) =>
      UpdatedWindow(d, m);
      if named == id && Find(d.windows, id).Some? {
        var w := Find(d.windows, id).value;
        var w' := Find(Step(d, m).windows, id).value;
        assert w'.pixels == Stored(w.pixels, stores);
      }
    case CloseWindow(named) => ClosedWindow(d, named);
    case MoveWindow(named, x, y) => MovedWindow(d, named, x, y); FindIsLive(d.windows, id);
    case _ =>
  }

  lemma CreateTouchesNone(d: Desk, m: Message, id: WindowId)
    requires DeskOk(d) && m.CreateWindow? && id < d.nextId
    ensures Find(Step(d, m).windows, id) == Find(d.windows, id) && d.nextId <= Step(d, m).nextId
  {
    FindIsLive(d.windows, d.nextId);
    if Creates(d, m) {
      FindAfterInsert(d.windows, FreeSlot(d.windows).value, NewWindow(d.nextId, m), id);
    }
  }

  // --- The pointer ---

  /** `v` is as near to `wanted` as the interval from 0 to `size` allows. */
  ghost predicate Nearest(v: int, wanted: int, size: nat) {
    && 0 <= v < size
    && (wanted < 0 ==> v == 0) && (wanted >= size ==> v == size - 1)
    && (0 <= wanted < size ==> v == wanted)
  }

  /** The pointer goes where it is pushed, stopping at the edges of the screen, and moves nothing else. */
  lemma PointerMoves(d: Desk, dx: int, dy: int)
    requires DeskOk(d)
    ensures var after := MovePointer(d, dx, dy);
      && Nearest(after.cursorX, d.cursorX + dx, d.width) && Nearest(after.cursorY, d.cursorY + dy, d.height)
      && after.windows == d.windows && after.z == d.z && after.nextId == d.nextId
      && (after != d ==> LeastDamage(d, after, CursorRect(d), CursorRect(after)))
      && after.sceneUpdate == d.sceneUpdate
  {
    var after := MovePointer(d, dx, dy);
    forall c ensures Around(c, HullOption(d.pending, HullOption(CursorRect(d), CursorRect(after)))) <==>
                     Around(c, d.pending) && Around(c, CursorRect(d)) && Around(c, CursorRect(after))
    {
      AroundHull(c, d.pending, HullOption(CursorRect(d), CursorRect(after)));
      AroundHull(c, CursorRect(d), CursorRect(after));
    }
  }
}
