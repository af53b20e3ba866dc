/**
 The compositor's window table, stacking order and pending damage as values, and what
 one client request or one pointer movement does to them.  `Ideal` is the meaning the
 pixel buffers are caches of: the topmost window at a pixel, else the background.
 */
module Desk {
  import opened Wrappers
  import opened Rects
  import opened Framebuffer
  import opened Display
  import opened ZOrder

  datatype Window = Window(id: WindowId, x: int, y: int, width: nat, height: nat, pixels: seq<Pixel>)

  type Table = seq<Option<Window>>

  datatype Desk = Desk(
    width: nat, height: nat, background: seq<Pixel>, sprite: Sprite,
    windows: Table, nextId: WindowId, z: seq<WindowId>,
    cursorX: int, cursorY: int,
    pending: Option<Rect>, sceneUpdate: bool, fullRedraw: bool)

  /** Decoded client requests.  Whether a window buffer can be had is the kernel's answer; an update
      carries the pixels the client stored in the shared buffer before sending it.  The compositor reads
      that buffer whenever it draws, so the stores count whether or not the request is honoured. */
  datatype Message =
    | CreateWindow(width: nat, height: nat, x: int, y: int, bufferAvailable: bool)
    | UpdateWindow(id: WindowId, dirtyX: nat, dirtyY: nat, dirtyW: nat, dirtyH: nat, stores: map<nat, Pixel>)
    | CloseWindow(id: WindowId)
    | MoveWindow(id: WindowId, x: int, y: int)
    | RaiseWindow(id: WindowId)
    | LowerWindow(id: WindowId)
    | Malformed

  // --- The window table ---

  /** The first slot holding window `id`. */
  function SlotOf(t: Table, id: WindowId): (r: Option<nat>)
    ensures r.Some? ==> r.value < |t| && t[r.value].Some? && t[r.value].value.id == id
    ensures r.Some? ==> forall k :: 0 <= k < r.value && t[k].Some? ==> t[k].value.id != id
    ensures r.None? ==> forall k :: 0 <= k < |t| && t[k].Some? ==> t[k].value.id != id
  {
    if t == [] then None
    else
      var n := |t| - 1;
      var r := SlotOf(t[..n], id);
      if r.Some? then r
      else if t[n].Some? && t[n].value.id == id then Some(n) else None
  }

  function Find(t: Table, id: WindowId): Option<Window> {
    var slot := SlotOf(t, id);
    if slot.Some? then t[slot.value] else None
  }

  /** The first empty slot. */
  function FreeSlot(t: Table): (r: Option<nat>)
    ensures r.Some? ==> r.value < |t| && t[r.value].None? && forall k :: 0 <= k < r.value ==> t[k].Some?
    ensures r.None? ==> forall k :: 0 <= k < |t| ==> t[k].Some?
  {
    if t == [] then None
    else
      var n := |t| - 1;
      var r := FreeSlot(t[..n]);
      if r.Some? then r else if t[n].None? then Some(n) else None
  }

  ghost function LiveIds(t: Table): set<WindowId> {
    set k | 0 <= k < |t| && t[k].Some? :: t[k].value.id
  }

  // --- The meaning of a desk ---

  predicate Covers(w: Window, x: int, y: int) {
    w.x <= x < w.x + w.width && w.y <= y < w.y + w.height
  }

  ghost predicate WindowOk(w: Window) {
    Sized(w.pixels, w.width, w.height)
  }

  ghost predicate TableOk(t: Table) {
    forall k :: 0 <= k < |t| && t[k].Some? ==> WindowOk(t[k].value)
  }

  ghost function WindowPixel(w: Window, x: int, y: int): Pixel
    requires WindowOk(w) && Covers(w, x, y)
  {
    At(w.pixels, w.width, w.height, x - w.x, y - w.y)
  }

  /** The topmost window of the stack at a pixel, among those `shows` lets through. */
  ghost function Top(z: seq<WindowId>, t: Table, shows: Window -> bool, x: int, y: int): (r: Option<Window>)
    requires TableOk(t)
    ensures r.Some? ==> WindowOk(r.value) && Covers(r.value, x, y) && shows(r.value)
  {
    if z == [] then None
    else
      var w := Find(t, z[|z| - 1]);
      if w.Some? && shows(w.value) && Covers(w.value, x, y) then w
      else Top(z[..|z| - 1], t, shows, x, y)
  }

  ghost predicate Everything(w: Window) { true }

  ghost function Ideal(d: Desk, x: int, y: int): Pixel
    requires TableOk(d.windows) && Sized(d.background, d.width, d.height)
    requires 0 <= x < d.width && 0 <= y < d.height
  {
    var w := Top(d.z, d.windows, Everything, x, y);
    if w.Some? then WindowPixel(w.value, x, y) else At(d.background, d.width, d.height, x, y)
  }

  /** What the user should see: the cursor over the ideal scene. */
  ghost function Shown(d: Desk, x: int, y: int): Pixel
    requires DeskOk(d) && 0 <= x < d.width && 0 <= y < d.height
  {
    CursorOver(d.sprite, d.cursorX, d.cursorY, x, y, Ideal(d, x, y))
  }

  /** `Top` is the topmost: some entry of the stack names it and nothing above it shows here. */
  lemma {:induction false} TopIsTopmost(z: seq<WindowId>, t: Table, shows: Window -> bool, x: int, y: int)
    requires TableOk(t)
    ensures var r := Top(z, t, shows, x, y);
      r.Some? <==> exists k :: 0 <= k < |z| && Visible(t, z[k], shows, x, y)
    ensures var r := Top(z, t, shows, x, y);
      r.Some? ==> exists k :: 0 <= k < |z| && Find(t, z[k]) == r && IsTopmost(z, t, shows, k, x, y)
  {
    hide SlotOf, WindowOk;
    if z != [] {
      var n := |z| - 1;
      var below := z[..n];
      TopIsTopmost(below, t, shows, x, y);
      var top := Top(below, t, shows, x, y);
      if Visible(t, z[n], shows, x, y) {
        assert IsTopmost(z, t, shows, n, x, y);
      } else if k :| 0 <= k < n && Find(t, below[k]) == top && IsTopmost(below, t, shows, k, x, y) {
        assert below[k] == z[k];
        forall j | k < j < |z| ensures !Visible(t, z[j], shows, x, y) {
          if j < n { assert below[j] == z[j]; }
        }
        assert IsTopmost(z, t, shows, k, x, y);
      } else {
        forall j | 0 <= j < |z| ensures !Visible(t, z[j], shows, x, y) {
          if j < n { assert below[j] == z[j]; }
        }
      }
    }
  }

  ghost predicate IsTopmost(z: seq<WindowId>, t: Table, shows: Window -> bool, k: int, x: int, y: int)
    requires 0 <= k < |z|
  {
    Visible(t, z[k], shows, x, y) && forall j :: k < j < |z| ==> !Visible(t, z[j], shows, x, y)
  }

  predicate Visible(t: Table, id: WindowId, shows: Window -> bool, x: int, y: int) {
    var w := Find(t, id);
    w.Some? && shows(w.value) && Covers(w.value, x, y)
  }

  // --- Pending damage ---

  function ExpandPending(d: Desk, r: Option<Rect>): Desk {
    d.(pending := HullOption(d.pending, r))
  }

  function MarkDamage(d: Desk, r: Option<Rect>): Desk {
    if r.Some? then ExpandPending(d, r).(sceneUpdate := true) else d
  }

  function MarkFullRedraw(d: Desk): Desk {
    d.(fullRedraw := true, sceneUpdate := true, pending := None)
  }

  function WindowRect(d: Desk, x: int, y: int, w: Window): Option<Rect> {
    ScreenRect(d.width, d.height, x, y, w.width, w.height)
  }

  function CursorRect(d: Desk): Option<Rect> {
    ScreenRect(d.width, d.height, d.cursorX, d.cursorY, d.sprite.w, d.sprite.h)
  }

  // --- Requests ---

  function Stored(pixels: seq<Pixel>, stores: map<nat, Pixel>): (r: seq<Pixel>)
    ensures |r| == |pixels|
  {
    seq(|pixels|, i requires 0 <= i < |pixels| => if i in stores then stores[i] else pixels[i])
  }

  predicate BadDimensions(width: nat, height: nat) {
    width == 0 || height == 0 || width > 4096 || height > 4096
  }

  ghost function NewWindow(id: WindowId, m: Message): Window
    requires m.CreateWindow?
  {
    Window(id, m.x, m.y, m.width, m.height, seq(RowBase(m.width, m.height), _ => 0))
  }

  /** Does the request get a window? */
  predicate Creates(d: Desk, m: Message)
    requires m.CreateWindow?
  {
    !BadDimensions(m.width, m.height) && FreeSlot(d.windows).Some? && m.bufferAvailable
  }

  ghost function Create(d: Desk, m: Message): Desk
    requires m.CreateWindow?
  {
    var slot := FreeSlot(d.windows);
    if BadDimensions(m.width, m.height) || slot.None? then d
    else
      var numbered := d.(nextId := d.nextId + 1);
      if !Creates(d, m) then numbered
      else MarkFullRedraw(numbered.(windows := d.windows[slot.value := Some(NewWindow(d.nextId, m))],
                                    z := ZPush(d.z, d.nextId)))
  }

  predicate RectangleFits(m: Message, w: Window)
    requires m.UpdateWindow?
  {
    m.dirtyX + m.dirtyW <= w.width && m.dirtyY + m.dirtyH <= w.height
  }

  /** The pixels are in the buffer either way; only a rectangle inside the window becomes damage. */
  function Update(d: Desk, m: Message): Desk
    requires m.UpdateWindow?
  {
    var slot := SlotOf(d.windows, m.id);
    if slot.None? then d
    else
      var w := d.windows[slot.value].value;
      var stored := d.(windows := d.windows[slot.value := Some(w.(pixels := Stored(w.pixels, m.stores)))]);
      if RectangleFits(m, w) then MarkDamage(stored, WindowRect(d, w.x, w.y, w)) else stored
  }

  function Close(d: Desk, id: WindowId): Desk {
    var slot := SlotOf(d.windows, id);
    if slot.None? then d
    else MarkFullRedraw(d.(windows := d.windows[slot.value := None], z := ZRemove(d.z, id)))
  }

  function Move(d: Desk, id: WindowId, x: int, y: int): Desk {
    var slot := SlotOf(d.windows, id);
    if slot.None? then d
    else
      var w := d.windows[slot.value].value;
      MarkDamage(d.(windows := d.windows[slot.value := Some(w.(x := x, y := y))]),
                 HullOption(WindowRect(d, w.x, w.y, w), WindowRect(d, x, y, w)))
  }

  ghost function Step(d: Desk, m: Message): Desk {
    match m
    case CreateWindow(_, _, _, _, _) => Create(d, m)
    case UpdateWindow(_, _, _, _, _, _) => Update(d, m)
    case CloseWindow(id) => Close(d, id)
    case MoveWindow(id, x, y) => Move(d, id, x, y)
    case RaiseWindow(id) => MarkFullRedraw(d.(z := ZRaise(d.z, id)))
    case LowerWindow(id) => MarkFullRedraw(d.(z := ZLower(d.z, id)))
    case Malformed => d
  }

  ghost function Steps(d: Desk, ms: seq<Message>): Desk {
    if ms == [] then d else Step(Steps(d, ms[..|ms| - 1]), ms[|ms| - 1])
  }

  function Clamp(v: int, lo: int, hi: int): int { Min(Max(v, lo), hi) }

  /** One accumulated pointer movement; the old and new cursor boxes become damage. */
  function MovePointer(d: Desk, dx: int, dy: int): Desk {
    if dx == 0 && dy == 0 then d
    else
      var moved := d.(cursorX := Clamp(d.cursorX + dx, 0, d.width - 1),
                      cursorY := Clamp(d.cursorY + dy, 0, d.height - 1));
      ExpandPending(moved, HullOption(CursorRect(d), CursorRect(moved)))
  }

  // --- Invariants of a desk ---

  ghost predicate DeskOk(d: Desk) {
    && 0 < d.width && 0 < d.height && d.sprite.Valid()
    && Sized(d.background, d.width, d.height)
    && |d.windows| == MAX_WINDOWS && |d.z| <= MAX_WINDOWS
    && TableOk(d.windows)
    && UniqueIds(d.windows, d.nextId)
    && 0 <= d.cursorX < d.width && 0 <= d.cursorY < d.height
    && (d.pending.Some? ==> OnScreen(d.pending.value, d.width, d.height))
    && (d.sceneUpdate ==> d.fullRedraw || d.pending.Some?)
    && (d.fullRedraw ==> d.sceneUpdate)
  }

  /** Every live window has its own id, below the next one to be given out. */
  ghost predicate UniqueIds(t: Table, next: WindowId) {
    && (forall k :: 0 <= k < |t| && t[k].Some? ==> t[k].value.id < next)
    && (forall j, k :: 0 <= j < k < |t| && t[j].Some? && t[k].Some? ==> t[j].value.id != t[k].value.id)
  }

  /** The stack lists exactly the live windows, each once. */
  ghost predicate StackOk(d: Desk) {
    Arranges(d.z, LiveIds(d.windows))
  }

  /** Requests that restack name a live window. */
  ghost predicate NamesLive(d: Desk, m: Message) {
    (m.RaiseWindow? || m.LowerWindow?) ==> m.id in LiveIds(d.windows)
  }

  lemma StepKeepsDesk(d: Desk, m: Message)
    requires DeskOk(d)
    ensures DeskOk(Step(d, m)) && SameScreen(d, Step(d, m))
    ensures Step(d, m).cursorX == d.cursorX && Step(d, m).cursorY == d.cursorY
    ensures d.fullRedraw ==> Step(d, m).fullRedraw
  {
    match m
    case CreateWindow(_, _, _, _, _) => CreateKeepsDesk(d, m);
    case UpdateWindow(_, _, _, _, _, _) => UpdateKeepsDesk(d, m);
    case CloseWindow(id) => ReplaceKeepsTable(d.windows, d.nextId, id);
    case MoveWindow(id, x, y) => MoveKeepsDesk(d, id, x, y);
    case _ =>
  }

  lemma MarkDamageKeepsDesk(d: Desk, r: Option<Rect>)
    requires DeskOk(d) && (r.Some? ==> OnScreen(r.value, d.width, d.height))
    ensures DeskOk(MarkDamage(d, r)) && SameScreen(d, MarkDamage(d, r))
  {
  }

  lemma UpdateKeepsDesk(d: Desk, m: Message)
    requires DeskOk(d) && m.UpdateWindow?
    ensures DeskOk(Update(d, m)) && SameScreen(d, Update(d, m))
    ensures Update(d, m).cursorX == d.cursorX && Update(d, m).cursorY == d.cursorY
  {
    ReplaceKeepsTable(d.windows, d.nextId, m.id);
    var slot := SlotOf(d.windows, m.id);
    if slot.Some? {
      var w := d.windows[slot.value].value;
      MarkDamageKeepsDesk(d.(windows := d.windows[slot.value := Some(w.(pixels := Stored(w.pixels, m.stores)))]),
                          WindowRect(d, w.x, w.y, w));
    }
  }

  lemma MoveKeepsDesk(d: Desk, id: WindowId, x: int, y: int)
    requires DeskOk(d)
    ensures DeskOk(Move(d, id, x, y)) && SameScreen(d, Move(d, id, x, y))
    ensures Move(d, id, x, y).cursorX == d.cursorX && Move(d, id, x, y).cursorY == d.cursorY
  {
    ReplaceKeepsTable(d.windows, d.nextId, id);
    var slot := SlotOf(d.windows, id);
    if slot.Some? {
      var w := d.windows[slot.value].value;
      HullOnScreen(WindowRect(d, w.x, w.y, w), WindowRect(d, x, y, w), d.width, d.height);
      MarkDamageKeepsDesk(d.(windows := d.windows[slot.value := Some(w.(x := x, y := y))]),
                          HullOption(WindowRect(d, w.x, w.y, w), WindowRect(d, x, y, w)));
    }
  }

  lemma ReplaceKeepsTable(t: Table, next: WindowId, id: WindowId)
    requires TableOk(t) && UniqueIds(t, next)
    ensures SlotOf(t, id).Some? ==> forall w: Option<Window> :: w.None? || (w.value.id == id && WindowOk(w.value)) ==>
      var t' := t[SlotOf(t, id).value := w];
      TableOk(t') && UniqueIds(t', next)
  {
  }

  lemma CreateKeepsDesk(d: Desk, m: Message)
    requires DeskOk(d) && m.CreateWindow?
    ensures DeskOk(Create(d, m)) && SameScreen(d, Create(d, m))
    ensures Create(d, m).cursorX == d.cursorX && Create(d, m).cursorY == d.cursorY
  {
    var slot := FreeSlot(d.windows);
    var t' := Create(d, m).windows;
    if slot.Some? {
      assert forall k :: 0 <= k < |t'| && k != slot.value ==> t'[k] == d.windows[k];
    }
  }

  // --- Damage soundness ---

  /** A pixel the next flush sends to the screen again. */
  predicate Covered(d: Desk, x: int, y: int) {
    d.fullRedraw || InDamage(d.pending, x, y)
  }

  /** A pixel the next flush composes again. */
  predicate SceneDue(d: Desk, x: int, y: int) {
    d.sceneUpdate && Covered(d, x, y)
  }

  /** From `before` to `after` no repaint is forgotten, every pixel that should look different
      is due to be sent to the screen, and every pixel of the scene that changed is due to be composed. */
  ghost predicate DamageSound(before: Desk, after: Desk)
    requires DeskOk(before) && DeskOk(after) && SameScreen(before, after)
  {
    forall x, y :: 0 <= x < before.width && 0 <= y < before.height ==> PixelSound(before, after, x, y)
  }

  ghost predicate PixelSound(before: Desk, after: Desk, x: int, y: int)
    requires DeskOk(before) && DeskOk(after) && SameScreen(before, after)
    requires 0 <= x < before.width && 0 <= y < before.height
  {
    && (Covered(after, x, y) || (!Covered(before, x, y) && Shown(after, x, y) == Shown(before, x, y)))
    && (SceneDue(after, x, y) || (!SceneDue(before, x, y) && Ideal(after, x, y) == Ideal(before, x, y)))
  }

  ghost predicate SameScreen(a: Desk, b: Desk) {
    a.width == b.width && a.height == b.height && a.background == b.background && a.sprite == b.sprite
  }

  /** Replacing one window by another of the same id changes no pixel that neither covers. */
  lemma {:induction false} TopAfterReplace(z: seq<WindowId>, t: Table, slot: nat, w: Window, x: int, y: int)
    requires TableOk(t) && WindowOk(w)
    requires slot < |t| && t[slot].Some? && SlotOf(t, w.id) == Some(slot)
    requires !Covers(t[slot].value, x, y) && !Covers(w, x, y)
    ensures Top(z, t[slot := Some(w)], Everything, x, y) == Top(z, t, Everything, x, y)
  {
    if z != [] {
      var n := |z| - 1;
      FindAfterReplace(t, slot, w, z[n]);
      TopAfterReplace(z[..n], t, slot, w, x, y);
    }
  }

  /** The replaced window is found where it was. */
  lemma FindReplaced(t: Table, slot: nat, w: Window)
    requires SlotOf(t, w.id) == Some(slot)
    ensures Find(t[slot := Some(w)], w.id) == Some(w)
  {
    hide SlotOf;
    var t' := t[slot := Some(w)];
    var s' := SlotOf(t', w.id);
    assert t'[slot] == Some(w);
    forall k | 0 <= k < slot && t'[k].Some? ensures t'[k].value.id != w.id { assert t'[k] == t[k]; }
    assert s' == Some(slot);
  }

  /** Every other window is found where it was. */
  lemma FindAfterReplace(t: Table, slot: nat, w: Window, id: WindowId)
    requires SlotOf(t, w.id) == Some(slot)
    ensures Find(t[slot := Some(w)], id) == if id == w.id then Some(w) else Find(t, id)
  {
    hide SlotOf;
    var t' := t[slot := Some(w)];
    if id == w.id {
      FindReplaced(t, slot, w);
    } else {
      var s, s' := SlotOf(t, id), SlotOf(t', id);
      if s.Some? { assert s.value != slot && t'[s.value] == t[s.value]; }
      if s'.Some? { assert s'.value != slot && t'[s'.value] == t[s'.value]; }
      assert s == s';
    }
  }

  lemma ReplaceDamageSound(d: Desk, m: Message, x: int, y: int)
    requires DeskOk(d) && (m.UpdateWindow? || m.MoveWindow?) && SlotOf(d.windows, m.id).Some? && Fits(d, m)
    requires 0 <= x < d.width && 0 <= y < d.height
    ensures Covered(d, x, y) ==> Covered(Step(d, m), x, y)
    ensures SceneDue(d, x, y) ==> SceneDue(Step(d, m), x, y)
    ensures SceneDue(Step(d, m), x, y) ||
            Top(d.z, Step(d, m).windows, Everything, x, y) == Top(d.z, d.windows, Everything, x, y)
  {
    var slot := SlotOf(d.windows, m.id).value;
    var after := Step(d, m);
    var was, w := d.windows[slot].value, after.windows[slot].value;
    var wasAt, isAt := WindowRect(d, was.x, was.y, was), WindowRect(d, w.x, w.y, w);
    HullCovers(wasAt, isAt, x, y);
    HullCovers(d.pending, wasAt, x, y);
    HullCovers(d.pending, HullOption(wasAt, isAt), x, y);
    ScreenRectIsExact(d.width, d.height, was.x, was.y, was.width, was.height, x, y);
    ScreenRectIsExact(d.width, d.height, w.x, w.y, w.width, w.height, x, y);
    if !SceneDue(after, x, y) {
      TopAfterReplace(d.z, d.windows, slot, w, x, y);
    }
  }

  /** The request, if it is an update of a live window, names a rectangle inside it. */
  predicate Fits(d: Desk, m: Message) {
    m.UpdateWindow? ==>
      var w := Find(d.windows, m.id);
      w.Some? ==> RectangleFits(m, w.value)
  }

  /** The store of a window's buffer that shows at a pixel. */
  ghost function StoreOf(w: Window, x: int, y: int): nat
    requires Covers(w, x, y)
  {
    RowBase(w.width, y - w.y) + (x - w.x)
  }

  /** The update stores another colour where its window is the topmost. */
  ghost predicate Recolours(d: Desk, m: Message, x: int, y: int)
    requires DeskOk(d) && m.UpdateWindow?
  {
    var w := Top(d.z, d.windows, Everything, x, y);
    w.Some? && w.value.id == m.id && var i := StoreOf(w.value, x, y);
    i in m.stores && m.stores[i] != WindowPixel(w.value, x, y)
  }

  /** Every pixel the update recolours is due to be composed anyway. */
  ghost predicate RecoloursOnlyDue(d: Desk, m: Message)
    requires DeskOk(d) && m.UpdateWindow?
  {
    forall x, y :: 0 <= x < d.width && 0 <= y < d.height && Recolours(d, m, x, y) ==> SceneDue(d, x, y)
  }

  /** The damage of the request covers what it changes. */
  ghost predicate Announced(d: Desk, m: Message)
    requires DeskOk(d)
  {
    Fits(d, m) || RecoloursOnlyDue(d, m)
  }

  /** Repainting a window changes the topmost window only where it is the topmost. */
  lemma {:induction false} TopAfterStore(z: seq<WindowId>, t: Table, slot: nat, pixels: seq<Pixel>, x: int, y: int)
    requires TableOk(t) && slot < |t| && t[slot].Some? && SlotOf(t, t[slot].value.id) == Some(slot)
    requires |pixels| == |t[slot].value.pixels|
    ensures var w, top := t[slot].value.(pixels := pixels), Top(z, t, Everything, x, y);
      TableOk(t[slot := Some(w)]) &&
      Top(z, t[slot := Some(w)], Everything, x, y) == if top.Some? && top.value.id == w.id then Some(w) else top
  {
    hide SlotOf;
    var w := t[slot].value.(pixels := pixels);
    if z != [] {
      var n := |z| - 1;
      FindAfterReplace(t, slot, w, z[n]);
      TopAfterStore(z[..n], t, slot, pixels, x, y);
    }
  }

  /** What storing pixels in a window does to the topmost pixel. */
  lemma TopPixelAfterStore(z: seq<WindowId>, t: Table, slot: nat, stores: map<nat, Pixel>, x: int, y: int)
    requires TableOk(t) && slot < |t| && t[slot].Some? && SlotOf(t, t[slot].value.id) == Some(slot)
    ensures
      var w := t[slot].value;
      var t' := t[slot := Some(w.(pixels := Stored(w.pixels, stores)))];
      TableOk(t') &&
      var top, top' := Top(z, t, Everything, x, y), Top(z, t', Everything, x, y);
      if top.Some? then
        top'.Some? && WindowPixel(top'.value, x, y) ==
          if top.value.id == w.id && StoreOf(top.value, x, y) in stores then stores[StoreOf(top.value, x, y)]
          else WindowPixel(top.value, x, y)
      else top'.None?
  {
    var w, top := t[slot].value, Top(z, t, Everything, x, y);
    TopIsLive(z, t, x, y);
    TopAfterStore(z, t, slot, Stored(w.pixels, stores), x, y);
    hide SlotOf, Top;
    if top.Some? && top.value.id == w.id { StoredPixel(w, stores, x, y); }
  }

  /** What an update does to a pixel of the scene, whether or not its rectangle fits. */
  lemma UpdatedPixel(d: Desk, m: Message, x: int, y: int)
    requires DeskOk(d) && m.UpdateWindow? && 0 <= x < d.width && 0 <= y < d.height
    ensures DeskOk(Update(d, m)) && SameScreen(d, Update(d, m))
    ensures Ideal(Update(d, m), x, y) != Ideal(d, x, y) <==> Recolours(d, m, x, y)
  {
    UpdateKeepsDesk(d, m);
    hide SlotOf, Top, UniqueIds, Stored, WindowPixel;
    var slot := SlotOf(d.windows, m.id);
    if slot.Some? {
      TopPixelAfterStore(d.z, d.windows, slot.value, m.stores, x, y);
    } else {
      TopIsLive(d.z, d.windows, x, y);
    }
  }

  lemma StoredPixel(w: Window, stores: map<nat, Pixel>, x: int, y: int)
    requires WindowOk(w) && Covers(w, x, y)
    ensures var i := StoreOf(w, x, y);
      WindowPixel(w.(pixels := Stored(w.pixels, stores)), x, y) == if i in stores then stores[i]
                                                                   else WindowPixel(w, x, y)
  {
    PixelInBuffer(w.width, w.height, x - w.x, y - w.y);
    var i := StoreOf(w, x, y);
    assert Stored(w.pixels, stores)[i] == if i in stores then stores[i] else w.pixels[i];
  }

  lemma {:induction false} TopIsLive(z: seq<WindowId>, t: Table, x: int, y: int)
    requires TableOk(t)
    ensures var top := Top(z, t, Everything, x, y); top.Some? ==> Find(t, top.value.id) == top
  {
    if z != [] { TopIsLive(z[..|z| - 1], t, x, y); }
  }

  /** An update whose rectangle does not fit leaves the damage as it was, so it is sound exactly
      when everything it recolours was due. */
  lemma MisfitDamageSound(d: Desk, m: Message)
    requires DeskOk(d) && m.UpdateWindow? && !Fits(d, m)
    ensures DeskOk(Update(d, m)) && SameScreen(d, Update(d, m))
    ensures DamageSound(d, Update(d, m)) <==> RecoloursOnlyDue(d, m)
  {
    UpdateKeepsDesk(d, m);
    var after := Update(d, m);
    forall x, y | 0 <= x < d.width && 0 <= y < d.height
      ensures PixelSound(d, after, x, y) <==> (Recolours(d, m, x, y) ==> SceneDue(d, x, y))
    {
      UpdatedPixel(d, m, x, y);
    }
  }

  lemma FittingPixelSound(d: Desk, m: Message, x: int, y: int)
    requires DeskOk(d) && Fits(d, m) && 0 <= x < d.width && 0 <= y < d.height
    ensures DeskOk(Step(d, m)) && SameScreen(d, Step(d, m)) && PixelSound(d, Step(d, m), x, y)
  {
    StepKeepsDesk(d, m);
    if (m.UpdateWindow? || m.MoveWindow?) && SlotOf(d.windows, m.id).Some? {
      ReplaceDamageSound(d, m, x, y);
    }
  }

  /** A request is damage-sound if and only if it is announced: it is no update, its rectangle fits the
      window, or it recolours only pixels that are due anyway. */
  lemma StepDamageSound(d: Desk, m: Message)
    requires DeskOk(d)
    ensures DeskOk(Step(d, m)) && SameScreen(d, Step(d, m))
    ensures DamageSound(d, Step(d, m)) <==> Announced(d, m)
  {
    StepKeepsDesk(d, m);
    if Fits(d, m) {
      forall x, y | 0 <= x < d.width && 0 <= y < d.height ensures PixelSound(d, Step(d, m), x, y) {
        FittingPixelSound(d, m, x, y);
      }
    } else {
      MisfitDamageSound(d, m);
    }
  }

  lemma PointerKeepsDesk(d: Desk, dx: int, dy: int)
    requires DeskOk(d)
    ensures DeskOk(MovePointer(d, dx, dy)) && SameScreen(d, MovePointer(d, dx, dy))
    ensures MovePointer(d, dx, dy).fullRedraw == d.fullRedraw
  {
    var after := MovePointer(d, dx, dy);
    HullOnScreen(CursorRect(d), CursorRect(after), d.width, d.height);
    HullOnScreen(d.pending, HullOption(CursorRect(d), CursorRect(after)), d.width, d.height);
  }

  lemma CursorInItsRect(d: Desk, x: int, y: int, under: Pixel)
    requires d.sprite.Valid() && 0 <= x < d.width && 0 <= y < d.height && !InDamage(CursorRect(d), x, y)
    ensures CursorOver(d.sprite, d.cursorX, d.cursorY, x, y, under) == under
  {
  }

  lemma PointerDamageSound(d: Desk, dx: int, dy: int)
    requires DeskOk(d)
    ensures DeskOk(MovePointer(d, dx, dy)) && SameScreen(d, MovePointer(d, dx, dy))
    ensures DamageSound(d, MovePointer(d, dx, dy))
  {
    PointerKeepsDesk(d, dx, dy);
    if dx == 0 && dy == 0 { return; }
    var after := MovePointer(d, dx, dy);
    var boxes := HullOption(CursorRect(d), CursorRect(after));
    forall x, y | 0 <= x < d.width && 0 <= y < d.height
      ensures PixelSound(d, after, x, y)
    {
      HullCovers(CursorRect(d), CursorRect(after), x, y);
      HullCovers(d.pending, boxes, x, y);
      if !Covered(after, x, y) {
        CursorInItsRect(d, x, y, Ideal(d, x, y));
        CursorInItsRect(after, x, y, Ideal(d, x, y));
      }
    }
  }

  lemma DamageSoundTransitive(a: Desk, b: Desk, c: Desk)
    requires DeskOk(a) && DeskOk(b) && DeskOk(c) && SameScreen(a, b) && SameScreen(b, c)
    requires DamageSound(a, b) && DamageSound(b, c)
    ensures DamageSound(a, c)
  {
    forall x, y | 0 <= x < a.width && 0 <= y < a.height ensures PixelSound(a, c, x, y) {
      assert PixelSound(a, b, x, y) && PixelSound(b, c, x, y);
    }
  }

  lemma {:induction false} StepsKeepDesk(d: Desk, ms: seq<Message>)
    requires DeskOk(d)
    ensures DeskOk(Steps(d, ms)) && SameScreen(d, Steps(d, ms))
  {
    if ms != [] {
      var n := |ms| - 1;
      StepsKeepDesk(d, ms[..n]);
      StepKeepsDesk(Steps(d, ms[..n]), ms[n]);
    }
  }

  /** Every request of the batch is announced when its turn comes. */
  ghost predicate AllAnnounced(d: Desk, ms: seq<Message>)
    requires DeskOk(d)
  {
    ms != [] ==>
      var before := Steps(d, ms[..|ms| - 1]);
      AllAnnounced(d, ms[..|ms| - 1]) && DeskOk(before) && Announced(before, ms[|ms| - 1])
  }

  lemma {:induction false} StepsDamageSound(d: Desk, ms: seq<Message>)
    requires DeskOk(d) && AllAnnounced(d, ms)
    ensures var after := Steps(d, ms); DeskOk(after) && SameScreen(d, after) && DamageSound(d, after)
  {
    if ms != [] {
      var n := |ms| - 1;
      var mid := Steps(d, ms[..n]);
      StepsDamageSound(d, ms[..n]);
      StepDamageSound(mid, ms[n]);
      DamageSoundTransitive(d, mid, Steps(d, ms));
    }
  }

  /** Over any batch of requests followed by any pointer movement the pending damage only names pixels
      on the screen, and if the batch is announced every pixel that should look different is due for repaint. */
  lemma BatchDamageSound(d: Desk, ms: seq<Message>, dx: int, dy: int)
    requires DeskOk(d)
    ensures var after := MovePointer(Steps(d, ms), dx, dy);
      DeskOk(after) && SameScreen(d, after) && (AllAnnounced(d, ms) ==> DamageSound(d, after))
  {
    var mid := Steps(d, ms);
    StepsKeepDesk(d, ms);
    PointerDamageSound(mid, dx, dy);
    if AllAnnounced(d, ms) {
      StepsDamageSound(d, ms);
      DamageSoundTransitive(d, mid, MovePointer(mid, dx, dy));
    }
  }

  // --- The stack over any run ---

  lemma {:induction false} LiveIdsBound(t: Table)
    ensures |LiveIds(t)| <= |t|
    ensures FreeSlot(t).Some? ==> |LiveIds(t)| < |t|
  {
    if t == [] {
      assert LiveIds(t) == {};
    } else {
      var n := |t| - 1;
      LiveIdsBound(t[..n]);
      LiveIdsOfLast(t);
    }
  }

  lemma LiveIdsOfLast(t: Table)
    requires t != []
    ensures var n := |t| - 1; LiveIds(t) == LiveIds(t[..n]) + if t[n].Some? then {t[n].value.id} else {}
  {
    var n := |t| - 1;
    var last := if t[n].Some? then {t[n].value.id} else {};
    forall id ensures id in LiveIds(t) <==> id in LiveIds(t[..n]) + last {
      if id in LiveIds(t) {
        var k :| 0 <= k < |t| && t[k].Some? && t[k].value.id == id;
        if k < n { assert t[..n][k] == t[k]; }
      }
      if id in LiveIds(t[..n]) {
        var k :| 0 <= k < n && t[..n][k].Some? && t[..n][k].value.id == id;
        assert t[k].Some? && t[k].value.id == id;
      }
    }
  }

  lemma LiveIdsAfterSet(t: Table, slot: nat, w: Option<Window>, next: WindowId)
    requires slot < |t| && UniqueIds(t, next)
    ensures LiveIds(t[slot := w]) ==
      LiveIds(t) - (if t[slot].Some? then {t[slot].value.id} else {}) + (if w.Some? then {w.value.id} else {})
  {
    var t' := t[slot := w];
    var gone := if t[slot].Some? then {t[slot].value.id} else {};
    var come := if w.Some? then {w.value.id} else {};
    forall id ensures id in LiveIds(t') <==> id in LiveIds(t) - gone + come {
      if id in LiveIds(t') {
        var k :| 0 <= k < |t'| && t'[k].Some? && t'[k].value.id == id;
        if k != slot { assert t[k].Some? && t[k].value.id == id; }
      }
      if id in LiveIds(t) - gone {
        var k :| 0 <= k < |t| && t[k].Some? && t[k].value.id == id;
        assert k != slot && t'[k].Some? && t'[k].value.id == id;
      }
      if id in come { assert t'[slot].Some? && t'[slot].value.id == id; }
    }
  }

  /** Each request keeps the stack a list of exactly the live windows if and only if a restacking
      request names a live window, or the stack is full so that the dead id is dropped. */
  lemma StepKeepsStack(d: Desk, m: Message)
    requires DeskOk(d) && StackOk(d)
    ensures StackOk(Step(d, m)) <==> NamesLive(d, m) || |d.z| == MAX_WINDOWS
  {
    match m
    case CreateWindow(_, _, _, _, _) => NewWindowIsStacked(d, m);
    case UpdateWindow(id, _, _, _, _, _) => ReplaceKeepsLive(d, m);
    case CloseWindow(id) => CloseKeepsStack(d, id);
    case MoveWindow(id, x, y) => ReplaceKeepsLive(d, m);
    case RaiseWindow(id) => RestackKeepsStack(d, id);
    case LowerWindow(id) => RestackKeepsStack(d, id);
    case Malformed =>
  }

  lemma RestackKeepsStack(d: Desk, id: WindowId)
    requires DeskOk(d) && StackOk(d)
    ensures StackOk(d.(z := ZRaise(d.z, id))) <==> id in LiveIds(d.windows) || |d.z| == MAX_WINDOWS
    ensures StackOk(d.(z := ZLower(d.z, id))) <==> id in LiveIds(d.windows) || |d.z| == MAX_WINDOWS
  {
    var live := LiveIds(d.windows);
    if id in live { RestackArranges(d.z, live, id); } else { RestackOfDeadId(d.z, live, id); }
  }

  lemma ReplaceKeepsLive(d: Desk, m: Message)
    requires DeskOk(d) && (m.UpdateWindow? || m.MoveWindow?)
    ensures LiveIds(Step(d, m).windows) == LiveIds(d.windows) && Step(d, m).z == d.z
  {
    var slot := SlotOf(d.windows, m.id);
    if slot.Some? {
      LiveIdsAfterReplace(d.windows, slot.value, Step(d, m).windows[slot.value], d.nextId);
    }
  }

  lemma LiveIdsAfterReplace(t: Table, slot: nat, w: Option<Window>, next: WindowId)
    requires slot < |t| && UniqueIds(t, next) && t[slot].Some? && w.Some? && w.value.id == t[slot].value.id
    ensures LiveIds(t[slot := w]) == LiveIds(t)
  {
    LiveIdsAfterSet(t, slot, w, next);
    assert w.value.id in LiveIds(t);
  }

  lemma CloseKeepsStack(d: Desk, id: WindowId)
    requires DeskOk(d) && StackOk(d)
    ensures StackOk(Close(d, id))
  {
    var slot := SlotOf(d.windows, id);
    if slot.Some? {
      RemoveArranged(d.z, id);
      LiveIdsAfterSet(d.windows, slot.value, None, d.nextId);
    }
  }

  /** A window that gets a slot is always pushed on top: the push is never dropped. */
  lemma NewWindowIsStacked(d: Desk, m: Message)
    requires DeskOk(d) && StackOk(d) && m.CreateWindow?
    ensures StackOk(Create(d, m))
    ensures Creates(d, m) ==> Create(d, m).z == d.z + [d.nextId]
  {
    if Creates(d, m) {
      StackAfterInsert(d.z, d.windows, d.nextId, FreeSlot(d.windows).value, NewWindow(d.nextId, m));
    }
  }

  lemma StackAfterInsert(z: seq<WindowId>, t: Table, next: WindowId, slot: nat, w: Window)
    requires UniqueIds(t, next) && w.id == next && Arranges(z, LiveIds(t))
    requires FreeSlot(t) == Some(slot)
    ensures |z| < |t| && Arranges(z + [next], LiveIds(t[slot := Some(w)]))
  {
    var live := LiveIds(t);
    assert next !in live;
    LiveIdsBound(t);
    ArrangedSize(z, live);
    InsertArranges(z, live, next);
    LiveIdsAfterSet(t, slot, Some(w), next);
    assert live - {} + {next} == live + {next};
  }

  ghost predicate AllNameLive(d: Desk, ms: seq<Message>) {
    ms != [] ==> AllNameLive(d, ms[..|ms| - 1]) && NamesLive(Steps(d, ms[..|ms| - 1]), ms[|ms| - 1])
  }

  lemma {:induction false} BatchKeepsStack(d: Desk, ms: seq<Message>)
    requires DeskOk(d) && StackOk(d) && AllNameLive(d, ms)
    ensures DeskOk(Steps(d, ms)) && StackOk(Steps(d, ms))
  {
    if ms != [] {
      var n := |ms| - 1;
      BatchKeepsStack(d, ms[..n]);
      StepKeepsStack(Steps(d, ms[..n]), ms[n]);
      StepKeepsDesk(Steps(d, ms[..n]), ms[n]);
    }
  }
}
