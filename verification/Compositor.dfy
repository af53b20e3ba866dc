/**
 The display server's compositor: the window table, the stacking table and the pixel buffers,
 updated in place.  Each method is tied to the value model: requests to `Desk.Step`, a flush to
 `Scene.Flushed`, one turn of the event loop to `Scene.Frame`.
 */
module Compositor {
  import opened Wrappers
  import opened Rects
  import opened Framebuffer
  import D = Display
  import opened ZOrder
  import opened Desk
  import opened Scene

  datatype WindowResult = Ok | ErrorOutOfMemory | ErrorInvalidDimensions

  /** A rectangle inside a buffer, read in place. */
  lemma SubRect(buf: seq<Pixel>, w: nat, h: nat, r: Rect)
    requires Sized(buf, w, h) && OnScreen(r, w, h)
    ensures HoldsRect(buf, RowBase(w, r.y) + r.x, w, r.w, r.h)
    ensures forall x, y :: InRect(r, x, y) ==>
      SourceAt(buf, RowBase(w, r.y) + r.x, w, r.w, r.h, x - r.x, y - r.y) == At(buf, w, h, x, y)
  {
    RowsAdd(w, r.y, r.h - 1);
    RowOrder(w, r.y + r.h - 1, h);
    forall x, y | InRect(r, x, y)
      ensures SourceAt(buf, RowBase(w, r.y) + r.x, w, r.w, r.h, x - r.x, y - r.y) == At(buf, w, h, x, y)
    {
      RowsAdd(w, r.y, y - r.y);
    }
  }

  lemma WindowHoldsItself(w: Window)
    requires WindowOk(w)
    ensures HoldsRect(w.pixels, 0, w.width, w.width, w.height)
    ensures forall x, y :: Covers(w, x, y) ==>
      SourceAt(w.pixels, 0, w.width, w.width, w.height, x - w.x, y - w.y) == WindowPixel(w, x, y)
  {
  }

  /** A pixel after drawing the visible windows of the stack over it. */
  ghost function OverPixel(z: seq<WindowId>, t: Table, shows: Window -> bool, x: int, y: int, under: Pixel): Pixel
    requires TableOk(t)
  {
    var w := Top(z, t, shows, x, y);
    if w.Some? then WindowPixel(w.value, x, y) else under
  }

  /** Pending damage does not change what a desk means. */
  lemma SameDeskSamePixels(d: Desk, d': Desk)
    requires DeskOk(d) && d' == Cleared(d)
    ensures forall x, y :: PixelOf(d, x, y) ==> Ideal(d', x, y) == Ideal(d, x, y)
    ensures forall damage, scene, x, y :: PixelOf(d, x, y) && Sized(scene, d.width, d.height) ==>
      RegionPixel(d', damage, scene, x, y) == RegionPixel(d, damage, scene, x, y)
  {
  }

  lemma {:induction false} RemoveAtFirst(z: seq<WindowId>, id: WindowId, pos: nat)
    requires pos < |z| && z[pos] == id && id !in z[..pos]
    ensures ZRemove(z, id) == z[..pos] + z[pos + 1..]
  {
    if pos > 0 {
      assert z[..pos][0] == z[0] && z[1..][..pos - 1] == z[..pos][1..];
      RemoveAtFirst(z[1..], id, pos - 1);
    }
  }

  /** Move the first n entries of a table up by one. */
  method ShiftUp(a: array<WindowId>, n: nat)
    requires n < a.Length
    modifies a
    ensures a[1..n + 1] == old(a[..n])
  {
    for i := n downto 0
      invariant forall k :: 0 <= k <= i ==> a[k] == old(a[k])
      invariant forall k :: i < k <= n ==> a[k] == old(a[k - 1])
    {
      a[i + 1] := a[i];
    }
  }

  /** Put an entry before the first n. */
  method PutFirst(a: array<WindowId>, n: nat, id: WindowId)
    requires n < a.Length
    modifies a
    ensures a[..n + 1] == [id] + old(a[..n])
  {
    ShiftUp(a, n);
    a[0] := id;
    assert a[..n + 1] == [a[0]] + a[1..n + 1];
  }

  /** Move the entries after `pos` down by one. */
  method CloseUp(a: array<WindowId>, pos: nat, n: nat)
    requires pos < n <= a.Length
    modifies a
    ensures a[..n - 1] == old(a[..pos] + a[pos + 1..n])
  {
    for i := pos to n - 1
      invariant forall k :: pos <= k < i ==> a[k] == old(a[k + 1])
      invariant forall k :: 0 <= k < pos || i <= k < n ==> a[k] == old(a[k])
    {
      a[i] := a[i + 1];
    }
  }

  class Compositor {
    const display: D.Display
    const background: seq<Pixel>
    const sprite: D.Sprite
    const scene: array<Pixel>
    const windows: array<Option<Window>>
    const zOrder: array<WindowId>
    var nWindows: nat
    var nextId: WindowId
    var cursorX: int
    var cursorY: int
    var pending: Option<Rect>
    var sceneUpdate: bool
    var fullRedraw: bool

    ghost predicate Tabled()
      reads this
    {
      windows.Length == MAX_WINDOWS && zOrder.Length == MAX_WINDOWS && nWindows <= MAX_WINDOWS
    }

    ghost predicate Shaped()
      reads this, display, display.back, display.front, scene, windows, zOrder
    {
      && display.Valid() && display.dirty == None
      && scene != display.back && scene != display.front
      && Sized(scene[..], display.width, display.height)
      && Tabled()
    }

    ghost function Model(): Desk
      requires nWindows <= zOrder.Length
      reads this, windows, zOrder
    {
      Desk(display.width, display.height, background, sprite, windows[..], nextId, zOrder[..nWindows],
           cursorX, cursorY, pending, sceneUpdate, fullRedraw)
    }

    ghost function View(): Screen
      requires nWindows <= zOrder.Length
      reads this, display.front, scene, windows, zOrder
    {
      Screen(Model(), scene[..], display.front[..])
    }

    /** Between flushes the back buffer matches the front buffer, once something was flushed. */
    ghost predicate Valid()
      reads this, display, display.back, display.front, scene, windows, zOrder
    {
      && Shaped() && DeskOk(Model())
      && (fullRedraw || display.back[..] == display.front[..])
    }

    /** The compositor as its event loop starts: no windows, the pointer in the middle, a full redraw due. */
    constructor (display: D.Display, background: seq<Pixel>, sprite: D.Sprite)
      requires display.Valid() && display.dirty == None && 0 < display.width && 0 < display.height
      requires Sized(background, display.width, display.height) && sprite.Valid()
      ensures Valid() && this.display == display && this.sprite == sprite && this.background == background
      ensures fresh(scene) && fresh(windows) && fresh(zOrder)
      ensures scene[..] == background && nWindows == 0 && forall k :: 0 <= k < windows.Length ==> windows[k].None?
      ensures StackOk(Model()) && fullRedraw
    {
      this.display, this.background, this.sprite := display, background, sprite;
      this.scene := new Pixel[|background|](i requires 0 <= i < |background| => background[i]);
      this.windows := new Option<Window>[MAX_WINDOWS](_ => None);
      this.zOrder := new WindowId[MAX_WINDOWS](_ => 0);
      nWindows, nextId := 0, 1;
      cursorX, cursorY := display.width / 2, display.height / 2;
      pending, sceneUpdate, fullRedraw := None, true, true;
    }

    // --- Z-order table ---

    method PushZ(id: WindowId)
      requires nWindows <= zOrder.Length == MAX_WINDOWS
      modifies zOrder, `nWindows
      ensures nWindows <= zOrder.Length && zOrder[..nWindows] == ZPush(old(zOrder[..nWindows]), id)
    {
      if nWindows < MAX_WINDOWS {
        zOrder[nWindows] := id;
        nWindows := nWindows + 1;
      }
    }

    method RemoveZ(id: WindowId)
      requires nWindows <= zOrder.Length
      modifies zOrder, `nWindows
      ensures nWindows <= zOrder.Length && zOrder[..nWindows] == ZRemove(old(zOrder[..nWindows]), id)
    {
      hide ZRemove;
      ghost var z := zOrder[..nWindows];
      var pos := 0;
      while pos < nWindows && zOrder[pos] != id
        invariant pos <= nWindows && id !in z[..pos]
      {
        pos := pos + 1;
      }
      if pos < nWindows {
        RemoveAtFirst(z, id, pos);
        CloseUp(zOrder, pos, nWindows);
        nWindows := nWindows - 1;
        assert zOrder[..nWindows] == z[..pos] + z[pos + 1..];
      } else {
        RemoveOfAbsent(z, id);
      }
    }

    method RaiseZ(id: WindowId)
      requires nWindows <= zOrder.Length == MAX_WINDOWS
      modifies zOrder, `nWindows
      ensures nWindows <= zOrder.Length && zOrder[..nWindows] == ZRaise(old(zOrder[..nWindows]), id)
    {
      RemoveZ(id);
      PushZ(id);
    }

    method LowerZ(id: WindowId)
      requires nWindows <= zOrder.Length == MAX_WINDOWS
      modifies zOrder, `nWindows
      ensures nWindows <= zOrder.Length && zOrder[..nWindows] == ZLower(old(zOrder[..nWindows]), id)
    {
      RemoveZ(id);
      hide ZRemove;
      if nWindows < MAX_WINDOWS {
        PutFirst(zOrder, nWindows, id);
        nWindows := nWindows + 1;
      }
    }

    // --- Damage ---

    method ExpandDamage(r: Rect)
      modifies `pending
      ensures pending == HullOption(old(pending), Some(r))
    {
      match pending {
        case Some(d) =>
          var grown := Expand(d, r.x, r.y, r.w, r.h);
          pending := Some(grown);
        case None =>
          pending := Some(r);
      }
    }

    method FullRedraw()
      modifies `pending, `sceneUpdate, `fullRedraw
      ensures fullRedraw && sceneUpdate && pending == None
    {
      fullRedraw := true;
      sceneUpdate := true;
      pending := None;
    }

    method AddDamage(r: Rect)
      modifies `pending, `sceneUpdate
      ensures pending == HullOption(old(pending), Some(r)) && sceneUpdate
    {
      ExpandDamage(r);
      sceneUpdate := true;
    }

    // --- Window table ---

    method FindSlot(id: WindowId) returns (r: Option<nat>)
      ensures r == SlotOf(windows[..], id)
    {
      for k := 0 to windows.Length
        invariant forall j :: 0 <= j < k && windows[j].Some? ==> windows[j].value.id != id
      {
        if windows[k].Some? && windows[k].value.id == id {
          return Some(k);
        }
      }
      r := None;
    }

    method FindFreeSlot() returns (r: Option<nat>)
      ensures r == FreeSlot(windows[..])
    {
      for k := 0 to windows.Length
        invariant forall j :: 0 <= j < k ==> windows[j].Some?
      {
        if windows[k].None? {
          return Some(k);
        }
      }
      r := None;
    }

    method FindWindow(id: WindowId) returns (r: Option<Window>)
      ensures r == Find(windows[..], id)
    {
      var slot := FindSlot(id);
      if slot.Some? { return windows[slot.value]; }
      r := None;
    }

    // --- Scene buffer ---

    method BlitToScene(src: seq<Pixel>, base: nat, srcWidth: nat, dx: int, dy: int, w: nat, h: nat)
      requires Shaped() && HoldsRect(src, base, srcWidth, w, h)
      modifies scene
      ensures Shaped()
      ensures Blitted(old(scene[..]), scene[..], display.width, display.height, src, base, srcWidth, dx, dy, w, h)
    {
      BlitClipped(scene, display.width, display.height, src, base, srcWidth, dx, dy, w, h);
    }

    /** Draw one window of the stack, if it is in the table and passes the filter. */
    method BlitStacked(id: WindowId, damage: Option<Rect>, ghost shows: Window -> bool)
      requires Shaped() && TableOk(windows[..])
      requires forall w :: shows(w) <==> damage.None? || Overlaps(w, damage.value)
      modifies scene
      ensures Shaped()
      ensures forall x, y :: 0 <= x < display.width && 0 <= y < display.height ==>
        At(scene[..], display.width, display.height, x, y) ==
        if Visible(windows[..], id, shows, x, y) then WindowPixel(Find(windows[..], id).value, x, y)
        else old(At(scene[..], display.width, display.height, x, y))
    {
      var found := FindWindow(id);
      if found.Some? && (damage.None? || Overlaps(found.value, damage.value)) {
        var w := found.value;
        WindowHoldsItself(w);
        BlitToScene(w.pixels, 0, w.width, w.x, w.y, w.width, w.height);
      }
    }

    /** Draw the stacked windows that pass the filter, bottom to top. */
    method BlitWindows(damage: Option<Rect>, ghost shows: Window -> bool)
      requires Shaped() && TableOk(windows[..])
      requires forall w :: shows(w) <==> damage.None? || Overlaps(w, damage.value)
      modifies scene
      ensures Shaped()
      ensures forall x, y :: 0 <= x < display.width && 0 <= y < display.height ==>
        At(scene[..], display.width, display.height, x, y) ==
        OverPixel(zOrder[..nWindows], windows[..], shows, x, y, old(At(scene[..], display.width, display.height, x, y)))
    {
      ghost var before := scene[..];
      ghost var z, t := zOrder[..nWindows], windows[..];
      for i := 0 to nWindows
        invariant Shaped()
        invariant forall x, y :: 0 <= x < display.width && 0 <= y < display.height ==>
          At(scene[..], display.width, display.height, x, y) ==
          OverPixel(z[..i], t, shows, x, y, At(before, display.width, display.height, x, y))
      {
        assert z[..i + 1][..i] == z[..i] && z[..i + 1][i] == zOrder[i];
        BlitStacked(zOrder[i], damage, shows);
      }
      assert z[..nWindows] == z;
    }

    /** Repaint the damaged region: background inside it, then every window overlapping it, whole. */
    method UpdateSceneRegion(damage: Rect)
      requires Shaped() && DeskOk(Model()) && OnScreen(damage, display.width, display.height)
      modifies scene
      ensures Shaped()
      ensures forall x, y :: PixelOf(Model(), x, y) ==>
        At(scene[..], display.width, display.height, x, y) == RegionPixel(Model(), damage, old(scene[..]), x, y)
    {
      var base := damage.y * display.width + damage.x;
      RowBaseIsProduct(display.width, damage.y);
      SubRect(background, display.width, display.height, damage);
      BlitToScene(background, base, display.width, damage.x, damage.y, damage.w, damage.h);
      BlitWindows(Some(damage), Repainted(damage));
    }

    /** Rebuild the whole scene: every pixel becomes the ideal one. */
    method UpdateSceneFull()
      requires Shaped() && DeskOk(Model())
      modifies scene
      ensures Shaped()
      ensures forall x, y :: PixelOf(Model(), x, y) ==>
        At(scene[..], display.width, display.height, x, y) == Ideal(Model(), x, y)
    {
      CopyPixels(background, 0, scene, 0, |background|);
      assert scene[..] == background;
      BlitWindows(None, Everything);
    }

    // --- Presenting ---

    /** Copy a region of the scene to the screen and keep the cursor on top of it. */
    method PresentRegion(damage: Rect)
      requires Shaped() && DeskOk(Model()) && OnScreen(damage, display.width, display.height)
      requires forall x, y :: PixelOf(Model(), x, y) && !InRect(damage, x, y) ==>
        display.Back(x, y) == display.Front(x, y)
      modifies display, display.back, display.front
      ensures Shaped() && display.back[..] == display.front[..]
      ensures forall x, y :: PixelOf(Model(), x, y) ==>
        var drawn := if InRect(damage, x, y) then At(scene[..], display.width, display.height, x, y)
                     else old(display.Front(x, y));
        display.Front(x, y) == if CursorTouches(Model(), damage) then WithCursor(Model(), x, y, drawn) else drawn
    {
      DrawRegion(damage);
      display.Present();
      forall x, y | 0 <= x < display.width && 0 <= y < display.height
        ensures At(display.back[..], display.width, display.height, x, y) ==
                At(display.front[..], display.width, display.height, x, y)
      {
        assert PixelOf(Model(), x, y);
        assert display.Back(x, y) == display.Front(x, y);
      }
      SamePixelsSameBuffer(display.back[..], display.front[..], display.width, display.height);
    }

    /** Draw the region and the cursor into the back buffer; everything drawn is marked dirty. */
    method DrawRegion(damage: Rect)
      requires Shaped() && DeskOk(Model()) && OnScreen(damage, display.width, display.height)
      modifies display, display.back
      ensures display.Valid()
      ensures forall x, y :: PixelOf(Model(), x, y) ==>
        var drawn := if InRect(damage, x, y) then At(scene[..], display.width, display.height, x, y)
                     else old(display.Back(x, y));
        && display.Back(x, y) == (if CursorTouches(Model(), damage) then WithCursor(Model(), x, y, drawn) else drawn)
        && (!InDamage(display.dirty, x, y) ==> !InRect(damage, x, y) && display.Back(x, y) == old(display.Back(x, y)))
    {
      hide D.CursorOver, D.Bit, D.Opaque, ScreenRect;
      var base := damage.y * display.width + damage.x;
      RowBaseIsProduct(display.width, damage.y);
      SubRect(scene[..], display.width, display.height, damage);
      OnScreenIsWhole(display.width, display.height, damage);
      display.BlitRaw(scene[..], base, display.width, damage.x, damage.y, damage.w, damage.h);
      assert display.dirty == Some(damage);
      var box := ScreenRect(display.width, display.height, cursorX, cursorY, sprite.w, sprite.h);
      if box.Some? && box.value.x < damage.x + damage.w && damage.x < box.value.x + box.value.w
        && box.value.y < damage.y + damage.h && damage.y < box.value.y + box.value.h {
        label drawn:
        display.BlitCursor(cursorX, cursorY, sprite);
        forall x, y | PixelOf(Model(), x, y) && !InDamage(display.dirty, x, y)
          ensures !InRect(damage, x, y) && display.Back(x, y) == old@drawn(display.Back(x, y))
        {
          HullCovers(Some(damage), box, x, y);
          CursorInItsRect(Model(), x, y, old@drawn(display.Back(x, y)));
        }
      }
    }

    method FlushFull()
      requires Valid() && fullRedraw
      modifies this, scene, display, display.back, display.front
      ensures Valid() && Flushed(old(View()), View())
    {
      ghost var d := Model();
      fullRedraw := false;
      sceneUpdate := false;
      pending := None;
      SameDeskSamePixels(d, Model());
      UpdateSceneFull();
      PresentRegion(Rect(0, 0, display.width, display.height));
    }

    method FlushDamage(damage: Rect)
      requires Valid() && !fullRedraw && pending == Some(damage)
      modifies this, scene, display, display.back, display.front
      ensures Valid() && Flushed(old(View()), View())
    {
      hide Ideal, Top, RegionPixel, UniqueIds;
      ghost var d := Model();
      pending := None;
      if sceneUpdate {
        sceneUpdate := false;
        SameDeskSamePixels(d, Model());
        UpdateSceneRegion(damage);
      }
      PresentRegion(damage);
    }

    /** Bring the screen up to date with everything pending. */
    method Flush()
      requires Valid()
      modifies this, scene, display, display.back, display.front
      ensures Valid() && Flushed(old(View()), View())
    {
      if fullRedraw {
        FlushFull();
      } else if pending.Some? {
        FlushDamage(pending.value);
      }
    }

    // --- Requests ---

    method HandleCreate(m: Message) returns (result: WindowResult, id: WindowId)
      requires Tabled() && m.CreateWindow?
      modifies this, windows, zOrder
      ensures Tabled() && Model() == Step(old(Model()), m)
      ensures result == if BadDimensions(m.width, m.height) then ErrorInvalidDimensions
                        else if Creates(old(Model()), m) then Ok else ErrorOutOfMemory
      ensures id == if result == Ok then old(nextId) else 0
    {
      if BadDimensions(m.width, m.height) {
        return ErrorInvalidDimensions, 0;
      }
      var slot := FindFreeSlot();
      if slot.None? {
        return ErrorOutOfMemory, 0;
      }
      id := nextId;
      nextId := nextId + 1;
      if m.bufferAvailable {
        var pixels := seq(m.width * m.height, _ => 0);
        RowBaseIsProduct(m.width, m.height);
        windows[slot.value] := Some(Window(id, m.x, m.y, m.width, m.height, pixels));
        PushZ(id);
        FullRedraw();
        return Ok, id;
      }
      return ErrorOutOfMemory, 0;
    }

    method HandleUpdate(m: Message)
      requires Tabled() && m.UpdateWindow?
      modifies this, windows
      ensures Tabled() && Model() == Step(old(Model()), m)
    {
      var slot := FindSlot(m.id);
      if slot.None? { return; }
      var w := windows[slot.value].value;
      windows[slot.value] := Some(w.(pixels := Stored(w.pixels, m.stores)));
      if m.dirtyX + m.dirtyW > w.width || m.dirtyY + m.dirtyH > w.height { return; }
      var rect := ScreenRect(display.width, display.height, w.x, w.y, w.width, w.height);
      if rect.Some? { AddDamage(rect.value); }
    }

    method HandleClose(id: WindowId)
      requires Tabled()
      modifies this, windows, zOrder
      ensures Tabled() && Model() == Step(old(Model()), CloseWindow(id))
    {
      hide ZRemove;
      var slot := FindSlot(id);
      if slot.None? { return; }
      windows[slot.value] := None;
      RemoveZ(id);
      FullRedraw();
    }

    method HandleMove(id: WindowId, x: int, y: int)
      requires Tabled()
      modifies this, windows
      ensures Tabled() && Model() == Step(old(Model()), MoveWindow(id, x, y))
    {
      var slot := FindSlot(id);
      if slot.None? { return; }
      var w := windows[slot.value].value;
      windows[slot.value] := Some(w.(x := x, y := y));
      var damage := ScreenRect(display.width, display.height, w.x, w.y, w.width, w.height);
      var target := ScreenRect(display.width, display.height, x, y, w.width, w.height);
      if target.Some? {
        match damage {
          case Some(d) =>
            var grown := Expand(d, target.value.x, target.value.y, target.value.w, target.value.h);
            damage := Some(grown);
          case None =>
            damage := target;
        }
      }
      if damage.Some? { AddDamage(damage.value); }
    }

    /** Dispatch one decoded request. */
    method ProcessMessage(m: Message)
      requires Valid()
      modifies this, windows, zOrder
      ensures Valid() && Model() == Step(old(Model()), m)
    {
      hide DeskOk, Create, Update, Close, Move;
      StepKeepsDesk(Model(), m);
      match m {
        case CreateWindow(_, _, _, _, _) =>
          var _, _ := HandleCreate(m);
        case UpdateWindow(_, _, _, _, _, _) =>
          HandleUpdate(m);
        case CloseWindow(id) =>
          HandleClose(id);
        case MoveWindow(id, x, y) =>
          HandleMove(id, x, y);
        case RaiseWindow(id) =>
          RaiseZ(id);
          FullRedraw();
        case LowerWindow(id) =>
          LowerZ(id);
          FullRedraw();
        case Malformed =>
      }
    }

    /** Apply one accumulated pointer movement. */
    method MoveCursor(dx: int, dy: int)
      requires Tabled()
      modifies this
      ensures Tabled() && Model() == MovePointer(old(Model()), dx, dy)
    {
      hide ScreenRect, Hull, Clamp;
      if dx != 0 || dy != 0 {
        var oldRect := ScreenRect(display.width, display.height, cursorX, cursorY, sprite.w, sprite.h);
        cursorX := Clamp(cursorX + dx, 0, display.width - 1);
        cursorY := Clamp(cursorY + dy, 0, display.height - 1);
        var newRect := ScreenRect(display.width, display.height, cursorX, cursorY, sprite.w, sprite.h);
        match (oldRect, newRect) {
          case (Some(a), Some(b)) =>
            var both := Expand(a, b.x, b.y, b.w, b.h);
            ExpandDamage(both);
          case (Some(a), None) =>
            ExpandDamage(a);
          case (None, Some(b)) =>
            ExpandDamage(b);
          case (None, None) =>
        }
      }
    }

    /** One turn of the event loop: drain the requests, move the pointer, flush. */
    method Turn(input: Input)
      requires Valid()
      modifies this, windows, zOrder, scene, display, display.back, display.front
      ensures Valid() && Frame(old(View()), input, View())
    {
      hide DeskOk, Flushed, Step, MovePointer;
      ghost var start := Model();
      for i := 0 to |input.requests|
        invariant Valid() && scene[..] == old(scene[..]) && display.front[..] == old(display.front[..])
        invariant Model() == Steps(start, input.requests[..i])
      {
        assert input.requests[..i + 1][..i] == input.requests[..i];
        ProcessMessage(input.requests[i]);
      }
      assert input.requests[..|input.requests|] == input.requests;
      PointerKeepsDesk(Model(), input.dx, input.dy);
      MoveCursor(input.dx, input.dy);
      Flush();
    }

    /** The event loop over any inputs: what it leaves in the buffers is a run. */
    method Serve(inputs: seq<Input>) returns (ghost states: seq<Screen>)
      requires Valid() && fullRedraw
      modifies this, windows, zOrder, scene, display, display.back, display.front
      ensures Valid() && Run(states, inputs) && states[0] == old(View()) && states[|inputs|] == View()
    {
      hide DeskOk, Flushed;
      states := [View()];
      for i := 0 to |inputs|
        invariant Valid() && |states| == i + 1 && states[0] == old(View()) && states[i] == View()
        invariant forall k :: 0 <= k < i ==> Frame(states[k], inputs[k], states[k + 1])
      {
        Turn(inputs[i]);
        states := states + [View()];
      }
    }
  }

  /** From the first screen on, every flush of the compositor shows the right screen, provided no flush for
      the pointer alone copies a wrong scene. */
  method RunCompositor(display: D.Display, background: seq<Pixel>, sprite: D.Sprite, inputs: seq<Input>)
    returns (c: Compositor, ghost states: seq<Screen>)
    requires display.Valid() && display.dirty == None && 0 < display.width && 0 < display.height
    requires Sized(background, display.width, display.height) && sprite.Valid()
    modifies display, display.back, display.front
    ensures c.Valid() && Run(states, inputs) && states[|inputs|] == c.View()
    ensures RunAnnounced(states, inputs) ==> (ShownUpTo(states, |inputs|) <==> SafeUpTo(states, inputs, |inputs|))
    ensures RunAnnounced(states, inputs) && BuriesNeverIn(states, inputs) ==> ShownUpTo(states, |inputs|)
  {
    c := new Compositor(display, background, sprite);
    states := c.Serve(inputs);
    hide Run, AllShown, PointerFlushSafe, BuriesNothing;
    if RunAnnounced(states, inputs) { RunShows(states, inputs); }
  }

  /** No region repaint of the run buries a window. */
  ghost predicate BuriesNeverIn(states: seq<Screen>, inputs: seq<Input>)
    requires Run(states, inputs)
  {
    forall i :: 0 <= i < |inputs| ==> BuriesNothing(Receive(states[i], inputs[i]).desk)
  }

  lemma RunShows(states: seq<Screen>, inputs: seq<Input>)
    requires Run(states, inputs) && RunAnnounced(states, inputs)
    ensures ShownUpTo(states, |inputs|) <==> SafeUpTo(states, inputs, |inputs|)
    ensures BuriesNeverIn(states, inputs) ==> ShownUpTo(states, |inputs|)
  {
    hide AllShown, PointerFlushSafe, BuriesNothing, Receive;
    EveryFlushShows(states, inputs, |inputs|);
    if BuriesNeverIn(states, inputs) {
      forall n | 0 < n <= |inputs| ensures AllShown(states[n]) { UnburiedRunShows(states, inputs, n); }
    }
  }
}
