/**
 What recomposing a damaged region does to the scene buffer, what a flush then puts on the
 screen, and the whole-run theorem: after every flush the front buffer shows the cursor over
 the ideal scene at every pixel.
 */
module Scene {
  import opened Wrappers
  import opened Rects
  import opened Framebuffer
  import opened Display
  import opened ZOrder
  import opened Desk

  // --- Region repaint against full recomposition ---

  predicate Overlaps(w: Window, damage: Rect) {
    && w.x < damage.x + damage.w && damage.x < w.x + w.width
    && w.y < damage.y + damage.h && damage.y < w.y + w.height
  }

  /** A window is repainted exactly if it has a pixel in the damage. */
  lemma OverlapsIsExact(w: Window, damage: Rect)
    requires 0 < w.width && 0 < w.height && 0 < damage.w && 0 < damage.h
    ensures Overlaps(w, damage) <==> exists x, y :: InRect(damage, x, y) && Covers(w, x, y)
  {
    if Overlaps(w, damage) {
      var x, y := Max(w.x, damage.x), Max(w.y, damage.y);
      assert InRect(damage, x, y) && Covers(w, x, y);
    }
  }

  /** The windows a region repaint draws: each whole, not only its damaged part. */
  ghost function Repainted(damage: Rect): Window -> bool {
    w => Overlaps(w, damage)
  }

  ghost predicate PixelOf(d: Desk, x: int, y: int) {
    0 <= x < d.width && 0 <= y < d.height
  }

  /** The scene after repainting `damage` over `scene`. */
  ghost function RegionPixel(d: Desk, damage: Rect, scene: seq<Pixel>, x: int, y: int): Pixel
    requires DeskOk(d) && Sized(scene, d.width, d.height) && PixelOf(d, x, y)
  {
    var w := Top(d.z, d.windows, Repainted(damage), x, y);
    if w.Some? then WindowPixel(w.value, x, y)
    else if InRect(damage, x, y) then At(d.background, d.width, d.height, x, y)
    else At(scene, d.width, d.height, x, y)
  }

  /** Some repainted window covers the pixel although the topmost window there is not repainted. */
  ghost predicate Buried(d: Desk, damage: Rect, x: int, y: int)
    requires DeskOk(d)
  {
    var drawn, top := Top(d.z, d.windows, Repainted(damage), x, y), Top(d.z, d.windows, Everything, x, y);
    drawn.Some? && top.Some? && !Overlaps(top.value, damage)
  }

  /** A window through the filter is also a window: where something repainted shows, something shows. */
  lemma {:induction false} TopFiltered(z: seq<WindowId>, t: Table, damage: Rect, x: int, y: int)
    requires TableOk(t)
    ensures var all, some := Top(z, t, Everything, x, y), Top(z, t, Repainted(damage), x, y);
      && (some.Some? ==> all.Some?)
      && (all.Some? && Overlaps(all.value, damage) ==> some == all)
  {
    if z != [] { TopFiltered(z[..|z| - 1], t, damage, x, y); }
  }

  /** Inside the damage a region repaint gives what full recomposition would; outside, a pixel comes
      out right when it was right before or is repainted, unless a window is buried there. */
  lemma RegionRefinesFull(d: Desk, damage: Rect, scene: seq<Pixel>, x: int, y: int)
    requires DeskOk(d) && Sized(scene, d.width, d.height) && PixelOf(d, x, y)
    ensures InRect(damage, x, y) ==> RegionPixel(d, damage, scene, x, y) == Ideal(d, x, y) && !Buried(d, damage, x, y)
    ensures At(scene, d.width, d.height, x, y) == Ideal(d, x, y) && !Buried(d, damage, x, y)
      ==> RegionPixel(d, damage, scene, x, y) == Ideal(d, x, y)
  {
    TopFiltered(d.z, d.windows, damage, x, y);
  }

  /** Exactly when a region repaint leaves a pixel right: a buried pixel gets the colour of the lower
      window, any other is right if it was right, is damaged, or is repainted. */
  lemma RegionPixelIsRight(d: Desk, damage: Rect, scene: seq<Pixel>, x: int, y: int)
    requires DeskOk(d) && Sized(scene, d.width, d.height) && PixelOf(d, x, y)
    ensures var top, drawn := Top(d.z, d.windows, Everything, x, y), Top(d.z, d.windows, Repainted(damage), x, y);
      RegionPixel(d, damage, scene, x, y) == Ideal(d, x, y) <==>
        if Buried(d, damage, x, y) then WindowPixel(drawn.value, x, y) == WindowPixel(top.value, x, y)
        else InRect(damage, x, y) || drawn.Some? || At(scene, d.width, d.height, x, y) == Ideal(d, x, y)
  {
    TopFiltered(d.z, d.windows, damage, x, y);
  }

  // --- The pixel buffers over a run ---

  /** The state between two frames: the scene cache and the front buffer beside the desk they show. */
  datatype Screen = Screen(desk: Desk, scene: seq<Pixel>, front: seq<Pixel>)

  ghost predicate ScreenOk(s: Screen) {
    && DeskOk(s.desk)
    && Sized(s.scene, s.desk.width, s.desk.height)
    && Sized(s.front, s.desk.width, s.desk.height)
  }

  ghost function SceneAt(s: Screen, x: int, y: int): Pixel
    requires ScreenOk(s) && PixelOf(s.desk, x, y)
  {
    At(s.scene, s.desk.width, s.desk.height, x, y)
  }

  ghost function FrontAt(s: Screen, x: int, y: int): Pixel
    requires ScreenOk(s) && PixelOf(s.desk, x, y)
  {
    At(s.front, s.desk.width, s.desk.height, x, y)
  }

  function FlushRect(d: Desk): Option<Rect> {
    if d.fullRedraw then Some(Rect(0, 0, d.width, d.height)) else d.pending
  }

  function Cleared(d: Desk): Desk {
    d.(pending := None, sceneUpdate := false, fullRedraw := false)
  }

  ghost function SceneAfter(s: Screen, x: int, y: int): Pixel
    requires ScreenOk(s) && PixelOf(s.desk, x, y)
  {
    var d := s.desk;
    if d.fullRedraw then Ideal(d, x, y)
    else if d.pending.Some? && d.sceneUpdate then RegionPixel(d, d.pending.value, s.scene, x, y)
    else SceneAt(s, x, y)
  }

  predicate CursorTouches(d: Desk, damage: Rect) {
    var box := CursorRect(d);
    box.Some? && box.value.x < damage.x + damage.w && damage.x < box.value.x + box.value.w
    && box.value.y < damage.y + damage.h && damage.y < box.value.y + box.value.h
  }

  /** The cursor is drawn again exactly if its visible box has a pixel in the damage. */
  lemma TouchesIsExact(d: Desk, damage: Rect)
    requires 0 < damage.w && 0 < damage.h
    ensures CursorTouches(d, damage) <==> exists x, y :: InRect(damage, x, y) && InDamage(CursorRect(d), x, y)
  {
    if CursorTouches(d, damage) {
      var box := CursorRect(d).value;
      var x, y := Max(box.x, damage.x), Max(box.y, damage.y);
      assert InRect(damage, x, y) && InRect(box, x, y);
    }
  }

  ghost function WithCursor(d: Desk, x: int, y: int, under: Pixel): Pixel
    requires d.sprite.Valid()
  {
    CursorOver(d.sprite, d.cursorX, d.cursorY, x, y, under)
  }

  ghost function FrontAfter(s: Screen, x: int, y: int): Pixel
    requires ScreenOk(s) && PixelOf(s.desk, x, y)
  {
    match FlushRect(s.desk)
    case None => FrontAt(s, x, y)
    case Some(damage) =>
      var drawn := if InRect(damage, x, y) then SceneAfter(s, x, y) else FrontAt(s, x, y);
      if CursorTouches(s.desk, damage) then WithCursor(s.desk, x, y, drawn) else drawn
  }

  /** One flush, pixel by pixel. */
  ghost predicate Flushed(s: Screen, s': Screen)
    requires ScreenOk(s)
  {
    && s'.desk == Cleared(s.desk)
    && Sized(s'.scene, s.desk.width, s.desk.height)
    && Sized(s'.front, s.desk.width, s.desk.height)
    && forall x, y :: PixelOf(s.desk, x, y) ==>
         SceneAt(s', x, y) == SceneAfter(s, x, y) && FrontAt(s', x, y) == FrontAfter(s, x, y)
  }

  /** The front buffer shows the cursor over the ideal scene wherever no repaint is due. */
  ghost predicate FrontFresh(s: Screen)
    requires ScreenOk(s)
  {
    forall x, y :: PixelOf(s.desk, x, y) && !Covered(s.desk, x, y) ==> FrontAt(s, x, y) == Shown(s.desk, x, y)
  }

  /** The scene buffer is the ideal scene wherever no recomposition is due. */
  ghost predicate SceneFresh(s: Screen)
    requires ScreenOk(s)
  {
    forall x, y :: PixelOf(s.desk, x, y) && !SceneDue(s.desk, x, y) ==> SceneAt(s, x, y) == Ideal(s.desk, x, y)
  }

  ghost predicate AllShown(s: Screen) {
    ScreenOk(s) && forall x, y :: PixelOf(s.desk, x, y) ==> FrontAt(s, x, y) == Shown(s.desk, x, y)
  }

  /** The scene is right at every damaged pixel the cursor does not hide. */
  ghost predicate SceneRightUnderDamage(s: Screen)
    requires ScreenOk(s)
  {
    forall x, y :: PixelOf(s.desk, x, y) && Covered(s.desk, x, y)
        && !Opaque(s.desk.sprite, s.desk.cursorX, s.desk.cursorY, x, y)
      ==> SceneAt(s, x, y) == Ideal(s.desk, x, y)
  }

  lemma ClearedMeansTheSame(d: Desk, x: int, y: int)
    requires DeskOk(d) && PixelOf(d, x, y)
    ensures DeskOk(Cleared(d)) && Ideal(Cleared(d), x, y) == Ideal(d, x, y) && Shown(Cleared(d), x, y) == Shown(d, x, y)
  {
  }

  /** A pixel of the damage the cursor box does not touch is not under the cursor. */
  lemma CursorAway(d: Desk, damage: Rect, x: int, y: int, under: Pixel)
    requires DeskOk(d) && PixelOf(d, x, y) && InRect(damage, x, y) && !CursorTouches(d, damage)
    ensures WithCursor(d, x, y, under) == under
  {
  }

  lemma FlushPixel(s: Screen, s': Screen, x: int, y: int)
    requires ScreenOk(s) && FrontFresh(s) && Flushed(s, s') && PixelOf(s.desk, x, y)
    ensures ScreenOk(s')
    ensures Covered(s.desk, x, y) ==> FrontAt(s', x, y) == WithCursor(s.desk, x, y, SceneAfter(s, x, y))
    ensures !Covered(s.desk, x, y) ==> FrontAt(s', x, y) == Shown(s.desk, x, y)
    ensures SceneDue(s.desk, x, y) ==> SceneAfter(s, x, y) == Ideal(s.desk, x, y)
  {
    var region := FlushRect(s.desk);
    if region.Some? {
      var damage := region.value;
      if InRect(damage, x, y) && !CursorTouches(s.desk, damage) {
        CursorAway(s.desk, damage, x, y, SceneAfter(s, x, y));
      }
      if InRect(damage, x, y) { RegionRefinesFull(s.desk, damage, s.scene, x, y); }
    }
  }

  /** A flush that recomposes the scene makes every pixel of the screen right; a flush for pointer
      movement alone does so exactly when the scene was right at the damaged pixels the cursor leaves visible. */
  lemma FlushShows(s: Screen, s': Screen)
    requires ScreenOk(s) && FrontFresh(s) && Flushed(s, s')
    ensures s.desk.sceneUpdate ==> AllShown(s')
    ensures !s.desk.sceneUpdate ==> (AllShown(s') <==> SceneRightUnderDamage(s))
  {
    assert ScreenOk(s') by { FlushPixel(s, s', 0, 0); }
    forall x, y | PixelOf(s.desk, x, y)
      ensures FrontAt(s', x, y) == Shown(s'.desk, x, y) <==>
        (!Covered(s.desk, x, y) || Opaque(s.desk.sprite, s.desk.cursorX, s.desk.cursorY, x, y)
         || SceneAfter(s, x, y) == Ideal(s.desk, x, y))
      ensures s.desk.sceneUpdate ==> FrontAt(s', x, y) == Shown(s'.desk, x, y)
    {
      FlushPixel(s, s', x, y);
      ClearedMeansTheSame(s.desk, x, y);
    }
  }

  /** A region repaint that buries no window leaves the whole scene right, if it was right
      wherever it was not going to be repainted. */
  lemma FlushKeepsScene(s: Screen, s': Screen)
    requires ScreenOk(s) && SceneFresh(s) && Flushed(s, s') && BuriesNothing(s.desk)
    ensures ScreenOk(s') && SceneFresh(s')
  {
    assert ScreenOk(s');
    forall x, y | PixelOf(s'.desk, x, y) ensures SceneAt(s', x, y) == Ideal(s'.desk, x, y) {
      ClearedMeansTheSame(s.desk, x, y);
      if s.desk.pending.Some? {
        RegionRefinesFull(s.desk, s.desk.pending.value, s.scene, x, y);
      }
    }
  }

  ghost predicate BuriesNothing(d: Desk) {
    && DeskOk(d)
    && (!d.fullRedraw && d.sceneUpdate && d.pending.Some? ==>
          forall x, y :: PixelOf(d, x, y) && !InRect(d.pending.value, x, y) ==> !Buried(d, d.pending.value, x, y))
  }

  // --- Whole runs ---

  /** What arrives between two flushes: a batch of requests, then one accumulated pointer movement. */
  datatype Input = Input(requests: seq<Message>, dx: int, dy: int)

  ghost function Receive(s: Screen, i: Input): Screen {
    s.(desk := MovePointer(Steps(s.desk, i.requests), i.dx, i.dy))
  }

  /** Every update among the requests announces what it changes. */
  ghost predicate InputAnnounced(s: Screen, i: Input) {
    DeskOk(s.desk) && AllAnnounced(s.desk, i.requests)
  }

  lemma ReceiveKeepsScreen(s: Screen, i: Input)
    requires ScreenOk(s)
    ensures ScreenOk(Receive(s, i))
  {
    BatchDamageSound(s.desk, i.requests, i.dx, i.dy);
  }

  /** Announced input keeps both caches right wherever they are not going to be refreshed. */
  lemma ReceiveKeepsFresh(s: Screen, i: Input)
    requires ScreenOk(s) && InputAnnounced(s, i)
    ensures ScreenOk(Receive(s, i))
    ensures FrontFresh(s) ==> FrontFresh(Receive(s, i))
    ensures SceneFresh(s) ==> SceneFresh(Receive(s, i))
  {
    var s1 := Receive(s, i);
    BatchDamageSound(s.desk, i.requests, i.dx, i.dy);
    forall x, y | PixelOf(s1.desk, x, y) ensures PixelSound(s.desk, s1.desk, x, y) {}
  }

  /** `states` is a run of the event loop over `inputs`, one flush per input. */
  ghost predicate Run(states: seq<Screen>, inputs: seq<Input>) {
    && |states| == |inputs| + 1
    && ScreenOk(states[0]) && states[0].desk.fullRedraw
    && forall i :: 0 <= i < |inputs| ==> Frame(states[i], inputs[i], states[i + 1])
  }

  ghost predicate Frame(s: Screen, i: Input, s': Screen) {
    ScreenOk(s) && ScreenOk(Receive(s, i)) && Flushed(Receive(s, i), s')
  }

  /** Every due screen can be flushed. */
  lemma FlushExists(s: Screen) returns (s': Screen)
    requires ScreenOk(s)
    ensures Flushed(s, s') && ScreenOk(s')
  {
    var d := s.desk;
    var scene := (x: int, y: int) => if PixelOf(d, x, y) then SceneAfter(s, x, y) else 0;
    var front := (x: int, y: int) => if PixelOf(d, x, y) then FrontAfter(s, x, y) else 0;
    s' := Screen(Cleared(d), Painted(d.width, d.height, scene), Painted(d.width, d.height, front));
    ClearedMeansTheSame(d, 0, 0);
    forall x, y | PixelOf(d, x, y)
      ensures SceneAt(s', x, y) == SceneAfter(s, x, y) && FrontAt(s', x, y) == FrontAfter(s, x, y)
    {
      PaintedAt(d.width, d.height, scene, x, y);
      PaintedAt(d.width, d.height, front, x, y);
    }
  }

  /** Every sequence of inputs has a run. */
  lemma {:induction false} RunExists(s: Screen, inputs: seq<Input>) returns (states: seq<Screen>)
    requires ScreenOk(s) && s.desk.fullRedraw
    ensures Run(states, inputs) && states[0] == s && ScreenOk(states[|inputs|])
  {
    if inputs == [] { return [s]; }
    var n := |inputs| - 1;
    var before := RunExists(s, inputs[..n]);
    var last := inputs[n];
    ReceiveKeepsScreen(before[n], last);
    var next := FlushExists(Receive(before[n], last));
    states := before + [next];
    forall i | 0 <= i < |inputs| ensures Frame(states[i], inputs[i], states[i + 1]) {
      if i < n { assert inputs[..n][i] == inputs[i] && Frame(before[i], inputs[i], before[i + 1]); }
    }
  }

  /** A flush without recomposition finds the scene right where it copies it. */
  ghost predicate PointerFlushSafe(s: Screen) {
    ScreenOk(s) && (!s.desk.sceneUpdate ==> SceneRightUnderDamage(s))
  }

  /** Every update of the run announces what it changes. */
  ghost predicate RunAnnounced(states: seq<Screen>, inputs: seq<Input>)
    requires Run(states, inputs)
  {
    forall i :: 0 <= i < |inputs| ==> InputAnnounced(states[i], inputs[i])
  }

  /** The first `n` flushes of the run copy no wrong pixel. */
  ghost predicate SafeUpTo(states: seq<Screen>, inputs: seq<Input>, n: nat)
    requires Run(states, inputs) && n <= |inputs|
  {
    forall i :: 0 <= i < n ==> PointerFlushSafe(Receive(states[i], inputs[i]))
  }

  /** The first `n` flushes of the run leave the screen right everywhere. */
  ghost predicate ShownUpTo(states: seq<Screen>, n: nat)
    requires n < |states|
  {
    forall k :: 0 < k <= n ==> AllShown(states[k])
  }

  /** Between two frames nothing is due, and before the first frame everything is. */
  lemma {:induction false} FrontFreshBetween(states: seq<Screen>, inputs: seq<Input>, n: nat)
    requires Run(states, inputs) && n < |states| && (n > 0 ==> AllShown(states[n]))
    ensures ScreenOk(states[n]) && FrontFresh(states[n])
  {
    if n > 0 { assert Frame(states[n - 1], inputs[n - 1], states[n]); }
  }

  /** In any announced run, flushes leave the screen right everywhere if and only if none of them
      copied a scene that was wrong under the pointer. */
  lemma {:induction false} EveryFlushShows(states: seq<Screen>, inputs: seq<Input>, n: nat)
    requires Run(states, inputs) && RunAnnounced(states, inputs) && n < |states|
    ensures ShownUpTo(states, n) <==> SafeUpTo(states, inputs, n)
  {
    if n > 0 {
      EveryFlushShows(states, inputs, n - 1);
      if ShownUpTo(states, n - 1) {
        LastFlushShows(states, inputs, n);
      }
    }
  }

  lemma LastFlushShows(states: seq<Screen>, inputs: seq<Input>, n: nat)
    requires Run(states, inputs) && RunAnnounced(states, inputs) && 0 < n < |states| && ShownUpTo(states, n - 1)
    ensures AllShown(states[n]) <==> PointerFlushSafe(Receive(states[n - 1], inputs[n - 1]))
  {
    var s, i := states[n - 1], inputs[n - 1];
    assert Frame(s, i, states[n]) && InputAnnounced(s, i);
    FrontFreshBetween(states, inputs, n - 1);
    ReceiveKeepsFresh(s, i);
    FlushShows(Receive(s, i), states[n]);
  }

  /** An announced run in which no region repaint buries a window keeps scene and screen right after every flush. */
  lemma {:induction false} UnburiedRunShows(states: seq<Screen>, inputs: seq<Input>, n: nat)
    requires Run(states, inputs) && RunAnnounced(states, inputs) && n < |states|
    requires forall i :: 0 <= i < |inputs| ==> BuriesNothing(Receive(states[i], inputs[i]).desk)
    ensures ScreenOk(states[n]) && FrontFresh(states[n]) && SceneFresh(states[n])
    ensures n > 0 ==> AllShown(states[n])
  {
    if n > 0 {
      UnburiedRunShows(states, inputs, n - 1);
      assert Frame(states[n - 1], inputs[n - 1], states[n]);
      assert InputAnnounced(states[n - 1], inputs[n - 1]);
      var s := Receive(states[n - 1], inputs[n - 1]);
      ReceiveKeepsFresh(states[n - 1], inputs[n - 1]);
      FlushShows(s, states[n]);
      FlushKeepsScene(s, states[n]);
    }
  }
}
