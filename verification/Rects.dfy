/**
 Damage rectangles: the `DirtyRect` the display server accumulates damage in.
 A rectangle is the half-open pixel region [x, x+w) x [y, y+h).
 */
module Rects {
  import opened Wrappers

  datatype Rect = Rect(x: nat, y: nat, w: nat, h: nat)

  predicate InRect(r: Rect, px: int, py: int) {
    r.x <= px < r.x + r.w && r.y <= py < r.y + r.h
  }

  predicate InDamage(damage: Option<Rect>, px: int, py: int) {
    damage.Some? && InRect(damage.value, px, py)
  }

  /** Non-empty and wholly on a screen of the given size. */
  predicate OnScreen(r: Rect, width: nat, height: nat) {
    0 < r.w && 0 < r.h && r.x + r.w <= width && r.y + r.h <= height
  }

  predicate Encloses(outer: Rect, inner: Rect) {
    && outer.x <= inner.x && inner.x + inner.w <= outer.x + outer.w
    && outer.y <= inner.y && inner.y + inner.h <= outer.y + outer.h
  }

  /** The bounding box, given by its corners. */
  function Hull(a: Rect, b: Rect): Rect {
    var left, top := Min(a.x, b.x), Min(a.y, b.y);
    var right, bottom := Max(a.x + a.w, b.x + b.w), Max(a.y + a.h, b.y + b.h);
    Rect(left, top, right - left, bottom - top)
  }

  function HullOption(a: Option<Rect>, b: Option<Rect>): Option<Rect> {
    match (a, b)
    case (Some(r), Some(s)) => Some(Hull(r, s))
    case (Some(_), None) => a
    case (None, _) => b
  }

  /** `Hull` is the least rectangle around both arguments. */
  lemma HullIsLeast(a: Rect, b: Rect, c: Rect)
    ensures Encloses(Hull(a, b), a) && Encloses(Hull(a, b), b)
    ensures Encloses(c, a) && Encloses(c, b) <==> Encloses(c, Hull(a, b))
    ensures Hull(a, b) == Hull(b, a)
    ensures Encloses(a, b) ==> Hull(a, b) == a
  {
  }

  /** The in-place growth of a damage rectangle, one field at a time. */
  method Expand(d: Rect, x: nat, y: nat, w: nat, h: nat) returns (r: Rect)
    ensures r == Hull(d, Rect(x, y, w, h))
    ensures Encloses(r, d) && Encloses(r, Rect(x, y, w, h))
    ensures forall c :: Encloses(c, d) && Encloses(c, Rect(x, y, w, h)) ==> Encloses(c, r)
  {
    r := d;
    var x2 := r.x + r.w;
    var y2 := r.y + r.h;
    var newX2 := Max(x + w, x2);
    var newY2 := Max(y + h, y2);
    r := r.(x := Min(r.x, x));
    r := r.(y := Min(r.y, y));
    r := r.(w := newX2 - r.x);
    r := r.(h := newY2 - r.y);
  }

  /** The visible part of a rectangle placed at (x, y), if any part is visible. */
  function ScreenRect(width: nat, height: nat, x: int, y: int, w: nat, h: nat): (r: Option<Rect>)
    ensures r.Some? ==> OnScreen(r.value, width, height)
  {
    var x0, y0 := Max(x, 0), Max(y, 0);
    var x1, y1 := Min(Max(x + w, 0), width), Min(Max(y + h, 0), height);
    if x0 < x1 && y0 < y1 then Some(Rect(x0, y0, x1 - x0, y1 - y0)) else None
  }

  /** Clipping loses no pixel of the screen and adds none. */
  lemma ScreenRectIsExact(width: nat, height: nat, x: int, y: int, w: nat, h: nat, px: int, py: int)
    requires 0 <= px < width && 0 <= py < height
    ensures InDamage(ScreenRect(width, height, x, y, w, h), px, py) <==> x <= px < x + w && y <= py < y + h
  {
  }

  /** What is on the screen is not clipped. */
  lemma OnScreenIsWhole(width: nat, height: nat, r: Rect)
    requires OnScreen(r, width, height)
    ensures ScreenRect(width, height, r.x, r.y, r.w, r.h) == Some(r)
  {
  }

  lemma HullCovers(a: Option<Rect>, b: Option<Rect>, x: int, y: int)
    ensures InDamage(a, x, y) || InDamage(b, x, y) ==> InDamage(HullOption(a, b), x, y)
  {
  }

  lemma HullOnScreen(a: Option<Rect>, b: Option<Rect>, width: nat, height: nat)
    requires a.Some? ==> OnScreen(a.value, width, height)
    requires b.Some? ==> OnScreen(b.value, width, height)
    ensures HullOption(a, b).Some? ==> OnScreen(HullOption(a, b).value, width, height)
  {
  }
}
