/**
 The double-buffered display: drawing goes to the back buffer, `Present` copies the
 dirty rectangle to the front buffer.  Everything a caller sees is stated per pixel.
 */
module Display {
  import opened Wrappers
  import opened Rects
  import opened Framebuffer

  /** A two-layer cursor sprite; bit 15 of a row is its leftmost column. */
  datatype Sprite = Sprite(mask: seq<bv16>, image: seq<bv16>, w: nat, h: nat, black: Pixel, white: Pixel) {
    predicate Valid() {
      |mask| == h && |image| == h && w <= 16
    }
  }

  predicate Bit(row: bv16, col: int)
    requires 0 <= col < 16
  {
    (row >> (15 - col)) & 1 == 1
  }

  /** Column 0 is the top bit. */
  lemma TopBitIsColumnZero(col: int)
    requires 0 <= col < 16
    ensures Bit(0x8000, col) <==> col == 0
  {
  }

  /** Shifting a row left moves its columns one to the left; nothing comes in on the right. */
  lemma ShiftMovesColumns(row: bv16, col: int)
    requires 0 <= col < 16
    ensures Bit(row << 1, col) <==> col < 15 && Bit(row, col + 1)
  {
    match col
    case 0 => case 1 => case 2 => case 3 => case 4 => case 5 => case 6 => case 7 => case 8 => case 9 => case 10 =>
    case 11 => case 12 => case 13 => case 14 => case _ =>
  }

  /** Does the sprite with its hot spot at (cx, cy) have an opaque pixel at (x, y)? */
  predicate Opaque(s: Sprite, cx: int, cy: int, x: int, y: int)
    requires s.Valid()
  {
    cx <= x < cx + s.w && cy <= y < cy + s.h && Bit(s.mask[y - cy], x - cx)
  }

  function CursorOver(s: Sprite, cx: int, cy: int, x: int, y: int, under: Pixel): Pixel
    requires s.Valid()
  {
    if !Opaque(s, cx, cy, x, y) then under
    else if Bit(s.image[y - cy], x - cx) then s.white else s.black
  }

  /** The sprite pixel in a given row and column, over any pixel. */
  lemma SpritePixel(s: Sprite, cx: int, cy: int, row: nat, col: nat, under: Pixel)
    requires s.Valid() && row < s.h && col < s.w
    ensures CursorOver(s, cx, cy, cx + col, cy + row, under) ==
      (if !Bit(s.mask[row], col) then under else if Bit(s.image[row], col) then s.white else s.black)
  {
  }

  class Display {
    const width: nat
    const height: nat
    const back: array<Pixel>
    const front: array<Pixel>
    var dirty: Option<Rect>

    ghost predicate Valid()
      reads this, back, front
    {
      && back != front
      && Sized(back[..], width, height)
      && Sized(front[..], width, height)
      && (dirty.Some? ==> OnScreen(dirty.value, width, height))
    }

    ghost function Back(x: int, y: int): Pixel
      requires Valid() && 0 <= x < width && 0 <= y < height
      reads this, back, front
    {
      At(back[..], width, height, x, y)
    }

    ghost function Front(x: int, y: int): Pixel
      requires Valid() && 0 <= x < width && 0 <= y < height
      reads this, back, front
    {
      At(front[..], width, height, x, y)
    }

    /** Map a front buffer of unknown contents and allocate a back buffer for it. */
    constructor (width: nat, height: nat, front: array<Pixel>)
      requires front.Length == width * height
      ensures Valid() && this.width == width && this.height == height && this.front == front
      ensures dirty == None && fresh(back)
      ensures forall i :: 0 <= i < back.Length ==> back[i] == 0
    {
      this.width, this.height, this.front, this.dirty := width, height, front, None;
      this.back := new Pixel[width * height](_ => 0);
      RowBaseIsProduct(width, height);
    }

    method ExpandDirty(x: nat, y: nat, w: nat, h: nat)
      modifies `dirty
      ensures dirty == HullOption(old(dirty), Some(Rect(x, y, w, h)))
    {
      match dirty {
        case Some(d) =>
          var grown := Expand(d, x, y, w, h);
          dirty := Some(grown);
        case None =>
          dirty := Some(Rect(x, y, w, h));
      }
    }

    /** Copy exactly the dirty rectangle to the front buffer and forget it. */
    method Present()
      requires Valid()
      modifies front, `dirty
      ensures Valid() && dirty == None
      ensures forall x, y :: 0 <= x < width && 0 <= y < height ==>
        Front(x, y) == if InDamage(old(dirty), x, y) then Back(x, y) else old(Front(x, y))
    {
      if dirty.Some? {
        var d := dirty.value;
        dirty := None;
        ghost var before := front[..];
        for row := 0 to d.h
          invariant dirty == None && Valid() && back[..] == old(back[..])
          invariant forall x, y :: 0 <= x < width && 0 <= y < height ==>
            Front(x, y) == if InRect(d, x, y) && y < d.y + row then Back(x, y)
                           else At(before, width, height, x, y)
        {
          PresentRow(d.x, d.y + row, d.w);
        }
      }
    }

    method PresentRow(x0: nat, row: nat, w: nat)
      requires Valid() && x0 + w <= width && row < height
      modifies front
      ensures Valid()
      ensures forall x, y :: 0 <= x < width && 0 <= y < height ==>
        Front(x, y) == if y == row && x0 <= x < x0 + w then Back(x, y) else old(Front(x, y))
    {
      var offset := row * width + x0;
      RowBaseIsProduct(width, row);
      RowOrder(width, row, height);
      CopyIntoRow(back[..], offset, front, width, height, x0, row, w);
    }

    /** Draw a rectangle of raw pixels, clipped, and mark what was drawn as dirty. */
    method BlitRaw(src: seq<Pixel>, base: nat, srcWidth: nat, dx: int, dy: int, w: nat, h: nat)
      requires Valid() && HoldsRect(src, base, srcWidth, w, h)
      modifies back, `dirty
      ensures Valid()
      ensures Blitted(old(back[..]), back[..], width, height, src, base, srcWidth, dx, dy, w, h)
      ensures dirty == HullOption(old(dirty), ScreenRect(width, height, dx, dy, w, h))
    {
      BlitClipped(back, width, height, src, base, srcWidth, dx, dy, w, h);
      var x0, y0 := Max(dx, 0), Max(dy, 0);
      var x1, y1 := Min(Max(dx + w, 0), width), Min(Max(dy + h, 0), height);
      if x0 >= x1 || y0 >= y1 { return; }
      ExpandDirty(x0, y0, x1 - x0, y1 - y0);
    }

    /** Draw the cursor sprite over the back buffer and mark its visible bounding box dirty. */
    method BlitCursor(cx: int, cy: int, s: Sprite)
      requires Valid() && s.Valid()
      modifies back, `dirty
      ensures Valid()
      ensures forall x, y :: 0 <= x < width && 0 <= y < height ==>
        Back(x, y) == CursorOver(s, cx, cy, x, y, old(Back(x, y)))
      ensures dirty == HullOption(old(dirty), ScreenRect(width, height, cx, cy, s.w, s.h))
    {
      var x0, y0 := Max(cx, 0), Max(cy, 0);
      var x1, y1 := Min(Max(cx + s.w, 0), width), Min(Max(cy + s.h, 0), height);
      if x0 < x1 && y0 < y1 {
        ExpandDirty(x0, y0, x1 - x0, y1 - y0);
      }
      ghost var before := back[..];
      for row := 0 to s.h
        invariant Valid()
        invariant dirty == HullOption(old(dirty), ScreenRect(width, height, cx, cy, s.w, s.h))
        invariant forall x, y :: 0 <= x < width && 0 <= y < height ==>
          Back(x, y) == if y < cy + row then CursorOver(s, cx, cy, x, y, At(before, width, height, x, y))
                        else At(before, width, height, x, y)
      {
        var sy := cy + row;
        if sy < 0 || sy >= height { continue; }
        BlitCursorRow(cx, cy, s, row);
      }
    }

    /** One row of the sprite; masked pixels outside the screen are skipped. */
    method BlitCursorRow(cx: int, cy: int, s: Sprite, row: nat)
      requires Valid() && s.Valid() && row < s.h && 0 <= cy + row < height
      modifies back
      ensures Valid()
      ensures forall x, y :: 0 <= x < width && 0 <= y < height ==>
        Back(x, y) == if y == cy + row then CursorOver(s, cx, cy, x, y, old(Back(x, y))) else old(Back(x, y))
    {
      ghost var before := back[..];
      for col := 0 to s.w
        invariant Valid()
        invariant forall x, y :: 0 <= x < width && 0 <= y < height ==>
          Back(x, y) == if y == cy + row && x < cx + col
                        then CursorOver(s, cx, cy, x, y, At(before, width, height, x, y))
                        else At(before, width, height, x, y)
      {
        hide CursorOver;
        BlitCursorPixel(cx, cy, s, row, col);
      }
    }

    method BlitCursorPixel(cx: int, cy: int, s: Sprite, row: nat, col: nat)
      requires Valid() && s.Valid() && row < s.h && col < s.w && 0 <= cy + row < height
      modifies back
      ensures Valid()
      ensures forall x, y :: 0 <= x < width && 0 <= y < height ==>
        Back(x, y) == if y == cy + row && x == cx + col then CursorOver(s, cx, cy, x, y, old(Back(x, y)))
                      else old(Back(x, y))
    {
      hide Bit, Opaque, CursorOver;
      var sx := cx + col;
      if 0 <= sx < width { SpritePixel(s, cx, cy, row, col, Back(sx, cy + row)); }
      if !Bit(s.mask[row], col) { return; }
      if sx < 0 || sx >= width { return; }
      Plot(sx, cy + row, if Bit(s.image[row], col) then s.white else s.black);
    }

    method Plot(sx: nat, sy: nat, pixel: Pixel)
      requires Valid() && sx < width && sy < height
      modifies back
      ensures Valid()
      ensures forall x, y :: 0 <= x < width && 0 <= y < height ==>
        Back(x, y) == if x == sx && y == sy then pixel else old(Back(x, y))
    {
      var off := sy * width + sx;
      RowBaseIsProduct(width, sy);
      PixelInBuffer(width, height, sx, sy);
      ghost var prev := back[..];
      back[off] := pixel;
      forall x, y | 0 <= x < width && 0 <= y < height
        ensures Back(x, y) == if x == sx && y == sy then pixel else At(prev, width, height, x, y)
      {
        PixelInRun(width, x, y, sy, sx, 1);
        PixelInBuffer(width, height, x, y);
      }
    }
  }
}
