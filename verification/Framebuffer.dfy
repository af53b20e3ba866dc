/**
 Flat pixel buffers addressed by row and column, and the row-by-row copies that
 fill them.  `RowBase(w, y)` is the product `y * w`, unrolled so that proofs about
 pixel addresses stay linear.
 */
module Framebuffer {
  import opened Wrappers

  type Pixel = p: int | 0 <= p < 0x1_0000_0000

  function RowBase(w: nat, y: nat): nat {
    if y == 0 then 0 else RowBase(w, y - 1) + w
  }

  lemma {:induction false} RowBaseIsProduct(w: nat, y: nat)
    ensures RowBase(w, y) == y * w
  {
    if y > 0 {
      RowBaseIsProduct(w, y - 1);
      assert (y - 1) * w + w == y * w;
    }
  }

  lemma {:induction false} RowsAdd(w: nat, a: nat, b: nat)
    ensures RowBase(w, a + b) == RowBase(w, a) + RowBase(w, b)
  {
    if b > 0 { RowsAdd(w, a, b - 1); }
  }

  /** Distinct rows occupy disjoint address ranges, in order. */
  lemma {:induction false} RowOrder(w: nat, upper: nat, lower: nat)
    requires upper < lower
    ensures RowBase(w, upper) + w <= RowBase(w, lower)
  {
    if upper + 1 < lower { RowOrder(w, upper, lower - 1); }
  }

  lemma PixelInBuffer(w: nat, h: nat, x: nat, y: nat)
    requires x < w && y < h
    ensures RowBase(w, y) + x < RowBase(w, h)
  {
  }

  /** Which pixels a run of `n` addresses inside one row covers. */
  lemma PixelInRun(w: nat, x: nat, y: nat, row: nat, x0: nat, n: nat)
    requires x < w && x0 + n <= w
    ensures RowBase(w, row) + x0 <= RowBase(w, y) + x < RowBase(w, row) + x0 + n
      <==> y == row && x0 <= x < x0 + n
  {
  }

  ghost predicate Sized(buf: seq<Pixel>, w: nat, h: nat) {
    |buf| == RowBase(w, h)
  }

  ghost function At(buf: seq<Pixel>, w: nat, h: nat, x: int, y: int): Pixel
    requires Sized(buf, w, h) && 0 <= x < w && 0 <= y < h
  {
    PixelInBuffer(w, h, x, y);
    buf[RowBase(w, y) + x]
  }

  /** The buffer whose pixel at (x, y) is f(x, y), row after row. */
  ghost function Painted(w: nat, h: nat, f: (int, int) -> Pixel): (r: seq<Pixel>)
    ensures Sized(r, w, h)
  {
    if h == 0 then [] else Painted(w, h - 1, f) + seq(w, x => f(x, h - 1))
  }

  lemma {:induction false} PaintedAt(w: nat, h: nat, f: (int, int) -> Pixel, x: nat, y: nat)
    requires x < w && y < h
    ensures At(Painted(w, h, f), w, h, x, y) == f(x, y)
  {
    if y < h - 1 {
      PaintedAt(w, h - 1, f, x, y);
      PixelInBuffer(w, h - 1, x, y);
    }
  }

  lemma {:induction false} PixelOfIndex(w: nat, h: nat, i: nat) returns (x: nat, y: nat)
    requires i < RowBase(w, h)
    ensures x < w && y < h && i == RowBase(w, y) + x
  {
    if i < RowBase(w, h - 1) {
      x, y := PixelOfIndex(w, h - 1, i);
    } else {
      x, y := i - RowBase(w, h - 1), h - 1;
    }
  }

  /** Buffers that agree at every pixel are equal. */
  lemma SamePixelsSameBuffer(a: seq<Pixel>, b: seq<Pixel>, w: nat, h: nat)
    requires Sized(a, w, h) && Sized(b, w, h)
    requires forall x, y :: 0 <= x < w && 0 <= y < h ==> At(a, w, h, x, y) == At(b, w, h, x, y)
    ensures a == b
  {
    forall i | 0 <= i < |a| ensures a[i] == b[i] {
      var x, y := PixelOfIndex(w, h, i);
      assert At(a, w, h, x, y) == At(b, w, h, x, y);
    }
  }

  /** `after` is `before` with the w x h rectangle at (dx, dy) of `src` drawn into it, clipped. */
  ghost predicate Blitted(before: seq<Pixel>, after: seq<Pixel>, sw: nat, sh: nat, src: seq<Pixel>, base: nat,
                          srcWidth: nat, dx: int, dy: int, w: nat, h: nat)
    requires Sized(before, sw, sh) && HoldsRect(src, base, srcWidth, w, h)
  {
    && Sized(after, sw, sh)
    && forall x, y :: 0 <= x < sw && 0 <= y < sh ==>
         At(after, sw, sh, x, y) ==
         if dx <= x < dx + w && dy <= y < dy + h then SourceAt(src, base, srcWidth, w, h, x - dx, y - dy)
         else At(before, sw, sh, x, y)
  }

  /** The memory a blit may read: h rows of w pixels, `srcWidth` apart, from `base` on. */
  ghost predicate HoldsRect(src: seq<Pixel>, base: nat, srcWidth: nat, w: nat, h: nat) {
    0 < w && 0 < h ==> w <= srcWidth && base + RowBase(srcWidth, h - 1) + w <= |src|
  }

  ghost function SourceAt(src: seq<Pixel>, base: nat, srcWidth: nat, w: nat, h: nat, x: int, y: int): Pixel
    requires HoldsRect(src, base, srcWidth, w, h) && 0 <= x < w && 0 <= y < h
  {
    SourceInBounds(src, base, srcWidth, w, h, y);
    src[base + RowBase(srcWidth, y) + x]
  }

  lemma SourceInBounds(src: seq<Pixel>, base: nat, srcWidth: nat, w: nat, h: nat, y: nat)
    requires HoldsRect(src, base, srcWidth, w, h) && 0 < w && y < h
    ensures base + RowBase(srcWidth, y) + w <= |src|
  {
    if y < h - 1 { RowOrder(srcWidth, y, h - 1); }
  }

  /** Copy n pixels, as a memory copy between two buffers that do not overlap. */
  method CopyPixels(src: seq<Pixel>, srcOff: nat, dst: array<Pixel>, dstOff: nat, n: nat)
    requires srcOff + n <= |src| && dstOff + n <= dst.Length
    modifies dst
    ensures forall i :: 0 <= i < dst.Length ==>
      dst[i] == if dstOff <= i < dstOff + n then src[srcOff + (i - dstOff)] else old(dst[i])
  {
    for k := 0 to n
      invariant forall i :: 0 <= i < dst.Length ==>
        dst[i] == if dstOff <= i < dstOff + k then src[srcOff + (i - dstOff)] else old(dst[i])
    {
      dst[dstOff + k] := src[srcOff + k];
    }
  }

  /** Copy n pixels into columns x0.. of one row of a buffer. */
  method CopyIntoRow(src: seq<Pixel>, srcOff: nat, dst: array<Pixel>, sw: nat, sh: nat, x0: nat, row: nat, n: nat)
    requires Sized(dst[..], sw, sh) && x0 + n <= sw && row < sh && srcOff + n <= |src|
    modifies dst
    ensures Sized(dst[..], sw, sh)
    ensures forall x, y :: 0 <= x < sw && 0 <= y < sh ==>
      At(dst[..], sw, sh, x, y) ==
      if y == row && x0 <= x < x0 + n then src[srcOff + (x - x0)] else old(At(dst[..], sw, sh, x, y))
  {
    var dstOff := row * sw + x0;
    RowBaseIsProduct(sw, row);
    RowOrder(sw, row, sh);
    CopyPixels(src, srcOff, dst, dstOff, n);
    forall x, y | 0 <= x < sw && 0 <= y < sh
      ensures At(dst[..], sw, sh, x, y) ==
              if y == row && x0 <= x < x0 + n then src[srcOff + (x - x0)] else old(At(dst[..], sw, sh, x, y))
    {
      PixelInRun(sw, x, y, row, x0, n);
      PixelInBuffer(sw, sh, x, y);
    }
  }

  /** The clipped copy both the scene buffer and the back buffer are drawn with. */
  method BlitClipped(dst: array<Pixel>, sw: nat, sh: nat, src: seq<Pixel>, base: nat, srcWidth: nat, dx: int, dy: int,
                     w: nat, h: nat)
    requires Sized(dst[..], sw, sh) && HoldsRect(src, base, srcWidth, w, h)
    modifies dst
    ensures Blitted(old(dst[..]), dst[..], sw, sh, src, base, srcWidth, dx, dy, w, h)
  {
    var x0, y0 := Max(dx, 0), Max(dy, 0);
    var x1, y1 := Min(Max(dx + w, 0), sw), Min(Max(dy + h, 0), sh);
    if x0 >= x1 || y0 >= y1 { return; }
    var clippedW := x1 - x0;
    var srcXOff := x0 - dx;
    var srcYOff := y0 - dy;
    ghost var before := dst[..];
    for row := 0 to y1 - y0
      invariant Sized(dst[..], sw, sh)
      invariant forall x, y :: 0 <= x < sw && 0 <= y < sh ==>
        At(dst[..], sw, sh, x, y) ==
        if x0 <= x < x1 && y0 <= y < y0 + row then SourceAt(src, base, srcWidth, w, h, x - dx, y - dy)
        else At(before, sw, sh, x, y)
    {
      var srcOff := base + (srcYOff + row) * srcWidth + srcXOff;
      RowBaseIsProduct(srcWidth, srcYOff + row);
      SourceInBounds(src, base, srcWidth, w, h, srcYOff + row);
      CopyIntoRow(src, srcOff, dst, sw, sh, x0, y0 + row, clippedW);
    }
  }
}
