/**
 * The magnified grid renderer of the `randomize` tool: `draw_rect` paints a
 * rectangle into an image, and `draw_big` draws a bitmap magnified by
 * `pixel_size` (here `ps`) into a larger canvas, as BLACK 1-pixel gridlines
 * at every multiple of `ps` with each logical pixel's colour filling the
 * interior of its cell.
 *
 * A grid of `w × h` cells at origin `(ox, oy)` covers the closed rectangle
 * `[ox, ox + ps*w] × [oy, oy + ps*h]` except its far corner, which neither
 * pass of gridlines reaches because both line ranges are half-open.
 */
module Grid {
  import opened Image
  import opened Arith

  /**
   * An offset `a < ps` past gridline `k` lies in the span
   * `[Scale(x), Scale(x + 1))` of cell `x` exactly when `k == x`: fills that
   * start one pixel past a gridline never reach another gridline, and two
   * cells never share an interior pixel.
   */
  lemma SameCell(ps: nat, x: nat, k: nat, a: nat)
    requires a < ps
    ensures Scale(x, ps) <= Scale(k, ps) + a < Scale(x + 1, ps) <==> k == x
  {
    if k < x {
      ScaleMonotone(k + 1, x, ps);
    } else if k > x {
      ScaleMonotone(x + 1, k, ps);
    }
  }

  /** Canvas coordinate `origin + k*ps` of gridline `k` of a grid at `origin`. */
  function GridLine(origin: nat, ps: nat, k: nat): nat
  {
    origin + Scale(k, ps)
  }

  /** Canvas coordinate `origin + k*ps + a`, `a` pixels past gridline `k`. */
  function CellPixel(origin: nat, ps: nat, k: nat, a: nat): nat
  {
    origin + Scale(k, ps) + a
  }

  /** Pixel `(i, j)` lies in the region a `w × h` grid at `(ox, oy)` writes. */
  predicate InBlock(ox: nat, oy: nat, ps: nat, w: nat, h: nat, i: int, j: int)
  {
    && ps > 0
    && ox <= i <= ox + ps * w
    && oy <= j <= oy + ps * h
    && !(i == ox + ps * w && j == oy + ps * h)
  }

  /**
   * `draw_big` stays inside a `width × height` target (`put_pixel` panics
   * outside the image): the vertical lines reach column `ox + ps*w` whenever
   * they have any rows, the horizontal lines reach row `oy + ps*h` whenever
   * they have any columns.
   */
  predicate GridFits(width: nat, height: nat, ox: nat, oy: nat, ps: nat, w: nat, h: nat)
  {
    && (ps > 0 && h > 0 ==> ox + ps * w < width && oy + ps * h <= height)
    && (ps > 0 && w > 0 ==> ox + ps * w <= width && oy + ps * h < height)
  }

  /**
   * The colour `draw_big` leaves `(di, dj)` pixels from the grid's origin:
   * BLACK on a gridline, otherwise the colour of the logical pixel whose
   * cell holds it.
   */
  ghost function Magnified(source: array2<Color>, ps: nat, di: nat, dj: nat): Color
    requires ps > 0
    requires di <= ps * source.Length0 && dj <= ps * source.Length1
    requires !(di == ps * source.Length0 && dj == ps * source.Length1)
    reads source
  {
    if di % ps == 0 || dj % ps == 0 then BLACK
    else
      DivBelow(di, ps, source.Length0);
      DivBelow(dj, ps, source.Length1);
      source[di / ps, dj / ps]
  }

  /** An offset inside a magnified span and off its gridlines lies in a cell before the last line. */
  lemma DivBelow(d: nat, ps: nat, n: nat)
    requires ps > 0 && d <= ps * n && d % ps != 0
    ensures d / ps < n
  {
    DivAtMost(d, ps, n);
    if d / ps == n {
      Decompose(d, ps);
      ScaleIsProduct(n, ps);
      assert false;
    }
  }

  /** An offset inside a magnified span of `n` cells is at most `n` cells in. */
  lemma DivAtMost(d: nat, ps: nat, n: nat)
    requires ps > 0 && d <= ps * n
    ensures d / ps <= n
  {
    if d / ps > n {
      ScaleMonotone(n + 1, d / ps, ps);
      ScaleIsProduct(n + 1, ps);
      ScaleIsProduct(d / ps, ps);
    }
  }

  /** Offset `k*ps + a` with `a < ps` is `a` pixels into cell `k`. */
  lemma CellOffset(ps: nat, k: nat, a: nat)
    requires a < ps
    ensures (k * ps + a) / ps == k && (k * ps + a) % ps == a
  {
    ScaleIsProduct(k, ps);
    CellOffsetScaled(ps, k, a);
  }

  /** `CellOffset` with the cell's start written as repeated addition. */
  lemma CellOffsetScaled(ps: nat, k: nat, a: nat)
    requires a < ps
    ensures (Scale(k, ps) + a) / ps == k && (Scale(k, ps) + a) % ps == a
  {
    var d := Scale(k, ps) + a;
    Decompose(d, ps);
    SameCell(ps, k, d / ps, d % ps);
  }

  /** An offset is `d / ps` whole cells plus `d % ps` pixels. */
  lemma Decompose(d: nat, ps: nat)
    requires ps > 0
    ensures d == Scale(d / ps, ps) + d % ps
  {
    ScaleIsProduct(d / ps, ps);
  }

  /**
   * An offset of a grid's region, other than its far corner, that is on a
   * gridline but not on a vertical one above the last row lies on a
   * horizontal gridline left of the last column.
   */
  lemma OnHorizontalLine(ps: nat, w: nat, h: nat, di: nat, dj: nat)
    requires ps > 0 && di <= ps * w && dj <= ps * h && !(di == ps * w && dj == ps * h)
    requires di % ps == 0 || dj % ps == 0
    requires !(di % ps == 0 && dj < ps * h)
    ensures dj % ps == 0 && dj / ps <= h && di < ps * w
  {
    if di % ps == 0 {
      // then dj is on the last line
      assert dj == ps * h;
      CellOffset(ps, h, 0);
      assert h * ps == ps * h;
    } else {
      // di is off the vertical lines, so it is not ps * w
      CellOffset(ps, w, 0);
      assert w * ps == ps * w;
      DivAtMost(dj, ps, h);
    }
  }

  /** Column `k*ps` of the magnified picture, `k <= w`, is a vertical gridline: BLACK at every row above the last line. */
  lemma MagnifiedVerticalLine(source: array2<Color>, ps: nat, k: nat, dj: nat)
    requires ps > 0 && k <= source.Length0 && dj < ps * source.Length1
    ensures Magnified(source, ps, k * ps, dj) == BLACK
  {
    CellOffset(ps, k, 0);
  }

  /** Row `k*ps` of the magnified picture, `k <= h`, is a horizontal gridline: BLACK at every column left of the last line. */
  lemma MagnifiedHorizontalLine(source: array2<Color>, ps: nat, k: nat, di: nat)
    requires ps > 0 && k <= source.Length1 && di < ps * source.Length0
    ensures Magnified(source, ps, di, k * ps) == BLACK
  {
    CellOffset(ps, k, 0);
  }

  /** Offset `(x*ps + a, y*ps + b)` with `1 <= a, b < ps` shows source pixel `(x, y)`. */
  lemma MagnifiedCell(source: array2<Color>, ps: nat, x: nat, y: nat, a: nat, b: nat)
    requires x < source.Length0 && y < source.Length1 && 0 < a < ps && 0 < b < ps
    ensures x * ps + a < ps * source.Length0 && y * ps + b < ps * source.Length1
    ensures Magnified(source, ps, x * ps + a, y * ps + b) == source[x, y]
  {
    CellInside(ps, x, a, source.Length0);
    CellInside(ps, y, b, source.Length1);
    CellOffset(ps, x, a);
    CellOffset(ps, y, b);
  }

  /** Pixel `a < ps` of cell `x < n` lies before the last of `n` cells' gridlines. */
  lemma CellInside(ps: nat, x: nat, a: nat, n: nat)
    requires x < n && a < ps
    ensures x * ps + a < ps * n
  {
    ScaleIsProduct(x, ps);
    ScaleIsProduct(n, ps);
    ScaleMonotone(x + 1, n, ps);
  }

  /** With `ps == 1` every offset is on a gridline, so the whole picture is BLACK. */
  lemma MagnifiedUnit(source: array2<Color>, di: nat, dj: nat)
    requires di <= source.Length0 && dj <= source.Length1
    requires !(di == source.Length0 && dj == source.Length1)
    ensures Magnified(source, 1, di, dj) == BLACK
  {
  }

  /** Vertical gridlines `0 .. n-1` are BLACK along the grid's full height. */
  ghost predicate VerticalLinesBlack(target: array2<Color>, ox: nat, oy: nat, ps: nat, h: nat, n: nat)
    reads target
  {
    forall k, j ::
      (0 <= k < n && oy <= j < oy + ps * h && GridLine(ox, ps, k) < target.Length0 && j < target.Length1) ==>
      target[GridLine(ox, ps, k), j] == BLACK
  }

  /** Horizontal gridlines `0 .. n-1` are BLACK along the grid's full width. */
  ghost predicate HorizontalLinesBlack(target: array2<Color>, ox: nat, oy: nat, ps: nat, w: nat, n: nat)
    reads target
  {
    forall k, i ::
      (0 <= k < n && ox <= i < ox + ps * w && i < target.Length0 && GridLine(oy, ps, k) < target.Length1) ==>
      target[i, GridLine(oy, ps, k)] == BLACK
  }

  /** The interiors of the cells in columns `0 .. n-1` have the colour of their source pixel. */
  ghost predicate CellsFilled(target: array2<Color>, source: array2<Color>, ox: nat, oy: nat, ps: nat, n: nat)
    reads target, source
  {
    forall x, y, a, b ::
      (0 <= x < n && x < source.Length0 && 0 <= y < source.Length1 && 0 < a < ps && 0 < b < ps &&
       CellPixel(ox, ps, x, a) < target.Length0 && CellPixel(oy, ps, y, b) < target.Length1) ==>
      target[CellPixel(ox, ps, x, a), CellPixel(oy, ps, y, b)] == source[x, y]
  }

  /**
   * Once every gridline is BLACK and every cell interior holds its source
   * colour, each pixel of the grid's region is the magnified picture.
   */
  lemma GridPixel(target: array2<Color>, source: array2<Color>, ox: nat, oy: nat, ps: nat, i: nat, j: nat)
    requires 0 <= i < target.Length0 && 0 <= j < target.Length1
    requires InBlock(ox, oy, ps, source.Length0, source.Length1, i, j)
    requires VerticalLinesBlack(target, ox, oy, ps, source.Length1, source.Length0 + 1)
    requires HorizontalLinesBlack(target, ox, oy, ps, source.Length0, source.Length1 + 1)
    requires CellsFilled(target, source, ox, oy, ps, source.Length0)
    ensures target[i, j] == Magnified(source, ps, i - ox, j - oy)
  {
    var di, dj := i - ox, j - oy;
    Decompose(di, ps);
    Decompose(dj, ps);
    if di % ps != 0 && dj % ps != 0 {
      DivBelow(di, ps, source.Length0);
      DivBelow(dj, ps, source.Length1);
      assert i == CellPixel(ox, ps, di / ps, di % ps) && j == CellPixel(oy, ps, dj / ps, dj % ps);
    } else if di % ps == 0 && dj < ps * source.Length1 {
      DivAtMost(di, ps, source.Length0);
      assert i == GridLine(ox, ps, di / ps);
    } else {
      OnHorizontalLine(ps, source.Length0, source.Length1, di, dj);
      assert j == GridLine(oy, ps, dj / ps);
    }
  }

  /** A pixel strictly inside a cell is never on a gridline. */
  lemma OffGridLines(origin: nat, ps: nat)
    ensures forall x, a, k :: 0 < a < ps ==> CellPixel(origin, ps, x, a) != GridLine(origin, ps, k)
  {
    forall x, a, k | 0 < a < ps
      ensures CellPixel(origin, ps, x, a) != GridLine(origin, ps, k)
    {
      SameCell(ps, k, x, a);
    }
  }

  /** `draw_rect`: every pixel of `[xLo, xHi) × [yLo, yHi)` becomes `color`, nothing else changes. */
  method DrawRect(image: array2<Color>, xLo: nat, xHi: nat, yLo: nat, yHi: nat, color: Color)
    requires xLo < xHi && yLo < yHi ==> xHi <= image.Length0 && yHi <= image.Length1
    modifies image
    ensures forall x, y :: 0 <= x < image.Length0 && 0 <= y < image.Length1 ==>
      image[x, y] == (if xLo <= x < xHi && yLo <= y < yHi then color else old(image[x, y]))
  {
    var x := xLo;
    while x < xHi
      invariant xLo <= x && (x <= xHi || x == xLo)
      invariant forall i, j :: 0 <= i < image.Length0 && 0 <= j < image.Length1 ==>
        image[i, j] == (if xLo <= i < x && yLo <= j < yHi then color else old(image[i, j]))
    {
      var y := yLo;
      while y < yHi
        invariant yLo <= y && (y <= yHi || y == yLo)
        invariant forall i, j :: 0 <= i < image.Length0 && 0 <= j < image.Length1 ==>
          image[i, j] == (if (xLo <= i < x && yLo <= j < yHi) || (i == x && yLo <= j < y) then color
                          else old(image[i, j]))
      {
        image[x, y] := color;
        y := y + 1;
      }
      x := x + 1;
    }
  }

  /**
   * The first pass of `draw_big`: the `w + 1` vertical gridlines, each
   * `ps*h` pixels long. Only the vertical gridline pixels in rows
   * `[oy, oy + ps*h)` are written.
   */
  method DrawVerticalLines(target: array2<Color>, ox: nat, oy: nat, ps: nat, w: nat, h: nat)
    requires GridFits(target.Length0, target.Length1, ox, oy, ps, w, h)
    modifies target
    ensures VerticalLinesBlack(target, ox, oy, ps, h, w + 1)
    ensures forall i, j ::
      (0 <= i < target.Length0 && 0 <= j < target.Length1 && !InBlock(ox, oy, ps, w, h, i, j)) ==>
      target[i, j] == old(target[i, j])
    ensures forall cx, cy, a, b ::
      (0 < a < ps && 0 < b < ps &&
       CellPixel(ox, ps, cx, a) < target.Length0 && CellPixel(oy, ps, cy, b) < target.Length1) ==>
      target[CellPixel(ox, ps, cx, a), CellPixel(oy, ps, cy, b)] ==
        old(target[CellPixel(ox, ps, cx, a), CellPixel(oy, ps, cy, b)])
    // nor are the horizontal gridline pixels between two vertical lines
    ensures forall k, cx, a ::
      (0 < a < ps && CellPixel(ox, ps, cx, a) < target.Length0 && GridLine(oy, ps, k) < target.Length1) ==>
      target[CellPixel(ox, ps, cx, a), GridLine(oy, ps, k)] == old(target[CellPixel(ox, ps, cx, a), GridLine(oy, ps, k)])
    // nor are the rows outside the lines' span, such as the last horizontal gridline
    ensures forall i, j ::
      (0 <= i < target.Length0 && 0 <= j < target.Length1 && !(oy <= j < oy + ps * h)) ==>
      target[i, j] == old(target[i, j])
  {
    ScaleIsProduct(w, ps);
    ScaleIsProduct(h, ps);
    OffGridLines(ox, ps);
    for x := 0 to w + 1
      invariant VerticalLinesBlack(target, ox, oy, ps, h, x)
      invariant forall i, j ::
        (0 <= i < target.Length0 && 0 <= j < target.Length1 && !InBlock(ox, oy, ps, w, h, i, j)) ==>
        target[i, j] == old(target[i, j])
      invariant forall cx, cy, a, b ::
        (0 < a < ps && 0 < b < ps &&
         CellPixel(ox, ps, cx, a) < target.Length0 && CellPixel(oy, ps, cy, b) < target.Length1) ==>
        target[CellPixel(ox, ps, cx, a), CellPixel(oy, ps, cy, b)] ==
          old(target[CellPixel(ox, ps, cx, a), CellPixel(oy, ps, cy, b)])
      invariant forall k, cx, a ::
        (0 < a < ps && CellPixel(ox, ps, cx, a) < target.Length0 && GridLine(oy, ps, k) < target.Length1) ==>
        target[CellPixel(ox, ps, cx, a), GridLine(oy, ps, k)] == old(target[CellPixel(ox, ps, cx, a), GridLine(oy, ps, k)])
      invariant forall i, j ::
        (0 <= i < target.Length0 && 0 <= j < target.Length1 && !(oy <= j < oy + ps * h)) ==>
        target[i, j] == old(target[i, j])
    {
      ScaleMonotone(x, w, ps);
      DrawRect(target, GridLine(ox, ps, x), GridLine(ox, ps, x) + 1, oy, oy + ps * h, BLACK);
    }
  }

  /**
   * The second pass of `draw_big`: the `h + 1` horizontal gridlines, each
   * `ps*w` pixels long. It only paints BLACK, so the vertical gridlines
   * stay BLACK.
   */
  method DrawHorizontalLines(target: array2<Color>, ox: nat, oy: nat, ps: nat, w: nat, h: nat)
    requires GridFits(target.Length0, target.Length1, ox, oy, ps, w, h)
    requires VerticalLinesBlack(target, ox, oy, ps, h, w + 1)
    modifies target
    ensures VerticalLinesBlack(target, ox, oy, ps, h, w + 1)
    ensures HorizontalLinesBlack(target, ox, oy, ps, w, h + 1)
    ensures forall i, j ::
      (0 <= i < target.Length0 && 0 <= j < target.Length1 && !InBlock(ox, oy, ps, w, h, i, j)) ==>
      target[i, j] == old(target[i, j])
    ensures forall cx, cy, a, b ::
      (0 < a < ps && 0 < b < ps &&
       CellPixel(ox, ps, cx, a) < target.Length0 && CellPixel(oy, ps, cy, b) < target.Length1) ==>
      target[CellPixel(ox, ps, cx, a), CellPixel(oy, ps, cy, b)] ==
        old(target[CellPixel(ox, ps, cx, a), CellPixel(oy, ps, cy, b)])
  {
    ScaleIsProduct(w, ps);
    ScaleIsProduct(h, ps);
    OffGridLines(oy, ps);
    for y := 0 to h + 1
      invariant VerticalLinesBlack(target, ox, oy, ps, h, w + 1)
      invariant HorizontalLinesBlack(target, ox, oy, ps, w, y)
      invariant forall i, j ::
        (0 <= i < target.Length0 && 0 <= j < target.Length1 && !InBlock(ox, oy, ps, w, h, i, j)) ==>
        target[i, j] == old(target[i, j])
      invariant forall cx, cy, a, b ::
        (0 < a < ps && 0 < b < ps &&
         CellPixel(ox, ps, cx, a) < target.Length0 && CellPixel(oy, ps, cy, b) < target.Length1) ==>
        target[CellPixel(ox, ps, cx, a), CellPixel(oy, ps, cy, b)] ==
          old(target[CellPixel(ox, ps, cx, a), CellPixel(oy, ps, cy, b)])
    {
      ScaleMonotone(y, h, ps);
      DrawRect(target, ox, ox + ps * w, GridLine(oy, ps, y), GridLine(oy, ps, y) + 1, BLACK);
    }
  }

  /**
   * The first two passes of `draw_big`: all vertical gridlines, then all
   * horizontal ones; nothing else in the target changes.
   */
  method DrawGridLines(target: array2<Color>, ox: nat, oy: nat, ps: nat, w: nat, h: nat)
    requires GridFits(target.Length0, target.Length1, ox, oy, ps, w, h)
    modifies target
    ensures VerticalLinesBlack(target, ox, oy, ps, h, w + 1)
    ensures HorizontalLinesBlack(target, ox, oy, ps, w, h + 1)
    ensures forall i, j ::
      (0 <= i < target.Length0 && 0 <= j < target.Length1 && !InBlock(ox, oy, ps, w, h, i, j)) ==>
      target[i, j] == old(target[i, j])
    // the cell interiors are not touched either
    ensures forall cx, cy, a, b ::
      (0 < a < ps && 0 < b < ps &&
       CellPixel(ox, ps, cx, a) < target.Length0 && CellPixel(oy, ps, cy, b) < target.Length1) ==>
      target[CellPixel(ox, ps, cx, a), CellPixel(oy, ps, cy, b)] ==
        old(target[CellPixel(ox, ps, cx, a), CellPixel(oy, ps, cy, b)])
  {
    DrawVerticalLines(target, ox, oy, ps, w, h);
    DrawHorizontalLines(target, ox, oy, ps, w, h);
  }

  /**
   * One step of the third pass of `draw_big`: fill the interior of cell
   * `(x, y)`, from one pixel past its gridlines up to the next gridlines.
   */
  method FillCell(target: array2<Color>, source: array2<Color>, ox: nat, oy: nat, ps: nat, x: nat, y: nat)
    requires target != source
    requires x < source.Length0 && y < source.Length1
    requires GridFits(target.Length0, target.Length1, ox, oy, ps, source.Length0, source.Length1)
    modifies target
    // the interior of cell (x, y) now has the colour of source pixel (x, y)
    ensures forall a, b ::
      (0 < a < ps && 0 < b < ps && CellPixel(ox, ps, x, a) < target.Length0 &&
       CellPixel(oy, ps, y, b) < target.Length1) ==>
      target[CellPixel(ox, ps, x, a), CellPixel(oy, ps, y, b)] == source[x, y]
    // no gridline pixel is touched
    ensures forall k, j ::
      (GridLine(ox, ps, k) < target.Length0 && 0 <= j < target.Length1) ==>
      target[GridLine(ox, ps, k), j] == old(target[GridLine(ox, ps, k), j])
    ensures forall k, i ::
      (0 <= i < target.Length0 && GridLine(oy, ps, k) < target.Length1) ==>
      target[i, GridLine(oy, ps, k)] == old(target[i, GridLine(oy, ps, k)])
    // no pixel of another cell is touched
    ensures forall x', y', a, b ::
      ((x' != x || y' != y) && 0 < a < ps && 0 < b < ps &&
       CellPixel(ox, ps, x', a) < target.Length0 && CellPixel(oy, ps, y', b) < target.Length1) ==>
      target[CellPixel(ox, ps, x', a), CellPixel(oy, ps, y', b)] ==
        old(target[CellPixel(ox, ps, x', a), CellPixel(oy, ps, y', b)])
    ensures forall i, j ::
      (0 <= i < target.Length0 && 0 <= j < target.Length1 &&
       !InBlock(ox, oy, ps, source.Length0, source.Length1, i, j)) ==>
      target[i, j] == old(target[i, j])
  {
    ScaleIsProduct(source.Length0, ps);
    ScaleIsProduct(source.Length1, ps);
    ScaleMonotone(x + 1, source.Length0, ps);
    ScaleMonotone(y + 1, source.Length1, ps);
    DrawRect(target, CellPixel(ox, ps, x, 1), GridLine(ox, ps, x + 1),
             CellPixel(oy, ps, y, 1), GridLine(oy, ps, y + 1), source[x, y]);
    forall k | ps > 0
      ensures !(CellPixel(ox, ps, x, 1) <= GridLine(ox, ps, k) < GridLine(ox, ps, x + 1))
    {
      SameCell(ps, x, k, 0);
    }
    forall k | ps > 0
      ensures !(CellPixel(oy, ps, y, 1) <= GridLine(oy, ps, k) < GridLine(oy, ps, y + 1))
    {
      SameCell(ps, y, k, 0);
    }
    forall x', a | 0 < a < ps
      ensures CellPixel(ox, ps, x, 1) <= CellPixel(ox, ps, x', a) < GridLine(ox, ps, x + 1) <==> x' == x
    {
      SameCell(ps, x, x', a);
    }
    forall y', b | 0 < b < ps
      ensures CellPixel(oy, ps, y, 1) <= CellPixel(oy, ps, y', b) < GridLine(oy, ps, y + 1) <==> y' == y
    {
      SameCell(ps, y, y', b);
    }
  }

  /** The third pass of `draw_big`: fill every cell, leaving the gridlines BLACK. */
  method FillCells(target: array2<Color>, source: array2<Color>, ox: nat, oy: nat, ps: nat)
    requires target != source
    requires GridFits(target.Length0, target.Length1, ox, oy, ps, source.Length0, source.Length1)
    requires VerticalLinesBlack(target, ox, oy, ps, source.Length1, source.Length0 + 1)
    requires HorizontalLinesBlack(target, ox, oy, ps, source.Length0, source.Length1 + 1)
    modifies target
    ensures VerticalLinesBlack(target, ox, oy, ps, source.Length1, source.Length0 + 1)
    ensures HorizontalLinesBlack(target, ox, oy, ps, source.Length0, source.Length1 + 1)
    ensures CellsFilled(target, source, ox, oy, ps, source.Length0)
    ensures forall i, j ::
      (0 <= i < target.Length0 && 0 <= j < target.Length1 &&
       !InBlock(ox, oy, ps, source.Length0, source.Length1, i, j)) ==>
      target[i, j] == old(target[i, j])
  {
    var w, h := source.Length0, source.Length1;
    for x := 0 to w
      invariant VerticalLinesBlack(target, ox, oy, ps, h, w + 1)
      invariant HorizontalLinesBlack(target, ox, oy, ps, w, h + 1)
      invariant CellsFilled(target, source, ox, oy, ps, x)
      invariant forall i, j ::
        (0 <= i < target.Length0 && 0 <= j < target.Length1 && !InBlock(ox, oy, ps, w, h, i, j)) ==>
        target[i, j] == old(target[i, j])
    {
      for y := 0 to h
        invariant VerticalLinesBlack(target, ox, oy, ps, h, w + 1)
        invariant HorizontalLinesBlack(target, ox, oy, ps, w, h + 1)
        invariant CellsFilled(target, source, ox, oy, ps, x)
        invariant forall y', a, b ::
          (0 <= y' < y && 0 < a < ps && 0 < b < ps &&
           CellPixel(ox, ps, x, a) < target.Length0 && CellPixel(oy, ps, y', b) < target.Length1) ==>
          target[CellPixel(ox, ps, x, a), CellPixel(oy, ps, y', b)] == source[x, y']
        invariant forall i, j ::
          (0 <= i < target.Length0 && 0 <= j < target.Length1 && !InBlock(ox, oy, ps, w, h, i, j)) ==>
          target[i, j] == old(target[i, j])
      {
        FillCell(target, source, ox, oy, ps, x, y);
      }
    }
  }

  /**
   * `draw_big`: render `source` magnified by `ps` into `target` at
   * `(ox, oy)`: first the gridlines, then the interior of every cell.
   */
  method DrawBig(target: array2<Color>, source: array2<Color>, ox: nat, oy: nat, ps: nat)
    requires target != source
    requires GridFits(target.Length0, target.Length1, ox, oy, ps, source.Length0, source.Length1)
    modifies target
    // the grid's region now shows the magnified picture; every other pixel is untouched
    ensures forall i, j :: 0 <= i < target.Length0 && 0 <= j < target.Length1 ==>
      target[i, j] == (if InBlock(ox, oy, ps, source.Length0, source.Length1, i, j)
                       then Magnified(source, ps, i - ox, j - oy)
                       else old(target[i, j]))
  {
    DrawGridLines(target, ox, oy, ps, source.Length0, source.Length1);
    FillCells(target, source, ox, oy, ps);
    forall i, j | 0 <= i < target.Length0 && 0 <= j < target.Length1 &&
      InBlock(ox, oy, ps, source.Length0, source.Length1, i, j)
      ensures target[i, j] == Magnified(source, ps, i - ox, j - oy)
    {
      GridPixel(target, source, ox, oy, ps, i, j);
    }
  }
}
