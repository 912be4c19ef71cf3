/**
 * The interleaving tool: two pictures of the same size are cut into
 * vertical segments of `width / numSegments` columns, and the output, twice
 * as wide, holds each segment of the first picture followed by the same
 * segment of the second. The first column of every copied segment carries
 * a BLACK tick mark, 11 pixels long, at its top and at its bottom.
 */
module Interleave {
  import opened Image
  import opened Arith

  /** Why the two pictures cannot be interleaved; widths are compared first. */
  datatype DimensionError = WidthMismatch(width1: nat, width2: nat) | HeightMismatch(height1: nat, height2: nat)

  datatype Option<T> = None | Some(value: T)

  /** The dimension check of `main`: the first mismatch found, or None when the sizes agree. */
  function CheckDimensions(width1: nat, height1: nat, width2: nat, height2: nat): (r: Option<DimensionError>)
    ensures r == None <==> width1 == width2 && height1 == height2
    ensures width1 != width2 ==> r == Some(WidthMismatch(width1, width2))
    ensures width1 == width2 && height1 != height2 ==> r == Some(HeightMismatch(height1, height2))
  {
    if width1 != width2 then Some(WidthMismatch(width1, width2))
    else if height1 != height2 then Some(HeightMismatch(height1, height2))
    else None
  }

  /** `draw_vertical_line`: pixels `(x, y1) ..= (x, y2)` become BLACK, nothing else changes. */
  method DrawVerticalLine(image: array2<Color>, x: nat, y1: nat, y2: nat)
    requires y1 <= y2 ==> x < image.Length0 && y2 < image.Length1
    modifies image
    ensures forall i, j :: 0 <= i < image.Length0 && 0 <= j < image.Length1 ==>
      image[i, j] == (if i == x && y1 <= j <= y2 then BLACK else old(image[i, j]))
  {
    var y := y1;
    while y <= y2
      invariant y1 <= y && (y <= y2 + 1 || y == y1)
      invariant forall i, j :: 0 <= i < image.Length0 && 0 <= j < image.Length1 ==>
        image[i, j] == (if i == x && y1 <= j < y then BLACK else old(image[i, j]))
      decreases y2 + 1 - y
    {
      image[x, y] := BLACK;
      y := y + 1;
    }
  }

  function Min(a: nat, b: nat): (m: nat)
    ensures m <= a && m <= b && (m == a || m == b)
  {
    if a < b then a else b
  }

  /**
   * `width / numSegments`, the width of every segment but possibly the
   * last: it is zero, and the walk over the columns never advances, exactly
   * when there are more segments than columns.
   */
  function SegmentWidth(width: nat, numSegments: nat): (sw: nat)
    requires numSegments > 0
    ensures sw > 0 <==> numSegments <= width
  {
    QuotientPositive(width, numSegments);
    width / numSegments
  }

  lemma QuotientPositive(a: nat, n: nat)
    requires n > 0
    ensures a / n > 0 <==> n <= a
  {
    var q := a / n;
    ScaleIsProduct(q, n);
    if q > 0 {
      ScaleMonotone(1, q, n);
    }
  }

  /** The columns `[start, start + width)` of both pictures that one step of the walk copies. */
  datatype Segment = Segment(start: nat, width: nat)

  /**
   * The segments the walk visits from column `sx` on: each takes
   * `min(sw, width - sx)` columns, so a remainder becomes an extra, shorter
   * last segment.
   */
  function Segments(width: nat, sw: nat, sx: nat): seq<Segment>
    requires sw > 0 || sx >= width
    decreases width - sx
  {
    if sx >= width then []
    else
      var w := Min(sw, width - sx);
      [Segment(sx, w)] + Segments(width, sw, sx + w)
  }

  /** `segs` cuts the columns `[lo, hi)` into non-empty pieces, left to right, without gaps. */
  ghost predicate Contiguous(segs: seq<Segment>, lo: nat, hi: nat)
  {
    && (|segs| == 0 ==> lo == hi)
    && (|segs| > 0 ==> segs[0].start == lo && segs[|segs| - 1].start + segs[|segs| - 1].width == hi)
    && (forall k, l :: 0 <= k && l == k + 1 && l < |segs| ==> segs[k].start + segs[k].width == segs[l].start)
    && (forall k :: 0 <= k < |segs| ==> segs[k].width > 0)
  }

  /** Prepending a non-empty segment that ends where a tiling starts extends the tiling. */
  lemma ContiguousCons(s: Segment, rest: seq<Segment>, hi: nat)
    requires s.width > 0 && Contiguous(rest, s.start + s.width, hi)
    ensures Contiguous([s] + rest, s.start, hi)
  {
    var segs := [s] + rest;
    assert forall k :: 0 < k < |segs| ==> segs[k] == rest[k - 1];
  }

  /** The walk from `sx` tiles `[sx, width)`. */
  lemma {:induction false} SegmentsTile(width: nat, sw: nat, sx: nat)
    requires sw > 0 && sx <= width
    ensures Contiguous(Segments(width, sw, sx), sx, width)
    decreases width - sx
  {
    if sx < width {
      var w := Min(sw, width - sx);
      SegmentsTile(width, sw, sx + w);
      ContiguousCons(Segment(sx, w), Segments(width, sw, sx + w), width);
    }
  }

  /** Every segment of the walk is at most `sw` columns wide, and all but the last exactly `sw`. */
  lemma {:induction false} SegmentWidths(width: nat, sw: nat, sx: nat)
    requires sw > 0 && sx <= width
    ensures forall k :: 0 <= k < |Segments(width, sw, sx)| ==> Segments(width, sw, sx)[k].width <= sw
    ensures forall k :: 0 <= k < |Segments(width, sw, sx)| - 1 ==> Segments(width, sw, sx)[k].width == sw
    decreases width - sx
  {
    if sx < width {
      var w := Min(sw, width - sx);
      var rest := Segments(width, sw, sx + w);
      var segs := [Segment(sx, w)] + rest;
      SegmentWidths(width, sw, sx + w);
      assert Segments(width, sw, sx) == segs;
      assert forall k :: 0 < k < |segs| ==> segs[k] == rest[k - 1];
      if |rest| > 0 {
        assert w == sw;
      }
    }
  }

  /** Segments that tile a range are in increasing order and never overlap. */
  lemma {:induction false} ContiguousOrdered(segs: seq<Segment>, lo: nat, hi: nat)
    requires Contiguous(segs, lo, hi)
    ensures forall k, l :: 0 <= k < l < |segs| ==> segs[k].start + segs[k].width <= segs[l].start
    ensures forall k :: 0 <= k < |segs| ==> lo <= segs[k].start && segs[k].start + segs[k].width <= hi
  {
    if |segs| > 0 {
      var rest := segs[1..];
      assert Contiguous(rest, lo + segs[0].width, hi);
      ContiguousOrdered(rest, lo + segs[0].width, hi);
      assert forall k :: 0 < k < |segs| ==> segs[k] == rest[k - 1];
    }
  }

  /** Segments that tile a range cover every column of it. */
  lemma {:induction false} ContiguousCovers(segs: seq<Segment>, lo: nat, hi: nat, c: nat)
    requires Contiguous(segs, lo, hi)
    requires lo <= c < hi
    ensures exists k :: 0 <= k < |segs| && segs[k].start <= c < segs[k].start + segs[k].width
  {
    var rest := segs[1..];
    assert Contiguous(rest, lo + segs[0].width, hi);
    if c >= lo + segs[0].width {
      ContiguousCovers(rest, lo + segs[0].width, hi, c);
      var k :| 0 <= k < |rest| && rest[k].start <= c < rest[k].start + rest[k].width;
      assert segs[k + 1] == rest[k];
    } else {
      assert segs[0].start <= c < segs[0].start + segs[0].width;
    }
  }

  /** Output column `c` lies in the two copies of some segment of `segs`. */
  ghost predicate ColumnCovered(segs: seq<Segment>, c: int)
  {
    exists k :: 0 <= k < |segs| && 2 * segs[k].start <= c < 2 * (segs[k].start + segs[k].width)
  }

  /**
   * Doubled, a tiling of `[0, width)` covers the `2*width` output columns:
   * every output column lies in the two copies of some segment.
   */
  lemma OutputCovered(segs: seq<Segment>, width: nat)
    requires Contiguous(segs, 0, width)
    ensures forall c :: 0 <= c < 2 * width ==> ColumnCovered(segs, c)
  {
    forall c | 0 <= c < 2 * width
      ensures ColumnCovered(segs, c)
    {
      ContiguousCovers(segs, 0, width, c / 2);
      var k :| 0 <= k < |segs| && segs[k].start <= c / 2 < segs[k].start + segs[k].width;
      assert 2 * segs[k].start <= c < 2 * (segs[k].start + segs[k].width);
    }
  }

  /**
   * The walk from `sx` takes the fewest steps of `sw` columns that cover
   * `[sx, width)`: `ceil((width - sx) / sw)` of them.
   */
  lemma SegmentCount(width: nat, sw: nat, sx: nat)
    requires sw > 0 && sx <= width
    ensures |Segments(width, sw, sx)| * sw >= width - sx
    ensures |Segments(width, sw, sx)| > 0 ==> (|Segments(width, sw, sx)| - 1) * sw < width - sx
  {
    var n := |Segments(width, sw, sx)|;
    SegmentCountScaled(width, sw, sx);
    ScaleIsProduct(n, sw);
    if n > 0 {
      ScaleIsProduct(n - 1, sw);
    }
  }

  lemma {:induction false} SegmentCountScaled(width: nat, sw: nat, sx: nat)
    requires sw > 0 && sx <= width
    ensures Scale(|Segments(width, sw, sx)|, sw) >= width - sx
    ensures |Segments(width, sw, sx)| > 0 ==> Scale(|Segments(width, sw, sx)| - 1, sw) < width - sx
    decreases width - sx
  {
    if sx < width {
      var w := Min(sw, width - sx);
      var rest := Segments(width, sw, sx + w);
      SegmentCountScaled(width, sw, sx + w);
      assert Segments(width, sw, sx) == [Segment(sx, w)] + rest;
      if |rest| > 0 {
        assert w == sw;
      }
    }
  }

  /** Ten columns in three segments give segments of 3, 3, 3 and 1 columns: the remainder is a segment of its own. */
  lemma SegmentExampleRemainder()
    ensures Segments(10, SegmentWidth(10, 3), 0) ==
      [Segment(0, 3), Segment(3, 3), Segment(6, 3), Segment(9, 1)]
  {
    assert SegmentWidth(10, 3) == 3;
    assert Segments(10, 3, 9) == [Segment(9, 1)];
    assert Segments(10, 3, 6) == [Segment(6, 3), Segment(9, 1)];
    assert Segments(10, 3, 3) == [Segment(3, 3), Segment(6, 3), Segment(9, 1)];
  }

  /** Ten columns in six segments give ten segments of one column each. */
  lemma SegmentExampleMany()
    ensures |Segments(10, SegmentWidth(10, 6), 0)| == 10
  {
    assert SegmentWidth(10, 6) == 1;
    SegmentCount(10, 1, 0);
  }

  /** Rows that carry a tick mark: `0 ..= 10` and `height-11 ..= height-1`. */
  predicate TickRow(height: nat, y: nat)
  {
    y <= 10 || y + 11 >= height
  }

  /**
   * Segment `s` is drawn: output columns `[2*s.start, 2*s.start + s.width)`
   * hold columns `[s.start, s.start + s.width)` of `image1`, the next
   * `s.width` output columns hold the same columns of `image2`, and the
   * first column of each half is BLACK on the tick rows.
   */
  ghost predicate SegmentDrawn(canvas: array2<Color>, image1: array2<Color>, image2: array2<Color>, s: Segment)
    reads canvas, image1, image2
  {
    && (forall c, y ::
         (2 * s.start <= c < 2 * s.start + s.width && 0 <= y < canvas.Length1 &&
          c < canvas.Length0 && c - s.start < image1.Length0 && y < image1.Length1) ==>
         canvas[c, y] == (if c == 2 * s.start && TickRow(canvas.Length1, y) then BLACK
                          else image1[c - s.start, y]))
    && (forall c, y ::
         (2 * s.start + s.width <= c < 2 * (s.start + s.width) && 0 <= y < canvas.Length1 &&
          c < canvas.Length0 && c - s.start - s.width < image2.Length0 && y < image2.Length1) ==>
         canvas[c, y] == (if c == 2 * s.start + s.width && TickRow(canvas.Length1, y) then BLACK
                          else image2[c - s.start - s.width, y]))
  }

  /**
   * `dst.copy_from(&*src.view(srcX, 0, cols, height), dstX, 0)`: output
   * columns `[dstX, dstX + cols)` take source columns `[srcX, srcX + cols)`,
   * full height.
   */
  method CopyColumns(dst: array2<Color>, src: array2<Color>, srcX: nat, cols: nat, dstX: nat)
    requires dst != src
    requires srcX + cols <= src.Length0 && dstX + cols <= dst.Length0 && src.Length1 == dst.Length1
    modifies dst
    ensures forall c, y :: 0 <= c < dst.Length0 && 0 <= y < dst.Length1 ==>
      dst[c, y] == (if dstX <= c < dstX + cols then src[c - dstX + srcX, y] else old(dst[c, y]))
  {
    forall c, y | dstX <= c < dstX + cols && 0 <= y < dst.Length1 {
      dst[c, y] := src[c - dstX + srcX, y];
    }
  }

  /**
   * Half of one step of the walk: copy `w` columns of `image` from column
   * `sx` to output column `dstX`, then draw the tick marks on output
   * column `dstX`.
   */
  method DrawHalf(canvas: array2<Color>, image: array2<Color>, sx: nat, w: nat, dstX: nat)
    requires canvas != image
    requires sx + w <= image.Length0 && dstX + w <= canvas.Length0 && canvas.Length1 == image.Length1
    requires 0 < w && image.Length1 >= 11
    modifies canvas
    ensures forall c, y :: 0 <= c < canvas.Length0 && 0 <= y < canvas.Length1 ==>
      canvas[c, y] == (if dstX <= c < dstX + w
                       then (if c == dstX && TickRow(canvas.Length1, y) then BLACK else image[c - dstX + sx, y])
                       else old(canvas[c, y]))
  {
    var h := image.Length1;
    CopyColumns(canvas, image, sx, w, dstX);
    DrawVerticalLine(canvas, dstX, 0, 10);
    DrawVerticalLine(canvas, dstX, h - 11, h - 1);
  }

  /** Every segment of `done` ends by column `sx` and is drawn. */
  ghost predicate AllDrawn(canvas: array2<Color>, image1: array2<Color>, image2: array2<Color>,
                           done: seq<Segment>, sx: nat)
    reads canvas, image1, image2
  {
    forall k :: 0 <= k < |done| ==>
      done[k].start + done[k].width <= sx && SegmentDrawn(canvas, image1, image2, done[k])
  }

  /** One step of the walk: copy segment `(sx, w)` of both pictures and mark both copies. */
  method DrawSegment(canvas: array2<Color>, image1: array2<Color>, image2: array2<Color>, sx: nat, w: nat)
    requires canvas != image1 && canvas != image2
    requires image1.Length0 == image2.Length0 && image1.Length1 == image2.Length1
    requires canvas.Length0 == 2 * image1.Length0 && canvas.Length1 == image1.Length1
    requires 0 < w && sx + w <= image1.Length0 && image1.Length1 >= 11
    modifies canvas
    ensures SegmentDrawn(canvas, image1, image2, Segment(sx, w))
    ensures forall c, y ::
      (0 <= c < canvas.Length0 && 0 <= y < canvas.Length1 && !(2 * sx <= c < 2 * (sx + w))) ==>
      canvas[c, y] == old(canvas[c, y])
  {
    DrawHalf(canvas, image1, sx, w, 2 * sx);
    DrawHalf(canvas, image2, sx, w, 2 * sx + w);
  }

  /** Drawing segment `(sx, w)` keeps the segments `done`, drawn before and to the left, drawn. */
  method DrawNextSegment(canvas: array2<Color>, image1: array2<Color>, image2: array2<Color>, sx: nat, w: nat,
                         ghost done: seq<Segment>)
    requires canvas != image1 && canvas != image2
    requires image1.Length0 == image2.Length0 && image1.Length1 == image2.Length1
    requires canvas.Length0 == 2 * image1.Length0 && canvas.Length1 == image1.Length1
    requires 0 < w && sx + w <= image1.Length0 && image1.Length1 >= 11
    requires AllDrawn(canvas, image1, image2, done, sx)
    modifies canvas
    ensures AllDrawn(canvas, image1, image2, done + [Segment(sx, w)], sx + w)
    // no output column outside this step's two copies is touched
    ensures forall c, y ::
      (0 <= c < canvas.Length0 && 0 <= y < canvas.Length1 && !(2 * sx <= c < 2 * (sx + w))) ==>
      canvas[c, y] == old(canvas[c, y])
  {
    DrawSegment(canvas, image1, image2, sx, w);
    forall k | 0 <= k < |done|
      ensures SegmentDrawn(canvas, image1, image2, done[k])
    {
      assert old(SegmentDrawn(canvas, image1, image2, done[k]));
    }
    assert forall k :: 0 <= k < |done| ==> (done + [Segment(sx, w)])[k] == done[k];
  }

  /** One more step of the walk: the segments visited so far grow by the segment at `sx`. */
  lemma WalkStep(width: nat, sw: nat, sx: nat, done: seq<Segment>)
    requires sw > 0 && sx < width
    requires done + Segments(width, sw, sx) == Segments(width, sw, 0)
    ensures (done + [Segment(sx, Min(sw, width - sx))]) + Segments(width, sw, sx + Min(sw, width - sx)) ==
      Segments(width, sw, 0)
  {
    var w := Min(sw, width - sx);
    var rest := Segments(width, sw, sx + w);
    assert Segments(width, sw, sx) == [Segment(sx, w)] + rest;
    assert (done + [Segment(sx, w)]) + rest == done + ([Segment(sx, w)] + rest);
  }

  /** What the tool produces: the interleaved canvas, or the dimension mismatch it reports. */
  datatype Outcome = Interleaved(canvas: array2<Color>) | Failed(error: DimensionError)

  /**
   * The segment loop of `main`: starting at column 0, draw
   * the segment of `min(sw, width - sx)` columns at `sx` and move past it,
   * until the width is reached. Afterwards every segment of
   * `Segments(width, sw, 0)` is drawn.
   */
  method DrawAllSegments(canvas: array2<Color>, image1: array2<Color>, image2: array2<Color>, sw: nat)
    requires canvas != image1 && canvas != image2
    requires image1.Length0 == image2.Length0 && image1.Length1 == image2.Length1
    requires canvas.Length0 == 2 * image1.Length0 && canvas.Length1 == image1.Length1
    requires image1.Length0 > 0 ==> sw > 0 && image1.Length1 >= 11
    modifies canvas
    ensures AllDrawn(canvas, image1, image2, Segments(image1.Length0, sw, 0), image1.Length0)
  {
    var width := image1.Length0;
    var sx := 0;
    ghost var done: seq<Segment> := [];
    while sx < width
      invariant sx <= width
      invariant done + Segments(width, sw, sx) == Segments(width, sw, 0)
      invariant AllDrawn(canvas, image1, image2, done, sx)
      decreases width - sx
    {
      var w := Min(sw, width - sx);
      DrawNextSegment(canvas, image1, image2, sx, w, done);
      WalkStep(width, sw, sx, done);
      done := done + [Segment(sx, w)];
      sx := sx + w;
    }
    assert done == Segments(width, sw, 0);
  }

  /**
   * The segment width, the canvas and the segment loop of `main`: a fresh
   * `2*width × height` canvas on which every segment of
   * `Segments(width, width / numSegments, 0)` is drawn, the segments
   * together covering every output column.
   *
   * The tool panics when `numSegments` is 0 (division by zero) or when a
   * non-empty picture is under 11 rows (a tick mark leaves the canvas), and
   * never stops when `numSegments > width > 0` (the step is 0 columns);
   * the precondition excludes these.
   */
  method InterleaveSegments(image1: array2<Color>, image2: array2<Color>, numSegments: nat)
    returns (canvas: array2<Color>)
    requires image1.Length0 == image2.Length0 && image1.Length1 == image2.Length1
    requires numSegments > 0 && (image1.Length0 == 0 || (numSegments <= image1.Length0 && image1.Length1 >= 11))
    ensures fresh(canvas)
    ensures canvas.Length0 == 2 * image1.Length0 && canvas.Length1 == image1.Length1
    ensures var segs := Segments(image1.Length0, SegmentWidth(image1.Length0, numSegments), 0);
      && Contiguous(segs, 0, image1.Length0)
      && AllDrawn(canvas, image1, image2, segs, image1.Length0)
      && (forall c :: 0 <= c < canvas.Length0 ==> ColumnCovered(segs, c))
  {
    var width := image1.Length0;
    var sw := SegmentWidth(width, numSegments);
    canvas := NewImage(2 * width, image1.Length1);
    DrawAllSegments(canvas, image1, image2, sw);
    if width > 0 {
      SegmentsTile(width, sw, 0);
    }
    OutputCovered(Segments(width, sw, 0), width);
  }

  /**
   * The body of `main` after both pictures are loaded: mismatched sizes are
   * reported before any canvas exists, otherwise the walk runs.
   */
  method Interleave(image1: array2<Color>, image2: array2<Color>, numSegments: nat) returns (r: Outcome)
    requires image1.Length0 == image2.Length0 && image1.Length1 == image2.Length1 ==>
      numSegments > 0 && (image1.Length0 == 0 || (numSegments <= image1.Length0 && image1.Length1 >= 11))
    ensures CheckDimensions(image1.Length0, image1.Length1, image2.Length0, image2.Length1).Some? ==>
      r == Failed(CheckDimensions(image1.Length0, image1.Length1, image2.Length0, image2.Length1).value)
    ensures CheckDimensions(image1.Length0, image1.Length1, image2.Length0, image2.Length1).None? ==>
      && r.Interleaved?
      && fresh(r.canvas)
      && r.canvas.Length0 == 2 * image1.Length0 && r.canvas.Length1 == image1.Length1
      && var segs := Segments(image1.Length0, SegmentWidth(image1.Length0, numSegments), 0);
         && Contiguous(segs, 0, image1.Length0)
         && AllDrawn(r.canvas, image1, image2, segs, image1.Length0)
         && (forall c :: 0 <= c < r.canvas.Length0 ==> ColumnCovered(segs, c))
  {
    var check := CheckDimensions(image1.Length0, image1.Length1, image2.Length0, image2.Length1);
    if check.Some? {
      return Failed(check.value);
    }
    var canvas := InterleaveSegments(image1, image2, numSegments);
    return Interleaved(canvas);
  }
}
