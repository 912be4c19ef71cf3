/**
 * The `randomize` tool: split a picture into two random-looking shares
 * (visual secret sharing: printed on transparencies and stacked, the
 * shares show the picture again), and render both shares and an empty
 * grid side by side, magnified, on a white canvas.
 *
 * The random bit drawn for each pixel is an input here: `bits` holds the
 * coins in the order the tool draws them, outer loop over `x`, inner loop
 * over `y`, so pixel `(x, y)` of a `w × h` picture uses `bits[x * h + y]`.
 */
module Randomize {
  import opened Image
  import opened Arith
  import opened Grid

  /** The mask share's colour for a coin: BLACK exactly when the coin is true. */
  function MaskColor(bit: bool): (c: Color)
    ensures c == BLACK <==> bit
    ensures c == BLACK || c == WHITE
  {
    if bit then BLACK else WHITE
  }

  /**
   * The unmask share's colour: BLACK exactly when the source pixel is BLACK
   * XOR the coin. Any colour other than BLACK counts as WHITE.
   */
  function UnmaskColor(src: Color, bit: bool): (c: Color)
    ensures c == BLACK || c == WHITE
    // the two shares differ at a pixel exactly when the source pixel is BLACK
    ensures (c == BLACK) != (MaskColor(bit) == BLACK) <==> src == BLACK
    // a non-BLACK source pixel gives both shares the same colour
    ensures src != BLACK ==> c == MaskColor(bit)
  {
    MaskColor((src == BLACK) != bit)
  }

  /**
   * `mask`, `unmask` and `blank` are the three bitmaps the tool builds from
   * `source` with the coins `bits`: same size as `source`, the two shares
   * pixel by pixel, and an all-WHITE bitmap.
   */
  ghost predicate SharesOf(source: array2<Color>, bits: seq<bool>,
                           mask: array2<Color>, unmask: array2<Color>, blank: array2<Color>)
    reads source, mask, unmask, blank
  {
    && mask.Length0 == unmask.Length0 == blank.Length0 == source.Length0
    && mask.Length1 == unmask.Length1 == blank.Length1 == source.Length1
    && |bits| == source.Length0 * source.Length1
    && forall x, y :: 0 <= x < source.Length0 && 0 <= y < source.Length1 ==>
         && CoinIndex(source.Length1, x, y) < |bits|
         && mask[x, y] == MaskColor(bits[CoinIndex(source.Length1, x, y)])
         && unmask[x, y] == UnmaskColor(source[x, y], bits[CoinIndex(source.Length1, x, y)])
         && blank[x, y] == WHITE
  }

  /** Position in the coin sequence of pixel `(x, y)` of a picture `h` pixels high. */
  function CoinIndex(h: nat, x: nat, y: nat): nat
  {
    x * h + y
  }

  /**
   * The construction loop of `main`: draw one coin per pixel in x-major
   * order and fill the two shares and the blank bitmap.
   */
  method SplitShares(source: array2<Color>, bits: seq<bool>)
    returns (mask: array2<Color>, unmask: array2<Color>, blank: array2<Color>)
    requires |bits| == source.Length0 * source.Length1
    ensures fresh(mask) && fresh(unmask) && fresh(blank)
    ensures SharesOf(source, bits, mask, unmask, blank)
  {
    var w, h := source.Length0, source.Length1;
    mask := NewImage(w, h);
    unmask := NewImage(w, h);
    blank := NewImage(w, h);
    var n := 0;
    for x := 0 to w
      invariant n == Scale(x, h)
      invariant forall i, j :: 0 <= i < x && 0 <= j < h ==>
        && CoinIndex(h, i, j) < |bits|
        && mask[i, j] == MaskColor(bits[CoinIndex(h, i, j)])
        && unmask[i, j] == UnmaskColor(source[i, j], bits[CoinIndex(h, i, j)])
        && blank[i, j] == WHITE
    {
      ScaleIsProduct(x, h);
      ScaleIsProduct(w, h);
      ScaleMonotone(x + 1, w, h);
      for y := 0 to h
        invariant n == Scale(x, h) + y
        invariant forall i, j :: (0 <= i < x && 0 <= j < h) || (i == x && 0 <= j < y) ==>
          && CoinIndex(h, i, j) < |bits|
          && mask[i, j] == MaskColor(bits[CoinIndex(h, i, j)])
          && unmask[i, j] == UnmaskColor(source[i, j], bits[CoinIndex(h, i, j)])
          && blank[i, j] == WHITE
      {
        var val1 := bits[n];
        mask[x, y] := MaskColor(val1);
        unmask[x, y] := UnmaskColor(source[x, y], val1);
        blank[x, y] := WHITE;
        n := n + 1;
      }
    }
  }

  /** Width of the canvas: three grids of `w + 1` cells plus one cell of margin. */
  function CanvasWidth(w: nat, ps: nat): nat
  {
    ps * ((w + 1) * 3 + 1)
  }

  /** Height of the canvas: one grid plus a cell of margin above and below. */
  function CanvasHeight(h: nat, ps: nat): nat
  {
    ps * (h + 2)
  }

  /** Left edge of grid `panel`: the mask share, the unmask share, the blank grid. */
  function PanelX(panel: nat, w: nat, ps: nat): nat
    requires panel < 3
  {
    if panel == 0 then ps
    else if panel == 1 then ps * (2 + w)
    else ps * (3 + 2 * w)
  }

  /**
   * The layout leaves exactly `ps` pixels between the canvas edge and each
   * grid and between neighbouring grids, so every grid fits inside the
   * canvas and no two grids share a pixel.
   */
  lemma LayoutFits(w: nat, h: nat, ps: nat)
    ensures PanelX(0, w, ps) == ps
    ensures PanelX(1, w, ps) == PanelX(0, w, ps) + ps * w + ps
    ensures PanelX(2, w, ps) == PanelX(1, w, ps) + ps * w + ps
    ensures CanvasWidth(w, ps) == PanelX(2, w, ps) + ps * w + ps
    ensures CanvasHeight(h, ps) == ps + ps * h + ps
    ensures forall p :: 0 <= p < 3 ==> GridFits(CanvasWidth(w, ps), CanvasHeight(h, ps), PanelX(p, w, ps), ps, ps, w, h)
    ensures forall p, q, i, j :: 0 <= p < q < 3 && InBlock(PanelX(p, w, ps), ps, ps, w, h, i, j) ==>
      !InBlock(PanelX(q, w, ps), ps, ps, w, h, i, j)
  {
    assert ps * (2 + w) == ps + ps * w + ps;
    assert ps * (3 + 2 * w) == ps * (2 + w) + ps * w + ps;
    assert ps * ((w + 1) * 3 + 1) == ps * (3 + 2 * w) + ps * w + ps;
    assert ps * (h + 2) == ps + ps * h + ps;
  }

  /**
   * The colour the finished canvas has at `(i, j)`: inside a grid, the
   * magnified picture of that grid's bitmap; elsewhere the WHITE background.
   */
  ghost function CanvasPixel(mask: array2<Color>, unmask: array2<Color>, blank: array2<Color>,
                             ps: nat, i: nat, j: nat): Color
    requires mask.Length0 == unmask.Length0 == blank.Length0
    requires mask.Length1 == unmask.Length1 == blank.Length1
    reads mask, unmask, blank
  {
    var w, h := mask.Length0, mask.Length1;
    if InBlock(PanelX(0, w, ps), ps, ps, w, h, i, j) then Magnified(mask, ps, i - PanelX(0, w, ps), j - ps)
    else if InBlock(PanelX(1, w, ps), ps, ps, w, h, i, j) then Magnified(unmask, ps, i - PanelX(1, w, ps), j - ps)
    else if InBlock(PanelX(2, w, ps), ps, ps, w, h, i, j) then Magnified(blank, ps, i - PanelX(2, w, ps), j - ps)
    else WHITE
  }

  /**
   * The body of `main` after the picture is loaded: split it into shares,
   * paint the canvas WHITE, and draw the mask share, the unmask share and
   * the blank bitmap magnified by `ps`. The three bitmaps are returned as
   * ghosts so that the canvas can be described in their terms.
   */
  method RenderShares(source: array2<Color>, bits: seq<bool>, ps: nat)
    returns (result: array2<Color>, ghost mask: array2<Color>, ghost unmask: array2<Color>, ghost blank: array2<Color>)
    requires |bits| == source.Length0 * source.Length1
    ensures fresh(result)
    ensures SharesOf(source, bits, mask, unmask, blank)
    ensures result.Length0 == CanvasWidth(source.Length0, ps)
    ensures result.Length1 == CanvasHeight(source.Length1, ps)
    ensures forall i, j :: 0 <= i < result.Length0 && 0 <= j < result.Length1 ==>
      result[i, j] == CanvasPixel(mask, unmask, blank, ps, i, j)
  {
    var w, h := source.Length0, source.Length1;
    var m, u, b := SplitShares(source, bits);
    mask, unmask, blank := m, u, b;
    var resultW, resultH := CanvasWidth(w, ps), CanvasHeight(h, ps);
    result := NewImage(resultW, resultH);
    DrawRect(result, 0, resultW, 0, resultH, WHITE);
    LayoutFits(w, h, ps);
    DrawBig(result, m, PanelX(0, w, ps), ps, ps);
    DrawBig(result, u, PanelX(1, w, ps), ps, ps);
    DrawBig(result, b, PanelX(2, w, ps), ps, ps);
  }

  /**
   * Stacking the two shares reveals the picture: inside cell `(x, y)` the
   * mask grid and the unmask grid differ exactly when source pixel `(x, y)`
   * is BLACK.
   */
  lemma SharesReveal(source: array2<Color>, bits: seq<bool>,
                     mask: array2<Color>, unmask: array2<Color>, blank: array2<Color>,
                     ps: nat, x: nat, y: nat, a: nat, b: nat)
    requires SharesOf(source, bits, mask, unmask, blank)
    requires x < source.Length0 && y < source.Length1 && 0 < a < ps && 0 < b < ps
    ensures (CanvasPixel(mask, unmask, blank, ps, PanelX(0, source.Length0, ps) + x * ps + a, ps + y * ps + b) == BLACK) !=
            (CanvasPixel(mask, unmask, blank, ps, PanelX(1, source.Length0, ps) + x * ps + a, ps + y * ps + b) == BLACK)
            <==> source[x, y] == BLACK
  {
    LayoutFits(source.Length0, source.Length1, ps);
    MagnifiedCell(mask, ps, x, y, a, b);
    MagnifiedCell(unmask, ps, x, y, a, b);
  }

  /** The third grid is empty: every cell interior is WHITE. */
  lemma BlankGridEmpty(source: array2<Color>, bits: seq<bool>,
                       mask: array2<Color>, unmask: array2<Color>, blank: array2<Color>,
                       ps: nat, x: nat, y: nat, a: nat, b: nat)
    requires SharesOf(source, bits, mask, unmask, blank)
    requires x < source.Length0 && y < source.Length1 && 0 < a < ps && 0 < b < ps
    ensures CanvasPixel(mask, unmask, blank, ps, PanelX(2, source.Length0, ps) + x * ps + a, ps + y * ps + b) == WHITE
  {
    LayoutFits(source.Length0, source.Length1, ps);
    MagnifiedCell(blank, ps, x, y, a, b);
  }
}
