# image-interleaver, modelled in Dafny

The repository has two small command-line tools that work on RGB pictures.

- **`interleave`** (`src/main.rs`) reads two pictures of the same size. It
  cuts both into vertical segments `width / num_segments` columns wide. It
  writes a picture twice as wide that holds each segment of the first
  picture followed by the same segment of the second. The first column of
  every copied segment gets a BLACK tick mark at its top and at its bottom.
- **`randomize`** (`src/bin/randomize.rs`) splits a picture into two
  random-looking shares for visual secret sharing. Stacked, the two shares
  show the picture again. It renders the two shares and an empty grid side by
  side on a WHITE canvas. Each bitmap is magnified by `pixel_size`, and every
  cell is outlined by BLACK grid lines.

The model is split into five modules:

- `Image` (`image.dfy`) defines colours, a new all-BLACK image, and the
  image-as-`array2<Color>` convention. Pixels are indexed `[x, y]`, so
  `Length0` is the width.
- `Arith` (`arith.dfy`) defines multiplication by repeated addition. It is
  used for pixel positions.
- `Grid` (`grid.dfy`) models `draw_rect` and `draw_big`. Its reference
  definition is `Magnified`, the colour that the magnified picture has at
  each offset of the grid block. `DrawBig` is proved to produce exactly that
  colour inside the block and to leave every other pixel alone.
- `Randomize` (`randomize.dfy`) models the share construction and the canvas
  layout of `randomize`'s `main`.
  - The shares are specified per pixel.
  - The layout is proved to place three non-overlapping grids inside the
    canvas.
  - The whole canvas is described pixel by pixel.
  - Inside every cell, the two shares differ exactly where the source pixel
    is BLACK.
- `Interleave` (`interleave.dfy`) models `draw_vertical_line`, the dimension
  check, and the segment walk of `interleave`'s `main`.
  - The segments the walk visits are given as a function, `Segments`.
  - Those segments are proved to tile the columns in order. Every segment but
    the last is `width / num_segments` wide, and their number is the least
    that covers the width.
  - The canvas is proved to hold every segment of both pictures, with the
    tick marks drawn.

The coins that `rand::random()` draws are an input sequence `bits`. They are
consumed in the order the tool draws them, outer loop over `x` and inner loop
over `y`.

Notes on what the code does at the edges:

- **The last segment is narrower.** The leftover columns form an extra,
  narrower last segment: width 10 with 3 segments gives segments 3, 3, 3
  and 1 columns wide (src/main.rs:45, `Interleave.SegmentExampleRemainder`).
- **The segment count can exceed the request.** Width 10 with 6 segments
  gives segments 1 column wide, so there are 10 of them (src/main.rs:39-45,
  `Interleave.SegmentExampleMany`).
- **Tick marks are 11 rows.** Each mark covers rows `0..=10` and
  `height-11..=height-1` (src/main.rs:47-51).
- **The far grid line is outside the cells.** The last vertical grid line
  sits at column `offset_x + pixel_size * width` itself, one past the last
  cell pixel (src/bin/randomize.rs:44-51). So a block with at least one row
  needs `offset_x + pixel_size * width < target width`, and the same holds
  for heights (`Grid.GridFits`).

## Model

| member | source | states |
|---|---|---|
| Image.NewImage | src/bin/randomize.rs:76-78 | a new image has the requested width and height and is BLACK everywhere |
| Grid.DrawRect | src/bin/randomize.rs:20-32 | the pixels of the rectangle `[xLo, xHi) × [yLo, yHi)` take the colour; every other pixel keeps its colour; an empty range draws nothing and may lie anywhere |
| Grid.OffGridLines | src/bin/randomize.rs:44-65 | a pixel strictly inside a cell is never on a grid line, so the line passes and the cell fills write disjoint pixels |
| Grid.DrawVerticalLines | src/bin/randomize.rs:44-51 | the `w + 1` vertical grid lines of the block are BLACK over rows `[oy, oy + ps*h)`; every other pixel keeps its colour: cell interiors, horizontal grid-line pixels between vertical lines, rows outside that span (the last horizontal line included), and everything outside the block |
| Grid.DrawHorizontalLines | src/bin/randomize.rs:52-59 | the `h + 1` horizontal grid lines of the block are BLACK and the vertical ones stay BLACK; cell interiors and everything outside the block keep their colour |
| Grid.DrawGridLines | src/bin/randomize.rs:44-59 | all `w + 1` vertical and `h + 1` horizontal grid lines of the block are BLACK; cell interiors and everything outside the block keep their colour |
| Grid.FillCell | src/bin/randomize.rs:62-67 | the interior of cell `(x, y)` takes the source pixel `(x, y)`; grid lines, other cells and everything outside the block keep their colour |
| Grid.FillCells | src/bin/randomize.rs:60-69 | every cell interior holds its source pixel, and the grid lines drawn before stay BLACK |
| Grid.DrawBig | src/bin/randomize.rs:37-70 | inside the block, every pixel is the `Magnified` colour of the source at that offset; every pixel outside the block is unchanged |
| Grid.GridPixel | src/bin/randomize.rs:44-69 | black grid lines plus filled cell interiors determine the whole block: each block pixel equals `Magnified` |
| Grid.SameCell | src/bin/randomize.rs:64-65 | position `k * ps + a`, with `a < ps`, lies in cell span `[x * ps, (x + 1) * ps)` exactly when `k == x`, so cells do not overlap |
| Grid.MagnifiedVerticalLine | src/bin/randomize.rs:44-51 | every column `k * ps` of the block, for `k ≤ width`, is BLACK in the magnified picture |
| Grid.MagnifiedHorizontalLine | src/bin/randomize.rs:52-59 | every row `k * ps` of the block, for `k ≤ height`, is BLACK in the magnified picture |
| Grid.MagnifiedCell | src/bin/randomize.rs:60-69 | each interior pixel of cell `(x, y)` shows source pixel `(x, y)` and lies inside the block |
| Grid.MagnifiedUnit | src/bin/randomize.rs:64-65 | with `pixel_size` 1 the cell interiors are empty, and the block is all BLACK |
| Randomize.MaskColor | src/bin/randomize.rs:82-83 | the mask share is BLACK exactly when the coin is true, and WHITE otherwise |
| Randomize.UnmaskColor | src/bin/randomize.rs:84-85 | the unmask share is BLACK or WHITE; it differs from the mask share exactly when the source pixel is BLACK; a non-BLACK source pixel gets the mask colour |
| Randomize.SplitShares | src/bin/randomize.rs:76-88 | three fresh bitmaps of the source's size: the mask share and the unmask share built from coin `x * height + y`, and an all-WHITE bitmap |
| Randomize.LayoutFits | src/bin/randomize.rs:90-118 | the three grids start at `ps`, `ps * (2 + w)` and `ps * (3 + 2w)`, with gaps of exactly `ps` between them and at the canvas edges; each fits the canvas and no two overlap |
| Randomize.RenderShares | src/bin/randomize.rs:76-118 | the canvas has the computed size; every pixel is the magnified mask, the magnified unmask or the magnified blank grid inside their blocks, and WHITE elsewhere |
| Randomize.SharesReveal | src/bin/randomize.rs:82-110 | inside cell `(x, y)`, the mask grid and the unmask grid on the canvas differ exactly when source pixel `(x, y)` is BLACK |
| Randomize.BlankGridEmpty | src/bin/randomize.rs:86-118 | every cell interior of the third grid on the canvas is WHITE |
| Interleave.DrawVerticalLine | src/main.rs:20-24 | pixels `(x, y1) ..= (x, y2)` become BLACK; every other pixel is unchanged; an empty range draws nothing |
| Interleave.CheckDimensions | src/main.rs:31-37 | no error exactly when widths and heights agree; a width mismatch is reported before a height mismatch, with both values |
| Interleave.SegmentWidth | src/main.rs:39 | the segment width is positive exactly when there are no more segments than columns |
| Interleave.SegmentsTile | src/main.rs:43-52 | the walk's segments are non-empty, start at the first column, each starts where the previous one ends, and the last ends at the width |
| Interleave.SegmentWidths | src/main.rs:45 | no segment is wider than the segment width, and every segment but the last is exactly that wide |
| Interleave.ContiguousOrdered | src/main.rs:43-52 | contiguous segments have strictly increasing starts and lie within the columns they tile |
| Interleave.ContiguousCovers | src/main.rs:41-52 | every column is inside some segment of a contiguous tiling |
| Interleave.OutputCovered | src/main.rs:41-52 | every one of the `2 * width` output columns lies in the two copies of some segment of a tiling of `[0, width)` |
| Interleave.SegmentCount | src/main.rs:39-52 | the number of segments is the least whose total of full-width segments covers the remaining columns |
| Interleave.SegmentExampleRemainder | src/main.rs:45 | width 10 with 3 segments gives segments (0,3), (3,3), (6,3) and (9,1) |
| Interleave.SegmentExampleMany | src/main.rs:39-45 | width 10 with 6 segments gives 10 segments |
| Interleave.CopyColumns | src/main.rs:46 | output columns `[dstX, dstX + cols)` take source columns `[srcX, srcX + cols)`; other columns are unchanged |
| Interleave.DrawHalf | src/main.rs:46-48 | the copied columns hold the picture's columns except on the first copied column's tick rows, which are BLACK; nothing else changes |
| Interleave.DrawSegment | src/main.rs:45-51 | the segment is drawn: first picture's columns, then the second picture's, each with its tick marks; columns outside `[2sx, 2(sx + w))` are unchanged |
| Interleave.DrawNextSegment | src/main.rs:44-52 | one more step keeps every earlier segment drawn, adds the new one, and leaves every output column outside its two copies unchanged |
| Interleave.DrawAllSegments | src/main.rs:43-53 | from column 0 to the width, every segment of the walk is drawn on the canvas |
| Interleave.InterleaveSegments | src/main.rs:39-53 | a fresh canvas `2 * width × height` on which every segment of the walk is drawn; the segments tile the columns, and their copies cover every output column |
| Interleave.Interleave | src/main.rs:31-53 | mismatched sizes fail with the first mismatch and no canvas; matching sizes give the interleaved canvas, with every output column inside a drawn segment |

## Left out

- Command-line parsing (`clap`), opening and decoding the input files,
  `to_rgb8`, saving the result (`result.png` and `result_filename`) and the
  `anyhow` error plumbing are not modelled. Pictures are given as arrays, and
  the result is returned.
- `rand::random()` is replaced by the input sequence `bits`. Nothing is said
  about the distribution of the coins. So the statement that a single share
  reveals nothing about the picture is not part of this model.
- Arithmetic on `u32` is modelled on unbounded naturals. Overflow in
  `pixel_size * ((width + 1) * 3 + 1)`, in `2 * width`, or in the grid
  positions is not modelled.
- Panics and non-termination become preconditions:
  - `put_pixel` outside the image.
  - Division by zero when `num_segments` is 0.
  - The tick marks (src/main.rs:47-51) when a non-empty picture has fewer
    than 11 rows: the top mark, rows `0..=10`, already leaves the canvas.
  - The walk that never advances when `num_segments > width > 0`.

  The model says nothing about the behaviour in those cases.
- `copy_from` returns a `Result`, and `view` builds a sub-image. The copy
  always lies inside the canvas here, so both are modelled by a plain column
  copy, `CopyColumns`, with an in-bounds precondition. The error branch is not
  modelled.
- Colours are compared only for equality. Any pixel other than exact BLACK
  counts as "not black" for the unmask share, as in the tool. Colour channels
  carry no further meaning.
