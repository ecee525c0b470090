# drawshell canvases in Dafny

drawshell is a command shell that draws on a character canvas. You create a
canvas of `w` by `h` cells, then draw horizontal and vertical lines and
rectangles, flood-fill a region with a colour (a character), and print the
canvas framed by border characters. The repository has two canvas engines.
This project models both of them and proves properties of each. It also
proves that the two engines agree.

* **The sparse, layered canvas** (`ru.nuyanzin.canvas`). The canvas keeps a
  map from each colour to a `Layer`. A layer holds one optional bit set per
  row. The background colour `' '` starts with every cell, in an
  `EmptyLayer`. The line colour `'x'` starts with an empty layer.
  - Drawing sets the cells in the layer of the colour and clears them in
    every other layer.
  - Filling moves the connected region of the seed's colour into the layer of
    the target colour. The region is 4-connected or 8-connected. Layers left
    without cells are then dropped.
  - Printing walks each row, looks up the layer that owns each cell and
    writes runs of its colour.
* **The dense canvas** (`com.springer`). It is one `char[]` of `w * h`
  cells, zero-initialised.
  - Lines write the clipped segment.
  - Fill is a recursive breadth-first flood over 4-neighbours, working on
    array indices.
  - `toString` shows control characters as spaces.

## How the model is built

- `connectivity.dfy` (module `Connectivity`) defines cells, 4-way and 8-way
  adjacency, paths, and the connected component of a seed in a set of cells.
  Both fills are specified by that component.
- `rows.dfy` (module `Rows`) models a `BitSet` row.
  - A row is `Absent` (a `null` row) or `Present(bits)`.
  - The `BitSet` queries the layer uses are functions: `previousSetBit`,
    `nextClearBit` and the others.
  - So are the layer's own run queries (`getFirstSetIndexInARow`,
    `getLastSetIndexInARow`, `getPrevIndex`, `getNextIndex`), with contracts
    saying which run they find.
- `layer.dfy` (module `Layers`) holds `class Layer`. It has a `points:
  array<Row>`, which the drawing methods and the fill update in place.
  - Every loop of `Layer.java` is a `while` loop with its invariants.
  - `Fill` is proved to move exactly the connected component of the seed from
    this layer into the destination layer. This holds both for 4-way and for
    8-way fills.
  - The proof rests on the ghost invariant in `fill_invariant.dfy` (module
    `FillInvariant`), kept by every step of the `do … while` loop.
  - Termination rests on a ghost measure: the number of cells still in the
    layer strictly drops on every pass that `getLineToHandleAgain` asks for.
- `picture.dfy` (module `Picture`) is the specification of the sparse canvas.
  - A picture maps each colour to the set of cells it owns. It is a partition
    of the grid.
  - It defines painting, dropping empty colours, the cells of a clipped line,
    the rectangle outline, and the fill (colour change of the seed's
    component).
  - It also defines the text that printing produces.
  - Lemmas prove that these operations keep the partition, and prove
    symmetry, idempotence and fill round-trips.
- `sparse_canvas.dfy` (module `SparseCanvas`) holds `class Canvas`. It has a
  `layers: map<char, Layer>` field.
  - The ghost function `Colours()` reads the picture off the layers.
  - Each method is proved against `Picture`: `DrawLine`, `DrawRectangle`,
    `Fill`, `CleanEmptyLayers`, `PrintTo` and `ToString`.
  - The `Appendable` output, with its flush threshold of 5000000 characters,
    is the value type `Output`.
- `dense_canvas.dfy` (module `DenseCanvas`) holds `class Canvas`. It has a
  `canvasBoard: array<char>` field.
  - Each method is proved against a function of the old board. `Drawn`
    writes a set of cells. `Filled` recolours the seed's 4-connected region.
    `Render` gives the text of `toString`.
  - The recursive `updateColorNeighbours` is a recursive method. Its ghost
    frontier invariant shows that the board it leaves is `Drawn(orig,
    region, newColor)`.
- `agreement.dfy` (module `Agreement`) relates the two engines.
  - A dense board and a picture agree when every cell shows the same
    character in both.
  - Creating, drawing lines and rectangles, and 4-way filling keep agreeing
    canvases in agreement. For filling, this needs a faithful dense board.
  - Agreeing canvases print the same text, except for the sparse canvas's
    final newline.
- `int32.dfy` (module `Int32`) gives Java `int` range and wrap-around
  (`Wrap32`). The model wraps the line loop starts, the border widths and
  the dense `toString` capacity. The overflows it does not model are listed
  under "## Left out".

## Model

| member | source | states |
|---|---|---|
| Layers.Layer.constructor | src/main/java/ru/nuyanzin/canvas/Layer.java:14-17 | a new layer has `height` absent rows, owns no cell and keeps the given width |
| Layers.Layer.Background | src/main/java/ru/nuyanzin/canvas/EmptyLayer.java:10-18 | the background layer has every row set on columns `0..width-1`, so it owns the whole grid |
| Layers.Layer.LazyInitBitSet | src/main/java/ru/nuyanzin/canvas/Layer.java:433-437 | an absent row becomes an empty present row and every other row is unchanged; the layer's cells do not change |
| Layers.Layer.DrawVerticalLine | src/main/java/ru/nuyanzin/canvas/Layer.java:33-40 | rows `y1..y2` gain column `x` (created when absent) and no other row changes; the layer gains exactly the vertical segment |
| Layers.Layer.ClearVerticalLine | src/main/java/ru/nuyanzin/canvas/Layer.java:51-63 | present rows `y1..y2` lose column `x` and become absent when emptied; the layer loses exactly the segment |
| Layers.Layer.DrawHorizontalLine | src/main/java/ru/nuyanzin/canvas/Layer.java:74-79 | row `y` gains columns `x1..x2`, other rows unchanged; the layer gains exactly the horizontal segment |
| Layers.Layer.ClearHorizontalLine | src/main/java/ru/nuyanzin/canvas/Layer.java:90-104 | row `y` becomes absent when it was absent, when the span touches both edges, or when emptied; otherwise it loses `x1..x2`; the layer loses exactly the segment |
| Layers.Layer.GetDownBoundary | src/main/java/ru/nuyanzin/canvas/Layer.java:185-197 | an absent start row is its own boundary; otherwise the result is a present row, every row from just below it to the start is non-empty, and it is row 0, an empty row, or has an absent row below it |
| Layers.Layer.GetUpBoundary | src/main/java/ru/nuyanzin/canvas/Layer.java:164-176 | the mirror image of the down boundary, towards the last row |
| Layers.DownBoundaryUnique | src/main/java/ru/nuyanzin/canvas/Layer.java:185-197 | only one row meets the down-boundary conditions, so they fix the returned row |
| Layers.UpBoundaryUnique | src/main/java/ru/nuyanzin/canvas/Layer.java:164-176 | only one row meets the up-boundary conditions, so they fix the returned row |
| Layers.Layer.HandleNeighbours | src/main/java/ru/nuyanzin/canvas/Layer.java:285-309 | with `prevIndex == -1` nothing is marked; otherwise the destination row gains exactly the runs of the layer row that meet columns `prevIndex..nextIndex`, and no other row changes |
| Layers.Layer.AddColumns | src/main/java/ru/nuyanzin/canvas/Layer.java:305 | the accumulator row gains exactly the given columns, and no other row changes |
| Layers.Layer.MarkProbe | src/main/java/ru/nuyanzin/canvas/Layer.java:226-231 | one diagonal `handleNeighbours` call around a run end adds exactly the runs of the neighbouring row that meet its `getPrevIndex..getNextIndex` span, and no other row changes |
| Layers.Layer.HandleAdjacentLine | src/main/java/ru/nuyanzin/canvas/Layer.java:222-240 | the three calls for one neighbouring row add, in order, the probe at the run start (8-way, `k > 0`), the runs meeting the run, and the probe at the run end (8-way, `k < width - 1`) |
| Layers.Layer.TakeRun | src/main/java/ru/nuyanzin/canvas/Layer.java:273-280 | the run `p..n` is set in the accumulator and cleared in the layer; the layer row becomes absent exactly in the two cases the source tests |
| Layers.Layer.MarkSides | src/main/java/ru/nuyanzin/canvas/Layer.java:221-271 | marking both neighbouring rows keeps the fill invariant, only adds marks, and covers every layer cell next to the run |
| Layers.Layer.MarkSide | src/main/java/ru/nuyanzin/canvas/Layer.java:227-270 | one neighbouring row's marking keeps the fill invariant, changes neither the layer nor the run's own row, and covers every layer cell of that row next to the run |
| Layers.Layer.MoveRun | src/main/java/ru/nuyanzin/canvas/Layer.java:221-280 | moving a marked run keeps the fill invariant and strictly shrinks the layer |
| Layers.Layer.ColumnStep | src/main/java/ru/nuyanzin/canvas/Layer.java:216-282 | one column of the sweep either changes nothing (column not both marked and in the layer) or moves a run, shrinking the layer, and continues after `nextIndex` |
| Layers.Layer.GoLeftOrRight | src/main/java/ru/nuyanzin/canvas/Layer.java:208-283 | one row sweep keeps the fill invariant and, when the row's marks meet the layer row, strictly shrinks the layer |
| Layers.Layer.SweepRow | src/main/java/ru/nuyanzin/canvas/Layer.java:137 | `goLeftOrRight` on one more row keeps the invariant, and when the layer did not shrink, no swept row overlaps the layer |
| Layers.Layer.SweepDown | src/main/java/ru/nuyanzin/canvas/Layer.java:136-138 | the loop from row `y` down to the lower boundary keeps the invariant and shrinks the layer if one of its rows overlapped |
| Layers.Layer.SweepUp | src/main/java/ru/nuyanzin/canvas/Layer.java:139-141 | the loop from row `y + 1` up to the upper boundary keeps the invariant and shrinks the layer if one of its rows overlapped |
| Layers.Layer.Sweep | src/main/java/ru/nuyanzin/canvas/Layer.java:136-141 | the downward then upward sweep keeps the invariant and shrinks the layer whenever some window row overlapped |
| Layers.Layer.NewAccumulator | src/main/java/ru/nuyanzin/canvas/Layer.java:126-131 | a fresh array of `height` rows in which the window rows are present and empty and all other rows are absent |
| Layers.Layer.MergeInto | src/main/java/ru/nuyanzin/canvas/Layer.java:144-153 | every destination row gains exactly the accumulator row's columns, so the destination's cells gain exactly the accumulator's |
| Layers.Layer.GetLineToHandleAgain | src/main/java/ru/nuyanzin/canvas/Layer.java:391-426 | the result is -1 exactly when no window row triggers any of the source's tests; otherwise it is a window row within one row of a row that triggers |
| Layers.Layer.Converge | src/main/java/ru/nuyanzin/canvas/Layer.java:135-143 | the `do … while` loop ends with no window row of the accumulator meeting the layer, and keeps the invariant |
| Layers.Layer.Flood | src/main/java/ru/nuyanzin/canvas/Layer.java:124-143 | the new accumulator holds exactly the seed's component (4-way or 8-way), and the layer loses exactly that component |
| Layers.Layer.Fill | src/main/java/ru/nuyanzin/canvas/Layer.java:116-155 | a seed not in the layer returns this layer with nothing changed; otherwise the destination is returned, the layer loses the seed's component and the destination gains it |
| FillInvariant.FillInvInit | src/main/java/ru/nuyanzin/canvas/Layer.java:126-134 | the accumulator allocated on the window with only the seed set satisfies the fill invariant |
| FillInvariant.MoveKeeps | src/main/java/ru/nuyanzin/canvas/Layer.java:273-280 | moving a run whose neighbours are covered keeps every clause of the invariant |
| FillInvariant.HandleKeeps | src/main/java/ru/nuyanzin/canvas/Layer.java:222-240 | marking the neighbour runs of a region run only marks region cells and keeps the invariant |
| FillInvariant.TriggerMeansOverlap | src/main/java/ru/nuyanzin/canvas/Layer.java:395-425 | under the invariant, any row the convergence test reports implies a window row whose marks still meet the layer |
| FillInvariant.OverlapTriggers | src/main/java/ru/nuyanzin/canvas/Layer.java:399-401 | conversely, a window row whose marks meet the layer is reported |
| FillInvariant.FillComplete | src/main/java/ru/nuyanzin/canvas/Layer.java:135-155 | once no window row overlaps, the accumulator is exactly the seed's component and the layer keeps the rest |
| FillInvariant.AdjacentMarksCoverEnds | src/main/java/ru/nuyanzin/canvas/Layer.java:226-248 | the 8-way probes mark the set columns just before and just after the run |
| Rows.GetFirstSetIndexInARow | src/main/java/ru/nuyanzin/canvas/Layer.java:351-364 | for a set column, the start of its run; for a clear column, -1 |
| Rows.GetLastSetIndexInARow | src/main/java/ru/nuyanzin/canvas/Layer.java:366-379 | for a set column, the end of its run (below the width); for a clear column, -1 |
| Rows.GetPrevIndex | src/main/java/ru/nuyanzin/canvas/Layer.java:338-349 | the start of the run through the column, else through its left, else through its right neighbour; -1 when all three are clear |
| Rows.GetNextIndex | src/main/java/ru/nuyanzin/canvas/Layer.java:318-329 | the end of the run through the column, else through its right, else its left neighbour; -1 when all three are clear |
| Rows.RunStartShared | src/main/java/ru/nuyanzin/canvas/Layer.java:351-379 | two columns of one run have the same run start and end |
| Rows.ProbedSpanTouches | src/main/java/ru/nuyanzin/canvas/Layer.java:318-349 | every set column in `getPrevIndex..getNextIndex` around `f` shares a run with a set column among `f-1, f, f+1` |
| Rows.RunsMeetingBelowRun | src/main/java/ru/nuyanzin/canvas/Layer.java:292-307 | one pass of the `handleNeighbours` loop adds exactly the run through the visited column |
| Picture.InitialPartition | src/main/java/ru/nuyanzin/canvas/Canvas.java:55-62 | the initial layers (empty line colour, background with every cell) partition the grid |
| Picture.PaintKeepsPartition | src/main/java/ru/nuyanzin/canvas/Canvas.java:97-125 | drawing in one layer and clearing in the others keeps the layers a partition |
| Picture.DrawnLineCovers | src/main/java/ru/nuyanzin/canvas/Canvas.java:84-95 | a line paints no cell exactly when it misses the canvas or is diagonal |
| Picture.DrawLineSymmetric | src/main/java/ru/nuyanzin/canvas/Canvas.java:77-127 | swapping the two end points draws the same line |
| Picture.DrawLineIdempotent | src/main/java/ru/nuyanzin/canvas/Canvas.java:77-127 | drawing the same line twice equals drawing it once |
| Picture.RectangleIsOutline | src/main/java/ru/nuyanzin/canvas/Canvas.java:197-206 | the four chained lines paint exactly the clipped outline of the rectangle |
| Picture.RectangleCornerOrder | src/main/java/ru/nuyanzin/canvas/Canvas.java:197-206 | any pair of opposite corners gives the same rectangle |
| Picture.RectangleIdempotent | src/main/java/ru/nuyanzin/canvas/Canvas.java:197-206 | drawing the same rectangle twice equals drawing it once |
| Picture.CleanDrops | src/main/java/ru/nuyanzin/canvas/Canvas.java:293-308 | cleaning removes exactly the colours without cells |
| Picture.CleanKeepsPartition | src/main/java/ru/nuyanzin/canvas/Canvas.java:293-308 | dropping empty colours keeps the partition |
| Picture.FillKeepsPartition | src/main/java/ru/nuyanzin/canvas/Canvas.java:264-288 | a fill keeps the partition and, when it changes anything, leaves no empty colour |
| Picture.FillAsMove | src/main/java/ru/nuyanzin/canvas/Canvas.java:276-286 | the fill region is the seed's component in its owner's layer, and painting it is moving it from the owner to the target |
| Picture.FillWithUnused | src/main/java/ru/nuyanzin/canvas/Canvas.java:264-288 | filling with an unused colour gives that colour exactly the seed's region |
| Picture.FillRoundTrip | src/main/java/ru/nuyanzin/canvas/Canvas.java:264-288 | filling with an unused colour and then filling back with the seed's old colour restores the picture, up to dropping empty colours |
| Picture.FillAfterUnused | src/main/java/ru/nuyanzin/canvas/Canvas.java:264-288 | a second fill from the same seed recolours exactly the region the first fill produced |
| Picture.RenderingShows | src/main/java/ru/nuyanzin/canvas/Canvas.java:319-391 | the printed text has `(w + 3) * (h + 2)` characters and shows each cell's owning colour at its row and column |
| SparseCanvas.ClipRange | src/main/java/ru/nuyanzin/canvas/Canvas.java:129-138 | of GetMinIntersectionCoordinate and GetMaxIntersectionCoordinate: for a line that meets the canvas, the clipped 0-based range is within the canvas and holds exactly the 1-based coordinates between the two ends, `Integer.MIN_VALUE` included |
| SparseCanvas.VerticalLineCells | src/main/java/ru/nuyanzin/canvas/Canvas.java:101-103 | the layer segment drawn for `x1 == x2` is exactly the clipped line |
| SparseCanvas.HorizontalLineCells | src/main/java/ru/nuyanzin/canvas/Canvas.java:113-115 | the layer segment drawn for a horizontal line is exactly the clipped line |
| SparseCanvas.BorderLength32 | src/main/java/ru/nuyanzin/canvas/Canvas.java:321 | the border loop bound `width + 2` in `int`: the border length when it fits, none once it wraps |
| SparseCanvas.BorderWraps | src/main/java/ru/nuyanzin/canvas/Canvas.java:334 | for widths `Integer.MAX_VALUE - 1` and `Integer.MAX_VALUE` no border character is printed |
| SparseCanvas.Append | src/main/java/ru/nuyanzin/canvas/Canvas.java:322-327 | appending one character with a flush keeps the text written so far plus the character, and the buffer stays below the threshold |
| SparseCanvas.Canvas.constructor | src/main/java/ru/nuyanzin/canvas/Canvas.java:55-62 | the new canvas's picture is an empty `'x'` colour and a `' '` colour owning the whole grid |
| SparseCanvas.Canvas.GetLayerForPoint | src/main/java/ru/nuyanzin/canvas/Canvas.java:215-229 | inside the canvas, the colour that owns the cell; beyond the width, none (`null`) |
| SparseCanvas.Canvas.AddLayer | src/main/java/ru/nuyanzin/canvas/Canvas.java:97-99 | a missing colour gets a new empty layer; the picture gains at most that empty colour |
| SparseCanvas.Canvas.PaintVertical | src/main/java/ru/nuyanzin/canvas/Canvas.java:104-112 | the loop over all layers draws in the colour's layer and clears elsewhere: the picture is painted with the segment |
| SparseCanvas.Canvas.PaintHorizontal | src/main/java/ru/nuyanzin/canvas/Canvas.java:116-124 | as PaintVertical, for a row segment |
| SparseCanvas.Canvas.VerticalStep | src/main/java/ru/nuyanzin/canvas/Canvas.java:104-110 | one layer of the vertical loop: the colour's layer gains the segment and any other layer loses it, and no other layer changes |
| SparseCanvas.Canvas.HorizontalStep | src/main/java/ru/nuyanzin/canvas/Canvas.java:116-122 | the same step for a row segment |
| SparseCanvas.Canvas.DrawVerticalClipped | src/main/java/ru/nuyanzin/canvas/Canvas.java:100-111 | a vertical line that meets the canvas paints exactly its clipped cells in the colour |
| SparseCanvas.Canvas.DrawHorizontalClipped | src/main/java/ru/nuyanzin/canvas/Canvas.java:112-124 | a horizontal line that meets the canvas paints exactly its clipped cells in the colour |
| SparseCanvas.Canvas.DrawLine | src/main/java/ru/nuyanzin/canvas/Canvas.java:77-127 | the new picture is the old one with the clipped line painted; a line that misses the canvas, or a diagonal one, changes nothing |
| SparseCanvas.Canvas.DrawRectangle | src/main/java/ru/nuyanzin/canvas/Canvas.java:197-206 | the new picture is the rectangle specification: the four lines drawn in turn |
| SparseCanvas.Canvas.MoveRegion | src/main/java/ru/nuyanzin/canvas/Canvas.java:284 | the owner loses the seed's component and the target gains it; no other layer changes |
| SparseCanvas.Canvas.Recolour | src/main/java/ru/nuyanzin/canvas/Canvas.java:279-287 | filling from a cell whose owner is not the target gives the fill specification |
| SparseCanvas.Canvas.Fill | src/main/java/ru/nuyanzin/canvas/Canvas.java:264-288 | the new picture is the fill specification: nothing when the seed already shows the target, else its component recoloured and empty colours dropped |
| SparseCanvas.Canvas.EmptyColours | src/main/java/ru/nuyanzin/canvas/Canvas.java:293-304 | the candidates are exactly the colours whose layer has no cell |
| SparseCanvas.Canvas.LayerHasPoints | src/main/java/ru/nuyanzin/canvas/Canvas.java:297-303 | the row scan finds a non-empty row exactly when the layer owns some cell |
| SparseCanvas.Canvas.DropLayers | src/main/java/ru/nuyanzin/canvas/Canvas.java:305-307 | the canvas keeps exactly the colours that are not candidates |
| SparseCanvas.Canvas.CleanEmptyLayers | src/main/java/ru/nuyanzin/canvas/Canvas.java:293-308 | the new picture is the old one without its empty colours |
| SparseCanvas.Canvas.RunAt | src/main/java/ru/nuyanzin/canvas/Canvas.java:359-377 | the colour at the cursor owns every cell from the cursor to the returned end, and the column after that end, if any, has another owner, so the end is the end of the run |
| SparseCanvas.Canvas.AppendRun | src/main/java/ru/nuyanzin/canvas/Canvas.java:372-378 | the text gains `key` exactly once per column from the cursor to the run end, whatever is flushed on the way |
| SparseCanvas.Canvas.LineToAppendable | src/main/java/ru/nuyanzin/canvas/Canvas.java:353-391 | the text grows by exactly the row's line: border, each cell's colour, border, newline |
| SparseCanvas.Canvas.RowsToAppendable | src/main/java/ru/nuyanzin/canvas/Canvas.java:331-333 | the text grows by exactly all row lines |
| SparseCanvas.Canvas.PrintTo | src/main/java/ru/nuyanzin/canvas/Canvas.java:319-344 | the chunks written, concatenated, are exactly the rendering of the picture |
| SparseCanvas.Canvas.ToString | src/main/java/ru/nuyanzin/canvas/Canvas.java:401-410 | the string is exactly the rendering of the picture |
| DenseCanvas.Canvas.constructor | src/main/java/com/springer/Canvas.java:42-46 | a new board of `w * h` cells, all `'\0'` |
| DenseCanvas.Canvas.PutVerticalLine | src/main/java/com/springer/Canvas.java:123-137 | the board becomes the old board with the clipped column segment written; off-canvas lines change nothing |
| DenseCanvas.Canvas.PutHorizontalLine | src/main/java/com/springer/Canvas.java:164-178 | the same for a row segment |
| DenseCanvas.Canvas.PutLine | src/main/java/com/springer/Canvas.java:70-80 | a vertical or horizontal line is written; any other line is unsupported and leaves the board unchanged |
| DenseCanvas.Canvas.PutRectangle | src/main/java/com/springer/Canvas.java:192-200 | the board gets the clipped outline written in `'x'` |
| DenseCanvas.Canvas.Fill | src/main/java/com/springer/Canvas.java:212-224 | the board becomes `Filled`: unchanged off the canvas or when the seed already holds `c`, else the seed's 4-connected region holds `c` |
| DenseCanvas.Canvas.NeighboursToUpdate | src/main/java/com/springer/Canvas.java:243-256 | the candidates of one point are exactly its in-board, same-row-aware 4-neighbours holding the initial colour |
| DenseCanvas.Canvas.UpdateColorNeighbours | src/main/java/com/springer/Canvas.java:233-259 | from a frontier of region cells, the recursion leaves exactly the seed's region written with the new colour |
| DenseCanvas.Canvas.AppendHorizontalBoundary | src/main/java/com/springer/Canvas.java:52-56 | appends `width + 2` dashes, none when that `int` sum is not positive |
| DenseCanvas.Canvas.ToString | src/main/java/com/springer/Canvas.java:267-290 | NegativeArraySize exactly when the `int` capacity `(width + 2) * (height + 2)` is negative; otherwise the string is exactly `Render` of the board |
| DenseCanvas.Canvas.Framed | src/main/java/com/springer/Canvas.java:269-289 | the border lines and the framed rows it builds are exactly `Render` of the board |
| DenseCanvas.Canvas.FrameChar | src/main/java/com/springer/Canvas.java:275-284 | the character at column `j` of row `i` is the vertical boundary at both ends and the shown cell character in between, the one `Render` puts there |
| DenseCanvas.Canvas.Capacity | src/main/java/com/springer/Canvas.java:268 | the capacity is `(width + 2) * (height + 2)` with each step wrapped to `int`, as `Capacity32` states |
| DenseCanvas.CapacityFits | src/main/java/com/springer/Canvas.java:268 | without wrap-around the capacity is `(width + 2) * (height + 2)`, which is non-negative |
| DenseCanvas.CapacityNegative | src/main/java/com/springer/Canvas.java:268 | a 46340 x 46340 board and a -3 x 0 board, both accepted by the constructor, have a negative capacity |
| DenseCanvas.NeighbourIndexWraps | src/main/java/com/springer/Canvas.java:243 | on a (2^30 - 1) x 2 board an on-board index plus the width wraps to a negative `int` |
| DenseCanvas.FillRecolours | src/main/java/com/springer/Canvas.java:212-259 | after a fill, a cell holds `c` when it is in the seed's region and keeps its character otherwise |
| DenseCanvas.FillColoursSeed | src/main/java/com/springer/Canvas.java:212-224 | after a fill from an in-canvas cell, that cell holds `c` |
| DenseCanvas.FillTwice | src/main/java/com/springer/Canvas.java:212-224 | filling the same cell with the same character twice equals filling once |
| DenseCanvas.FillStopsAtEdge | src/main/java/com/springer/Canvas.java:243-256 | a cell next to the region but outside it holds a different character from the seed |
| DenseCanvas.RectangleCornerOrder | src/main/java/com/springer/Canvas.java:192-200 | any pair of opposite corners writes the same rectangle |
| DenseCanvas.VerticalCells | src/main/java/com/springer/Canvas.java:127-135 | the cells the column loop writes are exactly the clipped line |
| DenseCanvas.HorizontalCells | src/main/java/com/springer/Canvas.java:168-176 | the cells the row loop writes are exactly the clipped line |
| DenseCanvas.MissedCells | src/main/java/com/springer/Canvas.java:127-130 | a line that misses the canvas has no cell on it |
| DenseCanvas.LoopStartWraps | src/main/java/com/springer/Canvas.java:131 | LoopStart32, the start as written: from row `Integer.MIN_VALUE` to row 1 the loop starts at `Integer.MAX_VALUE`, although the line covers the only cell of a 1 x 1 canvas |
| DenseCanvas.LoopStartAgrees | src/main/java/com/springer/Canvas.java:172 | LoopStart32: away from `Integer.MIN_VALUE` the loop start as written equals the corrected one |
| DenseCanvas.Shown | src/main/java/com/springer/Canvas.java:278-283 | what a cell shows is never a control character, and a printable character shows as itself |
| DenseCanvas.FrameWidthWraps | src/main/java/com/springer/Canvas.java:268-274 | for widths `Integer.MAX_VALUE - 1` and `Integer.MAX_VALUE`, `width + 2` is negative in `int` |
| DenseCanvas.RenderShows | src/main/java/com/springer/Canvas.java:267-290 | each cell's shown character sits at row `y + 1`, column `x + 1` of the text |
| DenseCanvas.RenderEmpty | src/main/java/com/springer/Canvas.java:267-290 | a 0 x 0 canvas prints two border lines of two dashes |
| DenseCanvas.RenderNegative | src/main/java/com/springer/Canvas.java:268-274 | for width -1 the borders have one dash; for width -2 nothing is printed |
| Agreement.InitialAgree | src/main/java/com/springer/Canvas.java:42-46 | a new dense board agrees with a new sparse canvas, whose picture is a partition |
| Agreement.PaintAgrees | src/main/java/ru/nuyanzin/canvas/Canvas.java:97-125 | writing a printable character into a set of cells keeps the board in agreement with the picture painted on those cells |
| Agreement.LineAgrees | src/main/java/com/springer/Canvas.java:70-80 | drawing the same line with a printable colour on both agreeing canvases keeps them in agreement |
| Agreement.RectangleAgrees | src/main/java/com/springer/Canvas.java:192-200 | the same for a rectangle in `'x'` |
| Agreement.SameRegion | src/main/java/com/springer/Canvas.java:233-259 | on a faithful board, the dense fill region and the sparse 4-way fill region of a seed are the same cells |
| Agreement.FillAgrees | src/test/java/com/springer/CanvasTest.java:163-200 | a 4-way fill with a printable colour on both agreeing canvases keeps them in agreement, and the picture a partition |
| Agreement.RenderAgrees | src/test/java/ru/nuyanzin/canvas/CanvasTest.java:320-361 | agreeing canvases print the same text, the sparse text having one more newline at the end |

## Left out

- I/O is not modelled. The `Appendable` is the value type `Output`. The
  `IOException` path cannot happen for it. The "out of the region" message
  that the dense `fill` prints is not modelled.
- The borders and the 8-way flag come from the shell's options. They
  are parameters here (`hBorder`, `vBorder`, `isB4`). Parsing the options and
  the shell commands is not part of this model.
- The overloads that supply the default character (`drawLine`, `fill`,
  `putLine`, `putVerticalLine`, `putHorizontalLine` without a colour) are not
  separate members. Neither is the `return this` chaining. They only forward
  to the modelled methods.
- `getWidth` and `getHeight` are plain field reads. So is `Layer.getLine`.
- The `Layer(BitSet[] points, int width)` constructor is not modelled. The
  canvas never calls it.
- `HashMap` and `HashSet` iteration order is not modelled. `layers` is a
  `map`. `cleanEmptyLayers` and the per-layer drawing loops are proved for
  any order. The dense candidates are a `set<int>`.
- `Character.getType(c) == CONTROL` is modelled as the Unicode `Cc`
  category, which is code points 0–31 and 127–159.
- Layers.Layer.Fill requires `0 <= startY < height`, as the source does by
  indexing `points[startY]`. SparseCanvas.Canvas.Fill requires the seed to be
  on the canvas. The source throws for an off-canvas seed, and the shell
  checks the bounds first. The model does not include the exception.
- SparseCanvas.Canvas.DrawLine and SparseCanvas.Canvas.DrawRectangle require
  width ≥ 1 and height ≥ 1. The shell refuses smaller canvases
  (ru/nuyanzin/commands/GeneralCommands.java line 158). On a 0-wide or
  0-high canvas the source changes no cell; the model does not cover it.
- DenseCanvas.Canvas.constructor requires `0 <= w * h <= Integer.MAX_VALUE`.
  Java's `new char[w * h]` throws on a negative size, and the `int` product
  could wrap. Those failures are not modelled.
- SparseCanvas.Canvas.PrintTo, SparseCanvas.Canvas.LineToAppendable,
  SparseCanvas.Canvas.ToString and Picture.RenderingShows take the borders as
  one character each. The shell stores a border option as a `String` of any
  length and the canvas appends it whole. A longer border changes the text,
  its length `(width + 3) * (height + 2)` and where the output is flushed.
  The model does not cover such borders.
- DenseCanvas.Canvas.NeighboursToUpdate: it takes `i + width` without
  wrap-around. In Java the sum wraps negative once `i > INT_MAX - width`
  (NeighbourIndexWraps), and `canvasBoard[i + width]` throws
  ArrayIndexOutOfBoundsException. The model instead skips that neighbour.
  DenseCanvas.Canvas.UpdateColorNeighbours and DenseCanvas.Canvas.Fill
  inherit this: on boards of more than `INT_MAX - width` cells they do not
  model the exception.
- DenseCanvas.Canvas.ToString: a huge capacity that is still non-negative
  can exhaust memory in Java. The model does not include memory limits.
- DenseCanvas.Canvas.UpdateColorNeighbours and DenseCanvas.Canvas.Fill:
  the source's `updateColorNeighbours` recurses once per breadth-first
  layer of the region, so a deep region can end in StackOverflowError. The
  model's recursion always completes. It does not include stack limits.
- SparseCanvas.Canvas.Fill: it does not state that the new layers it
  allocates are fresh. Its contract states the new picture and the canvas
  invariant only.
- SparseCanvas.Canvas.PrintTo: it computes the border loop bound `width + 2`
  unbounded. The wrap-around is shown separately by BorderLength32 and
  BorderWraps (see Findings).
- The `k >= 0` guard of `goLeftOrRight` (Layer.java line 215) only matters
  when `nextIndex + 2` overflows, i.e. the loop's `k++` right after
  `k = nextIndex + 1` (line 281). That happens when a run ends at column
  `Integer.MAX_VALUE - 1` of a canvas of width `Integer.MAX_VALUE`. There
  Java's guard stops the loop. The model's `k` does not wrap and reaches
  `width`, so the model's loop stops at the same point without the guard.
- The 8-way fill's convergence test shifts the accumulator row only to the
  left (Layer.java lines 412-423). Layers.Layer.GetLineToHandleAgain models
  that test as written. The completeness proof does not rely on it: the
  sweep's own 8-way probes already mark the diagonal neighbours.
- Agreement.FillAgrees: it covers only the 4-way fill, the only kind the
  dense canvas has. It only covers faithful boards, where two cells that
  show the same character hold the same character. A board that holds both
  `'\0'` and `' '` shows both as a space, but the dense fill treats them as
  different colours.

## Findings

| source | as written | input that shows it | evidently intended | confidence | as-written member | corrected member |
|---|---|---|---|---|---|---|
| src/main/java/com/springer/Canvas.java:131 | The loop start is `Math.max(0, Math.min(y1, y2) - 1)`. At `Integer.MIN_VALUE` the `- 1` wraps to `Integer.MAX_VALUE`, so the loop writes nothing. The same expression is at line 172. | `new Canvas(1, 1).putVerticalLine(1, Integer.MIN_VALUE, 1, 'x')` leaves the only cell empty, although the line covers it. | Start at row `max(1, min(y1, y2)) - 1`, as the sparse canvas's `getMinIntersectionCoordinate` does. | not executed | DenseCanvas.LoopStartWraps | DenseCanvas.Canvas.PutVerticalLine |
| src/main/java/ru/nuyanzin/canvas/Canvas.java:321 | The border loops run `i < width + 2` in `int` (lines 321 and 334). For a width of `Integer.MAX_VALUE - 1` or more, the bound wraps negative and no border is printed. | Width `Integer.MAX_VALUE` with height 0: printTo writes only two newlines. | Print `width + 2` border characters. | not executed | SparseCanvas.BorderWraps | SparseCanvas.Canvas.PrintTo |
