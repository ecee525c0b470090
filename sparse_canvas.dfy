/**
  The layered canvas (ru/nuyanzin/canvas/Canvas.java).

  The canvas maps each colour character to the layer of cells it owns. Every
  operation is proved against the value-level description in `Picture`:
  `Colours()` is the owners map, and drawing, filling and dropping empty
  layers change it exactly as `DrawLineSpec`, `RectangleSpec`, `FillSpec` and
  `Clean` say; printing emits chunks whose concatenation is `Rendering`.
  Coordinates arrive as Java `int`s, 1-based.
 */
module SparseCanvas {
  import opened Connectivity
  import opened Rows
  import opened Layers
  import opened Picture
  import opened Int32

  const DEFAULT_LINE_CHAR: char := 'x'
  const DEFAULT_EMPTY_CHAR: char := ' '
  /** The length at which the text built so far is written out. */
  const STRING_LENGTH_FOR_FLUSHING: int := 5000000

  /**
    Canvas.getMinIntersectionCoordinate: the first 0-based index of a clipped
    range. The minimum `Integer.MIN_VALUE` is caught before `min - 1` could wrap.
   */
  function GetMinIntersectionCoordinate(coord1: int, coord2: int): int
    requires IsInt(coord1) && IsInt(coord2)
  {
    if Min(coord1, coord2) == INT_MIN then 0 else Max(0, Wrap32(Min(coord1, coord2) - 1))
  }

  /** Canvas.getMaxIntersectionCoordinate: the last 0-based index of a clipped range. */
  function GetMaxIntersectionCoordinate(coord1: int, coord2: int, limit: int): int
    requires IsInt(coord1) && IsInt(coord2) && IsInt(limit)
  {
    Wrap32(Min(limit, Max(coord1, coord2)) - 1)
  }

  /**
    For a range `coord1..coord2` (either order) that meets `[1, limit]`, the
    clipped 0-based range lies in `0..limit-1` and holds exactly the indices
    whose 1-based coordinate lies in both ranges.
   */
  lemma ClipRange(coord1: int, coord2: int, limit: int)
    requires IsInt(coord1) && IsInt(coord2) && IsInt(limit) && 1 <= limit
    requires Min(coord1, coord2) <= limit && 1 <= Max(coord1, coord2)
    ensures 0 <= GetMinIntersectionCoordinate(coord1, coord2)
    ensures GetMinIntersectionCoordinate(coord1, coord2) <= GetMaxIntersectionCoordinate(coord1, coord2, limit) <= limit - 1
    ensures forall i ::
      (i in Interval(GetMinIntersectionCoordinate(coord1, coord2), GetMaxIntersectionCoordinate(coord1, coord2, limit))
       <==> 0 <= i < limit && Min(coord1, coord2) <= i + 1 <= Max(coord1, coord2))
  {
  }

  /** A vertical segment meeting the canvas covers the clipped rows of its column. */
  lemma VerticalLineCells(x: int, y1: int, y2: int, width: int, height: int)
    requires IsInt(x) && IsInt(y1) && IsInt(y2) && IsInt(height) && 1 <= height
    requires !Misses(x, y1, x, y2, width, height)
    ensures LineCells(x, y1, x, y2, width, height) ==
      VerticalSegment(x - 1, GetMinIntersectionCoordinate(y1, y2), GetMaxIntersectionCoordinate(y1, y2, height))
  {
    ClipRange(y1, y2, height);
    var start, end := GetMinIntersectionCoordinate(y1, y2), GetMaxIntersectionCoordinate(y1, y2, height);
    forall q ensures q in LineCells(x, y1, x, y2, width, height) <==> q in VerticalSegment(x - 1, start, end) {
      ShapeMember(q, x - 1, 0, 0, 0, start, end, width, height);
    }
  }

  /** A horizontal segment meeting the canvas covers the clipped columns of its row. */
  lemma HorizontalLineCells(x1: int, x2: int, y: int, width: int, height: int)
    requires IsInt(x1) && IsInt(x2) && IsInt(y) && IsInt(width) && 1 <= width
    requires !Misses(x1, y, x2, y, width, height)
    ensures LineCells(x1, y, x2, y, width, height) ==
      HorizontalSegment(GetMinIntersectionCoordinate(x1, x2), GetMaxIntersectionCoordinate(x1, x2, width), y - 1)
  {
    ClipRange(x1, x2, width);
    var start, end := GetMinIntersectionCoordinate(x1, x2), GetMaxIntersectionCoordinate(x1, x2, width);
    forall q ensures q in LineCells(x1, y, x2, y, width, height) <==> q in HorizontalSegment(start, end, y - 1) {
      ShapeMember(q, 0, y - 1, start, end, 0, 0, width, height);
    }
  }

  /** What colour `c` owns once the cells `s` are painted `color`. */
  ghost function PaintedLayer(pic: Pic, s: set<Cell>, color: char, c: char): set<Cell>
    requires c in pic
  {
    if c == color then pic[c] + s else pic[c] - s
  }

  /** The owners while a line is being drawn: the colours in `pending` are still untouched. */
  ghost function PaintedExcept(pic: Pic, s: set<Cell>, color: char, pending: set<char>): Pic
  {
    map c | c in pic :: if c in pending then pic[c] else PaintedLayer(pic, s, color, c)
  }

  lemma PaintedStep(pic: Pic, s: set<Cell>, color: char, pending: set<char>, c: char)
    requires c in pending && c in pic
    ensures PaintedExcept(pic, s, color, pending - {c}) ==
      PaintedExcept(pic, s, color, pending)[c := PaintedLayer(PaintedExcept(pic, s, color, pending), s, color, c)]
  {
  }

  /** Once every colour has been visited the line is painted. */
  lemma PaintedAll(pic: Pic, s: set<Cell>, color: char)
    requires color in pic
    ensures PaintedExcept(pic, s, color, {}) == Paint(pic, s, color)
  {
  }

  /**
    How many border characters the border loops of Canvas.printTo write when
    the bound `width + 2` is computed in 32-bit arithmetic, as the source
    does: none once `width + 2` wraps past the largest int.
   */
  function BorderLength32(width: int): (n: nat)
    requires IsInt(width) && 0 <= width
    ensures IsInt(width + 2) ==> n == width + 2
    ensures !IsInt(width + 2) ==> n == 0
  {
    Max(0, Wrap32(width + 2))
  }

  /** Widths the shell accepts for which the 32-bit border bound wraps and no border is printed. */
  lemma BorderWraps()
    ensures BorderLength32(INT_MAX - 1) == 0 && BorderLength32(INT_MAX) == 0
  {
  }

  /** The columns `cursor..next` of row `y` in the layer of `key` all show `key`, and the column after a run end does not. */
  lemma RunOwned(pic: Pic, grid: set<Cell>, rows: seq<Row>, key: char, y: int, cursor: int, next: int, width: int)
    requires Partition(pic, grid) && key in pic && pic[key] == CellsOf(rows) && 0 <= y < |rows|
    requires forall j :: cursor <= j <= next ==> j in Bits(rows[y])
    requires next + 1 == width || (Cell(next + 1, y) in grid && next + 1 !in Bits(rows[y]))
    ensures forall j :: cursor <= j <= next ==> OwnerChar(pic, Cell(j, y)) == key
    ensures next + 1 == width || OwnerChar(pic, Cell(next + 1, y)) != key
  {
    forall j | cursor <= j <= next ensures OwnerChar(pic, Cell(j, y)) == key {
      CellsOfMember(rows, Cell(j, y));
      OwnerCharIs(pic, grid, Cell(j, y), key);
    }
    if next + 1 != width {
      CellsOfMember(rows, Cell(next + 1, y));
      OwnerCharOwns(pic, grid, Cell(next + 1, y));
    }
  }

  /** The owner of a cell of the canvas has that cell's row present and holding its column. */
  lemma CursorRow(pic: Pic, rows: seq<Row>, key: char, cursor: int, y: int, width: int, height: int)
    requires Partition(pic, Grid(width, height)) && key in pic && pic[key] == CellsOf(rows)
    requires |rows| == height && 0 <= cursor < width && 0 <= y < height
    requires key == OwnerChar(pic, Cell(cursor, y))
    ensures rows[y].Present? && cursor in rows[y].bits
  {
    ShapeMember(Cell(cursor, y), 0, 0, 0, 0, 0, 0, width, height);
    OwnerCharOwns(pic, Grid(width, height), Cell(cursor, y));
    CellsOfMember(rows, Cell(cursor, y));
  }

  /** The computed end closes the run through the cursor within the row. */
  lemma RunEndBits(bits: set<int>, cursor: int, width: int, next: int)
    requires Fits(bits, width) && 0 <= cursor < width && cursor in bits
    requires next == if |bits| == width then width - 1 else GetLastSetIndexInARow(bits, cursor, width)
    ensures cursor <= next < width
    ensures forall j :: cursor <= j <= next ==> j in bits
    ensures next + 1 == width || next + 1 !in bits
  {
    if |bits| == width {
      FullRow(bits, width);
    }
  }

  /**
    The end lineToAppendable computes for the run through the cursor: the
    last column for a full row, the run's last column otherwise. Its colour
    owns the cursor up to it, and not the column after it.
   */
  lemma RunEnd(pic: Pic, rows: seq<Row>, key: char, cursor: int, y: int, width: int, height: int, next: int)
    requires Partition(pic, Grid(width, height)) && key in pic && pic[key] == CellsOf(rows)
    requires |rows| == height && RowsFit(rows, width) && 0 <= cursor < width && 0 <= y < height
    requires rows[y].Present? && cursor in rows[y].bits
    requires next == if |rows[y].bits| == width then width - 1 else GetLastSetIndexInARow(rows[y].bits, cursor, width)
    ensures cursor <= next < width
    ensures forall j :: cursor <= j <= next ==> OwnerChar(pic, Cell(j, y)) == key
    ensures next + 1 == width || OwnerChar(pic, Cell(next + 1, y)) != key
  {
    assert Fits(Bits(rows[y]), width);
    RunEndBits(rows[y].bits, cursor, width, next);
    if next + 1 < width {
      ShapeMember(Cell(next + 1, y), 0, 0, 0, 0, 0, 0, width, height);
    }
    RunOwned(pic, Grid(width, height), rows, key, y, cursor, next, width);
  }

  /** What has been written out so far and what is still buffered. */
  datatype Output = Output(chunks: seq<string>, sb: string)
  {
    /** Everything written, flushed or not. */
    function Text(): string
    {
      Concat(chunks) + sb
    }

    /** Appending to the buffer without writing anything out. */
    function Put(s: string): (r: Output)
      ensures r.chunks == chunks && r.Text() == Text() + s
    {
      Output(chunks, sb + s)
    }
  }

  /**
    One append of Canvas.printTo and Canvas.lineToAppendable: `c` goes to
    the buffer, and a buffer of at least `limit` characters is written out
    as a chunk and replaced by an empty one.
   */
  function Append(o: Output, c: char, limit: int): (r: Output)
    requires 1 <= limit
    ensures r.Text() == o.Text() + [c]
    ensures |r.sb| < limit
    ensures |o.sb| + 1 < limit ==> r.chunks == o.chunks
  {
    var sb := o.sb + [c];
    if |sb| >= limit then
      ConcatAppend(o.chunks, sb);
      Output(o.chunks + [sb], "")
    else
      Output(o.chunks, sb)
  }

  /** Writing the run of `key` over columns `cursor..next` extends the text of row `y` to column `next`. */
  lemma RunWritten(pic: Pic, y: int, cursor: nat, next: nat, key: char, prefix: string, written: string, after: string)
    requires cursor <= next
    requires forall j :: cursor <= j <= next ==> OwnerChar(pic, Cell(j, y)) == key
    requires written == prefix + RowCells(pic, y, cursor)
    requires after == written + Repeat(key, next - cursor + 1)
    ensures after == prefix + RowCells(pic, y, next + 1)
  {
    RowCellsRun(pic, y, cursor, next + 1, key);
  }

  /** The closing border ends the text of row `y`. */
  lemma RowClosed(pic: Pic, y: int, width: nat, vBorder: char, before: string, row: string, after: string)
    requires row == before + [vBorder] + RowCells(pic, y, width)
    requires after == row + [vBorder, '\n']
    ensures after == before + RowText(pic, y, width, vBorder)
  {
  }

  /** The bottom border and its newline end the rendering. */
  lemma RenderingClosed(pic: Pic, width: nat, height: nat, hBorder: char, vBorder: char, body: string, after: string)
    requires body == Repeat(hBorder, width + 2) + "\n" + RowsText(pic, height, width, vBorder)
    requires after == body + Repeat(hBorder, width + 2) + "\n"
    ensures after == Rendering(pic, width, height, hBorder, vBorder)
  {
  }

  /** Some column of a non-empty row. */
  ghost function PickBit(bits: set<int>): (q: int)
    requires bits != {}
    ensures q in bits
  {
    NonEmpty(bits);
    var q :| q in bits; q
  }

  class Canvas {
    const width: int
    const height: int
    /** Colour character to the layer of the cells it owns. */
    var layers: map<char, Layer>

    /** The row arrays of the layers: what drawing and filling write. */
    ghost function Arrays(): set<array<Row>>
      reads this
    {
      set c | c in layers :: layers[c].points
    }

    /** Every layer has the canvas's dimensions, is well formed and has rows of its own. */
    ghost predicate LayersFit()
      reads this, layers.Values, Arrays()
    {
      && IsInt(width) && IsInt(height) && 0 <= width && 0 <= height
      && (forall c :: c in layers ==> layers[c].width == width && layers[c].points.Length == height)
      && (forall c :: c in layers ==> layers[c].Valid())
      && (forall c, d :: c in layers && d in layers && c != d ==> layers[c].points != layers[d].points)
    }

    /** The owners map: each colour to the cells of its layer. */
    ghost function Colours(): Pic
      reads this, layers.Values, Arrays()
    {
      map c | c in layers :: layers[c].Cells()
    }

    /** The layers are well formed and every cell of the canvas is owned by exactly one of them. */
    ghost predicate Valid()
      reads this, layers.Values, Arrays()
    {
      LayersFit() && Partition(Colours(), Grid(width, height))
    }

    /** A new canvas: an empty 'x' layer and the ' ' background layer owning every cell. */
    constructor (width: nat, height: nat)
      requires IsInt(width) && IsInt(height)
      ensures this.width == width && this.height == height
      ensures Valid() && fresh(Arrays())
      ensures Colours() == map[DEFAULT_LINE_CHAR := {}, DEFAULT_EMPTY_CHAR := Grid(width, height)]
    {
      this.width := width;
      this.height := height;
      var lines := new Layer(width, height);
      var empty := new Layer.Background(width, height);
      layers := map[DEFAULT_LINE_CHAR := lines, DEFAULT_EMPTY_CHAR := empty];
      new;
      assert Colours() == map[DEFAULT_LINE_CHAR := {}, DEFAULT_EMPTY_CHAR := Grid(width, height)];
      InitialPartition(DEFAULT_LINE_CHAR, DEFAULT_EMPTY_CHAR, Grid(width, height));
    }

    /**
      Canvas.getLayerForPoint: the colour whose layer holds column `x` of row
      `y`, found by asking every layer; none for a column right of the canvas.
     */
    method GetLayerForPoint(x: int, y: int) returns (r: Option<char>)
      requires Valid() && 0 <= x && 0 <= y < height
      ensures x < width ==> r == Some(OwnerChar(Colours(), Cell(x, y)))
      ensures x >= width ==> r == None
    {
      var keys := layers.Keys;
      while keys != {}
        invariant keys <= layers.Keys
        invariant forall c :: c in layers.Keys - keys ==> Cell(x, y) !in layers[c].Cells()
      {
        var c :| c in keys;
        var line := layers[c].points[y];
        CellsOfMember(layers[c].points[..], Cell(x, y));
        if line.Present? && x in line.bits {
          OwnerCharIs(Colours(), Grid(width, height), Cell(x, y), c);
          return Some(c);
        }
        keys := keys - {c};
      }
      ShapeMember(Cell(x, y), 0, 0, 0, 0, 0, 0, width, height);
      return None;
    }

    /** When only the rows of layer `c` changed, only the cells of colour `c` changed. */
    twostate lemma OneLayerChanged(c: char)
      requires old(LayersFit()) && layers == old(layers) && c in layers && layers[c].Valid()
      requires forall d :: d in layers && d != c ==> layers[d].points[..] == old(layers[d].points[..])
      ensures LayersFit()
      ensures Colours() == old(Colours())[c := layers[c].Cells()]
    {
    }

    /** A new empty layer for a colour the canvas did not have adds that colour with no cells. */
    twostate lemma LayerAdded(color: char)
      requires old(LayersFit()) && color !in old(layers) && color in layers
      requires layers == old(layers)[color := layers[color]]
      requires fresh(layers[color].points)
      requires layers[color].width == width && layers[color].points.Length == height
      requires layers[color].Valid() && layers[color].Cells() == {}
      requires forall d :: d in old(layers) ==> layers[d].points[..] == old(layers[d].points[..])
      ensures LayersFit()
      ensures Colours() == old(Colours())[color := {}]
    {
    }

    /**
      When only the rows of the layers of `moved.0` (the source) and
      `moved.1` (the target) changed, only the cells of those two colours changed.
     */
    twostate lemma TwoLayersChanged(moved: (char, char))
      requires old(LayersFit()) && layers == old(layers)
      requires moved.0 in layers && moved.1 in layers && moved.0 != moved.1
      requires layers[moved.0].Valid() && layers[moved.1].Valid()
      requires forall d :: d in layers && d != moved.0 && d != moved.1 ==> layers[d].points[..] == old(layers[d].points[..])
      ensures LayersFit()
      ensures Colours() == old(Colours())[moved.0 := layers[moved.0].Cells()][moved.1 := layers[moved.1].Cells()]
    {
    }

    /** Dropping layers from the map drops their colours and nothing else. */
    twostate lemma LayersDropped(gone: set<char>)
      requires old(LayersFit()) && layers == old(layers) - gone
      requires forall d :: d in layers ==> layers[d].points[..] == old(layers[d].points[..])
      ensures LayersFit() && Arrays() <= old(Arrays())
      ensures Colours() == old(Colours()) - gone
    {
    }

    /** When no layer and no row changed, the canvas is as it was. */
    twostate lemma NothingChanged()
      requires old(Valid()) && layers == old(layers)
      requires forall d :: d in layers ==> layers[d].points[..] == old(layers[d].points[..])
      ensures Valid() && Colours() == old(Colours())
    {
      LayersDropped({});
      assert old(Colours()) - {} == old(Colours());
    }

    /** The loop body of Canvas.drawLine for a vertical line: one layer draws or clears the column. */
    method VerticalStep(c: char, x: int, start: int, end: int, color: char)
      requires LayersFit() && c in layers
      requires 0 <= x < width && 0 <= start && end < height
      modifies layers[c].points
      ensures LayersFit()
      ensures Colours() == old(Colours())[c := PaintedLayer(old(Colours()), VerticalSegment(x, start, end), color, c)]
    {
      var layer := layers[c];
      if c == color {
        layer.DrawVerticalLine(x, start, end);
      } else {
        layer.ClearVerticalLine(x, start, end);
      }
      OneLayerChanged(c);
    }

    /** The loop body of Canvas.drawLine for a horizontal line: one layer draws or clears the columns. */
    method HorizontalStep(c: char, start: int, end: int, y: int, color: char)
      requires LayersFit() && c in layers
      requires 0 <= start <= end < width && 0 <= y < height
      modifies layers[c].points
      ensures LayersFit()
      ensures Colours() == old(Colours())[c := PaintedLayer(old(Colours()), HorizontalSegment(start, end, y), color, c)]
    {
      var layer := layers[c];
      if c == color {
        layer.DrawHorizontalLine(start, end, y);
      } else {
        layer.ClearHorizontalLine(start, end, y);
      }
      OneLayerChanged(c);
    }

    /** Sets column `x`, rows `start..end`, in the layer of `color` and clears it in every other layer. */
    method PaintVertical(x: int, start: int, end: int, color: char)
      requires LayersFit() && color in layers
      requires 0 <= x < width && 0 <= start && end < height
      modifies Arrays()
      ensures LayersFit()
      ensures Colours() == Paint(old(Colours()), VerticalSegment(x, start, end), color)
    {
      ghost var pic0 := Colours();
      ghost var s := VerticalSegment(x, start, end);
      var keys := layers.Keys;
      while keys != {}
        invariant keys <= layers.Keys && LayersFit()
        invariant Colours() == PaintedExcept(pic0, s, color, keys)
      {
        var c :| c in keys;
        VerticalStep(c, x, start, end, color);
        PaintedStep(pic0, s, color, keys, c);
        keys := keys - {c};
      }
      PaintedAll(pic0, s, color);
    }

    /** Sets columns `start..end` of row `y` in the layer of `color` and clears them in every other layer. */
    method PaintHorizontal(start: int, end: int, y: int, color: char)
      requires LayersFit() && color in layers
      requires 0 <= start <= end < width && 0 <= y < height
      modifies Arrays()
      ensures LayersFit()
      ensures Colours() == Paint(old(Colours()), HorizontalSegment(start, end, y), color)
    {
      ghost var pic0 := Colours();
      ghost var s := HorizontalSegment(start, end, y);
      var keys := layers.Keys;
      while keys != {}
        invariant keys <= layers.Keys && LayersFit()
        invariant Colours() == PaintedExcept(pic0, s, color, keys)
      {
        var c :| c in keys;
        HorizontalStep(c, start, end, y, color);
        PaintedStep(pic0, s, color, keys, c);
        keys := keys - {c};
      }
      PaintedAll(pic0, s, color);
    }

    /**
      The drawing part of Canvas.drawLine for a vertical segment at column
      `x` (1-based) that meets the canvas: its clipped rows move into the
      layer of `color`.
     */
    method DrawVerticalClipped(x: int, y1: int, y2: int, color: char)
      requires LayersFit() && color in layers && 1 <= width && 1 <= height
      requires IsInt(x) && IsInt(y1) && IsInt(y2) && !Misses(x, y1, x, y2, width, height)
      modifies Arrays()
      ensures LayersFit()
      ensures Colours() == Paint(old(Colours()), LineCells(x, y1, x, y2, width, height), color)
    {
      var start := GetMinIntersectionCoordinate(y1, y2);
      var end := GetMaxIntersectionCoordinate(y1, y2, height);
      ClipRange(y1, y2, height);
      PaintVertical(x - 1, start, end, color);
      VerticalLineCells(x, y1, y2, width, height);
    }

    /**
      The drawing part of Canvas.drawLine for a horizontal segment at row
      `y` (1-based) that meets the canvas: its clipped columns move into the
      layer of `color`.
     */
    method DrawHorizontalClipped(x1: int, x2: int, y: int, color: char)
      requires LayersFit() && color in layers && 1 <= width && 1 <= height
      requires IsInt(x1) && IsInt(x2) && IsInt(y) && !Misses(x1, y, x2, y, width, height)
      modifies Arrays()
      ensures LayersFit()
      ensures Colours() == Paint(old(Colours()), LineCells(x1, y, x2, y, width, height), color)
    {
      var start := GetMinIntersectionCoordinate(x1, x2);
      var end := GetMaxIntersectionCoordinate(x1, x2, width);
      ClipRange(x1, x2, width);
      PaintHorizontal(start, end, y - 1, color);
      HorizontalLineCells(x1, x2, y, width, height);
    }

    /**
      Canvas.drawLine: a segment that misses the canvas, or is neither
      horizontal nor vertical, changes nothing; otherwise its clipped cells
      move to the layer of `color`, which is created when missing.
     */
    method DrawLine(x1: int, y1: int, x2: int, y2: int, color: char)
      requires Valid() && 1 <= width && 1 <= height
      requires IsInt(x1) && IsInt(y1) && IsInt(x2) && IsInt(y2)
      modifies this, Arrays()
      ensures Valid() && fresh(Arrays() - old(Arrays()))
      ensures Colours() == DrawLineSpec(old(Colours()), x1, y1, x2, y2, color, width, height)
    {
      if Min(x1, x2) > width || Max(x1, x2) < 1 || Min(y1, y2) > height || Max(y1, y2) < 1 {
        return;
      }
      if x1 != x2 && y1 != y2 {
        return;
      }
      ghost var pic := Colours();
      AddLayer(color);
      ghost var pic0 := Colours();
      if x1 == x2 {
        DrawVerticalClipped(x1, y1, y2, color);
      } else {
        DrawHorizontalClipped(x1, x2, y1, color);
      }
      DrawLineFromFreshKey(pic, pic0, x1, y1, x2, y2, color, width, height);
    }

    /** Canvas.drawRectangle: the four sides as four lines, top, bottom, left, right. */
    method DrawRectangle(x1: int, y1: int, x2: int, y2: int, c: char)
      requires Valid() && 1 <= width && 1 <= height
      requires IsInt(x1) && IsInt(y1) && IsInt(x2) && IsInt(y2)
      modifies this, Arrays()
      ensures Valid() && fresh(Arrays() - old(Arrays()))
      ensures Colours() == RectangleSpec(old(Colours()), x1, y1, x2, y2, c, width, height)
    {
      DrawLine(x1, y1, x2, y1, c);
      DrawLine(x1, y2, x2, y2, c);
      DrawLine(x1, y1, x1, y2, c);
      DrawLine(x2, y1, x2, y2, c);
    }

    /** Gives `color` a new empty layer when the canvas has none for it. */
    method AddLayer(color: char)
      requires LayersFit()
      modifies this
      ensures color in layers && LayersFit()
      ensures old(Arrays()) <= Arrays() && fresh(Arrays() - old(Arrays()))
      ensures Colours() == old(Colours())[color := Get(old(Colours()), color)]
    {
      if color !in layers {
        var layer := new Layer(width, height);
        layers := layers[color := layer];
        LayerAdded(color);
      }
    }

    /**
      The middle of Canvas.fill: the layer of `k` moves the connected region
      of its cell (x, y) into the layer of `t`, which the map already holds.
     */
    method MoveRegion(k: char, t: char, x: int, y: int, isB4: bool)
      requires LayersFit() && k in layers && t in layers && k != t
      requires 0 <= x && 0 <= y < height && Cell(x, y) in layers[k].Cells()
      modifies this, layers[k].points, layers[t].points
      ensures layers == old(layers) && LayersFit()
      ensures Colours() == old(Colours())
        [k := old(Colours())[k] - Component(old(Colours())[k], Adjacency(isB4), Cell(x, y))]
        [t := old(Colours())[t] + Component(old(Colours())[k], Adjacency(isB4), Cell(x, y))]
    {
      var source := layers[k];
      var destination := layers[t];
      CellsOfMember(source.points[..], Cell(x, y));
      var result := source.Fill(x, y, destination, isB4);
      layers := layers[t := result];
      TwoLayersChanged((k, t));
    }

    /**
      Canvas.fill: nothing changes when the seed already shows `targetColor`;
      otherwise the seed's connected region moves from its owner's layer into
      the layer of `targetColor` (created when missing) and the layers left
      empty are dropped.
     */
    method Fill(startX: int, startY: int, targetColor: char, isB4: bool)
      requires Valid() && 1 <= startX <= width && 1 <= startY <= height
      modifies this, Arrays()
      ensures Valid()
      ensures Colours() == FillSpec(old(Colours()), Cell(startX - 1, startY - 1), targetColor, isB4)
    {
      var x := startX - 1;
      var y := startY - 1;
      ghost var pic := Colours();
      ghost var seed := Cell(x, y);
      ShapeMember(seed, 0, 0, 0, 0, 0, 0, width, height);
      OwnerCharOwns(pic, Grid(width, height), seed);
      var color2Layer := GetLayerForPoint(x, y);
      var owner := color2Layer.value;
      if owner == targetColor {
        return;
      }
      Recolour(x, y, owner, targetColor, isB4);
    }

    /**
      The part of Canvas.fill that changes something: the region of (x, y)
      moves from the layer of its owner into the layer of `targetColor`,
      created when missing, and the layers left empty are dropped.
     */
    method Recolour(x: int, y: int, owner: char, targetColor: char, isB4: bool)
      requires Valid() && 0 <= x < width && 0 <= y < height
      requires owner in Colours() && Cell(x, y) in Colours()[owner] && owner != targetColor
      modifies this, Arrays()
      ensures Valid() && fresh(Arrays() - old(Arrays()))
      ensures Colours() == FillSpec(old(Colours()), Cell(x, y), targetColor, isB4)
    {
      ghost var pic := Colours();
      AddLayer(targetColor);
      FillFromFreshKey(pic, Colours(), Grid(width, height), Cell(x, y), owner, targetColor, isB4);
      MoveRegion(owner, targetColor, x, y, isB4);
      CleanEmptyLayers();
    }

    /** The inner loop of Canvas.cleanEmptyLayers: does some row of `layer` hold a set column? */
    static method LayerHasPoints(layer: Layer) returns (b: bool)
      ensures b <==> layer.Cells() != {}
    {
      var i := 0;
      while i < layer.points.Length
        invariant 0 <= i <= layer.points.Length
        invariant forall j :: 0 <= j < i ==> Bits(layer.points[j]) == {}
      {
        var line := layer.points[i];
        if line != Absent && line.bits != {} {
          ghost var q := PickBit(line.bits);
          CellsOfMember(layer.points[..], Cell(q, i));
          return true;
        }
        i := i + 1;
      }
      forall q | q in layer.Cells() ensures false {
        CellsOfMember(layer.points[..], q);
      }
      return false;
    }

    /** The first loop of Canvas.cleanEmptyLayers: the colours whose layers hold no cell. */
    method EmptyColours() returns (candidatesToRemove: set<char>)
      requires LayersFit()
      ensures forall c :: c in candidatesToRemove <==> c in Colours() && Colours()[c] == {}
    {
      var colors := layers.Keys;
      candidatesToRemove := colors;
      var remaining := colors;
      while remaining != {}
        invariant remaining <= candidatesToRemove <= colors
        invariant forall c :: c in colors - remaining ==> (c in candidatesToRemove <==> layers[c].Cells() == {})
      {
        var color :| color in remaining;
        var found := LayerHasPoints(layers[color]);
        if found {
          candidatesToRemove := candidatesToRemove - {color};
        }
        remaining := remaining - {color};
      }
    }

    /** The second loop of Canvas.cleanEmptyLayers: removes the given colours from the map. */
    method DropLayers(candidatesToRemove: set<char>)
      modifies this
      ensures layers == old(layers) - candidatesToRemove
    {
      var toRemove := candidatesToRemove;
      assert layers == old(layers) - {};
      while toRemove != {}
        invariant toRemove <= candidatesToRemove
        invariant layers == old(layers) - (candidatesToRemove - toRemove)
      {
        var color2Remove :| color2Remove in toRemove;
        layers := layers - {color2Remove};
        toRemove := toRemove - {color2Remove};
      }
    }

    /** Canvas.cleanEmptyLayers: drops every layer that owns no cell. */
    method CleanEmptyLayers()
      requires Valid()
      modifies this
      ensures Valid() && Arrays() <= old(Arrays())
      ensures Colours() == Clean(old(Colours()))
    {
      ghost var pic := Colours();
      var candidatesToRemove := EmptyColours();
      CleanDrops(pic, candidatesToRemove);
      DropLayers(candidatesToRemove);
      LayersDropped(candidatesToRemove);
    }

    /**
      The run of Canvas.lineToAppendable at one cursor: the layer that owns
      cell (`cursor`, `y`) and the last column `next` of its run through the
      cursor (the last column of the row when the layer owns all of it).
     */
    method RunAt(cursor: int, y: int) returns (key: char, next: int)
      requires Valid() && 0 <= cursor < width && 0 <= y < height
      ensures cursor <= next < width
      ensures forall j :: cursor <= j <= next ==> OwnerChar(Colours(), Cell(j, y)) == key
      ensures next + 1 == width || OwnerChar(Colours(), Cell(next + 1, y)) != key
    {
      var color2LineEntry := GetLayerForPoint(cursor, y);
      key := color2LineEntry.value;
      ghost var pic := Colours();
      ShapeMember(Cell(cursor, y), 0, 0, 0, 0, 0, 0, width, height);
      OwnerCharOwns(pic, Grid(width, height), Cell(cursor, y));
      ghost var rows := layers[key].points[..];
      assert Partition(pic, Grid(width, height)) && key in pic && pic[key] == CellsOf(rows);
      assert |rows| == height && RowsFit(rows, width);
      CursorRow(pic, rows, key, cursor, y, width, height);
      var bits := layers[key].points[y].bits;
      next := if |bits| == width then width - 1 else GetLastSetIndexInARow(bits, cursor, width);
      RunEnd(pic, rows, key, cursor, y, width, height, next);
    }

    /** The loop of lineToAppendable writing one run: `key` once for each column `cursor..next`. */
    static method AppendRun(o: Output, key: char, cursor: int, next: int) returns (r: Output)
      requires cursor <= next + 1
      ensures r.Text() == o.Text() + Repeat(key, next + 1 - cursor)
    {
      r := o;
      var i := cursor;
      while i <= next
        invariant cursor <= i <= next + 1
        invariant r.Text() == o.Text() + Repeat(key, i - cursor)
      {
        r := Append(r, key, STRING_LENGTH_FOR_FLUSHING - 1);
        RepeatSnoc(key, i - cursor);
        i := i + 1;
      }
    }

    /**
      Canvas.lineToAppendable: row `lineNumber` between two vertical
      borders, written run by run onto `o`; a full buffer is written out as
      a chunk.
     */
    method LineToAppendable(vBorder: char, o: Output, lineNumber: int) returns (r: Output)
      requires Valid() && 0 <= lineNumber < height
      ensures r.Text() == o.Text() + RowText(Colours(), lineNumber, width, vBorder)
    {
      ghost var pic := Colours();
      r := o.Put([vBorder]);
      ghost var prefix := r.Text();
      var cursor := 0;
      while cursor < width
        invariant 0 <= cursor <= width
        invariant Valid() && Colours() == pic
        invariant r.Text() == prefix + RowCells(pic, lineNumber, cursor)
      {
        var key, next := RunAt(cursor, lineNumber);
        NothingChanged();
        ghost var written := r.Text();
        r := AppendRun(r, key, cursor, next);
        RunWritten(pic, lineNumber, cursor, next, key, prefix, written, r.Text());
        NothingChanged();
        cursor := next + 1;
      }
      ghost var row := r.Text();
      r := r.Put([vBorder, '\n']);
      RowClosed(pic, lineNumber, width, vBorder, o.Text(), row, r.Text());
    }

    /** The loop of Canvas.printTo over the rows, each written by LineToAppendable. */
    method RowsToAppendable(vBorder: char, o: Output) returns (r: Output)
      requires Valid()
      ensures r.Text() == o.Text() + RowsText(Colours(), height, width, vBorder)
    {
      ghost var pic := Colours();
      r := o;
      var i := 0;
      while i < height
        invariant 0 <= i <= height
        invariant Valid() && Colours() == pic
        invariant r.Text() == o.Text() + RowsText(pic, i, width, vBorder)
      {
        r := LineToAppendable(vBorder, r, i);
        NothingChanged();
        i := i + 1;
      }
    }

    /**
      Canvas.printTo: the rendering written out as chunks; each chunk is the
      buffer at the moment it grew past the flushing length, the last one the
      rest. The border loops run `width + 2` times.
     */
    method PrintTo(hBorder: char, vBorder: char) returns (chunks: seq<string>)
      requires Valid()
      ensures Concat(chunks) == Rendering(Colours(), width, height, hBorder, vBorder)
    {
      var o := Output([], "");
      var i := 0;
      while i < width + 2
        invariant 0 <= i <= width + 2
        invariant o.Text() == Repeat(hBorder, i)
      {
        o := Append(o, hBorder, STRING_LENGTH_FOR_FLUSHING - 1);
        RepeatSnoc(hBorder, i);
        i := i + 1;
      }
      o := o.Put("\n");
      NothingChanged();
      o := RowsToAppendable(vBorder, o);
      ghost var pic := old(Colours());
      NothingChanged();
      ghost var body := o.Text();
      i := 0;
      while i < width + 2
        invariant 0 <= i <= width + 2
        invariant o.Text() == body + Repeat(hBorder, i)
      {
        o := Append(o, hBorder, STRING_LENGTH_FOR_FLUSHING);
        RepeatSnoc(hBorder, i);
        i := i + 1;
      }
      o := o.Put("\n");
      ConcatAppend(o.chunks, o.sb);
      chunks := o.chunks + [o.sb];
      RenderingClosed(pic, width, height, hBorder, vBorder, body, Concat(chunks));
      NothingChanged();
    }

    /** Canvas.toString: the rendering as one string. */
    method ToString(hBorder: char, vBorder: char) returns (s: string)
      requires Valid()
      ensures s == Rendering(Colours(), width, height, hBorder, vBorder)
    {
      var chunks := PrintTo(hBorder, vBorder);
      s := Concat(chunks);
    }
  }
}
