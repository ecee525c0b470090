/**
  What a layered canvas shows, as a value: a map from each colour character to
  the cells it owns. Canvas.java keeps one layer per colour and keeps every
  cell in exactly one layer; this module states that partition, the effect of
  painting a set of cells (what `drawLine`, `drawRectangle` and `fill` do to
  the owners), the cells a clipped line covers, and the rendering of a canvas
  as text. The sparse canvas is proved against these functions.
 */
module Picture {
  import opened Connectivity
  import opened Rows

  datatype Option<T> = None | Some(value: T)

  /** The owners of the cells: colour character to the cells of its layer. */
  type Pic = map<char, set<Cell>>

  /** The cells of colour `c`; none when there is no layer for it. */
  function Get(pic: Pic, c: char): set<Cell>
  {
    if c in pic then pic[c] else {}
  }

  /** Every cell of `grid` belongs to exactly one colour, and no colour owns a cell outside it. */
  ghost predicate Partition(pic: Pic, grid: set<Cell>)
  {
    && (forall c :: c in pic ==> pic[c] <= grid)
    && (forall c, d :: c in pic && d in pic && c != d ==> pic[c] !! pic[d])
    && (forall q :: q in grid ==> exists c :: c in pic && q in pic[c])
  }

  /** An empty colour beside one that owns the whole grid is a partition. */
  lemma InitialPartition(lineColor: char, emptyColor: char, grid: set<Cell>)
    requires lineColor != emptyColor
    ensures Partition(map[lineColor := {}, emptyColor := grid], grid)
  {
    var pic := map[lineColor := {}, emptyColor := grid];
    forall q | q in grid ensures exists c :: c in pic && q in pic[c] {
      assert q in pic[emptyColor];
    }
  }

  /** The colour a cell shows: its owner, or a space when no colour owns it. */
  ghost function OwnerChar(pic: Pic, q: Cell): char
  {
    if exists c :: c in pic && q in pic[c] then
      var c :| c in pic && q in pic[c]; c
    else
      ' '
  }

  lemma OwnerCharIs(pic: Pic, grid: set<Cell>, q: Cell, c: char)
    requires Partition(pic, grid) && c in pic && q in pic[c]
    ensures OwnerChar(pic, q) == c
  {
    var d :| d in pic && q in pic[d] && OwnerChar(pic, q) == d;
  }

  /** A cell of the grid is owned by the colour it shows. */
  lemma OwnerCharOwns(pic: Pic, grid: set<Cell>, q: Cell)
    requires Partition(pic, grid) && q in grid
    ensures OwnerChar(pic, q) in pic && q in pic[OwnerChar(pic, q)]
  {
  }

  /**
    `cells` painted with `color`: that colour gains them (it gets a layer if
    it had none) and every other colour loses them.
   */
  ghost function Paint(pic: Pic, cells: set<Cell>, color: char): (p: Pic)
    ensures p.Keys == pic.Keys + {color}
  {
    map c | c in pic.Keys + {color} :: if c == color then Get(pic, color) + cells else pic[c] - cells
  }

  /** Painting cells of the grid keeps every cell with exactly one owner. */
  lemma PaintKeepsPartition(pic: Pic, grid: set<Cell>, cells: set<Cell>, color: char)
    requires Partition(pic, grid) && cells <= grid
    ensures Partition(Paint(pic, cells, color), grid)
  {
    var p := Paint(pic, cells, color);
    forall q | q in grid ensures exists c :: c in p && q in p[c] {
      if q !in cells {
        var c :| c in pic && q in pic[c];
        assert q in p[c];
      } else {
        assert q in p[color];
      }
    }
  }

  /** Giving `color` an empty entry first does not change what painting with it gives. */
  lemma PaintFreshKey(pic: Pic, pic0: Pic, cells: set<Cell>, color: char)
    requires pic0 == pic[color := Get(pic, color)]
    ensures Paint(pic0, cells, color) == Paint(pic, cells, color)
  {
  }

  /** Painting the same colour twice is painting the union once. */
  lemma PaintTwice(pic: Pic, a: set<Cell>, b: set<Cell>, color: char)
    ensures Paint(Paint(pic, a, color), b, color) == Paint(pic, a + b, color)
  {
    var p1 := Paint(pic, a, color);
    var p2 := Paint(p1, b, color);
    var p := Paint(pic, a + b, color);
    assert p2.Keys == p.Keys;
    forall c | c in p ensures p2[c] == p[c] {
      if c == color {
        assert Get(p1, color) == Get(pic, color) + a;
      } else {
        assert p2[c] == pic[c] - a - b;
      }
    }
  }

  /**
    Moving a region out of its owner into `target` is painting it: in a
    partition the region belongs to no other colour, so the others keep
    their cells.
   */
  lemma PaintRegion(pic: Pic, grid: set<Cell>, region: set<Cell>, owner: char, target: char, c: char)
    requires Partition(pic, grid) && owner in pic && region <= pic[owner]
    requires c in pic && c != owner && c != target
    ensures Paint(pic, region, target)[c] == pic[c]
  {
    assert pic[c] !! pic[owner];
  }

  /** In a partition, moving a region out of its owner into `target` is painting it `target`. */
  lemma MoveIsPaint(pic: Pic, grid: set<Cell>, region: set<Cell>, owner: char, target: char)
    requires Partition(pic, grid) && owner in pic && region <= pic[owner] && owner != target
    ensures Paint(pic, region, target) == pic[owner := pic[owner] - region][target := Get(pic, target) + region]
  {
    forall c | c in pic && c != owner && c != target ensures Paint(pic, region, target)[c] == pic[c] {
      PaintRegion(pic, grid, region, owner, target, c);
    }
  }

  /** The colours that own at least one cell; empty layers are dropped. */
  ghost function Clean(pic: Pic): (p: Pic)
    ensures forall c :: c in p <==> c in pic && pic[c] != {}
  {
    map c | c in pic && pic[c] != {} :: pic[c]
  }

  /** Cleaning drops exactly the colours without cells. */
  lemma CleanDrops(pic: Pic, gone: set<char>)
    requires forall c :: c in gone <==> c in pic && pic[c] == {}
    ensures Clean(pic) == pic - gone
  {
  }

  lemma CleanKeepsPartition(pic: Pic, grid: set<Cell>)
    requires Partition(pic, grid)
    ensures Partition(Clean(pic), grid)
  {
    var p := Clean(pic);
    forall q | q in grid ensures exists c :: c in p && q in p[c] {
      var c :| c in pic && q in pic[c];
      assert q in p[c];
    }
  }

  // Clipping a segment to the canvas.

  /** Cell `q` (0-based) lies on the axis-aligned segment between the 1-based points `(x1, y1)` and `(x2, y2)`. */
  predicate OnSegment(q: Cell, x1: int, y1: int, x2: int, y2: int)
  {
    && (x1 == x2 || y1 == y2)
    && Min(x1, x2) <= q.x + 1 <= Max(x1, x2)
    && Min(y1, y2) <= q.y + 1 <= Max(y1, y2)
  }

  /**
    The cells of the canvas a line covers: those on the segment and inside
    the canvas. A segment that is neither horizontal nor vertical covers none.
   */
  ghost function LineCells(x1: int, y1: int, x2: int, y2: int, width: int, height: int): (s: set<Cell>)
    ensures s <= Grid(width, height)
  {
    set q | q in Grid(width, height) && OnSegment(q, x1, y1, x2, y2)
  }

  /** The segment lies wholly outside the 1-based canvas `[1, width] x [1, height]`. */
  predicate Misses(x1: int, y1: int, x2: int, y2: int, width: int, height: int)
  {
    Min(x1, x2) > width || Max(x1, x2) < 1 || Min(y1, y2) > height || Max(y1, y2) < 1
  }

  /**
    What drawing a line does to the owners: nothing when the segment misses
    the canvas or is neither horizontal nor vertical; otherwise `color` gets
    a layer if it had none and the covered cells change owner to `color`.
   */
  ghost function DrawLineSpec(pic: Pic, x1: int, y1: int, x2: int, y2: int, color: char, width: int, height: int): Pic
  {
    if Misses(x1, y1, x2, y2, width, height) || (x1 != x2 && y1 != y2) then pic
    else Paint(pic, LineCells(x1, y1, x2, y2, width, height), color)
  }

  /** A segment that neither misses the canvas nor runs diagonally covers at least one cell of it. */
  lemma DrawnLineCovers(x1: int, y1: int, x2: int, y2: int, width: int, height: int)
    requires 1 <= width && 1 <= height
    ensures LineCells(x1, y1, x2, y2, width, height) == {} <==>
      Misses(x1, y1, x2, y2, width, height) || (x1 != x2 && y1 != y2)
  {
    if !Misses(x1, y1, x2, y2, width, height) && (x1 == x2 || y1 == y2) {
      var q := Cell(Max(1, Min(x1, x2)) - 1, Max(1, Min(y1, y2)) - 1);
      ShapeMember(q, 0, 0, 0, 0, 0, 0, width, height);
      assert q in LineCells(x1, y1, x2, y2, width, height);
    }
  }

  /** On a canvas with at least one cell, drawing a line paints exactly the cells it covers. */
  lemma DrawLinePaints(pic: Pic, x1: int, y1: int, x2: int, y2: int, color: char, width: int, height: int)
    requires 1 <= width && 1 <= height
    ensures DrawLineSpec(pic, x1, y1, x2, y2, color, width, height) ==
      (var s := LineCells(x1, y1, x2, y2, width, height); if s == {} then pic else Paint(pic, s, color))
  {
    DrawnLineCovers(x1, y1, x2, y2, width, height);
  }

  /**
    Canvas.drawLine as its layers see it: `color` first gets an entry (empty
    when new), then the covered cells are painted; the outcome is the drawn
    line and every cell keeps exactly one owner.
   */
  lemma DrawLineFromFreshKey(pic: Pic, pic0: Pic, x1: int, y1: int, x2: int, y2: int, color: char, width: int, height: int)
    requires Partition(pic, Grid(width, height))
    requires !Misses(x1, y1, x2, y2, width, height) && (x1 == x2 || y1 == y2)
    requires pic0 == pic[color := Get(pic, color)]
    ensures Paint(pic0, LineCells(x1, y1, x2, y2, width, height), color) == DrawLineSpec(pic, x1, y1, x2, y2, color, width, height)
    ensures Partition(DrawLineSpec(pic, x1, y1, x2, y2, color, width, height), Grid(width, height))
  {
    var s := LineCells(x1, y1, x2, y2, width, height);
    PaintFreshKey(pic, pic0, s, color);
    PaintKeepsPartition(pic, Grid(width, height), s, color);
  }

  /** The four sides of a rectangle, drawn in the order Canvas.drawRectangle draws them. */
  ghost function RectangleSpec(pic: Pic, x1: int, y1: int, x2: int, y2: int, color: char, width: int, height: int): Pic
  {
    var p1 := DrawLineSpec(pic, x1, y1, x2, y1, color, width, height);
    var p2 := DrawLineSpec(p1, x1, y2, x2, y2, color, width, height);
    var p3 := DrawLineSpec(p2, x1, y1, x1, y2, color, width, height);
    DrawLineSpec(p3, x2, y1, x2, y2, color, width, height)
  }

  /** The cells of a rectangle's outline inside the canvas. */
  ghost function OutlineCells(x1: int, y1: int, x2: int, y2: int, width: int, height: int): set<Cell>
  {
    LineCells(x1, y1, x2, y1, width, height) + LineCells(x1, y2, x2, y2, width, height)
    + LineCells(x1, y1, x1, y2, width, height) + LineCells(x2, y1, x2, y2, width, height)
  }

  /** A line is the same line drawn from either end. */
  lemma LineCellsSymmetric(x1: int, y1: int, x2: int, y2: int, width: int, height: int)
    ensures LineCells(x1, y1, x2, y2, width, height) == LineCells(x2, y2, x1, y1, width, height)
  {
  }

  /** Drawing a line from either end gives the same canvas. */
  lemma DrawLineSymmetric(pic: Pic, x1: int, y1: int, x2: int, y2: int, color: char, width: int, height: int)
    ensures DrawLineSpec(pic, x1, y1, x2, y2, color, width, height) == DrawLineSpec(pic, x2, y2, x1, y1, color, width, height)
  {
    LineCellsSymmetric(x1, y1, x2, y2, width, height);
  }

  /** Two steps that paint the same colour paint the union of what each covers. */
  lemma StepsCombine(pic: Pic, a: set<Cell>, b: set<Cell>, color: char)
    ensures (var p := if a == {} then pic else Paint(pic, a, color);
             if b == {} then p else Paint(p, b, color))
         == (if a + b == {} then pic else Paint(pic, a + b, color))
  {
    if a != {} && b != {} {
      PaintTwice(pic, a, b, color);
    } else if a == {} {
      assert a + b == b;
    } else {
      assert a + b == a;
    }
  }

  /** Drawing a rectangle paints its outline in one step. */
  lemma RectangleIsOutline(pic: Pic, x1: int, y1: int, x2: int, y2: int, color: char, width: int, height: int)
    requires 1 <= width && 1 <= height
    ensures RectangleSpec(pic, x1, y1, x2, y2, color, width, height) ==
      (var s := OutlineCells(x1, y1, x2, y2, width, height); if s == {} then pic else Paint(pic, s, color))
  {
    var l1 := LineCells(x1, y1, x2, y1, width, height);
    var l2 := LineCells(x1, y2, x2, y2, width, height);
    var l3 := LineCells(x1, y1, x1, y2, width, height);
    var l4 := LineCells(x2, y1, x2, y2, width, height);
    DrawLinePaints(pic, x1, y1, x2, y1, color, width, height);
    var p1 := DrawLineSpec(pic, x1, y1, x2, y1, color, width, height);
    DrawLinePaints(p1, x1, y2, x2, y2, color, width, height);
    var p2' := DrawLineSpec(p1, x1, y2, x2, y2, color, width, height);
    DrawLinePaints(p2', x1, y1, x1, y2, color, width, height);
    var p3 := DrawLineSpec(p2', x1, y1, x1, y2, color, width, height);
    DrawLinePaints(p3, x2, y1, x2, y2, color, width, height);
    StepsCombine(pic, l1, l2, color);
    var p2 := if l1 + l2 == {} then pic else Paint(pic, l1 + l2, color);
    StepsCombine(pic, l1 + l2, l3, color);
    StepsCombine(pic, l1 + l2 + l3, l4, color);
  }

  /** The outline is the same whichever pair of opposite corners names the rectangle. */
  lemma OutlineCornerOrder(x1: int, y1: int, x2: int, y2: int, width: int, height: int)
    ensures OutlineCells(x1, y1, x2, y2, width, height) == OutlineCells(x2, y2, x1, y1, width, height)
    ensures OutlineCells(x1, y1, x2, y2, width, height) == OutlineCells(x1, y2, x2, y1, width, height)
  {
    LineCellsSymmetric(x1, y1, x2, y1, width, height);
    LineCellsSymmetric(x1, y2, x2, y2, width, height);
    LineCellsSymmetric(x1, y1, x1, y2, width, height);
    LineCellsSymmetric(x2, y1, x2, y2, width, height);
  }

  /** A rectangle is the same rectangle whichever pair of opposite corners names it. */
  lemma RectangleCornerOrder(pic: Pic, x1: int, y1: int, x2: int, y2: int, color: char, width: int, height: int)
    requires 1 <= width && 1 <= height
    ensures RectangleSpec(pic, x1, y1, x2, y2, color, width, height) == RectangleSpec(pic, x2, y2, x1, y1, color, width, height)
    ensures RectangleSpec(pic, x1, y1, x2, y2, color, width, height) == RectangleSpec(pic, x1, y2, x2, y1, color, width, height)
  {
    RectangleIsOutline(pic, x1, y1, x2, y2, color, width, height);
    RectangleIsOutline(pic, x2, y2, x1, y1, color, width, height);
    RectangleIsOutline(pic, x1, y2, x2, y1, color, width, height);
    OutlineCornerOrder(x1, y1, x2, y2, width, height);
  }

  /** Drawing the same line twice is drawing it once. */
  lemma DrawLineIdempotent(pic: Pic, x1: int, y1: int, x2: int, y2: int, color: char, width: int, height: int)
    ensures DrawLineSpec(DrawLineSpec(pic, x1, y1, x2, y2, color, width, height), x1, y1, x2, y2, color, width, height)
         == DrawLineSpec(pic, x1, y1, x2, y2, color, width, height)
  {
    var s := LineCells(x1, y1, x2, y2, width, height);
    PaintTwice(pic, s, s, color);
    assert s + s == s;
  }

  /** Drawing the same rectangle twice is drawing it once. */
  lemma RectangleIdempotent(pic: Pic, x1: int, y1: int, x2: int, y2: int, color: char, width: int, height: int)
    requires 1 <= width && 1 <= height
    ensures RectangleSpec(RectangleSpec(pic, x1, y1, x2, y2, color, width, height), x1, y1, x2, y2, color, width, height)
         == RectangleSpec(pic, x1, y1, x2, y2, color, width, height)
  {
    var s := OutlineCells(x1, y1, x2, y2, width, height);
    RectangleIsOutline(pic, x1, y1, x2, y2, color, width, height);
    RectangleIsOutline(RectangleSpec(pic, x1, y1, x2, y2, color, width, height), x1, y1, x2, y2, color, width, height);
    StepsCombine(pic, s, s, color);
    assert s + s == s;
  }

  // Flood fill.

  /** The connected region of `seed` among the cells of its owner, 4-way (`b4`) or 8-way. */
  ghost function FillRegion(pic: Pic, seed: Cell, b4: bool): set<Cell>
  {
    Component(Get(pic, OwnerChar(pic, seed)), Adjacency(b4), seed)
  }

  /**
    What Canvas.fill does to the owners: nothing when the seed already shows
    `target`; otherwise the seed's region changes owner to `target` and the
    colours left without cells are dropped.
   */
  ghost function FillSpec(pic: Pic, seed: Cell, target: char, b4: bool): Pic
  {
    if OwnerChar(pic, seed) == target then pic
    else Clean(Paint(pic, FillRegion(pic, seed, b4), target))
  }

  lemma FillSpecMoves(pic: Pic, seed: Cell, target: char, b4: bool, region: set<Cell>)
    requires OwnerChar(pic, seed) != target && FillRegion(pic, seed, b4) == region
    ensures FillSpec(pic, seed, target, b4) == Clean(Paint(pic, region, target))
  {
  }

  /** Filling keeps every cell with exactly one owner and, when it changes anything, leaves no empty colour. */
  lemma FillKeepsPartition(pic: Pic, grid: set<Cell>, seed: Cell, target: char, b4: bool)
    requires Partition(pic, grid) && seed in grid
    ensures Partition(FillSpec(pic, seed, target, b4), grid)
    ensures OwnerChar(pic, seed) != target ==>
      forall c :: c in FillSpec(pic, seed, target, b4) ==> FillSpec(pic, seed, target, b4)[c] != {}
  {
    if OwnerChar(pic, seed) != target {
      OwnerCharOwns(pic, grid, seed);
      var r := FillRegion(pic, seed, b4);
      PaintKeepsPartition(pic, grid, r, target);
      CleanKeepsPartition(Paint(pic, r, target), grid);
    }
  }

  /** Once the region is all `target` owns, filling from the seed again finds the same region. */
  lemma RegionOfMovedRegion(pic: Pic, grid: set<Cell>, seed: Cell, target: char, region: set<Cell>, b4: bool)
    requires Partition(pic, grid) && target in pic && pic[target] == region && seed in region
    requires Component(region, Adjacency(b4), seed) == region
    ensures FillRegion(pic, seed, b4) == region
  {
    OwnerCharIs(pic, grid, seed, target);
  }

  /** Painting a region of `owner` with an unused colour and then back with `owner` restores the owners. */
  lemma PaintBack(pic: Pic, region: set<Cell>, owner: char, target: char)
    requires owner in pic && region <= pic[owner] && target !in pic
    requires forall c :: c in pic && c != owner ==> pic[c] !! region
    ensures Clean(Paint(Clean(Paint(pic, region, target)), region, owner)) == Clean(pic)
  {
    var p1 := Paint(pic, region, target);
    var pic1 := Clean(p1);
    var p2 := Paint(pic1, region, owner);
    var pic2 := Clean(p2);
    var want := Clean(pic);
    assert Get(pic1, owner) + region == pic[owner] by {
      if pic[owner] - region == {} {
        assert owner !in pic1;
      } else {
        assert pic1[owner] == pic[owner] - region;
      }
    }
    forall c ensures (c in pic2 <==> c in want) && (c in want ==> pic2[c] == want[c]) {
      if c == owner {
        assert p2[c] == pic[owner];
      } else if c == target {
        assert c !in pic2;
      } else if c in pic {
        assert p1[c] == pic[c];
        assert c in pic1 ==> p2[c] == pic[c];
      }
    }
  }

  /** The seed's region lies in its owner, contains the seed, is its own region, and no other colour meets it. */
  lemma FillRegionFacts(pic: Pic, grid: set<Cell>, seed: Cell, b4: bool)
    requires Partition(pic, grid) && seed in grid
    ensures OwnerChar(pic, seed) in pic
    ensures FillRegion(pic, seed, b4) <= pic[OwnerChar(pic, seed)] && seed in FillRegion(pic, seed, b4)
    ensures Component(FillRegion(pic, seed, b4), Adjacency(b4), seed) == FillRegion(pic, seed, b4)
    ensures forall c :: c in pic && c != OwnerChar(pic, seed) ==> pic[c] !! FillRegion(pic, seed, b4)
  {
    var o := OwnerChar(pic, seed);
    OwnerCharOwns(pic, grid, seed);
    SeedInComponent(pic[o], Adjacency(b4), seed);
    ComponentOfComponent(pic[o], Adjacency(b4), seed);
    forall c | c in pic && c != o ensures pic[c] !! FillRegion(pic, seed, b4) {
      assert pic[c] !! pic[o];
    }
  }

  /**
    A fill that changes something, seen layer by layer: the region is the
    seed's component within its owner's cells, it leaves the owner and joins
    the target, and every cell keeps exactly one owner.
   */
  lemma FillAsMove(pic: Pic, grid: set<Cell>, seed: Cell, owner: char, target: char, b4: bool)
    requires Partition(pic, grid) && owner in pic && seed in pic[owner] && owner != target
    ensures FillRegion(pic, seed, b4) == Component(pic[owner], Adjacency(b4), seed)
    ensures Partition(Paint(pic, FillRegion(pic, seed, b4), target), grid)
    ensures Paint(pic, FillRegion(pic, seed, b4), target)
         == pic[owner := pic[owner] - FillRegion(pic, seed, b4)][target := Get(pic, target) + FillRegion(pic, seed, b4)]
    ensures FillSpec(pic, seed, target, b4) == Clean(Paint(pic, FillRegion(pic, seed, b4), target))
  {
    OwnerCharIs(pic, grid, seed, owner);
    FillRegionFacts(pic, grid, seed, b4);
    var r := FillRegion(pic, seed, b4);
    MoveIsPaint(pic, grid, r, owner, target);
    PaintKeepsPartition(pic, grid, r, target);
    FillSpecMoves(pic, seed, target, b4, r);
  }

  /** Moving cells into a target first given an empty entry is moving them into the target. */
  lemma MoveAfterFreshKey(pic: Pic, pic0: Pic, owner: char, target: char, r: set<Cell>)
    requires pic0 == pic[target := Get(pic, target)] && owner in pic && owner != target
    ensures owner in pic0 && target in pic0 && pic0[owner] == pic[owner]
    ensures pic0[owner := pic0[owner] - r][target := pic0[target] + r]
         == pic[owner := pic[owner] - r][target := Get(pic, target) + r]
  {
  }

  /**
    Canvas.fill as its layers see it: the target first gets an entry (empty
    when new), then the seed's component within its owner's cells moves from
    the owner to the target, then the empty colours go; the outcome is the
    fill and every cell keeps exactly one owner.
   */
  lemma FillFromFreshKey(pic: Pic, pic0: Pic, grid: set<Cell>, seed: Cell, owner: char, target: char, b4: bool)
    requires Partition(pic, grid) && owner in pic && seed in pic[owner] && owner != target
    requires pic0 == pic[target := Get(pic, target)]
    ensures owner in pic0 && target in pic0 && seed in pic0[owner]
    ensures Partition(pic0[owner := pic0[owner] - Component(pic0[owner], Adjacency(b4), seed)]
                          [target := pic0[target] + Component(pic0[owner], Adjacency(b4), seed)], grid)
    ensures Clean(pic0[owner := pic0[owner] - Component(pic0[owner], Adjacency(b4), seed)]
                      [target := pic0[target] + Component(pic0[owner], Adjacency(b4), seed)])
         == FillSpec(pic, seed, target, b4)
  {
    FillAsMove(pic, grid, seed, owner, target, b4);
    MoveAfterFreshKey(pic, pic0, owner, target, FillRegion(pic, seed, b4));
  }

  /** Filling a seed with an unused colour gives that colour the seed's region and nothing else. */
  lemma FillWithUnused(pic: Pic, grid: set<Cell>, seed: Cell, target: char, b4: bool)
    requires Partition(pic, grid) && seed in grid && target !in pic
    ensures Partition(FillSpec(pic, seed, target, b4), grid)
    ensures target in FillSpec(pic, seed, target, b4) && FillSpec(pic, seed, target, b4)[target] == FillRegion(pic, seed, b4)
  {
    var o := OwnerChar(pic, seed);
    OwnerCharOwns(pic, grid, seed);
    var r := FillRegion(pic, seed, b4);
    SeedInComponent(pic[o], Adjacency(b4), seed);
    assert o != target;
    FillSpecMoves(pic, seed, target, b4, r);
    assert Paint(pic, r, target)[target] == r;
    FillKeepsPartition(pic, grid, seed, target, b4);
  }

  /** Filling the seed again after filling it with an unused colour moves the same region on. */
  lemma FillAfterUnused(pic: Pic, grid: set<Cell>, seed: Cell, target: char, color: char, b4: bool)
    requires Partition(pic, grid) && seed in grid && target !in pic && color != target
    ensures FillSpec(FillSpec(pic, seed, target, b4), seed, color, b4)
         == Clean(Paint(FillSpec(pic, seed, target, b4), FillRegion(pic, seed, b4), color))
  {
    var r := FillRegion(pic, seed, b4);
    FillRegionFacts(pic, grid, seed, b4);
    FillWithUnused(pic, grid, seed, target, b4);
    var pic1 := FillSpec(pic, seed, target, b4);
    RegionOfMovedRegion(pic1, grid, seed, target, r, b4);
    OwnerCharIs(pic1, grid, seed, target);
    FillSpecMoves(pic1, seed, color, b4, r);
  }

  /**
    Filling a seed with a colour the canvas does not use, then filling it
    back with its old colour, restores the canvas up to the colours that
    owned no cell.
   */
  lemma FillRoundTrip(pic: Pic, grid: set<Cell>, seed: Cell, target: char, b4: bool)
    requires Partition(pic, grid) && seed in grid && target !in pic
    ensures FillSpec(FillSpec(pic, seed, target, b4), seed, OwnerChar(pic, seed), b4) == Clean(pic)
  {
    var o := OwnerChar(pic, seed);
    var r := FillRegion(pic, seed, b4);
    FillRegionFacts(pic, grid, seed, b4);
    assert o != target;
    FillAfterUnused(pic, grid, seed, target, o, b4);
    FillSpecMoves(pic, seed, target, b4, r);
    PaintBack(pic, r, o, target);
  }

  // Rendering.

  /** `n` copies of `c`. */
  function Repeat(c: char, n: nat): (r: string)
    ensures |r| == n && forall i :: 0 <= i < n ==> r[i] == c
  {
    if n == 0 then "" else Repeat(c, n - 1) + [c]
  }

  /** The colours shown by cells `0..n-1` of row `y`. */
  ghost function RowCells(pic: Pic, y: int, n: nat): (s: string)
    ensures |s| == n
  {
    if n == 0 then "" else RowCells(pic, y, n - 1) + [OwnerChar(pic, Cell(n - 1, y))]
  }

  /** One row of the canvas as text: the border, the colour of each cell, the border, a newline. */
  ghost function RowText(pic: Pic, y: int, width: nat, vBorder: char): string
  {
    [vBorder] + RowCells(pic, y, width) + [vBorder, '\n']
  }

  /** Rows `0..n-1` as text. */
  ghost function RowsText(pic: Pic, n: nat, width: nat, vBorder: char): string
  {
    if n == 0 then "" else RowsText(pic, n - 1, width, vBorder) + RowText(pic, n - 1, width, vBorder)
  }

  /** The canvas as text: a top border of `width + 2` border characters, the rows, a bottom border. */
  ghost function Rendering(pic: Pic, width: nat, height: nat, hBorder: char, vBorder: char): string
  {
    Repeat(hBorder, width + 2) + "\n" + RowsText(pic, height, width, vBorder) + Repeat(hBorder, width + 2) + "\n"
  }

  /** Repeating `c` once more appends one `c`. */
  lemma RepeatSnoc(c: char, n: nat)
    ensures Repeat(c, n + 1) == Repeat(c, n) + [c]
  {
  }

  /** Cells `cursor..n-1` of row `y` that all show `key` add a run of `key` to the row's text. */
  lemma {:induction false} RowCellsRun(pic: Pic, y: int, cursor: nat, n: nat, key: char)
    requires cursor <= n
    requires forall j :: cursor <= j < n ==> OwnerChar(pic, Cell(j, y)) == key
    ensures RowCells(pic, y, n) == RowCells(pic, y, cursor) + Repeat(key, n - cursor)
  {
    if n > cursor {
      RowCellsRun(pic, y, cursor, n - 1, key);
      RepeatSnoc(key, n - 1 - cursor);
      assert RowCells(pic, y, cursor) + Repeat(key, n - 1 - cursor) + [key]
        == RowCells(pic, y, cursor) + (Repeat(key, n - 1 - cursor) + [key]);
    }
  }

  lemma {:induction false} RowCellsAt(pic: Pic, y: int, n: nat, x: int)
    requires 0 <= x < n
    ensures RowCells(pic, y, n)[x] == OwnerChar(pic, Cell(x, y))
  {
    if x < n - 1 {
      RowCellsAt(pic, y, n - 1, x);
    }
  }

  lemma {:induction false} RowsTextLength(pic: Pic, n: nat, width: nat, vBorder: char)
    ensures |RowsText(pic, n, width, vBorder)| == (width + 3) * n
  {
    if n > 0 {
      RowsTextLength(pic, n - 1, width, vBorder);
      assert (width + 3) * n == (width + 3) * (n - 1) + (width + 3);
    }
  }

  lemma RowsTextAtLast(pic: Pic, n: nat, width: nat, vBorder: char, x: int)
    requires 1 <= n && 0 <= x < width
    ensures (width + 3) * (n - 1) + 1 + x < |RowsText(pic, n, width, vBorder)|
    ensures RowsText(pic, n, width, vBorder)[(width + 3) * (n - 1) + 1 + x] == OwnerChar(pic, Cell(x, n - 1))
  {
    var before := RowsText(pic, n - 1, width, vBorder);
    var row := RowText(pic, n - 1, width, vBorder);
    RowsTextLength(pic, n - 1, width, vBorder);
    RowCellsAt(pic, n - 1, width, x);
    assert row[1 + x] == OwnerChar(pic, Cell(x, n - 1));
    assert (before + row)[|before| + 1 + x] == row[1 + x];
  }

  lemma {:induction false} RowsTextAt(pic: Pic, n: nat, width: nat, vBorder: char, x: int, y: int)
    requires 0 <= y < n && 0 <= x < width
    ensures (width + 3) * y + 1 + x < |RowsText(pic, n, width, vBorder)|
    ensures RowsText(pic, n, width, vBorder)[(width + 3) * y + 1 + x] == OwnerChar(pic, Cell(x, y))
  {
    if y < n - 1 {
      var before := RowsText(pic, n - 1, width, vBorder);
      var i := (width + 3) * y + 1 + x;
      RowsTextAt(pic, n - 1, width, vBorder, x, y);
      assert (before + RowText(pic, n - 1, width, vBorder))[i] == before[i];
    } else {
      RowsTextAtLast(pic, n, width, vBorder, x);
    }
  }

  /**
    The rendering is a grid of `height + 2` lines of `width + 3` characters,
    and cell (x, y) shows its owner's colour at column `x + 1` of line `y + 1`.
   */
  lemma RenderingShows(pic: Pic, width: nat, height: nat, hBorder: char, vBorder: char, x: int, y: int)
    requires 0 <= y < height && 0 <= x < width
    ensures |Rendering(pic, width, height, hBorder, vBorder)| == (width + 3) * (height + 2)
    ensures Rendering(pic, width, height, hBorder, vBorder)[(width + 3) * (y + 1) + 1 + x] == OwnerChar(pic, Cell(x, y))
  {
    var top := Repeat(hBorder, width + 2) + "\n";
    RowsTextLength(pic, height, width, vBorder);
    RowsTextAt(pic, height, width, vBorder, x, y);
    assert (width + 3) * (y + 1) + 1 + x == |top| + ((width + 3) * y + 1 + x);
    assert (width + 3) * (height + 2) == |top| + (width + 3) * height + (width + 3);
  }

  /** The concatenation of the chunks written out. */
  function Concat(chunks: seq<string>): string
  {
    if |chunks| == 0 then "" else Concat(chunks[..|chunks| - 1]) + chunks[|chunks| - 1]
  }

  lemma ConcatAppend(chunks: seq<string>, s: string)
    ensures Concat(chunks + [s]) == Concat(chunks) + s
  {
    assert (chunks + [s])[..|chunks|] == chunks;
  }
}
