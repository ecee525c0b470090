/**
  The two canvases side by side. The dense canvas (com.springer.Canvas) keeps
  one character per cell; the sparse one (ru.nuyanzin.canvas.Canvas) keeps
  one layer of cells per colour. A dense board `b` and sparse owners `pic`
  agree when every cell of the canvas shows the same character in both: what
  toString prints for the cell (a control character as a space) is the colour
  that owns it. This module proves that a new canvas of each kind agrees,
  that drawing the same line or rectangle, or filling from the same seed
  4-way, keeps agreeing canvases in agreement, and that agreeing canvases of
  equal size render to the same text (the sparse text ends with one more
  newline).
 */
module Agreement {
  import opened Connectivity
  import opened Rows
  import opened Int32
  import opened Picture
  import DenseCanvas
  import SparseCanvas

  /** Every cell of the `w` by `h` board `b` shows the colour that owns it in `pic`. */
  ghost predicate Agree(b: seq<char>, w: int, h: int, pic: Pic)
    requires |b| == w * h
  {
    forall p :: p in Grid(w, h) ==> DenseCanvas.Shown(DenseCanvas.At(b, w, h, p)) == OwnerChar(pic, p)
  }

  /** In a partition, painting `s` with `c` makes exactly the cells of `s` show `c`. */
  lemma PaintShows(pic: Pic, grid: set<Cell>, s: set<Cell>, c: char, q: Cell)
    requires Partition(pic, grid) && s <= grid && q in grid
    ensures OwnerChar(Paint(pic, s, c), q) == if q in s then c else OwnerChar(pic, q)
  {
    PaintKeepsPartition(pic, grid, s, c);
    if q in s {
      OwnerCharIs(Paint(pic, s, c), grid, q, c);
    } else {
      OwnerCharOwns(pic, grid, q);
      OwnerCharIs(Paint(pic, s, c), grid, q, OwnerChar(pic, q));
    }
  }

  /** Writing `ch` into the cells `s` of a board makes exactly those cells hold `ch`. */
  lemma DrawnShows(b: seq<char>, w: int, h: int, s: set<Cell>, ch: char, p: Cell)
    requires |b| == w * h && p in Grid(w, h)
    ensures |DenseCanvas.Drawn(b, w, s, ch)| == w * h
    ensures DenseCanvas.At(DenseCanvas.Drawn(b, w, s, ch), w, h, p) == if p in s then ch else DenseCanvas.At(b, w, h, p)
  {
    DenseCanvas.CellOnBoard(p, w, h);
    DenseCanvas.CellOfIndex(p, w);
  }

  /**
    A new dense board holds '\0' everywhere, which shows as a space; a new
    sparse canvas gives every cell to the background colour ' ' beside an
    empty 'x' layer. The two agree.
   */
  lemma InitialAgree(b: seq<char>, w: int, h: int)
    requires 0 <= w && 0 <= h && |b| == w * h
    requires forall i :: 0 <= i < |b| ==> b[i] == '\0'
    ensures Partition(map[SparseCanvas.DEFAULT_LINE_CHAR := {}, SparseCanvas.DEFAULT_EMPTY_CHAR := Grid(w, h)], Grid(w, h))
    ensures Agree(b, w, h, map[SparseCanvas.DEFAULT_LINE_CHAR := {}, SparseCanvas.DEFAULT_EMPTY_CHAR := Grid(w, h)])
  {
    var pic := map[SparseCanvas.DEFAULT_LINE_CHAR := {}, SparseCanvas.DEFAULT_EMPTY_CHAR := Grid(w, h)];
    InitialPartition(SparseCanvas.DEFAULT_LINE_CHAR, SparseCanvas.DEFAULT_EMPTY_CHAR, Grid(w, h));
    forall p | p in Grid(w, h) ensures DenseCanvas.Shown(DenseCanvas.At(b, w, h, p)) == OwnerChar(pic, p) {
      DenseCanvas.CellOnBoard(p, w, h);
      OwnerCharIs(pic, Grid(w, h), p, SparseCanvas.DEFAULT_EMPTY_CHAR);
    }
  }

  /** Writing a printable `c` into cells `s` of the board and painting `s` with `c` keep agreement. */
  lemma PaintAgrees(b: seq<char>, w: int, h: int, pic: Pic, s: set<Cell>, c: char)
    requires |b| == w * h && Partition(pic, Grid(w, h)) && Agree(b, w, h, pic)
    requires s <= Grid(w, h) && !DenseCanvas.IsControl(c)
    ensures |DenseCanvas.Drawn(b, w, s, c)| == w * h
    ensures Partition(if s == {} then pic else Paint(pic, s, c), Grid(w, h))
    ensures Agree(DenseCanvas.Drawn(b, w, s, c), w, h, if s == {} then pic else Paint(pic, s, c))
  {
    var b' := DenseCanvas.Drawn(b, w, s, c);
    var pic' := if s == {} then pic else Paint(pic, s, c);
    PaintKeepsPartition(pic, Grid(w, h), s, c);
    forall p | p in Grid(w, h) ensures DenseCanvas.Shown(DenseCanvas.At(b', w, h, p)) == OwnerChar(pic', p) {
      DrawnShows(b, w, h, s, c, p);
      if s != {} {
        PaintShows(pic, Grid(w, h), s, c, p);
      }
    }
  }

  /**
    putLine on the dense board and drawLine on the sparse layers, with the
    same end points and a printable colour, keep agreeing canvases in
    agreement. A diagonal segment changes neither.
   */
  lemma LineAgrees(b: seq<char>, w: int, h: int, pic: Pic, x1: int, y1: int, x2: int, y2: int, c: char)
    requires |b| == w * h && 1 <= w && 1 <= h
    requires Partition(pic, Grid(w, h)) && Agree(b, w, h, pic) && !DenseCanvas.IsControl(c)
    ensures |DenseCanvas.Drawn(b, w, LineCells(x1, y1, x2, y2, w, h), c)| == w * h
    ensures Partition(DrawLineSpec(pic, x1, y1, x2, y2, c, w, h), Grid(w, h))
    ensures Agree(DenseCanvas.Drawn(b, w, LineCells(x1, y1, x2, y2, w, h), c), w, h,
                  DrawLineSpec(pic, x1, y1, x2, y2, c, w, h))
  {
    DrawLinePaints(pic, x1, y1, x2, y2, c, w, h);
    PaintAgrees(b, w, h, pic, LineCells(x1, y1, x2, y2, w, h), c);
  }

  /**
    putRectangle on the dense board and drawRectangle with 'x' on the sparse
    layers keep agreeing canvases in agreement.
   */
  lemma RectangleAgrees(b: seq<char>, w: int, h: int, pic: Pic, x1: int, y1: int, x2: int, y2: int)
    requires |b| == w * h && 1 <= w && 1 <= h
    requires Partition(pic, Grid(w, h)) && Agree(b, w, h, pic)
    ensures |DenseCanvas.Drawn(b, w, OutlineCells(x1, y1, x2, y2, w, h), DenseCanvas.DEFAULT_LINE_CHAR)| == w * h
    ensures Partition(RectangleSpec(pic, x1, y1, x2, y2, SparseCanvas.DEFAULT_LINE_CHAR, w, h), Grid(w, h))
    ensures Agree(DenseCanvas.Drawn(b, w, OutlineCells(x1, y1, x2, y2, w, h), DenseCanvas.DEFAULT_LINE_CHAR), w, h,
                  RectangleSpec(pic, x1, y1, x2, y2, SparseCanvas.DEFAULT_LINE_CHAR, w, h))
  {
    RectangleIsOutline(pic, x1, y1, x2, y2, SparseCanvas.DEFAULT_LINE_CHAR, w, h);
    PaintAgrees(b, w, h, pic, OutlineCells(x1, y1, x2, y2, w, h), DenseCanvas.DEFAULT_LINE_CHAR);
  }

  /**
    No two characters on the board print alike: the board never holds, say,
    both '\0' and ' '. Then the dense fill, which compares stored characters,
    and the sparse fill, which compares owners, see the same regions.
   */
  ghost predicate Faithful(b: seq<char>, w: int, h: int)
    requires |b| == w * h
  {
    forall p, q ::
      (p in Grid(w, h) && q in Grid(w, h) &&
       DenseCanvas.Shown(DenseCanvas.At(b, w, h, p)) == DenseCanvas.Shown(DenseCanvas.At(b, w, h, q))) ==>
      DenseCanvas.At(b, w, h, p) == DenseCanvas.At(b, w, h, q)
  }

  /** Dropping the empty colours changes no cell's colour. */
  lemma CleanShows(pic: Pic, grid: set<Cell>, q: Cell)
    requires Partition(pic, grid) && q in grid
    ensures OwnerChar(Clean(pic), q) == OwnerChar(pic, q)
  {
    OwnerCharOwns(pic, grid, q);
    var d := OwnerChar(pic, q);
    var cleaned := Clean(pic);
    assert d in cleaned && cleaned[d] == pic[d];
    CleanKeepsPartition(pic, grid);
    OwnerCharIs(cleaned, grid, q, d);
  }

  /** On a faithful board two cells hold the same character exactly when they have the same owner. */
  lemma SameOwner(b: seq<char>, w: int, h: int, pic: Pic, p: Cell, q: Cell)
    requires |b| == w * h && Agree(b, w, h, pic) && Faithful(b, w, h)
    requires p in Grid(w, h) && q in Grid(w, h)
    ensures DenseCanvas.At(b, w, h, p) == DenseCanvas.At(b, w, h, q) <==> OwnerChar(pic, p) == OwnerChar(pic, q)
  {
    assert DenseCanvas.Shown(DenseCanvas.At(b, w, h, p)) == OwnerChar(pic, p);
    assert DenseCanvas.Shown(DenseCanvas.At(b, w, h, q)) == OwnerChar(pic, q);
  }

  /** On a faithful board the cells holding the seed's character are the cells of the seed's owner. */
  lemma HeldIsOwned(b: seq<char>, w: int, h: int, pic: Pic, seed: Cell)
    requires |b| == w * h && Partition(pic, Grid(w, h)) && Agree(b, w, h, pic) && Faithful(b, w, h)
    requires seed in Grid(w, h)
    ensures DenseCanvas.Holding(b, w, h, DenseCanvas.At(b, w, h, seed)) == Get(pic, OwnerChar(pic, seed))
  {
    var o := OwnerChar(pic, seed);
    OwnerCharOwns(pic, Grid(w, h), seed);
    var held := DenseCanvas.Holding(b, w, h, DenseCanvas.At(b, w, h, seed));
    forall p | p in held ensures p in pic[o] {
      DenseCanvas.CellOnBoard(p, w, h);
      assert DenseCanvas.At(b, w, h, p) == DenseCanvas.At(b, w, h, seed);
      SameOwner(b, w, h, pic, p, seed);
      OwnerCharOwns(pic, Grid(w, h), p);
    }
    forall p | p in pic[o] ensures p in held {
      OwnerCharIs(pic, Grid(w, h), p, o);
      SameOwner(b, w, h, pic, p, seed);
      DenseCanvas.CellOnBoard(p, w, h);
    }
  }

  /** On a faithful board both fills flood the same region from the seed. */
  lemma SameRegion(b: seq<char>, w: int, h: int, pic: Pic, seed: Cell)
    requires |b| == w * h && Partition(pic, Grid(w, h)) && Agree(b, w, h, pic) && Faithful(b, w, h)
    requires seed in Grid(w, h)
    ensures DenseCanvas.Region(b, w, h, seed) == FillRegion(pic, seed, true)
  {
    HeldIsOwned(b, w, h, pic, seed);
  }

  /** After both fills of a region that moves to `c`, a cell shows the same character on both canvases. */
  lemma FilledCellAgrees(b: seq<char>, w: int, h: int, pic: Pic, seed: Cell, c: char, p: Cell)
    requires |b| == w * h && Partition(pic, Grid(w, h)) && Agree(b, w, h, pic) && Faithful(b, w, h)
    requires seed in Grid(w, h) && p in Grid(w, h) && !DenseCanvas.IsControl(c)
    requires OwnerChar(pic, seed) != c
    ensures |DenseCanvas.Drawn(b, w, DenseCanvas.Region(b, w, h, seed), c)| == w * h
    ensures DenseCanvas.Shown(DenseCanvas.At(DenseCanvas.Drawn(b, w, DenseCanvas.Region(b, w, h, seed), c), w, h, p))
         == OwnerChar(FillSpec(pic, seed, c, true), p)
  {
    var region := DenseCanvas.Region(b, w, h, seed);
    DrawnShows(b, w, h, region, c, p);
    SameRegion(b, w, h, pic, seed);
    OwnerCharOwns(pic, Grid(w, h), seed);
    FillSpecMoves(pic, seed, c, true, region);
    assert region <= Grid(w, h);
    PaintKeepsPartition(pic, Grid(w, h), region, c);
    CleanShows(Paint(pic, region, c), Grid(w, h), p);
    PaintShows(pic, Grid(w, h), region, c, p);
    assert DenseCanvas.Shown(DenseCanvas.At(b, w, h, p)) == OwnerChar(pic, p);
  }

  /** Flooding a region that moves to `c` keeps the canvases in agreement. */
  lemma MovedAgrees(b: seq<char>, w: int, h: int, pic: Pic, seed: Cell, c: char)
    requires |b| == w * h && Partition(pic, Grid(w, h)) && Agree(b, w, h, pic) && Faithful(b, w, h)
    requires seed in Grid(w, h) && !DenseCanvas.IsControl(c) && OwnerChar(pic, seed) != c
    ensures |DenseCanvas.Drawn(b, w, DenseCanvas.Region(b, w, h, seed), c)| == w * h
    ensures Agree(DenseCanvas.Drawn(b, w, DenseCanvas.Region(b, w, h, seed), c), w, h, FillSpec(pic, seed, c, true))
  {
    forall p | p in Grid(w, h)
      ensures DenseCanvas.Shown(DenseCanvas.At(DenseCanvas.Drawn(b, w, DenseCanvas.Region(b, w, h, seed), c), w, h, p))
           == OwnerChar(FillSpec(pic, seed, c, true), p)
    {
      FilledCellAgrees(b, w, h, pic, seed, c, p);
    }
  }

  /**
    When the seed holds a control character and `c` is the space it shows
    as, the dense fill rewrites the region while the sparse fill leaves it:
    the canvases still agree.
   */
  lemma SpaceAgrees(b: seq<char>, w: int, h: int, pic: Pic, seed: Cell, c: char)
    requires |b| == w * h && Agree(b, w, h, pic)
    requires seed in Grid(w, h) && !DenseCanvas.IsControl(c) && OwnerChar(pic, seed) == c
    ensures |DenseCanvas.Drawn(b, w, DenseCanvas.Region(b, w, h, seed), c)| == w * h
    ensures Agree(DenseCanvas.Drawn(b, w, DenseCanvas.Region(b, w, h, seed), c), w, h, pic)
  {
    var region := DenseCanvas.Region(b, w, h, seed);
    forall p | p in Grid(w, h)
      ensures DenseCanvas.Shown(DenseCanvas.At(DenseCanvas.Drawn(b, w, region, c), w, h, p)) == OwnerChar(pic, p)
    {
      DrawnShows(b, w, h, region, c, p);
      assert DenseCanvas.Shown(DenseCanvas.At(b, w, h, p)) == OwnerChar(pic, p);
      assert DenseCanvas.Shown(DenseCanvas.At(b, w, h, seed)) == OwnerChar(pic, seed);
    }
  }

  /**
    fill(x, y, c) on a faithful dense board and the 4-way fill of the sparse
    layers from the same cell with a printable `c` keep agreeing canvases in
    agreement.
   */
  lemma FillAgrees(b: seq<char>, w: int, h: int, pic: Pic, x: int, y: int, c: char)
    requires |b| == w * h && 1 <= x <= w && 1 <= y <= h
    requires Partition(pic, Grid(w, h)) && Agree(b, w, h, pic) && Faithful(b, w, h) && !DenseCanvas.IsControl(c)
    ensures |DenseCanvas.Filled(b, w, h, x, y, c)| == w * h
    ensures Partition(FillSpec(pic, Cell(x - 1, y - 1), c, true), Grid(w, h))
    ensures Agree(DenseCanvas.Filled(b, w, h, x, y, c), w, h, FillSpec(pic, Cell(x - 1, y - 1), c, true))
  {
    var seed := Cell(x - 1, y - 1);
    ShapeMember(seed, 0, 0, 0, 0, 0, 0, w, h);
    FillKeepsPartition(pic, Grid(w, h), seed, c, true);
    FillCases(b, w, h, pic, seed, c);
    DenseCanvas.FilledIs(b, w, h, x, y, c);
  }

  /** What each branch of fill(x, y, c) makes of agreeing canvases. */
  lemma FillCases(b: seq<char>, w: int, h: int, pic: Pic, seed: Cell, c: char)
    requires |b| == w * h && seed in Grid(w, h)
    requires Partition(pic, Grid(w, h)) && Agree(b, w, h, pic) && Faithful(b, w, h) && !DenseCanvas.IsControl(c)
    ensures |DenseCanvas.Drawn(b, w, DenseCanvas.Region(b, w, h, seed), c)| == w * h
    ensures DenseCanvas.At(b, w, h, seed) == c ==> Agree(b, w, h, FillSpec(pic, seed, c, true))
    ensures DenseCanvas.At(b, w, h, seed) != c ==> Agree(DenseCanvas.Drawn(b, w, DenseCanvas.Region(b, w, h, seed), c), w, h, FillSpec(pic, seed, c, true))
  {
    assert DenseCanvas.Shown(DenseCanvas.At(b, w, h, seed)) == OwnerChar(pic, seed);
    if DenseCanvas.At(b, w, h, seed) == c {
      assert FillSpec(pic, seed, c, true) == pic;
    } else if OwnerChar(pic, seed) == c {
      SpaceAgrees(b, w, h, pic, seed, c);
    } else {
      MovedAgrees(b, w, h, pic, seed, c);
    }
  }

  /** Row `i` of both texts, with '|' as the sparse vertical border, is the same line. */
  lemma RowAgrees(b: seq<char>, w: int, h: int, pic: Pic, i: int)
    requires IsInt(w) && 0 <= w <= INT_MAX - 2 && |b| == w * h && Agree(b, w, h, pic) && 0 <= i < h
    ensures DenseCanvas.FrameWidth(w) == w + 2
    ensures DenseCanvas.RowText(b, w, h, i, w + 2) + "\n" == Picture.RowText(pic, i, w, DenseCanvas.DEFAULT_VERTICAL_BOUNDARY)
  {
    DenseCanvas.FrameWidthFits(w);
    var d := DenseCanvas.RowText(b, w, h, i, w + 2) + "\n";
    var s := Picture.RowText(pic, i, w, DenseCanvas.DEFAULT_VERTICAL_BOUNDARY);
    forall j | 0 <= j < w + 3 ensures d[j] == s[j] {
      if j < w + 2 {
        DenseCanvas.RowTextAt(b, w, h, i, w + 2, j);
        if 1 <= j <= w {
          RowCellsAt(pic, i, w, j - 1);
          ShapeMember(Cell(j - 1, i), 0, 0, 0, 0, 0, 0, w, h);
        }
      }
    }
  }

  /** The first `k` rows of both texts are the same lines. */
  lemma {:induction false} RowsAgree(b: seq<char>, w: int, h: int, pic: Pic, k: int)
    requires IsInt(w) && 0 <= w <= INT_MAX - 2 && |b| == w * h && Agree(b, w, h, pic) && 0 <= k <= h
    ensures DenseCanvas.RowsText(b, w, h, k) == Picture.RowsText(pic, k, w, DenseCanvas.DEFAULT_VERTICAL_BOUNDARY)
    decreases k
  {
    if k > 0 {
      RowsAgree(b, w, h, pic, k - 1);
      RowAgrees(b, w, h, pic, k - 1);
    }
  }

  /**
    Agreeing canvases render alike: with '-' and '|' as the sparse borders,
    printTo writes what the dense toString returns, followed by a newline.
   */
  lemma RenderAgrees(b: seq<char>, w: int, h: int, pic: Pic)
    requires IsInt(w) && 0 <= w <= INT_MAX - 2 && 0 <= h && |b| == w * h && Agree(b, w, h, pic)
    ensures Rendering(pic, w, h, DenseCanvas.DEFAULT_HORIZONTAL_BOUNDARY, DenseCanvas.DEFAULT_VERTICAL_BOUNDARY)
         == DenseCanvas.Render(b, w, h) + "\n"
  {
    DenseCanvas.FrameWidthFits(w);
    RowsAgree(b, w, h, pic, h);
  }
}
