/**
  The dense canvas (com/springer/Canvas.java): one character per cell in a
  row-major array of `width * height` characters, all '\0' at first. Lines
  and rectangles overwrite the cells they cover, a fill recolours the
  4-connected region of the seed's character, and `toString` frames the
  characters with '-' and '|' borders, showing control characters as spaces.

  Cells are 0-based `Cell(column, row)`; the cell of array index `i` is
  `CellAt(i, width)`. Coordinates arrive as Java `int`s, 1-based.
 */
module DenseCanvas {
  import opened Connectivity
  import opened Rows
  import Picture
  import opened Int32

  const DEFAULT_LINE_CHAR: char := 'x'
  const DEFAULT_HORIZONTAL_BOUNDARY: char := '-'
  const DEFAULT_VERTICAL_BOUNDARY: char := '|'

  /** The cell stored at index `i` of a board `w` cells wide. */
  function CellAt(i: int, w: int): Cell
    requires 0 < w
  {
    Cell(i % w, i / w)
  }

  /** The index of cell `p` in a board `w` cells wide. */
  function Index(p: Cell, w: int): int
  {
    w * p.y + p.x
  }

  /** Row-major division: index `w * r + c` is column `c` of row `r`. */
  lemma DivMod(w: int, r: int, c: int)
    requires 0 <= c < w
    ensures (w * r + c) / w == r && (w * r + c) % w == c
  {
    var n := w * r + c;
    var q, m := n / w, n % w;
    assert w * (q - r) == c - m;
    if q > r {
      MulMono(w, 1, q - r);
    } else if q < r {
      MulMono(w, q - r, -1);
    }
  }

  /** Multiplying by a non-negative width keeps the order. */
  lemma MulMono(w: int, a: int, b: int)
    requires 0 <= w && a <= b
    ensures w * a <= w * b
  {
    assert w * b - w * a == w * (b - a);
  }

  /** The row-first spelling of an index. */
  lemma RowMajor(w: int, r: int, c: int)
    ensures r * w + c == Index(Cell(c, r), w)
  {
  }

  lemma CellOfIndex(p: Cell, w: int)
    requires 0 <= p.x < w
    ensures CellAt(Index(p, w), w) == p
  {
    DivMod(w, p.y, p.x);
  }

  lemma IndexOfCell(i: int, w: int)
    requires 0 < w
    ensures Index(CellAt(i, w), w) == i
  {
  }

  /** The cells of a `w` by `h` canvas have exactly the indices `0..w*h-1`. */
  lemma IndexInRange(p: Cell, w: int, h: int)
    requires 0 <= p.x < w
    ensures 0 <= Index(p, w) < w * h <==> 0 <= p.y < h
  {
    if p.y < 0 {
      MulMono(w, p.y, -1);
    } else if p.y < h {
      MulMono(w, 0, p.y);
      MulMono(w, p.y, h - 1);
    } else {
      MulMono(w, h, p.y);
    }
  }

  lemma CellInGrid(i: int, w: int, h: int)
    requires 0 < w && 0 <= i < w * h
    ensures CellAt(i, w) in Grid(w, h)
  {
    IndexInRange(CellAt(i, w), w, h);
    ShapeMember(CellAt(i, w), 0, 0, 0, 0, 0, 0, w, h);
  }

  /** Board `b` with every cell of `cells` set to `ch`. */
  ghost function Drawn(b: seq<char>, w: int, cells: set<Cell>, ch: char): (r: seq<char>)
    ensures |r| == |b|
    ensures forall i :: 0 <= i < |b| ==> r[i] == if 0 < w && CellAt(i, w) in cells then ch else b[i]
  {
    seq(|b|, i requires 0 <= i < |b| => if 0 < w && CellAt(i, w) in cells then ch else b[i])
  }

  /** Setting one more cell is one array write. */
  lemma DrawOne(b: seq<char>, w: int, cells: set<Cell>, p: Cell, ch: char)
    requires 0 <= p.x < w && 0 <= Index(p, w) < |b|
    ensures Drawn(b, w, cells + {p}, ch) == Drawn(b, w, cells, ch)[Index(p, w) := ch]
  {
    CellOfIndex(p, w);
    forall i | 0 <= i < |b| && CellAt(i, w) == p ensures i == Index(p, w) {
      IndexOfCell(i, w);
    }
  }

  /** Drawing cells already drawn with the same character changes nothing. */
  lemma DrawnTwice(b: seq<char>, w: int, a: set<Cell>, c: set<Cell>, ch: char)
    ensures Drawn(Drawn(b, w, a, ch), w, c, ch) == Drawn(b, w, a + c, ch)
  {
  }

  /**
    The first 0-based row (column) that putVerticalLine (putHorizontalLine)
    writes, as written: `Math.max(0, Math.min(a, b) - 1)` in `int`
    arithmetic, where `Integer.MIN_VALUE - 1` wraps to `Integer.MAX_VALUE`.
   */
  function LoopStart32(a: int, b: int): int
    requires IsInt(a) && IsInt(b)
  {
    Max(0, Wrap32(Min(a, b) - 1))
  }

  /**
    The wrap-around: for a segment from row `Integer.MIN_VALUE` to row 1 the
    loop starts at `Integer.MAX_VALUE`, so it writes nothing, although the
    segment covers the only cell of a 1 x 1 canvas.
   */
  lemma LoopStartWraps()
    ensures LoopStart32(INT_MIN, 1) == INT_MAX
    ensures LoopStart32(INT_MIN, 1) >= Min(1, Max(INT_MIN, 1))
    ensures Picture.LineCells(1, INT_MIN, 1, 1, 1, 1) == {Cell(0, 0)}
  {
    assert Cell(0, 0) in Picture.LineCells(1, INT_MIN, 1, 1, 1, 1) by {
      ShapeMember(Cell(0, 0), 0, 0, 0, 0, 0, 0, 1, 1);
    }
    forall q | q in Picture.LineCells(1, INT_MIN, 1, 1, 1, 1) ensures q == Cell(0, 0) {
      ShapeMember(q, 0, 0, 0, 0, 0, 0, 1, 1);
    }
  }

  /** Away from `Integer.MIN_VALUE` the loop start as written is the corrected one. */
  lemma LoopStartAgrees(a: int, b: int)
    requires IsInt(a) && IsInt(b) && Min(a, b) != INT_MIN
    ensures LoopStart32(a, b) == Max(1, Min(a, b)) - 1
  {
  }

  /** One more row of a column segment. */
  lemma VerticalGrows(x: int, a: int, b: int)
    requires a <= b + 1
    ensures VerticalSegment(x, a, b + 1) == VerticalSegment(x, a, b) + {Cell(x, b + 1)}
  {
    var b1 := b + 1;
    forall q ensures q in VerticalSegment(x, a, b1) <==> q in VerticalSegment(x, a, b) + {Cell(x, b1)} {
      ShapeMember(q, x, a, 0, 0, 0, 0, 0, 0);
    }
  }

  /** One more column of a row segment. */
  lemma HorizontalGrows(a: int, b: int, y: int)
    requires a <= b + 1
    ensures HorizontalSegment(a, b + 1, y) == HorizontalSegment(a, b, y) + {Cell(b + 1, y)}
  {
    var b1 := b + 1;
    forall q ensures q in HorizontalSegment(a, b1, y) <==> q in HorizontalSegment(a, b, y) + {Cell(b1, y)} {
      ShapeMember(q, 0, 0, a, b1, 0, y, 0, 0);
      ShapeMember(q, 0, 0, a, b, 0, y, 0, 0);
    }
  }

  /** One more step of putVerticalLine's loop: writing row `i` of column `x` extends the drawn segment. */
  lemma VerticalStep(b: seq<char>, cur: seq<char>, w: int, h: int, x: int, start: int, i: int, ch: char)
    requires |b| == w * h && 1 <= x <= w && 0 <= start <= i < h
    requires cur == Drawn(b, w, VerticalSegment(x - 1, start, i - 1), ch)
    ensures 0 <= w * i + x - 1 < |cur|
    ensures cur[w * i + x - 1 := ch] == Drawn(b, w, VerticalSegment(x - 1, start, i), ch)
  {
    IndexInRange(Cell(x - 1, i), w, h);
    DrawOne(b, w, VerticalSegment(x - 1, start, i - 1), Cell(x - 1, i), ch);
    VerticalGrows(x - 1, start, i - 1);
  }

  /** One more step of putHorizontalLine's loop: writing column `i` of row `y` extends the drawn segment. */
  lemma HorizontalStep(b: seq<char>, cur: seq<char>, w: int, h: int, y: int, start: int, i: int, ch: char)
    requires |b| == w * h && 1 <= y <= h && 0 <= start <= i < w
    requires cur == Drawn(b, w, HorizontalSegment(start, i - 1, y - 1), ch)
    ensures 0 <= (y - 1) * w + i < |cur|
    ensures cur[(y - 1) * w + i := ch] == Drawn(b, w, HorizontalSegment(start, i, y - 1), ch)
  {
    IndexInRange(Cell(i, y - 1), w, h);
    DrawOne(b, w, HorizontalSegment(start, i - 1, y - 1), Cell(i, y - 1), ch);
    RowMajor(w, y - 1, i);
    HorizontalGrows(start, i - 1, y - 1);
  }

  /** The cells of a vertical segment that meets the canvas: a clipped piece of its column. */
  lemma VerticalCells(x: int, y1: int, y2: int, w: int, h: int)
    requires 1 <= x <= w && Min(y1, y2) <= h && 1 <= Max(y1, y2)
    ensures Picture.LineCells(x, y1, x, y2, w, h) == VerticalSegment(x - 1, Max(1, Min(y1, y2)) - 1, Min(h, Max(y1, y2)) - 1)
  {
    forall q ensures q in Picture.LineCells(x, y1, x, y2, w, h) <==> q in VerticalSegment(x - 1, Max(1, Min(y1, y2)) - 1, Min(h, Max(y1, y2)) - 1) {
      ShapeMember(q, x - 1, 0, 0, 0, 0, 0, w, h);
    }
  }

  /** The cells of a horizontal segment that meets the canvas: a clipped piece of its row. */
  lemma HorizontalCells(x1: int, x2: int, y: int, w: int, h: int)
    requires 1 <= y <= h && Min(x1, x2) <= w && 1 <= Max(x1, x2)
    ensures Picture.LineCells(x1, y, x2, y, w, h) == HorizontalSegment(Max(1, Min(x1, x2)) - 1, Min(w, Max(x1, x2)) - 1, y - 1)
  {
    forall q ensures q in Picture.LineCells(x1, y, x2, y, w, h) <==> q in HorizontalSegment(Max(1, Min(x1, x2)) - 1, Min(w, Max(x1, x2)) - 1, y - 1) {
      ShapeMember(q, 0, 0, 0, Max(1, Min(x1, x2)) - 1, Min(w, Max(x1, x2)) - 1, y - 1, w, h);
    }
  }

  /** A segment that misses the canvas covers none of its cells. */
  lemma MissedCells(x1: int, y1: int, x2: int, y2: int, w: int, h: int)
    requires Picture.Misses(x1, y1, x2, y2, w, h)
    ensures Picture.LineCells(x1, y1, x2, y2, w, h) == {}
  {
    forall q | q in Picture.LineCells(x1, y1, x2, y2, w, h) ensures false {
      ShapeMember(q, 0, 0, 0, 0, 0, 0, w, h);
    }
  }

  /** Index `i + w` is the cell below `i`'s, and `i` the cell above it. */
  lemma NextRow(i: int, w: int)
    requires 0 < w
    ensures CellAt(i + w, w) == Cell(CellAt(i, w).x, CellAt(i, w).y + 1)
  {
    var r, c := i / w, i % w;
    assert i + w == w * (r + 1) + c;
    DivMod(w, r + 1, c);
  }

  /** Index `i + 1` in the same row as `i` is the cell to the right of `i`'s. */
  lemma NextColumn(i: int, w: int)
    requires 0 < w && i / w == (i + 1) / w
    ensures CellAt(i + 1, w) == Cell(CellAt(i, w).x + 1, CellAt(i, w).y)
  {
    var r, c := i / w, i % w;
    assert i + 1 == w * r + (i + 1) % w;
  }

  /** Java's neighbour tests accept only indices of edge neighbours. */
  lemma JavaNeighbour(i: int, j: int, w: int)
    requires 0 < w
    requires j == i + w || j == i - w || (j == i - 1 && i / w == (i - 1) / w) || (j == i + 1 && i / w == (i + 1) / w)
    ensures Adjacent4(CellAt(i, w), CellAt(j, w))
  {
    if j == i + w {
      NextRow(i, w);
    } else if j == i - w {
      NextRow(j, w);
    } else if j == i - 1 {
      NextColumn(j, w);
    } else {
      NextColumn(i, w);
    }
  }

  /** Every edge neighbour of a cell on the board passes one of Java's four neighbour tests. */
  lemma NeighbourIsJava(i: int, q: Cell, w: int, h: int)
    requires 0 < w && 0 <= i < w * h && q in Grid(w, h) && Adjacent4(CellAt(i, w), q)
    ensures var j := Index(q, w);
      (j == i + w && j < w * h) || (j == i - w && 0 <= j) ||
      (j == i - 1 && 0 < i && i / w == (i - 1) / w) || (j == i + 1 && i / w == (i + 1) / w)
  {
    var p := CellAt(i, w);
    var j := Index(q, w);
    IndexOfCell(i, w);
    ShapeMember(q, 0, 0, 0, 0, 0, 0, w, h);
    IndexInRange(q, w, h);
    if q.x == p.x && q.y == p.y + 1 {
      assert j == i + w;
    } else if q.x == p.x && q.y + 1 == p.y {
      assert j == i - w;
    } else if q.x + 1 == p.x {
      assert j == i - 1;
      DivMod(w, p.y, q.x);
    } else {
      assert j == i + 1;
      DivMod(w, p.y, q.x);
    }
  }

  /** The cells of a `w` by `h` canvas have indices on the board. */
  lemma CellOnBoard(p: Cell, w: int, h: int)
    requires p in Grid(w, h)
    ensures 0 <= p.x < w && 0 <= Index(p, w) < w * h
  {
    ShapeMember(p, 0, 0, 0, 0, 0, 0, w, h);
    IndexInRange(p, w, h);
  }

  /** The character board `b` holds at cell `p`. */
  function At(b: seq<char>, w: int, h: int, p: Cell): char
    requires |b| == w * h && p in Grid(w, h)
  {
    CellOnBoard(p, w, h);
    b[Index(p, w)]
  }

  /** The cells of a `w` by `h` board `b` that hold `ch`. */
  ghost function Holding(b: seq<char>, w: int, h: int, ch: char): (s: set<Cell>)
    ensures forall p :: p in s <==> p in Grid(w, h) && 0 <= Index(p, w) < |b| && b[Index(p, w)] == ch
  {
    set p | p in Grid(w, h) && 0 <= Index(p, w) < |b| && b[Index(p, w)] == ch
  }

  /** The 4-connected cells of the seed's character that can be reached from the seed. */
  ghost function Region(b: seq<char>, w: int, h: int, seed: Cell): (r: set<Cell>)
    requires |b| == w * h && seed in Grid(w, h)
    ensures r <= Holding(b, w, h, At(b, w, h, seed))
  {
    Component(Holding(b, w, h, At(b, w, h, seed)), Adjacency(true), seed)
  }

  /**
    What fill(x, y, c) makes of board `b`: nothing when (x, y) is off the
    canvas or already shows `c`; otherwise the seed's region shows `c`.
   */
  ghost function Filled(b: seq<char>, w: int, h: int, x: int, y: int, c: char): seq<char>
    requires |b| == w * h
  {
    if x < 1 || y < 1 || x > w || y > h then b
    else
      var seed := Cell(x - 1, y - 1);
      ShapeMember(seed, 0, 0, 0, 0, 0, 0, w, h);
      if At(b, w, h, seed) == c then b else Drawn(b, w, Region(b, w, h, seed), c)
  }

  /** The indices of a set of cells, as the cells they denote. */
  ghost function IndexedCells(s: set<int>, w: int): set<Cell>
    requires 0 < w
  {
    set i | i in s :: CellAt(i, w)
  }

  /** Drawing with the character the cells already hold changes nothing. */
  lemma DrawnSame(b: seq<char>, w: int, h: int, cells: set<Cell>, ch: char)
    requires 0 < w && cells <= Holding(b, w, h, ch)
    ensures Drawn(b, w, cells, ch) == b
  {
    forall i | 0 <= i < |b| && CellAt(i, w) in cells ensures b[i] == ch {
      IndexOfCell(i, w);
    }
  }

  /** A set that holds the seed and lets no step leave it within the region is the region. */
  lemma DoneIsRegion(b: seq<char>, w: int, h: int, seed: Cell, done: set<Cell>)
    requires |b| == w * h && seed in Grid(w, h) && seed in done && done <= Region(b, w, h, seed)
    requires forall p, q :: p in done && q in Region(b, w, h, seed) && Adjacent4(p, q) ==> q in done
    ensures done == Region(b, w, h, seed)
  {
    var s := Holding(b, w, h, At(b, w, h, seed));
    forall p, q | p in done && q in s && Adjacency(true)(p, q) ensures q in done {
      StepInComponent(s, Adjacency(true), seed, p, q);
    }
    ComponentCharacterized(done, s, Adjacency(true), seed);
  }

  /**
    A cell that still shows the old character next to a cell of the region
    belongs to the region and has not been recoloured yet.
   */
  lemma CandidateInRegion(orig: seq<char>, board: seq<char>, w: int, h: int, seed: Cell, done: set<Cell>,
                          newColor: char, i: int, j: int)
    requires 0 < w && |orig| == w * h && seed in Grid(w, h) && At(orig, w, h, seed) != newColor
    requires board == Drawn(orig, w, done, newColor)
    requires 0 <= i < |orig| && CellAt(i, w) in Region(orig, w, h, seed)
    requires 0 <= j < |orig| && board[j] == At(orig, w, h, seed) && Adjacent4(CellAt(i, w), CellAt(j, w))
    ensures CellAt(j, w) in Region(orig, w, h, seed) && CellAt(j, w) !in done
  {
    var s := Holding(orig, w, h, At(orig, w, h, seed));
    CellInGrid(j, w, h);
    IndexOfCell(j, w);
    assert CellAt(j, w) in s;
    StepInComponent(s, Adjacency(true), seed, CellAt(i, w), CellAt(j, w));
  }

  /**
    The neighbours of index `i` that updateColorNeighbours looks at: the
    cells below and above, and the cells to the left and right when they
    lie in the same row.
   */
  predicate JavaAdjacent(w: int, i: int, j: int)
    requires 0 < w
  {
    j == i + w || j == i - w || (j == i - 1 && 0 < i && i / w == (i - 1) / w) || (j == i + 1 && i / w == (i + 1) / w)
  }

  /** The right-hand neighbour test never looks past the end of the board. */
  lemma SameRowNext(i: int, w: int, h: int)
    requires 0 < w && 0 <= i < w * h && i / w == (i + 1) / w
    ensures i + 1 < w * h
  {
    IndexOfCell(i, w);
    IndexOfCell(i + 1, w);
    IndexInRange(CellAt(i, w), w, h);
    if i + 1 == w * h {
      DivMod(w, h, 0);
    }
  }

  /** Every cell of `region` next to `done` but outside it has its index in `points`. */
  ghost predicate Frontier(region: set<Cell>, done: set<Cell>, points: set<int>, w: int)
  {
    forall p, q :: p in done && q in region && Adjacent4(p, q) && q !in done ==> Index(q, w) in points
  }

  /**
    A neighbour that passes Java's test while a pass visits `i` is a cell of
    the region not yet recoloured; when `i` was recoloured before the pass,
    that neighbour was pending, so not every point of the pass was done.
   */
  lemma NeighbourPending(orig: seq<char>, board: seq<char>, w: int, h: int, seed: Cell, done: set<Cell>,
                         visited: set<Cell>, points: set<int>, newColor: char, i: int, j: int)
    requires 0 < w && |orig| == w * h && seed in Grid(w, h) && At(orig, w, h, seed) != newColor
    requires board == Drawn(orig, w, visited, newColor) && done <= visited
    requires 0 <= i < |orig| && CellAt(i, w) in Region(orig, w, h, seed)
    requires 0 <= j < |orig| && board[j] == At(orig, w, h, seed) && JavaAdjacent(w, i, j)
    requires Frontier(Region(orig, w, h, seed), done, points, w)
    ensures CellAt(j, w) in Region(orig, w, h, seed)
    ensures CellAt(i, w) in done ==> !(IndexedCells(points, w) <= done)
  {
    JavaNeighbour(i, j, w);
    CandidateInRegion(orig, board, w, h, seed, visited, newColor, i, j);
    if CellAt(i, w) in done {
      IndexOfCell(j, w);
      assert j in points;
      assert CellAt(j, w) in IndexedCells(points, w);
    }
  }

  /**
    One visit of a pass keeps the pass's bookkeeping: the visited cell joins
    `visited`, the neighbours found join the candidates, every region cell
    next to the visited cells is still pending, and a pass over points that
    were all recoloured before finds nothing.
   */
  lemma VisitStep(orig: seq<char>, board: seq<char>, w: int, h: int, seed: Cell, region: set<Cell>, done: set<Cell>,
                  visited: set<Cell>, points: set<int>, rest: set<int>, candidates: set<int>,
                  found: set<int>, newColor: char, i: int)
    requires 0 < w && |orig| == w * h && seed in Grid(w, h) && At(orig, w, h, seed) != newColor
    requires region == Region(orig, w, h, seed)
    requires done <= visited <= region && i in rest && 0 <= i < |orig| && CellAt(i, w) in region
    requires board == Drawn(orig, w, visited + {CellAt(i, w)}, newColor)
    requires forall j :: j in found <==> (0 <= j < |board| && JavaAdjacent(w, i, j) && board[j] == At(orig, w, h, seed))
    requires Frontier(region, done, points, w)
    requires Frontier(region, visited, candidates + rest, w)
    requires forall j :: j in candidates ==> 0 <= j < |orig| && CellAt(j, w) in region
    requires IndexedCells(points, w) <= done ==> visited == done && candidates == {}
    requires i in points
    ensures Frontier(region, visited + {CellAt(i, w)}, candidates + found + (rest - {i}), w)
    ensures forall j :: j in candidates + found ==> 0 <= j < |orig| && CellAt(j, w) in region
    ensures IndexedCells(points, w) <= done ==> visited + {CellAt(i, w)} == done && candidates + found == {}
  {
    FoundInRegion(orig, board, w, h, seed, done, visited + {CellAt(i, w)}, points, found, newColor, i);
    if IndexedCells(points, w) <= done {
      assert CellAt(i, w) in IndexedCells(points, w);
    }
    FrontierGrows(orig, board, w, h, seed, region, visited, rest, candidates, found, newColor, i);
  }

  /**
    The neighbours a visit finds lie in the region; a visit of a cell that
    was recoloured before the pass, in a pass whose points were all
    recoloured before, finds none.
   */
  lemma FoundInRegion(orig: seq<char>, board: seq<char>, w: int, h: int, seed: Cell, done: set<Cell>,
                      visited: set<Cell>, points: set<int>, found: set<int>, newColor: char, i: int)
    requires 0 < w && |orig| == w * h && seed in Grid(w, h) && At(orig, w, h, seed) != newColor
    requires done <= visited && 0 <= i < |orig| && CellAt(i, w) in Region(orig, w, h, seed)
    requires board == Drawn(orig, w, visited, newColor)
    requires forall j :: j in found <==> (0 <= j < |board| && JavaAdjacent(w, i, j) && board[j] == At(orig, w, h, seed))
    requires Frontier(Region(orig, w, h, seed), done, points, w)
    ensures forall j :: j in found ==> 0 <= j < |orig| && CellAt(j, w) in Region(orig, w, h, seed)
    ensures IndexedCells(points, w) <= done && CellAt(i, w) in done ==> found == {}
  {
    forall j | j in found ensures CellAt(j, w) in Region(orig, w, h, seed) {
      NeighbourPending(orig, board, w, h, seed, done, visited, points, newColor, i, j);
    }
    if IndexedCells(points, w) <= done && CellAt(i, w) in done {
      forall j | j in found ensures false {
        NeighbourPending(orig, board, w, h, seed, done, visited, points, newColor, i, j);
      }
    }
  }

  /**
    After a visit of `i`, every region cell next to the visited cells is
    still pending: a neighbour of `i`'s cell was found by the visit, any
    other was pending before and is not `i`.
   */
  lemma FrontierGrows(orig: seq<char>, board: seq<char>, w: int, h: int, seed: Cell, region: set<Cell>,
                      visited: set<Cell>, rest: set<int>, candidates: set<int>, found: set<int>,
                      newColor: char, i: int)
    requires 0 < w && |orig| == w * h && seed in Grid(w, h)
    requires region == Region(orig, w, h, seed) && 0 <= i < |orig|
    requires board == Drawn(orig, w, visited + {CellAt(i, w)}, newColor)
    requires forall j :: j in found <==> (0 <= j < |board| && JavaAdjacent(w, i, j) && board[j] == At(orig, w, h, seed))
    requires Frontier(region, visited, candidates + rest, w)
    ensures Frontier(region, visited + {CellAt(i, w)}, candidates + found + (rest - {i}), w)
  {
    var pi := CellAt(i, w);
    var visited' := visited + {pi};
    forall p, q | p in visited' && q in region && Adjacent4(p, q) && q !in visited'
      ensures Index(q, w) in candidates + found + (rest - {i})
    {
      assert q in Grid(w, h);
      CellOfIndex(q, w);
      IndexInRange(q, w, h);
      if p == pi {
        NeighbourIsJava(i, q, w, h);
        IndexOfCell(i, w);
        assert Index(q, w) in found;
      }
    }
  }

  // Rendering.

  /** Java's Character.CONTROL category: U+0000..U+001F and U+007F..U+009F. */
  predicate IsControl(ch: char)
  {
    ch <= '\U{1F}' || '\U{7F}' <= ch <= '\U{9F}'
  }

  /** How toString shows a cell: a control character as a space, anything else as itself. */
  function Shown(ch: char): (r: char)
    ensures !IsControl(r)
    ensures !IsControl(ch) ==> r == ch
  {
    if IsControl(ch) then ' ' else ch
  }

  /**
    `width + 2` in Java `int` arithmetic: the length of a border line and of
    a row of text before its newline.
   */
  function FrameWidth(w: int): int
    requires IsInt(w)
  {
    Wrap32(w + 2)
  }

  /** A positive frame width is `w + 2` itself; only the two largest widths wrap. */
  lemma FrameWidthFits(w: int)
    requires IsInt(w)
    ensures 0 < FrameWidth(w) ==> FrameWidth(w) == w + 2
    ensures w <= INT_MAX - 2 ==> FrameWidth(w) == w + 2
  {
  }

  /** Widths INT_MAX - 1 and INT_MAX wrap `width + 2` to a negative bound: no border at all. */
  lemma FrameWidthWraps()
    ensures FrameWidth(INT_MAX - 1) < 0 && FrameWidth(INT_MAX) < 0
  {
  }

  /**
    Column `j` of row `i` of the text: the vertical boundary at both ends,
    the shown character of cell (j - 1, i) in between.
   */
  function RowChar(b: seq<char>, w: int, h: int, i: int, j: int): char
    requires IsInt(w) && |b| == w * h && 0 <= i < h && 0 <= j < FrameWidth(w)
  {
    FrameWidthFits(w);
    if j == 0 || j == w + 1 then DEFAULT_VERTICAL_BOUNDARY
    else
      ShapeMember(Cell(j - 1, i), 0, 0, 0, 0, 0, 0, w, h);
      Shown(At(b, w, h, Cell(j - 1, i)))
  }

  /** The first `k` characters of row `i` of the text. */
  function RowText(b: seq<char>, w: int, h: int, i: int, k: int): (s: string)
    requires IsInt(w) && |b| == w * h && 0 <= i < h && 0 <= k <= Max(0, FrameWidth(w))
    ensures |s| == k
    decreases k
  {
    if k == 0 then "" else RowText(b, w, h, i, k - 1) + [RowChar(b, w, h, i, k - 1)]
  }

  /** Rows `0..k-1` of the text, each ended by a newline. */
  function RowsText(b: seq<char>, w: int, h: int, k: int): string
    requires IsInt(w) && |b| == w * h && 0 <= k <= Max(0, h)
    decreases k
  {
    if k == 0 then "" else RowsText(b, w, h, k - 1) + RowText(b, w, h, k - 1, Max(0, FrameWidth(w))) + "\n"
  }

  /** Text built row by row: one more row of text extends the rows before it. */
  lemma RowsTextSnoc(b: seq<char>, w: int, h: int, i: int, top: string, rowStart: string, s: string)
    requires IsInt(w) && |b| == w * h && 0 <= i < h
    requires rowStart == top + RowsText(b, w, h, i)
    requires s == rowStart + RowText(b, w, h, i, Max(0, FrameWidth(w))) + "\n"
    ensures s == top + RowsText(b, w, h, i + 1)
  {
  }

  /**
    What toString returns: a border line of `width + 2` '-' followed by a
    newline (when there is a border at all), one line per row, and a last
    border line without a newline.
   */
  function Render(b: seq<char>, w: int, h: int): string
    requires IsInt(w) && |b| == w * h
  {
    var border := Picture.Repeat(DEFAULT_HORIZONTAL_BOUNDARY, Max(0, FrameWidth(w)));
    border + (if 0 < FrameWidth(w) then "\n" else "") + RowsText(b, w, h, Max(0, h)) + border
  }

  /**
    `(width + 2) * (height + 2)` in Java `int` arithmetic: the capacity
    toString asks of its StringBuilder, which throws when it is negative.
   */
  function Capacity32(w: int, h: int): int
    requires IsInt(w) && IsInt(h)
  {
    Wrap32(Wrap32(w + 2) * Wrap32(h + 2))
  }

  /** Without wrap-around the capacity is the size of the framed text. */
  lemma CapacityFits(w: int, h: int)
    requires IsInt(w) && IsInt(h) && -2 <= w && -2 <= h && (w + 2) * (h + 2) <= INT_MAX
    ensures Capacity32(w, h) == (w + 2) * (h + 2) >= 0
  {
    FrameWidthFits(w);
    MulMono(w + 2, 0, h + 2);
  }

  /**
    Two canvases the constructor accepts whose capacity is negative: a
    46340 x 46340 board (46342 squared wraps) and a -3 x 0 board.
   */
  lemma CapacityNegative()
    ensures Capacity32(46340, 46340) < 0
    ensures Capacity32(-3, 0) < 0
  {
    assert 46342 * 46342 == 2147580964;
  }

  /** What toString gives: the text, or the exception of a negative capacity. */
  datatype Printed = Printed(text: string) | NegativeArraySize

  datatype Status = Ok | Unsupported(message: string)

  /** The message putLine throws for a segment that is neither vertical nor horizontal. */
  const UNSUPPORTED_LINE: string := "Currently only horizontal and vertical are supported"

  class Canvas {
    const width: int
    const height: int
    /** Row-major characters: cell (column c, row r) is at `width * r + c`. */
    const canvasBoard: array<char>

    /** The dimensions are Java `int`s and the array holds `width * height` characters. */
    ghost predicate Valid()
    {
      IsInt(width) && IsInt(height) && canvasBoard.Length == width * height
    }

    /**
      Canvas(w, h): a board of `w * h` characters, all '\0'. A negative
      product makes Java throw, so the product must be an array size.
     */
    constructor (w: int, h: int)
      requires IsInt(w) && IsInt(h) && 0 <= w * h <= INT_MAX
      ensures width == w && height == h && Valid() && fresh(canvasBoard)
      ensures forall i :: 0 <= i < canvasBoard.Length ==> canvasBoard[i] == '\0'
    {
      width := w;
      height := h;
      canvasBoard := new char[w * h](_ => '\0');
    }

    /**
      putVerticalLine with the loop starting at `Math.max(1, min) - 1`, the
      start the code evidently intends (LoopStart32 is the start as written):
      the cells of the segment that lie on the canvas get `ch`, no other
      cell changes.
     */
    method PutVerticalLine(x: int, y1: int, y2: int, ch: char)
      requires Valid() && IsInt(x) && IsInt(y1) && IsInt(y2)
      modifies canvasBoard
      ensures canvasBoard[..] == Drawn(old(canvasBoard[..]), width, Picture.LineCells(x, y1, x, y2, width, height), ch)
    {
      if x < 1 || x > width || Min(y1, y2) > height || Max(y1, y2) < 1 {
        MissedCells(x, y1, x, y2, width, height);
        return;
      }
      var start := Max(1, Min(y1, y2)) - 1;
      var end := Min(height, Max(y1, y2));
      var i := start;
      while i < end
        invariant start <= i <= end
        invariant canvasBoard[..] == Drawn(old(canvasBoard[..]), width, VerticalSegment(x - 1, start, i - 1), ch)
      {
        VerticalStep(old(canvasBoard[..]), canvasBoard[..], width, height, x, start, i, ch);
        canvasBoard[width * i + x - 1] := ch;
        i := i + 1;
      }
      VerticalCells(x, y1, y2, width, height);
    }

    /**
      putHorizontalLine with the loop starting at `Math.max(1, min) - 1`:
      the cells of the segment that lie on the canvas get `ch`, no other
      cell changes.
     */
    method PutHorizontalLine(x1: int, x2: int, y: int, ch: char)
      requires Valid() && IsInt(x1) && IsInt(x2) && IsInt(y)
      modifies canvasBoard
      ensures canvasBoard[..] == Drawn(old(canvasBoard[..]), width, Picture.LineCells(x1, y, x2, y, width, height), ch)
    {
      if Max(x1, x2) < 1 || Min(x1, x2) > width || y > height || y < 1 {
        MissedCells(x1, y, x2, y, width, height);
        return;
      }
      var start := Max(1, Min(x1, x2)) - 1;
      var end := Min(width, Max(x1, x2));
      var i := start;
      while i < end
        invariant start <= i <= end
        invariant canvasBoard[..] == Drawn(old(canvasBoard[..]), width, HorizontalSegment(start, i - 1, y - 1), ch)
      {
        HorizontalStep(old(canvasBoard[..]), canvasBoard[..], width, height, y, start, i, ch);
        canvasBoard[(y - 1) * width + i] := ch;
        i := i + 1;
      }
      HorizontalCells(x1, x2, y, width, height);
    }

    /**
      putLine: a vertical line when the columns agree, else a horizontal one
      when the rows agree; any other segment is refused with
      UnsupportedOperationException and the board is left as it was.
     */
    method PutLine(x1: int, y1: int, x2: int, y2: int, c: char) returns (r: Status)
      requires Valid() && IsInt(x1) && IsInt(y1) && IsInt(x2) && IsInt(y2)
      modifies canvasBoard
      ensures r.Ok? <==> x1 == x2 || y1 == y2
      ensures r.Ok? ==> canvasBoard[..] == Drawn(old(canvasBoard[..]), width, Picture.LineCells(x1, y1, x2, y2, width, height), c)
      ensures r.Unsupported? ==> canvasBoard[..] == old(canvasBoard[..]) && r.message == UNSUPPORTED_LINE
    {
      if x1 == x2 {
        PutVerticalLine(x1, y1, y2, c);
      } else if y1 == y2 {
        PutHorizontalLine(x1, x2, y1, c);
      } else {
        return Unsupported(UNSUPPORTED_LINE);
      }
      return Ok;
    }

    /**
      putRectangle: the top and bottom sides, then the left and right sides,
      in DEFAULT_LINE_CHAR; the outline's cells on the canvas show 'x'.
     */
    method PutRectangle(x1: int, y1: int, x2: int, y2: int)
      requires Valid() && IsInt(x1) && IsInt(y1) && IsInt(x2) && IsInt(y2)
      modifies canvasBoard
      ensures canvasBoard[..] == Drawn(old(canvasBoard[..]), width, Picture.OutlineCells(x1, y1, x2, y2, width, height), DEFAULT_LINE_CHAR)
    {
      ghost var b := canvasBoard[..];
      PutHorizontalLine(x1, x2, y1, DEFAULT_LINE_CHAR);
      PutHorizontalLine(x1, x2, y2, DEFAULT_LINE_CHAR);
      PutVerticalLine(x1, y1, y2, DEFAULT_LINE_CHAR);
      PutVerticalLine(x2, y1, y2, DEFAULT_LINE_CHAR);
      ghost var l1 := Picture.LineCells(x1, y1, x2, y1, width, height);
      ghost var l2 := Picture.LineCells(x1, y2, x2, y2, width, height);
      ghost var l3 := Picture.LineCells(x1, y1, x1, y2, width, height);
      DrawnTwice(b, width, l1, l2, DEFAULT_LINE_CHAR);
      DrawnTwice(b, width, l1 + l2, l3, DEFAULT_LINE_CHAR);
      DrawnTwice(b, width, l1 + l2 + l3, Picture.LineCells(x2, y1, x2, y2, width, height), DEFAULT_LINE_CHAR);
    }

    /**
      fill: off the canvas, or on a cell that already shows `c`, nothing
      changes; otherwise the 4-connected region of the seed's character
      around (x, y) is recoloured to `c`, and nothing else.
     */
    method Fill(x: int, y: int, c: char)
      requires Valid() && IsInt(x) && IsInt(y)
      modifies canvasBoard
      ensures canvasBoard[..] == Filled(old(canvasBoard[..]), width, height, x, y, c)
    {
      if x < 1 || y < 1 || x > width || y > height {
        return;
      }
      ghost var seed := Cell(x - 1, y - 1);
      IndexInRange(seed, width, height);
      RowMajor(width, y - 1, x - 1);
      var currentChar := canvasBoard[(y - 1) * width + x - 1];
      if currentChar == c {
        return;
      }
      ghost var orig := canvasBoard[..];
      assert Drawn(orig, width, {}, c) == orig;
      CellOfIndex(seed, width);
      SeedInComponent(Holding(orig, width, height, currentChar), Adjacency(true), seed);
      UpdateColorNeighbours({(y - 1) * width + x - 1}, currentChar, c, orig, seed, Region(orig, width, height, seed), {});
    }

    /** appendHorizontalBoundary: `width + 2` (in `int` arithmetic) boundary characters. */
    method AppendHorizontalBoundary(result: string) returns (r: string)
      requires Valid()
      ensures r == result + Picture.Repeat(DEFAULT_HORIZONTAL_BOUNDARY, Max(0, FrameWidth(width)))
    {
      r := result;
      var i := 0;
      while i < FrameWidth(width)
        invariant 0 <= i <= Max(0, FrameWidth(width))
        invariant r == result + Picture.Repeat(DEFAULT_HORIZONTAL_BOUNDARY, i)
      {
        r := r + [DEFAULT_HORIZONTAL_BOUNDARY];
        i := i + 1;
      }
    }

    /**
      The character toString writes at column `j` of row `i`: the vertical
      boundary at both ends, a cell's character between them, control
      characters replaced by a space.
     */
    method FrameChar(i: int, j: int) returns (c: char)
      requires Valid() && 0 <= i < height && 0 <= j < FrameWidth(width)
      ensures c == RowChar(canvasBoard[..], width, height, i, j)
    {
      FrameWidthFits(width);
      if j == 0 || j == width + 1 {
        c := DEFAULT_VERTICAL_BOUNDARY;
      } else {
        CellOnBoard(Cell(j - 1, i), width, height);
        ShapeMember(Cell(j - 1, i), 0, 0, 0, 0, 0, 0, width, height);
        var ch := canvasBoard[width * i + j - 1];
        if IsControl(ch) {
          c := ' ';
        } else {
          c := ch;
        }
      }
    }

    /** The StringBuilder capacity toString computes, in `int` arithmetic. */
    method Capacity() returns (n: int)
      requires Valid()
      ensures n == Capacity32(width, height)
    {
      n := Wrap32(Wrap32(width + 2) * Wrap32(height + 2));
    }

    /**
      toString: the board framed by its boundaries, row by row, control
      characters as spaces; NegativeArraySize when the StringBuilder's
      capacity `(width + 2) * (height + 2)` is negative in `int`.
     */
    method ToString() returns (r: Printed)
      requires Valid()
      ensures r.NegativeArraySize? <==> Capacity32(width, height) < 0
      ensures r.Printed? ==> r.text == Render(canvasBoard[..], width, height)
    {
      var capacity := Capacity();
      if capacity < 0 {
        return NegativeArraySize;
      }
      var s := Framed();
      r := Printed(s);
    }

    /** The text toString builds once its StringBuilder exists. */
    method Framed() returns (s: string)
      requires Valid()
      ensures s == Render(canvasBoard[..], width, height)
    {
      ghost var b := canvasBoard[..];
      FrameWidthFits(width);
      s := AppendHorizontalBoundary("");
      if FrameWidth(width) > 0 {
        s := s + "\n";
      }
      ghost var top := s;
      var i := 0;
      while i < height
        invariant 0 <= i <= Max(0, height)
        invariant s == top + RowsText(b, width, height, i)
      {
        ghost var rowStart := s;
        var j := 0;
        while j < FrameWidth(width)
          invariant 0 <= j <= Max(0, FrameWidth(width))
          invariant s == rowStart + RowText(b, width, height, i, j)
        {
          var c := FrameChar(i, j);
          s := s + [c];
          j := j + 1;
        }
        s := s + "\n";
        RowsTextSnoc(b, width, height, i, top, rowStart, s);
        i := i + 1;
      }
      s := AppendHorizontalBoundary(s);
    }

    /**
      The neighbour tests of updateColorNeighbours for index `i`: the indices
      below, above, left and right (the last two in the same row) that lie
      on the board and show `initialColor`. The test `i + width < length` is
      taken without wrap-around; in Java the sum wraps on boards of more than
      `INT_MAX - width` cells (NeighbourIndexWraps) and the array access throws.
     */
    method NeighboursToUpdate(i: int, initialColor: char) returns (found: set<int>)
      requires Valid() && 0 < width && 0 <= i < canvasBoard.Length
      ensures forall j :: j in found <==>
        0 <= j < canvasBoard.Length && JavaAdjacent(width, i, j) && canvasBoard[j] == initialColor
    {
      found := {};
      if i + width < canvasBoard.Length && canvasBoard[i + width] == initialColor {
        found := found + {i + width};
      }
      if i - width >= 0 && canvasBoard[i - width] == initialColor {
        found := found + {i - width};
      }
      if i > 0 && i / width == (i - 1) / width && canvasBoard[i - 1] == initialColor {
        found := found + {i - 1};
      }
      if i / width == (i + 1) / width {
        SameRowNext(i, width, height);
        if canvasBoard[i + 1] == initialColor {
          found := found + {i + 1};
        }
      }
    }

    /**
      updateColorNeighbours, one pass per call: every index of
      `pointsToUpdate` gets `newColor`, and its neighbours that still show
      `initialColor` become the next pass's points. The ghost parameters say
      where the fill stands: `orig` is the board before the fill, `region`
      the seed's region in it, `done` the cells recoloured so far; every cell
      of the region next to `done` but not in it is pending. Then the passes
      recolour exactly the region.
     */
    method UpdateColorNeighbours(pointsToUpdate: set<int>, initialColor: char, newColor: char,
                                 ghost orig: seq<char>, ghost seed: Cell, ghost region: set<Cell>,
                                 ghost done: set<Cell>)
      requires Valid() && 0 < width && |orig| == canvasBoard.Length
      requires seed in Grid(width, height) && At(orig, width, height, seed) == initialColor
      requires region == Region(orig, width, height, seed) && seed in region
      requires done <= region && canvasBoard[..] == Drawn(orig, width, done, newColor)
      requires forall i :: i in pointsToUpdate ==> 0 <= i < |orig| && CellAt(i, width) in region
      requires Frontier(region, done, pointsToUpdate, width)
      requires seed in done || Index(seed, width) in pointsToUpdate
      modifies canvasBoard
      ensures canvasBoard[..] == Drawn(orig, width, region, newColor)
      decreases region - done, pointsToUpdate
    {
      if pointsToUpdate == {} || initialColor == newColor {
        if initialColor == newColor {
          DrawnSame(orig, width, height, done, newColor);
          DrawnSame(orig, width, height, region, newColor);
        } else {
          DoneIsRegion(orig, width, height, seed, done);
        }
        return;
      }
      var candidates: set<int> := {};
      var rest := pointsToUpdate;
      ghost var visited := done;
      while rest != {}
        invariant rest <= pointsToUpdate
        invariant done <= visited <= region
        invariant forall i :: i in pointsToUpdate - rest ==> CellAt(i, width) in visited
        invariant canvasBoard[..] == Drawn(orig, width, visited, newColor)
        invariant forall j :: j in candidates ==> 0 <= j < |orig| && CellAt(j, width) in region
        invariant Frontier(region, visited, candidates + rest, width)
        invariant IndexedCells(pointsToUpdate, width) <= done ==> visited == done && candidates == {}
        decreases rest
      {
        NonEmpty(rest);
        var i :| i in rest;
        IndexOfCell(i, width);
        DrawOne(orig, width, visited, CellAt(i, width), newColor);
        canvasBoard[i] := newColor;
        var found := NeighboursToUpdate(i, initialColor);
        VisitStep(orig, canvasBoard[..], width, height, seed, region, done, visited, pointsToUpdate, rest, candidates, found, newColor, i);
        candidates := candidates + found;
        rest := rest - {i};
        visited := visited + {CellAt(i, width)};
      }
      if !(IndexedCells(pointsToUpdate, width) <= done) {
        var k :| k in pointsToUpdate && CellAt(k, width) !in done;
        assert CellAt(k, width) in region - done;
        assert CellAt(k, width) !in region - visited;
      }
      if seed !in done {
        assert seed in Grid(width, height);
        CellOfIndex(seed, width);
      }
      UpdateColorNeighbours(candidates, initialColor, newColor, orig, seed, region, visited);
    }
  }

  /**
    After a fill from an in-canvas cell that did not show `c`, a cell shows
    `c` if it is in the seed's region and keeps its character otherwise.
   */
  lemma FillRecolours(b: seq<char>, w: int, h: int, x: int, y: int, c: char, p: Cell)
    requires |b| == w * h && 1 <= x <= w && 1 <= y <= h && p in Grid(w, h)
    requires Cell(x - 1, y - 1) in Grid(w, h) && At(b, w, h, Cell(x - 1, y - 1)) != c
    ensures |Filled(b, w, h, x, y, c)| == |b|
    ensures At(Filled(b, w, h, x, y, c), w, h, p) ==
      if p in Region(b, w, h, Cell(x - 1, y - 1)) then c else At(b, w, h, p)
  {
    CellOnBoard(p, w, h);
    CellOfIndex(p, w);
  }

  /** A fill from an in-canvas cell leaves the board alone when the seed shows `c` and floods its region otherwise. */
  lemma FilledIs(b: seq<char>, w: int, h: int, x: int, y: int, c: char)
    requires |b| == w * h && 1 <= x <= w && 1 <= y <= h
    ensures Cell(x - 1, y - 1) in Grid(w, h)
    ensures Filled(b, w, h, x, y, c) ==
      if At(b, w, h, Cell(x - 1, y - 1)) == c then b else Drawn(b, w, Region(b, w, h, Cell(x - 1, y - 1)), c)
  {
    ShapeMember(Cell(x - 1, y - 1), 0, 0, 0, 0, 0, 0, w, h);
  }

  /** The seed itself is recoloured: after the fill it shows `c`. */
  lemma FillColoursSeed(b: seq<char>, w: int, h: int, x: int, y: int, c: char)
    requires |b| == w * h && 1 <= x <= w && 1 <= y <= h
    requires Cell(x - 1, y - 1) in Grid(w, h)
    ensures |Filled(b, w, h, x, y, c)| == |b|
    ensures At(Filled(b, w, h, x, y, c), w, h, Cell(x - 1, y - 1)) == c
  {
    var seed := Cell(x - 1, y - 1);
    if At(b, w, h, seed) != c {
      SeedInComponent(Holding(b, w, h, At(b, w, h, seed)), Adjacency(true), seed);
      FillRecolours(b, w, h, x, y, c, seed);
    }
  }

  /** Filling the same cell with the same character again changes nothing. */
  lemma FillTwice(b: seq<char>, w: int, h: int, x: int, y: int, c: char)
    requires |b| == w * h
    ensures |Filled(b, w, h, x, y, c)| == |b|
    ensures Filled(Filled(b, w, h, x, y, c), w, h, x, y, c) == Filled(b, w, h, x, y, c)
  {
    if 1 <= x <= w && 1 <= y <= h {
      ShapeMember(Cell(x - 1, y - 1), 0, 0, 0, 0, 0, 0, w, h);
      FillColoursSeed(b, w, h, x, y, c);
    }
  }

  /**
    The fill stops at the edge of the region: a cell next to the region but
    outside it holds a character other than the seed's.
   */
  lemma FillStopsAtEdge(b: seq<char>, w: int, h: int, seed: Cell, p: Cell, q: Cell)
    requires |b| == w * h && seed in Grid(w, h) && q in Grid(w, h)
    requires p in Region(b, w, h, seed) && Adjacent4(p, q) && q !in Region(b, w, h, seed)
    ensures At(b, w, h, q) != At(b, w, h, seed)
  {
    var s := Holding(b, w, h, At(b, w, h, seed));
    if At(b, w, h, q) == At(b, w, h, seed) {
      CellOnBoard(q, w, h);
      StepInComponent(s, Adjacency(true), seed, p, q);
    }
  }

  /** A rectangle drawn from either pair of opposite corners covers the same cells. */
  lemma RectangleCornerOrder(b: seq<char>, x1: int, y1: int, x2: int, y2: int, w: int, h: int)
    ensures Drawn(b, w, Picture.OutlineCells(x1, y1, x2, y2, w, h), DEFAULT_LINE_CHAR)
         == Drawn(b, w, Picture.OutlineCells(x2, y2, x1, y1, w, h), DEFAULT_LINE_CHAR)
    ensures Drawn(b, w, Picture.OutlineCells(x1, y1, x2, y2, w, h), DEFAULT_LINE_CHAR)
         == Drawn(b, w, Picture.OutlineCells(x1, y2, x2, y1, w, h), DEFAULT_LINE_CHAR)
  {
    Picture.OutlineCornerOrder(x1, y1, x2, y2, w, h);
  }

  /** Position `j` of a row's text is the row's character `j`. */
  lemma {:induction false} RowTextAt(b: seq<char>, w: int, h: int, i: int, k: int, j: int)
    requires IsInt(w) && |b| == w * h && 0 <= i < h && 0 <= j < k <= Max(0, FrameWidth(w))
    ensures RowText(b, w, h, i, k)[j] == RowChar(b, w, h, i, j)
    decreases k
  {
    if j < k - 1 {
      RowTextAt(b, w, h, i, k - 1, j);
    }
  }

  /** Every row of the text takes the frame width plus its newline. */
  lemma {:induction false} RowsTextLength(b: seq<char>, w: int, h: int, k: int)
    requires IsInt(w) && |b| == w * h && 0 <= k <= Max(0, h)
    ensures |RowsText(b, w, h, k)| == k * (Max(0, FrameWidth(w)) + 1)
    decreases k
  {
    if k > 0 {
      RowsTextLength(b, w, h, k - 1);
      assert k * (Max(0, FrameWidth(w)) + 1) == (k - 1) * (Max(0, FrameWidth(w)) + 1) + Max(0, FrameWidth(w)) + 1;
    }
  }

  /** The text of the first rows is a prefix of the text of more rows. */
  lemma {:induction false} RowsTextPrefix(b: seq<char>, w: int, h: int, y: int, k: int)
    requires IsInt(w) && |b| == w * h && 0 <= y <= k <= Max(0, h)
    ensures RowsText(b, w, h, y) <= RowsText(b, w, h, k)
    decreases k
  {
    if y < k {
      RowsTextPrefix(b, w, h, y, k - 1);
    }
  }

  /** Character `j` of line `y` of the rows' text is the row's character `j`. */
  lemma RowsTextAt(b: seq<char>, w: int, h: int, k: int, y: int, j: int)
    requires IsInt(w) && |b| == w * h && 0 <= y < k <= Max(0, h) && 0 <= j < Max(0, FrameWidth(w))
    ensures y * (Max(0, FrameWidth(w)) + 1) + j < |RowsText(b, w, h, k)|
    ensures RowsText(b, w, h, k)[y * (Max(0, FrameWidth(w)) + 1) + j] == RowChar(b, w, h, y, j)
  {
    var n := Max(0, FrameWidth(w)) + 1;
    var prefix := RowsText(b, w, h, y + 1);
    RowsTextPrefix(b, w, h, y + 1, k);
    RowsTextLength(b, w, h, y);
    RowTextAt(b, w, h, y, n - 1, j);
    assert prefix == RowsText(b, w, h, y) + RowText(b, w, h, y, n - 1) + "\n";
    assert prefix[y * n + j] == RowText(b, w, h, y, n - 1)[j];
  }

  /**
    In the text toString returns, cell (x, y) appears as its shown character
    in line y + 1, column x + 1, between the vertical boundaries.
   */
  lemma RenderShows(b: seq<char>, w: int, h: int, x: int, y: int)
    requires IsInt(w) && w <= INT_MAX - 2 && |b| == w * h && 0 <= x < w && 0 <= y < h
    ensures Cell(x, y) in Grid(w, h)
    ensures (w + 3) * (y + 1) + x + 1 < |Render(b, w, h)|
    ensures Render(b, w, h)[(w + 3) * (y + 1) + x + 1] == Shown(At(b, w, h, Cell(x, y)))
  {
    ShapeMember(Cell(x, y), 0, 0, 0, 0, 0, 0, w, h);
    FrameWidthFits(w);
    var border := Picture.Repeat(DEFAULT_HORIZONTAL_BOUNDARY, w + 2);
    RowsTextAt(b, w, h, h, y, x + 1);
    assert (w + 3) * (y + 1) + x + 1 == |border + "\n"| + (y * (w + 3) + x + 1);
  }

  /**
    On a (2^30 - 1) x 2 board, which the constructor accepts, index 2^30 + 1
    is on the board but `i + width` leaves the `int` range and wraps negative.
   */
  lemma NeighbourIndexWraps()
    ensures var w, i := 0x3FFF_FFFF, 0x4000_0001;
      0 <= w * 2 <= INT_MAX && 0 <= i < w * 2 && Wrap32(i + w) < 0
  {
  }

  /** An empty canvas is just its two border lines. */
  lemma RenderEmpty()
    ensures Render([], 0, 0) == "--\n--"
  {
    FrameWidthFits(0);
    assert Picture.Repeat(DEFAULT_HORIZONTAL_BOUNDARY, 2) == "--";
  }

  /** With negative sizes the borders shrink: width -1 leaves one '-' per line, width -2 none at all. */
  lemma RenderNegative()
    ensures Render([], -1, 0) == "-\n-"
    ensures Render("\0\0\0\0", -2, -2) == ""
  {
    FrameWidthFits(-1);
    FrameWidthFits(-2);
    assert Picture.Repeat(DEFAULT_HORIZONTAL_BOUNDARY, 1) == "-";
  }

}
