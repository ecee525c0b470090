/**
  The invariant of the layer flood fill (Layer.fill and the row sweeps it runs).

  The fill works on two row arrays: `src`, the layer being filled, from which
  runs are removed, and `cf`, the fill accumulator, into which they are moved.
  `s0` is the layer before the fill and `[down, up]` the window of rows the
  sweep visits. The invariant says that every column of `s0` is in exactly the
  rows where it started, either still in `src` or already in `cf`; that `cf`
  lies inside the seed's connected region; and that a column that has left
  `src` has no neighbour left behind in `src` that is not also marked in `cf`.
  Once no window row of `cf` meets `src`, the last clause makes `cf` closed
  under neighbour steps, hence the whole region.
 */
module FillInvariant {
  import opened Connectivity
  import opened Rows

  /** The region a fill of the rows `s0` from `seed` moves. */
  ghost function Region(s0: seq<Row>, b4: bool, seed: Cell): set<Cell>
  {
    Component(CellsOf(s0), Adjacency(b4), seed)
  }

  /**
    The window `[down, up]`: inside the rows, and bounded on each side by the
    first or last row, or by a row pair one of which is empty.
   */
  ghost predicate Window(s0: seq<Row>, down: int, up: int)
  {
    && 0 <= down <= up < |s0|
    && (down == 0 || Bits(s0[down - 1]) == {} || Bits(s0[down]) == {})
    && (up == |s0| - 1 || Bits(s0[up + 1]) == {} || Bits(s0[up]) == {})
  }

  /** Every column of `s0` is still in `src` or already in `cf`, and only those. */
  ghost predicate Split(s0: seq<Row>, src: seq<Row>, cf: seq<Row>)
  {
    && |src| == |s0| && |cf| == |s0|
    && forall j :: 0 <= j < |s0| ==>
         && Bits(src[j]) <= Bits(s0[j])
         && Bits(cf[j]) <= Bits(s0[j])
         && Bits(s0[j]) <= Bits(src[j]) + Bits(cf[j])
  }

  ghost predicate InRegion(cf: seq<Row>, region: set<Cell>)
  {
    forall j, x :: 0 <= j < |cf| && x in Bits(cf[j]) ==> Cell(x, j) in region
  }

  /** The accumulator rows of the window are allocated; outside it they are empty. */
  ghost predicate Allocated(cf: seq<Row>, down: int, up: int)
  {
    forall j :: 0 <= j < |cf| ==> if down <= j <= up then cf[j].Present? else Bits(cf[j]) == {}
  }

  /** Column `x` of row `j` has been moved: it is in `cf` and no longer in `src`. */
  ghost predicate Done(src: seq<Row>, cf: seq<Row>, j: int, x: int)
  {
    0 <= j < |src| && j < |cf| && x in Bits(cf[j]) && x !in Bits(src[j])
  }

  /** Column `x` of row `j`, if still in `src`, is already marked in `cf`. */
  ghost predicate Covered(src: seq<Row>, cf: seq<Row>, j: int, x: int)
  {
    0 <= j < |src| && j < |cf| && x in Bits(src[j]) ==> x in Bits(cf[j])
  }

  /**
    Every column of row `line` next to the run `p..n` (for an 8-way fill also
    diagonally next to its ends) that is still in `src` is marked in `cf`.
   */
  ghost predicate SideCovered(src: seq<Row>, cf: seq<Row>, line: int, p: int, n: int, b4: bool)
  {
    && (forall x :: x in Interval(p, n) ==> Covered(src, cf, line, x))
    && (!b4 ==> Covered(src, cf, line, p - 1) && Covered(src, cf, line, n + 1))
  }

  ghost predicate Horizontal(src: seq<Row>, cf: seq<Row>)
  {
    forall j, x :: Done(src, cf, j, x) ==> x - 1 !in Bits(src[j]) && x + 1 !in Bits(src[j])
  }

  ghost predicate Vertical(src: seq<Row>, cf: seq<Row>)
  {
    forall j, x :: Done(src, cf, j, x) ==> Covered(src, cf, j - 1, x) && Covered(src, cf, j + 1, x)
  }

  ghost predicate Diagonal(src: seq<Row>, cf: seq<Row>)
  {
    forall j, x :: Done(src, cf, j, x) ==>
      && Covered(src, cf, j - 1, x - 1) && Covered(src, cf, j - 1, x + 1)
      && Covered(src, cf, j + 1, x - 1) && Covered(src, cf, j + 1, x + 1)
  }

  ghost predicate FillInv(s0: seq<Row>, src: seq<Row>, cf: seq<Row>, width: int, b4: bool, seed: Cell, down: int, up: int)
  {
    && RowsFit(s0, width)
    && Window(s0, down, up)
    && Split(s0, src, cf)
    && InRegion(cf, Region(s0, b4, seed))
    && Allocated(cf, down, up)
    && 0 <= seed.y < |cf| && seed.x in Bits(cf[seed.y])
    && Horizontal(src, cf)
    && Vertical(src, cf)
    && (!b4 ==> Diagonal(src, cf))
  }

  /** Row `j` of the accumulator meets row `j` of the layer. */
  ghost predicate Overlap(src: seq<Row>, cf: seq<Row>, j: int)
  {
    0 <= j < |src| && j < |cf| && Intersects(Bits(cf[j]), Bits(src[j]))
  }

  /** `cf` grew and `src` shrank, row by row. */
  ghost predicate Progressed(src: seq<Row>, cf: seq<Row>, src': seq<Row>, cf': seq<Row>)
  {
    && |src'| == |src| && |cf'| == |cf|
    && (forall j :: 0 <= j < |src| ==> Bits(src'[j]) <= Bits(src[j]))
    && (forall j :: 0 <= j < |cf| ==> Bits(cf[j]) <= Bits(cf'[j]))
  }


  /**
    Row `j` of the window is one the convergence test of the sweep reports:
    its accumulator row is not empty and meets the layer in row `j` or, within
    the window, in a row next to it (for 8-way fills also shifted one column).
   */
  ghost predicate Triggers(src: seq<Row>, cf: seq<Row>, j: int, down: int, up: int, b4: bool)
    requires 0 <= down && up < |src| && |cf| == |src| && down <= j <= up
  {
    && Bits(cf[j]) != {}
    && (|| Intersects(Bits(cf[j]), Bits(src[j]))
        || (j < up && (Intersects(Bits(cf[j]), Bits(src[j + 1])) || Intersects(Bits(cf[j + 1]), Bits(src[j]))))
        || (!b4 && (|| (j < up && Intersects(ShiftedLeft(Bits(cf[j])), Bits(src[j + 1])))
                    || (j > down && Intersects(ShiftedLeft(Bits(cf[j])), Bits(src[j - 1]))))))
  }

  /** The columns one diagonal handleNeighbours call marks in row `r` around column `f`: the runs meeting getPrevIndex..getNextIndex of `f`. */
  ghost function Probe(r: set<int>, f: int, width: int): set<int>
    requires 0 <= f < width && Fits(r, width)
  {
    var prev := GetPrevIndex(r, f, width);
    if prev == -1 then {} else RunsMeeting(r, prev, GetNextIndex(r, f, width), width)
  }

  /** The columns a sweep over row `y` marks in a neighbouring row `r` for a moved run `p..n` found from column `k`. */
  ghost function AdjacentMarks(r: set<int>, p: int, n: int, k: int, width: int, b4: bool): (m: set<int>)
    requires 0 <= p <= k <= n < width && Fits(r, width)
    ensures m <= r
  {
    RunsMeeting(r, p, n, width)
      + (if !b4 && k > 0 then Probe(r, p, width) else {})
      + (if !b4 && k < width - 1 then Probe(r, n, width) else {})
  }

  /** The marks in the order the sweep makes them: around the start, along the run, around the end. */
  lemma AdjacentMarksInOrder(r: set<int>, p: int, n: int, k: int, width: int, b4: bool)
    requires 0 <= p <= k <= n < width && Fits(r, width)
    ensures AdjacentMarks(r, p, n, k, width, b4) ==
      (if !b4 && k > 0 then Probe(r, p, width) else {}) + RunsMeeting(r, p, n, width)
        + (if !b4 && k < width - 1 then Probe(r, n, width) else {})
  {
    UnionSwap(RunsMeeting(r, p, n, width), if !b4 && k > 0 then Probe(r, p, width) else {},
              if !b4 && k < width - 1 then Probe(r, n, width) else {});
  }

  // ---------------------------------------------------------------------------
  // Start

  lemma FillInvInit(s0: seq<Row>, cf: seq<Row>, width: int, b4: bool, seed: Cell, down: int, up: int)
    requires RowsFit(s0, width) && Window(s0, down, up)
    requires down <= seed.y <= up && seed.x in Bits(s0[seed.y])
    requires |cf| == |s0|
    requires forall j :: 0 <= j < |cf| ==>
      cf[j] == if j == seed.y then Present({seed.x}) else if down <= j <= up then Present({}) else Absent
    ensures FillInv(s0, s0, cf, width, b4, seed, down, up)
  {
    CellsOfMember(s0, seed);
    SeedInComponent(CellsOf(s0), Adjacency(b4), seed);
    assert forall j, x :: 0 <= j < |cf| && x in Bits(cf[j]) ==> Cell(x, j) == seed;
  }

  // ---------------------------------------------------------------------------
  // Soundness: what is marked lies in the region

  /** Walking along a run of the layer stays in the region. */
  lemma {:induction false} RunInRegion(s0: seq<Row>, b4: bool, seed: Cell, j: int, r: set<int>, z: int, x: int)
    requires 0 <= j < |s0| && r <= Bits(s0[j]) && SameRun(r, z, x)
    requires Cell(z, j) in Region(s0, b4, seed)
    ensures Cell(x, j) in Region(s0, b4, seed)
    decreases if z <= x then x - z else z - x
  {
    if x != z {
      var x' := if z < x then x - 1 else x + 1;
      assert SameRun(r, z, x') by {
        forall w | Min(z, x') <= w <= Max(z, x') ensures w in r {
          assert Min(z, x) <= w <= Max(z, x);
        }
      }
      RunInRegion(s0, b4, seed, j, r, z, x');
      assert x in r by { assert Min(z, x) <= x <= Max(z, x); }
      CellsOfMember(s0, Cell(x, j));
      EdgeStepIsStep(b4, Cell(x', j), Cell(x, j));
      StepInComponent(CellsOf(s0), Adjacency(b4), seed, Cell(x', j), Cell(x, j));
    }
  }

  /** A neighbour of a region cell, in the layer, is in the region. */
  lemma NeighbourInRegion(s0: seq<Row>, b4: bool, seed: Cell, p: Cell, q: Cell)
    requires p in Region(s0, b4, seed) && 0 <= q.y < |s0| && q.x in Bits(s0[q.y])
    requires Adjacency(b4)(p, q)
    ensures q in Region(s0, b4, seed)
  {
    CellsOfMember(s0, q);
    StepInComponent(CellsOf(s0), Adjacency(b4), seed, p, q);
  }

  /** A column of `line` whose run meets the run `p..n` of the row next to it lies in the region. */
  lemma RunsMeetingInRegion(s0: seq<Row>, b4: bool, seed: Cell, width: int, y: int, line: int, r: set<int>,
                            p: int, n: int, x: int)
    requires 0 <= line < |s0| && (line == y - 1 || line == y + 1)
    requires r <= Bits(s0[line]) && Fits(r, width)
    requires forall z :: p <= z <= n ==> Cell(z, y) in Region(s0, b4, seed)
    requires x in RunsMeeting(r, p, n, width)
    ensures Cell(x, line) in Region(s0, b4, seed)
  {
    var z := RunsMeetingWitness(r, p, n, width, x);
    assert Cell(z, y) in Region(s0, b4, seed);
    EdgeStepIsStep(b4, Cell(z, y), Cell(z, line));
    NeighbourInRegion(s0, b4, seed, Cell(z, y), Cell(z, line));
    RunInRegion(s0, b4, seed, line, r, z, x);
  }

  /**
    A column the 8-way probe around column `f` of the next row marks lies in
    the region when cell `(f, y)` does.
   */
  lemma ProbeInRegion(s0: seq<Row>, seed: Cell, width: int, y: int, line: int, r: set<int>, f: int, x: int)
    requires 0 <= line < |s0| && (line == y - 1 || line == y + 1)
    requires r <= Bits(s0[line]) && 0 <= f < width && Fits(r, width)
    requires Cell(f, y) in Region(s0, false, seed)
    requires x in Probe(r, f, width)
    ensures Cell(x, line) in Region(s0, false, seed)
  {
    var pp, nn := GetPrevIndex(r, f, width), GetNextIndex(r, f, width);
    assert pp != -1 && x in RunsMeeting(r, pp, nn, width);
    var z := RunsMeetingWitness(r, pp, nn, width, x);
    ProbedSpanTouches(r, f, width, z);
    var g := if f - 1 in r && SameRun(r, z, f - 1) then f - 1
             else if f in r && SameRun(r, z, f) then f else f + 1;
    assert g in r && SameRun(r, z, g) && f - 1 <= g <= f + 1;
    assert g in Bits(s0[line]);
    AdjacencyHolds(false, Cell(f, y), Cell(g, line));
    assert Adjacent8(Cell(f, y), Cell(g, line));
    NeighbourInRegion(s0, false, seed, Cell(f, y), Cell(g, line));
    SameRunTrans(r, x, z, g);
    SameRunSymmetric(r, x, g);
    RunInRegion(s0, false, seed, line, r, g, x);
  }

  /**
    The columns a sweep marks in row `line` next to row `y`, for a run `p..n`
    of row `y` lying in the region, lie in the region.
   */
  lemma AdjacentMarksInRegion(s0: seq<Row>, b4: bool, seed: Cell, width: int, y: int, line: int, r: set<int>,
                              p: int, n: int, k: int)
    requires 0 <= line < |s0| && (line == y - 1 || line == y + 1)
    requires r <= Bits(s0[line]) && Fits(r, width)
    requires 0 <= p <= k <= n < width
    requires forall x :: p <= x <= n ==> Cell(x, y) in Region(s0, b4, seed)
    ensures forall x :: x in AdjacentMarks(r, p, n, k, width, b4) ==> Cell(x, line) in Region(s0, b4, seed)
  {
    forall x | x in AdjacentMarks(r, p, n, k, width, b4) ensures Cell(x, line) in Region(s0, b4, seed) {
      if x in RunsMeeting(r, p, n, width) {
        RunsMeetingInRegion(s0, b4, seed, width, y, line, r, p, n, x);
      } else if !b4 && k > 0 && x in Probe(r, p, width) {
        ProbeInRegion(s0, seed, width, y, line, r, p, x);
      } else {
        ProbeInRegion(s0, seed, width, y, line, r, n, x);
      }
    }
  }

  /** The 8-way probe around column `f` marks the set columns next to `f`. */
  lemma ProbeCovers(r: set<int>, f: int, width: int, x: int)
    requires 0 <= f < width && Fits(r, width)
    requires f - 1 <= x <= f + 1 && x in r
    ensures x in Probe(r, f, width)
  {
    var pp, nn := GetPrevIndex(r, f, width), GetNextIndex(r, f, width);
    RunsMeetingInside(r, pp, nn, width, x);
  }

  /** The columns marked next to a run include every column of the run still in the layer... */
  lemma AdjacentMarksCoverRun(r: set<int>, p: int, n: int, k: int, width: int, b4: bool)
    requires 0 <= p <= k <= n < width && Fits(r, width)
    ensures forall x :: p <= x <= n && x in r ==> x in AdjacentMarks(r, p, n, k, width, b4)
  {
    forall x | p <= x <= n && x in r ensures x in RunsMeeting(r, p, n, width) {
      RunsMeetingInside(r, p, n, width, x);
    }
  }

  /** ... and, for an 8-way fill, the columns just before and just after the run. */
  lemma AdjacentMarksCoverEnds(r: set<int>, p: int, n: int, k: int, width: int)
    requires 0 <= p <= k <= n < width && Fits(r, width)
    ensures p - 1 in r ==> p - 1 in AdjacentMarks(r, p, n, k, width, false)
    ensures n + 1 in r ==> n + 1 in AdjacentMarks(r, p, n, k, width, false)
  {
    if p - 1 in r {
      assert k > 0;
      ProbeCovers(r, p, width, p - 1);
    }
    if n + 1 in r {
      assert k < width - 1;
      ProbeCovers(r, n, width, n + 1);
    }
  }

  // ---------------------------------------------------------------------------
  // Preservation

  /** Marking columns of the layer that lie in the region keeps the invariant. */
  lemma MarkKeeps(s0: seq<Row>, src: seq<Row>, cf: seq<Row>, width: int, b4: bool, seed: Cell, down: int, up: int,
                  line: int, m: set<int>)
    requires FillInv(s0, src, cf, width, b4, seed, down, up)
    requires down <= line <= up && m <= Bits(src[line])
    requires forall x :: x in m ==> Cell(x, line) in Region(s0, b4, seed)
    ensures FillInv(s0, src, cf[line := Present(Bits(cf[line]) + m)], width, b4, seed, down, up)
    ensures Progressed(src, cf, src, cf[line := Present(Bits(cf[line]) + m)])
  {
    var cf' := cf[line := Present(Bits(cf[line]) + m)];
    forall j, x | Done(src, cf', j, x) ensures Done(src, cf, j, x) {
    }
    NeighboursKept(src, cf, cf', b4);
  }

  /**
    Growing `cf` by columns still in `src` moves nothing, so every column that
    was already moved keeps its neighbours covered.
   */
  lemma NeighboursKept(src: seq<Row>, cf: seq<Row>, cf': seq<Row>, b4: bool)
    requires Horizontal(src, cf) && Vertical(src, cf) && (!b4 ==> Diagonal(src, cf))
    requires |cf'| == |cf| && forall j :: 0 <= j < |cf| ==> Bits(cf[j]) <= Bits(cf'[j])
    requires forall j, x :: Done(src, cf', j, x) ==> Done(src, cf, j, x)
    ensures Horizontal(src, cf') && Vertical(src, cf') && (!b4 ==> Diagonal(src, cf'))
  {
    forall j, x ensures Covered(src, cf, j, x) ==> Covered(src, cf', j, x) {
    }
  }

  /** The run `p..n` through column `k`, moved from row `y` of the layer into row `y` of the accumulator. */
  ghost predicate IsMove(src: seq<Row>, cf: seq<Row>, src': seq<Row>, cf': seq<Row>, y: int, p: int, k: int, n: int)
  {
    && 0 <= y < |src| && |cf| == |src| && |src'| == |src| && |cf'| == |cf|
    && RunStartsAt(Bits(src[y]), p, k) && RunEndsAt(Bits(src[y]), k, n)
    && src' == src[y := src'[y]] && cf' == cf[y := cf'[y]]
    && Bits(src'[y]) == Bits(src[y]) - Interval(p, n)
    && Bits(cf'[y]) == Bits(cf[y]) + Interval(p, n)
  }

  lemma MoveRunSet(src: seq<Row>, cf: seq<Row>, src': seq<Row>, cf': seq<Row>, y: int, p: int, k: int, n: int)
    requires IsMove(src, cf, src', cf', y, p, k, n)
    ensures forall x :: p <= x <= n ==> x in Bits(src[y])
  {
    var r := Bits(src[y]);
    forall x | p <= x <= n ensures x in r {
      if x <= k { assert Min(p, k) <= x <= Max(p, k); } else { assert Min(k, n) <= x <= Max(k, n); }
    }
  }

  lemma MoveSplit(s0: seq<Row>, src: seq<Row>, cf: seq<Row>, src': seq<Row>, cf': seq<Row>, y: int, p: int, k: int, n: int)
    requires Split(s0, src, cf) && IsMove(src, cf, src', cf', y, p, k, n)
    ensures Split(s0, src', cf') && Progressed(src, cf, src', cf')
  {
    MoveRunSet(src, cf, src', cf', y, p, k, n);
  }

  lemma MoveHorizontal(src: seq<Row>, cf: seq<Row>, src': seq<Row>, cf': seq<Row>, y: int, p: int, k: int, n: int)
    requires Horizontal(src, cf) && IsMove(src, cf, src', cf', y, p, k, n)
    ensures Horizontal(src', cf')
  {
    forall j, x | Done(src', cf', j, x) ensures x - 1 !in Bits(src'[j]) && x + 1 !in Bits(src'[j]) {
      if j != y || !(p <= x <= n) {
        assert Done(src, cf, j, x);
      }
    }
  }

  lemma MoveVertical(src: seq<Row>, cf: seq<Row>, src': seq<Row>, cf': seq<Row>, y: int, p: int, k: int, n: int)
    requires Vertical(src, cf) && IsMove(src, cf, src', cf', y, p, k, n)
    requires forall x :: x in Interval(p, n) ==> Covered(src, cf, y - 1, x) && Covered(src, cf, y + 1, x)
    ensures Vertical(src', cf')
  {
    forall j, x | Covered(src, cf, j, x) ensures Covered(src', cf', j, x) {
    }
    forall j, x | Done(src', cf', j, x) ensures Covered(src', cf', j - 1, x) && Covered(src', cf', j + 1, x) {
      if j == y && p <= x <= n {
        assert x in Interval(p, n);
      } else {
        assert Done(src, cf, j, x);
      }
    }
  }

  lemma MoveDiagonal(src: seq<Row>, cf: seq<Row>, src': seq<Row>, cf': seq<Row>, y: int, p: int, k: int, n: int)
    requires Diagonal(src, cf) && IsMove(src, cf, src', cf', y, p, k, n)
    requires forall x :: x in Interval(p, n) ==> Covered(src, cf, y - 1, x) && Covered(src, cf, y + 1, x)
    requires Covered(src, cf, y - 1, p - 1) && Covered(src, cf, y - 1, n + 1)
    requires Covered(src, cf, y + 1, p - 1) && Covered(src, cf, y + 1, n + 1)
    ensures Diagonal(src', cf')
  {
    forall j, x | Covered(src, cf, j, x) ensures Covered(src', cf', j, x) {
    }
    forall j, x | Done(src', cf', j, x)
      ensures && Covered(src', cf', j - 1, x - 1) && Covered(src', cf', j - 1, x + 1)
              && Covered(src', cf', j + 1, x - 1) && Covered(src', cf', j + 1, x + 1)
    {
      if j == y && p <= x <= n {
        if p < x { assert x - 1 in Interval(p, n); }
        if x < n { assert x + 1 in Interval(p, n); }
      } else {
        assert Done(src, cf, j, x);
      }
    }
  }

  /** The neighbour clauses of the invariant survive moving the run `p..n` of row `y`. */
  lemma MoveKeepsNeighbours(s0: seq<Row>, src: seq<Row>, cf: seq<Row>, src': seq<Row>, cf': seq<Row>,
                            b4: bool, y: int, p: int, k: int, n: int)
    requires Split(s0, src, cf) && Horizontal(src, cf) && Vertical(src, cf) && (!b4 ==> Diagonal(src, cf))
    requires IsMove(src, cf, src', cf', y, p, k, n)
    requires SideCovered(src, cf, y - 1, p, n, b4) && SideCovered(src, cf, y + 1, p, n, b4)
    ensures Split(s0, src', cf') && Horizontal(src', cf') && Vertical(src', cf') && (!b4 ==> Diagonal(src', cf'))
    ensures Progressed(src, cf, src', cf')
  {
    MoveSplit(s0, src, cf, src', cf', y, p, k, n);
    MoveHorizontal(src, cf, src', cf', y, p, k, n);
    MoveVertical(src, cf, src', cf', y, p, k, n);
    if !b4 {
      MoveDiagonal(src, cf, src', cf', y, p, k, n);
    }
  }

  /**
    Moving the run `p..n` of row `y`, found from a column `k` of the
    accumulator, from the layer into the accumulator keeps the invariant once
    its neighbourhood in rows `y - 1` and `y + 1` is marked.
   */
  lemma MoveKeeps(s0: seq<Row>, src: seq<Row>, cf: seq<Row>, src': seq<Row>, cf': seq<Row>,
                  width: int, b4: bool, seed: Cell, down: int, up: int, y: int, p: int, k: int, n: int)
    requires FillInv(s0, src, cf, width, b4, seed, down, up)
    requires down <= y <= up && IsMove(src, cf, src', cf', y, p, k, n) && cf'[y].Present?
    requires forall x :: p <= x <= n ==> Cell(x, y) in Region(s0, b4, seed)
    requires SideCovered(src, cf, y - 1, p, n, b4) && SideCovered(src, cf, y + 1, p, n, b4)
    ensures FillInv(s0, src', cf', width, b4, seed, down, up)
    ensures Progressed(src, cf, src', cf')
  {
    MoveKeepsNeighbours(s0, src, cf, src', cf', b4, y, p, k, n);
    MoveInRegion(cf, cf', Region(s0, b4, seed), y, p, n);
    MoveAllocated(cf, cf', down, up, y);
    assert seed.x in Bits(cf'[seed.y]) by {
      if seed.y == y { assert Bits(cf[y]) <= Bits(cf'[y]); }
    }
  }

  /**
    Taking the run `p..n` through a marked column `k` out of row `y` of the
    layer and into row `y` of the accumulator, once both sides of the run are
    covered, keeps the invariant and strictly shrinks the layer.
   */
  lemma TakeKeeps(s0: seq<Row>, src: seq<Row>, cf: seq<Row>, src': seq<Row>, cf': seq<Row>,
                  width: int, b4: bool, seed: Cell, down: int, up: int, y: int, p: int, k: int, n: int)
    requires FillInv(s0, src, cf, width, b4, seed, down, up)
    requires down <= y <= up && k in Bits(cf[y]) && cf[y].Present?
    requires RunStartsAt(Bits(src[y]), p, k) && RunEndsAt(Bits(src[y]), k, n)
    requires SideCovered(src, cf, y - 1, p, n, b4) && SideCovered(src, cf, y + 1, p, n, b4)
    requires |src'| == |src| && src' == src[y := src'[y]] && Bits(src'[y]) == Bits(src[y]) - Interval(p, n)
    requires cf' == cf[y := Present(cf[y].bits + Interval(p, n))]
    ensures FillInv(s0, src', cf', width, b4, seed, down, up)
    ensures Progressed(src, cf, src', cf')
    ensures Size(src') < Size(src)
  {
    RunOfMarkInRegion(s0, src, cf, width, b4, seed, down, up, y, p, k, n);
    assert IsMove(src, cf, src', cf', y, p, k, n);
    MoveKeeps(s0, src, cf, src', cf', width, b4, seed, down, up, y, p, k, n);
    MoveShrinks(src, cf, src', cf', y, p, k, n);
  }

  lemma MoveAllocated(cf: seq<Row>, cf': seq<Row>, down: int, up: int, y: int)
    requires Allocated(cf, down, up) && 0 <= y < |cf| && |cf'| == |cf| && cf' == cf[y := cf'[y]]
    requires down <= y <= up && cf'[y].Present?
    ensures Allocated(cf', down, up)
  {
  }

  lemma MoveInRegion(cf: seq<Row>, cf': seq<Row>, region: set<Cell>, y: int, p: int, n: int)
    requires InRegion(cf, region) && 0 <= y < |cf| && |cf'| == |cf| && cf' == cf[y := cf'[y]]
    requires Bits(cf'[y]) == Bits(cf[y]) + Interval(p, n)
    requires forall x :: p <= x <= n ==> Cell(x, y) in region
    ensures InRegion(cf', region)
  {
  }

  lemma FillInvFits(s0: seq<Row>, src: seq<Row>, cf: seq<Row>, width: int, b4: bool, seed: Cell, down: int, up: int)
    requires FillInv(s0, src, cf, width, b4, seed, down, up)
    ensures RowsFit(src, width) && RowsFit(cf, width)
  {
    forall j | 0 <= j < |src| ensures Fits(Bits(src[j]), width) && Fits(Bits(cf[j]), width) {
      assert Fits(Bits(s0[j]), width);
    }
  }

  lemma ProgressedTrans(src: seq<Row>, cf: seq<Row>, src': seq<Row>, cf': seq<Row>, src'': seq<Row>, cf'': seq<Row>)
    requires Progressed(src, cf, src', cf') && Progressed(src', cf', src'', cf'')
    ensures Progressed(src, cf, src'', cf'')
  {
  }

  /** The run `p..n` through a marked column `k` of row `y` lies in the region. */
  lemma RunOfMarkInRegion(s0: seq<Row>, src: seq<Row>, cf: seq<Row>, width: int, b4: bool, seed: Cell, down: int, up: int,
                          y: int, p: int, k: int, n: int)
    requires FillInv(s0, src, cf, width, b4, seed, down, up)
    requires 0 <= y < |src| && k in Bits(cf[y])
    requires RunStartsAt(Bits(src[y]), p, k) && RunEndsAt(Bits(src[y]), k, n)
    ensures forall x :: p <= x <= n ==> Cell(x, y) in Region(s0, b4, seed)
  {
    var run := Interval(p, n);
    assert run <= Bits(s0[y]) by {
      forall z | z in run ensures z in Bits(src[y]) {
        if z <= k { assert Min(p, k) <= z <= Max(p, k); } else { assert Min(k, n) <= z <= Max(k, n); }
      }
    }
    forall x | p <= x <= n ensures Cell(x, y) in Region(s0, b4, seed) {
      RunInRegion(s0, b4, seed, y, run, k, x);
    }
  }

  /**
    A row next to row `y` of the window that still holds columns of the layer,
    while row `y` holds one, lies inside the window: a window edge is next to
    an empty row or to the edge of the canvas.
   */
  lemma AdjacentLineInWindow(s0: seq<Row>, src: seq<Row>, cf: seq<Row>, down: int, up: int, y: int, line: int, k: int)
    requires Window(s0, down, up) && Split(s0, src, cf)
    requires down <= y <= up && (line == y - 1 || line == y + 1) && 0 <= line < |src|
    requires k in Bits(src[y]) && Bits(src[line]) != {}
    ensures down <= line <= up
  {
    assert k in Bits(s0[y]);
    assert Bits(src[line]) <= Bits(s0[line]);
  }

  /**
    Marking in row `line` next to row `y` the columns `AdjacentMarks` finds for
    the run `p..n` through a marked column `k` keeps the invariant and covers
    that side of the run.
   */
  lemma HandleKeeps(s0: seq<Row>, src: seq<Row>, cf: seq<Row>, cf': seq<Row>, width: int, b4: bool, seed: Cell,
                    down: int, up: int, y: int, line: int, p: int, k: int, n: int)
    requires FillInv(s0, src, cf, width, b4, seed, down, up)
    requires down <= y <= up && down <= line <= up && (line == y - 1 || line == y + 1)
    requires k in Bits(cf[y]) && 0 <= p && n < width
    requires RunStartsAt(Bits(src[y]), p, k) && RunEndsAt(Bits(src[y]), k, n)
    requires Fits(Bits(src[line]), width)
    requires cf' == cf[line := Present(Bits(cf[line]) + AdjacentMarks(Bits(src[line]), p, n, k, width, b4))]
    ensures FillInv(s0, src, cf', width, b4, seed, down, up)
    ensures Progressed(src, cf, src, cf')
    ensures SideCovered(src, cf', line, p, n, b4)
  {
    var r := Bits(src[line]);
    assert r <= Bits(s0[line]);
    var m := AdjacentMarks(r, p, n, k, width, b4);
    RunOfMarkInRegion(s0, src, cf, width, b4, seed, down, up, y, p, k, n);
    AdjacentMarksInRegion(s0, b4, seed, width, y, line, r, p, n, k);
    MarkKeeps(s0, src, cf, width, b4, seed, down, up, line, m);
    AdjacentMarksCoverRun(r, p, n, k, width, b4);
    if !b4 {
      AdjacentMarksCoverEnds(r, p, n, k, width);
    }
  }

  lemma SideCoveredGrows(src: seq<Row>, cf: seq<Row>, cf': seq<Row>, line: int, p: int, n: int, b4: bool)
    requires SideCovered(src, cf, line, p, n, b4) && Progressed(src, cf, src, cf')
    ensures SideCovered(src, cf', line, p, n, b4)
  {
  }

  /** A side with no row, or with an empty row, needs no marks. */
  lemma SideCoveredEmpty(src: seq<Row>, cf: seq<Row>, line: int, p: int, n: int, b4: bool)
    requires line < 0 || line >= |src| || Bits(src[line]) == {}
    ensures SideCovered(src, cf, line, p, n, b4)
  {
  }

  /** Moving a run out of row `y` strictly shrinks the cells of the layer. */
  lemma MoveShrinks(src: seq<Row>, cf: seq<Row>, src': seq<Row>, cf': seq<Row>, y: int, p: int, k: int, n: int)
    requires IsMove(src, cf, src', cf', y, p, k, n)
    ensures Size(src') < Size(src)
  {
    assert Min(p, k) <= k <= Max(p, k);
    assert forall j :: 0 <= j < |src| && j != y ==> src'[j] == src[j];
    SizeShrinks(src, src');
    assert k in Bits(src[y]) && k !in Bits(src'[y]);
  }

  // ---------------------------------------------------------------------------
  // Convergence

  /** A row the convergence test reports means some window row of the accumulator meets the layer. */
  lemma TriggerMeansOverlap(src: seq<Row>, cf: seq<Row>, b4: bool, down: int, up: int, j: int)
    returns (j': int)
    requires 0 <= down <= up < |src| && |cf| == |src|
    requires Vertical(src, cf) && (!b4 ==> Diagonal(src, cf))
    requires down <= j <= up && Triggers(src, cf, j, down, up, b4)
    ensures down <= j' <= up && Overlap(src, cf, j')
  {
    if Intersects(Bits(cf[j]), Bits(src[j])) {
      j' := j;
    } else if j < up && Intersects(Bits(cf[j]), Bits(src[j + 1])) {
      var x :| x in Bits(cf[j]) && x in Bits(src[j + 1]);
      assert Done(src, cf, j, x);
      j' := j + 1;
    } else if j < up && Intersects(Bits(cf[j + 1]), Bits(src[j])) {
      var x :| x in Bits(cf[j + 1]) && x in Bits(src[j]);
      if x in Bits(src[j + 1]) {
        j' := j + 1;
      } else {
        assert Done(src, cf, j + 1, x);
        j' := j;
      }
    } else if j < up && !b4 && Intersects(ShiftedLeft(Bits(cf[j])), Bits(src[j + 1])) {
      var x :| x in ShiftedLeft(Bits(cf[j])) && x in Bits(src[j + 1]);
      assert Done(src, cf, j, x + 1);
      j' := j + 1;
    } else {
      var x :| x in ShiftedLeft(Bits(cf[j])) && x in Bits(src[j - 1]);
      assert Done(src, cf, j, x + 1);
      j' := j - 1;
    }
  }

  /** The layer of a later state holds at most as many cells, and as many only when no row changed. */
  lemma ProgressedSize(src: seq<Row>, cf: seq<Row>, src': seq<Row>, cf': seq<Row>)
    requires Progressed(src, cf, src', cf')
    ensures Size(src') <= Size(src)
    ensures Size(src') == Size(src) ==> forall j :: 0 <= j < |src| ==> Bits(src'[j]) == Bits(src[j])
  {
    SizeShrinks(src, src');
  }

  /** While the layer keeps all its cells, an overlap of a window row stays. */
  lemma OverlapKept(src: seq<Row>, cf: seq<Row>, src': seq<Row>, cf': seq<Row>, j: int)
    requires Progressed(src, cf, src', cf') && Size(src') == Size(src) && Overlap(src, cf, j)
    ensures Overlap(src', cf', j)
  {
    ProgressedSize(src, cf, src', cf');
    var x :| x in Bits(cf[j]) && x in Bits(src[j]);
    assert x in Bits(cf'[j]) && x in Bits(src'[j]);
  }

  /**
    Two successive steps of a sweep, the second of which shrinks the layer
    whenever row `i` overlaps: when the layer did not shrink overall, neither
    step shrank it and row `i` did not overlap at the start.
   */
  lemma SweepStep(src0: seq<Row>, cf0: seq<Row>, src1: seq<Row>, cf1: seq<Row>, src2: seq<Row>, cf2: seq<Row>, i: int)
    requires Progressed(src0, cf0, src1, cf1) && Progressed(src1, cf1, src2, cf2)
    requires Overlap(src1, cf1, i) ==> Size(src2) < Size(src1)
    ensures Progressed(src0, cf0, src2, cf2)
    ensures Size(src2) <= Size(src0)
    ensures Size(src2) == Size(src0) ==> Size(src1) == Size(src0) && !Overlap(src0, cf0, i)
  {
    ProgressedSize(src0, cf0, src1, cf1);
    ProgressedSize(src1, cf1, src2, cf2);
    if Size(src2) == Size(src0) && Overlap(src0, cf0, i) {
      OverlapKept(src0, cf0, src1, cf1, i);
    }
  }

  /** No row `lo..hi` of the accumulator meets the same row of the layer. */
  ghost predicate NoOverlapIn(src: seq<Row>, cf: seq<Row>, lo: int, hi: int)
  {
    forall j :: lo <= j <= hi ==> !Overlap(src, cf, j)
  }

  lemma NoOverlapExtend(src: seq<Row>, cf: seq<Row>, lo: int, hi: int, i: int)
    requires NoOverlapIn(src, cf, lo, hi) && !Overlap(src, cf, i) && (i == lo - 1 || i == hi + 1)
    ensures NoOverlapIn(src, cf, if i < lo then i else lo, if i > hi then i else hi)
  {
  }

  /** No column below `k` is in both `a` and `b`. */
  ghost predicate DisjointBelow(a: set<int>, b: set<int>, k: int)
  {
    forall z :: 0 <= z < k && z in a ==> z !in b
  }

  lemma DisjointBelowExtend(a: set<int>, b: set<int>, k: int)
    requires 0 <= k && DisjointBelow(a, b, k) && (k !in a || k !in b)
    ensures DisjointBelow(a, b, k + 1)
  {
  }

  /**
    A row scan that met no column of row `y` of the layer in the grown
    accumulator row found no overlap in the row it started from.
   */
  lemma ScanFoundNoOverlap(src: seq<Row>, cf: seq<Row>, cf': seq<Row>, y: int, width: int, k: int)
    requires 0 <= y < |src| && y < |cf| && y < |cf'| && Bits(cf[y]) <= Bits(cf'[y])
    requires Fits(Bits(src[y]), width) && width <= k && DisjointBelow(Bits(cf'[y]), Bits(src[y]), k)
    ensures !Overlap(src, cf, y)
  {
  }

  /** An overlapping window row is one the convergence test reports. */
  lemma OverlapTriggers(src: seq<Row>, cf: seq<Row>, j: int, down: int, up: int, b4: bool)
    requires 0 <= down && up < |src| && |cf| == |src| && down <= j <= up
    requires Overlap(src, cf, j)
    ensures Triggers(src, cf, j, down, up, b4)
  {
    var x :| x in Bits(cf[j]) && x in Bits(src[j]);
  }

  /** Marking more columns keeps an overlap with an unchanged layer row. */
  lemma OverlapGrows(src: seq<Row>, cf: seq<Row>, cf': seq<Row>, j: int)
    requires Progressed(src, cf, src, cf') && Overlap(src, cf, j)
    ensures Overlap(src, cf', j)
  {
    var x :| x in Bits(cf[j]) && x in Bits(src[j]);
    assert x in Bits(cf'[j]);
  }

  /** Without overlap in the window, every accumulator column has left the layer. */
  lemma AllDone(src: seq<Row>, cf: seq<Row>, down: int, up: int)
    requires |src| == |cf| && Allocated(cf, down, up)
    requires forall j :: down <= j <= up ==> !Overlap(src, cf, j)
    ensures forall j, x :: 0 <= j < |cf| && x in Bits(cf[j]) ==> Done(src, cf, j, x)
  {
    forall j, x | 0 <= j < |cf| && x in Bits(cf[j]) ensures Done(src, cf, j, x) {
      if down <= j <= up {
        assert !Overlap(src, cf, j);
      }
    }
  }

  /** When every accumulator column has left the layer, no neighbour step leaves the accumulator. */
  lemma DoneClosed(s0: seq<Row>, src: seq<Row>, cf: seq<Row>, b4: bool)
    requires Split(s0, src, cf)
    requires Horizontal(src, cf) && Vertical(src, cf) && (!b4 ==> Diagonal(src, cf))
    requires forall j, x :: 0 <= j < |cf| && x in Bits(cf[j]) ==> Done(src, cf, j, x)
    ensures Closed(CellsOf(cf), CellsOf(s0), Adjacency(b4))
  {
    forall c, q | c in CellsOf(cf) && q in CellsOf(s0) && Adjacency(b4)(c, q) ensures q in CellsOf(cf) {
      CellsOfMember(cf, c);
      CellsOfMember(s0, q);
      CellsOfMember(cf, q);
      assert Done(src, cf, c.y, c.x);
      AdjacencyHolds(b4, c, q);
      if q.y == c.y {
        assert c.x - 1 !in Bits(src[c.y]) && c.x + 1 !in Bits(src[c.y]);
      } else if q.x == c.x {
        assert Covered(src, cf, c.y - 1, c.x) && Covered(src, cf, c.y + 1, c.x);
      } else {
        assert !b4;
        assert Covered(src, cf, c.y - 1, c.x - 1) && Covered(src, cf, c.y - 1, c.x + 1);
        assert Covered(src, cf, c.y + 1, c.x - 1) && Covered(src, cf, c.y + 1, c.x + 1);
      }
    }
  }

  /**
    When no window row of the accumulator meets the layer, the accumulator
    holds exactly the region and the layer exactly the rest of `s0`.
   */
  lemma FillComplete(s0: seq<Row>, src: seq<Row>, cf: seq<Row>, width: int, b4: bool, seed: Cell, down: int, up: int)
    requires FillInv(s0, src, cf, width, b4, seed, down, up)
    requires forall j :: down <= j <= up ==> !Overlap(src, cf, j)
    ensures CellsOf(cf) == Region(s0, b4, seed)
    ensures CellsOf(src) == CellsOf(s0) - Region(s0, b4, seed)
  {
    AllDone(src, cf, down, up);
    DoneClosed(s0, src, cf, b4);
    var d := CellsOf(cf);
    assert d <= Region(s0, b4, seed) by {
      forall c | c in d ensures c in Region(s0, b4, seed) {
        CellsOfMember(cf, c);
      }
    }
    CellsOfMember(cf, seed);
    ClosedContainsComponent(d, CellsOf(s0), Adjacency(b4), seed);
    forall c ensures c in CellsOf(src) <==> c in CellsOf(s0) && c !in d {
      CellsOfMember(src, c);
      CellsOfMember(s0, c);
      CellsOfMember(cf, c);
      if c in d {
        assert Done(src, cf, c.y, c.x);
      }
    }
  }
}
