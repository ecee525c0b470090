/**
  One colour of the sparse canvas (Layer.java, EmptyLayer.java).

  A layer keeps one row slot per canvas row; a slot is absent (`null` in the
  source) or holds the columns of that row the colour owns. The drawing
  methods set or clear a column segment or a row segment; `Fill` moves the
  connected region of a seed from this layer into another one.
 */
module Layers {
  import opened Connectivity
  import opened Rows
  import opened FillInvariant

  /**
    Where getDownBoundary stops for a present start row: `down` is a present
    row at or above row 0, every row from just below `down` up to the start
    is non-empty, and `down` is row 0, an empty row, or sits on an absent row.
   */
  ghost predicate IsDownBoundary(rows: seq<Row>, startY: int, down: int)
    requires 0 <= startY < |rows|
  {
    && 0 <= down <= startY && rows[down].Present?
    && (forall j :: down < j <= startY ==> Bits(rows[j]) != {})
    && (down == 0 || Bits(rows[down]) == {} || rows[down - 1] == Absent)
  }

  /** The mirror image of IsDownBoundary, towards the last row. */
  ghost predicate IsUpBoundary(rows: seq<Row>, startY: int, up: int)
    requires 0 <= startY < |rows|
  {
    && startY <= up < |rows| && rows[up].Present?
    && (forall j :: startY <= j < up ==> Bits(rows[j]) != {})
    && (up == |rows| - 1 || Bits(rows[up]) == {} || rows[up + 1] == Absent)
  }

  /** IsDownBoundary pins down one row: getDownBoundary's result is fully determined. */
  lemma DownBoundaryUnique(rows: seq<Row>, startY: int, d1: int, d2: int)
    requires 0 <= startY < |rows|
    requires IsDownBoundary(rows, startY, d1) && IsDownBoundary(rows, startY, d2)
    ensures d1 == d2
  {
  }

  /** IsUpBoundary pins down one row: getUpBoundary's result is fully determined. */
  lemma UpBoundaryUnique(rows: seq<Row>, startY: int, u1: int, u2: int)
    requires 0 <= startY < |rows|
    requires IsUpBoundary(rows, startY, u1) && IsUpBoundary(rows, startY, u2)
    ensures u1 == u2
  {
  }

  class Layer {
    const width: int
    const points: array<Row>

    /** Every set column is a column of the canvas. */
    ghost predicate Valid()
      reads this, points
    {
      RowsFit(points[..], width)
    }

    /** The cells this layer colours. */
    ghost function Cells(): set<Cell>
      reads this, points
    {
      CellsOf(points[..])
    }

    /** Layer(width, height): every row absent. */
    constructor (width: nat, height: nat)
      ensures this.width == width && points.Length == height && fresh(points)
      ensures forall i :: 0 <= i < height ==> points[i] == Absent
      ensures Valid() && Cells() == {}
    {
      this.width := width;
      points := new Row[height](_ => Absent);
    }

    /** EmptyLayer(width, height): the background, every row holding the columns `0..width-1`. */
    constructor Background(width: nat, height: nat)
      ensures this.width == width && points.Length == height && fresh(points)
      ensures forall i :: 0 <= i < height ==> points[i] == Present(Interval(0, width - 1))
      ensures Valid() && Cells() == Grid(width, height)
    {
      this.width := width;
      points := new Row[height](_ => Absent);
      new;
      var i := 0;
      while i < height
        invariant 0 <= i <= height
        invariant forall j :: 0 <= j < i ==> points[j] == Present(Interval(0, width - 1))
        invariant forall j :: i <= j < height ==> points[j] == Absent
      {
        LazyInitBitSet(i);
        points[i] := Present(points[i].bits + Interval(0, width - 1));
        i := i + 1;
      }
      forall c ensures c in Cells() <==> c in Grid(width, height) {
        CellsOfMember(points[..], c);
        ShapeMember(c, 0, 0, 0, 0, 0, 0, width, height);
      }
    }

    /** Allocates row `index` when it is absent; no cell changes. */
    method LazyInitBitSet(index: int)
      requires 0 <= index < points.Length
      modifies points
      ensures points[..] == old(points[..])[index := Present(Bits(old(points[index])))]
      ensures Cells() == old(Cells())
    {
      if points[index] == Absent {
        points[index] := Present({});
      }
      CellsOfUpdate(old(points[..]), index, points[index]);
    }

    /** Sets column `x` in rows `y1..y2`, allocating absent rows. */
    method DrawVerticalLine(x: int, y1: int, y2: int)
      requires Valid() && 0 <= x < width
      requires y1 <= y2 ==> 0 <= y1 && y2 < points.Length
      modifies points
      ensures forall i :: 0 <= i < points.Length ==>
        points[i] == if y1 <= i <= y2 then Present(Bits(old(points[i])) + {x}) else old(points[i])
      ensures Valid() && Cells() == old(Cells()) + VerticalSegment(x, y1, y2)
    {
      var i := y1;
      while i <= y2
        invariant i == y1 || y1 <= i <= y2 + 1
        invariant forall j :: 0 <= j < points.Length ==>
          points[j] == if y1 <= j < i then Present(Bits(old(points[j])) + {x}) else old(points[j])
      {
        LazyInitBitSet(i);
        points[i] := Present(points[i].bits + {x});
        i := i + 1;
      }
      forall c ensures c in Cells() <==> c in old(Cells()) || c in VerticalSegment(x, y1, y2) {
        ShapeMember(c, x, 0, 0, 0, y1, y2, 0, 0);
        CellsOfMember(points[..], c);
        CellsOfMember(old(points[..]), c);
      }
    }

    /** Clears column `x` in rows `y1..y2`; a row left empty becomes absent. */
    method ClearVerticalLine(x: int, y1: int, y2: int)
      requires Valid() && 0 <= x
      requires y1 <= y2 ==> 0 <= y1 && y2 < points.Length
      modifies points
      ensures forall i :: 0 <= i < points.Length ==>
        points[i] == if y1 <= i <= y2 && old(points[i]).Present? then
          (if old(points[i]).bits - {x} == {} then Absent else Present(old(points[i]).bits - {x}))
        else old(points[i])
      ensures Valid() && Cells() == old(Cells()) - VerticalSegment(x, y1, y2)
    {
      var i := y1;
      while i <= y2
        invariant i == y1 || y1 <= i <= y2 + 1
        invariant forall j :: 0 <= j < points.Length ==>
          points[j] == if y1 <= j < i && old(points[j]).Present? then
            (if old(points[j]).bits - {x} == {} then Absent else Present(old(points[j]).bits - {x}))
          else old(points[j])
      {
        if points[i] == Absent {
          i := i + 1;
          continue;
        }
        points[i] := Present(points[i].bits - {x});
        if points[i].bits == {} {
          points[i] := Absent;
        }
        i := i + 1;
      }
      forall c ensures c in Cells() <==> c in old(Cells()) && c !in VerticalSegment(x, y1, y2) {
        CellsOfMember(points[..], c);
        CellsOfMember(old(points[..]), c);
      }
    }

    /** Sets columns `x1..x2` of row `y`, allocating the row if absent. */
    method DrawHorizontalLine(x1: int, x2: int, y: int)
      requires Valid() && 0 <= x1 <= x2 + 1 && x2 < width
      requires 0 <= y < points.Length
      modifies points
      ensures points[..] == old(points[..])[y := Present(Bits(old(points[y])) + Interval(x1, x2))]
      ensures Valid() && Cells() == old(Cells()) + HorizontalSegment(x1, x2, y)
    {
      LazyInitBitSet(y);
      points[y] := Present(points[y].bits + Interval(x1, x2));
      forall c ensures c in Cells() <==> c in old(Cells()) || c in HorizontalSegment(x1, x2, y) {
        ShapeMember(c, 0, y, x1, x2, 0, 0, 0, 0);
        CellsOfMember(points[..], c);
        CellsOfMember(old(points[..]), c);
      }
    }

    /**
      Clears columns `x1..x2` of row `y`; a row left empty becomes absent. When
      the range touches both column 0 and the last column the row is dropped
      at once.
     */
    method ClearHorizontalLine(x1: int, x2: int, y: int)
      requires Valid() && 0 <= y < points.Length
      requires points[y].Present? && !((x1 == 0 || x2 == 0) && (x1 == width - 1 || x2 == width - 1)) ==>
        0 <= x1 <= x2 + 1
      modifies points
      ensures points[..] == old(points[..])[y :=
        if old(points[y]) == Absent || ((x1 == 0 || x2 == 0) && (x1 == width - 1 || x2 == width - 1)) then Absent
        else if old(points[y]).bits - Interval(x1, x2) == {} then Absent
        else Present(old(points[y]).bits - Interval(x1, x2))]
      ensures Valid()
      ensures 0 <= x1 <= x2 ==> Cells() == old(Cells()) - HorizontalSegment(x1, x2, y)
    {
      if points[y] == Absent {
        return;
      }
      if (x1 == 0 || x2 == 0) && (x1 == width - 1 || x2 == width - 1) {
        points[y] := Absent;
      } else {
        points[y] := Present(points[y].bits - Interval(x1, x2));
        if points[y].bits == {} {
          points[y] := Absent;
        }
      }
      if 0 <= x1 <= x2 {
        assert Fits(Bits(old(points[y])), width);
        forall c ensures c in Cells() <==> c in old(Cells()) && c !in HorizontalSegment(x1, x2, y) {
          CellsOfMember(points[..], c);
          CellsOfMember(old(points[..]), c);
        }
      }
    }
  
    /**
      Layer.getDownBoundary: walks down from row `startY` while the row is
      present and not empty; returns the last such row, or the row below an
      absent one.
     */
    method GetDownBoundary(startY: int) returns (down: int)
      requires Valid() && 0 <= startY < points.Length
      ensures points[startY] == Absent ==> down == startY
      ensures points[startY].Present? ==> IsDownBoundary(points[..], startY, down)
    {
      down := startY;
      if points[down] == Absent {
        return startY;
      }
      while points[down].Present? && (0 in points[down].bits || NextSetBit(points[down].bits, 0, width) != -1) && down > 0
        invariant 0 <= down <= startY
        invariant forall j :: down < j <= startY ==> Bits(points[j]) != {}
      {
        down := down - 1;
      }
      if points[down] == Absent {
        down := down + 1;
      }
    }

    /**
      Layer.getUpBoundary: walks up from row `startY` while the row is present
      and not empty; returns the last such row, or the row above an absent one.
     */
    method GetUpBoundary(startY: int) returns (up: int)
      requires Valid() && 0 <= startY < points.Length
      ensures points[startY] == Absent ==> up == startY
      ensures points[startY].Present? ==> IsUpBoundary(points[..], startY, up)
    {
      up := startY;
      if points[up] == Absent {
        return startY;
      }
      while points[up].Present? && (0 in points[up].bits || NextSetBit(points[up].bits, 0, width) != -1) && up < points.Length - 1
        invariant startY <= up < points.Length
        invariant forall j :: startY <= j < up ==> Bits(points[j]) != {}
      {
        up := up + 1;
      }
      if points[up] == Absent {
        up := up - 1;
      }
    }
  
    /** The accumulator row `line` ends up as its old columns plus the marks, and no other row changes. */
    static lemma AdjacentLineResult(d0: seq<Row>, d: seq<Row>, line: int,
                                    base: set<int>, before: set<int>, meeting: set<int>, after: set<int>, marks: set<int>)
      requires |d0| == |d| && 0 <= line < |d|
      requires forall j :: 0 <= j < |d| && j != line ==> d[j] == d0[j]
      requires base == Bits(d0[line]) && d[line] == Present(base + before + meeting + after)
      requires marks == before + meeting + after
      ensures d == d0[line := Present(Bits(d0[line]) + marks)]
    {
      UnionRegroup(base, before, meeting, after);
      UpdatedAt(d0, d, line);
    }

    /** `destination[lineNumber].set(start, end + 1)` of handleNeighbours: adds columns to a present accumulator row. */
    static method AddColumns(destination: array<Row>, line: int, columns: set<int>)
      requires 0 <= line < destination.Length && destination[line].Present?
      modifies destination
      ensures destination[line] == Present(old(destination[line]).bits + columns)
      ensures forall j :: 0 <= j < destination.Length && j != line ==> destination[j] == old(destination[j])
    {
      destination[line] := Present(destination[line].bits + columns);
    }

    /**
      Layer.handleNeighbours: marks in `destination[lineNumber]` every run of
      row `lineNumber` that meets the columns `prevIndex..nextIndex`;
      `prevIndex == -1` means there is nothing to mark.
     */
    method HandleNeighbours(destination: array<Row>, prevIndex: int, nextIndex: int, lineNumber: int)
      requires Valid() && destination != points
      requires 0 <= lineNumber < points.Length && lineNumber < destination.Length
      requires points[lineNumber].Present? && destination[lineNumber].Present?
      requires -1 <= prevIndex
      modifies destination
      ensures forall j :: 0 <= j < destination.Length && j != lineNumber ==> destination[j] == old(destination[j])
      ensures destination[lineNumber] == Present(old(destination[lineNumber]).bits +
        if prevIndex == -1 then {} else RunsMeeting(points[lineNumber].bits, prevIndex, nextIndex, width))
    {
      if prevIndex == -1 {
        UnionEmpty(destination[lineNumber].bits);
        return;
      }
      var r := points[lineNumber].bits;
      assert Fits(r, width) by { assert points[..][lineNumber] == points[lineNumber]; }
      ghost var d0 := destination[..];
      var i := NextSetBit(r, prevIndex, width);
      RunsMeetingBelowStart(r, prevIndex, nextIndex, width);
      UnionEmpty(d0[lineNumber].bits);
      while i <= nextIndex
        invariant i == -1 ==> RunsMeeting(r, prevIndex, nextIndex, width) == {}
        invariant i != -1 ==> prevIndex <= i
        invariant forall j :: 0 <= j < destination.Length && j != lineNumber ==> destination[j] == d0[j]
        invariant destination[lineNumber] ==
          Present(d0[lineNumber].bits + if i == -1 then {} else RunsMeetingBelow(r, prevIndex, nextIndex, width, i))
        decreases nextIndex + 1 - i
      {
        if i == -1 {
          break;
        }
        if i !in r {
          RunsMeetingBelowSkip(r, prevIndex, nextIndex, width, i);
          i := i + 1;
          continue;
        }
        ghost var marked := RunsMeetingBelow(r, prevIndex, nextIndex, width, i);
        assert destination[lineNumber] == Present(d0[lineNumber].bits + marked);
        var start := GetFirstSetIndexInARow(r, i, width);
        var end := -1;
        if start >= 0 {
          end := GetLastSetIndexInARow(r, i, width);
          AddColumns(destination, lineNumber, Interval(start, end));
        }
        ghost var i0 := i;
        i := if end > i + 1 then end else i;
        i := i + 1;
        RunsMeetingBelowRun(r, prevIndex, nextIndex, width, i0, i);
        UnionAssoc(d0[lineNumber].bits, marked, Interval(start, end));
        assert destination[lineNumber] == Present(d0[lineNumber].bits + RunsMeetingBelow(r, prevIndex, nextIndex, width, i));
      }
      if i != -1 {
        RunsMeetingBelowEnd(r, prevIndex, nextIndex, width, i);
      }
    }

    /**
      The 8-way probe of Layer.goLeftOrRight around column `f`: marks in
      `destination[line]` the runs of row `line` that meet the run boundaries
      seen from `f`.
     */
    method MarkProbe(destination: array<Row>, f: int, line: int)
      requires Valid() && destination != points
      requires 0 <= line < points.Length && line < destination.Length
      requires points[line].Present? && destination[line].Present?
      requires 0 <= f < width
      modifies destination
      ensures Fits(points[line].bits, width)
      ensures forall j :: 0 <= j < destination.Length && j != line ==> destination[j] == old(destination[j])
      ensures destination[line] == Present(old(destination[line]).bits + Probe(points[line].bits, f, width))
    {
      var r := points[line].bits;
      assert Fits(r, width) by { assert points[..][line] == points[line]; }
      var p, n := GetPrevIndex(r, f, width), GetNextIndex(r, f, width);
      HandleNeighbours(destination, p, n, line);
    }

    /**
      The block of Layer.goLeftOrRight that handles the row `line` above or
      below a run `prevIndex..nextIndex` found from column `k`: allocates the
      accumulator row, marks the runs meeting the run and, for an 8-way fill,
      the runs around each end of it.
     */
    method HandleAdjacentLine(destination: array<Row>, k: int, prevIndex: int, nextIndex: int, line: int, isB4: bool)
      requires Valid() && destination != points && destination.Length == points.Length
      requires 0 <= line < points.Length && points[line].Present?
      requires 0 <= prevIndex <= k <= nextIndex < width
      modifies destination
      ensures Fits(points[line].bits, width)
      ensures destination[..] == old(destination[..])[line :=
        Present(Bits(old(destination[line])) + AdjacentMarks(points[line].bits, prevIndex, nextIndex, k, width, isB4))]
    {
      var r := points[line].bits;
      assert Fits(r, width) by { assert points[..][line] == points[line]; }
      if destination[line] == Absent {
        destination[line] := Present({});
      }
      ghost var base := Bits(old(destination[line]));
      ghost var before: set<int> := {};
      ghost var after: set<int> := {};
      if !isB4 && k > 0 {
        MarkProbe(destination, prevIndex, line);
        before := Probe(r, prevIndex, width);
      } else {
        UnionEmpty(base);
      }
      ghost var meeting := RunsMeeting(r, prevIndex, nextIndex, width);
      HandleNeighbours(destination, prevIndex, nextIndex, line);
      if !isB4 && k < width - 1 {
        MarkProbe(destination, nextIndex, line);
        after := Probe(r, nextIndex, width);
      } else {
        UnionEmpty(base + before + meeting);
      }
      AdjacentMarksInOrder(r, prevIndex, nextIndex, k, width, isB4);
      AdjacentLineResult(old(destination[..]), destination[..], line, base, before, meeting, after,
        AdjacentMarks(r, prevIndex, nextIndex, k, width, isB4));
    }

    /**
      One side of a run in Layer.goLeftOrRight: when row `line`, next to row
      `y`, exists and still holds columns, marks in `destination[line]` what
      the run `p..n` through the marked column `k` reaches there.
     */
    method MarkSide(destination: array<Row>, y: int, line: int, k: int, p: int, n: int, isB4: bool,
                    ghost s0: seq<Row>, ghost seed: Cell, ghost down: int, ghost up: int)
      requires destination != points && destination.Length == points.Length
      requires FillInv(s0, points[..], destination[..], width, isB4, seed, down, up)
      requires down <= y <= up && (line == y - 1 || line == y + 1)
      requires k in Bits(destination[y]) && 0 <= p && n < width
      requires RunStartsAt(Bits(points[y]), p, k) && RunEndsAt(Bits(points[y]), k, n)
      modifies destination
      ensures FillInv(s0, points[..], destination[..], width, isB4, seed, down, up)
      ensures Progressed(points[..], old(destination[..]), points[..], destination[..])
      ensures SideCovered(points[..], destination[..], line, p, n, isB4)
      ensures destination[y] == old(destination[y]) && points[..] == old(points[..])
    {
      if 0 <= line < destination.Length && points[line].Present? && points[line].bits != {} {
        assert Min(p, k) <= k <= Max(p, k);
        FillInvFits(s0, points[..], destination[..], width, isB4, seed, down, up);
        AdjacentLineInWindow(s0, points[..], destination[..], down, up, y, line, k);
        HandleAdjacentLine(destination, k, p, n, line, isB4);
        HandleKeeps(s0, points[..], old(destination[..]), destination[..], width, isB4, seed, down, up, y, line, p, k, n);
      } else {
        SideCoveredEmpty(points[..], destination[..], line, p, n, isB4);
      }
    }

    /**
      The end of a column step of Layer.goLeftOrRight: marks the run `p..n`
      in `destination[y]` and clears it from row `y` of the layer. The row is
      released when the run spans the whole width, or when it starts after
      column 0 and nothing else is left in the row; a run starting at column
      0 that leaves the row empty leaves it allocated.
     */
    method TakeRun(destination: array<Row>, y: int, p: int, k: int, n: int)
      requires Valid() && destination != points && destination.Length == points.Length
      requires 0 <= y < points.Length && points[y].Present? && destination[y].Present?
      requires 0 <= p && n < width && RunStartsAt(points[y].bits, p, k) && RunEndsAt(points[y].bits, k, n)
      modifies points, destination
      ensures destination[..] == old(destination[..])[y := Present(old(destination[y]).bits + Interval(p, n))]
      ensures points[..] == old(points[..])[y := points[y]]
      ensures Bits(points[y]) == old(points[y]).bits - Interval(p, n)
      ensures points[y] == Absent <==>
        (p == 0 && n + 1 == width) || (p > 0 && old(points[y]).bits - Interval(p, n) == {})
    {
      var r := points[y].bits;
      assert Fits(r, width) by { assert points[..][y] == points[y]; }
      destination[y] := Present(destination[y].bits + Interval(p, n));
      if (p == 0 && n + 1 == width)
         || (p > 0 && PreviousSetBit(r, p - 1) == -1 && NextSetBit(r, n + 1, width) == -1) {
        assert forall x :: x !in r - Interval(p, n);
        points[y] := Absent;
      } else {
        if p > 0 {
          ghost var q := if PreviousSetBit(r, p - 1) != -1 then PreviousSetBit(r, p - 1) else NextSetBit(r, n + 1, width);
          assert q in r - Interval(p, n);
        }
        points[y] := Present(r - Interval(p, n));
      }
    }

    /** Both sides of the run `p..n` of row `y`: first the row above, then the row below. */
    method MarkSides(destination: array<Row>, y: int, k: int, p: int, n: int, isB4: bool,
                     ghost s0: seq<Row>, ghost seed: Cell, ghost down: int, ghost up: int)
      requires destination != points && destination.Length == points.Length
      requires FillInv(s0, points[..], destination[..], width, isB4, seed, down, up)
      requires down <= y <= up
      requires k in Bits(destination[y]) && 0 <= p && n < width
      requires RunStartsAt(Bits(points[y]), p, k) && RunEndsAt(Bits(points[y]), k, n)
      modifies destination
      ensures FillInv(s0, points[..], destination[..], width, isB4, seed, down, up)
      ensures Progressed(points[..], old(destination[..]), points[..], destination[..])
      ensures SideCovered(points[..], destination[..], y - 1, p, n, isB4)
      ensures SideCovered(points[..], destination[..], y + 1, p, n, isB4)
      ensures destination[y] == old(destination[y])
    {
      MarkSide(destination, y, y - 1, k, p, n, isB4, s0, seed, down, up);
      ghost var cf2 := destination[..];
      MarkSide(destination, y, y + 1, k, p, n, isB4, s0, seed, down, up);
      SideCoveredGrows(points[..], cf2, destination[..], y - 1, p, n, isB4);
      ProgressedTrans(points[..], old(destination[..]), points[..], cf2, points[..], destination[..]);
    }

    /**
      A column step of Layer.goLeftOrRight once the run `p..n` of row `y`
      through the marked column `k` is known: marks its neighbourhood in the
      rows above and below, then moves it into `destination[y]`.
     */
    method MoveRun(y: int, p: int, k: int, n: int, destination: array<Row>, isB4: bool,
                   ghost s0: seq<Row>, ghost seed: Cell, ghost down: int, ghost up: int)
      requires destination != points && destination.Length == points.Length
      requires FillInv(s0, points[..], destination[..], width, isB4, seed, down, up)
      requires down <= y <= up && k in Bits(destination[y]) && points[y].Present?
      requires 0 <= p && n < width && RunStartsAt(points[y].bits, p, k) && RunEndsAt(points[y].bits, k, n)
      modifies points, destination
      ensures FillInv(s0, points[..], destination[..], width, isB4, seed, down, up)
      ensures Progressed(old(points[..]), old(destination[..]), points[..], destination[..])
      ensures Size(points[..]) < old(Size(points[..]))
    {
      ghost var src := points[..];
      MarkSides(destination, y, k, p, n, isB4, s0, seed, down, up);
      ghost var cf3 := destination[..];
      FillInvFits(s0, points[..], destination[..], width, isB4, seed, down, up);
      TakeRun(destination, y, p, k, n);
      TakeKeeps(s0, src, cf3, points[..], destination[..], width, isB4, seed, down, up, y, p, k, n);
      ProgressedTrans(src, old(destination[..]), src, cf3, points[..], destination[..]);
    }

    /**
      The body of the column loop of Layer.goLeftOrRight for column `k`:
      skips the column unless it is marked in `destination[y]` and row `y`
      is still allocated; otherwise finds the run of row `y` around `k` and,
      when there is one, moves it with `MoveRun`. `moved` tells whether a run
      was moved, `nextIndex` is then its last column.
     */
    method ColumnStep(y: int, k: int, destination: array<Row>, isB4: bool,
                      ghost s0: seq<Row>, ghost seed: Cell, ghost down: int, ghost up: int)
      returns (moved: bool, nextIndex: int)
      requires destination != points && destination.Length == points.Length
      requires FillInv(s0, points[..], destination[..], width, isB4, seed, down, up)
      requires down <= y <= up && 0 <= k < width
      modifies points, destination
      ensures FillInv(s0, points[..], destination[..], width, isB4, seed, down, up)
      ensures Progressed(old(points[..]), old(destination[..]), points[..], destination[..])
      ensures !moved ==> points[..] == old(points[..]) && destination[..] == old(destination[..])
      ensures !moved ==> k !in Bits(old(destination[y])) || k !in Bits(old(points[y]))
      ensures moved ==> k <= nextIndex < width && Size(points[..]) < old(Size(points[..]))
    {
      if k !in Bits(destination[y]) || points[y] == Absent {
        return false, -1;
      }
      FillInvFits(s0, points[..], destination[..], width, isB4, seed, down, up);
      var r := points[y].bits;
      assert Fits(r, width) by { assert points[..][y] == points[y]; }
      var prevIndex := GetPrevIndex(r, k, width);
      nextIndex := GetNextIndex(r, k, width);
      if prevIndex == -1 || nextIndex == -1 {
        assert -1 !in r;
        return false, nextIndex;
      }
      assert k in r by {
        if k !in r {
          assert Done(points[..], destination[..], y, k);
        }
      }
      MoveRun(y, prevIndex, k, nextIndex, destination, isB4, s0, seed, down, up);
      moved := true;
    }

    /**
      Layer.goLeftOrRight: for every column `k` marked in `destination[y]`,
      moves the run of row `y` through it from the layer into
      `destination[y]` and marks what it reaches in the rows above and
      below. The layer only shrinks; when `destination[y]` met row `y` of the
      layer it shrinks strictly.
     */
    method GoLeftOrRight(y: int, destination: array<Row>, isB4: bool,
                         ghost s0: seq<Row>, ghost seed: Cell, ghost down: int, ghost up: int)
      requires destination != points && destination.Length == points.Length
      requires FillInv(s0, points[..], destination[..], width, isB4, seed, down, up)
      requires down <= y <= up
      modifies points, destination
      ensures FillInv(s0, points[..], destination[..], width, isB4, seed, down, up)
      ensures Progressed(old(points[..]), old(destination[..]), points[..], destination[..])
      ensures Overlap(old(points[..]), old(destination[..]), y) ==> Size(points[..]) < old(Size(points[..]))
    {
      if points[y] == Absent || points[y].bits == {} {
        return;
      }
      FillInvFits(s0, points[..], destination[..], width, isB4, seed, down, up);
      ghost var src0 := points[..];
      ghost var cf0 := destination[..];
      var k := 0;
      ghost var same := true;
      while k < width
        invariant 0 <= k
        invariant FillInv(s0, points[..], destination[..], width, isB4, seed, down, up)
        invariant Progressed(src0, cf0, points[..], destination[..])
        invariant same ==> points[..] == src0
        invariant same ==> DisjointBelow(Bits(destination[y]), Bits(src0[y]), k)
        invariant !same ==> Size(points[..]) < Size(src0)
        decreases width - k
      {
        ghost var src1 := points[..];
        ghost var cf1 := destination[..];
        var moved, nextIndex := ColumnStep(y, k, destination, isB4, s0, seed, down, up);
        ProgressedTrans(src0, cf0, src1, cf1, points[..], destination[..]);
        if moved {
          ProgressedSize(src0, cf0, src1, cf1);
          k := nextIndex + 1;
          same := false;
        } else if same {
          assert destination[y] == cf1[y] && src0[y] == points[y];
          DisjointBelowExtend(Bits(destination[y]), Bits(src0[y]), k);
        }
        k := k + 1;
      }
      if same {
        ScanFoundNoOverlap(src0, cf0, destination[..], y, width, k);
      }
    }

    /**
      One row of a sweep: Layer.goLeftOrRight on row `i`, next to the rows
      `lo..hi` swept since the state `src0`, `cf0`.
     */
    method SweepRow(i: int, destination: array<Row>, isB4: bool,
                    ghost s0: seq<Row>, ghost seed: Cell, ghost down: int, ghost up: int,
                    ghost src0: seq<Row>, ghost cf0: seq<Row>, ghost lo: int, ghost hi: int)
      requires destination != points && destination.Length == points.Length
      requires FillInv(s0, points[..], destination[..], width, isB4, seed, down, up)
      requires down <= i <= up && (i == lo - 1 || i == hi + 1)
      requires Progressed(src0, cf0, points[..], destination[..])
      requires Size(points[..]) == Size(src0) ==> NoOverlapIn(src0, cf0, lo, hi)
      modifies points, destination
      ensures FillInv(s0, points[..], destination[..], width, isB4, seed, down, up)
      ensures Progressed(src0, cf0, points[..], destination[..])
      ensures Size(points[..]) == Size(src0) ==>
        NoOverlapIn(src0, cf0, if i < lo then i else lo, if i > hi then i else hi)
    {
      ghost var src1 := points[..];
      ghost var cf1 := destination[..];
      GoLeftOrRight(i, destination, isB4, s0, seed, down, up);
      SweepStep(src0, cf0, src1, cf1, points[..], destination[..], i);
      if Size(points[..]) == Size(src0) {
        NoOverlapExtend(src0, cf0, lo, hi, i);
      }
    }

    /**
      The first loop of a pass of Layer.fill: `goLeftOrRight` on rows `y`
      down to `down`. When an accumulator row among them met the layer, the
      layer shrinks strictly.
     */
    method SweepDown(y: int, destination: array<Row>, isB4: bool, down: int,
                     ghost s0: seq<Row>, ghost seed: Cell, ghost up: int)
      requires destination != points && destination.Length == points.Length
      requires FillInv(s0, points[..], destination[..], width, isB4, seed, down, up)
      requires down <= y <= up
      modifies points, destination
      ensures FillInv(s0, points[..], destination[..], width, isB4, seed, down, up)
      ensures Progressed(old(points[..]), old(destination[..]), points[..], destination[..])
      ensures forall j :: down <= j <= y && Overlap(old(points[..]), old(destination[..]), j) ==>
        Size(points[..]) < old(Size(points[..]))
    {
      ghost var src0 := points[..];
      ghost var cf0 := destination[..];
      var i := y;
      while i >= down
        invariant down - 1 <= i <= y
        invariant FillInv(s0, points[..], destination[..], width, isB4, seed, down, up)
        invariant Progressed(src0, cf0, points[..], destination[..])
        invariant Size(points[..]) == Size(src0) ==> NoOverlapIn(src0, cf0, i + 1, y)
      {
        SweepRow(i, destination, isB4, s0, seed, down, up, src0, cf0, i + 1, y);
        i := i - 1;
      }
      ProgressedSize(src0, cf0, points[..], destination[..]);
    }

    /**
      The second loop of a pass of Layer.fill: `goLeftOrRight` on rows
      `y + 1` up to `up`. When an accumulator row among them met the layer,
      the layer shrinks strictly.
     */
    method SweepUp(y: int, destination: array<Row>, isB4: bool, up: int,
                   ghost s0: seq<Row>, ghost seed: Cell, ghost down: int)
      requires destination != points && destination.Length == points.Length
      requires FillInv(s0, points[..], destination[..], width, isB4, seed, down, up)
      requires down <= y <= up
      modifies points, destination
      ensures FillInv(s0, points[..], destination[..], width, isB4, seed, down, up)
      ensures Progressed(old(points[..]), old(destination[..]), points[..], destination[..])
      ensures forall j :: y < j <= up && Overlap(old(points[..]), old(destination[..]), j) ==>
        Size(points[..]) < old(Size(points[..]))
    {
      ghost var src0 := points[..];
      ghost var cf0 := destination[..];
      var i := y + 1;
      while i <= up
        invariant y + 1 <= i <= up + 1
        invariant FillInv(s0, points[..], destination[..], width, isB4, seed, down, up)
        invariant Progressed(src0, cf0, points[..], destination[..])
        invariant Size(points[..]) == Size(src0) ==> NoOverlapIn(src0, cf0, y + 1, i - 1)
      {
        SweepRow(i, destination, isB4, s0, seed, down, up, src0, cf0, y + 1, i - 1);
        i := i + 1;
      }
      ProgressedSize(src0, cf0, points[..], destination[..]);
    }

    /**
      One pass of the loop of Layer.fill, rows `y` down to `down` then rows
      `y + 1` up to `up`. When an accumulator row of the window met the layer,
      the layer shrinks strictly.
     */
    method Sweep(y: int, destination: array<Row>, isB4: bool, down: int, up: int,
                 ghost s0: seq<Row>, ghost seed: Cell)
      requires destination != points && destination.Length == points.Length
      requires FillInv(s0, points[..], destination[..], width, isB4, seed, down, up)
      requires down <= y <= up
      modifies points, destination
      ensures FillInv(s0, points[..], destination[..], width, isB4, seed, down, up)
      ensures Progressed(old(points[..]), old(destination[..]), points[..], destination[..])
      ensures forall j :: down <= j <= up && Overlap(old(points[..]), old(destination[..]), j) ==>
        Size(points[..]) < old(Size(points[..]))
    {
      ghost var src0 := points[..];
      ghost var cf0 := destination[..];
      SweepDown(y, destination, isB4, down, s0, seed, up);
      ghost var src1 := points[..];
      ghost var cf1 := destination[..];
      SweepUp(y, destination, isB4, up, s0, seed, down);
      ProgressedTrans(src0, cf0, src1, cf1, points[..], destination[..]);
      ProgressedSize(src0, cf0, src1, cf1);
      ProgressedSize(src1, cf1, points[..], destination[..]);
      forall j | y < j <= up && Overlap(src0, cf0, j) && Size(src1) == Size(src0)
        ensures Overlap(src1, cf1, j)
      {
        OverlapKept(src0, cf0, src1, cf1, j);
      }
    }

    /**
      Layer.getLineToHandleAgain: scans the window upwards for the first
      row the convergence test reports and returns that row or the
      neighbour it meets; -1 when no row of the window is reported.
     */
    method GetLineToHandleAgain(destination: array<Row>, downBoundary: int, upBoundary: int, isB4: bool)
      returns (line: int)
      requires destination.Length == points.Length && 0 <= downBoundary <= upBoundary < points.Length
      ensures line == -1 <==>
        forall j :: downBoundary <= j <= upBoundary ==>
          !Triggers(points[..], destination[..], j, downBoundary, upBoundary, isB4)
      ensures line != -1 ==> downBoundary <= line <= upBoundary && exists j ::
        && downBoundary <= j <= upBoundary && j - 1 <= line <= j + 1
        && Triggers(points[..], destination[..], j, downBoundary, upBoundary, isB4)
    {
      var j := downBoundary;
      while j <= upBoundary
        invariant downBoundary <= j <= upBoundary + 1
        invariant forall i :: downBoundary <= i < j ==>
          !Triggers(points[..], destination[..], i, downBoundary, upBoundary, isB4)
      {
        assert points[..][j] == points[j] && destination[..][j] == destination[j];
        if destination[j] == Absent || destination[j].bits == {} {
          j := j + 1;
          continue;
        }
        if points[j] != Absent && Intersects(destination[j].bits, points[j].bits) {
          assert Triggers(points[..], destination[..], j, downBoundary, upBoundary, isB4);
          return j;
        }
        if j < upBoundary {
          assert points[..][j + 1] == points[j + 1] && destination[..][j + 1] == destination[j + 1];
          if points[j + 1] != Absent && Intersects(destination[j].bits, points[j + 1].bits) {
            assert Triggers(points[..], destination[..], j, downBoundary, upBoundary, isB4);
            return j + 1;
          } else if destination[j + 1] != Absent && points[j] != Absent
                    && Intersects(destination[j + 1].bits, points[j].bits) {
            assert Triggers(points[..], destination[..], j, downBoundary, upBoundary, isB4);
            return j;
          }
        }
        if !isB4 {
          var leftShiftedDestination := ShiftedLeft(destination[j].bits);
          if j < upBoundary && points[j + 1] != Absent && Intersects(leftShiftedDestination, points[j + 1].bits) {
            assert points[..][j + 1] == points[j + 1];
            assert Triggers(points[..], destination[..], j, downBoundary, upBoundary, isB4);
            return j + 1;
          }
          if j > downBoundary && points[j - 1] != Absent && Intersects(leftShiftedDestination, points[j - 1].bits) {
            assert points[..][j - 1] == points[j - 1];
            assert Triggers(points[..], destination[..], j, downBoundary, upBoundary, isB4);
            return j - 1;
          }
        }
        j := j + 1;
      }
      return -1;
    }

    /**
      The accumulator of Layer.fill: `height` rows, those of the window
      `[downBoundary, upBoundary]` allocated and empty, the others absent.
     */
    static method NewAccumulator(height: int, downBoundary: int, upBoundary: int) returns (currentFill: array<Row>)
      requires 0 <= downBoundary <= upBoundary < height
      ensures fresh(currentFill) && currentFill.Length == height
      ensures forall j :: 0 <= j < height ==>
        currentFill[j] == if downBoundary <= j <= upBoundary then Present({}) else Absent
    {
      currentFill := new Row[height](_ => Absent);
      var i := downBoundary;
      while i <= upBoundary
        invariant downBoundary <= i <= upBoundary + 1
        invariant forall j :: 0 <= j < height ==>
          currentFill[j] == if downBoundary <= j < i then Present({}) else Absent
      {
        if currentFill[i] == Absent {
          currentFill[i] := Present({});
        }
        i := i + 1;
      }
    }

    /**
      The `do ... while` loop of Layer.fill: sweeps the window from row `y`
      and repeats from the row the convergence test reports, until it
      reports none. Every pass shrinks the layer, since the reported row
      overlaps; at the end no accumulator row of the window meets the layer.
     */
    method Converge(startY: int, currentFill: array<Row>, isB4: bool, downBoundary: int, upBoundary: int,
                    ghost s0: seq<Row>, ghost seed: Cell)
      requires currentFill != points && currentFill.Length == points.Length
      requires FillInv(s0, points[..], currentFill[..], width, isB4, seed, downBoundary, upBoundary)
      requires downBoundary <= startY <= upBoundary && Overlap(points[..], currentFill[..], startY)
      modifies points, currentFill
      ensures FillInv(s0, points[..], currentFill[..], width, isB4, seed, downBoundary, upBoundary)
      ensures NoOverlapIn(points[..], currentFill[..], downBoundary, upBoundary)
    {
      var y := startY;
      ghost var j0 := startY;
      var again := true;
      while again
        invariant FillInv(s0, points[..], currentFill[..], width, isB4, seed, downBoundary, upBoundary)
        invariant again ==> downBoundary <= y <= upBoundary
        invariant again ==> downBoundary <= j0 <= upBoundary && Overlap(points[..], currentFill[..], j0)
        invariant !again ==> NoOverlapIn(points[..], currentFill[..], downBoundary, upBoundary)
        decreases Size(points[..]) + if again then 1 else 0
      {
        Sweep(y, currentFill, isB4, downBoundary, upBoundary, s0, seed);
        y := GetLineToHandleAgain(currentFill, downBoundary, upBoundary, isB4);
        again := downBoundary <= y <= upBoundary;
        if again {
          ghost var j :| downBoundary <= j <= upBoundary && j - 1 <= y <= j + 1
            && Triggers(points[..], currentFill[..], j, downBoundary, upBoundary, isB4);
          j0 := TriggerMeansOverlap(points[..], currentFill[..], isB4, downBoundary, upBoundary, j);
        } else {
          forall j | downBoundary <= j <= upBoundary ensures !Overlap(points[..], currentFill[..], j) {
            if Overlap(points[..], currentFill[..], j) {
              OverlapTriggers(points[..], currentFill[..], j, downBoundary, upBoundary, isB4);
            }
          }
        }
      }
    }

    /**
      The accumulator and the loop of Layer.fill: marks the seed in a new
      accumulator and converges. The accumulator ends up holding the seed's
      region and the layer the rest.
     */
    method Flood(startX: int, startY: int, isB4: bool, downBoundary: int, upBoundary: int)
      returns (currentFill: array<Row>)
      requires Valid() && 0 <= startY < points.Length && startX in Bits(points[startY])
      requires 0 <= downBoundary <= startY <= upBoundary < points.Length
      requires downBoundary == 0 || Bits(points[downBoundary]) == {} || points[downBoundary - 1] == Absent
      requires upBoundary == points.Length - 1 || Bits(points[upBoundary]) == {} || points[upBoundary + 1] == Absent
      modifies points
      ensures fresh(currentFill) && currentFill.Length == points.Length
      ensures Valid() && RowsFit(currentFill[..], width)
      ensures CellsOf(currentFill[..]) == Component(old(Cells()), Adjacency(isB4), Cell(startX, startY))
      ensures Cells() == old(Cells()) - Component(old(Cells()), Adjacency(isB4), Cell(startX, startY))
    {
      ghost var s0 := points[..];
      ghost var seed := Cell(startX, startY);
      currentFill := NewAccumulator(points.Length, downBoundary, upBoundary);
      currentFill[startY] := Present(currentFill[startY].bits + {startX});
      assert points[..] == s0;
      FillInvInit(s0, currentFill[..], width, isB4, seed, downBoundary, upBoundary);
      assert Overlap(points[..], currentFill[..], startY) by {
        assert startX in Bits(currentFill[..][startY]) && startX in Bits(s0[startY]);
      }
      Converge(startY, currentFill, isB4, downBoundary, upBoundary, s0, seed);
      FillComplete(s0, points[..], currentFill[..], width, isB4, seed, downBoundary, upBoundary);
      FillInvFits(s0, points[..], currentFill[..], width, isB4, seed, downBoundary, upBoundary);
    }

    /**
      The last loop of Layer.fill: ORs every non-empty accumulator row into
      the same row of `destination`, taking the row over when the
      destination's is absent.
     */
    static method MergeInto(destination: Layer, currentFill: array<Row>)
      requires destination.Valid() && currentFill.Length == destination.points.Length
      requires currentFill != destination.points && RowsFit(currentFill[..], destination.width)
      modifies destination.points
      ensures destination.Valid()
      ensures forall j :: 0 <= j < currentFill.Length ==>
        Bits(destination.points[j]) == Bits(old(destination.points[j])) + Bits(currentFill[j])
      ensures destination.Cells() == old(destination.Cells()) + CellsOf(currentFill[..])
    {
      ghost var d0 := destination.points[..];
      var i := 0;
      while i < currentFill.Length
        invariant 0 <= i <= currentFill.Length
        invariant forall j :: 0 <= j < i ==> Bits(destination.points[j]) == Bits(d0[j]) + Bits(currentFill[j])
        invariant forall j :: i <= j < currentFill.Length ==> destination.points[j] == d0[j]
      {
        if currentFill[i] != Absent && currentFill[i].bits != {} {
          if destination.points[i] == Absent {
            destination.points[i] := currentFill[i];
          } else {
            destination.points[i] := Present(destination.points[i].bits + currentFill[i].bits);
          }
        }
        i := i + 1;
      }
      CellsOfUnion(d0, currentFill[..], destination.points[..]);
      assert RowsFit(destination.points[..], destination.width) by {
        forall j | 0 <= j < destination.points.Length ensures Fits(Bits(destination.points[j]), destination.width) {
          assert Fits(Bits(d0[j]), destination.width) && Fits(Bits(currentFill[..][j]), destination.width);
        }
      }
    }

    /**
      Layer.fill: when the seed `(startX, startY)` is not coloured, returns
      this layer untouched; otherwise moves the seed's 4- or 8-connected
      region out of this layer into `destination` and returns `destination`.
     */
    method Fill(startX: int, startY: int, destination: Layer, isB4: bool) returns (result: Layer)
      requires Valid() && destination.Valid()
      requires destination != this && destination.points != points
      requires destination.width == width && destination.points.Length == points.Length
      requires 0 <= startX && 0 <= startY < points.Length
      modifies points, destination.points
      ensures Valid() && destination.Valid()
      ensures startX !in Bits(old(points[startY])) ==>
        result == this && points[..] == old(points[..]) && destination.points[..] == old(destination.points[..])
      ensures startX in Bits(old(points[startY])) ==>
        && result == destination
        && Cells() == old(Cells()) - Component(old(Cells()), Adjacency(isB4), Cell(startX, startY))
        && destination.Cells() == old(destination.Cells()) + Component(old(Cells()), Adjacency(isB4), Cell(startX, startY))
    {
      if points[startY] == Absent || startX !in points[startY].bits {
        return this;
      }
      var downBoundary := GetDownBoundary(startY);
      var upBoundary := GetUpBoundary(startY);
      var currentFill := Flood(startX, startY, isB4, downBoundary, upBoundary);
      MergeInto(destination, currentFill);
      return destination;
    }
  }
}
