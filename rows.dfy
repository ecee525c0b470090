/**
  One row of a layer and the run queries the layer asks of it.

  A layer keeps, per canvas row, a bit vector of the columns it colours; a row
  that was never allocated, or that was released once it became empty, is
  absent. A "run" is a maximal stretch of consecutive set columns. The scans
  `PreviousSetBit`, `PreviousClearBit`, `NextSetBit` and `NextClearBit` are the
  bit-vector primitives the queries are built from; the queries themselves
  (first and last column of the run through a column, and the run boundaries
  seen from a column and its two horizontal neighbours) follow Layer.java.
 */
module Rows {
  import opened Connectivity

  /** A row slot: `Absent` is a null slot, `Present` an allocated bit vector. */
  datatype Row = Absent | Present(bits: set<int>)

  /** The columns a row colours; an absent row colours none. */
  function Bits(r: Row): set<int>
  {
    if r.Present? then r.bits else {}
  }

  /** Every set column is a column of a canvas `width` wide. */
  ghost predicate Fits(r: set<int>, width: int)
  {
    forall x :: x in r ==> 0 <= x < width
  }

  /** The columns `a..b`, both included (empty when `b < a`). */
  function Interval(a: int, b: int): (s: set<int>)
    ensures forall x :: x in s <==> a <= x <= b
    decreases b - a
  {
    if b < a then {} else Interval(a, b - 1) + {b}
  }

  // Set identities, stated once so that proofs about row contents can rewrite
  // with them instead of comparing sets member by member.

  lemma UnionSwap<T>(a: set<T>, b: set<T>, c: set<T>)
    ensures a + b + c == b + a + c
  {
  }

  lemma UnionRegroup<T>(a: set<T>, b: set<T>, c: set<T>, d: set<T>)
    ensures a + b + c + d == a + (b + c + d)
  {
  }

  lemma UnionAssoc<T>(a: set<T>, b: set<T>, c: set<T>)
    ensures a + b + c == a + (b + c)
  {
  }

  lemma UnionEmpty<T>(a: set<T>)
    ensures a + {} == a
  {
  }

  /** A non-empty set of integers has a member. */
  lemma NonEmpty(bits: set<int>)
    ensures bits != {} ==> exists q :: q in bits
  {
    if forall q :: q !in bits {
      assert bits == {};
    }
  }

  /** A sequence that differs from `a` at index `i` alone is `a` updated at `i`. */
  lemma UpdatedAt<T>(a: seq<T>, b: seq<T>, i: int)
    requires |a| == |b| && 0 <= i < |a|
    requires forall j :: 0 <= j < |a| && j != i ==> b[j] == a[j]
    ensures b == a[i := b[i]]
  {
  }

  function Min(a: int, b: int): int { if a <= b then a else b }
  function Max(a: int, b: int): int { if a <= b then b else a }

  /** The two rows have a column in common (BitSet.intersects). */
  predicate Intersects(a: set<int>, b: set<int>)
  {
    exists x :: x in a && x in b
  }

  /** The row moved one column towards 0, dropping column 0 (BitSet.get(1, length)). */
  function ShiftedLeft(a: set<int>): (s: set<int>)
    ensures forall x :: x in s <==> 0 <= x && x + 1 in a
  {
    set z | z in a && 1 <= z :: z - 1
  }

  /** Columns `a` and `b` lie in one run of `r`: every column between them is set. */
  ghost predicate SameRun(r: set<int>, a: int, b: int)
  {
    forall z :: Min(a, b) <= z <= Max(a, b) ==> z in r
  }

  /** `s` is the first column of the run of `r` that reaches column `i`. */
  ghost predicate RunStartsAt(r: set<int>, s: int, i: int)
  {
    s <= i && SameRun(r, s, i) && s - 1 !in r
  }

  /** `e` is the last column of the run of `r` that starts at or before `i` and reaches `i`. */
  ghost predicate RunEndsAt(r: set<int>, i: int, e: int)
  {
    i <= e && SameRun(r, i, e) && e + 1 !in r
  }

  /** The highest set column at or below `i`, or -1 when there is none. */
  function PreviousSetBit(r: set<int>, i: int): (b: int)
    requires -1 <= i
    ensures -1 <= b <= i
    ensures b != -1 ==> b in r
    ensures forall x :: b < x <= i ==> x !in r
    decreases i + 1
  {
    if i == -1 then -1 else if i in r then i else PreviousSetBit(r, i - 1)
  }

  /** The highest clear column at or below `i`, or -1 when `0..i` are all set. */
  function PreviousClearBit(r: set<int>, i: int): (b: int)
    requires -1 <= i
    ensures -1 <= b <= i
    ensures b != -1 ==> b !in r
    ensures forall x :: b < x <= i ==> x in r
    decreases i + 1
  {
    if i == -1 then -1 else if i !in r then i else PreviousClearBit(r, i - 1)
  }

  /** The lowest set column at or above `i`, or -1 when there is none. */
  function NextSetBit(r: set<int>, i: int, width: int): (b: int)
    requires 0 <= i && Fits(r, width)
    ensures b == -1 || (i <= b && b in r)
    ensures forall x :: i <= x && (b == -1 || x < b) ==> x !in r
    decreases width - i
  {
    if i >= width then -1 else if i in r then i else NextSetBit(r, i + 1, width)
  }

  /** The lowest clear column at or above `i`; a bit vector is clear beyond its last set bit. */
  function NextClearBit(r: set<int>, i: int, width: int): (b: int)
    requires 0 <= i && Fits(r, width)
    ensures i <= b && b !in r && b <= Max(i, width)
    ensures forall x :: i <= x < b ==> x in r
    decreases width - i
  {
    if i !in r then i else NextClearBit(r, i + 1, width)
  }

  /**
    First column of the run through `index` (Layer.getFirstSetIndexInARow):
    -1 when `index` is clear.
   */
  function GetFirstSetIndexInARow(r: set<int>, index: int, width: int): (f: int)
    requires 0 <= index && Fits(r, width)
    ensures index in r ==> 0 <= f && RunStartsAt(r, f, index)
    ensures index !in r ==> f == -1
  {
    var prevSetBit := PreviousSetBit(r, index);
    if prevSetBit == -1 then -1
    else
      var prevClearBit := PreviousClearBit(r, index);
      if prevSetBit < prevClearBit then -1 else prevClearBit + 1
  }

  /**
    Last column of the run through `index` (Layer.getLastSetIndexInARow):
    -1 when `index` is clear or the row is empty.
   */
  function GetLastSetIndexInARow(r: set<int>, index: int, width: int): (l: int)
    requires 0 <= index && Fits(r, width)
    ensures index in r ==> l < width && RunEndsAt(r, index, l)
    ensures index !in r ==> l == -1
  {
    if r == {} then -1
    else
      var nextSetBit := NextSetBit(r, index, width);
      if nextSetBit == -1 then -1
      else
        var nextClearBit := NextClearBit(r, index, width);
        if nextSetBit > nextClearBit then -1 else nextClearBit - 1
  }

  /**
    Layer.getPrevIndex: the first column of the run through `fromPoint - 1`,
    else of the run through `fromPoint + 1`, else of the run through `fromPoint`.
   */
  function GetPrevIndex(r: set<int>, fromPoint: int, width: int): (p: int)
    requires 0 <= fromPoint < width && Fits(r, width)
    ensures fromPoint in r ==> RunStartsAt(r, p, fromPoint)
    ensures fromPoint !in r && fromPoint - 1 in r ==> RunStartsAt(r, p, fromPoint - 1)
    ensures fromPoint !in r && fromPoint - 1 !in r && fromPoint + 1 in r ==> p == fromPoint + 1
    ensures fromPoint - 1 !in r && fromPoint !in r && fromPoint + 1 !in r ==> p == -1
    ensures p != -1 ==> 0 <= p
    ensures forall x :: fromPoint - 1 <= x <= fromPoint + 1 && x in r ==> p <= x
  {
    var prevIndex :=
      if fromPoint > 0 && fromPoint - 1 in r then
        var first := GetFirstSetIndexInARow(r, fromPoint - 1, width);
        if first == -1 then fromPoint else first
      else if fromPoint < width - 1 && fromPoint + 1 in r then
        GetFirstSetIndexInARow(r, fromPoint + 1, width)
      else
        GetFirstSetIndexInARow(r, fromPoint, width);
    prevIndex
  }

  /**
    Layer.getNextIndex: the last column of the run through `fromPoint + 1`,
    else of the run through `fromPoint - 1`, else of the run through `fromPoint`.
   */
  function GetNextIndex(r: set<int>, fromPoint: int, width: int): (n: int)
    requires 0 <= fromPoint < width && Fits(r, width)
    ensures fromPoint in r ==> n < width && RunEndsAt(r, fromPoint, n)
    ensures fromPoint !in r && fromPoint + 1 in r ==> n < width && RunEndsAt(r, fromPoint + 1, n)
    ensures fromPoint !in r && fromPoint + 1 !in r && fromPoint - 1 in r ==> n == fromPoint - 1
    ensures fromPoint - 1 !in r && fromPoint !in r && fromPoint + 1 !in r ==> n == -1
    ensures forall x :: fromPoint - 1 <= x <= fromPoint + 1 && x in r ==> x <= n
  {
    var nextIndex :=
      if fromPoint < width - 1 && fromPoint + 1 in r then
        var last := GetLastSetIndexInARow(r, fromPoint + 1, width);
        if last == -1 then fromPoint else last
      else if fromPoint > 0 && fromPoint - 1 in r then
        GetLastSetIndexInARow(r, fromPoint - 1, width)
      else
        GetLastSetIndexInARow(r, fromPoint, width);
    nextIndex
  }

  lemma SameRunSymmetric(r: set<int>, a: int, b: int)
    ensures SameRun(r, a, b) == SameRun(r, b, a)
  {
    assert Min(a, b) == Min(b, a) && Max(a, b) == Max(b, a);
  }

  lemma SameRunTrans(r: set<int>, a: int, b: int, c: int)
    requires SameRun(r, a, b) && SameRun(r, b, c)
    ensures SameRun(r, a, c)
  {
    forall z | Min(a, c) <= z <= Max(a, c) ensures z in r {
      if Min(a, b) <= z <= Max(a, b) {
      } else {
        assert Min(b, c) <= z <= Max(b, c);
      }
    }
  }

  /**
    Every set column between the two boundaries seen from `f` lies in the run of
    a set column among `f - 1`, `f`, `f + 1`: the span that the 8-way fill probes
    around a run end touches that end at most one column away.
   */
  lemma ProbedSpanTouches(r: set<int>, f: int, width: int, x: int)
    requires 0 <= f < width && Fits(r, width)
    requires GetPrevIndex(r, f, width) <= x <= GetNextIndex(r, f, width) && x in r
    ensures (f - 1 in r && SameRun(r, x, f - 1)) || (f in r && SameRun(r, x, f)) || (f + 1 in r && SameRun(r, x, f + 1))
  {
    if f - 1 <= x <= f + 1 {
      assert SameRun(r, x, x);
      return;
    }
    // A boundary is -1 only when none of f - 1, f, f + 1 is set.
    assert f - 1 in r || f in r || f + 1 in r;
    if x < f - 1 {
      ProbedLeftTouches(r, f, width, x);
    } else {
      ProbedRightTouches(r, f, width, x);
    }
  }

  /** A set column left of `f - 1` from the lower boundary is in the run of `f - 1` or of `f`. */
  lemma ProbedLeftTouches(r: set<int>, f: int, width: int, x: int)
    requires 0 <= f < width && Fits(r, width)
    requires GetPrevIndex(r, f, width) <= x < f - 1 && x in r
    requires f - 1 in r || f in r || f + 1 in r
    ensures (f - 1 in r && SameRun(r, x, f - 1)) || (f in r && SameRun(r, x, f))
  {
    var p := GetPrevIndex(r, f, width);
    // Only the run through f - 1 reaches below f - 1.
    if f in r {
      assert RunStartsAt(r, p, f);
      assert SameRun(r, x, f);
    } else {
      assert f - 1 in r;
      assert RunStartsAt(r, p, f - 1);
      assert SameRun(r, x, f - 1);
    }
  }

  /** A set column right of `f + 1` up to the upper boundary is in the run of `f` or of `f + 1`. */
  lemma ProbedRightTouches(r: set<int>, f: int, width: int, x: int)
    requires 0 <= f < width && Fits(r, width)
    requires f + 1 < x <= GetNextIndex(r, f, width) && x in r
    requires f - 1 in r || f in r || f + 1 in r
    ensures (f in r && SameRun(r, x, f)) || (f + 1 in r && SameRun(r, x, f + 1))
  {
    var n := GetNextIndex(r, f, width);
    if f in r {
      assert RunEndsAt(r, f, n);
      assert SameRun(r, x, f);
    } else {
      assert f + 1 in r;
      assert RunEndsAt(r, f + 1, n);
      assert SameRun(r, x, f + 1);
    }
  }

  /** The run through a set column `i` starts at `GetFirstSetIndexInARow` for every column of that run. */
  lemma RunStartShared(r: set<int>, i: int, j: int, width: int)
    requires 0 <= i && 0 <= j && Fits(r, width) && i in r && SameRun(r, i, j)
    ensures GetFirstSetIndexInARow(r, i, width) == GetFirstSetIndexInARow(r, j, width)
    ensures GetLastSetIndexInARow(r, i, width) == GetLastSetIndexInARow(r, j, width)
  {
    assert j in r;
    var fi, fj := GetFirstSetIndexInARow(r, i, width), GetFirstSetIndexInARow(r, j, width);
    var li, lj := GetLastSetIndexInARow(r, i, width), GetLastSetIndexInARow(r, j, width);
    SameRunTrans(r, fi, i, j);
    SameRunTrans(r, fj, j, i);
    SameRunTrans(r, j, i, li);
    SameRunTrans(r, i, j, lj);
    if fi < fj {
      assert false;
    } else if fj < fi {
      assert false;
    }
    if li < lj {
      assert false;
    } else if lj < li {
      assert false;
    }
  }

  /** The columns of `r` whose run meets the columns `p..n`. */
  ghost function RunsMeeting(r: set<int>, p: int, n: int, width: int): (m: set<int>)
    requires Fits(r, width)
    ensures m <= r
  {
    set x | x in r && 0 <= x
      && Max(GetFirstSetIndexInARow(r, x, width), p) <= Min(GetLastSetIndexInARow(r, x, width), n)
  }

  /** A set column inside `p..n` is in `RunsMeeting`. */
  lemma RunsMeetingInside(r: set<int>, p: int, n: int, width: int, x: int)
    requires Fits(r, width) && p <= x <= n && x in r
    ensures x in RunsMeeting(r, p, n, width)
  {
    assert SameRun(r, x, x);
    RunsMeetingIntro(r, p, n, width, x, x);
  }

  /** A column of `RunsMeeting` shares its run with a set column in `p..n`. */
  lemma RunsMeetingWitness(r: set<int>, p: int, n: int, width: int, x: int) returns (z: int)
    requires Fits(r, width) && x in RunsMeeting(r, p, n, width)
    ensures z == Max(GetFirstSetIndexInARow(r, x, width), p)
    ensures p <= z <= n && z in r && SameRun(r, x, z)
  {
    var f := GetFirstSetIndexInARow(r, x, width);
    var l := GetLastSetIndexInARow(r, x, width);
    z := Max(f, p);
    SameRunTrans(r, x, f, z);
  }

  /** Every set column sharing its run with a set column in `p..n` is in `RunsMeeting`. */
  lemma RunsMeetingIntro(r: set<int>, p: int, n: int, width: int, x: int, z: int)
    requires Fits(r, width) && p <= z <= n && z in r && x in r && SameRun(r, x, z)
    ensures x in RunsMeeting(r, p, n, width)
  {
    RunStartShared(r, z, x, width);
  }

  /** The cells coloured by a sequence of rows; row `y` holds the columns of canvas row `y`. */
  ghost function CellsOf(rows: seq<Row>): set<Cell>
  {
    set y, x | 0 <= y < |rows| && x in Bits(rows[y]) :: Cell(x, y)
  }

  ghost predicate RowsFit(rows: seq<Row>, width: int)
  {
    forall y :: 0 <= y < |rows| ==> Fits(Bits(rows[y]), width)
  }

  lemma CellsOfMember(rows: seq<Row>, c: Cell)
    ensures c in CellsOf(rows) <==> 0 <= c.y < |rows| && c.x in Bits(rows[c.y])
  {
    if 0 <= c.y < |rows| && c.x in Bits(rows[c.y]) {
      assert Cell(c.x, c.y) == c;
    }
  }

  /** Replacing row `i` replaces exactly the cells of row `i`. */
  lemma CellsOfUpdate(rows: seq<Row>, i: int, r: Row)
    requires 0 <= i < |rows|
    ensures forall c :: c in CellsOf(rows[i := r]) <==>
      (c in CellsOf(rows) && c.y != i) || (c.y == i && c.x in Bits(r))
  {
    forall c ensures c in CellsOf(rows[i := r]) <==> (c in CellsOf(rows) && c.y != i) || (c.y == i && c.x in Bits(r)) {
      CellsOfMember(rows, c);
      CellsOfMember(rows[i := r], c);
    }
  }

  /** Rows that are the row-by-row unions of two sequences colour the union of their cells. */
  lemma CellsOfUnion(a: seq<Row>, b: seq<Row>, c: seq<Row>)
    requires |a| == |c| && |b| == |c|
    requires forall j :: 0 <= j < |c| ==> Bits(c[j]) == Bits(a[j]) + Bits(b[j])
    ensures CellsOf(c) == CellsOf(a) + CellsOf(b)
  {
    forall q ensures q in CellsOf(c) <==> q in CellsOf(a) + CellsOf(b) {
      CellsOfMember(a, q);
      CellsOfMember(b, q);
      CellsOfMember(c, q);
    }
  }

  /** The number of cells the rows colour. */
  ghost function Size(rows: seq<Row>): nat
  {
    if |rows| == 0 then 0 else Size(rows[..|rows| - 1]) + |Bits(rows[|rows| - 1])|
  }

  lemma SubsetCard<T>(x: set<T>, y: set<T>)
    requires x <= y
    ensures |x| <= |y| && (|x| == |y| ==> x == y)
  {
    assert y == x + (y - x);
    assert x * (y - x) == {};
    if |x| == |y| {
      assert |y - x| == 0;
    }
  }

  /**
    Rows that each lose columns hold fewer cells in total, and as many only
    when no row lost any.
   */
  lemma {:induction false} SizeShrinks(a: seq<Row>, b: seq<Row>)
    requires |a| == |b| && forall j :: 0 <= j < |a| ==> Bits(b[j]) <= Bits(a[j])
    ensures Size(b) <= Size(a)
    ensures Size(b) == Size(a) ==> forall j :: 0 <= j < |a| ==> Bits(b[j]) == Bits(a[j])
    decreases |a|
  {
    if |a| > 0 {
      var n := |a| - 1;
      assert forall j :: 0 <= j < n ==> a[..n][j] == a[j] && b[..n][j] == b[j];
      SizeShrinks(a[..n], b[..n]);
      SubsetCard(Bits(b[n]), Bits(a[n]));
    }
  }

  lemma {:induction false} IntervalCard(a: int, b: int)
    ensures |Interval(a, b)| == if b < a then 0 else b - a + 1
    decreases b - a
  {
    if a <= b {
      IntervalCard(a, b - 1);
      assert b !in Interval(a, b - 1);
    }
  }

  /** A row of a canvas `width` wide with `width` set columns holds every column. */
  lemma FullRow(r: set<int>, width: int)
    requires Fits(r, width) && |r| == width
    ensures r == Interval(0, width - 1)
  {
    IntervalCard(0, width - 1);
    SubsetCard(r, Interval(0, width - 1));
  }

  /** The cells `(x, y1)..(x, y2)` of one column. */
  ghost function VerticalSegment(x: int, y1: int, y2: int): set<Cell>
  {
    set y | y in Interval(y1, y2) :: Cell(x, y)
  }

  /** The cells `(x1, y)..(x2, y)` of one row. */
  ghost function HorizontalSegment(x1: int, x2: int, y: int): set<Cell>
  {
    set x | x in Interval(x1, x2) :: Cell(x, y)
  }

  /** Every cell of a canvas `width` columns wide and `height` rows high. */
  ghost function Grid(width: int, height: int): set<Cell>
  {
    set y, x | y in Interval(0, height - 1) && x in Interval(0, width - 1) :: Cell(x, y)
  }

  lemma ShapeMember(c: Cell, x: int, y: int, x1: int, x2: int, y1: int, y2: int, width: int, height: int)
    ensures c in VerticalSegment(x, y1, y2) <==> c.x == x && y1 <= c.y <= y2
    ensures c in HorizontalSegment(x1, x2, y) <==> c.y == y && x1 <= c.x <= x2
    ensures c in Grid(width, height) <==> 0 <= c.x < width && 0 <= c.y < height
  {
    assert Cell(c.x, c.y) == c;
  }

  /**
    The columns of `RunsMeeting(r, p, n, width)` whose run meets `p..n` first
    at a column below `i`: what a left-to-right scan of `p..n` has marked
    once it reaches column `i`.
   */
  ghost function RunsMeetingBelow(r: set<int>, p: int, n: int, width: int, i: int): (m: set<int>)
    requires Fits(r, width)
    ensures m <= RunsMeeting(r, p, n, width)
  {
    set x | x in RunsMeeting(r, p, n, width) && Max(GetFirstSetIndexInARow(r, x, width), p) < i
  }

  /** Before the first set column at or above `p` nothing has been marked. */
  lemma RunsMeetingBelowStart(r: set<int>, p: int, n: int, width: int)
    requires Fits(r, width) && 0 <= p
    ensures NextSetBit(r, p, width) == -1 ==> RunsMeeting(r, p, n, width) == {}
    ensures NextSetBit(r, p, width) != -1 ==> RunsMeetingBelow(r, p, n, width, NextSetBit(r, p, width)) == {}
  {
    forall x | x in RunsMeeting(r, p, n, width)
      ensures NextSetBit(r, p, width) != -1 && NextSetBit(r, p, width) <= Max(GetFirstSetIndexInARow(r, x, width), p)
    {
      var z := RunsMeetingWitness(r, p, n, width, x);
    }
  }

  /** Past `n` every run meeting `p..n` has been marked. */
  lemma RunsMeetingBelowEnd(r: set<int>, p: int, n: int, width: int, i: int)
    requires Fits(r, width) && n < i
    ensures RunsMeetingBelow(r, p, n, width, i) == RunsMeeting(r, p, n, width)
  {
    forall x | x in RunsMeeting(r, p, n, width) ensures x in RunsMeetingBelow(r, p, n, width, i) {
      var z := RunsMeetingWitness(r, p, n, width, x);
    }
  }

  /** A clear column adds nothing to the scan. */
  lemma RunsMeetingBelowSkip(r: set<int>, p: int, n: int, width: int, i: int)
    requires Fits(r, width) && i !in r
    ensures RunsMeetingBelow(r, p, n, width, i + 1) == RunsMeetingBelow(r, p, n, width, i)
  {
    forall x | x in RunsMeetingBelow(r, p, n, width, i + 1) ensures x in RunsMeetingBelow(r, p, n, width, i) {
      var z := RunsMeetingWitness(r, p, n, width, x);
    }
  }

  /** A column between the two ends of a run lies in that run. */
  lemma SameRunInside(r: set<int>, a: int, b: int, z: int)
    requires SameRun(r, a, b) && Min(a, b) <= z <= Max(a, b)
    ensures SameRun(r, a, z)
  {
    forall w | Min(a, z) <= w <= Max(a, z) ensures w in r {
      assert Min(a, b) <= w <= Max(a, b);
    }
  }

  /** The run through a set column `i` is the interval from its first to its last column. */
  lemma RunIsInterval(r: set<int>, i: int, width: int, x: int)
    requires Fits(r, width) && 0 <= i && i in r
    requires x in Interval(GetFirstSetIndexInARow(r, i, width), GetLastSetIndexInARow(r, i, width))
    ensures x in r && SameRun(r, i, x)
  {
    var f, l := GetFirstSetIndexInARow(r, i, width), GetLastSetIndexInARow(r, i, width);
    if x <= i {
      SameRunSymmetric(r, f, i);
      SameRunInside(r, i, f, x);
    } else {
      SameRunInside(r, i, l, x);
    }
    assert Min(i, x) <= x <= Max(i, x);
  }

  /**
    A set column `i` of `p..n` adds its whole run `first..last`, after which
    the scan may resume anywhere up to one past the run.
   */
  lemma RunsMeetingBelowRun(r: set<int>, p: int, n: int, width: int, i: int, i': int)
    requires Fits(r, width) && i in r && p <= i <= n
    requires i < i' <= GetLastSetIndexInARow(r, i, width) + 1
    ensures RunsMeetingBelow(r, p, n, width, i') ==
      RunsMeetingBelow(r, p, n, width, i) + Interval(GetFirstSetIndexInARow(r, i, width), GetLastSetIndexInARow(r, i, width))
  {
    RunsMeetingBelowRunAdds(r, p, n, width, i, i');
    RunsMeetingBelowRunOnly(r, p, n, width, i, i');
  }

  lemma RunsMeetingBelowRunAdds(r: set<int>, p: int, n: int, width: int, i: int, i': int)
    requires Fits(r, width) && i in r && p <= i <= n
    requires i < i' <= GetLastSetIndexInARow(r, i, width) + 1
    ensures Interval(GetFirstSetIndexInARow(r, i, width), GetLastSetIndexInARow(r, i, width)) <= RunsMeetingBelow(r, p, n, width, i')
  {
    var f, l := GetFirstSetIndexInARow(r, i, width), GetLastSetIndexInARow(r, i, width);
    forall x | x in Interval(f, l) ensures x in RunsMeetingBelow(r, p, n, width, i') {
      RunIsInterval(r, i, width, x);
      RunStartShared(r, i, x, width);
      RunsMeetingInside(r, p, n, width, i);
      RunsMeetingIntro(r, p, n, width, x, i);
    }
  }

  lemma RunsMeetingBelowRunOnly(r: set<int>, p: int, n: int, width: int, i: int, i': int)
    requires Fits(r, width) && i in r && p <= i <= n
    requires i < i' <= GetLastSetIndexInARow(r, i, width) + 1
    ensures RunsMeetingBelow(r, p, n, width, i') <=
      RunsMeetingBelow(r, p, n, width, i) + Interval(GetFirstSetIndexInARow(r, i, width), GetLastSetIndexInARow(r, i, width))
  {
    var f, l := GetFirstSetIndexInARow(r, i, width), GetLastSetIndexInARow(r, i, width);
    forall x | x in RunsMeetingBelow(r, p, n, width, i') && x !in RunsMeetingBelow(r, p, n, width, i)
      ensures f <= x <= l
    {
      var z := RunsMeetingWitness(r, p, n, width, x);
      SameRunInside(r, i, l, z);
      SameRunSymmetric(r, x, z);
      SameRunTrans(r, i, z, x);
      RunStartShared(r, i, x, width);
    }
  }
}
