/** Cubic arcs: subdivision on an explicit stack. */
module Cubics {
  import opened Ints
  import opened Segments
  import opened LineWalk

  /** An arc in the source's order: endpoint, second control, first control, start. */
  datatype Arc = Arc(to: Point, c2: Point, c1: Point, from: Point)
  {
    function Left(): Arc {
      var (_, lx) := SplitAxis(to.x, c2.x, c1.x, from.x);
      var (_, ly) := SplitAxis(to.y, c2.y, c1.y, from.y);
      Join(lx, ly)
    }

    function Right(): Arc {
      var (rx, _) := SplitAxis(to.x, c2.x, c1.x, from.x);
      var (ry, _) := SplitAxis(to.y, c2.y, c1.y, from.y);
      Join(rx, ry)
    }

    /** The largest of the four flatness deviations. */
    function Deviation(): nat {
      Max(AxisDeviation(Axis(to.x, c2.x, c1.x, from.x)), AxisDeviation(Axis(to.y, c2.y, c1.y, from.y)))
    }

    predicate Flat() {
      Deviation() <= ONE_PIXEL / 2
    }

    ghost predicate InRange() {
      IsPosition(to) && IsPosition(c2) && IsPosition(c1) && IsPosition(from)
    }
  }

  datatype Axis = Axis(to: int, c2: int, c1: int, from: int)

  function Join(x: Axis, y: Axis): Arc {
    Arc(Point(x.to, y.to), Point(x.c2, y.c2), Point(x.c1, y.c1), Point(x.from, y.from))
  }

  /** `split_cubic_axis`: right half and left half, in the source's shift order. */
  function SplitAxis(to: int, c2: int, c1: int, from: int): (Axis, Axis) {
    var a := to + c2;
    var b := c2 + c1;
    var c := c1 + from;
    var leftC1 := c / 2;
    var c' := c + b;
    var leftC2 := c' / 4;
    var rightC2 := a / 2;
    var a' := a + b;
    var rightC1 := a' / 4;
    var mid := (a' + c') / 8;
    (Axis(to, rightC2, rightC1, mid), Axis(mid, leftC2, leftC1, from))
  }

  function AxisDeviation(a: Axis): nat {
    Max(Abs(2 * a.to - 3 * a.c2 + a.from), Abs(a.to - 3 * a.c1 + 2 * a.from))
  }

  /** Each shift rounds down by less than its divisor. */
  lemma SplitRounding(to: int, c2: int, c1: int, from: int)
    ensures var (right, left) := SplitAxis(to, c2, c1, from);
            && right.to == to && left.from == from && left.to == right.from
            && 0 <= to + 3 * c2 + 3 * c1 + from - 8 * left.to < 8
            && 0 <= c2 + 2 * c1 + from - 4 * left.c2 < 4
            && 0 <= c1 + from - 2 * left.c1 < 2
            && 0 <= to + 2 * c2 + c1 - 4 * right.c1 < 4
            && 0 <= to + c2 - 2 * right.c2 < 2
  {
  }

  /** Both halves deviate by less than half as much, plus the rounding of the shifts: exactly
      halved, the left half would have a quarter of one deviation and an eighth of the difference
      of three times one and the other; the right half the same with the two exchanged. */
  lemma SplitShrinksAxis(to: int, c2: int, c1: int, from: int)
    ensures var (right, left) := SplitAxis(to, c2, c1, from);
            var m := AxisDeviation(Axis(to, c2, c1, from));
            2 * AxisDeviation(right) < m + 6 && 2 * AxisDeviation(left) < m + 6
  {
    hide SplitAxis, Abs;
    SplitRounding(to, c2, c1, from);
    var (right, left) := SplitAxis(to, c2, c1, from);
    var d1, d2 := 2 * to - 3 * c2 + from, to - 3 * c1 + 2 * from;
    QuarterAndEighth(d1, d2, 2 * left.to - 3 * left.c2 + left.from, left.to - 3 * left.c1 + 2 * left.from);
    QuarterAndEighth(d2, d1, right.to - 3 * right.c1 + 2 * right.from, 2 * right.to - 3 * right.c2 + right.from);
  }

  lemma QuarterAndEighth(d1: int, d2: int, e1: int, e2: int)
    requires -9 <= 4 * e1 - d2 <= 9 && -12 <= 8 * e2 - (3 * d2 - d1) <= 12
    ensures 2 * Max(Abs(e1), Abs(e2)) < Max(Abs(d1), Abs(d2)) + 6
  {
  }

  lemma SplitShrinks(a: Arc)
    ensures 2 * a.Left().Deviation() < a.Deviation() + 6
    ensures 2 * a.Right().Deviation() < a.Deviation() + 6
  {
    hide SplitAxis, AxisDeviation;
    SplitShrinksAxis(a.to.x, a.c2.x, a.c1.x, a.from.x);
    SplitShrinksAxis(a.to.y, a.c2.y, a.c1.y, a.from.y);
  }

  /** Halving stays between any bounds on the control values. */
  lemma SplitBounded(to: int, c2: int, c1: int, from: int, low: int, high: int)
    requires low <= to <= high && low <= c2 <= high && low <= c1 <= high && low <= from <= high
    ensures var (right, left) := SplitAxis(to, c2, c1, from);
            && low <= right.c2 <= high && low <= right.c1 <= high && low <= right.from <= high
            && low <= left.to <= high && low <= left.c2 <= high && low <= left.c1 <= high
  {
  }

  lemma SplitInRange(a: Arc)
    requires a.InRange()
    ensures a.Left().InRange() && a.Right().InRange()
  {
    SplitBounded(a.to.x, a.c2.x, a.c1.x, a.from.x, -COORD_LIMIT, COORD_LIMIT);
    SplitBounded(a.to.y, a.c2.y, a.c1.y, a.from.y, -COORD_LIMIT, COORD_LIMIT);
  }

  /** The halves join at the midpoint and keep the outer ends. */
  lemma SplitJoins(a: Arc)
    ensures a.Left().from == a.from && a.Left().to == a.Right().from && a.Right().to == a.to
  {
  }

  /** The points that flattening the arc draws lines to. */
  ghost function CubicPoints(a: Arc): (points: seq<Point>)
    ensures points != [] && points[|points| - 1] == a.to
    decreases a.Deviation()
  {
    if a.Flat() then [a.to]
    else
      SplitShrinks(a);
      SplitJoins(a);
      CubicPoints(a.Left()) + CubicPoints(a.Right())
  }

  /** The number of arcs the stack loop still has to look at for this arc. */
  ghost function CubicWork(a: Arc): nat
    decreases a.Deviation()
  {
    if a.Flat() then 1
    else
      SplitShrinks(a);
      1 + CubicWork(a.Left()) + CubicWork(a.Right())
  }

  lemma {:induction false} CubicPositions(a: Arc)
    requires a.InRange()
    ensures forall q :: q in CubicPoints(a) ==> IsPosition(q)
    decreases a.Deviation()
  {
    if !a.Flat() {
      SplitShrinks(a);
      SplitInRange(a);
      CubicPositions(a.Left());
      CubicPositions(a.Right());
    }
  }

  /** The heights of the control points. */
  function ArcHeights(a: Arc): seq<int> {
    [a.to.y, a.c2.y, a.c1.y, a.from.y]
  }

  lemma OffBandFour(a: int, b: int, c: int, d: int, low: int, high: int)
    ensures OffBand([a, b, c, d], low, high)
            <==> (high <= Trunc(a) && high <= Trunc(b) && high <= Trunc(c) && high <= Trunc(d))
                 || (Trunc(a) < low && Trunc(b) < low && Trunc(c) < low && Trunc(d) < low)
  {
    var ys := [a, b, c, d];
    assert a == ys[0] && b == ys[1] && c == ys[2] && d == ys[3];
  }

  /** All points of an arc stay on the side of the band where its control points are. */
  lemma {:induction false} CubicSide(a: Arc, low: int, high: int)
    requires low <= a.to.y <= high && low <= a.c2.y <= high && low <= a.c1.y <= high && low <= a.from.y <= high
    ensures forall q :: q in CubicPoints(a) ==> low <= q.y <= high
    decreases a.Deviation()
  {
    if !a.Flat() {
      SplitShrinks(a);
      SplitBounded(a.to.y, a.c2.y, a.c1.y, a.from.y, low, high);
      CubicSide(a.Left(), low, high);
      CubicSide(a.Right(), low, high);
    }
  }

  /** An arc that the source skips would not have touched the band. */
  lemma OffBandCubic(a: Arc, low: int, high: int)
    requires a.InRange() && OffBand(ArcHeights(a), low, high)
    ensures forall q :: q in CubicPoints(a) ==> IsPosition(q)
    ensures InBand(PathSegments(a.from, CubicPoints(a)), low, high) == []
  {
    hide PathSegments, InBand, CubicPoints;
    CubicPositions(a);
    OffBandFour(a.to.y, a.c2.y, a.c1.y, a.from.y, low, high);
    if high <= Trunc(a.to.y) && high <= Trunc(a.c2.y) && high <= Trunc(a.c1.y) && high <= Trunc(a.from.y) {
      CubicSide(a, ONE_PIXEL * high, COORD_LIMIT);
    } else {
      CubicSide(a, -COORD_LIMIT, ONE_PIXEL * low - 1);
    }
    var points := CubicPoints(a);
    var ys := Heights([a.from] + points);
    forall i | 1 <= i < |ys| ensures ys[i] == points[i - 1].y && points[i - 1] in points {
    }
    OffBandPath(a.from, points, low, high);
  }

  // ---------------------------------------------------------------- the stack

  /** The stack, top last, is a chain of arcs that leads from here to the endpoint. */
  ghost predicate Chain(stack: seq<Arc>, here: Point, end: Point) {
    if stack == [] then here == end
    else
      var top := stack[|stack| - 1];
      top.InRange() && top.from == here && Chain(stack[..|stack| - 1], top.to, end)
  }

  ghost function StackPoints(stack: seq<Arc>): seq<Point> {
    if stack == [] then []
    else CubicPoints(stack[|stack| - 1]) + StackPoints(stack[..|stack| - 1])
  }

  ghost function StackWork(stack: seq<Arc>): nat {
    if stack == [] then 0
    else CubicWork(stack[|stack| - 1]) + StackWork(stack[..|stack| - 1])
  }

  lemma {:induction false} ChainPositions(stack: seq<Arc>, here: Point, end: Point)
    requires Chain(stack, here, end)
    ensures forall q :: q in StackPoints(stack) ==> IsPosition(q)
  {
    if stack != [] {
      var top := stack[|stack| - 1];
      CubicPositions(top);
      ChainPositions(stack[..|stack| - 1], top.to, end);
    }
  }

  /** Replacing the top arc by its two halves, the left one on top, keeps the chain and the points
      still to be drawn, and leaves less work. */
  lemma SplitTop(rest: seq<Arc>, top: Arc, here: Point, end: Point)
    requires Chain(rest + [top], here, end) && !top.Flat()
    ensures var split := rest + [top.Right(), top.Left()];
            && Chain(split, here, end)
            && StackPoints(split) == StackPoints(rest + [top])
            && StackWork(split) < StackWork(rest + [top])
  {
    var split := rest + [top.Right(), top.Left()];
    SplitJoins(top);
    SplitInRange(top);
    assert (rest + [top])[..|rest|] == rest;
    assert split[..|rest| + 1] == rest + [top.Right()];
    assert (rest + [top.Right()])[..|rest|] == rest;
    assert CubicPoints(top.Left()) + (CubicPoints(top.Right()) + StackPoints(rest))
        == CubicPoints(top) + StackPoints(rest);
  }

  lemma PopTop(rest: seq<Arc>, top: Arc, here: Point, end: Point)
    requires Chain(rest + [top], here, end)
    ensures top.InRange() && top.from == here && Chain(rest, top.to, end)
    ensures StackPoints(rest + [top]) == CubicPoints(top) + StackPoints(rest)
    ensures StackWork(rest) < StackWork(rest + [top])
  {
    assert (rest + [top])[..|rest|] == rest;
    assert 0 < CubicWork(top);
  }
}
