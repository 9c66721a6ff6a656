/** How close a flattened cubic is to the exact curve. */
module CubicAccuracy {
  import opened Ints
  import opened Segments
  import opened LineWalk
  import opened Cubics

  // ---------------------------------------------------------------- one coordinate of the exact curve

  /** The cubic Bezier polynomial. */
  function Curve(p0: real, p1: real, p2: real, p3: real, t: real): real {
    var u := 1.0 - t;
    u * u * u * p0 + 3.0 * (u * u * t) * p1 + 3.0 * (u * t * t) * p2 + t * t * t * p3
  }

  function Blend(p: real, q: real, s: real): real {
    (1.0 - s) * p + s * q
  }

  lemma PowerForm(p0: real, p1: real, p2: real, p3: real, t: real)
    ensures Curve(p0, p1, p2, p3, t)
         == p0 + 3.0 * (p1 - p0) * t + 3.0 * (p2 - 2.0 * p1 + p0) * (t * t)
          + (p3 - 3.0 * p2 + 3.0 * p1 - p0) * (t * t * t)
  {
    var u, t2, t3 := 1.0 - t, t * t, t * t * t;
    assert u * u == 1.0 - 2.0 * t + t2;
    assert u * u * u == 1.0 - 3.0 * t + 3.0 * t2 - t3;
    assert u * u * t == t - 2.0 * t2 + t3;
    assert u * t * t == t2 - t3;
    Combined(p0, p1, p2, p3, t, t2, t3);
  }

  lemma Combined(p0: real, p1: real, p2: real, p3: real, t: real, t2: real, t3: real)
    ensures (1.0 - 3.0 * t + 3.0 * t2 - t3) * p0 + 3.0 * (t - 2.0 * t2 + t3) * p1 + 3.0 * (t2 - t3) * p2 + t3 * p3
         == p0 + 3.0 * (p1 - p0) * t + 3.0 * (p2 - 2.0 * p1 + p0) * t2 + (p3 - 3.0 * p2 + 3.0 * p1 - p0) * t3
  {
  }

  /** The left half of a curve, by the exact de Casteljau construction. */
  lemma LeftHalf(p0: real, p1: real, p2: real, p3: real, t: real)
    ensures Curve(p0, p1, p2, p3, t / 2.0)
         == Curve(p0, (p0 + p1) / 2.0, (p0 + 2.0 * p1 + p2) / 4.0, (p0 + 3.0 * p1 + 3.0 * p2 + p3) / 8.0, t)
  {
    PowerForm(p0, p1, p2, p3, t / 2.0);
    var q1, q2, q3 := (p0 + p1) / 2.0, (p0 + 2.0 * p1 + p2) / 4.0, (p0 + 3.0 * p1 + 3.0 * p2 + p3) / 8.0;
    PowerForm(p0, q1, q2, q3, t);
    hide Curve;
    var h, t2, t3 := t / 2.0, t * t, t * t * t;
    assert h * h == t2 / 4.0;
    assert h * h * h == t3 / 8.0;
    HalfTerms(p1 - p0, p2 - 2.0 * p1 + p0, p3 - 3.0 * p2 + 3.0 * p1 - p0, t, t2, t3);
    assert q1 - p0 == (p1 - p0) / 2.0;
    assert q2 - 2.0 * q1 + p0 == (p2 - 2.0 * p1 + p0) / 4.0;
    assert q3 - 3.0 * q2 + 3.0 * q1 - p0 == (p3 - 3.0 * p2 + 3.0 * p1 - p0) / 8.0;
  }

  lemma HalfTerms(a: real, b: real, c: real, t: real, t2: real, t3: real)
    ensures 3.0 * a * (t / 2.0) == 3.0 * (a / 2.0) * t
    ensures 3.0 * b * (t2 / 4.0) == 3.0 * (b / 4.0) * t2
    ensures c * (t3 / 8.0) == c / 8.0 * t3
  {
  }

  lemma FromTheEnd(p0: real, p1: real, p2: real, p3: real, t: real)
    ensures Curve(p3, p2, p1, p0, 1.0 - t) == Curve(p0, p1, p2, p3, t)
  {
    var u := 1.0 - t;
    assert 1.0 - u == t;
    assert t * t * u == u * t * t && t * u * u == u * u * t;
  }

  lemma RightHalf(p0: real, p1: real, p2: real, p3: real, t: real)
    ensures Curve(p0, p1, p2, p3, (1.0 + t) / 2.0)
         == Curve((p0 + 3.0 * p1 + 3.0 * p2 + p3) / 8.0, (p1 + 2.0 * p2 + p3) / 4.0, (p2 + p3) / 2.0, p3, t)
  {
    FromTheEnd(p0, p1, p2, p3, (1.0 + t) / 2.0);
    LeftHalf(p3, p2, p1, p0, 1.0 - t);
    FromTheEnd((p0 + 3.0 * p1 + 3.0 * p2 + p3) / 8.0, (p1 + 2.0 * p2 + p3) / 4.0, (p2 + p3) / 2.0, p3, t);
    hide Curve;
    assert 1.0 - (1.0 + t) / 2.0 == (1.0 - t) / 2.0;
  }

  /** The weights of the control values. */
  lemma Weights(t: real)
    requires 0.0 <= t <= 1.0
    ensures var u := 1.0 - t;
            && 0.0 <= u * u * u && 0.0 <= u * u * t && 0.0 <= u * t * t && 0.0 <= t * t * t && 0.0 <= u * t
            && u * u * u + 3.0 * (u * u * t) + 3.0 * (u * t * t) + t * t * t == 1.0
            && u * u * t + u * t * t == u * t <= 0.25
  {
    var u := 1.0 - t;
    WeightsNonnegative(u, t);
    WeightSum(t);
    WeightProduct(t);
  }

  lemma WeightsNonnegative(u: real, t: real)
    requires 0.0 <= u && 0.0 <= t
    ensures 0.0 <= u * u * u && 0.0 <= u * u * t && 0.0 <= u * t * t && 0.0 <= t * t * t && 0.0 <= u * t
  {
    Nonnegative(u, t);
    Nonnegative(u, u);
    Nonnegative(t, t);
    Nonnegative(u * u, u);
    Nonnegative(u * u, t);
    Nonnegative(u * t, t);
    Nonnegative(t * t, t);
  }

  lemma WeightSum(t: real)
    ensures var u := 1.0 - t; u * u * u + 3.0 * (u * u * t) + 3.0 * (u * t * t) + t * t * t == 1.0
  {
    var u, t2, t3 := 1.0 - t, t * t, t * t * t;
    assert u * u == 1.0 - 2.0 * t + t2;
    assert u * u * u == 1.0 - 3.0 * t + 3.0 * t2 - t3;
    assert u * u * t == t - 2.0 * t2 + t3;
    assert u * t * t == t2 - t3;
  }

  lemma WeightProduct(t: real)
    ensures var u := 1.0 - t; u * u * t + u * t * t == u * t <= 0.25
  {
    var u := 1.0 - t;
    assert u * u * t + u * t * t == u * t * (u + t);
    assert 0.25 - u * t == (t - 0.5) * (t - 0.5);
    SquareNonnegative(t - 0.5);
  }

  lemma SquareNonnegative(a: real)
    ensures 0.0 <= a * a
  {
  }

  lemma Nonnegative(a: real, b: real)
    requires 0.0 <= a && 0.0 <= b
    ensures 0.0 <= a * b
  {
  }

  /** A control value with its weight. */
  function Share(w: real, p: real): real {
    w * p
  }

  lemma Weighed(w: real, low: real, p: real)
    requires 0.0 <= w && low <= p <= low + 1.0
    ensures Share(w, low) <= Share(w, p) <= Share(w, low) + w
  {
    Nonnegative(w, p - low);
    Nonnegative(w, low + 1.0 - p);
    assert w * (low + 1.0 - p) == w * low + w - w * p;
  }

  /** Control values that are rounded down lower the curve by no more than one. */
  lemma CurvesClose(p0: real, p1: real, p2: real, p3: real, q0: real, q1: real, q2: real, q3: real, t: real)
    requires 0.0 <= t <= 1.0
    requires q0 <= p0 <= q0 + 1.0 && q1 <= p1 <= q1 + 1.0 && q2 <= p2 <= q2 + 1.0 && q3 <= p3 <= q3 + 1.0
    ensures Curve(q0, q1, q2, q3, t) <= Curve(p0, p1, p2, p3, t) <= Curve(q0, q1, q2, q3, t) + 1.0
  {
    Weights(t);
    var u := 1.0 - t;
    var w0, w1, w2, w3 := u * u * u, 3.0 * (u * u * t), 3.0 * (u * t * t), t * t * t;
    CurveIs(p0, p1, p2, p3, t, w0, w1, w2, w3);
    CurveIs(q0, q1, q2, q3, t, w0, w1, w2, w3);
    hide Curve, Share;
    FourWeights(w0, w1, w2, w3, p0, p1, p2, p3, q0, q1, q2, q3);
  }

  lemma FourWeights(w0: real, w1: real, w2: real, w3: real, p0: real, p1: real, p2: real, p3: real,
                    q0: real, q1: real, q2: real, q3: real)
    requires 0.0 <= w0 && 0.0 <= w1 && 0.0 <= w2 && 0.0 <= w3 && w0 + w1 + w2 + w3 == 1.0
    requires q0 <= p0 <= q0 + 1.0 && q1 <= p1 <= q1 + 1.0 && q2 <= p2 <= q2 + 1.0 && q3 <= p3 <= q3 + 1.0
    ensures var a, b := Share(w0, p0) + Share(w1, p1) + Share(w2, p2) + Share(w3, p3),
              Share(w0, q0) + Share(w1, q1) + Share(w2, q2) + Share(w3, q3);
            b <= a <= b + 1.0
  {
    hide Share;
    Weighed(w0, q0, p0);
    Weighed(w1, q1, p1);
    Weighed(w2, q2, p2);
    Weighed(w3, q3, p3);
  }

  lemma CurveIs(p0: real, p1: real, p2: real, p3: real, t: real, w0: real, w1: real, w2: real, w3: real)
    requires var u := 1.0 - t;
             w0 == u * u * u && w1 == 3.0 * (u * u * t) && w2 == 3.0 * (u * t * t) && w3 == t * t * t
    ensures Curve(p0, p1, p2, p3, t) == Share(w0, p0) + Share(w1, p1) + Share(w2, p2) + Share(w3, p3)
  {
  }

  /** Where a curve leaves its chord. */
  lemma ChordDistance(p0: real, p1: real, p2: real, p3: real, t: real)
    ensures var u := 1.0 - t;
            Curve(p0, p1, p2, p3, t) - Blend(p0, p3, t)
            == u * t * t * (3.0 * p2 - p0 - 2.0 * p3) + u * u * t * (3.0 * p1 - 2.0 * p0 - p3)
  {
    PowerForm(p0, p1, p2, p3, t);
    hide Curve;
    var u, t2, t3 := 1.0 - t, t * t, t * t * t;
    assert u * u * t == t - 2.0 * t2 + t3;
    assert u * t * t == t2 - t3;
    ChordTerms(p0, p1, p2, p3, t, t2, t3);
  }

  lemma ChordTerms(p0: real, p1: real, p2: real, p3: real, t: real, t2: real, t3: real)
    ensures (t2 - t3) * (3.0 * p2 - p0 - 2.0 * p3) + (t - 2.0 * t2 + t3) * (3.0 * p1 - 2.0 * p0 - p3)
         == p0 + 3.0 * (p1 - p0) * t + 3.0 * (p2 - 2.0 * p1 + p0) * t2 + (p3 - 3.0 * p2 + 3.0 * p1 - p0) * t3
          - ((1.0 - t) * p0 + t * p3)
  {
  }

  /** A flat arc stays within an eighth of a pixel of its chord. */
  lemma FlatClose(p0: real, p1: real, p2: real, p3: real, t: real)
    requires 0.0 <= t <= 1.0
    requires -128.0 <= 3.0 * p2 - p0 - 2.0 * p3 <= 128.0 && -128.0 <= 3.0 * p1 - 2.0 * p0 - p3 <= 128.0
    ensures -32.0 <= Curve(p0, p1, p2, p3, t) - Blend(p0, p3, t) <= 32.0
  {
    var u := 1.0 - t;
    var a, b := u * t * t, u * u * t;
    ChordDistance(p0, p1, p2, p3, t);
    hide Curve, Blend;
    assert 0.0 <= a && 0.0 <= b && a + b <= 0.25 by {
      Weights(t);
    }
    QuarterWeights(a, b, 3.0 * p2 - p0 - 2.0 * p3, 3.0 * p1 - 2.0 * p0 - p3);
  }

  lemma QuarterWeights(a: real, b: real, x: real, y: real)
    requires 0.0 <= a && 0.0 <= b && a + b <= 0.25 && -128.0 <= x <= 128.0 && -128.0 <= y <= 128.0
    ensures -32.0 <= a * x + b * y <= 32.0
  {
    TimesAtMost(a, x);
    TimesAtMost(b, y);
    AtMost(a, b, a * x, b * y);
  }

  lemma AtMost(a: real, b: real, ax: real, bz: real)
    requires a + b <= 0.25 && -(128.0 * a) <= ax <= 128.0 * a && -(128.0 * b) <= bz <= 128.0 * b
    ensures -32.0 <= ax + bz <= 32.0
  {
  }

  lemma TimesAtMost(a: real, x: real)
    requires 0.0 <= a && -128.0 <= x <= 128.0
    ensures -(128.0 * a) <= a * x <= 128.0 * a
  {
    Nonnegative(a, 128.0 - x);
    Nonnegative(a, 128.0 + x);
    assert a * (128.0 - x) == 128.0 * a - a * x;
    assert a * (128.0 + x) == 128.0 * a + a * x;
  }

  // ---------------------------------------------------------------- the flattened path

  /** A point of the exact curve. */
  function CurveX(a: Arc, t: real): real {
    Curve(a.from.x as real, a.c1.x as real, a.c2.x as real, a.to.x as real, t)
  }

  function CurveY(a: Arc, t: real): real {
    Curve(a.from.y as real, a.c1.y as real, a.c2.y as real, a.to.y as real, t)
  }

  /** How many times the arc is halved before it is flat. */
  ghost function Depth(a: Arc): nat
    decreases a.Deviation()
  {
    if a.Flat() then 0
    else
      SplitShrinks(a);
      1 + Max(Depth(a.Left()), Depth(a.Right()))
  }

  /** The start of line k of a path. */
  function LineStart(from: Point, points: seq<Point>, k: nat): Point
    requires k < |points|
  {
    if k == 0 then from else points[k - 1]
  }

  predicate Close(p: real, q: real, e: nat) {
    -(e as real) <= p - q <= e as real
  }

  /** The point at parameter s of line k is within e of (x, y) in both coordinates. */
  ghost predicate OnLine(from: Point, points: seq<Point>, k: nat, s: real, x: real, y: real, e: nat) {
    && k < |points| && 0.0 <= s <= 1.0
    && Close(x, Blend(LineStart(from, points, k).x as real, points[k].x as real, s), e)
    && Close(y, Blend(LineStart(from, points, k).y as real, points[k].y as real, s), e)
  }

  /** The flatness test in one coordinate. */
  lemma FlatAxis(to: int, c2: int, c1: int, from: int, t: real)
    requires 0.0 <= t <= 1.0 && AxisDeviation(Axis(to, c2, c1, from)) <= ONE_PIXEL / 2
    ensures Close(Curve(from as real, c1 as real, c2 as real, to as real, t), Blend(from as real, to as real, t), 32)
  {
    hide Curve, Blend;
    assert (3 * c2 - from - 2 * to) as real == 3.0 * c2 as real - from as real - 2.0 * to as real;
    assert (3 * c1 - 2 * from - to) as real == 3.0 * c1 as real - 2.0 * from as real - to as real;
    FlatClose(from as real, c1 as real, c2 as real, to as real, t);
  }

  /** Rounding the halves lowers their curves by no more than one. */
  lemma HalvesClose(to: int, c2: int, c1: int, from: int, t: real)
    requires 0.0 <= t <= 1.0
    ensures var (right, left) := SplitAxis(to, c2, c1, from);
            && Close(Curve(from as real, c1 as real, c2 as real, to as real, t / 2.0),
                      Curve(left.from as real, left.c1 as real, left.c2 as real, left.to as real, t), 1)
            && Close(Curve(from as real, c1 as real, c2 as real, to as real, (1.0 + t) / 2.0),
                      Curve(right.from as real, right.c1 as real, right.c2 as real, right.to as real, t), 1)
  {
    hide Curve;
    SplitRounding(to, c2, c1, from);
    var (right, left) := SplitAxis(to, c2, c1, from);
    var p0, p1, p2, p3 := from as real, c1 as real, c2 as real, to as real;
    hide SplitAxis;
    LeftHalf(p0, p1, p2, p3, t);
    RightHalf(p0, p1, p2, p3, t);
    var mid := (p0 + 3.0 * p1 + 3.0 * p2 + p3) / 8.0;
    CurvesClose(p0, (p0 + p1) / 2.0, (p0 + 2.0 * p1 + p2) / 4.0, mid,
      from as real, left.c1 as real, left.c2 as real, left.to as real, t);
    CurvesClose(mid, (p1 + 2.0 * p2 + p3) / 4.0, (p2 + p3) / 2.0, p3,
      right.from as real, right.c1 as real, right.c2 as real, to as real, t);
  }

  lemma ArcHalvesClose(a: Arc, t: real)
    requires 0.0 <= t <= 1.0
    ensures Close(CurveX(a, t / 2.0), CurveX(a.Left(), t), 1) && Close(CurveY(a, t / 2.0), CurveY(a.Left(), t), 1)
    ensures Close(CurveX(a, (1.0 + t) / 2.0), CurveX(a.Right(), t), 1)
    ensures Close(CurveY(a, (1.0 + t) / 2.0), CurveY(a.Right(), t), 1)
  {
    hide Curve, SplitAxis, Close;
    HalvesClose(a.to.x, a.c2.x, a.c1.x, a.from.x, t);
    HalvesClose(a.to.y, a.c2.y, a.c1.y, a.from.y, t);
  }

  lemma CloseSum(p: real, q: real, r: real, e: nat, g: nat, h: nat)
    requires Close(p, q, e) && Close(q, r, g) && e + g <= h
    ensures Close(p, r, h)
  {
  }

  /** The lines of a path that is made of two. */
  lemma JoinedLines(from: Point, first: seq<Point>, second: seq<Point>, k: nat)
    requires first != []
    ensures k < |first| ==>
      (first + second)[k] == first[k] && LineStart(from, first + second, k) == LineStart(from, first, k)
    ensures k < |second| ==>
      && (first + second)[|first| + k] == second[k]
      && LineStart(from, first + second, |first| + k) == LineStart(first[|first| - 1], second, k)
  {
  }

  /** The same line as part of a longer path, and a point that is off by one. */
  lemma SameLine(from: Point, points: seq<Point>, k: nat, from': Point, points': seq<Point>, k': nat, s: real,
                 x: real, y: real, x': real, y': real, e: nat, e': nat)
    requires OnLine(from, points, k, s, x, y, e) && Close(x', x, 1) && Close(y', y, 1) && e + 1 <= e'
    requires k' < |points'| && points'[k'] == points[k] && LineStart(from', points', k') == LineStart(from, points, k)
    ensures OnLine(from', points', k', s, x', y', e')
  {
    hide Blend, Close;
    var p, q := LineStart(from, points, k), points[k];
    CloseSum(x', x, Blend(p.x as real, q.x as real, s), 1, e, e');
    CloseSum(y', y, Blend(p.y as real, q.y as real, s), 1, e, e');
  }

  lemma PathOfHalves(a: Arc)
    requires !a.Flat()
    ensures CubicPoints(a) == CubicPoints(a.Left()) + CubicPoints(a.Right())
    ensures CubicPoints(a.Left()) != [] && CubicPoints(a.Left())[|CubicPoints(a.Left())| - 1] == a.Left().to
  {
    hide SplitAxis, AxisDeviation;
  }

  lemma LeftLine(a: Arc, k: nat, s: real, t: real, g: nat)
    requires !a.Flat() && 0.0 <= t <= 1.0 && g < Depth(a)
    requires OnLine(a.Left().from, CubicPoints(a.Left()), k, s, CurveX(a.Left(), t), CurveY(a.Left(), t), 32 + g)
    ensures OnLine(a.from, CubicPoints(a), k, s, CurveX(a, t / 2.0), CurveY(a, t / 2.0), 32 + Depth(a))
  {
    hide Curve, Blend, SplitAxis, AxisDeviation, Close, CurveX, CurveY, OnLine, LineStart, Depth, CubicPoints;
    SplitJoins(a);
    ArcHalvesClose(a, t);
    PathOfHalves(a);
    JoinedLines(a.from, CubicPoints(a.Left()), CubicPoints(a.Right()), k);
    ShortPath(CubicPoints(a.Left()), k, a.Left(), s, t, 32 + g);
    SameLine(a.Left().from, CubicPoints(a.Left()), k, a.from, CubicPoints(a), k, s,
      CurveX(a.Left(), t), CurveY(a.Left(), t), CurveX(a, t / 2.0), CurveY(a, t / 2.0), 32 + g, 32 + Depth(a));
  }

  lemma ShortPath(points: seq<Point>, k: nat, a: Arc, s: real, t: real, e: nat)
    requires OnLine(a.from, points, k, s, CurveX(a, t), CurveY(a, t), e)
    ensures k < |points|
  {
  }

  lemma RightLine(a: Arc, k: nat, s: real, t: real, g: nat)
    requires !a.Flat() && 0.0 <= t <= 1.0 && g < Depth(a)
    requires OnLine(a.Right().from, CubicPoints(a.Right()), k, s, CurveX(a.Right(), t), CurveY(a.Right(), t), 32 + g)
    ensures OnLine(a.from, CubicPoints(a), |CubicPoints(a.Left())| + k, s,
                   CurveX(a, (1.0 + t) / 2.0), CurveY(a, (1.0 + t) / 2.0), 32 + Depth(a))
  {
    hide Curve, Blend, SplitAxis, AxisDeviation, Close, CurveX, CurveY, OnLine, LineStart, Depth, CubicPoints;
    SplitJoins(a);
    ArcHalvesClose(a, t);
    PathOfHalves(a);
    JoinedLines(a.from, CubicPoints(a.Left()), CubicPoints(a.Right()), k);
    ShortPath(CubicPoints(a.Right()), k, a.Right(), s, t, 32 + g);
    var u := (1.0 + t) / 2.0;
    SameLine(a.Right().from, CubicPoints(a.Right()), k, a.from, CubicPoints(a), |CubicPoints(a.Left())| + k, s,
      CurveX(a.Right(), t), CurveY(a.Right(), t), CurveX(a, u), CurveY(a, u), 32 + g, 32 + Depth(a));
  }

  lemma FlatLine(a: Arc, t: real)
    requires a.Flat() && 0.0 <= t <= 1.0
    ensures OnLine(a.from, CubicPoints(a), 0, t, CurveX(a, t), CurveY(a, t), 32 + Depth(a))
  {
    hide Curve, Blend, SplitAxis, AxisDeviation;
    FlatAxis(a.to.x, a.c2.x, a.c1.x, a.from.x, t);
    FlatAxis(a.to.y, a.c2.y, a.c1.y, a.from.y, t);
  }

  /** No part of the curve is missed: every point of it is near the drawn lines, within an eighth of a
      pixel and 1/256 more for every halving. */
  lemma {:induction false} CurveNearLines(a: Arc, t: real) returns (k: nat, s: real)
    requires 0.0 <= t <= 1.0
    ensures OnLine(a.from, CubicPoints(a), k, s, CurveX(a, t), CurveY(a, t), 32 + Depth(a))
    decreases a.Deviation()
  {
    hide OnLine, CurveX, CurveY, SplitAxis, AxisDeviation, CubicPoints;
    if a.Flat() {
      k, s := 0, t;
      FlatLine(a, t);
    } else {
      SplitShrinks(a);
      if t <= 0.5 {
        k, s := CurveNearLines(a.Left(), 2.0 * t);
        LeftLine(a, k, s, 2.0 * t, Depth(a.Left()));
        assert 2.0 * t / 2.0 == t;
      } else {
        k, s := CurveNearLines(a.Right(), 2.0 * t - 1.0);
        RightLine(a, k, s, 2.0 * t - 1.0, Depth(a.Right()));
        k := |CubicPoints(a.Left())| + k;
        assert (1.0 + (2.0 * t - 1.0)) / 2.0 == t;
      }
    }
  }

  /** Nothing else is drawn: every point of the drawn lines is as near to the curve. */
  lemma {:induction false} LinesNearCurve(a: Arc, k: nat, s: real) returns (t: real)
    requires k < |CubicPoints(a)| && 0.0 <= s <= 1.0
    ensures 0.0 <= t <= 1.0
    ensures OnLine(a.from, CubicPoints(a), k, s, CurveX(a, t), CurveY(a, t), 32 + Depth(a))
    decreases a.Deviation()
  {
    hide OnLine, CurveX, CurveY, SplitAxis, AxisDeviation;
    if a.Flat() {
      t := s;
      FlatLine(a, s);
    } else {
      SplitShrinks(a);
      var n := |CubicPoints(a.Left())|;
      if k < n {
        t := LinesNearCurve(a.Left(), k, s);
        LeftLine(a, k, s, t, Depth(a.Left()));
        t := t / 2.0;
      } else {
        t := LinesNearCurve(a.Right(), k - n, s);
        RightLine(a, k - n, s, t, Depth(a.Right()));
        t := (1.0 + t) / 2.0;
      }
    }
  }

  /** Every halving halves what the deviation is above six: the deviation bounds their number. */
  lemma {:induction false} DepthBounded(a: Arc, n: nat)
    requires a.Deviation() <= 122 * Pow2(n) + 6
    ensures Depth(a) <= n
    decreases n
  {
    hide SplitAxis, AxisDeviation;
    if n == 0 {
      assert Pow2(0) == 1;
      assert a.Flat();
    } else if !a.Flat() {
      SplitShrinks(a);
      DepthBounded(a.Left(), n - 1);
      DepthBounded(a.Right(), n - 1);
    }
  }

  /** For arcs of up to 2^18 subpixels, a thousand pixels, the path is within 45/256 pixel. */
  lemma SmallDepth(a: Arc, low: int, high: int)
    requires high - low <= 0x4_0000
    requires low <= a.from.x <= high && low <= a.c1.x <= high && low <= a.c2.x <= high && low <= a.to.x <= high
    requires low <= a.from.y <= high && low <= a.c1.y <= high && low <= a.c2.y <= high && low <= a.to.y <= high
    ensures Depth(a) <= 13
  {
    assert Pow2(13) == 0x2000 by { assert Pow2(7) == 128; Pow2Sum(7, 6); }
    hide Pow2;
    DepthBounded(a, 13);
  }
}
