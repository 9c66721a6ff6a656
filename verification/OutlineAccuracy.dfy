/** How close the drawn path of an outline is to its exact lines and curves, in coordinates. */
module OutlineAccuracy {
  import opened Ints
  import opened Segments
  import opened LineWalk
  import opened Curves
  import opened Cubics
  import opened Contours
  import opened CubicAccuracy

  // ---------------------------------------------------------------- conics

  /** The quadratic Bezier polynomial. */
  function Conic(p0: real, p1: real, p2: real, t: real): real {
    var u := 1.0 - t;
    u * u * p0 + 2.0 * (u * t) * p1 + t * t * p2
  }

  function Parabola(p: real, b: real, a: real, t: real): real {
    p + b * t + a * (t * t)
  }

  lemma ConicPowers(p0: real, p1: real, p2: real, t: real)
    ensures Conic(p0, p1, p2, t) == Parabola(p0, 2.0 * (p1 - p0), p2 - 2.0 * p1 + p0, t)
  {
    var u, t2 := 1.0 - t, t * t;
    assert u * u == 1.0 - 2.0 * t + t2;
    assert u * t == t - t2;
    ConicTerms(p0, p1, p2, t, t2);
  }

  lemma ConicTerms(p0: real, p1: real, p2: real, t: real, t2: real)
    ensures (1.0 - 2.0 * t + t2) * p0 + 2.0 * (t - t2) * p1 + t2 * p2
         == p0 + 2.0 * (p1 - p0) * t + (p2 - 2.0 * p1 + p0) * t2
  {
  }

  /** Where a piece of a parabola leaves its chord. */
  lemma PieceDistance(p: real, b: real, a: real, t: real, d: real, s: real)
    ensures var v := t + s * d;
            Blend(Parabola(p, b, a, t), Parabola(p, b, a, t + d), s) - Parabola(p, b, a, v)
            == a * (d * d) * (s * (1.0 - s))
  {
    var v, t2, td, d2 := t + s * d, t * t, t * d, d * d;
    assert (t + d) * (t + d) == t2 + 2.0 * td + d2;
    assert v * v == t2 + 2.0 * (s * td) + s * s * d2 by { SquareOfSum(t, s, d); }
    PieceTerms(p, b, a, t, d, s, t2, td, d2);
  }

  lemma SquareOfSum(t: real, s: real, d: real)
    ensures (t + s * d) * (t + s * d) == t * t + 2.0 * (s * (t * d)) + s * s * (d * d)
  {
    var e := s * d;
    assert (t + e) * (t + e) == t * t + 2.0 * (t * e) + e * e;
    assert t * e == s * (t * d);
    assert e * e == s * s * (d * d);
  }

  lemma PieceTerms(p: real, b: real, a: real, t: real, d: real, s: real, t2: real, td: real, d2: real)
    ensures (1.0 - s) * (p + b * t + a * t2) + s * (p + b * (t + d) + a * (t2 + 2.0 * td + d2))
          - (p + b * (t + s * d) + a * (t2 + 2.0 * (s * td) + s * s * d2)) == a * d2 * (s * (1.0 - s))
  {
    assert s * (p + b * (t + d) + a * (t2 + 2.0 * td + d2)) - s * (p + b * t + a * t2)
      == s * (b * d) + s * (a * (2.0 * td + d2));
    assert b * (t + s * d) == b * t + s * (b * d);
    assert a * (t2 + 2.0 * (s * td) + s * s * d2) == a * t2 + s * (a * (2.0 * td)) + a * (s * s * d2);
    assert s * (a * (2.0 * td + d2)) == s * (a * (2.0 * td)) + s * (a * d2);
    assert a * d2 * (s * (1.0 - s)) == s * (a * d2) - a * (s * s * d2);
  }

  /** The quotient of two numbers, and their rounded down quotient. */
  lemma FloorClose(v: int, m: nat, q: real)
    requires 0 < m && q * m as real == v as real
    ensures (v / m) as real <= q <= (v / m) as real + 1.0
  {
    var f, r := v / m, m as real;
    assert v == f * m + v % m;
    assert (f * m) as real <= v as real <= (f * m + m) as real;
    assert (f * m) as real == f as real * r by { ProductAsReal(f, m); }
    CancelReal(r, f as real, q);
    CancelReal(r, q, f as real + 1.0);
    assert (f as real + 1.0) * r == f as real * r + r;
  }

  lemma ProductAsReal(a: int, b: int)
    ensures (a * b) as real == a as real * b as real
  {
  }

  lemma CancelReal(k: real, u: real, v: real)
    requires 0.0 < k && u * k <= v * k
    ensures u <= v
  {
    if v < u {
      MulStrictReal(v, u, k);
    }
  }

  lemma MulStrictReal(x: real, y: real, k: real)
    requires x < y && 0.0 < k
    ensures x * k < y * k
  {
  }

  /** The exact value at step i, scaled. */
  lemma ScaledValue(p0: int, p1: int, p2: int, n: nat, i: nat, t: real)
    requires 0 < n && t * n as real == i as real
    ensures Conic(p0 as real, p1 as real, p2 as real, t) * (n * n) as real == Bezier2(p0, p1, p2, n, i) as real
  {
    BezierPower(p0, p1, p2, n, i);
    ConicPowers(p0 as real, p1 as real, p2 as real, t);
    hide Conic, Bezier2;
    var a, b, r := p2 - p1 - (p1 - p0), 2 * (p1 - p0), n as real;
    ProductAsReal(n, n);
    ProductAsReal(n, i);
    ProductAsReal(i, i);
    ProductAsReal(p0, n * n);
    ProductAsReal(b, n * i);
    ProductAsReal(a, i * i);
    assert t * (r * r) == r * i as real;
    assert t * t * (r * r) == i as real * i as real by { assert t * t * (r * r) == t * r * (t * r); }
    ThreeTerms(p0 as real, b as real, a as real, t, t * t, r * r);
  }

  lemma ThreeTerms(p: real, b: real, a: real, t: real, t2: real, m: real)
    ensures (p + b * t + a * t2) * m == p * m + b * (t * m) + a * (t2 * m)
  {
  }

  lemma ValueClose(p0: int, p1: int, p2: int, n: nat, i: nat, t: real)
    requires 0 < n && i <= n && t * n as real == i as real && Is32(p0) && Is32(p1) && Is32(p2)
    ensures var v := ConicValue(p0, p1, p2, n, i) as real;
            v <= Conic(p0 as real, p1 as real, p2 as real, t) <= v + 1.0
  {
    ConicValueExact(p0, p1, p2, n, i);
    ScaledValue(p0, p1, p2, n, i, t);
    MulStrict(0, n, n);
    hide Conic, Bezier2, ConicValue;
    FloorClose(Bezier2(p0, p1, p2, n, i), n * n, Conic(p0 as real, p1 as real, p2 as real, t));
  }

  /** Between two steps the curve strays from its chord by at most 65/4. */
  lemma PieceClose(p: real, b: real, a: real, t: real, d: real, s: real)
    requires 0.0 <= s <= 1.0 && -65.0 <= a * (d * d) <= 65.0
    ensures var v := t + s * d;
            -17.0 <= Blend(Parabola(p, b, a, t), Parabola(p, b, a, t + d), s) - Parabola(p, b, a, v) <= 17.0
  {
    PieceDistance(p, b, a, t, d, s);
    hide Parabola;
    WeightProduct(s);
    Nonnegative(s, 1.0 - s);
    hide Blend;
    SmallPart(a * (d * d), s * (1.0 - s));
    assert s * (1.0 - s) == (1.0 - s) * s;
  }

  lemma SmallPart(x: real, y: real)
    requires -65.0 <= x <= 65.0 && 0.0 <= y <= 0.25
    ensures -17.0 <= x * y <= 17.0
  {
    Nonnegative(65.0 - x, y);
    Nonnegative(65.0 + x, y);
    assert (65.0 - x) * y == 65.0 * y - x * y;
    assert (65.0 + x) * y == 65.0 * y + x * y;
    PartOf(x * y, y);
  }

  lemma PartOf(xy: real, y: real)
    requires y <= 0.25 && -(65.0 * y) <= xy <= 65.0 * y
    ensures -17.0 <= xy <= 17.0
  {
  }

  lemma SmallStep(a: int, n: nat, d: real)
    requires 0 < n && d * n as real == 1.0 && Abs(a) <= 65 * (n * n)
    ensures -65.0 <= a as real * (d * d) <= 65.0
  {
    var r := n as real;
    ProductAsReal(n, n);
    assert (d * d) * (r * r) == d * r * (d * r) == 1.0;
    SquareNonnegative(d);
    Nonnegative(d * d, 65.0 * (r * r) - a as real);
    Nonnegative(d * d, 65.0 * (r * r) + a as real);
    assert (d * d) * (65.0 * (r * r) - a as real) == 65.0 * ((d * d) * (r * r)) - a as real * (d * d);
    assert (d * d) * (65.0 * (r * r) + a as real) == 65.0 * ((d * d) * (r * r)) + a as real * (d * d);
  }

  lemma BlendClose(p: real, q: real, v: real, w: real, s: real)
    requires 0.0 <= s <= 1.0 && v <= p <= v + 1.0 && w <= q <= w + 1.0
    ensures Blend(v, w, s) <= Blend(p, q, s) <= Blend(v, w, s) + 1.0
  {
    Nonnegative(1.0 - s, p - v);
    Nonnegative(1.0 - s, v + 1.0 - p);
    Nonnegative(s, q - w);
    Nonnegative(s, w + 1.0 - q);
    assert Blend(p, q, s) - Blend(v, w, s) == (1.0 - s) * (p - v) + s * (q - w);
    assert Blend(v, w, s) + 1.0 - Blend(p, q, s) == (1.0 - s) * (v + 1.0 - p) + s * (w + 1.0 - q);
  }

  lemma CurvePiece(p0: real, p1: real, p2: real, t: real, d: real, s: real, v: real)
    requires 0.0 <= s <= 1.0 && -65.0 <= (p2 - 2.0 * p1 + p0) * (d * d) <= 65.0 && v == t + s * d
    ensures -17.0 <= Blend(Conic(p0, p1, p2, t), Conic(p0, p1, p2, t + d), s) - Conic(p0, p1, p2, v) <= 17.0
  {
    hide Conic, Blend, Parabola;
    ConicPowers(p0, p1, p2, t);
    ConicPowers(p0, p1, p2, t + d);
    ConicPowers(p0, p1, p2, v);
    PieceClose(p0, 2.0 * (p1 - p0), p2 - 2.0 * p1 + p0, t, d, s);
  }

  /** One coordinate of the way from step k to the next. */
  lemma ConicPiece(p0: int, p1: int, p2: int, n: nat, k: nat, s: real, v: real)
    requires 0 < n && k < n && Is32(p0) && Is32(p1) && Is32(p2) && Abs(p2 - p1 - (p1 - p0)) <= 65 * (n * n)
    requires 0.0 <= s <= 1.0 && v * n as real == k as real + s
    ensures Close(Conic(p0 as real, p1 as real, p2 as real, v),
                  Blend(ConicValue(p0, p1, p2, n, k) as real, ConicValue(p0, p1, p2, n, k + 1) as real, s), 18)
  {
    hide Conic, ConicValue, Blend, Bezier2, Abs, Wrap32;
    var d := 1.0 / n as real;
    var t := k as real * d;
    StepTimes(n as real, d, t, s, v, k as real);
    SmallStep(p2 - p1 - (p1 - p0), n, d);
    assert (p2 - p1 - (p1 - p0)) as real == p2 as real - 2.0 * p1 as real + p0 as real;
    CurvePiece(p0 as real, p1 as real, p2 as real, t, d, s, v);
    EndsClose(p0, p1, p2, n, k, t, t + d, s);
  }

  lemma EndsClose(p0: int, p1: int, p2: int, n: nat, k: nat, t: real, next: real, s: real)
    requires 0 < n && k < n && Is32(p0) && Is32(p1) && Is32(p2) && 0.0 <= s <= 1.0
    requires t * n as real == k as real && next * n as real == k as real + 1.0
    ensures var a := Blend(ConicValue(p0, p1, p2, n, k) as real, ConicValue(p0, p1, p2, n, k + 1) as real, s);
            var b := Blend(Conic(p0 as real, p1 as real, p2 as real, t),
                           Conic(p0 as real, p1 as real, p2 as real, next), s);
            a <= b <= a + 1.0
  {
    hide Conic, ConicValue, Blend, Bezier2, Wrap32;
    assert (k + 1) as real == k as real + 1.0;
    ValueClose(p0, p1, p2, n, k, t);
    ValueClose(p0, p1, p2, n, k + 1, next);
    BlendClose(Conic(p0 as real, p1 as real, p2 as real, t), Conic(p0 as real, p1 as real, p2 as real, next),
      ConicValue(p0, p1, p2, n, k) as real, ConicValue(p0, p1, p2, n, k + 1) as real, s);
  }

  lemma StepTimes(r: real, d: real, t: real, s: real, v: real, k: real)
    requires 0.0 < r && d == 1.0 / r && t == k * d && v * r == k + s
    ensures d * r == 1.0 && t * r == k && (t + d) * r == k + 1.0 && v == t + s * d
  {
    assert d * r == 1.0;
    assert k * d * r == k * (d * r);
    assert v * r * d == v * (r * d);
    assert (k + s) * d == k * d + s * d;
  }

  /** The drawn points, the flat case included, are the values at n equal steps. */
  lemma ConicSteppedPoints(p0: Point, p1: Point, p2: Point, k: nat)
    requires Fits32(p0) && Fits32(p1) && Fits32(p2) && k < |ConicPoints(p0, p1, p2)|
    ensures var points, n := ConicPoints(p0, p1, p2), |ConicPoints(p0, p1, p2)|;
            && LineStart(p0, points, k) == ConicPoint(p0, p1, p2, n, k) && points[k] == ConicPoint(p0, p1, p2, n, k + 1)
            && Abs(p2.x - p1.x - (p1.x - p0.x)) <= 65 * (n * n) && Abs(p2.y - p1.y - (p1.y - p0.y)) <= 65 * (n * n)
  {
    hide ConicValue, ConicSteps;
    var n := |ConicPoints(p0, p1, p2)|;
    FirstValue(p0.x, p1.x, p2.x, n);
    FirstValue(p0.y, p1.y, p2.y, n);
    if ConicDeviation(p0, p1, p2) > ONE_PIXEL / 4 {
      ConicStepFlat(p0, p1, p2);
    } else {
      ConicValueExact(p0.x, p1.x, p2.x, 1, 1);
      ConicValueExact(p0.y, p1.y, p2.y, 1, 1);
    }
  }

  lemma FirstValue(p0: int, p1: int, p2: int, n: nat)
    requires 0 < n && Is32(p0) && Is32(p1) && Is32(p2)
    ensures ConicValue(p0, p1, p2, n, 0) == p0
  {
    ConicValueExact(p0, p1, p2, n, 0);
    BezierStep(p0, p1, p2, n, 0);
    hide ConicValue, Bezier2;
    DivExact(p0, n * n);
  }

  /** The points of a drawn conic: step k, s of the way to the next, at parameter (k + s) / n. */
  lemma ConicLine(p0: Point, p1: Point, p2: Point, k: nat, s: real, t: real)
    requires Fits32(p0) && Fits32(p1) && Fits32(p2) && k < |ConicPoints(p0, p1, p2)|
    requires 0.0 <= s <= 1.0 && t * |ConicPoints(p0, p1, p2)| as real == k as real + s
    ensures OnLine(p0, ConicPoints(p0, p1, p2), k, s,
                   Conic(p0.x as real, p1.x as real, p2.x as real, t),
                   Conic(p0.y as real, p1.y as real, p2.y as real, t), 18)
  {
    hide Conic, ConicValue, Blend, ConicPoints, ConicSteps, Close, LineStart;
    var n := |ConicPoints(p0, p1, p2)|;
    ConicSteppedPoints(p0, p1, p2, k);
    ConicPiece(p0.x, p1.x, p2.x, n, k, s, t);
    ConicPiece(p0.y, p1.y, p2.y, n, k, s, t);
  }

  /** Which step a parameter belongs to. */
  lemma StepOf(t: real, n: nat) returns (k: nat, s: real)
    requires 0.0 <= t <= 1.0 && 0 < n
    ensures k < n && 0.0 <= s <= 1.0 && t * n as real == k as real + s
  {
    var v := t * n as real;
    Nonnegative(t, n as real);
    Nonnegative(1.0 - t, n as real);
    assert (1.0 - t) * n as real == n as real - v;
    k := if v.Floor < n then v.Floor else n - 1;
    s := v - k as real;
  }

  lemma ParameterOf(k: nat, s: real, n: nat) returns (t: real)
    requires k < n && 0.0 <= s <= 1.0
    ensures 0.0 <= t <= 1.0 && t * n as real == k as real + s
  {
    var r := n as real;
    t := (k as real + s) / r;
    assert t * r == k as real + s;
    CancelReal(r, 0.0, t);
    CancelReal(r, t, 1.0);
  }

  // ---------------------------------------------------------------- the commands of an outline

  /** A translated 26.6 coordinate in subpixels. */
  function Subpixels(v: int, d: int): real {
    4.0 * (v + d) as real
  }

  /** One coordinate of the line or curve that a command stands for, from `here` on. */
  function ExactX(c: Command, here: Point, dx: int, t: real): real {
    match c
    case LineCmd(to) => Blend(here.x as real, Subpixels(to.x, dx), t)
    case ConicCmd(c1, to, _) => Conic(here.x as real, Subpixels(c1.x, dx), Subpixels(to.x, dx), t)
    case CubicCmd(c1, c2, to) =>
      Curve(here.x as real, Subpixels(c1.x, dx), Subpixels(c2.x, dx), Subpixels(to.x, dx), t)
  }

  function ExactY(c: Command, here: Point, dy: int, t: real): real {
    match c
    case LineCmd(to) => Blend(here.y as real, Subpixels(to.y, dy), t)
    case ConicCmd(c1, to, _) => Conic(here.y as real, Subpixels(c1.y, dy), Subpixels(to.y, dy), t)
    case CubicCmd(c1, c2, to) =>
      Curve(here.y as real, Subpixels(c1.y, dy), Subpixels(c2.y, dy), Subpixels(to.y, dy), t)
  }

  ghost function ArcOf(c: Command, here: Point, off: Vec): Arc
    requires c.CubicCmd?
  {
    Arc(Placed(c.to, off), Placed(c.c2, off), Placed(c.c1, off), here)
  }

  /** How far the drawn path may be from the exact line or curve, in 1/256 pixel. */
  ghost function Tolerance(c: Command, here: Point, off: Vec): nat {
    match c
    case LineCmd(_) => 0
    case ConicCmd(_, _, _) => 18
    case CubicCmd(_, _, _) => 32 + Depth(ArcOf(c, here, off))
  }

  /** Conics in 32-bit subpixels that are not skipped as a whole. */
  ghost predicate Drawn(c: Command, here: Point, off: Vec, low: int, high: int) {
    c.ConicCmd? ==>
      && Fits32(here) && Fits32(Placed(c.c, off)) && Fits32(Placed(c.to, off))
      && !OffBand([here.y, Placed(c.c, off).y, Placed(c.to, off).y], low, high)
  }

  lemma PlacedSubpixels(v: Vec, off: Vec)
    ensures Placed(v, off).x as real == Subpixels(v.x, off.x) && Placed(v, off).y as real == Subpixels(v.y, off.y)
  {
  }

  lemma LineExact(c: Command, here: Point, off: Vec, low: int, high: int, t: real)
    requires IsPosition(here) && CommandFits(c, off) && c.LineCmd? && 0.0 <= t <= 1.0
    ensures OnLine(here, CommandPoints(c, here, off, low, high), 0, t, ExactX(c, here, off.x, t),
                   ExactY(c, here, off.y, t), 0)
  {
    hide Placed, Subpixels, Blend;
    PlacedSubpixels(c.to, off);
  }

  lemma ConicExact(c: Command, here: Point, off: Vec, low: int, high: int, k: nat, s: real, t: real)
    requires IsPosition(here) && CommandFits(c, off) && c.ConicCmd? && Drawn(c, here, off, low, high)
    requires k < |CommandPoints(c, here, off, low, high)| && 0.0 <= s <= 1.0
    requires t * |CommandPoints(c, here, off, low, high)| as real == k as real + s
    ensures
      OnLine(here, CommandPoints(c, here, off, low, high), k, s, ExactX(c, here, off.x, t), ExactY(c, here, off.y, t),
             18)
  {
    hide Placed, Subpixels, Blend, Conic, ConicPoints, OnLine, OffBand, Fits32;
    PlacedSubpixels(c.c, off);
    PlacedSubpixels(c.to, off);
    ConicLine(here, Placed(c.c, off), Placed(c.to, off), k, s, t);
  }

  lemma CubicExact(c: Command, here: Point, off: Vec, low: int, high: int, t: real)
    requires IsPosition(here) && CommandFits(c, off) && c.CubicCmd?
    ensures var a := ArcOf(c, here, off);
            && a.from == here && CommandPoints(c, here, off, low, high) == CubicPoints(a)
            && ExactX(c, here, off.x, t) == CurveX(a, t) && ExactY(c, here, off.y, t) == CurveY(a, t)
  {
    hide Placed, Subpixels, Curve, CubicPoints;
    PlacedSubpixels(c.c1, off);
    PlacedSubpixels(c.c2, off);
    PlacedSubpixels(c.to, off);
  }

  /** Nothing of the outline is missed: every point of the exact line or curve that a command stands for,
      in the coordinates of the outline's own points, is near a drawn line. */
  lemma OutlineNearPath(c: Command, here: Point, off: Vec, low: int, high: int, t: real) returns (k: nat, s: real)
    requires IsPosition(here) && CommandFits(c, off) && Drawn(c, here, off, low, high) && 0.0 <= t <= 1.0
    ensures OnLine(here, CommandPoints(c, here, off, low, high), k, s,
                   ExactX(c, here, off.x, t), ExactY(c, here, off.y, t), Tolerance(c, here, off))
  {
    hide OnLine, CommandPoints, ExactX, ExactY, ArcOf, Drawn, CurveX, CurveY, CubicPoints, Depth;
    if c.LineCmd? {
      k, s := 0, t;
      LineExact(c, here, off, low, high, t);
    } else if c.ConicCmd? {
      k, s := StepOf(t, |CommandPoints(c, here, off, low, high)|);
      ConicExact(c, here, off, low, high, k, s, t);
    } else {
      k, s := CurveNearLines(ArcOf(c, here, off), t);
      CubicExact(c, here, off, low, high, t);
    }
  }

  /** Nothing else is drawn: every point of every drawn line is as near to the outline. */
  lemma PathNearOutline(c: Command, here: Point, off: Vec, low: int, high: int, k: nat, s: real) returns (t: real)
    requires IsPosition(here) && CommandFits(c, off) && Drawn(c, here, off, low, high)
    requires k < |CommandPoints(c, here, off, low, high)| && 0.0 <= s <= 1.0
    ensures 0.0 <= t <= 1.0
    ensures OnLine(here, CommandPoints(c, here, off, low, high), k, s,
                   ExactX(c, here, off.x, t), ExactY(c, here, off.y, t), Tolerance(c, here, off))
  {
    hide OnLine, ExactX, ExactY, ArcOf, Drawn, CurveX, CurveY, CubicPoints, Depth, DrawnConic, Placed;
    if c.LineCmd? {
      t := s;
      LineExact(c, here, off, low, high, t);
    } else if c.ConicCmd? {
      t := ParameterOf(k, s, |CommandPoints(c, here, off, low, high)|);
      ConicExact(c, here, off, low, high, k, s, t);
    } else {
      CubicExact(c, here, off, low, high, s);
      t := LinesNearCurve(ArcOf(c, here, off), k, s);
      CubicExact(c, here, off, low, high, t);
    }
  }
}
