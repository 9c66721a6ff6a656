/** Flattening of conics by forward differences. */
module Curves {
  import opened Ints
  import opened Segments
  import opened LineWalk

  // ---------------------------------------------------------------- powers and wrapping

  /** `left_shift` of the conic loop. */
  function ShiftLeft64(a: int, bits: nat): int {
    Wrap64(a * Pow2(bits))
  }

  lemma Wrap64Add(a: int, b: int)
    ensures Wrap64(Wrap64(a) + Wrap64(b)) == Wrap64(a + b)
  {
  }

  lemma Wrap64Double(a: int)
    ensures Wrap64(Wrap64(a) * 2) == Wrap64(a * 2)
  {
    Wrap64Add(a, a);
  }

  /** The high half of a wrapped 64-bit value is the wrapped high half. */
  lemma Wrap64High(v: int)
    ensures Wrap64(v) / TWO_32 == Wrap32(v / TWO_32)
  {
  }

  // ---------------------------------------------------------------- conics

  /** Iterations of the loop that divides the deviation by four until it is at most 64. */
  function Halvings(d: nat): nat {
    if d / 4 <= ONE_PIXEL / 4 then 1 else 1 + Halvings(d / 4)
  }

  /** The number of halvings is the least that makes the second difference of a step small. */
  lemma {:induction false} HalvingsLeast(d: nat)
    requires ONE_PIXEL / 4 < d
    ensures var k := Halvings(d);
            d < 65 * Pow2(2 * k) && 65 * Pow2(2 * k - 2) <= d
  {
    var k := Halvings(d);
    assert Pow2(2) == 4;
    Pow2Sum(2, 2 * k - 2);
    if d / 4 > ONE_PIXEL / 4 {
      HalvingsLeast(d / 4);
      Pow2Sum(2, 2 * (k - 1) - 2);
    } else {
      assert k == 1;
    }
  }

  lemma {:induction false} HalvingsBound(d: nat, k: nat)
    requires 1 <= k && d <= 64 * Pow2(2 * k)
    ensures Halvings(d) <= k
  {
    assert Pow2(2) == 4;
    Pow2Sum(2, 2 * k - 2);
    if k == 1 {
      assert Pow2(2 * k) == 4;
    } else if d / 4 > ONE_PIXEL / 4 {
      HalvingsBound(d / 4, k - 1);
    }
  }

  /** n^2 times the quadratic Bezier with control values p0, p1, p2 at parameter i / n. */
  function Bezier2(p0: int, p1: int, p2: int, n: int, i: int): int {
    p0 * ((n - i) * (n - i)) + p1 * (2 * i * (n - i)) + p2 * (i * i)
  }

  /** One coordinate of the point that step i draws to. */
  function ConicValue(p0: int, p1: int, p2: int, n: nat, i: nat): int
    requires 0 < n
  {
    Wrap32(Bezier2(p0, p1, p2, n, i) / (n * n))
  }

  function ConicDeviation(p0: Point, p1: Point, p2: Point): nat {
    Max(Abs(p2.x - p1.x - (p1.x - p0.x)), Abs(p2.y - p1.y - (p1.y - p0.y)))
  }

  function ConicSteps(p0: Point, p1: Point, p2: Point): nat {
    Pow2(Halvings(ConicDeviation(p0, p1, p2)))
  }

  function ConicPoint(p0: Point, p1: Point, p2: Point, n: nat, i: nat): Point
    requires 0 < n
  {
    Point(ConicValue(p0.x, p1.x, p2.x, n, i), ConicValue(p0.y, p1.y, p2.y, n, i))
  }

  /** The points that flattening a conic draws lines to. */
  ghost function ConicPoints(p0: Point, p1: Point, p2: Point): seq<Point> {
    if ConicDeviation(p0, p1, p2) <= ONE_PIXEL / 4 then [p2]
    else
      var n := ConicSteps(p0, p1, p2);
      seq(n, i requires 0 <= i < n => ConicPoint(p0, p1, p2, n, i + 1))
  }

  predicate Fits32(p: Point) {
    Is32(p.x) && Is32(p.y)
  }

  /** A step of the forward differences is exact: the sum of the initial second difference and the
      running first difference takes one Bezier value to the next. */
  lemma BezierStep(p0: int, p1: int, p2: int, n: int, i: int)
    ensures Bezier2(p0, p1, p2, n, i + 1)
            == Bezier2(p0, p1, p2, n, i) + 2 * n * (p1 - p0) + (2 * i + 1) * (p2 - p1 - (p1 - p0))
    ensures Bezier2(p0, p1, p2, n, 0) == p0 * (n * n)
    ensures Bezier2(p0, p1, p2, n, n) == p2 * (n * n)
  {
    BezierPower(p0, p1, p2, n, i);
    BezierPower(p0, p1, p2, n, i + 1);
    var a, b := p2 - p1 - (p1 - p0), p1 - p0;
    assert a * ((i + 1) * (i + 1)) == a * (i * i) + (2 * i + 1) * a;
    assert 2 * b * (n * (i + 1)) == 2 * b * (n * i) + 2 * n * b;
  }

  /** The Bernstein form equals the power form. */
  lemma BezierPower(p0: int, p1: int, p2: int, n: int, i: int)
    ensures Bezier2(p0, p1, p2, n, i)
            == p0 * (n * n) + 2 * (p1 - p0) * (n * i) + (p2 - p1 - (p1 - p0)) * (i * i)
  {
    assert (n - i) * (n - i) == n * n - 2 * (n * i) + i * i;
    assert 2 * i * (n - i) == 2 * (n * i) - 2 * (i * i);
    var nn, ni, ii := n * n, n * i, i * i;
    assert p0 * (nn - 2 * ni + ii) == p0 * nn - 2 * p0 * ni + p0 * ii;
    assert p1 * (2 * ni - 2 * ii) == 2 * p1 * ni - 2 * p1 * ii;
    assert 2 * (p1 - p0) * ni == 2 * p1 * ni - 2 * p0 * ni;
    assert (p2 - p1 - (p1 - p0)) * ii == p2 * ii - 2 * p1 * ii + p0 * ii;
  }

  /** Flattened values stay between bounds on the control values. */
  lemma BezierHull(p0: int, p1: int, p2: int, n: int, i: int, low: int, high: int)
    requires 0 < n && 0 <= i <= n
    requires low <= p0 <= high && low <= p1 <= high && low <= p2 <= high
    ensures low <= Bezier2(p0, p1, p2, n, i) / (n * n) <= high
  {
    var w0, w1, w2 := (n - i) * (n - i), 2 * i * (n - i), i * i;
    assert 0 <= w0 && 0 <= w1 && 0 <= w2;
    assert w0 + w1 + w2 == n * n;
    MulMonotone(low, p0, w0);
    MulMonotone(low, p1, w1);
    MulMonotone(low, p2, w2);
    MulMonotone(p0, high, w0);
    MulMonotone(p1, high, w1);
    MulMonotone(p2, high, w2);
    SplitProduct(low, w0, w1, w2);
    SplitProduct(high, w0, w1, w2);
    DivBetween(Bezier2(p0, p1, p2, n, i), n * n, low, high);
  }

  lemma SplitProduct(k: int, a: int, b: int, c: int)
    ensures k * a + k * b + k * c == k * (a + b + c)
  {
  }

  lemma DivBetween(v: int, m: int, low: int, high: int)
    requires 0 < m && low * m <= v <= high * m
    ensures low <= v / m <= high
  {
    var q := v / m;
    assert v == m * q + v % m;
    if q < low {
      MulMonotone(q + 1, low, m);
      assert false;
    }
    if high < q {
      MulMonotone(high + 1, q, m);
      assert false;
    }
  }

  lemma DivExact(v: int, m: int)
    requires 0 < m
    ensures v * m / m == v
  {
    DivBetween(v * m, m, v, v);
  }

  /** A common factor cancels in a floor division. */
  lemma DivCancel(v: int, m: int, d: int)
    requires 0 < m && 0 < d
    ensures (d * v) / (d * m) == v / m
  {
    var q, r := v / m, v % m;
    assert v == m * q + r;
    assert d * v == (d * m) * q + d * r by { assert d * (m * q + r) == (d * m) * q + d * r; }
    MulMonotone(0, r, d);
    MulStrict(r, m, d);
    DivUnique(d * v, d * m, q, d * r);
  }

  /** The forward-difference registers of one axis after i of Pow2(k) steps hold, modulo 2^64, the
      exact Bezier value scaled by 2^32 and its exact first difference. */
  ghost predicate Differences(p0: int, p1: int, p2: int, k: nat, i: nat, px: int, qx: int)
    requires k <= 16
  {
    var n, d := Pow2(k), Pow2(32 - 2 * k);
    && px == Wrap64(d * Bezier2(p0, p1, p2, n, i))
    && qx == Wrap64(d * (2 * n * (p1 - p0) + (2 * i + 1) * (p2 - p1 - (p1 - p0))))
  }

  lemma ScaleIs32Bits(k: nat)
    requires k <= 16
    ensures Pow2(32) == TWO_32
    ensures Pow2(32 - 2 * k) * (Pow2(k) * Pow2(k)) == TWO_32
    ensures Pow2(33 - k) == 2 * (Pow2(k) * Pow2(32 - 2 * k))
  {
    Pow2Sum(k, k);
    Pow2Sum(32 - 2 * k, 2 * k);
    Pow2Sum(k, 32 - 2 * k);
    Pow2Sum(1, 32 - k);
    assert Pow2(1) == 2;
    Pow2Of32();
  }

  /** The registers as the source sets them up. */
  lemma DifferencesStart(p0: int, p1: int, p2: int, k: nat)
    requires 1 <= k <= 16
    ensures var rx := ShiftLeft64(p2 - p1 - (p1 - p0), 32 - 2 * k);
            Differences(p0, p1, p2, k, 0, ShiftLeft64(p0, 32), Wrap64(ShiftLeft64(p1 - p0, 33 - k) + rx))
  {
    hide Pow2, Wrap64, Bezier2;
    var n, d := Pow2(k), Pow2(32 - 2 * k);
    var a, b := p2 - p1 - (p1 - p0), p1 - p0;
    ScaleIs32Bits(k);
    BezierStep(p0, p1, p2, n, 0);
    ScaledStart(p0, n, d, b, a);
    Wrap64Add(b * Pow2(33 - k), a * d);
  }

  lemma ScaledStart(p0: int, n: int, d: int, b: int, a: int)
    ensures d * (p0 * (n * n)) == p0 * (d * (n * n))
    ensures b * (2 * (n * d)) + a * d == d * (2 * n * b + (2 * 0 + 1) * a)
  {
    assert b * (2 * (n * d)) == d * (2 * n * b);
  }

  /** One loop iteration. */
  lemma DifferencesStep(p0: int, p1: int, p2: int, k: nat, i: nat, px: int, qx: int)
    requires k <= 16 && Differences(p0, p1, p2, k, i, px, qx)
    ensures var rx2 := Wrap64(ShiftLeft64(p2 - p1 - (p1 - p0), 32 - 2 * k) * 2);
            Differences(p0, p1, p2, k, i + 1, Wrap64(px + qx), Wrap64(qx + rx2))
  {
    hide Pow2, Wrap64, Bezier2;
    var n, d := Pow2(k), Pow2(32 - 2 * k);
    var a, b := p2 - p1 - (p1 - p0), p1 - p0;
    var here, slope := Bezier2(p0, p1, p2, n, i), 2 * n * b + (2 * i + 1) * a;
    BezierStep(p0, p1, p2, n, i);
    assert Bezier2(p0, p1, p2, n, i + 1) == here + slope;
    Distribute(d, here, slope);
    Wrap64Add(d * here, d * slope);
    Wrap64Double(a * d);
    Wrap64Add(d * slope, a * d * 2);
    NextSlope(d, n, b, a, i);
  }

  lemma NextSlope(d: int, n: int, b: int, a: int, i: int)
    ensures d * (2 * n * b + (2 * i + 1) * a) + a * d * 2 == d * (2 * n * b + (2 * (i + 1) + 1) * a)
  {
    assert (2 * (i + 1) + 1) * a == (2 * i + 1) * a + 2 * a;
    var u, v := 2 * n * b, (2 * i + 1) * a;
    assert d * (u + v + 2 * a) == d * (u + v) + a * d * 2;
  }

  /** Reading a register gives the flattened coordinate. */
  lemma DifferencesRead(p0: int, p1: int, p2: int, k: nat, i: nat, px: int, qx: int)
    requires k <= 16 && Differences(p0, p1, p2, k, i, px, qx)
    ensures px / TWO_32 == ConicValue(p0, p1, p2, Pow2(k), i)
  {
    var n, d := Pow2(k), Pow2(32 - 2 * k);
    var v := Bezier2(p0, p1, p2, n, i);
    ScaleIs32Bits(k);
    Wrap64High(d * v);
    assert 0 < n * n;
    DivCancel(v, n * n, d);
  }

  /** Control values in the 32-bit range need no wrapping: every drawn value is the exact Bezier
      value rounded down, and the last one is the endpoint. */
  lemma ConicValueExact(p0: int, p1: int, p2: int, n: nat, i: nat)
    requires 0 < n && i <= n && Is32(p0) && Is32(p1) && Is32(p2)
    ensures ConicValue(p0, p1, p2, n, i) == Bezier2(p0, p1, p2, n, i) / (n * n)
    ensures ConicValue(p0, p1, p2, n, n) == p2
  {
    BezierHull(p0, p1, p2, n, i, -0x8000_0000, 0x7FFF_FFFF);
    BezierStep(p0, p1, p2, n, i);
    DivExact(p2, n * n);
  }

  /** The flattened points end on the endpoint exactly when the endpoint is a 32-bit point (or no
      subdivision is needed). */
  lemma ConicEnds(p0: Point, p1: Point, p2: Point)
    ensures ConicPoints(p0, p1, p2) != []
    ensures PathEnd(p0, ConicPoints(p0, p1, p2)) == p2
            <==> Fits32(p2) || ConicDeviation(p0, p1, p2) <= ONE_PIXEL / 4
  {
    hide ConicDeviation, ConicSteps, ConicValue, ConicPoints;
    LastConicPoint(p0, p1, p2);
    if ConicDeviation(p0, p1, p2) > ONE_PIXEL / 4 {
      var n := ConicSteps(p0, p1, p2);
      LastConicValue(p0.x, p1.x, p2.x, n);
      LastConicValue(p0.y, p1.y, p2.y, n);
    }
  }

  lemma LastConicPoint(p0: Point, p1: Point, p2: Point)
    ensures var points, n := ConicPoints(p0, p1, p2), ConicSteps(p0, p1, p2);
            points != [] && 0 < n &&
            points[|points| - 1]
            == if ConicDeviation(p0, p1, p2) <= ONE_PIXEL / 4 then p2 else ConicPoint(p0, p1, p2, n, n)
  {
    hide ConicDeviation, ConicPoint;
  }

  lemma LastConicValue(p0: int, p1: int, p2: int, n: nat)
    requires 0 < n
    ensures ConicValue(p0, p1, p2, n, n) == Wrap32(p2)
  {
    BezierStep(p0, p1, p2, n, n);
    DivExact(p2, n * n);
  }

  /** The points that a conic draws lines to in a band: a conic whose control points all lie on one
      side of the band is skipped, which is one line there. */
  ghost function DrawnConic(p0: Point, p1: Point, p2: Point, low: int, high: int): seq<Point> {
    if OffBand([p0.y, p1.y, p2.y], low, high) then [p2] else ConicPoints(p0, p1, p2)
  }

  /** A drawn conic ends on its endpoint exactly when it is skipped, or the endpoint is a 32-bit
      point, or no subdivision is needed. */
  lemma DrawnConicEnds(p0: Point, p1: Point, p2: Point, low: int, high: int)
    ensures DrawnConic(p0, p1, p2, low, high) != []
    ensures PathEnd(p0, DrawnConic(p0, p1, p2, low, high)) == p2
            <==> OffBand([p0.y, p1.y, p2.y], low, high) || Fits32(p2) || ConicDeviation(p0, p1, p2) <= ONE_PIXEL / 4
  {
    hide ConicPoints, OffBand, ConicDeviation, Fits32;
    ConicEnds(p0, p1, p2);
  }

  /** An endpoint that is missed: the conic over (0, 0), (2^30, 256), (2^31, 0), drawn in the first
      scanline, ends at (-2^31, 0). */
  lemma MissedEnd()
    ensures var p0, p1, p2 := Point(0, 0), Point(0x4000_0000, 256), Point(0x8000_0000, 0);
            PathEnd(p0, DrawnConic(p0, p1, p2, 0, 1)) == Point(-0x8000_0000, 0)
  {
    hide ConicValue, ConicPoints, ConicSteps, OffBand;
    var p0, p1, p2 := Point(0, 0), Point(0x4000_0000, 256), Point(0x8000_0000, 0);
    TouchesBand(0, 256, 0);
    LastConicPoint(p0, p1, p2);
    var n := ConicSteps(p0, p1, p2);
    LastConicValue(p0.x, p1.x, p2.x, n);
    LastConicValue(p0.y, p1.y, p2.y, n);
  }

  lemma TouchesBand(a: int, b: int, c: int)
    requires 0 <= a < 256
    ensures !OffBand([a, b, c], 0, 1)
  {
    var ys := [a, b, c];
    assert ys[0] == a && a in ys && Trunc(a) == 0;
  }

  /** Flattened points are positions the line walk accepts. */
  lemma ConicPositions(p0: Point, p1: Point, p2: Point)
    requires IsPosition(p2)
    ensures forall q :: q in ConicPoints(p0, p1, p2) ==> IsPosition(q)
  {
  }

  lemma DrawnPositions(p0: Point, p1: Point, p2: Point, low: int, high: int)
    requires IsPosition(p2)
    ensures forall q :: q in DrawnConic(p0, p1, p2, low, high) ==> IsPosition(q)
  {
    hide ConicPoints, OffBand;
    ConicPositions(p0, p1, p2);
  }

  /** The steps are short: between neighbouring points the curve strays from the chord by less than
      65/4 subpixels, the deviation being a quarter of the second difference. */
  lemma ConicStepFlat(p0: Point, p1: Point, p2: Point)
    requires ConicDeviation(p0, p1, p2) > ONE_PIXEL / 4
    ensures var n := ConicSteps(p0, p1, p2);
            && Abs(p2.x - p1.x - (p1.x - p0.x)) < 65 * (n * n)
            && Abs(p2.y - p1.y - (p1.y - p0.y)) < 65 * (n * n)
  {
    var k := Halvings(ConicDeviation(p0, p1, p2));
    HalvingsLeast(ConicDeviation(p0, p1, p2));
    Pow2Sum(k, k);
  }

  /** Twice the way from the chord's middle to the curve's middle, in units of 1 / (2n)^2. */
  lemma ChordDeviation(p0: int, p1: int, p2: int, n: int, i: int)
    ensures Bezier2(p0, p1, p2, 2 * n, 2 * i) + Bezier2(p0, p1, p2, 2 * n, 2 * i + 2)
            - 2 * Bezier2(p0, p1, p2, 2 * n, 2 * i + 1) == 2 * (p2 - p1 - (p1 - p0))
  {
    hide Bezier2;
    BezierStep(p0, p1, p2, 2 * n, 2 * i);
    BezierStep(p0, p1, p2, 2 * n, 2 * i + 1);
    var a := p2 - p1 - (p1 - p0);
    assert (2 * (2 * i + 1) + 1) * a == (2 * (2 * i) + 1) * a + 2 * a;
  }

  /** A conic that the source skips as a whole would not have touched the band. */
  lemma OffBandConic(p0: Point, p1: Point, p2: Point, low: int, high: int)
    requires Fits32(p0) && Fits32(p1) && Fits32(p2)
    requires OffBand([p0.y, p1.y, p2.y], low, high)
    ensures OffBand(Heights([p0] + ConicPoints(p0, p1, p2)), low, high)
  {
    var pts := ConicPoints(p0, p1, p2);
    var ys := Heights([p0] + pts);
    var cs := [p0.y, p1.y, p2.y];
    assert cs[0] in cs && cs[1] in cs && cs[2] in cs;
    var above := high <= Trunc(p0.y) && high <= Trunc(p1.y) && high <= Trunc(p2.y);
    forall i | 0 <= i < |ys|
      ensures above ==> high <= Trunc(ys[i])
      ensures !above ==> Trunc(ys[i]) < low
    {
      if i > 0 && ConicDeviation(p0, p1, p2) > ONE_PIXEL / 4 {
        OffBandValue(p0, p1, p2, i, low, high, above);
      }
    }
  }

  lemma OffBandValue(p0: Point, p1: Point, p2: Point, i: nat, low: int, high: int, above: bool)
    requires Fits32(p0) && Fits32(p1) && Fits32(p2)
    requires ConicDeviation(p0, p1, p2) > ONE_PIXEL / 4 && i <= ConicSteps(p0, p1, p2)
    requires above ==> high <= Trunc(p0.y) && high <= Trunc(p1.y) && high <= Trunc(p2.y)
    requires !above ==> Trunc(p0.y) < low && Trunc(p1.y) < low && Trunc(p2.y) < low
    ensures var y := ConicValue(p0.y, p1.y, p2.y, ConicSteps(p0, p1, p2), i);
            if above then high <= Trunc(y) else Trunc(y) < low
  {
    var n := ConicSteps(p0, p1, p2);
    ConicValueExact(p0.y, p1.y, p2.y, n, i);
    if above {
      BezierHull(p0.y, p1.y, p2.y, n, i, ONE_PIXEL * high, 0x7FFF_FFFF);
    } else {
      BezierHull(p0.y, p1.y, p2.y, n, i, -0x8000_0000, ONE_PIXEL * low - 1);
    }
  }

  /** For control points in 32-bit subpixels skipping cannot be seen: within the band every pixel
      gets what the whole flattened conic would give it. */
  lemma SkippingIsInvisible(p0: Point, p1: Point, p2: Point, low: int, high: int, x: int, y: int)
    requires IsPosition(p0) && IsPosition(p1) && IsPosition(p2) && Fits32(p0) && Fits32(p1) && Fits32(p2)
    requires low <= y < high
    ensures forall q :: q in ConicPoints(p0, p1, p2) ==> IsPosition(q)
    ensures forall q :: q in DrawnConic(p0, p1, p2, low, high) ==> IsPosition(q)
    ensures PixelArea(PathSegments(p0, DrawnConic(p0, p1, p2, low, high)), x, y)
            == PixelArea(PathSegments(p0, ConicPoints(p0, p1, p2)), x, y)
  {
    hide PathSegments, InBand, ConicPoints, OffBand, PixelArea, Fits32;
    ConicPositions(p0, p1, p2);
    DrawnPositions(p0, p1, p2, low, high);
    if OffBand([p0.y, p1.y, p2.y], low, high) {
      OffBandConic(p0, p1, p2, low, high);
      OffBandPath(p0, ConicPoints(p0, p1, p2), low, high);
      OffBandEnds(p0, p1, p2, low, high);
      OffBandPath(p0, [p2], low, high);
      InBandPixels(PathSegments(p0, ConicPoints(p0, p1, p2)), low, high, x, y);
      InBandPixels(PathSegments(p0, [p2]), low, high, x, y);
    }
  }

  lemma OffBandEnds(p0: Point, p1: Point, p2: Point, low: int, high: int)
    requires OffBand([p0.y, p1.y, p2.y], low, high)
    ensures OffBand(Heights([p0] + [p2]), low, high)
  {
    var ys := [p0.y, p1.y, p2.y];
    assert ys[0] == p0.y && ys[2] == p2.y;
    assert Heights([p0] + [p2]) == [p0.y, p2.y];
  }

  /** Skipping changes the cover of a scanline exactly when the conic is subdivided and its endpoint,
      wrapped to 32 bits, lies at another height there. */
  lemma SkippingShows(p0: Point, p1: Point, p2: Point, low: int, high: int, y: int)
    requires IsPosition(p0) && IsPosition(p1) && IsPosition(p2)
    requires OffBand([p0.y, p1.y, p2.y], low, high) && low <= y < high
    ensures forall q :: q in ConicPoints(p0, p1, p2) ==> IsPosition(q)
    ensures RowCover(PathSegments(p0, DrawnConic(p0, p1, p2, low, high)), y) == 0
    ensures RowCover(PathSegments(p0, ConicPoints(p0, p1, p2)), y) != 0
            <==> ConicDeviation(p0, p1, p2) > ONE_PIXEL / 4 && Filled(Wrap32(p2.y), y) != Filled(p2.y, y)
  {
    hide ConicValue, ConicPoints, ConicSteps, PathSegments, RowCover, OffBand, ConicDeviation, Wrap32;
    ConicPositions(p0, p1, p2);
    PathCover(p0, [p2], y);
    PathCover(p0, ConicPoints(p0, p1, p2), y);
    SameSide(p0.y, p1.y, p2.y, low, high, y);
    LastConicPoint(p0, p1, p2);
    LastConicValue(p0.y, p1.y, p2.y, ConicSteps(p0, p1, p2));
  }

  lemma SameSide(a: int, b: int, c: int, low: int, high: int, y: int)
    requires OffBand([a, b, c], low, high) && low <= y < high
    ensures Filled(a, y) == Filled(c, y)
  {
    var ys := [a, b, c];
    assert ys[0] == a && ys[2] == c && a in ys && c in ys;
  }

  /** Beyond 32-bit subpixels skipping can be seen: the conic over (0, y), (1024, y), (0, y) with
      y = 2^32 + 128 is skipped above the band, but its wrapped points would have covered half of the
      first scanline. */
  lemma SkippingCanBeSeen()
    ensures var y := 0x1_0000_0080;
            var p0, p1, p2 := Point(0, y), Point(1024, y), Point(0, y);
            && OffBand([p0.y, p1.y, p2.y], 0, 1)
            && (forall q :: q in [p0] + ConicPoints(p0, p1, p2) ==> IsPosition(q))
            && RowCover(PathSegments(p0, DrawnConic(p0, p1, p2, 0, 1)), 0) == 0
            && RowCover(PathSegments(p0, ConicPoints(p0, p1, p2)), 0) == -128
  {
    hide ConicValue, ConicPoints, ConicSteps, PathSegments, RowCover;
    var y := 0x1_0000_0080;
    var p0, p1, p2 := Point(0, y), Point(1024, y), Point(0, y);
    assert Trunc(y) == 0x100_0000;
    ConicPositions(p0, p1, p2);
    LastConicPoint(p0, p1, p2);
    var n := ConicSteps(p0, p1, p2);
    LastConicValue(p0.x, p1.x, p2.x, n);
    LastConicValue(p0.y, p1.y, p2.y, n);
    PathCover(p0, [p2], 0);
    PathCover(p0, ConicPoints(p0, p1, p2), 0);
  }
}
