/** What the unit vector and the length are worth against the vector as given, before prescaling. */
module TrueNorm {
  import opened Ints
  import opened Newton

  predicate Positive32(x: int) {
    0 < x <= 0x8000_0000
  }

  function ShiftOf(x: nat, y: nat): int
    requires Positive32(x) && Positive32(y)
  {
    PrescaleShift(Estimate(x, y))
  }

  /** The weight of the lowest bit that prescaling keeps. */
  function Grain(x: nat, y: nat): (g: nat)
    requires Positive32(x) && Positive32(y)
    ensures 0 < g
  {
    var shift := ShiftOf(x, y);
    if shift < 0 then Pow2(-shift) else 1
  }

  /** How a component relates to its prescaled form: `times` of it, and a rest below the grain. */
  ghost predicate Coarse(v: nat, q: nat, times: nat, grain: nat) {
    0 < times && 0 < grain && if grain == 1 then q == v * times else times == 1 && grain * q <= v < grain * q + grain
  }

  lemma ScaleIsCoarse(v: nat, x: nat, y: nat) returns (times: nat)
    requires Positive32(x) && Positive32(y)
    ensures times == if ShiftOf(x, y) > 0 then Pow2(ShiftOf(x, y)) else 1
    ensures Coarse(v, Scale(v, ShiftOf(x, y)), times, Grain(x, y))
  {
    hide PrescaleShift, Estimate;
    var shift := ShiftOf(x, y);
    assert Pow2(0) == 1;
    times := if shift > 0 then Pow2(shift) else 1;
    assert shift < 0 ==> 2 <= Pow2(-shift);
    hide Pow2;
    if shift < 0 {
      var p := Pow2(-shift);
      assert v == p * (v / p) + v % p;
    }
  }

  lemma GrainIsSmall(px: nat, py: nat, x: nat, y: nat, times: nat, grain: nat)
    requires Coarse(x, px, times, grain) && Coarse(y, py, times, grain) && 36634 <= px + py
    ensures grain == 1 || 36634 * grain <= x + y
  {
    if grain != 1 {
      MulMonotone(36634, px + py, grain);
      Distribute(grain, px, py);
    }
  }

  lemma PrescaledSum(px: nat, py: nat)
    requires 1_342_111_344 <= px * px + py * py
    ensures 36634 <= px + py
  {
    SquareOfSum(px, py);
    MulMonotone(0, px, py);
    if px + py < 36634 {
      SquareMonotone(px + py, 36633);
    }
  }

  // ---------------------------------------------------------------- direction

  lemma CrossPrescaled(px: nat, py: nat, scale: nat, u: nat, v: nat)
    requires u == Grown(px, scale) && v == Grown(py, scale)
    ensures 0 - py <= u * py - v * px <= px
  {
    GrownBounds(px, scale);
    GrownBounds(py, scale);
    hide Grown;
    MulMonotone(ONE * u, px * scale, py);
    MulMonotone(px * scale, ONE * (u + 1), py);
    MulMonotone(ONE * v, py * scale, px);
    MulMonotone(py * scale, ONE * (v + 1), px);
    SameProduct(px, py, scale);
    Factor(u, py);
    Factor(v, px);
  }

  lemma SameProduct(px: int, py: int, scale: int)
    ensures px * scale * py == py * scale * px
  {
  }

  lemma Factor(u: int, p: int)
    ensures ONE * u * p == ONE * (u * p) && ONE * (u + 1) * p == ONE * (u * p) + ONE * p
  {
  }

  /** The cross product of the unit vector and the vector as given. */
  lemma CrossTrue(x: nat, y: nat, px: nat, py: nat, times: nat, grain: nat, u: nat, v: nat)
    requires Coarse(x, px, times, grain) && Coarse(y, py, times, grain) && 0 - py <= u * py - v * px <= px
    requires u <= 65537 && v <= 65537 && 36634 <= px + py
    ensures Abs(u * y - v * x) <= 3 * (x + y)
  {
    GrainIsSmall(px, py, x, y, times, grain);
    if grain == 1 {
      CrossMagnified(u, y, v, x, times);
    } else {
      CrossCoarse(x, y, px, py, x - grain * px, y - grain * py, grain, u, v);
    }
  }

  lemma CrossCoarse(x: nat, y: nat, px: nat, py: nat, rx: nat, ry: nat, grain: nat, u: nat, v: nat)
    requires x == grain * px + rx && y == grain * py + ry && rx <= grain && ry <= grain
    requires u <= 65537 && v <= 65537 && 36634 * grain <= x + y && 0 - py <= u * py - v * px <= px
    ensures Abs(u * y - v * x) <= 3 * (x + y)
  {
    MulMonotone(0, grain, px);
    MulMonotone(0, grain, py);
    RestBound(u, v, rx, ry, grain);
    CrossTimes(u * py - v * px, px, py, grain);
    assert u * y - v * x == (u * py - v * px) * grain + u * ry - v * rx by {
      CrossReduced(u, v, px, py, rx, ry, grain);
    }
  }

  lemma RestBound(u: nat, v: nat, rx: nat, ry: nat, grain: nat)
    requires u <= 65537 && v <= 65537 && rx <= grain && ry <= grain
    ensures -65537 * grain <= u * ry - v * rx <= 65537 * grain
  {
    MulMonotone(0, u, ry);
    MulMonotone(0, v, rx);
    MulMonotone(u, 65537, ry);
    MulMonotone(v, 65537, rx);
  }

  lemma CrossTimes(c: int, px: nat, py: nat, grain: nat)
    requires 0 - py <= c <= px
    ensures 0 - grain * py <= c * grain <= grain * px
  {
    MulMonotone(0 - py, c, grain);
    MulMonotone(c, px, grain);
  }

  lemma CrossMagnified(u: nat, y: nat, v: nat, x: nat, m: nat)
    requires 0 < m && 0 - y * m <= u * (y * m) - v * (x * m) <= x * m
    ensures 0 - y <= u * y - v * x <= x
  {
    var c := u * y - v * x;
    assert u * (y * m) - v * (x * m) == c * m by {
      assert u * (y * m) == (u * y) * m && v * (x * m) == (v * x) * m;
    }
    if x < c {
      MulMonotone(x + 1, c, m);
    }
    if c < 0 - y {
      MulMonotone(c, 0 - y - 1, m);
    }
  }

  lemma CrossReduced(u: int, v: int, px: int, py: int, rx: int, ry: int, g: int)
    ensures u * (g * py + ry) - v * (g * px + rx) == (u * py - v * px) * g + u * ry - v * rx
  {
    assert u * (g * py) == (u * py) * g && v * (g * px) == (v * px) * g;
    Distribute(u, g * py, ry);
    Distribute(v, g * px, rx);
  }

  lemma PositiveDirection(x: nat, y: nat)
    requires Positive32(x) && Positive32(y)
    ensures var n := NormOfPositive(x, y); 0 <= n.x && 0 <= n.y && Abs(n.x * y - n.y * x) <= 3 * (x + y)
  {
    hide *;
    var shift, px, py, scale, scaled := Prepared(x, y);
    var times := ScaleIsCoarse(x, x, y);
    var again := ScaleIsCoarse(y, x, y);
    var u, v := Grown(px, scale), Grown(py, scale);
    CrossPrescaled(px, py, scale, u, v);
    ComponentBounds(u, v, u * u + v * v);
    CrossTrue(x, y, px, py, times, Grain(x, y), u, v);
  }

  /** What the iteration works with, and what it comes to. */
  lemma Prepared(x: nat, y: nat) returns (shift: int, px: nat, py: nat, scale: nat, scaled: nat)
    requires Positive32(x) && Positive32(y)
    ensures shift == ShiftOf(x, y) && px == Scale(x, shift) && py == Scale(y, shift)
    ensures px <= 87381 && py <= 87381 && 36634 <= px + py
    ensures var u, v := Grown(px, scale), Grown(py, scale);
            && u * u + v * v <= TWO_32 + SLACK
            && NormOfPositive(x, y) == Norm(u, v, Restored(scaled, shift))
    ensures NearRoot(scaled, 1, 4, px * px + py * py)
    ensures -16 <= shift <= 16 && 0x8000 <= scaled < 0x2_0000 && (shift == -16 ==> scaled < 0x1_0000)
  {
    hide Prescaled, PrescaleShift, Scale, ScaledEstimate, Readable, Wrap32, TruncDiv, Dot, Restored, Settled,
      SquaredLength, Grown, Estimate, NearRoot, LengthClose;
    PrescaleWorks(x, y);
    shift := ShiftOf(x, y);
    var length := ScaledEstimate(x, y, shift);
    px, py := Scale(x, shift), Scale(y, shift);
    FirstScale(px, py, length);
    PrescaledBelowTwo(px, py, length);
    scale := Settled(px, py, length, 2 * ONE - length);
    SettledIsNormalized(px, py, scale);
    var u, v := Grown(px, scale), Grown(py, scale);
    NormalizedFacts(px, py, scale, u, v);
    ProjectedLength(px, py, length, scale, u, v);
    Projection(px, py, length, scale, u, v);
    DotIs(u, v, px, py);
    WrapProjection(Dot(u, v, px, py));
    scaled := ONE + TruncDiv(Wrap32(Dot(u, v, px, py)), ONE);
    PrescaledSquares(px, py, length);
    PrescaledSum(px, py);
    ScaledIsNear(u * px + v * py, u * px + v * py + px + py, px * px + py * py, scaled);
    EstimateRange(x, y);
    ShiftRange(Estimate(x, y));
    if shift == -16 {
      LargeLength(x, y, u, v, px, py);
    }
  }

  lemma EstimateRange(x: nat, y: nat)
    requires Positive32(x) && Positive32(y)
    ensures 0 < Estimate(x, y) < TWO_32
  {
  }

  /** The unit vector points along the vector: for every vector the cross product is at most three
      times the sum of the components, of a product of lengths that is 2^16 times that of the vector. */
  lemma DirectionClose(vx: int, vy: int)
    requires Is32(vx) && Is32(vy)
    ensures var n := NormOf(vx, vy);
            && Abs(n.x * vy - n.y * vx) <= 3 * (Abs(vx) + Abs(vy))
            && 0 <= n.x * vx && 0 <= n.y * vy
  {
    hide NormOfPositive;
    if vx != 0 && vy != 0 {
      var x, y := Abs(vx), Abs(vy);
      PositiveDirection(x, y);
      var n := NormOfPositive(x, y);
      SignedCross(if vx < 0 then -1 else 1, if vy < 0 then -1 else 1, n.x, n.y, x, y);
    }
  }

  lemma SignedCross(sx: int, sy: int, u: int, v: int, x: nat, y: nat)
    requires (sx == 1 || sx == -1) && (sy == 1 || sy == -1) && 0 <= u && 0 <= v
    ensures Abs((sx * u) * (sy * y) - (sy * v) * (sx * x)) == Abs(u * y - v * x)
    ensures 0 <= (sx * u) * (sx * x) && 0 <= (sy * v) * (sy * y)
  {
    MulMonotone(0, u, x);
    MulMonotone(0, v, y);
  }

  // ---------------------------------------------------------------- length

  /** Within a few units of the square root of h, up to one part in 2^14 of the square. */
  ghost predicate NearRoot(length: int, below: int, above: int, h: int) {
    && 0 <= length - below
    && 0x4000 * ((length - below) * (length - below)) <= h * 0x4001
    && h * 0x3FFF <= 0x4000 * ((length + above) * (length + above))
  }

  /** The scaled length from a projection n between its bounds. */
  lemma ScaledIsNear(n: nat, m: nat, h: nat, scaled: nat)
    requires ONE * (scaled - 1) < n && m <= ONE * (scaled + 4) && 0 < scaled
    requires n * n <= h * (TWO_32 + SLACK) && h * (TWO_32 - SLACK) <= m * m
    ensures NearRoot(scaled, 1, 4, h)
  {
    SquareMonotone(ONE * (scaled - 1), n);
    SquareMonotone(m, ONE * (scaled + 4));
    SquareOfUnits(scaled - 1);
    SquareOfUnits(scaled + 4);
  }

  lemma SquareOfUnits(s: int)
    ensures (ONE * s) * (ONE * s) == TWO_32 * (s * s)
  {
  }

  /** Scaling the vector and the bounds by m. */
  lemma NearMagnified(length: int, scaled: int, m: nat, h: nat)
    requires 0 < m && NearRoot(scaled, 1, 4, h * (m * m)) && 1 <= length
    requires m * (length - 1) <= scaled - 1 && scaled + 4 <= m * (length + 6)
    ensures NearRoot(length, 1, 6, h)
  {
    var a, b := length - 1, length + 6;
    MulMonotone(0, a, m);
    SquareMonotone(m * a, scaled - 1);
    SquareMonotone(scaled + 4, m * b);
    SquareOfProduct(m, a);
    SquareOfProduct(m, b);
    MulMonotone(1, m, m);
    Cancel(m * m, 0x4000 * (a * a), h * 0x4001);
    Cancel(m * m, h * 0x3FFF, 0x4000 * (b * b));
    Regroup(h, m * m, 0x4001);
    Regroup(h, m * m, 0x3FFF);
    Regroup(a * a, m * m, 0x4000);
    Regroup(b * b, m * m, 0x4000);
  }

  lemma Regroup(h: int, q: int, c: int)
    ensures h * q * c == (h * c) * q && (c * h) * q == c * (q * h)
  {
    assert h * q * c == h * (q * c) == h * (c * q) == (h * c) * q;
    assert (c * h) * q == c * (h * q) == c * (q * h);
  }

  /** A coarse vector is at most one grain longer in each component. */
  lemma NearCoarse(scaled: nat, x: nat, y: nat, px: nat, py: nat, g: nat)
    requires 0 < g && 1 <= scaled && NearRoot(scaled, 1, 4, px * px + py * py)
    requires g * px <= x < g * px + g && g * py <= y < g * py + g
    ensures NearRoot(g * scaled, g, 6 * g, x * x + y * y)
  {
    var h, h' := px * px + py * py, (px + 1) * (px + 1) + (py + 1) * (py + 1);
    NextComponents(px, py, scaled, h, h');
    Squares(g, px, py, x, y, h, h');
    SquareOfProduct(g, scaled - 1);
    SquareOfProduct(g, scaled + 6);
    Distribute(g, scaled, -1);
    Distribute(g, scaled, 6);
    MulMonotone(1, scaled, g);
    SandwichTimes((scaled - 1) * (scaled - 1), (scaled + 6) * (scaled + 6), h, h', x * x + y * y, g * g);
    assert g * scaled - g == g * (scaled - 1) && g * scaled + 6 * g == g * (scaled + 6);
  }

  lemma SandwichTimes(a: int, b: int, h: int, h': int, t: int, q: int)
    requires 0 < q && 0x4000 * a <= h * 0x4001 && h' * 0x3FFF <= 0x4000 * b && h * q <= t <= h' * q
    ensures 0x4000 * (q * a) <= t * 0x4001 && t * 0x3FFF <= 0x4000 * (q * b)
  {
    MulMonotone(0x4000 * a, h * 0x4001, q);
    MulMonotone(h' * 0x3FFF, 0x4000 * b, q);
    Regroup(h, q, 0x4001);
    Regroup(h', q, 0x3FFF);
    Regroup(a, q, 0x4000);
    Regroup(b, q, 0x4000);
  }

  lemma Squares(g: nat, px: nat, py: nat, x: nat, y: nat, h: nat, h': nat)
    requires h == px * px + py * py && h' == (px + 1) * (px + 1) + (py + 1) * (py + 1)
    requires g * px <= x < g * px + g && g * py <= y < g * py + g
    ensures h * (g * g) <= x * x + y * y <= h' * (g * g)
  {
    SquareBetween(g, px, x);
    SquareBetween(g, py, y);
    Distribute(g * g, px * px, py * py);
    Distribute(g * g, (px + 1) * (px + 1), (py + 1) * (py + 1));
  }

  lemma SquareBetween(g: nat, q: nat, v: nat)
    requires g * q <= v < g * q + g
    ensures (q * q) * (g * g) <= v * v <= ((q + 1) * (q + 1)) * (g * g)
  {
    MulMonotone(0, q, g);
    Distribute(g, q, 1);
    SquareMonotone(g * q, v);
    SquareMonotone(v, g * (q + 1));
    SquareOfProduct(g, q);
    SquareOfProduct(g, q + 1);
  }

  lemma NextComponents(px: nat, py: nat, s: nat, h: nat, h': nat)
    requires h == px * px + py * py && h' == (px + 1) * (px + 1) + (py + 1) * (py + 1)
    requires h * 0x3FFF <= 0x4000 * ((s + 4) * (s + 4))
    ensures h' * 0x3FFF <= 0x4000 * ((s + 6) * (s + 6))
  {
    SquareOfSum(px, 1);
    SquareOfSum(py, 1);
    SquareOfSum(s + 4, 2);
    if 2 * s + 9 < px + py {
      SquareMonotone(2 * (s + 4), px + py);
      SquareOfSum(px, py);
      SquareAtLeast(px - py, 0);
      assert (px - py) * (px - py) == px * px - 2 * (px * py) + py * py;
      SquareOfProduct(2, s + 4);
      assert false;
    }
  }

  lemma PositiveLength(x: nat, y: nat)
    requires Positive32(x) && Positive32(y)
    ensures var g := Grain(x, y);
            NearRoot(NormOfPositive(x, y).length, g, 6 * g, x * x + y * y) && (g == 1 || 36634 * g <= x + y)
  {
    PositiveHasLength(x, y);
    hide *;
    var shift, px, py, scale, scaled := Prepared(x, y);
    var times := ScaleIsCoarse(x, x, y);
    var again := ScaleIsCoarse(y, x, y);
    GrainIsSmall(px, py, x, y, times, Grain(x, y));
    RestoredIsNear(scaled, shift, x, y, px, py, times, Grain(x, y));
  }

  lemma RestoredIsNear(scaled: nat, shift: int, x: nat, y: nat, px: nat, py: nat, times: nat, grain: nat)
    requires -16 <= shift <= 16 && 0x8000 <= scaled < 0x2_0000 && (shift == -16 ==> scaled < 0x1_0000)
    requires times == (if shift > 0 then Pow2(shift) else 1) && grain == (if shift < 0 then Pow2(-shift) else 1)
    requires Coarse(x, px, times, grain) && Coarse(y, py, times, grain) && NearRoot(scaled, 1, 4, px * px + py * py)
    requires 0 < Restored(scaled, shift)
    ensures NearRoot(Restored(scaled, shift), grain, 6 * grain, x * x + y * y)
  {
    hide NearRoot;
    if shift < 0 {
      RestoredGrains(scaled, -shift);
      assert 2 <= grain;
      hide Pow2;
      NearCoarse(scaled, x, y, px, py, grain);
    } else {
      RestoredUnits(scaled, shift, times);
      hide Pow2;
      MagnifiedSquares(x, y, times);
      NearMagnified(Restored(scaled, shift), scaled, times, x * x + y * y);
    }
  }

  lemma MagnifiedSquares(x: int, y: int, m: int)
    ensures (x * m) * (x * m) + (y * m) * (y * m) == (x * x + y * y) * (m * m)
  {
    SquareOfProduct(m, x);
    SquareOfProduct(m, y);
    Distribute(m * m, x * x, y * y);
    assert x * m == m * x && y * m == m * y;
  }

  lemma RestoredGrains(scaled: nat, k: nat)
    requires 0 < k <= 16 && scaled < 0x2_0000 && (k == 16 ==> scaled < 0x1_0000)
    ensures Restored(scaled, 0 - k) == Pow2(k) * scaled
  {
    GrainsFit(scaled, k);
    hide Pow2;
    NotWrapped(scaled * Pow2(k));
  }

  lemma GrainsFit(scaled: nat, k: nat)
    requires 0 < k <= 16 && scaled < 0x2_0000 && (k == 16 ==> scaled < 0x1_0000)
    ensures 0 <= scaled * Pow2(k) < TWO_32
  {
    Pow2Values();
    hide Pow2;
    Pow2Grows(k, if k < 16 then 15 else 16);
    var p := Pow2(k);
    MulMonotone(0, scaled, p);
    MulMonotone(scaled, if k < 16 then 0x1_FFFF else 0xFFFF, p);
  }

  lemma RestoredUnits(scaled: nat, shift: int, m: nat)
    requires 0 <= shift <= 16 && 0 < scaled < 0x2_0000 && m == Pow2(shift)
    ensures var length := Restored(scaled, shift);
            m * (length - 1) <= scaled - 1 && scaled + 4 <= m * (length + 6)
  {
    hide Restored;
    if shift == 0 {
      RestoredSame(scaled);
    } else {
      RestoredQuotient(scaled, shift);
      HalfUnits(scaled, Pow2(shift - 1), m);
    }
  }

  lemma HalfUnits(scaled: nat, half: nat, m: nat)
    requires 0 < scaled && 0 < half && m == 2 * half
    ensures var length := (scaled + half) / m;
            m * (length - 1) <= scaled - 1 && scaled + 4 <= m * (length + 6)
  {
    var v := scaled + half;
    var q, r := v / m, v % m;
    assert v == m * q + r && 0 <= r < m;
    RoundedQuotient(scaled, half, q, r);
  }

  lemma RestoredSame(scaled: nat)
    requires scaled < TWO_32
    ensures Pow2(0) == 1 && Restored(scaled, 0) == scaled
  {
    assert Pow2(0) == 1;
    NotWrapped(scaled);
  }

  lemma RestoredQuotient(scaled: nat, shift: int)
    requires 0 < shift <= 16 && scaled < 0x2_0000
    ensures Restored(scaled, shift) == (scaled + Pow2(shift - 1)) / Pow2(shift)
  {
    Pow2Grows(shift - 1, 16);
    assert Pow2(16) == ONE by { Pow2Values(); }
    hide Pow2;
    var v := scaled + Pow2(shift - 1);
    NotWrapped(v);
    ScaledDown(v, shift);
    hide Scale;
  }

  lemma NotWrapped(v: nat)
    requires v < TWO_32
    ensures v % TWO_32 == v
  {
  }

  lemma ScaledDown(v: nat, shift: int)
    requires 0 < shift
    ensures Scale(v, -shift) == v / Pow2(shift)
  {
    hide Pow2;
    assert -(-shift) == shift;
  }

  lemma RoundedQuotient(scaled: nat, half: nat, q: int, r: int)
    requires 0 < half && 0 < scaled && scaled + half == (2 * half) * q + r && 0 <= r < 2 * half
    ensures (2 * half) * (q - 1) <= scaled - 1 && scaled + 4 <= (2 * half) * (q + 6)
  {
    Distribute(2 * half, q, -1);
    Distribute(2 * half, q, 6);
  }

  /** The length is the true length: for every vector with two non-zero components it lies within six
      grains of it, up to one part in 2^14 of the square.  A grain is one, or less than one part in
      36634 of the sum of the components. */
  lemma LengthIsTrue(vx: int, vy: int)
    requires Is32(vx) && Is32(vy) && vx != 0 && vy != 0
    ensures var g := Grain(Abs(vx), Abs(vy));
            && NearRoot(NormOf(vx, vy).length, g, 6 * g, vx * vx + vy * vy)
            && (g == 1 || 36634 * g <= Abs(vx) + Abs(vy))
  {
    hide NormOfPositive, Grain, NearRoot;
    PositiveLength(Abs(vx), Abs(vy));
    assert Abs(vx) * Abs(vx) == vx * vx && Abs(vy) * Abs(vy) == vy * vy;
  }
}
