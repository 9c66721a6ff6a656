/** What the entries of the CORDIC table are worth: angles measured by repeated exact turns of one unit,
    and the direction that a rotation gives. */
module CordicAngle {
  import opened Ints
  import opened Cordic
  import opened CordicGain

  // ---------------------------------------------------------------- turning exactly

  /** The product of two vectors as complex numbers: angles add up. */
  function Times(v: Vector, w: Vector): Vector {
    Vector(v.x * w.x - v.y * w.y, v.x * w.y + v.y * w.x)
  }

  function Conjugate(v: Vector): Vector {
    Vector(v.x, -v.y)
  }

  /** One radian in units of 1/65536 degree. */
  const RADIAN: nat := 3_754_936

  /** The direction at n units from (1, 0): n turns by (RADIAN, 1), of whatever length. */
  ghost function Ray(n: nat): Vector {
    if n == 0 then Vector(1, 0) else Times(Ray(n - 1), Vector(RADIAN, 1))
  }

  ghost function Direction(a: int): Vector {
    if 0 <= a then Ray(a) else Conjugate(Ray(-a))
  }

  const SCALE: nat := 0x100_0000_0000_0000

  /** The slope of the direction at a lies between low and high, in units of 1 / SCALE. */
  ghost predicate SlopeWithin(a: int, low: int, high: int) {
    0 <= a && 0 <= low <= high && 0 < Ray(a).x && low * Ray(a).x <= SCALE * Ray(a).y <= high * Ray(a).x
  }

  lemma TimesAssociates(u: Vector, v: Vector, w: Vector)
    ensures Times(Times(u, v), w) == Times(u, Times(v, w))
  {
    Spread(u.x, u.y, v.x, v.y, w.x, w.y);
    Spread(u.x, u.y, v.x, v.y, w.y, w.x);
  }

  lemma Spread(a: int, b: int, c: int, d: int, e: int, f: int)
    ensures (a * c - b * d) * e - (a * d + b * c) * f == a * (c * e - d * f) - b * (c * f + d * e)
    ensures (a * c - b * d) * e + (a * d + b * c) * f == a * (c * e + d * f) + b * (c * f - d * e)
  {
    assert a * c * e == a * (c * e) && b * d * e == b * (d * e) && a * d * f == a * (d * f) && b * c * f == b * (c * f);
    Distribute(e, a * c, -(b * d));
    Distribute(f, a * d, b * c);
    Distribute(a, c * e, -(d * f));
    Distribute(a, c * e, d * f);
    Distribute(b, c * f, d * e);
    Distribute(b, c * f, -(d * e));
    assert -(b * d) * e == -(b * d * e) && a * -(d * f) == -(a * (d * f)) && b * -(d * e) == -(b * (d * e));
  }

  lemma TimesCommutes(v: Vector, w: Vector)
    ensures Times(v, w) == Times(w, v)
  {
  }

  lemma {:induction false} RaySum(a: nat, b: nat)
    ensures Ray(a + b) == Times(Ray(a), Ray(b))
  {
    hide Times;
    if b == 0 {
      TimesOne(Ray(a));
    } else {
      RaySum(a, b - 1);
      TimesAssociates(Ray(a), Ray(b - 1), Vector(RADIAN, 1));
    }
  }

  lemma TimesOne(v: Vector)
    ensures Times(v, Vector(1, 0)) == v
  {
  }

  // ---------------------------------------------------------------- slopes

  /** (v - w)(p + q) as four products. */
  lemma FourProducts(v: int, w: int, p: int, q: int)
    ensures (v - w) * (p + q) == v * p + v * q - w * p - w * q
  {
  }

  lemma Exchanged(a: int, b: int, c: int, d: int)
    ensures (a * b) * (c * d) == (a * c) * (b * d)
  {
    assert (a * b) * (c * d) == a * (b * (c * d)) == a * (c * (b * d));
  }

  /** Lower bounds of two slopes give one of the slope of the sum of the angles. */
  lemma SumOfSlopes(v: Vector, w: Vector, l: int, k: int)
    requires l * v.x <= SCALE * v.y && k * w.x <= SCALE * w.y
    requires 0 <= SCALE * w.x + k * w.y && 0 <= SCALE * v.x + l * v.y
    ensures SCALE * (l + k) * Times(v, w).x <= (SCALE * SCALE - l * k) * Times(v, w).y
  {
    var s: int := SCALE;
    var p, q, r, t := v.x * w.x, v.y * w.y, v.x * w.y, v.y * w.x;
    var e, f := s * v.y - l * v.x, s * w.y - k * w.x;
    MulMonotone(0, e, s * w.x + k * w.y);
    MulMonotone(0, f, s * v.x + l * v.y);
    FourProducts(s * v.y, l * v.x, s * w.x, k * w.y);
    FourProducts(s * w.y, k * w.x, s * v.x, l * v.y);
    Exchanged(s, v.y, s, w.x);
    Exchanged(s, v.y, k, w.y);
    Exchanged(l, v.x, s, w.x);
    Exchanged(l, v.x, k, w.y);
    Exchanged(s, w.y, s, v.x);
    Exchanged(s, w.y, l, v.y);
    Exchanged(k, w.x, s, v.x);
    Exchanged(k, w.x, l, v.y);
    SlopeIdentity(s, l, k, p, q, r, t);
    assert w.y * v.x == r && w.y * v.y == q && w.x * v.x == p && w.x * v.y == t;
  }

  lemma SlopeIdentity(s: int, l: int, k: int, p: int, q: int, r: int, t: int)
    ensures (s * s) * t + (s * k) * q - (l * s) * p - (l * k) * r
          + ((s * s) * r + (s * l) * q - (k * s) * p - (k * l) * t)
         == (s * s - l * k) * (r + t) - s * (l + k) * (p - q)
  {
    FourProducts(s * s, l * k, r, t);
    assert s * (l + k) == s * l + s * k;
    var b := s * l + s * k;
    assert b * (p - q) == b * p - b * q;
    Distribute(p, s * l, s * k);
    Distribute(q, s * l, s * k);
    assert l * s == s * l && k * s == s * k && k * l == l * k;
  }

  /** The bound, rounded: l' (S^2 - l k) <= S^2 (l + k). */
  lemma LowerSlope(v: Vector, w: Vector, l: int, k: int, low: int)
    requires l * v.x <= SCALE * v.y && k * w.x <= SCALE * w.y
    requires 0 <= SCALE * w.x + k * w.y && 0 <= SCALE * v.x + l * v.y && 0 <= Times(v, w).x
    requires 0 < SCALE * SCALE - l * k && low * (SCALE * SCALE - l * k) <= SCALE * SCALE * (l + k)
    ensures low * Times(v, w).x <= SCALE * Times(v, w).y
  {
    SumOfSlopes(v, w, l, k);
    hide Times;
    Rounded(SCALE * SCALE - l * k, SCALE, l + k, low, Times(v, w).x, Times(v, w).y);
  }

  lemma Rounded(a: int, s: nat, b: int, low: int, x: int, y: int)
    requires 0 < a && 0 <= x && low * a <= s * s * b && s * b * x <= a * y
    ensures low * x <= s * y
  {
    MulMonotone(low * a, s * s * b, x);
    MulMonotone(s * b * x, a * y, s);
    assert s * b * x * s == s * s * b * x && a * y * s == a * (s * y) && low * a * x == a * (low * x);
    Cancel(a, low * x, s * y);
  }

  /** Angles add up with bounds of their slopes. */
  lemma SlopeSum(a: int, b: int, l1: int, h1: int, l2: int, h2: int, low: int, high: int)
    requires SlopeWithin(a, l1, h1) && SlopeWithin(b, l2, h2) && h1 * h2 < SCALE * SCALE && 0 <= low <= high
    requires low * (SCALE * SCALE - l1 * l2) <= SCALE * SCALE * (l1 + l2)
    requires SCALE * SCALE * (h1 + h2) <= high * (SCALE * SCALE - h1 * h2)
    ensures SlopeWithin(a + b, low, high)
  {
    hide Ray, Times;
    var v, w := Ray(a), Ray(b);
    RaySum(a, b);
    UpperHalf(v, l1, h1);
    UpperHalf(w, l2, h2);
    RightHalf(v, w, h1, h2);
    MulMonotone(l1, h1, l2);
    MulMonotone(l2, h2, h1);
    LowerSlope(v, w, l1, l2, low);
    UpperSlope(v, w, h1, h2, high);
  }

  lemma UpperHalf(v: Vector, l: int, h: int)
    requires 0 < v.x && 0 <= l <= h && l * v.x <= SCALE * v.y
    ensures 0 <= v.y && 0 <= SCALE * v.x + l * v.y && 0 <= SCALE * v.x + h * v.y
  {
    MulMonotone(0, l, v.x);
    MulMonotone(0, v.y, l);
    MulMonotone(0, v.y, h);
  }

  lemma RightHalf(v: Vector, w: Vector, h: nat, k: nat)
    requires 0 < v.x && 0 < w.x && 0 <= v.y && 0 <= w.y && SCALE * v.y <= h * v.x && SCALE * w.y <= k * w.x
    requires h * k < SCALE * SCALE
    ensures 0 < Times(v, w).x
  {
    MulMonotone(SCALE * v.y, h * v.x, SCALE * w.y);
    MulMonotone(SCALE * w.y, k * w.x, h * v.x);
    Exchanged(SCALE, v.y, SCALE, w.y);
    Exchanged(h, v.x, k, w.x);
    MulStrict(0, v.x, w.x);
    MulStrict(h * k, SCALE * SCALE, v.x * w.x);
    Cancel(SCALE * SCALE, v.y * w.y, v.x * w.x);
  }

  /** An upper bound is a lower one of the conjugates. */
  lemma UpperSlope(v: Vector, w: Vector, h: int, k: int, high: int)
    requires SCALE * v.y <= h * v.x && SCALE * w.y <= k * w.x
    requires 0 <= SCALE * w.x + k * w.y && 0 <= SCALE * v.x + h * v.y && 0 <= Times(v, w).x
    requires 0 < SCALE * SCALE - h * k && SCALE * SCALE * (h + k) <= high * (SCALE * SCALE - h * k)
    ensures SCALE * Times(v, w).y <= high * Times(v, w).x
  {
    ConjugatesTimes(v, w);
    Negations(h, v.x);
    Negations(k, w.x);
    Negations(h, v.y);
    Negations(k, w.y);
    Negations(h, k);
    Negations(high, SCALE * SCALE - h * k);
    Negations(high, Times(v, w).x);
    hide Times;
    LowerSlope(Conjugate(v), Conjugate(w), -h, -k, -high);
  }

  lemma ConjugatesTimes(v: Vector, w: Vector)
    ensures Times(Conjugate(v), Conjugate(w)) == Conjugate(Times(v, w))
  {
    Negations(v.x, w.y);
    Negations(v.y, w.x);
    Negations(v.y, w.y);
  }

  lemma Negations(a: int, b: int)
    ensures (-a) * b == -(a * b) && a * (-b) == -(a * b) && (-a) * (-b) == a * b
  {
  }

  /** The difference of two angles. */
  lemma RayDifference(a: nat, b: nat)
    requires b <= a
    ensures var n := Ray(b).x * Ray(b).x + Ray(b).y * Ray(b).y;
            Times(Ray(a), Conjugate(Ray(b))) == Vector(n * Ray(a - b).x, n * Ray(a - b).y)
  {
    hide Ray;
    var v, w := Ray(a - b), Ray(b);
    RaySum(a - b, b);
    TimesAssociates(v, w, Conjugate(w));
    TimesConjugate(w);
    hide Times;
    TimesReal(v, w.x * w.x + w.y * w.y);
  }

  lemma TimesConjugate(w: Vector)
    ensures Times(w, Conjugate(w)) == Vector(w.x * w.x + w.y * w.y, 0)
  {
    Negations(w.y, w.y);
    Negations(w.x, w.y);
  }

  lemma TimesReal(v: Vector, n: int)
    ensures Times(v, Vector(n, 0)) == Vector(n * v.x, n * v.y)
  {
  }

  lemma SlopeDifference(a: int, b: int, l1: int, h1: int, l2: int, h2: int, low: int, high: int)
    requires SlopeWithin(a, l1, h1) && SlopeWithin(b, l2, h2) && b <= a && h2 <= l1 && 0 <= low <= high
    requires low * (SCALE * SCALE + l1 * h2) <= SCALE * SCALE * (l1 - h2)
    requires SCALE * SCALE * (h1 - l2) <= high * (SCALE * SCALE + h1 * l2)
    ensures SlopeWithin(a - b, low, high)
  {
    hide Ray, Times, Conjugate;
    var v, d, w := Ray(a), Ray(b), Conjugate(Ray(b));
    RayDifference(a, b);
    UpperHalf(v, l1, h1);
    UpperHalf(d, l2, h2);
    FlatConjugate(v, d);
    ConjugateBounds(d, h2, l2);
    Negations(l1, h2);
    Negations(h1, l2);
    MulMonotone(0, l1, h2);
    MulMonotone(0, h1, l2);
    LowerSlope(v, w, l1, -h2, low);
    UpperSlope(v, w, h1, -l2, high);
    Unscaled(d, Ray(a - b), low, high);
  }

  lemma ConjugateBounds(d: Vector, h: int, l: int)
    requires l * d.x <= SCALE * d.y <= h * d.x
    ensures -h * Conjugate(d).x <= SCALE * Conjugate(d).y <= -l * Conjugate(d).x
    ensures SCALE * Conjugate(d).x + -h * Conjugate(d).y == SCALE * d.x + h * d.y
    ensures SCALE * Conjugate(d).x + -l * Conjugate(d).y == SCALE * d.x + l * d.y
  {
    Negations(h, d.x);
    Negations(l, d.x);
    Negations(h, d.y);
    Negations(l, d.y);
  }

  /** From the first quadrant, turning back by less than a quarter stays in the right half. */
  lemma FlatConjugate(v: Vector, w: Vector)
    requires 0 < v.x && 0 < w.x && 0 <= v.y && 0 <= w.y
    ensures 0 < Times(v, Conjugate(w)).x
  {
    MulStrict(0, v.x, w.x);
    MulMonotone(0, v.y, w.y);
    Negations(v.y, w.y);
  }

  lemma Unscaled(w: Vector, d: Vector, low: nat, high: nat)
    requires 0 < w.x
    requires var n := w.x * w.x + w.y * w.y;
             0 < n * d.x && low * (n * d.x) <= SCALE * (n * d.y) && SCALE * (n * d.y) <= high * (n * d.x)
    ensures 0 < d.x && low * d.x <= SCALE * d.y <= high * d.x
  {
    var n := w.x * w.x + w.y * w.y;
    MulStrict(0, w.x, w.x);
    assert 0 <= w.y * w.y;
    Exchanged(1, low, n, d.x);
    Exchanged(1, high, n, d.x);
    Exchanged(1, SCALE, n, d.y);
    hide *;
    Cancel(n, 0, d.x);
    Cancel(n, low * d.x, SCALE * d.y);
    Cancel(n, SCALE * d.y, high * d.x);
  }

  lemma UnitRay()
    ensures Ray(1) == Vector(RADIAN, 1)
  {
    hide Times;
    TimesCommutes(Vector(1, 0), Vector(RADIAN, 1));
    TimesOne(Vector(RADIAN, 1));
    assert Ray(0) == Vector(1, 0);
  }

  lemma UnitSlope()
    ensures SlopeWithin(1, 19_190_099_122, 19_190_099_123)
  {
    hide Ray, Times;
    UnitRay();
  }

  lemma FirstSlopes()
    ensures SlopeWithin(1, 19_190_099_122, 19_190_099_123)
    ensures SlopeWithin(2, 38_380_198_244, 38_380_198_247)
    ensures SlopeWithin(4, 76_760_396_488, 76_760_396_495)
    ensures SlopeWithin(7, 134_330_693_852, 134_330_693_869)
    ensures SlopeWithin(14, 268_661_387_704, 268_661_387_739)
    ensures SlopeWithin(29, 556_512_874_538, 556_512_874_611)
    ensures SlopeWithin(57, 1_093_835_650_014, 1_093_835_650_163)
    ensures SlopeWithin(114, 2_187_671_300_532, 2_187_671_300_831)
  {
    hide SlopeWithin;
    UnitSlope();
    SlopeSum(1, 1, 19_190_099_122, 19_190_099_123, 19_190_099_122, 19_190_099_123,
      38_380_198_244, 38_380_198_247);
    SlopeSum(2, 2, 38_380_198_244, 38_380_198_247, 38_380_198_244, 38_380_198_247,
      76_760_396_488, 76_760_396_495);
    SlopeSum(4, 4, 76_760_396_488, 76_760_396_495, 76_760_396_488, 76_760_396_495,
      153_520_792_976, 153_520_792_991);
    SlopeDifference(8, 1, 153_520_792_976, 153_520_792_991, 19_190_099_122, 19_190_099_123,
      134_330_693_852, 134_330_693_869);
    SlopeSum(7, 7, 134_330_693_852, 134_330_693_869, 134_330_693_852, 134_330_693_869,
      268_661_387_704, 268_661_387_739);
    SlopeSum(14, 14, 268_661_387_704, 268_661_387_739, 268_661_387_704, 268_661_387_739,
      537_322_775_415, 537_322_775_486);
    SlopeSum(28, 1, 537_322_775_415, 537_322_775_486, 19_190_099_122, 19_190_099_123,
      556_512_874_538, 556_512_874_611);
    SlopeSum(29, 29, 556_512_874_538, 556_512_874_611, 556_512_874_538, 556_512_874_611,
      1_113_025_749_142, 1_113_025_749_289);
    SlopeDifference(58, 1, 1_113_025_749_142, 1_113_025_749_289, 19_190_099_122, 19_190_099_123,
      1_093_835_650_014, 1_093_835_650_163);
    SlopeSum(57, 57, 1_093_835_650_014, 1_093_835_650_163, 1_093_835_650_014, 1_093_835_650_163,
      2_187_671_300_532, 2_187_671_300_831);
  }

  lemma SecondSlopes()
    ensures SlopeWithin(115, 2_206_861_399_671, 2_206_861_399_972)
    ensures SlopeWithin(229, 4_394_532_704_286, 4_394_532_704_891)
    ensures SlopeWithin(458, 8_789_065_441_261, 8_789_065_442_472)
    ensures SlopeWithin(917, 17_597_321_244_303, 17_597_321_246_728)
    ensures SlopeWithin(1_833, 35_175_454_483_896, 35_175_454_488_749)
    ensures SlopeWithin(3_667, 70_370_115_849_676, 70_370_115_859_385)
  {
    hide SlopeWithin;
    FirstSlopes();
    SlopeSum(114, 1, 2_187_671_300_532, 2_187_671_300_831, 19_190_099_122, 19_190_099_123,
      2_206_861_399_671, 2_206_861_399_972);
    SlopeSum(115, 115, 2_206_861_399_671, 2_206_861_399_972, 2_206_861_399_671, 2_206_861_399_972,
      4_413_722_803_481, 4_413_722_804_084);
    SlopeDifference(230, 1, 4_413_722_803_481, 4_413_722_804_084, 19_190_099_122, 19_190_099_123,
      4_394_532_704_286, 4_394_532_704_891);
    SlopeSum(229, 229, 4_394_532_704_286, 4_394_532_704_891, 4_394_532_704_286, 4_394_532_704_891,
      8_789_065_441_261, 8_789_065_442_472);
    SlopeSum(458, 458, 8_789_065_441_261, 8_789_065_442_472, 8_789_065_441_261, 8_789_065_442_472,
      17_578_131_144_038, 17_578_131_146_461);
    SlopeSum(916, 1, 17_578_131_144_038, 17_578_131_146_461, 19_190_099_122, 19_190_099_123,
      17_597_321_244_303, 17_597_321_246_728);
    SlopeSum(917, 917, 17_597_321_244_303, 17_597_321_246_728, 17_597_321_244_303, 17_597_321_246_728,
      35_194_644_587_595, 35_194_644_592_446);
    SlopeDifference(1_834, 1, 35_194_644_587_595, 35_194_644_592_446, 19_190_099_122, 19_190_099_123,
      35_175_454_483_896, 35_175_454_488_749);
    SlopeSum(1_833, 1_833, 35_175_454_483_896, 35_175_454_488_749, 35_175_454_483_896, 35_175_454_488_749,
      70_350_925_732_258, 70_350_925_741_965);
    SlopeSum(3_666, 1, 70_350_925_732_258, 70_350_925_741_965, 19_190_099_122, 19_190_099_123,
      70_370_115_849_676, 70_370_115_859_385);
  }

  lemma ThirdSlopes()
    ensures SlopeWithin(7_334, 140_740_365_925_056, 140_740_365_944_475)
    ensures SlopeWithin(14_668, 281_481_805_661_896, 281_481_805_700_735)
    ensures SlopeWithin(29_335, 562_953_010_744_251, 562_953_010_821_935)
    ensures SlopeWithin(58_666, 1_125_897_967_141_503, 1_125_897_967_296_908)
    ensures SlopeWithin(117_304, 2_251_807_973_870_989, 2_251_807_974_182_104)
    ensures SlopeWithin(234_608, 4_508_018_341_310_472, 4_508_018_341_934_529)
  {
    hide SlopeWithin;
    FirstSlopes();
    SecondSlopes();
    SlopeSum(3_667, 3_667, 70_370_115_849_676, 70_370_115_859_385, 70_370_115_849_676, 70_370_115_859_385,
      140_740_365_925_056, 140_740_365_944_475);
    SlopeSum(7_334, 7_334, 140_740_365_925_056, 140_740_365_944_475, 140_740_365_925_056, 140_740_365_944_475,
      281_481_805_661_896, 281_481_805_700_735);
    SlopeSum(14_668, 14_668, 281_481_805_661_896, 281_481_805_700_735, 281_481_805_661_896, 281_481_805_700_735,
      562_972_202_014_698, 562_972_202_092_380);
    SlopeDifference(29_336, 1, 562_972_202_014_698, 562_972_202_092_380, 19_190_099_122, 19_190_099_123,
      562_953_010_744_251, 562_953_010_821_935);
    SlopeSum(29_335, 29_335, 562_953_010_744_251, 562_953_010_821_935, 562_953_010_744_251, 562_953_010_821_935,
      1_125_974_746_279_543, 1_125_974_746_434_940);
    SlopeDifference(58_670, 4, 1_125_974_746_279_543, 1_125_974_746_434_940, 76_760_396_488, 76_760_396_495,
      1_125_897_967_141_503, 1_125_897_967_296_908);
    SlopeSum(58_666, 58_666, 1_125_897_967_141_503, 1_125_897_967_296_908, 1_125_897_967_141_503, 1_125_897_967_296_908,
      2_252_345_821_504_887, 2_252_345_821_815_926);
    SlopeDifference(117_332, 29, 2_252_345_821_504_887, 2_252_345_821_815_926, 556_512_874_538, 556_512_874_611,
      2_251_788_765_031_560, 2_251_788_765_342_673);
    SlopeSum(117_303, 1, 2_251_788_765_031_560, 2_251_788_765_342_673, 19_190_099_122, 19_190_099_123,
      2_251_807_973_870_989, 2_251_807_974_182_104);
    SlopeSum(117_304, 117_304, 2_251_807_973_870_989, 2_251_807_974_182_104, 2_251_807_973_870_989,
             2_251_807_974_182_104,
      4_508_018_341_310_472, 4_508_018_341_934_529);
  }

  lemma FourthSlopes()
    ensures SlopeWithin(234_379, 4_503_606_625_592_912, 4_503_606_626_217_573)
    ensures SlopeWithin(466_945, 9_007_198_361_672_336, 9_007_198_362_941_221)
    ensures SlopeWithin(919_909, 18_015_006_087_726_253, 18_015_006_090_424_361)
  {
    hide SlopeWithin;
    FirstSlopes();
    SecondSlopes();
    ThirdSlopes();
    SlopeDifference(234_608, 229, 4_508_018_341_310_472, 4_508_018_341_934_529, 4_394_532_704_286, 4_394_532_704_891,
      4_503_606_625_592_912, 4_503_606_626_217_573);
    SlopeSum(234_379, 234_379, 4_503_606_625_592_912, 4_503_606_626_217_573, 4_503_606_625_592_912,
             4_503_606_626_217_573,
      9_042_535_766_299_225, 9_042_535_767_563_284);
    SlopeDifference(468_758, 1_833, 9_042_535_766_299_225, 9_042_535_767_563_284, 35_175_454_483_896,
                    35_175_454_488_749,
      9_006_808_563_044_637, 9_006_808_564_313_472);
    SlopeSum(466_925, 14, 9_006_808_563_044_637, 9_006_808_564_313_472, 268_661_387_704, 268_661_387_739,
      9_007_081_422_029_526, 9_007_081_423_298_399);
    SlopeSum(466_939, 4, 9_007_081_422_029_526, 9_007_081_423_298_399, 76_760_396_488, 76_760_396_495,
      9_007_159_381_786_209, 9_007_159_383_055_090);
    SlopeSum(466_943, 2, 9_007_159_381_786_209, 9_007_159_383_055_090, 38_380_198_244, 38_380_198_247,
      9_007_198_361_672_336, 9_007_198_362_941_221);
    SlopeSum(466_945, 466_945, 9_007_198_361_672_336, 9_007_198_362_941_221, 9_007_198_361_672_336,
             9_007_198_362_941_221,
      18_300_339_470_874_320, 18_300_339_473_534_216);
    SlopeDifference(933_890, 14_668, 18_300_339_470_874_320, 18_300_339_473_534_216, 281_481_805_661_896,
                    281_481_805_700_735,
      18_000_999_099_708_832, 18_000_999_102_404_762);
    SlopeSum(919_222, 458, 18_000_999_099_708_832, 18_000_999_102_404_762, 8_789_065_441_261, 8_789_065_442_472,
      18_010_336_949_391_511, 18_010_336_952_088_893);
    SlopeSum(919_680, 229, 18_010_336_949_391_511, 18_010_336_952_088_893, 4_394_532_704_286, 4_394_532_704_891,
      18_015_006_087_726_253, 18_015_006_090_424_361);
  }

  lemma FifthSlopes()
    ensures SlopeWithin(919_879, 18_014_394_402_111_304, 18_014_394_404_809_481)
    ensures SlopeWithin(1_740_967, 36_028_794_657_605_882, 36_028_794_664_404_696)
  {
    hide SlopeWithin;
    FirstSlopes();
    SecondSlopes();
    ThirdSlopes();
    FourthSlopes();
    SlopeDifference(919_909, 29, 18_015_006_087_726_253, 18_015_006_090_424_361, 556_512_874_538, 556_512_874_611,
      18_014_414_791_592_433, 18_014_414_794_290_609);
    SlopeDifference(919_880, 1, 18_014_414_791_592_433, 18_014_414_794_290_609, 19_190_099_122, 19_190_099_123,
      18_014_394_402_111_304, 18_014_394_404_809_481);
    SlopeSum(919_879, 919_879, 18_014_394_402_111_304, 18_014_394_404_809_481, 18_014_394_402_111_304,
             18_014_394_404_809_481,
      38_430_706_889_519_112, 38_430_706_896_042_705);
    SlopeDifference(1_839_758, 117_304, 38_430_706_889_519_112, 38_430_706_896_042_705, 2_251_807_973_870_989,
                    2_251_807_974_182_104,
      35_585_800_248_414_530, 35_585_800_255_118_767);
    SlopeSum(1_722_454, 14_668, 35_585_800_248_414_530, 35_585_800_255_118_767, 281_481_805_661_896,
             281_481_805_700_735,
      35_936_609_412_074_960, 35_936_609_418_853_741);
    SlopeSum(1_737_122, 3_667, 35_936_609_412_074_960, 35_936_609_418_853_741, 70_370_115_849_676, 70_370_115_859_385,
      36_024_524_961_861_159, 36_024_524_968_658_691);
    SlopeSum(1_740_789, 229, 36_024_524_961_861_159, 36_024_524_968_658_691, 4_394_532_704_286, 4_394_532_704_891,
      36_030_018_034_701_098, 36_030_018_041_499_802);
    SlopeDifference(1_741_018, 57, 36_030_018_034_701_098, 36_030_018_041_499_802, 1_093_835_650_014, 1_093_835_650_163,
      36_028_650_731_981_230, 36_028_650_738_780_018);
    SlopeSum(1_740_961, 4, 36_028_650_731_981_230, 36_028_650_738_780_018, 76_760_396_488, 76_760_396_495,
      36_028_746_682_372_112, 36_028_746_689_170_917);
    SlopeSum(1_740_965, 2, 36_028_746_682_372_112, 36_028_746_689_170_917, 38_380_198_244, 38_380_198_247,
      36_028_794_657_605_882, 36_028_794_664_404_696);
  }

  lemma SixthSlopes()
    ensures SlopeWithin(2_949_121, 72_057_638_627_472_082, 72_057_638_645_010_166)
    ensures SlopeWithin(2_949_119, 72_057_561_867_068_974, 72_057_561_884_607_046)
  {
    hide SlopeWithin;
    FirstSlopes();
    SecondSlopes();
    ThirdSlopes();
    FourthSlopes();
    FifthSlopes();
    SlopeSum(1_740_967, 919_879, 36_028_794_657_605_882, 36_028_794_664_404_696, 18_014_394_402_111_304,
             18_014_394_404_809_481,
      61_763_642_049_612_164, 61_763_642_063_452_439);
    SlopeSum(2_660_846, 234_379, 61_763_642_049_612_164, 61_763_642_063_452_439, 4_503_606_625_592_912,
             4_503_606_626_217_573,
      70_018_230_533_355_262, 70_018_230_550_076_804);
    SlopeSum(2_895_225, 58_666, 70_018_230_533_355_262, 70_018_230_550_076_804, 1_125_897_967_141_503,
             1_125_897_967_296_908,
      72_240_945_244_662_662, 72_240_945_262_219_501);
    SlopeDifference(2_953_891, 3_667, 72_240_945_244_662_662, 72_240_945_262_219_501, 70_370_115_849_676,
                    70_370_115_859_385,
      72_099_984_452_507_813, 72_099_984_470_049_771);
    SlopeDifference(2_950_224, 917, 72_099_984_452_507_813, 72_099_984_470_049_771, 17_597_321_244_303,
                    17_597_321_246_728,
      72_064_777_702_402_753, 72_064_777_719_940_994);
    SlopeDifference(2_949_307, 229, 72_064_777_702_402_753, 72_064_777_719_940_994, 4_394_532_704_286,
                    4_394_532_704_891,
      72_055_988_296_825_310, 72_055_988_314_362_623);
    SlopeSum(2_949_078, 57, 72_055_988_296_825_310, 72_055_988_314_362_623, 1_093_835_650_014, 1_093_835_650_163,
      72_058_175_952_583_436, 72_058_175_970_121_580);
    SlopeDifference(2_949_135, 14, 72_058_175_952_583_436, 72_058_175_970_121_580, 268_661_387_704, 268_661_387_739,
      72_057_638_627_472_082, 72_057_638_645_010_166);
    SlopeDifference(2_949_121, 1, 72_057_638_627_472_082, 72_057_638_645_010_166, 19_190_099_122, 19_190_099_123,
      72_057_600_247_260_307, 72_057_600_264_798_385);
    SlopeDifference(2_949_120, 1, 72_057_600_247_260_307, 72_057_600_264_798_385, 19_190_099_122, 19_190_099_123,
      72_057_561_867_068_974, 72_057_561_884_607_046);
  }

  /** Half a unit as a slope. */
  const HALF_UNIT: int := 9_595_049_561

  /** 2^-(i+1) as a slope. */
  ghost function Tangent(i: nat): (t: int)
    requires i < STEPS
  {
    SCALE / Pow2(i + 1)
  }

  lemma Powers()
    ensures Pow2(1) == 2 && Pow2(2) == 4 && Pow2(3) == 8 && Pow2(4) == 16 && Pow2(5) == 32 && Pow2(6) == 64
    ensures Pow2(7) == 128 && Pow2(8) == 256 && Pow2(9) == 512 && Pow2(10) == 1024 && Pow2(11) == 2048
    ensures Pow2(12) == 4096 && Pow2(13) == 8192 && Pow2(14) == 0x4000 && Pow2(15) == 0x8000
    ensures Pow2(16) == 0x1_0000 && Pow2(17) == 0x2_0000 && Pow2(18) == 0x4_0000 && Pow2(19) == 0x8_0000
    ensures Pow2(20) == 0x10_0000 && Pow2(21) == 0x20_0000 && Pow2(22) == 0x40_0000
  {
    assert Pow2(8) == 256;
    assert Pow2(16) == 0x1_0000 by { Pow2Sum(8, 8); }
    assert Pow2(14) == 0x4000;
    assert Pow2(20) == 0x10_0000;
  }

  lemma Widen(i: nat, a: int, low: int, high: int)
    requires i < STEPS && SlopeWithin(a, low, high) && a == ARCTAN[i]
    requires 0 <= Tangent(i) - HALF_UNIT <= low && high <= Tangent(i) + HALF_UNIT
    ensures SlopeWithin(ARCTAN[i], Tangent(i) - HALF_UNIT, Tangent(i) + HALF_UNIT)
  {
    hide Ray, Tangent;
    MulMonotone(Tangent(i) - HALF_UNIT, low, Ray(a).x);
    MulMonotone(high, Tangent(i) + HALF_UNIT, Ray(a).x);
  }

  lemma EarlySlope(i: nat)
    requires 0 <= i < 7
    ensures SlopeWithin(ARCTAN[i], Tangent(i) - HALF_UNIT, Tangent(i) + HALF_UNIT)
  {
    Powers();
    hide SlopeWithin, Pow2;
    ThirdSlopes();
    FourthSlopes();
    FifthSlopes();
    match i {
      case 0 => Widen(0, 1_740_967, 36_028_794_657_605_882, 36_028_794_664_404_696);
      case 1 => Widen(1, 919_879, 18_014_394_402_111_304, 18_014_394_404_809_481);
      case 2 => Widen(2, 466_945, 9_007_198_361_672_336, 9_007_198_362_941_221);
      case 3 => Widen(3, 234_379, 4_503_606_625_592_912, 4_503_606_626_217_573);
      case 4 => Widen(4, 117_304, 2_251_807_973_870_989, 2_251_807_974_182_104);
      case 5 => Widen(5, 58_666, 1_125_897_967_141_503, 1_125_897_967_296_908);
      case _ => Widen(i, 29_335, 562_953_010_744_251, 562_953_010_821_935);
    }
  }

  lemma MiddleSlope(i: nat)
    requires 7 <= i < 14
    ensures SlopeWithin(ARCTAN[i], Tangent(i) - HALF_UNIT, Tangent(i) + HALF_UNIT)
  {
    Powers();
    hide SlopeWithin, Pow2;
    SecondSlopes();
    ThirdSlopes();
    match i {
      case 7 => Widen(7, 14_668, 281_481_805_661_896, 281_481_805_700_735);
      case 8 => Widen(8, 7_334, 140_740_365_925_056, 140_740_365_944_475);
      case 9 => Widen(9, 3_667, 70_370_115_849_676, 70_370_115_859_385);
      case 10 => Widen(10, 1_833, 35_175_454_483_896, 35_175_454_488_749);
      case 11 => Widen(11, 917, 17_597_321_244_303, 17_597_321_246_728);
      case 12 => Widen(12, 458, 8_789_065_441_261, 8_789_065_442_472);
      case _ => Widen(i, 229, 4_394_532_704_286, 4_394_532_704_891);
    }
  }

  lemma LateSlope(i: nat)
    requires 14 <= i < 22
    ensures SlopeWithin(ARCTAN[i], Tangent(i) - HALF_UNIT, Tangent(i) + HALF_UNIT)
  {
    Powers();
    hide SlopeWithin, Pow2;
    FirstSlopes();
    SecondSlopes();
    match i {
      case 14 => Widen(14, 115, 2_206_861_399_671, 2_206_861_399_972);
      case 15 => Widen(15, 57, 1_093_835_650_014, 1_093_835_650_163);
      case 16 => Widen(16, 29, 556_512_874_538, 556_512_874_611);
      case 17 => Widen(17, 14, 268_661_387_704, 268_661_387_739);
      case 18 => Widen(18, 7, 134_330_693_852, 134_330_693_869);
      case 19 => Widen(19, 4, 76_760_396_488, 76_760_396_495);
      case 20 => Widen(20, 2, 38_380_198_244, 38_380_198_247);
      case _ => Widen(i, 1, 19_190_099_122, 19_190_099_123);
    }
  }

  /** Each table entry is the angle whose tangent is 2^-(i+1), up to half a unit. */
  lemma TableSlope(i: nat)
    requires i < STEPS
    ensures SlopeWithin(ARCTAN[i], Tangent(i) - HALF_UNIT, Tangent(i) + HALF_UNIT)
  {
    if i < 7 {
      EarlySlope(i);
    } else if i < 14 {
      MiddleSlope(i);
    } else {
      LateSlope(i);
    }
  }

  /** The unit is 1/65536 degree: an eighth of a turn, where the slope is one, has 45 times as many,
      up to one. */
  lemma EighthTurn()
    ensures 0 < Ray(PI4 - 1).y < Ray(PI4 - 1).x && 0 < Ray(PI4 + 1).x < Ray(PI4 + 1).y
  {
    hide Ray;
    SixthSlopes();
  }

  // ---------------------------------------------------------------- one micro-rotation

  function Cross(v: Vector, w: Vector): int {
    v.x * w.y - v.y * w.x
  }

  function Dot(v: Vector, w: Vector): int {
    v.x * w.x + v.y * w.y
  }

  /** w comes from v by a left turn whose tangent is 1/m, up to the rounding of its two shifts. */
  ghost predicate TurnsLeft(v: Vector, w: Vector, m: nat) {
    && 2 * Abs(m * Cross(v, w) - Squared(v)) <= m * Extent(v)
    && 2 * Abs(Dot(v, w) - Squared(v)) <= Extent(v)
  }

  /** Two components, each times an error of half a unit. */
  lemma TwoErrors(x: int, y: int, f: int, g: int, m: nat)
    requires 2 * Abs(f) <= m && 2 * Abs(g) <= m
    ensures 2 * Abs(x * f + y * g) <= m * (Abs(x) + Abs(y)) && 2 * Abs(x * f - y * g) <= m * (Abs(x) + Abs(y))
  {
    ErrorTimes(f, x, m, Abs(x));
    ErrorTimes(g, y, m, Abs(y));
    Distribute(m, Abs(x), Abs(y));
    assert f * x == x * f && g * y == y * g;
  }

  lemma LeftTurn(v: Vector, m: nat, a: int, b: int)
    requires 0 < m && 2 * Abs(m * a - v.y) <= m && 2 * Abs(m * b - v.x) <= m
    ensures TurnsLeft(v, Vector(v.x - a, v.y + b), m)
  {
    var f, g := m * a - v.y, m * b - v.x;
    TwoErrors(v.x, v.y, g, f, m);
    TwoErrors(v.y, v.x, g, f, m);
    CrossOfTurn(v.x, v.y, a, b, m);
    DotOfTurn(v.x, v.y, a, b, m);
    var w := Vector(v.x - a, v.y + b);
    HalfOff(m, Dot(v, w) - Squared(v), Extent(v));
  }

  lemma CrossOfTurn(x: int, y: int, a: int, b: int, m: int)
    ensures m * (x * (y + b) - y * (x - a)) - (x * x + y * y) == x * (m * b - x) + y * (m * a - y)
  {
    Distribute(x, y, b);
    Distribute(y, x, -a);
    Distribute(m, x * b, y * a);
    assert m * (x * b) == x * (m * b) && m * (y * a) == y * (m * a) && y * -a == -(y * a) && x * y == y * x;
    Distribute(x, m * b, -x);
    Distribute(y, m * a, -y);
    Negations(x, x);
    Negations(y, y);
  }

  lemma DotOfTurn(x: int, y: int, a: int, b: int, m: int)
    ensures m * (x * (x - a) + y * (y + b) - (x * x + y * y)) == y * (m * b - x) - x * (m * a - y)
  {
    Distribute(x, x, -a);
    Distribute(y, y, b);
    Negations(x, a);
    Distribute(m, y * b, -(x * a));
    assert m * (y * b) == y * (m * b) && m * (x * a) == x * (m * a) && m * -(x * a) == -(m * (x * a));
    Distribute(y, m * b, -x);
    Distribute(x, m * a, -y);
    Negations(y, x);
    Negations(x, y);
  }

  lemma HalfOff(m: nat, off: int, e: nat)
    requires 0 < m && 2 * Abs(m * off) <= m * e
    ensures 2 * Abs(off) <= e
  {
    NatTimesAbs(m, off);
    assert m * (2 * Abs(off)) == 2 * (m * Abs(off));
    Cancel(m, 2 * Abs(off), e);
  }

  /** The left micro-rotation turns counterclockwise, by the angle with tangent 2^-(i+1); the right one
      is its mirror image. */
  lemma MicroTurns(v: Vector, i: nat)
    requires Extent(v) < 4 * ROOM && i < STEPS
    ensures TurnsLeft(v, Micro(v, i, true), Pow2(i + 1))
    ensures TurnsLeft(Conjugate(v), Conjugate(Micro(v, i, false)), Pow2(i + 1))
  {
    hide Abs, Extent, RoundShift, Pow2, Wrap64, TurnsLeft;
    var m, a, b := Pow2(i + 1), RoundShift(v.y, i), RoundShift(v.x, i);
    ComponentsWithin(v);
    RoundShiftNear(v.x, i);
    RoundShiftNear(v.y, i);
    SumFits(v.x, a);
    SumFits(v.y, b);
    LeftTurn(v, m, a, b);
    MirroredError(m, a, v.y);
    LeftTurn(Conjugate(v), m, -a, b);
    assert Conjugate(Vector(v.x + a, v.y - b)) == Vector(v.x - -a, -v.y + b);
  }

  lemma MirroredError(m: int, a: int, y: int)
    ensures Abs(m * -a - -y) == Abs(m * a - y)
  {
    Negations(m, a);
  }

  // ---------------------------------------------------------------- directions up to a few units

  /** v, turned back by a units, is off the positive axis by at most e units. */
  ghost predicate Near(v: Vector, a: int, e: int) {
    OnAxis(Times(v, Conjugate(Direction(a))), e)
  }

  predicate OnAxis(u: Vector, e: int) {
    0 < u.x && RADIAN * Abs(u.y) <= e * u.x
  }

  lemma AxisTimes(u: Vector, v: Vector, e: nat, g: nat)
    requires OnAxis(u, e) && OnAxis(v, g) && e + g <= 1000
    ensures OnAxis(Times(u, v), e + g + 1)
  {
    var p, q := u.x * v.x, u.y * v.y;
    MulStrict(0, u.x, v.x);
    SidewaysOff(u.x, u.y, v.x, v.y, e, g);
    SquaredOff(u.x, u.y, v.x, v.y, e, g);
    MulMonotone(e, 1000, g);
    MulMonotone(e * g, 1_000_000, p);
    hide Abs;
    AxisBound(e + g, p, q, RADIAN * Abs(u.x * v.y + u.y * v.x));
  }

  /** The imaginary part of the product. */
  lemma SidewaysOff(x: nat, y: int, z: nat, w: int, e: nat, g: nat)
    requires RADIAN * Abs(y) <= e * x && RADIAN * Abs(w) <= g * z
    ensures RADIAN * Abs(x * w + y * z) <= (e + g) * (x * z)
  {
    NatTimesAbs(x, w);
    NatTimesAbs(z, y);
    assert z * y == y * z;
    OneSide(Abs(y), e, x, z);
    OneSide(Abs(w), g, z, x);
    assert z * x == x * z;
    Distribute(x * z, e, g);
    hide Abs;
    SumOfErrors(x * w, y * z);
    MulMonotone(Abs(x * w + y * z), Abs(x * w) + Abs(y * z), RADIAN);
  }

  lemma OneSide(y: nat, e: nat, x: nat, z: nat)
    requires RADIAN * y <= e * x
    ensures RADIAN * (z * y) <= e * (x * z)
  {
    MulMonotone(RADIAN * y, e * x, z);
    Regroup(RADIAN, z, y);
    Regroup(z, e, x);
  }

  /** What it takes from the real part. */
  lemma SquaredOff(x: nat, y: int, z: nat, w: int, e: nat, g: nat)
    requires RADIAN * Abs(y) <= e * x && RADIAN * Abs(w) <= g * z
    ensures RADIAN * RADIAN * Abs(y * w) <= e * g * (x * z)
  {
    AbsProduct(y, w);
    MulMonotone(RADIAN * Abs(y), e * x, RADIAN * Abs(w));
    MulMonotone(RADIAN * Abs(w), g * z, e * x);
    Exchanged(RADIAN, Abs(y), RADIAN, Abs(w));
    Exchanged(e, x, g, z);
  }

  lemma AxisBound(k: nat, p: int, q: int, off: int)
    requires k <= 1000 && 0 < p && off <= k * p && RADIAN * RADIAN * Abs(q) <= 1_000_000 * p
    ensures 0 < p - q && off <= (k + 1) * (p - q)
  {
    Distribute(p, k, 1);
    Distribute(k + 1, p, -q);
    MulMonotone(k + 1, 1001, Abs(q));
    assert (k + 1) * -q <= 1001 * Abs(q) && (k + 1) * -q >= -1001 * Abs(q) by {
      NatTimesAbs(k + 1, -q);
    }
  }

  /** A vector, n times as long. */
  function Longer(n: int, v: Vector): Vector {
    Vector(n * v.x, n * v.y)
  }

  lemma LongerOnAxis(n: nat, u: Vector, e: nat)
    requires 0 < n
    ensures OnAxis(Longer(n, u), e) <==> OnAxis(u, e)
  {
    NatTimesAbs(n, u.y);
    Regroup(RADIAN, n, Abs(u.y));
    Regroup(e, n, u.x);
    hide Abs;
    Cancel(n, 0, u.x);
    Cancel(n, RADIAN * Abs(u.y), e * u.x);
    if 0 < u.x {
      MulStrict(0, u.x, n);
    }
    MulMonotone(Min(RADIAN * Abs(u.y), e * u.x), e * u.x, n);
  }

  lemma TimesLonger(n: int, v: Vector, w: Vector)
    ensures Times(Longer(n, v), w) == Longer(n, Times(v, w)) == Times(v, Longer(n, w))
    ensures Conjugate(Longer(n, v)) == Longer(n, Conjugate(v))
  {
    TimesReal(v, n);
    TimesReal(w, n);
    TimesReal(Times(v, w), n);
    TimesCommutes(v, Vector(n, 0));
    TimesAssociates(Vector(n, 0), v, w);
    TimesAssociates(v, w, Vector(n, 0));
    TimesCommutes(Times(v, w), Vector(n, 0));
    Negations(n, v.y);
    hide Times;
  }

  lemma Interchange(p: Vector, q: Vector, r: Vector, s: Vector)
    ensures Times(Times(p, q), Times(r, s)) == Times(Times(p, r), Times(q, s))
  {
    hide Times;
    TimesAssociates(p, q, Times(r, s));
    TimesAssociates(q, r, s);
    TimesCommutes(q, r);
    TimesAssociates(r, q, s);
    TimesAssociates(p, r, Times(q, s));
  }

  lemma NormTimes(v: Vector, w: Vector)
    ensures Squared(Times(v, w)) == Squared(v) * Squared(w)
  {
    hide Squared;
    TimesConjugate(v);
    TimesConjugate(w);
    TimesConjugate(Times(v, w));
    ConjugatesTimes(v, w);
    Interchange(v, w, Conjugate(v), Conjugate(w));
    SquaredIs(v);
    SquaredIs(w);
    SquaredIs(Times(v, w));
    RealTimes(Squared(v), Squared(w));
    hide Times, Conjugate;
  }

  lemma SquaredIs(v: Vector)
    ensures Squared(v) == v.x * v.x + v.y * v.y && 0 <= Squared(v)
  {
  }

  lemma RealTimes(a: int, b: int)
    ensures Times(Vector(a, 0), Vector(b, 0)) == Vector(a * b, 0)
  {
  }

  lemma {:induction false} RayNotZero(n: nat)
    ensures 0 < Squared(Ray(n))
  {
    hide Times;
    if n == 0 {
      assert Squared(Vector(1, 0)) == 1;
    } else {
      RayNotZero(n - 1);
      NormTimes(Ray(n - 1), Vector(RADIAN, 1));
      assert 0 < Squared(Vector(RADIAN, 1));
      hide Squared;
      MulStrict(0, Squared(Ray(n - 1)), Squared(Vector(RADIAN, 1)));
    }
  }

  lemma ConjugateTwice(v: Vector)
    ensures Conjugate(Conjugate(v)) == v
  {
  }

  /** Directions multiply to the direction of the sum, up to the length. */
  lemma DirectionSum(a: int, c: int) returns (n: nat)
    ensures 0 < n && Times(Direction(a), Direction(c)) == Longer(n, Direction(a + c))
  {
    hide Times, Ray, Squared, Conjugate, Longer;
    if 0 <= a {
      n := SumFromRight(a, c);
    } else if 0 <= c {
      TimesCommutes(Direction(a), Direction(c));
      n := SumFromRight(c, a);
    } else {
      n := 1;
      RaySum(-a, -c);
      ConjugatesTimes(Ray(-a), Ray(-c));
      LongerOnce(Direction(a + c));
    }
  }

  lemma LongerOnce(v: Vector)
    ensures Longer(1, v) == v
  {
  }

  lemma SumFromRight(a: nat, c: int) returns (n: nat)
    ensures 0 < n && Times(Direction(a), Direction(c)) == Longer(n, Direction(a + c))
  {
    hide Times, Ray, Squared, Conjugate, Longer;
    if 0 <= c {
      n := 1;
      RaySum(a, c);
      LongerOnce(Direction(a + c));
    } else if 0 <= a + c {
      RayNotZero(-c);
      n := Squared(Ray(-c));
      TurnedBack(a, -c);
    } else {
      RayNotZero(a);
      n := Squared(Ray(a));
      TurnedBack(-c, a);
      ConjugateTwice(Ray(a));
      ConjugatesTimes(Ray(-c), Conjugate(Ray(a)));
      TimesCommutes(Ray(a), Conjugate(Ray(-c)));
      TimesLonger(n, Ray(-c - a), Ray(0));
    }
  }

  lemma TurnedBack(a: nat, b: nat)
    requires b <= a
    ensures Times(Ray(a), Conjugate(Ray(b))) == Longer(Squared(Ray(b)), Ray(a - b))
  {
    hide Times, Ray, Conjugate;
    RayDifference(a, b);
    SquaredIs(Ray(b));
    hide Squared;
  }

  /** Angles add up, and what they are off by does, too. */
  lemma NearTimes(v: Vector, a: int, e: nat, z: Vector, c: int, g: nat)
    requires Near(v, a, e) && Near(z, c, g) && e + g <= 1000
    ensures Near(Times(v, z), a + c, e + g + 1)
  {
    hide Times, Conjugate, OnAxis, Direction, Longer;
    var n := DirectionSum(a, c);
    AxisTimes(Times(v, Conjugate(Direction(a))), Times(z, Conjugate(Direction(c))), e, g);
    Interchange(v, Conjugate(Direction(a)), z, Conjugate(Direction(c)));
    ConjugatesTimes(Direction(a), Direction(c));
    TimesLonger(n, Direction(a + c), Direction(0));
    TimesLonger(n, Times(v, z), Conjugate(Direction(a + c)));
    TimesLonger(n, Times(v, z), Direction(0));
    LongerFactor(n, Times(v, z), Conjugate(Direction(a + c)));
    LongerOnAxis(n, Times(Times(v, z), Conjugate(Direction(a + c))), e + g + 1);
  }

  lemma LongerFactor(n: int, v: Vector, w: Vector)
    ensures Times(v, Longer(n, w)) == Longer(n, Times(v, w))
  {
    TimesLonger(n, v, w);
  }

  lemma NearLonger(n: nat, v: Vector, a: int, e: nat)
    requires 0 < n
    ensures Near(Longer(n, v), a, e) <==> Near(v, a, e)
  {
    hide Times, Conjugate, OnAxis, Direction, Longer;
    TimesLonger(n, v, Conjugate(Direction(a)));
    LongerOnAxis(n, Times(v, Conjugate(Direction(a))), e);
  }

  lemma NearConjugate(v: Vector, a: int, e: nat)
    requires Near(v, a, e)
    ensures Near(Conjugate(v), -a, e)
  {
    hide Times, Ray;
    var d := Conjugate(Direction(a));
    ConjugatesTimes(v, d);
    assert Conjugate(Direction(-a)) == Conjugate(d) by {
      ConjugateTwice(Ray(Abs(a)));
      if a == 0 {
        assert Ray(0) == Vector(1, 0) by { RayZero(); }
      }
    }
  }

  lemma RayZero()
    ensures Ray(0) == Vector(1, 0)
  {
  }

  // ---------------------------------------------------------------- the rotation keeps its direction

  /** A turn by tangent 1/m of a vector that is long against its rounding: the quotient of the two
      has the slope 1/m, up to 2^34 / SCALE. */
  lemma TurnSlope(s: nat, e: nat, m: nat, t: nat, cross: int, dot: int)
    requires 2 <= m <= 0x40_0000 && t * m == SCALE && 0 < s && 0x40_0000 * e <= s
    requires 2 * Abs(m * cross - s) <= m * e && 2 * Abs(dot - s) <= e
    ensures 0 < dot && 0 < cross && Abs(SCALE * cross - t * dot) <= 0x4_0000_0000 * dot
  {
    var p, q := m * cross, m * e;
    MulMonotone(m, 0x40_0000, e);
    MulMonotone(2, m, e);
    LeftIsPositive(m, cross, s, q);
    assert 4 * Abs(p - dot) <= 3 * q;
    SlopeOfTurn(t, m, e, p, q, dot, s);
    Regroup(t, m, cross);
  }

  lemma LeftIsPositive(m: nat, cross: int, s: nat, q: int)
    requires 0 < m && 0 < s && q <= s && 2 * Abs(m * cross - s) <= q
    ensures 0 < cross
  {
    if cross <= 0 {
      MulMonotone(cross, 0, m);
    }
  }

  lemma SlopeOfTurn(t: nat, m: nat, e: nat, p: int, q: int, dot: int, s: nat)
    requires t * m == SCALE && q == m * e && 4 * Abs(p - dot) <= 3 * q
    requires 0 < s && 0x40_0000 * e <= s && 2 * Abs(dot - s) <= e
    ensures 0 < dot && Abs(t * p - t * dot) <= 0x4_0000_0000 * dot
  {
    TurnRoom(s, e, dot);
    NatTimesAbs(t, p - dot);
    TimesLess(t, p, dot);
    Regroup(t, m, e);
    assert t * q == SCALE * e;
    hide Abs;
    TimesOff(t, Abs(p - dot), q);
  }

  lemma TimesOff(t: nat, off: nat, q: int)
    requires 4 * off <= 3 * q
    ensures 4 * (t * off) <= 3 * (t * q)
  {
    MulMonotone(4 * off, 3 * q, t);
    assert 4 * off * t == 4 * (t * off) && 3 * q * t == 3 * (t * q);
  }

  lemma TurnRoom(s: nat, e: nat, dot: int)
    requires 0 < s && 0x40_0000 * e <= s && 2 * Abs(dot - s) <= e
    ensures 0 < dot && 3 * (SCALE * e) <= 4 * (0x4_0000_0000 * dot)
  {
  }

  /** Two vectors whose slopes are the same up to a small difference. */
  lemma SameSlope(z: Vector, d: Vector, t: int, eta: nat, h: nat)
    requires 0 < z.x && 0 <= z.y && 0 < d.x && 0 <= d.y
    requires Abs(SCALE * z.y - t * z.x) <= eta * z.x && Abs(SCALE * d.y - t * d.x) <= h * d.x
    requires RADIAN * (eta + h) <= 2 * SCALE
    ensures OnAxis(Times(z, Conjugate(d)), 2)
  {
    Negations(z.y, d.y);
    Negations(z.x, d.y);
    MulStrict(0, z.x, d.x);
    MulMonotone(0, z.y, d.y);
    SlopesApart(z.x, z.y, d.x, d.y, t, SCALE);
    var p, y := z.x * d.x, z.y * d.x - z.x * d.y;
    hide Abs;
    SlopeErrors(z.x, d.x, eta, h, SCALE * z.y - t * z.x, SCALE * d.y - t * d.x);
    NatTimesAbs(SCALE, y);
    AxisRoom(Abs(y), p, eta + h);
  }

  lemma SlopeErrors(x: nat, c: nat, eta: nat, h: nat, f: int, g: int)
    requires Abs(f) <= eta * x && Abs(g) <= h * c
    ensures Abs(c * f - x * g) <= (eta + h) * (x * c)
  {
    NatTimesAbs(c, f);
    NatTimesAbs(x, g);
    ErrorDifference(c * f, x * g);
    hide Abs;
    MulMonotone(Abs(f), eta * x, c);
    MulMonotone(Abs(g), h * c, x);
    assert eta * x * c == eta * (x * c) && h * c * x == h * (x * c);
    assert Abs(f) * c == c * Abs(f) && Abs(g) * x == x * Abs(g);
    Distribute(x * c, eta, h);
  }

  lemma AxisRoom(y: nat, p: int, k: nat)
    requires SCALE * y <= k * p && RADIAN * k <= 2 * SCALE && 0 <= p
    ensures RADIAN * y <= 2 * p
  {
    MulMonotone(SCALE * y, k * p, RADIAN);
    MulMonotone(RADIAN * k, 2 * SCALE, p);
    assert k * p * RADIAN == RADIAN * k * p && SCALE * y * RADIAN == SCALE * (RADIAN * y);
    Cancel(SCALE, RADIAN * y, 2 * p);
  }

  lemma ErrorDifference(x: int, y: int)
    ensures Abs(x - y) <= Abs(x) + Abs(y)
  {
  }

  lemma SlopesApart(a: int, b: int, c: int, d: int, t: int, s: int)
    ensures s * (b * c - a * d) == c * (s * b - t * a) - a * (s * d - t * c)
  {
    TimesLess(s, b * c, a * d);
    TimesLess(c, s * b, t * a);
    TimesLess(a, s * d, t * c);
    assert s * (b * c) == c * (s * b) && s * (a * d) == a * (s * d) && c * (t * a) == a * (t * c);
  }

  lemma TangentTimes(i: nat)
    requires i < STEPS
    ensures 0 <= Tangent(i) && Tangent(i) * Pow2(i + 1) == SCALE && 2 <= Pow2(i + 1) <= 0x40_0000
  {
    Powers();
    Pow2Grows(1, i + 1);
    Pow2Grows(i + 1, 22);
    Pow2Sum(i + 1, 22 - (i + 1));
    var m, k := Pow2(i + 1), Pow2(22 - (i + 1));
    hide Pow2;
    DivUnique(SCALE, m, 0x4_0000_0000 * k, 0);
  }

  lemma QuotientOf(v: Vector, w: Vector)
    ensures Times(w, Conjugate(v)) == Vector(Dot(v, w), Cross(v, w))
  {
    Negations(w.y, v.y);
    Negations(w.x, v.y);
  }

  /** A turn by the tangent of step i is a turn by the angle in the table. */
  lemma LeftNear(v: Vector, w: Vector, i: nat)
    requires i < STEPS && TurnsLeft(v, w, Pow2(i + 1)) && 0 < Squared(v) && 0x40_0000 * Extent(v) <= Squared(v)
    ensures Near(Times(w, Conjugate(v)), ARCTAN[i], 2)
  {
    hide Ray, Times, Conjugate, Squared, Extent, Pow2, Tangent, Cross, Dot, OnAxis, Abs;
    var m, t := Pow2(i + 1), Tangent(i);
    TangentTimes(i);
    TurnSlope(Squared(v), Extent(v), m, t, Cross(v, w), Dot(v, w));
    QuotientOf(v, w);
    NearTable(Vector(Dot(v, w), Cross(v, w)), i);
  }

  lemma NearTable(z: Vector, i: nat)
    requires i < STEPS && 0 < z.x && 0 < z.y && Abs(SCALE * z.y - Tangent(i) * z.x) <= 0x4_0000_0000 * z.x
    ensures Near(z, ARCTAN[i], 2)
  {
    hide Ray, Times, Conjugate, Tangent, OnAxis, Abs;
    TableSlope(i);
    var d := Ray(ARCTAN[i]);
    AroundTangent(d, Tangent(i));
    SameSlope(z, d, Tangent(i), 0x4_0000_0000, HALF_UNIT);
    TableCovers(i);
    assert Direction(ARCTAN[i]) == d;
  }

  lemma AroundTangent(d: Vector, t: int)
    requires 0 < d.x && 0 <= t - HALF_UNIT && (t - HALF_UNIT) * d.x <= SCALE * d.y <= (t + HALF_UNIT) * d.x
    ensures Abs(SCALE * d.y - t * d.x) <= HALF_UNIT * d.x && 0 <= d.y
  {
    MulMonotone(0, t - HALF_UNIT, d.x);
    Distribute(d.x, t, HALF_UNIT);
    Distribute(d.x, t, -HALF_UNIT);
  }

  /** The micro-rotation of step i, seen from the vector that it turns, is at the angle of the table. */
  lemma StepNear(v: Vector, i: nat, left: bool)
    requires i < STEPS && Extent(v) < 4 * ROOM && 0 < Squared(v) && 0x40_0000 * Extent(v) <= Squared(v)
    ensures Near(Times(Micro(v, i, left), Conjugate(v)), if left then ARCTAN[i] else -ARCTAN[i], 2)
  {
    hide Micro, Near, Times, TurnsLeft, Squared, Extent, Conjugate, Pow2;
    MicroTurns(v, i);
    if left {
      LeftNear(v, Micro(v, i, true), i);
    } else {
      var w, m := Micro(v, i, false), Conjugate(v);
      ConjugateKeeps(v);
      LeftNear(m, Conjugate(w), i);
      ConjugatesTimes(w, m);
      NearConjugate(Times(Conjugate(w), Conjugate(m)), ARCTAN[i], 2);
      ConjugateTwice(Times(w, m));
    }
  }

  lemma ConjugateKeeps(v: Vector)
    ensures Squared(Conjugate(v)) == Squared(v) && Extent(Conjugate(v)) == Extent(v)
  {
    Negations(v.y, v.y);
  }

  /** A vector of length 2^23 or more is long against its extent. */
  lemma SizeFacts(v: Vector)
    requires 0x4000_0000_0000 <= Squared(v)
    ensures 0x40_0000 * Extent(v) <= Squared(v) && 0 < Extent(v)
  {
    var e := Extent(v);
    SumAndDifference(Abs(v.x), Abs(v.y));
    AbsProduct(v.x, v.x);
    AbsProduct(v.y, v.y);
    assert e * e <= 2 * Squared(v);
    hide Squared, Extent;
    LongEnough(e, Squared(v));
  }

  lemma LongEnough(e: nat, s: int)
    requires 0x4000_0000_0000 <= s && e * e <= 2 * s
    ensures 0x40_0000 * e <= s
  {
    if s < 0x40_0000 * e {
      MulMonotone(0x100_0000, e, e);
    }
  }

  /** The micro-rotations leave a vector nearly as long as it was, or longer. */
  lemma MicrosStayLong(v: Vector, lefts: seq<bool>)
    requires Extent(v) <= ROOM && |lefts| <= STEPS
    requires 0x4000_0000_0000 + 110 * (Extent(v) + 22) <= Squared(v)
    ensures 0x4000_0000_0000 <= Squared(Micros(v, lefts)) && Extent(Micros(v, lefts)) < 4 * ROOM
  {
    hide Micros, Extent, Squared, GainAbove, GainBelow;
    var n := |lefts|;
    MicrosGain(v, lefts);
    MicrosExtent(v, lefts);
    GainOrder(n);
    MulMonotone(n * 5, 110, Extent(v) + 22);
    var e := n * (5 * (Extent(v) + 22));
    assert e == n * 5 * (Extent(v) + 22);
    StaysAbove(GainBelow(n), GainAbove(n), Squared(Micros(v, lefts)), Squared(v), e, 0x4000_0000_0000);
  }

  lemma StaysAbove(below: nat, above: nat, now: int, first: int, e: int, least: nat)
    requires 0 < below <= above && Abs(below * now - above * first) <= e * above && least <= first - e
    ensures least <= now
  {
    AroundProduct(above, first, e, below * now);
    MulMonotone(least, first - e, above);
    MulMonotone(below, above, least);
    Cancel(below, least, now);
  }

  /** (u / w)(w / v) == u / v, up to the length. */
  lemma QuotientsChain(u: Vector, w: Vector, v: Vector)
    ensures Times(Times(u, Conjugate(w)), Times(w, Conjugate(v))) == Longer(Squared(w), Times(u, Conjugate(v)))
  {
    var s, c := Squared(w), Conjugate(v);
    TimesConjugate(w);
    TimesCommutes(w, Conjugate(w));
    TimesAssociates(u, Conjugate(w), Times(w, c));
    TimesAssociates(Conjugate(w), w, c);
    TimesReal(c, s);
    TimesCommutes(c, Vector(s, 0));
    LongerFactor(s, u, c);
    SquaredIs(w);
    hide Times, Conjugate, Squared;
  }

  /** The micro-rotations turn by the signed sum of the table entries, up to three units a step. */
  lemma {:induction false} MicrosNear(v: Vector, lefts: seq<bool>)
    requires Extent(v) <= ROOM && |lefts| <= STEPS
    requires 0x4000_0000_0000 + 110 * (Extent(v) + 22) <= Squared(v)
    ensures Near(Times(Micros(v, lefts), Conjugate(v)), Turned(lefts), 3 * |lefts|)
  {
    hide Micro, Near, Times, Conjugate, Extent, Squared;
    if lefts == [] {
      TimesConjugate(v);
      SquaredIs(v);
      OnAxisNear(Squared(v));
    } else {
      var before, n := lefts[..|lefts| - 1], |lefts| - 1;
      var w, left := Micros(v, before), lefts[n];
      MicrosNear(v, before);
      MicrosStayLong(v, before);
      SizeFacts(w);
      StepNear(w, n, left);
      var u, t := Micro(w, n, left), if left then ARCTAN[n] else -ARCTAN[n];
      NearTimes(Times(u, Conjugate(w)), t, 2, Times(w, Conjugate(v)), Turned(before), 3 * n);
      QuotientsChain(u, w, v);
      NearLonger(Squared(w), Times(u, Conjugate(v)), Turned(lefts), 3 * |lefts|);
    }
  }

  lemma OnAxisNear(s: int)
    requires 0 < s
    ensures Near(Vector(s, 0), 0, 0)
  {
    RayZero();
    hide Ray;
    assert Conjugate(Direction(0)) == Vector(1, 0);
    TimesOne(Vector(s, 0));
  }

  lemma AxisNearNext(c: int)
    requires -1 <= c <= 1
    ensures Near(Vector(1, 0), c, 1)
  {
    hide Times, Ray;
    if c == 0 {
      OnAxisNear(1);
    } else {
      UnitRay();
      assert Conjugate(Direction(c)) == Vector(RADIAN, 0 - c);
      OneTimes(Vector(RADIAN, 0 - c));
    }
  }

  lemma OneTimes(v: Vector)
    ensures Times(Vector(1, 0), v) == v
  {
  }

  /** A direction near one angle is near the next one. */
  lemma NearNext(v: Vector, a: int, e: nat, b: int)
    requires Near(v, a, e) && Abs(b - a) <= 1 && e <= 900
    ensures Near(v, b, e + 2)
  {
    hide Near, Times;
    AxisNearNext(b - a);
    TimesOne(v);
    NearTimes(v, a, e, Vector(1, 0), b - a, 1);
  }

  /** A rotation turns by its angle, beyond its quarter turns: the rotated vector, against the start
      after the quarter turns. */
  lemma RotationDirection(v: Vector, theta: int)
    requires Extent(v) <= ROOM && 0x4000_0000_0000 + 110 * (Extent(v) + 22) <= Squared(v)
    ensures var q := QuarterTurns(theta);
            Near(Times(Rotated(v, theta), Conjugate(Quarters(v, q))), theta - q * PI2, 68)
  {
    hide Near, Times, Conjugate, Extent, Squared, Micros, Turned, Senses, Quarters;
    var q := QuarterTurns(theta);
    var lefts, w := Senses(theta - q * PI2, STEPS), Quarters(v, q);
    QuartersKeep(v, q);
    MicrosNear(w, lefts);
    RotationAngle(theta);
    NearNext(Times(Micros(w, lefts), Conjugate(w)), Turned(lefts), 66, theta - q * PI2);
  }

  // ---------------------------------------------------------------- sine and cosine

  /** q quarter turns of (1, 0). */
  lemma {:induction false} QuartersOfUnit(q: int)
    ensures Quarters(Vector(1, 0), q) == (match q % 4
                                          case 0 => Vector(1, 0)
                                          case 1 => Vector(0, 1)
                                          case 2 => Vector(-1, 0)
                                          case _ => Vector(0, -1))
    decreases Abs(q)
  {
    if q != 0 {
      QuartersOfUnit(if 0 < q then q - 1 else q + 1);
    }
  }

  lemma {:induction false} QuartersLonger(n: nat, v: Vector, q: int)
    requires Extent(v) <= 8 && n <= 0x1000_0000
    ensures Quarters(Longer(n, v), q) == Longer(n, Quarters(v, q))
    decreases Abs(q)
  {
    hide QuarterLeft, QuarterRight, Longer, Extent;
    if q != 0 {
      var before := if 0 < q then q - 1 else q + 1;
      QuartersLonger(n, v, before);
      QuartersKeep(v, before);
      QuarterLonger(n, Quarters(v, before));
    }
  }

  lemma QuarterLonger(n: nat, v: Vector)
    requires Extent(v) <= 8 && n <= 0x1000_0000
    ensures QuarterLeft(Longer(n, v)) == Longer(n, QuarterLeft(v))
    ensures QuarterRight(Longer(n, v)) == Longer(n, QuarterRight(v))
  {
    Negations(n, v.x);
    Negations(n, v.y);
    NatTimesAbs(n, v.x);
    NatTimesAbs(n, v.y);
    MulMonotone(Abs(v.x), 8, n);
    MulMonotone(Abs(v.y), 8, n);
    Wrap64Small(-(n * v.x));
    Wrap64Small(-(n * v.y));
    Wrap64Small(-v.x);
    Wrap64Small(-v.y);
    hide Wrap64;
  }

  /** What the rounding to 16.16 does to the direction. */
  lemma NarrowedDirection(w: Vector)
    requires 281_472_824_317_904 <= Squared(w) <= 281_477_122_244_714
    ensures Near(Times(Longer(0x100, Vector(Narrowed(w.x), Narrowed(w.y))), Conjugate(w)), 0, 41)
  {
    ExtentOfSquare(w, 23_726_657);
    NarrowedNear(w.x);
    NarrowedNear(w.y);
    hide Narrowed;
    var c := Vector(0x100 * Narrowed(w.x), 0x100 * Narrowed(w.y));
    assert c == Longer(0x100, Vector(Narrowed(w.x), Narrowed(w.y)));
    RoundedQuotientOf(w, c);
    var z := Times(c, Conjugate(w));
    hide Times, Conjugate, Squared;
    assert OnAxis(z, 41);
    RayZero();
    hide Ray;
    assert Conjugate(Direction(0)) == Vector(1, 0) by { ConjugateOne(); }
    TimesOne(z);
  }

  lemma ConjugateOne()
    ensures Conjugate(Vector(1, 0)) == Vector(1, 0)
  {
  }

  lemma RoundedQuotientOf(w: Vector, c: Vector)
    requires Abs(c.x - w.x) <= 0x80 && Abs(c.y - w.y) <= 0x80 && Extent(w) < 23_726_657
    ensures var z := Times(c, Conjugate(w));
            Abs(z.x - Squared(w)) <= 3_037_012_096 && Abs(z.y) <= 3_037_012_096
  {
    var f, g := c.x - w.x, c.y - w.y;
    TwoErrors(w.x, w.y, f, g, 0x100);
    TwoErrors(w.x, w.y, g, f, 0x100);
    Negations(c.y, w.y);
    Negations(c.x, w.y);
    Distribute(w.x, w.x, f);
    Distribute(w.y, w.y, g);
    Distribute(w.x, w.y, g);
    Distribute(w.y, w.x, f);
    assert c.x == w.x + f && c.y == w.y + g;
    assert c.x * w.x == w.x * c.x && c.y * w.y == w.y * c.y && c.y * w.x == w.x * c.y && c.x * w.y == w.y * c.x;
  }

  lemma StartFacts()
    ensures var v := Vector(0xDB_D95B, 0);
            && v == Longer(0xDB_D95B, Vector(1, 0)) && Extent(Vector(1, 0)) == 1
            && Extent(v) == 0xDB_D95B && Squared(v) == 0xDB_D95B * 0xDB_D95B
  {
  }

  /** The rotated start vector, turned back by the quarter turns, is at the rest of the angle. */
  lemma RotatedNear(angle: int)
    ensures var q := QuarterTurns(angle);
            Near(Times(Rotated(Vector(0xDB_D95B, 0), angle), Conjugate(Quarters(Vector(1, 0), q))), angle - q * PI2, 68)
  {
    hide Extent, Squared, Rotated, Near, Times, Conjugate, Longer, Quarters, QuarterTurns;
    var q, v, one := QuarterTurns(angle), Vector(0xDB_D95B, 0), Vector(1, 0);
    StartFacts();
    RotationDirection(v, angle);
    QuartersLonger(0xDB_D95B, one, q);
    TurnedLonger(0xDB_D95B, Rotated(v, angle), Quarters(one, q), angle - q * PI2);
  }

  lemma TurnedLonger(n: nat, w: Vector, u: Vector, a: int)
    requires 0 < n && Near(Times(w, Conjugate(Longer(n, u))), a, 68)
    ensures Near(Times(w, Conjugate(u)), a, 68)
  {
    hide Near, Times, Conjugate, Longer;
    TimesLonger(n, u, w);
    LongerFactor(n, w, Conjugate(u));
    NearLonger(n, Times(w, Conjugate(u)), a, 68);
  }

  lemma NarrowedNearToo(w: Vector, c: Vector, u: Vector, a: int)
    requires 0 < Squared(w) && Near(Times(Longer(0x100, c), Conjugate(w)), 0, 41)
    requires Near(Times(w, Conjugate(u)), a, 68)
    ensures Near(Times(c, Conjugate(u)), a, 110)
  {
    hide Squared, Near, Times, Conjugate, Longer;
    var l := Longer(0x100, c);
    NearTimes(Times(l, Conjugate(w)), 0, 41, Times(w, Conjugate(u)), a, 68);
    QuotientsChain(l, w, u);
    NearLonger(Squared(w), Times(l, Conjugate(u)), a, 110);
    TimesLonger(0x100, c, Conjugate(u));
    NearLonger(0x100, Times(c, Conjugate(u)), a, 110);
  }

  /** The unit vector of an angle, turned back by the quarter turns, is at the rest of the angle within
      110 units, an angle of 0.0017 degrees. */
  lemma UnitNear(angle: int, w: Vector)
    requires w == Rotated(Vector(0xDB_D95B, 0), angle)
    ensures var q := QuarterTurns(angle);
            var c := Vector(Narrowed(w.x), Narrowed(w.y));
            Near(Times(c, Conjugate(Quarters(Vector(1, 0), q))), angle - q * PI2, 110)
  {
    hide Squared, Rotated, Near, Times, Conjugate, Longer, Quarters, Narrowed;
    var q, c := QuarterTurns(angle), Vector(Narrowed(w.x), Narrowed(w.y));
    RotatedStart(angle);
    RotatedNear(angle);
    NarrowedDirection(w);
    NarrowedNearToo(w, c, Quarters(Vector(1, 0), q), angle - q * PI2);
  }

  /** Directions of less than a radian: between their angle and a bit more. */
  lemma {:induction false} RayBounds(n: nat)
    requires n < RADIAN
    ensures var d := Ray(n); 0 < d.x && 0 <= d.y && n * d.x <= RADIAN * d.y && (RADIAN - n) * d.y <= n * d.x
  {
    hide Times;
    if n != 0 {
      RayBounds(n - 1);
      var d := Ray(n - 1);
      NextBounds(d.x, d.y, n - 1, RADIAN);
      UnitTimes(d);
    }
  }

  lemma UnitTimes(d: Vector)
    ensures Times(d, Vector(RADIAN, 1)) == Vector(RADIAN * d.x - d.y, RADIAN * d.y + d.x)
  {
  }

  lemma NextBounds(x: int, y: int, n: nat, r: nat)
    requires n + 1 < r && 0 < x && 0 <= y && n * x <= r * y && (r - n) * y <= n * x
    ensures 0 < r * x - y && 0 <= r * y + x
    ensures (n + 1) * (r * x - y) <= r * (r * y + x) && (r - (n + 1)) * (r * y + x) <= (n + 1) * (r * x - y)
  {
    NextRight(x, y, n, r);
    NextLower(x, y, n, r);
    NextUpper(x, y, n, r, r - n - 1);
  }

  lemma NextLower(x: int, y: int, n: nat, r: nat)
    requires 0 <= y && n * x <= r * y
    ensures (n + 1) * (r * x - y) <= r * (r * y + x)
  {
    MulMonotone(n * x, r * y, r);
    MulMonotone(0, y, n + 1);
    Distribute(r, r * y, x);
    TimesLess(n + 1, r * x, y);
    Distribute(r * x, n, 1);
    Regroup(n, r, x);
  }

  lemma NextUpper(x: int, y: int, n: nat, r: nat, k: nat)
    requires 0 <= x && 0 <= y && k + n + 1 == r && (k + 1) * y <= n * x
    ensures k * (r * y + x) <= (n + 1) * (r * x - y)
  {
    MulMonotone((k + 1) * y, n * x, r);
    MulMonotone(0, x, n + 1);
    MulMonotone(0, y, k);
    Distribute(k, r * y, x);
    TimesLess(n + 1, r * x, y);
    Distribute(r * x, n, 1);
    Regroup(n, r, x);
    Distribute(y, k, 1);
    Regroup(r, k, y);
    Distribute(r, k * y, y);
    Distribute(x, k, n + 1);
    Distribute(y, k, n + 1);
  }

  lemma NextRight(x: int, y: int, n: nat, r: nat)
    requires n < r && 0 < x && 0 <= y && (r - n) * y <= n * x
    ensures 0 < r * x - y && 0 <= r * y + x
  {
    MulMonotone(1, r - n, y);
    MulStrict(n, r, x);
    MulMonotone(0, y, r);
  }

  /** A vector near an angle between minus and plus an eighth turn is to the right, and above or below
      the axis as the angle is. */
  lemma NearSigns(c: Vector, a: int)
    requires Near(c, a, 110) && Abs(a) <= PI4
    ensures 0 < c.x && (110 < a ==> 0 < c.y) && (a < -110 ==> c.y < 0)
  {
    RayBounds(Abs(a));
    var d := Ray(Abs(a));
    hide Ray;
    if 0 <= a {
      UpperSigns(c, d, a);
    } else {
      hide Times;
      NearConjugate(c, a, 110);
      UpperSigns(Conjugate(c), d, -a);
    }
  }

  lemma UpperSigns(c: Vector, d: Vector, a: nat)
    requires a <= PI4 && OnAxis(Times(c, Conjugate(d)), 110)
    requires 0 < d.x && 0 <= d.y && a * d.x <= RADIAN * d.y && (RADIAN - a) * d.y <= a * d.x
    ensures 0 < c.x && (110 < a ==> 0 < c.y)
  {
    var u := Times(c, Conjugate(d));
    TimesAssociates(c, Conjugate(d), d);
    TimesCommutes(d, Conjugate(d));
    TimesConjugate(d);
    SquaredIs(d);
    TimesReal(c, Squared(d));
    MulMonotone(RADIAN - PI4, RADIAN - a, d.y);
    MulMonotone(a, PI4, d.x);
    SignsOfProduct(u.x, u.y, d.x, d.y, a);
    assert Times(u, d) == Vector(u.x * d.x - u.y * d.y, u.x * d.y + u.y * d.x);
    SquaredPositive(d);
    hide Times, Conjugate, Squared;
    Cancel(Squared(d), 0, c.x);
    Cancel(Squared(d), 0, c.y);
  }

  lemma SquaredPositive(d: Vector)
    requires 0 < d.x
    ensures 0 < Squared(d)
  {
    MulStrict(0, d.x, d.x);
    assert 0 <= d.y * d.y;
  }

  lemma SignsOfProduct(x: int, y: int, p: int, r: int, a: nat)
    requires 0 < x && RADIAN * Abs(y) <= 110 * x && 0 < p && 0 <= r && r <= 4 * p && a * p <= RADIAN * r
    ensures 0 < x * p - y * r && (110 < a ==> 0 < x * r + y * p)
  {
    hide Abs;
    SidewaysSmall(x, y, p);
    FarSmall(y, p, r);
    AboveAxis(x, p, r, a);
    MulStrict(0, x, p);
    if 110 < a {
      MulMonotone(111, a, x * p);
    }
    SignsFromBounds(x * p, y * r, x * r, y * p, Abs(y) * p, a);
  }

  lemma FarSmall(y: int, p: nat, r: nat)
    requires r <= 4 * p
    ensures Abs(y * r) <= 4 * (Abs(y) * p) && Abs(y * p) <= Abs(y) * p
  {
    NatTimesAbs(r, y);
    NatTimesAbs(p, y);
    hide Abs;
    assert r * y == y * r && p * y == y * p;
    MulMonotone(r, 4 * p, Abs(y));
    assert 4 * p * Abs(y) == 4 * (Abs(y) * p) && p * Abs(y) == Abs(y) * p;
  }

  lemma SignsFromBounds(xp: int, yr: int, xr: int, yp: int, side: int, a: nat)
    requires 0 < xp && RADIAN * side <= 110 * xp && Abs(yr) <= 4 * side && Abs(yp) <= side
    requires 110 < a ==> 111 * xp <= RADIAN * xr
    ensures 0 < xp - yr && (110 < a ==> 0 < xr + yp)
  {
  }

  lemma SidewaysSmall(x: int, y: int, p: int)
    requires RADIAN * Abs(y) <= 110 * x && 0 < p
    ensures RADIAN * (Abs(y) * p) <= 110 * (x * p)
  {
    MulMonotone(RADIAN * Abs(y), 110 * x, p);
    hide Abs;
    assert RADIAN * Abs(y) * p == RADIAN * (Abs(y) * p) && 110 * x * p == 110 * (x * p);
  }

  lemma AboveAxis(x: int, p: int, r: int, a: nat)
    requires 0 < x && a * p <= RADIAN * r
    ensures a * (x * p) <= RADIAN * (x * r)
  {
    MulMonotone(a * p, RADIAN * r, x);
    assert a * p * x == a * (x * p) && RADIAN * r * x == RADIAN * (x * r);
  }

  /** The signs of sine and cosine, up to whole turns: positive where they should be, from 111/65536
      degree on. */
  lemma UnitSigns(angle: int, w: Vector)
    requires w == Rotated(Vector(0xDB_D95B, 0), angle)
    ensures var r := (angle + PI) % TWO_PI - PI;
            && (110 < r < PI - 110 ==> 0 < Narrowed(w.y))
            && (110 - PI < r < -110 ==> Narrowed(w.y) < 0)
            && (Abs(r) < PI2 - 110 ==> 0 < Narrowed(w.x))
            && (PI2 + 110 < Abs(r) ==> Narrowed(w.x) < 0)
  {
    hide Rotated, Narrowed, Near, Times, Conjugate, Quarters;
    var q, r, turns := QuarterTurns(angle), (angle + PI) % TWO_PI - PI, (angle + PI) / TWO_PI;
    assert angle == r + turns * TWO_PI;
    var a, c := angle - q * PI2, Vector(Narrowed(w.x), Narrowed(w.y));
    UnitNear(angle, w);
    var u := Quarters(Vector(1, 0), q);
    NearSigns(Times(c, Conjugate(u)), a);
    QuartersOfUnit(q);
    TurnedBackQuarters(c, u);
    assert r == a + (q - 4 * turns) * PI2;
    assert -2 <= q - 4 * turns <= 2;
    assert q % 4 == (q - 4 * turns) % 4;
  }

  lemma TurnedBackQuarters(c: Vector, u: Vector)
    ensures u == Vector(1, 0) ==> Times(c, Conjugate(u)) == c
    ensures u == Vector(0, 1) ==> Times(c, Conjugate(u)) == Vector(c.y, -c.x)
    ensures u == Vector(-1, 0) ==> Times(c, Conjugate(u)) == Vector(-c.x, -c.y)
    ensures u == Vector(0, -1) ==> Times(c, Conjugate(u)) == Vector(-c.y, c.x)
  {
    hide Times;
    TimesReal(c, 1);
    TimesReal(c, -1);
    UpTimes(c, 1);
    UpTimes(c, -1);
  }

  lemma UpTimes(c: Vector, n: int)
    ensures Times(c, Vector(0, n)) == Vector(-(c.y * n), c.x * n)
  {
  }

  /** `FT_Vector_Unit`, and with it `FT_Cos` and `FT_Sin`: for every angle the length of the result is 1
      in 16.16 up to one unit, and its direction is the angle's: turned back by the quarter turns, it is
      within 110/65536 degree of the rest of the angle.  Sine and cosine have the signs of their
      quadrant. */
  method VectorUnit(angle: int) returns (cos: int, sin: int)
    ensures cos == Narrowed(Rotated(Vector(TRIG_SCALE / 0x100, 0), angle).x)
    ensures sin == Narrowed(Rotated(Vector(TRIG_SCALE / 0x100, 0), angle).y)
    ensures 0xFFFF * 0xFFFF <= cos * cos + sin * sin <= 0x1_0001 * 0x1_0001
    ensures var q := QuarterTurns(angle);
            Near(Times(Vector(cos, sin), Conjugate(Quarters(Vector(1, 0), q))), angle - q * PI2, 110)
    ensures var r := (angle + PI) % TWO_PI - PI;
            && (110 < r < PI - 110 ==> 0 < sin)
            && (110 - PI < r < -110 ==> sin < 0)
            && (Abs(r) < PI2 - 110 ==> 0 < cos)
            && (PI2 + 110 < Abs(r) ==> cos < 0)
  {
    hide Rotated, Squared, Wrap64, Near, Times, Conjugate, Quarters;
    var x, y := PseudoRotate(TRIG_SCALE / 0x100, 0, angle);
    cos, sin := Wrap64(x + 0x80) / 0x100, Wrap64(y + 0x80) / 0x100;
    ghost var w := Rotated(Vector(0xDB_D95B, 0), angle);
    RotatedStart(angle);
    UnitSquare(w);
    UnitNear(angle, w);
    UnitSigns(angle, w);
  }
}
