/** Vector normalization by an integer Newton iteration. */
module Newton {
  import opened Ints

  const ONE: int := 0x1_0000
  const CUT: int := 0xAAAA_AAAA

  // ---------------------------------------------------------------- prescaling

  /** The position of the highest set bit. */
  function Msb(v: nat): (m: nat)
    requires 0 < v
    ensures Pow2(m) <= v < Pow2(m + 1)
  {
    if v == 1 then 0 else 1 + Msb(v / 2)
  }

  lemma {:induction false} MsbBelow(v: nat, n: nat)
    requires 0 < v < Pow2(n)
    ensures Msb(v) < n
  {
    if v != 1 {
      MsbBelow(v / 2, n - 1);
    }
  }

  /** The alpha-max-beta-min estimate of the length. */
  function Estimate(x: nat, y: nat): nat {
    if x > y then x + y / 2 else y + x / 2
  }

  /** The shift that brings the estimate between 2/3 and 4/3 of 2^16. */
  function PrescaleShift(length: nat): int
    requires 0 < length < TWO_32
  {
    MsbBelow32(length);
    var s := 31 - Msb(length);
    s - (15 + if length >= CUT / Pow2(s) then 1 else 0)
  }

  lemma MsbBelow32(v: nat)
    requires 0 < v < TWO_32
    ensures Msb(v) < 32
  {
    Pow2Values();
    MsbBelow(v, 32);
  }

  lemma Pow2Values()
    ensures Pow2(2) == 4 && Pow2(3) == 8 && Pow2(4) == 16 && Pow2(11) == 2048 && Pow2(12) == 4096
    ensures Pow2(13) == 8192 && Pow2(14) == 16384 && Pow2(15) == 32768 && Pow2(16) == ONE && Pow2(32) == TWO_32
  {
    assert Pow2(2) == 4;
    assert Pow2(4) == 16;
    Pow2Sum(4, 4);
    Pow2Sum(8, 3);
    Pow2Sum(8, 4);
    assert Pow2(13) == 2 * Pow2(12) && Pow2(14) == 2 * Pow2(13) && Pow2(15) == 2 * Pow2(14);
    Pow2Sum(8, 8);
    Pow2Sum(16, 16);
  }

  /** What the prescaled vector and its estimate satisfy. */
  ghost predicate Prescaled(x: nat, y: nat, length: nat) {
    && 40960 <= length <= 87381 && x <= length && y <= length
    && x * x + y * y <= length * length + 2
    && 4 * ((length - 1) * (length - 1)) <= 5 * (x * x + y * y)
  }

  /** The estimate is at most a rounding too short, and never more than sqrt(5)/2 too long. */
  lemma EstimateBounds(a: nat, b: nat, length: nat)
    requires b <= a && a + b / 2 <= length && 2 * length <= 2 * a + b + 2 && 1 <= length
    ensures a * a + b * b <= length * length + 2
    ensures 4 * ((length - 1) * (length - 1)) <= 5 * (a * a + b * b)
  {
    NotTooShort(a, b, length);
    NotTooLong(a, b, length);
  }

  lemma NotTooShort(a: nat, b: nat, length: nat)
    requires b <= a && a + b / 2 <= length
    ensures a * a + b * b <= length * length + 2
  {
    var m := b / 2;
    SquareMonotone(a + m, length);
    SquareOfSum(a, m);
    MulMonotone(b, a, m);
    SquareAtLeast(m, 1);
    if b == 2 * m {
      SquareOfDouble(m, 0);
      HalfTimes(m, 0);
    } else {
      SquareOfDouble(m, 1);
      HalfTimes(m, 1);
    }
  }

  lemma NotTooLong(a: nat, b: nat, length: nat)
    requires 2 * length <= 2 * a + b + 2 && 1 <= length
    ensures 4 * ((length - 1) * (length - 1)) <= 5 * (a * a + b * b)
  {
    SquareMonotone(2 * (length - 1), 2 * a + b);
    SquareOfDouble(length - 1, 0);
    SquareOfDouble(a, b);
    SquareDifference(a, b);
  }

  lemma SquareMonotone(x: nat, y: nat)
    requires x <= y
    ensures x * x <= y * y
  {
    MulMonotone(x, y, x);
    MulMonotone(x, y, y);
  }

  lemma SquareOfSum(a: int, b: int)
    ensures (a + b) * (a + b) == a * a + 2 * (a * b) + b * b
  {
  }

  lemma SquareOfDouble(a: int, b: int)
    ensures (2 * a + b) * (2 * a + b) == 4 * (a * a) + 4 * (a * b) + b * b
  {
  }

  lemma HalfTimes(m: int, r: int)
    ensures (2 * m + r) * m == 2 * (m * m) + r * m
  {
  }

  lemma SquareAtLeast(m: int, k: int)
    ensures m * m >= 2 * (k * m) - k * k
  {
    assert 0 <= (m - k) * (m - k) == m * m - 2 * (k * m) + k * k;
  }

  lemma SquareDifference(a: int, b: int)
    ensures 4 * (a * b) <= a * a + 4 * (b * b)
  {
    assert 0 <= (a - 2 * b) * (a - 2 * b) == a * a - 4 * (a * b) + 4 * (b * b);
  }

  /** A component after the shift: left for a positive shift, right otherwise.  The scaled values
      stay below 2^17, so the 32-bit shift loses nothing. */
  function Scale(v: nat, shift: int): nat {
    if shift > 0 then
      MulMonotone(0, v, Pow2(shift));
      v * Pow2(shift)
    else
      QuotientIsNat(v, Pow2(-shift));
      v / Pow2(-shift)
  }

  /** The estimate after the shift: recomputed when shifting left, shifted otherwise. */
  function ScaledEstimate(x: nat, y: nat, shift: int): nat {
    if shift > 0 then Estimate(Scale(x, shift), Scale(y, shift)) else Scale(Estimate(x, y), shift)
  }

  /** Prescaling brings every vector with two non-zero components into range. */
  lemma PrescaleWorks(x: nat, y: nat)
    requires 0 < x <= 0x8000_0000 && 0 < y <= 0x8000_0000
    ensures var shift := PrescaleShift(Estimate(x, y));
            Prescaled(Scale(x, shift), Scale(y, shift), ScaledEstimate(x, y, shift))
  {
    hide Prescaled, PrescaleShift, Scale;
    var shift := PrescaleShift(Estimate(x, y));
    var a, b := Max(x, y), Min(x, y);
    assert Estimate(x, y) == a + b / 2;
    PrescaleOrdered(a, b, shift);
    ScaleOrdered(a, b, shift);
    assert ScaledEstimate(x, y, shift) == ScaledEstimate(a, b, shift);
    PrescaledSymmetric(Scale(a, shift), Scale(b, shift), ScaledEstimate(a, b, shift));
  }

  lemma PrescaledSymmetric(x: nat, y: nat, length: nat)
    ensures Prescaled(x, y, length) <==> Prescaled(y, x, length)
  {
  }

  lemma ScaleOrdered(a: nat, b: nat, shift: int)
    requires b <= a
    ensures Scale(b, shift) <= Scale(a, shift)
    ensures Estimate(Scale(a, shift), Scale(b, shift)) == Scale(a, shift) + Scale(b, shift) / 2
    ensures Estimate(Scale(b, shift), Scale(a, shift)) == Scale(a, shift) + Scale(b, shift) / 2
  {
    if shift > 0 {
      MulMonotone(b, a, Pow2(shift));
    } else {
      DivMonotone(b, a, Pow2(-shift));
    }
  }

  lemma DivMonotone(b: nat, a: nat, p: nat)
    requires b <= a && 0 < p
    ensures b / p <= a / p
  {
    var q, q' := b / p, a / p;
    assert b == p * q + b % p && a == p * q' + a % p;
    if q' < q {
      MulMonotone(q' + 1, q, p);
    }
  }

  lemma PrescaleOrdered(a: nat, b: nat, shift: int)
    requires 0 < b <= a <= 0x8000_0000 && shift == PrescaleShift(a + b / 2)
    ensures Prescaled(Scale(a, shift), Scale(b, shift), ScaledEstimate(a, b, shift))
  {
    var n := a + b / 2;
    MsbBelow32(n);
    var s := 31 - Msb(n);
    TopBit(n, s);
    ScaleOrdered(a, b, shift);
    hide Prescaled, PrescaleShift;
    if shift > 0 {
      ShiftUp(a, b, n, s, shift);
    } else {
      ShiftDown(a, b, n, s, shift);
    }
  }

  /** With the highest bit moved to bit 31. */
  lemma TopBit(n: nat, s: nat)
    requires 0 < n && s <= 31 && Msb(n) == 31 - s
    ensures 0x8000_0000 <= n * Pow2(s) < TWO_32
  {
    Pow2Sum(31 - s, s);
    Pow2Sum(32 - s, s);
    Pow2Values();
    Pow2Sum(16, 15);
    MulMonotone(Pow2(31 - s), n, Pow2(s));
    MulStrict(n, Pow2(32 - s), Pow2(s));
  }

  /** The two ways the shift is chosen. */
  ghost predicate Chosen(n: nat, s: nat, shift: int) {
    if n >= CUT / Pow2(s) then shift == s - 16 else shift == s - 15
  }

  lemma ShiftUp(a: nat, b: nat, n: nat, s: nat, shift: int)
    requires 0 < b <= a && n == a + b / 2 && s <= 31 && 0x8000_0000 <= n * Pow2(s) < TWO_32
    requires Chosen(n, s, shift) && 0 < shift
    ensures var x, y := a * Pow2(shift), b * Pow2(shift);
            Prescaled(x, y, x + y / 2)
  {
    hide Pow2, Chosen;
    var q, half := Pow2(shift), Pow2(shift - 1);
    Pow2Double(shift - 1);
    HalfOfMultiple(b, half);
    ShiftedRange(a, b, n, s, shift, a * q + b * half);
    MulMonotone(b, a, q);
    EstimateBounds(a * q, b * q, a * q + b * half);
  }

  lemma Pow2Double(k: nat)
    ensures Pow2(k + 1) == 2 * Pow2(k)
  {
  }

  lemma HalfOfMultiple(b: nat, half: nat)
    ensures b * (2 * half) / 2 == b * half
  {
    assert b * (2 * half) == 2 * (b * half);
  }

  /** On which side of the cut a shifted estimate is. */
  lemma CutBounds(n: nat, p: nat)
    requires 0 < p
    ensures n < CUT / p ==> n * p <= CUT - p
    ensures CUT / p <= n ==> CUT - p < n * p
  {
    var cut := CUT / p;
    assert CUT == p * cut + CUT % p;
    if n < cut {
      MulMonotone(n, cut - 1, p);
      assert (cut - 1) * p == p * cut - p;
    } else {
      MulMonotone(cut, n, p);
    }
  }

  lemma ShiftedRange(a: nat, b: nat, n: nat, s: nat, shift: nat, length: nat)
    requires 0 < b <= a && n == a + b / 2 && s <= 31 && 0x8000_0000 <= n * Pow2(s) < TWO_32
    requires Chosen(n, s, shift) && 0 < shift
    requires length == a * Pow2(shift) + b * Pow2(shift - 1)
    ensures 40960 <= length <= 87381
  {
    var q, half := Pow2(shift), Pow2(shift - 1);
    Pow2Sum(shift, s - shift);
    Pow2Values();
    OddHalf(a, b, n, q, half);
    CutBounds(n, Pow2(s));
    MulAcross(n, q, Pow2(s - shift));
    if shift == s - 15 {
      EstimateBelow(n * q, q, half, b % 2, length);
    } else {
      EstimateAbove(n, q, half, b % 2, length);
      if q > 2048 {
        LargeShift(shift, s, n, a, b, CUT / Pow2(s));
      }
    }
  }

  lemma MulAcross(n: int, q: int, r: int)
    ensures n * (q * r) == (n * q) * r
  {
  }

  /** Just below the cut, scaled to 4/3 of 2^16. */
  lemma EstimateBelow(nq: nat, q: nat, half: nat, odd: nat, length: nat)
    requires q == 2 * half && odd <= 1 && length == nq + odd * half
    requires 0x8000_0000 <= nq * 32768 <= CUT - q * 32768
    ensures 40960 <= length <= 87381
  {
    assert odd * half <= half;
  }

  /** Above the cut, scaled to below 2^16. */
  lemma EstimateAbove(n: nat, q: nat, half: nat, odd: nat, length: nat)
    requires q == 2 * half && odd <= 1 && length == n * q + odd * half && 0 < half
    requires CUT - q * ONE < n * q * ONE < TWO_32
    requires exists k: nat :: k <= 15 && q == Pow2(k)
    ensures length <= 87381
    ensures q <= 2048 ==> 40960 <= length
  {
    assert 0 <= odd * half <= half;
    var k: nat :| k <= 15 && q == Pow2(k);
    Pow2Grows(k, 15);
    Pow2Values();
  }

  lemma OddHalf(a: nat, b: nat, n: nat, q: nat, half: nat)
    requires n == a + b / 2 && q == 2 * half
    ensures a * q + b * half == n * q + (b % 2) * half
  {
    var m := b / 2;
    assert b == 2 * m + b % 2;
    assert (a + m) * q == a * q + m * q && (2 * m + b % 2) * half == m * (2 * half) + (b % 2) * half;
  }

  lemma LargeShift(shift: nat, s: nat, n: nat, a: nat, b: nat, cut: int)
    requires s <= 31 && shift == s - 16 && 2048 < Pow2(shift) && cut == CUT / Pow2(s) && cut <= n
    requires 0 < b <= a && n == a + b / 2
    ensures n * Pow2(shift) + (b % 2) * Pow2(shift - 1) >= 40960
  {
    Pow2Values();
    if shift <= 11 {
      Pow2Grows(shift, 11);
    }
    Pow2Sum(16, shift);
  }

  lemma ShiftDown(a: nat, b: nat, n: nat, s: nat, shift: int)
    requires 0 < b <= a && n == a + b / 2 && s <= 31 && 0x8000_0000 <= n * Pow2(s) < TWO_32
    requires Chosen(n, s, shift) && shift <= 0
    ensures Prescaled(Scale(a, shift), Scale(b, shift), Scale(n, shift))
  {
    hide Pow2;
    var k := Pow2(-shift);
    var x, y, length := Scale(a, shift), Scale(b, shift), Scale(n, shift);
    ScaleDownBounds(a, shift);
    ScaleDownBounds(b, shift);
    ScaleDownBounds(n, shift);
    ScaleOrdered(a, b, shift);
    hide Scale;
    DownEstimate(a, b, k, x, y, length);
    DownRange(n, s, shift, length);
    EstimateBounds(x, y, length);
  }

  lemma ScaleDownBounds(v: nat, shift: int)
    requires shift <= 0
    ensures var k := Pow2(-shift); k * Scale(v, shift) <= v < k * Scale(v, shift) + k
  {
    var k := Pow2(-shift);
    assert v == k * (v / k) + v % k;
  }

  lemma DownEstimate(a: nat, b: nat, k: nat, x: nat, y: nat, length: nat)
    requires 0 < k && k * x <= a < k * x + k && k * y <= b < k * y + k
    requires k * length <= a + b / 2 < k * length + k
    ensures x + y / 2 <= length && 2 * length <= 2 * x + y + 2
  {
    var m := y / 2;
    DownProducts(k, x, m, y, length);
    Cancel(k, x + m, length + 1);
    Cancel(k, 2 * length, 2 * x + y + 3);
  }

  lemma DownProducts(k: nat, x: nat, m: nat, y: nat, length: nat)
    requires 2 * m <= y
    ensures 2 * (k * m) <= k * y
    ensures k * (x + m) == k * x + k * m && k * (length + 1) == k * length + k
    ensures k * (2 * length) == 2 * (k * length) && k * (2 * x + y + 3) == 2 * (k * x) + k * y + 3 * k
  {
    MulMonotone(2 * m, y, k);
    Distribute(k, x, m);
    Distribute(k, 2 * x, y + 3);
    Distribute(k, y, 3);
  }

  lemma DownRange(n: nat, s: nat, shift: int, length: nat)
    requires s <= 31 && 0x8000_0000 <= n * Pow2(s) < TWO_32
    requires Chosen(n, s, shift) && shift <= 0
    requires Pow2(-shift) * length <= n < Pow2(-shift) * length + Pow2(-shift)
    ensures 40960 <= length <= 87381
  {
    var k, p := Pow2(-shift), Pow2(s);
    var e := s - shift;
    Pow2Sum(s, -shift);
    Pow2Values();
    CutBounds(n, p);
    if e == 16 {
      Pow2Grows(s, 16);
    }
    hide Pow2;
    assert Pow2(e) == p * k;
    DownTimes(n, p, k, length, Pow2(e));
  }

  /** Shifting right loses less than one unit. */
  lemma DownTimes(n: nat, p: nat, k: nat, length: nat, unit: nat)
    requires k * length <= n < k * length + k && unit == p * k && 0 < p
    ensures length * unit <= n * p < (length + 1) * unit
  {
    MulMonotone(k * length, n, p);
    MulStrict(n, k * (length + 1), p);
    assert k * length * p == length * (p * k) && k * (length + 1) * p == (length + 1) * (p * k);
  }

  // ---------------------------------------------------------------- the iteration

  /** A component times the scale, the scale being 2^16 + b. */
  function Grown(x: nat, scale: nat): nat {
    x * scale / ONE
  }

  function SquaredLength(x: nat, y: nat, scale: nat): nat {
    Grown(x, scale) * Grown(x, scale) + Grown(y, scale) * Grown(y, scale)
  }

  const SLACK: int := 0x4_0000

  /** The squared length is close enough to 2^32 for its signed 32-bit reading to mean its
      difference from 2^32, and exceeds 2^32 by no more than the slack. */
  ghost predicate Readable(x: nat, y: nat, scale: nat) {
    43691 <= scale && 2_500_000_000 <= SquaredLength(x, y, scale) <= TWO_32 + SLACK
  }

  lemma GrownBounds(x: nat, scale: nat)
    ensures ONE * Grown(x, scale) <= x * scale < ONE * (Grown(x, scale) + 1)
  {
    MulMonotone(0, x, scale);
  }

  /** The two grown components and their sum. */
  lemma ComponentBounds(u: nat, v: nat, total: nat)
    requires total == u * u + v * v && total <= TWO_32 + SLACK
    ensures u <= 65537 && v <= 65537 && u + v <= 92684
  {
    SquareOfSum(u, v);
    SquareAtLeast(u - v, 0);
    assert (u - v) * (u - v) == u * u - 2 * (u * v) + v * v;
    if u >= 65538 {
      SquareMonotone(65538, u);
    }
    if v >= 65538 {
      SquareMonotone(65538, v);
    }
    if u + v >= 92685 {
      SquareMonotone(92685, u + v);
    }
  }

  /** Undoing the floor: the exact scaled square is below that of the next larger components. */
  lemma ExactSquare(x: nat, y: nat, scale: nat)
    ensures var u, v := Grown(x, scale), Grown(y, scale);
            && (scale * scale) * (x * x + y * y) < TWO_32 * ((u + 1) * (u + 1) + (v + 1) * (v + 1))
            && TWO_32 * (u * u + v * v) <= (scale * scale) * (x * x + y * y)
  {
    hide Grown;
    ExactComponent(x, scale);
    ExactComponent(y, scale);
    Distribute(scale * scale, x * x, y * y);
  }

  lemma ExactComponent(x: nat, scale: nat)
    ensures var u := Grown(x, scale);
            TWO_32 * (u * u) <= (scale * scale) * (x * x) < TWO_32 * ((u + 1) * (u + 1))
  {
    var u := Grown(x, scale);
    GrownBounds(x, scale);
    hide Grown;
    MulMonotone(0, x, scale);
    SquareBelow(x * scale, ONE * (u + 1));
    SquareMonotone(ONE * u, x * scale);
    SquareOfProduct(x, scale);
    SquareOfProduct(u + 1, ONE);
    SquareOfProduct(u, ONE);
  }

  lemma SquareBelow(x: nat, y: nat)
    requires x < y
    ensures x * x < y * y
  {
    MulMonotone(x, y, x);
    MulStrict(x, y, y);
  }

  lemma NextSquare(u: nat)
    ensures (u + 1) * (u + 1) == u * u + 2 * u + 1
  {
  }

  /** The scale never exceeds what the shortest prescaled vector needs. */
  lemma ScaleBound(x: nat, y: nat, length: nat, scale: nat)
    requires Prescaled(x, y, length) && Readable(x, y, scale)
    ensures scale < 117_300
  {
    var u, v := Grown(x, scale), Grown(y, scale);
    ExactSquare(x, y, scale);
    ComponentBounds(u, v, SquaredLength(x, y, scale));
    NextSquare(u);
    NextSquare(v);
    SquareMonotone(40959, length - 1);
    var sum := (u + 1) * (u + 1) + (v + 1) * (v + 1);
    assert sum <= 4_295_414_812;
    hide Grown, SquaredLength;
    ScaleFromSquare(scale, x * x + y * y, sum);
  }

  lemma ScaleFromSquare(scale: nat, h: nat, sum: nat)
    requires 1_342_111_344 <= h && sum <= 4_295_414_812 && (scale * scale) * h < TWO_32 * sum
    ensures scale < 117_300
  {
    if 117_300 <= scale {
      SquareMonotone(117_300, scale);
      ProductMonotone(117_300 * 117_300, scale * scale, 1_342_111_344, h);
    }
  }

  lemma ProductMonotone(a: nat, b: nat, c: nat, d: nat)
    requires a <= b && c <= d
    ensures a * c <= b * d
  {
    MulMonotone(a, b, c);
    MulMonotone(c, d, b);
  }

  /** The 32-bit products of the loop do not overflow. */
  lemma NoOverflow(x: nat, y: nat, length: nat, scale: nat)
    requires Prescaled(x, y, length) && Readable(x, y, scale)
    ensures Abs(x * (scale - ONE)) < 0x8000_0000 && Abs(y * (scale - ONE)) < 0x8000_0000
  {
    ScaleBound(x, y, length, scale);
    var u, v := Grown(x, scale), Grown(y, scale);
    ComponentBounds(u, v, SquaredLength(x, y, scale));
    GrownBounds(x, scale);
    GrownBounds(y, scale);
    OneProduct(x, scale, u);
    OneProduct(y, scale, v);
  }

  lemma OneProduct(x: nat, scale: nat, u: nat)
    requires 43691 <= scale < 117_300 && x <= 87381 && u <= 65537 && x * scale < ONE * (u + 1)
    ensures Abs(x * (scale - ONE)) < 0x8000_0000
  {
    assert x * (scale - ONE) == x * scale - x * ONE;
    if scale < ONE {
      MulMonotone(ONE - scale, 21845, x);
      assert (ONE - scale) * x == -(x * (scale - ONE));
    } else {
      MulMonotone(0, scale - ONE, x);
      if x < 32771 {
        MulMonotone(scale - ONE, 51763, x);
        assert (scale - ONE) * x == x * (scale - ONE);
      }
    }
  }

  /** The component as the loop computes it. */
  function LoopComponent(x: nat, b: int): int {
    Wrap32(x + Wrap32(x * b) / ONE) % TWO_32
  }

  lemma LoopComponentIsGrown(x: nat, scale: nat)
    requires Abs(x * (scale - ONE)) < 0x8000_0000 && Grown(x, scale) <= 65537
    ensures LoopComponent(x, scale - ONE) == Grown(x, scale)
  {
    var p := x * (scale - ONE);
    assert p == x * scale - x * ONE;
    GrownBounds(x, scale);
    assert Wrap32(p) == p && x + p / ONE == Grown(x, scale) by {
      hide Grown;
      DivUnique(p, ONE, Grown(x, scale) - x, p - ONE * (Grown(x, scale) - x));
    }
  }

  /** The first scale, 2 - length. */
  lemma FirstScale(x: nat, y: nat, length: nat)
    requires Prescaled(x, y, length)
    ensures Readable(x, y, 2 * ONE - length)
  {
    var scale := 2 * ONE - length;
    var u, v := Grown(x, scale), Grown(y, scale);
    ExactSquare(x, y, scale);
    FirstScaleAbove(x, y, length, scale);
    FirstScaleBelow(x, y, length, scale);
    hide Grown, Prescaled;
    ComponentBounds(u, v, u * u + v * v);
    NextSquare(u);
    NextSquare(v);
  }

  lemma FirstScaleAbove(x: nat, y: nat, length: nat, scale: nat)
    requires Prescaled(x, y, length) && scale == 2 * ONE - length
    ensures (scale * scale) * (x * x + y * y) <= TWO_32 * (TWO_32 + 4)
  {
    var h, ss, ll := x * x + y * y, scale * scale, length * length;
    BelowOne(length, scale);
    SquareOfProduct(length, scale);
    assert ll * ss <= TWO_32 * TWO_32;
    SquareMonotone(scale, 90112);
    hide Prescaled;
    MulMonotone(h, ll + 2, ss);
    Distribute(ss, ll, 2);
    assert h * ss == ss * h;
  }

  /** (1 + t) * (1 - t) <= 1. */
  lemma BelowOne(length: nat, scale: nat)
    requires scale == 2 * ONE - length
    ensures (length * scale) * (length * scale) <= TWO_32 * TWO_32
  {
    SquareAtLeast(length, ONE);
    assert length * scale == 2 * (ONE * length) - length * length;
    MulMonotone(0, length, scale);
    SquareMonotone(length * scale, TWO_32);
  }

  lemma FirstScaleBelow(x: nat, y: nat, length: nat, scale: nat)
    requires Prescaled(x, y, length) && scale == 2 * ONE - length
    ensures 10_890_000_000_000_000_000 <= (scale * scale) * (x * x + y * y)
  {
    var m, h, ss := length - 1, x * x + y * y, scale * scale;
    // m * scale is smallest at the ends of the range
    assert 3_690_000_000 <= m * scale by { Concave(m, scale); }
    SquareMonotone(3_690_000_000, m * scale);
    SquareOfProduct(m, scale);
    MulMonotone(4 * (m * m), 5 * h, ss);
    assert 4 * (m * m) * ss == 4 * (m * m * ss) && 5 * h * ss == 5 * (ss * h);
  }

  lemma Concave(m: nat, scale: nat)
    requires 40959 <= m <= 87380 && scale == 131071 - m
    ensures 3_690_000_000 <= m * scale
  {
    var i := m - 40959;
    MulMonotone(0, i, 49153 - i);
    assert m * scale == 40959 * 90112 + i * (49153 - i);
  }

  /** One Newton step does not overshoot 1 by more than the rounding of the components: with w the
      gap to 2^32, the exact step multiplies the length by 1 + w / 2^33. */
  lemma NextScale(x: nat, y: nat, scale: nat, step: nat)
    requires Readable(x, y, scale) && SquaredLength(x, y, scale) < TWO_32
    requires step * (2 * TWO_32) <= (TWO_32 - SquaredLength(x, y, scale)) * scale
    ensures Readable(x, y, scale + step)
  {
    var u, v := Grown(x, scale), Grown(y, scale);
    var u', v' := Grown(x, scale + step), Grown(y, scale + step);
    var w := TWO_32 - SquaredLength(x, y, scale);
    GrowthStep(x, scale, step, w);
    GrowthStep(y, scale, step, w);
    ShortSum(u, v, TWO_32 - w);
    hide Grown;
    SquareMonotone(u, u');
    SquareMonotone(v, v');
    var sum := (u + 1) * (u + 1) + (v + 1) * (v + 1);
    NextSquare(u);
    NextSquare(v);
    SquaredStep(u, u', w);
    SquaredStep(v, v', w);
    var f := 2 * TWO_32 + w;
    Distribute(f * f, (u + 1) * (u + 1), (v + 1) * (v + 1));
    Distribute((2 * TWO_32) * (2 * TWO_32), u' * u', v' * v');
    StepPolynomial(w, sum, u' * u' + v' * v');
  }

  /** One component grows by at most the factor 1 + w / 2^33, up to its own rounding. */
  lemma GrowthStep(x: nat, scale: nat, step: nat, w: nat)
    requires step * (2 * TWO_32) <= w * scale
    ensures Grown(x, scale) <= Grown(x, scale + step)
    ensures Grown(x, scale + step) * (2 * TWO_32) <= (Grown(x, scale) + 1) * (2 * TWO_32 + w)
  {
    var u, u' := Grown(x, scale), Grown(x, scale + step);
    GrownBounds(x, scale);
    GrownBounds(x, scale + step);
    var f := 2 * TWO_32 + w;
    Distribute(x, scale, step);
    MulMonotone(0, step, x);
    Cancel(ONE, u, u' + 1);
    // 2^16 * u' * 2^33 <= x * scale * (2^33 + w) <= 2^16 * (u + 1) * (2^33 + w)
    var xs := x * scale;
    assert (ONE * u') * (2 * TWO_32) <= xs * f by {
      MulMonotone(ONE * u', x * (scale + step), 2 * TWO_32);
      MulMonotone(step * (2 * TWO_32), w * scale, x);
      StepTimes(x, scale, step, w);
    }
    MulMonotone(xs, ONE * (u + 1), f);
    assert ONE * (u + 1) * f == ONE * ((u + 1) * f);
  }

  lemma StepTimes(x: int, scale: int, step: int, w: int)
    ensures x * (scale + step) * (2 * TWO_32) == x * scale * (2 * TWO_32) + step * (2 * TWO_32) * x
    ensures x * scale * (2 * TWO_32 + w) == x * scale * (2 * TWO_32) + w * scale * x
  {
    Distribute(x, scale, step);
    assert x * (scale + step) == x * scale + x * step;
    assert x * step * (2 * TWO_32) == step * (2 * TWO_32) * x;
    assert x * scale * w == w * scale * x;
  }

  lemma SquaredStep(u: nat, u': nat, w: nat)
    requires u' * (2 * TWO_32) <= (u + 1) * (2 * TWO_32 + w)
    ensures (u' * u') * ((2 * TWO_32) * (2 * TWO_32)) <= ((u + 1) * (u + 1)) * ((2 * TWO_32 + w) * (2 * TWO_32 + w))
  {
    SquareMonotone(u' * (2 * TWO_32), (u + 1) * (2 * TWO_32 + w));
    SquareOfProduct(u', 2 * TWO_32);
    SquareOfProduct(u + 1, 2 * TWO_32 + w);
  }

  lemma ShortSum(u: nat, v: nat, total: nat)
    requires total == u * u + v * v && total < TWO_32
    ensures u + v <= 92681
  {
    SquareOfSum(u, v);
    assert 0 <= (u - v) * (u - v) == u * u - 2 * (u * v) + v * v;
    if u + v >= 92682 {
      SquareMonotone(92682, u + v);
    }
  }

  /** (1 - 2q)(1 + q)^2 <= 1 - 3q^2, and the rounding term stays below the slack. */
  lemma StepPolynomial(w: nat, sum: nat, next: nat)
    requires 0 < w <= TWO_32 && sum <= TWO_32 - w + 185_364
    requires next * ((2 * TWO_32) * (2 * TWO_32)) <= sum * ((2 * TWO_32 + w) * (2 * TWO_32 + w))
    ensures next <= TWO_32 + SLACK
  {
    var d := 2 * TWO_32;
    var c := 185_364;
    var ff := (d + w) * (d + w);
    MulMonotone(sum, TWO_32 - w + c, ff);
    var ww := w * w;
    SquareOfSum(d, w);
    assert ff == d * d + 2 * (d * w) + ww;
    Distribute(ff, TWO_32 - w, c);
    Cubic(w);
    // c * ff <= c * d^2 + (2 c d w + c w^2), and 2 c w - w^2 <= c^2
    SquareAtLeast(w, c);
    MulMonotone(c, d / 2, ww);
    assert (TWO_32 - w + c) * ff <= d * d * TWO_32 + c * (d * d) + d * (c * c);
    if TWO_32 + SLACK < next {
      MulMonotone(TWO_32 + SLACK + 1, next, d * d);
    }
  }

  lemma Cubic(w: nat)
    requires w <= TWO_32
    ensures var d := 2 * TWO_32;
            (TWO_32 - w) * ((d + w) * (d + w)) <= d * d * TWO_32 - 3 * TWO_32 * (w * w)
  {
    var d, ww := 2 * TWO_32, w * w;
    SquareOfSum(d, w);
    assert (TWO_32 - w) * (d * d + 2 * (d * w) + ww)
        == TWO_32 * (d * d) + 2 * TWO_32 * d * w + TWO_32 * ww - w * (d * d) - 2 * d * ww - w * ww;
    MulMonotone(0, w, ww);
  }

  // ---------------------------------------------------------------- the loop

  /** The increment of one round, from the wrapped squared length. */
  function Increment(total: int, b: int): int {
    var z := TruncDiv(Wrap32(-Wrap32(total)), 0x200);
    TruncDiv(Wrap32(z * (Wrap32(ONE + b) / 256)), ONE)
  }

  /** A positive increment is a Newton step; without one the length is within 2^18 / 2^32 of 1. */
  lemma IncrementMeaning(total: nat, scale: nat)
    requires 2_500_000_000 <= total <= TWO_32 + SLACK && 43691 <= scale < 117_300
    ensures var z := Increment(total, scale - ONE);
            && (0 < z ==> total < TWO_32 && z * (2 * TWO_32) <= (TWO_32 - total) * scale)
            && (z <= 0 ==> TWO_32 - SLACK <= total)
  {
    var w, k := TWO_32 - total, scale / 256;
    WrapPositive(total);
    assert Wrap32(ONE + (scale - ONE)) == scale;
    assert 170 <= k <= 458;
    hide Wrap32, TruncDiv;
    if 0 <= w {
      StepUp(w, scale, k);
    } else {
      StepDown(w, k);
    }
  }

  lemma WrapPositive(total: nat)
    requires 2_500_000_000 <= total <= TWO_32 + SLACK
    ensures Wrap32(-Wrap32(total)) == TWO_32 - total
  {
  }

  lemma StepUp(w: nat, scale: nat, k: nat)
    requires w <= 1_794_967_296 && k == scale / 256 && 170 <= k <= 458
    ensures var z := TruncDiv(Wrap32(TruncDiv(w, 0x200) * k), ONE);
            && z * (2 * TWO_32) <= w * scale && 0 <= z
            && (0 < z ==> 0 < w) && (z <= 0 ==> w <= SLACK)
  {
    var z1 := w / 512;
    StepProduct(z1, k);
    hide Wrap32;
    var p := z1 * k;
    assert Wrap32(p) == p && 0 <= p;
    ProductMonotone(512 * z1, w, 256 * k, scale);
    StepConstant(z1, k);
  }

  lemma StepProduct(z1: nat, k: nat)
    requires z1 <= 3_505_795 && 170 <= k <= 458
    ensures 170 * z1 <= z1 * k <= 458 * z1 && Wrap32(z1 * k) == z1 * k
  {
    MulMonotone(k, 458, z1);
    MulMonotone(170, k, z1);
  }

  lemma StepConstant(z1: int, k: int)
    ensures 512 * z1 * (256 * k) == 131072 * (z1 * k)
  {
  }

  lemma StepDown(w: int, k: nat)
    requires -SLACK <= w < 0 && 170 <= k <= 458
    ensures TruncDiv(Wrap32(TruncDiv(w, 0x200) * k), ONE) <= 0
  {
    var z1 := TruncDiv(w, 512);
    assert -512 <= z1 <= 0;
    MulMonotone(z1, 0, k);
    MulMonotone(-512, z1, k);
    assert Wrap32(z1 * k) == z1 * k;
  }

  /** The components of a normalized vector: the prescaled ones times a common scale, rounded down,
      with a length of 1 up to 2^-14. */
  ghost predicate Normalized(x: nat, y: nat, scale: nat, u: nat, v: nat) {
    && u == Grown(x, scale) && v == Grown(y, scale)
    && TWO_32 - SLACK <= u * u + v * v <= TWO_32 + SLACK
  }

  /** The scale that the iteration settles on. */
  ghost function Settled(x: nat, y: nat, length: nat, scale: nat): (r: nat)
    requires Prescaled(x, y, length) && Readable(x, y, scale)
    ensures Readable(x, y, r)
    ensures TWO_32 - SLACK <= SquaredLength(x, y, r)
    decreases 117_300 - scale
  {
    ScaleBound(x, y, length, scale);
    IncrementMeaning(SquaredLength(x, y, scale), scale);
    var z := Increment(SquaredLength(x, y, scale), scale - ONE);
    if z <= 0 then scale
    else
      NextScale(x, y, scale, z);
      Settled(x, y, length, scale + z)
  }

  /** The Newton loop of `ft_vector_norm_len`: it stops for every prescaled vector. */
  method NewtonLoop(x: nat, y: nat, length: nat) returns (u: nat, v: nat, ghost scale: nat)
    requires Prescaled(x, y, length)
    ensures Normalized(x, y, scale, u, v) && Readable(x, y, scale)
    ensures Readable(x, y, 2 * ONE - length) && scale == Settled(x, y, length, 2 * ONE - length)
  {
    hide Increment, Grown, LoopComponent, Prescaled;
    var b := ONE - length;
    FirstScale(x, y, length);
    PrescaledBelowTwo(x, y, length);
    scale := ONE + b;
    while true
      invariant 0 <= ONE + b && scale == ONE + b && Readable(x, y, scale)
      invariant Settled(x, y, length, scale) == Settled(x, y, length, 2 * ONE - length)
      decreases 117_300 - b
    {
      ScaleBound(x, y, length, scale);
      NoOverflow(x, y, length, scale);
      ComponentBounds(Grown(x, scale), Grown(y, scale), SquaredLength(x, y, scale));
      LoopComponentIsGrown(x, scale);
      LoopComponentIsGrown(y, scale);
      u := LoopComponent(x, b);
      v := LoopComponent(y, b);
      IncrementMeaning(SquaredLength(x, y, scale), scale);
      var z := Increment(u * u + v * v, b);
      if z <= 0 {
        break;
      }
      NextScale(x, y, scale, z);
      b := b + z;
      scale := ONE + b;
    }
  }

  lemma PrescaledBelowTwo(x: nat, y: nat, length: nat)
    requires Prescaled(x, y, length)
    ensures length <= 87381
  {
  }

  // ---------------------------------------------------------------- the length

  /** The projection of the prescaled vector on its own direction is its length, up to the rounding
      of the unit vector, and lies where the wrapped reading of the source is right. */
  lemma Projection(x: nat, y: nat, length: nat, scale: nat, u: nat, v: nat)
    requires Prescaled(x, y, length) && Normalized(x, y, scale, u, v) && Readable(x, y, scale)
    ensures var n, h := u * x + v * y, x * x + y * y;
            && n * n <= h * (TWO_32 + SLACK)
            && h * (TWO_32 - SLACK) <= (n + x + y) * (n + x + y)
            && 0x8000_0000 <= n < TWO_32 + 0x8000_0000
  {
    hide Grown, Prescaled, Normalized, Readable;
    NormalizedFacts(x, y, scale, u, v);
    PrescaledSquares(x, y, length);
    ProjectionBetween(x, y, scale, u, v, u * u + v * v, x * x + y * y);
    ProjectionRange(u * x + v * y, x, y, x * x + y * y);
  }

  lemma NormalizedFacts(x: nat, y: nat, scale: nat, u: nat, v: nat)
    requires Normalized(x, y, scale, u, v)
    ensures u == Grown(x, scale) && v == Grown(y, scale)
    ensures TWO_32 - SLACK <= u * u + v * v <= TWO_32 + SLACK
    ensures 0 <= u * x + v * y
  {
    MulMonotone(0, u, x);
    MulMonotone(0, v, y);
  }

  lemma ProjectionBetween(x: nat, y: nat, scale: nat, u: nat, v: nat, total: nat, h: nat)
    requires u == Grown(x, scale) && v == Grown(y, scale) && total == u * u + v * v && h == x * x + y * y
    requires TWO_32 - SLACK <= total <= TWO_32 + SLACK && 0 <= u * x + v * y
    ensures var n := u * x + v * y;
            n * n <= h * (TWO_32 + SLACK) && h * (TWO_32 - SLACK) <= (n + x + y) * (n + x + y)
  {
    hide Grown;
    ProjectionAbove(x, y, u, v, total, h);
    ExactSquare(x, y, scale);
    ProjectionBelow(x, y, scale, u, v);
    LowerFromScale(u * x + v * y + x + y, h, scale, total);
  }

  lemma ProjectionAbove(x: nat, y: nat, u: nat, v: nat, total: nat, h: nat)
    requires total == u * u + v * v && h == x * x + y * y && total <= TWO_32 + SLACK
    ensures (u * x + v * y) * (u * x + v * y) <= h * (TWO_32 + SLACK)
  {
    Cauchy(u, v, x, y);
    MulMonotone(total, TWO_32 + SLACK, h);
  }

  lemma PrescaledSquares(x: nat, y: nat, length: nat)
    requires Prescaled(x, y, length)
    ensures x <= 87381 && y <= 87381 && 1_342_111_344 <= x * x + y * y <= 87381 * 87381 + 2
  {
    SquareMonotone(40959, length - 1);
    SquareMonotone(length, 87381);
  }

  lemma ProjectionRange(n: nat, x: nat, y: nat, h: nat)
    requires x <= 87381 && y <= 87381 && 1_342_111_344 <= h <= 87381 * 87381 + 2
    requires n * n <= h * (TWO_32 + SLACK) && h * (TWO_32 - SLACK) <= (n + x + y) * (n + x + y)
    ensures 0x8000_0000 <= n < TWO_32 + 0x8000_0000
  {
    MulMonotone(1_342_111_344, h, TWO_32 - SLACK);
    MulMonotone(h, 87381 * 87381 + 2, TWO_32 + SLACK);
    if n < 0x8000_0000 {
      SquareMonotone(n + x + y, 0x8000_0000 + 174762);
    } else if TWO_32 + 0x8000_0000 <= n {
      SquareMonotone(TWO_32 + 0x8000_0000, n);
    }
  }

  lemma Cauchy(u: nat, v: nat, x: nat, y: nat)
    ensures (u * x + v * y) * (u * x + v * y) <= (x * x + y * y) * (u * u + v * v)
  {
    var a, b, c, d := u * x, v * y, u * y, v * x;
    SquareOfSum(a, b);
    SquareOfSum(c, -d);
    CrossProduct(u, v, x, y);
    SquareOfProduct(u, x);
    SquareOfProduct(v, y);
    SquareOfProduct(u, y);
    SquareOfProduct(v, x);
    FourProducts(x * x, y * y, u * u, v * v);
  }

  lemma CrossProduct(u: int, v: int, x: int, y: int)
    ensures (u * x) * (v * y) == (u * y) * (v * x)
    ensures (u * y) * (-(v * x)) == -((u * y) * (v * x)) && (-(v * x)) * (-(v * x)) == (v * x) * (v * x)
    ensures 0 <= (u * y + -(v * x)) * (u * y + -(v * x))
  {
  }

  lemma FourProducts(p: int, q: int, r: int, s: int)
    ensures (p + q) * (r + s) == r * p + s * q + r * q + s * p
  {
  }

  lemma ProjectionBelow(x: nat, y: nat, scale: nat, u: nat, v: nat)
    requires u == Grown(x, scale) && v == Grown(y, scale)
    ensures (x * x + y * y) * scale <= ONE * (u * x + v * y + x + y)
  {
    GrownBounds(x, scale);
    GrownBounds(y, scale);
    MulMonotone(x * scale, ONE * (u + 1), x);
    MulMonotone(y * scale, ONE * (v + 1), y);
    Rearranged(x, scale, u);
    Rearranged(y, scale, v);
    Distribute(scale, x * x, y * y);
  }

  lemma Rearranged(x: int, scale: int, u: int)
    ensures x * scale * x == x * x * scale && ONE * (u + 1) * x == ONE * (u * x + x)
  {
  }

  lemma LowerFromScale(m: nat, h: nat, scale: nat, total: nat)
    requires h * scale <= ONE * m && TWO_32 * total <= (scale * scale) * h && TWO_32 - SLACK <= total
    ensures h * (TWO_32 - SLACK) <= m * m
  {
    SquareMonotone(h * scale, ONE * m);
    SquareOfProduct(m, ONE);
    assert (h * scale) * (h * scale) == h * ((scale * scale) * h);
    MulMonotone(TWO_32 * total, (scale * scale) * h, h);
    MulMonotone(TWO_32 - SLACK, total, h);
    assert TWO_32 * total * h == TWO_32 * (total * h);
  }

  /** The scalar product of the unit vector and the prescaled vector, in 1/2^16 of its length. */
  function Dot(u: nat, v: nat, x: nat, y: nat): nat {
    u * x + v * y
  }

  /** The scaled length is the projection in whole units, and the projection is the true length of
      (x, y) up to one part in 2^14 and the rounding of the unit vector. */
  ghost predicate LengthClose(x: nat, y: nat, n: nat, scaled: int) {
    && ONE * (scaled - 1) < n < ONE * (scaled + 1)
    && n * n <= (x * x + y * y) * (TWO_32 + SLACK)
    && (x * x + y * y) * (TWO_32 - SLACK) <= (n + x + y) * (n + x + y)
  }

  /** The length shifted back, rounded to nearest when the prescaling had magnified. */
  function Restored(scaled: nat, shift: int): nat {
    if shift > 0 then Scale((scaled + Pow2(shift - 1)) % TWO_32, -shift) else Scale(scaled, -shift) % TWO_32
  }

  /** What the caller gets for a vector with two non-zero components. */
  ghost predicate UnitAndLength(vx: int, vy: int, nx: int, ny: int, length: nat, scale: nat, scaled: int) {
    var x, y := Abs(vx), Abs(vy);
    0 < Estimate(x, y) < TWO_32 &&
    var shift := PrescaleShift(Estimate(x, y));
    var px, py := Scale(x, shift), Scale(y, shift);
    // the unit vector points along the prescaled vector, into the quadrant of the given one
    && Normalized(px, py, scale, Abs(nx), Abs(ny))
    && (vx < 0 ==> nx <= 0) && (0 < vx ==> 0 <= nx) && (vy < 0 ==> ny <= 0) && (0 < vy ==> 0 <= ny)
    && LengthClose(px, py, Dot(Abs(nx), Abs(ny), px, py), scaled)
    && 0 <= scaled && length == Restored(scaled, shift)
  }

  datatype Norm = Norm(x: int, y: int, length: nat)

  /** Unit vector and length of a vector with two positive components, as the iteration finds them. */
  ghost function NormOfPositive(x: nat, y: nat): Norm
    requires 0 < x <= 0x8000_0000 && 0 < y <= 0x8000_0000
  {
    PrescaleWorks(x, y);
    var shift := PrescaleShift(Estimate(x, y));
    var length := ScaledEstimate(x, y, shift);
    var px, py := Scale(x, shift), Scale(y, shift);
    FirstScale(px, py, length);
    PrescaledBelowTwo(px, py, length);
    var scale := Settled(px, py, length, 2 * ONE - length);
    var u, v := Grown(px, scale), Grown(py, scale);
    ProjectedLength(px, py, length, scale, u, v);
    Norm(u, v, Restored(ONE + TruncDiv(Wrap32(Dot(u, v, px, py)), ONE), shift))
  }

  /** The same for any vector. */
  ghost function NormOf(vx: int, vy: int): Norm
    requires Is32(vx) && Is32(vy)
  {
    var sx, sy := if vx < 0 then -1 else 1, if vy < 0 then -1 else 1;
    if vx == 0 then Norm(0, if vy == 0 then 0 else sy * ONE, Abs(vy))
    else if vy == 0 then Norm(sx * ONE, 0, Abs(vx))
    else
      var n := NormOfPositive(Abs(vx), Abs(vy));
      Norm(sx * n.x, sy * n.y, n.length)
  }

  /** Turning a vector around turns its unit vector around and keeps its length. */
  lemma NormIsOdd(vx: int, vy: int)
    requires Is32(vx) && Is32(vy) && Is32(-vx) && Is32(-vy)
    ensures NormOf(-vx, -vy) == Norm(-NormOf(vx, vy).x, -NormOf(vx, vy).y, NormOf(vx, vy).length)
  {
    hide NormOfPositive;
  }

  /** `ft_vector_norm_len` on magnitudes. */
  method PositiveNormLen(x: nat, y: nat) returns (u: nat, v: nat, length: nat, ghost scale: nat, ghost scaled: int)
    requires 0 < x <= 0x8000_0000 && 0 < y <= 0x8000_0000
    ensures Norm(u, v, length) == NormOfPositive(x, y)
    ensures UnitAndLength(x, y, u, v, length, scale, scaled)
  {
    hide Prescaled, PrescaleShift, Scale, ScaledEstimate, Readable, Wrap32, Pow2, TruncDiv, Normalized, Dot,
         LengthClose, Restored, Settled;
    PrescaleWorks(x, y);
    var shift := PrescaleShift(Estimate(x, y));
    length := ScaledEstimate(x, y, shift);
    var px, py := Scale(x, shift), Scale(y, shift);
    u, v, scale := NewtonLoop(px, py, length);
    NormalizedFacts(px, py, scale, u, v);
    ProjectedLength(px, py, length, scale, u, v);
    scaled := ONE + TruncDiv(Wrap32(Dot(u, v, px, py)), ONE);
    length := ONE + TruncDiv(Wrap32(Dot(u, v, px, py)), ONE);
    length := Restored(length, shift);
  }

  /** `ft_vector_norm_len`. */
  method VectorNormLen(vx: int, vy: int) returns (nx: int, ny: int, length: nat, ghost scale: nat, ghost scaled: int)
    requires Is32(vx) && Is32(vy)
    ensures Norm(nx, ny, length) == NormOf(vx, vy)
    ensures vx == 0 ==> nx == 0 && length == Abs(vy) && ny == (if vy < 0 then -ONE else if vy > 0 then ONE else 0)
    ensures vx != 0 && vy == 0 ==> ny == 0 && length == Abs(vx) && nx == (if vx < 0 then -ONE else ONE)
    ensures vx != 0 && vy != 0 ==> UnitAndLength(vx, vy, nx, ny, length, scale, scaled)
  {
    hide NormOfPositive, Prescaled, PrescaleShift, Scale, Normalized, LengthClose, Restored;
    var sx, sy := if vx < 0 then -1 else 1, if vy < 0 then -1 else 1;
    var x, y := Abs(vx), Abs(vy);
    scale, scaled := 0, 0;
    if x == 0 {
      return 0, if y > 0 then sy * ONE else 0, y, 0, 0;
    }
    if y == 0 {
      return sx * ONE, 0, x, 0, 0;
    }
    var u, v;
    u, v, length, scale, scaled := PositiveNormLen(x, y);
    nx, ny := sx * u, sy * v;
  }

  lemma ProjectedLength(x: nat, y: nat, length: nat, scale: nat, u: nat, v: nat)
    requires Prescaled(x, y, length) && Normalized(x, y, scale, u, v) && Readable(x, y, scale)
    ensures var scaled := ONE + TruncDiv(Wrap32(Dot(u, v, x, y)), ONE);
            0 <= scaled && LengthClose(x, y, Dot(u, v, x, y), scaled)
  {
    hide Prescaled, Normalized, Readable, Wrap32, TruncDiv;
    Projection(x, y, length, scale, u, v);
    WrapProjection(Dot(u, v, x, y));
  }

  lemma WrapProjection(n: int)
    requires 0x8000_0000 <= n < TWO_32 + 0x8000_0000
    ensures var scaled := ONE + TruncDiv(Wrap32(n), ONE);
            0 <= scaled < 0x2_0000 && ONE * (scaled - 1) < n < ONE * (scaled + 1)
  {
    assert Wrap32(n) == n - TWO_32;
  }

  /** Restoring never loses a length: a scaled length of at least a half survives every shift. */
  lemma RestoredIsPositive(scaled: nat, shift: int)
    requires -16 <= shift <= 16 && 0x8000 <= scaled < 0x2_0000 && (shift == -16 ==> scaled < 0x1_0000)
    ensures 0 < Restored(scaled, shift)
  {
    if shift > 0 {
      RestoredDown(scaled, shift);
    } else if shift == 0 {
      assert Scale(scaled, 0) == scaled by { assert Pow2(0) == 1; }
    } else {
      RestoredUp(scaled, -shift);
    }
  }

  lemma RestoredDown(scaled: nat, shift: int)
    requires 0 < shift <= 16 && 0x8000 <= scaled < 0x2_0000
    ensures 0 < Restored(scaled, shift)
  {
    Pow2Double(shift - 1);
    Pow2Grows(shift, 16);
    Pow2Values();
    hide Pow2;
    var p, v := Pow2(shift), scaled + Pow2(shift - 1);
    assert p <= v < TWO_32 && v % TWO_32 == v;
    assert Restored(scaled, shift) == v / p;
    DivMonotone(p, v, p);
    SelfQuotient(p);
  }

  lemma RestoredUp(scaled: nat, k: nat)
    requires 0 < k <= 16 && 0x8000 <= scaled < 0x2_0000 && (k == 16 ==> scaled < 0x1_0000)
    ensures 0 < Restored(scaled, 0 - k)
  {
    Pow2Values();
    hide Pow2;
    if k == 16 {
      assert Restored(scaled, -16) == scaled * ONE % TWO_32;
    } else {
      Pow2Grows(k, 15);
      var p := Pow2(k);
      MulMonotone(scaled, 0x1_ffff, p);
      MulMonotone(p, 0x8000, 0x1_ffff);
      MulMonotone(1, scaled, p);
      var v := scaled * p;
      assert 0 < v < TWO_32 && v % TWO_32 == v;
    }
  }

  lemma SelfQuotient(p: nat)
    requires 0 < p
    ensures p / p == 1
  {
    DivUnique(p, p, 1, 0);
  }

  lemma ShiftRange(length: nat)
    requires 0 < length < TWO_32
    ensures -16 <= PrescaleShift(length) <= 16
  {
    MsbBelow32(length);
  }

  lemma PositiveHasLength(x: nat, y: nat)
    requires 0 < x <= 0x8000_0000 && 0 < y <= 0x8000_0000
    ensures 0 < NormOfPositive(x, y).length
  {
    hide Prescaled, PrescaleShift, Scale, ScaledEstimate, Readable, Wrap32, TruncDiv, Dot, Restored, Settled,
         SquaredLength, Grown;
    PrescaleWorks(x, y);
    var shift := PrescaleShift(Estimate(x, y));
    var length := ScaledEstimate(x, y, shift);
    var px, py := Scale(x, shift), Scale(y, shift);
    FirstScale(px, py, length);
    PrescaledBelowTwo(px, py, length);
    var scale := Settled(px, py, length, 2 * ONE - length);
    var u, v := Grown(px, scale), Grown(py, scale);
    SettledIsNormalized(px, py, scale);
    Projection(px, py, length, scale, u, v);
    DotIs(u, v, px, py);
    ShiftRange(Estimate(x, y));
    WrapProjection(Dot(u, v, px, py));
    if shift == -16 {
      LargeLength(x, y, u, v, px, py);
    }
    RestoredIsPositive(ONE + TruncDiv(Wrap32(Dot(u, v, px, py)), ONE), shift);
  }

  lemma SettledIsNormalized(x: nat, y: nat, scale: nat)
    requires Readable(x, y, scale) && TWO_32 - SLACK <= SquaredLength(x, y, scale)
    ensures Normalized(x, y, scale, Grown(x, scale), Grown(y, scale))
  {
  }

  lemma DotIs(u: nat, v: nat, x: nat, y: nat)
    ensures Dot(u, v, x, y) == u * x + v * y
  {
  }

  /** The vectors that are shifted by 16 places have components of at most half. */
  lemma LargeLength(x: nat, y: nat, u: nat, v: nat, px: nat, py: nat)
    requires x <= 0x8000_0000 && y <= 0x8000_0000 && px == Scale(x, -16) && py == Scale(y, -16)
    requires u * u + v * v <= TWO_32 + SLACK
    ensures u * px + v * py < 0xFFFF_0000 - ONE
  {
    Pow2Values();
    assert px <= 0x8000 && py <= 0x8000;
    ComponentBounds(u, v, u * u + v * v);
    MulMonotone(px, 0x8000, u);
    MulMonotone(py, 0x8000, v);
  }

  /** Exactly the zero vector has no length. */
  lemma OnlyZeroHasNoLength(vx: int, vy: int)
    requires Is32(vx) && Is32(vy)
    ensures NormOf(vx, vy).length == 0 <==> vx == 0 && vy == 0
  {
    hide NormOfPositive;
    if vx != 0 && vy != 0 {
      PositiveHasLength(Abs(vx), Abs(vy));
    }
  }

  /** Every vector but zero gets a unit vector. */
  lemma NormIsUnit(vx: int, vy: int)
    requires Is32(vx) && Is32(vy) && (vx != 0 || vy != 0)
    ensures var n := NormOf(vx, vy); TWO_32 - SLACK <= n.x * n.x + n.y * n.y <= TWO_32 + SLACK
  {
    hide NormOfPositive;
    if vx != 0 && vy != 0 {
      PositiveIsUnit(Abs(vx), Abs(vy));
      var m := NormOfPositive(Abs(vx), Abs(vy));
      SignedSquare(if vx < 0 then -1 else 1, m.x);
      SignedSquare(if vy < 0 then -1 else 1, m.y);
    }
  }

  lemma SignedSquare(sign: int, v: int)
    requires sign == 1 || sign == -1
    ensures (sign * v) * (sign * v) == v * v
  {
  }

  lemma PositiveIsUnit(x: nat, y: nat)
    requires 0 < x <= 0x8000_0000 && 0 < y <= 0x8000_0000
    ensures var n := NormOfPositive(x, y); TWO_32 - SLACK <= n.x * n.x + n.y * n.y <= TWO_32 + SLACK
  {
    hide Prescaled, PrescaleShift, Scale, ScaledEstimate, Wrap32, TruncDiv, Dot, Restored, Settled;
    PrescaleWorks(x, y);
  }
}
