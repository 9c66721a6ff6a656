/** What the CORDIC rotation does to the length of a vector. */
module CordicGain {
  import opened Ints
  import opened Cordic

  function Squared(v: Vector): int {
    v.x * v.x + v.y * v.y
  }

  function Extent(v: Vector): nat {
    Abs(v.x) + Abs(v.y)
  }

  /** The squared length grows by the factors (4^k + 1) / 4^k: the product of the numerators. */
  function GainAbove(n: nat): (g: nat)
    ensures 0 < g
  {
    if n == 0 then 1
    else
      MulMonotone(1, Pow2(2 * n) + 1, GainAbove(n - 1));
      (Pow2(2 * n) + 1) * GainAbove(n - 1)
  }

  function GainBelow(n: nat): (g: nat)
    ensures 0 < g
  {
    if n == 0 then 1
    else
      MulMonotone(1, Pow2(2 * n), GainBelow(n - 1));
      Pow2(2 * n) * GainBelow(n - 1)
  }

  // ---------------------------------------------------------------- one micro-rotation

  const ROOM: int := 0x1000_0000_0000_0000

  /** The rounded shift is off by at most half a unit. */
  lemma RoundShiftNear(v: int, i: nat)
    requires Abs(v) < 4 * ROOM && i < STEPS
    ensures 2 * Abs(Pow2(i + 1) * RoundShift(v, i) - v) <= Pow2(i + 1)
    ensures Abs(RoundShift(v, i)) <= Abs(v)
  {
    Pow2Grows(i, 22);
    Pow2Of22();
    Wrap64Small(v + Pow2(i));
    assert Pow2(i + 1) == 2 * Pow2(i);
    hide Pow2, Wrap64;
    RoundedQuotient(v, Pow2(i));
  }

  lemma Pow2Of22()
    ensures Pow2(22) == 0x40_0000
  {
    ByteRange();
    Pow2Sum(8, 8);
    Pow2Sum(16, 6);
    assert Pow2(6) == 64;
  }

  lemma RoundedQuotient(v: int, h: nat)
    requires 0 < h
    ensures 2 * Abs((2 * h) * ((v + h) / (2 * h)) - v) <= 2 * h
    ensures Abs((v + h) / (2 * h)) <= Abs(v)
  {
    var q, r := (v + h) / (2 * h), (v + h) % (2 * h);
    assert v + h == (2 * h) * q + r && 0 <= r < 2 * h;
    RoundedSmall(v, h, q, r);
  }

  lemma RoundedSmall(v: int, h: nat, q: int, r: int)
    requires 0 < h && v + h == (2 * h) * q + r && 0 <= r < 2 * h
    ensures Abs(q) <= Abs(v)
  {
    if Abs(v) < q {
      MulMonotone(1, q, h);
      SumOver(v, h, q);
    } else if q < 0 - Abs(v) {
      MulMonotone(q, -1, h);
      SumUnder(v, h, q);
    }
  }

  lemma SumOver(v: int, h: nat, q: int)
    requires 0 < h && Abs(v) < q
    ensures v + h < (2 * h) * q
  {
    MulMonotone(1, h, q);
    MulMonotone(1, q, h);
  }

  lemma SumUnder(v: int, h: nat, q: int)
    requires 0 < h && q < 0 - Abs(v)
    ensures (2 * h) * q + 2 * h <= v + h
  {
    MulMonotone(1, h, -1 - q);
    MulMonotone(q, -1, h);
    assert h * (-1 - q) == 0 - h - h * q;
  }

  /** Twice a rounding error times something. */
  lemma ErrorTimes(f: int, w: int, m: nat, bound: nat)
    requires 2 * Abs(f) <= m && Abs(w) <= bound
    ensures 0 <= m * bound && Abs(2 * (f * w)) <= m * bound
  {
    AbsProduct(f, w);
    MulMonotone(2 * Abs(f), m, Abs(w));
    MulMonotone(Abs(w), bound, m);
    MulMonotone(0, bound, m);
  }

  lemma ErrorSquare(f: int, m: nat)
    requires 2 * Abs(f) <= m
    ensures 0 <= 4 * (f * f) <= m * m
  {
    AbsProduct(f, f);
    MulMonotone(2 * Abs(f), m, 2 * Abs(f));
    MulMonotone(2 * Abs(f), m, m);
    assert (2 * Abs(f)) * (2 * Abs(f)) == 4 * (Abs(f) * Abs(f));
  }

  /** The rotated components, multiplied by m. */
  lemma RotatedSquares(x: int, y: int, m: int, a: int, b: int)
    ensures var f, g := m * a - y, m * b - x;
            (m * m) * ((x - a) * (x - a) + (y + b) * (y + b)) - (m * m + 1) * (x * x + y * y)
            == f * f - 2 * (f * (m * x - y)) + g * g + 2 * (g * (m * y + x))
  {
    var f, g := m * a - y, m * b - x;
    var u, v := m * x - y, m * y + x;
    SquareOfProduct(m, x - a);
    SquareOfProduct(m, y + b);
    Distribute(m, x, -a);
    Distribute(m, y, b);
    assert m * (x - a) == u - f && m * (y + b) == v + g;
    SumSquare(u, -f);
    SumSquare(v, g);
    TwoSquares(m, x, y);
    Distribute(m * m, (x - a) * (x - a), (y + b) * (y + b));
    assert u * -f == -(f * u) && -f * -f == f * f && v * g == g * v;
  }

  lemma SumSquare(a: int, b: int)
    ensures (a + b) * (a + b) == a * a + 2 * (a * b) + b * b
  {
  }

  lemma TwoSquares(m: int, x: int, y: int)
    ensures (m * x - y) * (m * x - y) + (m * y + x) * (m * y + x) == (m * m + 1) * (x * x + y * y)
  {
    SumSquare(m * x, -y);
    SumSquare(m * y, x);
    SquareOfProduct(m, x);
    SquareOfProduct(m, y);
    Distribute(m * m, x * x, y * y);
    Distribute(x * x + y * y, m * m, 1);
    assert (m * x) * -y == -((m * x) * y) && (m * x) * y == (m * y) * x;
  }

  /** w comes from v by one micro-rotation of m = 2^i: the squared length is multiplied by 1 + 1/m^2
      and the extent by at most 1 + 1/m, up to the rounding of the two shifts. */
  ghost predicate Stepped(v: Vector, w: Vector, m: nat) {
    && m * Extent(w) <= (m + 1) * Extent(v) + m
    && 2 * Abs((m * m) * Squared(w) - (m * m + 1) * Squared(v)) <= 2 * (m * ((m + 1) * Extent(v))) + m * m
  }

  lemma StepGain(x: int, y: int, m: nat, a: int, b: int)
    requires 0 < m && 2 * Abs(m * a - y) <= m && 2 * Abs(m * b - x) <= m
    ensures 2 * Abs((m * m) * ((x - a) * (x - a) + (y + b) * (y + b)) - (m * m + 1) * (x * x + y * y))
         <= 2 * (m * ((m + 1) * (Abs(x) + Abs(y)))) + m * m
  {
    var f, g := m * a - y, m * b - x;
    RotatedSquares(x, y, m, a, b);
    TurnedExtent(m, x, y);
    var u, v := Abs(m * x - y), Abs(m * y + x);
    ErrorTimes(f, m * x - y, m, u);
    ErrorTimes(g, m * y + x, m, v);
    ErrorSquare(f, m);
    ErrorSquare(g, m);
    Distribute(m, u, v);
    MulMonotone(u + v, (m + 1) * (Abs(x) + Abs(y)), m);
  }

  lemma TurnedExtent(m: nat, x: int, y: int)
    ensures Abs(m * x - y) + Abs(m * y + x) <= (m + 1) * (Abs(x) + Abs(y))
  {
    AbsProduct(m, x);
    AbsProduct(m, y);
    Distribute(m, Abs(x), Abs(y));
    Distribute(Abs(x) + Abs(y), m, 1);
  }

  lemma NatTimesAbs(m: nat, b: int)
    ensures Abs(m * b) == m * Abs(b)
  {
    AbsProduct(m, b);
  }

  /** m |x - a| in terms of the operands of the step. */
  lemma ShiftedTimes(m: nat, x: int, y: int, a: int)
    requires 2 * Abs(m * a - y) <= m
    ensures 2 * (m * Abs(x - a)) <= 2 * (m * Abs(x)) + 2 * Abs(y) + m
  {
    NatTimesAbs(m, x - a);
    NatTimesAbs(m, x);
    TimesLess(m, x, a);
    ErrorApart(m * x, m * a, y, m);
  }

  lemma TimesLess(m: int, x: int, a: int)
    ensures m * (x - a) == m * x - m * a
  {
  }

  lemma ErrorApart(p: int, q: int, y: int, m: nat)
    requires 2 * Abs(q - y) <= m
    ensures 2 * Abs(p - q) <= 2 * Abs(p) + 2 * Abs(y) + m
  {
  }

  lemma ExtentGain(x: int, y: int, m: nat, a: int, b: int)
    requires 2 * Abs(m * a - y) <= m && 2 * Abs(m * b - x) <= m
    ensures m * (Abs(x - a) + Abs(y + b)) <= (m + 1) * (Abs(x) + Abs(y)) + m
  {
    ShiftedTimes(m, x, y, a);
    assert m * -b == -(m * b);
    ShiftedTimes(m, y, -x, -b);
    Distribute(m, Abs(x - a), Abs(y + b));
    Distribute(m, Abs(x), Abs(y));
    Distribute(Abs(x) + Abs(y), m, 1);
  }

  lemma StepLeft(v: Vector, m: nat, a: int, b: int)
    requires 0 < m && 2 * Abs(m * a - v.y) <= m && 2 * Abs(m * b - v.x) <= m
    ensures Stepped(v, Vector(v.x - a, v.y + b), m)
  {
    StepGain(v.x, v.y, m, a, b);
    ExtentGain(v.x, v.y, m, a, b);
  }

  function Mirrored(v: Vector): Vector {
    Vector(v.x, -v.y)
  }

  lemma MirrorKeeps(v: Vector)
    ensures Squared(Mirrored(v)) == Squared(v) && Extent(Mirrored(v)) == Extent(v)
  {
  }

  lemma StepRight(v: Vector, m: nat, a: int, b: int)
    requires 0 < m && 2 * Abs(m * a - v.y) <= m && 2 * Abs(m * b - v.x) <= m
    ensures Stepped(v, Vector(v.x + a, v.y - b), m)
  {
    hide Squared, Extent;
    var w := Vector(v.x + a, v.y - b);
    assert m * -a == -(m * a);
    StepLeft(Mirrored(v), m, -a, b);
    assert Vector(v.x - -a, -v.y + b) == Mirrored(w);
    MirrorKeeps(v);
    MirrorKeeps(w);
  }

  /** A micro-rotation of a vector that leaves room in 64 bits. */
  lemma MicroGain(v: Vector, i: nat, left: bool)
    requires Extent(v) < 4 * ROOM && i < STEPS
    ensures Stepped(v, Micro(v, i, left), Pow2(i + 1))
  {
    hide Abs, Extent, RoundShift, Pow2, Wrap64, Stepped;
    var m, a, b := Pow2(i + 1), RoundShift(v.y, i), RoundShift(v.x, i);
    ComponentsWithin(v);
    RoundShiftNear(v.x, i);
    RoundShiftNear(v.y, i);
    SumFits(v.x, a);
    SumFits(v.y, b);
    if left {
      StepLeft(v, m, a, b);
    } else {
      StepRight(v, m, a, b);
    }
  }

  lemma ComponentsWithin(v: Vector)
    ensures Abs(v.x) <= Extent(v) && Abs(v.y) <= Extent(v)
  {
  }

  lemma SumFits(x: int, a: int)
    requires Abs(x) < 4 * ROOM && Abs(a) < 4 * ROOM
    ensures Wrap64(x + a) == x + a && Wrap64(x - a) == x - a
  {
    Wrap64Small(x + a);
    Wrap64Small(x - a);
  }

  // ---------------------------------------------------------------- all of them

  /** The factors of the extent stay below three. */
  lemma ExtentStep(p: nat, k: nat, now: nat, next: nat)
    requires 0 < p && p * now <= (3 * p - 3) * k && 2 * p * next <= (2 * p + 1) * now + 2 * p
    ensures 2 * p * next <= (6 * p - 3) * (k + 1)
  {
    BelowThree(p, now, k);
    Distribute(now, 2 * p, 1);
    Distribute(6 * p - 3, k, 1);
    MultipleLess(3, p, k);
    MultipleLess(6, p, k);
    assert 2 * p * now == 2 * (p * now);
  }

  lemma MultipleLess(c: nat, p: nat, k: nat)
    ensures (c * p - 3) * k == c * (p * k) - 3 * k
  {
  }

  lemma BelowThree(p: nat, next: nat, k: nat)
    requires 0 < p && p * next <= (3 * p - 3) * k
    ensures next <= 3 * k
  {
    MulMonotone(3 * p - 3, 3 * p, k);
    assert 3 * p * k == p * (3 * k);
    Cancel(p, next, 3 * k);
  }

  /** No intermediate vector is more than three times as large. */
  lemma {:induction false} MicrosExtent(v: Vector, lefts: seq<bool>)
    requires Extent(v) <= ROOM && |lefts| <= STEPS
    ensures var p, n := Pow2(|lefts|), |lefts|;
            (n == 0 ==> Extent(Micros(v, lefts)) == Extent(v))
            && (0 < n ==> p * Extent(Micros(v, lefts)) <= (3 * p - 3) * (Extent(v) + n))
    ensures Extent(Micros(v, lefts)) <= 3 * (Extent(v) + |lefts|)
  {
    hide Micro, Extent, Pow2;
    if lefts != [] {
      var before, n := lefts[..|lefts| - 1], |lefts| - 1;
      MicrosExtent(v, before);
      var w := Micros(v, before);
      MicroGain(w, n, lefts[n]);
      TwicePow2(n);
      var p, k, next := Pow2(n), Extent(v) + n, Extent(Micros(v, lefts));
      if n == 0 {
        assert p == 1 && k == Extent(v);
      } else {
        ExtentStep(p, k, Extent(w), next);
      }
      BelowThree(2 * p, next, k + 1);
    }
  }

  lemma TwicePow2(n: nat)
    ensures Pow2(n + 1) == 2 * Pow2(n) && Pow2(0) == 1
  {
  }

  lemma {:induction false} GainOrder(n: nat)
    ensures GainBelow(n) <= GainAbove(n)
  {
    if n != 0 {
      GainOrder(n - 1);
      MulMonotone(Pow2(2 * n), Pow2(2 * n) + 1, GainBelow(n - 1));
      MulMonotone(GainBelow(n - 1), GainAbove(n - 1), Pow2(2 * n) + 1);
    }
  }

  /** One step's error is at most m^2 times the bound. */
  lemma ErrorBound(m: nat, extent: nat, e: int, room: nat)
    requires 2 <= m && extent <= 3 * room && 0 < room
    requires 2 * Abs(e) <= 2 * (m * ((m + 1) * extent)) + m * m
    ensures Abs(e) <= (m * m) * (5 * room)
  {
    SquareAndOnce(m, extent);
    MulMonotone(2, m, m);
    MulMonotone(2 * m, m * m, extent);
    TripledBound(m * m, extent, room);
  }

  lemma SquareAndOnce(m: nat, r: nat)
    ensures m * ((m + 1) * r) == (m * m) * r + m * r && (2 * m) * r == 2 * (m * r)
  {
    assert m * ((m + 1) * r) == m * (m * r + r) == m * (m * r) + m * r;
    assert m * (m * r) == (m * m) * r;
  }

  lemma TripledBound(q: nat, extent: nat, room: nat)
    requires extent <= 3 * room && 0 < room
    ensures 3 * (q * extent) + q <= 2 * (q * (5 * room))
  {
    MulMonotone(extent, 3 * room, q);
    MulMonotone(1, room, q);
    assert q * (5 * room) == 5 * (q * room) && q * (3 * room) == 3 * (q * room);
  }

  /** The errors of the earlier steps and of one more add up. */
  lemma ErrorsAdd(below: nat, above: nat, q: nat, now: int, next: int, first: int, c: nat, b: nat)
    requires below <= above && Abs(q * next - (q + 1) * now) <= q * b && Abs(below * now - above * first) <= c * above
    ensures Abs(q * below * next - (q + 1) * above * first) <= (c + b) * ((q + 1) * above)
  {
    var e, f := q * next - (q + 1) * now, below * now - above * first;
    ErrorSplit(below, above, q, q + 1, now, next, first);
    NatTimesAbs(below, e);
    NatTimesAbs(q + 1, f);
    OldError(q, Abs(f), c, above);
    NewError(q, Abs(e), b, below, above);
    Distribute((q + 1) * above, c, b);
    hide Abs;
    SumOfErrors(below * e, (q + 1) * f);
  }

  lemma SumOfErrors(x: int, y: int)
    ensures Abs(x + y) <= Abs(x) + Abs(y)
  {
  }

  lemma ErrorSplit(below: int, above: int, q: int, s: int, now: int, next: int, first: int)
    ensures q * below * next - s * above * first == below * (q * next - s * now) + s * (below * now - above * first)
  {
    TimesLess(below, q * next, s * now);
    TimesLess(s, below * now, above * first);
    Regroup(below, q, next);
    Regroup(below, s, now);
    Regroup(above, s, first);
  }

  lemma Regroup(a: int, b: int, c: int)
    ensures a * (b * c) == b * (a * c) == b * a * c
  {
  }

  lemma OldError(q: nat, f: nat, c: nat, above: nat)
    requires f <= c * above
    ensures (q + 1) * f <= c * ((q + 1) * above)
  {
    MulMonotone(f, c * above, q + 1);
    Regroup(q + 1, c, above);
  }

  lemma NewError(q: nat, e: nat, b: nat, below: nat, above: nat)
    requires e <= q * b && below <= above
    ensures below * e <= b * ((q + 1) * above)
  {
    MulMonotone(below, above, e);
    MulMonotone(e, q * b, above);
    MulMonotone(q, q + 1, above);
    MulMonotone(q * above, (q + 1) * above, b);
    assert above * (q * b) == b * (q * above);
  }

  /** n micro-rotations multiply the squared length by GainAbove(n) / GainBelow(n), whatever their
      senses, up to their roundings. */
  lemma {:induction false} MicrosGain(v: Vector, lefts: seq<bool>)
    requires Extent(v) <= ROOM && |lefts| <= STEPS
    ensures var n := |lefts|;
            Abs(GainBelow(n) * Squared(Micros(v, lefts)) - GainAbove(n) * Squared(v))
            <= n * (5 * (Extent(v) + STEPS)) * GainAbove(n)
  {
    hide Micro, Extent, Squared, Pow2, Stepped;
    if lefts != [] {
      var before, n, b := lefts[..|lefts| - 1], |lefts| - 1, 5 * (Extent(v) + STEPS);
      MicrosGain(v, before);
      MicrosExtent(v, before);
      var w, u, m := Micros(v, before), Micros(v, lefts), Pow2(n + 1);
      MicroGain(w, n, lefts[n]);
      TwicePow2(n);
      SteppedError(w, u, m, Extent(v) + STEPS);
      Pow2Sum(n + 1, n + 1);
      GainOrder(n);
      Distribute(b, n, 1);
      ErrorsAdd(GainBelow(n), GainAbove(n), m * m, Squared(w), Squared(u), Squared(v), n * b, b);
    }
  }

  lemma SteppedError(v: Vector, w: Vector, m: nat, room: nat)
    requires Stepped(v, w, m) && 2 <= m && Extent(v) <= 3 * room && 0 < room
    ensures Abs((m * m) * Squared(w) - (m * m + 1) * Squared(v)) <= (m * m) * (5 * room)
  {
    hide Squared, Extent;
    ErrorBound(m, Extent(v), (m * m) * Squared(w) - (m * m + 1) * Squared(v), room);
  }

  // ---------------------------------------------------------------- the whole rotation

  lemma QuarterKeeps(v: Vector)
    requires Extent(v) <= ROOM
    ensures Squared(QuarterLeft(v)) == Squared(v) && Extent(QuarterLeft(v)) == Extent(v)
    ensures Squared(QuarterRight(v)) == Squared(v) && Extent(QuarterRight(v)) == Extent(v)
  {
    Wrap64Small(-v.x);
    Wrap64Small(-v.y);
    hide Wrap64;
    assert -v.x * -v.x == v.x * v.x && -v.y * -v.y == v.y * v.y;
  }

  /** Quarter turns keep the length. */
  lemma {:induction false} QuartersKeep(v: Vector, q: int)
    requires Extent(v) <= ROOM
    ensures Squared(Quarters(v, q)) == Squared(v) && Extent(Quarters(v, q)) == Extent(v)
    decreases Abs(q)
  {
    hide Squared, Extent, QuarterLeft, QuarterRight;
    if q != 0 {
      var before := if 0 < q then q - 1 else q + 1;
      QuartersKeep(v, before);
      QuarterKeeps(Quarters(v, before));
    }
  }

  /** The squared gain of n micro-rotations lies between low and high times 10^-12. */
  ghost predicate GainWithin(n: nat, low: nat, high: nat) {
    low * GainBelow(n) <= 1_000_000_000_000 * GainAbove(n) <= high * GainBelow(n)
  }

  lemma GainNext(n: nat, p: nat, low: nat, high: nat, nextLow: nat, nextHigh: nat)
    requires GainWithin(n, low, high) && p == Pow2(2 * n)
    requires nextLow * (4 * p) <= (4 * p + 1) * low && (4 * p + 1) * high <= nextHigh * (4 * p)
    ensures GainWithin(n + 1, nextLow, nextHigh) && Pow2(2 * (n + 1)) == 4 * p
  {
    assert Pow2(2 * (n + 1)) == 4 * p;
    var a, b, s := GainAbove(n), GainBelow(n), 1_000_000_000_000;
    hide Pow2;
    FactorBelow(4 * p, low, nextLow, s * a, b);
    FactorAbove(4 * p, high, nextHigh, s * a, b);
    assert (4 * p + 1) * (s * a) == s * ((4 * p + 1) * a);
  }

  lemma FactorBelow(q: nat, low: nat, next: nat, a: nat, b: nat)
    requires low * b <= a && next * q <= (q + 1) * low
    ensures next * (q * b) <= (q + 1) * a
  {
    MulMonotone(next * q, (q + 1) * low, b);
    MulMonotone(low * b, a, q + 1);
    assert next * (q * b) == next * q * b && (q + 1) * (low * b) == (q + 1) * low * b;
  }

  lemma FactorAbove(q: nat, high: nat, next: nat, a: nat, b: nat)
    requires a <= high * b && (q + 1) * high <= next * q
    ensures (q + 1) * a <= next * (q * b)
  {
    MulMonotone((q + 1) * high, next * q, b);
    MulMonotone(a, high * b, q + 1);
    assert next * (q * b) == next * q * b && (q + 1) * (high * b) == (q + 1) * high * b;
  }

  lemma GainStart()
    ensures GainWithin(0, 1_000_000_000_000, 1_000_000_000_000) && Pow2(0) == 1
  {
  }

  lemma GainOfEight()
    ensures GainWithin(8, 1_355_902_777_376, 1_355_902_777_381) && Pow2(16) == 65_536
  {
    hide GainWithin, GainAbove, GainBelow, Pow2;
    GainStart();
    GainNext(0, 1, 1_000_000_000_000, 1_000_000_000_000, 1_250_000_000_000, 1_250_000_000_000);
    GainNext(1, 4, 1_250_000_000_000, 1_250_000_000_000, 1_328_125_000_000, 1_328_125_000_000);
    GainNext(2, 16, 1_328_125_000_000, 1_328_125_000_000, 1_348_876_953_125, 1_348_876_953_125);
    GainNext(3, 64, 1_348_876_953_125, 1_348_876_953_125, 1_354_146_003_723, 1_354_146_003_724);
    GainNext(4, 256, 1_354_146_003_723, 1_354_146_003_724, 1_355_468_411_929, 1_355_468_411_931);
    GainNext(5, 1_024, 1_355_468_411_929, 1_355_468_411_931, 1_355_799_336_834, 1_355_799_336_837);
    GainNext(6, 4_096, 1_355_799_336_834, 1_355_799_336_837, 1_355_882_088_258, 1_355_882_088_262);
    GainNext(7, 16_384, 1_355_882_088_258, 1_355_882_088_262, 1_355_902_777_376, 1_355_902_777_381);
  }

  lemma GainOfFifteen()
    ensures GainWithin(15, 1_355_909_673_436, 1_355_909_673_448) && Pow2(30) == 1_073_741_824
  {
    hide GainWithin, GainAbove, GainBelow, Pow2;
    GainOfEight();
    GainNext(8, 65_536, 1_355_902_777_376, 1_355_902_777_381, 1_355_907_949_734, 1_355_907_949_740);
    GainNext(9, 262_144, 1_355_907_949_734, 1_355_907_949_740, 1_355_909_242_828, 1_355_909_242_835);
    GainNext(10, 1_048_576, 1_355_909_242_828, 1_355_909_242_835, 1_355_909_566_101, 1_355_909_566_109);
    GainNext(11, 4_194_304, 1_355_909_566_101, 1_355_909_566_109, 1_355_909_646_919, 1_355_909_646_928);
    GainNext(12, 16_777_216, 1_355_909_646_919, 1_355_909_646_928, 1_355_909_667_123, 1_355_909_667_133);
    GainNext(13, 67_108_864, 1_355_909_667_123, 1_355_909_667_133, 1_355_909_672_174, 1_355_909_672_185);
    GainNext(14, 268_435_456, 1_355_909_672_174, 1_355_909_672_185, 1_355_909_673_436, 1_355_909_673_448);
  }

  /** The squared gain of all 22 micro-rotations. */
  lemma GainOfAll()
    ensures GainWithin(STEPS, 1_355_909_673_853, 1_355_909_673_872)
  {
    hide GainWithin, GainAbove, GainBelow, Pow2;
    GainOfFifteen();
    GainNext(15, 1_073_741_824, 1_355_909_673_436, 1_355_909_673_448, 1_355_909_673_751, 1_355_909_673_764);
    GainNext(16, 4_294_967_296, 1_355_909_673_751, 1_355_909_673_764, 1_355_909_673_829, 1_355_909_673_843);
    GainNext(17, 17_179_869_184, 1_355_909_673_829, 1_355_909_673_843, 1_355_909_673_848, 1_355_909_673_863);
    GainNext(18, 68_719_476_736, 1_355_909_673_848, 1_355_909_673_863, 1_355_909_673_852, 1_355_909_673_868);
    GainNext(19, 274_877_906_944, 1_355_909_673_852, 1_355_909_673_868, 1_355_909_673_853, 1_355_909_673_870);
    GainNext(20, 1_099_511_627_776, 1_355_909_673_853, 1_355_909_673_870, 1_355_909_673_853, 1_355_909_673_871);
    GainNext(21, 4_398_046_511_104, 1_355_909_673_853, 1_355_909_673_871, 1_355_909_673_853, 1_355_909_673_872);
  }

  /** A rotation multiplies the squared length by the same factor for every vector and every angle, up
      to 22 roundings. */
  lemma RotationGain(v: Vector, theta: int)
    requires Extent(v) <= ROOM
    ensures Abs(GainBelow(STEPS) * Squared(Rotated(v, theta)) - GainAbove(STEPS) * Squared(v))
         <= 110 * (Extent(v) + 22) * GainAbove(STEPS)
  {
    hide Micros, Quarters, Senses, Squared, Extent, GainAbove, GainBelow;
    var q := QuarterTurns(theta);
    QuartersKeep(v, q);
    MicrosGain(Quarters(v, q), Senses(theta - q * PI2, STEPS));
  }

  // ---------------------------------------------------------------- sine and cosine

  const TRIG_SCALE: nat := 0xDBD9_5B16

  /** The scale constant is the reciprocal of the gain: no larger multiple of 2^-32 keeps the square below one. */
  lemma ScaleIsReciprocal()
    ensures TRIG_SCALE * TRIG_SCALE * GainAbove(STEPS) < TWO_64 * GainBelow(STEPS)
    ensures TWO_64 * GainBelow(STEPS) < (TRIG_SCALE + 1) * (TRIG_SCALE + 1) * GainAbove(STEPS)
  {
    GainOfAll();
    hide GainAbove, GainBelow;
  }

  lemma GainedBelow(below: nat, above: nat, now: int, least: nat, low: nat)
    requires 0 < below && low * below <= 1_000_000_000_000 * above && above * least <= below * now
    ensures low * least <= 1_000_000_000_000 * now
  {
    var t := 1_000_000_000_000;
    MulMonotone(low * below, t * above, least);
    assert low * below * least == below * (low * least) && t * above * least == t * (above * least);
    assert t * (below * now) == below * (t * now);
    Cancel(below, low * least, t * now);
  }

  lemma GainedAbove(below: nat, above: nat, now: int, most: nat, high: nat)
    requires 0 < below && 1_000_000_000_000 * above <= high * below && below * now <= above * most
    ensures 1_000_000_000_000 * now <= high * most
  {
    var t := 1_000_000_000_000;
    MulMonotone(t * above, high * below, most);
    assert high * below * most == below * (high * most) && t * above * most == t * (above * most);
    assert t * (below * now) == below * (t * now);
    Cancel(below, t * now, high * most);
  }

  lemma AroundProduct(above: nat, first: int, e: int, p: int)
    requires Abs(p - above * first) <= e * above
    ensures above * (first - e) <= p <= above * (first + e)
  {
    Distribute(above, first, e);
    TimesLess(above, first, e);
  }

  /** A component, rounded to 16.16. */
  function Narrowed(v: int): int {
    Wrap64(v + 0x80) / 0x100
  }

  lemma NarrowedNear(v: int)
    requires Abs(v) < 4 * ROOM
    ensures Abs(0x100 * Narrowed(v) - v) <= 0x80
  {
    Wrap64Small(v + 0x80);
  }

  lemma AroundSquare(v: int, f: int)
    ensures (v + f) * (v + f) - v * v == 2 * (f * v) + f * f
  {
    SumSquare(v, f);
  }

  lemma NarrowedSquare(c: int, v: int)
    requires Abs(0x100 * c - v) <= 0x80
    ensures Abs(0x1_0000 * (c * c) - v * v) <= 0x100 * Abs(v) + 0x4000
  {
    var f := 0x100 * c - v;
    ErrorTimes(f, v, 0x100, Abs(v));
    ErrorSquare(f, 0x100);
    AroundSquare(v, f);
    assert (0x100 * c) * (0x100 * c) == 0x1_0000 * (c * c);
  }

  lemma ExtentOfSquare(v: Vector, bound: nat)
    requires 2 * Squared(v) < bound * bound
    ensures Extent(v) < bound
  {
    var x, y := Abs(v.x), Abs(v.y);
    assert x * x == v.x * v.x && y * y == v.y * v.y;
    SumAndDifference(x, y);
    if bound <= x + y {
      MulMonotone(bound, x + y, bound);
      MulMonotone(bound, x + y, x + y);
    }
  }

  lemma SumAndDifference(x: int, y: int)
    ensures (x + y) * (x + y) <= 2 * (x * x + y * y)
  {
    assert 0 <= (x - y) * (x - y) == x * x - 2 * (x * y) + y * y;
    SumSquare(x, y);
  }

  /** The rotated start vector has length 2^24, nearly. */
  lemma RotatedStart(angle: int)
    ensures 281_472_824_317_904 <= Squared(Rotated(Vector(0xDB_D95B, 0), angle)) <= 281_477_122_244_714
  {
    hide Rotated, GainAbove, GainBelow;
    var v := Vector(0xDB_D95B, 0);
    RotationGain(v, angle);
    GainOfAll();
    assert Squared(v) == 0xDB_D95B * 0xDB_D95B && Extent(v) == 0xDB_D95B;
    var w := Rotated(v, angle);
    hide Squared, Extent;
    var a, b, first, e := GainAbove(STEPS), GainBelow(STEPS), 0xDB_D95B * 0xDB_D95B, 110 * (0xDB_D95B + 22);
    AroundProduct(a, first, e, b * Squared(w));
    GainedBelow(b, a, Squared(w), first - e, 1_355_909_673_853);
    GainedAbove(b, a, Squared(w), first + e, 1_355_909_673_872);
  }

  lemma UnitSquare(w: Vector)
    requires 281_472_824_317_904 <= Squared(w) <= 281_477_122_244_714
    ensures var cos, sin := Narrowed(w.x), Narrowed(w.y);
            0xFFFF * 0xFFFF <= cos * cos + sin * sin <= 0x1_0001 * 0x1_0001
  {
    ExtentOfSquare(w, 23_726_657);
    NarrowedNear(w.x);
    NarrowedNear(w.y);
    NarrowedSquare(Narrowed(w.x), w.x);
    NarrowedSquare(Narrowed(w.y), w.y);
    hide Narrowed;
  }
}
