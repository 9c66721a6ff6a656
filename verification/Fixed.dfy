/** 16.16 fixed-point multiplication and division with sign-stripped rounding. */
module Fixed {
  import opened Ints

  // ---------------------------------------------------------------- rounding to nearest

  /** q is n / d rounded to the nearest integer, ties away from zero. */
  ghost predicate IsRounded(n: int, d: int, q: int) {
    var off := Abs(n - q * d);
    2 * off <= Abs(d) && (2 * off == Abs(d) ==> Abs(n) <= Abs(q * d))
  }

  /** Rounding is a function: it fixes q. */
  lemma RoundedIsUnique(n: int, d: int, q: int, q': int)
    requires 0 < d && IsRounded(n, d, q) && IsRounded(n, d, q')
    ensures q == q'
  {
    RoundedNear(n, d, q);
    RoundedNear(n, d, q');
    hide IsRounded;
    var gap := q' - q;
    assert q' * d == q * d + gap * d;
    GapIsSmall(gap, d, q' * d - q * d);
    TieBetween(n, d, q);
    TieBetween(n, d, q');
  }

  lemma RoundedNear(n: int, d: int, q: int)
    requires 0 < d && IsRounded(n, d, q)
    ensures -d <= 2 * (n - q * d) <= d
  {
  }

  lemma GapIsSmall(gap: int, d: int, diff: int)
    requires diff == gap * d && -d <= diff <= d && 0 < d
    ensures -1 <= gap <= 1
  {
    if 2 <= gap {
      MulMonotone(2, gap, d);
    } else if gap <= -2 {
      MulMonotone(gap, -2, d);
    }
  }

  /** Two neighbours are never both nearest with the tie rule. */
  lemma TieBetween(n: int, d: int, q: int)
    requires 0 < d
    ensures !(IsRounded(n, d, q) && IsRounded(n, d, q + 1))
  {
    assert (q + 1) * d == q * d + d;
    if 0 <= q {
      MulMonotone(0, q, d);
    } else {
      MulMonotone(q + 1, 0, d);
    }
  }

  /** The sign-stripped quotient (|n| + |d| / 2) / |d| is the rounded magnitude. */
  lemma HalfUpMagnitude(n: nat, d: nat)
    requires 0 < d
    ensures IsRounded(n, d, (n + d / 2) / d)
  {
    var q := (n + d / 2) / d;
    var r := (n + d / 2) % d;
    assert n + d / 2 == d * q + r;
    assert q * d == d * q;
    MulMonotone(0, q, d);
  }

  lemma RoundedNegate(n: int, d: int, q: int)
    requires IsRounded(n, d, q)
    ensures IsRounded(-n, d, -q) && IsRounded(n, -d, -q) && IsRounded(-n, -d, q)
  {
    assert (-q) * d == -(q * d) && (-q) * (-d) == q * d && q * (-d) == -(q * d);
  }

  // ---------------------------------------------------------------- the operations

  /** `move_long_sign`: the 64-bit magnitude. */
  function Magnitude(v: int): nat {
    Abs(v)
  }

  /** Restoring a stripped sign with wrapping negation. */
  function Signed(negative: bool, magnitude: int): int {
    if negative then Wrap64(-Wrap64(magnitude)) else Wrap64(magnitude)
  }

  const NO_QUOTIENT: nat := 0x7FFF_FFFF

  function MulFixLong(a: int, b: int): int {
    var ab := Wrap64(a * b);
    Wrap64(Wrap64(ab + 0x8000) + (if ab < 0 then -1 else 0)) / 0x1_0000
  }

  /** The wrapping 64-bit quotient (n + d / 2) / d of two magnitudes, with the sentinel for zero. */
  function StrippedQuotient(n: nat, d: nat): nat {
    if d == 0 then NO_QUOTIENT else (n % TWO_64 + d / 2) % TWO_64 / d
  }

  function DivFixLong(a: int, b: int): int {
    var ua, ub := Magnitude(a), Magnitude(b);
    Signed((a < 0) != (b < 0), StrippedQuotient(ua * 0x1_0000, ub))
  }

  function MulDivLong(a: int, b: int, c: int): int {
    var ua, ub, uc := Magnitude(a), Magnitude(b), Magnitude(c);
    Signed(((a < 0) != (b < 0)) != (c < 0), StrippedQuotient(ua * ub, uc))
  }

  /** `FT_MulFix` rounds a * b / 2^16 to nearest, ties away from zero. */
  lemma MulFixRounds(a: int, b: int)
    requires Abs(a * b) <= LONG_MAX - 0x8000
    ensures IsRounded(a * b, 0x1_0000, MulFixLong(a, b))
  {
    hide Wrap64;
    var ab := a * b;
    Wrap64Small(ab);
    Wrap64Small(ab + 0x8000);
    Wrap64Small(ab + 0x8000 + (if ab < 0 then -1 else 0));
  }

  /** The unsigned sum does not overflow and the quotient fits a signed 64-bit result. */
  predicate QuotientFits(n: nat, d: nat) {
    0 < d && n + d / 2 < TWO_64 && n + d / 2 < (LONG_MAX + 1) * d
  }

  lemma StrippedQuotientRounds(n: nat, d: nat)
    requires QuotientFits(n, d)
    ensures IsRounded(n, d, StrippedQuotient(n, d)) && StrippedQuotient(n, d) <= LONG_MAX
  {
    SmallModulus(n);
    SmallModulus(n + d / 2);
    HalfUpMagnitude(n, d);
    QuotientBelow(n + d / 2, d, LONG_MAX + 1);
  }

  /** `FT_DivFix` rounds a * 2^16 / b to nearest, ties away from zero. */
  lemma DivFixRounds(a: int, b: int)
    requires QuotientFits(Abs(a) * 0x1_0000, Abs(b))
    ensures IsRounded(a * 0x1_0000, b, DivFixLong(a, b))
  {
    hide Wrap64, IsRounded, StrippedQuotient, QuotientFits;
    NonZeroDivisor(Abs(a) * 0x1_0000, Abs(b));
    var ua, ub := Magnitude(a), Magnitude(b);
    var q: int := StrippedQuotient(ua * 0x1_0000, ub);
    StrippedQuotientRounds(ua * 0x1_0000, ub);
    RoundedNegate(ua * 0x1_0000, ub, q);
    Wrap64Small(q);
    Wrap64Small(-q);
  }

  /** `FT_MulDiv` rounds a * b / c to nearest, ties away from zero. */
  lemma MulDivRounds(a: int, b: int, c: int)
    requires 0 <= Abs(a) * Abs(b) && QuotientFits(Abs(a) * Abs(b), Abs(c))
    ensures IsRounded(a * b, c, MulDivLong(a, b, c))
  {
    MulMonotone(0, Abs(a), Abs(b));
    ProductSigns(a, b);
    MulDivOfProduct(a, b, c, Abs(a) * Abs(b), (a < 0) != (b < 0));
  }

  lemma MulDivOfProduct(a: int, b: int, c: int, p: int, negative: bool)
    requires 0 <= p && QuotientFits(p, Abs(c))
    requires p == Abs(a) * Abs(b) && negative == ((a < 0) != (b < 0))
    ensures IsRounded(if negative then -p else p, c, MulDivLong(a, b, c))
  {
    hide Wrap64, IsRounded, StrippedQuotient, QuotientFits;
    NonZeroDivisor(p, Abs(c));
    var q: int := StrippedQuotient(p, Abs(c));
    StrippedQuotientRounds(p, Abs(c));
    RoundedNegate(p, Abs(c), q);
    Wrap64Small(q);
    Wrap64Small(-q);
    assert MulDivLong(a, b, c) == if negative != (c < 0) then -q else q;
  }

  lemma ProductSigns(a: int, b: int)
    ensures a * b == if (a < 0) != (b < 0) then -(Abs(a) * Abs(b)) else Abs(a) * Abs(b)
  {
  }

  lemma NonZeroDivisor(n: nat, d: nat)
    requires QuotientFits(n, d)
    ensures d != 0
  {
  }

  lemma SmallModulus(v: nat)
    requires v < TWO_64
    ensures v % TWO_64 == v
  {
  }

  /** Without overflow the product is odd in each argument. */
  lemma MulFixOdd(a: int, b: int)
    requires Abs(a * b) <= LONG_MAX - 0x8000
    ensures MulFixLong(-a, b) == -MulFixLong(a, b) == MulFixLong(a, -b)
  {
    hide MulFixLong;
    assert (-a) * b == -(a * b) == a * (-b);
    MulFixRounds(a, b);
    MulFixRounds(-a, b);
    MulFixRounds(a, -b);
    RoundedNegate(a * b, 0x1_0000, MulFixLong(a, b));
    RoundedIsUnique(-(a * b), 0x1_0000, MulFixLong(-a, b), -MulFixLong(a, b));
    RoundedIsUnique(-(a * b), 0x1_0000, MulFixLong(a, -b), -MulFixLong(a, b));
  }

  /** Without overflow the quotient is odd in each argument. */
  lemma DivFixOdd(a: int, b: int)
    requires QuotientFits(Abs(a) * 0x1_0000, Abs(b))
    ensures DivFixLong(-a, b) == -DivFixLong(a, b) == DivFixLong(a, -b)
  {
    hide Wrap64, StrippedQuotient, IsRounded;
    var q: int := StrippedQuotient(Abs(a) * 0x1_0000, Abs(b));
    StrippedQuotientRounds(Abs(a) * 0x1_0000, Abs(b));
    Wrap64Small(q);
    Wrap64Small(-q);
    if a == 0 {
      ZeroQuotient(Abs(b));
    }
  }

  lemma ZeroQuotient(d: nat)
    requires QuotientFits(0, d)
    ensures StrippedQuotient(0, d) == 0
  {
    DivUnique(d / 2, d, 0, d / 2);
  }

  lemma SmallQuotientFits(n: nat, d: nat)
    requires 0 < d && n + d <= LONG_MAX
    ensures QuotientFits(n, d)
  {
    MulMonotone(1, d, LONG_MAX + 1);
  }

  /** Multiplying a quotient back is off by at most |b| / 2^17 + 1/2. */
  lemma MulAfterDiv(a: int, b: int)
    requires b != 0 && Abs(a) < 0x4000_0000_0000 && Abs(b) < 0x1000_0000_0000_0000
    ensures 0x2_0000 * Abs(MulFixLong(DivFixLong(a, b), b) - a) <= Abs(b) + 0x1_0000
  {
    hide MulFixLong, DivFixLong;
    SmallQuotientFits(Abs(a) * 0x1_0000, Abs(b));
    DivFixRounds(a, b);
    var q := DivFixLong(a, b);
    assert 2 * Abs(a * 0x1_0000 - q * b) <= Abs(b);
    MulFixRounds(q, b);
  }

  /** For divisors up to 1.0 the round trip is exact. */
  lemma MulUndoesDiv(a: int, b: int)
    requires 0 < Abs(b) <= 0x1_0000 && Abs(a) < 0x4000_0000_0000
    ensures MulFixLong(DivFixLong(a, b), b) == a
  {
    hide MulFixLong, DivFixLong;
    SmallQuotientFits(Abs(a) * 0x1_0000, Abs(b));
    DivFixRounds(a, b);
    var q := DivFixLong(a, b);
    MulFixRounds(q, b);
    if Abs(b) == 0x1_0000 {
      WholeDivisor(a, b, q);
    }
    RoundedFromClose(q * b, a, MulFixLong(q, b));
  }

  lemma WholeDivisor(a: int, b: int, q: int)
    requires Abs(b) == 0x1_0000 && IsRounded(a * 0x1_0000, b, q)
    ensures q * b == a * 0x1_0000
  {
  }

  /** A product less than half a unit from a whole number rounds to it. */
  lemma RoundedFromClose(n: int, a: int, q: int)
    requires IsRounded(n, 0x1_0000, q) && 2 * Abs(n - a * 0x1_0000) < 0x1_0000
    ensures q == a
  {
  }

  // ---------------------------------------------------------------- the 32-bit variants

  function MulFix(a: int, b: int): int {
    Wrap32(MulFixLong(a, b))
  }

  function MulDiv(a: int, b: int, c: int): int {
    Wrap32(MulDivLong(a, b, c))
  }
}
