/** Machine-integer operations of the Rust code, written out over mathematical integers. */
module Ints {

  const TWO_32: int := 0x1_0000_0000
  const TWO_64: int := 0x1_0000_0000_0000_0000

  /** Two's-complement reading of the low 32 bits (`as i32`). */
  function Wrap32(x: int): (r: int)
    ensures -0x8000_0000 <= r < 0x8000_0000
  {
    (x + 0x8000_0000) % TWO_32 - 0x8000_0000
  }

  /** Two's-complement reading of the low 64 bits (`as i64`). */
  function Wrap64(x: int): int {
    (x + 0x8000_0000_0000_0000) % TWO_64 - 0x8000_0000_0000_0000
  }

  /** Division of Rust and C: truncation toward zero. */
  function TruncDiv(a: int, b: int): int
    requires b != 0
  {
    if a >= 0 then a / b else -((-a) / b)
  }

  const I32_MAX: int := 0x7FFF_FFFF

  predicate Is32(v: int) {
    -0x8000_0000 <= v < 0x8000_0000
  }

  type byte = b: int | 0 <= b < 0x100

  function Abs(x: int): nat {
    if x < 0 then -x else x
  }

  function Max(a: int, b: int): int {
    if a < b then b else a
  }

  function Min(a: int, b: int): int {
    if a < b then a else b
  }

  function Clamp(x: int, low: int, high: int): int {
    Max(low, Min(x, high))
  }

  /** Wrapping early or late makes no difference to a sum. */
  lemma WrapAdd(a: int, b: int)
    ensures Wrap32(Wrap32(a) + b) == Wrap32(a + b) == Wrap32(a + Wrap32(b))
  {
    WrapsOff(a);
    WrapsOff(b);
    hide Wrap32;
    WrapShift(a + b, (a + 0x8000_0000) / TWO_32);
    WrapShift(a + b, (b + 0x8000_0000) / TWO_32);
  }

  lemma WrapsOff(a: int)
    ensures Wrap32(a) == a - (a + 0x8000_0000) / TWO_32 * TWO_32
  {
  }

  /** Wrapping the factor early makes no difference to a multiple. */
  lemma WrapScale(a: int, k: int)
    ensures Wrap32(k * Wrap32(a)) == Wrap32(k * a)
  {
    hide Wrap32;
    var q := (a + 0x8000_0000) / TWO_32;
    WrapsOff(a);
    assert k * Wrap32(a) == k * a - (k * q) * TWO_32;
    WrapShift(k * a, k * q);
  }

  lemma WrapShift(a: int, q: int)
    ensures Wrap32(a - q * TWO_32) == Wrap32(a)
  {
  }

  function Pow2(k: nat): (r: nat)
    ensures 0 < r
  {
    if k == 0 then 1 else 2 * Pow2(k - 1)
  }

  lemma {:induction false} Pow2Sum(i: nat, j: nat)
    ensures Pow2(i + j) == Pow2(i) * Pow2(j)
  {
    if i != 0 {
      Pow2Sum(i - 1, j);
      assert 2 * (Pow2(i - 1) * Pow2(j)) == (2 * Pow2(i - 1)) * Pow2(j);
    }
  }

  lemma ByteRange()
    ensures Pow2(8) == 256
  {
    assert Pow2(4) == 16;
    Pow2Sum(4, 4);
  }

  lemma Pow2Of32()
    ensures Pow2(32) == TWO_32
  {
    ByteRange();
    Pow2Sum(8, 8);
    Pow2Sum(16, 16);
  }

  lemma Pow2Grows(i: nat, j: nat)
    requires i <= j
    ensures Pow2(i) <= Pow2(j)
  {
    Pow2Sum(i, j - i);
    MulMonotone(1, Pow2(j - i), Pow2(i));
  }

  lemma QuotientIsNat(v: nat, p: nat)
    requires 0 < p
    ensures 0 <= v / p
  {
    var q := v / p;
    assert v == p * q + v % p;
    if q < 0 {
      MulMonotone(q, -1, p);
    }
  }

  lemma DivUnique(v: int, m: int, q: int, r: int)
    requires 0 < m && v == m * q + r && 0 <= r < m
    ensures v / m == q
  {
    var q', r' := v / m, v % m;
    assert v == m * q' + r' && 0 <= r' < m;
    assert m * (q - q') == r' - r && m * (q' - q) == r - r';
    if q < q' {
      MulMonotone(1, q' - q, m);
    }
    if q' < q {
      MulMonotone(1, q - q', m);
    }
  }

  const LONG_MAX: int := 0x7FFF_FFFF_FFFF_FFFF

  lemma Wrap64Small(v: int)
    requires -LONG_MAX - 1 <= v <= LONG_MAX
    ensures Wrap64(v) == v
  {
  }

  lemma Distribute(p: int, u: int, v: int)
    ensures p * (u + v) == p * u + p * v && (u + v) * p == u * p + v * p
  {
  }

  lemma SquareOfProduct(x: int, k: int)
    ensures (x * k) * (x * k) == (x * x) * (k * k) && (k * x) * (k * x) == (x * x) * (k * k)
  {
  }

  lemma AbsProduct(a: int, b: int)
    ensures Abs(a * b) == Abs(a) * Abs(b)
  {
  }

  lemma MulMonotone(x: int, y: int, k: int)
    requires x <= y && 0 <= k
    ensures x * k <= y * k
  {
  }

  lemma MulStrict(x: int, y: int, k: int)
    requires x < y && 0 < k
    ensures x * k < y * k
  {
  }

  lemma Cancel(k: int, u: int, v: int)
    requires 0 < k
    ensures (k * u < k * v ==> u < v) && (k * u <= k * v ==> u <= v)
  {
    if v <= u {
      MulMonotone(v, u, k);
    }
    if v < u {
      MulStrict(v, u, k);
    }
  }

  lemma QuotientBelow(v: nat, d: nat, m: nat)
    requires 0 < d && v < m * d
    ensures v / d < m
  {
    assert v == d * (v / d) + v % d;
    if m <= v / d {
      MulMonotone(m, v / d, d);
    }
  }
}
