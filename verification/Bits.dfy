/** Bytes as numbers and as eight bits. */
module Bits {
  import opened Ints

  /** Bit i of a number, bit 0 the lowest. */
  predicate Bit(v: nat, i: nat) {
    v / Pow2(i) % 2 == 1
  }

  function ShiftRight(v: nat, k: nat): nat {
    QuotientIsNat(v, Pow2(k));
    v / Pow2(k)
  }

  /** Bitwise or. */
  function BitOr(a: nat, b: nat): nat {
    if a == 0 && b == 0 then 0
    else 2 * BitOr(a / 2, b / 2) + (if a % 2 == 1 || b % 2 == 1 then 1 else 0)
  }

  function Or(a: byte, b: byte): byte {
    ByteRange();
    BitOrBelow(a, b, 8);
    BitOr(a, b)
  }

  lemma {:induction false} BitOrBelow(a: nat, b: nat, n: nat)
    requires a < Pow2(n) && b < Pow2(n)
    ensures BitOr(a, b) < Pow2(n)
  {
    if n != 0 {
      BitOrBelow(a / 2, b / 2, n - 1);
    }
  }

  lemma BitOfHalf(v: nat, i: nat)
    ensures Bit(v, 0) <==> v % 2 == 1
    ensures Bit(v, i + 1) <==> Bit(v / 2, i)
  {
    assert v / Pow2(i + 1) == v / 2 / Pow2(i) by { DivTwice(v, 2, Pow2(i)); }
  }

  lemma DivTwice(v: nat, p: nat, q: nat)
    requires 0 < p && 0 < q
    ensures 0 < p * q && v / (p * q) == v / p / q
  {
    MulMonotone(1, p, q);
    var a, b := v / p, v / p / q;
    assert v == p * a + v % p && a == q * b + a % q;
    var r := p * (a % q) + v % p;
    assert p * (q * b + a % q) == (p * q) * b + p * (a % q) by { Distribute(p, q * b, a % q); Associate(p, q, b); }
    MulMonotone(a % q, q - 1, p);
    MulMonotone(0, a % q, p);
    Distribute(p, q, -1);
    DivUnique(v, p * q, b, r);
  }

  lemma Associate(p: int, q: int, b: int)
    ensures p * (q * b) == (p * q) * b
  {
  }

  lemma {:induction false} BitOrBits(a: nat, b: nat, i: nat)
    ensures Bit(BitOr(a, b), i) <==> Bit(a, i) || Bit(b, i)
    decreases i
  {
    if a == 0 && b == 0 {
      ZeroBits(i);
    } else {
      var r, h := BitOr(a, b), BitOr(a / 2, b / 2);
      assert r / 2 == h && (r % 2 == 1 <==> a % 2 == 1 || b % 2 == 1);
      if i == 0 {
        BitOfHalf(r, 0);
        BitOfHalf(a, 0);
        BitOfHalf(b, 0);
      } else {
        BitOfHalf(r, i - 1);
        BitOfHalf(a, i - 1);
        BitOfHalf(b, i - 1);
        BitOrBits(a / 2, b / 2, i - 1);
      }
    }
  }

  lemma ZeroBits(i: nat)
    ensures !Bit(0, i)
  {
    assert 0 / Pow2(i) == 0;
  }

  lemma {:induction false} HighBitsClear(v: nat, n: nat, i: nat)
    requires v < Pow2(n) && n <= i
    ensures !Bit(v, i)
  {
    if i == 0 {
    } else if n == 0 {
      ZeroBits(i);
    } else {
      BitOfHalf(v, i - 1);
      HighBitsClear(v / 2, n - 1, i - 1);
    }
  }

  /** A bit of an or of bytes. */
  lemma OrBits(a: byte, b: byte, i: nat)
    ensures Bit(Or(a, b), i) <==> Bit(a, i) || Bit(b, i)
  {
    BitOrBits(a, b, i);
  }

  /** Numbers with the same bits are equal. */
  lemma {:induction false} SameBits(a: nat, b: nat, n: nat)
    requires a < Pow2(n) && b < Pow2(n)
    requires forall i :: 0 <= i < n ==> (Bit(a, i) <==> Bit(b, i))
    ensures a == b
  {
    if n != 0 {
      assert Bit(a, 0) <==> Bit(b, 0);
      BitOfHalf(a, 0);
      BitOfHalf(b, 0);
      forall i | 0 <= i < n - 1 ensures Bit(a / 2, i) <==> Bit(b / 2, i) {
        BitOfHalf(a, i);
        BitOfHalf(b, i);
        assert Bit(a, i + 1) <==> Bit(b, i + 1);
      }
      SameBits(a / 2, b / 2, n - 1);
    }
  }

  lemma OrZero(a: byte)
    ensures Or(0, a) == a
  {
    ByteRange();
    forall i | 0 <= i < 8 ensures Bit(Or(0, a), i) <==> Bit(a, i) {
      BitOrBits(0, a, i);
      ZeroBits(i);
    }
    SameBits(Or(0, a), a, 8);
  }

  /** A right shift moves bits down. */
  lemma {:induction false} ShiftRightBits(v: nat, k: nat, i: nat)
    ensures Bit(ShiftRight(v, k), i) <==> Bit(v, i + k)
    decreases k
  {
    if k == 0 {
      assert Pow2(0) == 1;
    } else {
      DivTwice(v, 2, Pow2(k - 1));
      ShiftRightBits(v / 2, k - 1, i);
      BitOfHalf(v, i + k - 1);
    }
  }

  /** A left shift moves bits up. */
  lemma {:induction false} ShiftLeftBits(v: nat, k: nat, i: nat)
    ensures Bit(v * Pow2(k), i) <==> k <= i && Bit(v, i - k)
    decreases k
  {
    if k == 0 {
      assert Pow2(0) == 1;
    } else {
      var w := v * Pow2(k - 1);
      assert v * Pow2(k) == 2 * w;
      MulMonotone(0, v, Pow2(k - 1));
      if i == 0 {
        BitOfHalf(2 * w, 0);
      } else {
        BitOfHalf(2 * w, i - 1);
        ShiftLeftBits(v, k - 1, i - 1);
      }
    }
  }

  /** Keeping the lowest n bits. */
  lemma {:induction false} LowBitsKept(v: nat, n: nat, i: nat)
    ensures Bit(v % Pow2(n), i) <==> i < n && Bit(v, i)
    decreases n
  {
    if n == 0 {
      assert v % Pow2(0) == 0;
      ZeroBits(i);
    } else {
      var p := Pow2(n - 1);
      var r := v % Pow2(n);
      HalfOfModulus(v, p);
      assert r % 2 == v % 2 && r / 2 == (v / 2) % p;
      if i == 0 {
        BitOfHalf(r, 0);
        BitOfHalf(v, 0);
      } else {
        BitOfHalf(r, i - 1);
        BitOfHalf(v, i - 1);
        LowBitsKept(v / 2, n - 1, i - 1);
      }
    }
  }

  lemma HalfOfModulus(v: nat, p: nat)
    requires 0 < p
    ensures v % (2 * p) % 2 == v % 2 && v % (2 * p) / 2 == (v / 2) % p
  {
    DivTwice(v, 2, p);
    var q := v / (2 * p);
    assert v == (2 * p) * q + v % (2 * p);
    assert v / 2 == p * q + (v / 2) % p by { assert v / 2 / p == q; }
    assert (2 * p) * q == 2 * (p * q) by { Associate(2, p, q); }
  }

  /** What is set above a number's bits is added to it. */
  lemma {:induction false} BitOrAdds(a: nat, c: nat, k: nat)
    requires a < Pow2(k)
    ensures 0 <= c * Pow2(k) && BitOr(a, c * Pow2(k)) == a + c * Pow2(k)
    decreases k
  {
    MulMonotone(0, c, Pow2(k));
    if k == 0 {
      BitOrNone(c);
    } else {
      MulMonotone(0, c, Pow2(k - 1));
      assert c * Pow2(k) == 2 * (c * Pow2(k - 1));
      BitOrAdds(a / 2, c, k - 1);
    }
  }

  lemma {:induction false} BitOrNone(c: nat)
    ensures BitOr(0, c) == c
  {
    if c != 0 {
      BitOrNone(c / 2);
    }
  }

  /** What is set at bit k or above leaves the bits below k alone. */
  lemma {:induction false} BitOrKeepsLow(a: nat, c: nat, k: nat, j: nat)
    requires j <= k
    ensures 0 <= c * Pow2(k) && BitOr(a, c * Pow2(k)) % Pow2(j) == a % Pow2(j)
    decreases j
  {
    MulMonotone(0, c, Pow2(k));
    if j != 0 {
      var half := c * Pow2(k - 1);
      MulMonotone(0, c, Pow2(k - 1));
      BitOrKeepsLow(a / 2, c, k - 1, j - 1);
      assert c * Pow2(k) == 2 * half;
      OrHalves(a, half);
      hide BitOr, Pow2;
      SameHalves(BitOr(a, 2 * half), a, Pow2(j - 1));
    }
  }

  lemma OrHalves(a: nat, half: nat)
    ensures BitOr(a, 2 * half) / 2 == BitOr(a / 2, half) && BitOr(a, 2 * half) % 2 == a % 2
  {
  }

  lemma SameHalves(r: nat, a: nat, p: nat)
    requires 0 < p && r % 2 == a % 2 && (r / 2) % p == (a / 2) % p
    ensures r % (2 * p) == a % (2 * p)
  {
    HalfOfModulus(r, p);
    HalfOfModulus(a, p);
  }
}
