/** Codes in bytes: numbers as bytes, codes packed into numbers, and the reader that takes codes of
    given widths out of blocks of bytes. */
module CodeStream {
  import opened Ints
  import opened Options
  import opened Bits

  /** A code, the width it is written with, and whether the stream starts anew behind it. */
  datatype Record = Record(code: nat, width: nat, reset: bool)

  // ---------------------------------------------------------------- bytes and numbers

  function BytesValue(bs: seq<byte>): nat {
    if bs == [] then 0 else bs[0] + 256 * BytesValue(bs[1..])
  }

  /** The low n bytes of a number, least significant first. */
  function LowBytes(value: nat, n: nat): (bs: seq<byte>)
    ensures |bs| == n
  {
    if n == 0 then [] else [value % 256] + LowBytes(value / 256, n - 1)
  }

  /** The bytes hold the number up to what n bytes have room for. */
  lemma {:induction false} LowBytesValue(value: nat, n: nat)
    ensures BytesValue(LowBytes(value, n)) == value % Pow2(8 * n)
  {
    if n == 0 {
      assert Pow2(0) == 1;
    } else {
      ByteRange();
      Pow2Sum(8, 8 * (n - 1));
      LowBytesValue(value / 256, n - 1);
      assert LowBytes(value, n)[1..] == LowBytes(value / 256, n - 1);
      hide Pow2;
      LowDigit(value, 256, Pow2(8 * (n - 1)));
    }
  }

  lemma LowDigit(v: nat, p: nat, q: nat)
    requires 0 < p && 0 < q
    ensures 0 < p * q && v % (p * q) == v % p + p * ((v / p) % q)
  {
    DivTwice(v, p, q);
    var t := v / (p * q);
    assert v == p * (v / p) + v % p && v / p == q * t + (v / p) % q && v == (p * q) * t + v % (p * q);
    Distribute(p, q * t, (v / p) % q);
    Associate(p, q, t);
  }

  lemma SmallModulo(v: nat, m: nat)
    requires v < m
    ensures v % m == v
  {
  }

  /** Bytes are determined by their value. */
  lemma {:induction false} BytesOfValue(bs: seq<byte>)
    ensures LowBytes(BytesValue(bs), |bs|) == bs
  {
    if bs != [] {
      ByteSplit(bs[0], BytesValue(bs[1..]));
      BytesOfValue(bs[1..]);
    }
  }

  lemma ByteSplit(a: nat, b: nat)
    ensures (a + 256 * b) % 256 == a % 256 && (a + 256 * b) / 256 == a / 256 + b
  {
  }

  lemma Recompose(c: int, p: int, a: int, m: int, b: int)
    ensures c + p * (a + m * b) == (c + p * a) + (p * m) * b
  {
    assert p * (m * b) == (p * m) * b;
  }

  lemma {:induction false} BytesAppend(bs: seq<byte>, b: byte)
    ensures BytesValue(bs + [b]) == BytesValue(bs) + Pow2(8 * |bs|) * b
  {
    if bs == [] {
      assert (bs + [b])[1..] == [];
      assert Pow2(0) == 1;
    } else {
      assert (bs + [b])[1..] == bs[1..] + [b];
      BytesAppend(bs[1..], b);
      ByteRange();
      Pow2Sum(8, 8 * (|bs| - 1));
      hide Pow2;
      Recompose(bs[0], 256, BytesValue(bs[1..]), Pow2(8 * (|bs| - 1)), b);
    }
  }

  /** Higher bits do not matter. */
  lemma LowBytesCut(value: nat, n: nat)
    ensures LowBytes(value % Pow2(8 * n), n) == LowBytes(value, n)
  {
    LowBytesValue(value, n);
    BytesOfValue(LowBytes(value, n));
  }

  /** `code << bits`. */
  function Shifted(code: nat, bits: nat): nat {
    code * Pow2(bits)
  }

  /** The lowest w bits of a number. */
  function LowBits(value: nat, w: nat): nat {
    value % Pow2(w)
  }

  /** Codes of w bits each as one number, the first code lowest. */
  ghost function PackedValue(rs: seq<Record>, w: nat): nat {
    if rs == [] then 0 else rs[0].code + Pow2(w) * PackedValue(rs[1..], w)
  }

  ghost predicate FitWidth(rs: seq<Record>, w: nat) {
    forall r :: r in rs ==> r.width == w && r.code < Pow2(w)
  }

  lemma Pow2Zero()
    ensures Pow2(0) == 1
  {
  }

  lemma OneMoreCode(n: nat, w: nat)
    ensures (n + 1) * w == n * w + w
  {
  }

  lemma DigitBound(c: nat, p: nat, rest: nat, m: nat)
    requires c < p && rest < m
    ensures c + p * rest < p * m
  {
    MulMonotone(rest + 1, m, p);
    assert (rest + 1) * p == p * rest + p;
  }

  lemma {:induction false} PackedBound(rs: seq<Record>, w: nat)
    requires FitWidth(rs, w)
    ensures PackedValue(rs, w) < Pow2(|rs| * w)
  {
    hide Pow2;
    Pow2Zero();
    if rs != [] {
      PackedBound(rs[1..], w);
      assert rs[0] in rs;
      OneMoreCode(|rs| - 1, w);
      Pow2Sum(w, (|rs| - 1) * w);
      DigitBound(rs[0].code, Pow2(w), PackedValue(rs[1..], w), Pow2((|rs| - 1) * w));
    }
  }

  /** Setting a code above the bits that are in use adds it to the packed codes. */
  lemma {:induction false} PackedAppend(rs: seq<Record>, r: Record, w: nat)
    requires FitWidth(rs, w)
    ensures PackedValue(rs + [r], w) == PackedValue(rs, w) + Shifted(r.code, |rs| * w)
  {
    hide Pow2;
    Pow2Zero();
    if rs == [] {
      assert (rs + [r])[1..] == [];
    } else {
      assert (rs + [r])[1..] == rs[1..] + [r];
      PackedAppend(rs[1..], r, w);
      OneMoreCode(|rs| - 1, w);
      Pow2Sum(w, (|rs| - 1) * w);
      TopDigit(Pow2(w), PackedValue(rs[1..], w), r.code, Pow2((|rs| - 1) * w));
    }
  }

  lemma TopDigit(p: int, rest: int, c: int, m: int)
    ensures p * (rest + c * m) == p * rest + c * (p * m)
  {
    assert p * (c * m) == c * (p * m);
  }

  // ---------------------------------------------------------------- the reader

  /** The bits of a block that are not read yet, as a number, and the bytes behind the block. */
  datatype Unread = Unread(value: nat, bits: nat, rest: seq<byte>)

  /** What there is to read after fetching a block of `width` bytes if need be. */
  function Fetched(width: nat, discard: bool, u: Unread): Unread {
    if discard || u.bits < width then
      var n := Min(width, |u.rest|);
      Unread(BytesValue(u.rest[..n]), 8 * n, u.rest[n..])
    else u
  }

  datatype Taken = Taken(code: nat, left: Unread)

  /** The next code of the given width: none if even a fresh block is too short for it. */
  function NextCode(u: Unread, width: nat, discard: bool): (t: Option<Taken>)
    ensures t.Some? && 0 < width ==>
      8 * |t.value.left.rest| + t.value.left.bits < 8 * |u.rest| + u.bits
  {
    var now := Fetched(width, discard, u);
    if now.bits < width then None
    else Some(Taken(LowBits(now.value, width), Unread(ShiftRight(now.value, width), now.bits - width, now.rest)))
  }

  /** Where a reader of codes of given widths is: it discards the rest of the block when the width
      changes and when the stream has started anew. */
  datatype Place = Place(u: Unread, width: nat, stale: bool)

  function Begin(bytes: seq<byte>): Place {
    Place(Unread(0, 0, bytes), 9, true)
  }

  function Take(p: Place, width: nat): Option<Taken> {
    NextCode(p.u, width, p.stale || width != p.width)
  }

  /** How a code is written. */
  datatype Slot = Slot(width: nat, reset: bool)

  datatype Unpacked = Unpacked(codes: seq<nat>, place: Place)

  /** Reads one code after the other, with the given widths. */
  function Unpack(p: Place, shape: seq<Slot>): Option<Unpacked>
    decreases |shape|
  {
    if shape == [] then Some(Unpacked([], p))
    else
      var t := Take(p, shape[0].width);
      if t.None? then None
      else
        var rest := Unpack(Place(t.value.left, shape[0].width, shape[0].reset), shape[1..]);
        if rest.None? then None else Some(Unpacked([t.value.code] + rest.value.codes, rest.value.place))
  }

  function Shape(rs: seq<Record>): (shape: seq<Slot>)
    ensures |shape| == |rs| && forall i :: 0 <= i < |rs| ==> shape[i] == Slot(rs[i].width, rs[i].reset)
  {
    seq(|rs|, i requires 0 <= i < |rs| => Slot(rs[i].width, rs[i].reset))
  }

  function Codes(rs: seq<Record>): (codes: seq<nat>)
    ensures |codes| == |rs| && forall i :: 0 <= i < |rs| ==> codes[i] == rs[i].code
  {
    seq(|rs|, i requires 0 <= i < |rs| => rs[i].code)
  }

  /** Reading with the widths of the records, from p, gives their codes and ends at q. */
  ghost predicate Reads(p: Place, rs: seq<Record>, q: Place)
    decreases |rs|
  {
    if rs == [] then p == q
    else
      var t := Take(p, rs[0].width);
      t.Some? && t.value.code == rs[0].code && Reads(Place(t.value.left, rs[0].width, rs[0].reset), rs[1..], q)
  }

  lemma {:induction false} ReadsIsUnpack(p: Place, rs: seq<Record>, q: Place)
    ensures Reads(p, rs, q) <==> Unpack(p, Shape(rs)) == Some(Unpacked(Codes(rs), q))
    decreases |rs|
  {
    hide Take;
    if rs != [] {
      assert Shape(rs)[1..] == Shape(rs[1..]) && Codes(rs) == [rs[0].code] + Codes(rs[1..]);
      var t := Take(p, rs[0].width);
      if t.Some? {
        ReadsIsUnpack(Place(t.value.left, rs[0].width, rs[0].reset), rs[1..], q);
        CodesDiffer(rs[0].code, Codes(rs[1..]));
      }
    } else {
      assert Shape(rs) == [] && Codes(rs) == [];
    }
  }

  lemma CodesDiffer(c: nat, cs: seq<nat>)
    ensures forall d: nat, ds: seq<nat> :: [d] + ds == [c] + cs ==> d == c && ds == cs
  {
    forall d: nat, ds: seq<nat> | [d] + ds == [c] + cs
      ensures d == c && ds == cs
    {
      assert ([d] + ds)[0] == d && ([d] + ds)[1..] == ds;
    }
  }

  lemma {:induction false} ReadsConcat(p: Place, a: seq<Record>, m: Place, b: seq<Record>, q: Place)
    requires Reads(p, a, m) && Reads(m, b, q)
    ensures Reads(p, a + b, q)
    decreases |a|
  {
    hide Take;
    if a == [] {
      assert a + b == b;
    } else {
      assert (a + b)[1..] == a[1..] + b;
      var t := Take(p, a[0].width);
      ReadsConcat(Place(t.value.left, a[0].width, a[0].reset), a[1..], m, b, q);
    }
  }

  lemma {:induction false} ReadsSplit(p: Place, a: seq<Record>, b: seq<Record>, q: Place) returns (m: Place)
    requires Reads(p, a + b, q)
    ensures Reads(p, a, m) && Reads(m, b, q)
    decreases |a|
  {
    hide Take;
    if a == [] {
      assert a + b == b;
      m := p;
    } else {
      assert (a + b)[0] == a[0] && (a + b)[1..] == a[1..] + b;
      var t := Take(p, a[0].width);
      m := ReadsSplit(Place(t.value.left, a[0].width, a[0].reset), a[1..], b, q);
    }
  }

  /** No code of eight bits or more is left. */
  ghost predicate NoMore(p: Place) {
    forall w: nat {:trigger Take(p, w)} :: 8 <= w ==> Take(p, w) == None
  }

  lemma LowCode(code: nat, w: nat, rest: nat)
    requires code < Pow2(w)
    ensures LowBits(code + Pow2(w) * rest, w) == code && ShiftRight(code + Pow2(w) * rest, w) == rest
  {
    DivUnique(code + Pow2(w) * rest, Pow2(w), rest, code);
  }

  /** Reading a fetched block is reading what was fetched. */
  lemma FetchedReads(p: Place, now: Unread, rs: seq<Record>, q: Place)
    requires rs != [] && 0 < rs[0].width <= now.bits
    requires Fetched(rs[0].width, p.stale || rs[0].width != p.width, p.u) == now
    requires Reads(Place(now, rs[0].width, false), rs, q)
    ensures Reads(p, rs, q)
  {
    hide LowBits, ShiftRight;
  }

  lemma TakesLowest(code: nat, w: nat, above: nat, bits: nat, rest: seq<byte>)
    requires code < Pow2(w) && w <= bits
    ensures 0 <= Pow2(w) * above
    ensures Take(Place(Unread(code + Pow2(w) * above, bits, rest), w, false), w)
         == Some(Taken(code, Unread(above, bits - w, rest)))
  {
    MulMonotone(0, above, Pow2(w));
    LowCode(code, w, above);
    hide LowBits, ShiftRight, Pow2;
  }

  /** Codes of one width in the low bits of a block are read without fetching, whatever is above. */
  lemma {:induction false} ReadsInBlock(rs: seq<Record>, w: nat, junk: nat, bits: nat, rest: seq<byte>)
    requires 0 < w && FitWidth(rs, w) && |rs| * w <= bits
    requires forall i :: 0 <= i < |rs| - 1 ==> !rs[i].reset
    ensures 0 <= |rs| * w && 0 <= Pow2(|rs| * w) * junk
    ensures Reads(Place(Unread(PackedValue(rs, w) + Pow2(|rs| * w) * junk, bits, rest), w, false), rs,
                  Place(Unread(junk, bits - |rs| * w, rest), w, rs != [] && rs[|rs| - 1].reset))
    decreases |rs|
  {
    hide Pow2, Take;
    MulMonotone(0, |rs|, w);
    MulMonotone(0, junk, Pow2(|rs| * w));
    if rs == [] {
      Pow2Zero();
    } else {
      assert rs[0] in rs;
      OneMoreCode(|rs| - 1, w);
      MulMonotone(0, |rs| - 1, w);
      var more := rs[1..];
      var above := Pow2(|more| * w) * junk;
      MulMonotone(0, junk, Pow2(|more| * w));
      Pow2Sum(w, |more| * w);
      Associate(Pow2(w), Pow2(|more| * w), junk);
      Distribute(Pow2(w), PackedValue(more, w), above);
      TakesLowest(rs[0].code, w, PackedValue(more, w) + above, bits, rest);
      assert forall i :: 0 <= i < |more| ==> more[i] == rs[i + 1];
      ReadsInBlock(more, w, junk, bits - w, rest);
    }
  }

  /** What is left of a block of n bytes above its lowest `used` bits. */
  function Remains(value: nat, n: nat, used: nat): nat {
    ShiftRight(value % Pow2(8 * n), used)
  }

  /** The codes in the low bits of a block of n bytes, in front of anything that a full block leaves. */
  lemma BlockReads(p: Place, rs: seq<Record>, w: nat, value: nat, n: nat, rest: seq<byte>)
    requires 0 < w && FitWidth(rs, w) && rs != [] && 0 <= |rs| * w <= 8 * n && n <= w && (n == w || rest == [])
    requires value % Pow2(|rs| * w) == PackedValue(rs, w)
    requires forall i :: 0 <= i < |rs| - 1 ==> !rs[i].reset
    requires p.u.rest == LowBytes(value, n) + rest && (p.stale || w != p.width || p.u.bits < w)
    ensures Reads(p, rs, Place(Unread(Remains(value, n, |rs| * w), 8 * n - |rs| * w, rest), w, rs[|rs| - 1].reset))
  {
    hide Pow2, PackedValue, LowBytes, BytesValue, Reads, NextCode;
    assert rs[0] in rs;
    LowBytesValue(value, n);
    MulMonotone(1, |rs|, w);
    var used, junk := |rs| * w, Remains(value, n, |rs| * w);
    LowOfLow(value, used, 8 * n);
    var block := LowBytes(value, n);
    assert p.u.rest[..n] == block && p.u.rest[n..] == rest && Min(w, |p.u.rest|) == n;
    ReadsInBlock(rs, w, junk, 8 * n, rest);
    FetchedReads(p, Unread(BytesValue(block), 8 * n, rest), rs,
                 Place(Unread(junk, 8 * n - used, rest), w, rs[|rs| - 1].reset));
  }

  lemma LowOfLow(value: nat, j: nat, k: nat)
    requires j <= k
    ensures value % Pow2(k) == value % Pow2(j) + Pow2(j) * ShiftRight(value % Pow2(k), j)
  {
    Pow2Sum(j, k - j);
    LowDigit(value, Pow2(j), Pow2(k - j));
    hide Pow2;
    var q := (value / Pow2(j)) % Pow2(k - j);
    DivUnique(value % Pow2(k), Pow2(j), q, value % Pow2(j));
  }
}
