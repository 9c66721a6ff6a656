/** The packers that write codes of one width as a plain stream of bits, without blocks. */
module LiteralPacking {
  import opened Ints
  import opened Options
  import opened Bits
  import opened CodeStream
  import opened BlockPacking
  import opened Lzw
  import opened LzwClear
  import opened LzwLockstep

  // ---------------------------------------------------------------- the stream

  /** The bytes that hold these codes, w bits each, the first code lowest. */
  ghost function Stream(rs: seq<Record>, w: nat): (bs: seq<byte>)
    ensures 0 <= |rs| * w && |bs| == (|rs| * w + 7) / 8
  {
    MulMonotone(0, |rs|, w);
    LowBytes(PackedValue(rs, w), (|rs| * w + 7) / 8)
  }

  lemma {:induction false} ByteAt(value: nat, n: nat, j: nat)
    requires j < n
    ensures LowBytes(value, n)[j] == value / Pow2(8 * j) % 256
  {
    if j == 0 {
      Pow2Zero();
    } else {
      ByteRange();
      Pow2Sum(8, 8 * (j - 1));
      ByteAt(value / 256, n - 1, j - 1);
      hide Pow2;
      DivTwice(value, 256, Pow2(8 * (j - 1)));
    }
  }

  /** The low bits of a number are those of its remainder. */
  lemma {:induction false} BitLow(x: nat, m: nat, c: nat)
    requires c < m
    ensures Bit(x % Pow2(m), c) <==> Bit(x, c)
  {
    var p := Pow2(m - 1);
    assert Pow2(m) == 2 * p;
    LowDigit(x, 2, p);
    if c == 0 {
      BitOfHalf(x, 0);
      BitOfHalf(x % Pow2(m), 0);
    } else {
      BitOfHalf(x, c - 1);
      BitOfHalf(x % Pow2(m), c - 1);
      BitLow(x / 2, m - 1, c - 1);
      assert x % Pow2(m) / 2 == x / 2 % p;
    }
  }

  lemma BitAbove(v: nat, a: nat, c: nat)
    ensures Bit(ShiftRight(v, a), c) <==> Bit(v, a + c)
  {
    Pow2Sum(a, c);
    DivTwice(v, Pow2(a), Pow2(c));
  }

  /** Bit b of code k lies k w + b bits into the number. */
  lemma {:induction false} PackedBit(rs: seq<Record>, w: nat, k: nat, b: nat)
    requires FitWidth(rs, w) && k < |rs| && b < w
    ensures 0 <= k * w && (Bit(PackedValue(rs, w), k * w + b) <==> Bit(rs[k].code, b))
    decreases k
  {
    hide Pow2, Bit;
    var c, p, rest := rs[0].code, Pow2(w), PackedValue(rs[1..], w);
    assert rs[0] in rs;
    assert c + p * rest == p * rest + c;
    DivUnique(c + p * rest, p, rest, c);
    assert (c + p * rest) % p == c && ShiftRight(c + p * rest, w) == rest;
    MulMonotone(0, k, w);
    if k == 0 {
      BitLow(c + p * rest, w, b);
    } else {
      OneMoreCode(k - 1, w);
      MulMonotone(0, k - 1, w);
      PackedBit(rs[1..], w, k - 1, b);
      BitAbove(c + p * rest, w, (k - 1) * w + b);
    }
  }

  /** The stream is a plain stream of bits, lowest first: bit b of code k is bit i % 8 of byte i / 8 for
      i = k w + b. */
  lemma CodeBits(rs: seq<Record>, w: nat, k: nat, b: nat)
    requires FitWidth(rs, w) && k < |rs| && b < w
    ensures var i := k * w + b;
            && 0 <= i / 8 < |Stream(rs, w)| && 0 <= i % 8
            && (Bit(Stream(rs, w)[i / 8], i % 8) <==> Bit(rs[k].code, b))
  {
    hide Pow2, Bit, PackedValue, LowBytes;
    MulMonotone(0, k, w);
    MulMonotone(k + 1, |rs|, w);
    OneMoreCode(k, w);
    var i := k * w + b;
    var v, n, j, c: nat := PackedValue(rs, w), |Stream(rs, w)|, i / 8, i % 8;
    ByteAt(v, n, j);
    ByteRange();
    BitLow(ShiftRight(v, 8 * j), 8, c);
    BitAbove(v, 8 * j, c);
    PackedBit(rs, w, k, b);
  }

  predicate Allowed(codes: seq<int>, w: nat) {
    forall i :: 0 <= i < |codes| ==> 0 <= codes[i] < Pow2(w)
  }

  ghost function Records(codes: seq<int>, w: nat): (rs: seq<Record>)
    requires Allowed(codes, w)
    ensures |rs| == |codes| && forall i :: 0 <= i < |codes| ==> rs[i] == Record(codes[i], w, false)
  {
    seq(|codes|, i requires 0 <= i < |codes| => Record(codes[i], w, false))
  }

  lemma AllowedFits(codes: seq<int>, w: nat)
    requires Allowed(codes, w)
    ensures FitWidth(Records(codes, w), w)
  {
  }

  /** The accumulator: the codes so far are the bytes written, and above them the pending bits. */
  ghost predicate Accumulated(rs: seq<Record>, w: nat, body: seq<byte>, acc: nat, bits: nat) {
    && PackedValue(rs, w) == BytesValue(body) + Pow2(8 * |body|) * acc
    && |rs| * w == 8 * |body| + bits && acc < Pow2(bits)
  }

  lemma AccumulatedCode(rs: seq<Record>, w: nat, body: seq<byte>, acc: nat, bits: nat, code: nat)
    requires FitWidth(rs, w) && Accumulated(rs, w, body, acc, bits) && code < Pow2(w)
    ensures Accumulated(rs + [Record(code, w, false)], w, body, BitOr(acc, Shifted(code, bits)), bits + w)
  {
    hide Pow2, BytesValue, PackedValue, BitOr;
    BitOrAdds(acc, code, bits);
    PackedAppend(rs, Record(code, w, false), w);
    OneMoreCode(|rs|, w);
    Pow2Sum(8 * |body|, bits);
    Pow2Sum(bits, w);
    TopDigit(Pow2(8 * |body|), acc, code, Pow2(bits));
    DigitBound(acc, Pow2(bits), code, Pow2(w));
    assert Pow2(bits) * code == code * Pow2(bits);
  }

  lemma AccumulatedByte(rs: seq<Record>, w: nat, body: seq<byte>, acc: nat, bits: nat)
    requires Accumulated(rs, w, body, acc, bits) && 8 <= bits
    ensures Accumulated(rs, w, body + [acc % 256], acc / 256, bits - 8)
  {
    hide BytesValue, PackedValue;
    BytesAppend(body, acc % 256);
    ByteRange();
    Pow2Sum(8, bits - 8);
    Pow2Sum(8 * |body|, 8);
    hide Pow2;
    SplitByte(Pow2(8 * |body|), acc);
    assert |body + [acc % 256]| == |body| + 1;
  }

  lemma SplitByte(p: nat, acc: nat)
    ensures p * acc == p * (acc % 256) + p * 256 * (acc / 256)
  {
    assert acc == acc % 256 + 256 * (acc / 256);
    assert p * (256 * (acc / 256)) == p * 256 * (acc / 256);
    assert p * (acc % 256 + 256 * (acc / 256)) == p * (acc % 256) + p * (256 * (acc / 256));
  }

  lemma AccumulatedAll(rs: seq<Record>, w: nat, body: seq<byte>, acc: nat, bits: nat)
    requires Accumulated(rs, w, body, acc, bits) && bits < 8
    ensures if bits == 0 then body == Stream(rs, w) else body + [acc % 256] == Stream(rs, w)
  {
    hide PackedValue, BytesValue, LowBytes, Pow2;
    if bits == 0 {
      Pow2Zero();
      assert acc == 0;
      StreamOfBytes(rs, w, body);
    } else {
      ByteRange();
      Pow2Grows(bits, 8);
      BytesAppend(body, acc);
      StreamOfBytes(rs, w, body + [acc]);
    }
  }

  lemma StreamOfBytes(rs: seq<Record>, w: nat, bs: seq<byte>)
    requires PackedValue(rs, w) == BytesValue(bs) && 8 * |bs| - 8 < |rs| * w <= 8 * |bs|
    ensures Stream(rs, w) == bs
  {
    hide PackedValue, BytesValue, LowBytes;
    BytesOfValue(bs);
  }

  /** The loop of both packers: a bit accumulator that is emptied byte by byte. */
  method PackStream(header: seq<byte>, codes: seq<int>, w: nat) returns (output: seq<byte>)
    requires Allowed(codes, w)
    ensures output == header + Stream(Records(codes, w), w)
  {
    hide Pow2, Accumulated, Stream, PackedValue, Shifted, BitOr, FitWidth;
    output := header;
    var accumulator: nat := 0;
    var bits: nat := 0;
    ghost var body: seq<byte> := [];
    ghost var rs: seq<Record> := [];
    NothingAccumulated(w);
    for i := 0 to |codes|
      invariant output == header + body && Allowed(codes[..i], w) && rs == Records(codes[..i], w)
      invariant Accumulated(rs, w, body, accumulator, bits) && bits < 8 && FitWidth(rs, w)
    {
      CodeAllowed(codes, w, i);
      AccumulatedCode(rs, w, body, accumulator, bits, codes[i]);
      accumulator := BitOr(accumulator, Shifted(codes[i], bits));
      bits := bits + w;
      rs := rs + [Record(codes[i], w, false)];
      assert rs == Records(codes[..i + 1], w);
      while bits >= 8
        invariant output == header + body
        invariant Accumulated(rs, w, body, accumulator, bits)
      {
        AccumulatedByte(rs, w, body, accumulator, bits);
        output := output + [accumulator % 256];
        body := body + [accumulator % 256];
        accumulator := accumulator / 256;
        bits := bits - 8;
      }
    }
    assert codes[..|codes|] == codes;
    AllowedFits(codes, w);
    AccumulatedAll(rs, w, body, accumulator, bits);
    if bits != 0 {
      output := output + [accumulator % 256];
    }
  }

  lemma NothingAccumulated(w: nat)
    ensures Accumulated([], w, [], 0, 0) && FitWidth([], w)
  {
  }

  lemma CodeAllowed(codes: seq<int>, w: nat, i: nat)
    requires Allowed(codes, w) && i < |codes|
    ensures 0 <= codes[i] < Pow2(w) && Allowed(codes[..i + 1], w)
    ensures FitWidth(Records(codes[..i + 1], w), w)
  {
  }

  // ---------------------------------------------------------------- reading a stream in blocks

  lemma {:induction false} LowBytesSplit(a: nat, b: nat, m: nat, k: nat)
    requires a < Pow2(8 * m)
    ensures 0 <= Pow2(8 * m) * b && LowBytes(a + Pow2(8 * m) * b, m + k) == LowBytes(a, m) + LowBytes(b, k)
    decreases m
  {
    MulMonotone(0, b, Pow2(8 * m));
    if m == 0 {
      assert Pow2(0) == 1;
    } else {
      ByteRange();
      Pow2Sum(8, 8 * (m - 1));
      hide Pow2;
      var p := Pow2(8 * (m - 1));
      MulMonotone(0, b, p);
      Associate256(p, b);
      ByteSplit(a, p * b);
      LowBytesSplit(a / 256, b, m - 1, k);
    }
  }

  lemma Associate256(p: int, b: int)
    ensures (256 * p) * b == 256 * (p * b)
  {
  }

  lemma PackedUnfold(rs: seq<Record>, w: nat)
    requires rs != []
    ensures PackedValue(rs, w) == rs[0].code + Pow2(w) * PackedValue(rs[1..], w)
  {
  }

  lemma {:induction false} PackedSplit(a: seq<Record>, b: seq<Record>, w: nat)
    requires FitWidth(a, w)
    ensures 0 <= |a| * w
    ensures PackedValue(a + b, w) == PackedValue(a, w) + Pow2(|a| * w) * PackedValue(b, w)
  {
    MulMonotone(0, |a|, w);
    if a == [] {
      assert a + b == b;
      assert Pow2(0) == 1;
    } else {
      assert a[0] in a && (a + b)[1..] == a[1..] + b;
      PackedSplit(a[1..], b, w);
      OneMoreCode(|a| - 1, w);
      Pow2Sum(w, (|a| - 1) * w);
      PackedUnfold(a, w);
      PackedUnfold(a + b, w);
      hide PackedValue, Pow2;
      Recompose(a[0].code, Pow2(w), PackedValue(a[1..], w), Pow2((|a| - 1) * w), PackedValue(b, w));
    }
  }

  /** Eight codes fill exactly w bytes of the stream. */
  lemma EightCodesFirst(a: seq<Record>, b: seq<Record>, w: nat)
    requires FitWidth(a, w) && |a| == 8
    ensures Stream(a + b, w) == LowBytes(PackedValue(a, w), w) + Stream(b, w)
  {
    hide Pow2, PackedValue, LowBytes;
    PackedSplit(a, b, w);
    PackedBound(a, w);
    MulMonotone(0, |b|, w);
    assert |a + b| * w == 8 * w + |b| * w;
    assert (8 * w + |b| * w + 7) / 8 == w + (|b| * w + 7) / 8;
    LowBytesSplit(PackedValue(a, w), PackedValue(b, w), w, (|b| * w + 7) / 8);
  }

  /** Codes up to a block boundary are read from the stream, whatever follows them. */
  lemma {:induction false} BlocksRead(p: Place, a: seq<Record>, b: seq<Record>, w: nat) returns (q: Place)
    requires 0 < w && FitWidth(a, w) && |a| % 8 == 0 && (forall r :: r in a ==> !r.reset)
    requires p.u.rest == Stream(a + b, w) && Fetches(p, w)
    ensures Reads(p, a, q) && q.u.rest == Stream(b, w) && Fetches(q, w)
    ensures a != [] ==> q.u.bits == 0 && !q.stale && q.width == w
    decreases |a|
  {
    hide Pow2, PackedValue, LowBytes, Reads, Stream, Remains;
    if a == [] {
      assert a + b == b;
      q := p;
      NoneRead(p);
    } else {
      var first, more := a[..8], a[8..];
      assert a == first + more && a + b == first + (more + b);
      assert forall r :: r in more ==> r in a;
      EightCodesFirst(first, more + b, w);
      PackedBound(first, w);
      SmallModulo(PackedValue(first, w), Pow2(8 * w));
      BlockReads(p, first, w, PackedValue(first, w), w, Stream(more + b, w));
      var m := Place(Unread(Remains(PackedValue(first, w), w, 8 * w), 0, Stream(more + b, w)), w, false);
      q := BlocksRead(m, more, b, w);
      ReadsConcat(p, first, m, more, q);
      if more == [] {
        NothingRead(m, q);
      }
    }
  }

  lemma NoneRead(p: Place)
    ensures Reads(p, [], p)
  {
  }

  lemma NothingRead(p: Place, q: Place)
    requires Reads(p, [], q)
    ensures p == q
  {
  }

  /** A stream of codes of one width is read back as exactly its codes. */
  lemma StreamReads(rs: seq<Record>, w: nat) returns (q: Place)
    requires 8 <= w && FitWidth(rs, w) && forall r :: r in rs ==> !r.reset
    ensures Reads(Begin(Stream(rs, w)), rs, q) && NoMore(q)
  {
    hide Pow2, PackedValue, LowBytes, Reads, Stream, Remains, NoMore;
    var k := 8 * (|rs| / 8);
    var a, b := rs[..k], rs[k..];
    assert rs == a + b;
    var p := Begin(Stream(rs, w));
    var m := BlocksRead(p, a, b, w);
    if b == [] {
      q := m;
      EmptyStream(w);
      assert a == rs;
      if a == [] {
        NothingRead(p, m);
      }
    } else {
      q := LastBlock(m, b, w);
      ReadsConcat(p, a, m, b, q);
    }
    NothingLeft(q);
  }

  lemma EmptyStream(w: nat)
    ensures Stream([], w) == []
  {
  }

  /** The last, incomplete block. */
  lemma LastBlock(p: Place, rs: seq<Record>, w: nat) returns (q: Place)
    requires 8 <= w && FitWidth(rs, w) && 0 < |rs| < 8 && (forall r :: r in rs ==> !r.reset)
    requires p.u.rest == Stream(rs, w) && Fetches(p, w)
    ensures Reads(p, rs, q) && q.u.rest == [] && q.u.bits < 8
  {
    hide Pow2, PackedValue, LowBytes, Reads, Remains;
    var value, bits := PackedValue(rs, w), |rs| * w;
    var n := (bits + 7) / 8;
    SevenBlock(|rs|, w);
    MulMonotone(0, |rs|, w);
    PackedBound(rs, w);
    SmallModulo(value, Pow2(bits));
    assert LowBytes(value, n) + [] == LowBytes(value, n);
    BlockReads(p, rs, w, value, n, []);
    q := Place(Unread(Remains(value, n, bits), 8 * n - bits, []), w, rs[|rs| - 1].reset);
  }

  // ---------------------------------------------------------------- the two packers

  /** `unix_compress_codes`: refuses a code that does not fit, and pads with zeros. */
  method UnixCompressCodes(codes: seq<int>, header: byte, w: nat, minimumDataBytes: nat)
    returns (result: Option<seq<byte>>)
    ensures result.Some? <==> Allowed(codes, w)
    ensures result.Some? ==>
      var bits := Stream(Records(codes, w), w);
      result.value == [0x1F, 0x9D, header] + bits + seq(Max(0, minimumDataBytes - |bits|), _ => 0)
  {
    for i := 0 to |codes|
      invariant Allowed(codes[..i], w)
    {
      if !(0 <= codes[i] < Pow2(w)) {
        return None;
      }
      assert codes[..i + 1] == codes[..i] + [codes[i]];
    }
    assert codes[..|codes|] == codes;
    var output := PackStream([0x1F, 0x9D, header], codes, w);
    ghost var bits := Stream(Records(codes, w), w);
    var padding := 0;
    while |output| < 3 + minimumDataBytes
      invariant padding <= Max(0, minimumDataBytes - |bits|)
      invariant output == [0x1F, 0x9D, header] + bits + seq(padding, _ => 0)
    {
      output := output + [0];
      padding := padding + 1;
    }
    return Some(output);
  }

  const HEADER: byte := 0x90

  ghost function Literals(data: seq<byte>, w: nat): (rs: seq<Record>)
    ensures |rs| == |data| && forall i :: 0 <= i < |data| ==> rs[i] == Record(data[i], w, false)
  {
    seq(|data|, i requires 0 <= i < |data| => Record(data[i], w, false))
  }

  ghost function LiteralFile(data: seq<byte>): seq<byte> {
    [0x1F, 0x9D, HEADER] + Stream(Literals(data, 9), 9)
  }

  /** `literal_unix_compress`. */
  method LiteralUnixCompress(data: seq<byte>) returns (file: seq<byte>)
    ensures file == LiteralFile(data)
  {
    BytesAllowed(data);
    assert Records(data, 9) == Literals(data, 9);
    file := PackStream([0x1F, 0x9D, HEADER], data, 9);
  }

  lemma BytesAllowed(data: seq<byte>)
    ensures Allowed(data, 9)
  {
    LargePowers();
  }

  lemma LiteralsFit(data: seq<byte>)
    ensures FitWidth(Literals(data, 9), 9)
  {
    LargePowers();
  }

  // ---------------------------------------------------------------- up to 257 literals

  const HEADER_PARAMS := Params(16, true)

  /** Up to 256 literal codes drive the decoder to the data; at the 256th it widens. */
  lemma {:induction false} LiteralsDrive(data: seq<byte>) returns (r: Reader)
    requires |data| <= 256
    ensures Drives(Literals(data, 9), Opening(true), HEADER_PARAMS, r)
    ensures r.d.out == data && |r.d.table| == Max(1, |data|) && (r.d.prev == [] <==> data == [])
    ensures r.width == if |data| < 256 then 9 else 10
  {
    if data == [] {
      r := Opening(true);
    } else {
      var n := |data| - 1;
      var before := LiteralsDrive(data[..n]);
      hide Drives, StepReader;
      var code := Record(data[n], 9, false);
      assert Literals(data, 9) == Literals(data[..n], 9) + [code];
      assert data == data[..n] + [data[n]];
      r := LiteralStep(before, data[n]);
      DrivesAppend(Literals(data[..n], 9), code, Opening(true), HEADER_PARAMS, before, r);
    }
  }

  /** A literal code adds its byte, and after the first one an entry to the table. */
  lemma LiteralStep(r: Reader, b: byte) returns (r': Reader)
    requires |r.d.table| <= 300 && r.width == (if |r.d.table| < 256 then 9 else 10)
    ensures StepReader(r, b, HEADER_PARAMS) == Some(r') && r'.stale == (r'.width != r.width)
    ensures r'.d.out == r.d.out + [b] && r'.d.prev == [b]
    ensures |r'.d.table| == |r.d.table| + (if r.d.prev == [] then 0 else 1)
    ensures r'.width == if |r'.d.table| < 256 then 9 else 10
  {
    LargePowers();
    UpcomingCount(r.d, b, 16);
    hide Pow2, Upcoming;
    r' := StepReader(r, b, HEADER_PARAMS).value;
  }

  lemma LiteralBody(data: seq<byte>)
    ensures Decompress(LiteralFile(data)) == Decode(Begin(Stream(Literals(data, 9), 9)).u, Opening(true), HEADER_PARAMS)
  {
    hide Decode;
    assert LiteralFile(data)[3..] == Stream(Literals(data, 9), 9);
  }

  lemma ShortLiterals(data: seq<byte>)
    requires |data| <= 256
    ensures Decompress(LiteralFile(data)) == data
  {
    hide Reads, Stream, Drives, FitWidth, Decode, Decompress, LiteralFile, NoMore;
    LiteralBody(data);
    var r := LiteralsDrive(data);
    LiteralsFit(data);
    var begin := Begin(Stream(Literals(data, 9), 9));
    var q := StreamReads(Literals(data, 9), 9);
    DrivesDecodes(begin, Literals(data, 9), q, Opening(true), HEADER_PARAMS, r);
    DecodeEnds(q, r, HEADER_PARAMS);
  }

  /** After 256 literal codes the decoder reads ten bits at a time, from a new block. */
  lemma After256(data: seq<byte>) returns (r: Reader, q: Place)
    requires 256 <= |data|
    ensures r.width == 10 && r.d.out == data[..256] && |r.d.table| == 256 && r.d.prev != []
    ensures At(r, q) && q.u.rest == Stream(Literals(data[256..], 9), 9) && q.u.bits == 0 && q.width == 9
    ensures Decompress(LiteralFile(data)) == Decode(q.u, r, HEADER_PARAMS)
  {
    hide Reads, Stream, Drives, FitWidth, Decode, Decompress, LiteralFile;
    LiteralBody(data);
    r := LiteralsDrive(data[..256]);
    LiteralsFit(data[..256]);
    var a, b := Literals(data[..256], 9), Literals(data[256..], 9);
    assert Literals(data, 9) == a + b;
    var begin := Begin(Stream(Literals(data, 9), 9));
    q := BlocksRead(begin, a, b, 9);
    DrivesDecodes(begin, a, q, Opening(true), HEADER_PARAMS, r);
  }

  /** A last single code reads the same with ten bits as with nine. */
  lemma OneMoreLiteral(data: seq<byte>)
    requires |data| == 257
    ensures Decompress(LiteralFile(data)) == data
  {
    hide Decompress, LiteralFile, Decode, Stream, StepReader, LowBytes;
    var r, q := After256(data);
    assert data == data[..256] + [data[256]] && data[256..] == [data[256]];
    SingleStream(data[256]);
    var bytes := LowBytes(data[256], 2);
    assert bytes[..2] == bytes && bytes[2..] == [];
    var r' := LiteralStep(r, data[256]);
    WideLast(q.u, r, data[256], HEADER_PARAMS, r');
  }

  lemma SingleStream(code: byte)
    ensures Stream(Literals([code], 9), 9) == LowBytes(code, 2)
  {
    assert Literals([code], 9)[1..] == [];
    EmptyBlock(9);
    hide Pow2, LowBytes;
  }

  // ---------------------------------------------------------------- too many literals

  /** Zeros with a single 2 as the 258th byte. */
  function Awkward(n: nat): (data: seq<byte>)
    ensures |data| == n
  {
    seq(n, i => if i == 257 then 2 else 0)
  }

  lemma {:induction false} ZeroCodes(n: nat)
    ensures PackedValue(Literals(seq(n, _ => 0), 9), 9) == 0
  {
    if n != 0 {
      ZeroCodes(n - 1);
      var rs := Literals(seq(n, _ => 0), 9);
      assert rs[1..] == Literals(seq(n - 1, _ => 0), 9);
    }
  }

  lemma AwkwardValue(n: nat)
    requires 258 <= n
    ensures PackedValue(Literals(Awkward(n)[256..], 9), 9) == 1024
  {
    LargePowers();
    hide Pow2;
    ZeroCodes(n - 258);
    var rs := Literals(Awkward(n)[256..], 9);
    assert rs[1..][1..] == Literals(seq(n - 258, _ => 0), 9);
    assert PackedValue(rs[1..], 9) == 2;
  }

  /** The first two codes in the number 1024, ten bits each, are 0 and 1. */
  lemma AwkwardReads(p: Place, m: nat, rest: seq<byte>) returns (q: Place)
    requires 3 <= m && Fetched(10, p.stale || 10 != p.width, p.u) == Unread(1024, 8 * m, rest)
    ensures Reads(p, [Record(0, 10, false), Record(1, 10, false)], q)
  {
    hide Reads, Fetched;
    var rs := [Record(0, 10, false), Record(1, 10, false)];
    LargePowers();
    assert rs[1..] == [Record(1, 10, false)] && rs[1..][1..] == [];
    assert PackedValue(rs[1..], 10) == 1;
    assert PackedValue(rs, 10) == 1024;
    hide Pow2, PackedValue;
    ReadsInBlock(rs, 10, 0, 8 * m, rest);
    q := Place(Unread(0, 8 * m - 20, rest), 10, false);
    FetchedReads(p, Unread(1024, 8 * m, rest), rs, q);
  }

  lemma AwkwardDrives(r: Reader) returns (r': Reader)
    requires r.width == 10 && |r.d.table| == 256 && r.d.prev != []
    ensures Drives([Record(0, 10, false), Record(1, 10, false)], r, HEADER_PARAMS, r')
    ensures r'.d.out == r.d.out + [0, 1]
  {
    var m := LiteralStep(r, 0);
    r' := LiteralStep(m, 1);
    hide StepReader;
    var rs := [Record(0, 10, false), Record(1, 10, false)];
    assert rs[1..] == [Record(1, 10, false)] && rs[1..][1..] == [];
    assert r.d.out + [0, 1] == r.d.out + [0] + [1];
  }

  lemma AwkwardFails(n: nat)
    requires 258 <= n
    ensures Decompress(LiteralFile(Awkward(n))) != Awkward(n)
  {
    hide Decompress, LiteralFile, Decode, Pow2, LowBytes, BytesValue, PackedValue, Reads, Drives;
    var data := Awkward(n);
    var r, q := After256(data);
    AwkwardValue(n);
    var size := (9 * (n - 256) + 7) / 8;
    var m := Min(10, size);
    var input := Stream(Literals(data[256..], 9), 9);
    assert input == LowBytes(1024, size);
    AwkwardBytes(size, m);
    var q' := AwkwardReads(q, m, input[m..]);
    var r' := AwkwardDrives(r);
    DrivesDecodes(q, [Record(0, 10, false), Record(1, 10, false)], q', r, HEADER_PARAMS, r');
    DecodeGrows(q'.u, r', HEADER_PARAMS);
    assert (r.d.out + [0, 1])[257] == 1;
  }

  lemma AwkwardBytes(size: nat, m: nat)
    requires 3 <= m <= size
    ensures BytesValue(LowBytes(1024, size)[..m]) == 1024
  {
    hide LowBytes, BytesValue;
    LargePowers();
    Pow2Grows(16, 8 * m);
    LowBytesSplit(1024, 0, m, size - m);
    LowBytesValue(1024, m);
    SmallModulo(1024, Pow2(8 * m));
    assert LowBytes(1024, size)[..m] == LowBytes(1024, m);
  }

  /** Literal files decompress to their data for every input of a length exactly up to 257 bytes:
      behind the 256th code the decoder reads ten bits where nine were written, which goes unnoticed
      only for the last code. */
  lemma LiteralLimit(n: nat)
    ensures (forall data: seq<byte> {:trigger LiteralFile(data)} ::
               |data| == n ==> Decompress(LiteralFile(data)) == data)
            <==> n <= 257
  {
    hide Decompress, LiteralFile;
    if n <= 257 {
      forall data: seq<byte> | |data| == n ensures Decompress(LiteralFile(data)) == data {
        if n <= 256 {
          ShortLiterals(data);
        } else {
          OneMoreLiteral(data);
        }
      }
    } else {
      AwkwardFails(n);
    }
  }
}
