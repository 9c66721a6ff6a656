/** When a file that was written in block mode, with or without a CLEAR, decompresses to its data. */
module LzwClear {
  import opened Ints
  import opened Options
  import opened Bits
  import opened CodeStream
  import opened BlockPacking
  import opened Lzw
  import opened LzwEncoder
  import opened LzwLockstep

  predicate RoundTrips(data: seq<byte>, o: Settings) {
    var file := CompressedFile(data, o);
    file.Some? && Decompress(file.value) == data
  }

  lemma FileBody(body: seq<byte>, o: Settings)
    requires Accepted(o)
    ensures Decompress(Header(o) + body) == Decode(Unread(0, 0, body), Opening(o.block), Params(o.maxBits, o.block))
  {
    hide Decode;
    assert (Header(o) + body)[3..] == body;
  }

  lemma FileDecodes(data: seq<byte>, o: Settings)
    requires Accepted(o) && data != []
    ensures RoundTrips(data, o) <==>
      Decode(Begin(PackedBytes(RecordsOf(data, o))).u, Opening(o.block), Params(o.maxBits, o.block)) == data
  {
    hide Decode, Decompress, RecordsOf, PackedBytes;
    FileBody(PackedBytes(RecordsOf(data, o)), o);
  }

  lemma EmptyFile(o: Settings)
    requires Accepted(o)
    ensures RoundTrips([], o)
  {
    FileBody([], o);
    assert Header(o) + [] == Header(o);
  }

  /** Records that drive the decoder to the data, each fitting its width, are decoded to it. */
  lemma DrivenIsDecoded(rs: seq<Record>, p: Params, r: Reader)
    requires Writable(rs) && Drives(rs, Opening(p.block), p, r) && 8 <= r.width
    ensures Decode(Begin(PackedBytes(rs)).u, Opening(p.block), p) == r.d.out
  {
    hide PackedBytes, Decode, Reads, NoMore, Drives, Writable;
    var q := PackingReadsBack(rs);
    DrivesDecodes(Begin(PackedBytes(rs)), rs, q, Opening(p.block), p, r);
    DecodeEnds(q, r, p);
  }

  /** In step to the end, the data comes back. */
  lemma InStepSurvives(data: seq<byte>, o: Settings)
    requires Accepted(o) && o.block && data != [] && SameWidths(Coded(data, o), o)
    ensures RoundTrips(data, o)
  {
    hide Decode, Decompress, PackedBytes, Writable, Drives, Feed, Coded, CompressedFile;
    var c := Coded(data, o);
    var table, r := CodingFollows(data, o);
    var r' := CodingRecords(data, c, table, r, o);
    FileDecodes(data, o);
    WideReader(Recorded(c, o.maxBits), r', o);
    DrivenIsDecoded(RecordsOf(data, o), Params(o.maxBits, true), r');
  }

  lemma WideReader(c: Coder, r: Reader, o: Settings)
    requires 9 <= o.maxBits && Paced(c, r, o)
    ensures 9 <= r.width
  {
    hide Pow2;
  }

  // ---------------------------------------------------------------- behind 256 codes

  /** Behind a CLEAR the blocks start anew, and eight codes of nine bits fill one. */
  lemma {:induction false} ClearedAligned(data: seq<byte>, o: Settings)
    requires data != [] && 9 < o.maxBits && o.block
    requires WasCleared(Coded(data, o), o) && Coded(data, o).dataCodes <= 256
    ensures var w := PutAll(FRESH, Coded(data, o).records);
            w.width == 9 && w.bits == 9 * (Coded(data, o).dataCodes % 8)
  {
    hide Coding, Put, Feed, NextWidth;
    if 1 < |data| {
      var read, value := data[..|data| - 1], data[|data| - 1];
      var c := Coded(read, o);
      FeedCounts(c, value, o);
      FeedRecords(c, value, o);
      if WasCleared(c, o) {
        ClearedAligned(read, o);
        var table, r := CodingFollows(read, o);
        StillNine(read, c, table, r, o);
        AlignedMore(c, value, o);
      } else {
        var before := Recorded(c, o.maxBits).records;
        var clear := Record(CLEAR_CODE, Recorded(c, o.maxBits).width, true);
        PutAllMore(before, clear);
        ResetWriter(PutAll(FRESH, before), clear);
      }
    }
  }

  lemma AlignedMore(c: Coder, value: byte, o: Settings)
    requires 0 <= o.maxBits && c.width == 9 && c.pendingClear.None?
    requires var w := PutAll(FRESH, c.records); w.width == 9 && w.bits == 9 * (c.dataCodes % 8)
    ensures var c' := Feed(c, value, o.maxBits);
            var w := PutAll(FRESH, c'.records);
            w.width == 9 && w.bits == 9 * (c'.dataCodes % 8)
  {
    hide Put, PutAll, NextWidth, Pow2;
    var x := Record(CodeOf(c.dictionary, c.phrase), 9, false);
    NineBits(PutAll(FRESH, c.records), c.dataCodes, x);
    PutAllMore(c.records, x);
  }

  lemma PutAllMore(rs: seq<Record>, x: Record)
    ensures PutAll(FRESH, rs + [x]) == Put(PutAll(FRESH, rs), x)
  {
    hide Put;
    assert (rs + [x])[..|rs|] == rs;
  }

  lemma ResetWriter(w: Writer, x: Record)
    requires x.reset
    ensures Put(w, x).width == 9 && Put(w, x).bits == 0
  {
    hide LowBytes, BitOr;
  }

  lemma NineBits(w: Writer, n: nat, x: Record)
    requires w.width == 9 && w.bits == 9 * (n % 8) && x.width == 9 && !x.reset
    ensures Put(w, x).width == 9 && Put(w, x).bits == 9 * ((n + 1) % 8)
  {
    hide LowBytes, BitOr;
    assert (n + 1) % 8 == if n % 8 == 7 then 0 else n % 8 + 1;
  }

  lemma StillNine(read: seq<byte>, c: Coder, table: seq<Word>, r: Reader, o: Settings)
    requires Coding(read, c, table, r, o) && WasCleared(c, o)
    ensures c.width == 9 && c.pendingClear.None?
  {
  }

  /** What one round records. */
  lemma FeedRecords(c: Coder, value: byte, o: Settings)
    requires 0 <= o.maxBits
    ensures var c', now := Feed(c, value, o.maxBits), Recorded(c, o.maxBits);
            if c.phrase + [value] in c.dictionary then
              c'.records == c.records && c'.width == c.width && c'.pendingClear == c.pendingClear
            else if c.pendingClear.Some? && c'.pendingClear.None? then
              c'.records == now.records + [Record(CLEAR_CODE, now.width, true)] && c'.width == 9 && c'.dataCodes == 0
            else c'.records == now.records && c'.width == now.width && c'.pendingClear == c.pendingClear
  {
    hide Pow2, NextWidth;
  }

  // ---------------------------------------------------------------- the 257th code

  /** The decoder reads the 257th code behind a CLEAR with ten bits, from a new block. */
  datatype Edge = Edge(c: Coder, table: seq<Word>, r: Reader, q: Place, body: seq<byte>)

  ghost predicate AtEdge(e: Edge, read: seq<byte>, o: Settings, tail: seq<byte>) {
    && Coding(read, e.c, e.table, e.r, o) && e.r.width == 10 && |e.r.d.table| == 256 && e.r.d.prev != []
    && PutAll(FRESH, e.c.records) == Writer(e.body, 9, 0, 0)
    && Reads(Begin(e.body + tail), e.c.records, e.q) && At(e.r, e.q)
    && e.q.u.rest == tail && (e.q.stale || e.q.u.bits == 0)
  }

  predicate EdgeReached(read: seq<byte>, o: Settings) {
    && read != [] && 9 < o.maxBits && o.block
    && WasCleared(Coded(read, o), o) && Coded(read, o).dataCodes == 256
  }

  lemma ReachEdge(read: seq<byte>, o: Settings, tail: seq<byte>) returns (e: Edge)
    requires EdgeReached(read, o)
    ensures AtEdge(e, read, o, tail) && e.c == Coded(read, o) && e.c.width == 9 && e.c.pendingClear.None?
    ensures PutAll(FRESH, e.c.records) == Writer(e.body, 9, 0, 0) && e.r.width == 10 && At(e.r, e.q)
    ensures Decode(Begin(e.body + tail).u, Opening(true), Params(o.maxBits, true))
         == Decode(e.q.u, e.r, Params(o.maxBits, true))
    ensures CodeOf(e.c.dictionary, e.c.phrase) < 1024
  {
    hide Decode, Reads, Put, Drives, Writable, DictOf, InStep;
    var c := Coded(read, o);
    var table, r := CodingFollows(read, o);
    ClearedAligned(read, o);
    StillNine(read, c, table, r, o);
    EdgeTable(c, r, o);
    var q := BoundaryReads(c.records, tail);
    var body := PutAll(FRESH, c.records).body;
    OpeningAt(body + tail);
    DrivesDecodes(Begin(body + tail), c.records, q, Opening(true), Params(o.maxBits, true), r);
    PhraseDecodes(c.dictionary, table, r.d, c.phrase, o.maxBits);
    e := Edge(c, table, r, q, body);
  }

  lemma OpeningAt(bytes: seq<byte>)
    ensures At(Opening(true), Begin(bytes)) && At(Opening(false), Begin(bytes))
  {
  }

  lemma EdgeTable(c: Coder, r: Reader, o: Settings)
    requires 9 < o.maxBits && Paced(c, r, o) && WasCleared(c, o) && c.dataCodes == 256
    ensures |r.d.table| == 256 && r.width == 10 && c.width == 9 && c.decoderFree == 255 && r.d.prev != []
  {
    LargePower(o.maxBits);
    hide Pow2;
  }

  /** The decoder fetches at the edge. */
  lemma EdgeFetches(e: Edge, read: seq<byte>, o: Settings, tail: seq<byte>)
    requires AtEdge(e, read, o, tail)
    ensures var n := Min(10, |tail|);
            Fetched(10, e.r.stale, e.q.u) == Unread(BytesValue(tail[..n]), 8 * n, tail[n..])
  {
    hide BytesValue, Coding, Reads, Put;
  }

  /** The phrase, read with ten bits. */
  lemma EdgeStep(e: Edge, read: seq<byte>, o: Settings, tail: seq<byte>) returns (r: Reader)
    requires AtEdge(e, read, o, tail) && 10 <= o.maxBits
    ensures StepReader(e.r, CodeOf(e.c.dictionary, e.c.phrase), Params(o.maxBits, true)) == Some(r)
    ensures r.d.out == read && r.width == 10 && !r.stale && |r.d.table| == 257 && r.d.prev != []
  {
    hide DictOf, Drives, Writable, Reads, Put, DecodeStep;
    var d, phrase := e.r.d, e.c.phrase;
    PhraseDecodes(e.c.dictionary, e.table, d, phrase, o.maxBits);
    LargePower(o.maxBits);
    UpcomingCount(d, phrase[0], o.maxBits);
    assert Pow2(10) == 1024 by { assert Pow2(10) == 4 * Pow2(8); ByteRange(); }
    hide Pow2, Upcoming;
    r := Reader(Decoded(d, phrase, o.maxBits), 10, false);
  }

  /** A file whose last code is the 257th behind the CLEAR survives: two bytes are enough for it. */
  lemma LastCodeSurvives(data: seq<byte>, o: Settings)
    requires Accepted(o) && EdgeReached(data, o)
    ensures RoundTrips(data, o)
  {
    hide Decode, Decompress, PackedBytes, PutAll, Coded, CompressedFile, AtEdge, StepReader, LowBytes, BytesValue,
      NextCode, Fetched;
    var code, p := CodeOf(Coded(data, o).dictionary, Coded(data, o).phrase), Params(o.maxBits, true);
    var tail := LowBytes(code, 2);
    var e := ReachEdge(data, o, tail);
    var r := EdgeStep(e, data, o, tail);
    FileDecodes(data, o);
    LastInTwoBytes(e.c.records, e.body, code);
    EdgeFetches(e, data, o, tail);
    assert tail[..2] == tail && tail[2..] == [];
    WideLast(e.q.u, e.r, code, p, r);
  }

  lemma LastInTwoBytes(rs: seq<Record>, body: seq<byte>, code: nat)
    requires PutAll(FRESH, rs) == Writer(body, 9, 0, 0)
    ensures PackedBytes(rs + [Record(code, 9, false)]) == body + LowBytes(code, 2)
  {
    hide LowBytes, PutAll;
    PutAllMore(rs, Record(code, 9, false));
    FirstInBlock(code);
  }

  lemma FirstInBlock(code: nat)
    ensures BitOr(0, Shifted(code, 0)) == code
  {
    BitOrNone(code);
    assert Pow2(0) == 1;
  }

  /** Two bytes hold one code of ten bits and nothing more. */
  lemma WideLast(u: Unread, r: Reader, code: nat, p: Params, r': Reader)
    requires code < 1024 && r.width == 10 && StepReader(r, code, p) == Some(r') && 9 <= r'.width
    requires Fetched(10, r.stale, u) == Unread(BytesValue(LowBytes(code, 2)), 16, [])
    ensures Decode(u, r, p) == r'.d.out
  {
    hide LowBytes, BytesValue, StepReader, Fetched, ShiftRight;
    LowBytesValue(code, 2);
    assert Pow2(10) == 1024 && Pow2(16) == 65536 by { LargePowers(); }
    SmallModulo(code, Pow2(10));
    SmallModulo(code, Pow2(16));
    hide Pow2;
    var t := NextCode(u, 10, r.stale);
    assert t.value.code == code && t.value.left.bits == 6 && t.value.left.rest == [];
    NothingFetched(t.value.left, r'.width, r'.stale);
  }

  lemma NothingFetched(u: Unread, width: nat, stale: bool)
    requires u.rest == [] && u.bits < width
    ensures NextCode(u, width, stale) == None
  {
  }

  lemma LargePowers()
    ensures Pow2(9) == 512 && Pow2(10) == 1024 && Pow2(16) == 65536
  {
    ByteRange();
    Pow2Sum(8, 8);
    assert Pow2(10) == 2 * Pow2(9) && Pow2(9) == 2 * Pow2(8);
  }

  // ---------------------------------------------------------------- one code more

  /** More than 257 codes are written behind the CLEAR. */
  predicate WidensLate(data: seq<byte>, o: Settings)
    requires data != [] && 0 <= o.maxBits
  {
    o.block && o.maxBits != 9 && WasCleared(Coded(data, o), o) && 257 < Coded(data, o).dataCodes + 1
  }

  predicate ZerosAt(data: seq<byte>, i: nat) {
    i <= |data| - 6 && data[i..i + 6] == [0, 0, 0, 0, 0, 0]
  }

  /** Six zero bytes in a row. */
  predicate SixZeros(data: seq<byte>) {
    exists i :: 0 <= i < |data| && ZerosAt(data, i)
  }

  /** Before the 257th code was recorded, the edge was reached. */
  lemma {:induction false} FindEdge(data: seq<byte>, o: Settings) returns (k: nat)
    requires Accepted(o) && data != [] && WidensLate(data, o)
    ensures 0 < k < |data| && EdgeReached(data[..k], o)
    ensures Coded(data[..k], o).phrase + [data[k]] !in Coded(data[..k], o).dictionary
  {
    hide Feed;
    var read, value := data[..|data| - 1], data[|data| - 1];
    var c := Coded(read, o);
    FeedCounts(c, value, o);
    FeedRecords(c, value, o);
    if c.dataCodes == 256 {
      k := |read|;
    } else {
      k := FindEdge(read, o);
      assert read[..k] == data[..k];
    }
  }

  /** What is recorded behind a part of the data: the first code with the width reached there. */
  lemma {:induction false} RecordsBehind(data: seq<byte>, k: nat, o: Settings) returns (more: seq<Record>)
    requires 0 < k <= |data| && 0 <= o.maxBits && Coded(data[..k], o).pendingClear.None?
      && 0 < Coded(data[..k], o).width
    ensures var c, c' := Coded(data[..k], o), Coded(data, o);
            && c'.records == c.records + more && c'.pendingClear.None? && 0 < c'.width
            && (forall i :: 0 <= i < |more| ==> 0 < more[i].width && !more[i].reset)
            && (if more == [] then c'.width else more[0].width) == c.width
    decreases |data|
  {
    hide Feed, NextWidth;
    if k == |data| {
      assert data[..k] == data;
      more := [];
      assert Coded(data, o).records + [] == Coded(data, o).records;
    } else {
      var read, value := data[..|data| - 1], data[|data| - 1];
      assert read[..k] == data[..k];
      more := RecordsBehind(read, k, o);
      var c := Coded(read, o);
      FeedRecords(c, value, o);
      PositiveWidth(Recorded(c, o.maxBits).decoderFree, c.width, o.maxBits);
      if c.phrase + [value] !in c.dictionary {
        var x := Record(CodeOf(c.dictionary, c.phrase), c.width, false);
        assert (Coded(data[..k], o).records + more) + [x] == Coded(data[..k], o).records + (more + [x]);
        more := more + [x];
      }
    }
  }

  /** The file behind the edge: the 257th code of nine bits alone in its block, and then codes of
      ten bits. */
  lemma BodyBehindEdge(data: seq<byte>, k: nat, o: Settings) returns (more: seq<Record>)
    requires Accepted(o) && 0 < k < |data| && EdgeReached(data[..k], o)
    requires Coded(data[..k], o).width == 9 && Coded(data[..k], o).decoderFree == 255
    requires Coded(data[..k], o).pendingClear.None?
    requires Coded(data[..k], o).phrase + [data[k]] !in Coded(data[..k], o).dictionary
    ensures var c := Coded(data[..k], o);
            RecordsOf(data, o) == c.records + [Record(CodeOf(c.dictionary, c.phrase), 9, false)] + more
    ensures more != [] && more[0].width == 10 && forall i :: 0 <= i < |more| ==> 0 < more[i].width && !more[i].reset
  {
    hide Feed, Pow2;
    var c, next := Coded(data[..k], o), data[..k + 1];
    assert next[..k] == data[..k];
    FeedRecords(c, data[k], o);
    LargePowers();
    LargePower(o.maxBits);
    assert Coded(next, o).width == 10;
    more := RecordsBehind(data, k + 1, o);
    var last := Coded(data, o);
    var x := Record(CodeOf(last.dictionary, last.phrase), last.width, false);
    assert (Coded(next, o).records + more) + [x] == Coded(next, o).records + (more + [x]);
    more := more + [x];
  }

  lemma BytesBehindEdge(rs: seq<Record>, body: seq<byte>, code: nat, more: seq<Record>) returns (tail: seq<byte>)
    requires PutAll(FRESH, rs) == Writer(body, 9, 0, 0)
    requires more != [] && more[0].width == 10 && forall i :: 0 <= i < |more| ==> 0 < more[i].width && !more[i].reset
    ensures PackedBytes(rs + [Record(code, 9, false)] + more) == body + tail
    ensures 10 <= |tail| && tail[..9] == LowBytes(code, 9)
  {
    hide LowBytes, PutAll, Put;
    var x, y, others := Record(code, 9, false), more[0], more[1..];
    var w0, w1 := PutAll(FRESH, rs), Put(PutAll(FRESH, rs), x);
    assert rs + [x] + more == (rs + [x]) + [y] + others;
    PutAllMore(rs, x);
    PutAllMore(rs + [x], y);
    PutAllConcat(FRESH, (rs + [x]) + [y], others);
    FirstInBlock(code);
    WidthChanges(w0, x, y);
    var w2 := Put(w1, y);
    Unchanged(w2);
    PutAllKeeps(w2, w2, others);
    tail := ClosedBehind(w2, PutAll(w2, others));
    tail := LowBytes(code, 9) + tail;
    assert body + LowBytes(code, 9) + tail[9..] == body + tail;
  }

  lemma WidthChanges(w: Writer, x: Record, y: Record)
    requires w.width == 9 && w.bits == 0 && w.block == 0
    requires x.width == 9 && !x.reset && y.width == 10 && !y.reset && BitOr(0, Shifted(x.code, 0)) == x.code
    ensures Put(Put(w, x), y).body == w.body + LowBytes(x.code, 9)
    ensures Put(Put(w, x), y).bits == 10 == Put(Put(w, x), y).width
    ensures Put(Put(w, x), y).block == BitOr(0, Shifted(y.code, 0))
  {
    hide LowBytes, BitOr, Shifted;
    assert Put(w, x) == Writer(w.body, 9, x.code, 9);
  }

  lemma ClosedBehind(w: Writer, w': Writer) returns (tail: seq<byte>)
    requires Keeps(w, w') && w.bits == 10 == w.width
    ensures Closed(w') == w.body + tail && 0 < |tail|
  {
    hide LowBytes, Pow2;
    tail := Closed(w')[|w.body|..];
  }

  // ---------------------------------------------------------------- six zero codes

  function Zeros(n: nat): (rs: seq<Record>)
    ensures |rs| == n && forall i :: 0 <= i < n ==> rs[i] == Record(0, 10, false)
  {
    seq(n, _ => Record(0, 10, false))
  }

  function ZeroBytes(n: nat): (bs: seq<byte>)
    ensures |bs| == n && forall i :: 0 <= i < n ==> bs[i] == 0
  {
    seq(n, _ => 0)
  }

  lemma {:induction false} ZerosDrive(n: nat, r: Reader, p: Params) returns (r': Reader)
    requires r.width == 10 && !r.stale && r.d.prev != [] && |r.d.table| + n < 512 && 10 <= p.maxBits
    ensures Drives(Zeros(n), r, p, r') && r'.d.out == r.d.out + ZeroBytes(n) && r'.width == 10
    decreases n
  {
    hide Pow2;
    if n == 0 {
      r' := r;
      assert ZeroBytes(0) == [];
    } else {
      var m := ZeroStep(r, p);
      r' := ZerosDrive(n - 1, m, p);
      assert Zeros(n)[1..] == Zeros(n - 1);
      assert r.d.out + ZeroBytes(n) == (r.d.out + [0]) + ZeroBytes(n - 1);
    }
  }

  lemma ZeroStep(r: Reader, p: Params) returns (r': Reader)
    requires r.width == 10 && !r.stale && r.d.prev != [] && |r.d.table| < 512
    ensures StepReader(r, 0, p) == Some(r') && r'.width == 10 && !r'.stale && r'.d.prev != []
    ensures r'.d.out == r.d.out + [0] && |r'.d.table| <= |r.d.table| + 1
  {
    LargePowers();
    UpcomingCount(r.d, 0, p.maxBits);
    hide Pow2, Upcoming;
    r' := Reader(Decoder(Upcoming(r.d, 0, p.maxBits), [0], r.d.out + [0]), 10, false);
  }

  lemma {:induction false} ZerosPacked(n: nat)
    ensures PackedValue(Zeros(n), 10) == 0
  {
    if n != 0 {
      ZerosPacked(n - 1);
      assert Zeros(n)[1..] == Zeros(n - 1);
    }
  }

  /** In ten bytes that start with a code of nine bits alone, ten bits at a time are the code and six
      zeros. */
  lemma ReadsWide(code: nat, b: byte, rest: seq<byte>, p: Place) returns (q: Place)
    requires code < 1024
      && Fetched(10, p.stale || 10 != p.width, p.u) == Unread(BytesValue(LowBytes(code, 9) + [b]), 80, rest)
    ensures Reads(p, [Record(code, 10, false)] + Zeros(6), q)
  {
    hide Reads, Fetched, LowBytes, BytesValue, PackedValue, Pow2, FitWidth;
    var rs := [Record(code, 10, false)] + Zeros(6);
    WideFits(code);
    WideValue(code, b);
    ReadsInBlock(rs, 10, 4 * b, 80, rest);
    q := Place(Unread(4 * b, 10, rest), 10, false);
    FetchedReads(p, Unread(code + Pow2(70) * (4 * b), 80, rest), rs, q);
  }

  lemma WideFits(code: nat)
    requires code < 1024
    ensures var rs := [Record(code, 10, false)] + Zeros(6);
            FitWidth(rs, 10) && PackedValue(rs, 10) == code && |rs| * 10 == 70
  {
    var rs := [Record(code, 10, false)] + Zeros(6);
    LargePowers();
    assert rs[1..] == Zeros(6);
    ZerosPacked(6);
    hide Pow2;
  }

  lemma WideValue(code: nat, b: byte)
    requires code < 1024
    ensures 0 <= Pow2(70) * (4 * b) && BytesValue(LowBytes(code, 9) + [b]) == code + Pow2(70) * (4 * b)
  {
    BytesAppend(LowBytes(code, 9), b);
    LowBytesValue(code, 9);
    LargePowers();
    Pow2Grows(10, 72);
    SmallModulo(code, Pow2(72));
    Pow2Sum(70, 2);
    assert Pow2(2) == 4;
    hide Pow2, BytesValue, LowBytes;
    FourTimes(Pow2(70), b);
    MulMonotone(0, 4 * b, Pow2(70));
  }

  lemma FourTimes(p: int, b: int)
    ensures (p * 4) * b == p * (4 * b)
  {
  }

  /** Behind the edge the decoder reads the 257th code and then six zeros that nobody wrote. */
  lemma ReadsZeros(e: Edge, read: seq<byte>, o: Settings, tail: seq<byte>)
    requires AtEdge(e, read, o, tail) && 10 <= o.maxBits && e.r.width == 10 && At(e.r, e.q)
    requires 10 <= |tail| && tail[..9] == LowBytes(CodeOf(e.c.dictionary, e.c.phrase), 9)
    requires CodeOf(e.c.dictionary, e.c.phrase) < 1024
    ensures read + ZeroBytes(6) <= Decode(e.q.u, e.r, Params(o.maxBits, true))
  {
    hide AtEdge, Reads, Drives, Decode, LowBytes, BytesValue, NextCode, Fetched, StepReader;
    var code, p := CodeOf(e.c.dictionary, e.c.phrase), Params(o.maxBits, true);
    var r := EdgeStep(e, read, o, tail);
    EdgeFetches(e, read, o, tail);
    assert tail[..10] == LowBytes(code, 9) + [tail[9]];
    var q := ReadsWide(code, tail[9], tail[10..], e.q);
    var r' := ZerosDrive(6, r, p);
    FirstDrives(Record(code, 10, false), Zeros(6), e.r, p, r, r');
    DrivesDecodes(e.q, [Record(code, 10, false)] + Zeros(6), q, e.r, p, r');
    DecodeGrows(q.u, r', p);
  }

  lemma FirstDrives(x: Record, rs: seq<Record>, r: Reader, p: Params, m: Reader, r': Reader)
    requires StepReader(r, x.code, p) == Some(m) && x.width == r.width == m.width && !m.stale && !x.reset
    requires Drives(rs, m, p, r')
    ensures Drives([x] + rs, r, p, r')
  {
    hide StepReader;
    assert ([x] + rs)[1..] == rs;
  }

  /** Data that comes back although more than 257 codes are written behind the CLEAR has six zeros
      in a row. */
  lemma LateNeedsZeros(data: seq<byte>, o: Settings)
    requires Accepted(o) && data != [] && WidensLate(data, o) && RoundTrips(data, o)
    ensures SixZeros(data)
  {
    hide Decode, Decompress, PackedBytes, PutAll, Coded, CompressedFile, AtEdge, StepReader, LowBytes, EdgeReached;
    var p := Params(o.maxBits, true);
    var k := FindEdge(data, o);
    var read := data[..k];
    var e0 := ReachEdge(read, o, []);
    EdgeCounts(read, o);
    var more := BodyBehindEdge(data, k, o);
    var code := CodeOf(e0.c.dictionary, e0.c.phrase);
    var tail := BytesBehindEdge(e0.c.records, e0.body, code, more);
    var e := ReachEdge(read, o, tail);
    FileDecodes(data, o);
    ReadsZeros(e, read, o, tail);
    assert read + ZeroBytes(6) <= data;
    assert data[k..k + 6] == ZeroBytes(6) == [0, 0, 0, 0, 0, 0];
    assert ZerosAt(data, k);
  }

  lemma EdgeCounts(read: seq<byte>, o: Settings)
    requires EdgeReached(read, o)
    ensures Coded(read, o).decoderFree == 255
  {
    hide Coding, Coded;
    var table, r := CodingFollows(read, o);
    PacedEdge(read, Coded(read, o), table, r, o);
  }

  lemma PacedEdge(read: seq<byte>, c: Coder, table: seq<Word>, r: Reader, o: Settings)
    requires Coding(read, c, table, r, o) && 9 < o.maxBits && WasCleared(c, o) && c.dataCodes == 256
    ensures c.decoderFree == 255
  {
  }

  /** Block mode, with or without a CLEAR: the data comes back if no more than 257 codes are written
      behind the CLEAR or the codes never widen.  Otherwise it does not, for data without six zero
      bytes in a row. */
  lemma BlockLimit(data: seq<byte>, o: Settings)
    requires Accepted(o) && o.block && data != []
    ensures !WidensLate(data, o) ==> RoundTrips(data, o)
    ensures !SixZeros(data) ==> (RoundTrips(data, o) <==> !WidensLate(data, o))
  {
    hide RoundTrips, Coded;
    if WidensLate(data, o) {
      if RoundTrips(data, o) {
        LateNeedsZeros(data, o);
      }
    } else if SameWidths(Coded(data, o), o) {
      InStepSurvives(data, o);
    } else {
      LastCodeSurvives(data, o);
    }
  }
}
