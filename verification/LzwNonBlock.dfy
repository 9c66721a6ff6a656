/** When a file that was written without block mode decompresses to its data: the encoder numbers its
    entries from 257 and the decoder from 256, so that only literal codes mean the same to both. */
module LzwNonBlock {
  import opened Ints
  import opened Options
  import opened CodeStream
  import opened BlockPacking
  import opened Lzw
  import opened LzwEncoder
  import opened LzwLockstep
  import opened LzwClear

  // ---------------------------------------------------------------- pairs of bytes

  function Pair(data: seq<byte>, i: nat): Word
    requires i + 1 < |data|
  {
    [data[i], data[i + 1]]
  }

  function Pairs(data: seq<byte>, n: nat): (table: seq<Word>)
    requires n == 0 || n < |data|
    ensures |table| == n && forall k :: 0 <= k < n ==> table[k] == Pair(data, k)
  {
    seq(n, k requires 0 <= k < n => Pair(data, k))
  }

  /** How many words the encoder's dictionary has room for. */
  function Room(maxBits: nat): int {
    Pow2(maxBits) - 257
  }

  /** No two adjacent bytes repeat a pair that is in the dictionary. */
  predicate PairsDistinct(data: seq<byte>, room: int) {
    forall i, j :: 0 <= j < i < |data| - 1 && j < room ==> Pair(data, i) != Pair(data, j)
  }

  lemma PairsOfPart(read: seq<byte>, value: byte, n: nat)
    requires n == 0 || n < |read|
    ensures Pairs(read + [value], n) == Pairs(read, n)
  {
  }

  lemma DistinctPart(read: seq<byte>, value: byte, room: int)
    requires PairsDistinct(read + [value], room)
    ensures PairsDistinct(read, room)
  {
    forall i, j | 0 <= j < i < |read| - 1 && j < room ensures Pair(read, i) != Pair(read, j) {
      assert Pair(read + [value], i) == Pair(read, i) && Pair(read + [value], j) == Pair(read, j);
    }
  }

  // ---------------------------------------------------------------- literal codes

  /** The decoder after n literal codes. */
  function AfterLiterals(read: seq<byte>, n: nat, maxBits: nat): Decoder
    requires n < |read| && 9 <= maxBits
  {
    LargePower(maxBits);
    Decoder(Pairs(read, Min(Max(n - 1, 0), Room(maxBits) + 1)), if n == 0 then [] else [read[n - 1]], read[..n])
  }

  /** So far each byte but the last one is a literal code. */
  ghost predicate Literal(read: seq<byte>, c: Coder, r: Reader, o: Settings) {
    && read != [] && 9 <= o.maxBits && 0 <= Room(o.maxBits)
    && var n := |read| - 1;
       && c.phrase == [read[n]] && c.dataCodes == n && c.pendingClear.None?
       && DictOf(c.dictionary, Pairs(read, Min(n, Room(o.maxBits))))
       && c.nextCode == FIRST_FREE + Min(n, Room(o.maxBits))
       && r.d == AfterLiterals(read, n, o.maxBits)
       && c.width == r.width && c.decoderFree == |r.d.table| && WidthFits(|r.d.table|, c.width, o.maxBits)
       && Drives(c.records, Opening(false), Params(o.maxBits, false), r) && Writable(c.records)
  }

  lemma LiteralStarts(first: byte, o: Settings)
    requires 9 <= o.maxBits && !o.block && o.clearAfter.None?
    ensures Literal([first], Started(first, o), Opening(false), o)
  {
    hide SingleBytes, DictOf;
    InitialDict();
    LargePower(o.maxBits);
    assert Pow2(9) == 512;
    hide Pow2;
    assert Pairs([first], 0) == [];
  }

  /** A pair that is not in the table is not in the dictionary, and the other way round. */
  lemma PairInDict(dict: Dict, read: seq<byte>, n: nat, w: Word)
    requires (n == 0 || n < |read|) && DictOf(dict, Pairs(read, n)) && |w| == 2
    ensures w in dict <==> exists j :: 0 <= j < n && Pair(read, j) == w
    ensures forall j :: 0 <= j < n && Pair(read, j) == w ==> w in dict && dict[w] == FIRST_FREE + j
  {
    if w in dict {
      assert w in Pairs(read, n);
      var j :| 0 <= j < n && Pairs(read, n)[j] == w;
      assert Pair(read, j) == w;
    }
    forall j | 0 <= j < n && Pair(read, j) == w ensures w in dict && dict[w] == FIRST_FREE + j {
      assert Pairs(read, n)[j] == w;
    }
  }

  lemma TableGrows(read: seq<byte>, n: nat, maxBits: nat)
    requires n < |read| && 9 <= maxBits && 0 <= Room(maxBits)
    ensures var d := AfterLiterals(read, n, maxBits);
            Upcoming(d, read[n], maxBits) == Pairs(read, Min(n, Room(maxBits) + 1))
  {
    hide Pow2;
    if 0 < n {
      assert [read[n - 1]] + [read[n]] == Pair(read, n - 1);
    }
  }

  /** The byte before the last is recorded as a literal code. */
  lemma LiteralRecords(read: seq<byte>, c: Coder, r: Reader, o: Settings) returns (r': Reader)
    requires Literal(read, c, r, o)
    ensures var c' := Recorded(c, o.maxBits);
            && Drives(c'.records, Opening(false), Params(o.maxBits, false), r') && Writable(c'.records)
            && c'.width == r'.width && c'.decoderFree == |r'.d.table| && WidthFits(|r'.d.table|, c'.width, o.maxBits)
    ensures r'.d == Decoder(Pairs(read, Min(|read| - 1, Room(o.maxBits) + 1)), [read[|read| - 1]], read)
  {
    hide Drives, Writable, NextWidth, Upcoming, Pow2, DictOf;
    var n := |read| - 1;
    var b, p := read[n], Params(o.maxBits, false);
    assert read == read[..n] + [b];
    LiteralCode(c.dictionary, Pairs(read, Min(n, Room(o.maxBits))), b);
    TableGrows(read, n, o.maxBits);
    UpcomingCount(r.d, b, o.maxBits);
    var d := Decoder(Upcoming(r.d, b, o.maxBits), [b], read);
    WidthKeepsUp(|r.d.table|, |d.table|, c.width, o.maxBits);
    var width := NextWidth(|d.table|, c.width, o.maxBits);
    r' := Reader(d, width, width != r.width);
    DrivesAppend(c.records, Record(b, c.width, false), Opening(false), p, r, r');
    LargePower(c.width);
    WritableMore(c.records, Record(b, c.width, false));
  }

  lemma LiteralCode(dict: Dict, table: seq<Word>, b: byte)
    requires DictOf(dict, table)
    ensures CodeOf(dict, [b]) == b
  {
  }

  lemma LiteralMore(read: seq<byte>, c: Coder, r: Reader, o: Settings, value: byte) returns (r': Reader)
    requires Literal(read, c, r, o) && PairsDistinct(read + [value], Room(o.maxBits))
    ensures Literal(read + [value], Feed(c, value, o.maxBits), r', o)
  {
    hide Drives, Writable, NextWidth, Pow2, DictOf;
    r' := LiteralRecords(read, c, r, o);
    var data, n, m := read + [value], |read| - 1, Min(|read| - 1, Room(o.maxBits));
    var candidate := c.phrase + [value];
    assert candidate == Pair(data, n);
    NotInDict(c.dictionary, read, m, value, o);
    PairsOfPart(read, value, m);
    PairsOfPart(read, value, Min(n, Room(o.maxBits) + 1));
    assert data[..n + 1] == read;
    if n < Room(o.maxBits) {
      DictExtend(c.dictionary, Pairs(read, m), candidate);
      assert Pairs(data, n + 1) == Pairs(data, n) + [candidate];
    }
  }

  lemma NotInDict(dict: Dict, read: seq<byte>, m: nat, value: byte, o: Settings)
    requires read != [] && 0 <= o.maxBits && m <= |read| - 1 && m <= Room(o.maxBits) && DictOf(dict, Pairs(read, m))
    requires PairsDistinct(read + [value], Room(o.maxBits))
    ensures [read[|read| - 1], value] !in dict
  {
    hide DictOf, Pow2;
    var data, n := read + [value], |read| - 1;
    assert Pair(data, n) == [read[n], value];
    PairInDict(dict, read, m, [read[n], value]);
    forall j | 0 <= j < m ensures Pair(read, j) != Pair(data, n) {
      assert Pair(read, j) == Pair(data, j);
    }
  }

  lemma {:induction false} LiteralFollows(data: seq<byte>, o: Settings) returns (r: Reader)
    requires data != [] && Accepted(o) && !o.block && PairsDistinct(data, Room(o.maxBits))
    ensures Literal(data, Coded(data, o), r, o)
  {
    hide Literal, Feed, Started, PairsDistinct, Room;
    if |data| == 1 {
      r := Opening(false);
      LiteralStarts(data[0], o);
      assert data == [data[0]];
    } else {
      var read, value := data[..|data| - 1], data[|data| - 1];
      assert data == read + [value];
      DistinctPart(read, value, Room(o.maxBits));
      r := LiteralFollows(read, o);
      r := LiteralMore(read, Coded(read, o), r, o, value);
    }
  }

  /** Where every code is a literal, the data comes back. */
  lemma LiteralsSurvive(data: seq<byte>, o: Settings)
    requires Accepted(o) && !o.block && data != [] && PairsDistinct(data, Room(o.maxBits))
    ensures RoundTrips(data, o)
  {
    hide Decode, Decompress, PackedBytes, Coded, CompressedFile, Drives, Writable, PairsDistinct, Pow2, DictOf;
    var r := LiteralFollows(data, o);
    var r' := LiteralRecords(data, Coded(data, o), r, o);
    FileDecodes(data, o);
    DrivenIsDecoded(RecordsOf(data, o), Params(o.maxBits, false), r');
  }

  // ---------------------------------------------------------------- the first other code

  /** Three zero bytes in a row where the codes outgrow a width: there the encoder writes the code
      2^width in width bits. */
  predicate ZerosAtEdge(data: seq<byte>, width: nat) {
    9 <= width && var e := Pow2(width) - 257;
    0 <= e && e + 2 < |data| && data[e] == data[e + 1] == data[e + 2] == 0
  }

  predicate EdgeZeros(data: seq<byte>, maxBits: nat) {
    exists width :: 9 <= width < maxBits && ZerosAtEdge(data, width)
  }

  lemma {:induction false} FindRepeat(data: seq<byte>, room: int) returns (k: nat, j: nat)
    requires !PairsDistinct(data, room)
    ensures 0 < j + 1 < k < |data| && j < room && PairsDistinct(data[..k], room) && Pair(data, k - 1) == Pair(data, j)
  {
    var read := data[..|data| - 1];
    if PairsDistinct(read, room) {
      forall i, h | 0 <= h < i < |read| - 1 && h < room ensures Pair(data, i) != Pair(data, h) {
        assert Pair(read, i) == Pair(data, i) && Pair(read, h) == Pair(data, h);
      }
      var i, h :| 0 <= h < i < |data| - 1 && h < room && Pair(data, i) == Pair(data, h);
      k, j := |read|, h;
    } else {
      k, j := FindRepeat(read, room);
      assert read[..k] == data[..k] && Pair(read, k - 1) == Pair(data, k - 1) && Pair(read, j) == Pair(data, j);
    }
  }

  /** A phrase of two bytes is recorded next, since the dictionary has no longer words. */
  lemma RecordsPair(data: seq<byte>, k: nat, o: Settings) returns (more: seq<Record>)
    requires 0 < k < |data| && 0 <= o.maxBits
    requires var c := Coded(data[..k], o);
             && c.pendingClear.None? && 0 < c.width && |c.phrase| == 1
             && c.phrase + [data[k]] in c.dictionary && forall w :: w in c.dictionary ==> |w| <= 2
    ensures var c := Coded(data[..k], o);
            RecordsOf(data, o)
            == c.records + [Record(CodeOf(c.dictionary, c.phrase + [data[k]]), c.width, false)] + more
    ensures forall i :: 0 <= i < |more| ==> 0 < more[i].width
  {
    hide Feed, Pow2, NextWidth;
    var c, next := Coded(data[..k], o), data[..k + 1];
    assert next[..k] == data[..k];
    LongerPhrase(c, data[k], o.maxBits);
    var c' := Coded(next, o);
    if k + 1 == |data| {
      assert next == data;
      more := [];
      assert RecordsOf(data, o) + [] == RecordsOf(data, o);
    } else {
      var after := data[..k + 2];
      assert after[..k + 1] == next;
      FeedRecords(c', data[k + 1], o);
      PositiveWidth(Recorded(c', o.maxBits).decoderFree, c'.width, o.maxBits);
      more := RecordsBehind(data, k + 2, o);
      var last := Coded(data, o);
      var x := Record(CodeOf(last.dictionary, last.phrase), last.width, false);
      assert (Coded(after, o).records + more) + [x] == Coded(after, o).records + (more + [x]);
      more := more + [x];
    }
  }

  /** The decoder takes the code of a repeated pair for another word, or for none. */
  lemma WrongPair(data: seq<byte>, k: nat, j: nat, d: Decoder, maxBits: nat)
    requires 9 <= maxBits && j + 1 < k < |data| && j < Room(maxBits) && d == AfterLiterals(data[..k], k - 1, maxBits)
    requires PairsDistinct(data[..k], Room(maxBits)) && Pair(data, k - 1) == Pair(data, j)
    ensures var w := WordOf(d, FIRST_FREE + j);
            w.None? || (|w.value| == 2 && w.value != Pair(data, k - 1))
  {
    hide Pow2;
    var read := data[..k];
    assert Pair(read, j) == Pair(data, j);
    if j + 1 < |d.table| {
      assert d.table[j + 1] == Pair(read, j + 1);
    } else if j + 1 == |d.table| {
      assert d.prev + [d.prev[0]] == [read[k - 2], read[k - 2]];
      assert Pair(read, k - 2) == [read[k - 2], read[k - 1]];
      assert j == k - 3;
    }
  }

  /** A code that the decoder takes for another word of two bytes, or for none, spoils the output. */
  lemma WrongWordSpoils(place: Place, x: Record, q: Place, r: Reader, p: Params, data: seq<byte>, n: nat)
    requires Reads(place, [x], q) && At(r, place) && x.width == r.width && !p.block
    requires n + 2 <= |data| && r.d.out == data[..n]
    requires var w := WordOf(r.d, x.code); w.None? || (|w.value| == 2 && w.value != data[n..n + 2])
    ensures Decode(place.u, r, p) != data
  {
    hide NextCode, WordOf, Upcoming, NextWidth;
    var t, next := Take(place, x.width), StepReader(r, x.code, p);
    var out := Decode(place.u, r, p);
    if next.Some? {
      StepGrows(r, x.code, p);
      DecodeGrows(t.value.left, next.value, p);
      assert out[n..n + 2] == WordOf(r.d, x.code).value;
    } else {
      assert |out| == n;
    }
  }

  lemma ZeroCodeSpoils(place: Place, x: Record, q: Place, r: Reader, p: Params, data: seq<byte>, n: nat)
    requires Reads(place, [x], q) && At(r, place) && x.width == r.width && !p.block && x.code == 0
    requires n < |data| && r.d.out == data[..n] && Decode(place.u, r, p) == data
    ensures data[n] == 0
  {
    hide NextCode, Upcoming, NextWidth;
    var t, next := Take(place, x.width), StepReader(r, x.code, p);
    StepGrows(r, x.code, p);
    DecodeGrows(t.value.left, next.value, p);
    assert (r.d.out + [0])[n] == 0;
  }

  /** A code that outgrows its width is exactly the power of two. */
  lemma OutgrownCode(table: nat, n: nat, j: nat, width: nat, maxBits: nat)
    requires WidthFits(table, width, maxBits) && j < n && j < Room(maxBits)
    requires table == Min(Max(n - 1, 0), Room(maxBits) + 1) && Pow2(width) <= FIRST_FREE + j
    ensures width < maxBits && j == n - 1 == Pow2(width) - 257 && LowBits(FIRST_FREE + j, width) == 0
  {
    if width < maxBits {
      Pow2Grows(width + 1, maxBits);
      assert Pow2(width + 1) == 2 * Pow2(width);
      LargePower(width);
    }
    hide Pow2, LowBits;
    assert FIRST_FREE + j == Pow2(width);
    PowerCut(FIRST_FREE + j, width);
  }

  lemma FittingCode(code: nat, width: nat)
    requires code < Pow2(width)
    ensures LowBits(code, width) == code
  {
    SmallModulo(code, Pow2(width));
  }

  lemma PowerCut(code: nat, width: nat)
    requires code == Pow2(width)
    ensures LowBits(code, width) == 0
  {
    hide Pow2;
    DivUnique(code, Pow2(width), 1, 0);
  }

  /** The code of a repeated pair is read behind the literals, without its high bits. */
  lemma ReadsRepeat(data: seq<byte>, k: nat, j: nat, o: Settings) returns (m: Place, x: Record, q: Place, r: Reader)
    requires Accepted(o) && !o.block && j + 1 < k < |data| && j < Room(o.maxBits)
    requires PairsDistinct(data[..k], Room(o.maxBits)) && Pair(data, k - 1) == Pair(data, j)
    ensures x == Record(LowBits(FIRST_FREE + j, r.width), r.width, false) && Reads(m, [x], q) && At(r, m)
    ensures r.d == AfterLiterals(data[..k], k - 1, o.maxBits) && WidthFits(|r.d.table|, r.width, o.maxBits)
    ensures Decode(m.u, r, Params(o.maxBits, false))
         == Decode(Begin(PackedBytes(RecordsOf(data, o))).u, Opening(false), Params(o.maxBits, false))
  {
    hide Decode, PackedBytes, Coded, Drives, Writable, PairsDistinct, Pow2, DictOf, Reads, LowBits, Room, AfterLiterals;
    var read := data[..k];
    var c := Coded(read, o);
    r := LiteralFollows(read, o);
    PairCode(data, k, j, c, r, o);
    var more := RecordsPair(data, k, o);
    var code := Record(FIRST_FREE + j, c.width, false);
    x := code.(code := LowBits(code.code, code.width));
    q := PrefixReads(c.records, code, more);
    var begin := Begin(PackedBytes(RecordsOf(data, o)));
    m := ReadsSplit(begin, c.records, [x], q);
    OpeningAt(PackedBytes(RecordsOf(data, o)));
    DrivesDecodes(begin, c.records, m, Opening(false), Params(o.maxBits, false), r);
  }

  /** Data that comes back although a pair repeats has three zeros at an edge. */
  lemma RepeatNeedsZeros(data: seq<byte>, o: Settings)
    requires Accepted(o) && !o.block && data != [] && !PairsDistinct(data, Room(o.maxBits)) && RoundTrips(data, o)
    ensures EdgeZeros(data, o.maxBits)
  {
    hide Decode, PackedBytes, RecordsOf, CompressedFile, Decompress, PairsDistinct, Pow2, Reads, WordOf, LowBits, Room;
    var k, j := FindRepeat(data, Room(o.maxBits));
    var n, p := k - 1, Params(o.maxBits, false);
    FileDecodes(data, o);
    var m, x, q, r := ReadsRepeat(data, k, j, o);
    assert data[..k][..n] == data[..n] && data[n..n + 2] == Pair(data, n);
    if FIRST_FREE + j < Pow2(r.width) {
      FittingCode(FIRST_FREE + j, r.width);
      WrongPair(data, k, j, r.d, o.maxBits);
      WrongWordSpoils(m, x, q, r, p, data, n);
    } else {
      OutgrownCode(|r.d.table|, n, j, r.width, o.maxBits);
      ZeroCodeSpoils(m, x, q, r, p, data, n);
      assert Pair(data, n) == Pair(data, j);
      assert ZerosAtEdge(data, r.width);
    }
  }

  lemma PairCode(data: seq<byte>, k: nat, j: nat, c: Coder, r: Reader, o: Settings)
    requires j + 1 < k < |data| && 9 <= o.maxBits && j < Room(o.maxBits) && Literal(data[..k], c, r, o)
    requires Pair(data, k - 1) == Pair(data, j)
    ensures c.phrase + [data[k]] in c.dictionary && CodeOf(c.dictionary, c.phrase + [data[k]]) == FIRST_FREE + j
    ensures forall w :: w in c.dictionary ==> |w| <= 2
    ensures 0 < c.width && WidthFits(|r.d.table|, c.width, o.maxBits)
  {
    hide Pow2, Drives, Writable;
    var read, m := data[..k], Min(k - 1, Room(o.maxBits));
    assert c.phrase + [data[k]] == Pair(data, k - 1) && Pair(read, j) == Pair(data, j);
    PairInDict(c.dictionary, read, m, Pair(data, k - 1));
    ShortWords(c.dictionary, read, m);
  }

  lemma ShortWords(dict: Dict, read: seq<byte>, m: nat)
    requires (m == 0 || m < |read|) && DictOf(dict, Pairs(read, m))
    ensures forall w :: w in dict ==> |w| <= 2
  {
  }

  /** Without block mode the data comes back if no pair of bytes repeats one that has an entry.
      Otherwise it does not, for data without three zero bytes where the codes outgrow a width. */
  lemma NonBlockLimit(data: seq<byte>, o: Settings)
    requires Accepted(o) && !o.block && data != []
    ensures PairsDistinct(data, Room(o.maxBits)) ==> RoundTrips(data, o)
    ensures !EdgeZeros(data, o.maxBits) ==> (RoundTrips(data, o) <==> PairsDistinct(data, Room(o.maxBits)))
  {
    hide RoundTrips, PairsDistinct, EdgeZeros;
    if PairsDistinct(data, Room(o.maxBits)) {
      LiteralsSurvive(data, o);
    } else if RoundTrips(data, o) {
      RepeatNeedsZeros(data, o);
    }
  }
}
