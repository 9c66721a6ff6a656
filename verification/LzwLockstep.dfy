/** Encoder and decoder of Unix-compress data in step: what the records drive the decoder to, in
    block mode. */
module LzwLockstep {
  import opened Ints
  import opened Options
  import opened CodeStream
  import opened BlockPacking
  import opened Lzw
  import opened LzwEncoder

  // ---------------------------------------------------------------- the dictionary as a table

  /** The dictionary holds the single bytes and the table's words, each under its code. */
  ghost predicate DictOf(dict: Dict, table: seq<Word>) {
    && (forall b: byte :: [b] in dict && dict[[b]] == b)
    && (forall k :: 0 <= k < |table| ==> table[k] in dict && dict[table[k]] == FIRST_FREE + k)
    && (forall k :: 0 <= k < |table| ==> 2 <= |table[k]|)
    && (forall w :: w in dict ==> |w| == 1 || w in table)
  }

  lemma InitialDict()
    ensures DictOf(SingleBytes(256), [])
  {
  }

  lemma DictExtend(dict: Dict, table: seq<Word>, w: Word)
    requires DictOf(dict, table) && w !in dict && 2 <= |w|
    ensures DictOf(dict[w := FIRST_FREE + |table|], table + [w])
  {
    var dict', table' := dict[w := FIRST_FREE + |table|], table + [w];
    forall k | 0 <= k < |table'| ensures table'[k] in dict' && dict'[table'[k]] == FIRST_FREE + k {
      if k < |table| {
        assert table'[k] == table[k];
      }
    }
  }

  /** A word of the dictionary is a single byte or a table word, under the code it has there. */
  lemma DictCode(dict: Dict, table: seq<Word>, w: Word)
    requires DictOf(dict, table) && w in dict
    ensures w != []
    ensures var code := CodeOf(dict, w);
            if |w| == 1 then code == w[0]
            else FIRST_FREE <= code < FIRST_FREE + |table| && table[code - FIRST_FREE] == w
  {
    if |w| == 1 {
      assert w == [w[0]];
    } else {
      var k :| 0 <= k < |table| && table[k] == w;
    }
  }

  lemma SingleInDict(dict: Dict, table: seq<Word>, b: byte)
    requires DictOf(dict, table)
    ensures [b] in dict
  {
  }

  // ---------------------------------------------------------------- one code

  /** The encoder's table is what the decoder's will be with the first byte of the phrase, but for
      the entry of the CLEAR code. */
  ghost predicate InStep(table: seq<Word>, d: Decoder, phrase: Word, maxBits: nat) {
    && phrase != []
    && (d.prev == [] ==> |d.table| == 1)
    && |d.table| <= Pow2(maxBits) - 256
    && var all := Upcoming(d, phrase[0], maxBits);
       all != [] && table == all[1..]
  }

  /** The decoder understands the code of the phrase, including one it is only just defining. */
  lemma PhraseDecodes(dict: Dict, table: seq<Word>, d: Decoder, phrase: Word, maxBits: nat)
    requires DictOf(dict, table) && phrase in dict && InStep(table, d, phrase, maxBits)
    ensures var code := CodeOf(dict, phrase);
            && code != CLEAR_CODE && code <= 256 + |d.table| && (code < 256 || code < FIRST_FREE + |table|)
            && WordOf(d, code) == Some(phrase)
            && DecodeStep(d, code, maxBits) == Some(Decoder(Upcoming(d, phrase[0], maxBits), phrase, d.out + phrase))
  {
    DictCode(dict, table, phrase);
    if |phrase| == 1 {
      assert phrase == [phrase[0]];
    } else {
      var k := CodeOf(dict, phrase) - FIRST_FREE;
      var all := Upcoming(d, phrase[0], maxBits);
      assert table[k] == all[k + 1];
      if k + 1 == |d.table| {
        assert phrase == d.prev + [phrase[0]];
        assert phrase[0] == d.prev[0];
      }
    }
  }

  /** After a code, the encoder's new entry is the one the decoder now waits to complete. */
  lemma NextInStep(table: seq<Word>, d: Decoder, phrase: Word, value: byte, maxBits: nat, d': Decoder)
    requires InStep(table, d, phrase, maxBits) && d' == Decoder(Upcoming(d, phrase[0], maxBits), phrase, d.out + phrase)
    ensures var table' := if FIRST_FREE + |table| < Pow2(maxBits) then table + [phrase + [value]] else table;
            InStep(table', d', [value], maxBits)
  {
  }

  // ---------------------------------------------------------------- widths

  /** The width is the least that leaves room for the next code. */
  ghost predicate WidthFits(n: nat, width: nat, maxBits: nat) {
    9 <= width <= maxBits && (width == maxBits || n < Pow2(width) - 256)
  }

  lemma WidthKeepsUp(n: nat, n': nat, width: nat, maxBits: nat)
    requires WidthFits(n, width, maxBits) && n <= n' <= n + 1
    ensures WidthFits(n', NextWidth(n', width, maxBits), maxBits)
  {
    assert Pow2(width + 1) == 2 * Pow2(width);
    LargePower(width);
  }

  lemma LargePower(k: nat)
    requires 9 <= k
    ensures 512 <= Pow2(k) && (10 <= k ==> 1024 <= Pow2(k))
  {
    ByteRange();
    assert Pow2(10) == 4 * Pow2(8);
    Pow2Grows(9, k);
    if 10 <= k {
      Pow2Grows(10, k);
    }
  }

  // ---------------------------------------------------------------- the coding loop

  predicate WasCleared(c: Coder, o: Settings) {
    o.clearAfter.Some? && c.pendingClear.None?
  }

  /** The encoder's counters against the decoder's.  Before a CLEAR they are equal.  Behind it the
      decoder has entered one word more, which shows in the width after the 256th code. */
  ghost predicate Paced(c: Coder, r: Reader, o: Settings)
    requires 9 <= o.maxBits
  {
    var n := |r.d.table|;
    if !WasCleared(c, o) then
      c.decoderFree == n && (c.dataCodes > 0 <==> r.d.prev != []) && WidthFits(n, c.width, o.maxBits)
        && r.width == c.width
    else
      && r.d.prev != [] && c.width == 9 && n == Min(c.dataCodes, Pow2(o.maxBits) - 256)
      && if o.maxBits == 9 then r.width == 9
         else c.dataCodes <= 256 && c.decoderFree == Max(c.dataCodes - 1, 0) && r.width == if n == 256 then 10 else 9
  }

  /** The next code is read with the width it is written with. */
  predicate SameWidths(c: Coder, o: Settings) {
    WasCleared(c, o) && o.maxBits != 9 ==> c.dataCodes < 256
  }

  /** The records so far drive the decoder to everything before the phrase. */
  ghost predicate Coding(read: seq<byte>, c: Coder, table: seq<Word>, r: Reader, o: Settings) {
    && 9 <= o.maxBits && (c.pendingClear.None? || c.pendingClear == o.clearAfter)
    && DictOf(c.dictionary, table) && c.phrase in c.dictionary
    && c.nextCode == FIRST_FREE + |table| <= Pow2(o.maxBits)
    && InStep(table, r.d, c.phrase, o.maxBits)
    && r.d.out + c.phrase == read
    && Drives(c.records, Opening(true), Params(o.maxBits, true), r) && Writable(c.records)
    && Paced(c, r, o)
  }

  lemma CodingStarts(first: byte, o: Settings)
    requires 9 <= o.maxBits && o.block
    ensures Coding([first], Started(first, o), [], Opening(true), o)
  {
    hide SingleBytes, DictOf;
    InitialDict();
    SingleInDict(SingleBytes(256), [], first);
    LargePower(o.maxBits);
    assert Pow2(9) == 512;
    hide Pow2;
  }

  lemma CodingLonger(read: seq<byte>, c: Coder, table: seq<Word>, r: Reader, o: Settings, value: byte)
    requires Coding(read, c, table, r, o) && c.phrase + [value] in c.dictionary
    ensures Coding(read + [value], c.(phrase := c.phrase + [value]), table, r, o)
  {
    hide DictOf, Pow2, Drives, Writable;
    assert r.d.out + (c.phrase + [value]) == read + [value];
  }

  /** What the decoder makes of the code of the phrase. */
  ghost function Decoded(d: Decoder, phrase: Word, maxBits: nat): Decoder
    requires phrase != []
  {
    Decoder(Upcoming(d, phrase[0], maxBits), phrase, d.out + phrase)
  }

  lemma UpcomingCount(d: Decoder, first: byte, maxBits: nat)
    ensures |Upcoming(d, first, maxBits)|
         == |d.table| + if d.prev != [] && |d.table| < Pow2(maxBits) - 256 then 1 else 0
  {
  }

  lemma PacedRecords(c: Coder, r: Reader, o: Settings, d': Decoder, first: byte)
    requires 9 <= o.maxBits && Paced(c, r, o) && SameWidths(c, o) && |r.d.table| <= Pow2(o.maxBits) - 256
    requires d'.table == Upcoming(r.d, first, o.maxBits) && d'.prev != []
    ensures r.width == c.width
    ensures var width := NextWidth(|d'.table|, r.width, o.maxBits);
            Paced(Recorded(c, o.maxBits), Reader(d', width, width != r.width), o)
  {
    UpcomingCount(r.d, first, o.maxBits);
    LargePower(o.maxBits);
    if WasCleared(c, o) {
      assert Pow2(9) == 512;
    } else {
      WidthKeepsUp(|r.d.table|, |d'.table|, c.width, o.maxBits);
    }
    hide Pow2, Upcoming;
  }

  lemma CodeFits(code: nat, table: seq<Word>, c: Coder, r: Reader, o: Settings)
    requires 9 <= o.maxBits && Paced(c, r, o) && SameWidths(c, o) && FIRST_FREE + |table| <= Pow2(o.maxBits)
    requires code <= 256 + |r.d.table| && (code < 256 || code < FIRST_FREE + |table|)
    ensures 0 < c.width && code < Pow2(c.width)
  {
    LargePower(c.width);
    assert Pow2(9) == 512;
    hide Pow2;
  }

  lemma WritableMore(rs: seq<Record>, x: Record)
    requires Writable(rs) && 0 < x.width && x.code < Pow2(x.width)
    ensures Writable(rs + [x])
  {
  }

  /** Recording the code of the phrase keeps the two in step. */
  lemma CodingRecords(read: seq<byte>, c: Coder, table: seq<Word>, r: Reader, o: Settings) returns (r': Reader)
    requires Coding(read, c, table, r, o) && SameWidths(c, o)
    ensures var c' := Recorded(c, o.maxBits);
            && Drives(c'.records, Opening(true), Params(o.maxBits, true), r')
            && Writable(c'.records) && Paced(c', r', o)
    ensures c.phrase != [] && r'.d == Decoded(r.d, c.phrase, o.maxBits) && r'.d.out == read && 0 < r'.width
  {
    hide DictOf, Pow2, Drives, Writable, Upcoming, DecodeStep, NextWidth, Paced;
    var code, p := CodeOf(c.dictionary, c.phrase), Params(o.maxBits, true);
    PhraseDecodes(c.dictionary, table, r.d, c.phrase, o.maxBits);
    var d := Decoded(r.d, c.phrase, o.maxBits);
    PacedRecords(c, r, o, d, c.phrase[0]);
    CodeFits(code, table, c, r, o);
    var width := NextWidth(|d.table|, r.width, o.maxBits);
    r' := Reader(d, width, width != r.width);
    DrivesAppend(c.records, Record(code, c.width, false), Opening(true), p, r, r');
    WritableMore(c.records, Record(code, c.width, false));
    PositiveWidth(|d.table|, r.width, o.maxBits);
  }

  lemma PositiveWidth(n: nat, width: nat, maxBits: nat)
    ensures width <= NextWidth(n, width, maxBits)
  {
  }

  /** After the new entry and a CLEAR that is due, the two are in step again. */
  lemma CodingRestarts(read: seq<byte>, c: Coder, table: seq<Word>, r: Reader, o: Settings, value: byte)
    returns (table': seq<Word>, r': Reader)
    requires Coding(read, c, table, r, o) && SameWidths(c, o) && c.phrase + [value] !in c.dictionary
    ensures Coding(read + [value], Feed(c, value, o.maxBits), table', r', o)
  {
    hide DictOf, Pow2, Drives, Writable, Upcoming, Paced, InStep, SingleBytes;
    r' := CodingRecords(read, c, table, r, o);
    table' := if c.nextCode < Pow2(o.maxBits) then table + [c.phrase + [value]] else table;
    NextInStep(table, r.d, c.phrase, value, o.maxBits, r'.d);
    if c.nextCode < Pow2(o.maxBits) {
      DictExtend(c.dictionary, table, c.phrase + [value]);
    }
    var learned := Learned(Recorded(c, o.maxBits), c.phrase + [value], o.maxBits);
    SingleInDict(learned.dictionary, table', value);
    PacedLearned(Recorded(c, o.maxBits), learned, value, r', o);
    assert Coding(read + [value], learned.(phrase := [value]), table', r', o);
    if ClearDue(learned) {
      table', r' := CodingClears(read, learned, value, table', r', o);
    }
  }

  lemma PacedLearned(c: Coder, learned: Coder, value: byte, r: Reader, o: Settings)
    requires 9 <= o.maxBits && Paced(c, r, o)
    requires learned == c.(dictionary := learned.dictionary, nextCode := learned.nextCode)
    ensures Paced(learned.(phrase := [value]), r, o)
  {
    hide Pow2;
  }

  /** CLEAR empties both tables. */
  lemma CodingClears(read: seq<byte>, c: Coder, value: byte, table: seq<Word>, r: Reader, o: Settings)
    returns (table': seq<Word>, r': Reader)
    requires Coding(read + [value], c.(phrase := [value]), table, r, o) && ClearDue(c) && r.d.prev != []
      && r.d.out == read
    ensures Coding(read + [value], Cleared(c).(phrase := [value]), table', r', o)
  {
    hide Drives, Writable, SingleBytes, DictOf;
    InitialDict();
    LargePower(o.maxBits);
    LargePower(c.width);
    var p := Params(o.maxBits, true);
    table', r' := [], Reader(Decoder([], [0], read), 9, true);
    DrivesAppend(c.records, Record(CLEAR_CODE, c.width, true), Opening(true), p, r, r');
    WritableMore(c.records, Record(CLEAR_CODE, c.width, true));
    SingleInDict(SingleBytes(256), [], value);
    hide Pow2;
  }

  lemma {:induction false} CodingFollows(data: seq<byte>, o: Settings) returns (table: seq<Word>, r: Reader)
    requires data != [] && 9 <= o.maxBits && o.block
    requires WasCleared(Coded(data, o), o) && o.maxBits != 9 ==> Coded(data, o).dataCodes <= 256
    ensures Coding(data, Coded(data, o), table, r, o)
  {
    hide Coding, Feed, Started, WasCleared;
    if |data| == 1 {
      table, r := [], Opening(true);
      CodingStarts(data[0], o);
      assert data == [data[0]];
    } else {
      var read, value := data[..|data| - 1], data[|data| - 1];
      var c := Coded(read, o);
      assert data == read + [value];
      FeedCounts(c, value, o);
      table, r := CodingFollows(read, o);
      if c.phrase + [value] in c.dictionary {
        CodingLonger(read, c, table, r, o, value);
        LongerPhrase(c, value, o.maxBits);
      } else {
        table, r := CodingRestarts(read, c, table, r, o, value);
      }
    }
  }

  /** Behind the CLEAR the codes are only counted up. */
  lemma FeedCounts(c: Coder, value: byte, o: Settings)
    requires 0 <= o.maxBits
    ensures var c' := Feed(c, value, o.maxBits);
            WasCleared(c, o) ==>
              WasCleared(c', o) && c'.dataCodes == c.dataCodes + (if c.phrase + [value] in c.dictionary then 0 else 1)
  {
    hide Pow2, NextWidth;
  }

  // ---------------------------------------------------------------- widths along the records

  /** Widths start at nine and never fall. */
  ghost predicate WidthsRise(rs: seq<Record>, width: nat) {
    && (forall i :: 0 <= i < |rs| ==> 9 <= rs[i].width <= width)
    && (forall i, j :: 0 <= i <= j < |rs| ==> rs[i].width <= rs[j].width)
  }

  lemma RiseMore(rs: seq<Record>, x: Record, width: nat)
    requires WidthsRise(rs, x.width) && 9 <= x.width <= width
    ensures WidthsRise(rs + [x], width)
  {
  }

  /** Without a CLEAR each round records with the current width, which only rises. */
  lemma {:induction false} CodedRises(data: seq<byte>, o: Settings)
    requires data != [] && 9 <= o.maxBits && o.clearAfter.None?
    ensures var c := Coded(data, o);
            c.pendingClear.None? && 9 <= c.width <= o.maxBits && WidthsRise(c.records, c.width)
  {
    hide WidthsRise, Feed;
    if |data| == 1 {
      NoneRise();
    } else {
      CodedRises(data[..|data| - 1], o);
      FedRises(Coded(data[..|data| - 1], o), data[|data| - 1], o);
    }
  }

  lemma NoneRise()
    ensures WidthsRise([], 9)
  {
  }

  lemma FedRises(c: Coder, value: byte, o: Settings)
    requires c.pendingClear.None? && 9 <= c.width <= o.maxBits && WidthsRise(c.records, c.width)
    ensures var c' := Feed(c, value, o.maxBits);
            c'.pendingClear.None? && 9 <= c'.width <= o.maxBits && WidthsRise(c'.records, c'.width)
  {
    hide WidthsRise, Pow2;
    RiseMore(c.records, Record(CodeOf(c.dictionary, c.phrase), c.width, false), Recorded(c, o.maxBits).width);
  }

  /** In either mode, without a CLEAR, the recorded widths start at nine, never fall and never exceed
      the maximum. */
  lemma RecordsRise(data: seq<byte>, o: Settings)
    requires data != [] && 9 <= o.maxBits && o.clearAfter.None?
    ensures RecordsOf(data, o)[0].width == 9 && WidthsRise(RecordsOf(data, o), o.maxBits)
  {
    CodedRises(data, o);
    FirstNine(data, o);
    hide Coded, WidthsRise, NextWidth;
    var c := Coded(data, o);
    RiseMore(c.records, Record(CodeOf(c.dictionary, c.phrase), c.width, false), o.maxBits);
  }

  /** The first code of all has nine bits. */
  lemma {:induction false} FirstNine(data: seq<byte>, o: Settings)
    requires data != [] && 0 <= o.maxBits
    ensures var c := Coded(data, o); if c.records == [] then c.width == 9 else c.records[0].width == 9
  {
    if 1 < |data| {
      FirstNine(data[..|data| - 1], o);
      hide Pow2, NextWidth;
    }
  }
}
