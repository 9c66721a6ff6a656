/** Data that survives a CLEAR although more than 257 codes follow it: runs of zeros can hide what the
    decoder misreads, so `BlockLimit` cannot drop its condition on them. */
module LzwAccident {
  import opened Ints
  import opened Options
  import opened CodeStream
  import opened BlockPacking
  import opened Lzw
  import opened LzwEncoder
  import opened LzwLockstep
  import opened LzwClear
  import opened LzwNonBlock
  import opened LzwLimits

  predicate ClearsFirst(o: Settings) {
    Accepted(o) && o.clearAfter == Some(1) && o.maxBits != 9
  }

  // ---------------------------------------------------------------- the encoder on runs of zeros

  /** Behind the CLEAR the runs of up to j zeros have codes, longer ones have none. */
  ghost predicate Runs(c: Coder, j: nat, o: Settings) {
    && WasCleared(c, o) && c.nextCode == 506 + j && c.dataCodes == 249 + j
    && (forall i :: 1 <= i <= j ==> ZeroBytes(i) in c.dictionary)
    && (forall i :: j < i ==> ZeroBytes(i) !in c.dictionary)
    && [0, 1] in c.dictionary && [0, 1, 0] !in c.dictionary
    && (7 <= j ==> CodeOf(c.dictionary, ZeroBytes(7)) == 512)
  }

  lemma OneZeroByte()
    ensures ZeroBytes(1) == [0]
  {
  }

  lemma ZeroMore(i: nat)
    ensures ZeroBytes(i) + [0] == ZeroBytes(i + 1)
  {
  }

  /** Zeros that continue a known run only lengthen the phrase. */
  lemma RunGrows(read: seq<byte>, n: nat, o: Settings)
    requires 0 <= o.maxBits && read != [] && Coded(read, o).phrase == [0]
    requires forall i :: 1 <= i <= n + 1 ==> ZeroBytes(i) in Coded(read, o).dictionary
    ensures Coded(read + ZeroBytes(n), o) == Coded(read, o).(phrase := ZeroBytes(n + 1))
  {
    hide Coded;
    var w := ZeroBytes(n + 1);
    forall k | 1 <= k <= n + 1 ensures w[..k] == ZeroBytes(k) {
    }
    OneZeroByte();
    assert w[1..] == ZeroBytes(n) && w[..n + 1] == w;
    PhraseGrows(read, w, n + 1, o);
  }

  lemma RunsAnyPhrase(c: Coder, w: Word, j: nat, o: Settings)
    requires Runs(c, j, o)
    ensures Runs(c.(phrase := w), j, o)
    ensures forall i :: 1 <= i <= j ==> ZeroBytes(i) in c.dictionary
  {
  }

  /** One zero more is a new entry. */
  lemma RunEnters(read: seq<byte>, j: nat, o: Settings)
    requires ClearsFirst(o) && read != [] && Runs(Coded(read, o), j, o) && Coded(read, o).phrase == [0] && 1 <= j <= 6
    ensures Coded(read + ZeroBytes(j), o).phrase == [0] && Runs(Coded(read + ZeroBytes(j), o), j + 1, o)
  {
    hide Coded, Feed, Runs;
    var c := Coded(read, o);
    RunsAnyPhrase(c, ZeroBytes(j), j, o);
    RunGrows(read, j - 1, o);
    ZeroMore(j - 1);
    assert read + ZeroBytes(j) == (read + ZeroBytes(j - 1)) + [0];
    CodedMore(read + ZeroBytes(j), read + ZeroBytes(j - 1), 0, o);
    RunLearns(c.(phrase := ZeroBytes(j)), j, o);
  }

  lemma RunLearns(c: Coder, j: nat, o: Settings)
    requires ClearsFirst(o) && Runs(c, j, o) && c.phrase == ZeroBytes(j) && 1 <= j <= 6
    ensures Feed(c, 0, o.maxBits).phrase == [0] && Runs(Feed(c, 0, o.maxBits), j + 1, o)
  {
    ZeroMore(j);
    LargePower(o.maxBits);
    hide Pow2, NextWidth;
    var d := Feed(c, 0, o.maxBits).dictionary;
    assert d == c.dictionary[ZeroBytes(j + 1) := 506 + j];
    assert |ZeroBytes(j + 1)| == j + 1;
    forall i | j + 1 < i ensures ZeroBytes(i) !in d {
      assert |ZeroBytes(i)| == i;
    }
    forall i | 1 <= i <= j + 1 ensures ZeroBytes(i) in d {
    }
    assert ZeroBytes(j + 1) != [0, 1] && ZeroBytes(j + 1) != [0, 1, 0] by {
      assert ZeroBytes(j + 1)[1] == 0;
    }
  }

  /** From the run of one zero to that of seven. */
  lemma {:induction false} RunsTo(read: seq<byte>, j: nat, o: Settings) returns (more: seq<byte>)
    requires ClearsFirst(o) && read != [] && Runs(Coded(read, o), j, o) && Coded(read, o).phrase == [0] && 1 <= j <= 7
    ensures Coded(read + more, o).phrase == [0] && Runs(Coded(read + more, o), 7, o)
    decreases 7 - j
  {
    hide Runs, Coded;
    if j == 7 {
      more := [];
      assert read + [] == read;
    } else {
      RunEnters(read, j, o);
      more := RunsTo(read + ZeroBytes(j), j + 1, o);
      assert (read + ZeroBytes(j)) + more == read + (ZeroBytes(j) + more);
      more := ZeroBytes(j) + more;
    }
  }

  // ---------------------------------------------------------------- what comes first

  /** 9, 0, 1, 2, 1, 3, 1, 4, ...: one code before the CLEAR and 250 behind it, no pair twice. */
  function Opener(): (data: seq<byte>)
    ensures |data| == 251
  {
    [9, 0] + Alternating(249)
  }

  lemma OpenerDistinct()
    ensures AllDistinct(Opener()) && Opener()[250] == 1 && Pair(Opener(), 1) == [0, 1]
    ensures Pair(Opener(), 0)[0] == 9 && forall j :: 1 <= j < 250 ==> Pair(Opener(), j)[1] != 0
  {
    var data := Opener();
    forall i, j | 0 <= j < i < 250 ensures Pair(data, i) != Pair(data, j) {
      assert Pair(data, i) == [data[i], data[i + 1]] && Pair(data, j) == [data[j], data[j + 1]];
    }
  }

  /** Where no pair repeats, all pairs behind the first one get an entry. */
  lemma {:induction false} PairsEntered(data: seq<byte>, o: Settings)
    requires ClearsFirst(o) && 2 <= |data| <= 700 && AllDistinct(data)
    ensures Coded(data, o).nextCode == FIRST_FREE + |data| - 2
    ensures forall j :: 1 <= j < |data| - 1 ==> Pair(data, j) in Coded(data, o).dictionary
  {
    hide Feed, AllDistinct, OnlyPairs, Pow2;
    var read, value := data[..|data| - 1], data[|data| - 1];
    var c := Coded(read, o);
    ShorterDistinct(data);
    CodesBehindClear(read, o);
    assert data == read + [value];
    FedPair(c, read, value, o);
    if 2 < |data| {
      PairsEntered(read, o);
      PairEntered(c, value, o);
      forall j | 1 <= j < |data| - 1 ensures Pair(data, j) in Coded(data, o).dictionary {
        if j < |read| - 1 {
          assert Pair(read, j) == Pair(data, j);
        } else {
          assert Pair(data, j) == c.phrase + [value];
        }
      }
    } else {
      FirstCleared(c, value, o);
    }
  }

  lemma PairEntered(c: Coder, value: byte, o: Settings)
    requires 10 <= o.maxBits && c.pendingClear.None? && c.nextCode < 1024 && c.phrase + [value] !in c.dictionary
    ensures var c' := Feed(c, value, o.maxBits);
            && c'.nextCode == c.nextCode + 1 && c'.dataCodes == c.dataCodes + 1 && c'.pendingClear.None?
            && c'.dictionary == c.dictionary[c.phrase + [value] := c.nextCode]
  {
    LargePower(o.maxBits);
    hide Pow2, NextWidth;
  }

  lemma FirstCleared(c: Coder, value: byte, o: Settings)
    requires 0 <= o.maxBits && c.pendingClear == Some(1) && c.emitted == 0 && c.phrase + [value] !in c.dictionary
    ensures Feed(c, value, o.maxBits).nextCode == FIRST_FREE
  {
    hide Pow2, NextWidth;
  }

  /** The opener and one zero: from here on runs of zeros are counted. */
  lemma RunsStart(o: Settings)
    requires ClearsFirst(o)
    ensures Coded(Opener() + [0], o).phrase == [0] && Runs(Coded(Opener() + [0], o), 1, o)
  {
    var data := Opener();
    var c := Coded(data, o);
    hide Coded, Feed, Opener, AllDistinct, Runs, OnlyPairs, Pow2;
    OpenerDistinct();
    CodesBehindClear(data, o);
    PairsEntered(data, o);
    assert Pair(data, 1) in c.dictionary;
    var table, r := CodingFollows(data, o);
    ZeroInDict(data, c, table, r, o);
    CodedMore(data + [0], data, 0, o);
    FirstRun(c, data, o);
  }

  lemma ZeroInDict(read: seq<byte>, c: Coder, table: seq<Word>, r: Reader, o: Settings)
    requires Coding(read, c, table, r, o)
    ensures [0] in c.dictionary
  {
    SingleInDict(c.dictionary, table, 0);
  }

  lemma FirstRun(c: Coder, data: seq<byte>, o: Settings)
    requires ClearsFirst(o) && WasCleared(c, o) && c.dataCodes == 249 && c.nextCode == 506 && c.phrase == [1]
    requires |data| == 251 && OnlyPairs(c.dictionary, data) && [0] in c.dictionary && [0, 1] in c.dictionary
    requires (forall j :: 1 <= j < 250 ==> Pair(data, j)[1] != 0) && Pair(data, 0)[0] == 9
    ensures Feed(c, 0, o.maxBits).phrase == [0] && Runs(Feed(c, 0, o.maxBits), 1, o)
  {
    forall w | w in c.dictionary && |w| != 1 ensures |w| == 2 && (w[1] == 0 ==> w[0] == 9) {
      var j :| 0 <= j < 250 && Pair(data, j) == w;
    }
    hide OnlyPairs, Feed;
    assert [1, 0] !in c.dictionary;
    PairEntered(c, 0, o);
    NewPhrase(c, 0, o.maxBits);
    OneZeroByte();
    var d := Feed(c, 0, o.maxBits).dictionary;
    forall i | 1 < i ensures ZeroBytes(i) !in d {
      assert |ZeroBytes(i)| == i && ZeroBytes(i)[0] == 0 && ZeroBytes(i)[1] == 0;
    }
  }

  // ---------------------------------------------------------------- the two last codes

  /** The 257th code is that of 0, 1 and the last one that of seven zeros, which is 512. */
  lemma LastCodes(o: Settings) returns (read: seq<byte>, x: Record)
    requires ClearsFirst(o)
    ensures EdgeReached(read, o) && x == Record(CodeOf(Coded(read, o).dictionary, Coded(read, o).phrase), 9, false)
    ensures RecordsOf(read + ZeroBytes(7), o) == Coded(read, o).records + [x] + [Record(512, 10, false)]
    ensures WidensLate(read + ZeroBytes(7), o)
  {
    hide Coded, Feed, Opener, Runs, NextWidth, Pow2;
    RunsStart(o);
    var more := RunsTo(Opener() + [0], 1, o);
    var read2 := Opener() + [0] + more;
    var c := Coded(read2, o);
    RunsAre(c, o);
    read := read2 + [1];
    CodedMore(read, read2, 1, o);
    assert [0] + [1] == [0, 1] && [0, 1] + [0] == [0, 1, 0];
    LongerPhrase(c, 1, o.maxBits);
    EdgeCounts(read, o);
    WidthAtEdge(read, o);
    var d := Coded(read, o);
    x := Record(CodeOf(d.dictionary, d.phrase), 9, false);
    var next := read + [0];
    CodedMore(next, read, 0, o);
    Widened(d, o);
    var e := Coded(next, o);
    forall i | 1 <= i <= 7 ensures ZeroBytes(i) in e.dictionary {
      RunsKnown(c, i, o);
    }
    RunGrows(next, 6, o);
    SevenZeros();
    assert read + ZeroBytes(7) == next + ZeroBytes(6);
    assert CodeOf(e.dictionary, ZeroBytes(7)) == 512;
  }

  lemma SevenZeros()
    ensures [0] + ZeroBytes(6) == ZeroBytes(7) && ZeroBytes(7) != [0, 1, 0]
  {
    assert |ZeroBytes(7)| == 7;
  }

  lemma RunsAre(c: Coder, o: Settings)
    requires Runs(c, 7, o)
    ensures WasCleared(c, o) && c.nextCode == 513 && c.dataCodes == 256
    ensures [0, 1] in c.dictionary && [0, 1, 0] !in c.dictionary
    ensures ZeroBytes(7) in c.dictionary && c.dictionary[ZeroBytes(7)] == 512
  {
  }

  lemma RunsKnown(c: Coder, i: nat, o: Settings)
    requires Runs(c, 7, o) && 1 <= i <= 7
    ensures ZeroBytes(i) in c.dictionary
  {
  }

  lemma WidthAtEdge(read: seq<byte>, o: Settings)
    requires EdgeReached(read, o)
    ensures Coded(read, o).width == 9 && Coded(read, o).pendingClear.None?
  {
    hide Coded, Coding;
    var table, r := CodingFollows(read, o);
    StillNine(read, Coded(read, o), table, r, o);
  }

  lemma Widened(d: Coder, o: Settings)
    requires ClearsFirst(o) && d.width == 9 && d.decoderFree == 255 && d.dataCodes == 256 && d.pendingClear.None?
    requires d.nextCode == 513 && d.phrase + [0] !in d.dictionary
    ensures var e := Feed(d, 0, o.maxBits);
            && e.records == d.records + [Record(CodeOf(d.dictionary, d.phrase), 9, false)] && e.width == 10
            && e.phrase == [0] && e.dataCodes == 257 && e.pendingClear.None?
            && e.dictionary == d.dictionary[d.phrase + [0] := 513]
  {
    LargePowers();
    LargePower(o.maxBits);
    hide Pow2;
  }

  // ---------------------------------------------------------------- the decoder

  lemma LastTwoCodes(rs: seq<Record>, body: seq<byte>, code: nat)
    requires PutAll(FRESH, rs) == Writer(body, 9, 0, 0)
    ensures PackedBytes(rs + [Record(code, 9, false)] + [Record(512, 10, false)]) == body + (LowBytes(code, 9) + [0, 2])
  {
    hide PutAll, Put, LowBytes;
    var x, y := Record(code, 9, false), Record(512, 10, false);
    PutAllMore(rs, x);
    PutAllMore(rs + [x], y);
    FirstInBlock(code);
    FirstInBlock(512);
    WidthChanges(PutAll(FRESH, rs), x, y);
    LowTwo();
    assert body + LowBytes(code, 9) + [0, 2] == body + (LowBytes(code, 9) + [0, 2]);
  }

  lemma LowTwo()
    ensures LowBytes(512, 2) == [0, 2]
  {
    assert LowBytes(2, 1) == [2] + LowBytes(0, 0);
  }

  /** Ten bytes that start with a code of nine bits alone and end in a zero are read as the code and
      seven zeros. */
  lemma ReadsSeven(code: nat, p: Place) returns (q: Place)
    requires code < 1024
    requires Fetched(10, p.stale || 10 != p.width, p.u) == Unread(BytesValue(LowBytes(code, 9) + [0]), 80, [2])
    ensures Reads(p, [Record(code, 10, false)] + Zeros(7), q) && q.u.rest == [2] && q.u.bits == 0
  {
    hide Reads, Fetched, LowBytes, BytesValue, PackedValue, Pow2, FitWidth;
    var rs := [Record(code, 10, false)] + Zeros(7);
    SevenFit(code);
    WideValue(code, 0);
    ReadsInBlock(rs, 10, 0, 80, [2]);
    q := Place(Unread(0, 0, [2]), 10, false);
    FetchedReads(p, Unread(code, 80, [2]), rs, q);
  }

  lemma SevenFit(code: nat)
    requires code < 1024
    ensures var rs := [Record(code, 10, false)] + Zeros(7);
            FitWidth(rs, 10) && PackedValue(rs, 10) == code && |rs| * 10 == 80
  {
    var rs := [Record(code, 10, false)] + Zeros(7);
    LargePowers();
    assert rs[1..] == Zeros(7);
    ZerosPacked(7);
    hide Pow2;
  }

  lemma ReadsHidden(e: Edge, read: seq<byte>, o: Settings, tail: seq<byte>, code: nat)
    requires AtEdge(e, read, o, tail) && 10 <= o.maxBits && e.r.width == 10 && At(e.r, e.q)
    requires code == CodeOf(e.c.dictionary, e.c.phrase) < 1024 && tail == LowBytes(code, 9) + [0, 2]
    ensures Decode(e.q.u, e.r, Params(o.maxBits, true)) == read + ZeroBytes(7)
  {
    hide AtEdge, Reads, Drives, Decode, LowBytes, BytesValue, NextCode, Fetched, StepReader;
    var p := Params(o.maxBits, true);
    var r := EdgeStep(e, read, o, tail);
    EdgeFetches(e, read, o, tail);
    assert tail[..10] == LowBytes(code, 9) + [0] && tail[10..] == [2];
    var q := ReadsSeven(code, e.q);
    var r' := ZerosDrive(7, r, p);
    FirstDrives(Record(code, 10, false), Zeros(7), e.r, p, r, r');
    DrivesDecodes(e.q, [Record(code, 10, false)] + Zeros(7), q, e.r, p, r');
    TooShort(q.u, r', p);
  }

  lemma TooShort(u: Unread, r: Reader, p: Params)
    requires u.rest == [2] && u.bits == 0 && r.width == 10
    ensures Decode(u, r, p) == r.d.out
  {
    assert Fetched(10, r.stale, u).bits == 8;
    hide BytesValue;
  }

  /** With a CLEAR after the first code there is data that comes back although 258 codes follow the
      CLEAR. */
  lemma Accident(o: Settings) returns (data: seq<byte>)
    requires ClearsFirst(o)
    ensures data != [] && WidensLate(data, o) && RoundTrips(data, o)
  {
    hide Coded, PackedBytes, PutAll, Decode, RecordsOf, CompressedFile, Decompress, LowBytes, AtEdge, EdgeReached,
      WidensLate;
    var read, x := LastCodes(o);
    data := read + ZeroBytes(7);
    var tail := LowBytes(x.code, 9) + [0, 2];
    var e := ReachEdge(read, o, tail);
    LastTwoCodes(e.c.records, e.body, x.code);
    ReadsHidden(e, read, o, tail, x.code);
    FileDecodes(data, o);
  }
}
