/** Data that comes back without block mode although a pair of bytes repeats: the code of the repeated
    pair outgrows its width, is read as a zero, and the decoder catches up with the encoder 19 codes
    later.  So `NonBlockLimit` cannot drop its condition on zeros at an edge. */
module LzwEdgeAccident {
  import opened Ints
  import opened Options
  import opened CodeStream
  import opened BlockPacking
  import opened Lzw
  import opened LzwEncoder
  import opened LzwLockstep
  import opened LzwClear
  import opened LzwNonBlock
  import opened LzwLimits

  predicate WideEnough(o: Settings) {
    Accepted(o) && !o.block && 10 <= o.maxBits
  }

  // ---------------------------------------------------------------- 256 literal codes

  /** 5, 0, 5, 200, 11, 200, 12, ..., 200, 133, 2, 1, 0, 1, 2, 3, 0, 0: no pair twice. */
  function StartByte(i: nat): byte
    requires i < 257
  {
    if i < 3 then (if i == 1 then 0 else 5)
    else if i < 249 then (if i % 2 == 1 then 200 else (9 + i / 2) as byte)
    else if i < 252 then (if i == 249 then 2 else if i == 250 then 1 else 0)
    else if i < 255 then i as byte - 251
    else 0
  }

  function Start(): (read: seq<byte>)
    ensures |read| == 257 && forall i :: 0 <= i < 257 ==> read[i] == StartByte(i)
  {
    seq(257, i requires 0 <= i < 257 => StartByte(i))
  }

  lemma StartDistinct(room: int)
    ensures PairsDistinct(Start(), room)
  {
    forall i, j | 0 <= j < i < 256 ensures Pair(Start(), i) != Pair(Start(), j) {
      PairsApart(i, j);
    }
  }

  lemma PairsApart(i: nat, j: nat)
    requires j < i < 256
    ensures StartByte(i) != StartByte(j) || StartByte(i + 1) != StartByte(j + 1)
    ensures Pair(Start(), i) != Pair(Start(), j)
  {
    assert Pair(Start(), i)[0] == StartByte(i) && Pair(Start(), i)[1] == StartByte(i + 1);
    assert Pair(Start(), j)[0] == StartByte(j) && Pair(Start(), j)[1] == StartByte(j + 1);
  }

  lemma StartPairs()
    ensures Pairs(Start(), 256)[0] == [5, 0] && Pairs(Start(), 256)[249] == [2, 1]
    ensures Pairs(Start(), 256)[250] == [1, 0] && Pairs(Start(), 256)[251] == [0, 1]
    ensures Pairs(Start(), 256)[252] == [1, 2] && Pairs(Start(), 256)[253] == [2, 3]
    ensures Pairs(Start(), 256)[254] == [3, 0] && Pairs(Start(), 256)[255] == [0, 0]
    ensures Pairs(Start(), 256)[1] == [0, 5]
    ensures forall k :: 0 <= k < 255 ==> Pairs(Start(), 255)[k] == Pairs(Start(), 256)[k]
  {
  }

  lemma NoStartPair(w: Word)
    requires |w| != 2 || w == [1, 1] || w == [2, 0]
    ensures w !in Pairs(Start(), 256)
  {
    forall k | 0 <= k < 256 ensures Pairs(Start(), 256)[k] != w {
      assert Pairs(Start(), 256)[k] == [StartByte(k), StartByte(k + 1)];
    }
  }

  // ---------------------------------------------------------------- what follows

  /** The phrases of the encoder behind the literals, and their codes. */
  const PHRASES: seq<Word> := [
    [0, 0], [0, 0], [1, 0], [0, 0, 0], [0, 0], [5, 0], [0, 0, 0, 0], [3, 0], [2, 3], [1, 2], [0, 1], [1, 0],
    [1], [1, 0], [2, 1], [2], [0, 1], [0, 0, 1], [1, 1], [2, 0]]

  const CODES: seq<nat> := [
    512, 512, 507, 513, 512, 257, 516, 511, 510, 509, 508, 507, 1, 507, 506, 2, 508, 514, 525, 528]

  /** The words that it enters. */
  const ENTRIES: seq<Word> := [
    [0, 0, 0], [0, 0, 1], [1, 0, 0], [0, 0, 0, 0], [0, 0, 5], [5, 0, 0], [0, 0, 0, 0, 3], [3, 0, 2],
    [2, 3, 1], [1, 2, 0], [0, 1, 1], [1, 0, 1], [1, 1], [1, 0, 2], [2, 1, 2], [2, 0], [0, 1, 0], [0, 0, 1, 1],
    [1, 1, 2]]

  /** What the decoder takes the codes for, the first one being read as zero. */
  const MEANINGS: seq<Word> := [
    [0], [0, 0], [0, 1], [0, 0, 0], [0, 0], [0, 5], [0, 0, 0], [0, 0], [3, 0], [2, 3], [1, 2], [0, 1], [1],
    [0, 1], [1, 0], [2], [1, 2], [0, 1, 0], [0, 1, 1], [1, 2, 0]]

  /** The words that it enters. */
  const LEARNED: seq<Word> := [
    [0, 0], [0, 0], [0, 0, 0], [0, 1, 0], [0, 0, 0, 0], [0, 0, 0], [0, 5, 0], [0, 0, 0, 0], [0, 0, 3],
    [3, 0, 2], [2, 3, 1], [1, 2, 0], [0, 1, 1], [1, 0], [0, 1, 1], [1, 0, 2], [2, 1], [1, 2, 0], [0, 1, 0, 0],
    [0, 1, 1, 1]]

  /** The bytes behind the literals. */
  const TAIL: seq<byte> := [
    0, 0, 0, 0, 1, 0, 0, 0, 0, 0, 0, 5, 0, 0, 0, 0, 0, 3, 0, 2, 3, 1, 2, 0, 1, 1, 0, 1, 1, 0, 2, 1, 2, 0, 1,
    0, 0, 1, 1, 1, 2, 0]

  /** Where each phrase and each meaning starts. */
  const SPOKEN: seq<nat> := [
    0, 2, 4, 6, 9, 11, 13, 17, 19, 21, 23, 25, 27, 28, 30, 32, 33, 35, 38, 40, 42]

  const HEARD: seq<nat> := [
    0, 1, 3, 5, 8, 10, 12, 15, 17, 19, 21, 23, 25, 26, 28, 30, 31, 33, 36, 39, 42]

  function EncoderTable(i: nat): (table: seq<Word>)
    requires i <= 19
    ensures |table| == 256 + i
  {
    Pairs(Start(), 256) + ENTRIES[..i]
  }

  function DecoderTable(i: nat): (table: seq<Word>)
    requires i <= 20
    ensures |table| == 255 + i
  {
    Pairs(Start(), 255) + LEARNED[..i]
  }

  /** The word before code i. */
  function Before(i: nat): Word
    requires i <= 20
  {
    if i == 0 then [0] else MEANINGS[i - 1]
  }

  function Sent(i: nat): Record
    requires i < 20
  {
    Record(CODES[i], if i == 0 then 9 else 10, false)
  }

  function Received(i: nat): Record
    requires i < 20
  {
    if i == 0 then Record(0, 9, false) else Sent(i)
  }

  // ---------------------------------------------------------------- every code is understood

  lemma InTable(i: nat, w: Word, k: nat)
    requires i <= 19 && k < 256 + i && EncoderTable(i)[k] == w
    ensures w in EncoderTable(i)
  {
  }

  /** The phrases and what comes before their last byte are words of the table. */
  lemma PhraseKnown(i: nat, n: nat)
    requires i < 20 && 1 < n <= |PHRASES[i]|
    ensures PHRASES[i][..n] in EncoderTable(i)
  {
    StartPairs();
    hide Start, Pairs;
    if n == 2 {
      PairKnown(i);
    } else if n == 3 {
      assert i == 3 || i == 6 || i == 17;
      var k := if i == 17 then 1 else 0;
      assert PHRASES[i][..3] == ENTRIES[k];
      InTable(i, PHRASES[i][..n], 256 + k);
    } else {
      assert i == 6 && n == 4;
      assert PHRASES[6][..4] == ENTRIES[3];
      InTable(6, PHRASES[6][..4], 259);
    }
  }

  lemma PairKnown(i: nat)
    requires i < 20 && 2 <= |PHRASES[i]|
    ensures PHRASES[i][..2] in EncoderTable(i)
  {
    var w := PHRASES[i][..2];
    StartPairs();
    hide Start, Pairs;
    if i == 18 {
      assert w == ENTRIES[12];
      InTable(i, w, 268);
    } else if i == 19 {
      assert w == ENTRIES[15];
      InTable(i, w, 271);
    } else {
      var k := PairPlace(i);
      assert w == Pairs(Start(), 256)[k];
      InTable(i, w, k);
    }
  }

  /** Where the first two bytes of a phrase are a pair of the start. */
  function PairPlace(i: nat): (k: nat)
    requires i < 18
    ensures k < 256
  {
    if i == 5 then 0 else if i == 14 then 249 else if i == 2 || i == 11 || i == 13 then 250
    else if i == 10 || i == 16 then 251 else if i == 9 then 252 else if i == 8 then 253 else if i == 7 then 254 else 255
  }

  /** The new words are new. */
  lemma EntriesApart(i: nat, j: nat)
    requires j < i < 19
    ensures ENTRIES[i] != ENTRIES[j]
  {
  }

  lemma EntryNew(i: nat)
    requires i < 19
    ensures ENTRIES[i] !in EncoderTable(i) && ENTRIES[i] == PHRASES[i] + PHRASES[i + 1][..1] && 2 <= |ENTRIES[i]|
  {
    EntryShape(i);
    NoStartPair(ENTRIES[i]);
    hide Start, Pairs;
    forall j | 0 <= j < i ensures ENTRIES[i] != ENTRIES[j] {
      EntriesApart(i, j);
    }
  }

  lemma EntryShape(i: nat)
    requires i < 19
    ensures ENTRIES[i] == PHRASES[i] + PHRASES[i + 1][..1]
    ensures 2 <= |ENTRIES[i]| && (|ENTRIES[i]| != 2 || ENTRIES[i] == [1, 1] || ENTRIES[i] == [2, 0])
  {
  }

  lemma LearnedShape(i: nat)
    requires i < 20
    ensures LEARNED[i] == Before(i) + MEANINGS[i][..1] && 1 <= |MEANINGS[i]|
  {
  }

  lemma CodeKnown(i: nat)
    requires i < 20
    ensures var c, w := CODES[i], PHRASES[i];
            if |w| == 1 then c == w[0] else FIRST_FREE <= c < 513 + i && EncoderTable(i)[c - FIRST_FREE] == w
    ensures i != 0 ==> CODES[i] < 1024
  {
    StartPairs();
    hide Start, Pairs;
  }

  lemma CodeUnderstood(i: nat, out: Word)
    requires i < 20
    ensures WordOf(Decoder(DecoderTable(i), Before(i), out), Received(i).code) == Some(MEANINGS[i])
  {
    if i == 0 || i == 12 || i == 15 {
      assert MEANINGS[i] == [Received(i).code];
    } else if i == 1 {
      assert Before(1) + [Before(1)[0]] == MEANINGS[1];
    } else {
      CodeInTable(i);
    }
  }

  lemma CodeInTable(i: nat)
    requires i < 20 && i !in {0, 1, 12, 15}
    ensures 256 <= CODES[i] < 511 + i && DecoderTable(i)[CODES[i] - 256] == MEANINGS[i]
  {
    StartPairs();
    hide Start, Pairs;
  }

  // ---------------------------------------------------------------- the bytes

  /** The start without its last byte, and n bytes of the tail. */
  function Text(n: nat): (data: seq<byte>)
    requires n <= |TAIL|
    ensures |data| == 256 + n
  {
    Start()[..256] + TAIL[..n]
  }

  lemma TextMore(a: nat, b: nat)
    requires a <= b <= |TAIL|
    ensures Text(a) + TAIL[a..b] == Text(b)
  {
    assert TAIL[..a] + TAIL[a..b] == TAIL[..b];
  }

  lemma PhraseText(i: nat)
    requires i < 20
    ensures SPOKEN[i] + |PHRASES[i]| == SPOKEN[i + 1] <= |TAIL| && 1 <= |PHRASES[i]|
    ensures TAIL[SPOKEN[i]..SPOKEN[i + 1]] == PHRASES[i]
  {
    PhraseEnds(i);
    forall k | 0 <= k < |PHRASES[i]| ensures TAIL[SPOKEN[i] + k] == PHRASES[i][k] {
      PhraseByte(i, k);
    }
  }

  lemma PhraseEnds(i: nat)
    requires i < 20
    ensures SPOKEN[i] + |PHRASES[i]| == SPOKEN[i + 1] <= |TAIL| && 1 <= |PHRASES[i]| <= 4
  {
  }

  lemma PhraseByte(i: nat, k: nat)
    requires i < 20 && k < |PHRASES[i]|
    ensures SPOKEN[i] + k < |TAIL| && TAIL[SPOKEN[i] + k] == PHRASES[i][k]
  {
    PhraseEnds(i);
    if i < 10 {
      EarlyPhraseByte(i, k);
    } else {
      LatePhraseByte(i, k);
    }
  }

  lemma EarlyPhraseByte(i: nat, k: nat)
    requires i < 10 && k < |PHRASES[i]|
    ensures SPOKEN[i] + k < |TAIL| && TAIL[SPOKEN[i] + k] == PHRASES[i][k]
  {
    PhraseEnds(i);
    assert k == 0 || k == 1 || k == 2 || k == 3;
  }

  lemma LatePhraseByte(i: nat, k: nat)
    requires 10 <= i < 20 && k < |PHRASES[i]|
    ensures SPOKEN[i] + k < |TAIL| && TAIL[SPOKEN[i] + k] == PHRASES[i][k]
  {
    PhraseEnds(i);
    assert k == 0 || k == 1 || k == 2 || k == 3;
  }

  lemma MeaningText(i: nat)
    requires i < 20
    ensures HEARD[i] + |MEANINGS[i]| == HEARD[i + 1] <= |TAIL|
    ensures TAIL[HEARD[i]..HEARD[i + 1]] == MEANINGS[i]
  {
    MeaningEnds(i);
    forall k | 0 <= k < |MEANINGS[i]| ensures TAIL[HEARD[i] + k] == MEANINGS[i][k] {
      MeaningByte(i, k);
    }
  }

  lemma MeaningEnds(i: nat)
    requires i < 20
    ensures HEARD[i] + |MEANINGS[i]| == HEARD[i + 1] <= |TAIL| && |MEANINGS[i]| <= 3
  {
  }

  lemma MeaningByte(i: nat, k: nat)
    requires i < 20 && k < |MEANINGS[i]|
    ensures HEARD[i] + k < |TAIL| && TAIL[HEARD[i] + k] == MEANINGS[i][k]
  {
    MeaningEnds(i);
    if i < 10 {
      EarlyMeaningByte(i, k);
    } else {
      LateMeaningByte(i, k);
    }
  }

  lemma EarlyMeaningByte(i: nat, k: nat)
    requires i < 10 && k < |MEANINGS[i]|
    ensures HEARD[i] + k < |TAIL| && TAIL[HEARD[i] + k] == MEANINGS[i][k]
  {
    MeaningEnds(i);
    assert k == 0 || k == 1 || k == 2;
  }

  lemma LateMeaningByte(i: nat, k: nat)
    requires 10 <= i < 20 && k < |MEANINGS[i]|
    ensures HEARD[i] + k < |TAIL| && TAIL[HEARD[i] + k] == MEANINGS[i][k]
  {
    MeaningEnds(i);
    assert k == 0 || k == 1 || k == 2;
  }

  /** All bytes before phrase i. */
  function Said(i: nat): (data: seq<byte>)
    requires i <= 20
    ensures |data| == 256 + SPOKEN[i] && SPOKEN[i] <= |TAIL|
  {
    Text(SPOKEN[i])
  }

  /** The first byte of phrase i is read as well. */
  function Begun(i: nat): (data: seq<byte>)
    requires i < 20
    ensures data != []
  {
    Said(i) + PHRASES[i][..Min(1, |PHRASES[i]|)]
  }

  lemma SaidMore(i: nat)
    requires i < 20
    ensures |PHRASES[i]| != 0 && Begun(i) == Said(i) + PHRASES[i][..1] && Begun(i) + PHRASES[i][1..] == Said(i + 1)
  {
    hide Text;
    PhraseText(i);
    TextMore(SPOKEN[i], SPOKEN[i + 1]);
    assert PHRASES[i][..1] + PHRASES[i][1..] == PHRASES[i];
  }

  lemma BegunIsStart()
    ensures Begun(0) == Start()
  {
    assert TAIL[..0] == [] && PHRASES[0][..1] == [StartByte(256)];
    hide StartByte;
    assert Start() == Start()[..256] + [Start()[256]];
  }

  // ---------------------------------------------------------------- the literals

  lemma NineStays(c: Coder, value: byte, o: Settings)
    requires 0 <= o.maxBits && c.width == 9 && c.pendingClear.None? && Feed(c, value, o.maxBits).decoderFree < 256
    ensures Feed(c, value, o.maxBits).width == 9
  {
    LargePowers();
    assert Pow2(9) == 512;
    hide Pow2;
  }

  /** Up to 256 literal codes are written with nine bits, eight to a block. */
  lemma {:induction false} LiteralsAligned(data: seq<byte>, o: Settings)
    requires data != [] && |data| <= 257 && WideEnough(o) && PairsDistinct(data, Room(o.maxBits))
    ensures var c, w := Coded(data, o), PutAll(FRESH, Coded(data, o).records);
            c.width == 9 && w.width == 9 && w.bits == 9 * (c.dataCodes % 8)
  {
    hide Feed, PairsDistinct, Pow2, Put, Drives, Writable, DictOf;
    if 1 < |data| {
      var read, value := data[..|data| - 1], data[|data| - 1];
      assert data == read + [value];
      DistinctPart(read, value, Room(o.maxBits));
      LiteralsAligned(read, o);
      var r := LiteralFollows(read, o);
      var r' := LiteralFollows(data, o);
      NineStays(Coded(read, o), value, o);
      AlignedMore(Coded(read, o), value, o);
    }
  }

  // ---------------------------------------------------------------- the encoder behind the literals

  function SentAll(n: nat): (rs: seq<Record>)
    requires n <= 20
    ensures |rs| == n && forall i :: 0 <= i < n ==> rs[i] == Sent(i)
  {
    seq(n, i requires 0 <= i < n => Sent(i))
  }

  function ReceivedAll(n: nat): (rs: seq<Record>)
    requires n <= 20
    ensures |rs| == n && forall i :: 0 <= i < n ==> rs[i] == Received(i)
  {
    seq(n, i requires 0 <= i < n => Received(i))
  }

  /** The encoder has read the first byte of phrase i. */
  ghost predicate EncoderAt(i: nat, c: Coder, o: Settings)
    requires i < 20 && 0 <= o.maxBits
  {
    && c.phrase == PHRASES[i][..1] && DictOf(c.dictionary, EncoderTable(i))
    && c.nextCode == 513 + i && c.dataCodes == 256 + i && c.decoderFree == 255 + i && c.width == Sent(i).width
    && c.pendingClear.None? && c.records == Coded(Start(), o).records + SentAll(i)
  }

  /** The whole phrase is in the dictionary. */
  lemma PhraseRead(i: nat, o: Settings)
    requires i < 20 && WideEnough(o) && EncoderAt(i, Coded(Begun(i), o), o)
    ensures Said(i + 1) != [] && Coded(Said(i + 1), o) == Coded(Begun(i), o).(phrase := PHRASES[i])
    ensures CodeOf(Coded(Begun(i), o).dictionary, PHRASES[i]) == CODES[i]
  {
    hide Coded, DictOf, EncoderTable, Said, Begun;
    var read, w := Begun(i), PHRASES[i];
    var c := Coded(read, o);
    SaidMore(i);
    forall n | 1 < n <= |w| ensures w[..n] in c.dictionary {
      PhraseKnown(i, n);
      WordInDict(c.dictionary, EncoderTable(i), w[..n]);
    }
    assert w[..|w|] == w && w[1..|w|] == w[1..];
    PhraseGrows(read, w, |w|, o);
    CodeKnown(i);
    KnownCode(c.dictionary, EncoderTable(i), w, CODES[i]);
  }

  lemma WordInDict(dict: Dict, table: seq<Word>, w: Word)
    requires DictOf(dict, table) && w in table
    ensures w in dict
  {
  }

  lemma KnownCode(dict: Dict, table: seq<Word>, w: Word, code: nat)
    requires DictOf(dict, table) && w != []
    requires if |w| == 1 then code == w[0]
             else FIRST_FREE <= code < FIRST_FREE + |table| && table[code - FIRST_FREE] == w
    ensures CodeOf(dict, w) == code
  {
    if |w| == 1 {
      assert w == [w[0]];
    }
  }

  lemma NewInDict(dict: Dict, table: seq<Word>, w: Word)
    requires DictOf(dict, table) && w !in table && 2 <= |w|
    ensures w !in dict
  {
  }

  /** Code i is recorded, and its new word entered. */
  lemma CodeSent(c: Coder, i: nat, o: Settings)
    requires i < 20 && WideEnough(o) && EncoderAt(i, c, o) && CodeOf(c.dictionary, PHRASES[i]) == CODES[i]
    ensures var c' := Recorded(c.(phrase := PHRASES[i]), o.maxBits);
            && c'.records == Coded(Start(), o).records + SentAll(i + 1)
            && c'.dataCodes == 257 + i && c'.decoderFree == 256 + i && c'.width == 10
  {
    hide Coded, DictOf, EncoderTable;
    LargePower(o.maxBits);
    LargePowers();
    assert Pow2(9) == 512;
    hide Pow2;
    assert SentAll(i + 1) == SentAll(i) + [Sent(i)];
  }

  lemma EncoderStep(i: nat, o: Settings)
    requires i < 19 && WideEnough(o) && EncoderAt(i, Coded(Begun(i), o), o)
    ensures EncoderAt(i + 1, Coded(Begun(i + 1), o), o)
  {
    hide Coded, DictOf, Feed, Said, Begun, Pow2, NextWidth, Recorded;
    var c := Coded(Begun(i), o);
    PhraseRead(i, o);
    SaidMore(i + 1);
    var value := PHRASES[i + 1][0];
    assert PHRASES[i + 1][..1] == [value];
    CodedMore(Begun(i + 1), Said(i + 1), value, o);
    EntryNew(i);
    NewInDict(c.dictionary, EncoderTable(i), ENTRIES[i]);
    CodeSent(c, i, o);
    EntryEntered(c, i, o);
    TableMore(c.dictionary, i);
  }

  lemma TableMore(dict: Dict, i: nat)
    requires i < 19 && DictOf(dict, EncoderTable(i)) && ENTRIES[i] !in dict && 2 <= |ENTRIES[i]|
    ensures DictOf(dict[ENTRIES[i] := 513 + i], EncoderTable(i + 1))
  {
    hide DictOf, Start, Pairs;
    DictExtend(dict, EncoderTable(i), ENTRIES[i]);
    assert ENTRIES[..i + 1] == ENTRIES[..i] + [ENTRIES[i]];
    assert EncoderTable(i + 1) == EncoderTable(i) + [ENTRIES[i]];
  }

  lemma EntryEntered(c: Coder, i: nat, o: Settings)
    requires i < 19 && WideEnough(o) && c.nextCode == 513 + i && c.pendingClear.None?
    requires ENTRIES[i] == PHRASES[i] + PHRASES[i + 1][..1] && ENTRIES[i] !in c.dictionary && 1 <= |PHRASES[i + 1]|
    ensures var spoken := c.(phrase := PHRASES[i]);
            var c', now := Feed(spoken, PHRASES[i + 1][0], o.maxBits), Recorded(spoken, o.maxBits);
            && c'.dictionary == c.dictionary[ENTRIES[i] := 513 + i] && c'.nextCode == 514 + i
            && c'.phrase == PHRASES[i + 1][..1] && c'.pendingClear.None? && c'.records == now.records
            && c'.dataCodes == now.dataCodes && c'.decoderFree == now.decoderFree && c'.width == now.width
  {
    LargePower(o.maxBits);
    hide Pow2, NextWidth;
    assert [PHRASES[i + 1][0]] == PHRASES[i + 1][..1];
    NewPhrase(c.(phrase := PHRASES[i]), PHRASES[i + 1][0], o.maxBits);
  }

  lemma EncoderStarts(o: Settings)
    requires WideEnough(o)
    ensures EncoderAt(0, Coded(Begun(0), o), o)
  {
    hide Coded, Pow2, Drives, Writable, DictOf, PairsDistinct;
    BegunIsStart();
    StartDistinct(Room(o.maxBits));
    LargePower(o.maxBits);
    LiteralsAligned(Start(), o);
    var r := LiteralFollows(Start(), o);
    assert ENTRIES[..0] == [] && EncoderTable(0) == Pairs(Start(), 256);
    assert SentAll(0) == [];
    assert [Start()[256]] == PHRASES[0][..1];
  }

  lemma {:induction false} EncoderGoes(i: nat, o: Settings)
    requires i < 20 && WideEnough(o)
    ensures EncoderAt(i, Coded(Begun(i), o), o)
  {
    hide EncoderAt, Coded, Begun;
    if i == 0 {
      EncoderStarts(o);
    } else {
      EncoderGoes(i - 1, o);
      EncoderStep(i - 1, o);
    }
  }

  lemma AllSent(o: Settings)
    requires WideEnough(o)
    ensures Said(20) != [] && RecordsOf(Said(20), o) == Coded(Start(), o).records + SentAll(20)
  {
    hide Coded, Recorded, Said, Begun, EncoderAt;
    EncoderGoes(19, o);
    PhraseRead(19, o);
    CodeSent(Coded(Begun(19), o), 19, o);
  }

  // ---------------------------------------------------------------- the decoder behind the literals

  ghost predicate DecoderAt(i: nat, r: Reader, o: Settings)
    requires i <= 20 && 0 <= o.maxBits
  {
    && HEARD[i] <= |TAIL| && r.d == Decoder(DecoderTable(i), Before(i), Text(HEARD[i]))
    && r.width == (if i == 0 then 9 else 10)
    && Drives(Coded(Start(), o).records + ReceivedAll(i), Opening(false), Params(o.maxBits, false), r)
  }

  lemma DecoderStarts(o: Settings) returns (r: Reader)
    requires WideEnough(o)
    ensures DecoderAt(0, r, o) && Writable(Coded(Start(), o).records)
  {
    hide Coded, Pow2, Drives, Writable, DictOf, PairsDistinct;
    StartDistinct(Room(o.maxBits));
    LargePower(o.maxBits);
    LiteralsAligned(Start(), o);
    r := LiteralFollows(Start(), o);
    assert LEARNED[..0] == [] && DecoderTable(0) == Pairs(Start(), 255);
    assert Text(0) == Start()[..256];
    assert Coded(Start(), o).records + ReceivedAll(0) == Coded(Start(), o).records;
  }

  lemma Stepped(i: nat, r: Reader, o: Settings) returns (r': Reader)
    requires i < 20 && WideEnough(o) && r.d == Decoder(DecoderTable(i), Before(i), Text(HEARD[i])) && HEARD[i] <= |TAIL|
    requires r.width == (if i == 0 then 9 else 10)
    ensures HEARD[i + 1] <= |TAIL| && r'.d == Decoder(DecoderTable(i + 1), Before(i + 1), Text(HEARD[i + 1]))
    ensures StepReader(r, Received(i).code, Params(o.maxBits, false)) == Some(r') && r'.width == 10
    ensures r'.stale == (r'.width != r.width) && Received(i).width == r.width && !Received(i).reset
  {
    hide WordOf, Text;
    CodeUnderstood(i, r.d.out);
    LearnedShape(i);
    MeaningText(i);
    TextMore(HEARD[i], HEARD[i + 1]);
    LargePower(o.maxBits);
    LargePowers();
    assert Pow2(9) == 512;
    hide Pow2;
    assert LEARNED[..i + 1] == LEARNED[..i] + [LEARNED[i]];
    assert DecoderTable(i + 1) == DecoderTable(i) + [LEARNED[i]];
    assert MEANINGS[i][..1] == [MEANINGS[i][0]];
    r' := Reader(Decoder(DecoderTable(i + 1), Before(i + 1), Text(HEARD[i + 1])), 10, 10 != r.width);
  }

  lemma {:induction false} DecoderGoes(i: nat, o: Settings) returns (r: Reader)
    requires i <= 20 && WideEnough(o)
    ensures DecoderAt(i, r, o)
  {
    hide Coded, Drives, StepReader, Text, DecoderTable, Before, Received, ReceivedAll;
    if i == 0 {
      r := DecoderStarts(o);
    } else {
      var m := DecoderGoes(i - 1, o);
      r := Stepped(i - 1, m, o);
      DrivesAppend(Coded(Start(), o).records + ReceivedAll(i - 1), Received(i - 1), Opening(false),
        Params(o.maxBits, false), m, r);
      assert ReceivedAll(i) == ReceivedAll(i - 1) + [Received(i - 1)];
      assert Coded(Start(), o).records + ReceivedAll(i - 1) + [Received(i - 1)]
          == Coded(Start(), o).records + ReceivedAll(i);
    }
  }

  // ---------------------------------------------------------------- the file

  /** The records are read, the first one behind the literals as zero. */
  lemma AllReceived(o: Settings) returns (q: Place)
    requires WideEnough(o)
    ensures Reads(Begin(PackedBytes(Coded(Start(), o).records + SentAll(20))),
                  Coded(Start(), o).records + ReceivedAll(20), q) && NoMore(q)
  {
    hide Coded, Reads, NoMore, PackedBytes, PutAll, Writable, PairsDistinct, Drives, DictOf;
    var base := Coded(Start(), o).records;
    StartDistinct(Room(o.maxBits));
    LiteralsAligned(Start(), o);
    var r := LiteralFollows(Start(), o);
    var more := SentAll(20)[2..];
    SentFits();
    PowerCut(512, 9);
    q := SpilledReads(base, Sent(0), Sent(1), more);
    assert base + SentAll(20) == base + [Sent(0)] + [Sent(1)] + more;
    assert base + ReceivedAll(20) == base + [Received(0)] + [Received(1)] + more;
  }

  lemma SentFits()
    ensures Writable(SentAll(20)[2..]) && Sent(1).code < Pow2(10) && Pow2(9) == 512
  {
    LargePowers();
    assert Pow2(9) == 512;
    hide Pow2;
    forall i | 1 <= i < 20 ensures Sent(i).code < 1024 {
      CodeKnown(i);
    }
  }

  lemma RepeatedPair(data: seq<byte>, room: int, o: Settings)
    requires WideEnough(o) && room == Room(o.maxBits) && data == Said(20)
    ensures !PairsDistinct(data, room)
  {
    LargePower(o.maxBits);
    hide Pow2;
    assert data[255] == StartByte(255) && data[256] == TAIL[0] && data[257] == TAIL[1];
    assert Pair(data, 255) == Pair(data, 256);
  }

  /** Without block mode there is data that comes back although its first repeated pair has a code. */
  lemma EdgeAccident(o: Settings) returns (data: seq<byte>)
    requires WideEnough(o)
    ensures data != [] && !PairsDistinct(data, Room(o.maxBits)) && RoundTrips(data, o)
  {
    hide Decode, PackedBytes, RecordsOf, Coded, Drives, Reads, NoMore, StepReader, DecoderTable, RoundTrips;
    data := Said(20);
    RepeatedPair(data, Room(o.maxBits), o);
    FileDecodes(data, o);
    AllSent(o);
    var q := AllReceived(o);
    var r := DecoderGoes(20, o);
    var bytes := PackedBytes(RecordsOf(data, o));
    OpeningAt(bytes);
    DrivesDecodes(Begin(bytes), Coded(Start(), o).records + ReceivedAll(20), q, Opening(false),
      Params(o.maxBits, false), r);
    DecodeEnds(q, r, Params(o.maxBits, false));
    assert SPOKEN[20] == HEARD[20];
  }
}
