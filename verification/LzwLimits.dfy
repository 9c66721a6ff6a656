/** When the Unix-compress encoder's file decompresses to its data, over all settings, with inputs at
    which it does not. */
module LzwLimits {
  import opened Ints
  import opened Options
  import opened CodeStream
  import opened BlockPacking
  import opened Lzw
  import opened LzwEncoder
  import opened LzwLockstep
  import opened LzwClear
  import opened LzwNonBlock

  /** In block mode at most 257 codes follow a CLEAR, or codes never widen.  Without block mode no
      pair of bytes repeats one that has an entry. */
  predicate Suits(data: seq<byte>, o: Settings)
    requires Accepted(o)
  {
    data == [] || if o.block then !WidensLate(data, o) else PairsDistinct(data, Room(o.maxBits))
  }

  /** Zero bytes that the decoder may read where nobody wrote them. */
  predicate Deceptive(data: seq<byte>, o: Settings) {
    if o.block then SixZeros(data) else 0 <= o.maxBits && EdgeZeros(data, o.maxBits)
  }

  /** Whatever the settings, data that suits them comes back, and but for runs of zero bytes no other
      does. */
  lemma RoundTripCondition(data: seq<byte>, o: Settings)
    requires Accepted(o)
    ensures Suits(data, o) ==> RoundTrips(data, o)
    ensures !Deceptive(data, o) ==> (RoundTrips(data, o) <==> Suits(data, o))
  {
    hide RoundTrips, WidensLate, PairsDistinct, SixZeros, EdgeZeros;
    if data == [] {
      EmptyFile(o);
    } else if o.block {
      BlockLimit(data, o);
    } else {
      NonBlockLimit(data, o);
    }
  }

  // ---------------------------------------------------------------- a repeated pair

  /** Without block mode, `abab` comes back as `abbb`. */
  lemma RepeatedPair(a: byte, b: byte, o: Settings)
    requires a != b && Accepted(o) && !o.block
    ensures CompressedFile([a, b, a, b], o).Some? && Decompress(CompressedFile([a, b, a, b], o).value) == [a, b, b, b]
  {
    hide Decode, Decompress, PackedBytes, Drives, Writable, Pow2, DictOf, RecordsOf;
    var data, read, p := [a, b, a, b], [a, b, a], Params(o.maxBits, false);
    LargePower(o.maxBits);
    var c := Coded(read, o);
    var r := LiteralFollows(read, o);
    assert data[..3] == read && Pair(data, 2) == Pair(data, 0) == [a, b];
    PairCode(data, 3, 0, c, r, o);
    LastPair(data, read, b, c, o);
    var d := Decoder(Upcoming(r.d, b, o.maxBits), [b, b], [a, b, b, b]);
    TwoLetters(a, b, r.d, d, o.maxBits);
    var width := NextWidth(|d.table|, r.width, o.maxBits);
    var r' := Reader(d, width, width != r.width);
    var x := Record(FIRST_FREE, c.width, false);
    DrivesAppend(c.records, x, Opening(false), p, r, r');
    LargePower(c.width);
    WritableMore(c.records, x);
    PositiveWidth(|d.table|, r.width, o.maxBits);
    DrivenIsDecoded(RecordsOf(data, o), p, r');
    FileBody(PackedBytes(RecordsOf(data, o)), o);
  }

  lemma LastPair(data: seq<byte>, read: seq<byte>, b: byte, c: Coder, o: Settings)
    requires read != [] && 0 <= o.maxBits && data == read + [b] && c == Coded(read, o)
    requires c.phrase + [b] in c.dictionary && CodeOf(c.dictionary, c.phrase + [b]) == FIRST_FREE
    ensures RecordsOf(data, o) == c.records + [Record(FIRST_FREE, c.width, false)]
  {
    assert data[..|data| - 1] == read;
    LongerPhrase(c, b, o.maxBits);
    hide Pow2, NextWidth, Coded, Feed;
    CodedMore(data, read, b, o);
  }

  lemma CodedMore(data: seq<byte>, read: seq<byte>, b: byte, o: Settings)
    requires read != [] && 0 <= o.maxBits && data == read + [b]
    ensures Coded(data, o) == Feed(Coded(read, o), b, o.maxBits)
  {
    hide Feed;
    assert data[..|data| - 1] == read;
  }

  /** Bytes that lead from one word of the dictionary to the next only lengthen the phrase. */
  lemma {:induction false} PhraseGrows(read: seq<byte>, w: Word, n: nat, o: Settings)
    requires 0 <= o.maxBits && read != [] && 1 <= n <= |w| && Coded(read, o).phrase == w[..1]
    requires forall k :: 1 < k <= n ==> w[..k] in Coded(read, o).dictionary
    ensures Coded(read + w[1..n], o) == Coded(read, o).(phrase := w[..n])
  {
    hide Feed, Coded;
    if n == 1 {
      assert read + w[1..1] == read;
    } else {
      PhraseGrows(read, w, n - 1, o);
      assert w[..n - 1] + [w[n - 1]] == w[..n];
      assert read + w[1..n] == (read + w[1..n - 1]) + [w[n - 1]];
      CodedMore(read + w[1..n], read + w[1..n - 1], w[n - 1], o);
      LongerPhrase(Coded(read + w[1..n - 1], o), w[n - 1], o.maxBits);
    }
  }

  lemma TwoLetters(a: byte, b: byte, d: Decoder, d': Decoder, maxBits: nat)
    requires 9 <= maxBits && 0 <= Room(maxBits) && d == AfterLiterals([a, b, a], 2, maxBits)
    requires d' == Decoder(Upcoming(d, b, maxBits), [b, b], [a, b, b, b])
    ensures DecodeStep(d, FIRST_FREE, maxBits) == Some(d') && |d.table| == 1
  {
    LargePower(maxBits);
    hide Pow2;
    assert d.prev == [b] && d.out == [a, b] && |d.table| == 1;
    assert d.prev + [d.prev[0]] == [b, b] && d.out + [b, b] == [a, b, b, b];
  }

  // ---------------------------------------------------------------- a CLEAR after one code

  /** The dictionary has no words but bytes and pairs of what is read. */
  ghost predicate OnlyPairs(dict: Dict, read: seq<byte>) {
    forall w :: w in dict ==> |w| == 1 || exists j :: 0 <= j < |read| - 1 && Pair(read, j) == w
  }

  /** No pair of adjacent bytes occurs twice. */
  predicate AllDistinct(data: seq<byte>) {
    PairsDistinct(data, |data|)
  }

  /** Where no pair repeats every byte is a code, and all but the first are behind the CLEAR. */
  lemma {:induction false} CodesBehindClear(data: seq<byte>, o: Settings)
    requires Accepted(o) && o.clearAfter == Some(1) && data != [] && AllDistinct(data)
    ensures var c := Coded(data, o);
            && c.phrase == [data[|data| - 1]] && OnlyPairs(c.dictionary, data)
            && if |data| == 1 then c.emitted == 0 && c.pendingClear == Some(1)
               else WasCleared(c, o) && c.dataCodes == |data| - 2
  {
    hide Feed, AllDistinct, OnlyPairs, SingleBytes, WasCleared, Pow2;
    if |data| == 1 {
      SinglesOnly(data);
    } else {
      var read, value := data[..|data| - 1], data[|data| - 1];
      ShorterDistinct(data);
      CodesBehindClear(read, o);
      assert data == read + [value];
      FedPair(Coded(read, o), read, value, o);
    }
  }

  lemma SinglesOnly(data: seq<byte>)
    ensures OnlyPairs(SingleBytes(256), data)
  {
    hide SingleBytes;
  }

  lemma ShorterDistinct(data: seq<byte>)
    requires data != [] && AllDistinct(data)
    ensures AllDistinct(data[..|data| - 1])
  {
    var read := data[..|data| - 1];
    assert data == read + [data[|data| - 1]];
    DistinctPart(read, data[|data| - 1], |data|);
  }

  lemma FedPair(c: Coder, read: seq<byte>, value: byte, o: Settings)
    requires Accepted(o) && read != [] && c.phrase == [read[|read| - 1]] && OnlyPairs(c.dictionary, read)
    requires AllDistinct(read + [value])
    ensures c.phrase + [value] !in c.dictionary
    ensures Feed(c, value, o.maxBits).phrase == [value]
    ensures OnlyPairs(Feed(c, value, o.maxBits).dictionary, read + [value])
    ensures c.emitted == 0 && c.pendingClear == Some(1) && o.clearAfter == Some(1) ==>
      WasCleared(Feed(c, value, o.maxBits), o) && Feed(c, value, o.maxBits).dataCodes == 0
    ensures WasCleared(c, o) ==>
      WasCleared(Feed(c, value, o.maxBits), o) && Feed(c, value, o.maxBits).dataCodes == c.dataCodes + 1
  {
    hide Pow2, NextWidth;
    var data, n := read + [value], |read| - 1;
    var candidate := c.phrase + [value];
    assert candidate == Pair(data, n);
    forall j | 0 <= j < n ensures Pair(read, j) == Pair(data, j) != candidate {
    }
    forall w | w in c.dictionary && |w| != 1 ensures exists j :: 0 <= j < |data| - 1 && Pair(data, j) == w {
      var j :| 0 <= j < n && Pair(read, j) == w;
      assert Pair(data, j) == w;
    }
  }

  /** With a CLEAR after the first code and no pair twice, exactly up to 258 bytes come back: the 257
      codes behind the CLEAR are the limit. */
  lemma ClearAfterOne(data: seq<byte>, o: Settings)
    requires Accepted(o) && o.clearAfter == Some(1) && o.maxBits != 9 && AllDistinct(data) && !SixZeros(data)
    ensures RoundTrips(data, o) <==> |data| <= 258
  {
    hide RoundTrips, AllDistinct, SixZeros, OnlyPairs;
    if data == [] {
      EmptyFile(o);
    } else {
      CodesBehindClear(data, o);
      BlockLimit(data, o);
    }
  }

  /** 1, 2, 1, 3, 1, 4, ... */
  function Alternating(n: nat): (data: seq<byte>)
    requires n <= 500
    ensures |data| == n
  {
    seq(n, i requires 0 <= i < n => if i % 2 == 0 then 1 else 2 + i / 2)
  }

  /** 258 such bytes come back, and 259 do not. */
  lemma AlternatingLimit(n: nat, o: Settings)
    requires n <= 500 && Accepted(o) && o.clearAfter == Some(1) && o.maxBits != 9
    ensures RoundTrips(Alternating(n), o) <==> n <= 258
  {
    hide RoundTrips;
    var data := Alternating(n);
    forall i, j | 0 <= j < i < n - 1 ensures Pair(data, i) != Pair(data, j) {
      assert Pair(data, i) == [data[i], data[i + 1]] && Pair(data, j) == [data[j], data[j + 1]];
    }
    forall i | 0 <= i < n ensures !ZerosAt(data, i) {
      if i <= n - 6 {
        assert data[i..i + 6][0] == data[i] != 0;
      }
    }
    ClearAfterOne(data, o);
  }
}
