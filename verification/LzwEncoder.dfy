/** The Unix-compress encoder: a dictionary of words, code widths that rise with a count of the
    decoder's entries, and an optional CLEAR code. */
module LzwEncoder {
  import opened Ints
  import opened Options
  import opened CodeStream
  import opened BlockPacking
  import opened Lzw

  const FIRST_FREE := 257

  // ---------------------------------------------------------------- the coding loop

  type Dict = map<Word, nat>

  function SingleBytes(n: nat): (dict: Dict)
    requires n <= 256
    ensures forall b: byte :: b < n ==> [b] in dict && dict[[b]] == b
    ensures forall w :: w in dict ==> |w| == 1
  {
    if n == 0 then map[] else SingleBytes(n - 1)[[(n - 1) as byte] := n - 1]
  }

  /** The variables of the coding loop. */
  datatype Coder = Coder(dictionary: Dict, nextCode: nat, width: nat, decoderFree: nat, dataCodes: nat, emitted: nat,
                         pendingClear: Option<int>, phrase: Word, records: seq<Record>)

  datatype Settings = Settings(maxBits: int, block: bool, clearAfter: Option<int>)

  function CodeOf(dict: Dict, w: Word): nat {
    if w in dict then dict[w] else 0
  }

  function Started(first: byte, o: Settings): Coder {
    Coder(SingleBytes(256), FIRST_FREE, 9, if o.block then 1 else 0, 0, 0, o.clearAfter, [first], [])
  }

  /** The code of the phrase is recorded, and the counters follow the decoder. */
  function Recorded(c: Coder, maxBits: nat): Coder {
    var free := if c.dataCodes > 0 && c.decoderFree < Pow2(maxBits) - 256 then c.decoderFree + 1 else c.decoderFree;
    c.(records := c.records + [Record(CodeOf(c.dictionary, c.phrase), c.width, false)], emitted := c.emitted + 1,
       dataCodes := c.dataCodes + 1, decoderFree := free, width := NextWidth(free, c.width, maxBits))
  }

  function Learned(c: Coder, candidate: Word, maxBits: nat): Coder {
    if c.nextCode < Pow2(maxBits) then
      c.(dictionary := c.dictionary[candidate := c.nextCode], nextCode := c.nextCode + 1)
    else c
  }

  predicate ClearDue(c: Coder) {
    c.pendingClear.Some? && c.emitted >= c.pendingClear.value
  }

  function Cleared(c: Coder): Coder {
    c.(records := c.records + [Record(CLEAR_CODE, c.width, true)], dictionary := SingleBytes(256),
       nextCode := FIRST_FREE, width := 9, decoderFree := 0, dataCodes := 0, pendingClear := None)
  }

  /** One round of the coding loop. */
  function Feed(c: Coder, value: byte, maxBits: nat): Coder {
    var candidate := c.phrase + [value];
    if candidate in c.dictionary then c.(phrase := candidate)
    else
      var learned := Learned(Recorded(c, maxBits), candidate, maxBits);
      (if ClearDue(learned) then Cleared(learned) else learned).(phrase := [value])
  }

  /** The coding loop over all bytes but the first. */
  function Coded(data: seq<byte>, o: Settings): Coder
    requires data != [] && 0 <= o.maxBits
  {
    if |data| == 1 then Started(data[0], o) else Feed(Coded(data[..|data| - 1], o), data[|data| - 1], o.maxBits)
  }

  /** All records, the one of the last phrase included. */
  function RecordsOf(data: seq<byte>, o: Settings): seq<Record>
    requires data != [] && 0 <= o.maxBits
  {
    Recorded(Coded(data, o), o.maxBits).records
  }

  // ---------------------------------------------------------------- the file

  predicate Accepted(o: Settings) {
    9 <= o.maxBits <= 16 && (o.clearAfter.Some? ==> o.block)
  }

  function Header(o: Settings): seq<byte>
    requires Accepted(o)
  {
    [0x1F, 0x9D, o.maxBits + if o.block then 0x80 else 0]
  }

  function CompressedFile(data: seq<byte>, o: Settings): Option<seq<byte>> {
    if !Accepted(o) then None
    else if data == [] then Some(Header(o))
    else Some(Header(o) + PackedBytes(RecordsOf(data, o)))
  }

  // ---------------------------------------------------------------- the loop as written

  /** The dictionary has all single bytes and the phrase, so that no lookup fails. */
  ghost predicate Ready(dict: Dict, phrase: Word) {
    phrase in dict && forall b: byte :: [b] in dict
  }

  lemma FeedReady(c: Coder, value: byte, maxBits: nat)
    requires Ready(c.dictionary, c.phrase)
    ensures Ready(Feed(c, value, maxBits).dictionary, Feed(c, value, maxBits).phrase)
  {
    hide NextWidth, Pow2;
  }

  /** The coding loop of `unix_compress`. */
  method EncodeRecords(data: seq<byte>, o: Settings) returns (records: seq<Record>)
    requires data != [] && Accepted(o)
    ensures records == RecordsOf(data, o)
  {
    hide Pow2, Feed, Ready, SingleBytes;
    var maxBits: nat, maxCode: int := o.maxBits, Pow2(o.maxBits);
    var dictionary: Dict := SingleBytes(256);
    var nextCode: nat := FIRST_FREE;
    var width: nat := 9;
    var decoderFree: nat := if o.block then 1 else 0;
    var dataCodes: nat := 0;
    records := [];
    var emitted: nat := 0;
    var pendingClear := o.clearAfter;
    var phrase := [data[0]];
    assert data[..1] == [data[0]];
    StartReady(data[0]);
    for i := 1 to |data|
      invariant Coder(dictionary, nextCode, width, decoderFree, dataCodes, emitted, pendingClear, phrase, records)
             == Coded(data[..i], o)
      invariant Ready(dictionary, phrase)
    {
      ghost var c := Coded(data[..i], o);
      assert data[..i + 1][..i] == data[..i];
      var value := data[i];
      FeedReady(c, value, maxBits);
      var candidate := phrase + [value];
      if candidate in dictionary {
        LongerPhrase(c, value, maxBits);
        phrase := candidate;
        continue;
      }
      NewPhrase(c, value, maxBits);
      ReadyPhrase(dictionary, phrase);
      records := records + [Record(dictionary[phrase], width, false)];
      emitted := emitted + 1;
      if dataCodes > 0 && decoderFree < maxCode - 256 {
        decoderFree := decoderFree + 1;
      }
      dataCodes := dataCodes + 1;
      if decoderFree >= Pow2(width) - 256 && width < maxBits {
        width := width + 1;
      }
      if nextCode < maxCode {
        dictionary := dictionary[candidate := nextCode];
        nextCode := nextCode + 1;
      }
      if pendingClear.Some? && emitted >= pendingClear.value {
        records := records + [Record(CLEAR_CODE, width, true)];
        dictionary := SingleBytes(256);
        nextCode := FIRST_FREE;
        width := 9;
        decoderFree := 0;
        dataCodes := 0;
        pendingClear := None;
      }
      phrase := [value];
    }
    assert data[..|data|] == data;
    ReadyPhrase(dictionary, phrase);
    records := records + [Record(dictionary[phrase], width, false)];
  }

  lemma StartReady(b: byte)
    ensures Ready(SingleBytes(256), [b])
  {
  }

  lemma ReadyPhrase(dict: Dict, phrase: Word)
    requires Ready(dict, phrase)
    ensures phrase in dict && CodeOf(dict, phrase) == dict[phrase]
  {
  }

  lemma LongerPhrase(c: Coder, value: byte, maxBits: nat)
    requires c.phrase + [value] in c.dictionary
    ensures Feed(c, value, maxBits) == c.(phrase := c.phrase + [value])
  {
  }

  lemma NewPhrase(c: Coder, value: byte, maxBits: nat)
    requires c.phrase + [value] !in c.dictionary
    ensures var learned := Learned(Recorded(c, maxBits), c.phrase + [value], maxBits);
            Feed(c, value, maxBits) == (if ClearDue(learned) then Cleared(learned) else learned).(phrase := [value])
  {
  }

  /** `unix_compress`. */
  method UnixCompress(data: seq<byte>, o: Settings) returns (file: Option<seq<byte>>)
    ensures file == CompressedFile(data, o)
  {
    hide RecordsOf, PackedBytes;
    if !(9 <= o.maxBits <= 16) {
      return None;
    }
    if o.clearAfter.Some? && !o.block {
      return None;
    }
    if data == [] {
      return Some(Header(o));
    }
    var records := EncodeRecords(data, o);
    var output := PackRecords(Header(o), records);
    return Some(output);
  }
}
