/** Unix-compress data as its decoder understands it: codes of growing width, and a table of words
    that is always one entry behind the encoder. */
module Lzw {
  import opened Ints
  import opened Options
  import opened CodeStream

  type Word = seq<byte>

  const CLEAR_CODE := 256

  /** What the header says. */
  datatype Params = Params(maxBits: nat, block: bool)

  // ---------------------------------------------------------------- one code

  /** Entry k of the table is the word of code 256 + k.  prev is empty before the first code. */
  datatype Decoder = Decoder(table: seq<Word>, prev: Word, out: Word)

  /** In block mode the entry of the CLEAR code is taken from the start. */
  function Empty(block: bool): Decoder {
    Decoder(if block then [[0, 0]] else [], [], [])
  }

  /** The word of a code: a byte, a table entry, or the entry that is only just being defined. */
  function WordOf(d: Decoder, code: nat): Option<Word> {
    if code < 256 then Some([code])
    else if d.prev == [] then None
    else if code - 256 < |d.table| then Some(d.table[code - 256])
    else if code - 256 == |d.table| then Some(d.prev + [d.prev[0]])
    else None
  }

  /** The table with the entry that can be completed once the next word's first byte is known. */
  function Upcoming(d: Decoder, first: byte, maxBits: nat): seq<Word> {
    if d.prev != [] && |d.table| < Pow2(maxBits) - 256 then d.table + [d.prev + [first]] else d.table
  }

  function DecodeStep(d: Decoder, code: nat, maxBits: nat): Option<Decoder> {
    var w := WordOf(d, code);
    if w.None? || w.value == [] then None
    else Some(Decoder(Upcoming(d, w.value[0], maxBits), w.value, d.out + w.value))
  }

  /** The code width when the table has n entries. */
  function NextWidth(n: nat, width: nat, maxBits: nat): nat {
    if n >= Pow2(width) - 256 && width < maxBits then width + 1 else width
  }

  /** The decoder, the width it reads with, and whether it discards the rest of its block. */
  datatype Reader = Reader(d: Decoder, width: nat, stale: bool)

  function Opening(block: bool): Reader {
    Reader(Empty(block), 9, true)
  }

  /** CLEAR forgets the table and leaves a zero byte as the previous word. */
  function StepReader(r: Reader, code: nat, p: Params): Option<Reader> {
    if code == CLEAR_CODE && p.block && r.d.prev != [] then Some(Reader(Decoder([], [0], r.d.out), 9, true))
    else
      var d := DecodeStep(r.d, code, p.maxBits);
      if d.None? then None
      else
        var width := NextWidth(|d.value.table|, r.width, p.maxBits);
        Some(Reader(d.value, width, width != r.width))
  }

  // ---------------------------------------------------------------- all codes

  /** Decodes until no code is left or one makes no sense. */
  function Decode(u: Unread, r: Reader, p: Params): Word
    requires 0 < r.width
    decreases 8 * |u.rest| + u.bits
  {
    var t := NextCode(u, r.width, r.stale);
    if t.None? then r.d.out
    else
      var next := StepReader(r, t.value.code, p);
      if next.None? then r.d.out else Decode(t.value.left, next.value, p)
  }

  /** What a file decompresses to: nothing if its header makes no sense. */
  function Decompress(file: seq<byte>): Word {
    if |file| < 3 || !(9 <= file[2] % 0x20 <= 16) then []
    else Decode(Unread(0, 0, file[3..]), Opening(file[2] >= 0x80), Params(file[2] % 0x20, file[2] >= 0x80))
  }

  lemma StepGrows(r: Reader, code: nat, p: Params)
    requires StepReader(r, code, p).Some?
    ensures r.d.out <= StepReader(r, code, p).value.d.out
    ensures 0 < r.width ==> 0 < StepReader(r, code, p).value.width
  {
  }

  /** Decoded output is never taken back. */
  lemma {:induction false} DecodeGrows(u: Unread, r: Reader, p: Params)
    requires 0 < r.width
    ensures r.d.out <= Decode(u, r, p)
    decreases 8 * |u.rest| + u.bits
  {
    hide NextCode, StepReader;
    var t := NextCode(u, r.width, r.stale);
    if t.Some? {
      var next := StepReader(r, t.value.code, p);
      if next.Some? {
        StepGrows(r, t.value.code, p);
        DecodeGrows(t.value.left, next.value, p);
      }
    }
  }

  // ---------------------------------------------------------------- driven by records

  /** The recorded codes take the decoder from r to r': each is recorded with the width that the
      decoder reads with, and wherever the decoder discards a block there is a reset or a change of
      width. */
  ghost predicate Drives(rs: seq<Record>, r: Reader, p: Params, r': Reader)
    decreases |rs|
  {
    if rs == [] then r == r'
    else
      var next := StepReader(r, rs[0].code, p);
      && rs[0].width == r.width && next.Some?
      && next.value.stale == (rs[0].reset || next.value.width != r.width)
      && Drives(rs[1..], next.value, p, r')
  }

  lemma {:induction false} DrivesAppend(rs: seq<Record>, x: Record, r: Reader, p: Params, m: Reader, r': Reader)
    requires Drives(rs, r, p, m) && StepReader(m, x.code, p) == Some(r')
    requires x.width == m.width && r'.stale == (x.reset || r'.width != m.width)
    ensures Drives(rs + [x], r, p, r')
    decreases |rs|
  {
    hide StepReader;
    if rs == [] {
      assert (rs + [x])[1..] == [];
    } else {
      assert (rs + [x])[1..] == rs[1..] + [x];
      DrivesAppend(rs[1..], x, StepReader(r, rs[0].code, p).value, p, m, r');
    }
  }

  /** The decoder discards its block where a reader of the given widths does. */
  predicate At(r: Reader, place: Place) {
    0 < r.width && r.stale == (place.stale || r.width != place.width)
  }

  /** Where codes are read that drive the decoder, it goes on behind them. */
  lemma {:induction false} DrivesDecodes(place: Place, rs: seq<Record>, q: Place, r: Reader, p: Params, r': Reader)
    requires Reads(place, rs, q) && Drives(rs, r, p, r') && At(r, place)
    ensures At(r', q) && Decode(place.u, r, p) == Decode(q.u, r', p)
    decreases |rs|
  {
    hide NextCode, StepReader;
    if rs != [] {
      var t, next := Take(place, rs[0].width), StepReader(r, rs[0].code, p);
      StepGrows(r, rs[0].code, p);
      DrivesDecodes(Place(t.value.left, rs[0].width, rs[0].reset), rs[1..], q, next.value, p, r');
    }
  }

  /** Without further codes the decoder is done. */
  lemma DecodeEnds(q: Place, r: Reader, p: Params)
    requires NoMore(q) && At(r, q) && 8 <= r.width
    ensures Decode(q.u, r, p) == r.d.out
  {
    hide NextCode;
    assert Take(q, r.width) == None;
  }
}
