/** The decoder of Unix-compress data behind `FT_Stream_OpenLZW`: a block-wise code reader, and a
    dictionary of prefix and suffix arrays that is walked with a stack. */
module UnixDecoder {
  import opened Ints
  import opened Options
  import opened Bits
  import opened Sequences
  import opened CodeStream
  import opened Lzw
  import opened LzwEncoder
  import opened LzwClear
  import opened LzwLimits
  import opened LzwLockstep

  // ---------------------------------------------------------------- bits of a block

  lemma {:induction false} BitOfBytes(bs: seq<byte>, k: nat)
    requires k < 8 * |bs|
    ensures Bit(BytesValue(bs), k) <==> Bit(bs[k / 8], k % 8)
  {
    hide Bit;
    var v, rest := BytesValue(bs), BytesValue(bs[1..]);
    ByteRange();
    ByteAndRest(bs[0], rest);
    if k < 8 {
      LowBitsKept(v, 8, k);
    } else {
      ShiftRightBits(v, 8, k - 8);
      BitOfBytes(bs[1..], k - 8);
      assert (k - 8) / 8 == k / 8 - 1;
    }
  }

  lemma ByteAndRest(b: byte, rest: nat)
    ensures (b + 256 * rest) % 256 == b && (b + 256 * rest) / 256 == rest
  {
  }

  /** One bit more of a number. */
  lemma NextLowBit(v: nat, i: nat)
    ensures LowBits(v, i + 1) == LowBits(v, i) + Pow2(i) * (ShiftRight(v, i) % 2)
  {
    NextDigit(v, Pow2(i));
  }

  lemma NextDigit(v: nat, p: nat)
    requires 0 < p
    ensures v % (2 * p) == v % p + p * (v / p % 2)
  {
    assert v == p * (v / p) + v % p;
    DigitFrom(v, p, v / p, v % p);
  }

  lemma DigitFrom(v: nat, p: nat, q: int, r: int)
    requires 0 <= r < p && v == p * q + r
    ensures v % (2 * p) == r + p * (q % 2)
  {
    var h, b := q / 2, q % 2;
    assert q == 2 * h + b;
    TwoPlaces(p, h, b);
    if b == 0 {
      Quotient(v, 2 * p, h, r);
    } else {
      Quotient(v, 2 * p, h, p + r);
    }
  }

  lemma Quotient(v: nat, m: nat, q: int, r: int)
    requires 0 <= r < m && v == m * q + r
    ensures v % m == r
  {
    DivUnique(v, m, q, r);
    assert v == m * (v / m) + v % m;
  }

  lemma TwoPlaces(p: int, h: int, b: int)
    ensures p * (2 * h + b) == (2 * p) * h + p * b
  {
  }

  lemma DropTwice(v: nat, i: nat, j: nat)
    ensures ShiftRight(ShiftRight(v, i), j) == ShiftRight(v, i + j)
  {
    DivTwice(v, Pow2(i), Pow2(j));
    Pow2Sum(i, j);
  }

  // ---------------------------------------------------------------- the code reader

  class CodeReader {
    const input: seq<byte>
    var inputPos: nat
    var block: seq<byte>
    var bitOffset: nat

    constructor (input: seq<byte>)
      ensures this.input == input && Valid() && Left() == Unread(0, 0, input)
    {
      this.input, inputPos, block, bitOffset := input, 0, [], 0;
      new;
      assert input[0..] == input && Pow2(0) == 1;
    }

    predicate Valid()
      reads this
    {
      inputPos <= |input| && bitOffset <= 8 * |block|
    }

    /** The bits of the block that are not read yet, as a number, and how many they are. */
    ghost function Value(): nat
      reads this
    {
      ShiftRight(BytesValue(block), bitOffset)
    }

    ghost function Bits(): nat
      requires Valid()
      reads this
    {
      8 * |block| - bitOffset
    }

    /** The bytes behind the block. */
    ghost function Rest(): seq<byte>
      requires Valid()
      reads this
    {
      input[inputPos..]
    }

    ghost function Left(): Unread
      requires Valid()
      reads this
    {
      Unread(Value(), Bits(), Rest())
    }

    /** `UnixCompressCodeReader::code`: the next code, after fetching a block of `width` bytes when
        the current one is used up or to be discarded. */
    method Code(width: nat, discardBlock: bool) returns (code: Option<nat>)
      requires Valid() && 0 < width
      modifies this
      ensures Valid()
      ensures var t := NextCode(old(Left()), width, discardBlock);
              if t.None? then code.None? else code == Some(t.value.code) && Left() == t.value.left
    {
      hide LowBits, ShiftRight;
      ghost var value, bits, rest := Value(), Bits(), Rest();
      ghost var now := Fetched(width, discardBlock, Left());
      if discardBlock || bitOffset + width > 8 * |block| {
        var end := Min(inputPos + width, |input|);
        block := input[inputPos..end];
        assert block == rest[..Min(width, |rest|)] && input[end..] == rest[Min(width, |rest|)..];
        inputPos := end;
        bitOffset := 0;
        DropNone(BytesValue(block));
        if 8 * |block| < width {
          return None;
        }
      }
      assert Value() == now.value && Bits() == now.bits >= width && Rest() == now.rest;
      var c := Assemble(width);
      DropTwice(BytesValue(block), bitOffset, width);
      bitOffset := bitOffset + width;
      return Some(c);
    }

    /** The loop over the bits of a code. */
    method Assemble(width: nat) returns (code: nat)
      requires Valid() && width <= Bits()
      ensures code == LowBits(Value(), width)
    {
      hide LowBits, ShiftRight, Bit, Pow2;
      code := 0;
      LowNone(Value());
      for bitIndex := 0 to width
        invariant code == LowBits(Value(), bitIndex)
      {
        var absoluteBit := bitOffset + bitIndex;
        var b := block[absoluteBit / 8];
        var bit := ShiftRight(b, absoluteBit % 8) % 2;
        BitOfBytes(block, absoluteBit);
        BitIsShifted(b, absoluteBit % 8);
        BitIsShifted(BytesValue(block), absoluteBit);
        DropTwice(BytesValue(block), bitOffset, bitIndex);
        NextLowBit(Value(), bitIndex);
        code := code + Shifted(bit, bitIndex);
        ShiftedIs(bit, bitIndex);
      }
    }
  }

  lemma DropNone(v: nat)
    ensures ShiftRight(v, 0) == v
  {
    assert Pow2(0) == 1;
  }

  lemma LowNone(v: nat)
    ensures LowBits(v, 0) == 0
  {
    assert Pow2(0) == 1;
  }

  lemma BitIsShifted(v: nat, k: nat)
    ensures ShiftRight(v, k) % 2 == if Bit(v, k) then 1 else 0
  {
  }

  lemma ShiftedIs(bit: nat, k: nat)
    ensures Shifted(bit, k) == Pow2(k) * bit
  {
  }

  // ---------------------------------------------------------------- the dictionary

  /** Every entry's prefix is an older code. */
  predicate Chained(prefix: seq<nat>) {
    forall k :: 0 <= k < |prefix| ==> prefix[k] < 256 + k
  }

  /** The word of a code. */
  ghost function Expand(prefix: seq<nat>, suffix: seq<byte>, code: nat): (w: Word)
    requires |prefix| == |suffix| && Chained(prefix) && code < 256 + |prefix|
    ensures w != []
    decreases code
  {
    if code < 256 then [code] else Expand(prefix, suffix, prefix[code - 256]) + [suffix[code - 256]]
  }

  /** A new entry changes no older word. */
  lemma {:induction false} ExpandKept(prefix: seq<nat>, suffix: seq<byte>, p: nat, s: byte, code: nat)
    requires |prefix| == |suffix| && Chained(prefix) && p < 256 + |prefix| && code < 256 + |prefix|
    ensures Chained(prefix + [p]) && Expand(prefix + [p], suffix + [s], code) == Expand(prefix, suffix, code)
    decreases code
  {
    if 256 <= code {
      ExpandKept(prefix, suffix, p, s, prefix[code - 256]);
    }
  }

  /** The word that a code stands for now, including one that is only just being defined. */
  ghost function Meaning(prefix: seq<nat>, suffix: seq<byte>, oldCode: nat, oldChar: byte, code: nat): (w: Word)
    requires |prefix| == |suffix| && Chained(prefix) && oldCode < 256 + |prefix|
    ensures w != []
  {
    if code < 256 + |prefix| then Expand(prefix, suffix, code) else Expand(prefix, suffix, oldCode) + [oldChar]
  }

  /** The stack loop: unwinds a code from its last byte to its first. */
  method Unwind(prefix: array<nat>, suffix: array<byte>, freeEnt: nat, inCode: nat, oldCode: nat, oldChar: byte)
    returns (stack: seq<byte>, first: byte)
    requires freeEnt <= prefix.Length == suffix.Length && Chained(prefix[..freeEnt])
    requires inCode <= 256 + freeEnt && oldCode < 256 + freeEnt
    ensures Backwards(stack) == Meaning(prefix[..freeEnt], suffix[..freeEnt], oldCode, oldChar, inCode)
    ensures first == Backwards(stack)[0]
  {
    var code: nat := inCode;
    stack := [];
    if code >= 256 && code - 256 >= freeEnt {
      stack := stack + [oldChar];
      code := oldCode;
    }
    while code >= 256
      invariant code < 256 + freeEnt
      invariant Expand(prefix[..freeEnt], suffix[..freeEnt], code) + Backwards(stack)
             == Meaning(prefix[..freeEnt], suffix[..freeEnt], oldCode, oldChar, inCode)
      decreases code
    {
      assert prefix[..freeEnt][code - 256] == prefix[code - 256];
      assert suffix[..freeEnt][code - 256] == suffix[code - 256];
      BackwardsAppend(stack, suffix[code - 256]);
      stack := stack + [suffix[code - 256]];
      code := prefix[code - 256];
    }
    first := code;
    BackwardsAppend(stack, first);
    stack := stack + [first];
  }

  // ---------------------------------------------------------------- the arrays and the table

  /** The arrays hold the table of the decoder, and the old code stands for the previous word. */
  ghost predicate Follows(d: Decoder, prefix: seq<nat>, suffix: seq<byte>, oldCode: nat, oldChar: byte, output: Word) {
    && |prefix| == |suffix| == |d.table| && Chained(prefix) && oldCode < 256 + |prefix|
    && (forall k :: 0 <= k < |d.table| ==> Expand(prefix, suffix, 256 + k) == d.table[k])
    && d.prev == Expand(prefix, suffix, oldCode) && oldChar == d.prev[0]
    && d.out == output
  }

  /** What the arrays say about a code is what the table says. */
  lemma MeaningIsWord(d: Decoder, prefix: seq<nat>, suffix: seq<byte>, oldCode: nat, oldChar: byte, output: Word,
                      code: nat)
    requires Follows(d, prefix, suffix, oldCode, oldChar, output)
    ensures WordOf(d, code)
         == if code <= 256 + |prefix| then Some(Meaning(prefix, suffix, oldCode, oldChar, code)) else None
  {
    if 256 <= code < 256 + |prefix| {
      assert code == 256 + (code - 256);
    }
  }

  /** The array entries after one more is entered, while there is room. */
  function Entered<T>(s: seq<T>, v: T, max: int): seq<T> {
    if |s| < max then s + [v] else s
  }

  /** One code keeps the arrays and the table together. */
  lemma FollowsStep(d: Decoder, prefix: seq<nat>, suffix: seq<byte>, oldCode: nat, oldChar: byte, output: Word,
                    code: nat, maxBits: nat)
    requires Follows(d, prefix, suffix, oldCode, oldChar, output) && code < Pow2(maxBits) && code <= 256 + |prefix|
    ensures var word := Meaning(prefix, suffix, oldCode, oldChar, code);
            var max := Pow2(maxBits) - 256;
            DecodeStep(d, code, maxBits).Some? &&
            Follows(DecodeStep(d, code, maxBits).value, Entered(prefix, oldCode, max), Entered(suffix, word[0], max),
                    code, word[0], output + word)
  {
    hide WordOf;
    MeaningIsWord(d, prefix, suffix, oldCode, oldChar, output, code);
    var word, max := Meaning(prefix, suffix, oldCode, oldChar, code), Pow2(maxBits) - 256;
    hide Pow2;
    if |prefix| < max {
      forall c: nat | c < 256 + |prefix|
        ensures Chained(prefix + [oldCode])
          && Expand(prefix + [oldCode], suffix + [word[0]], c) == Expand(prefix, suffix, c)
      {
        ExpandKept(prefix, suffix, oldCode, word[0], c);
      }
      NewEntry(prefix, suffix, oldCode, word[0]);
      if code == 256 + |prefix| {
        FirstOfJust(d.prev, oldChar);
      }
    }
  }

  lemma NewEntry(prefix: seq<nat>, suffix: seq<byte>, p: nat, s: byte)
    requires |prefix| == |suffix| && Chained(prefix) && p < 256 + |prefix|
    ensures Chained(prefix + [p])
    ensures Expand(prefix + [p], suffix + [s], 256 + |prefix|) == Expand(prefix, suffix, p) + [s]
  {
    ExpandKept(prefix, suffix, p, s, p);
  }

  lemma FirstOfJust(w: Word, c: byte)
    requires w != []
    ensures (w + [c])[0] == w[0]
  {
  }

  // ---------------------------------------------------------------- the decoder

  /** The decoder has done what the specification says so far, and what is left is what it expects. */
  ghost predicate OnTrack(goal: Word, r: Reader, u: Unread, p: Params, prefix: seq<nat>, suffix: seq<byte>,
                          oldCode: nat, oldChar: byte, output: Word)
  {
    0 < r.width && Decode(u, r, p) == goal && Follows(r.d, prefix, suffix, oldCode, oldChar, output)
  }

  /** The width and the discarding that the top of the loop arrives at. */
  ghost predicate Widens(r: Reader, freeEnt: nat, width: nat, discard: bool, maxBits: nat) {
    r.width == NextWidth(freeEnt, width, maxBits) && r.stale == (discard || r.width != width)
  }

  lemma TrackEnds(goal: Word, r: Reader, u: Unread, p: Params, prefix: seq<nat>, suffix: seq<byte>, oldCode: nat,
                  oldChar: byte, output: Word)
    requires OnTrack(goal, r, u, p, prefix, suffix, oldCode, oldChar, output) && NextCode(u, r.width, r.stale).None?
    ensures goal == output
  {
    hide NextCode;
  }

  lemma TrackStops(goal: Word, r: Reader, u: Unread, p: Params, prefix: seq<nat>, suffix: seq<byte>, oldCode: nat,
                   oldChar: byte, output: Word)
    requires OnTrack(goal, r, u, p, prefix, suffix, oldCode, oldChar, output)
    requires var t := NextCode(u, r.width, r.stale); t.Some? && 256 + |prefix| < t.value.code
    requires NextCode(u, r.width, r.stale).value.code != CLEAR_CODE || !p.block
    ensures goal == output
  {
    hide NextCode, WordOf, Pow2;
    MeaningIsWord(r.d, prefix, suffix, oldCode, oldChar, output, NextCode(u, r.width, r.stale).value.code);
  }

  lemma TrackClears(goal: Word, r: Reader, u: Unread, p: Params, prefix: seq<nat>, suffix: seq<byte>, oldCode: nat,
                    oldChar: byte, output: Word) returns (r': Reader)
    requires OnTrack(goal, r, u, p, prefix, suffix, oldCode, oldChar, output)
    requires var t := NextCode(u, r.width, r.stale); t.Some? && t.value.code == CLEAR_CODE && p.block
    ensures OnTrack(goal, r', NextCode(u, r.width, r.stale).value.left, p, [], [], 0, 0, output)
    ensures Widens(r', 0, 9, true, p.maxBits)
  {
    hide NextCode;
    assert Pow2(9) == 512;
    hide Pow2;
    r' := Reader(Decoder([], [0], output), 9, true);
  }

  lemma TrackSteps(goal: Word, r: Reader, u: Unread, p: Params, prefix: seq<nat>, suffix: seq<byte>, oldCode: nat,
                   oldChar: byte, output: Word, code: nat) returns (r': Reader)
    requires OnTrack(goal, r, u, p, prefix, suffix, oldCode, oldChar, output)
    requires var t := NextCode(u, r.width, r.stale); t.Some? && t.value.code == code
    requires code <= 256 + |prefix| && (code != CLEAR_CODE || !p.block) && code < Pow2(p.maxBits)
    ensures |prefix| == |suffix| && Chained(prefix) && oldCode < 256 + |prefix|
    ensures var word := Meaning(prefix, suffix, oldCode, oldChar, code);
            var max := Pow2(p.maxBits) - 256;
            && OnTrack(goal, r', NextCode(u, r.width, r.stale).value.left, p, Entered(prefix, oldCode, max),
                       Entered(suffix, word[0], max), code, word[0], output + word)
            && Widens(r', |Entered(prefix, oldCode, max)|, r.width, false, p.maxBits)
  {
    FollowsShape(r.d, prefix, suffix, oldCode, oldChar, output);
    FollowsStep(r.d, prefix, suffix, oldCode, oldChar, output, code, p.maxBits);
    hide NextCode, DecodeStep, NextWidth, Follows, Pow2, Meaning;
    r' := StepReader(r, code, p).value;
    var word := Meaning(prefix, suffix, oldCode, oldChar, code);
    var max := Pow2(p.maxBits) - 256;
    FollowsShape(r'.d, Entered(prefix, oldCode, max), Entered(suffix, word[0], max), code, word[0], output + word);
    PositiveWidths(r'.d, r.width, p.maxBits);
  }

  lemma PositiveWidths(d: Decoder, width: nat, maxBits: nat)
    ensures width <= NextWidth(|d.table|, width, maxBits)
  {
  }

  lemma FollowsShape(d: Decoder, prefix: seq<nat>, suffix: seq<byte>, oldCode: nat, oldChar: byte, output: Word)
    requires Follows(d, prefix, suffix, oldCode, oldChar, output)
    ensures |prefix| == |suffix| == |d.table| && Chained(prefix) && oldCode < 256 + |prefix|
  {
  }

  /** The first code must be a byte. */
  lemma FirstCode(u: Unread, p: Params, code: nat, left: Unread) returns (r: Reader)
    requires 9 <= p.maxBits && NextCode(u, 9, true) == Some(Taken(code, left))
    ensures code >= 256 ==> Decode(u, Opening(p.block), p) == []
    ensures code < 256 ==>
      var table := if p.block then [0] else [];
      OnTrack(Decode(u, Opening(p.block), p), r, left, p, table, table, code, code, [code])
      && Widens(r, |table|, 9, false, p.maxBits)
  {
    hide NextCode;
    assert Pow2(9) == 512;
    hide Pow2;
    var word: Word := if code < 256 then [code] else [];
    r := Reader(Decoder(Empty(p.block).table, word, word), 9, false);
    if code < 256 {
      ClearEntry();
      assert Empty(p.block).out + [code] == [code];
      assert StepReader(Opening(p.block), code, p) == Some(r);
    }
  }

  lemma ClearEntry()
    ensures Chained([0]) && Expand([0], [0], 256) == [0, 0]
  {
    assert Expand([0], [0], 0) == [0];
  }

  lemma CodeBound(u: Unread, width: nat, discard: bool, maxBits: nat)
    requires width <= maxBits && NextCode(u, width, discard).Some?
    ensures NextCode(u, width, discard).value.code < Pow2(maxBits)
  {
    Pow2Grows(width, maxBits);
  }

  /** Outputs the word of a code and enters the next word into the dictionary. */
  method EmitWord(prefix: array<nat>, suffix: array<byte>, freeEnt: nat, code: nat, oldCode: nat, oldChar: byte)
    returns (word: Word, freeEnt': nat)
    requires freeEnt <= prefix.Length == suffix.Length && Chained(prefix[..freeEnt])
    requires code <= 256 + freeEnt && oldCode < 256 + freeEnt
    modifies prefix, suffix
    ensures word == Meaning(old(prefix[..freeEnt]), old(suffix[..freeEnt]), oldCode, oldChar, code)
    ensures freeEnt <= freeEnt' <= prefix.Length && (code < 256 + freeEnt' || freeEnt' == freeEnt == prefix.Length)
    ensures prefix[..freeEnt'] == Entered(old(prefix[..freeEnt]), oldCode, prefix.Length)
    ensures suffix[..freeEnt'] == Entered(old(suffix[..freeEnt]), word[0], prefix.Length)
    ensures Chained(prefix[..freeEnt'])
  {
    hide Meaning;
    var stack, decodedChar := Unwind(prefix, suffix, freeEnt, code, oldCode, oldChar);
    word := Backwards(stack);
    freeEnt' := freeEnt;
    if freeEnt < prefix.Length {
      prefix[freeEnt] := oldCode;
      suffix[freeEnt] := decodedChar;
      freeEnt' := freeEnt + 1;
    }
  }

  /** The loop of `decode_unix_compress`, from the second code on. */
  method DecodeCodes(reader: CodeReader, prefix: array<nat>, suffix: array<byte>, maxBits: nat, blockMode: bool,
                     firstEnt: nat, firstCode: byte, ghost goal: Word, ghost first: Reader)
    returns (output: seq<byte>)
    requires reader.Valid() && 9 <= maxBits && prefix.Length == suffix.Length == Pow2(maxBits) - 256 > 0
    requires firstEnt <= 1 && Chained(prefix[..firstEnt]) && Widens(first, firstEnt, 9, false, maxBits)
    requires OnTrack(goal, first, reader.Left(), Params(maxBits, blockMode), prefix[..firstEnt], suffix[..firstEnt],
                     firstCode, firstCode, [firstCode])
    modifies reader, prefix, suffix
    ensures output == goal
  {
    hide OnTrack, Pow2, Meaning, Chained, NextCode, Entered, CodeReader.Left;
    ghost var params := Params(maxBits, blockMode);
    var maxFree := prefix.Length;
    var freeEnt, width: nat := firstEnt, 9;
    var freeBits := if width < maxBits then Pow2(width) - 256 else maxFree + 1;
    var oldCode: nat, oldChar: byte := firstCode, firstCode;
    var discardBlock := false;
    output := [firstCode];
    ghost var r, left := first, reader.Left();
    ghost var p, s := prefix[..freeEnt], suffix[..freeEnt];
    while true
      invariant reader.Valid() && 9 <= width <= maxBits && freeEnt <= maxFree
      invariant width < maxBits ==> freeBits == Pow2(width) - 256
      invariant p == prefix[..freeEnt] && s == suffix[..freeEnt] && Chained(p) && oldCode < 256 + freeEnt
      invariant left == reader.Left()
      invariant OnTrack(goal, r, left, params, p, s, oldCode, oldChar, output)
      invariant Widens(r, freeEnt, width, discardBlock, maxBits)
      decreases 8 * |left.rest| + left.bits
    {
      if freeEnt >= freeBits && width < maxBits {
        width := width + 1;
        freeBits := if width < maxBits then Pow2(width) - 256 else maxFree + 1;
        discardBlock := true;
      }
      assert width == r.width && discardBlock == r.stale;
      ghost var u := left;
      var next := reader.Code(width, discardBlock);
      if next.None? {
        TrackEnds(goal, r, u, params, p, s, oldCode, oldChar, output);
        break;
      }
      left := reader.Left();
      var code := next.value;
      CodeBound(u, width, discardBlock, maxBits);
      discardBlock := false;
      if code == CLEAR_CODE && blockMode {
        r := TrackClears(goal, r, u, params, p, s, oldCode, oldChar, output);
        freeEnt := 0;
        width := 9;
        freeBits := Pow2(width) - 256;
        oldCode, oldChar := 0, 0;
        discardBlock := true;
        p, s := prefix[..0], suffix[..0];
        ChainedStart(p);
        continue;
      }
      if code >= 256 && code - 256 > freeEnt {
        TrackStops(goal, r, u, params, p, s, oldCode, oldChar, output);
        break;
      }
      r := TrackSteps(goal, r, u, params, p, s, oldCode, oldChar, output, code);
      var word;
      word, freeEnt := EmitWord(prefix, suffix, freeEnt, code, oldCode, oldChar);
      output := output + word;
      p, s := prefix[..freeEnt], suffix[..freeEnt];
      oldCode := code;
      oldChar := word[0];
    }
  }

  /** `decode_unix_compress`: on every input it ends without leaving its arrays, and returns what the
      input decompresses to. */
  method DecodeUnixCompress(input: seq<byte>) returns (output: seq<byte>)
    ensures output == Decompress(input)
  {
    hide OnTrack, Widens, Pow2, Decode, Chained, NextCode, CodeReader.Left;
    if |input| < 3 {
      return [];
    }
    var maxBits := input[2] % 0x20;
    if !(9 <= maxBits <= 16) {
      return [];
    }
    var blockMode := input[2] >= 0x80;
    LargePower(maxBits);
    var maxFree := Pow2(maxBits) - 256;
    var prefix, suffix := new nat[maxFree](_ => 0), new byte[maxFree](_ => 0);
    var reader := new CodeReader(input[3..]);
    var freeEnt := if blockMode then 1 else 0;
    ghost var u, params := Unread(0, 0, input[3..]), Params(maxBits, blockMode);
    var firstCode := reader.Code(9, true);
    if firstCode.None? {
      NoFirstCode(u, params);
      return [];
    }
    ghost var r := FirstCode(u, params, firstCode.value, reader.Left());
    if firstCode.value > 255 {
      return [];
    }
    ghost var table: seq<nat> := if blockMode then [0] else [];
    assert prefix[..freeEnt] == table && suffix[..freeEnt] == table;
    ChainedStart(prefix[..freeEnt]);
    output := DecodeCodes(reader, prefix, suffix, maxBits, blockMode, freeEnt, firstCode.value,
                          Decode(u, Opening(blockMode), params), r);
  }

  lemma NoFirstCode(u: Unread, p: Params)
    requires NextCode(u, 9, true).None?
    ensures Decode(u, Opening(p.block), p) == []
  {
    hide NextCode;
  }

  lemma ChainedStart(prefix: seq<nat>)
    requires prefix == [] || prefix == [0]
    ensures Chained(prefix)
  {
  }

  /** The encoder followed by the decoder: settings that are not accepted are refused, data that suits
      the others comes back, and but for runs of zero bytes no other does. */
  method RoundTrip(data: seq<byte>, o: Settings) returns (result: Option<seq<byte>>)
    ensures result.Some? <==> Accepted(o)
    ensures result.Some? && Suits(data, o) ==> result == Some(data)
    ensures result.Some? && !Deceptive(data, o) ==> (result == Some(data) <==> Suits(data, o))
  {
    hide Decompress, Deceptive, Suits;
    var file := UnixCompress(data, o);
    if file.None? {
      return None;
    }
    RoundTripCondition(data, o);
    var output := DecodeUnixCompress(file.value);
    return Some(output);
  }
}
