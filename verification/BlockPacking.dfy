/** The block writer of the Unix-compress encoder: codes of varying widths in blocks of `width`
    bytes, least significant bit first, and how they are read back. */
module BlockPacking {
  import opened Ints
  import opened Bits
  import opened CodeStream

  // ---------------------------------------------------------------- the writer

  /** The bytes written so far, and the block that is being filled. */
  datatype Writer = Writer(body: seq<byte>, width: nat, block: nat, bits: nat)

  const FRESH := Writer([], 9, 0, 0)

  /** The block is appended as n bytes. */
  function Flushed(w: Writer, n: nat): Writer {
    Writer(w.body + LowBytes(w.block, n), w.width, 0, 0)
  }

  function FlushedIfUsed(w: Writer): Writer {
    if w.bits != 0 then Flushed(w, w.width) else w
  }

  /** `block |= code << block_bits`. */
  function Added(w: Writer, r: Record): Writer {
    w.(block := BitOr(w.block, Shifted(r.code, w.bits)), bits := w.bits + r.width)
  }

  /** One round of the writing loop. */
  function Put(w: Writer, r: Record): Writer {
    var sized := if r.width != w.width then FlushedIfUsed(w).(width := r.width) else w;
    var ready := if sized.bits + r.width > sized.width * 8 then Flushed(sized, sized.width) else sized;
    var added := Added(ready, r);
    var full := if added.bits == added.width * 8 then Flushed(added, added.width) else added;
    if r.reset then FlushedIfUsed(full).(width := 9, block := 0, bits := 0) else full
  }

  /** Every code fits the width it is written with. */
  predicate Writable(rs: seq<Record>) {
    forall i :: 0 <= i < |rs| ==> 0 < rs[i].width && rs[i].code < Pow2(rs[i].width)
  }

  function PutAll(w: Writer, rs: seq<Record>): Writer {
    if rs == [] then w else Put(PutAll(w, rs[..|rs| - 1]), rs[|rs| - 1])
  }

  /** The last block is cut to the bytes that its codes need. */
  function Closed(w: Writer): seq<byte> {
    if w.bits != 0 then w.body + LowBytes(w.block, (w.bits + 7) / 8) else w.body
  }

  /** The bytes behind the header. */
  function PackedBytes(rs: seq<Record>): seq<byte> {
    Closed(PutAll(FRESH, rs))
  }

  /** `flush_block`: appends the low bytes of a block. */
  method FlushBlock(output: seq<byte>, widthBits: nat, value: nat) returns (output': seq<byte>)
    ensures output' == output + LowBytes(value, widthBits)
  {
    output' := output;
    var v := value;
    for i := 0 to widthBits
      invariant output' + LowBytes(v, widthBits - i) == output + LowBytes(value, widthBits)
    {
      ghost var rest := LowBytes(v / 256, widthBits - i - 1);
      assert output' + ([v % 256] + rest) == (output' + [v % 256]) + rest;
      output' := output' + [v % 256];
      v := v / 256;
    }
  }

  /** One round of the writing loop of `unix_compress`. */
  method PutRecord(header: seq<byte>, before: seq<byte>, r: Record, ghost w: Writer, width: nat, value: nat, used: nat)
    returns (output: seq<byte>, blockWidth: nat, block: nat, blockBits: nat)
    requires before == header + w.body && w == Writer(w.body, width, value, used)
    ensures output == header + Put(w, r).body
    ensures blockWidth == Put(w, r).width && block == Put(w, r).block && blockBits == Put(w, r).bits
  {
    hide LowBytes, Shifted, BitOr;
    ghost var body := w.body;
    output, blockWidth, block, blockBits := before, width, value, used;
    var code, codeWidth, resetAfter := r.code, r.width, r.reset;
    if codeWidth != blockWidth {
      if blockBits != 0 {
        output := FlushBlock(output, blockWidth, block);
        body := body + LowBytes(block, blockWidth);
        block := 0;
        blockBits := 0;
      }
      blockWidth := codeWidth;
    }
    if blockBits + codeWidth > blockWidth * 8 {
      output := FlushBlock(output, blockWidth, block);
      body := body + LowBytes(block, blockWidth);
      block := 0;
      blockBits := 0;
    }
    assert output == header + body;
    block := BitOr(block, Shifted(code, blockBits));
    blockBits := blockBits + codeWidth;
    if blockBits == blockWidth * 8 {
      output := FlushBlock(output, blockWidth, block);
      body := body + LowBytes(block, blockWidth);
      block := 0;
      blockBits := 0;
    }
    if resetAfter {
      if blockBits != 0 {
        output := FlushBlock(output, blockWidth, block);
        body := body + LowBytes(block, blockWidth);
      }
      block := 0;
      blockBits := 0;
      blockWidth := 9;
    }
  }

  /** The writing loop of `unix_compress`. */
  method PackRecords(header: seq<byte>, records: seq<Record>) returns (output: seq<byte>)
    ensures output == header + PackedBytes(records)
  {
    hide LowBytes, Put;
    output := header;
    var blockWidth, block: nat, blockBits: nat := 9, 0, 0;
    assert records[..0] == [];
    for i := 0 to |records|
      invariant output == header + PutAll(FRESH, records[..i]).body
      invariant PutAll(FRESH, records[..i]) == Writer(PutAll(FRESH, records[..i]).body, blockWidth, block, blockBits)
    {
      assert records[..i + 1][..i] == records[..i];
      output, blockWidth, block, blockBits :=
        PutRecord(header, output, records[i], PutAll(FRESH, records[..i]), blockWidth, block, blockBits);
    }
    assert records[..|records|] == records;
    if blockBits != 0 {
      output := FlushBlock(output, (blockBits + 7) / 8, block);
    }
  }

  // ---------------------------------------------------------------- reading back

  /** The body takes a reader through the codes done, whatever follows the body. */
  ghost predicate Passes(body: seq<byte>, done: seq<Record>, at: Place) {
    forall rest: seq<byte> {:trigger body + rest} ::
      Reads(Begin(body + rest), done, at.(u := at.u.(rest := rest)))
  }

  /** The codes already in the body, those still in the block, and where the former leave a reader. */
  datatype Mark = Mark(done: seq<Record>, pending: seq<Record>, at: Place)

  /** Reading a code of width w at this place fetches a block. */
  predicate Fetches(at: Place, w: nat) {
    at.stale || w != at.width || at.u.bits < w
  }

  /** No code but the last one starts the stream anew. */
  predicate Straight(rs: seq<Record>) {
    forall i :: 0 <= i < |rs| - 1 ==> !rs[i].reset
  }

  ghost predicate Filling(w: Writer, m: Mark) {
    && Passes(w.body, m.done, m.at) && 0 < w.width
    && FitWidth(m.pending, w.width) && |m.pending| <= 8 && Straight(m.pending)
    && w.block == PackedValue(m.pending, w.width) && w.bits == |m.pending| * w.width
    && (m.pending != [] ==> Fetches(m.at, w.width))
  }

  /** Between two codes the block is not full, and an empty one will be fetched. */
  ghost predicate Written(w: Writer, m: Mark) {
    && Filling(w, m) && |m.pending| < 8 && (forall r :: r in m.pending ==> !r.reset)
    && (m.pending == [] ==> m.at.stale || m.at.u.bits == 0)
  }

  /** Where reading these codes from a block of n bytes ends. */
  function Behind(rs: seq<Record>, w: nat, value: nat, n: nat): Place
    requires 0 <= |rs| * w <= 8 * n && rs != []
  {
    Place(Unread(Remains(value, n, |rs| * w), 8 * n - |rs| * w, []), w, rs[|rs| - 1].reset)
  }

  /** At most eight codes in the low bits of an appended block are read, whatever is above them. */
  lemma BlockPasses(body: seq<byte>, done: seq<Record>, at: Place, rs: seq<Record>, w: nat, value: nat)
    requires Passes(body, done, at) && 0 < w && FitWidth(rs, w) && rs != [] && |rs| <= 8 && Straight(rs)
    requires Fetches(at, w) && 0 <= |rs| * w && value % Pow2(|rs| * w) == PackedValue(rs, w)
    ensures |rs| * w <= 8 * w
    ensures Passes(body + LowBytes(value, w), done + rs, Behind(rs, w, value, w))
  {
    hide LowBytes, PackedValue, Reads, Pow2, Remains;
    MulMonotone(|rs|, 8, w);
    var block := LowBytes(value, w);
    var end := Behind(rs, w, value, w);
    forall rest: seq<byte>
      ensures Reads(Begin(body + block + rest), done + rs, end.(u := end.u.(rest := rest)))
    {
      assert body + block + rest == body + (block + rest);
      var m := at.(u := at.u.(rest := block + rest));
      BlockReads(m, rs, w, value, w, rest);
      ReadsConcat(Begin(body + block + rest), done, m, rs, end.(u := end.u.(rest := rest)));
    }
  }

  /** One more code in the block. */
  lemma AddedFills(w: Writer, m: Mark, r: Record)
    requires Filling(w, m) && |m.pending| < 8 && (forall q :: q in m.pending ==> !q.reset)
    requires r.width == w.width && r.code < Pow2(w.width) && Fetches(m.at, w.width)
    ensures Filling(Added(w, r), m.(pending := m.pending + [r]))
  {
    hide Pow2, PackedValue, BitOr, Passes;
    PackedBound(m.pending, w.width);
    BitOrAdds(w.block, r.code, w.bits);
    PackedAppend(m.pending, r, w.width);
    OneMoreCode(|m.pending|, w.width);
  }

  /** A flushed block is passed. */
  lemma FlushedPasses(w: Writer, m: Mark) returns (m': Mark)
    requires Filling(w, m) && m.pending != []
    ensures m'.done == m.done + m.pending && m'.pending == []
    ensures 0 <= |m.pending| * w.width <= 8 * w.width
    ensures m'.at == Behind(m.pending, w.width, w.block, w.width)
    ensures forall v: nat :: 0 < v ==> Filling(Flushed(w, w.width).(width := v), m')
  {
    hide LowBytes, Passes, Pow2, Remains;
    MulMonotone(0, |m.pending|, w.width);
    PackedBound(m.pending, w.width);
    SmallModulo(w.block, Pow2(|m.pending| * w.width));
    BlockPasses(w.body, m.done, m.at, m.pending, w.width, w.block);
    m' := Mark(m.done + m.pending, [], Behind(m.pending, w.width, w.block, w.width));
    forall v: nat | 0 < v ensures Filling(Flushed(w, w.width).(width := v), m') {
      EmptyBlock(v);
    }
  }

  lemma EmptyBlock(w: nat)
    ensures PackedValue([], w) == 0 && 0 * w == 0
  {
  }

  /** The writer makes room: it takes the width of the next code, behind a flushed block if need be. */
  lemma SizedFills(w: Writer, m: Mark, r: Record) returns (m': Mark)
    requires Written(w, m) && 0 < r.width
    ensures var sized := if r.width != w.width then FlushedIfUsed(w).(width := r.width) else w;
            && Filling(sized, m') && |m'.pending| < 8 && (forall q :: q in m'.pending ==> !q.reset)
            && m'.done + m'.pending == m.done + m.pending && Fetches(m'.at, r.width) && sized.width == r.width
            && sized.bits + r.width <= sized.width * 8
  {
    hide LowBytes, Passes, PackedValue, FitWidth;
    m' := m;
    if m.pending != [] {
      MulMonotone(1, |m.pending|, w.width);
      if r.width != w.width {
        m' := FlushedPasses(w, m);
        assert m.pending[|m.pending| - 1] in m.pending;
        assert m.done + m.pending + [] == m.done + m.pending;
      } else {
        OneMoreCode(|m.pending|, w.width);
        MulMonotone(|m.pending| + 1, 8, w.width);
      }
    } else if r.width != w.width {
      Resized(w, m, r.width);
    }
  }

  lemma Resized(w: Writer, m: Mark, v: nat)
    requires Filling(w, m) && m.pending == [] && 0 < v
    ensures w.bits == 0 && Filling(w.(width := v), m)
  {
    hide Passes;
    EmptyBlock(v);
    EmptyBlock(w.width);
  }

  /** One round of the writing loop adds its code to those that are read back. */
  lemma PutWrites(w: Writer, m: Mark, r: Record) returns (m': Mark)
    requires Written(w, m) && 0 < r.width && r.code < Pow2(r.width)
    ensures Written(Put(w, r), m')
    ensures m'.done + m'.pending == m.done + m.pending + [r]
  {
    hide LowBytes, Passes, PackedValue, FitWidth, Pow2, Shifted;
    m' := SizedFills(w, m, r);
    var sized := if r.width != w.width then FlushedIfUsed(w).(width := r.width) else w;
    AddedFills(sized, m', r);
    assert m'.done + (m'.pending + [r]) == m.done + m.pending + [r];
    m' := m'.(pending := m'.pending + [r]);
    var added := Added(sized, r);
    CountCodes(|m'.pending|, r.width);
    if |m'.pending| == 8 || r.reset {
      MulMonotone(1, |m'.pending|, r.width);
      ghost var end := FlushedPasses(added, m');
      assert m'.done + m'.pending + [] == m'.done + m'.pending;
      assert Flushed(added, added.width).(width := added.width) == Flushed(added, added.width);
      m' := end;
    }
  }

  lemma CountCodes(n: nat, w: nat)
    requires 0 < w
    ensures n * w == w * 8 <==> n == 8
  {
    if n < 8 {
      MulStrict(n, 8, w);
    } else if 8 < n {
      MulStrict(8, n, w);
    }
  }

  lemma {:induction false} PutAllGoesOn(w: Writer, m: Mark, rs: seq<Record>) returns (m': Mark)
    requires Written(w, m) && Writable(rs)
    ensures Written(PutAll(w, rs), m') && m'.done + m'.pending == m.done + m.pending + rs
  {
    hide Put, Written;
    if rs == [] {
      m' := m;
      assert m.done + m.pending + [] == m.done + m.pending;
    } else {
      m' := PutAllGoesOn(w, m, rs[..|rs| - 1]);
      m' := PutWrites(PutAll(w, rs[..|rs| - 1]), m', rs[|rs| - 1]);
      assert rs == rs[..|rs| - 1] + [rs[|rs| - 1]];
    }
  }

  lemma PutAllWrites(rs: seq<Record>) returns (m: Mark)
    requires Writable(rs)
    ensures Written(PutAll(FRESH, rs), m) && m.done + m.pending == rs
  {
    hide PutAll, Written;
    NothingWritten();
    m := PutAllGoesOn(FRESH, Mark([], [], Place(Unread(0, 0, []), 9, true)), rs);
    assert [] + [] + rs == rs;
  }

  lemma NothingWritten()
    ensures Written(FRESH, Mark([], [], Place(Unread(0, 0, []), 9, true)))
  {
    EmptyBlock(9);
    forall rest: seq<byte> ensures [] + rest == rest {
    }
  }

  /** The codes in a last block of n bytes are read. */
  lemma LastBlockReads(w: Writer, m: Mark, value: nat, n: nat) returns (q: Place)
    requires Written(w, m) && m.pending != []
    requires value % Pow2(w.bits) == w.block && w.bits <= 8 * n && n <= w.width
    ensures Reads(Begin(w.body + LowBytes(value, n)), m.done + m.pending, q)
    ensures q.u.rest == [] && q.u.bits == 8 * n - w.bits
  {
    hide LowBytes, PackedValue, Reads, Pow2, Remains;
    var tail := LowBytes(value, n);
    var at := m.at.(u := m.at.u.(rest := tail));
    MulMonotone(0, |m.pending|, w.width);
    q := Behind(m.pending, w.width, value, n);
    assert tail + [] == tail;
    BlockReads(at, m.pending, w.width, value, n, []);
    ReadsConcat(Begin(w.body + tail), m.done, at, m.pending, q);
  }

  /** All codes of a closed writer are read, and nothing more can be. */
  lemma ClosedReads(w: Writer, m: Mark) returns (q: Place)
    requires Written(w, m)
    ensures Reads(Begin(Closed(w)), m.done + m.pending, q)
    ensures q.u.rest == [] && (q.stale || q.u.bits < 8)
  {
    hide LowBytes, PackedValue, FitWidth, Pow2, Reads, NextCode;
    if m.pending == [] {
      assert m.done + [] == m.done && w.body + [] == w.body;
      EmptyBlock(w.width);
      q := m.at.(u := m.at.u.(rest := []));
    } else {
      MulMonotone(1, |m.pending|, w.width);
      SevenBlock(|m.pending|, w.width);
      PackedBound(m.pending, w.width);
      SmallModulo(w.block, Pow2(w.bits));
      q := LastBlockReads(w, m, w.block, (w.bits + 7) / 8);
    }
  }

  /** Every list of codes that fit their widths is read back as exactly these codes, and nothing
      more can be read. */
  lemma PackingReadsBack(rs: seq<Record>) returns (q: Place)
    requires Writable(rs)
    ensures Reads(Begin(PackedBytes(rs)), rs, q) && NoMore(q)
  {
    hide PutAll, Closed, Written, Reads, NoMore;
    var m := PutAllWrites(rs);
    q := ClosedReads(PutAll(FRESH, rs), m);
    NothingLeft(q);
  }

  lemma SevenBlock(n: nat, w: nat)
    requires n < 8 && 0 < w
    ensures (n * w + 7) / 8 <= w
  {
    MulMonotone(n, 7, w);
  }

  lemma NothingLeft(q: Place)
    requires q.u.rest == [] && (q.stale || q.u.bits < 8)
    ensures NoMore(q)
  {
  }

  /** A reader that is given the widths recovers exactly the codes, and nothing more can be read. */
  lemma PackingUnpacks(rs: seq<Record>)
    requires Writable(rs)
    ensures var u := Unpack(Begin(PackedBytes(rs)), Shape(rs));
            u.Some? && u.value.codes == Codes(rs) && NoMore(u.value.place)
  {
    hide PackedBytes, Reads, NoMore, Unpack;
    var q := PackingReadsBack(rs);
    ReadsIsUnpack(Begin(PackedBytes(rs)), rs, q);
  }

  /** Packing is injective on lists with the same widths. */
  lemma PackingIsInjective(rs: seq<Record>, rs': seq<Record>)
    requires Writable(rs) && Writable(rs') && Shape(rs) == Shape(rs') && PackedBytes(rs) == PackedBytes(rs')
    ensures rs == rs'
  {
    hide PackedBytes, NoMore, Unpack;
    PackingUnpacks(rs);
    PackingUnpacks(rs');
    assert Codes(rs) == Codes(rs');
    forall i | 0 <= i < |rs| ensures rs[i] == rs'[i] {
      assert Codes(rs)[i] == Codes(rs')[i] && Shape(rs)[i] == Shape(rs')[i];
    }
  }

  /** Without the widths it is not: zeros of different widths give the same bytes. */
  lemma WidthsMatter(w: nat, w': nat)
    requires 8 < w <= 16 && 8 < w' <= 16
    ensures var rs, rs' := [Record(0, w, false)], [Record(0, w', false)];
            Writable(rs) && Writable(rs') && PackedBytes(rs) == PackedBytes(rs') == [0, 0]
  {
    OneZero(w);
    OneZero(w');
  }

  lemma OneZero(w: nat)
    requires 8 < w <= 16
    ensures Writable([Record(0, w, false)]) && PackedBytes([Record(0, w, false)]) == [0, 0]
  {
    hide LowBytes, Put;
    var r := Record(0, w, false);
    assert [r][..0] == [];
    ZeroCode(r);
    assert PutAll(FRESH, [r]) == Writer([], w, 0, w);
    TwoZeros();
  }

  lemma ZeroCode(r: Record)
    requires r.code == 0 && 8 < r.width <= 16 && !r.reset
    ensures Put(FRESH, r) == Writer([], r.width, 0, r.width)
  {
    assert Shifted(0, 0) == 0 && BitOr(0, 0) == 0;
    hide LowBytes, BitOr, Shifted;
  }

  lemma TwoZeros()
    ensures LowBytes(0, 2) == [0, 0]
  {
    assert LowBytes(0, 1) == [0] + LowBytes(0, 0);
  }

  /** Where no block is open, whatever comes next is left to read. */
  lemma BoundaryReads(rs: seq<Record>, tail: seq<byte>) returns (q: Place)
    requires Writable(rs) && PutAll(FRESH, rs).bits == 0
    ensures PutAll(FRESH, rs).block == 0
    ensures Reads(Begin(PutAll(FRESH, rs).body + tail), rs, q)
    ensures q.u.rest == tail && (q.stale || q.u.bits == 0)
  {
    hide Put, PackedValue, FitWidth, Reads, NextCode;
    var m := PutAllWrites(rs);
    if m.pending != [] {
      PendingBits(PutAll(FRESH, rs), m);
    }
    EmptyBlock(PutAll(FRESH, rs).width);
    assert m.done + [] == m.done;
    q := m.at.(u := m.at.u.(rest := tail));
  }

  // ---------------------------------------------------------------- codes in front of anything

  /** A later writer w' still holds what w has written: in the same block, or in front. */
  ghost predicate Keeps(w: Writer, w': Writer) {
    || SameBlock(w, w')
    || exists value: nat {:trigger LowBytes(value, w.width)} ::
         value % Pow2(w.bits) == w.block % Pow2(w.bits) && w.body + LowBytes(value, w.width) <= w'.body
  }

  predicate SameBlock(w: Writer, w': Writer) {
    && w'.body == w.body && w'.width == w.width
    && w.bits <= w'.bits <= 8 * w.width && w'.block % Pow2(w.bits) == w.block % Pow2(w.bits)
  }

  lemma FlushKeeps(w: Writer, w': Writer)
    requires SameBlock(w, w')
    ensures Keeps(w, Flushed(w', w'.width))
  {
    hide LowBytes, Pow2;
    assert w.body + LowBytes(w'.block, w.width) <= Flushed(w', w'.width).body;
  }

  /** Bodies only grow. */
  lemma PutGrows(w: Writer, r: Record)
    ensures w.body <= Put(w, r).body
  {
    hide LowBytes, BitOr;
  }

  lemma PutKeeps(w: Writer, w': Writer, r: Record)
    requires Keeps(w, w') && 0 < w.bits && 0 < r.width
    ensures Keeps(w, Put(w', r))
  {
    if SameBlock(w, w') {
      SameBlockKeeps(w, w', r);
    } else {
      hide LowBytes, Put, Pow2;
      PutGrows(w', r);
    }
  }

  lemma SameBlockKeeps(w: Writer, w': Writer, r: Record)
    requires SameBlock(w, w') && 0 < w.bits && 0 < r.width
    ensures Keeps(w, Put(w', r))
  {
    hide LowBytes, BitOr, Keeps, SameBlock, Shifted, Pow2;
    SameBlockShape(w, w');
    if r.width != w'.width || w'.bits + r.width > w'.width * 8 {
      FlushKeeps(w, w');
      FlushedStays(w, Flushed(w', w'.width).body, Put(w', r));
    } else {
      var added := Added(w', r);
      AddedKeeps(w, w', r);
      if added.bits == added.width * 8 || r.reset {
        FlushKeeps(w, added);
        FlushedStays(w, Flushed(added, added.width).body, Put(w', r));
      } else {
        InBlock(w, added);
      }
    }
  }

  lemma SameBlockShape(w: Writer, w': Writer)
    requires SameBlock(w, w')
    ensures w'.body == w.body && w'.width == w.width && w.bits <= w'.bits <= 8 * w.width
  {
  }

  lemma InBlock(w: Writer, w': Writer)
    requires SameBlock(w, w')
    ensures Keeps(w, w')
  {
  }

  lemma AddedKeeps(w: Writer, w': Writer, r: Record)
    requires SameBlock(w, w') && r.width == w'.width && w'.bits + r.width <= w'.width * 8
    ensures SameBlock(w, Added(w', r))
  {
    hide BitOr, Pow2;
    BitOrKeepsLow(w'.block, r.code, w'.bits, w.bits);
  }

  /** What is in front stays in front. */
  lemma FlushedStays(w: Writer, body: seq<byte>, w': Writer)
    requires Keeps(w, Writer(body, w.width, 0, 0)) && 0 < w.bits && body <= w'.body
    ensures Keeps(w, w')
  {
    hide LowBytes, Pow2;
  }

  lemma {:induction false} PutAllKeeps(w: Writer, w': Writer, rs: seq<Record>)
    requires Keeps(w, w') && 0 < w.bits && forall i :: 0 <= i < |rs| ==> 0 < rs[i].width
    ensures Keeps(w, PutAll(w', rs))
  {
    hide Keeps, Put;
    if rs != [] {
      PutAllKeeps(w, w', rs[..|rs| - 1]);
      PutKeeps(w, PutAll(w', rs[..|rs| - 1]), rs[|rs| - 1]);
    }
  }

  lemma {:induction false} PutAllGrows(w: Writer, rs: seq<Record>)
    ensures w.body <= PutAll(w, rs).body
  {
    hide Put;
    if rs != [] {
      PutAllGrows(w, rs[..|rs| - 1]);
      PutGrows(PutAll(w, rs[..|rs| - 1]), rs[|rs| - 1]);
    }
  }

  lemma {:induction false} PutAllConcat(w: Writer, a: seq<Record>, b: seq<Record>)
    ensures PutAll(w, a + b) == PutAll(PutAll(w, a), b)
    decreases |b|
  {
    hide Put;
    if b == [] {
      assert a + b == a;
    } else {
      assert (a + b)[..|a + b| - 1] == a + b[..|b| - 1];
      PutAllConcat(w, a, b[..|b| - 1]);
    }
  }

  /** The codes of a writer are read back from whatever a later one closes with. */
  lemma KeptReads(w: Writer, m: Mark, w': Writer, all: seq<byte>) returns (q: Place)
    requires Written(w, m) && all == Closed(w') && if m.pending == [] then w.body <= w'.body else Keeps(w, w')
    ensures Reads(Begin(all), m.done + m.pending, q)
  {
    hide LowBytes, PackedValue, FitWidth, Pow2, Reads, Remains;
    if m.pending == [] {
      var rest := all[|w.body|..];
      assert all == w.body + rest && m.done + [] == m.done;
      q := m.at.(u := m.at.u.(rest := rest));
    } else {
      MulMonotone(1, |m.pending|, w.width);
      MulMonotone(|m.pending|, 8, w.width);
      PackedBound(m.pending, w.width);
      SmallModulo(w.block, Pow2(w.bits));
      if SameBlock(w, w') {
        q := LastBlockReads(w, m, w'.block, (w'.bits + 7) / 8);
      } else {
        var value: nat :| value % Pow2(w.bits) == w.block % Pow2(w.bits)
          && w.body + LowBytes(value, w.width) <= w'.body;
        var front := w.body + LowBytes(value, w.width);
        BlockPasses(w.body, m.done, m.at, m.pending, w.width, value);
        var end, rest := Behind(m.pending, w.width, value, w.width), all[|front|..];
        assert all == front + rest;
        q := end.(u := end.u.(rest := rest));
      }
    }
  }

  /** Codes that fit are read back whatever is written behind them.  A last code that does not fit
      is read without its high bits. */
  lemma PrefixReads(rs: seq<Record>, x: Record, more: seq<Record>) returns (q: Place)
    requires Writable(rs) && 0 < x.width && !x.reset && forall i :: 0 <= i < |more| ==> 0 < more[i].width
    ensures Reads(Begin(PackedBytes(rs + [x] + more)), rs + [x.(code := LowBits(x.code, x.width))], q)
  {
    hide Put, LowBytes, PackedValue, FitWidth, Pow2, Reads, NextCode, LowBits, Written, Keeps, Closed;
    var low := x.(code := LowBits(x.code, x.width));
    LowBitsBelow(x.code, x.width);
    var m := PutAllWrites(rs + [low]);
    assert (rs + [low])[..|rs|] == rs == (rs + [x])[..|rs|];
    var w0 := PutAll(FRESH, rs);
    var w := Put(w0, low);
    var m0 := PutAllWrites(rs);
    CutCode(w0, m0, x);
    PutAllConcat(FRESH, rs + [x], more);
    var w' := PutAll(Put(w0, x), more);
    if m.pending == [] {
      PutAllGrows(Put(w0, x), more);
    } else {
      PendingBits(w, m);
      PutAllKeeps(w, Put(w0, x), more);
    }
    q := KeptReads(w, m, w', Closed(w'));
  }

  lemma LowBitsBelow(v: nat, w: nat)
    ensures LowBits(v, w) < Pow2(w)
  {
  }

  lemma PendingBits(w: Writer, m: Mark)
    requires Written(w, m) && m.pending != []
    ensures 0 < w.bits
  {
    MulMonotone(1, |m.pending|, w.width);
  }

  /** Cutting a code to its width changes nothing below its end. */
  lemma CutCode(w: Writer, m: Mark, x: Record)
    requires Written(w, m) && 0 < x.width && !x.reset
    ensures var low := Put(w, x.(code := LowBits(x.code, x.width)));
            low.body == Put(w, x).body && Keeps(low, Put(w, x))
  {
    hide LowBytes, BitOr, PackedValue, Filling, Written, Pow2, LowBits, Keeps, Shifted;
    var m' := SizedFills(w, m, x);
    var sized := if x.width != w.width then FlushedIfUsed(w).(width := x.width) else w;
    FillingBound(sized, m');
    CutAdded(sized, x);
    CutFull(Added(sized, x.(code := LowBits(x.code, x.width))), Added(sized, x));
  }

  lemma CutFull(cut: Writer, full: Writer)
    requires full == cut.(block := full.block) && cut.block == full.block % Pow2(full.bits)
    requires full.bits <= 8 * full.width
    ensures var c := if cut.bits == cut.width * 8 then Flushed(cut, cut.width) else cut;
            var f := if full.bits == full.width * 8 then Flushed(full, full.width) else full;
            c.body == f.body && Keeps(c, f)
  {
    hide LowBytes, Pow2, Keeps;
    if full.bits == full.width * 8 {
      LowBytesCut(full.block, full.width);
      Unchanged(Flushed(full, full.width));
    } else {
      TwiceCut(full.block, full.bits);
      InBlock(cut, full);
    }
  }

  lemma TwiceCut(v: nat, k: nat)
    ensures v % Pow2(k) % Pow2(k) == v % Pow2(k)
  {
    SmallModulo(v % Pow2(k), Pow2(k));
  }

  lemma Unchanged(w: Writer)
    ensures w.bits <= 8 * w.width ==> Keeps(w, w)
  {
  }

  lemma FillingBound(w: Writer, m: Mark)
    requires Filling(w, m)
    ensures w.block < Pow2(w.bits)
  {
    PackedBound(m.pending, w.width);
  }

  lemma CutAdded(w: Writer, x: Record)
    requires w.block < Pow2(w.bits)
    ensures var cut, full := Added(w, x.(code := LowBits(x.code, x.width))), Added(w, x);
            full == cut.(block := full.block) && cut.block == full.block % Pow2(full.bits)
  {
    hide BitOr;
    BitOrAdds(w.block, x.code, w.bits);
    BitOrAdds(w.block, LowBits(x.code, x.width), w.bits);
    Pow2Sum(w.bits, x.width);
    hide Pow2;
    CutSum(w.block, x.code, Pow2(w.bits), Pow2(x.width));
  }

  lemma CutSum(b: nat, c: nat, k: nat, p: nat)
    requires b < k && 0 < p
    ensures 0 < k * p && (b + c * k) % (k * p) == b + (c % p) * k
  {
    LowDigit(b + c * k, k, p);
    DivUnique(b + c * k, k, c, b);
  }

  // ---------------------------------------------------------------- a code that outgrows its width

  /** The first code of a block that is flushed right behind it is read without its high bits. */
  lemma SpilledPasses(w: Writer, m: Mark, x: Record, width: nat) returns (m': Mark)
    requires Written(w, m) && m.pending == [] && x.width == w.width && 0 < width != x.width && !x.reset
    ensures m'.done == m.done + [x.(code := LowBits(x.code, x.width))] && m'.pending == []
    ensures Filling(Writer(w.body + LowBytes(x.code, x.width), width, 0, 0), m') && Fetches(m'.at, width)
  {
    hide LowBytes, Passes, Pow2, Remains;
    var cut := x.(code := LowBits(x.code, x.width));
    LowBitsBelow(x.code, x.width);
    OneCode(cut);
    BlockPasses(w.body, m.done, m.at, [cut], w.width, x.code);
    m' := Mark(m.done + [cut], [], Behind([cut], w.width, x.code, w.width));
    EmptyBlock(width);
  }

  lemma OneCode(x: Record)
    ensures PackedValue([x], x.width) == x.code && |[x]| * x.width == x.width
  {
    assert [x][1..] == [];
  }

  /** Such a code does not disturb the other ones, all of which are read. */
  lemma SpilledReads(rs: seq<Record>, x: Record, y: Record, more: seq<Record>) returns (q: Place)
    requires Writable(rs) && PutAll(FRESH, rs).bits == 0 && PutAll(FRESH, rs).width == x.width && !x.reset
    requires 0 < y.width != x.width && y.code < Pow2(y.width) && !y.reset && Writable(more)
    ensures Reads(Begin(PackedBytes(rs + [x] + [y] + more)),
                  rs + [x.(code := LowBits(x.code, x.width))] + [y] + more, q) && NoMore(q)
  {
    hide PutAll, Closed, Written, Reads, NoMore, Put, LowBits, Pow2;
    var w, cut := PutAll(FRESH, rs), x.(code := LowBits(x.code, x.width));
    var m := PutAllWrites(rs);
    BoundaryMark(w, m);
    assert m.done + [] == m.done;
    var m1 := SpilledPasses(w, m, x, y.width);
    var body := w.body + LowBytes(x.code, x.width);
    var v, m2 := SpilledThen(Writer(body, y.width, 0, 0), m1, y);
    PutSpilled(w, x, y);
    var m3 := PutAllGoesOn(v, m2, more);
    assert rs + [x] + [y] == rs + [x, y];
    PutAllConcat(FRESH, rs, [x, y]);
    PutAllConcat(FRESH, rs + [x] + [y], more);
    PutTwo(w, x, y);
    q := ClosedReads(PutAll(v, more), m3);
    NothingLeft(q);
    assert m3.done + m3.pending == rs + [cut] + [y] + more;
  }

  lemma BoundaryMark(w: Writer, m: Mark)
    requires Written(w, m) && w.bits == 0
    ensures m.pending == [] && w.block == 0 && 0 < w.width
  {
    if m.pending != [] {
      PendingBits(w, m);
    }
    EmptyBlock(w.width);
  }

  lemma SpilledThen(w: Writer, m: Mark, y: Record) returns (v: Writer, m': Mark)
    requires Filling(w, m) && m.pending == [] && w.width == y.width && w.bits == 0 && Fetches(m.at, y.width)
    requires y.code < Pow2(y.width) && !y.reset
    ensures v == Added(w, y) && Written(v, m') && m'.done + m'.pending == m.done + [y]
  {
    hide LowBytes, Passes, PackedValue, Pow2, Shifted;
    AddedFills(w, m, y);
    v, m' := Added(w, y), m.(pending := [] + [y]);
    assert [] + [y] == [y];
  }

  lemma PutSpilled(w: Writer, x: Record, y: Record)
    requires w.bits == 0 && w.block == 0 && x.width == w.width && 0 < x.width && 0 < y.width != x.width
    requires !x.reset && !y.reset
    ensures Put(Put(w, x), y) == Added(Writer(w.body + LowBytes(x.code, x.width), y.width, 0, 0), y)
  {
    hide LowBytes, BitOr;
    BitOrAdds(0, x.code, 0);
    assert Pow2(0) == 1;
  }

  lemma PutTwo(w: Writer, x: Record, y: Record)
    ensures PutAll(w, [x, y]) == Put(Put(w, x), y)
  {
    hide Put;
    assert [x, y][..1] == [x] && [x][..0] == [];
    assert PutAll(w, [x]) == Put(w, x);
  }
}
