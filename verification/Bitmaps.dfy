/** In-place emboldening of rows of gray pixels and of packed mono pixels. */
module Bitmaps {
  import opened Ints
  import opened Bits

  // ---------------------------------------------------------------- one row

  /** The sum of a row's pixels low .. high. */
  function WindowSum(row: seq<byte>, low: int, high: int): (r: nat)
    requires 0 <= low && high < |row|
    ensures high < low ==> r == 0
    decreases high - low
  {
    if high < low then 0 else row[low] + WindowSum(row, low + 1, high)
  }

  /** Pixel c of the emboldened row: the capped sum of itself and the xPixels pixels left of it.
      The first pixel has no left neighbour and is not capped either. */
  function SmearAt(row: seq<byte>, c: nat, xPixels: nat, maxGray: byte): byte
    requires c < |row|
  {
    if c == 0 || xPixels == 0 then row[c] else Min(maxGray, WindowSum(row, Max(0, c - xPixels), c))
  }

  function Smear(row: seq<byte>, xPixels: nat, maxGray: byte): seq<byte> {
    seq(|row|, c requires 0 <= c < |row| => SmearAt(row, c, xPixels, maxGray))
  }

  lemma {:induction false} WindowGrows(row: seq<byte>, low: int, low': int, high: int)
    requires 0 <= low <= low' && high < |row|
    ensures WindowSum(row, low', high) <= WindowSum(row, low, high)
    decreases low' - low
  {
    if low < low' {
      WindowGrows(row, low + 1, low', high);
    }
  }

  /** The inner loop at one pixel: adding left neighbours with saturation and capping, stopping
      early at the cap. */
  method SmearPixel(buf: array<byte>, start: nat, x: nat, xPixels: nat, maxGray: byte, ghost row: seq<byte>)
    requires x < |row| && start + |row| <= buf.Length
    requires forall c :: 0 <= c <= x ==> buf[start + c] == row[c]
    modifies buf
    ensures buf[start + x] == SmearAt(row, x, xPixels, maxGray)
    ensures forall k :: 0 <= k < buf.Length && k != start + x ==> buf[k] == old(buf[k])
  {
    var i := 1;
    while i <= xPixels && i <= x
      invariant 1 <= i && (i <= x + 1 || x == 0) && (i <= xPixels + 1 || xPixels == 0)
      invariant 1 < i ==> i <= x + 1 && i <= xPixels + 1
      invariant buf[start + x] == if i == 1 then row[x] else Min(maxGray, WindowSum(row, x - i + 1, x))
      invariant forall k :: 0 <= k < buf.Length && k != start + x ==> buf[k] == old(buf[k])
    {
      var src := buf[start + x - i];
      assert start + x - i == start + (x - i) && src == row[x - i];
      OneWider(row, x - i, x, maxGray);
      SinglePixel(row, x);
      var sum: int := buf[start + x] as int + src as int;
      buf[start + x] := Min(Min(sum, 255), maxGray);
      if buf[start + x] == maxGray {
        WindowGrows(row, Max(0, x - xPixels), x - i, x);
        return;
      }
      i := i + 1;
    }
  }

  lemma OneWider(row: seq<byte>, low: nat, high: nat, maxGray: byte)
    requires low < high < |row|
    ensures WindowSum(row, low, high) == row[low] + WindowSum(row, low + 1, high)
  {
  }

  lemma SinglePixel(row: seq<byte>, x: nat)
    requires x < |row|
    ensures WindowSum(row, x, x) == row[x]
  {
    assert WindowSum(row, x + 1, x) == 0;
  }

  /** The x loop, right to left, over one row of the buffer. */
  method SmearRow(buf: array<byte>, start: nat, pitch: nat, xPixels: nat, maxGray: byte)
    requires start + pitch <= buf.Length
    modifies buf
    ensures buf[start..start + pitch] == Smear(old(buf[start..start + pitch]), xPixels, maxGray)
    ensures forall k :: 0 <= k < buf.Length && !(start <= k < start + pitch) ==> buf[k] == old(buf[k])
  {
    hide SmearAt;
    ghost var row := buf[start..start + pitch];
    for x := pitch downto 0
      invariant forall c :: 0 <= c < x ==> buf[start + c] == row[c]
      invariant forall c :: x <= c < pitch ==> buf[start + c] == SmearAt(row, c, xPixels, maxGray)
      invariant forall k :: 0 <= k < buf.Length && !(start <= k < start + pitch) ==> buf[k] == old(buf[k])
    {
      SmearPixel(buf, start, x, xPixels, maxGray, row);
    }
  }

  // ---------------------------------------------------------------- one packed row

  /** Column j of a byte, column 0 leftmost. */
  ghost predicate Column(v: byte, j: nat)
    requires j < 8
  {
    Bit(v, 7 - j)
  }

  /** `v << bits` cut to a byte. */
  function ShiftUp8(v: byte, bits: nat): byte {
    v * Pow2(bits) % 256
  }

  /** `v >> bits`, the shift count masked to three bits as overflowing shifts are. */
  function ShiftDown8(v: byte, bits: nat): byte {
    ShiftedDownRange(v, bits % 8);
    v / Pow2(bits % 8)
  }

  lemma ShiftedDownRange(v: byte, bits: nat)
    ensures 0 <= v / Pow2(bits) < 256
  {
    var q := v / Pow2(bits);
    assert v == Pow2(bits) * q + v % Pow2(bits);
    if 256 <= q {
      MulMonotone(1, Pow2(bits), q);
    }
    if q < 0 {
      MulMonotone(q, -1, Pow2(bits));
    }
  }

  /** The byte after the first i shifts of the inner loop. */
  function MonoByte(prev: byte, cur: byte, i: nat): byte
    requires i <= 8
  {
    if i == 0 then cur
    else Or(Or(MonoByte(prev, cur, i - 1), ShiftDown8(cur, i)), ShiftUp8(prev, 8 - i))
  }

  /** A packed row emboldened by at most eight columns: each byte takes bits from itself and from
      the byte on its left. */
  function MonoSmear(row: seq<byte>, xPixels: nat): seq<byte>
    requires xPixels <= 8
  {
    seq(|row|, x requires 0 <= x < |row| => MonoByte(if x == 0 then 0 else row[x - 1], row[x], xPixels))
  }

  /** Column c of a packed row. */
  ghost predicate RowColumn(row: seq<byte>, c: nat)
    requires c < 8 * |row|
  {
    Column(row[c / 8], c % 8)
  }

  lemma ShiftColumns(cur: byte, prev: byte, i: nat, j: nat)
    requires 1 <= i < 8 && j < 8
    ensures Column(ShiftDown8(cur, i), j) <==> i <= j && Column(cur, j - i)
    ensures Column(ShiftUp8(prev, 8 - i), j) <==> j < i && Column(prev, 8 + j - i)
  {
    ByteRange();
    ShiftIsUnmasked(cur, i);
    hide ShiftDown8, Bit;
    ShiftRightBits(cur, i, 7 - j);
    if j < i {
      HighBitsClear(cur, 8, 7 - j + i);
    }
    ShiftLeftBits(prev, 8 - i, 7 - j);
    MulMonotone(0, prev, Pow2(8 - i));
    LowBitsKept(prev * Pow2(8 - i), 8, 7 - j);
  }

  lemma ShiftIsUnmasked(v: byte, i: nat)
    requires i < 8
    ensures ShiftDown8(v, i) == ShiftRight(v, i)
  {
    assert i % 8 == i;
  }

  /** A shift by eight brings the byte itself, which changes nothing, and all of its neighbour. */
  lemma EightShifts(cur: byte, prev: byte)
    ensures ShiftDown8(cur, 8) == cur && ShiftUp8(prev, 0) == prev
  {
    assert Pow2(0) == 1;
  }

  /** Column j, looking back i columns over the byte and its left neighbour. */
  ghost predicate Behind(prev: byte, cur: byte, j: nat, i: nat)
    requires i <= 8 && j < 8
  {
    if i <= j then Column(cur, j - i) else Column(prev, 8 + j - i)
  }

  lemma {:induction false} MonoByteColumns(prev: byte, cur: byte, n: nat, j: nat)
    requires n <= 8 && j < 8
    ensures Column(MonoByte(prev, cur, n), j) <==> exists i :: 0 <= i <= n && Behind(prev, cur, j, i)
  {
    hide Or, ShiftDown8, ShiftUp8, Bit;
    if n == 0 {
      assert Behind(prev, cur, j, 0) <==> Column(cur, j);
    } else {
      MonoByteColumns(prev, cur, n - 1, j);
      OrBits(MonoByte(prev, cur, n - 1), ShiftDown8(cur, n), 7 - j);
      OrBits(Or(MonoByte(prev, cur, n - 1), ShiftDown8(cur, n)), ShiftUp8(prev, 8 - n), 7 - j);
      if n < 8 {
        ShiftColumns(cur, prev, n, j);
      } else {
        EightShifts(cur, prev);
        assert Behind(prev, cur, j, 0) <==> Column(cur, j);
        assert Behind(prev, cur, j, 8) <==> Column(prev, j);
      }
      assert n < 8 ==> (Behind(prev, cur, j, n) <==> Column(ShiftDown8(cur, n), j) || Column(ShiftUp8(prev, 8 - n), j));
    }
  }

  /** The column i places to the left exists and is set. */
  ghost predicate SetToLeft(row: seq<byte>, c: nat, i: nat)
    requires c < 8 * |row|
  {
    i <= c && RowColumn(row, c - i)
  }

  /** The columns of an emboldened row: set when some column at most xPixels to the left was. */
  lemma MonoSmearColumns(row: seq<byte>, xPixels: nat, c: nat)
    requires xPixels <= 8 && c < 8 * |row|
    ensures RowColumn(MonoSmear(row, xPixels), c) <==> exists i :: 0 <= i <= xPixels && SetToLeft(row, c, i)
  {
    hide MonoByte, Behind, RowColumn, Column;
    var x, j := c / 8, c % 8;
    var prev: byte := if x == 0 then 0 else row[x - 1];
    MonoByteColumns(prev, row[x], xPixels, j);
    assert RowColumn(MonoSmear(row, xPixels), c) <==> Column(MonoByte(prev, row[x], xPixels), j) by {
      RowColumnAt(MonoSmear(row, xPixels), c);
    }
    forall i | 0 <= i <= xPixels
      ensures Behind(prev, row[x], j, i) <==> SetToLeft(row, c, i)
    {
      BehindIsLeft(row, prev, c, i);
    }
  }

  lemma RowColumnAt(row: seq<byte>, c: nat)
    requires c < 8 * |row|
    ensures RowColumn(row, c) <==> Column(row[c / 8], c % 8)
  {
  }

  lemma BehindIsLeft(row: seq<byte>, prev: byte, c: nat, i: nat)
    requires c < 8 * |row| && i <= 8 && prev == (if c / 8 == 0 then 0 else row[c / 8 - 1])
    ensures Behind(prev, row[c / 8], c % 8, i) <==> SetToLeft(row, c, i)
  {
    var x, j := c / 8, c % 8;
    if i <= j {
      assert (c - i) / 8 == x && (c - i) % 8 == j - i;
    } else if x == 0 {
      ZeroBits(7 - (8 + j - i));
    } else {
      assert (c - i) / 8 == x - 1 && (c - i) % 8 == 8 + j - i;
    }
  }

  /** The inner loop at one byte. */
  method MonoPixel(buf: array<byte>, start: nat, x: nat, xPixels: nat, ghost row: seq<byte>)
    requires x < |row| && start + |row| <= buf.Length && xPixels <= 8
    requires forall c :: 0 <= c <= x ==> buf[start + c] == row[c]
    modifies buf
    ensures buf[start + x] == MonoByte(if x == 0 then 0 else row[x - 1], row[x], xPixels)
    ensures forall k :: 0 <= k < buf.Length && k != start + x ==> buf[k] == old(buf[k])
  {
    hide Or;
    var source := buf[start + x];
    assert source == row[x];
    for i := 1 to xPixels + 1
      invariant buf[start + x] == MonoByte(if x == 0 then 0 else row[x - 1], row[x], i - 1)
      invariant forall k :: 0 <= k < buf.Length && k != start + x ==> buf[k] == old(buf[k])
    {
      buf[start + x] := Or(buf[start + x], ShiftDown8(source, i));
      if x > 0 {
        assert buf[start + x - 1] == row[x - 1] by { assert buf[start + (x - 1)] == row[x - 1]; }
        buf[start + x] := Or(buf[start + x], ShiftUp8(buf[start + x - 1], 8 - i));
      } else {
        OrWithZero(buf[start + x]);
      }
    }
  }

  lemma OrWithZero(a: byte)
    ensures forall i :: Or(a, ShiftUp8(0, i)) == a
  {
    ByteRange();
    forall i: nat ensures Or(a, ShiftUp8(0, i)) == a {
      assert ShiftUp8(0, i) == 0;
      forall k | 0 <= k < 8 ensures Bit(Or(a, 0), k) <==> Bit(a, k) {
        OrBits(a, 0, k);
        ZeroBits(k);
      }
      SameBits(Or(a, 0), a, 8);
    }
  }

  /** The x loop, right to left, over one packed row. */
  method MonoSmearRow(buf: array<byte>, start: nat, pitch: nat, xPixels: nat)
    requires start + pitch <= buf.Length && xPixels <= 8
    modifies buf
    ensures buf[start..start + pitch] == MonoSmear(old(buf[start..start + pitch]), xPixels)
    ensures forall k :: 0 <= k < buf.Length && !(start <= k < start + pitch) ==> buf[k] == old(buf[k])
  {
    hide MonoByte;
    ghost var row := buf[start..start + pitch];
    for x := pitch downto 0
      invariant forall c :: 0 <= c < x ==> buf[start + c] == row[c]
      invariant forall c :: x <= c < pitch ==> buf[start + c] == MonoSmear(row, xPixels)[c]
      invariant forall k :: 0 <= k < buf.Length && !(start <= k < start + pitch) ==> buf[k] == old(buf[k])
    {
      MonoPixel(buf, start, x, xPixels, row);
    }
  }

  // ---------------------------------------------------------------- either kind of row

  /** What the row loop does to each row. */
  datatype Strength = GrayStrength(xPixels: nat, maxGray: byte) | MonoStrength(xPixels: nat)
  {
    predicate Allowed() {
      MonoStrength? ==> xPixels <= 8
    }

    function Apply(row: seq<byte>): (r: seq<byte>)
      requires Allowed()
      ensures |r| == |row|
    {
      match this
      case GrayStrength(x, m) => Smear(row, x, m)
      case MonoStrength(x) => MonoSmear(row, x)
    }
  }

  method ApplyToRow(buf: array<byte>, start: nat, pitch: nat, s: Strength)
    requires start + pitch <= buf.Length && s.Allowed()
    modifies buf
    ensures buf[start..start + pitch] == s.Apply(old(buf[start..start + pitch]))
    ensures forall k :: 0 <= k < buf.Length && !(start <= k < start + pitch) ==> buf[k] == old(buf[k])
  {
    match s {
      case GrayStrength(x, m) => SmearRow(buf, start, pitch, x, m);
      case MonoStrength(x) => MonoSmearRow(buf, start, pitch, x);
    }
  }

  /** The bytewise or of two rows. */
  function OrRows(a: seq<byte>, b: seq<byte>): seq<byte>
    requires |a| == |b|
  {
    seq(|a|, c requires 0 <= c < |a| => Or(a[c], b[c]))
  }

  /** One `|=` loop: ors a row into another. */
  method OrRow(buf: array<byte>, dst: nat, src: nat, pitch: nat)
    requires dst + pitch <= src && src + pitch <= buf.Length
    modifies buf
    ensures buf[dst..dst + pitch] == OrRows(old(buf[dst..dst + pitch]), old(buf[src..src + pitch]))
    ensures forall k :: 0 <= k < buf.Length && !(dst <= k < dst + pitch) ==> buf[k] == old(buf[k])
  {
    hide Or;
    ghost var a, b := buf[dst..dst + pitch], buf[src..src + pitch];
    for i := 0 to pitch
      invariant forall k :: dst <= k < dst + i ==> buf[k] == Or(a[k - dst], b[k - dst])
      invariant forall k :: dst + i <= k < dst + pitch ==> buf[k] == a[k - dst]
      invariant forall k :: src <= k < src + pitch ==> buf[k] == b[k - src]
      invariant forall k :: 0 <= k < buf.Length && !(dst <= k < dst + pitch) ==> buf[k] == old(buf[k])
    {
      buf[dst + i] := Or(buf[dst + i], buf[src + i]);
    }
    forall c | 0 <= c < pitch ensures buf[dst..dst + pitch][c] == Or(a[c], b[c]) {
      assert buf[dst + c] == Or(a[dst + c - dst], b[dst + c - dst]);
    }
  }

  // ---------------------------------------------------------------- all rows

  /** Byte c of output row t after the first n source rows: row n + y of the buffer starts as source
      row n, is replaced by its emboldened form, and is then or-ed into the y rows above it. */
  ghost function Stacked(emb: seq<seq<byte>>, src: seq<seq<byte>>, y: nat, t: nat, c: nat, n: nat): byte
    requires n <= |emb| == |src| && t < |src| + y
    requires forall r :: 0 <= r < |src| ==> c < |src[r]| && c < |emb[r]|
  {
    if n == 0 then (if t < y then 0 else src[t - y][c])
    else
      var before := Stacked(emb, src, y, t, c, n - 1);
      if t == n - 1 + y then emb[n - 1][c]
      else if n - 1 <= t < n - 1 + y then Or(before, emb[n - 1][c])
      else before
  }

  /** The or of byte c of the rows low .. high - 1. */
  ghost function OrOfRows(emb: seq<seq<byte>>, c: nat, low: int, high: int): byte
    requires 0 <= low && high <= |emb| && forall r :: 0 <= r < |emb| ==> c < |emb[r]|
    decreases high - low
  {
    if high <= low then 0 else Or(OrOfRows(emb, c, low, high - 1), emb[high - 1][c])
  }

  /** The dilation: output row t is the or of the emboldened source rows t - y .. t. */
  lemma {:induction false} StackedIsDilation(emb: seq<seq<byte>>, src: seq<seq<byte>>, y: nat, t: nat, c: nat, n: nat)
    requires n <= |emb| == |src| && t < |src| + y
    requires forall r :: 0 <= r < |src| ==> c < |src[r]| && c < |emb[r]|
    ensures t - y < n ==> Stacked(emb, src, y, t, c, n) == OrOfRows(emb, c, Max(0, t - y), Min(t + 1, n))
    ensures n <= t - y ==> Stacked(emb, src, y, t, c, n) == src[t - y][c]
  {
    if n != 0 {
      StackedIsDilation(emb, src, y, t, c, n - 1);
      if t == n - 1 + y {
        OrZero(emb[n - 1][c]);
        assert OrOfRows(emb, c, n - 1, n - 1) == 0;
      }
    }
  }

  // ---------------------------------------------------------------- the buffer as rows

  /** Where row t of a buffer starts. */
  function RowStart(t: int, pitch: nat): int {
    t * pitch
  }

  lemma RowOrder(t: nat, t': nat, pitch: nat)
    ensures 0 <= RowStart(t, pitch) && RowStart(t + 1, pitch) == RowStart(t, pitch) + pitch
    ensures t < t' ==> RowStart(t, pitch) + pitch <= RowStart(t', pitch)
  {
    MulMonotone(0, t, pitch);
    if t < t' {
      MulMonotone(t + 1, t', pitch);
    }
  }

  /** The buffer holds these rows. */
  ghost predicate Rows(buf: seq<byte>, pitch: nat, image: seq<seq<byte>>) {
    && RowStart(|image|, pitch) <= |buf|
    && forall t :: 0 <= t < |image| ==>
         0 <= RowStart(t, pitch) && RowStart(t, pitch) + pitch <= |buf| && |image[t]| == pitch &&
         buf[RowStart(t, pitch)..RowStart(t, pitch) + pitch] == image[t]
  }

  /** Changing the bytes of one row changes that row of the image. */
  lemma RowReplaced(buf: seq<byte>, buf': seq<byte>, pitch: nat, image: seq<seq<byte>>, t: nat, row: seq<byte>)
    requires Rows(buf, pitch, image) && t < |image| && |buf'| == |buf| && |row| == pitch
    requires buf'[RowStart(t, pitch)..RowStart(t, pitch) + pitch] == row
    requires forall k :: 0 <= k < |buf| && !(RowStart(t, pitch) <= k < RowStart(t, pitch) + pitch) ==> buf'[k] == buf[k]
    ensures Rows(buf', pitch, image[t := row])
  {
    hide RowStart;
    forall r | 0 <= r < |image| && r != t
      ensures buf'[RowStart(r, pitch)..RowStart(r, pitch) + pitch] == image[r]
    {
      RowOrder(r, t, pitch);
      RowOrder(t, r, pitch);
      var a, b := buf'[RowStart(r, pitch)..RowStart(r, pitch) + pitch],
        buf[RowStart(r, pitch)..RowStart(r, pitch) + pitch];
      assert forall k :: 0 <= k < pitch ==> a[k] == b[k];
    }
  }

  /** The image after the loop has processed n source rows. */
  ghost predicate Processed(image: seq<seq<byte>>, emb: seq<seq<byte>>, src: seq<seq<byte>>, y: nat, pitch: nat,
                            n: nat) {
    && n <= |emb| == |src| && |image| == |src| + y
    && (forall r :: 0 <= r < |src| ==> |src[r]| == pitch && |emb[r]| == pitch)
    && (forall t :: 0 <= t < |image| ==> |image[t]| == pitch)
    && forall t, c :: 0 <= t < |image| && 0 <= c < pitch ==> image[t][c] == Stacked(emb, src, y, t, c, n)
  }

  /** The row loop: each source row is emboldened in place and or-ed into the yPixels rows above. */
  method EmboldenRows(buf: array<byte>, rows: nat, pitch: nat, s: Strength, yPixels: nat,
                      ghost src: seq<seq<byte>>) returns (ghost image: seq<seq<byte>>)
    requires s.Allowed() && |src| == rows && forall r :: 0 <= r < rows ==> |src[r]| == pitch
    requires Rows(buf[..], pitch, Blank(yPixels, pitch) + src)
    modifies buf
    ensures Rows(buf[..], pitch, image)
    ensures Processed(image, Emboldened(src, s), src, yPixels, pitch, rows)
    ensures forall k :: 0 <= k < buf.Length && RowStart(rows + yPixels, pitch) <= k ==> buf[k] == old(buf[k])
  {
    hide Rows, RowStart, Strength.Apply, OrRows, Stacked, Processed, OredUp, Emboldened;
    ghost var emb := Emboldened(src, s);
    image := Blank(yPixels, pitch) + src;
    ProcessedNone(emb, src, yPixels, pitch, s);
    for row := 0 to rows
      invariant Rows(buf[..], pitch, image)
      invariant Processed(image, emb, src, yPixels, pitch, row)
      invariant forall k :: 0 <= k < buf.Length && RowStart(rows + yPixels, pitch) <= k ==> buf[k] == old(buf[k])
    {
      ProcessedShape(image, emb, src, yPixels, pitch, row);
      RowBounds(buf[..], pitch, image, row + yPixels);
      RowOrder(row + yPixels, rows + yPixels, pitch);
      var rowStart := RowStart(row + yPixels, pitch);
      ghost var was := buf[..];
      ghost var start := image;
      ApplyToRow(buf, rowStart, pitch, s);
      SourceRow(image, emb, src, yPixels, pitch, row, s);
      assert buf[..][rowStart..rowStart + pitch] == buf[rowStart..rowStart + pitch];
      RowReplaced(was, buf[..], pitch, image, row + yPixels, emb[row]);
      image := OrUp(buf, row, pitch, yPixels, image[row + yPixels := emb[row]], emb[row]);
      RowDone(start, image, emb, src, yPixels, pitch, row);
    }
  }

  /** The y loop: ors the emboldened row into the yPixels rows above it. */
  method OrUp(buf: array<byte>, row: nat, pitch: nat, yPixels: nat, ghost start: seq<seq<byte>>, ghost done: seq<byte>)
    returns (ghost image: seq<seq<byte>>)
    requires Rows(buf[..], pitch, start) && row + yPixels < |start| && start[row + yPixels] == done
    modifies buf
    ensures Rows(buf[..], pitch, image) && OredUp(start, image, done, row, yPixels, yPixels + 1)
    ensures forall k :: 0 <= k < buf.Length && RowStart(|start|, pitch) <= k ==> buf[k] == old(buf[k])
  {
    hide Rows, RowStart, OrRows;
    image := start;
    var rowStart := RowStart(row + yPixels, pitch);
    for y := 1 to yPixels + 1
      invariant Rows(buf[..], pitch, image) && |image| == |start|
      invariant image[row + yPixels] == done
      invariant OredUp(start, image, done, row, yPixels, y)
      invariant forall k :: 0 <= k < buf.Length && RowStart(|start|, pitch) <= k ==> buf[k] == old(buf[k])
    {
      var t := row + yPixels - y;
      RowBounds(buf[..], pitch, image, t);
      RowBounds(buf[..], pitch, image, row + yPixels);
      RowOrder(t, row + yPixels, pitch);
      RowOrder(t, |start|, pitch);
      RowAbove(row + yPixels, y, pitch);
      ghost var was := buf[..];
      OrRow(buf, rowStart - pitch * y, rowStart, pitch);
      assert buf[..][RowStart(t, pitch)..RowStart(t, pitch) + pitch]
        == buf[RowStart(t, pitch)..RowStart(t, pitch) + pitch];
      ghost var ored := OrRows(image[t], done);
      OrRowsLength(image[t], done);
      RowReplaced(was, buf[..], pitch, image, t, ored);
      image := image[t := ored];
    }
  }

  function Blank(n: nat, pitch: nat): seq<seq<byte>> {
    seq(n, _ => seq(pitch, _ => 0))
  }

  ghost function Emboldened(src: seq<seq<byte>>, s: Strength): (emb: seq<seq<byte>>)
    requires s.Allowed()
    ensures |emb| == |src| && forall r :: 0 <= r < |src| ==> |emb[r]| == |src[r]| && emb[r] == s.Apply(src[r])
  {
    seq(|src|, r requires 0 <= r < |src| => s.Apply(src[r]))
  }

  /** Rows row + yPixels - 1 down to row + yPixels - (y - 1) have taken up the emboldened row. */
  ghost predicate OredUp(start: seq<seq<byte>>, image: seq<seq<byte>>, done: seq<byte>, row: nat, yPixels: nat,
                         y: nat) {
    |image| == |start| && forall t :: 0 <= t < |image| ==>
      if t == row + yPixels then image[t] == done
      else if row + yPixels - y < t < row + yPixels then
        |start[t]| == |done| && image[t] == OrRows(start[t], done)
      else image[t] == start[t]
  }

  lemma RowBounds(buf: seq<byte>, pitch: nat, image: seq<seq<byte>>, t: nat)
    requires Rows(buf, pitch, image) && t < |image|
    ensures 0 <= RowStart(t, pitch) && RowStart(t, pitch) + pitch <= |buf|
    ensures buf[RowStart(t, pitch)..RowStart(t, pitch) + pitch] == image[t] && |image[t]| == pitch
  {
  }

  lemma RowAbove(t: nat, y: nat, pitch: nat)
    requires y <= t
    ensures RowStart(t, pitch) - pitch * y == RowStart(t - y, pitch)
  {
    assert (t - y) * pitch == t * pitch - pitch * y;
  }

  lemma OrRowsLength(a: seq<byte>, b: seq<byte>)
    requires |a| == |b|
    ensures |OrRows(a, b)| == |a|
  {
  }

  lemma ProcessedNone(emb: seq<seq<byte>>, src: seq<seq<byte>>, y: nat, pitch: nat, s: Strength)
    requires s.Allowed() && emb == Emboldened(src, s) && forall r :: 0 <= r < |src| ==> |src[r]| == pitch
    ensures Processed(Blank(y, pitch) + src, emb, src, y, pitch, 0)
  {
  }

  lemma ProcessedShape(image: seq<seq<byte>>, emb: seq<seq<byte>>, src: seq<seq<byte>>, y: nat, pitch: nat, n: nat)
    requires Processed(image, emb, src, y, pitch, n)
    ensures |emb| == |src| && |image| == |src| + y
    ensures forall r :: 0 <= r < |src| ==> |emb[r]| == pitch
  {
  }

  /** Before it is processed, a source row is still what it was. */
  lemma SourceRow(image: seq<seq<byte>>, emb: seq<seq<byte>>, src: seq<seq<byte>>, y: nat, pitch: nat, n: nat,
                  s: Strength)
    requires s.Allowed() && Processed(image, emb, src, y, pitch, n) && n < |src| && emb == Emboldened(src, s)
    ensures s.Apply(image[n + y]) == emb[n]
  {
    hide Strength.Apply, Emboldened;
    forall c | 0 <= c < pitch ensures image[n + y][c] == src[n][c] {
      StackedIsDilation(emb, src, y, n + y, c, n);
    }
    assert image[n + y] == src[n];
    EmboldenedRow(src, s, n);
  }

  lemma EmboldenedRow(src: seq<seq<byte>>, s: Strength, n: nat)
    requires s.Allowed() && n < |src|
    ensures |Emboldened(src, s)| == |src|
    ensures Emboldened(src, s)[n] == s.Apply(src[n])
  {
  }

  /** One processed row more. */
  lemma RowDone(start: seq<seq<byte>>, image: seq<seq<byte>>, emb: seq<seq<byte>>, src: seq<seq<byte>>, y: nat,
                pitch: nat, n: nat)
    requires Processed(start, emb, src, y, pitch, n) && n < |src|
    requires n + y < |start| && OredUp(start[n + y := emb[n]], image, emb[n], n, y, y + 1)
    ensures Processed(image, emb, src, y, pitch, n + 1)
  {
  }

  // ---------------------------------------------------------------- the bitmap

  /** Source row r as the loops see it: the pixels that have room, then zeros. */
  ghost function PreparedRow(buf: seq<byte>, pitch: nat, keep: nat, length: nat, r: nat): (row: seq<byte>)
    requires 0 <= RowStart(r, pitch) && RowStart(r, pitch) + keep <= |buf| && keep <= length
    ensures |row| == length
  {
    buf[RowStart(r, pitch)..RowStart(r, pitch) + keep] + seq(length - keep, _ => 0)
  }

  ghost function PreparedRows(buf: seq<byte>, rows: nat, pitch: nat, keep: nat, length: nat): (src: seq<seq<byte>>)
    requires RowStart(rows, pitch) <= |buf| && keep <= pitch && keep <= length
    ensures |src| == rows && forall r :: 0 <= r < rows ==> |src[r]| == length
    ensures forall r :: 0 <= r < rows ==>
      0 <= RowStart(r, pitch) && RowStart(r, pitch) + keep <= |buf| &&
      src[r] == PreparedRow(buf, pitch, keep, length, r)
  {
    RowsFit(rows, pitch);
    seq(rows, r requires 0 <= r < rows => PreparedRow(buf, pitch, keep, length, r))
  }

  lemma RowsFit(rows: nat, pitch: nat)
    ensures forall r :: 0 <= r < rows ==> 0 <= RowStart(r, pitch) && RowStart(r, pitch) + pitch <= RowStart(rows, pitch)
  {
    forall r | 0 <= r < rows
      ensures 0 <= RowStart(r, pitch) && RowStart(r, pitch) + pitch <= RowStart(rows, pitch)
    {
      RowOrder(r, rows, pitch);
    }
  }

  /** A buffer holds its own rows. */
  lemma OwnRows(buf: seq<byte>, rows: nat, pitch: nat)
    requires RowStart(rows, pitch) <= |buf|
    ensures Rows(buf, pitch, PreparedRows(buf, rows, pitch, pitch, pitch))
  {
    hide RowStart;
    RowsFit(rows, pitch);
    var src := PreparedRows(buf, rows, pitch, pitch, pitch);
    forall r | 0 <= r < rows
      ensures buf[RowStart(r, pitch)..RowStart(r, pitch) + pitch] == src[r]
    {
      assert src[r] == PreparedRow(buf, pitch, pitch, pitch, r);
    }
  }

  /** The in-place layout: clears each row behind its new last pixel. */
  method ZeroTails(buf: array<byte>, rows: nat, pitch: nat, newPitch: nat)
    requires newPitch <= pitch && RowStart(rows, pitch) <= buf.Length
    modifies buf
    ensures Rows(buf[..], pitch, PreparedRows(old(buf[..]), rows, pitch, newPitch, pitch))
  {
    hide RowStart, Rows;
    ghost var first := buf[..];
    ghost var src := PreparedRows(first, rows, pitch, newPitch, pitch);
    ghost var own := PreparedRows(first, rows, pitch, pitch, pitch);
    ghost var image := own;
    OwnRows(first, rows, pitch);
    for row := 0 to rows
      invariant Rows(buf[..], pitch, image) && |image| == rows
      invariant forall r :: 0 <= r < rows ==> image[r] == if r < row then src[r] else own[r]
    {
      RowOrder(row, rows, pitch);
      RowBounds(buf[..], pitch, image, row);
      ghost var was := buf[..];
      var start, end := RowStart(row, pitch) + newPitch, RowStart(row, pitch) + pitch;
      forall k | start <= k < end {
        buf[k] := 0;
      }
      ZeroedRow(was, buf[..], first, RowStart(row, pitch), newPitch, pitch, row);
      assert src[row] == PreparedRow(first, pitch, newPitch, pitch, row);
      RowReplaced(was, buf[..], pitch, image, row, src[row]);
      image := image[row := src[row]];
    }
    assert image == src;
  }

  lemma ZeroedRow(was: seq<byte>, now: seq<byte>, first: seq<byte>, start: nat, keep: nat, pitch: nat, row: nat)
    requires |was| == |now| == |first| && keep <= pitch && start + pitch <= |was| && start == RowStart(row, pitch)
    requires was[start..start + pitch] == first[start..start + pitch] + seq(0, _ => 0)
    requires forall k :: 0 <= k < |now| ==> now[k] == if start + keep <= k < start + pitch then 0 else was[k]
    ensures now[start..start + pitch] == PreparedRow(first, pitch, keep, pitch, row)
  {
    hide RowStart;
    forall c | 0 <= c < pitch
      ensures now[start..start + pitch][c] == PreparedRow(first, pitch, keep, pitch, row)[c]
    {
      assert was[start..start + pitch][c] == first[start..start + pitch][c];
    }
  }

  method CopyBytes(buf: array<byte>, from: nat, out: array<byte>, dst: nat, n: nat)
    requires from + n <= buf.Length && dst + n <= out.Length && buf != out
    modifies out
    ensures forall k :: 0 <= k < out.Length ==>
      out[k] == if dst <= k < dst + n then buf[from + (k - dst)] else old(out[k])
  {
    forall k | dst <= k < dst + n {
      out[k] := buf[from + (k - dst)];
    }
  }

  /** The reallocated layout: copies each row to its new place, yPixels rows down. */
  method Relocate(buf: array<byte>, rows: nat, pitch: nat, width: nat, newPitch: nat, yPixels: nat)
    returns (out: array<byte>)
    requires width <= pitch && width <= newPitch && RowStart(rows, pitch) <= buf.Length
    ensures fresh(out)
    ensures Rows(out[..], newPitch, Blank(yPixels, newPitch) + PreparedRows(buf[..], rows, pitch, width, newPitch))
    ensures out.Length == RowStart(rows + yPixels, newPitch)
  {
    hide RowStart, Rows, PreparedRow, PreparedRows, Blank;
    ghost var src := PreparedRows(buf[..], rows, pitch, width, newPitch);
    RowOrder(rows + yPixels, 0, newPitch);
    out := new byte[RowStart(rows + yPixels, newPitch)](_ => 0);
    ghost var image := Blank(rows + yPixels, newPitch);
    BlankRows(out[..], newPitch, rows + yPixels);
    BlankAt(rows + yPixels, newPitch);
    for row := 0 to rows
      invariant Rows(out[..], newPitch, image) && |image| == rows + yPixels
      invariant forall t :: 0 <= t < rows + yPixels ==>
        image[t] == if yPixels <= t < yPixels + row then src[t - yPixels] else seq(newPitch, _ => 0)
    {
      RowOrder(row, rows, pitch);
      RowBounds(out[..], newPitch, image, row + yPixels);
      var from, dst := RowStart(row, pitch), RowStart(row + yPixels, newPitch);
      ghost var was := out[..];
      CopyBytes(buf, from, out, dst, width);
      RowCopied(buf[..], was, out[..], rows, pitch, width, newPitch, image, row, row + yPixels);
      image := image[row + yPixels := src[row]];
    }
    BlankAbove(image, src, yPixels, newPitch);
  }

  lemma RowCopied(buf: seq<byte>, was: seq<byte>, out: seq<byte>, rows: nat, pitch: nat, width: nat, newPitch: nat,
                  image: seq<seq<byte>>, row: nat, t: nat)
    requires 0 <= RowStart(row, pitch) && RowStart(row, pitch) + width <= |buf| && RowStart(rows, pitch) <= |buf|
    requires width <= pitch && width <= newPitch && row < rows && t < |image|
    requires Rows(was, newPitch, image) && |out| == |was| && image[t] == seq(newPitch, _ => 0)
    requires forall k :: 0 <= k < |out| ==>
      out[k] == if RowStart(t, newPitch) <= k < RowStart(t, newPitch) + width
                then buf[RowStart(row, pitch) + (k - RowStart(t, newPitch))] else was[k]
    ensures Rows(out, newPitch, image[t := PreparedRows(buf, rows, pitch, width, newPitch)[row]])
  {
    hide RowStart, Rows, PreparedRow;
    RowBounds(was, newPitch, image, t);
    CopiedRow(buf, was, out, RowStart(t, newPitch), pitch, width, newPitch, row);
    var src := PreparedRows(buf, rows, pitch, width, newPitch);
    assert src[row] == PreparedRow(buf, pitch, width, newPitch, row);
    RowReplaced(was, out, newPitch, image, t, src[row]);
  }

  lemma BlankAt(n: nat, pitch: nat)
    ensures |Blank(n, pitch)| == n && forall t :: 0 <= t < n ==> Blank(n, pitch)[t] == seq(pitch, _ => 0)
  {
  }

  lemma BlankAbove(image: seq<seq<byte>>, src: seq<seq<byte>>, y: nat, pitch: nat)
    requires |image| == |src| + y
    requires forall t :: 0 <= t < |image| ==> image[t] == if y <= t then src[t - y] else seq(pitch, _ => 0)
    ensures image == Blank(y, pitch) + src
  {
  }

  lemma BlankRows(out: seq<byte>, pitch: nat, n: nat)
    requires |out| == RowStart(n, pitch) && forall k :: 0 <= k < |out| ==> out[k] == 0
    ensures Rows(out, pitch, Blank(n, pitch))
  {
    hide RowStart;
    RowsFit(n, pitch);
  }

  lemma CopiedRow(buf: seq<byte>, was: seq<byte>, out: seq<byte>, dst: nat, pitch: nat, width: nat, newPitch: nat,
                  row: nat)
    requires width <= newPitch && 0 <= RowStart(row, pitch) && RowStart(row, pitch) + width <= |buf|
    requires |was| == |out| && dst + newPitch <= |out|
    requires was[dst..dst + newPitch] == seq(newPitch, _ => 0)
    requires forall k :: 0 <= k < |out| ==>
      out[k] == if dst <= k < dst + width then buf[RowStart(row, pitch) + (k - dst)] else was[k]
    ensures out[dst..dst + newPitch] == PreparedRow(buf, pitch, width, newPitch, row)
  {
    hide RowStart;
    forall c | 0 <= c < newPitch
      ensures out[dst..dst + newPitch][c] == PreparedRow(buf, pitch, width, newPitch, row)[c]
    {
      assert was[dst..dst + newPitch][c] == 0;
    }
  }

  /** Every byte of the output rows is the or of the emboldened source rows that reach it. */
  ghost predicate Dilated(buf: seq<byte>, pitch: nat, emb: seq<seq<byte>>, y: nat)
    requires forall r :: 0 <= r < |emb| ==> |emb[r]| == pitch
  {
    RowStart(|emb| + y, pitch) <= |buf| &&
    forall t :: 0 <= t < |emb| + y ==> DilatedRow(buf, pitch, emb, y, t)
  }

  /** Byte c of output row t: the or of the emboldened source rows t - y .. t. */
  ghost function DilatedByte(emb: seq<seq<byte>>, y: nat, t: nat, c: nat): byte
    requires forall r :: 0 <= r < |emb| ==> c < |emb[r]|
  {
    OrOfRows(emb, c, Max(0, t - y), Min(t + 1, |emb|))
  }

  ghost predicate DilatedRow(buf: seq<byte>, pitch: nat, emb: seq<seq<byte>>, y: nat, t: nat)
    requires forall r :: 0 <= r < |emb| ==> |emb[r]| == pitch
  {
    0 <= RowStart(t, pitch) && RowStart(t, pitch) + pitch <= |buf| &&
    forall c :: 0 <= c < pitch ==> buf[RowStart(t, pitch) + c] == DilatedByte(emb, y, t, c)
  }

  lemma AllDilated(buf: seq<byte>, pitch: nat, image: seq<seq<byte>>, src: seq<seq<byte>>, s: Strength, y: nat)
    requires s.Allowed() && Rows(buf, pitch, image) && forall r :: 0 <= r < |src| ==> |src[r]| == pitch
    requires Processed(image, Emboldened(src, s), src, y, pitch, |src|)
    ensures forall r :: 0 <= r < |src| ==> |Emboldened(src, s)[r]| == pitch
    ensures Dilated(buf, pitch, Emboldened(src, s), y)
  {
    hide RowStart, Strength.Apply;
    var emb := Emboldened(src, s);
    forall t | 0 <= t < |emb| + y ensures DilatedRow(buf, pitch, emb, y, t) {
      RowBounds(buf, pitch, image, t);
      forall c | 0 <= c < pitch ensures buf[RowStart(t, pitch) + c] == DilatedByte(emb, y, t, c) {
        StackedIsDilation(emb, src, y, t, c, |src|);
        assert buf[RowStart(t, pitch)..RowStart(t, pitch) + pitch][c] == image[t][c];
      }
    }
  }

  // ---------------------------------------------------------------- what the emboldened image is

  /** For pixels within the gray range every emboldened pixel is the capped window sum. */
  lemma SmearIsCappedSum(row: seq<byte>, c: nat, xPixels: nat, maxGray: byte)
    requires c < |row| && row[c] <= maxGray
    ensures SmearAt(row, c, xPixels, maxGray) == Min(maxGray, WindowSum(row, Max(0, c - xPixels), c))
  {
    if c == 0 || xPixels == 0 {
      SinglePixel(row, c);
    }
  }

  lemma {:induction false} WindowOfPrefix(a: seq<byte>, b: seq<byte>, n: nat, low: nat, high: nat)
    requires n <= |a| && n <= |b| && a[..n] == b[..n] && high < n
    ensures WindowSum(a, low, high) == WindowSum(b, low, high)
    decreases high - low
  {
    if low <= high {
      assert a[low] == a[..n][low] == b[..n][low] == b[low];
      WindowOfPrefix(a, b, n, low + 1, high);
    }
  }

  lemma SmearOfPrefix(a: seq<byte>, b: seq<byte>, n: nat, c: nat, xPixels: nat, maxGray: byte)
    requires n <= |a| && n <= |b| && a[..n] == b[..n] && c < n
    ensures SmearAt(a, c, xPixels, maxGray) == SmearAt(b, c, xPixels, maxGray)
  {
    assert a[c] == a[..n][c] == b[..n][c] == b[c];
    WindowOfPrefix(a, b, n, Max(0, c - xPixels), c);
  }

  lemma {:induction false} OrOfSameRows(emb: seq<seq<byte>>, emb': seq<seq<byte>>, c: nat, low: nat, high: nat)
    requires |emb| == |emb'| && high <= |emb|
    requires forall r :: 0 <= r < |emb| ==> c < |emb[r]| && c < |emb'[r]| && emb[r][c] == emb'[r][c]
    ensures OrOfRows(emb, c, low, high) == OrOfRows(emb', c, low, high)
    decreases high - low
  {
    if low < high {
      OrOfSameRows(emb, emb', c, low, high - 1);
    }
  }

  /** Everything behind the last pixel of each row is zero. */
  ghost predicate ZeroPadded(buf: seq<byte>, rows: nat, pitch: nat, width: nat)
    requires RowStart(rows, pitch) <= |buf| && width <= pitch
  {
    forall r :: 0 <= r < rows ==>
      0 <= RowStart(r, pitch) && RowStart(r, pitch) + pitch <= |buf| &&
      forall k :: RowStart(r, pitch) + width <= k < RowStart(r, pitch) + pitch ==> buf[k] == 0
  }

  /** With zero padding the in-place layout and the reallocated one show the same image. */
  lemma LayoutsAgree(buf: seq<byte>, rows: nat, pitch: nat, width: nat, xPixels: nat, maxGray: byte, y: nat, t: nat,
                     c: nat)
    requires RowStart(rows, pitch) <= |buf| && width + xPixels <= pitch && ZeroPadded(buf, rows, pitch, width)
    requires c < width + xPixels && t < rows + y
    ensures DilatedByte(Emboldened(PreparedRows(buf, rows, pitch, width + xPixels, pitch),
                                   GrayStrength(xPixels, maxGray)), y, t, c)
         == DilatedByte(Emboldened(PreparedRows(buf, rows, pitch, width, width + xPixels),
                                   GrayStrength(xPixels, maxGray)), y, t, c)
  {
    hide RowStart, SmearAt, PreparedRow, PreparedRows, Emboldened, OrOfRows, Strength.Apply;
    var n := width + xPixels;
    var a, b := PreparedRows(buf, rows, pitch, n, pitch), PreparedRows(buf, rows, pitch, width, n);
    var ea, eb := Emboldened(a, GrayStrength(xPixels, maxGray)), Emboldened(b, GrayStrength(xPixels, maxGray));
    forall r | 0 <= r < rows
      ensures c < |ea[r]| && c < |eb[r]| && ea[r][c] == eb[r][c]
    {
      PreparedPrefix(buf, rows, pitch, width, n, r);
      assert a[r] == PreparedRow(buf, pitch, n, pitch, r) && b[r] == PreparedRow(buf, pitch, width, n, r);
      SameSmear(a[r], b[r], n, c, xPixels, maxGray);
    }
    OrOfSameRows(ea, eb, c, Max(0, t - y), Min(t + 1, rows));
  }

  lemma SameSmear(a: seq<byte>, b: seq<byte>, n: nat, c: nat, xPixels: nat, maxGray: byte)
    requires n <= |a| && n <= |b| && a[..n] == b[..n] && c < n
    ensures GrayStrength(xPixels, maxGray).Apply(a)[c] == GrayStrength(xPixels, maxGray).Apply(b)[c]
  {
    hide SmearAt;
    SmearOfPrefix(a, b, n, c, xPixels, maxGray);
  }

  lemma PreparedPrefix(buf: seq<byte>, rows: nat, pitch: nat, width: nat, n: nat, r: nat)
    requires RowStart(rows, pitch) <= |buf| && width <= n <= pitch && ZeroPadded(buf, rows, pitch, width) && r < rows
    ensures 0 <= RowStart(r, pitch) && RowStart(r, pitch) + pitch <= |buf|
    ensures PreparedRow(buf, pitch, n, pitch, r)[..n] == PreparedRow(buf, pitch, width, n, r)[..n]
  {
    hide RowStart;
  }
}
