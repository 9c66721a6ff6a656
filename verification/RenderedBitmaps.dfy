/** Rendered bitmaps: emboldening of gray and mono ones, unpacking of packed gray ones. */
module RenderedBitmaps {
  import opened Ints
  import opened Bits
  import opened Bitmaps

  datatype PixelMode = Mono | Gray | Gray2 | Gray4 | Lcd | LcdV | Bgra

  // ---------------------------------------------------------------- clearing mono padding

  /** `v & (0xFF00 >> shift)`: the top `shift` columns. */
  function KeepTop(v: byte, shift: nat): byte
    requires shift <= 8
  {
    TopIsByte(v, shift);
    v - v % Pow2(8 - shift)
  }

  lemma TopIsByte(v: byte, shift: nat)
    requires shift <= 8
    ensures 0 <= v - v % Pow2(8 - shift) <= v
  {
    assert v == Pow2(8 - shift) * (v / Pow2(8 - shift)) + v % Pow2(8 - shift);
    ShiftedDownRange(v, 8 - shift);
    MulMonotone(0, v / Pow2(8 - shift), Pow2(8 - shift));
  }

  lemma KeepTopColumns(v: byte, shift: nat, j: nat)
    requires shift <= 8 && j < 8
    ensures Column(KeepTop(v, shift), j) <==> j < shift && Column(v, j)
  {
    var n := 8 - shift;
    var q := v / Pow2(n);
    assert v == Pow2(n) * q + v % Pow2(n);
    assert KeepTop(v, shift) == q * Pow2(n);
    ShiftedDownRange(v, n);
    ShiftLeftBits(q, n, 7 - j);
    if n <= 7 - j {
      ShiftRightBits(v, n, 7 - j - n);
    }
  }

  /** A packed row with all columns from bitLast on cleared. */
  function ClearFrom(row: seq<byte>, bitLast: nat): seq<byte> {
    seq(|row|, k requires 0 <= k < |row| =>
      if k < bitLast / 8 then row[k]
      else if k == bitLast / 8 then KeepTop(row[k], bitLast % 8)
      else 0)
  }

  lemma ClearFromColumns(row: seq<byte>, bitLast: nat, c: nat)
    requires c < 8 * |row|
    ensures RowColumn(ClearFrom(row, bitLast), c) <==> c < bitLast && RowColumn(row, c)
  {
    hide KeepTop, Bit;
    if c / 8 == bitLast / 8 {
      KeepTopColumns(row[c / 8], bitLast % 8, c % 8);
    } else if bitLast / 8 < c / 8 {
      ZeroBits(7 - c % 8);
    }
  }

  /** `zero_mono_padding`. */
  method ZeroMonoPadding(buf: array<byte>, rowStart: nat, pitch: nat, bitLast: nat)
    requires rowStart + pitch <= buf.Length
    modifies buf
    ensures buf[rowStart..rowStart + pitch] == ClearFrom(old(buf[rowStart..rowStart + pitch]), bitLast)
    ensures forall k :: 0 <= k < buf.Length && !(rowStart <= k < rowStart + pitch) ==> buf[k] == old(buf[k])
  {
    hide KeepTop;
    ghost var row := buf[rowStart..rowStart + pitch];
    if bitLast >= pitch * 8 {
      assert ClearFrom(row, bitLast) == row;
      return;
    }
    var byteIndex := bitLast / 8;
    var shift := bitLast % 8;
    if shift > 0 {
      buf[rowStart + byteIndex] := KeepTop(buf[rowStart + byteIndex], shift);
      byteIndex := byteIndex + 1;
    } else {
      KeepNothing(buf[rowStart + byteIndex]);
    }
    forall k | rowStart + byteIndex <= k < rowStart + pitch {
      buf[k] := 0;
    }
    forall c | 0 <= c < pitch
      ensures buf[rowStart..rowStart + pitch][c] == ClearFrom(row, bitLast)[c]
    {
      assert row[c] == old(buf[rowStart..rowStart + pitch])[c];
    }
  }

  lemma KeepNothing(v: byte)
    ensures KeepTop(v, 0) == 0
  {
    ByteRange();
  }

  /** The rows that mono emboldening starts from: in place, the old rows with everything behind the
      new last column cleared; relocated, the bytes that hold the old columns, then zeros. */
  ghost function MonoSource(buf: seq<byte>, rows: nat, pitch: nat, width: nat, xPixels: nat, yPixels: nat)
    : (src: seq<seq<byte>>)
    requires RowStart(rows, pitch) <= |buf| && (width + 7) / 8 <= pitch
    ensures |src| == rows
    ensures forall r :: 0 <= r < rows ==>
      |src[r]| == if yPixels == 0 && (width + xPixels + 7) / 8 <= pitch then pitch else (width + xPixels + 7) / 8
  {
    if yPixels == 0 && (width + xPixels + 7) / 8 <= pitch then
      ClearedRows(PreparedRows(buf, rows, pitch, pitch, pitch), width + xPixels)
    else PreparedRows(buf, rows, pitch, (width + 7) / 8, (width + xPixels + 7) / 8)
  }

  ghost function ClearedRows(src: seq<seq<byte>>, bitLast: nat): (r: seq<seq<byte>>)
    ensures |r| == |src| && forall i :: 0 <= i < |src| ==> |r[i]| == |src[i]| && r[i] == ClearFrom(src[i], bitLast)
  {
    seq(|src|, i requires 0 <= i < |src| => ClearFrom(src[i], bitLast))
  }

  /** The in-place loop over `zero_mono_padding`. */
  method ClearRows(buf: array<byte>, rows: nat, pitch: nat, bitLast: nat)
    requires RowStart(rows, pitch) <= buf.Length
    modifies buf
    ensures Rows(buf[..], pitch, ClearedRows(PreparedRows(old(buf[..]), rows, pitch, pitch, pitch), bitLast))
  {
    hide RowStart, Rows, ClearFrom;
    ghost var own := PreparedRows(buf[..], rows, pitch, pitch, pitch);
    ghost var src := ClearedRows(own, bitLast);
    ghost var image := own;
    OwnRows(buf[..], rows, pitch);
    for row := 0 to rows
      invariant Rows(buf[..], pitch, image) && |image| == rows
      invariant forall r :: 0 <= r < rows ==> image[r] == if r < row then src[r] else own[r]
    {
      RowOrder(row, rows, pitch);
      RowBounds(buf[..], pitch, image, row);
      ghost var was := buf[..];
      ZeroMonoPadding(buf, RowStart(row, pitch), pitch, bitLast);
      assert buf[..][RowStart(row, pitch)..RowStart(row, pitch) + pitch] == src[row];
      RowReplaced(was, buf[..], pitch, image, row, src[row]);
      image := image[row := src[row]];
    }
    assert image == src;
  }

  // ---------------------------------------------------------------- the bitmap

  lemma NoBlank(pitch: nat, src: seq<seq<byte>>)
    ensures Blank(0, pitch) + src == src
  {
  }

  class RenderedBitmap {
    var width: nat
    var rows: nat
    var pitch: int
    var numGrays: nat
    var mode: PixelMode
    var buffer: array<byte>

    constructor (width: nat, rows: nat, pitch: int, numGrays: nat, mode: PixelMode, buffer: array<byte>)
      ensures this.width == width && this.rows == rows && this.pitch == pitch && this.numGrays == numGrays
      ensures this.mode == mode && this.buffer == buffer
    {
      this.width, this.rows, this.pitch, this.numGrays := width, rows, pitch, numGrays;
      this.mode, this.buffer := mode, buffer;
    }

    /** The dimensions are those of the buffer. */
    predicate Usable()
      reads this, buffer
    {
      0 <= pitch && width <= pitch && RowStart(rows, pitch) <= buffer.Length
    }

    function MaxGray(): byte
      reads this
    {
      if numGrays == 0 then 0 else Min(numGrays - 1, 255)
    }

    /** There is room for the wider rows in place. */
    predicate RoomInPlace(xPixels: nat, yPixels: nat)
      reads this
    {
      yPixels == 0 && width + xPixels <= pitch
    }

    /** `embolden_8bit_positive_pitch_bitmap`.  It succeeds exactly for a usable bitmap whose new size
        is representable, and then each visible byte is the or, over the source rows up to yPixels
        above, of the capped sums of the source pixels up to xPixels to the left. */
    method Embolden8Bit(xPixels: nat, yPixels: nat) returns (ok: bool)
      requires pitch <= I32_MAX && xPixels < TWO_32 && yPixels < TWO_32
      modifies this, buffer
      ensures ok <==> old(Usable()) && old(width) + xPixels <= I32_MAX && old(rows) + yPixels < TWO_32
      ensures !old(Usable()) ==>
        buffer == old(buffer) && buffer[..] == old(buffer[..]) && width == old(width) && rows == old(rows)
          && pitch == old(pitch)
      ensures ok ==> width == old(width) + xPixels && rows == old(rows) + yPixels && Usable()
      ensures !ok ==> width == old(width) && rows == old(rows)
      ensures old(Usable()) && !old(RoomInPlace(xPixels, yPixels)) ==>
        && fresh(buffer) && buffer.Length == RowStart(old(rows) + yPixels, old(width) + xPixels)
        && pitch == if old(width) + xPixels <= I32_MAX then old(width) + xPixels else old(pitch)
      ensures old(Usable()) && old(RoomInPlace(xPixels, yPixels)) ==> buffer == old(buffer) && pitch == old(pitch)
      ensures ok ==> pitch == if old(RoomInPlace(xPixels, yPixels)) then old(pitch) else width
      ensures numGrays == old(numGrays) && mode == old(mode)
      ensures ok ==>
        var keep := if old(RoomInPlace(xPixels, yPixels)) then width else old(width);
        var src := PreparedRows(old(buffer[..]), old(rows), old(pitch), keep, pitch);
        Dilated(buffer[..], pitch, Emboldened(src, GrayStrength(xPixels, MaxGray())), yPixels)
    {
      hide RowStart, Emboldened, Rows, Processed, Dilated, PreparedRows, Blank;
      if pitch < 0 || pitch < width || buffer.Length < RowStart(rows, pitch) {
        return false;
      }
      var newPitch := width + xPixels;
      ghost var src: seq<seq<byte>>;
      if yPixels == 0 && newPitch <= pitch {
        src := PreparedRows(buffer[..], rows, pitch, newPitch, pitch);
        ZeroTails(buffer, rows, pitch, newPitch);
        NoBlank(pitch, src);
      } else {
        src := PreparedRows(buffer[..], rows, pitch, width, newPitch);
        var newBuffer := Relocate(buffer, rows, pitch, width, newPitch, yPixels);
        buffer := newBuffer;
        if newPitch > I32_MAX {
          return false;
        }
        pitch := newPitch;
      }
      ghost var image := EmboldenRows(buffer, rows, pitch, GrayStrength(xPixels, MaxGray()), yPixels, src);
      AllDilated(buffer[..], pitch, image, src, GrayStrength(xPixels, MaxGray()), yPixels);
      if width + xPixels >= TWO_32 || rows + yPixels >= TWO_32 {
        return false;
      }
      width := width + xPixels;
      rows := rows + yPixels;
      return true;
    }

    predicate UsableMono()
      reads this, buffer
    {
      0 <= pitch && (width + 7) / 8 <= pitch && RowStart(rows, pitch) <= buffer.Length
    }

    predicate RoomForMono(xPixels: nat, yPixels: nat)
      reads this
    {
      yPixels == 0 && (width + xPixels + 7) / 8 <= pitch
    }

    /** `embolden_mono_positive_pitch_bitmap`, whose callers cap xPixels at eight.  It succeeds exactly for a
        usable bitmap whose new size is representable, and then each byte is the or, over the source
        rows up to yPixels above, of the packed rows emboldened by xPixels columns. */
    method EmboldenMono(xPixels: nat, yPixels: nat) returns (ok: bool)
      requires pitch <= I32_MAX && xPixels <= 8 && yPixels < TWO_32
      modifies this, buffer
      ensures ok <==> old(UsableMono()) && (old(width) + xPixels + 7) / 8 <= I32_MAX
                      && old(width) + xPixels < TWO_32 && old(rows) + yPixels < TWO_32
      ensures !old(UsableMono()) ==>
        buffer == old(buffer) && buffer[..] == old(buffer[..]) && width == old(width) && rows == old(rows)
          && pitch == old(pitch)
      ensures ok ==> width == old(width) + xPixels && rows == old(rows) + yPixels && UsableMono()
      ensures !ok ==> width == old(width) && rows == old(rows)
      ensures old(UsableMono()) && !old(RoomForMono(xPixels, yPixels)) ==>
        var newPitch := (old(width) + xPixels + 7) / 8;
        if newPitch <= I32_MAX then
          fresh(buffer) && buffer.Length == RowStart(old(rows) + yPixels, newPitch) && pitch == newPitch
        else buffer == old(buffer) && buffer[..] == old(buffer[..]) && pitch == old(pitch)
      ensures old(UsableMono()) && old(RoomForMono(xPixels, yPixels)) ==> buffer == old(buffer) && pitch == old(pitch)
      ensures ok ==> pitch == if old(RoomForMono(xPixels, yPixels)) then old(pitch) else (width + 7) / 8
      ensures numGrays == old(numGrays) && mode == old(mode)
      ensures ok ==>
        var src := MonoSource(old(buffer[..]), old(rows), old(pitch), old(width), xPixels, yPixels);
        Dilated(buffer[..], pitch, Emboldened(src, MonoStrength(xPixels)), yPixels)
    {
      hide RowStart, Emboldened, Rows, Processed, Dilated, Blank;
      var rowBytes := (width + 7) / 8;
      if pitch < 0 || pitch < rowBytes || buffer.Length < RowStart(rows, pitch) {
        return false;
      }
      var newWidth := width + xPixels;
      var newPitch := (newWidth + 7) / 8;
      ghost var src := MonoSource(buffer[..], rows, pitch, width, xPixels, yPixels);
      if yPixels == 0 && newPitch <= pitch {
        ClearRows(buffer, rows, pitch, newWidth);
        NoBlank(pitch, src);
      } else {
        if newPitch > I32_MAX {
          return false;
        }
        var newBuffer := Relocate(buffer, rows, pitch, rowBytes, newPitch, yPixels);
        buffer := newBuffer;
        pitch := newPitch;
      }
      ghost var image := EmboldenRows(buffer, rows, pitch, MonoStrength(xPixels), yPixels, src);
      AllDilated(buffer[..], pitch, image, src, MonoStrength(xPixels), yPixels);
      if width + xPixels >= TWO_32 || rows + yPixels >= TWO_32 {
        return false;
      }
      width := width + xPixels;
      rows := rows + yPixels;
      return true;
    }
  }

  // ---------------------------------------------------------------- packed gray

  /** Pixel x of a packed row: `bits` bits, the leftmost pixel highest. */
  function PackedPixel(b: byte, bits: nat, x: nat): byte
    requires bits == 2 || bits == 4
  {
    if bits == 2 then
      match x % 4
      case 0 => b / 64
      case 1 => b / 16 % 4
      case 2 => b / 4 % 4
      case _ => b % 4
    else if x % 2 == 0 then b / 16
    else b % 16
  }

  /** Packing the pixels of a byte again gives the byte, and they are within the gray range. */
  lemma RepackedByte(b: byte)
    ensures b == 64 * PackedPixel(b, 2, 0) + 16 * PackedPixel(b, 2, 1) + 4 * PackedPixel(b, 2, 2) + PackedPixel(b, 2, 3)
    ensures b == 16 * PackedPixel(b, 4, 0) + PackedPixel(b, 4, 1)
  {
    assert b / 16 == 4 * (b / 64) + b / 16 % 4;
    assert b / 4 == 4 * (b / 16) + b / 4 % 4;
    assert b == 4 * (b / 4) + b % 4;
  }

  /** `(byte >> shift) & mask` with the source's shift and mask. */
  lemma ShiftAndMask(b: byte, bits: nat, x: nat)
    requires bits == 2 || bits == 4
    ensures x * bits % 8 <= 8 - bits
    ensures b / Pow2(8 - bits - x * bits % 8) % Pow2(bits) == PackedPixel(b, bits, x)
    ensures x * bits / 8 == x / (8 / bits)
  {
    if bits == 2 {
      ShiftAndMask2(b, x);
    } else {
      ShiftAndMask4(b, x);
    }
  }

  lemma ShiftAndMask2(b: byte, x: nat)
    ensures x * 2 % 8 <= 6 && x * 2 / 8 == x / 4
    ensures b / Pow2(6 - x * 2 % 8) % Pow2(2) == PackedPixel(b, 2, x)
  {
    var m := x % 4;
    assert x * 2 == 8 * (x / 4) + 2 * m;
    assert Pow2(0) == 1 && Pow2(2) == 4 && Pow2(4) == 16;
    assert Pow2(6) == 64 by { Pow2Sum(2, 4); }
    hide Pow2;
    match m {
      case 0 => assert b / 64 % 4 == b / 64;
      case 1 =>
      case 2 =>
      case _ =>
    }
  }

  lemma ShiftAndMask4(b: byte, x: nat)
    ensures x * 4 % 8 <= 4 && x * 4 / 8 == x / 2
    ensures b / Pow2(4 - x * 4 % 8) % Pow2(4) == PackedPixel(b, 4, x)
  {
    assert x * 4 == 8 * (x / 2) + 4 * (x % 2);
    assert Pow2(0) == 1 && Pow2(4) == 16;
    hide Pow2;
  }

  /** `convert_packed_gray_bitmap`: unpacks a usable bitmap to one byte per pixel. */
  method ConvertPackedGray(bm: RenderedBitmap, bits: nat, grays: nat) returns (ok: bool)
    requires bits == 2 || bits == 4
    modifies bm
    ensures ok <==> old(0 <= bm.pitch && bm.width <= I32_MAX && (bm.width * bits + 7) / 8 <= bm.pitch
                        && RowStart(bm.rows, bm.pitch) <= bm.buffer.Length)
    ensures bm.width == old(bm.width) && bm.rows == old(bm.rows)
    ensures !ok ==> bm.buffer == old(bm.buffer) && bm.pitch == old(bm.pitch) && bm.mode == old(bm.mode)
    ensures ok ==> fresh(bm.buffer) && bm.pitch == bm.width && bm.mode == Gray && bm.numGrays == grays && bm.Usable()
    ensures ok ==> forall r :: 0 <= r < bm.rows ==>
      UnpackedRow(old(bm.buffer[..]), old(bm.pitch), bits, bm.buffer[..], bm.width, r)
  {
    hide RowStart, PackedPixel;
    if bm.pitch < 0 || bm.width > I32_MAX {
      return false;
    }
    var width, rows, pitch := bm.width, bm.rows, bm.pitch;
    var rowBytes := (width * bits + 7) / 8;
    if pitch < rowBytes || bm.buffer.Length < RowStart(rows, pitch) {
      return false;
    }
    var buffer := bm.buffer;
    ghost var was := buffer[..];
    var newBuffer := UnpackRows(buffer, pitch, rows, width, bits);
    assert buffer[..] == was;
    bm.buffer := newBuffer;
    bm.pitch := width;
    bm.mode := Gray;
    bm.numGrays := grays;
    return true;
  }

  method UnpackRows(buffer: array<byte>, pitch: nat, rows: nat, width: nat, bits: nat) returns (out: array<byte>)
    requires bits == 2 || bits == 4
    requires (width * bits + 7) / 8 <= pitch && RowStart(rows, pitch) <= buffer.Length
    ensures fresh(out) && out.Length == RowStart(rows, width)
    ensures forall r :: 0 <= r < rows ==> UnpackedRow(buffer[..], pitch, bits, out[..], width, r)
  {
    hide RowStart, PackedPixel;
    RowOrder(rows, 0, width);
    out := new byte[RowStart(rows, width)](_ => 0);
    for row := 0 to rows
      invariant forall r :: 0 <= r < row ==> UnpackedRow(buffer[..], pitch, bits, out[..], width, r)
    {
      RowOrder(row, rows, pitch);
      RowOrder(row, rows, width);
      ghost var was := out[..];
      UnpackRow(buffer, RowStart(row, pitch), out, RowStart(row, width), width, bits);
      forall r | 0 <= r < row + 1 ensures UnpackedRow(buffer[..], pitch, bits, out[..], width, r) {
        if r < row {
          RowOrder(r, row, width);
          assert UnpackedRow(buffer[..], pitch, bits, was, width, r);
        }
      }
    }
  }

  /** Row r of the unpacked buffer shows the packed pixels of row r. */
  ghost predicate UnpackedRow(buf: seq<byte>, pitch: nat, bits: nat, out: seq<byte>, width: nat, r: nat)
    requires bits == 2 || bits == 4
  {
    && 0 <= RowStart(r, width) && RowStart(r, width) + width <= |out|
    && 0 <= RowStart(r, pitch) && RowStart(r, pitch) + (width * bits + 7) / 8 <= |buf|
    && forall k :: RowStart(r, width) <= k < RowStart(r, width) + width ==>
         var x := k - RowStart(r, width);
         x / (8 / bits) < (width * bits + 7) / 8 &&
         out[k] == PackedPixel(buf[RowStart(r, pitch) + x / (8 / bits)], bits, x)
  }

  method UnpackRow(buf: array<byte>, srcRow: nat, out: array<byte>, dstRow: nat, width: nat, bits: nat)
    requires (bits == 2 || bits == 4) && buf != out
    requires srcRow + (width * bits + 7) / 8 <= buf.Length && dstRow + width <= out.Length
    modifies out
    ensures forall k :: 0 <= k < out.Length && !(dstRow <= k < dstRow + width) ==> out[k] == old(out[k])
    ensures forall k :: dstRow <= k < dstRow + width ==>
      (k - dstRow) / (8 / bits) < (width * bits + 7) / 8 &&
      out[k] == PackedPixel(buf[srcRow + (k - dstRow) / (8 / bits)], bits, k - dstRow)
  {
    hide PackedPixel, Pow2;
    for x := 0 to width
      invariant forall k :: 0 <= k < out.Length && !(dstRow <= k < dstRow + width) ==> out[k] == old(out[k])
      invariant forall k :: dstRow <= k < dstRow + x ==>
        (k - dstRow) / (8 / bits) < (width * bits + 7) / 8 &&
        out[k] == PackedPixel(buf[srcRow + (k - dstRow) / (8 / bits)], bits, k - dstRow)
    {
      PixelInRow(x, width, bits);
      var bitOffset := x * bits;
      var b := buf[srcRow + bitOffset / 8];
      ShiftAndMask(b, bits, x);
      var shift := 8 - bits - bitOffset % 8;
      out[dstRow + x] := b / Pow2(shift) % Pow2(bits);
    }
  }

  lemma PixelInRow(x: nat, width: nat, bits: nat)
    requires x < width && (bits == 2 || bits == 4)
    ensures x * bits / 8 < (width * bits + 7) / 8 && x * bits / 8 == x / (8 / bits)
  {
    ShiftAndMask(0, bits, x);
  }

  // ---------------------------------------------------------------- what the emboldened gray image is

  /** Pixel c of row r, and zero outside the image. */
  ghost function OldPixel(buf: seq<byte>, pitch: nat, width: nat, r: nat, c: int): byte
    requires 0 <= RowStart(r, pitch) && RowStart(r, pitch) + width <= |buf|
  {
    if 0 <= c < width then buf[RowStart(r, pitch) + c] else 0
  }

  /** The pixels low .. high of row r together. */
  ghost function OldSum(buf: seq<byte>, pitch: nat, width: nat, r: nat, low: int, high: int): (s: nat)
    requires 0 <= RowStart(r, pitch) && RowStart(r, pitch) + width <= |buf|
    decreases high - low
  {
    if high < low then 0 else OldPixel(buf, pitch, width, r, low) + OldSum(buf, pitch, width, r, low + 1, high)
  }

  /** The or over rows low .. high - 1 of the capped sums of the pixels up to xPixels left of column c. */
  ghost function OldOr(buf: seq<byte>, rows: nat, pitch: nat, width: nat, xPixels: nat, maxGray: byte, c: nat, low: nat,
                       high: nat): byte
    requires width <= pitch && RowStart(rows, pitch) <= |buf| && high <= rows
    decreases high - low
  {
    RowsFit(rows, pitch);
    if high <= low then 0
    else
      Or(OldOr(buf, rows, pitch, width, xPixels, maxGray, c, low, high - 1),
         Min(maxGray, OldSum(buf, pitch, width, high - 1, c - xPixels, c)))
  }

  lemma {:induction false} SumBeforeImage(buf: seq<byte>, pitch: nat, width: nat, r: nat, low: int, high: nat)
    requires 0 <= RowStart(r, pitch) && RowStart(r, pitch) + width <= |buf| && low <= 0
    ensures OldSum(buf, pitch, width, r, low, high) == OldSum(buf, pitch, width, r, 0, high)
    decreases -low
  {
    hide RowStart;
    if low < 0 {
      SumBeforeImage(buf, pitch, width, r, low + 1, high);
    }
  }

  lemma {:induction false} SumOfRow(buf: seq<byte>, pitch: nat, width: nat, r: nat, row: seq<byte>, low: nat, high: nat)
    requires 0 <= RowStart(r, pitch) && RowStart(r, pitch) + width <= |buf| && high < |row|
    requires forall k :: 0 <= k <= high ==> row[k] == OldPixel(buf, pitch, width, r, k)
    ensures WindowSum(row, low, high) == OldSum(buf, pitch, width, r, low, high)
    decreases high - low
  {
    hide RowStart, OldPixel;
    if low <= high {
      SumOfRow(buf, pitch, width, r, row, low + 1, high);
    }
  }

  /** Both layouts start from the old pixels, with zeros behind them. */
  lemma GraySourcePixels(buf: seq<byte>, rows: nat, pitch: nat, width: nat, keep: nat, length: nat, r: nat, k: nat)
    requires RowStart(rows, pitch) <= |buf| && width <= keep <= pitch && keep <= length && r < rows && k < length
    requires ZeroPadded(buf, rows, pitch, width)
    ensures 0 <= RowStart(r, pitch) && RowStart(r, pitch) + width <= |buf|
    ensures PreparedRows(buf, rows, pitch, keep, length)[r][k] == OldPixel(buf, pitch, width, r, k)
  {
    RowsFit(rows, pitch);
    hide RowStart;
    assert PreparedRows(buf, rows, pitch, keep, length)[r] == PreparedRow(buf, pitch, keep, length, r);
  }

  /** One emboldened pixel is the capped sum of the old ones. */
  lemma GrayPixel(buf: seq<byte>, rows: nat, pitch: nat, width: nat, keep: nat, length: nat, xPixels: nat,
                  maxGray: byte,
                  r: nat, c: nat)
    requires RowStart(rows, pitch) <= |buf| && width <= keep <= pitch && keep <= length && r < rows && c < length
    requires ZeroPadded(buf, rows, pitch, width)
    requires 0 <= RowStart(r, pitch) && RowStart(r, pitch) + width <= |buf|
      && OldPixel(buf, pitch, width, r, c) <= maxGray
    ensures GrayStrength(xPixels, maxGray).Apply(PreparedRows(buf, rows, pitch, keep, length)[r])[c]
         == Min(maxGray, OldSum(buf, pitch, width, r, c - xPixels, c))
  {
    hide RowStart, PreparedRows, ZeroPadded, OldPixel, SmearAt, WindowSum;
    var row := PreparedRows(buf, rows, pitch, keep, length)[r];
    forall k | 0 <= k <= c ensures row[k] == OldPixel(buf, pitch, width, r, k) {
      GraySourcePixels(buf, rows, pitch, width, keep, length, r, k);
    }
    SmearIsCappedSum(row, c, xPixels, maxGray);
    SumOfRow(buf, pitch, width, r, row, Max(0, c - xPixels), c);
    if c < xPixels {
      SumBeforeImage(buf, pitch, width, r, c - xPixels, c);
    }
  }

  lemma {:induction false} OrOfCappedSums(emb: seq<seq<byte>>, buf: seq<byte>, rows: nat, pitch: nat, width: nat,
                                         xPixels: nat, maxGray: byte, c: nat, low: nat, high: nat)
    requires width <= pitch && RowStart(rows, pitch) <= |buf| && high <= rows == |emb|
    requires forall r :: 0 <= r < rows ==>
      c < |emb[r]| && 0 <= RowStart(r, pitch) && RowStart(r, pitch) + width <= |buf| &&
      emb[r][c] == Min(maxGray, OldSum(buf, pitch, width, r, c - xPixels, c))
    ensures OrOfRows(emb, c, low, high) == OldOr(buf, rows, pitch, width, xPixels, maxGray, c, low, high)
    decreases high - low
  {
    hide RowStart, OldSum, Or;
    if low < high {
      OrOfCappedSums(emb, buf, rows, pitch, width, xPixels, maxGray, c, low, high - 1);
    }
  }

  /** No old pixel is above the gray range. */
  ghost predicate InGrayRange(buf: seq<byte>, rows: nat, pitch: nat, width: nat, maxGray: byte)
    requires RowStart(rows, pitch) <= |buf| && width <= pitch
  {
    forall r, c :: 0 <= r < rows && 0 <= c < width ==>
      0 <= RowStart(r, pitch) && RowStart(r, pitch) + width <= |buf| && OldPixel(buf, pitch, width, r, c) <= maxGray
  }

  /** What emboldening a gray image shows, from the old buffer to the new one: with zero padding and
      pixels in the gray range, every visible byte is the or, over the source rows at most yPixels
      above, of the capped sums of the old pixels at most xPixels to the left, in either layout. */
  lemma GrayImage(was: seq<byte>, rows: nat, pitch: nat, width: nat, xPixels: nat, maxGray: byte, yPixels: nat,
                  now: seq<byte>, pitch': nat, t: nat, c: nat)
    requires RowStart(rows, pitch) <= |was| && width <= pitch && ZeroPadded(was, rows, pitch, width)
    requires InGrayRange(was, rows, pitch, width, maxGray) && t < rows + yPixels && c < width + xPixels
    requires pitch' == if yPixels == 0 && width + xPixels <= pitch then pitch else width + xPixels
    requires var keep := if yPixels == 0 && width + xPixels <= pitch then width + xPixels else width;
             Dilated(now, pitch', Emboldened(PreparedRows(was, rows, pitch, keep, pitch'),
                                             GrayStrength(xPixels, maxGray)), yPixels)
    ensures 0 <= RowStart(t, pitch') && RowStart(t, pitch') + c < |now|
    ensures now[RowStart(t, pitch') + c]
         == OldOr(was, rows, pitch, width, xPixels, maxGray, c, Max(0, t - yPixels), Min(t + 1, rows))
  {
    var keep := if yPixels == 0 && width + xPixels <= pitch then width + xPixels else width;
    var src := PreparedRows(was, rows, pitch, keep, pitch');
    var emb := Emboldened(src, GrayStrength(xPixels, maxGray));
    hide RowStart, OldSum, OldOr, OrOfRows, PreparedRows, ZeroPadded, Strength.Apply, Dilated;
    ShownByte(now, pitch', emb, yPixels, t, c);
    forall r | 0 <= r < rows
      ensures 0 <= RowStart(r, pitch) && RowStart(r, pitch) + width <= |was|
      ensures c < |emb[r]| && emb[r][c] == Min(maxGray, OldSum(was, pitch, width, r, c - xPixels, c))
    {
      RowsFit(rows, pitch);
      InRangeAt(was, rows, pitch, width, maxGray, r, c);
      GrayPixel(was, rows, pitch, width, keep, pitch', xPixels, maxGray, r, c);
    }
    hide Emboldened, InGrayRange;
    OrOfCappedSums(emb, was, rows, pitch, width, xPixels, maxGray, c, Max(0, t - yPixels), Min(t + 1, rows));
  }

  lemma InRangeAt(buf: seq<byte>, rows: nat, pitch: nat, width: nat, maxGray: byte, r: nat, c: nat)
    requires RowStart(rows, pitch) <= |buf| && width <= pitch && InGrayRange(buf, rows, pitch, width, maxGray)
      && r < rows
    ensures 0 <= RowStart(r, pitch) && RowStart(r, pitch) + width <= |buf|
      && OldPixel(buf, pitch, width, r, c) <= maxGray
  {
    RowsFit(rows, pitch);
    hide RowStart;
  }

  lemma ShownByte(buf: seq<byte>, pitch: nat, emb: seq<seq<byte>>, y: nat, t: nat, c: nat)
    requires (forall r :: 0 <= r < |emb| ==> |emb[r]| == pitch) && Dilated(buf, pitch, emb, y) && t < |emb| + y
    requires c < pitch
    ensures 0 <= RowStart(t, pitch) && RowStart(t, pitch) + c < |buf|
    ensures buf[RowStart(t, pitch) + c] == OrOfRows(emb, c, Max(0, t - y), Min(t + 1, |emb|))
  {
    hide RowStart, OrOfRows;
    assert DilatedRow(buf, pitch, emb, y, t);
    var start := RowStart(t, pitch);
    assert buf[start + c] == DilatedByte(emb, y, t, c);
  }

  // ---------------------------------------------------------------- what the emboldened mono image is

  lemma {:induction false} OrOfRowsColumn(emb: seq<seq<byte>>, k: nat, j: nat, low: nat, high: nat)
    requires high <= |emb| && j < 8 && forall r :: 0 <= r < |emb| ==> k < |emb[r]|
    ensures Column(OrOfRows(emb, k, low, high), j) <==> exists r :: low <= r < high && Column(emb[r][k], j)
    decreases high - low
  {
    hide Or, Bit;
    if high <= low {
      ZeroBits(7 - j);
    } else {
      OrOfRowsColumn(emb, k, j, low, high - 1);
      OrBits(OrOfRows(emb, k, low, high - 1), emb[high - 1][k], 7 - j);
    }
  }

  /** Source row r reaches column c: a column at most xPixels to its left is set. */
  ghost predicate Reaches(row: seq<byte>, xPixels: nat, c: nat)
    requires c < 8 * |row|
  {
    exists i :: 0 <= i <= xPixels && SetToLeft(row, c, i)
  }

  /** Mono emboldening is dilation: an output column is set exactly when, in one of the yPixels + 1
      source rows above it, a column at most xPixels to its left was set. */
  lemma MonoDilation(src: seq<seq<byte>>, xPixels: nat, y: nat, t: nat, c: nat)
    requires xPixels <= 8 && t < |src| + y && forall r :: 0 <= r < |src| ==> c < 8 * |src[r]|
    ensures Column(DilatedByte(Emboldened(src, MonoStrength(xPixels)), y, t, c / 8), c % 8)
            <==> exists r :: Max(0, t - y) <= r < Min(t + 1, |src|) && Reaches(src[r], xPixels, c)
  {
    hide MonoSmear, Column, Reaches;
    var emb := Emboldened(src, MonoStrength(xPixels));
    OrOfRowsColumn(emb, c / 8, c % 8, Max(0, t - y), Min(t + 1, |src|));
    forall r | 0 <= r < |src|
      ensures Column(emb[r][c / 8], c % 8) <==> Reaches(src[r], xPixels, c)
    {
      assert emb[r] == MonoSmear(src[r], xPixels);
      SmearReaches(src[r], xPixels, c);
    }
  }

  lemma SmearReaches(row: seq<byte>, xPixels: nat, c: nat)
    requires xPixels <= 8 && c < 8 * |row|
    ensures Column(MonoSmear(row, xPixels)[c / 8], c % 8) <==> Reaches(row, xPixels, c)
  {
    MonoSmearColumns(row, xPixels, c);
  }

  ghost predicate ClearBehind(row: seq<byte>, width: nat) {
    forall c :: width <= c < 8 * |row| ==> !RowColumn(row, c)
  }

  /** Every column behind the last one of each row is clear. */
  ghost predicate ClearPadded(buf: seq<byte>, rows: nat, pitch: nat, width: nat)
    requires RowStart(rows, pitch) <= |buf|
  {
    forall r :: 0 <= r < rows ==>
      0 <= RowStart(r, pitch) && RowStart(r, pitch) + pitch <= |buf| &&
      ClearBehind(buf[RowStart(r, pitch)..RowStart(r, pitch) + pitch], width)
  }

  /** With clear padding, both layouts start from exactly the old columns. */
  lemma MonoSourceColumns(buf: seq<byte>, rows: nat, pitch: nat, width: nat, xPixels: nat, yPixels: nat, r: nat, c: nat)
    requires RowStart(rows, pitch) <= |buf| && (width + 7) / 8 <= pitch && ClearPadded(buf, rows, pitch, width)
    requires r < rows && c < width + xPixels
    ensures 0 <= RowStart(r, pitch) && RowStart(r, pitch) + pitch <= |buf|
    ensures c < 8 * |MonoSource(buf, rows, pitch, width, xPixels, yPixels)[r]|
    ensures RowColumn(MonoSource(buf, rows, pitch, width, xPixels, yPixels)[r], c)
            <==> c < width && RowColumn(buf[RowStart(r, pitch)..RowStart(r, pitch) + pitch], c)
  {
    hide RowStart, ClearFrom, Column;
    RowsFit(rows, pitch);
    var src := MonoSource(buf, rows, pitch, width, xPixels, yPixels);
    var own := buf[RowStart(r, pitch)..RowStart(r, pitch) + pitch];
    assert ClearBehind(own, width);
    if yPixels == 0 && (width + xPixels + 7) / 8 <= pitch {
      assert src[r] == ClearFrom(own + seq(0, _ => 0), width + xPixels);
      assert own + seq(0, _ => 0) == own;
      ClearFromColumns(own, width + xPixels, c);
    } else {
      RelocatedColumn(own, (width + 7) / 8, src[r], c);
    }
  }

  lemma RelocatedColumn(own: seq<byte>, keep: nat, row: seq<byte>, c: nat)
    requires keep <= |own| && keep <= |row| && c < 8 * |row|
    requires forall k :: 0 <= k < |row| ==> row[k] == if k < keep then own[k] else 0
    ensures RowColumn(row, c) <==> c < 8 * keep && RowColumn(own, c)
  {
    hide Bit;
    if keep <= c / 8 {
      ZeroBits(7 - c % 8);
    }
  }

  /** Row r of a buffer. */
  ghost function RowOf(buf: seq<byte>, r: nat, pitch: nat): (row: seq<byte>)
    requires 0 <= RowStart(r, pitch) && RowStart(r, pitch) + pitch <= |buf|
    ensures |row| == pitch
  {
    buf[RowStart(r, pitch)..RowStart(r, pitch) + pitch]
  }

  /** Column c - i of row r is a column of the image and set. */
  ghost predicate WasSet(buf: seq<byte>, pitch: nat, width: nat, r: nat, c: nat, i: nat) {
    && 0 <= RowStart(r, pitch) && RowStart(r, pitch) + pitch <= |buf|
    && 0 <= c - i < width && c - i < 8 * pitch && RowColumn(RowOf(buf, r, pitch), c - i)
  }

  /** What emboldening a mono image shows, from the old buffer to the new one: with clear padding, a
      column of an output row is set exactly when a column at most xPixels to its left was set in a
      source row at most yPixels above. */
  lemma MonoImage(was: seq<byte>, rows: nat, pitch: nat, width: nat, xPixels: nat, yPixels: nat, now: seq<byte>,
                  pitch': nat, t: nat, c: nat)
    requires RowStart(rows, pitch) <= |was| && (width + 7) / 8 <= pitch && ClearPadded(was, rows, pitch, width)
    requires xPixels <= 8 && t < rows + yPixels && c < width + xPixels
    requires pitch' == if yPixels == 0 && (width + xPixels + 7) / 8 <= pitch then pitch else (width + xPixels + 7) / 8
    requires var src := MonoSource(was, rows, pitch, width, xPixels, yPixels);
             Dilated(now, pitch', Emboldened(src, MonoStrength(xPixels)), yPixels)
    ensures 0 <= RowStart(t, pitch') && RowStart(t, pitch') + pitch' <= |now| && c < 8 * pitch'
    ensures RowColumn(RowOf(now, t, pitch'), c) <==>
      exists r, i :: Max(0, t - yPixels) <= r < Min(t + 1, rows) && 0 <= i <= xPixels
        && WasSet(was, pitch, width, r, c, i)
  {
    hide RowStart, MonoSmear, Column, Emboldened, MonoSource, ClearPadded;
    var src := MonoSource(was, rows, pitch, width, xPixels, yPixels);
    MonoDilation(src, xPixels, yPixels, t, c);
    ShownColumn(now, pitch', Emboldened(src, MonoStrength(xPixels)), yPixels, t, c);
    forall r, i | 0 <= r < rows && 0 <= i <= xPixels
      ensures SetToLeft(src[r], c, i) <==> WasSet(was, pitch, width, r, c, i)
    {
      if i <= c {
        MonoSourceColumns(was, rows, pitch, width, xPixels, yPixels, r, c - i);
      }
    }
  }

  lemma ShownColumn(buf: seq<byte>, pitch: nat, emb: seq<seq<byte>>, y: nat, t: nat, c: nat)
    requires (forall r :: 0 <= r < |emb| ==> |emb[r]| == pitch) && Dilated(buf, pitch, emb, y) && t < |emb| + y
      && c < 8 * pitch
    ensures 0 <= RowStart(t, pitch) && RowStart(t, pitch) + pitch <= |buf|
    ensures RowColumn(RowOf(buf, t, pitch), c) <==> Column(DilatedByte(emb, y, t, c / 8), c % 8)
  {
    hide RowStart, DilatedByte, Column;
    assert DilatedRow(buf, pitch, emb, y, t);
    assert RowOf(buf, t, pitch)[c / 8] == buf[RowStart(t, pitch) + c / 8];
  }
}
