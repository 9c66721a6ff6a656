/** From cells to coverage bytes: the fill rule, spans, and the arithmetic of a swept scanline. */
module Sweep {
  import opened Ints
  import opened Segments
  import opened Cells

  // ---------------------------------------------------------------- the fill rule

  /** `fill_rule`: bit 31 of the coverage for non-zero winding, bit 8 for even-odd, decides the
      complement; then a cap at 255 or a cut to 8 bits. */
  function FillRule(area: int, evenOdd: bool): (coverage: byte)
    requires -0x8000_0000 <= area < 0x8000_0000
  {
    var c := area / 512;
    var flagged := if evenOdd then c % 512 >= 256 else c < 0;
    var c' := if flagged then -c - 1 else c;
    if !evenOdd && c' > 255 then 255
    else if evenOdd then c' % 256
    else c'
  }

  /** Non-zero winding: the magnitude of the area in 1/256 of a pixel, capped. */
  lemma NonZeroIsCappedMagnitude(area: int)
    requires -0x8000_0000 <= area < 0x8000_0000
    ensures FillRule(area, false) == Min(255, (if area < 0 then -area - 1 else area) / 512)
    ensures FillRule(-area - 1, false) == FillRule(area, false)
  {
  }

  /** Even-odd: a triangle wave of period 512 in units of 1/256 of a pixel. */
  lemma EvenOddIsTriangleWave(area: int)
    requires -0x8000_0000 <= area < 0x8000_0000
    ensures var t := area / 512 % 512;
            FillRule(area, true) == if t < 256 then t else 511 - t
  {
    var c := area / 512;
    var k, t := c / 512, c % 512;
    assert c == 512 * k + t;
    if t < 256 {
      LowByte(c, 2 * k, t);
    } else {
      LowByte(-c - 1, -2 * k - 2, 511 - t);
    }
  }

  lemma LowByte(c: int, k: int, r: int)
    requires c == 256 * k + r && 0 <= r < 256
    ensures c % 256 == r
  {
  }

  // ---------------------------------------------------------------- what a pixel should show

  /** The byte of pixel (x, y): the fill rule of its trapezoid area, in 32-bit arithmetic. */
  ghost function PixelByte(ink: seq<Segment>, evenOdd: bool, x: int, y: int): byte {
    FillRule(Wrap32(PixelArea(ink, x, y)), evenOdd)
  }

  // ---------------------------------------------------------------- a swept scanline

  /** The cover of all columns up to p that the sweep can see. */
  ghost function SweptCover(ink: seq<Segment>, b: Box, p: int, y: int): int {
    if p < b.minX - 1 then 0 else LeftCover(ink, p, y)
  }

  /** The column of the last cell passed when i cells were. */
  ghost function Passed(row: seq<Cell>, i: nat, b: Box): int
    requires i <= |row|
  {
    if i == 0 then b.minX - 2 else row[i - 1].x
  }

  lemma SweptStep(ink: seq<Segment>, b: Box, p: int, y: int)
    requires b.minX - 1 <= p
    ensures SweptCover(ink, b, p, y) == SweptCover(ink, b, p - 1, y) + CoverAt(ink, b, p, y)
  {
    LeftCoverStep(ink, b, p, y);
  }

  /** Between two neighbouring cells nothing was drawn. */
  lemma NoCellBetween(row: seq<Cell>, b: Box, i: nat, c: int)
    requires Sorted(row) && i <= |row| && Passed(row, i, b) < c && (i < |row| ==> c < row[i].x)
    requires forall j :: 0 <= j < |row| ==> b.minX - 1 <= row[j].x
    ensures !HasCell(row, c)
  {
    forall j | 0 <= j < |row| ensures row[j].x != c {
      if j < i {
        assert row[j].x <= row[i - 1].x;
      } else {
        assert row[i].x <= row[j].x;
      }
    }
  }

  /** Across a gap the running cover stays, and every pixel in it shows the fill of that cover. */
  lemma {:induction false} GapPixel(row: seq<Cell>, ink: seq<Segment>, b: Box, y: int, i: nat, c: int, evenOdd: bool)
    requires RowHolds(row, ink, b, y) && i <= |row|
    requires Passed(row, i, b) <= c < b.maxX && (i < |row| ==> c < row[i].x)
    ensures SweptCover(ink, b, c, y) == SweptCover(ink, b, Passed(row, i, b), y)
    ensures Passed(row, i, b) < c && b.minX <= c ==>
      PixelByte(ink, evenOdd, c, y)
        == FillRule(Wrap32(2 * ONE_PIXEL * SweptCover(ink, b, Passed(row, i, b), y)), evenOdd)
    decreases c - Passed(row, i, b)
  {
    var p := Passed(row, i, b);
    if p < c {
      GapPixel(row, ink, b, y, i, c - 1, evenOdd);
      NoCellBetween(row, b, i, c);
      SweptStep(ink, b, c, y);
      if b.minX <= c {
        PixelFromCells(ink, b, c, y);
      }
    }
  }

  /** The cell's own pixel, from the running cover and the cell's wrapped sums. */
  lemma CellPixel(row: seq<Cell>, ink: seq<Segment>, b: Box, y: int, i: nat, cover: int, evenOdd: bool)
    requires RowHolds(row, ink, b, y) && i < |row|
    requires cover == Wrap32(2 * ONE_PIXEL * SweptCover(ink, b, Passed(row, i, b), y))
    ensures var cover' := Wrap32(cover + Wrap32(row[i].cover * (ONE_PIXEL * 2)));
            && cover' == Wrap32(2 * ONE_PIXEL * SweptCover(ink, b, row[i].x, y))
            && (b.minX <= row[i].x ==>
                PixelByte(ink, evenOdd, row[i].x, y) == FillRule(Wrap32(cover' + -row[i].area), evenOdd))
  {
    hide Wrap32, RowHolds, FillRule, CoverAt, AreaAt, PixelArea, SweptCover;
    CellIsPassed(row, ink, b, y, i);
    var p, x := Passed(row, i, b), row[i].x;
    SweptBefore(row, ink, b, y, i);
    SweptStep(ink, b, x, y);
    CellArithmetic(SweptCover(ink, b, p, y), CoverAt(ink, b, x, y), AreaAt(ink, b, x, y));
    if b.minX <= x {
      PixelFromSwept(ink, b, x, y);
    }
  }

  lemma CellIsPassed(row: seq<Cell>, ink: seq<Segment>, b: Box, y: int, i: nat)
    requires RowHolds(row, ink, b, y) && i < |row|
    ensures b.minX - 1 <= row[i].x < b.maxX && Passed(row, i, b) < row[i].x
    ensures row[i].cover == Wrap32(CoverAt(ink, b, row[i].x, y)) && row[i].area == Wrap32(AreaAt(ink, b, row[i].x, y))
  {
  }

  lemma PixelFromSwept(ink: seq<Segment>, b: Box, x: int, y: int)
    requires b.minX <= x
    ensures PixelArea(ink, x, y) == 2 * ONE_PIXEL * SweptCover(ink, b, x, y) - AreaAt(ink, b, x, y)
  {
    PixelFromCells(ink, b, x, y);
  }

  /** Wrapping at every step of the sweep is wrapping once at the end. */
  lemma CellArithmetic(swept: int, own: int, area: int)
    ensures Wrap32(Wrap32(2 * ONE_PIXEL * swept) + Wrap32(Wrap32(own) * (ONE_PIXEL * 2)))
            == Wrap32(2 * ONE_PIXEL * (swept + own))
    ensures Wrap32(Wrap32(2 * ONE_PIXEL * (swept + own)) + -Wrap32(area))
            == Wrap32(2 * ONE_PIXEL * (swept + own) - area)
  {
    hide Wrap32;
    WrapScale(own, ONE_PIXEL * 2);
    WrapAdd(2 * ONE_PIXEL * swept, Wrap32(own * (ONE_PIXEL * 2)));
    WrapAdd(2 * ONE_PIXEL * swept, own * (ONE_PIXEL * 2));
    WrapAdd(2 * ONE_PIXEL * (swept + own), -Wrap32(area));
    WrapNegate(2 * ONE_PIXEL * (swept + own), area);
  }

  lemma SweptBefore(row: seq<Cell>, ink: seq<Segment>, b: Box, y: int, i: nat)
    requires RowHolds(row, ink, b, y) && i < |row|
    ensures SweptCover(ink, b, row[i].x - 1, y) == SweptCover(ink, b, Passed(row, i, b), y)
  {
    assert Passed(row, i, b) < row[i].x;
    GapPixel(row, ink, b, y, i, row[i].x - 1, false);
  }

  lemma WrapNegate(a: int, b: int)
    ensures Wrap32(a + -Wrap32(b)) == Wrap32(a - b)
  {
  }

  // ---------------------------------------------------------------- spans

  /** A recorded span, with the field widths of the source: x and len are 16-bit patterns. */
  datatype GraySpan = GraySpan(y: int, x: int, len: int, coverage: byte)
  {
    /** x read back as a signed 16-bit value. */
    function Left(): int {
      if x < 0x8000 then x else x - 0x1_0000
    }

    predicate Covers(px: int, py: int) {
      py == y && Left() <= px < Left() + len
    }
  }

  /** What a list of spans, painted in order on zero, shows at a pixel. */
  ghost function SpanValue(spans: seq<GraySpan>, px: int, py: int): byte {
    if spans == [] then 0
    else if spans[|spans| - 1].Covers(px, py) then spans[|spans| - 1].coverage
    else SpanValue(spans[..|spans| - 1], px, py)
  }

  // ---------------------------------------------------------------- addresses

  /** Where pixel (x, y) is stored: rows top-down, `step` bytes from pixel to pixel. */
  datatype Layout = Layout(width: nat, height: nat, pitch: nat, step: nat, offset: nat)
  {
    function Address(x: int, y: int): int {
      (height - 1 - y) * pitch + offset + x * step
    }

    /** Byte k belongs to a pixel of the box. */
    ghost predicate Stores(b: Box, k: int) {
      exists x, y :: b.Contains(x, y) && k == Address(x, y)
    }

    /** Every pixel of a row fits in the pitch and every row in the buffer. */
    ghost predicate FitsIn(length: nat) {
      && 0 < step
      && (width == 0 || (width - 1) * step < pitch)
      && (width == 0 || height == 0 || (height - 1) * pitch + offset + (width - 1) * step < length)
    }
  }

  /** Read back from its index, a byte is in the row counted from the top, at the pixel's place in it, and
      at the layout's offset in the pixel. */
  lemma AddressDecodes(l: Layout, x: int, y: int)
    requires 0 <= x < l.width && 0 <= y < l.height && l.offset < l.step && l.width * l.step <= l.pitch
    ensures 0 < l.pitch
    ensures l.Address(x, y) / l.pitch == l.height - 1 - y
    ensures l.Address(x, y) % l.pitch / l.step == x && l.Address(x, y) % l.pitch % l.step == l.offset
  {
    assert l.Address(x, y) == (l.height - 1 - y) * l.pitch + (l.offset + x * l.step);
    MulMonotone(x + 1, l.width, l.step);
    MulMonotone(0, x, l.step);
    Distribute(l.step, x, 1);
    Digits(l.pitch, l.height - 1 - y, l.offset + x * l.step);
    Digits(l.step, x, l.offset);
  }

  lemma Digits(m: int, high: int, low: int)
    requires 0 <= low < m
    ensures (high * m + low) / m == high && (high * m + low) % m == low
    ensures (low + high * m) / m == high && (low + high * m) % m == low
  {
    DivUnique(high * m + low, m, high, low);
  }

  lemma AddressInBounds(l: Layout, length: nat, x: int, y: int)
    requires l.FitsIn(length) && 0 <= x < l.width && 0 <= y < l.height
    ensures 0 <= l.Address(x, y) < length
  {
    MulMonotone(x, l.width - 1, l.step);
    MulMonotone(l.height - 1 - y, l.height - 1, l.pitch);
    MulMonotone(0, x, l.step);
    MulMonotone(0, l.height - 1 - y, l.pitch);
  }

  /** Different pixels have different addresses. */
  lemma AddressesDiffer(l: Layout, length: nat, x: int, y: int, x': int, y': int)
    requires l.FitsIn(length) && 0 <= x < l.width && 0 <= x' < l.width
    requires l.Address(x, y) == l.Address(x', y')
    ensures x == x' && y == y'
  {
    if y < y' {
      RowsApart(l, length, x, y, x', y');
      assert false;
    } else if y' < y {
      RowsApart(l, length, x', y', x, y);
      assert false;
    } else if x < x' {
      MulMonotone(x + 1, x', l.step);
    } else if x' < x {
      MulMonotone(x' + 1, x, l.step);
    }
  }

  lemma RowsApart(l: Layout, length: nat, x: int, y: int, x': int, y': int)
    requires l.FitsIn(length) && 0 <= x < l.width && 0 <= x' < l.width && y < y'
    ensures l.Address(x', y') < l.Address(x, y)
  {
    MulMonotone(x', l.width - 1, l.step);
    MulMonotone(0, x, l.step);
    MulMonotone(1, y' - y, l.pitch);
    assert (y' - y) * l.pitch == (l.height - 1 - y) * l.pitch - (l.height - 1 - y') * l.pitch;
  }
}
