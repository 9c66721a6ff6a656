/** Scanlines of cells as a representation of the segments accumulated so far. */
module Cells {
  import opened Ints
  import opened Segments

  datatype Cell = Cell(x: int, cover: int, area: int)

  /** The clip box in pixels, upper bounds exclusive. */
  datatype Box = Box(minX: int, maxX: int, minY: int, maxY: int)
  {
    /** Everything left of the box is collected in the column just outside it. */
    function Column(ex: int): int {
      Max(ex, minX - 1)
    }

    predicate Contains(x: int, y: int) {
      minX <= x < maxX && minY <= y < maxY
    }

    predicate Shows(ex: int, ey: int) {
      minY <= ey < maxY && ex < maxX
    }
  }

  // ---------------------------------------------------------------- exact sums per cell

  function CoverShare(s: Segment, b: Box, x: int, y: int): int {
    if s.ey == y && b.Column(s.ex) == x then s.Cover() else 0
  }

  function AreaShare(s: Segment, b: Box, x: int, y: int): int {
    if s.ey == y && b.Column(s.ex) == x then s.Area() else 0
  }

  ghost function CoverAt(ink: seq<Segment>, b: Box, x: int, y: int): int {
    if ink == [] then 0
    else CoverAt(ink[..|ink| - 1], b, x, y) + CoverShare(ink[|ink| - 1], b, x, y)
  }

  ghost function AreaAt(ink: seq<Segment>, b: Box, x: int, y: int): int {
    if ink == [] then 0
    else AreaAt(ink[..|ink| - 1], b, x, y) + AreaShare(ink[|ink| - 1], b, x, y)
  }

  lemma AtAppend(ink: seq<Segment>, s: Segment, b: Box, x: int, y: int)
    ensures CoverAt(ink + [s], b, x, y) == CoverAt(ink, b, x, y) + CoverShare(s, b, x, y)
    ensures AreaAt(ink + [s], b, x, y) == AreaAt(ink, b, x, y) + AreaShare(s, b, x, y)
  {
    assert (ink + [s])[..|ink|] == ink;
  }

  /** The cover of all segments in columns up to x. */
  ghost function LeftCover(ink: seq<Segment>, x: int, y: int): int {
    if ink == [] then 0
    else
      var s := ink[|ink| - 1];
      LeftCover(ink[..|ink| - 1], x, y) + (if s.ey == y && s.ex <= x then s.Cover() else 0)
  }

  /** The running cover at a column is the cover left of it plus the column's own; left of the
      box only the collecting column counts. */
  lemma {:induction false} LeftCoverStep(ink: seq<Segment>, b: Box, x: int, y: int)
    requires b.minX - 1 <= x
    ensures x == b.minX - 1 ==> LeftCover(ink, x, y) == CoverAt(ink, b, x, y)
    ensures b.minX <= x ==> LeftCover(ink, x, y) == LeftCover(ink, x - 1, y) + CoverAt(ink, b, x, y)
  {
    if ink != [] {
      LeftCoverStep(ink[..|ink| - 1], b, x, y);
    }
  }

  /** The value the sweep computes for a pixel is the pixel's trapezoid area. */
  lemma {:induction false} PixelFromCells(ink: seq<Segment>, b: Box, x: int, y: int)
    requires b.minX <= x
    ensures PixelArea(ink, x, y) == 2 * ONE_PIXEL * LeftCover(ink, x, y) - AreaAt(ink, b, x, y)
  {
    if ink != [] {
      var init, s := ink[..|ink| - 1], ink[|ink| - 1];
      PixelFromCells(init, b, x, y);
      assert ink == init + [s];
      PixelAreaConcat(init, [s], x, y);
      assert [s][1..] == [];
      assert PixelArea([s], x, y) == PixelShare(s, x, y) + PixelArea([s][1..], x, y);
    }
  }

  // ---------------------------------------------------------------- scanlines

  ghost predicate Sorted(row: seq<Cell>) {
    forall i, j :: 0 <= i < j < |row| ==> row[i].x < row[j].x
  }

  ghost predicate HasCell(row: seq<Cell>, x: int) {
    exists i :: 0 <= i < |row| && row[i].x == x
  }

  /** The row is sorted, stays in the box, holds the wrapped sums of every cell it has, and lacks
      only cells that nothing was drawn in. */
  ghost predicate RowHolds(row: seq<Cell>, ink: seq<Segment>, b: Box, y: int) {
    && Sorted(row)
    && (forall i :: 0 <= i < |row| ==> b.minX - 1 <= row[i].x < b.maxX)
    && (forall i :: 0 <= i < |row| ==> row[i].cover == Wrap32(CoverAt(ink, b, row[i].x, y)))
    && (forall i :: 0 <= i < |row| ==> row[i].area == Wrap32(AreaAt(ink, b, row[i].x, y)))
    && (forall x :: x < b.maxX && !HasCell(row, x) ==> CoverAt(ink, b, x, y) == 0 == AreaAt(ink, b, x, y))
  }

  /** The insertion point of binary_search_by_key: the number of cells left of x. */
  function LowerBound(row: seq<Cell>, x: int): (k: nat)
    ensures k <= |row|
    ensures forall i :: 0 <= i < k ==> row[i].x < x
    ensures k < |row| ==> x <= row[k].x
  {
    if row == [] || x <= row[0].x then 0 else 1 + LowerBound(row[1..], x)
  }

  /** The row with an empty cell for x put in at its place. */
  function Inserted(row: seq<Cell>, x: int): (row': seq<Cell>)
    ensures var k := LowerBound(row, x);
            && |row'| == |row| + 1
            && (forall i :: 0 <= i < k ==> row'[i] == row[i])
            && row'[k] == Cell(x, 0, 0)
            && (forall i :: k < i < |row'| ==> row'[i] == row[i - 1])
  {
    var k := LowerBound(row, x);
    row[..k] + [Cell(x, 0, 0)] + row[k..]
  }

  /** The row after the source's search-or-insert. */
  function WithCell(row: seq<Cell>, x: int): seq<Cell> {
    var k := LowerBound(row, x);
    if k < |row| && row[k].x == x then row else Inserted(row, x)
  }

  lemma InsertedSorted(row: seq<Cell>, x: int)
    requires Sorted(row) && !HasCell(row, x)
    ensures Sorted(Inserted(row, x))
  {
    var k := LowerBound(row, x);
    forall i | k <= i < |row| ensures x < row[i].x {
      assert row[k].x <= row[i].x;
      assert row[i].x != x;
    }
  }

  lemma InsertedHasCell(row: seq<Cell>, x: int, z: int)
    ensures HasCell(Inserted(row, x), z) <==> HasCell(row, z) || z == x
  {
    var k, row' := LowerBound(row, x), Inserted(row, x);
    if HasCell(row, z) {
      var i :| 0 <= i < |row| && row[i].x == z;
      assert row'[if i < k then i else i + 1].x == z;
    }
    assert row'[k].x == x;
  }

  /** Without a cell for x the lower bound does not hit one. */
  lemma LowerBoundMisses(row: seq<Cell>, x: int)
    requires Sorted(row)
    ensures var k := LowerBound(row, x); (k < |row| && row[k].x == x) <==> HasCell(row, x)
  {
    if HasCell(row, x) {
      var i :| 0 <= i < |row| && row[i].x == x;
      var k := LowerBound(row, x);
      assert k <= i;
      assert row[k].x <= row[i].x;
    }
  }

  /** Creating an empty cell changes nothing that is represented. */
  lemma WithCellHolds(row: seq<Cell>, ink: seq<Segment>, b: Box, y: int, x: int)
    requires RowHolds(row, ink, b, y) && b.minX - 1 <= x < b.maxX
    ensures RowHolds(WithCell(row, x), ink, b, y)
    ensures var k := LowerBound(row, x); k < |WithCell(row, x)| && WithCell(row, x)[k].x == x
  {
    hide HasCell, CoverAt, AreaAt, Wrap32, LowerBound;
    LowerBoundMisses(row, x);
    if !HasCell(row, x) {
      var row' := Inserted(row, x);
      InsertedSorted(row, x);
      forall z | z < b.maxX && !HasCell(row', z)
        ensures CoverAt(ink, b, z, y) == 0 == AreaAt(ink, b, z, y)
      {
        InsertedHasCell(row, x, z);
      }
      assert CoverAt(ink, b, x, y) == 0 == AreaAt(ink, b, x, y);
      WrapZero();
    }
  }

  lemma WrapZero()
    ensures Wrap32(0) == 0
  {
  }

  /** The row after a segment in column x was added to cell k. */
  function WithSegment(row: seq<Cell>, k: nat, a: int, c: int): seq<Cell>
    requires k < |row|
  {
    row[k := Cell(row[k].x, Wrap32(row[k].cover + a), Wrap32(row[k].area + Wrap32(a * c)))]
  }

  /** Adding a segment to its own cell keeps the row a picture of the ink. */
  lemma WithSegmentHolds(row: seq<Cell>, ink: seq<Segment>, b: Box, y: int, k: nat, s: Segment)
    requires RowHolds(row, ink, b, y) && k < |row|
    requires s.ey == y && row[k].x == b.Column(s.ex)
    ensures RowHolds(WithSegment(row, k, s.Cover(), s.fx1 + s.fx2), ink + [s], b, y)
  {
    hide CoverAt, AreaAt, Wrap32, HasCell;
    var row' := WithSegment(row, k, s.Cover(), s.fx1 + s.fx2);
    forall i | 0 <= i < |row|
      ensures row'[i].cover == Wrap32(CoverAt(ink + [s], b, row[i].x, y))
      ensures row'[i].area == Wrap32(AreaAt(ink + [s], b, row[i].x, y))
    {
      AtAppend(ink, s, b, row[i].x, y);
      WrapAdd(CoverAt(ink, b, row[i].x, y), s.Cover());
      WrapAdd(AreaAt(ink, b, row[i].x, y), Wrap32(s.Area()));
      WrapAdd(AreaAt(ink, b, row[i].x, y), s.Area());
    }
    forall x | x < b.maxX && !HasCell(row', x)
      ensures CoverAt(ink + [s], b, x, y) == 0 == AreaAt(ink + [s], b, x, y)
    {
      AtAppend(ink, s, b, x, y);
      SameColumns(row, row', x);
      HasOwnCell(row, k);
    }
  }

  lemma SameColumns(row: seq<Cell>, row': seq<Cell>, x: int)
    requires |row| == |row'| && forall i :: 0 <= i < |row| ==> row'[i].x == row[i].x
    ensures HasCell(row, x) <==> HasCell(row', x)
  {
  }

  lemma HasOwnCell(row: seq<Cell>, k: nat)
    requires k < |row|
    ensures HasCell(row, row[k].x)
  {
  }

  /** A segment of another scanline, or one right of the box, leaves the row alone. */
  lemma OtherSegmentHolds(row: seq<Cell>, ink: seq<Segment>, b: Box, y: int, s: Segment)
    requires RowHolds(row, ink, b, y)
    requires s.ey != y || b.maxX <= s.ex
    ensures RowHolds(row, ink + [s], b, y)
  {
    forall x | x < b.maxX
      ensures CoverAt(ink + [s], b, x, y) == CoverAt(ink, b, x, y)
      ensures AreaAt(ink + [s], b, x, y) == AreaAt(ink, b, x, y)
    {
      AtAppend(ink, s, b, x, y);
    }
  }
}
