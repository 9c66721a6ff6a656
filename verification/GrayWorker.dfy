/** The rasterizer worker: cell accumulation and line drawing, in place. */
module GrayWorker {
  import opened Ints
  import opened Options
  import opened Segments
  import opened LineWalk
  import opened Cells
  import opened Curves
  import opened Cubics
  import opened Contours
  import opened Sweep

  /** Every scanline of the band holds the sums of the segments drawn so far. */
  ghost predicate Holds(scanlines: seq<seq<Cell>>, ink: seq<Segment>, b: Box) {
    && b.minX <= b.maxX && b.minY <= b.maxY <= b.minY + |scanlines|
    && forall r :: 0 <= r < b.maxY - b.minY ==> RowHolds(scanlines[r], ink, b, b.minY + r)
  }

  /** The current cell is the one for pixel (ex, ey), or the dumpster when the box does not show it. */
  ghost predicate Names(scanlines: seq<seq<Cell>>, b: Box, current: Option<nat>, idx: nat, ex: int, ey: int) {
    if b.Shows(ex, ey) then
      current == Some(ey - b.minY) && ey - b.minY < |scanlines| &&
      idx < |scanlines[ey - b.minY]| && scanlines[ey - b.minY][idx].x == b.Column(ex)
    else current == None
  }

  lemma HoldsAfterCell(scanlines: seq<seq<Cell>>, ink: seq<Segment>, b: Box, ex: int, ey: int)
    requires Holds(scanlines, ink, b) && b.Shows(ex, ey)
    ensures var r := ey - b.minY;
            var row := WithCell(scanlines[r], b.Column(ex));
            && Holds(scanlines[r := row], ink, b)
            && var k := LowerBound(scanlines[r], b.Column(ex)); k < |row| && row[k].x == b.Column(ex)
  {
    hide RowHolds, LowerBound, WithCell;
    WithCellHolds(scanlines[ey - b.minY], ink, b, ey, b.Column(ex));
  }

  lemma HoldsAfterSegment(scanlines: seq<seq<Cell>>, ink: seq<Segment>, b: Box, k: nat, s: Segment)
    requires Holds(scanlines, ink, b) && b.Shows(s.ex, s.ey)
    requires k < |scanlines[s.ey - b.minY]| && scanlines[s.ey - b.minY][k].x == b.Column(s.ex)
    ensures var r := s.ey - b.minY;
            Holds(scanlines[r := WithSegment(scanlines[r], k, s.Cover(), s.fx1 + s.fx2)], ink + [s], b)
  {
    hide RowHolds, WithSegment;
    var r := s.ey - b.minY;
    forall i | 0 <= i < b.maxY - b.minY && i != r
      ensures RowHolds(scanlines[i], ink + [s], b, b.minY + i)
    {
      OtherSegmentHolds(scanlines[i], ink, b, b.minY + i, s);
    }
    WithSegmentHolds(scanlines[r], ink, b, s.ey, k, s);
  }

  lemma HoldsWithoutSegment(scanlines: seq<seq<Cell>>, ink: seq<Segment>, b: Box, s: Segment)
    requires Holds(scanlines, ink, b) && !b.Shows(s.ex, s.ey)
    ensures Holds(scanlines, ink + InBand([s], b.minY, b.maxY), b)
  {
    hide RowHolds;
    InBandSingle(s, b.minY, b.maxY);
    if b.minY <= s.ey < b.maxY {
      forall i | 0 <= i < b.maxY - b.minY
        ensures RowHolds(scanlines[i], ink + [s], b, b.minY + i)
      {
        OtherSegmentHolds(scanlines[i], ink, b, b.minY + i, s);
      }
    } else {
      assert ink + [] == ink;
    }
  }

  /** One piece passes from the work left to the work done. */
  lemma Moved(done: seq<Segment>, piece: seq<Segment>, rest: seq<Segment>)
    ensures done + (piece + rest) == (done + piece) + rest
  {
  }

  lemma InBandSingle(s: Segment, low: int, high: int)
    ensures InBand([s], low, high) == if low <= s.ey < high then [s] else []
  {
    assert [s][1..] == [];
  }

  class Worker {
    var minEx: int
    var maxEx: int
    var minEy: int
    var maxEy: int

    /** One sorted list of cells per scanline of the band. */
    var scanlines: seq<seq<Cell>>
    /** The scanline of the current cell; `None` is the dumpster. */
    var currentScanline: Option<nat>
    var currentEy: int
    var currentIdx: nat

    /** The last emitted point. */
    var x: int
    var y: int

    var offsetX: int
    var offsetY: int

    /** The output: bytes of a target buffer, or recorded spans. */
    const target: array<byte>
    const layout: Layout
    const evenOdd: bool
    var spans: Option<seq<GraySpan>>

    /** The in-band segments that were accumulated, in order. */
    ghost var ink: seq<Segment>

    constructor (target: array<byte>, layout: Layout, evenOdd: bool, offsetX: int, offsetY: int, direct: bool)
      ensures this.target == target && this.layout == layout && this.evenOdd == evenOdd
      ensures this.offsetX == offsetX && this.offsetY == offsetY
      ensures spans == if direct then Some([]) else None
    {
      this.target, this.layout, this.evenOdd := target, layout, evenOdd;
      this.offsetX, this.offsetY := offsetX, offsetY;
      minEx, maxEx, minEy, maxEy := 0, 0, 0, 0;
      scanlines, currentScanline, currentEy, currentIdx := [], None, 0, 0xFFFF_FFFF_FFFF_FFFF;
      x, y := 0, 0;
      spans := if direct then Some([]) else None;
      ink := [];
    }

    ghost function Clip(): Box
      reads this`minEx, this`maxEx, this`minEy, this`maxEy
    {
      Box(minEx, maxEx, minEy, maxEy)
    }

    ghost predicate Valid()
      reads this`minEx, this`maxEx, this`minEy, this`maxEy, this`scanlines, this`ink
    {
      Holds(scanlines, ink, Clip())
    }

    ghost predicate AtCell(ex: int, ey: int)
      reads this`minEx, this`maxEx, this`minEy, this`maxEy, this`scanlines, this`currentScanline, this`currentIdx
    {
      Names(scanlines, Clip(), currentScanline, currentIdx, ex, ey)
    }

    ghost function Here(): Point
      reads this`x, this`y
    {
      Point(x, y)
    }

    /** The invariant between drawing calls: the current cell is that of the current point. */
    ghost predicate Ready()
      reads this`minEx, this`maxEx, this`minEy, this`maxEy, this`scanlines, this`currentScanline, this`currentIdx,
            this`x, this`y, this`ink
    {
      Valid() && AtCell(Trunc(x), Trunc(y)) && IsPosition(Here())
    }

    method Integrate(a: int, b: int, ghost s: Segment)
      requires Valid() && AtCell(s.ex, s.ey) && a == s.Cover() && b == s.fx1 + s.fx2
      modifies this`scanlines, this`ink
      ensures Valid() && AtCell(s.ex, s.ey)
      ensures ink == old(ink) + InBand([s], minEy, maxEy)
    {
      hide RowHolds, InBand;
      InBandSingle(s, minEy, maxEy);
      if currentScanline.None? {
        HoldsWithoutSegment(scanlines, ink, Clip(), s);
        ink := ink + InBand([s], minEy, maxEy);
        return;
      }
      HoldsAfterSegment(scanlines, ink, Clip(), currentIdx, s);
      var row := scanlines[currentScanline.value];
      var cell := row[currentIdx];
      scanlines := scanlines[currentScanline.value :=
        row[currentIdx := Cell(cell.x, Wrap32(cell.cover + a), Wrap32(cell.area + Wrap32(a * b)))]];
      ink := ink + [s];
    }

    method SetCell(ex: int, ey: int)
      requires Valid()
      modifies this`scanlines, this`currentScanline, this`currentEy, this`currentIdx
      ensures Valid() && AtCell(ex, ey)
    {
      hide RowHolds, LowerBound, Inserted;
      var eyIndex := ey - minEy;
      if eyIndex < 0 || eyIndex >= maxEy - minEy || ex >= maxEx {
        currentScanline := None;
        return;
      }
      HoldsAfterCell(scanlines, ink, Clip(), ex, ey);
      var col := Max(ex, minEx - 1);
      currentEy := ey;
      currentScanline := Some(eyIndex);
      var row := scanlines[eyIndex];
      if currentIdx < |row| && row[currentIdx].x == col {
        return;
      }
      if row != [] {
        var last := row[|row| - 1];
        if last.x == col {
          currentIdx := |row| - 1;
          return;
        }
        if last.x < col {
          AppendIsInsert(row, ink, Clip(), ey, col);
          currentIdx := |row|;
          scanlines := scanlines[eyIndex := row + [Cell(col, 0, 0)]];
          return;
        }
      }
      var idx := LowerBound(row, col);
      if !(idx < |row| && row[idx].x == col) {
        scanlines := scanlines[eyIndex := Inserted(row, col)];
      }
      currentIdx := idx;
    }

    /** The vertical case of `render_line`, up to the last cell. */
    method RenderColumn(toX: int, toY: int) returns (fx1: int, fy1: int)
      requires Ready() && IsPosition(Point(toX, toY)) && toX == x && Trunc(y) != Trunc(toY)
      modifies this`scanlines, this`currentScanline, this`currentEy, this`currentIdx, this`ink
      ensures Valid() && AtCell(Trunc(toX), Trunc(toY))
      ensures var last := Segment(Trunc(toX), Trunc(toY), fx1, fy1, Fract(toX), Fract(toY));
              ink + InBand([last], minEy, maxEy)
              == old(ink) + InBand(LineSegments(old(Here()), Point(toX, toY)), minEy, maxEy)
    {
      hide RowHolds, InBand;
      ghost var q := Point(toX, toY);
      var ex1, ey1, ey2 := Trunc(x), Trunc(y), Trunc(toY);
      fx1, fy1 := Fract(x), Fract(y);
      var twoFx := 2 * fx1;
      var up := toY > y;
      var step := if up then 1 else -1;
      var fyAdd := if up then ONE_PIXEL else 0;
      var fyRst := if up then 0 else ONE_PIXEL;
      while true
        invariant ey1 != ey2 && (up <==> ey1 < ey2)
        invariant Valid() && AtCell(ex1, ey1)
        invariant ink + InBand(ColumnWalk(ex1, fx1, ey1, fy1, q), minEy, maxEy)
                  == old(ink) + InBand(LineSegments(old(Here()), q), minEy, maxEy)
        decreases Abs(ey2 - ey1)
      {
        ghost var s := Segment(ex1, ey1, fx1, fy1, fx1, fyAdd);
        ghost var rest := ColumnWalk(ex1, fx1, ey1 + step, fyRst, q);
        InBandConcat([s], rest, minEy, maxEy);
        ghost var before := ink;
        Integrate(fyAdd - fy1, twoFx, s);
        Moved(before, InBand([s], minEy, maxEy), InBand(rest, minEy, maxEy));
        fy1 := fyRst;
        ey1 := ey1 + step;
        SetCell(ex1, ey1);
        if ey1 == ey2 {
          break;
        }
      }
    }

    /** The general case of `render_line`, up to the last cell: the cross-product DDA. */
    method RenderSlanted(toX: int, toY: int) returns (fx1: int, fy1: int)
      requires Ready() && IsPosition(Point(toX, toY))
      requires toX != x && toY != y && !SameCell(Here(), Point(toX, toY))
      modifies this`scanlines, this`currentScanline, this`currentEy, this`currentIdx, this`ink
      ensures Valid() && AtCell(Trunc(toX), Trunc(toY))
      ensures var last := Segment(Trunc(toX), Trunc(toY), fx1, fy1, Fract(toX), Fract(toY));
              ink + InBand([last], minEy, maxEy)
              == old(ink) + InBand(LineSegments(old(Here()), Point(toX, toY)), minEy, maxEy)
    {
      hide Holds, Names, InBand, OnCourse, Crossing, WalkFrom, LineSegments, Distance, UDiv, UDivPrep, Abs;
      ghost var l := Line(Here(), Point(toX, toY));
      SlantedStart(Here(), Point(toX, toY));
      var ex1, ey1, ex2, ey2 := Trunc(x), Trunc(y), Trunc(toX), Trunc(toY);
      fx1, fy1 := Fract(x), Fract(y);
      var dx, dy := toX - x, toY - y;
      var prod := dx * fy1 - dy * fx1;
      var dxR := UDivPrep(ex1 != ex2, dx);
      var dyR := UDivPrep(ey1 != ey2, dy);
      var dxOne := dx * ONE_PIXEL;
      var dyOne := dy * ONE_PIXEL;
      while true
        invariant OnCourse(l, Cursor(ex1, ey1, fx1, fy1, prod))
        invariant Distance(l, Cursor(ex1, ey1, fx1, fy1, prod)) != 0
        invariant Valid() && AtCell(ex1, ey1)
        invariant ink + InBand(WalkFrom(l, Cursor(ex1, ey1, fx1, fy1, prod)), minEy, maxEy)
                  == old(ink) + InBand(LineSegments(old(Here()), l.to), minEy, maxEy)
        decreases Distance(l, Cursor(ex1, ey1, fx1, fy1, prod))
      {
        ghost var c := Cursor(ex1, ey1, fx1, fy1, prod);
        ghost var s := StepSegment(l, c);
        WalkUnfold(l, c);
        StepKeepsCourse(l, c);
        InBandConcat([s], WalkFrom(l, StepCursor(l, c)), minEy, maxEy);
        ghost var before := ink;
        var pLeft := prod - dxOne;
        var pUp := pLeft + dyOne;
        var pRight := prod + dyOne;
        if pLeft > 0 && prod <= 0 {
          var fx2 := 0;
          var fy2 := UDiv(-prod, -dxR);
          prod := prod - dyOne;
          Integrate(fy2 - fy1, fx1 + fx2, s);
          fx1 := ONE_PIXEL;
          fy1 := fy2;
          ex1 := ex1 - 1;
        } else if pUp > 0 && pLeft <= 0 {
          prod := prod - dxOne;
          var fx2 := UDiv(-prod, dyR);
          var fy2 := ONE_PIXEL;
          Integrate(fy2 - fy1, fx1 + fx2, s);
          fx1 := fx2;
          fy1 := 0;
          ey1 := ey1 + 1;
        } else if pRight >= 0 && pUp <= 0 {
          prod := prod + dyOne;
          var fx2 := ONE_PIXEL;
          var fy2 := UDiv(prod, dxR);
          Integrate(fy2 - fy1, fx1 + fx2, s);
          fx1 := 0;
          fy1 := fy2;
          ex1 := ex1 + 1;
        } else {
          var fx2 := UDiv(prod, -dyR);
          var fy2 := 0;
          prod := prod + dxOne;
          Integrate(fy2 - fy1, fx1 + fx2, s);
          fx1 := fx2;
          fy1 := ONE_PIXEL;
          ey1 := ey1 - 1;
        }
        assert Cursor(ex1, ey1, fx1, fy1, prod) == StepCursor(l, c);
        Moved(before, InBand([s], minEy, maxEy), InBand(WalkFrom(l, StepCursor(l, c)), minEy, maxEy));
        SetCell(ex1, ey1);
        DistanceZero(l, StepCursor(l, c));
        if ex1 == ex2 && ey1 == ey2 {
          WalkUnfold(l, StepCursor(l, c));
          break;
        }
      }
    }

    method RenderLine(toX: int, toY: int)
      requires Ready() && IsPosition(Point(toX, toY))
      modifies this`scanlines, this`currentScanline, this`currentEy, this`currentIdx, this`x, this`y, this`ink
      ensures Ready() && Here() == Point(toX, toY)
      ensures ink == old(ink) + InBand(LineSegments(old(Here()), Point(toX, toY)), minEy, maxEy)
    {
      hide RowHolds, InBand, OffBand, OnCourse, StepCursor;
      ghost var p, q := Here(), Point(toX, toY);
      var ey1, ey2 := Trunc(y), Trunc(toY);

      if (ey1 >= maxEy && ey2 >= maxEy) || (ey1 < minEy && ey2 < minEy) {
        OffBandLine(p, q, minEy, maxEy);
        assert ink == ink + [];
        x, y := toX, toY;
        return;
      }

      var ex1, ex2 := Trunc(x), Trunc(toX);
      var fx1, fy1 := Fract(x), Fract(y);
      var dx, dy := toX - x, toY - y;

      if ex1 == ex2 && ey1 == ey2 {
      } else if dy == 0 {
        SetCell(ex2, ey2);
        InBandEmpty([], minEy, maxEy);
        assert ink == ink + [];
        x, y := toX, toY;
        return;
      } else if dx == 0 {
        fx1, fy1 := RenderColumn(toX, toY);
      } else {
        fx1, fy1 := RenderSlanted(toX, toY);
      }

      var fx2, fy2 := Fract(toX), Fract(toY);
      Integrate(fy2 - fy1, fx1 + fx2, Segment(ex2, ey2, fx1, fy1, fx2, fy2));
      x, y := toX, toY;
    }

    // ---------------------------------------------------------------- curves

    ghost function Offset(): Vec
      reads this`offsetX, this`offsetY
    {
      Vec(offsetX, offsetY)
    }

    method MoveTo(toX: int, toY: int)
      requires Valid() && IsPosition(Placed(Vec(toX, toY), Offset()))
      modifies this`scanlines, this`currentScanline, this`currentEy, this`currentIdx, this`x, this`y
      ensures Ready() && Here() == Placed(Vec(toX, toY), Offset())
    {
      var px, py := UPSCALE * (toX + offsetX), UPSCALE * (toY + offsetY);
      SetCell(Trunc(px), Trunc(py));
      x, y := px, py;
    }

    method LineTo(toX: int, toY: int)
      requires Ready() && IsPosition(Placed(Vec(toX, toY), Offset()))
      modifies this`scanlines, this`currentScanline, this`currentEy, this`currentIdx, this`x, this`y, this`ink
      ensures Ready() && Here() == Placed(Vec(toX, toY), Offset())
      ensures ink == old(ink) + InBand(LineSegments(old(Here()), Placed(Vec(toX, toY), Offset())), minEy, maxEy)
    {
      RenderLine(UPSCALE * (toX + offsetX), UPSCALE * (toY + offsetY));
    }

    /** Draws the flattened conic, or in the case of the early return moves straight to its end.  The
        end point is reached exactly in that case, or when it fits 32 bits, or for a flat conic. */
    method RenderConic(controlX: int, controlY: int, toX: int, toY: int)
      requires Ready() && IsPosition(Placed(Vec(controlX, controlY), Offset()))
        && IsPosition(Placed(Vec(toX, toY), Offset()))
      modifies this`scanlines, this`currentScanline, this`currentEy, this`currentIdx, this`x, this`y, this`ink
      ensures Ready()
      ensures var p0, p1, p2 := old(Here()), Placed(Vec(controlX, controlY), Offset()), Placed(Vec(toX, toY), Offset());
              && ConicDrawn(old(ink), ink, p0, p1, p2, Here(), minEy, maxEy)
              && (Here() == p2 <==> OffBand([p0.y, p1.y, p2.y], minEy, maxEy) || Fits32(p2)
                                    || ConicDeviation(p0, p1, p2) <= ONE_PIXEL / 4)
    {
      hide Ready, InBand, PathSegments, LineSegments, OffBand, ConicPoints, IsPosition, DrawnConic, Fits32, PathEnd;
      ghost var p0, p1, p2 := Here(), Placed(Vec(controlX, controlY), Offset()), Placed(Vec(toX, toY), Offset());
      var p0x, p0y := x, y;
      var p1x, p1y := UPSCALE * (controlX + offsetX), UPSCALE * (controlY + offsetY);
      var p2x, p2y := UPSCALE * (toX + offsetX), UPSCALE * (toY + offsetY);
      ReadyHere();
      OffBandThree(p0y, p1y, p2y, minEy, maxEy);
      AtMost15Halvings(p0, p1, p2);
      DrawnConicEnds(p0, p1, p2, minEy, maxEy);
      if (Trunc(p0y) >= maxEy && Trunc(p1y) >= maxEy && Trunc(p2y) >= maxEy)
         || (Trunc(p0y) < minEy && Trunc(p1y) < minEy && Trunc(p2y) < minEy)
      {
        SkipTo(p2x, p2y);
        SkippedConic(ink, p0, p1, p2, minEy, maxEy);
        return;
      }
      var bX, bY := p1x - p0x, p1y - p0y;
      var aX, aY := p2x - p1x - bX, p2y - p1y - bY;
      var d := Max(Abs(aX), Abs(aY));
      if d <= ONE_PIXEL / 4 {
        RenderLine(p2x, p2y);
        ShortConic(old(ink), ink, p0, p1, p2, minEy, maxEy);
        return;
      }
      var shift := 16;
      ghost var k := Halvings(d);
      while true
        invariant ONE_PIXEL / 4 < d && 16 - shift + Halvings(d) == k <= 15
        decreases d
      {
        d := d / 4;
        shift := shift - 1;
        if d <= ONE_PIXEL / 4 {
          break;
        }
      }
      RenderConicSteps(Point(p1x, p1y), Point(p2x, p2y), shift);
    }

    /** The stepping loop of `render_conic`: a wrapping 64-bit forward difference per axis. */
    method RenderConicSteps(p1: Point, p2: Point, shift: nat)
      requires Ready() && IsPosition(p1) && IsPosition(p2)
      requires ConicDeviation(Here(), p1, p2) > ONE_PIXEL / 4
      requires shift <= 15 && 16 - shift == Halvings(ConicDeviation(Here(), p1, p2))
      requires !OffBand([y, p1.y, p2.y], minEy, maxEy)
      modifies this`scanlines, this`currentScanline, this`currentEy, this`currentIdx, this`x, this`y, this`ink
      ensures Ready()
      ensures ConicDrawn(old(ink), ink, old(Here()), p1, p2, Here(), minEy, maxEy)
    {
      hide Ready, InBand, PathSegments, LineSegments, OffBand, ConicPoints, ConicDeviation, Halvings, Pow2, Wrap64,
           ShiftLeft64, Differences, ConicValue, IsPosition, PathEnd;
      ghost var p0 := Here();
      ghost var k := 16 - shift;
      ghost var points := ConicPoints(p0, p1, p2);
      ReadyHere();
      ConicSequence(p0, p1, p2, k);
      var bX, bY := p1.x - x, p1.y - y;
      var aX, aY := p2.x - p1.x - bX, p2.y - p1.y - bY;
      var count := 0x1_0000 / Pow2(shift);
      var rx, ry := ShiftLeft64(aX, shift + shift), ShiftLeft64(aY, shift + shift);
      var qx := Wrap64(ShiftLeft64(bX, shift + 17) + rx);
      var qy := Wrap64(ShiftLeft64(bY, shift + 17) + ry);
      var rx2, ry2 := Wrap64(rx * 2), Wrap64(ry * 2);
      var px, py := ShiftLeft64(x, 32), ShiftLeft64(y, 32);
      DifferencesStart(p0.x, p1.x, p2.x, k);
      DifferencesStart(p0.y, p1.y, p2.y, k);
      StepCount(shift);
      NothingDrawn(p0, points, minEy, maxEy);
      assert ink == ink + [];
      for i := 0 to count
        invariant Ready()
        invariant Differences(p0.x, p1.x, p2.x, k, i, px, qx) && Differences(p0.y, p1.y, p2.y, k, i, py, qy)
        invariant Here() == PathEnd(p0, points[..i])
        invariant ink == old(ink) + InBand(PathSegments(p0, points[..i]), minEy, maxEy)
      {
        DifferencesStep(p0.x, p1.x, p2.x, k, i, px, qx);
        DifferencesStep(p0.y, p1.y, p2.y, k, i, py, qy);
        px, py := Wrap64(px + qx), Wrap64(py + qy);
        qx, qy := Wrap64(qx + rx2), Wrap64(qy + ry2);
        DifferencesRead(p0.x, p1.x, p2.x, k, i + 1, px, qx);
        DifferencesRead(p0.y, p1.y, p2.y, k, i + 1, py, qy);
        assert points[i] == Point(px / TWO_32, py / TWO_32);
        DrawnSoFar(p0, points, i, minEy, maxEy);
        RenderLine(px / TWO_32, py / TWO_32);
        Appended(old(ink), InBand(PathSegments(p0, points[..i]), minEy, maxEy),
                 InBand(LineSegments(PathEnd(p0, points[..i]), points[i]), minEy, maxEy));
      }
      assert points[..count] == points;
    }

    // ---------------------------------------------------------------- cubics

    /** Draws the flattened cubic.  Skipping off-band arcs changes nothing in the band, and the
        current point ends exactly on the endpoint. */
    method RenderCubic(c1X: int, c1Y: int, c2X: int, c2Y: int, toX: int, toY: int)
      requires Ready() && IsPosition(Placed(Vec(c1X, c1Y), Offset())) && IsPosition(Placed(Vec(c2X, c2Y), Offset()))
        && IsPosition(Placed(Vec(toX, toY), Offset()))
      modifies this`scanlines, this`currentScanline, this`currentEy, this`currentIdx, this`x, this`y, this`ink
      ensures Ready() && Here() == Placed(Vec(toX, toY), Offset())
      ensures var arc := Arc(Placed(Vec(toX, toY), Offset()), Placed(Vec(c2X, c2Y), Offset()),
                             Placed(Vec(c1X, c1Y), Offset()), old(Here()));
              CubicDrawn(old(ink), ink, arc, minEy, maxEy)
    {
      hide Ready, InBand, PathSegments, CubicPoints, Chain, StackPoints, StackWork, IsPosition, Arc.Flat;
      ReadyHere();
      ghost var end := Placed(Vec(toX, toY), Offset());
      ghost var first := Arc(end, Placed(Vec(c2X, c2Y), Offset()), Placed(Vec(c1X, c1Y), Offset()), Here());
      var stack := [Arc(Point(UPSCALE * (toX + offsetX), UPSCALE * (toY + offsetY)),
                        Point(UPSCALE * (c2X + offsetX), UPSCALE * (c2Y + offsetY)),
                        Point(UPSCALE * (c1X + offsetX), UPSCALE * (c1Y + offsetY)),
                        Point(x, y))];
      StackOfOne(first);
      while stack != []
        invariant Ready() && Chain(stack, Here(), end) && IsPosition(Here())
        invariant forall q :: q in StackPoints(stack) ==> IsPosition(q)
        invariant ink + InBand(PathSegments(Here(), StackPoints(stack)), minEy, maxEy)
                  == old(ink) + InBand(PathSegments(first.from, CubicPoints(first)), minEy, maxEy)
        decreases StackWork(stack)
      {
        var arc := stack[|stack| - 1];
        var rest := stack[..|stack| - 1];
        assert stack == rest + [arc];
        PopTop(rest, arc, Here(), end);
        ChainPositions(rest, arc.to, end);
        NotFlat(arc);
        var a0, a1, a2, a3 := arc.to, arc.c2, arc.c1, arc.from;
        ghost var before := ink;
        OffBandFour(a0.y, a1.y, a2.y, a3.y, minEy, maxEy);
        if (Trunc(a0.y) >= maxEy && Trunc(a1.y) >= maxEy && Trunc(a2.y) >= maxEy && Trunc(a3.y) >= maxEy)
           || (Trunc(a0.y) < minEy && Trunc(a1.y) < minEy && Trunc(a2.y) < minEy && Trunc(a3.y) < minEy)
        {
          ArcSkipped(arc, StackPoints(rest), minEy, maxEy);
          SkipTo(a0.x, a0.y);
          stack := rest;
        } else if Abs(2 * a0.x - 3 * a1.x + a3.x) > ONE_PIXEL / 2
          || Abs(2 * a0.y - 3 * a1.y + a3.y) > ONE_PIXEL / 2
          || Abs(a0.x - 3 * a2.x + 2 * a3.x) > ONE_PIXEL / 2
          || Abs(a0.y - 3 * a2.y + 2 * a3.y) > ONE_PIXEL / 2
        {
          SplitTop(rest, arc, Here(), end);
          stack := rest + [arc.Right(), arc.Left()];
        } else {
          ArcDrawn(arc, StackPoints(rest), minEy, maxEy);
          RenderLine(a0.x, a0.y);
          Moved(before, InBand(LineSegments(arc.from, arc.to), minEy, maxEy),
                InBand(PathSegments(arc.to, StackPoints(rest)), minEy, maxEy));
          stack := rest;
        }
      }
      EmptyStack(Here(), end, minEy, maxEy);
      assert ink + [] == ink;
    }

    // ---------------------------------------------------------------- contours

    /** Walks one contour from the cursor.  It succeeds exactly when the tags parse, and then it has
        drawn exactly the parsed commands. */
    method WalkContour(pts: seq<OutlinePoint>, tags: seq<int>, from: int, limit: int, vStart: Vec)
      returns (r: Parsed<()>)
      requires -1 <= from && limit < |pts| && PointsFit(pts, Offset()) && VecFits(vStart, Offset())
      requires Ready()
      modifies this`scanlines, this`currentScanline, this`currentEy, this`currentIdx, this`x, this`y, this`ink
      ensures Ready()
      ensures Finished(Commands(pts, tags, from, limit, vStart), r, old(ink), old(Here()), ink, Offset(), minEy, maxEy)
    {
      hide Ready, InBand, Commands, ConicCommands, AllFit, CommandSegments, InProgress, Finished, Drawn,
           PointsFit, VecFits, Middle, Prepend, TagAt;
      ghost var off := Offset();
      ghost var all := Commands(pts, tags, from, limit, vStart);
      var cursor := from;
      ReadyHere();
      WalkStart(pts, tags, from, limit, vStart, off, ink, Here(), minEy, maxEy);
      while cursor < limit
        invariant from <= cursor && Ready()
        invariant InProgress(all, Commands(pts, tags, cursor, limit, vStart), old(ink), old(Here()), ink, Here(),
                             off, minEy, maxEy)
        decreases limit - cursor
      {
        CommandsUnfold(pts, tags, cursor, limit, vStart);
        ghost var before, here := ink, Here();
        cursor := cursor + 1;
        var tag := TagAt(pts, tags, cursor);
        var vec := At(pts, cursor);
        PointAtFits(pts, cursor, off);
        if tag == TAG_ON {
          DrawLine(vec);
          Advance(all, LineCmd(vec), Commands(pts, tags, cursor, limit, vStart), old(ink), old(Here()), before, here,
                  ink, Here(), off, minEy, maxEy);
        } else if tag == TAG_CONIC {
          var vControl := vec;
          var open := true;
          while open
            invariant from <= cursor <= limit && Ready() && VecFits(vControl, off)
            invariant open ==> InProgress(all, ConicCommands(pts, tags, cursor, limit, vStart, vControl),
                                          old(ink), old(Here()), ink, Here(), off, minEy, maxEy)
            invariant !open ==> InProgress(all, Commands(pts, tags, cursor, limit, vStart),
                                           old(ink), old(Here()), ink, Here(), off, minEy, maxEy)
            decreases limit - cursor, open
          {
            ConicCommandsUnfold(pts, tags, cursor, limit, vStart, vControl);
            ghost var before, here := ink, Here();
            if cursor < limit {
              cursor := cursor + 1;
              var vec := At(pts, cursor);
              PointAtFits(pts, cursor, off);
              var ntag := TagAt(pts, tags, cursor);
              if ntag == TAG_ON {
                DrawConic(vControl, vec, false);
                Advance(all, ConicCmd(vControl, vec, false), Commands(pts, tags, cursor, limit, vStart),
                        old(ink), old(Here()), before, here, ink, Here(), off, minEy, maxEy);
                open := false;
              } else if ntag != TAG_CONIC {
                Stopped(all, ExpectedConic, old(ink), old(Here()), ink, Here(), off, minEy, maxEy);
                return Err(ExpectedConic);
              } else {
                var mid := Middle(vControl, vec);
                MiddleFits(vControl, vec, off);
                DrawConic(vControl, mid, true);
                Advance(all, ConicCmd(vControl, mid, true), ConicCommands(pts, tags, cursor, limit, vStart, vec),
                        old(ink), old(Here()), before, here, ink, Here(), off, minEy, maxEy);
                vControl := vec;
              }
            } else {
              DrawConic(vControl, vStart, false);
              LastCommand(all, ConicCmd(vControl, vStart, false), old(ink), old(Here()), before, here,
                          ink, Here(), off, minEy, maxEy);
              return Ok(());
            }
          }
        } else {
          if cursor + 1 > limit || TagAt(pts, tags, cursor + 1) != TAG_CUBIC {
            Stopped(all, BadCubic, old(ink), old(Here()), ink, Here(), off, minEy, maxEy);
            return Err(BadCubic);
          }
          var vec1, vec2 := vec, At(pts, cursor + 1);
          PointAtFits(pts, cursor + 1, off);
          cursor := cursor + 2;
          if cursor <= limit {
            var vec := At(pts, cursor);
            PointAtFits(pts, cursor, off);
            DrawCubic(vec1, vec2, vec);
            Advance(all, CubicCmd(vec1, vec2, vec), Commands(pts, tags, cursor, limit, vStart), old(ink), old(Here()),
                    before, here, ink, Here(), off, minEy, maxEy);
          } else {
            DrawCubic(vec1, vec2, vStart);
            LastCommand(all, CubicCmd(vec1, vec2, vStart), old(ink), old(Here()), before, here, ink, Here(),
                        off, minEy, maxEy);
            return Ok(());
          }
        }
      }
      CommandsUnfold(pts, tags, cursor, limit, vStart);
      ghost var before, here := ink, Here();
      DrawLine(vStart);
      LastCommand(all, LineCmd(vStart), old(ink), old(Here()), before, here, ink, Here(), off, minEy, maxEy);
      return Ok(());
    }

    /** `line_to`, seen as a command. */
    method DrawLine(to: Vec)
      requires Ready() && VecFits(to, Offset())
      modifies this`scanlines, this`currentScanline, this`currentEy, this`currentIdx, this`x, this`y, this`ink
      ensures Ready()
      ensures Drawn(LineCmd(to), old(ink), old(Here()), ink, Here(), Offset(), minEy, maxEy)
    {
      ghost var here := Here();
      PlacedIsPosition(to, Offset());
      LineTo(to.x, to.y);
      SingleLine(here, Here());
    }

    method DrawConic(control: Vec, to: Vec, ghost implied: bool)
      requires Ready() && VecFits(control, Offset()) && VecFits(to, Offset())
      modifies this`scanlines, this`currentScanline, this`currentEy, this`currentIdx, this`x, this`y, this`ink
      ensures Ready()
      ensures Drawn(ConicCmd(control, to, implied), old(ink), old(Here()), ink, Here(), Offset(), minEy, maxEy)
    {
      ghost var here := Here();
      hide DrawnConic, PathSegments, InBand;
      PlacedIsPosition(control, Offset());
      PlacedIsPosition(to, Offset());
      ReadyHere();
      RenderConic(control.x, control.y, to.x, to.y);
    }

    method DrawCubic(c1: Vec, c2: Vec, to: Vec)
      requires Ready() && VecFits(c1, Offset()) && VecFits(c2, Offset()) && VecFits(to, Offset())
      modifies this`scanlines, this`currentScanline, this`currentEy, this`currentIdx, this`x, this`y, this`ink
      ensures Ready()
      ensures Drawn(CubicCmd(c1, c2, to), old(ink), old(Here()), ink, Here(), Offset(), minEy, maxEy)
    {
      PlacedIsPosition(c1, Offset());
      PlacedIsPosition(c2, Offset());
      PlacedIsPosition(to, Offset());
      RenderCubic(c1.x, c1.y, c2.x, c2.y, to.x, to.y);
    }

    /** Decomposes the outline and draws its contours.  It fails with the first parse error, and
        otherwise has drawn the whole glyph, cut to the band. */
    method Decompose(pts: seq<OutlinePoint>, tags: seq<int>, contours: seq<int>, nContours: nat)
      returns (r: Parsed<()>)
      requires Valid() && PointsFit(pts, Offset())
      requires forall i :: 0 <= i < |contours| ==> contours[i] < |pts|
      modifies this`scanlines, this`currentScanline, this`currentEy, this`currentIdx, this`x, this`y, this`ink
      ensures Valid()
      ensures var all := ContoursFrom(pts, tags, Taken(contours, nContours), -1);
              if all.Err? then r == Err(all.error)
              else r == Ok(()) && ContoursFit(all.value, Offset()) &&
                   ink == old(ink) + InBand(GlyphSegments(all.value, Offset(), minEy, maxEy), minEy, maxEy)
    {
      hide InBand, Commands, CommandSegments, VecFits, TagAt, Holds, Names, Middle, ContoursFrom, ContoursFit,
        GlyphSegments;
      ghost var off := Offset();
      var ends := Taken(contours, nContours);
      ghost var all := ContoursFrom(pts, tags, ends, -1);
      DecomposeStart(pts, tags, ends, off, ink, minEy, maxEy);
      var last := -1;
      for n := 0 to |ends|
        invariant -1 <= last && Valid()
        invariant GlyphProgress(all, ContoursFrom(pts, tags, ends[n..], last), old(ink), ink, off, minEy, maxEy)
      {
        ghost var before := ink;
        ContoursUnfold(pts, tags, ends, n, last);
        var first := last + 1;
        last := ends[n];
        if last < first {
          return Err(EndBeforeStart);
        }
        var limit := last;
        PointAtFits(pts, first, off);
        PointAtFits(pts, limit, off);
        var vStart, limitEff := At(pts, first), limit;
        var firstTag := TagAt(pts, tags, first);
        if firstTag == TAG_CUBIC {
          return Err(StartsWithCubic);
        }
        if firstTag == TAG_CONIC {
          if TagAt(pts, tags, limit) == TAG_ON {
            vStart := At(pts, limit);
            limitEff := limit - 1;
          } else {
            MiddleFits(vStart, At(pts, limit), off);
            vStart := Middle(vStart, At(pts, limit));
          }
        }
        StartFits(vStart, off);
        MoveTo(vStart.x, vStart.y);
        var start := if firstTag == TAG_CONIC then first - 1 else first;
        var w := WalkContour(pts, tags, start, limitEff, vStart);
        if w.Err? {
          return Err(w.error);
        }
        assert (vStart, start, limitEff) == StartOf(pts, tags, first, last);
        ContourFinished(pts, tags, first, last, all, ContoursFrom(pts, tags, ends[n + 1..], last), old(ink), before,
                        ink, off, minEy, maxEy);
      }
      DecomposeEnd(pts, tags, all, last, old(ink), ink, off, minEy, maxEy);
      return Ok(());
    }

    // ---------------------------------------------------------------- sweep

    /** The pixel is in the clip box. */
    ghost predicate InBox(px: int, py: int)
      reads this`minEx, this`maxEx, this`minEy, this`maxEy
    {
      Clip().Contains(px, py)
    }

    /** The clip box fits the output: inside the bitmap, or, for spans, inside 16-bit fields. */
    ghost predicate Drawable()
      reads this`minEx, this`maxEx, this`minEy, this`maxEy, this`spans
    {
      if spans.None? then
        0 <= minEx && maxEx <= layout.width && 0 <= minEy && maxEy <= layout.height && layout.FitsIn(target.Length)
      else
        -0x8000 <= minEx && maxEx <= 0x8000 && maxEx - minEx < 0x1_0000
    }

    /** The coverage the output shows at a pixel. */
    ghost function Shown(px: int, py: int): byte
      reads this`spans, target
    {
      if spans.Some? then SpanValue(spans.value, px, py)
      else
        var a := layout.Address(px, py);
        if 0 <= a < target.Length then target[a] else 0
    }

    /** Byte k of the target belongs to a pixel of the box. */
    ghost predicate Addressed(k: int)
      reads this`minEx, this`maxEx, this`minEy, this`maxEy
    {
      layout.Stores(Clip(), k)
    }

    /** Outputs a run of pixels of scanline y. */
    method PutSpan(y: int, x: int, len: int, coverage: byte)
      requires Drawable() && minEy <= y < maxEy && minEx <= x && x + len <= maxEx
      modifies this`spans, target
      ensures spans.None? <==> old(spans).None?
      ensures forall px, py :: InBox(px, py) ==>
        Shown(px, py) == if py == y && x <= px < x + len then coverage else old(Shown(px, py))
      ensures forall k :: 0 <= k < target.Length && !(spans.None? && Addressed(k)) ==> target[k] == old(target[k])
    {
      if spans.Some? {
        if len <= 0 {
          return;
        }
        hide Layout.FitsIn, Layout.Address, Layout.Stores;
        ghost var before := spans.value;
        var span := GraySpan(y, x % 0x1_0000, len % 0x1_0000, coverage);
        spans := Some(spans.value + [span]);
        assert spans.value[..|before|] == before;
        assert span.Left() == x && span.len == len;
      } else {
        FillRun(y, x, len, coverage);
      }
    }

    /** Writes a run of pixels of scanline y into the target. */
    method FillRun(y: int, x: int, len: int, coverage: byte)
      requires Drawable() && spans.None? && minEy <= y < maxEy && minEx <= x && x + len <= maxEx
      modifies target
      ensures forall px, py :: InBox(px, py) ==>
        Shown(px, py) == if py == y && x <= px < x + len then coverage else old(Shown(px, py))
      ensures forall k :: 0 <= k < target.Length && !Addressed(k) ==> target[k] == old(target[k])
    {
      hide OnStride, Layout.FitsIn, Layout.Address, Layout.Stores;
      var dstRow := layout.height - 1 - y;
      var rowBase := dstRow * layout.pitch + layout.offset;
      RunAddresses(layout, target.Length, x, y, len);
      WriteSpan(target, rowBase + x * layout.step, coverage, len, layout.step);
      forall px, py | InBox(px, py)
        ensures Shown(px, py) == if py == y && x <= px < x + len then coverage else old(Shown(px, py))
      {
        AddressInBounds(layout, target.Length, px, py);
        RunHits(layout, target.Length, x, y, len, px, py);
      }
      forall k | 0 <= k < target.Length && !Addressed(k)
        ensures target[k] == old(target[k])
      {
        RunAddressed(y, x, len, k);
      }
    }

    lemma RunAddressed(y: int, x: int, len: int, k: int)
      requires minEy <= y < maxEy && minEx <= x && x + len <= maxEx
      ensures OnStride(k, (layout.height - 1 - y) * layout.pitch + layout.offset + x * layout.step, len, layout.step)
              ==> Addressed(k)
    {
      var off := (layout.height - 1 - y) * layout.pitch + layout.offset + x * layout.step;
      if OnStride(k, off, len, layout.step) {
        var j :| 0 <= j < len && k == StrideAt(off, j, layout.step);
        StrideIsAddress(layout, x, y, j);
        assert InBox(x + j, y);
      }
    }

    /** Sweeps one scanline. */
    method SweepRow(y: int)
      requires Valid() && Drawable() && minEy <= y < maxEy
      requires forall px :: minEx <= px < maxEx ==> Shown(px, y) == 0
      modifies this`spans, target
      ensures Drawable() && (spans.None? <==> old(spans).None?)
      ensures forall px, py :: InBox(px, py) ==>
        Shown(px, py) == if py == y then PixelByte(ink, evenOdd, px, y) else old(Shown(px, py))
      ensures forall k :: 0 <= k < target.Length && !(spans.None? && Addressed(k)) ==> target[k] == old(target[k])
    {
      hide FillRule, Wrap32, RowHolds, SweptCover, PixelByte, Layout.FitsIn, Addressed, Shown;
      ghost var b := Clip();
      var row := scanlines[y - minEy];
      var x := minEx;
      var cover := 0;
      ZeroFill(ink, b, y, evenOdd);
      for i := 0 to |row|
        invariant Drawable() && (spans.None? <==> old(spans).None?)
        invariant x == Max(Passed(row, i, b) + 1, minEx) <= Max(minEx, maxEx)
        invariant cover == Wrap32(2 * ONE_PIXEL * SweptCover(ink, b, Passed(row, i, b), y))
        invariant forall px, py :: InBox(px, py) ==>
          Shown(px, py) == if py != y then old(Shown(px, py)) else if px < x then PixelByte(ink, evenOdd, px, y) else 0
        invariant forall k :: 0 <= k < target.Length && !(spans.None? && Addressed(k)) ==> target[k] == old(target[k])
      {
        var cell := row[i];
        CellIsPassed(row, ink, b, y, i);
        GapPixels(row, i, x, cell.x, cover, y);
        if cover != 0 && cell.x > x {
          PutSpan(y, x, cell.x - x, FillRule(cover, evenOdd));
        }
        CellPixel(row, ink, b, y, i, cover, evenOdd);
        cover := Wrap32(cover + Wrap32(cell.cover * (ONE_PIXEL * 2)));
        var area := Wrap32(cover + -cell.area);
        if area != 0 && cell.x >= minEx {
          PutSpan(y, cell.x, 1, FillRule(area, evenOdd));
        }
        x := cell.x + 1;
      }
      GapPixels(row, |row|, x, maxEx, cover, y);
      if cover != 0 {
        PutSpan(y, x, maxEx - x, FillRule(cover, evenOdd));
      }
    }

    /** The pixels from x up to the next cell all show the running cover. */
    lemma GapPixels(row: seq<Cell>, i: nat, x: int, end: int, cover: int, y: int)
      requires Valid() && minEy <= y < maxEy && row == scanlines[y - minEy] && i <= |row|
      requires x == Max(Passed(row, i, Clip()) + 1, minEx) && end == (if i < |row| then row[i].x else maxEx)
      requires cover == Wrap32(2 * ONE_PIXEL * SweptCover(ink, Clip(), Passed(row, i, Clip()), y))
      ensures forall c :: x <= c < end ==> PixelByte(ink, evenOdd, c, y) == FillRule(cover, evenOdd)
    {
      hide FillRule, Wrap32, SweptCover, PixelByte;
      forall c | x <= c < end ensures PixelByte(ink, evenOdd, c, y) == FillRule(cover, evenOdd) {
        if i < |row| {
          CellIsPassed(row, ink, Clip(), y, i);
        }
        GapPixel(row, ink, Clip(), y, i, c, evenOdd);
      }
    }

    /** Sweeps the band: afterwards a blank output shows, at every pixel of the box, the fill rule of
        the pixel's trapezoid area, and nothing else of the target has changed. */
    method SweepBand()
      requires Valid() && Drawable()
      requires forall px, py :: InBox(px, py) ==> Shown(px, py) == 0
      modifies this`spans, target
      ensures spans.None? <==> old(spans).None?
      ensures forall px, py :: InBox(px, py) ==> Shown(px, py) == PixelByte(ink, evenOdd, px, py)
      ensures forall k :: 0 <= k < target.Length && !(spans.None? && Addressed(k)) ==> target[k] == old(target[k])
    {
      hide RowHolds, Layout.FitsIn, Addressed, Shown, PixelByte;
      for y := minEy to maxEy
        invariant Drawable() && (spans.None? <==> old(spans).None?)
        invariant forall px, py :: InBox(px, py) ==>
          Shown(px, py) == if py < y then PixelByte(ink, evenOdd, px, py) else 0
        invariant forall k :: 0 <= k < target.Length && !(spans.None? && Addressed(k)) ==> target[k] == old(target[k])
      {
        SweepRow(y);
      }
    }

    // ---------------------------------------------------------------- the whole glyph

    /** Sets the clip box and clears the scanlines of its band. */
    method StartBand(b: Box)
      requires b.minX <= b.maxX && b.minY <= b.maxY
      modifies this`minEx, this`maxEx, this`minEy, this`maxEy, this`scanlines, this`currentScanline, this`currentIdx,
               this`ink
      ensures Valid() && ink == [] && Clip() == b
    {
      minEx, maxEx, minEy, maxEy := b.minX, b.maxX, b.minY, b.maxY;
      var bandHeight := maxEy - minEy;
      if |scanlines| < bandHeight {
        scanlines := scanlines + seq(bandHeight - |scanlines|, _ => []);
      }
      scanlines := seq(bandHeight, _ => []) + scanlines[bandHeight..];
      currentScanline, currentIdx := None, 0xFFFF_FFFF_FFFF_FFFF;
      ink := [];
      ClearBand(scanlines, b);
    }

    /** `convert_glyph`.  An outline that does not parse leaves the output alone.  Any other outline
        is drawn so that each pixel of the clip box shows the fill rule of the exact trapezoid sum
        over the whole flattened outline: neither the band, nor the clip box, nor the skipped lines
        and curves, nor the sorted cells leave a trace. */
    method ConvertGlyph(pts: seq<OutlinePoint>, tags: seq<int>, contours: seq<int>, nContours: nat, b: Box)
      returns (r: Parsed<()>)
      requires b.minX <= b.maxX && b.minY <= b.maxY && PointsFit(pts, Offset())
      requires forall i :: 0 <= i < |contours| ==> contours[i] < |pts|
      requires if spans.None? then
                 0 <= b.minX && b.maxX <= layout.width && 0 <= b.minY && b.maxY <= layout.height &&
                 layout.FitsIn(target.Length)
               else -0x8000 <= b.minX && b.maxX <= 0x8000 && b.maxX - b.minX < 0x1_0000
      requires forall px, py :: b.Contains(px, py) ==> Shown(px, py) == 0
      modifies this, target
      ensures spans.None? <==> old(spans).None?
      ensures var all := ContoursFrom(pts, tags, Taken(contours, nContours), -1);
              if all.Err? then r == Err(all.error) && spans == old(spans) && target[..] == old(target[..])
              else
                && r == Ok(()) && ContoursFit(all.value, old(Offset()))
                && (forall px, py :: b.Contains(px, py) ==>
                    Shown(px, py)
                    == PixelByte(GlyphSegments(all.value, old(Offset()), b.minY, b.maxY), evenOdd, px, py))
                && forall k :: 0 <= k < target.Length && !(spans.None? && layout.Stores(b, k)) ==>
                  target[k] == old(target[k])
    {
      hide InBand, GlyphSegments, ContoursFrom, PixelByte, Layout.FitsIn, Layout.Stores, Box.Contains, Shown,
        ContoursFit, Valid, PointsFit;
      StartBand(b);
      r := Decompose(pts, tags, contours, nContours);
      if r.Ok? {
        SweepBand();
        ghost var glyph := GlyphSegments(ContoursFrom(pts, tags, Taken(contours, nContours), -1).value, Offset(),
                                         b.minY, b.maxY);
        forall px, py | b.Contains(px, py)
          ensures Shown(px, py) == PixelByte(glyph, evenOdd, px, py)
        {
          BandShowsAll(ink, glyph, b, evenOdd, px, py);
        }
      }
    }

    lemma ReadyHere()
      requires Ready()
      ensures Valid() && IsPosition(Here())
    {
    }

    /** Moving the point past the band without drawing: the worker is in the dumpster and stays there. */
    method SkipTo(px: int, py: int)
      requires Ready() && IsPosition(Point(px, py))
      requires !(minEy <= Trunc(y) < maxEy) && !(minEy <= Trunc(py) < maxEy)
      modifies this`x, this`y
      ensures Ready() && Here() == Point(px, py)
    {
      x, y := px, py;
    }
  }

  ghost function StrideAt(off: int, j: int, step: nat): int {
    off + j * step
  }

  ghost predicate OnStride(k: int, off: int, count: int, step: nat) {
    exists j :: 0 <= j < count && k == StrideAt(off, j, step)
  }

  /** `write_span`: fills `count` bytes at a stride, as far as the buffer goes. */
  method WriteSpan(buf: array<byte>, off: nat, s: byte, count: int, step: nat)
    requires 0 < step
    modifies buf
    ensures forall k :: 0 <= k < buf.Length ==> buf[k] == if OnStride(k, off, count, step) then s else old(buf[k])
  {
    if count <= 0 {
      return;
    }
    if step == 1 {
      var start := Min(off, buf.Length);
      var end := Min(start + count, buf.Length);
      forall k | start <= k < end {
        buf[k] := s;
      }
      forall k | 0 <= k < buf.Length ensures OnStride(k, off, count, step) <==> start <= k < end {
        UnitStride(k, off, count);
      }
      return;
    }
    var cursor := off;
    for i := 0 to count
      invariant cursor == StrideAt(off, i, step)
      invariant forall k :: 0 <= k < buf.Length ==> buf[k] == if OnStride(k, off, i, step) then s else old(buf[k])
    {
      StrideGrows(off, i, step);
      if cursor < buf.Length {
        buf[cursor] := s;
      }
      cursor := cursor + step;
    }
  }

  lemma UnitStride(k: int, off: int, count: int)
    ensures OnStride(k, off, count, 1) <==> off <= k < off + count
  {
    if off <= k < off + count {
      assert k == StrideAt(off, k - off, 1);
    }
  }

  lemma StrideGrows(off: int, i: nat, step: nat)
    ensures StrideAt(off, i + 1, step) == StrideAt(off, i, step) + step
    ensures forall k :: OnStride(k, off, i + 1, step) <==> OnStride(k, off, i, step) || k == StrideAt(off, i, step)
  {
    forall k ensures OnStride(k, off, i + 1, step) <==> OnStride(k, off, i, step) || k == StrideAt(off, i, step) {
      if OnStride(k, off, i, step) {
        var j :| 0 <= j < i && k == StrideAt(off, j, step);
        assert 0 <= j < i + 1 && k == StrideAt(off, j, step);
      }
      if k == StrideAt(off, i, step) {
        assert 0 <= i < i + 1 && k == StrideAt(off, i, step);
      }
    }
  }

  lemma StrideIsAddress(l: Layout, x: int, y: int, j: int)
    ensures StrideAt((l.height - 1 - y) * l.pitch + l.offset + x * l.step, j, l.step) == l.Address(x + j, y)
  {
    assert (x + j) * l.step == x * l.step + j * l.step;
  }

  lemma RunAddresses(l: Layout, length: nat, x: int, y: int, len: int)
    requires l.FitsIn(length) && 0 <= y < l.height && 0 <= x
    ensures 0 < l.step && 0 <= (l.height - 1 - y) * l.pitch + l.offset + x * l.step
  {
    MulMonotone(0, l.height - 1 - y, l.pitch);
    MulMonotone(0, x, l.step);
  }

  /** A run covers the addresses of exactly its own pixels. */
  lemma RunHits(l: Layout, length: nat, x: int, y: int, len: int, px: int, py: int)
    requires l.FitsIn(length) && 0 <= x && x + len <= l.width && 0 <= y < l.height
    requires 0 <= px < l.width && 0 <= py < l.height
    ensures OnStride(l.Address(px, py), (l.height - 1 - y) * l.pitch + l.offset + x * l.step, len, l.step)
            <==> py == y && x <= px < x + len
  {
    hide Layout.Address, StrideAt;
    var off := (l.height - 1 - y) * l.pitch + l.offset + x * l.step;
    if OnStride(l.Address(px, py), off, len, l.step) {
      var j :| 0 <= j < len && l.Address(px, py) == StrideAt(off, j, l.step);
      StrideIsAddress(l, x, y, j);
      AddressesDiffer(l, length, px, py, x + j, y);
    }
    if py == y && x <= px < x + len {
      StrideIsAddress(l, x, y, px - x);
    }
  }

  lemma ZeroFill(ink: seq<Segment>, b: Box, y: int, evenOdd: bool)
    ensures FillRule(0, evenOdd) == 0
    ensures Wrap32(2 * ONE_PIXEL * SweptCover(ink, b, b.minX - 2, y)) == 0
  {
  }

  lemma ClearBand(scanlines: seq<seq<Cell>>, b: Box)
    requires b.minX <= b.maxX && b.minY <= b.maxY <= b.minY + |scanlines|
    requires forall r :: 0 <= r < b.maxY - b.minY ==> scanlines[r] == []
    ensures Holds(scanlines, [], b)
  {
  }

  lemma BandShowsAll(ink: seq<Segment>, glyph: seq<Segment>, b: Box, evenOdd: bool, x: int, y: int)
    requires ink == [] + InBand(glyph, b.minY, b.maxY) && b.Contains(x, y)
    ensures PixelByte(ink, evenOdd, x, y) == PixelByte(glyph, evenOdd, x, y)
  {
    assert ink == InBand(glyph, b.minY, b.maxY);
    InBandPixels(glyph, b.minY, b.maxY, x, y);
  }

  /** The contour ends the loop looks at. */
  function Taken(contours: seq<int>, n: nat): seq<int> {
    if n < |contours| then contours[..n] else contours
  }

  /** The contours `rest` are what is left of the glyph. */
  ghost predicate GlyphProgress(all: Parsed<seq<Contour>>, rest: Parsed<seq<Contour>>, ink0: seq<Segment>,
                                ink: seq<Segment>, off: Vec, low: int, high: int)
  {
    if all.Err? then rest == all
    else
      && rest.Ok? && ContoursFit(all.value, off) && ContoursFit(rest.value, off)
      && ink + InBand(GlyphSegments(rest.value, off, low, high), low, high)
        == ink0 + InBand(GlyphSegments(all.value, off, low, high), low, high)
  }

  lemma DecomposeStart(pts: seq<OutlinePoint>, tags: seq<int>, ends: seq<int>, off: Vec, ink: seq<Segment>,
                       low: int, high: int)
    requires (forall i :: 0 <= i < |ends| ==> ends[i] < |pts|) && PointsFit(pts, off)
    ensures ends[0..] == ends
    ensures var all := ContoursFrom(pts, tags, ends, -1); GlyphProgress(all, all, ink, ink, off, low, high)
  {
    if ContoursFrom(pts, tags, ends, -1).Ok? {
      ContoursFromFit(pts, tags, ends, -1, off);
    }
  }

  lemma DecomposeEnd(pts: seq<OutlinePoint>, tags: seq<int>, all: Parsed<seq<Contour>>, last: int, ink0: seq<Segment>,
                     ink: seq<Segment>, off: Vec, low: int, high: int)
    requires -1 <= last && GlyphProgress(all, ContoursFrom(pts, tags, [], last), ink0, ink, off, low, high)
    ensures all.Ok? && ContoursFit(all.value, off)
    ensures ink == ink0 + InBand(GlyphSegments(all.value, off, low, high), low, high)
  {
    assert ink + [] == ink;
  }

  lemma StartFits(v: Vec, off: Vec)
    requires VecFits(v, off)
    ensures IsPosition(Placed(v, off))
  {
    PlacedIsPosition(v, off);
  }

  lemma ContoursUnfold(pts: seq<OutlinePoint>, tags: seq<int>, ends: seq<int>, n: nat, last: int)
    requires -1 <= last && n < |ends| && forall i :: 0 <= i < |ends| ==> ends[i] < |pts|
    ensures var here := ContoursFrom(pts, tags, ends[n..], last);
            if ends[n] <= last then here == Err(EndBeforeStart)
            else
              var c := ContourOf(pts, tags, last + 1, ends[n]);
              var rest := ContoursFrom(pts, tags, ends[n + 1..], ends[n]);
              if c.Err? then here == Err(c.error)
              else here == (if rest.Ok? then Ok([c.value] + rest.value) else rest)
  {
    assert ends[n..][1..] == ends[n + 1..] && ends[n..][0] == ends[n];
  }

  /** A finished contour moves from the contours left to the ink. */
  lemma ContourFinished(pts: seq<OutlinePoint>, tags: seq<int>, first: nat, last: int, all: Parsed<seq<Contour>>,
                        rest: Parsed<seq<Contour>>, ink0: seq<Segment>, ink: seq<Segment>, ink': seq<Segment>,
                        off: Vec, low: int, high: int)
    requires first <= last < |pts| && PointsFit(pts, off) && ContourOf(pts, tags, first, last).Ok?
    requires var c := ContourOf(pts, tags, first, last).value;
             && GlyphProgress(all, if rest.Ok? then Ok([c] + rest.value) else rest, ink0, ink, off, low, high)
             && ContourFits(c, off) && ink' == ink + InBand(ContourSegments(c, off, low, high), low, high)
    ensures GlyphProgress(all, rest, ink0, ink', off, low, high)
  {
    hide InBand, ContourSegments, ContourOf;
    var c := ContourOf(pts, tags, first, last).value;
    if all.Ok? {
      var cs := [c] + rest.value;
      assert cs[0] == c && cs[1..] == rest.value;
      forall i | 0 <= i < |rest.value| ensures ContourFits(rest.value[i], off) {
        assert cs[i + 1] == rest.value[i];
      }
      var own, more := ContourSegments(c, off, low, high), GlyphSegments(rest.value, off, low, high);
      InBandConcat(own, more, low, high);
      Moved(ink, InBand(own, low, high), InBand(more, low, high));
    }
  }

  /** What carrying out a command does to the ink and the current point. */
  ghost predicate Drawn(c: Command, ink: seq<Segment>, here: Point, ink': seq<Segment>, here': Point, off: Vec,
                        low: int, high: int)
  {
    && IsPosition(here) && CommandFits(c, off)
    && ink' == ink + InBand(PathSegments(here, CommandPoints(c, here, off, low, high)), low, high)
    && here' == CommandEnd(c, here, off, low, high)
  }

  /** The commands `rest` are what is left of `all`, whose drawing started with ink0 at here0. */
  ghost predicate InProgress(all: Parsed<seq<Command>>, rest: Parsed<seq<Command>>, ink0: seq<Segment>, here0: Point,
                             ink: seq<Segment>, here: Point, off: Vec, low: int, high: int)
  {
    if all.Err? then rest == all
    else
      && rest.Ok? && AllFit(all.value, off) && AllFit(rest.value, off) && IsPosition(here0) && IsPosition(here)
      && ink + InBand(CommandSegments(rest.value, here, off, low, high), low, high)
         == ink0 + InBand(CommandSegments(all.value, here0, off, low, high), low, high)
  }

  /** The walk returned what the parse says, and on success drew all of it. */
  ghost predicate Finished(all: Parsed<seq<Command>>, r: Parsed<()>, ink0: seq<Segment>, here0: Point,
                           ink: seq<Segment>, off: Vec, low: int, high: int)
  {
    if all.Err? then r == Err(all.error)
    else
      && r == Ok(()) && AllFit(all.value, off) && IsPosition(here0)
      && ink == ink0 + InBand(CommandSegments(all.value, here0, off, low, high), low, high)
  }

  lemma WalkStart(pts: seq<OutlinePoint>, tags: seq<int>, cursor: int, limit: int, start: Vec, off: Vec,
                  ink: seq<Segment>, here: Point, low: int, high: int)
    requires -1 <= cursor && limit < |pts| && PointsFit(pts, off) && VecFits(start, off) && IsPosition(here)
    ensures var all := Commands(pts, tags, cursor, limit, start);
            InProgress(all, all, ink, here, ink, here, off, low, high)
  {
    if Commands(pts, tags, cursor, limit, start).Ok? {
      CommandsFit(pts, tags, cursor, limit, start, off);
    }
  }

  lemma PointAtFits(pts: seq<OutlinePoint>, i: nat, off: Vec)
    requires PointsFit(pts, off) && i < |pts|
    ensures VecFits(At(pts, i), off)
  {
    assert PointFits(pts[i], off);
  }

  /** The four cases of the parse at a cursor. */
  lemma CommandsUnfold(pts: seq<OutlinePoint>, tags: seq<int>, cursor: int, limit: int, start: Vec)
    requires -1 <= cursor && limit < |pts|
    ensures limit <= cursor ==> Commands(pts, tags, cursor, limit, start) == Ok([LineCmd(start)])
    ensures cursor < limit ==>
      var tag, v := TagAt(pts, tags, cursor + 1), At(pts, cursor + 1);
      Commands(pts, tags, cursor, limit, start) ==
        if tag == TAG_ON then Prepend(LineCmd(v), Commands(pts, tags, cursor + 1, limit, start))
        else if tag == TAG_CONIC then ConicCommands(pts, tags, cursor + 1, limit, start, v)
        else if limit < cursor + 2 || TagAt(pts, tags, cursor + 2) != TAG_CUBIC then Err(BadCubic)
        else if cursor + 3 <= limit then
          Prepend(CubicCmd(v, At(pts, cursor + 2), At(pts, cursor + 3)), Commands(pts, tags, cursor + 3, limit, start))
        else Ok([CubicCmd(v, At(pts, cursor + 2), start)])
  {
  }

  lemma ConicCommandsUnfold(pts: seq<OutlinePoint>, tags: seq<int>, cursor: int, limit: int, start: Vec, control: Vec)
    requires -1 <= cursor && limit < |pts|
    ensures limit <= cursor ==>
      ConicCommands(pts, tags, cursor, limit, start, control) == Ok([ConicCmd(control, start, false)])
    ensures cursor < limit ==>
      var tag, v := TagAt(pts, tags, cursor + 1), At(pts, cursor + 1);
      ConicCommands(pts, tags, cursor, limit, start, control) ==
        if tag == TAG_ON then Prepend(ConicCmd(control, v, false), Commands(pts, tags, cursor + 1, limit, start))
        else if tag != TAG_CONIC then Err(ExpectedConic)
        else Prepend(ConicCmd(control, Middle(control, v), true),
                     ConicCommands(pts, tags, cursor + 1, limit, start, v))
  {
  }

  /** The segments of a command list are those of its first command and those of the rest. */
  lemma FirstCommand(c: Command, rest: seq<Command>, here: Point, off: Vec, low: int, high: int)
    requires IsPosition(here) && CommandFits(c, off) && AllFit([c] + rest, off) && AllFit(rest, off)
    ensures InBand(CommandSegments([c] + rest, here, off, low, high), low, high)
            == InBand(PathSegments(here, CommandPoints(c, here, off, low, high)), low, high)
               + InBand(CommandSegments(rest, CommandEnd(c, here, off, low, high), off, low, high), low, high)
  {
    hide InBand, PathSegments, CommandPoints;
    var next := CommandEnd(c, here, off, low, high);
    var points, more := CommandPoints(c, here, off, low, high), Flattened(rest, next, off, low, high);
    assert ([c] + rest)[1..] == rest;
    assert Flattened([c] + rest, here, off, low, high) == points + more;
    PathConcat(here, points, more);
    InBandConcat(PathSegments(here, points), PathSegments(next, more), low, high);
  }

  lemma AllFitRest(c: Command, rest: seq<Command>, off: Vec)
    requires AllFit([c] + rest, off)
    ensures CommandFits(c, off) && AllFit(rest, off)
  {
    assert ([c] + rest)[0] == c;
    forall i | 0 <= i < |rest| ensures CommandFits(rest[i], off) {
      assert ([c] + rest)[i + 1] == rest[i];
    }
  }

  /** One command was drawn; the rest remains. */
  lemma Advance(all: Parsed<seq<Command>>, c: Command, rest: Parsed<seq<Command>>, ink0: seq<Segment>, here0: Point,
                ink: seq<Segment>, here: Point, ink': seq<Segment>, here': Point, off: Vec, low: int, high: int)
    requires InProgress(all, Prepend(c, rest), ink0, here0, ink, here, off, low, high)
    requires Drawn(c, ink, here, ink', here', off, low, high)
    ensures InProgress(all, rest, ink0, here0, ink', here', off, low, high)
  {
    hide InBand, PathSegments, CommandPoints, CommandSegments, AllFit;
    if all.Ok? {
      AllFitRest(c, rest.value, off);
      FirstCommand(c, rest.value, here, off, low, high);
      Moved(ink, InBand(PathSegments(here, CommandPoints(c, here, off, low, high)), low, high),
            InBand(CommandSegments(rest.value, here', off, low, high), low, high));
    }
  }

  /** The last command was drawn. */
  lemma LastCommand(all: Parsed<seq<Command>>, c: Command, ink0: seq<Segment>, here0: Point,
                    ink: seq<Segment>, here: Point, ink': seq<Segment>, here': Point, off: Vec, low: int, high: int)
    requires InProgress(all, Ok([c]), ink0, here0, ink, here, off, low, high)
    requires Drawn(c, ink, here, ink', here', off, low, high)
    ensures Finished(all, Ok(()), ink0, here0, ink', off, low, high)
  {
    hide PathSegments, CommandPoints, LineSegments;
    assert [c] + [] == [c];
    Advance(all, c, Ok([]), ink0, here0, ink, here, ink', here', off, low, high);
    NoCommands(here', off, low, high);
    assert ink' + [] == ink';
  }

  /** The parse failed where the walk stopped. */
  lemma Stopped(all: Parsed<seq<Command>>, e: OutlineError, ink0: seq<Segment>, here0: Point, ink: seq<Segment>,
                here: Point, off: Vec, low: int, high: int)
    requires InProgress(all, Err(e), ink0, here0, ink, here, off, low, high)
    ensures Finished(all, Err(e), ink0, here0, ink, off, low, high)
  {
  }

  lemma NoCommands(here: Point, off: Vec, low: int, high: int)
    requires IsPosition(here)
    ensures AllFit([], off) && InBand(CommandSegments([], here, off, low, high), low, high) == []
  {
  }

  /** What drawing a conic did to the ink and the current point. */
  ghost predicate ConicDrawn(ink: seq<Segment>, ink': seq<Segment>, p0: Point, p1: Point, p2: Point, here: Point,
                             low: int, high: int)
  {
    && IsPosition(p0) && (forall q :: q in DrawnConic(p0, p1, p2, low, high) ==> IsPosition(q))
    && ink' == ink + InBand(PathSegments(p0, DrawnConic(p0, p1, p2, low, high)), low, high)
    && here == PathEnd(p0, DrawnConic(p0, p1, p2, low, high))
  }

  ghost predicate CubicDrawn(ink: seq<Segment>, ink': seq<Segment>, arc: Arc, low: int, high: int) {
    && IsPosition(arc.from) && (forall q :: q in CubicPoints(arc) ==> IsPosition(q))
    && ink' == ink + InBand(PathSegments(arc.from, CubicPoints(arc)), low, high)
  }

  lemma OffBandThree(a: int, b: int, c: int, low: int, high: int)
    ensures OffBand([a, b, c], low, high)
            <==> (Trunc(a) >= high && Trunc(b) >= high && Trunc(c) >= high)
                 || (Trunc(a) < low && Trunc(b) < low && Trunc(c) < low)
  {
    assert a == [a, b, c][0] && b == [a, b, c][1] && c == [a, b, c][2];
  }

  /** A skipped conic draws nothing in the band. */
  lemma SkippedConic(ink: seq<Segment>, p0: Point, p1: Point, p2: Point, low: int, high: int)
    requires IsPosition(p0) && IsPosition(p2) && OffBand([p0.y, p1.y, p2.y], low, high)
    ensures ConicDrawn(ink, ink, p0, p1, p2, p2, low, high)
  {
    hide PathSegments, InBand, ConicPoints, OffBand;
    OffBandEnds(p0, p1, p2, low, high);
    OffBandPath(p0, [p2], low, high);
    assert ink == ink + [];
  }

  /** A conic that needs no steps is a line. */
  lemma ShortConic(ink: seq<Segment>, ink': seq<Segment>, p0: Point, p1: Point, p2: Point, low: int, high: int)
    requires IsPosition(p0) && IsPosition(p2) && ConicDeviation(p0, p1, p2) <= ONE_PIXEL / 4
    requires ink' == ink + InBand(LineSegments(p0, p2), low, high)
    ensures ConicDrawn(ink, ink', p0, p1, p2, p2, low, high)
  {
    hide OffBand, LineSegments, PathSegments, InBand;
    SingleLine(p0, p2);
  }

  lemma SingleLine(p: Point, q: Point)
    requires IsPosition(p) && IsPosition(q)
    ensures PathSegments(p, [q]) == LineSegments(p, q)
  {
    assert [q][1..] == [];
    assert LineSegments(p, q) + [] == LineSegments(p, q);
  }

  lemma ConicSequence(p0: Point, p1: Point, p2: Point, k: nat)
    requires ConicDeviation(p0, p1, p2) > ONE_PIXEL / 4 && k == Halvings(ConicDeviation(p0, p1, p2))
    requires IsPosition(p2)
    ensures var points := ConicPoints(p0, p1, p2);
            && |points| == Pow2(k)
            && (forall i :: 0 <= i < |points| ==> points[i].x == ConicValue(p0.x, p1.x, p2.x, Pow2(k), i + 1))
            && (forall i :: 0 <= i < |points| ==> points[i].y == ConicValue(p0.y, p1.y, p2.y, Pow2(k), i + 1))
            && (forall q :: q in points ==> IsPosition(q))
  {
    ConicPositions(p0, p1, p2);
  }

  lemma AtMost15Halvings(p0: Point, p1: Point, p2: Point)
    requires IsPosition(p0) && IsPosition(p1) && IsPosition(p2)
    ensures Halvings(ConicDeviation(p0, p1, p2)) <= 15
  {
    var d := ConicDeviation(p0, p1, p2);
    assert Pow2(10) == 1024;
    Pow2Sum(10, 10);
    Pow2Sum(20, 10);
    HalvingsBound(d, 15);
  }

  lemma StepCount(shift: nat)
    requires shift <= 16
    ensures 0x1_0000 / Pow2(shift) == Pow2(16 - shift)
  {
    Pow2Sum(16 - shift, shift);
    assert Pow2(8) == 256;
    Pow2Sum(8, 8);
    DivExact(Pow2(16 - shift), Pow2(shift));
  }

  lemma NothingDrawn(p: Point, points: seq<Point>, low: int, high: int)
    requires IsPosition(p)
    ensures points[..0] == [] && InBand(PathSegments(p, []), low, high) == [] && PathEnd(p, []) == p
  {
  }

  /** Drawing to the next point of a path extends what is drawn by that line. */
  lemma DrawnSoFar(p: Point, points: seq<Point>, i: nat, low: int, high: int)
    requires IsPosition(p) && (forall q :: q in points ==> IsPosition(q)) && i < |points|
    ensures IsPosition(PathEnd(p, points[..i])) && IsPosition(points[i])
    ensures PathEnd(p, points[..i + 1]) == points[i]
    ensures InBand(PathSegments(p, points[..i + 1]), low, high)
            == InBand(PathSegments(p, points[..i]), low, high)
               + InBand(LineSegments(PathEnd(p, points[..i]), points[i]), low, high)
  {
    hide IsPosition, LineSegments, InBand;
    var done, next := points[..i], [points[i]];
    assert points[..i + 1] == done + next;
    if i > 0 {
      assert done[i - 1] in points;
    }
    assert forall q :: q in done ==> q in points;
    PathConcat(p, done, next);
    SingleLine(PathEnd(p, done), points[i]);
    InBandConcat(PathSegments(p, done), LineSegments(PathEnd(p, done), points[i]), low, high);
  }

  lemma Appended(ink: seq<Segment>, a: seq<Segment>, b: seq<Segment>)
    ensures (ink + a) + b == ink + (a + b)
  {
  }

  lemma StackOfOne(arc: Arc)
    requires arc.InRange()
    ensures Chain([arc], arc.from, arc.to) && StackPoints([arc]) == CubicPoints(arc)
    ensures IsPosition(arc.from) && forall q :: q in CubicPoints(arc) ==> IsPosition(q)
  {
    assert [arc][..0] == [];
    CubicPositions(arc);
    assert CubicPoints(arc) + [] == CubicPoints(arc);
  }

  lemma EmptyStack(here: Point, end: Point, low: int, high: int)
    requires Chain([], here, end) && IsPosition(here)
    ensures here == end && StackPoints([]) == [] && InBand(PathSegments(here, []), low, high) == []
  {
  }

  lemma NotFlat(a: Arc)
    ensures a.Flat() <==>
      && Abs(2 * a.to.x - 3 * a.c2.x + a.from.x) <= ONE_PIXEL / 2
      && Abs(2 * a.to.y - 3 * a.c2.y + a.from.y) <= ONE_PIXEL / 2
      && Abs(a.to.x - 3 * a.c1.x + 2 * a.from.x) <= ONE_PIXEL / 2
      && Abs(a.to.y - 3 * a.c1.y + 2 * a.from.y) <= ONE_PIXEL / 2
  {
  }

  lemma ArcSkipped(arc: Arc, rest: seq<Point>, low: int, high: int)
    requires arc.InRange() && OffBand(ArcHeights(arc), low, high) && forall q :: q in rest ==> IsPosition(q)
    ensures IsPosition(arc.from) && IsPosition(arc.to) && forall q :: q in CubicPoints(arc) + rest ==> IsPosition(q)
    ensures InBand(PathSegments(arc.from, CubicPoints(arc) + rest), low, high)
            == InBand(PathSegments(arc.to, rest), low, high)
  {
    hide InBand, PathSegments, CubicPoints, OffBand;
    OffBandCubic(arc, low, high);
    PathConcat(arc.from, CubicPoints(arc), rest);
    InBandConcat(PathSegments(arc.from, CubicPoints(arc)), PathSegments(arc.to, rest), low, high);
  }

  lemma ArcDrawn(arc: Arc, rest: seq<Point>, low: int, high: int)
    requires arc.InRange() && arc.Flat() && forall q :: q in rest ==> IsPosition(q)
    ensures IsPosition(arc.from) && IsPosition(arc.to) && forall q :: q in CubicPoints(arc) + rest ==> IsPosition(q)
    ensures InBand(PathSegments(arc.from, CubicPoints(arc) + rest), low, high)
            == InBand(LineSegments(arc.from, arc.to), low, high) + InBand(PathSegments(arc.to, rest), low, high)
  {
    hide InBand, LineSegments;
    assert CubicPoints(arc) == [arc.to];
    PathConcat(arc.from, [arc.to], rest);
    SingleLine(arc.from, arc.to);
    InBandConcat(LineSegments(arc.from, arc.to), PathSegments(arc.to, rest), low, high);
  }

  /** The append path is the general insertion. */
  lemma AppendIsInsert(row: seq<Cell>, ink: seq<Segment>, b: Box, y: int, x: int)
    requires RowHolds(row, ink, b, y) && row != [] && row[|row| - 1].x < x
    ensures LowerBound(row, x) == |row| && WithCell(row, x) == row + [Cell(x, 0, 0)]
  {
    var k := LowerBound(row, x);
    assert forall i :: 0 <= i < |row| ==> row[i].x <= row[|row| - 1].x;
    assert row[..k] == row && row[k..] == [];
  }
}
