/** Rectangles as a yardstick: what rendering one gives every pixel follows from plain overlaps. */
module Rectangles {
  import opened Ints
  import opened Segments
  import opened LineWalk
  import opened Contours
  import opened Sweep
  import opened GrayWorker
  import opened Glyph

  // ---------------------------------------------------------------- upright and level lines

  /** How much of pixel column x lies right of abscissa h, in subpixels. */
  ghost function RightOf(h: int, x: int): int {
    Clamp(ONE_PIXEL * (x + 1) - h, 0, ONE_PIXEL)
  }

  lemma {:induction false} UprightSegments(segs: seq<Segment>, h: int, x: int, y: int)
    requires forall s :: s in segs ==> s.fx1 == s.fx2 && 0 <= s.fx1 <= ONE_PIXEL && ONE_PIXEL * s.ex + s.fx1 == h
    ensures PixelArea(segs, x, y) == 2 * (RowCover(segs, y) * RightOf(h, x))
  {
    hide PixelShare, RightOf;
    if segs != [] {
      var s := segs[0];
      assert s in segs;
      UprightSegments(segs[1..], h, x, y);
      OneUpright(s, h, x, y);
      Distribute(RightOf(h, x), if s.ey == y then s.Cover() else 0, RowCover(segs[1..], y));
    }
  }

  lemma OneUpright(s: Segment, h: int, x: int, y: int)
    requires s.fx1 == s.fx2 && 0 <= s.fx1 <= ONE_PIXEL && ONE_PIXEL * s.ex + s.fx1 == h
    ensures PixelShare(s, x, y) == 2 * ((if s.ey == y then s.Cover() else 0) * RightOf(h, x))
  {
    if s.ex == x && s.ey == y {
      UprightShare(x, y, s.fx1, s.fy1, s.fy2);
      assert 2 * (s.fy2 - s.fy1) * (ONE_PIXEL - s.fx1) == 2 * (s.Cover() * (ONE_PIXEL - s.fx1));
    }
  }

  lemma {:induction false} ColumnIsUpright(ex: int, fx: int, ey: int, fy: int, to: Point)
    requires 0 <= fx < ONE_PIXEL && to.x == ONE_PIXEL * ex + fx
    ensures forall s :: s in ColumnWalk(ex, fx, ey, fy, to) ==> s.fx1 == s.fx2 == fx && s.ex == ex
    decreases Abs(Trunc(to.y) - ey)
  {
    if ey < Trunc(to.y) {
      ColumnIsUpright(ex, fx, ey + 1, 0, to);
    } else if ey > Trunc(to.y) {
      ColumnIsUpright(ex, fx, ey - 1, ONE_PIXEL, to);
    }
  }

  /** An upright line gives a pixel twice the height it climbs there times the width to its right. */
  lemma UprightLine(p: Point, q: Point, x: int, y: int)
    requires IsPosition(p) && IsPosition(q) && p.x == q.x
    ensures PixelArea(LineSegments(p, q), x, y) == 2 * ((Filled(q.y, y) - Filled(p.y, y)) * RightOf(p.x, x))
  {
    LineCover(p, q, y);
    var segs := LineSegments(p, q);
    forall s | s in segs ensures s.fx1 == s.fx2 && 0 <= s.fx1 <= ONE_PIXEL && ONE_PIXEL * s.ex + s.fx1 == p.x {
      if !SameCell(p, q) && p.y != q.y {
        ColumnIsUpright(Trunc(p.x), Fract(p.x), Trunc(p.y), Fract(p.y), q);
      }
    }
    hide LineSegments, RowCover, Filled;
    UprightSegments(segs, p.x, x, y);
  }

  /** A level line gives nothing. */
  lemma LevelLine(p: Point, q: Point, x: int, y: int)
    requires IsPosition(p) && IsPosition(q) && p.y == q.y
    ensures PixelArea(LineSegments(p, q), x, y) == 0
  {
    var segs := LineSegments(p, q);
    if SameCell(p, q) {
      assert segs[1..] == [] && PixelArea(segs, x, y) == PixelShare(segs[0], x, y) + PixelArea(segs[1..], x, y);
    }
  }

  // ---------------------------------------------------------------- the path around a rectangle

  /** Four points in turn around an upright rectangle: level, upright, level, upright, or the other way. */
  predicate GoesAround(x0: int, y0: int, x1: int, y1: int, x2: int, y2: int, x3: int, y3: int) {
    || (y0 == y1 && x1 == x2 && y2 == y3 && x3 == x0)
    || (x0 == x1 && y1 == y2 && x2 == x3 && y3 == y0)
  }

  lemma FourLines(p: Point, a: Point, b: Point, c: Point, x: int, y: int)
    requires IsPosition(p) && IsPosition(a) && IsPosition(b) && IsPosition(c)
    ensures PixelArea(PathSegments(p, [a, b, c, p]), x, y)
         == PixelArea(LineSegments(p, a), x, y) + PixelArea(LineSegments(a, b), x, y)
          + PixelArea(LineSegments(b, c), x, y) + PixelArea(LineSegments(c, p), x, y)
  {
    hide LineSegments, PixelArea;
    FirstLine(p, [a, b, c, p], x, y);
    FirstLine(a, [b, c, p], x, y);
    FirstLine(b, [c, p], x, y);
    FirstLine(c, [p], x, y);
    assert [a, b, c, p][1..] == [b, c, p] && [b, c, p][1..] == [c, p] && [c, p][1..] == [p] && [p][1..] == [];
    NoArea(p, x, y);
  }

  lemma FirstLine(p: Point, points: seq<Point>, x: int, y: int)
    requires points != [] && IsPosition(p) && forall q :: q in points ==> IsPosition(q)
    ensures PixelArea(PathSegments(p, points), x, y)
         == PixelArea(LineSegments(p, points[0]), x, y) + PixelArea(PathSegments(points[0], points[1..]), x, y)
  {
    PixelAreaConcat(LineSegments(p, points[0]), PathSegments(points[0], points[1..]), x, y);
  }

  lemma NoArea(p: Point, x: int, y: int)
    requires IsPosition(p)
    ensures PixelArea(PathSegments(p, []), x, y) == 0
  {
  }

  lemma LevelFirst(p: Point, a: Point, b: Point, c: Point, x: int, y: int)
    requires IsPosition(p) && IsPosition(a) && IsPosition(b) && IsPosition(c)
    requires p.y == a.y && a.x == b.x && b.y == c.y && c.x == p.x
    ensures PixelArea(PathSegments(p, [a, b, c, p]), x, y)
         == 2 * ((Filled(b.y, y) - Filled(p.y, y)) * (RightOf(b.x, x) - RightOf(p.x, x)))
  {
    hide LineSegments, PixelArea, PathSegments, Filled, RightOf;
    FourLines(p, a, b, c, x, y);
    LevelLine(p, a, x, y);
    UprightLine(a, b, x, y);
    LevelLine(b, c, x, y);
    UprightLine(c, p, x, y);
    UpAndDown(Filled(p.y, y), Filled(b.y, y), RightOf(b.x, x), RightOf(p.x, x));
  }

  lemma UprightFirst(p: Point, a: Point, b: Point, c: Point, x: int, y: int)
    requires IsPosition(p) && IsPosition(a) && IsPosition(b) && IsPosition(c)
    requires p.x == a.x && a.y == b.y && b.x == c.x && c.y == p.y
    ensures PixelArea(PathSegments(p, [a, b, c, p]), x, y)
         == 2 * ((Filled(b.y, y) - Filled(p.y, y)) * (RightOf(p.x, x) - RightOf(b.x, x)))
  {
    hide LineSegments, PixelArea, PathSegments, Filled, RightOf;
    FourLines(p, a, b, c, x, y);
    UprightLine(p, a, x, y);
    LevelLine(a, b, x, y);
    UprightLine(b, c, x, y);
    LevelLine(c, p, x, y);
    UpAndDown(Filled(p.y, y), Filled(b.y, y), RightOf(p.x, x), RightOf(b.x, x));
  }

  /** Up on one side and down on the other. */
  lemma UpAndDown(low: int, high: int, up: int, down: int)
    ensures (high - low) * up + (low - high) * down == (high - low) * (up - down)
  {
  }

  // ---------------------------------------------------------------- 26.6 coordinates

  /** The length that the interval between a and b has in common with pixel number k, in 1/64. */
  function Overlap(a: int, b: int, k: int): (n: nat)
    ensures n <= 64
  {
    Max(0, Min(Max(a, b), 64 * k + 64) - Max(Min(a, b), 64 * k))
  }

  lemma OverlapOfSides(a: int, b: int, k: int)
    ensures RightOf(4 * a, k) - RightOf(4 * b, k) == if a <= b then 4 * Overlap(a, b, k) else -4 * Overlap(a, b, k)
    ensures Filled(4 * b, k) - Filled(4 * a, k) == if a <= b then 4 * Overlap(a, b, k) else -4 * Overlap(a, b, k)
  {
  }

  /** The cross product of the first two edges: negative for a clockwise turn. */
  function TurnOf(pts: seq<OutlinePoint>): int
    requires 3 <= |pts|
  {
    (pts[1].x - pts[0].x) * (pts[2].y - pts[1].y) - (pts[1].y - pts[0].y) * (pts[2].x - pts[1].x)
  }

  /** Four on-curve points around a rectangle, as one contour. */
  predicate IsRectangle(pts: seq<OutlinePoint>, tags: seq<int>, contours: seq<int>, nContours: nat) {
    && |pts| == 4 && (forall i :: 0 <= i < 4 ==> if i < |tags| then tags[i] % 4 == 1 else pts[i].onCurve)
    && contours != [] && contours[0] == 3 && nContours != 0 && (nContours == 1 || |contours| == 1)
    && GoesAround(pts[0].x, pts[0].y, pts[1].x, pts[1].y, pts[2].x, pts[2].y, pts[3].x, pts[3].y)
  }

  /** What a clockwise rectangle shows where it overlaps a pixel by area/4096 of it; a
      counterclockwise one shows the next lower value at sixteenths. */
  function Coverage(area: nat, clockwise: bool): (c: int)
    ensures area <= 4096 ==> 0 <= c < 256
  {
    if clockwise then Min(255, area / 16) else if area == 0 then 0 else (area - 1) / 16
  }

  lemma FillOfOverlap(area: nat, evenOdd: bool)
    requires area <= 4096
    ensures FillRule(32 * area, evenOdd) == Coverage(area, true)
    ensures FillRule(-32 * area, evenOdd) == Coverage(area, false)
  {
    assert 32 * area / 512 == area / 16;
    assert -32 * area / 512 == -((area + 15) / 16);
  }

  lemma OnCurve(pts: seq<OutlinePoint>, tags: seq<int>, contours: seq<int>, nContours: nat, i: nat)
    requires IsRectangle(pts, tags, contours, nContours) && i < 4
    ensures TagAt(pts, tags, i) == TAG_ON
  {
  }

  /** The rectangle is decomposed into its four sides. */
  lemma RectangleCommands(pts: seq<OutlinePoint>, tags: seq<int>, contours: seq<int>, nContours: nat)
    requires IsRectangle(pts, tags, contours, nContours)
    ensures forall i :: 0 <= i < |Taken(contours, nContours)| ==> Taken(contours, nContours)[i] < |pts|
    ensures var p, a, b, c := At(pts, 0), At(pts, 1), At(pts, 2), At(pts, 3);
            ContoursFrom(pts, tags, Taken(contours, nContours), -1)
            == Ok([Contour(p, [LineCmd(a), LineCmd(b), LineCmd(c), LineCmd(p)])])
  {
    OnCurve(pts, tags, contours, nContours, 0);
    OnCurve(pts, tags, contours, nContours, 1);
    OnCurve(pts, tags, contours, nContours, 2);
    OnCurve(pts, tags, contours, nContours, 3);
    assert Taken(contours, nContours) == [3] && [3][1..] == [] && |pts| == 4;
    var p, a, b, c := At(pts, 0), At(pts, 1), At(pts, 2), At(pts, 3);
    hide TagAt, At, IsRectangle;
    assert Commands(pts, tags, 3, 3, p) == Ok([LineCmd(p)]);
    assert [LineCmd(c)] + [LineCmd(p)] == [LineCmd(c), LineCmd(p)];
    assert Commands(pts, tags, 2, 3, p) == Ok([LineCmd(c), LineCmd(p)]);
    assert [LineCmd(b)] + [LineCmd(c), LineCmd(p)] == [LineCmd(b), LineCmd(c), LineCmd(p)];
    assert Commands(pts, tags, 1, 3, p) == Ok([LineCmd(b), LineCmd(c), LineCmd(p)]);
    assert [LineCmd(a)] + [LineCmd(b), LineCmd(c), LineCmd(p)] == [LineCmd(a), LineCmd(b), LineCmd(c), LineCmd(p)];
    assert Commands(pts, tags, 0, 3, p) == Ok([LineCmd(a), LineCmd(b), LineCmd(c), LineCmd(p)]);
    var contour := Contour(p, [LineCmd(a), LineCmd(b), LineCmd(c), LineCmd(p)]);
    assert ContourOf(pts, tags, 0, 3) == Ok(contour);
    assert ContoursFrom(pts, tags, [], 3) == Ok([]) && [contour] + [] == [contour];
  }

  lemma SidesDrawn(p: Vec, a: Vec, b: Vec, c: Vec, off: Vec, low: int, high: int)
    requires VecFits(p, off) && VecFits(a, off) && VecFits(b, off) && VecFits(c, off)
    ensures var cs := [Contour(p, [LineCmd(a), LineCmd(b), LineCmd(c), LineCmd(p)])];
            && ContoursFit(cs, off) && IsPosition(Placed(p, off)) && IsPosition(Placed(a, off))
            && IsPosition(Placed(b, off)) && IsPosition(Placed(c, off))
            && GlyphSegments(cs, off, low, high)
               == PathSegments(Placed(p, off), [Placed(a, off), Placed(b, off), Placed(c, off), Placed(p, off)])
  {
    PlacedIsPosition(p, off);
    PlacedIsPosition(a, off);
    PlacedIsPosition(b, off);
    PlacedIsPosition(c, off);
    var one := Contour(p, [LineCmd(a), LineCmd(b), LineCmd(c), LineCmd(p)]);
    hide PathSegments, Placed, VecFits;
    assert [one][1..] == [];
    var cs := one.commands;
    assert cs[1..] == [LineCmd(b), LineCmd(c), LineCmd(p)] && cs[1..][1..] == [LineCmd(c), LineCmd(p)];
    assert cs[1..][1..][1..] == [LineCmd(p)] && [LineCmd(p)][1..] == [];
    assert Flattened([LineCmd(p)], Placed(c, off), off, low, high) == [Placed(p, off)];
    assert Flattened(cs[1..][1..], Placed(b, off), off, low, high) == [Placed(c, off), Placed(p, off)];
    assert Flattened(cs[1..], Placed(a, off), off, low, high) == [Placed(b, off), Placed(c, off), Placed(p, off)];
    assert Flattened(cs, Placed(p, off), off, low, high)
        == [Placed(a, off), Placed(b, off), Placed(c, off), Placed(p, off)];
  }

  predicate StartsLevel(p: Point, a: Point, b: Point, c: Point) {
    p.y == a.y && a.x == b.x && b.y == c.y && c.x == p.x
  }

  /** The path around a rectangle gives a pixel 32 times the overlap in 1/4096 of it. */
  lemma AroundArea(p: Point, a: Point, b: Point, c: Point, x0: int, y0: int, x2: int, y2: int, x: int, y: int)
    requires IsPosition(p) && IsPosition(a) && IsPosition(b) && IsPosition(c)
    requires GoesAround(p.x, p.y, a.x, a.y, b.x, b.y, c.x, c.y)
    requires p == Point(4 * x0, 4 * y0) && b == Point(4 * x2, 4 * y2)
    ensures var area := Overlap(x0, x2, x) * Overlap(y0, y2, y);
            && 0 <= area <= 4096
            && PixelArea(PathSegments(p, [a, b, c, p]), x, y)
               == if StartsLevel(p, a, b, c) == ((x2 - x0) * (y2 - y0) < 0) then 32 * area else -32 * area
  {
    hide PixelArea, PathSegments, Filled, RightOf, Overlap, IsPosition;
    OverlapOfSides(x0, x2, x);
    OverlapOfSides(y0, y2, y);
    OverlapOfPoint(x0, x2, x);
    OverlapOfPoint(y0, y2, y);
    var f, r := Filled(b.y, y) - Filled(p.y, y), RightOf(p.x, x) - RightOf(b.x, x);
    SignedOverlap(x2 - x0, y2 - y0, Overlap(x0, x2, x), Overlap(y0, y2, y), r, f);
    if StartsLevel(p, a, b, c) {
      LevelFirst(p, a, b, c, x, y);
      Negated(f, r);
    } else {
      UprightFirst(p, a, b, c, x, y);
    }
  }

  /** Twice the signed area that a rectangle has in a pixel, in subpixels, positive for a clockwise turn. */
  lemma RectangleArea(pts: seq<OutlinePoint>, dx: int, dy: int, x: int, y: int)
    requires |pts| == 4 && PointsFit(pts, Vec(dx, dy))
    requires GoesAround(pts[0].x, pts[0].y, pts[1].x, pts[1].y, pts[2].x, pts[2].y, pts[3].x, pts[3].y)
    ensures var off := Vec(dx, dy);
            var p, a, b, c := Placed(At(pts, 0), off), Placed(At(pts, 1), off), Placed(At(pts, 2), off),
              Placed(At(pts, 3), off);
            var area := Overlap(pts[0].x + dx, pts[2].x + dx, x) * Overlap(pts[0].y + dy, pts[2].y + dy, y);
            && IsPosition(p) && IsPosition(a) && IsPosition(b) && IsPosition(c) && 0 <= area <= 4096
            && PixelArea(PathSegments(p, [a, b, c, p]), x, y) == if TurnOf(pts) < 0 then 32 * area else -32 * area
  {
    hide PixelArea, PathSegments, Overlap, TurnOf, IsPosition;
    var off := Vec(dx, dy);
    var p, a, b, c := Placed(At(pts, 0), off), Placed(At(pts, 1), off), Placed(At(pts, 2), off),
      Placed(At(pts, 3), off);
    assert PointFits(pts[0], off) && PointFits(pts[1], off) && PointFits(pts[2], off) && PointFits(pts[3], off);
    PlacedIsPosition(At(pts, 0), off);
    PlacedIsPosition(At(pts, 1), off);
    PlacedIsPosition(At(pts, 2), off);
    PlacedIsPosition(At(pts, 3), off);
    TurnAround(pts);
    AroundArea(p, a, b, c, pts[0].x + dx, pts[0].y + dy, pts[2].x + dx, pts[2].y + dy, x, y);
    NoOverlap(pts[2].x - pts[0].x, pts[2].y - pts[0].y, pts, dx, dy, x, y);
  }

  /** Without extent there is no overlap, whatever the turn. */
  lemma NoOverlap(w: int, h: int, pts: seq<OutlinePoint>, dx: int, dy: int, x: int, y: int)
    requires |pts| == 4 && w == pts[2].x - pts[0].x && h == pts[2].y - pts[0].y
    ensures w * h == 0 ==> Overlap(pts[0].x + dx, pts[2].x + dx, x) * Overlap(pts[0].y + dy, pts[2].y + dy, y) == 0
    ensures (w * h < 0) == !(0 <= w * h)
  {
    OverlapOfPoint(pts[0].x + dx, pts[2].x + dx, x);
    OverlapOfPoint(pts[0].y + dy, pts[2].y + dy, y);
    hide Overlap;
    if w != 0 && h != 0 {
      ProductSign(w, h);
    }
  }

  lemma TurnAround(pts: seq<OutlinePoint>)
    requires |pts| == 4
    requires GoesAround(pts[0].x, pts[0].y, pts[1].x, pts[1].y, pts[2].x, pts[2].y, pts[3].x, pts[3].y)
    ensures var t := (pts[2].x - pts[0].x) * (pts[2].y - pts[0].y);
            if pts[0].y == pts[1].y && pts[1].x == pts[2].x && pts[2].y == pts[3].y && pts[3].x == pts[0].x
            then TurnOf(pts) == t else TurnOf(pts) == -t
  {
    Negated(pts[2].y - pts[0].y, pts[2].x - pts[0].x);
  }

  lemma OverlapOfPoint(a: int, b: int, k: int)
    ensures a == b ==> Overlap(a, b, k) == 0
  {
  }

  lemma Negated(f: int, g: int)
    ensures f * -g == -(f * g) && g * f == f * g
  {
  }

  lemma SignedOverlap(w: int, h: int, ox: nat, oy: nat, r: int, f: int)
    requires ox <= 64 && oy <= 64 && (w == 0 ==> ox == 0) && (h == 0 ==> oy == 0)
    requires r == (if 0 <= w then 4 * ox else -4 * ox) && f == if 0 <= h then 4 * oy else -4 * oy
    ensures 0 <= ox * oy <= 4096
    ensures 2 * (f * r) == if w * h < 0 then -32 * (ox * oy) else 32 * (ox * oy)
  {
    MulMonotone(ox, 64, oy);
    MulMonotone(0, ox, oy);
    if w == 0 || h == 0 {
      assert w * h == 0;
    } else if 0 < w {
      ProductSign(w, h);
    } else {
      ProductSign(w, h);
    }
    FourTimes(oy, ox);
    hide *;
    if 0 <= h {
      FourTimes(oy, if 0 <= w then ox else 0 - ox);
    } else {
      FourTimes(0 - oy, if 0 <= w then ox else 0 - ox);
    }
    SignsOf(oy, ox);
  }

  lemma FourTimes(u: int, v: int)
    ensures (4 * u) * (4 * v) == 16 * (u * v)
  {
  }

  lemma SignsOf(u: int, v: int)
    ensures (0 - u) * v == -(u * v) && u * (0 - v) == -(u * v) && (0 - u) * (0 - v) == u * v && u * v == v * u
  {
  }

  /** Every byte of a rendered rectangle is what its overlap with the pixel says, whatever the fill rule. */
  lemma RectangleImage(pts: seq<OutlinePoint>, tags: seq<int>, contours: seq<int>, nContours: nat, evenOdd: bool,
                       dx: int, dy: int, width: nat, height: nat, x: int, y: int)
    requires IsRectangle(pts, tags, contours, nContours) && PointsFit(pts, Vec(dx, dy))
    requires forall i :: 0 <= i < |contours| ==> contours[i] < |pts|
    requires 0 <= x < width && 0 <= y < height
    ensures var image := Image(pts, tags, contours, nContours, evenOdd, dx, dy, width, height);
            var area := Overlap(pts[0].x + dx, pts[2].x + dx, x) * Overlap(pts[0].y + dy, pts[2].y + dy, y);
            && image.Ok? && |image.value| == width * height && 0 <= (height - 1 - y) * width + x < |image.value|
            && 0 <= area <= 4096
            && image.value[(height - 1 - y) * width + x] == Coverage(area, TurnOf(pts) < 0)
  {
    hide Image, PixelArea, PathSegments, GlyphSegments, Coverage, Overlap, TurnOf, Placed, ContoursFit, FillRule,
      ContoursFrom, Taken, IsPosition;
    var off := Vec(dx, dy);
    assert PointFits(pts[0], off) && PointFits(pts[1], off) && PointFits(pts[2], off) && PointFits(pts[3], off);
    RectangleCommands(pts, tags, contours, nContours);
    SidesDrawn(At(pts, 0), At(pts, 1), At(pts, 2), At(pts, 3), off, 0, height);
    RectangleArea(pts, dx, dy, x, y);
    ImageAt(pts, tags, contours, nContours, evenOdd, dx, dy, width, height, x, y);
    FillOfOverlap(Overlap(pts[0].x + dx, pts[2].x + dx, x) * Overlap(pts[0].y + dy, pts[2].y + dy, y), evenOdd);
  }
}
