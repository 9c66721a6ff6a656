/** Upright rectangles: what orientation they have and what emboldening makes of them, in coordinates. */
module RectangleOutlines {
  import opened Ints
  import opened Fixed
  import opened Outlines
  import opened Embolden
  import Newton

  // ---------------------------------------------------------------- orientation

  /** Positive where the way from p over q to r turns left. */
  function Turning(p: Pt, q: Pt, r: Pt): int {
    (q.x - p.x) * (r.y - q.y) - (q.y - p.y) * (r.x - q.x)
  }

  /** Four points around the box: they alternate between its sides, from any corner, in any direction. */
  predicate Around(s: seq<Pt>, b: BBox) {
    && |s| == 4 && b.xMin < b.xMax && b.yMin < b.yMax
    && (forall o :: 0 <= o < 4 ==> (s[o].x == b.xMin || s[o].x == b.xMax) && (s[o].y == b.yMin || s[o].y == b.yMax))
    && s[0].x != s[2].x && s[0].y != s[2].y && s[1].x != s[3].x && s[1].y != s[3].y
    && s[1] != s[0] && s[1] != s[2]
  }

  predicate WithinLimit(b: BBox) {
    -LIMIT <= b.xMin && -LIMIT <= b.yMin && b.xMax <= LIMIT && b.yMax <= LIMIT
  }

  /** The x coordinates of the two upright sides are the same after the shift. */
  ghost predicate SidesCoincide(b: BBox)
    requires b.xMin < b.xMax
  {
    var k := Max(Newton.Msb(Max(Abs(b.xMin), Abs(b.xMax))) - 14, 0);
    b.xMin / Pow2(k) == b.xMax / Pow2(k)
  }

  /** Level and upright sides in turn. */
  ghost predicate Alternates(p: Pt, q: Pt, r: Pt, t: Pt) {
    || (p.y == q.y && q.x == r.x && r.y == t.y && t.x == p.x)
    || (p.x == q.x && q.y == r.y && r.x == t.x && t.y == p.y)
  }

  lemma AroundAlternates(s: seq<Pt>, b: BBox)
    requires Around(s, b)
    ensures Alternates(s[0], s[1], s[2], s[3])
  {
  }

  lemma FourEdges(s: seq<Pt>)
    requires |s| == 4
    ensures ContourArea(s) == Edge(s[3], s[0]) + Edge(s[0], s[1]) + Edge(s[1], s[2]) + Edge(s[2], s[3])
  {
    hide Edge;
    assert s[1..][1..] == s[2..] && s[2..][1..] == s[3..];
    assert PathArea(s[3..]) == 0;
    assert PathArea(s[2..]) == Edge(s[2], s[3]);
    assert PathArea(s[1..]) == Edge(s[1], s[2]) + PathArea(s[2..]);
  }

  /** The area of a rectangle, twice, with the sign of its turn. */
  lemma AreaOfFour(s: seq<Pt>)
    requires |s| == 4 && Alternates(s[0], s[1], s[2], s[3])
    ensures ContourArea(s) == 2 * Turning(s[0], s[1], s[2])
  {
    FourEdges(s);
    hide ContourArea;
    if s[0].y == s[1].y && s[1].x == s[2].x && s[2].y == s[3].y && s[3].x == s[0].x {
      TwoSides(s[2].y - s[1].y, s[1].x, s[0].x);
    } else {
      TwoSides(s[1].y - s[0].y, s[0].x, s[2].x);
      NegatedProduct(s[1].y - s[0].y, s[0].x - s[2].x);
    }
  }

  lemma TwoSides(h: int, a: int, b: int)
    ensures h * (a + a) + -h * (b + b) == 2 * (h * (a - b)) == 2 * ((a - b) * h)
  {
  }

  lemma NegatedProduct(a: int, b: int)
    ensures a * -b == -(a * b) == -a * b
  {
  }

  /** The area of a triangle, twice. */
  lemma AreaOfThree(s: seq<Pt>)
    requires |s| == 3
    ensures ContourArea(s) == Turning(s[0], s[1], s[2])
  {
    hide Edge;
    assert s[1..][1..] == s[2..];
    assert PathArea(s[2..]) == 0;
    assert PathArea(s[1..]) == Edge(s[1], s[2]);
    assert ContourArea(s) == Edge(s[2], s[0]) + Edge(s[0], s[1]) + Edge(s[1], s[2]);
    hide ContourArea;
    EdgeIsCross(s[2], s[0]);
    EdgeIsCross(s[0], s[1]);
    EdgeIsCross(s[1], s[2]);
    TurnIsCross(s[0].x, s[0].y, s[1].x, s[1].y, s[2].x, s[2].y);
  }

  lemma TurnIsCross(a: int, b: int, c: int, d: int, e: int, f: int)
    ensures (c - a) * (f - d) - (d - b) * (e - c) == (e * b - a * f) + (a * d - c * b) + (c * f - e * d)
  {
  }

  lemma AroundBox(s: seq<Pt>, b: BBox)
    requires Around(s, b)
    ensures Cbox(s) == b
  {
    var c := Cbox(s);
    hide Cbox;
    assert s[0] in s && s[1] in s && s[2] in s && s[3] in s;
    assert IsCbox(s, b);
    CboxIsUnique(s, s, b, c);
  }

  lemma OneContour(s: seq<Pt>, contours: seq<int>)
    requires |s| != 0 && contours != [] && contours[0] == |s| - 1
    ensures ValidEnds(contours[..1], 0, |s|) && TotalArea(s, contours[..1], 0) == ContourArea(s)
  {
    assert contours[..1] == [|s| - 1] && [|s| - 1][1..] == [] && s[0..|s|] == s;
  }

  lemma Quotients(p: nat, a: int, b: int)
    requires 0 < p && a <= b
    ensures a / p <= b / p
  {
    if b / p < a / p {
      MulMonotone(b / p + 1, a / p, p);
    }
  }

  /** Numbers a power of two apart stay apart. */
  lemma QuotientsApart(p: nat, a: int, b: int)
    requires 0 < p && a + p <= b
    ensures a / p < b / p
  {
    if b / p <= a / p {
      MulMonotone(b / p, a / p, p);
    }
  }

  /** The shift of the heights is smaller than the height. */
  lemma HeightsApart(b: BBox)
    requires !Unusable(b) && b.yMin < b.yMax
    ensures b.yMin / Pow2(YShift(b)) < b.yMax / Pow2(YShift(b))
  {
    var v := b.yMax - b.yMin;
    var m := Newton.Msb(v);
    assert Pow2(m) <= v;
    if 14 <= m {
      Pow2Grows(m - 14, m);
    }
    assert Pow2(0) == 1;
    hide Pow2, Newton.Msb;
    QuotientsApart(Pow2(YShift(b)), b.yMin, b.yMax);
  }

  lemma SignOfProduct(a: int, b: int)
    ensures 0 < a * b <==> (0 < a && 0 < b) || (a < 0 && b < 0)
    ensures a * b == 0 <==> a == 0 || b == 0
  {
    if a == 0 || b == 0 {
      assert a * b == 0;
    } else {
      MulStrict(0, Abs(a), Abs(b));
      AbsProduct(a, b);
      if 0 < a {
        if 0 < b { MulStrict(0, a, b); } else { MulStrict(0, a, -b); NegatedProduct(a, b); }
      } else {
        if 0 < b { MulStrict(0, -a, b); NegatedProduct(a, b); } else { MulStrict(0, -a, -b); BothNegated(a, b); }
      }
    }
  }

  lemma BothNegated(a: int, b: int)
    ensures -a * -b == a * b
  {
  }

  /** Shifting the coordinates of a right angle down keeps its turn, or flattens it. */
  lemma ShiftedTurn(p: Pt, q: Pt, r: Pt, b: BBox, kx: nat, ky: nat)
    requires b.xMin < b.xMax && b.yMin / Pow2(ky) < b.yMax / Pow2(ky)
    requires (p.x == b.xMin && r.x == b.xMax) || (p.x == b.xMax && r.x == b.xMin)
    requires (p.y == b.yMin && r.y == b.yMax) || (p.y == b.yMax && r.y == b.yMin)
    requires (q.x == p.x && q.y == r.y) || (q.x == r.x && q.y == p.y)
    ensures var t := Turning(Shifted(p, kx, ky), Shifted(q, kx, ky), Shifted(r, kx, ky));
            && (t == 0 <==> b.xMin / Pow2(kx) == b.xMax / Pow2(kx))
            && (t != 0 ==> (0 < t <==> 0 < Turning(p, q, r)))
  {
    var m, n := Pow2(kx), Pow2(ky);
    hide Pow2;
    Quotients(m, b.xMin, b.xMax);
    if b.yMax <= b.yMin {
      Quotients(n, b.yMax, b.yMin);
    }
    RightAngle(p, q, r);
    RightAngle(Shifted(p, kx, ky), Shifted(q, kx, ky), Shifted(r, kx, ky));
  }

  /** The sign of the turn at a right angle. */
  lemma RightAngle(p: Pt, q: Pt, r: Pt)
    requires (q.x == p.x && q.y == r.y) || (q.x == r.x && q.y == p.y)
    ensures Turning(p, q, r) == 0 <==> p.x == r.x || p.y == r.y
    ensures p.x != r.x && p.y != r.y ==>
      (0 < Turning(p, q, r) <==> if q.y == p.y then (p.x < r.x) == (p.y < r.y) else (p.x < r.x) != (p.y < r.y))
  {
    if q.x == r.x && q.y == p.y {
      SignOfProduct(r.x - p.x, r.y - p.y);
    } else {
      SignOfProduct(r.y - p.y, r.x - p.x);
    }
  }

  /** A counterclockwise rectangle has PostScript orientation and a clockwise one TrueType orientation,
      unless the shift of the coordinates makes its upright sides coincide: then none is decided. */
  lemma RectangleOrientation(s: seq<Pt>, b: BBox, contours: seq<int>)
    requires Around(s, b) && WithinLimit(b) && contours != [] && contours[0] == 3
    ensures OrientationOf(s, contours, 1) == if SidesCoincide(b) then Undecided
                                             else if 0 < Turning(s[0], s[1], s[2]) then PostScript
                                             else TrueType
  {
    hide Cbox, Turning, TotalArea, AllShifted, Pow2, Newton.Msb, ContourArea;
    AroundBox(s, b);
    var kx, ky := XShift(b), YShift(b);
    var t := AllShifted(s, kx, ky);
    HeightsApart(b);
    AroundAlternates(s, b);
    assert Alternates(t[0], t[1], t[2], t[3]);
    AreaOfFour(t);
    OneContour(s, contours);
    OneContour(t, contours);
    ShiftedTurn(s[0], s[1], s[2], b, kx, ky);
    SameShift(b);
  }

  lemma SameShift(b: BBox)
    requires !Unusable(b) && b.xMin < b.xMax
    ensures SidesCoincide(b) <==> b.xMin / Pow2(XShift(b)) == b.xMax / Pow2(XShift(b))
  {
    assert Max(Abs(b.xMin), Abs(b.xMax)) == Max(Abs(b.xMax), Abs(b.xMin));
  }

  /** The sides do not coincide for small coordinates, or for a width of 16 pixels or more. */
  lemma SidesApart(b: BBox)
    requires WithinLimit(b) && b.xMin < b.xMax
    requires 0x400 <= b.xMax - b.xMin || (Abs(b.xMin) < 0x8000 && Abs(b.xMax) < 0x8000)
    ensures !SidesCoincide(b)
  {
    var v := Max(Abs(b.xMin), Abs(b.xMax));
    var k := Max(Newton.Msb(v) - 14, 0);
    Newton.Pow2Values();
    assert Pow2(25) == 0x200_0000 && Pow2(10) == 0x400 by { Pow2Sum(14, 11); assert Pow2(10) == 0x400; }
    Newton.MsbBelow(v, 25);
    Pow2Grows(k, 10);
    if v < 0x8000 {
      Newton.MsbBelow(v, 15);
      assert Pow2(0) == 1;
    }
    hide Pow2, Newton.Msb;
    QuotientsApart(Pow2(k), b.xMin, b.xMax);
  }

  ghost predicate SmallCoordinates(s: seq<Pt>) {
    forall p :: p in s ==> Abs(p.x) < 0x8000 && Abs(p.y) < 0x4000
  }

  /** Small coordinates are not shifted. */
  lemma NotShifted(s: seq<Pt>)
    requires s != [] && SmallCoordinates(s) && !Unusable(Cbox(s))
    ensures var b := Cbox(s); XShift(b) == 0 && YShift(b) == 0 && AllShifted(s, XShift(b), YShift(b)) == s
  {
    var b := Cbox(s);
    hide Cbox, Pow2, Newton.Msb;
    SmallShift(Max(Abs(b.xMax), Abs(b.xMin)));
    SmallShift(b.yMax - b.yMin);
    PowZero();
    assert forall o :: 0 <= o < |s| ==> Shifted(s[o], 0, 0) == s[o];
  }

  /** A contour of small coordinates has the orientation of its signed area. */
  lemma SmallOrientation(s: seq<Pt>, contours: seq<int>)
    requires s != [] && contours != [] && contours[0] == |s| - 1 && SmallCoordinates(s) && !Unusable(Cbox(s))
    ensures var a := ContourArea(s);
            OrientationOf(s, contours, 1) == if 0 < a then PostScript else if a < 0 then TrueType else Undecided
  {
    hide Cbox, TotalArea, AllShifted, XShift, YShift, ContourArea, ValidEnds, Unusable, SmallCoordinates;
    OneContour(s, contours);
    NotShifted(s);
  }

  /** A triangle with small coordinates has PostScript orientation where it runs counterclockwise,
      TrueType orientation where it runs clockwise, and none where its points are in line. */
  lemma TriangleOrientation(s: seq<Pt>, contours: seq<int>)
    requires |s| == 3 && contours != [] && contours[0] == 2 && SmallCoordinates(s)
    ensures var t := Turning(s[0], s[1], s[2]);
            OrientationOf(s, contours, 1) == if 0 < t then PostScript else if t < 0 then TrueType else Undecided
  {
    hide Cbox, TotalArea, AllShifted, XShift, YShift, ContourArea, ValidEnds, Turning;
    AreaOfThree(s);
    if Unusable(Cbox(s)) {
      assert s[0] in s && s[1] in s && s[2] in s;
      FlatTriangle(s, Cbox(s));
    } else {
      SmallOrientation(s, contours);
    }
  }

  lemma PowZero()
    ensures Pow2(0) == 1
  {
  }

  lemma SmallShift(v: nat)
    requires 0 < v < 0x8000
    ensures Newton.Msb(v) <= 14
  {
    Newton.Pow2Values();
    Newton.MsbBelow(v, 15);
  }

  lemma FlatTriangle(s: seq<Pt>, b: BBox)
    requires |s| == 3 && IsCbox(s, b) && (b.xMin == b.xMax || b.yMin == b.yMax)
    ensures Turning(s[0], s[1], s[2]) == 0
  {
    assert s[0] in s && s[1] in s && s[2] in s;
    if b.xMin == b.xMax {
      assert s[0].x == s[1].x == s[2].x;
    } else {
      assert s[0].y == s[1].y == s[2].y;
    }
  }

  // ---------------------------------------------------------------- an emboldened rectangle

  /** h is half of s, rounded toward zero. */
  predicate IsHalf(s: int, h: int) {
    if 0 <= s then 2 * h <= s <= 2 * h + 1 else 2 * h - 1 <= s <= 2 * h
  }

  lemma HalfStrength(s: int, h: int)
    requires IsHalf(s, h)
    ensures TruncDiv(s, 2) == h
  {
  }

  /** Without a remainder nothing is rounded. */
  lemma WholeProduct(a: int, b: int, c: int)
    requires a * b == c * Newton.ONE && Abs(c) <= 0x4000_0000
    ensures MulFix(a, b) == c
  {
    Wrap64Small(c * Newton.ONE);
    Wrap64Small(c * Newton.ONE + 0x8000);
    Wrap64Small(c * Newton.ONE + 0x7FFF);
    hide Wrap64;
    assert (c * Newton.ONE + 0x8000) / 0x1_0000 == c == (c * Newton.ONE + 0x7FFF) / 0x1_0000;
  }

  lemma TimesOne(a: int)
    requires Abs(a) <= 0x4000_0000
    ensures MulFix(a, Newton.ONE) == a && MulFix(a, -Newton.ONE) == -a
    ensures MulFix(Newton.ONE, a) == a && MulFix(-Newton.ONE, a) == -a && MulFix(0, a) == 0 && MulFix(a, 0) == 0
  {
    hide MulFix;
    WholeProduct(a, Newton.ONE, a);
    WholeProduct(a, -Newton.ONE, -a);
    WholeProduct(Newton.ONE, a, a);
    WholeProduct(-Newton.ONE, a, -a);
    WholeProduct(0, a, 0);
    WholeProduct(a, 0, 0);
  }

  lemma WholeQuotient(m: nat)
    requires m <= 0x4000_0000
    ensures StrippedQuotient(Newton.ONE * m, Newton.ONE) == m
    ensures Signed(false, m) == m && Signed(true, m) == 0 - m && Signed(true, 0) == 0
  {
    Wrap64Small(m);
    Wrap64Small(0 - m);
    Wrap64Small(0);
    hide Wrap64;
    assert Newton.ONE * m % TWO_64 == Newton.ONE * m;
    assert (Newton.ONE * m + Newton.ONE / 2) / Newton.ONE == m;
  }

  lemma DivOne(a: int)
    requires Abs(a) <= 0x4000_0000
    ensures MulDiv(Newton.ONE, a, Newton.ONE) == a && MulDiv(-Newton.ONE, a, Newton.ONE) == -a
    ensures MulDiv(Newton.ONE, a, -Newton.ONE) == -a && MulDiv(-Newton.ONE, a, -Newton.ONE) == a
  {
    WholeQuotient(Abs(a));
    hide StrippedQuotient, Signed;
    Unwrapped(a);
    Unwrapped(-a);
    hide Wrap32;
  }

  /** A shift by half a strength to the positive or to the negative side; a negative strength shrinks by
      no more than the shorter edge. */
  function Side(positive: bool, s: int, l: nat): int {
    if positive then Max(s, 0 - l) else 0 - Max(s, 0 - l)
  }

  function Sign(positive: bool): int {
    if positive then Newton.ONE else -Newton.ONE
  }

  lemma LevelThenUpright(right: bool, up: bool, l: nat, m: nat, xs: int, ys: int)
    requires Abs(xs) <= 0x4000_0000 && Abs(ys) <= 0x4000_0000 && l <= 0x4000_0000 && m <= 0x4000_0000
    ensures CornerShift(Newton.Norm(Sign(right), 0, l), Newton.Norm(0, Sign(up), m), right != up, xs, ys)
         == Pt(Side(right, xs, Min(l, m)), Side(!up, ys, Min(l, m)))
  {
    hide MulFix, MulDiv;
    StrengthFacts(xs, Min(l, m));
    StrengthFacts(ys, Min(l, m));
    SmallProducts();
  }

  lemma StrengthFacts(s: int, l: nat)
    requires Abs(s) <= 0x4000_0000 && l <= 0x4000_0000
    ensures MulFix(s, -Newton.ONE) == -s && MulFix(l, Newton.ONE) == l
    ensures MulDiv(Newton.ONE, s, Newton.ONE) == s && MulDiv(-Newton.ONE, s, Newton.ONE) == -s
    ensures MulDiv(Newton.ONE, l, -Newton.ONE) == 0 - l && MulDiv(-Newton.ONE, l, -Newton.ONE) == l
  {
    hide MulFix, MulDiv;
    TimesOne(s);
    TimesOne(l);
    DivOne(s);
    DivOne(l);
  }

  lemma SmallProducts()
    ensures MulFix(Newton.ONE, Newton.ONE) == Newton.ONE == MulFix(-Newton.ONE, -Newton.ONE)
    ensures MulFix(-Newton.ONE, Newton.ONE) == -Newton.ONE == MulFix(Newton.ONE, -Newton.ONE)
    ensures MulFix(0, Newton.ONE) == MulFix(0, -Newton.ONE) == MulFix(Newton.ONE, 0) == MulFix(-Newton.ONE, 0) == 0
    ensures MulFix(0, 0) == 0
  {
    hide MulFix;
    TimesOne(Newton.ONE);
    TimesOne(-Newton.ONE);
    TimesOne(0);
  }

  lemma UprightThenLevel(up: bool, right: bool, l: nat, m: nat, xs: int, ys: int)
    requires Abs(xs) <= 0x4000_0000 && Abs(ys) <= 0x4000_0000 && l <= 0x4000_0000 && m <= 0x4000_0000
    ensures CornerShift(Newton.Norm(0, Sign(up), l), Newton.Norm(Sign(right), 0, m), right == up, xs, ys)
         == Pt(Side(!right, xs, Min(l, m)), Side(up, ys, Min(l, m)))
  {
    hide MulFix, MulDiv;
    StrengthFacts(xs, Min(l, m));
    StrengthFacts(ys, Min(l, m));
    SmallProducts();
  }

  /** Unit vector and length of a side. */
  lemma SideEdge(p: Pt, q: Pt)
    requires Abs(p.x) <= LIMIT && Abs(p.y) <= LIMIT && Abs(q.x) <= LIMIT && Abs(q.y) <= LIMIT && p != q
    ensures p.y == q.y ==> UnitEdge(p, q) == Newton.Norm(Sign(p.x < q.x), 0, Abs(q.x - p.x))
    ensures p.x == q.x ==> UnitEdge(p, q) == Newton.Norm(0, Sign(p.y < q.y), Abs(q.y - p.y))
  {
    Unwrapped(q.x - p.x);
    Unwrapped(q.y - p.y);
    hide Newton.NormOfPositive, Wrap32;
  }

  /** Half the strengths, each limited by the shorter side where it shrinks. */
  function Grown(b: BBox, h: int): int {
    Max(h, -Min(b.xMax - b.xMin, b.yMax - b.yMin))
  }

  predicate AtCorner(p: Pt, b: BBox) {
    (p.x == b.xMin || p.x == b.xMax) && (p.y == b.yMin || p.y == b.yMax)
  }

  /** Each corner of a rectangle moves away from the middle. */
  lemma RectangleCorner(p: Pt, q: Pt, r: Pt, b: BBox, xs: int, ys: int)
    requires b.xMin < b.xMax && b.yMin < b.yMax && WithinLimit(b) && AtCorner(p, b) && AtCorner(q, b) && AtCorner(r, b)
    requires p != q && p.x != r.x && p.y != r.y && q != r && Abs(xs) <= 0x4000_0000 && Abs(ys) <= 0x4000_0000
    ensures CornerShift(UnitEdge(p, q), UnitEdge(q, r), Turning(p, q, r) < 0, xs, ys)
         == Pt(if q.x == b.xMin then -Grown(b, xs) else Grown(b, xs), if q.y == b.yMin then -Grown(b, ys)
               else Grown(b, ys))
  {
    hide CornerShift, UnitEdge;
    SideEdge(p, q);
    SideEdge(q, r);
    RightAngle(p, q, r);
    hide Turning;
    if p.y == q.y {
      LevelThenUpright(p.x < q.x, q.y < r.y, Abs(q.x - p.x), Abs(r.y - q.y), xs, ys);
    } else {
      UprightThenLevel(p.y < q.y, q.x < r.x, Abs(q.y - p.y), Abs(r.x - q.x), xs, ys);
    }
  }

  /** The neighbours of a point of four. */
  lemma FourNeighbours(s: seq<Pt>, o: nat)
    requires |s| == 4 && o < 4 && s[(o + 1) % 4] != s[o] && s[(o + 3) % 4] != s[o]
    ensures Before(s, o, 1) == s[(o + 3) % 4] && After(s, o, 1) == s[(o + 1) % 4]
  {
    RingAt(s, o + 1, 0);
    RingAt(s, o + 3, 0);
    hide Ring;
    AfterRun(s, o, 1, 1);
    BeforeRun(s, o, 1, 1);
  }

  lemma AllTurnsAgree(s: seq<Pt>, b: BBox, o: nat)
    requires Around(s, b) && o < 4
    ensures var p, q, r := s[(o + 3) % 4], s[o], s[(o + 1) % 4];
            && p != q && q != r && p.x != r.x && p.y != r.y && Turning(p, q, r) != 0
            && (Turning(p, q, r) < 0 <==> Turning(s[0], s[1], s[2]) < 0)
  {
    var p, q, r := s[(o + 3) % 4], s[o], s[(o + 1) % 4];
    AroundAlternates(s, b);
    RightAngle(p, q, r);
    RightAngle(s[0], s[1], s[2]);
    hide Turning;
  }

  /** Where a corner of the rectangle goes. */
  function GrownCorner(p: Pt, b: BBox, xs: int, ys: int): Pt {
    Pt(Wrap32(if p.x == b.xMin then b.xMin + xs - Grown(b, xs) else b.xMax + xs + Grown(b, xs)),
       Wrap32(if p.y == b.yMin then b.yMin + ys - Grown(b, ys) else b.yMax + ys + Grown(b, ys)))
  }

  lemma MovedOnce(p: Pt, shift: Pt, xs: int, ys: int)
    ensures Moved(p, shift, xs, ys) == Pt(Wrap32(p.x + xs + shift.x), Wrap32(p.y + ys + shift.y))
  {
    WrapAdd(p.x + xs, shift.x);
    WrapAdd(p.y + ys, shift.y);
    hide Wrap32;
  }

  lemma RectanglePoint(s: seq<Pt>, b: BBox, o: nat, xs: int, ys: int)
    requires Around(s, b) && WithinLimit(b) && o < 4 && Abs(xs) <= 0x4000_0000 && Abs(ys) <= 0x4000_0000
    ensures EmboldenedPoint(s, o, Turning(s[0], s[1], s[2]) < 0, xs, ys) == GrownCorner(s[o], b, xs, ys)
  {
    hide CornerShift, UnitEdge, Before, After, Wrap32, Grown, Moved, Turning;
    AllTurnsAgree(s, b, o);
    FourNeighbours(s, o);
    RectangleCorner(s[(o + 3) % 4], s[o], s[(o + 1) % 4], b, xs, ys);
    var gx, gy := Grown(b, xs), Grown(b, ys);
    MovedOnce(s[o], Pt(if s[o].x == b.xMin then -gx else gx, if s[o].y == b.yMin then -gy else gy), xs, ys);
  }

  /** What emboldening makes of an upright rectangle, for all strengths: nothing where its orientation
      is not decided; otherwise every side moves by the half strength, and outwards by it once more. */
  lemma RectangleEmboldened(s: seq<Pt>, b: BBox, contours: seq<int>, xStrength: int, yStrength: int, xs: int, ys: int)
    requires Around(s, b) && WithinLimit(b) && contours != [] && contours[0] == 3
    requires Is32(xStrength) && Is32(yStrength) && IsHalf(xStrength, xs) && IsHalf(yStrength, ys)
    ensures var e := EmboldenedOutline(s, contours, 1, xStrength, yStrength);
            |e| == 4 && forall o :: 0 <= o < 4 ==> e[o] == if SidesCoincide(b) then s[o]
              else GrownCorner(s[o], b, xs, ys)
  {
    hide OrientationOf, EmboldenedOutline, EmboldenedPoint, Turning, SidesCoincide, GrownCorner, TruncDiv;
    HalfStrength(xStrength, xs);
    HalfStrength(yStrength, ys);
    RectangleOrientation(s, b, contours);
    OutlineIs(s, contours, 1, xStrength, yStrength);
    if xs == 0 && ys == 0 {
      forall o | 0 <= o < 4 ensures GrownCorner(s[o], b, 0, 0) == s[o] {
        NotGrown(s[o], b);
      }
    } else if !SidesCoincide(b) {
      assert contours[..1] == [3] && [3][1..] == [] && s[0..4] == s && s[4..] == [];
      AllTurnsAgree(s, b, 1);
      forall o | 0 <= o < 4 ensures EmboldenedPoint(s, o, Turning(s[0], s[1], s[2]) < 0, xs, ys)
        == GrownCorner(s[o], b, xs, ys) {
        RectanglePoint(s, b, o, xs, ys);
      }
      assert s[1] != s[0];
    }
  }

  lemma NotGrown(p: Pt, b: BBox)
    requires AtCorner(p, b) && b.xMin < b.xMax && b.yMin < b.yMax && WithinLimit(b)
    ensures GrownCorner(p, b, 0, 0) == p
  {
  }

  lemma GrownExactly(p: Pt, b: BBox, xStrength: int, yStrength: int)
    requires AtCorner(p, b) && b.xMin < b.xMax && b.yMin < b.yMax && WithinLimit(b)
    requires xStrength % 2 == 0 && yStrength % 2 == 0 && Is32(b.xMax + xStrength) && Is32(b.yMax + yStrength)
    requires -2 * Min(b.xMax - b.xMin, b.yMax - b.yMin) <= Min(xStrength, yStrength)
    ensures GrownCorner(p, b, xStrength / 2, yStrength / 2)
         == Pt(if p.x == b.xMin then b.xMin else b.xMax + xStrength, if p.y == b.yMin then b.yMin
               else b.yMax + yStrength)
  {
    Unwrapped(b.xMin);
    Unwrapped(b.yMin);
    Unwrapped(b.xMax + xStrength);
    Unwrapped(b.yMax + yStrength);
    hide Wrap32;
  }

  /** Emboldening an upright rectangle by even strengths keeps its lower left corner and moves the
      opposite one by exactly the strengths: for strengths that are not negative, or that shrink it by
      no more than twice its shorter side. */
  lemma RectangleGrows(s: seq<Pt>, b: BBox, contours: seq<int>, xStrength: int, yStrength: int)
    requires Around(s, b) && WithinLimit(b) && contours != [] && contours[0] == 3 && !SidesCoincide(b)
    requires Is32(xStrength) && Is32(yStrength) && xStrength % 2 == 0 && yStrength % 2 == 0
    requires Is32(b.xMax + xStrength) && Is32(b.yMax + yStrength)
    requires -2 * Min(b.xMax - b.xMin, b.yMax - b.yMin) <= Min(xStrength, yStrength)
    ensures var e := EmboldenedOutline(s, contours, 1, xStrength, yStrength);
            |e| == 4 && forall o :: 0 <= o < 4 ==>
              e[o] == Pt(if s[o].x == b.xMin then b.xMin else b.xMax + xStrength,
                         if s[o].y == b.yMin then b.yMin else b.yMax + yStrength)
  {
    hide EmboldenedOutline, SidesCoincide, GrownCorner;
    RectangleEmboldened(s, b, contours, xStrength, yStrength, xStrength / 2, yStrength / 2);
    forall o | 0 <= o < 4
      ensures GrownCorner(s[o], b, xStrength / 2, yStrength / 2)
           == Pt(if s[o].x == b.xMin then b.xMin else b.xMax + xStrength,
                 if s[o].y == b.yMin then b.yMin else b.yMax + yStrength)
    {
      GrownExactly(s[o], b, xStrength, yStrength);
    }
  }

  // ---------------------------------------------------------------- where any corner ends up

  lemma {:induction false} OthersBefore(w: seq<Pt>, o: nat, d: nat, D: nat)
    requires o < |w| && d <= D < |w| && Behind(w, o, D) != w[o]
    ensures Before(w, o, d) != w[o]
    decreases D - d
  {
    hide Behind;
    if d < D {
      OthersBefore(w, o, d + 1, D);
    }
  }

  lemma {:induction false} OthersAfter(w: seq<Pt>, o: nat, d: nat, D: nat)
    requires o < |w| && d <= D < |w| && Ahead(w, o, D) != w[o]
    ensures After(w, o, d) != w[o]
    decreases D - d
  {
    hide Ahead;
    if d < D {
      OthersAfter(w, o, d + 1, D);
    }
  }

  /** Unless a contour is all at one place, every point has neighbours at other places. */
  lemma NeighboursDiffer(w: seq<Pt>, o: nat)
    requires o < |w| && !OnePlace(w)
    ensures Before(w, o, 1) != w[o] && After(w, o, 1) != w[o]
  {
    var n := |w|;
    var k: nat :| k < n && w[k] != w[o];
    var ahead := if o < k then k - o else k + n - o;
    RingAt(w, o + ahead, 0);
    RingAt(w, o + n - (n - ahead), 0);
    hide Ring;
    OthersAfter(w, o, 1, ahead);
    OthersBefore(w, o, 1, n - ahead);
  }

  /** A shift of less than 2^30 does not wrap. */
  lemma MovedExactly(p: Pt, shift: Pt, xs: int, ys: int)
    requires Abs(p.x) <= LIMIT && Abs(p.y) <= LIMIT && 0 <= xs <= LIMIT && 0 <= ys <= LIMIT
    requires Abs(shift.x) <= 0x4000_0000 && Abs(shift.y) <= 0x4000_0000
    ensures Moved(p, shift, xs, ys) == Pt(p.x + xs + shift.x, p.y + ys + shift.y)
  {
    Unwrapped(p.x + xs);
    Unwrapped(p.y + ys);
    Unwrapped(p.x + xs + shift.x);
    Unwrapped(p.y + ys + shift.y);
    hide Wrap32;
  }

  lemma ScaledIsSmall(inn: Norm, out: Norm, trueType: bool, v: int, s: int, r: int)
    requires IsUnit(inn) && IsUnit(out) && Cosine(inn, out) > -0xF000
    requires Scaled(inn, out, trueType, v, s, r) && Abs(v) <= 131074 && 0 <= s <= LIMIT
    requires 0 <= Min(inn.length, out.length) <= EDGE_ROOM
    ensures Abs(r) <= 0x4000_0000
  {
    hide MulFix, Cosine, Sine, Roomy, IsUnit, Wrap32;
    CosineMeaning(inn, out);
    SineMeaning(inn, out, trueType);
    var q, l, d := Sine(inn, out, trueType), Min(inn.length, out.length), Cosine(inn, out) + Newton.ONE;
    if Roomy(inn, out, trueType, s) {
      SmallProduct(v, s, 131074, LIMIT);
      QuotientSize(r, d, v * s);
    } else {
      NoRoom(inn, out, trueType, s);
      RoomMeaning(s, q, l, d);
      LimitBound(v, l, q, s, d, r);
    }
  }

  lemma QuotientSize(r: int, d: int, n: int)
    requires 0x1000 <= d <= 0x4_0000 && 2 * Abs(n - r * d) <= d && Abs(n) <= 131074 * LIMIT
    ensures Abs(r) <= 0x4000_0000
  {
    if r >= 0x3000_0000 {
      MulMonotone(0x3000_0000, r, d);
    } else if r <= -0x3000_0000 {
      MulMonotone(r, -0x3000_0000, d);
    }
  }

  lemma BisectorSize(inn: Norm, out: Norm, trueType: bool)
    requires IsUnit(inn) && IsUnit(out)
    ensures var v := Bisector(inn, out, trueType); Abs(v.x) <= 131074 && Abs(v.y) <= 131074
  {
    UnitBounds(inn);
    UnitBounds(out);
    hide IsUnit;
  }

  /** Nothing wraps where a corner of an outline with an orientation is moved. */
  lemma ShiftIsSmall(inn: Norm, out: Norm, trueType: bool, xs: int, ys: int)
    requires IsUnit(inn) && IsUnit(out) && 0 <= xs <= LIMIT && 0 <= ys <= LIMIT
    requires 0 <= Min(inn.length, out.length) <= EDGE_ROOM
    ensures var shift := CornerShift(inn, out, trueType, xs, ys);
            Abs(shift.x) <= 0x4000_0000 && Abs(shift.y) <= 0x4000_0000
  {
    hide MulFix, MulDiv, Sine, Roomy, IsUnit, Wrap32, Scaled, Bisector;
    if Cosine(inn, out) > -0xF000 {
      AxisOffset(inn, out, trueType, xs, ys);
      BisectorSize(inn, out, trueType);
      var shift, v := CornerShift(inn, out, trueType, xs, ys), Bisector(inn, out, trueType);
      hide CornerShift, Cosine;
      ScaledIsSmall(inn, out, trueType, v.x, xs, shift.x);
      ScaledIsSmall(inn, out, trueType, v.y, ys, shift.y);
    }
  }

  lemma EdgeLengthIsNat(p: Pt, q: Pt)
    ensures 0 <= UnitEdge(p, q).length
  {
    hide Newton.NormOf;
  }

  /** The final place of every point of an emboldened contour, relative to the point that is only moved by
      the half strengths: with room both of its edges lie outwards by the weighted half strengths, without
      it the point has gone back along one and forward along the other by the shorter one's length, and
      where the contour turns back it stays there. */
  lemma FinalPlace(w: seq<Pt>, o: nat, trueType: bool, xs: int, ys: int)
    requires Small(w) && o < |w| && !OnePlace(w) && 0 <= xs <= LIMIT && 0 <= ys <= LIMIT
    ensures var inn, out := UnitEdge(Before(w, o, 1), w[o]), UnitEdge(w[o], After(w, o, 1));
            var to := EmboldenedContour(w, trueType, xs, ys)[o];
            var shift := Pt(to.x - (w[o].x + xs), to.y - (w[o].y + ys));
            var l, q, d := Min(inn.length, out.length), Sine(inn, out, trueType), Cosine(inn, out) + Newton.ONE;
            && (0x1000 < d && Roomy(inn, out, trueType, xs) && Roomy(inn, out, trueType, ys) ==>
                  Offset(inn, out, shift, trueType, xs, ys, d) && Offset(out, inn, shift, trueType, xs, ys, d))
            && (0x1000 < d && !Roomy(inn, out, trueType, xs) && !Roomy(inn, out, trueType, ys) ==>
                  && 0 < q
                  && q * Abs(-Along(inn, shift) - Newton.ONE * l) <= Newton.ONE * l + 46342 * q
                  && q * Abs(Along(out, shift) - Newton.ONE * l) <= Newton.ONE * l + 46342 * q)
            && (0x1000 < d ==>
                  && Scaled(inn, out, trueType, Bisector(inn, out, trueType).x, xs, shift.x)
                  && Scaled(inn, out, trueType, Bisector(inn, out, trueType).y, ys, shift.y))
            && (d <= 0x1000 ==> shift == Pt(0, 0))
  {
    hide Before, After, UnitEdge, CornerShift, Sine, Roomy, IsUnit, Offset, Along, MulFix, MulDiv, Moved, Wrap32,
      Scaled, Bisector;
    var p, r := Before(w, o, 1), After(w, o, 1);
    NeighboursDiffer(w, o);
    NeighboursInside(w, o, 1);
    EdgeFacts(p, w[o]);
    EdgeFacts(w[o], r);
    var inn, out := UnitEdge(p, w[o]), UnitEdge(w[o], r);
    ShiftIsSmall(inn, out, trueType, xs, ys);
    MovedExactly(w[o], CornerShift(inn, out, trueType, xs, ys), xs, ys);
    TurnsBack(inn, out, trueType, xs, ys);
    hide Cosine;
    if 0x1000 < Cosine(inn, out) + Newton.ONE {
      AxisOffset(inn, out, trueType, xs, ys);
      if Roomy(inn, out, trueType, xs) && Roomy(inn, out, trueType, ys) {
        MitreOffset(inn, out, trueType, xs, ys);
      } else if !Roomy(inn, out, trueType, xs) && !Roomy(inn, out, trueType, ys) {
        LimitedOffset(inn, out, trueType, xs, ys);
      }
    }
  }

  lemma TurnsBack(inn: Norm, out: Norm, trueType: bool, xs: int, ys: int)
    ensures Cosine(inn, out) <= -0xF000 ==> CornerShift(inn, out, trueType, xs, ys) == Pt(0, 0)
  {
  }

  lemma EdgeFacts(p: Pt, q: Pt)
    requires p != q && Abs(p.x) <= LIMIT && Abs(p.y) <= LIMIT && Abs(q.x) <= LIMIT && Abs(q.y) <= LIMIT
    ensures IsUnit(UnitEdge(p, q)) && 0 <= UnitEdge(p, q).length <= EDGE_ROOM
  {
    EdgeIsUnit(p, q);
    EdgeHasRoom(p, q);
    EdgeLengthIsNat(p, q);
    hide UnitEdge, IsUnit;
  }
}
