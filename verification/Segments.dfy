/** The straight pieces that the rasterizer accumulates, one per visited cell.

    Coordinates are subpixels, 256 to a pixel.  A segment names its cell by pixel
    coordinates and its two ends by their offsets 0..256 inside that cell. */
module Segments {
  import opened Ints

  const ONE_PIXEL := 256

  datatype Point = Point(x: int, y: int)

  datatype Segment = Segment(ex: int, ey: int, fx1: int, fy1: int, fx2: int, fy2: int)
  {
    /** The height the segment climbs: its contribution to the cell's cover. */
    function Cover(): int {
      fy2 - fy1
    }

    /** Twice the area between the segment and the left edge of its cell. */
    function Area(): int {
      (fy2 - fy1) * (fx1 + fx2)
    }

    function Start(): Point {
      Point(ONE_PIXEL * ex + fx1, ONE_PIXEL * ey + fy1)
    }

    function End(): Point {
      Point(ONE_PIXEL * ex + fx2, ONE_PIXEL * ey + fy2)
    }

    predicate InsideCell() {
      0 <= fx1 <= ONE_PIXEL && 0 <= fy1 <= ONE_PIXEL && 0 <= fx2 <= ONE_PIXEL && 0 <= fy2 <= ONE_PIXEL
    }
  }

  /** `x >> 8`: the pixel of a subpixel coordinate. */
  function Trunc(x: int): int {
    x / ONE_PIXEL
  }

  /** `x & 255`: the offset of a subpixel coordinate in its pixel. */
  function Fract(x: int): int {
    x % ONE_PIXEL
  }

  /** An unbroken trail of cell pieces from p to q. */
  ghost predicate Connects(segs: seq<Segment>, p: Point, q: Point) {
    if segs == [] then p == q
    else segs[0].InsideCell() && segs[0].Start() == p && Connects(segs[1..], segs[0].End(), q)
  }

  /** The cover a list of segments adds to scanline y. */
  ghost function RowCover(segs: seq<Segment>, y: int): int {
    if segs == [] then 0
    else (if segs[0].ey == y then segs[0].Cover() else 0) + RowCover(segs[1..], y)
  }

  /** The part of the height range of scanline y that lies below height h. */
  ghost function Filled(h: int, y: int): int {
    Clamp(h - ONE_PIXEL * y, 0, ONE_PIXEL)
  }

  /** Twice the signed area of pixel (x, y) that lies to the right of a segment: nothing when the
      segment is in a column further right, its whole height when it is in a column further left. */
  function PixelShare(s: Segment, x: int, y: int): int {
    if s.ey != y || s.ex > x then 0
    else if s.ex < x then 2 * ONE_PIXEL * s.Cover()
    else 2 * ONE_PIXEL * s.Cover() - s.Area()
  }

  /** Twice the signed area that all segments together give to pixel (x, y). */
  ghost function PixelArea(segs: seq<Segment>, x: int, y: int): int {
    if segs == [] then 0
    else PixelShare(segs[0], x, y) + PixelArea(segs[1..], x, y)
  }

  /** An upright segment at offset fx gives its own pixel what lies between it and the right side. */
  lemma UprightShare(ex: int, ey: int, fx: int, fy1: int, fy2: int)
    ensures PixelShare(Segment(ex, ey, fx, fy1, fx, fy2), ex, ey) == 2 * (fy2 - fy1) * (ONE_PIXEL - fx)
  {
    var h := fy2 - fy1;
    assert h * (fx + fx) == 2 * (h * fx) && 2 * h * (ONE_PIXEL - fx) == 2 * ONE_PIXEL * h - 2 * (h * fx);
  }

  /** Cutting a segment at a point (u, v) of its cell changes its own pixel by twice the area of the
      triangle that the point makes with the two ends: not at all exactly when it lies on their line. */
  lemma CutShare(s: Segment, u: int, v: int, x: int, y: int)
    ensures var first, second := Segment(s.ex, s.ey, s.fx1, s.fy1, u, v), Segment(s.ex, s.ey, u, v, s.fx2, s.fy2);
            var parts := PixelShare(first, x, y) + PixelShare(second, x, y);
            parts - PixelShare(s, x, y)
            == if s.ex == x && s.ey == y then (v - s.fy1) * (s.fx2 - s.fx1) - (u - s.fx1) * (s.fy2 - s.fy1) else 0
  {
    var a, b, c, d := s.fx1, s.fy1, s.fx2, s.fy2;
    Trapezoid(b, v, a, u);
    Trapezoid(v, d, u, c);
    Trapezoid(b, d, a, c);
    Distribute(u - a, d, -b);
    Distribute(v - b, c, -a);
    assert (u - a) * d == u * d - a * d && (u - a) * -b == -(u * b) + a * b;
    assert (v - b) * c == v * c - b * c && (v - b) * -a == -(v * a) + b * a;
    assert u * d == d * u && u * b == b * u && a * d == d * a && a * b == b * a;
  }

  lemma Trapezoid(low: int, high: int, p: int, q: int)
    ensures (high - low) * (p + q) == high * p + high * q - low * p - low * q
  {
  }

  lemma {:induction false} RowCoverConcat(a: seq<Segment>, b: seq<Segment>, y: int)
    ensures RowCover(a + b, y) == RowCover(a, y) + RowCover(b, y)
  {
    if a == [] {
      assert a + b == b;
    } else {
      assert (a + b)[1..] == a[1..] + b;
      RowCoverConcat(a[1..], b, y);
    }
  }

  lemma {:induction false} PixelAreaConcat(a: seq<Segment>, b: seq<Segment>, x: int, y: int)
    ensures PixelArea(a + b, x, y) == PixelArea(a, x, y) + PixelArea(b, x, y)
  {
    if a == [] {
      assert a + b == b;
    } else {
      assert (a + b)[1..] == a[1..] + b;
      PixelAreaConcat(a[1..], b, x, y);
    }
  }

  /** What the pixels [low, high) of scanline y have together. */
  ghost function RowInk(segs: seq<Segment>, y: int, low: int, high: int): int
    requires low <= high
    decreases high - low
  {
    if low == high then 0 else RowInk(segs, y, low, high - 1) + PixelArea(segs, high - 1, y)
  }

  /** Twice the signed area between the segments of scanline y and the left side of column `high`:
      trapezoids with the distances of both ends from there. */
  ghost function Trapezoids(segs: seq<Segment>, y: int, high: int): int {
    if segs == [] then 0
    else
      var s, right := segs[0], ONE_PIXEL * high;
      (if s.ey == y then (s.End().y - s.Start().y) * ((right - s.Start().x) + (right - s.End().x)) else 0)
      + Trapezoids(segs[1..], y, high)
  }

  /** No area is lost or invented: the pixels of a scanline have together the whole area right of the
      segments, if these lie in its columns. */
  lemma {:induction false} RowInkIsArea(segs: seq<Segment>, y: int, low: int, high: int)
    requires low <= high && forall s :: s in segs && s.ey == y ==> low <= s.ex < high
    ensures RowInk(segs, y, low, high) == Trapezoids(segs, y, high)
    decreases |segs|
  {
    hide RowInk, PixelArea, PixelShare;
    if segs == [] {
      NoInk(y, low, high);
    } else {
      var s := segs[0];
      assert s in segs;
      RowInkIsArea(segs[1..], y, low, high);
      FirstInk(segs, y, low, high);
      ShareSum(s, y, low, high);
      var c, right := s.Cover(), ONE_PIXEL * high;
      assert 2 * ONE_PIXEL * c * (high - s.ex) - c * (s.fx1 + s.fx2)
          == c * ((right - s.Start().x) + (right - s.End().x)) by {
        Trapezoid(0, c, right - s.Start().x, right - s.End().x);
        Distribute(c, 2 * ONE_PIXEL * (high - s.ex), -(s.fx1 + s.fx2));
        assert c * -(s.fx1 + s.fx2) == -(c * (s.fx1 + s.fx2));
        assert 2 * ONE_PIXEL * c * (high - s.ex) == c * (2 * ONE_PIXEL * (high - s.ex));
      }
    }
  }

  lemma {:induction false} NoInk(y: int, low: int, high: int)
    requires low <= high
    ensures RowInk([], y, low, high) == 0
    decreases high - low
  {
    if low != high {
      NoInk(y, low, high - 1);
    }
  }

  /** The shares of one segment in the columns [low, high). */
  ghost function ShareInk(s: Segment, y: int, low: int, high: int): int
    requires low <= high
    decreases high - low
  {
    if low == high then 0 else ShareInk(s, y, low, high - 1) + PixelShare(s, high - 1, y)
  }

  lemma {:induction false} FirstInk(segs: seq<Segment>, y: int, low: int, high: int)
    requires low <= high && segs != []
    ensures RowInk(segs, y, low, high) == ShareInk(segs[0], y, low, high) + RowInk(segs[1..], y, low, high)
    decreases high - low
  {
    hide PixelShare;
    if low != high {
      FirstInk(segs, y, low, high - 1);
    }
  }

  lemma {:induction false} ShareSum(s: Segment, y: int, low: int, high: int)
    requires low <= high
    ensures ShareInk(s, y, low, high)
         == if s.ey != y || high <= s.ex then 0
            else if low <= s.ex then 2 * ONE_PIXEL * s.Cover() * (high - s.ex) - s.Area()
            else 2 * ONE_PIXEL * s.Cover() * (high - low)
    decreases high - low
  {
    hide Segment.Cover, Segment.Area;
    if low != high {
      ShareSum(s, y, low, high - 1);
      var c := 2 * ONE_PIXEL * s.Cover();
      Distribute(c, high - 1 - s.ex, 1);
      Distribute(c, high - 1 - low, 1);
    }
  }

  /** A trail adds to each scanline exactly the height it climbs inside that scanline,
      however its interior corners were rounded. */
  lemma {:induction false} TrailCover(segs: seq<Segment>, p: Point, q: Point, y: int)
    requires Connects(segs, p, q)
    ensures RowCover(segs, y) == Filled(q.y, y) - Filled(p.y, y)
  {
    if segs != [] {
      TrailCover(segs[1..], segs[0].End(), q, y);
    }
  }

  /** The head of a list, found in a permutation of the list. */
  lemma FindHead<T>(a: seq<T>, b: seq<T>) returns (i: nat)
    requires multiset(a) == multiset(b) && a != []
    ensures i < |b| && b == b[..i] + ([a[0]] + b[i + 1..]) && a == [a[0]] + a[1..]
    ensures multiset(a[1..]) == multiset(b[..i] + b[i + 1..])
  {
    assert a[0] in multiset(b);
    i :| 0 <= i < |b| && b[i] == a[0];
    var head, tail := b[..i], b[i + 1..];
    assert a == [a[0]] + a[1..];
    assert b == head + ([a[0]] + tail);
    WithoutOne([], a[0], a[1..]);
    WithoutOne(head, a[0], tail);
    assert [] + ([a[0]] + a[1..]) == a && [] + a[1..] == a[1..];
  }

  lemma WithoutOne<T>(head: seq<T>, v: T, tail: seq<T>)
    ensures multiset(head + tail) == multiset(head + ([v] + tail)) - multiset{v}
  {
    assert multiset(head + ([v] + tail)) == multiset(head) + (multiset{v} + multiset(tail));
    assert multiset(head + tail) == multiset(head) + multiset(tail);
  }

  /** The order in which segments arrive does not matter. */
  lemma {:induction false} PixelAreaAnyOrder(a: seq<Segment>, b: seq<Segment>, x: int, y: int)
    requires multiset(a) == multiset(b)
    ensures PixelArea(a, x, y) == PixelArea(b, x, y)
    decreases |a|
  {
    if a == [] {
      assert |b| == |multiset(b)| == 0;
    } else {
      var i := FindHead(a, b);
      var head, tail := b[..i], b[i + 1..];
      PixelAreaAnyOrder(a[1..], head + tail, x, y);
      PixelAreaConcat([a[0]], a[1..], x, y);
      PixelAreaConcat([a[0]], tail, x, y);
      PixelAreaConcat(head, [a[0]] + tail, x, y);
      PixelAreaConcat(head, tail, x, y);
    }
  }

  /** The segments in the scanlines [low, high). */
  ghost function InBand(segs: seq<Segment>, low: int, high: int): seq<Segment> {
    if segs == [] then []
    else (if low <= segs[0].ey < high then [segs[0]] else []) + InBand(segs[1..], low, high)
  }

  lemma {:induction false} InBandConcat(a: seq<Segment>, b: seq<Segment>, low: int, high: int)
    ensures InBand(a + b, low, high) == InBand(a, low, high) + InBand(b, low, high)
  {
    if a == [] {
      assert a + b == b;
    } else {
      assert (a + b)[1..] == a[1..] + b;
      InBandConcat(a[1..], b, low, high);
    }
  }

  lemma {:induction false} InBandEmpty(segs: seq<Segment>, low: int, high: int)
    requires forall s :: s in segs ==> !(low <= s.ey < high)
    ensures InBand(segs, low, high) == []
  {
    if segs != [] {
      InBandEmpty(segs[1..], low, high);
    }
  }

  /** Dropping other scanlines changes no pixel of the band. */
  lemma {:induction false} InBandPixels(segs: seq<Segment>, low: int, high: int, x: int, y: int)
    requires low <= y < high
    ensures PixelArea(InBand(segs, low, high), x, y) == PixelArea(segs, x, y)
  {
    if segs != [] {
      InBandPixels(segs[1..], low, high, x, y);
      var head := if low <= segs[0].ey < high then [segs[0]] else [];
      PixelAreaConcat(head, InBand(segs[1..], low, high), x, y);
      if head != [] {
        assert head[1..] == [];
        assert PixelArea(head, x, y) == PixelShare(segs[0], x, y) + PixelArea(head[1..], x, y);
      }
    }
  }
}
