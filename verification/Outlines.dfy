/** Outline reversal and orientation. */
module Outlines {
  import opened Ints
  import opened Sequences
  import Newton

  // ---------------------------------------------------------------- reversal

  /** The part [low, high) turned around. */
  function Flip<T>(s: seq<T>, low: nat, high: nat): (r: seq<T>)
    requires low <= high <= |s|
    ensures |r| == |s|
    ensures forall i {:trigger r[i]} :: 0 <= i < |s| ==>
      r[i] == if low <= i < high then s[low + high - 1 - i] else s[i]
  {
    s[..low] + Backwards(s[low..high]) + s[high..]
  }

  /** The contour ends are strictly increasing positions of the buffer, from contour start `first`. */
  predicate ValidEnds(ends: seq<int>, first: nat, n: nat) {
    ends == [] || (first <= ends[0] < n && ValidEnds(ends[1..], ends[0] + 1, n))
  }

  /** Every contour from `first` on turned around behind its first point. */
  ghost function Reversed<T>(s: seq<T>, ends: seq<int>, first: nat): (r: seq<T>)
    requires ValidEnds(ends, first, |s|)
    ensures |r| == |s|
    decreases |ends|
  {
    if ends == [] then s
    else Reversed(Flip(s, first + 1, ends[0] + 1), ends[1..], ends[0] + 1)
  }

  /** `points[low..high].reverse()`. */
  method ReverseSlice<T>(a: array<T>, low: nat, high: nat)
    requires low <= high <= a.Length
    modifies a
    ensures a[..] == Flip(old(a[..]), low, high)
  {
    var n := high - low;
    for i := 0 to n / 2
      invariant forall k :: 0 <= k < a.Length ==>
        a[k] == if low <= k < low + i || high - i <= k < high then old(a[low + high - 1 - k]) else old(a[k])
    {
      a[low + i], a[high - 1 - i] := a[high - 1 - i], a[low + i];
    }
  }

  const REVERSE_FILL := 4

  /** `flags ^ 4`. */
  function ToggleReverseFill(flags: int): int {
    if flags / REVERSE_FILL % 2 == 1 then flags - REVERSE_FILL else flags + REVERSE_FILL
  }

  /** `reverse_outline_buffers`. */
  method ReverseOutlineBuffers<T>(points: array<T>, tags: array<byte>, contours: seq<int>, flags: int)
    returns (flags': int)
    requires ValidEnds(contours, 0, points.Length) && ValidEnds(contours, 0, tags.Length)
    requires (points as object) != (tags as object)
    modifies points, tags
    ensures points[..] == Reversed(old(points[..]), contours, 0)
    ensures tags[..] == Reversed(old(tags[..]), contours, 0)
    ensures flags' == ToggleReverseFill(flags)
  {
    hide Flip, Reversed;
    var first := 1;
    assert contours[0..] == contours;
    for n := 0 to |contours|
      invariant 1 <= first
      invariant ValidEnds(contours[n..], first - 1, points.Length) && ValidEnds(contours[n..], first - 1, tags.Length)
      invariant Reversed(points[..], contours[n..], first - 1) == Reversed(old(points[..]), contours, 0)
      invariant Reversed(tags[..], contours[n..], first - 1) == Reversed(old(tags[..]), contours, 0)
    {
      assert contours[n..][0] == contours[n] && contours[n..][1..] == contours[n + 1..];
      ReversedUnfold(points[..], contours[n..], first - 1);
      ReversedUnfold(tags[..], contours[n..], first - 1);
      var end := contours[n] + 1;
      ReverseSlice(points, first, end);
      ReverseSlice(tags, first, end);
      first := end + 1;
    }
    assert contours[|contours|..] == [];
    ReversedUnfold(points[..], [], first - 1);
    ReversedUnfold(tags[..], [], first - 1);
    flags' := ToggleReverseFill(flags);
  }

  lemma FlipTwice<T>(s: seq<T>, low: nat, high: nat)
    requires low <= high <= |s|
    ensures Flip(Flip(s, low, high), low, high) == s
  {
  }

  lemma FlipsCommute<T>(s: seq<T>, low: nat, high: nat, low': nat, high': nat)
    requires low <= high <= low' <= high' <= |s|
    ensures Flip(Flip(s, low, high), low', high') == Flip(Flip(s, low', high'), low, high)
  {
    hide Flip;
    var a, b := Flip(s, low, high), Flip(s, low', high');
    var ab, ba := Flip(a, low', high'), Flip(b, low, high);
    forall i | 0 <= i < |s| ensures ab[i] == ba[i] {
    }
  }

  /** Turning an earlier part around does not interfere with the later contours. */
  lemma {:induction false} FlipBeforeReversed<T>(s: seq<T>, low: nat, high: nat, ends: seq<int>, first: nat)
    requires low <= high <= first + 1 && high <= |s| && ValidEnds(ends, first, |s|)
    ensures Reversed(Flip(s, low, high), ends, first) == Flip(Reversed(s, ends, first), low, high)
    decreases |ends|
  {
    hide Flip;
    if ends != [] {
      FlipsCommute(s, low, high, first + 1, ends[0] + 1);
      FlipBeforeReversed(Flip(s, first + 1, ends[0] + 1), low, high, ends[1..], ends[0] + 1);
    }
  }

  /** Reversing twice restores every buffer. */
  lemma {:induction false} ReversalIsInvolution<T>(s: seq<T>, ends: seq<int>, first: nat)
    requires ValidEnds(ends, first, |s|)
    ensures Reversed(Reversed(s, ends, first), ends, first) == s
    decreases |ends|
  {
    if ends != [] {
      var low, high, rest, next := first + 1, ends[0] + 1, ends[1..], ends[0] + 1;
      var r := Reversed(s, rest, next);
      FlipBeforeReversed(s, low, high, rest, next);
      // Reversed(s) == Flip(r), and flipping it again gives r
      FlipTwice(r, low, high);
      ReversalIsInvolution(s, rest, next);
    }
  }

  lemma ToggleTwice(flags: int)
    ensures ToggleReverseFill(ToggleReverseFill(flags)) == flags != ToggleReverseFill(flags)
  {
    assert (flags + REVERSE_FILL) / REVERSE_FILL == flags / REVERSE_FILL + 1;
    assert (flags - REVERSE_FILL) / REVERSE_FILL == flags / REVERSE_FILL - 1;
  }

  /** A contour turned around behind its first point. */
  ghost function Turned<T>(s: seq<T>): seq<T> {
    if s == [] then [] else [s[0]] + Backwards(s[1..])
  }

  /** Nothing before the first point of the first contour moves, and that point does not either. */
  lemma {:induction false} ReversedPrefix<T>(s: seq<T>, ends: seq<int>, first: nat)
    requires ValidEnds(ends, first, |s|) && first < |s|
    ensures Reversed(s, ends, first)[..first + 1] == s[..first + 1]
    decreases |ends|
  {
    if ends != [] && ends[0] + 1 < |s| {
      var f := Flip(s, first + 1, ends[0] + 1);
      ReversedPrefix(f, ends[1..], ends[0] + 1);
      var r := Reversed(s, ends, first);
      assert r[..first + 1] == r[..ends[0] + 2][..first + 1] == f[..ends[0] + 2][..first + 1];
    } else if ends != [] {
      assert ends[1..] == [];
    }
  }

  /** Each contour is permuted within itself: it becomes its own turned copy. */
  lemma ReversedContour<T>(s: seq<T>, ends: seq<int>, first: nat)
    requires ends != [] && ValidEnds(ends, first, |s|)
    ensures Reversed(s, ends, first)[first..ends[0] + 1] == Turned(s[first..ends[0] + 1])
    ensures Reversed(s, ends, first)[ends[0] + 1..] == Reversed(s, ends[1..], ends[0] + 1)[ends[0] + 1..]
  {
    hide Reversed;
    var f := Flip(s, first + 1, ends[0] + 1);
    var r, end := Reversed(s, ends, first), ends[0] + 1;
    assert r == Reversed(f, ends[1..], end) by { ReversedUnfold(s, ends, first); }
    FlipBeforeReversed(s, first + 1, end, ends[1..], end);
    FlipTail(Reversed(s, ends[1..], end), first + 1, end);
    if end < |s| {
      ReversedPrefix(f, ends[1..], end);
      assert r[first..end] == r[..end + 1][first..end] == f[..end + 1][first..end] == f[first..end];
    } else {
      assert ends[1..] == [];
      ReversedUnfold(f, ends[1..], end);
    }
    FlipIsTurned(s, first, end);
  }

  lemma ReversedUnfold<T>(s: seq<T>, ends: seq<int>, first: nat)
    requires ValidEnds(ends, first, |s|)
    ensures ends == [] ==> Reversed(s, ends, first) == s
    ensures ends != [] ==>
      Reversed(s, ends, first) == Reversed(Flip(s, first + 1, ends[0] + 1), ends[1..], ends[0] + 1)
  {
  }

  lemma FlipTail<T>(s: seq<T>, low: nat, high: nat)
    requires low <= high <= |s|
    ensures Flip(s, low, high)[high..] == s[high..]
  {
  }

  lemma FlipIsTurned<T>(s: seq<T>, first: nat, end: nat)
    requires first < end <= |s|
    ensures Flip(s, first + 1, end)[first..end] == Turned(s[first..end])
  {
    var f, t := Flip(s, first + 1, end)[first..end], s[first..end];
    forall i | 0 <= i < |t| ensures f[i] == Turned(t)[i] {
      if i > 0 {
        assert Turned(t)[i] == Backwards(t[1..])[i - 1] == t[1..][|t| - 1 - i];
      }
    }
  }

  lemma {:induction false} BackwardsMultiset<T>(s: seq<T>)
    ensures multiset(Backwards(s)) == multiset(s)
  {
    if s != [] {
      BackwardsMultiset(s[1..]);
      assert s == [s[0]] + s[1..];
    }
  }

  lemma FlipMultiset<T>(s: seq<T>, low: nat, high: nat)
    requires low <= high <= |s|
    ensures multiset(Flip(s, low, high)) == multiset(s)
  {
    BackwardsMultiset(s[low..high]);
    assert s == s[..low] + s[low..high] + s[high..];
  }

  lemma {:induction false} ReversedMultiset<T>(s: seq<T>, ends: seq<int>, first: nat)
    requires ValidEnds(ends, first, |s|)
    ensures multiset(Reversed(s, ends, first)) == multiset(s)
    decreases |ends|
  {
    hide Flip;
    if ends != [] {
      FlipMultiset(s, first + 1, ends[0] + 1);
      ReversedMultiset(Flip(s, first + 1, ends[0] + 1), ends[1..], ends[0] + 1);
    }
  }

  // ---------------------------------------------------------------- the signed area

  datatype Pt = Pt(x: int, y: int)

  /** What the edge from p to q adds to the area. */
  function Edge(p: Pt, q: Pt): int {
    (q.y - p.y) * (q.x + p.x)
  }

  /** The edges along an open path. */
  ghost function PathArea(s: seq<Pt>): int {
    if |s| < 2 then 0 else Edge(s[0], s[1]) + PathArea(s[1..])
  }

  /** Twice the signed area of a closed contour. */
  ghost function ContourArea(s: seq<Pt>): int {
    if s == [] then 0 else Edge(s[|s| - 1], s[0]) + PathArea(s)
  }

  function Cross(p: Pt, q: Pt): int {
    p.x * q.y - q.x * p.y
  }

  ghost function PathCross(s: seq<Pt>): int {
    if |s| < 2 then 0 else Cross(s[0], s[1]) + PathCross(s[1..])
  }

  lemma EdgeIsCross(p: Pt, q: Pt)
    ensures Edge(p, q) == Cross(p, q) + q.x * q.y - p.x * p.y
  {
    assert (q.y - p.y) * (q.x + p.x) == q.y * q.x + q.y * p.x - p.y * q.x - p.y * p.x;
  }

  lemma {:induction false} PathAreaIsCross(s: seq<Pt>)
    requires s != []
    ensures PathArea(s) == PathCross(s) + s[|s| - 1].x * s[|s| - 1].y - s[0].x * s[0].y
  {
    hide Edge, Cross;
    if |s| >= 2 {
      PathAreaIsCross(s[1..]);
      EdgeIsCross(s[0], s[1]);
    }
  }

  /** The summed edges are the shoelace formula: twice the area to the left of the contour. */
  lemma AreaIsShoelace(s: seq<Pt>)
    requires s != []
    ensures ContourArea(s) == Cross(s[|s| - 1], s[0]) + PathCross(s)
  {
    hide Edge, Cross, PathArea, PathCross;
    PathAreaIsCross(s);
    EdgeIsCross(s[|s| - 1], s[0]);
  }

  ghost function TotalArea(s: seq<Pt>, ends: seq<int>, first: nat): int
    requires ValidEnds(ends, first, |s|)
    decreases |ends|
  {
    if ends == [] then 0
    else ContourArea(s[first..ends[0] + 1]) + TotalArea(s, ends[1..], ends[0] + 1)
  }

  lemma {:induction false} PathAreaAppend(s: seq<Pt>, p: Pt)
    ensures PathArea(s + [p]) == PathArea(s) + if s == [] then 0 else Edge(s[|s| - 1], p)
  {
    if |s| >= 2 {
      assert (s + [p])[1..] == s[1..] + [p];
      PathAreaAppend(s[1..], p);
    } else if |s| == 1 {
      assert (s + [p])[1..] == [p];
    }
  }

  lemma {:induction false} BackwardsArea(s: seq<Pt>)
    ensures PathArea(Backwards(s)) == -PathArea(s)
  {
    if |s| >= 2 {
      BackwardsArea(s[1..]);
      PathAreaAppend(Backwards(s[1..]), s[0]);
      EdgeBack(s[0], s[1]);
    } else if |s| == 1 {
      assert Backwards(s[1..]) == [];
    }
  }

  lemma EdgeBack(p: Pt, q: Pt)
    ensures Edge(q, p) == -Edge(p, q)
  {
    assert (p.y - q.y) * (p.x + q.x) == -((q.y - p.y) * (q.x + p.x));
  }

  /** Turning a contour around negates its area exactly. */
  lemma TurnedArea(s: seq<Pt>)
    ensures ContourArea(Turned(s)) == -ContourArea(s)
  {
    if s != [] {
      var h, t := s[0], s[1..];
      var b := Backwards(t);
      EdgeBack(h, h);
      if t != [] {
        BackwardsArea(t);
        EdgeBack(t[0], h);
        EdgeBack(h, t[|t| - 1]);
        assert s == [h] + t;
        assert ([h] + t)[1..] == t && ([h] + b)[1..] == b;
      }
    }
  }

  /** Reversal negates the total area of every valid contour list exactly. */
  lemma {:induction false} ReversalNegatesArea(s: seq<Pt>, ends: seq<int>, first: nat)
    requires ValidEnds(ends, first, |s|)
    ensures TotalArea(Reversed(s, ends, first), ends, first) == -TotalArea(s, ends, first)
    decreases |ends|
  {
    if ends != [] {
      var end := ends[0] + 1;
      var r, rest := Reversed(s, ends, first), Reversed(s, ends[1..], end);
      ReversedContour(s, ends, first);
      TurnedArea(s[first..end]);
      ReversalNegatesArea(s, ends[1..], end);
      SameTailArea(r, rest, ends[1..], end);
    }
  }

  lemma {:induction false} SameTailArea(s: seq<Pt>, t: seq<Pt>, ends: seq<int>, first: nat)
    requires |s| == |t| && ValidEnds(ends, first, |s|) && first <= |s| && s[first..] == t[first..]
    ensures TotalArea(s, ends, first) == TotalArea(t, ends, first)
    decreases |ends|
  {
    if ends != [] {
      var end := ends[0] + 1;
      assert s[first..end] == s[first..][..end - first] == t[first..][..end - first] == t[first..end];
      assert s[end..] == s[first..][end - first..] == t[first..][end - first..] == t[end..];
      SameTailArea(s, t, ends[1..], end);
    }
  }

  // ---------------------------------------------------------------- control box and orientation

  datatype BBox = BBox(xMin: int, yMin: int, xMax: int, yMax: int)

  function Extend(b: BBox, p: Pt): BBox {
    BBox(Min(b.xMin, p.x), Min(b.yMin, p.y), Max(b.xMax, p.x), Max(b.yMax, p.y))
  }

  /** The tightest box around the points. */
  ghost predicate IsCbox(s: seq<Pt>, b: BBox) {
    && (forall p :: p in s ==> b.xMin <= p.x <= b.xMax && b.yMin <= p.y <= b.yMax)
    && (exists p :: p in s && p.x == b.xMin) && (exists p :: p in s && p.x == b.xMax)
    && (exists p :: p in s && p.y == b.yMin) && (exists p :: p in s && p.y == b.yMax)
  }

  lemma CboxIsUnique(s: seq<Pt>, t: seq<Pt>, b: BBox, b': BBox)
    requires (forall p :: p in s <==> p in t) && IsCbox(s, b) && IsCbox(t, b')
    ensures b == b'
  {
    var p0 :| p0 in s && p0.x == b.xMin;
    var p1 :| p1 in s && p1.x == b.xMax;
    var p2 :| p2 in s && p2.y == b.yMin;
    var p3 :| p3 in s && p3.y == b.yMax;
    var q0 :| q0 in t && q0.x == b'.xMin;
    var q1 :| q1 in t && q1.x == b'.xMax;
    var q2 :| q2 in t && q2.y == b'.yMin;
    var q3 :| q3 in t && q3.y == b'.yMax;
    assert q0 in s && q1 in s && q2 in s && q3 in s;
  }

  /** `outline_point_cbox` of a non-empty list. */
  function Cbox(s: seq<Pt>): (b: BBox)
    requires s != []
    ensures IsCbox(s, b)
  {
    var p := s[|s| - 1];
    if |s| == 1 then BBox(p.x, p.y, p.x, p.y)
    else
      var b := Cbox(s[..|s| - 1]);
      assert IsCbox(s, Extend(b, p)) by {
        CboxExtends(s[..|s| - 1], b, p);
        assert s == s[..|s| - 1] + [p];
      }
      Extend(b, p)
  }

  lemma CboxExtends(s: seq<Pt>, b: BBox, p: Pt)
    requires IsCbox(s, b)
    ensures IsCbox(s + [p], Extend(b, p))
  {
    var p0 :| p0 in s && p0.x == b.xMin;
    var p1 :| p1 in s && p1.x == b.xMax;
    var p2 :| p2 in s && p2.y == b.yMin;
    var p3 :| p3 in s && p3.y == b.yMax;
    var t := s + [p];
    assert p0 in t && p1 in t && p2 in t && p3 in t && p in t;
  }

  method OutlinePointCbox(points: seq<Pt>) returns (b: BBox)
    requires points != []
    ensures b == Cbox(points) && IsCbox(points, b)
  {
    b := BBox(points[0].x, points[0].y, points[0].x, points[0].y);
    assert points[..1] == [points[0]];
    for i := 1 to |points|
      invariant b == Cbox(points[..i])
    {
      assert points[..i + 1][..i] == points[..i];
      b := Extend(b, points[i]);
    }
    assert points[..|points|] == points;
  }

  datatype Orientation = TrueType | PostScript | Undecided

  function Opposite(o: Orientation): Orientation {
    match o
    case TrueType => PostScript
    case PostScript => TrueType
    case Undecided => Undecided
  }

  const LIMIT: int := 0x100_0000

  /** The box is flat or too large for the area to be computed. */
  predicate Unusable(b: BBox) {
    b.xMin == b.xMax || b.yMin == b.yMax ||
    b.xMin < -LIMIT || b.yMin < -LIMIT || b.xMax > LIMIT || b.yMax > LIMIT
  }

  /** How far the coordinates are shifted down; the highest bit of a bitwise or of two magnitudes is
      the highest bit of the larger one. */
  function XShift(b: BBox): nat
    requires !Unusable(b)
  {
    Max(Newton.Msb(Max(Abs(b.xMax), Abs(b.xMin))) - 14, 0)
  }

  function YShift(b: BBox): nat
    requires !Unusable(b) && b.yMin <= b.yMax
  {
    Max(Newton.Msb(b.yMax - b.yMin) - 14, 0)
  }

  function Shifted(p: Pt, xShift: nat, yShift: nat): Pt {
    Pt(p.x / Pow2(xShift), p.y / Pow2(yShift))
  }

  ghost function AllShifted(s: seq<Pt>, xShift: nat, yShift: nat): (r: seq<Pt>)
    ensures |r| == |s| && forall i :: 0 <= i < |s| ==> r[i] == Shifted(s[i], xShift, yShift)
  {
    seq(|s|, i requires 0 <= i < |s| => Shifted(s[i], xShift, yShift))
  }

  /** The orientation that the outline's signed area decides. */
  ghost function OrientationOf(points: seq<Pt>, contours: seq<int>, nContours: int): Orientation {
    if points == [] then TrueType
    else
      var b := Cbox(points);
      if Unusable(b) || nContours < 0 || |contours| < nContours || !ValidEnds(contours[..nContours], 0, |points|)
      then Undecided
      else
        var area := TotalArea(AllShifted(points, XShift(b), YShift(b)), contours[..nContours], 0);
        if area > 0 then PostScript else if area < 0 then TrueType else Undecided
  }

  /** `outline_orientation`.  The sum is taken without wrapping; `AreaFits` says that it fits 64 bits,
      so that wrapping additions arrive at the same. */
  method OutlineOrientation(points: seq<Pt>, contours: seq<int>, nContours: int) returns (o: Orientation)
    ensures o == OrientationOf(points, contours, nContours)
  {
    hide TotalArea, ValidEnds, AllShifted, Cbox, XShift, YShift;
    if points == [] {
      return TrueType;
    }
    var cbox := OutlinePointCbox(points);
    if cbox.xMin == cbox.xMax || cbox.yMin == cbox.yMax {
      return Undecided;
    }
    if cbox.xMin < -LIMIT || cbox.yMin < -LIMIT || cbox.xMax > LIMIT || cbox.yMax > LIMIT {
      return Undecided;
    }
    var xShift, yShift := XShift(cbox), YShift(cbox);
    if nContours < 0 || nContours > |contours| {
      return Undecided;
    }
    ghost var ends := contours[..nContours];
    ghost var all := AllShifted(points, xShift, yShift);
    assert |all| == |points|;
    var area := 0;
    var previousLast := -1;
    assert ends[0..] == ends;
    for c := 0 to nContours
      invariant -1 <= previousLast < |points|
      invariant ValidEnds(ends, 0, |points|) <==> ValidEnds(ends[c..], previousLast + 1, |points|)
      invariant ValidEnds(ends, 0, |points|) ==>
        area + TotalArea(all, ends[c..], previousLast + 1) == TotalArea(all, ends, 0)
    {
      EndsUnfold(all, ends, c, previousLast + 1);
      var first, last := previousLast + 1, contours[c];
      if last < first || last >= |points| {
        return Undecided;
      }
      var contour := ContourSum(points, first, last, xShift, yShift);
      area := area + contour;
      previousLast := last;
    }
    assert ends[nContours..] == [];
    NoEnds(all, previousLast + 1);
    o := if area > 0 then PostScript else if area < 0 then TrueType else Undecided;
  }

  lemma EndsUnfold(s: seq<Pt>, ends: seq<int>, c: nat, first: nat)
    requires c < |ends|
    ensures ValidEnds(ends[c..], first, |s|)
            <==> first <= ends[c] < |s| && ValidEnds(ends[c + 1..], ends[c] + 1, |s|)
    ensures ValidEnds(ends[c..], first, |s|) ==>
      TotalArea(s, ends[c..], first) == ContourArea(s[first..ends[c] + 1]) + TotalArea(s, ends[c + 1..], ends[c] + 1)
  {
    assert ends[c..][0] == ends[c] && ends[c..][1..] == ends[c + 1..];
  }

  lemma NoEnds(s: seq<Pt>, first: nat)
    ensures ValidEnds([], first, |s|) && TotalArea(s, [], first) == 0
  {
  }

  /** The inner loop: the edges of one contour, starting with the one that closes it. */
  method ContourSum(points: seq<Pt>, first: nat, last: nat, xShift: nat, yShift: nat) returns (area: int)
    requires first <= last < |points|
    ensures area == ContourArea(AllShifted(points, xShift, yShift)[first..last + 1])
  {
    hide Shifted, Edge;
    ghost var s := AllShifted(points, xShift, yShift)[first..last + 1];
    var prev := Shifted(points[last], xShift, yShift);
    area := 0;
    for i := first to last + 1
      invariant prev == if i == first then s[|s| - 1] else s[i - first - 1]
      invariant area == if i == first then 0 else Edge(s[|s| - 1], s[0]) + PathArea(s[..i - first])
    {
      var cur := Shifted(points[i], xShift, yShift);
      assert cur == s[i - first];
      assert s[..i - first + 1] == s[..i - first] + [cur];
      PathAreaAppend(s[..i - first], cur);
      area := area + Edge(prev, cur);
      prev := cur;
    }
    assert s[..|s|] == s;
  }

  lemma {:induction false} ShiftedReversal(s: seq<Pt>, ends: seq<int>, first: nat, xShift: nat, yShift: nat)
    requires ValidEnds(ends, first, |s|)
    ensures AllShifted(Reversed(s, ends, first), xShift, yShift) == Reversed(AllShifted(s, xShift, yShift), ends, first)
    decreases |ends|
  {
    if ends != [] {
      var low, high := first + 1, ends[0] + 1;
      var f := Flip(s, low, high);
      hide Shifted;
      assert AllShifted(f, xShift, yShift) == Flip(AllShifted(s, xShift, yShift), low, high);
      ShiftedReversal(f, ends[1..], high, xShift, yShift);
    }
  }

  // ---------------------------------------------------------------- the size of the sum

  /** The shift leaves fifteen bits. */
  lemma ShiftLeaves15(v: nat, m: nat)
    requires v <= m && 0 < m
    ensures v / Pow2(Max(Newton.Msb(m) - 14, 0)) < 0x8000
  {
    var k := Max(Newton.Msb(m) - 14, 0);
    Pow2Grows(Newton.Msb(m) + 1, k + 15);
    Pow2Sum(k, 15);
    ByteRange();
    assert Pow2(15) == 0x8000 by { Pow2Sum(8, 7); assert Pow2(8) == 2 * Pow2(7); }
    hide Pow2;
    QuotientBelow(v, Pow2(k), 0x8000);
  }

  lemma DivMod(v: int, p: nat) returns (q: int, r: nat)
    requires 0 < p
    ensures v == p * q + r && r < p && v / p == q
  {
    q, r := v / p, v % p;
  }

  lemma FloorsClose(v: int, w: int, p: nat, n: nat)
    requires 0 < p && 0 <= v - w && (v - w) / p < n
    ensures 0 <= v / p - w / p <= n
  {
    var q, r := DivMod(v, p);
    var u, s := DivMod(w, p);
    var g, rest := DivMod(v - w, p);
    FloorGap(p, q, u, g, rest, r, s);
  }

  lemma FloorGap(p: nat, q: int, u: int, g: int, rest: nat, r: nat, s: nat)
    requires p * q + r - (p * u + s) == p * g + rest && 0 <= p * g + rest && rest < p && r < p && s < p
    ensures 0 <= q - u <= g + 1
  {
    var d := q - u;
    assert p * d == p * q - p * u;
    if d < 0 {
      MulMonotone(d, -1, p);
    }
    if g + 1 < d {
      MulMonotone(g + 2, d, p);
    }
  }

  lemma FloorRange(v: int, p: nat, n: nat)
    requires 0 < p && Abs(v) / p < n
    ensures 0 - n <= v / p < n
  {
    if v < 0 {
      FloorsClose(0, v, p, n);
      assert 0 / p == 0;
    }
  }

  predicate InShiftedBox(p: Pt, yMin: int) {
    -0x8000 <= p.x < 0x8000 && yMin <= p.y <= yMin + 0x8000
  }

  lemma PointShifted(p: Pt, b: BBox)
    requires !Unusable(b) && b.xMin <= p.x <= b.xMax && b.yMin <= p.y <= b.yMax
    ensures InShiftedBox(Shifted(p, XShift(b), YShift(b)), b.yMin / Pow2(YShift(b)))
  {
    hide Pow2, Newton.Msb;
    var m := Max(Abs(b.xMax), Abs(b.xMin));
    ShiftLeaves15(Abs(p.x), m);
    FloorRange(p.x, Pow2(XShift(b)), 0x8000);
    ShiftLeaves15(p.y - b.yMin, b.yMax - b.yMin);
    FloorsClose(p.y, b.yMin, Pow2(YShift(b)), 0x8000);
  }

  const EDGE_LIMIT := 0x8000_0000

  lemma EdgeBound(p: Pt, q: Pt, yMin: int)
    requires InShiftedBox(p, yMin) && InShiftedBox(q, yMin)
    ensures Abs(Edge(p, q)) <= EDGE_LIMIT
  {
    ProductBound(q.y - p.y, q.x + p.x);
  }

  lemma ProductBound(a: int, b: int)
    requires -0x8000 <= a <= 0x8000 && -0x1_0000 <= b <= 0x1_0000
    ensures Abs(a * b) <= EDGE_LIMIT
  {
    if a < 0 {
      MulMonotone(b, 0x1_0000, -a);
      MulMonotone(-0x1_0000, b, -a);
    } else {
      MulMonotone(b, 0x1_0000, a);
      MulMonotone(-0x1_0000, b, a);
    }
  }

  lemma {:induction false} PathBound(s: seq<Pt>, yMin: int)
    requires forall p :: p in s ==> InShiftedBox(p, yMin)
    ensures s != [] ==> Abs(PathArea(s)) <= (|s| - 1) * EDGE_LIMIT
  {
    hide InShiftedBox, Edge;
    if 2 <= |s| {
      EdgeBound(s[0], s[1], yMin);
      PathBound(s[1..], yMin);
    }
  }

  lemma {:induction false} TotalBound(s: seq<Pt>, ends: seq<int>, first: nat, yMin: int)
    requires ValidEnds(ends, first, |s|) && first <= |s| && forall p :: p in s ==> InShiftedBox(p, yMin)
    ensures Abs(TotalArea(s, ends, first)) <= (|s| - first) * EDGE_LIMIT
    decreases |ends|
  {
    hide InShiftedBox, Edge, PathArea;
    if ends != [] {
      var c := s[first..ends[0] + 1];
      PathBound(c, yMin);
      EdgeBound(c[|c| - 1], c[0], yMin);
      TotalBound(s, ends[1..], ends[0] + 1, yMin);
    }
  }

  /** No outline of up to 2^31 points makes the sum overflow. */
  lemma AreaFits(points: seq<Pt>, contours: seq<int>)
    requires points != [] && !Unusable(Cbox(points)) && ValidEnds(contours, 0, |points|) && |points| <= 0x8000_0000
    ensures var b := Cbox(points);
            Abs(TotalArea(AllShifted(points, XShift(b), YShift(b)), contours, 0)) < 0x8000_0000_0000_0000
  {
    hide Cbox, XShift, YShift, Shifted, InShiftedBox, TotalArea;
    var b := Cbox(points);
    var all, yMin := AllShifted(points, XShift(b), YShift(b)), b.yMin / Pow2(YShift(b));
    forall p | p in all ensures InShiftedBox(p, yMin) {
      var i :| 0 <= i < |all| && all[i] == p;
      assert points[i] in points;
      PointShifted(points[i], b);
    }
    TotalBound(all, contours, 0, yMin);
  }

  /** Reversing an outline swaps TrueType and PostScript orientation and leaves Undecided alone. */
  lemma ReversalFlipsOrientation(points: seq<Pt>, contours: seq<int>)
    requires points != [] && ValidEnds(contours, 0, |points|)
    ensures OrientationOf(Reversed(points, contours, 0), contours, |contours|)
            == Opposite(OrientationOf(points, contours, |contours|))
  {
    var r := Reversed(points, contours, 0);
    assert contours[..|contours|] == contours;
    ReversedMultiset(points, contours, 0);
    forall p ensures p in points <==> p in r {
      assert p in points <==> p in multiset(points);
      assert p in r <==> p in multiset(r);
    }
    CboxIsUnique(points, r, Cbox(points), Cbox(r));
    var b := Cbox(points);
    if !Unusable(b) {
      ShiftedReversal(points, contours, 0, XShift(b), YShift(b));
      ReversalNegatesArea(AllShifted(points, XShift(b), YShift(b)), contours, 0);
    }
  }
}
