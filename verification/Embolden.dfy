/** Emboldening of outlines: the three-cursor walk around each contour. */
module Embolden {
  import opened Ints
  import opened Options
  import opened Fixed
  import opened Outlines
  import opened Sequences
  import Newton
  import TrueNorm

  type Norm = Newton.Norm

  predicate Fits(p: Pt) {
    Is32(p.x) && Is32(p.y)
  }

  predicate AllFit(s: seq<Pt>) {
    forall o :: 0 <= o < |s| ==> Fits(s[o])
  }

  // ---------------------------------------------------------------- one corner

  function Capped(n: Norm): Norm {
    n.(length := Min(n.length, I32_MAX))
  }

  /** Direction and length of the edge from p to q. */
  ghost function UnitEdge(p: Pt, q: Pt): Norm {
    Capped(Newton.NormOf(Wrap32(q.x - p.x), Wrap32(q.y - p.y)))
  }

  /** Only an edge between equal points has no length. */
  lemma EdgeLength(p: Pt, q: Pt)
    requires Fits(p) && Fits(q)
    ensures UnitEdge(p, q).length == 0 <==> p == q
  {
    Newton.OnlyZeroHasNoLength(Wrap32(q.x - p.x), Wrap32(q.y - p.y));
    hide Newton.NormOf;
    SameCoordinate(p.x, q.x);
    SameCoordinate(p.y, q.y);
  }

  lemma SameCoordinate(a: int, b: int)
    requires Is32(a) && Is32(b)
    ensures Wrap32(b - a) == 0 <==> a == b
  {
  }

  /** How far a corner moves between the edge that comes in and the one that goes out: along the
      bisector, limited by the shorter edge, and not at all where the contour turns back. */
  function CornerShift(inn: Norm, out: Norm, trueType: bool, xs: int, ys: int): Pt {
    var cos := Wrap32(MulFix(inn.x, out.x) + MulFix(inn.y, out.y));
    if cos > -0xF000 then
      var d := Wrap32(cos + 0x1_0000);
      var x0, y0 := Wrap32(inn.y + out.y), Wrap32(inn.x + out.x);
      var q0 := Wrap32(MulFix(out.x, inn.y) - MulFix(out.y, inn.x));
      var x, y := if trueType then Wrap32(-x0) else x0, if trueType then y0 else Wrap32(-y0);
      var q := if trueType then Wrap32(-q0) else q0;
      var l := Min(inn.length, out.length);
      Pt(if MulFix(xs, q) <= MulFix(l, d) then MulDiv(x, xs, d) else MulDiv(x, l, q),
         if MulFix(ys, q) <= MulFix(l, d) then MulDiv(y, ys, d) else MulDiv(y, l, q))
    else Pt(0, 0)
  }

  function Moved(p: Pt, shift: Pt, xs: int, ys: int): (r: Pt)
    ensures Fits(r)
  {
    Pt(Wrap32(Wrap32(p.x + xs) + shift.x), Wrap32(Wrap32(p.y + ys) + shift.y))
  }

  // ---------------------------------------------------------------- the emboldened contour

  /** A closed contour's point t, going round. */
  ghost function Ring(w: seq<Pt>, t: nat): Pt
    requires w != []
    decreases t
  {
    if t < |w| then w[t] else Ring(w, t - |w|)
  }

  /** The point d places after point o. */
  ghost function Ahead(w: seq<Pt>, o: nat, d: nat): Pt
    requires o < |w|
  {
    Ring(w, o + d)
  }

  /** The point d places before point o. */
  ghost function Behind(w: seq<Pt>, o: nat, d: nat): Pt
    requires o < |w| && d <= |w|
  {
    Ring(w, o + |w| - d)
  }

  /** The nearest point at another place, d or more points after point o. */
  ghost function After(w: seq<Pt>, o: nat, d: nat): (r: Pt)
    requires o < |w|
    decreases |w| - d
  {
    if |w| <= d then w[o] else if Ahead(w, o, d) != w[o] then Ahead(w, o, d) else After(w, o, d + 1)
  }

  /** The nearest point at another place, d or more points before point o. */
  ghost function Before(w: seq<Pt>, o: nat, d: nat): (r: Pt)
    requires o < |w|
    decreases |w| - d
  {
    if |w| <= d then w[o] else if Behind(w, o, d) != w[o] then Behind(w, o, d) else Before(w, o, d + 1)
  }

  ghost predicate OnePlace(w: seq<Pt>) {
    forall o :: 0 <= o < |w| ==> w[o] == w[0]
  }

  /** Each point moves by its own corner: the edges to the nearest other places before and after. */
  ghost function EmboldenedPoint(w: seq<Pt>, o: nat, trueType: bool, xs: int, ys: int): Pt
    requires o < |w|
  {
    var shift := CornerShift(UnitEdge(Before(w, o, 1), w[o]), UnitEdge(w[o], After(w, o, 1)), trueType, xs, ys);
    Moved(w[o], shift, xs, ys)
  }

  ghost function EmboldenedContour(w: seq<Pt>, trueType: bool, xs: int, ys: int): (r: seq<Pt>)
    ensures |r| == |w|
  {
    if OnePlace(w) then w else seq(|w|, o requires 0 <= o < |w| => EmboldenedPoint(w, o, trueType, xs, ys))
  }

  lemma {:induction false} AfterRun(w: seq<Pt>, o: nat, d: nat, D: nat)
    requires o < |w| && d <= D < |w|
    requires forall e :: d <= e < D ==> Ahead(w, o, e) == w[o]
    requires Ahead(w, o, D) != w[o]
    ensures After(w, o, d) == Ahead(w, o, D)
    decreases D - d
  {
    hide Ahead;
    if d < D {
      AfterRun(w, o, d + 1, D);
    }
  }

  lemma {:induction false} BeforeRun(w: seq<Pt>, o: nat, d: nat, D: nat)
    requires o < |w| && d <= D < |w|
    requires forall e :: d <= e < D ==> Behind(w, o, e) == w[o]
    requires Behind(w, o, D) != w[o]
    ensures Before(w, o, d) == Behind(w, o, D)
    decreases D - d
  {
    hide Behind;
    if d < D {
      BeforeRun(w, o, d + 1, D);
    }
  }

  // ---------------------------------------------------------------- the walk

  function NextContourIndex(index: nat, first: nat, last: nat): nat {
    if index < last then index + 1 else first
  }

  /** The offset of the point that is reached after t points, for at most two rounds. */
  function Pos(n: nat, t: nat): nat {
    if t < n then t else t - n
  }

  lemma RingAt(w: seq<Pt>, t: nat, e: nat)
    requires t < 2 * |w|
    ensures Pos(|w|, t) < |w| && w[Pos(|w|, t)] == Ring(w, t)
    ensures Ring(w, Pos(|w|, t) + e) == Ring(w, t + e)
  {
  }

  /** The points from i up to but not including j, going round. */
  predicate InRun(i: nat, j: nat, p: nat) {
    if i <= j then i <= p < j else i <= p || p < j
  }

  ghost predicate RunShifted(was: seq<Pt>, now: seq<Pt>, i: nat, j: nat, shift: Pt, xs: int, ys: int) {
    |now| == |was| && forall o :: 0 <= o < |was| ==>
      now[o] == if InRun(i, j, o) then Moved(was[o], shift, xs, ys) else was[o]
  }

  /** The inner loop: moves the points from i up to j. */
  method ShiftRun(points: array<Pt>, first: nat, last: nat, from: nat, j: nat, shift: Pt, xs: int, ys: int)
    returns (i: nat)
    requires first <= from <= last < points.Length && first <= j <= last
    modifies points
    ensures i == j
    ensures forall p :: 0 <= p < points.Length && !(first <= p <= last) ==> points[p] == old(points[p])
    ensures RunShifted(old(points[first..last + 1]), points[first..last + 1], from - first, j - first, shift, xs, ys)
    ensures old(AllFit(points[..])) ==> AllFit(points[..])
  {
    hide Moved;
    i := from;
    ghost var was := points[first..last + 1];
    while i != j
      invariant first <= i <= last && (from <= i || i <= j < from) && (from <= j ==> from <= i <= j)
      invariant forall p :: 0 <= p < points.Length ==>
        points[p] == if first <= p <= last && InRun(from, i, p) then Moved(old(points[p]), shift, xs, ys)
                     else old(points[p])
      decreases if i <= j then j - i else last - i + 1 + j
    {
      points[i] := Moved(points[i], shift, xs, ys);
      i := NextContourIndex(i, first, last);
    }
    ghost var now := points[first..last + 1];
    forall o | 0 <= o < |was|
      ensures now[o] == if InRun(from - first, j - first, o) then Moved(was[o], shift, xs, ys) else was[o]
    {
      assert now[o] == points[first + o] && was[o] == old(points[first + o]);
    }
  }

  /** Where the walk stands, counting points from the contour's first one, round and round. */
  datatype Stage = Searching(tj: nat) | Turning(a: nat, ti: nat, tj: nat) | Done

  /** When point o is passed in the round that starts at a. */
  function Turn(n: nat, a: nat, o: nat): nat {
    if o < a then o + n else o
  }

  /** In the round that starts at a, exactly the points passed before ti have moved, each to its
      final place; the points from ti up to tj are all at one place, the one before is not. */
  ghost predicate Round(w: seq<Pt>, cur: seq<Pt>, a: nat, ti: nat, tj: nat, trueType: bool, xs: int, ys: int) {
    && a < |w| == |cur| && a <= ti < tj <= a + |w|
    && Ring(w, a + |w| - 1) != Ring(w, a)
    && Ring(w, ti + |w| - 1) != Ring(w, ti)
    && (forall t :: ti <= t < tj ==> Ring(w, t) == Ring(w, ti))
    && forall o :: 0 <= o < |w| ==>
         cur[o] == if Turn(|w|, a, o) < ti then EmboldenedPoint(w, o, trueType, xs, ys) else w[o]
  }

  /** A run is shorter than a round, and it stops short of the anchor in the first place. */
  lemma RunIsShort(w: seq<Pt>, cur: seq<Pt>, a: nat, ti: nat, tj: nat, trueType: bool, xs: int, ys: int)
    requires Round(w, cur, a, ti, tj, trueType, xs, ys)
    ensures tj < ti + |w| && (ti == a ==> tj < a + |w|)
  {
    hide Ring;
  }

  /** The edge out of the current run is found: every point of the run has the same two edges. */
  lemma RunEdges(w: seq<Pt>, cur: seq<Pt>, a: nat, ti: nat, tj: nat, trueType: bool, xs: int, ys: int, t: nat)
    requires Round(w, cur, a, ti, tj, trueType, xs, ys) && Ring(w, tj) != Ring(w, ti)
    requires ti <= t < tj
    ensures var o := Pos(|w|, t);
            o < |w| && w[o] == Ring(w, ti) && Before(w, o, 1) == Ring(w, ti + |w| - 1) && After(w, o, 1) == Ring(w, tj)
  {
    hide EmboldenedPoint, Ring;
    var n, o := |w|, Pos(|w|, t);
    RunIsShort(w, cur, a, ti, tj, trueType, xs, ys);
    RingAt(w, t, 0);
    forall e | 1 <= e < tj - t ensures Ahead(w, o, e) == w[o] {
      RingAt(w, t, e);
      assert Ring(w, t + e) == Ring(w, ti);
    }
    RingAt(w, t, tj - t);
    AfterRun(w, o, 1, tj - t);
    forall e | 1 <= e < t - ti + 1 ensures Behind(w, o, e) == w[o] {
      RingAt(w, t, n - e);
      NextRound(w, t - e);
      assert Ring(w, t - e) == Ring(w, ti);
    }
    RingAt(w, t, n - (t - ti + 1));
    BeforeRun(w, o, 1, t - ti + 1);
  }

  lemma NextRound(w: seq<Pt>, t: nat)
    requires w != []
    ensures Ring(w, t + |w|) == Ring(w, t)
  {
  }

  /** What the walk reads is not moved yet; the anchor stands for the edge into the first moved point. */
  lemma RunReads(w: seq<Pt>, cur: seq<Pt>, a: nat, ti: nat, tj: nat, trueType: bool, xs: int, ys: int)
    requires Round(w, cur, a, ti, tj, trueType, xs, ys)
    ensures ti < 2 * |w| && tj < 2 * |w| && Pos(|w|, ti) < |w| && Pos(|w|, tj) < |w|
    ensures cur[Pos(|w|, ti)] == Ring(w, ti)
    ensures tj < a + |w| ==> cur[Pos(|w|, tj)] == Ring(w, tj)
    ensures tj == a + |w| ==> Ring(w, a + |w| - 1) == Ring(w, ti) && Ring(w, a) == Ring(w, tj)
    ensures tj < ti + |w|
  {
    hide Ring, EmboldenedPoint;
    RunIsShort(w, cur, a, ti, tj, trueType, xs, ys);
    RingAt(w, ti, 0);
    RingAt(w, tj, 0);
    NextRound(w, a);
  }

  lemma Found(w: seq<Pt>, tj: nat, trueType: bool, xs: int, ys: int)
    requires tj < |w| && w[tj] != w[|w| - 1] && forall t :: 0 <= t < tj ==> w[t] == w[|w| - 1]
    ensures Round(w, w, tj, tj, tj + 1, trueType, xs, ys)
    ensures Ring(w, tj + |w| - 1) == w[|w| - 1] && Ring(w, tj) == w[tj]
  {
    hide EmboldenedPoint;
    if tj != 0 {
      NextRound(w, tj - 1);
    }
  }

  lemma RunGrows(w: seq<Pt>, cur: seq<Pt>, a: nat, ti: nat, tj: nat, trueType: bool, xs: int, ys: int)
    requires Round(w, cur, a, ti, tj, trueType, xs, ys) && tj < a + |w| && Ring(w, tj) == Ring(w, ti)
    ensures Round(w, cur, a, ti, tj + 1, trueType, xs, ys)
  {
    hide Ring, EmboldenedPoint;
  }

  /** Moving the run by its corner's shift completes every point of it, and the last run completes
      the contour. */
  lemma RunMoved(w: seq<Pt>, cur: seq<Pt>, cur': seq<Pt>, a: nat, ti: nat, tj: nat, trueType: bool, xs: int, ys: int,
                 shift: Pt)
    requires Round(w, cur, a, ti, tj, trueType, xs, ys) && Ring(w, tj) != Ring(w, ti)
    requires shift == CornerShift(UnitEdge(Ring(w, ti + |w| - 1), Ring(w, ti)),
                                  UnitEdge(Ring(w, ti), Ring(w, tj)), trueType, xs, ys)
    requires RunShifted(cur, cur', Pos(|w|, ti), Pos(|w|, tj), shift, xs, ys)
    ensures Ring(w, tj + |w| - 1) == Ring(w, ti)
    ensures tj < a + |w| ==> Round(w, cur', a, tj, tj + 1, trueType, xs, ys)
    ensures tj == a + |w| ==> cur' == EmboldenedContour(w, trueType, xs, ys)
  {
    hide Ring, CornerShift, Moved, UnitEdge, Before, After;
    RunIsShort(w, cur, a, ti, tj, trueType, xs, ys);
    forall o | 0 <= o < |w|
      ensures cur'[o] == if Turn(|w|, a, o) < tj then EmboldenedPoint(w, o, trueType, xs, ys) else w[o]
    {
      var t := Turn(|w|, a, o);
      assert InRun(Pos(|w|, ti), Pos(|w|, tj), o) <==> ti <= t < tj;
      if ti <= t < tj {
        RunEdges(w, cur, a, ti, tj, trueType, xs, ys, t);
      }
    }
    NextRound(w, tj - 1);
    RingAt(w, ti, 0);
    RingAt(w, tj, 0);
  }

  /** The walk's variables in the round that starts at a. */
  ghost predicate Step(w: seq<Pt>, cur: seq<Pt>, s: Stage, first: nat, i: nat, j: nat, k: Option<nat>, inEdge: Norm,
                       anchorEdge: Norm, trueType: bool, xs: int, ys: int)
    requires s.Turning?
  {
    && Round(w, cur, s.a, s.ti, s.tj, trueType, xs, ys) && s.a < |w| && s.a <= s.ti
    && i == first + Pos(|w|, s.ti) && j == first + Pos(|w|, s.tj)
    && inEdge == UnitEdge(Ring(w, s.ti + |w| - 1), Ring(w, s.ti))
    && inEdge.length != 0
    && k == (if s.ti == s.a then None else Some(first + s.a))
    && (s.ti != s.a ==> anchorEdge == UnitEdge(Ring(w, s.a + |w| - 1), Ring(w, s.a)))
  }

  /** Turning, the loop does not end; and where it reads the anchor, that is the edge it would compute. */
  lemma StepReads(w: seq<Pt>, cur: seq<Pt>, s: Stage, first: nat, i: nat, j: nat, k: Option<nat>, inEdge: Norm,
                  anchorEdge: Norm, trueType: bool, xs: int, ys: int)
    requires s.Turning? && Step(w, cur, s, first, i, j, k, inEdge, anchorEdge, trueType, xs, ys)
    ensures s.tj <= 2 * |w| && first <= i < first + |w| == first + |cur| && first <= j < first + |w|
    ensures inEdge.length != 0 && i != j && k != Some(i) && cur[i - first] == Ring(w, s.ti)
    ensures k != Some(j) ==> s.tj < s.a + |w| && cur[j - first] == Ring(w, s.tj)
    ensures k == Some(j) ==> anchorEdge == UnitEdge(Ring(w, s.ti), Ring(w, s.tj)) && Ring(w, s.ti) != Ring(w, s.tj)
  {
    hide Ring, Round, UnitEdge;
    RunReads(w, cur, s.a, s.ti, s.tj, trueType, xs, ys);
    RunIsShort(w, cur, s.a, s.ti, s.tj, trueType, xs, ys);
    RoundBounds(w, cur, s.a, s.ti, s.tj, trueType, xs, ys);
  }

  /** The anchor is not a zero edge. */
  lemma AnchorLength(w: seq<Pt>, cur: seq<Pt>, s: Stage, first: nat, i: nat, j: nat, k: Option<nat>, inEdge: Norm,
                     anchorEdge: Norm, trueType: bool, xs: int, ys: int)
    requires s.Turning? && Step(w, cur, s, first, i, j, k, inEdge, anchorEdge, trueType, xs, ys)
    requires k == Some(j) && AllFit(w)
    ensures anchorEdge.length != 0
  {
    hide Round;
    RoundBounds(w, cur, s.a, s.ti, s.tj, trueType, xs, ys);
    RingAt(w, s.a, 0);
    RingAt(w, s.a + |w| - 1, 0);
    EdgeLength(Ring(w, s.a + |w| - 1), Ring(w, s.a));
  }

  lemma RoundBounds(w: seq<Pt>, cur: seq<Pt>, a: nat, ti: nat, tj: nat, trueType: bool, xs: int, ys: int)
    requires Round(w, cur, a, ti, tj, trueType, xs, ys)
    ensures a < |w| == |cur| && a <= ti < tj <= a + |w| && Ring(w, a + |w| - 1) != Ring(w, a)
  {
  }

  /** A point at the place of the run joins it. */
  lemma StepGrows(w: seq<Pt>, cur: seq<Pt>, s: Stage, first: nat, i: nat, j: nat, k: Option<nat>, inEdge: Norm,
                  anchorEdge: Norm, trueType: bool, xs: int, ys: int)
    requires s.Turning? && Step(w, cur, s, first, i, j, k, inEdge, anchorEdge, trueType, xs, ys)
    requires s.tj < s.a + |w| && Ring(w, s.tj) == Ring(w, s.ti)
    ensures Step(w, cur, s.(tj := s.tj + 1), first, i, NextContourIndex(j, first, first + |w| - 1), k, inEdge,
                 anchorEdge, trueType, xs, ys)
  {
    hide Ring, Round, UnitEdge;
    RunGrows(w, cur, s.a, s.ti, s.tj, trueType, xs, ys);
    RoundBounds(w, cur, s.a, s.ti, s.tj + 1, trueType, xs, ys);
  }

  /** At the edge out of the run its points are moved; the walk goes on from there or is done. */
  lemma StepTurns(w: seq<Pt>, cur: seq<Pt>, cur': seq<Pt>, s: Stage, first: nat, i: nat, j: nat, k: Option<nat>,
                  inEdge: Norm, anchorEdge: Norm, out: Norm, trueType: bool, xs: int, ys: int)
    requires s.Turning? && Step(w, cur, s, first, i, j, k, inEdge, anchorEdge, trueType, xs, ys)
    requires Ring(w, s.tj) != Ring(w, s.ti) && out == UnitEdge(Ring(w, s.ti), Ring(w, s.tj)) && out.length != 0
    requires |w| == |cur| && first <= i && first <= j
    requires RunShifted(cur, cur', i - first, j - first, CornerShift(inEdge, out, trueType, xs, ys), xs, ys)
    ensures s.tj < s.a + |w| ==>
      Step(w, cur', Turning(s.a, s.tj, s.tj + 1), first, j, NextContourIndex(j, first, first + |w| - 1),
           if k == None then Some(i) else k, out, if k == None then inEdge else anchorEdge, trueType, xs, ys)
    ensures s.tj >= s.a + |w| ==>
      (if k == None then Some(i) else k) == Some(j) && cur' == EmboldenedContour(w, trueType, xs, ys)
  {
    hide Ring, Round, UnitEdge, CornerShift, Moved, EmboldenedContour, RunShifted;
    RoundBounds(w, cur, s.a, s.ti, s.tj, trueType, xs, ys);
    RunIsShort(w, cur, s.a, s.ti, s.tj, trueType, xs, ys);
    RunMoved(w, cur, cur', s.a, s.ti, s.tj, trueType, xs, ys, CornerShift(inEdge, out, trueType, xs, ys));
  }

  lemma EdgeIs(p: Pt, q: Pt)
    ensures UnitEdge(p, q) == Capped(Newton.NormOf(Wrap32(q.x - p.x), Wrap32(q.y - p.y)))
  {
  }

  lemma StaysPut(w: seq<Pt>, trueType: bool, xs: int, ys: int)
    requires OnePlace(w)
    ensures EmboldenedContour(w, trueType, xs, ys) == w
  {
  }

  /** The first edge is found: the round starts. */
  lemma StepStarts(w: seq<Pt>, tj: nat, first: nat, out: Norm, anchorEdge: Norm, trueType: bool, xs: int, ys: int)
    requires tj + 1 < |w| && w[tj] != w[|w| - 1] && forall t :: 0 <= t < tj ==> w[t] == w[|w| - 1]
    requires out == UnitEdge(w[|w| - 1], w[tj]) && out.length != 0
    ensures
      Step(w, w, Turning(tj, tj, tj + 1), first, first + tj, first + tj + 1, None, out, anchorEdge, trueType, xs, ys)
  {
    hide Ring, Round, UnitEdge;
    Found(w, tj, trueType, xs, ys);
  }

  method OutEdge(points: array<Pt>, i: nat, j: nat) returns (out: Norm)
    requires i < points.Length && j < points.Length && AllFit(points[..])
    ensures out == UnitEdge(points[i], points[j])
    ensures out.length == 0 <==> points[i] == points[j]
  {
    hide UnitEdge, Newton.NormOf, Newton.UnitAndLength;
    assert points[i] == points[..][i] && points[j] == points[..][j];
    var dx, dy := Wrap32(points[j].x - points[i].x), Wrap32(points[j].y - points[i].y);
    var nx, ny, length, _, _ := Newton.VectorNormLen(dx, dy);
    out := Capped(Newton.Norm(nx, ny, length));
    EdgeIs(points[i], points[j]);
    EdgeLength(points[i], points[j]);
  }

  lemma PartFits(s: seq<Pt>, first: nat, last: nat)
    requires AllFit(s) && first <= last < |s|
    ensures AllFit(s[first..last + 1])
  {
  }

  /** `embolden_contour_points`: the walk ends for every contour.  If all points are at one place it
      changes nothing, and otherwise it moves each point exactly once, by the corner that the
      unmoved contour has there. */
  method EmboldenContourPoints(points: array<Pt>, first: nat, last: nat, trueType: bool, xs: int, ys: int)
    requires first <= last < points.Length && AllFit(points[..])
    modifies points
    ensures points[first..last + 1] == EmboldenedContour(old(points[first..last + 1]), trueType, xs, ys)
    ensures forall p :: 0 <= p < points.Length && !(first <= p <= last) ==> points[p] == old(points[p])
    ensures AllFit(points[..])
  {
    hide Ring, CornerShift, Moved, EmboldenedPoint, UnitEdge, Round, Step, AllFit, RunShifted, EmboldenedContour;
    ghost var w, n := points[first..last + 1], last + 1 - first;
    PartFits(points[..], first, last);
    var inEdge, anchorEdge := Newton.Norm(0, 0, 0), Newton.Norm(0, 0, 0);
    var i, j := last, first;
    var k: Option<nat> := None;
    ghost var stage := Searching(0);
    while j != i && k != Some(i)
      invariant first <= i <= last && first <= j <= last && AllFit(points[..])
      invariant forall p :: 0 <= p < points.Length && !(first <= p <= last) ==> points[p] == old(points[p])
      invariant stage.Searching? ==>
        points[first..last + 1] == w && inEdge.length == 0 && i == last && j == first + stage.tj && k == None &&
        forall t :: 0 <= t < stage.tj ==> w[t] == w[n - 1]
      invariant stage.Turning? ==>
        Step(w, points[first..last + 1], stage, first, i, j, k, inEdge, anchorEdge, trueType, xs, ys)
      invariant stage.Done? ==> k == Some(i) && points[first..last + 1] == EmboldenedContour(w, trueType, xs, ys)
      decreases match stage
                case Searching(tj) => 3 * n + (n - tj)
                case Turning(_, _, tj) => 2 * n - tj + 1
                case Done => 0
    {
      var out;
      ghost var cur := points[first..last + 1];
      assert cur[i - first] == points[i] && cur[j - first] == points[j];
      if stage.Turning? {
        StepReads(w, cur, stage, first, i, j, k, inEdge, anchorEdge, trueType, xs, ys);
      }
      if k != Some(j) {
        out := OutEdge(points, i, j);
        if out.length == 0 {
          if stage.Turning? {
            StepGrows(w, cur, stage, first, i, j, k, inEdge, anchorEdge, trueType, xs, ys);
          }
          j := NextContourIndex(j, first, last);
          stage := stage.(tj := stage.tj + 1);
          continue;
        }
      } else {
        out := anchorEdge;
        AnchorLength(w, cur, stage, first, i, j, k, inEdge, anchorEdge, trueType, xs, ys);
      }
      if inEdge.length != 0 {
        ghost var anchorWas, kWas := anchorEdge, k;
        if k == None {
          k := Some(i);
          anchorEdge := inEdge;
        }
        ghost var iWas := i;
        i := ShiftRun(points, first, last, i, j, CornerShift(inEdge, out, trueType, xs, ys), xs, ys);
        ghost var cur' := points[first..last + 1];
        StepTurns(w, cur, cur', stage, first, iWas, j, kWas, inEdge, anchorWas, out, trueType, xs, ys);
        stage := if stage.tj < stage.a + n then Turning(stage.a, stage.tj, stage.tj + 1) else Done;
      } else {
        i := j;
        StepStarts(w, stage.tj, first, out, anchorEdge, trueType, xs, ys);
        stage := Turning(stage.tj, stage.tj, stage.tj + 1);
      }
      inEdge := out;
      j := NextContourIndex(j, first, last);
    }
    if stage.Searching? {
      assert OnePlace(w);
      StaysPut(w, trueType, xs, ys);
    } else if stage.Turning? {
      StepReads(w, points[first..last + 1], stage, first, i, j, k, inEdge, anchorEdge, trueType, xs, ys);
    }
  }

  // ---------------------------------------------------------------- the outline

  /** Every contour from `first` on emboldened, then what follows the last one. */
  ghost function EmboldenedFrom(s: seq<Pt>, ends: seq<int>, first: nat, trueType: bool, xs: int, ys: int): (r: seq<Pt>)
    requires ValidEnds(ends, first, |s|) && first <= |s|
    ensures |r| == |s| - first
    decreases |ends|
  {
    if ends == [] then s[first..]
    else
      var head := EmboldenedContour(s[first..ends[0] + 1], trueType, xs, ys);
      head + EmboldenedFrom(s, ends[1..], ends[0] + 1, trueType, xs, ys)
  }

  /** What emboldening makes of an outline: half the strength at every corner, outwards by the
      orientation, and nothing where no orientation is decided. */
  ghost function EmboldenedOutline(s: seq<Pt>, contours: seq<int>, nContours: int, xStrength: int, yStrength: int)
    : (r: seq<Pt>)
    ensures |r| == |s|
  {
    var xs, ys := TruncDiv(xStrength, 2), TruncDiv(yStrength, 2);
    var o := OrientationOf(s, contours, nContours);
    if (xs == 0 && ys == 0) || s == [] || o == Undecided then s
    else EmboldenedFrom(s, contours[..nContours], 0, o == TrueType, xs, ys)
  }

  /** The contours before position `first` are emboldened, the others as they were. */
  ghost predicate Progress(s: seq<Pt>, cur: seq<Pt>, ends: seq<int>, c: nat, first: nat, trueType: bool, xs: int,
                           ys: int)
    requires ValidEnds(ends, 0, |s|) && c <= |ends|
  {
    && ValidEnds(ends[c..], first, |s|) && first <= |s| == |cur| && cur[first..] == s[first..]
    && cur[..first] + EmboldenedFrom(s, ends[c..], first, trueType, xs, ys)
      == EmboldenedFrom(s, ends, 0, trueType, xs, ys)
  }

  lemma ProgressStarts(s: seq<Pt>, ends: seq<int>, trueType: bool, xs: int, ys: int)
    requires ValidEnds(ends, 0, |s|)
    ensures Progress(s, s, ends, 0, 0, trueType, xs, ys)
  {
    hide EmboldenedFrom;
    assert ends[0..] == ends;
    assert s[..0] == [];
  }

  lemma NextEnd(s: seq<Pt>, cur: seq<Pt>, ends: seq<int>, c: nat, first: nat, trueType: bool, xs: int, ys: int)
    requires ValidEnds(ends, 0, |s|) && c < |ends| && Progress(s, cur, ends, c, first, trueType, xs, ys)
    ensures first <= ends[c] < |s| == |cur|
  {
  }

  lemma ProgressStep(s: seq<Pt>, was: seq<Pt>, cur: seq<Pt>, ends: seq<int>, c: nat, first: nat, trueType: bool,
                     xs: int, ys: int)
    requires ValidEnds(ends, 0, |s|) && c < |ends| && Progress(s, was, ends, c, first, trueType, xs, ys)
    requires |cur| == |was| && first <= ends[c] < |was|
    requires cur[first..ends[c] + 1] == EmboldenedContour(was[first..ends[c] + 1], trueType, xs, ys)
    requires forall p :: 0 <= p < |cur| && !(first <= p <= ends[c]) ==> cur[p] == was[p]
    ensures Progress(s, cur, ends, c + 1, ends[c] + 1, trueType, xs, ys)
  {
    hide EmboldenedContour, EmboldenedFrom;
    var end := ends[c] + 1;
    Slices(s, was, cur, first, end);
    FromUnfold(s, ends, c, first, trueType, xs, ys);
    Regroup(was[..first], cur[first..end], EmboldenedFrom(s, ends[c + 1..], end, trueType, xs, ys));
  }

  lemma Slices(s: seq<Pt>, was: seq<Pt>, cur: seq<Pt>, first: nat, end: nat)
    requires |s| == |was| == |cur| && first <= end <= |s| && was[first..] == s[first..]
    requires forall p :: 0 <= p < |cur| && !(first <= p < end) ==> cur[p] == was[p]
    ensures was[first..end] == s[first..end] && cur[end..] == s[end..] && cur[..end] == was[..first] + cur[first..end]
  {
    assert was[first..end] == was[first..][..end - first];
    assert s[first..end] == s[first..][..end - first];
    assert cur[end..] == was[end..] == was[first..][end - first..];
    assert s[end..] == s[first..][end - first..];
  }

  lemma Regroup(a: seq<Pt>, b: seq<Pt>, c: seq<Pt>)
    ensures a + (b + c) == (a + b) + c
  {
  }

  lemma FromUnfold(s: seq<Pt>, ends: seq<int>, c: nat, first: nat, trueType: bool, xs: int, ys: int)
    requires c < |ends| && ValidEnds(ends[c..], first, |s|) && first <= |s|
    ensures first <= ends[c] < |s| && ValidEnds(ends[c + 1..], ends[c] + 1, |s|)
    ensures EmboldenedFrom(s, ends[c..], first, trueType, xs, ys)
         == EmboldenedContour(s[first..ends[c] + 1], trueType, xs, ys)
          + EmboldenedFrom(s, ends[c + 1..], ends[c] + 1, trueType, xs, ys)
  {
    hide EmboldenedContour;
    assert ends[c..][0] == ends[c] && ends[c..][1..] == ends[c + 1..];
  }

  lemma ProgressEnds(s: seq<Pt>, cur: seq<Pt>, ends: seq<int>, first: nat, trueType: bool, xs: int, ys: int)
    requires ValidEnds(ends, 0, |s|) && Progress(s, cur, ends, |ends|, first, trueType, xs, ys)
    ensures cur == EmboldenedFrom(s, ends, 0, trueType, xs, ys)
  {
    assert ends[|ends|..] == [];
    assert cur == cur[..first] + cur[first..];
  }

  lemma OutlineIs(s: seq<Pt>, contours: seq<int>, nContours: int, xStrength: int, yStrength: int)
    ensures var xs, ys := TruncDiv(xStrength, 2), TruncDiv(yStrength, 2);
            var o, e := OrientationOf(s, contours, nContours),
              EmboldenedOutline(s, contours, nContours, xStrength, yStrength);
            if (xs == 0 && ys == 0) || s == [] || o == Undecided then e == s
            else 0 <= nContours <= |contours| && ValidEnds(contours[..nContours], 0, |s|)
                 && e == EmboldenedFrom(s, contours[..nContours], 0, o == TrueType, xs, ys)
  {
    hide EmboldenedFrom, Cbox, Unusable, TotalArea;
  }

  /** `embolden_outline`. */
  method EmboldenOutline(points: array<Pt>, contours: seq<int>, nContours: int, xStrength: int, yStrength: int)
    requires AllFit(points[..])
    modifies points
    ensures points[..] == EmboldenedOutline(old(points[..]), contours, nContours, xStrength, yStrength)
  {
    hide EmboldenedContour, EmboldenedFrom, OrientationOf, EmboldenedOutline, Progress, AllFit, TruncDiv;
    OutlineIs(points[..], contours, nContours, xStrength, yStrength);
    var xs, ys := TruncDiv(xStrength, 2), TruncDiv(yStrength, 2);
    if xs == 0 && ys == 0 {
      return;
    }
    var orientation := OutlineOrientation(points[..], contours, nContours);
    if orientation == Undecided {
      return;
    }
    if nContours < 0 || nContours > |contours| {
      return;
    }
    ghost var s, ends := points[..], contours[..nContours];
    if s != [] {
      ProgressStarts(s, ends, orientation == TrueType, xs, ys);
    }
    var previousLast := -1;
    for c := 0 to nContours
      invariant -1 <= previousLast < points.Length && AllFit(points[..])
      invariant s == [] ==> points[..] == s
      invariant s != [] ==> Progress(s, points[..], ends, c, previousLast + 1, orientation == TrueType, xs, ys)
    {
      var first, last := previousLast + 1, contours[c];
      if s != [] {
        NextEnd(s, points[..], ends, c, first, orientation == TrueType, xs, ys);
      }
      if last < first {
        return;
      }
      if last >= points.Length {
        return;
      }
      ghost var was := points[..];
      EmboldenContourPoints(points, first, last, orientation == TrueType, xs, ys);
      assert points[first..last + 1] == points[..][first..last + 1] && old(points[..]) == s;
      ProgressStep(s, was, points[..], ends, c, first, orientation == TrueType, xs, ys);
      previousLast := last;
    }
    if s != [] {
      ProgressEnds(s, points[..], ends, previousLast + 1, orientation == TrueType, xs, ys);
    }
  }

  // ---------------------------------------------------------------- emboldening and reversal

  /** Where point o is when the contour is turned around. */
  function Mirror(n: nat, o: nat): nat
    requires o < n
  {
    if o == 0 then 0 else n - o
  }

  lemma TurnedAt(w: seq<Pt>, o: nat)
    requires o < |w|
    ensures |Turned(w)| == |w| && Mirror(|w|, o) < |w|
    ensures Turned(w)[Mirror(|w|, o)] == w[o] && Turned(w)[o] == w[Mirror(|w|, o)]
  {
    TurnedElement(w, o);
    TurnedElement(w, Mirror(|w|, o));
  }

  lemma TurnedElement(w: seq<Pt>, k: nat)
    requires k < |w|
    ensures |Turned(w)| == |w| && Turned(w)[k] == w[Mirror(|w|, k)]
  {
    if k > 0 {
      assert Turned(w)[k] == Backwards(w[1..])[k - 1] == w[1..][|w| - 1 - k];
    }
  }

  lemma TurnedRing(w: seq<Pt>, o: nat, d: nat)
    requires o < |w| && d <= |w|
    ensures |Turned(w)| == |w| && Mirror(|w|, o) < |w|
    ensures Ahead(Turned(w), Mirror(|w|, o), d) == Behind(w, o, d)
    ensures Behind(Turned(w), Mirror(|w|, o), d) == Ahead(w, o, d)
  {
    hide Ring, Turned;
    var n, m := |w|, Mirror(|w|, o);
    TurnedAt(w, 0);
    RingAt(Turned(w), m + d, 0);
    RingAt(w, o + n - d, 0);
    TurnedAt(w, Pos(n, o + n - d));
    RingAt(Turned(w), m + n - d, 0);
    RingAt(w, o + d, 0);
    TurnedAt(w, Pos(n, o + d));
  }

  /** In the turned contour before and after change places. */
  lemma {:induction false} TurnedNeighbours(w: seq<Pt>, o: nat, d: nat)
    requires o < |w|
    ensures |Turned(w)| == |w| && Mirror(|w|, o) < |w|
    ensures After(Turned(w), Mirror(|w|, o), d) == Before(w, o, d)
    ensures Before(Turned(w), Mirror(|w|, o), d) == After(w, o, d)
    decreases |w| - d
  {
    hide Ahead, Behind, Turned;
    TurnedAt(w, o);
    if d < |w| {
      TurnedRing(w, o, d);
      TurnedNeighbours(w, o, d + 1);
    }
  }

  function Backward(n: Norm): Norm {
    Newton.Norm(-n.x, -n.y, n.length)
  }

  /** Coordinates for which an orientation is decided. */
  ghost predicate Small(w: seq<Pt>) {
    forall o :: 0 <= o < |w| ==> -LIMIT <= w[o].x <= LIMIT && -LIMIT <= w[o].y <= LIMIT
  }

  lemma EdgeBackward(w: seq<Pt>, p: Pt, q: Pt)
    requires Small(w) && p in w && q in w
    ensures UnitEdge(q, p) == Backward(UnitEdge(p, q))
  {
    hide Newton.NormOf;
    Newton.NormIsOdd(q.x - p.x, q.y - p.y);
    assert Wrap32(q.x - p.x) == q.x - p.x && Wrap32(p.x - q.x) == -(q.x - p.x);
    assert Wrap32(q.y - p.y) == q.y - p.y && Wrap32(p.y - q.y) == -(q.y - p.y);
  }

  /** Coming the other way, with the other orientation, a corner moves to the same place. */
  lemma CornerBackward(inn: Norm, out: Norm, trueType: bool, xs: int, ys: int)
    ensures CornerShift(Backward(out), Backward(inn), !trueType, xs, ys) == CornerShift(inn, out, trueType, xs, ys)
  {
    hide MulFixLong, MulDiv, Wrap32;
    SameProduct(inn.x, out.x);
    SameProduct(inn.y, out.y);
    SameProduct(out.x, inn.y);
    SameProduct(out.y, inn.x);
    WrapNegated(inn.x + out.x);
    WrapNegated(inn.y + out.y);
    WrapNegated(MulFix(out.x, inn.y) - MulFix(out.y, inn.x));
  }

  lemma SameProduct(a: int, b: int)
    ensures MulFix(-b, -a) == MulFix(a, b) == MulFix(b, a)
  {
    assert (-b) * (-a) == a * b == b * a;
  }

  lemma WrapNegated(v: int)
    ensures Wrap32(-Wrap32(v)) == Wrap32(-v) && Wrap32(-Wrap32(-v)) == Wrap32(v)
  {
    WrapScale(v, -1);
    WrapScale(-v, -1);
  }

  lemma {:induction false} NeighboursInside(w: seq<Pt>, o: nat, d: nat)
    requires o < |w|
    ensures After(w, o, d) in w && Before(w, o, d) in w
    decreases |w| - d
  {
    hide Ring;
    if d < |w| {
      RingAt(w, o + d, 0);
      RingAt(w, o + |w| - d, 0);
      NeighboursInside(w, o, d + 1);
    }
  }

  /** Emboldening the turned contour with the other orientation turns the emboldened contour. */
  lemma TurnedEmbolden(w: seq<Pt>, trueType: bool, xs: int, ys: int)
    requires Small(w)
    ensures EmboldenedContour(Turned(w), !trueType, xs, ys) == Turned(EmboldenedContour(w, trueType, xs, ys))
  {
    hide Turned, EmboldenedPoint;
    var n, t, e := |w|, Turned(w), EmboldenedContour(w, trueType, xs, ys);
    if w == [] {
      assert Turned(w) == [] by { TurnedLength(w); }
      return;
    }
    TurnedLength(w);
    TurnedLength(e);
    TurnedOnePlace(w);
    var a, b := EmboldenedContour(t, !trueType, xs, ys), Turned(e);
    forall k | 0 <= k < n ensures a[k] == b[k] {
      var o := Mirror(n, k);
      TurnedAt(w, o);
      TurnedAt(e, o);
      TurnedPoint(w, o, trueType, xs, ys);
    }
  }

  lemma TurnedLength(w: seq<Pt>)
    ensures |Turned(w)| == |w|
  {
  }

  lemma TurnedOnePlace(w: seq<Pt>)
    ensures OnePlace(Turned(w)) <==> OnePlace(w)
  {
    hide Turned;
    TurnedLength(w);
    forall o | 0 <= o < |w|
      ensures Mirror(|w|, o) < |w| && Turned(w)[o] == w[Mirror(|w|, o)] && Turned(w)[Mirror(|w|, o)] == w[o]
    {
      TurnedAt(w, o);
    }
  }

  lemma TurnedPoint(w: seq<Pt>, o: nat, trueType: bool, xs: int, ys: int)
    requires Small(w) && o < |w|
    ensures |Turned(w)| == |w| && Mirror(|w|, o) < |w|
    ensures EmboldenedPoint(Turned(w), Mirror(|w|, o), !trueType, xs, ys) == EmboldenedPoint(w, o, trueType, xs, ys)
  {
    hide Turned, CornerShift, UnitEdge, Small;
    TurnedAt(w, o);
    TurnedNeighbours(w, o, 1);
    NeighboursInside(w, o, 1);
    var p, q, r := Before(w, o, 1), w[o], After(w, o, 1);
    EdgeBackward(w, p, q);
    EdgeBackward(w, q, r);
    CornerBackward(UnitEdge(p, q), UnitEdge(q, r), trueType, xs, ys);
  }

  /** Every contour from `first` on turned around, then what follows the last one. */
  ghost function TurnedFrom(s: seq<Pt>, ends: seq<int>, first: nat): (r: seq<Pt>)
    requires ValidEnds(ends, first, |s|) && first <= |s|
    ensures |r| == |s| - first
    decreases |ends|
  {
    if ends == [] then s[first..]
    else
      var head := s[first..ends[0] + 1];
      TurnedLength(head);
      Turned(head) + TurnedFrom(s, ends[1..], ends[0] + 1)
  }

  lemma {:induction false} ReversedIsTurned(s: seq<Pt>, ends: seq<int>, first: nat)
    requires ValidEnds(ends, first, |s|) && first <= |s|
    ensures Reversed(s, ends, first)[first..] == TurnedFrom(s, ends, first)
    decreases |ends|
  {
    hide Turned;
    if ends != [] {
      var r, end := Reversed(s, ends, first), ends[0] + 1;
      hide Reversed;
      ReversedContour(s, ends, first);
      ReversedIsTurned(s, ends[1..], end);
      assert r[first..] == r[first..end] + r[end..];
    }
  }

  /** The same, contour by contour, for a reversed and an emboldened outline. */
  lemma {:induction false} EmboldenedTurned(s: seq<Pt>, r: seq<Pt>, e: seq<Pt>, ends: seq<int>, first: nat,
                                            trueType: bool, xs: int, ys: int)
    requires |s| == |r| == |e| && ValidEnds(ends, first, |s|) && first <= |s| && Small(s)
    requires r[first..] == TurnedFrom(s, ends, first) && e[first..] == EmboldenedFrom(s, ends, first, trueType, xs, ys)
    ensures EmboldenedFrom(r, ends, first, !trueType, xs, ys) == TurnedFrom(e, ends, first)
    decreases |ends|
  {
    hide Turned, EmboldenedContour;
    if ends != [] {
      var end := ends[0] + 1;
      var head := s[first..end];
      TurnedLength(head);
      Heads(r, first, end, Turned(head), TurnedFrom(s, ends[1..], end));
      Heads(e, first, end, EmboldenedContour(head, trueType, xs, ys),
            EmboldenedFrom(s, ends[1..], end, trueType, xs, ys));
      TurnedEmbolden(head, trueType, xs, ys);
      EmboldenedTurned(s, r, e, ends[1..], end, trueType, xs, ys);
    } else {
      assert r[first..] == s[first..] == e[first..];
    }
  }

  lemma Heads(r: seq<Pt>, first: nat, end: nat, head: seq<Pt>, tail: seq<Pt>)
    requires first <= end <= |r| && |head| == end - first && r[first..] == head + tail
    ensures r[first..end] == head && r[end..] == tail
  {
    assert r[first..end] == r[first..][..end - first];
    assert r[end..] == r[first..][end - first..];
  }

  /** Emboldening commutes with reversal: a reversed outline, whose orientation is the other one, is
      emboldened to the reversed emboldened outline, whatever the strengths. */
  lemma ReversalCommutesWithEmbolden(s: seq<Pt>, contours: seq<int>, xStrength: int, yStrength: int)
    requires s != [] && ValidEnds(contours, 0, |s|)
    ensures EmboldenedOutline(Reversed(s, contours, 0), contours, |contours|, xStrength, yStrength)
         == Reversed(EmboldenedOutline(s, contours, |contours|, xStrength, yStrength), contours, 0)
  {
    hide OrientationOf, Reversed, EmboldenedOutline, EmboldenedFrom, TurnedFrom;
    var r, e := Reversed(s, contours, 0), EmboldenedOutline(s, contours, |contours|, xStrength, yStrength);
    var xs, ys := TruncDiv(xStrength, 2), TruncDiv(yStrength, 2);
    var o := OrientationOf(s, contours, |contours|);
    ReversalFlipsOrientation(s, contours);
    OutlineIs(s, contours, |contours|, xStrength, yStrength);
    OutlineIs(r, contours, |contours|, xStrength, yStrength);
    assert contours[..|contours|] == contours;
    if !((xs == 0 && ys == 0) || o == Undecided) {
      SmallWhenDecided(s, contours, |contours|);
      ReversedIsTurned(s, contours, 0);
      ReversedIsTurned(e, contours, 0);
      assert r[0..] == r && e[0..] == e && Reversed(e, contours, 0)[0..] == Reversed(e, contours, 0);
      EmboldenedTurned(s, r, e, contours, 0, o == TrueType, xs, ys);
    }
  }

  lemma SmallWhenDecided(s: seq<Pt>, contours: seq<int>, nContours: int)
    requires s != [] && OrientationOf(s, contours, nContours) != Undecided
    ensures Small(s)
  {
    hide TotalArea;
    assert IsCbox(s, Cbox(s));
    forall o | 0 <= o < |s| ensures -LIMIT <= s[o].x <= LIMIT && -LIMIT <= s[o].y <= LIMIT {
      assert s[o] in s;
    }
  }

  // ---------------------------------------------------------------- what a corner's shift means

  /** A unit vector in 16.16, up to the tolerance of the Newton iteration. */
  ghost predicate IsUnit(n: Norm) {
    TWO_32 - Newton.SLACK <= n.x * n.x + n.y * n.y <= TWO_32 + Newton.SLACK
  }

  /** Every edge that is not skipped has a unit direction. */
  lemma EdgeIsUnit(p: Pt, q: Pt)
    requires Fits(p) && Fits(q) && p != q
    ensures IsUnit(UnitEdge(p, q))
  {
    SameCoordinate(p.x, q.x);
    SameCoordinate(p.y, q.y);
    Newton.NormIsUnit(Wrap32(q.x - p.x), Wrap32(q.y - p.y));
    hide Newton.NormOf;
  }

  /** The cosine of the angle between two edges as the source rounds it. */
  function Cosine(inn: Norm, out: Norm): int {
    Wrap32(MulFix(inn.x, out.x) + MulFix(inn.y, out.y))
  }

  /** The sine of the turn to the outer side. */
  function Sine(inn: Norm, out: Norm, trueType: bool): int {
    var q := Wrap32(MulFix(out.x, inn.y) - MulFix(out.y, inn.x));
    if trueType then Wrap32(-q) else q
  }

  /** The strength is not limited by the shorter edge. */
  predicate Roomy(inn: Norm, out: Norm, trueType: bool, s: int) {
    MulFix(s, Sine(inn, out, trueType)) <= MulFix(Min(inn.length, out.length), Wrap32(Cosine(inn, out) + Newton.ONE))
  }

  /** How far a shift moves the line of an edge to the outer side, in 1/2^16. */
  function Outwards(n: Norm, shift: Pt, trueType: bool): int {
    if trueType then n.x * shift.y - n.y * shift.x else n.y * shift.x - n.x * shift.y
  }

  lemma UnitBounds(n: Norm)
    requires IsUnit(n)
    ensures Abs(n.x) <= 65537 && Abs(n.y) <= 65537 && Abs(n.x) + Abs(n.y) <= 92684
  {
    SquareOfAbs(n.x);
    SquareOfAbs(n.y);
    Newton.ComponentBounds(Abs(n.x), Abs(n.y), n.x * n.x + n.y * n.y);
  }

  lemma SquareOfAbs(v: int)
    ensures Abs(v) * Abs(v) == v * v
  {
  }

  lemma SmallProduct(a: int, b: int, m: nat, n: nat)
    requires Abs(a) <= m && Abs(b) <= n
    ensures Abs(a * b) <= m * n
  {
    AbsProduct(a, b);
    Newton.ProductMonotone(Abs(a), m, Abs(b), n);
  }

  /** A rounded product of unit components. */
  lemma UnitProduct(a: int, b: int)
    requires Abs(a) <= 65537 && Abs(b) <= 65537
    ensures 2 * Abs(a * b - Newton.ONE * MulFix(a, b)) <= Newton.ONE
  {
    hide MulFixLong, Wrap32;
    SmallProduct(a, b, 65537, 65537);
    MulFixRounds(a, b);
    RoundedFits(a * b, MulFixLong(a, b));
  }

  /** The rounded cosine is the scalar product. */
  lemma CosineMeaning(inn: Norm, out: Norm)
    requires IsUnit(inn) && IsUnit(out)
    ensures Abs(inn.x * out.x + inn.y * out.y - Newton.ONE * Cosine(inn, out)) <= Newton.ONE
    ensures Abs(Cosine(inn, out)) < 0x3_0000
  {
    UnitBounds(inn);
    UnitBounds(out);
    UnitProduct(inn.x, out.x);
    UnitProduct(inn.y, out.y);
    SmallProduct(inn.x, out.x, 65537, 65537);
    SmallProduct(inn.y, out.y, 65537, 65537);
    hide MulFix, IsUnit;
    CosineFrom(inn.x * out.x, inn.y * out.y, MulFix(inn.x, out.x), MulFix(inn.y, out.y));
  }

  lemma CosineFrom(p: int, q: int, mp: int, mq: int)
    requires 2 * Abs(p - Newton.ONE * mp) <= Newton.ONE && 2 * Abs(q - Newton.ONE * mq) <= Newton.ONE
    requires Abs(p) <= 65537 * 65537 && Abs(q) <= 65537 * 65537
    ensures Wrap32(mp + mq) == mp + mq && Abs(mp + mq) < 0x3_0000
    ensures Abs(p + q - Newton.ONE * (mp + mq)) <= Newton.ONE
  {
  }

  /** One coordinate of the shift: the rounded quotient. */
  lemma ShiftQuotient(v: int, s: int, d: int)
    requires Abs(v) <= 131074 && Abs(s) <= LIMIT && 0x1000 <= d <= 0x4_0000
    ensures 2 * Abs(v * s - MulDiv(v, s, d) * d) <= d
  {
    SmallProduct(v, s, 131074, LIMIT);
    AbsProduct(v, s);
    SmallQuotientFits(Abs(v) * Abs(s), d);
    MulDivRounds(v, s, d);
    hide MulDivLong;
    var r := MulDivLong(v, s, d);
    assert 2 * Abs(v * s - r * d) <= d;
    QuotientBound(r, d, v * s);
  }

  lemma QuotientBound(r: int, d: int, n: int)
    requires 0x1000 <= d <= 0x4_0000 && 2 * Abs(n - r * d) <= d && Abs(n) <= 131074 * LIMIT
    ensures Is32(r) && Wrap32(r) == r
  {
    if r >= 0x3000_0000 {
      MulMonotone(0x3000_0000, r, d);
    } else if r <= -0x3000_0000 {
      MulMonotone(r, -0x3000_0000, d);
    }
  }

  /** The direction of a corner's shift: the sum of its edges, turned to the outer side. */
  function Bisector(inn: Norm, out: Norm, trueType: bool): Pt {
    if trueType then Pt(-(inn.y + out.y), inn.x + out.x) else Pt(inn.y + out.y, -(inn.x + out.x))
  }

  /** One coordinate of the shift: v s / d with room, and v l / q without. */
  function AxisShift(inn: Norm, out: Norm, trueType: bool, v: int, s: int): int {
    if Roomy(inn, out, trueType, s) then MulDiv(v, s, Cosine(inn, out) + Newton.ONE)
    else MulDiv(v, Min(inn.length, out.length), Sine(inn, out, trueType))
  }

  lemma ShiftByAxis(inn: Norm, out: Norm, trueType: bool, xs: int, ys: int)
    requires Abs(inn.x) <= 65537 && Abs(inn.y) <= 65537 && Abs(out.x) <= 65537 && Abs(out.y) <= 65537
    requires -0xF000 < Cosine(inn, out) < 0x3_0000
    ensures var v := Bisector(inn, out, trueType);
            CornerShift(inn, out, trueType, xs, ys)
            == Pt(AxisShift(inn, out, trueType, v.x, xs), AxisShift(inn, out, trueType, v.y, ys))
  {
    hide MulFix, MulDiv, Wrap32;
    Unwrapped(Cosine(inn, out) + Newton.ONE);
    Unwrapped(inn.x + out.x);
    Unwrapped(inn.y + out.y);
    Unwrapped(-(inn.x + out.x));
    Unwrapped(-(inn.y + out.y));
  }

  lemma Unwrapped(v: int)
    requires Is32(v)
    ensures Wrap32(v) == v
  {
  }

  lemma Commuted(inn: Norm, out: Norm)
    ensures Cosine(inn, out) == Cosine(out, inn) && inn.x * out.x == out.x * inn.x && inn.y * out.y == out.y * inn.y
  {
    SameProduct(inn.x, out.x);
    SameProduct(inn.y, out.y);
  }

  /** What two strengths make of an edge n at a corner with an edge m: weights that add up to the
      scalar product of n and n + m. */
  function Weighted(n: Norm, m: Norm, xs: int, ys: int): int {
    xs * (n.y * (n.y + m.y)) + ys * (n.x * (n.x + m.x))
  }

  /** n moves outwards by its weighted strengths, divided by d, and by s where only s counts. */
  ghost predicate Offset(n: Norm, m: Norm, shift: Pt, trueType: bool, xs: int, ys: int, d: int) {
    var off := Outwards(n, shift, trueType);
    && 2 * Abs(d * off - Weighted(n, m, xs, ys)) <= 92684 * d
    && (xs == ys || n.x == 0 ==> d * Abs(off - Newton.ONE * xs) <= 0x5_0000 * xs + 46342 * d)
    && (n.y == 0 ==> d * Abs(off - Newton.ONE * ys) <= 0x5_0000 * ys + 46342 * d)
  }

  /** The offset of one edge, from the rounded coordinates of the shift. */
  lemma OneEdge(inn: Norm, out: Norm, xs: nat, ys: nat, d: nat, v: Pt, shift: Pt)
    requires IsUnit(inn) && d == Cosine(inn, out) + Newton.ONE
    requires Abs(inn.x * out.x + inn.y * out.y - Newton.ONE * Cosine(inn, out)) <= Newton.ONE
    requires Abs(inn.x) + Abs(inn.y) <= 92684 && v == Bisector(inn, out, true)
    requires 2 * Abs(v.x * xs - shift.x * d) <= d && 2 * Abs(v.y * ys - shift.y * d) <= d
    ensures Offset(inn, out, shift, true, xs, ys, d)
  {
    var a, b, off := inn.x, inn.y, Outwards(inn, shift, true);
    var ex, ey := v.x * xs - shift.x * d, v.y * ys - shift.y * d;
    var n := a * a + b * b + (a * out.x + b * out.y);
    assert Abs(n - Newton.ONE * d) <= 0x5_0000 by {
      hide Cosine;
    }
    hide Cosine, IsUnit;
    WeightedExpansion(inn, out, shift, xs, ys, d, ex, ey);
    RoundingError(a, ey, d);
    RoundingError(b, ex, d);
    Distribute(d, Abs(a), Abs(b));
    MulMonotone(Abs(a) + Abs(b), 92684, d);
    OneStrength(inn, out, xs, ys);
    hide Weighted, Outwards;
    if xs == ys || a == 0 {
      FromWeighted(d, off, n, xs);
    }
    if b == 0 {
      FromWeighted(d, off, n, ys);
    }
  }

  lemma WeightedExpansion(inn: Norm, out: Norm, shift: Pt, xs: int, ys: int, d: int, ex: int, ey: int)
    requires var v := Bisector(inn, out, true); ex == v.x * xs - shift.x * d && ey == v.y * ys - shift.y * d
    ensures d * Outwards(inn, shift, true) - Weighted(inn, out, xs, ys) == inn.y * ex - inn.x * ey
  {
    var a, b, v := inn.x, inn.y, Bisector(inn, out, true);
    var w, z := a * shift.y, b * shift.x;
    Distribute(d, w, -z);
    assert d * w == a * (shift.y * d) && d * z == b * (shift.x * d) && d * -z == -(d * z);
    Distribute(a, v.y * ys, -(shift.y * d));
    Distribute(b, v.x * xs, -(shift.x * d));
    assert a * -(shift.y * d) == -(a * (shift.y * d)) && b * -(shift.x * d) == -(b * (shift.x * d));
    assert a * (v.y * ys) == ys * (a * v.y) && b * (v.x * xs) == xs * (b * v.x);
    assert b * v.x == -(b * (b + out.y)) && xs * -(b * (b + out.y)) == -(xs * (b * (b + out.y)));
  }

  lemma OneStrength(n: Norm, m: Norm, xs: int, ys: int)
    ensures var t := n.x * n.x + n.y * n.y + (n.x * m.x + n.y * m.y);
            && (xs == ys || n.x == 0 ==> Weighted(n, m, xs, ys) == xs * t)
            && (n.y == 0 ==> Weighted(n, m, xs, ys) == ys * t)
  {
    Distribute(n.x, n.x, m.x);
    Distribute(n.y, n.y, m.y);
    var p, q := n.x * (n.x + m.x), n.y * (n.y + m.y);
    assert n.x * n.x + n.y * n.y + (n.x * m.x + n.y * m.y) == q + p;
    Distribute(xs, q, p);
  }

  lemma FromWeighted(d: nat, off: int, n: int, s: nat)
    requires 2 * Abs(d * off - s * n) <= 92684 * d && Abs(n - Newton.ONE * d) <= 0x5_0000
    ensures d * Abs(off - Newton.ONE * s) <= 0x5_0000 * s + 46342 * d
  {
    SmallProduct(s, n - Newton.ONE * d, s, 0x5_0000);
    MainTerm(s, n, d);
    Distribute(d, off, -(Newton.ONE * s));
    assert d * -(Newton.ONE * s) == -(Newton.ONE * (s * d));
    AbsProduct(d, off - Newton.ONE * s);
  }

  lemma MainTerm(s: int, n: int, d: int)
    ensures s * (n - Newton.ONE * d) == s * n - Newton.ONE * (s * d)
  {
    Distribute(s, n, -(Newton.ONE * d));
    assert s * (Newton.ONE * d) == Newton.ONE * (s * d);
  }

  lemma AddErrors(total: int, main: int, e1: int, e2: int, bound: int, b1: int, b2: int, b: int)
    requires total == main - e1 + e2 && Abs(main) <= bound && 2 * Abs(e1) <= b1 && 2 * Abs(e2) <= b2 && b1 + b2 <= b
    ensures 2 * Abs(total) <= 2 * bound + b
  {
  }

  lemma RoundingError(a: int, e: int, d: nat)
    requires 2 * Abs(e) <= d
    ensures 2 * Abs(a * e) <= Abs(a) * d
  {
    AbsProduct(a, e);
    MulMonotone(2 * Abs(e), d, Abs(a));
  }

  /** Where the edges leave room, a corner is mitred: both of its edges move outwards by the weighted
      strengths, an upright edge and, for equal strengths, any edge by the strength in x, and a level
      edge by the strength in y, up to the rounding of the shift and the tolerance of the unit vectors. */
  lemma MitreOffset(inn: Norm, out: Norm, trueType: bool, xs: int, ys: int)
    requires IsUnit(inn) && IsUnit(out) && 0 <= xs <= LIMIT && 0 <= ys <= LIMIT && Cosine(inn, out) > -0xF000
    requires Roomy(inn, out, trueType, xs) && Roomy(inn, out, trueType, ys)
    ensures var shift, d := CornerShift(inn, out, trueType, xs, ys), Cosine(inn, out) + Newton.ONE;
            Offset(inn, out, shift, trueType, xs, ys, d) && Offset(out, inn, shift, trueType, xs, ys, d)
  {
    hide MulFix, MulDiv, CornerShift, Cosine, Sine, Roomy, IsUnit, Offset;
    CosineMeaning(inn, out);
    UnitBounds(inn);
    UnitBounds(out);
    var shift, d := CornerShift(inn, out, trueType, xs, ys), Cosine(inn, out) + Newton.ONE;
    var v := Bisector(inn, out, trueType);
    ShiftByAxis(inn, out, trueType, xs, ys);
    ShiftQuotient(v.x, xs, d);
    ShiftQuotient(v.y, ys, d);
    if trueType {
      BothEdges(inn, out, xs, ys, d, v, shift);
    } else {
      NegatedQuotient(v.x, xs, d, shift.x);
      NegatedQuotient(v.y, ys, d, shift.y);
      BothEdges(inn, out, xs, ys, d, Pt(-v.x, -v.y), Pt(-shift.x, -shift.y));
      TurnedOffset(inn, out, shift, xs, ys, d);
      TurnedOffset(out, inn, shift, xs, ys, d);
    }
  }

  lemma NegatedQuotient(v: int, s: int, d: int, r: int)
    ensures (-v) * s - (-r) * d == -(v * s - r * d)
  {
    assert (-v) * s == -(v * s) && (-r) * d == -(r * d);
  }

  lemma TurnedOffset(n: Norm, m: Norm, shift: Pt, xs: int, ys: int, d: int)
    requires Offset(n, m, Pt(-shift.x, -shift.y), true, xs, ys, d)
    ensures Offset(n, m, shift, false, xs, ys, d)
  {
    assert n.x * -shift.y == -(n.x * shift.y) && n.y * -shift.x == -(n.y * shift.x);
    assert Outwards(n, shift, false) == Outwards(n, Pt(-shift.x, -shift.y), true);
    hide Outwards, Weighted;
  }

  lemma BothEdges(inn: Norm, out: Norm, xs: nat, ys: nat, d: nat, v: Pt, shift: Pt)
    requires IsUnit(inn) && IsUnit(out) && d == Cosine(inn, out) + Newton.ONE
    requires Abs(inn.x * out.x + inn.y * out.y - Newton.ONE * Cosine(inn, out)) <= Newton.ONE
    requires Abs(inn.x) + Abs(inn.y) <= 92684 && Abs(out.x) + Abs(out.y) <= 92684 && v == Bisector(inn, out, true)
    requires 2 * Abs(v.x * xs - shift.x * d) <= d && 2 * Abs(v.y * ys - shift.y * d) <= d
    ensures Offset(inn, out, shift, true, xs, ys, d) && Offset(out, inn, shift, true, xs, ys, d)
  {
    Commuted(inn, out);
    hide Cosine, IsUnit, Offset;
    OneEdge(inn, out, xs, ys, d, v, shift);
    OneEdge(out, inn, xs, ys, d, v, shift);
  }

  // ---------------------------------------------------------------- a corner without room

  /** How far a shift goes along an edge, in 1/2^16. */
  function Along(n: Norm, shift: Pt): int {
    n.x * shift.x + n.y * shift.y
  }

  const EDGE_ROOM := 0x800_0000

  /** In an outline with an orientation no edge is longer: its coordinates are small. */
  lemma EdgeHasRoom(p: Pt, q: Pt)
    requires Abs(p.x) <= LIMIT && Abs(p.y) <= LIMIT && Abs(q.x) <= LIMIT && Abs(q.y) <= LIMIT
    ensures UnitEdge(p, q).length <= EDGE_ROOM
  {
    hide Newton.NormOf, Wrap32, TrueNorm.Grain, TrueNorm.NearRoot;
    var vx, vy := q.x - p.x, q.y - p.y;
    Unwrapped(vx);
    Unwrapped(vy);
    if vx == 0 || vy == 0 {
      StraightLength(vx, vy);
    } else {
      TrueNorm.LengthIsTrue(vx, vy);
      ShortLength(Newton.NormOf(vx, vy).length, TrueNorm.Grain(Abs(vx), Abs(vy)), vx, vy);
    }
  }

  lemma StraightLength(vx: int, vy: int)
    requires Is32(vx) && Is32(vy) && (vx == 0 || vy == 0)
    ensures Newton.NormOf(vx, vy).length == Abs(vx) + Abs(vy)
  {
    hide Newton.NormOfPositive;
  }

  lemma ShortLength(length: int, g: nat, vx: int, vy: int)
    requires Abs(vx) <= 2 * LIMIT && Abs(vy) <= 2 * LIMIT && (g == 1 || 36634 * g <= Abs(vx) + Abs(vy))
    requires TrueNorm.NearRoot(length, g, 6 * g, vx * vx + vy * vy)
    ensures length <= EDGE_ROOM
  {
    SmallProduct(vx, vx, 2 * LIMIT, 2 * LIMIT);
    SmallProduct(vy, vy, 2 * LIMIT, 2 * LIMIT);
    var r := length - g;
    if EDGE_ROOM < length {
      MulMonotone(2 * LIMIT + 2 * LIMIT, r, r);
      MulMonotone(2 * LIMIT + 2 * LIMIT, r, 4 * LIMIT);
    }
  }

  /** The rounded sine is the cross product. */
  lemma SineMeaning(inn: Norm, out: Norm, trueType: bool)
    requires IsUnit(inn) && IsUnit(out)
    ensures var cross := out.x * inn.y - out.y * inn.x;
            Abs((if trueType then -cross else cross) - Newton.ONE * Sine(inn, out, trueType)) <= Newton.ONE
    ensures Abs(Sine(inn, out, trueType)) < 0x3_0000
  {
    UnitBounds(inn);
    UnitBounds(out);
    UnitProduct(out.x, inn.y);
    UnitProduct(out.y, inn.x);
    SmallProduct(out.x, inn.y, 65537, 65537);
    SmallProduct(out.y, inn.x, 65537, 65537);
    hide MulFix, IsUnit, Wrap32;
    SineFrom(out.x * inn.y, out.y * inn.x, MulFix(out.x, inn.y), MulFix(out.y, inn.x));
  }

  lemma SineFrom(p: int, r: int, mp: int, mr: int)
    requires 2 * Abs(p - Newton.ONE * mp) <= Newton.ONE && 2 * Abs(r - Newton.ONE * mr) <= Newton.ONE
    requires Abs(p) <= 65537 * 65537 && Abs(r) <= 65537 * 65537
    ensures Wrap32(mp - mr) == mp - mr && Wrap32(-(mp - mr)) == -(mp - mr) && Abs(mp - mr) < 0x3_0000
    ensures Abs(p - r - Newton.ONE * (mp - mr)) <= Newton.ONE
  {
  }

  /** Where the edges leave no room, the sine is positive and the shorter edge is the tighter limit. */
  lemma RoomMeaning(s: int, q: int, l: int, d: int)
    requires 0 <= s <= LIMIT && Abs(q) < 0x3_0000 && 0 <= l <= EDGE_ROOM && 0x1000 <= d < 0x4_0000
    requires MulFix(s, q) > MulFix(l, d)
    ensures 0 < q && l * d <= s * q
  {
    SmallProduct(s, q, LIMIT, 0x3_0000);
    SmallProduct(l, d, EDGE_ROOM, 0x4_0000);
    MulMonotone(0, l, d);
    MulFixRounds(s, q);
    MulFixRounds(l, d);
    RoundedFits(s * q, MulFixLong(s, q));
    RoundedFits(l * d, MulFixLong(l, d));
    hide MulFixLong;
    if q <= 0 {
      MulMonotone(q, 0, s);
    }
  }

  lemma RoundedFits(n: int, r: int)
    requires 2 * Abs(n - r * 0x1_0000) <= 0x1_0000 && Abs(n) <= EDGE_ROOM * 0x4_0000
    ensures Wrap32(r) == r
  {
  }

  /** One coordinate of the limited shift. */
  lemma LimitQuotient(v: int, l: nat, q: nat, s: nat, d: nat)
    requires Abs(v) <= 131074 && l <= EDGE_ROOM && 0 < q < 0x3_0000 && s <= LIMIT && 0x1000 <= d < 0x4_0000
    requires l * d <= s * q
    ensures 2 * Abs(v * l - MulDiv(v, l, q) * q) <= q
  {
    SmallProduct(v, l, 131074, EDGE_ROOM);
    AbsProduct(v, l);
    SmallQuotientFits(Abs(v) * l, q);
    MulDivRounds(v, l, q);
    hide MulDivLong;
    LimitBound(v, l, q, s, d, MulDivLong(v, l, q));
    RoundedQuotientFits(MulDivLong(v, l, q));
  }

  lemma RoundedQuotientFits(r: int)
    requires Abs(r) <= 0x4000_0000
    ensures Wrap32(r) == r
  {
  }

  lemma LimitBound(v: int, l: nat, q: nat, s: nat, d: nat, r: int)
    requires Abs(v) <= 131074 && 0 < q && s <= LIMIT && 0x1000 <= d < 0x4_0000 && l * d <= s * q
    requires 2 * Abs(v * l - r * q) <= q
    ensures Abs(r) <= 0x4000_0000
  {
    TwiceQuotient(v, l, q, r);
    TwiceScaled(2 * Abs(r) - 1, q, l, s, d);
    QuotientSmall(Abs(r), d);
  }

  lemma TwiceQuotient(v: int, l: nat, q: nat, r: int)
    requires Abs(v) <= 131074 && 2 * Abs(v * l - r * q) <= q
    ensures (2 * Abs(r) - 1) * q <= 262148 * l
  {
    AbsProduct(r, q);
    AbsProduct(v, l);
    MulMonotone(Abs(v), 131074, l);
    Distribute(q, 2 * Abs(r), -1);
  }

  lemma TwiceScaled(k: int, q: nat, l: nat, s: nat, d: nat)
    requires 0 < q && k * q <= 262148 * l && l * d <= s * q
    ensures k * d <= 262148 * s
  {
    MulMonotone(k * q, 262148 * l, d);
    assert k * q * d == k * d * q;
    assert 262148 * l * d == 262148 * (l * d) && 262148 * (s * q) == 262148 * s * q;
    Cancel(q, k * d, 262148 * s);
  }

  lemma QuotientSmall(a: nat, d: nat)
    requires 0x1000 <= d && (2 * a - 1) * d <= 262148 * LIMIT
    ensures a <= 0x4000_0000
  {
    if 0x4000_0000 < a {
      MulMonotone(0x8000_0000, 2 * a - 1, d);
    }
  }

  ghost predicate Scaled(inn: Norm, out: Norm, trueType: bool, v: int, s: int, r: int) {
    var d, q, l := Cosine(inn, out) + Newton.ONE, Sine(inn, out, trueType), Min(inn.length, out.length);
    if Roomy(inn, out, trueType, s) then 2 * Abs(v * s - r * d) <= d
    else 0 < q && 2 * Abs(v * l - r * q) <= q
  }

  lemma AxisScaled(inn: Norm, out: Norm, trueType: bool, v: int, s: int)
    requires IsUnit(inn) && IsUnit(out) && 0 <= s <= LIMIT && Abs(v) <= 131074
    requires Min(inn.length, out.length) <= EDGE_ROOM && Cosine(inn, out) > -0xF000
    ensures Scaled(inn, out, trueType, v, s, AxisShift(inn, out, trueType, v, s))
  {
    hide MulFix, MulDiv, Cosine, Sine, Roomy, IsUnit, Wrap32;
    CosineMeaning(inn, out);
    SineMeaning(inn, out, trueType);
    var q, l, d := Sine(inn, out, trueType), Min(inn.length, out.length), Cosine(inn, out) + Newton.ONE;
    if Roomy(inn, out, trueType, s) {
      ShiftQuotient(v, s, d);
    } else {
      NoRoom(inn, out, trueType, s);
      RoomMeaning(s, q, l, d);
      LimitQuotient(v, l, q, s, d);
    }
  }

  lemma NoRoom(inn: Norm, out: Norm, trueType: bool, s: int)
    requires Abs(Cosine(inn, out)) < 0x3_0000 && !Roomy(inn, out, trueType, s)
    ensures MulFix(s, Sine(inn, out, trueType)) > MulFix(Min(inn.length, out.length), Cosine(inn, out) + Newton.ONE)
  {
    hide MulFix, Cosine, Sine, Wrap32;
    Unwrapped(Cosine(inn, out) + Newton.ONE);
  }

  /** Each strength has or lacks room by itself: the shift in its axis is the bisector's coordinate,
      scaled by strength / d with room and by the shorter edge's length / q without, and rounded. */
  lemma AxisOffset(inn: Norm, out: Norm, trueType: bool, xs: int, ys: int)
    requires IsUnit(inn) && IsUnit(out) && 0 <= xs <= LIMIT && 0 <= ys <= LIMIT
    requires Min(inn.length, out.length) <= EDGE_ROOM && Cosine(inn, out) > -0xF000
    ensures var shift, v := CornerShift(inn, out, trueType, xs, ys), Bisector(inn, out, trueType);
            Scaled(inn, out, trueType, v.x, xs, shift.x) && Scaled(inn, out, trueType, v.y, ys, shift.y)
  {
    hide MulFix, MulDiv, CornerShift, Cosine, Sine, Roomy, IsUnit, Wrap32, Scaled;
    CosineMeaning(inn, out);
    UnitBounds(inn);
    UnitBounds(out);
    ShiftByAxis(inn, out, trueType, xs, ys);
    var v := Bisector(inn, out, trueType);
    AxisScaled(inn, out, trueType, v.x, xs);
    AxisScaled(inn, out, trueType, v.y, ys);
  }

  /** The way along one edge, from the rounded coordinates of the shift. */
  lemma AlongEdge(a: int, b: int, x: int, y: int, cross: int, shift: Pt, l: nat, q: nat)
    requires Abs(a) + Abs(b) <= 92684 && a * x + b * y == cross && Abs(cross - Newton.ONE * q) <= Newton.ONE
    requires 2 * Abs(x * l - shift.x * q) <= q && 2 * Abs(y * l - shift.y * q) <= q
    ensures q * Abs(a * shift.x + b * shift.y - Newton.ONE * l) <= Newton.ONE * l + 46342 * q
  {
    var ex, ey := x * l - shift.x * q, y * l - shift.y * q;
    var off := a * shift.x + b * shift.y - Newton.ONE * l;
    AlongExpansion(a, b, shift.x, shift.y, x, y, l, q, ex, ey);
    SmallProduct(l, cross - Newton.ONE * q, l, Newton.ONE);
    RoundingError(a, ex, q);
    RoundingError(b, ey, q);
    Distribute(q, Abs(a), Abs(b));
    MulMonotone(Abs(a) + Abs(b), 92684, q);
    AbsProduct(q, off);
    AddErrors(q * off, l * (cross - Newton.ONE * q), a * ex, -(b * ey), l * Newton.ONE, Abs(a) * q, Abs(b) * q,
              92684 * q);
  }

  lemma AlongExpansion(a: int, b: int, u: int, v: int, x: int, y: int, l: int, q: int, ex: int, ey: int)
    requires ex == x * l - u * q && ey == y * l - v * q
    ensures q * (a * u + b * v - Newton.ONE * l) == l * (a * x + b * y - Newton.ONE * q) - a * ex - b * ey
  {
    assert q * (a * u) == a * (u * q) && q * (b * v) == b * (v * q);
    assert a * (x * l) == l * (a * x) && b * (y * l) == l * (b * y);
    Distribute(a, x * l, -(u * q));
    Distribute(b, y * l, -(v * q));
    Distribute(q, a * u + b * v, -(Newton.ONE * l));
    Distribute(q, a * u, b * v);
    Distribute(l, a * x + b * y, -(Newton.ONE * q));
    Distribute(l, a * x, b * y);
    assert q * (Newton.ONE * l) == l * (Newton.ONE * q);
  }

  lemma CrossOfSum(inn: Norm, out: Norm)
    ensures var x, y := -(inn.y + out.y), inn.x + out.x;
            && inn.x * x + inn.y * y == out.x * inn.y - out.y * inn.x
            && out.x * x + out.y * y == -(out.x * inn.y - out.y * inn.x)
            && inn.x * -x + inn.y * -y == -(out.x * inn.y - out.y * inn.x)
            && out.x * -x + out.y * -y == out.x * inn.y - out.y * inn.x
  {
    Distribute(inn.x, inn.y, out.y);
    Distribute(inn.y, inn.x, out.x);
    Distribute(out.x, inn.y, out.y);
    Distribute(out.y, inn.x, out.x);
    assert inn.x * inn.y == inn.y * inn.x && inn.x * out.y == out.y * inn.x && inn.y * out.x == out.x * inn.y;
    assert out.x * out.y == out.y * out.x;
    var x, y := -(inn.y + out.y), inn.x + out.x;
    assert inn.x * x == -(inn.x * (inn.y + out.y)) && out.x * x == -(out.x * (inn.y + out.y));
    assert inn.x * -x == -(inn.x * x) && inn.y * -y == -(inn.y * y);
    assert out.x * -x == -(out.x * x) && out.y * -y == -(out.y * y);
  }

  /** Where the edges leave no room for either strength, a corner moves back along the incoming edge and
      forward along the outgoing one by just the length of the shorter of them, up to the rounding of the
      shift and the tolerance of the unit vectors. */
  lemma LimitedOffset(inn: Norm, out: Norm, trueType: bool, xs: int, ys: int)
    requires IsUnit(inn) && IsUnit(out) && 0 <= xs <= LIMIT && 0 <= ys <= LIMIT
    requires Min(inn.length, out.length) <= EDGE_ROOM && Cosine(inn, out) > -0xF000
    requires !Roomy(inn, out, trueType, xs) && !Roomy(inn, out, trueType, ys)
    ensures var shift, q, l := CornerShift(inn, out, trueType, xs, ys), Sine(inn, out, trueType),
              Min(inn.length, out.length);
            && 0 < q
            && q * Abs(-Along(inn, shift) - Newton.ONE * l) <= Newton.ONE * l + 46342 * q
            && q * Abs(Along(out, shift) - Newton.ONE * l) <= Newton.ONE * l + 46342 * q
  {
    hide MulFix, MulDiv, CornerShift, Cosine, Sine, Roomy, IsUnit, Wrap32;
    SineMeaning(inn, out, trueType);
    UnitBounds(inn);
    UnitBounds(out);
    AxisOffset(inn, out, trueType, xs, ys);
    var q, l := Sine(inn, out, trueType), Min(inn.length, out.length);
    var shift, v := CornerShift(inn, out, trueType, xs, ys), Bisector(inn, out, trueType);
    CrossOfSum(inn, out);
    var cross := if trueType then -(out.x * inn.y - out.y * inn.x) else out.x * inn.y - out.y * inn.x;
    TurnedAlong(inn, v.x, v.y);
    AlongEdge(-inn.x, -inn.y, v.x, v.y, cross, shift, l, q);
    TurnedAlong(inn, shift.x, shift.y);
    AlongEdge(out.x, out.y, v.x, v.y, cross, shift, l, q);
  }

  lemma TurnedAlong(n: Norm, x: int, y: int)
    ensures (-n.x) * x + (-n.y) * y == -(n.x * x + n.y * y)
  {
    assert (-n.x) * x == -(n.x * x) && (-n.y) * y == -(n.y * y);
  }
}
