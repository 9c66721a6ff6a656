/** Outline decomposition: from tagged contour points to drawing commands and flattened paths. */
module Contours {
  import opened Ints
  import opened Segments
  import opened LineWalk
  import opened Curves
  import opened Cubics

  /** A point of the outline in 26.6 coordinates. */
  datatype OutlinePoint = OutlinePoint(x: int, y: int, onCurve: bool)

  /** A bare 26.6 position. */
  datatype Vec = Vec(x: int, y: int)

  const TAG_ON := 1
  const TAG_CONIC := 0
  const TAG_CUBIC := 2

  const UPSCALE: int := 4

  /** `curve_tag_at`: the low two bits of the tag byte, or the on-curve flag when there is none. */
  function TagAt(pts: seq<OutlinePoint>, tags: seq<int>, i: nat): int
    requires i < |pts|
  {
    if i < |tags| then tags[i] % 4
    else if pts[i].onCurve then TAG_ON else TAG_CONIC
  }

  function At(pts: seq<OutlinePoint>, i: nat): Vec
    requires i < |pts|
  {
    Vec(pts[i].x, pts[i].y)
  }

  function MiddleOf(a: int, b: int): int {
    TruncDiv(Wrap32(a + b), 2)
  }

  /** The middle of two points, with the 32-bit sums of the source. */
  function Middle(a: Vec, b: Vec): Vec {
    Vec(MiddleOf(a.x, b.x), MiddleOf(a.y, b.y))
  }

  /** One drawing command.  A conic may end on an implied point between two controls. */
  datatype Command =
    | LineCmd(to: Vec)
    | ConicCmd(c: Vec, to: Vec, implied: bool)
    | CubicCmd(c1: Vec, c2: Vec, to: Vec)

  datatype OutlineError = EndBeforeStart | StartsWithCubic | ExpectedConic | BadCubic

  datatype Parsed<T> = Ok(value: T) | Err(error: OutlineError)

  function Prepend(c: Command, rest: Parsed<seq<Command>>): Parsed<seq<Command>> {
    if rest.Ok? then Ok([c] + rest.value) else rest
  }

  /** The commands of the contour after the given cursor; start closes the contour. */
  function Commands(pts: seq<OutlinePoint>, tags: seq<int>, cursor: int, limit: int, start: Vec)
    : Parsed<seq<Command>>
    requires -1 <= cursor && limit < |pts|
    decreases limit - cursor, 1
  {
    if limit <= cursor then Ok([LineCmd(start)])
    else
      var tag := TagAt(pts, tags, cursor + 1);
      var v := At(pts, cursor + 1);
      if tag == TAG_ON then Prepend(LineCmd(v), Commands(pts, tags, cursor + 1, limit, start))
      else if tag == TAG_CONIC then ConicCommands(pts, tags, cursor + 1, limit, start, v)
      else if limit < cursor + 2 || TagAt(pts, tags, cursor + 2) != TAG_CUBIC then Err(BadCubic)
      else if cursor + 3 <= limit then
        Prepend(CubicCmd(v, At(pts, cursor + 2), At(pts, cursor + 3)),
                Commands(pts, tags, cursor + 3, limit, start))
      else Ok([CubicCmd(v, At(pts, cursor + 2), start)])
  }

  /** The commands after a conic control point at the cursor. */
  function ConicCommands(pts: seq<OutlinePoint>, tags: seq<int>, cursor: int, limit: int, start: Vec, control: Vec)
    : Parsed<seq<Command>>
    requires -1 <= cursor && limit < |pts|
    decreases limit - cursor, 0
  {
    if cursor < limit then
      var tag := TagAt(pts, tags, cursor + 1);
      var v := At(pts, cursor + 1);
      if tag == TAG_ON then Prepend(ConicCmd(control, v, false), Commands(pts, tags, cursor + 1, limit, start))
      else if tag != TAG_CONIC then Err(ExpectedConic)
      else
        Prepend(ConicCmd(control, Middle(control, v), true),
                ConicCommands(pts, tags, cursor + 1, limit, start, v))
    else Ok([ConicCmd(control, start, false)])
  }

  /** A contour as a start point and the commands that lead back to it. */
  datatype Contour = Contour(start: Vec, commands: seq<Command>)

  /** Where a contour starts: at its first point, at an on-curve last point when the first is a
      conic control, or half-way between two controls; with the cursor and limit of the walk. */
  function StartOf(pts: seq<OutlinePoint>, tags: seq<int>, first: nat, last: int): (Vec, int, int)
    requires first <= last < |pts|
  {
    if TagAt(pts, tags, first) != TAG_CONIC then (At(pts, first), first, last)
    else if TagAt(pts, tags, last) == TAG_ON then (At(pts, last), first - 1, last - 1)
    else (Middle(At(pts, first), At(pts, last)), first - 1, last)
  }

  function ContourOf(pts: seq<OutlinePoint>, tags: seq<int>, first: nat, last: int): Parsed<Contour>
    requires first <= last < |pts|
  {
    if TagAt(pts, tags, first) == TAG_CUBIC then Err(StartsWithCubic)
    else
      var (start, cursor, limit) := StartOf(pts, tags, first, last);
      var commands := Commands(pts, tags, cursor, limit, start);
      if commands.Ok? then Ok(Contour(start, commands.value)) else Err(commands.error)
  }

  /** All contours, from the one that starts after point `last`. */
  function ContoursFrom(pts: seq<OutlinePoint>, tags: seq<int>, ends: seq<int>, last: int): Parsed<seq<Contour>>
    requires -1 <= last && (forall i :: 0 <= i < |ends| ==> ends[i] < |pts|)
    decreases |ends|
  {
    if ends == [] then Ok([])
    else if ends[0] <= last then Err(EndBeforeStart)
    else
      var c := ContourOf(pts, tags, last + 1, ends[0]);
      if c.Err? then Err(c.error)
      else
        var rest := ContoursFrom(pts, tags, ends[1..], ends[0]);
        if rest.Ok? then Ok([c.value] + rest.value) else rest
  }

  // ---------------------------------------------------------------- what the commands mean

  /** The outline points a command list mentions, implied ones left out. */
  ghost function Mentioned(commands: seq<Command>): seq<Vec> {
    if commands == [] then []
    else
      (match commands[0]
       case LineCmd(to) => [to]
       case ConicCmd(c, to, implied) => if implied then [c] else [c, to]
       case CubicCmd(c1, c2, to) => [c1, c2, to])
      + Mentioned(commands[1..])
  }

  ghost function Slice(pts: seq<OutlinePoint>, from: nat, limit: int): seq<Vec>
    requires limit < |pts|
    decreases limit - from
  {
    if limit < from then [] else [At(pts, from)] + Slice(pts, from + 1, limit)
  }

  /** Every contour is closed, and its commands use each of its points once and in order. */
  lemma {:induction false} CommandsUseAllPoints(pts: seq<OutlinePoint>, tags: seq<int>, cursor: int, limit: int,
                                                start: Vec)
    requires -1 <= cursor && limit < |pts|
    requires Commands(pts, tags, cursor, limit, start).Ok?
    ensures var cs := Commands(pts, tags, cursor, limit, start).value;
            && cs != [] && cs[|cs| - 1].to == start
            && Mentioned(cs) == Slice(pts, cursor + 1, limit) + [start]
    decreases limit - cursor, 1
  {
    hide At, TagAt;
    var cs := Commands(pts, tags, cursor, limit, start).value;
    if limit <= cursor {
      assert cs[1..] == [];
    } else {
      var tag := TagAt(pts, tags, cursor + 1);
      if tag == TAG_ON {
        var rest := Commands(pts, tags, cursor + 1, limit, start).value;
        CommandsUseAllPoints(pts, tags, cursor + 1, limit, start);
        assert cs[1..] == rest;
      } else if tag == TAG_CONIC {
        ConicsUseAllPoints(pts, tags, cursor + 1, limit, start, At(pts, cursor + 1));
      } else if cursor + 3 <= limit {
        var rest := Commands(pts, tags, cursor + 3, limit, start).value;
        CommandsUseAllPoints(pts, tags, cursor + 3, limit, start);
        assert cs[1..] == rest;
        SliceThree(pts, cursor + 1, limit);
      } else {
        assert cs[1..] == [];
        SliceTwo(pts, cursor + 1, limit);
      }
    }
  }

  lemma SliceTwo(pts: seq<OutlinePoint>, from: nat, limit: int)
    requires limit < |pts| && from + 1 == limit
    ensures Slice(pts, from, limit) == [At(pts, from), At(pts, from + 1)]
  {
    assert Slice(pts, limit + 1, limit) == [];
    assert Slice(pts, limit, limit) == [At(pts, limit)];
  }

  lemma SliceThree(pts: seq<OutlinePoint>, from: nat, limit: int)
    requires limit < |pts| && from + 2 <= limit
    ensures Slice(pts, from, limit)
            == [At(pts, from), At(pts, from + 1), At(pts, from + 2)] + Slice(pts, from + 3, limit)
  {
    var a, b, c := At(pts, from), At(pts, from + 1), At(pts, from + 2);
    var rest := Slice(pts, from + 3, limit);
    assert Slice(pts, from + 2, limit) == [c] + rest;
    assert Slice(pts, from + 1, limit) == [b] + ([c] + rest);
    assert [a] + ([b] + ([c] + rest)) == [a, b, c] + rest;
  }

  lemma {:induction false} ConicsUseAllPoints(pts: seq<OutlinePoint>, tags: seq<int>, cursor: int, limit: int,
                                              start: Vec, control: Vec)
    requires -1 <= cursor && limit < |pts|
    requires ConicCommands(pts, tags, cursor, limit, start, control).Ok?
    ensures var cs := ConicCommands(pts, tags, cursor, limit, start, control).value;
            && cs != [] && cs[|cs| - 1].to == start
            && Mentioned(cs) == [control] + Slice(pts, cursor + 1, limit) + [start]
    decreases limit - cursor, 0
  {
    var cs := ConicCommands(pts, tags, cursor, limit, start, control).value;
    if cursor < limit {
      var v := At(pts, cursor + 1);
      if TagAt(pts, tags, cursor + 1) == TAG_ON {
        var rest := Commands(pts, tags, cursor + 1, limit, start).value;
        CommandsUseAllPoints(pts, tags, cursor + 1, limit, start);
        assert cs[1..] == rest;
      } else {
        var rest := ConicCommands(pts, tags, cursor + 1, limit, start, v).value;
        ConicsUseAllPoints(pts, tags, cursor + 1, limit, start, v);
        assert cs[1..] == rest;
      }
    } else {
      assert cs[1..] == [];
    }
  }

  // ---------------------------------------------------------------- flattening

  /** `UPSCALE * (p + offset)`: a 26.6 position in subpixels. */
  function Placed(v: Vec, off: Vec): Point {
    Point(UPSCALE * (v.x + off.x), UPSCALE * (v.y + off.y))
  }

  /** A 26.6 point and a translation in the 32 bits that the source gives them. */
  ghost predicate VecFits(v: Vec, off: Vec) {
    Is32(v.x) && Is32(v.y) && Is32(off.x) && Is32(off.y)
  }

  lemma PlacedIsPosition(v: Vec, off: Vec)
    requires VecFits(v, off)
    ensures IsPosition(Placed(v, off))
  {
  }

  ghost predicate CommandFits(c: Command, off: Vec) {
    VecFits(c.to, off)
    && match c
       case LineCmd(_) => true
       case ConicCmd(c1, _, _) => VecFits(c1, off)
       case CubicCmd(c1, c2, _) => VecFits(c1, off) && VecFits(c2, off)
  }

  ghost predicate AllFit(commands: seq<Command>, off: Vec) {
    forall i :: 0 <= i < |commands| ==> CommandFits(commands[i], off)
  }

  /** The points a command draws lines to in the band of scanlines [low, high). */
  ghost function CommandPoints(c: Command, here: Point, off: Vec, low: int, high: int): (points: seq<Point>)
    requires IsPosition(here) && CommandFits(c, off)
    ensures points != [] && forall q :: q in points ==> IsPosition(q)
  {
    PlacedIsPosition(c.to, off);
    match c
    case LineCmd(to) => [Placed(to, off)]
    case ConicCmd(c1, to, _) =>
      DrawnPositions(here, Placed(c1, off), Placed(to, off), low, high);
      DrawnConicEnds(here, Placed(c1, off), Placed(to, off), low, high);
      DrawnConic(here, Placed(c1, off), Placed(to, off), low, high)
    case CubicCmd(c1, c2, to) =>
      var arc := Arc(Placed(to, off), Placed(c2, off), Placed(c1, off), here);
      PlacedIsPosition(c1, off);
      PlacedIsPosition(c2, off);
      CubicPositions(arc);
      CubicPoints(arc)
  }

  /** Where a command ends. */
  ghost function CommandEnd(c: Command, here: Point, off: Vec, low: int, high: int): (end: Point)
    requires IsPosition(here) && CommandFits(c, off)
    ensures IsPosition(end)
  {
    PathEnd(here, CommandPoints(c, here, off, low, high))
  }

  /** The polyline that the commands draw from the current point. */
  ghost function Flattened(commands: seq<Command>, here: Point, off: Vec, low: int, high: int): (points: seq<Point>)
    requires IsPosition(here) && AllFit(commands, off)
    ensures forall q :: q in points ==> IsPosition(q)
    decreases |commands|
  {
    if commands == [] then []
    else
      CommandPoints(commands[0], here, off, low, high)
      + Flattened(commands[1..], CommandEnd(commands[0], here, off, low, high), off, low, high)
  }

  /** The segments that the commands draw. */
  ghost function CommandSegments(commands: seq<Command>, here: Point, off: Vec, low: int, high: int): seq<Segment>
    requires IsPosition(here) && AllFit(commands, off)
  {
    PathSegments(here, Flattened(commands, here, off, low, high))
  }

  ghost predicate ContourFits(c: Contour, off: Vec) {
    VecFits(c.start, off) && AllFit(c.commands, off)
  }

  ghost predicate ContoursFit(cs: seq<Contour>, off: Vec) {
    forall i :: 0 <= i < |cs| ==> ContourFits(cs[i], off)
  }

  /** The segments of a contour, from its start. */
  ghost function ContourSegments(c: Contour, off: Vec, low: int, high: int): seq<Segment>
    requires ContourFits(c, off)
  {
    PlacedIsPosition(c.start, off);
    CommandSegments(c.commands, Placed(c.start, off), off, low, high)
  }

  /** Everything a decomposed outline draws in a band, as if there were no box. */
  ghost function GlyphSegments(cs: seq<Contour>, off: Vec, low: int, high: int): seq<Segment>
    requires ContoursFit(cs, off)
    decreases |cs|
  {
    if cs == [] then []
    else
      assert ContourFits(cs[0], off);
      ContourSegments(cs[0], off, low, high) + GlyphSegments(cs[1..], off, low, high)
  }

  // ---------------------------------------------------------------- closed contours

  /** Where the drawing of a contour ends. */
  ghost function ContourEnd(c: Contour, off: Vec, low: int, high: int): Point
    requires ContourFits(c, off)
  {
    PlacedIsPosition(c.start, off);
    PathEnd(Placed(c.start, off), Flattened(c.commands, Placed(c.start, off), off, low, high))
  }

  /** A contour adds to a scanline just the height from its start to its end there, however its
      curves and lines were rounded. */
  lemma ContourCover(c: Contour, off: Vec, low: int, high: int, y: int)
    requires ContourFits(c, off)
    ensures RowCover(ContourSegments(c, off, low, high), y)
            == Filled(ContourEnd(c, off, low, high).y, y) - Filled(Placed(c.start, off).y, y)
  {
    PlacedIsPosition(c.start, off);
    PathCover(Placed(c.start, off), Flattened(c.commands, Placed(c.start, off), off, low, high), y);
  }

  /** A contour adds no cover to any scanline exactly when its drawing ends on its starting height. */
  lemma ClosedContourCover(c: Contour, off: Vec, low: int, high: int)
    requires ContourFits(c, off)
    ensures (forall y :: RowCover(ContourSegments(c, off, low, high), y) == 0)
            <==> ContourEnd(c, off, low, high).y == Placed(c.start, off).y
  {
    hide ContourEnd, ContourSegments, RowCover, Filled;
    var from, to := Placed(c.start, off).y, ContourEnd(c, off, low, high).y;
    forall y ensures RowCover(ContourSegments(c, off, low, high), y) == Filled(to, y) - Filled(from, y) {
      ContourCover(c, off, low, high, y);
    }
    if from != to {
      HeightsDiffer(from, to);
      assert RowCover(ContourSegments(c, off, low, high), Trunc(Min(from, to))) != 0;
    }
  }

  lemma HeightsDiffer(a: int, b: int)
    requires a != b
    ensures var y := Trunc(Min(a, b)); Filled(a, y) != Filled(b, y)
  {
  }

  /** The last command ends on its point: it is a line or a cubic, or a conic with a 32-bit end. */
  ghost predicate Lands(c: Contour, off: Vec) {
    c.commands != [] &&
    var last := c.commands[|c.commands| - 1];
    last.to == c.start && (last.ConicCmd? ==> Fits32(Placed(last.to, off)))
  }

  lemma {:induction false} FlattenedEnd(commands: seq<Command>, here: Point, off: Vec, low: int, high: int)
    requires IsPosition(here) && AllFit(commands, off) && commands != []
    requires var last := commands[|commands| - 1]; last.ConicCmd? ==> Fits32(Placed(last.to, off))
    ensures PathEnd(here, Flattened(commands, here, off, low, high)) == Placed(commands[|commands| - 1].to, off)
    decreases |commands|
  {
    hide CubicPoints, DrawnConic, Placed, Fits32;
    assert CommandFits(commands[0], off);
    var next := CommandEnd(commands[0], here, off, low, high);
    var points := CommandPoints(commands[0], here, off, low, high);
    var rest := Flattened(commands[1..], next, off, low, high);
    if |commands| > 1 {
      FlattenedEnd(commands[1..], next, off, low, high);
      assert rest != [];
      assert (points + rest)[|points + rest| - 1] == rest[|rest| - 1];
    } else {
      assert rest == [] && points + rest == points;
      if commands[0].ConicCmd? {
        DrawnConicEnds(here, Placed(commands[0].c, off), Placed(commands[0].to, off), low, high);
      }
    }
  }

  /** A contour that lands is closed. */
  lemma LandingCloses(c: Contour, off: Vec, low: int, high: int)
    requires ContourFits(c, off) && Lands(c, off)
    ensures ContourEnd(c, off, low, high) == Placed(c.start, off)
  {
    PlacedIsPosition(c.start, off);
    FlattenedEnd(c.commands, Placed(c.start, off), off, low, high);
  }

  lemma ContourIsClosed(pts: seq<OutlinePoint>, tags: seq<int>, first: nat, last: int)
    requires first <= last < |pts| && ContourOf(pts, tags, first, last).Ok?
    ensures var c := ContourOf(pts, tags, first, last).value;
            c.commands != [] && c.commands[|c.commands| - 1].to == c.start
  {
    var (start, cursor, limit) := StartOf(pts, tags, first, last);
    CommandsUseAllPoints(pts, tags, cursor, limit, start);
  }

  /** No decomposed glyph whose contours land adds cover to any scanline: what goes up comes down. */
  lemma {:induction false} GlyphCover(cs: seq<Contour>, off: Vec, low: int, high: int, y: int)
    requires ContoursFit(cs, off) && forall i :: 0 <= i < |cs| ==> Lands(cs[i], off)
    ensures RowCover(GlyphSegments(cs, off, low, high), y) == 0
    decreases |cs|
  {
    hide Lands, ContourFits, ContourSegments, ContourEnd, RowCover;
    if cs != [] {
      assert ContourFits(cs[0], off);
      LandingCloses(cs[0], off, low, high);
      ContourCover(cs[0], off, low, high, y);
      assert forall i :: 0 <= i < |cs[1..]| ==> cs[1..][i] == cs[i + 1];
      GlyphCover(cs[1..], off, low, high, y);
      RowCoverConcat(ContourSegments(cs[0], off, low, high), GlyphSegments(cs[1..], off, low, high), y);
    } else {
      NoCover(y);
    }
  }

  lemma NoCover(y: int)
    ensures RowCover([], y) == 0
  {
  }

  // ---------------------------------------------------------------- coordinates in range

  /** Outline points and translation are 32-bit values, as in the source. */
  ghost predicate PointFits(p: OutlinePoint, off: Vec) {
    VecFits(Vec(p.x, p.y), off)
  }

  ghost predicate PointsFit(pts: seq<OutlinePoint>, off: Vec) {
    forall i :: 0 <= i < |pts| ==> PointFits(pts[i], off)
  }

  lemma MiddleFits(a: Vec, b: Vec, off: Vec)
    requires VecFits(a, off) && VecFits(b, off)
    ensures VecFits(Middle(a, b), off)
  {
  }

  lemma {:induction false} CommandsFit(pts: seq<OutlinePoint>, tags: seq<int>, cursor: int, limit: int, start: Vec,
                                       off: Vec)
    requires -1 <= cursor && limit < |pts| && PointsFit(pts, off) && VecFits(start, off)
    requires Commands(pts, tags, cursor, limit, start).Ok?
    ensures AllFit(Commands(pts, tags, cursor, limit, start).value, off)
    decreases limit - cursor, 1
  {
    if cursor < limit {
      assert PointFits(pts[cursor + 1], off);
      var tag := TagAt(pts, tags, cursor + 1);
      if tag == TAG_ON {
        CommandsFit(pts, tags, cursor + 1, limit, start, off);
      } else if tag == TAG_CONIC {
        ConicCommandsFit(pts, tags, cursor + 1, limit, start, At(pts, cursor + 1), off);
      } else {
        assert PointFits(pts[cursor + 2], off);
        if cursor + 3 <= limit {
          assert PointFits(pts[cursor + 3], off);
          CommandsFit(pts, tags, cursor + 3, limit, start, off);
        }
      }
    }
  }

  lemma {:induction false} ConicCommandsFit(pts: seq<OutlinePoint>, tags: seq<int>, cursor: int, limit: int, start: Vec,
                                           control: Vec, off: Vec)
    requires -1 <= cursor && limit < |pts| && PointsFit(pts, off) && VecFits(start, off) && VecFits(control, off)
    requires ConicCommands(pts, tags, cursor, limit, start, control).Ok?
    ensures AllFit(ConicCommands(pts, tags, cursor, limit, start, control).value, off)
    decreases limit - cursor, 0
  {
    if cursor < limit {
      assert PointFits(pts[cursor + 1], off);
      var v := At(pts, cursor + 1);
      MiddleFits(control, v, off);
      if TagAt(pts, tags, cursor + 1) == TAG_ON {
        CommandsFit(pts, tags, cursor + 1, limit, start, off);
      } else {
        ConicCommandsFit(pts, tags, cursor + 1, limit, start, v, off);
      }
    }
  }

  lemma ContourOfFits(pts: seq<OutlinePoint>, tags: seq<int>, first: nat, last: int, off: Vec)
    requires first <= last < |pts| && PointsFit(pts, off) && ContourOf(pts, tags, first, last).Ok?
    ensures ContourFits(ContourOf(pts, tags, first, last).value, off)
  {
    assert PointFits(pts[first], off) && PointFits(pts[last], off);
    MiddleFits(At(pts, first), At(pts, last), off);
    var (start, cursor, limit) := StartOf(pts, tags, first, last);
    CommandsFit(pts, tags, cursor, limit, start, off);
  }

  lemma {:induction false} ContoursFromFit(pts: seq<OutlinePoint>, tags: seq<int>, ends: seq<int>, last: int, off: Vec)
    requires -1 <= last && (forall i :: 0 <= i < |ends| ==> ends[i] < |pts|) && PointsFit(pts, off)
    requires ContoursFrom(pts, tags, ends, last).Ok?
    ensures ContoursFit(ContoursFrom(pts, tags, ends, last).value, off)
    decreases |ends|
  {
    if ends != [] {
      ContourOfFits(pts, tags, last + 1, ends[0], off);
      ContoursFromFit(pts, tags, ends[1..], ends[0], off);
    }
  }

  // ---------------------------------------------------------------- implied points half-way

  /** m is half of s, rounded toward zero. */
  predicate HalfOf(m: int, s: int) {
    Abs(s) - 1 <= 2 * Abs(m) <= Abs(s) && (0 <= s ==> 0 <= m) && (s <= 0 ==> m <= 0)
  }

  /** p is half-way between a and b in both coordinates, as far as their sums are 32-bit numbers. */
  predicate Halfway(p: Vec, a: Vec, b: Vec) {
    HalfOf(p.x, Wrap32(a.x + b.x)) && HalfOf(p.y, Wrap32(a.y + b.y))
  }

  lemma MiddleIsHalfway(a: Vec, b: Vec)
    ensures Halfway(Middle(a, b), a, b)
  {
  }

  /** Each implied point is followed by a conic and lies half-way between the two control points. */
  ghost predicate ImpliedHalfway(cs: seq<Command>) {
    forall i :: 0 <= i < |cs| && cs[i].ConicCmd? && cs[i].implied ==>
      i + 1 < |cs| && cs[i + 1].ConicCmd? && Halfway(cs[i].to, cs[i].c, cs[i + 1].c)
  }

  lemma ImpliedMore(c: Command, rest: seq<Command>)
    requires ImpliedHalfway(rest)
    requires c.ConicCmd? && c.implied ==>
      rest != [] && rest[0].ConicCmd? && Halfway(c.to, c.c, rest[0].c)
    ensures ImpliedHalfway([c] + rest)
  {
    hide Halfway;
    var cs := [c] + rest;
    forall i | 0 <= i < |cs| && cs[i].ConicCmd? && cs[i].implied
      ensures i + 1 < |cs| && cs[i + 1].ConicCmd? && Halfway(cs[i].to, cs[i].c, cs[i + 1].c)
    {
      if 0 < i {
        assert cs[i] == rest[i - 1];
      }
    }
  }

  lemma {:induction false} CommandsImplied(pts: seq<OutlinePoint>, tags: seq<int>, cursor: int, limit: int, start: Vec)
    requires -1 <= cursor && limit < |pts|
    requires Commands(pts, tags, cursor, limit, start).Ok?
    ensures ImpliedHalfway(Commands(pts, tags, cursor, limit, start).value)
    decreases limit - cursor, 1
  {
    hide ImpliedHalfway, TagAt;
    NothingImplied();
    if limit <= cursor {
      ImpliedMore(LineCmd(start), []);
      assert [LineCmd(start)] + [] == [LineCmd(start)];
    } else {
      var tag, v := TagAt(pts, tags, cursor + 1), At(pts, cursor + 1);
      if tag == TAG_ON {
        CommandsImplied(pts, tags, cursor + 1, limit, start);
        ImpliedMore(LineCmd(v), Commands(pts, tags, cursor + 1, limit, start).value);
      } else if tag == TAG_CONIC {
        ConicCommandsImplied(pts, tags, cursor + 1, limit, start, v);
      } else if cursor + 3 <= limit {
        CommandsImplied(pts, tags, cursor + 3, limit, start);
        ImpliedMore(CubicCmd(v, At(pts, cursor + 2), At(pts, cursor + 3)),
                    Commands(pts, tags, cursor + 3, limit, start).value);
      } else {
        var last := CubicCmd(v, At(pts, cursor + 2), start);
        ImpliedMore(last, []);
        assert [last] + [] == [last];
      }
    }
  }

  lemma NothingImplied()
    ensures ImpliedHalfway([])
  {
  }

  lemma {:induction false} ConicCommandsImplied(pts: seq<OutlinePoint>, tags: seq<int>, cursor: int, limit: int,
                                               start: Vec, control: Vec)
    requires -1 <= cursor && limit < |pts|
    requires ConicCommands(pts, tags, cursor, limit, start, control).Ok?
    ensures var cs := ConicCommands(pts, tags, cursor, limit, start, control).value;
            ImpliedHalfway(cs) && cs != [] && cs[0].ConicCmd? && cs[0].c == control
    decreases limit - cursor, 0
  {
    hide ImpliedHalfway, TagAt, Middle, Halfway;
    NothingImplied();
    if cursor < limit {
      var v := At(pts, cursor + 1);
      if TagAt(pts, tags, cursor + 1) == TAG_ON {
        CommandsImplied(pts, tags, cursor + 1, limit, start);
        ImpliedMore(ConicCmd(control, v, false), Commands(pts, tags, cursor + 1, limit, start).value);
      } else {
        ConicCommandsImplied(pts, tags, cursor + 1, limit, start, v);
        MiddleIsHalfway(control, v);
        ImpliedMore(ConicCmd(control, Middle(control, v), true),
                    ConicCommands(pts, tags, cursor + 1, limit, start, v).value);
      }
    } else {
      ImpliedMore(ConicCmd(control, start, false), []);
      assert [ConicCmd(control, start, false)] + [] == [ConicCmd(control, start, false)];
    }
  }

  /** A contour whose first point is a conic control starts on its last point if that is on the curve,
      and otherwise half-way between the two; its implied points are half-way between their controls. */
  lemma ContourImplied(pts: seq<OutlinePoint>, tags: seq<int>, first: nat, last: int)
    requires first <= last < |pts| && ContourOf(pts, tags, first, last).Ok?
    ensures var c, a, b := ContourOf(pts, tags, first, last).value, pts[first], pts[last];
            && ImpliedHalfway(c.commands)
            && if TagAt(pts, tags, first) != TAG_CONIC then c.start == Vec(a.x, a.y)
               else if TagAt(pts, tags, last) == TAG_ON then c.start == Vec(b.x, b.y)
               else Halfway(c.start, Vec(a.x, a.y), Vec(b.x, b.y))
  {
    hide ImpliedHalfway, Halfway, Middle;
    MiddleIsHalfway(At(pts, first), At(pts, last));
    var (start, cursor, limit) := StartOf(pts, tags, first, last);
    CommandsImplied(pts, tags, cursor, limit, start);
  }

  lemma {:induction false} ContoursImplied(pts: seq<OutlinePoint>, tags: seq<int>, ends: seq<int>, last: int)
    requires -1 <= last && (forall i :: 0 <= i < |ends| ==> ends[i] < |pts|)
    requires ContoursFrom(pts, tags, ends, last).Ok?
    ensures var all := ContoursFrom(pts, tags, ends, last).value;
            forall i :: 0 <= i < |all| ==> ImpliedHalfway(all[i].commands)
    decreases |ends|
  {
    hide ImpliedHalfway, ContourOf;
    if ends != [] {
      ContourImplied(pts, tags, last + 1, ends[0]);
      ContoursImplied(pts, tags, ends[1..], ends[0]);
    }
  }

  // ---------------------------------------------------------------- implied points between their neighbours

  /** An implied coordinate lies between the two it comes from exactly when their sum does not wrap. */
  lemma MiddleBetween(a: int, b: int)
    requires Is32(a) && Is32(b)
    ensures Min(a, b) <= MiddleOf(a, b) <= Max(a, b) <==> Is32(a + b)
  {
    if a + b >= 0x8000_0000 {
      assert Wrap32(a + b) == a + b - TWO_32;
    } else if a + b < -0x8000_0000 {
      assert Wrap32(a + b) == a + b + TWO_32;
    } else {
      assert Wrap32(a + b) == a + b;
    }
  }

  predicate Within(v: Vec, low: Vec, high: Vec) {
    low.x <= v.x <= high.x && low.y <= v.y <= high.y
  }

  predicate CommandWithin(c: Command, low: Vec, high: Vec) {
    Within(c.to, low, high)
    && match c
       case LineCmd(_) => true
       case ConicCmd(c1, _, _) => Within(c1, low, high)
       case CubicCmd(c1, c2, _) => Within(c1, low, high) && Within(c2, low, high)
  }

  predicate AllWithin(commands: seq<Command>, low: Vec, high: Vec) {
    forall i :: 0 <= i < |commands| ==> CommandWithin(commands[i], low, high)
  }

  /** A box in which no sum of two coordinates wraps. */
  predicate Summable(low: Vec, high: Vec) {
    -0x4000_0000 <= low.x && high.x < 0x4000_0000 && -0x4000_0000 <= low.y && high.y < 0x4000_0000
  }

  ghost predicate PointsWithin(pts: seq<OutlinePoint>, low: Vec, high: Vec) {
    forall i :: 0 <= i < |pts| ==> Within(Vec(pts[i].x, pts[i].y), low, high)
  }

  lemma MiddleWithin(a: Vec, b: Vec, low: Vec, high: Vec)
    requires Summable(low, high) && Within(a, low, high) && Within(b, low, high)
    ensures Within(Middle(a, b), low, high)
  {
    MiddleBetween(a.x, b.x);
    MiddleBetween(a.y, b.y);
  }

  lemma WithinMore(c: Command, rest: seq<Command>, low: Vec, high: Vec)
    requires CommandWithin(c, low, high) && AllWithin(rest, low, high)
    ensures AllWithin([c] + rest, low, high)
  {
  }

  lemma {:induction false} CommandsWithin(pts: seq<OutlinePoint>, tags: seq<int>, cursor: int, limit: int, start: Vec,
                                          low: Vec, high: Vec)
    requires -1 <= cursor && limit < |pts| && Summable(low, high)
    requires PointsWithin(pts, low, high) && Within(start, low, high)
    requires Commands(pts, tags, cursor, limit, start).Ok?
    ensures AllWithin(Commands(pts, tags, cursor, limit, start).value, low, high)
    decreases limit - cursor, 1
  {
    hide AllWithin, Summable, TagAt, Within;
    if limit <= cursor {
      WithinMore(LineCmd(start), [], low, high) by { NoneWithin(low, high); }
      assert [LineCmd(start)] + [] == [LineCmd(start)];
    } else {
      var tag, v := TagAt(pts, tags, cursor + 1), At(pts, cursor + 1);
      if tag == TAG_ON {
        CommandsWithin(pts, tags, cursor + 1, limit, start, low, high);
        WithinMore(LineCmd(v), Commands(pts, tags, cursor + 1, limit, start).value, low, high);
      } else if tag == TAG_CONIC {
        ConicCommandsWithin(pts, tags, cursor + 1, limit, start, v, low, high);
      } else if cursor + 3 <= limit {
        CommandsWithin(pts, tags, cursor + 3, limit, start, low, high);
        WithinMore(CubicCmd(v, At(pts, cursor + 2), At(pts, cursor + 3)),
                   Commands(pts, tags, cursor + 3, limit, start).value, low, high);
      } else {
        var last := CubicCmd(v, At(pts, cursor + 2), start);
        WithinMore(last, [], low, high) by { NoneWithin(low, high); }
        assert [last] + [] == [last];
      }
    }
  }

  lemma NoneWithin(low: Vec, high: Vec)
    ensures AllWithin([], low, high)
  {
  }

  lemma {:induction false} ConicCommandsWithin(pts: seq<OutlinePoint>, tags: seq<int>, cursor: int, limit: int,
                                              start: Vec, control: Vec, low: Vec, high: Vec)
    requires -1 <= cursor && limit < |pts| && Summable(low, high)
    requires PointsWithin(pts, low, high) && Within(start, low, high) && Within(control, low, high)
    requires ConicCommands(pts, tags, cursor, limit, start, control).Ok?
    ensures AllWithin(ConicCommands(pts, tags, cursor, limit, start, control).value, low, high)
    decreases limit - cursor, 0
  {
    hide AllWithin, Summable, TagAt, Within, Middle;
    if cursor < limit {
      var v := At(pts, cursor + 1);
      if TagAt(pts, tags, cursor + 1) == TAG_ON {
        CommandsWithin(pts, tags, cursor + 1, limit, start, low, high);
        WithinMore(ConicCmd(control, v, false), Commands(pts, tags, cursor + 1, limit, start).value, low, high);
      } else {
        MiddleWithin(control, v, low, high);
        ConicCommandsWithin(pts, tags, cursor + 1, limit, start, v, low, high);
        WithinMore(ConicCmd(control, Middle(control, v), true),
                   ConicCommands(pts, tags, cursor + 1, limit, start, v).value, low, high);
      }
    } else {
      WithinMore(ConicCmd(control, start, false), [], low, high) by { NoneWithin(low, high); }
      assert [ConicCmd(control, start, false)] + [] == [ConicCmd(control, start, false)];
    }
  }

  ghost predicate ContourWithin(c: Contour, low: Vec, high: Vec) {
    Within(c.start, low, high) && AllWithin(c.commands, low, high)
  }

  lemma ContourOfWithin(pts: seq<OutlinePoint>, tags: seq<int>, first: nat, last: int, low: Vec, high: Vec)
    requires first <= last < |pts| && Summable(low, high) && PointsWithin(pts, low, high)
    requires ContourOf(pts, tags, first, last).Ok?
    ensures ContourWithin(ContourOf(pts, tags, first, last).value, low, high)
  {
    hide AllWithin, Summable, TagAt, Within, Middle;
    MiddleWithin(At(pts, first), At(pts, last), low, high);
    var (start, cursor, limit) := StartOf(pts, tags, first, last);
    CommandsWithin(pts, tags, cursor, limit, start, low, high);
  }

  /** Starts, controls and ends of all commands, implied ones included, stay in every box that holds
      the outline's own points, as long as no midpoint sum wraps. */
  lemma {:induction false} ContoursFromWithin(pts: seq<OutlinePoint>, tags: seq<int>, ends: seq<int>, last: int,
                                              low: Vec, high: Vec)
    requires -1 <= last && (forall i :: 0 <= i < |ends| ==> ends[i] < |pts|)
    requires Summable(low, high) && PointsWithin(pts, low, high)
    requires ContoursFrom(pts, tags, ends, last).Ok?
    ensures forall c :: c in ContoursFrom(pts, tags, ends, last).value ==> ContourWithin(c, low, high)
    decreases |ends|
  {
    hide ContourWithin, Summable, PointsWithin;
    if ends != [] {
      ContourOfWithin(pts, tags, last + 1, ends[0], low, high);
      ContoursFromWithin(pts, tags, ends[1..], ends[0], low, high);
    }
  }
}
