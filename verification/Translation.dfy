/** What moving an outline does to its image. */
module Translation {
  import opened Ints
  import opened Segments
  import opened LineWalk
  import opened Curves
  import opened Cubics
  import opened Contours
  import opened Sweep
  import opened GrayWorker
  import opened Glyph

  // ---------------------------------------------------------------- moving the points

  function Plus(v: Vec, d: Vec): Vec {
    Vec(v.x + d.x, v.y + d.y)
  }

  function CommandPlus(c: Command, d: Vec): Command {
    match c
    case LineCmd(to) => LineCmd(Plus(to, d))
    case ConicCmd(c1, to, implied) => ConicCmd(Plus(c1, d), Plus(to, d), implied)
    case CubicCmd(c1, c2, to) => CubicCmd(Plus(c1, d), Plus(c2, d), Plus(to, d))
  }

  function CommandsPlus(cs: seq<Command>, d: Vec): (r: seq<Command>)
    ensures |r| == |cs| && forall i :: 0 <= i < |cs| ==> r[i] == CommandPlus(cs[i], d)
  {
    seq(|cs|, i requires 0 <= i < |cs| => CommandPlus(cs[i], d))
  }

  function ContourPlus(c: Contour, d: Vec): Contour {
    Contour(Plus(c.start, d), CommandsPlus(c.commands, d))
  }

  function ContoursPlus(cs: seq<Contour>, d: Vec): (r: seq<Contour>)
    ensures |r| == |cs| && forall i :: 0 <= i < |cs| ==> r[i] == ContourPlus(cs[i], d)
  {
    seq(|cs|, i requires 0 <= i < |cs| => ContourPlus(cs[i], d))
  }

  function PointsPlus(pts: seq<OutlinePoint>, d: Vec): (r: seq<OutlinePoint>)
    ensures |r| == |pts|
    ensures forall i :: 0 <= i < |pts| ==> r[i] == OutlinePoint(pts[i].x + d.x, pts[i].y + d.y, pts[i].onCurve)
  {
    seq(|pts|, i requires 0 <= i < |pts| => OutlinePoint(pts[i].x + d.x, pts[i].y + d.y, pts[i].onCurve))
  }

  /** A translation may be applied to the points or by the renderer. */
  lemma PlacedPlus(v: Vec, off: Vec, d: Vec)
    ensures Placed(Plus(v, d), off) == Placed(v, Plus(off, d))
  {
  }

  lemma CommandMoved(c: Command, here: Point, off: Vec, d: Vec, low: int, high: int)
    requires IsPosition(here) && CommandFits(c, Plus(off, d)) && CommandFits(CommandPlus(c, d), off)
    ensures CommandPoints(CommandPlus(c, d), here, off, low, high) == CommandPoints(c, here, Plus(off, d), low, high)
  {
    hide DrawnConic, CubicPoints, Placed;
    PlacedPlus(c.to, off, d);
    match c {
      case LineCmd(_) =>
      case ConicCmd(c1, _, _) => PlacedPlus(c1, off, d);
      case CubicCmd(c1, c2, _) =>
        PlacedPlus(c1, off, d);
        PlacedPlus(c2, off, d);
    }
  }

  lemma {:induction false} CommandsMoved(cs: seq<Command>, here: Point, off: Vec, d: Vec, low: int, high: int)
    requires IsPosition(here) && AllFit(cs, Plus(off, d)) && AllFit(CommandsPlus(cs, d), off)
    ensures Flattened(CommandsPlus(cs, d), here, off, low, high) == Flattened(cs, here, Plus(off, d), low, high)
    decreases |cs|
  {
    hide CommandPoints, CommandPlus, CommandFits;
    if cs != [] {
      var moved := CommandsPlus(cs, d);
      assert moved[0] == CommandPlus(cs[0], d) && moved[1..] == CommandsPlus(cs[1..], d);
      assert CommandFits(cs[0], Plus(off, d)) && CommandFits(moved[0], off);
      CommandMoved(cs[0], here, off, d, low, high);
      CommandsMoved(cs[1..], CommandEnd(cs[0], here, Plus(off, d), low, high), off, d, low, high);
    }
  }

  /** Translating in the renderer draws the same segments as moving all commands first. */
  lemma {:induction false} GlyphMoved(cs: seq<Contour>, off: Vec, d: Vec, low: int, high: int)
    requires ContoursFit(cs, Plus(off, d)) && ContoursFit(ContoursPlus(cs, d), off)
    ensures GlyphSegments(ContoursPlus(cs, d), off, low, high) == GlyphSegments(cs, Plus(off, d), low, high)
    decreases |cs|
  {
    hide PathSegments, Flattened, CommandsPlus, AllFit, Placed;
    if cs != [] {
      var moved := ContoursPlus(cs, d);
      assert moved[0] == ContourPlus(cs[0], d) && moved[1..] == ContoursPlus(cs[1..], d);
      assert ContourFits(cs[0], Plus(off, d)) && ContourFits(moved[0], off);
      PlacedPlus(cs[0].start, off, d);
      PlacedIsPosition(moved[0].start, off);
      CommandsMoved(cs[0].commands, Placed(moved[0].start, off), off, d, low, high);
      GlyphMoved(cs[1..], off, d, low, high);
    }
  }

  // ---------------------------------------------------------------- decomposing the moved points

  /** Halving commutes with moving, for 32-bit sums, exactly if the sum is even or stays on its side of
      zero, since it rounds toward zero. */
  lemma MiddleMoves(a: int, b: int, d: int)
    requires Is32(a + b) && Is32(a + d + (b + d))
    ensures MiddleOf(a + d, b + d) == MiddleOf(a, b) + d <==>
      (a + b) % 2 == 0 || (0 <= a + b <==> 0 <= a + b + 2 * d)
  {
    assert Wrap32(a + b) == a + b && Wrap32(a + d + (b + d)) == a + b + 2 * d;
    hide Wrap32;
    var s := a + b;
    HalvedAfter(s, d);
  }

  lemma HalvedAfter(s: int, d: int)
    ensures TruncDiv(s + 2 * d, 2) == TruncDiv(s, 2) + d <==> s % 2 == 0 || (0 <= s <==> 0 <= s + 2 * d)
  {
  }

  lemma ConsEqual<T>(a: T, x: seq<T>, b: T, y: seq<T>)
    ensures [a] + x == [b] + y <==> a == b && x == y
  {
    if [a] + x == [b] + y {
      assert ([a] + x)[0] == a && ([b] + y)[0] == b;
      assert ([a] + x)[1..] == x && ([b] + y)[1..] == y;
    }
  }

  /** Command i is no implied conic, or the implied point moves with its control points. */
  ghost predicate MovesAlong(cs: seq<Command>, i: nat, d: Vec)
    requires i < |cs|
  {
    cs[i].ConicCmd? && cs[i].implied ==>
      i + 1 < |cs| && cs[i + 1].ConicCmd? && Middle(Plus(cs[i].c, d), Plus(cs[i + 1].c, d)) == Plus(cs[i].to, d)
  }

  /** Every implied point moves with its control points. */
  ghost predicate ImpliedMove(cs: seq<Command>, d: Vec) {
    forall i :: 0 <= i < |cs| ==> MovesAlong(cs, i, d)
  }

  lemma LaterMoves(c: Command, rest: seq<Command>, i: nat, d: Vec)
    requires i < |rest|
    ensures MovesAlong([c] + rest, i + 1, d) <==> MovesAlong(rest, i, d)
  {
    hide Middle, Plus;
    var cs := [c] + rest;
    assert cs[i + 1] == rest[i] && (i + 1 < |rest| ==> cs[i + 2] == rest[i + 1]);
  }

  /** One command in front. */
  lemma CommandInFront(c: Command, rest: seq<Command>, d: Vec)
    ensures CommandsPlus([c] + rest, d) == [CommandPlus(c, d)] + CommandsPlus(rest, d)
    ensures ImpliedMove([c] + rest, d) <==> ImpliedMove(rest, d) && MovesAlong([c] + rest, 0, d)
  {
    hide CommandPlus, MovesAlong;
    var cs := [c] + rest;
    if ImpliedMove(cs, d) {
      forall i | 0 <= i < |rest| ensures MovesAlong(rest, i, d) {
        LaterMoves(c, rest, i, d);
      }
    }
    if ImpliedMove(rest, d) && MovesAlong(cs, 0, d) {
      forall i | 0 <= i < |cs| ensures MovesAlong(cs, i, d) {
        if 0 < i {
          LaterMoves(c, rest, i - 1, d);
        }
      }
    }
  }

  /** The same parse, with everything but the implied points moved: it is the moved parse exactly if
      the implied points move along. */
  ghost predicate ParsesAlike(cs: Parsed<seq<Command>>, moved: Parsed<seq<Command>>, d: Vec) {
    if cs.Err? then moved == cs
    else moved.Ok? && (moved.value == CommandsPlus(cs.value, d) <==> ImpliedMove(cs.value, d))
  }

  lemma AlikeInFront(c: Command, cs: Parsed<seq<Command>>, moved: Parsed<seq<Command>>, d: Vec)
    requires ParsesAlike(cs, moved, d) && !(c.ConicCmd? && c.implied)
    ensures ParsesAlike(Prepend(c, cs), Prepend(CommandPlus(c, d), moved), d)
  {
    hide CommandPlus, ImpliedMove, CommandsPlus;
    if cs.Ok? {
      CommandInFront(c, cs.value, d);
      ConsEqual(CommandPlus(c, d), moved.value, CommandPlus(c, d), CommandsPlus(cs.value, d));
    }
  }

  lemma AlikeAlone(c: Command, d: Vec)
    requires !(c.ConicCmd? && c.implied)
    ensures ParsesAlike(Ok([c]), Ok([CommandPlus(c, d)]), d)
  {
    hide CommandPlus;
    assert [c] == [c] + [];
    CommandInFront(c, [], d);
    assert CommandsPlus([], d) == [];
  }

  lemma MovedAt(pts: seq<OutlinePoint>, tags: seq<int>, i: nat, d: Vec)
    requires i < |pts|
    ensures TagAt(PointsPlus(pts, d), tags, i) == TagAt(pts, tags, i)
    ensures At(PointsPlus(pts, d), i) == Plus(At(pts, i), d)
  {
  }

  lemma {:induction false} CommandsAlike(pts: seq<OutlinePoint>, tags: seq<int>, cursor: int, limit: int, start: Vec,
                                         d: Vec)
    requires -1 <= cursor && limit < |pts|
    ensures ParsesAlike(Commands(pts, tags, cursor, limit, start),
                        Commands(PointsPlus(pts, d), tags, cursor, limit, Plus(start, d)), d)
    decreases limit - cursor, 1
  {
    hide TagAt, At, PointsPlus, ParsesAlike, Plus;
    if limit <= cursor {
      AlikeAlone(LineCmd(start), d);
    } else {
      MovedAt(pts, tags, cursor + 1, d);
      var tag, v := TagAt(pts, tags, cursor + 1), At(pts, cursor + 1);
      if tag == TAG_ON {
        CommandsAlike(pts, tags, cursor + 1, limit, start, d);
        AlikeInFront(LineCmd(v), Commands(pts, tags, cursor + 1, limit, start),
          Commands(PointsPlus(pts, d), tags, cursor + 1, limit, Plus(start, d)), d);
      } else if tag == TAG_CONIC {
        ConicCommandsAlike(pts, tags, cursor + 1, limit, start, v, d);
      } else if cursor + 2 <= limit {
        MovedAt(pts, tags, cursor + 2, d);
        if TagAt(pts, tags, cursor + 2) != TAG_CUBIC {
          FailAlike(BadCubic, d);
        } else if cursor + 3 <= limit {
          MovedAt(pts, tags, cursor + 3, d);
          CommandsAlike(pts, tags, cursor + 3, limit, start, d);
          AlikeInFront(CubicCmd(v, At(pts, cursor + 2), At(pts, cursor + 3)),
            Commands(pts, tags, cursor + 3, limit, start),
            Commands(PointsPlus(pts, d), tags, cursor + 3, limit, Plus(start, d)), d);
        } else {
          AlikeAlone(CubicCmd(v, At(pts, cursor + 2), start), d);
        }
      } else {
        FailAlike(BadCubic, d);
      }
    }
  }

  lemma FailAlike(e: OutlineError, d: Vec)
    ensures ParsesAlike(Err(e), Err(e), d)
  {
  }

  lemma {:induction false} ConicCommandsAlike(pts: seq<OutlinePoint>, tags: seq<int>, cursor: int, limit: int,
                                              start: Vec, control: Vec, d: Vec)
    requires -1 <= cursor && limit < |pts|
    ensures ParsesAlike(ConicCommands(pts, tags, cursor, limit, start, control),
                        ConicCommands(PointsPlus(pts, d), tags, cursor, limit, Plus(start, d), Plus(control, d)), d)
    decreases limit - cursor, 0
  {
    hide TagAt, At, PointsPlus, ParsesAlike, Plus, Middle;
    if cursor < limit {
      MovedAt(pts, tags, cursor + 1, d);
      var tag, v := TagAt(pts, tags, cursor + 1), At(pts, cursor + 1);
      if tag == TAG_ON {
        CommandsAlike(pts, tags, cursor + 1, limit, start, d);
        AlikeInFront(ConicCmd(control, v, false), Commands(pts, tags, cursor + 1, limit, start),
          Commands(PointsPlus(pts, d), tags, cursor + 1, limit, Plus(start, d)), d);
      } else if tag != TAG_CONIC {
        FailAlike(ExpectedConic, d);
      } else {
        ConicCommandsAlike(pts, tags, cursor + 1, limit, start, v, d);
        if ConicCommands(pts, tags, cursor + 1, limit, start, v).Ok? {
          ConicCommandsImplied(pts, tags, cursor + 1, limit, start, v);
        }
        ImpliedInFront(control, v, ConicCommands(pts, tags, cursor + 1, limit, start, v),
          ConicCommands(PointsPlus(pts, d), tags, cursor + 1, limit, Plus(start, d), Plus(v, d)), d);
      }
    } else {
      AlikeAlone(ConicCmd(control, start, false), d);
    }
  }

  lemma ImpliedInFront(control: Vec, v: Vec, cs: Parsed<seq<Command>>, moved: Parsed<seq<Command>>, d: Vec)
    requires ParsesAlike(cs, moved, d)
    requires cs.Ok? ==> cs.value != [] && cs.value[0].ConicCmd? && cs.value[0].c == v
    ensures ParsesAlike(Prepend(ConicCmd(control, Middle(control, v), true), cs),
                        Prepend(ConicCmd(Plus(control, d), Middle(Plus(control, d), Plus(v, d)), true), moved), d)
  {
    hide ImpliedMove, CommandsPlus, Middle, Plus;
    if cs.Ok? {
      var c := ConicCmd(control, Middle(control, v), true);
      var c' := ConicCmd(Plus(control, d), Middle(Plus(control, d), Plus(v, d)), true);
      CommandInFront(c, cs.value, d);
      ConsEqual(c', moved.value, CommandPlus(c, d), CommandsPlus(cs.value, d));
    }
  }

  /** The start of a contour moves along, too, unless it is an implied one that does not. */
  ghost predicate StartMoves(pts: seq<OutlinePoint>, tags: seq<int>, first: nat, last: int, d: Vec)
    requires first <= last < |pts|
  {
    StartOf(PointsPlus(pts, d), tags, first, last).0 == Plus(StartOf(pts, tags, first, last).0, d)
  }

  /** Moving the points of a contour moves its parse exactly if its implied points move along. */
  lemma ContourAlike(pts: seq<OutlinePoint>, tags: seq<int>, first: nat, last: int, d: Vec)
    requires first <= last < |pts|
    ensures var c, moved := ContourOf(pts, tags, first, last), ContourOf(PointsPlus(pts, d), tags, first, last);
            if c.Err? then moved.Err? && moved.error == c.error
            else moved.Ok? && (moved.value == ContourPlus(c.value, d)
                               <==> StartMoves(pts, tags, first, last, d) && ImpliedMove(c.value.commands, d))
  {
    hide TagAt, At, PointsPlus, Commands, Plus, Middle;
    MovedAt(pts, tags, first, d);
    MovedAt(pts, tags, last, d);
    var (start, cursor, limit) := StartOf(pts, tags, first, last);
    var (start', cursor', limit') := StartOf(PointsPlus(pts, d), tags, first, last);
    assert cursor' == cursor && limit' == limit;
    CommandsAlike(pts, tags, cursor, limit, start, d);
    SameOutcome(PointsPlus(pts, d), tags, cursor, limit, Plus(start, d), start');
  }

  /** Where a contour starts does not decide whether it parses. */
  lemma {:induction false} SameOutcome(pts: seq<OutlinePoint>, tags: seq<int>, cursor: int, limit: int, start: Vec,
                                       start': Vec)
    requires -1 <= cursor && limit < |pts|
    ensures var a, b := Commands(pts, tags, cursor, limit, start), Commands(pts, tags, cursor, limit, start');
            if a.Err? then b == a else b.Ok?
    decreases limit - cursor, 1
  {
    hide TagAt, At;
    if cursor < limit {
      var tag := TagAt(pts, tags, cursor + 1);
      if tag == TAG_ON {
        SameOutcome(pts, tags, cursor + 1, limit, start, start');
      } else if tag == TAG_CONIC {
        SameConicOutcome(pts, tags, cursor + 1, limit, start, start', At(pts, cursor + 1));
      } else if cursor + 3 <= limit {
        SameOutcome(pts, tags, cursor + 3, limit, start, start');
      }
    }
  }

  lemma {:induction false} SameConicOutcome(pts: seq<OutlinePoint>, tags: seq<int>, cursor: int, limit: int,
                                            start: Vec, start': Vec, control: Vec)
    requires -1 <= cursor && limit < |pts|
    ensures var a, b := ConicCommands(pts, tags, cursor, limit, start, control),
              ConicCommands(pts, tags, cursor, limit, start', control);
            if a.Err? then b == a else b.Ok?
    decreases limit - cursor, 0
  {
    hide TagAt, At, Middle;
    if cursor < limit {
      if TagAt(pts, tags, cursor + 1) == TAG_ON {
        SameOutcome(pts, tags, cursor + 1, limit, start, start');
      } else if TagAt(pts, tags, cursor + 1) == TAG_CONIC {
        SameConicOutcome(pts, tags, cursor + 1, limit, start, start', At(pts, cursor + 1));
      }
    }
  }

  /** All implied points of the outline, starts included, move along. */
  ghost predicate OutlineMoves(pts: seq<OutlinePoint>, tags: seq<int>, ends: seq<int>, last: int, d: Vec)
    requires -1 <= last && (forall i :: 0 <= i < |ends| ==> ends[i] < |pts|)
    decreases |ends|
  {
    ends != [] && last < ends[0] && ContourOf(pts, tags, last + 1, ends[0]).Ok? ==>
      && StartMoves(pts, tags, last + 1, ends[0], d)
      && ImpliedMove(ContourOf(pts, tags, last + 1, ends[0]).value.commands, d)
      && OutlineMoves(pts, tags, ends[1..], ends[0], d)
  }

  /** Moving the points of an outline moves its parse exactly if its implied points move along. */
  lemma {:induction false} OutlineAlike(pts: seq<OutlinePoint>, tags: seq<int>, ends: seq<int>, last: int, d: Vec)
    requires -1 <= last && (forall i :: 0 <= i < |ends| ==> ends[i] < |pts|)
    ensures var all, moved := ContoursFrom(pts, tags, ends, last), ContoursFrom(PointsPlus(pts, d), tags, ends, last);
            if all.Err? then moved == all
            else moved.Ok? && (moved.value == ContoursPlus(all.value, d) <==> OutlineMoves(pts, tags, ends, last, d))
    decreases |ends|
  {
    hide ContourOf, PointsPlus, StartMoves, ImpliedMove, ContourPlus;
    if ends != [] && last < ends[0] {
      ContourAlike(pts, tags, last + 1, ends[0], d);
      OutlineAlike(pts, tags, ends[1..], ends[0], d);
      var c, moved := ContourOf(pts, tags, last + 1, ends[0]), ContourOf(PointsPlus(pts, d), tags, last + 1, ends[0]);
      var rest, rest' := ContoursFrom(pts, tags, ends[1..], ends[0]),
        ContoursFrom(PointsPlus(pts, d), tags, ends[1..], ends[0]);
      if c.Ok? && rest.Ok? {
        ConsEqual(moved.value, rest'.value, ContourPlus(c.value, d), ContoursPlus(rest.value, d));
        assert ContoursPlus([c.value] + rest.value, d) == [ContourPlus(c.value, d)] + ContoursPlus(rest.value, d);
      }
    }
  }

  /** Rendering with a translation is rendering the outline whose points are moved by it, if its
      implied points move along: they do when their sums are even or keep their sign. */
  lemma ImageMoved(pts: seq<OutlinePoint>, tags: seq<int>, contours: seq<int>, nContours: nat, evenOdd: bool,
                   dx: int, dy: int, ex: int, ey: int, width: nat, height: nat)
    requires forall i :: 0 <= i < |contours| ==> contours[i] < |pts|
    requires PointsFit(pts, Vec(ex + dx, ey + dy)) && PointsFit(PointsPlus(pts, Vec(dx, dy)), Vec(ex, ey))
    requires OutlineMoves(pts, tags, Taken(contours, nContours), -1, Vec(dx, dy))
    ensures Image(pts, tags, contours, nContours, evenOdd, ex + dx, ey + dy, width, height)
         == Image(PointsPlus(pts, Vec(dx, dy)), tags, contours, nContours, evenOdd, ex, ey, width, height)
  {
    hide GlyphSegments, ContoursFrom, PixelByte, PointsPlus, OutlineMoves, ContoursPlus, ContoursFit, PointsFit;
    var d, off, ends := Vec(dx, dy), Vec(ex, ey), Taken(contours, nContours);
    OutlineAlike(pts, tags, ends, -1, d);
    var all := ContoursFrom(pts, tags, ends, -1);
    if all.Ok? {
      ContoursFromFit(pts, tags, ends, -1, Plus(off, d));
      ContoursFromFit(PointsPlus(pts, d), tags, ends, -1, off);
      GlyphMoved(all.value, off, d, 0, height);
    }
  }

  /** An implied point that does not move along: between the controls -1 and 0 it is 0, and between
      0 and 1 it is 0 again. */
  lemma StayingMiddle()
    ensures Middle(Vec(-1, 0), Vec(0, 0)) == Vec(0, 0)
      == Middle(Plus(Vec(-1, 0), Vec(1, 0)), Plus(Vec(0, 0), Vec(1, 0)))
  {
  }

  // ---------------------------------------------------------------- moving by whole pixels

  function Shift(p: Point, k: int, m: int): Point {
    Point(p.x + ONE_PIXEL * k, p.y + ONE_PIXEL * m)
  }

  function ShiftAll(points: seq<Point>, k: int, m: int): (r: seq<Point>)
    ensures |r| == |points| && forall i :: 0 <= i < |points| ==> r[i] == Shift(points[i], k, m)
  {
    seq(|points|, i requires 0 <= i < |points| => Shift(points[i], k, m))
  }

  function ShiftSegment(s: Segment, k: int, m: int): Segment {
    s.(ex := s.ex + k, ey := s.ey + m)
  }

  function ShiftSegments(segs: seq<Segment>, k: int, m: int): (r: seq<Segment>)
    ensures |r| == |segs| && forall i :: 0 <= i < |segs| ==> r[i] == ShiftSegment(segs[i], k, m)
  {
    seq(|segs|, i requires 0 <= i < |segs| => ShiftSegment(segs[i], k, m))
  }

  lemma {:induction false} ShiftedArea(segs: seq<Segment>, k: int, m: int, x: int, y: int)
    ensures PixelArea(ShiftSegments(segs, k, m), x + k, y + m) == PixelArea(segs, x, y)
  {
    if segs != [] {
      var moved := ShiftSegments(segs, k, m);
      ShiftedArea(segs[1..], k, m, x, y);
      assert moved[0] == ShiftSegment(segs[0], k, m) && moved[1..] == ShiftSegments(segs[1..], k, m);
    }
  }

  lemma ShiftConcat(a: seq<Segment>, b: seq<Segment>, k: int, m: int)
    ensures ShiftSegments(a + b, k, m) == ShiftSegments(a, k, m) + ShiftSegments(b, k, m)
  {
  }

  lemma PixelOfShifted(v: int, k: int)
    ensures Trunc(v + ONE_PIXEL * k) == Trunc(v) + k && Fract(v + ONE_PIXEL * k) == Fract(v)
  {
  }

  function ShiftLine(l: Line, k: int, m: int): Line {
    Line(Shift(l.from, k, m), Shift(l.to, k, m))
  }

  function ShiftCursor(c: Cursor, k: int, m: int): Cursor {
    c.(ex := c.ex + k, ey := c.ey + m)
  }

  lemma ReciprocalsStay(l: Line, k: int, m: int)
    ensures ShiftLine(l, k, m).Dx() == l.Dx() && ShiftLine(l, k, m).Dy() == l.Dy()
    ensures DxReciprocal(ShiftLine(l, k, m)) == DxReciprocal(l) && DyReciprocal(ShiftLine(l, k, m)) == DyReciprocal(l)
  {
    PixelOfShifted(l.from.x, k);
    PixelOfShifted(l.to.x, k);
    PixelOfShifted(l.from.y, m);
    PixelOfShifted(l.to.y, m);
    hide UDivPrep, Trunc;
  }

  lemma StepShifted(l: Line, c: Cursor, k: int, m: int)
    ensures StepSegment(ShiftLine(l, k, m), ShiftCursor(c, k, m)) == ShiftSegment(StepSegment(l, c), k, m)
    ensures StepCursor(ShiftLine(l, k, m), ShiftCursor(c, k, m)) == ShiftCursor(StepCursor(l, c), k, m)
    ensures Distance(ShiftLine(l, k, m), ShiftCursor(c, k, m)) == Distance(l, c)
  {
    ReciprocalsStay(l, k, m);
    PixelOfShifted(l.to.x, k);
    PixelOfShifted(l.to.y, m);
    hide UDiv, DxReciprocal, DyReciprocal, Trunc, Line.Dx, Line.Dy;
  }

  lemma {:induction false} WalkShifted(l: Line, c: Cursor, k: int, m: int)
    requires OnCourse(l, c) && OnCourse(ShiftLine(l, k, m), ShiftCursor(c, k, m))
    ensures WalkFrom(ShiftLine(l, k, m), ShiftCursor(c, k, m)) == ShiftSegments(WalkFrom(l, c), k, m)
    decreases Distance(l, c)
  {
    hide OnCourse, StepSegment, StepCursor, Distance, ShiftLine;
    var l', c' := ShiftLine(l, k, m), ShiftCursor(c, k, m);
    StepShifted(l, c, k, m);
    WalkUnfold(l, c);
    WalkUnfold(l', c');
    if Distance(l, c) == 0 {
      LastShifted(l, c, k, m);
    } else {
      StepKeepsCourse(l, c);
      WalkShifted(l, StepCursor(l, c), k, m);
      ShiftConcat([StepSegment(l, c)], WalkFrom(l, StepCursor(l, c)), k, m);
      assert ShiftSegments([StepSegment(l, c)], k, m) == [ShiftSegment(StepSegment(l, c), k, m)];
    }
  }

  lemma LastShifted(l: Line, c: Cursor, k: int, m: int)
    ensures var l', c' := ShiftLine(l, k, m), ShiftCursor(c, k, m);
            [Segment(c'.ex, c'.ey, c'.fx, c'.fy, Fract(l'.to.x), Fract(l'.to.y))]
            == ShiftSegments([Segment(c.ex, c.ey, c.fx, c.fy, Fract(l.to.x), Fract(l.to.y))], k, m)
  {
    PixelOfShifted(l.to.x, k);
    PixelOfShifted(l.to.y, m);
    hide Fract;
  }

  lemma {:induction false} ColumnShifted(ex: int, fx: int, ey: int, fy: int, to: Point, k: int, m: int)
    ensures ColumnWalk(ex + k, fx, ey + m, fy, Shift(to, k, m)) == ShiftSegments(ColumnWalk(ex, fx, ey, fy, to), k, m)
    decreases Abs(Trunc(to.y) - ey)
  {
    hide ShiftSegments;
    PixelOfShifted(to.x, k);
    PixelOfShifted(to.y, m);
    if ey < Trunc(to.y) {
      ColumnShifted(ex, fx, ey + 1, 0, to, k, m);
      InFront(Segment(ex, ey, fx, fy, fx, ONE_PIXEL), ColumnWalk(ex, fx, ey + 1, 0, to), k, m);
    } else if ey > Trunc(to.y) {
      ColumnShifted(ex, fx, ey - 1, ONE_PIXEL, to, k, m);
      InFront(Segment(ex, ey, fx, fy, fx, 0), ColumnWalk(ex, fx, ey - 1, ONE_PIXEL, to), k, m);
    } else {
      InFront(Segment(ex, ey, fx, fy, Fract(to.x), Fract(to.y)), [], k, m);
    }
  }

  lemma InFront(s: Segment, rest: seq<Segment>, k: int, m: int)
    ensures ShiftSegments([s] + rest, k, m) == [ShiftSegment(s, k, m)] + ShiftSegments(rest, k, m)
    ensures ShiftSegments([s], k, m) == [ShiftSegment(s, k, m)]
  {
  }

  /** A line that is moved by whole pixels visits the moved cells in the same way. */
  lemma LineShifted(p: Point, q: Point, k: int, m: int)
    requires IsPosition(p) && IsPosition(q) && IsPosition(Shift(p, k, m)) && IsPosition(Shift(q, k, m))
    ensures LineSegments(Shift(p, k, m), Shift(q, k, m)) == ShiftSegments(LineSegments(p, q), k, m)
  {
    hide ShiftSegments, Trunc, Fract, OnCourse, WalkFrom, ColumnWalk, IsPosition;
    PixelOfShifted(p.x, k);
    PixelOfShifted(p.y, m);
    PixelOfShifted(q.x, k);
    PixelOfShifted(q.y, m);
    if SameCell(p, q) {
      InFront(Segment(Trunc(p.x), Trunc(p.y), Fract(p.x), Fract(p.y), Fract(q.x), Fract(q.y)), [], k, m);
    } else if p.y == q.y {
      NothingShifted(k, m);
    } else if p.x == q.x {
      ColumnShifted(Trunc(p.x), Fract(p.x), Trunc(p.y), Fract(p.y), q, k, m);
    } else {
      FirstShifted(Line(p, q), k, m);
      SlantedStart(p, q);
      SlantedStart(Shift(p, k, m), Shift(q, k, m));
      WalkShifted(Line(p, q), FirstCursor(Line(p, q)), k, m);
    }
  }

  lemma NothingShifted(k: int, m: int)
    ensures ShiftSegments([], k, m) == []
  {
  }

  lemma FirstShifted(l: Line, k: int, m: int)
    ensures FirstCursor(ShiftLine(l, k, m)) == ShiftCursor(FirstCursor(l), k, m)
  {
    PixelOfShifted(l.from.x, k);
    PixelOfShifted(l.from.y, m);
    ReciprocalsStay(l, k, m);
    hide Trunc, Fract, Line.Dx, Line.Dy;
  }

  lemma {:induction false} PathShifted(p: Point, points: seq<Point>, k: int, m: int)
    requires IsPosition(p) && IsPosition(Shift(p, k, m)) && forall q :: q in points ==> IsPosition(q)
    requires forall q :: q in ShiftAll(points, k, m) ==> IsPosition(q)
    ensures PathSegments(Shift(p, k, m), ShiftAll(points, k, m)) == ShiftSegments(PathSegments(p, points), k, m)
    decreases |points|
  {
    hide LineSegments, ShiftSegments, IsPosition;
    if points == [] {
      NothingShifted(k, m);
    } else {
      var moved := ShiftAll(points, k, m);
      assert moved[0] == Shift(points[0], k, m) && moved[1..] == ShiftAll(points[1..], k, m) && moved[0] in moved;
      LineShifted(p, points[0], k, m);
      PathShifted(points[0], points[1..], k, m);
      ShiftConcat(LineSegments(p, points[0]), PathSegments(points[0], points[1..]), k, m);
    }
  }

  // ---------------------------------------------------------------- curves

  lemma ConicValueShifted(p0: int, p1: int, p2: int, n: nat, i: nat, c: int)
    requires 0 < n && i <= n && Is32(p0) && Is32(p1) && Is32(p2) && Is32(p0 + c) && Is32(p1 + c) && Is32(p2 + c)
    ensures ConicValue(p0 + c, p1 + c, p2 + c, n, i) == ConicValue(p0, p1, p2, n, i) + c
  {
    ConicValueExact(p0, p1, p2, n, i);
    ConicValueExact(p0 + c, p1 + c, p2 + c, n, i);
    hide ConicValue;
    BezierShifted(p0, p1, p2, n, i, c);
    QuotientShifted(Bezier2(p0, p1, p2, n, i), n * n, c);
  }

  lemma BezierShifted(p0: int, p1: int, p2: int, n: int, i: int, c: int)
    ensures Bezier2(p0 + c, p1 + c, p2 + c, n, i) == Bezier2(p0, p1, p2, n, i) + c * (n * n)
  {
    var a, b, e := (n - i) * (n - i), 2 * i * (n - i), i * i;
    assert a + b + e == n * n;
    Distribute(a, p0, c);
    Distribute(b, p1, c);
    Distribute(e, p2, c);
    Distribute(c, a, b);
    Distribute(c, a + b, e);
  }

  lemma QuotientShifted(v: int, d: nat, c: int)
    requires 0 < d
    ensures (v + c * d) / d == v / d + c
  {
    DivUnique(v + c * d, d, v / d + c, v % d);
  }

  lemma DeviationShifted(p0: Point, p1: Point, p2: Point, k: int, m: int)
    ensures ConicDeviation(Shift(p0, k, m), Shift(p1, k, m), Shift(p2, k, m)) == ConicDeviation(p0, p1, p2)
  {
  }

  lemma ConicShifted(p0: Point, p1: Point, p2: Point, k: int, m: int)
    requires Fits32(p0) && Fits32(p1) && Fits32(p2)
    requires Fits32(Shift(p0, k, m)) && Fits32(Shift(p1, k, m)) && Fits32(Shift(p2, k, m))
    ensures ConicPoints(Shift(p0, k, m), Shift(p1, k, m), Shift(p2, k, m)) == ShiftAll(ConicPoints(p0, p1, p2), k, m)
  {
    hide ConicDeviation, ConicValue, Halvings, Pow2;
    DeviationShifted(p0, p1, p2, k, m);
    if ConicDeviation(p0, p1, p2) > ONE_PIXEL / 4 {
      var n := ConicSteps(p0, p1, p2);
      forall i | 1 <= i <= n
        ensures ConicPoint(Shift(p0, k, m), Shift(p1, k, m), Shift(p2, k, m), n, i)
             == Shift(ConicPoint(p0, p1, p2, n, i), k, m)
      {
        ConicValueShifted(p0.x, p1.x, p2.x, n, i, ONE_PIXEL * k);
        ConicValueShifted(p0.y, p1.y, p2.y, n, i, ONE_PIXEL * m);
      }
    }
  }

  lemma ThreeOffBand(a: int, b: int, c: int, low: int, high: int)
    ensures OffBand([a, b, c], low, high)
            <==> (high <= Trunc(a) && high <= Trunc(b) && high <= Trunc(c))
                 || (Trunc(a) < low && Trunc(b) < low && Trunc(c) < low)
  {
    var ys := [a, b, c];
    assert a == ys[0] && b == ys[1] && c == ys[2];
  }

  lemma DrawnShifted(p0: Point, p1: Point, p2: Point, low: int, high: int, k: int, m: int)
    requires Fits32(p0) && Fits32(p1) && Fits32(p2)
    requires Fits32(Shift(p0, k, m)) && Fits32(Shift(p1, k, m)) && Fits32(Shift(p2, k, m))
    ensures DrawnConic(Shift(p0, k, m), Shift(p1, k, m), Shift(p2, k, m), low + m, high + m)
         == ShiftAll(DrawnConic(p0, p1, p2, low, high), k, m)
  {
    ThreeOffBand(p0.y, p1.y, p2.y, low, high);
    ThreeOffBand(p0.y + ONE_PIXEL * m, p1.y + ONE_PIXEL * m, p2.y + ONE_PIXEL * m, low + m, high + m);
    PixelOfShifted(p0.y, m);
    PixelOfShifted(p1.y, m);
    PixelOfShifted(p2.y, m);
    hide ConicPoints, OffBand, Fits32, Trunc;
    ConicShifted(p0, p1, p2, k, m);
    assert ShiftAll([p2], k, m) == [Shift(p2, k, m)];
  }

  function ShiftArc(a: Arc, k: int, m: int): Arc {
    Arc(Shift(a.to, k, m), Shift(a.c2, k, m), Shift(a.c1, k, m), Shift(a.from, k, m))
  }

  lemma SplitShifted(to: int, c2: int, c1: int, from: int, k: int)
    ensures var c := ONE_PIXEL * k;
            var (right, left) := SplitAxis(to, c2, c1, from);
            SplitAxis(to + c, c2 + c, c1 + c, from + c)
            == (Axis(right.to + c, right.c2 + c, right.c1 + c, right.from + c),
                Axis(left.to + c, left.c2 + c, left.c1 + c, left.from + c))
  {
  }

  lemma ArcShifted(a: Arc, k: int, m: int)
    ensures ShiftArc(a, k, m).Left() == ShiftArc(a.Left(), k, m)
    ensures ShiftArc(a, k, m).Right() == ShiftArc(a.Right(), k, m)
  {
    SplitShifted(a.to.x, a.c2.x, a.c1.x, a.from.x, k);
    SplitShifted(a.to.y, a.c2.y, a.c1.y, a.from.y, m);
    hide SplitAxis;
  }

  lemma FlatnessStays(a: Arc, k: int, m: int)
    ensures ShiftArc(a, k, m).Deviation() == a.Deviation()
  {
  }

  lemma {:induction false} CubicShifted(a: Arc, k: int, m: int)
    ensures CubicPoints(ShiftArc(a, k, m)) == ShiftAll(CubicPoints(a), k, m)
    decreases a.Deviation()
  {
    hide Arc.Left, Arc.Right, Arc.Deviation;
    FlatnessStays(a, k, m);
    if a.Flat() {
      assert ShiftAll([a.to], k, m) == [Shift(a.to, k, m)];
    } else {
      SplitShrinks(a);
      ArcShifted(a, k, m);
      CubicShifted(a.Left(), k, m);
      CubicShifted(a.Right(), k, m);
    }
  }

  // ---------------------------------------------------------------- whole outlines

  /** A translation that goes further by k and m pixels. */
  function Further(off: Vec, k: int, m: int): Vec {
    Vec(off.x + 64 * k, off.y + 64 * m)
  }

  lemma PlacedFurther(v: Vec, off: Vec, k: int, m: int)
    ensures Placed(v, Further(off, k, m)) == Shift(Placed(v, off), k, m)
  {
  }

  lemma CommandShifted(c: Command, here: Point, off: Vec, low: int, high: int, k: int, m: int)
    requires IsPosition(here) && IsPosition(Shift(here, k, m)) && Fits32(here) && Fits32(Shift(here, k, m))
    requires CommandFits(c, off) && CommandFits(c, Further(off, k, m))
    requires Command32(c, off) && Command32(c, Further(off, k, m))
    ensures CommandPoints(c, Shift(here, k, m), Further(off, k, m), low + m, high + m)
         == ShiftAll(CommandPoints(c, here, off, low, high), k, m)
  {
    hide DrawnConic, CubicPoints, Placed, Fits32;
    PlacedFurther(c.to, off, k, m);
    match c {
      case LineCmd(to) =>
        assert ShiftAll([Placed(to, off)], k, m) == [Shift(Placed(to, off), k, m)];
      case ConicCmd(c1, to, _) =>
        PlacedFurther(c1, off, k, m);
        DrawnShifted(here, Placed(c1, off), Placed(to, off), low, high, k, m);
      case CubicCmd(c1, c2, to) =>
        PlacedFurther(c1, off, k, m);
        PlacedFurther(c2, off, k, m);
        CubicShifted(Arc(Placed(to, off), Placed(c2, off), Placed(c1, off), here), k, m);
    }
  }

  lemma {:induction false} CommandsShifted(cs: seq<Command>, here: Point, off: Vec, low: int, high: int, k: int, m: int)
    requires IsPosition(here) && IsPosition(Shift(here, k, m)) && Fits32(here) && Fits32(Shift(here, k, m))
    requires AllFit(cs, off) && AllFit(cs, Further(off, k, m))
    requires forall i :: 0 <= i < |cs| ==> Command32(cs[i], off) && Command32(cs[i], Further(off, k, m))
    ensures Flattened(cs, Shift(here, k, m), Further(off, k, m), low + m, high + m)
         == ShiftAll(Flattened(cs, here, off, low, high), k, m)
    decreases |cs|
  {
    hide CommandPoints, CommandFits, Command32, Fits32, IsPosition, Further, Shift;
    if cs == [] {
      assert ShiftAll([], k, m) == [];
    } else {
      var off' := Further(off, k, m);
      assert CommandFits(cs[0], off) && CommandFits(cs[0], off') && Command32(cs[0], off) && Command32(cs[0], off');
      CommandShifted(cs[0], here, off, low, high, k, m);
      CommandLands(cs[0], here, off, low, high);
      CommandLands(cs[0], Shift(here, k, m), off', low + m, high + m);
      PlacedFurther(cs[0].to, off, k, m);
      CommandsShifted(cs[1..], Placed(cs[0].to, off), off, low, high, k, m);
    }
  }

  lemma CommandLands(c: Command, here: Point, off: Vec, low: int, high: int)
    requires IsPosition(here) && Fits32(here) && CommandFits(c, off) && Command32(c, off)
    ensures CommandEnd(c, here, off, low, high) == Placed(c.to, off)
    ensures Fits32(Placed(c.to, off)) && IsPosition(Placed(c.to, off))
  {
    hide DrawnConic, CubicPoints, Placed;
    PlacedIsPosition(c.to, off);
    if c.ConicCmd? {
      DrawnConicEnds(here, Placed(c.c, off), Placed(c.to, off), low, high);
    }
  }

  /** Moving an outline in 32-bit subpixels by whole pixels draws the same segments in moved cells. */
  lemma {:induction false} GlyphShifted(cs: seq<Contour>, off: Vec, low: int, high: int, k: int, m: int)
    requires ContoursFit(cs, off) && ContoursFit(cs, Further(off, k, m))
    requires forall i :: 0 <= i < |cs| ==> Contour32(cs[i], off) && Contour32(cs[i], Further(off, k, m))
    ensures GlyphSegments(cs, Further(off, k, m), low + m, high + m)
         == ShiftSegments(GlyphSegments(cs, off, low, high), k, m)
    decreases |cs|
  {
    hide PathSegments, Flattened, Command32, AllFit, Placed, Further, Fits32, ShiftSegments;
    if cs == [] {
      NothingShifted(k, m);
    } else {
      var c, off' := cs[0], Further(off, k, m);
      assert ContourFits(c, off) && ContourFits(c, off') && Contour32(c, off) && Contour32(c, off');
      PlacedIsPosition(c.start, off);
      PlacedIsPosition(c.start, off');
      PlacedFurther(c.start, off, k, m);
      var here := Placed(c.start, off);
      CommandsShifted(c.commands, here, off, low, high, k, m);
      PathShifted(here, Flattened(c.commands, here, off, low, high), k, m);
      assert forall i :: 0 <= i < |cs[1..]| ==> cs[1..][i] == cs[i + 1];
      GlyphShifted(cs[1..], off, low, high, k, m);
      ShiftConcat(ContourSegments(c, off, low, high), GlyphSegments(cs[1..], off, low, high), k, m);
    }
  }

  /** Moving by k and m pixels moves the area of every pixel along. */
  lemma AreaShifted(cs: seq<Contour>, off: Vec, low: int, high: int, k: int, m: int, x: int, y: int)
    requires ContoursFit(cs, off) && ContoursFit(cs, Further(off, k, m))
    requires forall i :: 0 <= i < |cs| ==> Contour32(cs[i], off) && Contour32(cs[i], Further(off, k, m))
    ensures PixelArea(GlyphSegments(cs, Further(off, k, m), low + m, high + m), x + k, y + m)
         == PixelArea(GlyphSegments(cs, off, low, high), x, y)
  {
    hide *;
    GlyphShifted(cs, off, low, high, k, m);
    ShiftedArea(GlyphSegments(cs, off, low, high), k, m, x, y);
  }

  /** Moving an outline in 32-bit subpixels by whole pixels moves its image: a byte goes k places to
      the right and m rows up. */
  lemma ImageShifted(pts: seq<OutlinePoint>, tags: seq<int>, contours: seq<int>, nContours: nat, evenOdd: bool,
                     dx: int, dy: int, width: nat, height: nat, k: int, m: int, x: int, y: int)
    requires forall i :: 0 <= i < |contours| ==> contours[i] < |pts|
    requires PointsFit(pts, Vec(dx, dy)) && PointsFit(pts, Vec(dx + 64 * k, dy + 64 * m))
    requires pts != [] && nContours != 0 && ContoursFrom(pts, tags, Taken(contours, nContours), -1).Ok?
    requires var all := ContoursFrom(pts, tags, Taken(contours, nContours), -1).value;
             forall i :: 0 <= i < |all| ==>
               Contour32(all[i], Vec(dx, dy)) && Contour32(all[i], Vec(dx + 64 * k, dy + 64 * m))
    requires 0 <= x < width && 0 <= x + k < width && 0 <= y < height && 0 <= y + m < height
    ensures var image := Image(pts, tags, contours, nContours, evenOdd, dx, dy, width, height);
            var moved := Image(pts, tags, contours, nContours, evenOdd, dx + 64 * k, dy + 64 * m, width, height);
            && image.Ok? && moved.Ok? && |image.value| == |moved.value| == width * height
            && 0 <= (height - 1 - y) * width + x < width * height
            && 0 <= (height - 1 - (y + m)) * width + (x + k) < width * height
            && moved.value[(height - 1 - (y + m)) * width + (x + k)] == image.value[(height - 1 - y) * width + x]
  {
    hide Image, GlyphSegments, ContoursFrom, Contour32, ContoursFit, PixelArea, FillRule, PointsFit;
    var off, off' := Vec(dx, dy), Vec(dx + 64 * k, dy + 64 * m);
    var all := ContoursFrom(pts, tags, Taken(contours, nContours), -1).value;
    ImageAt(pts, tags, contours, nContours, evenOdd, dx, dy, width, height, x, y);
    ImageAt(pts, tags, contours, nContours, evenOdd, dx + 64 * k, dy + 64 * m, width, height, x + k, y + m);
    AreaShifted(all, off, 0, height, k, m, x, y);
    BandIsInvisible(all, off', 0, height, 0 + m, height + m, x + k, y + m);
  }
}
