/** Straight lines: the cell-by-cell walk of `render_line`. */
module LineWalk {
  import opened Ints
  import opened Segments

  /** Coordinates that `UPSCALE * (i32 + i32)` can produce. */
  const COORD_LIMIT: int := 0x4_0000_0000

  predicate IsCoord(v: int) {
    -COORD_LIMIT <= v <= COORD_LIMIT
  }

  predicate IsPosition(p: Point) {
    IsCoord(p.x) && IsCoord(p.y)
  }

  // ---------------------------------------------------------------- reciprocal division

  /** `ft_udivprep`: the signed reciprocal 0xFFFF_FFFF / b, or 0 when it will not be needed. */
  function UDivPrep(needed: bool, b: int): int
    requires needed ==> b != 0
  {
    if needed then TruncDiv(0xFFFF_FFFF, b) else 0
  }

  /** `ft_udiv`: the high half of a wrapping 64-bit product, cut to 32 bits. */
  function UDiv(a: int, r: int): int {
    Wrap32((a % TWO_64) * (r % TWO_64) % TWO_64 / TWO_32)
  }

  /** For a quotient inside the pixel the reciprocal product stays in 0..255, never exceeds the
      true quotient, and falls short of it by less than 1 + b / 2^24. */
  lemma UDivInPixel(a: int, b: int, r: int)
    requires 0 < b <= 2 * COORD_LIMIT && 0 <= a <= ONE_PIXEL * b
    requires r == 0xFFFF_FFFF / b
    ensures 0 <= UDiv(a, r) < ONE_PIXEL
    ensures 0 <= a - b * UDiv(a, r)
    ensures (a - b * UDiv(a, r)) * 0x100_0000 < b * (0x100_0000 + b)
  {
    ReciprocalBounds(b, r);
    var p := a * r;
    assert 0 <= p <= ONE_PIXEL * 0xFFFF_FFFF by {
      MulMonotone(a, ONE_PIXEL * b, r);
      MulMonotone(0, a, r);
      assert ONE_PIXEL * b * r == ONE_PIXEL * (b * r);
    }
    assert UDiv(a, r) == p / TWO_32 by { UDivOfSmall(a, r); }
    Shortfall(a, b, r, p / TWO_32);
  }

  lemma ReciprocalBounds(b: int, r: int)
    requires 0 < b && r == 0xFFFF_FFFF / b
    ensures 0 <= r <= 0xFFFF_FFFF
    ensures 0 <= b * r <= 0xFFFF_FFFF < b * r + b
  {
    assert 0xFFFF_FFFF == b * r + 0xFFFF_FFFF % b;
  }

  lemma UDivOfSmall(a: int, r: int)
    requires 0 <= a < TWO_64 && 0 <= r < TWO_64 && 0 <= a * r <= ONE_PIXEL * 0xFFFF_FFFF
    ensures UDiv(a, r) == a * r / TWO_32
  {
    assert a % TWO_64 == a && r % TWO_64 == r;
    var p := a * r;
    assert p % TWO_64 == p;
    assert 0 <= p / TWO_32 < ONE_PIXEL;
  }

  lemma Shortfall(a: int, b: int, r: int, q: int)
    requires 0 < b && 0 <= a <= ONE_PIXEL * b
    requires 0 <= b * r <= 0xFFFF_FFFF < b * r + b
    requires q == a * r / TWO_32
    ensures 0 <= a - b * q
    ensures (a - b * q) * 0x100_0000 < b * (0x100_0000 + b)
  {
    var p, s := a * r, b * r;
    var low := p - q * TWO_32;
    assert 0 <= low < TWO_32;
    assert b * p == a * s by { assert b * (a * r) == a * (b * r); }
    // b * q * 2^32 == a * s - b * low, with a * (2^32 - b) <= a * s <= a * 2^32
    assert b * p == (b * q) * TWO_32 + b * low by { assert p == q * TWO_32 + low; MulSplit(b, q, low); }
    MulMonotone(0, low, b);
    MulStrict(low, TWO_32, b);
    assert a * s <= a * TWO_32 by { MulMonotone(s, TWO_32, a); }
    assert a * s >= a * TWO_32 - a * b by { MulMonotone(TWO_32 - b, s, a); MulSub(a, b); }
    assert a * b <= ONE_PIXEL * (b * b) by { MulMonotone(a, ONE_PIXEL * b, b); }
    ShortBy(a, b, a * b, b * q, b * b);
  }

  lemma MulSplit(b: int, q: int, low: int)
    ensures b * (q * TWO_32 + low) == (b * q) * TWO_32 + b * low
  {
  }

  lemma MulSub(a: int, b: int)
    ensures (TWO_32 - b) * a == a * TWO_32 - a * b
  {
  }

  lemma ShortBy(a: int, b: int, ab: int, bq: int, bb: int)
    requires bq * TWO_32 <= a * TWO_32
    requires a * TWO_32 - ab < bq * TWO_32 + b * TWO_32
    requires ab <= ONE_PIXEL * bb && bb == b * b
    ensures 0 <= a - bq
    ensures (a - bq) * 0x100_0000 < b * (0x100_0000 + b)
  {
    assert b * (0x100_0000 + b) == b * 0x100_0000 + bb;
  }

  // ---------------------------------------------------------------- the general line

  datatype Line = Line(from: Point, to: Point)
  {
    function Dx(): int {
      to.x - from.x
    }

    function Dy(): int {
      to.y - from.y
    }

    /** Cross product of the line's direction with the way from p to the line: zero on the line,
        of opposite signs on its two sides. */
    function Side(p: Point): int {
      Dx() * (from.y - p.y) - Dy() * (from.x - p.x)
    }

    predicate Slanted() {
      Dx() != 0 && Dy() != 0
    }
  }

  /** Loop state: the current cell, the entry point in it, and the `prod` of the source. */
  datatype Cursor = Cursor(ex: int, ey: int, fx: int, fy: int, prod: int)

  datatype Exit = Left | Up | Right | Down

  /** The decision of one iteration, in the order in which the source tests it. */
  function ExitSide(l: Line, prod: int): Exit {
    var pLeft := prod - l.Dx() * ONE_PIXEL;
    var pUp := pLeft + l.Dy() * ONE_PIXEL;
    var pRight := prod + l.Dy() * ONE_PIXEL;
    if pLeft > 0 && prod <= 0 then Left
    else if pUp > 0 && pLeft <= 0 then Up
    else if pRight >= 0 && pUp <= 0 then Right
    else Down
  }

  function DxReciprocal(l: Line): int {
    UDivPrep(Trunc(l.from.x) != Trunc(l.to.x), l.Dx())
  }

  function DyReciprocal(l: Line): int {
    UDivPrep(Trunc(l.from.y) != Trunc(l.to.y), l.Dy())
  }

  /** The piece walked inside the current cell. */
  function StepSegment(l: Line, c: Cursor): Segment {
    match ExitSide(l, c.prod)
    case Left => Segment(c.ex, c.ey, c.fx, c.fy, 0, UDiv(-c.prod, -DxReciprocal(l)))
    case Up => Segment(c.ex, c.ey, c.fx, c.fy, UDiv(-(c.prod - l.Dx() * ONE_PIXEL), DyReciprocal(l)), ONE_PIXEL)
    case Right => Segment(c.ex, c.ey, c.fx, c.fy, ONE_PIXEL, UDiv(c.prod + l.Dy() * ONE_PIXEL, DxReciprocal(l)))
    case Down => Segment(c.ex, c.ey, c.fx, c.fy, UDiv(c.prod, -DyReciprocal(l)), 0)
  }

  /** The state after the step: the neighbouring cell, entered where the segment ended. */
  function StepCursor(l: Line, c: Cursor): Cursor {
    var s := StepSegment(l, c);
    match ExitSide(l, c.prod)
    case Left => Cursor(c.ex - 1, c.ey, ONE_PIXEL, s.fy2, c.prod - l.Dy() * ONE_PIXEL)
    case Up => Cursor(c.ex, c.ey + 1, s.fx2, 0, c.prod - l.Dx() * ONE_PIXEL)
    case Right => Cursor(c.ex + 1, c.ey, 0, s.fy2, c.prod + l.Dy() * ONE_PIXEL)
    case Down => Cursor(c.ex, c.ey - 1, s.fx2, ONE_PIXEL, c.prod + l.Dx() * ONE_PIXEL)
  }

  ghost predicate Between(a: int, x: int, b: int) {
    a <= x <= b || b <= x <= a
  }

  /** The line passes through the cell: in each direction of travel, the corner on the left of the
      direction and the corner on its right lie on different sides of the line. */
  ghost predicate Straddles(dx: int, dy: int, prod: int) {
    var bottomLeft, topLeft := prod, prod - dx * ONE_PIXEL;
    var bottomRight, topRight := prod + dy * ONE_PIXEL, prod - dx * ONE_PIXEL + dy * ONE_PIXEL;
    && (dx < 0 < dy ==> bottomLeft <= 0 < topRight)
    && (dx < 0 && dy < 0 ==> bottomRight <= 0 < topLeft)
    && (0 < dx && 0 < dy ==> topLeft <= 0 <= bottomRight)
    && (dy < 0 < dx ==> topRight <= 0 <= bottomLeft)
  }

  /** The loop invariant of the general line. */
  ghost predicate OnCourse(l: Line, c: Cursor) {
    && l.Slanted() && IsPosition(l.from) && IsPosition(l.to)
    && 0 <= c.fx <= ONE_PIXEL && 0 <= c.fy <= ONE_PIXEL
    && c.prod == l.Side(Point(ONE_PIXEL * c.ex, ONE_PIXEL * c.ey))
    && Straddles(l.Dx(), l.Dy(), c.prod)
    && Between(Trunc(l.from.x), c.ex, Trunc(l.to.x))
    && Between(Trunc(l.from.y), c.ey, Trunc(l.to.y))
  }

  ghost function Distance(l: Line, c: Cursor): nat {
    Abs(Trunc(l.to.x) - c.ex) + Abs(Trunc(l.to.y) - c.ey)
  }

  /** A step leaves the cell through a side that faces the target cell. */
  ghost predicate Faces(l: Line, c: Cursor, exit: Exit) {
    match exit
    case Left => Trunc(l.to.x) < c.ex && l.Dx() < 0 && 0 <= -c.prod < ONE_PIXEL * -l.Dx()
    case Up => c.ey < Trunc(l.to.y) && 0 < l.Dy() && 0 <= -(c.prod - l.Dx() * ONE_PIXEL) < ONE_PIXEL * l.Dy()
    case Right => c.ex < Trunc(l.to.x) && 0 < l.Dx() && 0 <= c.prod + l.Dy() * ONE_PIXEL <= ONE_PIXEL * l.Dx()
    case Down => Trunc(l.to.y) < c.ey && l.Dy() < 0 && 0 <= c.prod <= ONE_PIXEL * -l.Dy()
  }

  /** `prod` seen from the target, where the side function is zero too. */
  lemma ProdFromTarget(l: Line, c: Cursor)
    requires c.prod == l.Side(Point(ONE_PIXEL * c.ex, ONE_PIXEL * c.ey))
    ensures c.prod == l.Dx() * (l.to.y - ONE_PIXEL * c.ey) - l.Dy() * (l.to.x - ONE_PIXEL * c.ex)
  {
    var dx, dy := l.Dx(), l.Dy();
    assert dx * (l.to.y - ONE_PIXEL * c.ey) == dx * (l.from.y - ONE_PIXEL * c.ey) + dx * dy;
    assert dy * (l.to.x - ONE_PIXEL * c.ex) == dy * (l.from.x - ONE_PIXEL * c.ex) + dy * dx;
  }

  /** Unless the target cell is reached, the chosen exit faces it. */
  lemma ExitFacesTarget(l: Line, c: Cursor)
    requires OnCourse(l, c) && Distance(l, c) != 0
    ensures Faces(l, c, ExitSide(l, c.prod))
  {
    var dx, dy := l.Dx(), l.Dy();
    var u, v := l.to.x - ONE_PIXEL * c.ex, l.to.y - ONE_PIXEL * c.ey;
    ProdFromTarget(l, c);
    assert c.prod == dx * v - dy * u;
    DirectionOfTravel(l, c);
    if dx < 0 && 0 < dy {
      ExitUpLeft(dx, dy, u, v, c.prod);
    } else if dx < 0 {
      ExitDownLeft(dx, dy, u, v, c.prod);
    } else if 0 < dy {
      ExitUpRight(dx, dy, u, v, c.prod);
    } else {
      ExitDownRight(dx, dy, u, v, c.prod);
    }
  }

  lemma DirectionOfTravel(l: Line, c: Cursor)
    requires OnCourse(l, c)
    ensures l.Dx() < 0 ==> Trunc(l.to.x) <= c.ex <= Trunc(l.from.x)
    ensures l.Dx() > 0 ==> Trunc(l.from.x) <= c.ex <= Trunc(l.to.x)
    ensures l.Dy() < 0 ==> Trunc(l.to.y) <= c.ey <= Trunc(l.from.y)
    ensures l.Dy() > 0 ==> Trunc(l.from.y) <= c.ey <= Trunc(l.to.y)
  {
  }

  lemma ProductSign(k: int, x: int)
    ensures 0 < k ==> (0 <= x <==> 0 <= k * x) && (0 < x <==> 0 < k * x)
    ensures k < 0 ==> (0 <= x <==> k * x <= 0) && (0 < x <==> k * x < 0)
  {
  }

  lemma ExitUpLeft(dx: int, dy: int, u: int, v: int, prod: int)
    requires dx < 0 < dy && prod == dx * v - dy * u && Straddles(dx, dy, prod)
    requires u < ONE_PIXEL && 0 <= v && (u < 0 || ONE_PIXEL <= v)
    ensures prod - dx * ONE_PIXEL > 0 ==> u < 0
    ensures prod - dx * ONE_PIXEL <= 0 ==> ONE_PIXEL <= v
  {
    assert prod - dx * ONE_PIXEL == dx * (v - ONE_PIXEL) - dy * u;
    ProductSign(dx, v - ONE_PIXEL);
    ProductSign(dy, u);
  }

  lemma ExitDownLeft(dx: int, dy: int, u: int, v: int, prod: int)
    requires dx < 0 && dy < 0 && prod == dx * v - dy * u && Straddles(dx, dy, prod)
    requires u < ONE_PIXEL && v < ONE_PIXEL && (u < 0 || v < 0)
    ensures prod <= 0 ==> u < 0
    ensures prod > 0 ==> v < 0
  {
    ProductSign(dx, v);
    ProductSign(dy, u);
  }

  lemma ExitUpRight(dx: int, dy: int, u: int, v: int, prod: int)
    requires 0 < dx && 0 < dy && prod == dx * v - dy * u && Straddles(dx, dy, prod)
    requires 0 <= u && 0 <= v && (ONE_PIXEL <= u || ONE_PIXEL <= v)
    ensures prod - dx * ONE_PIXEL + dy * ONE_PIXEL > 0 ==> ONE_PIXEL <= v
    ensures prod - dx * ONE_PIXEL + dy * ONE_PIXEL <= 0 ==> ONE_PIXEL <= u
  {
    assert prod - dx * ONE_PIXEL + dy * ONE_PIXEL == dx * (v - ONE_PIXEL) - dy * (u - ONE_PIXEL);
    ProductSign(dx, v - ONE_PIXEL);
    ProductSign(dy, u - ONE_PIXEL);
  }

  lemma ExitDownRight(dx: int, dy: int, u: int, v: int, prod: int)
    requires dy < 0 < dx && prod == dx * v - dy * u && Straddles(dx, dy, prod)
    requires 0 <= u && v < ONE_PIXEL && (ONE_PIXEL <= u || v < 0)
    ensures prod + dy * ONE_PIXEL >= 0 ==> ONE_PIXEL <= u
    ensures prod + dy * ONE_PIXEL < 0 ==> v < 0
  {
    assert prod + dy * ONE_PIXEL == dx * v - dy * (u - ONE_PIXEL);
    ProductSign(dx, v);
    ProductSign(dy, u - ONE_PIXEL);
  }

  /** Where the walk enters the current cell. */
  function Entry(c: Cursor): Point {
    Point(ONE_PIXEL * c.ex + c.fx, ONE_PIXEL * c.ey + c.fy)
  }

  /** Off a line by less than 1 + |d| / 2^24 subpixels, measured along a grid line that the line
      crosses with component d. */
  ghost predicate Tolerated(side: int, d: int) {
    Abs(side) * 0x100_0000 < Abs(d) * (0x100_0000 + Abs(d))
  }

  /** A point where the walk changes cell: on a grid line and close to the true line. */
  ghost predicate Crossing(l: Line, p: Point) {
    || (p.x % ONE_PIXEL == 0 && Tolerated(l.Side(p), l.Dx()))
    || (p.y % ONE_PIXEL == 0 && Tolerated(l.Side(p), l.Dy()))
  }

  /** How far a point at offset (fx, fy) of the cell is off the line. */
  lemma SideInCell(l: Line, c: Cursor, fx: int, fy: int)
    requires c.prod == l.Side(Point(ONE_PIXEL * c.ex, ONE_PIXEL * c.ey))
    ensures l.Side(Point(ONE_PIXEL * c.ex + fx, ONE_PIXEL * c.ey + fy)) == c.prod - l.Dx() * fy + l.Dy() * fx
  {
    var dx, dy := l.Dx(), l.Dy();
    var v, u := l.from.y - ONE_PIXEL * c.ey, l.from.x - ONE_PIXEL * c.ex;
    assert dx * (v - fy) == dx * v - dx * fy;
    assert dy * (u - fx) == dy * u - dy * fx;
  }

  function WithSign(d: int, v: int): int {
    if d < 0 then -v else v
  }

  /** The reciprocal quotient for either sign of the divisor. */
  lemma ReciprocalStep(a: int, d: int)
    requires d != 0 && Abs(d) <= 2 * COORD_LIMIT && 0 <= a <= ONE_PIXEL * Abs(d)
    ensures var q := UDiv(a, WithSign(d, UDivPrep(true, d)));
            0 <= q < ONE_PIXEL && 0 <= a - Abs(d) * q && Tolerated(a - Abs(d) * q, d)
  {
    var r := 0xFFFF_FFFF / Abs(d);
    assert WithSign(d, UDivPrep(true, d)) == r by {
      if d < 0 {
        DivByNegative(0xFFFF_FFFF, d);
      }
    }
    UDivInPixel(a, Abs(d), r);
  }

  lemma DivByNegative(n: int, d: int)
    requires 0 <= n && d < 0
    ensures n / d == -(n / -d)
  {
  }

  /** Leaving through the left or right side, at height q. */
  lemma CrossesColumn(l: Line, c: Cursor, fx: int, q: int)
    requires IsPosition(l.from) && IsPosition(l.to)
    requires c.prod == l.Side(Point(ONE_PIXEL * c.ex, ONE_PIXEL * c.ey))
    requires (l.Dx() < 0 && fx == 0) || (0 < l.Dx() && fx == ONE_PIXEL)
    requires 0 <= WithSign(l.Dx(), c.prod + l.Dy() * fx) <= ONE_PIXEL * Abs(l.Dx())
    requires q == UDiv(WithSign(l.Dx(), c.prod + l.Dy() * fx), WithSign(l.Dx(), UDivPrep(true, l.Dx())))
    ensures 0 <= q < ONE_PIXEL && Crossing(l, Point(ONE_PIXEL * c.ex + fx, ONE_PIXEL * c.ey + q))
  {
    hide Line.Side, Tolerated, UDiv, UDivPrep;
    SideInCell(l, c, fx, q);
    ReciprocalStep(WithSign(l.Dx(), c.prod + l.Dy() * fx), l.Dx());
    var p := Point(ONE_PIXEL * c.ex + fx, ONE_PIXEL * c.ey + q);
    OffLine(WithSign(l.Dx(), c.prod + l.Dy() * fx), l.Dx(), q, c.prod + l.Dy() * fx);
    assert p.x % ONE_PIXEL == 0;
  }

  /** Leaving through the top or bottom side, at offset q. */
  lemma CrossesRow(l: Line, c: Cursor, fy: int, q: int)
    requires IsPosition(l.from) && IsPosition(l.to)
    requires c.prod == l.Side(Point(ONE_PIXEL * c.ex, ONE_PIXEL * c.ey))
    requires (l.Dy() < 0 && fy == 0) || (0 < l.Dy() && fy == ONE_PIXEL)
    requires 0 <= WithSign(l.Dy(), l.Dx() * fy - c.prod) <= ONE_PIXEL * Abs(l.Dy())
    requires q == UDiv(WithSign(l.Dy(), l.Dx() * fy - c.prod), WithSign(l.Dy(), UDivPrep(true, l.Dy())))
    ensures 0 <= q < ONE_PIXEL && Crossing(l, Point(ONE_PIXEL * c.ex + q, ONE_PIXEL * c.ey + fy))
  {
    hide Line.Side, Tolerated, UDiv, UDivPrep;
    SideInCell(l, c, q, fy);
    ReciprocalStep(WithSign(l.Dy(), l.Dx() * fy - c.prod), l.Dy());
    var p := Point(ONE_PIXEL * c.ex + q, ONE_PIXEL * c.ey + fy);
    OffLine(WithSign(l.Dy(), l.Dx() * fy - c.prod), l.Dy(), q, l.Dx() * fy - c.prod);
    assert p.y % ONE_PIXEL == 0;
  }

  /** The remainder of the reciprocal division is what the crossing point is off the line. */
  lemma OffLine(a: int, d: int, q: int, v: int)
    requires a == WithSign(d, v)
    requires 0 <= a - Abs(d) * q
    requires Tolerated(a - Abs(d) * q, d)
    ensures Tolerated(v - d * q, d) && Tolerated(d * q - v, d)
  {
    assert Abs(d) * q == WithSign(d, d * q);
  }

  /** The piece stays inside its cell and ends on the true line up to the reciprocal's rounding. */
  lemma StepSegmentBounds(l: Line, c: Cursor)
    requires OnCourse(l, c) && Faces(l, c, ExitSide(l, c.prod))
    ensures StepSegment(l, c).InsideCell()
    ensures Crossing(l, StepSegment(l, c).End())
  {
    hide Line.Side, Crossing, UDiv;
    var s := StepSegment(l, c);
    match ExitSide(l, c.prod) {
      case Left => CrossesColumn(l, c, 0, s.fy2);
      case Up => CrossesRow(l, c, ONE_PIXEL, s.fx2);
      case Right => CrossesColumn(l, c, ONE_PIXEL, s.fy2);
      case Down => CrossesRow(l, c, 0, s.fx2);
    }
  }

  /** Moving the corner by a pixel moves `prod` by the multiple the source adds. */
  lemma SideOfNeighbour(l: Line, ex: int, ey: int)
    ensures var here := l.Side(Point(ONE_PIXEL * ex, ONE_PIXEL * ey));
            && l.Side(Point(ONE_PIXEL * (ex - 1), ONE_PIXEL * ey)) == here - l.Dy() * ONE_PIXEL
            && l.Side(Point(ONE_PIXEL * (ex + 1), ONE_PIXEL * ey)) == here + l.Dy() * ONE_PIXEL
            && l.Side(Point(ONE_PIXEL * ex, ONE_PIXEL * (ey - 1))) == here + l.Dx() * ONE_PIXEL
            && l.Side(Point(ONE_PIXEL * ex, ONE_PIXEL * (ey + 1))) == here - l.Dx() * ONE_PIXEL
  {
  }

  /** One iteration keeps the invariant and comes exactly one cell closer to the target. */
  lemma StepKeepsCourse(l: Line, c: Cursor)
    requires OnCourse(l, c) && Distance(l, c) != 0
    ensures StepSegment(l, c).InsideCell() && StepSegment(l, c).Start() == Entry(c)
    ensures StepSegment(l, c).End() == Entry(StepCursor(l, c))
    ensures Crossing(l, StepSegment(l, c).End())
    ensures OnCourse(l, StepCursor(l, c))
    ensures Distance(l, StepCursor(l, c)) == Distance(l, c) - 1
    ensures StepSegment(l, c).ex == c.ex && StepSegment(l, c).ey == c.ey
    ensures Between(c.ex, StepCursor(l, c).ex, Trunc(l.to.x)) && Between(c.ey, StepCursor(l, c).ey, Trunc(l.to.y))
  {
    hide Line.Side, Crossing, UDiv, UDivPrep;
    ExitFacesTarget(l, c);
    StepSegmentBounds(l, c);
    SideOfNeighbour(l, c.ex, c.ey);
  }

  /** All pieces from the current cell to the target. */
  ghost function WalkFrom(l: Line, c: Cursor): seq<Segment>
    requires OnCourse(l, c)
    decreases Distance(l, c)
  {
    if Distance(l, c) == 0 then
      [Segment(c.ex, c.ey, c.fx, c.fy, Fract(l.to.x), Fract(l.to.y))]
    else
      StepKeepsCourse(l, c);
      [StepSegment(l, c)] + WalkFrom(l, StepCursor(l, c))
  }

  lemma WalkUnfold(l: Line, c: Cursor)
    requires OnCourse(l, c)
    ensures Distance(l, c) != 0 ==> OnCourse(l, StepCursor(l, c))
    ensures Distance(l, c) != 0 ==> WalkFrom(l, c) == [StepSegment(l, c)] + WalkFrom(l, StepCursor(l, c))
    ensures Distance(l, c) == 0 ==>
      WalkFrom(l, c) == [Segment(c.ex, c.ey, c.fx, c.fy, Fract(l.to.x), Fract(l.to.y))]
  {
    hide OnCourse, Crossing, StepSegment, StepCursor;
    if Distance(l, c) != 0 {
      StepKeepsCourse(l, c);
    }
  }

  /** The walk takes one piece per cell of a shortest grid path, is unbroken, ends exactly on the
      target, stays in the rows and columns between its ends, and hugs the true line. */
  lemma {:induction false} WalkReachesTarget(l: Line, c: Cursor)
    requires OnCourse(l, c)
    ensures |WalkFrom(l, c)| == Distance(l, c) + 1
    ensures Connects(WalkFrom(l, c), Entry(c), l.to)
    ensures forall i :: 0 <= i < Distance(l, c) ==> Crossing(l, WalkFrom(l, c)[i].End())
    ensures forall s :: s in WalkFrom(l, c) ==>
      Between(c.ex, s.ex, Trunc(l.to.x)) && Between(c.ey, s.ey, Trunc(l.to.y))
    decreases Distance(l, c)
  {
    hide OnCourse, Crossing, StepSegment, StepCursor;
    var w := WalkFrom(l, c);
    if Distance(l, c) != 0 {
      StepKeepsCourse(l, c);
      var next := StepCursor(l, c);
      WalkReachesTarget(l, next);
      assert w == [StepSegment(l, c)] + WalkFrom(l, next);
      assert w[1..] == WalkFrom(l, next);
    } else {
      var last := Segment(c.ex, c.ey, c.fx, c.fy, Fract(l.to.x), Fract(l.to.y));
      assert w == [last];
      LastSegment(l, c, last);
    }
  }

  lemma LastSegment(l: Line, c: Cursor, last: Segment)
    requires OnCourse(l, c) && Distance(l, c) == 0
    requires last == Segment(c.ex, c.ey, c.fx, c.fy, Fract(l.to.x), Fract(l.to.y))
    ensures last.InsideCell() && Connects([last], Entry(c), l.to)
  {
    assert last.End() == l.to && [last][1..] == [];
  }

  function FirstCursor(l: Line): Cursor {
    var fx, fy := Fract(l.from.x), Fract(l.from.y);
    Cursor(Trunc(l.from.x), Trunc(l.from.y), fx, fy, l.Dx() * fy - l.Dy() * fx)
  }

  lemma FirstOnCourse(l: Line)
    requires l.Slanted() && IsPosition(l.from) && IsPosition(l.to)
    ensures OnCourse(l, FirstCursor(l)) && Entry(FirstCursor(l)) == l.from
  {
    var c := FirstCursor(l);
    SideOfFirst(l.Dx(), l.Dy(), c.fx, c.fy, c.prod);
    assert l.from.x - ONE_PIXEL * c.ex == c.fx && l.from.y - ONE_PIXEL * c.ey == c.fy;
  }

  lemma SideOfFirst(dx: int, dy: int, fx: int, fy: int, prod: int)
    requires 0 <= fx < ONE_PIXEL && 0 <= fy < ONE_PIXEL && prod == dx * fy - dy * fx
    ensures Straddles(dx, dy, prod)
  {
    ProductSign(dx, fy);
    ProductSign(dy, fx);
    ProductSign(dx, fy - ONE_PIXEL);
    ProductSign(dy, fx - ONE_PIXEL);
    assert dx * (fy - ONE_PIXEL) == dx * fy - dx * ONE_PIXEL;
    assert dy * (fx - ONE_PIXEL) == dy * fx - dy * ONE_PIXEL;
  }

  // ---------------------------------------------------------------- every line

  /** A vertical line: one piece per row. */
  ghost function ColumnWalk(ex: int, fx: int, ey: int, fy: int, to: Point): seq<Segment>
    decreases Abs(Trunc(to.y) - ey)
  {
    if ey == Trunc(to.y) then [Segment(ex, ey, fx, fy, Fract(to.x), Fract(to.y))]
    else if ey < Trunc(to.y) then
      [Segment(ex, ey, fx, fy, fx, ONE_PIXEL)] + ColumnWalk(ex, fx, ey + 1, 0, to)
    else
      [Segment(ex, ey, fx, fy, fx, 0)] + ColumnWalk(ex, fx, ey - 1, ONE_PIXEL, to)
  }

  predicate SameCell(p: Point, q: Point) {
    Trunc(p.x) == Trunc(q.x) && Trunc(p.y) == Trunc(q.y)
  }

  /** The pieces of a line that is not cut off by the band.  A horizontal line climbs nothing and
      has none, unless it stays in one cell. */
  ghost function LineSegments(p: Point, q: Point): seq<Segment>
    requires IsPosition(p) && IsPosition(q)
  {
    if SameCell(p, q) then
      [Segment(Trunc(p.x), Trunc(p.y), Fract(p.x), Fract(p.y), Fract(q.x), Fract(q.y))]
    else if p.y == q.y then []
    else if p.x == q.x then ColumnWalk(Trunc(p.x), Fract(p.x), Trunc(p.y), Fract(p.y), q)
    else
      FirstOnCourse(Line(p, q));
      WalkFrom(Line(p, q), FirstCursor(Line(p, q)))
  }

  lemma SlantedStart(p: Point, q: Point)
    requires IsPosition(p) && IsPosition(q) && !SameCell(p, q) && p.x != q.x && p.y != q.y
    ensures OnCourse(Line(p, q), FirstCursor(Line(p, q)))
    ensures Distance(Line(p, q), FirstCursor(Line(p, q))) != 0
    ensures LineSegments(p, q) == WalkFrom(Line(p, q), FirstCursor(Line(p, q)))
  {
    hide OnCourse;
    FirstOnCourse(Line(p, q));
  }

  lemma DistanceZero(l: Line, c: Cursor)
    ensures Distance(l, c) == 0 <==> c.ex == Trunc(l.to.x) && c.ey == Trunc(l.to.y)
  {
  }

  lemma {:induction false} ColumnReachesTarget(ex: int, fx: int, ey: int, fy: int, to: Point)
    requires 0 <= fx < ONE_PIXEL && 0 <= fy <= ONE_PIXEL && to.x == ONE_PIXEL * ex + fx
    ensures Connects(ColumnWalk(ex, fx, ey, fy, to), Point(to.x, ONE_PIXEL * ey + fy), to)
    ensures forall s :: s in ColumnWalk(ex, fx, ey, fy, to) ==> s.ex == ex && Between(ey, s.ey, Trunc(to.y))
    decreases Abs(Trunc(to.y) - ey)
  {
    var w := ColumnWalk(ex, fx, ey, fy, to);
    if ey < Trunc(to.y) {
      ColumnReachesTarget(ex, fx, ey + 1, 0, to);
      assert w[1..] == ColumnWalk(ex, fx, ey + 1, 0, to);
    } else if ey > Trunc(to.y) {
      ColumnReachesTarget(ex, fx, ey - 1, ONE_PIXEL, to);
      assert w[1..] == ColumnWalk(ex, fx, ey - 1, ONE_PIXEL, to);
    } else {
      assert w[0].End() == to && w[1..] == [];
    }
  }

  /** A line that is not purely horizontal is drawn as an unbroken trail from its start to its end
      through the cells between them. */
  lemma LineIsTrail(p: Point, q: Point)
    requires IsPosition(p) && IsPosition(q)
    ensures p.y != q.y || SameCell(p, q) ==> Connects(LineSegments(p, q), p, q)
    ensures p.y == q.y && !SameCell(p, q) ==> LineSegments(p, q) == []
    ensures forall s :: s in LineSegments(p, q) ==>
      Between(Trunc(p.x), s.ex, Trunc(q.x)) && Between(Trunc(p.y), s.ey, Trunc(q.y))
  {
    if SameCell(p, q) {
      var w := LineSegments(p, q);
      assert w[0].Start() == p && w[0].End() == q && w[1..] == [];
    } else if p.y == q.y {
    } else if p.x == q.x {
      ColumnReachesTarget(Trunc(p.x), Fract(p.x), Trunc(p.y), Fract(p.y), q);
    } else {
      SlantedIsTrail(p, q);
    }
  }

  lemma SlantedIsTrail(p: Point, q: Point)
    requires IsPosition(p) && IsPosition(q) && !SameCell(p, q) && p.x != q.x && p.y != q.y
    ensures Connects(LineSegments(p, q), p, q)
    ensures forall s :: s in LineSegments(p, q) ==>
      Between(Trunc(p.x), s.ex, Trunc(q.x)) && Between(Trunc(p.y), s.ey, Trunc(q.y))
  {
    var l := Line(p, q);
    FirstOnCourse(l);
    hide OnCourse, Crossing;
    WalkReachesTarget(l, FirstCursor(l));
  }

  /** Every line adds to every scanline exactly the height it climbs inside that scanline. */
  lemma LineCover(p: Point, q: Point, y: int)
    requires IsPosition(p) && IsPosition(q)
    ensures RowCover(LineSegments(p, q), y) == Filled(q.y, y) - Filled(p.y, y)
  {
    LineIsTrail(p, q);
    if p.y != q.y || SameCell(p, q) {
      TrailCover(LineSegments(p, q), p, q, y);
    }
  }

  // ---------------------------------------------------------------- polylines

  /** The pieces of the lines from p through all points of a list. */
  ghost function PathSegments(p: Point, points: seq<Point>): seq<Segment>
    requires IsPosition(p) && forall q :: q in points ==> IsPosition(q)
    decreases |points|
  {
    if points == [] then []
    else LineSegments(p, points[0]) + PathSegments(points[0], points[1..])
  }

  function PathEnd(p: Point, points: seq<Point>): Point {
    if points == [] then p else points[|points| - 1]
  }

  lemma {:induction false} PathConcat(p: Point, a: seq<Point>, b: seq<Point>)
    requires IsPosition(p) && (forall q :: q in a ==> IsPosition(q)) && (forall q :: q in b ==> IsPosition(q))
    ensures PathSegments(p, a + b) == PathSegments(p, a) + PathSegments(PathEnd(p, a), b)
    decreases |a|
  {
    if a == [] {
      assert a + b == b;
    } else {
      assert (a + b)[1..] == a[1..] + b;
      PathConcat(a[0], a[1..], b);
    }
  }

  /** The cover of a path depends on its two ends only; for a closed path it is zero. */
  lemma {:induction false} PathCover(p: Point, points: seq<Point>, y: int)
    requires IsPosition(p) && forall q :: q in points ==> IsPosition(q)
    ensures RowCover(PathSegments(p, points), y) == Filled(PathEnd(p, points).y, y) - Filled(p.y, y)
    decreases |points|
  {
    if points != [] {
      LineCover(p, points[0], y);
      PathCover(points[0], points[1..], y);
      RowCoverConcat(LineSegments(p, points[0]), PathSegments(points[0], points[1..]), y);
    }
  }

  // ---------------------------------------------------------------- the band

  /** Both coordinates on the far side of the band of scanlines [low, high). */
  ghost predicate OffBand(ys: seq<int>, low: int, high: int) {
    || (forall y :: y in ys ==> high <= Trunc(y))
    || (forall y :: y in ys ==> Trunc(y) < low)
  }

  /** A line that the source skips would not have touched the band anyway. */
  lemma OffBandLine(p: Point, q: Point, low: int, high: int)
    requires IsPosition(p) && IsPosition(q) && OffBand([p.y, q.y], low, high)
    ensures InBand(LineSegments(p, q), low, high) == []
  {
    LineIsTrail(p, q);
    assert p.y in [p.y, q.y] && q.y in [p.y, q.y];
    InBandEmpty(LineSegments(p, q), low, high);
  }

  /** The ordinates of a list of points. */
  ghost function Heights(points: seq<Point>): (ys: seq<int>)
    ensures |ys| == |points|
    ensures forall i :: 0 <= i < |points| ==> ys[i] == points[i].y
  {
    seq(|points|, i requires 0 <= i < |points| => points[i].y)
  }

  lemma {:induction false} OffBandPath(p: Point, points: seq<Point>, low: int, high: int)
    requires IsPosition(p) && forall q :: q in points ==> IsPosition(q)
    requires OffBand(Heights([p] + points), low, high)
    ensures InBand(PathSegments(p, points), low, high) == []
    decreases |points|
  {
    if points != [] {
      var q, rest := points[0], points[1..];
      var ys := Heights([p] + points);
      assert p.y == ys[0] && q.y == ys[1];
      OffBandLine(p, q, low, high);
      forall y | y in Heights([q] + rest) ensures y in ys {
        var i :| 0 <= i < |Heights([q] + rest)| && Heights([q] + rest)[i] == y;
        assert ys[i + 1] == y;
      }
      OffBandPath(q, rest, low, high);
      InBandConcat(LineSegments(p, q), PathSegments(q, rest), low, high);
    }
  }
}
