/** CORDIC rotation and angle arithmetic.  Angles are in units of 1/65536 degree. */
module Cordic {
  import opened Ints

  const PI4: int := 2_949_120
  const PI2: int := 5_898_240
  const PI: int := 11_796_480
  const TWO_PI: int := 23_592_960

  const ARCTAN: seq<int> := [
    1_740_967, 919_879, 466_945, 234_379, 117_304, 58_666, 29_335, 14_668, 7_334, 3_667, 1_833,
    917, 458, 229, 115, 57, 29, 14, 7, 4, 2, 1]

  const STEPS: nat := 22

  // ---------------------------------------------------------------- exact description of a rotation

  datatype Vector = Vector(x: int, y: int)

  /** A quarter turn counterclockwise. */
  function QuarterLeft(v: Vector): Vector {
    Vector(Wrap64(-v.y), v.x)
  }

  function QuarterRight(v: Vector): Vector {
    Vector(v.y, Wrap64(-v.x))
  }

  /** q quarter turns, counterclockwise for positive q. */
  ghost function Quarters(v: Vector, q: int): Vector
    decreases Abs(q)
  {
    if q == 0 then v
    else if 0 < q then QuarterLeft(Quarters(v, q - 1))
    else QuarterRight(Quarters(v, q + 1))
  }

  /** Rounded shift by i + 1 bits. */
  function RoundShift(v: int, i: nat): int {
    Wrap64(v + Pow2(i)) / Pow2(i + 1)
  }

  /** The micro-rotation of step i, counterclockwise or clockwise. */
  function Micro(v: Vector, i: nat, left: bool): Vector {
    if left then Vector(Wrap64(v.x - RoundShift(v.y, i)), Wrap64(v.y + RoundShift(v.x, i)))
    else Vector(Wrap64(v.x + RoundShift(v.y, i)), Wrap64(v.y - RoundShift(v.x, i)))
  }

  ghost function Micros(v: Vector, lefts: seq<bool>): Vector {
    if lefts == [] then v
    else Micro(Micros(v, lefts[..|lefts| - 1]), |lefts| - 1, lefts[|lefts| - 1])
  }

  /** The angle that the micro-rotations turn by. */
  ghost function Turned(lefts: seq<bool>): int
    requires |lefts| <= STEPS
  {
    if lefts == [] then 0
    else
      var t := ARCTAN[|lefts| - 1];
      Turned(lefts[..|lefts| - 1]) + (if lefts[|lefts| - 1] then t else -t)
  }

  // ---------------------------------------------------------------- convergence

  /** What the remaining table entries can still turn, and one unit more. */
  ghost function Reach(i: nat): int
    requires i <= STEPS
    decreases STEPS - i
  {
    if i == STEPS then 1 else ARCTAN[i] + Reach(i + 1)
  }

  /** No entry is larger than what the later ones can undo. */
  lemma TableCovers(i: nat)
    requires i < STEPS
    ensures 0 < ARCTAN[i] <= Reach(i + 1)
  {
    ReachTail();
    ReachHead();
  }

  /** The table reaches any angle that the quarter turns leave. */
  lemma TableReachesEighth()
    ensures PI4 <= Reach(0)
  {
    ReachTail();
    ReachHead();
  }

  lemma ReachTail()
    ensures Reach(22) == 1 && Reach(21) == 2 && Reach(20) == 4 && Reach(19) == 8 && Reach(18) == 15
    ensures Reach(17) == 29 && Reach(16) == 58 && Reach(15) == 115 && Reach(14) == 230 && Reach(13) == 459
    ensures Reach(12) == 917 && Reach(11) == 1834
  {
    assert Reach(22) == 1;
    assert Reach(21) == 2;
    assert Reach(20) == 4;
    assert Reach(19) == 8;
    assert Reach(18) == 15;
    assert Reach(17) == 29;
    assert Reach(16) == 58;
    assert Reach(15) == 115;
    assert Reach(14) == 230;
    assert Reach(13) == 459;
    assert Reach(12) == 917;
  }

  lemma ReachHead()
    ensures Reach(10) == 3667 && Reach(9) == 7334 && Reach(8) == 14668 && Reach(7) == 29336
    ensures Reach(6) == 58671 && Reach(5) == 117337 && Reach(4) == 234641 && Reach(3) == 469020
    ensures Reach(2) == 935965 && Reach(1) == 1855844 && Reach(0) == 3596811
  {
    ReachTail();
    assert Reach(10) == 3667;
    assert Reach(9) == 7334;
    assert Reach(8) == 14668;
    assert Reach(7) == 29336;
    assert Reach(6) == 58671;
    assert Reach(5) == 117337;
    assert Reach(4) == 234641;
    assert Reach(3) == 469020;
    assert Reach(2) == 935965;
    assert Reach(1) == 1855844;
  }

  // ---------------------------------------------------------------- the rotation

  /** How many quarter turns the quadrant loops take off an angle. */
  ghost function QuarterTurns(theta: int): (q: int)
    ensures -PI4 <= theta - q * PI2 <= PI4
    ensures theta < -PI4 ==> q < 0
    ensures theta > PI4 ==> 0 < q
    ensures -PI4 <= theta <= PI4 ==> q == 0
    decreases Abs(theta)
  {
    if theta < -PI4 then QuarterTurns(theta + PI2) - 1
    else if theta > PI4 then QuarterTurns(theta - PI2) + 1
    else 0
  }

  /** The senses of the first n micro-rotations: each turns against what is left of the angle. */
  ghost function Senses(theta: int, n: nat): (lefts: seq<bool>)
    requires n <= STEPS
    ensures |lefts| == n
  {
    if n == 0 then []
    else
      var before := Senses(theta, n - 1);
      before + [theta - Turned(before) >= 0]
  }

  /** The table converges: after n steps no more is left than the rest of the table can turn. */
  lemma {:induction false} SensesConverge(theta: int, n: nat)
    requires n <= STEPS && -PI4 <= theta <= PI4
    ensures Abs(theta - Turned(Senses(theta, n))) <= Reach(n)
  {
    hide Reach, Turned;
    if n == 0 {
      StepsStart(Vector(0, 0));
    } else {
      SensesConverge(theta, n - 1);
      var before := Senses(theta, n - 1);
      StepTaken(n - 1, theta - Turned(before));
      OneStep(Vector(0, 0), before, theta - Turned(before) >= 0);
    }
  }

  /** The vector after the quarter turns and the micro-rotations of an angle. */
  ghost function Rotated(v: Vector, theta: int): Vector {
    Micros(Quarters(v, QuarterTurns(theta)), Senses(theta - QuarterTurns(theta) * PI2, STEPS))
  }

  /** For every angle, the quarter turns and the signed table entries add up to it within one unit. */
  lemma RotationAngle(theta: int)
    ensures var q := QuarterTurns(theta);
            Abs(theta - (q * PI2 + Turned(Senses(theta - q * PI2, STEPS)))) <= 1
  {
    hide Turned, Senses;
    SensesConverge(theta - QuarterTurns(theta) * PI2, STEPS);
    StepsEnd();
  }

  /** `ft_trig_pseudo_rotate_long`. */
  method PseudoRotate(x: int, y: int, theta: int) returns (rx: int, ry: int)
    ensures Vector(rx, ry) == Rotated(Vector(x, y), theta)
  {
    hide Micros, Quarters, Senses;
    var t;
    rx, ry, t := ToFirstEighth(x, y, theta);
    rx, ry := TableSteps(rx, ry, t);
  }

  /** The quadrant loops: quarter turns until the angle is at most an eighth turn. */
  method ToFirstEighth(x: int, y: int, theta: int) returns (rx: int, ry: int, t: int)
    ensures t == theta - QuarterTurns(theta) * PI2
    ensures Vector(rx, ry) == Quarters(Vector(x, y), QuarterTurns(theta))
  {
    rx, ry, t := x, y, theta;
    ghost var quarters := 0;
    while t < -PI4
      invariant t == theta - quarters * PI2 && quarters + QuarterTurns(t) == QuarterTurns(theta)
      invariant Vector(rx, ry) == Quarters(Vector(x, y), quarters) && quarters <= 0
      invariant quarters < 0 ==> t < PI4
      decreases -t
    {
      var oldX := rx;
      rx := ry;
      ry := Wrap64(-oldX);
      t := t + PI2;
      quarters := quarters - 1;
    }
    while t > PI4
      invariant t == theta - quarters * PI2 && quarters + QuarterTurns(t) == QuarterTurns(theta)
      invariant Vector(rx, ry) == Quarters(Vector(x, y), quarters)
      invariant -PI4 <= t && (t > PI4 ==> 0 <= quarters)
      decreases t
    {
      var oldX := rx;
      rx := Wrap64(-ry);
      ry := oldX;
      t := t - PI2;
      quarters := quarters + 1;
    }
  }

  /** The table loop. */
  method TableSteps(x: int, y: int, theta: int) returns (rx: int, ry: int)
    ensures Vector(rx, ry) == Micros(Vector(x, y), Senses(theta, STEPS))
  {
    hide Micros, Turned, Reach, Pow2, Wrap64;
    rx, ry := x, y;
    var t := theta;
    ghost var lefts: seq<bool> := [];
    var bias := 1;
    StepsStart(Vector(x, y));
    for i := 1 to STEPS + 1
      invariant lefts == Senses(theta, i - 1) && bias == Pow2(i - 1)
      invariant Vector(rx, ry) == Micros(Vector(x, y), lefts)
      invariant t == theta - Turned(lefts)
    {
      var arctan := ARCTAN[i - 1];
      var oldX := rx;
      ghost var left := t >= 0;
      OneStep(Vector(x, y), lefts, left);
      if t < 0 {
        rx := Wrap64(rx + Wrap64(ry + bias) / Pow2(i));
        ry := Wrap64(ry - Wrap64(oldX + bias) / Pow2(i));
        t := t + arctan;
      } else {
        rx := Wrap64(rx - Wrap64(ry + bias) / Pow2(i));
        ry := Wrap64(ry + Wrap64(oldX + bias) / Pow2(i));
        t := t - arctan;
      }
      lefts := lefts + [left];
      bias := bias * 2;
    }
  }

  lemma StepsStart(v: Vector)
    ensures Micros(v, []) == v && Turned([]) == 0 && Pow2(0) == 1 && PI4 <= Reach(0)
  {
    TableReachesEighth();
  }

  lemma StepsEnd()
    ensures Reach(STEPS) == 1
  {
  }

  lemma OneStep(v: Vector, lefts: seq<bool>, left: bool)
    requires |lefts| < STEPS
    ensures Micros(v, lefts + [left]) == Micro(Micros(v, lefts), |lefts|, left)
    ensures Turned(lefts + [left]) == Turned(lefts) + (if left then ARCTAN[|lefts|] else -ARCTAN[|lefts|])
    ensures Pow2(|lefts| + 1) == 2 * Pow2(|lefts|)
  {
    assert (lefts + [left])[..|lefts|] == lefts;
  }

  /** A step toward zero leaves no more than the rest of the table can turn. */
  lemma StepTaken(n: nat, t: int)
    requires n < STEPS && Abs(t) <= Reach(n)
    ensures Abs(if t >= 0 then t - ARCTAN[n] else t + ARCTAN[n]) <= Reach(n + 1)
  {
    TableCovers(n);
  }

  // ---------------------------------------------------------------- angle differences

  /** `ft_angle_diff_long`: the wrapped difference, brought into (-PI, PI] by full turns. */
  method AngleDiff(angle1: int, angle2: int) returns (delta: int, ghost turns: int)
    ensures -PI < delta <= PI
    ensures delta == Wrap64(angle2 - angle1) + turns * TWO_PI
  {
    delta := Wrap64(angle2 - angle1);
    turns := 0;
    while delta <= -PI
      invariant delta == Wrap64(angle2 - angle1) + turns * TWO_PI
      invariant -0x8000_0000_0000_0000 <= delta <= 0x7FFF_FFFF_FFFF_FFFF
      decreases -delta
    {
      delta := Wrap64(delta + TWO_PI);
      turns := turns + 1;
    }
    while delta > PI
      invariant delta == Wrap64(angle2 - angle1) + turns * TWO_PI
      invariant -PI < delta <= 0x7FFF_FFFF_FFFF_FFFF
      decreases delta
    {
      delta := Wrap64(delta - TWO_PI);
      turns := turns - 1;
    }
  }

  /** The normalized difference is the only one of its class. */
  lemma AngleDiffIsUnique(d: int, d': int, turns: int)
    requires -PI < d <= PI && -PI < d' <= PI && d' == d + turns * TWO_PI
    ensures d == d'
  {
  }
}
