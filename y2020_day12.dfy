/**
 * The ferry navigation of 2020 day 12. A ship starts at the origin facing
 * east. In part 1 the compass actions move the ship, `L`/`R` turn it by 90,
 * 180 or 270 degrees and `F` moves it the way it faces; in part 2 the
 * compass actions move a waypoint (starting 10 east, 1 north), `L`/`R`
 * rotate the waypoint about the ship and `F` moves the ship towards the
 * waypoint that many times. Every `panic!` of the source is a failure
 * (None or `false`) here; coordinates are unbounded integers.
 */
module Navigation {
  import opened Common

  datatype Direction = North | South | East | West | Left | Right | Forward
  {
    /** The four compass directions, the only ones a ship can face or move in. */
    predicate IsCompass() { this in {North, South, East, West} }
    predicate IsTurn() { this == Left || this == Right }
  }

  /** `Direction::rotate_left`: a quarter turn anticlockwise; panics off the compass. */
  function RotateLeft(d: Direction): (r: Option<Direction>)
    ensures r.Some? <==> d.IsCompass()
    ensures r.Some? ==> r.value.IsCompass()
  {
    match d
    case North => Some(West)
    case West => Some(South)
    case South => Some(East)
    case East => Some(North)
    case _ => None
  }

  /** `Direction::rotate_right`: a quarter turn clockwise. */
  function RotateRight(d: Direction): (r: Option<Direction>)
    ensures r.Some? <==> d.IsCompass()
    ensures r.Some? ==> r.value.IsCompass()
  {
    match d
    case North => Some(East)
    case East => Some(South)
    case South => Some(West)
    case West => Some(North)
    case _ => None
  }

  /** `Direction::rotate_180`. */
  function Rotate180(d: Direction): (r: Option<Direction>)
    ensures r.Some? <==> d.IsCompass()
    ensures r.Some? ==> r.value.IsCompass()
  {
    match d
    case North => Some(South)
    case South => Some(North)
    case East => Some(West)
    case West => Some(East)
    case _ => None
  }

  /** A left turn undoes a right turn and the other way round. */
  lemma LeftUndoesRight(d: Direction)
    requires d.IsCompass()
    ensures RotateLeft(RotateRight(d).value) == Some(d)
    ensures RotateRight(RotateLeft(d).value) == Some(d)
  {
  }

  /** Four left turns come back to the start, and two make a half turn. */
  lemma LeftTurnCycle(d: Direction)
    requires d.IsCompass()
    ensures var l1 := RotateLeft(d).value;
      var l2 := RotateLeft(l1).value;
      var l3 := RotateLeft(l2).value;
      Rotate180(d) == Some(l2) && RotateLeft(l3) == Some(d)
  {
  }

  /** A position or a waypoint. */
  datatype Pos = Pos(x: int, y: int)

  /** `manhattan_distance`. */
  function Manhattan(p: Pos): (n: nat)
    ensures n == 0 <==> p == Pos(0, 0)
  {
    Abs(p.x) + Abs(p.y)
  }

  function Abs(v: int): nat
  {
    if v < 0 then -v else v
  }

  /** `Point::translate` on values: `distance` along a compass direction; panics otherwise. */
  function Translated(p: Pos, d: Direction, distance: int): (r: Option<Pos>)
    ensures r.Some? <==> d.IsCompass()
    ensures r.Some? && (d == North || d == South) ==> r.value.x == p.x && Abs(r.value.y - p.y) == Abs(distance)
    ensures r.Some? && (d == East || d == West) ==> r.value.y == p.y && Abs(r.value.x - p.x) == Abs(distance)
    ensures r.Some? ==> Manhattan(r.value) <= Manhattan(p) + Abs(distance)
  {
    match d
    case North => Some(Pos(p.x, p.y + distance))
    case South => Some(Pos(p.x, p.y - distance))
    case East => Some(Pos(p.x + distance, p.y))
    case West => Some(Pos(p.x - distance, p.y))
    case _ => None
  }

  /** The position one step away in a compass direction. */
  function Unit(d: Direction): (u: Pos)
    requires d.IsCompass()
    ensures Manhattan(u) == 1
  {
    match d
    case North => Pos(0, 1)
    case South => Pos(0, -1)
    case East => Pos(1, 0)
    case West => Pos(-1, 0)
  }

  /** Translating moves by `distance` copies of the direction's unit step. */
  lemma TranslateIsScaledUnit(p: Pos, d: Direction, distance: int)
    requires d.IsCompass()
    ensures Translated(p, d, distance) == Some(Pos(p.x + Unit(d).x * distance, p.y + Unit(d).y * distance))
  {
    match d {
      case North => assert 0 * distance == 0 && 1 * distance == distance;
      case South => assert 0 * distance == 0 && -1 * distance == -distance;
      case East => assert 0 * distance == 0 && 1 * distance == distance;
      case West => assert 0 * distance == 0 && -1 * distance == -distance;
    }
  }

  /** `rotate_counter_clockwise` on values: 90, 180 or 270 degrees either way; panics otherwise. */
  function RotatedCcw(p: Pos, degrees: int): (r: Option<Pos>)
    ensures r.Some? <==> degrees in {90, -270, 180, -180, 270, -90}
    ensures r.Some? ==> Manhattan(r.value) == Manhattan(p)
  {
    if degrees == 90 || degrees == -270 then Some(Pos(-p.y, p.x))
    else if degrees == 180 || degrees == -180 then Some(Pos(-p.x, -p.y))
    else if degrees == 270 || degrees == -90 then Some(Pos(p.y, -p.x))
    else None
  }

  /** Rotating by an angle and back again, and rotating four times by 90, restores the point. */
  lemma RotateInverse(p: Pos, degrees: int)
    requires RotatedCcw(p, degrees).Some?
    ensures RotatedCcw(RotatedCcw(p, degrees).value, -degrees) == Some(p)
    ensures var q := RotatedCcw(p, 90).value;
      var r := RotatedCcw(q, 90).value;
      RotatedCcw(p, 180) == Some(r) && RotatedCcw(RotatedCcw(r, 90).value, 90) == Some(p)
  {
  }

  /** Turning the ship left is rotating its unit step anticlockwise by 90 degrees. */
  lemma LeftIsCcw(d: Direction)
    requires d.IsCompass()
    ensures Unit(RotateLeft(d).value) == RotatedCcw(Unit(d), 90).value
  {
    match d {
      case North =>
      case South =>
      case East =>
      case West =>
    }
  }

  /** Turning the ship right is rotating its unit step by -90 degrees. */
  lemma RightIsCw(d: Direction)
    requires d.IsCompass()
    ensures Unit(RotateRight(d).value) == RotatedCcw(Unit(d), -90).value
  {
    ClockwiseQuarter(Unit(d));
    match d {
      case North =>
      case South =>
      case East =>
      case West =>
    }
  }

  lemma ClockwiseQuarter(p: Pos)
    ensures RotatedCcw(p, -90) == Some(Pos(p.y, -p.x))
  {
  }

  /** A half turn of the ship is a half turn of its unit step. */
  lemma HalfTurn(d: Direction)
    requires d.IsCompass()
    ensures Unit(Rotate180(d).value) == RotatedCcw(Unit(d), 180).value
  {
    OppositeUnit(d);
    NegatedByHalfTurn(Unit(d));
  }

  lemma OppositeUnit(d: Direction)
    requires d.IsCompass()
    ensures var u := Unit(d); Unit(Rotate180(d).value) == Pos(-u.x, -u.y)
  {
  }

  lemma NegatedByHalfTurn(p: Pos)
    ensures RotatedCcw(p, 180) == Some(Pos(-p.x, -p.y))
  {
  }

  /** `Point`: a mutable pair of coordinates. */
  class Point {
    var x: int
    var y: int

    function Value(): Pos
      reads this
    {
      Pos(x, y)
    }

    /** `Point::new_at`. */
    constructor (x0: int, y0: int)
      ensures Value() == Pos(x0, y0)
    {
      x, y := x0, y0;
    }

    /** `Point::translate`: false for the directions that panic, leaving the point as it was. */
    method Translate(d: Direction, distance: int) returns (ok: bool)
      modifies this
      ensures ok == d.IsCompass()
      ensures ok ==> Value() == Translated(old(Value()), d, distance).value
      ensures !ok ==> Value() == old(Value())
    {
      match d {
        case North => y := y + distance;
        case South => y := y - distance;
        case East => x := x + distance;
        case West => x := x - distance;
        case _ => return false;
      }
      return true;
    }

    /** `Point::rotate_counter_clockwise`: false for the angles that panic. */
    method RotateCounterClockwise(degrees: int) returns (ok: bool)
      modifies this
      ensures ok == RotatedCcw(old(Value()), degrees).Some?
      ensures ok ==> Value() == RotatedCcw(old(Value()), degrees).value
      ensures !ok ==> Value() == old(Value())
    {
      var x0, y0 := x, y;
      if degrees == 90 || degrees == -270 {
        x, y := -y0, x0;
      } else if degrees == 180 || degrees == -180 {
        x, y := -x0, -y0;
      } else if degrees == 270 || degrees == -90 {
        x, y := y0, -x0;
      } else {
        return false;
      }
      return true;
    }
  }

  /** The ship's state as a value: where it is and which way it faces. */
  datatype ShipState = ShipState(pos: Pos, facing: Direction)

  /**
   * `Ship::rotate` on values: 90 degrees turns towards the given side, 270
   * towards the other, 180 about; any other angle panics.
   */
  function Turned(facing: Direction, side: Direction, degrees: int): (r: Option<Direction>)
    ensures facing.IsCompass() && degrees in {90, 180, 270} ==> r.Some? && r.value.IsCompass()
    ensures degrees !in {90, 180, 270} ==> r.None?
  {
    if degrees == 90 then (if side == Left then RotateLeft(facing) else RotateRight(facing))
    else if degrees == 180 then Rotate180(facing)
    else if degrees == 270 then (if side == Right then RotateLeft(facing) else RotateRight(facing))
    else None
  }

  /** Turning left by some angle faces the way turning right by the rest of the circle does. */
  lemma TurnSymmetry(facing: Direction, degrees: int)
    requires facing.IsCompass() && degrees in {90, 180, 270}
    ensures Turned(facing, Left, degrees) == Turned(facing, Right, 360 - degrees)
  {
  }

  /** `Ship`: a position and a heading. */
  class Ship {
    const position: Point
    var facing: Direction

    function State(): ShipState
      reads this, position
    {
      ShipState(position.Value(), facing)
    }

    /** `Ship::new`: at the origin, facing east. */
    constructor ()
      ensures State() == ShipState(Pos(0, 0), East) && fresh(position)
    {
      position := new Point(0, 0);
      facing := East;
    }

    /** `Ship::travel`: along the given direction, or the way the ship faces. */
    method Travel(direction: Option<Direction>, distance: int) returns (ok: bool)
      modifies position
      ensures var d := if direction.Some? then direction.value else facing;
        ok == d.IsCompass() &&
        position.Value() == (if ok then Translated(old(position.Value()), d, distance).value else old(position.Value()))
    {
      var d := if direction.Some? then direction.value else facing;
      ok := position.Translate(d, distance);
    }

    /** `Ship::travel_towards_waypoint`: `distance` copies of the waypoint added to the position. */
    method TravelTowardsWaypoint(waypoint: Pos, distance: int)
      modifies position
      ensures position.Value() == Pos(old(position.x) + waypoint.x * distance, old(position.y) + waypoint.y * distance)
    {
      position.x := position.x + waypoint.x * distance;
      position.y := position.y + waypoint.y * distance;
    }

    /** `Ship::rotate`. */
    method Rotate(side: Direction, degrees: int) returns (ok: bool)
      modifies this
      ensures ok == Turned(old(facing), side, degrees).Some?
      ensures facing == if ok then Turned(old(facing), side, degrees).value else old(facing)
    {
      var turned := Turned(facing, side, degrees);
      if turned.None? {
        return false;
      }
      facing := turned.value;
      return true;
    }
  }

  datatype Action = Action(dir: Direction, value: int)

  /** A part 1 turn by an angle `Ship::rotate` panics on. */
  predicate BadTurn1(a: Action)
  {
    a.dir.IsTurn() && a.value !in {90, 180, 270}
  }

  /** A part 2 turn by an angle `Point::rotate_ccw` panics on. */
  predicate BadTurn2(a: Action)
  {
    a.dir.IsTurn() && a.value !in {90, -270, 180, -180, 270, -90}
  }

  /** Some action of `actions` satisfies `bad`. */
  predicate HasBad(actions: seq<Action>, bad: Action -> bool)
  {
    exists k | 0 <= k < |actions| :: bad(actions[k])
  }

  /** A bad action is the first action or a bad action of the rest. */
  lemma HasBadSplit(actions: seq<Action>, bad: Action -> bool)
    requires actions != []
    ensures HasBad(actions, bad) <==> bad(actions[0]) || HasBad(actions[1..], bad)
  {
    if HasBad(actions, bad) && !bad(actions[0]) {
      var k :| 0 <= k < |actions| && bad(actions[k]);
      assert actions[1..][k - 1] == actions[k];
    }
    if HasBad(actions[1..], bad) {
      var k :| 0 <= k < |actions[1..]| && bad(actions[1..][k]);
      assert actions[k + 1] == actions[1..][k];
    }
  }

  /** One action of part 1. */
  function Step1(s: ShipState, a: Action): (r: Option<ShipState>)
    ensures s.facing.IsCompass() && r.Some? ==> r.value.facing.IsCompass()
    ensures s.facing.IsCompass() ==> (r.None? <==> BadTurn1(a))
  {
    if a.dir.IsTurn() then
      match Turned(s.facing, a.dir, a.value)
      case None => None
      case Some(f) => Some(ShipState(s.pos, f))
    else
      var d := if a.dir == Forward then s.facing else a.dir;
      match Translated(s.pos, d, a.value)
      case None => None
      case Some(p) => Some(ShipState(p, s.facing))
  }

  /**
   * The ship after the remaining actions of part 1, or None at a panic.
   * From a compass heading the ship stays on the compass, and the run
   * panics exactly when some turn is not by 90, 180 or 270 degrees.
   */
  function Run1(s: ShipState, actions: seq<Action>): (r: Option<ShipState>)
    ensures s.facing.IsCompass() && r.Some? ==> r.value.facing.IsCompass()
    ensures s.facing.IsCompass() ==> (r.None? <==> HasBad(actions, BadTurn1))
    decreases |actions|
  {
    if actions == [] then Some(s)
    else
      HasBadSplit(actions, BadTurn1);
      match Step1(s, actions[0])
      case None => None
      case Some(s') => Run1(s', actions[1..])
  }

  /** `part1`: the Manhattan distance of the ship from the origin after all actions. */
  method Part1(actions: seq<Action>) returns (r: Option<nat>)
    ensures var end := Run1(ShipState(Pos(0, 0), East), actions);
      r == if end.Some? then Some(Manhattan(end.value.pos)) else None
  {
    var ship := new Ship();
    for i := 0 to |actions|
      invariant fresh(ship) && fresh(ship.position)
      invariant Run1(ShipState(Pos(0, 0), East), actions) == Run1(ship.State(), actions[i..])
    {
      var a := actions[i];
      assert actions[i..][1..] == actions[i + 1..];
      var ok;
      if a.dir.IsTurn() {
        ok := ship.Rotate(a.dir, a.value);
      } else if a.dir == Forward {
        ok := ship.Travel(None, a.value);
      } else {
        ok := ship.Travel(Some(a.dir), a.value);
      }
      if !ok {
        return None;
      }
    }
    return Some(Manhattan(ship.position.Value()));
  }

  /** The ship and the waypoint of part 2. */
  datatype Fleet = Fleet(ship: Pos, waypoint: Pos)

  /** One action of part 2. */
  function Step2(f: Fleet, a: Action): (r: Option<Fleet>)
    ensures r.None? <==> BadTurn2(a)
  {
    match a.dir
    case Left =>
      (match RotatedCcw(f.waypoint, a.value)
       case None => None
       case Some(w) => Some(Fleet(f.ship, w)))
    case Right =>
      (match RotatedCcw(f.waypoint, -a.value)
       case None => None
       case Some(w) => Some(Fleet(f.ship, w)))
    case Forward =>
      Some(Fleet(Pos(f.ship.x + f.waypoint.x * a.value, f.ship.y + f.waypoint.y * a.value), f.waypoint))
    case _ => Some(Fleet(f.ship, Translated(f.waypoint, a.dir, a.value).value))
  }

  /**
   * The fleet after the remaining actions of part 2, or None at a panic,
   * which happens exactly when some turn is not by a multiple of 90
   * degrees between -270 and 270 (other than 0).
   */
  function Run2(f: Fleet, actions: seq<Action>): (r: Option<Fleet>)
    ensures r.None? <==> HasBad(actions, BadTurn2)
    decreases |actions|
  {
    if actions == [] then Some(f)
    else
      HasBadSplit(actions, BadTurn2);
      match Step2(f, actions[0])
      case None => None
      case Some(f') => Run2(f', actions[1..])
  }

  /** Part 2 moves the ship only by whole multiples of the waypoint and rotations keep its distance. */
  lemma Step2KeepsWaypointDistanceOnTurns(f: Fleet, a: Action)
    requires a.dir.IsTurn() && Step2(f, a).Some?
    ensures Step2(f, a).value.ship == f.ship
    ensures Manhattan(Step2(f, a).value.waypoint) == Manhattan(f.waypoint)
  {
  }

  /** `part2`: the Manhattan distance of the ship after steering by the waypoint. */
  method Part2(actions: seq<Action>) returns (r: Option<nat>)
    ensures var end := Run2(Fleet(Pos(0, 0), Pos(10, 1)), actions);
      r == if end.Some? then Some(Manhattan(end.value.ship)) else None
  {
    var ship := new Ship();
    var waypoint := new Point(10, 1);
    for i := 0 to |actions|
      invariant fresh(ship) && fresh(ship.position) && fresh(waypoint) && ship.position != waypoint
      invariant Run2(Fleet(Pos(0, 0), Pos(10, 1)), actions) ==
        Run2(Fleet(ship.position.Value(), waypoint.Value()), actions[i..])
    {
      var a := actions[i];
      assert actions[i..][1..] == actions[i + 1..];
      match a.dir {
        case Left =>
          var ok := waypoint.RotateCounterClockwise(a.value);
          if !ok {
            return None;
          }
        case Right =>
          var ok := waypoint.RotateCounterClockwise(-a.value);
          if !ok {
            return None;
          }
        case Forward =>
          ship.TravelTowardsWaypoint(waypoint.Value(), a.value);
        case _ =>
          var ok := waypoint.Translate(a.dir, a.value);
      }
    }
    return Some(Manhattan(ship.position.Value()));
  }

  /** The puzzle's example `F10 N3 F7 R90 F11`. */
  function ExampleActions(): seq<Action>
  {
    [Action(Forward, 10), Action(North, 3), Action(Forward, 7), Action(Right, 90), Action(Forward, 11)]
  }

  /** In part 1 the example ends at east 17, south 8, facing south: 25 from the origin. */
  lemma Example1()
    ensures Run1(ShipState(Pos(0, 0), East), ExampleActions()) == Some(ShipState(Pos(17, -8), South))
    ensures Manhattan(Pos(17, -8)) == 25
  {
    var actions := ExampleActions();
    assert actions[4..][1..] == [];
    assert actions[3..][1..] == actions[4..];
    assert actions[2..][1..] == actions[3..];
    assert actions[1..][1..] == actions[2..];
    assert Run1(ShipState(Pos(17, 3), South), actions[4..]) == Some(ShipState(Pos(17, -8), South));
    assert Run1(ShipState(Pos(17, 3), East), actions[3..]) == Some(ShipState(Pos(17, -8), South));
    assert Run1(ShipState(Pos(10, 3), East), actions[2..]) == Some(ShipState(Pos(17, -8), South));
    assert Run1(ShipState(Pos(10, 0), East), actions[1..]) == Some(ShipState(Pos(17, -8), South));
  }

  /** In part 2 the example ends at east 214, south 72: 286 from the origin. */
  lemma Example2()
    ensures Run2(Fleet(Pos(0, 0), Pos(10, 1)), ExampleActions()) == Some(Fleet(Pos(214, -72), Pos(4, -10)))
    ensures Manhattan(Pos(214, -72)) == 286
  {
    var actions := ExampleActions();
    assert actions[4..][1..] == [];
    assert actions[3..][1..] == actions[4..];
    assert actions[2..][1..] == actions[3..];
    assert actions[1..][1..] == actions[2..];
    assert Run2(Fleet(Pos(170, 38), Pos(4, -10)), actions[4..]) == Some(Fleet(Pos(214, -72), Pos(4, -10)));
    assert Run2(Fleet(Pos(170, 38), Pos(10, 4)), actions[3..]) == Some(Fleet(Pos(214, -72), Pos(4, -10)));
    assert Run2(Fleet(Pos(100, 10), Pos(10, 4)), actions[2..]) == Some(Fleet(Pos(214, -72), Pos(4, -10)));
    assert Run2(Fleet(Pos(100, 10), Pos(10, 1)), actions[1..]) == Some(Fleet(Pos(214, -72), Pos(4, -10)));
  }
}
