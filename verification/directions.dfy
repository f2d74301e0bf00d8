/**
 * Board coordinates and the four compass headings of a snake
 * (src/gameLogic/Direction.java). Everything here is a pure function of
 * its arguments.
 */
module Directions {
  import opened Results

  /** A board cell; x grows towards the east, y grows towards the south. */
  datatype Position = Position(x: int, y: int)

  /** The closed set of headings; the source's enum declares them in this order. */
  datatype Direction = North | West | South | East

  /** Why no heading leads from one cell to another (both are IllegalArgumentException). */
  datatype DirectionError = SamePosition | NotAxisAligned

  function Abs(n: int): nat
  {
    if n < 0 then -n else n
  }

  /** Manhattan distance between two cells. */
  function Distance(p: Position, q: Position): nat
  {
    Abs(q.x - p.x) + Abs(q.y - p.y)
  }

  predicate IsHorizontal(d: Direction)
  {
    d == West || d == East
  }

  /**
   * calculateNextPosition: the neighbouring cell one step along d. Exactly one
   * coordinate changes, by exactly one, in the sense d names.
   */
  function NextPosition(d: Direction, p: Position): (q: Position)
    ensures Distance(p, q) == 1
    ensures IsHorizontal(d) <==> q.y == p.y
    ensures d == West ==> q.x < p.x
    ensures d == East ==> q.x > p.x
    ensures d == North ==> q.y < p.y
    ensures d == South ==> q.y > p.y
  {
    match d
    case West => Position(p.x - 1, p.y)
    case North => Position(p.x, p.y - 1)
    case East => Position(p.x + 1, p.y)
    case South => Position(p.x, p.y + 1)
  }

  /** The displacement (dx, dy) of one step along d; StepFollowsOffset ties it to NextPosition. */
  function Offset(d: Direction): (int, int)
  {
    match d
    case West => (-1, 0)
    case North => (0, -1)
    case East => (1, 0)
    case South => (0, 1)
  }

  /**
   * turnLeft: a quarter turn counter-clockwise as seen on the board. With y
   * growing downwards, the step (dx, dy) becomes (dy, -dx).
   */
  function TurnLeft(d: Direction): (r: Direction)
    ensures Offset(r) == (Offset(d).1, -Offset(d).0)
    ensures IsHorizontal(r) != IsHorizontal(d)
  {
    match d
    case West => South
    case South => East
    case East => North
    case North => West
  }

  /** turnRight: a quarter turn clockwise; the step (dx, dy) becomes (-dy, dx). */
  function TurnRight(d: Direction): (r: Direction)
    ensures Offset(r) == (-Offset(d).1, Offset(d).0)
    ensures IsHorizontal(r) != IsHorizontal(d)
  {
    match d
    case West => North
    case North => East
    case East => South
    case South => West
  }

  /** The reverse heading, the one a snake may not take (Session.isValidMove). */
  function Opposite(d: Direction): (r: Direction)
    ensures Offset(r) == (-Offset(d).0, -Offset(d).1)
  {
    match d
    case North => South
    case South => North
    case West => East
    case East => West
  }

  /**
   * getDirectionFromPositionToPosition: the heading that leads from `from`
   * straight towards `to`. It fails when the two cells coincide or when they
   * differ in both coordinates.
   */
  function DirectionFromTo(from: Position, to: Position): (r: Result<Direction, DirectionError>)
    ensures r == Failure(SamePosition) <==> from == to
    ensures r == Failure(NotAxisAligned) <==> from.x != to.x && from.y != to.y
    ensures r.Success? ==> Distance(NextPosition(r.value, from), to) == Distance(from, to) - 1
  {
    if from == to then
      Failure(SamePosition)
    else if from.x == to.x then
      if from.y < to.y then Success(South)
      else if from.y > to.y then Success(North)
      else Failure(NotAxisAligned)
    else if from.y == to.y then
      if from.x < to.x then Success(East)
      else if from.x > to.x then Success(West)
      else Failure(NotAxisAligned)
    else
      Failure(NotAxisAligned)
  }

  /** n steps along d, starting at p. */
  function Walk(d: Direction, p: Position, n: nat): Position
    decreases n
  {
    if n == 0 then p else Walk(d, NextPosition(d, p), n - 1)
  }

  /** A step adds the heading's displacement to the cell. */
  lemma StepFollowsOffset(d: Direction, p: Position)
    ensures NextPosition(d, p) == Position(p.x + Offset(d).0, p.y + Offset(d).1)
  {
  }

  /** The two turns undo each other. */
  lemma TurnsAreInverse(d: Direction)
    ensures TurnLeft(TurnRight(d)) == d
    ensures TurnRight(TurnLeft(d)) == d
  {
  }

  /** Four quarter turns in the same sense come back to the start; fewer never do. */
  lemma TurnCycleHasLengthFour(d: Direction)
    ensures TurnLeft(TurnLeft(TurnLeft(TurnLeft(d)))) == d
    ensures TurnRight(TurnRight(TurnRight(TurnRight(d)))) == d
    ensures TurnLeft(d) != d && TurnLeft(TurnLeft(d)) != d && TurnLeft(TurnLeft(TurnLeft(d))) != d
    ensures TurnRight(d) != d && TurnRight(TurnRight(d)) != d && TurnRight(TurnRight(TurnRight(d))) != d
  {
    match d
    case North =>
    case West =>
    case South =>
    case East =>
  }

  /** The reverse heading is a half turn either way, and stepping back undoes a step. */
  lemma OppositeIsHalfTurn(d: Direction, p: Position)
    ensures Opposite(d) == TurnLeft(TurnLeft(d)) == TurnRight(TurnRight(d))
    ensures Opposite(d) != d && Opposite(Opposite(d)) == d
    ensures NextPosition(Opposite(d), NextPosition(d, p)) == p
  {
    match d
    case North =>
    case West =>
    case South =>
    case East =>
  }

  /** Stepping and then asking for the heading between the two cells gives back the step. */
  lemma StepRoundTrip(d: Direction, p: Position)
    ensures DirectionFromTo(p, NextPosition(d, p)) == Success(d)
  {
  }

  /**
   * Any number of steps along d, at least one, is seen again as heading d, and
   * the walk covers exactly that many cells of distance.
   */
  lemma {:induction false} WalkRoundTrip(d: Direction, p: Position, n: nat)
    requires n > 0
    ensures Distance(p, Walk(d, p, n)) == n
    ensures DirectionFromTo(p, Walk(d, p, n)) == Success(d)
    decreases n
  {
    var q := NextPosition(d, p);
    if n > 1 {
      WalkRoundTrip(d, q, n - 1);
    }
  }

  /**
   * Conversely, whenever a heading from `from` to `to` exists, walking along it
   * for Distance(from, to) steps reaches `to`.
   */
  lemma {:induction false} WalkReachesTarget(from: Position, to: Position)
    requires DirectionFromTo(from, to).Success?
    ensures Walk(DirectionFromTo(from, to).value, from, Distance(from, to)) == to
    decreases Distance(from, to)
  {
    var d := DirectionFromTo(from, to).value;
    var next := NextPosition(d, from);
    if next != to {
      assert DirectionFromTo(next, to) == Success(d);
      WalkReachesTarget(next, to);
    }
  }
}
