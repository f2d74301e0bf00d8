/**
 * The tick engine of a match (src/gameLogic/Session.java): the roster, the
 * walled board, one simulation step and the game-over rule.
 *
 * The agents' answers for a tick arrive as a map from snake to an optional
 * heading (no entry, or None, for an agent that was late or failed), and the
 * random numbers used to place fruit arrive as a sequence of draws.
 */
module Sessions {
  import opened Results
  import opened Directions
  import opened GameObjects

  /** Why the roster refused a change (both are IllegalArgumentException). */
  datatype SessionError = NullSnake | NoSuchSnake

  /** What perhapsSpawnFruit did this tick. */
  datatype SpawnResult =
    | NotDue             // the spawn interval has not come round
    | NoInterior         // the board has no cell inside the rim to draw (IllegalArgumentException from nextInt)
    | Spawned(at: Position)
    | DrawsExhausted     // every supplied draw hit an occupied square

  /** Cells on the rim of a width x height board, the ones createStandardBoard walls in. */
  predicate OnPerimeter(p: Position, width: int, height: int)
  {
    || (0 <= p.x < width && (p.y == 0 || p.y == height - 1))
    || (0 <= p.y < height && (p.x == 0 || p.x == width - 1))
  }

  /** Cells strictly inside the rim, where fruit may appear. */
  predicate IsInterior(p: Position, width: int, height: int)
  {
    1 <= p.x <= width - 2 && 1 <= p.y <= height - 2
  }

  /** The square a draw lands on: one plus each drawn number, inside the rim. */
  function DrawnCell(draw: (int, int)): Position
  {
    Position(1 + draw.0, 1 + draw.1)
  }

  /** Every rim cell holds at least one wall. */
  ghost predicate Walled(b: Board, width: int, height: int)
  {
    forall p :: OnPerimeter(p, width, height) ==> HasWall(At(b, p))
  }

  /** Every square holds no fruit or exactly one, worth FruitValue. */
  ghost predicate FruitsValid(b: Board)
  {
    forall p :: At(b, p).fruits == [] || At(b, p).fruits == [FruitValue]
  }

  /** The living snakes among xs. */
  ghost function LivingAmong(xs: set<Snake>): set<Snake>
    reads xs
  {
    set s | s in xs && !s.dead
  }

  /** Whether an event with the given interval falls on this turn. */
  function IsDue(turn: int, frequency: int): bool
    requires frequency != 0
  {
    turn % frequency == 0
  }

  /**
   * isValidMove: a snake may take any heading except the exact reverse of its
   * current one; keeping the current heading is allowed.
   */
  function IsValidMove(heading: Direction, d: Direction): (valid: bool)
    ensures valid <==> d != Opposite(heading)
  {
    match heading
    case North => d != South
    case West => d != East
    case South => d != North
    case East => d != West
  }

  /** The answer an agent gave this tick; no entry means it gave none in time. */
  function AnswerOf(answers: map<Snake, Option<Direction>>, s: Snake): Option<Direction>
  {
    if s in answers then answers[s] else None
  }

  /**
   * The move a living snake makes: its answer when it is a legal move, its
   * current heading when the answer is missing, late, failed or a reversal.
   */
  function ChosenMove(heading: Direction, answer: Option<Direction>): (move: Direction)
    ensures move != Opposite(heading)
    ensures answer.Some? && answer.value != Opposite(heading) ==> move == answer.value
    ensures !(answer.Some? && answer.value != Opposite(heading)) ==> move == heading
  {
    if answer.Some? && IsValidMove(heading, answer.value) then answer.value else heading
  }

  /**
   * The body after one move along d: the new head, then the old body, less its
   * last cell unless the snake grows.
   */
  function Advance(body: seq<Position>, d: Direction, grow: bool): (moved: seq<Position>)
    requires |body| > 0
    ensures |moved| == |body| + (if grow then 1 else 0)
    ensures moved[0] == NextPosition(d, body[0])
    ensures moved[1..] == body[..|moved| - 1]
  {
    [NextPosition(d, body[0])] + (if grow then body else body[..|body| - 1])
  }

  /**
   * The heading a snake moved along can be read back from its first two
   * segments, and the old head is now the second segment.
   */
  lemma AdvanceRoundTrip(body: seq<Position>, d: Direction, grow: bool)
    requires |body| > 0
    ensures |Advance(body, d, grow)| >= 2 || (!grow && |body| == 1)
    ensures |Advance(body, d, grow)| >= 2 ==> Advance(body, d, grow)[1] == body[0]
    ensures DirectionFromTo(body[0], Advance(body, d, grow)[0]) == Success(d)
  {
    StepRoundTrip(d, body[0]);
  }

  /**
   * How many segments of a moving snake square p holds after the snake puts
   * its head on newHead and, unless it grows, takes one segment (if any) off
   * oldTail; c is the count before the move.
   */
  function MovedCount(c: nat, p: Position, newHead: Position, oldTail: Position, grow: bool): nat
  {
    var added := if p == newHead then c + 1 else c;
    if !grow && p == oldTail then (if added > 0 then added - 1 else 0) else added
  }

  /** The board after snake s puts its head on newHead and, unless it grows, leaves oldTail. */
  function SnakeMoved(b: Board, s: Snake, newHead: Position, oldTail: Position, grow: bool): Board
  {
    var added := AddSegment(b, newHead, s);
    if grow then added else RemoveSegment(added, oldTail, s)
  }

  /**
   * One move changes the moving snake's segment counts as MovedCount says and
   * leaves every other snake's counts, and all walls and fruits, alone.
   */
  lemma MovedBoard(b: Board, s: Snake, newHead: Position, oldTail: Position, grow: bool)
    ensures forall p: Position, t: Snake {:trigger At(SnakeMoved(b, s, newHead, oldTail, grow), p).snakes[t]} ::
      At(SnakeMoved(b, s, newHead, oldTail, grow), p).snakes[t] ==
      if t == s then MovedCount(At(b, p).snakes[t], p, newHead, oldTail, grow) else At(b, p).snakes[t]
    ensures forall p ::
      && At(SnakeMoved(b, s, newHead, oldTail, grow), p).walls == At(b, p).walls
      && At(SnakeMoved(b, s, newHead, oldTail, grow), p).fruits == At(b, p).fruits
  {
    var added := AddSegment(b, newHead, s);
    var after := SnakeMoved(b, s, newHead, oldTail, grow);
    AddSegmentCounts(b, newHead, s);
    if !grow {
      RemoveSegmentCounts(added, oldTail, s);
    }
    forall p: Position, t: Snake
      ensures At(after, p).snakes[t] == if t == s then MovedCount(At(b, p).snakes[t], p, newHead, oldTail, grow) else At(b, p).snakes[t]
    {
      var c := At(added, p).snakes[t];
      assert c == if t == s && p == newHead then At(b, p).snakes[t] + 1 else At(b, p).snakes[t];
      if !grow {
        assert At(after, p).snakes[t] == if t == s && p == oldTail then (if c > 0 then c - 1 else 0) else c;
      }
    }
  }

  /**
   * Bookkeeping for a round in progress: if, on `before`, the snakes of `done`
   * have moved from `start` as MovedCount says and the others not at all, then
   * after one more snake s moves the same holds with s added to `done`.
   */
  lemma CountsAfterMove(start: Board, before: Board, done: set<Snake>, s: Snake,
                        heads: map<Snake, Position>, tails: map<Snake, Position>, grow: bool)
    requires s in heads && s in tails && s !in done && done <= heads.Keys && done <= tails.Keys
    requires forall p :: At(before, p).walls == At(start, p).walls && At(before, p).fruits == At(start, p).fruits
    requires forall p: Position, t: Snake {:trigger At(before, p).snakes[t]} ::
      At(before, p).snakes[t] ==
      if t in done then MovedCount(At(start, p).snakes[t], p, heads[t], tails[t], grow) else At(start, p).snakes[t]
    ensures forall p ::
      && At(SnakeMoved(before, s, heads[s], tails[s], grow), p).walls == At(start, p).walls
      && At(SnakeMoved(before, s, heads[s], tails[s], grow), p).fruits == At(start, p).fruits
    ensures forall p: Position, t: Snake {:trigger At(SnakeMoved(before, s, heads[s], tails[s], grow), p).snakes[t]} ::
      At(SnakeMoved(before, s, heads[s], tails[s], grow), p).snakes[t] ==
      if t in done + {s} then MovedCount(At(start, p).snakes[t], p, heads[t], tails[t], grow) else At(start, p).snakes[t]
  {
    var after := SnakeMoved(before, s, heads[s], tails[s], grow);
    MovedBoard(before, s, heads[s], tails[s], grow);
    forall p: Position, t: Snake
      ensures At(after, p).snakes[t] ==
        if t in done + {s} then MovedCount(At(start, p).snakes[t], p, heads[t], tails[t], grow) else At(start, p).snakes[t]
    {
    }
  }

  /**
   * Two snakes whose new heads meet on cell c both find c lethal, whatever
   * order they moved in: each has a segment there after the round, as long as
   * the snakes grow this turn or c is neither one's old tail. (Without growth,
   * a head landing on its own old tail may lose that segment again when the
   * tail is taken off.)
   */
  lemma HeadOnCollisionKillsBoth(start: Board, moved: Board, a: Snake, b: Snake, c: Position,
                                 tailA: Position, tailB: Position, grow: bool)
    requires a != b
    requires grow || (c != tailA && c != tailB)
    requires At(moved, c).snakes[a] == MovedCount(At(start, c).snakes[a], c, c, tailA, grow)
    requires At(moved, c).snakes[b] == MovedCount(At(start, c).snakes[b], c, c, tailB, grow)
    ensures a in At(moved, c).snakes && b in At(moved, c).snakes
    ensures IsLethal(At(moved, c))
  {
    TwoSnakesAreLethal(At(moved, c), a, b);
  }

  /** Clearing the fruit of some squares keeps the walls and leaves every square with at most its one fruit. */
  lemma ClearingFruitKeepsValid(start: Board, b: Board, cleared: set<Position>, width: int, height: int)
    requires Walled(start, width, height) && FruitsValid(start)
    requires forall p {:trigger At(b, p)} :: At(b, p) == if p in cleared then At(start, p).(fruits := []) else At(start, p)
    ensures Walled(b, width, height) && FruitsValid(b)
  {
  }

  /** Two boards with the same walls and fruits everywhere are valid alike. */
  lemma SameWallsAndFruitsKeepValid(a: Board, b: Board, width: int, height: int)
    requires Walled(a, width, height) && FruitsValid(a)
    requires forall p :: At(b, p).walls == At(a, p).walls && At(b, p).fruits == At(a, p).fruits
    ensures Walled(b, width, height) && FruitsValid(b)
  {
  }

  /** hasEnded, as a function of the roster size, the living count and the score goal. */
  function GameOver(rosterSize: nat, living: nat, goalReached: bool): bool
  {
    living == 0 || (living < 2 && rosterSize > 2) || goalReached
  }

  // The four lemmas below are the arithmetic behind DueOncePerInterval, which
  // is the interval gate of checkForGrowth and perhapsSpawnFruit.

  /** A product of naturals is either 0 times something or at least its first factor. */
  lemma ProductIsZeroOrLarger(a: nat, b: nat)
    ensures b == 0 || a * b >= a
  {
    if b > 0 {
      assert a * b == a * (b - 1) + a;
      assert a * (b - 1) >= 0;
    }
  }

  lemma AbsOfProduct(f: int, k: int)
    ensures Abs(f * k) == Abs(f) * Abs(k)
  {
    if f < 0 && k < 0 {
      assert Abs(f) * Abs(k) == (-f) * (-k) == f * k;
    } else if f < 0 {
      assert Abs(f) * Abs(k) == (-f) * k == -(f * k);
    } else if k < 0 {
      assert Abs(f) * Abs(k) == f * (-k) == -(f * k);
    }
  }

  /** A multiple of f that is not negative and below |f| is 0 times f. */
  lemma SmallMultipleIsZero(f: int, k: int)
    requires f != 0 && 0 <= f * k < Abs(f)
    ensures k == 0
  {
    AbsOfProduct(f, k);
    ProductIsZeroOrLarger(Abs(f), Abs(k));
  }

  /** Every multiple of f is due. */
  lemma MultipleIsDue(f: int, m: int)
    requires f != 0
    ensures IsDue(f * m, f)
  {
    var n := f * m;
    assert n == f * (n / f) + n % f;
    assert n % f == f * (m - n / f);
    SmallMultipleIsZero(f, m - n / f);
  }

  /** An event with interval f happens once every |f| turns and not in between. */
  lemma DueOncePerInterval(turn: int, f: int, k: int)
    requires f != 0 && IsDue(turn, f)
    ensures IsDue(turn + f, f)
    ensures 0 < k < Abs(f) ==> !IsDue(turn + k, f)
  {
    var q := turn / f;
    assert turn == f * q + turn % f;
    assert turn + f == f * (q + 1);
    MultipleIsDue(f, q + 1);
    if 0 < k < Abs(f) && IsDue(turn + k, f) {
      var r := (turn + k) / f;
      assert turn + k == f * r + (turn + k) % f;
      assert k == f * (r - q);
      SmallMultipleIsZero(f, r - q);
      assert false;
    }
  }

  /** Due again exactly one interval on, and on no turn in between. */
  predicate CheckedAgainAfter(turn: int, f: int)
    requires f != 0
  {
    IsDue(turn + f, f) && forall t :: turn < t < turn + Abs(f) ==> !IsDue(t, f)
  }

  /** DueOncePerInterval for every turn of the interval at once. */
  lemma DueAgainAfterOneInterval(turn: int, f: int)
    requires f != 0 && IsDue(turn, f)
    ensures CheckedAgainAfter(turn, f)
  {
    DueOncePerInterval(turn, f, 0);
    forall t | turn < t < turn + Abs(f)
      ensures !IsDue(t, f)
    {
      DueOncePerInterval(turn, f, t - turn);
    }
  }

  lemma EndRules(rosterSize: nat, living: nat, goalReached: bool)
    requires living <= rosterSize
    ensures living == 0 ==> GameOver(rosterSize, living, goalReached)
    ensures rosterSize > 2 && living < 2 ==> GameOver(rosterSize, living, goalReached)
    ensures goalReached ==> GameOver(rosterSize, living, goalReached)
    ensures rosterSize == 2 && living >= 1 && !goalReached ==> !GameOver(rosterSize, living, goalReached)
  {
  }

  /** The rim of a board of at least one cell lies on its four border lines, and nothing inside does. */
  lemma PerimeterIsTheBorder(p: Position, width: int, height: int)
    requires width >= 1 && height >= 1
    requires 0 <= p.x < width && 0 <= p.y < height
    ensures OnPerimeter(p, width, height) <==> (p.x == 0 || p.x == width - 1 || p.y == 0 || p.y == height - 1)
    ensures IsInterior(p, width, height) <==> !OnPerimeter(p, width, height)
  {
  }

  /**
   * createStandardBoard: an empty width x height board with a wall on every
   * rim cell (twice on the corners) and nothing anywhere else.
   */
  method CreateStandardBoard(width: int, height: int) returns (b: Board)
    ensures forall p :: HasWall(At(b, p)) <==> OnPerimeter(p, width, height)
    ensures forall p :: !HasFruit(At(b, p)) && !HasSnake(At(b, p))
  {
    b := map[];
    var x := 0;
    while x < width
      invariant x == 0 || x <= width
      invariant forall p :: HasWall(At(b, p)) <==> (0 <= p.x < x && (p.y == 0 || p.y == height - 1))
      invariant forall p :: !HasFruit(At(b, p)) && !HasSnake(At(b, p))
    {
      AddWallEffect(b, Position(x, 0));
      b := AddWall(b, Position(x, 0));
      AddWallEffect(b, Position(x, height - 1));
      b := AddWall(b, Position(x, height - 1));
      x := x + 1;
    }
    var y := 0;
    while y < height
      invariant y == 0 || y <= height
      invariant forall p :: HasWall(At(b, p)) <==>
        || (0 <= p.x < width && (p.y == 0 || p.y == height - 1))
        || (0 <= p.y < y && (p.x == 0 || p.x == width - 1))
      invariant forall p :: !HasFruit(At(b, p)) && !HasSnake(At(b, p))
    {
      AddWallEffect(b, Position(0, y));
      b := AddWall(b, Position(0, y));
      AddWallEffect(b, Position(width - 1, y));
      b := AddWall(b, Position(width - 1, y));
      y := y + 1;
    }
  }

  /** A match in progress. */
  class Session {
    const metadata: Metadata
    var board: Board
    var snakes: set<Snake>
    /** Turns recorded so far (the recorded game's turn count). */
    var turnCount: nat

    /** The board stays walled in and never holds more than one fruit per square. */
    ghost predicate Valid()
      reads this
    {
      Walled(board, metadata.boardWidth, metadata.boardHeight) && FruitsValid(board)
    }

    /** Every snake of the roster has been placed on the board. */
    ghost predicate Placed()
      reads this, snakes
    {
      forall s: Snake :: s in snakes ==> |s.body| > 0
    }

    ghost function Living(): set<Snake>
      reads this, snakes
    {
      LivingAmong(snakes)
    }

    ghost predicate GoalReached()
      reads this, snakes
    {
      exists s :: s in snakes && s.score >= metadata.fruitGoal
    }

    /** A session with an empty roster on a freshly walled board. */
    constructor (metadata: Metadata)
      ensures this.metadata == metadata && snakes == {} && turnCount == 0
      ensures forall p :: HasWall(At(board, p)) <==> OnPerimeter(p, metadata.boardWidth, metadata.boardHeight)
      ensures forall p :: !HasFruit(At(board, p)) && !HasSnake(At(board, p))
      ensures Valid()
    {
      this.metadata := metadata;
      var b := CreateStandardBoard(metadata.boardWidth, metadata.boardHeight);
      board := b;
      snakes := {};
      turnCount := 0;
    }

    /** addSnake: refuses null, otherwise adds the snake to the roster. */
    method AddSnake(newSnake: Snake?) returns (outcome: Outcome<SessionError>)
      modifies this`snakes
      ensures newSnake == null ==> outcome == Fail(NullSnake) && snakes == old(snakes)
      ensures newSnake != null ==> outcome == Pass && snakes == old(snakes) + {newSnake}
    {
      if newSnake == null {
        return Fail(NullSnake);
      }
      snakes := snakes + {newSnake};
      outcome := Pass;
    }

    /** removeSnake: refuses a snake that is not in the roster, otherwise removes it. */
    method RemoveSnake(snake: Snake?) returns (outcome: Outcome<SessionError>)
      modifies this`snakes
      ensures (snake != null && snake in old(snakes)) ==> outcome == Pass && snakes == old(snakes) - {snake}
      ensures !(snake != null && snake in old(snakes)) ==> outcome == Fail(NoSuchSnake) && snakes == old(snakes)
    {
      if snake == null || snake !in snakes {
        return Fail(NoSuchSnake);
      }
      snakes := snakes - {snake};
      outcome := Pass;
    }

    /**
     * hasEnded: counts the living snakes by discounting the dead ones, then
     * looks for a score that reached the goal.
     */
    method HasEnded() returns (ended: bool)
      ensures ended == GameOver(|snakes|, |Living()|, GoalReached())
    {
      var numberOfLivingSnakes := |snakes|;
      var rest := snakes;
      while rest != {}
        invariant rest <= snakes
        invariant numberOfLivingSnakes == |rest| + |LivingAmong(snakes - rest)|
      {
        var s :| s in rest;
        ghost var counted := LivingAmong(snakes - rest);
        assert snakes - (rest - {s}) == (snakes - rest) + {s};
        if s.dead {
          numberOfLivingSnakes := numberOfLivingSnakes - 1;
          assert LivingAmong(snakes - (rest - {s})) == counted;
        } else {
          assert LivingAmong(snakes - (rest - {s})) == counted + {s};
        }
        rest := rest - {s};
      }
      assert snakes - rest == snakes;
      if numberOfLivingSnakes == 0 || (numberOfLivingSnakes < 2 && |snakes| > 2) {
        return true;
      }
      rest := snakes;
      while rest != {}
        invariant rest <= snakes
        invariant forall t :: t in snakes - rest ==> t.score < metadata.fruitGoal
      {
        var s :| s in rest;
        if s.score >= metadata.fruitGoal {
          return true;
        }
        rest := rest - {s};
      }
      return false;
    }

    /**
     * checkForGrowth: snakes grow on the turns the growth interval falls on,
     * the first turn among them; a growing turn comes round again after one
     * interval and not before.
     */
    function CheckForGrowth(): (grow: bool)
      reads this
      requires metadata.growthFrequency != 0
      ensures grow <==> turnCount % metadata.growthFrequency == 0
      ensures turnCount == 0 ==> grow
      ensures grow ==> CheckedAgainAfter(turnCount, metadata.growthFrequency)
    {
      if IsDue(turnCount, metadata.growthFrequency) then
        DueAgainAfterOneInterval(turnCount, metadata.growthFrequency);
        true
      else
        false
    }

    /**
     * The collecting half of getDecisionsFromSnakes: every living snake gets a
     * move; a legal answer becomes its move and its new heading, anything else
     * leaves the heading as it was and repeats it as the move.
     */
    method GatherDecisions(answers: map<Snake, Option<Direction>>) returns (moves: map<Snake, Direction>)
      modifies snakes`heading
      ensures moves.Keys == old(Living())
      ensures forall s: Snake :: s in moves ==> moves[s] == ChosenMove(old(s.heading), AnswerOf(answers, s)) && s.heading == moves[s]
      ensures forall s: Snake :: s in snakes && s !in moves ==> s.heading == old(s.heading)
    {
      var living := set s | s in snakes && !s.dead;
      moves := map[];
      var todo := living;
      while todo != {}
        invariant todo <= living
        invariant moves.Keys == living - todo
        invariant forall s: Snake :: s in moves ==> moves[s] == ChosenMove(old(s.heading), AnswerOf(answers, s)) && s.heading == moves[s]
        invariant forall s: Snake :: s in snakes && s !in moves ==> s.heading == old(s.heading)
      {
        var s: Snake :| s in todo;
        var answer := AnswerOf(answers, s);
        if answer.Some? && IsValidMove(s.heading, answer.value) {
          moves := moves[s := answer.value];
          s.SetCurrentDirection(answer.value);
        } else {
          moves := moves[s := s.heading];
        }
        todo := todo - {s};
      }
    }

    /**
     * moveSnake: puts the snake on the cell ahead of its head and, unless it
     * grows, takes it off the cell of its old tail.
     */
    method MoveSnake(s: Snake, dir: Direction, grow: bool)
      requires |s.body| > 0
      modifies this`board, s`body
      ensures s.body == Advance(old(s.body), dir, grow)
      ensures board == SnakeMoved(old(board), s, NextPosition(dir, old(s.body[0])), old(s.body[|s.body| - 1]), grow)
    {
      var currentHeadPosition := s.Head();
      var currentTailPosition := s.Tail();
      var newHeadPosition := NextPosition(dir, currentHeadPosition);
      board := AddSegment(board, newHeadPosition, s);
      s.MoveHead(newHeadPosition);
      if !grow {
        board := RemoveSegment(board, currentTailPosition, s);
        s.RemoveTail();
      }
    }

    /** One step of moveAllSnakes: moves s and carries the round's segment counts over to it. */
    method MoveOne(s: Snake, dir: Direction, grow: bool, ghost start: Board, ghost done: set<Snake>,
                   ghost heads: map<Snake, Position>, ghost tails: map<Snake, Position>)
      requires |s.body| > 0
      requires s in heads && s in tails && s !in done && done <= heads.Keys && done <= tails.Keys
      requires heads[s] == NextPosition(dir, s.body[0]) && tails[s] == s.body[|s.body| - 1]
      requires forall p :: At(board, p).walls == At(start, p).walls && At(board, p).fruits == At(start, p).fruits
      requires forall p: Position, t: Snake {:trigger At(board, p).snakes[t]} ::
        At(board, p).snakes[t] ==
        if t in done then MovedCount(At(start, p).snakes[t], p, heads[t], tails[t], grow) else At(start, p).snakes[t]
      modifies this`board, s`body
      ensures s.body == Advance(old(s.body), dir, grow)
      ensures forall p :: At(board, p).walls == At(start, p).walls && At(board, p).fruits == At(start, p).fruits
      ensures forall p: Position, t: Snake {:trigger At(board, p).snakes[t]} ::
        At(board, p).snakes[t] ==
        if t in done + {s} then MovedCount(At(start, p).snakes[t], p, heads[t], tails[t], grow) else At(start, p).snakes[t]
    {
      ghost var before := board;
      MoveSnake(s, dir, grow);
      assert board == SnakeMoved(before, s, heads[s], tails[s], grow);
      CountsAfterMove(start, before, done, s, heads, tails, grow);
    }

    /**
     * moveAllSnakes: moves every snake that has a move, in no particular order.
     * Each mover's segment counts change as its own move says: one more on its
     * new head, and one fewer on its old tail unless it grows.
     */
    method MoveAllSnakes(moves: map<Snake, Direction>, grow: bool)
      requires forall s: Snake :: s in moves ==> s in snakes && |s.body| > 0
      modifies this`board, moves.Keys`body
      ensures forall s: Snake {:trigger s in moves} :: s in moves ==> |s.body| > 0 && s.body == Advance(old(s.body), moves[s], grow)
      ensures forall s: Snake {:trigger s in snakes} :: s in snakes ==> if s in moves then |s.body| > 0 else s.body == old(s.body)
      ensures forall p :: At(board, p).walls == At(old(board), p).walls && At(board, p).fruits == At(old(board), p).fruits
      ensures forall p: Position, t: Snake {:trigger At(board, p).snakes[t]} ::
        At(board, p).snakes[t] ==
        if t in moves then MovedCount(At(old(board), p).snakes[t], p, t.body[0], old(t.body[|t.body| - 1]), grow)
        else At(old(board), p).snakes[t]
    {
      ghost var heads: map<Snake, Position> := map s: Snake | s in moves :: NextPosition(moves[s], s.body[0]);
      ghost var tails: map<Snake, Position> := map s: Snake | s in moves :: s.body[|s.body| - 1];
      ghost var start := board;
      ghost var done: set<Snake> := {};
      var todo := moves.Keys;
      while todo != {}
        invariant done + todo == moves.Keys && done !! todo
        invariant forall p :: At(board, p).walls == At(start, p).walls && At(board, p).fruits == At(start, p).fruits
        invariant forall p: Position, t: Snake {:trigger At(board, p).snakes[t]} ::
          At(board, p).snakes[t] ==
          if t in done then MovedCount(At(start, p).snakes[t], p, heads[t], tails[t], grow)
          else At(start, p).snakes[t]
        invariant todo <= moves.Keys
        invariant forall s: Snake {:trigger s in moves} :: s in done ==> s.body == Advance(old(s.body), moves[s], grow)
        invariant forall s: Snake {:trigger s in moves} :: s in todo ==> s.body == old(s.body)
      {
        var s: Snake :| s in todo;
        assert s in moves && s in snakes;
        assert heads[s] == NextPosition(moves[s], s.body[0]) && tails[s] == s.body[|s.body| - 1];
        MoveOne(s, moves[s], grow, start, done, heads, tails);
        todo := todo - {s};
        done := done + {s};
      }
      forall t: Snake | t in moves
        ensures heads[t] == t.body[0] && tails[t] == old(t.body[|t.body| - 1])
      {
      }
    }

    /**
     * One pass of checkForCollision's loop, for snake s: a living snake dies
     * when its head square is lethal and, dead or not, eats the fruit still
     * lying there. `eaten` maps each square whose fruit has been eaten so far
     * to the snake that ate it; the result extends it by s when s ate.
     */
    method VisitSnake(s: Snake, ghost head: Position, ghost start: Board, ghost eaten: map<Position, Snake>) returns (ghost eaters: map<Position, Snake>)
      requires |s.body| > 0 && s.body[0] == head && FruitsValid(start)
      requires forall p {:trigger At(board, p)} :: At(board, p) == if p in eaten then At(start, p).(fruits := []) else At(start, p)
      modifies this`board, s`dead, s`score
      ensures s.dead == (old(s.dead) || IsLethal(At(start, head)))
      ensures eaters == if !old(s.dead) && head !in eaten && HasFruit(At(start, head)) then eaten[head := s] else eaten
      ensures s.score == old(s.score) + if !old(s.dead) && head !in eaten && HasFruit(At(start, head)) then FruitValue else 0
      ensures forall p {:trigger At(board, p)} :: At(board, p) == if p in eaters then At(start, p).(fruits := []) else At(start, p)
    {
      eaters := eaten;
      if s.dead {
        return;
      }
      var head := s.Head();
      var square := At(board, head);
      if IsLethal(square) {
        s.Kill();
      }
      if HasFruit(square) {
        var fruitValue := square.fruits[0];
        EatFruitEffect(board, head);
        board := EatFruit(board, head);
        s.AddScore(fruitValue);
        eaters := eaten[head := s];
      }
    }

    /**
     * checkForCollision: every snake alive at the start of the pass dies when
     * its head square is lethal and, killed or not, eats the fruit lying
     * there; snakes already dead are skipped. When several heads share a fruit
     * square, the one visited first eats it; `eaters` records which snake
     * that was.
     */
    method CheckForCollision() returns (ghost eaters: map<Position, Snake>)
      requires Valid() && Placed()
      modifies this`board, snakes`dead, snakes`score
      ensures Valid()
      ensures forall s: Snake {:trigger s in snakes} :: s in snakes ==> s.dead == (old(s.dead) || IsLethal(At(old(board), s.body[0])))
      ensures forall p :: p in eaters ==>
        eaters[p] in snakes && !old(eaters[p].dead) && eaters[p].body[0] == p && HasFruit(At(old(board), p))
      ensures forall s: Snake {:trigger s in snakes} :: s in snakes && !old(s.dead) && HasFruit(At(old(board), s.body[0])) ==> s.body[0] in eaters
      ensures forall s: Snake {:trigger s in snakes} :: s in snakes ==>
        s.score == old(s.score) + (if s.body[0] in eaters && eaters[s.body[0]] == s then FruitValue else 0)
      ensures forall p {:trigger At(board, p)} :: At(board, p) == if p in eaters then At(old(board), p).(fruits := []) else At(old(board), p)
    {
      eaters := map[];
      var todo := snakes;
      while todo != {}
        invariant todo <= snakes
        invariant forall s: Snake {:trigger s in snakes} :: s in todo ==> s.dead == old(s.dead) && s.score == old(s.score)
        invariant forall s: Snake {:trigger s in snakes} :: s in snakes && s !in todo ==> s.dead == (old(s.dead) || IsLethal(At(old(board), old(s.body[0]))))
        invariant forall p :: p in eaters ==>
          eaters[p] in snakes && eaters[p] !in todo && !old(eaters[p].dead) && old(eaters[p].body[0]) == p && HasFruit(At(old(board), p))
        invariant forall s: Snake {:trigger s in snakes} :: s in snakes && s !in todo && !old(s.dead) && HasFruit(At(old(board), old(s.body[0]))) ==> old(s.body[0]) in eaters
        invariant forall s: Snake {:trigger s in snakes} :: s in snakes && s !in todo ==>
          s.score == old(s.score) + (if old(s.body[0]) in eaters && eaters[old(s.body[0])] == s then FruitValue else 0)
        invariant forall p {:trigger At(board, p)} :: At(board, p) == if p in eaters then At(old(board), p).(fruits := []) else At(old(board), p)
      {
        var s: Snake :| s in todo;
        assert s in snakes;
        eaters := VisitSnake(s, s.body[0], old(board), eaters);
        todo := todo - {s};
      }
      forall s: Snake | s in snakes
        ensures s.body == old(s.body)
      {
      }
      ClearingFruitKeepsValid(old(board), board, eaters.Keys, metadata.boardWidth, metadata.boardHeight);
    }

    /**
     * perhapsSpawnFruit: on the turns the fruit interval falls on, puts a fruit
     * on the first drawn interior square that holds nothing. Each draw is the
     * pair of numbers the random source gave for x and y, each below the board
     * size minus two; a board of width or height 2 or less has no such number,
     * and the source's nextInt refuses to draw one.
     */
    method PerhapsSpawnFruit(draws: seq<(int, int)>) returns (result: SpawnResult)
      requires Valid() && metadata.fruitFrequency != 0
      requires forall i :: 0 <= i < |draws| ==>
        0 <= draws[i].0 < metadata.boardWidth - 2 && 0 <= draws[i].1 < metadata.boardHeight - 2
      modifies this`board
      ensures Valid()
      ensures result.NotDue? <==> !IsDue(turnCount, metadata.fruitFrequency)
      ensures result.NoInterior? <==>
        IsDue(turnCount, metadata.fruitFrequency) && (metadata.boardWidth <= 2 || metadata.boardHeight <= 2)
      ensures result.Spawned? ==>
        && IsInterior(result.at, metadata.boardWidth, metadata.boardHeight)
        && !HasGameObject(At(old(board), result.at))
        && board == AddFruit(old(board), result.at, FruitValue)
      ensures result.Spawned? ==>
        exists i ::
          && 0 <= i < |draws| && DrawnCell(draws[i]) == result.at
          && forall j :: 0 <= j < i ==> HasGameObject(At(old(board), DrawnCell(draws[j])))
      ensures result.DrawsExhausted? ==> forall i :: 0 <= i < |draws| ==> HasGameObject(At(old(board), DrawnCell(draws[i])))
      ensures !result.Spawned? ==> board == old(board)
    {
      if !IsDue(turnCount, metadata.fruitFrequency) {
        return NotDue;
      }
      if metadata.boardWidth <= 2 || metadata.boardHeight <= 2 {
        return NoInterior;
      }
      var i := 0;
      while i < |draws|
        invariant 0 <= i <= |draws|
        invariant board == old(board)
        invariant forall j :: 0 <= j < i ==> HasGameObject(At(board, DrawnCell(draws[j])))
      {
        var potentialFruitPosition := DrawnCell(draws[i]);
        if !HasGameObject(At(board, potentialFruitPosition)) {
          AddFruitEffect(board, potentialFruitPosition, FruitValue);
          board := AddFruit(board, potentialFruitPosition, FruitValue);
          return Spawned(potentialFruitPosition);
        }
        i := i + 1;
      }
      return DrawsExhausted;
    }

    /**
     * The moving half of tick: growth is decided from the turn count and every
     * living snake takes its chosen move, growing on the turns growth is due;
     * dead snakes keep their heading and stay where they are. On the board only
     * the movers' segment counts change, each as its own move says.
     */
    method MoveStep(answers: map<Snake, Option<Direction>>)
      requires Valid() && Placed() && metadata.growthFrequency != 0
      modifies this`board, snakes`heading, snakes`body
      ensures Valid() && Placed()
      ensures forall s: Snake {:trigger s in snakes} :: s in snakes ==>
        if !s.dead then
          && s.heading == ChosenMove(old(s.heading), AnswerOf(answers, s))
          && s.body == Advance(old(s.body), s.heading, IsDue(turnCount, metadata.growthFrequency))
        else
          s.heading == old(s.heading) && s.body == old(s.body)
      ensures forall p :: At(board, p).walls == At(old(board), p).walls && At(board, p).fruits == At(old(board), p).fruits
      ensures forall p: Position, t: Snake {:trigger At(board, p).snakes[t]} ::
        At(board, p).snakes[t] ==
        if t in snakes && !t.dead then
          MovedCount(At(old(board), p).snakes[t], p, t.body[0], old(t.body[|t.body| - 1]), IsDue(turnCount, metadata.growthFrequency))
        else At(old(board), p).snakes[t]
    {
      var growth := CheckForGrowth();
      var moves := GatherDecisions(answers);
      ghost var before := board;
      MoveAllSnakes(moves, growth);
      SameWallsAndFruitsKeepValid(before, board, metadata.boardWidth, metadata.boardHeight);
    }

    /**
     * The settling half of tick: collisions and fruit, then perhaps a new
     * fruit. A snake alive before dies exactly when its head square is lethal
     * and scores for the fruit it ate (`eaters` says who ate where); a snake
     * dead before is left alone. Apart from the eaten fruit, the only board
     * change is the spawned fruit, on a square that held nothing.
     */
    method SettleStep(draws: seq<(int, int)>) returns (spawned: SpawnResult, ghost eaters: map<Position, Snake>)
      requires Valid() && Placed() && metadata.fruitFrequency != 0
      requires forall i :: 0 <= i < |draws| ==>
        0 <= draws[i].0 < metadata.boardWidth - 2 && 0 <= draws[i].1 < metadata.boardHeight - 2
      modifies this`board, snakes`dead, snakes`score
      ensures Valid()
      ensures forall s: Snake {:trigger s in snakes} :: s in snakes ==> s.dead == (old(s.dead) || IsLethal(At(old(board), s.body[0])))
      ensures forall p :: p in eaters ==>
        eaters[p] in snakes && !old(eaters[p].dead) && eaters[p].body[0] == p && HasFruit(At(old(board), p))
      ensures forall s: Snake {:trigger s in snakes} :: s in snakes && !old(s.dead) && HasFruit(At(old(board), s.body[0])) ==> s.body[0] in eaters
      ensures forall s: Snake {:trigger s in snakes} :: s in snakes ==>
        s.score == old(s.score) + (if s.body[0] in eaters && eaters[s.body[0]] == s then FruitValue else 0)
      ensures spawned.NotDue? <==> !IsDue(turnCount, metadata.fruitFrequency)
      ensures spawned.NoInterior? <==>
        IsDue(turnCount, metadata.fruitFrequency) && (metadata.boardWidth <= 2 || metadata.boardHeight <= 2)
      ensures spawned.Spawned? ==>
        && IsInterior(spawned.at, metadata.boardWidth, metadata.boardHeight)
        && At(board, spawned.at) == Square(0, [FruitValue], multiset{})
        && !HasWall(At(old(board), spawned.at)) && !HasSnake(At(old(board), spawned.at))
      ensures forall p {:trigger At(board, p)} :: !(spawned.Spawned? && p == spawned.at) ==>
        At(board, p) == if p in eaters then At(old(board), p).(fruits := []) else At(old(board), p)
    {
      eaters := CheckForCollision();
      ghost var collided := board;
      spawned := PerhapsSpawnFruit(draws);
      if spawned.Spawned? {
        AddFruitEffect(collided, spawned.at, FruitValue);
      }
    }

    /**
     * tick: one turn of the match. Every snake alive at the start takes its
     * chosen move, growing on the turns growth is due; on the board after the
     * moves (`moved`) only those snakes' segment counts have changed. Then a
     * snake alive at the start dies exactly when its new head square is
     * lethal, and the fruit under its head is eaten and scored (`eaters` says
     * who ate where); a fruit may be spawned on an empty interior square, and
     * the turn is recorded. A snake dead at the start is left as it was. When
     * a fruit is due on a board with no interior, the source's tick throws
     * before it records the turn: the result is NoInterior and the turn count
     * stays as it was.
     */
    method Tick(answers: map<Snake, Option<Direction>>, draws: seq<(int, int)>)
      returns (spawned: SpawnResult, ghost moved: Board, ghost eaters: map<Position, Snake>)
      requires Valid() && Placed()
      requires metadata.growthFrequency != 0 && metadata.fruitFrequency != 0
      requires forall i :: 0 <= i < |draws| ==>
        0 <= draws[i].0 < metadata.boardWidth - 2 && 0 <= draws[i].1 < metadata.boardHeight - 2
      modifies this`board, this`turnCount, snakes`heading, snakes`body, snakes`dead, snakes`score
      ensures Valid() && Placed()
      ensures turnCount == old(turnCount) + (if spawned.NoInterior? then 0 else 1)
      ensures forall s: Snake {:trigger s in snakes} :: s in snakes ==>
        if !old(s.dead) then
          && s.heading == ChosenMove(old(s.heading), AnswerOf(answers, s))
          && s.body == Advance(old(s.body), s.heading, IsDue(old(turnCount), metadata.growthFrequency))
          && s.dead == IsLethal(At(moved, s.body[0]))
        else
          s.heading == old(s.heading) && s.body == old(s.body) && s.dead && s.score == old(s.score)
      ensures forall p :: At(moved, p).walls == At(old(board), p).walls && At(moved, p).fruits == At(old(board), p).fruits
      ensures forall p: Position, t: Snake {:trigger At(moved, p).snakes[t]} ::
        At(moved, p).snakes[t] ==
        if t in snakes && !old(t.dead) then
          MovedCount(At(old(board), p).snakes[t], p, t.body[0], old(t.body[|t.body| - 1]), IsDue(old(turnCount), metadata.growthFrequency))
        else At(old(board), p).snakes[t]
      ensures forall p :: p in eaters ==>
        eaters[p] in snakes && !old(eaters[p].dead) && eaters[p].body[0] == p && HasFruit(At(old(board), p))
      ensures forall s: Snake {:trigger s in snakes} :: s in snakes && !old(s.dead) && HasFruit(At(old(board), s.body[0])) ==> s.body[0] in eaters
      ensures forall s: Snake {:trigger s in snakes} :: s in snakes ==>
        s.score == old(s.score) + (if s.body[0] in eaters && eaters[s.body[0]] == s then FruitValue else 0)
      ensures spawned.NotDue? <==> !IsDue(old(turnCount), metadata.fruitFrequency)
      ensures spawned.NoInterior? <==>
        IsDue(old(turnCount), metadata.fruitFrequency) && (metadata.boardWidth <= 2 || metadata.boardHeight <= 2)
      ensures spawned.Spawned? ==>
        && IsInterior(spawned.at, metadata.boardWidth, metadata.boardHeight)
        && At(board, spawned.at) == Square(0, [FruitValue], multiset{})
        && !HasWall(At(moved, spawned.at)) && !HasSnake(At(moved, spawned.at))
      ensures forall p {:trigger At(board, p)} :: !(spawned.Spawned? && p == spawned.at) ==>
        At(board, p) == if p in eaters then At(moved, p).(fruits := []) else At(moved, p)
    {
      MoveStep(answers);
      moved := board;
      label Moved:
      spawned, eaters := SettleStep(draws);
      forall s: Snake | s in snakes
        ensures s.body == old@Moved(s.body) && s.heading == old@Moved(s.heading) && old@Moved(s.dead) == old(s.dead)
      {
      }
      if !spawned.NoInterior? {
        turnCount := turnCount + 1;
      }
    }
  }
}
