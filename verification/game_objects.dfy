/**
 * The collaborators a session works with: the board and its squares, the
 * snakes and the match configuration. Their own source is not part of this
 * model, so each is given only through the operations a session calls on it.
 */
module GameObjects {
  import opened Directions

  /** Score awarded by one fruit (the "Fruit" object type is created with value 1). */
  const FruitValue: int := 1

  /**
   * What a snake brings into a session: its body (head first), its heading,
   * whether it has been killed, and its score. All four change in place, and
   * each method below changes only the field it names in its frame.
   */
  class Snake {
    var body: seq<Position>
    var heading: Direction
    var dead: bool
    var score: int

    /** A living snake placed with the given segments and heading. */
    constructor (segments: seq<Position>, initialHeading: Direction)
      ensures body == segments && heading == initialHeading && !dead && score == 0
    {
      body := segments;
      heading := initialHeading;
      dead := false;
      score := 0;
    }

    function Head(): Position
      reads this
      requires |body| > 0
    {
      body[0]
    }

    function Tail(): Position
      reads this
      requires |body| > 0
    {
      body[|body| - 1]
    }

    /** Prepends a new head segment. */
    method MoveHead(p: Position)
      modifies this`body
      ensures body == [p] + old(body)
    {
      body := [p] + body;
    }

    /** Drops the last segment. */
    method RemoveTail()
      requires |body| > 0
      modifies this`body
      ensures body == old(body)[..|old(body)| - 1]
    {
      body := body[..|body| - 1];
    }

    method SetCurrentDirection(d: Direction)
      modifies this`heading
      ensures heading == d
    {
      heading := d;
    }

    method Kill()
      modifies this`dead
      ensures dead
    {
      dead := true;
    }

    method AddScore(points: int)
      modifies this`score
      ensures score == old(score) + points
    {
      score := score + points;
    }
  }

  /**
   * One cell of the board: how many wall markers it holds, the values of its
   * fruits in the order they were added, and one entry per snake segment.
   */
  datatype Square = Square(walls: nat, fruits: seq<int>, snakes: multiset<Snake>)

  /** The board; a cell absent from the map is an empty square. */
  type Board = map<Position, Square>

  const EmptySquare: Square := Square(0, [], multiset{})

  function At(b: Board, p: Position): Square
  {
    if p in b then b[p] else EmptySquare
  }

  predicate HasWall(sq: Square)
  {
    sq.walls > 0
  }

  predicate HasFruit(sq: Square)
  {
    |sq.fruits| > 0
  }

  predicate HasSnake(sq: Square)
  {
    |sq.snakes| > 0
  }

  /** The distinct snakes with a segment on the square. */
  function SnakesOn(sq: Square): set<Snake>
  {
    set s | s in sq.snakes
  }

  /** hasGameObject: anything at all on the square. */
  predicate HasGameObject(sq: Square)
  {
    HasWall(sq) || HasFruit(sq) || HasSnake(sq)
  }

  /** A head landing here dies: a wall, or segments of more than one snake. */
  predicate IsLethal(sq: Square)
  {
    HasWall(sq) || (HasSnake(sq) && |SnakesOn(sq)| > 1)
  }

  /** The board with square p replaced by sq. */
  function Put(b: Board, p: Position, sq: Square): Board
  {
    b[p := sq]
  }

  /** putGameObject for a wall. */
  function AddWall(b: Board, p: Position): Board
  {
    Put(b, p, At(b, p).(walls := At(b, p).walls + 1))
  }

  /** putGameObject for a fruit worth `value`. */
  function AddFruit(b: Board, p: Position, value: int): Board
  {
    Put(b, p, At(b, p).(fruits := At(b, p).fruits + [value]))
  }

  /** putGameObject for one segment of snake s. */
  function AddSegment(b: Board, p: Position, s: Snake): Board
  {
    Put(b, p, At(b, p).(snakes := At(b, p).snakes + multiset{s}))
  }

  /** removeGameObject for one segment of snake s; nothing happens if the square holds none. */
  function RemoveSegment(b: Board, p: Position, s: Snake): Board
  {
    Put(b, p, At(b, p).(snakes := At(b, p).snakes - multiset{s}))
  }

  /** eatFruit: removes the oldest fruit of the square. */
  function EatFruit(b: Board, p: Position): Board
    requires HasFruit(At(b, p))
  {
    Put(b, p, At(b, p).(fruits := At(b, p).fruits[1..]))
  }

  /** A wall added to p: p now has a wall, no other square's walls change, nor any fruit or segment. */
  lemma AddWallEffect(b: Board, p: Position)
    ensures forall q :: HasWall(At(AddWall(b, p), q)) <==> HasWall(At(b, q)) || q == p
    ensures forall q :: At(AddWall(b, p), q).fruits == At(b, q).fruits && At(AddWall(b, p), q).snakes == At(b, q).snakes
  {
  }

  /** A fruit added to p is the newest fruit there; nothing else on the board changes. */
  lemma AddFruitEffect(b: Board, p: Position, value: int)
    ensures At(AddFruit(b, p, value), p).fruits == At(b, p).fruits + [value]
    ensures At(AddFruit(b, p, value), p).walls == At(b, p).walls && At(AddFruit(b, p, value), p).snakes == At(b, p).snakes
    ensures forall q :: q != p ==> At(AddFruit(b, p, value), q) == At(b, q)
  {
  }

  /** Eating drops the oldest fruit of p; nothing else on the board changes. */
  lemma EatFruitEffect(b: Board, p: Position)
    requires HasFruit(At(b, p))
    ensures At(EatFruit(b, p), p).fruits == At(b, p).fruits[1..]
    ensures At(EatFruit(b, p), p).walls == At(b, p).walls && At(EatFruit(b, p), p).snakes == At(b, p).snakes
    ensures forall q :: q != p ==> At(EatFruit(b, p), q) == At(b, q)
  {
  }

  /** AddSegment, counted per snake: one more segment of s on `at`; no other count, wall or fruit changes. */
  lemma AddSegmentCounts(b: Board, at: Position, s: Snake)
    ensures forall p: Position, t: Snake {:trigger At(AddSegment(b, at, s), p).snakes[t]} ::
      At(AddSegment(b, at, s), p).snakes[t] ==
      if t == s && p == at then At(b, p).snakes[t] + 1 else At(b, p).snakes[t]
    ensures forall p :: At(AddSegment(b, at, s), p).walls == At(b, p).walls && At(AddSegment(b, at, s), p).fruits == At(b, p).fruits
  {
    forall p: Position, t: Snake
      ensures At(AddSegment(b, at, s), p).snakes[t] ==
        if t == s && p == at then At(b, p).snakes[t] + 1 else At(b, p).snakes[t]
    {
      assert At(AddSegment(b, at, s), p).snakes == if p == at then At(b, p).snakes + multiset{s} else At(b, p).snakes;
    }
  }

  /** RemoveSegment, counted per snake: one fewer segment of s on `at` (none if it had none); nothing else changes. */
  lemma RemoveSegmentCounts(b: Board, at: Position, s: Snake)
    ensures forall p: Position, t: Snake {:trigger At(RemoveSegment(b, at, s), p).snakes[t]} ::
      At(RemoveSegment(b, at, s), p).snakes[t] ==
      if t == s && p == at then (if At(b, p).snakes[t] > 0 then At(b, p).snakes[t] - 1 else 0) else At(b, p).snakes[t]
    ensures forall p :: At(RemoveSegment(b, at, s), p).walls == At(b, p).walls && At(RemoveSegment(b, at, s), p).fruits == At(b, p).fruits
  {
    forall p: Position, t: Snake
      ensures At(RemoveSegment(b, at, s), p).snakes[t] ==
        if t == s && p == at then (if At(b, p).snakes[t] > 0 then At(b, p).snakes[t] - 1 else 0) else At(b, p).snakes[t]
    {
      assert At(RemoveSegment(b, at, s), p).snakes == if p == at then At(b, p).snakes - multiset{s} else At(b, p).snakes;
    }
  }

  /** A square with two different snakes on it is lethal, whatever else it holds. */
  lemma TwoSnakesAreLethal(sq: Square, s: Snake, t: Snake)
    requires s in sq.snakes && t in sq.snakes && s != t
    ensures IsLethal(sq)
  {
    var others := SnakesOn(sq) - {s, t};
    assert SnakesOn(sq) == {s, t} + others;
    assert |{s, t}| == 2;
    assert |sq.snakes| >= sq.snakes[s] > 0;
  }

  /** Conversely, a square without walls whose segments all belong to one snake is safe. */
  lemma OneSnakeIsNotLethal(sq: Square, s: Snake)
    requires !HasWall(sq) && forall t :: t in sq.snakes ==> t == s
    ensures !IsLethal(sq)
  {
    assert SnakesOn(sq) <= {s};
    if s in SnakesOn(sq) {
      assert SnakesOn(sq) == {s};
    } else {
      assert SnakesOn(sq) == {};
    }
  }

  /** The match configuration (the source's Metadata); times are in milliseconds. */
  datatype Metadata = Metadata(
    boardWidth: int,
    boardHeight: int,
    growthFrequency: int,
    fruitFrequency: int,
    fruitGoal: int,
    maximumThinkingTime: int)
}
