# Snake match engine: headings and the session tick

This project models the core of a multi-agent snake game in Dafny and proves
properties of it:

- The compass algebra of `src/gameLogic/Direction.java`: a step along a
  heading, the quarter turns, and the partial inverse that recovers a heading
  from two cells.
- The rule engine of `src/gameLogic/Session.java`: the roster of snakes; the
  walled board; the fallback from an agent's answer to the move actually made;
  growth; moving; collisions and fruit; fruit spawning; the tick that strings
  these together; and the game-over rule.

Layout:

- `results.dfy` holds the `Option`, `Result` and `Outcome` wrappers used for
  the source's exceptions.
- `directions.dfy` (module `Directions`) is pure: functions and lemmas.
- `game_objects.dfy` (module `GameObjects`) gives the collaborators a session
  drives (`Board`, `Square`, `Snake`, `Metadata`) through the operations the
  session calls on them. Their own source is not part of this model.
  - The board is a map from cell to square. A cell missing from the map is an
    empty square.
  - A square counts its walls, lists its fruit values, and holds one entry
    per snake segment.
  - `Snake` is a class, because the session updates its body, heading, dead
    flag and score in place.
- `session.dfy` (module `Sessions`) models `Session` as a class. It holds the
  board, the roster (`set<Snake>`) and the turn count. Its methods loop and
  update that state as the source does.
  - `Valid()` is the session invariant: every rim cell holds a wall, and no
    square holds more than one fruit, worth 1.
  - `Placed()` says every snake has a body.

Two inputs of the source are parameters here:

- The agents' answers for one tick arrive as a map from snake to
  `Option<Direction>`. No entry, or `None`, stands for an agent that was late
  or threw.
- The random numbers for fruit placement arrive as a sequence of draws.

## Model

| member | source | states |
|---|---|---|
| Directions.NextPosition | src/gameLogic/Direction.java:7-31 | A step moves exactly one coordinate by exactly one (Manhattan distance 1), in the sense the heading names; the other coordinate is unchanged for horizontal and vertical headings alike |
| Directions.StepFollowsOffset | src/gameLogic/Direction.java:7-31 | Every step adds the heading's fixed displacement: (-1,0) west, (0,-1) north, (1,0) east, (0,1) south |
| Directions.TurnLeft | src/gameLogic/Direction.java:33-51 | A left turn rotates the step (dx, dy) to (dy, -dx) and swaps horizontal and vertical; the match is total, so the IllegalStateException at line 50 cannot be reached |
| Directions.TurnRight | src/gameLogic/Direction.java:53-71 | A right turn rotates the step (dx, dy) to (-dy, dx) and swaps horizontal and vertical; the exception at line 70 cannot be reached |
| Directions.TurnsAreInverse | src/gameLogic/Direction.java:33-71 | turnLeft(turnRight(d)) == d and turnRight(turnLeft(d)) == d for every heading |
| Directions.TurnCycleHasLengthFour | src/gameLogic/Direction.java:33-71 | Four left turns, or four right turns, give back the heading; one, two or three never do |
| Directions.Opposite | src/gameLogic/Session.java:176-188 | The reverse heading negates the step |
| Directions.OppositeIsHalfTurn | src/gameLogic/Session.java:176-188 | The reverse heading is two quarter turns either way, differs from the heading, is an involution, and a step back undoes a step |
| Directions.DirectionFromTo | src/gameLogic/Direction.java:73-95 | Fails with SamePosition exactly when the cells coincide, and with NotAxisAligned exactly when they differ in both coordinates; otherwise the heading returned shortens the distance to the target by one |
| Directions.StepRoundTrip | src/gameLogic/Direction.java:73-95 | Asking for the heading from a cell to its neighbour along d gives back d, for every cell and heading |
| Directions.WalkRoundTrip | src/gameLogic/Direction.java:73-95 | After n >= 1 steps along d the target is n cells away and is again seen as lying in heading d (by induction on n) |
| Directions.WalkReachesTarget | src/gameLogic/Direction.java:79-92 | Whenever a heading between two cells exists, walking along it for their distance reaches the target (the four axis cases give the right heading) |
| GameObjects.Snake.MoveHead | src/gameLogic/Session.java:209 | The new head is put in front of the old body |
| GameObjects.Snake.RemoveTail | src/gameLogic/Session.java:213 | Exactly the last segment is dropped |
| GameObjects.Snake.SetCurrentDirection | src/gameLogic/Session.java:160 | The heading becomes the accepted move |
| GameObjects.Snake.Kill | src/gameLogic/Session.java:230 | The snake is dead afterwards |
| GameObjects.Snake.AddScore | src/gameLogic/Session.java:236 | The score grows by exactly the points given |
| GameObjects.AddWallEffect | src/gameLogic/Session.java:278-279 | Adding a wall makes that cell walled, leaves every other cell's walls as they were, and touches no fruit or segment |
| GameObjects.AddFruitEffect | src/gameLogic/Session.java:257 | Adding a fruit appends it to that cell's fruit and changes nothing else on the board |
| GameObjects.EatFruitEffect | src/gameLogic/Session.java:235 | Eating removes the oldest fruit of that cell and changes nothing else on the board |
| GameObjects.AddSegmentCounts | src/gameLogic/Session.java:208 | addGameObject(snake, p) gives that snake one more segment on p; every other count, wall and fruit is unchanged |
| GameObjects.RemoveSegmentCounts | src/gameLogic/Session.java:212 | removeGameObject(snake, p) takes one of its segments off p (none if there was none); nothing else changes |
| GameObjects.TwoSnakesAreLethal | src/gameLogic/Session.java:228 | A square holding segments of two different snakes is lethal |
| GameObjects.OneSnakeIsNotLethal | src/gameLogic/Session.java:228 | A square with no wall whose segments all belong to one snake is not lethal |
| Sessions.IsValidMove | src/gameLogic/Session.java:174-193 | A move is refused exactly when it is the reverse of the current heading; keeping the heading is allowed |
| Sessions.ChosenMove | src/gameLogic/Session.java:150-170 | The move made is never a reversal; a legal answer is taken as given; a missing, failed or reversing answer leaves the current heading |
| Sessions.Session.GatherDecisions | src/gameLogic/Session.java:119-172 | Exactly the snakes alive at the start get a move; each move is the ChosenMove of its answer and becomes the snake's heading; a snake without a move keeps its heading |
| Sessions.Advance | src/gameLogic/Session.java:203-215 | The new head is the cell one step ahead of the old head; the rest is the old body, with its last cell dropped unless the snake grows; the length grows by one or stays the same |
| Sessions.AdvanceRoundTrip | src/gameLogic/Session.java:205-209 | The old head becomes the second segment, and the heading moved along can be read back from the first two segments |
| Sessions.MovedBoard | src/gameLogic/Session.java:203-215 | A move changes only the moving snake's segment counts: one more on the new head cell and, unless it grows, one fewer on the old tail cell; walls, fruit and other snakes stay unchanged |
| Sessions.Session.MoveSnake | src/gameLogic/Session.java:203-215 | The body becomes Advance of the old body, and the board gains the new head and, without growth, loses the old tail segment |
| Sessions.HeadOnCollisionKillsBoth | src/gameLogic/Session.java:195-230 | Two snakes whose heads meet on one cell both have a segment there after the round, whatever the order of moves, so the cell is lethal and both die; the one exception is a non-growing snake whose head lands on its own old tail cell |
| Sessions.CountsAfterMove | src/gameLogic/Session.java:197-200 | After one more snake of a round has moved, every snake already moved has the per-cell counts MovedCount gives, and every other snake has its starting counts |
| Sessions.Session.MoveOne | src/gameLogic/Session.java:199 | One iteration of moveAllSnakes: moves the snake and extends the round's counts to it |
| Sessions.Session.MoveAllSnakes | src/gameLogic/Session.java:195-201 | Every snake with a move is advanced along it, whatever the order; on the board each snake's counts change as its own move says, and walls and fruit are unchanged |
| Sessions.SameWallsAndFruitsKeepValid | src/gameLogic/Session.java:195-215 | Moving snakes keeps the board walled and its fruit valid |
| Sessions.Session.VisitSnake | src/gameLogic/Session.java:223-237 | One iteration of checkForCollision: a dead snake is skipped; a living snake dies on a lethal square and, even then, eats a fruit still there and scores its value |
| Sessions.Session.CheckForCollision | src/gameLogic/Session.java:218-239 | A snake alive at the start dies exactly when its head square is lethal, and death is never undone; each eaten fruit was on the head square of one snake alive at the start, and that snake alone scores 1 for it; no fruit stays under the head of a snake alive at the start; the only board change is the removal of eaten fruit |
| Sessions.ClearingFruitKeepsValid | src/gameLogic/Session.java:233-236 | Eating fruit keeps the board walled and its fruit valid |
| Sessions.DueOncePerInterval | src/gameLogic/Session.java:105-109 | An event due on turn t (t % f == 0, as in checkForGrowth and perhapsSpawnFruit) is due again on turn t + f and on no turn in between |
| Sessions.DueAgainAfterOneInterval | src/gameLogic/Session.java:105-109 | On a due turn of an interval gate, the gate is due again one interval later and on no turn in between |
| Sessions.Session.CheckForGrowth | src/gameLogic/Session.java:105-109 | Snakes grow exactly on the turns that are multiples of the growth interval, turn 0 among them; after a growing turn the next one comes exactly one interval later and none in between |
| Sessions.Session.PerhapsSpawnFruit | src/gameLogic/Session.java:241-262 | Nothing happens and NotDue is returned exactly when the turn is not a multiple of the fruit interval. On a due turn, a board of width or height 2 or less gives NoInterior, where nextInt would throw. Otherwise a spawned fruit lands on the first drawn interior cell that held nothing, and it is the only board change; the board stays valid |
| Sessions.PerimeterIsTheBorder | src/gameLogic/Session.java:270-289 | The walled rim is exactly the cells with x = 0, x = w-1, y = 0 or y = h-1, and the interior used for fruit is the rest |
| Sessions.CreateStandardBoard | src/gameLogic/Session.java:270-289 | A cell holds a wall exactly when it is on the rim of the width x height board; no cell holds fruit or a snake |
| Sessions.Session.constructor | src/gameLogic/Session.java:16-25 | A new session has an empty roster, turn count 0 and a freshly walled board, so the session invariant holds |
| Sessions.Session.AddSnake | src/gameLogic/Session.java:27-33 | A null snake is refused with the roster unchanged; any other snake is added |
| Sessions.Session.RemoveSnake | src/gameLogic/Session.java:35-41 | A snake not in the roster is refused with the roster unchanged; a member is removed |
| Sessions.EndRules | src/gameLogic/Session.java:58-77 | The game is over with no snake alive, with fewer than two alive in a roster of more than two, or when a score reaches the goal; a two-snake roster with one snake alive and no goal reached goes on |
| Sessions.Session.HasEnded | src/gameLogic/Session.java:58-77 | The count obtained by discounting dead snakes equals the number of living snakes, and the answer is GameOver of the roster size, that count and whether some score reached the goal |
| Sessions.Session.MoveStep | src/gameLogic/Session.java:94-96 | Every living snake's heading becomes the ChosenMove of its answer, and its body advances along it, growing exactly when growth is due this turn. A dead snake keeps its heading and body. On the board only the living snakes' segment counts change, each by its own move, and the session invariant holds |
| Sessions.Session.SettleStep | src/gameLogic/Session.java:97-99 | A snake alive before dies exactly when its head square is lethal, and death is never undone. Each eaten fruit was under the head of one snake alive before, and only that snake scores 1 for it. No fruit stays under a living snake's head. The spawn result is NotDue or NoInterior exactly as perhapsSpawnFruit decides; a spawned fruit is alone on a square that held no wall or snake. No other square changes |
| Sessions.Session.Tick | src/gameLogic/Session.java:92-103 | One whole turn. Every snake alive at the start takes its ChosenMove and advances along it, growing exactly on growth turns. On the board after the moves, only those snakes' segment counts changed. A snake alive at the start is then dead exactly when its new head square is lethal there. Fruit under living heads is eaten and scored once each, and the fruit spawn follows the fruit interval. A snake dead at the start is unchanged. The session invariant holds. The turn count goes up by one, except when the result is NoInterior: there the source's tick throws before the frame is recorded |

## Left out

- Threads, `BrainDecision.start()` and the sleep for the maximum thinking time
  (Session.java:121-148) are concurrency and wall-clock timing. The answers the
  threads produce are an input map instead.
- `java.util.Random` in `perhapsSpawnFruit` is replaced by a finite sequence of
  draws. The exception `nextInt` throws on a board with no interior is the
  `NoInterior` result. Since that exception leaves `tick` before the frame is
  recorded, `Tick` then leaves the turn count as it was. Where the source keeps drawing until it finds a free cell (and never
  stops on a full board), the model returns `DrawsExhausted` once the draws run
  out.
- Console output, `Frame`, `RecordedGame` and `GameResult`. Recording a frame
  is modelled only as the turn count going up by one.
- Snake placement (Session.java:291-352) is left out.
  - `prepareForStart` calls `placeSnakesOnBoard`, which calls
    `getStartingHeadPositions`. That method places the heads on a circle with
    floating-point `cos`/`sin`.
  - `placeSnake` and `isAcceptedStartingPosition` are never called.
  - `placeSnakesOnBoard` gives each snake its starting cell through
    `snake.placeOnBoard` but never puts the snake on the board. So the model
    assumes no agreement between the board's segments and the snakes' bodies:
    `Placed()` only says that each body is non-empty, and removing a tail
    segment from a square may remove nothing.
- The internals of `Board`, `Square`, `Snake`, `Metadata` and
  `GameObjectType` are not part of this model. They are given abstractly
  through the calls the session makes on them.
  - A cell outside the board reads as an empty square.
  - `getSnakes().size() > 1` is read as "more than one distinct snake". One
    consequence (GameObjects.OneSnakeIsNotLethal): a snake whose head runs
    into its own body does not die.
- bot/Slow.java is a strategy that sleeps and answers WEST; there is nothing
  to verify in it.
- Java `int` is modelled as an unbounded integer, so 32-bit overflow of
  coordinates, scores and the turn count is not modelled.
- A growth or fruit interval of 0 makes the source throw
  `ArithmeticException`. The model requires both intervals to be non-zero.
- `%` is Euclidean in Dafny and truncating in Java. The source only compares
  the remainder with 0, and that test gives the same answer under both rules.
- Sessions.Session.CheckForCollision: Its contract assumes `Valid()`, so every
  fruit on the board is worth 1. The source adds whatever value the eaten
  fruit carries.
- Sessions.ChosenMove, Sessions.Session.GatherDecisions: A null answer is
  treated like a missing one, and the snake keeps its heading. In the source,
  `isValidMove` accepts null in every branch, so null becomes the move and
  the heading. Then `calculateNextPosition` in `moveSnake` throws a
  NullPointerException, which escapes `tick`. Headings in the model are never
  null.
- Sessions.Session.Tick, Sessions.Session.SettleStep: The exact cell of a
  spawned fruit is stated on PerhapsSpawnFruit, which ties it to the first
  free draw. These two contracts only say that the cell is in the interior
  and was empty.
