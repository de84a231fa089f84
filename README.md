# the_snake in Dafny

A model of the game logic of `the_snake.py`, a pygame snake game. The snake is a
head-first list of pixel positions on a 640 x 480 screen cut into 20-pixel
cells. Every tick the game does four things. It reads the key events, which
choose the pending direction; it never takes a key that would reverse the
current direction. It calls `update`, which adopts the pending direction, moves
the head one cell and wraps it around the screen edges. If the new head is
already in the body the game is over; otherwise the head goes in front of the
body. Last, if the head is on the apple, the snake grows (`grow` appends a copy
of its last segment) and the apple moves to a randomly drawn cell.

Files and modules:

- `grid.dfy`, module `Grid`: the screen and cell constants, positions,
  directions and their opposites, the wrapped step of the head (`NextHead`),
  and the fact that the field has exactly 32 x 24 = 768 cells (`GridCapacity`).
- `snake_spec.dfy`, module `SnakeSpec`: the snake's fields as a value
  (`SnakeState`), `update` and `grow` as functions, and `handle_keys` as a fold
  over a sequence of events (`HandleKeys`). `LastAccepted` is an independent
  definition of the same fold, read from the back ("the last accepted key
  wins"), and the two are proved equal.
- `game_spec.dfy`, module `GameSpec`: `random_position`, one iteration of the
  main loop (`Tick`) and a bounded run of it (`Run`).
- `the_snake.dfy`, module `TheSnake`: the classes `Snake` and `Apple`, whose
  methods update their fields in place. The free methods `HandleKeys`, `Tick`,
  `Run` and `Play` (`main`, bounded) work on those objects. Each method's
  `ensures` ties the new state to the functions above.

Behaviour as written. The model follows the_snake.py exactly, including where
it differs from the usual snake game:

- `update` never removes the tail, so the body lengthens by one cell on every
  tick that does not end the game. Eating adds one more segment on top of that.
  A consequence, proved as `GameSpec.GameEndsWithinGrid` and stated again in
  `TheSnake.Play`: each tick that keeps the game going occupies a cell that was
  free, so no game survives 768 (= GridWidth * GridHeight) ticks. At the latest,
  the 768th tick ends it, by collision or by quitting.
- `grow` appends a duplicate of the last segment at once; there is no
  "pending growth" flag. So the body is not free of duplicates.
- `update` adopts a pending direction without checking it again. Reversals
  are refused only in `handle_keys`, against the direction current at key
  time. Since `update` is the only thing that changes `direction`, this still
  means the snake never reverses (`SnakeSpec.KeysThenUpdateNeverReverses`).
- Coordinates are pixels, multiples of 20. The start is (20, 20), which is
  cell (1, 1).
- Python's `%` and Dafny's `%` agree here, because the divisors (640, 480) are
  positive.
- The apple may be placed under the snake (`GameSpec.AppleMayLandOnSnake`).

## Model

| member | source | states |
|---|---|---|
| `Grid.Dx` | the_snake.py:11-14 | the horizontal component of a direction is -1, 0 or 1, and is 0 exactly for UP and DOWN |
| `Grid.Dy` | the_snake.py:11-14 | the vertical component of a direction is -1, 0 or 1, and is 0 exactly for LEFT and RIGHT |
| `Grid.Opposite` | the_snake.py:11-14 | the opposite direction's vector is the negation of d's, and differs from d |
| `Grid.OppositeUnique` | the_snake.py:96-103 | each direction is the opposite of exactly one direction; taking the opposite twice gives d back |
| `Grid.NextHead` | the_snake.py:55-59 | the stepped and wrapped head always lies in 0 <= x < 640, 0 <= y < 480, and is a multiple of GridSize when the old head was |
| `Grid.StepBack` | the_snake.py:55-59 | from an in-bounds position, a step followed by a step in the opposite direction returns to it |
| `Grid.StepsDiffer` | the_snake.py:55-59 | the four directions lead from any head to four different cells |
| `Grid.WrapAtRightEdge` | the_snake.py:59 | a head at x = 620 moving right wraps to x = 0 |
| `Grid.CellIndex` | the_snake.py:7-8 | numbers each cell of the field within [0, GridWidth * GridHeight) |
| `Grid.GridCapacity` | the_snake.py:5-8 | no set of on-grid positions has more than GridWidth * GridHeight = 768 elements |
| `SnakeSpec.Initial` | the_snake.py:44-47 | a new snake is the single segment (20, 20), moving right, nothing pending |
| `SnakeSpec.InitialValid` | the_snake.py:44-47 | the start state satisfies the invariant: non-empty body of on-grid cells, no reversal pending |
| `SnakeSpec.Update` | the_snake.py:49-65 | a pending direction becomes the direction and the pending one is cleared, else the direction is kept; GameOver exactly when the new head is already in the body, which is then unchanged; otherwise the body is one longer, its first segment is the stepped head, which is in bounds and not in the old body, and the old body is its tail |
| `SnakeSpec.Grow` | the_snake.py:67-68 | the body is one longer, the old body is its prefix, its last two segments are equal, and the directions are untouched |
| `SnakeSpec.UpdatePreservesValid` | the_snake.py:49-65 | update keeps the body non-empty and on the grid, and leaves nothing pending |
| `SnakeSpec.GrowPreservesValid` | the_snake.py:67-68 | grow keeps the invariant |
| `SnakeSpec.UpdateAddsCell` | the_snake.py:62-65 | a move that does not collide adds exactly one new cell to the cells occupied; a collision changes none |
| `SnakeSpec.GrowKeepsCells` | the_snake.py:68 | growing adds no cell, only a duplicate segment |
| `SnakeSpec.UpdateLeavesNeck` | the_snake.py:55-65 | after a move that does not collide, the second segment lies one step behind the head in the current direction |
| `SnakeSpec.ReversalHitsNeck` | the_snake.py:49-65 | when the second segment lies one step behind the head, adopting the opposite direction always ends the game |
| `SnakeSpec.ThreeMovesFromStart` | the_snake.py:49-65 | three updates from the start give the body (80,20), (60,20), (40,20), (20,20) |
| `SnakeSpec.Accepts` | the_snake.py:96-103 | a key for direction d is taken exactly when d is not the opposite of the current direction; a key for the current direction is always taken |
| `SnakeSpec.HandleKeys` | the_snake.py:90-103 | the fold reports a quit exactly when the batch holds a close request, and changes the pending direction only to an accepted arrow key of the batch; its full meaning is `SnakeSpec.HandleKeysLastWins` |
| `SnakeSpec.BeforeQuit` | the_snake.py:91-94 | the events handled before the first close request: a prefix of the batch that holds no close request, and all of it if there is none |
| `SnakeSpec.LastAcceptedCons` | the_snake.py:95-103 | putting an event in front changes the last accepted key only when no later key is accepted |
| `SnakeSpec.HandleKeysLastWins` | the_snake.py:90-103 | the `handle_keys` fold reports a quit exactly when the batch holds a close request, and leaves pending the last accepted arrow key before it, or the old pending direction if none was accepted |
| `SnakeSpec.HandleKeysNeverReverses` | the_snake.py:96-103 | key handling never makes the pending direction the opposite of the current direction |
| `SnakeSpec.HandleKeysIgnoresRejected` | the_snake.py:95-103 | a batch of reversal keys and unrelated events leaves the pending direction unchanged |
| `SnakeSpec.KeysThenUpdateNeverReverses` | the_snake.py:50-52 | the direction update adopts after a batch of keys is never the opposite of the direction held during the batch |
| `GameSpec.RandomPosition` | the_snake.py:82-84 | the apple lies on the grid with 0 <= x <= 620 and 0 <= y <= 460, and the drawn column and row are recovered from it |
| `GameSpec.RandomPositionCovers` | the_snake.py:82-84 | every cell of the field is the result of some valid draw |
| `GameSpec.AppleMayLandOnSnake` | the_snake.py:86-87 | placement does not avoid the body: a draw exists that puts the apple under the starting snake |
| `GameSpec.InitialGame` | the_snake.py:109-110 | the start of a game is a valid state: the snake is the single segment (20, 20) and the apple is on the grid, at the drawn column and row |
| `GameSpec.Tick` | the_snake.py:115-122 | the snake's body stays non-empty; a quit leaves body and direction as they were; the apple moves only while the game goes on |
| `GameSpec.TickEats` | the_snake.py:119-122 | the snake grows by two segments and the apple becomes the drawn cell exactly when the moved head is on the apple; otherwise the snake grows by one and the apple stays; the old body is kept behind the new head |
| `GameSpec.AppleMovesOnlyWhenEaten` | the_snake.py:117-122 | if the apple moved, the game goes on and the head after the move is on the old apple |
| `GameSpec.TickPreservesValid` | the_snake.py:115-122 | an iteration keeps the snake's invariant and the apple on the grid |
| `GameSpec.TickAddsCell` | the_snake.py:115-122 | an iteration that keeps the game going occupies exactly one more cell |
| `GameSpec.Run` | the_snake.py:112-122 | the body is non-empty after any number of iterations |
| `GameSpec.RunAddsCells` | the_snake.py:112-122 | while the game goes on, n iterations occupy n more cells, and the invariant holds throughout |
| `GameSpec.GameEndsWithinGrid` | the_snake.py:112-122 | from any valid state, 768 iterations never all keep the game going |
| `TheSnake.Snake.constructor` | the_snake.py:43-47 | the new snake's body is [(20, 20)], its direction RIGHT, nothing pending |
| `TheSnake.Snake.Update` | the_snake.py:49-65 | the fields change as `SnakeSpec.Update` says: direction adopted, pending cleared; GameOver leaves the body as it was, otherwise the new head is inserted at the front |
| `TheSnake.Snake.Grow` | the_snake.py:67-68 | the body becomes the old body plus a copy of its last segment; only the body changes |
| `TheSnake.Apple.constructor` | the_snake.py:78-80 | the new apple's position is the drawn cell |
| `TheSnake.Apple.SpawnNewApple` | the_snake.py:86-87 | the position becomes the drawn cell |
| `TheSnake.HandleKeys` | the_snake.py:90-103 | the loop over events leaves the pending direction given by the `SnakeSpec.HandleKeys` fold, reports a quit exactly when a close request came, and changes nothing else |
| `TheSnake.Tick` | the_snake.py:115-122 | the snake and the apple change as `GameSpec.Tick` says, in the order keys, update, eating check, grow and new apple |
| `TheSnake.Run` | the_snake.py:112-122 | the loop over a bounded sequence of iterations ends in the state `GameSpec.Run` gives |
| `TheSnake.Play` | the_snake.py:105-122 | starting from a new snake and apple, the end state is `GameSpec.Run` from the initial game, and with at least 768 iterations the game has ended |

## Left out

- Drawing: `GameObject.draw`, `Snake.draw`, `screen.fill`, `pygame.display.*` and the window setup (the_snake.py:26-27, 36-39, 70-74, 125-128) are screen output with no game logic.
- The pygame runtime: `pygame.init`, `pygame.quit` and `clock.tick(SPEED)` are left out. `pygame.event.get` is replaced by a sequence of events given as a parameter (close request, arrow key, anything else).
- Randomness: each `randint` draw is a parameter, with the range `randint` guarantees as a precondition. Every iteration is given a draw, and only an iteration that eats uses it.
- `SystemExit`: the game-over and quit exceptions become the returned status (`GameOver`, `Quit`). The state left behind is what the code has changed before raising.
- Colours, the `GameObject` base class, and the `position` that `Snake.__init__` stores in it: these are used only for drawing.
- The endless `while True` loop is modelled as a run over a finite sequence of iterations.
- The truthiness test `if self.next_direction:` is modelled as "a direction is pending"; no direction tuple is empty, so the two agree.
