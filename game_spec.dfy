/** The apple's placement and one iteration of the game loop as values:
    keys, then `update`, then the eating check with `grow` and a new apple.
    The methods of module TheSnake are proved to behave as these functions say. */
module GameSpec {
  import opened Grid
  import opened SnakeSpec

  /** The two draws of `randint`: a column in [0, GridWidth - 1] and a row
      in [0, GridHeight - 1]. */
  predicate ValidDraw(col: int, row: int) {
    0 <= col < GridWidth && 0 <= row < GridHeight
  }

  /** `random_position`: the top-left pixel of the drawn cell. */
  function RandomPosition(col: int, row: int): (r: Position)
    requires ValidDraw(col, row)
    ensures OnGrid(r)
    ensures 0 <= r.x <= ScreenWidth - GridSize && 0 <= r.y <= ScreenHeight - GridSize
    ensures r.x / GridSize == col && r.y / GridSize == row
  {
    Position(col * GridSize, row * GridSize)
  }

  /** Every cell of the field can be drawn: together with the last ensures
      of RandomPosition, draws and cells correspond one to one, so uniform
      draws give a uniformly placed apple. */
  lemma RandomPositionCovers(p: Position)
    requires OnGrid(p)
    ensures ValidDraw(p.x / GridSize, p.y / GridSize)
    ensures RandomPosition(p.x / GridSize, p.y / GridSize) == p
  {
  }

  /** The placement does not avoid the snake: at the start, drawing column 1
      and row 1 puts the apple under the snake's only segment. */
  lemma AppleMayLandOnSnake()
    ensures RandomPosition(1, 1) in Initial().body
  {
  }

  /** The snake and the apple. */
  datatype GameState = GameState(snake: SnakeState, apple: Position)

  /** What the world supplies to one iteration: the batch of events and the
      draws used if a new apple is needed. */
  datatype TickInput = TickInput(events: seq<Event>, col: int, row: int)

  datatype Outcome = Outcome(status: Status, game: GameState)

  /** The state after `Snake()` and `Apple()`. */
  function InitialGame(col: int, row: int): (g: GameState)
    requires ValidDraw(col, row)
    ensures ValidGame(g)
    ensures g.snake.body == [Position(GridSize, GridSize)] && g.apple.x / GridSize == col && g.apple.y / GridSize == row
  {
    GameState(Initial(), RandomPosition(col, row))
  }

  predicate ValidGame(g: GameState) {
    Valid(g.snake) && OnGrid(g.apple)
  }

  /** One iteration of the main loop: `handle_keys`, `update`, and, if the
      head is now on the apple, `grow` and `spawn_new_apple`. */
  function Tick(g: GameState, t: TickInput): (r: Outcome)
    requires |g.snake.body| > 0 && ValidDraw(t.col, t.row)
    ensures |r.game.snake.body| > 0
    ensures r.status == Quit ==> r.game.snake.body == g.snake.body && r.game.snake.direction == g.snake.direction
    ensures r.status != Alive ==> r.game.apple == g.apple
  {
    var keys := HandleKeys(g.snake.direction, g.snake.nextDirection, t.events);
    var s := g.snake.(nextDirection := keys.pending);
    if keys.quit then Outcome(Quit, g.(snake := s))
    else
      var moved := Update(s);
      if moved.status == GameOver then Outcome(GameOver, g.(snake := moved.snake))
      else if moved.snake.body[0] == g.apple then
        Outcome(Alive, GameState(Grow(moved.snake), RandomPosition(t.col, t.row)))
      else Outcome(Alive, g.(snake := moved.snake))
  }

  /** Eating follows the head after the move: the snake grows by two
      segments (the new head and the copied tail) exactly when the moved head
      is on the apple, and only then is the apple replaced by the drawn one;
      otherwise the snake grows by the new head alone and the apple stays. */
  lemma TickEats(g: GameState, t: TickInput)
    requires |g.snake.body| > 0 && ValidDraw(t.col, t.row)
    requires Tick(g, t).status == Alive
    ensures Tick(g, t).game.snake.body[0] == g.apple ==>
      |Tick(g, t).game.snake.body| == |g.snake.body| + 2 && Tick(g, t).game.apple == RandomPosition(t.col, t.row)
    ensures Tick(g, t).game.snake.body[0] != g.apple ==>
      |Tick(g, t).game.snake.body| == |g.snake.body| + 1 && Tick(g, t).game.apple == g.apple
    ensures Tick(g, t).game.snake.body[1..1 + |g.snake.body|] == g.snake.body
  {
  }

  /** The apple moves only when it is eaten. */
  lemma AppleMovesOnlyWhenEaten(g: GameState, t: TickInput)
    requires |g.snake.body| > 0 && ValidDraw(t.col, t.row)
    ensures Tick(g, t).game.apple != g.apple ==>
      Tick(g, t).status == Alive && Tick(g, t).game.snake.body[0] == g.apple
  {
  }

  lemma TickPreservesValid(g: GameState, t: TickInput)
    requires ValidGame(g) && ValidDraw(t.col, t.row)
    ensures ValidGame(Tick(g, t).game)
  {
    HandleKeysNeverReverses(g.snake.direction, g.snake.nextDirection, t.events);
    var s := g.snake.(nextDirection := HandleKeys(g.snake.direction, g.snake.nextDirection, t.events).pending);
    UpdatePreservesValid(s);
    if Update(s).status == Alive {
      GrowPreservesValid(Update(s).snake);
    }
  }

  /** Every iteration that keeps the game going occupies one more cell. */
  lemma TickAddsCell(g: GameState, t: TickInput)
    requires |g.snake.body| > 0 && ValidDraw(t.col, t.row)
    ensures Tick(g, t).status == Alive ==> |Cells(Tick(g, t).game.snake)| == |Cells(g.snake)| + 1
  {
    var s := g.snake.(nextDirection := HandleKeys(g.snake.direction, g.snake.nextDirection, t.events).pending);
    assert Cells(s) == Cells(g.snake);
    UpdateAddsCell(s);
    if Update(s).status == Alive {
      GrowKeepsCells(Update(s).snake);
    }
  }

  predicate AllDrawsValid(inputs: seq<TickInput>) {
    forall i :: 0 <= i < |inputs| ==> ValidDraw(inputs[i].col, inputs[i].row)
  }

  /** A bounded run of the main loop: one iteration per input, stopping at
      the first iteration that ends the game. */
  function Run(g: GameState, inputs: seq<TickInput>): (r: Outcome)
    requires |g.snake.body| > 0 && AllDrawsValid(inputs)
    ensures |r.game.snake.body| > 0
    decreases |inputs|
  {
    if inputs == [] then Outcome(Alive, g)
    else
      var o := Tick(g, inputs[0]);
      if o.status != Alive then o else Run(o.game, inputs[1..])
  }

  /** While the game goes on, each iteration occupies a new cell. */
  lemma {:induction false} RunAddsCells(g: GameState, inputs: seq<TickInput>)
    requires ValidGame(g) && AllDrawsValid(inputs)
    ensures ValidGame(Run(g, inputs).game)
    ensures Run(g, inputs).status == Alive ==>
      |Cells(Run(g, inputs).game.snake)| == |Cells(g.snake)| + |inputs|
    decreases |inputs|
  {
    if inputs != [] {
      TickPreservesValid(g, inputs[0]);
      TickAddsCell(g, inputs[0]);
      var o := Tick(g, inputs[0]);
      if o.status == Alive {
        RunAddsCells(o.game, inputs[1..]);
      }
    }
  }

  /** Since no tail is ever cut, the snake fills a new cell on every
      iteration that keeps the game going; the field has GridWidth * GridHeight
      cells, so no game survives that many iterations: at the latest, the
      GridWidth * GridHeight-th iteration ends it, by collision or by quitting. */
  lemma {:induction false} GameEndsWithinGrid(g: GameState, inputs: seq<TickInput>)
    requires ValidGame(g) && AllDrawsValid(inputs)
    requires |inputs| >= GridWidth * GridHeight
    ensures Run(g, inputs).status != Alive
  {
    RunAddsCells(g, inputs);
    var final := Run(g, inputs).game.snake;
    GridCapacity(Cells(final));
    assert g.snake.body[0] in Cells(g.snake);
  }
}
