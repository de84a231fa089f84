/** The game objects of the_snake.py as classes whose methods update their
    fields in place, and the game loop's steps as methods over them. Each is
    proved to do what the functions of SnakeSpec and GameSpec describe. */
module TheSnake {
  import opened Grid
  import opened SnakeSpec
  import opened GameSpec

  class Snake {
    var body: seq<Position>
    var direction: Direction
    var nextDirection: Option<Direction>

    /** The fields as a value. */
    function State(): SnakeState
      reads this
    {
      SnakeState(body, direction, nextDirection)
    }

    constructor ()
      ensures State() == Initial()
      ensures body == [Position(GridSize, GridSize)] && direction == Right && nextDirection == None
    {
      body := [Position(GridSize, GridSize)];
      direction := Right;
      nextDirection := None;
    }

    /** Adopt the pending direction, compute the wrapped new head, and
      either report GameOver (the body untouched) or insert the head in front. */
    method Update() returns (status: Status)
      requires |body| > 0
      modifies this
      ensures Moved(status, State()) == SnakeSpec.Update(old(State()))
      ensures nextDirection == None
      ensures direction == old(nextDirection).OrElse(Some(old(direction))).value
      ensures status == GameOver ==> body == old(body) && NextHead(old(body)[0], direction) in old(body)
      ensures status == Alive ==> body == [NextHead(old(body)[0], direction)] + old(body)
    {
      if nextDirection.Some? {
        direction := nextDirection.value;
        nextDirection := None;
      }
      var newHead := NextHead(body[0], direction);
      if newHead in body {
        return GameOver;
      }
      body := [newHead] + body;
      status := Alive;
    }

    /** Append a copy of the last segment. */
    method Grow()
      requires |body| > 0
      modifies this`body
      ensures State() == SnakeSpec.Grow(old(State()))
      ensures body == old(body) + [old(body)[|old(body)| - 1]]
    {
      body := body + [body[|body| - 1]];
    }
  }

  class Apple {
    var position: Position

    /** A new apple at the drawn cell. */
    constructor (col: int, row: int)
      requires ValidDraw(col, row)
      ensures position == RandomPosition(col, row)
    {
      position := RandomPosition(col, row);
    }

    method SpawnNewApple(col: int, row: int)
      requires ValidDraw(col, row)
      modifies this
      ensures position == RandomPosition(col, row)
    {
      position := RandomPosition(col, row);
    }
  }

  /** `handle_keys`: go through the events in order, stop at a close
      request, and let each arrow key that does not reverse the snake's
      current direction overwrite the pending direction. */
  method HandleKeys(snake: Snake, events: seq<Event>) returns (quit: bool)
    modifies snake`nextDirection
    ensures KeysResult(quit, snake.nextDirection) ==
            SnakeSpec.HandleKeys(snake.direction, old(snake.nextDirection), events)
    ensures quit <==> QuitEvent in events
  {
    quit := false;
    var i := 0;
    while i < |events| && !quit
      invariant 0 <= i <= |events|
      invariant quit ==> i < |events| && events[i] == QuitEvent
      invariant SnakeSpec.HandleKeys(snake.direction, old(snake.nextDirection), events) ==
                SnakeSpec.HandleKeys(snake.direction, snake.nextDirection, events[i..])
      decreases |events| - i, !quit
    {
      match events[i]
      case QuitEvent =>
        quit := true;
      case ArrowKey(d) =>
        if Accepts(snake.direction, d) {
          snake.nextDirection := Some(d);
        }
        i := i + 1;
      case OtherEvent =>
        i := i + 1;
    }
    HandleKeysLastWins(snake.direction, old(snake.nextDirection), events);
  }

  /** The two objects the loop works on, as a value. */
  function Game(snake: Snake, apple: Apple): GameState
    reads snake, apple
  {
    GameState(snake.State(), apple.position)
  }

  /** One iteration of the main loop (without drawing and frame pacing). */
  method Tick(snake: Snake, apple: Apple, input: TickInput) returns (status: Status)
    requires |snake.body| > 0 && ValidDraw(input.col, input.row)
    modifies snake, apple
    ensures Outcome(status, Game(snake, apple)) == GameSpec.Tick(old(Game(snake, apple)), input)
  {
    var quit := HandleKeys(snake, input.events);
    if quit {
      return Quit;
    }
    status := snake.Update();
    if status == GameOver {
      return;
    }
    if snake.body[0] == apple.position {
      snake.Grow();
      apple.SpawnNewApple(input.col, input.row);
    }
  }

  /** The main loop over a bounded sequence of iterations, stopping at the
      first that ends the game. */
  method Run(snake: Snake, apple: Apple, inputs: seq<TickInput>) returns (status: Status)
    requires |snake.body| > 0 && AllDrawsValid(inputs)
    modifies snake, apple
    ensures Outcome(status, Game(snake, apple)) == GameSpec.Run(old(Game(snake, apple)), inputs)
  {
    status := Alive;
    var i := 0;
    while i < |inputs| && status == Alive
      invariant 0 <= i <= |inputs|
      invariant |snake.body| > 0
      invariant status == Alive ==>
        GameSpec.Run(old(Game(snake, apple)), inputs) == GameSpec.Run(Game(snake, apple), inputs[i..])
      invariant status != Alive ==>
        GameSpec.Run(old(Game(snake, apple)), inputs) == Outcome(status, Game(snake, apple))
    {
      assert inputs[i..][1..] == inputs[i + 1..];
      status := Tick(snake, apple, inputs[i]);
      i := i + 1;
    }
  }

  /** `main` for a bounded number of iterations: create the snake and the
      apple, then run the loop. However many inputs are given, the game has
      ended by the GridWidth * GridHeight-th iteration. */
  method Play(col: int, row: int, inputs: seq<TickInput>) returns (status: Status, snake: Snake, apple: Apple)
    requires ValidDraw(col, row) && AllDrawsValid(inputs)
    ensures Outcome(status, Game(snake, apple)) == GameSpec.Run(InitialGame(col, row), inputs)
    ensures |inputs| >= GridWidth * GridHeight ==> status != Alive
  {
    snake := new Snake();
    apple := new Apple(col, row);
    status := Run(snake, apple, inputs);
    InitialValid();
    if |inputs| >= GridWidth * GridHeight {
      GameEndsWithinGrid(InitialGame(col, row), inputs);
    }
  }
}
