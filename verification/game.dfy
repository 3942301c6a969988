/** The game-state engine of the snake game: the state the component keeps
    and the transitions its timer, keyboard handler, direction buttons,
    pause button and "Play Again" button perform on it. */
module Game {
  import opened Grid
  import opened Food

  datatype Option<T> = None | Some(value: T)

  /** Points awarded for each piece of food eaten. */
  const FoodValue: int := 10

  /** The snake every game begins with: one segment in the middle. */
  const InitialSnake: seq<Cell> := [(7, 7)]

  /** Every game begins moving right. */
  const InitialDirection: Direction := Direction(1, 0)

  /** The component's state. The snake is listed head first. The three
      flags are independent: nothing forces them into a single status. */
  datatype State = State(
    snake: seq<Cell>,
    direction: Direction,
    food: Cell,
    gameOver: bool,
    score: int,
    gameStarted: bool,
    isPaused: bool)

  /** The state before any input: not started, food drawn with `rnd`. */
  function Initial(rnd: nat): (s: State)
    ensures !s.gameStarted && !s.gameOver && !s.isPaused
    ensures s.snake == InitialSnake && s.direction == InitialDirection && s.score == 0
    ensures InBounds(s.food) && s.food !in s.snake
  {
    assert InBounds((0, 0)) && (0, 0) !in InitialSnake;
    State(InitialSnake, InitialDirection, GenerateFood(InitialSnake, rnd), false, 0, false, false)
  }

  /** "Play Again": a fresh board that is already running. */
  function Reset(rnd: nat): (s: State)
    ensures s.gameStarted && !s.gameOver && !s.isPaused
    ensures s.snake == InitialSnake && s.direction == InitialDirection && s.score == 0
    ensures InBounds(s.food) && s.food !in s.snake
  {
    assert InBounds((0, 0)) && (0, 0) !in InitialSnake;
    State(InitialSnake, InitialDirection, GenerateFood(InitialSnake, rnd), false, 0, true, false)
  }

  /** The snake moves on a tick only in this case. */
  predicate Moving(s: State) {
    !s.gameOver && s.gameStarted && !s.isPaused
  }

  /** Where the head goes on the next tick. */
  function NextHead(s: State): Cell
    requires |s.snake| > 0
  {
    Advance(s.snake[0], s.direction)
  }

  /** The next tick lands the head on the food without colliding. */
  predicate Eats(s: State)
    requires |s.snake| > 0
  {
    InBounds(NextHead(s)) && NextHead(s) !in s.snake && NextHead(s) == s.food
  }

  /** A tick returns: a moving snake has a head to advance, and food is only
      re-placed on a board with a free cell left (otherwise the game's
      rejection sampling never stops drawing). */
  ghost predicate StepDefined(s: State) {
    Moving(s) ==> |s.snake| > 0 && (Eats(s) ==> HasFreeCell([NextHead(s)] + s.snake))
  }

  /** One timer tick. `rnd` is the random draw used if food is re-placed. */
  function Step(s: State, rnd: nat): (r: State)
    requires StepDefined(s)
    ensures r.direction == s.direction && r.gameStarted == s.gameStarted && r.isPaused == s.isPaused
    ensures r.gameOver ==> r.snake == s.snake && r.food == s.food && r.score == s.score
    ensures !Moving(s) ==> r == s
    ensures Moving(s) && !r.gameOver ==>
      && |r.snake| > 0 && r.snake[0] == NextHead(s) && InBounds(r.snake[0]) && r.snake[0] !in s.snake
      && r.snake[1..] <= s.snake
  {
    if s.gameOver || !s.gameStarted || s.isPaused then s
    else
      var newHead := NextHead(s);
      if !InBounds(newHead) then s.(gameOver := true)
      else if newHead in s.snake then s.(gameOver := true)
      else
        var newSnake := [newHead] + s.snake;
        if newHead == s.food then
          s.(snake := newSnake, score := s.score + FoodValue, food := GenerateFood(newSnake, rnd))
        else
          s.(snake := newSnake[..|newSnake| - 1])
  }

  /** The direction after asking for heading `h`: a vertical heading is
      honoured only while moving horizontally, and the other way round. */
  function Steer(current: Direction, h: Heading): (r: Direction)
    ensures r != current ==> r == Vector(h) && Perpendicular(current, r)
    ensures IsUnit(current) && Perpendicular(current, Vector(h)) ==> r == Vector(h)
  {
    match h
    case Up => if current.y == 0 then Direction(0, -1) else current
    case Down => if current.y == 0 then Direction(0, 1) else current
    case Left => if current.x == 0 then Direction(-1, 0) else current
    case Right => if current.x == 0 then Direction(1, 0) else current
  }

  /** The heading an arrow key asks for. */
  function ArrowHeading(key: string): Option<Heading> {
    if key == "ArrowUp" then Some(Up)
    else if key == "ArrowDown" then Some(Down)
    else if key == "ArrowLeft" then Some(Left)
    else if key == "ArrowRight" then Some(Right)
    else None
  }

  /** The keyboard handler, given the key name of a keydown event. All its
      tests read the state as it was before the key. */
  function HandleKeyPress(s: State, key: string): (r: State)
    ensures r.snake == s.snake && r.food == s.food && r.score == s.score && r.gameOver == s.gameOver
    ensures r.gameStarted <==> s.gameStarted || "Arrow" <= key
    ensures r.isPaused != s.isPaused <==> key == " " && s.gameStarted && !s.gameOver
    ensures r.direction != s.direction ==>
      && !s.isPaused && !s.gameOver
      && ArrowHeading(key).Some?
      && r.direction == Vector(ArrowHeading(key).value)
      && Perpendicular(s.direction, r.direction)
    ensures !s.isPaused && !s.gameOver && IsUnit(s.direction) && ArrowHeading(key).Some?
      && Perpendicular(s.direction, Vector(ArrowHeading(key).value))
      ==> r.direction == Vector(ArrowHeading(key).value)
  {
    var started := if !s.gameStarted && "Arrow" <= key then s.(gameStarted := true) else s;
    var toggled := if key == " " && s.gameStarted && !s.gameOver then started.(isPaused := !s.isPaused) else started;
    if s.isPaused || s.gameOver then toggled
    else
      match ArrowHeading(key)
      case Some(h) => toggled.(direction := Steer(s.direction, h))
      case None => toggled
  }

  /** An on-screen direction button. */
  function HandleDirectionClick(s: State, h: Heading): (r: State)
    ensures r.snake == s.snake && r.food == s.food && r.score == s.score && r.gameOver == s.gameOver
    ensures r.isPaused == s.isPaused && r.gameStarted
    ensures r.direction != s.direction ==>
      !s.isPaused && !s.gameOver && r.direction == Vector(h) && Perpendicular(s.direction, r.direction)
    ensures !s.isPaused && !s.gameOver && IsUnit(s.direction) && Perpendicular(s.direction, Vector(h))
      ==> r.direction == Vector(h)
  {
    var started := if !s.gameStarted then s.(gameStarted := true) else s;
    if s.isPaused || s.gameOver then started
    else started.(direction := Steer(s.direction, h))
  }

  /** The on-screen pause button: it flips the pause flag whatever the
      other flags say. */
  function TogglePauseButton(s: State): (r: State)
    ensures r.isPaused != s.isPaused
    ensures r.(isPaused := s.isPaused) == s
  {
    s.(isPaused := !s.isPaused)
  }
}
