/** The player's inputs: arrow keys, the space bar, the direction buttons and
    the pause button. */
module Commands {
  import opened Grid
  import opened Game
  import opened StepProperties

  /** One accepted command never points the snake straight back, and keeps
      the direction a unit vector. */
  lemma SteerNeverReverses(current: Direction, h: Heading)
    requires IsUnit(current)
    ensures Steer(current, h) != Reverse(current)
    ensures IsUnit(Steer(current, h))
  {
    ReverseDiffers(current);
  }

  lemma KeyPressNeverReverses(s: State, key: string)
    requires IsUnit(s.direction)
    ensures HandleKeyPress(s, key).direction != Reverse(s.direction)
  {
    ReverseDiffers(s.direction);
    match ArrowHeading(key)
    case Some(h) => SteerNeverReverses(s.direction, h);
    case None =>
  }

  lemma DirectionClickNeverReverses(s: State, h: Heading)
    requires IsUnit(s.direction)
    ensures HandleDirectionClick(s, h).direction != Reverse(s.direction)
  {
    ReverseDiffers(s.direction);
    SteerNeverReverses(s.direction, h);
    var r := HandleDirectionClick(s, h);
    assert r.direction == s.direction || r.direction == Steer(s.direction, h);
  }

  /** Unless paused or over, the snake turns to any perpendicular heading an
      arrow key asks for, also when that key is the one that starts the game. */
  lemma PerpendicularKeyTurns(s: State, key: string)
    requires !s.isPaused && !s.gameOver && IsUnit(s.direction)
    requires ArrowHeading(key).Some? && Perpendicular(s.direction, Vector(ArrowHeading(key).value))
    ensures HandleKeyPress(s, key).direction == Vector(ArrowHeading(key).value)
    ensures HandleKeyPress(s, key).gameStarted
  {
  }

  /** Each command is checked against the direction last asked for, not the
      one the snake last moved in: two accepted commands between ticks, Up
      then Left while moving right, reverse the heading. */
  lemma TwoKeysReverse(s: State)
    requires Moving(s) && s.direction == Vector(Right)
    ensures HandleKeyPress(HandleKeyPress(s, "ArrowUp"), "ArrowLeft") == s.(direction := Reverse(s.direction))
  {
    var up := HandleKeyPress(s, "ArrowUp");
    assert "Arrow" <= "ArrowUp" && "Arrow" <= "ArrowLeft";
    assert up == s.(direction := Vector(Up));
    assert HandleKeyPress(up, "ArrowLeft") == up.(direction := Vector(Left));
  }

  /** ...and the next tick then drives the head into the neck, ending the
      game. */
  lemma ReversalHitsNeck(s: State, rnd: nat)
    requires Moving(s) && s.direction == Vector(Right)
    requires |s.snake| >= 2 && s.snake[1] == Advance(s.snake[0], Vector(Left))
    ensures StepDefined(HandleKeyPress(HandleKeyPress(s, "ArrowUp"), "ArrowLeft"))
    ensures Step(HandleKeyPress(HandleKeyPress(s, "ArrowUp"), "ArrowLeft"), rnd).gameOver
    ensures Step(HandleKeyPress(HandleKeyPress(s, "ArrowUp"), "ArrowLeft"), rnd).snake == s.snake
  {
    TwoKeysReverse(s);
    var turned := s.(direction := Vector(Left));
    assert NextHead(turned) == s.snake[1];
    SelfCollision(turned, rnd);
  }

  /** While paused or over, no key and no button changes the direction. */
  lemma DirectionFrozen(s: State, key: string, h: Heading)
    requires s.isPaused || s.gameOver
    ensures HandleKeyPress(s, key).direction == s.direction
    ensures HandleDirectionClick(s, h).direction == s.direction
  {
  }

  /** The space bar and the pause button disagree before the game starts and
      after it ends: the space bar is ignored, the button still toggles. */
  lemma SpaceGuardedButtonNot(s: State)
    requires !s.gameStarted || s.gameOver
    ensures HandleKeyPress(s, " ") == s
    ensures TogglePauseButton(s).isPaused != s.isPaused
  {
  }

  /** Pausing twice resumes the game exactly as it was. */
  lemma PauseTwiceIsIdentity(s: State)
    ensures TogglePauseButton(TogglePauseButton(s)) == s
    ensures s.gameStarted && !s.gameOver ==> HandleKeyPress(HandleKeyPress(s, " "), " ") == s
  {
  }
}
