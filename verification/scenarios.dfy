/** Concrete ticks and inputs on small boards, one per documented behaviour
    of the game. */
module Scenarios {
  import opened Grid
  import opened Food
  import opened Game

  /** A running game with the given snake, direction and food, score 0. */
  function Running(snake: seq<Cell>, d: Direction, food: Cell): State {
    State(snake, d, food, false, 0, true, false)
  }

  /** One segment at (5,5) moving right moves to (6,5). */
  lemma MovesOneCell(rnd: nat)
    ensures StepDefined(Running([(5, 5)], Vector(Right), (0, 0)))
    ensures Step(Running([(5, 5)], Vector(Right), (0, 0)), rnd)
      == Running([(6, 5)], Vector(Right), (0, 0))
  {
  }

  /** At the right edge, moving right ends the game in place. */
  lemma HitsRightWall(rnd: nat)
    ensures StepDefined(Running([(14, 5)], Vector(Right), (0, 0)))
    ensures Step(Running([(14, 5)], Vector(Right), (0, 0)), rnd)
      == Running([(14, 5)], Vector(Right), (0, 0)).(gameOver := true)
  {
  }

  /** A four-segment snake closing a 2×2 square moves onto its own tail,
      which the collision test counts: the game ends. */
  lemma SquareLoopHitsTail(rnd: nat)
    ensures StepDefined(Running([(5, 5), (6, 5), (6, 4), (5, 4)], Vector(Up), (0, 0)))
    ensures Step(Running([(5, 5), (6, 5), (6, 4), (5, 4)], Vector(Up), (0, 0)), rnd).gameOver
  {
  }

  /** Eating at (6,5): three segments, ten points, food placed elsewhere. */
  lemma EatsFood(rnd: nat)
    ensures StepDefined(Running([(5, 5), (4, 5)], Vector(Right), (6, 5)))
    ensures var r := Step(Running([(5, 5), (4, 5)], Vector(Right), (6, 5)), rnd);
      && r.snake == [(6, 5), (5, 5), (4, 5)]
      && r.score == 10
      && r.food !in r.snake
  {
    assert InBounds((0, 0)) && (0, 0) !in [(6, 5), (5, 5), (4, 5)];
  }

  /** Moving right, the left arrow is ignored. */
  lemma LeftWhileMovingRightIgnored()
    ensures HandleKeyPress(Running([(5, 5)], Vector(Right), (0, 0)), "ArrowLeft").direction == Vector(Right)
  {
  }

  /** While paused a tick does nothing; the second press of space resumes. */
  lemma PauseHoldsTheBoard(rnd: nat)
    ensures var paused := HandleKeyPress(Running([(5, 5)], Vector(Right), (0, 0)), " ");
      && paused.isPaused
      && StepDefined(paused)
      && Step(paused, rnd) == paused
      && HandleKeyPress(paused, " ") == Running([(5, 5)], Vector(Right), (0, 0))
  {
  }

  /** On the first render, ArrowUp both starts the game and points it up. */
  lemma FirstArrowStartsAndTurns(rnd: nat)
    ensures HandleKeyPress(Initial(rnd), "ArrowUp").gameStarted
    ensures HandleKeyPress(Initial(rnd), "ArrowUp").direction == Vector(Up)
  {
    assert "Arrow" <= "ArrowUp";
  }
}
