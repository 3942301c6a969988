/** What one tick does, branch by branch: the wall test, the self-collision
    test (which counts the tail cell), the plain move and the eating move. */
module StepProperties {
  import opened Counting
  import opened Grid
  import opened Food
  import opened Game

  /** A head leaving the board ends the game and changes nothing else. */
  lemma WallCollision(s: State, rnd: nat)
    requires Moving(s) && |s.snake| > 0
    requires !InBounds(NextHead(s))
    ensures StepDefined(s)
    ensures Step(s, rnd) == s.(gameOver := true)
  {
  }

  /** A head landing on any segment ends the game and changes nothing else. */
  lemma SelfCollision(s: State, rnd: nat)
    requires Moving(s) && |s.snake| > 0
    requires NextHead(s) in s.snake
    ensures StepDefined(s)
    ensures Step(s, rnd) == s.(gameOver := true)
  {
  }

  /** The collision test includes the last segment, even though a plain move
      would vacate that cell on the same tick: moving onto it ends the game,
      although the body the move would produce has no repeated cell. */
  lemma TailCellCounts(s: State, rnd: nat)
    requires Moving(s) && |s.snake| > 0 && Distinct(s.snake)
    requires NextHead(s) == s.snake[|s.snake| - 1]
    ensures StepDefined(s)
    ensures Step(s, rnd) == s.(gameOver := true)
    ensures Distinct([NextHead(s)] + s.snake[..|s.snake| - 1])
  {
    var n := |s.snake|;
    var front := s.snake[..n - 1];
    assert s.snake[n - 1] in s.snake;
    assert Distinct(front) by {
      forall i, j | 0 <= i < j < |front|
        ensures front[i] != front[j]
      {
        assert front[i] == s.snake[i] && front[j] == s.snake[j];
      }
    }
    assert s.snake[n - 1] !in front by {
      forall k | 0 <= k < |front|
        ensures front[k] != s.snake[n - 1]
      {
        assert front[k] == s.snake[k];
      }
    }
    DistinctConcat([NextHead(s)], front);
  }

  /** A move that neither collides nor eats: the head is put in front and the
      last segment dropped, so length, score and food stay as they were. */
  lemma PlainMove(s: State, rnd: nat)
    requires Moving(s) && |s.snake| > 0
    requires InBounds(NextHead(s)) && NextHead(s) !in s.snake
    requires NextHead(s) != s.food
    ensures StepDefined(s)
    ensures !Step(s, rnd).gameOver
    ensures Step(s, rnd).snake == [NextHead(s)] + s.snake[..|s.snake| - 1]
    ensures |Step(s, rnd).snake| == |s.snake|
    ensures Step(s, rnd).score == s.score
    ensures Step(s, rnd).food == s.food
  {
    var grown := [NextHead(s)] + s.snake;
    assert grown[..|grown| - 1] == [NextHead(s)] + s.snake[..|s.snake| - 1];
  }

  /** A move onto the food: the snake grows by exactly the new head, the
      score rises by exactly the food value, and the next food is drawn
      clear of the grown snake. */
  lemma EatingMove(s: State, rnd: nat)
    requires Moving(s) && |s.snake| > 0
    requires Eats(s)
    requires HasFreeCell([NextHead(s)] + s.snake)
    ensures StepDefined(s)
    ensures !Step(s, rnd).gameOver
    ensures Step(s, rnd).snake == [NextHead(s)] + s.snake
    ensures |Step(s, rnd).snake| == |s.snake| + 1
    ensures Step(s, rnd).score == s.score + FoodValue
    ensures Step(s, rnd).food == GenerateFood(Step(s, rnd).snake, rnd)
    ensures InBounds(Step(s, rnd).food) && Step(s, rnd).food !in Step(s, rnd).snake
  {
  }
}
