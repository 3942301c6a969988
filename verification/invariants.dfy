/** The invariant every state of a session keeps: the snake is a non-empty
    run of distinct board cells, the food is a free board cell, the score is
    ten points per segment grown, and the direction is a unit vector. */
module Invariants {
  import opened Counting
  import opened Grid
  import opened Food
  import opened Game

  ghost predicate Inv(s: State) {
    && |s.snake| > 0
    && AllInBounds(s.snake)
    && Distinct(s.snake)
    && InBounds(s.food)
    && s.food !in s.snake
    && s.score == FoodValue * (|s.snake| - 1)
    && IsUnit(s.direction)
  }

  /** Ten points per piece eaten: the score is never negative and never
      between multiples of the food value. */
  lemma ScoreIsMultipleOfFoodValue(s: State)
    requires Inv(s)
    ensures s.score >= 0 && s.score % FoodValue == 0
  {
  }

  lemma InitialEstablishesInv(rnd: nat)
    ensures Inv(Initial(rnd))
  {
  }

  lemma ResetEstablishesInv(rnd: nat)
    ensures Inv(Reset(rnd))
  {
  }

  /** The new head is a free board cell, so putting it in front keeps the
      segments distinct; dropping the tail cannot create a repetition. */
  lemma StepPreservesInv(s: State, rnd: nat)
    requires Inv(s) && StepDefined(s)
    ensures Inv(Step(s, rnd))
  {
    if Moving(s) {
      var h := NextHead(s);
      if InBounds(h) && h !in s.snake {
        var grown := [h] + s.snake;
        assert Distinct(grown) by {
          forall i, j | 0 <= i < j < |grown|
            ensures grown[i] != grown[j]
          {
            if i == 0 {
              assert grown[j] == s.snake[j - 1];
            } else {
              assert grown[i] == s.snake[i - 1] && grown[j] == s.snake[j - 1];
            }
          }
        }
        var r := Step(s, rnd);
        if h == s.food {
          assert r.snake == grown;
        } else {
          assert r.snake == grown[..|grown| - 1];
          assert forall k :: 0 <= k < |r.snake| ==> r.snake[k] == grown[k];
          assert s.food !in grown;
        }
      }
    }
  }

  lemma KeyPressPreservesInv(s: State, key: string)
    requires Inv(s)
    ensures Inv(HandleKeyPress(s, key))
  {
  }

  lemma DirectionClickPreservesInv(s: State, h: Heading)
    requires Inv(s)
    ensures Inv(HandleDirectionClick(s, h))
  {
  }

  lemma PauseButtonPreservesInv(s: State)
    requires Inv(s)
    ensures Inv(TogglePauseButton(s))
  {
  }

  /** The snake and the food occupy distinct board cells, so the snake is
      always at least one cell short of filling the board. */
  lemma SnakeLeavesRoomForFood(s: State)
    requires Inv(s)
    ensures |s.snake| < GridSize * GridSize
  {
    var cells := s.snake + [s.food];
    assert Distinct(cells) by {
      DistinctConcat(s.snake, [s.food]);
    }
    assert AllInBounds(cells) by {
      forall i | 0 <= i < |cells|
        ensures InBounds(cells[i])
      {
        if i < |s.snake| {
          assert cells[i] == s.snake[i];
        }
      }
    }
    var all := AllCells();
    DistinctElementsCard(cells);
    DistinctElementsCard(all);
    assert Elements(cells) <= Elements(all);
    SubsetCard(Elements(cells), Elements(all));
  }

  /** While the snake is more than one segment short of the board, a tick
      always returns. */
  lemma StepDefinedWhileRoomLeft(s: State)
    requires Inv(s)
    requires |s.snake| + 1 < GridSize * GridSize
    ensures StepDefined(s)
  {
    if Moving(s) && Eats(s) {
      ShortSnakeLeavesFreeCell([NextHead(s)] + s.snake);
    }
  }

  /** The one case in which a tick does not return: a snake one segment short
      of the board that moves without colliding must be eating the food, and
      then no cell is left for the next piece. */
  lemma HangOnFullBoard(s: State)
    requires Inv(s) && Moving(s)
    requires |s.snake| + 1 == GridSize * GridSize
    requires InBounds(NextHead(s)) && NextHead(s) !in s.snake
    ensures Eats(s)
    ensures !HasFreeCell([NextHead(s)] + s.snake)
    ensures !StepDefined(s)
  {
    var h := NextHead(s);
    var grown := [h] + s.snake;
    assert Distinct(grown) by {
      DistinctConcat([h], s.snake);
    }
    assert AllInBounds(grown) by {
      forall i | 0 <= i < |grown|
        ensures InBounds(grown[i])
      {
        if i > 0 {
          assert grown[i] == s.snake[i - 1];
        }
      }
    }
    FullSnakeLeavesNoFreeCell(grown);
    assert s.food in grown;
  }
}
