/** Food placement. The game draws random cells until one is not part of the
    snake. Here the random draw is a parameter `rnd`: the food is the free
    cell at position `rnd` (modulo their number) in row-major order, so every
    free cell is the outcome of some draw and no occupied cell is. */
module Food {
  import opened Counting
  import opened Grid

  /** The cells of `cells` that are not segments of `snake`, in order. */
  function FreeAmong(cells: seq<Cell>, snake: seq<Cell>): (r: seq<Cell>)
    ensures forall c :: c in r <==> c in cells && c !in snake
  {
    if |cells| == 0 then []
    else if cells[0] in snake then FreeAmong(cells[1..], snake)
    else [cells[0]] + FreeAmong(cells[1..], snake)
  }

  /** Every board cell not covered by `snake`. */
  function FreeCells(snake: seq<Cell>): (r: seq<Cell>)
    ensures forall c :: c in r <==> InBounds(c) && c !in snake
  {
    FreeAmong(AllCells(), snake)
  }

  /** Some board cell is not covered by `snake`: the only case in which the
      rejection-sampling loop of the game ever returns. */
  ghost predicate HasFreeCell(snake: seq<Cell>) {
    exists c :: InBounds(c) && c !in snake
  }

  /** The cell the game places food on, given the random draw `rnd`. */
  function GenerateFood(snake: seq<Cell>, rnd: nat): (food: Cell)
    requires HasFreeCell(snake)
    ensures InBounds(food)
    ensures food !in snake
  {
    var free := FreeCells(snake);
    assert |free| > 0 by {
      var c :| InBounds(c) && c !in snake;
      assert c in free;
    }
    free[rnd % |free|]
  }

  /** Conversely, each free cell is the food for some draw. */
  lemma AnyFreeCellCanBeChosen(snake: seq<Cell>, c: Cell)
    requires InBounds(c) && c !in snake
    ensures HasFreeCell(snake)
    ensures exists rnd: nat :: GenerateFood(snake, rnd) == c
  {
    var free := FreeCells(snake);
    assert c in free;
    var k :| 0 <= k < |free| && free[k] == c;
    assert k % |free| == k;
    assert GenerateFood(snake, k) == free[k];
  }

  /** A snake shorter than the number of board cells leaves a cell free,
      whatever its shape. */
  lemma ShortSnakeLeavesFreeCell(snake: seq<Cell>)
    requires |snake| < GridSize * GridSize
    ensures HasFreeCell(snake)
  {
    if !HasFreeCell(snake) {
      var all := AllCells();
      DistinctElementsCard(all);
      ElementsCard(snake);
      assert Elements(all) <= Elements(snake);
      SubsetCard(Elements(all), Elements(snake));
      assert false;
    }
  }

  /** A snake of pairwise distinct board cells as long as the board has cells
      covers the whole board. */
  lemma FullSnakeLeavesNoFreeCell(snake: seq<Cell>)
    requires AllInBounds(snake) && Distinct(snake)
    requires |snake| == GridSize * GridSize
    ensures !HasFreeCell(snake)
  {
    var all := AllCells();
    DistinctElementsCard(all);
    DistinctElementsCard(snake);
    assert Elements(snake) <= Elements(all);
    SubsetOfEqualCard(Elements(snake), Elements(all));
  }
}
