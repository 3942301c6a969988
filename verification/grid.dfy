/** The playing field: a square grid of integer cells, and the unit
    movement vectors the snake travels along. */
module Grid {
  import opened Counting

  /** Cells per side of the board. */
  const GridSize: int := 15

  /** A cell `(x, y)`; `x` grows to the right and `y` grows downwards. */
  type Cell = (int, int)

  predicate InBounds(c: Cell) {
    0 <= c.0 < GridSize && 0 <= c.1 < GridSize
  }

  predicate AllInBounds(cells: seq<Cell>) {
    forall i :: 0 <= i < |cells| ==> InBounds(cells[i])
  }

  /** A movement vector, added to the head on every tick. */
  datatype Direction = Direction(x: int, y: int)

  /** The four headings a player can ask for, by key or by button. */
  datatype Heading = Up | Down | Left | Right

  function Vector(h: Heading): Direction {
    match h
    case Up => Direction(0, -1)
    case Down => Direction(0, 1)
    case Left => Direction(-1, 0)
    case Right => Direction(1, 0)
  }

  /** One of the four unit vectors: exactly one component is non-zero, and
      it is 1 or -1. */
  predicate IsUnit(d: Direction) {
    d == Vector(Up) || d == Vector(Down) || d == Vector(Left) || d == Vector(Right)
  }

  /** One vector lies along the x axis and the other along the y axis; for
      unit vectors this is exactly meeting at a right angle. */
  predicate Perpendicular(a: Direction, b: Direction) {
    || (a.x == 0 && b.y == 0)
    || (a.y == 0 && b.x == 0)
  }

  function Reverse(d: Direction): Direction {
    Direction(-d.x, -d.y)
  }

  /** No unit vector is its own reverse. */
  lemma ReverseDiffers(d: Direction)
    requires IsUnit(d)
    ensures d != Reverse(d)
  {
    assert d.x != -d.x || d.y != -d.y;
  }

  function Advance(c: Cell, d: Direction): Cell {
    (c.0 + d.x, c.1 + d.y)
  }

  /** The cell at row-major position `k` of the board. */
  function CellAt(k: int): Cell {
    (k % GridSize, k / GridSize)
  }

  /** The row-major position of a cell. */
  function IndexOf(c: Cell): int {
    c.1 * GridSize + c.0
  }

  lemma IndexRoundTrip(c: Cell)
    requires InBounds(c)
    ensures 0 <= IndexOf(c) < GridSize * GridSize
    ensures CellAt(IndexOf(c)) == c
  {
  }

  lemma CellAtInBounds(k: int)
    requires 0 <= k < GridSize * GridSize
    ensures InBounds(CellAt(k))
    ensures IndexOf(CellAt(k)) == k
  {
  }

  /** Every cell of the board exactly once, in row-major order. */
  function AllCells(): (r: seq<Cell>)
    ensures |r| == GridSize * GridSize
    ensures forall c :: c in r <==> InBounds(c)
    ensures Distinct(r)
  {
    var r := seq(GridSize * GridSize, k => CellAt(k));
    assert forall c :: InBounds(c) ==> c in r by {
      forall c | InBounds(c)
        ensures c in r
      {
        IndexRoundTrip(c);
        assert r[IndexOf(c)] == c;
      }
    }
    assert forall k :: 0 <= k < |r| ==> InBounds(r[k]) by {
      forall k | 0 <= k < |r|
        ensures InBounds(r[k])
      {
        CellAtInBounds(k);
      }
    }
    assert Distinct(r) by {
      forall i, j | 0 <= i < j < |r|
        ensures r[i] != r[j]
      {
        CellAtInBounds(i);
        CellAtInBounds(j);
      }
    }
    r
  }
}
