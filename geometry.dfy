/**
 * Grid coordinates, the neighbour query and the distance metric of the
 * corridor generator (pathfinder.cs:17-36).
 */
module Geometry {

  /** A grid coordinate: `row` indexes the first dimension of the dungeon array, `col` the second. */
  datatype Cell = Cell(row: int, col: int)

  function Abs(x: int): nat {
    if x < 0 then -x else x
  }

  /**
   * The eight cells at offset `size` around (row, column): the four orthogonal
   * ones (top, bot, left, right) first, then the four diagonal ones
   * (topLeft, topRight, bottomLeft, bottomRight).
   */
  function GetNeighbors(row: int, column: int, size: int := 1): (cells: seq<Cell>)
    ensures |cells| == 8
  {
    [ Cell(row - size, column), Cell(row + size, column),
      Cell(row, column - size), Cell(row, column + size),
      Cell(row - size, column - size), Cell(row - size, column + size),
      Cell(row + size, column - size), Cell(row + size, column + size) ]
  }

  /** The only metric used anywhere: the sum of the row and column differences. */
  function ManhattanDistance(a: Cell, b: Cell): (d: nat)
    ensures d == 0 <==> a == b
    ensures d >= Abs(a.row - b.row) && d >= Abs(a.col - b.col)
  {
    Abs(a.row - b.row) + Abs(a.col - b.col)
  }

  /**
   * The first four neighbours lie on the same row or column as the centre at
   * distance `size` (up, down, left, right in that order); the last four are
   * diagonal, `size` away on both axes.
   */
  lemma NeighborsLayout(row: int, column: int, size: nat)
    ensures var cells := GetNeighbors(row, column, size);
      && cells[0].row == row - size && cells[1].row == row + size
      && cells[2].col == column - size && cells[3].col == column + size
      && (forall k :: 0 <= k < 4 ==>
            (cells[k].row == row || cells[k].col == column) &&
            ManhattanDistance(Cell(row, column), cells[k]) == size)
      && (forall k :: 4 <= k < 8 ==>
            Abs(cells[k].row - row) == size && Abs(cells[k].col - column) == size)
  {
  }

  lemma ManhattanSymmetric(a: Cell, b: Cell)
    ensures ManhattanDistance(a, b) == ManhattanDistance(b, a)
  {
  }

  /**
   * From any cell other than the target, one of the four orthogonal
   * neighbours is one step closer and lies inside the rectangle spanned by
   * the cell and the target; `k` is its index in GetNeighbors' order.
   */
  lemma StepToward(a: Cell, t: Cell) returns (k: nat)
    requires a != t
    ensures k < 4
    ensures var n := GetNeighbors(a.row, a.col)[k];
      && ManhattanDistance(n, t) < ManhattanDistance(a, t)
      && (a.row <= n.row <= t.row || t.row <= n.row <= a.row)
      && (a.col <= n.col <= t.col || t.col <= n.col <= a.col)
  {
    if a.row > t.row {
      k := 0;
    } else if a.row < t.row {
      k := 1;
    } else if a.col > t.col {
      k := 2;
    } else {
      k := 3;
    }
  }

  /**
   * The cell one step from `a` toward `t` along an L-shaped route: first
   * along the column until the rows agree, then along the row. It is `a`
   * itself when `a == t`.
   */
  function Toward(a: Cell, t: Cell): (n: Cell)
    ensures a != t ==> ManhattanDistance(n, t) + 1 == ManhattanDistance(a, t)
    ensures a.row != t.row ==> n.col == a.col
    ensures a == t <==> n == a
  {
    if t.row < a.row then Cell(a.row - 1, a.col)
    else if t.row > a.row then Cell(a.row + 1, a.col)
    else if t.col < a.col then Cell(a.row, a.col - 1)
    else if t.col > a.col then Cell(a.row, a.col + 1)
    else a
  }
}
