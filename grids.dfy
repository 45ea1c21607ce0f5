/**
 * The dungeon grid as a value: a rectangle of integer cell markers. The
 * generator's `dungeon` array is related to this value by a snapshot, so
 * that every step can be specified as a function of the grid before it.
 */
module Grids {
  import opened Geometry

  type Grid = seq<seq<int>>

  function Cols(g: Grid): nat {
    if |g| == 0 then 0 else |g[0]|
  }

  /** Every row has the same length. */
  predicate WellFormed(g: Grid) {
    forall i :: 0 <= i < |g| ==> |g[i]| == Cols(g)
  }

  /** The explicit range test that replaces the source's IndexOutOfRangeException probe. */
  predicate InGrid(g: Grid, c: Cell) {
    0 <= c.row < |g| && 0 <= c.col < Cols(g)
  }

  function At(g: Grid, c: Cell): int
    requires WellFormed(g) && InGrid(g, c)
  {
    g[c.row][c.col]
  }

  /** The grid after storing `v` at `c`: that cell holds `v` and no other cell changes. */
  function Put(g: Grid, c: Cell, v: int): (g': Grid)
    requires WellFormed(g) && InGrid(g, c)
    ensures WellFormed(g') && |g'| == |g| && Cols(g') == Cols(g)
    ensures At(g', c) == v
    ensures forall d :: InGrid(g, d) && d != c ==> At(g', d) == At(g, d)
  {
    g[c.row := g[c.row][c.col := v]]
  }

  /** Same shape. */
  predicate SameShape(g: Grid, h: Grid) {
    |g| == |h| && Cols(g) == Cols(h)
  }
}
