/**
  Boolean pixel grids, the only data the hill climber manipulates.

  A grid is indexed `g[i][j]`: the first axis `i` runs over the image width
  (columns) and the second axis `j` over the height (rows), as in the NumPy
  arrays of shape (width, height) that the evolution loop allocates.
 */
module Grids {

  type Grid = seq<seq<bool>>

  /** A pixel coordinate: column `i`, row `j`. */
  datatype Cell = Cell(i: int, j: int)

  /** `g` has `width` columns of `height` cells each. */
  predicate IsGrid(g: Grid, width: nat, height: nat) {
    && |g| == width
    && forall i :: 0 <= i < |g| ==> |g[i]| == height
  }

  /** Every column has the length of the first one, as for any 2-D array. */
  predicate Rectangular(g: Grid) {
    |g| > 0 ==> IsGrid(g, |g|, |g[0]|)
  }

  /** `a` and `b` have the same number of columns and equally long columns. */
  predicate SameShape(a: Grid, b: Grid) {
    && |a| == |b|
    && forall i :: 0 <= i < |a| ==> |a[i]| == |b[i]|
  }

  /** `c` addresses a cell of `g`. */
  predicate InRange(g: Grid, c: Cell) {
    0 <= c.i < |g| && 0 <= c.j < |g[c.i]|
  }

  /** `a` and `b` disagree at every cell: each is the negative of the other. */
  predicate Opposite(a: Grid, b: Grid) {
    && SameShape(a, b)
    && forall i, j :: 0 <= i < |a| && 0 <= j < |a[i]| ==> a[i][j] != b[i][j]
  }

  /** The grid `g` with the single cell `c` negated: the mutation of one
      evolution step, applied to a copy of the current grid. */
  function Flip(g: Grid, c: Cell): (r: Grid)
    requires InRange(g, c)
    ensures SameShape(r, g) && SameShape(g, r)
    ensures r[c.i][c.j] == !g[c.i][c.j]
    ensures forall i, j :: 0 <= i < |g| && 0 <= j < |g[i]| && Cell(i, j) != c ==> r[i][j] == g[i][j]
    ensures r != g
  {
    g[c.i := g[c.i][c.j := !g[c.i][c.j]]]
  }
}
