/**
  The score of a candidate grid against the target.

  The evolution loop sums the element-wise XOR of the two boolean arrays and
  divides by the number of pixels. Its documentation calls the result a
  similarity, but the XOR count is the number of cells where the grids
  DISAGREE: the score is the mismatch fraction, 0 for identical grids and 1 for
  opposite ones. This module follows the computation, not the documentation.
 */
module Scoring {
  import opened Grids

  /** The XOR of two pixels, as a count: 1 where they disagree, 0 otherwise. */
  function Differs(x: bool, y: bool): (r: nat)
    ensures r <= 1
    ensures r == 1 <==> x != y
  {
    if x != y then 1 else 0
  }

  /** Number of positions where the columns `x` and `y` disagree. */
  function ColumnMismatch(x: seq<bool>, y: seq<bool>): (r: nat)
    requires |x| == |y|
    ensures r <= |x|
  {
    if |x| == 0 then 0
    else ColumnMismatch(x[..|x| - 1], y[..|y| - 1]) + Differs(x[|x| - 1], y[|y| - 1])
  }

  /** Number of cells where `a` and `b` disagree: the sum of their XOR. */
  function Mismatch(a: Grid, b: Grid): (r: nat)
    requires SameShape(a, b)
  {
    if |a| == 0 then 0
    else Mismatch(a[..|a| - 1], b[..|b| - 1]) + ColumnMismatch(a[|a| - 1], b[|b| - 1])
  }

  /** Reference definition: the set of coordinates at which `a` and `b` differ. */
  ghost function MismatchCells(a: Grid, b: Grid): set<Cell>
    requires SameShape(a, b)
  {
    set i, j | 0 <= i < |a| && 0 <= j < |a[i]| && a[i][j] != b[i][j] :: Cell(i, j)
  }

  /** `a` and `b` both have a cell at `d` and disagree there. */
  predicate DiffersAt(a: Grid, b: Grid, d: Cell) {
    && 0 <= d.i < |a| && d.i < |b|
    && 0 <= d.j < |a[d.i]| && d.j < |b[d.i]|
    && a[d.i][d.j] != b[d.i][d.j]
  }

  lemma MismatchCellsMembers(a: Grid, b: Grid)
    requires SameShape(a, b)
    ensures forall d :: d in MismatchCells(a, b) <==> DiffersAt(a, b, d)
  {
    forall d: Cell | DiffersAt(a, b, d)
      ensures d in MismatchCells(a, b)
    {
      assert d == Cell(d.i, d.j);
    }
  }

  /** The coordinates in column `i` at which `x` and `y` differ. */
  ghost function ColumnCells(i: int, x: seq<bool>, y: seq<bool>): set<Cell>
    requires |x| == |y|
  {
    set j | 0 <= j < |x| && x[j] != y[j] :: Cell(i, j)
  }

  lemma ColumnCellsMembers(i: int, x: seq<bool>, y: seq<bool>)
    requires |x| == |y|
    ensures forall d: Cell :: d in ColumnCells(i, x, y) <==> d.i == i && 0 <= d.j < |x| && x[d.j] != y[d.j]
  {
    forall d: Cell | d.i == i && 0 <= d.j < |x| && x[d.j] != y[d.j]
      ensures d in ColumnCells(i, x, y)
    {
      assert d == Cell(i, d.j);
    }
  }

  lemma {:induction false} ColumnCellsCount(i: int, x: seq<bool>, y: seq<bool>)
    requires |x| == |y|
    ensures |ColumnCells(i, x, y)| == ColumnMismatch(x, y)
  {
    if |x| > 0 {
      var n := |x| - 1;
      ColumnCellsCount(i, x[..n], y[..n]);
      var front := ColumnCells(i, x[..n], y[..n]);
      ColumnCellsMembers(i, x, y);
      ColumnCellsMembers(i, x[..n], y[..n]);
      assert ColumnMismatch(x, y) == ColumnMismatch(x[..n], y[..n]) + Differs(x[n], y[n]);
      if x[n] != y[n] {
        assert ColumnCells(i, x, y) == front + {Cell(i, n)};
        assert Cell(i, n) !in front;
      } else {
        assert ColumnCells(i, x, y) == front;
      }
    } else {
      assert ColumnCells(i, x, y) == {};
    }
  }

  /** The recursive count agrees with the reference definition: `Mismatch`
      is the number of differing cells. */
  lemma {:induction false} MismatchCounts(a: Grid, b: Grid)
    requires SameShape(a, b)
    ensures |MismatchCells(a, b)| == Mismatch(a, b)
  {
    if |a| == 0 {
      assert MismatchCells(a, b) == {};
    } else {
      var n := |a| - 1;
      var front := MismatchCells(a[..n], b[..n]);
      var last := ColumnCells(n, a[n], b[n]);
      MismatchCounts(a[..n], b[..n]);
      ColumnCellsCount(n, a[n], b[n]);
      MismatchCellsMembers(a, b);
      MismatchCellsMembers(a[..n], b[..n]);
      ColumnCellsMembers(n, a[n], b[n]);
      assert MismatchCells(a, b) == front + last by {
        forall d ensures DiffersAt(a, b, d) <==> DiffersAt(a[..n], b[..n], d) || d in last {
        }
      }
      assert front * last == {};
    }
  }

  /** XOR is symmetric, so the count does not depend on argument order. */
  lemma {:induction false} MismatchSymmetric(a: Grid, b: Grid)
    requires SameShape(a, b)
    ensures SameShape(b, a)
    ensures Mismatch(a, b) == Mismatch(b, a)
  {
    assert MismatchCells(a, b) == MismatchCells(b, a);
    MismatchCounts(a, b);
    MismatchCounts(b, a);
  }

  /** Two grids of one shape have no mismatch exactly when they are equal. */
  lemma {:induction false} MismatchZeroIff(a: Grid, b: Grid)
    requires SameShape(a, b)
    ensures Mismatch(a, b) == 0 <==> a == b
  {
    MismatchCounts(a, b);
    var cells := MismatchCells(a, b);
    if Mismatch(a, b) == 0 {
      assert cells == {};
      forall i | 0 <= i < |a|
        ensures a[i] == b[i]
      {
        forall j | 0 <= j < |a[i]|
          ensures a[i][j] == b[i][j]
        {
          assert Cell(i, j) !in cells;
        }
      }
    }
    if a == b {
      assert MismatchCells(a, b) == {};
    }
  }

  /** Flipping cell `c` toggles exactly `c` in the set of differing cells. */
  lemma FlipCells(a: Grid, b: Grid, c: Cell)
    requires SameShape(a, b) && InRange(a, c)
    ensures SameShape(Flip(a, c), b)
    ensures a[c.i][c.j] == b[c.i][c.j] ==> MismatchCells(Flip(a, c), b) == MismatchCells(a, b) + {c}
    ensures a[c.i][c.j] != b[c.i][c.j] ==> MismatchCells(Flip(a, c), b) == MismatchCells(a, b) - {c}
  {
    var f := Flip(a, c);
    MismatchCellsMembers(a, b);
    MismatchCellsMembers(f, b);
    forall d: Cell
      ensures DiffersAt(f, b, d) <==> (if d == c then !DiffersAt(a, b, d) else DiffersAt(a, b, d))
    {
      if d != c && 0 <= d.i < |a| && 0 <= d.j < |a[d.i]| {
        assert f[d.i][d.j] == a[d.i][d.j];
      }
    }
  }

  /** Flipping one cell moves the count by exactly one: up when the cell agreed
      with the other grid, down when it disagreed. */
  lemma FlipMismatch(a: Grid, b: Grid, c: Cell)
    requires SameShape(a, b) && InRange(a, c)
    ensures SameShape(Flip(a, c), b)
    ensures a[c.i][c.j] == b[c.i][c.j] ==> Mismatch(Flip(a, c), b) == Mismatch(a, b) + 1
    ensures a[c.i][c.j] != b[c.i][c.j] ==> Mismatch(Flip(a, c), b) == Mismatch(a, b) - 1
  {
    FlipCells(a, b, c);
    MismatchCounts(a, b);
    MismatchCounts(Flip(a, c), b);
    MismatchCellsMembers(a, b);
    assert c in MismatchCells(a, b) <==> a[c.i][c.j] != b[c.i][c.j];
  }

  /** The columns `x` and `y` disagree at every position. */
  predicate ColumnOpposite(x: seq<bool>, y: seq<bool>) {
    |x| == |y| && forall j :: 0 <= j < |x| ==> x[j] != y[j]
  }

  /** A column that disagrees everywhere has the full count, and only such a column. */
  lemma {:induction false} ColumnMismatchFull(x: seq<bool>, y: seq<bool>)
    requires |x| == |y|
    ensures ColumnMismatch(x, y) == |x| <==> ColumnOpposite(x, y)
  {
    if |x| > 0 {
      var n := |x| - 1;
      ColumnMismatchFull(x[..n], y[..n]);
      if ColumnMismatch(x, y) == |x| {
        forall j | 0 <= j < |x|
          ensures x[j] != y[j]
        {
          if j < n {
            assert x[..n][j] != y[..n][j];
          }
        }
      }
      if forall j :: 0 <= j < |x| ==> x[j] != y[j] {
        assert forall j :: 0 <= j < n ==> x[..n][j] != y[..n][j];
      }
    }
  }

  /** The count never exceeds the number of cells of a width × height grid. */
  lemma {:induction false} MismatchBound(a: Grid, b: Grid, width: nat, height: nat)
    requires IsGrid(a, width, height) && SameShape(a, b)
    ensures Mismatch(a, b) <= width * height
  {
    if width > 0 {
      var n := width - 1;
      MismatchBound(a[..n], b[..n], n, height);
      assert n * height + height == width * height;
    }
  }

  /** Two grids are opposite exactly when all but their last columns are,
      and their last columns disagree everywhere. */
  lemma OppositeSplit(a: Grid, b: Grid)
    requires SameShape(a, b) && |a| > 0
    ensures Opposite(a, b) <==>
      Opposite(a[..|a| - 1], b[..|b| - 1]) && ColumnOpposite(a[|a| - 1], b[|b| - 1])
  {
    var n := |a| - 1;
    if Opposite(a[..n], b[..n]) && ColumnOpposite(a[n], b[n]) {
      forall i, j | 0 <= i < |a| && 0 <= j < |a[i]|
        ensures a[i][j] != b[i][j]
      {
        if i < n {
          assert a[..n][i][j] != b[..n][i][j];
        }
      }
    }
  }

  /** The count reaches width × height exactly when the grids are opposite. */
  lemma {:induction false} MismatchFull(a: Grid, b: Grid, width: nat, height: nat)
    requires IsGrid(a, width, height) && SameShape(a, b)
    ensures Mismatch(a, b) == width * height <==> Opposite(a, b)
  {
    if width > 0 {
      var n := width - 1;
      var front, last := Mismatch(a[..n], b[..n]), ColumnMismatch(a[n], b[n]);
      var frontCells := n * height;
      assert width * height == frontCells + height;
      assert Mismatch(a, b) == front + last;
      MismatchFull(a[..n], b[..n], n, height);
      MismatchBound(a[..n], b[..n], n, height);
      ColumnMismatchFull(a[n], b[n]);
      OppositeSplit(a, b);
      assert front <= frontCells && last <= height;
    }
  }

  /** The score the evolution loop computes: the fraction of the `imgSize`
      cells where `img` and `target` disagree (0 when they are equal). */
  function Fitness(img: Grid, target: Grid, imgSize: nat): (r: real)
    requires SameShape(img, target)
    requires imgSize > 0
    ensures 0.0 <= r
    ensures r == 0.0 <==> img == target
  {
    MismatchZeroIff(img, target);
    (Mismatch(img, target) as real) / (imgSize as real)
  }

  /** The score is the fraction of differing cells: times `imgSize`, it is
      the number of coordinates at which the grids disagree. */
  lemma FitnessCountsCells(img: Grid, target: Grid, imgSize: nat)
    requires SameShape(img, target) && imgSize > 0
    ensures Fitness(img, target, imgSize) * (imgSize as real) == |MismatchCells(img, target)| as real
  {
    MismatchCounts(img, target);
  }

  /** Dividing by one positive size keeps order and equality. */
  lemma RatioOrder(x: real, y: real, n: real)
    requires n > 0.0
    ensures x / n < y / n <==> x < y
    ensures x / n == y / n <==> x == y
    ensures n / n == 1.0
  {
    var one := n / n;
    assert one * n == n;
    assert (one - 1.0) * n == 0.0;
    var p, q := x / n, y / n;
    assert p * n == x && q * n == y;
    assert (q - p) * n == y - x;
    if p < q { assert (q - p) * n > 0.0; }
    if x < y { assert (q - p) * n > 0.0; }
  }

  /** Scores for one size compare as the mismatch counts do. */
  lemma FitnessOrder(a: Grid, b: Grid, target: Grid, imgSize: nat)
    requires SameShape(a, target) && SameShape(b, target) && imgSize > 0
    ensures Fitness(a, target, imgSize) < Fitness(b, target, imgSize) <==> Mismatch(a, target) < Mismatch(b, target)
    ensures Fitness(a, target, imgSize) == Fitness(b, target, imgSize) <==> Mismatch(a, target) == Mismatch(b, target)
  {
    RatioOrder(Mismatch(a, target) as real, Mismatch(b, target) as real, imgSize as real);
  }

  /** The score is symmetric in its two grids. */
  lemma FitnessSymmetric(a: Grid, b: Grid, imgSize: nat)
    requires SameShape(a, b) && imgSize > 0
    ensures SameShape(b, a)
    ensures Fitness(a, b, imgSize) == Fitness(b, a, imgSize)
  {
    MismatchSymmetric(a, b);
  }

  /** With `imgSize` the true pixel count of a non-empty grid, the score lies
      in [0, 1], and it is 1 exactly for opposite grids. */
  lemma FitnessUnitInterval(a: Grid, b: Grid, width: nat, height: nat)
    requires IsGrid(a, width, height) && SameShape(a, b)
    requires width >= 1 && height >= 1
    ensures width * height > 0
    ensures 0.0 <= Fitness(a, b, width * height) <= 1.0
    ensures Fitness(a, b, width * height) == 1.0 <==> Opposite(a, b)
  {
    var n := width * height;
    assert n > 0 by {
      assert n >= width;
    }
    MismatchBound(a, b, width, height);
    MismatchFull(a, b, width, height);
    var mismatch := Mismatch(a, b);
    var x, m := mismatch as real, n as real;
    assert Fitness(a, b, n) == x / m;
    RatioOrder(x, m, m);
    assert x <= m;
    assert x == m <==> mismatch == n;
  }
}
