/**
  Two concrete runs on a 2 × 2 all-true target, with the four cells drawn in
  the order (0,0), (0,1), (1,0), (1,1) and progress output switched off.
 */
module Scenario {
  import opened Grids
  import opened Scoring
  import opened Evolution

  const AllTrue: Grid := [[true, true], [true, true]]
  const AllFalse: Grid := [[false, false], [false, false]]
  const Order: seq<Cell> := [Cell(0, 0), Cell(0, 1), Cell(1, 0), Cell(1, 1)]

  /** On 2 × 2 grids the mismatch is the sum over the four cells. */
  lemma Mismatch2x2(a: Grid, b: Grid)
    requires IsGrid(a, 2, 2) && IsGrid(b, 2, 2)
    ensures Mismatch(a, b) == Differs(a[0][0], b[0][0]) + Differs(a[0][1], b[0][1])
                            + Differs(a[1][0], b[1][0]) + Differs(a[1][1], b[1][1])
  {
    Column2(a[0], b[0]);
    Column2(a[1], b[1]);
    assert a[..1][..0] == [] && b[..1][..0] == [];
    assert a[..1][0] == a[0] && b[..1][0] == b[0];
    assert Mismatch(a[..1], b[..1]) == ColumnMismatch(a[0], b[0]);
    assert Mismatch(a, b) == Mismatch(a[..1], b[..1]) + ColumnMismatch(a[1], b[1]);
  }

  lemma Column2(x: seq<bool>, y: seq<bool>)
    requires |x| == 2 && |y| == 2
    ensures ColumnMismatch(x, y) == Differs(x[0], y[0]) + Differs(x[1], y[1])
  {
    assert x[..1][..0] == [] && y[..1][..0] == [];
    assert x[..1][0] == x[0] && y[..1][0] == y[0];
    assert ColumnMismatch(x[..1], y[..1]) == Differs(x[0], y[0]);
  }

  /** A flip of a 2 × 2 grid equals `expected` when both columns do. */
  lemma FlipEquals(g: Grid, c: Cell, expected: Grid)
    requires IsGrid(g, 2, 2) && InRange(g, c) && IsGrid(expected, 2, 2)
    requires forall i, j :: 0 <= i < 2 && 0 <= j < 2 ==>
      expected[i][j] == (if Cell(i, j) == c then !g[i][j] else g[i][j])
    ensures Flip(g, c) == expected
  {
    var f := Flip(g, c);
    assert f[0] == expected[0];
    assert f[1] == expected[1];
  }

  const G1: Grid := [[false, true], [true, true]]
  const G2: Grid := [[false, false], [true, true]]
  const G3: Grid := [[false, false], [false, true]]

  lemma TargetStep1()
    ensures Step(Init(AllTrue), AllTrue, 4, Order[0]) == State(G1, 0.25, 1)
  {
    Mismatch2x2(G1, AllTrue);
    FlipEquals(AllTrue, Order[0], G1);
  }

  lemma TargetStep2()
    ensures Step(State(G1, 0.25, 1), AllTrue, 4, Order[1]) == State(G2, 0.5, 2)
  {
    Mismatch2x2(G2, AllTrue);
    FlipEquals(G1, Order[1], G2);
  }

  lemma TargetStep3()
    ensures Step(State(G2, 0.5, 2), AllTrue, 4, Order[2]) == State(G3, 0.75, 3)
  {
    Mismatch2x2(G3, AllTrue);
    FlipEquals(G2, Order[2], G3);
  }

  lemma TargetStep4()
    ensures Step(State(G3, 0.75, 3), AllTrue, 4, Order[3]) == State(AllFalse, 1.0, 4)
  {
    Mismatch2x2(AllFalse, AllTrue);
    FlipEquals(G3, Order[3], AllFalse);
  }

  /** Starting from the target itself and asking for a score of 1.0, every
      flip raises the mismatch by one and is kept, so the run stops after
      exactly four iterations holding the negative of the target. */
  lemma FromTargetReachesNegative()
    ensures Evolve(AllTrue, 1.0, -1, AllTrue, Order)
         == Success(Outcome(true, State(AllFalse, 1.0, 4), []))
  {
    TargetRun();
    assert |AllTrue| * |AllTrue[0]| == 4;
  }

  lemma TargetRun()
    ensures Run(Init(AllTrue), AllTrue, 4, 1.0, -1, Order) == Outcome(true, State(AllFalse, 1.0, 4), [])
  {
    TargetStep1();
    TargetTail();
  }

  /** The last three iterations of the run from the target: all kept. */
  lemma TargetTail()
    ensures Run(State(G1, 0.25, 1), AllTrue, 4, 1.0, -1, Order[1..]) == Outcome(true, State(AllFalse, 1.0, 4), [])
  {
    TargetStep2();
    TargetStep3();
    TargetStep4();
    var s4 := State(AllFalse, 1.0, 4);
    assert Run(s4, AllTrue, 4, 1.0, -1, Order[4..]) == Outcome(true, s4, []);
    assert Run(State(G3, 0.75, 3), AllTrue, 4, 1.0, -1, Order[3..]) == Outcome(true, s4, []);
    assert Run(State(G2, 0.5, 2), AllTrue, 4, 1.0, -1, Order[2..]) == Outcome(true, s4, []);
  }

  const H1: Grid := [[true, false], [false, false]]
  const H2: Grid := [[true, true], [false, false]]
  const H3: Grid := [[true, false], [true, false]]
  const H4: Grid := [[true, false], [false, true]]

  lemma NegativeStep1()
    ensures Step(Init(AllFalse), AllTrue, 4, Order[0]) == State(H1, 0.75, 1)
  {
    Mismatch2x2(H1, AllTrue);
    FlipEquals(AllFalse, Order[0], H1);
  }

  lemma NegativeStep2()
    ensures Step(State(H1, 0.75, 1), AllTrue, 4, Order[1]) == State(H1, 0.75, 2)
  {
    Mismatch2x2(H2, AllTrue);
    FlipEquals(H1, Order[1], H2);
  }

  lemma NegativeStep3()
    ensures Step(State(H1, 0.75, 2), AllTrue, 4, Order[2]) == State(H1, 0.75, 3)
  {
    Mismatch2x2(H3, AllTrue);
    FlipEquals(H1, Order[2], H3);
  }

  lemma NegativeStep4()
    ensures Step(State(H1, 0.75, 3), AllTrue, 4, Order[3]) == State(H1, 0.75, 4)
  {
    Mismatch2x2(H4, AllTrue);
    FlipEquals(H1, Order[3], H4);
  }

  /** The negative of the target already has the full score 1.0. */
  lemma NegativeHasFullScore()
    ensures Fitness(AllFalse, AllTrue, 4) == 1.0
  {
    Mismatch2x2(AllFalse, AllTrue);
  }

  /** Starting from the negative of the target, whose true score is already
      1.0, the cached 0.0 lets the first flip be kept although it lowers the
      true score to 0.75; each of the three remaining draws would lower it
      and is refused, so the draws run out with the score stuck at 0.75. */
  lemma FromNegativeLosesFullScore()
    ensures Evolve(AllTrue, 1.0, -1, AllFalse, Order)
         == Success(Outcome(false, State(H1, 0.75, 4), []))
  {
    NegativeRun();
    assert |AllTrue| * |AllTrue[0]| == 4;
  }

  lemma NegativeRun()
    ensures Run(Init(AllFalse), AllTrue, 4, 1.0, -1, Order) == Outcome(false, State(H1, 0.75, 4), [])
  {
    NegativeStep1();
    NegativeTail();
  }

  /** The last three iterations of the run from the negative: all refused. */
  lemma NegativeTail()
    ensures Run(State(H1, 0.75, 1), AllTrue, 4, 1.0, -1, Order[1..]) == Outcome(false, State(H1, 0.75, 4), [])
  {
    NegativeStep2();
    NegativeStep3();
    NegativeStep4();
    var s4 := State(H1, 0.75, 4);
    assert Run(s4, AllTrue, 4, 1.0, -1, Order[4..]) == Outcome(false, s4, []);
    assert Run(State(H1, 0.75, 3), AllTrue, 4, 1.0, -1, Order[3..]) == Outcome(false, s4, []);
    assert Run(State(H1, 0.75, 2), AllTrue, 4, 1.0, -1, Order[2..]) == Outcome(false, s4, []);
  }
}
