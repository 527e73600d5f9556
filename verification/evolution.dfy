/**
  The hill climber: starting from a random grid, repeatedly flip one random
  cell of a copy, rescore it, keep it on strict improvement, count the
  iteration, and stop once the kept score reaches the target score.

  The two sources of randomness are parameters: `init` is the random grid the
  run starts from, and `draws` lists the cells chosen by the successive
  iterations. A run that needs more iterations than `draws` supplies stops
  with `reached == false`; the list thus bounds the otherwise unbounded loop.
 */
module Evolution {
  import opened Grids
  import opened Scoring

  /** The loop variables: the current grid, its cached score, the iteration counter. */
  datatype State = State(img: Grid, imgFitness: real, k: nat)

  /** One progress output: the score printed and the grid written as a
      snapshot after iteration `k`. */
  datatype Report = Report(k: nat, fitness: real, snapshot: Grid)

  /** Where a run stopped, and the progress outputs it produced on the way. */
  datatype Outcome = Outcome(reached: bool, state: State, reports: seq<Report>)

  /** The ways a run fails before returning a grid. */
  datatype Error =
    | EmptyTarget        // the target has no column, so its first column cannot be read
    | EmptyDrawRange     // the columns are empty, so no row index can be drawn
    | ZeroPrintInterval  // the progress test takes the counter modulo zero

  datatype Result<T> = Success(value: T) | Failure(error: Error)

  /** Every drawn cell lies inside the target. */
  predicate AllInRange(target: Grid, draws: seq<Cell>) {
    forall c :: c in draws ==> InRange(target, c)
  }

  /** The state before the first iteration: the random grid, a cached score
      of 0.0 (not the grid's true score), and a zero counter. */
  function Init(init: Grid): (r: State) {
    State(init, 0.0, 0)
  }

  /** One loop iteration: flip cell `c` of a copy of the grid, score the copy,
      keep it only when its score is strictly greater than the cached one,
      and count the iteration. */
  function Step(s: State, target: Grid, imgSize: nat, c: Cell): (r: State)
    requires SameShape(s.img, target) && InRange(target, c) && imgSize > 0
    ensures InRange(s.img, c)
    ensures r.k == s.k + 1
    ensures SameShape(r.img, target)
    ensures s.imgFitness <= r.imgFitness
    ensures r.img != s.img <==> s.imgFitness < r.imgFitness
    ensures r.img == s.img || r.img == Flip(s.img, c)
    ensures r.img != s.img ==> r.imgFitness == Fitness(r.img, target, imgSize)
  {
    var candidate := Flip(s.img, c);
    var newFitness := Fitness(candidate, target, imgSize);
    if newFitness > s.imgFitness then State(candidate, newFitness, s.k + 1)
    else State(s.img, s.imgFitness, s.k + 1)
  }

  /** The acceptance rule of an iteration, both ways: the flipped candidate
      replaces the grid, with its score as the new cache, exactly when that
      score is strictly greater than the cached one. */
  lemma StepKeepsHigher(s: State, target: Grid, imgSize: nat, c: Cell)
    requires SameShape(s.img, target) && InRange(target, c) && imgSize > 0
    ensures InRange(s.img, c) && SameShape(Flip(s.img, c), target)
    ensures var r := Step(s, target, imgSize, c);
      var score := Fitness(Flip(s.img, c), target, imgSize);
      && (score > s.imgFitness ==> r == State(Flip(s.img, c), score, s.k + 1))
      && (score <= s.imgFitness ==> r == State(s.img, s.imgFitness, s.k + 1))
  {
  }

  /** The cached score is the true score of the current grid. */
  predicate Consistent(s: State, target: Grid, imgSize: nat) {
    && SameShape(s.img, target)
    && imgSize > 0
    && s.imgFitness == Fitness(s.img, target, imgSize)
  }

  /** The cache invariant of the loop: either nothing has been accepted yet
      (the grid is still `init` and the cache still 0.0), or the cached score
      is the true score. */
  predicate CacheInvariant(s: State, init: Grid, target: Grid, imgSize: nat) {
    && SameShape(s.img, target)
    && imgSize > 0
    && ((s.img == init && s.imgFitness == 0.0) || Consistent(s, target, imgSize))
  }

  /** Once the cache is exact, a flip is kept exactly when it turns an agreeing
      cell into a disagreeing one, and a kept flip raises the count by one. */
  lemma ConsistentStepAccepts(s: State, target: Grid, imgSize: nat, c: Cell)
    requires Consistent(s, target, imgSize) && InRange(target, c)
    ensures var r := Step(s, target, imgSize, c);
      && (r.img != s.img <==> s.img[c.i][c.j] == target[c.i][c.j])
      && (r.img != s.img ==> Mismatch(r.img, target) == Mismatch(s.img, target) + 1)
      && Consistent(r, target, imgSize)
  {
    FlipMismatch(s.img, target, c);
    FitnessOrder(s.img, Flip(s.img, c), target, imgSize);
  }

  /** While the cache still holds its initial 0.0, any candidate that is not
      the target itself is kept, even one whose true score is lower than the
      current grid's. */
  lemma FirstStepAcceptsAnyMismatch(init: Grid, target: Grid, imgSize: nat, c: Cell)
    requires SameShape(init, target) && InRange(target, c) && imgSize > 0
    ensures InRange(init, c)
    ensures Step(Init(init), target, imgSize, c).img != init <==> Flip(init, c) != target
    ensures init[c.i][c.j] != target[c.i][c.j] && Mismatch(init, target) >= 2 ==>
      && Step(Init(init), target, imgSize, c).img == Flip(init, c)
      && Mismatch(Flip(init, c), target) < Mismatch(init, target)
  {
    FlipMismatch(init, target, c);
    MismatchZeroIff(Flip(init, c), target);
  }

  /** The state after running the iterations for `draws` with no stopping test. */
  function Steps(s: State, target: Grid, imgSize: nat, draws: seq<Cell>): (r: State)
    requires SameShape(s.img, target) && imgSize > 0 && AllInRange(target, draws)
    ensures r.k == s.k + |draws|
    ensures SameShape(r.img, target)
    ensures s.imgFitness <= r.imgFitness
    decreases |draws|
  {
    if |draws| == 0 then s
    else Steps(Step(s, target, imgSize, draws[0]), target, imgSize, draws[1..])
  }

  /** The loop from state `s`: test the score against `targetFitness`, and
      while it is below, run one iteration with the next drawn cell and emit a
      progress report when the counter is a multiple of `printInterval`. */
  function Run(s: State, target: Grid, imgSize: nat, targetFitness: real, printInterval: int,
               draws: seq<Cell>): (r: Outcome)
    requires SameShape(s.img, target) && imgSize > 0 && printInterval != 0
    requires AllInRange(target, draws)
    ensures r.reached <==> targetFitness <= r.state.imgFitness
    ensures SameShape(r.state.img, target)
    ensures s.imgFitness <= r.state.imgFitness
    ensures s.k <= r.state.k <= s.k + |draws|
    ensures !r.reached ==> r.state.k == s.k + |draws|
    ensures targetFitness <= s.imgFitness ==> r == Outcome(true, s, [])
    decreases |draws|
  {
    if targetFitness <= s.imgFitness then Outcome(true, s, [])
    else if |draws| == 0 then Outcome(false, s, [])
    else
      var next := Step(s, target, imgSize, draws[0]);
      var rest := Run(next, target, imgSize, targetFitness, printInterval, draws[1..]);
      var due := printInterval >= 0 && next.k % printInterval == 0;
      rest.(reports := (if due then [Report(next.k, next.imgFitness, next.img)] else []) + rest.reports)
  }

  /** The loop's final state is the state after its first `m` iterations,
      where `m` is the number of iterations it counted. */
  lemma {:induction false} RunIsSteps(s: State, target: Grid, imgSize: nat, targetFitness: real,
                                      printInterval: int, draws: seq<Cell>)
    requires SameShape(s.img, target) && imgSize > 0 && printInterval != 0
    requires AllInRange(target, draws)
    ensures var r := Run(s, target, imgSize, targetFitness, printInterval, draws);
      r.state == Steps(s, target, imgSize, draws[..r.state.k - s.k])
    decreases |draws|
  {
    var r := Run(s, target, imgSize, targetFitness, printInterval, draws);
    var m := r.state.k - s.k;
    if targetFitness <= s.imgFitness || |draws| == 0 {
      assert draws[..m] == [];
    } else {
      var next := Step(s, target, imgSize, draws[0]);
      var rest := Run(next, target, imgSize, targetFitness, printInterval, draws[1..]);
      RunUnfoldReports(s, target, imgSize, targetFitness, printInterval, draws);
      RunIsSteps(next, target, imgSize, targetFitness, printInterval, draws[1..]);
      StepsUnfold(s, target, imgSize, draws, m);
    }
  }

  /** The loop stops at the FIRST iteration count whose score reaches the
      target: no shorter run of the same draws left the score at or above it. */
  lemma {:induction false} RunStopsAtFirstHit(s: State, target: Grid, imgSize: nat, targetFitness: real,
                                              printInterval: int, draws: seq<Cell>, p: nat)
    requires SameShape(s.img, target) && imgSize > 0 && printInterval != 0
    requires AllInRange(target, draws)
    ensures p < Run(s, target, imgSize, targetFitness, printInterval, draws).state.k - s.k ==>
      Steps(s, target, imgSize, draws[..p]).imgFitness < targetFitness
    decreases |draws|
  {
    if p == 0 {
      assert draws[..p] == [];
    } else if p < Run(s, target, imgSize, targetFitness, printInterval, draws).state.k - s.k {
      var next := Step(s, target, imgSize, draws[0]);
      var rest := Run(next, target, imgSize, targetFitness, printInterval, draws[1..]);
      RunUnfoldReports(s, target, imgSize, targetFitness, printInterval, draws);
      assert p - 1 < rest.state.k - next.k;
      RunStopsAtFirstHit(next, target, imgSize, targetFitness, printInterval, draws[1..], p - 1);
      StepsUnfold(s, target, imgSize, draws, p);
    }
  }

  /** Running a non-empty prefix is one step followed by the rest of it. */
  lemma StepsUnfold(s: State, target: Grid, imgSize: nat, draws: seq<Cell>, p: nat)
    requires SameShape(s.img, target) && imgSize > 0 && AllInRange(target, draws)
    requires 0 < p <= |draws|
    ensures Steps(s, target, imgSize, draws[..p])
         == Steps(Step(s, target, imgSize, draws[0]), target, imgSize, draws[1..][..p - 1])
  {
    assert draws[..p][0] == draws[0];
    assert draws[..p][1..] == draws[1..][..p - 1];
  }

  /** The loop keeps the cache invariant from start to finish. */
  lemma {:induction false} RunKeepsCache(s: State, init: Grid, target: Grid, imgSize: nat,
                                         targetFitness: real, printInterval: int, draws: seq<Cell>)
    requires CacheInvariant(s, init, target, imgSize) && printInterval != 0
    requires AllInRange(target, draws)
    ensures CacheInvariant(Run(s, target, imgSize, targetFitness, printInterval, draws).state, init, target, imgSize)
    decreases |draws|
  {
    if targetFitness > s.imgFitness && |draws| > 0 {
      var next := Step(s, target, imgSize, draws[0]);
      assert CacheInvariant(next, init, target, imgSize);
      RunKeepsCache(next, init, target, imgSize, targetFitness, printInterval, draws[1..]);
    }
  }

  /** Counter arithmetic: one more iteration adds one multiple of `p` exactly
      when the new count is such a multiple. */
  lemma DivStep(k: nat, p: int)
    requires p > 0
    ensures (k + 1) / p == k / p + (if (k + 1) % p == 0 then 1 else 0)
  {
    var q, rem := k / p, k % p;
    if rem + 1 < p {
      DivUnique(k + 1, p, q, rem + 1);
    } else {
      DivUnique(k + 1, p, q + 1, 0);
    }
  }

  lemma DivUnique(n: int, p: int, q: int, rem: int)
    requires p > 0 && 0 <= rem < p && n == p * q + rem
    ensures n / p == q && n % p == rem
  {
    var q', r' := n / p, n % p;
    assert n == p * q' + r' && 0 <= r' < p;
    assert p * (q - q') == r' - rem;
    assert q - q' >= 1 ==> p * (q - q') >= p;
    assert q' - q >= 1 ==> p * (q' - q) >= p;
  }

  /** Every report lies after iteration `lo` and at or before `hi`, at a
      multiple of the interval, with a score between `lowFit` and `highFit`. */
  predicate ReportsWithin(reports: seq<Report>, lo: nat, hi: nat, lowFit: real, highFit: real,
                          printInterval: int)
    requires printInterval != 0
  {
    forall x :: 0 <= x < |reports| ==>
      && lo < reports[x].k <= hi
      && reports[x].k % printInterval == 0
      && lowFit <= reports[x].fitness <= highFit
  }

  /** Reports come in increasing iteration order with non-decreasing scores. */
  predicate ReportsOrdered(reports: seq<Report>) {
    forall x, y :: 0 <= x < y < |reports| ==>
      reports[x].k < reports[y].k && reports[x].fitness <= reports[y].fitness
  }

  lemma ReportsJoin(front: seq<Report>, back: seq<Report>, lo: nat, mid: nat, hi: nat,
                    lowFit: real, midFit: real, highFit: real, printInterval: int)
    requires printInterval != 0 && |front| <= 1
    requires lo <= mid <= hi && lowFit <= midFit <= highFit
    requires ReportsWithin(front, lo, mid, lowFit, midFit, printInterval)
    requires ReportsWithin(back, mid, hi, midFit, highFit, printInterval)
    requires ReportsOrdered(back)
    ensures ReportsWithin(front + back, lo, hi, lowFit, highFit, printInterval)
    ensures ReportsOrdered(front + back)
  {
    var all := front + back;
    forall x | 0 <= x < |all|
      ensures lo < all[x].k <= hi && all[x].k % printInterval == 0 && lowFit <= all[x].fitness <= highFit
    {
      if x >= |front| {
        assert all[x] == back[x - |front|];
      }
    }
    forall x, y | 0 <= x < y < |all|
      ensures all[x].k < all[y].k && all[x].fitness <= all[y].fitness
    {
      assert all[y] == back[y - |front|];
      if x >= |front| {
        assert all[x] == back[x - |front|];
      }
    }
  }

  /** One loop iteration prepends its own progress report, if it is due, to
      the reports of the rest of the loop. */
  lemma RunUnfoldReports(s: State, target: Grid, imgSize: nat, targetFitness: real, printInterval: int,
                         draws: seq<Cell>)
    requires SameShape(s.img, target) && imgSize > 0 && printInterval != 0
    requires AllInRange(target, draws)
    requires s.imgFitness < targetFitness && |draws| > 0
    ensures var next := Step(s, target, imgSize, draws[0]);
      var rest := Run(next, target, imgSize, targetFitness, printInterval, draws[1..]);
      var r := Run(s, target, imgSize, targetFitness, printInterval, draws);
      && r.state == rest.state
      && r.reports == (if printInterval >= 0 && next.k % printInterval == 0
                       then [Report(next.k, next.imgFitness, next.img)] else []) + rest.reports
  {
  }

  /** Progress cadence, how many: with a negative interval nothing is
      reported; with a positive one, one report per multiple of the interval
      among the iteration counts the loop passes through. */
  lemma {:induction false} RunReportCount(s: State, target: Grid, imgSize: nat, targetFitness: real,
                                          printInterval: int, draws: seq<Cell>)
    requires SameShape(s.img, target) && imgSize > 0 && printInterval != 0
    requires AllInRange(target, draws)
    ensures printInterval < 0 ==> Run(s, target, imgSize, targetFitness, printInterval, draws).reports == []
    ensures printInterval > 0 ==> var r := Run(s, target, imgSize, targetFitness, printInterval, draws);
      |r.reports| == r.state.k / printInterval - s.k / printInterval
    decreases |draws|
  {
    if targetFitness > s.imgFitness && |draws| > 0 {
      var next := Step(s, target, imgSize, draws[0]);
      RunUnfoldReports(s, target, imgSize, targetFitness, printInterval, draws);
      RunReportCount(next, target, imgSize, targetFitness, printInterval, draws[1..]);
      if printInterval > 0 {
        DivStep(s.k, printInterval);
      }
    }
  }

  /** Progress cadence, when: every report comes after an iteration whose
      counter is a multiple of the interval, in increasing order, with a score
      between the start and end scores; the scores never decrease. */
  lemma {:induction false} RunReportOrder(s: State, target: Grid, imgSize: nat, targetFitness: real,
                                          printInterval: int, draws: seq<Cell>)
    requires SameShape(s.img, target) && imgSize > 0 && printInterval != 0
    requires AllInRange(target, draws)
    ensures var r := Run(s, target, imgSize, targetFitness, printInterval, draws);
      ReportsWithin(r.reports, s.k, r.state.k, s.imgFitness, r.state.imgFitness, printInterval)
    ensures ReportsOrdered(Run(s, target, imgSize, targetFitness, printInterval, draws).reports)
    decreases |draws|
  {
    if targetFitness > s.imgFitness && |draws| > 0 {
      var r := Run(s, target, imgSize, targetFitness, printInterval, draws);
      var next := Step(s, target, imgSize, draws[0]);
      var rest := Run(next, target, imgSize, targetFitness, printInterval, draws[1..]);
      RunUnfoldReports(s, target, imgSize, targetFitness, printInterval, draws);
      RunReportOrder(next, target, imgSize, targetFitness, printInterval, draws[1..]);
      var head := if printInterval >= 0 && next.k % printInterval == 0
                  then [Report(next.k, next.imgFitness, next.img)] else [];
      assert ReportsWithin(head, s.k, next.k, s.imgFitness, next.imgFitness, printInterval);
      ReportsJoin(head, rest.reports, s.k, next.k, r.state.k, s.imgFitness, next.imgFitness,
                  r.state.imgFitness, printInterval);
    }
  }

  /** The report the loop would make after the first `p` draws: the counter,
      cached score and grid of the state `Steps` reaches on that prefix. */
  function SnapshotAt(s: State, target: Grid, imgSize: nat, draws: seq<Cell>, p: nat): (r: Report)
    requires SameShape(s.img, target) && imgSize > 0 && AllInRange(target, draws)
    requires p <= |draws|
    ensures r.k == s.k + p
    ensures SameShape(r.snapshot, target)
  {
    var t := Steps(s, target, imgSize, draws[..p]);
    Report(t.k, t.imgFitness, t.img)
  }

  /** `report` lies within the draws and is the snapshot of the state after
      as many iterations as its counter says. */
  predicate IsSnapshot(report: Report, s: State, target: Grid, imgSize: nat, draws: seq<Cell>)
    requires SameShape(s.img, target) && imgSize > 0 && AllInRange(target, draws)
  {
    && s.k < report.k <= s.k + |draws|
    && report == SnapshotAt(s, target, imgSize, draws, report.k - s.k)
  }

  /** Every report is a snapshot of the run it comes from. */
  predicate ReportsAreSnapshots(reports: seq<Report>, s: State, target: Grid, imgSize: nat, draws: seq<Cell>)
    requires SameShape(s.img, target) && imgSize > 0 && AllInRange(target, draws)
  {
    forall x :: 0 <= x < |reports| ==> IsSnapshot(reports[x], s, target, imgSize, draws)
  }

  /** The first iteration's snapshot is the state after one step. */
  lemma SnapshotFirst(s: State, target: Grid, imgSize: nat, draws: seq<Cell>)
    requires SameShape(s.img, target) && imgSize > 0 && AllInRange(target, draws) && |draws| > 0
    ensures var next := Step(s, target, imgSize, draws[0]);
      SnapshotAt(s, target, imgSize, draws, 1) == Report(next.k, next.imgFitness, next.img)
  {
    StepsUnfold(s, target, imgSize, draws, 1);
    assert draws[1..][..0] == [];
  }

  /** Snapshots taken after the first step are snapshots of the whole run. */
  lemma SnapshotsShift(reports: seq<Report>, s: State, target: Grid, imgSize: nat, draws: seq<Cell>)
    requires SameShape(s.img, target) && imgSize > 0 && AllInRange(target, draws) && |draws| > 0
    requires ReportsAreSnapshots(reports, Step(s, target, imgSize, draws[0]), target, imgSize, draws[1..])
    ensures ReportsAreSnapshots(reports, s, target, imgSize, draws)
  {
    var next := Step(s, target, imgSize, draws[0]);
    forall x | 0 <= x < |reports|
      ensures IsSnapshot(reports[x], s, target, imgSize, draws)
    {
      assert IsSnapshot(reports[x], next, target, imgSize, draws[1..]);
      var p := reports[x].k - s.k;
      StepsUnfold(s, target, imgSize, draws, p);
      assert reports[x] == SnapshotAt(next, target, imgSize, draws[1..], p - 1);
    }
  }

  lemma SnapshotsJoin(front: seq<Report>, back: seq<Report>, s: State, target: Grid, imgSize: nat,
                      draws: seq<Cell>)
    requires SameShape(s.img, target) && imgSize > 0 && AllInRange(target, draws)
    requires ReportsAreSnapshots(front, s, target, imgSize, draws)
    requires ReportsAreSnapshots(back, s, target, imgSize, draws)
    ensures ReportsAreSnapshots(front + back, s, target, imgSize, draws)
  {
    var all := front + back;
    forall x | 0 <= x < |all|
      ensures IsSnapshot(all[x], s, target, imgSize, draws)
    {
      if x < |front| {
        assert all[x] == front[x];
      } else {
        assert all[x] == back[x - |front|];
      }
    }
  }

  /** Progress contents: each report carries the cached score and a snapshot
      of the grid exactly as they stood after the iteration it reports. */
  lemma {:induction false} RunReportsAreSnapshots(s: State, target: Grid, imgSize: nat, targetFitness: real,
                                                  printInterval: int, draws: seq<Cell>)
    requires SameShape(s.img, target) && imgSize > 0 && printInterval != 0
    requires AllInRange(target, draws)
    ensures ReportsAreSnapshots(Run(s, target, imgSize, targetFitness, printInterval, draws).reports,
                                s, target, imgSize, draws)
    decreases |draws|
  {
    if targetFitness > s.imgFitness && |draws| > 0 {
      var next := Step(s, target, imgSize, draws[0]);
      var rest := Run(next, target, imgSize, targetFitness, printInterval, draws[1..]);
      RunUnfoldReports(s, target, imgSize, targetFitness, printInterval, draws);
      RunReportsAreSnapshots(next, target, imgSize, targetFitness, printInterval, draws[1..]);
      SnapshotsShift(rest.reports, s, target, imgSize, draws);
      var head := if printInterval >= 0 && next.k % printInterval == 0
                  then [Report(next.k, next.imgFitness, next.img)] else [];
      SnapshotFirst(s, target, imgSize, draws);
      assert ReportsAreSnapshots(head, s, target, imgSize, draws);
      SnapshotsJoin(head, rest.reports, s, target, imgSize, draws);
    }
  }

  /** The evolution loop end to end: read the target's dimensions, start from
      the random grid `init` with a cached score of 0.0, and loop while the
      cached score is below `targetFitness`. */
  function Evolve(target: Grid, targetFitness: real, printInterval: int, init: Grid,
                  draws: seq<Cell>): (r: Result<Outcome>)
    requires Rectangular(target)
    requires |target| > 0 ==> IsGrid(init, |target|, |target[0]|)
    requires AllInRange(target, draws)
    ensures r.Failure? <==> |target| == 0 || (0.0 < targetFitness && (|target[0]| == 0 || printInterval == 0))
    ensures r.Failure? && |target| == 0 ==> r.error == EmptyTarget
    ensures r.Failure? && |target| > 0 && |target[0]| == 0 ==> r.error == EmptyDrawRange
    ensures r.Failure? && |target| > 0 && |target[0]| > 0 ==> r.error == ZeroPrintInterval
    ensures r.Success? ==> IsGrid(r.value.state.img, |target|, |target[0]|)
    ensures r.Success? ==> (r.value.reached <==> targetFitness <= r.value.state.imgFitness)
    ensures r.Success? ==> r.value.state.k <= |draws|
    ensures r.Success? && !r.value.reached ==> r.value.state.k == |draws|
    ensures |target| > 0 && targetFitness <= 0.0 ==> r == Success(Outcome(true, Init(init), []))
  {
    if |target| == 0 then Failure(EmptyTarget)
    else
      var width := |target|;
      var height := |target[0]|;
      var imgSize := width * height;
      if !(0.0 < targetFitness) then Success(Outcome(true, Init(init), []))
      else if height == 0 then Failure(EmptyDrawRange)
      else if printInterval == 0 then Failure(ZeroPrintInterval)
      else
        assert imgSize >= width;
        Success(Run(Init(init), target, imgSize, targetFitness, printInterval, draws))
  }

  /** A successful run on a non-empty target ends in a state that satisfies
      the cache invariant. */
  lemma EvolveKeepsCache(target: Grid, targetFitness: real, printInterval: int, init: Grid, draws: seq<Cell>)
    requires Rectangular(target) && |target| > 0 && |target[0]| > 0
    requires IsGrid(init, |target|, |target[0]|)
    requires AllInRange(target, draws)
    ensures |target| * |target[0]| > 0
    ensures var r := Evolve(target, targetFitness, printInterval, init, draws);
      r.Success? ==> CacheInvariant(r.value.state, init, target, |target| * |target[0]|)
  {
    var imgSize := |target| * |target[0]|;
    assert imgSize >= |target|;
    if 0.0 < targetFitness && printInterval != 0 {
      RunKeepsCache(Init(init), init, target, imgSize, targetFitness, printInterval, draws);
    }
  }

  /** A run reported as reached returns a grid whose TRUE score, not just its
      cached one, is at least `targetFitness`. */
  lemma EvolveReachesTarget(target: Grid, targetFitness: real, printInterval: int, init: Grid,
                            draws: seq<Cell>)
    requires Rectangular(target) && |target| > 0 && |target[0]| > 0
    requires IsGrid(init, |target|, |target[0]|)
    requires AllInRange(target, draws)
    ensures |target| * |target[0]| > 0
    ensures var r := Evolve(target, targetFitness, printInterval, init, draws);
      r.Success? && r.value.reached ==>
        targetFitness <= Fitness(r.value.state.img, target, |target| * |target[0]|)
  {
    EvolveKeepsCache(target, targetFitness, printInterval, init, draws);
  }

  /** The returned state is the one the first `k` draws lead to from the
      initial grid, where `k` is the returned iteration count. */
  lemma EvolveIsSteps(target: Grid, targetFitness: real, printInterval: int, init: Grid, draws: seq<Cell>)
    requires Rectangular(target) && |target| > 0 && |target[0]| > 0
    requires IsGrid(init, |target|, |target[0]|)
    requires AllInRange(target, draws)
    ensures |target| * |target[0]| > 0
    ensures var r := Evolve(target, targetFitness, printInterval, init, draws);
      r.Success? ==> r.value.state == Steps(Init(init), target, |target| * |target[0]|, draws[..r.value.state.k])
  {
    var imgSize := |target| * |target[0]|;
    assert imgSize >= |target|;
    if 0.0 < targetFitness && printInterval != 0 {
      RunIsSteps(Init(init), target, imgSize, targetFitness, printInterval, draws);
    } else {
      assert draws[..0] == [];
    }
  }

  /** The returned grid is the FIRST one along the draws whose cached score
      reaches `targetFitness`: every shorter prefix leaves it below. */
  lemma EvolveStopsAtFirstHit(target: Grid, targetFitness: real, printInterval: int, init: Grid,
                              draws: seq<Cell>, p: nat)
    requires Rectangular(target) && |target| > 0 && |target[0]| > 0
    requires IsGrid(init, |target|, |target[0]|)
    requires AllInRange(target, draws)
    ensures |target| * |target[0]| > 0
    ensures var r := Evolve(target, targetFitness, printInterval, init, draws);
      r.Success? && p < r.value.state.k ==>
        Steps(Init(init), target, |target| * |target[0]|, draws[..p]).imgFitness < targetFitness
  {
    var imgSize := |target| * |target[0]|;
    assert imgSize >= |target|;
    if 0.0 < targetFitness && printInterval != 0 {
      RunStopsAtFirstHit(Init(init), target, imgSize, targetFitness, printInterval, draws, p);
    }
  }

  /** Because the score is the mismatch fraction, a run asked for a score of
      1.0 that reaches it returns the NEGATIVE of the target, not the target. */
  lemma EvolveFullScoreIsOpposite(target: Grid, targetFitness: real, printInterval: int, init: Grid,
                                  draws: seq<Cell>)
    requires Rectangular(target) && |target| > 0 && |target[0]| > 0
    requires IsGrid(init, |target|, |target[0]|)
    requires AllInRange(target, draws)
    requires 1.0 <= targetFitness
    ensures var r := Evolve(target, targetFitness, printInterval, init, draws);
      r.Success? && r.value.reached ==> Opposite(r.value.state.img, target)
  {
    var r := Evolve(target, targetFitness, printInterval, init, draws);
    EvolveKeepsCache(target, targetFitness, printInterval, init, draws);
    if r.Success? && r.value.reached {
      var img := r.value.state.img;
      FitnessUnitInterval(img, target, |target|, |target[0]|);
    }
  }
}
