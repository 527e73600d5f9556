# Evolutionary monochrome image generation: a Dafny model of the hill climber

The repository evolves a random black-and-white pixel array towards a target
image. Its algorithmic core is two Python functions in `main.py`:

- `fitness(img, target, img_size)` sums the element-wise XOR of two boolean
  arrays and divides the sum by `img_size`.
- `evolve(target, target_fitness, print_interval)` is a single-pixel hill climber.
  It starts from a random grid of the target's shape, with a cached score of
  `0.0`. On each iteration it copies the grid and flips one random cell of the
  copy. It then rescores the copy and keeps it only if the new score is
  strictly greater than the cached one. Finally it counts the iteration and,
  every `print_interval` iterations, prints the score and writes a snapshot.
  The loop ends once the cached score reaches `target_fitness`.

The model is written in four modules:

- `Grids` (grids.dfy) holds the boolean grid `seq<seq<bool>>`, indexed
  `g[i][j]` with `i` the column and `j` the row. It defines the shape
  predicates and the one-cell `Flip`.
- `Scoring` (scoring.dfy) holds the mismatch count `Mismatch`. It has an
  independent reference definition: `MismatchCells`, the set of differing
  coordinates. The module also holds the score `Fitness`, an exact `real`
  ratio, and its properties.
- `Evolution` (evolution.dfy) models the loop. The loop variables `img`,
  `img_fitness` and `k` form a `State`. One iteration is `Step`, and `Run` is
  the loop with its stopping test and progress output. `Evolve` is the whole
  function, including its failure paths.
- `Scenario` (scenario.dfy) holds two concrete runs on a 2 × 2 target.

Randomness is a parameter. The random initial grid is passed in as `init`. The
cells the iterations flip are passed in as the sequence `draws`, and every
drawn cell must lie inside the target, which is what the random draw
guarantees. The loop is unbounded, so `draws` also bounds it: a run that uses
up `draws` before reaching the target score stops with `reached == false`.

Progress output is not performed. Each print-and-snapshot becomes a
`Report(k, fitness, snapshot)` record in the run's outcome.

The source's failures are modelled as `Failure` results of `Evolve`:

- `EmptyTarget`: the target has no column, so reading the length of its
  first column fails (main.py:28).
- `EmptyDrawRange`: the columns are empty and the loop is entered, so
  drawing a row index from the empty range `[0, 0)` fails (main.py:47).
- `ZeroPrintInterval`: `print_interval == 0` makes the progress test take
  the counter modulo zero after the first iteration (main.py:60).

## The score is a mismatch fraction

The docstrings call the score a similarity: "Get the similarity between two
binary image arrays" (main.py:7), "Percentage similarity between the two
images" (main.py:11) and "similarity to the given target" (main.py:19), as does
"Similarity to reach before returning" for `target_fitness` (main.py:21).
The code computes something else. The XOR of two boolean arrays is true where
they DIFFER (main.py:14), so the score is the fraction of disagreeing pixels.
The acceptance test `>` (main.py:54) and the loop test `<` (main.py:39),
which stops once the score is `>=` the target, therefore drive the grid AWAY
from the target.

This model follows the code. As a result:

- `Fitness(a, a, n) == 0`.
- Once the cached score is exact, a kept flip always turns an agreeing cell
  into a disagreeing one (`ConsistentStepAccepts`). Before that, while the
  cache still holds its initial 0.0, a flip that corrects a disagreeing cell
  can be kept too (`FirstStepAcceptsAnyMismatch`).
- A run asked for score 1.0 that reaches it returns the negative of the
  target (`EvolveFullScoreIsOpposite`).

Two concrete runs on a 2 × 2 all-true target, drawing the cells (0,0),
(0,1), (1,0), (1,1) in turn, show this. `Scenario.FromTargetReachesNegative`
starts at the target itself: every flip is kept, and the run ends at the
all-false negative with score 1.0. `Scenario.FromNegativeLosesFullScore`
starts at that negative, whose true score is already 1.0: the first flip is
kept and lowers the score to 0.75, after which no flip is kept.

The comment at main.py:31 expects an initial fitness of about 0.5 for the
random grid, but the code never scores that grid: it starts the cache at
`0.0` (main.py:36). The model follows the code, and states the weaker cache
invariant this gives (`CacheInvariant`). It also states what the weaker
invariant allows (`FirstStepAcceptsAnyMismatch`,
`Scenario.FromNegativeLosesFullScore`): a first flip that lowers the true
score can still be kept.

## Model

| member | source | states |
|---|---|---|
| `Grids.Flip` | main.py:42-48 | the candidate has the grid's shape, holds the negated value at the drawn cell, equals the grid at every other cell, and so differs from the grid |
| `Scoring.MismatchCounts` | main.py:14 | the XOR sum equals the number of coordinates at which the two grids differ |
| `Scoring.MismatchSymmetric` | main.py:14 | the XOR sum is the same with the two grids swapped |
| `Scoring.MismatchZeroIff` | main.py:14 | two equal-shaped grids have XOR sum 0 exactly when they are equal |
| `Scoring.MismatchBound` | main.py:27-29 | the XOR sum of a width × height grid is at most `img_size = width * height` |
| `Scoring.MismatchFull` | main.py:27-29 | the XOR sum reaches width × height exactly when the grids disagree at every cell |
| `Scoring.FlipCells` | main.py:42-51 | flipping one cell of the copy adds that cell to the set of cells differing from the target if it agreed, and removes it if it disagreed; no other cell changes status |
| `Scoring.FlipMismatch` | main.py:42-51 | flipping one cell of the copy changes its XOR sum against the target by exactly one: +1 if the cell agreed with the target, −1 if it disagreed |
| `Scoring.Fitness` | main.py:5-14 | the score is non-negative, and 0 exactly for identical grids (the mismatch fraction, not the documented similarity) |
| `Scoring.FitnessCountsCells` | main.py:5-14 | the score times `img_size` is the number of coordinates at which the two grids differ |
| `Scoring.FitnessOrder` | main.py:51-54 | for one `img_size`, comparing two scores is the same as comparing their XOR sums, for both `<` and `==` |
| `Scoring.FitnessSymmetric` | main.py:14 | the score does not depend on which of the two grids is the target |
| `Scoring.FitnessUnitInterval` | main.py:14 | with `img_size = width * height` and both dimensions at least 1, the score lies in [0, 1] and is 1 exactly for opposite grids |
| `Evolution.Step` | main.py:41-59 | an iteration adds one to `k` and keeps the shape; the cached score never decreases; the grid changes exactly when the score strictly rises (ties and decreases keep both); a changed grid is the one-cell flip, cached with its true score |
| `Evolution.StepKeepsHigher` | main.py:50-59 | the acceptance rule both ways: when the flipped candidate scores strictly higher than the cache, it becomes the grid and its score the cache; otherwise grid and cache stay; in both cases `k` grows by one |
| `Evolution.ConsistentStepAccepts` | main.py:51-56 | once the cache is exact, a flip is kept exactly when the flipped cell agreed with the target; a kept flip raises the XOR sum by exactly one, and the cache stays exact |
| `Evolution.FirstStepAcceptsAnyMismatch` | main.py:36 | while the cache still holds the initial 0.0, any candidate other than the target itself is kept, including one whose XOR sum is lower than the current grid's |
| `Evolution.Steps` | main.py:39-59 | running n iterations adds n to `k`, keeps the shape and never lowers the cached score |
| `Evolution.Run` | main.py:39-64 | the loop reports `reached` exactly when the cached score is at least `target_fitness`; it makes at most one iteration per draw and uses every draw when it does not reach the target; the score never decreases; a score already at the target ends the loop with no iteration and no output |
| `Evolution.RunIsSteps` | main.py:39-59 | the loop's final state is the state reached by applying its first m draws one after the other, where m is the number of iterations it counted |
| `Evolution.RunStopsAtFirstHit` | main.py:39-64 | the loop stops at the first hit: for every p, if p is smaller than the number of iterations it counted, the score after the first p draws is still below `target_fitness` |
| `Evolution.RunKeepsCache` | main.py:36-56 | the loop preserves the cache invariant: either no candidate has been kept (grid still the initial one, cache 0.0) or the cache equals the true score of the grid |
| `Evolution.RunReportCount` | main.py:59-62 | with a negative `print_interval` nothing is output; with a positive one, the number of outputs is the number of multiples of it that the counter passes through during the loop |
| `Evolution.RunReportOrder` | main.py:59-62 | every output comes after an iteration whose counter is a multiple of `print_interval` and lies within the loop's counter range, the outputs come in increasing counter order, and their scores never decrease and lie between the start and end scores |
| `Evolution.RunReportsAreSnapshots` | main.py:39-62 | each output carries exactly the counter, cached score and grid of the state reached after that many iterations of the same draws |
| `Evolution.Evolve` | main.py:17-64 | fails exactly on an empty target, or, when the loop is entered, on empty columns or a zero `print_interval`, with the error of the first failing line; otherwise returns a grid of the target's width and height; a `target_fitness` of at most 0.0 returns the initial grid after zero iterations; `reached` means the score is at least `target_fitness`; at most one iteration per draw |
| `Evolution.EvolveReachesTarget` | main.py:17-64 | a run reported as reached returns a grid whose true score against the target is at least `target_fitness`, as the docstring at main.py:23 promises for the returned array |
| `Evolution.EvolveIsSteps` | main.py:31-64 | the returned state is exactly the one the first k draws lead to from the initial grid with cache 0.0, where k is the returned iteration count |
| `Evolution.EvolveStopsAtFirstHit` | main.py:36-64 | for every p below the returned iteration count, the cached score after the first p draws is still below `target_fitness`: the loop returns at the first state that reaches it |
| `Evolution.EvolveKeepsCache` | main.py:31-56 | a successful run on a non-empty target ends in a state satisfying the cache invariant |
| `Evolution.EvolveFullScoreIsOpposite` | main.py:14-64 | a run asked for a score of at least 1.0 that reaches it returns the pixel-wise negative of the target |
| `Scenario.FromTargetReachesNegative` | main.py:36-64 | starting at the 2 × 2 all-true target itself, flipping (0,0), (0,1), (1,0), (1,1) is kept four times and ends at the all-false grid with score 1.0 and `k == 4` |
| `Scenario.NegativeHasFullScore` | main.py:14 | the all-false grid scores 1.0 against the all-true target |
| `Scenario.FromNegativeLosesFullScore` | main.py:36-64 | starting at the all-false grid (true score 1.0), the first flip is kept because the cache is 0.0, lowering the score to 0.75; the three later flips are refused and the draws run out with `reached == false` |

## Left out

- `read_image`, `write_image` and `main` (main.py:67-116) are image decoding, encoding and file I/O through PIL, with hard-coded paths, so they are not modelled.
- Progress output (main.py:60-62): the `print` and the snapshot file write become `Report` records. Console and file effects are not modelled.
- Random generation (main.py:32, 46-47) is replaced by the parameters `init` and `draws`. `Evolve` requires what NumPy guarantees: `init` has the target's shape, and every drawn cell is inside the target. Uniformity of the draws is not modelled.
- Scores are exact `real` ratios. Float64 rounding of `sum / img_size`, and of the `>` and `>=` comparisons on rounded values, is not modelled.
- `Scoring.Fitness` requires `img_size > 0` and equal shapes. Division by zero, which in NumPy gives NaN for a zero count or inf for a positive one, with a RuntimeWarning, and NumPy broadcasting of unequal shapes are not modelled. `evolve` only calls `fitness` with equal shapes and a positive size.
- `Evolution.Evolve` requires a rectangular target (every NumPy 2-D array is one). It does not model termination or liveness: the real loop may run forever, while the model stops when `draws` is used up.
- `Evolution.Evolve` returns no partial state on the `ZeroPrintInterval` failure. The source raises after its first iteration, and that iteration's effect is lost with the exception anyway.
- Default argument values (`target_fitness=1.0`, `print_interval=-1`) are not modelled. Callers pass every argument.
