# State-label alignment of the ssm toolkit, modelled in Dafny

The ssm toolkit fits state-space models whose hidden states carry arbitrary
names. To compare an inferred labeling `z1` with a ground-truth labeling `z2`
of the same time series, `ssm/util.py` provides two routines:

- `compute_state_overlap(z1, z2, K1, K2)` checks its arguments, picks the
  number of states on each side (`max + 1` by default), and fills a
  `K1 x K2` contingency table in two nested loops. Entry `[k1, k2]` counts
  the steps labelled `k1` by `z1` and `k2` by `z2`.
- `find_permutation(z1, z2, K1, K2)` refuses `K1 > K2`. It asks
  `scipy.optimize.linear_sum_assignment` for a least-cost matching of rows
  to columns of `-overlap`, asserts that every row was matched, and appends
  the unmatched columns. The result is a permutation of `0..K2-1`.

The model has five modules:

- `Labels` (labels.dfy) holds the faults, numpy's `max` and `arange`, and
  distinctness.
- `Overlap` (overlap.dfy) models `compute_state_overlap` twice. The
  function `StateOverlap` gives its value. The method `ComputeStateOverlap`
  follows the code: a zero-filled `array2<nat>` written cell by cell in
  nested loops, proved equal to `StateOverlap`. The module also proves the
  row, column and grand totals of the table.
- `Assignment` (assignment.dfy) states the contract of
  `linear_sum_assignment` for a matrix with no more rows than columns. The
  returned rows are `0..K1-1`. The returned columns are distinct and in
  range. No injective assignment costs less. An exhaustive search over
  injections meets this contract and is proved to.
- `Alignment` (alignment.dfy) models `find_permutation` as a function. It
  proves the padding, the permutation property, maximal overlap, and what
  happens when a labeling is aligned with itself.
- `AlignmentExamples` (examples.dfy) works through two concrete inputs.

Faults (Python `AssertionError`/`ValueError`) are values of
`Labels.Result`. In the order the code raises them:

- `ShapeMismatch`: the two labelings have different lengths.
- `EmptyLabels`: `z1.min()` of an empty array.
- `NegativeLabel`: some label is below zero.
- `NegativeDimension`: an explicit negative `K` makes `np.zeros` fail.
- `TooManyStates`: `K1 > K2`.
- `UnmatchedRows`: the solver did not match every row. This is proved
  never to happen.

Overlap counts are stored as floats in the source, but they are always
whole numbers, so the model uses `nat`.

Two concrete alignments are proved. On `z1 = [0,0,0,1,1]` and
`z2 = [0,1,2,2,2]` with K1=2, K2=3, the count of util.py:44 gives the table
`[[1,1,1],[0,0,2]]`. Steps 0, 1 and 2 pair state 0 with columns 0, 1 and 2
(`AlignmentExamples.TieOverlap`). Row 0 therefore ties between columns 0
and 1, and state 1 goes to column 2.

Take a non-empty labeling aligned with itself, with the same K on both
sides and every label below K. The default K always meets the last
condition. Such an alignment succeeds and reaches an overlap equal to the
length of the labeling. An explicit K that leaves some labels out drops
those steps from the table (util.py:42-44), so the overlap is then smaller.
Under the same conditions, the result is forced to be the identity exactly
when at most one state of `0..K-1` is missing from the labeling. With one missing state, every occurring state must keep its own
column, which leaves the missing state only its own. With two missing
states, exchanging their columns loses no overlap, so the solver may return
a permutation other than the identity.

## Model

| member | source | states |
|---|---|---|
| `Labels.Max` | ssm/util.py:38-39 | the default state count's `max`: no label exceeds it and some label equals it |
| `Overlap.CoCountIsCardinality` | ssm/util.py:44 | the per-cell count equals the number of time steps t with `z1[t] == k1` and `z2[t] == k2` |
| `Overlap.ResolveShape` | ssm/util.py:34-41 | faults exactly on unequal lengths, empty labels, a negative label or a negative explicit K, in that order; an explicit K is used as given; a default K covers every label and is one more than some label |
| `Overlap.StateOverlap` | ssm/util.py:33-45 | fails exactly when the checks fail, with their fault; otherwise a K1 x K2 table whose entry [k1][k2] is the number of steps labelled k1 by z1 and k2 by z2 |
| `Overlap.ComputeStateOverlap` | ssm/util.py:33-45 | the nested loops return a fresh K1 x K2 array equal cell by cell to `StateOverlap`, or the same fault |
| `Overlap.RowSumIsLabelCount` | ssm/util.py:42-44 | when every z2 label is below K2, row k1 sums to the number of occurrences of k1 in z1 |
| `Overlap.ColumnTotals` | ssm/util.py:42-44 | column k2 of the table sums to the occurrences of k2 in z2 when every z1 label is a row |
| `Overlap.TotalSumIsLength` | ssm/util.py:41-44 | when every label lies inside the table, its entries sum to the length of the labelings |
| `Overlap.DefaultTotals` | ssm/util.py:38-44 | with the default K1, K2 the grand total is the length, and row and column sums are the label frequencies |
| `Assignment.Best` | ssm/util.py:52 | the search returns, when it returns one, an injective assignment of the rows into the free columns |
| `Assignment.BestIsOptimal` | ssm/util.py:52 | whenever some injective assignment exists, the search finds one whose cost is no larger |
| `Assignment.BestOfAll` | ssm/util.py:52 | with K1 <= K2 the search succeeds and no injective assignment of all rows costs less |
| `Assignment.LinearSumAssignment` | ssm/util.py:52-53 | the solver's contract: matched rows are exactly 0..K1-1 in order, matched columns are distinct and below K2, and no injective assignment has a smaller total cost |
| `Alignment.NegatedCost` | ssm/util.py:52 | the cost of an assignment under `-overlap` is minus its total overlap |
| `Alignment.MaxOverlapFromMinCost` | ssm/util.py:52 | a least-cost assignment under `-overlap` has the greatest total overlap of all injective assignments |
| `Alignment.UnusedIsSetDifference` | ssm/util.py:57 | the padding has no repeats and holds exactly the columns below K2 that the matching does not use |
| `Alignment.PaddingIsPermutation` | ssm/util.py:55-58 | matched columns followed by the unused ones, in any order without repeats, contain every index below K2 exactly once |
| `Alignment.FindPermutation` | ssm/util.py:47-60 | fails exactly on an overlap fault (the same fault) or K1 > K2 (`TooManyStates`), never with `UnmatchedRows`; otherwise a permutation of 0..K2-1 whose first K1 entries have the greatest total overlap among injective assignments and whose other entries are exactly the unmatched columns |
| `Alignment.CostAtMostTotal` | ssm/util.py:52 | an assignment's overlap is at most the sum of the rows it covers, with equality exactly when each matched entry is its row's sum |
| `Alignment.OptimalSelfCost` | ssm/util.py:52 | for a labeling against itself with every label inside the table, a greatest-overlap assignment has overlap equal to the length |
| `Alignment.OptimalSelfIsIdentity` | ssm/util.py:52 | for a labeling against itself in which at most one state is missing, the only assignment with full overlap is the identity |
| `Alignment.TwoAbsentAllowSwap` | ssm/util.py:52 | when two states are missing, exchanging their columns gives another assignment, not the identity, with full overlap, so the condition above cannot be weakened |
| `Alignment.SelfAlignmentOverlap` | ssm/util.py:47-60 | aligning z with itself, same K on both sides and labels in range, succeeds with total overlap equal to the length of z |
| `Alignment.SelfAlignmentIsIdentity` | ssm/util.py:47-60 | when moreover at most one state of 0..K-1 is missing from z, the alignment is the identity permutation |
| `AlignmentExamples.SwappedOverlap` | ssm/util.py:33-45 | `[0,0,1,1]` against `[1,1,0,0]` gives the 2 x 2 table `[[0,2],[2,0]]` |
| `AlignmentExamples.SwapIsBest` | ssm/util.py:52-58 | on the table `[[0,2],[2,0]]`, the only permutation of 0..1 whose matched columns have the greatest overlap is `[1,0]` |
| `AlignmentExamples.SwapAligned` | ssm/util.py:47-60 | any labelings whose overlap is `[[0,2],[2,0]]` are aligned by `[1,0]` |
| `AlignmentExamples.SwappedLabels` | ssm/util.py:47-60 | the alignment of `[0,0,1,1]` with `[1,1,0,0]` is `[1,0]` |
| `AlignmentExamples.TieOverlap` | ssm/util.py:33-45 | `[0,0,0,1,1]` against `[0,1,2,2,2]` with K1=2, K2=3 gives `[[1,1,1],[0,0,2]]` |
| `AlignmentExamples.TieChoice` | ssm/util.py:52-58 | on the table `[[1,1,1],[0,0,2]]`, a permutation of 0..2 whose matched columns have the greatest overlap sends row 1 to column 2 and row 0 to column 0 or 1 |
| `AlignmentExamples.TieAligned` | ssm/util.py:47-60 | any labelings with that overlap are aligned by such a permutation |
| `AlignmentExamples.TieLabels` | ssm/util.py:47-60 | that alignment is a permutation of 0..2 sending state 1 to column 2 and state 0 to column 0 or 1 |

## Left out

- `adam_with_convergence_check` (util.py:7-31) is not modelled. It is floating-point numerics (square roots, powers, the mean of `|dx|`) behind autograd's optimizer wrapper. Its iteration bound `num_iters` also comes from outside the shown code.
- `random_rotation` (util.py:62-75) is not modelled. It uses random sampling, trigonometry and a numpy QR decomposition.
- The `ensure_*` decorators (util.py:78-142) are not modelled. They only reshape arguments and depend on numpy shapes, `self.M` and `isinstance`.
- `logistic`, `logit`, `softplus` and `inv_softplus` (util.py:145-158) are not modelled. They are closed-form floating-point formulas.
- The `dtype == int` check (util.py:34) is not modelled. The labels have type `seq<int>`, so it always holds.
- Labelings are one-dimensional. The shape comparison of util.py:35 becomes a length comparison.
- An explicit `K` that is not an integer is not modelled, since the model takes `Option<int>`.
- The algorithm inside `linear_sum_assignment` (Jonker-Volgenant) is not modelled. An exhaustive search that meets the same contract replaces it.
- Assignment.LinearSumAssignment: when several assignments are optimal, which one scipy returns is not modelled. The search returns one fixed optimum, and every property proved uses only optimality.
- Alignment.FindPermutation: the source pads with the unused columns in Python set order, which the code leaves unspecified. The model pads in ascending order. `Alignment.PaddingIsPermutation` proves the permutation property for any padding order without repeats.
- The float dtype of the overlap array and the dtype of the concatenated permutation are not modelled. Counts and indices are `nat`.
