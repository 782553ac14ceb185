# pysafe: mask enumeration and feature-elimination search, in Dafny

pysafe's `SAFE` ("per SAmple Feature Elimination") scans a trained model.
For every data sample it looks for a binary feature-selection mask. A mask has
one entry per feature: 1 keeps the feature and 0 blanks it out. The scan keeps
two masks per sample. `y_worst` is the mask whose blanking hurts the
prediction most. `y_better` is the mask that helps it most.

This project models the decision logic of `SAFE`:

- `_generate_combination`: the mask tables of 'all' mode (every binary mask,
  also used by 'genetic' mode) and 'one-by-one' mode. This is module
  `Combinations`.
- `__combination_search_forward_selection_min` / `_max`: the greedy search.
  It starts from the all-ones mask. Each round it blanks one more feature. It
  keeps the best candidate (the lowest feature on ties) while that strictly
  improves the loss. This is module `ForwardSelection`.
- `scan`: the loss table of the exhaustive modes and the per-sample
  argmax/argmin choice. This is module `Exhaustive`, driven by the class
  `Pysafe.Safe`, which holds the object's fields and error paths.
- The index filter of `get_candidates`: `Exhaustive.GetCandidates`.

The scanned model and the labels are one abstract oracle. `loss(r, m)` is
sample r's absolute prediction error when the features blanked by m are
zeroed, that is `abs(predict(X[r] * m) - y[r])`. The source only compares
losses, so they are exact reals. `Reductions` holds Python's `min`, `max` and
`list.index`, and numpy's `argmin`/`argmax`. `Masks` holds the mask helpers.

Forward selection is specified by `ForwardSelection.Step`, one round, and by
`SearchPath`, the masks a search holds in turn. `BestFeature` is an
independent reference definition of one round's choice. The lemma
`RoundPicksBestFeature` proves that the source's `losses.index(min(losses))`
over its candidate list makes the same choice. The two methods that mirror
the source's duplicated loops are proved equal to `Search`.

## Model

| member | source | states |
|---|---|---|
| `Combinations.Product` | pysafe/__init__.py:181 | `list(itertools.product([0, 1], repeat=n))`: the tuples over {0, 1} in lexicographic order, first position slowest; the table is never empty |
| `Combinations.ProductShape` | pysafe/__init__.py:181 | the 'random'-mode table has 2^n rows of n entries, each 0 or 1 |
| `Combinations.ProductDistinct` | pysafe/__init__.py:181 | no two rows of the product are equal |
| `Combinations.ProductComplete` | pysafe/__init__.py:181 | every binary mask of length n is a row of the product |
| `Combinations.ProductEnds` | pysafe/__init__.py:181 | the product starts with all zeros and ends with all ones |
| `Combinations.AllCombinations` | pysafe/__init__.py:175 | `np.flip` over both axes of that product: row order and column order reversed, row count kept, never empty |
| `Combinations.AllCombinationsShape` | pysafe/__init__.py:174-175 | 'all' mode yields exactly 2^n masks, each of n entries that are 0 or 1 |
| `Combinations.AllCombinationsExactlyOnce` | pysafe/__init__.py:175 | every binary mask of length n appears in the 'all' table, and no two rows are equal |
| `Combinations.AllCombinationsComplete` | pysafe/__init__.py:175 | a given binary mask of length n has a row in the 'all' table |
| `Combinations.AllCombinationsDistinct` | pysafe/__init__.py:175 | the rows of the 'all' table are pairwise distinct |
| `Combinations.AllCombinationsEnds` | pysafe/__init__.py:175 | after `np.flip` (both axes) the first row is all ones and the last row all zeros |
| `Combinations.OneByOneCombinations` | pysafe/__init__.py:176-179 | 'one-by-one' yields n+1 rows of length n; row i (1 <= i < n) is all ones but column i; rows 0 and n are all ones, so feature 0 is never blanked |
| `Pysafe.Safe.GenerateCombination` | pysafe/__init__.py:172-182 | the table each mode assigns: 'all'/'genetic' the flipped product, 'one-by-one' its table, 'random' the unflipped product and then a NameError, any other mode leaves the table unchanged |
| `ForwardSelection.BestFeatureIsFirstBest` | pysafe/__init__.py:209-218 | the reference round choice is a kept feature whose blanking is best, and every lower kept feature is strictly worse; it is None only when no feature is kept |
| `ForwardSelection.RoundPicksBestFeature` | pysafe/__init__.py:215-218 | `losses.index(min(losses))` (or `max`) over the round's candidate list blanks exactly the feature the reference definition picks |
| `ForwardSelection.StepIsGreedy` | pysafe/__init__.py:215-221 | a round accepts only a strictly improving greedy choice, lowest feature first on ties; a round that returns leaves a mask no single blanking improves |
| `ForwardSelection.PathSteps` | pysafe/__init__.py:206-222 | the search runs at most `rounds` accepted rounds, and each consecutive pair of masks is one accepted round; a search that ends early ends at a round that accepted nothing |
| `ForwardSelection.PathCounts` | pysafe/__init__.py:210-213 | after k accepted rounds the mask keeps exactly k features fewer than at the start |
| `ForwardSelection.PathCleared` | pysafe/__init__.py:210-213 | every mask on the search path is the start mask with some features blanked and nothing else changed |
| `ForwardSelection.PathImproves` | pysafe/__init__.py:217-219 | losses strictly improve from each mask on the path to every later one |
| `ForwardSelection.SearchShape` | pysafe/__init__.py:204-222 | the result is a 0/1 mask of length n whose number of zeros equals the number of accepted rounds, at most n |
| `ForwardSelection.SearchRoundCandidates` | pysafe/__init__.py:206-215 | round k weighs exactly n-k candidates, so `min`/`max` never sees an empty list |
| `ForwardSelection.SearchRoundsAreGreedy` | pysafe/__init__.py:204-219 | the search starts from the all-ones mask and every accepted round is the greedy choice, lowest feature first on ties |
| `ForwardSelection.SearchImproves` | pysafe/__init__.py:217-219 | the result is the all-ones mask or strictly better than it (lower loss for `_min`, higher for `_max`) |
| `ForwardSelection.SearchLocalOptimum` | pysafe/__init__.py:220-222 | no single further blanking from the returned mask strictly improves the loss |
| `ForwardSelection.SearchDual` | pysafe/__init__.py:224-245 | the `_max` search equals the `_min` search on the negated loss, ties included |
| `ForwardSelection.RoundCandidates` | pysafe/__init__.py:207-214 | the inner loop builds exactly one candidate per kept feature, in feature order, with its loss |
| `ForwardSelection.ForwardSelectionMin` | pysafe/__init__.py:201-222 | the method returns the mask the specified search reaches with direction Minimize |
| `ForwardSelection.ForwardSelectionMax` | pysafe/__init__.py:224-245 | the method returns the mask the specified search reaches with direction Maximize |
| `Reductions.MinOf` | pysafe/__init__.py:215 | `min` returns an element of the list no larger than any element |
| `Reductions.MaxOf` | pysafe/__init__.py:238 | `max` returns an element of the list no smaller than any element |
| `Reductions.IndexOf` | pysafe/__init__.py:218 | `list.index` returns the first position holding the value |
| `Reductions.ArgMax` | pysafe/__init__.py:97 | numpy `argmax` returns the first position of a largest element |
| `Reductions.ArgMin` | pysafe/__init__.py:98 | numpy `argmin` returns the first position of a smallest element |
| `Exhaustive.ScanLosses` | pysafe/__init__.py:93-95 | filling the zero table column by column gives every sample's loss under every combination |
| `Exhaustive.WorstPerSample` | pysafe/__init__.py:97 | each sample's `y_worst` row is a combination of largest loss for that sample, the earliest on ties |
| `Exhaustive.BetterPerSample` | pysafe/__init__.py:98 | each sample's `y_better` row is a combination of smallest loss for that sample, the earliest on ties |
| `Exhaustive.AllModeIsGlobalOptimum` | pysafe/__init__.py:93-98 | in 'all' mode no binary mask beats the chosen rows: none has larger loss than `y_worst` or smaller loss than `y_better` |
| `Exhaustive.AllModeTablesAreGlobalOptimum` | pysafe/__init__.py:93-98 | for every sample at once, the 'all'-mode `y_worst` and `y_better` rows are unbeaten by any binary mask |
| `Exhaustive.GreedyNeverBeatsExhaustive` | pysafe/__init__.py:85-98 | the greedy result never beats the 'all'-mode exhaustive choice for the same sample |
| `Exhaustive.GetCandidates` | pysafe/__init__.py:300-315 | returns, in increasing order, exactly the indices whose displacement is at least the threshold (0.9 by default) |
| `Masks.IndicesWhere` | pysafe/__init__.py:315 | the filtered positions are in range, satisfy the predicate and increase strictly |
| `Masks.ClearOne` | pysafe/__init__.py:211-212 | blanking a kept feature leaves exactly one kept feature fewer |
| `Pysafe.Safe.constructor` | pysafe/__init__.py:12-45 | a new object stores its mode ('all' by default) and has no table, no aim and empty data and masks |
| `Pysafe.Safe.FillForwardSelection` | pysafe/__init__.py:85-91 | with aim 'better' each `y_better` row is the `_min` search of that sample; otherwise each `y_worst` row is the `_max` search; the other table keeps its zeros |
| `Pysafe.Safe.FillExhaustive` | pysafe/__init__.py:93-98 | both tables are the argmax/argmin rows of the full loss table over the object's combinations; over the 'all' table no binary mask beats them |
| `Pysafe.Safe.Scan` | pysafe/__init__.py:47-98 | with aim 'worst' by default, the full new state of each mode, table included: 'all'/'genetic' hold the flipped product, 'one-by-one' its table, 'random' the unflipped product and a failure before the aim is stored; 'genetic' fails on `y_train` when there are samples; 'forward_selection' fills one table by search; 'all'/'one-by-one' fill both by argmax/argmin, and in 'all' mode no binary mask beats either row of any sample; any other mode fails on the missing table |

## Left out

- The scanned Keras model and the labels are replaced by the loss oracle. Its
  batch prediction in `scan` and its single-sample prediction in the search
  are taken to agree per sample. The model is taken to have one output per
  sample, as the `flatten()` at line 95 assumes.
- Floating point: losses are exact reals, so NaN and rounding are not modelled.
- `train_test_split` (line 67) and `n_points`/`random_state`: the model
  behaves as with `n_points = None`.
- The pandas `.values` unwrapping (lines 59-62) and the `tqdm` progress bars
  are input plumbing and presentation.
- 'genetic' mode's search (lines 77-83) is left out, because it calls the
  external `evolutionary_search.maximize`. Only the NameError on the
  undefined `y_train` is modelled, raised when there is at least one sample.
- 'random' mode's sampling (line 182) is left out: `random` is never
  imported. The model assigns the unflipped product and raises that NameError.
- `learn`, `get_selection`, `clean_data`, `_ann`, `_get_clean`,
  `get_accuracy` and `get_behaviour` (lines 100-148, 184-195, 247-298) are
  left out. They call the KDTree nearest-neighbour lookup, the Keras network
  and accuracy printing, which are foreign libraries and I/O.
- `get_robustness` (lines 150-170) is left out: it computes floating-point
  percentages.
- `get_candidates` calls `self.behaviour` (line 313), which does not exist.
  Only the filter at line 315 is modelled, over a given displacement sequence.
- The constructor's `None` for `n_features`, `X`, `y_better` and `y_worst`
  (lines 30, 35-37) is represented by 0 and empty sequences. `scan` assigns
  all four before anything reads them.
- numpy arrays are sequences here: the `y_better`/`y_worst` row writes are
  updates of a sequence field, and aliasing between those arrays is not
  modelled.
