# Dataset splitting: hold-out and k-fold plans

This project models the `split` function of the `NN` package's preprocessing
utilities and proves properties about it. `split` takes a data matrix whose rows are
samples. It copies the matrix and, if asked, shuffles the copy. It then does
one of two things:

- `kind == "hold_out"`: it cuts the copy at index `idx = round(n * frac_training)`
  into a training prefix and a validation suffix.
- `kind == "k-fold"`: it returns the copy plus `k` `(start, stop)` index pairs,
  one per fold. `fold_size` is `n / k` rounded down. Fold `i` starts at
  `i * fold_size`. It stops at `(i+1) * fold_size`, unless no more than
  `fold_size` rows would remain after that point. In that case the fold
  absorbs the rest and stops at `n`.

Any other `kind` returns `None`.

Rows are modelled as an opaque type `T` and the matrix as `seq<T>`. There are
three modules:

- `Slices` models Python slicing. It covers clamping and negative bounds, the
  hold-out cut, and the `numpy.delete` of one fold.
- `Folds` models the fold arithmetic and proves what it guarantees about
  covering the rows.
- `Preprocessing` holds the result datatype, the shuffle-copy step, and the
  dispatch on `kind`.

The main result is `Folds.ExactPartitionIff`. Write `r = n - k * fold_size` for
the rows left over after `k` whole folds. Every row of `[0, n)` lies in exactly
one fold if and only if `r <= fold_size`, and in addition `r > 0`, or `k == 1`,
or `n == 0`. Outside that condition the plan fails in one of two ways:

- When `k` divides `n`, with `k >= 2` and `n > 0`, the last two folds
  overlap. For `n = 8, k = 4` the plan is `(0,2),(2,4),(4,8),(6,8)`.
- When `r > fold_size`, the trailing rows are in no fold. For `n = 7, k = 4`
  the plan is `(0,1),(1,2),(2,3),(3,4)`, and rows 4 to 6 are never validated.

A k-fold plan is usually expected to cover every row once; this rule does not
always do so, and the model follows the code.

## Model

| member | source | states |
|---|---|---|
| Slices.HoldOut | NN/utils/preprocessing.py:46-48 | training followed by validation is exactly the copy; an index in `[0, n]` gives `idx` training rows; a negative index holds out the last `-idx` rows; an index past either end leaves one part empty |
| Slices.FoldSplit | NN/utils/preprocessing.py:33-38 | the validation slice (the docstring's `data[idx1, idx2]` read as the row slice `data[idx1:idx2]`) and the rows left after `numpy.delete` of that slice together hold every row of the data exactly once (lengths add to `n`, multisets add to the data's); for an in-range pair the validation part is rows `[lo, hi)` and the training part is the rest in order |
| Folds.KFoldRanges | NN/utils/preprocessing.py:51-56 | one pair per fold (none for `k <= 0`); fold `i` starts at `i * (n / k)`; each fold lies within `[0, n]`; each fold is either exactly one fold wide with more than one fold width left after it, or it reaches `n`; it reaches `n` exactly when `n - (i+1) * (n / k) <= n / k` |
| Folds.FoldsNoGapBetween | NN/utils/preprocessing.py:53-56 | the first fold starts at 0; each fold starts no later than the previous one stops, and exactly where it stops unless the previous fold already reached `n` |
| Folds.AbsorbIsSticky | NN/utils/preprocessing.py:53-56 | once a fold's stop is `n`, the stop of every later fold is also `n` |
| Folds.LastFoldEndsAtN | NN/utils/preprocessing.py:52-56 | the last fold stops at `n` exactly when `n - k * (n / k) <= n / k` |
| Folds.SecondLastFoldEndsAtN | NN/utils/preprocessing.py:52-56 | for `k >= 2`, the fold before the last stops at `n` exactly when `k` divides `n`, which is the overlap case when `n > 0` |
| Folds.ExactPartitionIff | NN/utils/preprocessing.py:51-56 | the pairs cover every row of `[0, n)` exactly once if and only if the remainder is at most one fold width and, in addition, is non-zero, or `k == 1`, or `n == 0` |
| Folds.TenRowsFourFolds | NN/utils/preprocessing.py:52-56 | for `n = 10, k = 4` the plan is `[(0,2),(2,4),(4,6),(6,10)]`, and it is an exact partition |
| Folds.EightRowsFourFoldsOverlap | NN/utils/preprocessing.py:52-56 | for `n = 8, k = 4` the plan is `[(0,2),(2,4),(4,8),(6,8)]`, and rows 6 and 7 lie in two folds |
| Folds.SevenRowsFourFoldsGap | NN/utils/preprocessing.py:52-56 | for `n = 7, k = 4` the plan is `[(0,1),(1,2),(2,3),(3,4)]`, and rows 4, 5 and 6 lie in no fold |
| Folds.MoreFoldsThanRows | NN/utils/preprocessing.py:52-56 | with more folds than rows (`1 <= n < k`), every pair is `(0, 0)` |
| Preprocessing.WorkingCopy | NN/utils/preprocessing.py:41-44 | the working copy has the same multiset of rows as the input; without shuffling it is the input itself |
| Preprocessing.SplitCopy | NN/utils/preprocessing.py:45-57 | `"hold_out"` gives training and validation that concatenate back to the copy; `"k-fold"` returns the copy unchanged with exactly the fold plan of `KFoldRanges` (`k` pairs within the rows, stops by the absorb rule) (none for negative `k`, a division by zero for `k == 0`); every other spelling, and only those, gives no result |
| Preprocessing.Split | NN/utils/preprocessing.py:41-57 | whole `split`: the hold-out parts together are a permutation of the input, and without shuffling they concatenate back to it; the k-fold data is a permutation of the input, and without shuffling it is the input; the pairs are the fold plan for `n` rows |
| Preprocessing.FoldReconstruction | NN/utils/preprocessing.py:33-38 | for every pair of the plan, `data[lo:hi]` is the pair's range, and it plus the rows left after deleting it hold exactly the `n` rows of the data |
| Preprocessing.UnderscoreKFoldIsNoResult | NN/utils/preprocessing.py:45-57 | `"k_fold"` (underscore) and `"hold-out"` (hyphen) are not recognised and give no result |
| Preprocessing.TenRowsHoldOutAtEight | NN/utils/preprocessing.py:46-48 | ten rows cut at index 8 give rows 0 to 7 for training and rows 8 and 9 for validation |

## Left out

- `frac_training` and `round`: the float product `len * frac_training` and
  Python's round-half-to-even are not modelled. The split index `idx` is an
  integer parameter. Python's slice rules for an index that is negative or
  past the end are modelled.
- `np.floor(n / k)` and `int(i * fold_size)` are float operations. They are
  modelled as exact integer division and multiplication. This agrees with the
  float result as long as the values stay below 2^53.
- `np.random.shuffle` is modelled as an arbitrary permutation, which is a
  nondeterministic choice with the same multiset of rows. The random
  generator itself is not modelled.
- Columns and numpy memory: rows are opaque values, so the column dimension,
  rectangularity and numeric content are not modelled, and neither is the
  copy-versus-view behaviour of numpy. Sequences are values, so the caller's
  rows can never be changed by the call.
- `k == 0` raises `ZeroDivisionError` in Python. It is modelled as the
  `ZeroDivision` result rather than as an exception.
- The default arguments of `split` (`frac_training=0.8`, `shuffle=False`,
  `kind="hold_out"`, `k=4`) are not modelled: every argument is passed
  explicitly.
- Non-integer or non-string arguments (a float `k`, a `kind` that is not a
  string) are not modelled.
- Preprocessing.Split: when shuffling, it states only that the parts are a
  permutation of the input, because the order the random source picks is not
  modelled.
