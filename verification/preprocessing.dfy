/** The dataset splitting function `split`.

    Rows are opaque values of type `T`; the data matrix is a sequence of rows.
    `split` copies the rows, optionally shuffles the copy, and then either cuts
    it once into training and validation rows (`kind == "hold_out"`) or returns
    it together with a k-fold plan of `(start, stop)` pairs (`kind == "k-fold"`).
    Any other `kind` returns nothing.
 */
module Preprocessing {
  import Slices
  import Folds

  /** What a call of `split` produces. */
  datatype SplitResult<T> =
    | HoldOutSplit(training: seq<T>, validation: seq<T>)
    | KFoldSplit(data: seq<T>, folds: seq<Folds.Fold>)
      /** `kind` matched neither branch: the function returns `None`. */
    | NoResult
      /** `kind == "k-fold"` with `k == 0`: the fold size divides by zero. */
    | ZeroDivision

  const HoldOutKind: string := "hold_out"
  const KFoldKind: string := "k-fold"

  /** The working copy: the rows in their original order, or in some order
      chosen by the random source when `shuffle` is set. The caller's rows are
      a value and stay as they were. */
  method WorkingCopy<T(==)>(rows: seq<T>, shuffle: bool) returns (copy: seq<T>)
    ensures multiset(copy) == multiset(rows)
    ensures |copy| == |rows|
    ensures !shuffle ==> copy == rows
  {
    if shuffle {
      copy :| multiset(copy) == multiset(rows);
      assert |copy| == |multiset(copy)| == |multiset(rows)| == |rows|;
    } else {
      copy := rows;
    }
  }

  /** Both branches of `split` applied to an already made working copy.
      `idx` stands for `round(len(copy) * frac_training)`. */
  function SplitCopy<T>(copy: seq<T>, idx: int, kind: string, k: int): (r: SplitResult<T>)
    // hold-out: the two parts are the copy cut at the (normalised) index
    ensures kind == HoldOutKind ==>
              r.HoldOutSplit? && r.training + r.validation == copy
              && (0 <= idx <= |copy| ==> |r.training| == idx)
    // k-fold: the copy itself, unchanged, plus one pair per fold
    ensures kind == KFoldKind && k == 0 ==> r == ZeroDivision
    ensures kind == KFoldKind && k != 0 ==>
              r.KFoldSplit? && r.data == copy && |r.folds| == (if k < 0 then 0 else k)
              && r.folds == Folds.KFoldRanges(|copy|, k)
    ensures kind == KFoldKind && k >= 1 ==>
              forall i :: 0 <= i < k ==>
                (r.folds[i].start == i * (|copy| / k) && 0 <= r.folds[i].start <= r.folds[i].stop <= |copy|)
    // dispatch is on the exact spelling; nothing else yields a result
    ensures kind != HoldOutKind && kind != KFoldKind <==> r == NoResult
  {
    if kind == HoldOutKind then
      var parts := Slices.HoldOut(copy, idx);
      HoldOutSplit(parts.0, parts.1)
    else if kind == KFoldKind then
      if k == 0 then ZeroDivision
      else KFoldSplit(copy, Folds.KFoldRanges(|copy|, k))
    else
      NoResult
  }

  /** `split(input_matrix, frac_training, shuffle, kind, k)`, with the split
      index `idx` given in place of `frac_training`. */
  method Split<T(==)>(input: seq<T>, idx: int, shuffle: bool, kind: string, k: int)
    returns (r: SplitResult<T>)
    // hold-out: training and validation hold the input rows between them, and
    // without shuffling they are the input cut at idx
    ensures kind == HoldOutKind ==> r.HoldOutSplit?
    ensures r.HoldOutSplit? ==>
              multiset(r.training) + multiset(r.validation) == multiset(input)
              && (0 <= idx <= |input| ==> |r.training| == idx)
              && (!shuffle ==> r.training + r.validation == input)
    // k-fold: the returned data is a permutation of the input (the input itself
    // without shuffling), and each pair delimits rows of it
    ensures kind == KFoldKind ==> (r.KFoldSplit? <==> k != 0) && (r.ZeroDivision? <==> k == 0)
    ensures r.KFoldSplit? ==>
              multiset(r.data) == multiset(input)
              && (!shuffle ==> r.data == input)
              && r.folds == Folds.KFoldRanges(|input|, k)
    ensures kind != HoldOutKind && kind != KFoldKind <==> r == NoResult
  {
    var copy := WorkingCopy(input, shuffle);
    r := SplitCopy(copy, idx, kind, k);
    if r.HoldOutSplit? {
      assert multiset(r.training + r.validation) == multiset(r.training) + multiset(r.validation);
    }
  }

  /** Per-fold use of a k-fold plan: for every returned pair, the validation
      slice and the rows left after deleting it hold exactly the rows of the
      data, and the validation slice is the pair's range. */
  lemma FoldReconstruction<T>(data: seq<T>, k: int, i: int)
    requires 0 <= i < k
    ensures var f := Folds.KFoldRanges(|data|, k)[i];
            var parts := Slices.FoldSplit(data, f.start, f.stop);
            && |parts.0| + |parts.1| == |data|
            && multiset(parts.0) + multiset(parts.1) == multiset(data)
            && parts.1 == data[f.start..f.stop]
            && |parts.1| == f.stop - f.start
  {
  }

  /** The k-fold plan with the underscore spelling is not recognised. */
  lemma UnderscoreKFoldIsNoResult<T>(copy: seq<T>, idx: int, k: int)
    ensures SplitCopy(copy, idx, "k_fold", k) == NoResult
    ensures SplitCopy(copy, idx, "hold-out", k) == NoResult
  {
  }

  /** The hold-out scenario of ten rows at index 8: rows 0..7 train, rows 8..9 validate. */
  lemma TenRowsHoldOutAtEight<T>(copy: seq<T>)
    requires |copy| == 10
    ensures SplitCopy(copy, 8, HoldOutKind, 4) == HoldOutSplit(copy[..8], copy[8..])
  {
    var r := SplitCopy(copy, 8, HoldOutKind, 4);
    assert r.training == copy[..8];
  }
}
