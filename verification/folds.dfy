/** The k-fold index plan of `split`.

    With `n` rows and `k` folds, `fold_size` is `n / k` rounded down, fold `i`
    starts at `i * fold_size`, and its stop is the candidate `(i+1) * fold_size`
    unless fewer than `fold_size + 1` rows would remain after it, in which case
    the fold absorbs the rest and stops at `n`.

    The rule does not always tile `[0, n)`: when `k` divides `n` (and `k >= 2`,
    `n > 0`) the last two folds overlap, and when the remainder `n - k*fold_size`
    exceeds `fold_size` the trailing rows are in no fold. `ExactPartitionIff`
    states exactly when every row lies in exactly one fold.
 */
module Folds {

  /** A half-open index range `[start, stop)` of rows: one fold's validation slice. */
  datatype Fold = Fold(start: int, stop: int)

  /** The absorb rule: the candidate stop `x` is kept only while more than
      `foldSize` rows would remain after it. */
  function UpperBound(n: nat, foldSize: nat, x: int): int
  {
    if n - x > foldSize then x else n
  }

  /** The list of `(start, stop)` pairs of a k-fold plan over `n` rows.
      For `k <= 0` the Python `range(k)` is empty, so there are no pairs
      (`k == 0` itself never gets here: `split` divides by it first). */
  function KFoldRanges(n: nat, k: int): (folds: seq<Fold>)
    ensures k <= 0 ==> folds == []
    ensures k >= 1 ==> |folds| == k
    // fold i starts at i whole fold widths
    ensures k >= 1 ==> forall i :: 0 <= i < k ==> folds[i].start == i * (n / k)
    // every fold lies within the rows, and is either one fold wide with more
    // than one fold width left after it, or absorbs everything up to n
    ensures forall i :: 0 <= i < |folds| ==> 0 <= folds[i].start <= folds[i].stop <= n
    ensures k >= 1 ==> forall i :: 0 <= i < k ==>
              (folds[i].stop == folds[i].start + n / k && n - folds[i].stop > n / k)
              || folds[i].stop == n
    // and it reaches n exactly when no more than one fold width would remain
    // after its candidate stop
    ensures k >= 1 ==> forall i :: 0 <= i < k ==>
              (folds[i].stop == n <==> n - (i + 1) * (n / k) <= n / k)
  {
    if k <= 0 then []
    else
      var fs := n / k;
      var folds := seq(k, i requires 0 <= i < k => Fold(i * fs, UpperBound(n, fs, (i + 1) * fs)));
      assert forall i :: 0 <= i < k ==> 0 <= folds[i].start <= folds[i].stop <= n by {
        forall i | 0 <= i < k
          ensures 0 <= folds[i].start <= folds[i].stop <= n
        {
          FoldWithinRows(n, k, i);
        }
      }
      folds
  }

  /** Fold `i` of the plan, as the list comprehension builds it. */
  lemma FoldAt(n: nat, k: int, i: int)
    requires 0 <= i < k
    ensures KFoldRanges(n, k)[i] == Fold(i * (n / k), UpperBound(n, n / k, (i + 1) * (n / k)))
  {
  }

  /** `(i+1) * (n/k)` never exceeds `n` for a fold index `i < k`. */
  lemma FoldWithinRows(n: nat, k: int, i: int)
    requires 0 <= i < k
    ensures 0 <= i * (n / k) <= (i + 1) * (n / k) <= k * (n / k) <= n
  {
    var fs := n / k;
    assert (i + 1) * fs == i * fs + fs;
    MulMonotone(i + 1, k, fs);
  }

  lemma {:induction false} MulMonotone(a: nat, b: nat, c: nat)
    requires a <= b
    ensures a * c <= b * c
  {
    if a < b {
      MulMonotone(a, b - 1, c);
      assert b * c == (b - 1) * c + c;
    }
  }

  /** The rows left over after `k` whole folds. */
  function Remainder(n: nat, k: int): (r: nat)
    requires k >= 1
    ensures r < k
    ensures n == k * (n / k) + r
  {
    n - k * (n / k)
  }

  // ---------------------------------------------------------------------------
  // Coverage of rows by a list of folds

  /** How many folds of `folds` contain row `j`. */
  function CoverCount(folds: seq<Fold>, j: int): nat
  {
    if |folds| == 0 then 0
    else (if folds[0].start <= j < folds[0].stop then 1 else 0) + CoverCount(folds[1..], j)
  }

  /** Every row in `[0, n)` lies in exactly one fold. */
  ghost predicate ExactPartition(folds: seq<Fold>, n: nat)
  {
    forall j :: 0 <= j < n ==> CoverCount(folds, j) == 1
  }

  /** The folds follow one another without gap or overlap, from `lo` to `hi`. */
  ghost predicate Chain(folds: seq<Fold>, lo: int, hi: int)
    decreases |folds|
  {
    if |folds| == 0 then lo == hi
    else folds[0].start == lo && lo <= folds[0].stop && Chain(folds[1..], folds[0].stop, hi)
  }

  /** A chain from `lo` to `hi` covers each row of `[lo, hi)` exactly once and
      no other row. */
  lemma {:induction false} ChainCoversOnce(folds: seq<Fold>, lo: int, hi: int, j: int)
    requires Chain(folds, lo, hi)
    ensures lo <= hi
    ensures CoverCount(folds, j) == if lo <= j < hi then 1 else 0
    decreases |folds|
  {
    if |folds| > 0 {
      ChainCoversOnce(folds[1..], folds[0].stop, hi, j);
    }
  }

  /** Adjacent well-formed folds form a chain from the first start to the last stop. */
  lemma {:induction false} AdjacentIsChain(folds: seq<Fold>)
    requires |folds| > 0
    requires forall i :: 0 <= i < |folds| ==> folds[i].start <= folds[i].stop
    requires forall i :: 0 <= i < |folds| - 1 ==> folds[i].stop == folds[i + 1].start
    ensures Chain(folds, folds[0].start, folds[|folds| - 1].stop)
    decreases |folds|
  {
    if |folds| > 1 {
      var rest := folds[1..];
      assert forall i :: 0 <= i < |rest| - 1 ==> rest[i].stop == rest[i + 1].start by {
        forall i | 0 <= i < |rest| - 1
          ensures rest[i].stop == rest[i + 1].start
        {
          assert rest[i] == folds[i + 1] && rest[i + 1] == folds[i + 2];
        }
      }
      AdjacentIsChain(rest);
    } else {
      assert folds[1..] == [];
    }
  }

  /** A row that no fold contains is counted zero times. */
  lemma {:induction false} UncoveredCountsZero(folds: seq<Fold>, j: int)
    requires forall i :: 0 <= i < |folds| ==> !(folds[i].start <= j < folds[i].stop)
    ensures CoverCount(folds, j) == 0
    decreases |folds|
  {
    if |folds| > 0 {
      UncoveredCountsZero(folds[1..], j);
    }
  }

  /** A row that two distinct folds contain is counted at least twice. */
  lemma {:induction false} TwiceCoveredCountsTwo(folds: seq<Fold>, j: int, a: nat, b: nat)
    requires a < b < |folds|
    requires folds[a].start <= j < folds[a].stop
    requires folds[b].start <= j < folds[b].stop
    ensures CoverCount(folds, j) >= 2
    decreases |folds|
  {
    if a == 0 {
      CoveredCountsOne(folds[1..], j, b - 1);
    } else {
      TwiceCoveredCountsTwo(folds[1..], j, a - 1, b - 1);
    }
  }

  lemma {:induction false} CoveredCountsOne(folds: seq<Fold>, j: int, a: nat)
    requires a < |folds|
    requires folds[a].start <= j < folds[a].stop
    ensures CoverCount(folds, j) >= 1
    decreases |folds|
  {
    if a > 0 {
      CoveredCountsOne(folds[1..], j, a - 1);
    }
  }

  // ---------------------------------------------------------------------------
  // What the absorb rule guarantees

  /** The folds start at 0, each fold starts no later than the previous one
      stops, and exactly where it stops unless that fold already reached `n`. */
  lemma FoldsNoGapBetween(n: nat, k: int, i: int)
    requires 0 <= i < k - 1
    ensures KFoldRanges(n, k)[0].start == 0
    ensures KFoldRanges(n, k)[i + 1].start <= KFoldRanges(n, k)[i].stop
    ensures KFoldRanges(n, k)[i].stop != n ==>
              KFoldRanges(n, k)[i + 1].start == KFoldRanges(n, k)[i].stop
  {
    var folds := KFoldRanges(n, k);
    FoldWithinRows(n, k, i + 1);
    assert (i + 1) * (n / k) <= n;
  }

  /** Once a fold absorbs the rest of the rows, every later fold does too. */
  lemma AbsorbIsSticky(n: nat, k: int, i: int, j: int)
    requires 0 <= i <= j < k
    requires KFoldRanges(n, k)[i].stop == n
    ensures KFoldRanges(n, k)[j].stop == n
  {
    var fs := n / k;
    FoldAt(n, k, i);
    FoldAt(n, k, j);
    MulMonotone(i + 1, j + 1, fs);
  }

  /** The last fold reaches `n` exactly when the remainder is at most one fold width. */
  lemma LastFoldEndsAtN(n: nat, k: int)
    requires k >= 1
    ensures KFoldRanges(n, k)[k - 1].stop == n <==> n - k * (n / k) <= n / k
  {
    FoldAt(n, k, k - 1);
  }

  /** The fold before the last reaches `n` exactly when `k` divides `n`
      (for `k >= 2`); then the last two folds share the rows from
      `(k-1) * (n/k)` on. */
  lemma SecondLastFoldEndsAtN(n: nat, k: int)
    requires k >= 2
    ensures KFoldRanges(n, k)[k - 2].stop == n <==> Remainder(n, k) == 0
  {
    var fs := n / k;
    FoldAt(n, k, k - 2);
    assert (k - 1) * fs == k * fs - fs;
  }

  /** The plan is an exact partition of the rows exactly when the remainder
      fits into the last fold and does not vanish, or in the degenerate
      cases of a single fold or no rows. */
  lemma ExactPartitionIff(n: nat, k: int)
    requires k >= 1
    ensures ExactPartition(KFoldRanges(n, k), n) <==>
              Remainder(n, k) <= n / k && (Remainder(n, k) > 0 || k == 1 || n == 0)
  {
    var folds := KFoldRanges(n, k);
    var fs, r := n / k, Remainder(n, k);
    if r <= fs && (r > 0 || k == 1 || n == 0) {
      if n == 0 {
      } else {
        forall i | 0 <= i < k - 1
          ensures folds[i].stop == folds[i + 1].start
        {
          if folds[i].stop == n {
            AbsorbIsSticky(n, k, i, k - 2);
            SecondLastFoldEndsAtN(n, k);
            assert false;
          }
          FoldsNoGapBetween(n, k, i);
        }
        LastFoldEndsAtN(n, k);
        AdjacentIsChain(folds);
        forall j | 0 <= j < n
          ensures CoverCount(folds, j) == 1
        {
          ChainCoversOnce(folds, 0, n, j);
        }
      }
    } else if r > fs {
      // gap: no fold reaches n, so row n - 1 is in none of them
      LastFoldEndsAtN(n, k);
      forall i | 0 <= i < k
        ensures !(folds[i].start <= n - 1 < folds[i].stop)
      {
        if folds[i].stop == n {
          AbsorbIsSticky(n, k, i, k - 1);
        }
        FoldWithinRows(n, k, i);
      }
      UncoveredCountsZero(folds, n - 1);
    } else {
      // overlap: k divides n, so the last two folds both reach n
      assert r == 0 && k >= 2 && n > 0;
      SecondLastFoldEndsAtN(n, k);
      LastFoldEndsAtN(n, k);
      assert fs >= 1;
      assert (k - 1) * fs == n - fs;
      TwiceCoveredCountsTwo(folds, n - 1, k - 2, k - 1);
    }
  }

  // ---------------------------------------------------------------------------
  // Concrete plans

  /** Ten rows, four folds: the last fold absorbs the two extra rows. */
  lemma TenRowsFourFolds()
    ensures KFoldRanges(10, 4) == [Fold(0, 2), Fold(2, 4), Fold(4, 6), Fold(6, 10)]
    ensures ExactPartition(KFoldRanges(10, 4), 10)
  {
    var folds := KFoldRanges(10, 4);
    FoldAt(10, 4, 0); FoldAt(10, 4, 1); FoldAt(10, 4, 2); FoldAt(10, 4, 3);
    assert folds[3] == Fold(6, 10);
    ExactPartitionIff(10, 4);
  }

  /** Eight rows, four folds: the third fold already absorbs to 8, so rows 6
      and 7 lie in both the third and the fourth fold. */
  lemma EightRowsFourFoldsOverlap()
    ensures KFoldRanges(8, 4) == [Fold(0, 2), Fold(2, 4), Fold(4, 8), Fold(6, 8)]
    ensures CoverCount(KFoldRanges(8, 4), 6) == 2
    ensures CoverCount(KFoldRanges(8, 4), 7) == 2
  {
    var folds := KFoldRanges(8, 4);
    FoldAt(8, 4, 0); FoldAt(8, 4, 1); FoldAt(8, 4, 2); FoldAt(8, 4, 3);
    assert folds == [Fold(0, 2), Fold(2, 4), Fold(4, 8), Fold(6, 8)];
  }

  /** Seven rows, four folds: no fold absorbs, and rows 4, 5 and 6 are in none. */
  lemma SevenRowsFourFoldsGap()
    ensures KFoldRanges(7, 4) == [Fold(0, 1), Fold(1, 2), Fold(2, 3), Fold(3, 4)]
    ensures CoverCount(KFoldRanges(7, 4), 4) == 0
    ensures CoverCount(KFoldRanges(7, 4), 5) == 0
    ensures CoverCount(KFoldRanges(7, 4), 6) == 0
  {
    var folds := KFoldRanges(7, 4);
    FoldAt(7, 4, 0); FoldAt(7, 4, 1); FoldAt(7, 4, 2); FoldAt(7, 4, 3);
    assert folds == [Fold(0, 1), Fold(1, 2), Fold(2, 3), Fold(3, 4)];
  }

  /** More folds than rows: every fold is empty, so no row is validated at all. */
  lemma MoreFoldsThanRows(n: nat, k: int, i: int)
    requires 1 <= n < k && 0 <= i < k
    ensures KFoldRanges(n, k)[i] == Fold(0, 0)
  {
    assert n / k == 0;
    FoldAt(n, k, i);
    assert i * (n / k) == 0 && (i + 1) * (n / k) == 0;
  }
}
