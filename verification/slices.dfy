/** Python slicing of row sequences, as `split` and its callers use it.

    A slice bound `i` against a sequence of length `n` is normalised the way
    Python does for a step of 1: a negative bound counts from the end, and the
    result is clamped into `[0, n]`. A slice whose normalised stop lies before
    its normalised start is empty.
 */
module Slices {

  /** The position in `[0, n]` that Python uses for slice bound `i`. */
  function ClampIndex(i: int, n: nat): (p: nat)
    ensures p <= n
    ensures 0 <= i <= n ==> p == i
    ensures i > n ==> p == n
    ensures i < 0 <= n + i ==> p == n + i
    ensures n + i < 0 ==> p == 0
  {
    if i < 0 then (if n + i < 0 then 0 else n + i)
    else if i > n then n
    else i
  }

  /** `s[lo:hi]`: the rows from the normalised start up to the normalised stop. */
  function Slice<T>(s: seq<T>, lo: int, hi: int): (r: seq<T>)
    ensures |r| <= |s|
    ensures 0 <= lo <= hi <= |s| ==> |r| == hi - lo
    ensures 0 <= lo <= hi <= |s| ==> forall j :: 0 <= j < |r| ==> r[j] == s[lo + j]
  {
    var a := ClampIndex(lo, |s|);
    var b := ClampIndex(hi, |s|);
    if b <= a then [] else s[a..b]
  }

  /** The hold-out cut of `split`: `copy[0:idx]` for training and `copy[idx:]`
      for validation. */
  function HoldOut<T>(copy: seq<T>, idx: int): (r: (seq<T>, seq<T>))
    // every row of the copy lands in exactly one part, in its original order
    ensures r.0 + r.1 == copy
    ensures 0 <= idx <= |copy| ==> |r.0| == idx
    // a negative index counts from the end: the last -idx rows are held out
    ensures idx < 0 <= |copy| + idx ==> |r.1| == -idx
    ensures idx >= |copy| ==> r.1 == []
    ensures |copy| + idx <= 0 ==> r.0 == []
  {
    var training := Slice(copy, 0, idx);
    var validation := Slice(copy, idx, |copy|);
    assert training == copy[..ClampIndex(idx, |copy|)];
    assert validation == copy[ClampIndex(idx, |copy|)..];
    (training, validation)
  }

  /** One fold of a k-fold plan applied to the data: `data[lo:hi]` is the
      validation part and `numpy.delete(data, slice(lo, hi), axis=0)` the
      training part. The usage note of `split` writes the validation part as
      `data[idx1, idx2]`, which on a 2-D array would pick one element; the
      row slice `data[idx1:idx2]` is what it means, and what is modelled here. */
  function FoldSplit<T>(data: seq<T>, lo: int, hi: int): (r: (seq<T>, seq<T>))
    // the two parts together hold exactly the rows of the data
    ensures |r.0| + |r.1| == |data|
    ensures multiset(r.0) + multiset(r.1) == multiset(data)
    // for an in-range pair, validation is rows [lo, hi) and training the rest,
    // in their original order
    ensures 0 <= lo <= hi <= |data| ==> r.1 == data[lo..hi]
    ensures 0 <= lo <= hi <= |data| ==> r.0[..lo] == data[..lo] && r.0[lo..] == data[hi..]
  {
    var a := ClampIndex(lo, |data|);
    var b := if ClampIndex(hi, |data|) < a then a else ClampIndex(hi, |data|);
    var validation := Slice(data, lo, hi);
    assert validation == data[a..b];
    var training := data[..a] + data[b..];
    ThreePartsMultiset(data, a, b);
    (training, validation)
  }

  /** Cutting out the middle part `[a, b)` keeps every row on one side or the other. */
  lemma ThreePartsMultiset<T>(data: seq<T>, a: nat, b: nat)
    requires a <= b <= |data|
    ensures multiset(data[..a] + data[b..]) + multiset(data[a..b]) == multiset(data)
  {
    assert data == data[..a] + data[a..b] + data[b..];
    assert multiset(data) == multiset(data[..a]) + multiset(data[a..b]) + multiset(data[b..]);
  }
}
