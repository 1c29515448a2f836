/** Generic sequence operations the model is built from: the stream filter,
    the "first match" lookup, and keyed in-place replacement. */
module Seqs {
  import opened Wrappers

  /** The elements of `xs` that satisfy `keep`, in their order in `xs`
      (`stream().filter(keep).collect(toList())`). */
  function Filter<T>(xs: seq<T>, keep: T -> bool): (r: seq<T>)
    ensures |r| <= |xs|
    ensures forall i :: 0 <= i < |r| ==> r[i] in xs && keep(r[i])
    ensures forall i :: 0 <= i < |xs| && keep(xs[i]) ==> xs[i] in r
  {
    if |xs| == 0 then []
    else
      var rest := Filter(xs[1..], keep);
      if keep(xs[0]) then [xs[0]] + rest else rest
  }

  /** Filtering distributes over concatenation: the filter never reorders. */
  lemma {:induction false} FilterConcat<T>(xs: seq<T>, ys: seq<T>, keep: T -> bool)
    ensures Filter(xs + ys, keep) == Filter(xs, keep) + Filter(ys, keep)
  {
    if |xs| == 0 {
      assert xs + ys == ys;
    } else {
      assert (xs + ys)[1..] == xs[1..] + ys;
      FilterConcat(xs[1..], ys, keep);
    }
  }

  /** A filter that keeps every element is the identity. */
  lemma {:induction false} FilterKeepsAll<T>(xs: seq<T>, keep: T -> bool)
    requires forall i :: 0 <= i < |xs| ==> keep(xs[i])
    ensures Filter(xs, keep) == xs
  {
    if |xs| != 0 {
      FilterKeepsAll(xs[1..], keep);
    }
  }

  /** A filter that keeps no element yields the empty sequence. */
  lemma FilterKeepsNone<T>(xs: seq<T>, keep: T -> bool)
    requires forall i :: 0 <= i < |xs| ==> !keep(xs[i])
    ensures Filter(xs, keep) == []
  {
  }

  /** Appending only rejected elements to a sequence the filter keeps whole
      leaves the filter's result unchanged. */
  lemma FilterDropsRejectedSuffix<T>(xs: seq<T>, ys: seq<T>, keep: T -> bool)
    requires Filter(xs, keep) == xs
    requires forall i :: 0 <= i < |ys| ==> !keep(ys[i])
    ensures Filter(xs + ys, keep) == xs
  {
    FilterConcat(xs, ys, keep);
    FilterKeepsNone(ys, keep);
    assert xs + [] == xs;
  }

  /** The positions `i` in `lo..|xs|` with `keep(xs[i])`, ascending. */
  function IndicesFrom<T>(xs: seq<T>, keep: T -> bool, lo: nat): (r: seq<nat>)
    requires lo <= |xs|
    ensures forall k :: 0 <= k < |r| ==> lo <= r[k] < |xs| && keep(xs[r[k]])
    ensures forall k, l :: 0 <= k < l < |r| ==> r[k] < r[l]
    ensures forall i :: lo <= i < |xs| && keep(xs[i]) ==> i in r
    decreases |xs| - lo
  {
    if lo == |xs| then []
    else (if keep(xs[lo]) then [lo] else []) + IndicesFrom(xs, keep, lo + 1)
  }

  /** The positions of `xs` whose element `keep` accepts, in increasing order. */
  function KeptIndices<T>(xs: seq<T>, keep: T -> bool): seq<nat>
  {
    IndicesFrom(xs, keep, 0)
  }

  lemma {:induction false} FilterSuffixLength<T>(xs: seq<T>, keep: T -> bool, lo: nat)
    requires lo <= |xs|
    ensures |Filter(xs[lo..], keep)| == |IndicesFrom(xs, keep, lo)|
    decreases |xs| - lo
  {
    if lo < |xs| {
      assert xs[lo..][1..] == xs[lo + 1..];
      FilterSuffixLength(xs, keep, lo + 1);
    }
  }

  lemma {:induction false} FilterSuffixIsSelection<T>(xs: seq<T>, keep: T -> bool, lo: nat)
    requires lo <= |xs|
    ensures |Filter(xs[lo..], keep)| == |IndicesFrom(xs, keep, lo)|
    ensures forall k :: 0 <= k < |IndicesFrom(xs, keep, lo)| ==>
              Filter(xs[lo..], keep)[k] == xs[IndicesFrom(xs, keep, lo)[k]]
    decreases |xs| - lo
  {
    FilterSuffixLength(xs, keep, lo);
    if lo < |xs| {
      assert xs[lo..][1..] == xs[lo + 1..];
      FilterSuffixIsSelection(xs, keep, lo + 1);
      if keep(xs[lo]) {
        FilterSuffixKeptHead(xs, keep, lo, lo + 1);
      } else {
        assert Filter(xs[lo..], keep) == Filter(xs[lo + 1..], keep);
        assert IndicesFrom(xs, keep, lo) == IndicesFrom(xs, keep, lo + 1);
      }
    }
  }

  /** The inductive step of `FilterSuffixIsSelection` when `xs[lo]` is kept. */
  lemma FilterSuffixKeptHead<T>(xs: seq<T>, keep: T -> bool, lo: nat, next: nat)
    requires lo < |xs| && keep(xs[lo]) && next == lo + 1
    requires |Filter(xs[next..], keep)| == |IndicesFrom(xs, keep, next)|
    requires forall k :: 0 <= k < |IndicesFrom(xs, keep, next)| ==>
               Filter(xs[next..], keep)[k] == xs[IndicesFrom(xs, keep, next)[k]]
    ensures forall k :: 0 <= k < |IndicesFrom(xs, keep, lo)| ==>
              Filter(xs[lo..], keep)[k] == xs[IndicesFrom(xs, keep, lo)[k]]
  {
    assert xs[lo..][0] == xs[lo] && xs[lo..][1..] == xs[next..];
    var f := Filter(xs[lo..], keep);
    var rest := Filter(xs[next..], keep);
    var idx := IndicesFrom(xs, keep, lo);
    var restIdx := IndicesFrom(xs, keep, next);
    assert f == [xs[lo]] + rest;
    assert idx == [lo] + restIdx;
    forall k | 0 <= k < |idx|
      ensures f[k] == xs[idx[k]]
    {
      if k > 0 {
        assert f[k] == rest[k - 1] && idx[k] == restIdx[k - 1];
      }
    }
  }

  /** `Filter(xs, keep)` is exactly the subsequence of `xs` at the kept
      positions, read in increasing position order. */
  lemma FilterIsSelection<T>(xs: seq<T>, keep: T -> bool)
    ensures |Filter(xs, keep)| == |KeptIndices(xs, keep)|
    ensures forall k :: 0 <= k < |KeptIndices(xs, keep)| ==>
              Filter(xs, keep)[k] == xs[KeptIndices(xs, keep)[k]]
  {
    assert xs[0..] == xs;
    FilterSuffixIsSelection(xs, keep, 0);
  }

  /** The first element of `xs` that `keep` accepts, if any
      (`stream().filter(keep).findFirst()`). */
  function First<T>(xs: seq<T>, keep: T -> bool): (r: Option<T>)
    ensures r.None? <==> forall i :: 0 <= i < |xs| ==> !keep(xs[i])
    ensures r.Some? ==> r.value in xs && keep(r.value)
  {
    if |xs| == 0 then None
    else if keep(xs[0]) then Some(xs[0])
    else First(xs[1..], keep)
  }

  /** The earliest accepted element is the one `First` returns. */
  lemma {:induction false} FirstIsEarliest<T>(xs: seq<T>, keep: T -> bool, i: nat)
    requires i < |xs| && keep(xs[i])
    requires forall j :: 0 <= j < i ==> !keep(xs[j])
    ensures First(xs, keep) == Some(xs[i])
  {
    if i > 0 {
      FirstIsEarliest(xs[1..], keep, i - 1);
    }
  }

  /** "First match" is the head of "all matches". */
  lemma {:induction false} FirstIsHeadOfFilter<T>(xs: seq<T>, keep: T -> bool)
    ensures First(xs, keep) == (if Filter(xs, keep) == [] then None else Some(Filter(xs, keep)[0]))
  {
    if |xs| != 0 {
      FirstIsHeadOfFilter(xs[1..], keep);
    }
  }

  /** Every element whose key equals `key(x)` replaced by `x`; the others,
      and the length, unchanged. */
  function Replace<T>(xs: seq<T>, key: T -> int, x: T): (r: seq<T>)
    ensures |r| == |xs|
    ensures forall i :: 0 <= i < |xs| ==>
              r[i] == (if key(xs[i]) == key(x) then x else xs[i])
  {
    if |xs| == 0 then []
    else [if key(xs[0]) == key(x) then x else xs[0]] + Replace(xs[1..], key, x)
  }

  /** `Replace` applied for each element of `ys` in turn, first to last. */
  function ReplaceAll<T>(xs: seq<T>, key: T -> int, ys: seq<T>): (r: seq<T>)
    ensures |r| == |xs|
    ensures forall i :: 0 <= i < |xs| ==> key(r[i]) == key(xs[i])
  {
    if |ys| == 0 then xs
    else Replace(ReplaceAll(xs, key, ys[..|ys| - 1]), key, ys[|ys| - 1])
  }

  /** The last element of `ys` whose key is `k`, if any. */
  function LastWithKey<T>(ys: seq<T>, key: T -> int, k: int): (r: Option<T>)
    ensures r.None? <==> forall j :: 0 <= j < |ys| ==> key(ys[j]) != k
    ensures r.Some? ==> r.value in ys && key(r.value) == k
  {
    if |ys| == 0 then None
    else if key(ys[|ys| - 1]) == k then Some(ys[|ys| - 1])
    else LastWithKey(ys[..|ys| - 1], key, k)
  }

  /** What `x` becomes once every element of `ys` has been written by key:
      the last write with the same key, or `x` itself if there is none. */
  function Updated<T>(x: T, key: T -> int, ys: seq<T>): T
  {
    match LastWithKey(ys, key, key(x))
    case None => x
    case Some(y) => y
  }

  /** Applying a sequence of keyed writes: the last write to a key wins and
      rows whose key is never written keep their value. */
  lemma {:induction false} ReplaceAllLastWins<T>(xs: seq<T>, key: T -> int, ys: seq<T>)
    ensures forall i :: 0 <= i < |xs| ==> ReplaceAll(xs, key, ys)[i] == Updated(xs[i], key, ys)
  {
    if |ys| != 0 {
      var init := ys[..|ys| - 1];
      ReplaceAllLastWins(xs, key, init);
    }
  }
}
