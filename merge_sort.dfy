/** `Algorithms::merge`, `mergeSortRec` and `mergeSort`: top-down merge sort
    of a vector of `int`, in place through copies of the two runs. */
module MergeSort {
  import opened Sorting

  /** The merge of x[i..] and y[j..]: repeatedly the smaller head, x's on
      ties, then whatever is left of the other run. */
  function MergeFrom(x: seq<int>, y: seq<int>, i: nat, j: nat): seq<int>
    requires i <= |x| && j <= |y|
    decreases |x| - i + |y| - j
  {
    if i == |x| then y[j..]
    else if j == |y| then x[i..]
    else if x[i] <= y[j] then [x[i]] + MergeFrom(x, y, i + 1, j)
    else [y[j]] + MergeFrom(x, y, i, j + 1)
  }

  /** The merge of two whole runs. */
  function Merged(x: seq<int>, y: seq<int>): seq<int>
  {
    MergeFrom(x, y, 0, 0)
  }

  /** A merge keeps every element of both runs, and nothing else. */
  lemma {:induction false} MergeFromPermutes(x: seq<int>, y: seq<int>, i: nat, j: nat)
    requires i <= |x| && j <= |y|
    ensures multiset(MergeFrom(x, y, i, j)) == multiset(x[i..]) + multiset(y[j..])
    decreases |x| - i + |y| - j
  {
    if i == |x| {
      assert x[i..] == [];
    } else if j == |y| {
      assert y[j..] == [];
    } else if x[i] <= y[j] {
      MergeFromPermutes(x, y, i + 1, j);
      TakeLeftPermutes(x, y, i, j);
    } else {
      MergeFromPermutes(x, y, i, j + 1);
      TakeRightPermutes(x, y, i, j);
    }
  }

  /** Taking the left head keeps the elements. */
  lemma TakeLeftPermutes(x: seq<int>, y: seq<int>, i: nat, j: nat)
    requires i < |x| && j < |y| && x[i] <= y[j]
    requires multiset(MergeFrom(x, y, i + 1, j)) == multiset(x[i + 1..]) + multiset(y[j..])
    ensures multiset(MergeFrom(x, y, i, j)) == multiset(x[i..]) + multiset(y[j..])
  {
    assert x[i..] == [x[i]] + x[i + 1..];
  }

  /** Taking the right head keeps the elements. */
  lemma TakeRightPermutes(x: seq<int>, y: seq<int>, i: nat, j: nat)
    requires i < |x| && j < |y| && x[i] > y[j]
    requires multiset(MergeFrom(x, y, i, j + 1)) == multiset(x[i..]) + multiset(y[j + 1..])
    ensures multiset(MergeFrom(x, y, i, j)) == multiset(x[i..]) + multiset(y[j..])
  {
    assert MergeFrom(x, y, i, j) == [y[j]] + MergeFrom(x, y, i, j + 1);
    assert y[j..] == [y[j]] + y[j + 1..];
  }

  /** A bound below both runs' rests is a bound below their merge. */
  lemma MergeFromAbove(x: seq<int>, y: seq<int>, i: nat, j: nat, h: int)
    requires i <= |x| && j <= |y|
    requires forall k :: i <= k < |x| ==> h <= x[k]
    requires forall k :: j <= k < |y| ==> h <= y[k]
    ensures forall k :: 0 <= k < |MergeFrom(x, y, i, j)| ==> h <= MergeFrom(x, y, i, j)[k]
  {
    var m := MergeFrom(x, y, i, j);
    MergeFromPermutes(x, y, i, j);
    forall k | 0 <= k < |m| ensures h <= m[k] {
      assert m[k] in multiset(x[i..]) + multiset(y[j..]);
      if m[k] in multiset(x[i..]) {
        var t :| 0 <= t < |x[i..]| && x[i..][t] == m[k];
        assert x[i + t] == m[k];
      } else {
        var t :| 0 <= t < |y[j..]| && y[j..][t] == m[k];
        assert y[j + t] == m[k];
      }
    }
  }

  /** The merge of two sorted runs is sorted. */
  lemma {:induction false} MergeFromSorted(x: seq<int>, y: seq<int>, i: nat, j: nat)
    requires i <= |x| && j <= |y| && Sorted(x) && Sorted(y)
    ensures Sorted(MergeFrom(x, y, i, j))
    decreases |x| - i + |y| - j
  {
    if i < |x| && j < |y| {
      if x[i] <= y[j] {
        MergeFromSorted(x, y, i + 1, j);
        MergeFromAbove(x, y, i + 1, j, x[i]);
        SortedCons(x[i], MergeFrom(x, y, i + 1, j));
      } else {
        MergeFromSorted(x, y, i, j + 1);
        MergeFromAbove(x, y, i, j + 1, y[j]);
        SortedCons(y[j], MergeFrom(x, y, i, j + 1));
      }
    } else if i < |x| {
      assert MergeFrom(x, y, i, j) == x[i..];
    } else {
      assert MergeFrom(x, y, i, j) == y[j..];
    }
  }

  /** The state of `merge` once i elements of the left run and j of the
      right run are written back: what remains to be written, whole[i + j..],
      is the merge of the rest of the two runs. */
  ghost predicate MergeInv(x: seq<int>, y: seq<int>, i: int, j: int, whole: seq<int>)
  {
    0 <= i <= |x| && 0 <= j <= |y| && i + j <= |whole| && whole[i + j..] == MergeFrom(x, y, i, j)
  }

  /** Writing the left run's head keeps `MergeInv`. */
  lemma MergeInvLeft(x: seq<int>, y: seq<int>, i: int, j: int, whole: seq<int>)
    requires MergeInv(x, y, i, j, whole) && i < |x| && (j == |y| || x[i] <= y[j])
    ensures MergeInv(x, y, i + 1, j, whole) && whole[i + j] == x[i]
  {
    if j == |y| {
      assert x[i..] == [x[i]] + x[i + 1..];
    }
    assert whole[i + j..] == [x[i]] + MergeFrom(x, y, i + 1, j);
    assert whole[i + j + 1..] == whole[i + j..][1..];
  }

  /** Writing the right run's head keeps `MergeInv`. */
  lemma MergeInvRight(x: seq<int>, y: seq<int>, i: int, j: int, whole: seq<int>)
    requires MergeInv(x, y, i, j, whole) && j < |y| && (i == |x| || x[i] > y[j])
    ensures MergeInv(x, y, i, j + 1, whole) && whole[i + j] == y[j]
  {
    if i == |x| {
      assert y[j..] == [y[j]] + y[j + 1..];
    }
    assert whole[i + j..] == [y[j]] + MergeFrom(x, y, i, j + 1);
    assert whole[i + j + 1..] == whole[i + j..][1..];
  }

  /** When one run is used up, what remains to be written is the rest of
      the other. */
  lemma MergeInvRest(x: seq<int>, y: seq<int>, i: int, j: int, whole: seq<int>)
    requires MergeInv(x, y, i, j, whole) && (i == |x| || j == |y|)
    ensures |whole| == |x| + |y|
    ensures i == |x| ==> whole[i + j..] == y[j..]
    ensures j == |y| ==> whole[i + j..] == x[i..]
  {
  }

  /** The first loop of `merge`: while both runs have elements, write back
      the smaller head, the left run's on ties. */
  method MergeHeads(a: array<int>, l: int, left: seq<int>, right: seq<int>, ghost whole: seq<int>)
    returns (i: int, j: int, k: int)
    requires 0 <= l && l + |left| + |right| <= a.Length && MergeInv(left, right, 0, 0, whole)
    modifies a
    ensures k == l + i + j && MergeInv(left, right, i, j, whole) && (i == |left| || j == |right|)
    ensures forall t :: 0 <= t < a.Length && !(l <= t < k) ==> a[t] == old(a[t])
    ensures forall t :: l <= t < k ==> a[t] == whole[t - l]
  {
    i, j, k := 0, 0, l;
    while i < |left| && j < |right|
      invariant k == l + i + j && MergeInv(left, right, i, j, whole)
      invariant forall t :: 0 <= t < a.Length && !(l <= t < k) ==> a[t] == old(a[t])
      invariant forall t :: l <= t < k ==> a[t] == whole[t - l]
    {
      if left[i] <= right[j] {
        MergeInvLeft(left, right, i, j, whole);
        a[k] := left[i];
        i := i + 1;
      } else {
        MergeInvRight(left, right, i, j, whole);
        a[k] := right[j];
        j := j + 1;
      }
      k := k + 1;
    }
  }

  /** The last two loops of `merge`: copy what is left of one run, src[i..],
      to a[k..]. */
  method CopyRest(a: array<int>, k: int, src: seq<int>, i: int) returns (k': int, i': int)
    requires 0 <= i <= |src| && 0 <= k && k + |src| - i <= a.Length
    modifies a
    ensures i' == |src| && k' == k + |src| - i
    ensures forall t :: 0 <= t < a.Length && !(k <= t < k') ==> a[t] == old(a[t])
    ensures forall t :: k <= t < k' ==> a[t] == src[i + t - k]
  {
    k', i' := k, i;
    while i' < |src|
      invariant i <= i' <= |src| && k' == k + i' - i
      invariant forall t :: 0 <= t < a.Length && !(k <= t < k') ==> a[t] == old(a[t])
      invariant forall t :: k <= t < k' ==> a[t] == src[i + t - k]
    {
      a[k'] := src[i'];
      k', i' := k' + 1, i' + 1;
    }
  }

  /** `merge(a, l, m, r)`: a[l..m] and a[m+1..r] are copied out and merged
      back into a[l..r]; the rest of the vector is untouched. */
  method Merge(a: array<int>, l: int, m: int, r: int)
    requires 0 <= l <= m + 1 <= r + 1 <= a.Length
    modifies a
    ensures a[l..r + 1] == Merged(old(a[l..m + 1]), old(a[m + 1..r + 1]))
    ensures forall t :: 0 <= t < a.Length && !(l <= t <= r) ==> a[t] == old(a[t])
  {
    var left := a[l..m + 1];
    var right := a[m + 1..r + 1];
    ghost var whole := Merged(left, right);
    assert whole[0..] == whole;
    var i, j, k := MergeHeads(a, l, left, right, whole);
    MergeInvRest(left, right, i, j, whole);
    k, i := CopyRest(a, k, left, i);
    k, j := CopyRest(a, k, right, j);
    assert forall t :: l <= t <= r ==> a[t] == whole[t - l];
    assert a[l..r + 1] == whole;
  }

  /** Merging sorted permutations of two runs gives a sorted permutation of
      the two together. */
  lemma MergedSortedPermutation(x0: seq<int>, y0: seq<int>, x: seq<int>, y: seq<int>)
    requires Sorted(x) && Sorted(y) && multiset(x) == multiset(x0) && multiset(y) == multiset(y0)
    ensures Sorted(Merged(x, y)) && multiset(Merged(x, y)) == multiset(x0 + y0)
  {
    MergeFromSorted(x, y, 0, 0);
    MergeFromPermutes(x, y, 0, 0);
    assert x[0..] == x && y[0..] == y;
  }

  /** `mergeSortRec(a, l, r)`: a[l..r] becomes a sorted permutation of
      itself; the rest of the vector is untouched. */
  method MergeSortRec(a: array<int>, l: int, r: int)
    requires 0 <= l <= r + 1 <= a.Length
    modifies a
    ensures Sorted(a[l..r + 1]) && multiset(a[l..r + 1]) == multiset(old(a[l..r + 1]))
    ensures forall t :: 0 <= t < a.Length && !(l <= t <= r) ==> a[t] == old(a[t])
    decreases r - l
  {
    if l >= r {
      return;
    }
    var m := l + (r - l) / 2;
    ghost var x0, y0 := a[l..m + 1], a[m + 1..r + 1];
    assert old(a[l..r + 1]) == x0 + y0;
    MergeSortRec(a, l, m);
    ghost var x := a[l..m + 1];
    assert a[m + 1..r + 1] == y0;
    MergeSortRec(a, m + 1, r);
    ghost var y := a[m + 1..r + 1];
    assert a[l..m + 1] == x;
    Merge(a, l, m, r);
    MergedSortedPermutation(x0, y0, x, y);
  }

  /** `mergeSort(a)`: the vector becomes a sorted permutation of itself. */
  method MergeSortAll(a: array<int>)
    modifies a
    ensures Sorted(a[..]) && multiset(a[..]) == multiset(old(a[..]))
  {
    if a.Length != 0 {
      MergeSortRec(a, 0, a.Length - 1);
      assert a[..] == a[0..a.Length];
      assert old(a[..]) == old(a[0..a.Length]);
    }
  }
}
