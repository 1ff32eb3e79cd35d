/** `Algorithms::partition`, `quickSortRec` and `quickSort`: quicksort of a
    vector of `int` in place, with Lomuto's partition around the last
    element. */
module QuickSort {
  import opened Sorting

  /** The loop of `partition`: a[l..i) is at most the pivot a[r] and
      a[i..j) above it, j running from l to r. */
  method PartitionScan(a: array<int>, l: int, r: int) returns (i: int)
    requires 0 <= l <= r < a.Length
    modifies a
    ensures l <= i <= r && a[r] == old(a[r])
    ensures forall k :: l <= k < i ==> a[k] <= a[r]
    ensures forall k :: i <= k < r ==> a[k] > a[r]
    ensures multiset(a[..]) == multiset(old(a[..]))
    ensures forall t :: 0 <= t < a.Length && !(l <= t < r) ==> a[t] == old(a[t])
  {
    var pivot := a[r];
    i := l;
    for j := l to r
      invariant l <= i <= j && a[r] == pivot
      invariant forall k :: l <= k < i ==> a[k] <= pivot
      invariant forall k :: i <= k < j ==> a[k] > pivot
      invariant multiset(a[..]) == multiset(old(a[..]))
      invariant forall t :: 0 <= t < a.Length && !(l <= t < r) ==> a[t] == old(a[t])
    {
      if a[j] <= pivot {
        Exchange(a, i, j);
        i := i + 1;
      }
    }
  }

  /** Exchanging a[p] and a[r] keeps the elements of a[l..r]. */
  lemma SwapInside(s: seq<int>, l: int, r: int, p: int)
    requires 0 <= l <= p <= r < |s|
    ensures multiset(s[p := s[r]][r := s[p]][l..r + 1]) == multiset(s[l..r + 1])
  {
    var w: seq<int> := s[l..r + 1];
    assert s[p := s[r]][r := s[p]][l..r + 1] == w[p - l := w[r - l]][r - l := w[p - l]];
    assert multiset(w[p - l := w[r - l]][r - l := w[p - l]]) == multiset(w);
  }

  /** A permutation that moved nothing outside a[l..r) permuted a[l..r]. */
  lemma PermutedInside(s0: seq<int>, s: seq<int>, l: int, r: int)
    requires |s0| == |s| && 0 <= l <= r < |s|
    requires multiset(s) == multiset(s0)
    requires forall t :: 0 <= t < |s| && !(l <= t < r) ==> s[t] == s0[t]
    ensures multiset(s[l..r + 1]) == multiset(s0[l..r + 1])
  {
    assert s[..l] == s0[..l] by {
      assert forall t :: 0 <= t < l ==> s[t] == s0[t];
    }
    assert s[r + 1..] == s0[r + 1..] by {
      assert forall t :: r < t < |s| ==> s[t] == s0[t];
    }
    SliceMultiset(s, s0, l, r + 1);
  }

  /** The last step of `partition`, exchanging the pivot a[r] with the first
      element above it, keeps the elements of a[l..r]. */
  lemma SwapKeeps(s0: seq<int>, s: seq<int>, l: int, r: int, p: int)
    requires |s0| == |s| && 0 <= l <= p <= r < |s|
    requires multiset(s) == multiset(s0)
    requires forall t :: 0 <= t < |s| && !(l <= t < r) ==> s[t] == s0[t]
    ensures multiset(s[p := s[r]][r := s[p]][l..r + 1]) == multiset(s0[l..r + 1])
  {
    PermutedInside(s0, s, l, r);
    SwapInside(s, l, r, p);
  }

  /** The same exchange puts the pivot between the two parts. */
  lemma SwapSplits(s: seq<int>, l: int, r: int, p: int)
    requires 0 <= l <= p <= r < |s|
    requires forall k :: l <= k < p ==> s[k] <= s[r]
    requires forall k :: p <= k < r ==> s[k] > s[r]
    ensures var u := s[p := s[r]][r := s[p]];
      AllAtMost(u[l..p], u[p]) && AllAbove(u[p + 1..r + 1], u[p])
  {
  }

  /** `partition(a, l, r)`: the pivot a[r] ends at index p, everything
      before it in a[l..r] is at most the pivot and everything after it is
      greater; only swaps inside a[l..r] happen. */
  method Partition(a: array<int>, l: int, r: int) returns (p: int)
    requires 0 <= l <= r < a.Length
    modifies a
    ensures l <= p <= r && a[p] == old(a[r])
    ensures AllAtMost(a[l..p], a[p]) && AllAbove(a[p + 1..r + 1], a[p])
    ensures multiset(a[l..r + 1]) == multiset(old(a[l..r + 1]))
    ensures forall t :: 0 <= t < a.Length && !(l <= t <= r) ==> a[t] == old(a[t])
  {
    p := PartitionScan(a, l, r);
    ghost var s := a[..];
    Exchange(a, p, r);
    SwapKeeps(old(a[..]), s, l, r, p);
    SwapSplits(s, l, r, p);
    assert a[l..p] == a[..][l..p] && a[p + 1..r + 1] == a[..][p + 1..r + 1];
    assert a[l..r + 1] == a[..][l..r + 1] && old(a[l..r + 1]) == old(a[..])[l..r + 1];
  }

  /** The pieces quicksort joins are in order: a sorted part at most the
      pivot, the pivot, a sorted part above it. */
  lemma JoinSorted(xs: seq<int>, pivot: int, ys: seq<int>)
    requires Sorted(xs) && Sorted(ys) && AllAtMost(xs, pivot) && AllAbove(ys, pivot)
    ensures Sorted(xs + [pivot] + ys)
  {
    var s := xs + [pivot] + ys;
    forall i, j | 0 <= i < j < |s| ensures s[i] <= s[j] {
      if j < |xs| {
        assert s[i] == xs[i] && s[j] == xs[j];
      } else if i > |xs| {
        assert s[i] == ys[i - |xs| - 1] && s[j] == ys[j - |xs| - 1];
      } else if i < |xs| {
        assert s[i] == xs[i] <= pivot;
        assert j == |xs| || s[j] == ys[j - |xs| - 1];
      } else {
        assert s[j] == ys[j - |xs| - 1];
      }
    }
  }

  /** Sorting both sides of a partition sorts the whole range and keeps its
      elements. */
  lemma QuickStep(xs0: seq<int>, ys0: seq<int>, xs: seq<int>, ys: seq<int>, pivot: int)
    requires AllAtMost(xs0, pivot) && AllAbove(ys0, pivot)
    requires Sorted(xs) && multiset(xs) == multiset(xs0)
    requires Sorted(ys) && multiset(ys) == multiset(ys0)
    ensures Sorted(xs + [pivot] + ys)
    ensures multiset(xs + [pivot] + ys) == multiset(xs0 + [pivot] + ys0)
  {
    AtMostCarries(xs, xs0, pivot);
    AboveCarries(ys, ys0, pivot);
    JoinSorted(xs, pivot, ys);
  }

  /** A range is its part before p, the element at p and its part after. */
  lemma Around(s: seq<int>, l: int, p: int, r: int)
    requires 0 <= l <= p <= r < |s|
    ensures s[l..r + 1] == s[l..p] + [s[p]] + s[p + 1..r + 1]
  {
  }

  /** `quickSortRec(a, l, r)`: a[l..r] becomes a sorted permutation of
      itself; the rest of the vector is untouched. */
  method QuickSortRec(a: array<int>, l: int, r: int)
    requires 0 <= l <= r + 1 <= a.Length
    modifies a
    ensures Sorted(a[l..r + 1]) && multiset(a[l..r + 1]) == multiset(old(a[l..r + 1]))
    ensures forall t :: 0 <= t < a.Length && !(l <= t <= r) ==> a[t] == old(a[t])
    decreases r - l, 1
  {
    if l < r {
      var p := Partition(a, l, r);
      ghost var pivot, xs0, ys0 := a[p], a[l..p], a[p + 1..r + 1];
      Around(a[..], l, p, r);
      SortSides(a, l, p, r);
      ghost var xs, ys := a[l..p], a[p + 1..r + 1];
      QuickStep(xs0, ys0, xs, ys, pivot);
      Around(a[..], l, p, r);
    }
  }

  /** The two recursive calls of `quickSortRec`, on each side of the pivot
      at p. */
  method SortSides(a: array<int>, l: int, p: int, r: int)
    requires 0 <= l <= p <= r < a.Length
    modifies a
    ensures Sorted(a[l..p]) && multiset(a[l..p]) == multiset(old(a[l..p]))
    ensures Sorted(a[p + 1..r + 1]) && multiset(a[p + 1..r + 1]) == multiset(old(a[p + 1..r + 1]))
    ensures forall t :: 0 <= t < a.Length && !(l <= t < p) && !(p < t <= r) ==> a[t] == old(a[t])
    decreases r - l, 0
  {
    QuickSortRec(a, l, p - 1);
    ghost var xs := a[l..p];
    assert a[p + 1..r + 1] == old(a[p + 1..r + 1]);
    QuickSortRec(a, p + 1, r);
    assert a[l..p] == xs;
  }

  /** `quickSort(a)`: the vector becomes a sorted permutation of itself. */
  method QuickSortAll(a: array<int>)
    modifies a
    ensures Sorted(a[..]) && multiset(a[..]) == multiset(old(a[..]))
  {
    if a.Length != 0 {
      QuickSortRec(a, 0, a.Length - 1);
      assert a[..] == a[0..a.Length];
      assert old(a[..]) == old(a[0..a.Length]);
    }
  }
}
