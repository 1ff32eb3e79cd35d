/** What the three sorts of the `Algorithms` namespace promise, and facts
    about sequences of `int` shared by their proofs. */
module Sorting {

  /** Ascending order. */
  ghost predicate Sorted(s: seq<int>)
  {
    forall i, j :: 0 <= i < j < |s| ==> s[i] <= s[j]
  }

  /** Every element of s is at most b. */
  ghost predicate AllAtMost(s: seq<int>, b: int)
  {
    forall k :: 0 <= k < |s| ==> s[k] <= b
  }

  /** Every element of s exceeds b. */
  ghost predicate AllAbove(s: seq<int>, b: int)
  {
    forall k :: 0 <= k < |s| ==> s[k] > b
  }

  /** Two sorted sequences with the same elements start with the same
      element. */
  lemma SortedHeads(s: seq<int>, t: seq<int>)
    requires Sorted(s) && Sorted(t) && multiset(s) == multiset(t) && |s| > 0
    ensures |t| > 0 && s[0] == t[0]
  {
    assert |t| == |multiset(t)| == |multiset(s)| > 0;
    assert s[0] in multiset(t) && t[0] in multiset(s);
    var i :| 0 <= i < |t| && t[i] == s[0];
    var j :| 0 <= j < |s| && s[j] == t[0];
    assert t[0] <= t[i] && s[0] <= s[j];
  }

  /** Dropping the first element of s drops it from its multiset. */
  lemma DropFirst(s: seq<int>)
    requires |s| > 0
    ensures multiset(s[1..]) == multiset(s) - multiset{s[0]}
  {
    assert s == [s[0]] + s[1..];
  }

  /** A sorted permutation is unique: two sorted sequences with the same
      elements are equal, so every sort of the same input gives the same
      result. */
  lemma {:induction false} SortedUnique(s: seq<int>, t: seq<int>)
    requires Sorted(s) && Sorted(t) && multiset(s) == multiset(t)
    ensures s == t
    decreases |s|
  {
    if |s| == 0 {
      assert |multiset(t)| == 0;
    } else {
      SortedHeads(s, t);
      DropFirst(s);
      DropFirst(t);
      SortedUnique(s[1..], t[1..]);
      assert s == [s[0]] + s[1..] && t == [t[0]] + t[1..];
    }
  }

  /** A sorted sequence stays sorted with an element no greater than any of
      its own in front. */
  lemma SortedCons(h: int, s: seq<int>)
    requires Sorted(s) && forall k :: 0 <= k < |s| ==> h <= s[k]
    ensures Sorted([h] + s)
  {
    forall i, j | 0 <= i < j < |s| + 1 ensures ([h] + s)[i] <= ([h] + s)[j] {
      if i > 0 {
        assert ([h] + s)[i] == s[i - 1];
      }
    }
  }

  /** A bound on every element carries over to any permutation. */
  lemma AtMostCarries(s: seq<int>, t: seq<int>, b: int)
    requires multiset(s) == multiset(t) && AllAtMost(t, b)
    ensures AllAtMost(s, b)
  {
    forall k | 0 <= k < |s| ensures s[k] <= b {
      assert s[k] in multiset(t);
    }
  }

  /** A strict lower bound on every element carries over to any
      permutation. */
  lemma AboveCarries(s: seq<int>, t: seq<int>, b: int)
    requires multiset(s) == multiset(t) && AllAbove(t, b)
    ensures AllAbove(s, b)
  {
    forall k | 0 <= k < |s| ensures s[k] > b {
      assert s[k] in multiset(t);
    }
  }

  /** Two equally long sequences that agree outside [lo, hi) have the same
      elements exactly when their [lo, hi) parts do. */
  lemma SliceMultiset(s: seq<int>, t: seq<int>, lo: int, hi: int)
    requires 0 <= lo <= hi <= |s| == |t|
    requires s[..lo] == t[..lo] && s[hi..] == t[hi..]
    ensures multiset(s) == multiset(t) <==> multiset(s[lo..hi]) == multiset(t[lo..hi])
  {
    assert s == s[..lo] + s[lo..hi] + s[hi..];
    assert t == t[..lo] + t[lo..hi] + t[hi..];
    var outside := multiset(s[..lo]) + multiset(s[hi..]);
    assert multiset(s) == multiset(s[lo..hi]) + outside;
    assert multiset(t) == multiset(t[lo..hi]) + outside;
    assert multiset(s[lo..hi]) == multiset(s) - outside;
    assert multiset(t[lo..hi]) == multiset(t) - outside;
  }

  /** a[..] with the entries at i and j exchanged. */
  function Swap(s: seq<int>, i: int, j: int): (r: seq<int>)
    requires 0 <= i < |s| && 0 <= j < |s|
    ensures |r| == |s| && r[i] == s[j] && r[j] == s[i]
    ensures forall k :: 0 <= k < |s| && k != i && k != j ==> r[k] == s[k]
  {
    s[i := s[j]][j := s[i]]
  }

  /** An exchange keeps the elements. */
  lemma SwapPermutes(s: seq<int>, i: int, j: int)
    requires 0 <= i < |s| && 0 <= j < |s|
    ensures multiset(Swap(s, i, j)) == multiset(s)
  {
  }

  /** `swap(a[i], a[j])`. */
  method Exchange(a: array<int>, i: int, j: int)
    requires 0 <= i < a.Length && 0 <= j < a.Length
    modifies a
    ensures a[..] == Swap(old(a[..]), i, j) && multiset(a[..]) == multiset(old(a[..]))
  {
    a[i], a[j] := a[j], a[i];
    SwapPermutes(old(a[..]), i, j);
  }
}
