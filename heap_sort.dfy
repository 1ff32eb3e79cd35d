/** `Algorithms::heapify` and `heapSort`: heap sort of a vector of `int` in
    place. The first n entries form a max-heap when every entry at least
    as large as its children 2i + 1 and 2i + 2. */
module HeapSort {
  import opened Sorting

  /** The heap order on s[..n], for every parent at index lo or beyond. */
  ghost predicate Heap(s: seq<int>, n: int, lo: int)
  {
    n <= |s| && forall p, c :: lo <= p && 0 <= p < c < n && (c == 2 * p + 1 || c == 2 * p + 2) ==> s[p] >= s[c]
  }

  /** The same, except possibly where the parent is i. */
  ghost predicate HeapExcept(s: seq<int>, n: int, lo: int, i: int)
  {
    n <= |s| && forall p, c :: lo <= p && 0 <= p < c < n && (c == 2 * p + 1 || c == 2 * p + 2) && p != i ==> s[p] >= s[c]
  }

  /** The parent of i, when the order covers it, is at least as large as
      i's children: sifting i down cannot break the order above i. */
  ghost predicate Bridge(s: seq<int>, n: int, lo: int, i: int)
    requires 0 <= i && n <= |s|
  {
    i > 0 && lo <= (i - 1) / 2 ==>
      forall c :: (c == 2 * i + 1 || c == 2 * i + 2) && c < n ==> s[(i - 1) / 2] >= s[c]
  }

  /** When i is at least as large as its children, the order holds
      everywhere. */
  lemma SiftDone(s: seq<int>, n: int, lo: int, i: int)
    requires 0 <= i < n && HeapExcept(s, n, lo, i)
    requires forall c :: (c == 2 * i + 1 || c == 2 * i + 2) && c < n ==> s[i] >= s[c]
    ensures Heap(s, n, lo)
  {
  }

  /** Exchanging i with its larger child moves the possible break of the
      order down to that child. */
  lemma SiftStep(s: seq<int>, n: int, lo: int, i: int, largest: int)
    requires 0 <= lo <= i < n && HeapExcept(s, n, lo, i) && Bridge(s, n, lo, i)
    requires (largest == 2 * i + 1 || largest == 2 * i + 2) && largest < n && s[largest] > s[i]
    requires forall c :: (c == 2 * i + 1 || c == 2 * i + 2) && c < n ==> s[largest] >= s[c]
    ensures HeapExcept(Swap(s, i, largest), n, lo, largest)
    ensures Bridge(Swap(s, i, largest), n, lo, largest)
  {
    var t := Swap(s, i, largest);
    assert (largest - 1) / 2 == i;
  }

  /** `heapify(a, n, i)`: sift a[i] down within a[..n]. With the order
      holding from lo except at i, and i's parent bounding its children, the
      order holds from lo afterwards; only a[i..n) moves. */
  method Heapify(a: array<int>, n: int, i: int, ghost lo: int)
    requires 0 <= lo <= i < n <= a.Length
    requires HeapExcept(a[..], n, lo, i) && Bridge(a[..], n, lo, i)
    modifies a
    ensures Heap(a[..], n, lo)
    ensures multiset(a[..]) == multiset(old(a[..]))
    ensures forall t :: 0 <= t < a.Length && !(i <= t < n) ==> a[t] == old(a[t])
    decreases n - i, 1
  {
    var largest := i;
    var l := 2 * i + 1;
    var r := 2 * i + 2;
    if l < n && a[l] > a[largest] {
      largest := l;
    }
    if r < n && a[r] > a[largest] {
      largest := r;
    }
    if largest != i {
      SiftDown(a, n, i, largest, lo);
    } else {
      SiftDone(a[..], n, lo, i);
    }
  }

  /** The branch of `heapify` where a child, `largest`, is larger than a[i]:
      exchange the two and heapify from `largest`. */
  method SiftDown(a: array<int>, n: int, i: int, largest: int, ghost lo: int)
    requires 0 <= lo <= i < n <= a.Length
    requires HeapExcept(a[..], n, lo, i) && Bridge(a[..], n, lo, i)
    requires (largest == 2 * i + 1 || largest == 2 * i + 2) && largest < n && a[largest] > a[i]
    requires forall c :: (c == 2 * i + 1 || c == 2 * i + 2) && c < n ==> a[largest] >= a[c]
    modifies a
    ensures Heap(a[..], n, lo)
    ensures multiset(a[..]) == multiset(old(a[..]))
    ensures forall t :: 0 <= t < a.Length && !(i <= t < n) ==> a[t] == old(a[t])
    decreases n - i, 0
  {
    ghost var s := a[..];
    Exchange(a, i, largest);
    SiftStep(s, n, lo, i, largest);
    Heapify(a, n, largest, lo);
  }

  /** Entries from n / 2 on have no children inside a[..n]. */
  lemma LeavesHeap(s: seq<int>, n: int)
    requires 0 <= n <= |s|
    ensures Heap(s, n, n / 2)
  {
  }

  /** The first loop of `heapSort`: heapify every parent from n / 2 - 1 down
      to 0, so that all of a is a max-heap. */
  method BuildHeap(a: array<int>)
    modifies a
    ensures Heap(a[..], a.Length, 0)
    ensures multiset(a[..]) == multiset(old(a[..]))
  {
    var n := a.Length;
    var i := n / 2 - 1;
    LeavesHeap(a[..], n);
    while i >= 0
      invariant -1 <= i && i + 1 <= n
      invariant Heap(a[..], n, i + 1)
      invariant multiset(a[..]) == multiset(old(a[..]))
    {
      Heapify(a, n, i, i);
      i := i - 1;
    }
  }

  /** Every entry of s[m..] is at least every entry of s[..m]. */
  ghost predicate Split(s: seq<int>, m: int)
  {
    forall x, y :: 0 <= x < m <= y < |s| ==> s[x] <= s[y]
  }

  /** The state of the second loop of `heapSort` with a heap of m entries:
      a[..m] is a max-heap, a[m..] is sorted and holds the largest entries. */
  ghost predicate SortDownInv(s: seq<int>, m: int)
  {
    0 <= m <= |s| && Heap(s, m, 0) && Sorted(s[m..]) && Split(s, m)
  }

  /** In a max-heap every entry is at most the entry of each ancestor,
      here of its ancestor k. */
  lemma {:induction false} BelowRoot(s: seq<int>, m: int, k: int)
    requires Heap(s, m, 0) && 0 <= k < m
    ensures s[k] <= s[0]
    decreases k
  {
    if k > 0 {
      BelowRoot(s, m, (k - 1) / 2);
    }
  }

  /** Exchanging the root with the last heap entry grows the sorted part by
      one and leaves the order broken at the root only. */
  lemma SortDownStep(s: seq<int>, m: int)
    requires SortDownInv(s, m) && m >= 2
    ensures var t := Swap(s, 0, m - 1);
      && HeapExcept(t, m - 1, 0, 0) && Bridge(t, m - 1, 0, 0)
      && Sorted(t[m - 1..]) && Split(t, m - 1)
  {
    var t := Swap(s, 0, m - 1);
    forall k | 0 <= k < m ensures s[k] <= s[0] {
      BelowRoot(s, m, k);
    }
    assert t[m - 1..] == [s[0]] + s[m..];
    forall x, y | 0 <= x < m - 1 <= y < |t| ensures t[x] <= t[y] {
      assert t[x] <= s[0];
      if y >= m {
        assert t[y] == s[y];
      }
    }
    forall k | 0 <= k < |s[m..]| ensures s[0] <= s[m..][k] {
      assert s[m..][k] == s[m + k];
    }
    SortedCons(s[0], s[m..]);
  }

  /** Sifting the root down keeps the sorted part and its bound. */
  lemma SortDownAfter(t: seq<int>, u: seq<int>, m: int)
    requires |u| == |t| && 0 <= m <= |t| && multiset(u) == multiset(t)
    requires forall k :: m <= k < |t| ==> u[k] == t[k]
    requires Sorted(t[m..]) && Split(t, m) && Heap(u, m, 0)
    ensures SortDownInv(u, m)
  {
    assert u[m..] == t[m..];
    SliceMultiset(u, t, 0, m);
    forall x, y | 0 <= x < m <= y < |u| ensures u[x] <= u[y] {
      assert u[x] in multiset(t[0..m]);
      var x' :| 0 <= x' < m && t[0..m][x'] == u[x];
    }
  }

  /** With at most one entry left in the heap, all of s is sorted. */
  lemma SortDownDone(s: seq<int>, m: int)
    requires SortDownInv(s, m) && m <= 1
    ensures Sorted(s)
  {
    if m == 1 {
      forall i, j | 0 <= i < j < |s| ensures s[i] <= s[j] {
        if i > 0 {
          assert s[i] == s[1..][i - 1] && s[j] == s[1..][j - 1];
        }
      }
    } else {
      assert s[0..] == s;
    }
  }

  /** The second loop of `heapSort`: move the root behind the heap and sift
      the new root down, until one entry is left. */
  method SortDown(a: array<int>)
    requires Heap(a[..], a.Length, 0)
    modifies a
    ensures Sorted(a[..]) && multiset(a[..]) == multiset(old(a[..]))
  {
    var i := a.Length - 1;
    assert a[..][a.Length..] == [];
    while i > 0
      invariant -1 <= i < a.Length
      invariant SortDownInv(a[..], i + 1)
      invariant multiset(a[..]) == multiset(old(a[..]))
    {
      ghost var s := a[..];
      Exchange(a, 0, i);
      SortDownStep(s, i + 1);
      ghost var t := a[..];
      Heapify(a, i, 0, 0);
      SortDownAfter(t, a[..], i);
      i := i - 1;
    }
    SortDownDone(a[..], i + 1);
  }

  /** `heapSort(a)`: the vector becomes a sorted permutation of itself. */
  method HeapSortAll(a: array<int>)
    modifies a
    ensures Sorted(a[..]) && multiset(a[..]) == multiset(old(a[..]))
  {
    BuildHeap(a);
    SortDown(a);
  }
}
