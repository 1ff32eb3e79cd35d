/** The order priority structure: the global `orderHeap[MAX_ORDERS]` array and
    its counter `orderHeapSize`, a binary max-heap on `priority`, with the
    in-place sift loops `orderHeapifyUp` and `orderHeapifyDown` and the
    append-then-sift-up the order-creation code performs. */
module OrderHeap {

  /** `MAX_ORDERS`. */
  const MaxOrders: nat := 300

  /** `Domain::OrderState`. */
  datatype OrderState = Created | Preparing | Ready | Served | Cancelled

  /** `Domain::Order`, without its floating-point total and clock timestamp. */
  datatype Order = Order(
    orderId: int,
    customerId: int,
    tableNumber: int,
    items: seq<string>,
    priority: int,
    status: OrderState)

  /** `(index - 1) >> 1`. */
  function Parent(i: nat): nat
    requires i > 0
  {
    (i - 1) / 2
  }

  /** The max-heap property on `priority`: no entry outranks its parent. */
  ghost predicate IsMaxHeap(s: seq<Order>)
  {
    forall p, c :: 0 <= p < |s| && 0 < c < |s| && (c - 1) / 2 == p ==> s[p].priority >= s[c].priority
  }

  /** A heap whose only possible defect is between k and its parent, and in
      which k's parent already outranks k's children (the state during sift-up). */
  ghost predicate HeapExceptUp(s: seq<Order>, k: nat)
  {
    && k < |s|
    && (forall p, c :: 0 <= p < |s| && 0 < c < |s| && c != k && (c - 1) / 2 == p ==> s[p].priority >= s[c].priority)
    && (k > 0 ==> forall c :: 0 < c < |s| && (c - 1) / 2 == k ==> s[(k - 1) / 2].priority >= s[c].priority)
  }

  /** A heap whose only possible defects are between k and its children, and in
      which k's parent already outranks k's children (the state during sift-down). */
  ghost predicate HeapExceptDown(s: seq<Order>, k: nat)
  {
    && (forall p, c :: 0 <= p < |s| && 0 < c < |s| && p != k && (c - 1) / 2 == p ==> s[p].priority >= s[c].priority)
    && (0 < k < |s| ==> forall c :: 0 < c < |s| && (c - 1) / 2 == k ==> s[(k - 1) / 2].priority >= s[c].priority)
  }

  /** `swapOrder` on a snapshot of the heap. */
  function Swap(s: seq<Order>, i: nat, j: nat): (r: seq<Order>)
    requires i < |s| && j < |s|
    ensures |r| == |s| && multiset(r) == multiset(s)
    ensures r[i] == s[j] && r[j] == s[i]
    ensures forall m :: 0 <= m < |s| && m != i && m != j ==> r[m] == s[m]
  {
    s[i := s[j]][j := s[i]]
  }

  /** The children of k are exactly 2k+1 and 2k+2. */
  lemma ChildrenOf(k: nat, i: nat)
    requires i > 0
    ensures (i - 1) / 2 == k <==> i == 2 * k + 1 || i == 2 * k + 2
  {
  }

  /** One iteration of the sift-up loop: swapping k with a lower-priority parent
      moves the defect to the parent. */
  lemma SiftUpStep(s: seq<Order>, k: nat)
    requires HeapExceptUp(s, k) && k > 0 && s[(k - 1) / 2].priority < s[k].priority
    ensures HeapExceptUp(Swap(s, (k - 1) / 2, k), (k - 1) / 2)
  {
    var p := (k - 1) / 2;
    var t := Swap(s, p, k);
    forall q, c | 0 <= q < |t| && 0 < c < |t| && c != p && (c - 1) / 2 == q
      ensures t[q].priority >= t[c].priority
    {
      if c == k {
      } else if q == k {
        assert t[q] == s[p] && t[c] == s[c];
      } else if q == p {
        assert t[q] == s[k] && t[c] == s[c];
      } else {
        assert t[q] == s[q] && t[c] == s[c];
      }
    }
    if p > 0 {
      var g := (p - 1) / 2;
      assert t[g] == s[g] && s[g].priority >= s[p].priority;
      forall c | 0 < c < |t| && (c - 1) / 2 == p
        ensures t[g].priority >= t[c].priority
      {
        if c != k {
          assert t[c] == s[c];
        }
      }
    }
  }

  /** One iteration of the sift-down loop: swapping k with its larger child c
      moves the defect to c. */
  lemma SiftDownStep(s: seq<Order>, k: nat, c: nat)
    requires HeapExceptDown(s, k) && c < |s| && c > 0 && (c - 1) / 2 == k
    requires s[c].priority > s[k].priority
    requires forall i :: 0 < i < |s| && (i - 1) / 2 == k ==> s[c].priority >= s[i].priority
    ensures HeapExceptDown(Swap(s, c, k), c)
  {
    var t := Swap(s, c, k);
    forall q, i | 0 <= q < |t| && 0 < i < |t| && q != c && (i - 1) / 2 == q
      ensures t[q].priority >= t[i].priority
    {
      if i == k {
        assert t[q] == s[q] && t[i] == s[c];
      } else if i == c {
      } else if q == k {
        assert t[q] == s[c] && t[i] == s[i];
      } else {
        assert t[q] == s[q] && t[i] == s[i];
      }
    }
    forall i | 0 < i < |t| && (i - 1) / 2 == c
      ensures t[k].priority >= t[i].priority
    {
      assert t[i] == s[i];
    }
  }

  /** When k outranks its children the sift-down is finished. */
  lemma SiftDownDone(s: seq<Order>, k: nat)
    requires HeapExceptDown(s, k)
    requires 2 * k + 1 < |s| ==> s[k].priority >= s[2 * k + 1].priority
    requires 2 * k + 2 < |s| ==> s[k].priority >= s[2 * k + 2].priority
    ensures IsMaxHeap(s)
  {
    forall p, c | 0 <= p < |s| && 0 < c < |s| && (c - 1) / 2 == p
      ensures s[p].priority >= s[c].priority
    {
      ChildrenOf(k, c);
    }
  }

  /** The child chosen by the sift-down loop outranks every child of k. */
  lemma LargestChild(s: seq<Order>, k: nat, c: nat)
    requires c == 2 * k + 1 || c == 2 * k + 2
    requires c < |s|
    requires 2 * k + 1 < |s| ==> s[c].priority >= s[2 * k + 1].priority
    requires 2 * k + 2 < |s| ==> s[c].priority >= s[2 * k + 2].priority
    ensures c > 0 && (c - 1) / 2 == k
    ensures forall i :: 0 < i < |s| && (i - 1) / 2 == k ==> s[c].priority >= s[i].priority
  {
    forall i | 0 < i < |s| && (i - 1) / 2 == k ensures s[c].priority >= s[i].priority {
      ChildrenOf(k, i);
    }
  }

  /** The root of a max-heap holds a highest priority (what a peek would return). */
  lemma {:induction false} RootIsMax(s: seq<Order>, i: nat)
    requires IsMaxHeap(s) && i < |s|
    ensures s[0].priority >= s[i].priority
    decreases i
  {
    if i > 0 {
      RootIsMax(s, (i - 1) / 2);
      assert s[(i - 1) / 2].priority >= s[i].priority;
    }
  }

  class OrderHeap {
    /** `orderHeap`. */
    var heap: array<Order>
    /** `orderHeapSize`. */
    var size: int

    ghost predicate Valid()
      reads this
    {
      heap.Length == MaxOrders && 0 <= size <= MaxOrders
    }

    /** The stored orders, in heap order. */
    ghost function Contents(): seq<Order>
      reads this, heap
      requires Valid()
    {
      heap[..size]
    }

    constructor (filler: Order)
      ensures Valid() && fresh(heap) && Contents() == []
    {
      heap := new Order[MaxOrders](_ => filler);
      size := 0;
    }

    /** `swapOrder(orderHeap[a], orderHeap[b])` on two stored entries. */
    method SwapOrder(a: int, b: int)
      requires Valid() && 0 <= a < size && 0 <= b < size
      modifies heap
      ensures heap[..size] == Swap(old(heap[..size]), a, b)
      ensures heap[size..] == old(heap[size..])
    {
      heap[a], heap[b] := heap[b], heap[a];
    }

    /** `orderHeapifyUp(index)`. */
    method HeapifyUp(index: int)
      requires Valid() && 0 <= index && HeapExceptUp(heap[..size], index)
      modifies heap
      ensures IsMaxHeap(heap[..size])
      ensures multiset(heap[..size]) == old(multiset(heap[..size]))
      ensures heap[size..] == old(heap[size..])
    {
      var i := index;
      while i > 0
        invariant 0 <= i < size
        invariant HeapExceptUp(heap[..size], i)
        invariant multiset(heap[..size]) == old(multiset(heap[..size]))
        invariant heap[size..] == old(heap[size..])
      {
        var parent := (i - 1) / 2;
        if heap[parent].priority >= heap[i].priority {
          break;
        }
        SiftUpStep(heap[..size], i);
        SwapOrder(parent, i);
        i := parent;
      }
    }

    /** `orderHeapifyDown(index)`; `orderHeapSize` bounds the children examined. */
    method HeapifyDown(index: int)
      requires Valid() && 0 <= index && HeapExceptDown(heap[..size], index)
      modifies heap
      ensures IsMaxHeap(heap[..size])
      ensures multiset(heap[..size]) == old(multiset(heap[..size]))
      ensures heap[size..] == old(heap[size..])
    {
      var i := index;
      while true
        invariant 0 <= i
        invariant HeapExceptDown(heap[..size], i)
        invariant multiset(heap[..size]) == old(multiset(heap[..size]))
        invariant heap[size..] == old(heap[size..])
        decreases size - i
      {
        var left := 2 * i + 1;
        var right := left + 1;
        var largest := i;
        if left < size && heap[left].priority > heap[largest].priority {
          largest := left;
        }
        if right < size && heap[right].priority > heap[largest].priority {
          largest := right;
        }
        ghost var before := heap[..size];
        if largest == i {
          SiftDownDone(before, i);
          break;
        }
        LargestChild(before, i, largest);
        SiftDownStep(before, i, largest);
        SwapOrder(largest, i);
        i := largest;
      }
    }

    /** `orderHeap[orderHeapSize++] = o; orderHeapifyUp(orderHeapSize - 1);`
        The source appends without a capacity check, so a full heap is excluded. */
    method Add(o: Order)
      requires Valid() && IsMaxHeap(Contents()) && size < MaxOrders
      modifies this, heap
      ensures Valid() && heap == old(heap) && size == old(size) + 1
      ensures IsMaxHeap(Contents())
      ensures multiset(Contents()) == old(multiset(Contents())) + multiset{o}
    {
      heap[size] := o;
      size := size + 1;
      assert heap[..size] == old(heap[..size]) + [o];
      HeapifyUp(size - 1);
    }
  }
}
