/** The delivery-location graph: the global 20 x 20 weight matrix
    `deliveryGraph`, whose marker for a missing edge is 99999, the global
    adjacency lists `adjList`, each built by prepending, and `locationCount`.
    The C++ keeps them as globals; here they are the fields of one object
    that the graph functions take. */
module DeliveryGraph {
  /** `MAX_LOCATIONS`. */
  const MaxLocations: int := 20
  /** The weight `initDeliveryGraph` writes between distinct locations. */
  const NoEdge: int := 99999
  /** The `1e9` that Dijkstra, Prim and the tour use as "unreached". */
  const Inf: int := 1000000000

  /** `AdjNode` without its `next` pointer: a list is a sequence, head first. */
  datatype AdjNode = AdjNode(dest: int, weight: int)

  /** The destinations on an adjacency list. */
  function Dests(list: seq<AdjNode>): set<int>
  {
    set k | 0 <= k < |list| :: list[k].dest
  }

  /** The lists after `addDeliveryEdge(u, v, w)`: v is prepended to u's list,
      then u to v's. */
  function WithEdge(lists: seq<seq<AdjNode>>, u: int, v: int, w: int): (r: seq<seq<AdjNode>>)
    requires 0 <= u < |lists| && 0 <= v < |lists|
    ensures |r| == |lists|
  {
    var once := lists[u := [AdjNode(v, w)] + lists[u]];
    once[v := [AdjNode(u, w)] + once[v]]
  }

  /** Every destination names a location. */
  ghost predicate DestsInRange(lists: seq<seq<AdjNode>>)
  {
    forall a, d :: 0 <= a < |lists| && d in Dests(lists[a]) ==> 0 <= d < |lists|
  }

  /** Each list edge has its reverse. */
  ghost predicate SymmetricLists(lists: seq<seq<AdjNode>>)
  {
    forall a, b :: 0 <= a < |lists| && 0 <= b < |lists| ==> (b in Dests(lists[a]) <==> a in Dests(lists[b]))
  }

  lemma DestsPrepend(x: AdjNode, list: seq<AdjNode>)
    ensures Dests([x] + list) == {x.dest} + Dests(list)
  {
    var l := [x] + list;
    assert l[0].dest == x.dest;
    forall d | d in Dests(l) ensures d in {x.dest} + Dests(list) {
      var k :| 0 <= k < |l| && l[k].dest == d;
      if k > 0 {
        assert list[k - 1].dest == d;
      }
    }
    forall d | d in Dests(list) ensures d in Dests(l) {
      var k :| 0 <= k < |list| && list[k].dest == d;
      assert l[k + 1].dest == d;
    }
  }

  /** `addDeliveryEdge` adds v to u's destinations and u to v's, and nothing
      else. */
  lemma WithEdgeDests(lists: seq<seq<AdjNode>>, u: int, v: int, w: int, a: int)
    requires 0 <= u < |lists| && 0 <= v < |lists| && 0 <= a < |lists|
    ensures Dests(WithEdge(lists, u, v, w)[a]) ==
              Dests(lists[a]) + (if a == u then {v} else {}) + (if a == v then {u} else {})
  {
    var once := lists[u := [AdjNode(v, w)] + lists[u]];
    DestsPrepend(AdjNode(v, w), lists[u]);
    DestsPrepend(AdjNode(u, w), once[v]);
  }

  /** Adding an edge between two locations keeps the lists in range and
      symmetric. */
  lemma WithEdgeKeepsShape(lists: seq<seq<AdjNode>>, u: int, v: int, w: int)
    requires 0 <= u < |lists| && 0 <= v < |lists|
    ensures DestsInRange(lists) ==> DestsInRange(WithEdge(lists, u, v, w))
    ensures SymmetricLists(lists) ==> SymmetricLists(WithEdge(lists, u, v, w))
  {
    var r := WithEdge(lists, u, v, w);
    forall a | 0 <= a < |lists| {
      WithEdgeDests(lists, u, v, w, a);
    }
  }

  /** The weight matrix of the first n locations. */
  ghost predicate IsMatrix(g: seq<seq<int>>, n: int)
  {
    |g| == n && forall i :: 0 <= i < n ==> |g[i]| == n
  }

  /** The matrix `initDeliveryGraph(n)` writes. */
  function InitialMatrix(n: nat): (r: seq<seq<int>>)
    ensures IsMatrix(r, n)
  {
    seq(n, i => seq(n, j => if i == j then 0 else NoEdge))
  }

  /** The initial matrix is symmetric with a zero diagonal, and every other
      entry is the missing-edge marker. */
  lemma InitialMatrixShape(n: nat, i: int, j: int)
    requires 0 <= i < n && 0 <= j < n
    ensures InitialMatrix(n)[i][j] == InitialMatrix(n)[j][i]
    ensures (InitialMatrix(n)[i][j] == 0) == (i == j)
  {
  }

  /** The top-left n x n corner of a weight matrix, as rows. */
  function Grid(a: array2<int>, n: int): (r: seq<seq<int>>)
    reads a
    requires 0 <= n <= a.Length0 && n <= a.Length1
    ensures IsMatrix(r, n)
    ensures forall i, j :: 0 <= i < n && 0 <= j < n ==> r[i][j] == a[i, j]
  {
    seq(n, i requires 0 <= i < n reads a =>
      seq(n, j requires 0 <= i < n <= a.Length0 && 0 <= j < n <= a.Length1 reads a => a[i, j]))
  }

  /** The global graph state. */
  class DeliveryNetwork {
    var deliveryGraph: array2<int>
    var adjList: array<seq<AdjNode>>
    var locationCount: int

    ghost predicate Valid()
      reads this, adjList
    {
      && deliveryGraph.Length0 == MaxLocations && deliveryGraph.Length1 == MaxLocations
      && adjList.Length == MaxLocations
      && 0 <= locationCount <= MaxLocations
      && DestsInRange(adjList[..])
    }

    /** The weights among the first n locations. */
    function Matrix(n: int): (r: seq<seq<int>>)
      reads this, deliveryGraph
      requires 0 <= n <= deliveryGraph.Length0 && n <= deliveryGraph.Length1
      ensures IsMatrix(r, n)
      ensures forall i, j :: 0 <= i < n && 0 <= j < n ==> r[i][j] == deliveryGraph[i, j]
    {
      Grid(deliveryGraph, n)
    }

    /** The zero-initialised globals. */
    constructor ()
      ensures Valid() && locationCount == 0 && fresh(deliveryGraph) && fresh(adjList)
      ensures forall i :: 0 <= i < MaxLocations ==> adjList[i] == []
    {
      deliveryGraph := new int[MaxLocations, MaxLocations]((i, j) => 0);
      adjList := new seq<AdjNode>[MaxLocations](i => []);
      locationCount := 0;
    }

    /** `initDeliveryGraph(nodes)`. */
    method InitDeliveryGraph(nodes: int)
      requires Valid() && 0 <= nodes <= MaxLocations
      modifies this, deliveryGraph, adjList
      ensures Valid() && locationCount == nodes
      ensures deliveryGraph == old(deliveryGraph) && adjList == old(adjList)
      ensures Matrix(nodes) == InitialMatrix(nodes)
      ensures forall i, j :: 0 <= i < MaxLocations && 0 <= j < MaxLocations && !(i < nodes && j < nodes) ==>
                deliveryGraph[i, j] == old(deliveryGraph[i, j])
      ensures forall i :: 0 <= i < MaxLocations ==> adjList[i] == if i < nodes then [] else old(adjList[i])
    {
      locationCount := nodes;
      var i := 0;
      while i < nodes
        invariant 0 <= i <= nodes
        invariant deliveryGraph == old(deliveryGraph) && adjList == old(adjList) && locationCount == nodes
        invariant forall a, b :: 0 <= a < MaxLocations && 0 <= b < MaxLocations ==>
                    deliveryGraph[a, b] == if a < i && b < nodes then (if a == b then 0 else NoEdge) else old(deliveryGraph[a, b])
        invariant forall a :: 0 <= a < MaxLocations ==> adjList[a] == if a < i then [] else old(adjList[a])
      {
        var j := 0;
        while j < nodes
          invariant 0 <= j <= nodes
          invariant deliveryGraph == old(deliveryGraph) && adjList == old(adjList) && locationCount == nodes
          invariant forall a, b :: 0 <= a < MaxLocations && 0 <= b < MaxLocations ==>
                      deliveryGraph[a, b] ==
                        if (a < i && b < nodes) || (a == i && b < j) then (if a == b then 0 else NoEdge) else old(deliveryGraph[a, b])
          invariant forall a :: 0 <= a < MaxLocations ==> adjList[a] == if a < i then [] else old(adjList[a])
        {
          deliveryGraph[i, j] := if i == j then 0 else NoEdge;
          j := j + 1;
        }
        adjList[i] := [];
        i := i + 1;
      }
      assert forall a, d :: 0 <= a < MaxLocations && d in Dests(adjList[a]) ==> d in Dests(old(adjList[a]));
      forall a | 0 <= a < nodes ensures Matrix(nodes)[a] == InitialMatrix(nodes)[a] {
      }
    }

    /** `addDeliveryEdge(u, v, w)`. */
    method AddDeliveryEdge(u: int, v: int, w: int)
      requires Valid() && 0 <= u < MaxLocations && 0 <= v < MaxLocations
      modifies deliveryGraph, adjList
      ensures Valid()
      ensures forall i, j :: 0 <= i < MaxLocations && 0 <= j < MaxLocations ==>
                deliveryGraph[i, j] == if (i == u && j == v) || (i == v && j == u) then w else old(deliveryGraph[i, j])
      ensures adjList[..] == WithEdge(old(adjList[..]), u, v, w)
    {
      deliveryGraph[u, v] := w;
      deliveryGraph[v, u] := w;
      adjList[u] := [AdjNode(v, w)] + adjList[u];
      adjList[v] := [AdjNode(u, w)] + adjList[v];
      WithEdgeKeepsShape(old(adjList[..]), u, v, w);
    }
  }

  /** Adding an edge keeps a symmetric matrix symmetric. */
  lemma AddEdgeKeepsSymmetry(g: seq<seq<int>>, g': seq<seq<int>>, n: int, u: int, v: int, w: int)
    requires IsMatrix(g, n) && IsMatrix(g', n) && 0 <= u < n && 0 <= v < n
    requires forall i, j :: 0 <= i < n && 0 <= j < n ==> g[i][j] == g[j][i]
    requires forall i, j :: 0 <= i < n && 0 <= j < n ==>
               g'[i][j] == if (i == u && j == v) || (i == v && j == u) then w else g[i][j]
    ensures forall i, j :: 0 <= i < n && 0 <= j < n ==> g'[i][j] == g'[j][i]
  {
  }

  // ---------------------------------------------------------------------
  // Shared facts about sequences of locations
  // ---------------------------------------------------------------------

  ghost predicate Distinct(s: seq<int>)
  {
    forall i, j :: 0 <= i < j < |s| ==> s[i] != s[j]
  }

  ghost predicate InRange(s: seq<int>, n: int)
  {
    forall i :: 0 <= i < |s| ==> 0 <= s[i] < n
  }

  /** Distinct locations below n are at most n. */
  lemma {:induction false} DistinctBound(s: seq<int>, n: nat)
    requires Distinct(s) && InRange(s, n)
    ensures |s| <= n
    decreases n
  {
    if |s| > 0 {
      assert 0 <= s[0] < n;
      if k :| 0 <= k < |s| && s[k] == n - 1 {
        var t := s[..k] + s[k + 1..];
        assert forall i :: 0 <= i < |t| ==> t[i] == if i < k then s[i] else s[i + 1];
        DistinctBound(t, n - 1);
      } else {
        DistinctBound(s, n - 1);
      }
    }
  }

  /** The number of unset flags. */
  function CountFalse(s: seq<bool>): nat
  {
    if s == [] then 0 else CountFalse(s[..|s| - 1]) + if s[|s| - 1] then 0 else 1
  }

  /** Setting one unset flag lowers the count of unset ones by one. */
  lemma {:induction false} CountFalseSet(s: seq<bool>, i: int)
    requires 0 <= i < |s| && !s[i]
    ensures CountFalse(s[i := true]) == CountFalse(s) - 1
  {
    var t := s[i := true];
    if i < |s| - 1 {
      assert t[..|t| - 1] == s[..|s| - 1][i := true];
      CountFalseSet(s[..|s| - 1], i);
    } else {
      assert t[..|t| - 1] == s[..|s| - 1];
    }
  }

  /** A positive count of unset flags names an unset one. */
  lemma {:induction false} CountFalseWitness(s: seq<bool>) returns (i: int)
    requires CountFalse(s) > 0
    ensures 0 <= i < |s| && !s[i]
  {
    if s[|s| - 1] {
      i := CountFalseWitness(s[..|s| - 1]);
    } else {
      i := |s| - 1;
    }
  }

  /** Two different unset flags make a count of at least two. */
  lemma {:induction false} CountFalseTwo(s: seq<bool>, a: int, b: int)
    requires 0 <= a < b < |s| && !s[a] && !s[b]
    ensures CountFalse(s) >= 2
  {
    if b < |s| - 1 {
      CountFalseTwo(s[..|s| - 1], a, b);
    } else {
      CountFalsePositive(s[..|s| - 1], a);
    }
  }

  /** An unset flag makes the count positive. */
  lemma {:induction false} CountFalsePositive(s: seq<bool>, a: int)
    requires 0 <= a < |s| && !s[a]
    ensures CountFalse(s) > 0
  {
    if a < |s| - 1 {
      CountFalsePositive(s[..|s| - 1], a);
    }
  }

  /** Setting flags never raises the count of unset ones, and setting an
      unset one lowers it. */
  lemma {:induction false} CountFalseMono(a: seq<bool>, b: seq<bool>)
    requires |a| == |b| && forall i :: 0 <= i < |a| && a[i] ==> b[i]
    ensures CountFalse(b) <= CountFalse(a)
    ensures (exists i :: 0 <= i < |a| && !a[i] && b[i]) ==> CountFalse(b) < CountFalse(a)
  {
    if a != [] {
      CountFalseMono(a[..|a| - 1], b[..|b| - 1]);
      if i :| 0 <= i < |a| && !a[i] && b[i] {
        if i < |a| - 1 {
          assert !a[..|a| - 1][i] && b[..|b| - 1][i];
        }
      }
    }
  }

  /** A sequence of unset flags counts them all. */
  lemma {:induction false} AllUnset(s: seq<bool>)
    requires forall i :: 0 <= i < |s| ==> !s[i]
    ensures CountFalse(s) == |s|
  {
    if s != [] {
      AllUnset(s[..|s| - 1]);
    }
  }

  // ---------------------------------------------------------------------
  // The priority queue `priority_queue<pair<int,int>, ..., greater<...>>`
  // ---------------------------------------------------------------------

  /** The order of `greater<pair<int,int>>`: by weight, then by location. */
  predicate PairLe(a: (int, int), b: (int, int))
  {
    a.0 < b.0 || (a.0 == b.0 && a.1 <= b.1)
  }

  /** A non-empty queue has a least pair: the one `top()` returns. */
  lemma {:induction false} LeastPair(pq: multiset<(int, int)>) returns (m: (int, int))
    requires |pq| > 0
    ensures m in pq && forall p :: p in pq ==> PairLe(m, p)
    decreases |pq|
  {
    var x :| x in pq;
    var rest := pq - multiset{x};
    if |rest| == 0 {
      m := x;
      assert pq == rest + multiset{x};
    } else {
      var r := LeastPair(rest);
      m := if PairLe(x, r) then x else r;
      forall p | p in pq ensures PairLe(m, p) {
        if p != x {
          assert p in rest;
        }
      }
    }
  }
}
