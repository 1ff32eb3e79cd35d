/** Prim's spanning tree over the weight matrix: `minKey` with the O(n^2)
    `primMST`, and the priority-queue `primMSTOptimized`. As in the shortest
    paths, every non-zero entry is an edge and 1e9 is "no key yet". Instead
    of printing, each returns its `parent` and `key` arrays (and
    `primMSTOptimized` the total it prints).

    The common specification is the order in which locations join the tree,
    a ghost sequence starting at 0. Every later location hangs from an
    earlier one through an edge whose weight is its key, and that key was no
    heavier than any edge from the tree built before it to a location still
    outside (the cut property Prim's correctness rests on). Locations that
    never join keep key 1e9 and parent -1, and no edge lighter than 1e9
    reaches them from the tree. Hence the tree holds exactly the locations
    reachable from 0 along edges lighter than 1e9. */
module SpanningTree {
  import opened Wrappers
  import opened DeliveryGraph
  import opened EdgeSets

  /** The i-th location to join (i >= 1) hangs from an earlier one through
      an edge lighter than 1e9, whose weight is its key. */
  ghost predicate Attached(g: seq<seq<int>>, order: seq<int>, parent: seq<int>, key: seq<int>, i: int)
    requires IsMatrix(g, |key|) && |parent| == |key| && InRange(order, |key|) && 0 <= i < |order|
  {
    var v := order[i];
    0 <= parent[v] < |key| && parent[v] in order[..i] && g[parent[v]][v] != 0 && key[v] == g[parent[v]][v] < Inf
  }

  /** When the i-th location joined, its key was no heavier than any edge
      from the tree so far to a location outside it. */
  ghost predicate LightestCrossing(g: seq<seq<int>>, order: seq<int>, key: seq<int>, i: int)
    requires IsMatrix(g, |key|) && InRange(order, |key|) && 0 <= i < |order|
  {
    forall j, y :: 0 <= j < i && 0 <= y < |key| && y !in order[..i] && g[order[j]][y] != 0 ==>
      key[order[i]] <= g[order[j]][y]
  }

  /** No edge lighter than 1e9 leaves the listed locations. */
  ghost predicate Isolated(g: seq<seq<int>>, order: seq<int>, n: int)
    requires IsMatrix(g, n) && InRange(order, n)
  {
    forall j, y :: 0 <= j < |order| && 0 <= y < n && y !in order && g[order[j]][y] != 0 ==> g[order[j]][y] >= Inf
  }

  /** The locations joined so far, from 0 on, each later one attached
      through a lightest crossing edge. */
  ghost predicate TreeSoFar(g: seq<seq<int>>, n: int, order: seq<int>, parent: seq<int>, key: seq<int>)
  {
    && IsMatrix(g, n) && |parent| == n && |key| == n
    && InRange(order, n) && Distinct(order) && (|order| > 0 ==> order[0] == 0)
    && (forall i :: 1 <= i < |order| ==> Attached(g, order, parent, key, i))
    && (forall i :: 1 <= i < |order| ==> LightestCrossing(g, order, key, i))
  }

  /** The tree Prim's algorithm grows from location 0, joined in `order`. */
  ghost predicate PrimTree(g: seq<seq<int>>, n: int, order: seq<int>, parent: seq<int>, key: seq<int>)
  {
    && TreeSoFar(g, n, order, parent, key) && |order| > 0
    && key[0] == 0 && parent[0] == -1
    && (forall v :: 0 <= v < n && v !in order ==> parent[v] == -1 && key[v] == Inf)
    && Isolated(g, order, n)
  }

  /** Where `primMST` stops short: the locations joined so far, from 0, have
      no edge lighter than 1e9 to the location(s) left out. */
  ghost predicate Stuck(g: seq<seq<int>>, n: int, order: seq<int>)
  {
    && IsMatrix(g, n) && InRange(order, n) && Distinct(order)
    && |order| > 0 && order[0] == 0 && Isolated(g, order, n)
    && exists y :: 0 <= y < n && y !in order
  }

  /** A route along edges lighter than 1e9. */
  ghost predicate IsLightRoute(g: seq<seq<int>>, p: seq<int>)
    requires IsMatrix(g, |g|)
  {
    && |p| > 0 && InRange(p, |g|)
    && forall i :: 0 <= i < |p| - 1 ==> g[p[i]][p[i + 1]] != 0 && g[p[i]][p[i + 1]] < Inf
  }

  // ---------------------------------------------------------------------
  // What the tree spans
  // ---------------------------------------------------------------------

  /** Every joined location is reached from 0 through the tree edges. */
  lemma {:induction false} TreeRoute(g: seq<seq<int>>, n: int, order: seq<int>, parent: seq<int>, key: seq<int>, i: int)
    returns (p: seq<int>)
    requires PrimTree(g, n, order, parent, key) && 0 <= i < |order|
    ensures IsLightRoute(g, p) && p[0] == 0 && p[|p| - 1] == order[i]
    decreases i
  {
    if i == 0 {
      p := [0];
    } else {
      assert Attached(g, order, parent, key, i);
      var v := order[i];
      var k :| 0 <= k < i && order[k] == parent[v];
      var q := TreeRoute(g, n, order, parent, key, k);
      p := q + [v];
      assert forall j :: 0 <= j < |q| ==> p[j] == q[j];
    }
  }

  /** A route from 0 along edges lighter than 1e9 never leaves a set of
      locations that holds 0 and that no such edge leaves. */
  lemma {:induction false} RouteStaysInside(g: seq<seq<int>>, n: int, order: seq<int>, p: seq<int>)
    requires IsMatrix(g, n) && InRange(order, n) && |order| > 0 && order[0] == 0 && Isolated(g, order, n)
    requires IsLightRoute(g, p) && p[0] == 0
    ensures p[|p| - 1] in order
    decreases |p|
  {
    if |p| > 1 {
      var q := p[..|p| - 1];
      RouteStaysInside(g, n, order, q);
      var j :| 0 <= j < |order| && order[j] == q[|q| - 1];
      assert g[order[j]][p[|p| - 1]] == g[p[|p| - 2]][p[|p| - 1]];
    }
  }

  /** The tree holds exactly the locations reachable from 0 along edges
      lighter than 1e9. */
  lemma PrimTreeSpansReach(g: seq<seq<int>>, n: int, order: seq<int>, parent: seq<int>, key: seq<int>, y: int)
    requires PrimTree(g, n, order, parent, key) && 0 <= y < n
    ensures y in order <==> exists p :: IsLightRoute(g, p) && p[0] == 0 && p[|p| - 1] == y
  {
    if y in order {
      var i :| 0 <= i < |order| && order[i] == y;
      var p := TreeRoute(g, n, order, parent, key, i);
    }
    forall p | IsLightRoute(g, p) && p[0] == 0 && p[|p| - 1] == y ensures y in order {
      RouteStaysInside(g, n, order, p);
    }
  }

  /** When `primMST` stops short, some location is reachable from 0 along
      no edges lighter than 1e9. */
  lemma StuckMeansUnreachable(g: seq<seq<int>>, n: int, order: seq<int>) returns (y: int)
    requires Stuck(g, n, order)
    ensures 0 <= y < n && forall p :: IsLightRoute(g, p) && p[0] == 0 ==> p[|p| - 1] != y
  {
    y :| 0 <= y < n && y !in order;
    forall p | IsLightRoute(g, p) && p[0] == 0 ensures p[|p| - 1] != y {
      RouteStaysInside(g, n, order, p);
    }
  }

  // ---------------------------------------------------------------------
  // The state both forms keep
  // ---------------------------------------------------------------------

  /** A location outside the tree: key 1e9 and no parent, or hanging from a
      tree location through an edge whose weight is its key. */
  ghost predicate Frontier(g: seq<seq<int>>, order: seq<int>, parent: seq<int>, key: seq<int>, y: int)
    requires IsMatrix(g, |key|) && |parent| == |key| && 0 <= y < |key|
  {
    && (parent[y] == -1 <==> key[y] == Inf)
    && (parent[y] != -1 ==> 0 <= parent[y] < |key| && parent[y] in order && g[parent[y]][y] != 0 && key[y] == g[parent[y]][y])
  }

  /** What holds of the keys, parents and join flags with `order` joined,
      apart from the keys being relaxed. */
  ghost predicate Grown(g: seq<seq<int>>, n: int, key: seq<int>, parent: seq<int>, joined: seq<bool>, order: seq<int>)
  {
    && TreeSoFar(g, n, order, parent, key) && |joined| == n && n > 0
    && CountFalse(joined) == n - |order|
    && (forall v :: 0 <= v < n ==> (joined[v] <==> v in order))
    && key[0] == 0 && parent[0] == -1 && (forall v :: 0 <= v < n ==> key[v] <= Inf)
    && (|order| == 0 ==> forall v :: 0 < v < n ==> key[v] == Inf && parent[v] == -1)
    && (forall y :: 0 < y < n && !joined[y] ==> Frontier(g, order, parent, key, y))
  }

  /** The keys of the locations outside the tree are relaxed along every edge
      from the tree. */
  ghost predicate KeysRelaxed(g: seq<seq<int>>, n: int, key: seq<int>, joined: seq<bool>, order: seq<int>)
    requires IsMatrix(g, n) && |key| == n && |joined| == n && InRange(order, n)
  {
    forall j, y :: 0 <= j < |order| && 0 <= y < n && !joined[y] && g[order[j]][y] != 0 ==> key[y] <= g[order[j]][y]
  }

  /** The same while the edges out of the last joined location u are being
      relaxed, those to the locations below v done. */
  ghost predicate KeysRelaxedBelow(g: seq<seq<int>>, n: int, key: seq<int>, joined: seq<bool>, order: seq<int>, v: int)
    requires IsMatrix(g, n) && |key| == n && |joined| == n && InRange(order, n)
  {
    forall j, y :: 0 <= j < |order| && 0 <= y < n && !joined[y] && g[order[j]][y] != 0 && (j < |order| - 1 || y < v) ==>
      key[y] <= g[order[j]][y]
  }

  /** Whether Prim's algorithm lowers the key of v through the edge u -> v. */
  ghost predicate Lowers(g: seq<seq<int>>, key: seq<int>, joined: seq<bool>, u: int, v: int)
    requires IsMatrix(g, |key|) && |joined| == |key| && 0 <= u < |key| && 0 <= v < |key|
  {
    g[u][v] != 0 && !joined[v] && g[u][v] < key[v]
  }

  /** Joining u to the tree: u is 0 when the tree is empty, and otherwise
      hangs from a tree location through an edge lighter than 1e9 whose
      weight is its key, no heavier than any edge leaving the tree. */
  lemma {:induction false} Extend(g: seq<seq<int>>, n: int, order: seq<int>, parent: seq<int>, key: seq<int>, u: int)
    requires TreeSoFar(g, n, order, parent, key) && 0 <= u < n && u !in order
    requires |order| == 0 ==> u == 0
    requires |order| > 0 ==> 0 <= parent[u] < n && parent[u] in order && g[parent[u]][u] != 0 && key[u] == g[parent[u]][u] < Inf
    requires forall j, y :: 0 <= j < |order| && 0 <= y < n && y !in order && g[order[j]][y] != 0 ==> key[u] <= g[order[j]][y]
    ensures TreeSoFar(g, n, order + [u], parent, key)
  {
    var order' := order + [u];
    assert forall i :: 0 <= i < |order| ==> order'[i] == order[i];
    assert order'[..|order|] == order;
    if |order| > 0 {
      assert Attached(g, order', parent, key, |order|);
      assert LightestCrossing(g, order', key, |order|);
    }
    forall i | 1 <= i < |order| ensures Attached(g, order', parent, key, i) && LightestCrossing(g, order', key, i) {
      assert order'[..i] == order[..i];
      assert Attached(g, order, parent, key, i) && LightestCrossing(g, order, key, i);
    }
  }

  /** Joining the outside location u of least key, which is below 1e9, keeps
      the tree and starts the relaxation of its edges. */
  lemma Join(g: seq<seq<int>>, n: int, key: seq<int>, parent: seq<int>, joined: seq<bool>, order: seq<int>, u: int)
    requires Grown(g, n, key, parent, joined, order) && KeysRelaxed(g, n, key, joined, order)
    requires 0 <= u < n && !joined[u] && key[u] < Inf
    requires forall y :: 0 <= y < n && !joined[y] ==> key[u] <= key[y]
    ensures Grown(g, n, key, parent, joined[u := true], order + [u])
    ensures KeysRelaxedBelow(g, n, key, joined[u := true], order + [u], 0)
  {
    var order', joined' := order + [u], joined[u := true];
    CountFalseSet(joined, u);
    if |order| > 0 {
      assert u != 0;
      assert Frontier(g, order, parent, key, u);
    }
    Extend(g, n, order, parent, key, u);
    forall y | 0 < y < n && !joined'[y] ensures Frontier(g, order', parent, key, y) {
      assert Frontier(g, order, parent, key, y);
    }
  }

  /** One step of the relaxation of the edges out of u: key' and parent' are
      the keys and parents after looking at the edge u -> v. */
  lemma RelaxStep(g: seq<seq<int>>, n: int, key: seq<int>, parent: seq<int>, joined: seq<bool>, order: seq<int>, u: int, v: int,
                  key': seq<int>, parent': seq<int>)
    requires Grown(g, n, key, parent, joined, order) && KeysRelaxedBelow(g, n, key, joined, order, v)
    requires |order| > 0 && order[|order| - 1] == u && 0 <= v < n
    requires Lowers(g, key, joined, u, v) ==> key' == key[v := g[u][v]] && parent' == parent[v := u]
    requires !Lowers(g, key, joined, u, v) ==> key' == key && parent' == parent
    ensures Grown(g, n, key', parent', joined, order) && KeysRelaxedBelow(g, n, key', joined, order, v + 1)
  {
    if Lowers(g, key, joined, u, v) {
      assert v != 0 && v !in order;
      forall i | 1 <= i < |order| ensures Attached(g, order, parent', key', i) && LightestCrossing(g, order, key', i) {
        assert Attached(g, order, parent, key, i) && LightestCrossing(g, order, key, i);
        assert order[i] != v;
      }
      forall y | 0 < y < n && !joined[y] ensures Frontier(g, order, parent', key', y) {
        assert Frontier(g, order, parent, key, y);
      }
    }
  }

  /** A finished relaxation ends the round. */
  lemma RelaxDone(g: seq<seq<int>>, n: int, key: seq<int>, joined: seq<bool>, order: seq<int>)
    requires IsMatrix(g, n) && |key| == n && |joined| == n && InRange(order, n)
    requires KeysRelaxedBelow(g, n, key, joined, order, n)
    ensures KeysRelaxed(g, n, key, joined, order)
  {
  }

  /** The initial keys and parents: 0 and -1 at location 0, 1e9 and -1
      elsewhere (the C++ leaves the other parents unset; -1 stands for that). */
  lemma Start(g: seq<seq<int>>, n: int)
    requires IsMatrix(g, n) && n > 0
    ensures var key, parent, joined := seq(n, _ => Inf)[0 := 0], seq(n, _ => -1), seq(n, _ => false);
      Grown(g, n, key, parent, joined, []) && KeysRelaxed(g, n, key, joined, [])
  {
    AllUnset(seq(n, _ => false));
  }

  // ---------------------------------------------------------------------
  // The O(n^2) form
  // ---------------------------------------------------------------------

  /** `minKey`: the first outside location of least key, among keys below
      1e9 (the scan uses `<`); -1 when every outside key is 1e9 or more. */
  method MinKey(key: seq<int>, mstSet: seq<bool>, n: int) returns (minIdx: int)
    requires 0 <= n <= |key| && n <= |mstSet|
    ensures -1 <= minIdx < n
    ensures minIdx == -1 <==> forall v :: 0 <= v < n && !mstSet[v] ==> key[v] >= Inf
    ensures minIdx != -1 ==> !mstSet[minIdx] && key[minIdx] < Inf
    ensures minIdx != -1 ==> forall v :: 0 <= v < n && !mstSet[v] ==> key[minIdx] <= key[v]
    ensures minIdx != -1 ==> forall v :: 0 <= v < minIdx && !mstSet[v] ==> key[minIdx] < key[v]
  {
    var minVal := Inf;
    minIdx := -1;
    for v := 0 to n
      invariant -1 <= minIdx < v
      invariant minIdx == -1 <==> forall w :: 0 <= w < v && !mstSet[w] ==> key[w] >= Inf
      invariant minIdx == -1 ==> minVal == Inf
      invariant minIdx != -1 ==> !mstSet[minIdx] && key[minIdx] == minVal < Inf
      invariant forall w :: 0 <= w < v && !mstSet[w] ==> minVal <= key[w]
      invariant minIdx != -1 ==> forall w :: 0 <= w < minIdx && !mstSet[w] ==> minVal < key[w]
    {
      if !mstSet[v] && key[v] < minVal {
        minVal := key[v];
        minIdx := v;
      }
    }
  }

  /** The keys and parents `primMST` returns. */
  datatype Tree = Tree(parent: seq<int>, key: seq<int>)

  /** After the n - 1 rounds one location is left outside; it belongs to the
      tree when its key is below 1e9. */
  lemma LastLocation(g: seq<seq<int>>, n: int, key: seq<int>, parent: seq<int>, mstSet: seq<bool>, order: seq<int>)
    returns (order': seq<int>)
    requires Grown(g, n, key, parent, mstSet, order) && KeysRelaxed(g, n, key, mstSet, order) && |order| == n - 1
    ensures PrimTree(g, n, order', parent, key)
  {
    var w := CountFalseWitness(mstSet);
    forall v | 0 <= v < n && !mstSet[v] ensures v == w {
      if v < w {
        CountFalseTwo(mstSet, v, w);
      } else if w < v {
        CountFalseTwo(mstSet, w, v);
      }
    }
    if |order| > 0 {
      assert order[0] == 0;
      assert Frontier(g, order, parent, key, w);
    }
    if key[w] < Inf {
      Extend(g, n, order, parent, key, w);
      order' := order + [w];
      forall v | 0 <= v < n ensures v in order' {
        if v != w {
          assert v in order;
        }
      }
    } else {
      order' := order;
    }
  }

  /** When `minKey` finds no outside key below 1e9 before the last round,
      the joined locations are cut off from the rest. */
  lemma StuckRound(g: seq<seq<int>>, n: int, key: seq<int>, parent: seq<int>, mstSet: seq<bool>, order: seq<int>)
    requires Grown(g, n, key, parent, mstSet, order) && KeysRelaxed(g, n, key, mstSet, order) && |order| < n
    requires forall v :: 0 <= v < n && !mstSet[v] ==> key[v] >= Inf
    ensures Stuck(g, n, order)
  {
    var y := CountFalseWitness(mstSet);
    assert |order| > 0 by {
      assert key[0] < Inf;
    }
    assert y !in order;
  }

  /** The inner loop of a round of `primMST`: every edge from the joined
      location u to an outside location v lowers the key of v when it is
      lighter. */
  method RelaxKeys(graph: array2<int>, n: int, key: seq<int>, parent: seq<int>, mstSet: seq<bool>,
                   ghost order: seq<int>, u: int)
    returns (key': seq<int>, parent': seq<int>)
    requires graph.Length0 == MaxLocations && graph.Length1 == MaxLocations && 0 <= n <= MaxLocations
    requires Grown(Grid(graph, n), n, key, parent, mstSet, order) && KeysRelaxedBelow(Grid(graph, n), n, key, mstSet, order, 0)
    requires |order| > 0 && order[|order| - 1] == u
    ensures Grown(Grid(graph, n), n, key', parent', mstSet, order) && KeysRelaxed(Grid(graph, n), n, key', mstSet, order)
  {
    ghost var g := Grid(graph, n);
    key', parent' := key, parent;
    for v := 0 to n
      invariant Grown(g, n, key', parent', mstSet, order) && KeysRelaxedBelow(g, n, key', mstSet, order, v)
    {
      ghost var (key0, parent0) := (key', parent');
      if graph[u, v] != 0 && !mstSet[v] && graph[u, v] < key'[v] {
        parent' := parent'[v := u];
        key' := key'[v := graph[u, v]];
      }
      RelaxStep(g, n, key0, parent0, mstSet, order, u, v, key', parent');
    }
    RelaxDone(g, n, key', mstSet, order);
  }

  /** `primMST(graph, n)`: n - 1 rounds, each joining the location `minKey`
      picks and relaxing the keys of the outside locations along its edges.
      The local arrays are sequence variables. Where `minKey` returns -1 the
      C++ writes `mstSet[-1]`; the model returns None there, and `order`
      then lists the locations joined so far, cut off from the rest. */
  method PrimMST(graph: array2<int>, n: int) returns (r: Option<Tree>, ghost order: seq<int>)
    requires graph.Length0 == MaxLocations && graph.Length1 == MaxLocations && 0 <= n <= MaxLocations
    ensures n == 0 ==> r == Some(Tree([], []))
    ensures n > 0 && r.Some? ==> PrimTree(Grid(graph, n), n, order, r.value.parent, r.value.key)
    ensures r.None? ==> n > 0 && Stuck(Grid(graph, n), n, order)
    ensures n > 0 && r.Some? && Symmetric(Grid(graph, n), n) ==> MinimumSpanning(Grid(graph, n), n, order, r.value.parent)
  {
    if n == 0 {
      return Some(Tree([], [])), [];
    }
    ghost var g := Grid(graph, n);
    var key := seq(n, _ => Inf);
    var mstSet := seq(n, _ => false);
    var parent := seq(n, _ => -1);
    key := key[0 := 0];
    order := [];
    Start(g, n);
    for count := 0 to n - 1
      invariant |order| == count
      invariant Grown(g, n, key, parent, mstSet, order) && KeysRelaxed(g, n, key, mstSet, order)
    {
      var u := MinKey(key, mstSet, n);
      if u == -1 {
        StuckRound(g, n, key, parent, mstSet, order);
        return None, order;
      }
      Join(g, n, key, parent, mstSet, order, u);
      mstSet := mstSet[u := true];
      order := order + [u];
      key, parent := RelaxKeys(graph, n, key, parent, mstSet, order, u);
    }
    order := LastLocation(g, n, key, parent, mstSet, order);
    r := Some(Tree(parent, key));
    if Symmetric(g, n) {
      PrimMinimal(g, n, order, parent, key);
    }
  }

  // ---------------------------------------------------------------------
  // The priority-queue form
  // ---------------------------------------------------------------------

  /** Every queued pair names a location and is no lower than its key, which
      is below 1e9; every outside location with a key below 1e9 is queued
      with it. Before the first pop the queue holds just (0, 0). */
  ghost predicate Queued(n: int, key: seq<int>, inMST: seq<bool>, order: seq<int>, pq: multiset<(int, int)>)
    requires |key| == n && |inMST| == n
  {
    && (forall p :: p in pq ==> 0 <= p.1 < n && key[p.1] <= p.0 < Inf)
    && (forall y :: 0 <= y < n && !inMST[y] && key[y] < Inf ==> (key[y], y) in pq)
    && (|order| == 0 ==> pq == multiset{(0, 0)})
  }

  /** Popping a pair of a joined location changes nothing else. */
  lemma PopJoined(g: seq<seq<int>>, n: int, key: seq<int>, parent: seq<int>, inMST: seq<bool>, order: seq<int>,
                  pq: multiset<(int, int)>, top: (int, int))
    requires Grown(g, n, key, parent, inMST, order) && Queued(n, key, inMST, order, pq)
    requires top in pq && 0 <= top.1 < n && inMST[top.1]
    ensures Queued(n, key, inMST, order, pq - multiset{top})
  {
    assert |order| > 0 by {
      assert top.1 in order;
    }
    forall y | 0 <= y < n && !inMST[y] && key[y] < Inf ensures (key[y], y) in pq - multiset{top} {
      assert (key[y], y) != top;
    }
  }

  /** Popping the least pair of an outside location: its key is below 1e9
      and least among the outside keys, so it may join. */
  lemma PopOutside(g: seq<seq<int>>, n: int, key: seq<int>, parent: seq<int>, inMST: seq<bool>, order: seq<int>,
                   pq: multiset<(int, int)>, top: (int, int))
    requires Grown(g, n, key, parent, inMST, order) && Queued(n, key, inMST, order, pq)
    requires top in pq && (forall p :: p in pq ==> PairLe(top, p)) && 0 <= top.1 < n && !inMST[top.1]
    ensures key[top.1] < Inf && forall y :: 0 <= y < n && !inMST[y] ==> key[top.1] <= key[y]
    ensures Queued(n, key, inMST[top.1 := true], order + [top.1], pq - multiset{top})
  {
    var u := top.1;
    forall y | 0 <= y < n && !inMST[y] ensures key[u] <= key[y] {
      if key[y] < Inf {
        assert (key[y], y) in pq;
      }
    }
    forall y | 0 <= y < n && !inMST[u := true][y] && key[y] < Inf ensures (key[y], y) in pq - multiset{top} {
      assert (key[y], y) != top;
    }
  }

  /** Lowering the key of v queues it with its new key. */
  lemma QueueStep(n: int, key: seq<int>, inMST: seq<bool>, order: seq<int>, pq: multiset<(int, int)>, v: int, k: int)
    requires |key| == n && |inMST| == n && Queued(n, key, inMST, order, pq) && |order| > 0 && 0 <= v < n && k < key[v] <= Inf
    ensures Queued(n, key[v := k], inMST, order, pq + multiset{(k, v)})
  {
  }

  /** The inner loop of `primMSTOptimized`: lower the key of every outside
      location along a lighter edge out of u, and queue it. */
  method RelaxQueued(graph: array2<int>, n: int, key: seq<int>, parent: seq<int>, inMST: seq<bool>,
                     ghost order: seq<int>, pq: multiset<(int, int)>, u: int)
    returns (key': seq<int>, parent': seq<int>, pq': multiset<(int, int)>)
    requires graph.Length0 == MaxLocations && graph.Length1 == MaxLocations && 0 <= n <= MaxLocations
    requires Grown(Grid(graph, n), n, key, parent, inMST, order) && KeysRelaxedBelow(Grid(graph, n), n, key, inMST, order, 0)
    requires Queued(n, key, inMST, order, pq)
    requires |order| > 0 && order[|order| - 1] == u
    ensures Grown(Grid(graph, n), n, key', parent', inMST, order) && KeysRelaxed(Grid(graph, n), n, key', inMST, order)
    ensures Queued(n, key', inMST, order, pq')
  {
    ghost var g := Grid(graph, n);
    key', parent', pq' := key, parent, pq;
    for v := 0 to n
      invariant Grown(g, n, key', parent', inMST, order) && KeysRelaxedBelow(g, n, key', inMST, order, v)
      invariant Queued(n, key', inMST, order, pq')
    {
      ghost var (key0, parent0) := (key', parent');
      if graph[u, v] != 0 && !inMST[v] && graph[u, v] < key'[v] {
        QueueStep(n, key', inMST, order, pq', v, graph[u, v]);
        key' := key'[v := graph[u, v]];
        parent' := parent'[v := u];
        pq' := pq' + multiset{(key'[v], v)};
      }
      RelaxStep(g, n, key0, parent0, inMST, order, u, v, key', parent');
    }
    RelaxDone(g, n, key', inMST, order);
  }

  /** With the queue empty, every outside location has key 1e9: the joined
      locations form the whole tree. */
  lemma QueueEmpty(g: seq<seq<int>>, n: int, key: seq<int>, parent: seq<int>, inMST: seq<bool>, order: seq<int>)
    requires Grown(g, n, key, parent, inMST, order) && KeysRelaxed(g, n, key, inMST, order)
    requires Queued(n, key, inMST, order, multiset{})
    ensures PrimTree(g, n, order, parent, key)
  {
    forall v | 0 <= v < n && v !in order ensures parent[v] == -1 && key[v] == Inf {
      assert v != 0;
      assert Frontier(g, order, parent, key, v);
    }
  }

  /** The total `primMSTOptimized` prints: the weight from each location
      i >= 1 back to its parent, over the locations below m. */
  function TreeCost(g: seq<seq<int>>, parent: seq<int>, m: int): int
    requires IsMatrix(g, |parent|) && 0 <= m <= |parent|
  {
    if m <= 1 then 0
    else TreeCost(g, parent, m - 1) + if 0 <= parent[m - 1] < |parent| then g[m - 1][parent[m - 1]] else 0
  }

  /** The summed keys of the locations i >= 1 below m that have a parent. */
  function KeySum(parent: seq<int>, key: seq<int>, m: int): int
    requires |key| == |parent| && 0 <= m <= |parent|
  {
    if m <= 1 then 0 else KeySum(parent, key, m - 1) + if parent[m - 1] != -1 then key[m - 1] else 0
  }

  /** On a symmetric matrix the printed total is the sum of the keys: each
      location pays the edge it joined by, once. */
  lemma {:induction false} TreeCostIsKeySum(g: seq<seq<int>>, n: int, order: seq<int>, parent: seq<int>, key: seq<int>, m: int)
    requires PrimTree(g, n, order, parent, key) && 0 <= m <= n
    requires forall i, j :: 0 <= i < n && 0 <= j < n ==> g[i][j] == g[j][i]
    ensures TreeCost(g, parent, m) == KeySum(parent, key, m)
  {
    if m > 1 {
      TreeCostIsKeySum(g, n, order, parent, key, m - 1);
      var v := m - 1;
      if v in order {
        var i :| 0 <= i < |order| && order[i] == v;
        assert i != 0;
        assert Attached(g, order, parent, key, i);
      }
    }
  }

  // ---------------------------------------------------------------------
  // Minimality
  // ---------------------------------------------------------------------

  /** The joined locations, as a set. */
  ghost function Joined(order: seq<int>): set<int>
  {
    set x | x in order
  }

  /** The edges by which the locations at indices 1 to k - 1 of `order`
      hang from their parents. */
  ghost function PrimEdges(order: seq<int>, parent: seq<int>, k: int): set<Edge>
    requires 0 <= k <= |order| && InRange(order, |parent|)
  {
    set i | 1 <= i < k :: Norm(parent[order[i]], order[i])
  }

  /** The edges the parent array names: each location v from 1 to m - 1
      that has a parent, with that parent. */
  ghost function ParentEdges(parent: seq<int>, m: int): set<Edge>
    requires 0 <= m <= |parent|
  {
    set v | 1 <= v < m && 0 <= parent[v] < |parent| :: Norm(parent[v], v)
  }

  /** Prim's tree is a minimum spanning tree of the locations it joins: its
      edges form a spanning tree of them whose weight is the tree's cost,
      and no spanning tree of the same locations weighs less. */
  ghost predicate MinimumSpanning(g: seq<seq<int>>, n: int, order: seq<int>, parent: seq<int>)
    requires IsMatrix(g, n) && |parent| == n && InRange(order, n)
  {
    && SpanningTreeOf(g, n, Joined(order), PrimEdges(order, parent, |order|))
    && Weight(g, n, PrimEdges(order, parent, |order|)) == TreeCost(g, parent, n)
    && forall F :: SpanningTreeOf(g, n, Joined(order), F) ==> TreeCost(g, parent, n) <= Weight(g, n, F)
  }

  /** A list of distinct locations has as many locations as entries. */
  lemma {:induction false} JoinedSize(order: seq<int>)
    requires Distinct(order)
    ensures |Joined(order)| == |order|
  {
    if order != [] {
      var s := order[..|order| - 1];
      JoinedSize(s);
      assert Joined(order) == Joined(s) + {order[|order| - 1]};
    }
  }

  /** Every edge among the first k hangs a location of `order[..k]` from
      another one, by an edge of the graph lighter than 1e9 whose weight is
      the key of the lower end. */
  lemma PrimEdgesInside(g: seq<seq<int>>, n: int, order: seq<int>, parent: seq<int>, key: seq<int>, k: int, e: Edge)
    requires TreeSoFar(g, n, order, parent, key) && Symmetric(g, n) && 0 <= k <= |order|
    requires e in PrimEdges(order, parent, k)
    ensures e.0 < e.1 && e.0 in order[..k] && e.1 in order[..k]
    ensures g[e.0][e.1] != 0 && g[e.0][e.1] < Inf
  {
    var i :| 1 <= i < k && e == Norm(parent[order[i]], order[i]);
    assert Attached(g, order, parent, key, i);
    var j :| 0 <= j < i && order[j] == parent[order[i]];
    assert order[j] in order[..k] && order[i] in order[..k];
  }

  /** The k-th location joins by an edge not yet among the first k. */
  lemma {:induction false} PrimEdgesSize(g: seq<seq<int>>, n: int, order: seq<int>, parent: seq<int>, key: seq<int>, k: int)
    requires TreeSoFar(g, n, order, parent, key) && Symmetric(g, n) && 1 <= k <= |order|
    ensures |PrimEdges(order, parent, k)| == k - 1
  {
    if k > 1 {
      PrimEdgesSize(g, n, order, parent, key, k - 1);
      var v := order[k - 1];
      var e := Norm(parent[v], v);
      assert PrimEdges(order, parent, k) == PrimEdges(order, parent, k - 1) + {e};
      var k0 := k - 1;
      assert v !in order[..k0];
      forall d | d in PrimEdges(order, parent, k0) ensures d != e {
        PrimEdgesInside(g, n, order, parent, key, k0, d);
      }
    }
  }

  /** Through the tree's edges every joined location is linked to 0. */
  lemma {:induction false} PrimEdgesLinked(g: seq<seq<int>>, n: int, order: seq<int>, parent: seq<int>, key: seq<int>, i: int)
    requires TreeSoFar(g, n, order, parent, key) && |order| > 0 && 0 <= i < |order|
    ensures Linked(PrimEdges(order, parent, |order|), 0, order[i])
    decreases i
  {
    var F := PrimEdges(order, parent, |order|);
    if i == 0 {
      LinkedHere(F, 0);
    } else {
      assert Attached(g, order, parent, key, i);
      var j :| 0 <= j < i && order[j] == parent[order[i]];
      PrimEdgesLinked(g, n, order, parent, key, j);
      LinkedEdge(F, order[j], order[i]);
      LinkedTrans(F, 0, order[j], order[i]);
    }
  }

  /** The tree's edges form a spanning tree of the joined locations. */
  lemma PrimSpans(g: seq<seq<int>>, n: int, order: seq<int>, parent: seq<int>, key: seq<int>)
    requires PrimTree(g, n, order, parent, key) && Symmetric(g, n)
    ensures SpanningTreeOf(g, n, Joined(order), PrimEdges(order, parent, |order|))
  {
    var F := PrimEdges(order, parent, |order|);
    forall e | e in F ensures e.0 < e.1 && e.0 in order && e.1 in order && g[e.0][e.1] != 0 && g[e.0][e.1] < Inf {
      PrimEdgesInside(g, n, order, parent, key, |order|, e);
      assert order[..|order|] == order;
    }
    forall x | x in Joined(order) ensures Linked(F, 0, x) {
      var i :| 0 <= i < |order| && order[i] == x;
      PrimEdgesLinked(g, n, order, parent, key, i);
    }
    PrimEdgesSize(g, n, order, parent, key, |order|);
    JoinedSize(order);
  }

  /** No two locations are each other's parent: a parent joins before its
      child. */
  lemma NoTwoCycle(g: seq<seq<int>>, n: int, order: seq<int>, parent: seq<int>, key: seq<int>, u: int, v: int)
    requires PrimTree(g, n, order, parent, key) && 0 <= u < n && 0 <= v < n && parent[v] == u
    ensures parent[u] != v
  {
    var i :| 0 <= i < |order| && order[i] == v;
    assert i != 0;
    assert Attached(g, order, parent, key, i);
    var j :| 0 <= j < i && order[j] == u;
    if j > 0 {
      assert Attached(g, order, parent, key, j);
      assert v !in order[..j];
    }
  }

  /** No two locations are each other's parent. */
  ghost predicate NoTwoCycles(parent: seq<int>)
  {
    forall u, v :: 0 <= u < |parent| && 0 <= v < |parent| && parent[v] == u ==> parent[u] != v
  }

  /** Prim's parent array has no two-location cycle. */
  lemma PrimNoTwoCycles(g: seq<seq<int>>, n: int, order: seq<int>, parent: seq<int>, key: seq<int>)
    requires PrimTree(g, n, order, parent, key)
    ensures NoTwoCycles(parent)
  {
    forall u, v | 0 <= u < |parent| && 0 <= v < |parent| && parent[v] == u ensures parent[u] != v {
      NoTwoCycle(g, n, order, parent, key, u, v);
    }
  }

  /** The edge of location m - 1 to its parent is not named by a lower
      location. */
  lemma ParentEdgeNew(parent: seq<int>, m: int)
    requires NoTwoCycles(parent) && 1 < m <= |parent| && 0 <= parent[m - 1] < |parent|
    ensures Norm(parent[m - 1], m - 1) !in ParentEdges(parent, m - 1)
    ensures ParentEdges(parent, m) == ParentEdges(parent, m - 1) + {Norm(parent[m - 1], m - 1)}
  {
    var v := m - 1;
    forall u | 1 <= u < v && 0 <= parent[u] < |parent| ensures Norm(parent[u], u) != Norm(parent[v], v) {
    }
  }

  /** The printed total is the weight of the parent array's edges. */
  lemma {:induction false} TreeCostIsWeight(g: seq<seq<int>>, n: int, parent: seq<int>, m: int)
    requires IsMatrix(g, n) && |parent| == n && NoTwoCycles(parent) && Symmetric(g, n) && 0 <= m <= n
    ensures EdgesBelow(ParentEdges(parent, m), n)
    ensures TreeCost(g, parent, m) == Weight(g, n, ParentEdges(parent, m))
  {
    if m <= 1 {
      assert ParentEdges(parent, m) == {};
    } else {
      TreeCostIsWeight(g, n, parent, m - 1);
      var v := m - 1;
      var F0, F := ParentEdges(parent, m - 1), ParentEdges(parent, m);
      if 0 <= parent[v] < n {
        var e := Norm(parent[v], v);
        ParentEdgeNew(parent, m);
        WeightAdd(g, n, F0, e);
        assert g[e.0][e.1] == g[v][parent[v]];
      } else {
        assert F == F0;
      }
    }
  }

  /** The tree's edges are those the parent array names. */
  lemma PrimEdgesAreParentEdges(g: seq<seq<int>>, n: int, order: seq<int>, parent: seq<int>, key: seq<int>)
    requires PrimTree(g, n, order, parent, key)
    ensures PrimEdges(order, parent, |order|) == ParentEdges(parent, n)
  {
    forall e | e in PrimEdges(order, parent, |order|) ensures e in ParentEdges(parent, n) {
      var i :| 1 <= i < |order| && e == Norm(parent[order[i]], order[i]);
      assert Attached(g, order, parent, key, i);
      assert order[i] != 0;
    }
    forall e | e in ParentEdges(parent, n) ensures e in PrimEdges(order, parent, |order|) {
      var v :| 1 <= v < n && 0 <= parent[v] < n && e == Norm(parent[v], v);
      var i :| 0 <= i < |order| && order[i] == v;
      assert i != 0;
    }
  }

  /** A subset as large as the set is the set. */
  lemma SubsetSameSize(A: set<Edge>, B: set<Edge>)
    requires A <= B && |A| == |B|
    ensures A == B
  {
    assert B == A + (B - A) && A * (B - A) == {};
  }

  /** The cut property at the k-th join, over the set of the locations
      joined before it. */
  lemma CutAt(g: seq<seq<int>>, n: int, order: seq<int>, parent: seq<int>, key: seq<int>, k: int)
    requires PrimTree(g, n, order, parent, key) && 1 <= k < |order|
    ensures var v := order[k];
      && 0 <= parent[v] < n && parent[v] in Joined(order[..k]) && v !in Joined(order[..k])
      && g[parent[v]][v] != 0 && g[parent[v]][v] < Inf
      && forall a, y :: a in Joined(order[..k]) && 0 <= y < n && y !in Joined(order[..k]) && g[a][y] != 0 ==>
           g[parent[v]][v] <= g[a][y]
  {
    var v := order[k];
    assert Attached(g, order, parent, key, k) && LightestCrossing(g, order, key, k);
    forall a, y | a in Joined(order[..k]) && 0 <= y < n && y !in Joined(order[..k]) && g[a][y] != 0
      ensures g[parent[v]][v] <= g[a][y]
    {
      var j :| 0 <= j < k && order[..k][j] == a;
      assert y !in order[..k];
    }
    assert v !in order[..k];
  }

  /** The first k tree edges lie among the first k locations, and the next
      one joins them to the k-th. */
  lemma PrimEdgesNext(g: seq<seq<int>>, n: int, order: seq<int>, parent: seq<int>, key: seq<int>, k: int)
    requires TreeSoFar(g, n, order, parent, key) && Symmetric(g, n) && 1 <= k < |order|
    ensures forall d :: d in PrimEdges(order, parent, k) ==> d.0 in Joined(order[..k]) && d.1 in Joined(order[..k])
    ensures PrimEdges(order, parent, k + 1) == PrimEdges(order, parent, k) + {Norm(parent[order[k]], order[k])}
    ensures Joined(order[..k]) <= Joined(order) && order[k] in Joined(order)
  {
    forall d | d in PrimEdges(order, parent, k) ensures d.0 in Joined(order[..k]) && d.1 in Joined(order[..k]) {
      PrimEdgesInside(g, n, order, parent, key, k, d);
    }
  }

  /** The k-th step of the exchange argument: a spanning tree of the joined
      locations holding the first k - 1 tree edges gives one, no heavier,
      holding the first k. */
  lemma ExchangeStep(g: seq<seq<int>>, n: int, order: seq<int>, parent: seq<int>, key: seq<int>,
                     k: int, F: set<Edge>) returns (F': set<Edge>)
    requires PrimTree(g, n, order, parent, key) && Symmetric(g, n) && 1 <= k < |order|
    requires SpanningTreeOf(g, n, Joined(order), F) && PrimEdges(order, parent, k) <= F
    ensures SpanningTreeOf(g, n, Joined(order), F') && PrimEdges(order, parent, k + 1) <= F'
    ensures EdgesBelow(F, n) && EdgesBelow(F', n) && Weight(g, n, F') <= Weight(g, n, F)
  {
    var v := order[k];
    CutAt(g, n, order, parent, key, k);
    PrimEdgesNext(g, n, order, parent, key, k);
    F' := ExchangeKeeping(g, n, Joined(order), F, Joined(order[..k]), parent[v], v, PrimEdges(order, parent, k));
  }

  /** The exchange argument, from the k-th location on: a spanning tree of
      the joined locations that holds the first k - 1 tree edges can be
      traded, one crossing edge at a time, for one no heavier that holds
      them all. */
  lemma {:induction false} PrimExchange(g: seq<seq<int>>, n: int, order: seq<int>, parent: seq<int>, key: seq<int>,
                                        k: int, F: set<Edge>) returns (F': set<Edge>)
    requires PrimTree(g, n, order, parent, key) && Symmetric(g, n) && 1 <= k <= |order|
    requires SpanningTreeOf(g, n, Joined(order), F) && PrimEdges(order, parent, k) <= F
    ensures SpanningTreeOf(g, n, Joined(order), F') && PrimEdges(order, parent, |order|) <= F'
    ensures Weight(g, n, F') <= Weight(g, n, F)
    decreases |order| - k
  {
    if k == |order| {
      F' := F;
    } else {
      var F1 := ExchangeStep(g, n, order, parent, key, k, F);
      F' := PrimExchange(g, n, order, parent, key, k + 1, F1);
    }
  }

  /** Prim's tree is a minimum spanning tree of the locations it joins, on
      a symmetric matrix (every matrix the program builds is one). */
  lemma PrimMinimal(g: seq<seq<int>>, n: int, order: seq<int>, parent: seq<int>, key: seq<int>)
    requires PrimTree(g, n, order, parent, key) && Symmetric(g, n)
    ensures MinimumSpanning(g, n, order, parent)
  {
    var T := PrimEdges(order, parent, |order|);
    PrimSpans(g, n, order, parent, key);
    PrimEdgesAreParentEdges(g, n, order, parent, key);
    PrimNoTwoCycles(g, n, order, parent, key);
    TreeCostIsWeight(g, n, parent, n);
    forall F | SpanningTreeOf(g, n, Joined(order), F) ensures TreeCost(g, parent, n) <= Weight(g, n, F) {
      assert PrimEdges(order, parent, 1) == {};
      var F' := PrimExchange(g, n, order, parent, key, 1, F);
      SubsetSameSize(T, F');
    }
  }

  /** `primMSTOptimized(n)` on the global matrix: pop the least pair, skip it
      when its location has joined, otherwise join it and lower the keys of
      the outside locations along its edges, queueing each lowered key. The
      vectors are sequence variables; the priority queue is the multiset of
      its pairs, and a pop removes a least pair. Returns the parents, the keys
      and the total cost it prints. */
  method PrimMSTOptimized(net: DeliveryNetwork, n: int) returns (parent: seq<int>, key: seq<int>, totalCost: int, ghost order: seq<int>)
    requires net.Valid() && 0 < n <= MaxLocations
    ensures PrimTree(net.Matrix(n), n, order, parent, key)
    ensures totalCost == TreeCost(net.Matrix(n), parent, n)
    ensures Symmetric(net.Matrix(n), n) ==> MinimumSpanning(net.Matrix(n), n, order, parent)
  {
    ghost var g := Grid(net.deliveryGraph, n);
    var inMST := seq(n, _ => false);
    key := seq(n, _ => Inf);
    parent := seq(n, _ => -1);
    var pq: multiset<(int, int)> := multiset{};
    key := key[0 := 0];
    pq := pq + multiset{(0, 0)};
    order := [];
    Start(g, n);
    while pq != multiset{}
      invariant Grown(g, n, key, parent, inMST, order) && KeysRelaxed(g, n, key, inMST, order)
      invariant Queued(n, key, inMST, order, pq)
      decreases n - |order|, |pq|
    {
      ghost var least := LeastPair(pq);
      var top :| top in pq && forall p :: p in pq ==> PairLe(top, p);
      var (k, u) := top;
      if inMST[u] {
        PopJoined(g, n, key, parent, inMST, order, pq, top);
        pq := pq - multiset{top};
      } else {
        PopOutside(g, n, key, parent, inMST, order, pq, top);
        Join(g, n, key, parent, inMST, order, u);
        DistinctBound(order + [u], n);
        pq := pq - multiset{top};
        inMST := inMST[u := true];
        order := order + [u];
        key, parent, pq := RelaxQueued(net.deliveryGraph, n, key, parent, inMST, order, pq, u);
      }
    }
    QueueEmpty(g, n, key, parent, inMST, order);
    totalCost := TotalCost(net.deliveryGraph, n, parent);
    if Symmetric(g, n) {
      PrimMinimal(g, n, order, parent, key);
    }
  }

  /** The summing loop at the end of `primMSTOptimized`. */
  method TotalCost(graph: array2<int>, n: int, parent: seq<int>) returns (totalCost: int)
    requires graph.Length0 == MaxLocations && graph.Length1 == MaxLocations && 0 < n <= MaxLocations && |parent| == n
    ensures totalCost == TreeCost(Grid(graph, n), parent, n)
  {
    ghost var g := Grid(graph, n);
    totalCost := 0;
    for i := 1 to n
      invariant totalCost == TreeCost(g, parent, i)
    {
      if parent[i] != -1 && parent[i] >= 0 && parent[i] < n {
        totalCost := totalCost + graph[i, parent[i]];
      }
    }
  }
}
