/** Shortest delivery distances: `minDistance` with the O(n^2) `dijkstra`,
    and the priority-queue `dijkstraOptimized`. Both read the weight matrix,
    where every non-zero entry is an edge (the 99999 marker included) and
    1e9 stands for "unreached". Instead of printing, each returns its final
    `dist` array (and `dijkstraOptimized` its `parent` array).

    The common specification: `dist` is a shortest-distance labelling. It is
    feasible (no edge can shorten it, `dist[src] == 0`, nothing above 1e9)
    and tight (every reached location other than `src` is reached through an
    edge from a location whose label plus the weight equals its own). On a
    matrix of non-negative weights such a labelling gives, for every location,
    the weight of a lightest route from `src` (or 1e9 when none is lighter),
    is the greatest feasible labelling, and is therefore unique: both
    implementations compute the same distances. */
module ShortestPaths {
  import opened DeliveryGraph

  /** No negative weight among the first n locations. */
  ghost predicate NonNegative(g: seq<seq<int>>)
  {
    forall i, j :: 0 <= i < |g| && 0 <= j < |g[i]| ==> g[i][j] >= 0
  }

  /** A route along non-zero matrix entries. */
  ghost predicate IsRoute(g: seq<seq<int>>, p: seq<int>)
    requires IsMatrix(g, |g|)
  {
    && |p| > 0 && InRange(p, |g|)
    && forall i :: 0 <= i < |p| - 1 ==> g[p[i]][p[i + 1]] != 0
  }

  /** The summed weight of a route. */
  ghost function RouteWeight(g: seq<seq<int>>, p: seq<int>): int
    requires IsMatrix(g, |g|) && IsRoute(g, p)
  {
    if |p| == 1 then 0 else RouteWeight(g, p[..|p| - 1]) + g[p[|p| - 2]][p[|p| - 1]]
  }

  /** No edge u -> v can improve the label of v. */
  ghost predicate Relaxed(g: seq<seq<int>>, d: seq<int>, u: int)
    requires IsMatrix(g, |d|) && 0 <= u < |d|
  {
    forall v :: 0 <= v < |d| && g[u][v] != 0 ==> d[v] <= d[u] + g[u][v]
  }

  /** A labelling no edge can improve, zero at `src`, at most 1e9. */
  ghost predicate Feasible(g: seq<seq<int>>, src: int, d: seq<int>)
  {
    && IsMatrix(g, |d|) && 0 <= src < |d| && d[src] <= 0
    && (forall v :: 0 <= v < |d| ==> d[v] <= Inf)
    && forall u :: 0 <= u < |d| ==> Relaxed(g, d, u)
  }

  /** Location v is labelled through an edge from a location p. */
  ghost predicate TightVia(g: seq<seq<int>>, d: seq<int>, v: int, p: int)
    requires IsMatrix(g, |d|) && 0 <= v < |d|
  {
    0 <= p < |d| && g[p][v] != 0 && d[v] == d[p] + g[p][v]
  }

  /** Location v is labelled through some edge. */
  ghost predicate HasTightParent(g: seq<seq<int>>, d: seq<int>, v: int)
    requires IsMatrix(g, |d|) && 0 <= v < |d|
  {
    exists p :: TightVia(g, d, v, p)
  }

  /** A shortest-distance labelling from `src`. */
  ghost predicate Shortest(g: seq<seq<int>>, src: int, d: seq<int>)
  {
    && Feasible(g, src, d) && d[src] == 0
    && (forall v :: 0 <= v < |d| ==> 0 <= d[v])
    && forall v {:trigger HasTightParent(g, d, v)} :: 0 <= v < |d| && v != src && d[v] < Inf ==> HasTightParent(g, d, v)
  }

  /** The parent array of `dijkstraOptimized`: -1 exactly at `src` and at
      unreached locations, otherwise the location the label came through. */
  ghost predicate ParentsOf(g: seq<seq<int>>, src: int, d: seq<int>, parent: seq<int>)
    requires IsMatrix(g, |d|)
  {
    && |parent| == |d|
    && forall v {:trigger parent[v]} :: 0 <= v < |d| ==>
         && (parent[v] == -1 <==> v == src || d[v] == Inf)
         && (parent[v] != -1 ==> TightVia(g, d, v, parent[v]))
  }

  // ---------------------------------------------------------------------
  // What a shortest-distance labelling means
  // ---------------------------------------------------------------------

  /** A feasible labelling is a lower bound on the weight of every route from
      `src`. */
  lemma {:induction false} FeasibleBelowRoutes(g: seq<seq<int>>, src: int, d: seq<int>, p: seq<int>)
    requires Feasible(g, src, d) && IsRoute(g, p) && p[0] == src
    ensures d[p[|p| - 1]] <= RouteWeight(g, p)
    decreases |p|
  {
    if |p| > 1 {
      var q := p[..|p| - 1];
      FeasibleBelowRoutes(g, src, d, q);
      assert Relaxed(g, d, q[|q| - 1]);
    }
  }

  /** Every location labelled below 1e9 is the end of a route from `src`
      whose weight is its label. */
  lemma {:induction false} TightRoute(g: seq<seq<int>>, src: int, d: seq<int>, v: int) returns (p: seq<int>)
    requires Shortest(g, src, d) && NonNegative(g) && 0 <= v < |d| && d[v] < Inf
    ensures IsRoute(g, p) && p[0] == src && p[|p| - 1] == v && RouteWeight(g, p) == d[v]
    decreases d[v]
  {
    if v == src {
      p := [src];
    } else {
      assert HasTightParent(g, d, v);
      var u :| TightVia(g, d, v, u);
      var q := TightRoute(g, src, d, u);
      p := q + [v];
      assert p[..|p| - 1] == q;
    }
  }

  /** The meaning of `dist`: below 1e9 it is the weight of a route from
      `src` and no route is lighter; at 1e9 no route is lighter than 1e9. */
  lemma ShortestIsLightestRoute(g: seq<seq<int>>, src: int, d: seq<int>, v: int)
    requires Shortest(g, src, d) && NonNegative(g) && 0 <= v < |d|
    ensures d[v] < Inf ==> exists p :: IsRoute(g, p) && p[0] == src && p[|p| - 1] == v && RouteWeight(g, p) == d[v]
    ensures forall p :: IsRoute(g, p) && p[0] == src && p[|p| - 1] == v ==> d[v] <= RouteWeight(g, p)
  {
    if d[v] < Inf {
      var p := TightRoute(g, src, d, v);
    }
    forall p | IsRoute(g, p) && p[0] == src && p[|p| - 1] == v ensures d[v] <= RouteWeight(g, p) {
      FeasibleBelowRoutes(g, src, d, p);
    }
  }

  /** A shortest-distance labelling is the greatest feasible labelling. */
  lemma ShortestIsGreatest(g: seq<seq<int>>, src: int, d: seq<int>, pot: seq<int>)
    requires Shortest(g, src, d) && NonNegative(g) && Feasible(g, src, pot) && |pot| == |d|
    ensures forall v :: 0 <= v < |d| ==> pot[v] <= d[v]
  {
    forall v | 0 <= v < |d| ensures pot[v] <= d[v] {
      if d[v] < Inf {
        var p := TightRoute(g, src, d, v);
        FeasibleBelowRoutes(g, src, pot, p);
      }
    }
  }

  /** Hence there is only one: `dijkstra` and `dijkstraOptimized` agree. */
  lemma ShortestUnique(g: seq<seq<int>>, src: int, d: seq<int>, e: seq<int>)
    requires Shortest(g, src, d) && Shortest(g, src, e) && NonNegative(g) && |d| == |e|
    ensures d == e
  {
    ShortestIsGreatest(g, src, d, e);
    ShortestIsGreatest(g, src, e, d);
  }

  // ---------------------------------------------------------------------
  // The O(n^2) form
  // ---------------------------------------------------------------------

  /** `minDistance`: the last unsettled location whose label is least, among
      those labelled at most 1e9 (the scan uses `<=`); -1 when there is none. */
  method MinDistance(dist: seq<int>, sptSet: seq<bool>, n: int) returns (minIdx: int)
    requires 0 <= n <= |dist| && n <= |sptSet|
    ensures -1 <= minIdx < n
    ensures minIdx == -1 <==> forall v :: 0 <= v < n ==> sptSet[v] || dist[v] > Inf
    ensures minIdx != -1 ==> !sptSet[minIdx] && dist[minIdx] <= Inf
    ensures minIdx != -1 ==> forall v :: 0 <= v < n && !sptSet[v] ==> dist[minIdx] <= dist[v]
    ensures minIdx != -1 ==> forall v :: minIdx < v < n && !sptSet[v] ==> dist[minIdx] < dist[v]
  {
    var minVal := Inf;
    minIdx := -1;
    for v := 0 to n
      invariant -1 <= minIdx < v
      invariant minIdx == -1 <==> forall w :: 0 <= w < v ==> sptSet[w] || dist[w] > Inf
      invariant minIdx == -1 ==> minVal == Inf
      invariant minIdx != -1 ==> !sptSet[minIdx] && dist[minIdx] == minVal <= Inf
      invariant forall w :: 0 <= w < v && !sptSet[w] ==> minVal <= dist[w]
      invariant minIdx != -1 ==> forall w :: minIdx < w < v && !sptSet[w] ==> minVal < dist[w]
    {
      if !sptSet[v] && dist[v] <= minVal {
        minVal := dist[v];
        minIdx := v;
      }
    }
  }

  /** Settled locations are labelled no higher than unsettled ones. */
  ghost predicate SettledFirst(d: seq<int>, settled: seq<bool>)
    requires |settled| == |d|
  {
    forall x, w :: 0 <= x < |d| && 0 <= w < |d| && settled[x] && !settled[w] ==> d[x] <= d[w]
  }

  /** The labels reached so far come through edges from settled locations. */
  ghost predicate SettledParents(g: seq<seq<int>>, src: int, d: seq<int>, settled: seq<bool>, parent: seq<int>)
    requires IsMatrix(g, |d|) && |settled| == |d| == |parent|
  {
    forall v {:trigger parent[v]} :: 0 <= v < |d| && v != src && d[v] < Inf ==>
      0 <= parent[v] < |d| && settled[parent[v]] && TightVia(g, d, v, parent[v])
  }

  /** The labels, the settled flags and the ghost parents at the start of a
      round of `dijkstra`, with `unsettled` locations left. */
  ghost predicate RoundInv(g: seq<seq<int>>, src: int, d: seq<int>, settled: seq<bool>, parent: seq<int>, unsettled: int)
  {
    && IsMatrix(g, |d|) && |settled| == |d| == |parent| && 0 <= src < |d|
    && (forall v :: 0 <= v < |d| ==> 0 <= d[v] <= Inf)
    && d[src] == 0 && CountFalse(settled) == unsettled
    && SettledFirst(d, settled)
    && (forall u {:trigger Relaxed(g, d, u)} :: 0 <= u < |d| && settled[u] ==> Relaxed(g, d, u))
    && SettledParents(g, src, d, settled, parent)
  }

  /** The same inside a round, after u has been settled and the edges from u
      to the locations below v have been relaxed. */
  ghost predicate RelaxInv(g: seq<seq<int>>, src: int, d: seq<int>, settled: seq<bool>, parent: seq<int>, unsettled: int, u: int, v: int)
  {
    && IsMatrix(g, |d|) && |settled| == |d| == |parent| && 0 <= src < |d|
    && 0 <= u < |d| && 0 <= v <= |d| && settled[u]
    && (forall x :: 0 <= x < |d| ==> 0 <= d[x] <= Inf)
    && d[src] == 0 && CountFalse(settled) == unsettled
    && (forall x :: 0 <= x < |d| && settled[x] ==> d[x] <= d[u])
    && (forall x :: 0 <= x < |d| && !settled[x] ==> d[u] <= d[x])
    && (forall x {:trigger Relaxed(g, d, x)} :: 0 <= x < |d| && settled[x] && x != u ==> Relaxed(g, d, x))
    && (forall x :: 0 <= x < v && g[u][x] != 0 ==> d[x] <= d[u] + g[u][x])
    && SettledParents(g, src, d, settled, parent)
  }

  /** Settling the unsettled location of least label starts its relaxation. */
  lemma SettleStep(g: seq<seq<int>>, src: int, d: seq<int>, settled: seq<bool>, parent: seq<int>, unsettled: int, u: int)
    requires RoundInv(g, src, d, settled, parent, unsettled)
    requires 0 <= u < |d| && !settled[u] && forall x :: 0 <= x < |d| && !settled[x] ==> d[u] <= d[x]
    ensures RelaxInv(g, src, d, settled[u := true], parent, unsettled - 1, u, 0)
  {
    CountFalseSet(settled, u);
  }

  /** Whether `dijkstra` relaxes the edge u -> v. */
  ghost predicate Improves(g: seq<seq<int>>, d: seq<int>, settled: seq<bool>, u: int, v: int)
    requires IsMatrix(g, |d|) && |settled| == |d| && 0 <= u < |d| && 0 <= v < |d|
  {
    !settled[v] && g[u][v] != 0 && d[u] != Inf && d[u] + g[u][v] < d[v]
  }

  /** One step of the relaxation loop of `dijkstra`: d' and parent' are the
      labels and parents after looking at the edge u -> v. */
  lemma RelaxStep(g: seq<seq<int>>, src: int, d: seq<int>, settled: seq<bool>, parent: seq<int>, unsettled: int, u: int, v: int,
                  d': seq<int>, parent': seq<int>)
    requires RelaxInv(g, src, d, settled, parent, unsettled, u, v) && v < |d| && NonNegative(g)
    requires Improves(g, d, settled, u, v) ==> d' == d[v := d[u] + g[u][v]] && parent' == parent[v := u]
    requires !Improves(g, d, settled, u, v) ==> d' == d && parent' == parent
    ensures RelaxInv(g, src, d', settled, parent', unsettled, u, v + 1)
  {
    if Improves(g, d, settled, u, v) {
      assert v != src && v != u;
      forall x | 0 <= x < |d| && settled[x] && x != u ensures Relaxed(g, d', x) {
        assert Relaxed(g, d, x);
      }
      forall x | 0 <= x < |d| && x != src && d'[x] < Inf
        ensures 0 <= parent'[x] < |d| && settled[parent'[x]] && TightVia(g, d', x, parent'[x])
      {
        if x != v {
          assert parent'[x] == parent[x];
        }
      }
    }
  }

  /** A finished relaxation loop ends the round. */
  lemma RoundStep(g: seq<seq<int>>, src: int, d: seq<int>, settled: seq<bool>, parent: seq<int>, unsettled: int, u: int)
    requires RelaxInv(g, src, d, settled, parent, unsettled, u, |d|)
    ensures RoundInv(g, src, d, settled, parent, unsettled)
  {
  }

  /** After n - 1 rounds one location is left unsettled, and no label is
      higher than its own, so its edges cannot improve anything either: the
      labels are the shortest distances. */
  lemma LastRound(g: seq<seq<int>>, src: int, d: seq<int>, settled: seq<bool>, parent: seq<int>)
    requires RoundInv(g, src, d, settled, parent, 1) && NonNegative(g)
    ensures Shortest(g, src, d)
  {
    forall u | 0 <= u < |d| && !settled[u] ensures Relaxed(g, d, u) {
      forall v | 0 <= v < |d| && !settled[v] ensures v == u {
        if v < u {
          CountFalseTwo(settled, v, u);
        } else if u < v {
          CountFalseTwo(settled, u, v);
        }
      }
    }
    forall v | 0 <= v < |d| && v != src && d[v] < Inf ensures HasTightParent(g, d, v) {
      assert TightVia(g, d, v, parent[v]);
    }
  }

  /** The inner loop of a round of `dijkstra`: every edge from the settled
      location u to an unsettled location v lowers the label of v when it
      gives a lighter route. */
  method RelaxEdges(graph: array2<int>, n: int, ghost src: int, d: seq<int>, sptSet: seq<bool>,
                    ghost parent: seq<int>, ghost unsettled: int, u: int)
    returns (d': seq<int>, ghost parent': seq<int>)
    requires graph.Length0 == MaxLocations && graph.Length1 == MaxLocations && 0 <= n <= MaxLocations
    requires NonNegative(Grid(graph, n)) && |d| == n
    requires RelaxInv(Grid(graph, n), src, d, sptSet, parent, unsettled, u, 0)
    ensures RelaxInv(Grid(graph, n), src, d', sptSet, parent', unsettled, u, n)
    ensures |d'| == n && d'[u] == d[u]
    ensures forall x :: 0 <= x < n ==> d'[x] <= d[x] && (d'[x] == d[x] || d'[x] == d[u] + graph[u, x])
  {
    ghost var g := Grid(graph, n);
    d', parent' := d, parent;
    for v := 0 to n
      invariant RelaxInv(g, src, d', sptSet, parent', unsettled, u, v)
      invariant Lowered(g, d, d', u)
    {
      ghost var (d0, parent0) := (d', parent');
      if !sptSet[v] && graph[u, v] != 0 && d'[u] != Inf && d'[u] + graph[u, v] < d'[v] {
        d' := d'[v := d'[u] + graph[u, v]];
        parent' := parent'[v := u];
      }
      RelaxStep(g, src, d0, sptSet, parent0, unsettled, u, v, d', parent');
      LoweredStep(g, d, d0, sptSet, u, v, d');
    }
  }

  /** Each label of d' is that of d, or lower and equal to the label of u
      plus the edge from u; the label of u is unchanged. */
  ghost predicate Lowered(g: seq<seq<int>>, d: seq<int>, d': seq<int>, u: int)
  {
    && IsMatrix(g, |d|) && |d'| == |d| && 0 <= u < |d| && d'[u] == d[u]
    && forall x :: 0 <= x < |d| ==> d'[x] <= d[x] && (d'[x] == d[x] || d'[x] == d[u] + g[u][x])
  }

  /** Looking at the edge u -> v keeps the labels lowered only through u. */
  lemma LoweredStep(g: seq<seq<int>>, d: seq<int>, d0: seq<int>, settled: seq<bool>, u: int, v: int, d': seq<int>)
    requires Lowered(g, d, d0, u) && |settled| == |d| && settled[u] && 0 <= v < |d|
    requires Improves(g, d0, settled, u, v) ==> d' == d0[v := d0[u] + g[u][v]]
    requires !Improves(g, d0, settled, u, v) ==> d' == d0
    ensures Lowered(g, d, d', u)
  {
  }

  /** `dijkstra(graph, src, n)`: n - 1 rounds, each settling the location
      `minDistance` picks and relaxing the edges from it to unsettled
      locations. The local arrays `dist` and `sptSet` are sequence variables
      updated one element at a time. */
  method Dijkstra(graph: array2<int>, src: int, n: int) returns (dist: seq<int>)
    requires graph.Length0 == MaxLocations && graph.Length1 == MaxLocations
    requires 0 <= src < n <= MaxLocations && NonNegative(Grid(graph, n))
    ensures |dist| == n && Shortest(Grid(graph, n), src, dist)
  {
    ghost var g := Grid(graph, n);
    var d := seq(n, _ => Inf);
    var sptSet := seq(n, _ => false);
    d := d[src := 0];
    ghost var parent := seq(n, _ => -1);
    ghost var unsettled := n;
    AllUnset(sptSet);
    for count := 0 to n - 1
      invariant unsettled == n - count
      invariant RoundInv(g, src, d, sptSet, parent, unsettled)
    {
      var w := CountFalseWitness(sptSet);
      var u := MinDistance(d, sptSet, n);
      assert !(sptSet[w] || d[w] > Inf);
      SettleStep(g, src, d, sptSet, parent, unsettled, u);
      sptSet := sptSet[u := true];
      unsettled := unsettled - 1;
      d, parent := RelaxEdges(graph, n, src, d, sptSet, parent, unsettled, u);
      RoundStep(g, src, d, sptSet, parent, unsettled, u);
    }
    dist := d;
    LastRound(g, src, d, sptSet, parent);
  }

  // ---------------------------------------------------------------------
  // The priority-queue form
  // ---------------------------------------------------------------------

  /** The sum of the labels, which every improvement lowers. */
  function Total(s: seq<int>): int
  {
    if s == [] then 0 else Total(s[..|s| - 1]) + s[|s| - 1]
  }

  /** Changing one label changes the sum by the difference. */
  lemma {:induction false} TotalUpdate(s: seq<int>, i: int, x: int)
    requires 0 <= i < |s|
    ensures Total(s[i := x]) == Total(s) - s[i] + x
  {
    if i < |s| - 1 {
      assert s[i := x][..|s| - 1] == s[..|s| - 1][i := x];
      TotalUpdate(s[..|s| - 1], i, x);
    } else {
      assert s[i := x][..|s| - 1] == s[..|s| - 1];
    }
  }

  /** Labels that are never negative sum to no less than zero. */
  lemma {:induction false} TotalNonNegative(s: seq<int>)
    requires forall i :: 0 <= i < |s| ==> s[i] >= 0
    ensures Total(s) >= 0
  {
    if s != [] {
      TotalNonNegative(s[..|s| - 1]);
    }
  }

  /** Every pair in the queue names a location and is no lower than its
      current label. */
  ghost predicate QueueSound(pq: multiset<(int, int)>, d: seq<int>)
  {
    forall p :: p in pq ==> 0 <= p.1 < |d| && p.0 >= d[p.1]
  }

  /** Every location is either queued with its current label or relaxed. */
  ghost predicate PendingOrRelaxed(g: seq<seq<int>>, pq: multiset<(int, int)>, d: seq<int>, u: int)
    requires IsMatrix(g, |d|) && 0 <= u < |d|
  {
    (d[u], u) in pq || Relaxed(g, d, u)
  }

  /** The parent array so far: each recorded parent labels its child no
      higher than the child's own label. */
  ghost predicate ParentsSoFar(g: seq<seq<int>>, src: int, d: seq<int>, parent: seq<int>)
    requires IsMatrix(g, |d|)
  {
    && |parent| == |d|
    && forall v {:trigger parent[v]} :: 0 <= v < |d| ==>
         && (parent[v] == -1 <==> v == src || d[v] == Inf)
         && (parent[v] != -1 ==> 0 <= parent[v] < |d| && g[parent[v]][v] != 0 && d[v] >= d[parent[v]] + g[parent[v]][v])
  }

  /** The state of `dijkstraOptimized` between two pops. */
  ghost predicate QueueInv(g: seq<seq<int>>, src: int, d: seq<int>, parent: seq<int>, pq: multiset<(int, int)>)
  {
    && IsMatrix(g, |d|) && 0 <= src < |d|
    && (forall v :: 0 <= v < |d| ==> 0 <= d[v] <= Inf)
    && d[src] == 0
    && QueueSound(pq, d)
    && (forall u {:trigger PendingOrRelaxed(g, pq, d, u)} :: 0 <= u < |d| ==> PendingOrRelaxed(g, pq, d, u))
    && ParentsSoFar(g, src, d, parent)
  }

  /** The state while the edges out of the popped location u (popped with
      its current label) are relaxed, those to the locations below v done;
      `total0` and `pq0` are the sum of the labels and the queue just after
      the pop. */
  ghost predicate ScanInv(g: seq<seq<int>>, src: int, d: seq<int>, parent: seq<int>, pq: multiset<(int, int)>,
                          u: int, v: int, total0: int, pq0: multiset<(int, int)>)
  {
    && IsMatrix(g, |d|) && 0 <= src < |d| && 0 <= u < |d| && 0 <= v <= |d|
    && (forall x :: 0 <= x < |d| ==> 0 <= d[x] <= Inf)
    && d[src] == 0
    && QueueSound(pq, d)
    && (forall x {:trigger PendingOrRelaxed(g, pq, d, x)} :: 0 <= x < |d| && x != u ==> PendingOrRelaxed(g, pq, d, x))
    && (forall x :: 0 <= x < v && g[u][x] != 0 ==> d[x] <= d[u] + g[u][x])
    && ParentsSoFar(g, src, d, parent)
    && Total(d) <= total0 && (Total(d) == total0 ==> pq == pq0)
  }

  /** Pending pairs other than the popped one stay queued. */
  lemma PopKeeps(pq: multiset<(int, int)>, top: (int, int), p: (int, int))
    requires top in pq && p in pq && p != top
    ensures p in pq - multiset{top}
  {
  }

  /** An outdated pair is dropped without changing anything else. */
  lemma PopOutdated(g: seq<seq<int>>, src: int, d: seq<int>, parent: seq<int>, pq: multiset<(int, int)>, top: (int, int))
    requires QueueInv(g, src, d, parent, pq) && top in pq && 0 <= top.1 < |d| && top.0 > d[top.1]
    ensures QueueInv(g, src, d, parent, pq - multiset{top})
  {
    var pq' := pq - multiset{top};
    forall x | 0 <= x < |d| ensures PendingOrRelaxed(g, pq', d, x) {
      assert PendingOrRelaxed(g, pq, d, x);
      if (d[x], x) in pq {
        PopKeeps(pq, top, (d[x], x));
      }
    }
  }

  /** A current pair starts the scan of the edges out of its location. */
  lemma PopCurrent(g: seq<seq<int>>, src: int, d: seq<int>, parent: seq<int>, pq: multiset<(int, int)>, top: (int, int))
    requires QueueInv(g, src, d, parent, pq) && top in pq && 0 <= top.1 < |d| && top.0 <= d[top.1]
    ensures top.0 == d[top.1]
    ensures ScanInv(g, src, d, parent, pq - multiset{top}, top.1, 0, Total(d), pq - multiset{top})
  {
    var pq' := pq - multiset{top};
    forall x | 0 <= x < |d| && x != top.1 ensures PendingOrRelaxed(g, pq', d, x) {
      assert PendingOrRelaxed(g, pq, d, x);
      if (d[x], x) in pq {
        PopKeeps(pq, top, (d[x], x));
      }
    }
  }

  /** Whether `dijkstraOptimized` relaxes the edge u -> v. */
  ghost predicate Lowers(g: seq<seq<int>>, d: seq<int>, u: int, v: int)
    requires IsMatrix(g, |d|) && 0 <= u < |d| && 0 <= v < |d|
  {
    g[u][v] != 0 && d[u] + g[u][v] < d[v]
  }

  /** One step of the scan: d', parent' and pq' are the labels, the parents
      and the queue after looking at the edge u -> v. */
  lemma ScanStep(g: seq<seq<int>>, src: int, d: seq<int>, parent: seq<int>, pq: multiset<(int, int)>,
                 u: int, v: int, total0: int, pq0: multiset<(int, int)>,
                 d': seq<int>, parent': seq<int>, pq': multiset<(int, int)>)
    requires ScanInv(g, src, d, parent, pq, u, v, total0, pq0) && v < |d| && NonNegative(g)
    requires Lowers(g, d, u, v) ==>
      d' == d[v := d[u] + g[u][v]] && parent' == parent[v := u] && pq' == pq + multiset{(d[u] + g[u][v], v)}
    requires !Lowers(g, d, u, v) ==> d' == d && parent' == parent && pq' == pq
    ensures ScanInv(g, src, d', parent', pq', u, v + 1, total0, pq0)
  {
    if Lowers(g, d, u, v) {
      assert v != src && v != u;
      TotalUpdate(d, v, d'[v]);
      forall x | 0 <= x < |d| && x != u ensures PendingOrRelaxed(g, pq', d', x) {
        if x != v {
          assert PendingOrRelaxed(g, pq, d, x);
          if !((d[x], x) in pq) {
            assert Relaxed(g, d, x);
          }
        }
      }
      forall x | 0 <= x < |d| ensures
        && (parent'[x] == -1 <==> x == src || d'[x] == Inf)
        && (parent'[x] != -1 ==> 0 <= parent'[x] < |d| && g[parent'[x]][x] != 0 && d'[x] >= d'[parent'[x]] + g[parent'[x]][x])
      {
        if x != v {
          assert parent'[x] == parent[x];
        }
      }
    }
  }

  /** A finished scan has relaxed u and either lowered the sum of the labels
      or left the queue as it was after the pop. */
  lemma ScanDone(g: seq<seq<int>>, src: int, d: seq<int>, parent: seq<int>, pq: multiset<(int, int)>,
                 u: int, total0: int, pq0: multiset<(int, int)>)
    requires ScanInv(g, src, d, parent, pq, u, |d|, total0, pq0)
    ensures QueueInv(g, src, d, parent, pq)
    ensures Total(d) < total0 || pq == pq0
  {
    assert Relaxed(g, d, u);
    assert PendingOrRelaxed(g, pq, d, u);
  }

  /** With the queue empty every location is relaxed: the labels are the
      shortest distances and the parents are tight. */
  lemma QueueDone(g: seq<seq<int>>, src: int, d: seq<int>, parent: seq<int>)
    requires QueueInv(g, src, d, parent, multiset{}) && NonNegative(g)
    ensures Shortest(g, src, d) && ParentsOf(g, src, d, parent)
  {
    forall u | 0 <= u < |d| ensures Relaxed(g, d, u) {
      assert PendingOrRelaxed(g, multiset{}, d, u);
    }
    forall v | 0 <= v < |d| && parent[v] != -1 ensures TightVia(g, d, v, parent[v]) {
      assert Relaxed(g, d, parent[v]);
    }
    forall v | 0 <= v < |d| && v != src && d[v] < Inf ensures HasTightParent(g, d, v) {
      assert TightVia(g, d, v, parent[v]);
    }
  }

  /** The start: `dist` all 1e9 but `dist[src] == 0`, and `(0, src)` queued. */
  lemma QueueStart(g: seq<seq<int>>, src: int, n: int)
    requires IsMatrix(g, n) && NonNegative(g) && 0 <= src < n
    ensures QueueInv(g, src, seq(n, _ => Inf)[src := 0], seq(n, _ => -1), multiset{(0, src)})
  {
    var d := seq(n, _ => Inf)[src := 0];
    forall u | 0 <= u < n ensures PendingOrRelaxed(g, multiset{(0, src)}, d, u) {
      if u != src {
        assert Relaxed(g, d, u);
      }
    }
  }

  /** The inner loop of `dijkstraOptimized`: relax every edge out of u and
      queue each improved label. */
  method ScanEdges(graph: array2<int>, n: int, ghost src: int, d: seq<int>, parent: seq<int>,
                   pq: multiset<(int, int)>, u: int, ghost total0: int, ghost pq0: multiset<(int, int)>)
    returns (d': seq<int>, parent': seq<int>, pq': multiset<(int, int)>)
    requires graph.Length0 == MaxLocations && graph.Length1 == MaxLocations && 0 <= n <= MaxLocations
    requires NonNegative(Grid(graph, n)) && |d| == n
    requires ScanInv(Grid(graph, n), src, d, parent, pq, u, 0, total0, pq0)
    ensures ScanInv(Grid(graph, n), src, d', parent', pq', u, n, total0, pq0)
  {
    ghost var g := Grid(graph, n);
    d', parent', pq' := d, parent, pq;
    for v := 0 to n
      invariant ScanInv(g, src, d', parent', pq', u, v, total0, pq0)
    {
      ghost var (d0, parent0, pq1) := (d', parent', pq');
      if graph[u, v] != 0 && d'[u] + graph[u, v] < d'[v] {
        d' := d'[v := d'[u] + graph[u, v]];
        parent' := parent'[v := u];
        pq' := pq' + multiset{(d'[v], v)};
      }
      ScanStep(g, src, d0, parent0, pq1, u, v, total0, pq0, d', parent', pq');
    }
  }

  /** `dijkstraOptimized(src, n)` on the global matrix: pop the least pair,
      skip it when outdated, otherwise relax every edge out of its location
      and queue each improved label. The vectors `dist` and `parent` are
      sequence variables; the priority queue is the multiset of its pairs,
      and a pop removes a least pair. */
  method DijkstraOptimized(net: DeliveryNetwork, src: int, n: int) returns (dist: seq<int>, parent: seq<int>)
    requires net.Valid() && 0 <= src < n <= MaxLocations && NonNegative(net.Matrix(n))
    ensures |dist| == n && Shortest(net.Matrix(n), src, dist)
    ensures ParentsOf(net.Matrix(n), src, dist, parent)
  {
    ghost var g := Grid(net.deliveryGraph, n);
    dist := seq(n, _ => Inf);
    parent := seq(n, _ => -1);
    var pq: multiset<(int, int)> := multiset{};
    dist := dist[src := 0];
    pq := pq + multiset{(0, src)};
    QueueStart(g, src, n);
    while pq != multiset{}
      invariant |dist| == n && QueueInv(g, src, dist, parent, pq)
      decreases Total(dist), |pq|
    {
      TotalNonNegative(dist);
      ghost var least := LeastPair(pq);
      var top :| top in pq && forall p :: p in pq ==> PairLe(top, p);
      var (du, u) := top;
      if du > dist[u] {
        PopOutdated(g, src, dist, parent, pq, top);
        pq := pq - multiset{top};
      } else {
        PopCurrent(g, src, dist, parent, pq, top);
        ghost var total0 := Total(dist);
        pq := pq - multiset{top};
        ghost var pq0 := pq;
        dist, parent, pq := ScanEdges(net.deliveryGraph, n, src, dist, parent, pq, u, total0, pq0);
        ScanDone(g, src, dist, parent, pq, u, total0, pq0);
      }
    }
    QueueDone(g, src, dist, parent);
  }
}
