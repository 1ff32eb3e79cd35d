/** `tspApproximation`: the nearest-neighbour delivery tour. From `start` it
    moves, n - 1 times, to the first unvisited location whose matrix entry
    from the current one is least and below 1e9, then returns to `start`.
    The entries are compared as they are: a zero entry counts as distance 0
    and the 99999 marker as a long edge. When no unvisited location is below
    1e9 the round adds nothing, and neither does any later round, since
    nothing has changed. */
module Tour {
  import opened DeliveryGraph

  /** Step k of a nearest-neighbour path: path[k + 1] is unvisited after
      path[..k + 1], its entry from path[k] is below 1e9 and least among the
      unvisited locations, and strictly less than that of every unvisited
      location before it. */
  ghost predicate NearestStep(g: seq<seq<int>>, n: int, path: seq<int>, k: int)
    requires IsMatrix(g, n) && InRange(path, n) && 0 <= k < |path| - 1
  {
    var c, x := path[k], path[k + 1];
    && x !in path[..k + 1] && g[c][x] < Inf
    && (forall y :: 0 <= y < n && y !in path[..k + 1] ==> g[c][x] <= g[c][y])
    && (forall y :: 0 <= y < x && y !in path[..k + 1] ==> g[c][x] < g[c][y])
  }

  /** A nearest-neighbour path from `start`. */
  ghost predicate NearestPath(g: seq<seq<int>>, n: int, start: int, path: seq<int>)
  {
    && IsMatrix(g, n) && |path| > 0 && path[0] == start && InRange(path, n) && Distinct(path)
    && forall k :: 0 <= k < |path| - 1 ==> NearestStep(g, n, path, k)
  }

  /** No unvisited location is below 1e9 from the last one. */
  ghost predicate Stopped(g: seq<seq<int>>, n: int, path: seq<int>)
    requires IsMatrix(g, n) && InRange(path, n) && |path| > 0
  {
    forall y :: 0 <= y < n && y !in path ==> g[path[|path| - 1]][y] >= Inf
  }

  /** The route `tspApproximation` returns: a stopped nearest-neighbour path,
      then `start` again. */
  ghost predicate IsTour(g: seq<seq<int>>, n: int, start: int, route: seq<int>)
  {
    && |route| >= 2 && route[|route| - 1] == start
    && NearestPath(g, n, start, route[..|route| - 1])
    && Stopped(g, n, route[..|route| - 1])
  }

  /** Every entry between two different locations is below 1e9, as after
      `initDeliveryGraph` with edges of such weights. */
  ghost predicate AllNear(g: seq<seq<int>>, n: int)
    requires IsMatrix(g, n)
  {
    forall i, j :: 0 <= i < n && 0 <= j < n && i != j ==> g[i][j] < Inf
  }

  // ---------------------------------------------------------------------
  // The tour is determined by the matrix
  // ---------------------------------------------------------------------

  /** Two nearest-neighbour paths agree as far as both go. */
  lemma {:induction false} NearestPrefix(g: seq<seq<int>>, n: int, start: int, p: seq<int>, q: seq<int>, k: int)
    requires NearestPath(g, n, start, p) && NearestPath(g, n, start, q) && 0 <= k < |p| && k < |q|
    ensures p[..k + 1] == q[..k + 1]
    decreases k
  {
    if k > 0 {
      NearestPrefix(g, n, start, p, q, k - 1);
      assert NearestStep(g, n, p, k - 1) && NearestStep(g, n, q, k - 1);
      assert p[..k] == q[..k] && p[k - 1] == q[k - 1];
      assert p[k] == q[k];
      assert p[..k + 1] == p[..k] + [p[k]] && q[..k + 1] == q[..k] + [q[k]];
    }
  }

  /** A nearest-neighbour path has not stopped before its last step: the
      location it moves to next is unvisited and below 1e9. */
  lemma MovesOn(g: seq<seq<int>>, n: int, start: int, q: seq<int>, k: int)
    requires NearestPath(g, n, start, q) && 0 <= k < |q| - 1
    ensures !Stopped(g, n, q[..k + 1])
  {
    assert NearestStep(g, n, q, k);
    assert q[..k + 1][k] == q[k];
  }

  /** A stopped nearest-neighbour path is the only one: the tour is a
      function of the matrix and `start`. */
  lemma NearestPathUnique(g: seq<seq<int>>, n: int, start: int, p: seq<int>, q: seq<int>)
    requires NearestPath(g, n, start, p) && Stopped(g, n, p)
    requires NearestPath(g, n, start, q) && Stopped(g, n, q)
    ensures p == q
  {
    var m := if |p| < |q| then |p| else |q|;
    NearestPrefix(g, n, start, p, q, m - 1);
    assert p == p[..|p|] && q == q[..|q|];
    assert |p| == |q| by {
      if |p| < |q| {
        MovesOn(g, n, start, q, |p| - 1);
      } else if |q| < |p| {
        MovesOn(g, n, start, p, |q| - 1);
      }
    }
  }

  /** A sequence that lists every location below n is at least n long. */
  lemma {:induction false} ListsAllBound(s: seq<int>, n: nat)
    requires forall y :: 0 <= y < n ==> y in s
    ensures |s| >= n
    decreases n
  {
    if n > 0 {
      assert n - 1 in s;
      var k :| 0 <= k < |s| && s[k] == n - 1;
      var t := s[..k] + s[k + 1..];
      forall y | 0 <= y < n - 1 ensures y in t {
        assert y in s;
        var i :| 0 <= i < |s| && s[i] == y;
        if i < k {
          assert t[i] == y;
        } else {
          assert i != k && t[i - 1] == y;
        }
      }
      ListsAllBound(t, n - 1);
    }
  }

  /** When every entry between different locations is below 1e9, the tour
      visits every location exactly once and returns to `start`. */
  lemma TourCoversAll(g: seq<seq<int>>, n: int, start: int, route: seq<int>)
    requires IsTour(g, n, start, route) && AllNear(g, n)
    ensures |route| == n + 1 && forall y :: 0 <= y < n ==> y in route[..n]
  {
    var path := route[..|route| - 1];
    forall y | 0 <= y < n ensures y in path {
      var last := path[|path| - 1];
      assert last in path;
      if y != last {
        assert g[last][y] < Inf;
      }
    }
    ListsAllBound(path, n);
    DistinctBound(path, n);
  }

  // ---------------------------------------------------------------------
  // The method
  // ---------------------------------------------------------------------

  /** The inner loop of `tspApproximation`: the first unvisited location whose
      entry from `current` is least, among entries below 1e9; -1 if none. */
  method Nearest(graph: array2<int>, n: int, current: int, visited: seq<bool>) returns (nearest: int)
    requires graph.Length0 == MaxLocations && graph.Length1 == MaxLocations
    requires 0 <= current < n <= MaxLocations && |visited| == n
    ensures -1 <= nearest < n
    ensures nearest == -1 <==> forall j :: 0 <= j < n && !visited[j] ==> graph[current, j] >= Inf
    ensures nearest != -1 ==> !visited[nearest] && graph[current, nearest] < Inf
    ensures nearest != -1 ==> forall j :: 0 <= j < n && !visited[j] ==> graph[current, nearest] <= graph[current, j]
    ensures nearest != -1 ==> forall j :: 0 <= j < nearest && !visited[j] ==> graph[current, nearest] < graph[current, j]
  {
    nearest := -1;
    var minDist := Inf;
    for j := 0 to n
      invariant -1 <= nearest < j
      invariant nearest == -1 <==> forall k :: 0 <= k < j && !visited[k] ==> graph[current, k] >= Inf
      invariant nearest == -1 ==> minDist == Inf
      invariant nearest != -1 ==> !visited[nearest] && graph[current, nearest] == minDist < Inf
      invariant forall k :: 0 <= k < j && !visited[k] ==> minDist <= graph[current, k]
      invariant nearest != -1 ==> forall k :: 0 <= k < nearest && !visited[k] ==> minDist < graph[current, k]
    {
      if !visited[j] && graph[current, j] < minDist {
        minDist := graph[current, j];
        nearest := j;
      }
    }
  }

  /** The state of `tspApproximation` before round i: `route` is a
      nearest-neighbour path ending at `current`, `visited` flags its
      locations, and if some earlier round added nothing the path is
      stopped. */
  ghost predicate TourInv(g: seq<seq<int>>, n: int, start: int, route: seq<int>, visited: seq<bool>, current: int, i: int)
  {
    && NearestPath(g, n, start, route) && |visited| == n && current == route[|route| - 1]
    && (forall y :: 0 <= y < n ==> (visited[y] <==> y in route))
    && CountFalse(visited) == n - |route|
    && |route| <= i
    && (|route| < i ==> Stopped(g, n, route))
  }

  /** The first round's state: just `start`, visited. */
  lemma TourStart(g: seq<seq<int>>, n: int, start: int)
    requires IsMatrix(g, n) && 0 <= start < n
    ensures TourInv(g, n, start, [start], seq(n, _ => false)[start := true], start, 1)
  {
    AllUnset(seq(n, _ => false));
    CountFalseSet(seq(n, _ => false), start);
  }

  /** A round that finds the nearest unvisited location moves there. */
  lemma TourMove(g: seq<seq<int>>, n: int, start: int, route: seq<int>, visited: seq<bool>, current: int, x: int, i: int)
    requires TourInv(g, n, start, route, visited, current, i)
    requires 0 <= x < n && !visited[x] && g[current][x] < Inf
    requires forall j :: 0 <= j < n && !visited[j] ==> g[current][x] <= g[current][j]
    requires forall j :: 0 <= j < x && !visited[j] ==> g[current][x] < g[current][j]
    ensures TourInv(g, n, start, route + [x], visited[x := true], x, i + 1)
  {
    var route' := route + [x];
    CountFalseSet(visited, x);
    assert route'[..|route|] == route;
    assert forall k :: 0 <= k < |route| ==> route'[k] == route[k];
    assert NearestStep(g, n, route', |route| - 1);
    forall k | 0 <= k < |route| - 1 ensures NearestStep(g, n, route', k) {
      assert route'[..k + 1] == route[..k + 1];
      assert NearestStep(g, n, route, k);
    }
  }

  /** A round that finds none leaves the path stopped. */
  lemma TourStay(g: seq<seq<int>>, n: int, start: int, route: seq<int>, visited: seq<bool>, current: int, i: int)
    requires TourInv(g, n, start, route, visited, current, i)
    requires forall j :: 0 <= j < n && !visited[j] ==> g[current][j] >= Inf
    ensures TourInv(g, n, start, route, visited, current, i + 1)
  {
  }

  /** After the last round the path is stopped; with `start` appended it
      has n + 1 entries exactly when it lists every location. */
  lemma TourEnd(g: seq<seq<int>>, n: int, start: int, route: seq<int>, visited: seq<bool>, current: int)
    requires TourInv(g, n, start, route, visited, current, n)
    ensures IsTour(g, n, start, route + [start])
    ensures |route + [start]| == n + 1 <==> forall y :: 0 <= y < n ==> y in route + [start]
  {
    var r := route + [start];
    assert r[..|r| - 1] == route;
    assert start in route;
    if |route| == n {
      forall y | 0 <= y < n ensures visited[y] {
        if !visited[y] {
          CountFalsePositive(visited, y);
        }
      }
    } else {
      var y := CountFalseWitness(visited);
      assert y !in r;
    }
  }

  /** `tspApproximation(start, n)` on the global matrix. The vectors are
      sequence variables. */
  method TspApproximation(net: DeliveryNetwork, start: int, n: int) returns (route: seq<int>)
    requires net.Valid() && 0 <= start < n <= MaxLocations
    ensures IsTour(net.Matrix(n), n, start, route)
    ensures |route| == n + 1 <==> forall y :: 0 <= y < n ==> y in route
  {
    ghost var g := Grid(net.deliveryGraph, n);
    route := [];
    var visited := seq(n, _ => false);
    var current := start;
    route := route + [current];
    visited := visited[current := true];
    TourStart(g, n, start);
    for i := 1 to n
      invariant TourInv(g, n, start, route, visited, current, i)
    {
      var nearest := Nearest(net.deliveryGraph, n, current, visited);
      if nearest != -1 {
        TourMove(g, n, start, route, visited, current, nearest, i);
        route := route + [nearest];
        visited := visited[nearest := true];
        current := nearest;
      } else {
        TourStay(g, n, start, route, visited, current, i);
      }
    }
    TourEnd(g, n, start, route, visited, current);
    route := route + [start];
  }
}
