/** The six-location graph the delivery menu builds (`initDeliveryGraph(6)`
    and nine `addDeliveryEdge` calls), and what `dijkstraOptimized(0, 6)` and
    `tspApproximation(0, 6)` compute on it. */
module DeliveryDemo {
  import opened DeliveryGraph
  import opened ShortestPaths
  import opened Tour

  /** The demo's weights: the nine edges, 99999 elsewhere, 0 on the
      diagonal. */
  function DemoMatrix(): (r: seq<seq<int>>)
    ensures IsMatrix(r, 6)
  {
    [[0, 7, 9, NoEdge, NoEdge, 14],
     [7, 0, 10, 15, NoEdge, NoEdge],
     [9, 10, 0, 11, NoEdge, 2],
     [NoEdge, 15, 11, 0, 6, NoEdge],
     [NoEdge, NoEdge, NoEdge, 6, 0, 9],
     [14, NoEdge, 2, NoEdge, 9, 0]]
  }

  /** The shortest distances from 0 on the demo graph are 0, 7, 9, 20, 20,
      11, and no other labelling is a shortest-distance labelling. */
  lemma DemoDistances(d: seq<int>)
    requires |d| == 6 && Shortest(DemoMatrix(), 0, d)
    ensures d == [0, 7, 9, 20, 20, 11]
  {
    var g, e := DemoMatrix(), [0, 7, 9, 20, 20, 11];
    forall u | 0 <= u < 6 ensures Relaxed(g, e, u) {
    }
    assert TightVia(g, e, 1, 0) && TightVia(g, e, 2, 0) && TightVia(g, e, 3, 2);
    assert TightVia(g, e, 4, 5) && TightVia(g, e, 5, 2);
    assert Shortest(g, 0, e);
    forall i, j | 0 <= i < 6 && 0 <= j < 6 ensures g[i][j] >= 0 {
    }
    ShortestUnique(g, 0, d, e);
  }

  /** The parents `dijkstraOptimized` reports on the demo graph: each
      location's label comes through exactly one edge. */
  lemma DemoParents(parent: seq<int>)
    requires ParentsOf(DemoMatrix(), 0, [0, 7, 9, 20, 20, 11], parent)
    ensures parent == [-1, 0, 0, 2, 5, 2]
  {
    var g, e := DemoMatrix(), [0, 7, 9, 20, 20, 11];
    forall v | 0 <= v < 6 ensures parent[v] == [-1, 0, 0, 2, 5, 2][v] {
      if v != 0 {
        assert TightVia(g, e, v, parent[v]);
      }
    }
  }

  /** 0, 1, 2, 5, 4, 3 is a nearest-neighbour path on the demo graph that
      has run out of unvisited locations. */
  lemma DemoPath()
    ensures NearestPath(DemoMatrix(), 6, 0, [0, 1, 2, 5, 4, 3])
    ensures Stopped(DemoMatrix(), 6, [0, 1, 2, 5, 4, 3])
  {
    var g, p := DemoMatrix(), [0, 1, 2, 5, 4, 3];
    forall k | 0 <= k < 5 ensures NearestStep(g, 6, p, k) {
      assert p[..k + 1] == [[0], [0, 1], [0, 1, 2], [0, 1, 2, 5], [0, 1, 2, 5, 4]][k];
    }
    assert forall y :: 0 <= y < 6 ==> y in p;
  }

  /** The nearest-neighbour tour from 0 on the demo graph is 0, 1, 2, 5, 4,
      3 and back to 0. */
  lemma DemoTour(route: seq<int>)
    requires IsTour(DemoMatrix(), 6, 0, route)
    ensures route == [0, 1, 2, 5, 4, 3, 0]
  {
    DemoPath();
    NearestPathUnique(DemoMatrix(), 6, 0, route[..|route| - 1], [0, 1, 2, 5, 4, 3]);
    assert route == route[..|route| - 1] + [0];
  }

  /** The matrix after `addDeliveryEdge(u, v, w)`: both entries of the pair
      set to w. */
  function WithWeight(g: seq<seq<int>>, u: int, v: int, w: int): (r: seq<seq<int>>)
    requires IsMatrix(g, 6)
    ensures IsMatrix(r, 6)
    ensures forall i, j :: 0 <= i < 6 && 0 <= j < 6 ==>
              r[i][j] == if (i == u && j == v) || (i == v && j == u) then w else g[i][j]
  {
    seq(6, i requires 0 <= i < 6 => seq(6, j requires 0 <= j < 6 => if (i == u && j == v) || (i == v && j == u) then w else g[i][j]))
  }

  /** The nine demo edges, added to the initial matrix, give the demo
      matrix. */
  lemma DemoEdges()
    ensures WithWeight(WithWeight(WithWeight(WithWeight(WithWeight(WithWeight(WithWeight(WithWeight(WithWeight(
              InitialMatrix(6), 0, 1, 7), 0, 2, 9), 0, 5, 14), 1, 2, 10), 1, 3, 15), 2, 3, 11), 2, 5, 2), 3, 4, 6), 4, 5, 9)
            == DemoMatrix()
  {
    var m := WithWeight(WithWeight(WithWeight(WithWeight(WithWeight(WithWeight(WithWeight(WithWeight(WithWeight(
               InitialMatrix(6), 0, 1, 7), 0, 2, 9), 0, 5, 14), 1, 2, 10), 1, 3, 15), 2, 3, 11), 2, 5, 2), 3, 4, 6), 4, 5, 9);
    forall i | 0 <= i < 6 ensures m[i] == DemoMatrix()[i] {
      forall j | 0 <= j < 6 ensures m[i][j] == DemoMatrix()[i][j] {
      }
    }
  }

  /** One `addDeliveryEdge` call of the demo, with the matrix it leaves. */
  method AddDemoEdge(net: DeliveryNetwork, u: int, v: int, w: int, ghost m: seq<seq<int>>)
    requires net.Valid() && 0 <= u < 6 && 0 <= v < 6 && IsMatrix(m, 6) && net.Matrix(6) == m
    modifies net.deliveryGraph, net.adjList
    ensures net.Valid() && net.Matrix(6) == WithWeight(m, u, v, w)
  {
    net.AddDeliveryEdge(u, v, w);
    forall i | 0 <= i < 6 ensures net.Matrix(6)[i] == WithWeight(m, u, v, w)[i] {
    }
  }

  /** Building the demo graph: `initDeliveryGraph(6)` and the nine edges. */
  method BuildDemo() returns (net: DeliveryNetwork)
    ensures net.Valid() && net.Matrix(6) == DemoMatrix()
  {
    net := new DeliveryNetwork();
    net.InitDeliveryGraph(6);
    ghost var m := InitialMatrix(6);
    AddDemoEdge(net, 0, 1, 7, m);
    m := WithWeight(m, 0, 1, 7);
    AddDemoEdge(net, 0, 2, 9, m);
    m := WithWeight(m, 0, 2, 9);
    AddDemoEdge(net, 0, 5, 14, m);
    m := WithWeight(m, 0, 5, 14);
    AddDemoEdge(net, 1, 2, 10, m);
    m := WithWeight(m, 1, 2, 10);
    AddDemoEdge(net, 1, 3, 15, m);
    m := WithWeight(m, 1, 3, 15);
    AddDemoEdge(net, 2, 3, 11, m);
    m := WithWeight(m, 2, 3, 11);
    AddDemoEdge(net, 2, 5, 2, m);
    m := WithWeight(m, 2, 5, 2);
    AddDemoEdge(net, 3, 4, 6, m);
    m := WithWeight(m, 3, 4, 6);
    AddDemoEdge(net, 4, 5, 9, m);
    m := WithWeight(m, 4, 5, 9);
    DemoEdges();
  }

  /** The demo: build the graph, then run `dijkstraOptimized(0, 6)` and
      `tspApproximation(0, 6)`. */
  method RouteDemo() returns (dist: seq<int>, parent: seq<int>, route: seq<int>)
    ensures dist == [0, 7, 9, 20, 20, 11]
    ensures parent == [-1, 0, 0, 2, 5, 2]
    ensures route == [0, 1, 2, 5, 4, 3, 0]
  {
    var net := BuildDemo();
    dist, parent := DijkstraOptimized(net, 0, 6);
    DemoDistances(dist);
    DemoParents(parent);
    route := TspApproximation(net, 0, 6);
    DemoTour(route);
  }
}
