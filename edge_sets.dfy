/** Spanning trees of the weight matrix as sets of undirected edges, their
    total weight, and the exchange step behind the cut property: a spanning
    tree that misses a lightest edge across a cut can trade one of its own
    crossing edges for it without growing heavier. */
module EdgeSets {
  import opened DeliveryGraph

  /** An undirected edge, smaller end first. */
  type Edge = (int, int)

  /** The edge between a and b. */
  function Norm(a: int, b: int): Edge
  {
    if a < b then (a, b) else (b, a)
  }

  /** Two edges are the same exactly when they join the same two ends. */
  lemma NormEq(a: int, b: int, c: int, d: int)
    requires Norm(a, b) == Norm(c, d)
    ensures (a == c && b == d) || (a == d && b == c)
  {
  }

  ghost predicate Symmetric(g: seq<seq<int>>, n: int)
    requires IsMatrix(g, n)
  {
    forall i, j :: 0 <= i < n && 0 <= j < n ==> g[i][j] == g[j][i]
  }

  /** Both ends of every edge are locations below n. */
  ghost predicate EdgesBelow(F: set<Edge>, n: int)
  {
    forall e :: e in F ==> 0 <= e.0 < n && 0 <= e.1 < n
  }

  /** The total weight of a set of edges. */
  ghost function Weight(g: seq<seq<int>>, n: int, F: set<Edge>): int
    requires IsMatrix(g, n) && EdgesBelow(F, n)
    decreases |F|
  {
    if F == {} then 0
    else
      var e :| e in F;
      g[e.0][e.1] + Weight(g, n, F - {e})
  }

  /** The weight of a set is any one of its edges plus the weight of the rest. */
  lemma {:induction false} WeightRemove(g: seq<seq<int>>, n: int, F: set<Edge>, e: Edge)
    requires IsMatrix(g, n) && EdgesBelow(F, n) && e in F
    ensures Weight(g, n, F) == g[e.0][e.1] + Weight(g, n, F - {e})
    decreases |F|
  {
    var d :| d in F && Weight(g, n, F) == g[d.0][d.1] + Weight(g, n, F - {d});
    if d != e {
      WeightRemove(g, n, F - {d}, e);
      WeightRemove(g, n, F - {e}, d);
      assert F - {d} - {e} == F - {e} - {d};
    }
  }

  /** Adding a new edge adds its weight. */
  lemma WeightAdd(g: seq<seq<int>>, n: int, F: set<Edge>, e: Edge)
    requires IsMatrix(g, n) && EdgesBelow(F, n) && 0 <= e.0 < n && 0 <= e.1 < n && e !in F
    ensures EdgesBelow(F + {e}, n) && Weight(g, n, F + {e}) == Weight(g, n, F) + g[e.0][e.1]
  {
    WeightRemove(g, n, F + {e}, e);
    assert F + {e} - {e} == F;
  }

  /** A walk along the edges of F. */
  ghost predicate Walk(F: set<Edge>, w: seq<int>)
  {
    |w| > 0 && forall i :: 0 <= i < |w| - 1 ==> Norm(w[i], w[i + 1]) in F
  }

  /** Some walk along F leads from a to b. */
  ghost predicate Linked(F: set<Edge>, a: int, b: int)
  {
    exists w :: Walk(F, w) && w[0] == a && w[|w| - 1] == b
  }

  /** F is a spanning tree of the locations R: every edge joins two
      different locations of R by an entry that is an edge of the graph
      (not 0) lighter than 1e9; every location of R is linked to 0; and F
      has one edge fewer than R has locations. */
  ghost predicate SpanningTreeOf(g: seq<seq<int>>, n: int, R: set<int>, F: set<Edge>)
  {
    && IsMatrix(g, n) && 0 in R && (forall x :: x in R ==> 0 <= x < n)
    && (forall e :: e in F ==> e.0 < e.1 && e.0 in R && e.1 in R && g[e.0][e.1] != 0 && g[e.0][e.1] < Inf)
    && (forall x :: x in R ==> Linked(F, 0, x))
    && |F| == |R| - 1
  }

  lemma LinkedHere(F: set<Edge>, a: int)
    ensures Linked(F, a, a)
  {
    assert Walk(F, [a]);
  }

  lemma LinkedEdge(F: set<Edge>, a: int, b: int)
    requires Norm(a, b) in F
    ensures Linked(F, a, b)
  {
    assert Walk(F, [a, b]);
  }

  /** Walks join end to end. */
  lemma LinkedTrans(F: set<Edge>, a: int, b: int, c: int)
    requires Linked(F, a, b) && Linked(F, b, c)
    ensures Linked(F, a, c)
  {
    var u :| Walk(F, u) && u[0] == a && u[|u| - 1] == b;
    var v :| Walk(F, v) && v[0] == b && v[|v| - 1] == c;
    var w := u + v[1..];
    forall i | 0 <= i < |w| - 1 ensures Norm(w[i], w[i + 1]) in F {
      if i >= |u| - 1 {
        assert w[i] == v[i - |u| + 1] && w[i + 1] == v[i - |u| + 2];
      }
    }
    assert Walk(F, w);
  }

  /** Walks can be taken backwards. */
  lemma LinkedSym(F: set<Edge>, a: int, b: int)
    requires Linked(F, a, b)
    ensures Linked(F, b, a)
  {
    var u :| Walk(F, u) && u[0] == a && u[|u| - 1] == b;
    var w := seq(|u|, i requires 0 <= i < |u| => u[|u| - 1 - i]);
    forall i | 0 <= i < |w| - 1 ensures Norm(w[i], w[i + 1]) in F {
      assert Norm(w[i], w[i + 1]) == Norm(u[|u| - 2 - i], u[|u| - 1 - i]);
    }
    assert Walk(F, w);
  }

  /** Any walk can be cut down to one that never repeats a location. */
  lemma {:induction false} SimpleWalk(F: set<Edge>, w: seq<int>) returns (s: seq<int>)
    requires Walk(F, w)
    ensures Walk(F, s) && Distinct(s) && s[0] == w[0] && s[|s| - 1] == w[|w| - 1]
    decreases |w|
  {
    if Distinct(w) {
      s := w;
    } else {
      var i, j :| 0 <= i < j < |w| && w[i] == w[j];
      var u := w[..i] + w[j..];
      forall k | 0 <= k < |u| - 1 ensures Norm(u[k], u[k + 1]) in F {
        if k >= i {
          assert u[k] == w[k - i + j] && u[k + 1] == w[k + 1 - i + j];
        } else if k == i - 1 {
          assert u[k] == w[k] && u[k + 1] == w[j] == w[k + 1];
        } else {
          assert u[k] == w[k] && u[k + 1] == w[k + 1];
        }
      }
      assert u[0] == w[0] && u[|u| - 1] == w[|w| - 1];
      s := SimpleWalk(F, u);
    }
  }

  /** A walk that starts inside S and ends outside leaves S somewhere: up to
      index t it is inside, and the next location is outside. */
  lemma {:induction false} FirstExit(w: seq<int>, S: set<int>, k: int) returns (t: int)
    requires 0 <= k < |w| && w[|w| - 1] !in S
    requires forall i :: 0 <= i <= k ==> w[i] in S
    ensures k <= t < |w| - 1 && w[t + 1] !in S
    ensures forall i :: 0 <= i <= t ==> w[i] in S
    decreases |w| - k
  {
    if w[k + 1] !in S {
      t := k;
    } else {
      t := FirstExit(w, S, k + 1);
    }
  }

  /** A walk whose every step but the edge {a, b} lies in F', where a and b
      are linked both ways in F', still links its ends in F'. */
  lemma {:induction false} Reroute(F: set<Edge>, F': set<Edge>, a: int, b: int, w: seq<int>)
    requires Walk(F, w) && Linked(F', a, b) && Linked(F', b, a)
    requires forall e :: e in F && e != Norm(a, b) ==> e in F'
    ensures Linked(F', w[0], w[|w| - 1])
    decreases |w|
  {
    if |w| == 1 {
      LinkedHere(F', w[0]);
    } else {
      var u := w[..|w| - 1];
      assert Walk(F, u);
      Reroute(F, F', a, b, u);
      var x, y := w[|w| - 2], w[|w| - 1];
      if Norm(x, y) == Norm(a, b) {
        NormEq(x, y, a, b);
      } else {
        LinkedEdge(F', x, y);
      }
      LinkedTrans(F', w[0], x, y);
    }
  }

  /** The part of a walk from index i to index j is a walk. */
  lemma Segment(F: set<Edge>, w: seq<int>, i: int, j: int)
    requires 0 <= i <= j < |w|
    requires forall k :: i <= k < j ==> Norm(w[k], w[k + 1]) in F
    ensures Linked(F, w[i], w[j])
  {
    var s := w[i..j + 1];
    forall k | 0 <= k < |s| - 1 ensures Norm(s[k], s[k + 1]) in F {
      assert s[k] == w[i + k] && s[k + 1] == w[i + k + 1];
    }
    assert Walk(F, s);
  }

  /** Removing an edge and adding a new one keeps the size of a set. */
  lemma SwapSize(F: set<Edge>, f: Edge, e: Edge)
    requires f in F && e !in F
    ensures |F - {f} + {e}| == |F|
  {
    assert |F - {f}| == |F| - 1;
  }

  /** A walk along F from p to v that repeats no location, and the index t
      of its first step out of S. */
  lemma CrossingWalk(F: set<Edge>, R: set<int>, S: set<int>, p: int, v: int) returns (w: seq<int>, t: int)
    requires (forall x :: x in R ==> Linked(F, 0, x)) && p in R && v in R && p in S && v !in S
    ensures Walk(F, w) && Distinct(w) && w[0] == p && w[|w| - 1] == v
    ensures 0 <= t < |w| - 1 && w[t] in S && w[t + 1] !in S
  {
    LinkedSym(F, 0, p);
    LinkedTrans(F, p, 0, v);
    var w0 :| Walk(F, w0) && w0[0] == p && w0[|w0| - 1] == v;
    w := SimpleWalk(F, w0);
    t := FirstExit(w, S, 0);
  }

  /** Trading the step of a walk that repeats no location, from index t,
      for an edge joining the walk's ends keeps the two ends of that step
      linked both ways. */
  lemma SwapKeepsStepLinked(F: set<Edge>, w: seq<int>, t: int)
    requires Walk(F, w) && Distinct(w) && 0 <= t < |w| - 1
    ensures var F' := F - {Norm(w[t], w[t + 1])} + {Norm(w[0], w[|w| - 1])};
      Linked(F', w[t], w[t + 1]) && Linked(F', w[t + 1], w[t])
  {
    var a, b, p, v := w[t], w[t + 1], w[0], w[|w| - 1];
    var F' := F - {Norm(a, b)} + {Norm(p, v)};
    forall k | 0 <= k < |w| - 1 && k != t ensures Norm(w[k], w[k + 1]) in F' {
      if Norm(w[k], w[k + 1]) == Norm(a, b) {
        NormEq(w[k], w[k + 1], a, b);
      }
    }
    Segment(F', w, 0, t);
    Segment(F', w, t + 1, |w| - 1);
    LinkedEdge(F', p, v);
    LinkedSym(F', p, a);
    LinkedTrans(F', a, p, v);
    LinkedSym(F', b, v);
    LinkedTrans(F', a, v, b);
    LinkedSym(F', a, b);
  }

  /** The exchange step. Let S hold 0, p be in S and v be outside it, and
      let the edge {p, v} be no heavier than any edge from S to outside.
      A spanning tree F without {p, v} has an edge f leaving S, no lighter
      than {p, v}, such that trading f for {p, v} leaves a spanning tree. */
  lemma Exchange(g: seq<seq<int>>, n: int, R: set<int>, F: set<Edge>, S: set<int>, p: int, v: int)
    returns (f: Edge)
    requires SpanningTreeOf(g, n, R, F) && Symmetric(g, n)
    requires S <= R && p in S && v in R && v !in S
    requires g[p][v] != 0 && g[p][v] < Inf && Norm(p, v) !in F
    requires forall a, y :: a in S && 0 <= y < n && y !in S && g[a][y] != 0 ==> g[p][v] <= g[a][y]
    ensures f in F && (f.0 in S) != (f.1 in S)
    ensures g[p][v] <= g[f.0][f.1]
    ensures SpanningTreeOf(g, n, R, F - {f} + {Norm(p, v)})
  {
    var w, t := CrossingWalk(F, R, S, p, v);
    var a, b := w[t], w[t + 1];
    f := Norm(a, b);
    assert f in F;
    assert g[p][v] <= g[a][b];
    var e := Norm(p, v);
    var F' := F - {f} + {e};
    SwapSize(F, f, e);
    SwapKeepsStepLinked(F, w, t);
    forall x | x in R ensures Linked(F', 0, x) {
      var u :| Walk(F, u) && u[0] == 0 && u[|u| - 1] == x;
      Reroute(F, F', a, b, u);
    }
  }

  /** The exchange step keeping a set P of edges inside S: when F holds P,
      trading leaves a spanning tree, no heavier, that holds P and {p, v}. */
  lemma ExchangeKeeping(g: seq<seq<int>>, n: int, R: set<int>, F: set<Edge>, S: set<int>, p: int, v: int, P: set<Edge>)
    returns (F': set<Edge>)
    requires SpanningTreeOf(g, n, R, F) && Symmetric(g, n)
    requires S <= R && p in S && v in R && v !in S
    requires g[p][v] != 0 && g[p][v] < Inf
    requires forall a, y :: a in S && 0 <= y < n && y !in S && g[a][y] != 0 ==> g[p][v] <= g[a][y]
    requires P <= F && forall d :: d in P ==> d.0 in S && d.1 in S
    ensures SpanningTreeOf(g, n, R, F') && P + {Norm(p, v)} <= F'
    ensures EdgesBelow(F, n) && EdgesBelow(F', n) && Weight(g, n, F') <= Weight(g, n, F)
  {
    var e := Norm(p, v);
    if e in F {
      F' := F;
    } else {
      var f := Exchange(g, n, R, F, S, p, v);
      assert g[e.0][e.1] == g[p][v];
      F' := F - {f} + {e};
      WeightRemove(g, n, F, f);
      WeightAdd(g, n, F - {f}, e);
    }
  }
}
