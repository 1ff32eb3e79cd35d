/** `bfsDelivery` and `dfsDelivery`: both visit, from `start`, every location
    reachable along the adjacency lists, each exactly once, beginning with
    `start`. The printed order is returned. The BFS order is also proved
    breadth-first: locations appear in order of hop distance from `start`. */
module Traversal {
  import opened DeliveryGraph

  /** The location at index i is a destination on the list of a location
      listed before it. */
  ghost predicate HasParent(adj: seq<seq<AdjNode>>, s: seq<int>, i: int)
    requires InRange(s, |adj|) && 0 <= i < |s|
  {
    exists k :: 0 <= k < i && s[i] in Dests(adj[s[k]])
  }

  /** Every location after the first is a destination on the list of a
      location listed before it. */
  ghost predicate Discovered(adj: seq<seq<AdjNode>>, s: seq<int>)
    requires InRange(s, |adj|)
  {
    forall i :: 0 < i < |s| ==> HasParent(adj, s, i)
  }

  /** Every destination on the list of a listed location is listed. */
  ghost predicate Closed(adj: seq<seq<AdjNode>>, s: seq<int>)
    requires InRange(s, |adj|)
  {
    forall i, d :: 0 <= i < |s| && d in Dests(adj[s[i]]) ==> d in s
  }

  /** A complete traversal from `start`. */
  ghost predicate IsTraversal(adj: seq<seq<AdjNode>>, start: int, s: seq<int>)
  {
    && |s| > 0 && s[0] == start
    && InRange(s, |adj|) && Distinct(s)
    && Discovered(adj, s) && Closed(adj, s)
  }

  /** A walk along the adjacency lists. */
  ghost predicate IsWalk(adj: seq<seq<AdjNode>>, p: seq<int>)
  {
    && |p| > 0 && InRange(p, |adj|)
    && forall i :: 0 <= i < |p| - 1 ==> p[i + 1] in Dests(adj[p[i]])
  }

  /** A traversal lists the end of every walk from its start... */
  lemma {:induction false} TraversalCoversWalks(adj: seq<seq<AdjNode>>, start: int, s: seq<int>, p: seq<int>)
    requires IsTraversal(adj, start, s) && IsWalk(adj, p) && p[0] == start
    ensures p[|p| - 1] in s
    decreases |p|
  {
    if |p| > 1 {
      var q := p[..|p| - 1];
      TraversalCoversWalks(adj, start, s, q);
      var i :| 0 <= i < |s| && s[i] == q[|q| - 1];
      assert p[|p| - 1] in Dests(adj[s[i]]);
    }
  }

  /** ...and only ends of walks from its start. */
  lemma {:induction false} TraversalReachable(adj: seq<seq<AdjNode>>, start: int, s: seq<int>, i: int) returns (p: seq<int>)
    requires IsTraversal(adj, start, s) && 0 <= i < |s|
    ensures IsWalk(adj, p) && p[0] == start && p[|p| - 1] == s[i]
    decreases i
  {
    if i == 0 {
      p := [start];
    } else {
      assert HasParent(adj, s, i);
      var k :| 0 <= k < i && s[i] in Dests(adj[s[k]]);
      var q := TraversalReachable(adj, start, s, k);
      p := q + [s[i]];
      assert forall j :: 0 <= j < |q| ==> p[j] == q[j];
    }
  }

  /** Hence any two traversals from the same start list the same locations:
      BFS and DFS visit the same set. */
  lemma TraversalsAgree(adj: seq<seq<AdjNode>>, start: int, s: seq<int>, t: seq<int>)
    requires IsTraversal(adj, start, s) && IsTraversal(adj, start, t)
    ensures forall x :: x in s <==> x in t
  {
    forall x | x in s ensures x in t {
      var i :| 0 <= i < |s| && s[i] == x;
      var p := TraversalReachable(adj, start, s, i);
      TraversalCoversWalks(adj, start, t, p);
    }
    forall x | x in t ensures x in s {
      var i :| 0 <= i < |t| && t[i] == x;
      var p := TraversalReachable(adj, start, t, i);
      TraversalCoversWalks(adj, start, s, p);
    }
  }

  /** `disc[i]` is the index of the location on whose list the i-th
      location was found (i >= 1): a location listed before it, no location
      listed before that one has it on its list, and the discovering indices
      never go back along the order. */
  ghost predicate BreadthFirst(adj: seq<seq<AdjNode>>, s: seq<int>, disc: seq<int>)
    requires InRange(s, |adj|)
  {
    && |disc| == |s|
    && (forall i :: 0 < i < |s| ==> 0 <= disc[i] < i && s[i] in Dests(adj[s[disc[i]]]))
    && (forall i, j :: 0 < i <= j < |s| ==> disc[i] <= disc[j])
    && (forall i, j :: 0 < i < |s| && 0 <= j < |s| && s[i] in Dests(adj[s[j]]) ==> disc[i] <= j)
  }

  /** The breadth-first conditions while the locations before index `front`
      of the queue have been handled. */
  ghost predicate DiscoveredBefore(adj: seq<seq<AdjNode>>, queue: seq<int>, disc: seq<int>, front: int)
    requires InRange(queue, |adj|)
  {
    && |disc| == |queue| && front <= |queue|
    && (forall i :: 0 < i < |queue| ==> 0 <= disc[i] < front && disc[i] < i && queue[i] in Dests(adj[queue[disc[i]]]))
    && (forall i, j :: 0 < i <= j < |queue| ==> disc[i] <= disc[j])
    && (forall i, j :: 0 < i < |queue| && 0 <= j < front && queue[i] in Dests(adj[queue[j]]) ==> disc[i] <= j)
  }

  /** The number of discoveries from the start down to the i-th location. */
  ghost function Level(adj: seq<seq<AdjNode>>, s: seq<int>, disc: seq<int>, i: int): nat
    requires InRange(s, |adj|) && BreadthFirst(adj, s, disc) && 0 <= i < |s|
    decreases i
  {
    if i == 0 then 0 else Level(adj, s, disc, disc[i]) + 1
  }

  /** Levels never go down along a breadth-first order. */
  lemma {:induction false} LevelsNondecreasing(adj: seq<seq<AdjNode>>, s: seq<int>, disc: seq<int>, i: int, j: int)
    requires InRange(s, |adj|) && BreadthFirst(adj, s, disc) && 0 <= i <= j < |s|
    ensures Level(adj, s, disc, i) <= Level(adj, s, disc, j)
    decreases j
  {
    if 0 < i < j {
      LevelsNondecreasing(adj, s, disc, disc[i], disc[j]);
    }
  }

  /** Following the discoveries back gives a walk from the start with as
      many steps as the level. */
  lemma {:induction false} LevelWalk(adj: seq<seq<AdjNode>>, start: int, s: seq<int>, disc: seq<int>, i: int)
    returns (p: seq<int>)
    requires IsTraversal(adj, start, s) && BreadthFirst(adj, s, disc) && 0 <= i < |s|
    ensures IsWalk(adj, p) && p[0] == start && p[|p| - 1] == s[i] && |p| == Level(adj, s, disc, i) + 1
    decreases i
  {
    if i == 0 {
      p := [start];
    } else {
      var q := LevelWalk(adj, start, s, disc, disc[i]);
      p := q + [s[i]];
      assert forall j :: 0 <= j < |q| ==> p[j] == q[j];
    }
  }

  /** No walk from the start to the i-th location is shorter than its
      level. */
  lemma {:induction false} LevelNoLonger(adj: seq<seq<AdjNode>>, start: int, s: seq<int>, disc: seq<int>, i: int, p: seq<int>)
    requires IsTraversal(adj, start, s) && BreadthFirst(adj, s, disc) && 0 <= i < |s|
    requires IsWalk(adj, p) && p[0] == start && p[|p| - 1] == s[i]
    ensures Level(adj, s, disc, i) <= |p| - 1
    decreases |p|
  {
    if |p| == 1 {
      assert s[i] == s[0];
    } else {
      var q := p[..|p| - 1];
      TraversalCoversWalks(adj, start, s, q);
      var j :| 0 <= j < |s| && s[j] == q[|q| - 1];
      LevelNoLonger(adj, start, s, disc, j, q);
      if i > 0 {
        assert s[i] in Dests(adj[s[j]]);
        LevelsNondecreasing(adj, s, disc, disc[i], j);
      }
    }
  }

  /** In a breadth-first traversal the level of each location is its hop
      distance from the start: some walk has that many steps and none has
      fewer. With `LevelsNondecreasing`, locations are listed in order of
      distance. */
  lemma HopDistance(adj: seq<seq<AdjNode>>, start: int, s: seq<int>, disc: seq<int>, i: int) returns (p: seq<int>)
    requires IsTraversal(adj, start, s) && BreadthFirst(adj, s, disc) && 0 <= i < |s|
    ensures IsWalk(adj, p) && p[0] == start && p[|p| - 1] == s[i] && |p| == Level(adj, s, disc, i) + 1
    ensures forall q :: IsWalk(adj, q) && q[0] == start && q[|q| - 1] == s[i] ==> |q| >= |p|
  {
    p := LevelWalk(adj, start, s, disc, i);
    forall q | IsWalk(adj, q) && q[0] == start && q[|q| - 1] == s[i] ensures |q| >= |p| {
      LevelNoLonger(adj, start, s, disc, i, q);
    }
  }

  /** `bfsDelivery(start)`: the array queue `q` with `front` and `rear`. */
  method BfsDelivery(net: DeliveryNetwork, start: int) returns (order: seq<int>, ghost disc: seq<int>)
    requires net.Valid() && 0 <= start < MaxLocations
    ensures IsTraversal(net.adjList[..], start, order)
    ensures BreadthFirst(net.adjList[..], order, disc)
  {
    ghost var adj := net.adjList[..];
    var visited := new bool[MaxLocations](_ => false);
    var q := new int[MaxLocations](_ => 0);
    var front, rear := 0, 0;
    visited[start] := true;
    q[rear] := start;
    rear := rear + 1;
    ghost var queue := [start];
    disc := [0];
    while front < rear
      invariant 0 <= front <= rear <= MaxLocations && q[..rear] == queue
      invariant forall x :: 0 <= x < MaxLocations ==> (visited[x] <==> x in queue)
      invariant BfsQueue(adj, start, queue, disc, front)
      decreases MaxLocations - front
    {
      var u := q[front];
      assert u == queue[front];
      front := front + 1;
      var cur := net.adjList[u];
      forall k | 0 <= k < |cur| ensures 0 <= cur[k].dest < MaxLocations {
        assert cur[k].dest in Dests(adj[u]);
      }
      ghost var queue0, disc0 := queue, disc;
      rear, queue, disc := EnqueueNeighbours(adj, cur, front - 1, visited, q, rear, queue, disc);
      BfsStep(adj, start, queue0, disc0, queue, disc, front - 1);
    }
    order := q[..rear];
    AllHandled(adj, start, order, disc);
  }

  /** The state of the queue of `bfsDelivery` while the locations before
      index `front` have been handled: it starts at `start`, lists each
      location once, each found on the list of an earlier one, holds every
      destination of a handled location, and meets the breadth-first
      conditions so far. */
  ghost predicate BfsQueue(adj: seq<seq<AdjNode>>, start: int, queue: seq<int>, disc: seq<int>, front: int)
  {
    && 0 <= front <= |queue| && |queue| > 0 && queue[0] == start
    && InRange(queue, |adj|) && Distinct(queue) && Discovered(adj, queue)
    && (forall i, d :: 0 <= i < front && d in Dests(adj[queue[i]]) ==> d in queue)
    && DiscoveredBefore(adj, queue, disc, front)
  }

  /** Handling the location at index p, by appending the destinations on
      its list that were not queued, keeps the queue's state with p
      handled. */
  lemma BfsStep(adj: seq<seq<AdjNode>>, start: int, queue0: seq<int>, disc0: seq<int>, queue: seq<int>, disc: seq<int>, p: int)
    requires |adj| == MaxLocations && BfsQueue(adj, start, queue0, disc0, p) && p < |queue0|
    requires |queue0| <= |queue| && queue[..|queue0|] == queue0
    requires InRange(queue, MaxLocations) && Distinct(queue) && Discovered(adj, queue)
    requires forall d :: d in Dests(adj[queue0[p]]) ==> d in queue
    requires |disc| == |queue| && disc[..|queue0|] == disc0
    requires forall i :: |queue0| <= i < |queue| ==> disc[i] == p && queue[i] in Dests(adj[queue0[p]])
    ensures BfsQueue(adj, start, queue, disc, p + 1)
  {
    QueueExtends(queue0, queue);
    forall i, d | 0 <= i < p + 1 && d in Dests(adj[queue[i]]) ensures d in queue {
      assert queue[i] == queue0[i];
    }
    DiscoveryStep(adj, queue0, disc0, queue, disc, p);
  }

  /** Once every queued location is handled, the queue is a complete
      traversal in breadth-first order. */
  lemma AllHandled(adj: seq<seq<AdjNode>>, start: int, queue: seq<int>, disc: seq<int>)
    requires BfsQueue(adj, start, queue, disc, |queue|)
    ensures IsTraversal(adj, start, queue) && BreadthFirst(adj, queue, disc)
  {
  }

  /** After the location at index p has been handled, the discovering
      indices still meet the breadth-first conditions for the locations
      handled so far, now including p. */
  lemma DiscoveryStep(adj: seq<seq<AdjNode>>, queue0: seq<int>, disc0: seq<int>, queue: seq<int>, disc: seq<int>, p: int)
    requires |adj| == MaxLocations && InRange(queue, MaxLocations) && Distinct(queue)
    requires 0 <= p < |queue0| <= |queue| && queue[..|queue0|] == queue0 && InRange(queue0, MaxLocations)
    requires |disc| == |queue| && disc[..|queue0|] == disc0
    requires forall i :: |queue0| <= i < |queue| ==> disc[i] == p && queue[i] in Dests(adj[queue0[p]])
    requires forall i, d :: 0 <= i < p && d in Dests(adj[queue0[i]]) ==> d in queue0
    requires DiscoveredBefore(adj, queue0, disc0, p + 1)
    ensures DiscoveredBefore(adj, queue, disc, p + 1)
  {
    QueueExtends(queue0, queue);
    DiscoveryFound(adj, queue0, disc0, queue, disc, p);
    DiscoveryMonotone(adj, queue0, disc0, queue, disc, p);
    DiscoveryFirst(adj, queue0, disc0, queue, disc, p);
  }

  /** Each location is found, by a location handled so far, on its list. */
  lemma DiscoveryFound(adj: seq<seq<AdjNode>>, queue0: seq<int>, disc0: seq<int>, queue: seq<int>, disc: seq<int>, p: int)
    requires InRange(queue, |adj|) && 0 <= p < |queue0| <= |queue| && queue[..|queue0|] == queue0
    requires |disc| == |queue| && disc[..|queue0|] == disc0
    requires forall i :: |queue0| <= i < |queue| ==> disc[i] == p && queue[i] in Dests(adj[queue0[p]])
    requires DiscoveredBefore(adj, queue0, disc0, p + 1)
    ensures forall i :: 0 < i < |queue| ==> 0 <= disc[i] < p + 1 && disc[i] < i && queue[i] in Dests(adj[queue[disc[i]]])
  {
    forall i | 0 < i < |queue| ensures 0 <= disc[i] < p + 1 && disc[i] < i && queue[i] in Dests(adj[queue[disc[i]]]) {
      if i < |queue0| {
        assert disc[i] == disc0[i] && queue[i] == queue0[i] && queue[disc[i]] == queue0[disc[i]];
      } else {
        assert queue[p] == queue0[p];
      }
    }
  }

  /** The finders' indices never go back along the queue. */
  lemma DiscoveryMonotone(adj: seq<seq<AdjNode>>, queue0: seq<int>, disc0: seq<int>, queue: seq<int>, disc: seq<int>, p: int)
    requires InRange(queue0, |adj|) && 0 <= p < |queue0| <= |queue|
    requires |disc| == |queue| && disc[..|queue0|] == disc0
    requires forall i :: |queue0| <= i < |queue| ==> disc[i] == p
    requires DiscoveredBefore(adj, queue0, disc0, p + 1)
    ensures forall i, j :: 0 < i <= j < |queue| ==> disc[i] <= disc[j]
  {
    forall i, j | 0 < i <= j < |queue| ensures disc[i] <= disc[j] {
      if j < |queue0| {
        assert disc[i] == disc0[i] && disc[j] == disc0[j];
      } else if i < |queue0| {
        assert disc[i] == disc0[i];
      }
    }
  }

  /** A location is found by the first handled location that has it on its
      list. */
  lemma DiscoveryFirst(adj: seq<seq<AdjNode>>, queue0: seq<int>, disc0: seq<int>, queue: seq<int>, disc: seq<int>, p: int)
    requires |adj| == MaxLocations && InRange(queue, MaxLocations) && Distinct(queue)
    requires 0 <= p < |queue0| <= |queue| && queue[..|queue0|] == queue0 && InRange(queue0, MaxLocations)
    requires |disc| == |queue| && disc[..|queue0|] == disc0
    requires forall i :: |queue0| <= i < |queue| ==> disc[i] == p
    requires forall i, d :: 0 <= i < p && d in Dests(adj[queue0[i]]) ==> d in queue0
    requires DiscoveredBefore(adj, queue0, disc0, p + 1)
    ensures forall i, j :: 0 < i < |queue| && 0 <= j < p + 1 && queue[i] in Dests(adj[queue[j]]) ==> disc[i] <= j
  {
    forall i, j | 0 < i < |queue| && 0 <= j < p + 1 && queue[i] in Dests(adj[queue[j]]) ensures disc[i] <= j {
      if i < |queue0| {
        assert disc[i] == disc0[i] && queue[i] == queue0[i] && queue[j] == queue0[j];
      } else if j < p {
        NotFoundBefore(adj, queue0, queue, i, j);
      }
    }
  }

  /** A location queued after queue0 is on no list of a location whose list
      was already all queued. */
  lemma NotFoundBefore(adj: seq<seq<AdjNode>>, queue0: seq<int>, queue: seq<int>, i: int, j: int)
    requires |adj| == MaxLocations && InRange(queue, MaxLocations) && Distinct(queue)
    requires |queue0| <= i < |queue| && queue[..|queue0|] == queue0 && 0 <= j < |queue0|
    requires forall d :: d in Dests(adj[queue0[j]]) ==> d in queue0
    ensures queue[i] !in Dests(adj[queue[j]])
  {
    assert queue[j] == queue0[j];
  }

  /** The inner loop of `bfsDelivery` for the location at queue index p:
      each destination on its list that is not yet visited is marked and
      enqueued, in list order, found by p. */
  method EnqueueNeighbours(ghost adj: seq<seq<AdjNode>>, cur: seq<AdjNode>, ghost p: int,
                           visited: array<bool>, q: array<int>, rear0: int, ghost queue0: seq<int>, ghost disc0: seq<int>)
    returns (rear: int, ghost queue: seq<int>, ghost disc: seq<int>)
    requires visited.Length == MaxLocations && q.Length == MaxLocations
    requires |adj| == MaxLocations && InRange(queue0, MaxLocations)
    requires 0 <= p < |queue0| && cur == adj[queue0[p]]
    requires forall k :: 0 <= k < |cur| ==> 0 <= cur[k].dest < MaxLocations
    requires 0 <= rear0 <= MaxLocations && q[..rear0] == queue0
    requires Distinct(queue0) && Discovered(adj, queue0)
    requires forall x :: 0 <= x < MaxLocations ==> (visited[x] <==> x in queue0)
    requires |disc0| == |queue0|
    modifies visited, q
    ensures rear0 <= rear <= MaxLocations && q[..rear] == queue && queue[..rear0] == queue0
    ensures InRange(queue, MaxLocations) && Distinct(queue) && Discovered(adj, queue)
    ensures forall x :: 0 <= x < MaxLocations ==> (visited[x] <==> x in queue)
    ensures forall d :: d in Dests(cur) ==> d in queue
    ensures |disc| == |queue| && disc[..rear0] == disc0
    ensures forall i :: rear0 <= i < |queue| ==> disc[i] == p && queue[i] in Dests(cur)
  {
    rear, queue, disc := rear0, queue0, disc0;
    for j := 0 to |cur|
      invariant rear0 <= rear <= MaxLocations && q[..rear] == queue && queue[..rear0] == queue0
      invariant InRange(queue, MaxLocations) && Distinct(queue) && Discovered(adj, queue)
      invariant forall x :: 0 <= x < MaxLocations ==> (visited[x] <==> x in queue)
      invariant forall k :: 0 <= k < j ==> visited[cur[k].dest]
      invariant |disc| == |queue| && disc[..rear0] == disc0
      invariant forall i :: rear0 <= i < |queue| ==> disc[i] == p && queue[i] in Dests(cur)
    {
      var d := cur[j].dest;
      if !visited[d] {
        assert queue[p] == queue0[p] && d in Dests(cur);
        QueuePush(adj, queue, d, p);
        DistinctBound(queue + [d], MaxLocations);
        visited[d] := true;
        q[rear] := d;
        rear := rear + 1;
        queue := queue + [d];
        disc := disc + [p];
      }
    }
    forall d | d in Dests(cur) ensures d in queue {
      var k :| 0 <= k < |cur| && cur[k].dest == d;
    }
  }

  /** A queue that only grew keeps its entries where they were. */
  lemma QueueExtends(queue0: seq<int>, queue: seq<int>)
    requires |queue0| <= |queue| && queue[..|queue0|] == queue0
    ensures forall i :: 0 <= i < |queue0| ==> queue[i] == queue0[i]
    ensures forall x :: x in queue0 ==> x in queue
  {
    forall x | x in queue0 ensures x in queue {
      var i :| 0 <= i < |queue0| && queue0[i] == x;
      assert queue[i] == x;
    }
  }

  /** Enqueueing an unlisted destination of a listed location keeps the
      queue discovered and distinct. */
  lemma QueuePush(adj: seq<seq<AdjNode>>, queue: seq<int>, d: int, p: int)
    requires InRange(queue, |adj|) && Distinct(queue) && Discovered(adj, queue)
    requires 0 <= p < |queue| && d in Dests(adj[queue[p]]) && 0 <= d < |adj| && d !in queue
    ensures InRange(queue + [d], |adj|) && Distinct(queue + [d]) && Discovered(adj, queue + [d])
  {
    DiscoveredAppend(adj, queue, [d], p);
  }

  /** Joining two lists with no location in common keeps them distinct. */
  lemma DistinctAppend(a: seq<int>, b: seq<int>)
    requires Distinct(a) && Distinct(b) && forall x :: x in b ==> x !in a
    ensures Distinct(a + b)
  {
    var s := a + b;
    forall i, j | 0 <= i < j < |s| ensures s[i] != s[j] {
      if j < |a| {
        assert s[i] == a[i] && s[j] == a[j];
      } else if i < |a| {
        assert s[i] == a[i] && s[j] == b[j - |a|] && b[j - |a|] in b;
      } else {
        assert s[i] == b[i - |a|] && s[j] == b[j - |a|];
      }
    }
  }

  /** Appending a traversal piece that starts at a destination of an earlier
      location keeps every location discovered. */
  lemma DiscoveredAppend(adj: seq<seq<AdjNode>>, a: seq<int>, b: seq<int>, k: int)
    requires InRange(a, |adj|) && InRange(b, |adj|) && Discovered(adj, a) && Discovered(adj, b)
    requires 0 <= k < |a| && |b| > 0 && b[0] in Dests(adj[a[k]])
    ensures InRange(a + b, |adj|) && Discovered(adj, a + b)
  {
    var s := a + b;
    forall i | 0 <= i < |s| ensures 0 <= s[i] < |adj| {
      if i >= |a| {
        assert s[i] == b[i - |a|];
      }
    }
    forall i | 0 < i < |s| ensures HasParent(adj, s, i) {
      if i < |a| {
        assert HasParent(adj, a, i);
        var k' :| 0 <= k' < i && a[i] in Dests(adj[a[k']]);
        assert s[k'] == a[k'];
      } else if i == |a| {
        assert s[k] == a[k];
      } else {
        assert HasParent(adj, b, i - |a|);
        var k' :| 0 <= k' < i - |a| && b[i - |a|] in Dests(adj[b[k']]);
        assert s[|a| + k'] == b[k'];
      }
    }
  }

  /** `dfsDeliveryUtil(u, visited)`: marks and lists u, then descends into
      every destination on u's list that is still unvisited. */
  method DfsDeliveryUtil(net: DeliveryNetwork, u: int, visited: array<bool>) returns (out: seq<int>)
    requires net.Valid() && visited.Length == MaxLocations && 0 <= u < MaxLocations && !visited[u]
    modifies visited
    ensures |out| > 0 && out[0] == u
    ensures InRange(out, MaxLocations) && Distinct(out)
    ensures forall x :: 0 <= x < MaxLocations ==> (visited[x] <==> old(visited[x]) || x in out)
    ensures forall x :: x in out ==> !old(visited[x])
    ensures Discovered(net.adjList[..], out)
    ensures forall i, d :: 0 <= i < |out| && d in Dests(net.adjList[..][out[i]]) ==> visited[d]
    decreases CountFalse(visited[..]), 0
  {
    ghost var adj := net.adjList[..];
    visited[u] := true;
    CountFalseMono(old(visited[..]), visited[..]);
    out := [u];
    var cur := net.adjList[u];
    assert forall k :: 0 <= k < |cur| ==> cur[k].dest in Dests(adj[u]);
    var j := 0;
    while j < |cur|
      invariant 0 <= j <= |cur|
      invariant |out| > 0 && out[0] == u
      invariant InRange(out, MaxLocations) && Distinct(out)
      invariant forall x :: 0 <= x < MaxLocations ==> (visited[x] <==> old(visited[x]) || x in out)
      invariant forall x :: x in out ==> !old(visited[x])
      invariant Discovered(adj, out)
      invariant forall i, d :: 0 < i < |out| && d in Dests(adj[out[i]]) ==> visited[d]
      invariant forall k :: 0 <= k < j ==> 0 <= cur[k].dest < MaxLocations && visited[cur[k].dest]
      invariant CountFalse(visited[..]) < CountFalse(old(visited[..]))
    {
      out := Descend(net, cur[j].dest, visited, out, old(visited[..]));
      j := j + 1;
    }
    forall d | d in Dests(adj[u]) ensures visited[d] {
      var k :| 0 <= k < |cur| && cur[k].dest == d;
    }
  }

  /** One round of the loop of `dfsDeliveryUtil` for the location out0[0]:
      a destination d on its list that is still unvisited is descended into
      and what that visits is appended; v0 is the marking the caller
      started from. */
  method Descend(net: DeliveryNetwork, d: int, visited: array<bool>, out0: seq<int>, ghost v0: seq<bool>)
    returns (out: seq<int>)
    requires net.Valid() && visited.Length == MaxLocations && |v0| == MaxLocations
    requires InRange(out0, MaxLocations) && Distinct(out0) && |out0| > 0
    requires d in Dests(net.adjList[..][out0[0]])
    requires forall x :: 0 <= x < MaxLocations ==> (visited[x] <==> v0[x] || x in out0)
    requires forall x :: x in out0 ==> !v0[x]
    requires Discovered(net.adjList[..], out0)
    requires forall i, e :: 0 < i < |out0| && e in Dests(net.adjList[..][out0[i]]) ==> visited[e]
    modifies visited
    ensures |out| >= |out0| && out[0] == out0[0]
    ensures InRange(out, MaxLocations) && Distinct(out)
    ensures forall x :: 0 <= x < MaxLocations ==> (visited[x] <==> v0[x] || x in out)
    ensures forall x :: x in out ==> !v0[x]
    ensures Discovered(net.adjList[..], out)
    ensures forall i, e :: 0 < i < |out| && e in Dests(net.adjList[..][out[i]]) ==> visited[e]
    ensures 0 <= d < MaxLocations && visited[d]
    ensures forall x :: 0 <= x < MaxLocations && old(visited[x]) ==> visited[x]
    ensures CountFalse(visited[..]) <= CountFalse(old(visited[..]))
    decreases CountFalse(visited[..]), 1
  {
    ghost var adj := net.adjList[..];
    if visited[d] {
      return out0;
    }
    ghost var before := visited[..];
    var child := DfsDeliveryUtil(net, d, visited);
    CountFalseMono(before, visited[..]);
    DiscoveredAppend(adj, out0, child, 0);
    DistinctAppend(out0, child);
    out := out0 + child;
  }

  /** `dfsDelivery(start)`: a fresh all-false `visited` array. */
  method DfsDelivery(net: DeliveryNetwork, start: int) returns (order: seq<int>)
    requires net.Valid() && 0 <= start < MaxLocations
    ensures IsTraversal(net.adjList[..], start, order)
  {
    var visited := new bool[MaxLocations](_ => false);
    order := DfsDeliveryUtil(net, start, visited);
  }
}
