/** Shortest paths by Dijkstra's algorithm over the positive edge weights of
    the word graph, the reconstruction of a path from the predecessor map,
    and the two operations built on them. A node absent from the distance
    map stands for Integer.MAX_VALUE, "not reached". */
module PathFinder {
  import opened Collections
  import opened Strings
  import opened WordGraph

  // ---------------------------------------------------------------------------
  // Specification

  /** Some walk leads from `a` to `b`. */
  ghost predicate Reachable(adj: Adjacency, a: string, b: string) {
    exists p :: IsWalkFrom(adj, a, p) && Last(p) == b
  }

  /** No walk from `start` to `v` weighs less than `d`. */
  ghost predicate LowerBound(adj: Adjacency, start: string, v: string, d: int) {
    forall p :: IsWalkFrom(adj, start, p) && Last(p) == v ==> d <= PathWeight(adj, p)
  }

  /** The distance map is final for `v`: `v` is reached exactly when it is
      reachable, and then at a distance no walk undercuts. */
  ghost predicate Final(adj: Adjacency, start: string, dist: map<string, nat>, v: string) {
    (v in dist <==> Reachable(adj, start, v)) && (v in dist ==> LowerBound(adj, start, v, dist[v]))
  }

  /** `p` is a walk from `a` to `b` of least weight. */
  ghost predicate ShortestWalk(adj: Adjacency, a: string, b: string, p: seq<string>) {
    IsWalkFrom(adj, a, p) && Last(p) == b && LowerBound(adj, a, b, PathWeight(adj, p))
  }

  /** Every reached node other than the start has a predecessor, reached
      before it over an edge whose weight is the difference of distances. */
  ghost predicate PredecessorTree(adj: Adjacency, start: string, dist: map<string, nat>, prev: map<string, string>) {
    && start in dist && dist[start] == 0 && start !in prev
    && (forall v :: v in dist && v != start ==> v in prev)
    && (forall v :: v in prev ==>
          && v in dist && prev[v] in dist && HasEdge(adj, prev[v], v)
          && dist[v] == dist[prev[v]] + adj[prev[v]][v])
  }

  /** The walk obtained by following predecessors back from `v`. */
  ghost function TreeWalk(adj: Adjacency, start: string, dist: map<string, nat>, prev: map<string, string>,
                          v: string): seq<string>
    requires WellFormed(adj) && PredecessorTree(adj, start, dist, prev) && v in dist
    decreases dist[v]
  {
    if v == start then [start] else TreeWalk(adj, start, dist, prev, prev[v]) + [v]
  }

  // ---------------------------------------------------------------------------
  // Walks

  lemma PathWeightSnoc(adj: Adjacency, p: seq<string>, v: string)
    requires |p| >= 1
    ensures PathWeight(adj, p + [v]) == PathWeight(adj, p) + Weight(adj, Last(p), v)
  {
    assert (p + [v])[..|p|] == p;
  }

  /** With non-negative weights a walk weighs at least as much as any of its prefixes. */
  lemma {:induction false} PathWeightPrefix(adj: Adjacency, p: seq<string>, k: nat)
    requires WellFormed(adj) && 1 <= k <= |p|
    ensures PathWeight(adj, p[..k]) <= PathWeight(adj, p)
    decreases |p|
  {
    if k < |p| {
      var n := |p| - 1;
      assert p[..n][..k] == p[..k];
      PathWeightPrefix(adj, p[..n], k);
    } else {
      assert p[..k] == p;
    }
  }

  lemma PathWeightNonNegative(adj: Adjacency, p: seq<string>)
    requires WellFormed(adj) && |p| >= 1
    ensures PathWeight(adj, p) >= 0
  {
    PathWeightPrefix(adj, p, 1);
  }

  /** The predecessor walk leads from the start to `v` and weighs `dist[v]`. */
  lemma {:induction false} TreeWalkWeight(adj: Adjacency, start: string, dist: map<string, nat>,
                                          prev: map<string, string>, v: string)
    requires WellFormed(adj) && PredecessorTree(adj, start, dist, prev) && v in dist
    ensures var p := TreeWalk(adj, start, dist, prev, v);
      IsWalkFrom(adj, start, p) && Last(p) == v && PathWeight(adj, p) == dist[v]
    decreases dist[v]
  {
    if v != start {
      var u := prev[v];
      TreeWalkWeight(adj, start, dist, prev, u);
      var q := TreeWalk(adj, start, dist, prev, u);
      PathWeightSnoc(adj, q, v);
      assert forall i :: 0 <= i < |q| ==> (q + [v])[i] == q[i];
    }
  }

  /** A node reached by Dijkstra's algorithm is reachable, over the walk of its predecessors. */
  lemma TreeReachable(adj: Adjacency, start: string, dist: map<string, nat>, prev: map<string, string>, v: string)
    requires WellFormed(adj) && PredecessorTree(adj, start, dist, prev) && v in dist
    ensures Reachable(adj, start, v)
  {
    TreeWalkWeight(adj, start, dist, prev, v);
  }

  // ---------------------------------------------------------------------------
  // Invariants of the main loop

  /** Predecessor tree whose inner nodes are all settled. */
  ghost predicate SettledTree(adj: Adjacency, start: string, dist: map<string, nat>, prev: map<string, string>,
                              settled: set<string>) {
    PredecessorTree(adj, start, dist, prev) && (forall v :: v in prev ==> prev[v] in settled)
  }

  /** Every reached, unsettled node is queued with its distance, and no queue
      entry is below the distance of its node. */
  ghost predicate Queued(dist: map<string, nat>, settled: set<string>, pq: set<(string, nat)>) {
    && (forall e :: e in pq ==> e.0 in dist && dist[e.0] <= e.1)
    && (forall v :: v in dist && v !in settled ==> (v, dist[v]) in pq)
  }

  /** Every edge out of a settled node into an unsettled one has been relaxed. */
  ghost predicate Frontier(adj: Adjacency, dist: map<string, nat>, settled: set<string>) {
    forall u, v :: u in settled && u in dist && HasEdge(adj, u, v) && v !in settled ==>
      v in dist && dist[v] <= dist[u] + adj[u][v]
  }

  /** Settled distances are final: no walk is lighter. */
  ghost predicate SettledOptimal(adj: Adjacency, start: string, dist: map<string, nat>, settled: set<string>) {
    forall u :: u in settled ==> u in dist && LowerBound(adj, start, u, dist[u])
  }

  /** The first node of a walk outside `settled`, when its last node is outside. */
  lemma FirstOutside(p: seq<string>, settled: set<string>) returns (k: nat)
    requires |p| >= 1 && Last(p) !in settled
    ensures k < |p| && p[k] !in settled
    ensures forall j :: 0 <= j < k ==> p[j] in settled
  {
    k := 0;
    while p[k] in settled
      invariant k < |p|
      invariant forall j :: 0 <= j < k ==> p[j] in settled
      decreases |p| - k
    {
      k := k + 1;
    }
  }

  /** The node polled with the least queued distance has its final distance:
      a walk to it must leave the settled nodes somewhere, and the node it
      leaves them for is already queued at no less. */
  lemma SettleOptimal(adj: Adjacency, start: string, dist: map<string, nat>, settled: set<string>, c: string)
    requires WellFormed(adj) && settled <= dist.Keys
    requires start in dist && dist[start] == 0
    requires Frontier(adj, dist, settled) && SettledOptimal(adj, start, dist, settled)
    requires c in dist && c !in settled
    requires forall v :: v in dist && v !in settled ==> dist[c] <= dist[v]
    ensures LowerBound(adj, start, c, dist[c])
  {
    forall p | IsWalkFrom(adj, start, p) && Last(p) == c
      ensures dist[c] <= PathWeight(adj, p)
    {
      var k := FirstOutside(p, settled);
      PathWeightNonNegative(adj, p);
      if k > 0 {
        var x, y := p[k - 1], p[k];
        var pre := p[..k];
        assert IsWalkFrom(adj, start, pre) && Last(pre) == x;
        assert HasEdge(adj, x, y);
        PathWeightSnoc(adj, pre, y);
        assert pre + [y] == p[..k + 1];
        PathWeightPrefix(adj, p, k + 1);
      }
    }
  }

  // ---------------------------------------------------------------------------
  // The algorithm

  /** PriorityQueue.poll: an entry of least distance (ties in any order). */
  method Poll(pq: set<(string, nat)>) returns (entry: (string, nat))
    requires pq != {}
    ensures entry in pq
    ensures forall e :: e in pq ==> entry.1 <= e.1
  {
    entry :| entry in pq;
    var rest := pq - {entry};
    while rest != {}
      invariant rest <= pq && entry in pq
      invariant forall e :: e in pq - rest ==> entry.1 <= e.1
      decreases rest
    {
      var e :| e in rest;
      if e.1 < entry.1 {
        entry := e;
      }
      rest := rest - {e};
    }
  }

  /** A shorter distance found for an unsettled node, through the settled
      node `current`, keeps the predecessor tree. */
  lemma ImproveTree(adj: Adjacency, start: string, current: string, settled: set<string>,
                    dist: map<string, nat>, prev: map<string, string>, neighbor: string, newDist: nat)
    requires WellFormed(adj) && current in settled && settled <= dist.Keys
    requires SettledTree(adj, start, dist, prev, settled)
    requires HasEdge(adj, current, neighbor) && neighbor !in settled
    requires newDist == dist[current] + adj[current][neighbor]
    requires neighbor !in dist || newDist < dist[neighbor]
    ensures SettledTree(adj, start, dist[neighbor := newDist], prev[neighbor := current], settled)
  {
    var dist', prev' := dist[neighbor := newDist], prev[neighbor := current];
    forall v | v in prev'
      ensures v in dist' && prev'[v] in dist' && HasEdge(adj, prev'[v], v)
      ensures dist'[v] == dist'[prev'[v]] + adj[prev'[v]][v]
    {
      if v != neighbor {
        assert prev'[v] == prev[v] && prev[v] in settled;
      }
    }
  }

  /** A shorter distance for an unsettled node, queued with it, keeps the queue
      consistent. */
  lemma ImproveQueued(dist: map<string, nat>, settled: set<string>, pq: set<(string, nat)>,
                      neighbor: string, newDist: nat)
    requires Queued(dist, settled, pq) && neighbor !in settled
    requires neighbor !in dist || newDist < dist[neighbor]
    ensures Queued(dist[neighbor := newDist], settled, pq + {(neighbor, newDist)})
  {
  }

  /** From (`dist0`, `prev0`) to (`dist`, `prev`) distances only went down,
      no node was lost, and settled nodes kept distance and predecessor. */
  ghost predicate Descends(dist0: map<string, nat>, prev0: map<string, string>,
                           dist: map<string, nat>, prev: map<string, string>, settled: set<string>) {
    && dist0.Keys <= dist.Keys
    && (forall v :: v in dist0 ==> dist[v] <= dist0[v])
    && (forall v :: v in settled && v in dist0 ==> dist[v] == dist0[v])
    && (forall v :: v in settled ==> (v in prev <==> v in prev0) && (v in prev ==> prev[v] == prev0[v]))
  }

  lemma DescendsTrans(dist0: map<string, nat>, prev0: map<string, string>, dist1: map<string, nat>,
                      prev1: map<string, string>, dist: map<string, nat>, prev: map<string, string>,
                      settled: set<string>)
    requires Descends(dist0, prev0, dist1, prev1, settled) && Descends(dist1, prev1, dist, prev, settled)
    ensures Descends(dist0, prev0, dist, prev, settled)
  {
  }

  /** One pass of the inner loop of Dijkstra's algorithm: the edge from the
      settled node `current` to `neighbor` is relaxed unless `neighbor` is
      settled. */
  method RelaxEdge(adj: Adjacency, start: string, current: string, settled: set<string>,
                   dist0: map<string, nat>, prev0: map<string, string>, pq0: set<(string, nat)>, neighbor: string)
    returns (dist: map<string, nat>, prev: map<string, string>, pq: set<(string, nat)>)
    requires WellFormed(adj) && current in settled && settled <= dist0.Keys <= adj.Keys
    requires SettledTree(adj, start, dist0, prev0, settled) && Queued(dist0, settled, pq0)
    requires HasEdge(adj, current, neighbor)
    ensures Descends(dist0, prev0, dist, prev, settled) && dist.Keys <= adj.Keys
    ensures neighbor !in settled ==> neighbor in dist && dist[neighbor] <= dist0[current] + adj[current][neighbor]
    ensures SettledTree(adj, start, dist, prev, settled) && Queued(dist, settled, pq)
  {
    dist, prev, pq := dist0, prev0, pq0;
    var edgeWeight := adj[current][neighbor];
    if neighbor !in settled {
      var newDist := dist[current] + edgeWeight;
      if neighbor !in dist || newDist < dist[neighbor] {
        ImproveTree(adj, start, current, settled, dist, prev, neighbor, newDist);
        ImproveQueued(dist, settled, pq, neighbor, newDist);
        dist := dist[neighbor := newDist];
        prev := prev[neighbor := current];
        pq := pq + {(neighbor, newDist)};
      }
    }
  }

  /** The inner loop of Dijkstra's algorithm: relax every edge from the
      settled node `current` into an unsettled node. Settled nodes keep their
      distance and predecessor: a settled node is never relaxed again. */
  method Relax(adj: Adjacency, start: string, current: string, settled: set<string>,
               dist0: map<string, nat>, prev0: map<string, string>, pq0: set<(string, nat)>)
    returns (dist: map<string, nat>, prev: map<string, string>, pq: set<(string, nat)>)
    requires WellFormed(adj) && current in adj && current in settled && settled <= dist0.Keys <= adj.Keys
    requires SettledTree(adj, start, dist0, prev0, settled) && Queued(dist0, settled, pq0)
    ensures Descends(dist0, prev0, dist, prev, settled) && dist.Keys <= adj.Keys
    ensures forall v :: HasEdge(adj, current, v) && v !in settled ==>
      v in dist && dist[v] <= dist0[current] + adj[current][v]
    ensures SettledTree(adj, start, dist, prev, settled) && Queued(dist, settled, pq)
  {
    dist, prev, pq := dist0, prev0, pq0;
    var neighbors := Enumerate(adj[current].Keys);
    var i := 0;
    while i < |neighbors|
      invariant 0 <= i <= |neighbors|
      invariant Descends(dist0, prev0, dist, prev, settled) && dist.Keys <= adj.Keys
      invariant forall j :: 0 <= j < i && neighbors[j] !in settled ==>
        neighbors[j] in dist && dist[neighbors[j]] <= dist0[current] + adj[current][neighbors[j]]
      invariant SettledTree(adj, start, dist, prev, settled) && Queued(dist, settled, pq)
    {
      ghost var dist1, prev1 := dist, prev;
      assert neighbors[i] in Elems(neighbors);
      dist, prev, pq := RelaxEdge(adj, start, current, settled, dist, prev, pq, neighbors[i]);
      DescendsTrans(dist0, prev0, dist1, prev1, dist, prev, settled);
      i := i + 1;
    }
    forall v | HasEdge(adj, current, v) && v !in settled
      ensures v in dist && dist[v] <= dist0[current] + adj[current][v]
    {
      assert v in Elems(neighbors);
    }
  }

  /** The invariant of the main loop, apart from the relaxed frontier. */
  ghost predicate Searching(adj: Adjacency, start: string, dist: map<string, nat>, prev: map<string, string>,
                            settled: set<string>, pq: set<(string, nat)>) {
    && settled <= dist.Keys <= adj.Keys
    && SettledTree(adj, start, dist, prev, settled) && Queued(dist, settled, pq)
    && SettledOptimal(adj, start, dist, settled)
  }

  /** Dropping a stale queue entry of a settled node keeps the invariant. */
  lemma SkipSettled(adj: Adjacency, start: string, dist: map<string, nat>, prev: map<string, string>,
                    settled: set<string>, pq: set<(string, nat)>, entry: (string, nat))
    requires Searching(adj, start, dist, prev, settled, pq) && entry.0 in settled
    ensures Searching(adj, start, dist, prev, settled, pq - {entry})
  {
  }

  /** Settling the polled node of least queued distance keeps the invariant. */
  lemma SettleLeast(adj: Adjacency, start: string, dist: map<string, nat>, prev: map<string, string>,
                    settled: set<string>, pq: set<(string, nat)>, entry: (string, nat))
    requires WellFormed(adj) && Searching(adj, start, dist, prev, settled, pq) && Frontier(adj, dist, settled)
    requires entry in pq && entry.0 !in settled
    requires forall e :: e in pq ==> entry.1 <= e.1
    ensures Searching(adj, start, dist, prev, settled + {entry.0}, pq - {entry})
  {
    var c := entry.0;
    assert entry.1 == dist[c];
    forall v | v in dist && v !in settled
      ensures dist[c] <= dist[v]
    {
      assert (v, dist[v]) in pq;
    }
    SettleOptimal(adj, start, dist, settled, c);
  }

  /** Relaxing the edges of the node just settled restores the frontier. */
  lemma RelaxedAll(adj: Adjacency, start: string, current: string, settled: set<string>,
                   dist0: map<string, nat>, prev0: map<string, string>, dist: map<string, nat>, prev: map<string, string>, pq: set<(string, nat)>)
    requires current in settled && settled <= dist0.Keys && dist.Keys <= adj.Keys
    requires Frontier(adj, dist0, settled - {current}) && SettledOptimal(adj, start, dist0, settled)
    requires Descends(dist0, prev0, dist, prev, settled)
    requires forall v :: HasEdge(adj, current, v) && v !in settled ==>
      v in dist && dist[v] <= dist0[current] + adj[current][v]
    requires SettledTree(adj, start, dist, prev, settled) && Queued(dist, settled, pq)
    ensures Searching(adj, start, dist, prev, settled, pq) && Frontier(adj, dist, settled)
  {
  }

  /** Dijkstra's algorithm from `start`. With `target` absent it runs until
      the queue is empty and every node gets its final distance; with a
      target it stops as soon as the target is settled, and the target's
      distance is final. A node is reached exactly when a walk leads to it,
      and its distance is then the least weight of such a walk. */
  method Dijkstra(graph: DirectedGraph, start: string, target: Option<string>)
    returns (dist: map<string, nat>, prev: map<string, string>)
    requires graph.Valid() && start in graph.nodes
    ensures PredecessorTree(graph.adjacencyList, start, dist, prev)
    ensures dist.Keys <= graph.nodes
    ensures forall v :: target.None? || v == target.value ==> Final(graph.adjacencyList, start, dist, v)
  {
    var adj := graph.adjacencyList;
    dist := map[start := 0];
    prev := map[];
    var pq: set<(string, nat)> := {(start, 0)};
    var settled: set<string> := {};
    var found := false;
    while pq != {} && !found
      invariant Searching(adj, start, dist, prev, settled, pq)
      invariant !found ==> Frontier(adj, dist, settled)
      invariant found ==> target.Some? && target.value in settled
      decreases |adj.Keys - settled|, |pq|
    {
      dist, prev, settled, pq, found := Visit(adj, start, target, dist, prev, settled, pq);
    }
    Conclude(adj, start, dist, prev, settled, pq, target, found);
  }

  /** One pass of the main loop of Dijkstra's algorithm: poll the queue, skip
      a node already settled, otherwise settle it and, unless it is the
      target, relax its edges. */
  method Visit(adj: Adjacency, start: string, target: Option<string>, dist0: map<string, nat>,
               prev0: map<string, string>, settled0: set<string>, pq0: set<(string, nat)>)
    returns (dist: map<string, nat>, prev: map<string, string>, settled: set<string>, pq: set<(string, nat)>,
             found: bool)
    requires WellFormed(adj) && pq0 != {}
    requires Searching(adj, start, dist0, prev0, settled0, pq0) && Frontier(adj, dist0, settled0)
    ensures Searching(adj, start, dist, prev, settled, pq)
    ensures !found ==> Frontier(adj, dist, settled)
    ensures found ==> target.Some? && target.value in settled
    ensures |adj.Keys - settled| < |adj.Keys - settled0| || (settled == settled0 && |pq| < |pq0|)
  {
    dist, prev, settled, pq, found := dist0, prev0, settled0, pq0, false;
    var entry := Poll(pq);
    var currentNode := entry.0;
    if currentNode in settled {
      SkipSettled(adj, start, dist, prev, settled, pq, entry);
      pq := pq - {entry};
      return;
    }
    SettleLeast(adj, start, dist, prev, settled, pq, entry);
    assert adj.Keys - (settled + {currentNode}) < adj.Keys - settled;
    pq := pq - {entry};
    settled := settled + {currentNode};
    if target == Some(currentNode) {
      found := true;
    } else {
      dist, prev, pq := Relax(adj, start, currentNode, settled, dist, prev, pq);
      RelaxedAll(adj, start, currentNode, settled, dist0, prev0, dist, prev, pq);
    }
  }

  /** What the loop leaves behind: on an empty queue every reachable node is
      reached; every settled node, the target included, has its final distance. */
  lemma Conclude(adj: Adjacency, start: string, dist: map<string, nat>, prev: map<string, string>,
                 settled: set<string>, pq: set<(string, nat)>, target: Option<string>, found: bool)
    requires WellFormed(adj) && Searching(adj, start, dist, prev, settled, pq)
    requires !found ==> pq == {} && Frontier(adj, dist, settled)
    requires found ==> target.Some? && target.value in settled
    ensures PredecessorTree(adj, start, dist, prev)
    ensures forall v :: target.None? || v == target.value ==> Final(adj, start, dist, v)
  {
    forall v | target.None? || v == target.value
      ensures Final(adj, start, dist, v)
    {
      if v in dist {
        TreeReachable(adj, start, dist, prev, v);
        if !found {
          assert (v, dist[v]) in pq || v in settled;
        }
      }
      if Reachable(adj, start, v) && !found {
        var p :| IsWalkFrom(adj, start, p) && Last(p) == v;
        assert settled == dist.Keys by {
          forall u | u in dist ensures u in settled {
            assert (u, dist[u]) in pq || u in settled;
          }
        }
        ReachedAll(adj, start, dist, settled, p);
      }
    }
  }

  /** Once the queue is empty every node on a walk from the start is reached. */
  lemma ReachedAll(adj: Adjacency, start: string, dist: map<string, nat>, settled: set<string>, p: seq<string>)
    requires Frontier(adj, dist, settled) && settled == dist.Keys
    requires start in dist && IsWalkFrom(adj, start, p)
    ensures Last(p) in dist
  {
    var i := 0;
    while i < |p| - 1
      invariant 0 <= i < |p| && p[i] in dist
    {
      assert HasEdge(adj, p[i], p[i + 1]);
      i := i + 1;
    }
  }

  /** Stopping as soon as the target is settled does not change what the
      target gets: two distance maps both final for the target agree on it. */
  lemma EarlyStopAgrees(adj: Adjacency, start: string, target: string,
                        dist1: map<string, nat>, prev1: map<string, string>,
                        dist2: map<string, nat>, prev2: map<string, string>)
    requires WellFormed(adj)
    requires PredecessorTree(adj, start, dist1, prev1) && Final(adj, start, dist1, target)
    requires PredecessorTree(adj, start, dist2, prev2) && Final(adj, start, dist2, target)
    ensures target in dist1 <==> target in dist2
    ensures target in dist1 ==> dist1[target] == dist2[target]
  {
    if target in dist1 && target in dist2 {
      TreeWalkWeight(adj, start, dist1, prev1, target);
      TreeWalkWeight(adj, start, dist2, prev2, target);
    }
  }

  // ---------------------------------------------------------------------------
  // Paths

  /** reconstructPath: follow the predecessors back from `end` until `start`.
      For a reached node the result is its predecessor walk, which leads from
      `start` to `end` over edges weighing `dist[end]` in total; for any other
      node it is empty. */
  method ReconstructPath(ghost adj: Adjacency, ghost dist: map<string, nat>, previousNodes: map<string, string>,
                         start: string, end: string)
    returns (path: seq<string>)
    requires WellFormed(adj) && PredecessorTree(adj, start, dist, previousNodes)
    ensures end in dist ==> path == TreeWalk(adj, start, dist, previousNodes, end)
    ensures end in dist ==> IsWalkFrom(adj, start, path) && Last(path) == end && PathWeight(adj, path) == dist[end]
    ensures end !in dist ==> path == []
  {
    path := [];
    var at := Some(end);
    while at.Some?
      invariant end in dist && at.Some? ==>
        at.value in dist && TreeWalk(adj, start, dist, previousNodes, at.value) + path
                            == TreeWalk(adj, start, dist, previousNodes, end)
      invariant end in dist && at.None? ==> false
      invariant end !in dist ==> (at.Some? ==> at.value == end && path == []) && (at.None? ==> path == [end])
      decreases if at.None? then 0 else if at.value in dist then dist[at.value] + 2 else 1
    {
      var node := at.value;
      path := [node] + path;
      if node == start {
        break;
      }
      if node in previousNodes {
        ghost var before := path[1..];
        at := Some(previousNodes[node]);
        assert TreeWalk(adj, start, dist, previousNodes, at.value) + path
            == TreeWalk(adj, start, dist, previousNodes, node) + before;
      } else {
        at := None;
      }
    }
    if path == [] || path[0] != start {
      path := [];
    }
    if end in dist {
      TreeWalkWeight(adj, start, dist, previousNodes, end);
    }
  }

  /** The route to one reachable node in the all-paths answer. */
  datatype Route = Route(target: string, path: seq<string>, weight: nat)

  /** What calcShortestPath reports (the message texts are left out). */
  datatype PathAnswer =
    | NoGraph
    | WordsMissing(missing: seq<string>)
    | NoPath(word1: string, word2: string)
    | ShortestPath(word1: string, word2: string, path: seq<string>, weight: nat)
    | AllPaths(word1: string, routes: seq<Route>)

  function Targets(routes: seq<Route>): (r: seq<string>)
    ensures |r| == |routes| && forall i :: 0 <= i < |routes| ==> r[i] == routes[i].target
  {
    seq(|routes|, i requires 0 <= i < |routes| => routes[i].target)
  }

  /** The words reported missing, the first before the second. */
  function MissingWords(word1: string, word2: Option<string>, nodes: set<string>): seq<string> {
    (if word1 !in nodes then [word1] else [])
    + (if word2.Some? && word2.value !in nodes then [word2.value] else [])
  }

  /** Each route is a shortest walk from `start` to its target, and weighs as reported. */
  ghost predicate ShortestRoutes(adj: Adjacency, start: string, routes: seq<Route>) {
    forall i :: 0 <= i < |routes| ==>
      ShortestWalk(adj, start, routes[i].target, routes[i].path) && routes[i].weight == PathWeight(adj, routes[i].path)
  }

  /** The all-paths loop of calcShortestPath: a route for every node of
      `sortedNodes`, in that order, other than `start` and reached. */
  method CollectRoutes(ghost adj: Adjacency, dist: map<string, nat>, previousNodes: map<string, string>,
                       start: string, sortedNodes: seq<string>)
    returns (routes: seq<Route>)
    requires WellFormed(adj) && PredecessorTree(adj, start, dist, previousNodes) && StrictlySorted(sortedNodes)
    requires forall v :: v in dist ==> LowerBound(adj, start, v, dist[v])
    ensures StrictlySorted(Targets(routes))
    ensures forall v :: v in Targets(routes) <==> v in sortedNodes && v != start && v in dist
    ensures ShortestRoutes(adj, start, routes)
  {
    routes := [];
    var i := 0;
    while i < |sortedNodes|
      invariant 0 <= i <= |sortedNodes|
      invariant StrictlySorted(Targets(routes)) && ShortestRoutes(adj, start, routes)
      invariant forall v :: v in Targets(routes) <==> v in sortedNodes[..i] && v != start && v in dist
    {
      var targetNode := sortedNodes[i];
      if targetNode != start && targetNode in dist {
        var path := ReconstructPath(adj, dist, previousNodes, start, targetNode);
        forall x | x in sortedNodes[..i]
          ensures Less(x, targetNode)
        {
          var j :| 0 <= j < i && sortedNodes[j] == x;
        }
        AppendRoute(adj, start, routes, sortedNodes[..i], Route(targetNode, path, dist[targetNode]));
        routes := routes + [Route(targetNode, path, dist[targetNode])];
      }
      assert sortedNodes[..i + 1] == sortedNodes[..i] + [targetNode];
      i := i + 1;
    }
    assert sortedNodes[..i] == sortedNodes;
  }

  /** A route to a node beyond all earlier ones keeps the routes sorted and shortest. */
  lemma AppendRoute(adj: Adjacency, start: string, routes: seq<Route>, before: seq<string>, route: Route)
    requires StrictlySorted(Targets(routes)) && ShortestRoutes(adj, start, routes)
    requires forall x :: x in Targets(routes) ==> x in before
    requires forall x :: x in before ==> Less(x, route.target)
    requires ShortestWalk(adj, start, route.target, route.path) && route.weight == PathWeight(adj, route.path)
    ensures Targets(routes + [route]) == Targets(routes) + [route.target]
    ensures StrictlySorted(Targets(routes + [route])) && ShortestRoutes(adj, start, routes + [route])
  {
    var ts := Targets(routes);
    assert Targets(routes + [route]) == ts + [route.target];
    forall i, j | 0 <= i < j < |ts| + 1
      ensures Less((ts + [route.target])[i], (ts + [route.target])[j])
    {
      if j == |ts| {
        assert ts[i] in ts;
      }
    }
  }

  /** calcShortestPath: both words are lower-cased; missing words are reported
      (never as "no path"). With a second word the answer is a shortest walk
      and its weight, or "no path" exactly when none exists; without one it
      lists, in sorted order, a shortest walk to every other reachable node. */
  method CalcShortestPath(graph: DirectedGraph?, word1: string, word2: Option<string>) returns (r: PathAnswer)
    requires graph != null ==> graph.Valid()
    ensures graph == null ==> r == NoGraph
    ensures graph != null ==>
      var a, nodes, adj := ToLower(word1), graph.nodes, graph.adjacencyList;
      var b := if word2.Some? then Some(ToLower(word2.value)) else None;
      && (a !in nodes || (b.Some? && b.value !in nodes) ==> r == WordsMissing(MissingWords(a, b, nodes)))
      && (a in nodes && b.Some? && b.value in nodes ==>
            && (r == NoPath(a, b.value) <==> !Reachable(adj, a, b.value))
            && (Reachable(adj, a, b.value) ==>
                  && r.ShortestPath? && r.word1 == a && r.word2 == b.value
                  && ShortestWalk(adj, a, b.value, r.path) && r.weight == PathWeight(adj, r.path)))
      && (a in nodes && b.None? ==>
            && r.AllPaths? && r.word1 == a && StrictlySorted(Targets(r.routes))
            && (forall v :: v in Targets(r.routes) <==> v in nodes && v != a && Reachable(adj, a, v))
            && ShortestRoutes(adj, a, r.routes))
  {
    if graph == null {
      return NoGraph;
    }
    var w1 := ToLower(word1);
    var w2 := if word2.Some? then Some(ToLower(word2.value)) else None;
    if !graph.ContainsNode(w1) || (w2.Some? && !graph.ContainsNode(w2.value)) {
      return WordsMissing(MissingWords(w1, w2, graph.nodes));
    }
    var distances, previousNodes := Dijkstra(graph, w1, None);
    if w2.Some? {
      var end := w2.value;
      assert Final(graph.adjacencyList, w1, distances, end);
      if end !in distances {
        return NoPath(w1, end);
      }
      var path := ReconstructPath(graph.adjacencyList, distances, previousNodes, w1, end);
      return ShortestPath(w1, end, path, distances[end]);
    }
    var sortedNodes := SortedList(graph.nodes);
    assert forall v :: v in distances ==> Final(graph.adjacencyList, w1, distances, v);
    var routes := CollectRoutes(graph.adjacencyList, distances, previousNodes, w1, sortedNodes);
    forall v ensures v in Targets(routes) <==> v in graph.nodes && v != w1 && Reachable(graph.adjacencyList, w1, v) {
      assert v in sortedNodes <==> v in Elems(sortedNodes);
      assert Final(graph.adjacencyList, w1, distances, v);
    }
    return AllPaths(w1, routes);
  }

  /** findShortestPathList: nothing for a missing graph, an empty word, a word
      that is not a node, or an unreachable end; otherwise a shortest walk.
      Its search stops once the end word is settled. */
  method FindShortestPathList(graph: DirectedGraph?, word1: string, word2: string) returns (r: Option<seq<string>>)
    requires graph != null ==> graph.Valid()
    ensures graph == null || word1 == "" || word2 == "" ==> r == None
    ensures graph != null && word1 != "" && word2 != "" ==>
      var a, b, adj := ToLower(word1), ToLower(word2), graph.adjacencyList;
      && (a !in graph.nodes || b !in graph.nodes ==> r == None)
      && (a in graph.nodes && b in graph.nodes ==>
            && (r.Some? <==> Reachable(adj, a, b))
            && (r.Some? ==> ShortestWalk(adj, a, b, r.value)))
  {
    if graph == null || word1 == "" || word2 == "" {
      return None;
    }
    var w1 := ToLower(word1);
    var w2 := ToLower(word2);
    if !graph.ContainsNode(w1) || !graph.ContainsNode(w2) {
      return None;
    }
    var distances, previousNodes := Dijkstra(graph, w1, Some(w2));
    assert Final(graph.adjacencyList, w1, distances, w2);
    if w2 in distances {
      var path := ReconstructPath(graph.adjacencyList, distances, previousNodes, w1, w2);
      return Some(path);
    }
    return None;
  }
}
