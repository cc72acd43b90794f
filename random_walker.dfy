/** The random walk: from a random node, follow random out-edges until an
    edge repeats, a node has no out-edge, or the user asks to stop. */
module RandomWalker {
  import opened Collections
  import opened WordGraph

  /** Why the walk ended. `Completed` is the reason set before the loop. */
  datatype StopReason =
    | Completed
    | DeadEnd(node: string)
    | RepeatedEdge(source: string, target: string)
    | UserInterruption

  /** What randomWalk reports (the message texts are left out). */
  datatype WalkResult = WalkError | Walk(path: seq<string>, reason: StopReason)

  /** The stop flag as the walk sees it after `steps` passes of its loop: the
      user's request becomes visible after `stopAt` passes and stays set. */
  predicate StopRequested(stopAt: Option<nat>, steps: nat) {
    stopAt.Some? && stopAt.value <= steps
  }

  lemma StepsSnoc(p: seq<string>, x: string)
    requires |p| >= 1
    ensures Steps(p + [x]) == Steps(p) + [(Last(p), x)]
  {
  }

  /** A walk whose node sequence stops before `currentNode`. */
  ghost predicate WalkSoFar(adj: Adjacency, nodes: set<string>, visited: seq<string>, currentNode: string,
                            visitedEdges: set<(string, string)>) {
    var p := visited + [currentNode];
    && p[0] in nodes && currentNode in nodes && IsWalk(adj, p)
    && Distinct(Steps(p)) && visitedEdges == Elems(Steps(p))
  }

  /** Going on along a new edge keeps the walk and its edges consistent. */
  lemma Advance(adj: Adjacency, nodes: set<string>, visited: seq<string>, currentNode: string,
                visitedEdges: set<(string, string)>, nextNode: string)
    requires WalkSoFar(adj, nodes, visited, currentNode, visitedEdges)
    requires HasEdge(adj, currentNode, nextNode) && nextNode in nodes
    requires (currentNode, nextNode) !in visitedEdges
    ensures WalkSoFar(adj, nodes, visited + [currentNode], nextNode, visitedEdges + {(currentNode, nextNode)})
  {
    var p := visited + [currentNode];
    StepsSnoc(p, nextNode);
    assert visited + [currentNode] + [nextNode] == p + [nextNode];
  }

  /** The node sequence of a finished walk: empty, or a walk from a node of
      the graph whose edges are distinct, except that when `repeated` its
      last edge is one taken before. */
  ghost predicate WalkShape(adj: Adjacency, nodes: set<string>, path: seq<string>, repeated: bool) {
    && (path == [] || (path[0] in nodes && IsWalk(adj, path)))
    && (!repeated ==> Distinct(Steps(path)))
    && (repeated ==>
          && |path| >= 2 && Distinct(Steps(path)[..|path| - 2])
          && Steps(path)[|path| - 2] in Steps(path)[..|path| - 2])
  }

  /** Interrupted before its current node: the nodes visited so far. */
  lemma CutShape(adj: Adjacency, nodes: set<string>, visited: seq<string>, currentNode: string,
                 visitedEdges: set<(string, string)>)
    requires WalkSoFar(adj, nodes, visited, currentNode, visitedEdges)
    ensures WalkShape(adj, nodes, visited, false)
  {
    if visited != [] {
      var p := visited + [currentNode];
      assert forall i :: 0 <= i < |visited| ==> p[i] == visited[i];
      StepsSnoc(visited, currentNode);
      var s := Steps(visited);
      assert forall i :: 0 <= i < |s| ==> Steps(p)[i] == s[i];
    }
  }

  /** Stopped at a dead end: the nodes visited, the current one included. */
  lemma DeadEndShape(adj: Adjacency, nodes: set<string>, visited: seq<string>, currentNode: string,
                     visitedEdges: set<(string, string)>)
    requires WalkSoFar(adj, nodes, visited, currentNode, visitedEdges)
    ensures WalkShape(adj, nodes, visited + [currentNode], false)
  {
  }

  /** Stopped on a repeated edge: the nodes visited, the current one and the
      node the repeated edge leads to. */
  lemma RepeatShape(adj: Adjacency, nodes: set<string>, visited: seq<string>, currentNode: string,
                    visitedEdges: set<(string, string)>, nextNode: string)
    requires WalkSoFar(adj, nodes, visited, currentNode, visitedEdges)
    requires HasEdge(adj, currentNode, nextNode) && (currentNode, nextNode) in visitedEdges
    ensures WalkShape(adj, nodes, visited + [currentNode] + [nextNode], true)
  {
    var p := visited + [currentNode];
    var q := p + [nextNode];
    StepsSnoc(p, nextNode);
    assert Steps(q)[..|q| - 2] == Steps(p);
    assert forall i :: 0 <= i < |p| ==> q[i] == p[i];
  }

  /** randomWalk. The start node and every next node are drawn from `draws`;
      the stop flag is `stopAt`. The walk is a walk of the graph; it never
      takes an edge twice except a final repeated one (`repeated`), which
      ends it; it ends at a dead end only at a node with no out-edge; it
      makes at most `stopAt` passes (`steps`), and it is reported as
      interrupted exactly when the flag is seen set after its last pass. */
  method RandomWalk(graph: DirectedGraph?, draws: seq<nat>, stopAt: Option<nat>)
    returns (r: WalkResult, ghost steps: nat, ghost repeated: bool)
    requires graph != null ==> graph.Valid()
    ensures graph == null || graph.nodes == {} ==> r == WalkError
    ensures graph != null && graph.nodes != {} ==>
      var adj := graph.adjacencyList;
      && r.Walk? && r.reason != Completed
      && WalkShape(adj, graph.nodes, r.path, repeated)
      && (r.reason.DeadEnd? ==>
            !repeated && r.path != [] && r.reason.node == Last(r.path) && Successors(adj, Last(r.path)) == {})
      && (r.reason.RepeatedEdge? ==>
            repeated && |r.path| >= 2 && r.reason.source == r.path[|r.path| - 2] && r.reason.target == Last(r.path))
      && |r.path| == steps + (if repeated then 1 else 0)
      && (stopAt.Some? ==> steps <= stopAt.value)
      && (r.reason.UserInterruption? <==> stopAt.Some? && stopAt.value == steps)
  {
    steps, repeated := 0, false;
    if graph == null || graph.nodes == {} {
      return WalkError, steps, repeated;
    }
    var nodesList := Enumerate(graph.nodes);
    var currentNode := nodesList[Draw(draws, 0) % |nodesList|];
    assert currentNode in Elems(nodesList);
    var visitedPath, stopReason, count;
    visitedPath, stopReason, count, repeated := Wander(graph, currentNode, draws, stopAt);
    if StopRequested(stopAt, count) {
      stopReason := UserInterruption;
    }
    steps := count;
    return Walk(visitedPath, stopReason), steps, repeated;
  }

  /** The loop of randomWalk from `start`, drawing next nodes from `draws`
      (the start node took the first draw). It runs while the stop flag is
      unset; `count` is its number of passes. */
  method Wander(graph: DirectedGraph, start: string, draws: seq<nat>, stopAt: Option<nat>)
    returns (visitedPath: seq<string>, stopReason: StopReason, count: nat, ghost repeated: bool)
    requires graph.Valid() && start in graph.nodes
    ensures WalkShape(graph.adjacencyList, graph.nodes, visitedPath, repeated)
    ensures stopReason.Completed? || stopReason.DeadEnd? || stopReason.RepeatedEdge?
    ensures stopReason.Completed? ==> !repeated && StopRequested(stopAt, count)
    ensures !stopReason.Completed? ==> count >= 1 && !StopRequested(stopAt, count - 1)
    ensures stopReason.DeadEnd? ==>
      && !repeated && visitedPath != [] && stopReason.node == Last(visitedPath)
      && Successors(graph.adjacencyList, Last(visitedPath)) == {}
    ensures stopReason.RepeatedEdge? ==>
      && repeated && |visitedPath| >= 2
      && stopReason.source == visitedPath[|visitedPath| - 2] && stopReason.target == Last(visitedPath)
    ensures |visitedPath| == count + (if repeated then 1 else 0)
    ensures stopAt.Some? ==> count <= stopAt.value
  {
    var adj := graph.adjacencyList;
    var currentNode := start;
    var drawn := 1;
    visitedPath := [];
    var visitedEdges: set<(string, string)> := {};
    stopReason := Completed;
    count := 0;
    repeated := false;
    while !StopRequested(stopAt, count)
      invariant WalkSoFar(adj, graph.nodes, visitedPath, currentNode, visitedEdges)
      invariant |visitedPath| == count && stopReason == Completed && !repeated
      invariant stopAt.Some? ==> count <= stopAt.value
      invariant visitedEdges <= Edges(adj)
      decreases Edges(adj) - visitedEdges
    {
      count := count + 1;
      var before := visitedPath;
      visitedPath := visitedPath + [currentNode];
      var neighbors := graph.GetNeighbors(currentNode);
      if neighbors == map[] {
        DeadEndShape(adj, graph.nodes, before, currentNode, visitedEdges);
        stopReason := DeadEnd(currentNode);
        return;
      }
      var neighborKeys := Enumerate(neighbors.Keys);
      var nextNode := neighborKeys[Draw(draws, drawn) % |neighborKeys|];
      drawn := drawn + 1;
      assert nextNode in Elems(neighborKeys) && HasEdge(adj, currentNode, nextNode);
      if (currentNode, nextNode) in visitedEdges {
        RepeatShape(adj, graph.nodes, before, currentNode, visitedEdges, nextNode);
        stopReason := RepeatedEdge(currentNode, nextNode);
        visitedPath := visitedPath + [nextNode];
        repeated := true;
        return;
      }
      Advance(adj, graph.nodes, before, currentNode, visitedEdges, nextNode);
      visitedEdges := visitedEdges + {(currentNode, nextNode)};
      currentNode := nextNode;
    }
    CutShape(adj, graph.nodes, visitedPath, currentNode, visitedEdges);
  }
}
