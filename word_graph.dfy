/** The weighted directed word graph (DirectedGraph) and its Graphviz DOT
    rendering. */
module WordGraph {
  import opened Collections
  import opened Strings

  /** source -> (target -> weight), the shape of the adjacency list. */
  type Adjacency = map<string, map<string, int>>

  predicate HasEdge(adj: Adjacency, s: string, t: string) {
    s in adj && t in adj[s]
  }

  /** The weight of an edge, 0 when there is none. */
  function Weight(adj: Adjacency, s: string, t: string): int {
    if HasEdge(adj, s, t) then adj[s][t] else 0
  }

  function Successors(adj: Adjacency, s: string): set<string> {
    if s in adj then adj[s].Keys else {}
  }

  ghost function Edges(adj: Adjacency): set<(string, string)> {
    set s, t | s in adj && t in adj[s] :: (s, t)
  }

  /** Every edge target has its own entry, and every weight is a positive count. */
  ghost predicate WellFormed(adj: Adjacency) {
    forall s, t :: HasEdge(adj, s, t) ==> t in adj && adj[s][t] >= 1
  }

  function Last<T>(p: seq<T>): T
    requires |p| > 0
  {
    p[|p| - 1]
  }

  /** A non-empty node sequence whose consecutive pairs are edges. */
  ghost predicate IsWalk(adj: Adjacency, p: seq<string>) {
    |p| >= 1 && forall i :: 0 <= i < |p| - 1 ==> HasEdge(adj, p[i], p[i + 1])
  }

  ghost predicate IsWalkFrom(adj: Adjacency, start: string, p: seq<string>) {
    IsWalk(adj, p) && p[0] == start
  }

  /** The sum of the weights of consecutive pairs. */
  function PathWeight(adj: Adjacency, p: seq<string>): int
    decreases |p|
  {
    if |p| <= 1 then 0 else PathWeight(adj, p[..|p| - 1]) + Weight(adj, p[|p| - 2], p[|p| - 1])
  }

  /** The consecutive pairs of a node sequence. */
  function Steps(p: seq<string>): (r: seq<(string, string)>)
    ensures |r| == if |p| == 0 then 0 else |p| - 1
    ensures forall i :: 0 <= i < |r| ==> r[i] == (p[i], p[i + 1])
  {
    if |p| <= 1 then [] else seq(|p| - 1, i requires 0 <= i < |p| - 1 => (p[i], p[i + 1]))
  }

  // ---------------------------------------------------------------------------
  // DOT rendering

  const DotHeader := "digraph G {\n  node [shape=box, style=rounded];\n"
  const DotFooter := "}\n"
  const NodeEmphasis := " [color=red, penwidth=2.0]"
  const EdgeEmphasis := ", color=red, penwidth=2.0"

  function NodeLine(n: string, onPath: bool): string {
    "  \"" + n + "\"" + (if onPath then NodeEmphasis else "") + ";\n"
  }

  function EdgeLine(s: string, t: string, w: int, onPath: bool): string {
    "  \"" + s + "\" -> \"" + t + "\"" + " [label=\"" + IntToString(w) + "\""
    + (if onPath then EdgeEmphasis else "") + "];\n"
  }

  /** The nodes of the highlighted path (none when there is no path). */
  function PathNodes(highlighted: Option<seq<string>>): set<string> {
    if highlighted.None? then {} else Elems(highlighted.value)
  }

  /** The consecutive pairs of the highlighted path (none for a path of fewer than two nodes). */
  function PathEdges(highlighted: Option<seq<string>>): set<(string, string)> {
    if highlighted.None? || |highlighted.value| <= 1 then {} else Elems(Steps(highlighted.value))
  }

  function NodeLines(order: seq<string>, highlighted: Option<seq<string>>): (r: seq<string>)
    ensures |r| == |order|
    decreases |order|
  {
    if |order| == 0 then []
    else
      var n := Last(order);
      NodeLines(order[..|order| - 1], highlighted) + [NodeLine(n, n in PathNodes(highlighted))]
  }

  function EdgeLines(order: seq<(string, string)>, adj: Adjacency, highlighted: Option<seq<string>>): (r: seq<string>)
    ensures |r| == |order|
    decreases |order|
  {
    if |order| == 0 then []
    else
      var e := Last(order);
      EdgeLines(order[..|order| - 1], adj, highlighted)
        + [EdgeLine(e.0, e.1, Weight(adj, e.0, e.1), e in PathEdges(highlighted))]
  }

  /** The pieces appended to the builder: header, node lines, edge lines, footer. */
  function DotPieces(nodeOrder: seq<string>, edgeOrder: seq<(string, string)>, adj: Adjacency,
                     highlighted: Option<seq<string>>): seq<string>
  {
    [DotHeader] + NodeLines(nodeOrder, highlighted) + EdgeLines(edgeOrder, adj, highlighted) + [DotFooter]
  }

  /** The DOT text for nodes listed in `nodeOrder` and edges listed in `edgeOrder`. */
  function DotText(nodeOrder: seq<string>, edgeOrder: seq<(string, string)>, adj: Adjacency,
                   highlighted: Option<seq<string>>): string
  {
    Concat(DotPieces(nodeOrder, edgeOrder, adj, highlighted))
  }

  lemma {:induction false} NodeLinesAt(order: seq<string>, highlighted: Option<seq<string>>, k: nat)
    requires k < |order|
    ensures NodeLines(order, highlighted)[k] == NodeLine(order[k], order[k] in PathNodes(highlighted))
    decreases |order|
  {
    var n := |order| - 1;
    if k < n {
      assert order[..n][k] == order[k];
      NodeLinesAt(order[..n], highlighted, k);
    }
  }

  lemma {:induction false} EdgeLinesAt(order: seq<(string, string)>, adj: Adjacency,
                                       highlighted: Option<seq<string>>, k: nat)
    requires k < |order|
    ensures EdgeLines(order, adj, highlighted)[k]
         == EdgeLine(order[k].0, order[k].1, Weight(adj, order[k].0, order[k].1), order[k] in PathEdges(highlighted))
    decreases |order|
  {
    var n := |order| - 1;
    if k < n {
      assert order[..n][k] == order[k];
      EdgeLinesAt(order[..n], adj, highlighted, k);
    }
  }

  lemma DotDeclaresNode(nodeOrder: seq<string>, edgeOrder: seq<(string, string)>, adj: Adjacency,
                        highlighted: Option<seq<string>>, k: nat)
    requires k < |nodeOrder|
    ensures Occurs(NodeLine(nodeOrder[k], nodeOrder[k] in PathNodes(highlighted)),
                   DotText(nodeOrder, edgeOrder, adj, highlighted))
  {
    var pieces := DotPieces(nodeOrder, edgeOrder, adj, highlighted);
    NodeLinesAt(nodeOrder, highlighted, k);
    assert pieces[1 + k] == NodeLines(nodeOrder, highlighted)[k];
    ConcatContains(pieces, 1 + k);
  }

  lemma DotDeclaresEdge(nodeOrder: seq<string>, edgeOrder: seq<(string, string)>, adj: Adjacency,
                        highlighted: Option<seq<string>>, k: nat)
    requires k < |edgeOrder|
    ensures var e := edgeOrder[k];
      Occurs(EdgeLine(e.0, e.1, Weight(adj, e.0, e.1), e in PathEdges(highlighted)),
             DotText(nodeOrder, edgeOrder, adj, highlighted))
  {
    var pieces := DotPieces(nodeOrder, edgeOrder, adj, highlighted);
    EdgeLinesAt(edgeOrder, adj, highlighted, k);
    assert pieces[1 + |nodeOrder| + k] == EdgeLines(edgeOrder, adj, highlighted)[k];
    ConcatContains(pieces, 1 + |nodeOrder| + k);
  }

  /** The DOT text declares every listed node, emphasised exactly when it lies
      on the highlighted path, and every listed edge with its weight as label,
      emphasised exactly when it is a step of the highlighted path. */
  lemma DotListsEverything(nodeOrder: seq<string>, edgeOrder: seq<(string, string)>, adj: Adjacency,
                           highlighted: Option<seq<string>>)
    ensures forall n :: n in nodeOrder ==>
      Occurs(NodeLine(n, n in PathNodes(highlighted)), DotText(nodeOrder, edgeOrder, adj, highlighted))
    ensures forall e :: e in edgeOrder ==>
      Occurs(EdgeLine(e.0, e.1, Weight(adj, e.0, e.1), e in PathEdges(highlighted)),
             DotText(nodeOrder, edgeOrder, adj, highlighted))
  {
    forall n | n in nodeOrder
      ensures Occurs(NodeLine(n, n in PathNodes(highlighted)), DotText(nodeOrder, edgeOrder, adj, highlighted))
    {
      var k :| 0 <= k < |nodeOrder| && nodeOrder[k] == n;
      DotDeclaresNode(nodeOrder, edgeOrder, adj, highlighted, k);
    }
    forall e | e in edgeOrder
      ensures Occurs(EdgeLine(e.0, e.1, Weight(adj, e.0, e.1), e in PathEdges(highlighted)),
                     DotText(nodeOrder, edgeOrder, adj, highlighted))
    {
      var k :| 0 <= k < |edgeOrder| && edgeOrder[k] == e;
      DotDeclaresEdge(nodeOrder, edgeOrder, adj, highlighted, k);
    }
  }

  lemma EdgeLinesSnoc(order: seq<(string, string)>, e: (string, string), adj: Adjacency,
                      highlighted: Option<seq<string>>)
    ensures EdgeLines(order + [e], adj, highlighted)
         == EdgeLines(order, adj, highlighted) + [EdgeLine(e.0, e.1, Weight(adj, e.0, e.1), e in PathEdges(highlighted))]
  {
    assert (order + [e])[..|order|] == order;
  }

  lemma NodeLinesSnoc(order: seq<string>, n: string, highlighted: Option<seq<string>>)
    ensures NodeLines(order + [n], highlighted) == NodeLines(order, highlighted) + [NodeLine(n, n in PathNodes(highlighted))]
  {
    assert (order + [n])[..|order|] == order;
  }

  /** The edges from `source` to each of `targets`, in that order. */
  function OutPairs(source: string, targets: seq<string>): (r: seq<(string, string)>)
    ensures |r| == |targets|
    ensures forall j :: 0 <= j < |targets| ==> r[j] == (source, targets[j])
  {
    seq(|targets|, j requires 0 <= j < |targets| => (source, targets[j]))
  }

  lemma OutPairsSnoc(order: seq<(string, string)>, source: string, targets: seq<string>, target: string)
    ensures order + OutPairs(source, targets + [target]) == order + OutPairs(source, targets) + [(source, target)]
  {
    assert OutPairs(source, targets + [target]) == OutPairs(source, targets) + [(source, target)];
  }

  /** One more out-edge line appended to the builder. */
  lemma EdgeBuilderStep(prefix: seq<string>, order: seq<(string, string)>, source: string, targets: seq<string>,
                        target: string, adj: Adjacency, highlighted: Option<seq<string>>)
    ensures prefix + EdgeLines(order + OutPairs(source, targets + [target]), adj, highlighted)
         == prefix + EdgeLines(order + OutPairs(source, targets), adj, highlighted)
            + [EdgeLine(source, target, Weight(adj, source, target), (source, target) in PathEdges(highlighted))]
  {
    var done := order + OutPairs(source, targets);
    OutPairsSnoc(order, source, targets, target);
    EdgeLinesSnoc(done, (source, target), adj, highlighted);
  }

  lemma OutPairsListed(order: seq<(string, string)>, source: string, targets: seq<string>)
    requires Distinct(order) && forall e :: e in order ==> e.0 != source
    requires Distinct(targets)
    ensures Distinct(order + OutPairs(source, targets))
    ensures forall e :: e in order + OutPairs(source, targets) <==>
      e in order || (e.0 == source && e.1 in targets)
  {
    var all := order + OutPairs(source, targets);
    forall e: (string, string) | e.0 == source && e.1 in targets
      ensures e in all
    {
      var j :| 0 <= j < |targets| && targets[j] == e.1;
      assert all[|order| + j] == e;
    }
  }

  lemma EdgesListed(adj: Adjacency, order: seq<(string, string)>)
    requires forall e :: e in order <==> e.0 in adj && e.1 in adj[e.0]
    ensures Elems(order) == Edges(adj)
  {
    forall e | e in Edges(adj) ensures e in order {
      var s, t :| s in adj && t in adj[s] && e == (s, t);
    }
  }

  /** Raising one edge count keeps the adjacency well formed and changes no other weight. */
  lemma Increment(adj: Adjacency, source: string, target: string)
    requires WellFormed(adj) && source in adj && target in adj
    ensures var w := if target in adj[source] then adj[source][target] else 0;
      var adj' := adj[source := adj[source][target := w + 1]];
      && WellFormed(adj')
      && adj'.Keys == adj.Keys
      && Weight(adj', source, target) == Weight(adj, source, target) + 1
      && (forall s, t :: (s, t) != (source, target) ==> Weight(adj', s, t) == Weight(adj, s, t))
      && (forall s, t :: HasEdge(adj, s, t) ==> HasEdge(adj', s, t))
  {
    var w := if target in adj[source] then adj[source][target] else 0;
    var adj' := adj[source := adj[source][target := w + 1]];
    forall s, t | HasEdge(adj', s, t)
      ensures t in adj' && adj'[s][t] >= 1
    {
      if (s, t) != (source, target) {
        assert HasEdge(adj, s, t);
      }
    }
  }

  // ---------------------------------------------------------------------------
  // The graph object

  class DirectedGraph {
    var adjacencyList: Adjacency
    var nodes: set<string>

    /** Every node has an adjacency entry (addNode puts it in both), every edge
        target is a node and every weight is a positive count. */
    ghost predicate Valid()
      reads this
    {
      adjacencyList.Keys == nodes && WellFormed(adjacencyList)
    }

    constructor ()
      ensures Valid()
      ensures nodes == {} && adjacencyList == map[]
    {
      adjacencyList := map[];
      nodes := {};
    }

    method AddNode(node: string)
      requires Valid()
      modifies this
      ensures Valid()
      ensures nodes == old(nodes) + {node}
      ensures node in old(adjacencyList) ==> adjacencyList == old(adjacencyList)
      ensures node !in old(adjacencyList) ==> adjacencyList == old(adjacencyList)[node := map[]]
      ensures forall s, t :: Weight(adjacencyList, s, t) == Weight(old(adjacencyList), s, t)
    {
      nodes := nodes + {node};
      if node !in adjacencyList {
        adjacencyList := adjacencyList[node := map[]];
      }
    }

    method AddEdge(source: string, target: string)
      requires Valid()
      modifies this
      ensures Valid()
      ensures nodes == old(nodes) + {source, target}
      ensures Weight(adjacencyList, source, target) == Weight(old(adjacencyList), source, target) + 1
      ensures forall s, t :: (s, t) != (source, target) ==>
        Weight(adjacencyList, s, t) == Weight(old(adjacencyList), s, t)
      ensures forall s, t :: HasEdge(old(adjacencyList), s, t) ==> HasEdge(adjacencyList, s, t)
    {
      AddNode(source);
      AddNode(target);
      var neighbors := adjacencyList[source];
      var w := if target in neighbors then neighbors[target] else 0;
      Increment(adjacencyList, source, target);
      adjacencyList := adjacencyList[source := neighbors[target := w + 1]];
    }

    function ContainsNode(node: string): (b: bool)
      reads this
      requires Valid()
      ensures b <==> node in adjacencyList
    {
      node in nodes
    }

    /** getWeight: the count of the edge, 0 exactly when there is no edge. */
    function GetWeight(source: string, target: string): (w: int)
      reads this
      requires Valid()
      ensures w >= 0
      ensures w == 0 <==> !HasEdge(adjacencyList, source, target)
      ensures w > 0 ==> source in nodes && target in nodes
    {
      Weight(adjacencyList, source, target)
    }

    /** getNeighbors: the out-edges of a node with their weights, empty for an
        unknown node. */
    function GetNeighbors(node: string): (m: map<string, int>)
      reads this
      requires Valid()
      ensures m.Keys <= nodes
      ensures node !in nodes ==> m == map[]
      ensures forall t :: t in m <==> GetWeight(node, t) > 0
      ensures forall t :: t in m ==> m[t] == GetWeight(node, t)
    {
      if node in adjacencyList then adjacencyList[node] else map[]
    }

    /** getInNeighbors: the sources of the edges into `targetNode`. */
    method GetInNeighbors(targetNode: string) returns (inNeighbors: set<string>)
      requires Valid()
      ensures targetNode !in nodes ==> inNeighbors == {}
      ensures targetNode in nodes ==>
        forall s :: s in inNeighbors <==> targetNode in Successors(adjacencyList, s)
    {
      inNeighbors := {};
      if targetNode !in nodes {
        return;
      }
      var entries := adjacencyList.Keys;
      while entries != {}
        invariant entries <= adjacencyList.Keys
        invariant forall s :: s in inNeighbors <==>
          s in adjacencyList.Keys - entries && targetNode in adjacencyList[s]
        decreases entries
      {
        var sourceNode :| sourceNode in entries;
        if targetNode in adjacencyList[sourceNode] {
          inNeighbors := inNeighbors + {sourceNode};
        }
        entries := entries - {sourceNode};
      }
    }

    /** toDotFormat: a header, one line per node, one line per edge (in hash
        order, given here by the ghost enumerations), a footer. The string
        builder is the list of the pieces appended to it. */
    method ToDotFormat(highlightedPath: Option<seq<string>>)
      returns (dot: string, ghost nodeOrder: seq<string>, ghost edgeOrder: seq<(string, string)>)
      requires Valid()
      ensures Elems(nodeOrder) == nodes && Distinct(nodeOrder)
      ensures Elems(edgeOrder) == Edges(adjacencyList) && Distinct(edgeOrder)
      ensures dot == DotText(nodeOrder, edgeOrder, adjacencyList, highlightedPath)
      ensures forall n :: n in nodes ==> Occurs(NodeLine(n, n in PathNodes(highlightedPath)), dot)
      ensures forall e :: e in Edges(adjacencyList) ==>
        Occurs(EdgeLine(e.0, e.1, Weight(adjacencyList, e.0, e.1), e in PathEdges(highlightedPath)), dot)
    {
      var pathNodes := PathNodes(highlightedPath);
      var pathEdges := PathEdges(highlightedPath);
      var builder: seq<string>;
      builder, nodeOrder := AppendNodeLines(pathNodes, highlightedPath);
      ghost var nodePart := builder;
      edgeOrder := [];
      var sources := adjacencyList.Keys;
      while sources != {}
        invariant sources <= adjacencyList.Keys
        invariant Distinct(edgeOrder)
        invariant forall e :: e in edgeOrder <==> e.0 in adjacencyList.Keys - sources && e.1 in adjacencyList[e.0]
        invariant builder == nodePart + EdgeLines(edgeOrder, adjacencyList, highlightedPath)
        decreases sources
      {
        var source :| source in sources;
        builder, edgeOrder := AppendEdgeLines(source, pathEdges, highlightedPath, builder, edgeOrder, nodePart);
        sources := sources - {source};
      }
      EdgesListed(adjacencyList, edgeOrder);
      builder := builder + [DotFooter];
      dot := Concat(builder);
      DotListsEverything(nodeOrder, edgeOrder, adjacencyList, highlightedPath);
    }

    /** The node section of toDotFormat: the header and one line per node,
        in the iteration order of the node set. */
    method AppendNodeLines(pathNodes: set<string>, highlightedPath: Option<seq<string>>)
      returns (builder: seq<string>, ghost nodeOrder: seq<string>)
      requires pathNodes == PathNodes(highlightedPath)
      ensures Elems(nodeOrder) == nodes && Distinct(nodeOrder)
      ensures builder == [DotHeader] + NodeLines(nodeOrder, highlightedPath)
    {
      var order := Enumerate(nodes);
      builder := [DotHeader];
      var i := 0;
      while i < |order|
        invariant 0 <= i <= |order|
        invariant builder == [DotHeader] + NodeLines(order[..i], highlightedPath)
      {
        var node := order[i];
        NodeLinesSnoc(order[..i], node, highlightedPath);
        assert order[..i + 1] == order[..i] + [node];
        builder := builder + [NodeLine(node, node in pathNodes)];
        i := i + 1;
      }
      assert order[..i] == order;
      nodeOrder := order;
    }

    /** The inner loop of toDotFormat: one line per out-edge of `source`. */
    method AppendEdgeLines(source: string, pathEdges: set<(string, string)>, highlightedPath: Option<seq<string>>,
                           builder0: seq<string>, ghost order0: seq<(string, string)>, ghost prefix: seq<string>)
      returns (builder: seq<string>, ghost edgeOrder: seq<(string, string)>)
      requires source in adjacencyList
      requires pathEdges == PathEdges(highlightedPath)
      requires Distinct(order0) && forall e :: e in order0 ==> e.0 != source
      requires builder0 == prefix + EdgeLines(order0, adjacencyList, highlightedPath)
      ensures Distinct(edgeOrder)
      ensures forall e :: e in edgeOrder <==> e in order0 || (e.0 == source && e.1 in adjacencyList[source])
      ensures builder == prefix + EdgeLines(edgeOrder, adjacencyList, highlightedPath)
    {
      builder := builder0;
      var targets := Enumerate(adjacencyList[source].Keys);
      var i := 0;
      assert order0 + OutPairs(source, targets[..0]) == order0;
      while i < |targets|
        invariant 0 <= i <= |targets|
        invariant builder == prefix + EdgeLines(order0 + OutPairs(source, targets[..i]), adjacencyList, highlightedPath)
      {
        var target := targets[i];
        var weight := adjacencyList[source][target];
        var onPath := (source, target) in pathEdges;
        assert targets[..i + 1] == targets[..i] + [target];
        EdgeBuilderStep(prefix, order0, source, targets[..i], target, adjacencyList, highlightedPath);
        builder := builder + [EdgeLine(source, target, weight, onPath)];
        i := i + 1;
      }
      assert targets[..i] == targets;
      edgeOrder := order0 + OutPairs(source, targets);
      OutPairsListed(order0, source, targets);
    }
  }
}
