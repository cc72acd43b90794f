/** Bridge words: `w` is a bridge from `a` to `b` when the graph has the
    edges a -> w and w -> b. */
module BridgeWords {
  import opened Collections
  import opened Strings
  import opened WordGraph
  import opened GraphBuilder

  /** The bridge words from `a` to `b`. */
  function Bridges(adj: Adjacency, a: string, b: string): set<string> {
    set w | w in Successors(adj, a) && b in Successors(adj, w)
  }

  /** Only words with an edge from `a` and an edge to `b` are bridges, so a
      word missing from a well-formed graph has none on either side. */
  lemma BridgesOfMissing(adj: Adjacency, a: string, b: string)
    requires WellFormed(adj)
    requires a !in adj || b !in adj
    ensures Bridges(adj, a, b) == {}
  {
    forall w | w in Bridges(adj, a, b)
      ensures false
    {
      assert HasEdge(adj, w, b);
    }
  }

  /** In a graph built from a text, `w` is a bridge from `a` to `b` exactly
      when the text contains "a w" and "w b". */
  lemma BridgesInText(ws: seq<string>, adj: Adjacency, a: string, b: string, w: string)
    requires WellFormed(adj)
    requires forall x, y :: Weight(adj, x, y) == PairCount(ws, x, y)
    ensures w in Bridges(adj, a, b) <==> Adjacent(ws, a, w) && Adjacent(ws, w, b)
  {
    BuiltEdges(ws, adj);
    assert HasEdge(adj, a, w) <==> Adjacent(ws, a, w);
    assert HasEdge(adj, w, b) <==> Adjacent(ws, w, b);
  }

  /** findBridgeWordsList: the bridge words in the iteration order of the
      first word's neighbour map; empty when either word is not a node. */
  method FindBridgeWordsList(graph: DirectedGraph, word1: string, word2: string) returns (bridgeWords: seq<string>)
    requires graph.Valid()
    ensures word1 !in graph.nodes || word2 !in graph.nodes ==> bridgeWords == []
    ensures Elems(bridgeWords) == Bridges(graph.adjacencyList, word1, word2)
    ensures Distinct(bridgeWords)
  {
    bridgeWords := [];
    if !graph.ContainsNode(word1) || !graph.ContainsNode(word2) {
      BridgesOfMissing(graph.adjacencyList, word1, word2);
      return;
    }
    var word1Neighbors := graph.GetNeighbors(word1);
    var candidates := Enumerate(word1Neighbors.Keys);
    var i := 0;
    while i < |candidates|
      invariant 0 <= i <= |candidates|
      invariant Distinct(bridgeWords)
      invariant forall w :: w in bridgeWords <==> w in candidates[..i] && word2 in Successors(graph.adjacencyList, w)
    {
      var bridgeCandidate := candidates[i];
      if word2 in graph.GetNeighbors(bridgeCandidate) {
        assert bridgeCandidate !in candidates[..i];
        bridgeWords := bridgeWords + [bridgeCandidate];
      }
      assert candidates[..i + 1] == candidates[..i] + [bridgeCandidate];
      i := i + 1;
    }
    assert candidates[..i] == candidates;
  }

  /** What queryBridgeWords reports (the message texts are left out). */
  datatype BridgeAnswer =
    | NoGraph
    | NeitherWord(word1: string, word2: string)
    | MissingWord(word: string)
    | NoBridge(word1: string, word2: string)
    | BridgeList(word1: string, word2: string, bridges: seq<string>)

  /** queryBridgeWords: both words are lower-cased; a missing word is reported
      (both, the first, or the second), otherwise the bridge words are listed,
      or their absence reported. */
  method QueryBridgeWords(graph: DirectedGraph?, word1: string, word2: string) returns (r: BridgeAnswer)
    requires graph != null ==> graph.Valid()
    ensures graph == null ==> r == NoGraph
    ensures graph != null ==>
      var a, b, nodes := ToLower(word1), ToLower(word2), graph.nodes;
      && (a !in nodes && b !in nodes ==> r == NeitherWord(a, b))
      && (a !in nodes && b in nodes ==> r == MissingWord(a))
      && (a in nodes && b !in nodes ==> r == MissingWord(b))
      && (a in nodes && b in nodes && Bridges(graph.adjacencyList, a, b) == {} ==> r == NoBridge(a, b))
      && (a in nodes && b in nodes && Bridges(graph.adjacencyList, a, b) != {} ==>
            && r.BridgeList? && r.word1 == a && r.word2 == b
            && Elems(r.bridges) == Bridges(graph.adjacencyList, a, b) && Distinct(r.bridges))
  {
    if graph == null {
      return NoGraph;
    }
    var w1 := ToLower(word1);
    var w2 := ToLower(word2);
    var word1Exists := graph.ContainsNode(w1);
    var word2Exists := graph.ContainsNode(w2);
    if !word1Exists && !word2Exists {
      return NeitherWord(w1, w2);
    } else if !word1Exists {
      return MissingWord(w1);
    } else if !word2Exists {
      return MissingWord(w2);
    }
    if graph.GetNeighbors(w1) == map[] {
      assert Successors(graph.adjacencyList, w1) == {};
      return NoBridge(w1, w2);
    }
    var bridgeWords := FindBridgeWordsList(graph, w1, w2);
    if bridgeWords == [] {
      return NoBridge(w1, w2);
    }
    assert bridgeWords[0] in Elems(bridgeWords);
    return BridgeList(w1, w2, bridgeWords);
  }
}
