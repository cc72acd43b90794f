/** Building the word graph from a text: every pair of consecutive tokens
    becomes an edge, and the weight of an edge counts how often the pair
    occurs. */
module GraphBuilder {
  import opened Collections
  import opened Tokenizer
  import opened WordGraph

  /** How often `w` occurs in `ws`. */
  function Occurrences(ws: seq<string>, w: string): nat
    decreases |ws|
  {
    if |ws| == 0 then 0
    else Occurrences(ws[..|ws| - 1], w) + (if ws[|ws| - 1] == w then 1 else 0)
  }

  /** How often `a` is immediately followed by `b` in `ws`. */
  function PairCount(ws: seq<string>, a: string, b: string): nat
    decreases |ws|
  {
    if |ws| < 2 then 0
    else PairCount(ws[..|ws| - 1], a, b) + (if ws[|ws| - 2] == a && ws[|ws| - 1] == b then 1 else 0)
  }

  /** `a` is immediately followed by `b` somewhere in `ws`. */
  ghost predicate Adjacent(ws: seq<string>, a: string, b: string) {
    exists i :: 0 <= i < |ws| - 1 && ws[i] == a && ws[i + 1] == b
  }

  /** A word occurs exactly when it is counted at least once. */
  lemma {:induction false} OccurrencesPositive(ws: seq<string>, w: string)
    ensures Occurrences(ws, w) > 0 <==> w in ws
    decreases |ws|
  {
    if |ws| > 0 {
      var n := |ws| - 1;
      OccurrencesPositive(ws[..n], w);
      assert ws == ws[..n] + [ws[n]];
    }
  }

  /** A pair has a positive count exactly when it occurs. */
  lemma {:induction false} PairCountPositive(ws: seq<string>, a: string, b: string)
    ensures PairCount(ws, a, b) > 0 <==> Adjacent(ws, a, b)
    decreases |ws|
  {
    if |ws| >= 2 {
      var n := |ws| - 1;
      var init := ws[..n];
      PairCountPositive(init, a, b);
      if Adjacent(init, a, b) {
        var i :| 0 <= i < |init| - 1 && init[i] == a && init[i + 1] == b;
        assert ws[i] == a && ws[i + 1] == b;
      }
      if Adjacent(ws, a, b) && !(ws[n - 1] == a && ws[n] == b) {
        var i :| 0 <= i < |ws| - 1 && ws[i] == a && ws[i + 1] == b;
        assert init[i] == a && init[i + 1] == b;
      }
    }
  }

  /** The count of the pairs of `ws[..i + 2]` is that of `ws[..i + 1]` plus the last pair. */
  lemma PairCountStep(ws: seq<string>, i: nat)
    requires i + 1 < |ws|
    ensures forall a, b {:trigger PairCount(ws[..i + 2], a, b)} ::
      PairCount(ws[..i + 2], a, b) == PairCount(ws[..i + 1], a, b) + (if ws[i] == a && ws[i + 1] == b then 1 else 0)
  {
    assert ws[..i + 2][..i + 1] == ws[..i + 1];
  }

  lemma OccurrencesStep(ws: seq<string>, i: nat, w: string)
    requires i < |ws|
    ensures Occurrences(ws[..i + 1], w) == Occurrences(ws[..i], w) + (if ws[i] == w then 1 else 0)
  {
    assert ws[..i + 1][..i] == ws[..i];
  }

  /** The counting loop of buildGraphFromFile: how often each token occurs,
      and how many tokens there are. */
  method CountWords(words: seq<string>) returns (wordCounts: map<string, nat>, totalWordsInDoc: nat)
    ensures totalWordsInDoc == |words|
    ensures forall w :: w in wordCounts <==> w in words
    ensures forall w :: w in wordCounts ==> wordCounts[w] == Occurrences(words, w)
  {
    wordCounts := map[];
    totalWordsInDoc := 0;
    var i := 0;
    while i < |words|
      invariant 0 <= i <= |words| && totalWordsInDoc == i
      invariant forall w :: w in wordCounts <==> w in words[..i]
      invariant forall w :: w in wordCounts ==> wordCounts[w] == Occurrences(words[..i], w)
    {
      var word := words[i];
      var count := if word in wordCounts then wordCounts[word] else 0;
      forall w ensures Occurrences(words[..i + 1], w) == Occurrences(words[..i], w) + (if word == w then 1 else 0) {
        OccurrencesStep(words, i, w);
      }
      OccurrencesPositive(words[..i], word);
      assert words[..i + 1] == words[..i] + [word];
      wordCounts := wordCounts[word := count + 1];
      totalWordsInDoc := totalWordsInDoc + 1;
      i := i + 1;
    }
    assert words[..i] == words;
  }

  /** buildGraphFromFile, after the file has been read: count the tokens,
      then add an edge for every pair of consecutive tokens. With a single
      token the graph holds just that node; with none it is empty. */
  method BuildGraph(content: string) returns (g: DirectedGraph, wordCounts: map<string, nat>)
    ensures fresh(g) && g.Valid()
    ensures g.nodes == Elems(Words(content))
    ensures forall a, b :: Weight(g.adjacencyList, a, b) == PairCount(Words(content), a, b)
    ensures forall w :: w in wordCounts <==> w in Words(content)
    ensures forall w :: w in wordCounts ==> wordCounts[w] == Occurrences(Words(content), w)
  {
    var words := Words(content);
    var totalWordsInDoc;
    wordCounts, totalWordsInDoc := CountWords(words);
    g := new DirectedGraph();
    if totalWordsInDoc < 2 {
      if totalWordsInDoc == 1 {
        g.AddNode(words[0]);
        assert Elems(words) == {words[0]};
      }
      return;
    }
    AddPairEdges(g, words);
  }

  /** The edge loop of buildGraphFromFile: addEdge for every pair of
      consecutive tokens of a text of at least two tokens. */
  method AddPairEdges(g: DirectedGraph, words: seq<string>)
    requires g.Valid() && g.adjacencyList == map[] && |words| >= 2
    modifies g
    ensures g.Valid()
    ensures g.nodes == Elems(words)
    ensures forall a, b :: Weight(g.adjacencyList, a, b) == PairCount(words, a, b)
  {
    var i := 0;
    while i < |words| - 1
      invariant 0 <= i <= |words| - 1
      invariant g.Valid()
      invariant g.nodes == if i == 0 then {} else Elems(words[..i + 1])
      invariant forall a, b :: Weight(g.adjacencyList, a, b) == PairCount(words[..i + 1], a, b)
    {
      var word1 := words[i];
      var word2 := words[i + 1];
      g.AddEdge(word1, word2);
      PairCountStep(words, i);
      assert words[..i + 2] == words[..i + 1] + [word2];
      assert i == 0 ==> words[..i + 1] == [word1];
      i := i + 1;
    }
    assert words[..i + 1] == words;
  }

  /** In a graph built from a text, an edge leads from `a` to `b` exactly
      when `b` immediately follows `a` somewhere in the text. */
  lemma BuiltEdges(ws: seq<string>, adj: Adjacency)
    requires forall a, b :: Weight(adj, a, b) == PairCount(ws, a, b)
    requires WellFormed(adj)
    ensures forall a, b :: HasEdge(adj, a, b) <==> Adjacent(ws, a, b)
  {
    forall a, b ensures HasEdge(adj, a, b) <==> Adjacent(ws, a, b) {
      PairCountPositive(ws, a, b);
    }
  }
}
