/** Generating new text: between every two consecutive words of the input a
    randomly chosen bridge word is inserted, when there is one. */
module TextGenerator {
  import opened Collections
  import opened Strings
  import opened Tokenizer
  import opened WordGraph
  import opened BridgeWords

  /** capitalizeFirst: the first character upper-cased, the rest unchanged. */
  function Capitalize(word: string): (r: string)
    ensures |r| == |word|
    ensures |word| > 0 ==> r[0] == ToUpperChar(word[0]) && r[1..] == word[1..]
  {
    if |word| == 0 then word else [ToUpperChar(word[0])] + word[1..]
  }

  /** Capitalising a token is undone by normalisation. */
  lemma CapitalizeNormalise(word: string)
    requires IsWord(word)
    ensures Normalise(Capitalize(word)) == word
  {
    var c := Capitalize(word);
    forall i | 0 <= i < |word|
      ensures Normalise(c)[i] == word[i]
    {
      if i == 0 {
        assert 'A' <= c[0] <= 'Z';
      } else {
        assert c[i] == word[i];
      }
    }
  }

  /** The words of the output with the first one capitalised. */
  function CapitalizedFirst(ws: seq<string>): (r: seq<string>)
    requires |ws| >= 1
    ensures |r| == |ws| && r[0] == Capitalize(ws[0])
    ensures forall k :: 1 <= k < |ws| ==> r[k] == ws[k]
  {
    [Capitalize(ws[0])] + ws[1..]
  }

  function Inserted(o: Option<string>): seq<string> {
    if o.Some? then [o.value] else []
  }

  /** The words `xs` with `ins[i]`, when present, placed between `xs[i]` and `xs[i + 1]`. */
  function Augment(xs: seq<string>, ins: seq<Option<string>>): (r: seq<string>)
    requires |xs| >= 1 && |ins| == |xs| - 1
    ensures |r| >= 1 && r[0] == xs[0]
    decreases |xs|
  {
    if |xs| == 1 then xs
    else
      var n := |xs| - 1;
      Augment(xs[..n], ins[..n - 1]) + Inserted(ins[n - 1]) + [xs[n]]
  }

  /** Every word of the augmented sequence is an original word or an inserted one. */
  lemma {:induction false} AugmentElems(xs: seq<string>, ins: seq<Option<string>>)
    requires |xs| >= 1 && |ins| == |xs| - 1
    ensures forall x :: x in Augment(xs, ins) ==> x in xs || Some(x) in ins
    decreases |xs|
  {
    if |xs| > 1 {
      var n := |xs| - 1;
      AugmentElems(xs[..n], ins[..n - 1]);
      assert forall x :: x in xs[..n] ==> x in xs;
      assert forall o :: o in ins[..n - 1] ==> o in ins;
    }
  }

  /** Deletes from `ys` the words that `ins` says were inserted, pair by pair
      from the back. */
  function Strip(ys: seq<string>, ins: seq<Option<string>>): seq<string>
    decreases |ins|
  {
    if |ins| == 0 || |ys| == 0 then ys
    else
      var n, k := |ys| - 1, |Inserted(ins[|ins| - 1])|;
      if n < k then ys else Strip(ys[..n - k], ins[..|ins| - 1]) + [ys[n]]
  }

  /** Deleting the inserted words gives back the original words. */
  lemma {:induction false} StripAugment(xs: seq<string>, ins: seq<Option<string>>)
    requires |xs| >= 1 && |ins| == |xs| - 1
    ensures Strip(Augment(xs, ins), ins) == xs
    decreases |xs|
  {
    if |xs| > 1 {
      var n := |xs| - 1;
      var front := Augment(xs[..n], ins[..n - 1]);
      var ys := Augment(xs, ins);
      var k := |Inserted(ins[n - 1])|;
      assert ys == front + Inserted(ins[n - 1]) + [xs[n]];
      assert ys[..|ys| - 1 - k] == front;
      StripAugment(xs[..n], ins[..n - 1]);
      assert xs[..n] + [xs[n]] == xs;
    }
  }

  /** Replacing the first word replaces the first word of the result and nothing else. */
  lemma {:induction false} AugmentFirst(xs: seq<string>, ins: seq<Option<string>>, c: string)
    requires |xs| >= 1 && |ins| == |xs| - 1
    ensures Augment(xs[0 := c], ins) == Augment(xs, ins)[0 := c]
    decreases |xs|
  {
    if |xs| > 1 {
      var n := |xs| - 1;
      assert xs[0 := c][..n] == xs[..n][0 := c];
      AugmentFirst(xs[..n], ins[..n - 1], c);
    }
  }

  /** One more pair of the loop: the optional bridge word and the next word. */
  lemma AugmentStep(xs: seq<string>, ins: seq<Option<string>>, i: nat, o: Option<string>)
    requires i + 1 < |xs| && |ins| == i
    ensures Augment(xs[..i + 2], ins + [o]) == Augment(xs[..i + 1], ins) + Inserted(o) + [xs[i + 1]]
  {
    assert xs[..i + 2][..i + 1] == xs[..i + 1];
    assert (ins + [o])[..i] == ins;
  }

  lemma JoinSnoc(xs: seq<string>, y: string, sep: string)
    requires |xs| >= 1
    ensures Join(xs + [y], sep) == Join(xs, sep) + sep + y
  {
    assert (xs + [y])[..|xs|] == xs;
  }

  /** `o` is a valid choice between `a` and `b`: nothing exactly when there
      is no bridge word, otherwise one of the bridge words. */
  predicate Chosen(adj: Adjacency, a: string, b: string, o: Option<string>) {
    if o.None? then Bridges(adj, a, b) == {} else o.value in Bridges(adj, a, b)
  }

  /** Every recorded choice is valid for its pair of consecutive words. */
  predicate ChoicesValid(adj: Adjacency, ws: seq<string>, ins: seq<Option<string>>)
    requires |ins| < |ws|
  {
    forall j :: 0 <= j < |ins| ==> Chosen(adj, ws[j], ws[j + 1], ins[j])
  }

  lemma ChoicesSnoc(adj: Adjacency, ws: seq<string>, ins: seq<Option<string>>, o: Option<string>)
    requires |ins| + 1 < |ws|
    requires ChoicesValid(adj, ws, ins) && Chosen(adj, ws[|ins|], ws[|ins| + 1], o)
    ensures ChoicesValid(adj, ws, ins + [o])
  {
  }

  /** What generateNewText returns. */
  datatype Generated = NotGenerated | NewText(text: string)

  /** generateNewText. Blank input gives the empty text; input with fewer
      than two tokens is returned as it is; otherwise the output joins the
      tokens (the first one capitalised) by single spaces, with a bridge word
      inserted between two tokens exactly when they have one. `inserted`
      records, per pair of consecutive tokens, the bridge word chosen (the
      random source is the sequence `draws`, one index per choice). */
  method GenerateNewText(graph: DirectedGraph?, inputText: string, draws: seq<nat>)
    returns (r: Generated, ghost inserted: seq<Option<string>>)
    requires graph != null ==> graph.Valid()
    ensures graph == null ==> r == NotGenerated
    ensures graph != null && IsBlank(inputText) ==> r == NewText("")
    ensures graph != null && !IsBlank(inputText) && |Words(inputText)| < 2 ==> r == NewText(inputText)
    ensures graph != null && !IsBlank(inputText) && |Words(inputText)| >= 2 ==>
      var ws := Words(inputText);
      && |inserted| == |ws| - 1
      && ChoicesValid(graph.adjacencyList, ws, inserted)
      && r == NewText(Join(Augment(CapitalizedFirst(ws), inserted), " "))
  {
    inserted := [];
    if graph == null {
      return NotGenerated, inserted;
    }
    if IsBlank(inputText) {
      return NewText(""), inserted;
    }
    var words := Words(inputText);
    if |words| < 2 {
      return NewText(inputText), inserted;
    }
    ghost var cws := CapitalizedFirst(words);
    var newText := Capitalize(words[0]);
    var calls := 0;
    var i := 0;
    assert cws[..1] == [newText];
    while i < |words| - 1
      invariant 0 <= i <= |words| - 1
      invariant |inserted| == i
      invariant ChoicesValid(graph.adjacencyList, words, inserted)
      invariant newText == Join(Augment(cws[..i + 1], inserted), " ")
    {
      ghost var choice;
      ghost var before := newText;
      newText, calls, choice := AppendPair(graph, newText, words[i], words[i + 1], draws, calls);
      ChoicesSnoc(graph.adjacencyList, words, inserted, choice);
      TextStep(cws, inserted, i, choice, before);
      inserted := inserted + [choice];
      i := i + 1;
    }
    assert cws[..i + 1] == cws;
    return NewText(newText), inserted;
  }

  /** The text after one pass of the loop of generateNewText. */
  function PairText(text: string, o: Option<string>, word: string): string {
    (if o.Some? then text + " " + o.value + " " else text + " ") + word
  }

  /** One pass of the loop extends the joined words by the choice and the next word. */
  lemma TextStep(xs: seq<string>, ins: seq<Option<string>>, i: nat, o: Option<string>, text: string)
    requires i + 1 < |xs| && |ins| == i
    requires text == Join(Augment(xs[..i + 1], ins), " ")
    ensures PairText(text, o, xs[i + 1]) == Join(Augment(xs[..i + 2], ins + [o]), " ")
  {
    var before := Augment(xs[..i + 1], ins);
    AugmentStep(xs, ins, i, o);
    if o.Some? {
      JoinSnoc(before, o.value, " ");
      JoinSnoc(before + [o.value], xs[i + 1], " ");
    } else {
      assert before + Inserted(o) == before;
      JoinSnoc(before, xs[i + 1], " ");
    }
  }

  /** The body of the loop of generateNewText for the pair `word1`, `word2`:
      a space, then a randomly chosen bridge word and a space when there is
      one, then `word2`. */
  method AppendPair(graph: DirectedGraph, newText: string, word1: string, word2: string,
                    draws: seq<nat>, calls: nat)
    returns (text: string, calls': nat, ghost choice: Option<string>)
    requires graph.Valid()
    ensures Chosen(graph.adjacencyList, word1, word2, choice)
    ensures text == PairText(newText, choice, word2)
    ensures calls' == if choice.Some? then calls + 1 else calls
    ensures calls' == calls <==> Bridges(graph.adjacencyList, word1, word2) == {}
    ensures calls' == calls ==> text == newText + " " + word2
    ensures calls' != calls ==>
      exists w :: w in Bridges(graph.adjacencyList, word1, word2) && text == newText + " " + w + " " + word2
  {
    var bridgeWords := FindBridgeWordsList(graph, word1, word2);
    text := newText + " ";
    calls' := calls;
    choice := None;
    if |bridgeWords| > 0 {
      var chosenBridge := bridgeWords[Draw(draws, calls) % |bridgeWords|];
      calls' := calls + 1;
      assert chosenBridge in Elems(bridgeWords);
      text := text + chosenBridge + " ";
      choice := Some(chosenBridge);
    }
    text := text + word2;
  }

  /** Tokens with tokens inserted are tokens. */
  lemma AugmentedWords(ws: seq<string>, ins: seq<Option<string>>)
    requires |ws| >= 1 && |ins| == |ws| - 1
    requires forall k :: 0 <= k < |ws| ==> IsWord(ws[k])
    requires forall k :: 0 <= k < |ins| && ins[k].Some? ==> IsWord(ins[k].value)
    ensures forall k :: 0 <= k < |Augment(ws, ins)| ==> IsWord(Augment(ws, ins)[k])
  {
    var us := Augment(ws, ins);
    AugmentElems(ws, ins);
    forall k | 0 <= k < |us|
      ensures IsWord(us[k])
    {
      assert us[k] in us;
      if Some(us[k]) in ins {
        var j :| 0 <= j < |ins| && ins[j] == Some(us[k]);
      }
    }
  }

  /** The output words normalise to the tokens with the inserted words in place. */
  lemma CapitalizedNormalise(ws: seq<string>, ins: seq<Option<string>>)
    requires |ws| >= 1 && |ins| == |ws| - 1 && IsWord(ws[0])
    requires forall k :: 0 <= k < |Augment(ws, ins)| ==> IsWord(Augment(ws, ins)[k])
    ensures |Augment(CapitalizedFirst(ws), ins)| == |Augment(ws, ins)|
    ensures forall k :: 0 <= k < |Augment(ws, ins)| ==>
      Normalise(Augment(CapitalizedFirst(ws), ins)[k]) == Augment(ws, ins)[k]
  {
    var us := Augment(ws, ins);
    var c := Capitalize(ws[0]);
    assert CapitalizedFirst(ws) == ws[0 := c];
    AugmentFirst(ws, ins, c);
    var ts := Augment(CapitalizedFirst(ws), ins);
    assert ts == us[0 := c];
    CapitalizeNormalise(ws[0]);
    forall k | 0 <= k < |ts|
      ensures Normalise(ts[k]) == us[k]
    {
      if k > 0 {
        NormaliseWord(us[k]);
      }
    }
  }

  /** When every node is a token, reading the generated text back gives the
      input tokens with the inserted bridge words in place. */
  lemma GeneratedWords(ws: seq<string>, ins: seq<Option<string>>)
    requires |ws| >= 1 && |ins| == |ws| - 1
    requires forall k :: 0 <= k < |ws| ==> IsWord(ws[k])
    requires forall k :: 0 <= k < |ins| && ins[k].Some? ==> IsWord(ins[k].value)
    ensures Words(Join(Augment(CapitalizedFirst(ws), ins), " ")) == Augment(ws, ins)
  {
    AugmentedWords(ws, ins);
    CapitalizedNormalise(ws, ins);
    NormaliseJoin(Augment(CapitalizedFirst(ws), ins), Augment(ws, ins));
    SplitJoin(Augment(ws, ins));
  }
}
