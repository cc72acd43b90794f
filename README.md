# Text graph engine, modelled in Dafny

This project models the core of `TextGraphApp.java`, a desktop tool that
reads a text and turns it into a weighted directed word graph:

- every token (a maximal run of the letters a-z, after lower-casing) is a node;
- every pair of consecutive tokens is an edge;
- an edge's weight counts how often that pair occurs.

The project proves properties of the following operations on that graph:

- the `DirectedGraph` class (adding nodes and edges, queries, Graphviz DOT export);
- the tokenise-and-build step of `buildGraphFromFile`;
- bridge-word queries;
- generation of new text with bridge words inserted;
- Dijkstra shortest paths with path reconstruction;
- the random walk.

Modules, one per file:

| file | module | what it holds |
|---|---|---|
| `collections.dfy` | `Collections` | `Option`, the random-draw sequence, set enumeration in unspecified order |
| `strings.dfy` | `Strings` | ASCII case mapping, `String.join`, decimal rendering of ints, the `compareTo` order and sorting |
| `tokenizer.dfy` | `Tokenizer` | lower-case, non-letters to spaces, split into tokens |
| `word_graph.dfy` | `WordGraph` | the `DirectedGraph` class, walks, path weights, DOT text |
| `graph_builder.dfy` | `GraphBuilder` | word counts and the graph built from a text |
| `bridge_words.dfy` | `BridgeWords` | `findBridgeWordsList`, `queryBridgeWords` |
| `text_generator.dfy` | `TextGenerator` | `capitalizeFirst`, `generateNewText` |
| `path_finder.dfy` | `PathFinder` | Dijkstra, `reconstructPath`, `calcShortestPath`, `findShortestPathList` |
| `random_walker.dfy` | `RandomWalker` | `randomWalk` |

The graph is a `class` with the source's two fields:

- `adjacencyList`, a map from source to (target → weight);
- `nodes`, a set.

`Valid()` says three things:

- every node has an adjacency entry;
- every edge target is a node;
- every weight is at least 1.

Every mutating method preserves `Valid()`.

A loop over a Java hash collection visits its members in an unspecified order. The model writes this in one of two ways. Some loops run over `Collections.Enumerate`, which lists a set in an order the caller cannot rely on. Others repeatedly take an arbitrary member (`:|`) from a shrinking set: `GetInNeighbors` and the outer loop of `ToDotFormat`. Either way, every property is stated over sets, or over whatever order was chosen.

`java.util.Random` is replaced by a caller-supplied sequence `draws`. The k-th `nextInt(n)` is `Draw(draws, k) % n`.

The `volatile` stop flag of the random walk is replaced by `stopAt`: the number of loop passes after which the user's stop request becomes visible. It stays visible from then on.

Result strings are replaced by result datatypes, one constructor per message:

- `BridgeAnswer`;
- `Generated`;
- `PathAnswer` (with `Route`);
- `WalkResult` (with `StopReason`).

`Tokenizer.Words` is the helper that chains `Normalise` and `Split`, the steps at lines 533-538 and 733-736. Its properties are in the rows of those two and of `Tokenizer.WordsAreWords`.

Behaviour of the code that the model keeps:

- `generateNewText` returns the empty string for blank input.
- `reconstructPath` returns an empty list when the walk back does not reach the start.
- Bridge words and neighbours come out in `HashMap` iteration order, which is unspecified.
- After its loop, `randomWalk` reads the stop flag once more. It reports a user interruption whenever the flag is set by then, even when the walk had just ended at a dead end or on a repeated edge.

## Model

| member | source | states |
|---|---|---|
| WordGraph.DirectedGraph.constructor | TextGraphApp.java:27-30 | A new graph has no nodes and no edges, and is valid. |
| WordGraph.DirectedGraph.AddNode | TextGraphApp.java:36-39 | The node joins the node set. An adjacency entry is created only if the node had none. No edge weight changes. |
| WordGraph.DirectedGraph.AddEdge | TextGraphApp.java:46-56 | Both endpoints become nodes. The weight of (source, target) goes up by exactly 1. Every other weight is unchanged, no edge is lost, and the graph stays valid. |
| WordGraph.DirectedGraph.ContainsNode | TextGraphApp.java:63-65 | True exactly when the word has an adjacency entry, i.e. is a node. |
| WordGraph.DirectedGraph.GetWeight | TextGraphApp.java:73-75 | Never negative. Zero exactly when there is no such edge. Positive only between two nodes. |
| WordGraph.DirectedGraph.GetNeighbors | TextGraphApp.java:82-84 | Empty for an unknown word. Otherwise exactly the targets of positive weight, with those weights, all of them nodes. |
| WordGraph.DirectedGraph.GetInNeighbors | TextGraphApp.java:91-104 | Empty for an unknown word. Otherwise exactly the words with an edge into it. |
| WordGraph.DirectedGraph.ToDotFormat | TextGraphApp.java:119-158 | The text is the header, one line per node, one line per edge, then the footer. The node order lists every node exactly once and the edge order every edge exactly once. So the text declares every node, with its path emphasis, and every edge, with its weight as label and its path emphasis. |
| WordGraph.DirectedGraph.AppendNodeLines | TextGraphApp.java:131-138 | The builder holds the header and one declaration per node, in an enumeration of the node set with no repeats. A node is emphasised exactly when it lies on the highlighted path. |
| WordGraph.DirectedGraph.AppendEdgeLines | TextGraphApp.java:142-154 | After the inner loop, the listed edges are the earlier ones plus exactly the out-edges of `source`, with no repeats. Each edge is written with its weight. |
| WordGraph.DotListsEverything | TextGraphApp.java:131-154 | The DOT text contains a declaration for every listed node. It also contains, for every listed edge, a line with that edge's weight and with red emphasis exactly when the edge is a step of the highlighted path. |
| Strings.DecimalRoundTrip | TextGraphApp.java:146-148 | An edge weight's label is a non-empty string of decimal digits that reads back as the weight. |
| Collections.Enumerate | TextGraphApp.java:1163 | `new ArrayList<>(set)` and a for-each over a hash set: every member of the set exactly once, in an order the caller cannot rely on. |
| Strings.SortedList | TextGraphApp.java:879-880 | The nodes are copied to a list and sorted: the same elements, in strictly increasing `compareTo` order. |
| Strings.ToLower | TextGraphApp.java:677-678 | Same length. No capital A-Z is left: each capital becomes its small letter (code point + 32), and every other character is kept. |
| Strings.ToLowerIdempotent | TextGraphApp.java:796-799 | Lower-casing an already lower-cased word changes nothing. |
| Tokenizer.Normalise | TextGraphApp.java:533-536 | Same length, only a-z and spaces remain. A character becomes a letter exactly when it is a letter of either case, lower-cased. Every other character becomes a space. |
| Tokenizer.NormaliseIdempotent | TextGraphApp.java:733-735 | Normalising twice is normalising once, and lower-casing first changes nothing. |
| Tokenizer.Split | TextGraphApp.java:536-538 | Every token is non-empty and has no space. Together the tokens hold exactly the non-space characters of the text, in order. |
| Tokenizer.SplitSpace | TextGraphApp.java:536-538 | A space cuts the text: the tokens of `p + " " + q` are those of `p` followed by those of `q`. So leading, trailing and repeated spaces produce no token, as `replaceAll("\\s+", " ").trim().split("\\s+")` gives. |
| Tokenizer.SplitRun | TextGraphApp.java:538 | A text without spaces is a single token, or no token when empty. With `SplitSpace` this fixes the tokens of every text: they are exactly its maximal runs of non-space characters. |
| Tokenizer.SplitFromSpace | TextGraphApp.java:536-538 | The inductive form of `SplitSpace`, with a pending partial token. |
| Tokenizer.SplitFromContents | TextGraphApp.java:536-538 | Splitting with a pending partial token keeps the same two facts, with the partial token at the end. |
| Tokenizer.WordsAreWords | TextGraphApp.java:533-538 | After lower-casing, replacing non-letters and splitting, every token is a non-empty run of a-z. |
| Tokenizer.SplitJoin | TextGraphApp.java:538 | Splitting tokens joined by single spaces gives the same tokens back. |
| GraphBuilder.CountWords | TextGraphApp.java:540-547 | The frequency table has exactly the tokens as keys, each with its number of occurrences. The total is the token count. |
| GraphBuilder.BuildGraph | TextGraphApp.java:521-568 | The nodes are exactly the tokens of the text. Every weight equals the number of times the pair occurs consecutively. The frequency table is exact, and the graph is valid. |
| GraphBuilder.AddPairEdges | TextGraphApp.java:562-568 | Adding an edge per consecutive pair yields exactly the tokens as nodes, and pair counts as weights. |
| GraphBuilder.BuiltEdges | TextGraphApp.java:562-568 | In a built graph, an edge a → b exists exactly when b immediately follows a somewhere in the text. |
| BridgeWords.BridgesOfMissing | TextGraphApp.java:772-776 | A word that is not a node has no bridge words, on either side. |
| BridgeWords.BridgesInText | TextGraphApp.java:699-704 | In a built graph, w is a bridge from a to b exactly when the text contains both "a w" and "w b". |
| BridgeWords.FindBridgeWordsList | TextGraphApp.java:772-785 | Empty when either word is missing. Otherwise, without repeats, exactly the words w with edges a → w and w → b. |
| BridgeWords.QueryBridgeWords | TextGraphApp.java:675-721 | Lower-cases both words. Both missing, only the first missing, and only the second missing are three distinct answers. Otherwise the answer is "no bridge" exactly when the bridge set is empty, else the full bridge list without repeats. |
| TextGenerator.Capitalize | TextGraphApp.java:765-768 | Same length. The first character is upper-cased and the rest are unchanged; an empty word stays empty. |
| TextGenerator.CapitalizeNormalise | TextGraphApp.java:765-768 | Normalising a capitalised token gives the token back. |
| TextGenerator.GenerateNewText | TextGraphApp.java:729-762 | No graph gives an error. Blank input gives "". Fewer than two tokens gives the input unchanged. Otherwise the output is the tokens, the first capitalised, joined by single spaces. Between each pair there is either no word, when the pair has no bridge, or one of that pair's bridge words. |
| TextGenerator.AppendPair | TextGraphApp.java:747-759 | One pass of the loop appends " ", then a bridge word and " " when the pair has one, then the second word. It draws a random number exactly when it inserts, and it inserts exactly when the pair has a bridge word. Without one the text grows by " " and the second word; with one, by " ", one of the pair's bridge words, " " and the second word. |
| TextGenerator.AugmentElems | TextGraphApp.java:747-759 | Every word of the output is an input token or an inserted word. |
| TextGenerator.StripAugment | TextGraphApp.java:747-759 | Deleting the inserted words gives back exactly the token sequence, with only the first token capitalised. |
| TextGenerator.GeneratedWords | TextGraphApp.java:733-759 | Tokenising the generated text again gives the input tokens with the inserted bridge words in place. |
| PathFinder.Poll | TextGraphApp.java:828 | The queue entry taken has the least distance in the queue. |
| PathFinder.RelaxEdge | TextGraphApp.java:843-855 | An edge into an unsettled node lowers that node's distance to at most the current node's distance plus the weight. Settled nodes keep their distance and predecessor. The predecessor tree and the queue stay consistent. |
| PathFinder.Relax | TextGraphApp.java:841-856 | After the neighbour loop, every edge from the current node into an unsettled node is relaxed. Distances only decrease, and a settled node is never relaxed again. |
| PathFinder.SettleOptimal | TextGraphApp.java:828-831 | The unsettled node with the least queued distance has its final distance: no walk from the start to it is lighter. |
| PathFinder.Visit | TextGraphApp.java:828-856 | One pass of the main loop preserves the Dijkstra invariant. Either a node is newly settled or the queue shrinks. |
| PathFinder.Dijkstra | TextGraphApp.java:812-857 | Every reached node has a predecessor chain back to the start. Without early stop: a node has a distance exactly when it is reachable, and that distance is the least weight of a walk to it. With early stop: the same holds for the target. |
| PathFinder.Conclude | TextGraphApp.java:827-857 | When the queue is empty every reachable node is reached and every reached node is final. After an early stop the target is final. |
| PathFinder.ReachedAll | TextGraphApp.java:827-857 | Once the queue is empty, every node on a walk from the start has a distance. |
| PathFinder.TreeWalkWeight | TextGraphApp.java:843-855 | Following predecessors back from a reached node gives a walk from the start to that node. Its weight equals the node's distance. |
| PathFinder.EarlyStopAgrees | TextGraphApp.java:934 | Stopping once the target is settled does not change whether the target is reached, nor its distance. |
| PathFinder.ReconstructPath | TextGraphApp.java:900-911 | For a reached end, the result is the predecessor walk: it starts at `start`, ends at `end`, has an edge between each consecutive pair and weighs the end's distance. Otherwise the result is empty. |
| PathFinder.CollectRoutes | TextGraphApp.java:879-891 | The routes go, in strictly increasing order, to exactly the reached nodes other than the start. Each route is a shortest walk and carries its weight. |
| PathFinder.CalcShortestPath | TextGraphApp.java:794-897 | Lower-cases the words. A missing word is reported as missing (first, then second), never as "no path". With an end word, "no path" is reported exactly when the end is unreachable; otherwise the answer is a shortest walk and its weight. Without one, it lists sorted shortest routes to exactly the other reachable nodes. |
| PathFinder.FindShortestPathList | TextGraphApp.java:914-956 | Null for no graph, an empty word or a missing word. Otherwise it returns a path exactly when the end is reachable, and that path is a shortest walk. |
| RandomWalker.RandomWalk | TextGraphApp.java:1157-1207 | An empty or absent graph gives an error. Otherwise the path starts at a node and is a walk. Its edges are distinct except for one final repeat, which ends the walk. A dead end is reported only at a node without out-edges. The walk makes at most `stopAt` passes and reports an interruption exactly when the flag is visible after its last pass. The initial "Completed" reason is never returned. |
| RandomWalker.Wander | TextGraphApp.java:1175-1203 | The loop stops at a dead end or on a repeated edge (both with the flag unseen before the pass), or when the flag is seen. The path length is the number of passes, plus one for a repeated edge. |
| RandomWalker.CutShape | TextGraphApp.java:1175-1177 | A walk stopped by the flag consists of the visited nodes, and its edges are distinct. |
| RandomWalker.DeadEndShape | TextGraphApp.java:1179-1183 | A walk ending at a dead end includes the dead-end node, and its edges are distinct. |
| RandomWalker.RepeatShape | TextGraphApp.java:1189-1195 | A walk ending on a repeated edge includes that edge's target. All earlier edges are distinct, and its last edge is one of them. |

## Left out

- The Swing user interface, `main`, file reading, writing the DOT file and the walk file, and running Graphviz. The text reaches `BuildGraph` as a string whose lines are already trimmed and joined by spaces.
- PageRank (`calculateAndDisplayAllPageRanks`, `calPageRank`): floating-point iteration, outside this model.
- `DirectedGraph.toCliString` and `getAllNodes`: presentation, and a read-only view of `nodes`.
- The text of every message. Results are datatypes with one constructor per message. The ", and " layout of the bridge-word list and the " -> " joining of paths are not modelled.
- Java's full Unicode `toLowerCase` and `Character.toUpperCase`. The model maps ASCII letters only. Java's `toLowerCase()` also depends on the default locale: in a Turkish locale "I" becomes a dotless "ı" and so a separator, while here it is always "i". For lower-casing, a non-ASCII letter that Java maps into a-z (for example the Kelvin sign) becomes a separator here. `TextGenerator.Capitalize` loses nothing, because only a-z tokens reach it.
- `PathFinder.Dijkstra`: 32-bit `int` distances are modelled as unbounded naturals, so an overflow of `distances.get(current) + weight` on a graph of total weight above 2^31 is not modelled.
- Hash iteration order: which bridge word, neighbour or start node a given index selects depends on an order that is stated only as "some enumeration without repeats".
- Null string arguments: the word parameters are `string`. A missing end word of `calcShortestPath` is `None`.
- Edges in `toDotFormat` and `randomWalk` are keyed by the string `source + "->" + target`; the model uses the pair (source, target). The two agree because tokens contain only letters.
- `PathFinder.Poll`: the priority queue is a set of (node, distance) entries. Equal entries cannot arise, because a node is queued again only with a strictly smaller distance. Ties between equal distances are broken arbitrarily, as in `PriorityQueue`.
- `RandomWalker.RandomWalk`: the stop flag is seen by the loop only at the start of a pass, as in the code. The thread that sets it is not modelled.
- `PathFinder.ReconstructPath`: requires the predecessor map to be the tree Dijkstra builds, rooted at `start`, which is what every caller passes (lines 868, 886, 952). On a predecessor cycle that misses `start`, the Java loop would never end; that case is not modelled.
