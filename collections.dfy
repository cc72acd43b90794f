/** Small generic helpers over sets and sequences used by the graph engine. */
module Collections {

  datatype Option<T> = None | Some(value: T)

  /** The value that the random source yields for its `k`-th draw
      (java.util.Random is replaced by the sequence `draws`). */
  function Draw(draws: seq<nat>, k: nat): nat {
    if k < |draws| then draws[k] else 0
  }

  /** The members of a sequence. */
  function Elems<T>(s: seq<T>): set<T> {
    set x | x in s
  }

  /** No member occurs twice. */
  predicate Distinct<T(==)>(s: seq<T>) {
    forall i, j :: 0 <= i < j < |s| ==> s[i] != s[j]
  }

  /** Lists the members of a set in an order the caller cannot rely on, as
      `new ArrayList<>(set)` or a for-each over a hash set does. */
  method Enumerate<T>(s: set<T>) returns (l: seq<T>)
    ensures Elems(l) == s && Distinct(l) && |l| == |s|
  {
    l := [];
    var rest := s;
    while rest != {}
      invariant rest <= s
      invariant forall x :: x in l <==> x in s && x !in rest
      invariant Distinct(l)
      invariant |l| + |rest| == |s|
      decreases rest
    {
      var x :| x in rest;
      l := l + [x];
      rest := rest - {x};
    }
    assert Elems(l) == s;
  }
}
