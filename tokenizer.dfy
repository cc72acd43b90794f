/** The text normalisation shared by graph construction and text generation:
    lower-case, turn every character other than a-z into a separator, and
    split into the maximal runs of letters. */
module Tokenizer {
  import opened Strings

  predicate IsLetter(c: char) {
    'a' <= c <= 'z'
  }

  /** A token: a non-empty run of the letters a-z. */
  predicate IsWord(w: string) {
    |w| > 0 && forall i :: 0 <= i < |w| ==> IsLetter(w[i])
  }

  /** One character of the normalised text: lower-cased when it is an ASCII
      capital, kept when it is a-z, a space otherwise (other characters are
      replaced by a space, whitespace runs collapse to one space). */
  function NormalChar(c: char): char {
    if IsLetter(ToLowerChar(c)) then ToLowerChar(c) else ' '
  }

  /** The normalised text: only letters a-z and spaces remain, character for
      character; a letter of either case stays a letter, lower-cased, and
      every other character becomes a space. */
  function Normalise(text: string): (r: string)
    ensures |r| == |text|
    ensures forall i :: 0 <= i < |r| ==> r[i] == ' ' || IsLetter(r[i])
    ensures forall i :: 0 <= i < |r| ==> (IsLetter(r[i]) <==> IsLetter(text[i]) || 'A' <= text[i] <= 'Z')
    ensures forall i :: 0 <= i < |r| && IsLetter(text[i]) ==> r[i] == text[i]
    ensures forall i :: 0 <= i < |r| && 'A' <= text[i] <= 'Z' ==> r[i] as int == text[i] as int + 32
  {
    seq(|text|, i requires 0 <= i < |text| => NormalChar(text[i]))
  }

  /** Normalising twice is normalising once, and lower-casing first changes nothing. */
  lemma NormaliseIdempotent(text: string)
    ensures Normalise(Normalise(text)) == Normalise(text)
    ensures Normalise(ToLower(text)) == Normalise(text)
  {
  }

  function Flush(tail: string): seq<string> {
    if tail == "" then [] else [tail]
  }

  /** The tokens of `s` followed by the partial token `tail` that has
      already been read from the right of `s`. */
  function SplitFrom(s: string, tail: string): seq<string>
    decreases |s|
  {
    if |s| == 0 then Flush(tail)
    else if s[|s| - 1] == ' ' then SplitFrom(s[..|s| - 1], "") + Flush(tail)
    else SplitFrom(s[..|s| - 1], [s[|s| - 1]] + tail)
  }

  /** The characters of `s` other than spaces, in order. */
  function Unspaced(s: string): string
    decreases |s|
  {
    if |s| == 0 then ""
    else Unspaced(s[..|s| - 1]) + (if s[|s| - 1] == ' ' then "" else [s[|s| - 1]])
  }

  /** The tokens of `s` followed by a space-free `tail` are non-empty and
      space-free, and together they hold the non-space characters of `s`
      followed by `tail`. */
  lemma {:induction false} SplitFromContents(s: string, tail: string)
    requires ' ' !in tail
    ensures forall w :: w in SplitFrom(s, tail) ==> w != "" && ' ' !in w
    ensures Concat(SplitFrom(s, tail)) == Unspaced(s) + tail
    decreases |s|
  {
    if |s| == 0 {
      assert Concat(Flush(tail)) == tail by {
        if tail != "" { assert [tail][..0] == []; }
      }
    } else {
      var n := |s| - 1;
      if s[n] == ' ' {
        SplitFromContents(s[..n], "");
        var front := SplitFrom(s[..n], "");
        if tail != "" {
          assert (front + [tail])[..|front|] == front;
        } else {
          assert front + [] == front;
        }
      } else {
        SplitFromContents(s[..n], [s[n]] + tail);
      }
    }
  }

  /** The maximal runs of non-space characters of `s`, left to right:
      `s.trim().split("\\s+")` once whitespace runs are collapsed. Every token
      is non-empty and space-free, and the tokens hold exactly the non-space
      characters of `s`, in order. */
  function Split(s: string): (r: seq<string>)
    ensures forall w :: w in r ==> w != "" && ' ' !in w
    ensures Concat(r) == Unspaced(s)
  {
    SplitFromContents(s, "");
    assert Unspaced(s) + "" == Unspaced(s);
    SplitFrom(s, "")
  }

  /** The tokens of a raw text. */
  function Words(text: string): seq<string> {
    Split(Normalise(text))
  }

  /** Java's `trim().isEmpty()`: every character is at most U+0020. */
  predicate IsBlank(s: string) {
    forall i :: 0 <= i < |s| ==> s[i] <= ' '
  }

  lemma {:induction false} SplitFromWords(s: string, tail: string)
    requires forall i :: 0 <= i < |s| ==> s[i] == ' ' || IsLetter(s[i])
    requires forall i :: 0 <= i < |tail| ==> IsLetter(tail[i])
    ensures forall w :: w in SplitFrom(s, tail) ==> IsWord(w)
    decreases |s|
  {
    if |s| > 0 {
      if s[|s| - 1] == ' ' {
        SplitFromWords(s[..|s| - 1], "");
      } else {
        SplitFromWords(s[..|s| - 1], [s[|s| - 1]] + tail);
      }
    }
  }

  /** Normalisation yields only non-empty tokens over a-z. */
  lemma WordsAreWords(text: string)
    ensures forall w :: w in Words(text) ==> IsWord(w)
  {
    SplitFromWords(Normalise(text), "");
  }

  /** Reading a run of non-space characters into the pending token. */
  lemma {:induction false} SplitFromLetters(p: string, w: string, tail: string)
    requires ' ' !in w
    ensures SplitFrom(p + w, tail) == SplitFrom(p, w + tail)
    decreases |w|
  {
    if |w| == 0 {
      assert p + w == p && w + tail == tail;
    } else {
      var n := |w| - 1;
      assert (p + w)[..|p + w| - 1] == p + w[..n];
      assert (p + w)[|p + w| - 1] == w[n];
      SplitFromLetters(p, w[..n], [w[n]] + tail);
      assert w[..n] + ([w[n]] + tail) == w + tail;
    }
  }

  /** A space cuts the text in two: what lies before it is split on its own,
      and what lies after it is read in front of the pending token. */
  lemma {:induction false} SplitFromSpace(p: string, q: string, tail: string)
    ensures SplitFrom(p + " " + q, tail) == SplitFrom(p, "") + SplitFrom(q, tail)
    decreases |q|
  {
    var s := p + " " + q;
    if |q| == 0 {
      assert s[..|s| - 1] == p;
    } else {
      var n := |q| - 1;
      assert s[..|s| - 1] == p + " " + q[..n];
      assert s[|s| - 1] == q[n];
      if q[n] == ' ' {
        SplitFromSpace(p, q[..n], "");
      } else {
        SplitFromSpace(p, q[..n], [q[n]] + tail);
      }
    }
  }

  /** The tokens of `p + " " + q` are those of `p` followed by those of `q`. */
  lemma SplitSpace(p: string, q: string)
    ensures Split(p + " " + q) == Split(p) + Split(q)
  {
    SplitFromSpace(p, q, "");
  }

  /** A text without spaces is one token, or none when it is empty. With
      SplitSpace this fixes the tokens of every text: they are its maximal
      runs of non-space characters. */
  lemma SplitRun(w: string)
    requires ' ' !in w
    ensures Split(w) == if w == "" then [] else [w]
  {
    SplitFromLetters("", w, "");
    assert "" + w == w && w + "" == w;
  }

  /** Splitting tokens joined by single spaces gives the tokens back. */
  lemma {:induction false} SplitJoin(ts: seq<string>)
    requires forall k :: 0 <= k < |ts| ==> IsWord(ts[k])
    ensures Split(Join(ts, " ")) == ts
    decreases |ts|
  {
    if |ts| == 1 {
      SplitFromLetters("", ts[0], "");
      assert "" + ts[0] == ts[0] && ts[0] + "" == ts[0];
    } else if |ts| > 1 {
      var n := |ts| - 1;
      var j := Join(ts[..n], " ");
      assert Join(ts, " ") == (j + " ") + ts[n];
      SplitFromLetters(j + " ", ts[n], "");
      assert ts[n] + "" == ts[n];
      assert (j + " ")[..|j + " "| - 1] == j;
      SplitJoin(ts[..n]);
      assert ts[..n] + [ts[n]] == ts;
    }
  }

  lemma NormaliseAppend(a: string, b: string)
    ensures Normalise(a + b) == Normalise(a) + Normalise(b)
  {
  }

  /** Normalising text made of tokens and single spaces changes only the
      case of its letters. */
  lemma {:induction false} NormaliseJoin(ts: seq<string>, us: seq<string>)
    requires |ts| == |us|
    requires forall k :: 0 <= k < |ts| ==> Normalise(ts[k]) == us[k]
    ensures Normalise(Join(ts, " ")) == Join(us, " ")
    decreases |ts|
  {
    if |ts| > 1 {
      var n := |ts| - 1;
      NormaliseJoin(ts[..n], us[..n]);
      NormaliseAppend(Join(ts[..n], " ") + " ", ts[n]);
      NormaliseAppend(Join(ts[..n], " "), " ");
    }
  }

  lemma NormaliseWord(w: string)
    requires IsWord(w)
    ensures Normalise(w) == w
  {
  }
}
