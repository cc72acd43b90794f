/** Character and string helpers: ASCII case mapping, joining, decimal
    rendering of integers and the lexicographic order of String.compareTo. */
module Strings {
  import opened Collections

  function ToLowerChar(c: char): char {
    if 'A' <= c <= 'Z' then (c as int + 32) as char else c
  }

  function ToUpperChar(c: char): char {
    if 'a' <= c <= 'z' then (c as int - 32) as char else c
  }

  /** String.toLowerCase restricted to ASCII: no capital A-Z is left, a
      capital becomes its small letter, every other character is kept. */
  function ToLower(s: string): (r: string)
    ensures |r| == |s|
    ensures forall i :: 0 <= i < |r| ==> !('A' <= r[i] <= 'Z')
    ensures forall i :: 0 <= i < |s| && 'A' <= s[i] <= 'Z' ==> r[i] as int == s[i] as int + 32
    ensures forall i :: 0 <= i < |s| && !('A' <= s[i] <= 'Z') ==> r[i] == s[i]
  {
    seq(|s|, i requires 0 <= i < |s| => ToLowerChar(s[i]))
  }

  /** Lower-casing twice is lower-casing once. */
  lemma ToLowerIdempotent(s: string)
    ensures ToLower(ToLower(s)) == ToLower(s)
  {
  }

  /** String.join(sep, ts). */
  function Join(ts: seq<string>, sep: string): string
    decreases |ts|
  {
    if |ts| == 0 then ""
    else if |ts| == 1 then ts[0]
    else Join(ts[..|ts| - 1], sep) + sep + ts[|ts| - 1]
  }

  /** The pieces appended one after the other, as a StringBuilder does. */
  function Concat(pieces: seq<string>): string
    decreases |pieces|
  {
    if |pieces| == 0 then "" else Concat(pieces[..|pieces| - 1]) + pieces[|pieces| - 1]
  }

  /** `part` occurs as a contiguous piece of `whole`. */
  ghost predicate Occurs(part: string, whole: string) {
    exists i | 0 <= i <= |whole| :: part <= whole[i..]
  }

  lemma OccursIn(part: string, left: string, right: string)
    ensures Occurs(part, left + part + right)
  {
    var whole := left + part + right;
    assert part <= whole[|left|..];
  }

  lemma OccursExtend(part: string, whole: string, left: string, right: string)
    requires Occurs(part, whole)
    ensures Occurs(part, left + whole + right)
  {
    var i :| 0 <= i <= |whole| && part <= whole[i..];
    var w := left + whole + right;
    assert whole[i..] <= w[|left| + i..];
  }

  /** Every piece occurs in the concatenation. */
  lemma {:induction false} ConcatContains(pieces: seq<string>, k: nat)
    requires k < |pieces|
    ensures Occurs(pieces[k], Concat(pieces))
    decreases |pieces|
  {
    var n := |pieces| - 1;
    if k == n {
      OccursIn(pieces[k], Concat(pieces[..n]), "");
      assert Concat(pieces[..n]) + pieces[k] + "" == Concat(pieces);
    } else {
      assert pieces[..n][k] == pieces[k];
      ConcatContains(pieces[..n], k);
      OccursExtend(pieces[k], Concat(pieces[..n]), "", pieces[n]);
      assert "" + Concat(pieces[..n]) + pieces[n] == Concat(pieces);
    }
  }

  function DigitChar(d: nat): char
    requires d < 10
  {
    ('0' as int + d) as char
  }

  /** Decimal digits of a natural number, as StringBuilder.append(int) writes them. */
  function Decimal(n: nat): string
    decreases n
  {
    if n < 10 then [DigitChar(n)] else Decimal(n / 10) + [DigitChar(n % 10)]
  }

  /** Decimal rendering of any int, with a leading '-' for negatives. */
  function IntToString(i: int): string {
    if i < 0 then "-" + Decimal(-i) else Decimal(i)
  }

  predicate AllDigits(s: string) {
    forall i :: 0 <= i < |s| ==> '0' <= s[i] <= '9'
  }

  /** The value of a string of decimal digits. */
  function DecimalValue(s: string): nat
    requires AllDigits(s)
    decreases |s|
  {
    if |s| == 0 then 0
    else DecimalValue(s[..|s| - 1]) * 10 + (s[|s| - 1] as int - '0' as int)
  }

  /** The rendering is a non-empty run of digits, and reading it back gives
      the number. */
  lemma {:induction false} DecimalRoundTrip(n: nat)
    ensures |Decimal(n)| >= 1 && AllDigits(Decimal(n))
    ensures DecimalValue(Decimal(n)) == n
    decreases n
  {
    if n >= 10 {
      DecimalRoundTrip(n / 10);
      var s := Decimal(n);
      assert s[..|s| - 1] == Decimal(n / 10);
    }
  }

  /** The order of String.compareTo: character by character, and a proper
      prefix comes first. */
  predicate Less(a: string, b: string)
    decreases |a|
  {
    if |a| == 0 then |b| > 0
    else if |b| == 0 then false
    else if a[0] != b[0] then a[0] < b[0]
    else Less(a[1..], b[1..])
  }

  lemma {:induction false} LessIrreflexive(a: string)
    ensures !Less(a, a)
    decreases |a|
  {
    if |a| > 0 {
      LessIrreflexive(a[1..]);
    }
  }

  lemma {:induction false} LessTransitive(a: string, b: string, c: string)
    requires Less(a, b) && Less(b, c)
    ensures Less(a, c)
    decreases |a|
  {
    if |a| > 0 && a[0] == b[0] && b[0] == c[0] {
      LessTransitive(a[1..], b[1..], c[1..]);
    }
  }

  lemma {:induction false} LessTotal(a: string, b: string)
    requires a != b
    ensures Less(a, b) || Less(b, a)
    decreases |a|
  {
    if |a| > 0 && |b| > 0 && a[0] == b[0] {
      assert a == [a[0]] + a[1..] && b == [b[0]] + b[1..];
      LessTotal(a[1..], b[1..]);
    }
  }

  /** Sorted in strictly increasing order (which also means no duplicates). */
  predicate StrictlySorted(l: seq<string>) {
    forall i, j :: 0 <= i < j < |l| ==> Less(l[i], l[j])
  }

  /** The least member of a non-empty set of strings. */
  method Least(s: set<string>) returns (m: string)
    requires s != {}
    ensures m in s
    ensures forall x :: x in s && x != m ==> Less(m, x)
  {
    m :| m in s;
    var todo := s - {m};
    while todo != {}
      invariant todo <= s && m in s && m !in todo
      invariant forall x :: x in s - todo && x != m ==> Less(m, x)
      decreases todo
    {
      var x :| x in todo;
      if Less(x, m) {
        forall y | y in s - todo && y != x
          ensures Less(x, y)
        {
          if y != m { LessTransitive(x, m, y); }
        }
        m := x;
      } else if x != m {
        LessTotal(x, m);
      }
      todo := todo - {x};
    }
  }

  /** `new ArrayList<>(set)` followed by Collections.sort. */
  method SortedList(s: set<string>) returns (l: seq<string>)
    ensures Elems(l) == s
    ensures StrictlySorted(l)
  {
    l := [];
    var rest := s;
    while rest != {}
      invariant rest <= s
      invariant Elems(l) == s - rest
      invariant StrictlySorted(l)
      invariant forall i, y :: 0 <= i < |l| && y in rest ==> Less(l[i], y)
      decreases rest
    {
      var m := Least(rest);
      assert Elems(l + [m]) == Elems(l) + {m};
      l := l + [m];
      rest := rest - {m};
    }
  }
}
