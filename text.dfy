/** String helpers: concatenation of a list of strings and Python's
    `str.split` with a one-character separator. */
module Text {

  /** The concatenation of `ss` in order, as a loop of `+=` builds it. */
  function Concat(ss: seq<string>): string
  {
    if ss == [] then "" else Concat(ss[..|ss| - 1]) + ss[|ss| - 1]
  }

  lemma ConcatSnoc(ss: seq<string>, s: string)
    ensures Concat(ss + [s]) == Concat(ss) + s
  {
    assert (ss + [s])[..|ss|] == ss;
  }

  lemma {:induction false} ConcatAppend(a: seq<string>, b: seq<string>)
    ensures Concat(a + b) == Concat(a) + Concat(b)
  {
    if b == [] {
      assert a + b == a;
    } else {
      var front := b[..|b| - 1];
      assert (a + b)[..|a + b| - 1] == a + front;
      assert (a + b)[|a + b| - 1] == b[|b| - 1];
      ConcatAppend(a, front);
      StringAssoc(Concat(a), Concat(front), b[|b| - 1]);
    }
  }

  /** Regrouping a chain of three `+=` writes. */
  lemma StringAssoc(a: string, b: string, c: string)
    ensures (a + b) + c == a + (b + c)
  {
  }

  /** Python's `s.split(d)`: the pieces of `s` between occurrences of `d`. */
  function SplitOn(s: string, d: char): (r: seq<string>)
    ensures |r| >= 1
  {
    if s == [] then [""]
    else if s[0] == d then [""] + SplitOn(s[1..], d)
    else
      var rest := SplitOn(s[1..], d);
      [[s[0]] + rest[0]] + rest[1..]
  }

  /** Splitting at one occurrence of the separator splits the two sides
      independently. */
  lemma {:induction false} SplitOnAt(a: string, b: string, d: char)
    ensures SplitOn(a + [d] + b, d) == SplitOn(a, d) + SplitOn(b, d)
  {
    if a == [] {
      assert a + [d] + b == [d] + b;
      assert ([d] + b)[1..] == b;
    } else {
      assert (a + [d] + b)[1..] == a[1..] + [d] + b;
      SplitOnAt(a[1..], b, d);
    }
  }

  /** A string without the separator is a single piece. */
  lemma {:induction false} SplitOnWithout(s: string, d: char)
    requires d !in s
    ensures SplitOn(s, d) == [s]
  {
    if s != [] {
      assert d !in s[1..];
      SplitOnWithout(s[1..], d);
      assert [s[0]] + s[1..] == s;
    }
  }

  /** The first piece of `s.split(d)` is the longest prefix of `s` without
      `d`: all of `s` when `d` does not occur. */
  lemma {:induction false} SplitOnFirst(s: string, d: char)
    ensures var p := SplitOn(s, d)[0];
      p <= s && d !in p && (|p| == |s| || s[|p|] == d)
  {
    if s != [] && s[0] != d {
      SplitOnFirst(s[1..], d);
      var rest := SplitOn(s[1..], d)[0];
      assert SplitOn(s, d)[0] == [s[0]] + rest;
      assert s == [s[0]] + s[1..];
    }
  }
}
