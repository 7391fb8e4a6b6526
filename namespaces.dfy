/** The two namespace-stripping substitutions, written out as string
    functions. Both follow Python's `re.sub`: the pattern is tried at each
    position from left to right, a match is deleted and the scan resumes
    after it, and `.` matches any character except a newline.
    - `xmlns=".*?"` (the extractor and the splitter) deletes each default
      namespace declaration `xmlns="…"`, up to the first closing quote.
    - `xmlns.*=".*?"` (the delimited parser) lets the greedy `.*` run to the
      end of the line and backtrack to the LAST `="` that still has a closing
      quote on the same line, so it also deletes everything between the
      first `xmlns` and that point: attributes, start tags and text. */
module Namespaces {
  import opened Xml
  import opened Text

  predicate StartsWith(s: string, p: string)
  {
    |p| <= |s| && s[..|p|] == p
  }

  predicate Contains(s: string, p: string)
  {
    exists i :: 0 <= i <= |s| && StartsWith(s[i..], p)
  }

  /** The lazy `.*?"` from position `i`: the index of the first `"` that
      comes before any newline. */
  function ClosingQuote(s: string, i: nat): (r: Option<nat>)
    requires i <= |s|
    ensures r.Some? ==> i <= r.value < |s| && s[r.value] == '"'
    ensures r.Some? ==> forall k :: i <= k < r.value ==> s[k] != '"' && s[k] != '\n'
    decreases |s| - i
  {
    if i == |s| || s[i] == '\n' then None
    else if s[i] == '"' then Some(i)
    else ClosingQuote(s, i + 1)
  }

  /** `xmlns=".*?"` tried at the start of `s`: the length of the match. */
  function MatchDefaultNs(s: string): (r: Option<nat>)
    ensures r.Some? ==> 8 <= r.value <= |s| && StartsWith(s, "xmlns=\"") && s[r.value - 1] == '"'
    ensures r.None? ==> !StartsWith(s, "xmlns=\"") || ClosingQuote(s, 7).None?
  {
    if StartsWith(s, "xmlns=\"") then
      match ClosingQuote(s, 7)
      case Some(q) => Some(q + 1)
      case None => None
    else None
  }

  /** `re.sub(r"xmlns=\".*?\"", "", s)`; never longer than `s`. */
  function StripDefaultNs(s: string): (r: string)
    ensures |r| <= |s|
    decreases |s|
  {
    if s == [] then ""
    else
      match MatchDefaultNs(s)
      case Some(n) => StripDefaultNs(s[n..])
      case None => [s[0]] + StripDefaultNs(s[1..])
  }

  /** The end of the line that starts at or before `i`: where the greedy
      `.*` stops before it backtracks. */
  function LineEnd(s: string, i: nat): (r: nat)
    requires i <= |s|
    ensures i <= r <= |s| && (r < |s| ==> s[r] == '\n')
    ensures forall k :: i <= k < r ==> s[k] != '\n'
    decreases |s| - i
  {
    if i == |s| || s[i] == '\n' then i else LineEnd(s, i + 1)
  }

  /** The backtracking of the greedy `.*`: tries `=".*?"` at the positions
      `p - 1`, `p - 2`, …, `lo` and returns the end of the first success. */
  function GreedyBacktrack(s: string, lo: nat, p: nat): (r: Option<nat>)
    requires lo <= p <= |s|
    ensures r.Some? ==> lo + 3 <= r.value <= |s| && s[r.value - 1] == '"'
    decreases p - lo
  {
    if p == lo then None
    else
      var c := p - 1;
      if c + 2 <= |s| && s[c] == '=' && s[c + 1] == '"' then
        match ClosingQuote(s, c + 2)
        case Some(q) => Some(q + 1)
        case None => GreedyBacktrack(s, lo, c)
      else GreedyBacktrack(s, lo, c)
  }

  /** `xmlns.*=".*?"` tried at the start of `s`: the length of the match. */
  function MatchNsGreedy(s: string): (r: Option<nat>)
    ensures r.Some? ==> 8 <= r.value <= |s| && StartsWith(s, "xmlns") && s[r.value - 1] == '"'
  {
    if StartsWith(s, "xmlns") then GreedyBacktrack(s, 5, LineEnd(s, 5)) else None
  }

  /** `re.sub(r"xmlns.*=\".*?\"", "", s)`; never longer than `s`. */
  function StripNsGreedy(s: string): (r: string)
    ensures |r| <= |s|
    decreases |s|
  {
    if s == [] then ""
    else
      match MatchNsGreedy(s)
      case Some(n) => StripNsGreedy(s[n..])
      case None => [s[0]] + StripNsGreedy(s[1..])
  }

  lemma ContainsTail(s: string, p: string)
    requires s != [] && !Contains(s, p)
    ensures !StartsWith(s, p) && !Contains(s[1..], p)
  {
    assert s[0..] == s;
    forall i | 0 <= i <= |s[1..]|
      ensures !StartsWith(s[1..][i..], p)
    {
      assert s[1..][i..] == s[i + 1..];
    }
  }

  /** A fragment without a default namespace declaration is left unchanged. */
  lemma {:induction false} StripDefaultNsIdentity(s: string)
    requires !Contains(s, "xmlns=\"")
    ensures StripDefaultNs(s) == s
  {
    if s != [] {
      ContainsTail(s, "xmlns=\"");
      StripDefaultNsIdentity(s[1..]);
      assert [s[0]] + s[1..] == s;
    }
  }

  /** A fragment without the letters `xmlns` is left unchanged. */
  lemma {:induction false} StripNsGreedyIdentity(s: string)
    requires !Contains(s, "xmlns")
    ensures StripNsGreedy(s) == s
  {
    if s != [] {
      ContainsTail(s, "xmlns");
      StripNsGreedyIdentity(s[1..]);
      assert [s[0]] + s[1..] == s;
    }
  }

  lemma ConsSplit(p: string, r: string)
    requires p != []
    ensures [p[0]] + (p[1..] + r) == p + r
  {
    assert p == [p[0]] + p[1..];
  }

  /** A prefix in which no match starts is copied unchanged, and the scan
      goes on after it. */
  lemma {:induction false} StripDefaultNsKeeps(p: string, t: string)
    requires forall i :: 0 <= i < |p| ==> MatchDefaultNs((p + t)[i..]).None?
    ensures StripDefaultNs(p + t) == p + StripDefaultNs(t)
    decreases |p|
  {
    if p != [] {
      var u := p + t;
      assert u[0..] == u && u[0] == p[0] && u[1..] == p[1..] + t;
      forall i | 0 <= i < |p[1..]| ensures MatchDefaultNs((p[1..] + t)[i..]).None? {
        assert (p[1..] + t)[i..] == u[i + 1..];
      }
      StripDefaultNsKeeps(p[1..], t);
      ConsSplit(p, StripDefaultNs(t));
    } else {
      assert p + t == t;
    }
  }

  lemma {:induction false} StripNsGreedyKeeps(p: string, t: string)
    requires forall i :: 0 <= i < |p| ==> MatchNsGreedy((p + t)[i..]).None?
    ensures StripNsGreedy(p + t) == p + StripNsGreedy(t)
    decreases |p|
  {
    if p != [] {
      var u := p + t;
      assert u[0..] == u && u[0] == p[0] && u[1..] == p[1..] + t;
      forall i | 0 <= i < |p[1..]| ensures MatchNsGreedy((p[1..] + t)[i..]).None? {
        assert (p[1..] + t)[i..] == u[i + 1..];
      }
      StripNsGreedyKeeps(p[1..], t);
      ConsSplit(p, StripNsGreedy(t));
    } else {
      assert p + t == t;
    }
  }

  /** An occurrence of `pat` that starts in `p + s` before `s` lies inside
      `p` when the first character of `s` cannot continue `pat`. */
  lemma NoStartBefore(p: string, s: string, pat: string)
    requires pat != [] && !Contains(p, pat)
    requires s == [] || s[0] !in pat[1..]
    ensures forall i :: 0 <= i < |p| ==> !StartsWith((p + s)[i..], pat)
  {
    forall i | 0 <= i < |p| ensures !StartsWith((p + s)[i..], pat) {
      var w := (p + s)[i..];
      if i + |pat| <= |p| {
        assert w[..|pat|] == p[i..][..|pat|];
        assert !StartsWith(p[i..], pat);
      } else if |pat| <= |w| {
        var j := |p| - i;
        assert w[..|pat|][j] == s[0];
        assert pat[j] == pat[1..][j - 1];
      }
    }
  }

  /** Where `p` holds no `xmlns="` and `s` starts with `x` or is empty, no
      match of the extractor's pattern starts in `p + s` before `s`. */
  lemma NoDefaultNsBefore(p: string, s: string)
    requires !Contains(p, "xmlns=\"") && (s == [] || s[0] == 'x')
    ensures forall i :: 0 <= i < |p| ==> MatchDefaultNs((p + s)[i..]).None?
  {
    assert "xmlns=\""[1..] == "mlns=\"";
    NoStartBefore(p, s, "xmlns=\"");
  }

  /** The same for the parser's pattern: `p` holds no `xmlns`, and `s`
      starts with `x` or a newline or is empty. */
  lemma NoNsGreedyBefore(p: string, s: string)
    requires !Contains(p, "xmlns") && (s == [] || s[0] == 'x' || s[0] == '\n')
    ensures forall i :: 0 <= i < |p| ==> MatchNsGreedy((p + s)[i..]).None?
  {
    assert "xmlns"[1..] == "mlns";
    NoStartBefore(p, s, "xmlns");
  }

  /** The lazy `.*?"` stops at the first quote. */
  lemma {:induction false} ClosingQuoteAt(s: string, i: nat, j: nat)
    requires i <= j < |s| && s[j] == '"'
    requires forall k :: i <= k < j ==> s[k] != '"' && s[k] != '\n'
    ensures ClosingQuote(s, i) == Some(j)
    decreases j - i
  {
    if i < j {
      ClosingQuoteAt(s, i + 1, j);
    }
  }

  /** The lazy `.*?"` fails when no quote comes before the end of the line. */
  lemma {:induction false} ClosingQuoteNone(s: string, i: nat, j: nat)
    requires i <= j <= |s| && (j == |s| || s[j] == '\n')
    requires forall k :: i <= k < j ==> s[k] != '"'
    ensures ClosingQuote(s, i).None?
    decreases j - i
  {
    if i < j && s[i] != '\n' {
      ClosingQuoteNone(s, i + 1, j);
    }
  }

  /** The line that goes on at `i` ends at the newline (or the end) at `j`. */
  lemma {:induction false} LineEndAt(s: string, i: nat, j: nat)
    requires i <= j <= |s| && (j == |s| || s[j] == '\n')
    requires forall k :: i <= k < j ==> s[k] != '\n'
    ensures LineEnd(s, i) == j
    decreases j - i
  {
    if i < j {
      LineEndAt(s, i + 1, j);
    }
  }

  /** The greedy `.*` backtracks to the last `="` before `p` that opens a
      closed quote: the `="` after it, if any, are not closed. */
  lemma {:induction false} GreedyBacktrackAt(s: string, lo: nat, p: nat, c: nat)
    requires lo <= c < p <= |s| && c + 2 <= |s| && s[c] == '=' && s[c + 1] == '"'
    requires ClosingQuote(s, c + 2).Some?
    requires forall k :: c < k < p && k + 2 <= |s| && s[k] == '=' && s[k + 1] == '"' ==> ClosingQuote(s, k + 2).None?
    ensures GreedyBacktrack(s, lo, p) == Some(ClosingQuote(s, c + 2).value + 1)
    decreases p - c
  {
    if p - 1 > c {
      GreedyBacktrackAt(s, lo, p - 1, c);
    }
  }

  /** The extractor's and the splitter's pattern deletes a default namespace
      declaration `xmlns="uri"` and nothing before it, and the scan resumes
      right after it; text without further declarations is kept as it is. */
  lemma StripDefaultNsRemovesDeclaration(pre: string, uri: string, rest: string)
    requires !Contains(pre, "xmlns=\"") && '"' !in uri && '\n' !in uri
    ensures StripDefaultNs(pre + ("xmlns=\"" + uri + "\"") + rest) == pre + StripDefaultNs(rest)
    ensures !Contains(rest, "xmlns=\"") ==> StripDefaultNs(pre + ("xmlns=\"" + uri + "\"") + rest) == pre + rest
  {
    var m := "xmlns=\"" + uri + "\"";
    var s := m + rest;
    assert MatchDefaultNs(s) == Some(|m|) by {
      DefaultNsMatchDeclaration(uri, rest);
    }
    assert StripDefaultNs(s) == StripDefaultNs(rest) by {
      assert s[|m|..] == rest;
    }
    assert StripDefaultNs(pre + s) == pre + StripDefaultNs(rest) by {
      NoDefaultNsBefore(pre, s);
      StripDefaultNsKeeps(pre, s);
    }
    StringAssoc(pre, m, rest);
    if !Contains(rest, "xmlns=\"") {
      StripDefaultNsIdentity(rest);
    }
  }

  /** `xmlns=".*?"` matches a whole declaration whose value has no quote
      and no newline. */
  lemma DefaultNsMatchDeclaration(uri: string, rest: string)
    requires '"' !in uri && '\n' !in uri
    ensures MatchDefaultNs("xmlns=\"" + uri + "\"" + rest) == Some(|uri| + 8)
  {
    var s := "xmlns=\"" + uri + "\"" + rest;
    assert s[..7] == "xmlns=\"";
    forall k | 7 <= k < 7 + |uri| ensures s[k] != '"' && s[k] != '\n' {
      assert s[k] == uri[k - 7] && uri[k - 7] in uri;
    }
    assert s[7 + |uri|] == '"';
    ClosingQuoteAt(s, 7, 7 + |uri|);
  }

  /** The greedy match of a text that starts with `xmlns`, where `c` is the
      last `="` on the first line whose quote is closed, at `q`. */
  lemma GreedyMatchAt(s: string, c: nat, q: nat)
    requires StartsWith(s, "xmlns")
    requires 5 <= c && c + 2 <= q < |s| && s[c] == '=' && s[c + 1] == '"' && s[q] == '"'
    requires forall k :: 5 <= k < q ==> s[k] != '\n'
    requires forall k :: c + 2 <= k < q ==> s[k] != '"'
    requires forall k :: c < k < LineEnd(s, 5) && k + 2 <= |s| && s[k] == '=' && s[k + 1] == '"' ==> ClosingQuote(s, k + 2).None?
    ensures MatchNsGreedy(s) == Some(q + 1)
  {
    ClosingQuoteAt(s, c + 2, q);
    GreedyBacktrackAt(s, 5, LineEnd(s, 5), c);
  }

  /** No `="` in `t` opens a value that a later quote in `t` closes. */
  predicate NoClosedValue(t: string)
  {
    forall k :: 0 <= k < |t| - 1 && t[k] == '=' && t[k + 1] == '"' ==> '"' !in t[k + 2..]
  }

  /** The layout of `h + ="` + `t` + `more`, where `h` starts with `xmlns`
      and the value opened after `h` closes at `t[n]`: the indices
      `GreedyMatchIndex` needs. */
  lemma LayoutLineEnd(h: string, t: string, more: string, s: string, n: nat)
    requires s == h + "=\"" + t + more && StartsWith(h, "xmlns")
    requires '\n' !in h && '\n' !in t && (more == [] || more[0] == '\n')
    requires n < |t| && t[n] == '"' && (forall k :: 0 <= k < n ==> t[k] != '"')
    requires NoClosedValue(t)
    ensures StartsWith(s, "xmlns") && s[|h|] == '=' && s[|h| + 1] == '"'
    ensures |h| + 2 + |t| <= |s| && LineEnd(s, 5) == |h| + 2 + |t|
    ensures s[|h| + 2 + n] == '"' && forall k :: |h| + 2 <= k < |h| + 2 + n ==> s[k] != '"'
    ensures NoClosedValue(s[|h| + 2..|h| + 2 + |t|])
  {
    var c, e := |h|, |h| + 2 + |t|;
    assert s[..5] == h[..5];
    assert s[c + 2..e] == t;
    forall k | 5 <= k < e ensures s[k] != '\n' {
      if k < c {
        assert s[k] == h[k] && h[k] in h;
      } else if k >= c + 2 {
        assert s[k] == t[k - c - 2] && t[k - c - 2] in t;
      }
    }
    assert e == |s| || s[e] == '\n' by {
      if e < |s| { assert s[e] == more[0]; }
    }
    LineEndAt(s, 5, e);
    forall k | c + 2 <= k < c + 2 + n ensures s[k] != '"' {
      assert s[k] == t[k - c - 2];
    }
    assert s[c + 2 + n] == t[n];
  }

  /** In a text whose first line ends at `e`, no `="` between `c + 2` and
      `e` opens a value closed on the line. */
  lemma LayoutNoClosedValue(s: string, c: nat, e: nat)
    requires c + 2 <= e <= |s| && (e == |s| || s[e] == '\n')
    requires NoClosedValue(s[c + 2..e])
    ensures forall k :: c + 2 <= k < e && k + 2 <= |s| && s[k] == '=' && s[k + 1] == '"' ==> ClosingQuote(s, k + 2).None?
  {
    var t := s[c + 2..e];
    forall k | c + 2 <= k < e && k + 2 <= |s| && s[k] == '=' && s[k + 1] == '"'
      ensures ClosingQuote(s, k + 2).None?
    {
      var j := k - c - 2;
      assert k + 1 < e;
      assert t[j] == '=' && t[j + 1] == '"';
      assert '"' !in t[j + 2..];
      forall x | k + 2 <= x < e ensures s[x] != '"' {
        assert s[x] == t[j + 2..][x - k - 2];
      }
      ClosingQuoteNone(s, k + 2, e);
    }
  }

  /** The greedy match of a text that starts with `xmlns` and whose first
      line ends at `e`, where the value opened by `="` at `c` closes at
      `c + 2 + n` and nothing after it on the line has a closed value. */
  lemma GreedyMatchIndex(s: string, c: nat, e: nat, n: nat)
    requires StartsWith(s, "xmlns") && 5 <= c && c + 2 + n < e <= |s|
    requires s[c] == '=' && s[c + 1] == '"' && LineEnd(s, 5) == e
    requires s[c + 2 + n] == '"' && forall k :: c + 2 <= k < c + 2 + n ==> s[k] != '"'
    requires NoClosedValue(s[c + 2..e])
    ensures MatchNsGreedy(s) == Some(c + 3 + n)
  {
    assert forall k :: c < k < e && k + 2 <= |s| && s[k] == '=' && s[k + 1] == '"' ==> ClosingQuote(s, k + 2).None? by {
      LayoutNoClosedValue(s, c, e);
      forall k | c < k < e && k + 2 <= |s| && s[k] == '=' && s[k + 1] == '"'
        ensures ClosingQuote(s, k + 2).None?
      {
        assert k != c + 1;
      }
    }
    GreedyMatchAt(s, c, c + 2 + n);
  }

  /** The greedy match of `h + ="` + `t` + `more`, where `h` starts with
      `xmlns`, the value opened after `h` closes at `t[n]`, and nothing
      later on the line has a closed value. */
  lemma GreedyMatchLine(h: string, t: string, more: string, n: nat)
    requires StartsWith(h, "xmlns") && '\n' !in h && '\n' !in t && (more == [] || more[0] == '\n')
    requires n < |t| && t[n] == '"' && (forall k :: 0 <= k < n ==> t[k] != '"')
    requires NoClosedValue(t)
    ensures MatchNsGreedy(h + "=\"" + t + more) == Some(|h| + 3 + n)
  {
    var s := h + "=\"" + t + more;
    LayoutLineEnd(h, t, more, s, n);
    GreedyMatchIndex(s, |h|, |h| + 2 + |t|, n);
  }

  /** Where the parser's greedy pattern stops: a declaration followed on the
      same line by any text `mid` and an attribute value `="v"` is matched
      through that value's closing quote, when no `="` after it on the line
      has a closed value. */
  lemma GreedyMatchThrough(uri: string, mid: string, v: string, tail: string, more: string)
    requires '\n' !in uri && '\n' !in mid && '"' !in v && '\n' !in v && '\n' !in tail
    requires more == [] || more[0] == '\n'
    requires NoClosedValue(v + "\"" + tail)
    ensures var m := "xmlns=\"" + uri + "\"" + mid + "=\"" + v + "\"";
      MatchNsGreedy(m + tail + more) == Some(|m|)
  {
    var h := "xmlns=\"" + uri + "\"" + mid;
    var t := v + "\"" + tail;
    assert StartsWith(h, "xmlns") by {
      assert h[..5] == "xmlns";
    }
    forall k | 0 <= k < |v| ensures t[k] != '"' {
      assert t[k] == v[k] && v[k] in v;
    }
    assert t[|v|] == '"';
    GreedyMatchLine(h, t, more, |v|);
    assert h + "=\"" + t + more == "xmlns=\"" + uri + "\"" + mid + "=\"" + v + "\"" + tail + more;
  }

  /** The parser's greedy pattern deletes the declaration together with all
      text after it on the same line, start tags, text and attributes
      alike, up to the last closed attribute value; the scan resumes after
      it, and a rest of the line without `xmlns` is kept as it is. */
  lemma StripNsGreedyRemovesThrough(pre: string, uri: string, mid: string, v: string, tail: string, more: string)
    requires !Contains(pre, "xmlns")
    requires '\n' !in uri && '\n' !in mid && '"' !in v && '\n' !in v && '\n' !in tail
    requires more == [] || more[0] == '\n'
    requires NoClosedValue(v + "\"" + tail)
    ensures var m := "xmlns=\"" + uri + "\"" + mid + "=\"" + v + "\"";
      StripNsGreedy(pre + m + tail + more) == pre + StripNsGreedy(tail + more)
    ensures var m := "xmlns=\"" + uri + "\"" + mid + "=\"" + v + "\"";
      !Contains(tail, "xmlns") ==> StripNsGreedy(pre + m + tail + more) == pre + tail + StripNsGreedy(more)
  {
    var m := "xmlns=\"" + uri + "\"" + mid + "=\"" + v + "\"";
    var r := tail + more;
    var s := m + r;
    assert MatchNsGreedy(s) == Some(|m|) by {
      GreedyMatchThrough(uri, mid, v, tail, more);
      StringAssoc(m, tail, more);
    }
    assert StripNsGreedy(s) == StripNsGreedy(r) by {
      assert s[|m|..] == r;
    }
    assert StripNsGreedy(pre + s) == pre + StripNsGreedy(r) by {
      NoNsGreedyBefore(pre, s);
      StripNsGreedyKeeps(pre, s);
    }
    assert pre + m + tail + more == pre + s by {
      StringAssoc(pre + m, tail, more);
      StringAssoc(pre, m, r);
    }
    if !Contains(tail, "xmlns") {
      assert StripNsGreedy(r) == tail + StripNsGreedy(more) by {
        NoNsGreedyBefore(tail, more);
        StripNsGreedyKeeps(tail, more);
      }
      StringAssoc(pre, tail, StripNsGreedy(more));
    }
  }
}
