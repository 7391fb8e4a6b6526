/** The whole-element extractor (xml2bar_extractor.py). A field list
    yields the serialised matches of its expressions, run together with no
    delimiter; in whole-element mode the walk of an element stops at the
    first template key after which the output is non-empty, and a record
    with a non-empty extraction is emitted as its own (namespace-stripped)
    fragment.

    The model follows the evident intent of two lines of `process_element`
    that the source gets wrong (see `ProcessElementAsWritten`):
    - lines 100 and 107 call `process_element(x, val)` without the
      `is_whole_element` argument, so any nested template raises a
      `TypeError`; the model passes the flag down;
    - line 110 returns the global `output_file` (the output path) instead of
      the accumulated `output_line`; the model returns `output_line`. */
module BarExtractor {
  import opened Xml
  import opened Text
  import opened Namespaces

  /** The serialisations of `ms` in order, with no delimiter. */
  function Serialized(ser: Serializer, ms: seq<Element>): string
  {
    if ms == [] then "" else Serialized(ser, ms[..|ms| - 1]) + ser(ms[|ms| - 1])
  }

  /** What one expression adds: nothing for an empty expression, the
      serialisation of every match otherwise. */
  function Contribution(ser: Serializer, sel: Selector, e: Element, expr: string): string
  {
    if expr == "" then "" else Serialized(ser, sel(e, expr))
  }

  /** What `write_line(key, e, exprs)` returns: the contributions of the
      expressions in list order. The key is not used. */
  function RawLine(ser: Serializer, sel: Selector, e: Element, exprs: seq<string>): string
  {
    if exprs == [] then ""
    else RawLine(ser, sel, e, exprs[..|exprs| - 1]) + Contribution(ser, sel, e, exprs[|exprs| - 1])
  }

  /** `process_element(e, t, whole)` on one element. */
  function Walk(ser: Serializer, sel: Selector, e: Element, t: Template, whole: bool): string
    decreases t, 2, 0
  {
    WalkPrefix(ser, sel, e, t, |t.entries|, whole)
  }

  /** The output after the first `n` entries; in whole-element mode an
      output that is already non-empty is left as it is (the loop has
      stopped). */
  function WalkPrefix(ser: Serializer, sel: Selector, e: Element, t: Template, n: nat, whole: bool): string
    requires n <= |t.entries|
    decreases t, 1, n
  {
    if n == 0 then ""
    else
      var prev := WalkPrefix(ser, sel, e, t, n - 1, whole);
      if whole && prev != "" then prev else prev + EntryOutput(ser, sel, e, t, n - 1, whole)
  }

  function EntryOutput(ser: Serializer, sel: Selector, e: Element, t: Template, i: nat, whole: bool): string
    requires i < |t.entries|
    decreases t, 0, 0
  {
    var en := t.entries[i];
    match en.val
    case FieldList(exprs) => RawLine(ser, sel, e, exprs)
    case Nested(sub) => WalkAll(ser, sel, sel(e, en.key), sub, whole)
    case Other => ""
  }

  /** `process_element(es, t, whole)` on a list: every element, in order
      (this loop has no early exit). */
  function WalkAll(ser: Serializer, sel: Selector, es: seq<Element>, t: Template, whole: bool): string
    decreases t, 3, |es|
  {
    if es == [] then ""
    else WalkAll(ser, sel, es[..|es| - 1], t, whole) + Walk(ser, sel, es[|es| - 1], t, whole)
  }

  /** `start_processing_element`: strip the default namespace, parse, walk;
      in whole-element mode a non-empty extraction is replaced by the
      stripped fragment itself. A record fails exactly when its stripped
      fragment does not parse, and in whole-element mode a record yields
      either nothing or its stripped fragment, never longer than the
      original. */
  function StartProcessing(parse: FragmentParser, ser: Serializer, sel: Selector, fragment: string,
                           t: Template, whole: bool): (r: Result<string>)
    ensures r.Err? <==> parse(StripDefaultNs(fragment)).None?
    ensures r.Err? ==> r.error == FragmentParseError
    ensures whole && r.Ok? ==> r.value == "" || r.value == StripDefaultNs(fragment)
    ensures whole && r.Ok? ==> |r.value| <= |fragment|
  {
    var s := StripDefaultNs(fragment);
    match parse(s)
    case None => Err(FragmentParseError)
    case Some(root) =>
      var r := Walk(ser, sel, root, t, whole);
      if whole && r != "" then Ok(s) else Ok(r)
  }

  /** How the main loop writes one result: enveloped in the root tag when it
      is non-empty outside whole-element mode, verbatim otherwise. */
  function Frame(r: string, rootTag: string, whole: bool): string
  {
    if r != "" && !whole then Envelope(r, rootTag) else r
  }

  /** The per-record envelope written around a result. */
  function Envelope(r: string, rootTag: string): string
  {
    "<" + rootTag + ">\n" + r + "\n" + "</" + rootTag + ">\n"
  }

  /** What the main loop writes for the results `rs`, between the two
      wrapper tags. */
  function Framed(rs: seq<string>, rootTag: string, whole: bool): string
  {
    if rs == [] then "" else Framed(rs[..|rs| - 1], rootTag, whole) + Frame(rs[|rs| - 1], rootTag, whole)
  }

  function NonEmptyCount(rs: seq<string>): nat
  {
    if rs == [] then 0 else NonEmptyCount(rs[..|rs| - 1]) + (if rs[|rs| - 1] != "" then 1 else 0)
  }

  // ---------------------------------------------------------------------
  // The imperative code
  // ---------------------------------------------------------------------

  /** `write_line`: one loop collects the serialised matches, a second one
      concatenates them. */
  method WriteLine(ser: Serializer, sel: Selector, lineNo: string, element: Element, valuesToWrite: seq<string>)
    returns (text: string)
    ensures text == RawLine(ser, sel, element, valuesToWrite)
  {
    var values: seq<string> := [];
    var i := 0;
    while i < |valuesToWrite|
      invariant 0 <= i <= |valuesToWrite|
      invariant Concat(values) == RawLine(ser, sel, element, valuesToWrite[..i])
    {
      RawLineSnoc(ser, sel, element, valuesToWrite, i);
      var value := valuesToWrite[i];
      if value == "" {
        assert Contribution(ser, sel, element, value) == "";
        ConcatSnoc(values, "");
        values := values + [""];
      } else {
        var child := sel(element, value);
        assert Contribution(ser, sel, element, value) == Serialized(ser, child);
        ghost var before := RawLine(ser, sel, element, valuesToWrite[..i]);
        var j := 0;
        while j < |child|
          invariant 0 <= j <= |child|
          invariant Concat(values) == before + Serialized(ser, child[..j])
        {
          SerializedSnoc(ser, child, j);
          ConcatSnoc(values, ser(child[j]));
          StringAssoc(before, Serialized(ser, child[..j]), ser(child[j]));
          values := values + [ser(child[j])];
          j := j + 1;
        }
        assert child[..j] == child;
        assert Concat(values) == before + Contribution(ser, sel, element, value);
      }
      i := i + 1;
    }
    assert valuesToWrite[..i] == valuesToWrite;
    text := JoinValues(values);
  }

  /** The second loop of `write_line`: the collected strings run together. */
  method JoinValues(values: seq<string>) returns (text: string)
    ensures text == Concat(values)
  {
    text := "";
    var k := 0;
    while k < |values|
      invariant 0 <= k <= |values|
      invariant text == Concat(values[..k])
    {
      assert values[..k + 1][..k] == values[..k];
      text := text + values[k];
      k := k + 1;
    }
    assert values[..k] == values;
  }

  /** `process_element` on one element: the loop over the template entries,
      left as soon as whole-element mode has a non-empty output. */
  method ProcessElement(ser: Serializer, sel: Selector, elem: Element, path: Template, isWholeElement: bool)
    returns (outputLine: string)
    ensures outputLine == Walk(ser, sel, elem, path, isWholeElement)
    decreases path, 2, 0
  {
    outputLine := "";
    var i := 0;
    while i < |path.entries|
      invariant 0 <= i <= |path.entries|
      invariant outputLine == WalkPrefix(ser, sel, elem, path, i, isWholeElement)
      invariant isWholeElement ==> outputLine == ""
    {
      var en := path.entries[i];
      match en.val {
        case FieldList(exprs) =>
          var line := WriteLine(ser, sel, en.key, elem, exprs);
          outputLine := outputLine + line;
        case Nested(sub) =>
          var tempElem := sel(elem, en.key);
          // the source drops `is_whole_element` here (line 107)
          var part := ProcessElementList(ser, sel, tempElem, sub, isWholeElement);
          outputLine := outputLine + part;
        case Other =>
      }
      i := i + 1;
      if isWholeElement && outputLine != "" {
        WholeStopsAt(ser, sel, elem, path, i, |path.entries|);
        break;
      }
    }
    // the source returns `output_file` here (line 110)
  }

  /** `process_element` on a list of elements. */
  method ProcessElementList(ser: Serializer, sel: Selector, elems: seq<Element>, path: Template, isWholeElement: bool)
    returns (outputLine: string)
    ensures outputLine == WalkAll(ser, sel, elems, path, isWholeElement)
    decreases path, 3, |elems|
  {
    outputLine := "";
    var i := 0;
    while i < |elems|
      invariant 0 <= i <= |elems|
      invariant outputLine == WalkAll(ser, sel, elems[..i], path, isWholeElement)
    {
      assert elems[..i + 1][..i] == elems[..i];
      // the source drops `is_whole_element` here (line 100)
      var part := ProcessElement(ser, sel, elems[i], path, isWholeElement);
      outputLine := outputLine + part;
      i := i + 1;
    }
    assert elems[..i] == elems;
  }

  /** The main loop of the parallel branch (lines 146-160) over the results
      in pool delivery order: the wrapper tag, every result framed, the
      wrapper tag again; every result is counted, the empty ones included. */
  method WriteOutput(results: seq<string>, rootTag: string, wrapperTag: string, isWholeElement: bool)
    returns (written: string, counter: nat)
    ensures written == wrapperTag + Framed(results, rootTag, isWholeElement) + wrapperTag
    ensures counter == |results|
  {
    written := wrapperTag;
    counter := 0;
    ghost var body := "";
    while counter < |results|
      invariant counter <= |results|
      invariant body == Framed(results[..counter], rootTag, isWholeElement)
      invariant written == wrapperTag + body
    {
      var result := results[counter];
      ghost var before := written;
      if result != "" && !isWholeElement {
        written := written + ("<" + rootTag + ">\n");
        written := written + (result + "\n");
        written := written + ("</" + rootTag + ">\n");
        EnvelopeWritten(before, result, rootTag);
      } else {
        written := written + result;
      }
      ghost var piece := Frame(result, rootTag, isWholeElement);
      assert written == before + piece;
      assert written == wrapperTag + (body + piece) by {
        StringAssoc(wrapperTag, body, piece);
      }
      assert body + piece == Framed(results[..counter + 1], rootTag, isWholeElement) by {
        FramedSnoc(results, counter, rootTag, isWholeElement);
      }
      body := body + piece;
      counter := counter + 1;
    }
    assert results[..counter] == results;
    written := written + wrapperTag;
  }

  lemma RawLineSnoc(ser: Serializer, sel: Selector, e: Element, exprs: seq<string>, i: nat)
    requires i < |exprs|
    ensures RawLine(ser, sel, e, exprs[..i + 1]) == RawLine(ser, sel, e, exprs[..i]) + Contribution(ser, sel, e, exprs[i])
  {
    assert exprs[..i + 1][..i] == exprs[..i];
  }

  lemma SerializedSnoc(ser: Serializer, ms: seq<Element>, j: nat)
    requires j < |ms|
    ensures Serialized(ser, ms[..j + 1]) == Serialized(ser, ms[..j]) + ser(ms[j])
  {
    assert ms[..j + 1][..j] == ms[..j];
  }

  lemma EnvelopeWritten(before: string, r: string, rootTag: string)
    ensures before + ("<" + rootTag + ">\n") + (r + "\n") + ("</" + rootTag + ">\n") == before + Envelope(r, rootTag)
  {
  }

  lemma FramedSnoc(rs: seq<string>, i: nat, rootTag: string, whole: bool)
    requires i < |rs|
    ensures Framed(rs[..i + 1], rootTag, whole) == Framed(rs[..i], rootTag, whole) + Frame(rs[i], rootTag, whole)
  {
    assert rs[..i + 1][..i] == rs[..i];
  }

  // ---------------------------------------------------------------------
  // Properties
  // ---------------------------------------------------------------------

  lemma {:induction false} SerializedAppend(ser: Serializer, a: seq<Element>, b: seq<Element>)
    ensures Serialized(ser, a + b) == Serialized(ser, a) + Serialized(ser, b)
  {
    if b == [] {
      assert a + b == a;
    } else {
      var front := b[..|b| - 1];
      assert (a + b)[..|a + b| - 1] == a + front;
      assert (a + b)[|a + b| - 1] == b[|b| - 1];
      SerializedAppend(ser, a, front);
      StringAssoc(Serialized(ser, a), Serialized(ser, front), ser(b[|b| - 1]));
    }
  }

  /** With serialisations that are never empty, the serialised matches are
      empty exactly when there is no match. */
  lemma SerializedEmptyIff(ser: Serializer, ms: seq<Element>)
    requires forall n :: ser(n) != ""
    ensures Serialized(ser, ms) == "" <==> ms == []
  {
    if ms != [] {
      assert |ser(ms[|ms| - 1])| > 0;
    }
  }

  /** `write_line` is the in-order concatenation of the contributions of
      its expressions. */
  lemma {:induction false} RawLineAppend(ser: Serializer, sel: Selector, e: Element, a: seq<string>, b: seq<string>)
    ensures RawLine(ser, sel, e, a + b) == RawLine(ser, sel, e, a) + RawLine(ser, sel, e, b)
  {
    if b == [] {
      assert a + b == a;
    } else {
      var front := b[..|b| - 1];
      assert (a + b)[..|a + b| - 1] == a + front;
      assert (a + b)[|a + b| - 1] == b[|b| - 1];
      RawLineAppend(ser, sel, e, a, front);
      StringAssoc(RawLine(ser, sel, e, a), RawLine(ser, sel, e, front), Contribution(ser, sel, e, b[|b| - 1]));
    }
  }

  /** `write_line` returns "" when no expression matches anything, whatever
      the serialiser. */
  lemma {:induction false} RawLineEmptyIf(ser: Serializer, sel: Selector, e: Element, exprs: seq<string>)
    requires forall i :: 0 <= i < |exprs| ==> exprs[i] == "" || sel(e, exprs[i]) == []
    ensures RawLine(ser, sel, e, exprs) == ""
  {
    if exprs != [] {
      RawLineEmptyIf(ser, sel, e, exprs[..|exprs| - 1]);
    }
  }

  /** `write_line` returns "" exactly when no expression matches anything
      (given that a serialised element is never empty). */
  lemma {:induction false} RawLineEmptyIff(ser: Serializer, sel: Selector, e: Element, exprs: seq<string>)
    requires forall n :: ser(n) != ""
    ensures RawLine(ser, sel, e, exprs) == "" <==> forall i :: 0 <= i < |exprs| ==> exprs[i] == "" || sel(e, exprs[i]) == []
  {
    if exprs != [] {
      var front := exprs[..|exprs| - 1];
      var last := exprs[|exprs| - 1];
      RawLineEmptyIff(ser, sel, e, front);
      if last != "" {
        SerializedEmptyIff(ser, sel(e, last));
      }
      assert forall i :: 0 <= i < |front| ==> front[i] == exprs[i];
    }
  }

  /** In whole-element mode, once the output is non-empty no later entry is
      visited. */
  lemma {:induction false} WholeStopsAt(ser: Serializer, sel: Selector, e: Element, t: Template, i: nat, n: nat)
    requires i <= n <= |t.entries|
    requires WalkPrefix(ser, sel, e, t, i, true) != ""
    ensures WalkPrefix(ser, sel, e, t, n, true) == WalkPrefix(ser, sel, e, t, i, true)
    decreases n
  {
    if i < n {
      WholeStopsAt(ser, sel, e, t, i, n - 1);
    }
  }

  lemma {:induction false} WalkPrefixOfAppend(ser: Serializer, sel: Selector, e: Element, a: seq<Entry>, b: seq<Entry>, n: nat, whole: bool)
    requires n <= |a|
    ensures WalkPrefix(ser, sel, e, Template(a + b), n, whole) == WalkPrefix(ser, sel, e, Template(a), n, whole)
  {
    if n > 0 {
      WalkPrefixOfAppend(ser, sel, e, a, b, n - 1, whole);
      assert (a + b)[n - 1] == a[n - 1];
    }
  }

  lemma {:induction false} WalkPrefixOfAppendTail(ser: Serializer, sel: Selector, e: Element, a: seq<Entry>, b: seq<Entry>, m: nat)
    requires m <= |b|
    ensures WalkPrefix(ser, sel, e, Template(a + b), |a| + m, false)
         == Walk(ser, sel, e, Template(a), false) + WalkPrefix(ser, sel, e, Template(b), m, false)
  {
    if m == 0 {
      WalkPrefixOfAppend(ser, sel, e, a, b, |a|, false);
    } else {
      WalkPrefixOfAppendTail(ser, sel, e, a, b, m - 1);
      assert (a + b)[|a| + m - 1] == b[m - 1];
      assert EntryOutput(ser, sel, e, Template(a + b), |a| + m - 1, false) == EntryOutput(ser, sel, e, Template(b), m - 1, false);
      StringAssoc(Walk(ser, sel, e, Template(a), false), WalkPrefix(ser, sel, e, Template(b), m - 1, false),
                  EntryOutput(ser, sel, e, Template(b), m - 1, false));
    }
  }

  /** Outside whole-element mode every entry is visited: the output of
      `a + b` is that of `a` followed by that of `b`. */
  lemma WalkTemplateAppend(ser: Serializer, sel: Selector, e: Element, a: seq<Entry>, b: seq<Entry>)
    ensures Walk(ser, sel, e, Template(a + b), false) == Walk(ser, sel, e, Template(a), false) + Walk(ser, sel, e, Template(b), false)
  {
    WalkPrefixOfAppendTail(ser, sel, e, a, b, |b|);
  }

  /** In whole-element mode the entries after the first ones that give a
      non-empty output are never visited. */
  lemma WholeIgnoresLaterEntries(ser: Serializer, sel: Selector, e: Element, a: seq<Entry>, b: seq<Entry>)
    requires Walk(ser, sel, e, Template(a), true) != ""
    ensures Walk(ser, sel, e, Template(a + b), true) == Walk(ser, sel, e, Template(a), true)
  {
    WalkPrefixOfAppend(ser, sel, e, a, b, |a|, true);
    WholeStopsAt(ser, sel, e, Template(a + b), |a|, |a + b|);
  }

  /** In whole-element mode the output of an element is that of its first
      entry with a non-empty output. */
  lemma {:induction false} WholeIsFirstNonEmptyEntry(ser: Serializer, sel: Selector, e: Element, t: Template, k: nat)
    requires k < |t.entries|
    requires EntryOutput(ser, sel, e, t, k, true) != ""
    requires forall j :: 0 <= j < k ==> EntryOutput(ser, sel, e, t, j, true) == ""
    ensures Walk(ser, sel, e, t, true) == EntryOutput(ser, sel, e, t, k, true)
  {
    WholeEmptyBefore(ser, sel, e, t, k);
    WholeStopsAt(ser, sel, e, t, k + 1, |t.entries|);
  }

  lemma {:induction false} WholeEmptyBefore(ser: Serializer, sel: Selector, e: Element, t: Template, k: nat)
    requires k <= |t.entries|
    requires forall j :: 0 <= j < k ==> EntryOutput(ser, sel, e, t, j, true) == ""
    ensures WalkPrefix(ser, sel, e, t, k, true) == ""
  {
    if k > 0 {
      WholeEmptyBefore(ser, sel, e, t, k - 1);
    }
  }

  /** Whole-element mode finds a non-empty output exactly when the full walk
      does. */
  lemma {:induction false} WholeNonEmptyIff(ser: Serializer, sel: Selector, e: Element, t: Template)
    ensures Walk(ser, sel, e, t, true) != "" <==> Walk(ser, sel, e, t, false) != ""
    decreases t, 2, 0
  {
    WholePrefixNonEmptyIff(ser, sel, e, t, |t.entries|);
  }

  lemma {:induction false} WholePrefixNonEmptyIff(ser: Serializer, sel: Selector, e: Element, t: Template, n: nat)
    requires n <= |t.entries|
    ensures WalkPrefix(ser, sel, e, t, n, true) != "" <==> WalkPrefix(ser, sel, e, t, n, false) != ""
    decreases t, 1, n
  {
    if n > 0 {
      WholePrefixNonEmptyIff(ser, sel, e, t, n - 1);
      WholeEntryNonEmptyIff(ser, sel, e, t, n - 1);
    }
  }

  lemma {:induction false} WholeEntryNonEmptyIff(ser: Serializer, sel: Selector, e: Element, t: Template, i: nat)
    requires i < |t.entries|
    ensures EntryOutput(ser, sel, e, t, i, true) != "" <==> EntryOutput(ser, sel, e, t, i, false) != ""
    decreases t, 0, 0
  {
    match t.entries[i].val
    case FieldList(_) =>
    case Nested(sub) => WholeListNonEmptyIff(ser, sel, sel(e, t.entries[i].key), sub);
    case Other =>
  }

  lemma {:induction false} WholeListNonEmptyIff(ser: Serializer, sel: Selector, es: seq<Element>, t: Template)
    ensures WalkAll(ser, sel, es, t, true) != "" <==> WalkAll(ser, sel, es, t, false) != ""
    decreases t, 3, |es|
  {
    if es != [] {
      WholeListNonEmptyIff(ser, sel, es[..|es| - 1], t);
      WholeNonEmptyIff(ser, sel, es[|es| - 1], t);
    }
  }

  /** On a list the output is the outputs of its parts in list (document)
      order, in both modes. */
  lemma {:induction false} WalkAllAppend(ser: Serializer, sel: Selector, a: seq<Element>, b: seq<Element>, t: Template, whole: bool)
    ensures WalkAll(ser, sel, a + b, t, whole) == WalkAll(ser, sel, a, t, whole) + WalkAll(ser, sel, b, t, whole)
  {
    if b == [] {
      assert a + b == a;
    } else {
      assert (a + b)[..|a + b| - 1] == a + b[..|b| - 1];
      assert (a + b)[|a + b| - 1] == b[|b| - 1];
      WalkAllAppend(ser, sel, a, b[..|b| - 1], t, whole);
    }
  }

  /** `start_processing_element`: outside whole-element mode the result is
      the extraction; in whole-element mode it is the stripped fragment when
      the full extraction is non-empty, and "" otherwise. */
  lemma StartProcessingResult(parse: FragmentParser, ser: Serializer, sel: Selector, fragment: string, t: Template, root: Element)
    requires parse(StripDefaultNs(fragment)) == Some(root)
    ensures StartProcessing(parse, ser, sel, fragment, t, false) == Ok(Walk(ser, sel, root, t, false))
    ensures StartProcessing(parse, ser, sel, fragment, t, true)
         == Ok(if Walk(ser, sel, root, t, false) != "" then StripDefaultNs(fragment) else "")
  {
    WholeNonEmptyIff(ser, sel, root, t);
  }

  /** Whole-element mode emits a record without a default namespace
      declaration byte for byte. */
  lemma WholeModeRoundTrip(parse: FragmentParser, ser: Serializer, sel: Selector, fragment: string, t: Template, root: Element)
    requires !Contains(fragment, "xmlns=\"")
    requires parse(fragment) == Some(root)
    requires Walk(ser, sel, root, t, false) != ""
    ensures StartProcessing(parse, ser, sel, fragment, t, true) == Ok(fragment)
  {
    StripDefaultNsIdentity(fragment);
    StartProcessingResult(parse, ser, sel, fragment, t, root);
  }

  lemma {:induction false} FramedAppend(a: seq<string>, b: seq<string>, rootTag: string, whole: bool)
    ensures Framed(a + b, rootTag, whole) == Framed(a, rootTag, whole) + Framed(b, rootTag, whole)
  {
    if b == [] {
      assert a + b == a;
    } else {
      var front := b[..|b| - 1];
      assert (a + b)[..|a + b| - 1] == a + front;
      assert (a + b)[|a + b| - 1] == b[|b| - 1];
      FramedAppend(a, front, rootTag, whole);
      StringAssoc(Framed(a, rootTag, whole), Framed(front, rootTag, whole), Frame(b[|b| - 1], rootTag, whole));
    }
  }

  /** In whole-element mode the results are written verbatim, one after the
      other. */
  lemma {:induction false} FramedWhole(rs: seq<string>, rootTag: string)
    ensures Framed(rs, rootTag, true) == Concat(rs)
  {
    if rs != [] {
      FramedWhole(rs[..|rs| - 1], rootTag);
    }
  }

  /** Outside whole-element mode each non-empty result gets one envelope of
      `2 * |rootTag| + 8` characters, and an empty result is written as
      nothing. */
  lemma {:induction false} FramedLength(rs: seq<string>, rootTag: string)
    ensures |Framed(rs, rootTag, false)| == |Concat(rs)| + NonEmptyCount(rs) * (2 * |rootTag| + 8)
  {
    FramedOverhead(rs, rootTag);
    OverheadCount(rs, 2 * |rootTag| + 8);
  }

  /** The characters the envelopes add, one `w` per non-empty result. */
  function Overhead(rs: seq<string>, w: nat): nat
  {
    if rs == [] then 0 else Overhead(rs[..|rs| - 1], w) + (if rs[|rs| - 1] != "" then w else 0)
  }

  lemma {:induction false} FramedOverhead(rs: seq<string>, rootTag: string)
    ensures |Framed(rs, rootTag, false)| == |Concat(rs)| + Overhead(rs, 2 * |rootTag| + 8)
  {
    if rs != [] {
      var r := rs[|rs| - 1];
      FramedOverhead(rs[..|rs| - 1], rootTag);
      assert |Frame(r, rootTag, false)| == |r| + (if r != "" then 2 * |rootTag| + 8 else 0);
    }
  }

  lemma {:induction false} OverheadCount(rs: seq<string>, w: nat)
    ensures Overhead(rs, w) == NonEmptyCount(rs) * w
  {
    if rs != [] {
      OverheadCount(rs[..|rs| - 1], w);
      var k := NonEmptyCount(rs[..|rs| - 1]);
      assert (k + 1) * w == k * w + w;
    }
  }

  // ---------------------------------------------------------------------
  // process_element as the source writes it
  // ---------------------------------------------------------------------

  /** `process_element` as written: a nested template calls
      `process_element(temp_elem, val)` with two of its three arguments
      (line 107), which raises a `TypeError` before anything is selected
      below it; when no such entry is reached the function returns the
      output path `outputFile` (line 110) whatever it has accumulated. */
  function ProcessElementAsWritten(outputFile: string, ser: Serializer, sel: Selector, e: Element,
                                   t: Template, whole: bool): Result<string>
  {
    match AsWrittenPrefix(ser, sel, e, t, |t.entries|, whole)
    case Err(err) => Err(err)
    case Ok(_) => Ok(outputFile)
  }

  /** The as-written loop over the first `n` entries. */
  function AsWrittenPrefix(ser: Serializer, sel: Selector, e: Element, t: Template, n: nat, whole: bool): Result<string>
    requires n <= |t.entries|
  {
    if n == 0 then Ok("")
    else
      match AsWrittenPrefix(ser, sel, e, t, n - 1, whole)
      case Err(err) => Err(err)
      case Ok(prev) =>
        if whole && prev != "" then Ok(prev)
        else
          match t.entries[n - 1].val
          case FieldList(exprs) => Ok(prev + RawLine(ser, sel, e, exprs))
          case Nested(_) => Err(MissingArgumentError)
          case Other => Ok(prev)
  }

  /** `start_processing_element` over the as-written `process_element`. */
  function StartProcessingAsWritten(outputFile: string, parse: FragmentParser, ser: Serializer, sel: Selector,
                                    fragment: string, t: Template, whole: bool): Result<string>
  {
    var s := StripDefaultNs(fragment);
    match parse(s)
    case None => Err(FragmentParseError)
    case Some(root) =>
      match ProcessElementAsWritten(outputFile, ser, sel, root, t, whole)
      case Err(err) => Err(err)
      case Ok(r) => if whole && r != "" then Ok(s) else Ok(r)
  }

  /** With an empty template, every record comes out as the output path
      outside whole-element mode, and as its whole fragment in whole-element
      mode; the intended extraction is "" in both modes. */
  lemma AsWrittenReturnsOutputPath(outputFile: string, parse: FragmentParser, ser: Serializer, sel: Selector,
                                   fragment: string, root: Element)
    requires outputFile != ""
    requires parse(StripDefaultNs(fragment)) == Some(root)
    ensures StartProcessingAsWritten(outputFile, parse, ser, sel, fragment, Template([]), false) == Ok(outputFile)
    ensures StartProcessingAsWritten(outputFile, parse, ser, sel, fragment, Template([]), true) == Ok(StripDefaultNs(fragment))
    ensures StartProcessing(parse, ser, sel, fragment, Template([]), false) == Ok("")
    ensures StartProcessing(parse, ser, sel, fragment, Template([]), true) == Ok("")
  {
    assert AsWrittenPrefix(ser, sel, root, Template([]), 0, false) == Ok("");
    assert AsWrittenPrefix(ser, sel, root, Template([]), 0, true) == Ok("");
  }

  /** A template whose first entry is a nested template fails as written,
      where the intended walk applies the sub-template to the selection. */
  lemma AsWrittenNestedFails(outputFile: string, ser: Serializer, sel: Selector, e: Element,
                             key: string, sub: Template, whole: bool)
    ensures ProcessElementAsWritten(outputFile, ser, sel, e, Template([Entry(key, Nested(sub))]), whole)
         == Err(MissingArgumentError)
    ensures Walk(ser, sel, e, Template([Entry(key, Nested(sub))]), whole) == WalkAll(ser, sel, sel(e, key), sub, whole)
  {
    var t := Template([Entry(key, Nested(sub))]);
    assert AsWrittenPrefix(ser, sel, e, t, 0, whole) == Ok("");
    assert WalkPrefix(ser, sel, e, t, 0, whole) == "";
    assert "" + EntryOutput(ser, sel, e, t, 0, whole) == EntryOutput(ser, sel, e, t, 0, whole);
  }
}
