/** The delimited record extractor (xml2bar_parser.py): each record is
    namespace-stripped, parsed, and walked along the template; every field
    list becomes one `|`-delimited line, every nested template is applied to
    the elements its key selects. A leaf that has child elements aborts the
    run (`sys.exit(1)` in the source), modelled as an `Err` result. */
module BarParser {
  import opened Xml
  import opened Text
  import opened Namespaces

  /** `a + b` on two partial outputs, where the first failure wins: the
      source stops at the first error, so nothing after it is evaluated. */
  function Append(a: Result<string>, b: Result<string>): Result<string>
  {
    if a.Err? then a else if b.Err? then b else Ok(a.value + b.value)
  }

  /** The slot of one field expression: "" for an empty expression or an
      expression without a match, the text of the first match otherwise, and
      an error naming the first match when it has child elements. */
  function FieldValue(sel: Selector, e: Element, expr: string): (r: Result<string>)
    ensures r.Err? ==> r.error.ChildElementError?
  {
    if expr == "" then Ok("")
    else
      var child := sel(e, expr);
      if |child| == 0 then Ok("")
      else if |child[0].children| > 0 then Err(ChildElementError(child[0].tag))
      else Ok(TextOf(child[0]))
  }

  /** The first loop of `write_line`: the slot of every expression in
      list order, or the first error. */
  function FieldValues(sel: Selector, e: Element, exprs: seq<string>): (r: Result<seq<string>>)
    ensures r.Err? ==> r.error.ChildElementError?
  {
    if exprs == [] then Ok([])
    else
      match FieldValues(sel, e, exprs[..|exprs| - 1])
      case Err(err) => Err(err)
      case Ok(vs) =>
        match FieldValue(sel, e, exprs[|exprs| - 1])
        case Err(err) => Err(err)
        case Ok(v) => Ok(vs + [v])
  }

  /** `"|" + v` for each value, in order. */
  function Slots(vs: seq<string>): string
  {
    if vs == [] then "" else Slots(vs[..|vs| - 1]) + "|" + vs[|vs| - 1]
  }

  predicate AllEmpty(vs: seq<string>)
  {
    forall i :: 0 <= i < |vs| ==> vs[i] == ""
  }

  /** The line for one field list: the key, the slots and a newline, or "" when
      every value is empty. */
  function Line(key: string, vs: seq<string>): string
  {
    if AllEmpty(vs) then "" else key + Slots(vs) + "\n"
  }

  /** What `write_line(key, e, exprs)` returns. */
  function LineOf(sel: Selector, key: string, e: Element, exprs: seq<string>): (r: Result<string>)
    ensures r.Err? ==> r.error.ChildElementError?
  {
    match FieldValues(sel, e, exprs)
    case Err(err) => Err(err)
    case Ok(vs) => Ok(Line(key, vs))
  }

  /** `process_element(e, t)` on one element: the outputs of the template
      entries in order. */
  function Walk(sel: Selector, e: Element, t: Template): (r: Result<string>)
    ensures r.Err? ==> r.error.ChildElementError?
    decreases t, 2, 0
  {
    WalkPrefix(sel, e, t, |t.entries|)
  }

  /** The output of the first `n` entries of `t`. */
  function WalkPrefix(sel: Selector, e: Element, t: Template, n: nat): (r: Result<string>)
    requires n <= |t.entries|
    ensures r.Err? ==> r.error.ChildElementError?
    decreases t, 1, n
  {
    if n == 0 then Ok("")
    else Append(WalkPrefix(sel, e, t, n - 1), EntryOutput(sel, e, t, n - 1))
  }

  /** The output of entry `i`: a field list gives its line, a nested
      template is applied to the elements the key selects, anything else
      gives nothing. */
  function EntryOutput(sel: Selector, e: Element, t: Template, i: nat): (r: Result<string>)
    requires i < |t.entries|
    ensures r.Err? ==> r.error.ChildElementError?
    decreases t, 0, 0
  {
    var en := t.entries[i];
    match en.val
    case FieldList(exprs) => LineOf(sel, en.key, e, exprs)
    case Nested(sub) => WalkAll(sel, sel(e, en.key), sub)
    case Other => Ok("")
  }

  /** `process_element(es, t)` on a list of elements: the outputs for the
      elements in list order. */
  function WalkAll(sel: Selector, es: seq<Element>, t: Template): (r: Result<string>)
    ensures r.Err? ==> r.error.ChildElementError?
    decreases t, 3, |es|
  {
    if es == [] then Ok("")
    else Append(WalkAll(sel, es[..|es| - 1], t), Walk(sel, es[|es| - 1], t))
  }

  /** `start_processing_element`: strip the namespaces with the greedy
      pattern, parse, and walk the template from the record root. A record
      fails with `FragmentParseError` exactly when its stripped fragment
      does not parse; every other failure is a leaf with child elements. */
  function StartProcessing(parse: FragmentParser, sel: Selector, fragment: string, t: Template): (r: Result<string>)
    ensures r == Err(FragmentParseError) <==> parse(StripNsGreedy(fragment)).None?
    ensures r.Err? ==> r.error == FragmentParseError || r.error.ChildElementError?
  {
    match parse(StripNsGreedy(fragment))
    case None => Err(FragmentParseError)
    case Some(root) => Walk(sel, root, t)
  }

  /** The results of the records in document order, or the first error. */
  function AllResults(parse: FragmentParser, sel: Selector, fragments: seq<string>, t: Template): Result<seq<string>>
  {
    if fragments == [] then Ok([])
    else
      match AllResults(parse, sel, fragments[..|fragments| - 1], t)
      case Err(err) => Err(err)
      case Ok(rs) =>
        match StartProcessing(parse, sel, fragments[|fragments| - 1], t)
        case Err(err) => Err(err)
        case Ok(r) => Ok(rs + [r])
  }

  // ---------------------------------------------------------------------
  // The imperative code
  // ---------------------------------------------------------------------

  /** `write_line`: a loop that collects the values, then a loop that joins
      them and records whether any of them is non-empty. */
  method WriteLine(sel: Selector, lineNo: string, element: Element, valuesToWrite: seq<string>)
    returns (r: Result<string>)
    ensures r == LineOf(sel, lineNo, element, valuesToWrite)
  {
    var values: seq<string> := [];
    var i := 0;
    while i < |valuesToWrite|
      invariant 0 <= i <= |valuesToWrite|
      invariant FieldValues(sel, element, valuesToWrite[..i]) == Ok(values)
    {
      assert valuesToWrite[..i + 1][..i] == valuesToWrite[..i];
      var value := valuesToWrite[i];
      if value == "" {
        values := values + [""];
      } else {
        var child := sel(element, value);
        if |child| > 0 {
          if |child[0].children| > 0 {
            FieldValuesErrSticky(sel, element, valuesToWrite, i + 1);
            return Err(ChildElementError(child[0].tag));
          }
          values := values + [TextOf(child[0])];
        } else {
          values := values + [""];
        }
      }
      i := i + 1;
    }
    assert valuesToWrite[..i] == valuesToWrite;
    var outputLine := "";
    var empty := true;
    var x := 0;
    while x < |values|
      invariant 0 <= x <= |values|
      invariant outputLine == Slots(values[..x])
      invariant empty == AllEmpty(values[..x])
    {
      assert values[..x + 1][..x] == values[..x];
      if values[x] != "" {
        outputLine := outputLine + "|" + values[x];
        empty := false;
      } else {
        outputLine := outputLine + "|";
      }
      x := x + 1;
    }
    assert values[..x] == values;
    if empty {
      r := Ok("");
    } else {
      r := Ok(lineNo + outputLine + "\n");
    }
  }

  /** `process_element` on one element: the loop over the template entries. */
  method ProcessElement(sel: Selector, elem: Element, path: Template) returns (r: Result<string>)
    ensures r == Walk(sel, elem, path)
    decreases path, 2, 0
  {
    var outputLine := "";
    var i := 0;
    while i < |path.entries|
      invariant 0 <= i <= |path.entries|
      invariant WalkPrefix(sel, elem, path, i) == Ok(outputLine)
    {
      var en := path.entries[i];
      var part: Result<string>;
      match en.val {
        case FieldList(exprs) =>
          part := WriteLine(sel, en.key, elem, exprs);
        case Nested(sub) =>
          var tempElem := sel(elem, en.key);
          part := ProcessElementList(sel, tempElem, sub);
        case Other =>
          part := Ok("");
      }
      assert part == EntryOutput(sel, elem, path, i);
      if part.Err? {
        WalkPrefixErrSticky(sel, elem, path, i + 1, |path.entries|);
        return part;
      }
      outputLine := outputLine + part.value;
      i := i + 1;
    }
    r := Ok(outputLine);
  }

  /** `process_element` on a list of elements: the loop over the list. */
  method ProcessElementList(sel: Selector, elems: seq<Element>, path: Template) returns (r: Result<string>)
    ensures r == WalkAll(sel, elems, path)
    decreases path, 3, |elems|
  {
    var outputLine := "";
    var i := 0;
    while i < |elems|
      invariant 0 <= i <= |elems|
      invariant WalkAll(sel, elems[..i], path) == Ok(outputLine)
    {
      assert elems[..i + 1][..i] == elems[..i];
      var part := ProcessElement(sel, elems[i], path);
      if part.Err? {
        WalkAllErrSticky(sel, elems, path, i + 1);
        return part;
      }
      outputLine := outputLine + part.value;
      i := i + 1;
    }
    assert elems[..i] == elems;
    r := Ok(outputLine);
  }

  /** The writer loop of the parallel branch (lines 120-122), over the
      results in whatever order the pool delivers them: every result is
      written and counted, the empty ones included. */
  method WriteResults(results: seq<string>) returns (written: string, counter: nat)
    ensures written == Concat(results)
    ensures counter == |results|
  {
    written := "";
    counter := 0;
    while counter < |results|
      invariant counter <= |results|
      invariant written == Concat(results[..counter])
    {
      assert results[..counter + 1][..counter] == results[..counter];
      written := written + results[counter];
      counter := counter + 1;
    }
    assert results[..counter] == results;
  }

  /** The sequential branch (lines 127-129): the records in document order,
      until the first record that fails. On success everything is written
      and every record counted; on failure the records before the failing
      one have been written and counted. */
  method RunSequential(parse: FragmentParser, sel: Selector, fragments: seq<string>, t: Template)
    returns (written: string, counter: nat, failure: Option<Error>)
    ensures failure.None? <==> AllResults(parse, sel, fragments, t).Ok?
    ensures failure.None? ==> counter == |fragments| && written == Concat(AllResults(parse, sel, fragments, t).value)
    ensures failure.Some? ==>
              && counter < |fragments|
              && AllResults(parse, sel, fragments, t) == Err(failure.value)
              && StartProcessing(parse, sel, fragments[counter], t) == Err(failure.value)
              && AllResults(parse, sel, fragments[..counter], t).Ok?
              && written == Concat(AllResults(parse, sel, fragments[..counter], t).value)
  {
    written := "";
    counter := 0;
    ghost var rs: seq<string> := [];
    while counter < |fragments|
      invariant counter <= |fragments|
      invariant AllResults(parse, sel, fragments[..counter], t) == Ok(rs)
      invariant written == Concat(rs)
    {
      assert fragments[..counter + 1][..counter] == fragments[..counter];
      var result := StartProcessing(parse, sel, fragments[counter], t);
      if result.Err? {
        AllResultsErrSticky(parse, sel, fragments, t, counter + 1);
        return written, counter, Some(result.error);
      }
      ConcatSnoc(rs, result.value);
      rs := rs + [result.value];
      written := written + result.value;
      counter := counter + 1;
    }
    assert fragments[..counter] == fragments;
    failure := None;
  }

  // ---------------------------------------------------------------------
  // Properties
  // ---------------------------------------------------------------------

  /** A failure in the first `i` expressions is the failure of the list. */
  lemma {:induction false} FieldValuesErrSticky(sel: Selector, e: Element, exprs: seq<string>, i: nat)
    requires i <= |exprs| && FieldValues(sel, e, exprs[..i]).Err?
    ensures FieldValues(sel, e, exprs) == FieldValues(sel, e, exprs[..i])
  {
    if i < |exprs| {
      var front := exprs[..|exprs| - 1];
      assert front[..i] == exprs[..i];
      FieldValuesErrSticky(sel, e, front, i);
    } else {
      assert exprs[..i] == exprs;
    }
  }

  /** A failure in the first `i` entries is the failure of the record. */
  lemma {:induction false} WalkPrefixErrSticky(sel: Selector, e: Element, t: Template, i: nat, n: nat)
    requires i <= n <= |t.entries| && WalkPrefix(sel, e, t, i).Err?
    ensures WalkPrefix(sel, e, t, n) == WalkPrefix(sel, e, t, i)
    decreases n
  {
    if i < n {
      WalkPrefixErrSticky(sel, e, t, i, n - 1);
    }
  }

  lemma {:induction false} WalkAllErrSticky(sel: Selector, es: seq<Element>, t: Template, i: nat)
    requires i <= |es| && WalkAll(sel, es[..i], t).Err?
    ensures WalkAll(sel, es, t) == WalkAll(sel, es[..i], t)
  {
    if i < |es| {
      var front := es[..|es| - 1];
      assert front[..i] == es[..i];
      WalkAllErrSticky(sel, front, t, i);
    } else {
      assert es[..i] == es;
    }
  }

  lemma {:induction false} AllResultsErrSticky(parse: FragmentParser, sel: Selector, fs: seq<string>, t: Template, i: nat)
    requires i <= |fs| && AllResults(parse, sel, fs[..i], t).Err?
    ensures AllResults(parse, sel, fs, t) == AllResults(parse, sel, fs[..i], t)
  {
    if i < |fs| {
      var front := fs[..|fs| - 1];
      assert front[..i] == fs[..i];
      AllResultsErrSticky(parse, sel, front, t, i);
    } else {
      assert fs[..i] == fs;
    }
  }

  /** The first match of `expr` has child elements where a text was expected. */
  predicate Offends(sel: Selector, e: Element, expr: string)
  {
    expr != "" && |sel(e, expr)| > 0 && |sel(e, expr)[0].children| > 0
  }

  /** The slot of `expr` is empty: no expression, no match, or a first match
      without text. */
  predicate BlankSlot(sel: Selector, e: Element, expr: string)
  {
    expr == "" || |sel(e, expr)| == 0 || TextOf(sel(e, expr)[0]) == ""
  }

  /** Each expression's slot: empty for an empty expression (the selector is
      not consulted) or when nothing matches, and otherwise the text of the
      first match only, which then has no child elements. */
  lemma {:induction false} FieldValuesSlots(sel: Selector, e: Element, exprs: seq<string>, vs: seq<string>)
    requires FieldValues(sel, e, exprs) == Ok(vs)
    ensures |vs| == |exprs|
    ensures forall i :: 0 <= i < |exprs| ==>
      && (exprs[i] == "" ==> vs[i] == "")
      && (exprs[i] != "" && sel(e, exprs[i]) == [] ==> vs[i] == "")
      && (exprs[i] != "" && sel(e, exprs[i]) != [] ==>
            sel(e, exprs[i])[0].children == [] && vs[i] == TextOf(sel(e, exprs[i])[0]))
  {
    if exprs != [] {
      var front := exprs[..|exprs| - 1];
      var fvs := FieldValues(sel, e, front).value;
      FieldValuesSlots(sel, e, front, fvs);
      assert vs == fvs + [FieldValue(sel, e, exprs[|exprs| - 1]).value];
      forall i | 0 <= i < |front| ensures exprs[i] == front[i] && vs[i] == fvs[i] { }
    }
  }

  /** The field list yields its values exactly when no expression's first
      match has child elements. */
  lemma {:induction false} FieldValuesOkIff(sel: Selector, e: Element, exprs: seq<string>)
    ensures FieldValues(sel, e, exprs).Ok? <==> forall i :: 0 <= i < |exprs| ==> !Offends(sel, e, exprs[i])
  {
    if exprs != [] {
      var front := exprs[..|exprs| - 1];
      FieldValuesOkIff(sel, e, front);
      assert forall i :: 0 <= i < |front| ==> front[i] == exprs[i];
    }
  }

  /** A first match with child elements fails the field list with an error
      naming the tag of the earliest such match. */
  lemma {:induction false} FieldValuesFirstOffender(sel: Selector, e: Element, exprs: seq<string>, k: nat)
    requires k < |exprs| && Offends(sel, e, exprs[k])
    requires forall j :: 0 <= j < k ==> !Offends(sel, e, exprs[j])
    ensures FieldValues(sel, e, exprs) == Err(ChildElementError(sel(e, exprs[k])[0].tag))
  {
    var front := exprs[..|exprs| - 1];
    if k < |exprs| - 1 {
      assert front[k] == exprs[k];
      assert forall j :: 0 <= j < k ==> front[j] == exprs[j];
      FieldValuesFirstOffender(sel, e, front, k);
    } else {
      assert forall j :: 0 <= j < |front| ==> front[j] == exprs[j];
      FieldValuesOkIff(sel, e, front);
    }
  }

  /** Splitting the joined slots at `|` gives back the values, after an
      empty piece before the first `|`, when no value contains a `|`. */
  lemma {:induction false} SlotsSplit(vs: seq<string>)
    requires forall i :: 0 <= i < |vs| ==> '|' !in vs[i]
    ensures SplitOn(Slots(vs), '|') == [""] + vs
  {
    if vs != [] {
      var front := vs[..|vs| - 1];
      var last := vs[|vs| - 1];
      SlotsSplit(front);
      SplitOnAt(Slots(front), last, '|');
      SplitOnWithout(last, '|');
      assert Slots(vs) == Slots(front) + ['|'] + last;
      assert vs == front + [last];
    }
  }

  /** A non-blank line of a field list of K expressions is the key, then K
      `|`-separated slots holding the values in list order, then a newline. */
  lemma LineColumns(sel: Selector, key: string, e: Element, exprs: seq<string>, vs: seq<string>)
    requires FieldValues(sel, e, exprs) == Ok(vs)
    requires !AllEmpty(vs)
    requires forall i :: 0 <= i < |vs| ==> '|' !in vs[i]
    ensures LineOf(sel, key, e, exprs) == Ok(key + Slots(vs) + "\n")
    ensures |SplitOn(Slots(vs), '|')| == |exprs| + 1
    ensures SplitOn(Slots(vs), '|')[1..] == vs
  {
    FieldValuesSlots(sel, e, exprs, vs);
    SlotsSplit(vs);
  }

  /** `write_line` returns "" exactly when every slot is empty, whatever the
      key (and it does not fail). */
  lemma LineBlankIff(sel: Selector, key: string, e: Element, exprs: seq<string>)
    ensures LineOf(sel, key, e, exprs) == Ok("") <==>
      forall i :: 0 <= i < |exprs| ==> !Offends(sel, e, exprs[i]) && BlankSlot(sel, e, exprs[i])
  {
    FieldValuesOkIff(sel, e, exprs);
    var fv := FieldValues(sel, e, exprs);
    if fv.Ok? {
      var vs := fv.value;
      FieldValuesSlots(sel, e, exprs, vs);
      assert Line(key, vs) == "" <==> AllEmpty(vs) by {
        if !AllEmpty(vs) { assert |key + Slots(vs) + "\n"| > 0; }
      }
    }
  }

  lemma AppendAssoc(a: Result<string>, b: Result<string>, c: Result<string>)
    ensures Append(Append(a, b), c) == Append(a, Append(b, c))
  {
    if a.Ok? && b.Ok? && c.Ok? {
      assert (a.value + b.value) + c.value == a.value + (b.value + c.value);
    }
  }

  lemma AppendUnit(x: Result<string>)
    ensures Append(x, Ok("")) == x && Append(Ok(""), x) == x
  {
    if x.Ok? {
      assert x.value + "" == x.value;
      assert "" + x.value == x.value;
    }
  }

  /** On a list of elements the output is the outputs of its parts, in
      list (document) order. */
  lemma {:induction false} WalkAllAppend(sel: Selector, a: seq<Element>, b: seq<Element>, t: Template)
    ensures WalkAll(sel, a + b, t) == Append(WalkAll(sel, a, t), WalkAll(sel, b, t))
  {
    if b == [] {
      assert a + b == a;
      AppendUnit(WalkAll(sel, a, t));
    } else {
      var front := b[..|b| - 1];
      assert (a + b)[..|a + b| - 1] == a + front;
      assert (a + b)[|a + b| - 1] == b[|b| - 1];
      WalkAllAppend(sel, a, front, t);
      AppendAssoc(WalkAll(sel, a, t), WalkAll(sel, front, t), Walk(sel, b[|b| - 1], t));
    }
  }

  lemma WalkAllSingle(sel: Selector, e: Element, t: Template)
    ensures WalkAll(sel, [e], t) == Walk(sel, e, t)
  {
    assert [e][..0] == [];
    AppendUnit(Walk(sel, e, t));
  }

  /** The first entries of a template give the same output whatever follows. */
  lemma {:induction false} WalkPrefixOfAppend(sel: Selector, e: Element, a: seq<Entry>, b: seq<Entry>, n: nat)
    requires n <= |a|
    ensures WalkPrefix(sel, e, Template(a + b), n) == WalkPrefix(sel, e, Template(a), n)
  {
    if n > 0 {
      WalkPrefixOfAppend(sel, e, a, b, n - 1);
      assert (a + b)[n - 1] == a[n - 1];
    }
  }

  lemma {:induction false} WalkPrefixOfAppendTail(sel: Selector, e: Element, a: seq<Entry>, b: seq<Entry>, m: nat)
    requires m <= |b|
    ensures WalkPrefix(sel, e, Template(a + b), |a| + m)
         == Append(Walk(sel, e, Template(a)), WalkPrefix(sel, e, Template(b), m))
  {
    if m == 0 {
      WalkPrefixOfAppend(sel, e, a, b, |a|);
      AppendUnit(Walk(sel, e, Template(a)));
    } else {
      WalkPrefixOfAppendTail(sel, e, a, b, m - 1);
      assert (a + b)[|a| + m - 1] == b[m - 1];
      assert EntryOutput(sel, e, Template(a + b), |a| + m - 1) == EntryOutput(sel, e, Template(b), m - 1);
      AppendAssoc(Walk(sel, e, Template(a)), WalkPrefix(sel, e, Template(b), m - 1), EntryOutput(sel, e, Template(b), m - 1));
    }
  }

  /** On one element the output is the in-order concatenation over the
      template's entries: the output of `a + b` is that of `a` followed by
      that of `b`, and an empty template gives "". */
  lemma WalkTemplateAppend(sel: Selector, e: Element, a: seq<Entry>, b: seq<Entry>)
    ensures Walk(sel, e, Template(a + b)) == Append(Walk(sel, e, Template(a)), Walk(sel, e, Template(b)))
    ensures Walk(sel, e, Template([])) == Ok("")
  {
    WalkPrefixOfAppendTail(sel, e, a, b, |b|);
  }

  /** A template value that is neither a list nor an object contributes
      nothing. */
  lemma WalkOtherIgnored(sel: Selector, e: Element, a: seq<Entry>, key: string, b: seq<Entry>)
    ensures Walk(sel, e, Template(a + [Entry(key, Other)] + b)) == Walk(sel, e, Template(a + b))
  {
    WalkTemplateAppend(sel, e, a + [Entry(key, Other)], b);
    WalkTemplateAppend(sel, e, a, [Entry(key, Other)]);
    WalkTemplateAppend(sel, e, a, b);
    assert Walk(sel, e, Template([Entry(key, Other)])) == Ok("") by {
      var one := Template([Entry(key, Other)]);
      assert EntryOutput(sel, e, one, 0) == Ok("");
      assert WalkPrefix(sel, e, one, 0) == Ok("");
      AppendUnit(Ok(""));
    }
    AppendUnit(Walk(sel, e, Template(a)));
  }

  /** A fragment without `xmlns` reaches the XML parser unchanged. */
  lemma StartProcessingWithoutNamespace(parse: FragmentParser, sel: Selector, fragment: string, t: Template)
    requires !Contains(fragment, "xmlns")
    ensures StartProcessing(parse, sel, fragment, t)
         == (match parse(fragment) case None => Err(FragmentParseError) case Some(root) => Walk(sel, root, t))
  {
    StripNsGreedyIdentity(fragment);
  }
}
