/** The document splitter (xml_splitter.py): the matched elements are
    written, namespace-stripped and in document order, into a series of
    files `<stem>1.xml`, `<stem>2.xml`, …, each wrapped in the wrapper tag.
    The in-file counter closes a file after the element that finds it at
    `count` or more; since the counter restarts at 1 for a new file, the
    first file gets `count + 1` elements and every later full file `count`,
    and a file is opened after every closed one, even when no element is
    left for it. */
module Splitter {
  import opened Xml
  import opened Text
  import opened Namespaces

  // ---------------------------------------------------------------------
  // File names
  // ---------------------------------------------------------------------

  function DigitChar(d: nat): char
    requires d < 10
  {
    (48 + d) as char
  }

  predicate IsDigits(s: string)
  {
    forall i :: 0 <= i < |s| ==> '0' <= s[i] <= '9'
  }

  /** Python's `str(n)` for a natural number. */
  function DecimalString(n: nat): (r: string)
    ensures |r| >= 1 && IsDigits(r)
  {
    if n < 10 then [DigitChar(n)] else DecimalString(n / 10) + [DigitChar(n % 10)]
  }

  /** The number a string of decimal digits denotes. */
  function ParseDecimal(s: string): nat
    requires IsDigits(s)
  {
    if s == [] then 0
    else ParseDecimal(s[..|s| - 1]) * 10 + (s[|s| - 1] as int - 48)
  }

  lemma {:induction false} DecimalRoundTrip(n: nat)
    ensures ParseDecimal(DecimalString(n)) == n
  {
    if n >= 10 {
      DecimalRoundTrip(n / 10);
      var s := DecimalString(n);
      assert s[..|s| - 1] == DecimalString(n / 10);
    }
  }

  /** The k-th name `file_name_generator` yields (k = 1, 2, …). */
  function FileName(outputPath: string, sep: string, outputFile: string, k: nat): (r: string)
    ensures var p := outputPath + sep + outputFile;
      |p| + 5 <= |r| && r[..|p|] == p && r[|r| - 4..] == ".xml"
      && IsDigits(r[|p|..|r| - 4]) && ParseDecimal(r[|p|..|r| - 4]) == k
  {
    var p := outputPath + sep + outputFile;
    var d := DecimalString(k);
    DecimalRoundTrip(k);
    assert (p + d + ".xml")[|p|..|p| + |d|] == d;
    p + d + ".xml"
  }

  /** Different counters give different names: no file is reused. */
  lemma FileNamesDistinct(outputPath: string, sep: string, outputFile: string, j: nat, k: nat)
    ensures FileName(outputPath, sep, outputFile, j) == FileName(outputPath, sep, outputFile, k) <==> j == k
  {
    if FileName(outputPath, sep, outputFile, j) == FileName(outputPath, sep, outputFile, k) {
      var p := outputPath + sep + outputFile;
      var dj, dk := DecimalString(j), DecimalString(k);
      assert p + dj + ".xml" == p + dk + ".xml";
      assert |dj| == |dk|;
      assert dj == (p + dj + ".xml")[|p|..|p| + |dj|];
      assert dk == (p + dk + ".xml")[|p|..|p| + |dk|];
      DecimalRoundTrip(j);
      DecimalRoundTrip(k);
    }
  }

  /** `file_name_generator`: a counter that starts at 0 and is incremented
      before each name is produced. */
  class FileNameGenerator {
    const outputPath: string
    const sep: string
    const outputFile: string
    var fileCounter: nat

    constructor (outputPath: string, sep: string, outputFile: string)
      ensures this.outputPath == outputPath && this.sep == sep && this.outputFile == outputFile
      ensures fileCounter == 0
    {
      this.outputPath := outputPath;
      this.sep := sep;
      this.outputFile := outputFile;
      fileCounter := 0;
    }

    method Next() returns (name: string)
      modifies this
      ensures fileCounter == old(fileCounter) + 1
      ensures name == FileName(outputPath, sep, outputFile, fileCounter)
    {
      fileCounter := fileCounter + 1;
      name := outputPath + sep + outputFile + DecimalString(fileCounter) + ".xml";
    }
  }

  /** `os.path.basename` with `/` as the separator: what follows the last
      `/`. */
  function Basename(path: string): (r: string)
    ensures |r| <= |path| && r == path[|path| - |r|..] && '/' !in r
    ensures |r| == |path| || path[|path| - |r| - 1] == '/'
  {
    if path == [] || path[|path| - 1] == '/' then []
    else
      var front := path[..|path| - 1];
      var b := Basename(front);
      var j := |path| - |b| - 1;
      assert path[j..] == path[j..|path| - 1] + [path[|path| - 1]];
      assert path[j..|path| - 1] == front[|front| - |b|..];
      b + [path[|path| - 1]]
  }

  /** `base.split('.')[0]`: the base name up to its first `.`, or all of it. */
  function Stem(base: string): (r: string)
    ensures r <= base && '.' !in r && (|r| == |base| || base[|r|] == '.')
  {
    SplitOnFirst(base, '.');
    SplitOn(base, '.')[0]
  }

  /** The stem of the output file names (line 52). */
  function OutputStem(outputArg: string): (r: string)
    ensures '.' !in r && '/' !in r
    ensures r <= Basename(outputArg)
    ensures '.' !in Basename(outputArg) ==> r == Basename(outputArg)
  {
    var base := Basename(outputArg);
    StemOfBase(base);
    Stem(base)
  }

  lemma StemOfBase(base: string)
    requires '/' !in base
    ensures '/' !in Stem(base)
    ensures '.' !in base ==> Stem(base) == base
  {
    var r := Stem(base);
    if '.' !in base && |r| < |base| {
      assert base[|r|] in base;
    }
  }

  // ---------------------------------------------------------------------
  // Chunking
  // ---------------------------------------------------------------------

  /** How many elements the first file holds when it is full. */
  function FirstSize(count: int): nat
  {
    if count >= 1 then count + 1 else 1
  }

  /** How many elements each later file holds when it is full. */
  function LaterSize(count: int): nat
  {
    if count >= 1 then count else 1
  }

  /** `s` cut into pieces of `size`, the last one shorter than `size` and
      possibly empty. */
  function Pieces<T>(s: seq<T>, size: nat): seq<seq<T>>
    requires size >= 1
    decreases |s|
  {
    if |s| < size then [s] else [s[..size]] + Pieces(s[size..], size)
  }

  /** The element lists of the files: a first file of `FirstSize(count)`
      elements, then files of `LaterSize(count)`, then the remainder. */
  function Chunks<T>(s: seq<T>, count: int): seq<seq<T>>
  {
    if |s| < FirstSize(count) then [s]
    else [s[..FirstSize(count)]] + Pieces(s[FirstSize(count)..], LaterSize(count))
  }

  function Flatten<T>(ss: seq<seq<T>>): seq<T>
  {
    if ss == [] then [] else ss[0] + Flatten(ss[1..])
  }

  function StripAll(elements: seq<string>): (r: seq<string>)
    ensures |r| == |elements|
    ensures forall i :: 0 <= i < |elements| ==> r[i] == StripDefaultNs(elements[i])
  {
    if elements == [] then []
    else StripAll(elements[..|elements| - 1]) + [StripDefaultNs(elements[|elements| - 1])]
  }

  lemma StripAllSnoc(elements: seq<string>, i: nat)
    requires i < |elements|
    ensures StripAll(elements[..i + 1]) == StripAll(elements[..i]) + [StripDefaultNs(elements[i])]
  {
    assert elements[..i + 1][..i] == elements[..i];
  }

  function OpenTag(wrapper: string): string
  {
    "<" + wrapper + ">\n"
  }

  function CloseTag(wrapper: string): string
  {
    "</" + wrapper + ">\n"
  }

  /** The contents of one file: the wrapper, the elements, the wrapper. */
  function Wrapped(wrapper: string, chunk: seq<string>): string
  {
    OpenTag(wrapper) + Concat(chunk) + CloseTag(wrapper)
  }

  datatype OutputFile = OutputFile(name: string, content: string)

  /** What the loop of `Split` keeps, for the element lists `ch` of the
      files so far: the closed files hold all lists but the last, each under
      its own number; the open file, the next number, holds the last list
      after the opening wrapper tag; and the in-file counter is the size of
      the last list, plus one in every file after the first. */
  ghost predicate FilesWritten(ch: seq<seq<string>>, wrapper: string,
                               outputPath: string, sep: string, outputFile: string,
                               files: seq<OutputFile>, name: string, content: string, elemCounter: int)
  {
    && |ch| >= 1
    && |files| == |ch| - 1
    && (forall j :: 0 <= j < |files| ==>
          files[j] == OutputFile(FileName(outputPath, sep, outputFile, j + 1), Wrapped(wrapper, ch[j])))
    && name == FileName(outputPath, sep, outputFile, |files| + 1)
    && content == OpenTag(wrapper) + Concat(ch[|ch| - 1])
    && elemCounter == (if |files| == 0 then |ch[|ch| - 1]| else |ch[|ch| - 1]| + 1)
  }

  lemma SplitStart(count: int, wrapper: string, outputPath: string, sep: string, outputFile: string)
    ensures Chunks<string>([], count) == [[]]
    ensures FilesWritten([[]], wrapper, outputPath, sep, outputFile, [],
                         FileName(outputPath, sep, outputFile, 1), OpenTag(wrapper), 0)
  {
    var e: seq<string> := [];
    assert Chunks(e, count) == [[]];
  }

  /** The in-file counter decides how the files' element lists grow: the
      element closes the open file exactly when the counter has reached
      `count`. */
  lemma ChunksStep(s: seq<string>, x: string, count: int, ch: seq<seq<string>>,
                   files: seq<OutputFile>, elemCounter: int)
    requires ch == Chunks(s, count) && |files| == |ch| - 1
    requires elemCounter == (if |files| == 0 then |ch[|ch| - 1]| else |ch[|ch| - 1]| + 1)
    ensures elemCounter > count - 1 ==> Chunks(s + [x], count) == ch[..|ch| - 1] + [ch[|ch| - 1] + [x]] + [[]]
    ensures elemCounter <= count - 1 ==> Chunks(s + [x], count) == ch[..|ch| - 1] + [ch[|ch| - 1] + [x]]
  {
    ChunksSnoc(s, x, count);
  }

  /** An element that leaves the open file below its limit. */
  lemma SplitStepWithin(ch: seq<seq<string>>, x: string, wrapper: string,
                        outputPath: string, sep: string, outputFile: string,
                        files: seq<OutputFile>, name: string, content: string, elemCounter: int)
    requires FilesWritten(ch, wrapper, outputPath, sep, outputFile, files, name, content, elemCounter)
    ensures FilesWritten(ch[..|ch| - 1] + [ch[|ch| - 1] + [x]], wrapper, outputPath, sep, outputFile,
                         files, name, content + x, elemCounter + 1)
  {
    var last := ch[|ch| - 1];
    var ch' := ch[..|ch| - 1] + [last + [x]];
    assert content + x == OpenTag(wrapper) + Concat(last + [x]) by {
      ConcatSnoc(last, x);
      StringAssoc(OpenTag(wrapper), Concat(last), x);
    }
    forall j | 0 <= j < |files| ensures ch'[j] == ch[j] { }
    assert ch'[|ch'| - 1] == last + [x];
  }

  /** An element that fills the open file: it is closed and the next one
      opened. */
  lemma SplitStepClose(ch: seq<seq<string>>, x: string, wrapper: string,
                       outputPath: string, sep: string, outputFile: string,
                       files: seq<OutputFile>, name: string, content: string, elemCounter: int)
    requires FilesWritten(ch, wrapper, outputPath, sep, outputFile, files, name, content, elemCounter)
    ensures FilesWritten(ch[..|ch| - 1] + [ch[|ch| - 1] + [x]] + [[]], wrapper, outputPath, sep, outputFile,
                         files + [OutputFile(name, content + x + CloseTag(wrapper))],
                         FileName(outputPath, sep, outputFile, |files| + 2), OpenTag(wrapper), 1)
  {
    var last := ch[|ch| - 1];
    var ch' := ch[..|ch| - 1] + [last + [x]] + [[]];
    assert content + x == OpenTag(wrapper) + Concat(last + [x]) by {
      ConcatSnoc(last, x);
      StringAssoc(OpenTag(wrapper), Concat(last), x);
    }
    var files' := files + [OutputFile(name, content + x + CloseTag(wrapper))];
    assert |files'| == |ch'| - 1;
    forall j | 0 <= j < |files'|
      ensures files'[j] == OutputFile(FileName(outputPath, sep, outputFile, j + 1), Wrapped(wrapper, ch'[j]))
    {
      if j < |files| {
        assert ch'[j] == ch[j];
      } else {
        assert ch'[j] == last + [x];
      }
    }
    assert ch'[|ch'| - 1] == [];
    assert OpenTag(wrapper) == OpenTag(wrapper) + Concat(ch'[|ch'| - 1]);
  }

  /** For `count >= 1` the in-file counter stays within `0..count` at the
      check. */
  lemma SplitCounterBound(s: seq<string>, count: int, wrapper: string,
                          outputPath: string, sep: string, outputFile: string,
                          files: seq<OutputFile>, name: string, content: string, elemCounter: int)
    requires FilesWritten(Chunks(s, count), wrapper, outputPath, sep, outputFile, files, name, content, elemCounter)
    requires count >= 1
    ensures 0 <= elemCounter <= count
  {
    ChunksSnoc(s, "", count);
  }

  /** After the last element the open file is closed: the files are then
      one per element list. */
  lemma SplitFinish(ch: seq<seq<string>>, wrapper: string,
                    outputPath: string, sep: string, outputFile: string,
                    files: seq<OutputFile>, name: string, content: string, elemCounter: int)
    requires FilesWritten(ch, wrapper, outputPath, sep, outputFile, files, name, content, elemCounter)
    ensures var all := files + [OutputFile(name, content + CloseTag(wrapper))];
      && |all| == |ch|
      && forall j :: 0 <= j < |all| ==>
           all[j] == OutputFile(FileName(outputPath, sep, outputFile, j + 1), Wrapped(wrapper, ch[j]))
  {
  }

  /** The loop of `__main__` (lines 78-97) over the serialised matched
      elements in document order: the files that get written, in the order
      they are opened. */
  method Split(elements: seq<string>, wrapper: string, count: int,
               outputPath: string, sep: string, outputFile: string)
    returns (files: seq<OutputFile>)
    ensures |files| == |Chunks(StripAll(elements), count)|
    ensures forall j :: 0 <= j < |files| ==>
      files[j] == OutputFile(FileName(outputPath, sep, outputFile, j + 1),
                             Wrapped(wrapper, Chunks(StripAll(elements), count)[j]))
  {
    var elemCounter := 0;
    var gen := new FileNameGenerator(outputPath, sep, outputFile);
    var name := gen.Next();
    var content := OpenTag(wrapper);
    files := [];
    var i := 0;
    ghost var ch: seq<seq<string>> := [[]];
    assert elements[..0] == [];
    SplitStart(count, wrapper, outputPath, sep, outputFile);
    while i < |elements|
      invariant 0 <= i <= |elements|
      invariant gen.outputPath == outputPath && gen.sep == sep && gen.outputFile == outputFile
      invariant gen.fileCounter == |files| + 1
      invariant ch == Chunks(StripAll(elements[..i]), count)
      invariant FilesWritten(ch, wrapper, outputPath, sep, outputFile, files, name, content, elemCounter)
    {
      ghost var s := StripAll(elements[..i]);
      var x := StripDefaultNs(elements[i]);
      StripAllSnoc(elements, i);
      ChunksStep(s, x, count, ch, files, elemCounter);
      ghost var before := content;
      content := content + x;
      if elemCounter > count - 1 {
        SplitStepClose(ch, x, wrapper, outputPath, sep, outputFile, files, name, before, elemCounter);
        ch := ch[..|ch| - 1] + [ch[|ch| - 1] + [x]] + [[]];
        elemCounter := 0;
        content := content + CloseTag(wrapper);
        files := files + [OutputFile(name, content)];
        name := gen.Next();
        content := OpenTag(wrapper);
      } else {
        SplitStepWithin(ch, x, wrapper, outputPath, sep, outputFile, files, name, before, elemCounter);
        ch := ch[..|ch| - 1] + [ch[|ch| - 1] + [x]];
      }
      elemCounter := elemCounter + 1;
      i := i + 1;
    }
    assert elements[..i] == elements;
    SplitFinish(ch, wrapper, outputPath, sep, outputFile, files, name, content, elemCounter);
    content := content + CloseTag(wrapper);
    files := files + [OutputFile(name, content)];
  }

  // ---------------------------------------------------------------------
  // Properties
  // ---------------------------------------------------------------------

  /** Adding one element to the pieces fills the last one; a piece that
      becomes full is followed by a new empty one. */
  lemma {:induction false} PiecesSnoc<T>(s: seq<T>, x: T, size: nat)
    requires size >= 1
    ensures var p := Pieces(s, size);
      && |p| >= 1
      && |p[|p| - 1]| < size
      && Pieces(s + [x], size)
         == if |p[|p| - 1]| + 1 == size then p[..|p| - 1] + [p[|p| - 1] + [x]] + [[]]
            else p[..|p| - 1] + [p[|p| - 1] + [x]]
    decreases |s|
  {
    if |s| < size {
      if |s| + 1 == size {
        assert (s + [x])[..size] == s + [x];
        assert (s + [x])[size..] == [];
      }
    } else {
      var q := Pieces(s[size..], size);
      PiecesSnoc(s[size..], x, size);
      assert (s + [x])[..size] == s[..size];
      assert (s + [x])[size..] == s[size..] + [x];
      var p := Pieces(s, size);
      assert p == [s[..size]] + q;
      assert p[..|p| - 1] == [s[..size]] + q[..|q| - 1];
      assert p[|p| - 1] == q[|q| - 1];
    }
  }

  /** Adding one element to the files: the same shape as `PiecesSnoc`, where
      the first file is full at `FirstSize(count)` elements and the later
      ones at `LaterSize(count)`. */
  lemma ChunksSnoc<T>(s: seq<T>, x: T, count: int)
    ensures var ch := Chunks(s, count);
      var limit := if |ch| == 1 then FirstSize(count) else LaterSize(count);
      && |ch| >= 1
      && |ch[|ch| - 1]| < limit
      && Chunks(s + [x], count)
         == if |ch[|ch| - 1]| + 1 == limit then ch[..|ch| - 1] + [ch[|ch| - 1] + [x]] + [[]]
            else ch[..|ch| - 1] + [ch[|ch| - 1] + [x]]
  {
    var f := FirstSize(count);
    if |s| < f {
      if |s| + 1 == f {
        assert (s + [x])[..f] == s + [x];
        assert (s + [x])[f..] == [];
      }
    } else {
      var q := Pieces(s[f..], LaterSize(count));
      PiecesSnoc(s[f..], x, LaterSize(count));
      assert (s + [x])[..f] == s[..f];
      assert (s + [x])[f..] == s[f..] + [x];
      var ch := Chunks(s, count);
      assert ch == [s[..f]] + q;
      assert ch[..|ch| - 1] == [s[..f]] + q[..|q| - 1];
      assert ch[|ch| - 1] == q[|q| - 1];
    }
  }

  lemma {:induction false} PiecesFlatten<T>(s: seq<T>, size: nat)
    requires size >= 1
    ensures Flatten(Pieces(s, size)) == s
    decreases |s|
  {
    if |s| < size {
      assert Flatten([s]) == s + Flatten([]);
    } else {
      PiecesFlatten(s[size..], size);
      var p := Pieces(s, size);
      assert p[1..] == Pieces(s[size..], size);
      assert s[..size] + s[size..] == s;
    }
  }

  /** Every element is written exactly once, in order: the files' element
      lists put back together are the stripped elements. */
  lemma ChunksFlatten<T>(s: seq<T>, count: int)
    ensures Flatten(Chunks(s, count)) == s
  {
    var f := FirstSize(count);
    if |s| < f {
      assert Flatten([s]) == s + Flatten([]);
    } else {
      PiecesFlatten(s[f..], LaterSize(count));
      var ch := Chunks(s, count);
      assert ch[1..] == Pieces(s[f..], LaterSize(count));
      assert s[..f] + s[f..] == s;
    }
  }

  lemma {:induction false} PiecesSizes<T>(s: seq<T>, size: nat)
    requires size >= 1
    ensures var p := Pieces(s, size);
      && |p| == |s| / size + 1
      && (forall i :: 0 <= i < |p| - 1 ==> |p[i]| == size)
      && |p[|p| - 1]| == |s| % size
    decreases |s|
  {
    if |s| >= size {
      PiecesSizes(s[size..], size);
      var q := Pieces(s[size..], size);
      var p := Pieces(s, size);
      assert p == [s[..size]] + q;
      assert (|s| - size) / size == |s| / size - 1 && (|s| - size) % size == |s| % size by {
        DivModStep(|s|, size);
      }
      forall i | 0 <= i < |p| - 1 ensures |p[i]| == size {
        if i > 0 { assert p[i] == q[i - 1]; }
      }
    }
  }

  lemma DivModStep(n: nat, size: nat)
    requires size >= 1 && n >= size
    ensures (n - size) / size == n / size - 1 && (n - size) % size == n % size
  {
    var q, r := (n - size) / size, (n - size) % size;
    assert n == (q + 1) * size + r;
    DivModUnique(n, size, q + 1, r);
  }

  lemma DivModUnique(n: int, size: int, q: int, r: int)
    requires size >= 1 && n == q * size + r && 0 <= r < size
    ensures n / size == q && n % size == r
  {
    var q0, r0 := n / size, n % size;
    assert n == q0 * size + r0;
    assert (q0 - q) * size == r - r0;
    if q0 > q {
      MulAtLeast(q0 - q, size);
    } else if q0 < q {
      MulAtLeast(q - q0, size);
    }
  }

  lemma {:induction false} MulAtLeast(a: int, b: int)
    requires a >= 1 && b >= 0
    ensures a * b >= b
    decreases a
  {
    if a > 1 {
      MulAtLeast(a - 1, b);
      assert a * b == (a - 1) * b + b;
    }
  }

  /** For `count >= 1`: the first file holds `min(N, count + 1)` elements,
      each later file but the last exactly `count`, the last fewer than
      `count`. */
  lemma ChunkSizes<T>(s: seq<T>, count: int)
    requires count >= 1
    ensures var ch := Chunks(s, count);
      && |ch[0]| == (if |s| < count + 1 then |s| else count + 1)
      && (forall i :: 0 < i < |ch| - 1 ==> |ch[i]| == count)
      && (|ch| > 1 ==> |ch[|ch| - 1]| < count)
  {
    if |s| >= count + 1 {
      var q := Pieces(s[count + 1..], count);
      PiecesSizes(s[count + 1..], count);
      var ch := Chunks(s, count);
      assert ch == [s[..count + 1]] + q;
      forall i | 0 < i < |ch| - 1 ensures |ch[i]| == count {
        assert ch[i] == q[i - 1];
      }
    }
  }

  /** The last file holds no element, only the wrapper tags, exactly when
      there are no elements or the elements fill the first file and then a
      whole number of later files: N = c + 1 + m * c for `count = c >= 1`. */
  lemma LastChunkEmptyIff<T>(s: seq<T>, count: int)
    ensures var ch := Chunks(s, count);
      ch[|ch| - 1] == [] <==>
        |s| == 0 || (|s| >= FirstSize(count) && (|s| - FirstSize(count)) % LaterSize(count) == 0)
  {
    var f := FirstSize(count);
    if |s| >= f {
      PiecesSizes(s[f..], LaterSize(count));
      var q := Pieces(s[f..], LaterSize(count));
      var ch := Chunks(s, count);
      assert ch == [s[..f]] + q;
      assert ch[|ch| - 1] == q[|q| - 1];
    }
  }

  /** The stripped elements, all of them and in order, make up the bodies
      of the files. */
  lemma SplitKeepsElements(elements: seq<string>, count: int)
    ensures Concat(ConcatAll(Chunks(StripAll(elements), count))) == Concat(StripAll(elements))
  {
    ChunksFlatten(StripAll(elements), count);
    ConcatAllFlatten(Chunks(StripAll(elements), count));
  }

  function ConcatAll(chunks: seq<seq<string>>): seq<string>
  {
    if chunks == [] then [] else [Concat(chunks[0])] + ConcatAll(chunks[1..])
  }

  lemma {:induction false} ConcatAllFlatten(chunks: seq<seq<string>>)
    ensures Concat(ConcatAll(chunks)) == Concat(Flatten(chunks))
  {
    if chunks != [] {
      ConcatAllFlatten(chunks[1..]);
      ConcatAppend([Concat(chunks[0])], ConcatAll(chunks[1..]));
      ConcatAppend(chunks[0], Flatten(chunks[1..]));
      assert Concat([Concat(chunks[0])]) == Concat(chunks[0]) by {
        assert [Concat(chunks[0])][..0] == [];
      }
    }
  }
}
