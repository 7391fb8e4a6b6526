# XML-Tools-Converter, modelled in Dafny

XML-Tools-Converter is a set of three command-line tools that stream a large
XML document. The stream yields each record element that carries a given root
tag, and each record is transformed independently:

- **xml2bar_parser.py** turns each record into `|`-delimited lines. A JSON
  template says what to take. A key whose value is a list of XPath
  expressions becomes one line: the key, then one `|`-prefixed slot per
  expression. A key whose value is an object is a sub-template applied to
  every element the key selects. Before parsing, namespace declarations are
  removed by the greedy substitution `xmlns.*=".*?"`. A leaf that matches an
  element with children aborts a sequential run.
- **xml2bar_extractor.py** uses the same template shape. It emits the
  serialised matches themselves, with no delimiter. In "whole element" mode
  the walk stops at the first key that produces output, and the record is
  then emitted as its own (namespace-stripped) fragment. Otherwise each
  non-empty result is wrapped in `<root>`…`</root>`. The whole output sits
  between two copies of the wrapper string.
- **xml_splitter.py** copies the records, stripped of default namespace
  declarations (`xmlns=".*?"`), into numbered files `<stem>1.xml`,
  `<stem>2.xml`, …. Each file is wrapped in `<wrapper>`…`</wrapper>`. For
  `count >= 1` the first file holds `count + 1` records and every later
  full file `count`; the last file holds what remains, which may be
  nothing but the wrapper tags. For `count <= 0` every file holds one
  record, and the last file again holds only the wrapper tags.

The project has these modules:

- `Xml` (xml.dfy): element trees, templates, errors, and the library calls
  the programs make. Those calls are parameters:
  - `Selector` stands for lxml's `xpath`;
  - `Serializer` stands for `etree.tostring`;
  - `FragmentParser` stands for `etree.fromstring`, and `None` means the
    fragment is not well-formed.
- `Text` (text.dfy): string concatenation and Python's `str.split`.
- `Namespaces` (namespaces.dfy): both regular-expression substitutions,
  written out exactly as Python's `re.sub` runs them.
- `BarParser` (bar_parser.dfy), `BarExtractor` (bar_extractor.dfy) and
  `Splitter` (splitter.dfy): the three tools.

Each modelled loop of the source is a `method` with a `while` loop. Its
postcondition ties its result to a recursive specification function, and
the lemmas state the properties of those functions. The splitter's
`file_name_generator` is an endless `while (True)` generator; it is the
class `FileNameGenerator`, whose counter is a field and whose `Next` is one
step of the generator (increment, then yield the name). The
`element_generator` and `generate_next_file` generators are left out (see
below). A `sys.exit` inside
the parser's walk is an `Err` result, and it stops every enclosing loop.

## Model

| member | source | states |
|---|---|---|
| Namespaces.StripDefaultNs | xml_splitter.py:86 | the substitution `xmlns=".*?"` (also xml2bar_extractor.py line 115); the result is never longer than the input |
| Namespaces.MatchDefaultNs | xml2bar_extractor.py:115 | a match is `xmlns="` followed by text that ends at the first `"` on the same line; no match means the prefix is absent or the quote is never closed |
| Namespaces.StripNsGreedy | xml2bar_parser.py:92 | the greedy substitution `xmlns.*=".*?"`; the result is never longer than the input |
| Namespaces.MatchNsGreedy | xml2bar_parser.py:92 | a match starts with `xmlns`, is at least 8 characters long, and ends at a `"` |
| Namespaces.GreedyBacktrack | xml2bar_parser.py:92 | the backtracking of the greedy `.*`: the match ends at a closing quote |
| Namespaces.ClosingQuote | xml2bar_parser.py:92 | the lazy `".*?"`: the first `"` after the position, with no newline or quote before it |
| Namespaces.LineEnd | xml2bar_parser.py:92 | where `.*` stops: the first newline, or the end of the text |
| Namespaces.StripDefaultNsIdentity | xml_splitter.py:86 | a text without `xmlns="` is left unchanged |
| Namespaces.StripNsGreedyIdentity | xml2bar_parser.py:92 | a text without `xmlns` is left unchanged |
| Namespaces.StripDefaultNsKeeps | xml_splitter.py:86 | a prefix at none of whose positions a match starts is copied unchanged, and stripping goes on after it |
| Namespaces.StripNsGreedyKeeps | xml2bar_parser.py:92 | the same for the greedy substitution |
| Namespaces.ClosingQuoteAt | xml2bar_extractor.py:115 | the lazy `.*?"` ends at the first quote when no newline comes before it |
| Namespaces.GreedyBacktrackAt | xml2bar_parser.py:92 | the greedy `.*` backtracks to the last `="` before the end of the line whose quote is closed; a later `="` whose quote is not closed on the line does not stop it |
| Namespaces.GreedyMatchAt | xml2bar_parser.py:92 | on a text that starts with `xmlns`, the match runs to the closing quote of the last `="` on the first line whose quote is closed |
| Namespaces.StripDefaultNsRemovesDeclaration | xml2bar_extractor.py:115 | in `pre + xmlns="uri" + rest`, where `pre` holds no `xmlns="` and `uri` no quote or newline, exactly the declaration is deleted and stripping goes on in `rest` (also xml_splitter.py line 86) |
| Namespaces.GreedyMatchThrough | xml2bar_parser.py:92 | a declaration followed on its line by any text and an attribute value `="v"`, after which no `="` on the line has a closed value, is matched through that value's closing quote; the lines after it are untouched |
| Namespaces.StripNsGreedyRemovesThrough | xml2bar_parser.py:92 | in `pre + xmlns="uri" + mid + ="v" + tail + more`, where `pre` holds no `xmlns` and `more` is empty or starts a new line, everything from `xmlns` to the quote after `v` is deleted (start tags, text and attributes in `mid` included), and stripping goes on in `tail + more` |
| Namespaces.ContainsTail | xml_splitter.py:86 | a text without the pattern neither starts with it nor contains it after its first character |
| Text.SplitOn | xml_splitter.py:52 | Python's `str.split` with one separator character: always at least one piece |
| Text.SplitOnFirst | xml_splitter.py:52 | the first piece is a prefix without the separator, followed by the separator or the end |
| Text.SplitOnAt | xml_splitter.py:52 | splitting at a separator splits both sides independently |
| Text.SplitOnWithout | xml_splitter.py:52 | a text without the separator is one piece |
| Text.ConcatSnoc | xml2bar_parser.py:121 | appending one more written string to the output |
| Text.ConcatAppend | xml2bar_parser.py:120-122 | writing two runs of results one after the other writes their concatenation |
| BarParser.FieldValue | xml2bar_parser.py:49-59 | one slot; the only failure is a first match with child elements |
| BarParser.FieldValues | xml2bar_parser.py:47-59 | the slots of all expressions; the only failure is a leaf with child elements |
| BarParser.LineOf | xml2bar_parser.py:46-72 | the line of one field list; the only failure is a leaf with child elements |
| BarParser.Walk | xml2bar_parser.py:75-87 | the output of one element; the only failure is a leaf with child elements |
| BarParser.WalkPrefix | xml2bar_parser.py:81-86 | the output of the first n template keys; the only failure is a leaf with child elements |
| BarParser.EntryOutput | xml2bar_parser.py:82-86 | the output of one template key; the only failure is a leaf with child elements |
| BarParser.WalkAll | xml2bar_parser.py:77-79 | the output of a list of elements; the only failure is a leaf with child elements |
| BarParser.StartProcessing | xml2bar_parser.py:90-94 | a record fails with `FragmentParseError` exactly when its greedily stripped fragment does not parse; any other failure is a leaf with child elements |
| BarParser.WriteLine | xml2bar_parser.py:46-72 | equals `LineOf`: the first leaf with child elements raises its tag as an error; otherwise the line is empty when every slot is empty, and is the key followed by one `\|`-prefixed slot per expression otherwise |
| BarParser.ProcessElement | xml2bar_parser.py:75-87 | equals `Walk`: the concatenation, in template order, of each field-list line and each nested walk; the first error wins |
| BarParser.ProcessElementList | xml2bar_parser.py:77-79 | equals `WalkAll`: the walks of the selected elements, in order |
| BarParser.WriteResults | xml2bar_parser.py:120-122 | the file holds the results concatenated in arrival order; the counter is their number |
| BarParser.RunSequential | xml2bar_parser.py:126-129 | without an error, every record's output is written in order and counted; with one, exactly the records before the first failing one are written and counted, and the error is reported |
| BarParser.FieldValuesErrSticky | xml2bar_parser.py:55-56 | once a slot has failed, the later expressions do not change the outcome |
| BarParser.WalkPrefixErrSticky | xml2bar_parser.py:81-86 | once a template key has failed, the later keys do not change the outcome |
| BarParser.WalkAllErrSticky | xml2bar_parser.py:78-79 | once an element's walk has failed, the later elements do not change the outcome |
| BarParser.AllResultsErrSticky | xml2bar_parser.py:127-129 | once a record has failed, the later records do not change the outcome |
| BarParser.FieldValuesSlots | xml2bar_parser.py:48-59 | one value per expression: "" for an empty expression or no match, else the text of the first match |
| BarParser.FieldValuesOkIff | xml2bar_parser.py:53-56 | the values are computed exactly when no expression's first match has child elements |
| BarParser.FieldValuesFirstOffender | xml2bar_parser.py:54-56 | the error names the tag of the first offending match |
| BarParser.SlotsSplit | xml2bar_parser.py:63-68 | splitting the slots at `\|` gives back an empty lead piece and then the values, when no value contains `\|` |
| BarParser.LineColumns | xml2bar_parser.py:61-72 | a line for K expressions has K+1 `\|`-separated pieces after its key, and the pieces after the first are the values |
| BarParser.LineBlankIff | xml2bar_parser.py:69-70 | the line is empty exactly when every value is empty |
| BarParser.AppendAssoc | xml2bar_parser.py:83-86 | appending partial outputs is associative, error included |
| BarParser.AppendUnit | xml2bar_parser.py:76 | the empty output is neutral |
| BarParser.WalkAllAppend | xml2bar_parser.py:78-79 | walking a list of elements is walking each part in turn |
| BarParser.WalkAllSingle | xml2bar_parser.py:77-79 | a one-element list walks that element |
| BarParser.WalkPrefixOfAppend | xml2bar_parser.py:81-86 | the output of the first keys does not depend on the keys after them |
| BarParser.WalkPrefixOfAppendTail | xml2bar_parser.py:81-86 | the later keys contribute after the earlier ones |
| BarParser.WalkTemplateAppend | xml2bar_parser.py:81-87 | a template split in two gives the two outputs one after the other; the empty template gives "" |
| BarParser.WalkOtherIgnored | xml2bar_parser.py:82-86 | a key whose value is neither a list nor an object contributes nothing |
| BarParser.StartProcessingWithoutNamespace | xml2bar_parser.py:90-94 | a fragment without `xmlns` is parsed as it is and walked |
| BarExtractor.RawLine | xml2bar_extractor.py:80-93 | what `write_line` returns: each expression's contribution in list order, with no delimiter and the key unused; its properties are `RawLineSnoc`, `RawLineAppend`, `RawLineEmptyIf` and `RawLineEmptyIff` |
| BarExtractor.Walk | xml2bar_extractor.py:96-110 | the corrected `process_element` on one element, with the whole-mode flag passed down and `output_line` returned; its properties are the `Whole…` and `Walk…Append` lemmas |
| BarExtractor.WalkPrefix | xml2bar_extractor.py:102-109 | the output after the first n template keys; in whole mode a non-empty output is kept as it is, since the loop has stopped |
| BarExtractor.EntryOutput | xml2bar_extractor.py:103-107 | the output of one template key: a list gives its `write_line`, a dict walks the selected elements, anything else gives nothing |
| BarExtractor.WalkAll | xml2bar_extractor.py:98-100 | the corrected walk of a list of elements: every element in order, with no early exit |
| BarExtractor.WriteLine | xml2bar_extractor.py:80-93 | equals `RawLine`: the serialisations of every match of every non-empty expression, in order, with no delimiter |
| BarExtractor.ProcessElement | xml2bar_extractor.py:96-110 | equals `Walk`: the concatenation of the keys' outputs; in whole mode, the output as soon as it is non-empty |
| BarExtractor.ProcessElementList | xml2bar_extractor.py:98-100 | equals `WalkAll`: the walks of the selected elements, concatenated |
| BarExtractor.WriteOutput | xml2bar_extractor.py:145-160 | the file holds the wrapper, each non-empty result inside `<root>` tags (or each result as it is in whole mode), then the wrapper; the counter counts every result |
| BarExtractor.JoinValues | xml2bar_extractor.py:89-93 | the collected strings run together in order |
| BarExtractor.RawLineSnoc | xml2bar_extractor.py:82-88 | one more expression adds its contribution at the end |
| BarExtractor.SerializedSnoc | xml2bar_extractor.py:87-88 | one more match adds its serialisation at the end |
| BarExtractor.SerializedAppend | xml2bar_extractor.py:87-88 | serialising two runs of matches is serialising each |
| BarExtractor.SerializedEmptyIff | xml2bar_extractor.py:87-88 | with non-empty serialisations, the serialised matches are empty exactly when there is no match |
| BarExtractor.RawLineAppend | xml2bar_extractor.py:82-91 | the line for two runs of expressions is the two lines concatenated |
| BarExtractor.RawLineEmptyIf | xml2bar_extractor.py:81-93 | for any serialiser, the line is empty when every expression is empty or matches nothing |
| BarExtractor.RawLineEmptyIff | xml2bar_extractor.py:82-91 | for a serialiser that never yields "", the line is empty exactly when every expression is empty or matches nothing |
| BarExtractor.WholeStopsAt | xml2bar_extractor.py:108-109 | in whole mode, once the output is non-empty, the later keys change nothing |
| BarExtractor.WholeIgnoresLaterEntries | xml2bar_extractor.py:108-109 | in whole mode, keys after a template part with output are not consulted |
| BarExtractor.WholeIsFirstNonEmptyEntry | xml2bar_extractor.py:102-109 | in whole mode, the output is that of the first key with output |
| BarExtractor.WholeEmptyBefore | xml2bar_extractor.py:102-109 | in whole mode, keys without output leave the output empty |
| BarExtractor.WholeNonEmptyIff | xml2bar_extractor.py:96-110 | the whole-mode walk is non-empty exactly when the full walk is |
| BarExtractor.WholePrefixNonEmptyIff | xml2bar_extractor.py:102-109 | the same for the first n keys |
| BarExtractor.WholeEntryNonEmptyIff | xml2bar_extractor.py:103-107 | the same for one key |
| BarExtractor.WholeListNonEmptyIff | xml2bar_extractor.py:98-100 | the same for a list of elements |
| BarExtractor.WalkPrefixOfAppend | xml2bar_extractor.py:102-109 | the output of the first keys does not depend on the keys after them |
| BarExtractor.WalkPrefixOfAppendTail | xml2bar_extractor.py:102-107 | outside whole mode, the later keys contribute after the earlier ones |
| BarExtractor.WalkTemplateAppend | xml2bar_extractor.py:102-107 | outside whole mode, a template split in two gives the two outputs one after the other |
| BarExtractor.WalkAllAppend | xml2bar_extractor.py:98-100 | walking a list of elements is walking each part in turn |
| BarExtractor.StartProcessing | xml2bar_extractor.py:113-121 | a record fails exactly when its stripped fragment does not parse; in whole mode it yields either "" or its stripped fragment, never longer than the record |
| BarExtractor.StartProcessingResult | xml2bar_extractor.py:113-121 | a record that parses yields its walk, or in whole mode its stripped fragment when the walk is non-empty and "" otherwise |
| BarExtractor.WholeModeRoundTrip | xml2bar_extractor.py:113-121 | in whole mode, a record without a default namespace declaration whose walk has output is emitted unchanged |
| BarExtractor.Framed | xml2bar_extractor.py:153-158 | what the main loop writes between the wrapper tags: each result framed in turn; its properties are `FramedSnoc`, `FramedAppend`, `FramedWhole` and `FramedOverhead` |
| BarExtractor.FramedSnoc | xml2bar_extractor.py:153-158 | one more result adds its framed form to the output |
| BarExtractor.FramedAppend | xml2bar_extractor.py:150-158 | framing two runs of results is framing each in turn |
| BarExtractor.FramedWhole | xml2bar_extractor.py:157-158 | in whole mode the results are written as they are |
| BarExtractor.FramedLength | xml2bar_extractor.py:153-156 | outside whole mode, each non-empty result adds exactly `2*\|root\|+8` characters of tags and a newline |
| BarExtractor.FramedOverhead | xml2bar_extractor.py:153-158 | outside whole mode the output is the results plus the envelope characters of each non-empty one |
| BarExtractor.OverheadCount | xml2bar_extractor.py:153-156 | the envelope characters are `w` times the number of non-empty results |
| BarExtractor.EnvelopeWritten | xml2bar_extractor.py:154-156 | the three writes of a framed result produce its envelope |
| BarExtractor.ProcessElementAsWritten | xml2bar_extractor.py:96-110 | the function as written: the walk's output is discarded and `output_file` is returned; a nested template fails |
| BarExtractor.StartProcessingAsWritten | xml2bar_extractor.py:113-121 | the record processing around the as-written walk |
| BarExtractor.AsWrittenReturnsOutputPath | xml2bar_extractor.py:110 | for the empty template, the as-written code yields the output path (or, in whole mode, the record itself); the corrected code yields "" |
| BarExtractor.AsWrittenNestedFails | xml2bar_extractor.py:100-107 | a nested template fails as written; corrected, it walks the selected elements |
| Splitter.DecimalString | xml_splitter.py:38 | `str(n)`: a non-empty string of decimal digits |
| Splitter.DecimalRoundTrip | xml_splitter.py:38 | reading `str(n)` back gives n |
| Splitter.FileName | xml_splitter.py:38 | the k-th name is path, separator and stem, then decimal digits that read back to k, then `.xml` |
| Splitter.FileNamesDistinct | xml_splitter.py:34-38 | two counters give the same file name exactly when they are equal |
| Splitter.FileNameGenerator.constructor | xml_splitter.py:34-35 | the counter starts at 0 |
| Splitter.FileNameGenerator.Next | xml_splitter.py:36-38 | the counter goes up by one, and the name is path, separator, stem, counter and `.xml` |
| Splitter.Basename | xml_splitter.py:52 | `os.path.basename`: the longest suffix without `/` |
| Splitter.Stem | xml_splitter.py:52 | the base name up to its first `.`: a prefix without `.`, followed by `.` or the end |
| Splitter.OutputStem | xml_splitter.py:52 | the stem holds no `.` and no `/`, is a prefix of the base name, and is the whole base name when it has no `.` |
| Splitter.StripAll | xml_splitter.py:86 | every record stripped, one for one |
| Splitter.Split | xml_splitter.py:78-97 | the files written: the k-th is named with counter k and holds the wrapper tags around the k-th chunk of the stripped records |
| Splitter.StripAllSnoc | xml_splitter.py:86 | one more record adds its stripped form at the end |
| Splitter.SplitStart | xml_splitter.py:78-84 | before the first record, one file is open with the opening tag, named with counter 1, and the counter is 0 |
| Splitter.ChunksStep | xml_splitter.py:87-93 | the in-file counter's test `elem_counter > count - 1` closes the open file exactly when its element list is full |
| Splitter.SplitStepWithin | xml_splitter.py:86-93 | a record that leaves the open file below its limit is appended to it |
| Splitter.SplitCounterBound | xml_splitter.py:87-93 | for `count >= 1` the in-file counter is between 0 and `count` at the check |
| Splitter.SplitStepClose | xml_splitter.py:86-93 | a record that fills the open file closes it, and the next file is opened |
| Splitter.SplitFinish | xml_splitter.py:96-97 | closing the last open file gives one file per element list |
| Splitter.PiecesSnoc | xml_splitter.py:87-93 | one more record fills the last piece, and a piece that becomes full is followed by a new empty one |
| Splitter.ChunksSnoc | xml_splitter.py:87-93 | the same step for the files |
| Splitter.PiecesFlatten | xml_splitter.py:85-93 | the pieces put back together are the input |
| Splitter.ChunksFlatten | xml_splitter.py:85-93 | every record is written exactly once, in order |
| Splitter.SplitKeepsElements | xml_splitter.py:85-97 | the bodies of the files, put back together, are the stripped records |
| Splitter.ConcatAllFlatten | xml_splitter.py:86 | writing each chunk's records and then running the chunks together is writing all records in order |
| Splitter.ChunkSizes | xml_splitter.py:87-93 | for `count >= 1`: the first file holds `min(N, count+1)` records, each middle file exactly `count`, the last fewer than `count` |
| Splitter.PiecesSizes | xml_splitter.py:87-93 | N records give N / size + 1 pieces: all full except the last, which holds N % size |
| Splitter.LastChunkEmptyIff | xml_splitter.py:91-97 | the last file holds only the wrapper tags exactly when N = 0 or N = first size + m × later size |

## Left out

- Command-line parsing and validation (`validate_arguments`, `print_help`,
  `module_path`, directory creation, path resolution) are not modelled.
  The splitter's output directory and separator are parameters.
- XPath evaluation, serialisation and parsing are lxml code, and they are
  parameters. An XPath expression that yields strings or numbers instead of
  elements is not modelled, and neither is the `{*}` wildcard namespace of
  `iterparse`.
- `element_generator` (`etree.iterparse` and `elem.clear()`) is not
  modelled, and neither is the splitter's `generate_next_file`, which
  opens a file for each generated name. The records are
  given as the sequence of their serialisations, in the order their end
  tags occur. The effect of `clear()` on a record nested inside another is
  therefore not captured.
- JSON template loading is not modelled. The template is the `Template`
  datatype whose entries keep the key order of the `OrderedDict`, and a
  JSON scalar value is `Other`.
- The multiprocessing pool is not modelled. Under `imap_unordered` the
  results arrive in an order the model does not fix, so `WriteResults` and
  `WriteOutput` take the results in whatever order they arrive. They cover
  only runs in which every record succeeds. An exception raised in a worker
  (a `FragmentParseError` from `etree.fromstring`, or the extractor's
  as-written `TypeError`) is re-raised in the main loop and ends it, so the
  extractor's closing wrapper (xml2bar_extractor.py line 160) is never
  written; this is not modelled. A worker's `sys.exit` under the pool is
  not modelled either. Only the parser's sequential branch,
  `RunSequential`, models the early stop.
- xml2bar_extractor.py lines 164-167 are not modelled: the sequential
  branch calls `element_generator` with one argument instead of four, so
  it cannot run.
- Timing, stdout and stderr messages and the file handles are not modelled.
- BarParser.FieldValue: a leaf text of `None` is read as "". The source
  appends `None` and later tests it as false, so the printed line is the
  same.
- BarParser.WriteResults: results are modelled as character strings and
  are all written and counted. In the source (Python 2) a JSON key is a
  `unicode` string, and so is every non-blank line built from it, as is a
  non-ASCII element text. Writing it to the file opened in text mode at
  xml2bar_parser.py line 115 encodes it as ASCII, so a result with a
  non-ASCII character raises `UnicodeEncodeError` and ends the run at that
  record. This is not modelled.
- BarParser.RunSequential: the same encoding failure at
  xml2bar_parser.py line 128 is not modelled; the modelled early stop
  covers only a leaf with child elements and a fragment that does not parse.
- BarExtractor.WriteOutput: the extractor writes the byte strings of
  `tostring`, which the encoding failure above does not affect; a non-ASCII
  root tag in the envelope would, and that is not modelled.
- BarParser.WriteResults: the counter counts every record, including those
  whose output is empty. The tool's documentation calls it the number of
  accounts parsed.
- Splitter.Split: the first file holds `count + 1` records, not the `count`
  the tool's help text states. The model follows the code.
- Splitter.FileNamesDistinct: states that the names are distinct, not that
  they are ordered; as strings they are not (`f10.xml` sorts before `f2.xml`).
- Splitter.Basename: only `/` is a separator (POSIX `os.path.basename`).

## Findings

| source | as written | input that shows it | evidently intended | confidence | as-written member | corrected member |
|---|---|---|---|---|---|---|
| xml2bar_extractor.py:110 | `process_element` returns the global `output_file`, the output path, and discards `output_line` | any record with the empty template: the record's result is the output path (or the whole record in whole mode) | return the accumulated `output_line` | not executed | BarExtractor.AsWrittenReturnsOutputPath | BarExtractor.ProcessElement |
| xml2bar_extractor.py:100-107 | the recursive calls pass two arguments to a three-parameter function | a template with one nested entry `{"k": {…}}`: the call raises a `TypeError` | pass `is_whole_element` down | not executed | BarExtractor.AsWrittenNestedFails | BarExtractor.Walk |

The parser's greedy pattern `xmlns.*=".*?"` deletes everything from the
first `xmlns` on a line to the closing quote of the last `="` on that line
whose value is closed (`Namespaces.StripNsGreedyRemovesThrough`). That
includes attributes, and also the start tags and text of child elements
that share the line: `xmlns="u"><b k="2">t` becomes `>t`. The pattern is
applied to the serialised record, which is often a single line, so the
stripped fragment can be malformed and the parse then fails
(`FragmentParseError`); where it still parses, attributes and elements the
template looks for may be gone. The model keeps this behaviour as it is.
