/** The data model shared by the two extractors and the splitter: parsed
    records, parsed templates, and the library calls (XPath selection,
    serialisation, fragment parsing) taken as parameters. */
module Xml {

  datatype Option<T> = None | Some(value: T)

  /** The ways a record can fail. `MissingArgumentError` stands for the
      Python `TypeError` raised by a call with too few arguments; only the
      as-written extractor can raise it. */
  datatype Error =
    | ChildElementError(tag: string)
    | FragmentParseError
    | MissingArgumentError

  datatype Result<T> = Ok(value: T) | Err(error: Error)

  /** A parsed element: its tag, its text (Python's `None` or a string) and
      its child elements in document order. */
  datatype Element = Element(tag: string, text: Option<string>, children: seq<Element>)

  /** The text of an element, with a missing text read as "". Both are
      falsy in Python and end up as an empty slot. */
  function TextOf(e: Element): string
  {
    match e.text
    case Some(s) => s
    case None => ""
  }

  /** A template node: its keys and values in the order of the JSON file. */
  datatype Template = Template(entries: seq<Entry>)

  datatype Entry = Entry(key: string, val: TVal)

  /** A JSON list of field expressions, a JSON object (a sub-template), or
      any other JSON value, which the extractors ignore. */
  datatype TVal =
    | FieldList(exprs: seq<string>)
    | Nested(node: Template)
    | Other

  /** `element.xpath(expr)`: the matched elements in document order. */
  type Selector = (Element, string) -> seq<Element>

  /** `etree.tostring(element)`. */
  type Serializer = Element -> string

  /** `etree.fromstring(fragment)`; `None` when the fragment is malformed. */
  type FragmentParser = string -> Option<Element>
}
