/**
  What a snapshot loader hands to the paragraph strategies: the outcome of
  `loader.load_structured(path)`. Loaders are format readers outside the
  model; only the shapes of their results matter here. The DOCX loader returns
  paragraph dicts, the TXT loader a list of lines, and the fallback loader for
  `.bak` files returns the whole text as one string.
 */
module Extraction {
  import opened Wrappers

  /** One run of a paragraph dict, selected by its `"type"` key (default `"text"`). */
  datatype Run =
    | TextRun(text: string, bold: bool, italic: bool, underline: bool,
              font: Option<string>, size: Option<string>, color: Option<string>)
    | ImageRun
    | TableRun(rows: seq<seq<string>>)

  /**
    A paragraph dict. Optional values stand for keys that may be missing or
    `None`; `size` and `lineSpacing` hold the text the value formats to.
   */
  datatype ParaRecord = ParaRecord(
    text: Option<string>,
    runs: seq<Run>,
    lineSpacing: Option<string>,
    alignment: Option<string>,
    numbering: bool)

  /** An element of a list that does not start with a string; `repr` is its `str()`. */
  datatype Item = Record(fields: ParaRecord, repr: string) | Other(repr: string)

  /** The outcome of `loader.load_structured(path)`. */
  datatype Extracted =
    | NoLoader                  // the loader is None: the call raises AttributeError
    | Raises(message: string)   // the loader raised
    | NoneValue                 // the loader returned None
    | TextValue(text: string)   // the loader returned a str
    | Lines(lines: seq<string>) // a list of str
    | Records(items: seq<Item>) // a list whose first element is not a str

  /** Python truthiness of an optional string value. */
  predicate Truthy(o: Option<string>) {
    o.Some? && o.value != ""
  }

  /** Iterating a str yields its characters, each a one-character str. */
  function Characters(s: string): (r: seq<string>)
    ensures |r| == |s|
    ensures forall k :: 0 <= k < |s| ==> r[k] == [s[k]]
  {
    seq(|s|, k requires 0 <= k < |s| => [s[k]])
  }
}
