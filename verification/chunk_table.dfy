/**
  The two table models that show chunks as rows `(old line, symbol, new
  line, text, tag)`: app/models/diff_chunk_model.py reads every key with a
  default, while the copy in app/widgets/paragraph_diff_table_view.py reads
  `a_idx` and `b_idx` without one and so raises on a chunk that lacks them.
 */
module ChunkTable {
  import opened Wrappers
  import opened Text
  import opened Opcodes
  import opened Chunks

  /** One table row; the first four fields are the visible columns. */
  datatype Row = Row(oldLine: string, symbol: string, newLine: string, text: string, tag: string)

  /** The header row: old line, symbol, new line, text. */
  const Headers: seq<string> := ["旧", "", "新", "内容"]

  /** `columnCount`: one column per header, the four visible fields of a row. */
  function ColumnCount(): (n: nat)
    ensures n == |Headers|
  {
    4
  }

  /** `str(idx + 1)` for an index at or above zero, otherwise the empty string. */
  function LineNumber(idx: Option<int>): (s: string)
    ensures s == "" <==> idx.None? || idx.value < 0
    ensures s != "" ==> (forall k :: 0 <= k < |s| ==> IsDigit(s[k])) && DigitsValue(s) == idx.value + 1
  {
    if idx.Some? && idx.value >= 0 then
      NatToStringRoundTrip(idx.value + 1);
      NatToString(idx.value + 1)
    else ""
  }

  /** The symbol column and the text shown for a tag. */
  function SymbolAndText(d: ChunkDict, tag: string): (r: (string, string))
    ensures r.0 == "+" <==> tag == "insert"
    ensures r.0 == "-" <==> tag == "delete"
    ensures r.0 == "~" <==> tag == "replace"
    ensures r.0 == "" <==> tag != "insert" && tag != "delete" && tag != "replace"
    ensures r.1 == (if tag in {"insert", "replace"} then d.bText.GetOr("") else d.aText.GetOr(""))
  {
    if tag == "insert" then ("+", d.bText.GetOr(""))
    else if tag == "delete" then ("-", d.aText.GetOr(""))
    else if tag == "replace" then ("~", d.bText.GetOr(""))
    else ("", d.aText.GetOr(""))
  }

  /** The row `_prepare_rows` builds for one chunk, with a missing index read as -1. */
  function RowOf(d: ChunkDict): (r: Row)
    ensures r.tag == d.tag.GetOr("equal")
    ensures r.oldLine == "" <==> d.aIdx.None? || d.aIdx.value < 0
    ensures r.newLine == "" <==> d.bIdx.None? || d.bIdx.value < 0
    ensures r.symbol != "" <==> r.tag in {"insert", "delete", "replace"}
  {
    var tag := d.tag.GetOr("equal");
    var (symbol, text) := SymbolAndText(d, tag);
    Row(LineNumber(d.aIdx), symbol, LineNumber(d.bIdx), text, tag)
  }

  /** `_prepare_rows` of app/models/diff_chunk_model.py: one row per chunk, in order. */
  function PrepareRows(chunks: seq<ChunkDict>): (rows: seq<Row>)
    ensures |rows| == |chunks|
    ensures forall k :: 0 <= k < |chunks| ==> rows[k] == RowOf(chunks[k])
  {
    if |chunks| == 0 then [] else [RowOf(chunks[0])] + PrepareRows(chunks[1..])
  }

  /** `rowCount` of the model built from `chunks`: one row per chunk. */
  function RowCount(chunks: seq<ChunkDict>): (n: nat)
    ensures n == |chunks|
  {
    |PrepareRows(chunks)|
  }

  /** The `KeyError` a chunk raises when read with `ch["a_idx"]` and `ch["b_idx"]`. */
  function MissingIndex(d: ChunkDict): Option<string> {
    if d.aIdx.None? then Some("a_idx")
    else if d.bIdx.None? then Some("b_idx")
    else None
  }

  /**
    `_prepare_rows` of app/widgets/paragraph_diff_table_view.py: the first
    chunk lacking an index raises `KeyError` and no table is built.
   */
  function PrepareRowsStrict(chunks: seq<ChunkDict>): (r: Result<seq<Row>, string>)
    ensures r.Success? <==> forall k :: 0 <= k < |chunks| ==> MissingIndex(chunks[k]).None?
    ensures r.Failure? ==> exists k :: 0 <= k < |chunks| && MissingIndex(chunks[k]) == Some(r.error)
  {
    if |chunks| == 0 then Success([])
    else match MissingIndex(chunks[0])
      case Some(key) => Failure(key)
      case None =>
        match PrepareRowsStrict(chunks[1..])
        case Failure(key) => Failure(key)
        case Success(rows) => Success([RowOf(chunks[0])] + rows)
  }

  /** The row for a chunk as a strategy builds it: tag, symbol, text and line numbers. */
  lemma RowOfChunk(c: Chunk)
    requires c.Para?
    ensures var row := RowOf(ToDict(c));
      && row.tag == TagName(c.tag)
      && row.symbol == (match c.tag case Insert => "+" case Delete => "-" case Replace => "~" case Equal => "")
      && row.text == (if c.tag == Insert || c.tag == Replace then c.bText else c.aText)
      && (c.aIdx >= 0 ==> DigitsValue(row.oldLine) == c.aIdx + 1)
      && (c.aIdx < 0 <==> row.oldLine == "")
      && (c.bIdx < 0 <==> row.newLine == "")
  {
  }

  /**
    Missing keys take their defaults: no tag reads as `"equal"` with an empty
    symbol and the old text, a missing index as an empty line number, and a
    missing text as the empty string.
   */
  lemma RowOfMissingKeys(d: ChunkDict)
    ensures d.tag.None? ==> RowOf(d).tag == "equal" && RowOf(d).symbol == "" && RowOf(d).text == d.aText.GetOr("")
    ensures d.aIdx.None? ==> RowOf(d).oldLine == ""
    ensures d.bIdx.None? ==> RowOf(d).newLine == ""
    ensures d.tag.Some? ==> RowOf(d).tag == d.tag.value
    ensures d.aText.None? && d.bText.None? ==> RowOf(d).text == ""
  {
  }

  /** Where both tables build rows, they build the same ones. */
  lemma {:induction false} StrictAgreesWithLenient(chunks: seq<ChunkDict>)
    requires forall k :: 0 <= k < |chunks| ==> MissingIndex(chunks[k]).None?
    ensures PrepareRowsStrict(chunks) == Success(PrepareRows(chunks))
  {
    if |chunks| > 0 {
      StrictAgreesWithLenient(chunks[1..]);
    }
  }

  /**
    Given the chunks of the structured strategy, the strict table fails
    exactly when there is a `skip` chunk, and otherwise shows one row per
    chunk like the lenient one.
   */
  lemma StrictFailsOnSkip(chunks: seq<Chunk>)
    ensures var ds := seq(|chunks|, k requires 0 <= k < |chunks| => ToDict(chunks[k]));
      && (PrepareRowsStrict(ds).Failure? <==> exists k :: 0 <= k < |chunks| && chunks[k].Skip?)
      && (PrepareRowsStrict(ds).Failure? ==> PrepareRowsStrict(ds).error == "a_idx")
      && (PrepareRowsStrict(ds).Success? ==> PrepareRowsStrict(ds).value == PrepareRows(ds))
      && RowCount(ds) == |chunks|
  {
    var ds := seq(|chunks|, k requires 0 <= k < |chunks| => ToDict(chunks[k]));
    assert forall k :: 0 <= k < |chunks| ==> ds[k] == ToDict(chunks[k]);
    if forall k :: 0 <= k < |chunks| ==> MissingIndex(ds[k]).None? {
      StrictAgreesWithLenient(ds);
    }
  }
}
