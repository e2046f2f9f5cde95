/**
  The side-by-side view (app/widgets/parallel_diff_view.py): every chunk of a
  known tag becomes one numbered line in the old-side column and one in the
  new-side column; the columns are joined with `<br>`. A `replace` chunk shows
  its character-level `inline` ops, rendered once per side. `escape` stands
  for `html.escape`.

  An inline op is first turned into the pieces of text a side shows, each with
  a style (plain, struck through, highlighted); the HTML is a function of the
  pieces. The pieces make "what the reader sees" a value the model can reason
  about.
 */
module ParallelView {
  import opened Wrappers
  import opened Text
  import opened Opcodes
  import opened Chunks

  /** `side == "a"` (old text, left column) or `side == "b"` (new text, right column). */
  datatype Side = Old | New

  datatype Style = Plain | Struck | Highlighted

  /** A fragment of text as one side shows it. */
  datatype Piece = Piece(style: Style, text: string)

  const Nbsp: string := "&nbsp;"
  const StruckOpen: string := "<span style=\"background:#ffeef0; text-decoration:line-through;\">"
  const HighlightOpen: string := "<span style=\"background:#e6ffed;\">"
  const SpanClose: string := "</span>"

  /** Python's `s or "&nbsp;"`. */
  function OrNbsp(s: string): (r: string)
    ensures r != ""
    ensures s != "" ==> r == s
  {
    if s == "" then Nbsp else s
  }

  /** The text one side shows of a list of pieces. */
  function Texts(ps: seq<Piece>): string
    decreases |ps|
  {
    if |ps| == 0 then "" else ps[0].text + Texts(ps[1..])
  }

  function PieceHtml(p: Piece, escape: string -> string): string {
    match p.style
    case Plain => escape(p.text)
    case Struck => StruckOpen + escape(p.text) + SpanClose
    case Highlighted => HighlightOpen + escape(p.text) + SpanClose
  }

  function PiecesHtml(ps: seq<Piece>, escape: string -> string): string
    decreases |ps|
  {
    if |ps| == 0 then "" else PieceHtml(ps[0], escape) + PiecesHtml(ps[1..], escape)
  }

  /** The text of one side of a list of inline ops. */
  function SideText(ops: seq<InlineOp>, side: Side): string {
    match side
    case Old => OldText(ops)
    case New => NewText(ops)
  }

  /**
    An op as the aligner cuts it: an `equal` op carries the same fragment on
    both sides, a `delete` op nothing on the new side and an `insert` op
    nothing on the old side.
   */
  predicate CoherentOp(op: InlineOp) {
    match op.tag
    case Equal => op.a == op.b
    case Delete => op.b == ""
    case Insert => op.a == ""
    case Replace => true
  }

  predicate Coherent(ops: seq<InlineOp>) {
    forall k :: 0 <= k < |ops| ==> CoherentOp(ops[k])
  }

  // ---------------------------------------------------------------- _render_inline

  /**
    What one inline op shows on a side: an `equal` fragment on both sides, a
    `delete` fragment struck through on the old side, an `insert` fragment
    highlighted on the new side, and a `replace` op as a deletion on the old
    side and an insertion on the new one.
   */
  function OpPieces(op: InlineOp, side: Side): (r: seq<Piece>)
    ensures |r| <= 1
    ensures |r| == 0 <==> (op.tag == Delete && side.New?) || (op.tag == Insert && side.Old?)
    ensures forall p :: p in r ==> p.style != (if side == Old then Highlighted else Struck)
  {
    match op.tag
    case Equal => [Piece(Plain, op.a)]
    case Delete => if side == Old then [Piece(Struck, op.a)] else []
    case Insert => if side == New then [Piece(Highlighted, op.b)] else []
    case Replace => if side == Old then [Piece(Struck, op.a)] else [Piece(Highlighted, op.b)]
  }

  /** The same for the code as written, where a `replace` op shows nothing on either side. */
  function OpPiecesAsWritten(op: InlineOp, side: Side): (r: seq<Piece>)
    ensures op.tag == Replace ==> r == []
    ensures op.tag != Replace ==> r == OpPieces(op, side)
  {
    if op.tag == Replace then [] else OpPieces(op, side)
  }

  /** The pieces of a whole inline list, in order. */
  function Pieces(ops: seq<InlineOp>, side: Side): (r: seq<Piece>)
    ensures forall p :: p in r ==> p.style != (if side == Old then Highlighted else Struck)
    decreases |ops|
  {
    if |ops| == 0 then [] else OpPieces(ops[0], side) + Pieces(ops[1..], side)
  }

  function PiecesAsWritten(ops: seq<InlineOp>, side: Side): seq<Piece>
    decreases |ops|
  {
    if |ops| == 0 then [] else OpPiecesAsWritten(ops[0], side) + PiecesAsWritten(ops[1..], side)
  }

  /** `_render_inline(inline_ops, side)` with `replace` ops shown. */
  function RenderInline(ops: seq<InlineOp>, side: Side, escape: string -> string): (html: string)
    ensures html != ""
    ensures PiecesHtml(Pieces(ops, side), escape) != "" ==> html == PiecesHtml(Pieces(ops, side), escape)
  {
    OrNbsp(PiecesHtml(Pieces(ops, side), escape))
  }

  /** `_render_inline(inline_ops, side)` as written. */
  function RenderInlineAsWritten(ops: seq<InlineOp>, side: Side, escape: string -> string): (html: string)
    ensures html != ""
    ensures ops == [] ==> html == Nbsp
  {
    OrNbsp(PiecesHtml(PiecesAsWritten(ops, side), escape))
  }

  lemma {:induction false} TextsAppend(xs: seq<Piece>, ys: seq<Piece>)
    ensures Texts(xs + ys) == Texts(xs) + Texts(ys)
    decreases |xs|
  {
    if |xs| == 0 {
      assert xs + ys == ys;
    } else {
      assert (xs + ys)[1..] == xs[1..] + ys;
      TextsAppend(xs[1..], ys);
    }
  }

  /** The fragment an op carries for a side. */
  function Fragment(op: InlineOp, side: Side): string {
    if side == Old then op.a else op.b
  }

  lemma SideTextCons(ops: seq<InlineOp>, side: Side)
    requires |ops| > 0
    ensures SideText(ops, side) == Fragment(ops[0], side) + SideText(ops[1..], side)
  {
  }

  /** One coherent op shows on each side exactly that side's fragment. */
  lemma OpPiecesText(op: InlineOp, side: Side)
    requires CoherentOp(op)
    ensures Texts(OpPieces(op, side)) == Fragment(op, side)
    ensures Texts(OpPiecesAsWritten(op, side)) == (if op.tag == Replace then "" else Fragment(op, side))
  {
    var head := OpPieces(op, side);
    if |head| == 1 {
      assert head[1..] == [];
    }
  }

  lemma CoherentTail(ops: seq<InlineOp>)
    requires |ops| > 0 && Coherent(ops)
    ensures CoherentOp(ops[0]) && Coherent(ops[1..])
  {
    forall k | 0 <= k < |ops[1..]| ensures CoherentOp(ops[1..][k]) {
      assert ops[1..][k] == ops[k + 1];
    }
  }

  /**
    Each side shows exactly its own text: the old side spells out the old
    fragments and the new side the new ones, in order, with nothing left out.
   */
  lemma {:induction false} PiecesSpellSide(ops: seq<InlineOp>, side: Side)
    requires Coherent(ops)
    ensures Texts(Pieces(ops, side)) == SideText(ops, side)
    decreases |ops|
  {
    if |ops| > 0 {
      CoherentTail(ops);
      PiecesSpellSide(ops[1..], side);
      TextsAppend(OpPieces(ops[0], side), Pieces(ops[1..], side));
      OpPiecesText(ops[0], side);
      SideTextCons(ops, side);
    }
  }

  /** Without `replace` ops the code as written and the corrected rendering agree. */
  lemma {:induction false} AsWrittenAgreesWithoutReplace(ops: seq<InlineOp>, side: Side, escape: string -> string)
    requires forall k :: 0 <= k < |ops| ==> ops[k].tag != Replace
    ensures PiecesAsWritten(ops, side) == Pieces(ops, side)
    ensures RenderInlineAsWritten(ops, side, escape) == RenderInline(ops, side, escape)
    decreases |ops|
  {
    if |ops| > 0 {
      assert ops[0].tag != Replace;
      assert forall k :: 0 <= k < |ops[1..]| ==> ops[1..][k].tag != Replace by {
        forall k | 0 <= k < |ops[1..]| ensures ops[1..][k].tag != Replace {
          assert ops[1..][k] == ops[k + 1];
        }
      }
      AsWrittenAgreesWithoutReplace(ops[1..], side, escape);
    }
  }

  /** The length of the fragments a side's `replace` ops carry. */
  function ReplacedLength(ops: seq<InlineOp>, side: Side): nat
    decreases |ops|
  {
    if |ops| == 0 then 0
    else
      var here := if ops[0].tag != Replace then 0 else if side == Old then |ops[0].a| else |ops[0].b|;
      here + ReplacedLength(ops[1..], side)
  }

  /** As written, a side shows its text short by exactly the fragments of its `replace` ops. */
  lemma {:induction false} AsWrittenShortfall(ops: seq<InlineOp>, side: Side)
    requires Coherent(ops)
    ensures |Texts(PiecesAsWritten(ops, side))| + ReplacedLength(ops, side) == |SideText(ops, side)|
    decreases |ops|
  {
    if |ops| > 0 {
      CoherentTail(ops);
      AsWrittenShortfall(ops[1..], side);
      TextsAppend(OpPiecesAsWritten(ops[0], side), PiecesAsWritten(ops[1..], side));
      OpPiecesText(ops[0], side);
      SideTextCons(ops, side);
    }
  }

  /**
    Inline ops cut from a valid alignment are coherent, keep the opcodes'
    tags, and a `replace` op carries a non-empty fragment on both sides.
   */
  lemma {:induction false} InlineFromCoherent(a: string, b: string, ops: seq<Opcode>, i: nat, j: nat)
    requires ValidFrom(a, b, ops, i, j)
    ensures var r := InlineFrom(a, b, ops, i, j);
      && Coherent(r)
      && (forall k :: 0 <= k < |r| ==> r[k].tag == ops[k].tag)
      && (forall k :: 0 <= k < |r| && r[k].tag == Replace ==> r[k].a != "" && r[k].b != "")
    decreases |ops|
  {
    if |ops| > 0 {
      var op := ops[0];
      InlineFromCoherent(a, b, ops[1..], op.i2, op.j2);
      var head := InlineOp(op.tag, a[op.i1..op.i2], b[op.j1..op.j2]);
      var rest := InlineFrom(a, b, ops[1..], op.i2, op.j2);
      var r := InlineFrom(a, b, ops, i, j);
      assert r == [head] + rest;
      assert CoherentOp(head);
      forall k | 0 <= k < |r|
        ensures CoherentOp(r[k]) && r[k].tag == ops[k].tag
        ensures r[k].tag == Replace ==> r[k].a != "" && r[k].b != ""
      {
        if k > 0 {
          assert r[k] == rest[k - 1] && ops[k] == ops[1..][k - 1];
        }
      }
    }
  }

  lemma {:induction false} ReplacedLengthPositive(ops: seq<InlineOp>, side: Side, k: nat)
    requires k < |ops| && ops[k].tag == Replace && Fragment(ops[k], side) != ""
    ensures ReplacedLength(ops, side) > 0
    decreases k
  {
    if k > 0 {
      ReplacedLengthPositive(ops[1..], side, k - 1);
    }
  }

  /**
    As written, whenever the character alignment of a replaced paragraph
    contains a `replace` op, either column shows less than its text: the
    replaced characters vanish from both sides.
   */
  lemma AsWrittenLosesText(a: string, b: string, codes: seq<Opcode>, k: nat, side: Side)
    requires ValidOpcodes(a, b, codes)
    requires k < |codes| && codes[k].tag == Replace
    ensures Texts(PiecesAsWritten(InlineOps(a, b, codes), side)) != (if side == Old then a else b)
  {
    var ops := InlineOps(a, b, codes);
    InlineFromCoherent(a, b, codes, 0, 0);
    InlineRoundTrip(a, b, codes);
    ReplacedLengthPositive(ops, side, k);
    AsWrittenShortfall(ops, side);
  }

  /** The character alignment of "abc" with "axc" and the inline ops cut from it. */
  lemma AbcAxcInlineOps()
    ensures ValidOpcodes("abc", "axc", [Opcode(Equal, 0, 1, 0, 1), Opcode(Replace, 1, 2, 1, 2), Opcode(Equal, 2, 3, 2, 3)])
    ensures InlineOps("abc", "axc", [Opcode(Equal, 0, 1, 0, 1), Opcode(Replace, 1, 2, 1, 2), Opcode(Equal, 2, 3, 2, 3)])
         == [InlineOp(Equal, "a", "a"), InlineOp(Replace, "b", "x"), InlineOp(Equal, "c", "c")]
  {
    var a, b := "abc", "axc";
    var codes := [Opcode(Equal, 0, 1, 0, 1), Opcode(Replace, 1, 2, 1, 2), Opcode(Equal, 2, 3, 2, 3)];
    assert a[0] == 'a' && a[1] == 'b' && a[2] == 'c';
    assert b[0] == 'a' && b[1] == 'x' && b[2] == 'c';
    assert a[0..1] == "a" && a[1..2] == "b" && a[2..3] == "c";
    assert b[0..1] == "a";
    assert b[1..2] == "x";
    assert b[2..3] == "c";
    assert codes[1..][1..] == codes[2..] && codes[2..][1..] == [];
    assert codes[2..][0] == codes[2] && codes[1..][0] == codes[1];
    assert ValidFrom(a, b, codes[2..], 2, 2);
    assert ValidFrom(a, b, codes[1..], 1, 1);
    assert InlineFrom(a, b, [], 3, 3) == [];
    var r2 := InlineFrom(a, b, codes[2..], 2, 2);
    assert r2 == [InlineOp(Equal, "c", "c")] + InlineFrom(a, b, [], 3, 3);
    var r1 := InlineFrom(a, b, codes[1..], 1, 1);
    assert r1 == [InlineOp(Replace, "b", "x")] + r2;
    assert InlineOps(a, b, codes) == [InlineOp(Equal, "a", "a")] + r1;
  }

  /**
    The smallest case: aligning "abc" with "axc" by character gives a
    `replace` op for "b" against "x", and the new column as written shows
    "ac".
   */
  lemma AsWrittenDropsReplacedText()
    ensures ValidOpcodes("abc", "axc", [Opcode(Equal, 0, 1, 0, 1), Opcode(Replace, 1, 2, 1, 2), Opcode(Equal, 2, 3, 2, 3)])
    ensures Texts(PiecesAsWritten(InlineOps("abc", "axc", [Opcode(Equal, 0, 1, 0, 1), Opcode(Replace, 1, 2, 1, 2), Opcode(Equal, 2, 3, 2, 3)]), New)) == "ac"
  {
    AbcAxcInlineOps();
    var ops := [InlineOp(Equal, "a", "a"), InlineOp(Replace, "b", "x"), InlineOp(Equal, "c", "c")];
    assert ops[1..][1..] == [ops[2]] && ops[2..][1..] == [];
    assert PiecesAsWritten([ops[2]], New) == [Piece(Plain, "c")];
    assert PiecesAsWritten(ops[1..], New) == [Piece(Plain, "c")];
    var ps := [Piece(Plain, "a"), Piece(Plain, "c")];
    assert PiecesAsWritten(ops, New) == ps;
    assert ps[1..] == [Piece(Plain, "c")];
  }

  // ---------------------------------------------------------------- load_chunks

  /** The symbol, old-side HTML and new-side HTML of one line. */
  datatype Cell = Cell(symbol: string, left: string, right: string)

  /** One numbered line, present in both columns. */
  datatype Line = Line(number: nat, cell: Cell)

  /** The delete symbol is U+2212 MINUS SIGN, not the ASCII hyphen. */
  const Minus: string := "\U{2212}"

  const SkipOpen: string := "<span class=\"skip\">… "

  /** The fold row: `… {count} unchanged …`. */
  function SkipHtml(count: int): (html: string)
    ensures |html| > |SkipOpen| + |IntToString(count)|
    ensures html[..|SkipOpen|] == SkipOpen
    ensures html[|SkipOpen|..|SkipOpen| + |IntToString(count)|] == IntToString(count)
  {
    SkipOpen + IntToString(count) + " unchanged …</span>"
  }

  /** The five tags `load_chunks` turns into a line. */
  predicate Shown(tag: Option<string>) {
    tag.Some? && tag.value in {"equal", "insert", "delete", "replace", "skip"}
  }

  /**
    The line a chunk becomes, or `None` for a tag the view ignores. `equal`
    shows the old text on both sides; `insert` and `delete` leave the other
    side blank; `replace` renders the inline ops (none if the key is
    missing) once per side; `skip` shows its count, zero if missing, on both.
   */
  function CellOf(d: ChunkDict, escape: string -> string): (r: Option<Cell>)
    ensures r.Some? <==> Shown(d.tag)
    ensures r.Some? ==> r.value.left != "" && r.value.right != ""
    ensures d.tag == Some("equal") || d.tag == Some("skip") ==> r.value.left == r.value.right
    ensures d.tag == Some("insert") ==> r.value.symbol == "+" && r.value.left == Nbsp
    ensures d.tag == Some("delete") ==> r.value.symbol == Minus && r.value.right == Nbsp
    ensures d.tag == Some("replace") && d.inline.None? ==> r.value.left == Nbsp && r.value.right == Nbsp
    ensures d.tag == Some("skip") ==> r.value.left == SkipHtml(d.count.GetOr(0))
  {
    match d.tag
    case Some("equal") =>
      var html := OrNbsp(escape(d.aText.GetOr("")));
      Some(Cell(" ", html, html))
    case Some("insert") =>
      Some(Cell("+", Nbsp, HighlightOpen + escape(d.bText.GetOr("")) + SpanClose))
    case Some("delete") =>
      Some(Cell(Minus, StruckOpen + escape(d.aText.GetOr("")) + SpanClose, Nbsp))
    case Some("replace") =>
      var ops := d.inline.GetOr([]);
      Some(Cell("~", RenderInline(ops, Old, escape), RenderInline(ops, New, escape)))
    case Some("skip") =>
      var html := SkipHtml(d.count.GetOr(0));
      Some(Cell(" ", html, html))
    case _ => None
  }

  /** No op of an inline list is a `replace` op. */
  predicate NoReplaceOps(ops: seq<InlineOp>) {
    forall k :: 0 <= k < |ops| ==> ops[k].tag != Replace
  }

  /**
    The line a chunk becomes in the code as written: the same as `CellOf`,
    except that a `replace` chunk's inline ops are rendered the way
    `_render_inline` is written, dropping every `replace` op.
   */
  function CellOfAsWritten(d: ChunkDict, escape: string -> string): (r: Option<Cell>)
    ensures r.Some? <==> Shown(d.tag)
    ensures r.Some? ==> r.value.left != "" && r.value.right != ""
    ensures d.tag != Some("replace") ==> r == CellOf(d, escape)
    ensures r.Some? ==> r.value.symbol == CellOf(d, escape).value.symbol
    ensures d.tag == Some("replace") && d.inline.None? ==> r.value.left == Nbsp && r.value.right == Nbsp
  {
    if d.tag == Some("replace") then
      var ops := d.inline.GetOr([]);
      Some(Cell("~", RenderInlineAsWritten(ops, Old, escape), RenderInlineAsWritten(ops, New, escape)))
    else CellOf(d, escape)
  }

  /** Without `replace` inline ops, a chunk's line is the same in the code as written and corrected. */
  lemma AsWrittenCellAgreesWithoutReplace(d: ChunkDict, escape: string -> string)
    requires NoReplaceOps(d.inline.GetOr([]))
    ensures CellOfAsWritten(d, escape) == CellOf(d, escape)
  {
    if d.tag == Some("replace") {
      AsWrittenAgreesWithoutReplace(d.inline.GetOr([]), Old, escape);
      AsWrittenAgreesWithoutReplace(d.inline.GetOr([]), New, escape);
    }
  }

  /** The colour of a symbol; the blank symbol falls back to grey. */
  function SymbolColor(symbol: string): string {
    if symbol == "+" then "#34c759"
    else if symbol == Minus then "#ff3b30"
    else if symbol == "~" then "#ff9500"
    else "#888"
  }

  /** The prefix `_add_line` puts before both sides' HTML: the line number and the coloured symbol. */
  function Prefix(l: Line): string {
    "<span class=\"ln\">" + NatToString(l.number) + "</span>"
    + "<span style=\"color:" + SymbolColor(l.cell.symbol) + "; font-weight:bold;\">" + l.cell.symbol + "</span>"
  }

  function LeftHtml(l: Line): string {
    Prefix(l) + l.cell.left
  }

  function RightHtml(l: Line): string {
    Prefix(l) + l.cell.right
  }

  function LeftColumn(ls: seq<Line>): (r: seq<string>)
    ensures |r| == |ls|
  {
    seq(|ls|, k requires 0 <= k < |ls| => LeftHtml(ls[k]))
  }

  function RightColumn(ls: seq<Line>): (r: seq<string>)
    ensures |r| == |ls|
  {
    seq(|ls|, k requires 0 <= k < |ls| => RightHtml(ls[k]))
  }

  /** The chunks that become lines, in order. */
  function ShownChunks(ds: seq<ChunkDict>): (r: seq<ChunkDict>)
    ensures forall k :: 0 <= k < |r| ==> Shown(r[k].tag)
    decreases |ds|
  {
    if |ds| == 0 then []
    else if Shown(ds[0].tag) then [ds[0]] + ShownChunks(ds[1..])
    else ShownChunks(ds[1..])
  }

  /** The cell of every chunk, `None` where the chunk is skipped. */
  function CellsOf(ds: seq<ChunkDict>, escape: string -> string): (r: seq<Option<Cell>>)
    ensures |r| == |ds|
    ensures forall k :: 0 <= k < |ds| ==> r[k] == CellOf(ds[k], escape)
  {
    seq(|ds|, k requires 0 <= k < |ds| => CellOf(ds[k], escape))
  }

  /** The cell of every chunk in the code as written. */
  function CellsOfAsWritten(ds: seq<ChunkDict>, escape: string -> string): (r: seq<Option<Cell>>)
    ensures |r| == |ds|
    ensures forall k :: 0 <= k < |ds| ==> r[k] == CellOfAsWritten(ds[k], escape)
  {
    seq(|ds|, k requires 0 <= k < |ds| => CellOfAsWritten(ds[k], escape))
  }

  /** Number the present cells consecutively from `next`. */
  function Number(cells: seq<Option<Cell>>, next: nat): seq<Line>
    decreases |cells|
  {
    if |cells| == 0 then []
    else match cells[0]
      case None => Number(cells[1..], next)
      case Some(c) => [Line(next, c)] + Number(cells[1..], next + 1)
  }

  /** The lines of `ds`, numbered from `next` on. */
  function Rows(ds: seq<ChunkDict>, escape: string -> string, next: nat): seq<Line> {
    Number(CellsOf(ds, escape), next)
  }

  /** The lines of `ds` in the code as written, numbered from `next` on. */
  function RowsAsWritten(ds: seq<ChunkDict>, escape: string -> string, next: nat): seq<Line> {
    Number(CellsOfAsWritten(ds, escape), next)
  }

  /** Two cell lists with cells at the same places, carrying the same symbols. */
  predicate SameShape(xs: seq<Option<Cell>>, ys: seq<Option<Cell>>) {
    && |xs| == |ys|
    && forall k :: 0 <= k < |xs| ==> xs[k].Some? == ys[k].Some? && (xs[k].Some? ==> xs[k].value.symbol == ys[k].value.symbol)
  }

  /** Cells at the same places number the same: same count, same numbers, same symbols. */
  lemma {:induction false} NumberSameShape(xs: seq<Option<Cell>>, ys: seq<Option<Cell>>, next: nat)
    requires SameShape(xs, ys)
    ensures |Number(xs, next)| == |Number(ys, next)|
    ensures forall k :: 0 <= k < |Number(xs, next)| ==>
      Number(xs, next)[k].number == Number(ys, next)[k].number
      && Number(xs, next)[k].cell.symbol == Number(ys, next)[k].cell.symbol
    decreases |xs|
  {
    if |xs| > 0 {
      assert SameShape(xs[1..], ys[1..]) by {
        forall k | 0 <= k < |xs| - 1 ensures xs[1..][k] == xs[k + 1] && ys[1..][k] == ys[k + 1] {}
      }
      NumberSameShape(xs[1..], ys[1..], if xs[0].Some? then next + 1 else next);
    }
  }

  /**
    The view as written has the same lines as the corrected one: the same
    count, numbers and symbols, and wholly the same lines when no chunk's
    inline list holds a `replace` op. Only a replace line's HTML can differ.
   */
  lemma RowsAsWrittenSameLines(ds: seq<ChunkDict>, escape: string -> string, next: nat)
    ensures |RowsAsWritten(ds, escape, next)| == |Rows(ds, escape, next)|
    ensures forall k :: 0 <= k < |Rows(ds, escape, next)| ==>
      RowsAsWritten(ds, escape, next)[k].number == Rows(ds, escape, next)[k].number
      && RowsAsWritten(ds, escape, next)[k].cell.symbol == Rows(ds, escape, next)[k].cell.symbol
    ensures (forall k :: 0 <= k < |ds| ==> NoReplaceOps(ds[k].inline.GetOr([])))
            ==> RowsAsWritten(ds, escape, next) == Rows(ds, escape, next)
  {
    var xs := CellsOfAsWritten(ds, escape);
    var ys := CellsOf(ds, escape);
    NumberSameShape(xs, ys, next);
    if forall k :: 0 <= k < |ds| ==> NoReplaceOps(ds[k].inline.GetOr([])) {
      forall k | 0 <= k < |ds| ensures xs[k] == ys[k] {
        AsWrittenCellAgreesWithoutReplace(ds[k], escape);
      }
      assert xs == ys;
    }
  }

  /**
    One line per shown chunk, in order, numbered consecutively: the `k`-th
    line is line `next + k` and shows the `k`-th chunk of a known tag.
   */
  lemma {:induction false} RowsNumberShownChunks(ds: seq<ChunkDict>, escape: string -> string, next: nat)
    ensures |Rows(ds, escape, next)| == |ShownChunks(ds)|
    ensures forall k :: 0 <= k < |ShownChunks(ds)| ==>
      Rows(ds, escape, next)[k] == Line(next + k, CellOf(ShownChunks(ds)[k], escape).value)
    decreases |ds|
  {
    if |ds| > 0 {
      var cells := CellsOf(ds, escape);
      assert cells[1..] == CellsOf(ds[1..], escape);
      var n := if Shown(ds[0].tag) then next + 1 else next;
      RowsNumberShownChunks(ds[1..], escape, n);
    }
  }

  /** Adding one cell at the end adds its line, if any, numbered after the others. */
  lemma {:induction false} NumberSnoc(cells: seq<Option<Cell>>, c: Option<Cell>, next: nat)
    ensures Number(cells + [c], next) == Number(cells, next)
      + (if c.Some? then [Line(next + |Number(cells, next)|, c.value)] else [])
    decreases |cells|
  {
    if |cells| == 0 {
      assert cells + [c] == [c];
    } else {
      assert (cells + [c])[1..] == cells[1..] + [c];
      NumberSnoc(cells[1..], c, if cells[0].Some? then next + 1 else next);
    }
  }

  lemma ColumnsSnoc(ls: seq<Line>, l: Line)
    ensures LeftColumn(ls + [l]) == LeftColumn(ls) + [LeftHtml(l)]
    ensures RightColumn(ls + [l]) == RightColumn(ls) + [RightHtml(l)]
  {
    assert forall k :: 0 <= k < |ls| ==> (ls + [l])[k] == ls[k];
  }

  /** One step of `load_chunks`: the next cell adds at most one line to each column. */
  lemma LoadStep(cells: seq<Option<Cell>>, i: nat)
    requires i < |cells|
    ensures cells[i].None? ==> Number(cells[..i + 1], 1) == Number(cells[..i], 1)
    ensures cells[i].Some? ==>
      var line := Line(1 + |Number(cells[..i], 1)|, cells[i].value);
      && Number(cells[..i + 1], 1) == Number(cells[..i], 1) + [line]
      && LeftColumn(Number(cells[..i + 1], 1)) == LeftColumn(Number(cells[..i], 1)) + [LeftHtml(line)]
      && RightColumn(Number(cells[..i + 1], 1)) == RightColumn(Number(cells[..i], 1)) + [RightHtml(line)]
  {
    NumberSnoc(cells[..i], cells[i], 1);
    assert cells[..i + 1] == cells[..i] + [cells[i]];
    if cells[i].Some? {
      ColumnsSnoc(Number(cells[..i], 1), Line(1 + |Number(cells[..i], 1)|, cells[i].value));
    }
  }

  /**
    The loop of `load_chunks` over the chunks' cells: a running line number,
    one line per present cell appended to both columns, each column joined
    with `<br>`.
   */
  method LoadCells(cells: seq<Option<Cell>>) returns (leftDoc: string, rightDoc: string)
    ensures leftDoc == Join("<br>", LeftColumn(Number(cells, 1)))
    ensures rightDoc == Join("<br>", RightColumn(Number(cells, 1)))
  {
    var leftLines: seq<string> := [];
    var rightLines: seq<string> := [];
    var row: nat := 1;
    var i := 0;
    while i < |cells|
      invariant 0 <= i <= |cells|
      invariant row == 1 + |Number(cells[..i], 1)|
      invariant leftLines == LeftColumn(Number(cells[..i], 1))
      invariant rightLines == RightColumn(Number(cells[..i], 1))
    {
      LoadStep(cells, i);
      if cells[i].Some? {
        var line := Line(row, cells[i].value);
        leftLines := leftLines + [LeftHtml(line)];
        rightLines := rightLines + [RightHtml(line)];
        row := row + 1;
      }
      i := i + 1;
    }
    assert cells[..i] == cells;
    leftDoc := Join("<br>", leftLines);
    rightDoc := Join("<br>", rightLines);
  }

  /** `load_chunks`: the two documents of the parallel view, numbered from line 1. */
  method LoadChunks(chunks: seq<ChunkDict>, escape: string -> string) returns (leftDoc: string, rightDoc: string)
    ensures leftDoc == Join("<br>", LeftColumn(Rows(chunks, escape, 1)))
    ensures rightDoc == Join("<br>", RightColumn(Rows(chunks, escape, 1)))
  {
    leftDoc, rightDoc := LoadCells(CellsOf(chunks, escape));
  }

  /**
    `load_chunks` as written: the same loop over the cells the code as
    written builds. Without `replace` inline ops it gives the corrected
    documents.
   */
  method LoadChunksAsWritten(chunks: seq<ChunkDict>, escape: string -> string) returns (leftDoc: string, rightDoc: string)
    ensures leftDoc == Join("<br>", LeftColumn(RowsAsWritten(chunks, escape, 1)))
    ensures rightDoc == Join("<br>", RightColumn(RowsAsWritten(chunks, escape, 1)))
    ensures (forall k :: 0 <= k < |chunks| ==> NoReplaceOps(chunks[k].inline.GetOr([])))
            ==> leftDoc == Join("<br>", LeftColumn(Rows(chunks, escape, 1)))
                && rightDoc == Join("<br>", RightColumn(Rows(chunks, escape, 1)))
  {
    RowsAsWrittenSameLines(chunks, escape, 1);
    leftDoc, rightDoc := LoadCells(CellsOfAsWritten(chunks, escape));
  }

  /** A chunk built by a strategy always has a known tag, so every chunk gets a line. */
  lemma {:induction false} StrategyChunksAllShown(cs: seq<Chunk>, escape: string -> string)
    ensures var ds := seq(|cs|, k requires 0 <= k < |cs| => ToDict(cs[k]));
      |Rows(ds, escape, 1)| == |cs|
  {
    var ds := seq(|cs|, k requires 0 <= k < |cs| => ToDict(cs[k]));
    AllShown(ds);
    RowsNumberShownChunks(ds, escape, 1);
  }

  lemma {:induction false} AllShown(ds: seq<ChunkDict>)
    requires forall k :: 0 <= k < |ds| ==> Shown(ds[k].tag)
    ensures ShownChunks(ds) == ds
    decreases |ds|
  {
    if |ds| > 0 {
      assert Shown(ds[0].tag);
      AllShown(ds[1..]);
    }
  }

  /** A `replace` chunk's line renders its inline ops once per side. */
  lemma ReplaceRowCell(ops: seq<InlineOp>, a: string, b: string, ai: int, bi: int, escape: string -> string)
    ensures CellOf(ToDict(Para(Replace, ai, bi, a, b, Some(ops))), escape)
         == Some(Cell("~", RenderInline(ops, Old, escape), RenderInline(ops, New, escape)))
  {
    assert ToDict(Para(Replace, ai, bi, a, b, Some(ops))).tag == Some("replace");
  }

  /** The pieces of an alignment's inline ops spell out both texts. */
  lemma InlineOpsSpellBoth(a: string, b: string, codes: seq<Opcode>)
    requires ValidOpcodes(a, b, codes)
    ensures Texts(Pieces(InlineOps(a, b, codes), Old)) == a
    ensures Texts(Pieces(InlineOps(a, b, codes), New)) == b
  {
    var ops := InlineOps(a, b, codes);
    InlineRoundTrip(a, b, codes);
    InlineFromCoherent(a, b, codes, 0, 0);
    PiecesSpellSide(ops, Old);
    PiecesSpellSide(ops, New);
  }

  /**
    A `replace` chunk whose inline ops come from a valid character alignment
    of its two texts: the old column spells out the whole old text (struck
    where changed) and the new column the whole new text (highlighted where
    changed).
   */
  lemma ReplaceRowShowsBothTexts(a: string, b: string, codes: seq<Opcode>, ai: int, bi: int, escape: string -> string)
    requires ValidOpcodes(a, b, codes)
    ensures var ops := InlineOps(a, b, codes);
      && CellOf(ToDict(Para(Replace, ai, bi, a, b, Some(ops))), escape)
         == Some(Cell("~", RenderInline(ops, Old, escape), RenderInline(ops, New, escape)))
      && Texts(Pieces(ops, Old)) == a
      && Texts(Pieces(ops, New)) == b
  {
    ReplaceRowCell(InlineOps(a, b, codes), a, b, ai, bi, escape);
    InlineOpsSpellBoth(a, b, codes);
  }

  /**
    The same chunk in the code as written: when the character alignment of
    its texts contains a `replace` op, neither column spells out its text.
   */
  lemma ReplaceRowAsWrittenLosesText(a: string, b: string, codes: seq<Opcode>, k: nat, ai: int, bi: int,
                                     escape: string -> string)
    requires ValidOpcodes(a, b, codes)
    requires k < |codes| && codes[k].tag == Replace
    ensures var ops := InlineOps(a, b, codes);
      && CellOfAsWritten(ToDict(Para(Replace, ai, bi, a, b, Some(ops))), escape)
         == Some(Cell("~", RenderInlineAsWritten(ops, Old, escape), RenderInlineAsWritten(ops, New, escape)))
      && Texts(PiecesAsWritten(ops, Old)) != a
      && Texts(PiecesAsWritten(ops, New)) != b
  {
    var ops := InlineOps(a, b, codes);
    assert ToDict(Para(Replace, ai, bi, a, b, Some(ops))).tag == Some("replace");
    AsWrittenLosesText(a, b, codes, k, Old);
    AsWrittenLosesText(a, b, codes, k, New);
  }
}
