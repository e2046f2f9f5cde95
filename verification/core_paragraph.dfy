/**
  The paragraph strategy the diff engine uses
  (core/diff_strategies/paragraph_strategy.py): paragraph texts from
  `load_structured`, aligned by the opcode oracle, become one chunk per equal
  or replace span and one chunk per deleted or inserted paragraph, plus
  prefixed `raw` lines. Nothing is folded.
 */
module CoreParagraph {
  import opened Wrappers
  import opened Text
  import opened Opcodes
  import opened Chunks
  import opened Extraction
  import LoaderRegistry
  import Markup

  // ---------------------------------------------------------------- _paragraph_texts

  /** Every item is a paragraph dict with a `text` key, so `para["text"]` never raises. */
  predicate HasTexts(items: seq<Item>) {
    forall k :: 0 <= k < |items| ==> items[k].Record? && items[k].fields.text.Some?
  }

  /**
    `_paragraph_texts(loader, path)`: a failing loader or an empty result
    gives no paragraphs, a list of str is taken as it is, a list of dicts
    gives their `text` values, and anything else falls back to `str()` of
    every element.
   */
  function ParagraphTexts(e: Extracted): (r: seq<string>)
    ensures e.NoLoader? || e.Raises? || e.NoneValue? ==> r == []
    ensures e.TextValue? ==> |r| == |e.text| && forall k :: 0 <= k < |r| ==> r[k] == [e.text[k]]
    ensures e.Lines? ==> r == e.lines
    ensures e.Records? ==> |r| == |e.items|
    ensures e.Records? && HasTexts(e.items) ==> forall k :: 0 <= k < |r| ==> r[k] == e.items[k].fields.text.value
    ensures e.Records? && !HasTexts(e.items) ==> forall k :: 0 <= k < |r| ==> r[k] == e.items[k].repr
  {
    match e
    case NoLoader => []
    case Raises(_) => []
    case NoneValue => []
    case TextValue(s) => Characters(s)
    case Lines(ls) => ls
    case Records(items) =>
      if HasTexts(items) then seq(|items|, k requires 0 <= k < |items| && HasTexts(items) => items[k].fields.text.value)
      else seq(|items|, k requires 0 <= k < |items| => items[k].repr)
  }

  /** Paragraph dicts without runs or paragraph markers read the same in both strategy versions with every flag off. */
  predicate Undecorated(items: seq<Item>) {
    forall k :: 0 <= k < |items| ==>
      items[k].Record? && items[k].fields.text.Some? && |items[k].fields.runs| == 0
  }

  /**
    Where the two versions of `_paragraph_texts` meet: on loader results that
    carry no formatting, the 2.0 version with every detection flag off gives
    exactly the paragraphs of this one.
   */
  lemma AgreesWithDecoratedVersion(e: Extracted)
    requires !e.NoLoader? && !e.Raises?
    requires e.Records? ==> Undecorated(e.items)
    ensures Markup.ParagraphTexts(e, Markup.AllOff) == Success(ParagraphTexts(e))
  {
    if e.Records? {
      var mine := ParagraphTexts(e);
      var theirs := Markup.ParagraphTexts(e, Markup.AllOff).value;
      assert HasTexts(e.items);
      forall k | 0 <= k < |e.items| ensures theirs[k] == mine[k] {
        Markup.DecoratedAllOff(e.items[k].fields);
      }
      assert theirs == mine;
    }
  }

  // ---------------------------------------------------------------- supports

  /** `supports`: both loaders have a callable `load_structured`; a missing loader has none. */
  predicate Supports(a: Option<LoaderRegistry.Loader>, b: Option<LoaderRegistry.Loader>)
    ensures Supports(a, b) ==> a.Some? && b.Some?
  {
    && a.Some? && a.value.structured == LoaderRegistry.Callable
    && b.Some? && b.value.structured == LoaderRegistry.Callable
  }

  // ---------------------------------------------------------------- diff

  function ContextLines(s: seq<string>): (r: seq<RawLine>)
    ensures |r| == |s|
  {
    seq(|s|, k requires 0 <= k < |s| => Context(s[k]))
  }

  function MinusLines(s: seq<string>): (r: seq<RawLine>)
    ensures |r| == |s|
  {
    seq(|s|, k requires 0 <= k < |s| => Minus(s[k]))
  }

  function PlusLines(s: seq<string>): (r: seq<RawLine>)
    ensures |r| == |s|
  {
    seq(|s|, k requires 0 <= k < |s| => Plus(s[k]))
  }

  /** One `delete` chunk per paragraph of `a`, numbered from `from`. */
  function DeleteChunks(a: seq<string>, from: nat): seq<Chunk> {
    seq(|a|, k requires 0 <= k < |a| => Para(Delete, from + k, -1, a[k], "", None))
  }

  /** One `insert` chunk per paragraph of `b`, numbered from `from`. */
  function InsertChunks(b: seq<string>, from: nat): seq<Chunk> {
    seq(|b|, k requires 0 <= k < |b| => Para(Insert, -1, from + k, "", b[k], None))
  }

  /** The chunks and raw lines of one opcode. */
  function OpOutput(pa: seq<string>, pb: seq<string>, op: Opcode): (seq<Chunk>, seq<RawLine>)
    requires ValidOp(pa, pb, op)
  {
    var olds := pa[op.i1..op.i2];
    var news := pb[op.j1..op.j2];
    match op.tag
    case Equal => ([Para(Equal, op.i1, op.j1, Join("\n", olds), Join("\n", news), None)], ContextLines(olds))
    case Delete => (DeleteChunks(olds, op.i1), MinusLines(olds))
    case Insert => (InsertChunks(news, op.j1), PlusLines(news))
    case Replace => ([Para(Replace, op.i1, op.j1, Join("\n", olds), Join("\n", news), None)], MinusLines(olds) + PlusLines(news))
  }

  function DiffFrom(pa: seq<string>, pb: seq<string>, ops: seq<Opcode>, i: nat, j: nat): (seq<Chunk>, seq<RawLine>)
    requires ValidFrom(pa, pb, ops, i, j)
    decreases |ops|
  {
    if |ops| == 0 then ([], [])
    else
      var here := OpOutput(pa, pb, ops[0]);
      var rest := DiffFrom(pa, pb, ops[1..], ops[0].i2, ops[0].j2);
      (here.0 + rest.0, here.1 + rest.1)
  }

  /** The chunks and raw lines of `diff`, before the lines are joined. */
  function DiffParts(pa: seq<string>, pb: seq<string>, ops: seq<Opcode>): (seq<Chunk>, seq<RawLine>)
    requires ValidOpcodes(pa, pb, ops)
  {
    DiffFrom(pa, pb, ops, 0, 0)
  }

  /** `diff(path_a, path_b)` once both paragraph lists are read and aligned. */
  function Diff(pa: seq<string>, pb: seq<string>, ops: seq<Opcode>): (r: DiffResult)
    requires ValidOpcodes(pa, pb, ops)
    ensures r.structured == Some(DiffParts(pa, pb, ops).0)
    ensures r.raw == RenderRaw(DiffParts(pa, pb, ops).1)
    ensures AllFit(pa, pb, r.structured.value)
    ensures Tiles(pa, pb, r.structured.value)
    ensures forall k :: 0 <= k < |r.structured.value| ==> r.structured.value[k].Para?
    ensures exists lines :: && r.raw == RenderRaw(lines)
                            && OldSide(lines) == pa && NewSide(lines) == pb
                            && |lines| == |pa| + |pb| - EqualLength(ops)
  {
    var parts := DiffParts(pa, pb, ops);
    ChunksFit(pa, pb, ops);
    ChunksTile(pa, pb, ops);
    RawReconstructsBoth(pa, pb, ops);
    RawLineCount(pa, pb, ops);
    DiffResult(RenderRaw(parts.1), Some(parts.0))
  }

  // ---------------------------------------------------------------- reading the raw lines back

  /** The old document as the raw lines show it: context and `- ` lines. */
  function OldSide(lines: seq<RawLine>): seq<string>
    decreases |lines|
  {
    if |lines| == 0 then []
    else (if lines[0].Context? || lines[0].Minus? then [lines[0].text] else []) + OldSide(lines[1..])
  }

  /** The new document as the raw lines show it: context and `+ ` lines. */
  function NewSide(lines: seq<RawLine>): seq<string>
    decreases |lines|
  {
    if |lines| == 0 then []
    else (if lines[0].Context? || lines[0].Plus? then [lines[0].text] else []) + NewSide(lines[1..])
  }

  lemma {:induction false} OldSideAppend(xs: seq<RawLine>, ys: seq<RawLine>)
    ensures OldSide(xs + ys) == OldSide(xs) + OldSide(ys)
    decreases |xs|
  {
    if |xs| == 0 {
      assert xs + ys == ys;
    } else {
      var head := if xs[0].Context? || xs[0].Minus? then [xs[0].text] else [];
      assert (xs + ys)[0] == xs[0];
      assert (xs + ys)[1..] == xs[1..] + ys;
      assert OldSide(xs + ys) == head + OldSide(xs[1..] + ys);
      OldSideAppend(xs[1..], ys);
      assert OldSide(xs) == head + OldSide(xs[1..]);
    }
  }

  lemma {:induction false} NewSideAppend(xs: seq<RawLine>, ys: seq<RawLine>)
    ensures NewSide(xs + ys) == NewSide(xs) + NewSide(ys)
    decreases |xs|
  {
    if |xs| == 0 {
      assert xs + ys == ys;
    } else {
      var head := if xs[0].Context? || xs[0].Plus? then [xs[0].text] else [];
      assert (xs + ys)[0] == xs[0];
      assert (xs + ys)[1..] == xs[1..] + ys;
      assert NewSide(xs + ys) == head + NewSide(xs[1..] + ys);
      NewSideAppend(xs[1..], ys);
      assert NewSide(xs) == head + NewSide(xs[1..]);
    }
  }

  lemma SidesAppend(xs: seq<RawLine>, ys: seq<RawLine>)
    ensures OldSide(xs + ys) == OldSide(xs) + OldSide(ys)
    ensures NewSide(xs + ys) == NewSide(xs) + NewSide(ys)
  {
    OldSideAppend(xs, ys);
    NewSideAppend(xs, ys);
  }

  lemma {:induction false} SidesOfLines(s: seq<string>)
    ensures OldSide(ContextLines(s)) == s && NewSide(ContextLines(s)) == s
    ensures OldSide(MinusLines(s)) == s && NewSide(MinusLines(s)) == []
    ensures OldSide(PlusLines(s)) == [] && NewSide(PlusLines(s)) == s
    decreases |s|
  {
    if |s| > 0 {
      assert ContextLines(s)[1..] == ContextLines(s[1..]);
      assert MinusLines(s)[1..] == MinusLines(s[1..]);
      assert PlusLines(s)[1..] == PlusLines(s[1..]);
      SidesOfLines(s[1..]);
      assert s == [s[0]] + s[1..];
    }
  }

  lemma SidesOfOp(pa: seq<string>, pb: seq<string>, op: Opcode)
    requires ValidOp(pa, pb, op)
    ensures OldSide(OpOutput(pa, pb, op).1) == pa[op.i1..op.i2]
    ensures NewSide(OpOutput(pa, pb, op).1) == pb[op.j1..op.j2]
  {
    var olds := pa[op.i1..op.i2];
    var news := pb[op.j1..op.j2];
    SidesOfLines(olds);
    SidesOfLines(news);
    match op.tag
    case Equal =>
    case Delete =>
      assert news == [];
    case Insert =>
      assert olds == [];
    case Replace =>
      SidesAppend(MinusLines(olds), PlusLines(news));
  }

  lemma {:induction false} SidesFrom(pa: seq<string>, pb: seq<string>, ops: seq<Opcode>, i: nat, j: nat)
    requires ValidFrom(pa, pb, ops, i, j)
    ensures i <= |pa| && j <= |pb|
    ensures OldSide(DiffFrom(pa, pb, ops, i, j).1) == pa[i..]
    ensures NewSide(DiffFrom(pa, pb, ops, i, j).1) == pb[j..]
    decreases |ops|
  {
    if |ops| > 0 {
      var op := ops[0];
      SidesFrom(pa, pb, ops[1..], op.i2, op.j2);
      SidesOfOp(pa, pb, op);
      SidesAppend(OpOutput(pa, pb, op).1, DiffFrom(pa, pb, ops[1..], op.i2, op.j2).1);
      SliceSplit(pa, i, op.i2);
      SliceSplit(pb, j, op.j2);
    }
  }

  /**
    The raw lines lose nothing: the context and `- ` lines spell out the old
    paragraphs in order, and the context and `+ ` lines the new ones.
   */
  lemma RawReconstructsBoth(pa: seq<string>, pb: seq<string>, ops: seq<Opcode>)
    requires ValidOpcodes(pa, pb, ops)
    ensures OldSide(DiffParts(pa, pb, ops).1) == pa
    ensures NewSide(DiffParts(pa, pb, ops).1) == pb
  {
    SidesFrom(pa, pb, ops, 0, 0);
  }

  lemma {:induction false} RawCountFrom(pa: seq<string>, pb: seq<string>, ops: seq<Opcode>, i: nat, j: nat)
    requires ValidFrom(pa, pb, ops, i, j)
    ensures i <= |pa| && j <= |pb|
    ensures |DiffFrom(pa, pb, ops, i, j).1| + EqualLength(ops) == (|pa| - i) + (|pb| - j)
    decreases |ops|
  {
    if |ops| > 0 {
      RawCountFrom(pa, pb, ops[1..], ops[0].i2, ops[0].j2);
    }
  }

  /** One raw line per old paragraph and per new paragraph, except that an equal pair shares one line. */
  lemma RawLineCount(pa: seq<string>, pb: seq<string>, ops: seq<Opcode>)
    requires ValidOpcodes(pa, pb, ops)
    ensures |DiffParts(pa, pb, ops).1| == |pa| + |pb| - EqualLength(ops)
  {
    RawCountFrom(pa, pb, ops, 0, 0);
  }

  // ---------------------------------------------------------------- the chunks

  /**
    A chunk of this strategy: never a skip, never with inline ops; an equal
    or replace chunk starts at its span on each side and carries each span's
    paragraphs joined with newlines, the same text on both sides when equal;
    a delete (insert) chunk is one paragraph of the old (new) side with -1
    and "" for the missing side.
   */
  ghost predicate ChunkFits(pa: seq<string>, pb: seq<string>, c: Chunk) {
    match c
    case Skip(_) => false
    case Para(tag, ai, bi, at, bt, inl) =>
      && inl.None?
      && match tag
         case Equal => SpanFrom(pa, ai, at) && SpanFrom(pb, bi, bt) && at == bt
         case Replace => 0 <= ai < |pa| && 0 <= bi < |pb| && SpanFrom(pa, ai, at) && SpanFrom(pb, bi, bt)
         case Delete => 0 <= ai < |pa| && at == pa[ai] && bi == -1 && bt == ""
         case Insert => 0 <= bi < |pb| && bt == pb[bi] && ai == -1 && at == ""
  }

  ghost predicate AllFit(pa: seq<string>, pb: seq<string>, cs: seq<Chunk>) {
    forall k :: 0 <= k < |cs| ==> ChunkFits(pa, pb, cs[k])
  }

  lemma OpChunksFit(pa: seq<string>, pb: seq<string>, op: Opcode)
    requires ValidOp(pa, pb, op)
    ensures AllFit(pa, pb, OpOutput(pa, pb, op).0)
  {
    if op.tag == Equal || op.tag == Replace {
      assert Join("\n", pa[op.i1..op.i2]) == SpanText(pa, op.i1, op.i2);
      assert Join("\n", pb[op.j1..op.j2]) == SpanText(pb, op.j1, op.j2);
    }
  }

  lemma {:induction false} ChunksFitFrom(pa: seq<string>, pb: seq<string>, ops: seq<Opcode>, i: nat, j: nat)
    requires ValidFrom(pa, pb, ops, i, j)
    ensures AllFit(pa, pb, DiffFrom(pa, pb, ops, i, j).0)
    decreases |ops|
  {
    if |ops| > 0 {
      var here := OpOutput(pa, pb, ops[0]).0;
      var rest := DiffFrom(pa, pb, ops[1..], ops[0].i2, ops[0].j2).0;
      OpChunksFit(pa, pb, ops[0]);
      ChunksFitFrom(pa, pb, ops[1..], ops[0].i2, ops[0].j2);
      forall k | 0 <= k < |here + rest| ensures ChunkFits(pa, pb, (here + rest)[k]) {
        if k >= |here| {
          assert (here + rest)[k] == rest[k - |here|];
        }
      }
    }
  }

  /** Every chunk of the result fits the two paragraph lists, and none is a skip. */
  lemma ChunksFit(pa: seq<string>, pb: seq<string>, ops: seq<Opcode>)
    requires ValidOpcodes(pa, pb, ops)
    ensures AllFit(pa, pb, DiffParts(pa, pb, ops).0)
    ensures forall k :: 0 <= k < |DiffParts(pa, pb, ops).0| ==> DiffParts(pa, pb, ops).0[k].Para?
  {
    ChunksFitFrom(pa, pb, ops, 0, 0);
  }

  // ---------------------------------------------------------------- coverage

  /** The chunks of one opcode stand for its two spans, in order. */
  lemma OpChunksCover(pa: seq<string>, pb: seq<string>, op: Opcode)
    requires ValidOp(pa, pb, op)
    ensures exists cuts :: CutBy(pa, pb, OpOutput(pa, pb, op).0, cuts, Cut(op.i1, op.j1), Cut(op.i2, op.j2))
  {
    var cs := OpOutput(pa, pb, op).0;
    var s, e := Cut(op.i1, op.j1), Cut(op.i2, op.j2);
    match op.tag
    case Equal =>
      assert Covers(pa, pb, cs[0], s, e);
      assert CutBy(pa, pb, cs, [s, e], s, e);
    case Replace =>
      assert Covers(pa, pb, cs[0], s, e);
      assert CutBy(pa, pb, cs, [s, e], s, e);
    case Delete =>
      DeletesCover(pa, pb, op.i1, op.i2, op.j1);
    case Insert =>
      InsertsCover(pa, pb, op.i1, op.j1, op.j2);
  }

  /** One delete chunk per old paragraph of `pa[i1..i2]`. */
  lemma DeletesCover(pa: seq<string>, pb: seq<string>, i1: nat, i2: nat, j: nat)
    requires i1 <= i2 <= |pa| && j <= |pb|
    ensures CutBy(pa, pb, DeleteChunks(pa[i1..i2], i1),
                  seq(i2 - i1 + 1, k requires 0 <= k <= i2 - i1 => Cut(i1 + k, j)), Cut(i1, j), Cut(i2, j))
  {
    var cs := DeleteChunks(pa[i1..i2], i1);
    var cuts := seq(i2 - i1 + 1, k requires 0 <= k <= i2 - i1 => Cut(i1 + k, j));
    forall k | 0 <= k < |cs| ensures Covers(pa, pb, cs[k], cuts[k], cuts[k + 1]) {
      assert cuts[k] == Cut(i1 + k, j) && cuts[k + 1] == Cut(i1 + k + 1, j);
      assert cs[k] == Para(Delete, i1 + k, -1, pa[i1 + k], "", None);
    }
  }

  /** One insert chunk per new paragraph of `pb[j1..j2]`. */
  lemma InsertsCover(pa: seq<string>, pb: seq<string>, i: nat, j1: nat, j2: nat)
    requires j1 <= j2 <= |pb| && i <= |pa|
    ensures CutBy(pa, pb, InsertChunks(pb[j1..j2], j1),
                  seq(j2 - j1 + 1, k requires 0 <= k <= j2 - j1 => Cut(i, j1 + k)), Cut(i, j1), Cut(i, j2))
  {
    var cs := InsertChunks(pb[j1..j2], j1);
    var cuts := seq(j2 - j1 + 1, k requires 0 <= k <= j2 - j1 => Cut(i, j1 + k));
    forall k | 0 <= k < |cs| ensures Covers(pa, pb, cs[k], cuts[k], cuts[k + 1]) {
      assert cuts[k] == Cut(i, j1 + k) && cuts[k + 1] == Cut(i, j1 + k + 1);
      assert cs[k] == Para(Insert, -1, j1 + k, "", pb[j1 + k], None);
    }
  }

  lemma {:induction false} ChunksCoverFrom(pa: seq<string>, pb: seq<string>, ops: seq<Opcode>, i: nat, j: nat)
    requires ValidFrom(pa, pb, ops, i, j)
    ensures exists cuts :: CutBy(pa, pb, DiffFrom(pa, pb, ops, i, j).0, cuts, Cut(i, j), Cut(|pa|, |pb|))
    decreases |ops|
  {
    if |ops| == 0 {
      CutByNothing(pa, pb, Cut(i, j));
      assert DiffFrom(pa, pb, ops, i, j).0 == [];
    } else {
      var op := ops[0];
      OpChunksCover(pa, pb, op);
      ChunksCoverFrom(pa, pb, ops[1..], op.i2, op.j2);
      var here := OpOutput(pa, pb, op).0;
      var rest := DiffFrom(pa, pb, ops[1..], op.i2, op.j2).0;
      var cx :| CutBy(pa, pb, here, cx, Cut(i, j), Cut(op.i2, op.j2));
      var cy :| CutBy(pa, pb, rest, cy, Cut(op.i2, op.j2), Cut(|pa|, |pb|));
      CutByAppend(pa, pb, here, cx, rest, cy, Cut(i, j), Cut(op.i2, op.j2), Cut(|pa|, |pb|));
      assert DiffFrom(pa, pb, ops, i, j).0 == here + rest;
      assert CutBy(pa, pb, DiffFrom(pa, pb, ops, i, j).0, cx + cy[1..], Cut(i, j), Cut(|pa|, |pb|));
    }
  }

  /**
    The chunks stand for both documents whole, in opcode order: each delete
    and insert span gives one chunk per paragraph, and each equal and replace
    span one chunk starting where the span starts.
   */
  lemma ChunksTile(pa: seq<string>, pb: seq<string>, ops: seq<Opcode>)
    requires ValidOpcodes(pa, pb, ops)
    ensures Tiles(pa, pb, DiffParts(pa, pb, ops).0)
  {
    ChunksCoverFrom(pa, pb, ops, 0, 0);
  }

  /** A replace of two old paragraphs by one new one: one chunk, old lines first. */
  lemma ReplaceExample()
    ensures var ops := [Opcode(Replace, 0, 2, 0, 1)];
            ValidOpcodes(["p", "q"], ["r"], ops)
            && DiffParts(["p", "q"], ["r"], ops)
               == ([Para(Replace, 0, 0, "p\nq", "r", None)], [Minus("p"), Minus("q"), Plus("r")])
  {
    var pa := ["p", "q"];
    var ops := [Opcode(Replace, 0, 2, 0, 1)];
    assert ValidFrom(pa, ["r"], ops[1..], 2, 1);
    assert pa[0..2] == pa;
    assert ["r"][0..1] == ["r"];
    assert Join("\n", pa) == "p" + "\n" + Join("\n", ["q"]);
    assert MinusLines(pa) == [Minus("p"), Minus("q")];
    assert PlusLines(["r"]) == [Plus("r")];
    assert DiffFrom(pa, ["r"], ops[1..], 2, 1) == ([], []);
    assert Join("\n", ["q"]) == "q" && Join("\n", ["r"]) == "r";
    assert ValidOpcodes(pa, ["r"], ops);
    var out := OpOutput(pa, ["r"], ops[0]);
    assert Join("\n", pa) == "p\nq";
    assert out.0 == [Para(Replace, 0, 0, "p\nq", "r", None)];
    assert out.1 == [Minus("p"), Minus("q")] + [Plus("r")];
    assert DiffParts(pa, ["r"], ops) == (out.0 + [], out.1 + []);
    assert out.1 + [] == [Minus("p"), Minus("q"), Plus("r")];
    assert out.0 + [] == out.0;
  }
}
