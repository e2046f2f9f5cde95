/**
  The values the paragraph strategies hand to the rest of the program: diff
  chunks, the character-level `inline` ops of a `replace` chunk, the lines of
  the human-readable `raw` rendering, and `DiffResult` itself
  (core/diff_strategies/base_strategy.py). The UI reads chunks as Python dicts
  that may lack keys; `ChunkDict` is that view, and `ToDict` is the dict a
  strategy actually builds for a chunk.
 */
module Chunks {
  import opened Wrappers
  import opened Text
  import opened Opcodes

  /** One `[tag, a_fragment, b_fragment]` entry of an `inline` list. */
  datatype InlineOp = InlineOp(tag: Tag, a: string, b: string)

  /** A chunk as a strategy builds it: a paragraph chunk, or a fold of unchanged paragraphs. */
  datatype Chunk =
    | Para(tag: Tag, aIdx: int, bIdx: int, aText: string, bText: string, inline: Option<seq<InlineOp>>)
    | Skip(count: int)

  /** One line of `DiffResult.raw` before the lines are joined with `"\n"`. */
  datatype RawLine = Context(text: string) | Minus(text: string) | Plus(text: string) | Marker(text: string)

  datatype DiffResult = DiffResult(raw: string, structured: Option<seq<Chunk>>)

  function RenderLine(line: RawLine): string {
    match line
    case Context(t) => "  " + t
    case Minus(t) => "- " + t
    case Plus(t) => "+ " + t
    case Marker(t) => t
  }

  /** `"\n".join(paras[from:to])`: the text a chunk carries for a span of paragraphs. */
  function SpanText(paras: seq<string>, from: nat, to: nat): string
    requires from <= to <= |paras|
  {
    Join("\n", paras[from..to])
  }

  /** `text` is the joined span of `paras` that starts at index `from` and ends somewhere. */
  ghost predicate SpanFrom(paras: seq<string>, from: int, text: string) {
    0 <= from && exists to: nat :: from <= to <= |paras| && text == SpanText(paras, from, to)
  }

  /** The joined span of one paragraph is that paragraph. */
  lemma SpanTextOfOne(paras: seq<string>, at: nat)
    requires at < |paras|
    ensures SpanText(paras, at, at + 1) == paras[at]
  {
    assert paras[at..at + 1] == [paras[at]];
  }

  // ---------------------------------------------------------------- coverage

  /** A boundary in both documents: an old paragraph index and a new one. */
  datatype Cut = Cut(i: nat, j: nat)

  /**
    Chunk `c` stands for the old paragraphs `pa[s.i..e.i]` and the new
    paragraphs `pb[s.j..e.j]`: a skip counts an unchanged run, as long on
    both sides; an equal or replace chunk starts at `s` on both sides and
    carries each side's span joined with newlines, an equal one with spans of
    one length; a delete (insert) chunk is the one old (new) paragraph at `s`.
   */
  ghost predicate Covers(pa: seq<string>, pb: seq<string>, c: Chunk, s: Cut, e: Cut) {
    && s.i <= e.i <= |pa| && s.j <= e.j <= |pb|
    && match c
       case Skip(n) => n == e.i - s.i && n == e.j - s.j
       case Para(tag, ai, bi, at, bt, _) =>
         match tag
         case Equal =>
           && ai == s.i && bi == s.j && e.i - s.i == e.j - s.j
           && at == SpanText(pa, s.i, e.i) && bt == SpanText(pb, s.j, e.j)
         case Replace =>
           && ai == s.i && bi == s.j
           && at == SpanText(pa, s.i, e.i) && bt == SpanText(pb, s.j, e.j)
         case Delete => e.i == s.i + 1 && e.j == s.j && ai == s.i && at == pa[s.i]
         case Insert => e.j == s.j + 1 && e.i == s.i && bi == s.j && bt == pb[s.j]
  }

  /** The cuts split both documents, from `s` to `e`, into the spans of the chunks, in order. */
  ghost predicate CutBy(pa: seq<string>, pb: seq<string>, cs: seq<Chunk>, cuts: seq<Cut>, s: Cut, e: Cut) {
    && |cuts| == |cs| + 1
    && cuts[0] == s && cuts[|cs|] == e
    && forall k :: 0 <= k < |cs| ==> Covers(pa, pb, cs[k], cuts[k], cuts[k + 1])
  }

  /**
    The chunks stand for both documents whole and in order: every old and
    every new paragraph belongs to exactly one chunk, and the chunks' spans
    follow one another from the first paragraph to the last.
   */
  ghost predicate Tiles(pa: seq<string>, pb: seq<string>, cs: seq<Chunk>) {
    exists cuts :: CutBy(pa, pb, cs, cuts, Cut(0, 0), Cut(|pa|, |pb|))
  }

  /** No chunks stand for nothing. */
  lemma CutByNothing(pa: seq<string>, pb: seq<string>, s: Cut)
    requires s.i <= |pa| && s.j <= |pb|
    ensures CutBy(pa, pb, [], [s], s, s)
  {
  }

  /** Two runs of chunks that meet at `m` make one run from `s` to `e`. */
  lemma CutByAppend(pa: seq<string>, pb: seq<string>, xs: seq<Chunk>, cx: seq<Cut>, ys: seq<Chunk>, cy: seq<Cut>,
                    s: Cut, m: Cut, e: Cut)
    requires CutBy(pa, pb, xs, cx, s, m) && CutBy(pa, pb, ys, cy, m, e)
    ensures CutBy(pa, pb, xs + ys, cx + cy[1..], s, e)
  {
    var cs, cuts := xs + ys, cx + cy[1..];
    forall k | 0 <= k < |cs| ensures Covers(pa, pb, cs[k], cuts[k], cuts[k + 1]) {
      if k < |xs| {
        assert cs[k] == xs[k] && cuts[k] == cx[k] && cuts[k + 1] == cx[k + 1];
      } else {
        var k' := k - |xs|;
        assert cs[k] == ys[k'];
        assert cuts[k] == cy[k'];
        assert cuts[k + 1] == cy[k' + 1];
      }
    }
  }

  /** Only empty documents are tiled by no chunks. */
  lemma NoChunksTileOnlyEmpty(pa: seq<string>, pb: seq<string>)
    ensures Tiles(pa, pb, []) <==> |pa| == 0 && |pb| == 0
  {
    if |pa| == 0 && |pb| == 0 {
      CutByNothing(pa, pb, Cut(0, 0));
    }
  }

  /** A list that leaves out the deletion of "x" before an unchanged "y" does not tile. */
  lemma DroppedDeleteDoesNotTile()
    ensures !Tiles(["x", "y"], ["y"], [Para(Equal, 1, 0, "y", "y", None)])
  {
  }

  /** `"\n".join(raw_lines)`. */
  function RenderRaw(lines: seq<RawLine>): string {
    Join("\n", seq(|lines|, k requires 0 <= k < |lines| => RenderLine(lines[k])))
  }

  // ---------------------------------------------------------------- inline ops

  function InlineFrom(a: string, b: string, ops: seq<Opcode>, i: nat, j: nat): (r: seq<InlineOp>)
    requires ValidFrom(a, b, ops, i, j)
    ensures |r| == |ops|
    decreases |ops|
  {
    if |ops| == 0 then []
    else
      var op := ops[0];
      [InlineOp(op.tag, a[op.i1..op.i2], b[op.j1..op.j2])] + InlineFrom(a, b, ops[1..], op.i2, op.j2)
  }

  /** `_inline_ops(a, b)`: each opcode with the two fragments it spans. */
  function InlineOps(a: string, b: string, ops: seq<Opcode>): seq<InlineOp>
    requires ValidOpcodes(a, b, ops)
  {
    InlineFrom(a, b, ops, 0, 0)
  }

  function OldText(ops: seq<InlineOp>): string
    decreases |ops|
  {
    if |ops| == 0 then "" else ops[0].a + OldText(ops[1..])
  }

  function NewText(ops: seq<InlineOp>): string
    decreases |ops|
  {
    if |ops| == 0 then "" else ops[0].b + NewText(ops[1..])
  }

  lemma {:induction false} InlineFromRoundTrip(a: string, b: string, ops: seq<Opcode>, i: nat, j: nat)
    requires ValidFrom(a, b, ops, i, j)
    ensures i <= |a| && j <= |b|
    ensures OldText(InlineFrom(a, b, ops, i, j)) == a[i..]
    ensures NewText(InlineFrom(a, b, ops, i, j)) == b[j..]
    decreases |ops|
  {
    if |ops| > 0 {
      var op := ops[0];
      InlineFromRoundTrip(a, b, ops[1..], op.i2, op.j2);
      SliceSplit(a, i, op.i2);
      SliceSplit(b, j, op.j2);
    }
  }

  /** Concatenating the old fragments gives the old text back, and likewise the new fragments. */
  lemma InlineRoundTrip(a: string, b: string, ops: seq<Opcode>)
    requires ValidOpcodes(a, b, ops)
    ensures OldText(InlineOps(a, b, ops)) == a
    ensures NewText(InlineOps(a, b, ops)) == b
  {
    InlineFromRoundTrip(a, b, ops, 0, 0);
  }

  // ---------------------------------------------------------------- dict view

  /** A chunk dict as the UI reads it: every key may be missing. */
  datatype ChunkDict = ChunkDict(
    tag: Option<string>,
    aIdx: Option<int>,
    bIdx: Option<int>,
    aText: Option<string>,
    bText: Option<string>,
    inline: Option<seq<InlineOp>>,
    count: Option<int>)

  function TagName(t: Tag): string {
    match t
    case Equal => "equal"
    case Insert => "insert"
    case Delete => "delete"
    case Replace => "replace"
  }

  /** The dict a strategy builds: a `skip` chunk has only `tag` and `count`. */
  function ToDict(c: Chunk): (d: ChunkDict)
    ensures c.Skip? <==> d.aIdx.None?
    ensures c.Skip? <==> d.bIdx.None?
    ensures d.tag.Some?
  {
    match c
    case Para(tag, a, b, at, bt, inl) => ChunkDict(Some(TagName(tag)), Some(a), Some(b), Some(at), Some(bt), inl, None)
    case Skip(n) => ChunkDict(Some("skip"), None, None, None, None, None, Some(n))
  }
}
