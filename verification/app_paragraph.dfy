/**
  The paragraph strategy 2.0 (app/diff_strategies/paragraph_strategy.py).
  Paragraphs are aligned on their markup-free projections while the chunks
  carry the decorated text; long runs of unchanged paragraphs are folded into
  `skip` chunks that keep three paragraphs of context on each side; a replace
  span carries character-level inline ops; and a large, very dissimilar pair
  of documents becomes one whole-document replace chunk.
 */
module AppParagraph {
  import opened Wrappers
  import opened Text
  import opened Opcodes
  import opened Chunks
  import Markup
  import LoaderRegistry
  import CoreParagraph

  /** `CONTEXT_LINES`: unchanged paragraphs kept on each side of a fold. */
  const ContextLines: nat := 3

  /** Documents with more paragraphs than this, taken together, may take the escape hatch. */
  const LargeDocument: nat := 200

  /** `supports`: both loaders have a `load_structured` attribute, callable or not; a missing loader has none. */
  predicate Supports(a: Option<LoaderRegistry.Loader>, b: Option<LoaderRegistry.Loader>)
    ensures Supports(a, b) ==> a.Some? && b.Some?
  {
    && a.Some? && a.value.structured != LoaderRegistry.NoAttribute
    && b.Some? && b.value.structured != LoaderRegistry.NoAttribute
  }

  /**
    This version asks less than the engine's: it accepts every pair the
    engine's version accepts, and beyond those exactly the pairs where an
    attribute exists but is not callable.
   */
  lemma SupportsAcceptsMore(a: Option<LoaderRegistry.Loader>, b: Option<LoaderRegistry.Loader>)
    ensures CoreParagraph.Supports(a, b) ==> Supports(a, b)
    ensures Supports(a, b) && !CoreParagraph.Supports(a, b)
            <==> Supports(a, b)
                 && (a.value.structured == LoaderRegistry.NotCallable || b.value.structured == LoaderRegistry.NotCallable)
    ensures a.None? || b.None? ==> !Supports(a, b)
  {
  }

  /** `[_plain(t) for t in para]`. */
  function PlainAll(ps: seq<string>): (r: seq<string>)
    ensures |r| == |ps|
    ensures forall k :: 0 <= k < |ps| ==> r[k] == Markup.Plain(ps[k])
  {
    seq(|ps|, k requires 0 <= k < |ps| => Markup.Plain(ps[k]))
  }

  /**
    `_inline_ops(a, b)`: the character alignment of `a` and `b`, each opcode
    with the fragments it spans. `charAlign` stands for the sequence matcher.
   */
  function InlineOpsOf(a: string, b: string, charAlign: (seq<char>, seq<char>) -> seq<Opcode>): (r: seq<InlineOp>)
    requires IsAligner(charAlign)
    ensures OldText(r) == a && NewText(r) == b
  {
    InlineRoundTrip(a, b, charAlign(a, b));
    InlineOps(a, b, charAlign(a, b))
  }

  /** The `equal` chunks for old indices `from .. to` of the span starting at `(i1, j1)`. */
  function EqualChunks(pa: seq<string>, pb: seq<string>, i1: nat, j1: nat, from: nat, to: nat): (r: seq<Chunk>)
    requires i1 <= from <= to <= |pa| && j1 + (to - i1) <= |pb|
    ensures |r| == to - from
  {
    seq(to - from, k requires 0 <= k < to - from =>
      Para(Equal, from + k, j1 + (from + k - i1), pa[from + k], pb[j1 + (from + k - i1)], None))
  }

  function ContextRaw(pa: seq<string>, from: nat, to: nat): (r: seq<RawLine>)
    requires from <= to <= |pa|
    ensures |r| == to - from
  {
    seq(to - from, k requires 0 <= k < to - from => Context(pa[from + k]))
  }

  /** The spans of `op` lie within the two paragraph lists, and an equal span has one length. */
  predicate InBounds(pa: seq<string>, pb: seq<string>, op: Opcode) {
    && op.i1 <= op.i2 <= |pa| && op.j1 <= op.j2 <= |pb|
    && (op.tag == Equal ==> op.i2 - op.i1 == op.j2 - op.j1)
  }

  lemma ValidOpInBounds(pa: seq<string>, pb: seq<string>, op: Opcode)
    requires ValidOp(PlainAll(pa), PlainAll(pb), op)
    ensures InBounds(pa, pb, op)
  {
  }

  /** An equal span: folded around a skip when longer than twice the context, else one chunk per paragraph. */
  function EqualOutput(pa: seq<string>, pb: seq<string>, i1: nat, i2: nat, j1: nat,
                       skipText: int -> string): (seq<Chunk>, seq<RawLine>)
    requires i1 <= i2 <= |pa| && j1 + (i2 - i1) <= |pb|
  {
    var span := i2 - i1;
    if span > 2 * ContextLines then
      var count := span - 2 * ContextLines;
      ( EqualChunks(pa, pb, i1, j1, i1, i1 + ContextLines)
        + [Skip(count)]
        + EqualChunks(pa, pb, i1, j1, i2 - ContextLines, i2),
        ContextRaw(pa, i1, i1 + ContextLines)
        + [Marker(skipText(count))]
        + ContextRaw(pa, i2 - ContextLines, i2) )
    else
      (EqualChunks(pa, pb, i1, j1, i1, i2), ContextRaw(pa, i1, i2))
  }

  /** One `delete` chunk and one `- ` line per old paragraph of the span. */
  function DeleteOutput(pa: seq<string>, i1: nat, i2: nat): (seq<Chunk>, seq<RawLine>)
    requires i1 <= i2 <= |pa|
  {
    ( seq(i2 - i1, k requires 0 <= k < i2 - i1 => Para(Delete, i1 + k, -1, pa[i1 + k], "", None)),
      seq(i2 - i1, k requires 0 <= k < i2 - i1 => Minus(pa[i1 + k])) )
  }

  /** One `insert` chunk and one `+ ` line per new paragraph of the span. */
  function InsertOutput(pb: seq<string>, j1: nat, j2: nat): (seq<Chunk>, seq<RawLine>)
    requires j1 <= j2 <= |pb|
  {
    ( seq(j2 - j1, k requires 0 <= k < j2 - j1 => Para(Insert, -1, j1 + k, "", pb[j1 + k], None)),
      seq(j2 - j1, k requires 0 <= k < j2 - j1 => Plus(pb[j1 + k])) )
  }

  /** One replace chunk holding both spans joined, with inline ops, and one line per side. */
  function ReplaceOutput(pa: seq<string>, pb: seq<string>, op: Opcode,
                         charAlign: (seq<char>, seq<char>) -> seq<Opcode>): (seq<Chunk>, seq<RawLine>)
    requires op.i1 <= op.i2 <= |pa| && op.j1 <= op.j2 <= |pb|
    requires IsAligner(charAlign)
  {
    var aText := Join("\n", pa[op.i1..op.i2]);
    var bText := Join("\n", pb[op.j1..op.j2]);
    ( [Para(Replace, op.i1, op.j1, aText, bText, Some(InlineOpsOf(aText, bText, charAlign)))],
      [Minus(aText), Plus(bText)] )
  }

  /** The chunks and raw lines of one opcode; `skipText(n)` is the localised fold marker. */
  function OpOutput(pa: seq<string>, pb: seq<string>, op: Opcode,
                    skipText: int -> string, charAlign: (seq<char>, seq<char>) -> seq<Opcode>): (seq<Chunk>, seq<RawLine>)
    requires InBounds(pa, pb, op)
    requires IsAligner(charAlign)
  {
    match op.tag
    case Equal => EqualOutput(pa, pb, op.i1, op.i2, op.j1, skipText)
    case Delete => DeleteOutput(pa, op.i1, op.i2)
    case Insert => InsertOutput(pb, op.j1, op.j2)
    case Replace => ReplaceOutput(pa, pb, op, charAlign)
  }

  function DiffFrom(pa: seq<string>, pb: seq<string>, ops: seq<Opcode>, i: nat, j: nat,
                    skipText: int -> string, charAlign: (seq<char>, seq<char>) -> seq<Opcode>): (seq<Chunk>, seq<RawLine>)
    requires ValidFrom(PlainAll(pa), PlainAll(pb), ops, i, j)
    requires IsAligner(charAlign)
    decreases |ops|
  {
    if |ops| == 0 then ([], [])
    else
      ValidOpInBounds(pa, pb, ops[0]);
      var here := OpOutput(pa, pb, ops[0], skipText, charAlign);
      var rest := DiffFrom(pa, pb, ops[1..], ops[0].i2, ops[0].j2, skipText, charAlign);
      (here.0 + rest.0, here.1 + rest.1)
  }

  /** The escape hatch: both documents whole, as one replace chunk. */
  function WholeDocument(pa: seq<string>, pb: seq<string>, charAlign: (seq<char>, seq<char>) -> seq<Opcode>): (seq<Chunk>, seq<RawLine>)
    requires IsAligner(charAlign)
  {
    var aText := Join("\n", pa);
    var bText := Join("\n", pb);
    ([Para(Replace, 0, 0, aText, bText, Some(InlineOpsOf(aText, bText, charAlign)))], [Minus(aText), Plus(bText)])
  }

  /** Whether `diff` takes the escape hatch; `lowRatio` stands for `quick_ratio() < 0.3`. */
  predicate TakesEscapeHatch(pa: seq<string>, pb: seq<string>, lowRatio: bool) {
    |pa| + |pb| > LargeDocument && lowRatio
  }

  /**
    The chunks and raw lines of `diff(path_a, path_b)`, given the decorated
    paragraph texts, the paragraph alignment of their plain projections, the
    ratio test, the fold marker and the character aligner.
   */
  function DiffParts(pa: seq<string>, pb: seq<string>, ops: seq<Opcode>, lowRatio: bool,
                     skipText: int -> string, charAlign: (seq<char>, seq<char>) -> seq<Opcode>): (seq<Chunk>, seq<RawLine>)
    requires ValidOpcodes(PlainAll(pa), PlainAll(pb), ops)
    requires IsAligner(charAlign)
  {
    if TakesEscapeHatch(pa, pb, lowRatio) then WholeDocument(pa, pb, charAlign)
    else DiffFrom(pa, pb, ops, 0, 0, skipText, charAlign)
  }

  function Diff(pa: seq<string>, pb: seq<string>, ops: seq<Opcode>, lowRatio: bool,
                skipText: int -> string, charAlign: (seq<char>, seq<char>) -> seq<Opcode>): (r: DiffResult)
    requires ValidOpcodes(PlainAll(pa), PlainAll(pb), ops)
    requires IsAligner(charAlign)
    ensures r.structured.Some?
    ensures r.raw == RenderRaw(DiffParts(pa, pb, ops, lowRatio, skipText, charAlign).1)
    ensures AllFit(pa, pb, r.structured.value)
    ensures Tiles(pa, pb, r.structured.value)
    ensures !TakesEscapeHatch(pa, pb, lowRatio) ==> UnchangedCount(r.structured.value) == EqualLength(ops)
    ensures TakesEscapeHatch(pa, pb, lowRatio) ==>
      && |r.structured.value| == 1
      && r.structured.value[0].Para? && r.structured.value[0].tag == Replace
      && r.structured.value[0].aIdx == 0 && r.structured.value[0].bIdx == 0
      && r.structured.value[0].aText == Join("\n", pa) && r.structured.value[0].bText == Join("\n", pb)
  {
    var parts := DiffParts(pa, pb, ops, lowRatio, skipText, charAlign);
    ChunksFit(pa, pb, ops, lowRatio, skipText, charAlign);
    ChunksTile(pa, pb, ops, lowRatio, skipText, charAlign);
    if !TakesEscapeHatch(pa, pb, lowRatio) then
      FoldingKeepsCount(pa, pb, ops, lowRatio, skipText, charAlign);
      DiffResult(RenderRaw(parts.1), Some(parts.0))
    else
      DiffResult(RenderRaw(parts.1), Some(parts.0))
  }

  // ---------------------------------------------------------------- the loop, as the source runs it

  /**
    `diff` as the source writes it: a pass over the opcodes that appends each
    one's chunks and raw lines.
   */
  method DiffLoop(pa: seq<string>, pb: seq<string>, ops: seq<Opcode>, lowRatio: bool,
                  skipText: int -> string, charAlign: (seq<char>, seq<char>) -> seq<Opcode>)
    returns (chunks: seq<Chunk>, raw: seq<RawLine>)
    requires ValidOpcodes(PlainAll(pa), PlainAll(pb), ops)
    requires IsAligner(charAlign)
    ensures (chunks, raw) == DiffParts(pa, pb, ops, lowRatio, skipText, charAlign)
    ensures AllFit(pa, pb, chunks) && Tiles(pa, pb, chunks)
  {
    ChunksFit(pa, pb, ops, lowRatio, skipText, charAlign);
    ChunksTile(pa, pb, ops, lowRatio, skipText, charAlign);
    if TakesEscapeHatch(pa, pb, lowRatio) {
      var whole := WholeDocument(pa, pb, charAlign);
      chunks, raw := whole.0, whole.1;
      return;
    }
    ghost var whole := DiffFrom(pa, pb, ops, 0, 0, skipText, charAlign);
    chunks, raw := [], [];
    var n, i, j := 0, 0, 0;
    assert ops[0..] == ops;
    while n < |ops|
      invariant n <= |ops|
      invariant ValidFrom(PlainAll(pa), PlainAll(pb), ops[n..], i, j)
      invariant chunks + DiffFrom(pa, pb, ops[n..], i, j, skipText, charAlign).0 == whole.0
      invariant raw + DiffFrom(pa, pb, ops[n..], i, j, skipText, charAlign).1 == whole.1
      decreases |ops| - n
    {
      var op := ops[n];
      ValidOpInBounds(pa, pb, op);
      var here := OpOutput(pa, pb, op, skipText, charAlign);
      StepFrom(pa, pb, ops, n, i, j, skipText, charAlign);
      ghost var rest := DiffFrom(pa, pb, ops[n + 1..], op.i2, op.j2, skipText, charAlign);
      AppendAssoc(chunks, here.0, rest.0);
      AppendAssoc(raw, here.1, rest.1);
      chunks, raw := chunks + here.0, raw + here.1;
      n, i, j := n + 1, op.i2, op.j2;
    }
    assert ops[n..] == [];
    assert chunks + [] == chunks && raw + [] == raw;
    assert DiffParts(pa, pb, ops, lowRatio, skipText, charAlign) == whole;
  }

  /** One step of the loop: the output from `n` on is op `n`'s output followed by the output from `n + 1` on. */
  lemma StepFrom(pa: seq<string>, pb: seq<string>, ops: seq<Opcode>, n: nat, i: nat, j: nat,
                 skipText: int -> string, charAlign: (seq<char>, seq<char>) -> seq<Opcode>)
    requires n < |ops|
    requires ValidFrom(PlainAll(pa), PlainAll(pb), ops[n..], i, j)
    requires IsAligner(charAlign)
    ensures ValidOp(PlainAll(pa), PlainAll(pb), ops[n]) && InBounds(pa, pb, ops[n])
    ensures ValidFrom(PlainAll(pa), PlainAll(pb), ops[n + 1..], ops[n].i2, ops[n].j2)
    ensures var here := OpOutput(pa, pb, ops[n], skipText, charAlign);
            var rest := DiffFrom(pa, pb, ops[n + 1..], ops[n].i2, ops[n].j2, skipText, charAlign);
            DiffFrom(pa, pb, ops[n..], i, j, skipText, charAlign) == (here.0 + rest.0, here.1 + rest.1)
  {
    assert ops[n..][0] == ops[n];
    assert ops[n..][1..] == ops[n + 1..];
    ValidOpInBounds(pa, pb, ops[n]);
  }

  // ---------------------------------------------------------------- the escape hatch

  /**
    A large, very dissimilar pair becomes one replace chunk at index 0 on both
    sides, holding both documents whole, with inline ops that spell out both,
    and exactly two raw lines.
   */
  lemma EscapeHatchShape(pa: seq<string>, pb: seq<string>, ops: seq<Opcode>, lowRatio: bool,
                         skipText: int -> string, charAlign: (seq<char>, seq<char>) -> seq<Opcode>)
    requires ValidOpcodes(PlainAll(pa), PlainAll(pb), ops)
    requires IsAligner(charAlign)
    requires |pa| + |pb| > 200 && lowRatio
    ensures var (cs, raw) := DiffParts(pa, pb, ops, lowRatio, skipText, charAlign);
            && |cs| == 1 && |raw| == 2
            && cs[0].Para? && cs[0].tag == Replace && cs[0].aIdx == 0 && cs[0].bIdx == 0
            && cs[0].aText == Join("\n", pa) && cs[0].bText == Join("\n", pb)
            && cs[0].inline.Some? && OldText(cs[0].inline.value) == cs[0].aText
            && NewText(cs[0].inline.value) == cs[0].bText
            && raw == [Minus(Join("\n", pa)), Plus(Join("\n", pb))]
  {
  }

  // ---------------------------------------------------------------- folding

  /** How many unchanged paragraphs a chunk stands for: one per equal chunk, `count` per skip. */
  function Unchanged(c: Chunk): nat {
    match c
    case Skip(n) => if n >= 0 then n else 0
    case Para(tag, _, _, _, _, _) => if tag == Equal then 1 else 0
  }

  function UnchangedCount(cs: seq<Chunk>): nat
    decreases |cs|
  {
    if |cs| == 0 then 0 else Unchanged(cs[0]) + UnchangedCount(cs[1..])
  }

  lemma {:induction false} UnchangedAppend(xs: seq<Chunk>, ys: seq<Chunk>)
    ensures UnchangedCount(xs + ys) == UnchangedCount(xs) + UnchangedCount(ys)
    decreases |xs|
  {
    if |xs| == 0 {
      assert xs + ys == ys;
    } else {
      assert (xs + ys)[1..] == xs[1..] + ys;
      UnchangedAppend(xs[1..], ys);
    }
  }

  lemma {:induction false} UnchangedOfEqualChunks(cs: seq<Chunk>)
    requires forall k :: 0 <= k < |cs| ==> cs[k].Para? && cs[k].tag == Equal
    ensures UnchangedCount(cs) == |cs|
    decreases |cs|
  {
    if |cs| > 0 {
      UnchangedOfEqualChunks(cs[1..]);
    }
  }

  lemma {:induction false} UnchangedOfOthers(cs: seq<Chunk>)
    requires forall k :: 0 <= k < |cs| ==> cs[k].Para? && cs[k].tag != Equal
    ensures UnchangedCount(cs) == 0
    decreases |cs|
  {
    if |cs| > 0 {
      UnchangedOfOthers(cs[1..]);
    }
  }

  /**
    Folding an equal span of length L > 6: three equal chunks, a skip of
    L - 6, and three equal chunks, so that 3 + count + 3 == L; the raw lines
    put the fold marker between three context lines on each side.
   */
  lemma FoldLong(pa: seq<string>, pb: seq<string>, i1: nat, i2: nat, j1: nat, skipText: int -> string)
    requires i1 <= i2 <= |pa| && j1 + (i2 - i1) <= |pb|
    requires i2 - i1 > 6
    ensures var (cs, raw) := EqualOutput(pa, pb, i1, i2, j1, skipText);
            && |cs| == 7 && cs[3] == Skip(i2 - i1 - 6) && 3 + cs[3].count + 3 == i2 - i1
            && (forall k :: 0 <= k < 3 ==> cs[k] == Para(Equal, i1 + k, j1 + k, pa[i1 + k], pb[j1 + k], None))
            && (forall k :: 4 <= k < 7 ==> cs[k] == Para(Equal, i2 - 7 + k, j1 + (i2 - i1) - 7 + k,
                                                         pa[i2 - 7 + k], pb[j1 + (i2 - i1) - 7 + k], None))
            && |raw| == 7 && raw[3] == Marker(skipText(i2 - i1 - 6))
  {
    var head := EqualChunks(pa, pb, i1, j1, i1, i1 + 3);
    var tail := EqualChunks(pa, pb, i1, j1, i2 - 3, i2);
    var cs := EqualOutput(pa, pb, i1, i2, j1, skipText).0;
    assert cs == head + [Skip(i2 - i1 - 6)] + tail;
    forall k | 4 <= k < 7
      ensures cs[k] == Para(Equal, i2 - 7 + k, j1 + (i2 - i1) - 7 + k, pa[i2 - 7 + k], pb[j1 + (i2 - i1) - 7 + k], None)
    {
      assert cs[k] == tail[k - 4];
    }
  }

  /** An equal span of at most six paragraphs is not folded: one equal chunk and one context line each. */
  lemma FoldShort(pa: seq<string>, pb: seq<string>, i1: nat, i2: nat, j1: nat, skipText: int -> string)
    requires i1 <= i2 <= |pa| && j1 + (i2 - i1) <= |pb|
    requires i2 - i1 <= 6
    ensures var (cs, raw) := EqualOutput(pa, pb, i1, i2, j1, skipText);
            && |cs| == i2 - i1 && |raw| == i2 - i1
            && (forall k :: 0 <= k < |cs| ==> cs[k] == Para(Equal, i1 + k, j1 + k, pa[i1 + k], pb[j1 + k], None))
            && (forall k :: 0 <= k < |raw| ==> raw[k] == Context(pa[i1 + k]))
  {
  }

  lemma EqualUnchanged(pa: seq<string>, pb: seq<string>, i1: nat, i2: nat, j1: nat, skipText: int -> string)
    requires i1 <= i2 <= |pa| && j1 + (i2 - i1) <= |pb|
    ensures UnchangedCount(EqualOutput(pa, pb, i1, i2, j1, skipText).0) == i2 - i1
  {
    var span := i2 - i1;
    if span > 2 * ContextLines {
      var head := EqualChunks(pa, pb, i1, j1, i1, i1 + ContextLines);
      var tail := EqualChunks(pa, pb, i1, j1, i2 - ContextLines, i2);
      UnchangedOfEqualChunks(head);
      UnchangedOfEqualChunks(tail);
      UnchangedAppend(head, [Skip(span - 6)]);
      UnchangedAppend(head + [Skip(span - 6)], tail);
      assert UnchangedCount([Skip(span - 6)]) == span - 6;
    } else {
      UnchangedOfEqualChunks(EqualOutput(pa, pb, i1, i2, j1, skipText).0);
    }
  }

  lemma OpUnchanged(pa: seq<string>, pb: seq<string>, op: Opcode,
                    skipText: int -> string, charAlign: (seq<char>, seq<char>) -> seq<Opcode>)
    requires InBounds(pa, pb, op)
    requires IsAligner(charAlign)
    ensures UnchangedCount(OpOutput(pa, pb, op, skipText, charAlign).0) == (if op.tag == Equal then op.i2 - op.i1 else 0)
  {
    var cs := OpOutput(pa, pb, op, skipText, charAlign).0;
    match op.tag
    case Equal =>
      EqualUnchanged(pa, pb, op.i1, op.i2, op.j1, skipText);
    case Delete =>
      UnchangedOfOthers(cs);
    case Insert =>
      UnchangedOfOthers(cs);
    case Replace =>
      UnchangedOfOthers(cs);
  }

  lemma {:induction false} UnchangedFrom(pa: seq<string>, pb: seq<string>, ops: seq<Opcode>, i: nat, j: nat,
                                         skipText: int -> string, charAlign: (seq<char>, seq<char>) -> seq<Opcode>)
    requires ValidFrom(PlainAll(pa), PlainAll(pb), ops, i, j)
    requires IsAligner(charAlign)
    ensures UnchangedCount(DiffFrom(pa, pb, ops, i, j, skipText, charAlign).0) == EqualLength(ops)
    decreases |ops|
  {
    if |ops| > 0 {
      ValidOpInBounds(pa, pb, ops[0]);
      OpUnchanged(pa, pb, ops[0], skipText, charAlign);
      UnchangedFrom(pa, pb, ops[1..], ops[0].i2, ops[0].j2, skipText, charAlign);
      UnchangedAppend(OpOutput(pa, pb, ops[0], skipText, charAlign).0,
                      DiffFrom(pa, pb, ops[1..], ops[0].i2, ops[0].j2, skipText, charAlign).0);
    }
  }

  /**
    Folding hides paragraphs but never loses count of them: equal chunks plus
    skip counts add up to the total length of the equal spans.
   */
  lemma FoldingKeepsCount(pa: seq<string>, pb: seq<string>, ops: seq<Opcode>, lowRatio: bool,
                          skipText: int -> string, charAlign: (seq<char>, seq<char>) -> seq<Opcode>)
    requires ValidOpcodes(PlainAll(pa), PlainAll(pb), ops)
    requires IsAligner(charAlign)
    requires !TakesEscapeHatch(pa, pb, lowRatio)
    ensures UnchangedCount(DiffParts(pa, pb, ops, lowRatio, skipText, charAlign).0) == EqualLength(ops)
  {
    UnchangedFrom(pa, pb, ops, 0, 0, skipText, charAlign);
  }

  // ---------------------------------------------------------------- what every chunk carries

  /**
    A chunk of this strategy: an equal chunk pairs an old and a new paragraph
    whose plain texts agree but whose decorated texts are carried as they
    are; a delete (insert) chunk is one old (new) paragraph with -1 and "" on
    the missing side; a replace chunk's inline ops spell out both of its
    texts; a skip stands for at least one paragraph.
   */
  ghost predicate ChunkFits(pa: seq<string>, pb: seq<string>, c: Chunk) {
    match c
    case Skip(n) => n > 0
    case Para(tag, ai, bi, at, bt, inl) =>
      match tag
      case Equal =>
        && 0 <= ai < |pa| && 0 <= bi < |pb| && at == pa[ai] && bt == pb[bi]
        && Markup.Plain(at) == Markup.Plain(bt) && inl.None?
      case Delete => 0 <= ai < |pa| && at == pa[ai] && bi == -1 && bt == "" && inl.None?
      case Insert => 0 <= bi < |pb| && bt == pb[bi] && ai == -1 && at == "" && inl.None?
      case Replace =>
        && SpanFrom(pa, ai, at) && SpanFrom(pb, bi, bt)
        && inl.Some? && OldText(inl.value) == at && NewText(inl.value) == bt
  }

  ghost predicate AllFit(pa: seq<string>, pb: seq<string>, cs: seq<Chunk>) {
    forall k :: 0 <= k < |cs| ==> ChunkFits(pa, pb, cs[k])
  }

  lemma AllFitAppend(pa: seq<string>, pb: seq<string>, xs: seq<Chunk>, ys: seq<Chunk>)
    requires AllFit(pa, pb, xs) && AllFit(pa, pb, ys)
    ensures AllFit(pa, pb, xs + ys)
  {
    forall k | 0 <= k < |xs + ys| ensures ChunkFits(pa, pb, (xs + ys)[k]) {
      if k >= |xs| {
        assert (xs + ys)[k] == ys[k - |xs|];
      }
    }
  }

  /** Paragraphs `i1 + d` and `j1 + d` agree once their markup is stripped, for every `d` below `span`. */
  predicate PlainAgree(pa: seq<string>, pb: seq<string>, i1: nat, j1: nat, span: nat)
    requires i1 + span <= |pa| && j1 + span <= |pb|
  {
    forall idx :: i1 <= idx < i1 + span ==> Markup.Plain(pa[idx]) == Markup.Plain(pb[j1 + (idx - i1)])
  }

  lemma EqualSpanAgrees(pa: seq<string>, pb: seq<string>, op: Opcode)
    requires ValidOp(PlainAll(pa), PlainAll(pb), op) && op.tag == Equal
    ensures InBounds(pa, pb, op)
    ensures PlainAgree(pa, pb, op.i1, op.j1, op.i2 - op.i1)
  {
    var plainA := PlainAll(pa);
    var plainB := PlainAll(pb);
    forall idx | op.i1 <= idx < op.i2
      ensures Markup.Plain(pa[idx]) == Markup.Plain(pb[op.j1 + (idx - op.i1)])
    {
      assert plainA[op.i1..op.i2][idx - op.i1] == plainB[op.j1..op.j2][idx - op.i1];
    }
  }

  lemma EqualChunksFit(pa: seq<string>, pb: seq<string>, i1: nat, i2: nat, j1: nat, from: nat, to: nat)
    requires i1 <= from <= to <= i2 <= |pa| && j1 + (i2 - i1) <= |pb|
    requires PlainAgree(pa, pb, i1, j1, i2 - i1)
    ensures AllFit(pa, pb, EqualChunks(pa, pb, i1, j1, from, to))
  {
    var cs := EqualChunks(pa, pb, i1, j1, from, to);
    forall k | 0 <= k < |cs| ensures ChunkFits(pa, pb, cs[k]) {
      var ai, bi := from + k, j1 + (from + k - i1);
      assert cs[k] == Para(Equal, ai, bi, pa[ai], pb[bi], None);
      assert i1 <= ai < i1 + (i2 - i1);
      assert Markup.Plain(pa[ai]) == Markup.Plain(pb[bi]);
    }
  }

  lemma EqualOutputFits(pa: seq<string>, pb: seq<string>, i1: nat, i2: nat, j1: nat, skipText: int -> string)
    requires i1 <= i2 <= |pa| && j1 + (i2 - i1) <= |pb|
    requires PlainAgree(pa, pb, i1, j1, i2 - i1)
    ensures AllFit(pa, pb, EqualOutput(pa, pb, i1, i2, j1, skipText).0)
  {
    var span := i2 - i1;
    if span > 2 * ContextLines {
      var head := EqualChunks(pa, pb, i1, j1, i1, i1 + ContextLines);
      var tail := EqualChunks(pa, pb, i1, j1, i2 - ContextLines, i2);
      EqualChunksFit(pa, pb, i1, i2, j1, i1, i1 + ContextLines);
      EqualChunksFit(pa, pb, i1, i2, j1, i2 - ContextLines, i2);
      assert AllFit(pa, pb, [Skip(span - 6)]);
      AllFitAppend(pa, pb, head, [Skip(span - 6)]);
      AllFitAppend(pa, pb, head + [Skip(span - 6)], tail);
    } else {
      EqualChunksFit(pa, pb, i1, i2, j1, i1, i2);
    }
  }

  lemma OpChunksFit(pa: seq<string>, pb: seq<string>, op: Opcode,
                    skipText: int -> string, charAlign: (seq<char>, seq<char>) -> seq<Opcode>)
    requires ValidOp(PlainAll(pa), PlainAll(pb), op)
    requires IsAligner(charAlign)
    ensures InBounds(pa, pb, op)
    ensures AllFit(pa, pb, OpOutput(pa, pb, op, skipText, charAlign).0)
  {
    ValidOpInBounds(pa, pb, op);
    if op.tag == Equal {
      EqualSpanAgrees(pa, pb, op);
      EqualOutputFits(pa, pb, op.i1, op.i2, op.j1, skipText);
    } else if op.tag == Replace {
      assert Join("\n", pa[op.i1..op.i2]) == SpanText(pa, op.i1, op.i2);
      assert Join("\n", pb[op.j1..op.j2]) == SpanText(pb, op.j1, op.j2);
    }
  }

  lemma {:induction false} ChunksFitFrom(pa: seq<string>, pb: seq<string>, ops: seq<Opcode>, i: nat, j: nat,
                                         skipText: int -> string, charAlign: (seq<char>, seq<char>) -> seq<Opcode>)
    requires ValidFrom(PlainAll(pa), PlainAll(pb), ops, i, j)
    requires IsAligner(charAlign)
    ensures AllFit(pa, pb, DiffFrom(pa, pb, ops, i, j, skipText, charAlign).0)
    decreases |ops|
  {
    if |ops| > 0 {
      OpChunksFit(pa, pb, ops[0], skipText, charAlign);
      ChunksFitFrom(pa, pb, ops[1..], ops[0].i2, ops[0].j2, skipText, charAlign);
      AllFitAppend(pa, pb, OpOutput(pa, pb, ops[0], skipText, charAlign).0,
                   DiffFrom(pa, pb, ops[1..], ops[0].i2, ops[0].j2, skipText, charAlign).0);
    }
  }

  /** Every chunk of the result, escape hatch or not, fits the two paragraph lists. */
  lemma ChunksFit(pa: seq<string>, pb: seq<string>, ops: seq<Opcode>, lowRatio: bool,
                  skipText: int -> string, charAlign: (seq<char>, seq<char>) -> seq<Opcode>)
    requires ValidOpcodes(PlainAll(pa), PlainAll(pb), ops)
    requires IsAligner(charAlign)
    ensures AllFit(pa, pb, DiffParts(pa, pb, ops, lowRatio, skipText, charAlign).0)
  {
    if !TakesEscapeHatch(pa, pb, lowRatio) {
      ChunksFitFrom(pa, pb, ops, 0, 0, skipText, charAlign);
    } else {
      assert pa[0..|pa|] == pa && pb[0..|pb|] == pb;
      assert Join("\n", pa) == SpanText(pa, 0, |pa|);
      assert Join("\n", pb) == SpanText(pb, 0, |pb|);
    }
  }

  // ---------------------------------------------------------------- coverage

  /** The equal chunks for old indices `from .. to` stand for one paragraph each, on both sides. */
  lemma EqualChunksCover(pa: seq<string>, pb: seq<string>, i1: nat, j1: nat, from: nat, to: nat)
    requires i1 <= from <= to <= |pa| && j1 + (to - i1) <= |pb|
    ensures CutBy(pa, pb, EqualChunks(pa, pb, i1, j1, from, to),
                  seq(to - from + 1, k requires 0 <= k <= to - from => Cut(from + k, j1 + (from + k - i1))),
                  Cut(from, j1 + (from - i1)), Cut(to, j1 + (to - i1)))
  {
    var cs := EqualChunks(pa, pb, i1, j1, from, to);
    var cuts := seq(to - from + 1, k requires 0 <= k <= to - from => Cut(from + k, j1 + (from + k - i1)));
    forall k | 0 <= k < |cs| ensures Covers(pa, pb, cs[k], cuts[k], cuts[k + 1]) {
      var ai, bi := from + k, j1 + (from + k - i1);
      assert cuts[k] == Cut(ai, bi) && cuts[k + 1] == Cut(ai + 1, bi + 1);
      assert cs[k] == Para(Equal, ai, bi, pa[ai], pb[bi], None);
      SpanTextOfOne(pa, ai);
      SpanTextOfOne(pb, bi);
    }
  }

  /** An equal span, folded or not, is covered from its start to its end. */
  lemma EqualOutputCovers(pa: seq<string>, pb: seq<string>, i1: nat, i2: nat, j1: nat, j2: nat, skipText: int -> string)
    requires i1 <= i2 <= |pa| && j2 == j1 + (i2 - i1) <= |pb|
    ensures exists cuts :: CutBy(pa, pb, EqualOutput(pa, pb, i1, i2, j1, skipText).0, cuts, Cut(i1, j1), Cut(i2, j2))
  {
    var span := i2 - i1;
    var c := ContextLines;
    if span > 2 * c {
      var head := EqualChunks(pa, pb, i1, j1, i1, i1 + c);
      var tail := EqualChunks(pa, pb, i1, j1, i2 - c, i2);
      var skip := [Skip(span - 2 * c)];
      var m1, m2, e := Cut(i1 + c, j1 + c), Cut(i2 - c, j1 + (span - c)), Cut(i2, j1 + span);
      EqualChunksCover(pa, pb, i1, j1, i1, i1 + c);
      EqualChunksCover(pa, pb, i1, j1, i2 - c, i2);
      var ch := seq(c + 1, k requires 0 <= k <= c => Cut(i1 + k, j1 + (i1 + k - i1)));
      var ct := seq(c + 1, k requires 0 <= k <= c => Cut(i2 - c + k, j1 + (i2 - c + k - i1)));
      assert CutBy(pa, pb, skip, [m1, m2], m1, m2);
      CutByAppend(pa, pb, head, ch, skip, [m1, m2], Cut(i1, j1), m1, m2);
      CutByAppend(pa, pb, head + skip, ch + [m2], tail, ct, Cut(i1, j1), m2, e);
      assert EqualOutput(pa, pb, i1, i2, j1, skipText).0 == head + skip + tail;
      assert CutBy(pa, pb, EqualOutput(pa, pb, i1, i2, j1, skipText).0, ch + [m2] + ct[1..], Cut(i1, j1), Cut(i2, j2));
    } else {
      EqualChunksCover(pa, pb, i1, j1, i1, i2);
      var cuts := seq(i2 - i1 + 1, k requires 0 <= k <= i2 - i1 => Cut(i1 + k, j1 + (i1 + k - i1)));
      assert CutBy(pa, pb, EqualOutput(pa, pb, i1, i2, j1, skipText).0, cuts, Cut(i1, j1), Cut(i2, j2));
    }
  }

  /** The chunks of one opcode stand for its two spans, in order. */
  lemma OpChunksCover(pa: seq<string>, pb: seq<string>, op: Opcode,
                      skipText: int -> string, charAlign: (seq<char>, seq<char>) -> seq<Opcode>)
    requires ValidOp(PlainAll(pa), PlainAll(pb), op)
    requires IsAligner(charAlign)
    ensures InBounds(pa, pb, op)
    ensures exists cuts :: CutBy(pa, pb, OpOutput(pa, pb, op, skipText, charAlign).0, cuts,
                                 Cut(op.i1, op.j1), Cut(op.i2, op.j2))
  {
    ValidOpInBounds(pa, pb, op);
    var cs := OpOutput(pa, pb, op, skipText, charAlign).0;
    var s, e := Cut(op.i1, op.j1), Cut(op.i2, op.j2);
    match op.tag
    case Equal =>
      EqualOutputCovers(pa, pb, op.i1, op.i2, op.j1, op.j2, skipText);
    case Replace =>
      assert Covers(pa, pb, cs[0], s, e);
      assert CutBy(pa, pb, cs, [s, e], s, e);
    case Delete =>
      var cuts := seq(op.i2 - op.i1 + 1, k requires 0 <= k <= op.i2 - op.i1 => Cut(op.i1 + k, op.j1));
      forall k | 0 <= k < |cs| ensures Covers(pa, pb, cs[k], cuts[k], cuts[k + 1]) {
        assert cuts[k] == Cut(op.i1 + k, op.j1) && cuts[k + 1] == Cut(op.i1 + k + 1, op.j1);
      }
      assert CutBy(pa, pb, cs, cuts, s, e);
    case Insert =>
      var cuts := seq(op.j2 - op.j1 + 1, k requires 0 <= k <= op.j2 - op.j1 => Cut(op.i1, op.j1 + k));
      forall k | 0 <= k < |cs| ensures Covers(pa, pb, cs[k], cuts[k], cuts[k + 1]) {
        assert cuts[k] == Cut(op.i1, op.j1 + k) && cuts[k + 1] == Cut(op.i1, op.j1 + k + 1);
      }
      assert CutBy(pa, pb, cs, cuts, s, e);
  }

  lemma {:induction false} ChunksCoverFrom(pa: seq<string>, pb: seq<string>, ops: seq<Opcode>, i: nat, j: nat,
                                           skipText: int -> string, charAlign: (seq<char>, seq<char>) -> seq<Opcode>)
    requires ValidFrom(PlainAll(pa), PlainAll(pb), ops, i, j)
    requires IsAligner(charAlign)
    ensures exists cuts :: CutBy(pa, pb, DiffFrom(pa, pb, ops, i, j, skipText, charAlign).0, cuts,
                                 Cut(i, j), Cut(|pa|, |pb|))
    decreases |ops|
  {
    if |ops| == 0 {
      CutByNothing(pa, pb, Cut(i, j));
      assert DiffFrom(pa, pb, ops, i, j, skipText, charAlign).0 == [];
    } else {
      var op := ops[0];
      OpChunksCover(pa, pb, op, skipText, charAlign);
      ChunksCoverFrom(pa, pb, ops[1..], op.i2, op.j2, skipText, charAlign);
      var here := OpOutput(pa, pb, op, skipText, charAlign).0;
      var rest := DiffFrom(pa, pb, ops[1..], op.i2, op.j2, skipText, charAlign).0;
      var cx :| CutBy(pa, pb, here, cx, Cut(i, j), Cut(op.i2, op.j2));
      var cy :| CutBy(pa, pb, rest, cy, Cut(op.i2, op.j2), Cut(|pa|, |pb|));
      CutByAppend(pa, pb, here, cx, rest, cy, Cut(i, j), Cut(op.i2, op.j2), Cut(|pa|, |pb|));
      assert DiffFrom(pa, pb, ops, i, j, skipText, charAlign).0 == here + rest;
      assert CutBy(pa, pb, DiffFrom(pa, pb, ops, i, j, skipText, charAlign).0, cx + cy[1..], Cut(i, j), Cut(|pa|, |pb|));
    }
  }

  /**
    The chunks stand for both documents whole, in opcode order, escape hatch
    or not: a delete or insert span gives one chunk per paragraph, an equal
    span one chunk per paragraph or a fold counting the paragraphs it hides,
    and a replace span one chunk starting where the span starts.
   */
  lemma ChunksTile(pa: seq<string>, pb: seq<string>, ops: seq<Opcode>, lowRatio: bool,
                   skipText: int -> string, charAlign: (seq<char>, seq<char>) -> seq<Opcode>)
    requires ValidOpcodes(PlainAll(pa), PlainAll(pb), ops)
    requires IsAligner(charAlign)
    ensures Tiles(pa, pb, DiffParts(pa, pb, ops, lowRatio, skipText, charAlign).0)
  {
    if !TakesEscapeHatch(pa, pb, lowRatio) {
      ChunksCoverFrom(pa, pb, ops, 0, 0, skipText, charAlign);
    } else {
      var cs := DiffParts(pa, pb, ops, lowRatio, skipText, charAlign).0;
      var s, e := Cut(0, 0), Cut(|pa|, |pb|);
      assert pa[0..|pa|] == pa && pb[0..|pb|] == pb;
      assert Covers(pa, pb, cs[0], s, e);
      assert CutBy(pa, pb, cs, [s, e], s, e);
    }
  }

  lemma PlainOfCloseBold()
    ensures Markup.Plain("</b>") == ""
  {
    Markup.PlainDropsMarker("/b", "");
    assert "<" + "/b" + ">" + "" == "</b>";
    assert Markup.Plain("") == "";
  }

  lemma PlainOfBoldTail()
    ensures Markup.Plain("x</b>") == "x"
  {
    PlainOfCloseBold();
    Markup.PlainKeepsBracketFreePrefix("x", "</b>");
    assert "x" + "</b>" == "x</b>";
  }

  /** Bold "x" and plain "x" read the same once markup is stripped. */
  lemma BoldPlainText()
    ensures Markup.Plain("<b>x</b>") == Markup.Plain("x") == "x"
  {
    PlainOfBoldTail();
    Markup.PlainDropsMarker("b", "x</b>");
    assert "<" + "b" + ">" + "x</b>" == "<b>x</b>";
    Markup.PlainOfBracketFree("x");
  }

  /**
    Paragraphs that differ only in their markup pair up as an equal chunk
    that still shows both decorations: bold "x" against plain "x".
   */
  lemma MarkupOnlyChangeIsEqual(skipText: int -> string, charAlign: (seq<char>, seq<char>) -> seq<Opcode>)
    requires IsAligner(charAlign)
    ensures Markup.Plain("<b>x</b>") == Markup.Plain("x") == "x"
    ensures var ops := [Opcode(Equal, 0, 1, 0, 1)];
            ValidOpcodes(PlainAll(["<b>x</b>"]), PlainAll(["x"]), ops)
            && DiffParts(["<b>x</b>"], ["x"], ops, false, skipText, charAlign).0
               == [Para(Equal, 0, 0, "<b>x</b>", "x", None)]
  {
    BoldPlainText();
    var ops := [Opcode(Equal, 0, 1, 0, 1)];
    var pA := PlainAll(["<b>x</b>"]);
    var pB := PlainAll(["x"]);
    assert pA == ["x"] && pB == ["x"];
    assert ValidFrom(pA, pB, ops[1..], 1, 1);
    assert pA[0..1] == pB[0..1];
    var out := OpOutput(["<b>x</b>"], ["x"], ops[0], skipText, charAlign);
    assert out.0 == EqualChunks(["<b>x</b>"], ["x"], 0, 0, 0, 1);
    assert out.0 == [Para(Equal, 0, 0, "<b>x</b>", "x", None)];
    assert DiffFrom(["<b>x</b>"], ["x"], ops[1..], 1, 1, skipText, charAlign) == ([], []);
    assert out.0 + [] == out.0;
  }
}
