/**
  The markup layer of the paragraph strategy 2.0
  (app/diff_strategies/paragraph_strategy.py): paragraph dicts are rendered to
  text decorated with inline markers such as `<b>…</b>` or `<size:12>…</size>`,
  each marker controlled by one of eleven detection flags, and `Plain` strips
  every `<…>` marker again so that alignment never sees formatting.
 */
module Markup {
  import opened Wrappers
  import opened Text
  import opened Extraction

  // ---------------------------------------------------------------- _plain

  /** The first index at or after `from` holding `c`. */
  function IndexFrom(s: string, c: char, from: nat): (r: Option<nat>)
    requires from <= |s|
    ensures r.Some? ==> from <= r.value < |s| && s[r.value] == c
    ensures r.Some? ==> forall k :: from <= k < r.value ==> s[k] != c
    ensures r.None? ==> forall k :: from <= k < |s| ==> s[k] != c
    decreases |s| - from
  {
    if from == |s| then None
    else if s[from] == c then Some(from)
    else IndexFrom(s, c, from + 1)
  }

  /**
    The length of the match of the pattern `<[^>]+>` at the start of `s`, if
    any: an opening `<`, at least one character other than `>`, and the first
    `>` after them.
   */
  function TagLength(s: string): (n: Option<nat>)
    ensures n.Some? ==> 3 <= n.value <= |s| && s[0] == '<' && s[n.value - 1] == '>'
    ensures n.Some? ==> forall k :: 1 <= k < n.value - 1 ==> s[k] != '>'
    ensures n.None? <==> (|s| < 2 || s[0] != '<' || s[1] == '>' || forall k :: 1 <= k < |s| ==> s[k] != '>')
  {
    if |s| >= 2 && s[0] == '<' && s[1] != '>' then
      match IndexFrom(s, '>', 1)
      case Some(k) => Some(k + 1)
      case None => None
    else None
  }

  /**
    `_plain(text)`: `re.sub("<[^>]+>", "", text)`. The scan goes left to
    right; where a marker starts it is dropped whole, elsewhere one character
    is kept.
   */
  function Plain(s: string): (r: string)
    ensures |r| <= |s|
    decreases |s|
  {
    if |s| == 0 then ""
    else match TagLength(s)
      case Some(n) => Plain(s[n..])
      case None => [s[0]] + Plain(s[1..])
  }

  predicate NoOpenBracket(s: string) {
    forall k :: 0 <= k < |s| ==> s[k] != '<'
  }

  predicate NoCloseBracket(s: string) {
    forall k :: 0 <= k < |s| ==> s[k] != '>'
  }

  /** No position of `s` starts a marker. */
  predicate NoMarker(s: string) {
    forall k :: 0 <= k < |s| ==> TagLength(s[k..]).None?
  }

  /** Text in front of the first `<` is kept as it is. */
  lemma {:induction false} PlainKeepsBracketFreePrefix(x: string, y: string)
    requires NoOpenBracket(x)
    ensures Plain(x + y) == x + Plain(y)
    decreases |x|
  {
    if |x| > 0 {
      var s := x + y;
      var t := x[1..];
      assert s[0] == x[0] && x[0] != '<';
      PlainKeepsPlainChar(s);
      assert s[1..] == t + y;
      NoOpenBracketTail(x);
      PlainKeepsBracketFreePrefix(t, y);
      assert Plain(s) == [x[0]] + (t + Plain(y));
      assert x == [x[0]] + t;
    } else {
      assert x + y == y;
    }
  }

  /** A first character other than `<` is kept. */
  lemma PlainKeepsPlainChar(s: string)
    requires |s| > 0 && s[0] != '<'
    ensures Plain(s) == [s[0]] + Plain(s[1..])
  {
    assert TagLength(s).None?;
  }

  lemma NoOpenBracketTail(x: string)
    requires |x| > 0 && NoOpenBracket(x)
    ensures NoOpenBracket(x[1..])
  {
    forall k | 0 <= k < |x[1..]| ensures x[1..][k] != '<' {
      assert x[1..][k] == x[k + 1];
    }
  }

  /** Text without `<` is returned unchanged. */
  lemma PlainOfBracketFree(s: string)
    requires NoOpenBracket(s)
    ensures Plain(s) == s
  {
    PlainKeepsBracketFreePrefix(s, "");
    assert s + "" == s;
  }

  /** A marker with a non-empty body free of `>` is deleted whole. */
  lemma PlainDropsMarker(body: string, rest: string)
    requires |body| > 0 && NoCloseBracket(body)
    ensures Plain("<" + body + ">" + rest) == Plain(rest)
  {
    var s := "<" + body + ">" + rest;
    assert s[|body| + 1] == '>';
    assert forall k :: 1 <= k < |body| + 1 ==> s[k] == body[k - 1];
    assert TagLength(s) == Some(|body| + 2);
    assert s[|body| + 2..] == rest;
  }

  /** Every character `Plain` keeps comes from its input. */
  lemma {:induction false} PlainChars(s: string)
    ensures forall c :: c in Plain(s) ==> c in s
    decreases |s|
  {
    if |s| > 0 {
      match TagLength(s)
      case Some(n) =>
        PlainChars(s[n..]);
        assert forall c :: c in s[n..] ==> c in s;
      case None =>
        PlainChars(s[1..]);
        assert forall c :: c in s[1..] ==> c in s;
    }
  }

  lemma NoMarkerCons(c: char, t: string)
    requires NoMarker(t)
    requires TagLength([c] + t).None?
    ensures NoMarker([c] + t)
  {
    var s := [c] + t;
    forall k | 0 <= k < |s| ensures TagLength(s[k..]).None? {
      if k > 0 {
        assert s[k..] == t[k - 1..];
      }
    }
  }

  /** What `Plain` returns holds no marker any more. */
  lemma {:induction false} PlainLeavesNoMarker(s: string)
    ensures NoMarker(Plain(s))
    decreases |s|
  {
    if |s| > 0 {
      match TagLength(s)
      case Some(n) =>
        PlainLeavesNoMarker(s[n..]);
      case None =>
        var t := Plain(s[1..]);
        PlainLeavesNoMarker(s[1..]);
        assert TagLength([s[0]] + t).None? by {
          if s[0] == '<' && |s| >= 2 {
            if s[1] == '>' {
              assert TagLength(s[1..]).None?;
              assert t == [s[1]] + Plain(s[2..]) by {
                assert s[1..][1..] == s[2..];
              }
              assert ([s[0]] + t)[1] == '>';
            } else {
              PlainChars(s[1..]);
              assert forall k :: 1 <= k < |s| ==> s[k] != '>';
              assert forall k :: 0 <= k < |s[1..]| ==> s[1..][k] != '>';
              assert '>' !in s[1..];
              assert '>' !in t;
              assert forall k :: 1 <= k < |[s[0]] + t| ==> ([s[0]] + t)[k] == t[k - 1];
            }
          } else if s[0] == '<' {
            assert |s| == 1;
            assert s[1..] == "";
          }
        }
        NoMarkerCons(s[0], t);
    }
  }

  /** Text holding no marker is a fixed point of `Plain`. */
  lemma {:induction false} PlainOfMarkerFree(s: string)
    requires NoMarker(s)
    ensures Plain(s) == s
    decreases |s|
  {
    if |s| > 0 {
      assert TagLength(s[0..]).None?;
      assert s[0..] == s;
      assert NoMarker(s[1..]) by {
        forall k | 0 <= k < |s[1..]| ensures TagLength(s[1..][k..]).None? {
          assert s[1..][k..] == s[k + 1..];
        }
      }
      PlainOfMarkerFree(s[1..]);
    }
  }

  /** Stripping markup twice is stripping it once. */
  lemma PlainIdempotent(s: string)
    ensures Plain(Plain(s)) == Plain(s)
  {
    PlainLeavesNoMarker(s);
    PlainOfMarkerFree(Plain(s));
  }

  // ---------------------------------------------------------------- decoration

  /** The eleven detection settings (`diff/detect_*`), all on by default. */
  datatype Flags = Flags(
    bold: bool, italic: bool, underline: bool, font: bool, color: bool, size: bool,
    lineSpacing: bool, alignment: bool, numbering: bool, images: bool, tables: bool)

  const AllOn := Flags(true, true, true, true, true, true, true, true, true, true, true)
  const AllOff := Flags(false, false, false, false, false, false, false, false, false, false, false)

  /** A piece of decorated text: literal text, or a marker `<body>`. */
  datatype Token = Lit(text: string) | Marker(body: string)

  function TokenText(t: Token): string {
    match t
    case Lit(s) => s
    case Marker(b) => "<" + b + ">"
  }

  function Render(ts: seq<Token>): string
    decreases |ts|
  {
    if |ts| == 0 then "" else TokenText(ts[0]) + Render(ts[1..])
  }

  /** The literal text of a token sequence, markers left out. */
  function LiteralText(ts: seq<Token>): string
    decreases |ts|
  {
    if |ts| == 0 then "" else (if ts[0].Lit? then ts[0].text else "") + LiteralText(ts[1..])
  }

  /** Literal text holds no `<`, and every marker body is non-empty and holds no `>`. */
  predicate SafeToken(t: Token) {
    match t
    case Lit(s) => NoOpenBracket(s)
    case Marker(b) => |b| > 0 && NoCloseBracket(b)
  }

  predicate SafeTokens(ts: seq<Token>) {
    forall k :: 0 <= k < |ts| ==> SafeToken(ts[k])
  }

  /** The literal text one token contributes. */
  function TokenLiteral(t: Token): string {
    if t.Lit? then t.text else ""
  }

  lemma {:induction false} RenderOfAppend(xs: seq<Token>, ys: seq<Token>)
    ensures Render(xs + ys) == Render(xs) + Render(ys)
    decreases |xs|
  {
    if |xs| > 0 {
      assert (xs + ys)[0] == xs[0];
      assert (xs + ys)[1..] == xs[1..] + ys;
      RenderOfAppend(xs[1..], ys);
      AppendAssoc(TokenText(xs[0]), Render(xs[1..]), Render(ys));
    } else {
      assert xs + ys == ys;
    }
  }

  lemma {:induction false} LiteralTextOfAppend(xs: seq<Token>, ys: seq<Token>)
    ensures LiteralText(xs + ys) == LiteralText(xs) + LiteralText(ys)
    decreases |xs|
  {
    if |xs| > 0 {
      assert (xs + ys)[0] == xs[0];
      assert (xs + ys)[1..] == xs[1..] + ys;
      LiteralTextOfAppend(xs[1..], ys);
      assert LiteralText(xs) == TokenLiteral(xs[0]) + LiteralText(xs[1..]);
      assert LiteralText(xs + ys) == TokenLiteral(xs[0]) + LiteralText(xs[1..] + ys);
      AppendAssoc(TokenLiteral(xs[0]), LiteralText(xs[1..]), LiteralText(ys));
    } else {
      assert xs + ys == ys;
    }
  }

  lemma RenderAppend(xs: seq<Token>, ys: seq<Token>)
    ensures Render(xs + ys) == Render(xs) + Render(ys)
    ensures LiteralText(xs + ys) == LiteralText(xs) + LiteralText(ys)
  {
    RenderOfAppend(xs, ys);
    LiteralTextOfAppend(xs, ys);
  }

  /** Stripping the rendering of safe tokens leaves exactly their literal text. */
  lemma {:induction false} PlainOfRender(ts: seq<Token>)
    requires SafeTokens(ts)
    ensures Plain(Render(ts)) == LiteralText(ts)
    decreases |ts|
  {
    if |ts| > 0 {
      assert SafeToken(ts[0]);
      assert SafeTokens(ts[1..]) by {
        forall k | 0 <= k < |ts[1..]| ensures SafeToken(ts[1..][k]) {
          assert ts[1..][k] == ts[k + 1];
        }
      }
      PlainOfRender(ts[1..]);
      match ts[0]
      case Lit(s) =>
        PlainKeepsBracketFreePrefix(s, Render(ts[1..]));
      case Marker(b) =>
        PlainDropsMarker(b, Render(ts[1..]));
        assert "<" + b + ">" + Render(ts[1..]) == TokenText(ts[0]) + Render(ts[1..]);
    }
  }

  /** `f"<{open}>{txt}</{close}>"` when `on`, else `txt` unchanged. */
  function Wrap(ts: seq<Token>, on: bool, open: string, close: string): seq<Token> {
    if on then [Marker(open)] + ts + [Marker(close)] else ts
  }

  /** `" | ".join(row)` per row, rows joined with `"\n"`. */
  function TableText(rows: seq<seq<string>>): string {
    Join("\n", seq(|rows|, k requires 0 <= k < |rows| => Join(" | ", rows[k])))
  }

  /** One optional wrapping `<open>…<close>` around a run's text. */
  datatype Layer = Layer(on: bool, open: string, close: string)

  /** Applies the layers in order, so that the last one ends up outermost. */
  function WrapAll(ts: seq<Token>, layers: seq<Layer>): seq<Token>
    decreases |layers|
  {
    if |layers| == 0 then ts else WrapAll(Wrap(ts, layers[0].on, layers[0].open, layers[0].close), layers[1..])
  }

  /** The run markers in the order they are applied: b, i, u, font, size, color. */
  function TextLayers(bold: bool, italic: bool, underline: bool,
                      font: Option<string>, size: Option<string>, color: Option<string>, f: Flags): seq<Layer> {
    [ Layer(bold && f.bold, "b", "/b"),
      Layer(italic && f.italic, "i", "/i"),
      Layer(underline && f.underline, "u", "/u"),
      Layer(Truthy(font) && f.font, "font:" + font.GetOr(""), "/font"),
      Layer(size.Some? && f.size, "size:" + size.GetOr(""), "/size"),
      Layer(Truthy(color) && f.color, "color:" + color.GetOr(""), "/color") ]
  }

  /** One run: an image marker, a table between table markers, or decorated text. */
  function RunTokens(r: Run, f: Flags): seq<Token> {
    match r
    case ImageRun => if f.images then [Marker("image/")] else []
    case TableRun(rows) =>
      Wrap([Lit(TableText(rows))], f.tables, "table", "/table")
    case TextRun(text, bold, italic, underline, font, size, color) =>
      WrapAll([Lit(text)], TextLayers(bold, italic, underline, font, size, color, f))
  }

  function RunsTokens(runs: seq<Run>, f: Flags): seq<Token>
    decreases |runs|
  {
    if |runs| == 0 then [] else RunTokens(runs[0], f) + RunsTokens(runs[1..], f)
  }

  /** A marker that is present only when `on`. */
  function OptionalMarker(on: bool, body: string): seq<Token> {
    if on then [Marker(body)] else []
  }

  /** The `ls`, `align` and `num` markers that open a paragraph, each when set and enabled. */
  function HeadMarkers(p: ParaRecord, f: Flags): seq<Token> {
    OptionalMarker(p.lineSpacing.Some? && f.lineSpacing, "ls:" + p.lineSpacing.GetOr("") + "/")
    + OptionalMarker(Truthy(p.alignment) && f.alignment, "align:" + p.alignment.GetOr("") + "/")
    + OptionalMarker(p.numbering && f.numbering, "num/")
  }

  /** A paragraph's text, or its runs when it has any. */
  function BodyTokens(p: ParaRecord, f: Flags): seq<Token> {
    if |p.runs| == 0 then [Lit(p.text.GetOr(""))] else RunsTokens(p.runs, f)
  }

  /** A paragraph dict: its `ls`, `align` and `num` markers, then its text or its runs. */
  function ParagraphTokens(p: ParaRecord, f: Flags): seq<Token> {
    HeadMarkers(p, f) + BodyTokens(p, f)
  }

  /** The decorated text `_paragraph_texts` produces for one paragraph dict. */
  function Decorated(p: ParaRecord, f: Flags): string {
    Render(ParagraphTokens(p, f))
  }

  /** `_paragraph_texts(loader, path)`; a loader exception propagates. */
  function ParagraphTexts(e: Extracted, f: Flags): (r: Result<seq<string>, string>)
    ensures e.NoLoader? || e.Raises? <==> r.Failure?
    ensures e.NoneValue? ==> r == Success([])
    ensures e.Lines? ==> r == Success(e.lines)
    ensures e.TextValue? ==> r.Success? && |r.value| == |e.text|
    ensures e.Records? ==> r.Success? && |r.value| == |e.items|
    ensures e.Records? ==> forall k :: 0 <= k < |e.items| ==>
              r.value[k] == (if e.items[k].Record? then Decorated(e.items[k].fields, f) else e.items[k].repr)
  {
    match e
    case NoLoader => Failure("'NoneType' object has no attribute 'load_structured'")
    case Raises(m) => Failure(m)
    case NoneValue => Success([])
    case TextValue(s) => Success(Characters(s))
    case Lines(ls) => Success(ls)
    case Records(items) =>
      Success(seq(|items|, k requires 0 <= k < |items| =>
        match items[k]
        case Record(p, _) => Decorated(p, f)
        case Other(repr) => repr))
  }

  // ---------------------------------------------------------------- what decoration preserves

  /** The paragraph's text with no marker at all: its `text`, or its runs' texts and tables. */
  function RunContent(r: Run): string {
    match r
    case TextRun(text, _, _, _, _, _, _) => text
    case ImageRun => ""
    case TableRun(rows) => TableText(rows)
  }

  function RunsContent(runs: seq<Run>): string
    decreases |runs|
  {
    if |runs| == 0 then "" else RunContent(runs[0]) + RunsContent(runs[1..])
  }

  function Content(p: ParaRecord): string {
    if |p.runs| == 0 then p.text.GetOr("") else RunsContent(p.runs)
  }

  predicate SafeRun(r: Run) {
    match r
    case TextRun(text, _, _, _, font, size, color) =>
      NoOpenBracket(text) && NoCloseBracket(font.GetOr("")) && NoCloseBracket(size.GetOr(""))
      && NoCloseBracket(color.GetOr(""))
    case ImageRun => true
    case TableRun(rows) => NoOpenBracket(TableText(rows))
  }

  /**
    The paragraph's own text holds no `<` and its attribute values hold no
    `>`, so that every marker the decoration adds is one `Plain` recognises.
   */
  predicate SafeParagraph(p: ParaRecord) {
    && NoOpenBracket(p.text.GetOr(""))
    && NoCloseBracket(p.lineSpacing.GetOr(""))
    && NoCloseBracket(p.alignment.GetOr(""))
    && forall k :: 0 <= k < |p.runs| ==> SafeRun(p.runs[k])
  }

  lemma WrapKeeps(ts: seq<Token>, on: bool, open: string, close: string)
    requires SafeTokens(ts) && |open| > 0 && |close| > 0 && NoCloseBracket(open) && NoCloseBracket(close)
    ensures SafeTokens(Wrap(ts, on, open, close))
    ensures LiteralText(Wrap(ts, on, open, close)) == LiteralText(ts)
  {
    if on {
      var w := [Marker(open)] + ts + [Marker(close)];
      forall k | 0 <= k < |w| ensures SafeToken(w[k]) {
        if 0 < k < |w| - 1 {
          assert w[k] == ts[k - 1];
        }
      }
      RenderAppend([Marker(open)], ts);
      RenderAppend([Marker(open)] + ts, [Marker(close)]);
      assert LiteralText([Marker(open)]) == "";
      assert LiteralText([Marker(close)]) == "";
    }
  }

  /** An attribute marker `name:value` holds no `>` when the value holds none. */
  lemma AttributeMarker(name: string, value: string)
    requires NoCloseBracket(name) && NoCloseBracket(value)
    ensures NoCloseBracket(name + value)
  {
    var s := name + value;
    forall k | 0 <= k < |s| ensures s[k] != '>' {
      if k >= |name| {
        assert s[k] == value[k - |name|];
      }
    }
  }

  predicate SafeLayer(l: Layer) {
    |l.open| > 0 && |l.close| > 0 && NoCloseBracket(l.open) && NoCloseBracket(l.close)
  }

  lemma {:induction false} WrapAllKeeps(ts: seq<Token>, layers: seq<Layer>)
    requires SafeTokens(ts)
    requires forall k :: 0 <= k < |layers| ==> SafeLayer(layers[k])
    ensures SafeTokens(WrapAll(ts, layers))
    ensures LiteralText(WrapAll(ts, layers)) == LiteralText(ts)
    decreases |layers|
  {
    if |layers| > 0 {
      var l := layers[0];
      assert SafeLayer(l);
      WrapKeeps(ts, l.on, l.open, l.close);
      assert forall k :: 0 <= k < |layers[1..]| ==> layers[1..][k] == layers[k + 1];
      WrapAllKeeps(Wrap(ts, l.on, l.open, l.close), layers[1..]);
    }
  }

  lemma {:induction false} WrapAllOff(ts: seq<Token>, layers: seq<Layer>)
    requires forall k :: 0 <= k < |layers| ==> !layers[k].on
    ensures WrapAll(ts, layers) == ts
    decreases |layers|
  {
    if |layers| > 0 {
      assert !layers[0].on;
      assert forall k :: 0 <= k < |layers[1..]| ==> layers[1..][k] == layers[k + 1];
      WrapAllOff(ts, layers[1..]);
    }
  }

  /** The `b`, `i` and `u` markers hold no `>`. */
  lemma FlagLayersSafe(ls: seq<Layer>, bold: bool, italic: bool, underline: bool, f: Flags)
    requires |ls| >= 3
    requires ls[0] == Layer(bold && f.bold, "b", "/b")
    requires ls[1] == Layer(italic && f.italic, "i", "/i")
    requires ls[2] == Layer(underline && f.underline, "u", "/u")
    ensures forall k :: 0 <= k < 3 ==> SafeLayer(ls[k])
  {
    assert NoCloseBracket("b") && NoCloseBracket("/b");
    assert NoCloseBracket("i") && NoCloseBracket("/i");
    assert NoCloseBracket("u") && NoCloseBracket("/u");
  }

  /** The `font:`, `size:` and `color:` markers hold no `>` when their values hold none. */
  lemma AttributeLayersSafe(ls: seq<Layer>, font: string, size: string, color: string, on: seq<bool>)
    requires |ls| == 6 && |on| == 3
    requires NoCloseBracket(font) && NoCloseBracket(size) && NoCloseBracket(color)
    requires ls[3] == Layer(on[0], "font:" + font, "/font")
    requires ls[4] == Layer(on[1], "size:" + size, "/size")
    requires ls[5] == Layer(on[2], "color:" + color, "/color")
    ensures forall k :: 3 <= k < 6 ==> SafeLayer(ls[k])
  {
    AttributeMarker("font:", font);
    AttributeMarker("size:", size);
    AttributeMarker("color:", color);
    assert NoCloseBracket("/font") && NoCloseBracket("/size") && NoCloseBracket("/color");
  }

  lemma TextLayersSafe(font: Option<string>, size: Option<string>, color: Option<string>,
                       bold: bool, italic: bool, underline: bool, f: Flags)
    requires NoCloseBracket(font.GetOr("")) && NoCloseBracket(size.GetOr("")) && NoCloseBracket(color.GetOr(""))
    ensures forall k :: 0 <= k < 6 ==> SafeLayer(TextLayers(bold, italic, underline, font, size, color, f)[k])
  {
    var ls := TextLayers(bold, italic, underline, font, size, color, f);
    FlagLayersSafe(ls, bold, italic, underline, f);
    AttributeLayersSafe(ls, font.GetOr(""), size.GetOr(""), color.GetOr(""),
                        [Truthy(font) && f.font, size.Some? && f.size, Truthy(color) && f.color]);
  }

  lemma TableTokensSafe(t: string, on: bool)
    requires NoOpenBracket(t)
    ensures SafeTokens(Wrap([Lit(t)], on, "table", "/table"))
    ensures LiteralText(Wrap([Lit(t)], on, "table", "/table")) == t
  {
    assert NoCloseBracket("table") && NoCloseBracket("/table");
    assert SafeTokens([Lit(t)]) && LiteralText([Lit(t)]) == t;
    WrapKeeps([Lit(t)], on, "table", "/table");
  }

  lemma TextRunTokensSafe(text: string, bold: bool, italic: bool, underline: bool,
                          font: Option<string>, size: Option<string>, color: Option<string>, f: Flags)
    requires NoOpenBracket(text)
    requires NoCloseBracket(font.GetOr("")) && NoCloseBracket(size.GetOr("")) && NoCloseBracket(color.GetOr(""))
    ensures SafeTokens(WrapAll([Lit(text)], TextLayers(bold, italic, underline, font, size, color, f)))
    ensures LiteralText(WrapAll([Lit(text)], TextLayers(bold, italic, underline, font, size, color, f))) == text
  {
    TextLayersSafe(font, size, color, bold, italic, underline, f);
    assert SafeTokens([Lit(text)]) && LiteralText([Lit(text)]) == text;
    WrapAllKeeps([Lit(text)], TextLayers(bold, italic, underline, font, size, color, f));
  }

  lemma RunTokensSafe(r: Run, f: Flags)
    requires SafeRun(r)
    ensures SafeTokens(RunTokens(r, f))
    ensures LiteralText(RunTokens(r, f)) == RunContent(r)
  {
    match r
    case ImageRun =>
      assert LiteralText(RunTokens(r, f)) == "";
    case TableRun(rows) =>
      TableTokensSafe(TableText(rows), f.tables);
    case TextRun(text, bold, italic, underline, font, size, color) =>
      TextRunTokensSafe(text, bold, italic, underline, font, size, color, f);
  }

  lemma {:induction false} RunsTokensSafe(runs: seq<Run>, f: Flags)
    requires forall k :: 0 <= k < |runs| ==> SafeRun(runs[k])
    ensures SafeTokens(RunsTokens(runs, f))
    ensures LiteralText(RunsTokens(runs, f)) == RunsContent(runs)
    decreases |runs|
  {
    if |runs| > 0 {
      RunTokensSafe(runs[0], f);
      RunsTokensSafe(runs[1..], f);
      RenderAppend(RunTokens(runs[0], f), RunsTokens(runs[1..], f));
    }
  }

  /**
    Formatting never reaches alignment: whatever the flags, stripping the
    markers of a decorated paragraph gives its bare content, the same text as
    with every flag off.
   */
  lemma PlainOfDecorated(p: ParaRecord, f: Flags)
    requires SafeParagraph(p)
    ensures Plain(Decorated(p, f)) == Content(p)
    ensures Decorated(p, AllOff) == Content(p)
  {
    HeadMarkersSafe(p, f);
    BodyTokensSafe(p, f);
    SafeAppend(HeadMarkers(p, f), BodyTokens(p, f));
    PlainOfRender(ParagraphTokens(p, f));
    DecoratedAllOff(p);
  }

  lemma OptionalMarkerSafe(on: bool, body: string)
    requires |body| > 0 && NoCloseBracket(body)
    ensures SafeTokens(OptionalMarker(on, body)) && LiteralText(OptionalMarker(on, body)) == ""
  {
    if on {
      assert LiteralText([Marker(body)][1..]) == "";
    }
  }

  /** `name + value + "/"` is a well-formed marker body when neither part holds `>`. */
  lemma AttributeBody(name: string, value: string)
    requires |name| > 0 && NoCloseBracket(name) && NoCloseBracket(value)
    ensures |name + value + "/"| > 0 && NoCloseBracket(name + value + "/")
  {
    AttributeMarker(name, value);
    AttributeMarker(name + value, "/");
  }

  /** The opening markers are well formed and carry no literal text. */
  lemma HeadMarkersSafe(p: ParaRecord, f: Flags)
    requires SafeParagraph(p)
    ensures SafeTokens(HeadMarkers(p, f)) && LiteralText(HeadMarkers(p, f)) == ""
  {
    var lsBody := "ls:" + p.lineSpacing.GetOr("") + "/";
    var alignBody := "align:" + p.alignment.GetOr("") + "/";
    AttributeBody("ls:", p.lineSpacing.GetOr(""));
    AttributeBody("align:", p.alignment.GetOr(""));
    var ls := OptionalMarker(p.lineSpacing.Some? && f.lineSpacing, lsBody);
    var align := OptionalMarker(Truthy(p.alignment) && f.alignment, alignBody);
    var num := OptionalMarker(p.numbering && f.numbering, "num/");
    OptionalMarkerSafe(p.lineSpacing.Some? && f.lineSpacing, lsBody);
    OptionalMarkerSafe(Truthy(p.alignment) && f.alignment, alignBody);
    OptionalMarkerSafe(p.numbering && f.numbering, "num/");
    SafeAppend(ls, align);
    SafeAppend(ls + align, num);
  }

  /** The body is well formed and its literal text is the paragraph's content. */
  lemma BodyTokensSafe(p: ParaRecord, f: Flags)
    requires SafeParagraph(p)
    ensures SafeTokens(BodyTokens(p, f)) && LiteralText(BodyTokens(p, f)) == Content(p)
  {
    if |p.runs| > 0 {
      RunsTokensSafe(p.runs, f);
    } else {
      assert LiteralText(BodyTokens(p, f)) == p.text.GetOr("");
    }
  }

  /** With every flag off, a paragraph renders to its bare content. */
  lemma DecoratedAllOff(p: ParaRecord)
    ensures Decorated(p, AllOff) == Content(p)
  {
    assert HeadMarkers(p, AllOff) == [];
    assert ParagraphTokens(p, AllOff) == BodyTokens(p, AllOff);
    if |p.runs| > 0 {
      NoMarkersWhenOff(p.runs);
    } else {
      var ts := [Lit(p.text.GetOr(""))];
      assert Render(ts[1..]) == "";
    }
  }

  lemma SafeAppend(xs: seq<Token>, ys: seq<Token>)
    requires SafeTokens(xs) && SafeTokens(ys)
    ensures SafeTokens(xs + ys)
    ensures LiteralText(xs + ys) == LiteralText(xs) + LiteralText(ys)
  {
    RenderAppend(xs, ys);
    forall k | 0 <= k < |xs + ys| ensures SafeToken((xs + ys)[k]) {
      if k >= |xs| {
        assert (xs + ys)[k] == ys[k - |xs|];
      }
    }
  }

  /** With every flag off, the runs render to their bare content. */
  lemma {:induction false} NoMarkersWhenOff(runs: seq<Run>)
    ensures Render(RunsTokens(runs, AllOff)) == RunsContent(runs)
    decreases |runs|
  {
    if |runs| > 0 {
      var head := RunTokens(runs[0], AllOff);
      assert Render(head) == RunContent(runs[0]) by {
        match runs[0]
        case ImageRun =>
        case TableRun(rows) =>
          assert head == [Lit(TableText(rows))];
        case TextRun(text, bold, italic, underline, font, size, color) =>
          WrapAllOff([Lit(text)], TextLayers(bold, italic, underline, font, size, color, AllOff));
          assert head == [Lit(text)];
      }
      NoMarkersWhenOff(runs[1..]);
      RenderAppend(head, RunsTokens(runs[1..], AllOff));
    }
  }

  /**
    The nesting order of the run markers: with every flag on and every
    attribute set, bold is innermost and color outermost.
   */
  lemma RunMarkerOrder(text: string, font: string, size: string, color: string)
    requires font != "" && color != ""
    ensures RunTokens(TextRun(text, true, true, true, Some(font), Some(size), Some(color)), AllOn)
         == [Marker("color:" + color), Marker("size:" + size), Marker("font:" + font), Marker("u"),
             Marker("i"), Marker("b"), Lit(text), Marker("/b"), Marker("/i"), Marker("/u"),
             Marker("/font"), Marker("/size"), Marker("/color")]
  {
    var l := TextLayers(true, true, true, Some(font), Some(size), Some(color), AllOn);
    var t0 := [Lit(text)];
    var t1 := Wrap(t0, true, "b", "/b");
    var t2 := Wrap(t1, true, "i", "/i");
    var t3 := Wrap(t2, true, "u", "/u");
    var t4 := Wrap(t3, true, "font:" + font, "/font");
    var t5 := Wrap(t4, true, "size:" + size, "/size");
    var t6 := Wrap(t5, true, "color:" + color, "/color");
    assert l[1..][1..][1..][1..][1..][1..] == [];
    assert WrapAll(t5, l[1..][1..][1..][1..][1..]) == t6;
    assert WrapAll(t4, l[1..][1..][1..][1..]) == t6;
    assert WrapAll(t3, l[1..][1..][1..]) == t6;
    assert WrapAll(t2, l[1..][1..]) == t6;
    assert WrapAll(t1, l[1..]) == t6;
    assert WrapAll(t0, l) == t6;
    NestedMarkers(text, font, size, color);
  }

  /** Six nested wraps, flattened. */
  lemma NestedMarkers(text: string, font: string, size: string, color: string)
    ensures Wrap(Wrap(Wrap(Wrap(Wrap(Wrap([Lit(text)], true, "b", "/b"), true, "i", "/i"), true, "u", "/u"),
                 true, "font:" + font, "/font"), true, "size:" + size, "/size"), true, "color:" + color, "/color")
         == [Marker("color:" + color), Marker("size:" + size), Marker("font:" + font), Marker("u"),
             Marker("i"), Marker("b"), Lit(text), Marker("/b"), Marker("/i"), Marker("/u"),
             Marker("/font"), Marker("/size"), Marker("/color")]
  {
  }
}
