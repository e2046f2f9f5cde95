/**
  The diff engine (core/diff_engine.py): it resolves a loader for each file
  from its suffix, runs the first strategy in priority order that supports
  the pair, and turns an exception from that strategy into a result.
 */
module DiffEngine {
  import opened Wrappers
  import opened Chunks
  import opened LoaderRegistry
  import Paths
  import CoreParagraph

  datatype Strategy = ParagraphStrategy | TextStrategy

  /** The priority order: structure-aware first, the line diff as fallback. */
  const Strategies: seq<Strategy> := [ParagraphStrategy, TextStrategy]

  const NoAlgorithm: string := "未找到可用的差异算法"

  /** `strategy.__class__.__name__`. */
  function ClassName(s: Strategy): string {
    match s
    case ParagraphStrategy => "ParagraphDiffStrategy"
    case TextStrategy => "TextDiffStrategy"
  }

  /** `strategy.supports(loader_a, loader_b)`; the text strategy takes any pair. */
  predicate StrategySupports(s: Strategy, a: Option<Loader>, b: Option<Loader>) {
    match s
    case ParagraphStrategy => CoreParagraph.Supports(a, b)
    case TextStrategy => true
  }

  /** The first strategy of `strategies` that supports the pair. */
  function Select(strategies: seq<Strategy>, a: Option<Loader>, b: Option<Loader>): (r: Option<nat>)
    ensures r.Some? ==> r.value < |strategies| && StrategySupports(strategies[r.value], a, b)
    ensures r.Some? ==> forall k :: 0 <= k < r.value ==> !StrategySupports(strategies[k], a, b)
    ensures r.None? ==> forall k :: 0 <= k < |strategies| ==> !StrategySupports(strategies[k], a, b)
  {
    if |strategies| == 0 then None
    else if StrategySupports(strategies[0], a, b) then Some(0)
    else match Select(strategies[1..], a, b)
      case Some(k) => Some(k + 1)
      case None => None
  }

  /** What `strategy.diff(file_a, file_b)` did: returned a result or raised. */
  datatype Outcome = Returned(result: DiffResult) | Raised(message: string)

  /** The result when the chosen strategy raised: its class name and the message, nothing structured. */
  function FailureResult(s: Strategy, message: string): DiffResult {
    DiffResult("对比失败（" + ClassName(s) + "）：" + message, None)
  }

  /**
    `compare_files(file_a, file_b)` against a registry; `run(s)` stands for
    running strategy `s` on the two files.
   */
  function CompareFiles(reg: Registry, fileA: string, fileB: string, run: Strategy -> Outcome): (r: DiffResult)
    ensures var a := GetLoader(reg, Paths.Suffix(fileA));
            var b := GetLoader(reg, Paths.Suffix(fileB));
            var chosen := if CoreParagraph.Supports(a, b) then ParagraphStrategy else TextStrategy;
            r == match run(chosen)
                 case Returned(res) => res
                 case Raised(m) => FailureResult(chosen, m)
  {
    var a := GetLoader(reg, Paths.Suffix(fileA));
    var b := GetLoader(reg, Paths.Suffix(fileB));
    AlwaysSelects(a, b);
    match Select(Strategies, a, b)
    case None => DiffResult(NoAlgorithm, None)
    case Some(k) =>
      match run(Strategies[k])
      case Returned(res) => res
      case Raised(m) => FailureResult(Strategies[k], m)
  }

  /** Some strategy always applies, because the text strategy supports every pair. */
  lemma AlwaysSelects(a: Option<Loader>, b: Option<Loader>)
    ensures Select(Strategies, a, b).Some?
    ensures Strategies[Select(Strategies, a, b).value] == ParagraphStrategy <==> CoreParagraph.Supports(a, b)
  {
  }

  /**
    Selection is by priority and the chosen strategy's outcome is final: the
    paragraph strategy runs whenever both loaders support it, the text
    strategy otherwise, and an exception becomes a failure result naming the
    strategy without trying the next one. The no-algorithm result is never
    produced.
   */
  lemma CompareFilesOutcome(reg: Registry, fileA: string, fileB: string, run: Strategy -> Outcome)
    ensures var a := GetLoader(reg, Paths.Suffix(fileA));
            var b := GetLoader(reg, Paths.Suffix(fileB));
            var chosen := if CoreParagraph.Supports(a, b) then ParagraphStrategy else TextStrategy;
            CompareFiles(reg, fileA, fileB, run)
              == match run(chosen)
                 case Returned(res) => res
                 case Raised(m) => FailureResult(chosen, m)
  {
    var a := GetLoader(reg, Paths.Suffix(fileA));
    var b := GetLoader(reg, Paths.Suffix(fileB));
    AlwaysSelects(a, b);
  }

  /** Files whose suffixes have no loader fall back to the text strategy. */
  lemma UnknownSuffixUsesText(reg: Registry, fileA: string, fileB: string, run: Strategy -> Outcome)
    requires GetLoader(reg, Paths.Suffix(fileA)).None?
    ensures CompareFiles(reg, fileA, fileB, run)
            == match run(TextStrategy)
               case Returned(res) => res
               case Raised(m) => FailureResult(TextStrategy, m)
  {
    CompareFilesOutcome(reg, fileA, fileB, run);
  }

  /** A failure result keeps the strategy's name in its text and carries no chunks. */
  lemma FailureNamesStrategy(s: Strategy, message: string)
    ensures FailureResult(s, message).structured.None?
    ensures FailureResult(s, message).raw[5..5 + |ClassName(s)|] == ClassName(s)
    ensures FailureResult(s, message).raw[|FailureResult(s, message).raw| - |message|..] == message
  {
    var raw := FailureResult(s, message).raw;
    assert |"对比失败（"| == 5;
    assert raw == "对比失败（" + ClassName(s) + "）：" + message;
  }
}
