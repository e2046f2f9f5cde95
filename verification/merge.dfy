/**
  Three-way merge (core/merge_utils.py). The base→remote opcodes are walked
  with a cursor into the local lines: `equal` copies the next local lines,
  `replace` and `insert` emit remote's lines, `delete` emits nothing, and every
  tag except `insert` advances the cursor by the old span length. Whatever is
  left of the local lines is appended. Remote wins on overlap; there is no
  conflict detection.
 */
module Merge {
  import opened Text
  import opened Opcodes

  /** Python's `s[lo:hi]` for `0 <= lo <= hi`: indices past the end are clamped. */
  function Slice<T>(s: seq<T>, lo: nat, hi: nat): (r: seq<T>)
    requires lo <= hi
    ensures hi <= |s| ==> r == s[lo..hi]
    ensures lo < |s| < hi ==> r == s[lo..]
    ensures |s| <= lo ==> r == []
    ensures |r| <= hi - lo
    ensures forall x :: x in r ==> x in s
  {
    if lo >= |s| then [] else if hi >= |s| then s[lo..] else s[lo..hi]
  }

  /** Python's `s[lo:]`. */
  function Rest<T>(s: seq<T>, lo: nat): (r: seq<T>)
    ensures lo <= |s| ==> r == s[lo..]
    ensures forall x :: x in r ==> x in s
  {
    if lo >= |s| then [] else s[lo..]
  }

  /** Spans are ordered; the shape every opcode list the aligner produces has. */
  predicate Ordered(ops: seq<Opcode>)
    decreases |ops|
  {
    |ops| == 0 || (ops[0].i1 <= ops[0].i2 && ops[0].j1 <= ops[0].j2 && Ordered(ops[1..]))
  }

  /** The loop of `three_way_merge`, with `cursor` playing `local_idx`. */
  function Walk(local: seq<string>, remote: seq<string>, ops: seq<Opcode>, cursor: nat): (r: seq<string>)
    requires Ordered(ops)
    ensures forall x :: x in r ==> x in local || x in remote
    decreases |ops|
  {
    if |ops| == 0 then Rest(local, cursor)
    else
      var op := ops[0];
      var span := op.i2 - op.i1;
      match op.tag
      case Equal => Slice(local, cursor, cursor + span) + Walk(local, remote, ops[1..], cursor + span)
      case Replace => Slice(remote, op.j1, op.j2) + Walk(local, remote, ops[1..], cursor + span)
      case Delete => Walk(local, remote, ops[1..], cursor + span)
      case Insert => Slice(remote, op.j1, op.j2) + Walk(local, remote, ops[1..], cursor)
  }

  lemma {:induction false} ValidIsOrdered<T>(a: seq<T>, b: seq<T>, ops: seq<Opcode>, i: nat, j: nat)
    requires ValidFrom(a, b, ops, i, j)
    ensures Ordered(ops)
    decreases |ops|
  {
    if |ops| > 0 {
      ValidIsOrdered(a, b, ops[1..], ops[0].i2, ops[0].j2);
    }
  }

  /** The merged lines, before they are joined with `"\n"`. */
  function MergeLines(base: seq<string>, local: seq<string>, remote: seq<string>, ops: seq<Opcode>): (r: seq<string>)
    requires ValidOpcodes(base, remote, ops)
    ensures forall x :: x in r ==> x in local || x in remote
  {
    ValidIsOrdered(base, remote, ops, 0, 0);
    Walk(local, remote, ops, 0)
  }

  /** `three_way_merge(base_text, local_text, remote_text)`, with the aligner as a parameter. */
  function ThreeWayMerge(baseText: string, localText: string, remoteText: string,
                         align: (seq<string>, seq<string>) -> seq<Opcode>): (r: string)
    requires IsAligner(align)
    ensures SplitLines(localText) == SplitLines(baseText) ==> r == Join("\n", SplitLines(remoteText))
  {
    var base := SplitLines(baseText);
    var remote := SplitLines(remoteText);
    UnchangedLocalGivesRemote(base, remote, align(base, remote));
    Join("\n", MergeLines(base, SplitLines(localText), remote, align(base, remote)))
  }

  // ---------------------------------------------------------------- reference definition

  /**
    What each opcode contributes when the local cursor sits at the op's own
    base position: the local lines of an `equal` span, remote's lines for
    `insert` and `replace`, nothing for `delete`.
   */
  function Emits(local: seq<string>, remote: seq<string>, ops: seq<Opcode>): seq<string>
    requires Ordered(ops)
    decreases |ops|
  {
    if |ops| == 0 then [] else Here(local, remote, ops[0]) + Emits(local, remote, ops[1..])
  }

  /** The contribution of one opcode with the cursor at its base position. */
  function Here(local: seq<string>, remote: seq<string>, op: Opcode): seq<string>
    requires op.i1 <= op.i2 && op.j1 <= op.j2
  {
    match op.tag
    case Equal => Slice(local, op.i1, op.i2)
    case Delete => []
    case _ => Slice(remote, op.j1, op.j2)
  }

  /** One step of the walk, with the cursor at the op's base position. */
  lemma WalkStep(local: seq<string>, remote: seq<string>, ops: seq<Opcode>)
    requires |ops| > 0 && Ordered(ops)
    requires ops[0].tag == Insert ==> ops[0].i1 == ops[0].i2
    ensures Walk(local, remote, ops, ops[0].i1) == Here(local, remote, ops[0]) + Walk(local, remote, ops[1..], ops[0].i2)
  {
  }

  /**
    The cursor is the base position: it advances by `i2 - i1` on `equal`,
    `replace` and `delete` and stays on `insert`, so at every op it equals `i1`.
    The walk is therefore the per-op contributions followed by the local lines
    after the last base position.
   */
  lemma {:induction false} WalkTracksBase(base: seq<string>, local: seq<string>, remote: seq<string>,
                                          ops: seq<Opcode>, i: nat, j: nat)
    requires ValidFrom(base, remote, ops, i, j)
    ensures Ordered(ops)
    ensures Walk(local, remote, ops, i) == Emits(local, remote, ops) + Rest(local, |base|)
    decreases |ops|
  {
    ValidIsOrdered(base, remote, ops, i, j);
    if |ops| > 0 {
      var op := ops[0];
      WalkTracksBase(base, local, remote, ops[1..], op.i2, op.j2);
      WalkStep(local, remote, ops);
      var here := Here(local, remote, op);
      var rest := Emits(local, remote, ops[1..]);
      assert here + (rest + Rest(local, |base|)) == (here + rest) + Rest(local, |base|);
    }
  }

  lemma {:induction false} MergeIsPositional(base: seq<string>, local: seq<string>, remote: seq<string>,
                                             ops: seq<Opcode>)
    requires ValidOpcodes(base, remote, ops)
    ensures Ordered(ops)
    ensures MergeLines(base, local, remote, ops) == Emits(local, remote, ops) + Rest(local, |base|)
  {
    WalkTracksBase(base, local, remote, ops, 0, 0);
  }

  // ---------------------------------------------------------------- properties

  lemma {:induction false} EmitsOfBaseIsRemote(base: seq<string>, remote: seq<string>,
                                               ops: seq<Opcode>, i: nat, j: nat)
    requires ValidFrom(base, remote, ops, i, j)
    ensures Ordered(ops) && j <= |remote|
    ensures Emits(base, remote, ops) == remote[j..]
    decreases |ops|
  {
    ValidIsOrdered(base, remote, ops, i, j);
    ValidFromBounds(base, remote, ops, i, j);
    if |ops| > 0 {
      var op := ops[0];
      EmitsOfBaseIsRemote(base, remote, ops[1..], op.i2, op.j2);
      SliceSplit(remote, j, op.j2);
    }
  }

  /** If local made no change, the merge is remote, whatever the opcodes. */
  lemma {:induction false} UnchangedLocalGivesRemote(base: seq<string>, remote: seq<string>, ops: seq<Opcode>)
    requires ValidOpcodes(base, remote, ops)
    ensures MergeLines(base, base, remote, ops) == remote
  {
    MergeIsPositional(base, base, remote, ops);
    EmitsOfBaseIsRemote(base, remote, ops, 0, 0);
  }

  lemma {:induction false} EmitsOfEqualSpans(base: seq<string>, local: seq<string>, remote: seq<string>,
                                             ops: seq<Opcode>, i: nat, j: nat)
    requires ValidFrom(base, remote, ops, i, j) && AllEqual(ops)
    ensures Ordered(ops) && i <= |base|
    ensures Emits(local, remote, ops) + Rest(local, |base|) == Rest(local, i)
    decreases |ops|
  {
    ValidIsOrdered(base, remote, ops, i, j);
    ValidFromBounds(base, remote, ops, i, j);
    if |ops| > 0 {
      var op := ops[0];
      assert AllEqual(ops[1..]) by {
        forall k | 0 <= k < |ops[1..]| ensures ops[1..][k].tag == Equal {
          assert ops[1..][k] == ops[k + 1];
        }
      }
      EmitsOfEqualSpans(base, local, remote, ops[1..], op.i2, op.j2);
      if op.i2 <= |local| {
        assert Rest(local, i) == local[i..op.i2] + local[op.i2..];
      }
    }
  }

  /** If remote made no change (every span `equal`), the merge is local. */
  lemma {:induction false} UnchangedRemoteGivesLocal(base: seq<string>, local: seq<string>, remote: seq<string>,
                                                     ops: seq<Opcode>)
    requires ValidOpcodes(base, remote, ops) && AllEqual(ops)
    ensures MergeLines(base, local, remote, ops) == local
  {
    MergeIsPositional(base, local, remote, ops);
    EmitsOfEqualSpans(base, local, remote, ops, 0, 0);
  }

  /** Local lines past the last base position are appended unchanged. */
  lemma {:induction false} LocalTailKept(base: seq<string>, local: seq<string>, remote: seq<string>, ops: seq<Opcode>)
    requires ValidOpcodes(base, remote, ops) && |base| <= |local|
    ensures var m := MergeLines(base, local, remote, ops);
            |local| - |base| <= |m| && m[|m| - (|local| - |base|)..] == local[|base|..]
  {
    MergeIsPositional(base, local, remote, ops);
  }

  lemma {:induction false} EmitsLength(base: seq<string>, local: seq<string>, remote: seq<string>,
                                       ops: seq<Opcode>, i: nat, j: nat)
    requires ValidFrom(base, remote, ops, i, j) && |base| <= |local|
    ensures Ordered(ops) && j <= |remote|
    ensures |Emits(local, remote, ops)| == |remote| - j
    decreases |ops|
  {
    ValidIsOrdered(base, remote, ops, i, j);
    ValidFromBounds(base, remote, ops, i, j);
    if |ops| > 0 {
      EmitsLength(base, local, remote, ops[1..], ops[0].i2, ops[0].j2);
    }
  }

  /** When local is at least as long as base, every remote line and every extra local line is kept. */
  lemma {:induction false} MergedLength(base: seq<string>, local: seq<string>, remote: seq<string>, ops: seq<Opcode>)
    requires ValidOpcodes(base, remote, ops) && |base| <= |local|
    ensures |MergeLines(base, local, remote, ops)| == |remote| + |local| - |base|
  {
    MergeIsPositional(base, local, remote, ops);
    EmitsLength(base, local, remote, ops, 0, 0);
  }

  lemma {:induction false} EmitsDrawnFromInputs(local: seq<string>, remote: seq<string>, ops: seq<Opcode>)
    requires Ordered(ops)
    ensures forall x :: x in Emits(local, remote, ops) ==> x in local || x in remote
    decreases |ops|
  {
    if |ops| > 0 {
      EmitsDrawnFromInputs(local, remote, ops[1..]);
    }
  }

  /** Every merged line is a local line or a remote line; the merge invents nothing. */
  lemma {:induction false} MergedLinesDrawnFromInputs(base: seq<string>, local: seq<string>, remote: seq<string>,
                                                      ops: seq<Opcode>)
    requires ValidOpcodes(base, remote, ops)
    ensures forall x :: x in MergeLines(base, local, remote, ops) ==> x in local || x in remote
  {
    MergeIsPositional(base, local, remote, ops);
    EmitsDrawnFromInputs(local, remote, ops);
  }

  /**
    The merged text splits back into the merged lines unless the last merged
    line is empty: no line holds a boundary, because each came out of
    `splitlines`.
   */
  lemma {:induction false} MergedTextSplitsBack(baseText: string, localText: string, remoteText: string,
                                                align: (seq<string>, seq<string>) -> seq<Opcode>)
    requires IsAligner(align)
    ensures var base := SplitLines(baseText);
            var remote := SplitLines(remoteText);
            var m := MergeLines(base, SplitLines(localText), remote, align(base, remote));
            (|m| > 0 && m[|m| - 1] == "") || SplitLines(ThreeWayMerge(baseText, localText, remoteText, align)) == m
  {
    var base := SplitLines(baseText);
    var local := SplitLines(localText);
    var remote := SplitLines(remoteText);
    var m := MergeLines(base, local, remote, align(base, remote));
    MergedLinesDrawnFromInputs(base, local, remote, align(base, remote));
    forall k | 0 <= k < |m| ensures NoLineBoundary(m[k]) {
      assert m[k] in m;
      if m[k] in local {
        var n :| 0 <= n < |local| && local[n] == m[k];
      } else {
        var n :| 0 <= n < |remote| && remote[n] == m[k];
      }
    }
    if !(|m| > 0 && m[|m| - 1] == "") {
      SplitJoinedLines(m);
    }
  }

  /** The example of the docstring: both sides edit line 2, remote's edit wins. */
  lemma RemoteWinsExample()
    ensures var base := ["L1", "L2"];
            var remote := ["L1", "REMOTE2"];
            var ops := [Opcode(Equal, 0, 1, 0, 1), Opcode(Replace, 1, 2, 1, 2)];
            ValidOpcodes(base, remote, ops)
            && MergeLines(base, ["L1", "LOCAL2"], remote, ops) == ["L1", "REMOTE2"]
  {
    var base := ["L1", "L2"];
    var remote := ["L1", "REMOTE2"];
    assert base[0..1] == remote[0..1];
  }
}
