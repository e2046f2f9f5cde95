/**
  The sequence aligner, as an oracle. The model never computes an alignment;
  it takes an opcode list `(tag, i1, i2, j1, j2)` that is only known to satisfy
  `ValidOpcodes`: the spans cover both sequences contiguously and in order,
  `equal` spans match element for element, `delete` spans are empty on the new
  side, `insert` spans are empty on the old side and `replace` spans are
  non-empty on both.
 */
module Opcodes {
  import opened Text

  datatype Tag = Equal | Insert | Delete | Replace

  datatype Opcode = Opcode(tag: Tag, i1: nat, i2: nat, j1: nat, j2: nat)

  ghost predicate ValidOp<T>(a: seq<T>, b: seq<T>, op: Opcode) {
    && op.i1 <= op.i2 <= |a|
    && op.j1 <= op.j2 <= |b|
    && match op.tag
       case Equal => op.i2 - op.i1 == op.j2 - op.j1 && a[op.i1..op.i2] == b[op.j1..op.j2]
       case Delete => op.j1 == op.j2
       case Insert => op.i1 == op.i2
       case Replace => op.i1 < op.i2 && op.j1 < op.j2
  }

  /** `ops` covers `a[i..]` and `b[j..]`, starting at `(i, j)`. */
  ghost predicate ValidFrom<T>(a: seq<T>, b: seq<T>, ops: seq<Opcode>, i: nat, j: nat)
    decreases |ops|
  {
    if |ops| == 0 then i == |a| && j == |b|
    else
      && ops[0].i1 == i && ops[0].j1 == j
      && ValidOp(a, b, ops[0])
      && ValidFrom(a, b, ops[1..], ops[0].i2, ops[0].j2)
  }

  ghost predicate ValidOpcodes<T>(a: seq<T>, b: seq<T>, ops: seq<Opcode>) {
    ValidFrom(a, b, ops, 0, 0)
  }

  /** An aligner: a function that returns valid opcodes for every pair of inputs. */
  ghost predicate IsAligner<T(!new)>(align: (seq<T>, seq<T>) -> seq<Opcode>) {
    forall a, b :: ValidOpcodes(a, b, align(a, b))
  }

  /** Sum of the old-side lengths of the `equal` spans. */
  function EqualLength(ops: seq<Opcode>): nat
    decreases |ops|
  {
    if |ops| == 0 then 0
    else
      var here := if ops[0].tag == Equal && ops[0].i1 <= ops[0].i2 then ops[0].i2 - ops[0].i1 else 0;
      here + EqualLength(ops[1..])
  }

  predicate AllEqual(ops: seq<Opcode>) {
    forall k :: 0 <= k < |ops| ==> ops[k].tag == Equal
  }

  /** Every op of a valid list lies within the two sequences, at or after the starting point. */
  lemma {:induction false} ValidFromBounds<T>(a: seq<T>, b: seq<T>, ops: seq<Opcode>, i: nat, j: nat)
    requires ValidFrom(a, b, ops, i, j)
    ensures i <= |a| && j <= |b|
    ensures forall k :: 0 <= k < |ops| ==> i <= ops[k].i1 && j <= ops[k].j1 && ValidOp(a, b, ops[k])
    decreases |ops|
  {
    if |ops| > 0 {
      ValidFromBounds(a, b, ops[1..], ops[0].i2, ops[0].j2);
      forall k | 1 <= k < |ops|
        ensures i <= ops[k].i1 && j <= ops[k].j1 && ValidOp(a, b, ops[k])
      {
        assert ops[k] == ops[1..][k - 1];
      }
    }
  }

  /** When every span is `equal`, the two sequences are equal from the starting point on. */
  lemma {:induction false} AllEqualMeansSame<T>(a: seq<T>, b: seq<T>, ops: seq<Opcode>, i: nat, j: nat)
    requires ValidFrom(a, b, ops, i, j) && AllEqual(ops)
    ensures i <= |a| && j <= |b| && a[i..] == b[j..]
    decreases |ops|
  {
    if |ops| > 0 {
      var op := ops[0];
      assert AllEqual(ops[1..]) by {
        forall k | 0 <= k < |ops[1..]| ensures ops[1..][k].tag == Equal {
          assert ops[1..][k] == ops[k + 1];
        }
      }
      AllEqualMeansSame(a, b, ops[1..], op.i2, op.j2);
      SliceSplit(a, i, op.i2);
      SliceSplit(b, j, op.j2);
    }
  }
}
