/**
  String helpers shared by the model, each standing for one Python built-in:
  `sep.join(parts)`, `"".join(parts)`, `str(n)` on integers, `str.lower()`,
  `str.lstrip(".")` and `str.splitlines()`.
 */
module Text {
  import opened Wrappers

  /** `sep.join(parts)`. */
  function Join(sep: string, parts: seq<string>): string
    decreases |parts|
  {
    if |parts| == 0 then ""
    else if |parts| == 1 then parts[0]
    else parts[0] + sep + Join(sep, parts[1..])
  }

  /** `"".join(parts)`. */
  function Concat(parts: seq<string>): string
    decreases |parts|
  {
    if |parts| == 0 then "" else parts[0] + Concat(parts[1..])
  }

  /** Concatenation is associative; stated once so that long proofs can cite it cheaply. */
  lemma AppendAssoc<T>(a: seq<T>, b: seq<T>, c: seq<T>)
    ensures (a + b) + c == a + (b + c)
  {
  }

  /** A suffix splits at any point inside it. */
  lemma SliceSplit<T>(s: seq<T>, i: nat, m: nat)
    requires i <= m <= |s|
    ensures s[i..] == s[i..m] + s[m..]
  {
  }

  lemma {:induction false} ConcatAppend(xs: seq<string>, ys: seq<string>)
    ensures Concat(xs + ys) == Concat(xs) + Concat(ys)
    decreases |xs|
  {
    if |xs| == 0 {
      assert xs + ys == ys;
    } else {
      assert (xs + ys)[1..] == xs[1..] + ys;
      ConcatAppend(xs[1..], ys);
    }
  }

  lemma {:induction false} JoinAppend(sep: string, xs: seq<string>, ys: seq<string>)
    requires |xs| > 0 && |ys| > 0
    ensures Join(sep, xs + ys) == Join(sep, xs) + sep + Join(sep, ys)
    decreases |xs|
  {
    if |xs| == 1 {
      assert (xs + ys)[1..] == ys;
    } else {
      assert (xs + ys)[1..] == xs[1..] + ys;
      JoinAppend(sep, xs[1..], ys);
    }
  }

  // ---------------------------------------------------------------- str(int)

  function DigitChar(d: nat): char
    requires d < 10
  {
    "0123456789"[d]
  }

  predicate IsDigit(c: char) {
    '0' <= c <= '9'
  }

  /** `str(n)` for a non-negative integer: its decimal digits, no leading zeros. */
  function NatToString(n: nat): (r: string)
    ensures |r| > 0
    ensures forall k :: 0 <= k < |r| ==> IsDigit(r[k])
    ensures n > 0 ==> r[0] != '0'
    decreases n
  {
    if n < 10 then [DigitChar(n)] else NatToString(n / 10) + [DigitChar(n % 10)]
  }

  /** The value of a string of decimal digits (the inverse of NatToString). */
  function DigitsValue(s: string): nat
    requires forall k :: 0 <= k < |s| ==> IsDigit(s[k])
    decreases |s|
  {
    if |s| == 0 then 0
    else
      assert IsDigit(s[|s| - 1]);
      DigitsValue(s[..|s| - 1]) * 10 + ((s[|s| - 1] as int) - ('0' as int))
  }

  /** `str(n)` round-trips: reading back the digits yields `n`. */
  lemma {:induction false} NatToStringRoundTrip(n: nat)
    ensures DigitsValue(NatToString(n)) == n
    decreases n
  {
    var r := NatToString(n);
    if n >= 10 {
      NatToStringRoundTrip(n / 10);
      assert r[..|r| - 1] == NatToString(n / 10);
    }
  }

  /** `str(i)` for any integer. */
  function IntToString(i: int): (r: string)
    ensures |r| > 0
    ensures i < 0 <==> r[0] == '-'
  {
    if i < 0 then "-" + NatToString(-i) else NatToString(i)
  }

  // ---------------------------------------------------------------- str.lower / lstrip

  /** `str.lower()` restricted to ASCII letters. */
  function AsciiLower(s: string): (r: string)
    ensures |r| == |s|
    ensures forall k :: 0 <= k < |s| ==> !('A' <= r[k] <= 'Z')
    ensures forall k :: 0 <= k < |s| && !('A' <= s[k] <= 'Z') ==> r[k] == s[k]
    ensures forall k :: 0 <= k < |s| && 'A' <= s[k] <= 'Z' ==> r[k] == (s[k] as int + 32) as char
  {
    seq(|s|, k requires 0 <= k < |s| =>
      if 'A' <= s[k] <= 'Z' then (s[k] as int - 'A' as int + 'a' as int) as char else s[k])
  }

  /** `str.lstrip(".")`: drops every leading dot. */
  function StripLeadingDots(s: string): (r: string)
    ensures |r| <= |s| && r == s[|s| - |r|..]
    ensures |r| > 0 ==> r[0] != '.'
    ensures forall k :: 0 <= k < |s| - |r| ==> s[k] == '.'
    decreases |s|
  {
    if |s| > 0 && s[0] == '.' then StripLeadingDots(s[1..]) else s
  }

  predicate StartsWith(s: string, prefix: string) {
    |prefix| <= |s| && s[..|prefix|] == prefix
  }

  // ---------------------------------------------------------------- str.splitlines

  /** The characters Python's `str.splitlines()` treats as line boundaries. */
  predicate IsLineBoundary(c: char) {
    c == '\n' || c == '\r' || c == '\U{B}' || c == '\U{C}' || c == '\U{1C}' || c == '\U{1D}'
    || c == '\U{1E}' || c == '\U{85}' || c == '\U{2028}' || c == '\U{2029}'
  }

  predicate NoLineBoundary(s: string) {
    forall k :: 0 <= k < |s| ==> !IsLineBoundary(s[k])
  }

  function FirstBoundary(s: string, from: nat): (r: Option<nat>)
    requires from <= |s|
    ensures r.Some? ==> from <= r.value < |s| && IsLineBoundary(s[r.value])
    ensures r.Some? ==> NoLineBoundary(s[from..r.value])
    ensures r.None? ==> NoLineBoundary(s[from..])
    decreases |s| - from
  {
    if from == |s| then None
    else if IsLineBoundary(s[from]) then Some(from)
    else FirstBoundary(s, from + 1)
  }

  /**
    `str.splitlines()`: the lines between boundaries, `\r\n` counting as one
    boundary, and no empty line after a final boundary.
   */
  function SplitLines(s: string): (lines: seq<string>)
    ensures forall k :: 0 <= k < |lines| ==> NoLineBoundary(lines[k])
    decreases |s|
  {
    if s == "" then []
    else match FirstBoundary(s, 0)
      case None => [s]
      case Some(k) =>
        var width := if s[k] == '\r' && k + 1 < |s| && s[k + 1] == '\n' then 2 else 1;
        [s[..k]] + SplitLines(s[k + width..])
  }

  /**
    Joining lines with `"\n"` and splitting again gives the lines back, as long
    as no line holds a boundary and the last line is not empty (a trailing
    empty line is swallowed by `splitlines`).
   */
  lemma {:induction false} SplitJoinedLines(lines: seq<string>)
    requires forall k :: 0 <= k < |lines| ==> NoLineBoundary(lines[k])
    requires |lines| > 0 ==> lines[|lines| - 1] != ""
    ensures SplitLines(Join("\n", lines)) == lines
    decreases |lines|
  {
    if |lines| == 1 {
      SplitSingleLine(lines[0]);
    } else if |lines| > 1 {
      var rest := Join("\n", lines[1..]);
      assert Join("\n", lines) == lines[0] + "\n" + rest;
      SplitLinesStep(lines[0], rest);
      SplitJoinedLines(lines[1..]);
      assert [lines[0]] + lines[1..] == lines;
    }
  }

  /** A nonempty line without boundaries splits into itself. */
  lemma SplitSingleLine(x: string)
    requires x != "" && NoLineBoundary(x)
    ensures SplitLines(x) == [x]
  {
    FirstBoundaryAbsent(x, 0);
  }

  /** A line without boundaries followed by `"\n"` splits off as the first line. */
  lemma SplitLinesStep(x: string, rest: string)
    requires NoLineBoundary(x)
    ensures SplitLines(x + "\n" + rest) == [x] + SplitLines(rest)
  {
    var s := x + "\n" + rest;
    var k := |x|;
    assert s[k] == '\n';
    forall m | 0 <= m < k
      ensures !IsLineBoundary(s[m])
    {
      assert s[m] == x[m];
    }
    FirstBoundaryIsFirst(s, 0, k);
    assert s[k + 1..] == rest;
    assert s[..k] == x;
  }

  lemma {:induction false} FirstBoundaryIsFirst(s: string, from: nat, k: nat)
    requires from <= k < |s| && IsLineBoundary(s[k])
    requires forall m :: from <= m < k ==> !IsLineBoundary(s[m])
    ensures FirstBoundary(s, from) == Some(k)
    decreases k - from
  {
    if from < k {
      FirstBoundaryIsFirst(s, from + 1, k);
    }
  }

  lemma {:induction false} FirstBoundaryAbsent(s: string, from: nat)
    requires from <= |s|
    requires forall m :: from <= m < |s| ==> !IsLineBoundary(s[m])
    ensures FirstBoundary(s, from).None?
    decreases |s| - from
  {
    if from < |s| {
      FirstBoundaryAbsent(s, from + 1);
    }
  }
}
