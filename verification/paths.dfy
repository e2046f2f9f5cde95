/**
  The POSIX path helpers the snapshot store relies on: `os.path.basename`,
  `os.path.dirname`, `os.path.splitext`, `os.path.join` with two arguments,
  and the `suffix` of a `pathlib.Path`.
 */
module Paths {
  import opened Wrappers

  /** The last index of `c` in `s[..end]`. */
  function LastIndex(s: string, c: char, end: nat): (r: Option<nat>)
    requires end <= |s|
    ensures r.Some? ==> r.value < end && s[r.value] == c
    ensures r.Some? ==> forall k :: r.value < k < end ==> s[k] != c
    ensures r.None? ==> forall k :: 0 <= k < end ==> s[k] != c
  {
    if end == 0 then None
    else if s[end - 1] == c then Some(end - 1)
    else LastIndex(s, c, end - 1)
  }

  /** Where the final component starts: just past the last `/`. */
  function NameStart(p: string): (i: nat)
    ensures i <= |p|
    ensures forall k :: i <= k < |p| ==> p[k] != '/'
    ensures i > 0 ==> p[i - 1] == '/'
  {
    match LastIndex(p, '/', |p|)
    case Some(k) => k + 1
    case None => 0
  }

  /** `os.path.basename(p)`: everything after the last `/`. */
  function Basename(p: string): (r: string)
    ensures '/' !in r
    ensures |r| <= |p| && p == p[..|p| - |r|] + r
    ensures |r| < |p| ==> p[|p| - |r| - 1] == '/'
  {
    p[NameStart(p)..]
  }

  predicate AllSlashes(s: string) {
    forall k :: 0 <= k < |s| ==> s[k] == '/'
  }

  function StripTrailingSlashes(s: string): (r: string)
    ensures |r| <= |s| && r == s[..|r|]
    ensures |r| > 0 ==> r[|r| - 1] != '/'
    ensures AllSlashes(s[|r|..])
  {
    if |s| > 0 && s[|s| - 1] == '/' then
      var r := StripTrailingSlashes(s[..|s| - 1]);
      assert s[|r|..] == s[..|s| - 1][|r|..] + [s[|s| - 1]];
      r
    else s
  }

  /**
    `os.path.dirname(p)`: everything up to the last `/`, with trailing
    slashes removed unless it consists of slashes only.
   */
  function Dirname(p: string): (r: string)
    ensures |r| <= |p| && r == p[..|r|]
    ensures AllSlashes(p[..NameStart(p)]) ==> r == p[..NameStart(p)]
  {
    var head := p[..NameStart(p)];
    if AllSlashes(head) then head
    else
      var r := StripTrailingSlashes(head);
      assert r == head[..|r|] == p[..|r|];
      r
  }

  /** Every character of `s[lo..hi]` is a dot. */
  predicate AllDots(s: string, lo: nat, hi: nat)
    requires lo <= hi <= |s|
    decreases hi - lo
  {
    lo == hi || (s[lo] == '.' && AllDots(s, lo + 1, hi))
  }

  /**
    `os.path.splitext(p)`: the extension starts at the last `.` of the final
    component, unless every character of the component before that dot is a
    dot (a leading-dot name such as `.bashrc` has no extension).
   */
  function SplitExt(p: string): (r: (string, string))
    ensures r.0 + r.1 == p
    ensures r.1 == "" || (r.1[0] == '.' && '/' !in r.1 && '.' !in r.1[1..])
  {
    var start := NameStart(p);
    match LastIndex(p, '.', |p|)
    case Some(dot) =>
      if dot >= start && !AllDots(p, start, dot) then
        assert p == p[..dot] + p[dot..];
        assert forall k :: 0 <= k < |p[dot..][1..]| ==> p[dot..][1..][k] == p[dot + 1 + k];
        (p[..dot], p[dot..])
      else (p, "")
    case None => (p, "")
  }

  /** `Path(p).suffix`: the final component's text from its last `.`, if that dot is neither first nor last. */
  function Suffix(p: string): (r: string)
    ensures r == "" || (r[0] == '.' && |r| >= 2 && '/' !in r)
    ensures r != "" ==> var name := Basename(p);
      |r| < |name| && name[|name| - |r|..] == r && '.' !in r[1..]
    ensures '.' !in Basename(p) ==> r == ""
  {
    var name := Basename(p);
    match LastIndex(name, '.', |name|)
    case Some(i) => if 0 < i < |name| - 1 then name[i..] else ""
    case None => ""
  }

  /** `os.path.join(a, b)`: an absolute `b` replaces `a`; otherwise a `/` is inserted when needed. */
  function PathJoin(a: string, b: string): (r: string)
    ensures |b| > 0 && b[0] == '/' ==> r == b
    ensures (|b| == 0 || b[0] != '/') ==> exists m :: (m == a || m == a + "/") && r == m + b
  {
    if |b| > 0 && b[0] == '/' then b
    else if |a| == 0 || a[|a| - 1] == '/' then a + b
    else a + "/" + b
  }

  /** A file name's extension survives being placed in a directory. */
  lemma SplitExtOfJoined(dir: string, stem: string, ext: string)
    requires '/' !in stem && '/' !in ext
    requires |stem| > 0 && stem[0] != '.' && '.' !in stem
    requires |ext| > 0 && ext[0] == '.' && '.' !in ext[1..]
    ensures SplitExt(dir + "/" + stem + ext) == (dir + "/" + stem, ext)
    ensures Basename(dir + "/" + stem + ext) == stem + ext
  {
    var p := dir + "/" + stem + ext;
    var start := |dir| + 1;
    assert p[|dir|] == '/';
    assert forall k :: start <= k < |p| ==> p[k] != '/' by {
      forall k | start <= k < |p| ensures p[k] != '/' {
        if k < start + |stem| {
          assert p[k] == stem[k - start];
        } else {
          assert p[k] == ext[k - start - |stem|];
        }
      }
    }
    assert LastIndex(p, '/', |p|) == Some(|dir|) by {
      LastIndexFound(p, '/', |p|, |dir|);
    }
    var dot := start + |stem|;
    assert p[dot] == '.';
    assert forall k :: dot < k < |p| ==> p[k] != '.' by {
      forall k | dot < k < |p| ensures p[k] != '.' {
        assert p[k] == ext[k - dot];
        assert ext[k - dot] == ext[1..][k - dot - 1];
      }
    }
    LastIndexFound(p, '.', |p|, dot);
    assert p[start] == stem[0] && p[start] != '.';
    assert p[..dot] == dir + "/" + stem;
    assert p[dot..] == ext;
    assert p[start..] == stem + ext;
  }

  /** `LastIndex` finds `at` when nothing after it matches. */
  lemma {:induction false} LastIndexFound(s: string, c: char, end: nat, at: nat)
    requires at < end <= |s| && s[at] == c
    requires forall k :: at < k < end ==> s[k] != c
    ensures LastIndex(s, c, end) == Some(at)
    decreases end
  {
    if s[end - 1] != c {
      LastIndexFound(s, c, end - 1, at);
    }
  }

  /**
    A file named `name.x` in any directory has suffix `.x`, when `x` is a
    non-empty extension without dots and `name` is non-empty.
   */
  lemma SuffixOfJoined(dir: string, name: string, x: string)
    requires |name| > 0 && '/' !in name
    requires |x| > 0 && '/' !in x && '.' !in x
    ensures Suffix(dir + "/" + name + "." + x) == "." + x
  {
    var p := dir + "/" + name + "." + x;
    var start := |dir| + 1;
    assert p[|dir|] == '/';
    assert forall k :: start <= k < |p| ==> p[k] != '/' by {
      forall k | start <= k < |p| ensures p[k] != '/' {
        if k < start + |name| {
          assert p[k] == name[k - start];
        } else if k > start + |name| {
          assert p[k] == x[k - start - |name| - 1];
        }
      }
    }
    LastIndexFound(p, '/', |p|, |dir|);
    var base := name + "." + x;
    assert p[start..] == base;
    assert base[|name|] == '.';
    assert forall k :: |name| < k < |base| ==> base[k] != '.' by {
      forall k | |name| < k < |base| ensures base[k] != '.' {
        assert base[k] == x[k - |name| - 1];
      }
    }
    LastIndexFound(base, '.', |base|, |name|);
    assert base[|name|..] == "." + x;
  }

  /** The suffix of a name with one extension keeps the extension's case. */
  lemma SuffixOfExtension()
    ensures Suffix("/docs/report.DOCX") == ".DOCX"
  {
    LastIndexFound("/docs/report.DOCX", '/', 17, 5);
    LastIndexFound("report.DOCX", '.', 11, 6);
  }

  /** A leading dot does not start a suffix, for `Suffix` or for `SplitExt`. */
  lemma SuffixOfDotFile()
    ensures Suffix("/docs/.bashrc") == ""
    ensures SplitExt("/docs/.bashrc") == ("/docs/.bashrc", "")
  {
    LastIndexFound("/docs/.bashrc", '/', 13, 5);
    LastIndexFound(".bashrc", '.', 7, 0);
    LastIndexFound("/docs/.bashrc", '.', 13, 6);
  }

  /** A trailing dot is no suffix. */
  lemma SuffixOfTrailingDot()
    ensures Suffix("/docs/archive.") == ""
  {
    LastIndexFound("/docs/archive.", '/', 14, 5);
    LastIndexFound("archive.", '.', 8, 7);
  }
}
