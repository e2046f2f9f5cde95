/**
  The loader registry (core/snapshot_loaders/loader_registry.py): a map from
  normalised file extensions to loader instances. Extensions are compared
  case-insensitively and with or without leading dots.
 */
module LoaderRegistry {
  import opened Wrappers
  import opened Text

  /** What `hasattr`/`callable` see of a loader's `load_structured`. */
  datatype StructuredAccess = NoAttribute | NotCallable | Callable

  /** A loader instance, known by its class name and its `load_structured` attribute. */
  datatype Loader = Loader(name: string, structured: StructuredAccess)

  type Registry = map<string, Loader>

  /** `_normalize_ext`: lower-case, then drop every leading dot. */
  function NormalizeExt(ext: string): (key: string)
    ensures |key| <= |ext|
    ensures |key| > 0 ==> key[0] != '.'
    ensures forall k :: 0 <= k < |key| ==> !('A' <= key[k] <= 'Z')
    ensures exists n :: 0 <= n <= |ext| && (forall k :: 0 <= k < n ==> ext[k] == '.')
                        && (n < |ext| ==> ext[n] != '.') && key == AsciiLower(ext[n..])
  {
    LowerThenStrip(ext);
    StripLeadingDots(AsciiLower(ext))
  }

  /** Lowering keeps dots where they are, so lowering then stripping is stripping then lowering. */
  lemma LowerThenStrip(ext: string)
    ensures var key := StripLeadingDots(AsciiLower(ext));
      exists n :: 0 <= n <= |ext| && (forall k :: 0 <= k < n ==> ext[k] == '.')
                  && (n < |ext| ==> ext[n] != '.') && key == AsciiLower(ext[n..])
  {
    var lower := AsciiLower(ext);
    var key := StripLeadingDots(lower);
    var n := |ext| - |key|;
    assert key == lower[n..];
    assert forall k :: 0 <= k < |ext| ==> (lower[k] == '.' <==> ext[k] == '.');
    assert forall k :: 0 <= k < n ==> ext[k] == '.' by {
      forall k | 0 <= k < n ensures ext[k] == '.' {
        assert lower[k] == '.';
      }
    }
    if n < |ext| {
      assert key[0] == lower[n];
    }
    var tail := AsciiLower(ext[n..]);
    assert |tail| == |key|;
    forall k | 0 <= k < |tail| ensures tail[k] == key[k] {
      assert ext[n..][k] == ext[n + k];
      assert key[k] == lower[n + k];
    }
    assert tail == key;
  }

  lemma AsciiLowerOfLower(s: string)
    requires forall k :: 0 <= k < |s| ==> !('A' <= s[k] <= 'Z')
    ensures AsciiLower(s) == s
  {
  }

  lemma StripLeadingDotsOfStripped(s: string)
    requires |s| == 0 || s[0] != '.'
    ensures StripLeadingDots(s) == s
  {
  }

  /** Normalising twice is normalising once. */
  lemma NormalizeIdempotent(ext: string)
    ensures NormalizeExt(NormalizeExt(ext)) == NormalizeExt(ext)
  {
    var key := NormalizeExt(ext);
    AsciiLowerOfLower(key);
    StripLeadingDotsOfStripped(key);
  }

  lemma LowerExample()
    ensures AsciiLower(".TXT") == ".txt" && AsciiLower("txt") == "txt"
  {
    var l := AsciiLower(".TXT");
    assert l[0] == '.' && l[1] == 't' && l[2] == 'x' && l[3] == 't';
    var m := AsciiLower("txt");
    assert m[0] == 't' && m[1] == 'x' && m[2] == 't';
  }

  lemma StripExample()
    ensures StripLeadingDots(".txt") == StripLeadingDots("txt") == "txt"
  {
    assert ".txt"[1..] == "txt";
  }

  /** Upper case and a leading dot make no difference. */
  lemma NormalizeExample()
    ensures NormalizeExt(".TXT") == NormalizeExt("txt") == "txt"
  {
    LowerExample();
    StripExample();
  }

  /** `register_loader(ext, loader)`; an empty extension raises `ValueError`. */
  function Register(reg: Registry, ext: string, loader: Loader): (r: Result<Registry, string>)
    ensures r.Failure? <==> ext == ""
    ensures r.Success? ==> r.value.Keys == reg.Keys + {NormalizeExt(ext)}
    ensures r.Success? ==> r.value[NormalizeExt(ext)] == loader
    ensures r.Success? ==> forall key :: key in reg && key != NormalizeExt(ext) ==> r.value[key] == reg[key]
  {
    if ext == "" then Failure("Extension may not be empty")
    else Success(reg[NormalizeExt(ext) := loader])
  }

  /** `get_loader(ext)`: None for an empty extension or an unregistered key. */
  function GetLoader(reg: Registry, ext: string): (r: Option<Loader>)
    ensures r.Some? <==> ext != "" && NormalizeExt(ext) in reg
    ensures r.Some? ==> r.value == reg[NormalizeExt(ext)]
  {
    if ext == "" then None
    else if NormalizeExt(ext) in reg then Some(reg[NormalizeExt(ext)])
    else None
  }

  /** After registering under `ext`, every spelling that normalises the same finds the loader. */
  lemma RegisterThenGet(reg: Registry, ext: string, loader: Loader, query: string)
    requires ext != "" && query != ""
    requires NormalizeExt(query) == NormalizeExt(ext)
    ensures Register(reg, ext, loader).Success?
    ensures GetLoader(Register(reg, ext, loader).value, query) == Some(loader)
  {
  }

  /** Registering touches one key: lookups under any other key are unchanged. */
  lemma RegisterKeepsOthers(reg: Registry, ext: string, loader: Loader, query: string)
    requires ext != ""
    requires NormalizeExt(query) != NormalizeExt(ext)
    ensures GetLoader(Register(reg, ext, loader).value, query) == GetLoader(reg, query)
  {
  }
}
