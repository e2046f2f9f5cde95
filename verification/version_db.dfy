/**
  The snapshot metadata repository (core/version_db.py): a map from document
  name to the ordered list of its snapshot records. `persisted` is the
  content of the JSON file on disk; every mutation rewrites it with the whole
  in-memory map, and `Reload` reads it back.
 */
module VersionDb {
  import opened Wrappers

  /**
    One snapshot record. Records read back from disk may lack keys, so every
    field is optional; a record made by the snapshot manager has all six.
   */
  datatype Meta = Meta(
    snapshotId: Option<string>,
    file: Option<string>,
    filePath: Option<string>,
    timestamp: Option<string>,
    remark: Option<string>,
    snapshotPath: Option<string>)

  type Index = map<string, seq<Meta>>

  datatype Repo = Repo(data: Index, persisted: Index)

  /** In memory and on disk agree, as they do after any mutation or reload. */
  predicate Synced(r: Repo) {
    r.data == r.persisted
  }

  /** `save`: the whole in-memory map is written out. */
  function Save(r: Repo): (r': Repo)
    ensures Synced(r') && r'.data == r.data
  {
    Repo(r.data, r.data)
  }

  /** `reload`: the in-memory map is replaced by what is on disk. */
  function Reload(r: Repo): (r': Repo)
    ensures Synced(r') && r'.persisted == r.persisted
  {
    Repo(r.persisted, r.persisted)
  }

  /** `get_versions(doc)`: the document's list, or `[]` for an unknown document. */
  function GetVersions(r: Repo, doc: string): (vs: seq<Meta>)
    ensures doc !in r.data ==> vs == []
    ensures doc in r.data ==> vs == r.data[doc]
  {
    if doc in r.data then r.data[doc] else []
  }

  /** `save_version(doc, meta)`: append to the document's list, creating it if absent, then save. */
  function SaveVersion(r: Repo, doc: string, m: Meta): (r': Repo)
    ensures Synced(r')
    ensures r'.data.Keys == r.data.Keys + {doc}
    ensures r'.data[doc] == GetVersions(r, doc) + [m]
    ensures forall d :: d in r.data && d != doc ==> r'.data[d] == r.data[d]
  {
    Save(r.(data := r.data[doc := GetVersions(r, doc) + [m]]))
  }

  /** The list comprehension `[v for v in vs if v != target]`. */
  function Without(vs: seq<Meta>, target: Meta): (r: seq<Meta>)
    ensures |r| <= |vs|
    ensures target !in r
    ensures forall v :: v in vs && v != target ==> v in r
    ensures forall v :: v in r ==> v in vs
  {
    if |vs| == 0 then []
    else if vs[0] == target then Without(vs[1..], target)
    else [vs[0]] + Without(vs[1..], target)
  }

  /** `remove_version(doc, target)`: a no-op for an unknown document; otherwise filter and save. */
  function RemoveVersion(r: Repo, doc: string, target: Meta): (r': Repo)
    ensures doc !in r.data ==> r' == r
    ensures doc in r.data ==> Synced(r') && r'.data.Keys == r.data.Keys
    ensures doc in r.data ==> r'.data[doc] == Without(r.data[doc], target)
    ensures forall d :: d in r.data && d != doc ==> r'.data[d] == r.data[d]
  {
    if doc !in r.data then r
    else Save(r.(data := r.data[doc := Without(r.data[doc], target)]))
  }

  /** Filtering distributes over concatenation, so the kept records stay in their order. */
  lemma {:induction false} WithoutAppend(xs: seq<Meta>, ys: seq<Meta>, target: Meta)
    ensures Without(xs + ys, target) == Without(xs, target) + Without(ys, target)
  {
    if |xs| > 0 {
      assert (xs + ys)[1..] == xs[1..] + ys;
      WithoutAppend(xs[1..], ys, target);
    } else {
      assert xs + ys == ys;
    }
  }

  /** A list without the target is left as it is. */
  lemma {:induction false} WithoutAbsent(vs: seq<Meta>, target: Meta)
    requires target !in vs
    ensures Without(vs, target) == vs
  {
    if |vs| > 0 {
      assert vs[1..] + [] == vs[1..];
      assert target !in vs[1..];
      WithoutAbsent(vs[1..], target);
      assert vs == [vs[0]] + vs[1..];
    }
  }

  /** Saving a record then reading the document's list finds it last, after the earlier ones. */
  lemma SaveThenGet(r: Repo, doc: string, m: Meta, other: string)
    ensures GetVersions(SaveVersion(r, doc, m), doc) == GetVersions(r, doc) + [m]
    ensures other != doc ==> GetVersions(SaveVersion(r, doc, m), other) == GetVersions(r, other)
  {
  }

  /** Removing a record just saved, that was not there before, gives the earlier list back. */
  lemma SaveThenRemove(r: Repo, doc: string, m: Meta)
    requires m !in GetVersions(r, doc)
    ensures GetVersions(RemoveVersion(SaveVersion(r, doc, m), doc, m), doc) == GetVersions(r, doc)
  {
    var before := GetVersions(r, doc);
    WithoutAppend(before, [m], m);
    WithoutAbsent(before, m);
    assert Without([m], m) == [];
  }

  /** Every operation leaves memory and disk in agreement, so a reload changes nothing. */
  lemma ReloadAfterMutation(r: Repo, doc: string, m: Meta)
    requires Synced(r)
    ensures Reload(SaveVersion(r, doc, m)) == SaveVersion(r, doc, m)
    ensures Reload(RemoveVersion(r, doc, m)) == RemoveVersion(r, doc, m)
  {
  }
}
