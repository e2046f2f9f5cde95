/**
  The snapshot manager (core/snapshot_manager.py): creating, deleting,
  listing and reading snapshots, and restoring a document to a snapshot with
  a one-level-at-a-time undo stack.

  The state is a file system (path to bytes), the metadata repository, the
  loader registry, the undo stack and the log of emitted signals. The
  snapshot root, the clock's timestamp and the random hex of each snapshot
  id are parameters. A method that raises part-way returns the state as it
  was at the exception, together with the error.
 */
module SnapshotManager {
  import opened Wrappers
  import opened VersionDb
  import opened LoaderRegistry
  import Paths
  import Listing
  import Text

  type Bytes = seq<bv8>

  type FileSystem = map<string, Bytes>

  /** The exceptions the manager lets escape. */
  datatype Error =
    | FileNotFound(path: string)
    | SameFile(path: string)
    | KeyError(key: string)
    | ValueError(message: string)

  /** `snapshot_created` and `snapshot_deleted`, in emission order. */
  datatype Event = Created(meta: Meta) | Deleted(meta: Meta)

  /** An undo point pushed by a restore: `(doc_name, backup_meta, restore_meta)`. */
  datatype UndoEntry = UndoEntry(doc: string, backup: Meta, restore: Meta)

  datatype Store = Store(
    fs: FileSystem,
    repo: Repo,
    registry: Registry,
    undo: seq<UndoEntry>,
    events: seq<Event>)

  /** The fallback loader registered for `.bak` files on the first snapshot. */
  const BakLoader: Loader := Loader("_BakFallbackLoader", Callable)

  /** `os.path.exists`: only files are modelled. */
  predicate Exists(fs: FileSystem, p: string) {
    p in fs
  }

  /** `os.path.isfile`: an existing path that does not end in a separator. */
  predicate IsFile(fs: FileSystem, p: string) {
    p in fs && Paths.Basename(p) != ""
  }

  /** `shutil.copyfile(src, dst)`. */
  function CopyFile(fs: FileSystem, src: string, dst: string): (r: Result<FileSystem, Error>)
    ensures r.Failure? <==> !Exists(fs, src) || src == dst
    ensures r.Success? ==> r.value == fs[dst := fs[src]]
  {
    if !Exists(fs, src) then Failure(FileNotFound(src))
    else if src == dst then Failure(SameFile(src))
    else Success(fs[dst := fs[src]])
  }

  /** `<timestamp>_<hex>`. */
  function SnapshotId(stamp: string, hex: string): string {
    stamp + "_" + hex
  }

  /** Where `create_snapshot` copies `filePath`: `<root>/<basename>/<id><ext>`. */
  function SnapshotPath(root: string, filePath: string, stamp: string, hex: string): string {
    root + "/" + Paths.Basename(filePath) + "/" + SnapshotId(stamp, hex) + Paths.SplitExt(filePath).1
  }

  /** The record `create_snapshot` builds. */
  function NewMeta(root: string, filePath: string, remark: string, stamp: string, hex: string): Meta {
    Meta(
      Some(SnapshotId(stamp, hex)),
      Some(Paths.Basename(filePath)),
      Some(filePath),
      Some(stamp),
      Some(remark),
      Some(SnapshotPath(root, filePath, stamp, hex)))
  }

  /** Register the `.bak` fallback unless some loader already answers for `.bak`. */
  function WithBakLoader(reg: Registry): (r: Registry)
    ensures GetLoader(r, ".bak").Some?
    ensures reg.Keys <= r.Keys <= reg.Keys + {NormalizeExt(".bak")}
    ensures forall key :: key in reg ==> r[key] == reg[key]
    ensures GetLoader(reg, ".bak").Some? ==> r == reg
  {
    if GetLoader(reg, ".bak").None? then
      reg[NormalizeExt(".bak") := BakLoader]
    else reg
  }

  /**
    `create_snapshot(file_path, remark)`: refuse a path that is not a file,
    copy its bytes under the snapshot root, append one record under its
    basename, make sure `.bak` has a loader, and emit `snapshot_created`.
   */
  function CreateSnapshot(st: Store, root: string, filePath: string, remark: string, stamp: string, hex: string)
    : (r: Result<(Store, Meta), Error>)
    ensures !IsFile(st.fs, filePath) ==> r == Failure(FileNotFound(filePath))
    ensures r.Success? ==> IsFile(st.fs, filePath)
    ensures r.Success? ==> var (st', m) := r.value;
      && m == NewMeta(root, filePath, remark, stamp, hex)
      && st'.fs == st.fs[SnapshotPath(root, filePath, stamp, hex) := st.fs[filePath]]
      && st'.repo == SaveVersion(st.repo, Paths.Basename(filePath), m)
      && st'.registry == WithBakLoader(st.registry)
      && st'.undo == st.undo
      && st'.events == st.events + [Created(m)]
  {
    if !IsFile(st.fs, filePath) then Failure(FileNotFound(filePath))
    else
      var dst := SnapshotPath(root, filePath, stamp, hex);
      var fs :- CopyFile(st.fs, filePath, dst);
      var m := NewMeta(root, filePath, remark, stamp, hex);
      var repo := SaveVersion(st.repo, Paths.Basename(filePath), m);
      Success((Store(fs, repo, WithBakLoader(st.registry), st.undo, st.events + [Created(m)]), m))
  }

  /**
    `delete_snapshot(doc, meta)`: remove the content file if it exists, drop
    the equal records from the document's list, emit `snapshot_deleted`.
   */
  function DeleteSnapshot(st: Store, doc: string, m: Meta): (st': Store)
    ensures m.snapshotPath.Some? && m.snapshotPath.value != "" ==> m.snapshotPath.value !in st'.fs
    ensures st'.fs.Keys <= st.fs.Keys
    ensures forall p :: p in st'.fs ==> st'.fs[p] == st.fs[p]
    ensures forall p :: p in st.fs && Some(p) != m.snapshotPath ==> p in st'.fs
    ensures st'.repo == RemoveVersion(st.repo, doc, m)
    ensures st'.registry == st.registry && st'.undo == st.undo
    ensures st'.events == st.events + [Deleted(m)]
  {
    var fs :=
      if m.snapshotPath.Some? && m.snapshotPath.value != "" && Exists(st.fs, m.snapshotPath.value)
      then st.fs - {m.snapshotPath.value}
      else st.fs;
    st.(fs := fs, repo := RemoveVersion(st.repo, doc, m), events := st.events + [Deleted(m)])
  }

  /**
    `list_snapshots(doc)`: reload the repository and sort the document's list
    newest first. The sort happens in place on the repository's own list, so
    afterwards the in-memory index holds that list in the new order, while
    the file on disk keeps the old order.
   */
  function ListSnapshots(st: Store, doc: string): (r: (Store, seq<Meta>))
    ensures multiset(r.1) == multiset(GetVersions(Reload(st.repo), doc))
    ensures doc !in st.repo.persisted ==> r.1 == []
    ensures r.0.repo.persisted == st.repo.persisted
    ensures r.0.repo.data.Keys == st.repo.persisted.Keys
    ensures doc in st.repo.persisted ==> r.0.repo.data[doc] == r.1
    ensures forall d :: d in st.repo.persisted && d != doc ==> r.0.repo.data[d] == st.repo.persisted[d]
    ensures r.0.fs == st.fs && r.0.undo == st.undo && r.0.events == st.events
  {
    var repo := Reload(st.repo);
    var sorted := Listing.SortDesc(GetVersions(repo, doc));
    var repo' := if doc in repo.data then repo.(data := repo.data[doc := sorted]) else repo;
    (st.(repo := repo'), sorted)
  }

  /**
    `get_snapshot_content(path)`: the loader registered for the path's
    extension is asked for the text. `getText(loader, bytes)` stands for
    what that loader does with the file: it gets the file's bytes, or `None`
    when no file is there, and either returns text or raises. What a missing
    file means is the loader's decision, not this function's: the `.bak`
    fallback answers "(binary content)", the DOCX loader raises.
   */
  function GetSnapshotContent(st: Store, snapshotPath: string,
                              getText: (Loader, Option<Bytes>) -> Result<string, Error>)
    : (r: Result<string, Error>)
    ensures var ext := Paths.SplitExt(snapshotPath).1;
      && (GetLoader(st.registry, ext).None? ==> r == Failure(ValueError("Unsupported snapshot format: " + ext)))
      && (GetLoader(st.registry, ext).Some? ==>
            r == getText(GetLoader(st.registry, ext).value,
                         if Exists(st.fs, snapshotPath) then Some(st.fs[snapshotPath]) else None))
  {
    var ext := Paths.SplitExt(snapshotPath).1;
    match GetLoader(st.registry, ext)
    case None => Failure(ValueError("Unsupported snapshot format: " + ext))
    case Some(loader) => getText(loader, if Exists(st.fs, snapshotPath) then Some(st.fs[snapshotPath]) else None)
  }

  /**
    `_get_work_file(meta)`: the recorded absolute path if it still exists,
    otherwise the legacy guess `<dirname(dirname(snapshot_path))>/<file>`.
   */
  function GetWorkFile(fs: FileSystem, m: Meta): (r: Result<string, Error>)
    ensures m.filePath.Some? && m.filePath.value != "" && Exists(fs, m.filePath.value)
            ==> r == Success(m.filePath.value)
    ensures r.Failure? ==> r.error == KeyError("snapshot_path") || r.error == KeyError("file")
    ensures r.Failure? <==> !(m.filePath.Some? && m.filePath.value != "" && Exists(fs, m.filePath.value))
                            && (m.snapshotPath.None? || m.file.None?)
  {
    if m.filePath.Some? && m.filePath.value != "" && Exists(fs, m.filePath.value) then
      Success(m.filePath.value)
    else if m.snapshotPath.None? then Failure(KeyError("snapshot_path"))
    else if m.file.None? then Failure(KeyError("file"))
    else Success(Paths.PathJoin(Paths.Dirname(Paths.Dirname(m.snapshotPath.value)), m.file.value))
  }

  /** The id quoted in restore remarks: the record's id, or the stem of its content file. */
  function SnapId(m: Meta): (r: string)
    ensures m.snapshotId.Some? && m.snapshotId.value != "" ==> r == m.snapshotId.value
    ensures m.snapshotId.None? || m.snapshotId.value == "" ==>
      '/' !in r && r + Paths.SplitExt(Paths.Basename(m.snapshotPath.GetOr(""))).1 == Paths.Basename(m.snapshotPath.GetOr(""))
  {
    if m.snapshotId.Some? && m.snapshotId.value != "" then m.snapshotId.value
    else Paths.SplitExt(Paths.Basename(m.snapshotPath.GetOr(""))).0
  }

  /** The remark on the backup a restore takes first. */
  function BackupRemark(snapId: string): string {
    "Auto backup before restore -> " + snapId
  }

  /** The remark on the snapshot a restore takes last. */
  function RestoreRemark(snapId: string): string {
    "Restore to " + snapId
  }

  /** The remark on the snapshot an undo takes. */
  function UndoRemark(): string {
    "Undo Restore"
  }

  /** `can_undo`. */
  predicate CanUndo(st: Store)
    ensures CanUndo(st) <==> st.undo != []
  {
    |st.undo| > 0
  }

  /**
    After steps 1 and 2 of a restore: the backup copy holds the old bytes,
    the work file the target's, and one record and one event are added.
   */
  ghost predicate BackedUp(st: Store, target: Meta, work: string, root: string, snapId: string,
                           stamp: string, hex: string, backup: Meta, st': Store)
  {
    && BackedUpFiles(st, target, work, root, stamp, hex, st')
    && backup == NewMeta(root, work, BackupRemark(snapId), stamp, hex)
    && Recorded(st, work, backup, st')
  }

  /** The file side of steps 1 and 2. */
  ghost predicate BackedUpFiles(st: Store, target: Meta, work: string, root: string,
                                stamp: string, hex: string, st': Store)
  {
      var backupPath := SnapshotPath(root, work, stamp, hex);
      && target.snapshotPath.Some?
      && IsFile(st.fs, work) && backupPath != work
      && backupPath in st'.fs && st'.fs[backupPath] == st.fs[work]
      && (target.snapshotPath.value == backupPath || target.snapshotPath.value in st.fs)
      && work in st'.fs
      && st'.fs[work] == (if target.snapshotPath.value == backupPath then st.fs[work]
                          else st.fs[target.snapshotPath.value])
      && st'.fs == st.fs[backupPath := st.fs[work]][work := st'.fs[work]]
  }

  /** One record `m` appended under the work file's document, saved, announced. */
  ghost predicate Recorded(st: Store, work: string, m: Meta, st': Store)
  {
    && GetVersions(st'.repo, Paths.Basename(work)) == GetVersions(st.repo, Paths.Basename(work)) + [m]
    && (forall d :: d != Paths.Basename(work) ==> GetVersions(st'.repo, d) == GetVersions(st.repo, d))
    && Synced(st'.repo)
    && st'.registry == WithBakLoader(st.registry)
    && st'.events == st.events + [Created(m)]
  }

  /**
    After steps 3 and 4 of a restore: the restore-marker copy of the work
    file, one record and one event added, and the undo point pushed.
   */
  ghost predicate Marked(st: Store, target: Meta, work: string, root: string, snapId: string, backup: Meta,
                         stamp: string, hex: string, st': Store)
  {
      var restore := NewMeta(root, work, RestoreRemark(snapId), stamp, hex);
      && IsFile(st.fs, work)
      && SnapshotPath(root, work, stamp, hex) != work
      && st'.fs == st.fs[SnapshotPath(root, work, stamp, hex) := st.fs[work]]
      && Recorded(st, work, restore, st')
      && st'.undo == st.undo + [UndoEntry(target.file.GetOr(""), backup, restore)]
  }

  /**
    Steps 1 and 2 of a restore: a backup snapshot of the work file, then the
    target's bytes copied over the work file.
   */
  method BackupAndOverwrite(st: Store, target: Meta, work: string, root: string, snapId: string,
                            stamp: string, hex: string)
    returns (st': Store, backup: Meta, r: Result<(), Error>)
    ensures st'.undo == st.undo
    ensures r.Success? ==> BackedUp(st, target, work, root, snapId, stamp, hex, backup, st')
  {
    var c1 := CreateSnapshot(st, root, work, BackupRemark(snapId), stamp, hex);
    if c1.Failure? {
      return st, NewMeta(root, work, BackupRemark(snapId), stamp, hex), Failure(c1.error);
    }
    var st1 := c1.value.0;
    backup := c1.value.1;
    if target.snapshotPath.None? {
      return st1, backup, Failure(KeyError("snapshot_path"));
    }
    var copied := CopyFile(st1.fs, target.snapshotPath.value, work);
    if copied.Failure? {
      return st1, backup, Failure(copied.error);
    }
    st' := st1.(fs := copied.value);
    r := Success(());
  }

  /** Steps 3 and 4 of a restore: the restore-marker snapshot, then the undo point. */
  method MarkAndPush(st: Store, target: Meta, work: string, root: string, snapId: string, backup: Meta,
                     stamp: string, hex: string)
    returns (st': Store, r: Result<(), Error>)
    ensures r.Failure? ==> st'.undo == st.undo
    ensures r.Success? ==> Marked(st, target, work, root, snapId, backup, stamp, hex, st')
  {
    var c3 := CreateSnapshot(st, root, work, RestoreRemark(snapId), stamp, hex);
    if c3.Failure? {
      return st, Failure(c3.error);
    }
    var st3 := c3.value.0;
    var restore := c3.value.1;
    st' := st3.(undo := st3.undo + [UndoEntry(target.file.GetOr(""), backup, restore)]);
    r := Success(());
  }

  /**
    The state after a completed restore of `target` onto `work`: the work
    file holds the target's bytes, the restore-marker copy holds them too,
    two records are added under the work file's name, two signals are
    emitted and one undo point is pushed. No other file, and no other
    document's records, change; memory and disk agree.
   */
  ghost predicate Restored(st: Store, target: Meta, work: string, root: string,
                     stamp1: string, hex1: string, stamp2: string, hex2: string, st': Store)
  {
    && RestoredFiles(st, target, work, root, stamp1, hex1, stamp2, hex2, st')
    && RestoredRecords(st, target, work, root, stamp1, hex1, stamp2, hex2, st')
  }

  /** The file side of a restore. */
  ghost predicate RestoredFiles(st: Store, target: Meta, work: string, root: string,
                                stamp1: string, hex1: string, stamp2: string, hex2: string, st': Store)
  {
    var backupPath := SnapshotPath(root, work, stamp1, hex1);
    var restorePath := SnapshotPath(root, work, stamp2, hex2);
    && target.snapshotPath.Some?
    && IsFile(st.fs, work)
    && backupPath != work
    && work in st'.fs
    && (target.snapshotPath.value == backupPath || target.snapshotPath.value in st.fs)
    && st'.fs[work] == (if target.snapshotPath.value == backupPath then st.fs[work]
                        else st.fs[target.snapshotPath.value])
    && (SnapshotId(stamp1, hex1) != SnapshotId(stamp2, hex2) ==>
          backupPath in st'.fs && st'.fs[backupPath] == st.fs[work])
    && restorePath != work && restorePath in st'.fs && st'.fs[restorePath] == st'.fs[work]
    && st'.fs.Keys == st.fs.Keys + {backupPath, restorePath}
    && (forall q :: q in st.fs && q != work && q != backupPath && q != restorePath ==> st'.fs[q] == st.fs[q])
  }

  /** The record side of a restore: two records, two events, one undo point. */
  ghost predicate RestoredRecords(st: Store, target: Meta, work: string, root: string,
                                  stamp1: string, hex1: string, stamp2: string, hex2: string, st': Store)
  {
    var backup := NewMeta(root, work, BackupRemark(SnapId(target)), stamp1, hex1);
    var restore := NewMeta(root, work, RestoreRemark(SnapId(target)), stamp2, hex2);
    && GetVersions(st'.repo, Paths.Basename(work))
         == GetVersions(st.repo, Paths.Basename(work)) + [backup, restore]
    && st'.events == st.events + [Created(backup), Created(restore)]
    && st'.undo == st.undo + [UndoEntry(target.file.GetOr(""), backup, restore)]
    && (forall d :: d != Paths.Basename(work) ==> GetVersions(st'.repo, d) == GetVersions(st.repo, d))
    && Synced(st'.repo)
    && st'.registry == WithBakLoader(st.registry)
  }

  /** The four steps of a restore onto a known work file. */
  method RestoreAt(st: Store, target: Meta, work: string, root: string,
                   stamp1: string, hex1: string, stamp2: string, hex2: string)
    returns (st': Store, r: Result<(), Error>)
    ensures r.Failure? ==> st'.undo == st.undo
    ensures r.Success? ==> Restored(st, target, work, root, stamp1, hex1, stamp2, hex2, st')
  {
    var snapId := SnapId(target);
    var st2, backup, overwritten := BackupAndOverwrite(st, target, work, root, snapId, stamp1, hex1);
    if overwritten.Failure? {
      return st2, overwritten;
    }
    st', r := MarkAndPush(st2, target, work, root, snapId, backup, stamp2, hex2);
    if r.Success? {
      StepsRestore(st, st2, st', target, work, root, stamp1, hex1, stamp2, hex2, backup);
    }
  }

  /** The two halves of a completed restore make a restore. */
  lemma StepsRestore(st: Store, st2: Store, st': Store, target: Meta, work: string, root: string,
                     stamp1: string, hex1: string, stamp2: string, hex2: string, backup: Meta)
    requires BackedUp(st, target, work, root, SnapId(target), stamp1, hex1, backup, st2)
    requires Marked(st2, target, work, root, SnapId(target), backup, stamp2, hex2, st')
    requires st2.undo == st.undo
    ensures Restored(st, target, work, root, stamp1, hex1, stamp2, hex2, st')
  {
    StepsRestoreFiles(st, st2, st', target, work, root, stamp1, hex1, stamp2, hex2, backup);
    StepsRestoreRecords(st, st2, st', target, work, root, stamp1, hex1, stamp2, hex2, backup);
  }

  lemma StepsRestoreRecords(st: Store, st2: Store, st': Store, target: Meta, work: string, root: string,
                            stamp1: string, hex1: string, stamp2: string, hex2: string, backup: Meta)
    requires BackedUp(st, target, work, root, SnapId(target), stamp1, hex1, backup, st2)
    requires Marked(st2, target, work, root, SnapId(target), backup, stamp2, hex2, st')
    requires st2.undo == st.undo
    ensures RestoredRecords(st, target, work, root, stamp1, hex1, stamp2, hex2, st')
  {
    var restore := NewMeta(root, work, RestoreRemark(SnapId(target)), stamp2, hex2);
    RecordedTwice(st, st2, st', work, backup, restore);
  }

  /** Two records in a row: both appended in order, both announced. */
  lemma RecordedTwice(st: Store, st2: Store, st': Store, work: string, m1: Meta, m2: Meta)
    requires Recorded(st, work, m1, st2) && Recorded(st2, work, m2, st')
    ensures GetVersions(st'.repo, Paths.Basename(work)) == GetVersions(st.repo, Paths.Basename(work)) + [m1, m2]
    ensures forall d :: d != Paths.Basename(work) ==> GetVersions(st'.repo, d) == GetVersions(st.repo, d)
    ensures Synced(st'.repo) && st'.registry == WithBakLoader(st.registry)
    ensures st'.events == st.events + [Created(m1), Created(m2)]
  {
    assert GetVersions(st.repo, Paths.Basename(work)) + [m1] + [m2]
        == GetVersions(st.repo, Paths.Basename(work)) + [m1, m2];
    assert st.events + [Created(m1)] + [Created(m2)] == st.events + [Created(m1), Created(m2)];
  }

  lemma StepsRestoreFiles(st: Store, st2: Store, st': Store, target: Meta, work: string, root: string,
                          stamp1: string, hex1: string, stamp2: string, hex2: string, backup: Meta)
    requires BackedUp(st, target, work, root, SnapId(target), stamp1, hex1, backup, st2)
    requires Marked(st2, target, work, root, SnapId(target), backup, stamp2, hex2, st')
    ensures RestoredFiles(st, target, work, root, stamp1, hex1, stamp2, hex2, st')
  {
    if SnapshotId(stamp1, hex1) != SnapshotId(stamp2, hex2) {
      DistinctPaths(root, work, stamp1, hex1, stamp2, hex2);
    }
    var bp := SnapshotPath(root, work, stamp1, hex1);
    var rp := SnapshotPath(root, work, stamp2, hex2);
    TwoCopiesFrame(st.fs, work, bp, rp, st2.fs[work]);
    assert st'.fs == st.fs[bp := st.fs[work]][work := st2.fs[work]][rp := st2.fs[work]];
  }

  /**
    The file system after a restore: the backup copy, the work file
    overwritten with `w`, and the restore-marker copy of the new work file.
   */
  lemma TwoCopiesFrame(fs: FileSystem, work: string, bp: string, rp: string, w: Bytes)
    requires work in fs && rp != work
    ensures var fs' := fs[bp := fs[work]][work := w][rp := w];
      && fs'.Keys == fs.Keys + {bp, rp}
      && fs'[rp] == fs'[work] == w
      && (forall q :: q in fs && q != work && q != bp && q != rp ==> fs'[q] == fs[q])
  {
  }

  /**
    `restore_snapshot(target)`: find the work file, back it up, overwrite it
    with the target's bytes, record a restore-marker snapshot and push an
    undo point. The steps are not atomic: an exception after the backup
    leaves it recorded, and only a completed restore pushes an undo point.
   */
  method Restore(st: Store, target: Meta, root: string,
                 stamp1: string, hex1: string, stamp2: string, hex2: string)
    returns (st': Store, r: Result<(), Error>)
    ensures GetWorkFile(st.fs, target).Failure? ==> st' == st && r == Failure(GetWorkFile(st.fs, target).error)
    ensures r.Failure? ==> st'.undo == st.undo
    ensures r.Success? ==> GetWorkFile(st.fs, target).Success?
    ensures r.Success? ==>
      Restored(st, target, GetWorkFile(st.fs, target).value, root, stamp1, hex1, stamp2, hex2, st')
  {
    var wf := GetWorkFile(st.fs, target);
    if wf.Failure? {
      return st, Failure(wf.error);
    }
    st', r := RestoreAt(st, target, wf.value, root, stamp1, hex1, stamp2, hex2);
  }

  /**
    `undo_restore`: pop the latest undo point, copy its backup's bytes back
    over the work file and record an "Undo Restore" snapshot. Nothing is
    pushed, and an empty stack makes it a no-op.
   */
  method Undo(st: Store, root: string, stamp: string, hex: string) returns (st': Store, r: Result<(), Error>)
    ensures !CanUndo(st) ==> st' == st && r == Success(())
    ensures CanUndo(st) ==> st'.undo == st.undo[..|st.undo| - 1]
    ensures CanUndo(st) ==>
      var backup := st.undo[|st.undo| - 1].backup;
      var wf := GetWorkFile(st.fs, backup);
      wf.Success? && backup.snapshotPath.Some? && CopyFile(st.fs, backup.snapshotPath.value, wf.value).Success?
      ==> backup.snapshotPath.value in st.fs && wf.value in st'.fs
          && st'.fs[wf.value] == st.fs[backup.snapshotPath.value]
    ensures r.Success? && CanUndo(st) ==>
      GetWorkFile(st.fs, st.undo[|st.undo| - 1].backup).Success? &&
      var work := GetWorkFile(st.fs, st.undo[|st.undo| - 1].backup).value;
      st'.events == st.events + [Created(NewMeta(root, work, UndoRemark(), stamp, hex))]
  {
    if |st.undo| == 0 {
      return st, Success(());
    }
    var entry := st.undo[|st.undo| - 1];
    var st1 := st.(undo := st.undo[..|st.undo| - 1]);
    var wf := GetWorkFile(st1.fs, entry.backup);
    if wf.Failure? {
      return st1, Failure(wf.error);
    }
    var work := wf.value;
    if entry.backup.snapshotPath.None? {
      return st1, Failure(KeyError("snapshot_path"));
    }
    var copied := CopyFile(st1.fs, entry.backup.snapshotPath.value, work);
    if copied.Failure? {
      return st1, Failure(copied.error);
    }
    var st2 := st1.(fs := copied.value);
    var c := CreateSnapshot(st2, root, work, UndoRemark(), stamp, hex);
    if c.Failure? {
      return st2, Failure(c.error);
    }
    st' := c.value.0;
    r := Success(());
  }

  /**
    A restore followed straight away by an undo: the work file's bytes are
    back as they were before the restore, and the undo stack is as it was.
    This holds whether or not the final "Undo Restore" snapshot succeeds, as
    long as the two snapshots of the restore got distinct ids.
   */
  method RestoreThenUndo(st: Store, target: Meta, root: string,
                         stamp1: string, hex1: string, stamp2: string, hex2: string,
                         stamp3: string, hex3: string)
    returns (st'': Store, restored: Result<(), Error>)
    requires SnapshotId(stamp1, hex1) != SnapshotId(stamp2, hex2)
    ensures restored.Success? ==> GetWorkFile(st.fs, target).Success?
    ensures restored.Success? ==>
      var work := GetWorkFile(st.fs, target).value;
      work in st.fs && work in st''.fs && st''.fs[work] == st.fs[work] && st''.undo == st.undo
  {
    var st';
    st', restored := Restore(st, target, root, stamp1, hex1, stamp2, hex2);
    if restored.Success? {
      var work := GetWorkFile(st.fs, target).value;
      var top := st'.undo[|st'.undo| - 1];
      assert top.backup.filePath == Some(work);
      assert st'.undo[..|st'.undo| - 1] == st.undo;
    }
    var undone;
    st'', undone := Undo(st', root, stamp3, hex3);
  }

  /** A path that is not a file is refused before anything is copied or recorded. */
  lemma CreateRefusesNonFile(st: Store, root: string, filePath: string, remark: string, stamp: string, hex: string)
    requires !IsFile(st.fs, filePath)
    ensures CreateSnapshot(st, root, filePath, remark, stamp, hex) == Failure(FileNotFound(filePath))
  {
  }

  /** A successful snapshot is one more record under the basename, whose path holds the copied bytes. */
  lemma CreateRecordsCopy(st: Store, root: string, filePath: string, remark: string, stamp: string, hex: string)
    requires CreateSnapshot(st, root, filePath, remark, stamp, hex).Success?
    ensures var (st', m) := CreateSnapshot(st, root, filePath, remark, stamp, hex).value;
      && GetVersions(st'.repo, Paths.Basename(filePath)) == GetVersions(st.repo, Paths.Basename(filePath)) + [m]
      && m.snapshotPath.Some? && st'.fs[m.snapshotPath.value] == st.fs[filePath]
      && st'.fs[filePath] == st.fs[filePath]
  {
  }

  /**
    Listing returns the document's persisted records newest first; records
    with equal timestamps keep their stored order. Listing again gives the
    same answer, because each listing starts from the file on disk.
   */
  lemma ListSnapshotsOrder(st: Store, doc: string)
    ensures Listing.Descending(ListSnapshots(st, doc).1)
    ensures forall k :: Listing.WithKey(ListSnapshots(st, doc).1, k)
                        == Listing.WithKey(GetVersions(Reload(st.repo), doc), k)
    ensures ListSnapshots(ListSnapshots(st, doc).0, doc).1 == ListSnapshots(st, doc).1
  {
    var vs := GetVersions(Reload(st.repo), doc);
    Listing.SortDescSorted(vs);
    forall k {
      Listing.SortDescStable(vs, k);
    }
  }

  /**
    Deleting the snapshot just created removes its content file and leaves
    the document's records as they were before, if that record was new.
   */
  lemma CreateThenDelete(st: Store, root: string, filePath: string, remark: string, stamp: string, hex: string)
    requires CreateSnapshot(st, root, filePath, remark, stamp, hex).Success?
    requires NewMeta(root, filePath, remark, stamp, hex) !in GetVersions(st.repo, Paths.Basename(filePath))
    ensures var r := CreateSnapshot(st, root, filePath, remark, stamp, hex).value;
      r.1.snapshotPath.Some? && r.1.snapshotPath.value !in DeleteSnapshot(r.0, Paths.Basename(filePath), r.1).fs
    ensures var r := CreateSnapshot(st, root, filePath, remark, stamp, hex).value;
      GetVersions(DeleteSnapshot(r.0, Paths.Basename(filePath), r.1).repo, Paths.Basename(filePath))
      == GetVersions(st.repo, Paths.Basename(filePath))
    ensures var r := CreateSnapshot(st, root, filePath, remark, stamp, hex).value;
      DeleteSnapshot(r.0, Paths.Basename(filePath), r.1).events == st.events + [Created(r.1), Deleted(r.1)]
  {
    var r := CreateSnapshot(st, root, filePath, remark, stamp, hex).value;
    var m := r.1;
    var doc := Paths.Basename(filePath);
    var path := SnapshotPath(root, filePath, stamp, hex);
    assert m == NewMeta(root, filePath, remark, stamp, hex);
    assert m.snapshotPath == Some(path) && |path| > 0;
    SaveThenRemove(st.repo, doc, m);
    var st'' := DeleteSnapshot(r.0, doc, m);
    assert st''.repo == RemoveVersion(SaveVersion(st.repo, doc, m), doc, m);
    assert r.0.events == st.events + [Created(m)];
    assert st''.events == r.0.events + [Deleted(m)];
    Text.AppendAssoc(st.events, [Created(m)], [Deleted(m)]);
    assert [Created(m)] + [Deleted(m)] == [Created(m), Deleted(m)];
  }

  /** An id built from dot-free, separator-free parts has neither, and does not start with a dot. */
  lemma IdHasNoDot(stamp: string, hex: string)
    requires '.' !in stamp && '/' !in stamp && '.' !in hex && '/' !in hex
    ensures var id := SnapshotId(stamp, hex);
      |id| > 0 && id[0] != '.' && '.' !in id && '/' !in id
  {
    var id := SnapshotId(stamp, hex);
    forall k | 0 <= k < |id| ensures id[k] != '.' && id[k] != '/' {
      if k < |stamp| { assert id[k] == stamp[k]; }
      else if k > |stamp| { assert id[k] == hex[k - |stamp| - 1]; }
    }
  }

  /**
    The copy keeps the original's extension, so the same loader reads it,
    as long as the timestamp and the hex contain no dot or separator.
   */
  lemma SnapshotKeepsExtension(root: string, filePath: string, stamp: string, hex: string)
    requires '.' !in stamp && '/' !in stamp && '.' !in hex && '/' !in hex
    requires Paths.SplitExt(filePath).1 != ""
    ensures Paths.SplitExt(SnapshotPath(root, filePath, stamp, hex)).1 == Paths.SplitExt(filePath).1
    ensures Paths.Basename(SnapshotPath(root, filePath, stamp, hex))
            == SnapshotId(stamp, hex) + Paths.SplitExt(filePath).1
  {
    var ext := Paths.SplitExt(filePath).1;
    var dir := root + "/" + Paths.Basename(filePath);
    var stem := SnapshotId(stamp, hex);
    IdHasNoDot(stamp, hex);
    Paths.SplitExtOfJoined(dir, stem, ext);
    assert dir + "/" + stem + ext == SnapshotPath(root, filePath, stamp, hex);
  }

  /**
    Reading a snapshot back right after creating it gives what the loader of
    the original's extension makes of the original's bytes, as long as that
    extension has a loader and the timestamp and hex hold no dot or separator.
   */
  lemma CreateThenRead(st: Store, root: string, filePath: string, remark: string, stamp: string, hex: string,
                       getText: (Loader, Option<Bytes>) -> Result<string, Error>)
    requires '.' !in stamp && '/' !in stamp && '.' !in hex && '/' !in hex
    requires CreateSnapshot(st, root, filePath, remark, stamp, hex).Success?
    requires GetLoader(st.registry, Paths.SplitExt(filePath).1).Some?
    ensures var (st', m) := CreateSnapshot(st, root, filePath, remark, stamp, hex).value;
      && m.snapshotPath.Some?
      && GetSnapshotContent(st', m.snapshotPath.value, getText)
         == getText(GetLoader(st.registry, Paths.SplitExt(filePath).1).value, Some(st.fs[filePath]))
  {
    var (st', m) := CreateSnapshot(st, root, filePath, remark, stamp, hex).value;
    var ext := Paths.SplitExt(filePath).1;
    var path := SnapshotPath(root, filePath, stamp, hex);
    SnapshotKeepsExtension(root, filePath, stamp, hex);
    assert m.snapshotPath == Some(path);
    assert Paths.SplitExt(path).1 == ext;
    assert GetLoader(st'.registry, ext) == GetLoader(st.registry, ext);
    assert path in st'.fs && st'.fs[path] == st.fs[filePath];
  }

  /** Distinct snapshot ids give distinct snapshot paths for the same file. */
  lemma DistinctPaths(root: string, work: string, stamp1: string, hex1: string, stamp2: string, hex2: string)
    requires SnapshotId(stamp1, hex1) != SnapshotId(stamp2, hex2)
    ensures SnapshotPath(root, work, stamp1, hex1) != SnapshotPath(root, work, stamp2, hex2)
  {
    var pre := root + "/" + Paths.Basename(work) + "/";
    var ext := Paths.SplitExt(work).1;
    assert SnapshotPath(root, work, stamp1, hex1) == pre + SnapshotId(stamp1, hex1) + ext;
    assert SnapshotPath(root, work, stamp2, hex2) == pre + SnapshotId(stamp2, hex2) + ext;
    if SnapshotPath(root, work, stamp1, hex1) == SnapshotPath(root, work, stamp2, hex2) {
      SameAffixes(pre, SnapshotId(stamp1, hex1), SnapshotId(stamp2, hex2), ext);
    }
  }

  /** Equal strings with a common prefix and a common suffix have equal middles. */
  lemma SameAffixes(pre: string, x: string, y: string, post: string)
    requires pre + x + post == pre + y + post
    ensures x == y
  {
    var s := pre + x + post;
    assert |x| == |y|;
    assert x == s[|pre|..|pre| + |x|];
    assert y == (pre + y + post)[|pre|..|pre| + |y|];
  }
}
