# DocSnap core, modelled in Dafny

DocSnap (officeMate) keeps snapshots of office documents. Each snapshot is a
byte copy of the document plus a metadata record in a JSON index. The app
compares two snapshots through a diff engine, shows the result as a table or
as two parallel columns, restores a document to a snapshot with an undo
stack, merges three versions of a text, and keeps a list of recent documents.
This project models that core as pure Dafny functions and a few methods, and
proves what each operation promises.

Modules follow the source files:

| module | models |
|---|---|
| `LoaderRegistry` | `core/snapshot_loaders/loader_registry.py`: the extension → loader map and `_normalize_ext` |
| `VersionDb` | `core/version_db.py`: the metadata index in memory and on disk |
| `RecentDb` | `core/recent_db.py`: the recent-documents list |
| `Merge` | `core/merge_utils.py`: `three_way_merge` |
| `DiffEngine` | `core/diff_engine.py`: strategy selection and failure results |
| `CoreParagraph` | `core/diff_strategies/paragraph_strategy.py`: the engine's paragraph strategy |
| `Markup`, `AppParagraph` | `app/diff_strategies/paragraph_strategy.py`: the 2.0 strategy, with formatting markers, `_plain`, folding of unchanged spans and the escape hatch for large dissimilar documents |
| `ChunkTable` | `app/models/diff_chunk_model.py` and `app/widgets/paragraph_diff_table_view.py`: chunk rows |
| `ParallelView` | `app/widgets/parallel_diff_view.py`: `_render_inline` and `load_chunks` |
| `SnapshotManager`, `Listing` | `core/snapshot_manager.py`: create, delete, list, read, restore and undo |

The other modules hold shared pieces:

- `Wrappers`: Option and Result.
- `Text`: Python's `join`, `str(int)`, `lstrip` and `splitlines`, and `lower` on ASCII letters only.
- `Paths`: `os.path` and `pathlib` helpers.
- `Opcodes`: the aligner's opcode lists.
- `Chunks`: chunks, inline ops and `DiffResult`.
- `Extraction`: the shapes of a loader's `load_structured` result.

Several parts of the program are parameters of the model:

- **The sequence matcher (`difflib.SequenceMatcher`).** It is an oracle. A function takes an opcode list known only to satisfy `Opcodes.ValidOpcodes`, or an aligner function known to satisfy `Opcodes.IsAligner`. Every property below therefore holds for every valid alignment, not just for the one difflib picks.
- **Escaping and text.** `html.escape`, the localised fold marker and a loader's `get_text` are function parameters.
- **Clock and ids.** The clock's timestamp and the uuid hex are string parameters.
- **The file system.** It is a map from path to bytes.
- **Qt signals.** They are an event log in the store.
- **Dictionaries that may lack keys.** Chunk dicts and metadata records have `Option` fields.
- **Exceptions.** They are `Result` failures.

The methods are `SnapshotManager.Restore`, `SnapshotManager.Undo`, `AppParagraph.DiffLoop`, `ParallelView.LoadCells` and `ParallelView.LoadChunks`. When a method raises part-way, it returns the state as it was at the exception, together with the error.

`_render_inline` drops `replace` inline ops (see Findings). `ParallelView.OpPieces`, `CellOf`, `LoadChunks` and `ReplaceRowShowsBothTexts` state the corrected rendering. `OpPiecesAsWritten`, `RenderInlineAsWritten`, `CellOfAsWritten` and `LoadChunksAsWritten` model the program as written, and lemmas relate the two.

## Model

| member | source | states |
|---|---|---|
| LoaderRegistry.NormalizeExt | core/snapshot_loaders/loader_registry.py:70-74 | the key is the lower-cased extension after its leading dots, so it has no upper-case ASCII letter, does not start with a dot, and is no longer than the extension |
| Text.AsciiLower | core/snapshot_loaders/loader_registry.py:74 | lowering keeps the length, maps each upper-case ASCII letter to its lower-case letter and keeps every other character |
| LoaderRegistry.NormalizeIdempotent | core/snapshot_loaders/loader_registry.py:70-74 | normalising a normalised extension changes nothing |
| LoaderRegistry.NormalizeExample | core/snapshot_loaders/loader_registry.py:18-19 | ".TXT" and "txt" normalise to the same key "txt" |
| LoaderRegistry.Register | core/snapshot_loaders/loader_registry.py:40-54 | an empty extension fails (ValueError); otherwise the normalised key maps to the loader, it is the only key added, and every other key keeps its loader |
| LoaderRegistry.GetLoader | core/snapshot_loaders/loader_registry.py:57-66 | a loader is found exactly when the extension is non-empty and its normalised key is registered, and it is the registered one |
| LoaderRegistry.RegisterThenGet | core/snapshot_loaders/loader_registry.py:40-66 | after registering under an extension, every non-empty spelling with the same normalised key finds that loader |
| LoaderRegistry.RegisterKeepsOthers | core/snapshot_loaders/loader_registry.py:40-66 | registering leaves the lookup of every other normalised key unchanged |
| VersionDb.Save | core/version_db.py:31-33 | disk receives the whole in-memory index |
| VersionDb.Reload | core/version_db.py:35-38 | memory is replaced by what is on disk, and disk is unchanged |
| VersionDb.GetVersions | core/version_db.py:22-23 | the document's list, or the empty list for an unknown document |
| VersionDb.SaveVersion | core/version_db.py:18-20 | the record is appended to the document's list (created if absent), no other list changes, and memory and disk agree afterwards |
| VersionDb.Without | core/version_db.py:28 | the filtered list keeps every record different from the target, adds nothing, and holds no copy of the target |
| VersionDb.RemoveVersion | core/version_db.py:25-29 | unknown document: nothing changes, and nothing is saved; otherwise the document's list is filtered, other lists are kept, and memory and disk agree |
| VersionDb.WithoutAppend | core/version_db.py:28 | filtering distributes over concatenation, so kept records keep their order |
| VersionDb.SaveThenGet | core/version_db.py:18-23 | after saving, the document's list is the old list plus the record, and every other document's list is unchanged |
| VersionDb.SaveThenRemove | core/version_db.py:18-29 | removing a record just saved, that was not present before, restores the earlier list |
| VersionDb.ReloadAfterMutation | core/version_db.py:18-38 | after a save or a removal, reloading changes nothing |
| RecentDb.Add | core/recent_db.py:16-21 | a path already listed leaves the list unchanged; a new path is put first and the old list follows unchanged, so exactly one entry is added |
| RecentDb.AddIdempotent | core/recent_db.py:16-21 | adding the same path twice is adding it once |
| RecentDb.AddKeepsNoDuplicates | core/recent_db.py:18-19 | a list without duplicates stays without duplicates |
| RecentDb.AddAllLists | core/recent_db.py:16-21 | after any sequence of adds, every visited path is listed, nothing else is added, nothing is listed twice, and a path visited last, and never before, is first |
| Merge.Slice | core/merge_utils.py:22 | Python slicing agrees with Dafny slicing inside bounds, runs to the end when `hi` is past it, and is empty when `lo` is at or past the end |
| Merge.Walk | core/merge_utils.py:20-31 | every line the loop emits is a local line or a remote line |
| Merge.MergeLines | core/merge_utils.py:13-31 | every merged line is a local line or a remote line |
| Merge.ThreeWayMerge | core/merge_utils.py:7-32 | when local's lines equal base's, the merged text is remote's lines joined with newlines |
| Merge.MergeIsPositional | core/merge_utils.py:20-32 | the cursor into the local lines always equals the base position, so the merge is each opcode's contribution followed by the local lines past the end of base |
| Merge.UnchangedLocalGivesRemote | core/merge_utils.py:7-11 | if local equals base, the merge is remote, for every valid alignment |
| Merge.UnchangedRemoteGivesLocal | core/merge_utils.py:7-11 | if every span is equal (remote made no change), the merge is local |
| Merge.LocalTailKept | core/merge_utils.py:31 | local lines past the end of base end the merge unchanged |
| Merge.MergedLength | core/merge_utils.py:20-31 | when local is at least as long as base, the merge has \|remote\| + \|local\| − \|base\| lines |
| Merge.MergedLinesDrawnFromInputs | core/merge_utils.py:20-31 | every merged line is a local line or a remote line |
| Merge.MergedTextSplitsBack | core/merge_utils.py:13-32 | the merged text splits back into the merged lines, unless the last merged line is empty |
| Merge.RemoteWinsExample | core/merge_utils.py:7-11 | when both sides edit the same line, remote's edit wins |
| Text.SplitJoinedLines | core/merge_utils.py:13-15 | `splitlines` undoes joining with a newline when no line holds a boundary and the last line is non-empty |
| Text.NatToStringRoundTrip | app/models/diff_chunk_model.py:41-42 | the decimal digits of `str(n)` read back as `n` |
| Text.SplitLines | core/merge_utils.py:13-15 | no line of the result holds a line boundary |
| Paths.Basename | core/snapshot_manager.py:55 | the final component holds no `/` and ends the path, right after a `/` when shorter than the path |
| Paths.SplitExt | core/snapshot_manager.py:56 | the two parts rebuild the path; the extension is empty or a dot followed by no dot and no `/` |
| Paths.Suffix | core/diff_engine.py:50-51 | a non-empty suffix starts with a dot, has at least two characters, ends the final component without being all of it, and holds no further dot or `/`; a final component without a dot has no suffix |
| Paths.SuffixOfJoined | core/diff_engine.py:50-51 | a file `name.x` in any directory, with a non-empty name and a non-empty extension `x` without dots, has suffix `.x` |
| Paths.PathJoin | core/snapshot_manager.py:203 | an absolute second part replaces the first; otherwise it is appended after at most one inserted `/` |
| Paths.SplitExtOfJoined | core/snapshot_manager.py:56-62 | a file name placed in a directory keeps its extension and its base name |
| Paths.SuffixOfDotFile | core/diff_engine.py:50-51 | a leading-dot name such as `.bashrc` has no suffix and no extension |
| Chunks.InlineRoundTrip | app/diff_strategies/paragraph_strategy.py:110-116 | joining the old fragments of the inline ops gives the old text, and joining the new fragments gives the new text |
| Chunks.ToDict | app/diff_strategies/paragraph_strategy.py:153-155 | a skip chunk's dict has no indices and a paragraph chunk's dict has both, and every dict has a tag |
| Extraction.Characters | core/diff_strategies/paragraph_strategy.py:60-61 | a loader that returns a str yields one paragraph per character |
| CoreParagraph.ParagraphTexts | core/diff_strategies/paragraph_strategy.py:49-66 | an exception, a missing loader or an empty result gives no paragraphs; a list of str is kept; dicts give their `text` values when all have one, otherwise `str()` of every element; a str gives its characters |
| CoreParagraph.AgreesWithDecoratedVersion | core/diff_strategies/paragraph_strategy.py:49-66 | on results without runs or paragraph attributes, the 2.0 extraction with every detection flag off gives the same paragraphs |
| CoreParagraph.Supports | core/diff_strategies/paragraph_strategy.py:69-74 | a pair is supported only when both loaders exist |
| CoreParagraph.Diff | core/diff_strategies/paragraph_strategy.py:76-120 | every chunk is a paragraph chunk that fits its opcode span; the chunks, in order, stand for both documents whole, each chunk starting where the previous one ended on both sides; the raw text renders lines whose context and `- ` lines spell the old paragraphs and whose context and `+ ` lines spell the new ones, one line per paragraph except that an equal pair shares one |
| CoreParagraph.RawReconstructsBoth | core/diff_strategies/paragraph_strategy.py:89-118 | the context and `- ` lines spell out the old paragraphs, and the context and `+ ` lines the new ones, in order |
| CoreParagraph.RawLineCount | core/diff_strategies/paragraph_strategy.py:89-118 | one raw line per old and per new paragraph, except that an equal pair shares one |
| CoreParagraph.ChunksFit | core/diff_strategies/paragraph_strategy.py:89-118 | no chunk is a skip or has inline ops; an equal chunk starts at its span on both sides and carries the newline-join of that span, the same on both sides; a replace chunk starts at its span on both sides and carries the newline-join of each side's span; each delete or insert chunk is one paragraph with -1 and "" on the missing side |
| CoreParagraph.ChunksTile | core/diff_strategies/paragraph_strategy.py:89-118 | cutting both documents at each chunk's start gives, in order, exactly the chunks' spans: an equal or replace chunk covers its opcode's whole span, a delete or insert chunk covers one paragraph, and the cuts run from the start to the end of both documents |
| CoreParagraph.ReplaceExample | core/diff_strategies/paragraph_strategy.py:106-118 | two old paragraphs replaced by one give one chunk of joined texts, and the raw lines put the old lines first |
| DiffEngine.Select | core/diff_engine.py:55-56 | the chosen strategy supports the pair, and no earlier one does; none is chosen only when no strategy supports it |
| DiffEngine.AlwaysSelects | core/diff_engine.py:40-43 | a strategy is always chosen, and it is the paragraph strategy exactly when both loaders have a callable `load_structured` |
| DiffEngine.CompareFiles | core/diff_engine.py:46-65 | the result is the paragraph strategy's outcome when both suffixes' loaders have a callable `load_structured`, otherwise the text strategy's; a raised exception becomes that strategy's failure result |
| DiffEngine.CompareFilesOutcome | core/diff_engine.py:46-65 | the chosen strategy's result is returned; if it raises, the result names the strategy and carries no chunks; no other strategy is tried |
| DiffEngine.UnknownSuffixUsesText | core/diff_engine.py:50-53 | a file whose suffix has no loader falls back to the text strategy |
| DiffEngine.FailureNamesStrategy | core/diff_engine.py:60-63 | a failure result quotes the strategy's class name and ends with the message, and carries no chunks |
| Markup.TagLength | app/diff_strategies/paragraph_strategy.py:27 | a match of `<[^>]+>` at the start is a `<`, at least one character other than `>`, then the first `>` |
| Markup.Plain | app/diff_strategies/paragraph_strategy.py:30-32 | the stripped text is no longer than the input |
| Markup.PlainOfBracketFree | app/diff_strategies/paragraph_strategy.py:30-32 | a text with no `<` is kept as it is |
| Markup.PlainIdempotent | app/diff_strategies/paragraph_strategy.py:30-32 | stripping markup twice is stripping it once |
| Markup.PlainLeavesNoMarker | app/diff_strategies/paragraph_strategy.py:30-32 | the stripped text holds no marker |
| Markup.PlainDropsMarker | app/diff_strategies/paragraph_strategy.py:30-32 | a marker with a non-empty body free of `>` is removed whole |
| Markup.PlainChars | app/diff_strategies/paragraph_strategy.py:30-32 | every character kept comes from the input |
| Markup.ParagraphTexts | app/diff_strategies/paragraph_strategy.py:34-107 | a missing or raising loader fails; None gives no paragraphs; a list of str is kept; each dict gives its decorated text and every other element its `str()` |
| Markup.PlainOfDecorated | app/diff_strategies/paragraph_strategy.py:58-106 | whatever the flags, stripping the markers of a decorated paragraph gives its bare content, which is also what it renders to with every flag off |
| Markup.RunsTokensSafe | app/diff_strategies/paragraph_strategy.py:73-104 | the markers added to runs are well formed, and the runs' literal text is their content |
| Markup.HeadMarkersSafe | app/diff_strategies/paragraph_strategy.py:58-67 | the `ls`, `align` and `num` markers are well formed and add no literal text |
| Markup.TableTokensSafe | app/diff_strategies/paragraph_strategy.py:79-86 | the table markers are well formed and the literal text is the table text |
| Markup.NoMarkersWhenOff | app/diff_strategies/paragraph_strategy.py:73-104 | with every flag off, the runs render to their bare content |
| Markup.RunMarkerOrder | app/diff_strategies/paragraph_strategy.py:88-104 | with every flag on, bold is the innermost marker and color the outermost |
| AppParagraph.SupportsAcceptsMore | app/diff_strategies/paragraph_strategy.py:119-122 | this version accepts every pair the engine's version accepts, and beyond those exactly the pairs with a non-callable `load_structured`; a missing loader is refused |
| AppParagraph.Supports | app/diff_strategies/paragraph_strategy.py:119-122 | a pair is supported only when both loaders exist |
| AppParagraph.PlainAll | app/diff_strategies/paragraph_strategy.py:131-132 | one stripped text per paragraph, in order |
| AppParagraph.InlineOpsOf | app/diff_strategies/paragraph_strategy.py:110-116 | the old fragments spell the old text and the new fragments the new text |
| AppParagraph.DiffLoop | app/diff_strategies/paragraph_strategy.py:150-210 | the loop over the opcodes builds exactly the chunks and raw lines of the reference definition; every chunk fits the paragraph lists, and the chunks in order cover both documents whole |
| AppParagraph.Diff | app/diff_strategies/paragraph_strategy.py:124-210 | the result always carries chunks; every chunk fits the paragraph lists, and the chunks in order cover both documents whole, each starting where the previous one ended; outside the escape hatch, equal chunks plus skip counts add up to the total length of the equal spans; in the escape hatch, the one chunk is a replace at index 0 on both sides holding each whole document joined with newlines |
| AppParagraph.EscapeHatchShape | app/diff_strategies/paragraph_strategy.py:135-148 | more than 200 paragraphs together with a low ratio give one replace chunk at index 0 holding both documents, inline ops spelling both, and exactly two raw lines |
| AppParagraph.FoldLong | app/diff_strategies/paragraph_strategy.py:160-176 | an equal span longer than 6 becomes 3 equal chunks, a skip of length − 6, and 3 equal chunks, with the fold marker between the context lines |
| AppParagraph.FoldShort | app/diff_strategies/paragraph_strategy.py:177-183 | an equal span of at most 6 gives one equal chunk and one context line per paragraph |
| AppParagraph.FoldingKeepsCount | app/diff_strategies/paragraph_strategy.py:157-183 | equal chunks plus skip counts add up to the total length of the equal spans |
| AppParagraph.ChunksFit | app/diff_strategies/paragraph_strategy.py:157-208 | every chunk fits: an equal chunk is one paragraph on each side, the old and new paragraphs at its indices, whose plain texts agree; delete and insert chunks are one paragraph with -1 and "" on the missing side; a replace chunk starts at its span and carries the newline-join of each side's span, and its inline ops spell both texts; a skip counts at least one paragraph |
| AppParagraph.ChunksTile | app/diff_strategies/paragraph_strategy.py:135-208 | cutting both documents at each chunk's start gives, in order, exactly the chunks' spans: an equal chunk or a skip covers as many paragraphs on each side, a replace covers its opcode's span, a delete or insert covers one paragraph, the escape hatch's chunk covers both documents, and the cuts run from the start to the end of both documents |
| AppParagraph.MarkupOnlyChangeIsEqual | app/diff_strategies/paragraph_strategy.py:131-134 | bold "x" against plain "x" pairs as an equal chunk that keeps both decorated texts |
| ChunkTable.LineNumber | app/models/diff_chunk_model.py:41-42 | empty exactly for a missing or negative index; otherwise decimal digits reading as index + 1 |
| ChunkTable.SymbolAndText | app/models/diff_chunk_model.py:43-54 | `+`, `-` and `~` mark insert, delete and replace, and nothing else; insert and replace show the new text, all other tags the old text |
| ChunkTable.PrepareRows | app/models/diff_chunk_model.py:37-56 | one row per chunk, in order |
| ChunkTable.RowOf | app/models/diff_chunk_model.py:39-55 | the row keeps the tag ("equal" when missing); a line number is blank exactly for a missing or negative index; there is a symbol exactly for insert, delete and replace |
| ChunkTable.RowCount | app/models/diff_chunk_model.py:59-60 | one row per chunk |
| ChunkTable.ColumnCount | app/models/diff_chunk_model.py:62-63 | one column per header |
| ChunkTable.RowOfChunk | app/models/diff_chunk_model.py:40-55 | a strategy chunk's row has its tag, symbol, shown text, and 1-based line numbers, blank for -1 |
| ChunkTable.RowOfMissingKeys | app/models/diff_chunk_model.py:40-54 | a missing tag reads as "equal" with no symbol, missing indices as blank line numbers, and missing texts as "" |
| ChunkTable.PrepareRowsStrict | app/widgets/paragraph_diff_table_view.py:64-83 | fails exactly when some chunk lacks `a_idx` or `b_idx`, naming that key |
| ChunkTable.StrictAgreesWithLenient | app/widgets/paragraph_diff_table_view.py:64-83 | where the strict table builds rows, they are the lenient table's rows |
| ChunkTable.StrictFailsOnSkip | app/widgets/paragraph_diff_table_view.py:68-69 | on strategy chunks, the strict table fails exactly when there is a skip chunk (on `a_idx`), and the lenient table always has one row per chunk |
| ParallelView.OrNbsp | app/widgets/parallel_diff_view.py:81 | never empty, and a non-empty string is kept |
| ParallelView.OpPieces | app/widgets/parallel_diff_view.py:64-80 | (corrected rendering) each inline op shows at most one piece; nothing only for delete on the new side and insert on the old side; the old side is never highlighted and the new side never struck |
| ParallelView.OpPiecesAsWritten | app/widgets/parallel_diff_view.py:78-80 | as written, a replace op shows nothing, and every other op shows what the corrected rendering shows |
| ParallelView.RenderInlineAsWritten | app/widgets/parallel_diff_view.py:58-81 | never empty, and `&nbsp;` for an empty list |
| ParallelView.PiecesSpellSide | app/widgets/parallel_diff_view.py:58-81 | with replace shown, each side spells exactly its own text |
| ParallelView.AsWrittenAgreesWithoutReplace | app/widgets/parallel_diff_view.py:64-81 | without replace ops, the rendering as written and the corrected one agree |
| ParallelView.AsWrittenShortfall | app/widgets/parallel_diff_view.py:78-80 | as written, a side falls short of its text by exactly the length of its replace fragments |
| ParallelView.AsWrittenLosesText | app/widgets/parallel_diff_view.py:78-80 | as written, any replace op in the character alignment makes both columns lose text |
| ParallelView.AsWrittenDropsReplacedText | app/widgets/parallel_diff_view.py:78-80 | "abc" against "axc": the new column as written shows "ac" |
| ParallelView.SkipHtml | app/widgets/parallel_diff_view.py:125-128 | the fold row starts with the skip span and then the count |
| ParallelView.CellOf | app/widgets/parallel_diff_view.py:103-128 | (corrected rendering) a line exactly for the five known tags; both sides non-empty; equal and skip show the same on both sides; insert leaves the left blank and delete the right; a missing inline list leaves both blank |
| ParallelView.CellOfAsWritten | app/widgets/parallel_diff_view.py:103-128 | as written: a line exactly for the five known tags, both sides non-empty, the same symbol as the corrected line, the corrected line for every tag but replace, and blank sides for a replace without inline ops |
| ParallelView.AsWrittenCellAgreesWithoutReplace | app/widgets/parallel_diff_view.py:78-80 | a chunk whose inline ops hold no replace gets the same line as written and corrected |
| ParallelView.RowsAsWrittenSameLines | app/widgets/parallel_diff_view.py:91-128 | as written, the same lines are numbered with the same numbers and symbols as corrected, and the lines are identical when no chunk holds a replace op |
| ParallelView.RowsNumberShownChunks | app/widgets/parallel_diff_view.py:91-128 | one line per chunk with a known tag, in order, numbered consecutively |
| ParallelView.LoadCells | app/widgets/parallel_diff_view.py:88-132 | the loop appends each present cell's line to both columns with a running number, and joins each column with `<br>` |
| ParallelView.LoadChunks | app/widgets/parallel_diff_view.py:84-132 | (corrected rendering) the two documents are the columns of the numbered lines of the chunks, joined with `<br>` |
| ParallelView.LoadChunksAsWritten | app/widgets/parallel_diff_view.py:84-132 | as written, the two documents are the columns of the numbered as-written lines, joined with `<br>`, and they are the corrected documents when no chunk holds a replace op |
| ParallelView.StrategyChunksAllShown | app/widgets/parallel_diff_view.py:103-128 | every chunk a strategy builds gets a line |
| ParallelView.ReplaceRowShowsBothTexts | app/widgets/parallel_diff_view.py:5-7 | (corrected rendering) a replace chunk's line spells out the whole old text on the left and the whole new text on the right, as the view's description intends |
| ParallelView.ReplaceRowAsWrittenLosesText | app/widgets/parallel_diff_view.py:78-80 | as written, a replace chunk whose character alignment holds a replace op shows a left side that does not spell the old text and a right side that does not spell the new text |
| SnapshotManager.CopyFile | core/snapshot_manager.py:65 | fails exactly for a missing source or a copy onto itself; otherwise the destination gets the source's bytes |
| SnapshotManager.WithBakLoader | core/snapshot_manager.py:78-88 | afterwards `.bak` has a loader, no key is lost, and an existing `.bak` loader is kept |
| SnapshotManager.CreateSnapshot | core/snapshot_manager.py:43-91 | a non-file is refused; otherwise the bytes are copied to `<root>/<name>/<id><ext>`, one record is appended under the base name, `.bak` gets a loader, and one `created` event is emitted |
| SnapshotManager.DeleteSnapshot | core/snapshot_manager.py:93-102 | the content file is gone, no other file changes, equal records are removed, and one `deleted` event is emitted |
| SnapshotManager.ListSnapshots | core/snapshot_manager.py:104-111 | a permutation of the persisted records; the in-memory list becomes the sorted one; disk, files and events are unchanged |
| SnapshotManager.ListSnapshotsOrder | core/snapshot_manager.py:108-110 | newest first, records with equal timestamps keep their stored order, and listing again gives the same list |
| Listing.SortDesc | core/snapshot_manager.py:110 | the sorted list is a permutation of the input |
| SnapshotManager.GetSnapshotContent | core/snapshot_manager.py:132-136 | an extension without a loader fails with "Unsupported snapshot format"; otherwise the answer is exactly the loader's, given the file's bytes or nothing when the file is missing, so the loader alone decides what a missing file means |
| SnapshotManager.GetWorkFile | core/snapshot_manager.py:189-203 | an existing recorded path wins; otherwise a missing `snapshot_path` or `file` key fails |
| SnapshotManager.SnapId | core/snapshot_manager.py:153 | a non-empty `snapshot_id` is used as is; otherwise the result is the stem of the content file's base name, which it rebuilds with the extension |
| SnapshotManager.CanUndo | core/snapshot_manager.py:174-175 | true exactly when the undo stack is non-empty |
| SnapshotManager.Restore | core/snapshot_manager.py:146-172 | a missing work file changes nothing; a completed restore overwrites the work file with the target's bytes, keeps the old bytes in the backup copy, gives the restore-marker copy the restored bytes, adds backup and restore records and events, and pushes one undo point; no other file and no other document's records change, memory and disk agree, and `.bak` has a loader; a failure pushes no undo point |
| SnapshotManager.Undo | core/snapshot_manager.py:177-185 | an empty stack is a no-op; otherwise the top entry is popped and the backup's bytes are copied over the work file |
| SnapshotManager.RestoreThenUndo | core/snapshot_manager.py:146-185 | a restore followed by an undo gives the work file its earlier bytes and the undo stack its earlier state |
| SnapshotManager.CreateRefusesNonFile | core/snapshot_manager.py:51-52 | a path that is not a file is refused before anything is copied or recorded |
| SnapshotManager.CreateThenDelete | core/snapshot_manager.py:43-102 | deleting the snapshot just created removes its file and restores the document's record list |
| SnapshotManager.CreateRecordsCopy | core/snapshot_manager.py:43-91 | a created snapshot's record is appended to the document's list, its content file holds the original's bytes, and the original is unchanged |
| SnapshotManager.CreateThenRead | core/snapshot_manager.py:43-136 | reading a snapshot just created hands the original extension's loader exactly the original file's bytes |
| SnapshotManager.SnapshotKeepsExtension | core/snapshot_manager.py:56-62 | the snapshot copy keeps the original's extension, so the same loader reads it |
| SnapshotManager.DistinctPaths | core/snapshot_manager.py:61-62 | distinct snapshot ids give distinct snapshot paths |

## Left out

- The alignment algorithm itself (`difflib.SequenceMatcher`, its `autojunk` and its `quick_ratio`): the opcodes are an oracle constrained only by validity, and `quick_ratio() < 0.3` is a boolean parameter.
- File I/O, JSON encoding, `mkdir` and the snapshot directories: the file system is a map from path to bytes, and the JSON index is a value.
- `datetime.now()` and `uuid4`: the timestamp and the hex are parameters.
- Qt signals: an event log in the store. Qt settings (`diff/detect_*`): a `Markup.Flags` record. The localised fold text (`_`): a function parameter.
- `html.escape`: a function parameter.
- The loaders' file parsing (DOCX, TXT, the `.bak` fallback's `open`): `load_structured` results are the `Extraction.Extracted` shapes, and `get_text` is a function parameter applied to the file's bytes.
- SnapshotManager.GetSnapshotContent: the loaders themselves are parameters, so how a particular loader treats a missing or corrupt file (the `.bak` fallback answers "(binary content)", the DOCX loader raises) is not modelled.
- The text strategy: it is modelled only by the fact that it supports every pair.
- `core/snapshot.py` is not part of this model; it is a legacy helper that the core does not call.
- Qt presentation: `DiffChunkModel.data`/`headerData` and their colours, the table view's delegate, scroll synchronisation, `setHtml`, and the symbol colours (`ParallelView.SymbolColor` computes them, but no property is stated).
- `SnapshotManager.compare_snapshots`: it only calls `compare_files`, which `DiffEngine` models.
- The unused `sym_lines` list of `load_chunks`.
- The constructors of `RecentDocDB` and `SnapshotRepository`, which create the JSON files.
- CoreParagraph.ParagraphTexts: a list whose first element is a str is modelled as a list of str; other element types later in such a list are not modelled.
- LoaderRegistry.NormalizeExt: only ASCII letters are lowered. Python's `str.lower` lowers every cased letter and can lengthen a string, so `|key| <= |ext|` holds of the model only.
- Paths.Suffix: a path ending in `/` has no suffix here, while `pathlib` drops the trailing slash first (`Path("d/a.txt/").suffix` is `.txt`).
- Markup.ParagraphTexts: a paragraph dict whose `text` is present with the value `None` (a `TypeError` in the source's join) reads as "".
- CoreParagraph.ParagraphTexts: a loader that returns a dict rather than a list is not modelled; in the source `struct[0]` raises a `KeyError` that nothing in `_paragraph_texts` catches.
- ParallelView.OpPieces: states the corrected rendering of `replace` inline ops; the source shows nothing for them, which `OpPiecesAsWritten` models.
- ParallelView.CellOf: a replace chunk's line uses the corrected rendering; `CellOfAsWritten` is the line as written.
- ParallelView.LoadChunks: builds on the corrected `CellOf`; `LoadChunksAsWritten` is `load_chunks` as written.
- ParallelView.ReplaceRowShowsBothTexts: holds of the corrected rendering only; `ReplaceRowAsWrittenLosesText` shows the program as written falls short of it.
- ChunkTable.LineNumber: an index key present with the value `None` (a `TypeError` in the source) is not modelled; a key is either missing or an integer.
- SnapshotManager.Undo: the final "Undo Restore" snapshot is stated through its event only, not through the files and records it adds.

## Findings

| source | as written | input that shows it | evidently intended | confidence | as-written member | corrected member |
|---|---|---|---|---|---|---|
| app/widgets/parallel_diff_view.py:78-80 | `_render_inline` shows nothing for a `replace` inline op, on the assumption that the sequence matcher never produces one | a replace chunk with old text "abc" and new text "axc": the character alignment has the op replace "b"→"x", and the new column shows "ac" (the old column shows "ac" too) | the replaced fragment shown struck on the old side and highlighted on the new side, so that each column spells out its whole text | not executed | ParallelView.AsWrittenDropsReplacedText | ParallelView.PiecesSpellSide |
