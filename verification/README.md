# goDrive verification model

goDrive keeps users' files on disk and treats the filesystem as the truth. SQLite holds tables derived
from it (file index, search names, document text, snippets) plus the records of uploads and trash. This
project models the parts of goDrive whose correctness spans several operations, in Dafny 4.11, and
proves what they are for. `dafny verify dfyconfig.toml` checks everything.

The model takes the form of the code it follows: the tables, the upload server, the disk, the trash
service, the rate limiter, the watcher and the cleanup job are classes whose methods change fields; the
batching consumer, the copy, the walks and the parsers are loops; paths, patterns, cursors, timestamps,
base64 and configuration checks are functions. Whether a system call or query fails, or the
process stops, a walk meets an error, a cancel comes or an answer is lost, is the answer of one small method
(`Fails`, `Fault`, `Stops`, `WalkStep`, `Err`, `Loses`) that counts it in a ghost counter. So every statement covers all failures at all points, no operation can fail on its own
account, and success is stated too: what happens when the counters did not move. Where the code does not
do what one would expect of it, the code is modelled as it is and the exact condition under which it
does is proved (lemmas named `...Iff`). The list below names each
such result, with an input that fails the condition where the condition alone does not show one.

| file | subject |
|---|---|
| `Strings.dfy` | byte-wise order, ASCII case, splitting, decimal numbers |
| `LogicalPaths.dfy` | path.Clean, CleanLogical, JoinLogical, Rel and the three containment tests |
| `StorageLayout.dfy` | storage layout validation |
| `WatchRoots.dfy` | mapping a physical path to its user |
| `LikePattern.dfy` | LIKE with ESCAPE, and the subtree patterns built from escaped paths |
| `IndexStore.dfy` | the derived tables and their transactions |
| `Reindex.dfy` | the incremental scan and the full reindex job |
| `ScanPipeline.dfy`, `ScanDelivery.dfy` | walker, workers, closer and consumer as a state machine |
| `FileSystem.dfy` | rename, copyPath, RemoveAll and movePath on trees |
| `FileService.dfy` | folders, moves, trash and finalized uploads |
| `IndexMoves.dfy`, `ScopedReindex.dfy` | index, search names and texts after a move, and after reindexing one path |
| `FolderPaging.dfy` | cursor paging from the index and from the filesystem |
| `Names.dfy` | first-free names and zip entry names |
| `UploadServer.dfy`, `UploadClient.dfy` | resumable uploads with crashes, and resuming clients |
| `Timestamps.dfy`, `UploadCleanup.dfy` | stored timestamps as text, expiry and orphan removal |
| `LoginLimiter.dfy` | the login rate limiter |
| `Base64.dfy`, `PasswordHash.dfy`, `UploadMetadata.dfy` | parsers that undo their printers |

Results that differ from what the surrounding documentation or names suggest:

- A row with a current size and mtime is never rewritten, so a scan equals one from scratch exactly when no such row is out of date in its type, folder, name, MIME type or kind (`Reindex.IncrementalIsScratchIff`). It is when a folder becomes a file of its size and mtime (`Reindex.TypeFlipIsKept`), and when the kind table changes between jobs (`Reindex.OldKindIsKept`).
- The text of a file whose row was written by a scan that did not apply its staging is not indexed by any number of later completed jobs (`Reindex.MissedTextStays`). Such scans are jobs that stop (`Reindex.InterruptedScanLosesText`) and all folder refreshes of the API (`Reindex.UnappliedScanMissesText`).
- After a move the search names agree with the index exactly when a file was moved (`IndexMoves.MoveKeepsNamesIff`), and all text is stored exactly when it was a file, or a folder without text files, and no text file was a case twin (`IndexMoves.MoveKeepsTextsIff`).
- A path reindex does not rebuild the search names: they stay right exactly when the folder held no new entry (`ScopedReindex.FolderJobNamesIff`).
- A missing home root empties the user's index in a full job (`Reindex.MissingRootClearsIndex`), while a path reindex of "/" then removes nothing (`ScopedReindex.MissingRepairsIff`, `ScopedReindex.AnyRowIsKept`) and reports that stale entries were removed.
- When the snapshot fails to load, the scan returns at once and its goroutines all end exactly when the tree fits the result channel; beyond that workers, and in a larger tree the walker, stay blocked until a cancel (`ScanPipeline.AbandonedScanEndsIff`).
- A path reindex below a path that has become a file fails and leaves the stale rows there (`ScopedReindex.RunReindexPath`).
- Subtree deletes also remove folders whose names differ only in ASCII case (`LikePattern.RangeIsSubtreeIff`, `LikePattern.CaseTwinExists`).
- A move request that spells its source uncleanly removes no row (`IndexMoves.UncleanDeletesNothing`, `IndexMoves.MoveKeepsIndexIff`); a path without its leading slash is one (`IndexMoves.UnrootedLeavesRow`).
- Paging a static folder shows every entry for all limits in 1..1999 exactly when no two siblings are equal ignoring case (`FolderPaging.PagingCompleteIff`, `FolderPaging.CaseTwinsAreSkipped`).
- At limit 2000 the index path loses `has_more` (`FolderPaging.HasMoreRightIff`, `FolderPaging.HasMoreLostAt2001`), and the filesystem path does not (`FolderPaging.FallbackPage`).
- A cross-device move drops setuid, setgid, sticky and umasked bits (`FileSystem.CopyMoveIsRenameIff`, `FileSystem.UmaskedBitIsLost`).
- If the target of a copy already exists, undoing the failed copy removes it (`FileSystem.Disk.CopyOrUndo`).
- A resume delivers exactly when some byte is still missing (`UploadClient.Resume`). An upload whose last bytes were accepted and then could not be placed, because its folder was gone or the server stopped before placing them, reports its full length, is taken for sent, and no resume ever delivers it (`UploadClient.ResumeWaiting`, `UploadClient.SendIntoMissingFolder`); an empty PATCH would (`UploadClient.EmptyPatch`).
- Expiry compares timestamps as text and is wrong within a second for nested fractions (`Timestamps.TextOrderIff`, `Timestamps.HalfBeforeWhole`).
- An Upload-Metadata pair with an empty value is dropped (`UploadMetadata.MetadataRoundTripIff`, `UploadMetadata.EmptyValueIsDropped`).
- Rate limiter cleanup forgets the open failure window of a key that was blocked before (`LoginLimiter.CleanupNoticedIff`, `LoginLimiter.ForgottenWindow`); the bound per five minutes is 18, and it is reached.
- The watcher reports a physical path below its root as it is exactly when no name in it holds a backslash (`WatchRoots.ResolvesToItselfIff`, `WatchRoots.BackslashIsTakenForSlash`).

## Model

| member | source | states |
|---|---|---|
| LogicalPaths.CleanLogicalSound | internal/files/paths.go:25-49 | CleanLogical fails exactly on NUL or a ".." element (after backslashes became slashes), and otherwise returns the clean rooted path of valid base names |
| LogicalPaths.CleanLogicalMeaning | internal/files/paths.go:25-49 | outright: NUL and a ".." piece between slashes or backslashes are refused, and otherwise the result is the rooted path of all pieces other than "" and ".", in order |
| LogicalPaths.CleanRooted | internal/files/paths.go:44-48 | path.Clean of a rooted path, computed front to back, is the path of what stays when read back to front: each ".." takes the nearest name before it |
| LogicalPaths.CleanUnrooted | internal/config/config.go:379-385 | path.Clean of any other path is the same after its unanswered "..", and "." for nothing |
| LogicalPaths.AbsMeaning | internal/config/config.go:379-385 | an absolute path stands by itself, a relative one is read after the working directory |
| LogicalPaths.CleanLogicalFixed | internal/files/paths.go:25-49 | every clean path of valid names is returned unchanged |
| LogicalPaths.CleanLogicalIdempotent | internal/files/paths.go:25-49 | cleaning a cleaned path changes nothing and cannot fail |
| LogicalPaths.CleanLogicalShort | internal/files/paths.go:25-49 | cleaning lengthens a path by at most the leading slash |
| LogicalPaths.JoinLogicalAppends | internal/files/paths.go:51-70 | JoinLogical appends exactly one component, and fails exactly on an invalid base name |
| LogicalPaths.JoinedPathStaysInside | internal/files/paths.go:127-146 | a clean logical path joined to a root is the root's components followed by its own, and the containment check accepts it |
| LogicalPaths.ContainmentIsPrefix | internal/config/config.go:363-377 | pathContains, ensureWithin and isWithin all hold exactly when the components of one path begin those of the other |
| LogicalPaths.RelShape | internal/files/paths.go:148-160 | the string filepath.Rel returns starts with a ".." element exactly when the base is not a component prefix |
| LogicalPaths.SubtreeByString | internal/store/index.go:686-728 | extending a folder's string by "/" is the same as lying strictly below it by components |
| LogicalPaths.BaseAndDir | internal/store/index.go:431-445 | path.Base and path.Dir of a clean path give back its last name and its folder |
| LogicalPaths.BaseEdges | internal/store/index.go:431-445 | base and folder of the empty path, of slashes, of a bare name and of a path with closing slashes |
| StorageLayout.AcceptedIffSafe | internal/config/config.go:217-349 | validation accepts exactly the layouts whose five directories are set and not the root, whose data, upload, trash and preview trees are pairwise disjoint, whose application directory shares no tree with the data and equals none of the others, and whose database lies in none of uploads, trash and previews |
| StorageLayout.RefusalIsTrue | internal/config/config.go:217-349 | what a refusal says of the layout is so: that directory is blank or the root, those two overlap or are equal, the database lies inside |
| StorageLayout.AcceptedLayoutSeparates | internal/config/config.go:217-289 | in an accepted layout no path belongs to two of data, uploads, trash and previews |
| WatchRoots.Watcher.Resolve | internal/watch/watch.go:438-469 | returns the user of the deepest watched root containing the path and CleanLogical of the path below it; nothing exactly when no root contains it, it is that root, or CleanLogical refuses the rest |
| WatchRoots.ResolvesToItselfIff | internal/watch/watch.go:438-469 | the reported path is the one below the root exactly when all its names are valid base names, so hold no backslash |
| WatchRoots.BackslashIsTakenForSlash | internal/watch/watch.go:438-469 | a file whose name joins two names by a backslash is reported as the second in a folder of the first |
| WatchRoots.OrderIndependent | internal/watch/watch.go:438-469 | with distinct root paths the deepest root does not depend on the order of the roots |
| WatchRoots.PrefixLengths | internal/watch/watch.go:438-469 | among roots that contain one path, the longer string is the deeper root |
| LikePattern.EscapeLikePattern | internal/store/index.go:1057-1067 | the loop puts a backslash before exactly the characters %, _ and backslash |
| LikePattern.EscapedIsLiteral | internal/store/index.go:1057-1067 | an escaped value matches itself, up to ASCII case, and nothing else, whatever pattern follows |
| LikePattern.LikePercentIff | internal/store/index.go:686-728 | the matcher's "%" stands for any string, whatever pattern follows |
| LikePattern.LikeOneIff | internal/store/index.go:686-728 | "_" stands for any one character, other and escaped characters for themselves up to ASCII case |
| LikePattern.SubtreePattern | internal/store/index.go:1057-1067 | the pattern escape(p)+"/%" matches exactly the strings extending p+"/", up to ASCII case |
| LikePattern.DeletedRange | internal/store/index.go:686-728 | the WHERE clause of the subtree deletes selects the subtree and the case twins, and nothing else |
| LikePattern.RangeIsSubtreeIff | internal/store/index.go:610-728 | the deleted range is exactly the subtree if and only if no case twin is stored |
| LikePattern.CaseTwinExists | internal/store/index.go:686-728 | deleting "/docs" also deletes "/Docs/a" |
| IndexStore.ParentOfChild | internal/store/index.go:431-445 | the parent column of a clean path is its folder |
| IndexStore.ParentOfTop | internal/store/index.go:431-445 | the home itself and a bare name have the parent "/" |
| IndexStore.Store.UpsertIndexBatch | internal/store/index.go:175-200 | on success file_index is the old one with each entry upserted in order; on failure nothing changed, and no other table is written |
| IndexStore.Store.TouchFileIndexEntries | internal/store/index.go:204-226 | on success exactly the named rows that exist carry the new scan id |
| IndexStore.Store.LoadFileIndexSnapshot | internal/store/index.go:230-248 | the snapshot holds (size, mtime) of every row of the user and of no other |
| IndexStore.Store.ApplyDocumentStaging | internal/store/index.go:286-339 | for every key: staged text replaces the document, unstaged text stays, and a key without a file_index row ends with no document and no snippet |
| IndexStore.AppliedContents | internal/store/index.go:286-339 | delete-replace-delete on the multiset of document rows yields per key exactly the staged rows, else the old ones, if the key is live |
| IndexStore.PutSnippetsAt | internal/store/index.go:286-339 | after the inserts the snippet of a key is cut from its last staged row |
| IndexStore.SnippetIs | internal/store/index.go:121-170 | a snippet is the text or its first 500 characters |
| IndexStore.Store.RebuildFileIndexFTS | internal/store/index.go:349-365 | the search table holds exactly the rows and names of file_index |
| IndexStore.Store.DeleteFileIndexEntriesNotSeen | internal/store/index.go:541-608 | removes exactly the user's rows without the scan id, from all four tables, and counts them |
| IndexStore.Store.DeleteFileIndexEntriesNotSeenUnder | internal/store/index.go:610-684 | the same within the LIKE range of one path, leaving all other rows of all four tables alone |
| IndexStore.Store.DeleteFileIndexPath | internal/store/index.go:686-728 | removes exactly the LIKE range of the path from all four tables |
| IndexStore.Store.UpsertFileIndexEntry | internal/store/index.go:38-62 | one row and its search row are written, and documents of an entry that carries no text are removed |
| IndexStore.Store.UpsertDocumentTextEntry | internal/store/index.go:117-170 | the key has exactly the one new document and its snippet |
| Reindex.BatchesCommute | internal/server/admin_jobs.go:620-649 | the pending touches and the pending upserts may be flushed in either order |
| Reindex.Consume | internal/server/admin_jobs.go:667-695 | after any item, with any batch size, table plus pending batches equal the scan of what was consumed, a batch is written when it is full and not before, and no row is ever lost |
| Reindex.FlushAll | internal/server/admin_jobs.go:697-712 | the final flushes bring the table to the scan of everything consumed |
| Reindex.ConsumeResults | internal/server/admin_jobs.go:667-695 | the consumer loop: after any prefix of the deliveries, table and pending batches equal the scan of that prefix; it stops early only for a cancel, fails only for a failing flush, and after an earlier cancel writes nothing |
| Reindex.ScanUserTree | internal/server/admin_jobs.go:608-712 | success means the walk finished and the table and staging are those of scanning the deliveries, in any order and batch size; any other outcome loses no row and touches no other user; it fails only for a failing walk or query, is canceled only by a cancel, and an earlier cancel leaves everything as it was |
| Reindex.ScannedAt | internal/server/admin_jobs.go:667-695 | after a complete delivery each row is decided by its own path alone, whatever the worker order |
| Reindex.ReindexUser | internal/server/admin_jobs.go:327-350 | scan then sweep settles one user's rows and texts and leaves all other users as they were; a failed scan loses no row |
| Reindex.RunReindexUsers | internal/server/admin_jobs.go:296-387 | a completed job leaves every enabled user's rows as one scan and sweep of the tree, applies staging and rebuilds the search table; whatever the outcome, failed users lose no row and others keep theirs; it fails only for a failing query or a walk that meets an error, and is canceled only by a cancel |
| Reindex.IncrementalIsScratchIff | internal/server/admin_jobs.go:667-679 | whatever the prior rows, the incremental rows equal the rows computed from scratch exactly when no row with the size and mtime on disk differs from them in type, parent, name, MIME type or kind |
| Reindex.TypeFlipIsKept | internal/server/admin_jobs.go:667-679 | a folder replaced by a file of its size and mtime keeps its folder row |
| Reindex.OldKindIsKept | internal/server/admin_jobs.go:734-763 | after a change of the preview kind table an unchanged file keeps its old kind |
| Reindex.DerivedStaleIff | internal/server/admin_jobs.go:734-763 | while all rows carry the columns computed from their paths, a changed type is the only way to be out of date |
| Reindex.CompletedIsScratch | internal/server/admin_jobs.go:296-387 | after a completed job the enabled users' rows are those of scanning the tree into an empty table exactly when no such row was stored |
| Reindex.CompletedKeepsDerived | internal/server/admin_jobs.go:734-763 | derived columns stay those computed from the path |
| Reindex.CompletedTextIff | internal/server/admin_jobs.go:352-387 | a completed job makes every text file's document current exactly when it was current wherever the stored size and mtime already matched, and leaves no document or snippet without a row |
| Reindex.CompletedStoresByKind | internal/server/admin_jobs.go:734-763 | after a completed job that starts in agreement every file of kind text, markdown or pdf has exactly its content as document, and a folder or file of another kind keeps what was stored |
| Reindex.ItemTextIff | internal/files/text_index.go:15-21 | a text is taken of exactly the files of kind text, markdown and pdf, and it is their content |
| Reindex.StagedByKind | internal/server/admin_jobs.go:667-682 | a scan stages exactly the texts of such files that have no row of their size and mtime |
| Reindex.AgreementCarriesOver | internal/server/admin_jobs.go:667-695 | text agreement survives disk changes between jobs as long as equal size and mtime mean unchanged |
| Reindex.EveryCompletedJobAgrees | internal/server/admin_jobs.go:296-387 | over any run of completed jobs and disk changes every job ends with all text current and no orphan |
| Reindex.MissedTextStays | internal/server/admin_jobs.go:667-712 | over any run of completed jobs a file that keeps its size and mtime keeps the documents it had, so text missed once is never indexed |
| Reindex.UnappliedScanMissesText | internal/server/files.go:516-525 | any scan whose staging is not applied, a folder refresh included, gives each new or changed file a current stamp and leaves its documents as they were |
| Reindex.InterruptedScanLosesText | internal/server/admin_jobs.go:352-359 | a first job stopped before staging is applied leaves a row whose text no number of later completed jobs restores |
| Reindex.MissingRootClearsIndex | internal/server/admin_jobs.go:547-552 | a missing home root counts as empty: a completed job removes all its rows |
| ScanPipeline.StepInv | internal/server/admin_jobs.go:501-712 | every step of walker, workers, closer and consumer keeps: no item lost or duplicated, channels within bounds, closing and exit order |
| ScanPipeline.RunInv | internal/server/admin_jobs.go:501-712 | the invariant holds in every state of every run |
| ScanPipeline.SuccessConsumesAll | internal/server/admin_jobs.go:501-712 | success means the walk ended without error, all workers are gone and each walked item was consumed exactly once |
| ScanPipeline.SucceedsIff | internal/server/admin_jobs.go:697-712 | a run that has come to rest has returned success exactly when it held no walk error, no failed flush and no cancel while the consumer received |
| ScanPipeline.CancelStopsConsuming | internal/server/admin_jobs.go:667-670 | from a cancel on nothing more is consumed |
| ScanPipeline.NothingLeftBehind | internal/server/admin_jobs.go:660-712 | a consumer that returns without a cancel has emptied the result channel, after a failed flush too |
| ScanPipeline.RunsAreBounded | internal/server/admin_jobs.go:501-712 | no run is longer than a measure of its first state, however it is scheduled |
| ScanPipeline.NoDeadlock | internal/server/admin_jobs.go:501-712 | until everything has returned, some goroutine can move without help from a cancel |
| ScanPipeline.StuckMeansDone | internal/server/admin_jobs.go:501-712 | a run that can go no further has ended everywhere |
| ScanPipeline.AbandonedScanEndsIff | internal/server/admin_jobs.go:608-612 | when the snapshot fails to load and nothing cancels, every run comes to rest, with all goroutines gone exactly when the tree fits the result channel, and the walker blocked exactly when the tree exceeds both channels and the workers |
| ScanDelivery.PipelineDelivers | internal/server/admin_jobs.go:501-712 | what the consumer receives in any interleaving is distinct entries of the tree, all of them on success |
| ScanDelivery.QuietScanDeliversAll | internal/server/admin_jobs.go:501-712 | a run at rest without such an event has returned success with the whole tree consumed, and one with such an event has returned a failure |
| FileSystem.CopyMoveIsRenameIff | internal/files/service.go:475-538 | copyPath followed by removing the source equals rename on every node (kind, content, permissions, mtime) exactly when no moved node has a bit that the umask or the permission mask drops |
| FileSystem.UmaskedBitIsLost | internal/files/service.go:489-538 | under umask 022 a group-writable file arrives without that bit |
| FileSystem.Disk.CopyPath | internal/files/service.go:489-538 | succeeds exactly when the source exists, the target name is free in an existing folder and no call fails; then it reproduces the whole subtree node by node; otherwise nothing outside the target changed, and an existing target is never touched |
| FileSystem.Disk.CopyOrUndo | internal/files/service.go:475-487 | after a failed and cleaned-up copy the tree is as before exactly when the target did not exist |
| FileSystem.Disk.MovePath | internal/files/service.go:475-487 | moves exactly when the source exists, the target is free in an existing folder outside it and no call fails; every other outcome leaves the tree as it was or a half-done move confined to source and target |
| FileSystem.Disk.RemoveAll | internal/files/service.go:475-487 | success removes exactly the subtree; a failure keeps its root and changes nothing outside it |
| FileSystem.RenamedWellFormed | internal/files/service.go:475-487 | a rename keeps every entry inside a directory |
| FileService.Service.Mkdir | internal/files/service.go:112-130 | succeeds exactly when the folder is there, the name is free and no call fails; the refusals in order; adds one folder at that path and changes nothing else |
| FileService.MkdirRefusalIff | internal/files/service.go:112-130 | mkdir is refused exactly when the path is the home, its folder is not there, or its name is taken, and says Exists exactly for the last |
| FileService.ResolveExistingIff | internal/files/paths.go:72-90 | a path resolves exactly when it names an entry, file or folder; a missing one, one that goes on below a file and an invalid one are told apart |
| FileService.ResolveParentIff | internal/files/paths.go:92-117 | a new path resolves exactly when it is not the home and its folder is there; which of the refusals applies, each as an if and only if |
| FileService.NestedPathsResolve | internal/files/paths.go:72-117 | every path of valid names that exists, or whose folder exists, resolves to its components |
| FileService.Service.Move | internal/files/service.go:132-164 | succeeds exactly when the source is an entry other than the home, the target's folder is there, its name is free, it does not lie below the source and no call fails; moves exactly the resolved subtree; failure changes nothing visible |
| FileService.MoveRefusalIff | internal/files/service.go:132-150 | the refusals in order against that condition |
| FileService.Service.MoveInto | internal/files/service.go:166-218 | without a failing call it succeeds exactly when the source is an entry other than the home, the target is another folder outside it and one of the ten thousand names is free; the answer is the refusal that applies or the first free name; success moves exactly the subtree there |
| FileService.MoveIntoAnswerIff | internal/files/service.go:166-205 | the refusals in order against that condition |
| FileService.Service.FinalizeUpload | internal/files/service.go:364-397 | succeeds exactly when the staged file is there, the target is a folder with a free name and no call fails; moves the staged file to the first free name, replacing nothing |
| FileService.Service.StageTrash | internal/files/service.go:220-278 | folder, meta.json and move put the whole subtree into the item's folder and take it from where it was |
| FileService.TrashLayout | internal/files/service.go:231-250 | an item lies at trash/user/id/file beside meta.json |
| FileService.Service.DeleteToTrash | internal/files/service.go:220-278 | succeeds exactly when the path names an entry other than the home, only folders lead to the trash folder and no call fails; writes meta.json, records exactly the moved entry under its clean path, and every trash record still points at an item |
| FileService.Service.TakeOut | internal/files/service.go:315-325 | the move, the deleted record and the removed item folder keep every other item and the multiset of contents |
| FileService.Service.RestoreTarget | internal/files/service.go:296-336 | an item goes back to its original folder under the first free name, and is refused exactly when the folder is gone, is no folder or has no free name |
| FileService.Service.RestoreTrash | internal/files/service.go:296-336 | without a failing call it succeeds exactly when the record is there and its original folder has a free name; success brings back the whole subtree, drops exactly that record and replaces nothing |
| FileService.RestoreAnswerIff | internal/files/service.go:296-320 | the refusals in order against that condition |
| FileService.Service.TrashThenRestore | internal/files/service.go:220-336 | unless a call fails, trash then restore succeeds and gives back the entry under its own path as the identical tree (or as copyPath recreates it), with the trash table as it was |
| FileService.Service.Step | internal/files/service.go:112-397 | any one of the six requests succeeds, without a failing call, exactly when the tree allows it, and then does to the tree what its own operation promises |
| FileService.Service.Run | internal/files/service.go:112-397 | over any run of mkdir, move, move-into, trash, restore and finalize: entries stay inside directories, trash records point at items, and each content is held by as many files as before; each request that succeeded did to the tree what its operation promises; the run is cut short only by a failing call |
| FileService.MoveConserves | internal/files/service.go:475-487 | moving a subtree to an absent target conserves the multiset of file contents |
| FileService.NothingLost | internal/files/service.go:112-397 | conservation in plain terms: a content is held by some file afterwards exactly when it was before |
| FileService.RerootSize | internal/files/service.go:475-487 | relabelling a set of paths from source to target keeps its size |
| FileService.RoundTrip | internal/files/service.go:220-336 | a move into the trash and back composes to the original subtree |
| FileService.ComesBackFree | internal/files/service.go:220-336 | after trashing, the original folder is still there and the original name is free in it |
| FileService.TrashUnaffected | internal/files/service.go:132-164 | a move outside the trash keeps every trash item |
| FileService.IntoTrash | internal/files/service.go:220-278 | a trashed item stands alone in its folder and every other item is kept |
| FileService.OutOfTrash | internal/files/service.go:296-336 | a restored item leaves only its meta.json behind and every other item is kept |
| IndexMoves.MoveKeepsIndexIff | internal/server/files.go:464-482 | after a move and both index updates the index matches the new tree exactly when the request spelled the source cleanly and no case twin of it was stored |
| IndexMoves.MoveKeepsNamesIff | internal/server/files.go:464-482 | after a move the search table names exactly the indexed entries if and only if the moved entry is a file |
| IndexMoves.MoveKeepsTextsIff | internal/server/files.go:464-482 | after a move every text file has its text and snippet stored if and only if the moved entry is a file or holds no text file, and no text file was a case twin of it |
| IndexMoves.MatchingRow | internal/server/admin_jobs.go:734-763 | what a matching index says of an entry: it has a row exactly when the home has it, with its folder, name and kind, and a file's size and mtime |
| IndexMoves.Move | internal/server/files.go:464-482 | the move request end to end: service, deleteIndexPath, refreshIndexPath, with the conditions for index, search names and texts, other users' rows kept, and both index updates done unless a query fails or the walk stops |
| IndexMoves.UncleanDeletesNothing | internal/server/files.go:527-536 | deleting by an unclean spelling reaches no clean path, so no row of the index |
| IndexMoves.UncleanMissesSource | internal/server/files.go:527-536 | deleting by an unclean spelling never removes the entry's own row |
| IndexMoves.UnrootedLeavesRow | internal/server/files.go:527-536 | for every entry its path without the leading slash names it to the file service and leaves its row |
| IndexMoves.RefreshIndexPath | internal/server/files.go:516-525 | a refresh gives every entry of the subtree a row, showing new ones as they are, and leaves all other rows alone; for a file it writes search name, text and snippet, for a folder it leaves all three tables as they were |
| IndexMoves.ScanUserPath | internal/server/admin_jobs.go:478-499 | scanning a path stamps exactly the rows of the entries at and below it, with current size and mtime; a file's search row and text are written at once, a folder's scan stages exactly the texts of files without a current stamp |
| IndexMoves.WalkSubtree | internal/server/admin_jobs.go:532-581 | the walk visits exactly the listed paths at and below its start |
| IndexMoves.OneFile | internal/server/admin_jobs.go:714-732 | refreshing a single file writes its row and no other |
| IndexMoves.ScanSinglePath | internal/server/admin_jobs.go:714-732 | refreshing a single file writes its row, its search row and its text, and no other key |
| IndexMoves.IndexedTextIff | internal/files/text_index.go:15-21 | the text these results speak of is that of exactly the listed files of kind text, markdown and pdf, read from their bytes |
| IndexMoves.MovedListing | internal/files/service.go:132-164 | what the home lists after a move, path by path, in terms of what it listed before |
| ScopedReindex.RunReindexPath | internal/server/admin_jobs.go:389-468 | a completed path reindex repairs exactly its scope unless the scope is a missing home root whose user still has rows, leaves no orphan document or snippet, and meets the two conditions below for texts and search names; a path that goes on below a file fails and keeps its rows |
| ScopedReindex.FolderJobTextsIff | internal/server/admin_jobs.go:389-468 | after reindexing a folder every text in it is stored exactly when it was stored wherever the stamp already matched; outside, text stays where a row stays |
| ScopedReindex.FolderJobNamesIff | internal/server/admin_jobs.go:389-468 | and the search table still names exactly the indexed entries if and only if no entry in the folder was new |
| ScopedReindex.FileJobTexts | internal/server/admin_jobs.go:714-732 | after reindexing a file its text is stored, whatever was stored before |
| ScopedReindex.FileJobNames | internal/server/admin_jobs.go:714-732 | and its search name, so the search table stays right |
| ScopedReindex.SweepRepairs | internal/server/admin_jobs.go:442-457 | after the scoped sweep the rows in scope are the entries on disk, and outside it only case twins are gone |
| ScopedReindex.MissingRepairsIff | internal/server/admin_jobs.go:419-434 | for a path that is gone the range delete repairs the scope, except for "/" |
| ScopedReindex.AnyRowIsKept | internal/server/admin_jobs.go:419-434 | any row of a user with a missing home survives that delete |
| ScopedReindex.RootRangeHasNoCleanPath | internal/store/index.go:686-728 | the range of "/" holds no clean path |
| FolderPaging.PageIsNextSlice | internal/store/index.go:447-508 | a page is ordered, lies after the cursor, and everything it leaves out lies after its next cursor |
| FolderPaging.HasMoreRightIff | internal/server/files.go:187-247 | has_more is right exactly below limit 2000, or when no more than 2000 rows remain |
| FolderPaging.HasMoreLostAt2001 | internal/server/files.go:187-247 | a folder of 2001 files answers limit 2000 with has_more false |
| FolderPaging.PagingUnderChanges | internal/server/files.go:187-247 | whatever is inserted and deleted between requests, no key comes twice and an entry present throughout is collected |
| FolderPaging.CollectedOnce | internal/server/files.go:187-247 | such an entry is collected at exactly one position |
| FolderPaging.PagesInListingOrder | internal/store/index.go:469-495 | whatever changes between requests and whatever the names, the pages show no file before a folder, and within each kind names ascend ignoring case, paths among equal names |
| FolderPaging.PrecedesIff | internal/store/index.go:483 | the order of the code is that one, both ways |
| FolderPaging.SortInListingOrder | internal/files/service.go:102-107 | any folder is listed in that order |
| FolderPaging.StoreLimitIs | internal/store/index.go:447-456 | the store answers at most 2000 rows, and 500 when no limit is given |
| FolderPaging.StaticPagingEnds | internal/server/files.go:187-247 | a folder that does not change is paged to the end, for any varying limits |
| FolderPaging.StaticPagingIsListing | internal/server/files.go:187-247 | and the pages concatenate to the sorted listing |
| FolderPaging.PagingCompleteIff | internal/server/files.go:187-247 | paging a static folder, its rows keyed by path, to its end shows every entry, for all limits in 1..1999, exactly when no two siblings are equal ignoring case |
| FolderPaging.OneTwinIsSkipped | internal/store/index.go:469-495 | of two siblings equal ignoring case, in any folder, paging one by one never shows both |
| FolderPaging.CaseTwinsAreSkipped | internal/store/index.go:469-495 | with page size 1 a folder of two siblings equal ignoring case ends after showing one of them |
| FolderPaging.CompareIsAfter | internal/server/files.go:303-330 | the Go comparison and the SQL row-value comparison select the same entries |
| FolderPaging.CursorStart | internal/server/files.go:294-301 | finds the first entry after the cursor |
| FolderPaging.FallbackPage | internal/server/files.go:82-115 | the filesystem path cuts the page from the rest, in listing order, with has_more right at every limit, for every cursor and offset; for siblings that differ ignoring case it answers as the index path exactly below limit 2000 or when no more than 2000 entries are left |
| FolderPaging.SortedUnique | internal/files/service.go:102-107 | a strictly ordered listing is determined by its entries, whichever sort made it |
| FolderPaging.SortSorts | internal/store/index.go:469-495 | ordering keeps exactly the entries and puts them in strict order |
| Names.AvailableName | internal/files/service.go:436-457 | returns the first free candidate; nothing exactly when the name is invalid or all 10000 are taken |
| Names.CandidateOf | internal/files/service.go:441-447 | the i-th candidate of stem.ext is stem_i.ext, that of a name without a dot has the number at its end |
| Names.ExtIff | internal/files/service.go:441-442 | the extension is the last dot and what follows, and empty exactly without a dot |
| Names.TwoDigitIs | internal/files/service.go:443-447 | the number is decimal with at least two digits |
| Names.CandidateDistinct | internal/files/service.go:436-457 | no two suffixed candidates of a name are equal |
| Names.CandidateValid | internal/files/service.go:436-457 | suffixing keeps a name valid |
| Names.SomeSuffixFree | internal/server/bulk.go:233-248 | n suffixes cannot all be in a used set of fewer than n names |
| Names.UniqueArchiveName | internal/server/bulk.go:233-255 | the unbounded loop ends for every finite used set with the first unused candidate |
| Names.ArchiveNames | internal/server/bulk.go:101-125 | the sources of one archive get pairwise distinct top names |
| Names.EntryNamesDistinct | internal/server/bulk.go:151-207 | an entry name determines source, relative path and kind |
| Names.EntryNameSplits | internal/server/bulk.go:151-207 | between its slashes an entry name holds the source name and the path below it, and a folder's ends in a slash |
| Names.ArchiveHasNoCollision | internal/server/bulk.go:151-207 | all entry names of one archive, nested ones included, are distinct |
| UploadServer.Server.CopyUploadChunk | internal/server/tus.go:371-385 | accepts exactly when the body ends cleanly, fits the declared length and nothing fails; it never cuts what was there |
| UploadServer.Server.Create | internal/server/tus.go:29-138 | the refusals in order, acceptance exactly when the first chunk fits and nothing fails, and a record whose offset and staging file are exactly the first chunk, under a crash at any point; an upload that is whole at once is completed exactly when its folder can take it, if nothing fails |
| UploadServer.Server.CreateRefusalIff | internal/server/tus.go:29-72 | an upload is refused exactly when its length is missing, its name or folder invalid, its folder not there, or its length above a limit that is not 0; which status answers which |
| UploadServer.Server.StageNew | internal/server/tus.go:85-125 | staging file and record are created together, or neither record nor accepted bytes exist |
| UploadServer.Server.Head | internal/server/tus.go:140-154 | answers the recorded offset and length of the user's own upload only |
| UploadServer.Server.AppendChunk | internal/server/tus.go:185-219 | truncate, append, commit: the offset grows by exactly the chunk when it is whole, fits and nothing fails, and not at all otherwise |
| UploadServer.Server.WriteChunk | internal/server/tus.go:185-209 | the staging file is cut at the offset and gets exactly the chunk when it is whole, fits and nothing fails; the bytes before the offset stay in any case |
| UploadServer.Server.Patch | internal/server/tus.go:156-232 | under a crash at any point the accepted bytes are as before or longer by exactly this chunk, the offset never falls, completion is final, and a final path is answered only with the complete file under a name that was free; without failures the answer is determined, and a last chunk that cannot be placed leaves the bytes committed and waiting |
| UploadServer.Server.AnswerChunk | internal/server/tus.go:221-231 | once the chunk is committed the answer is its offset, with a final path exactly when every byte is there and the file was placed, or the refusal to place it |
| UploadServer.Server.RefusalIff | internal/server/tus.go:156-192 | a chunk is let in exactly when the upload is the user's own, unfinished, recorded up to the offset it names, with its staging file in place; 404 and 409 answer exactly the other cases |
| UploadServer.Server.CompleteUpload | internal/server/tus.go:274-322 | completion happens once, moves exactly the accepted bytes and replaces no entry |
| UploadServer.Server.FinalizeUpload | internal/files/service.go:364-397 | the refusals in order; otherwise rename or copy-and-remove to a free name with the staged bytes unless something fails, keeping every existing entry under a crash at any point; a failure that is no crash leaves no part of a file |
| UploadServer.Server.FinalizeRefusalIff | internal/files/service.go:364-383 | finalizing is refused exactly when the name is invalid, the folder is not there or none of its ten thousand names is free; which status answers which |
| UploadServer.Server.Delete | internal/server/tus.go:234-259 | the refusals in order; otherwise drops record and staging file of the owner's unfinished upload and touches no other |
| UploadServer.Server.DeleteRefusalIff | internal/server/tus.go:234-252 | a terminate is refused exactly when the upload is not the user's own, finished, or without its staging file; which status answers which |
| UploadClient.SendPatch | web/src/lib/api.ts:424-455 | over a network that loses and cuts, a final path is answered only when the file arrived whole; when nothing is lost and nothing fails, the rest of the file completes the upload, or is committed and left waiting when its folder refuses it |
| UploadClient.Resume | web/src/lib/api.ts:351-372 | HEAD then PATCH of the rest keeps the accepted bytes a prefix of the unchanged file; when nothing is lost or fails and the server could finish, it delivers exactly when some byte is missing; with every byte committed it changes nothing |
| UploadClient.ResumeWaiting | mobile/android/app/src/main/kotlin/eu/mljr/godrive/BackgroundUploadService.kt:90-112 | a waiting upload stays waiting and undelivered over any number of resumes |
| UploadClient.SendIntoMissingFolder | internal/server/tus.go:209-231 | without any crash or loss: the last bytes are accepted while the folder is gone, and no later resume delivers, whatever becomes of the home |
| UploadClient.EmptyPatch | internal/server/tus.go:209-231 | an empty PATCH at the full offset would deliver a waiting upload |
| UploadClient.Session | mobile/android/app/src/main/kotlin/eu/mljr/godrive/BackgroundUploadService.kt:90-204 | over any sequence of resumes, late requests, terminates, crashes and other traffic, the client gets at most one final path, and only when it holds the file byte for byte |
| UploadClient.UploadNew | web/src/lib/api.ts:322-349 | create, then one PATCH of the whole file: an acceptable upload that can be placed is delivered when nothing is lost and nothing fails, an empty file is placed and its client learns no path; a path is answered only when the file arrived whole |
| UploadClient.UploadFile | web/src/lib/api.ts:322-349 | whatever happens to a new upload afterwards (resumes, terminates, crashes, other traffic), a path its client learns holds the file byte for byte |
| UploadClient.ChunkFits | web/src/lib/api.ts:424-455 | an accepted chunk of an unchanged file extends the accepted prefix of that file to all of it |
| Timestamps.TextOrderIff | internal/store/store.go:150-156 | stored timestamps compare like times exactly when they fall in different seconds or neither printed fraction begins the other |
| Timestamps.HalfBeforeWhole | internal/store/store.go:150-156 | half past a second sorts before the second itself |
| Timestamps.PadOrder | internal/store/store.go:150-156 | zero-padded fields compare as text like numbers |
| Timestamps.TrimOrder | internal/store/store.go:150-156 | dropping trailing zeros keeps the order of fractions |
| Timestamps.StoredText | internal/store/store.go:150-156 | a stored time, spelled out |
| Timestamps.TailIs | internal/store/store.go:150-156 | a whole second ends in Z; otherwise the nine digits of the fraction precede it without trailing zeros |
| Timestamps.PadIs | internal/store/store.go:150-156 | a padded field reads as its number |
| UploadCleanup.Staging.ListExpiredUploads | internal/store/uploads.go:69-91 | lists each unfinished row whose stored time is smaller as text, once |
| UploadCleanup.Staging.ScanOrphanedParts | internal/server/upload_cleanup.go:82-105 | without read errors the orphans are exactly the staging files of no record, other than those just deleted |
| UploadCleanup.Staging.RunUploadCleanup | internal/server/upload_cleanup.go:45-80 | without errors exactly the unexpired rows remain, every remaining staging file has a row, and an upload touched in a later second than the cutoff keeps row and file |
| UploadCleanup.TtlInWholeSeconds | internal/store/uploads.go:69-91 | expiry is right whenever touch and cutoff fall in different seconds |
| UploadCleanup.ExpiryIsAgeIff | internal/store/uploads.go:69-91 | expiry follows the clock exactly unless both fall in one second with nested fractions |
| UploadCleanup.FinishedIsKept | internal/store/uploads.go:69-91 | a finished upload never expires |
| LoginLimiter.Limiter.Allow | internal/server/ratelimit.go:40-55 | answers whether the key is blocked, and the same with or without the cleanup it may run |
| LoginLimiter.Limiter.Record | internal/server/ratelimit.go:58-80 | counts the failure in the open window or a new one; returning true means the key is now blocked |
| LoginLimiter.RecordMeaning | internal/server/ratelimit.go:58-80 | a failure counts in the open window or opens one of five minutes; the tenth blocks for exactly fifteen minutes, an earlier one changes no block |
| LoginLimiter.Limiter.MaybeClean | internal/server/ratelimit.go:93-105 | after an hour it deletes exactly the expired and unblocked buckets |
| LoginLimiter.Limiter.Serve | internal/server/ratelimit.go:39-105 | in any traffic without a reset of the key or a cleanup, a five-minute span admits at most 18 failures of it, whatever came before |
| LoginLimiter.AtMostEighteen | internal/server/ratelimit.go:39-80 | from any reachable bucket at most 18 failures are admitted in a closed five-minute span |
| LoginLimiter.EighteenReached | internal/server/ratelimit.go:39-80 | 18 is reached |
| LoginLimiter.CleanupKeepsBlocks | internal/server/ratelimit.go:93-105 | cleanup never changes whether a key is blocked, now or later |
| LoginLimiter.CleanupNoticedIff | internal/server/ratelimit.go:93-105 | later failures notice a cleanup exactly when it drops a once-blocked bucket with an open window; never-blocked keys never do |
| LoginLimiter.ForgottenWindow | internal/server/ratelimit.go:58-105 | ten failures and one just after the block lead to a bucket whose window a cleanup forgets, admitting ten further failures instead of nine |
| Base64.RoundTrip | internal/auth/password.go:128-136 | decoding undoes encoding for every byte string, padded and raw |
| Base64.EncodedAlphabet | web/src/lib/api.ts:466-473 | encoded text holds only the base64 alphabet and padding, and is empty only for no bytes |
| Base64.DecodesIff | internal/server/tus.go:349-369 | decoding accepts exactly the digits of whole bytes with exactly their padding, line breaks aside |
| Base64.LineBreaksIgnored | internal/server/tus.go:349-369 | a line break anywhere makes no difference |
| Base64.Vectors | internal/auth/password.go:128-136 | the test vectors of section 10 of RFC 4648 |
| Base64.ValueIff | internal/auth/password.go:128-136 | a character has a value exactly when it is the digit of that value |
| PasswordHash.ParsePHC | internal/auth/password.go:92-139 | a printed hash comes back with its parameters, salt and key when the parameters are usable, and is refused otherwise |
| PasswordHash.ParseUndoesPrintIff | internal/auth/password.go:31-139 | parsing the printed string gives back parameters, salt and key, for every salt and key, exactly when the parameters are non-zero and fit their types |
| PasswordHash.ParsedIff | internal/auth/password.go:92-139 | a string is read as a hash exactly when its six parts are the algorithm, the version, settings that end usable, and raw base64 of salt and key |
| PasswordHash.SetParamIff | internal/auth/password.go:98-121 | a setting is a known name, an equals sign and a decimal number that fits its field |
| PasswordHash.StoredHash | internal/auth/password.go:31-49 | what is stored for a password, with the default parameters spelled out |
| PasswordHash.VerifyPassword | internal/auth/password.go:51-63 | against a stored hash it accepts exactly when the password derives the stored key, and tells an unreadable hash from a mismatch |
| PasswordHash.VerifyMeansSameKey | internal/auth/password.go:51-63 | a password is accepted against a stored hash exactly when both derive the same key |
| UploadMetadata.ParseUploadMetadata | internal/server/tus.go:349-369 | from the header a client prints for distinct usable keys it reads exactly the pairs whose value is not empty |
| UploadMetadata.EntryOfPrinted | internal/server/tus.go:349-369 | one printed pair is read back, and dropped exactly when its value is empty |
| UploadMetadata.EntryOfIff | internal/server/tus.go:349-369 | an element is a pair exactly when, trimmed, it is a non-empty key, a space, and padded or else raw base64 of the value |
| UploadMetadata.TrimSpaceIs | internal/server/tus.go:349-369 | trimming drops white space at both ends and nothing else |
| UploadMetadata.RawEntryIsRead | internal/server/tus.go:349-369 | a pair whose value is encoded without padding is read as well |
| UploadMetadata.MetadataRoundTripIff | internal/server/tus.go:349-369 | all printed pairs are recovered exactly when no value is empty |
| UploadMetadata.EmptyValueIsDropped | internal/server/tus.go:349-369 | a header that gives an empty filename is read as naming none |

## Left out

- Symlinks: homes and trees are symlink-free, so symlink evaluation in ResolveExisting, ResolveParent and the walks is not modelled.
- The Bleve engine, FTS ranking, search queries and rowids: tables are maps and row lists with the effect of each statement.
- HTTP, sessions, CSRF, demo mode, webhooks, events, logging and JSON, including the JSON and base64 wrapping of list cursors.
- Previews, thumbnails and text extraction: a file's text is a function of its bytes, its MIME type and preview kind functions of its name.
- Argon2, SHA-256 and random ids: argon2 is a parameter, ids are fresh.
- Clock and cutoff arithmetic: the current time and the cutoff are parameters; updated_at of index rows and legacy time formats are not modelled.
- Power loss and fsync: a crash stops the process but loses no completed write.
- Concurrent requests on one upload, writes to the index during a scan, API or watcher writes during a reindex, concurrent login attempts between allow and record: the code takes no lock across these and the model excludes them.
- Permission errors and full disks appear only as calls that may fail.
- Mount points inside a moved tree, and the size a folder reports (taken as 0, and compared nowhere).
- Files removed or created by others while a tree is copied or walked.
- PermanentlyDeleteTrash, WriteContent, List and downloads: single operations that no modelled property spans.
- bulkMove and bulkDelete loops, and the delete and restore requests: they repeat the steps of IndexMoves.Move and the file service one path at a time.
- Invalid UTF-8 and the difference between bytes and runes: text is a sequence of characters, so a snippet is cut after 500 of them.
- filepath.Rel: modelled on clean rooted paths through their components; other arguments are not part of this model.
- MIME and preview kind of an unchanged row are those stored; IndexMoves compares paths, folder, name, type, size and mtime of rows only.
- Names with a backslash or NUL on disk: IndexMoves and ScopedReindex take homes without them, because CleanLogical gives such an entry the path of another.
- Webdav, watcher event coalescing and NeedsRescan.
- UploadServer keeps its own flat view of homes, so that a crash can fall between any two writes of one file; the tree-shaped FinalizeUpload with modes and mtimes is FileService's.
- UploadCleanup: a staging file is identified by user directory and id; other files under the upload directory are ignored.
- UploadCleanup.Staging.RunUploadCleanup: does not state the reported numbers of deleted files, because nothing is decided by them; the number of deleted rows is stated.
