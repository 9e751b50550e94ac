# A verified model of the PhoenixDB storage engine

PhoenixDB is an embedded key-value and document store. This project models the parts of it
that keep data and proves, over every input and every reachable state, what they are for:

- the durable multi-version engine (version chains, snapshots, first-committer-wins commits,
  write-ahead log, checkpoints with a journaled page flush, log rewrite, crash recovery);
- the B+Tree on slotted 4096-byte pages with overflow chains and a free list, its structural
  check, and its reads;
- the log-structured engine (memory tables, leveled compaction, replayable manifest, table
  files with a Bloom filter and a sparse index);
- the metadata index of document collections, whose evaluator must agree with the reference
  meaning of a filter.

The engine and the log-structured store are state machines: their steps are the sub-steps of
the code, and a crash may fall between any two of them, recovery included. Code that changes
objects is modelled by classes and methods (`VersionStore.Versions`, `BTreePager.Pager`,
`SlottedPage.Page`, `SSTable.Writer`, `LsmStore.Store`, `CollectionStore.Documents`); each
method is tied to a function of the old state, and the laws are proved about those functions.

## How the parts fit

`History` defines a history of commits and `Fold`, the map it amounts to. `VersionStore` and
`Wal` model one source file each. `Engine` is the state machine over disk and memory;
`EngineInvariant`, `EngineSafety`, `EngineSteps`, `EngineRecovery` and `EngineCrash` prove that
every step keeps the invariant, and `EngineTheorems` and `EngineSessions` state the results. `EngineFlush` follows one
journaled flush through a run and `FlushJournal` its bytes; `EngineTree` puts the B+Tree under the
engine, and `EngineCheckpoint` carries a checkpoint out on its pages. `Scan` and `ScanEngine` add
range scans, counts and backups.

`BTree` defines trees as values, `BTreePages` how they lie in pages, `BTreeLinks` chains of pages.
`BTreeZipper`, `BTreeStates`, `BTreeEdit` describe a tree with one subtree in focus. Insert is
`BTreeSplit`, `BTreeInsertSteps`, `BTreeInsert`, `BTreeOps`, `BTreeMap`, `BTreeRoot`; delete is
`BTreeDeleteSteps`, `BTreeDelete`, `BTreeRemove`; `BTreeStore` holds the two public operations.
`BTreeCheck` and `BTreeVerify` are the structural check, `BTreeRead` the reads. A page there is
its list of cells; `PageImage`, `PageEdits`, `SlottedPage` and `PageCells` show that the byte
buffer implements exactly that list, with exactly that capacity; `PageFormat` adds checksum, page id
and meta page, and `BTreeBytes` that every page of a tree fits.

`LsmRuns`, `LsmLevels`, `LsmCompaction`, `LsmCompactionSafety` are lookup, merge and compaction;
`LsmManifest`, `LsmManifestCodec`, `LsmManifestLog` and `LsmDisk` the manifest, its encoding, its file
and what it describes;
`LsmEngine`, `LsmMemory`, `LsmInvariant`, `LsmSteps`, `LsmTheorems` the state machine and its
results; `LsmStore` the imperative engine; `SSTable` and `SSTableFile` one table. `Scalar`,
`Metadata`, `Filter`, `CollectionIndex`, `Collection`, `CollectionStore` are the metadata index.
`Bytes`, `Bincode`, `Ranges` and `PageLayout` hold what several of these share.

## Where the code falls short of a promise

- `LsmTheorems.SplitSeqnoLosesWrite`: two keys written under one sequence number, separated by a
  rotation, lose the second write when the first table is flushed and the process dies: the
  checkpoint then covers a write only memory held. `LsmTheorems.CrashLossExact` says exactly which
  reads a crash spoils, from the state before it; strictly growing sequence numbers exclude all of
  them.
- `BTreeRead.ShortChainAcceptedButUnreadable`: the structural check accepts a file in which a
  value is spread over more overflow pages than a read allows, so a checked file may hold an
  unreadable value. `BTreeRead.Get` and `BTreeRead.RangeIter` state exactly which values a read
  returns, and `BTreeRead.EngineTreeReads` that every tree the engine builds is fully readable.
- `PageImage.OverlapPassesValidation`: page validation accepts slots that cover the same bytes.
  `SlottedPage.Page.Compact` says exactly when compacting a validated page aborts, when it destroys
  the page, and when it works: if and only if cells and slots fit 4064 bytes, which holds on every
  page built by the page operations.
- `SlottedPage.Page.ReplaceCellAt`: when the replacement does not fit, the old cell is already
  gone. The B+Tree never calls it.
- `BTreePager.Pager.ReleasePage`: a page that is already free can be freed again. The free list then
  runs in a circle (`BTreePager.FreedTwice`), and this happens exactly then. The B+Tree frees only
  pages in use.
- `LsmStore.Store.FlushOne`, `LsmStore.OpenStore`: an edit over 16 MiB is refused, so a table with
  huge boundary keys can never be flushed, and a manifest that is both long and huge keeps the
  store from opening.

## Model

| member | source | states |
|---|---|---|
| `EngineTheorems.CrashSafety` | rust/src/lib.rs:186-269 | after any run, with a crash at any sub-step of commit, flush, log rewrite or recovery itself, reopening reads exactly the fold of a prefix of the commits, and the prefix contains every acknowledged one |
| `EngineTheorems.SyncedCommitIsAcknowledged` | rust/src/lib.rs:404-473 | under sync_on_commit a commit counts as acknowledged as soon as it returns |
| `EngineTheorems.RecoveredMemory` | rust/src/lib.rs:208-247 | the memory recovery rebuilds is tree plus chains of one prefix of the history, with no live transactions |
| `EngineTheorems.RecoveryCompletes` | rust/src/pager.rs:588-623 | from every crashed state, with any journal and at any point of a replay, at most four more steps open the engine |
| `EngineTheorems.RecoveredIds` | rust/src/lib.rs:208-247 | after recovery the id counter is above every id in the log, so no later transaction reuses one |
| `EngineTheorems.InvAlways` | rust/src/lib.rs:604-642 | in every reachable state the tree is the history folded up to tree_ts, the chains hold exactly the newer versions, and the disk recovers to an acknowledged prefix |
| `EngineTheorems.SnapshotReads` | rust/src/lib.rs:365-396 | in every reachable state a live transaction reads the history as of its snapshot, overlaid with its own writes |
| `EngineTheorems.SnapshotNeverMoves` | rust/src/txn.rs:161-228 | no later commit, rollback or checkpoint changes the state a live transaction's snapshot denotes |
| `EngineTheorems.FirstCommitterWins` | rust/src/txn.rs:234-292 | in every reachable history no commit between a transaction's snapshot and its own commit wrote one of its keys |
| `EngineTheorems.CommitRefusedIffOvertaken` | rust/src/txn.rs:234-244 | a transaction with writes is refused if and only if someone committed one of its keys since its snapshot |
| `EngineSessions.SessionReadsBegin` | rust/src/lib.rs:365-389 | however long a transaction runs, through commits, checkpoints and flushes, a key it has not written reads as published when it began |
| `EngineSessions.SessionReadsOwn` | rust/src/lib.rs:316-362 | a key it has written reads as the last write staged for it in the run |
| `EngineSessions.SessionCommits` | rust/src/lib.rs:404-473 | what its commit adds to the history is, key by key, the last write staged since its begin and nothing else; once published, everyone reads that |
| `EngineSessions.BeginSees` | rust/src/txn.rs:161-169 | a begin step: the new transaction reads the fold of everything published, has no writes and the given mode; no other read changes |
| `EngineSessions.StageSees` | rust/src/txn.rs:196-203 | a write step: the written key reads as written, every other key and everyone else as before |
| `EngineSessions.PublishSees` | rust/src/txn.rs:250-277 | a commit step: written keys read as written by whoever starts afresh, live transactions notice nothing, the transaction is gone |
| `EngineSessions.AbortEnds` | rust/src/txn.rs:280-292 | an abort step: the transaction is gone, no other read changes, and the watermark is that of the others |
| `EngineSessions.QuietSees` | rust/src/lib.rs:604-642 | no sub-step of a checkpoint or flush changes any read |
| `EngineSessions.CheckpointMerges` | rust/src/lib.rs:604-642 | a checkpoint leaves the history up to the watermark in the tree and only newer versions in memory; with no live transaction, everything and nothing |
| `EngineSessions.FlushAcknowledges` | rust/src/lib.rs:645-649 | an explicit flush acknowledges every commit made so far |
| `EngineSteps.ConflictExact` | rust/src/txn.rs:234-244 | conflict detection from the chains is exact although merges drop versions |
| `EngineSteps.MergeKeepsMemory` | rust/src/txn.rs:329-360 | merging at the watermark moves the tree forward, trims the chains and changes no read at or above it |
| `EngineSteps.ReplayRestores` | rust/src/pager.rs:588-623 | whatever subset of in-place writes reached the file, torn or not, the journal restores the pages of the flush |
| `EngineCrash.CrashPages` | rust/src/pager.rs:341-375 | what a crash leaves recovers to the pages of the last flush, or of this one if its journal was complete; either way the disk still matches the history |
| `EngineFlush.FlushIsAtomic` | rust/src/pager.rs:341-422 | over whole runs: from the start of a flush to the start of the next, after any crashes, replays and discards, recovery leads to exactly the old pages or exactly the new, to the new from the journal sync on, and always to the same; the file is that one once no complete journal is left |
| `EngineFlush.StepKeepsPages` | rust/src/pager.rs:588-623 | outside the writing of a journal no step, torn in-place write, crash or interrupted replay moves the pages recovery leads to |
| `EngineFlush.RecoveryOpensFlush` | rust/src/pager.rs:588-623 | the engine opens on exactly the pages of one of the two flushes |
| `FlushJournal.CrashLeavesJournal` | rust/src/pager.rs:378-414 | whatever byte prefix of a journal survives, it is seen as absent, torn, or whole with exactly its pages, and whole only if all of it survived |
| `FlushJournal.CutIsDiscarded` | rust/src/pager.rs:627-665 | a journal cut at any byte is never replayed, whatever the checksum |
| `FlushJournal.JournalBack` | rust/src/pager.rs:627-665 | a journal written whole is accepted with its own counts |
| `FlushJournal.Recover` | rust/src/pager.rs:588-623 | anything but a complete journal leaves the file alone; a complete one sets the file size and is written over it entry by entry, and recovery fails if and only if some entry lies past that size, after exactly the entries before the first such |
| `FlushJournal.WholeReplays` | rust/src/pager.rs:588-623 | a journal written whole replays in full: every entry is inside the declared size and together they are exactly its pages |
| `EngineTree.TreeCrashSafety` | rust/src/lib.rs:186-269 | crash safety down to the bytes: after any crash in any run from a file that holds a tree, the 4096-byte pages hold a B+Tree that the structural check accepts, with no page leaked and every value readable, and tree and log together read as the fold of an acknowledged prefix |
| `EngineTree.AlwaysATree` | rust/src/pager.rs:341-375 | at every moment of every run from a file that holds a tree, recovery leads to a file that holds a tree |
| `EngineTree.CheckpointStagesTree` | rust/src/lib.rs:604-642 | whatever pages a checkpoint step stages, laid over the file they hold a tree |
| `EngineTree.FlushHoldsTree` | rust/src/pager.rs:341-375 | the rendered changed pages and the meta page, laid over the file, make it hold the new tree |
| `EngineTree.HoldsOnce` | rust/src/pager.rs:90-139 | a page file determines the tree, timestamp and id counter it is opened with |
| `EngineCheckpoint.TakeCheckpoint` | rust/src/lib.rs:604-642 | from every reachable state with the engine open, the checkpoint carried out on pages yields a journal within its format whose pages enable the engine's checkpoint step with the merged tree; it fails only on a tree too deep for a descent or when page ids have run out |
| `EngineCheckpoint.StageCheckpoint` | rust/src/lib.rs:604-642 | the same for a live pager, which is left holding the merged tree and in step with the flushed file |
| `EngineCheckpoint.MergeTree` | rust/src/txn.rs:329-360 | inserting and deleting page by page moves the newest version at or below the watermark of every key into the tree: its contents are the version store's key-by-key merge |
| `EngineCheckpoint.StagePages` | rust/src/pager.rs:341-356 | renders exactly what the file does not hold yet, in page order, as whole pages inside the file size |
| `EngineCheckpoint.OpenFileHoldsTree` | rust/src/pager.rs:90-139 | while the engine is open and no flush is under way, the file holds the engine's tree |
| `EngineCheckpoint.CreateFile` | rust/src/pager.rs:150-172 | a new database file holds the empty tree, and runs start from it |
| `EngineCrash.RecoveredCount` | rust/src/lib.rs:208-247 | replay stops at the last commit found in log or tree, which is at or after the last acknowledged one |
| `EngineRecovery.ReplayRebuilds` | rust/src/lib.rs:208-247 | replaying a matching log rebuilds exactly the versions above the tree, without gaps |
| `EngineRecovery.RetainedTs` | rust/src/txn.rs:366-388 | a checkpoint writes back every commit above the tree, once each and in order |
| `EngineRecovery.RewriteMatches` | rust/src/wal.rs:370-449 | the rewritten log describes the same history, covers its latest commit and uses fresh transaction ids |
| `History.ChainRead` | rust/src/txn.rs:221-228 | the newest version at or below a snapshot, or else the tree, is the history as of that snapshot |
| `History.CutChain` | rust/src/txn.rs:329-360 | trimming a chain at a watermark leaves exactly the versions above it |
| `VersionStore.Versions.Begin` | rust/src/txn.rs:161-169 | a fresh id, no writes of its own, and a snapshot from which every key reads what was committed last; everyone else is left alone |
| `VersionStore.Versions.Stage` | rust/src/txn.rs:188-203 | the staged write is the transaction's write of that key, replacing an earlier one, and nothing else changes; unknown and read-only transactions are told apart |
| `VersionStore.Versions.Visible` | rust/src/txn.rs:221-228 | the newest version at or below the snapshot |
| `VersionStore.Versions.Read` | rust/src/txn.rs:209-215 | own writes first, then the snapshot; unknown transactions are an error |
| `VersionStore.Versions.DetectConflict` | rust/src/txn.rs:234-244 | reports a conflict exactly when a written key has a version newer than the snapshot |
| `VersionStore.Versions.Commit` | rust/src/txn.rs:250-277 | publishes the write set under one new timestamp, so that each written key's latest version is the last one staged, and releases the snapshot, or changes nothing |
| `VersionStore.Versions.Rollback` | rust/src/txn.rs:280-292 | the transaction is unknown from then on and nothing else changes; the watermark is that of the others |
| `VersionStore.BeginThenRead` | rust/src/txn.rs:161-169 | a transaction that has just begun reads the latest committed version of any key |
| `VersionStore.StageThenRead` | rust/src/txn.rs:196-203 | after staging, the transaction reads the staged value, and any other key as before |
| `VersionStore.StageCommitRead` | rust/src/txn.rs:250-277 | what was staged last for a key is what every transaction begun after the commit reads |
| `VersionStore.RollbackEnds` | rust/src/txn.rs:280-292 | after a rollback read, write, commit and rollback all refuse the transaction |
| `VersionStore.Versions.Release` | rust/src/txn.rs:294-301 | the snapshot counts stay equal to the number of live holders |
| `VersionStore.Versions.MergeWatermark` | rust/src/txn.rs:308-314 | the oldest live snapshot, or the current timestamp when none is live |
| `VersionStore.Versions.MergeIntoTree` | rust/src/txn.rs:329-360 | the tree gains each key's newest version at or below the watermark and the chains lose what it superseded |
| `VersionStore.Versions.RetainedCommits` | rust/src/txn.rs:366-388 | one group per timestamp above the watermark, oldest first, each with every write of that commit under a fresh id |
| `VersionStore.Versions.ApplyRecovered` | rust/src/txn.rs:393-401 | the version lands at its place in a chain that stays ascending, and the clock moves past it |
| `VersionStore.Versions.ObserveTxnId` | rust/src/txn.rs:404-408 | the counter ends above the observed id, no higher than that or its old value requires, and nothing else changes |
| `VersionStore.MergeKeysIs` | rust/src/txn.rs:329-360 | merging key by key, in any order, is overlaying one write set |
| `VersionStore.GroupedAt` | rust/src/txn.rs:366-388 | grouping by timestamp collects, for each timestamp above the watermark, exactly its versions |
| `Wal.DecodeEncode` | rust/src/wal.rs:272-300 | every record that fits a frame reads back as itself |
| `Wal.EngineWritesEncodable` | rust/src/lib.rs:349-362 | the key and value limits keep every logged write within a frame |
| `Wal.ParseCut` | rust/src/wal.rs:455-506 | a log cut at any byte yields exactly its whole frames and reports where the last one ends |
| `Wal.CutKeepsPrefix` | rust/src/wal.rs:455-506 | frames that were durable before the cut are all recovered |
| `Wal.ParseResumes` | rust/src/wal.rs:217-229 | for any file, truncating at the reported length and appending makes the next scan see old and new records together |
| `Wal.Recover` | rust/src/wal.rs:455-563 | returns the writes of every committed, not rolled back transaction in timestamp order, the largest id any record carries and the valid length |
| `Wal.OutcomeMeans` | rust/src/wal.rs:508-529 | a transaction committed if some commit record names it, at the timestamp of the last such record, and was rolled back if some record says so |
| `Wal.OpsInOrder` | rust/src/wal.rs:532-553 | its writes are its insert and delete records, all of them and in log order |
| `Wal.SortByTs` | rust/src/wal.rs:555-563 | the replay order is ascending in timestamp and lists each replayed transaction once |
| `Scan.MergeFind` | rust/src/lib.rs:754-795 | merging keeps strictly ascending order and each key answers from the overlay before the tree |
| `Scan.MergeIsVisible` | rust/src/lib.rs:754-795 | the merge of a tree listing and an overlay listing is the listing of the visible map |
| `Scan.ListingUnique` | rust/src/lib.rs:754-795 | a map has only one ascending listing |
| `Scan.MergeScan` | rust/src/lib.rs:754-795 | the callback receives the merge up to and including the first pair after which it stops |
| `Scan.UntilDelivers` | rust/src/lib.rs:754-795 | a callback is handed the pairs one by one in order and asked after each: all of them, or up to its first refusal |
| `Scan.CountWith` | rust/src/lib.rs:801-815 | correcting the tree count per overlay entry gives the size of the overlaid map |
| `ScanEngine.TxnOverlay` | rust/src/txn.rs:428-445 | the same with the transaction's own writes on top; only an unknown transaction is an error |
| `ScanEngine.ScanIsSnapshot` | rust/src/lib.rs:721-795 | in every reachable state a transaction's scan lists exactly the in-range part of its snapshot with its own writes |
| `ScanEngine.CommittedOverlay` | rust/src/txn.rs:417-425 | lists, ascending, exactly the in-range versions visible at the snapshot |
| `ScanEngine.ScanIsLatest` | rust/src/lib.rs:685-699 | tree range and overlay at the current timestamp merge to the in-range listing of the published history |
| `ScanEngine.ScanRange` | rust/src/lib.rs:685-699 | in every reachable state the callback receives the in-range listing of the published history, up to where it stops |
| `ScanEngine.ScanPrefix` | rust/src/lib.rs:702-717 | in every reachable state a prefix scan delivers exactly the published pairs whose key starts with the prefix, in order |
| `Ranges.BoundsMean` | rust/src/btree.rs:626-630 | each kind of bound, at the bound key itself and on either side of it, for both ends of a range |
| `ScanEngine.ScanTxn` | rust/src/lib.rs:721-734 | in every reachable state a transaction scans the in-range listing of its snapshot with its own writes; an unknown one is an error |
| `ScanEngine.Len` | rust/src/lib.rs:801-815 | in every reachable state the count is the size of the published history |
| `ScanEngine.ReadOnlyView` | rust/src/lib.rs:952-958 | while a read-only transaction lives, no step changes what it sees |
| `ScanEngine.CopySnapshot` | rust/src/lib.rs:1111-1151 | a backup whose every batch is a fresh scan of whatever state the engine has reached, beyond the last key copied, is exactly the listing of what the snapshot saw |
| `BTreeStore.Insert` | rust/src/btree.rs:189-215 | a map update that keeps the whole tree invariant and page conservation, at every height the descent allows; refused only for a bad key length or a value over 32 bits, never for lack of a split |
| `BTreeStore.Delete` | rust/src/btree.rs:409-440 | removes the key and reports whether it was there, keeping invariant and conservation; a miss changes nothing |
| `BTreeMap.InsertInto` | rust/src/btree.rs:218-239 | below any page: the entries gain the pair, and either the subtree is complete or two halves wait for the parent |
| `BTreeOps.InsertIntoLeaf` | rust/src/btree.rs:242-289 | the leaf's entries gain the pair and the replaced value's pages are free; it splits if and only if the entries exceed the page or the fill limit, and then every entry is in exactly one non-empty half |
| `BTreeOps.SplitLeaf` | rust/src/btree.rs:292-339 | a split always succeeds: both halves are non-empty, fit their pages and are linked in order; the cut is at the end for an append at the right edge, otherwise the most even one |
| `BTreeMap.AbsorbSplit` | rust/src/btree.rs:342-403 | the node takes both halves in place of the child, or splits in turn around one separator exactly when it is full; the leaves keep their order |
| `BTreeMap.ChooseSeparator` | rust/src/btree.rs:363-384 | there is always a separator to promote that leaves both sides within a page: the new one at the right edge, otherwise the most even choice |
| `BTreeSplit.SplitPoint` | rust/src/btree.rs:916-942 | the most even division in which both sides fit, the first of equals; none only when none exists |
| `BTreeSplit.MostEven` | rust/src/btree.rs:916-942 | no other division within the limits brings the sides closer, and for a leaf none has a smaller larger half |
| `BTreeSplit.LeafDivides` | rust/src/btree.rs:292-319 | any leaf that overflows by one cell within the limits has a division |
| `BTreeSplit.NodeDivides` | rust/src/btree.rs:363-384 | any internal node that overflows by one separator has a division |
| `BTreeRemove.RemoveEmptyLeaf` | rust/src/btree.rs:443-507 | unlinking an emptied leaf with its orphaned ancestors leaves a whole tree with exactly the other leaves' entries, and every freed page on the free list |
| `BTreeRemove.CollapseRoot` | rust/src/btree.rs:494-507 | roots with a single child give way to it until the root is a leaf or has a separator; leaves are unchanged |
| `BTreeDelete.PreviousLeaf` | rust/src/btree.rs:512-525 | the in-order predecessor leaf of the path's end, or none at the left edge |
| `BTreeDelete.FindPath` | rust/src/btree.rs:409-426 | the recorded path leads to the one leaf whose bounds contain the key |
| `BTreePager.Pager.AllocatePage` | rust/src/pager.rs:269-295 | the page is the head of the free list, or one past the end of the file when that is empty; no other page changes |
| `BTreePager.Pager.ReleasePage` | rust/src/pager.rs:298-314 | the page becomes the head of the free list; the meta page and pages past the end are refused; some free list still fits the file if and only if the page was not free already |
| `BTreePager.FreedTwice` | rust/src/pager.rs:298-314 | once a free page has been freed again, following the links never ends |
| `BTreePager.Pager.WriteOverflowChain` | rust/src/pager.rs:512-524 | the value lies in a chain of new pages; nothing in use is touched and every page is accounted for |
| `BTreePager.Pager.ReadOverflowChain` | rust/src/pager.rs:527-558 | on any pages: returns the payloads if and only if the links lead through overflow pages that add up to the declared length, are no more than a full chain of that length may have, and the file is large enough |
| `BTreePager.Pager.FreeOverflowChain` | rust/src/pager.rs:561-580 | on any pages: succeeds if and only if the links lead through distinct overflow pages inside the file, and then exactly those are freed; cycles and foreign pages are reported |
| `BTreePager.AllocKeeps` | rust/src/pager.rs:269-295 | an allocated page was not in use, and pages in use and free still partition the file |
| `BTreePager.ReleaseKeeps` | rust/src/pager.rs:298-314 | a released page leaves the pages in use, and the partition stands |
| `BTreePager.ReleaseAllKeeps` | rust/src/pager.rs:561-580 | freeing a chain in use conserves every page and touches no other page in use |
| `BTreeCheck.CheckNode` | rust/src/btree.rs:746-832 | accepts a subtree if and only if there is one with ordered keys inside the parent's bounds, leaves at one depth and no page met before |
| `BTreeCheck.CheckOverflow` | rust/src/btree.rs:844-870 | accepts an overflow chain if and only if it is made of new overflow pages whose payloads add up to the declared length |
| `BTreeVerify.Check` | rust/src/btree.rs:681-744 | reports if and only if the file is well formed; the key count, depth and free pages are those of the tree, and every other page is counted as unreachable |
| `BTreeVerify.AcceptedCovers` | rust/src/btree.rs:715-741 | in an accepted file without unreachable pages every page but the first is in the tree or on the free list, never both |
| `BTreeVerify.EngineTreePasses` | rust/src/btree.rs:681-744 | every tree the engine builds is accepted with no unreachable page |
| `BTreeRead.Get` | rust/src/btree.rs:166-186 | on every file the check accepts: missing if and only if the map lacks the key, corrupt if and only if its chain is unreadable, else the value |
| `BTreeRead.FindLeaf` | rust/src/btree.rs:528-545 | the leaf found is the only one that can hold the key, within the depth bound |
| `BTreeRead.RangeIter` | rust/src/btree.rs:589-644 | on every accepted file: exactly the in-range pairs in ascending order, failing if and only if one of them is unreadable; the chain guard never trips |
| `BTreeRead.Len` | rust/src/btree.rs:647-658 | on every accepted file: the size of the map, which is the number of keys the check reports |
| `BTreeRead.AcceptedWalkable` | rust/src/btree.rs:681-744 | acceptance by the check is all the reads need |
| `BTreeRead.EngineTreeReads` | rust/src/btree.rs:166-186 | in every tree the engine builds all values are readable |
| `BTreeRead.ShortChainAcceptedButUnreadable` | rust/src/btree.rs:844-870 | a concrete file the check accepts although a read refuses one of its values |
| `SlottedPage.Page.constructor` | rust/src/page.rs:138-153 | a new page is sound, has no cells and all 4064 bytes free |
| `SlottedPage.Page.ValidateStructure` | rust/src/page.rs:326-356 | accepts a tree page if and only if its directory ends before the heap and every slot stays inside it |
| `SlottedPage.Page.InsertCellAt` | rust/src/page.rs:412-439 | on any validated page: the cell is inserted if and only if it fits at once or after a compaction; on a sound page full means exactly that cells and slots would exceed 4064 bytes, and no cell changes |
| `SlottedPage.Page.RemoveCellAt` | rust/src/page.rs:442-455 | on any validated page: deletes from the sequence of cells and keeps the page formed, and sound if it was |
| `SlottedPage.Page.ReplaceCellAt` | rust/src/page.rs:458-467 | puts the new cell in place; on a sound page no other cell changes, and when the new one does not fit the old one is lost |
| `SlottedPage.Page.Compact` | rust/src/page.rs:470-484 | on any validated page: aborts if and only if the cells exceed the page, leaves a formed page with the same cells if and only if cells and slots fit 4064 bytes, and then free space is exactly the rest |
| `SlottedPage.Page.ClearCells` | rust/src/page.rs:487-490 | on any page: no cells, all space free, rest of the header kept |
| `PageImage.OverlapPassesValidation` | rust/src/page.rs:326-356 | concrete leaf pages pass validation although compacting them runs past the start of the page, or over their own slot directory |
| `PageImage.PackedTooFar` | rust/src/page.rs:470-484 | a heap packed over the directory never leaves a formed page with those cells |
| `PageEdits.InsertionGrows` | rust/src/page.rs:412-439 | the five byte writes of an insertion open exactly one slot and leave every other slot, cell and header field alone |
| `PageImage.RewrittenSound` | rust/src/page.rs:458-467 | overwriting a cell in place changes no other cell |
| `PageCells.Search` | rust/src/page.rs:619-631 | a hit has the key, a miss on ordered cells is the one place the key could go, corruption means a malformed cell |
| `PageCells.GapUnique` | rust/src/page.rs:619-631 | the insertion point is unique and excludes the key |
| `PageCells.LeafCellBack` | rust/src/page.rs:500-558 | a leaf cell, inline or spilled, decodes to what was encoded |
| `PageCells.SepBack` | rust/src/page.rs:589-604 | a separator cell decodes to what was encoded |
| `PageFormat.RenderPage` | rust/src/page.rs:293-303 | a page of any kind that fits 4096 bytes, filled in, checksummed and read under its own id, says what was written |
| `PageFormat.MetaBack` | rust/src/page.rs:677-722 | the meta block reads back field by field |
| `PageFormat.SameSays` | rust/src/page.rs:293-303 | what a page says does not depend on its checksum field, so checksumming comes last |
| `BTreeBytes.TreeFits` | rust/src/pager.rs:341-352 | every page of a tree the operations built has room for what it holds: cells, separators, overflow payloads and links |
| `PageCells.InsertEntry` | rust/src/btree.rs:274-284 | the byte page admits an entry exactly when the tree's size bound says so, and then holds the grown entry list |
| `PageCells.WriteOverflow` | rust/src/page.rs:638-652 | stores payload and link, or refuses a payload over 4056 bytes unchanged |
| `PageCells.ReadOverflow` | rust/src/page.rs:655-671 | returns the payload last written; refuses other page kinds and implausible lengths |
| `LsmTheorems.ReadsNewestWrite` | rust/src/lsm/engine.rs:265-292 | after any interleaving of put, delete, rotation, flush, compaction, crash and reopening, a read at or above the largest retain floor is the newest write at or below it |
| `LsmTheorems.LevelsStayDisjoint` | rust/src/lsm/compaction.rs:245-257 | below L0, tables of a level are ordered and disjoint in every reachable state |
| `LsmTheorems.ReopenEnabled` | rust/src/lsm/engine.rs:107-167 | after a crash at any step the manifest file is readable and every live table is on disk and complete; the store opens if and only if the configuration is valid and the manifest is short enough to keep or small enough to rewrite |
| `LsmTheorems.CrashKeepsLayout` | rust/src/lsm/engine.rs:412-449 | a crash during flush or compaction, torn append included, reopens to the layout just before or just after the manifest edit, L0 order included |
| `LsmTheorems.OrphanedFiles` | rust/src/lsm/manifest.rs:452-478 | the orphans are the files no live table names |
| `LsmTheorems.OrphanDeletionSafe` | rust/src/lsm/manifest.rs:452-478 | deleting any orphans leaves every live table as it was |
| `LsmTheorems.CrashLossExact` | rust/src/lsm/engine.rs:341-344 | crash in any state of a run that has lost nothing before, reopen, replay: a read at or above the floor is the newest write if and only if that write was not one only memory held, covered by the checkpoint, with a different answer in the durable tables |
| `LsmTheorems.ReplayRun` | rust/src/lsm/engine.rs:223-237 | replaying the pending writes one by one reaches the state with all of them in memory |
| `LsmTheorems.SplitSeqnoLosesWrite` | rust/src/lsm/engine.rs:341-344 | under every checksum, a concrete run from the empty store with a shared sequence number that loses a write |
| `LsmTheorems.SplitWouldLose` | rust/src/lsm/engine.rs:341-344 | that run is good up to the crash, and its last state before it is one that would lose the write |
| `LsmSteps.StepKeepsInv` | rust/src/lsm/engine.rs:300-454 | every step keeps memory, levels, manifest and files consistent with the writes |
| `LsmSteps.StepKeepsLog` | rust/src/lsm/manifest.rs:243-259 | every step keeps the manifest file readable: whole while the engine is up, with at most an interrupted append behind the edits while it is down |
| `LsmCompactionSafety.CompactionKeepsLookup` | rust/src/lsm/compaction.rs:364-374 | a compaction changes no answer at or above its floor, except that a droppable tombstone may become no answer |
| `LsmCompactionSafety.ApplyKeepsLevels` | rust/src/lsm/compaction.rs:364-374 | swapping inputs for output keeps every level well formed |
| `LsmCompactionSafety.NothingBelow` | rust/src/lsm/compaction.rs:205-211 | when no deeper table overlaps a key, deeper levels have nothing to say about it |
| `LsmCompaction.PickCompaction` | rust/src/lsm/compaction.rs:313-361 | a job is planned if and only if L0 has reached its table count or a deeper level but the last its byte limit; it drains the relatively fullest level, shallowest of equals: all of L0 or the first of its largest tables, with exactly the tables of the next level they touch |
| `LsmCompaction.BudgetGrows` | rust/src/lsm/compaction.rs:63-69 | level 1 has the base budget and each deeper level the multiplier times the one above, up to the largest 64-bit number |
| `LsmCompaction.ScoreOrder` | rust/src/lsm/compaction.rs:299-308 | scores compare as load over limit does in whole numbers |
| `LsmCompaction.DropsExactly` | rust/src/lsm/compaction.rs:205-212 | tombstones are dropped exactly when the output is at the bottom and no deeper table touches the inputs' key range |
| `LsmCompaction.PickLevel` | rust/src/lsm/compaction.rs:313-321 | the highest score, the shallowest level among equals |
| `LsmRuns.MergeRuns` | rust/src/lsm/compaction.rs:390-453 | a sorted merge that keeps every version above the floor and each key's newest one at or below it, dropping that one only as an allowed tombstone; of a version in several runs the earliest run's entry counts |
| `LsmRuns.FirstIsNewest` | rust/src/lsm/memtable.rs:185-207 | the first visible version in a sorted run is the newest |
| `LsmRuns.PutSlotMembers` | rust/src/lsm/memtable.rs:166-177 | putting a version replaces an equal one and keeps all others |
| `LsmRuns.PutSlotSorted` | rust/src/lsm/memtable.rs:166-177 | the table stays ordered by key, then newest first |
| `LsmLevels.SeqnoBounds` | rust/src/lsm/memtable.rs:166-177 | the recorded bounds are attained by versions of the run and hold for all of them |
| `LsmManifestLog.Recover` | rust/src/lsm/manifest.rs:281-359 | any file yields the manifest of its intact frames, their number and their length, or is reported corrupt |
| `LsmManifestLog.CutRecovers` | rust/src/lsm/manifest.rs:305-345 | a manifest cut at any byte recovers to exactly its whole frames and their length, never to corruption |
| `LsmManifestLog.CutKeepsDurable` | rust/src/lsm/manifest.rs:305-345 | frames synced before the cut are all among them |
| `LsmManifestLog.CorruptIff` | rust/src/lsm/manifest.rs:305-345 | a file is corrupt if and only if, behind intact frames, come bytes that are neither a frame nor the end of an interrupted append |
| `LsmManifestLog.RecoveryResumes` | rust/src/lsm/manifest.rs:186-196 | for any recovered file, truncating at the reported length and appending makes the next recovery see old and new edits together |
| `LsmManifestCodec.DecodeEncode` | rust/src/lsm/manifest.rs:63-123 | every edit whose numbers fit their machine width, nested batches included, decodes from its own payload |
| `LsmManifestCodec.EditBack` | rust/src/lsm/manifest.rs:63-123 | an encoded edit is read back from in front of any bytes, which are left untouched |
| `LsmManifest.BuiltAll` | rust/src/lsm/manifest.rs:402-445 | rebuilding from a full listing gives back every level, L0 order included |
| `LsmManifest.BuiltWithout` | rust/src/lsm/manifest.rs:362-395 | retiring tables before rebuilding equals retiring them from each level |
| `LsmManifest.EditMeans` | rust/src/lsm/manifest.rs:362-395 | what each edit does to live tables, id counter and checkpoint, and to nothing else |
| `LsmManifest.BatchMeans` | rust/src/lsm/manifest.rs:388-392 | a batch is its edits one after the other |
| `LsmDisk.AddDescribes` | rust/src/lsm/engine.rs:331-338 | after the flush edit, replay describes exactly the levels with the new table |
| `LsmDisk.SwapDescribes` | rust/src/lsm/engine.rs:412-449 | after the compaction edit, replay describes exactly the swapped levels |
| `LsmDisk.SnapshotDescribes` | rust/src/lsm/manifest.rs:402-445 | a rewritten manifest describes the same levels |
| `LsmStore.OpenStore` | rust/src/lsm/engine.rs:107-167 | opening what a crash left is the reopening step, orphans deleted and a long manifest rewritten; refused exactly for a bad configuration or a manifest too long to keep and too big to rewrite |
| `LsmStore.CreateStore` | rust/src/lsm/engine.rs:107-167 | opening an empty directory gives a valid empty store, refused only for a bad configuration |
| `LsmStore.Store.PutValue` | rust/src/lsm/engine.rs:223-229 | one more write, the active table frozen when it has reached its size, or a refusal of an oversized field that changes nothing |
| `LsmStore.Store.Delete` | rust/src/lsm/engine.rs:232-237 | one more tombstone, the active table frozen when it has reached its size, or a refusal that changes nothing |
| `LsmStore.Store.RotateNow` | rust/src/lsm/engine.rs:247-252 | a non-empty active table is frozen behind the others; an empty one is left |
| `LsmStore.Store.Get` | rust/src/lsm/engine.rs:265-292 | the layered lookup, and at or above the floor the newest write |
| `LsmStore.Store.FlushOne` | rust/src/lsm/engine.rs:300-346 | the oldest frozen table becomes an L0 table and the checkpoint advances, through the flush sub-steps; refused exactly when its edit is over the limit, leaving an orphan file |
| `LsmStore.FlushedMeans` | rust/src/lsm/engine.rs:323-344 | after a flush the oldest table is the newest of L0, and the checkpoint is the larger of its old value and the highest sequence number flushed |
| `LsmStore.Store.FlushAll` | rust/src/lsm/engine.rs:349-355 | flushes oldest first until none is left or one is refused, the active table untouched |
| `LsmStore.Store.CompactOnce` | rust/src/lsm/engine.rs:362-454 | a compaction happens if and only if some level is due, on the most urgent one: the planned swap, or a refusal that moves only the table counter when the edit is over the limit |
| `LsmStore.Store.MaybeCompactManifest` | rust/src/lsm/engine.rs:460-475 | a long log is replaced by a snapshot that describes the same store, unless the snapshot is over the limit |
| `LsmStore.OrderSearch` | rust/src/lsm/compaction.rs:281-294 | trying the listed tables in turn is the search level by level |
| `LsmStore.PutSlotBytes` | rust/src/lsm/memtable.rs:166-177 | charging the new entry and refunding the replaced one keeps the byte count exact |
| `SSTable.DecodeBack` | rust/src/lsm/sstable.rs:106-173 | an encoded entry is read back wherever it lies |
| `SSTable.DecodeAt` | rust/src/lsm/sstable.rs:123-173 | decoding at an entry's offset gives the entry and the next offset |
| `SSTable.Entries` | rust/src/lsm/sstable.rs:606-643 | iterating a written data section gives back the run |
| `SSTable.Writer.Append` | rust/src/lsm/sstable.rs:237-269 | accepts an entry if and only if its key does not sort before the last, keeping data, restart points, filter and bounds those of the run |
| `SSTable.BloomInsert` | rust/src/lsm/bloom.rs:94-100 | sets the key's bits and no others |
| `SSTable.BloomContains` | rust/src/lsm/bloom.rs:107-116 | says yes exactly when all the key's bits are set |
| `SSTable.SeekOffset` | rust/src/lsm/sstable.rs:596-603 | the offset of the last index entry at or below the key, which skips only entries with smaller keys |
| `SSTable.Get` | rust/src/lsm/sstable.rs:566-593 | through key range, filter and sparse index: the first visible version of the whole run |
| `SSTableFile.FilterBack` | rust/src/lsm/bloom.rs:129-190 | a filter reads back bit for bit |
| `SSTableFile.DecodeIndex` | rust/src/lsm/sstable.rs:489-520 | a written index reads back under its own count and is refused under any other |
| `SSTableFile.ScanKeyBounds` | rust/src/lsm/sstable.rs:523-536 | the bounds are the first and the last key of the run |
| `SSTableFile.FooterBack` | rust/src/lsm/sstable.rs:359-409 | the footer of a finished file passes every check and locates its sections |
| `SSTableFile.Open` | rust/src/lsm/sstable.rs:431-486 | a finished file opens as the table that was written, with the true key bounds |
| `SSTableFile.WriteTable` | rust/src/lsm/engine.rs:311-321 | writing a sorted run refuses no entry and yields a table that describes the run, seqno bounds included |
| `SSTableFile.DoubleHashingInRange` | rust/src/lsm/bloom.rs:94-100 | double hashing probes only bits of the filter, whatever the two hashes |
| `SSTableFile.ThroughFile` | rust/src/lsm/sstable.rs:237-328 | write, open, look up answers like a scan of the run |
| `Scalar.NumberOrder` | rust/src/collection/filter.rs:105-134 | the remapped bits of finite binary64 numbers order as their values, with both zeros equal |
| `Scalar.EncodeOrder` | rust/src/collection/filter.rs:105-134 | encodings of one type compare as the values do, whatever is appended |
| `Scalar.EncodeEqual` | rust/src/collection/filter.rs:88-134 | scalars that compare equal have one encoding |
| `Scalar.EncodePrefixFree` | rust/src/collection/filter.rs:105-134 | one encoding starts another, however continued, if and only if the scalars are equal |
| `Scalar.EncodeString` | rust/src/collection/filter.rs:105-134 | the escaping loop yields the string encoding the order laws are about |
| `Scalar.EncodedEndFound` | rust/src/collection/mod.rs:514-539 | the end of an encoding is found whatever id follows |
| `Scalar.EncodedLen` | rust/src/collection/mod.rs:514-539 | the scanning loop finds that end, or reports a malformed key |
| `Scalar.EncodedLimit` | rust/src/collection/filter.rs:153-160 | an indexable scalar encodes in at most 515 bytes |
| `Metadata.CollectAt` | rust/src/collection/filter.rs:390-416 | the walk appends exactly the scalars a path reaches, through arrays |
| `Metadata.CollectedMeans` | rust/src/collection/filter.rs:390-416 | the values at a path are the indexable scalars at the end of some route through its fields and any array elements, within the depth limit |
| `Metadata.PresentMeans` | rust/src/collection/filter.rs:418-436 | a path is present if and only if some such route ends at something other than an array |
| `Metadata.FlattenAgrees` | rust/src/collection/filter.rs:451-521 | the indexed values under a path are exactly those the reference walk reaches |
| `Metadata.PresenceAgrees` | rust/src/collection/filter.rs:418-436 | the indexed presence of a path is exactly the reference one |
| `Metadata.SplitExtend` | rust/src/collection/filter.rs:379-388 | joining valid keys with dots and splitting again is the identity |
| `Filter.PrefixSuccessor` | rust/src/lib.rs:1156-1165 | scanning from a prefix to its successor, or to the end, visits exactly the keys with that prefix |
| `Filter.RangeSelects` | rust/src/collection/mod.rs:862-878 | the four range bounds select exactly the values that satisfy the comparison |
| `Filter.NumberOperators` | rust/src/collection/filter.rs:341-353 | the operators on numbers are the comparisons of their values |
| `Filter.StringOperators` | rust/src/collection/filter.rs:341-353 | the operators on strings are byte order |
| `Filter.MixedOperators` | rust/src/collection/filter.rs:341-353 | values of different kinds satisfy no operator |
| `CollectionIndex.IndexKeyFits` | rust/src/collection/mod.rs:1698-1713 | every index key fits the engine's key limit |
| `CollectionIndex.KeyOwner` | rust/src/collection/mod.rs:1698-1713 | an index key determines the document it belongs to |
| `CollectionIndex.IdsInRange` | rust/src/collection/mod.rs:809-825 | the ids behind exactly the keys in range; a malformed key is an error |
| `CollectionIndex.IdsEq` | rust/src/collection/mod.rs:827-833 | exactly the documents with an equal value at the field |
| `CollectionIndex.IdsOrdered` | rust/src/collection/mod.rs:862-878 | exactly the documents with a value in the range at the field |
| `CollectionIndex.IdsPresent` | rust/src/collection/mod.rs:926-935 | exactly the documents in which the field is present |
| `CollectionIndex.AllIds` | rust/src/collection/mod.rs:798-805 | exactly the stored ids |
| `Collection.Eval` | rust/src/collection/mod.rs:848-923 | for every parsed filter, exactly the ids whose metadata match the reference semantics, with or without the cached id set |
| `Collection.AndNarrows` | rust/src/collection/filter.rs:361-361 | conjunction intersects the selected documents, from all of them |
| `Collection.OrWidens` | rust/src/collection/filter.rs:362-362 | disjunction unites them, from none |
| `Collection.InWidens` | rust/src/collection/filter.rs:354-358 | membership is the union of equalities |
| `Collection.NotTakesTheRest` | rust/src/collection/filter.rs:359-363 | every negative form selects exactly what its positive form leaves |
| `CollectionStore.Flatten` | rust/src/collection/filter.rs:451-521 | succeeds if and only if keys, depth, path length and entry count are within limits, with each distinct entry once |
| `CollectionStore.Unindex` | rust/src/collection/mod.rs:1274-1294 | removes exactly the index keys of the stored version |
| `CollectionStore.Stage` | rust/src/collection/mod.rs:1158-1195 | staging a document, new or replacing, keeps index and count exact |
| `CollectionStore.Documents.Upsert` | rust/src/collection/mod.rs:1102-1195 | a batch is applied whole if and only if every document is acceptable: each id ends with the last of its versions in the batch, all other documents stay, and index and count stay exact |
| `CollectionStore.UpsertedReplaces` | rust/src/collection/mod.rs:1161-1175 | folding a batch in order leaves each id's last version and every document it does not name |
| `CollectionStore.Documents.Delete` | rust/src/collection/mod.rs:1297-1335 | the documents are the old ones without the named ids, and the result is how many of those existed |
| `CollectionStore.Documents.Find` | rust/src/collection/mod.rs:938-943 | after any sequence of batches and deletes, the reference answer read from the index |
| `CollectionStore.Documents.Count` | rust/src/collection/mod.rs:963-971 | the number of documents, or of those that match |

## Left out

- Engine: an I/O error that returns is a crash; counters are unbounded except where a record must fit 64 bits, so timestamp and id exhaustion is not modelled.
- Engine: the file starts initialised, because initialisation is not journaled. `Database::compact`, `restore`, watchers, metrics and file locks.
- EngineTree.FlushHoldsTree: the parent, flag and LSN fields of a page header and the last LSN of the meta page are not read. Growing the file is part of writing a page.
- EngineCheckpoint.TakeCheckpoint: the watermark and the retained commits are given; `VersionStore.Versions` computes them. The pager is opened on the file, since page cache and memory map are left out. After a failure the staged pages are simply dropped.
- FlushJournal.Recover: a journal whose full length reached the disk with wrong contents is left to the checksum, which is a parameter.
- Wal: the checksum is a parameter and bincode framing is written out for the record kinds; a damaged record in the middle of a log is treated as its end, as the code does.
- BTreePager.Pager.AllocatePage: page ids are unbounded, so running out of 32-bit ids is not modelled, and the free list is assumed intact.
- BTreeStore.Insert: trees of more than 65 levels, which the code reports as corrupt, are not modelled. A root split at the limit yields such a tree. The fill factor is an integer byte limit.
- BTreeVerify.Check: the page counts by kind and the underfull leaves of the report are left out; the latter depend on holes in the byte page.
- Pager: page cache and memory map; reading a page gives what was last written to it. The page checksum is a parameter.
- SlottedPage: flags and page LSN; `set_internal_child`, which the tree does not call.
- LsmManifestLog.Recover: the checksum is a parameter; a crash leaves a byte prefix, not zero-filled blocks.
- LsmManifestLog.Fits: numbers are unbounded here, so an edit with a number past its machine width, which the code cannot form, is treated as one over the size limit; sequence numbers given to the store are below 2^64.
- LsmStore.Store.PutValue: a (key, sequence number) pair is written once and sequence numbers of a key grow; with repeated pairs compaction prefers the copy in the older L0 table.
- LsmStore.Store.Delete: the same.
- LsmCompaction.PickCompaction: scores are exact reals instead of binary64.
- SSTable: the two key hashes are a parameter; false-positive rates are not modelled. The bounds of an empty table are those of the code and mean nothing.
- SSTable.Get: assumes a run sorted by key and descending sequence number; the writer itself orders only keys.
- Collections: vectors, full-text terms, ranking, paging (`page_ids`) and watchers. JSON text is ideal. The filter parser is left out; `Parsed` states what it guarantees.
- CollectionStore.Documents.Upsert: the record size limit and vectors are left out; the staged transaction is one atomic change of the store, and its durability is the engine's.
- The FFI layer, the vector engine, SQL, access control, encryption and the command-line tools.
