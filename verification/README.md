# Verified models of the storage engine of Karbowanec

Karbowanec keeps its blockchain in LMDB, a memory-mapped B+tree store that the
repository bundles under `external/liblmdb`.  This project models LMDB's core
algorithms in Dafny and proves what the store relies on, together with two
smaller parts of the repository: the chunked-transfer decoder of the bundled
miniupnpc and the printer and parser of account numbers.

`dafny verify dfyconfig.toml` checks everything.  The modules:

- **Transactions.** `PageAccounts` says where every page number is.  `Mvcc` is a
  state machine of readers, one writer, two meta pages, the freeDB and crashes,
  at the grain of single loads and stores of the reader table, and `WriterView`
  says what a commit publishes.  `PageRuns` and `PageStore` are the allocator,
  `FreelistSave` the saving of the free list, and `StoreRefinement` ties the
  allocator to the state machine.
- **Nested transactions.** `Nested` is a state machine of a chain of
  transactions that spill pages to the file and `NestedView` what they see in
  them; `ChildCommit` holds the in-place list operations of a child's commit and
  `CommitRefinement` shows that they carry out the machine's step.
- **Id lists.** `IdList`, `IdSort` and `IdPairs` are the array algorithms of
  `midl.c`.
- **B+tree.** `Tree`, `SplitPoint`, `TreePut` and `TreeDel` model search, put
  with recursive splits and delete with rebalancing; `PutPath` and
  `DeleteShape` say where pages are split, merged or left alone, `PageFull` and
  `SmallKeys` when these operations fail and when they cannot; `Keys` relates key
  bytes to the ranks that the trees compare; `SlottedPage` is a page at byte
  level; `Cursors` is the cursor with its page stack.
- **Compacting copy.** `CompactCopy` is the renumbering walk, `CopyPipeline` the
  protocol of its two threads.
- **The rest.** `ChunkedBody`, `AccountNumber` and `AccountCheck`; `Basics` and
  `Layout` hold what several modules share.

Five results differ from what one might expect of the code:

- The shortcut of the page split (`mdb.c:9644`) skips the look at node sizes for
  pages of 32 and more nodes.  It can choose a half that does not fit, so that
  mdb_put, and even mdb_del, report MDB_PAGE_FULL although another split of the
  page would have fitted: `PageFull.PutCanFail` and `PageFull.DeleteCanFail` are
  databases for which this happens.  `TreePut.PutFailsIff` and
  `TreeDel.DeleteFailsIff` say exactly when, `PutPath.PutByPath` from the pages on
  the search path alone, and by `SmallKeys.SmallRunsAreMapRuns` it never happens
  with keys of at most 150 bytes and nodes of at most 192.
- The check character of account numbers catches every swap of different
  neighbours in digit strings, but over the whole alphabet not that of 0 and Z:
  `AccountNumber.SwapDetectedIff`.
- It never catches a moved dash, because it is computed over the digits of both
  parts together: `AccountNumber.MovedDashAcceptedIff`.
- The recheck of a reader's slot and the later copy of the meta page need not be
  one atomic step: `Mvcc` lets any number of commits happen between them and the
  reader's snapshot is still safe, though it may be newer than the reader's id:
  `Mvcc.SnapshotCanBeNewer` is a run that ends so, and `Mvcc.CopiedSnapshot` says
  that it happens if and only if the newest meta page is two or more transactions
  ahead of that id.
- A read that begins inside a chunk extension with a hexadecimal digit makes the
  decoder take that digit for one of the size: `ChunkedBody.CutExtension`.  With
  all other cuts bodies with extensions are decoded correctly:
  `ChunkedBody.ReceiveChunks`.

Page size is any value the code accepts from 4096 bytes on; keys have 1 to 511
bytes.  Ids and page numbers are unbounded unless a width matters: the slot-0
sentinel of the id lists, the stack of the sort, the 48-bit page numbers and
16-bit fields of nodes, the 32-bit chunk size and the 32-bit halves of account
numbers are modelled as such.

## Model

| member | source | states |
|---|---|---|
| `PageAccounts.ConsumeConserves` | external/liblmdb/mdb.c:2522-2558 | merging the next freeDB record into the reclaimed list keeps the five places of page numbers pairwise disjoint and covering exactly [2, next page number) |
| `PageAccounts.MovesConserve` | external/liblmdb/mdb.c:2420-2610 | so does each of: taking reclaimed pages, a loose page or new pages, freeing pages, loosening a page, giving a run back, freeing the loose pages at commit |
| `PageAccounts.SaveConserves` | external/liblmdb/mdb.c:3420-3637 | after the free list is saved all pages outside the trees are in freeDB records, each once, under keys from 1 to the transaction id |
| `PageAccounts.SavedPlace` | external/liblmdb/mdb.c:3499-3635 | where a page of a saved record came from: its own record holds freed pages, records up to me_pglast hold reclaimed and loose pages, the others are unchanged |
| `Mvcc.OwnStepKeeps` | external/liblmdb/mdb.c:3645-3794 | a writer that writes only its own pages disturbs neither the meta pages, the live snapshots, the slots nor any cached oldest id |
| `Mvcc.NewPagesSafe` | external/liblmdb/mdb.c:2561-2568 | pages from the end of the map belong to no live snapshot |
| `Mvcc.ReclaimIsSafe` | external/liblmdb/mdb.c:2505-2558 | a record below the oldest id lists no page of a reader's snapshot or of either meta page's snapshot |
| `Mvcc.ConsumeKeeps` | external/liblmdb/mdb.c:2522-2558 | reclaiming a record keeps the invariant, in particular that nothing the writer holds is live |
| `Mvcc.ScanStepKeeps` | external/liblmdb/mdb.c:2366-2381 | a scan of the reader table in progress stays below every reader in the slots already looked at, while readers come and go |
| `Mvcc.FinishScanKeeps` | external/liblmdb/mdb.c:2505-2515 | the result of a scan may be cached as me_pgoldest |
| `Mvcc.ReaderBelow` | external/liblmdb/mdb.c:3040-3045 | no step of any reader, the publish and recheck included, can bring a reader below a value that was a lower bound before |
| `Mvcc.ReaderKeeps` | external/liblmdb/mdb.c:2976-3046 | every step of a reader keeps the invariant, with the copy of the meta page as a step of its own after the recheck |
| `Mvcc.BeginKeeps` | external/liblmdb/mdb.c:3048-3078 | a write transaction starts from the newest snapshot with an invariant that holds |
| `Mvcc.SaveKeeps` | external/liblmdb/mdb.c:4000-4006 | saving the free list keeps the invariant |
| `Mvcc.WriteMetaKeeps` | external/liblmdb/mdb.c:4177-4288 | overwriting the older meta page makes the new snapshot the newest one and keeps every other live snapshot intact |
| `Mvcc.PublishKeeps` | external/liblmdb/mdb.c:4289-4300 | publishing the new transaction id keeps the invariant |
| `Mvcc.AbortKeeps` | external/liblmdb/mdb.c:3295-3386 | an abort at any point keeps the invariant |
| `Mvcc.CrashKeeps` | external/liblmdb/mdb.c:4307-4312 | so does a crash, after which the newest snapshot is picked up again |
| `Mvcc.StepKeeps` | external/liblmdb/mdb.c:2366-4312 | every step of any interleaving of readers and the writer keeps the invariant |
| `Mvcc.ReachableIsGood` | external/liblmdb/mdb.c:2366-4312 | the invariant holds in every reachable state |
| `Mvcc.WriterNeverTouchesLivePages` | external/liblmdb/mdb.c:2420-2610 | in every reachable state, no page handed to the writer and no page it writes to the file is part of the snapshot of an active reader or of either meta page |
| `Mvcc.CachedOldestIsLowerBound` | external/liblmdb/mdb.c:2366-2381 | every value any process may have cached as me_pgoldest is at most the id of every reader that passed its recheck |
| `Mvcc.ReadersSeeAFrozenSnapshot` | external/liblmdb/mdb.c:2976-3046 | from its begin to its end a reader finds the same bytes in every page of its snapshot, whatever runs beside it |
| `Mvcc.EveryPageExactlyOnce` | external/liblmdb/mdb.c:964-965 | every page of the newest snapshot from 2 up to its last page is used by a tree or listed in one record, exactly once; the same holds of the writer's accounts |
| `Mvcc.CopiedSnapshot` | external/liblmdb/mdb.c:3040-3046 | the snapshot a reader copies is live, not older than its id, and the newest one written with the parity of its id; it has exactly that id if and only if the newest meta page is less than two transactions ahead |
| `Mvcc.SnapshotCanBeNewer` | external/liblmdb/mdb.c:3040-3046 | a run after which a reader with id 0 copies the snapshot of transaction 2 |
| `Mvcc.CrashPicksNewest` | external/liblmdb/mdb.c:4307-4312 | mdb_env_pick_meta selects the newest complete snapshot |
| `Mvcc.CrashRecovery` | external/liblmdb/mdb.c:4307-4312 | after a crash in any reachable state the picked snapshot is complete on disk; no published commit is lost, at most the one whose meta page was written is gained |
| `Mvcc.CommittedPagesOnDisk` | external/liblmdb/mdb.c:3645-3794 | when the meta page is written every page of the new snapshot is in the file |
| `Mvcc.CommitPublishesTheWritersView` | external/liblmdb/mdb.c:4000-4037 | new readers after a commit see exactly the pages and the free records of the writer |
| `WriterView.WriterReadsItsWrites` | external/liblmdb/mdb.c:3645-3794 | at every moment of a transaction, whatever was written out, brought back or runs beside it, the writer finds in each page of its trees the bytes it wrote last, or those of the snapshot it began from |
| `WriterView.CommitPublishesLastWrites` | external/liblmdb/mdb.c:3645-4037 | the snapshot a commit publishes has the pages of the one before, with those the transaction allocated and without those it gave up, each with the bytes last written to it, or with those it had before |
| `PageRuns.TightIsRun` | external/liblmdb/mdb.c:2473-2475 | one comparison of two entries shows that all entries between them are consecutive |
| `PageRuns.FindRun` | external/liblmdb/mdb.c:2470-2476 | the backward search returns 0 if and only if the list has no run of that length, and otherwise the lowest one |
| `PageRuns.LowestRun` | external/liblmdb/mdb.c:2467-2476 | the first hit from the tail is the lowest run |
| `PageRuns.TakeRun` | external/liblmdb/mdb.c:2593-2597 | the in-place removal takes out exactly the run |
| `PageRuns.WithoutRunIsDifference` | external/liblmdb/mdb.c:2593-2597 | what is left is strictly descending and, as a set, the list less the run |
| `PageRuns.InsertRun` | external/liblmdb/mdb.c:6582-6589 | the in-place insertion of mdb_ovpage_free puts the run at its place |
| `PageRuns.PutRunIsUnion` | external/liblmdb/mdb.c:6582-6589 | the result is strictly descending and, as a set, the union |
| `PageStore.Store.MergeRecord` | external/liblmdb/mdb.c:2549-2558 | merging a record is one step on the accounts and keeps them conserved |
| `PageStore.Store.TooRecent` | external/liblmdb/mdb.c:2507-2515 | a record is called too recent only after one look at the readers |
| `PageStore.Store.NextRecord` | external/liblmdb/mdb.c:2505-2531 | the next record in key order, if it is older than the oldest reader; if there is none, every further record is too recent by a fresh look |
| `PageStore.Store.Reclaim` | external/liblmdb/mdb.c:2462-2559 | the reclaim loop merges records in order, each older than the oldest reader, none if there is a run already; it stops with the lowest run, or, when no further record may be used or 60 records per wanted page were merged, without one; from a list that was long enough at first it never merges more |
| `PageStore.Store.PageAlloc` | external/liblmdb/mdb.c:2420-2610 | loose page, lowest reclaimed run or new pages, in this order; MDB_TXN_FULL and MDB_MAP_FULL exactly when the source reports them; the accounts stay conserved |
| `PageStore.Store.PageTouch` | external/liblmdb/mdb.c:2704-2799 | a clean page gets another number and its old one is freed; a dirty page stays, and so does a spilled one if the dirty list has room; a failed allocation frees nothing |
| `PageStore.Store.PageLoose` | external/liblmdb/mdb.c:2123-2165 | a dirty page outside the freeDB becomes the first loose page, any other page is freed |
| `PageStore.Store.OvpageFree` | external/liblmdb/mdb.c:6524-6601 | a run written by this transaction returns to the reclaimed list if there is one, any other run is freed |
| `PageStore.Store.FreeLoose` | external/liblmdb/mdb.c:3442-3465 | without a reclaimed list the loose pages are freed before the save |
| `StoreRefinement.ReclaimRun` | external/liblmdb/mdb.c:2462-2559 | reclaiming in the allocator is a sequence of reclaim steps of the transaction machine |
| `StoreRefinement.AllocationIsARun` | external/liblmdb/mdb.c:2420-2610 | an allocation, from any reachable state, is a run of the transaction machine, and the pages it hands out are in no live snapshot |
| `StoreRefinement.PageAllocIsARun` | external/liblmdb/mdb.c:2420-2610 | from what PageStore.Store.PageAlloc promises, with the cached oldest id or after a scan of the readers, the whole allocation is a run of the machine that hands out no live page |
| `StoreRefinement.OldestIsLeast` | external/liblmdb/mdb.c:2366-2381 | mdb_find_oldest returns the least of the last committed id and the published ids, not merely a lower bound |
| `FreelistSave.DeleteUsed` | external/liblmdb/mdb.c:3499-3509 | used and reserved records up to me_pglast are deleted, the others stay |
| `FreelistSave.SaveFreed` | external/liblmdb/mdb.c:3511-3544 | the transaction's own record is rewritten until its length is that of mt_free_pgs, which may grow meanwhile |
| `FreelistSave.WriteFreed` | external/liblmdb/mdb.c:3532-3533 | the record then holds the freed pages, sorted, each once, with their count |
| `FreelistSave.ReserveOneKeeps` | external/liblmdb/mdb.c:3553-3584 | a round of the reservation keeps total_room equal to the room in the records head_id..me_pglast |
| `FreelistSave.ReserveOneIs` | external/liblmdb/mdb.c:3553-3584 | a round writes one record, and under which key: the next smaller one exactly if room is missing, the current record fills its page and there is such a key |
| `FreelistSave.ReservedRoom` | external/liblmdb/mdb.c:3562-3571 | after it the room is exactly what is wanted, or what the other records have if that is more, unless the record is one of several that share the pages |
| `FreelistSave.HeadRoomFillsPages` | external/liblmdb/mdb.c:3562-3571 | a share of the pages fills whole overflow pages; with one page or no smaller key left everything missing gets room |
| `FreelistSave.BringUpToDate` | external/liblmdb/mdb.c:3490-3545 | deletions and the own record are up to date before room is compared |
| `FreelistSave.Reserve` | external/liblmdb/mdb.c:3490-3585 | when the reservation loop ends, total_room is the sum of the reserved lengths and at least the number of pages left, the own record is complete and no other record has changed |
| `FreelistSave.FilledIsComplete` | external/liblmdb/mdb.c:3609-3635 | with enough room the lists written are the leftover pages, each once and in order |
| `FreelistSave.Fill` | external/liblmdb/mdb.c:3609-3635 | the fill loop writes each list with its count in front and restores the borrowed slot each time |
| `FreelistSave.ReturnLoose` | external/liblmdb/mdb.c:3590-3607 | the loose pages are merged into me_pghead although the temporary list lies in the same array |
| `FreelistSave.LeftoverIsFilled` | external/liblmdb/mdb.c:3609-3635 | the record under a key is the list the fill loop wrote for it |
| `FreelistSave.SaveLeavesLeftover` | external/liblmdb/mdb.c:3546-3635 | the filled records list every reclaimed and loose page exactly once under keys in [1, me_pglast]: what PageAccounts.SaveConserves starts from |
| `FreelistSave.SettledIsSaved` | external/liblmdb/mdb.c:3546-3635 | once the reservation loop has settled, the lists of the fill loop each fit their record and descend, are disjoint and together are the pages left, and the page sets under the records' keys are what the accounts continue from |
| `FreelistSave.FillReserved` | external/liblmdb/mdb.c:3609-3635 | the records written are these lists with their counts in front |
| `Nested.StepKeeps` | external/liblmdb/mdb.c:3128-3244 | every step of a chain of nested transactions keeps the invariant, mt_dirty_room included |
| `Nested.CommitPublishesChildView` | external/liblmdb/mdb.c:3831-3959 | after a child's commit the parent sees in every page what the child saw just before |
| `Nested.StepKeepsAncestors` | external/liblmdb/mdb.c:2644-2696 | no step of the active transaction changes what an ancestor sees in its pages |
| `Nested.SpillKeepsAncestors` | external/liblmdb/mdb.c:2329-2345 | neither does writing a page out, because a page spilled by an ancestor is not spilled again |
| `Nested.RunKeepsAncestors` | external/liblmdb/mdb.c:2644-2696 | the same over whole runs, grandchildren included |
| `Nested.AbortRestoresParentView` | external/liblmdb/mdb.c:3295-3386 | after any run of a child that ends in its abort, the parent's lists are as before and every page of the parent reads as before |
| `Nested.SpillingTwiceLeaks` | external/liblmdb/mdb.c:2329-2345 | without that rule an ancestor would see the child's bytes, exactly if they differ from what it had spilled |
| `Nested.SingleAncestorLength` | external/liblmdb/mdb.c:3921-3923 | with one ancestor the merged dirty list has length MDB_IDL_UM_MAX less mt_dirty_room |
| `Nested.MergedFits` | external/liblmdb/mdb.c:3906-3934 | with any number of ancestors it fits its array |
| `Nested.StepKeepsListsFit` | external/liblmdb/mdb.c:2329-2345 | no page gets onto the spill lists of two transactions of a chain, and no dirty list overflows |
| `Nested.RunsFromFreshKeep` | external/liblmdb/mdb.c:3064-3072 | whatever an outermost transaction and its children do from its begin on, the invariant holds and the lists fit |
| `NestedView.StepView` | external/liblmdb/mdb.c:2704-2800 | for the active transaction, in every page: copying a page from the parent, spilling, unspilling, dropping, beginning and committing change nothing it sees; a write changes the bytes of its page and of no other |
| `NestedView.EveryViewIsItsLog` | external/liblmdb/mdb.c:2644-3959 | over every run from a fresh transaction, aborts included: each transaction of the chain sees in every page of its trees the last bytes that it, a committed child or an ancestor before its begin has written, and the file of the beginning elsewhere; the pages of its trees follow from the events in the same way |
| `NestedView.ViewIsLastWrite` | external/liblmdb/mdb.c:2704-2800 | in a run without aborts the active transaction sees in every page whatever the bytes of the last event that wrote it |
| `ChildCommit.CountMerged` | external/liblmdb/mdb.c:3906-3923 | the counting loop computes the length of the merged list |
| `ChildCommit.OverlaySize` | external/liblmdb/mdb.c:3906-3923 | that length is the number of distinct dirty pages of both |
| `ChildCommit.MergeDirty` | external/liblmdb/mdb.c:3924-3934 | the backward in-place merge writes the merged list |
| `ChildCommit.OverlayIsUnion` | external/liblmdb/mdb.c:3924-3934 | the merged list is ascending and the union of both, the child's entry winning |
| `ChildCommit.DropSpilled` | external/liblmdb/mdb.c:3887-3904 | what the child spilled leaves the parent's dirty list, nothing else |
| `ChildCommit.Squash` | external/liblmdb/mdb.c:3880-3884 | the squash keeps the entries before the first mark and all unmarked, undeleted ones after it, in order |
| `ChildCommit.SquashedSpill` | external/liblmdb/mdb.c:3866-3885 | the squashed list keeps its order and loses exactly the dropped entries |
| `ChildCommit.DropDirty` | external/liblmdb/mdb.c:3866-3885 | mark and squash remove exactly the child's dirty pages from the parent's spill list |
| `ChildCommit.CommitDirty` | external/liblmdb/mdb.c:3887-3934 | the parent's dirty list afterwards: the child's pages, and the parent's that the child neither dirtied nor spilled |
| `ChildCommit.JoinSpill` | external/liblmdb/mdb.c:3937-3947 | appending and sorting joins the two spill lists |
| `ChildCommit.CommitSpill` | external/liblmdb/mdb.c:3866-3947 | the parent's spill list afterwards: its own less the child's dirty pages, and the child's |
| `CommitRefinement.CommitLists` | external/liblmdb/mdb.c:3864-3947 | lists that stand for the two innermost levels of a chain stand, after the list operations of the commit, for the innermost level after the machine's commit step |
| `IdList.Search` | external/liblmdb/midl.c:34-67 | binary search in a descending list: found if and only if present, else the place of the first smaller id |
| `IdList.Need` | external/liblmdb/midl.c:143-155 | room for the requested number of ids, contents unchanged |
| `IdList.Append` | external/liblmdb/midl.c:157-169 | one id appended |
| `IdList.AppendList` | external/liblmdb/midl.c:171-183 | a list appended |
| `IdList.AppendRange` | external/liblmdb/midl.c:185-199 | a range appended in descending order |
| `IdList.XMerge` | external/liblmdb/midl.c:201-213 | the in-place backward merge with slot 0 as sentinel, also when the merged list lies behind in the same array |
| `IdList.MergeIsUnion` | external/liblmdb/midl.c:201-213 | for disjoint lists the merge is the disjoint union and strictly descending |
| `IdSort.InsertionSort` | external/liblmdb/midl.c:232-240 | sorts its segment though the scan may run below it; slots outside do not change |
| `IdSort.MedianOfThree` | external/liblmdb/midl.c:245-255 | leaves the pivot in slot l+1 between two sentinels |
| `IdSort.Partition` | external/liblmdb/midl.c:256-266 | the unguarded scans stay in the segment; larger ids end up left of the pivot, smaller ones right |
| `IdSort.StackSuffices` | external/liblmdb/midl.c:223-224 | for any int-sized list 64 stack slots are enough |
| `IdSort.Sort` | external/liblmdb/midl.c:215-279 | terminates with a descending permutation, nothing outside the list changed |
| `IdPairs.SearchPairs` | external/liblmdb/midl.c:281-313 | first position whose page number is not smaller |
| `IdPairs.Insert` | external/liblmdb/midl.c:316-345 | 0, -1 for a duplicate, -2 for a full list, each if and only if; ascending order kept |
| `Keys.Compare` | external/liblmdb/mdb.c:5765-5780 | mdb_cmp_memn is the lexicographic order, zero only for equal keys |
| `Keys.CompareReverse` | external/liblmdb/mdb.c:5784-5806 | mdb_cmp_memnr is the lexicographic order of the reversed keys |
| `Keys.RankIsOrder` | external/liblmdb/mdb.c:5765-5780 | keys up to a maximal length can be replaced by numbers with the same order and equality |
| `SlottedPage.Page.NodeAdd` | external/liblmdb/mdb.c:8152-8271 | succeeds if and only if node and slot fit; the page then holds the old nodes with the new one at its index, packed and apart |
| `SlottedPage.Page.NodeDel` | external/liblmdb/mdb.c:8279-8328 | removes exactly the node and closes the gap |
| `SlottedPage.Page.UpdateKey` | external/liblmdb/mdb.c:8643-8709 | replaces the key of one branch node if the growth fits, else changes nothing |
| `SlottedPage.InPlaceAfterDel` | external/liblmdb/mdb.c:8313-8328 | after the memmove every remaining node lies unchanged at its adjusted slot |
| `SlottedPage.InPlaceAfterUpdate` | external/liblmdb/mdb.c:8676-8709 | after the shift every other node lies unchanged at its adjusted slot and the updated one has the new key |
| `SlottedPage.LeafCellOk` | external/liblmdb/mdb.c:8192-8217 | data goes to an overflow page exactly if the node would exceed me_nodemax; the data size is stored in two halves |
| `SlottedPage.PageNumberRoundTrip` | external/liblmdb/mdb.c:8235-8238 | a branch node's 48-bit page number survives being split over three fields |
| `SlottedPage.PageNumberBytes` | external/liblmdb/mdb.c:1113-1115 | the page number stands in the first six bytes of the node, the lowest first |
| `SlottedPage.FreeSpace` | external/liblmdb/mdb.c:1017-1017 | SIZELEFT is the empty page less nodes and slots |
| `SlottedPage.SizesAgree` | external/liblmdb/mdb.c:8096-8133 | mdb_leaf_size and mdb_branch_size are the bytes a node and its slot take |
| `SplitPoint.FindSplit` | external/liblmdb/mdb.c:9644-9674 | the split point in numbers: the middle for 33 nodes and more with a new node that is not last and at most a sixteenth of a page; else the most nodes a page holds from the side of the new one, up to one past the middle, and then both halves fit |
| `SplitPoint.SplitIndexIs` | external/liblmdb/mdb.c:9644-9674 | the same for the function the trees use |
| `SplitPoint.SearchedSplitFits` | external/liblmdb/mdb.c:9601-9674 | whenever the search runs, for every mix of node sizes both halves are non-empty and fit a page |
| `SplitPoint.ShortcutSplitFits` | external/liblmdb/mdb.c:9644-9644 | when the search is skipped the halves fit if and only if the new node fits into the free space plus the half that leaves |
| `SplitPoint.ShortcutCanOverflow` | external/liblmdb/mdb.c:9644-9644 | a page of 32 nodes for which they do not, and a split of it that fits |
| `SplitPoint.SomeSplitFits` | external/liblmdb/mdb.c:9601-9674 | every overfull page has a split that fits |
| `SplitPoint.SmallNodeFits` | external/liblmdb/mdb.c:9644-9644 | a new node of at most sixteen times the smallest node is always placed well |
| `SplitPoint.SplitLeavesTwo` | external/liblmdb/mdb.c:9644-9674 | both halves of a branch get at least two nodes |
| `SplitPoint.MoveNodes` | external/liblmdb/mdb.c:9741-9794 | left and right together are the old nodes with the new one at its index |
| `Tree.NodeSearch` | external/liblmdb/mdb.c:5816-5904 | the binary search in a page finds the first key not smaller, and says if it is equal |
| `Tree.FollowIndex` | external/liblmdb/mdb.c:6354-6370 | the child followed on the way down is the one the separators assign |
| `Tree.LookupDescends` | external/liblmdb/mdb.c:6323-6400 | a key is among the records of a branch if and only if it is among those of that child |
| `Tree.Find` | external/liblmdb/mdb.c:6641-6664 | a lookup from the root agrees with a lookup in the ordered contents |
| `Tree.ShapeOrdered` | external/liblmdb/mdb.c:6323-6400 | the records of a well-formed tree ascend |
| `Tree.LookupIsMembership` | external/liblmdb/mdb.c:6641-6664 | a record is found if and only if it is there |
| `Tree.UpsertLaws` | external/liblmdb/mdb.c:7422-7946 | storing changes the value of one key, leaves all others, keeps the order and counts one more record if the key is new |
| `Tree.RemoveLaws` | external/liblmdb/mdb.c:9410-9467 | removing takes out one key and leaves all others |
| `Tree.UpsertIsMapUpdate` | external/liblmdb/mdb.c:9897-9919 | as a map, storing is m[key := data] |
| `Tree.RemoveIsMapRemoval` | external/liblmdb/mdb.c:9410-9425 | as a map, removing is m - {key} |
| `TreePut.SplitLeafGood` | external/liblmdb/mdb.c:9481-9894 | a split leaf is two valid leaves with the records in order, unless the shortcut misplaced the node |
| `TreePut.PutInLeafGood` | external/liblmdb/mdb.c:7733-7946 | a put into a leaf, overwriting in place, replacing or adding, stores exactly this record |
| `TreePut.OverflowIff` | external/liblmdb/mdb.c:4876-4877 | data goes to overflow pages if and only if two such nodes would not fit a page |
| `TreePut.SplitBranchGood` | external/liblmdb/mdb.c:9601-9794 | a split branch is two valid branches, the right one starting with an empty key, with all children between their separators |
| `TreePut.AbsorbGood` | external/liblmdb/mdb.c:9688-9727 | a branch takes a changed child or two halves of a split child |
| `TreePut.Put` | external/liblmdb/mdb.c:7422-7946 | whatever the pages on the way, a put below a page gives valid pages of the same depth with the record stored, or fails for one reason |
| `TreePut.PutFullIff` | external/liblmdb/mdb.c:9644-9644 | it fails if and only if the leaf, or a branch above it that receives a separator, is split by the shortcut and the new node's half does not fit |
| `TreePut.SmallEntryNeverJams` | external/liblmdb/mdb.c:9644-9644 | no leaf fails on a node of at most 192 bytes |
| `TreePut.SmallKeyNeverJams` | external/liblmdb/mdb.c:9644-9644 | no branch fails on a key of at most 150 bytes |
| `TreePut.NewRootValid` | external/liblmdb/mdb.c:9512-9545 | a root that was split gets a new root one level up |
| `TreePut.LastRank` | external/liblmdb/mdb.c:7157-7198 | the last record is found through the last children |
| `TreePut.PutRecord` | external/liblmdb/mdb.c:9897-9919 | mdb_put: MDB_BAD_VALSIZE, MDB_KEYEXIST and MDB_PAGE_FULL each if and only if their condition holds; else a valid tree whose contents are the old ones with the record stored |
| `TreePut.PutOutcome` | external/liblmdb/mdb.c:7422-7946 | a put that arguments and flags allow stores exactly this record in a valid tree, or fails at a page the shortcut splits badly |
| `TreePut.PutFailsIff` | external/liblmdb/mdb.c:9644-9644 | the exact condition of that failure, for whole databases |
| `PutPath.PutClimbs` | external/liblmdb/mdb.c:9481-9703 | whether a put fails below a page, and the separator it passes up, follow from the keys and node sizes of the pages on its search path alone |
| `PutPath.PutByPath` | external/liblmdb/mdb.c:9644-9644 | so the search path alone decides whether mdb_put reports MDB_PAGE_FULL and whether the tree grows by a level |
| `PutPath.LeafSplitsThere` | external/liblmdb/mdb.c:9644-9686 | a leaf is split at that point, an appended record goes alone to a new page, and the key of the first right node goes up |
| `PutPath.BranchSplitsThere` | external/liblmdb/mdb.c:9644-9686 | a branch is split at that point; the first key of its right half goes up and is dropped there |
| `TreePut.ContentsOrdered` | external/liblmdb/mdb.c:7422-7946 | so the laws of updates apply to the contents of every valid tree |
| `TreeDel.FilledIsThreshold` | external/liblmdb/mdb.c:1020-1025 | PAGEFILL reaches the threshold exactly if the used bytes reach that share of the page |
| `TreeDel.RaiseLow` | external/liblmdb/mdb.c:6409-6422 | the lowest key below a page can serve as its separator |
| `TreeDel.MoveRightIsCut` | external/liblmdb/mdb.c:8733-8951 | moving the last node to the right neighbour is the merged page cut one node earlier |
| `TreeDel.MoveLeftIsCut` | external/liblmdb/mdb.c:8733-8951 | moving the first node to the left neighbour is the merged page cut one node later |
| `TreeDel.CutGood` | external/liblmdb/mdb.c:8733-8951 | a merged page cut where both parts fit is a valid pair with its separator |
| `TreeDel.MoveRightGood` | external/liblmdb/mdb.c:9266-9293 | the move leaves two valid pages with the same records and a correct separator, and always fits |
| `TreeDel.MoveLeftGood` | external/liblmdb/mdb.c:9253-9293 | the same in the other direction |
| `TreeDel.MergeGood` | external/liblmdb/mdb.c:8962-9097 | merged neighbours hold both records in order; the pulled-down key costs at most 512 bytes |
| `TreeDel.MergeFits` | external/liblmdb/mdb.c:9284-9305 | pages that are merged always fit one page |
| `TreeDel.RebalanceGood` | external/liblmdb/mdb.c:9129-9309 | rebalancing a child keeps the records, gives it and its neighbours their minimum, and leaves at most the parent to rebalance |
| `DeleteShape.RebalanceIs` | external/liblmdb/mdb.c:9129-9309 | exactly what a rebalance does, in literal thresholds: a page not below its minimum stays; otherwise it is merged with the left neighbour, the first child with the right one, if and only if that has no node to spare, and gets one node of it if it has |
| `DeleteShape.LowestIsFirst` | external/liblmdb/mdb.c:6409-6422 | the key found for a page without one is that of its first record |
| `DeleteShape.DepthAfterDelete` | external/liblmdb/mdb.c:9156-9235 | the depth after a deletion: one less exactly if the last two children of the root are merged, one more exactly if the root cannot take a new separator; empty exactly if the only record goes |
| `TreeDel.Delete` | external/liblmdb/mdb.c:9313-9407 | a deletion below a page reports not found if and only if the key is absent; otherwise the other records remain in pages valid up to the one still to rebalance |
| `TreeDel.CollapseGood` | external/liblmdb/mdb.c:9156-9235 | at the root an empty leaf is dropped and a branch with one child replaced by it: the tree is valid again |
| `TreeDel.DeleteRecord` | external/liblmdb/mdb.c:9410-9467 | mdb_del: MDB_NOTFOUND if and only if the key is absent; else a valid tree with exactly that key removed |
| `TreeDel.DeleteFailsIff` | external/liblmdb/mdb.c:8676-8685 | mdb_del reports MDB_PAGE_FULL if and only if a new separator makes a parent split by the shortcut and the half does not fit |
| `PageFull.PutCouldFit` | external/liblmdb/mdb.c:9644-9644 | whenever mdb_put reports MDB_PAGE_FULL, the page has 33 nodes or more, the new one is not the last and at most a sixteenth of a page, the split in the middle does not fit and another one would have fitted |
| `PageFull.DeleteCouldFit` | external/liblmdb/mdb.c:9644-9644 | the same for mdb_del |
| `PageFull.PutCanFail` | external/liblmdb/mdb.c:9644-9644 | a valid database of one 4096-byte page and a new record for which mdb_put reports MDB_PAGE_FULL, with a split that fits |
| `PageFull.DeleteCanFail` | external/liblmdb/mdb.c:8676-8685 | a valid database of depth two, its leaves above the fill threshold, for which mdb_del of a present key reports MDB_PAGE_FULL, with a split that fits |
| `SmallKeys.PutKeys` | external/liblmdb/mdb.c:9675-9682 | every key and separator of the pages a put makes was in the tree before or is the new key |
| `SmallKeys.DeleteKeys` | external/liblmdb/mdb.c:8733-9097 | every key and separator of the pages a deletion makes was in the tree before |
| `SmallKeys.SmallMoveNeverJams` | external/liblmdb/mdb.c:8676-8685 | no branch fails on a separator of at most 150 bytes in place of another |
| `SmallKeys.SmallPutNeverFails` | external/liblmdb/mdb.c:9644-9644 | if all keys have at most 150 bytes and the new node at most 192, mdb_put never reports MDB_PAGE_FULL, and the keys stay short |
| `SmallKeys.SmallDeleteNeverFails` | external/liblmdb/mdb.c:8676-8685 | if all keys have at most 150 bytes, mdb_del never reports MDB_PAGE_FULL, and the keys stay short |
| `SmallKeys.SmallRunsAreMapRuns` | external/liblmdb/mdb.c:7422-9467 | any sequence of such puts and deletions does to the contents what it does to a map |
| `Cursors.ValidIsPopulated` | external/liblmdb/mdb.c:6675-6729 | a valid tree has records below every page |
| `Cursors.Cursor.Sibling` | external/liblmdb/mdb.c:6675-6729 | the neighbouring page at the same level, if and only if there are records on that side; a failed move leaves stack and indices as before |
| `Cursors.Cursor.DescendFirst` | external/liblmdb/mdb.c:6409-6422 | descends to the leaf with the first record |
| `Cursors.Cursor.DescendLast` | external/liblmdb/mdb.c:6341-6378 | descends to the leaf with the last record, keeping the part of the stack that leads there |
| `Cursors.Cursor.DescendKey` | external/liblmdb/mdb.c:6323-6400 | descends to the leaf where the key belongs |
| `Cursors.Cursor.First` | external/liblmdb/mdb.c:7111-7153 | MDB_FIRST shows record 0; MDB_NOTFOUND if and only if empty |
| `Cursors.Cursor.Last` | external/liblmdb/mdb.c:7157-7198 | MDB_LAST shows the last record |
| `Cursors.Cursor.Next` | external/liblmdb/mdb.c:6733-6821 | MDB_NEXT shows the next record, MDB_NOTFOUND if and only if there is none, and then stays; from a new cursor it is MDB_FIRST |
| `Cursors.Cursor.Prev` | external/liblmdb/mdb.c:6825-6907 | MDB_PREV shows the previous record, MDB_NOTFOUND if and only if there is none; from a new cursor it is MDB_LAST |
| `Cursors.Cursor.SetRange` | external/liblmdb/mdb.c:6911-7107 | MDB_SET_RANGE finds the first record not below the key from any cursor position: the shortcuts on the current page give what a search gives |
| `Cursors.Scan` | external/liblmdb/mdb.c:6733-6821 | MDB_FIRST and MDB_NEXT visit every record once, in order |
| `Cursors.ScanBack` | external/liblmdb/mdb.c:6825-6907 | MDB_PREV from a new cursor visits every record once, in reverse |
| `CompactCopy.WrittenConsecutive` | external/liblmdb/mdb.c:10050-10203 | the copy of a tree takes consecutive page numbers without gap or clash, overflow runs and named databases included, the root last |
| `CompactCopy.RefsAscend` | external/liblmdb/mdb.c:10050-10203 | children are numbered from left to right |
| `CompactCopy.ItemsAscend` | external/liblmdb/mdb.c:10094-10154 | so are overflow runs and named databases of a leaf |
| `CompactCopy.CopyRepresents` | external/liblmdb/mdb.c:10050-10203 | a file with these pages holds the same tree |
| `CompactCopy.CopyIsFaithful` | external/liblmdb/mdb.c:10050-10203 | both together |
| `CompactCopy.Copier.WalkItems` | external/liblmdb/mdb.c:10094-10154 | overflow runs and named databases of a leaf are written before it and their new numbers stored in it |
| `CompactCopy.Copier.Walk` | external/liblmdb/mdb.c:10050-10203 | the walk with an explicit stack writes exactly the pages of the recursive definition |
| `CompactCopy.FreeCountIsSize` | external/liblmdb/mdb.c:10282-10287 | the sum of record lengths is the number of pages listed |
| `CompactCopy.PageNosSize` | external/liblmdb/mdb.c:10279-10297 | a tree that reaches no page twice has as many pages, overflow runs and named databases included, as page numbers |
| `CompactCopy.PredictionHoldsIff` | external/liblmdb/mdb.c:10279-10313 | the root number predicted in advance is the real one if and only if the page numbers of the main tree, of the freeDB and in its records are all there are; otherwise the copy reports MDB_INCOMPATIBLE |
| `CompactCopy.ConservedIsPredicted` | external/liblmdb/mdb.c:10279-10313 | with page conservation the prediction holds |
| `CopyPipeline.StepKeeps` | external/liblmdb/mdb.c:9968-10042 | every step of the two threads keeps the invariant |
| `CopyPipeline.OutputInOrder` | external/liblmdb/mdb.c:9968-10018 | in every interleaving the output is a prefix of the input, and all of it when the writer has gone |
| `CopyPipeline.NeverTouchesQueued` | external/liblmdb/mdb.c:10029-10042 | the provider never fills or clears a buffer that is queued |
| `CopyPipeline.NeverBothAsleep` | external/liblmdb/mdb.c:9969-9973 | the threads never both wait, and a waiting thread has not missed its signal |
| `CopyPipeline.WriterLeavesLast` | external/liblmdb/mdb.c:9970-9973 | the writer exits only after the end with nothing pending |
| `CopyPipeline.NoDeadlock` | external/liblmdb/mdb.c:9968-10042 | until both are done one of them can go on, without spurious wake-ups |
| `CopyPipeline.RunsAreShort` | external/liblmdb/mdb.c:9968-10042 | without new work and spurious wake-ups, no schedule of the two threads takes more steps than the work left |
| `CopyPipeline.RunsEndWell` | external/liblmdb/mdb.c:9968-10042 | and it ends only with the provider back at its buffer, or with both threads done and all input written |
| `ChunkedBody.Decoder.ParseSize` | external/miniupnpc/miniwget.c:260-269 | the value of the collected digits, modulo 2^32 |
| `ChunkedBody.DigitIs` | external/miniupnpc/miniwget.c:262-266 | the value of a hexadecimal digit, in either case |
| `ChunkedBody.ValueFromLeft` | external/miniupnpc/miniwget.c:260-269 | sizes are read by place values |
| `ChunkedBody.Decoder.ReadSize` | external/miniupnpc/miniwget.c:241-286 | the size of a chunk is read correctly and its extension discarded, wherever the line is cut outside the extension, or inside it in front of another character than a hexadecimal digit |
| `ChunkedBody.Decoder.ScanSize` | external/miniupnpc/miniwget.c:244-259 | which digits are collected and where the line end is; a read that goes on with a size line leaves its digits alone if and only if it does not begin with a hexadecimal digit or they are 31 |
| `ChunkedBody.CutExtension` | external/miniupnpc/miniwget.c:249-257 | the size line 1;a gives 1 when read at once and 26 when cut behind the semicolon |
| `ChunkedBody.Decoder.Read` | external/miniupnpc/miniwget.c:236-312 | one read, together with the state before it and what is still to come, yields the part of the data it contains and a state that fits the rest |
| `ChunkedBody.EncodedIsWellFormed` | external/miniupnpc/miniwget.c:236-312 | every sequence of chunks with extensions is a well-formed body with the chunks' data if no read begins inside an extension with a hexadecimal digit |
| `ChunkedBody.Receive` | external/miniupnpc/miniwget.c:236-312 | however a well-formed body is cut into reads, the content is its data |
| `ChunkedBody.ReceiveChunks` | external/miniupnpc/miniwget.c:236-312 | for every sequence of chunks, any spelling of the sizes, any extensions and any trailer, the content is the concatenated data, if there are no extensions or no read begins inside one with a hexadecimal digit |
| `AccountNumber.PackRoundTrip` | include/AccountNumber.h:29-35 | packing into 64 bits and unpacking gives the account number back |
| `AccountNumber.UnpackRoundTrip` | include/AccountNumber.h:29-35 | every 64-bit value unpacks to an account number that packs to it |
| `AccountCheck.PackedOrder` | include/AccountNumber.h:29-31 | packed values are ordered by height first and by index second |
| `AccountNumber.LuhnGenerate` | include/AccountNumber.h:95-116 | the loop computes the check character of the weighted sum, or ? for a foreign character |
| `AccountCheck.CheckCharLaw` | include/AccountNumber.h:95-116 | for every string of codes the check character is the only one of the alphabet that makes a multiple of 36 of its code, the base 36 digit sums of every second code doubled, from the last on, and the other codes |
| `AccountCheck.DigitCheckLaw` | include/AccountNumber.h:95-116 | for digit strings: of its code, twice every second digit and the other digits |
| `AccountCheck.CodeOf` | include/AccountNumber.h:88-93 | codes of characters, in either case |
| `AccountNumber.FromString` | include/AccountNumber.h:43-80 | the parser, with its scanning loops, accepts what the specification accepts |
| `AccountNumber.AcceptedIff` | include/AccountNumber.h:43-80 | a string is accepted if and only if it is H-I-C with digit strings below 2^32 and their check character, in either case |
| `AccountCheck.AcceptedInNumbers` | include/AccountNumber.h:43-80 | the same in numbers only: the digits before and after the dash, 2^32 and the check sum |
| `AccountCheck.NumberFromLeft` | include/AccountNumber.h:43-80 | digit strings are read by place values |
| `AccountCheck.PrintedInNumbers` | include/AccountNumber.h:37-41 | what is printed, in the same numbers, the check character in upper case |
| `AccountCheck.NoLeadingZero` | include/AccountNumber.h:37-41 | printed numbers have no leading zero |
| `AccountNumber.PrintRoundTrip` | include/AccountNumber.h:37-80 | printing and parsing gives the account number back |
| `AccountNumber.AcceptedReprints` | include/AccountNumber.h:37-80 | every accepted string reprints to one that parses to the same value |
| `AccountNumber.SubstitutionDetected` | include/AccountNumber.h:95-116 | in strings of any length one changed character changes the check character |
| `AccountNumber.SwapDetectedIff` | include/AccountNumber.h:95-116 | a swap of neighbours is missed if and only if they are equal or 0 and Z |
| `AccountNumber.DigitSwapDetected` | include/AccountNumber.h:95-116 | so in digit strings every swap of different neighbours is detected |
| `AccountNumber.MistypedHeightRefused` | include/AccountNumber.h:43-80 | a mistyped digit of the block height is refused |
| `AccountNumber.MistypedIndexRefused` | include/AccountNumber.h:43-80 | a mistyped digit of the transaction index is refused |
| `AccountNumber.SwappedDigitsRefused` | include/AccountNumber.h:43-80 | two different neighbouring digits swapped, in the height, in the index or across the dash, are refused |
| `AccountNumber.MovedDashAcceptedIff` | include/AccountNumber.h:71-75 | with the dash moved the string is refused if and only if a part is empty or 2^32 and more |
| `AccountNumber.MovedDashMissed` | include/AccountNumber.h:71-75 | two account numbers that share digits and check character |

## Left out

- DUPSORT and DUPFIXED databases, LEAF2 pages, sub-pages and sub-cursors: a large extension of the page and cursor models.
- MDB_WRITEMAP, MDB_VL32, MDB_PREVSNAPSHOT, MDB_PARANOID and the debugging variants: other builds or modes of the same operations.
- Failures of malloc, of file writes and of locks: every operation is modelled as it runs when they succeed.
- Files, maps, fsync, lock files, semaphores and the opening of environments: replaced by atomic steps; which pages a crash loses is limited to those not yet written.
- Stale readers and the recovery of a dead writer's mutex: they depend on the liveness of processes.
- Fix-ups of other cursors when a page is split, merged or moved, and the position of a cursor after a write: cursors are modelled over a tree that does not change.
- Tree, TreePut and TreeDel work on page values, not on pages updated in place: page numbers, touching and aliasing of pages are covered by PageStore, the bytes of a page by SlottedPage.
- Which page numbers a put or a deletion touches, adds and gives up along its path: PageStore keeps the pages of the trees as a set, and TreePut and TreeDel have no page numbers.
- TreeDel.DeleteFailsIff: its condition follows the deletion up the tree, where that of PutPath.PutByPath is one over the search path, because rebalancing also looks at neighbours and at the lowest keys below them.
- MDB_CURRENT, MDB_MULTIPLE, MDB_RESERVE and mdb_cursor_del: variants of the modelled put and delete.
- Whether an overflow run is long enough and dirty, so that new data overwrites the old in place: the parameter `reuse` of TreePut.
- MDB_SET, MDB_GET_CURRENT and the other cursor operations: easy additions to MDB_SET_RANGE, MDB_NEXT and MDB_PREV.
- SlottedPage keeps the slot array apart from the bytes of the page: that slots and nodes do not collide is the proved `lower <= upper`.
- PageStore keeps its lists as sequences: the in-place array forms of the same steps are IdList.XMerge, PageRuns.TakeRun and PageRuns.InsertRun, proved against the same functions.
- MDB_NOLOCK and read-only environments without a reader table: readers there have no slot to protect them.
- FreelistSave.Reserve: states what holds when the loop ends, not that it ends, because that depends on how the freeDB grows under its own writes; the effect of each Put on the lists is a parameter.
- PageStore.Store.PageAlloc: without the reservation of address space on Windows; what a scan of the readers returns is the parameter `scan`, which Mvcc.CachedOldestIsLowerBound justifies.
- Nested.StepKeeps: overflow runs count as single pages, and the order in which mdb_page_spill picks pages is left open: any page that may be spilled can be.
- CompactCopy.Copier.Walk: does not bound the depth by the cursor's stack of 32 pages.
- CopyPipeline.StepKeeps: the fixed size of the buffers and write errors are not modelled.
- ChunkedBody.Receive: bodies without a Content-Length, sizes of at most 31 digits and below 2^32, as the decoder needs; its parsing of header lines is not modelled.
- AccountNumber.LuhnGenerate: the sum is unbounded, where the code adds in an int.
- The tools `mdb_copy`, `mdb_dump`, `mdb_load`, `mdb_stat`, `mdb_drop`, the rest of miniupnpc, linenoise and the node's own headers: plumbing, interfaces and constants.
