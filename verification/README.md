# Verified core of the vendored LMDB and micro-ecc

This project models, in Dafny, the parts of two C libraries the node depends on and
proves what they are relied on for.

**LMDB** (`vendors/ocaml-lmdb`): the multi-version protocol of one copy-on-write writer
and lock-free readers, as a step system over all interleavings, crashes and deaths
(`Mvcc*.dfy`); the page-number lists and their sort (`Idl*.dfy`, `Pghead.dfy`); saving the
free list (`FreelistSave.dfy`), which establishes exactly what the protocol's save step
assumes, and allocating pages (`PageAlloc.dfy`), which only takes steps of the protocol;
the merge of a nested transaction's lists (`DirtyList.dfy`, `NestedCommit.dfy`); slotted
B+tree pages, their split and rebalancing (`PageLayout.dfy`, `SlottedPage.dfy`,
`SplitPoint.dfy`, `PageSplit.dfy`, `SplitFails.dfy`, `Rebalance.dfy`); and cursor stepping
(`Cursor.dfy`).

**micro-ecc** (`vendors/ocaml-uecc`): multi-word arithmetic (`Vli.dfy`, `VliMult.dfy`,
`Product.dfy`, `Mmod.dfy`, `ModInv.dfy`), the fast reductions (`FastReduce.dfy`,
`FastRefines.dfy`), and, over an abstract group of points, the Montgomery ladder and ECDSA
(`Group.dfy`, `Ladder.dfy`, `EcdsaMath.dfy`, `Ecdsa.dfy`).

Code that works in place is modelled in place: arrays for lists, pages and words, classes
for pages, cursors, the free-list saver and the page allocator. The protocol is a relation between states.
Words are numbers below a `radix` (a power of two where bits matter); statements hold for
every word size and word count unless a size is named.

Four properties one might expect turn out not to hold of the code, and are stated with
their exact condition:

- A page split can leave a half that does not fit. `mdb_page_split` looks at entry sizes
  only if the page has fewer than 20 entries, or the new entry is larger than a sixteenth
  of a page, or it goes last. `PageSplit.Split` proves that in these cases all nodes fit,
  and that otherwise they fit if and only if both halves at the middle do;
  `SplitFails.Fails` builds a page for which they do not. The comment in the code
  names such a mix of small and large entries as a reason for looking at the sizes.
- A signature can be made that does not verify. `uECC_sign_with_k` stores x(kG) without
  reducing it modulo n and does not test s for zero, unlike section 4.1.3 of SEC 1;
  `Ecdsa.RoundTrip` proves that verification accepts if and only if r = x(kG) is in (0, n)
  and e + r * d is not zero modulo n, and `Ecdsa.SignedButRejected` gives, for every key
  and every nonce that signing takes, a hash that fails.
- The sort of a page-number list computes midpoints as the sum of two ints.
  `IdlSortMain.Sort` and `IdlSortLimit.LateExists` prove that this sum fits for all lists
  of a length if and only if the length is at most 2^30 + 3.
- The meta page that is not selected need not be a whole snapshot. A meta page that was
  written but not synced by a writer that died is published by recovery, and a crash can
  lose it after the next transaction has written pages of the snapshot it replaced
  (`MvccRuns.OlderMetaCanBeStale`). `MvccFallback.FallbackExact` proves that what such a
  crash brings back is whole if and only if it was whole when it was replaced and none of
  its pages was written since. The selected snapshot is whole in every case
  (`MvccSafety.CrashRecovers`).

`dafny verify dfyconfig.toml` checks the whole project.

## Model

| member | source | states |
|---|---|---|
| `MvccSafety.RunInv` | vendors/ocaml-lmdb/src/mdb.c:2976-3060 | Every state of every run, crashes and deaths of readers and writers at any step included (also between writing and syncing a meta page), satisfies the protocol invariant: the published snapshot and every reader's snapshot are intact, so is the other meta snapshot unless a crash has brought it back stale, the writer's page lists partition its pages, and cached and scanned oldest ids never pass a live reader. |
| `MvccSafety.SnapshotSafety` | vendors/ocaml-lmdb/src/mdb.c:3040-3045 | A thread that is reading copied its snapshot from a meta page at an earlier step, after its recheck; the snapshot is a committed one whose id is at least the id the thread published, and from that step on, at every state, all its pages hold the committed contents and none is writable by the transaction in progress. |
| `MvccSafety.WritesMissSnapshots` | vendors/ocaml-lmdb/src/mdb.c:2507-2531 | A page the writer flushes belongs to no snapshot that is being read, not to the published snapshot, and not to the other meta snapshot unless a crash has brought that one back stale. |
| `MvccSafety.CachedOldestIsSafe` | vendors/ocaml-lmdb/src/mdb.c:2364-2381 | The me_pgoldest cached by any process is at most the id of every reader that passed the recheck, and that reader's slot still shows this id: using the cache instead of a fresh scan is safe. |
| `MvccSafety.BothSnapshotsWhole` | vendors/ocaml-lmdb/src/mdb.c:4135-4258 | At every state the snapshot mdb_env_pick_meta selects is complete on disk and accounts for every page, and so is the other one, in particular as long as a crash could still lose the newest meta page, unless a crash has brought it back after one of its pages had been written; while transaction N runs the two are N-1 and N-2. |
| `MvccSafety.DamageComesFrom` | vendors/ocaml-lmdb/src/mdb.c:4135-4258 | The other meta snapshot is unreliable only after a page of a snapshot was written that an unsynced meta page had replaced, and a crash then lost a meta page; and only until the next commit writes over it. |
| `MvccFallback.WrittenAt` | vendors/ocaml-lmdb/src/mdb.c:4135-4258 | Whenever a crash could lose the newest meta page, a commit wrote it and nothing was synced since. |
| `MvccFallback.FallbackExact` | vendors/ocaml-lmdb/src/mdb.c:4135-4258 | Losing that page brings back a whole snapshot, whatever the unsynced pages then hold, if and only if none of its pages was written since that commit and it was whole at that commit, which it was unless an earlier crash had brought it back damaged. |
| `MvccRuns.OlderMetaCanBeStale` | vendors/ocaml-lmdb/src/mdb.c:11083-11120 | That does happen: a run in which a writer dies before syncing its meta page, the next transaction reuses a page, and a crash then loses the meta page; the snapshot selected is whole and the one before it is not. |
| `MvccSafety.CrashRecovers` | vendors/ocaml-lmdb/src/mdb.c:4264-4269 | After a crash at any step, with any junk in unsynced pages, mdb_env_pick_meta selects exactly the newest meta page written, N, or N-1 if N was unsynced and lost; all its pages are on disk and accounted for, and so are those of the other meta page unless it is stale. |
| `MvccSafety.CommitSurvives` | vendors/ocaml-lmdb/src/mdb.c:4215-4258 | Durability: once the meta page of commit N has been synced, mdb_env_pick_meta never again finds a snapshot older than N, whatever crashes and deaths follow. |
| `MvccSafety.NextWriterFollowsNewest` | vendors/ocaml-lmdb/src/mdb.c:11083-11120 | After a writer died, before or after its meta page was written, recovery and the next writer start from the newest snapshot with the id after it. |
| `MvccSafety.CommitConserves` | vendors/ocaml-lmdb/src/mdb.c:2419-2605 | The snapshot a commit writes splits pages 2..last exactly, without overlap, between pages in use and pages listed in exactly one freeDB record, whatever allocations, touches, loosenings, overflow frees, reclaims and saves went before. |
| `MvccSafety.PublishedIdGrows` | vendors/ocaml-lmdb/src/mdb.c:4247-4257 | mti_txnid changes by at most one per step, and falls exactly when a crash loses a meta page that recovery had published and that was never synced. |
| `MvccRuns.ReadDuringCommit` | vendors/ocaml-lmdb/src/mdb.c:3040-3045 | Runs reach what these theorems speak of: for every initial state there is a run in which a reader keeps the empty snapshot while a transaction commits a page. |
| `MvccInvariant.StepInv` | vendors/ocaml-lmdb/src/mdb.c:2364-2605 | Every enabled step (slot claim, load, store, recheck, meta copy, oldest scan slot by slot, reclaim, page move, flush, freelist save, sync, meta write, publish, abort, crash, death, recovery) keeps the invariant. |
| `Idl.Search` | vendors/ocaml-lmdb/src/midl.c:34-68 | The position returned holds the id exactly when the list does; otherwise everything before it is larger and everything from it on smaller. |
| `Idl.XMerge` | vendors/ocaml-lmdb/src/midl.c:201-213 | In place, the list becomes the stable descending merge of both lists, also when the second list lies in the unused tail of the same buffer; nothing behind the result changes. |
| `Idl.MergeContents` | vendors/ocaml-lmdb/src/midl.c:201-213 | The merge has the length of both lists together and keeps every id with its multiplicity. |
| `Idl.MergeDescending` | vendors/ocaml-lmdb/src/midl.c:201-213 | The merge of descending lists is descending. |
| `Idl.MergeStrict` | vendors/ocaml-lmdb/src/midl.c:201-213 | The merge of disjoint strictly descending lists is strictly descending. |
| `IdlSort.InsertionSort` | vendors/ocaml-lmdb/src/midl.c:232-240 | Although the inner loop runs down to index 1, a segment dominated by what precedes it is sorted descending and nothing outside it moves. |
| `IdlSort.MedianOfThree` | vendors/ocaml-lmdb/src/midl.c:245-255 | First, second and last entry end up in descending order, the second being the median of the first, middle and last, by permuting the segment only. |
| `IdlSort.ScanUp` | vendors/ocaml-lmdb/src/midl.c:260 | The unguarded upward scan stops inside the segment. |
| `IdlSort.ScanDown` | vendors/ocaml-lmdb/src/midl.c:261 | The unguarded downward scan stops inside the segment. |
| `IdlSort.Partition` | vendors/ocaml-lmdb/src/midl.c:256-266 | The segment is permuted so that everything left of i is at least the pivot and everything right of j at most the pivot, with j < i. |
| `IdlSortMain.StackFits` | vendors/ocaml-lmdb/src/midl.c:224-276 | Because the larger part is pushed, the stack of pending segments never needs more than its 64 ints, for every int-sized list. |
| `IdlSortMain.Push` | vendors/ocaml-lmdb/src/midl.c:267-276 | The stack then holds the pushed segment above the earlier ones. |
| `IdlSortMain.Pop` | vendors/ocaml-lmdb/src/midl.c:241-243 | The segment pushed last comes back and the others stay. |
| `IdlSortMain.Sort` | vendors/ocaml-lmdb/src/midl.c:220-279 | For every int-sized list, also one inside a larger buffer, the ids are permuted and nothing outside the list changes, up to the first midpoint whose sum exceeds an int, if any; every list of at most 2^30 + 3 ids has none and ends descending, and every late list (IdlSortLimit.IsLate) and every list of INT_MAX ids has one. |
| `IdlSortLimit.LateSplits` | vendors/ocaml-lmdb/src/midl.c:256-276 | A late list is a permutation of 1..n whose first, middle and last ids make 10 the pivot: partitioning it splits off exactly the last nine ids, one too many for the insertion sort and too far up for the next midpoint. |
| `IdlSortLimit.LateExists` | vendors/ocaml-lmdb/src/midl.c:245 | There is a late list of every length above 2^30 + 3, so that bound is exact. |
| `Pghead.EndsDecide` | vendors/ocaml-lmdb/src/mdb.c:2473-2475 | In a strictly descending list, a stretch whose ends differ by its length minus one is consecutive throughout. |
| `Pghead.StretchIffRun` | vendors/ocaml-lmdb/src/mdb.c:2467-2479 | The one comparison of mdb_page_alloc holds at an entry if and only if all num pages from it on are in the list. |
| `Pghead.FindRun` | vendors/ocaml-lmdb/src/mdb.c:2467-2479 | The search finds the run of num pages with the lowest page number, or 0 if and only if there is none. |
| `Pghead.TakeRun` | vendors/ocaml-lmdb/src/mdb.c:2593-2597 | Exactly the entries of the run are cut out and the others keep their order. |
| `Pghead.TakeRunIsDifference` | vendors/ocaml-lmdb/src/mdb.c:2593-2597 | Cutting a run out of me_pghead is set difference with the page range and keeps it strictly descending. |
| `Pghead.AllocFromHead` | vendors/ocaml-lmdb/src/mdb.c:2467-2597 | Allocation from me_pghead returns a range of free pages, the lowest one, and removes exactly it; without one the list is unchanged. |
| `Pghead.InsertRange` | vendors/ocaml-lmdb/src/mdb.c:6534-6542 | The pages of a freed overflow run are inserted in order at their place. |
| `Pghead.InsertRangeIsUnion` | vendors/ocaml-lmdb/src/mdb.c:6534-6542 | That insertion is disjoint union and keeps me_pghead strictly descending. |
| `Pghead.AppendRange` | vendors/ocaml-lmdb/src/midl.c:185-199 | The range is appended, highest page first, in place when there is room and else in a copy with (n OR MDB_IDL_UM_MAX) more words; it fails exactly when there is no room and no memory, without change. |
| `Pghead.GrowBy` | vendors/ocaml-lmdb/src/midl.c:190 | n with the bits of MDB_IDL_UM_MAX set. |
| `Pghead.GrowthFits` | vendors/ocaml-lmdb/src/midl.c:131-141 | The cast to int in mdb_midl_grow keeps that growth if and only if n is below 2^31, and else makes it negative. |
| `Pghead.AppendList` | vendors/ocaml-lmdb/src/midl.c:171-183 | The list is appended in place when more than enough room is left and else in a copy longer by it; it fails exactly when there is neither room nor memory, without change. |
| `Pghead.CastFits` | vendors/ocaml-lmdb/src/midl.c:131-141 | The cast to int in mdb_midl_grow keeps a list length if and only if it is below 2^31. |
| `Pghead.RecordMergeIsUnion` | vendors/ocaml-lmdb/src/mdb.c:2556-2558 | Merging a freeDB record into me_pghead is disjoint union and keeps it strictly descending. |
| `Pghead.Need` | vendors/ocaml-lmdb/src/midl.c:143-155 | The list is unchanged and has room for num more ids, in the same buffer exactly when it had room, else in a larger copy whose size in words is a multiple of 256 with a quarter to spare; it fails exactly when there is no room and no memory. |
| `Pghead.NeedFits` | vendors/ocaml-lmdb/src/midl.c:143-155 | The 32-bit arithmetic asks for as many words as Need if the length with its quarter and the rounding is below 2^32, and else for fewer. |
| `PageAlloc.Allocator.FindOldest` | vendors/ocaml-lmdb/src/mdb.c:2364-2381 | With reader threads running between any two reads, the scan of the reader table is a scan of the protocol, and its result becomes the cached oldest id. |
| `PageAlloc.Allocator.Consume` | vendors/ocaml-lmdb/src/mdb.c:2537-2558 | Merging the record into me_pghead, allocated or grown for it, is a reclaim step of the protocol; without memory nothing changes. |
| `PageAlloc.Allocator.FetchMore` | vendors/ocaml-lmdb/src/mdb.c:2505-2558 | The next record is consumed, or it and all later ones are too recent for the readers seen by a scan during this call, or there is none, or no memory. |
| `PageAlloc.Allocator.Seek` | vendors/ocaml-lmdb/src/mdb.c:2459-2560 | The lowest run of num pages in me_pghead, or me_pghead has none and either at least 60 * num records were consumed in this call or no record is left that every reader has passed. |
| `PageAlloc.Allocator.Alloc` | vendors/ocaml-lmdb/src/mdb.c:2419-2610 | Whatever the readers do meanwhile, the call only takes steps of the protocol; the pages it returns were not in use, hold the new contents and are in no snapshot that is published or being read; the map grows only if me_pghead has no run and this call has consumed at least 60 * num records or every record left is too recent for the readers its scan saw; and each error has its condition. |
| `FreelistSave.Saver.DeleteConsumed` | vendors/ocaml-lmdb/src/mdb.c:3468-3478 | At the end no record up to me_pglast is left that was consumed, live records are untouched, and the room bookkeeping restarts if anything was deleted. |
| `FreelistSave.Saver.SaveFreed` | vendors/ocaml-lmdb/src/mdb.c:3480-3513 | The record of this transaction is exactly mt_free_pgs, however often the inner puts made that list grow. |
| `FreelistSave.Saver.Reserve` | vendors/ocaml-lmdb/src/mdb.c:3515-3553 | Each reservation keeps total_room equal to the reserved lengths, and its keys in [1, me_pglast]; it takes the current record or, if that is full, the one below, and gives it the room that Choose states. |
| `FreelistSave.Choose` | vendors/ocaml-lmdb/src/mdb.c:3517-3535 | The record reserved gets all the room that is missing if that fits one page or no record is left below, and else its share of it, rounded up to fill whole pages with the count word; never less than zero. |
| `FreelistSave.Saver.ReserveAll` | vendors/ocaml-lmdb/src/mdb.c:3459-3554 | Fixed point, for any effect of the inner operations: at loop exit all consumed records are gone, the transaction's own record is exactly mt_free_pgs, and total_room equals the sum of the reserved lengths and covers me_pghead and the loose pages. |
| `FreelistSave.ReturnLoose` | vendors/ocaml-lmdb/src/mdb.c:3556-3576 | The loose pages, sorted and merged from the tail of the very buffer they are merged into, are added to me_pghead as a set; the temporary list is not overwritten before it is read. |
| `FreelistSave.Fill` | vendors/ocaml-lmdb/src/mdb.c:3578-3604 | The reserved records receive the pages of me_pghead one after the other until all are stored, me_pghead itself is restored, and newer records stay. |
| `FreelistSave.FilledDistributes` | vendors/ocaml-lmdb/src/mdb.c:3578-3604 | After the fill every leftover page is in exactly one record, under a key in [1, me_pglast]. |
| `FreelistSave.Save` | vendors/ocaml-lmdb/src/mdb.c:3420-3606 | If no inner operation fails, the whole call establishes what the protocol's save step requires, for lists of at most 2^30 + 3 ids: consumed records gone, live ones untouched, one record with exactly the freed pages, every other free page stored exactly once. |
| `DirtyList.Search` | vendors/ocaml-lmdb/src/midl.c:281-314 | Everything before the position returned is smaller than the id and everything from it on is not. |
| `DirtyList.Insert` | vendors/ocaml-lmdb/src/midl.c:316-345 | A duplicate gives -1 and a full list -2, both without change; otherwise the entry is inserted in order. |
| `DirtyList.InsertedIs` | vendors/ocaml-lmdb/src/midl.c:316-345 | Insertion adds exactly the entry and keeps the list ascending. |
| `DirtyList.UnionHolds` | vendors/ocaml-lmdb/src/mdb.c:3891-3901 | The merged list has an entry exactly if the child has it, or the parent has it and the child has no entry for that page. |
| `DirtyList.UnionAscending` | vendors/ocaml-lmdb/src/mdb.c:3891-3901 | The merged list is strictly ascending. |
| `DirtyList.UnionLength` | vendors/ocaml-lmdb/src/mdb.c:3873-3887 | The precomputed length is exactly the size of the union. |
| `DirtyList.MergeInto` | vendors/ocaml-lmdb/src/mdb.c:3891-3901 | The backward merge in place yields the union with the child's entries winning; the two indices meet, and its sentinel loops stay in bounds. |
| `NestedCommit.MarkAll` | vendors/ocaml-lmdb/src/mdb.c:3834-3846 | Exactly the parent's spilled pages that the child dirtied are marked, in a list that may repeat deleted entries. |
| `NestedCommit.Squash` | vendors/ocaml-lmdb/src/mdb.c:3847-3851 | Marked entries are removed and the others keep their order. |
| `NestedCommit.DropFromSpill` | vendors/ocaml-lmdb/src/mdb.c:3833-3852 | The parent's spill list is exactly what precedes the first page the child dirtied and, after it, the live entries of other pages; it loses exactly the pages the child dirtied and keeps its order. |
| `NestedCommit.RemoveSpilled` | vendors/ocaml-lmdb/src/mdb.c:3854-3871 | The parent's dirty list loses exactly the pages the child spilled and stays ascending. |
| `NestedCommit.UnionCount` | vendors/ocaml-lmdb/src/mdb.c:3888-3890 | The number of pages dirty in parent or child, less those spilled, is the length of the merge: the shortcut for a single ancestor is right. |
| `NestedCommit.MergeDirty` | vendors/ocaml-lmdb/src/mdb.c:3873-3901 | The dirty lists become their union by page number, the child's entries winning, with the length counted or, for a single ancestor, taken from mt_dirty_room. |
| `NestedCommit.MergeSpill` | vendors/ocaml-lmdb/src/mdb.c:3904-3915 | The parent's spill list gains the child's entries, or becomes the child's if there was none, and stays in order with distinct live entries if no page was live on both; it stays as it was exactly when both lists exist and there is neither room nor memory. |
| `NestedCommit.CommitLists` | vendors/ocaml-lmdb/src/mdb.c:3831-3915 | After the merge the parent's dirty list is the union by page number with the child's entries winning and the child's spilled pages left out; its spill list holds its live pages not dirtied by the child and, unless there is neither room nor memory, the child's; live entries stay distinct and in order; and no page is on both lists if none was on both in parent and child. |
| `PageLayout.RoundTrip` | vendors/ocaml-lmdb/src/mdb.c:8185-8213 | A node written to a page reads back as the same node, whatever follows it. |
| `PageLayout.TiledAdd` | vendors/ocaml-lmdb/src/mdb.c:8174-8183 | A node placed just below the others keeps the heap without gap or overlap. |
| `PageLayout.TiledRemove` | vendors/ocaml-lmdb/src/mdb.c:8265-8281 | Closing the gap of a deleted node and shifting lower offsets keeps the heap without gap or overlap. |
| `SlottedPage.HeapAdd` | vendors/ocaml-lmdb/src/mdb.c:8173-8213 | Adding a node leaves every other node's key and data as they were. |
| `SlottedPage.HeapRemove` | vendors/ocaml-lmdb/src/mdb.c:8265-8281 | Deleting and compacting leaves every other node's key and data as they were, although heap order differs from index order. |
| `SlottedPage.InsertPtr` | vendors/ocaml-lmdb/src/mdb.c:8174-8181 | The offsets with one inserted at the index. |
| `SlottedPage.RemovePtr` | vendors/ocaml-lmdb/src/mdb.c:8267-8275 | In one pass over the same array, the offsets without the deleted one, those below it moved up by its size. |
| `SlottedPage.MoveUp` | vendors/ocaml-lmdb/src/mdb.c:8277-8278 | An overlapping move: the moved bytes and those above are as required. |
| `SlottedPage.PartsMake` | vendors/ocaml-lmdb/src/mdb.c:8185-8213 | The parts written for each kind of node (branch, inline, reserved, on an overflow page) make up the node that was asked for, of the size that was accounted for. |
| `SlottedPage.Page.constructor` | vendors/ocaml-lmdb/src/mdb.c:9570-9573 | An empty page. |
| `SlottedPage.Page.NodeAdd` | vendors/ocaml-lmdb/src/mdb.c:8105-8225 | The page refines a sequence of nodes: the node asked for is inserted at the index, or MDB_PAGE_FULL is returned exactly when its rounded size and offset exceed the free space, or the overflow page could not be had; then nothing changes. |
| `SlottedPage.Page.NodeDel` | vendors/ocaml-lmdb/src/mdb.c:8232-8282 | The node at the index is removed from the sequence and its space is free again. |
| `PageSplit.TiledSum` | vendors/ocaml-lmdb/src/mdb.c:1016-1017 | Nodes that tile the heap account for exactly its size. |
| `PageSplit.FreeSpace` | vendors/ocaml-lmdb/src/mdb.c:1013-1021 | SIZELEFT is what the nodes and their offsets leave of the page. |
| `SplitPoint.MixedHalves` | vendors/ocaml-lmdb/src/mdb.c:9583-9598 | Sizes of twenty entries and a new one that make the code not look at sizes, and whose left half at the middle exceeds a page of 4096 bytes. |
| `PageSplit.Prepare` | vendors/ocaml-lmdb/src/mdb.c:9575-9581 | The scratch offsets are the page's with a gap at newindx. |
| `PageSplit.FindSplit` | vendors/ocaml-lmdb/src/mdb.c:9556-9627 | The split point leaves at least one entry on each side; when the sizes are looked at, both halves fit on a page, and else it is the middle. |
| `PageSplit.MoveRange` | vendors/ocaml-lmdb/src/mdb.c:9696-9740 | The entries of one half are added to their page in order, reading offsets from the array that is being rewritten, and the cursor's index is set on meeting the new entry; this succeeds if and only if they fit. |
| `PageSplit.CopyBack` | vendors/ocaml-lmdb/src/mdb.c:9742-9748 | The page then holds the nodes of the copy. |
| `PageSplit.Split` | vendors/ocaml-lmdb/src/mdb.c:9435-9765 | Left followed by right is the old node sequence with the new node at newindx, the first key of each branch page blanked; the separator is the first right key; the slot the cursor is on holds the new node; every node fits if and only if the split point was adjusted or both default halves fit. |
| `SplitFails.Build` | vendors/ocaml-lmdb/src/mdb.c:8105-8225 | A page of 4096 bytes with twenty nodes of two sizes, added one by one, with six bytes left. |
| `SplitFails.SampleFits` | vendors/ocaml-lmdb/src/mdb.c:9583-9598 | Its nodes and the new one meet every demand of a split and have the sizes of SplitPoint.MixedHalves. |
| `SplitFails.Fails` | vendors/ocaml-lmdb/src/mdb.c:9696-9740 | Splitting that page for that node ends with MDB_PAGE_FULL. |
| `Rebalance.UsedIs` | vendors/ocaml-lmdb/src/mdb.c:1016-1021 | The used part of a page is what its nodes and offsets take. |
| `Rebalance.Fits` | vendors/ocaml-lmdb/src/mdb.c:9091-9108 | Below the 25 percent threshold, and with a neighbour that is below it too or has one node, the two pages fit on one. |
| `Rebalance.NodeMove` | vendors/ocaml-lmdb/src/mdb.c:8686-8780 | Moving one leaf node always fits; the node leaves one end of the source and joins the facing end of the destination. |
| `Rebalance.PageMerge` | vendors/ocaml-lmdb/src/mdb.c:8939-8983 | Merging leaf pages always fits; the destination holds its own nodes and then the source's. |
| `Rebalance.Rebalance` | vendors/ocaml-lmdb/src/mdb.c:9082-9258 | Rebalancing a leaf with its neighbour never meets MDB_PAGE_FULL and keeps the two pages' nodes in order; nothing happens if and only if the page is at least a quarter full and not empty, one node is moved if and only if else the neighbour is at least a quarter full and has more than one, and otherwise the pages are merged. |
| `Cursor.Located` | vendors/ocaml-lmdb/src/mdb.c:6628-6682 | The entries under a page of the stack are the part of the whole that starts after those the indices above it skip. |
| `Cursor.Cursor.Sibling` | vendors/ocaml-lmdb/src/mdb.c:6627-6682 | On success the top page is the one right after (or before) in the tree, at its first (or last) slot; MDB_NOTFOUND happens exactly at the edge of the tree and leaves pages and indices as they were. |
| `Cursor.Cursor.SearchFirst` | vendors/ocaml-lmdb/src/mdb.c:6275-6353 | The stack goes down the first children to the first leaf. |
| `Cursor.Cursor.First` | vendors/ocaml-lmdb/src/mdb.c:7062-7106 | The cursor is on entry 0 of the in-order sequence, or the tree is empty. |
| `Cursor.Cursor.Next` | vendors/ocaml-lmdb/src/mdb.c:6685-6773 | The cursor moves to the next entry of the in-order sequence; MDB_NOTFOUND is returned exactly on the last one, without moving. |
| `Cursor.Cursor.Scan` | vendors/ocaml-lmdb/src/mdb.c:6685-6773 | First and then next until MDB_NOTFOUND visits exactly the leaf entries in order, on every tree of uniform depth. |
| `Vli.Add` | vendors/ocaml-uecc/src/uECC.c:319-334 | Sum and carry are the integer sum, also in place. |
| `Vli.Sub` | vendors/ocaml-uecc/src/uECC.c:338-353 | Difference and borrow are the integer difference, also in place. |
| `Vli.IsZero` | vendors/ocaml-uecc/src/uECC.c:206-215 | True exactly for zero. |
| `Vli.Cmp` | vendors/ocaml-uecc/src/uECC.c:261-274 | The sign of left - right as numbers. |
| `Vli.Set` | vendors/ocaml-uecc/src/uECC.c:251-258 | The words are copied. |
| `Vli.Clear` | vendors/ocaml-uecc/src/uECC.c:197-203 | The number is zero. |
| `Vli.Rshift1` | vendors/ocaml-uecc/src/uECC.c:304-315 | The number is halved in place. |
| `Vli.ModAdd` | vendors/ocaml-uecc/src/uECC.c:524-535 | (left + right) mod mod for left, right below mod; still congruent when left is not. |
| `Vli.ModSub` | vendors/ocaml-uecc/src/uECC.c:538-550 | (left - right) mod mod, a dropped borrow and carry cancelling. |
| `VliMult.MulAdd` | vendors/ocaml-uecc/src/uECC.c:390-397 | The three-word accumulator grows by exactly a * b. |
| `VliMult.Mul2Add` | vendors/ocaml-uecc/src/uECC.c:472-481 | The three-word accumulator grows by exactly 2 * a * b. |
| `VliMult.MulAdd64` | vendors/ocaml-uecc/src/uECC.c:365-389 | The form without double words adds exactly a * b. |
| `VliMult.Mul2Add64` | vendors/ocaml-uecc/src/uECC.c:442-471 | The form without double words adds exactly 2 * a * b, also where the high word plus carry wraps. |
| `VliMult.AccUnique` | vendors/ocaml-uecc/src/uECC.c:360-482 | Accumulators with the same number are the same words. |
| `VliMult.SameMulAdd` | vendors/ocaml-uecc/src/uECC.c:360-398 | Both forms of muladd leave the same words. |
| `VliMult.SameMul2Add` | vendors/ocaml-uecc/src/uECC.c:438-482 | Both forms of mul2add leave the same words. |
| `Product.ColsProduct` | vendors/ocaml-uecc/src/uECC.c:402-431 | The columns of product scanning sum up to the product. |
| `Product.Mult` | vendors/ocaml-uecc/src/uECC.c:401-431 | The 2n words are the integer product, for every word count below the accumulator bound. |
| `Product.Square` | vendors/ocaml-uecc/src/uECC.c:484-509 | The 2n words are the integer square. |
| `Product.ValUnique` | vendors/ocaml-uecc/src/uECC.c:484-518 | A number has one representation in n words. |
| `Product.SameSquare` | vendors/ocaml-uecc/src/uECC.c:484-518 | Squaring and multiplying by itself leave the same words. |
| `Mmod.NumDigits` | vendors/ocaml-uecc/src/uECC.c:222-231 | The number of words up to the highest nonzero one. |
| `Mmod.NumBits` | vendors/ocaml-uecc/src/uECC.c:233-249 | The number of bits of the number. |
| `Mmod.Align` | vendors/ocaml-uecc/src/uECC.c:564-577 | mod_multiple is the modulus with its highest bit moved to the top of 2n words. |
| `Mmod.HalveBoth` | vendors/ocaml-uecc/src/uECC.c:590-592 | Halving the words in two halves halves the number. |
| `Mmod.Reduce` | vendors/ocaml-uecc/src/uECC.c:553-595 | product mod mod, for every 2n-word product and every modulus with a nonzero top word, by swapping buffers. |
| `Mmod.ModMult` | vendors/ocaml-uecc/src/uECC.c:597-606 | (left * right) mod mod. |
| `ModInv.Update` | vendors/ocaml-uecc/src/uECC.c:667-678 | u / 2 or (u + mod) / 2, the carry becoming the top bit. |
| `ModInv.Difference` | vendors/ocaml-uecc/src/uECC.c:709-712 | u - v modulo mod, with the carry and borrow of u + mod - v dropped. |
| `ModInv.Round` | vendors/ocaml-uecc/src/uECC.c:699-723 | Each round keeps a = u * input and b = v * input modulo mod, u and v below mod, and the common divisors; a + b decreases. |
| `ModInv.Inverse` | vendors/ocaml-uecc/src/uECC.c:680-725 | For every odd modulus and every input, also one not below mod: the result times the input is their greatest common divisor modulo mod; zero gives zero. |
| `ModInv.CoprimeInverse` | vendors/ocaml-uecc/src/uECC.c:680-725 | An input without a common factor is inverted. |
| `FastReduce.Correct` | vendors/ocaml-uecc/src/curve-specific.h:1045-1053 | The correction loops with a signed carry end with the remainder of the signed number modulo the prime. |
| `FastReduce.Linear256` | vendors/ocaml-uecc/src/curve-specific.h:985-1043 | The rearranged halves differ from the product by a multiple of the prime. |
| `FastReduce.Linear224` | vendors/ocaml-uecc/src/curve-specific.h:686-713 | The same for secp224r1. |
| `FastReduce.NoCarry224` | vendors/ocaml-uecc/src/curve-specific.h:685-700 | The first three summands fit four words together, so the two carries the code drops are zero. |
| `FastReduce.AddUp` | vendors/ocaml-uecc/src/curve-specific.h:715-718 | Adding the prime until the carry is used up ends with the remainder of the negative number. |
| `FastReduce.SubtractDown` | vendors/ocaml-uecc/src/curve-specific.h:719-722 | Subtracting the prime while the number is not below it, with the borrow dropped, ends with the remainder. |
| `FastReduce.Correct224` | vendors/ocaml-uecc/src/curve-specific.h:715-723 | The correction, whose carry counts borrows only, ends with the remainder of the signed number. |
| `FastReduce.Mod192` | vendors/ocaml-uecc/src/curve-specific.h:378-399 | Exactly product mod p for every six-word product, the number uECC_vli_mmod computes. |
| `FastReduce.Mod224` | vendors/ocaml-uecc/src/curve-specific.h:680-724 | Exactly product mod p for every product below 2^448. |
| `FastReduce.Mod256` | vendors/ocaml-uecc/src/curve-specific.h:981-1054 | Exactly product mod p for every eight-word product. |
| `FastRefines.Same192` | vendors/ocaml-uecc/src/curve-specific.h:378-399 | The fast reduction gives word for word what uECC_vli_mmod gives. |
| `FastRefines.Same224` | vendors/ocaml-uecc/src/curve-specific.h:680-724 | The same for secp224r1, for products below 2^448. |
| `FastRefines.Same256` | vendors/ocaml-uecc/src/curve-specific.h:981-1054 | The same for secp256r1. |
| `Ladder.TestBit` | vendors/ocaml-uecc/src/uECC.c:217-220 | The bit of the number. |
| `Ladder.Regularize` | vendors/ocaml-uecc/src/uECC.c:893-904 | k + n or k + 2n has its leading one at bit num_n_bits, and the words hold its bits below that, although the top may be cut off. |
| `Ladder.Round` | vendors/ocaml-uecc/src/uECC.c:869-870 | One round doubles one register and puts the sum into the other. |
| `Ladder.BitRound` | vendors/ocaml-uecc/src/uECC.c:867-871 | R1 = R0 + P is kept while R0 goes from q * P to (2q + bit) * P. |
| `Ladder.PointMult` | vendors/ocaml-uecc/src/uECC.c:847-891 | R0 ends as s * P for the scalar s whose leading one is not read. |
| `Ladder.ScalarMult` | vendors/ocaml-uecc/src/uECC.c:906-924 | k * P for a point of order n. |
| `Ecdsa.InvertNonce` | vendors/ocaml-uecc/src/uECC.c:1263-1267 | The blinded inversion yields the inverse of k. |
| `Ecdsa.Sign` | vendors/ocaml-uecc/src/uECC.c:1223-1295 | Fails exactly for k outside (0, n), x(kG) zero, no random number or s too long; else r = x(kG) and s * k = e + r * d modulo n. |
| `Ecdsa.Shamir` | vendors/ocaml-uecc/src/uECC.c:1504-1543 | The loop computes u1 * G + u2 * Q. |
| `Ecdsa.Verify` | vendors/ocaml-uecc/src/uECC.c:1445-1555 | Accepts exactly if r and s are in (0, n) and x((e/s) * G + (r/s) * Q), less n if not below n, is r. |
| `EcdsaMath.NonceAgain` | vendors/ocaml-uecc/src/uECC.c:1497-1502 | u1 + u2 * d = k modulo n for a signature that was made. |
| `EcdsaMath.MultiplierNonZero` | vendors/ocaml-uecc/src/uECC.c:1502-1523 | u2 is never zero, so the loop has a first bit. |
| `EcdsaMath.ZeroSecondHalf` | vendors/ocaml-uecc/src/uECC.c:1269-1288 | s is zero if and only if e + r * d is zero modulo n. |
| `Ecdsa.RoundTrip` | vendors/ocaml-uecc/src/uECC.c:1223-1555 | A signature that was made is accepted if and only if r = x(kG), which signing does not reduce, is in (0, n) and e + r * d is not zero modulo n. |
| `Ecdsa.SignedButRejected` | vendors/ocaml-uecc/src/uECC.c:1269-1288 | On every curve, for every key and every nonce for which x(kG) is not zero, so that signing does not fail, there is a hash for which the signature that is made has s = 0, which signing does not test for and verification rejects. |

## Left out

- Locking of the reader table, and claiming a slot, are one step each; a meta page is copied in one step.
- Weak memory: the steps are sequentially consistent, although the C code has no barrier between a reader's store of mr_txnid and its reload of mti_txnid.
- File and memory-map handling, fsync failures, MDB_NOSYNC, MDB_WRITEMAP, MDB_NOLOCK and I/O errors; a crash leaves arbitrary bytes in pages written since the last sync, and keeps or loses the last meta write as a whole.
- Nested transactions appear in the list merge only, not as steps of the protocol; their loose and freed pages are not merged.
- NestedCommit.CommitLists: spill lists of together at most 2^30 + 3 entries, because they are sorted.
- PageAlloc.Allocator.Alloc: one answer of the memory allocator for the whole call, and no failing reads of the freeDB.
- Termination of mdb_freelist_save: it depends on what the inner puts do, so they are drawn from an arbitrary finite sequence of effects. In the fill phase the puts change no lists.
- FreelistSave.Saver.Reserve: does not model overflow of the signed page-count arithmetic, because list lengths are below 2^31.
- FreelistSave.Save: lists of at most 2^30 + 3 ids, the bound up to which the sort's midpoints fit an int; above it nothing is promised.
- Pghead.Need: computes with unbounded integers; Pghead.NeedFits states exactly when the 32-bit code asks for the same.
- Pghead.AppendRange: grows by an unbounded integer; Pghead.GrowthFits states exactly when the cast to int keeps it.
- Pghead.AppendList: grows by an unbounded integer; Pghead.CastFits states exactly when the cast to int keeps it.
- IdlSortMain.Sort: lists whose length fits an int, and nothing after a midpoint that does not, because the C standard leaves a signed overflow undefined.
- DUPSORT sub-pages, LEAF2 pages and the cursors into them.
- The fix-up of other tracked cursors in add, split, move and merge, and MDB_VL32.
- The offsets of a page are an array beside its bytes instead of being stored in them; the copy of large data to its overflow page is not modelled, nor is the content of a reserved area.
- PageSplit.Split: without the update of the parent page (the separator is returned) and without the MDB_APPEND shortcut, which copies no node.
- Rebalance.Rebalance: leaf pages other than the root only, with the neighbour given instead of found through the parent.
- Rebalance.NodeMove: leaf pages only, and without the update of the parent's separator keys.
- Rebalance.PageMerge: leaf pages only, and without unlinking the emptied page from its parent.
- Searching by key, mdb_cursor_prev and mdb_cursor_last, and cursors over trees that change between steps.
- vli_mmod_fast_secp160r1 and vli_mmod_fast_secp256k1, whose last subtraction is exact only for products in a narrower range, and the fast reductions with 8-bit and 32-bit words.
- FastReduce.Mod224: products below 2^448 only, because the code ignores the top word of the product.
- Mmod.Reduce: a modulus with a nonzero top word only, because for others the shifted modulus does not fit its buffer.
- The group law of the curves and the co-Z formulas: points form an abstract group, so that coincidences of points, for which the formulas fail, are assumed away.
- Constant-time behaviour, random numbers and the HMAC-based choice of the nonce; byte order conversion and bits2int (the hash is given as a number).
- The curves' coordinates and orders have the same number of words, as they do with 64-bit words.
- Primality of the curves' orders is a hypothesis.
