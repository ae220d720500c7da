# A verified model of OneBase

OneBase is a small disk-backed database. This project models the parts of it where a mistake
would be silent: the B+ tree index over pages, the buffer pool with its LRU-K replacer and page
guards, slotted pages and table heaps, the joins and the optimizer that rewrites them, index
maintenance under INSERT, UPDATE and DELETE, and aggregation. `dafny verify dfyconfig.toml`
checks all of it.

## How it is built

Objects that the source updates in place are classes whose methods are proved against functions
of the value the object denotes; the properties are then proved about those values and, for whole
runs, about sequences of operations.

* **Index.** `TreePages` has the two page classes, with arrays shifted in place. `TreeShape` states
  the invariant over all pages at once: every page has a key range and a level; the children of a
  page split its range at the separators, from slot 1 up (the key of slot 0 means nothing, and a
  separator need not be a key of its right subtree); parent pointers are exact; the leaf chain runs
  through the ranges in order; sizes lie between minimum and maximum. `TreeSteps`,
  `TreeRemovalSteps` and `TreeInternalRemovalSteps` prove each split, borrow, merge, root growth
  and root collapse against it; `PageEdits` and `RemovalEdits` tie them to edits of the pages;
  `BPlusTrees` has the operations, `TreeIterators` the iterator, `TreeRuns` whole runs against a
  finite map.
* **Pages on disk.** `DiskFiles` is the file with its stream, `DiskManagers` the plain map of pages
  that it stands for until a page is read that the file does not have; `LruKReplacers`, `BufferPools`
  and `PoolRuns` prove that the pool is a store of pages in which frames do not show, and that the
  frames it gives are those of LRU-K on the accesses of its clients, for which `PoolPolicies` is the
  reference. `PageStores` is that store as the index uses it: pins are counted, at most four at a
  time, a page changed must be reported by the time its last pin goes, a page deleted must not be
  pinned, and every call is recorded in a trace. `TreeOnPool` proves that a pool gives the index the recorded answers in every
  run in which other clients, whose calls may come between any two of the index, report their writes,
  leave the pages of the index alone but for flushing them, and leave four frames unpinned; the index
  never makes the pool read a page that the file does not have. `PageGuards` proves that guards make
  the store a plain map.
* **Tables and statements.** `TablePages`, `HeapOrder`, `TableHeaps` and `HeapScans` go from the bytes of
  a page to a map from record ids to tuples that can be scanned while it is changed. `Statements`
  says what INSERT, UPDATE and DELETE do to a heap, `IndexEntries` and `Executors` that they do it
  and keep the indexes in step, `StatementRewrites` what the rewriting of their scans does to them,
  `StatementMeanings` what they do to the cells of the rows, `TableRuns` what any run of them leaves
  for the queries.
* **Queries.** `Plans` are the operators (`Joins`, `Operators`, and for aggregation `GroupKeys`,
  `AggregateFolds` and `Aggregations`) and the optimizer; `Collections`, `Bags`, `FoldOrders`,
  `OperatorBags` and `GroupOrders` say which of them depend on the order of their rows, and
  `Rewrites` proves what the optimizer preserves. `Comparisons` and `OperatorMeanings` say what
  comparisons and operators compute in terms of the cells of their rows.

Where the code is weaker than its intent, the exact condition under which it does what it should is
proved: `TablePages.UpdateInOrderExactly`, `Statements.RefusedExactly`, `BufferPools.BufferPool.EvictFrame`,
`DiskFiles.Run`, `Rewrites.LimitKeepsExactly`, `Rewrites.HashRewriteExactly`, `Joins.JoinsAgreeExactly`,
`OperatorBags.LimitedBagExactly`, `GroupOrders.AggregatedBagExactly`, `FoldOrders.SumsFitInAnyOrderExactly`,
`GroupKeys.InjectiveExactly`, `Aggregations.GroupsExactly`, `StatementRewrites.UpdateRewriteExactly`. For the
first five an input on which the code fails is worked out, in `TablePages.UpdateLosesNeighbour`,
`TableRuns.RefusedUpdateLosesRow`, `PoolRuns.LosesWrite`, `DiskFiles.ShortReadLosesWrite` and
`Rewrites.LimitSeesTheOrder`.

A call that raises an exception in the source yields `None`, or `false` where it has no result.
Containers that the source walks in hash order are walked in no particular order.

## Model

| member | source | states |
|---|---|---|
| TreeRuns.Run | src/storage/index/b_plus_tree.cpp:34-469 | any run of inserts, removals, lookups and range scans from the empty index answers as the finite map does, and a final scan from Begin lists that map in key order; its calls to the pool are a trace in which every unpin and every deletion succeeds and every pin is given back |
| TreeRuns.PerformAll | src/storage/index/b_plus_tree.cpp:34-469 | after any run the whole structural invariant holds, no pin is left, and the contents are those of the map |
| TreeRuns.Perform | src/storage/index/b_plus_tree.cpp:34-469 | one operation keeps the invariant, changes the map as it should and answers from the old map |
| TreeRuns.ListsUnique | src/storage/index/b_plus_tree_iterator.cpp:22-47 | a strictly ascending listing of a map from a key on is unique, so the scans are fully determined |
| TreeRuns.CollectFrom | src/storage/index/b_plus_tree_iterator.cpp:22-57 | stepping to End yields each entry from the starting key on exactly once, in increasing key order |
| BPlusTrees.BPlusTree.constructor | src/storage/index/b_plus_tree.cpp:12-26 | an index starts empty with its invariant |
| BPlusTrees.BPlusTree.Insert | src/storage/index/b_plus_tree.cpp:34-145 | returns true exactly when the key was absent; adds exactly that entry, or keeps the old value; invariant and pins are kept |
| BPlusTrees.BPlusTree.Remove | src/storage/index/b_plus_tree.cpp:148-361 | removes exactly the key, through borrowing, merging and root collapse; invariant and pins are kept, and every DeletePage hits an unpinned page |
| BPlusTrees.BPlusTree.GetValue | src/storage/index/b_plus_tree.cpp:364-395 | finds exactly what the map has for the key |
| BPlusTrees.BPlusTree.Begin | src/storage/index/b_plus_tree.cpp:398-421 | the iterator stands at the least key, or at the end of an empty index |
| BPlusTrees.BPlusTree.BeginAt | src/storage/index/b_plus_tree.cpp:424-462 | the iterator stands at the first key not below the given one, also when that key is past the end of its leaf |
| BPlusTrees.BPlusTree.FindLeaf | src/storage/index/b_plus_tree.cpp:51-62 | the descent ends, by level, at the leaf whose key range contains the key, with one pin |
| BPlusTrees.BPlusTree.SplitUpward | src/storage/index/b_plus_tree.cpp:80-144 | the split loop climbs to a legal tree with the same contents and ends, by the distance of levels to the root |
| BPlusTrees.BPlusTree.LinkHalf | src/storage/index/b_plus_tree.cpp:96-143 | one round of the split loop either finishes or leaves one unlinked right half one level higher |
| BPlusTrees.BPlusTree.GrowRoot | src/storage/index/b_plus_tree.cpp:96-110 | a new root over the two halves completes the tree |
| BPlusTrees.BPlusTree.LinkIntoParent | src/storage/index/b_plus_tree.cpp:112-124 | linking the right half leaves at most the parent one slot over its limit |
| BPlusTrees.BPlusTree.SplitInternalPage | src/storage/index/b_plus_tree.cpp:125-143 | both halves of an internal page have legal sizes, every moved child points at its new parent, and levels stay |
| BPlusTrees.BPlusTree.BalanceLeaf | src/storage/index/b_plus_tree.cpp:207-264 | a leaf one below its minimum is repaired by a borrow from either side or a merge, with the same contents |
| BPlusTrees.BPlusTree.MergeLeafPair | src/storage/index/b_plus_tree.cpp:253-264 | merging two leaves leaves at most the parent short |
| BPlusTrees.BPlusTree.RepairUpward | src/storage/index/b_plus_tree.cpp:270-360 | the repair loop ends in a legal tree with the same contents, by the distance of levels to the root |
| BPlusTrees.BPlusTree.RepairRoot | src/storage/index/b_plus_tree.cpp:272-286 | a root with one child gives way to that child, any other root stays |
| BPlusTrees.BPlusTree.BorrowOrMerge | src/storage/index/b_plus_tree.cpp:315-359 | two neighbouring internal pages, one of them short, are repaired, or merged into one page of legal size |
| TreeSteps.SplitLeafPending | src/storage/index/b_plus_tree.cpp:80-93 | splitting an overfull leaf keeps the contents, gives both halves legal sizes and leaves only the right half unlinked |
| TreeSteps.SplitInternalPending | src/storage/index/b_plus_tree.cpp:125-143 | the same for an internal page, whose middle key moves up and whose moved children are re-parented |
| TreeSteps.AttachRootTree | src/storage/index/b_plus_tree.cpp:96-110 | a new root turns the two halves into a tree over the same map |
| TreeSteps.AttachParentTree | src/storage/index/b_plus_tree.cpp:112-124 | a slot in the parent turns the two halves into a tree over the same map, but for the size of the parent |
| TreeSteps.InsertionEffect | src/storage/index/b_plus_tree.cpp:64-78 | a record put into the leaf that covers its key adds exactly that entry to the map |
| TreeSteps.RemovalEffect | src/storage/index/b_plus_tree.cpp:174-193 | taking the record from that leaf removes exactly that key |
| TreeRemovalSteps.ShareLeavesTree | src/storage/index/b_plus_tree.cpp:235-252 | moving records between two neighbouring leaves and resetting the separator keeps tree and map |
| TreeRemovalSteps.MergeLeavesTree | src/storage/index/b_plus_tree.cpp:253-260 | joining two neighbouring leaves and dropping a slot keeps tree and map, with the leaf chain closed over the gap |
| TreeInternalRemovalSteps.ShareInternalsTree | src/storage/index/b_plus_tree.cpp:316-340 | rotating one child through the separator keeps tree and map, with exact parent pointers |
| TreeInternalRemovalSteps.MergeInternalsTree | src/storage/index/b_plus_tree.cpp:341-353 | joining two internal pages around the separator keeps tree and map, with exact parent pointers |
| TreeRemovalSteps.CollapseRootTree | src/storage/index/b_plus_tree.cpp:272-286 | replacing a one-child root by its child keeps tree and map |
| TreeRemovalSteps.RootLeafAlone | src/storage/index/b_plus_tree.cpp:196-206 | a root that is a leaf is the only page, so deleting an empty one leaves no page behind |
| TreeShape.ChildFacts | src/storage/page/b_plus_tree_internal_page.cpp:50-64 | the children of a page cover its range piece by piece, one level down, each once |
| TreeShape.UniqueCover | src/storage/page/b_plus_tree_internal_page.cpp:50-64 | on each level exactly one page covers a key |
| TreeShape.StoredWhereCovered | src/storage/index/b_plus_tree.cpp:364-395 | an entry is stored in the tree exactly when it is in the leaf that covers its key |
| TreeShape.NextIsNeighbour | src/storage/page/b_plus_tree_leaf_page.cpp:103-114 | one leaf is the next of another exactly when its range starts where the other ends |
| TreeShape.HalfFull | src/include/onebase/storage/page/b_plus_tree_page.h:21 | every page but the root is at least half full, a leaf up to one record, and none is over its limit |
| TreePages.LowerBoundUnique | src/storage/page/b_plus_tree_leaf_page.cpp:29-41 | in a sorted leaf the binary search position is the only one that separates smaller keys from the others |
| TreePages.LeafPage.KeyIndex | src/storage/page/b_plus_tree_leaf_page.cpp:29-41 | binary search finds the number of records with a smaller key |
| TreePages.LeafPage.Lookup | src/storage/page/b_plus_tree_leaf_page.cpp:44-53 | finds the record of a key, and nothing exactly when no record has it |
| TreePages.LeafPage.Insert | src/storage/page/b_plus_tree_leaf_page.cpp:56-70 | inserts in order, leaves a duplicate alone, and returns the size |
| TreePages.LeafPage.RemoveAndDeleteRecord | src/storage/page/b_plus_tree_leaf_page.cpp:73-85 | removes the record of the key, if any, and returns the size |
| TreePages.LeafPage.MoveHalfTo | src/storage/page/b_plus_tree_leaf_page.cpp:88-100 | the upper half goes to the new page, in order |
| TreePages.LeafPage.MoveAllTo | src/storage/page/b_plus_tree_leaf_page.cpp:103-114 | all records go to the end of the left page, which takes over the next pointer |
| TreePages.LeafPage.MoveFirstToEndOf | src/storage/page/b_plus_tree_leaf_page.cpp:117-126 | the first record goes to the end of the left neighbour |
| TreePages.LeafPage.MoveLastToFrontOf | src/storage/page/b_plus_tree_leaf_page.cpp:129-140 | the last record goes to the front of the right neighbour |
| TreePages.InternalPage.Lookup | src/storage/page/b_plus_tree_internal_page.cpp:50-64 | the child whose slot routes the key |
| TreePages.InternalPage.ValueIndex | src/storage/page/b_plus_tree_internal_page.cpp:38-47 | the first slot that points at a child, or -1 |
| TreePages.InternalPage.PopulateNewRoot | src/storage/page/b_plus_tree_internal_page.cpp:67-75 | two slots around one separator; the key of the first is whatever was there |
| TreePages.InternalPage.InsertNodeAfter | src/storage/page/b_plus_tree_internal_page.cpp:78-90 | the new slot follows that of the given child, everything else keeps its order |
| TreePages.InternalPage.Remove | src/storage/page/b_plus_tree_internal_page.cpp:93-101 | exactly one slot goes |
| TreePages.InternalPage.RemoveAndReturnOnlyChild | src/storage/page/b_plus_tree_internal_page.cpp:104-112 | yields the child of the first slot and empties the page |
| TreePages.InternalPage.MoveHalfTo | src/storage/page/b_plus_tree_internal_page.cpp:130-142 | the upper half goes to the new page, whose first key is then without meaning |
| TreePages.InternalPage.MoveAllTo | src/storage/page/b_plus_tree_internal_page.cpp:115-127 | all slots go to the left page, the first under the middle key |
| TreePages.InternalPage.MoveFirstToEndOf | src/storage/page/b_plus_tree_internal_page.cpp:145-156 | the first child goes to the end of the left page under the middle key |
| TreePages.InternalPage.MoveLastToFrontOf | src/storage/page/b_plus_tree_internal_page.cpp:159-172 | the last child goes to the front of the right page, whose former first slot gets the middle key |
| TreeIterators.Settle | src/storage/index/b_plus_tree_iterator.cpp:32-47 | past the end of a leaf, the first entry from there on is the first of the next leaf, or there is none |
| TreeIterators.PositionIsEntry | src/storage/index/b_plus_tree_iterator.cpp:49-57 | two iterators compare as equal exactly when they stand at the same entry |
| TreeIterators.TreeIterator.Get | src/storage/index/b_plus_tree_iterator.cpp:22-29 | reads the entry with the least key from where the iterator stands |
| TreeIterators.TreeIterator.Advance | src/storage/index/b_plus_tree_iterator.cpp:32-47 | moves to the first entry with a larger key, across leaves, or to the end |
| PageStores.PageStore.UnpinPage | src/buffer/buffer_pool_manager.cpp:101-122 | gives one pin back, of a page that is pinned, the last pin of a changed page only with a report, and records the call |
| PageStores.PageStore.DeletePage | src/buffer/buffer_pool_manager.cpp:124-150 | takes out a page that nobody has pinned, so that the pool never refuses, and records the call |
| TreeOnPool.NeverFull | src/buffer/buffer_pool_manager.cpp:18-50 | while the index holds fewer than four pins, a pool with four frames to spare has a frame to give |
| TreeOnPool.EventMirrored | src/storage/index/b_plus_tree.cpp:34-361 | whatever call the index makes next, the pool answers what the index worked with: fetches show the value last written, new pages are made, unpins and deletions succeed |
| TreeOnPool.OthersMirrored | src/buffer/buffer_pool_manager.cpp:18-175 | a call of another client, a flush of index pages included, takes nothing from the index |
| TreeOnPool.SharedRunServes | src/storage/index/b_plus_tree.cpp:34-469 | in every run from the empty pool that the index shares with considerate clients, every answer to the index is the recorded one |
| TreeOnPool.NeverRisky | src/storage/index/b_plus_tree.cpp:34-469 | in such a run the index fetches only pages that are pinned, or that the disk has or will have when they are evicted |
| TreeOnPool.Run | src/buffer/buffer_pool_manager.cpp:18-175 | the pool with its frames and replacer serves the index so in every run of calls, with at least four frames; and if the others do not fetch pages that were never stored, the file is never read past its end |
| LruKReplacers.VictimUnique | src/buffer/lru_k_replacer.cpp:9-47 | the victim does not depend on the order in which frames are looked at |
| LruKReplacers.OrderTotal | src/buffer/lru_k_replacer.cpp:9-47 | any two frames are ordered, so that there is a victim whenever a frame may be chosen |
| LruKReplacers.LatestDecides | src/buffer/lru_k_replacer.cpp:9-47 | a history cut to its last k accesses shows all that the policy asks of the whole trace |
| LruKReplacers.LatestNext | src/buffer/lru_k_replacer.cpp:49-67 | dropping the oldest access of a full history keeps it the last k of the trace |
| LruKReplacers.LruKReplacer.Evict | src/buffer/lru_k_replacer.cpp:9-47 | takes out the victim defined on whole traces, or nothing exactly when no frame may be chosen |
| LruKReplacers.LruKReplacer.ChooseVictim | src/buffer/lru_k_replacer.cpp:9-47 | the scan with its running best finds that victim |
| LruKReplacers.LruKReplacer.RecordAccess | src/buffer/lru_k_replacer.cpp:49-67 | adds one access to the trace of the frame, and refuses a frame out of range |
| LruKReplacers.LruKReplacer.SetEvictable | src/buffer/lru_k_replacer.cpp:69-88 | marks a frame that is there, and the count follows |
| LruKReplacers.LruKReplacer.Remove | src/buffer/lru_k_replacer.cpp:90-110 | takes out an evictable frame, and refuses exactly the others that are there |
| LruKReplacers.LruKReplacer.Size | src/buffer/lru_k_replacer.cpp:112-116 | the running count is the number of frames that may be chosen |
| DiskFiles.Run | src/storage/disk/disk_manager.cpp:31-57 | any run of reads and writes on a new file: each read gives the page last written, or zeros, until a page past the end of the file has been read; from then on every read gives zeros and every write is dropped, because nothing clears the stream |
| DiskFiles.ReadsBack | src/storage/disk/disk_manager.cpp:31-57 | on the bytes of the file, a page written reads back and all other pages are as they were |
| DiskManagers.DiskManager.ReadPage | src/storage/disk/disk_manager.cpp:31-43 | the file answers as the map does as long as no read has been past its end, and a read of a page once written never is |
| DiskFiles.ShortReadLosesWrite | src/storage/disk/disk_manager.cpp:38-49 | a page that is read before the file has it and written afterwards still reads as zeros |
| DiskManagers.DiskManager.WritePage | src/storage/disk/disk_manager.cpp:45-57 | changes the one page, and no write makes a read fall short |
| DiskManagers.DiskManager.AllocatePage | src/storage/disk/disk_manager.cpp:59-61 | an id not used before |
| BufferPools.BufferPool.constructor | src/buffer/buffer_pool_manager.cpp:7-14 | all frames are free and the accounting invariant holds |
| BufferPools.BufferPool.NewPage | src/buffer/buffer_pool_manager.cpp:18-50 | fails exactly when every frame holds a pinned page; else a zero page pinned once, in the first free frame or that of the LRU-K victim, other pages keep their contents and pinned pages their frames; the access is recorded for the frame that the page pointer shows |
| BufferPools.BufferPool.FetchPage | src/buffer/buffer_pool_manager.cpp:52-99 | fails exactly when the page is not pinned and every frame holds a pinned page; else the page with one pin more and its logical contents; a hit is recorded for the frame that the page is in, a miss for the one that it enters |
| BufferPools.BufferPool.UnpinPage | src/buffer/buffer_pool_manager.cpp:101-122 | succeeds exactly on a pinned page, takes one pin, and notes a report of a write; the mark stays until the page is flushed or leaves |
| BufferPools.BufferPool.DeletePage | src/buffer/buffer_pool_manager.cpp:124-150 | fails exactly on a pinned page; frees the frame, the page reads as it last reached the disk, and the replacer never raises its exception |
| BufferPools.BufferPool.FlushPage | src/buffer/buffer_pool_manager.cpp:152-164 | succeeds exactly on a cached page, whose bytes are then on disk; no page changes |
| BufferPools.BufferPool.FlushAllPages | src/buffer/buffer_pool_manager.cpp:166-175 | every page's bytes are then on disk; no page changes |
| BufferPools.BufferPool.FullMeansAllPinned | src/buffer/buffer_pool_manager.cpp:18-50 | all frames hold pinned pages exactly when as many pages are pinned as there are frames |
| BufferPools.BufferPool.CachedIsTable | src/buffer/buffer_pool_manager.cpp:18-150 | every cached page is in one frame, where the page table says, with the times of its accesses, and every other frame is free once |
| BufferPools.BufferPool.EvictFrame | src/buffer/buffer_pool_manager.cpp:18-50 | evicting the victim writes it back exactly when it is marked dirty, and its page reads as before exactly when it is marked dirty or is as on disk; all other pages stay as they are, on disk too |
| BufferPools.BufferPool.KeptExactly | src/buffer/buffer_pool_manager.cpp:18-50 | what a page reads as after an eviction is what it is now exactly when its frame is marked dirty or it is as on disk |
| PoolStates.DisciplinedElsewhere | src/buffer/buffer_pool_manager.cpp:18-99 | in a pool whose writes are reported in time, evictions do not show |
| PoolRuns.Run | src/buffer/buffer_pool_manager.cpp:18-175 | any run is a run of a store of pages that knows nothing of frames; while writes are reported in time every fetch returns the bytes last written or fails because all frames are pinned; and the file is never read past its end unless a page is fetched that is neither pinned nor stored; the frames of the page pointers that it gives are those of LRU-K on its accesses |
| PoolRuns.FramesDetermined | src/buffer/buffer_pool_manager.cpp:18-150 | the operations and answers of a run alone, by LRU-K on its accesses, determine every frame that it gives, every page that leaves and every dirty mark |
| PoolRuns.LeavesAsVictim | src/buffer/buffer_pool_manager.cpp:18-99 | a page leaves the pool when it is deleted, or with no frame free as the LRU-K victim of the accesses of the run |
| PoolRuns.FetchSeesLast | src/buffer/buffer_pool_manager.cpp:52-99 | in such a run a fetch returns the bytes last written, whatever has been evicted since |
| PoolRuns.RunKeepsLast | src/buffer/buffer_pool_manager.cpp:18-175 | every page keeps the bytes last written to it, through any operations on other pages |
| PoolRuns.DisciplineLostExactly | src/buffer/buffer_pool_manager.cpp:101-122 | the discipline of reporting writes is broken by exactly one call, giving up the last pin of a written page without saying so; `EvictFrame` says when bytes are lost then |
| PoolRuns.LosesWrite | src/buffer/buffer_pool_manager.cpp:101-122 | a run of six calls on a pool with one frame in which a page last written with any data reads back as zeros |
| PageGuards.Run | src/buffer/page_guard.cpp:8-152 | any run of guards being made, moved, moved onto themselves, written through and dropped is a run over a plain map of pages in which each page has one pin per holder, and no write is ever lost |
| PageGuards.Perform | src/buffer/page_guard.cpp:8-152 | one guard operation keeps pins equal to holders and changes bytes as on the plain map |
| PageGuards.PageGuard.Moved | src/buffer/page_guard.cpp:11-15 | the new guard takes over the page, and the old one, whose dirty mark stays, owns nothing |
| PageGuards.PageGuard.Assign | src/buffer/page_guard.cpp:17-32 | the page held before is given back and the other's taken over; a guard moved onto itself stays as it is |
| PageGuards.PageGuard.Drop | src/buffer/page_guard.cpp:48-59 | the pin is given back with the guard's report, and a second drop gives nothing back |
| PageGuards.PageGuard.Overwrite | src/buffer/page_guard.cpp:41-44 | a guard written through will report it |
| PageGuards.OkShows | src/buffer/page_guard.cpp:95-152 | a page with an unreported write is held by a guard that will report it, so guards keep the discipline the pool needs |
| PageGuards.AllDropped | src/buffer/page_guard.cpp:34-59 | with all guards dropped no page is pinned and every write has been reported |
| PageGuards.HeldReplace | src/buffer/page_guard.cpp:17-32 | changing one guard changes the count of holders of its old and new page by one each |
| TablePages.TablePage.InsertTuple | src/storage/page/table_page.cpp:63-76 | succeeds exactly when tuple and slot fit; then a new last slot reads back the tuple and all others read as before |
| TablePages.TablePage.DeleteTuple | src/storage/page/table_page.cpp:89-92 | the slot reads as empty, all others as before |
| TablePages.TablePage.UpdateTuple | src/storage/page/table_page.cpp:94-107 | refuses exactly by the growth of the tuple; an accepted update changes that slot and no other exactly when there is room for all of the tuple, and short of the header the page is in order exactly then |
| TablePages.TablePage.GetTuple | src/storage/page/table_page.cpp:78-83 | a slot reads back its last written bytes |
| TablePages.TablePage.GetFreeSpaceRemaining | src/storage/page/table_page.cpp:58-61 | the gap between the slot directory and the free-space pointer |
| TablePages.RunOps | src/storage/page/table_page.cpp:63-107 | over any run of inserts, deletions and updates, refused ones included, the page denotes the tuples that the operations describe and answers accordingly |
| TablePages.InsertKeepsTuples | src/storage/page/table_page.cpp:63-76 | on the bytes, an insertion keeps directory, ranges and all other tuples |
| TablePages.DeleteKeepsTuples | src/storage/page/table_page.cpp:89-92 | on the bytes, a deletion keeps all other tuples and the free space |
| TablePages.UpdateKeepsTuples | src/storage/page/table_page.cpp:94-107 | on the bytes, an update with room keeps all other tuples |
| TablePages.UpdateInOrderExactly | src/storage/page/table_page.cpp:94-107 | an update leaves the page in order, with only that slot changed, exactly when the free space holds all of the new tuple, which is more than the guard asks |
| TablePages.UpdateLosesNeighbour | src/storage/page/table_page.cpp:94-107 | a full page of two tuples, and the page that an accepted update of the second makes of it, on which the slot of the first reads as deleted |
| TablePages.PutWord | src/storage/page/table_page.cpp:48-56 | a slot field reads back as written |
| HeapOrder.InsertAddsOne | src/storage/table/table_heap.cpp:18-52 | first-fit insertion yields a record id not in use and changes no other row; it fails exactly for a tuple that no page can hold |
| HeapOrder.WriteContents | src/storage/table/table_heap.cpp:79-85 | writing a slot changes the one row, and an empty tuple removes it |
| HeapOrder.RewriteContents | src/storage/table/table_heap.cpp:70-77 | an update changes the one row |
| TableHeaps.TableHeap.InsertTuple | src/storage/table/table_heap.cpp:18-52 | the tuple goes to the first page of the chain with room, or to a new page at its end; all other pages stay |
| TableHeaps.TableHeap.UpdateTuple | src/storage/table/table_heap.cpp:70-77 | rewrites the one slot unless the page refuses |
| TableHeaps.TableHeap.DeleteTuple | src/storage/table/table_heap.cpp:79-85 | empties the one slot |
| TableHeaps.TableHeap.GetTuple | src/storage/table/table_heap.cpp:54-68 | the bytes of the slot |
| TableHeaps.TableHeap.Begin | src/storage/table/table_heap.cpp:137-160 | the first live slot in chain-then-slot order, or the end |
| TableHeaps.TableHeap.Next | src/storage/table/table_heap.cpp:96-127 | the next live slot after a slot that may have been deleted meanwhile, or the end |
| TableHeaps.ScanAll | src/storage/table/table_heap.cpp:96-164 | stepping from Begin to End ends and visits every live slot exactly once, in chain-then-slot order |
| HeapScans.ScanAt | src/execution/executors/seq_scan_executor.cpp:20-51 | the row a scan comes to has not been visited and is as it was when the scan began, although visited rows have changed |
| HeapScans.ScanEnds | src/execution/executors/seq_scan_executor.cpp:20-51 | a scan that has ended has visited exactly the rows there were when it began |
| IndexEntries.IndexInfo.InsertEntry | src/include/onebase/catalog/catalog.h:49-49 | appends the row to the list of its key |
| IndexEntries.IndexInfo.RemoveEntry | src/include/onebase/catalog/catalog.h:51-61 | takes the row off the list of the key, and the list away when it is empty |
| IndexEntries.IndexInfo.LookupInteger | src/include/onebase/catalog/catalog.h:41-47 | on an exact index, exactly the rows with the key, each once, and no answer when there are none |
| IndexEntries.WithEntryAgrees | src/include/onebase/catalog/catalog.h:49-49 | listing a new row keeps the index exact: each key lists its rows, each once, no list empty |
| IndexEntries.WithoutEntryAgrees | src/include/onebase/catalog/catalog.h:51-61 | taking off a row that goes keeps the index exact |
| IndexEntries.MovedAgrees | src/execution/executors/update_executor.cpp:41-49 | moving a row to its new key keeps the index exact |
| Statements.OrderIsContents | src/storage/table/table_heap.cpp:96-164 | the rows in scan order are exactly the rows of the heap, each once |
| Statements.UpdateAllContents | src/execution/executors/update_executor.cpp:24-54 | an UPDATE of the heap gives exactly the affected rows that no page refuses their new versions, in whatever order it comes to them |
| Statements.RefusedExactly | src/execution/executors/update_executor.cpp:37-49 | an index moved for every affected row, as the result of the heap is ignored, is exact exactly when the refused rows keep their keys |
| Statements.NothingRefused | src/storage/page/table_page.cpp:94-107 | with room for all new versions on their pages nothing is refused |
| Statements.DeleteAllContents | src/execution/executors/delete_executor.cpp:22-45 | a DELETE of the heap takes off exactly the affected rows |
| Executors.Insert | src/execution/executors/insert_executor.cpp:16-52 | inserts the rows at fresh record ids, one for each row that a page can hold, counts those, changes no other row and keeps every index exact |
| Executors.Update | src/execution/executors/update_executor.cpp:16-56 | comes to each row that satisfied the predicate when the statement began once and counts it, refused or not; exactly those that are not refused get their new versions; the indexes are exact afterwards exactly when the refused rows keep their keys; cell by cell the new version of a row is the value of each expression on the old one, and all other rows are byte for byte as they were |
| Executors.UpdateByIndex | src/execution/executors/update_executor.cpp:16-56 | the same over an index scan, whose list is copied before the statement moves the rows off it |
| Executors.Delete | src/execution/executors/delete_executor.cpp:16-47 | deletes exactly the rows that satisfied the predicate when the statement began, returns their number and keeps every index exact; the rows gone are those of which the predicate is true, all others are byte for byte as they were |
| Executors.DeleteByIndex | src/execution/executors/delete_executor.cpp:16-47 | the same over an index scan |
| StatementMeanings.DeleteByColumn | src/execution/executors/delete_executor.cpp:29-41 | a DELETE whose predicate compares an integer column with a constant takes exactly the rows whose integer is below, above, equal to the constant, and so on |
| StatementMeanings.OneCellChanges | src/execution/executors/update_executor.cpp:32-38 | an UPDATE that gives every other column itself changes one cell of the rows it affects and nothing else |
| StatementMeanings.InsertedMeans | src/execution/executors/insert_executor.cpp:30-45 | every row that got an id reads back under it, and the rows there were before are as they were |
| StatementRewrites.DeleteRewrite | src/optimizer/optimizer.cpp:25-74 | a DELETE leaves the same rows and reports the same number when its scan is rewritten to an index scan |
| StatementRewrites.UpdateRewriteExactly | src/optimizer/optimizer.cpp:25-74 | an UPDATE comes to the same rows, and leaves the same ones exactly when the pages refuse the same new versions |
| Executors.CreateIndex | src/catalog/catalog.cpp:56-68 | the index built from a scan lists exactly the live rows under their keys |
| Executors.IndexServesRewrite | src/optimizer/optimizer.cpp:57-71 | over the rows that a scan yields, an index kept exact by these statements is one on which the index-scan rewrite is correct |
| TableRuns.Perform | src/execution/executors/update_executor.cpp:16-56 | each statement changes the heap as specified, keeps the indexes in step and reports the rows it came to |
| TableRuns.PerformAll | src/execution/executors/update_executor.cpp:16-56 | so does any run of statements |
| TableRuns.ReadRows | src/execution/executors/seq_scan_executor.cpp:20-51 | the rows of the table as a scan yields them, each once, in chain-then-slot order |
| TableRuns.ReadDatabase | src/execution/executors/seq_scan_executor.cpp:20-51 | after a run, the rows that a scan yields and the indexes are a database whose indexes agree with its rows |
| TableRuns.Run | src/optimizer/optimizer.cpp:12-128 | after any run of statements, the creation of indexes and any further run, each query that is safe to optimize yields the same rows when it is |
| TableRuns.RefusedUpdateLosesRow | src/execution/executors/update_executor.cpp:37-53 | a heap of one row with an exact index, and what an UPDATE that its page refuses makes of it: the row is counted, the heap is as it was, and the index lists the row under a key it does not have |
| Values.SignedDecimalInjective | src/type/value.cpp:273-289 | different integers have different texts |
| Values.TextMeans | src/type/value.cpp:273-289 | the text of an integer has its digits, without leading zeros, after a sign if it is negative; those of the other values are the value itself or its name |
| Values.TextAgrees | src/type/value.cpp:104-118 | two values of one type have equal texts exactly when they compare as equal, but for the clashes of a null with 0, false, the empty text and "NULL" |
| Comparisons.CompareMeans | src/type/value.cpp:48-134 | the six comparisons on all values: integers by size, texts by the dictionary, Booleans only for equality, an exception on all others; a null compares as the payload its constructor leaves |
| Comparisons.TextLessMeans | src/type/value.cpp:55-56 | one text is less than another exactly when it has the smaller character, or none, at the first position in which they differ |
| Comparisons.ColumnAgainst | src/include/onebase/execution/expressions/comparison_expression.h:14-19 | comparing an integer column of a row with a constant |
| Comparisons.ColumnsOfPair | src/include/onebase/execution/expressions/column_value_expression.h:17-21 | comparing an integer column of the left row of a pair with one of the right row |
| Joins.NestedLoopJoin | src/execution/executors/nested_loop_join_executor.cpp:13-48 | the rows of exactly the pairs that satisfy the predicate, by the position of the left row and then of the right one; without a predicate those of all pairs; fails exactly when an evaluation does |
| Joins.HashJoin | src/execution/executors/hash_join_executor.cpp:12-64 | building and probing yields the rows of exactly the pairs whose keys have the same text, by the position of the left row and then of the right one; fails exactly when a key does |
| Joins.JoinsAgree | src/execution/executors/hash_join_executor.cpp:12-64 | for an equality of two columns without null clashes the hash join yields the nested-loop join's rows in the same order |
| Joins.JoinsAgreeExactly | src/execution/executors/hash_join_executor.cpp:12-64 | it does so exactly when no null among the keys clashes with a value |
| OperatorMeanings.JoinRaises | src/execution/executors/nested_loop_join_executor.cpp:30-34 | a nested-loop join raises an exception exactly when its predicate on some pair raises one, or is neither null nor a Boolean |
| Plans.Optimize | src/optimizer/optimizer.cpp:12-23 | replacing the children in place, one by one, and then rewriting the node is the bottom-up rewriting of the whole tree |
| OperatorMeanings.HashChosenExactly | src/optimizer/optimizer.cpp:76-128 | a nested-loop join becomes a hash join exactly when its predicate equates a left column with a right one, written either way round, and then on these columns |
| OperatorMeanings.IndexChosenExactly | src/optimizer/optimizer.cpp:25-74 | a scan becomes an index scan exactly when its predicate equates a column with a constant and an index looks up that column, and then on the first such index for that constant |
| OperatorMeanings.OptimizedCompletely | src/optimizer/optimizer.cpp:12-23 | one pass leaves no node anywhere in the plan that it could rewrite |
| OperatorMeanings.OptimizedOnce | src/optimizer/optimizer.cpp:12-23 | a plan in which nothing is left to rewrite stays as it is, so a second pass changes nothing |
| Rewrites.OptimizePreservesRows | src/optimizer/optimizer.cpp:12-128 | without a catalog the optimized plan yields the same rows in the same order, for every plan tree that runs and whose joins are safe to rewrite |
| Rewrites.OptimizePreservesBag | src/optimizer/optimizer.cpp:12-128 | with exact indexes the optimized plan yields the same bag of rows, and the same sequence where the order is fixed, for every plan tree in which no limit and no aggregation depends on an order that may change |
| Rewrites.HashRewrite | src/optimizer/optimizer.cpp:76-128 | the join rewrite, with its swap of sides, keeps rows and order |
| Rewrites.HashRewriteExactly | src/optimizer/optimizer.cpp:76-128 | it does so exactly when both inputs run, their key columns exist and no null among the keys clashes with a value |
| Rewrites.IndexRewriteExactly | src/optimizer/optimizer.cpp:25-74 | the index-scan rewrite keeps the bag of rows exactly when the constant is an INTEGER or the table has rows |
| Rewrites.LimitKeepsExactly | src/optimizer/optimizer.cpp:57-71 | a limited scan keeps its answer, in whatever order an exact index lists the rows, exactly when the limit takes none, or all, or any of equal rows |
| Rewrites.LimitSeesTheOrder | src/optimizer/optimizer.cpp:25-74 | a plan with a LIMIT whose answer the rewrite changes although the index is exact |
| Bags.IndexScanBag | src/execution/executors/index_scan_executor.cpp:9-39 | fetching the rows that an exact index lists yields the bag of the filtered scan |
| Bags.HashedBag | src/execution/executors/hash_join_executor.cpp:12-64 | the bag of a hash join depends on the bags of its inputs only |
| Bags.NestedBag | src/execution/executors/nested_loop_join_executor.cpp:13-48 | so does the bag of a nested-loop join |
| OperatorMeanings.SeqScanMeans | src/execution/executors/seq_scan_executor.cpp:20-51 | a scan yields exactly the rows of which its predicate is true, in their order, and raises an exception exactly when the predicate on some row does or is neither null nor a Boolean |
| OperatorMeanings.FetchedMeans | src/execution/executors/index_scan_executor.cpp:26-39 | an index scan yields the rows stored at the listed ids, in the order of the list, and raises an exception exactly when one is missing |
| OperatorBags.ProjectedBag | src/execution/executors/projection_executor.cpp:15-30 | the bag of a projection depends on the bag of its input only, and so do its exceptions |
| OperatorMeanings.ProjectedMeans | src/execution/executors/projection_executor.cpp:15-30 | cell by cell the rows of a projection are the values of its expressions on the rows of its input; it raises an exception exactly when an expression does or has no type |
| OperatorBags.SortedBag | src/execution/executors/sort_executor.cpp:11-42 | so do those of a sort |
| OperatorBags.SortedExactly | src/execution/executors/sort_executor.cpp:24-39 | the comparator can sort whatever rows it can compare: its ties and its order are transitive |
| OperatorBags.SortedFixed | src/execution/executors/sort_executor.cpp:24-39 | when only equal rows tie, the sorted sequence does not depend on the order of the input |
| OperatorMeanings.GoesFirstMeans | src/execution/executors/sort_executor.cpp:24-39 | one row goes before another exactly by the first key in which they differ, in the direction of that key |
| OperatorMeanings.SortedByColumn | src/execution/executors/sort_executor.cpp:24-39 | sorted by one integer column the rows rise, or fall, in that column |
| Operators.Limited | src/execution/executors/limit_executor.cpp:16-26 | the first rows, as many as the limit, or all of them |
| OperatorBags.LimitedBagExactly | src/execution/executors/limit_executor.cpp:16-26 | a limit gives the same bag for every order of its input exactly when it takes none, or all, or any of equal rows |
| OperatorBags.AggregatedBag | src/execution/executors/aggregation_executor.cpp:10-134 | an aggregation gives the same bag, and no exception, for every order of an input whose group keys are apart and whose sums fit in any order |
| GroupOrders.AggregatedBagExactly | src/execution/executors/aggregation_executor.cpp:10-134 | on inputs of suitable types it does so exactly when no two groups share a key and every sum fits in any order |
| GroupOrders.SharedKeyShows | src/execution/executors/aggregation_executor.cpp:51-63 | an order of the rows for which two groups that share a key give another result |
| GroupOrders.SumShows | src/execution/executors/aggregation_executor.cpp:82-91 | an order of the rows for which a sum that does not fit in any order leaves 32 bits |
| OperatorBags.AggregatedExactly | src/execution/executors/aggregation_executor.cpp:10-134 | inside a plan, too, aggregation fails exactly when an expression, a running state or a tuple without types does |
| GroupKeys.InjectiveExactly | src/execution/executors/aggregation_executor.cpp:36-43 | the joined key text tells all rows of given column types apart exactly when there is no text column, or, without nulls in text columns, at most one |
| GroupKeys.KeyReadable | src/execution/executors/aggregation_executor.cpp:36-43 | for such column types the values can be read back from the key |
| AggregateFolds.FoldMeans | src/execution/executors/aggregation_executor.cpp:66-105 | the running state is the count, the count of non-nulls, the sum, the least or the greatest of the inputs, and null without any |
| AggregateFolds.FoldDefinedExactly | src/execution/executors/aggregation_executor.cpp:66-105 | on inputs of suitable type only a sum can fail, exactly when a partial sum leaves 32 bits |
| FoldOrders.SumsFitInAnyOrderExactly | src/execution/executors/aggregation_executor.cpp:82-91 | a sum can be computed in every order exactly when its positive and its negative amounts fit in 32 bits on their own |
| FoldOrders.FoldBag | src/execution/executors/aggregation_executor.cpp:66-105 | an aggregate has the same value in every order in which it can be computed |
| Aggregations.Aggregation | src/execution/executors/aggregation_executor.cpp:10-134 | yields one row per key, also for an empty input without grouping, fails exactly when an expression, a running state or a tuple without types does, and is the group-by exactly when no two groups share a key; on the rows themselves, each aggregate is over its own expression on exactly the rows that agree on every grouping expression |
| Aggregations.FileAll | src/execution/executors/aggregation_executor.cpp:32-106 | the table in one pass over the rows holds, per key, the states of exactly the rows filed under it |
| Aggregations.GroupsExactly | src/execution/executors/aggregation_executor.cpp:35-133 | the result has each group once, with its aggregates over exactly its rows, exactly when no two groups share a key |
| Aggregations.AggregationMeans | src/execution/executors/aggregation_executor.cpp:32-133 | for column types whose keys can be read back the result is the specified group-by with its counts, sums and extremes |
| Aggregations.AggregationOnRows | src/execution/executors/aggregation_executor.cpp:32-133 | for column types whose keys can be read back: one result row for every group of the rows, in which the column of an aggregate is the count, sum, least or greatest of its own expression on the rows of the group |
| OperatorMeanings.AggregatedMeans | src/execution/executors/aggregation_executor.cpp:10-134 | the same of an aggregation inside a plan, which is the group-by of its rows exactly when no two groups share a key |

## Left out

- Page layout of the index: nodes are typed pages with room for one entry more than their limit, because the source inserts first and splits afterwards; the sizes it computes by default (src/storage/index/b_plus_tree.cpp:16-25) do not leave that room, nor are they modelled.
- BPlusTrees.BPlusTree.constructor: a leaf limit of at least 2 and an internal limit of at least 3 are required; with less, pages may become empty or lose their only sibling, and a limit of 0, which the source replaces by a computed one, is part of the page layout.
- The index template is fixed to integer keys and record ids, and the descent loops that the source repeats are written once.
- PageStores.PageStore.UnpinPage: the index promises the pool to unpin pinned pages only, and to report a change by the time the last pin goes; the pool would accept calls that break the promise, and `PoolRuns.LosesWrite` shows what happens then.
- PageStores.PageStore.DeletePage: only for pages of the index that are not pinned; it deletes no others.
- TreeOnPool.Run: a value is laid out in bytes by an arbitrary function, and a fetch gives the bytes of the value last written; that they can be read back as that value belongs to the page layout. The values that a page takes between two calls to the pool are one write.
- Latches and threads: every pool operation is one atomic step, and the index, which takes no latches, is single-threaded; the latches of the read and write guards are not modelled.
- BufferPools.BufferPool.constructor: the disk under the pool is the plain map, which the file gives until it is read past its end (`DiskManagers.DiskManager.ReadPage`, `DiskFiles.Run`). Fetching a page that was created and evicted, or deleted, without having been written may do that; the source then drops all later writes. `PoolRuns.Run` and `TreeOnPool.Run` say which runs do not.
- BufferPools.BufferPool.FetchPage: only for allocated page ids; below the tree and the heap no other ids occur.
- BufferPools.BufferPool.NewPage: access times stay below the largest `size_t`, and page ids are not bounded here.
- PoolRuns.Run: what a deleted page reads as is left open for whole runs, because it depends on evictions; `BufferPools.BufferPool.DeletePage` says it for one call.
- The bytes of a page in a frame are one value, and a page pointer is the id with its frame; writing single bytes through it is not modelled.
- LRU-K with k = 0 is not modelled.
- DiskFiles.Run: the file is new; opening an existing one, closing it and errors of the device are not modelled.
- PageGuards.Run: all guards are on one pool, a guard operation between guards of different classes is not made because it does not compile, and pins taken without a guard are given back by whoever took them and not written through.
- FLOAT values, whose text is rounded, and schemas whose column offsets differ from the serialized widths.
- Arithmetic and logic in expressions are any functions of the rows, so the theorems hold whatever they compute; what they compute is not modelled.
- Values.TextAgrees: values of different types do not compare, so they are not related.
- Plans, rows and tables are values, and an executor's output is the sequence of rows it yields; `Init`, `Next` and the cursors are not separate steps.
- Rewrites.OptimizePreservesRows: a plan under a LIMIT that raises an exception after the rows taken counts as raising it, and so does a sort if any of its comparisons would.
- Rewrites.OptimizePreservesBag: as `OptimizePreservesRows`; how a sort orders rows that tie and an aggregation its groups is a function of the sequence of input rows that is left open.
- Tuples are laid out by an abstract codec of which the statements need only that a row reads back as written; the layout of columns in a tuple is not modelled.
- Table heaps keep their pages in a store that always has room in memory; a pool that refuses a page is not modelled, and neither are page ids beyond 32 bits.
- TablePages.TablePage.UpdateTuple: an accepted update of more bytes than lie below the free-space pointer is not modelled; the source writes it off the page.
- TablePages.RunOps: an update that the guard lets through without room for all of it is excluded; `UpdateInOrderExactly` and `UpdateLosesNeighbour` say what it does.
- Executors.Update: every new version is refused by its page or has room on it; one that the guard lets through without room overwrites other tuples, as on the page.
- Executors.Insert: the rows inserted do not come from a scan of the same table, which would see its own insertions.
- Executors.CreateIndex: one INTEGER column; an index on other columns has no entries, and names, oids and `DropIndex` of the catalog only add easy members.
- TableRuns.Run: one table, and statements over sequential scans; those over index scans are proved one by one, and `StatementRewrites` compares the two. A refused update that would change a key is excluded; `Executors.Update` says what becomes of the indexes.
- Aggregations.Aggregation: a sum that leaves 32 bits counts as an exception, where the source leaves it to the compiler.
- Lock manager (its methods only raise exceptions), transactions, binder, network, shell and printing tools.
