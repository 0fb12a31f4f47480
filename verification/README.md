# oxtub in Dafny

oxtub is a small relational database engine. This project models the parts of it
where a fast structure has to agree with a simple one, and proves that it does,
or says exactly when it does not.

- **B+ tree index** (`Entries`, `LeafPage`, `LeafLive`, `InternalPage`, `TreeShape`,
  `TreeSteps`, `TreeContents`, `TreeLeaves`, `TreeRoom`, `InsertSteps`,
  `RemoveSteps`, `LeafPairs`, `InternalPairs`, `LeafEviction`, `BTree`, `BTreeScan`,
  `AscendingKeys`, `BTreeRuns`).
  Pages are objects over arrays, reached through page ids. A ghost map gives every
  page its interval of entries, its level and its parent; every split, merge,
  redistribution, root growth and root shrink keeps that map true. The tree is the
  one production indexes use, without tombstones; leaf pages and leaf pairs are
  proved for every tombstone capacity.
- **Buffer pool** (`BufferPool`, `BufferPoolRuns`, `PoolLatches`, `LruKReplacer`,
  `DiskManager`). The pool agrees with one flat map from page ids to bytes, and what
  it evicts follows from the requests it served. Its mutex and its latches are a
  state machine over thread steps.
- **Plans** (`Values`, `Expressions`, `Plans`, `IndexLookup`, `IndexTree`,
  `Optimizer`, `OptimizerProofs`, `OptimizerEffects`, `DecimalJoin`, `ExecutorSteps`,
  `ExecutorViews`, `Executors`, `QueryEngine`). A plan stands for a sequence of rows.
  The optimizer keeps that sequence, and the operators produce it in batches of any
  size. What that sequence is, and when there is one, is said apart from how it is
  computed (`ExpressionLaws`, `PlanLaws`, `JoinLaws`, `SortLaws`).
- **External merge sort** (`SortOrder`, `MergeOrder`, `SortPages`, `SortRuns`,
  `ExternalSort`, `SortExecutor`, `StalePages`), down to the bytes of its pages.
- **Encodings** (`Bytes`, `Tuples`, `KeyEncoder`).
- **Index maintenance** (`IndexMaintenance`, `FailingUpdate`). One row inserted, updated or deleted,
  and an index built over existing rows, on a heap and its B+ trees.

`Common` holds what the others share.

## Model

| member | source | states |
|---|---|---|
| BTrees.BTree.Insert | src/storage/index/b_tree.rs:253-297 | the pair is added and nothing else changes; Duplicate exactly if it was there; the page assertion fails exactly if the pair is new and the leaf it belongs to is full, and the tree is then as before; which leaf grew, and how it split |
| BTrees.BTree.InsertPessimistic | src/storage/index/b_tree.rs:298-364 | the same three outcomes for the path that latches its ancestors, with the root never gone by the time a split needs it |
| BTrees.BTree.DescendWritePathForInsert | src/storage/index/b_tree.rs:406-436 | what stays latched is the bottom of a root path, ends in the leaf responsible for the pair, starts at a page that cannot split or at the real root, and the header is still held exactly in the latter case |
| BTrees.BTree.InsertIntoParent | src/storage/index/b_tree.rs:478-545 | a split that has not reached its parent yet ends in a well-formed tree with the same pairs, and no unwrap or assertion on the latched ancestors fails |
| InsertSteps.SplitMovesUp | src/storage/index/b_tree.rs:478-545 | a parent that splits in turn hands its own parent the same situation one level up, so the latched ancestors suffice |
| BTrees.BTree.Remove | src/storage/index/b_tree.rs:546-599 | exactly that pair is gone; NotFound exactly if it was absent, and then nothing changed; which leaves merged or shared entries; and which pairs meet a full leaf from now on, told from the tree as it was before |
| BTrees.BTree.DescendWritePathForDelete | src/storage/index/b_tree.rs:1139-1169 | what stays latched is the bottom of a root path that starts at a page no underflow can leave, or at the real root with the header still held |
| BTrees.BTree.RebalanceLeaf | src/storage/index/b_tree.rs:646-703 | a leaf one entry short gets its tree back in order, with all pairs kept, by sharing with or merging into one neighbour, the left one first; and which pairs meet a full leaf afterwards |
| TreeRoom.WithoutIs | src/storage/index/b_tree.rs:600-703 | what finds no room once a pair is out depends on the leaf that holds it, how many entries that leaf keeps and how full its neighbours are, and on nothing else |
| TreeRoom.SharedRoom | src/storage/index/b_tree.rs:936-980 | two leaves that shared their entries are both below their capacity and in charge of the same pairs together; no other leaf changes |
| TreeRoom.MergedRoom | src/storage/index/b_tree.rs:981-1011 | the leaf two leaves merged into is in charge of what both were, and full exactly if their entries together fill it |
| BTrees.BTree.PropagateParentUnderflow | src/storage/index/b_tree.rs:705-809 | an internal page that may be too small, at the end of any retained path, ends in a well-formed tree of the right page sizes, with the same pairs, the same leaves and every leaf in charge of what it was |
| RemoveSteps.JoinMovesUp | src/storage/index/b_tree.rs:705-837 | merging two siblings leaves only their parent possibly short, and the retained path still covers it |
| BTrees.BTree.ShrinkRootPage | src/storage/index/b_tree.rs:904-934 | an internal root with one child gives way to it, under the header guard; every pair stays |
| TreeSteps.Cut | src/storage/index/b_tree.rs:342-357 | splitting any page in two under its parent keeps intervals, levels, parents, separators and the leaf chain |
| TreeSteps.Join | src/storage/index/b_tree.rs:810-837 | so does joining two neighbours under their parent |
| RemoveSteps.Share | src/storage/index/b_tree.rs:838-903 | so does moving entries or children between two neighbours and mending the separator |
| TreeShape.Unique | src/storage/index/b_tree.rs:365-405 | in a well-formed tree at most one page per level is responsible for an entry |
| TreeLeaves.NoFullLeafStep | src/storage/page/b_tree_leaf_page.rs:454-472 | an insertion into a tree without full leaves leaves no full leaf |
| TreeLeaves.NoFullLeafRemoved | src/storage/index/b_tree.rs:981-1021 | neither does a deletion, if a leaf has at most three places |
| BTreeRuns.Run | src/storage/index/b_tree.rs:253-703 | over every sequence of insertions and deletions from the empty tree, every outcome and the contents are those of a set of pairs; the assertion fails at step i exactly if the pair is new and the leaf responsible for it in the well-formed tree of that moment is full; never, if no step deletes or a leaf has at most three places |
| BTreeRuns.FailingRun | src/storage/index/b_tree.rs:1012-1021 | for every leaf capacity from 4 on: insert 0, 1, up to the capacity, delete 0, insert once more; every history of these operations ends in the failure of the last one |
| BTreeRuns.MergeFillsLeaf | src/storage/index/b_tree.rs:1012-1021 | a tree of that capacity, run so, does fail |
| AscendingKeys.FullOnMerge | src/storage/index/b_tree.rs:981-1021 | in two leaves holding one pair more than a leaf has places, with the first at its minimum, deleting the first pair leaves no room for any other |
| BTreeRuns.LeafWithoutSibling | src/storage/index/b_tree.rs:113-140 | internal capacity 2: splitting a full internal page leaves a well-formed tree in which a leaf at its minimum has no sibling, and the search for one finds none |
| BTreeRuns.TwoChildrenIffCapacityThree | src/storage/page/b_tree_internal_page.rs:423-502 | both halves of a split internal page have two children exactly from capacity 3 on |
| BTreeScans.GetValues | src/storage/index/b_tree.rs:194-248 | exactly the row ids stored under the key, in their order, also when they span leaves and separators are stale |
| BTreeScans.LowerBound | src/storage/index/b_tree.rs:1215-1245 | iteration from there yields exactly the pairs with a key no smaller, in order |
| BTreeScans.Iter | src/storage/index/b_tree.rs:1189-1213 | iteration yields exactly the stored pairs, in order |
| BTreeScans.IndexIterator.Next | src/storage/index/index_iterator.rs:39-65 | one call takes the first of the pairs still to come, and reports the end exactly if there is none |
| BTreeScans.Size | src/storage/index/b_tree.rs:1247-1249 | the number of stored pairs |
| InternalPages.InternalPage.FindChildIdx | src/storage/page/b_tree_internal_page.rs:150-178 | the leftmost child that can hold the key: the separator before it is smaller, the one behind it is not |
| InternalPages.InternalPage.FindChildIdxForInsert | src/storage/page/b_tree_internal_page.rs:180-202 | the child whose separators enclose the pair |
| InternalPages.InternalPage.InsertAfter | src/storage/page/b_tree_internal_page.rs:388-406 | separator and child go in right behind the named child, all else keeps its order |
| InternalPages.InternalPage.SplitInsertAfter | src/storage/page/b_tree_internal_page.rs:423-502 | in all three cases of the code: insert, cut at (max + 1) / 2, promote the separator at the cut |
| InternalPairs.TryRedistributeInternalPair | src/storage/index/b_tree.rs:838-903 | happens exactly if one page is below and the other above the minimum; then both pages with the parent's separator between them are the same sequence, cut one place further |
| InternalPairs.MergeInternalRightIntoLeft | src/storage/index/b_tree.rs:810-837 | the left page becomes both pages joined by the parent's separator, which leaves the parent together with the right page |
| LeafPages.LeafPage.FindInsertPos | src/storage/page/b_tree_leaf_page.rs:147-184 | the binary search ends at the lower bound of the pair |
| LeafPages.LeafPage.InsertAt | src/storage/page/b_tree_leaf_page.rs:454-472 | the arrays end up holding the entry at its place and every tombstone shifted with the entry it marks |
| LeafPages.LeafPage.RemoveAt | src/storage/page/b_tree_leaf_page.rs:614-645 | the arrays end up without the entry and its tombstone, the other tombstones moved along |
| LeafPages.LeafPage.MoveSplitEntriesTo | src/storage/page/b_tree_leaf_page.rs:500-530 | the recipient gets the live entries from the cut on, the page keeps the rest with its tombstones |
| LeafPages.LeafPage.RemoveAllTombstones | src/storage/page/b_tree_leaf_page.rs:583-611 | compaction in place leaves the live entries and no tombstone |
| LeafPages.LeafPage.CoalesceRightIntoPage | src/storage/page/b_tree_leaf_page.rs:647-670 | the page holds both pages' entries and both tombstone lists, the right one shifted |
| LeafLive.InsertLive | src/storage/page/b_tree_leaf_page.rs:454-472 | in the live view (entries without tombstone) an insertion adds the entry at its place and nothing else |
| LeafLive.RemoveLive | src/storage/page/b_tree_leaf_page.rs:557-645 | removing an entry takes at most that one out of the live view; evicting a tombstone leaves the view as it is |
| LeafLive.AddTombstoneLive | src/storage/page/b_tree_leaf_page.rs:532-581 | a tombstone takes its entry out of the live view, removing the tombstone brings it back |
| LeafLive.SplitLive | src/storage/page/b_tree_leaf_page.rs:500-530 | a split partitions the live view |
| LeafLive.CoalesceLive | src/storage/page/b_tree_leaf_page.rs:647-670 | coalescing concatenates the live views |
| LeafPairs.ChooseLeafPairAction | src/storage/index/b_tree.rs:1012-1021 | redistribute exactly if the live entries of both leaves do not fit one leaf |
| LeafPairs.RedistributeLeafPair | src/storage/index/b_tree.rs:936-980 | for every tombstone capacity: no live entry is lost or reordered, both leaves end within bounds and without tombstones, and the separator is the right leaf's first entry |
| LeafPairs.MergeLeafPair | src/storage/index/b_tree.rs:981-1011 | for every tombstone capacity: the live entries of both leaves in order, within bounds, with exactly as many tombstones as the minimum needs, linked on, and the parent without the right leaf |
| LeafEvictions.EvictOldestTombstoneAndAppend | src/storage/page/b_tree_leaf_page.rs:541-555 | what the page does on its arrays, including where its assertion fails |
| LeafEvictions.EvictionCorrectIff | src/storage/page/b_tree_leaf_page.rs:541-565 | deleting with a full tombstone list deletes that entry and no other exactly if the entry lies before the oldest tombstone and the entry behind that tombstone is tombstoned too |
| LeafEvictions.EvictionLosesEntry | src/storage/page/b_tree_leaf_page.rs:541-565 | if the entry behind the oldest tombstone is live, it goes too |
| LeafEvictions.SiblingEmptyIff | src/storage/page/b_tree_leaf_page.rs:500-530 | a split leaves an empty sibling exactly if every entry from the cut on is tombstoned |
| BufferPools.BufferPool.AcquireFrameForPageLoad | src/buffer/bpm.rs:282-329 | NoAvailableFrame exactly if every frame is pinned, and then nothing changed; if as many pages are loaded as there are frames, exactly one page goes: of those without a guard the one whose second last access since it was loaded lies furthest back, and before all those the pages asked for only once, oldest first; it is written back if it is dirty, so the flat store stays; IoError exactly if it is dirty and cannot be written, and then it stays with its history started over |
| BufferPools.BufferPool.WritePage | src/buffer/bpm.rs:173-217 | a write guard shows the page's bytes, is the only guard, and leaves the flat store as it was, hit or miss; either way it is an access to the page |
| BufferPools.BufferPool.ReadPage | src/buffer/bpm.rs:219-258 | a read guard shows the page's bytes and joins other readers; hit or miss, it is an access to the page |
| BufferPools.BufferPool.DropWriteGuard | src/buffer/page_guard.rs:83-97 | the bytes written stay in the flat store, and the page is free of guards, and of pins, which are as many as its guards |
| BufferPools.BufferPool.DropReadGuard | src/buffer/page_guard.rs:22-34 | one reader less, one pin less, and the flat store as it was |
| BufferPools.BufferPool.DeletePage | src/buffer/bpm.rs:121-152 | refused exactly if the page is pinned; otherwise gone from pool and disk, and no other page changes |
| BufferPools.EvictKeeps | src/buffer/bpm.rs:289-327 | page table, frames, free list and replacer stay one consistent partition when a frame changes hands, and no page's bytes change |
| BufferPools.NoneEvictableIffAllPinned | src/buffer/bpm.rs:286-294 | no free frame and nothing to evict exactly if every frame is pinned |
| BufferPoolRuns.Run | src/buffer/bpm.rs:121-329 | over every sequence of reads, writes, stores, drops, deletions and failing write-backs, every answer is what a client of one flat store of pages sees: the last bytes stored, waiting exactly if a latch forbids it, refused for want of a frame exactly if as many pages are held as there are frames and this one is in none, and for a failed write-back exactly if a page has to go and that page is dirty; which pages are in frames, when each was asked for, which are dirty and which one goes next follow from the requests and their answers alone |
| BufferPoolRuns.TwiceOutlivesOnce | src/buffer/bpm.rs:260-270 | in every run, no request evicts a page asked for twice since it was loaded while a page without a guard was asked for only once |
| BufferPoolRuns.HitKeepsPage | src/buffer/bpm.rs:260-329 | two frames; pages 1, 2, 1 and 3 read and dropped in turn: in every run of these, 1 and 3 are in frames at the end |
| PoolLatches.StepKeeps | src/buffer/bpm.rs:173-329 | every step of every thread keeps pin counts equal to the guards that count, latches exclusive, and the mutex with one holder |
| PoolLatches.HolderWaitsForLeavers | src/buffer/bpm.rs:282-298 | who waits for a latch under the mutex waits only for guards that have given up their pin, and those wait for nobody |
| PoolLatches.RelatchNeverBlocks | src/buffer/bpm.rs:249-250 | after loading a page the reader gets its read latch at once |
| PoolLatches.HolderComesNearer | src/buffer/bpm.rs:177-329 | no step of any thread sets the mutex holder back, and every helping step brings it closer to the end |
| PoolLatches.NoRunBlocksOnTheMutex | src/buffer/bpm.rs:173-329 | in every state of every run no wait cycle passes through the mutex, and some enabled step helps its holder |
| LruKReplacers.LruKReplacer.RecordAccess | src/buffer/replacer/lru_k_replacer.rs:60-80 | the history is the last k of all access times since the frame entered |
| LruKReplacers.KeyLessIsDistance | src/buffer/replacer/lru_k_replacer.rs:98-121 | comparing histories is comparing backward k-distances over the whole trace, and never ties |
| LruKReplacers.LruKReplacer.Evict | src/buffer/replacer/lru_k_replacer.rs:98-121 | the evictable frame to evict first is evicted, and nothing exactly if none is evictable |
| LruKReplacers.VictimUnique | src/buffer/replacer/lru_k_replacer.rs:98-121 | there is only one such frame, whatever the order of the hash map |
| LruKReplacers.LruKReplacer.Size | src/buffer/replacer/lru_k_replacer.rs:138-140 | the counter is the number of evictable frames |
| DiskManagers.DiskManager.WritePage | src/storage/disk/disk_manager.rs:62-82 | the page reads back the bytes, every other page is untouched; refused exactly for a wrong length |
| DiskManagers.DiskManager.ReadPage | src/storage/disk/disk_manager.rs:43-60 | the last bytes written; a page never written shows zeros if no slot is free, and otherwise the old bytes of the slot freed last |
| DiskManagers.DiskManager.AllocateNewPage | src/storage/disk/disk_manager.rs:86-99 | live and free slots stay disjoint and together all slots, within the file |
| DiskManagers.DiskManager.DeletePage | src/storage/disk/disk_manager.rs:101-109 | the slot is freed with its bytes left in the file, no other page changes |
| OptimizerProofs.OptimizeSame | src/query/optimizer/mod.rs:40-52 | all rules together keep the rows of a plan, their order and the schema, if the key columns of every join they change have equal types and tell no live pair apart that SQL equality does not |
| OptimizerProofs.MergeProjectionsSame | src/query/optimizer/mod.rs:54-98 | dropping projections that change nothing, anywhere in a plan, keeps its rows |
| OptimizerProofs.IndexJoinsSame | src/query/optimizer/mod.rs:108-177 | turning joins of two scans into index joins, anywhere in a plan, keeps the rows and their order for inner and left joins, under the same condition |
| OptimizerProofs.FiltersIntoScansSame | src/query/optimizer/mod.rs:253-285 | pushing filters into scans, anywhere in a plan, keeps its rows |
| OptimizerEffects.NothingLeftToDo | src/query/optimizer/mod.rs:40-52 | an optimized plan has no projection that changes nothing, no filter right above a plain scan, and no join of plain scans an index could serve |
| OptimizerEffects.AppliesIff | src/query/optimizer/mod.rs:108-177 | the join rule applies exactly to inner and left joins of two scans, on a conjunction of equalities between a left and a right column, if some index is over just these right columns |
| OptimizerEffects.ExtractsEquiJoins | src/query/optimizer/mod.rs:179-229 | exactly those conditions are taken apart, into the columns of either side in order |
| OptimizerProofs.IndexJoinSameIff | src/query/optimizer/mod.rs:108-177 | where the join rule applies it keeps the rows exactly if the left table has no live row, or the key columns have equal types and no live pair has Decimal keys that SQL equality and bits tell apart |
| OptimizerProofs.PlainColumnsFaithful | src/query/optimizer/mod.rs:230-243 | no pair does if no key column stores a NaN or a negative zero |
| OptimizerProofs.MismatchPanics | src/storage/table/tuple.rs:219-234 | with key columns of different types the rewritten join has no result |
| OptimizerProofs.RightFilterIsForgotten | src/query/optimizer/mod.rs:131-135 | on a right scan that filters everything out the rule brings all the joined rows back |
| DecimalJoin.IndexJoinLosesZero | src/query/optimizer/mod.rs:108-177 | one row of plus zero joined with one row of minus zero: the plan has a row, the rewritten plan none |
| IndexLookup.LookupIsFilteredScan | src/query/executor/nested_index_join.rs:103-131 | the rows an index lookup fetches are the live rows with that key, in heap order |
| IndexTree.LookupIsScanKey | src/storage/index/b_tree.rs:194-248 | what a lookup in the tree returns is what a plan's lookup stands for |
| Expressions.KleeneLattice | src/query/executor/expression.rs:451-476 | AND, OR and NOT are minimum, maximum and complement on false, unknown, true |
| ExpressionLaws.IntegerArithmetic | src/query/executor/expression.rs:149-169 | sum, difference and opposite are those of numbers, in the larger of the types; what does not fit is an error |
| ExpressionLaws.AddBack | src/query/executor/expression.rs:314-323 | (a - b) + b is a wherever a - b has a value |
| ExpressionLaws.AddOpposite | src/query/executor/expression.rs:149-169 | a + (-a) is 0 and -(-a) is a, wherever -a has a value |
| ExpressionLaws.LessThanNext | src/query/executor/expression.rs:325-338 | a < a + 1 is true and a > a + 1 false, wherever a + 1 has a value |
| ExpressionLaws.Overflows | src/query/executor/expression.rs:404-440 | the last number of each integer type has no next one, and the first no opposite |
| ExpressionLaws.DecimalArithmetic | src/query/executor/expression.rs:388-402 | with a decimal on either side, sum and difference are the float sum and difference of both taken as floats |
| ExpressionLaws.DecimalOpposite | src/query/executor/expression.rs:149-169 | the opposite of a decimal differs in the sign bit alone |
| ExpressionLaws.OtherArithmetic | src/query/executor/expression.rs:351-386 | what is not a number is an error; a null among numbers makes a null of the type the result would have |
| ExpressionLaws.FailingOperand | src/query/executor/expression.rs:19-75 | an operand that fails makes the expression fail with the same error, the left one first; AND and OR evaluate both |
| ExpressionLaws.ComparisonFollowsOrder | src/query/executor/expression.rs:281-338 | every operator says what the order of numbers, sign and magnitude, truth values or bytes says; with NaN only "not equal" holds |
| ExpressionLaws.Trichotomy | src/query/executor/expression.rs:241-338 | exactly one of less, equal and greater is true; a > b is b < a; the other operators are their opposites |
| ExpressionLaws.OtherComparisons | src/query/executor/expression.rs:241-268 | an error exactly for types of different kinds, unknown exactly for a null of the same kind |
| ExpressionLaws.LogicIsDegrees | src/query/executor/expression.rs:442-476 | on values: AND is the smaller degree, OR the larger, NOT the complement; what is no truth value is an error |
| ExpressionLaws.KeptIsTrue | src/query/executor/expression.rs:205-226 | a row is kept exactly if the condition is true of it, and it fails exactly if the condition has no truth value |
| ExpressionLaws.NullChecks | src/query/executor/expression.rs:171-177 | IS NULL is true exactly of a null, IS NOT NULL exactly of anything else |
| PlanLaws.ScanGives | src/query/executor/seq_scan.rs:45-76 | a scan gives exactly the live rows its filter is true of, in heap order |
| PlanLaws.FilterGives | src/query/executor/filter.rs:39-70 | a filter gives exactly the child's rows its condition is true of, in their order |
| PlanLaws.ProjectionGives | src/query/executor/projection.rs:37-56 | one row for each row of the child, with the values of the expressions on it |
| PlanLaws.ValuesGive | src/query/executor/values.rs:34-55 | one row for each list, with the values of its expressions |
| PlanLaws.OnePlusTwo | src/query/executor/values.rs:34-55 | VALUES (1 + 2) is one row with 3 in it |
| PlanLaws.LimitGives | src/query/executor/limit.rs:36-74 | a number n gives the first n rows, or all if there are fewer; a null gives all; a negative number or anything else gives none and is an error |
| PlanLaws.ScanHasRows | src/query/executor/seq_scan.rs:45-76 | a scan has rows exactly if its filter is a truth value of every live row |
| PlanLaws.FilterHasRows | src/query/executor/filter.rs:39-70 | a filter has rows exactly if its condition is a truth value of every row of the child |
| PlanLaws.ProjectionHasRows | src/query/executor/projection.rs:37-56 | a projection has rows exactly if every expression has a value on every row |
| PlanLaws.SortHasRows | src/query/executor/sort.rs:235-375 | a sort has a meaning here exactly if every row fits its schema and a page and has keys of their types that are not NaN |
| JoinLaws.LoopJoinGives | src/query/executor/nested_loop_join.rs:66-126 | left row by left row, exactly the right rows the condition is true of, in order; a left row without any comes once in a left join, followed by nulls of the remaining columns' types; a cross join tests nothing |
| JoinLaws.IndexJoinGives | src/query/executor/nested_index_join.rs:55-155 | the same for an index join, with the live inner rows whose key columns are the values of the expressions, none of them null |
| JoinLaws.RowsBeginLeft | src/query/executor/join.rs:3-23 | every row of a join begins with a row of the left side |
| JoinLaws.LeftRowsStay | src/query/executor/nested_loop_join.rs:83-92 | every left row begins a row of a left join, and alone if nothing joins it |
| JoinLaws.LoopJoinHasRows | src/query/executor/nested_loop_join.rs:66-126 | a loop join has rows exactly if both sides have and its condition is a truth value of every pair |
| JoinLaws.IndexJoinHasRows | src/query/executor/nested_index_join.rs:55-155 | an index join has rows exactly if the outer side has and every outer row gives a key of the inner columns' types |
| Expressions.EvaluateStaysInRange | src/query/executor/expression.rs:404-440 | whatever evaluates gives a value within its type's width |
| Expressions.EquiJoinMeaning | src/query/executor/expression.rs:216-239 | a condition the join rule takes apart keeps a pair exactly if the keys are equal and none is null |
| Executors.Executor.Next | src/query/executor/executor.rs:24-24 | for every operator and every batch size, a batch is the next part of the rows still to come, within the size, and empty exactly at the end |
| Executors.Executor.NextLoop | src/query/executor/nested_loop_join.rs:66-126 | the loop join may stop and resume at any pair, with left rows padded exactly if nothing matched |
| Executors.Executor.NextProbe | src/query/executor/nested_index_join.rs:55-155 | the index join may stop and resume at any fetched row |
| Executors.Executor.NextFilter | src/query/executor/filter.rs:39-70 | the filter may stop with rows buffered and goes on with them |
| Executors.Executor.NextLimit | src/query/executor/limit.rs:61-74 | never more rows than the limit leaves, and the remaining count never goes below zero |
| Executors.Executor.Init | src/query/executor/executor.rs:22-22 | starting an operator that is not in the middle of its rows makes it produce all of them |
| Executors.Executor.DrainSorted | src/query/executor/sort.rs:235-375 | the sort operator reads its child to the end, runs the external sort on pages and gives the sorted rows |
| QueryEngine.Execute | src/query/executor/engine.rs:48-70 | the rows collected are exactly the rows the plan stands for, in order |
| QueryEngine.OptimizeAndExecute | src/query/engine.rs:66-96 | so they are after optimizing |
| QueryEngine.PlannedRestarts | src/query/planner/transformer.rs:270-388 | every plan of a planned query meets what running and optimizing ask of its shape |
| Executors.Executor.RestartFilter | src/query/executor/filter.rs:35-37 | a filter started over, whatever it had buffered, gives the buffered rows that pass and then all its rows; right exactly if none of them passes |
| Executors.Executor.RestartLoop | src/query/executor/nested_loop_join.rs:62-64 | a loop join started over goes on with the left rows it had before it gives all its rows; right exactly if they join with nothing |
| SortOrder.KeysPreorder | src/query/executor/sort.rs:45-78 | the comparator is a total preorder on keys of the right types without NaN |
| SortLaws.ColumnsInOrder | src/query/executor/sort.rs:45-78 | in a sorted plan's rows, a column decides between two rows wherever the columns before it tie: by the order of values, turned around for descending, nulls at the end asked for |
| SortLaws.NullsStandTogether | src/query/executor/sort.rs:45-55 | among rows that tie in the columns before, one with a null stands before one without exactly if nulls come first |
| SortLaws.TiesKeepOrder | src/query/executor/sort.rs:284-285 | rows that tie in all columns keep the child's order |
| SortLaws.SortPermutes | src/query/executor/sort.rs:235-375 | no row is lost or made up |
| SortOrder.StableSortSorted | src/query/executor/sort.rs:266-296 | the reference sort is sorted |
| SortOrder.StableSortStable | src/query/executor/sort.rs:284-285 | and keeps rows with equal keys in their order |
| MergeOrder.MergeIsStable | src/query/executor/sort.rs:162-181 | merging two stably sorted runs, first run first on ties, is the stable sort of both |
| SortPages.InsertTuple | src/storage/page/intermediate_result_page.rs:185-199 | on the page's bytes: the tuple is added behind those there exactly if it fits, otherwise no byte changes |
| SortPages.AllTuples | src/storage/page/intermediate_result_page.rs:110-120 | the tuples read back are those put in, in order |
| SortPages.UsedPermutation | src/query/executor/sort.rs:272-296 | tuples taken from a page in another order still fit a page |
| SortRuns.PageStore.TakePage | src/query/executor/sort.rs:235-245 | a page taken without init holds whatever its bytes read as |
| SortRuns.StaleIsNothing | src/query/executor/sort.rs:235-245 | such pages bring no tuple exactly if each of them reads as empty |
| SortRuns.RunIterator.Next | src/query/executor/sort.rs:122-148 | the next tuple of the run, and every page read to its end deleted once |
| SortRuns.RunIterator.Drop | src/query/executor/sort.rs:151-159 | exactly the pages not yet deleted are deleted |
| ExternalSort.FillPages | src/query/executor/sort.rs:209-231 | the pages hold the rows in order behind what the first page held; with a usable first page it fails exactly if a tuple fits no page |
| ExternalSort.MergeSortedRuns | src/query/executor/sort.rs:303-347 | the new run is what its first page held and then the merge of both runs; the pages of both are gone, no other page changes |
| SortExecutor.Sort | src/query/executor/sort.rs:235-359 | terminates; the last run is a permutation of the rows and of what the pages taken without init held, and the stable sort of the rows if that was nothing; those pages are the next page id and, ascending, the first page of every merge, one page in all for what fits one; on a tuple that fits no page the pages written so far stay |
| SortExecutor.SortedIffClean | src/query/executor/sort.rs:235-359 | what came out is the stable sort exactly if every page taken without init reads as empty |
| SortExecutor.SortAndRead | src/query/executor/sort.rs:235-375 | wherever the reader stops, it has seen a prefix of what was sorted, and every page is gone when the iterator is; right exactly if the pages the store handed out uninitialized read as empty, and for rows that fit one page exactly if the next page does |
| SortExecutor.SortRowsOnPages | src/query/executor/sort.rs:235-375 | rows written as tuples, sorted on pages that read as empty and read back are the stable sort of the rows; it fails exactly if a tuple fits no page |
| StalePages.FirstRead | src/storage/disk/disk_manager.rs:86-99 | a page never written reads as empty if no slot is free, and otherwise exactly if the slot freed last does |
| StalePages.SortOnePage | src/query/executor/sort.rs:235-375 | a sort of rows that fit one page is right exactly if no disk slot is free or the one freed last holds no tuple |
| StalePages.ReadAfterDelete | src/storage/disk/disk_manager.rs:86-109 | a page never written shows the bytes of the page deleted before it |
| StalePages.SortOfNothing | src/query/executor/sort.rs:235-245 | a sort of no rows on such a page returns the deleted page's tuples |
| Tuples.NewSchema | src/catalog/schema.rs:14-37 | columns lie one behind the other after the null bitmap, without gap or overlap |
| Tuples.SerializeRoundTrip | src/types/value.rs:44-85 | a value reads back from its bytes, whatever follows them |
| Tuples.FromValues | src/storage/table/tuple.rs:125-173 | for every schema and every row of its types, nulls and text anywhere, reading all columns back gives the row; and the bytes are: bit i of the bitmap, lowest bit first, for a null in column i; numbers with the lowest byte first in two's complement; for a text its place in the slot, and there its length and bytes, behind the texts before it |
| Tuples.RowSizeIsTupleSize | src/storage/table/tuple.rs:125-140 | the size computed over the variable-length columns is bitmap, slots and text payloads |
| KeyEncoder.EncodeF64Monotone | src/storage/index/key_encoder.rs:50-57 | on bits, strictly monotone and one-to-one for totalOrder, section 5.10 of IEEE 754-2008 |
| KeyEncoder.EncodeTwoColKey | src/storage/index/key_encoder.rs:13-21 | the loop over the columns writes both encodings next to each other |
| KeyEncoder.EncodeKeyOrder | src/storage/index/key_encoder.rs:37-48 | byte order of encoded keys is the lexicographic order of the key values |
| KeyEncoder.KeyNumberOrder | src/storage/index/generic_key.rs:19-23 | so keys may stand as numbers: same order, equal exactly for equal key values |
| IndexMaintenance.IndexedTable.AppendTuple | src/storage/table/table_heap.rs:41-85 | the row goes behind all rows under a row id greater than all before, or is refused because it fits no page |
| IndexMaintenance.IndexedTable.InsertRow | src/query/executor/insert.rs:79-92 | every index still agrees with the live rows exactly unless, before the call, some index has a null for the row or a full leaf; what heap and indexes look like when it stops there |
| IndexMaintenance.IndexedTable.DeleteRow | src/query/executor/delete.rs:65-83 | row and index entries are gone together |
| IndexMaintenance.IndexedTable.UpdateRow | src/query/executor/update.rs:66-105 | old row out, new row in, in heap and every index, exactly if the tuple fits a page and every index, as it is before the call, has a key for the new row and room for it once the old entry is out; otherwise what is left |
| IndexMaintenance.MoveRow | src/query/executor/update.rs:88-105 | all indexes move to the new row exactly if each has room for it once the old entry is out; else the first that has not is in between and those behind it are as before |
| FailingUpdate.UpdateFirst | src/query/executor/update.rs:66-105 | for every leaf capacity from 4 on, a table that only saw insertions, with room in every leaf, and an UPDATE of one row that leaves the index without it |
| IndexMaintenance.IndexedTable.CreateIndex | src/catalog/manager.rs:87-153 | an index built over existing rows has exactly the live rows' entries and no full leaf; it fails exactly on columns that cannot be keys or a null in a live row, and then the table is as before |
| IndexMaintenance.StaleEntries | src/query/executor/update.rs:66-105 | when the heap row is gone and the indexes were not touched, they agree exactly if there is none |
| IndexMaintenance.NotEntered | src/query/executor/insert.rs:79-92 | an index without the new row's entry, for want of room or of a key, disagrees with the heap |
| IndexMaintenance.TableIsOk | src/catalog/manager.rs:87-153 | a table kept this way is what the theorems about plans ask of a table |

## Findings

What the code does, where that is not what it is for. Each line names the members
that show the failing input and say exactly when it fails.

- Merging two leaves may fill one to its maximum, and the next insertion routed to
  it fails the page's assertion (`BTrees.BTree.Insert`). That needs a deletion and a
  leaf capacity of at least 4 (`BTreeRuns.Run`), and for every such capacity there is
  a run that ends so (`BTreeRuns.FailingRun`, `BTreeRuns.MergeFillsLeaf`).
  `BTrees.BTree.Remove` says which pairs a deletion leaves without room.
- Deleting an entry while the tombstone list is full removes twice at the same
  position (`LeafEvictions.EvictionCorrectIff`, `LeafEvictions.EvictionLosesEntry`).
  Production indexes have no tombstones.
- A tree with internal capacity 2 is accepted, and a leaf in it may have no sibling
  to rebalance with (`BTreeRuns.LeafWithoutSibling`,
  `BTreeRuns.TwoChildrenIffCapacityThree`).
- UPDATE deletes the heap row first and touches the indexes last. If the new tuple
  fits no page, every index keeps an entry for a deleted row; if an index has no
  room once the old entry is out, the row is in the heap and not in that index
  (`IndexMaintenance.IndexedTable.UpdateRow`, `IndexMaintenance.StaleEntries`). One
  UPDATE can do both itself: its deletion merges two leaves into a full one and its
  insertion then fails, in a table that only ever saw insertions
  (`FailingUpdate.UpdateFirst`). INSERT fails halfway in the same manner
  (`IndexMaintenance.IndexedTable.InsertRow`).
- A null in an indexed column cannot be encoded: INSERT and UPDATE stop with the row
  in the heap, CREATE INDEX stops too (`IndexMaintenance.IndexedTable.InsertRow`,
  `IndexMaintenance.IndexedTable.CreateIndex`).
- The sort takes the first page of a run without initializing it, and a page id
  new to the disk gets a freed slot with its old bytes. A sort may therefore return
  rows of a deleted page (`StalePages.SortOfNothing`); it is right exactly if every
  page taken so reads as empty (`SortExecutor.SortAndRead`), which for rows that fit
  one page is up to the disk slot freed last (`StalePages.SortOnePage`).
- A sort that meets a tuple too large for a page returns an error and keeps the
  pages it had written (`SortExecutor.Sort`).
- The index join rule does not look at the right scan's filter
  (`OptimizerProofs.RightFilterIsForgotten`). It is only right because it comes
  before filters are pushed into scans (`OptimizerProofs.OptimizeSame`).
- It does not compare the key columns' types either: the first left row then panics
  (`OptimizerProofs.MismatchPanics`, `OptimizerProofs.IndexJoinSameIff`).
- On Decimal columns the two zeros are equal for the loop join and different for the
  index, and a NaN the other way round (`DecimalJoin.IndexJoinLosesZero`,
  `OptimizerProofs.IndexJoinSameIff`, `OptimizerProofs.PlainColumnsFaithful`).
- A failed write-back forgets how often the page was asked for, which the code says
  itself: the page keeps one access, the failed eviction
  (`BufferPools.BufferPool.AcquireFrameForPageLoad`).
- A filter and a loop join do not drop their buffers when started over
  (`Executors.Executor.RestartFilter`, `Executors.Executor.RestartLoop`). No planned query starts
  them over early (`QueryEngine.PlannedRestarts`).
- IMPLEMENTATION.md lets redistribution give the left leaf the minimum and the right
  leaf the rest; the code fills the leaf that is short, on either side, up to the
  minimum. The model follows the code (`LeafPairs.RedistributeLeafPair`).
- The comment on `delete_page` says it returns `false` for a pinned page; the code
  returns an error. The model follows the code.

## Left out

- BTrees.BTree.Insert: one call at a time. Concurrent calls on one tree are not modelled: a lookup lets go of the header before it latches the root, and scans and deletions latch leaves in opposite directions. Page fetch errors are not modelled either.
- BTrees.BTree.Remove: one call at a time, as for Insert; the branches that add tombstones are not part of the tree, which has TOMB_CAP = 0.
- BTrees.BTree.constructor: requires leafMax >= 2 and internalMax >= 3. Capacity 2 is shown to break (LeafWithoutSibling) and excluded from there on.
- BTreeRuns.LeafWithoutSibling: the split of the internal page and the search for a sibling run on page objects; the leaves around them are written down, because the tree class excludes this capacity.
- BTreeScans.GetValues: keys are integers. KeyNumberOrder justifies it: encoded keys of one index compare like numbers.
- BufferPools.BufferPool.WritePage: reading from disk cannot fail. In the code a failed read leaks the frame; a failed write-back is modelled and leaves the disk as it was.
- BufferPools.BufferPool.ReadPage: as for WritePage.
- BufferPools.BufferPool.DeletePage: one step. In the code the disk part happens after the mutex is released, so another thread may load the page in between.
- DiskManagers.DiskManager.constructor: the file starts new and zeroed. The code also opens an existing file, and an unwritten page may then show that file's old bytes even if no slot is free.
- DiskManagers.DiskManager.ReadPage: over a file that started new; the file never fails; the scheduler's thread and channels are not modelled.
- QueryEngine.Execute: requires that the pages a sort takes read as empty (PagesClean); what happens otherwise is SortedWith, SortedIffClean and SortOfNothing. An expression that fails, a sort row that fits no page and a sort key that is NaN give the plan no meaning, and nothing is claimed then about what was produced before or which error is reported; the rows ending in HasRows say exactly when that is. Each sort has a page store of its own.
- SortExecutor.Sort: a first page whose old bytes are no slotted page of comparable tuples ends in the outcome Unusable; what the code reads from such bytes is not modelled. Sorting the tuples of one page, a library call in the code, is a function.
- Executors.Executor.DrainSorted: the rows are read back when the operator starts, the code reads them as they are asked for; SortAndRead covers a reader that stops anywhere.
- IndexMaintenance.IndexedTable.InsertRow: the row has the table's types, as the planner sees to. Heap pages are counts and used bytes; their slotted bytes are not modelled.
- IndexMaintenance.IndexedTable.CreateIndex: table and index names, and the key schema and size passed beside the columns, are left out.
- IndexMaintenance.IndexedTable.UpdateRow: as for InsertRow; the loops of whole statements over a heap that grows while it is scanned are not modelled.
- Tuples.FromValues: requires a tuple below 4 GiB, beyond which the code's 32-bit offsets end.
- KeyEncoder.EncodeTwoColKey: keys over one or two columns, as the code has; the sizes an index factory picks from are not modelled.
- The executor trait and its implementations are one class whose state depends on the kind of operator.
- Page ids, timestamps and sizes are unbounded; widths are modelled for SQL values, tuple offsets, slotted pages and page contents.
- Tree pages are arrays of entries and page ids, not bytes; sort pages, tuples and keys are bytes.
- Float addition, subtraction and conversion from integers are parameters (FloatOps); comparison is exact on bits. Text is bytes, with UTF-8 validity left out.
- Aggregation, which the engine does not run.
- Parser, binder, name resolution, plan formatting, the shell and the test runner.
- Unused tree helpers and the optimizer passes that do nothing, which would only add easy members.
