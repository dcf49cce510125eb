# A model of the scudb storage engine

This project models the storage engine under `scu_database_solution/src` and proves what it
promises, in these parts:

- **B+ tree index** (`TreeTypes` to `TreeSizes`, `BPlusTree` to `IndexRuns`). The pages are objects
  whose pair buffers are changed in place, found by page id. A ghost tree lists the pages with the
  key span and the level of each; one flat condition per page says that its keys, its children, its
  parent id and its next page fit these spans. Splits, merges, borrows and root changes are functions
  on such trees, and the page operations are proved to carry them out. The latch-crabbing descent is
  part of the same proof: what an operation releases, it does not change.
- **Table page, table heap and transactions** (`SlottedPage` to `TableIterator`). The page is one
  array of 512 bytes; its contracts speak of its slots, each empty, live or marked as deleted.
  Undo (`HeapUndo`, `HeapAbort`, `HeapRoom`, `HeapCommit`) works on the heap as the slots of its
  pages in chain order, and the loops of Abort and Commit are proved against it on the pages themselves.
- **Extendible hash, LRU replacer, buffer pool** (`HashBits` to `PoolEviction`). The pool is built on
  the contracts of the hash table and the replacer, over a file that is a sequence of pages.
  `extendible_hash.cpp` and `buffer_pool_manager.cpp` end their lines with a carriage return alone
  and so count as one line each.
- **Reader-writer lock** (`RwMutex`, `RwProgress`), as a step system over any number of threads.
- **Integer arithmetic** (`IntegerArithmetic`) and **tuples** (`Tuples`).

`dafny verify dfyconfig.toml` checks everything.

## Where the code does not do what is intended

Each of these is kept as the code has it, with a lemma that shows the failure and one that gives
the exact condition.

- A leaf split keeps all pairs only for an odd capacity: `TreePages.HalvesKeepAll`. The tree is
  modelled with an odd leaf capacity of at least 3 and an internal capacity of at least 4, which
  holds for every instance at a page size of 512.
- `Begin(key)` can stand one past the last pair of a leaf: `TreeMeaning.BeginPastTheEnd`,
  `IndexIteration.BeginAt`; one step mends it: `IndexIteration.StartAt`.
- An update that changes the size of a tuple moves marked tuples below it without their offsets:
  `PageSteps.MarkedBelowBreaks`, `SlottedOps.UpdateKeepsLayout`.
- An abort can fail to restore an updated tuple, because slots are never given back:
  `HeapRoom.AbortNeedsRoom`, `HeapAbort.AbortRestoresIff`, with conditions on the room of the pages
  in `HeapRoom.AbortRestores`, `HeapRoom.RestoredNeedsRoom` and `HeapRoom.RestoredIffRoom`.
- After a failed insert updates still happen and are no longer recorded:
  `HeapAbort.UnrecordedStays`, `HeapAbort.AbortRestoresIff`.
- Deletes are recorded whatever the page answered: `HeapAbort.MissingDeleteStops`,
  `HeapUndo.AbortEndsIff`, `HeapCommit.CommitLosesInsert`, `HeapCommit.CommitSweeps`.
- A table scan looks only at the first page for its start: `TableIteration.MissedTuple`,
  `TableIteration.Scan`.
- `UnpinPage` overwrites the dirty flag: `PoolLoss.LostBytes`, `PoolLoss.BreakingLoses`,
  `PoolModel.UnpinFaithfulIff`.
- New page ids start at 0 even on a file that has pages: `PoolLoss.ReopenClash`,
  `PoolModel.NewFramedIff`.
- The reader-writer lock can leave a reader asleep although there is room for it, beyond the limit on
  readers, which is the largest 32-bit number: `RwProgress.LimitForgets`, `RwProgress.AlwaysWakesIff`.
- A result that is one below the lowest legal value comes back as NULL and not as out of range:
  `IntegerArithmetic.SumsToNull`, `IntegerArithmetic.PromiseKeptIff`.
- A NULL text takes three bytes and writes four: `Tuples.NullOverruns`, `Tuples.NullLost`,
  `Tuples.AllApartIff`, `Tuples.RoundTripIff`.

## Model

| member | source | states |
|---|---|---|
| IndexRuns.Run | scu_database_solution/src/index/b_plus_tree.cpp:45-155 | Every sequence of Insert, Remove and GetValue is answered as one finite map answers it, leaves that map, and leaves a tree whose height is logarithmic in the number of pairs. |
| IndexRuns.Serve | scu_database_solution/src/index/b_plus_tree.cpp:45-155 | One request changes the map as specified and returns its answer. |
| BPlusTreeIndex.BPlusTree.constructor | scu_database_solution/src/index/b_plus_tree.cpp:16-24 | A new index is valid, empty and has no root. |
| BPlusTreeIndex.BPlusTree.GetValue | scu_database_solution/src/index/b_plus_tree.cpp:45-59 | True exactly for present keys, with the stored value; nothing changes. |
| BPlusTreeIndex.BPlusTree.Insert | scu_database_solution/src/index/b_plus_tree.cpp:72-87 | False and no change on a present key; otherwise exactly that pair is added, the whole shape is kept, nothing is split unless the leaf of the key is full, and nothing that the descent released has changed. |
| BPlusTreeIndex.BPlusTree.StartNewTree | scu_database_solution/src/index/b_plus_tree.cpp:95-114 | An empty tree becomes a sound tree of one leaf with one pair. |
| BPlusTreeIndex.BPlusTree.InsertIntoLeaf | scu_database_solution/src/index/b_plus_tree.cpp:125-155 | As Insert, on a tree with a root. |
| BPlusTreeIndex.BPlusTree.SplitLeaf | scu_database_solution/src/index/b_plus_tree.cpp:166-182 | The pages store the tree with the leaf divided; the new page is latched. |
| BPlusTreeIndex.BPlusTree.SplitInternal | scu_database_solution/src/index/b_plus_tree.cpp:166-182 | The same for an internal page, with the moved children pointing to their new parent. |
| BPlusTreeIndex.BPlusTree.InsertIntoParent | scu_database_solution/src/index/b_plus_tree.cpp:194-237 | From a divided page to a sound tree: recursion climbs one level at a time, touches only latched pages, and moves the root only while the root id is locked. |
| BPlusTreeIndex.BPlusTree.Remove | scu_database_solution/src/index/b_plus_tree.cpp:250-261 | Exactly the given key is removed, the whole shape is kept, no pages are merged or share pairs unless the leaf of the key is left less than half full, and nothing that the descent released has changed. |
| BPlusTreeIndex.BPlusTree.CoalesceOrRedistribute | scu_database_solution/src/index/b_plus_tree.cpp:272-313 | From a page that is one pair short to a sound tree, through any number of merges; off the root, the right one of the page and its sibling is given up exactly when their pairs fit into one page. |
| BPlusTreeIndex.BPlusTree.FindLeftSibling | scu_database_solution/src/index/b_plus_tree.cpp:317-335 | The left neighbour under the same parent, or the right one of a first child; it is latched. |
| BPlusTreeIndex.BPlusTree.Coalesce | scu_database_solution/src/index/b_plus_tree.cpp:350-369 | A merge, and whatever it sets off further up, ends in a sound tree or the empty one; only latched pages are touched and every page to delete is latched. |
| BPlusTreeIndex.BPlusTree.Redistribute | scu_database_solution/src/index/b_plus_tree.cpp:379-389 | The short page takes the nearest pair of its sibling and the separator follows; the tree is sound. |
| BPlusTreeIndex.BPlusTree.AdjustRoot | scu_database_solution/src/index/b_plus_tree.cpp:400-430 | A root that lost a pair or a child is mended: the result is a sound tree or the empty one, and only latched pages were touched. |
| BPlusTreeIndex.BPlusTree.FindLeafPage | scu_database_solution/src/index/b_plus_tree.cpp:474-499 | The leaf whose span covers the key; every page above it that the operation may still change is latched. |
| BPlusTreeIndex.BPlusTree.CrabbingFetchPage | scu_database_solution/src/index/b_plus_tree.cpp:508-523 | Ancestors are released exactly when a predecessor is given and the page is safe for the operation, or on a read; the page is latched. |
| BPlusTreeIndex.BPlusTree.FreePagesInTransaction | scu_database_solution/src/index/b_plus_tree.cpp:526-544 | With every page marked for deletion in the page set, the deleted set ends up empty, the marked pages are gone and all latches free. |
| TreeShape.UniqueCover | scu_database_solution/src/index/b_plus_tree.cpp:474-499 | Of two pages on the same level, only one covers a key. |
| TreeSplit.SplitUnderParent | scu_database_solution/src/index/b_plus_tree.cpp:194-237 | Dividing a page under its old parent keeps every page well formed: order, spans, levels, parent ids, leaf chain and slot 0 keys. |
| TreeSplit.SplitUnderRoot | scu_database_solution/src/index/b_plus_tree.cpp:194-215 | The same under a fresh root. |
| TreeSplit.SplitSizes | scu_database_solution/src/page/b_plus_tree_page.cpp:61-70 | After a split both halves have a legal size. |
| TreeSplit.SplitEven | scu_database_solution/src/page/b_plus_tree_internal_page.cpp:180-217 | The halves of a split are even, or the new page has one pair more. |
| TreeSplit.SplitRepresents | scu_database_solution/src/page/b_plus_tree_leaf_page.cpp:132-154 | A split neither loses nor adds a pair. |
| TreeMerge.MergeWellFormed | scu_database_solution/src/index/b_plus_tree.cpp:350-369 | Merging two siblings keeps every page well formed, including the slot 0 keys and the leaf chain. |
| TreeBorrow.MergeRepresents | scu_database_solution/src/page/b_plus_tree_leaf_page.cpp:219-236 | A merge neither loses nor adds a pair. |
| TreeBorrow.MergeSizes | scu_database_solution/src/page/b_plus_tree_page.cpp:61-70 | The merged page has a legal size; the parent loses one slot. |
| TreeBorrow.BorrowFromRightIsRecut | scu_database_solution/src/page/b_plus_tree_internal_page.cpp:326-373 | Borrowing the first pair of the right page is the same as merging the two pages and splitting them one pair later. |
| TreeBorrow.BorrowFromLeftIsRecut | scu_database_solution/src/page/b_plus_tree_internal_page.cpp:376-412 | Borrowing the last pair of the left page is merging and splitting one pair earlier. |
| TreeBorrow.RecutWellFormed | scu_database_solution/src/page/b_plus_tree_internal_page.cpp:326-412 | Hence both borrows keep every page well formed. |
| TreeBorrow.RecutRepresents | scu_database_solution/src/page/b_plus_tree_leaf_page.cpp:249-306 | Hence both borrows neither lose nor add a pair. |
| TreeBorrow.BorrowSizes | scu_database_solution/src/page/b_plus_tree_page.cpp:61-70 | Both pages have a legal size after a borrow. |
| TreeBorrow.CollapseWellFormed | scu_database_solution/src/index/b_plus_tree.cpp:400-417 | Replacing a root by its only child keeps every page well formed. |
| TreeEntries.LookupDecides | scu_database_solution/src/page/b_plus_tree_leaf_page.cpp:171-179 | A key is in the map exactly when the leaf that covers it holds it. |
| TreeEntries.InsertInLeaf | scu_database_solution/src/page/b_plus_tree_leaf_page.cpp:103-122 | Adding a pair to the covering leaf adds it to the map and keeps the shape. |
| TreeEntries.RemoveInLeaf | scu_database_solution/src/page/b_plus_tree_leaf_page.cpp:191-209 | Removing a pair from the covering leaf removes it from the map and keeps the shape. |
| TreeInsert.LeafStep | scu_database_solution/src/index/b_plus_tree.cpp:140-151 | After the pair is added the tree is sound, or the leaf is over by one with its ancestors latched. |
| TreeInsert.ParentStep | scu_database_solution/src/index/b_plus_tree.cpp:216-237 | Linking a new page leaves the tree sound, or the parent over by one with its ancestors latched, one level higher. |
| TreeInsert.RootSplit | scu_database_solution/src/index/b_plus_tree.cpp:198-215 | Splitting the root gives a sound tree one level taller. |
| TreeInsert.FreedUntouched | scu_database_solution/src/page/b_plus_tree_page.cpp:105-115 | Pages released on the way down keep their entries to the end of the operation. |
| TreeRemove.MergeStep | scu_database_solution/src/index/b_plus_tree.cpp:350-369 | After a merge the tree is sound, or the parent is one short with what it needs latched. |
| TreeRemove.BorrowStep | scu_database_solution/src/index/b_plus_tree.cpp:379-389 | After a borrow the tree is sound. |
| TreeRemove.CollapseStep | scu_database_solution/src/index/b_plus_tree.cpp:400-417 | After the root gave way the tree is sound. |
| TreeRemove.EmptyStep | scu_database_solution/src/index/b_plus_tree.cpp:419-425 | A leaf root without pairs stands for the empty map. |
| TreeRemove.SiblingLatch | scu_database_solution/src/index/b_plus_tree.cpp:317-335 | Latching a sibling keeps the latching discipline. |
| TreeLatch.DescendReleasing | scu_database_solution/src/index/b_plus_tree.cpp:508-523 | Releasing the ancestors of a safe page keeps latched everything that the operation may change. |
| TreeMeaning.LeavesAreLevel | scu_database_solution/src/index/b_plus_tree.cpp:194-237 | All leaves of a well formed tree have the same depth. |
| TreeSizes.HalfFull | scu_database_solution/src/page/b_plus_tree_page.cpp:61-70 | In every tree that the operations leave, a page off the root holds at least half of its capacity, a leaf root one pair and an internal root two children, and no page more than its capacity. |
| TreeSizes.SizeOKIff | scu_database_solution/src/page/b_plus_tree_page.cpp:61-70 | The sizes that the operations keep are exactly those. |
| TreeSizes.SafeIff | scu_database_solution/src/page/b_plus_tree_page.cpp:105-115 | A page is safe for an insert exactly when it takes one more pair, and for a delete exactly when it can lose one pair, or two children: an internal page is called unsafe one child early. |
| TreeSizes.HeightBound | scu_database_solution/src/page/b_plus_tree_page.cpp:61-70 | With h levels above the leaves there are at least 2 * (internalMax / 2)^(h - 1) * (leafMax / 2) pairs and at most internalMax^h * leafMax. |
| TreeSizes.LeavesHalfFull | scu_database_solution/src/page/b_plus_tree_page.cpp:61-70 | On a tree of more than one leaf, the number of leaves times half the leaf capacity is at most the number of pairs. |
| TreeMeaning.SlotZeroKey | scu_database_solution/src/page/b_plus_tree_internal_page.cpp:180-217 | In every internal page off the leftmost path the key in slot 0 is the nearest separator to its left among its ancestors. |
| TreeMeaning.EntriesBetweenSeparators | scu_database_solution/src/page/b_plus_tree_internal_page.cpp:97-122 | Every key of a leaf lies between the nearest separators of its ancestors. |
| TreeMeaning.ChainFollowsSeparators | scu_database_solution/src/page/b_plus_tree_leaf_page.cpp:132-154 | The next page of a leaf starts where the span of the leaf ends. |
| TreeMeaning.BeginPastTheEnd | scu_database_solution/src/index/b_plus_tree.cpp:453-464 | A tree and an absent key for which Begin(key) stands one past the last pair of its leaf. |
| TreePages.InternalPage.Lookup | scu_database_solution/src/page/b_plus_tree_internal_page.cpp:97-122 | The binary search returns the child whose separators enclose the key. |
| TreePages.InternalPage.ValueIndex | scu_database_solution/src/page/b_plus_tree_internal_page.cpp:61-72 | The first slot that names the child. |
| TreePages.InternalPage.PopulateNewRoot | scu_database_solution/src/page/b_plus_tree_internal_page.cpp:130-140 | Two slots, around the given separator. |
| TreePages.InternalPage.InsertNodeAfter | scu_database_solution/src/page/b_plus_tree_internal_page.cpp:148-171 | One slot is added behind the slot of the old child; all others keep their order. |
| TreePages.InternalPage.MoveHalfTo | scu_database_solution/src/page/b_plus_tree_internal_page.cpp:180-217 | The slots are divided at half the capacity, in order. |
| TreePages.InternalPage.Remove | scu_database_solution/src/page/b_plus_tree_internal_page.cpp:234-244 | Exactly the given slot goes. |
| TreePages.InternalPage.MoveAllTo | scu_database_solution/src/page/b_plus_tree_internal_page.cpp:268-310 | All slots go behind those of the recipient; the first takes the separator of the parent. |
| TreePages.InternalPage.MoveFirstToEndOf | scu_database_solution/src/page/b_plus_tree_internal_page.cpp:326-359 | The first slot moves, and the new first key becomes the separator. |
| TreePages.InternalPage.MoveLastToFrontOf | scu_database_solution/src/page/b_plus_tree_internal_page.cpp:376-412 | The last slot moves, and its key becomes the separator. |
| TreePages.LeafPage.KeyIndex | scu_database_solution/src/page/b_plus_tree_leaf_page.cpp:56-72 | The first pair whose key is not below the given one. |
| TreePages.LeafPage.Lookup | scu_database_solution/src/page/b_plus_tree_leaf_page.cpp:171-179 | True exactly if the key is on the page, with its value. |
| TreePages.LeafPage.Insert | scu_database_solution/src/page/b_plus_tree_leaf_page.cpp:103-122 | The pair is inserted in order. |
| TreePages.LeafPage.RemoveAndDeleteRecord | scu_database_solution/src/page/b_plus_tree_leaf_page.cpp:191-209 | The pair with the key goes if there is one. |
| TreePages.LeafPage.MoveHalfTo | scu_database_solution/src/page/b_plus_tree_leaf_page.cpp:132-154 | The pairs are divided at half the capacity, in order, and the new page follows in the chain. |
| TreePages.LeafPage.MoveAllTo | scu_database_solution/src/page/b_plus_tree_leaf_page.cpp:219-236 | All pairs go behind those of the recipient, which takes over the next page. |
| TreePages.LeafPage.MoveFirstToEndOf | scu_database_solution/src/page/b_plus_tree_leaf_page.cpp:249-276 | The first pair moves, and the new first key becomes the separator. |
| TreePages.LeafPage.MoveLastToFrontOf | scu_database_solution/src/page/b_plus_tree_leaf_page.cpp:282-306 | The last pair moves, and its key becomes the separator. |
| TreePages.HalvesKeepAll | scu_database_solution/src/page/b_plus_tree_leaf_page.cpp:136-151 | A split keeps all pairs of an overfull leaf exactly when the capacity is odd. |
| IndexIteration.IndexIterator.Next | scu_database_solution/src/include/index/index_iterator.h:28-43 | From a pair to the pair with the next key of the map, over the leaf chain, or to the end; from one past the last pair of a leaf to the least key not below any key whose search ends there. |
| IndexIteration.Begin | scu_database_solution/src/index/b_plus_tree.cpp:440-445 | The iterator stands on the least key, or at the end of an empty tree. |
| IndexIteration.BeginAt | scu_database_solution/src/index/b_plus_tree.cpp:453-464 | The iterator is usable exactly when the covering leaf holds a key not below the given one, and then stands on the least such key; for a present key it stands on it. |
| IndexIteration.StartAt | scu_database_solution/src/index/b_plus_tree.cpp:453-464 | Begin(key), and one step if the position is past its leaf, stands on the least key not below the given one, or at the end exactly when there is none. |
| IndexIteration.ScanAt | scu_database_solution/src/include/index/index_iterator.h:28-43 | A scan from there lists exactly the pairs with keys not below the given one, in increasing key order. |
| IndexIteration.ScanFrom | scu_database_solution/src/include/index/index_iterator.h:28-43 | Iterating from a position lists exactly the pairs from there on, in increasing key order, and ends. |
| IndexIteration.Scan | scu_database_solution/src/index/b_plus_tree.cpp:440-445 | Iterating from Begin() lists the whole map in increasing key order. |
| SlottedPage.Tiles | scu_database_solution/src/page/table_page.cpp:383-385 | In a valid layout every byte from the free space pointer to the page end belongs to exactly one tuple, and no byte below it to any. |
| SlottedPage.SpaceAccount | scu_database_solution/src/page/table_page.cpp:383-385 | Header, slots, free space and tuple bytes add up to the page size. |
| SlottedOps.UpdateKeepsLayout | scu_database_solution/src/page/table_page.cpp:188-206 | An update keeps the layout exactly when the size stays or no marked tuple lies below. |
| SlottedOps.UpdateCells | scu_database_solution/src/page/table_page.cpp:188-206 | Then it changes its own tuple alone: every other tuple reads back the same bytes. |
| SlottedOps.InsertCells | scu_database_solution/src/page/table_page.cpp:77-85 | An insert fills the first empty slot, or a new one, and leaves all other tuples. |
| SlottedOps.DeleteCells | scu_database_solution/src/page/table_page.cpp:240-253 | Removing a tuple moves others but leaves what they hold, marked ones included. |
| PageBytes.EncodeDecode | scu_database_solution/src/page/table_page.cpp:348-380 | A 32-bit number written to the page is read back. |
| CellPage.CellsDecide | scu_database_solution/src/page/table_page.cpp:53-75 | Free space, the slot chosen and whether a tuple fits depend on the contents of the slots alone. |
| CellPage.AcceptsIff | scu_database_solution/src/page/table_page.cpp:53-75 | A page takes a tuple exactly when it is not over its size with the tuple in it, in the first empty slot or in a new one. |
| CellPage.ReplaceIff | scu_database_solution/src/page/table_page.cpp:140-161 | An update goes through exactly for a live tuple whose page is not over its size with the new one. |
| CellPage.PutKeepsOthers | scu_database_solution/src/page/table_page.cpp:59-70 | A slot that is not empty, marked ones included, is never reused. |
| TablePages.TablePage.constructor | scu_database_solution/src/page/table_page.cpp:13-24 | A fresh page is empty and valid. |
| TablePages.TablePage.InsertTuple | scu_database_solution/src/page/table_page.cpp:49-94 | Fails without change exactly when the page would be over its size with the tuple; otherwise exactly one slot gains the tuple, the first empty one or a new one. |
| TablePages.TablePage.MarkDelete | scu_database_solution/src/page/table_page.cpp:102-138 | Marks a live tuple; answers false for a missing slot or a marked tuple. |
| TablePages.TablePage.RollbackDelete | scu_database_solution/src/page/table_page.cpp:262-279 | Unmarks a marked tuple and changes nothing else. |
| TablePages.TablePage.UpdateTuple | scu_database_solution/src/page/table_page.cpp:140-207 | Succeeds exactly for a live tuple whose page is not over its size with the new bytes; returns the old bytes; the layout survives exactly when the size stays or no marked tuple lies below, and then only that slot changes. |
| TablePages.TablePage.ApplyDelete | scu_database_solution/src/page/table_page.cpp:214-254 | Empties one slot and changes no other. |
| TablePages.TablePage.GetTuple | scu_database_solution/src/page/table_page.cpp:281-315 | True exactly for live tuples, with their bytes. |
| TablePages.TablePage.GetFirstTuple | scu_database_solution/src/page/table_page.cpp:320-330 | The first live slot, if any. |
| TablePages.TablePage.GetNextTuple | scu_database_solution/src/page/table_page.cpp:332-341 | The next live slot, if any. |
| PageRuns.Run | scu_database_solution/src/page/table_page.cpp:49-279 | After any run in which removed slots hold tuples and every update has bytes and keeps the size or finds no marked tuple below, the bytes keep the layout and the slots hold what the run left in them. |
| PageSteps.StepChanges | scu_database_solution/src/page/table_page.cpp:49-279 | Every legal operation keeps the layout and changes the slots as a map from slots to tuples would change. |
| PageSteps.MarkedStays | scu_database_solution/src/page/table_page.cpp:102-138 | A marked tuple stays until it is unmarked or removed for good. |
| PageSteps.OthersKept | scu_database_solution/src/page/table_page.cpp:57-85 | Every operation changes no slot but its own. |
| PageSteps.MarkedBelowBreaks | scu_database_solution/src/page/table_page.cpp:199-205 | On any empty page: two inserts, a mark on the lower tuple and an update of the upper one to another size break the layout. |
| HeapUndo.FreshPageAccepts | scu_database_solution/src/table/table_heap.cpp:36-40 | The size guard of an insert is exactly what an empty page accepts. |
| HeapUndo.FirstFitIff | scu_database_solution/src/table/table_heap.cpp:42-84 | An insert goes to the first page of the chain that is not over its size with the tuple, and to a new page exactly when there is none. |
| HeapUndo.LargestGoesBack | scu_database_solution/src/page/table_page.cpp:53-75 | A page whose one slot is empty takes the largest tuple again, in that slot. |
| PageTables.ShownSolid | scu_database_solution/src/page/table_page.cpp:49-56 | On every heap of valid pages each tuple has bytes and no page is over its size, as the undo theorems ask. |
| HeapUndo.AbortEndsIff | scu_database_solution/src/concurrency/transaction_manager.cpp:52-71 | The abort of a legal run goes through exactly when every recorded delete names a slot that exists at the end of the run. |
| HeapAbort.AbortReaches | scu_database_solution/src/concurrency/transaction_manager.cpp:52-71 | What the abort of every legal run leaves in every slot, refused undos included: the tuple of the heap before the run, with the old bytes of the first recorded update that fits back, or the latest bytes if none does, unmarked if a delete of it was recorded. |
| HeapAbort.AbortRestoresIff | scu_database_solution/src/concurrency/transaction_manager.cpp:52-71 | The abort of every legal run from a heap without marks restores every slot, added slots and pages being empty, exactly when each tuple comes back: its first recorded update fits into the page that the abort finds there, or its old bytes are back by then; or it has no recorded update and its bytes have not changed. |
| HeapRoom.AbortRestores | scu_database_solution/src/concurrency/transaction_manager.cpp:52-71 | Without a failed insert a run is restored if each tuple was first changed on a page that then had eight bytes for every slot added to it later. |
| HeapRoom.RestoredNeedsRoom | scu_database_solution/src/page/table_page.cpp:158-161 | Whatever the run, only a page that had eight bytes for every slot added to it is restored. |
| HeapRoom.RestoredIffRoom | scu_database_solution/src/page/table_page.cpp:158-161 | Exactly then, for runs without a failed insert in which no page had grown when one of its tuples was first changed. |
| HeapRoom.RefusedYetRestored | scu_database_solution/src/concurrency/transaction_manager.cpp:65-68 | A tuple that fills the page and shrinks again: the undo of its second update is refused and the abort still restores it. |
| HeapAbort.UnrecordedStays | scu_database_solution/src/table/table_heap.cpp:36-40 | A failed insert and then an update: the write set stays empty and the abort leaves the update in place. |
| HeapRoom.AllFitIff | scu_database_solution/src/page/table_page.cpp:158-161 | Without a failed insert no undo is refused exactly when, at each update, the page had eight bytes for every slot added to it later. |
| HeapRoom.AbortNeedsRoom | scu_database_solution/src/concurrency/transaction_manager.cpp:65-68 | A full page, an update that shrinks and an insert: the abort does not restore the tuple. |
| HeapAbort.MissingDeleteStops | scu_database_solution/src/table/table_heap.cpp:86-100 | A run that begins with a delete, of any slot, can be aborted exactly when that slot exists at the end; a later insert can bring it about. |
| HeapCommit.CommitSweeps | scu_database_solution/src/concurrency/transaction_manager.cpp:21-34 | Commit leaves the heap of the run without its marked tuples exactly when every delete of the run found a live tuple. |
| HeapCommit.CommitLosesInsert | scu_database_solution/src/table/table_heap.cpp:95-98 | A delete of an empty slot that is filled later in the run makes commit remove the new tuple. |
| TableHeaps.TableHeap.constructor | scu_database_solution/src/table/table_heap.cpp:20-34 | A new heap has one empty page. |
| TableHeaps.TableHeap.InsertTuple | scu_database_solution/src/table/table_heap.cpp:36-84 | First page of the chain that is not over its size with the tuple, else a new one, within chain length + 1 attempts; one slot changes; the insert is recorded; a tuple too large aborts the transaction and changes nothing else. |
| TableHeaps.TableHeap.MarkDelete | scu_database_solution/src/table/table_heap.cpp:86-100 | Marks the tuple on its page and records the delete whatever the page answered. |
| TableHeaps.TableHeap.UpdateTuple | scu_database_solution/src/table/table_heap.cpp:102-119 | Changes the tuple on its page; records the old bytes exactly when it succeeded and the transaction is not being aborted. |
| TableHeaps.TableHeap.ApplyDelete | scu_database_solution/src/table/table_heap.cpp:121-130 | Empties one slot of the heap. |
| TableHeaps.TableHeap.RollbackDelete | scu_database_solution/src/table/table_heap.cpp:132-140 | Unmarks one tuple of the heap. |
| TableHeaps.TableHeap.GetTuple | scu_database_solution/src/table/table_heap.cpp:143-155 | True exactly for live tuples, with their bytes. |
| TransactionManager.Abort | scu_database_solution/src/concurrency/transaction_manager.cpp:52-71 | The loop ends with an empty write set and the heap that undoing the records from the back gives. |
| TransactionManager.RollBack | scu_database_solution/src/concurrency/transaction_manager.cpp:57-68 | Undoing one record never adds one, because the state is ABORTED. |
| TransactionManager.Commit | scu_database_solution/src/concurrency/transaction_manager.cpp:21-34 | The loop ends with an empty write set and the heap without the deleted tuples. |
| TransactionManager.Perform | scu_database_solution/src/table/table_heap.cpp:36-119 | Every request keeps heap, write set and transaction state those of the run so far, so that requests can follow each other. |
| TransactionManager.RunAndAbort | scu_database_solution/src/concurrency/transaction_manager.cpp:52-71 | On the pages themselves: any legal sequence of requests from an empty write set, and then the abort, restores every slot exactly when each tuple comes back, and without a failed insert whenever each tuple was first changed on a page with room for the slots added later. |
| TransactionManager.AbortRun | scu_database_solution/src/concurrency/transaction_manager.cpp:52-71 | The same from any point of a tracked run. |
| TransactionManager.CommitRun | scu_database_solution/src/concurrency/transaction_manager.cpp:21-34 | On the pages themselves: committing a run removes the marked tuples and nothing else exactly when every delete of the run found a live tuple. |
| TableIteration.TableIterator.Begin | scu_database_solution/src/table/table_heap.cpp:162-173 | Starts at the first live tuple if the first page has one, else at the end. |
| TableIteration.TableIterator.Next | scu_database_solution/src/table/table_iterator.cpp:28-58 | The places ahead lose exactly the current one. |
| TableIteration.LiveIsAll | scu_database_solution/src/table/table_iterator.cpp:28-58 | The places ahead of a position are the live tuples from there on, each once, in chain and slot order. |
| TableIteration.Scan | scu_database_solution/src/table/table_heap.cpp:162-177 | A scan visits all live tuples in order exactly when the first page has one or there is none. |
| TableIteration.MissedTuple | scu_database_solution/src/table/table_heap.cpp:162-173 | Fill the first page, insert again, delete and commit the first tuple: one live tuple is left and a scan lists none. |
| ExtendibleHashing.Run | scu_database_solution/src/hash/extendible_hash.cpp:1 | Every run of Insert, Find and Remove is answered as a finite map answers it. |
| ExtendibleHashing.ExtendibleHash.constructor | scu_database_solution/src/hash/extendible_hash.cpp:1 | A new table is valid and empty. |
| ExtendibleHashing.ExtendibleHash.Find | scu_database_solution/src/hash/extendible_hash.cpp:1 | The value of a present key, nothing for an absent one. |
| ExtendibleHashing.ExtendibleHash.Remove | scu_database_solution/src/hash/extendible_hash.cpp:1 | Removes exactly the key and says whether it was there. |
| ExtendibleHashing.ExtendibleHash.Insert | scu_database_solution/src/hash/extendible_hash.cpp:1 | Stores the value under the key, keeps the directory invariant and the bucket count, splits exactly when the bucket of the key is full and does not hold it, and ends. |
| ExtendibleHashing.ExtendibleHash.SplitBucket | scu_database_solution/src/hash/extendible_hash.cpp:1 | Keeps the invariant and the contents, adds one bucket, doubles the directory exactly when the bucket used all its bits, and raises the depth of the bucket of every key concerned by one. |
| ExtendibleHashing.ExtendibleHash.HasRoomToSplit | scu_database_solution/src/hash/extendible_hash.cpp:1 | A full bucket without the key has fewer bits than keys have. |
| HashDirectory.SplitInv | scu_database_solution/src/hash/extendible_hash.cpp:1 | After a split two slots still share a bucket exactly when they agree on its low bits, and every key sits where its bits say. |
| HashDirectory.SplitRepresents | scu_database_solution/src/hash/extendible_hash.cpp:1 | A split neither loses nor adds an entry. |
| HashDirectory.SplitNames | scu_database_solution/src/hash/extendible_hash.cpp:1 | A split adds exactly one bucket to the directory. |
| HashDirectory.DoubleInv | scu_database_solution/src/hash/extendible_hash.cpp:1 | Doubling the directory keeps the invariant. |
| HashDirectory.DoubleHome | scu_database_solution/src/hash/extendible_hash.cpp:1 | Doubling the directory sends every key to the same bucket. |
| HashDirectory.DepthBound | scu_database_solution/src/hash/extendible_hash.cpp:1 | A bucket that holds another key where k belongs has fewer than 32 bits. |
| HashDirectory.OnlyHome | scu_database_solution/src/hash/extendible_hash.cpp:1 | Only the bucket that the directory names for a key can hold it. |
| HashBits.LowAgrees | scu_database_solution/src/hash/extendible_hash.cpp:1 | Masking keeps the low bits. |
| LruReplacers.LruReplacer.constructor | scu_database_solution/src/buffer/lru_replacer.cpp:10-16 | A new replacer is empty. |
| LruReplacers.LruReplacer.Insert | scu_database_solution/src/buffer/lru_replacer.cpp:27-53 | The value becomes the newest, whether or not it was present; list and map stay in step. |
| LruReplacers.LruReplacer.Victim | scu_database_solution/src/buffer/lru_replacer.cpp:59-70 | Nothing from an empty replacer, else the oldest value, which goes. |
| LruReplacers.LruReplacer.Erase | scu_database_solution/src/buffer/lru_replacer.cpp:77-86 | Removes exactly the value and says whether it was there. |
| LruReplacers.LruReplacer.Size | scu_database_solution/src/buffer/lru_replacer.cpp:89-92 | The number of values. |
| LruReplacers.MapSize | scu_database_solution/src/buffer/lru_replacer.cpp:27-92 | List and map describe the same duplicate-free sequence. |
| LruRuns.Run | scu_database_solution/src/buffer/lru_replacer.cpp:27-86 | For every run, Victim returns the value whose latest Insert is oldest among those present, and nothing exactly when none is. |
| LruRuns.StepAged | scu_database_solution/src/buffer/lru_replacer.cpp:27-86 | Every event is answered as the time stamps ask, and the order keeps following them. |
| PoolRuns.FetchedIsLast | scu_database_solution/src/buffer/buffer_pool_manager.cpp:1 | In every run that follows the rule for Unpin, a fetched page that some step or the file has given bytes shows the bytes last left in it; a fetch fails exactly when the page is not in the pool and every frame is pinned. |
| PoolRuns.RunFramed | scu_database_solution/src/buffer/buffer_pool_manager.cpp:1 | In every run whose new pages get an id that no other frame holds, each frame is exactly one of free, unpinned and in the replacer, or pinned, and the page table agrees with the frames. |
| PoolRuns.StepKeeps | scu_database_solution/src/buffer/buffer_pool_manager.cpp:1 | A step keeps the contents exactly when it follows the rule. |
| PoolLaws.PinsCounted | scu_database_solution/src/buffer/buffer_pool_manager.cpp:1 | In every run the pin count of a page is the number of pins given on it less those given back. |
| PoolLaws.PinnedStays | scu_database_solution/src/buffer/buffer_pool_manager.cpp:1 | In every run a page stays in its frame as long as it is pinned, with the bytes last put into it. |
| PoolLaws.DirtyStep | scu_database_solution/src/buffer/buffer_pool_manager.cpp:1 | A page becomes dirty only by an unpin that says so, and stops being dirty only by an unpin that calls it clean or because the file has its bytes. |
| PoolLaws.FileStep | scu_database_solution/src/buffer/buffer_pool_manager.cpp:1 | The file changes only at a dirty page, which it then holds; a page behind its end leaves zeros in between. |
| PoolLaws.FlushedSurvives | scu_database_solution/src/buffer/buffer_pool_manager.cpp:1 | In every run that follows the rule for Unpin, a pool opened on the file after the flush of a dirty page shows the bytes last left in it. |
| PoolEviction.EvictsOldest | scu_database_solution/src/buffer/buffer_pool_manager.cpp:1 | In every run of a pool opened on a file, a page leaves only when no frame is free, and it is the page whose last pin was given back longest ago. |
| PoolEviction.NewPagesDiffer | scu_database_solution/src/buffer/buffer_pool_manager.cpp:1 | New pages are zeros, clean and pinned once, and no two of a run get the same id. |
| PoolLoss.BreakingLoses | scu_database_solution/src/buffer/buffer_pool_manager.cpp:1 | From every faithful pool: every Unpin that breaks the rule has a continuation that follows it and in which a fetch shows other bytes than those last left in the page. |
| PoolLoss.StaleLoses | scu_database_solution/src/disk/disk_manager.cpp:83-101 | A page of zeros that is not the next one behind the end of the file and has an id of at least 2, once dropped as clean, can be read into a frame that keeps the bytes of another page. |
| PoolLoss.LostBytes | scu_database_solution/src/buffer/buffer_pool_manager.cpp:1 | Such a run on a pool of one frame: the bytes left in a new page are not shown again. |
| PoolLoss.ReopenClash | scu_database_solution/src/disk/disk_manager.cpp:163 | On a file that already has pages the counter of new page ids starts at 0 again: a new page takes the id of a page in another frame. |
| PoolModel.NewFramedIff | scu_database_solution/src/buffer/buffer_pool_manager.cpp:1 | NewPage keeps page table and frames in agreement exactly when it fails or its id is not that of a page in another frame. |
| PoolRuns.Serve | scu_database_solution/src/buffer/buffer_pool_manager.cpp:1 | Every operation of the pool is a step of these runs. |
| PoolModel.UnpinFaithfulIff | scu_database_solution/src/buffer/buffer_pool_manager.cpp:1 | Unpin keeps the contents exactly when the page stays pinned, is called dirty or the file gives its bytes: it has them, or they are zeros right behind its end, or in page 1 of an empty file. |
| PoolModel.VictimIff | scu_database_solution/src/buffer/buffer_pool_manager.cpp:1 | There is no frame to reuse exactly when every frame is pinned. |
| PoolModel.FlushWrites | scu_database_solution/src/buffer/buffer_pool_manager.cpp:1 | A flush of a dirty page puts its bytes into the file, changes no other page of it and leaves the page clean; any other flush does nothing. |
| BufferPools.BufferPoolManager.constructor | scu_database_solution/src/buffer/buffer_pool_manager.cpp:1 | All frames are free, and the pool stands for the pages of any given file. |
| BufferPools.BufferPoolManager.GetVictimPage | scu_database_solution/src/buffer/buffer_pool_manager.cpp:1 | The first free frame, else the least recently unpinned one, else none. |
| BufferPools.BufferPoolManager.FetchPage | scu_database_solution/src/buffer/buffer_pool_manager.cpp:1 | Any page id: pins a cached page and takes it out of the replacer, or brings it in and writes a dirty victim back; a read behind the end of the file leaves the bytes of the frame; the page table follows. |
| BufferPools.BufferPoolManager.NewPage | scu_database_solution/src/buffer/buffer_pool_manager.cpp:1 | The next page id on a reused frame, zeroed, clean and pinned once; the pool stays valid exactly when there is no frame or no other frame holds that id. |
| BufferPools.BufferPoolManager.UnpinPage | scu_database_solution/src/buffer/buffer_pool_manager.cpp:1 | Overwrites the dirty flag, then gives back one pin if there is one; the last pin puts the frame into the replacer. |
| BufferPools.BufferPoolManager.FlushPage | scu_database_solution/src/buffer/buffer_pool_manager.cpp:1 | The file holds the bytes of a page that was dirty, its other pages are as before and the page is clean; a clean page changes nothing; false exactly when the page is not in the pool. |
| RwMutex.RunSafe | scu_database_solution/src/include/common/rwmutex.h:28-60 | In every run of any number of threads the lock is safe; with at most one thread more than the reader limit no sleeping thread has a false wait condition. |
| RwMutex.Exclusive | scu_database_solution/src/include/common/rwmutex.h:28-60 | A writer at work excludes every other writer and every reader. |
| RwMutex.StepSafe | scu_database_solution/src/include/common/rwmutex.h:28-60 | Every step keeps the reader counter, the one entered writer and the exclusion. |
| RwMutex.StepWakes | scu_database_solution/src/include/common/rwmutex.h:28-60 | Every step keeps the wake-ups complete. |
| RwMutex.LeaveWakes | scu_database_solution/src/include/common/rwmutex.h:50-60 | The last reader wakes the one writer that waits for it, and the reader that makes room wakes the one reader that waits for it. |
| RwMutex.SomeoneMoves | scu_database_solution/src/include/common/rwmutex.h:28-60 | As long as anyone waits, some thread holds the lock or is about to test its condition. |
| RwProgress.GrantedIff | scu_database_solution/src/include/common/rwmutex.h:28-47 | In every run a reader that tests gets in exactly when no writer has entered and fewer read than may; a writer enters exactly when no other has and writes exactly when no one reads; everyone else waits. |
| RwProgress.Shared | scu_database_solution/src/include/common/rwmutex.h:43-47 | For every number up to the limit there is a run in which so many threads read at once. |
| RwProgress.WaiterGetsIn | scu_database_solution/src/include/common/rwmutex.h:28-60 | From every reachable state, with at most one thread more than the reader limit, every thread that waits can still get the lock. |
| RwProgress.LimitForgets | scu_database_solution/src/include/common/rwmutex.h:50-60 | With two threads more than the reader limit, or any larger number, a run in which a reader sleeps although there is room for it. |
| RwProgress.AlwaysWakesIff | scu_database_solution/src/include/common/rwmutex.h:28-60 | No thread ever sleeps with a false wait condition exactly when there is at most one thread more than the reader limit. |
| IntegerArithmetic.PromiseKeptIff | scu_database_solution/src/type/integer_type.cpp:58-88 | Sum, difference and product, for all operands of all widths: NULL for a NULL operand, else the exact legal value of the wider type, else out of range; exactly when the exact result is the lowest value of the wider type the answer is NULL instead of out of range. |
| IntegerArithmetic.SumsToNull | scu_database_solution/src/type/value.cpp:39-62 | Four operations on legal operands, one of each width, that answer NULL. |
| IntegerArithmetic.HalfIsPower | scu_database_solution/src/include/type/limits.h:15-27 | A width of n bits holds the numbers from -2^(n - 1) on, below 2^(n - 1). |
| IntegerArithmetic.AddFits | scu_database_solution/src/include/type/integer_parent_type.h:81-103 | The sum is what the wider type holds or out of range, except exactly for twice the lowest 32-bit or 64-bit value, which a NULL alone can bring. |
| IntegerArithmetic.SubtractFits | scu_database_solution/src/include/type/integer_parent_type.h:105-127 | The same for the difference, except exactly for zero less the lowest 32-bit or 64-bit value. |
| IntegerArithmetic.MultiplyFits | scu_database_solution/src/include/type/integer_parent_type.h:129-151 | The product is what the wider type holds or out of range, for all operands of all widths. |
| IntegerArithmetic.DividesBack | scu_database_solution/src/include/type/integer_parent_type.h:140-149 | A wrapped product divides back to its operand exactly when it has not wrapped. |
| IntegerArithmetic.DivisionDefined | scu_database_solution/src/include/type/integer_parent_type.h:140-149 | With a left operand that is not NULL the division in that check never overflows. |
| IntegerArithmetic.FirstCheck | scu_database_solution/src/include/type/integer_parent_type.h:88-90 | The first check of every operation asks exactly whether the wider type holds the promoted value. |
| Tuples.Serialize | scu_database_solution/src/table/tuple.cpp:14-39 | The tuple is exactly the fixed parts one after the other, with the offset of its text for a text, and then the texts, each right behind the one before, a NULL taking three bytes; at most one byte behind it changes; a column reads back as it was exactly when it is not a NULL text whose next text has a length with another low byte than 255. |
| Tuples.RoundTripIff | scu_database_solution/src/table/tuple.cpp:72-96 | The same condition for any bytes into which the row was written column by column. |
| Tuples.NullLost | scu_database_solution/src/type/varlen_type.cpp:147-156 | A NULL followed by a text of one byte overlaps it and no longer reads as NULL. |
| Tuples.NullOverruns | scu_database_solution/src/type/varlen_type.cpp:147-156 | What a text column writes ends inside the tuple exactly when it is not a NULL in the last text column of the row. |
| Tuples.WrittenApart | scu_database_solution/src/table/tuple.cpp:27-38 | What a text column writes ends before a later text, or the end of the tuple, exactly when it is not a NULL that stands right before it. |
| Tuples.AllApartIff | scu_database_solution/src/table/tuple.cpp:27-38 | All written texts are apart exactly when no NULL text is followed by another text. |
| Tuples.TextsApart | scu_database_solution/src/table/tuple.cpp:14-26 | The places reserved for the texts of two columns do not overlap. |
| Tuples.TextsTight | scu_database_solution/src/table/tuple.cpp:27-38 | A text ends where the next one starts, or at the end of the tuple, and a NULL one byte behind that. |
| Tuples.SizeIsFormat | scu_database_solution/src/table/tuple.cpp:18-22 | The size of a tuple is that of its fixed parts, offsets included, and of all texts with their lengths, three bytes for a NULL. |
| Tuples.OffsetsApart | scu_database_solution/src/catalog/schema.cpp:14-32 | The fixed parts of two columns do not overlap. |

## Left out

- Log and lock managers: logging and tuple locks are disabled, as in the code's default; the tree and the heap keep their pages in a map and take page ids from a counter.
- Disk manager: only reading and writing whole pages under the buffer pool; a file whose size is no multiple of a page, I/O errors and the state of a stream after a short read are not modelled.
- Allocation failure: NewPage always finds a frame for the tree and the heap; only the buffer pool itself models a pool whose frames are all pinned.
- Pin counts and latches of single pages in the tree: the page set, the root lock and the deleted set are modelled, the pool calls of the tree are not; page objects of the tree stand for pinned pages.
- Concurrent runs of the tree: every operation runs alone, and the crabbing claim is proved for it.
- The comparator and the generic key: keys are integers, page ids are positive, record ids are opaque.
- `HeaderPage`, `Check`, `ToString`, `InsertFromFile`, `RemoveFromFile`: record table and debugging aids.
- Previous and next page ids of a table page as bytes: the heap keeps the next ids in a map beside the pages; the previous ids are not modelled.
- Tree pages as bytes: the pair buffers of tree pages are sequences of a fixed length that the methods reassign, not arrays.
- BufferPoolManager::DeletePage: it leaves a stale page id on a free frame and stays out of the pool runs.
- TransactionManager.Perform: one transaction on one heap; it asks for what makes the request legal (new tuples with bytes, updates that keep the layout of their page).
- HeapAbort.AbortRestoresIff: its condition names the pages that the abort finds on its way; conditions on the run alone are HeapRoom.AbortRestores, which is sufficient, and HeapRoom.RestoredNeedsRoom, which is necessary, and both together are exact in HeapRoom.RestoredIffRoom.
- TransactionManager.RunAndAbort: asks that the abort goes through, which HeapUndo.AbortEndsIff characterises.
- TableHeaps.TableHeap.UpdateTuple: says nothing about the heap after an update that changes a size on a page with marked tuples, because the layout is then broken; asks for a new tuple with bytes.
- ExtendibleHashing.ExtendibleHash.Insert: `1 << localDepth` is not cut off at 31 bits, and the locks of table and buckets are not modelled; the bucket size is at least 1.
- BufferPools.BufferPoolManager.FetchPage: page ids are not negative and below 2^31; NewPage asks for a page id counter that has not run out.
- PoolLoss.BreakingLoses: asks for enough unused page ids to drive the page out.
- LruReplacers.LruReplacer.constructor: takes the value of the two sentinels, which the code leaves unset, as an argument.
- RwMutex: the limit on readers is a parameter; a counter that runs past 32 bits is not modelled, because the counter never exceeds the limit.
- IntegerArithmetic: division, modulo, square root, comparison, casts and DECIMAL values.
- Tuples.Serialize: fixed columns hold opaque bytes of their width; the memory goes on for at least one byte behind the tuple, into which a NULL in the last text column writes.
- SQLite glue in `vtable` and `sqlite`.
