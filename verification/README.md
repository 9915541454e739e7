# A verified model of the btrfs driver

This project models the write path of a btrfs driver written in Go and proves what it promises:
the copy-on-write B-tree engine with its free-space list, the packed byte layout of leaves, the
self-describing extent tree, the relocation that precedes a shrink, file contents under write and
truncate, the directory namespace, and the mapping of logical bytes to the devices of a RAID.
`dafny verify dfyconfig.toml` checks all of it with Dafny 4.11.

Conventions. A device is a map from block address to block; writing a block destroys every block whose
bytes it overlaps. A tree value carries the address and the generation of each of its nodes, so that
"what is written where" is part of its meaning; the meaning of a tree is its in-order item sequence.
Logical and physical addresses coincide, which is the layout a freshly formatted image has. Space is
accounted per byte: how often the free list covers a byte plus how often the live tree covers it. The
mutable parts of the driver are classes and methods with loops (`SpaceManager`, `Volume`, `FileNode`,
`Namespace`, the leaf editor on `array<u8>`); each method is proved against a function or a property, and
the theorems are about those. Every induction is written out: no lemma relies on automatic induction.

Where a natural property is false of the code, the project keeps the code as it is, shows an input on which
the property fails, and proves for all inputs exactly when it holds:

- An insert whose key lies below the first separator on its route succeeds, but the item is then not found
  (`SearchSpec.UncoveredExample`); the tree stays a search tree exactly for covered keys, or when the
  two-leaf merge absorbs the item (`CowExact.InsertWellFormedIff`, `SearchSpec.InsertThenSearch`).
- Deleting the last item of a multi-level tree leaves a root without children
  (`CowExact.LastDeleteExample`, `CowExact.UpdateDeleteWellFormedIff`).
- Deleting by prefix stops with an error although matches exist (`PrefixDeletion.StuckExample`). One pass does
  exactly when the leaf that offset 0 routes to holds none (`PrefixPass.PassStuckIff`); the whole operation
  removes all matches exactly when there are none, or that leaf has one and all matches are in it, or it is
  all matches and none lies beyond the largest subtree it opens, or the two-leaf merge brings the rest
  together (`PrefixExact.Removable`, `PrefixDeletion.CowDeletePrefix`).
- Splitting a leaf can fail although a cut that fits exists (`SplitBound.UnbalancedExample`): it succeeds
  exactly when the one cut at half the data bytes fits (`SplitBound.SplitLeafIff`), and an insert into a tree
  fails, apart from missing blocks and depth, exactly when the routed leaf refuses the item and that cut does
  not fit (`SplitBound.InsertTooLargeIff`). It always fits for items of moderate size
  (`SplitBound.InsertOnlyNoBlock`).
- Deleting an item leaves a gap in the data area when the next item is empty (`LeafDelete.GapExample`,
  `LeafDelete.StartsAfterIff`), and an insert into a node with gaps is refused although the item fits exactly
  when it fits only with the gaps (`LeafBytes.InsertBytesIff`).
- Relocation does not give back the old blocks of moved nodes that lie outside the window
  (`RelocateCount.LeakExample`, `RelocateCount.RelocateLeaksIff`).
- Truncating a non-empty file to zero and growing it again makes it unreadable
  (`FileRuns.CutAndGrowUnreadable`, `FileRuns.ReadableAfterRunIff`, `FileStore.FileNode.ReadBack`), truncation
  keeps the device space of the extents it drops (`FileBooks.TruncateLeakExample`,
  `FileResize.TruncateLeaksIff`), and the byte count it stores ignores inline data (`FileBooks.RescanExample`,
  `FileBooks.RescanRightIff`).
- A file renamed onto itself is destroyed (`NameRuns.SelfRenameExample`), a directory can be moved into itself
  (`NameRuns.IntoItselfExample`), entries can be created below a regular file (`NameRuns.BelowFileExample`) or
  with a name hash that is taken (`NameRuns.HashTakenExample`); `NameRuns.StepIff` and `NameRuns.RunIff` give
  the exact guards of every operation and of every run.
- A read that crosses the end of a mirrored chunk delivers the bytes behind the chunk on that device
  (`RaidExact.CrossingExample`). On every content of the devices a read is right exactly when each place it
  reads records the address asked for, which the chunk map decides (`RaidExact.ReadRightIff`).

## Model

| member | source | states |
|---|---|---|
| `Keys.CompareIsRank` | btree.go:402-422 | Key comparison is a strict total order, zero on equal keys only: it is the order of one number per key. |
| `Keys.PrefixIsInterval` | btree.go:320-323 | The keys with a given (objectid, type) are an interval of the order, so a sorted scan may stop past it. |
| `FreeSpace.CntIsFree` | alloc.go:243-258 | A byte is free exactly when its count in the list is positive. |
| `FreeSpace.CanonicalUnique` | alloc.go:325-345 | Two sorted, non-touching lists that free the same bytes are the same list. |
| `FreeSpace.FirstFitCnt` | alloc.go:243-258 | A first-fit grant removes exactly the granted range, byte for byte. |
| `FreeSpace.FirstFitCanonical` | alloc.go:243-258 | A first-fit grant keeps the list sorted and non-touching. |
| `FreeSpace.FreedCnt` | alloc.go:319-345 | Freeing adds exactly the freed range, through sorting and merging. |
| `FreeSpace.FreedCanonical` | alloc.go:319-345 | Freeing a range disjoint from the free bytes yields the sorted, non-touching list. |
| `FreeSpace.AllocFreeIdentity` | alloc.go:243-258 | Allocating and freeing the same block gives back the identical list. |
| `FreeSpace.FitTakes` | alloc.go:243-258 | Allocation is refused exactly when no extent holds a block, and a grant uses up exactly one of the blocks on offer. |
| `SpaceManagement.SpaceManager.Remove` | alloc.go:217-240 | Removal is set difference, byte for byte, and keeps the normal form. |
| `SpaceManagement.SpaceManager.AllocNodeBlock` | alloc.go:243-258 | The first extent large enough gives up its front; refused exactly when there is none. |
| `SpaceManagement.SpaceManager.AllocDataBytes` | alloc.go:265-280 | One contiguous grant of the size rounded up to whole sectors, first fit. |
| `SpaceManagement.SpaceManager.AllocDataBytesUpTo` | alloc.go:287-316 | The front of a largest extent, at most the request in whole sectors, at least one; refused exactly when no extent holds a sector. |
| `SpaceManagement.SpaceManager.FreeRange` | alloc.go:319-323 | The freed range joins the free bytes and nothing else changes. |
| `SpaceManagement.SpaceManager.Coalesce` | alloc.go:325-345 | The in-place sort and aliasing merge compute the specified coalesced list. |
| `SpaceManagement.SpaceManager.RangeFree` | resize.go:628-650 | A yes means every byte is free; on a sorted list it is exact. |
| `SpaceManagement.MergeInPlace` | alloc.go:325-345 | The merge that writes over the list it reads gives the merged list. |
| `SpaceManagement.InsertionSort` | alloc.go:325-345 | The in-place sort gives the extents in ascending order. |
| `CowLeaf.ApplyLeafFits` | cow.go:98-180 | Every leaf mutation that is not refused leaves items that fit the node. |
| `CowLeaf.ApplyLeafIn` | cow.go:98-334 | Leaf mutations keep the items strictly sorted inside the leaf's key range. |
| `CowLeaf.DeleteLeafIff` | btree_write.go:65-77 | A leaf refuses a deletion exactly when no item has the key; otherwise the first item with the key is gone and nothing else. |
| `CowLeaf.UpdateLeafIff` | btree_write.go:49-60 | A leaf refuses an update exactly when no item has the key or the leaf with the new data does not fit; otherwise the first item with the key has the new data. |
| `CowLeaf.InsertLeafIff` | cow.go:98-135 | A leaf refuses an insertion exactly when it does not fit with the item. |
| `CowLeaf.DeletePrefixLeafIff` | btree_write.go:102-111 | A leaf refuses a prefix deletion exactly when no item has the objectid and type; otherwise exactly those items are gone. |
| `CowMutate.RouteContents` | btree_write.go:525-572 | The contents of a tree are the items left of the routed leaf, its items, and those right of it. |
| `CowMutate.RouteSeparates` | btree_write.go:525-572 | In a search tree all items left of the routed leaf are below the key and all right of it above. |
| `CowMutate.MutateContents` | btree_write.go:202-300 | Path copy changes the routed leaf's items and nothing else of the contents. |
| `CowMutate.MutateGood` | btree_write.go:202-300 | Path copy keeps order, levels and node capacities. |
| `CowMutate.MutateTopWellFormed` | btree_write.go:202-300 | A mutated tree with items left is a search tree again, through dropped leaves and a collapsed root. |
| `CowConserve.MutateTreeConserves` | btree_write.go:202-300 | Free plus live is the same for every byte after a mutation: nothing leaks, nothing is used twice. |
| `CowConserve.MutateTreeGen` | btree_write.go:262-272 | Every pointer's generation equals its child's after a mutation. |
| `CowSplit.SplitLeafHalves` | btree_write.go:614-679 | A successful leaf split gives two non-empty, fitting, ordered halves around the right half's first key. |
| `CowSplit.SplitRecGood` | btree_write.go:419-519 | The split carried up the path keeps order, levels and capacities at each level. |
| `CowSplit.GrowRootGood` | btree_write.go:801-840 | The new root over two halves is a search tree. |
| `CowSplit.SplitTreeConserves` | btree_write.go:419-519 | Free plus live is the same for every byte after a splitting insert. |
| `CowSplit.SplitTreeGen` | btree_write.go:459-510 | Every pointer's generation equals its child's after a splitting insert. |
| `CowRoot.RootIs` | btree_write.go:236-272 | A mutation lowers the tree exactly when it empties one of the root's two children, and the other child is the root then; otherwise the root keeps its level and its other children and gets the committing generation. |
| `CowRoot.MutatedRoot` | btree_write.go:236-300 | The finished mutation leaves that child or a root of the committing generation. |
| `CowRoot.SplitRoot` | btree_write.go:496-519 | A splitting insert leaves a root of the committing generation, one level higher exactly when the old root was divided. |
| `CowRoot.SplitNodeHalves` | btree_write.go:748-800 | A node without room for one more pointer is divided in the middle. |
| `CowRoom.MutateNoBlockIff` | btree_write.go:202-300 | A mutation fails for want of a block exactly when its leaf accepts it and fewer blocks are free than nodes are copied: one for every node on the route that is not emptied. |
| `CowRoom.InsertOkIff` | btree_write.go:29-44 | Insert succeeds exactly when the item fits its leaf and every level gets a block, or the cut of the leaf fits and there are two blocks for every divided node, one for every other, and one for a new root. |
| `MapSpec.SortedUnique` | btree_write.go:29-77 | A strictly sorted item sequence is determined by the map it denotes. |
| `MapSpec.ToMapHas` | btree_write.go:29-77 | The map of a sorted sequence has exactly its items. |
| `MapSpec.LeafEffect` | btree_write.go:29-77 | A leaf mutation between its neighbours is the map operation on the whole contents. |
| `CowTheorems.CollapseKeeps` | btree_write.go:326-393 | The two-leaf merge keeps contents, search-tree shape and generations. |
| `CowTheorems.MutateTreeRefines` | btree_write.go:202-300 | Update and delete are the map operations on the contents. |
| `CowTheorems.SplitTreeContents` | btree_write.go:419-519 | A splitting insert gives the contents with the item in its place. |
| `CowTheorems.InsertTreeRefines` | btree_write.go:29-44 | Insert is the map insertion on the contents, split or not. |
| `CowTheorems.InsertTreeConserves` | btree_write.go:29-44 | Insert keeps free plus live the same for every byte. |
| `CowTheorems.InsertTreeGen` | btree_write.go:29-44 | Insert keeps pointer and child generations equal. |
| `CowOutcome.DeleteMissingIff` | btree_write.go:65-77 | On a search tree delete answers not-found exactly when the key is not in the contents; its only other failure is a missing block. |
| `CowOutcome.UpdateMissingIff` | btree_write.go:49-60 | On a search tree update answers not-found exactly when the key is not in the contents, and no-room exactly when it is and its leaf with the new data does not fit; its only other failure is a missing block. |
| `CowOutcome.MutateTreeMembers` | btree_write.go:49-77 | After an update or a delete an item is in the contents exactly when it was and has another key, or is the updated one. |
| `CowOutcome.InsertTreeMembers` | btree_write.go:29-44 | After an insert of a new key an item is in the contents exactly when it was or is the new one. |
| `CowExact.InsertWellFormedIff` | btree_write.go:525-572 | A successful insert leaves a search tree exactly when the key is covered or the merge absorbs it. |
| `CowExact.UpdateDeleteWellFormedIff` | btree_write.go:236-300 | A successful update or delete leaves a search tree exactly when it is no deletion of the last item of a multi-level tree; otherwise a childless root. |
| `CowExact.LastDeleteExample` | btree_write.go:236-300 | A root over one leaf with one item whose deletion leaves a childless root. |
| `CowExact.FreedHasRoom` | btree_write.go:326-393 | After a path is freed a block can be allocated, so the merge cannot fail for want of one. |
| `CowEngine.ChooseChild` | btree_write.go:545-568 | The scan picks the last pointer not above the key, or the first. |
| `CowEngine.Volume.TracePath` | btree_write.go:525-572 | The recorded path is the route of the key; it fails exactly past the depth limit. |
| `CowEngine.Volume.WriteCowNode` | btree_write.go:398-412 | The node is stamped with its new address and generation and written to a granted block. |
| `CowEngine.Volume.StepUp` | btree_write.go:236-272 | One level of the walk writes the node the specification says, whatever happened below. |
| `CowEngine.Volume.WalkUp` | btree_write.go:222-277 | The whole walk ends with the specified root stored and lists the path's blocks for freeing. |
| `CowEngine.Volume.TryCollapse` | btree_write.go:326-393 | The merge on the device is the specified one and spares all other blocks. |
| `CowEngine.Volume.CowMutate` | btree_write.go:202-300 | On success the new tree is stored and the free list is the specified one; on failure the old tree is still stored, and the free list is untouched or, when blocks ran out, has lost every block it could grant. |
| `CowEngine.Volume.CowUpdate` | btree_write.go:49-60 | Update on the device refines the tree update; on a search tree it fails exactly when the key is absent, its leaf would not fit or a level gets no block, and otherwise the items are those there were with the new data in place. |
| `CowEngine.Volume.CowDelete` | btree_write.go:65-77 | Delete on the device refines the tree deletion; on a search tree it fails exactly when the key is absent or fewer blocks are free than nodes are copied, and otherwise the items are those there were without the one with the key. |
| `CowInsertEngine.StepSplit` | btree_write.go:454-495 | One level of the splitting walk: pointer replaced, inserted, or node split in two. |
| `CowInsertEngine.BuildNewRoot` | btree_write.go:801-840 | The new root over the two halves is written and stored. |
| `CowInsertEngine.CowInsertSplit` | btree_write.go:419-519 | The splitting insert on the device refines the one on trees; on failure the old tree is still stored and the blocks lost are those an exhausted free list could grant. |
| `CowInsertEngine.CowInsert` | btree_write.go:29-44 | Insert tries in place, splits when the leaf is full, and refines the tree insertion; a new key in a search tree goes in exactly when the sizes and the free blocks allow it, and the items are those there were and the new one. |
| `Volumes.ExhaustedUnique` | alloc.go:243-258 | A free list from which blocks were granted until none was left is determined by where it started. |
| `CowRuns.RunRefines` | btree_write.go:29-77 | After every run of inserts, updates and deletes the tree is a search tree with matching generations that denotes the map the run describes. |
| `CowRuns.RunConserves` | btree_write.go:202-412 | After every run each byte is free or live as often as before. |
| `CowRuns.RunThenSearch` | btree.go:167-228 | After every run a search answers from the map the run describes. |
| `CowRuns.LastStep` | btree_write.go:29-77 | After a run a key has what the last operation that wrote it left: the data inserted or updated, or nothing after a delete. |
| `CowReplay.Replay` | btree_write.go:29-77 | A run of inserts, updates and deletes on the device, up to the first that fails as the specification says, leaves stored a search tree that denotes the map of the operations done; a whole run leaks no byte. |
| `CowReplay.ReplayThenSearch` | btree.go:167-228 | A search of the device after a run answers from the map of the operations. |
| `CowReplay.LastWriter` | btree_write.go:29-77 | The same of the operations a run on the device has done; a key that none wrote is as it was. |
| `SearchSpec.SearchWellFormed` | btree.go:167-228 | On every search tree the search finds exactly the keys of the contents, with their data. |
| `SearchSpec.SearchFinds` | btree.go:167-228 | Data is found under a key exactly when the contents have that item. |
| `SearchSpec.InsertThenSearch` | btree.go:167-228 | After an insert the new key is found exactly when it was covered or absorbed. |
| `SearchSpec.UncoveredLost` | btree_write.go:565-568 | An uncovered, unabsorbed insert leaves the item in the contents but out of reach of the search. |
| `SearchSpec.UncoveredExample` | btree_write.go:565-568 | A concrete tree and key on which this happens. |
| `TreeWalk.SearchTree` | btree.go:167-228 | The descent with its visited set and depth limit returns the specified search result; on a search tree it finds data exactly when the contents have the item. |
| `TreeWalk.WalkPrefix` | btree.go:264-332 | The pruned walk with an explicit stack returns exactly the matching items in key order, and finishes on every tree within the limits. |
| `WalkSpec.FiltersAre` | btree.go:320-323 | The matching items are those of the objectid and type, the others the rest. |
| `TreeWalk.CollectPrefixItems` | btree.go:242-259 | Exactly the items with the objectid and type, in key order, or not-found exactly when there are none. |
| `TreeWalk.FindLeafContainingPrefix` | btree_write.go:122-182 | The walk says yes exactly when some item matches. |
| `PrefixDeletion.CowDeletePrefix` | btree_write.go:82-117 | It terminates; unless a pass finds too few blocks or the tree is past the walk's limits, it returns a root without exactly the items of the objectid and type exactly when they are removable, and ends in the error exactly when not; a failure leaves a stored tree that lost matches only. |
| `PrefixPass.PassKeeps` | btree_write.go:92-117 | Each pass removes at least one item and no item that does not match. |
| `PrefixPass.PassStuckIff` | btree_write.go:102-111 | A pass stops with an error exactly when the leaf that offset 0 routes to has no match. |
| `PrefixPass.OnePassSuffices` | btree_write.go:92-117 | When no match lies right of the routed leaf one pass removes them all. |
| `PrefixExact.SpanStuck` | btree_write.go:78-117 | When the routed leaf keeps an item and matches remain to its right, the next pass is stuck exactly when the two-leaf merge does not join them. |
| `PrefixExact.DropRoutes` | btree_write.go:236-272 | After a pass that empties its leaf the route goes to the leaf left of the key or to the next leaf, and in the second case the same items lie beyond the subtree it opens. |
| `PrefixExact.MergeHappens` | btree_write.go:326-393 | The merge at the end of a pass takes place exactly when the level, the number of leaves and the sizes before the pass say so. |
| `PrefixExact.PassKeepsRemovable` | btree_write.go:92-117 | A successful pass neither makes unremovable matches removable nor the reverse. |
| `PrefixDeletion.StuckExample` | btree_write.go:102-111 | A two-leaf tree whose only match is never reached. |
| `Bytes.LeRoundTrip` | btree.go:53-60 | Little-endian fields read back the value written. |
| `Bytes.LeDigit` | btree.go:53-60 | Byte i of a little-endian field is the digit of weight 256 to the i. |
| `Bytes.LeWraps` | format.go:549-555 | A field of n bytes reads back any number modulo 256 to the n. |
| `Bytes.Move` | cow.go:307-312 | A copy within one buffer moves the bytes as they were, also when the ranges overlap. |
| `LeafLayout.DescRoundTrip` | btree.go:94-110 | An item descriptor reads back the key, data position and size written, each from its own bytes. |
| `LeafLayout.LaidTightIff` | cow.go:140-145 | A node is tight exactly when its data lies packed from the end of the node in item order. |
| `LeafLayout.TightLaid` | cow.go:98-135 | A tight node's items fit a leaf and lie at the packed positions. |
| `LeafBytes.LeafInsertItem` | cow.go:98-180 | On a node whose data areas do not overlap: refused exactly for want of room below the data area, and then untouched; otherwise tight, parsing to the sorted insertion, other header bytes kept; on a tight node it is the item-level insert. |
| `LeafBytes.InsertBytesIff` | cow.go:104-135 | The bytes refuse an item that the item list takes exactly when it fits only with the gaps; never on a tight node. |
| `LeafBytes.LeafReplaceItemData` | cow.go:184-267 | In place or rebuilt, the result parses to the list with that item's data replaced; a tight node stays tight and a rebuilt one is tight; refused exactly for want of room. |
| `LeafBytes.LeafUpdate` | btree_write.go:49-60 | The update mutation on bytes is the one on item lists: not-found exactly when no parsed item has the key, no-room exactly when one has and the items would not fit, the node then untouched; otherwise that item parses with the new data. |
| `LeafBytes.FindItemIdx` | cow.go:338-348 | The first item with the key, or none. |
| `LeafBytes.BuildLeafFromItems` | btree_write.go:686-712 | A fresh tight node that parses to the items, with the source's header and level 0; refused exactly when they do not fit. |
| `LeafDelete.LeafDeleteItem` | cow.go:281-334 | The item is gone and all others read as before despite the overlapping move; a tight node stays tight exactly when the deletion closes up. |
| `LeafDelete.StartsAfterIff` | cow.go:318-327 | The data positions left are the packed ones exactly unless the item had data and its successor has none. |
| `LeafDelete.GapExample` | cow.go:318-327 | Two items, the second empty, whose first one leaves a gap. |
| `LeafDelete.LeafDelete` | btree_write.go:65-77 | The delete mutation on bytes is the one on item lists: not-found exactly when no parsed item has the key, the node then untouched; otherwise the first such item is gone. |
| `LeafDelete.FindItemIdxPrefix` | cow.go:352-363 | All matching indexes, ascending. |
| `LeafDelete.LeafDeletePrefix` | btree_write.go:102-111 | Deleting the matches from the last to the first leaves exactly the other items; a tight node is tight again exactly when no match with data is followed, among the items that stay, by one without. |
| `SplitBound.SplitLeafIff` | btree_write.go:614-679 | A leaf with items is split exactly when the first cut with half the data bytes, or the first item when no proper prefix has half, fits on both sides, and it is split there. |
| `SplitBound.InsertTooLargeIff` | btree_write.go:29-44 | An insert fails for size exactly when the routed leaf refuses the item and that cut does not fit; its other failures are a missing block and the depth limit. |
| `SplitBound.RefusedSplits` | btree_write.go:614-679 | A leaf of items of moderate size that refuses one splits into two non-empty leaves that fit. |
| `SplitBound.UnbalancedExample` | btree_write.go:643-671 | Four items on which the data-balanced split fails although another cut fits. |
| `SplitBound.InsertOnlyNoBlock` | btree_write.go:29-44 | In a tree of such items an insert fails only when no block can be allocated or past the depth limit. |
| `RelocateSpec.RelocateEvacuates` | resize_reloc.go:390-442 | A successful relocation keeps the tree's structure, moves exactly the nodes it must below the window, and reports whether it moved any. |
| `RelocateSpec.RelocateBytes` | resize_reloc.go:390-442 | Without zero pointers: afterwards no node covers a byte of the window, and, when the window has a byte, the tree has changed exactly when one did; an unchanged tree is the same tree. |
| `RelocateSpec.TwinWellFormed` | resize_reloc.go:390-442 | Moving nodes keeps contents, levels and the search-tree shape. |
| `RelocateCount.RelocateCnt` | resize_reloc.go:451-470 | Per byte: free plus live after, plus the moved nodes' old blocks, is free plus live before. |
| `RelocateCount.RelocateLeaksIff` | resize_reloc.go:451-470 | Outside the window nothing is lost exactly when no moving node has a byte there. |
| `RelocateCount.LeakExample` | resize_reloc.go:451-470 | A two-node tree whose root's old block is lost. |
| `RelocateRoom.RelocateIff` | resize_reloc.go:390-470 | It succeeds exactly when the free list offers as many blocks below the window as there are nodes to move, and uses that many. |
| `RelocateRoom.RelocateTree` | resize_reloc.go:390-470 | Evacuating a whole tree: exact success condition, same contents, search tree, matching generations, disjoint from free space, and no byte of the window covered. |
| `Relocation.RelocateNodeBuffer` | resize_reloc.go:451-470 | The buffer is stamped with its new address and generation and written below the window, or the allocation is undone. |
| `Relocation.RelocateSubtreePath` | resize_reloc.go:390-442 | The recursion on the device refines the relocation of trees and overwrites no block in use; it reports a change exactly when a node covered a byte of the window, and leaves none that does. |
| `Partitions.PartitionLeaves` | extent_multilevel.go:73-90 | The leaf ranges tile the records, each fits, and no other such cut uses fewer. |
| `Partitions.GreedyLeast` | extent_multilevel.go:73-90 | No tiling into fitting pieces has fewer pieces than the greedy one. |
| `Partitions.MoreRecords` | extent_multilevel.go:73-90 | Adding records anywhere never lowers the number of leaves. |
| `InteriorShapes.InteriorShape` | extent_multilevel.go:95-105 | The level sizes form a pyramid that ends in one root, with their sum and height. |
| `InteriorShapes.LevelsShort` | extent_multilevel.go:95-105 | Two to the n leaves need at most n levels above them. |
| `InteriorShapes.SolveLeaves` | extent_multilevel.go:206-218 | The scan finds the one leaf count that belongs to a block count. |
| `InteriorShapes.BlockCountInjective` | extent_multilevel.go:206-218 | Block counts determine leaf counts, monotonically. |
| `InteriorShapes.ShareBounds` | extent_multilevel.go:355-361 | Handing out rounded-up shares gives every node between one and capacity children and leaves none over. |
| `BulkTree.BulkWellFormed` | extent_multilevel.go:319-393 | The bulk-built tree over sorted records is a search tree that denotes exactly them, with matching generations and the stated height. |
| `BulkTree.BulkCnt` | extent_multilevel.go:319-393 | The bulk-built tree covers exactly the blocks handed to it. |
| `BulkTree.GroupBalanced` | extent_multilevel.go:355-361 | Every node of a level gets the number of children divided by the number of nodes, rounded up or down. |
| `ExtentRecords.SortItemsSorted` | extent_multilevel.go:275-277 | Sorting the collected records gives the same records in strict key order. |
| `ExtentRecords.MoreLeaves` | extent_multilevel.go:148-174 | Records that all have a stand-in in a larger set need no more leaves. |
| `ExtentRecords.MetadataRoundTrip` | format.go:537-545 | A METADATA_ITEM reads back one reference, generation 1, the tree-block flag and an inline TREE_BLOCK_REF by the owner. |
| `ExtentRecords.GroupRoundTrip` | format.go:549-555 | A BLOCK_GROUP_ITEM reads back the used count, chunk tree 256 and the flags. |
| `ExtentPlan.TakePrefix` | extent_multilevel.go:219-241 | The blocks a smaller layout gets are the first ones of a larger layout. |
| `ExtentPlan.TakeThenFree` | extent_multilevel.go:298-305 | Undoing an attempt restores the identical free list. |
| `ExtentPlan.TakenDistinct` | extent_multilevel.go:219-241 | The blocks of a layout are pairwise different. |
| `ExtentFixpoint.LeafCountMono` | extent_multilevel.go:148-174 | The leaf count needed is monotone in the leaf count assumed. |
| `ExtentFixpoint.SizingStep` | extent_multilevel.go:148-174 | A pass of the sizing loop stays at or below every self-consistent leaf count, never shrinks the count, nor does the pass after it, and is the last one exactly when it does not grow. |
| `ExtentFixpoint.ShortMeansNone` | extent_multilevel.go:148-174 | Running out of blocks on the way means that no self-consistent layout exists. |
| `ExtentSelf.PlanDescribesItself` | extent_multilevel.go:243-278 | Each node has a record with its address as objectid and its level as offset, whose bytes read as a tree block of the extent tree; each record of that owner is some node's; the rest are the input's records and one per block group, whose used count reads as the base plus a node size for each node in the chunk. |
| `ExtentSelf.RecordsApart` | extent_multilevel.go:269-271 | Different planned blocks have different records. |
| `ExtentSelf.BulkHas` | extent_multilevel.go:319-393 | The bulk-built tree has a node at an address and level exactly when the layout planned one. |
| `ExtentSelf.PlanLow` | extent_multilevel.go:243-256 | With 64-bit addresses a layout has at most 64 interior levels, so a level fits its byte. |
| `ExtentSelf.CountIsCard` | extent_multilevel.go:257-265 | The count kept per chunk is the number of blocks in it. |
| `ExtentUsed.ChargeBlocks` | extent_multilevel.go:257-265 | Each block group's used bytes are the base plus one node size per tree block in it, and the total is their sum. |
| `ExtentUsed.SumUsed` | extent_multilevel.go:184-187 | The superblock's byte count is the sum over the block groups. |
| `ExtentWrite.WriteLeaves` | extent_multilevel.go:328-347 | The leaves are stored at their planned blocks; refused exactly when a range does not fit. |
| `ExtentWrite.WriteLevel` | extent_multilevel.go:350-391 | One interior level is stored over the level below, each node with its share of children. |
| `ExtentWrite.WriteMultiLevelTree` | extent_multilevel.go:319-393 | The planned tree is stored, its root is the reported one, and no block in use is overwritten. |
| `ExtentBuild.TryExtentLayout` | extent_multilevel.go:197-296 | One attempt yields the layout the specification gives for that block count, or fails for want of blocks and then keeps every block the list could grant. |
| `ExtentBuild.SizeExtentTree` | extent_multilevel.go:148-174 | The loop ends with the least self-consistent layout; with blocks running out only if there is none, the free list then being exhausted; and gives up, the list as before, only if each has more than 64 leaves. |
| `ExtentBuild.BuildMultiLevelExtentTree` | extent_multilevel.go:124-189 | On success the stored tree is a search tree of exactly the least layout's records, its own records are in bijection with its nodes, with their addresses and levels, and it takes exactly its blocks from the free list; a sized layout fails exactly when some record does not fit a leaf alone; each failure says what layouts there are and what the free list is. |
| `ExtentBuild.LeavesFitIff` | extent_multilevel.go:73-90 | The packed leaves fit exactly when every record fits a leaf of its own. |
| `StripeMap.RowIsBijection` | multidev.go:203-262 | Each row places its data and parity columns on all stripes, each once. |
| `StripeMap.AvoidsParity` | multidev.go:226-243 | A data byte never lands on a parity column of its row. |
| `StripeMap.StripedInjective` | multidev.go:203-262 | Different chunk positions of RAID0, RAID5 and RAID6 have different places. |
| `StripeMap.StripedOnto` | multidev.go:203-262 | Every place of a data column belongs to a chunk position. |
| `StripeMap.MirroredInjective` | multidev.go:276-301 | Two RAID10 legs share a place only for the same chunk position and leg. |
| `Raid.CostOfStriped` | multidev.go:254-261 | A read inside one striped chunk takes one device read per stripe it touches (times the legs tried). |
| `Raid.ReadSingleOrMirror` | multidev.go:146-182 | Succeeds exactly when some copy can be read, delivers the bytes of the local copy or else of the first readable one, tries each copy at most once. |
| `Raid.ReadStriped` | multidev.go:203-262 | Succeeds exactly when every stripe's device can be read; every byte delivered is the one at the place its stripe, row and column give; bounded device reads. |
| `Raid.ReadRaid10` | multidev.go:276-331 | Succeeds exactly when every stripe has a readable leg; every byte delivered is that of the first such leg; bounded device reads. |
| `Raid.ReadAt` | multidev.go:79-134 | For every profile and across chunks: exact success condition, the place every byte is read from, termination within the bound. |
| `RaidProfiles.MirrorPlaces` | multidev.go:114-133 | SINGLE, DUP and RAID1 keep a byte at its own offset of every stripe. |
| `RaidProfiles.Raid0Places` | multidev.go:203-262 | RAID0 keeps 64 KiB stripe number s on device s modulo n, in row s over n. |
| `RaidProfiles.Raid5Places` | multidev.go:203-262 | RAID5 with n stripes has n - 1 data columns in a row; column c of row r is on device r + c modulo n. |
| `RaidProfiles.Raid6Places` | multidev.go:203-262 | RAID6 has n - 2 data columns in a row, rotated the same way. |
| `RaidProfiles.Raid10Places` | multidev.go:276-301 | RAID10 keeps 64 KiB stripe number s on every leg of group s modulo the number of groups. |
| `RaidProfiles.NoPlaces` | multidev.go:203-215 | Unknown profiles and striped ones with too few stripes keep nothing. |
| `RaidProfiles.PieceAvailableIff` | multidev.go:103-134 | A piece of a read is available exactly when a place that keeps its first byte can deliver it and the chunk is mirrored or has 64 KiB stripes. |
| `RaidProfiles.ChosenCopy` | multidev.go:146-182 | A piece is served by the local copy of a mirrored chunk if it can be read, else by the first place that keeps it and can deliver it. |
| `RaidExact.ReadRightIff` | multidev.go:79-134 | When no device place records two addresses, a read delivers the logical bytes on every content of the layout exactly when each place it reads records the address asked for. |
| `RaidExact.FetchedHolds` | multidev.go:79-134 | What such a read fetches from a pool that holds the logical bytes is those bytes. |
| `RaidExact.SmoothOwn` | multidev.go:138-262 | Reads that leave no chunk except between stripes read recording places only. |
| `RaidExact.OneChunkSmooth` | superblock.go:360-368 | Reads inside one chunk never leave it between stripes. |
| `RaidExact.CrossingExample` | multidev.go:146-155 | A pool that holds the logical bytes and a read across the end of a mirrored chunk that takes a wrong one. |
| `FileExtents.ApartPairwise` | openfile.go:55-70 | On items in file order the running overlap check is pairwise disjointness without wrap-around. |
| `FileBytes.ContentByte` | read.go:68-175 | Every byte of the content of readable items has the value the last item that covers it gives: the inline byte, the byte at disk address plus offset plus position, or that byte of what the codec makes of the extent; bytes of holes, preallocated extents and uncovered ranges are zero. |
| `FileBytes.RegularByte` | read.go:98-175 | In a file of regular extents in order and apart each covered byte has the value of its one extent. |
| `FileBytes.FailsIff` | read.go:68-175 | Reading the whole file fails on an item exactly when its inline data does not decompress, its disk range is unmapped or past the device, or its expansion is too short. |
| `FileRead.ReadFileData` | read.go:38-179 | Succeeds exactly when the items exist, do not overlap below the size and can all be read; then returns the overlay of the items over zeros, each byte from where its payload says. |
| `FileRead.Open` | openfile.go:34-72 | Opens exactly when the file is empty or its items exist and none overlap. |
| `FileRead.WindowOfPut` | openfile.go:211-219 | Overlaying the whole file and looking through a window is copying into the window. |
| `FileRead.Fill` | openfile.go:109-192 | The window filled item by item is the window of the whole content, each byte from where its payload says; it can be filled exactly when every item shows in it. |
| `FileRead.ReadAt` | openfile.go:87-107 | Succeeds exactly when every item that reaches the window can be unpacked, or is mapped where it enters the window and readable there; each byte delivered is the one its payload says, and so the window of the content when the items can be read whole; end-of-file exactly when cut short. |
| `FileRead.MappedShown` | openfile.go:142-157 | An item that can be read whole and is mapped throughout shows in every window. |
| `FileRead.ShownIff` | openfile.go:109-192 | The window fails on an item exactly when it reaches the window and its bytes there cannot be read. |
| `FileResize.RegularRoundTrip` | write.go:583-595 | An encoded extent item parses to what was encoded. |
| `FileResize.InlineRoundTrip` | write.go:597-605 | An encoded inline item parses to what was encoded. |
| `FileResize.ShrinkItemBytes` | truncate.go:57-112 | What truncation does to the bytes of any item: an item that ends within the new size, or is too short, stays; one at or past it goes; any other, inline, regular or preallocated, keeps every byte except its two length fields and the inline data cut off. |
| `FileResize.ContentGrow` | truncate.go:33-45 | Growing a file appends zeros to its content. |
| `FileResize.ContentShrink` | truncate.go:57-112 | Keeping, dropping and trimming items cuts the content at the new size. |
| `FileResize.ShrunkTidy` | truncate.go:57-112 | Truncation leaves ordered, non-overlapping items that end within the new size. |
| `FileResize.ShrunkDisks` | truncate.go:57-112 | Device bytes owned before are still owned, except those of dropped items. |
| `FileResize.TruncateLeaksIff` | truncate.go:85-94 | Truncation loses device space exactly when an item that owns some starts at or past the new end. |
| `FileState.WriteStep` | write.go:433-454 | One more extent on device bytes no item owns extends the content by its data and disturbs no other item. |
| `FileStore.FileNode.WriteExtents` | write.go:376-456 | On success the items read back as the data, inline exactly up to 2048 bytes; they are the inode's and carry the generation; each device byte stays free or owned once; only free bytes are written; on sector-aligned free space it succeeds exactly when enough is free and takes exactly the rounded-up size; a failure leaves no free extent of a sector. |
| `FileStore.FileNode.WriteFragments` | write.go:430-455 | The greedy multi-extent fill, with the same guarantees also when it gives up midway. |
| `FileStore.FileNode.FreeInodeExtents` | write.go:553-581 | Every device range the items own returns to the free list, and no other. |
| `FileStore.FileNode.Overwrite` | write.go:516-551 | On success the file reads as the new data with the right byte count; on whole sectors it succeeds exactly when the rounded-up size is no more than what is free or owned; device bytes are conserved also on failure, which leaves items of a part of the new data and no free extent of a sector. |
| `FileStore.FileNode.Truncate` | truncate.go:20-139 | New size, items and byte count as specified for any items; on a settled file the content is cut or zero-extended, and the byte count is right exactly when no item that starts below the new end has inline bytes. |
| `FileStore.FileNode.Replay` | write.go:516-551 | After any successful run of writes and truncations the content is the byte string the same run makes, and can be read back exactly when the file is empty, or fits the device and no truncation since the last write dropped its first item; it fails only at a write that finds no free sector left. |
| `FileStore.FileNode.ReadBack` | read.go:38-179 | Reading after such a run delivers that byte string, or fails exactly in the other case. |
| `FileRuns.PlayedIs` | write.go:516-551 | After a run of writes and truncations a file has the length of its last cut, the bytes of its last write below every cut since, and zeros. |
| `FileRuns.TruncateContent` | truncate.go:20-139 | One truncation keeps the file tidy and resizes its content as a byte string. |
| `FileRuns.TruncateRun` | truncate.go:20-139 | Any run of truncations does to the content what it does to a byte string. |
| `FileRuns.RunBytesIs` | truncate.go:20-139 | A byte string cut and grown again and again has its last length, its own bytes below every cut, and zeros. |
| `FileRuns.ReadableAfterRunIff` | truncate.go:57-94 | After any run of truncations any tidy file reads back exactly when it ends empty, or had items, no truncation dropped the first one and it fits the device. |
| `FileRuns.LostAfterStore` | truncate.go:57-94 | After a write the items are lost exactly by cutting non-empty data to zero. |
| `FileRuns.EmptyStaysReadable` | write.go:597-605 | A written empty file keeps its empty item and stays readable through every truncation. |
| `FileRuns.CutAndGrowUnreadable` | truncate.go:85-94 | A ten-byte file that becomes unreadable when cut to zero and grown. |
| `FileBooks.RescanRightIff` | truncate.go:114-138 | The count a shrinking truncation stores is right exactly when no item that starts below the new end has inline bytes. |
| `FileBooks.RescanExample` | truncate.go:114-138 | A ten-byte inline file cut to five: 0 is stored, 5 is right. |
| `FileBooks.TruncateLeakExample` | truncate.go:85-94 | A one-sector file whose sector is lost when it is cut to nothing. |
| `FileBooks.FreedBooks` | alloc.go:319-345 | Freeing adds its size to the free space and keeps whole sectors whole. |
| `Names.LookupIs` | dir.go:75-109 | Lookup by hash with its fall-back scan finds the directory's one entry of that name. |
| `Names.LookupFinds` | dir.go:75-109 | In any state a name is found exactly when the item of its hash or some entry of the directory has it. |
| `NamesKeep.AddAgrees` | write.go:485-503 | A fresh entry keeps DIR_INDEX, DIR_ITEM and INODE_REF in agreement. |
| `NamesKeep.DropAgrees` | delete.go:18-53 | Dropping an entry keeps the three records in agreement. |
| `NamesKeep.WithRefOnce` | write.go:155-181 | Adding a reference records its name once, keeps the others in order and touches no other item. |
| `NameOps.AbsentGone` | delete.go:194-241 | In a consistent namespace nothing mentions an inode that does not exist. |
| `NameOps.CreatedIff` | write.go:470-514 | Creating keeps the namespace consistent exactly when the parent is a directory in which the name's hash is free. |
| `NameOps.CreatedLookup` | mkdir.go:9-75 | Afterwards the name finds the new inode and every other lookup is as before. |
| `NameOps.LinkedIff` | link.go:13-93 | Linking keeps the namespace consistent under the same exact condition. |
| `NameOps.RemovedIff` | delete.go:181-276 | Removing a name keeps the namespace consistent exactly when it is no directory with entries. |
| `NameOps.RemovedLookup` | delete.go:181-276 | Afterwards the name is gone, other lookups are as before, and the inode remains exactly when it has other links. |
| `NameMove.RenamedIff` | rename.go:8-130 | Renaming keeps the namespace consistent exactly when source and destination differ, the new parent is a directory and no third entry has the new name's hash. |
| `NameMove.RenamedLookup` | rename.go:8-130 | Afterwards the new name finds the inode, the old one nothing, and every other lookup is as before. |
| `NameMove.RenamedWhen` | rename.go:8-38 | A rename is refused exactly when no entry has the old name, or a directory has the new one. |
| `NameMove.SelfRename` | rename.go:29-38 | Renaming a file onto itself leaves a dangling entry or a wrong link count. |
| `NameTree.MoveTreeIff` | rename.go:39-103 | Moving a directory keeps the directories a tree exactly when the new parent is not inside it. |
| `NameTree.RenamedTreeIff` | rename.go:8-130 | The same for the whole rename operation. |
| `NamePrune.PrunedUnique` | delete.go:181-276 | A consistent state with a given part of the entries that derives from the old one is determined by those entries. |
| `NamePrune.PrunedGood` | delete.go:140-162 | Dropping entries keeps the invariant when every kept entry stays reachable. |
| `NamePrune.AllBelowGone` | delete.go:140-162 | When a directory is empty in a consistent state, everything below it is gone. |
| `NameRuns.RemoveDirGone` | delete.go:106-135 | Deleting a directory removes its entry and every entry below it at any depth, no other, and keeps all other lookups. |
| `NameRuns.StepIff` | write.go:470-514 | Create, mkdir, link, rename, unlink and recursive delete each keep the full invariant exactly when what the driver leaves unchecked holds. |
| `NameRuns.RunIff` | delete.go:86-135 | Every state of a run of these operations keeps the invariant exactly when every operation's guard holds when it comes. |
| `NameFrame.CreatedFrame` | write.go:470-514 | A create adds one inode, with one link, the length and, unless a directory, data; its parent grows by twice the name; every other record and all data stay. |
| `NameFrame.LinkedFrame` | link.go:13-93 | A link adds one link to the inode and twice the name to the parent; nothing else of inodes and data changes. |
| `NameFrame.RemovedFrame` | delete.go:181-276 | A removal takes one link, and with the last the inode and its data; the parent shrinks by twice the name; all else stays. |
| `NameFrame.RenamedFrame` | rename.go:39-103 | A rename changes the sizes of the two parents and takes one link of a replaced destination, and with the last its inode and data; every other inode record and all other data stay. |
| `NameFrame.RefusedIff` | write.go:470-514 | An operation is refused, without any change, exactly when the names and kinds there are say so. |
| `NameFrame.StepKeeps` | write.go:470-514 | No operation changes the kind, the file size or the data of an inode it leaves. |
| `NameFrame.RunKeeps` | delete.go:86-135 | Through every run a file that is never removed keeps its kind, its size and its data. |
| `NameRuns.BelowFileExample` | write.go:470-514 | A file created below a regular file. |
| `NameRuns.HashTakenExample` | write.go:470-514 | A second name with the same hash in one directory. |
| `NameRuns.SelfRenameExample` | rename.go:29-38 | A file renamed onto itself. |
| `NameRuns.IntoItselfExample` | rename.go:39-103 | A directory moved into itself. |
| `Namespaces.Namespace.LookupDirEntry` | dir.go:75-109 | Finds what the specification's lookup finds. |
| `Namespaces.Namespace.NextInodeNum` | write.go:47-58 | One more than the largest inode number. |
| `Namespaces.Namespace.AppendInodeRef` | write.go:155-181 | The reference is added once, in a new or an existing item. |
| `Namespaces.Namespace.RemoveInodeRef` | write.go:187-217 | The name's references go; the item goes with its last one. |
| `Namespaces.Namespace.Create` | write.go:470-514 | The step-by-step creation is the specified one and changes nothing but the new inode, its data and the parent's size; an existing name is refused without change. |
| `Namespaces.Namespace.LinkInode` | link.go:13-93 | The step-by-step link is the specified one, with each refusal, and changes nothing but the link count and the parent's size. |
| `Namespaces.Namespace.RemoveInode` | delete.go:181-276 | The step-by-step removal, of one link or of the inode, is the specified one. |
| `Namespaces.Namespace.DeleteFile` | delete.go:86-104 | Carries out the specified unlink: removes a file's name, and with the last its inode and data, refuses directories and missing names, keeps the invariant and all else. |
| `Namespaces.Namespace.Rename` | rename.go:8-130 | The step-by-step rename is the specified one, with each refusal; apart from a replaced destination every inode keeps its record, the parents their kind and link count, and every file its data. |
| `Namespaces.Namespace.PurgeDirContents` | delete.go:140-162 | Terminates on a tree of directories, leaves nothing in the directory or below it, keeps consistency and every entry outside it. |
| `Namespaces.Namespace.DeleteDir` | delete.go:106-135 | The step-by-step recursive deletion is the specified one: exactly the directory's entry and the entries below it are gone, and the invariant holds. |

## Left out

- Device, partition and file I/O errors, locking, opening and closing: device reads and writes succeed; only allocation fails, except in the RAID reader, where a device may fail as a whole.
- Checksums, superblock, root-item and chunk-array updates after an operation, timestamps, generation and sequence bumps of inodes: field copying.
- Address overflow in tree and space operations: block addresses are unbounded naturals; 64-bit wrap-around is modelled in the file reader, in truncation and in the extent records.
- The zlib, LZO and zstd decoders: the decompressor is an uninterpreted function of payload, method and size bound.
- CRC32C: the name hash is an uninterpreted function; the namespace theorems say what a collision does.
- Path resolution, symbolic links as content, extended attributes, permissions: namespace operations start from resolved parents; file data and attributes of an inode are one mark.
- Tree failures inside file and namespace operations: there the tree is the map its contents denote, whose refinement by the engine is proved separately, so an operation that runs out of metadata blocks midway is not modelled.
- Crash consistency of a transaction, the node cache, subvolumes, labels, formatting, resizing apart from relocation and the range test.
- relocateTailExtents and the repointing of root items: only the recursive relocation of one tree is modelled.
- The single-leaf in-place extent rebuild of extent_rebuild.go: the multi-level build is modelled, from collected records on.
- ExtentBuild.BuildMultiLevelExtentTree: takes the old tree's blocks as an argument instead of walking it, and does not claim that 64 passes suffice.
- NameOps.Created: when the name's hash is taken, the new DIR_ITEM replaces the old one, where the driver adds a second item with the same key; either way the records disagree, which is what the exact conditions say.
- RaidExact.ReadRightIff: requires that no device place records two addresses, which a chunk map without overlapping stripes has.
- FileStore.FileNode.WriteExtents: requires that device byte 0 is never free, because an extent at address 0 would read as a hole; the driver reserves that area.
- LeafDelete.LeafDeleteItem: like the other leaf edits, requires data areas that do not overlap, in any order, which every tight node and every result of an edit has.
- Namespaces.Namespace.PurgeDirContents: requires the directories to form a tree; on a cycle the recursion of the driver does not end.
