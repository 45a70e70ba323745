# A verified model of the collector in GOTO++

`boehmgc/src` holds the conservative garbage collector that the program is linked with. This project models its
marker, its large-block allocator with the index of block headers, finalization, the stop-the-world protocol and
several of its optimised searches, and proves what each of them is for. `dafny verify dfyconfig.toml` checks all of it.

| module | models | main results |
|---|---|---|
| `Kinds`, `HeapGraph`, `Marker` | `mark.c`, the mark loops of `alloc.c` and the root pushing of `mark_rts.c`, as a class whose methods change the mark bits, the mark stack and the mark state | `MarkFullHeap`, `Collector.MarkSome` |
| `ParallelMark`, `ParallelRuns`, `ParallelProgress`, `ParallelPhase` | the parallel marker as a step system: any number of threads, any interleaving; and its place in the mark state machine | `ParallelMarkIsComplete`, `PhaseEnds`, `RunIsSafe`, `RunNeverStuck`, `MarkInParallel` |
| `HeapMap`, `LargeBlocks` | `allchblk.c`, with heap growth from `alloc.c`: free lists threaded through headers, over a ghost tiling of the heap | `Allocator.Allochblk`, `Freehblk`, `AddToHeap`, `NothingIsLost`, `FreeBlockIsFiledOnce` |
| `Headers` | `headers.c`: the two-level index and its chain of bottom indices, shown to be the flat map that the allocator uses | `NextUsedBlock`, `PrevBlock`, `ApplyToAllBlocks` |
| `BlackList` | `blacklst.c` | `IsBlackListed` |
| `HashTable`, `PointerGraph`, `Finalization`, `FinalizationOrder` | `finalize.c` | `Finalizers.Finalize`, `WhenOrdersAgree`, `WhenSameAreDue`, `HarmlessSetsSuffice`, `WhenAlwaysClosed` |
| `StopWorld` | `pthread_stop_world.c` as a step system over the stopping thread and the suspend handlers | `WorldIsStopped`, `NoneLeaves`, `WaitIsNotInVain`, `ReleasedLeaves`, `ControlComesCloser` |
| `Exclusions` | the excluded static roots of `mark_rts.c` | `ExclusionTable.PushWithExclusions` |
| `Arithmetic`, `ObjectMap` | `obj_map.c` and `GC_base` of `misc.c` | `ObjectMaps.Base` |
| `SizeClasses` | the size map of `misc.c` | `SizeMap.ExtendSizeMap` |
| `FreeLists` | `new_hblk.c` | `BuildFl`, `BuiltIsList` |

## How the model is built

* Objects are numbered; a heap is a finite sequence of words in address-ordered blocks, some of which look like
  pointers to objects. Marking must follow the words that descriptors select (`MustScan`) and may follow any word of an
  object (`MayScan`); the marker is shown to mark at least what the first reach and at most what the second reach.
* Code that changes state is a class or a method with the loops of the source. Its contract ties the new state to the
  old one or to a ghost abstraction: a tiling, a finite map, a graph. Large functions are cut into methods where their
  phases meet.
* The parallel marker and the stop-the-world protocol are sets of atomic actions; runs are arbitrary sequences of them.
  What the source does while it holds the mark lock is one action, everything else is one action per shared access.
  Memory is sequentially consistent.
* Sizes of blocks and lists are counted in blocks (`HBLKSIZE`), so that the tests of the source on bytes become tests
  on numbers of blocks. Word and address arithmetic is unbounded.
* `HBLKSIZE`, `WORDSZ`, `BOTTOM_SZ`, `MAX_JUMP`, `BL_LIMIT`, `MAXOBJSZ`, `EXTRA_BYTES`, `GC_MARK_STACK_DISCARDS` and
  other constants of the private headers (`boehmgc/include/private`), which differ between configurations, are
  parameters. What is assumed of them is in predicates named `Sensible`, `Fits` and `Parameters`, and holds of the
  values there: objects larger than `MAXOBJSZ` take more than half a block, `VALID_OFFSET_SZ` exceeds the size in bytes
  of all others but not that of a block, and `GC_size_map` has an entry for each of their sizes.

## Findings

* `GC_ignore_self_finalize_mark_proc` scans every word of an object without a length descriptor, not just those its
  descriptor selects. Then the set of objects that `GC_finalize` enqueues can depend on the order in which the hash
  table lists the registrations, about which its users know nothing (`OrderMattersIfNotTame` has a heap with three
  objects that show it). The exact condition, for any number of registrations of any kind, is about lists of them:
  take registrations one after the other, each not reached by what those before it push, until they reach all others.
  Every order of the table finds what is needed exactly if every such list reaches all that is pushed
  (`WhenNeededIsFound`), and all orders enqueue the same objects exactly if every such list reaches all registered
  objects that are needed (`WhenSameAreDue`). That every set of untamed registrations is harmless is enough
  (`HarmlessSetsSuffice`): either the others do not reach all of it, or they reach all that it pushes. That each
  single one is harmless is necessary (`OrderMatters`), enough if there is only one (`OneExceptionMatters`), and not
  enough in general (`OneByOneIsNotEnough`).
* With `GC_java_finalization` off, the marks that `GC_finalize` leaves can fail to be closed under pointers: an object
  registered with the null mark procedure is queued and kept, and what it points to is not (`FinalMarksCanBeOpen`). If
  the mark procedures are tame they are closed exactly if no object registered with the null procedure that is not
  needed points to one that is neither needed nor registered (`WhenFinalMarksAreClosed`); for any registrations they
  are closed in every order exactly if that holds of what each of the lists above reaches (`WhenAlwaysClosed`). If
  nothing is registered with the null procedure they are always closed (`ClosedWithoutNull`).
* Although two threads of the parallel marker can take the same stack entry, mark the same object and give entries
  back, every phase ends, without any assumption on scheduling (`PhaseEnds`): while it lasts `GC_mark_stack_top` only
  rises, each thread passes each entry of the shared stack once, and an object can be pushed again only by threads that
  had found it unmarked before.
* `GC_grow_table` tests `table == 0`, the address of the table pointer, where it means the table. So a failure to
  allocate the very first table does not abort; the registration functions go on with a null table and a size of
  `1 << -1`. In the model they report `noTable` exactly then.
* `MAP_SIZE` is `HBLKSIZE` and `VALID_OFFSET_SZ` is little more than half of that (`gc_priv.h:928-936`). For large
  objects `GC_add_map_entry` goes through all displacements up to and including `HBLKSIZE` (`obj_map.c:127`): unless
  interior pointers are recognised it reads what happens to be behind `GC_valid_offsets`, and if they are it writes the
  byte behind the map. So what such a map says of displacements from `VALID_OFFSET_SZ` on is not determined; `Base` is
  right all the same, as it takes from a map only offsets, which are right wherever there are any.
* The comment at `allchblk.c:35` says that sizes up to 32 blocks have free lists of their own. The list for 32 blocks
  also has those up to 39 (`SameList`).
* `GC_MARK_FO` (`gc_pmark.h:335-343`) marks the object itself if the mark stack overflows on the way, so that it is not
  finalized in that pass. The model is of passes in which it does not overflow.
* The comment at `allchblk.c:331` says that free lists are sorted by address. The code pushes at the head, and so does
  the model; nothing proved here depends on the order.
* The test for overlap in `GC_exclude_static_roots` is commented as incomplete. On a sorted table it is complete
  (`OneNeighbourIsEnough`).
* In `GC_split_block` the rear part of a block takes over its place on a list that may be wrong for its size, beside a
  free block. The invariant `Sound` names that one block as an exception, and `GetFirstPart` removes it.

## Model

| member | source | states |
|---|---|---|
| Marker.MarkFullHeap | boehmgc/src/mark.c:218-402 | a full collection from any marks and any stack size terminates, keeps the marks of uncollectable objects, atomic ones included, and marks all objects that these and the roots reach by selected words, and none that no scan could reach |
| Marker.Collector.MarkSome | boehmgc/src/mark.c:282-402 | each step keeps the tri-colour invariant with its rescan states, loses no mark, decreases a lexicographic measure, and reports completion only with an empty stack and marks closed under pointers and roots; a step leaves the INVALID state behind or is driven there only by a newly marked object, and then notes that the mark stack is too small; a larger one is asked for just at the next start of a rescan or at the end of the phase |
| Marker.Collector.FullMark | boehmgc/src/alloc.c:477-535 | clearing, starting and repeating steps until done marks a closed set that holds the roots |
| Marker.Collector.StoppedMark | boehmgc/src/alloc.c:517-532 | the loop of steps ends, with complete marks |
| Marker.Collector.ClearMarks | boehmgc/src/mark.c:164-233 | marks of objects of the two uncollectable kinds stay, all others are cleared, and the state is fit to start from |
| Marker.Collector.InitiateGc | boehmgc/src/mark.c:235-268 | the phase starts with the rescuers, or stays INVALID, in a valid state in which the marks that stay are still to be scanned |
| Marker.Collector.PushObj | boehmgc/src/mark.c:584-596 | pushing a marked object's range keeps all pending work, or drops entries and makes the state invalid |
| Marker.Collector.FindDeferred | boehmgc/src/mark.c:750-775 | the last word of a range that looks like a pointer is found, and no word behind it does |
| Marker.Collector.ScanRange | boehmgc/src/mark.c:737-804 | every word of a range is examined, including the deferred one, each pointer to an unmarked object marking and pushing it |
| Marker.Collector.ScanLength | boehmgc/src/mark.c:644-690 | a long range is replaced by its rest on the stack and the scan of its first part, and no word falls between |
| Marker.Collector.ScanBitmap | boehmgc/src/mark.c:678-695 | exactly the words selected by the bitmap are examined |
| Marker.Collector.Resolve | boehmgc/src/mark.c:704-734 | a per-object descriptor is replaced by the one found in or through the object |
| Marker.Collector.MarkFrom | boehmgc/src/mark.c:612-808 | a batch of entries is processed without losing work: what they had pending is marked, pushed, or the state is invalid; if nothing new is marked, the stack measure decreases |
| Marker.Collector.PushMarked | boehmgc/src/mark.c:1679-1730 | after a block has been pushed, all its marked objects are scanned or on the stack, or the state is invalid; a push that overflows has marked an object |
| Marker.Collector.PushNextMarked | boehmgc/src/mark.c:1757-1815 | the next selected block is pushed and every selected block before the returned position, the end of that block, is done; fewer blocks are left |
| Marker.Collector.PushRoots | boehmgc/src/mark_rts.c:571-650 | all root ranges are on the stack or have been scanned |
| ParallelPhase.MarkInParallel | boehmgc/src/mark.c:338-359 | a run of the parallel marker is a step of the mark state machine: if no stack overflowed it finishes the phase with complete marks, otherwise it leaves a valid INVALID state with an empty stack, having asked for a larger one |
| ParallelPhase.MarkAndRescan | boehmgc/src/mark.c:338-398 | however the parallel phase ends, the rescan that follows an overflow makes the marks complete |
| ParallelMark.KeepsInv | boehmgc/src/mark.c:830-1129 | every action of every thread keeps the invariant: entries below GC_first_nonempty are empty, active and helper counters equal the threads in those states, a local stack is held only by an active thread, and a thread that returned saw no work |
| ParallelMark.QuietWhenNoneActive | boehmgc/src/mark.c:986-1022 | when the active count is zero and no entry is left no thread holds work, so nobody can put any back |
| ParallelRuns.KeepsLossless | boehmgc/src/mark.c:830-1046 | every action passes on each position still to be examined: to the shared stack, a local stack, a hand, or the marks, unless the mark state becomes invalid |
| ParallelRuns.HalvesCover | boehmgc/src/mark.c:655-676 | the two halves into which a long range is shared cover it |
| ParallelRuns.KeepsWakeful | boehmgc/src/mark.c:986-1036 | a sleeping thread has somebody left to wake it, through every action |
| ParallelRuns.NoDeadlock | boehmgc/src/mark.c:965-1101 | some thread can take a step unless the main thread has returned |
| ParallelRuns.RunIsSafe | boehmgc/src/mark.c:830-1129 | the invariants hold in every state of every run |
| ParallelRuns.RunNeverStuck | boehmgc/src/mark.c:1064-1101 | no run reaches a state in which all threads wait for each other |
| ParallelRuns.ParallelMarkIsComplete | boehmgc/src/mark.c:1064-1101 | when GC_do_parallel_mark returns no entry is left anywhere, no helper is active, and, if the state is valid, exactly what the marked and listed objects reach is marked |
| ParallelRuns.RunIsValidIfRoom | boehmgc/src/mark.c:884-906 | if there always was room on the stacks the mark state is valid at the end; if it is not the mark stack will be made larger |
| ParallelRuns.WorkIsFollowedBySharing | boehmgc/src/mark.c:924-956 | after a thread has taken an entry and finished with it, it may give all its entries back just if its stack is half full, and may share them just if not |
| ParallelRuns.SharesWhenOthersWait | boehmgc/src/mark.c:934-936 | if nothing changes between the unlocked reads, the load is shared just if no entry is left on the shared stack and a thread taking part is idle |
| ParallelProgress.StepComesCloser | boehmgc/src/mark.c:830-1101 | every action of every thread, whatever the others do, lowers one measure of what is left of the phase: unmarked objects, threads still in it, room on the shared stack, entries not yet passed, held work, GC_first_nonempty, possible notifications, remaining steps |
| ParallelProgress.HalvesAreLess | boehmgc/src/mark.c:655-676 | sharing a long range makes progress although the two halves overlap by a word |
| ParallelProgress.NoEndlessRun | boehmgc/src/mark.c:965-1101 | no run of the parallel marker goes on for ever, under any interleaving and without fairness |
| ParallelProgress.PhaseEnds | boehmgc/src/mark.c:1064-1101 | a run that goes on as long as a participating thread can do something reaches the return of GC_do_parallel_mark |
| HeapMap.FlIndexIsMonotone | boehmgc/src/allchblk.c:82-91 | larger blocks go on later lists |
| HeapMap.SameList | boehmgc/src/allchblk.c:35-46 | which sizes share a list: from 256 blocks on all, from 32 to 255 eight at a time, below none |
| HeapMap.SomeBlocks | boehmgc/include/private/gc_priv.h:740-743 | the number of blocks for an object is the least that has room for it |
| HeapMap.Unlink | boehmgc/src/allchblk.c:252-296 | unlinking a block anywhere in a list leaves links, heads, filing, counts and tiling sound |
| HeapMap.Insert | boehmgc/src/allchblk.c:329-359 | linking a block in at any place of a list leaves everything sound if it has no free neighbour |
| HeapMap.SplitSound | boehmgc/src/allchblk.c:488-537 | replacing a block on its list by its rear part leaves everything sound except where that part is filed and what it is next to |
| HeapMap.JoinSound | boehmgc/src/allchblk.c:811-830 | joining two neighbouring blocks that are off the lists leaves everything sound |
| HeapMap.CountsInstalled | boehmgc/src/headers.c:218-235 | with all forwarding counts set, clipped at MAX_JUMP, the index agrees with a tiling in which the block has them |
| HeapMap.CountsRemoved | boehmgc/src/headers.c:248-258 | without them the index agrees with the tiling before |
| LargeBlocks.Allocator.RemoveFromFl | boehmgc/src/allchblk.c:258-296 | the block is off its list, the totals drop by its size, nothing else changes |
| LargeBlocks.Allocator.AddToFl | boehmgc/src/allchblk.c:333-359 | the block is on the list for its size, and the totals grow by its size |
| LargeBlocks.Allocator.FreeBlockEndingAt | boehmgc/src/allchblk.c:298-327 | returns the free block that ends at the given one exactly if there is one |
| LargeBlocks.Allocator.PrevBlock | boehmgc/src/headers.c:326-358 | returns the last block with a header at or below a block |
| LargeBlocks.Allocator.SplitBlock | boehmgc/src/allchblk.c:500-537 | the front part is on the right list, the rear part takes the place of the block, no free space is gained or lost |
| LargeBlocks.Allocator.GetFirstPart | boehmgc/src/allchblk.c:458-486 | the needed blocks are taken from the front, what is left is filed, blocks in use stay as they are, and no exception is left |
| LargeBlocks.Allocator.Choose | boehmgc/src/allchblk.c:589-683 | a block is taken at a place that is not black-listed unless the request is exempt or very large; unless a collection comes before splitting blocks of the list, a block that suits the request is passed over only if the next one on its list suits it too, and if it does only an exact fit is taken; an exact fit that suits the request is never passed over; a block is not used while the next on the list is smaller, big enough and not black-listed; within the block the first start that is not black-listed is used |
| LargeBlocks.Allocator.EnoughLargeLeft | boehmgc/src/allchblk.c:54-70 | the loop finds whether what is free on the list and those behind it could hold large allocations as large as they have been |
| LargeBlocks.Allocator.GoOn | boehmgc/src/allchblk.c:684-722 | of the blocks found to be black-listed all over every fourth is dropped, none if leaks are looked for, and nothing changes otherwise; the search goes on behind the block, or starts over if the first one of the list was dropped |
| LargeBlocks.Allocator.Drop | boehmgc/src/allchblk.c:684-725 | a block that is black-listed all over becomes one-block pieces in use, and the free totals lose exactly its size |
| LargeBlocks.Allocator.AllochblkNth | boehmgc/src/allchblk.c:571-770 | the allocated block was free, has a header of the given size and kind, is not black-listed at its effective size unless exempt or very large; blocks in use stay, and new ones are it and dropped pieces |
| LargeBlocks.Allocator.Allochblk | boehmgc/src/allchblk.c:541-567 | as above; a request is served only from a free block that suits it, and for objects of kind NORMAL, or large pointer-free ones, at a place that is not black-listed or where the lists are overruled; it fails only if no free block of just the needed size suits it and, where the whole heap may be used or no collection is due, none at all does: each is too small, or the request is not exempt, all its starts are black-listed at the effective size and it is not so large that the lists are overruled; where a collection comes before splitting any block it is served only by an exact fit |
| LargeBlocks.Allocator.ServedSuits | boehmgc/src/allchblk.c:623-683 | what was allocated lay in a free block that suited the request |
| LargeBlocks.Allocator.Freehblk | boehmgc/src/allchblk.c:774-837 | the block's cells become free, other blocks in use stay, and no two free blocks touch |
| LargeBlocks.Allocator.AddToHeap | boehmgc/src/alloc.c:800-841 | the section's cells become free, sections and totals grow by it, blocks in use stay |
| LargeBlocks.Allocator.SectionIsUnique | boehmgc/src/alloc.c:800-841 | the heap is the disjoint union of its sections, after any sequence of operations |
| LargeBlocks.Allocator.NothingIsLost | boehmgc/src/checksums.c:123-147 | the sizes in the headers of all blocks in use and GC_large_free_bytes add up to GC_heapsize, after any sequence of operations |
| LargeBlocks.Allocator.FreeBlockIsFiledOnce | boehmgc/src/allchblk.c:145-163 | each free block is at one place on one list, the one for its size, its header names its neighbours there, and no free block follows it in memory |
| BlackList.BlackLists.IsBlackListed | boehmgc/src/blacklst.c:225-264 | the word-skipping scan returns 0 exactly if no block of the range has its bit in either of the two tables, and otherwise a later start before which every start is listed too |
| BlackList.BlackLists.HashIsRemainder | boehmgc/include/private/gc_priv.h:627 | a block's place in a table is its number modulo the size of the table |
| BlackList.BlackLists.BitOfWord | boehmgc/include/private/gc_priv.h:629-630 | the bits of a table's words are for consecutive blocks |
| BlackList.BlackLists.SameWord | boehmgc/src/blacklst.c:245-258 | blocks that follow each other up to the end of a table word hash into that word |
| BlackList.BlackLists.Promote | boehmgc/src/blacklst.c:127-160 | the tables of the last collection become the old ones, and the current ones are empty |
| Headers.HeaderIndex.GetIndex | boehmgc/src/headers.c:150-199 | a bottom index is there for the key, the chain stays ascending and linked both ways, and no entry changes |
| Headers.HeaderIndex.InstallCounts | boehmgc/src/headers.c:218-235 | the index shows the map with all forwarding counts; stepping by BOTTOM_SZ makes every bottom index that is needed |
| Headers.HeaderIndex.MakePresent | boehmgc/src/headers.c:226-229 | all blocks of the range have bottom indices |
| Headers.HeaderIndex.RemoveCounts | boehmgc/src/headers.c:248-258 | the index shows the map without the forwarding counts |
| Headers.HeaderIndex.InstallHeader | boehmgc/src/headers.c:201-216 | the index shows the map with the header |
| Headers.HeaderIndex.RemoveHeader | boehmgc/src/headers.c:237-246 | the index shows the map without the header |
| Headers.HeaderIndex.NextUsedBlock | boehmgc/src/headers.c:289-323 | returns the first block in use at or behind a block, or 0 if there is none |
| Headers.HeaderIndex.PrevBlock | boehmgc/src/headers.c:325-358 | returns the last block, in use or free, at or before a block, or 0 if there is none |
| Headers.HeaderIndex.ApplyToAllBlocks | boehmgc/src/headers.c:260-287 | visits every block in use exactly once |
| Headers.HeaderIndex.FindHeader | boehmgc/src/misc.c:400-408 | following forwarding counts from any block of a tile in use ends at its first block |
| HashTable.Hash | boehmgc/src/finalize.c:36-39 | a key hashes to a bucket of the table |
| HashTable.NeighboursDiffer | boehmgc/src/finalize.c:36-39 | the hash spreads objects: of the addresses that agree above the bits folded in, no two in different 8-byte units share a bucket |
| HashTable.Insert | boehmgc/src/finalize.c:101-136 | a new cell at the front of its chain represents the map with the key added |
| HashTable.Remove | boehmgc/src/finalize.c:246-274 | unlinking a cell represents the map without its key |
| HashTable.Table.Grow | boehmgc/src/finalize.c:101-136 | rehashing into twice as many buckets keeps the map, each key once and in its bucket |
| HashTable.Table.Prepare | boehmgc/src/finalize.c:190-205 | the table grows when it has more entries than buckets, so that with growth never failing entries never exceed buckets by more than one |
| HashTable.Table.Find | boehmgc/src/finalize.c:206-215 | finds the key's cell exactly if the map has the key |
| Finalization.Finalizers.RegisterDisappearingLink | boehmgc/src/finalize.c:162-235 | the map of links gains or replaces the link, the result says which, and a failure is counted, unless not even the first table can be allocated |
| Finalization.Finalizers.UnregisterDisappearingLink | boehmgc/src/finalize.c:237-274 | the link is removed, and the result says whether it was there, unless there is no table yet |
| Finalization.Finalizers.RegisterFinalizer | boehmgc/src/finalize.c:328-461 | the object then has just the function, client data and mark procedure given, if it was registered or an entry could be made, with its old size or that of its block; it has none if the function is 0; all others keep theirs; the old function and data are returned; with the same exception |
| Finalization.Finalizers.Finalize | boehmgc/src/finalize.c:544-668 | links of unmarked objects are zeroed, the unneeded registrations and no others move to the queue, marks and surviving links are those defined, table and queue entries are conserved |
| Finalization.MarkFromFinalizable | boehmgc/src/finalize.c:577-591 | the second pass marks what running the mark procedures in table order marks |
| Finalization.EnqueueDue | boehmgc/src/finalize.c:592-629 | the third pass moves exactly the registrations of unmarked objects |
| Finalization.MarkQueue | boehmgc/src/finalize.c:631-648 | the fourth pass marks all that the queued objects reach |
| Finalization.DropDanglingLinks | boehmgc/src/finalize.c:650-668 | exactly the links whose container is unmarked are dropped |
| Finalization.OrderDoesNotMatter | boehmgc/src/finalize.c:577-591 | in whatever order the table lists the registrations the same objects are needed: those that the marked ones and all that the mark procedures push reach, if no mark procedure pushes more than marking leads to |
| Finalization.NeverMore | boehmgc/src/finalize.c:577-591 | in any order and for any mark procedures no more than that is found |
| Finalization.OrderMattersIfNotTame | boehmgc/src/finalize.c:287-311 | a well-formed heap with three objects, one of them with a bitmap descriptor, whose outcome depends on the order |
| FinalizationOrder.OrderMatters | boehmgc/src/finalize.c:287-311 | a registration that others lead to, but that pushes what they do not lead to, makes two orders of the same table find different objects |
| FinalizationOrder.FoundInSomeOrder | boehmgc/src/finalize.c:577-591 | some order finds a set exactly if it is what is reached by a list of registrations, each not reached by those before it, that reach all others |
| FinalizationOrder.WhenOrdersAgree | boehmgc/src/finalize.c:577-591 | of any given objects, all orders find the same exactly if each of them finds all that are needed, and exactly if every such list reaches these |
| FinalizationOrder.WhenNeededIsFound | boehmgc/src/finalize.c:577-591 | every order finds what is needed, no less and no more, exactly if every such list reaches all that the mark procedures push |
| FinalizationOrder.WhenSameAreDue | boehmgc/src/finalize.c:577-629 | all orders enqueue the same objects exactly if every such list reaches all registered objects that are needed |
| FinalizationOrder.HarmlessSetsSuffice | boehmgc/src/finalize.c:577-591 | every order finds what is needed if each set of registrations that push more than marking leads to is either not reached as a whole by the others or pushes only what these reach |
| FinalizationOrder.OneByOneIsNotEnough | boehmgc/src/finalize.c:287-311 | a task in which that holds of each single registration, and in which an order still misses something needed |
| FinalizationOrder.OneExceptionMatters | boehmgc/src/finalize.c:577-591 | with one registration that may push more than marking leads to, every order finds the same objects exactly if the others do not lead to it or lead to all that it pushes |
| Finalization.InOrderServes | boehmgc/src/finalize.c:577-591 | in any order the marks found are closed and hold what enqueued objects point to, null mark procedures and self references excepted |
| Finalization.FinalMarksAreClosed | boehmgc/src/finalize.c:592-648 | the final marks are closed under pointers exactly if Java finalization is on or no enqueued object with the null procedure points outside them |
| Finalization.WhenFinalMarksAreClosed | boehmgc/src/finalize.c:592-648 | if no mark procedure pushes more than marking leads to, they are closed exactly if Java finalization is on or no object registered with the null procedure that is not needed points to one that is neither needed nor registered |
| FinalizationOrder.WhenAlwaysClosed | boehmgc/src/finalize.c:592-648 | for any registrations they are closed in every order exactly if that holds of what each list of registrations that reach all others reaches |
| Finalization.ClosedWithoutNull | boehmgc/src/finalize.c:592-648 | they are closed in every order if nothing unmarked is registered with the null procedure |
| Finalization.FinalMarksCanBeOpen | boehmgc/src/finalize.c:592-629 | a task with two objects in which they are not |
| Finalization.CycleIsNotFinalized | boehmgc/include/gc.h:628-637 | an object that reaches itself is never enqueued under the normal procedure |
| Finalization.ReachedIsNotFinalized | boehmgc/include/gc.h:628-637 | an object that a finalizable object reaches is not enqueued in the same pass |
| Finalization.UnreachedIsFinalized | boehmgc/include/gc.h:628-637 | an unmarked registered object that no other leads to, nor, under the normal procedure, itself, is enqueued |
| Finalization.SelfReferenceIsIgnored | boehmgc/include/gc.h:661-676 | an unmarked object that refers to itself is enqueued all the same if it is registered to ignore that, nothing else that it refers to leads back to it, and no other registered object refers to anything that does |
| Finalization.IgnoringServesTargets | boehmgc/src/finalize.c:287-311 | whatever else it refers to, and what that leads to, is not enqueued in the same pass |
| Finalization.Finalizers.EnqueueAllFinalizers | boehmgc/src/finalize.c:670-715 | all registrations move to the queue, and their objects are marked with all that they reach through unmarked objects, no more; if the marks were closed that is all that they reach |
| Finalization.MarkedFromClosed | boehmgc/src/finalize.c:670-715 | marking through unmarked objects from closed marks marks all that is reachable |
| StopWorld.KeepsInv | boehmgc/src/pthread_stop_world.c:146-474 | every action of any thread keeps the invariant that ties pending signals, handler positions, posts and the semaphore together |
| StopWorld.WorldIsStopped | boehmgc/src/pthread_stop_world.c:363-431 | when GC_stop_world has returned every thread that had to be stopped was signalled, posted exactly once and is in its handler, and the semaphore is 0 |
| StopWorld.NoneLeaves | boehmgc/src/pthread_stop_world.c:195-214 | while the world is stopped no step, spurious wakeups included, takes a signalled thread out of its handler |
| StopWorld.SemaphoreIsZero | boehmgc/src/pthread_stop_world.c:415-422 | posts and waits balance between rounds |
| StopWorld.NoDuplicates | boehmgc/src/pthread_stop_world.c:171-178 | the duplicate-signal branch is never taken and no thread is skipped as already stopped |
| StopWorld.DueComesCloser | boehmgc/src/pthread_stop_world.c:146-222 | every step of a thread that has yet to post, even one late from an earlier round, brings it closer, and no step of another sets it back |
| StopWorld.ReleasedLeaves | boehmgc/src/pthread_stop_world.c:195-214 | once the world has been started, each step of a thread that is still in its handler brings it closer to leaving, or takes it out, and no step of another sets it back, not even if the next round begins |
| StopWorld.ReleasedCanStep | boehmgc/src/pthread_stop_world.c:195-214 | between rounds such a thread can always take its next step, its restart signal pending where it waits for it |
| StopWorld.ReleasedIsRestarted | boehmgc/src/pthread_stop_world.c:435-474 | a released thread that waits for its restart signal has been sent it or will be in this round |
| StopWorld.ControlCanStep | boehmgc/src/pthread_stop_world.c:325-474 | the thread that stops or starts the world can always go on, but for the wait for acknowledgements |
| StopWorld.ControlComesCloser | boehmgc/src/pthread_stop_world.c:325-474 | each step of the thread that stops and starts the world brings the end of its round closer, and nothing else sets it back |
| StopWorld.StopIsRecorded | boehmgc/src/pthread_stop_world.c:171-188 | a thread that waits in its handler has recorded the GC_stop_count it posted for, which is what a second signal is recognised by |
| StopWorld.RestartsBalance | boehmgc/src/pthread_stop_world.c:203-229 | each restart signal is taken once, by the thread it was sent to; none appears or is lost otherwise |
| StopWorld.SuspendsBalance | boehmgc/src/pthread_stop_world.c:146-160 | so is each suspend signal |
| StopWorld.WaitIsNotInVain | boehmgc/src/pthread_stop_world.c:415-422 | while acknowledgements are missing some thread that owes one can take a step towards it |
| Exclusions.ExclusionTable.NextExclusion | boehmgc/src/mark_rts.c:401-422 | the binary search finds the first range that ends above the address, or that there is none |
| Exclusions.ExclusionTable.Exclude | boehmgc/src/mark_rts.c:424-457 | the table stays sorted and disjoint and covers exactly what it did and the new range; it aborts exactly if the range clashes with one of the table |
| Exclusions.OneNeighbourIsEnough | boehmgc/src/mark_rts.c:436-441 | looking at one neighbour detects every clash |
| Exclusions.ExclusionTable.PushWithExclusions | boehmgc/src/mark_rts.c:459-477 | ascending disjoint non-empty ranges are pushed that cover exactly what is not excluded |
| ObjectMap.ObjectMaps.AddMapEntry | boehmgc/src/obj_map.c:100-147 | every map says which displacements in whole objects are valid, as far as GC_valid_offsets goes, and is right about offsets wherever it has one; maps that exist stay as they are, and it fails, changing nothing, just if there is none yet and no memory |
| ObjectMap.ObjectMaps.WholeObject | boehmgc/src/obj_map.c:130-132 | displacement d of the k-th object is in a whole object just if that object ends within the block |
| ObjectMap.ObjectMaps.EntryIs | boehmgc/src/obj_map.c:120-143 | the entry for a valid displacement of d words in a whole object is d, or the value for offsets too big if d exceeds MAX_OFFSET; that for one that is not valid is the value for that |
| ObjectMap.ObjectMaps.RegisterDisplacement | boehmgc/src/obj_map.c:66-97 | all existing maps say so for the new displacement too; nothing changes if it was registered before |
| ObjectMap.ObjectMaps.SmallOffset | boehmgc/src/misc.c:411-417 | what a map gives for a word of a block of small objects is the remainder by the object size |
| ObjectMap.ObjectMaps.Base | boehmgc/src/misc.c:380-430 | returns the start of the object that holds an address, or 0 exactly if no object does, after any maps and displacements have been made |
| ObjectMap.ObjectMaps.ObjectIsUnique | boehmgc/src/misc.c:380-383 | no address is in two objects |
| SizeClasses.SizeMap.InitSizeMap | boehmgc/src/misc.c:167-204 | every entry filled at the start is large enough but no larger than its rounding rule makes it, and all small ones are filled; larger ones are left alone |
| SizeClasses.SizeMap.ExtendSizeMap | boehmgc/src/misc.c:206-253 | the entry asked for becomes non-zero and so do all later ones that the same size serves; every entry stays large enough and small, none becomes zero; no fewer objects fit into a block than of a size an eighth larger than needed; unless there is an entry an eighth smaller, as many fit as of the size needed; the new size serves a range of at least an eighth of it, without gaps, and no request smaller than three quarters |
| SizeClasses.SizeMap.ChooseRange | boehmgc/src/misc.c:208-229 | the size wanted is that of the request if there is no entry an eighth smaller, else up to an eighth larger; either way it exceeds the first request that it is to serve by an eighth |
| SizeClasses.SizeMap.SameNumberIsLargest | boehmgc/src/misc.c:237-245 | the size chosen fits as often into a block as the one wanted, and is the largest that does |
| SizeClasses.SizeMap.ChooseSize | boehmgc/src/misc.c:229-245 | as many objects fit as of the least small, aligned size not below the one wanted, none larger and aligned fits as often, and it is aligned itself |
| SizeClasses.SizeMap.SizeFor | boehmgc/src/malloc.c:103-126 | one extension at most is enough to serve a request |
| FreeLists.BuildFl1 | boehmgc/src/new_hblk.c:30-46 | builds what the general loop builds |
| FreeLists.BuildFlClear2 | boehmgc/src/new_hblk.c:52-70 | as above, with the other words cleared |
| FreeLists.BuildFlClear3 | boehmgc/src/new_hblk.c:74-90 | as above, where the block has words left over |
| FreeLists.BuildFlClear4 | boehmgc/src/new_hblk.c:94-112 | as above |
| FreeLists.BuildFl2 | boehmgc/src/new_hblk.c:116-130 | as above, leaving all other words as they were |
| FreeLists.BuildFl4 | boehmgc/src/new_hblk.c:134-150 | as above |
| FreeLists.BuildFlGeneral | boehmgc/src/new_hblk.c:205-229 | links all whole objects of the block in front of the old list, the last first, and clears the other words if asked, or leaves them as they were |
| FreeLists.BuildFl | boehmgc/src/new_hblk.c:161-229 | whichever loop is taken the free list is the same |
| FreeLists.BuiltIsList | boehmgc/src/new_hblk.c:153-160 | such a list is acyclic, visits all whole objects in descending order of address, and goes on with the old list |

## Left out

- Allochblk: whether a collection is due (`GC_dont_gc`, `GC_requested_heapsize`, `TRUE_INCREMENTAL` and `GC_should_collect`) is an arbitrary function of `GC_large_free_bytes`; where blocks are dropped in between nothing is said of requests for which it becomes due then, except of exact fits; failing to allocate a header or a map is not modelled, as the source then drops or leaks the block by design.
- Drop: clearing the dropped memory under the debugging allocator and the count of wasted words.
- Freehblk: a block that is not in use is excluded; the source aborts on one.
- AddToHeap: the limit on the number of sections, where the source aborts, and the plausible heap bounds.
- `USE_MUNMAP`: blocks that are unmapped and merged again; with it free blocks may touch.
- Allocator and HeaderIndex are separate objects: the allocator keeps a flat map from blocks to headers and forwarding counts, and `Headers` shows that the two-level index behaves as such a map. Headers are values in it, so that storage for headers and bottom indices, and its reuse, does not appear.
- MarkFullHeap: assumes, as the source does, that the entries for the roots and for one block fit half of the mark stack; incremental marking between mutator steps is not modelled, only phases with the world stopped.
- MarkFrom: how much one call does before it returns; the credit and the splitting of long ranges, which bound it, are modelled but nothing is promised of them.
- RunProc: a mark procedure pushes what the given words of its object point to; procedures that push themselves again are not modelled.
- PushRoots: the mark bits of free-list headers that are allocated in the heap; the static ranges are given as entries, and how `GC_push_conditional` selects the changed ones is not modelled.
- Resolve: the memory word that holds a per-object descriptor is not modelled; the descriptor found is part of the descriptor itself, so that chains of them end.
- MarkAndRescan: that a collection with parallel marking ends is not claimed. Each parallel phase does (PhaseEnds), but giving entries back can overflow the stack when nothing new has been marked, so that how many phases follow depends on the growth of the mark stack; the rescan here goes on with the sequential marker, where the source would open another parallel phase, which again is a step as in MarkInParallel.
- PhaseEnds: a thread that waits for the mark lock's condition is woken by notifications only; with spurious wake-ups, which its loop tolerates, a run could consist of nothing else.
- ParallelMarkIsComplete: weak memory order and the two-word tearing of a mark-stack entry; growing the mark stack happens outside a parallel phase.
- Finalize: chains are sequences, so relinking in place appears as sequences that lose an element; GC_MARK_FO is modelled by what it comes to if the mark stack does not overflow, the closure of what the mark procedure pushes; memory of the tables themselves, and its own marks, are not modelled.
- EnqueueAllFinalizers: running the finalizers is not modelled.
- RegisterDisappearingLink and RegisterFinalizer: dropping the lock to call GC_oom_fn; a failed allocation is a parameter. What the source does when the very first table cannot be allocated is undefined; the model says just when that happens.
- UnregisterDisappearingLink: the same holds of unregistering before any table has been made.
- Promote: adding false pointers to the black lists while marking.
- StopWorld: resending lost signals (`GC_retry_signals`), threads that vanish between a signal and its delivery, and wrap-around of the stop count.
- Exclude: a full table is excluded; the source aborts on one after it has shifted the entries.
- RegisterDisplacement: an offset of VALID_OFFSET_SZ or more is excluded; the source aborts on one.
- AddMapEntry and RegisterDisplacement: maps are values in a field rather than arrays; entries behind the last whole object of a block, which only the second one writes, are only shown not to lead astray.
- Base: HBLKSIZE is taken to be at least 512 bytes, so that VALID_OFFSET_SZ is not larger.
- InitSizeMap: MAXOBJSZ is taken to be at least 40 words.
- GetIndex: the top level of the index, an array or hash chains by configuration, is a finite map from keys to bottom indices.
- BuildFl: prefetching.
- Sweeping, the allocation of small objects, incremental collection with dirty bits, dynamic libraries, the debugging layers and the cord library are not part of this model.
