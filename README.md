# Eina core, modelled in Dafny

Eina is the data-structure and utility library of the Enlightenment
Foundation Libraries. This project models the parts of it where the
bookkeeping is subtle, and proves what those parts promise:

- **File module** (`eina_file.c`, `eina_file_win32.c`): path escaping,
  sanitizing and splitting; the zero-copy line iterator; the type a
  directory listing reports; the process-wide cache of open files with the
  table of mapped windows and their reference counts; and the Win32
  variants of these.
- **Strings** (`eina_str.c`): bounded copy and concatenation, prefix and
  suffix tests, split, join, escape and case mapping.
- **Logging** (`eina_log.c`): the domain registry with pending and glob
  levels, the print decision, level names, the terminal list and the
  parser of the `name:level,...` environment lists.
- **Library life cycle** (`eina_main.c`): the nesting init counter, the
  module table brought up in order and torn down in reverse, and thread
  support.
- **Memory pools**: the buddy allocator and the fixed bitmap allocator.
- **Generation-checked objects** (`eina_object.c`): identifier layout and
  lookup, the range allocator, the class chain, and the parent/child links
  with recursive delete.
- **Counter** (`eina_counter.c`): clocks started, stopped and dumped.
- **Object model** (`eina_model.c`): building a type's description (type
  chain, interfaces sorted by dependency, event table, private layout);
  a model's reference count and delete/free life cycle; per-event
  listeners with deferred removal during dispatch and freeze counts; the
  children interface, its slice iterators and the quicksort they use.

C strings are `seq<char>` without their terminating NUL. A NULL pointer is
`None`. Objects whose fields the C code updates in place (the file cache,
the allocators, the log registry, a model instance, the children array)
are classes. Pure computations are functions. Calls to the operating
system (`getcwd`, `open`, `mmap`, `GetCurrentDirectory`, `malloc`, the
clock) are not made: each outcome is a parameter of the operation.

## Model

| member | source | states |
|---|---|---|
| BuddyMempool.OrderFrom | src/modules/mp/buddy/eina_buddy.c:66-70 | from step `i`, the first order up to `num_order` whose block holds the request; every order skipped is too small |
| BuddyMempool.Order | src/modules/mp/buddy/eina_buddy.c:61-73 | `_get_order` returns the least order whose blocks hold `size` bytes, or `num_order` when none does; every lower order is too small |
| BuddyMempool.CountFrom | src/modules/mp/buddy/eina_buddy.c:99-103 | the doubling loop of `_init` stops at the first order whose block exceeds `size`; every earlier one fits |
| BuddyMempool.NumOrders | src/modules/mp/buddy/eina_buddy.c:98-105 | the number of orders is the count of block sizes not exceeding `size`: the next one would exceed it |
| BuddyMempool.FitsBelow | src/modules/mp/buddy/eina_buddy.c:222-232 | cutting a fitting block down to order `k` leaves it and every buddy handed out on the way inside the block array |
| BuddyMempool.Flip | src/modules/mp/buddy/eina_buddy.c:147-151 | `idx ^ (1 << order)` subtracts the bit when it is set and adds it otherwise |
| BuddyMempool.BuddyFits | src/modules/mp/buddy/eina_buddy.c:173 | the buddy of a fitting block below the top order lies in the array, and the lower of the two is a fitting block of the next order covering both |
| BuddyMempool.BuddyInside | src/modules/mp/buddy/eina_buddy.c:173 | in an aligned pool the buddy index of any block below the top order is inside the block array |
| BuddyMempool.Unlink | src/modules/mp/buddy/eina_buddy.c:180-181 | removing a block from a free list drops one entry when it is there and changes nothing otherwise |
| BuddyMempool.UnlinkFits | src/modules/mp/buddy/eina_buddy.c:180-181 | unlinking keeps every remaining entry of the list fitting the heap |
| BuddyMempool.FirstFree | src/modules/mp/buddy/eina_buddy.c:199-200 | the search loop ends at the first non-empty list from `j` on, or past the last order; every list skipped is empty |
| BuddyMempool.SplitStep | src/modules/mp/buddy/eina_buddy.c:222-230 | one split appends the head and its upper half to the list one order down |
| BuddyMempool.Take | src/modules/mp/buddy/eina_buddy.c:208-220 | defines the end of the `found:` loop: the head of list `j` leaves the list and is marked in use with order `j`; `Allocate` and `Buddy.TakeHead` state what it gives |
| BuddyMempool.Split | src/modules/mp/buddy/eina_buddy.c:207-232 | the `found:` loop keeps the number of lists and of blocks |
| BuddyMempool.SplitAreas | src/modules/mp/buddy/eina_buddy.c:207-232 | after splitting head `h` from order `j` to `k`, list `j` lost `h`, each list `t` in `k..j-1` holds exactly `h + 2^t`, and the other lists are unchanged |
| BuddyMempool.SplitBlockAt | src/modules/mp/buddy/eina_buddy.c:212-214 | the head ends in use with order `k`; every slot that is neither the head nor a handed-out buddy keeps its block |
| BuddyMempool.SplitBuddyAt | src/modules/mp/buddy/eina_buddy.c:227-229 | each buddy `h + 2^t` lies in the array and is available with order `t` |
| BuddyMempool.BuddyNotLower | src/modules/mp/buddy/eina_buddy.c:227 | the first buddy handed out is neither the head nor one of the later buddies, so the split never overwrites it |
| BuddyMempool.Allocate | src/modules/mp/buddy/eina_buddy.c:191-233 | `_alloc` returns NULL exactly when every list from order `k` up is empty, leaving the pool alone; otherwise it hands out the head of the first non-empty list, split down to `k`, in use and fitting, and the pool stays aligned |
| BuddyMempool.BuddyOrder | src/modules/mp/buddy/eina_buddy.c:227-228 | a handed-out buddy is `h + 2^t` for an order `t` between `k` and `j` |
| BuddyMempool.SplitAligned | src/modules/mp/buddy/eina_buddy.c:207-232 | a split keeps every list entry and every block fitting the heap |
| BuddyMempool.SplitListsFit | src/modules/mp/buddy/eina_buddy.c:207-232 | after a split every free-list entry of order `o` is a fitting block of order `o` |
| BuddyMempool.SplitBlocksFit | src/modules/mp/buddy/eina_buddy.c:207-232 | after a split every block has an order below `num_order` and fits the array |
| BuddyMempool.Address | src/modules/mp/buddy/eina_buddy.c:75-81 | `_get_offset` lies at or above the heap and shifting its offset back by `min_order` gives the block index |
| BuddyMempool.FreeFindsBlock | src/modules/mp/buddy/eina_buddy.c:138-143 | an address `_alloc` handed out passes the `offset > size` test and maps back to its own block |
| BuddyMempool.SizeOffsetPastBlocks | src/modules/mp/buddy/eina_buddy.c:114-143 | the address `heap + size` passes the test and indexes at or past the `1 << (num_order - 1)` blocks allocated |
| BuddyMempool.Release | src/modules/mp/buddy/eina_buddy.c:184-188 | `end:` marks the block available and appends it to its order's list |
| BuddyMempool.Join | src/modules/mp/buddy/eina_buddy.c:180-182 | one merge keeps the number of lists and of blocks |
| BuddyMempool.Merge | src/modules/mp/buddy/eina_buddy.c:165-188 | the corrected `check:` loop keeps the shape of the pool and ends at a block inside the array |
| BuddyMempool.MergeAligned | src/modules/mp/buddy/eina_buddy.c:165-188 | the corrected merge keeps every block fitting the heap |
| BuddyMempool.MergeEnds | src/modules/mp/buddy/eina_buddy.c:165-188 | the corrected `_free` ends with the merged block available at the tail of its list, of order at least the freed one, holding the freed slot |
| BuddyMempool.ReleaseEnds | src/modules/mp/buddy/eina_buddy.c:167-176 | when the loop stops at once, freeing is exactly releasing the block |
| BuddyMempool.MergeEndsJoined | src/modules/mp/buddy/eina_buddy.c:182-183 | the merge continued from a joined block still covers the freed slot |
| BuddyMempool.MergeUnfolds | src/modules/mp/buddy/eina_buddy.c:173-183 | a merge step that goes ahead yields an aligned pool whose merged block of the next order holds the slot, and the rest of the merge continues from it |
| BuddyMempool.ReleaseAligned | src/modules/mp/buddy/eina_buddy.c:184-188 | releasing keeps the pool aligned |
| BuddyMempool.MergeAsWritten | src/modules/mp/buddy/eina_buddy.c:165-188 | defines the written `check:` loop, whose merged block keeps the freed slot; the lemmas `FreeSecondAsWritten`, `FreeOverSplitAsWritten`, `MisalignedAfterFree` and `MergesOverBlockInUse` state what it does |
| BuddyMempool.FreeAsWritten | src/modules/mp/buddy/eina_buddy.c:138-188 | defines the written `_free` from the block slot on, including the merge with the block below whatever its order; the Findings lemmas state its results |
| BuddyMempool.MergeStepAligned | src/modules/mp/buddy/eina_buddy.c:180-182 | one merge into a fitting block of the next order keeps the pool aligned |
| BuddyMempool.ReleaseAsWritten | src/modules/mp/buddy/eina_buddy.c:184-188 | the written `end:` indexes a list only when the block's order is below the number of lists |
| BuddyMempool.Initial | src/modules/mp/buddy/eina_buddy.c:113-117 | `_init` leaves slot 0 available heading the top list, every other list empty and every other block zeroed, and the pool aligned |
| BuddyMempool.FirstAllocation | src/modules/mp/buddy/eina_buddy.c:191-233 | a 64 KiB request on a fresh 128 KiB heap splits it once and hands out slot 0 |
| BuddyMempool.SecondAllocation | src/modules/mp/buddy/eina_buddy.c:191-233 | a following 32 KiB request splits slot 2 and hands it out |
| BuddyMempool.ThirdAllocation | src/modules/mp/buddy/eina_buddy.c:191-233 | a third 32 KiB request takes slot 3 |
| BuddyMempool.FreeFirst | src/modules/mp/buddy/eina_buddy.c:131-189 | freeing slot 0 with its buddy in use only releases it, as written and corrected alike |
| BuddyMempool.FreeSecondAsWritten | src/modules/mp/buddy/eina_buddy.c:147-188 | the written `_free` of slot 2 merges up to the top order with the block kept at slot 2 |
| BuddyMempool.FreeSecond | src/modules/mp/buddy/eina_buddy.c:165-188 | the corrected merge of slot 2 ends with slot 0 heading the heap |
| BuddyMempool.FreeSlotTwo | src/modules/mp/buddy/eina_buddy.c:131-189 | freeing slot 2 beside slot 3 in use only releases it, as written and corrected alike |
| BuddyMempool.FreeOverSplitAsWritten | src/modules/mp/buddy/eina_buddy.c:173-183 | the written loop merges with an available buddy that heads a block of a lower order |
| BuddyMempool.FreeOverSplit | src/modules/mp/buddy/eina_buddy.c:173-183 | with the order check the merge stops at order 1 |
| BuddyMempool.MisalignedAfterFree | src/modules/mp/buddy/eina_buddy.c:131-233 | alloc 64 KiB, alloc 32 KiB, free both as written: the whole heap sits on the top list as slot 2, not a multiple of its size |
| BuddyMempool.MergeReassembles | src/modules/mp/buddy/eina_buddy.c:131-189 | the same calls with the corrected merge give back the lists `_init` made |
| BuddyMempool.MergesOverBlockInUse | src/modules/mp/buddy/eina_buddy.c:131-233 | a call sequence after which the written `_free` puts the whole heap on the top list while slot 3 is still in use |
| BuddyMempool.MergeStopsAtSplitBuddy | src/modules/mp/buddy/eina_buddy.c:131-189 | the same calls with the corrected merge leave slot 0 free at order 1 beside the block in use |
| BuddyMempool.WholeHeapRoundTrip | src/modules/mp/buddy/eina_buddy.c:131-233 | allocating the whole heap returns slot 0, and freeing it restores the lists `_init` made |
| BuddyMempool.Buddy.constructor | src/modules/mp/buddy/eina_buddy.c:107-119 | the new pool records its parameters and holds the state `Initial` describes |
| BuddyMempool.Buddy.Init | src/modules/mp/buddy/eina_buddy.c:83-120 | `_init` raises `min_order` to 15, returns NULL exactly when no order fits in `size`, and otherwise a fresh pool with `NumOrders` orders, at most 31, in the initial state; modelled where the `int` shifts are defined (see Left out) |
| BuddyMempool.Buddy.GetOrder | src/modules/mp/buddy/eina_buddy.c:61-73 | the doubling loop returns `Order` of the request |
| BuddyMempool.Buddy.Alloc | src/modules/mp/buddy/eina_buddy.c:191-233 | the pool becomes the state `Allocate` gives and the result is that block's address, or NULL |
| BuddyMempool.Buddy.FindList | src/modules/mp/buddy/eina_buddy.c:199-200 | the loop returns `FirstFree` of the lists |
| BuddyMempool.Buddy.SplitDown | src/modules/mp/buddy/eina_buddy.c:207-232 | the arrays become `Split` of the old state and the old head is returned |
| BuddyMempool.Buddy.SplitHead | src/modules/mp/buddy/eina_buddy.c:222-230 | the arrays become `SplitStep` of the old state |
| BuddyMempool.Buddy.TakeHead | src/modules/mp/buddy/eina_buddy.c:212-216 | the arrays become `Take` of the old state |
| BuddyMempool.Buddy.Free | src/modules/mp/buddy/eina_buddy.c:131-189 | an address more than `size` past the heap, or whose slot is past the block array, leaves the pool unchanged; any other becomes the corrected `Merge` of its slot; the pool stays valid |
| BuddyMempool.Buddy.MergeFrom | src/modules/mp/buddy/eina_buddy.c:165-188 | the loop leaves the arrays equal to `Merge` of the old state and valid |
| BuddyMempool.Buddy.JoinBuddy | src/modules/mp/buddy/eina_buddy.c:180-182 | the arrays become `Join` of the old state |
| BuddyMempool.Buddy.ReleaseSlot | src/modules/mp/buddy/eina_buddy.c:184-188 | the arrays become `Release` of the old state |
| FixedBitmap.LowestFrom | src/modules/mp/fixed_bitmap/eina_fixed_bitmap.c:148 | from bit `i`, the lowest set bit of the mask, or 32 when none is set |
| FixedBitmap.Ffs | src/modules/mp/fixed_bitmap/eina_fixed_bitmap.c:148 | `ffs` is 0 exactly for an empty mask; otherwise it is one more than the lowest set bit |
| FixedBitmap.CmpKey | src/modules/mp/fixed_bitmap/eina_fixed_bitmap.c:81-102 | `_eina_fixed_cmp_key` is 0 exactly for keys from the pool address to address plus header plus 32 items, 1 below it and -1 above it |
| FixedBitmap.Cmp | src/modules/mp/fixed_bitmap/eina_fixed_bitmap.c:70-79 | `_eina_fixed_cmp` sends a node left exactly when its address is lower |
| FixedBitmap.KeyFollowsNodeOrder | src/modules/mp/fixed_bitmap/eina_fixed_bitmap.c:70-102 | for pools whose spans do not overlap, the key comparison agrees with the node order, so the tree lookup finds the pool holding the key |
| FixedBitmap.SlotIndex | src/modules/mp/fixed_bitmap/eina_fixed_bitmap.c:180-183 | the unsigned quotient, read back as a signed `ssize_t`, lies in the 64-bit signed range |
| FixedBitmap.SlotIndexOfSlot | src/modules/mp/fixed_bitmap/eina_fixed_bitmap.c:150-183 | the slot index of the address `malloc` handed out for slot `idx` is `idx` |
| FixedBitmap.HeaderPointerRejected | src/modules/mp/fixed_bitmap/eina_fixed_bitmap.c:180-185 | an address inside a pool's header wraps to a huge slot index that fails the assertion's range |
| FixedBitmap.Find | src/modules/mp/fixed_bitmap/eina_fixed_bitmap.c:167-175 | the lookup returns a pool whose span holds the pointer, or none when no pool's span does |
| FixedBitmap.FindUnique | src/modules/mp/fixed_bitmap/eina_fixed_bitmap.c:167-175 | among separate pools, the pool holding the pointer is the one found |
| FixedBitmap.TakeSlot | src/modules/mp/fixed_bitmap/eina_fixed_bitmap.c:148-155 | defines the handing out of the lowest free slot and the move of a pool left full to the tail; `TakeSlotKeepsValid` and `GiveBackUndoesTakeSlot` state its properties |
| FixedBitmap.Alloc | src/modules/mp/fixed_bitmap/eina_fixed_bitmap.c:111-156 | defines `eina_fixed_bitmap_malloc` on the pool list; `AllocTakesLowestSlot`, `NewPoolOnlyWhenAllFull` and `AllocKeepsValid` state its properties |
| FixedBitmap.SourceHasFreeSlot | src/modules/mp/fixed_bitmap/eina_fixed_bitmap.c:119-148 | the pool `malloc` takes from has a free bit for `ffs` to find |
| FixedBitmap.TakeSlotKeepsValid | src/modules/mp/fixed_bitmap/eina_fixed_bitmap.c:148-153 | clearing the lowest bit and demoting a full pool keeps the pools valid: non-full first, separate, none all free |
| FixedBitmap.AllocTakesLowestSlot | src/modules/mp/fixed_bitmap/eina_fixed_bitmap.c:111-156 | `malloc` fails exactly when every pool is full and the new pool cannot be allocated, leaving the pools alone; otherwise it returns the address of the lowest free slot of the head pool, or of a fresh pool, and that slot is marked used |
| FixedBitmap.NewPoolOnlyWhenAllFull | src/modules/mp/fixed_bitmap/eina_fixed_bitmap.c:119-129 | a new pool is made only when every pool is full |
| FixedBitmap.AllocKeepsValid | src/modules/mp/fixed_bitmap/eina_fixed_bitmap.c:111-156 | `malloc` keeps the pools valid |
| FixedBitmap.TailKeepsValid | src/modules/mp/fixed_bitmap/eina_fixed_bitmap.c:152-153 | demoting a full pool to the tail keeps the pools valid |
| FixedBitmap.HeadKeepsValid | src/modules/mp/fixed_bitmap/eina_fixed_bitmap.c:198-199 | putting a pool with a free slot at the head keeps the pools valid |
| FixedBitmap.GiveBack | src/modules/mp/fixed_bitmap/eina_fixed_bitmap.c:187-199 | defines the return of a slot: the bit is set, an all-free pool is released, another is promoted to the head; `GiveBackKeepsValid` and `GiveBackUndoesTakeSlot` state its properties |
| FixedBitmap.FreeSlot | src/modules/mp/fixed_bitmap/eina_fixed_bitmap.c:158-200 | defines `eina_fixed_bitmap_free` on the pool list; `FreeGivesSlot`, `FreeKeepsValid` and `FreeUndoesAlloc` state its properties |
| FixedBitmap.RemoveKeepsValid | src/modules/mp/fixed_bitmap/eina_fixed_bitmap.c:189-197 | removing a pool keeps the others valid and separate from it |
| FixedBitmap.GiveBackKeepsValid | src/modules/mp/fixed_bitmap/eina_fixed_bitmap.c:187-199 | setting the slot's bit and then freeing or promoting the pool keeps the pools valid |
| FixedBitmap.FreeGivesSlot | src/modules/mp/fixed_bitmap/eina_fixed_bitmap.c:158-200 | `free` ignores a pointer exactly when no pool holds it; an index outside 0..31 fails the assertion and changes nothing; otherwise the slot bit is set, the pool is released exactly when that leaves it all free, and kept at the head otherwise |
| FixedBitmap.FreeKeepsValid | src/modules/mp/fixed_bitmap/eina_fixed_bitmap.c:158-200 | `free` keeps the pools valid |
| FixedBitmap.FreeUndoesAlloc | src/modules/mp/fixed_bitmap/eina_fixed_bitmap.c:111-200 | freeing the address `malloc` returned gives back the pools as they were |
| FixedBitmap.FreeAt | src/modules/mp/fixed_bitmap/eina_fixed_bitmap.c:167-199 | freeing a pointer found in pool `k` at slot `idx` gives that slot back to pool `k` |
| FixedBitmap.SlotInPool | src/modules/mp/fixed_bitmap/eina_fixed_bitmap.c:92-101 | every slot address lies in its pool's key span |
| FixedBitmap.GiveBackUndoesTakeSlot | src/modules/mp/fixed_bitmap/eina_fixed_bitmap.c:148-199 | giving back the slot just taken restores the pool, or drops it when it had been all free |
| FixedBitmap.Realloc | src/modules/mp/fixed_bitmap/eina_fixed_bitmap.c:202-208 | `realloc` always returns NULL |
| FixedBitmap.Mempool.constructor | src/modules/mp/fixed_bitmap/eina_fixed_bitmap.c:210-230 | a new pool set has the aligned item size and no pools; item sizes are below 2^26, where `item_size * 32` fits in an `int` (see Left out) |
| FixedBitmap.Mempool.Malloc | src/modules/mp/fixed_bitmap/eina_fixed_bitmap.c:111-156 | the pools and the result are what `Alloc` gives for the old pools, and the pools stay valid |
| FixedBitmap.Mempool.Free | src/modules/mp/fixed_bitmap/eina_fixed_bitmap.c:158-200 | the pools and the outcome are what `FreeSlot` gives for the old pools, and the pools stay valid |
| FixedBitmap.Mempool.Shutdown | src/modules/mp/fixed_bitmap/eina_fixed_bitmap.c:232-240 | shutdown drops every pool |
| ObjectIds.RangeCompare | src/lib/eina_object.c:177-190 | `_eina_rbtree_cmp_range` is 0 exactly for ids inside `[start, end)`, -1 below and 1 at or above `end` |
| ObjectIds.ObjectId | src/lib/eina_object.c:233-246 | the id built from a generation, a range start and an index keeps the generation in its top bits and `start + index` below them, and the intended decoding gives both back |
| ObjectIds.ObjectGet | src/lib/eina_object.c:233-246 | `_eina_object_get` is NULL exactly for a NULL item; otherwise its id carries the slot's generation and global index |
| ObjectIds.DecodeAsWritten | src/lib/eina_object.c:259-261 | as written, the logical `!` of the mask is 0, so every id decodes to generation 0; the index is the low bits |
| ObjectIds.Decode | src/lib/eina_object.c:259-261 | the intended decoding on the `_LP64` layout: the index is the low 48 bits and the generation is the 16-bit `unsigned short` above them |
| ObjectIds.AddGeneration | src/lib/eina_object.c:723-724 | `eina_object_add` bumps the 16-bit generation and skips 0 on wrap-around |
| ObjectIds.DelGeneration | src/lib/eina_object.c:323 | `_eina_object_item_del` bumps the 16-bit generation, wrapping 65535 to 0 |
| ObjectIds.FindAsWritten | src/lib/eina_object.c:262-308 | defines the written checks after the range match, indexing the pointer slots with the whole identifier; `LiveObjectRejected` and `SlotIndexAsWrittenMisses` state what it gets wrong |
| ObjectIds.FindItem | src/lib/eina_object.c:248-311 | the corrected lookup finds a slot only when it is the decoded index minus the range start, its pointer is non-NULL (the only allocation test the source makes), its class is in the hierarchy and its generation matches |
| ObjectIds.LiveObjectRejected | src/lib/eina_object.c:261-282 | with the written decoding, a live object whose generation was bumped by `eina_object_add` is rejected as a generation mismatch |
| ObjectIds.LiveObjectFound | src/lib/eina_object.c:248-311 | with the intended decoding, a live object's own id finds its slot |
| ObjectIds.StaleIdRejected | src/lib/eina_object.c:276-282 | after `_eina_object_item_del` bumps the slot's generation, the old id is rejected |
| ObjectIds.Chain | src/lib/eina_object.c:217-231 | the class chain walked by the constructor and destructor calls ends at the class, starts at a root, and holds only earlier classes |
| ObjectIds.ConstructorsRootFirst | src/lib/eina_object.c:217-223 | `_eina_object_constructor_call` runs the constructors of the chain, root first |
| ObjectIds.DestructorsReverseConstructors | src/lib/eina_object.c:217-231 | when every class has both callbacks, the destructors run in the reverse order of the constructors |
| ObjectIds.ObjectSize | src/lib/eina_object.c:541-571 | the object size fits an `unsigned int` |
| ObjectIds.ObjectSizeIsChainSum | src/lib/eina_object.c:541-571 | the object size is the sum of the class sizes along the chain, modulo 2^32 |
| ObjectIds.InHierarchyChain | src/lib/eina_object.c:284-294 | the class walk of `_eina_object_find_item` succeeds exactly when the requested class is on the matched class's chain |
| ObjectIds.SlotIndexAsWrittenMisses | src/lib/eina_object.c:296-297 | as written the pointer slot is indexed with the whole identifier minus the range start, which for any non-zero generation lies past the range, while the decoded index minus the start is the object's own slot |
| ObjectStore.BlockSize | src/lib/eina_object.c:388 | `av->end - av->start` is the block's size when the block is well formed, and always fits an `unsigned int` |
| ObjectStore.FirstOfSize | src/lib/eina_object.c:387-389 | the search stops at the first available block of exactly the pool size; every block skipped has another size |
| ObjectStore.Without | src/lib/eina_object.c:396-397 | removing the found block leaves one block fewer and adds none |
| ObjectStore.Top.constructor | src/lib/eina_object.c:557-562 | a new hierarchy top has no available blocks and an upper limit of 0 |
| ObjectStore.Top.RangeAdd | src/lib/eina_object.c:386-405 | `_eina_class_range_add` takes the first available block of the pool size, removing it from the list, or else the block at the upper limit, which it moves up with 32-bit wrap-around; identifiers stay below 2^32 and blocks stay below the limit while it does not wrap |
| ObjectStore.Top.RangeDel | src/lib/eina_object.c:410-437 | `_eina_class_range_del` prepends the block to the available list when the record can be allocated and leaves the list alone otherwise |
| ObjectStore.DelThenAddReuses | src/lib/eina_object.c:396-437 | a block just given back is the first one a range of its size reuses |
| ObjectStore.FreshBlockApart | src/lib/eina_object.c:400-405 | a block cut at the upper limit has the pool size and lies after every available block |
| ObjectStore.RangeWithRoom | src/lib/eina_object.c:345-360 | `_eina_class_empty_range_get` returns the first range with a free slot; every range before it is full |
| ObjectStore.Range.constructor | src/lib/eina_object.c:362-408 | the intended new range: its block, the given generations, no slot handed out, an empty trash and every slot free |
| ObjectStore.Range.AsWritten | src/lib/eina_object.c:362-408 | as written, `empty_count` is whatever the memory held; the range is consistent exactly when that happens to be the pool size |
| ObjectStore.Range.Add | src/lib/eina_object.c:700-726 | `eina_object_add` fails exactly on a range with no free slot; otherwise it pops the trash or takes `current`, marks that slot live, decrements the free count, bumps its generation skipping 0, and returns the slot's id |
| ObjectStore.Range.Release | src/lib/eina_object.c:322-327 | `_eina_object_item_del` bumps the slot's generation and the free count; the slot is pushed on the trash, or when every slot is free the range is reset to empty |
| ObjectStore.CountsOf | src/lib/eina_object.c:353 | the free counts of the ranges, one per range |
| ObjectStore.ClassRanges.constructor | src/lib/eina_object.c:580 | a new class has no allocated ranges |
| ObjectStore.ClassRanges.EmptyRangeGet | src/lib/eina_object.c:345-360 | the loop returns `RangeWithRoom` of the free counts |
| ObjectStore.ClassRanges.UseListed | src/lib/eina_object.c:700-726 | adding to a listed range with a free slot succeeds: the range's free count drops by one, the slot taken is the head of its trash or else its next untouched slot, that slot becomes live with its generation bumped, and the id returned is built from that generation, the range start and the slot |
| ObjectStore.ClassRanges.AddAsWritten | src/lib/eina_object.c:685-727 | as written, the list of allocated ranges never grows; a listed range with room is used, and otherwise a fresh range is made whose `empty_count` is garbage: 0 fails the add, anything else is decremented and slot 0 is handed out |
| ObjectStore.ClassRanges.NewRangeAsWritten | src/lib/eina_object.c:698-726 | a fresh range with a garbage free count: the add fails exactly when it is 0 |
| ObjectStore.ClassRanges.Add | src/lib/eina_object.c:685-727 | the intended add always succeeds and returns the id of the slot it took, built from that slot's generation and the range start: the first listed range with room is used, its free count drops by one, and a slot not live before becomes live with its generation bumped; otherwise a fresh range is appended to the list and its slot 0 handed out, leaving the pool size minus one free |
| ObjectStore.ClassRanges.NewRange | src/lib/eina_object.c:698-726 | the intended fresh range hands out slot 0 and keeps the pool size minus one free |
| ObjectStore.FirstAddDiffers | src/lib/eina_object.c:697-704 | from the same top, the first add as written can fail where the intended one succeeds, and keeps no range where the intended one keeps one |
| ObjectStore.SecondAddMissesAsWritten | src/lib/eina_object.c:697-698 | as written, a second add makes a second range although the first still has free slots |
| ObjectStore.Detached | src/lib/eina_object.c:814-816 | taking an object out of its parent's child list removes it there and leaves every other list alone |
| ObjectStore.Links.Insert | src/lib/eina_object.c:716-717 | a new object has no children and, in the model, no parent (the source leaves `parent` uninitialised; see Left out) |
| ObjectStore.Links.ParentSet | src/lib/eina_object.c:782-826 | `eina_object_parent_set` fails, changing nothing, unless both objects are live; otherwise the object leaves its old parent's list, gets the new parent and is appended to its list |
| ObjectStore.Links.Delete | src/lib/eina_object.c:313-343 | `_eina_object_item_del` deletes the object and exactly its transitive children (the set is closed under children and reached from the object); the others keep their parents and lose only deleted children from their lists |
| ObjectStore.Links.Detach | src/lib/eina_object.c:328-332 | the object leaves its parent's list and the maps; its children are returned |
| ObjectStore.Links.DeleteChild | src/lib/eina_object.c:334-340 | one recursive delete of a child extends the deleted set and keeps it reached from the object |
| ObjectStore.WalkInClosed | src/lib/eina_object.c:334-340 | everything reached from a set closed under children lies in it, so the deleted set is the least closed one |
| ObjectStore.Keep | src/lib/eina_object.c:331 | keeping the children not in a set removes exactly that set |
| ObjectStore.KeepKeep | src/lib/eina_object.c:331 | removing one set of children and then another is removing both |
| ObjectStore.RemoveIsKeep | src/lib/eina_object.c:331 | removing one child is keeping all but it |
| ObjectStore.DetachedAfter | src/lib/eina_object.c:328-332 | detaching one object is a delete of that object alone |
| ObjectStore.AfterTrans | src/lib/eina_object.c:334-340 | two deletes in a row are one delete of both sets |
| ObjectStore.Remove | src/lib/eina_object.c:331 | `eina_inlist_remove` drops the object from the list and keeps every other entry |
| FilePath.Strchr | src/lib/eina_file.c:519 | `strchr` returns the first index holding the character from `from` on, or the end; nothing before it matches |
| FilePath.LastSlashBefore | src/lib/eina_file.c:544-545 | `strrchr` on the cut buffer: the last '/' before `k`, or the buffer start; no '/' lies between |
| FilePath.EscapeNext | src/lib/eina_file.c:519-568 | one round of the escape loop keeps the loop state consistent and strictly shrinks the work left |
| FilePath.EscapeFrom | src/lib/eina_file.c:519-568 | the escape loop run to the end from a scan state never lengthens the buffer |
| FilePath.Escape | src/lib/eina_file.c:501-573 | `_eina_file_escape` returns a string no longer than the path it was given, so it fits in the duplicated buffer; what the result means is stated by `EscapeCollapsesDoubleSlash`, `EscapeDropsDotDotSegment`, `EscapeTrailingSegment`, `EscapeCanonical` and `EscapeIdentity` |
| FilePath.CollapseRound | src/lib/eina_file.c:520-525 | after a clean prefix, escaping a buffer with `//` at the scan point is escaping it with the second slash removed |
| FilePath.DropRound | src/lib/eina_file.c:526-545 | after a clean prefix, escaping a buffer with `/seg/../` at the scan point is escaping it with `/seg/..` removed |
| FilePath.EscapeCollapsesDoubleSlash | src/lib/eina_file.c:519-525 | for any canonical directory `d` and any rest `r`, escaping `d//r` gives what escaping `d/r` gives, so a doubled separator names the same path |
| FilePath.DropSegmentAfterDir | src/lib/eina_file.c:526-545 | for a canonical directory `d` not ending in '/', a name `seg` other than `..` and any rest `r`, escaping `d/seg/../r` gives what escaping `d/r` gives |
| FilePath.EscapeDropsDotDotSegment | src/lib/eina_file.c:519-545 | for any canonical directory `d`, a non-empty name `seg` without '/' other than `..`, and any rest `r`, escaping `d/seg/../r` gives what escaping `d/r` gives, so `seg/..` cancels out |
| FilePath.EscapeBuffer | src/lib/eina_file.c:501-573 | the memmove loop of `_eina_file_escape` returns `Escape` of the path for the given length slack |
| FilePath.CollapseKeepsClean | src/lib/eina_file.c:522-526 | dropping one slash of a `//` keeps the scanned prefix clean |
| FilePath.DotDotKeepsClean | src/lib/eina_file.c:532-547 | cutting a `/seg/../` keeps the prefix before the previous separator clean |
| FilePath.NextClean | src/lib/eina_file.c:519-568 | each round ends in a canonical buffer or keeps the scanned prefix free of `//`, `/../` and a trailing `/..` |
| FilePath.EscapeFromCanonical | src/lib/eina_file.c:519-568 | the loop run to the end from a clean prefix yields a canonical path |
| FilePath.EscapeCanonical | src/lib/eina_file.c:501-573 | with the exact length, the escape yields a path with no `//`, no `/../` and no trailing `/..` |
| FilePath.NextIdentity | src/lib/eina_file.c:519-568 | on a canonical buffer each round only moves the scan |
| FilePath.EscapeIdentity | src/lib/eina_file.c:501-573 | escaping a canonical path returns it unchanged, whatever the slack |
| FilePath.EscapeFromKeepsRoot | src/lib/eina_file.c:519-568 | a buffer starting with '/' keeps it through the loop |
| FilePath.EscapeKeepsRoot | src/lib/eina_file.c:501-573 | escaping an absolute path yields an absolute path |
| FilePath.SanitizeAsWritten | src/lib/eina_file.c:690-717 | `eina_file_path_sanitize` as written gives NULL exactly for a NULL path or a relative path without a working directory, and agrees with the corrected sanitize on absolute paths |
| FilePath.Sanitize | src/lib/eina_file.c:690-717 | the corrected sanitize is NULL exactly for a NULL path, or a relative one when `getcwd` fails; its result is canonical and absolute whenever the path or the working directory is |
| FilePath.SanitizeIdempotent | src/lib/eina_file.c:690-717 | sanitizing an absolute sanitized path again changes nothing |
| FilePath.EscapeWalksPrefix | src/lib/eina_file.c:519-568 | the loop passes over a canonical directory prefix unchanged |
| FilePath.NextAtTrailing | src/lib/eina_file.c:550-556 | a trailing `/seg/..` cuts the buffer after the previous separator plus the slack |
| FilePath.EscapeTrailingSegment | src/lib/eina_file.c:550-556 | escaping `dir/seg/..` gives `dir/` followed by the first `slack` characters of `seg` |
| FilePath.SanitizeAsWrittenKeepsSegmentChar | src/lib/eina_file.c:708-716 | as written, sanitizing a relative `seg/..` keeps the first character of `seg`, because the length passed counts the terminator |
| FilePath.SanitizeDropsTrailingSegment | src/lib/eina_file.c:690-717 | the corrected sanitize of `seg/..` gives the working directory followed by '/' |
| FilePath.SanitizeAsWrittenExample | src/lib/eina_file.c:708-716 | `x/..` under `/home` sanitizes to `/home/x` as written and to `/home/` corrected |
| FilePath.SegmentsFrom | src/lib/eina_file.c:765-779 | the split loop from a scan position pushes at most one segment per remaining character |
| FilePath.Segments | src/lib/eina_file.c:751-782 | the segments `eina_file_split` pushes are all non-empty and hold no separator |
| FilePath.SegmentsClean | src/lib/eina_file.c:765-779 | every pushed segment is non-empty and holds no separator |
| FilePath.Split | src/lib/eina_file.c:751-782 | `eina_file_split` gives NULL for NULL, and otherwise exactly the non-empty segments between separators, in order |
| FilePath.SegmentsAdvance | src/lib/eina_file.c:765-776 | one loop round pushes the run before the separator when it is non-empty and the rest follows |
| FilePath.SegmentsLast | src/lib/eina_file.c:778-779 | after the last separator the non-empty tail is pushed |
| FilePath.SegmentsCons | src/lib/eina_file.c:765-779 | a non-empty separator-free run followed by a separator is the first segment |
| FilePath.SegmentsSingle | src/lib/eina_file.c:778-779 | a non-empty string without separators is one segment |
| FilePath.SplitJoin | src/lib/eina_file.c:751-782 | splitting parts joined by the separator gives back the non-empty parts, in order |
| FilePath.SegmentsConcat | src/lib/eina_file.c:751-782 | the segments concatenated are the string with every separator removed |
| FilePath.SplitExampleSimple | src/tests/eina_test_file.c:47-57 | `/this/is/a/small/test` splits into `this`, `is`, `a`, `small`, `test` |
| FilePath.SplitExampleComplex | src/tests/eina_test_file.c:65-77 | `this//is///a /more/complex///case///` splits into `this`, `is`, `a `, `more`, `complex`, `case` |
| FileLines.MemChr | src/lib/eina_file.c:1160-1161 | `memchr` returns the first index in the chunk holding the character, or the chunk's end; nothing before it matches |
| FileLines.FirstEol | src/lib/eina_file.c:1150-1176 | the end of the line from `start`: just past its first CR or LF, or the buffer end when there is none |
| FileLines.FineEol | src/lib/eina_file.c:1150-1176 | `_eina_fine_eol`, searching chunk by chunk from any first boundary, finds `FirstEol` |
| FileLines.SkipEols | src/lib/eina_file.c:1187-1194 | the skip loop stops at the first byte that is not an end-of-line character, or at the buffer end, and only counts up the line index |
| FileLines.LineLengthAsWritten | src/lib/eina_file.c:1208-1209 | defines the written length `eol - start - 1`; `LastLineLengthShort` states it is one short for a last line without terminator |
| FileLines.Advance | src/lib/eina_file.c:1178-1213 | defines one step of the line iterator on the buffer; `AdvanceStops`, `AdvanceLine` and `AdvanceProgress` state when it ends, what each line is and that lines move forward |
| FileLines.LineLength | src/lib/eina_file.c:1209 | the corrected length leaves out the terminator only when the line has one |
| FileLines.AdvanceStops | src/lib/eina_file.c:1184-1198 | the iterator ends exactly when the cursor is at the end or only end-of-line characters remain, and then the cursor is at the end |
| FileLines.AdvanceLine | src/lib/eina_file.c:1178-1213 | each line the iterator returns starts after the skipped end-of-line characters, ends at `FirstEol`, has a length covering its characters up to the terminator or the end, and raises the line index |
| FileLines.AdvanceProgress | src/lib/eina_file.c:1178-1213 | each line returned ends past the previous one |
| FileLines.LastLineLengthShort | src/lib/eina_file.c:1208-1209 | on a last line without terminator, the written length is one less than the line's characters |
| FileLines.LastLineLengthExample | src/lib/eina_file.c:1208-1209 | on `ab` the iterator returns one line of length 1 as written, where the line has 2 characters |
| FileLines.LinesIterator.constructor | src/lib/eina_file.c:1256-1262 | a new iterator starts at the map's start with index 0, length 0 and a 4096-byte boundary |
| FileLines.LinesIterator.Next | src/lib/eina_file.c:1178-1213 | the iterator moves to the cursor `Advance` gives, with the corrected length, and sets the boundary from the low 10 bits of the line's end address, 4096 when they are 0 |
| FileTypes.TypeFromDirent | src/lib/eina_file.c:309-339 | defines the `d_type` switch of the direct listing; `DirentRoundTrip`, `DirentOthersUnknown` and `DirentAgreesWithMode` state its properties |
| FileTypes.DirentRoundTrip | src/lib/eina_file.c:309-339 | every file type's `d_type` maps back to that type |
| FileTypes.DirentOthersUnknown | src/lib/eina_file.c:336-338 | any other `d_type` gives an unknown type |
| FileTypes.TypeFromMode | src/lib/eina_file.c:1452-1470 | defines the `S_IS*` chain of `eina_file_statat`; `TypeFromModeIgnoresPermissions` and `DirentAgreesWithMode` state its properties |
| FileTypes.FormatBits | src/lib/eina_file.c:1454-1467 | `mode & S_IFMT` is a multiple of 0x1000 no larger than the mask |
| FileTypes.TypeFromModeIgnoresPermissions | src/lib/eina_file.c:1452-1470 | the permission bits never change the type the `S_IS*` chain gives |
| FileTypes.DirentAgreesWithMode | src/lib/eina_file.c:309-339 | for each type a `stat` can report, the `d_type` switch and the `S_IS*` chain agree |
| FileTypes.StatAt | src/lib/eina_file.c:1428-1501 | `eina_file_statat` returns -1 when the stat fails, making the type unknown unless it was a link, and 0 otherwise, leaving a known type alone |
| FileTypes.ListedType | src/lib/eina_file.c:363-378 | the stat listing reports the `d_type` type when it is known, otherwise the type of the stat, or unknown when the stat fails |
| FileCache.TimestampCompare | src/lib/eina_file.c:470-486 | a cached file is reused exactly when its mtime, size, inode and mtime nanoseconds all equal the new stat's |
| FileCache.KeyCmpAsWritten | src/lib/eina_file.c:410-416 | defines the written key comparison in `unsigned long` returned as `int`; `KeyCmpAsWrittenCollides` shows two different windows comparing equal |
| FileCache.ToInt32 | src/lib/eina_file.c:414-415 | the conversion of the `unsigned long` difference to the `int` result lies in the 32-bit range and agrees with the value modulo 2^32 |
| FileCache.KeyCmpAsWrittenCollides | src/lib/eina_file.c:410-416 | as written, windows at offsets 0 and 4 GiB with the same length compare equal |
| FileCache.KeyCmp | src/lib/eina_file.c:410-416 | the corrected key comparison is 0 exactly for equal keys and negative exactly when the first key is lower by offset, then length |
| FileCache.OutOfRangeAsWritten | src/lib/eina_file.c:1281-1284 | defines the written range check, whose end is summed modulo 2^64; `OutOfRangeAsWrittenWraps` shows a window it wrongly accepts |
| FileCache.OutOfRange | src/lib/eina_file.c:1281-1284 | defines the intended range check; `AcceptedWindowInFile` states that an accepted window lies in the file |
| FileCache.KeyCmpAntisymmetric | src/lib/eina_file.c:410-416 | swapping the keys negates the corrected comparison |
| FileCache.OutOfRangeAsWrittenWraps | src/lib/eina_file.c:1281-1284 | as written, offset 1 with length 2^64-1 passes the range check of a 10-byte file because the sum wraps; the corrected check rejects it |
| FileCache.AcceptedWindowInFile | src/lib/eina_file.c:1281-1284 | a window the corrected check accepts lies within the file |
| FileCache.Acquire | src/lib/eina_file.c:1295-1333 | mapping a window that exists bumps its count; a new one is added with count 1 and with whatever fault bit its `malloc`ed record held, and (as intended, see Findings) is indexed by address; other windows are unchanged |
| FileCache.AcquireAsWritten | src/lib/eina_file.c:1329-1330 | as written the new window's reverse-table entry is filed under the first word of its mapped bytes (a pointer table compares dereferenced keys, src/include/eina_hash.h:352-357); the forward table is the same as intended, and everything agrees when that word is the address |
| FileCache.WindowFaulted | src/lib/eina_file.c:1401-1405 | a window address is reported faulted only when the reverse table finds it and its flag is set |
| FileCache.ReleaseAfterMapMissesAsWritten | src/lib/eina_file.c:1329-1330 | as written, freeing the window just mapped misses the reverse table unless its bytes begin with its own address, so it stays mapped with one reference, and `map_faulted` reports false for it |
| FileCache.ReleaseAfterMapExample | src/lib/eina_file.c:1289-1381 | a window mapped into an empty record and freed at once is gone with the address-keyed table and still mapped as written |
| FileCache.Release | src/lib/eina_file.c:1364-1381 | releasing an address no window has changes nothing |
| FileCache.AcquireValid | src/lib/eina_file.c:1295-1333 | acquiring a partial window keeps the forward table and the intended address-keyed reverse table consistent (the written reverse table is not; see Findings) |
| FileCache.ReleaseValid | src/lib/eina_file.c:1364-1381 | releasing keeps the forward table and the intended address-keyed reverse table consistent (see Findings) |
| FileCache.AcquireShares | src/lib/eina_file.c:1295-1333 | a second map of the same window returns the first map's address and counts one more user |
| FileCache.ReleaseAcquire | src/lib/eina_file.c:1289-1381 | with the intended address-keyed reverse table, releasing the address a map returned undoes that map; as written it does not (see Findings) |
| FileCache.GlobalAcquire | src/lib/eina_file.c:1106-1127 | mapping the whole file keeps an existing map and counts one more user; when no map can be made nothing changes |
| FileCache.GlobalRelease | src/lib/eina_file.c:1355-1363 | freeing the whole-file map counts one user less and unmaps it when none is left |
| FileCache.GlobalReleaseAcquire | src/lib/eina_file.c:1089-1131 | freeing the whole-file map just taken restores the state |
| FileCache.File.constructor | src/lib/eina_file.c:1004-1025 | a new file records its name, stat, descriptor and sharing, with no users, no maps and no faults |
| FileCache.File.MapAll | src/lib/eina_file.c:1089-1131 | `eina_file_map_all` takes the whole-file map as `GlobalAcquire` says and returns its address; nothing else changes |
| FileCache.File.MapNew | src/lib/eina_file.c:1272-1346 | `eina_file_map_new` returns NULL for an out-of-range window; the whole file goes to `MapAll`; a known window is shared, a new one is added, with the uninitialised fault bit, when allocation and mapping succeed and otherwise NULL is returned; the reverse table is keyed by address as intended |
| FileCache.File.MapFree | src/lib/eina_file.c:1348-1385 | `eina_file_map_free` releases the whole-file map when it is that address and, through the intended address-keyed reverse table, the window with that address otherwise |
| FileCache.File.MapFaulted | src/lib/eina_file.c:1387-1410 | a map is reported faulted only when it is the whole-file map or a window the intended address-keyed reverse table finds |
| FileCache.File.MarkFaulty | src/lib/eina_file.c:645-680 | one file's part of `eina_file_mmap_faulty`: a hit on the whole-file map sets its flag and leaves the windows alone; otherwise one overlapping window is marked; with no hit nothing changes |
| FileCache.File.MapLines | src/lib/eina_file.c:1231-1270 | `eina_file_map_lines` fails for an empty file or a failed allocation; otherwise it maps the whole file and, when that works, counts one more user and returns an iterator at the map's start |
| FileCache.Cache.constructor | src/lib/eina_file.c:583-606 | the cache starts empty |
| FileCache.Cache.Open | src/lib/eina_file.c:943-1048 | `eina_file_open` fails on a NULL or unsanitizable path, a failed open, fcntl or fstat; a cached file with the same stamp is shared with one more user; a stale one is marked deleted and dropped; otherwise a new file with one user is cached, or the open fails when allocation fails |
| FileCache.Cache.OpenName | src/lib/eina_file.c:960-1048 | the same outcome once the name is sanitized |
| FileCache.Cache.Evict | src/lib/eina_file.c:987-993 | a stale cached file is marked deleted and leaves the cache |
| FileCache.Cache.Insert | src/lib/eina_file.c:997-1027 | a new file joins the cache under its name with its descriptor |
| FileCache.Cache.MmapFaulty | src/lib/eina_file.c:631-684 | `eina_file_mmap_faulty` marks no file when none overlaps the page; otherwise one overlapping file, whose whole-file flag is set on a whole-file hit and otherwise one overlapping window; every other file is unchanged |
| FileCache.Cache.RealClose | src/lib/eina_file.c:381-395 | `_eina_file_real_close` does nothing while the file has users; otherwise it drops its maps and its descriptor |
| FileCache.Cache.Close | src/lib/eina_file.c:1050-1066 | `eina_file_close` counts one user less, and when none is left releases the file and removes it from the cache if it is the cached one |
| FileWin32.Backslashed | src/lib/eina_file_win32.c:158-169 | defines the string with every '/' turned into a backslash; `BackslashedClean`, `BackslashedIdempotent` and `BackslashedConcat` state its properties |
| FileWin32.BackslashedClean | src/lib/eina_file_win32.c:158-169 | after the change no '/' is left and every other character is kept |
| FileWin32.BackslashedIdempotent | src/lib/eina_file_win32.c:158-169 | changing the separators twice is changing them once |
| FileWin32.BackslashedConcat | src/lib/eina_file_win32.c:158-169 | the change works character by character, so it distributes over concatenation |
| FileWin32.BackslashChange | src/lib/eina_file_win32.c:158-169 | the loop turns every '/' before the terminator into a backslash and leaves the terminator and what follows it alone |
| FileWin32.DirNew | src/lib/eina_file_win32.c:200-217 | `_eina_file_win32_dir_new` fails exactly when allocation fails; otherwise it returns the directory with backslashes followed by the `\\*.*` pattern, and no '/' |
| FileWin32.StrchrBackslashed | src/lib/eina_file_win32.c:743-745 | after the change, searching for a backslash finds what searching for '/' found before |
| FileWin32.SegmentsFromBackslashed | src/lib/eina_file_win32.c:743-757 | the Win32 split of a backslashed path yields the POSIX split's segments from any start |
| FileWin32.SplitBackslashed | src/lib/eina_file_win32.c:729-760 | splitting a path on backslashes after the change gives the segments the POSIX split gives on '/' |
| FileWin32.SanitizeAsWritten | src/lib/eina_file_win32.c:625-662 | defines the written sanitize with both `GetCurrentDirectory` results as parameters; `SanitizeAsWrittenIgnoresCwd` and `SanitizeAgreesWithoutCwd` state its results |
| FileWin32.SanitizeAsWrittenIgnoresCwd | src/lib/eina_file_win32.c:640-661 | as written, the joined path is never used: `GetCurrentDirectory` returns one less than the size it first asked for, so the result is that of an absolute path |
| FileWin32.Sanitize | src/lib/eina_file_win32.c:625-662 | the corrected sanitize is NULL exactly for a NULL path or one shorter than 3 characters, and otherwise canonical |
| FileWin32.SanitizeAgreesWithoutCwd | src/lib/eina_file_win32.c:625-662 | for an absolute path, or when the working directory cannot be read, the written and the corrected sanitize agree |
| FileWin32.SanitizeIdempotent | src/lib/eina_file_win32.c:625-662 | sanitizing an absolute sanitized path again changes nothing |
| FileWin32.SanitizeDropsTrailingSegment | src/lib/eina_file_win32.c:636-661 | the corrected sanitize of a relative `seg/..` gives the working directory followed by '/' |
| FileWin32.SanitizeAsWrittenExample | src/lib/eina_file_win32.c:636-661 | `abc` under `C:\\w` sanitizes to `abc` as written and to `C:\\w/abc` corrected |
| FileWin32.CacheDecisionAsWritten | src/lib/eina_file_win32.c:925-933 | defines the written cache test; `CacheDecisionAsWrittenInverted` states it is the reverse of the intended one |
| FileWin32.CacheDecisionAsWrittenInverted | src/lib/eina_file_win32.c:925-933 | as written, a cached file with a different stamp is reused and one with the same stamp is replaced |
| FileWin32.CacheDecision | src/lib/eina_file_win32.c:925-970 | the corrected decision reuses a cached file exactly when its stamp is unchanged and creates one exactly when none is cached |
| FileWin32.OutOfRangeAsWritten | src/lib/eina_file_win32.c:1065-1068 | defines the written range check in 32-bit `unsigned long`; `OutOfRangeAsWrittenWraps` shows a window it wrongly accepts |
| FileWin32.OutOfRangeAsWrittenWraps | src/lib/eina_file_win32.c:1065-1068 | with a 32-bit `unsigned long`, offset 5 and length 2^32-1 pass the range check of a 10-byte file; the corrected check rejects them |
| FileWin32.ViewOffsetAsWritten | src/lib/eina_file_win32.c:1086-1089 | defines the file offset `MapViewOfFile` is asked for as written; `ViewOffsetAsWrittenWrong` shows it differs from the offset |
| FileWin32.ViewOffsetAsWrittenWrong | src/lib/eina_file_win32.c:1086-1089 | as written, offset 0x10000 is passed as the high word, so the view starts at 2^48 |
| FileWin32.ViewWords | src/lib/eina_file_win32.c:1086-1089 | the intended high and low words: the low word is below 2^32 and the two recombine to the offset |
| FileWin32.WinFile.constructor | src/lib/eina_file_win32.c:944-961 | a new Win32 file has its length, no whole-file map and no windows |
| FileWin32.WinFile.MapNew | src/lib/eina_file_win32.c:1056-1114 | the Win32 `eina_file_map_new` follows the POSIX one; a new partial window with a successful allocation asks for a view at exactly the offset; the record has no fault bit and the reverse table is keyed by address as intended |
| FileWin32.WinFile.MapFree | src/lib/eina_file_win32.c:1116-1153 | the Win32 `eina_file_map_free` releases the whole-file map when it is that address and, through the intended address-keyed reverse table, the window with that address otherwise |
| Str.CStrOfTerminated | src/lib/eina_str.c:91 | a C string followed by its NUL reads back as itself whatever bytes follow |
| Str.StrlcpyBuf | src/lib/eina_str.c:180-210 | defines the destination after `eina_strlcpy`; `Strlcpy` and `StrlcpyContents` state what it holds |
| Str.Strlcpy | src/lib/eina_str.c:180-210 | returns the full length of `src` and leaves `dst` as `StrlcpyBuf`: at most `siz - 1` bytes copied, NUL-terminated when `siz > 0`, untouched when `siz == 0` |
| Str.StrlcpyContents | src/lib/eina_str.c:190-206 | for `siz > 0` the destination reads as the longest prefix of `src` that fits in `siz - 1` bytes, and it is shorter than `src` exactly when `|src| >= siz` (truncation is detectable from the return value) |
| Str.NulWithin | src/lib/eina_str.c:221-223 | the scan for the end of `dst` stops at the first NUL before `siz`, or at `siz` when none; nothing before it is NUL |
| Str.StrlcatBuf | src/lib/eina_str.c:212-241 | defines the destination after `eina_strlcat`; `Strlcat`, `StrlcatContents` and `StrlcatFull` state what it holds |
| Str.Strlcat | src/lib/eina_str.c:212-241 | returns the initial length of `dst` bounded by `siz` plus the length of `src`, and leaves `dst` as `StrlcatBuf` |
| Str.AppendAt | src/lib/eina_str.c:229-238 | the append loop copies as much of `src` as fits before the last byte, writes the NUL, and counts all of `src` |
| Str.StrlcatContents | src/lib/eina_str.c:212-241 | when `dst` holds a NUL within `siz`, the result reads as the old string followed by the longest prefix of `src` that fits, never longer than `siz - 1` |
| Str.StrlcatFull | src/lib/eina_str.c:226-227 | when no NUL lies within the first `siz` bytes, the buffer is left unchanged |
| Str.StrlenBounded | src/include/eina_str.h:319-333 | the length when it is at most `maxlen`, and the `(size_t)-1` case (None) exactly when it is longer |
| Str.StrnEq | src/lib/eina_str.c:254 | `strncmp(...) == 0` holds exactly when the first `n` bytes agree |
| Str.HasPrefix | src/lib/eina_str.c:243-255 | true exactly when `prefix` is a prefix of `str`, case-sensitively |
| Str.CaseMapsAgree | src/lib/eina_str.c:442-462 | the byte case maps are idempotent and each undoes the other's effect on the folded form |
| Str.StrEq | src/lib/eina_str.c:65 | the comparison `strcmp` (case-sensitive) or `strcasecmp` (case-folded) is zero exactly when the strings are equal, respectively equal after folding |
| Str.HasSuffixWith | src/lib/eina_str.c:51-66 | false for a missing string or suffix and for a suffix longer than the string; otherwise the comparison of the tail with the suffix |
| Str.HasSuffix | src/lib/eina_str.c:257-261 | true exactly when both are present and `suffix` equals the tail of `str` of its length |
| Str.HasExtension | src/lib/eina_str.c:263-267 | true exactly when both are present and the tail of `str` equals `ext` ignoring case |
| Str.SuffixIsExtension | src/lib/eina_str.c:257-267 | every suffix is also an extension |
| Str.PrefixSuffixExamples | src/tests/eina_test_str.c:32-77 | the prefix, suffix and extension cases checked by the library's tests, including the case-sensitive rejections |
| Str.Pieces | src/lib/eina_str.c:88-107 | splitting yields at least one piece, and no more than `budget + 1` when the budget is limited |
| Str.Join | src/lib/eina_str.c:132-160 | defines pieces joined by the delimiter, the inverse the split is checked against; `JoinPieces` and `SplitFullProperties` state the round trip |
| Str.JoinPieces | src/lib/eina_str.c:132-160 | joining the pieces with the delimiter gives back the original string, for any token limit |
| Str.PiecesAvoidDelim | src/lib/eina_str.c:91-107 | with no limit, no piece contains the delimiter |
| Str.PiecePrefixOfRest | src/lib/eina_str.c:134 | the first piece is a prefix of the input |
| Str.SplitAsWritten | src/lib/eina_str.c:68-166 | defines the written split, whose copy loop ignores the token cap; `SplitAsWrittenOverruns` and `SplitAsWrittenUnlimited` state its results |
| Str.SplitAsWrittenOverruns | src/lib/eina_str.c:110-160 | as written, "a:b:c" split on ":" with at most one token writes past the token array sized for the capped count |
| Str.SplitAsWrittenUnlimited | src/lib/eina_str.c:110-160 | as written, with no token limit the split agrees with `Pieces` |
| Str.SplitFull | src/lib/eina_str.c:68-166 | NULL with `elements == 0` for an empty delimiter or a failed allocation; otherwise the pieces under the token limit, with `elements` their count |
| Str.SplitFullProperties | src/lib/eina_str.c:269-283 | the pieces of `eina_str_split_full` join back to the input, and there are at most `max_tokens` when it is positive |
| Str.SplitExamples | src/tests/eina_test_str.c:131-170 | the library's split cases: "a:b:" gives "a","b","", ":" gives two empty pieces, "aaba" on "ab" gives "a","a" |
| Str.JoinLen | src/lib/eina_str.c:285-329 | returns `a_len + b_len + 1` always; `size == 0` writes nothing; otherwise `dst` holds the longest prefix of `a`, `sep`, `b` that fits in `size - 1` bytes, then a NUL, and the rest of the buffer is unchanged |
| Str.UnescapeEscaped | src/lib/eina_str.c:428-437 | escaping loses nothing: removing the added backslashes gives back the input |
| Str.Escaped | src/lib/eina_str.c:418-440 | the escaped form is at most twice as long as the input; `Escape` and `EscapedAppend` state its contents |
| Str.Escape | src/lib/eina_str.c:418-440 | NULL when the allocation fails; otherwise the input with a backslash before each space, backslash and quote, no more than twice as long |
| Str.EscapedAppend | src/lib/eina_str.c:428-437 | escaping one more byte appends its escape and leaves the earlier output unchanged |
| Str.MapCase | src/lib/eina_str.c:442-462 | a NULL pointer is left alone; otherwise every byte before the NUL is lower- or upper-cased and the NUL and everything after it are unchanged |
| Str.ToLower | src/lib/eina_str.c:442-451 | defines the C-locale `tolower` of one character; `LowerIdempotent` states the string mapping is idempotent |
| Str.ToUpper | src/lib/eina_str.c:453-462 | defines the C-locale `toupper` of one character, applied by `eina_str_toupper` to every character |
| Str.LowerIdempotent | src/lib/eina_str.c:442-451 | lower-casing a string twice is the same as once |
| Counter.Diff | src/lib/eina_counter.c:331-336 | defines the experiment time `(end.sec - start.sec) * 10^9 + end.nsec - start.nsec`; `DiffIsElapsed` states it is the end time minus the start time |
| Counter.DiffIsElapsed | src/lib/eina_counter.c:331-336 | the experiment time printed is the end time minus the start time, in nanoseconds |
| Counter.DumpText | src/lib/eina_counter.c:305-362 | defines the dump when no reallocation fails: the header and one line per stopped clock, oldest first; `DumpStep`, `DumpEmpty` and `DumpOutcomeAllOk` state its properties |
| Counter.DumpStep | src/lib/eina_counter.c:321-359 | the dump walks the clocks oldest first: a stopped clock adds its line after the older ones, a running clock adds nothing |
| Counter.DumpEmpty | src/lib/eina_counter.c:314-319 | with no clocks the dump is the header line alone |
| Counter.LinesStep | src/lib/eina_counter.c:321-328 | the newest clock's line comes last, and only when it is stopped |
| Counter.Append | src/lib/eina_counter.c:119-157 | defines what `_eina_counter_asiprintf` leaves for each pattern of reallocation outcomes; `AppendGrowsUntilFits` and `DumpHeaderCut` state its results |
| Counter.AppendGrowsUntilFits | src/lib/eina_counter.c:119-157 | when the reallocations succeed, the buffer ends up holding the earlier text followed by the new text, after one reallocation for a short text and two for one of 32 bytes or more |
| Counter.AsIPrintf | src/lib/eina_counter.c:119-157 | the growing `vsnprintf` loop returns exactly the buffer and reallocation count described by `Append`, including keeping the old buffer when a reallocation fails |
| Counter.StopTouchesOnlyNewest | src/lib/eina_counter.c:295-302 | stopping changes only the newest clock, and only when it is still running: it records the end time and specimen and marks it valid |
| Counter.StartedNotDumped | src/lib/eina_counter.c:279-282 | a clock just started is not valid and adds nothing to the dump |
| Counter.StartStopDumpsLast | src/lib/eina_counter.c:261-359 | start then stop adds exactly one line, for that measurement, at the end of the dump |
| Counter.StopTwiceNoEffect | src/lib/eina_counter.c:297-298 | a second stop without a start changes nothing |
| Counter.Counter.constructor | src/lib/eina_counter.c:233-240 | a new counter holds the given name and no clocks |
| Counter.Counter.New | src/lib/eina_counter.c:221-243 | NULL for a NULL name or a failed allocation; otherwise a fresh counter holding a copy of the name and no clocks |
| Counter.Counter.Free | src/lib/eina_counter.c:245-259 | every clock is released |
| Counter.Counter.Start | src/lib/eina_counter.c:261-283 | when the clock read or the allocation fails nothing changes; otherwise a running clock with the start time is prepended |
| Counter.Counter.Stop | src/lib/eina_counter.c:285-303 | when the clock read fails nothing changes; otherwise the clocks become `Stopped` of the old ones |
| Counter.Counter.Dump | src/lib/eina_counter.c:305-362 | the loop returns `DumpOutcome` for every pattern of reallocation outcomes: NULL exactly when the first reallocation fails; when every reallocation succeeds, the header followed by one line per stopped clock, oldest first |
| Counter.AppendClock | src/lib/eina_counter.c:327-356 | a running clock appends nothing; a stopped clock's append never loses an existing buffer |
| Counter.AppendLines | src/lib/eina_counter.c:321-359 | the reverse walk over the clocks appends oldest first and never loses an existing buffer, whichever reallocations fail |
| Counter.DumpOutcome | src/lib/eina_counter.c:305-362 | the dump is NULL exactly when the header's first reallocation fails; otherwise the text of the buffer the appends leave, a failed append keeping the buffer it was given |
| Counter.AppendClockAllOk | src/lib/eina_counter.c:119-157 | with every reallocation succeeding, appending a clock adds exactly its line when it is stopped |
| Counter.AppendLinesAllOk | src/lib/eina_counter.c:321-359 | with every reallocation succeeding, the appends add exactly the stopped clocks' lines, oldest first, after the existing text |
| Counter.DumpOutcomeAllOk | src/lib/eina_counter.c:305-362 | with every reallocation succeeding, the dump is the header and one line per stopped clock |
| Counter.DumpHeaderCut | src/lib/eina_counter.c:143-152 | when the header's second reallocation fails, the dump of no clocks is the first 31 characters of the header |
| LogDomains.Grown | src/lib/eina_log.c:1099-1104 | the domain table grows strictly: to 24 slots the first time, then by 8, so capacities stay of the form 24 + 8k |
| LogDomains.FreeFrom | src/lib/eina_log.c:1084-1092 | the slot search returns the first deleted slot, or the count when there is none |
| LogDomains.LiveFrom | src/lib/eina_log.c:1643-1654 | the name lookup returns the first live domain with that name, skipping deleted slots, or the count when there is none |
| LogDomains.NamedFrom | src/lib/eina_log.c:1656-1664 | the pending-list lookup returns the first entry with that name, or the list length |
| LogDomains.MatchFrom | src/lib/eina_log.c:1139-1146 | the glob search returns the first pattern that matches the name, or the list length |
| LogDomains.Placed | src/lib/eina_log.c:1118-1120 | registering writes the new live domain into the chosen slot, appending when the slot is the count, and leaves every other slot as it was |
| LogDomains.Unregistered | src/lib/eina_log.c:1200-1211 | unregistering keeps the table length and names, changes no other slot, and makes the domain's registered level unknown; an out-of-range index changes nothing |
| LogDomains.FreeSlot | src/lib/eina_log.c:1084-1120 | defines the slot a registration takes, the lowest deleted one or the end of the table; the registration lemmas state its use |
| LogDomains.StartLevel | src/lib/eina_log.c:1125-1151 | defines the starting level: exact pending entry, else the first matching glob, else the global level; `RegisterThenGet` relates it to the level reported later |
| LogDomains.LevelOf | src/lib/eina_log.c:1678-1714 | defines `eina_log_domain_level_get`: registered, then pending, then glob, then global; `RegisterThenGet` states it after a registration |
| LogDomains.RegisteredLevel | src/lib/eina_log.c:1716-1725 | the level of a live domain; `EINA_LOG_LEVEL_UNKNOWN` for a negative, out-of-range or deleted index |
| LogDomains.Consumed | src/lib/eina_log.c:1125-1135 | registration removes the first pending entry with the domain's name, and only that one; nothing when there is none |
| LogDomains.PrintOutcome | src/lib/eina_log.c:1213-1295 | a message is printed exactly when the domain is live and the level is at most the domain's level, and then aborts exactly when abort-on-critical is set and the level is at most the abort level; an unknown domain aborts exactly when abort-on-critical is set; a dropped message is above the registered level |
| LogDomains.Log.constructor | src/lib/eina_log.c:1321-1378 | the initial state: no domains, no pending levels or globs, the global level, the abort settings as given, and file and function prefixes enabled |
| LogDomains.Log.FreeSlotIndex | src/lib/eina_log.c:1084-1092 | the loop finds the first deleted slot (`FreeSlot`) |
| LogDomains.Log.LiveIndex | src/lib/eina_log.c:1643-1654 | the loop finds `LiveFrom` |
| LogDomains.Log.PendingIndex | src/lib/eina_log.c:1656-1664 | the loop finds `NamedFrom` on the pending list |
| LogDomains.Log.GlobIndex | src/lib/eina_log.c:1139-1146 | the loop finds `MatchFrom` on the glob list |
| LogDomains.Log.Register | src/lib/eina_log.c:1077-1154 | -1 exactly when no slot is free, the table is full and it cannot grow, and then nothing changes; otherwise the index is the first deleted slot or the count, the domain is placed there with its level taken from the pending list, else the globs, else the global level, that pending entry is consumed and the capacity grows only when the table was full |
| LogDomains.Log.StartLevelOf | src/lib/eina_log.c:1123-1151 | the starting level of a new domain: the first pending entry with its name, else the first matching glob, else the global level |
| LogDomains.Log.Unregister | src/lib/eina_log.c:1623-1630 | the table becomes `Unregistered` of the old one |
| LogDomains.Log.LevelSet | src/lib/eina_log.c:1632-1675 | a live domain of that name gets the level; otherwise the existing pending entry does; otherwise a new pending entry is appended when the allocation succeeds |
| LogDomains.Log.LevelGet | src/lib/eina_log.c:1677-1714 | the level of the live domain of that name, else of its pending entry, else of the first matching glob, else the global level |
| LogDomains.Log.ParsePendings | src/lib/eina_log.c:985-1029 | an unset variable changes nothing; otherwise the parsed `name:level` entries are appended to the pending list in order |
| LogDomains.Log.ParseGlobs | src/lib/eina_log.c:1031-1075 | an unset variable changes nothing; otherwise the parsed entries are appended to the glob list in order |
| LogDomains.Log.PrefixUpdate | src/lib/eina_log.c:843-852 | file and function prefixes are never both disabled afterwards: when both were, only the function stays disabled |
| LogDomains.SetThenGet | src/lib/eina_log.c:1632-1714 | after a successful level set, getting the level of that name returns it |
| LogDomains.SetLeavesOthers | src/lib/eina_log.c:1632-1714 | setting one name's level does not change the level reported for any other name |
| LogDomains.SetThenRegister | src/lib/eina_log.c:1125-1135 | a level set before the domain exists is the level it starts with once registered |
| LogDomains.RegisterThenGet | src/lib/eina_log.c:1077-1154 | a registered domain is found by its name, reports the level it was registered with, and so does its index |
| LogDomains.UnregisterThenReuse | src/lib/eina_log.c:1084-1092 | the slot of an unregistered domain is the one the next registration reuses |
| LogDomains.SetSetRegister | src/tests/eina_test_log.c:172-182 | setting a not-yet-registered domain to -123 and then 890 reports -123, then registers it at 890 |
| LogFormat.ToInt32 | src/lib/eina_log.c:1018 | the `long` level stored into the `int` field is a 32-bit value, unchanged when it already fits |
| LogFormat.ToInt32Congruent | src/lib/eina_log.c:1018 | the narrowing keeps the value modulo 2^32 |
| LogFormat.DigitsRoundTrip | src/lib/eina_log.c:332 | the decimal digits printed for a number read back as that number |
| LogFormat.DigitsLength | src/lib/eina_log.c:332 | the number of digits is 1, 2, 3 or more exactly for numbers below 10, 100, 1000 and from 1000 |
| LogFormat.Format03d | src/lib/eina_log.c:332 | `snprintf(buf, 4, "%03d", ...)` always gives three characters |
| LogFormat.LevelName | src/lib/eina_log.c:322-342 | a level name is always three characters: the fixed name for a known level, otherwise the truncated `%03d` text |
| LogFormat.LevelNameReadsBack | src/lib/eina_log.c:335-338 | a level from `EINA_LOG_LEVELS` up to 999 is printed as three digits that read back as the level |
| LogFormat.NegativeLevelName | src/lib/eina_log.c:330-333 | a level from -99 to -1 is printed as a minus sign and two digits giving its magnitude |
| LogFormat.LevelNameExamples | src/lib/eina_log.c:322-342 | CRI and DBG for the named levels, "005", "012", "369", and "-01", "-48" for negative levels |
| LogFormat.TermColorSupported | src/lib/eina_log.c:1156-1198 | defines the switch on the first character and the tail comparison; `TermColorExactly` states the exact list of accepted names |
| LogFormat.TermColorExactly | src/lib/eina_log.c:1156-1198 | the colour check accepts exactly xterm, xterm-color, Eterm, aterm, kterm, rxvt, rxvt-unicode, screen, gnome and interix |
| LogFormat.StemThenExactly | src/lib/eina_log.c:1172-1174 | the prefix-then-tail test accepts exactly the stem alone or the stem followed by the suffix |
| LogFormat.Find | src/lib/eina_log.c:1001 | `strchr` finds the first occurrence at or after the start, or the end |
| LogFormat.ClampLong | src/lib/eina_log.c:1006 | `strtol` saturates to the `long` range and leaves values in range unchanged |
| LogFormat.Strtol | src/lib/eina_log.c:1006 | the parse returns a `long`-range value and an end position inside the text, never before the start |
| LogFormat.ScanItem | src/lib/eina_log.c:1001-1007 | one item's colon, level end and following comma are found in order inside the text |
| LogFormat.RoundOf | src/lib/eina_log.c:994-1028 | one round of the parse loop yields at most one entry, only when its allocation succeeds and with a 32-bit level, and otherwise either stops or moves forward |
| LogFormat.ParseRound | src/lib/eina_log.c:994-1028 | the loop body computes exactly `RoundAt` |
| LogFormat.ParseFrom | src/lib/eina_log.c:985-1029 | defines the entries the parse loop appends from one item on; `ParseLevels`, `ParseRender` and `ParseSkipsBadLevel` state its results |
| LogFormat.ParseLevels | src/lib/eina_log.c:985-1029 | an unset variable yields nothing; otherwise the entries are exactly `ParseFrom` of the text |
| LogFormat.ParseRender | src/lib/eina_log.c:985-1029 | rendering plain `name:level` entries joined by commas and parsing them back gives the same entries |
| LogFormat.ParseItem | src/lib/eina_log.c:994-1028 | one `name:level` item followed by the end or a comma yields exactly that entry, and parsing goes on after the comma |
| LogFormat.ParseSkipsBadLevel | src/lib/eina_log.c:1005-1008 | an item whose level is not a number is skipped and parsing goes on: "a:x,b:2" yields only b at 2 |
| MainInit.Run | src/lib/eina_main.c:225-311 | defines the replay of a call trace that fails on an out-of-order call; `RunConcat`, `RunInits`, `RunShutdowns` and `RunTeardown` state its properties |
| MainInit.RunConcat | src/lib/eina_main.c:225-311 | running two call sequences one after the other is running their concatenation, and a failing step stops the run |
| MainInit.Inits | src/lib/eina_main.c:274-284 | the module initialisers are called in table order |
| MainInit.Shutdowns | src/lib/eina_main.c:195-199 | the module shutdowns are called in reverse table order, from the last one initialised |
| MainInit.FirstFailure | src/lib/eina_main.c:276-284 | the initialisation loop stops at the first module whose init fails, and every earlier one succeeded |
| MainInit.FirstFailureIs | src/lib/eina_main.c:276-284 | any index before which every module succeeded and at which one fails is the stopping point |
| MainInit.RunInits | src/lib/eina_main.c:274-284 | with logging and the domain up, initialising the first k modules leaves k modules up |
| MainInit.RunShutdowns | src/lib/eina_main.c:195-199 | shutting down from module k back to the first leaves no module up |
| MainInit.Teardown | src/lib/eina_main.c:192-204 | defines the calls of `_eina_shutdown_from_desc`: the modules started in reverse, then the domain and the log; `Shutdowns` and `RunTeardown` state their order and effect |
| MainInit.RunTeardown | src/lib/eina_main.c:192-204 | the teardown from k modules leaves everything down: modules, the domain and logging |
| MainInit.BringUp | src/lib/eina_main.c:233-287 | defines the calls of a first `eina_init`, up to the first failure and its rollback; `BringUpNests` states it brings everything up or leaves everything down |
| MainInit.BringUpNests | src/lib/eina_main.c:225-288 | a first `eina_init` either brings logging, the domain and every module up, or, when any step fails, leaves everything down again, each shutdown matching an earlier init |
| MainInit.TeardownNests | src/lib/eina_main.c:290-311 | the full teardown undoes a full bring-up |
| MainInit.Library.constructor | src/lib/eina_main.c:225-230 | the library starts uninitialised: both counts zero, threads not activated, no domain, no calls |
| MainInit.Library.ShutdownFromDesc | src/lib/eina_main.c:192-204 | the calls made are the teardown from that module, the domain is reset to -1 and the counts are unchanged |
| MainInit.Library.Init | src/lib/eina_main.c:225-288 | a nested call only increments the count; a first call makes the bring-up calls and returns 1 with the count 1 and the domain recorded when every step succeeds, or returns 0 with the count unchanged when one fails |
| MainInit.Library.FirstInit | src/lib/eina_main.c:233-287 | the first initialisation makes exactly the bring-up calls and reports success or failure as above |
| MainInit.Library.Shutdown | src/lib/eina_main.c:290-311 | the count drops by one and is returned; when it reaches zero the full teardown runs and the domain is reset |
| MainInit.Library.ThreadsInit | src/lib/eina_main.c:314-338 | the thread count rises by one and is returned; the thread setup runs only on the first call, and threads are activated |
| MainInit.Library.ThreadsShutdown | src/lib/eina_main.c:340-382 | the thread count drops by one and is returned; the thread teardown runs and threads are deactivated only when it reaches zero |
| ModelTypes.Chain | src/lib/eina_model.c:4878-4882 | the parent chain starts at the type itself and holds only registered types |
| ModelTypes.FindOffset | src/lib/eina_model.c:1076-1085 | defines `_eina_model_type_find_offset`; `FindOffsetIsFirst`, `FindOffsetNone` and `FindOffsetAt` state that it is the first non-NULL slot on the chain |
| ModelTypes.FindOffsetIsFirst | src/lib/eina_model.c:1076-1085 | the method found for a slot is that of the first type on the parent chain that sets it, and NULL exactly when no type on the chain sets it |
| ModelTypes.ChainCons | src/lib/eina_model.c:1083-1084 | the chain of a type is the type followed by its parent's chain, and a root type's chain is the type alone |
| ModelTypes.FindOffsetNone | src/lib/eina_model.c:1082-1084 | the lookup gives NULL exactly when every type on the chain leaves the slot NULL |
| ModelTypes.FindOffsetAt | src/lib/eina_model.c:1082-1084 | a slot found is the slot of a chain type that every more derived type leaves NULL |
| ModelTypes.FindExtension | src/lib/eina_model.c:460-490 | defines the first non-NULL extension pointer from the type towards the root, stopping at a type without extension |
| ModelTypes.TypeOk | src/lib/eina_model.c:378-457 | defines the per-type checks of `type_fill`: version, name, a size at least the type header's and at most the most derived type's, and a root that is the base type |
| ModelTypes.InstanceCheck | src/lib/eina_model.c:3564-3577 | defines `_eina_model_instance_check` as membership of the description's cached type list |
| ModelTypes.SubclassCheck | src/lib/eina_model.c:4871-4885 | a type is a subclass of another exactly when the other is on its parent chain |
| ModelIfaces.IfaceOk | src/lib/eina_model.c:666-680 | defines the checks validate-and-count makes on one interface; `ValidateCountsPopulate` states when they fail |
| ModelIfaces.Links | src/lib/eina_model.c:517 | the interfaces an interface lists are all registered before it |
| ModelIfaces.Populate | src/lib/eina_model.c:693-705 | populate writes the interface first, then only it and interfaces below it |
| ModelIfaces.PopulateFrom | src/lib/eina_model.c:699-704 | the populate loop over the links writes only interfaces below the one being populated |
| ModelIfaces.ValidateCountsPopulate | src/lib/eina_model.c:665-691 | validate-and-count fails exactly when an interface populate would write has a wrong version or no name, and otherwise counts exactly the entries populate writes |
| ModelIfaces.ValidateCount | src/lib/eina_model.c:666-691 | defines validate-and-count; `ValidateCountsPopulate` states it counts what populate writes and fails exactly on a bad interface |
| ModelIfaces.ValidateFrom | src/lib/eina_model.c:681-687 | defines its loop over the links; `ValidateFromCountsPopulate` states the same from any position |
| ModelIfaces.ValidateFromCountsPopulate | src/lib/eina_model.c:681-687 | the same for the loop over the links from any position |
| ModelIfaces.ImplementsIsReachable | src/lib/eina_model.c:506-522 | an interface implements a query exactly when the query is among the entries populate writes for it |
| ModelIfaces.ImplementsFromIsReachable | src/lib/eina_model.c:517-519 | the same for the loop over the links from any position |
| ModelIfaces.Implements | src/lib/eina_model.c:506-522 | defines `_eina_model_interface_implements`; `ImplementsIsReachable` and `ImplementsOnlyEarlier` state what it accepts |
| ModelIfaces.ImplementsFrom | src/lib/eina_model.c:517-519 | defines its loop over the links; `ImplementsFromIsReachable` states what it accepts |
| ModelIfaces.ImplementsOnlyEarlier | src/lib/eina_model.c:506-522 | an interface implements only itself and interfaces registered before it, so the relation has no cycle |
| ModelIfacesFix.Dedup | src/lib/eina_model.c:561-578 | the node list holds every interface of the cache, once each |
| ModelIfacesFix.UsersZero | src/lib/eina_model.c:593-604 | a node has no users left exactly when every node implementing it has been output |
| ModelIfacesFix.UsersAfterOutput | src/lib/eina_model.c:624-627 | outputting a node takes exactly one user off each node it implements |
| ModelIfacesFix.DepsAre | src/lib/eina_model.c:580-592 | a node's dependency list holds each other node it implements, once |
| ModelIfacesFix.BuildGraph | src/lib/eina_model.c:580-592 | the nested loops give every node its number of implementers and its dependency list |
| ModelIfacesFix.CountUsers | src/lib/eina_model.c:582-591 | one pass of the inner loop sets node i's user count and appends i to the dependency list of every node implementing it |
| ModelIfacesFix.RemoveSwap | src/lib/eina_model.c:633-642 | removing a node from the pending array by moving the last one into its place keeps the others, each once |
| ModelIfacesFix.Release | src/lib/eina_model.c:624-643 | releasing a root's dependencies keeps every node either output, a root or pending, roots with no users left and pending nodes with some, and each user count equal to the implementers not yet output |
| ModelIfacesFix.Drop | src/lib/eina_model.c:626-642 | one dependency loses a user and moves from pending to the roots when it has none left, keeping the same invariant |
| ModelIfacesFix.Ids | src/lib/eina_model.c:621 | the output order read as interfaces |
| ModelIfacesFix.InitialRoots | src/lib/eina_model.c:593-605 | nodes without users start as roots and the others as pending |
| ModelIfacesFix.PopRoot | src/lib/eina_model.c:609-644 | one round outputs a root, keeps the Kahn invariant and strictly decreases the roots plus twice the pending nodes |
| ModelIfacesFix.TopologicalSnoc | src/lib/eina_model.c:618-622 | a node whose implementers are all output may be output next |
| ModelIfacesFix.StuckPending | src/lib/eina_model.c:646-651 | when the roots run out with nodes pending, each pending node is implemented by another pending node |
| ModelIfacesFix.Kahn | src/lib/eina_model.c:607-656 | on success every node is output once, each after all of its implementers; on failure the pending nodes are non-empty and each is implemented by another pending node |
| ModelIfacesFix.DedupNodes | src/lib/eina_model.c:561-578 | the first loop keeps the first occurrence of each interface |
| ModelIfacesFix.MaxNode | src/lib/eina_model.c:646-651 | a non-empty set of nodes has a node with the largest interface |
| ModelIfacesFix.NoLoopInWellformed | src/lib/eina_model.c:646-656 | with registered, acyclic interfaces, no non-empty set of pending nodes can all be implemented within the set, so the loop-failure branch never runs |
| ModelIfacesFix.OrderedIds | src/lib/eina_model.c:607-644 | a topological order of distinct nodes, read as interfaces, never puts an interface after one it implements |
| ModelIfacesFix.IdsCover | src/lib/eina_model.c:561-622 | the output holds every interface of the cache exactly once |
| ModelIfacesFix.Fix | src/lib/eina_model.c:546-663 | for registered acyclic interfaces, the fix succeeds with each cached interface once and implementers before the interfaces they implement |
| ModelTypeFill.WalkStep | src/lib/eina_model.c:378 | one step of the walk over the parent chain moves to the next chain entry, and the rest of the chain gets shorter |
| ModelTypeFill.ChainStep | src/lib/eina_model.c:378 | the chain from a type is the type followed by the chain from its parent, which is shorter |
| ModelTypeFill.TypeFill | src/lib/eina_model.c:372-504 | succeeds exactly when every type on the chain passes the version, name, size and root checks, every mandatory method is provided, the extension is a whole number of pointers and the allocations succeed; then the cached types are the chain, each method is the first one set on the chain and each extension pointer the first one set |
| ModelTypeFill.Resolve | src/lib/eina_model.c:378-442 | the walk succeeds exactly when every chain type passes the checks, and then each method slot holds the first non-NULL method on the chain and the child size is the most derived type's size |
| ModelTypeFill.AllTypeOkSnoc | src/lib/eina_model.c:380-403 | a type that passes the checks can be added to the checked part of the chain |
| ModelTypeFill.ExtensionFill | src/lib/eina_model.c:459-490 | the extension table has one entry per extension pointer of the most derived type, each the first one set along the chain before a type without extension |
| ModelTypeFill.WalkEnds | src/lib/eina_model.c:482 | stopping at a type without extension leaves nothing more to fill |
| ModelTypeFill.ExtensionFits | src/lib/eina_model.c:478-479 | an ancestor's extension is no longer than the most derived type's |
| ModelTypeFill.ResolveStep | src/lib/eina_model.c:406-434 | filling the still-NULL method slots from one more chain type keeps the slots equal to the first-set lookup over the rest of the chain |
| ModelTypeFill.ExtensionStep | src/lib/eina_model.c:484-488 | filling the still-NULL extension entries from one more chain type keeps them equal to the first-set lookup over the rest |
| ModelTypeFill.FillFrom | src/lib/eina_model.c:484-488 | an entry already set is kept and a NULL one takes the type's own pointer |
| ModelTypeFill.CollectChain | src/lib/eina_model.c:496-497 | the type cache is the parent chain, most derived first |
| ModelTypeFill.InstanceIsSubclass | src/lib/eina_model.c:3563-3576 | a model is an instance of a type exactly when its type is a subclass of it |
| ModelDesc.TypeIfaces | src/lib/eina_model.c:720-723 | the interfaces a type lists are all registered |
| ModelDesc.ValidateList | src/lib/eina_model.c:723-725 | validating one type's interface list fails exactly when an entry populate would write is bad, and otherwise counts those entries |
| ModelDesc.NotAllOkWithin | src/lib/eina_model.c:723-725 | a bad entry in a prefix of the list makes the whole list fail |
| ModelDesc.PopulateList | src/lib/eina_model.c:746-747 | populating one type's list writes the populate output of each interface in turn |
| ModelDesc.CountIfaces | src/lib/eina_model.c:716-726 | counting over all cached types fails exactly when one collected entry is bad, and otherwise counts every collected entry |
| ModelDesc.NotAllOkCollected | src/lib/eina_model.c:717-726 | a bad entry among the first types makes the whole count fail |
| ModelDesc.CollectIfaces | src/lib/eina_model.c:737-748 | the cache is filled with exactly the collected entries, in order |
| ModelDesc.IfacesFill | src/lib/eina_model.c:707-751 | succeeds exactly when every collected interface is valid and, when there is any, the allocation succeeds; then the cache holds each collected interface once, implementers first |
| ModelDesc.RoundUp | src/lib/eina_model.c:772-773 | in exact arithmetic, a private size is rounded up to the next multiple of the pointer size and left alone when already a multiple |
| ModelDesc.RoundUp32 | src/lib/eina_model.c:771-773 | the `unsigned int` rounding is the exact rounding modulo 2^32: equal to it up to 2^32 - 8, and 0 for a size in the last pointer below 2^32 that is not already a multiple |
| ModelDesc.UintTotalStep | src/lib/eina_model.c:774 | adding the wrapped rounding to the wrapped total gives the exact total plus the exact rounding, modulo 2^32 |
| ModelDesc.RoundedTotal | src/lib/eina_model.c:763-789 | the exact total of the rounded private sizes is a multiple of the pointer size; the source's `unsigned int` total is this modulo 2^32 (PrivatesFill) |
| ModelDesc.RoundedTotalBounds | src/lib/eina_model.c:763-789 | the total is at least the raw sum and less than the raw sum plus one pointer per provider, and zero exactly when every private size is zero |
| ModelDesc.Sizes | src/lib/eina_model.c:769-787 | one private size per provider, in provider order |
| ModelDesc.PrivatesFill | src/lib/eina_model.c:753-792 | fails only when the allocation fails; then the providers are the types followed by the interfaces, and the size is the rounded total modulo 2^32, as the `unsigned int` sum wraps |
| ModelDesc.AddTypes | src/lib/eina_model.c:765-776 | the type loop appends one provider per type and keeps the size equal to the rounded total modulo 2^32 |
| ModelDesc.AddIfaces | src/lib/eina_model.c:778-789 | the interface loop appends one provider per interface after the types and keeps the size equal to the rounded total modulo 2^32 |
| ModelDesc.TypeProviders | src/lib/eina_model.c:768 | the first providers are the cached types in order |
| ModelDesc.IfaceProviders | src/lib/eina_model.c:781 | the remaining providers are the cached interfaces in order |
| ModelDesc.AddProvider | src/lib/eina_model.c:769-775 | adding one provider in `unsigned int` arithmetic keeps the size equal to the rounded total of the providers so far, modulo 2^32 |
| ModelDesc.Layout | src/lib/eina_model.c:3185-3218 | for a rounded total below 2^32, a zero total needs no block; otherwise the allocation may fail, and on success every provider with a private size gets its slot and the others get NULL |
| ModelDesc.PrefixGrows | src/lib/eina_model.c:3211-3216 | the cursor grows by at least each provider's size |
| ModelDesc.LayoutSeparate | src/lib/eina_model.c:3196-3216 | every private block starts pointer-aligned after the pointer table, blocks do not overlap and all fit in the allocation |
| ModelDesc.OffsetAligned | src/lib/eina_model.c:3196 | every block offset is pointer-aligned and past the pointer table |
| ModelDesc.Ordered | src/lib/eina_model.c:3211-3216 | an earlier block ends before a later one starts, and every block ends inside the allocation |
| ModelEvents.NameLess | src/lib/eina_model.c:794-799 | defines the `strcmp` order of event names; the four lemmas after it state that it is a strict total order |
| ModelEvents.NameLessIrreflexive | src/lib/eina_model.c:794-799 | no name sorts before itself |
| ModelEvents.NameLessTransitive | src/lib/eina_model.c:794-799 | the name order is transitive |
| ModelEvents.NameLessAsymmetric | src/lib/eina_model.c:794-799 | two names never sort before each other |
| ModelEvents.NameLessTotal | src/lib/eina_model.c:794-799 | any two different names are ordered one way |
| ModelEvents.StrCmp | src/lib/eina_model.c:798 | `strcmp` is negative, zero or positive exactly when the first name sorts before, equals or sorts after the second |
| ModelEvents.Tag | src/lib/eina_model.c:875-877 | each entry records its event and its provider |
| ModelEvents.Names | src/lib/eina_model.c:808 | the names of the entries, in order |
| ModelEvents.First | src/lib/eina_model.c:805-810 | the first entry carrying a name |
| ModelEvents.TypeEntries | src/lib/eina_model.c:852-880 | every entry the type pass sees is an event that one of the chain's types declares, tagged with that type |
| ModelEvents.IfaceEntries | src/lib/eina_model.c:882-925 | every entry the interface pass sees is an event that one of the description's interfaces declares, tagged with that interface |
| ModelEvents.AllEntries | src/lib/eina_model.c:852-925 | every entry is tagged with a type of the chain or an interface of the description, and all type entries come before any interface entry |
| ModelEvents.Keep | src/lib/eina_model.c:859-873 | the deduplicating pass keeps at most the entries it is given; KeepDistinct, KeepCovers and KeepFirst state which ones |
| ModelEvents.KeepDistinct | src/lib/eina_model.c:859-873 | keeping only first occurrences leaves distinct names |
| ModelEvents.KeepCovers | src/lib/eina_model.c:859-873 | every name offered is still present after dropping duplicates |
| ModelEvents.KeepFirst | src/lib/eina_model.c:859-873 | each kept entry is the first one offered with its name |
| ModelEvents.FirstIsLast | src/lib/eina_model.c:875-878 | a new name's first occurrence is where it was appended |
| ModelEvents.FirstOfPrefix | src/lib/eina_model.c:859-860 | extending the table does not change where an existing name is first found |
| ModelEvents.Insert | src/lib/eina_model.c:927-929 | inserting adds exactly the entry |
| ModelEvents.SortEntries | src/lib/eina_model.c:927-929 | sorting is a permutation of the table |
| ModelEvents.InsertSorted | src/lib/eina_model.c:927-929 | inserting an entry with a new name into a sorted table keeps it sorted |
| ModelEvents.SortEntriesSorted | src/lib/eina_model.c:927-929 | a table with distinct names sorts into strictly increasing name order |
| ModelEvents.EventsFind | src/lib/eina_model.c:801-813 | the linear search returns -1 exactly when the name is absent, otherwise the first index holding it |
| ModelEvents.KeepEach | src/lib/eina_model.c:857-879 | the loop over one provider's events adds exactly the names not already present |
| ModelEvents.CountEvents | src/lib/eina_model.c:819-838 | the count is the number of events offered by all types and interfaces |
| ModelEvents.EventsFill | src/lib/eina_model.c:816-932 | succeeds exactly when there is nothing to store or the allocation succeeds; then the table is a permutation of the first occurrence of each name, sorted by name |
| ModelEvents.KeepTypes | src/lib/eina_model.c:852-880 | the type pass keeps the first occurrence of each type event name |
| ModelEvents.KeepIfaces | src/lib/eina_model.c:882-925 | the interface pass then keeps the first occurrence over types and interfaces together |
| ModelEvents.TypeEntriesFromTypes | src/lib/eina_model.c:877 | entries from the type pass are provided by types |
| ModelEvents.EventTableNames | src/lib/eina_model.c:816-932 | the table holds a name exactly when some type or interface offers it |
| ModelEvents.EventTableFirst | src/lib/eina_model.c:816-932 | each entry of the table is the first one offered with its name |
| ModelEvents.TypesWin | src/lib/eina_model.c:882-918 | an event name offered by a type is provided by a type, never by an interface |
| ModelEvents.EventIdFind | src/lib/eina_model.c:1016-1034 | the binary search on the sorted table returns -1 exactly when the name is absent, otherwise an index holding it |
| ModelObject.Active | src/lib/eina_model.c:1209-1215 | a walk over one event's listener list delivers only to listeners not flagged deleted, every step a callback for that event, never more steps than listeners |
| ModelObject.Without | src/lib/eina_model.c:1165-1184 | purging the deleted queue keeps only listeners of the list whose id is not queued, so the result is a sub-list of the original |
| ModelObject.WithoutIdsBelow | src/lib/eina_model.c:1165-1184 | purging keeps listener ids below the next id to be handed out and strictly increasing |
| ModelObject.WithoutNothing | src/lib/eina_model.c:1165-1184 | purging with an empty queue leaves the list unchanged |
| ModelObject.WithoutSnoc | src/lib/eina_model.c:1165-1184 | purging queued ids one after the other equals purging all of them at once |
| ModelObject.Match | src/lib/eina_model.c:3761-3766 | the listener callback_del removes is the first one, not yet flagged deleted, whose callback matches and whose data matches when data is given; -1 exactly when none does |
| ModelObject.MatchAsWritten | src/lib/eina_model.c:3761-3766 | the lookup as written: first listener whose callback and data match, whether or not it is already flagged deleted |
| ModelObject.DeferAsWritten | src/lib/eina_model.c:3774-3789 | the walking branch as written flags the matched listener and appends it to the deleted queue again even when it was already flagged |
| ModelObject.DoubleDeleteAsWritten | src/lib/eina_model.c:3761-3789 | two callback_del calls during a walk on a list of two listeners with the same callback queue the first listener twice and leave the second one live |
| ModelObject.DoubleDeleteSkipsFlagged | src/lib/eina_model.c:3761-3789 | skipping flagged listeners, the same two calls flag and queue both listeners so that neither is delivered to |
| ModelObject.Position | src/lib/eina_model.c:1016-1034 | the event id of a name is the index of the event with that name in the type's event table, -1 exactly when no event has that name |
| ModelObject.FoundIsPosition | src/lib/eina_model.c:1016-1034 | on an event table sorted by name, any index the binary search may return (the index of the name, or -1 when it is absent) is the event id |
| ModelObject.DelTarget | src/lib/eina_model.c:3753-3766 | the listener callback_del targets lies in the list of the named event and matches the callback and data |
| ModelObject.Purged | src/lib/eina_model.c:1165-1184 | freeing the deleted queues purges every event's list by its own queue, event by event |
| ModelObject.RemoveAt | src/lib/eina_model.c:3767-3772 | unlinking a listener drops exactly that element and keeps the others in order |
| ModelObject.Flag | src/lib/eina_model.c:3774-3776 | flagging a listener marks that element deleted, keeps its id and changes no other element |
| ModelObject.ActiveAppend | src/lib/eina_model.c:1209-1215 | delivery over a concatenated list is delivery over each part in turn |
| ModelObject.FlagIsRemove | src/lib/eina_model.c:1209-1215 | a listener flagged deleted receives no event, exactly as if it had been unlinked |
| ModelObject.Deliver | src/lib/eina_model.c:1186-1221 | an event reaches only listeners of that named event, and nothing is delivered when the name is unknown or the event is frozen |
| ModelObject.Delivered | src/lib/eina_model.c:1186-1221 | delivering an event never runs a destructor or a flush |
| ModelObject.AppendListenerOk | src/lib/eina_model.c:3723-3730 | appending a new listener with the next id keeps ids increasing, below the next id and the queues consistent |
| ModelObject.RemoveListenerOk | src/lib/eina_model.c:3767-3772 | unlinking a listener when nothing walks keeps the listener tables well formed |
| ModelObject.FlagListenerOk | src/lib/eina_model.c:3774-3789 | flagging a live listener and queueing its id keeps every queued id pointing at a flagged listener of the same event |
| ModelObject.Model.constructor | src/lib/eina_model.c:3164-3223 | a new model has refcount 1, is not deleted and has no listener, queue or freeze table |
| ModelObject.Model.Ref | src/lib/eina_model.c:3587-3596 | ref increments the reference count and changes nothing else |
| ModelObject.Model.WalkEnter | src/lib/eina_model.c:1209 | starting a walk increments the walking counter |
| ModelObject.Model.WalkLeave | src/lib/eina_model.c:1216-1218 | ending the outermost walk purges the deleted queues; an inner walk only decrements the counter |
| ModelObject.Model.FreeDeleted | src/lib/eina_model.c:1165-1184 | freeing the deleted queues removes every queued listener from its event's list and drops the queues |
| ModelObject.Model.PurgeAll | src/lib/eina_model.c:1168-1183 | the loop over the events purges each event's list by its own queue |
| ModelObject.Model.RemoveQueued | src/lib/eina_model.c:1170-1181 | the loop over the queue removes from the list exactly the listeners whose ids are queued |
| ModelObject.Model.CallbackCall | src/lib/eina_model.c:1186-1221 | an event call delivers to the live listeners of that event in order, leaves the listener tables as they were, and answers true only for a known event that is frozen or has no listener |
| ModelObject.Model.Emit | src/lib/eina_model.c:3841-3846 | the public event call behaves as the internal one on a live model |
| ModelObject.Model.Del | src/lib/eina_model.c:3382-3399 | deleting marks the model deleted, and only the first time emits the deleted event and runs the destructor |
| ModelObject.Model.Free | src/lib/eina_model.c:3301-3380 | freeing flushes, drops the refcount to 0 and then emits the freed event to the listeners the model had |
| ModelObject.Model.Unref | src/lib/eina_model.c:3401-3416 | above one reference unref only decrements; at the last it deletes if not yet deleted, then frees |
| ModelObject.Model.Release | src/lib/eina_model.c:3414-3415 | the last reference deletes the instance if it is not yet deleted, then frees it: deleted event and destructor only the first time, then flush and freed event |
| ModelObject.Model.Delete | src/lib/eina_model.c:3527-3533 | eina_model_del deletes the model and drops one reference, freeing it when that was the last |
| ModelObject.Model.CallbackAdd | src/lib/eina_model.c:3694-3733 | adding a listener appends it, with the next id, to the named event's list, and fails without changes for an unknown event or a failed allocation |
| ModelObject.Model.CallbackDel | src/lib/eina_model.c:3735-3796 | deleting a listener unlinks the matching one when nothing walks, otherwise flags and queues it; no match leaves everything unchanged |
| ModelObject.Model.Unlink | src/lib/eina_model.c:3767-3772 | unlinking removes the listener at that position of that event's list and nothing else |
| ModelObject.Model.Defer | src/lib/eina_model.c:3774-3789 | during a walk the listener is flagged, and queued unless the queue table cannot be allocated |
| ModelObject.Model.FindListener | src/lib/eina_model.c:3761-3766 | the search loop returns the first matching live listener |
| ModelObject.Model.Freeze | src/lib/eina_model.c:3848-3875 | freeze increments the named event's freeze count and returns it; an unknown event or failed allocation returns -1 and changes nothing |
| ModelObject.Model.Thaw | src/lib/eina_model.c:3877-3894 | thaw decrements the named event's freeze count and returns it; no freeze table or an unknown event returns -1 and changes nothing |
| ModelChildren.HeldSnoc | src/lib/eina_model.c:2858-2860 | each xref or xunref the children interface performs adds or removes exactly one reference to that child |
| ModelChildren.Inarray.constructor | src/lib/eina_model.c:2844-2904 | a new children array holds no child and no reference |
| ModelChildren.Inarray.Set | src/lib/eina_model.c:2844-2862 | set replaces the child at a valid position, takes a reference to the new child and drops the old one's; a position past the end fails and changes nothing; the references held are always the children held |
| ModelChildren.Inarray.Del | src/lib/eina_model.c:2864-2880 | del removes the child at a valid position, keeping the others in order, and drops its reference; a position past the end fails and changes nothing |
| ModelChildren.Inarray.InsertAt | src/lib/eina_model.c:2882-2893 | insert_at puts the child at a position up to the count and takes a reference; a position past the count or a failed allocation changes nothing |
| ModelChildren.Inarray.Sort | src/lib/eina_model.c:2895-2904 | sort leaves the children ordered by the comparator and a permutation of what they were, with the references unchanged |
| ModelChildren.Append | src/lib/eina_model.c:4269-4303 | append inserts the child at the end and returns its position, then fires child,inserted and children,changed; -1 and nothing changed without insert_at or when the insertion fails |
| ModelChildren.ChildSort | src/lib/eina_model.c:4322-4331 | child_sort sorts the children when the type can, always fires children,changed and returns true |
| ModelChildren.Clamp | src/lib/eina_model.c:1748-1754 | the slice an iterator covers starts at start, never runs past the last child and holds count children when that many exist |
| ModelChildren.ClampAsWritten | src/lib/eina_model.c:1748-1754 | the clamp as written compares an unsigned int sum that can wrap, so its count is either the given one or what remains |
| ModelChildren.ClampAsWrittenNoWrap | src/lib/eina_model.c:1748-1754 | whenever start + count does not wrap, the clamp as written equals the intended one |
| ModelChildren.ClampWraps | src/lib/eina_model.c:1748-1754 | start 1 and count 2^32 - 1 over five children keep the unclamped count as written, against four intended |
| ModelChildren.Slice | src/lib/eina_model.c:1738-1769 | the slice is the clamped run of children starting at start, element by element |
| ModelChildren.ReverseAt | src/lib/eina_model.c:1704-1719 | the reversal holds at index i the element at index length - 1 - i |
| ModelChildren.ReversedGet | src/lib/eina_model.c:1738-1769 | a reversed iterator starts at start + the clamped count and ends at start |
| ModelChildren.ReversedNext | src/lib/eina_model.c:1704-1719 | next yields the child just below the current position and moves down by one; it stops at the end or past the children |
| ModelChildren.ReversedDrainSpan | src/lib/eina_model.c:1704-1719 | running a reversed iterator over a span of existing children yields that span last child first |
| ModelChildren.ReversedYieldsSlice | src/lib/eina_model.c:1704-1769 | the reversed slice iterator yields exactly the clamped slice in reverse order |
| ModelChildren.SortedGet | src/lib/eina_model.c:1817-1864 | the sorted slice iterator's elements are the clamped slice, as a permutation, ordered by the comparator |
| ModelChildren.Matching | src/lib/eina_model.c:1877-1895 | the matching positions lie from start on, within the children, and each child there is accepted by the match callback |
| ModelChildren.FirstMatch | src/lib/eina_model.c:1606-1631 | criteria_match answers the first accepted position from start on, and -1 exactly when no position from start on is accepted |
| ModelChildren.FirstMatchHeads | src/lib/eina_model.c:1606-1631 | the first match is -1 exactly when there are no matches, and otherwise heads the list of all matches |
| ModelChildren.CriteriaMatch | src/lib/eina_model.c:1606-1631 | the loop over the children from start returns the first accepted position, -1 when there is none |
| ModelChildren.FilteredNext | src/lib/eina_model.c:1877-1895 | next yields a matching position at or after the current one, moves just past it and uses up one of the count |
| ModelChildren.FilteredYieldsMatches | src/lib/eina_model.c:1877-1933 | a filtered iterator yields the first count matching positions from start on, in order, or all of them when fewer exist |
| ModelChildren.Compare | src/lib/eina_model.c:3984-4033 | compare takes the first model's answer, else the negated answer of the second; -1 with method-missing when neither has a method and with failed when neither answers; on an answer the source leaves the error untouched, which the model reports as no error |
| ModelChildren.CompareSwapped | src/lib/eina_model.c:3984-4033 | with methods that agree, swapping the models gives the same error and, on success, the negated result |
| ModelChildren.LoadOutcomeAsWritten | src/lib/eina_model.c:4035-4058 | load as written returns true only when the load method succeeds and reports false when there is none |
| ModelChildren.LoadOutcome | src/include/eina_model.h:718-737 | load returns false only when the load method fails, and true without effect when the type has none; the error is method-missing exactly then |
| ModelChildren.LoadMissingDiffers | src/lib/eina_model.c:4049-4055 | the code as written and the documented answer differ exactly for a type without a load method |
| ModelChildren.Load | src/lib/eina_model.c:4035-4058 | load gives the documented result and error and fires loaded only when the load method succeeds |
| ModelChildren.StructGetAsWritten | src/lib/eina_model.c:5447-5469 | struct_get as written sets the description and memory when the interface is implemented and readable, yet always returns false |
| ModelChildren.StructGet | src/include/eina_model.h:3025-3039 | struct_get returns true exactly when it sets the outputs, which are the description and memory the model holds |
| ModelChildren.StructGetSuccessReadsAsFailure | src/lib/eina_model.c:5466-5468 | on success the code as written sets the same outputs as documented but answers false |
| ModelSort.SegmentPermutation | src/lib/eina_model.c:155-171 | a permutation of the whole array that changes nothing outside [lo, hi] permutes the segment [lo, hi] |
| ModelSort.Swap | src/lib/eina_model.c:131-133 | exchanging two cells swaps their values, keeps every other cell and the array's multiset |
| ModelSort.Partition | src/lib/eina_model.c:125-153 | partition moves the pivot value to the returned position in [start, last], with smaller keys before it and the others after it, permuting only [start, last] |
| ModelSort.Sort | src/lib/eina_model.c:155-171 | the quicksort orders [start, last] by the comparator, permutes the array and leaves the cells outside [start, last] unchanged |
| ModelSort.SortBelow | src/lib/eina_model.c:165-166 | the first recursive call sorts the cells below the pivot and keeps them below the pivot's key |
| ModelSort.SortAbove | src/lib/eina_model.c:168-169 | the second recursive call sorts the cells above the pivot and keeps them at least the pivot's key |

## Left out

- Locks and concurrency: the mutexes of the file cache, the log registry and the model description cache, pthread and TLS code are not modelled; every operation runs alone, and the page-fault handler's call to `eina_file_mmap_faulty` is an ordinary call.
- Counter.Diff: the experiment, start and end times are unbounded integers. The source computes `tv_sec * 1000000000` and the difference in `long` (eina_counter.c:331-336), which wraps where `long` is 32 bits, and `%i` prints the `int` specimen; these widths are not modelled.
- Counter.DiffIsElapsed: holds for the unbounded times only, for the reason given for Counter.Diff.
- Counter.Line: the Win32 branch (eina_counter.c:337-350), which scales `QueryPerformanceCounter` ticks by the counter frequency, is not modelled; the model prints the POSIX `timespec` arithmetic.
- FileCache.AcquireValid: the consistency it proves is that of the intended address-keyed reverse table. The written table (FileCache.AcquireAsWritten) files each window under the first word of its mapped bytes; the file's bytes are not modelled, so that word is a parameter, and File.MapNew, File.MapFree and File.MapFaulted run the intended table.
- FileCache.ReleaseValid: as for FileCache.AcquireValid, about the intended address-keyed reverse table only.
- FileCache.ReleaseAcquire: holds for the intended address-keyed reverse table; as written the release misses the window (FileCache.ReleaseAfterMapMissesAsWritten, listed under Findings).
- FileCache.Acquire: files a new window in the reverse table under its address, as intended; the written table files it under the first word of the mapped bytes (FileCache.AcquireAsWritten, listed under Findings).
- FileCache.Release: looks the window up by its address in the intended reverse table; as written the lookup misses every window whose bytes do not begin with its own address, and nothing is released.
- FileCache.File.MapNew: runs the intended address-keyed reverse table (see FileCache.Acquire).
- FileCache.File.MapFree: runs the intended address-keyed reverse table; as written, freeing a partial window misses the table and leaves it mapped with its reference (FileCache.ReleaseAfterMapMissesAsWritten).
- FileCache.File.MapFaulted: runs the intended address-keyed reverse table; as written it reports false for every partial window whose bytes do not begin with its own address.
- FileWin32.WinFile.MapFree: runs the intended address-keyed reverse table, as FileCache.File.MapFree does; eina_file_win32.c:1106 and 1137-1147 have the same content-keyed entry.
- FileWin32.WinFile.MapNew: several Win32 map paths return while still holding the file's lock (eina_file_win32.c:1046-1050, 1083-1084, 1099-1103, 1137-1138); the lock is not modelled, so neither is that leak. Its reverse table is keyed by address as intended, while eina_file_win32.c:1106 files the window under its first mapped word.
- Log output: the prefix printers, the print callbacks and the terminal colours written are not modelled; only the decision whether a message is printed and the prefix flag rule are.
- Environment and globbing: `getenv` results and `fnmatch` are parameters of the operations that use them.
- Magic number checks (`EINA_MAGIC_CHECK`, the model instance checks) and NULL-argument guards on arguments the model's types cannot make NULL.
- FileLines.LinesIterator.Next: the read of `*it->current.end` before its `< it->end` test (eina_file.c:1187-1188) reads one byte past the mapped buffer; the model tests the bound first.
- ObjectStore.ClassRanges.Add: a pool size of 0 is not modelled.
- The range tree of `Eina_Class_Top`: the code never inserts a range into it, so every lookup through it misses; the tree is not modelled, and ObjectIds.FindItem models the checks `_eina_object_find_item` makes once a range has matched.
- BuddyMempool.MergeAsWritten: when the buddy sits with neighbours on the free list of another order, `eina_inlist_remove` relinks that other list and may hand the list being merged the other list's tail; the function answers None there instead of modelling the corruption.
- ModelTypes.Wellformed: registries with cyclic parent or interface links are excluded, since the recursive walks of the source do not terminate on them. For interfaces this means the dependency-loop report of `ifaces_fix` (eina_model.c:646-656) is unreachable in the source too: on cyclic links the validate and populate recursions before it never return, and on acyclic ones ModelIfacesFix.NoLoopInWellformed shows the report never fires. A validate that detects the loop before recursing is not modelled.
- FixedBitmap.Mempool.Free: the slot-range `assert` is modelled as a failure outcome; what a build without assertions does with the out-of-range slot is not.
- FilePath.Split: a failure of `eina_array_new` is not modelled.
- The directory listing iterators (`eina_file_ls`, `eina_file_direct_ls`, `eina_file_stat_ls`): only the entry type decision is modelled.
- Mempool back-ends, stringshare, the module loader, `Eina_Value`, `Eina_Hash` and user callbacks: these appear as opaque calls, parameters or trace entries.
- `_eina_file_map_populate` and `_eina_file_map_rule_apply`: they only advise or touch pages and have no effect on the modelled state.
- `eina_class_repack` and the range repack callback are not modelled.
- MainInit.Library.ThreadsShutdown: requires a positive thread count, as the debug-build assert at eina_main.c:348-350 does; a release build would decrement a zero count.
- BuddyMempool.Buddy.Init: requires a minimum order of at most 30 and a size below `2^(min_order + 31)`, so that `1 << min_order` and every `1 << order` below `num_order` fit in an `int` (eina_buddy.c:99, 114, 147, 151, 173, 227); beyond that the C shifts are undefined, and from a size of 2^63 on the doubling loop of `_init` (eina_buddy.c:100-103) wraps `bytes` to 0 and never ends.
- FixedBitmap.Mempool.constructor: requires an item size below 2^26; from there `item_size * 32` (eina_fixed_bitmap.c:88, 131) overflows `int`, which C leaves undefined, so larger item sizes are not modelled.
- ModelDesc.RoundUp: rounds in exact arithmetic; the `unsigned int` rounding of eina_model.c:772-773, which wraps to 0 for sizes within 7 of 2^32, is ModelDesc.RoundUp32, and the two agree below 2^32 - 8.
- ModelDesc.RoundedTotal: the exact sum of the rounded sizes; the `unsigned int` total of eina_model.c:774 is that sum modulo 2^32, which is what ModelDesc.AddProvider and ModelDesc.PrivatesFill state.
- ModelDesc.Layout: requires rounded private sizes that add up to less than 2^32. Past that the `unsigned int` total of `privates_fill` wraps (modelled by ModelDesc.AddProvider and ModelDesc.RoundUp32), and the block `eina_model_new` allocates from it is too small for the areas, or absent when the total wraps to 0; that overflow is not modelled. ModelDesc.RoundUp and ModelDesc.RoundedTotal are the exact sums, and ModelDesc.PrivatesFill states its wrapped result against them.
- ObjectIds: only the `_LP64` layout is modelled (a 16-bit `unsigned short` generation above bit 48, eina_object.c:51-54); the 32-bit layout with an `unsigned char` generation and `EINA_GEN_OFFSET` 24 (eina_object.c:61-64) is not.
- ObjectStore.Links.Insert: `eina_object_add` (eina_object.c:714-718) never initialises the new item's `parent`, which `_eina_object_item_del` (eina_object.c:330) and `eina_object_parent_set` (eina_object.c:814) later read; the model starts every new object without a parent, as a zeroing allocator would, and does not model the garbage pointer.
- Str: case mapping and case-insensitive comparison follow the C locale (ASCII letters only); other locales are not modelled.
- LogDomains: a NULL domain name passed to register, level set or level get is not modelled; names are always present.

## Findings

| source | as written | input that shows it | evidently intended | confidence | as-written member | corrected member |
|---|---|---|---|---|---|---|
| src/modules/mp/buddy/eina_buddy.c:165-183 | after merging with the lower buddy, the merged block keeps the freed block's slot | allocate 64 KiB, allocate 32 KiB, free both: the whole heap sits on the top list at slot 2 | the merged block starts at the lower buddy's slot | not executed | BuddyMempool.MisalignedAfterFree | BuddyMempool.Merge |
| src/modules/mp/buddy/eina_buddy.c:172-178 | the merge only checks that the buddy is available, not that it heads a block of the same order | allocate 64 KiB, then 32 KiB twice, free the second and then the first: the whole heap lands on the top list at slot 0 while slot 3 is still in use | merge only with a buddy of the same order | not executed | BuddyMempool.MergesOverBlockInUse | BuddyMempool.MergeStopsAtSplitBuddy |
| src/modules/mp/buddy/eina_buddy.c:138-143 | the guard `offset > b->size` lets `offset == size` through | freeing `heap + size` indexes the block array at `size >> min_order`, one past its end | reject `offset >= size` | not executed | BuddyMempool.SizeOffsetPastBlocks | BuddyMempool.Buddy.Free |
| src/lib/eina_file.c:708-716 | the relative branch passes a length that counts the terminator, so a trailing `seg/..` keeps the first character of `seg` | `x/..` under `/home` gives `/home/x` | `/home/` | not executed | FilePath.SanitizeAsWrittenKeepsSegmentChar | FilePath.Sanitize |
| src/lib/eina_file.c:1208-1209 | the length of every line is `eol - start - 1`, also for a last line without terminator | `ab` yields one line of length 1 | length 2 for a line without terminator | not executed | FileLines.LastLineLengthExample | FileLines.LinesIterator.Next |
| src/lib/eina_file.c:410-416 | the key comparison returns the 64-bit offset difference as an `int` | windows at offsets 0 and 4 GiB with the same length compare equal | compare offsets, then lengths, by sign | not executed | FileCache.KeyCmpAsWrittenCollides | FileCache.KeyCmp |
| src/lib/eina_file.c:1281-1284 | the range check adds offset and length in 64 bits, which can wrap | offset 1, length 2^64-1 on a 10-byte file passes | reject any window that runs past the file | not executed | FileCache.OutOfRangeAsWrittenWraps | FileCache.File.MapNew |
| src/lib/eina_file_win32.c:640-661 | the second `GetCurrentDirectory` returns the length without the NUL, which never equals the size asked for, so the joined path is dropped | `abc` under `C:\w` gives `abc` | `C:\w/abc` | not executed | FileWin32.SanitizeAsWrittenIgnoresCwd | FileWin32.Sanitize |
| src/lib/eina_file_win32.c:925-933 | the cache test is inverted | a cached file whose stamp changed is reused, and an unchanged one is replaced | reuse exactly when the stamp is unchanged | not executed | FileWin32.CacheDecisionAsWrittenInverted | FileWin32.CacheDecision |
| src/lib/eina_file.c:1329-1330 | the reverse table is a pointer table, which compares the words its keys point at, and the window is added with its mapped address as key pointer, so it is filed under the first word of the mapped bytes while `map_free` and `map_faulted` look up the address | map a window of a file whose bytes do not begin with the window's address, then free it: the window stays mapped with one reference, and `map_faulted` reports false | the reverse table finds the window by its address | not executed | FileCache.ReleaseAfterMapMissesAsWritten | FileCache.ReleaseAcquire |
| src/lib/eina_file_win32.c:1106 | the Win32 reverse table gets the same content-keyed entry | as for eina_file.c:1329-1330 | the reverse table finds the window by its address | not executed | FileCache.ReleaseAfterMapExample | FileWin32.WinFile.MapFree |
| src/lib/eina_file_win32.c:1065-1068 | the range check adds offset and length in a 32-bit `unsigned long` | offset 5, length 2^32-1 on a 10-byte file passes | reject any window that runs past the file | not executed | FileWin32.OutOfRangeAsWrittenWraps | FileWin32.WinFile.MapNew |
| src/lib/eina_file_win32.c:1086-1089 | the offset is passed as the high word of the view offset | offset 0x10000 maps the view at 2^48 | the offset split into its high and low 32-bit words | not executed | FileWin32.ViewOffsetAsWrittenWrong | FileWin32.WinFile.MapNew |
| src/lib/eina_str.c:110-160 | the token array is sized for the capped count, but the copy loop ignores the cap | `a:b:c` split on `:` with at most one token writes past the array | stop copying at the cap | not executed | Str.SplitAsWrittenOverruns | Str.SplitFull |
| src/lib/eina_object.c:259-261 | the generation is `id & !mask`, and the logical `!` makes it always 0 | the id `eina_object_add` returns is rejected as a generation mismatch | the generation is the bits above bit 48 | not executed | ObjectIds.LiveObjectRejected | ObjectIds.Decode |
| src/lib/eina_object.c:296-297 | the pointer slot is indexed with the whole identifier minus the range start | any id with a non-zero generation indexes past the range | index with the decoded index minus the range start | not executed | ObjectIds.SlotIndexAsWrittenMisses | ObjectIds.FindItem |
| src/lib/eina_object.c:697-704 | a new range's `empty_count` is never set and the range is never linked into `allocated_range` | the first add from an empty class fails when the garbage count is 0, and a second add makes a new range although the first has room | the range starts with every slot free and joins the list | not executed | ObjectStore.FirstAddDiffers | ObjectStore.ClassRanges.Add |
| src/lib/eina_model.c:3761-3789 | during a walk the listener lookup does not skip listeners already flagged deleted | two deletions of the same callback during a walk queue the first listener twice and leave the second live | skip flagged listeners | not executed | ModelObject.DoubleDeleteAsWritten | ModelObject.Model.CallbackDel |
| src/lib/eina_model.c:4049-4055 | `eina_model_load` returns false when the type has no load method | a type without a load method | true without effect, as its documentation says | not executed | ModelChildren.LoadMissingDiffers | ModelChildren.Load |
| src/lib/eina_model.c:5466-5468 | `eina_model_struct_get` sets its outputs and returns false | any model implementing the struct properties interface | return true on success | not executed | ModelChildren.StructGetSuccessReadsAsFailure | ModelChildren.StructGet |
| src/lib/eina_model.c:1748-1754 | the clamp compares `start + count` computed in `unsigned int`, which can wrap | start 1 and count 2^32-1 over five children keep the count unclamped | four children | not executed | ModelChildren.ClampWraps | ModelChildren.Clamp |
