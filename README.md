# Buddy page allocator

This project models the buddy page allocator of an InfOS-style kernel (`BuddyPageAllocator` in `buddy.cpp`) and proves properties of the model. The allocator hands out blocks of 2^order contiguous physical pages, for orders 0..MAX_ORDER (17). It keeps one free list per order. Each list is an intrusive singly-linked list, threaded through the `next_free` field of the page descriptors and sorted by ascending address. The operations are:

- `alloc_pages` walks up the orders to the first non-empty list, then splits back down to the requested order.
- `free_pages` puts a block back, then merges it with its buddy, order by order, while the buddy is free.
- `reserve_page` finds the free block that contains a given page, splits it until the page is a block of its own, and takes it off the order-0 list.
- `init` cuts the page array into power-of-two blocks, largest first.

A page is named by its page-frame number, which is also its index in the page-descriptor array. NULL is -1.

The model has two layers:

- **The table (pure).** A `Table` is one `seq<int>` per order 0..MAX_ORDER: the blocks on that order's list, in list order. Every operation is a function on tables (modules `FreeArea`, `Release`, `Allocate`, `Reserve`, `InitLayout`). The lemmas beside each function show that it keeps the allocator invariant and moves exactly the right pages. The invariant (`FreeArea.WellFormed`, `FreeArea.Coalesced`) requires:
  - every listed block is aligned for its order and lies inside the page array;
  - every list is strictly ascending;
  - no two free blocks share a page;
  - below MAX_ORDER, no free block's buddy is free at the same order.
- **The object (imperative).** The class `Buddy.BuddyPageAllocator` holds:
  - the array `heads`, which is `_free_areas`;
  - the array `next`, which holds the `next_free` link of every page descriptor.

  Its methods walk and relink these arrays in place, with the loops of the source. Each method is proved against the table layer: the ghost field `lists` is the table that the links spell out (`FreeLinks.Represents`), and every method ensures `lists == F(old(lists), …)` for the matching table function `F`.

The module `BuddyMath` holds the frame-number arithmetic. `SortedList` holds the list edits. `FreeLinks` ties a list to its links. `Findings` holds the order-range discrepancy below.

## Model

| member | source | states |
|---|---|---|
| BuddyMath.PagesPerBlock | buddy.cpp:111-117 | a block of any order spans at least one page; it doubles with each order (2^order) |
| BuddyMath.PagesPerBlockMonotone | buddy.cpp:111-117 | a block of a higher order spans at least as many pages as one of a lower order |
| BuddyMath.IsAligned | buddy.cpp:125-130 | alignment is divisibility of the frame number by 2^order, so every frame is aligned for order 0 |
| BuddyMath.Contains | buddy.cpp:42-49 | a block contains the pages [block, block + 2^order), so a block of order 0 contains exactly its own page |
| BuddyMath.BuddyPfn | buddy.cpp:150-158 | the buddy is never the block itself, and lies above it exactly when the block is aligned one order up |
| BuddyMath.AlignedLower | buddy.cpp:125-130 | a frame number aligned for an order is aligned for every lower order |
| BuddyMath.OddBlock | buddy.cpp:153-155 | an aligned block that is not aligned one order up has, 2^order pages below it, the start of its pair, aligned one order up |
| BuddyMath.BuddyOf | buddy.cpp:138-159 | the buddy exists exactly when order < MAX_ORDER and the block is aligned; it is aligned for the order, 2^order pages away in either direction, and the lower of the pair is aligned one order up |
| BuddyMath.BuddyFacts | buddy.cpp:150-158 | the computed buddy frame is aligned and non-negative for a non-negative block; exactly one of block and buddy is aligned one order up |
| BuddyMath.BuddyInvolution | buddy.cpp:138-159 | applying buddy_of twice gives back the original block |
| SortedList.InsertSorted | buddy.cpp:168-186 | the list gains exactly `x`, one element longer, and stays strictly ascending when `x` was absent |
| SortedList.InsertSortedAt | buddy.cpp:174-182 | inserting is splicing `x` in at the position where the slot walk of insert_block stops |
| SortedList.RemoveFirst | buddy.cpp:194-208 | the list loses `x` and keeps every other element, one shorter; a strictly ascending list stays so and no longer holds `x` |
| SortedList.RemoveFirstAt | buddy.cpp:197-206 | removing is cutting out the element where the slot walk of remove_block stops, keeping the rest in order |
| SortedList.InsertRemoved | buddy.cpp:168-208 | on a strictly ascending list holding `x`, remove_block then insert_block of `x` gives back the same list |
| SortedList.RemoveInserted | buddy.cpp:168-208 | on a strictly ascending list without `x`, insert_block then remove_block of `x` gives back the same list |
| FreeArea.EmptyTable | buddy.cpp:282-287 | the table the constructor leaves: MAX_ORDER + 1 lists, all empty |
| FreeArea.InsertBlock | buddy.cpp:168-186 | insert_block changes only the order-k list, to that list with the block inserted in order |
| FreeArea.RemoveBlock | buddy.cpp:194-208 | remove_block, for a listed block, changes only the order-k list, to that list without the block |
| FreeArea.InsertRemovedBlock | buddy.cpp:168-208 | on the table, inserting a block just removed from a sorted list restores the table |
| FreeArea.RemoveInsertedBlock | buddy.cpp:168-208 | on the table, removing a block just inserted into a sorted list that lacked it restores the table |
| FreeArea.SplitBlock | buddy.cpp:218-242 | split_block changes only the lists of order k and k - 1 |
| FreeArea.MergeBlock | buddy.cpp:252-276 | merge_block changes only the lists of order k and k + 1 |
| FreeArea.SplitMergeInverse | buddy.cpp:218-276 | splitting a listed, aligned block onto an empty lower list lists both halves there, and merge_block of the lower half gives back the table before the split |
| FreeArea.MergeBlockListsMerged | buddy.cpp:252-276 | after merge_block the lower of the pair is listed one order up, aligned for that order |
| FreeArea.SplitBlockListsHalves | buddy.cpp:218-242 | after split_block both halves `b` and `b + 2^(k-1)` are listed one order down, each aligned for it |
| FreeArea.RightHalfIsBuddy | buddy.cpp:232-233 | the right half that split_block computes with buddy_of is `b + 2^(k-1)` |
| FreeArea.FreeCountInsert | buddy.cpp:181-182 | inserting a block at order k adds 2^k free pages |
| FreeArea.FreeCountRemove | buddy.cpp:206 | removing a listed block at order k takes 2^k free pages away |
| FreeArea.InsertMembers | buddy.cpp:168-186 | after insert_block the listed blocks are the old ones plus the inserted one at its order |
| FreeArea.RemoveMembers | buddy.cpp:194-208 | after remove_block on sorted lists the listed blocks are the old ones minus the removed one |
| FreeArea.FreeOfNotListed | buddy.cpp:325-335 | a block that no free block overlaps is not itself on its order's list |
| FreeArea.FreeOfExcludes | buddy.cpp:325-335 | no page of a block that no free block overlaps starts a listed block at any order |
| FreeArea.InsertKeepsWellFormed | buddy.cpp:168-186 | inserting an in-range, aligned block that no free block overlaps keeps the table well formed, adds 2^k free pages, and frees exactly the block's pages in addition |
| FreeArea.InsertKeepsSorted | buddy.cpp:176-182 | inserting an unlisted block keeps every list strictly ascending |
| FreeArea.InsertKeepsInRange | buddy.cpp:168-186 | inserting an in-range aligned block keeps every listed block in range and aligned |
| FreeArea.InsertKeepsNoOverlap | buddy.cpp:168-186 | inserting a block that no free block overlaps keeps the free blocks pairwise disjoint |
| FreeArea.InsertPageFree | buddy.cpp:168-186 | after an insert, a page is free exactly when it was free or lies in the inserted block |
| FreeArea.RemoveKeepsWellFormed | buddy.cpp:194-208 | removing a listed block keeps the table well formed, takes away 2^k free pages exactly the block's, and leaves no free block overlapping it |
| FreeArea.RemovePageFree | buddy.cpp:194-208 | after a remove, a page is free exactly when it was free and is not in the removed block |
| FreeArea.FreeOfLowerHalf | buddy.cpp:218-242 | the lower half of a block that no free block overlaps is itself overlapped by no free block |
| FreeArea.SplitKeepsWellFormed | buddy.cpp:218-242 | split_block keeps the table well formed, the free-page count and the set of free pages; only the split block and its two halves change lists |
| FreeArea.SplitLeftHalf | buddy.cpp:236-237 | after split_block removes the block and lists its left half, the table is well formed, the left half's pages are free again, the right half's are not yet, and no free block overlaps the right half |
| FreeArea.FreeOfMerged | buddy.cpp:252-276 | once both buddies are removed, no remaining free block overlaps the merged block |
| FreeArea.MergeKeepsWellFormed | buddy.cpp:252-276 | merge_block keeps the table well formed, the free-page count and the set of free pages; the merged block is aligned one order up |
| FreeArea.RemovePair | buddy.cpp:264-273 | removing both blocks of a listed pair keeps the table well formed, takes away exactly their 2^(k+1) pages, and leaves no free block overlapping the merged block |
| FreeArea.BuddyPfnInvolution | buddy.cpp:150-158 | the buddy of the buddy of an aligned block is the block |
| FreeArea.CoalescedExceptBuddy | buddy.cpp:82-104 | the single allowed un-merged pair may be named by either of its blocks |
| FreeArea.InsertCoalescedExcept | buddy.cpp:334-335 | inserting a block into a coalesced table can leave un-merged only the block's own pair |
| FreeArea.StopCoalesced | buddy.cpp:87-103 | where page_merge stops (MAX_ORDER, or buddy not free) the table is coalesced |
| FreeArea.CoalescedAnyExcept | buddy.cpp:82-104 | a coalesced table is coalesced with any allowed exception |
| FreeArea.MergeCoalescedExcept | buddy.cpp:92-97 | merging the un-merged pair moves the only possible un-merged pair to the merged block one order up |
| FreeArea.SplitCoalescedExcept | buddy.cpp:218-242 | splitting a block of the un-merged pair makes its two halves the only possible un-merged pair |
| FreeArea.RemoveCoalesced | buddy.cpp:194-208 | removing a block of the only un-merged pair leaves the table coalesced |
| FreeLinks.ListedInRange | buddy.cpp:172-182 | every listed block is a valid page-descriptor index |
| FreeLinks.LinkedFrame | buddy.cpp:176-182 | changing links outside a list leaves the list as it was |
| FreeLinks.LinkAt | buddy.cpp:61-66 | following the `next_free` link of the m-th block of a list reaches the (m+1)-th, or NULL after the last |
| FreeLinks.LinkedInsert | buddy.cpp:176-182 | relinking at the slot where insert_block stops spells out the list with the block spliced in there |
| FreeLinks.LinkedRemove | buddy.cpp:198-207 | relinking the slot found by remove_block spells out the list without that block |
| FreeLinks.InsertLinks | buddy.cpp:168-186 | the heads and links after insert_block represent the table after the insert, and every other list keeps its links |
| FreeLinks.RemoveLinks | buddy.cpp:194-208 | the heads and links after remove_block represent the table after the remove, and every other list keeps its links |
| Release.PageMerge | buddy.cpp:82-104 | page_merge ends at an order between the start order and MAX_ORDER, with its block listed at that order |
| Release.PageMergeStep | buddy.cpp:92-97 | one merge: the merged block is listed and aligned one order up, and page_merge continues from it |
| Release.PageMergeStops | buddy.cpp:87-103 | page_merge ends with a block aligned for its final order, and stops only at MAX_ORDER or where that block's buddy is not free |
| Release.MergeUpStops | buddy.cpp:92-103 | the merging case of PageMergeStops: after one merge, page_merge still ends aligned and stops only at MAX_ORDER or at a block whose buddy is not free |
| Release.PageMergeKeeps | buddy.cpp:82-104 | page_merge keeps the table well formed and the free-page count |
| Release.MergeUpKeeps | buddy.cpp:92-103 | the merging case of PageMergeKeeps: one merge and the rest of page_merge keep the table well formed and the free-page count |
| Release.PageMergeSameFree | buddy.cpp:82-104 | page_merge leaves exactly the same pages free |
| Release.MergeUpSameFree | buddy.cpp:92-103 | the merging case of PageMergeSameFree: one merge and the rest of page_merge leave the same pages free |
| Release.PageMergeExcept | buddy.cpp:92-102 | while merging, the only un-merged pair that may remain is the current block's |
| Release.MergeUpExcept | buddy.cpp:92-103 | the merging case of PageMergeExcept: after one merge, the only un-merged pair left is the final block's |
| Release.PageMergeCoalesced | buddy.cpp:82-104 | page_merge from a table un-merged only at the current block's pair ends coalesced |
| Release.FreePages | buddy.cpp:325-340 | free_pages keeps the table shape: one list per order 0..MAX_ORDER |
| Release.FreePagesKeeps | buddy.cpp:325-340 | free_pages of an aligned, in-range, allocated block keeps the table well formed and coalesced, adds exactly 2^order free pages, and frees exactly the block's pages in addition |
| Allocate.FirstNonEmpty | buddy.cpp:300-311 | the upward walk of alloc_pages finds the lowest non-empty order at or above `order`, and none exactly when all those lists are empty |
| Allocate.FirstNonEmptyAt | buddy.cpp:302-311 | the walk passes empty lists and stops at the first non-empty one |
| Allocate.SplitDown | buddy.cpp:302-309 | the downward walk of alloc_pages keeps the block listed, and aligned, at each lower order |
| Allocate.SplitDownStep | buddy.cpp:306-308 | splitting down leaves lower lists alone, and one more split goes one order further down |
| Allocate.SplitDownStepAbove | buddy.cpp:306-308 | the case of SplitDownStep where the walk still splits above the target order |
| Allocate.SplitOntoEmpty | buddy.cpp:306-308 | split_block onto an empty lower list leaves exactly the two halves there and no other list changed |
| Allocate.SplitDownNext | buddy.cpp:306-308 | below the first non-empty order, each split puts exactly the carried block and its buddy on the next lower list |
| Allocate.SplitDownKeeps | buddy.cpp:302-309 | splitting down keeps the table well formed, the free-page count and the free pages, and leaves un-merged only the carried block's pair |
| Allocate.AllocPages | buddy.cpp:295-318 | alloc_pages returns NULL exactly when every list from `order` to MAX_ORDER is empty, and then changes nothing; when the order-`order` list is non-empty it returns its head without splitting |
| Allocate.AllocPagesKeeps | buddy.cpp:295-318 | a returned block is aligned, in range, on no list and overlapped by no free block; all its pages were free before; the table stays well formed and coalesced; exactly its 2^order pages stop being free |
| Allocate.MergeUndoesSplitDown | buddy.cpp:82-104 | on a coalesced table, page_merge from the block that the downward split of alloc_pages carries gives back the table before the split |
| Allocate.AllocFreeRoundTrip | buddy.cpp:295-340 | on a well-formed, coalesced table, free_pages of the block alloc_pages just returned, at the same order, gives back the table before the allocation |
| Reserve.FirstContaining | buddy.cpp:381-389 | the list scan of reserve_page returns a listed block containing the page, and nothing exactly when no block of the list contains it |
| Reserve.FirstContainingAt | buddy.cpp:381-389 | the scan stops at the first block containing the page |
| Reserve.FindContaining | buddy.cpp:350-392 | the search from order k down finds an order and listed block containing the page, and nothing exactly when no block at orders 0..k contains it |
| Reserve.FindContainingFrom | buddy.cpp:380-392 | when no block above order k contains the page, the search from MAX_ORDER is the search from k |
| Reserve.SplitTo | buddy.cpp:366-377 | splitting toward the page ends with the page listed as an order-0 block |
| Reserve.SplitToStep | buddy.cpp:366-377 | one split: the half containing the page (the left one, or its buddy) is listed one order down and the splitting continues from it |
| Reserve.SplitToKeeps | buddy.cpp:366-377 | splitting toward the page keeps the table well formed, the free-page count and the free pages |
| Reserve.SplitToCoalesced | buddy.cpp:366-377 | splitting toward the page leaves un-merged only the page's own order-0 pair |
| Reserve.ReservePage | buddy.cpp:348-397 | reserve_page succeeds exactly when some free block at some order contains the page; on failure the table is unchanged |
| Reserve.ReservePageKeeps | buddy.cpp:348-397 | reserve_page keeps the table well formed and coalesced; on success the page is in range, exactly that page stops being free, and the free count drops by one |
| InitLayout.InitBlocks | buddy.cpp:404-432 | init hands over no block exactly when there are no pages |
| InitLayout.InsertAll | buddy.cpp:421-422 | inserting init's blocks one by one keeps the table shape and never drops a listed block |
| InitLayout.InitTable | buddy.cpp:404-432 | the init table has one list per order, and init over no pages leaves every list empty |
| InitLayout.InitBlocksTake | buddy.cpp:421-425 | while a whole block fits, init inserts it and carries on one block further |
| InitLayout.InsertAllFront | buddy.cpp:421-425 | inserting a block and then the rest is the same as inserting the whole sequence |
| InitLayout.InitStep | buddy.cpp:421-425 | one pass of the inner loop: the block goes in, the rest starts one block further on, still aligned |
| InitLayout.InitBlocksDrop | buddy.cpp:427-429 | when no whole block fits in the pages left, init goes one order down |
| InitLayout.NextOrder | buddy.cpp:427-429 | going one order down keeps the start aligned and the blocks still to insert |
| InitLayout.InitBlocksOrders | buddy.cpp:410-427 | no block init inserts from an order is of a larger order |
| InitLayout.Decompose | buddy.cpp:416-419 | block_num whole blocks and a remainder below one block make up the remaining pages |
| InitLayout.RunStep | buddy.cpp:421-424 | inside the inner loop at least one whole block lies ahead, and a whole number remain after it |
| InitLayout.InitBlocksBelow | buddy.cpp:427-429 | when not one block of an order fits, every later block is of a lower order |
| InitLayout.InitBlocksTile | buddy.cpp:414-429 | from an aligned base, the blocks of init lie back to back over exactly [base, base + remaining), each aligned for its order |
| InitLayout.InitBlocksLargestFirst | buddy.cpp:414-429 | the blocks of init come in non-increasing order, with each order below MAX_ORDER at most once |
| InitLayout.TakeLargestFirst | buddy.cpp:421-425 | when a whole block fits, init hands it over ahead of only smaller blocks, or of further order-MAX_ORDER blocks at MAX_ORDER |
| InitLayout.RunBlocks | buddy.cpp:416-425 | with q whole blocks of an order in the pages left, the first q blocks are those, back to back, and later ones are of lower orders |
| InitLayout.InitBlocksSpec | buddy.cpp:404-432 | init over n pages inserts, back to back from page 0 to n, first ⌊n / 2^MAX_ORDER⌋ order-MAX_ORDER blocks and then at most one block of each lower order, each aligned |
| InitLayout.InsertAllMembers | buddy.cpp:421-422 | after init's inserts, a block is listed at an order exactly when it was inserted at that order |
| InitLayout.InsertTiling | buddy.cpp:414-429 | inserting aligned blocks that tile [0, n) gives a well-formed table that frees exactly the pages [0, n) |
| InitLayout.InsertTilingLast | buddy.cpp:421-422 | the blocks before the last tile the pages up to its start, and inserting the last one extends the free pages to the end |
| InitLayout.InitTableSpec | buddy.cpp:404-432 | the table init builds over n pages is well formed and coalesced, frees exactly the pages [0, n) (n of them), and has at most one block at each order below MAX_ORDER |
| InitLayout.InitTableOnePerOrder | buddy.cpp:414-429 | below MAX_ORDER, the init table lists at most one block at each order |
| Buddy.BuddyPageAllocator.constructor | buddy.cpp:282-287 | every list head is NULL: the represented table is empty and valid |
| Buddy.BuddyPageAllocator.PageIsFree | buddy.cpp:57-70 | the slot found points at `pgd`, and one is found exactly when `pgd` is on the order's list |
| Buddy.BuddyPageAllocator.InsertBlock | buddy.cpp:168-186 | the links now represent the table after insert_block, and the returned slot points at the block |
| Buddy.BuddyPageAllocator.RemoveBlock | buddy.cpp:194-208 | the links now represent the table after remove_block, and the block's `next_free` is NULL |
| Buddy.BuddyPageAllocator.SplitBlock | buddy.cpp:218-242 | the links now represent the table after split_block, and the left half (the block) is returned |
| Buddy.BuddyPageAllocator.MergeBlock | buddy.cpp:252-276 | the links now represent the table after merge_block, and the returned slot points at the merged block |
| Buddy.BuddyPageAllocator.MergeUp | buddy.cpp:94-95 | one pass of page_merge's loop: merge, step one order up, and page_merge carries on from the merged block |
| Buddy.BuddyPageAllocator.PageMerge | buddy.cpp:82-104 | the loop ends with the table, block and order that the page_merge function gives |
| Buddy.BuddyPageAllocator.FreePages | buddy.cpp:325-340 | the allocator invariant holds, the lists are free_pages of the old ones, and 2^order more pages are free |
| Buddy.BuddyPageAllocator.SplitLower | buddy.cpp:306-308 | one downward pass of alloc_pages: split the carried block and step one order down, where it heads the list |
| Buddy.BuddyPageAllocator.AllocPages | buddy.cpp:295-318 | the allocator invariant holds, the lists and the returned block are alloc_pages of the old lists, and 2^order fewer pages are free unless NULL is returned |
| Buddy.BuddyPageAllocator.FindInList | buddy.cpp:381-389 | the scan returns the first block of the list containing the page, or NULL |
| Buddy.BuddyPageAllocator.SplitToward | buddy.cpp:366-377 | one split of reserve_page: the returned half is listed one order down, contains the page, and the rest of the splitting continues from it |
| Buddy.BuddyPageAllocator.TakePage | buddy.cpp:357-362 | at order 0 the page is found and removed, leaving the table reserve_page gives, valid and with one free page fewer |
| Buddy.BuddyPageAllocator.SplitAndTake | buddy.cpp:357-377 | the splitting loop and the final removal leave the table reserve_page gives, valid and with one free page fewer |
| Buddy.BuddyPageAllocator.ReservePage | buddy.cpp:348-397 | the allocator invariant holds, the lists and the result are reserve_page of the old lists, and one page fewer is free exactly on success |
| Buddy.BuddyPageAllocator.InsertRun | buddy.cpp:421-425 | the inner loop of init inserts the whole blocks up to `final_block`, and what is left to insert still completes the init table |
| Buddy.BuddyPageAllocator.FreeOrder | buddy.cpp:416-425 | one pass of the do-while loop of init frees the whole blocks of the order that fit, leaves fewer than 2^order pages, and what is left to insert still completes the init table |
| Buddy.BuddyPageAllocator.FreeOrders | buddy.cpp:410-429 | the do-while loop of init builds exactly the init table for the page count |
| Buddy.BuddyPageAllocator.Init | buddy.cpp:404-432 | init returns true, the allocator invariant holds, the lists are the init table, and all n pages are free |
| Findings.InitIndexesPastDeclaredArray | buddy.cpp:410-422 | with at least 2^MAX_ORDER pages, init first inserts a block of order MAX_ORDER, an order with no entry in the array as declared |
| Findings.InitOverrunAtOneMaxBlock | buddy.cpp:410-422 | init over exactly 2^17 pages inserts one block, of order 17, past the declared array |
| Findings.InitOrdersHaveLists | buddy.cpp:466 | with MAX_ORDER + 1 lists, one more than declared, every block init inserts has a list for its order |

## Left out

- `dump_state`, `name()`, the debug log message in `init` and `RegisterPageAllocator` are not modelled. They are logging and registration only.
- The frame-number translation `pgd_to_pfn` / `pfn_to_pgd` is the identity: a page descriptor is its index. Pointer comparison is comparison of indices. Page descriptor fields other than `next_free` are not modelled.
- `init` is modelled with the page array starting at frame 0 and on a freshly constructed allocator (all lists empty). `Buddy.BuddyPageAllocator.Init` requires both.
- Page conservation is stated as exact changes in the number of free pages (`FreeArea.FreeCount`) per operation. The source keeps no count of allocated pages, so none is modelled.
- Buddy.BuddyPageAllocator.FreePages: requires the freed block to lie inside the pages given to `init` and to be allocated (no free block overlaps it). The source leaves a double free or a foreign block undefined and does not check it.
- Buddy.BuddyPageAllocator.ReservePage: the `return false` after `page_is_free` at order 0 (buddy.cpp:360) is proved unreachable, because the splitting always leaves the page listed at order 0. The model asserts this instead of returning false there.
- Buddy.BuddyPageAllocator.AllocPages: the `index_order < 0` test (buddy.cpp:304) is kept as in the source. It can never be true, since `index_order` only rises from a non-negative order before any split.
- The asserts of the source (the alignment and order checks, and remove_block's presence check) are preconditions of the methods and functions. A call that violates them would panic the kernel; the model proves that no call in it does.
- The loops of `page_merge`, `alloc_pages`, `reserve_page` and `init` keep their shape, but parts of their bodies are separate methods: `MergeUp`, `SplitLower`, `FindInList`, `SplitToward`, `SplitAndTake`, `TakePage`, `InsertRun`, `FreeOrder` and `FreeOrders`. `reserve_page` is one `while` loop in the source. In the model it is the downward search loop followed by `SplitAndTake`'s split loop. The blocks are split and removed in the same order.
- InitLayout.InsertAll passes over a block of an order above MAX_ORDER. `init` never produces one (`InitLayout.InitBlocksOrders`).
- Integers are unbounded. The source's `uint64_t` page counts and `int` orders never come near their limits for orders up to 17, so wrap-around is not modelled.
- Concurrency is not modelled. The allocator is called under an external lock.

## Findings

| source | as written | input that shows it | evidently intended | confidence | as-written member | corrected member |
|---|---|---|---|---|---|---|
| buddy.cpp:466 | `_free_areas` is declared with `MAX_ORDER` entries (orders 0..16). The code still uses order `MAX_ORDER`: alloc_pages accepts it and reads `_free_areas[order]` (buddy.cpp:297, 301, 304-306), reserve_page starts its search there (buddy.cpp:350, 381), and init inserts its largest blocks there (buddy.cpp:410, 422). Each of these indexes one entry past the array. | `init` over 2^17 = 131072 pages calls `insert_block(pd, 17)`, which writes `_free_areas[17]` | one list per order 0..MAX_ORDER, i.e. `MAX_ORDER + 1` entries, as the asserts on the order range state | high (not executed) | Findings.InitOverrunAtOneMaxBlock | Findings.InitOrdersHaveLists |
