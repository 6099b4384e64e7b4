/**
 * The buddy page allocator as an object: one list head per order and the
 * `next_free` link of every page descriptor, relinked in place.  The ghost
 * field `lists` is the table of list contents the links spell out; every
 * operation is proved to change it as the matching function of the table
 * model does, and the lemmas about those functions give the allocator's
 * guarantees.
 */
module Buddy {
  import opened Wrappers
  import opened BuddyMath
  import opened SortedList
  import opened FreeArea
  import opened FreeLinks
  import opened Release
  import Allocate
  import Reserve
  import InitLayout

  /**
   * A slot: the place that points at a block, either the list head of an
   * order or the `next_free` link of a page.
   */
  datatype Slot = Head(order: nat) | Link(pfn: int)

  /** NULL for a missing block. */
  function OrNull(b: Option<int>): int
  {
    if b.Some? then b.value else NULL
  }

  class BuddyPageAllocator {
    /** `_free_areas`: the first block of each order's free list, or NULL. */
    var heads: array<int>
    /** The `next_free` link of each page descriptor, indexed by frame number. */
    var next: array<int>
    /** The blocks on each order's free list, in list order. */
    ghost var lists: Table
    /** The number of pages handed to init. */
    ghost var pageCount: nat

    /** The heads and links represent `lists`. */
    ghost predicate ListsValid()
      reads this`heads, this`next, this`lists, heads, next
    {
      heads.Length == MAX_ORDER + 1 && heads != next && Represents(heads[..], next[..], lists)
    }

    /**
     * The allocator invariant: the lists are represented, every free block is
     * aligned and inside the first `pageCount` pages, no two free blocks share
     * a page, and no block's buddy is free at its order.
     */
    ghost predicate Valid()
      reads this, heads, next
    {
      ListsValid() && WellFormed(lists, pageCount) && pageCount <= next.Length && Coalesced(lists)
    }

    /** Everything but the list contents is as it was. */
    ghost predicate Kept(h: array<int>, n: array<int>, pc: nat)
      reads this
    {
      heads == h && next == n && pageCount == pc
    }

    /** The block a slot points at. */
    function Deref(slot: Slot): int
      reads this, heads, next
    {
      match slot
      case Head(k) => if k < heads.Length then heads[k] else NULL
      case Link(p) => if 0 <= p < next.Length then next[p] else NULL
    }

    /** The constructor: every free area starts empty, and no page is known yet. */
    constructor()
      ensures ListsValid() && Valid()
      ensures lists == EmptyTable() && pageCount == 0
      ensures fresh(heads) && fresh(next)
    {
      var h := new int[MAX_ORDER + 1];
      var i := 0;
      while i < h.Length
        invariant 0 <= i <= h.Length
        invariant forall j :: 0 <= j < i ==> h[j] == NULL
      {
        h[i] := NULL;
        i := i + 1;
      }
      heads := h;
      next := new int[0];
      lists := EmptyTable();
      pageCount := 0;
    }

    /**
     * page_is_free: the slot pointing at `pgd` in the order-`order` list,
     * or None (a null slot) when the block is not on that list.
     */
    method PageIsFree(pgd: int, order: nat) returns (slot: Option<Slot>)
      requires ListsValid() && order <= MAX_ORDER
      ensures slot.Some? <==> pgd in lists[order]
      ensures slot.Some? ==> Deref(slot.value) == pgd
    {
      ghost var s := lists[order];
      assert Linked(heads[..][order], s, next[..]);
      var point := Head(order);
      ghost var j := 0;
      while Deref(point) != NULL
        invariant 0 <= j <= |s|
        invariant point == if j == 0 then Head(order) else Link(s[j - 1])
        invariant Deref(point) == if j < |s| then s[j] else NULL
        invariant forall i :: 0 <= i < j ==> s[i] != pgd
        decreases |s| - j
      {
        if Deref(point) == pgd {
          return Some(point);
        }
        LinkAt(heads[..][order], s, next[..], j);
        point := Link(Deref(point));
        j := j + 1;
      }
      slot := None;
    }

    /**
     * insert_block: `pgd` is spliced into the order-`order` list in front of
     * the first block not below it; the returned slot points at it.  A page
     * descriptor has one link, so `pgd` must be on no list already.
     */
    method InsertBlock(pgd: int, order: nat) returns (slot: Slot)
      requires ListsValid() && order <= MAX_ORDER
      requires 0 <= pgd < next.Length && forall k :: 0 <= k < |lists| ==> pgd !in lists[k]
      modifies this, heads, next
      ensures ListsValid() && Kept(old(heads), old(next), old(pageCount))
      ensures lists == FreeArea.InsertBlock(old(lists), order, pgd)
      ensures Deref(slot) == pgd
    {
      ghost var s := lists[order];
      ghost var h0 := heads[..];
      ghost var n0 := next[..];
      ghost var t0 := lists;
      assert Linked(h0[order], s, n0);
      slot := Head(order);
      ghost var j := 0;
      while Deref(slot) != NULL && pgd > Deref(slot)
        invariant Kept(old(heads), old(next), old(pageCount))
        invariant heads[..] == h0 && next[..] == n0 && lists == t0
        invariant 0 <= j <= |s|
        invariant slot == if j == 0 then Head(order) else Link(s[j - 1])
        invariant Deref(slot) == if j < |s| then s[j] else NULL
        invariant forall i :: 0 <= i < j ==> s[i] < pgd
        decreases |s| - j
      {
        LinkAt(h0[order], s, n0, j);
        slot := Link(Deref(slot));
        j := j + 1;
      }
      if j < |s| {
        LinkAt(h0[order], s, n0, j);
      }
      InsertLinks(h0, n0, lists, order, j, pgd);
      var succ := Deref(slot);
      next[pgd] := succ;
      match slot {
        case Head(k) => heads[k] := pgd;
        case Link(p) => next[p] := pgd;
      }
      assert heads[..] == if j == 0 then h0[order := pgd] else h0;
      assert next[..] == if j == 0 then n0[pgd := succ] else n0[pgd := succ][s[j - 1] := pgd];
      lists := FreeArea.InsertBlock(lists, order, pgd);
    }

    /**
     * remove_block: `pgd`, which must be on the order-`order` list, is
     * unlinked from it, and its own link is cleared.
     */
    method RemoveBlock(pgd: int, order: nat)
      requires ListsValid() && order <= MAX_ORDER && pgd in lists[order]
      modifies this, heads, next
      ensures ListsValid() && Kept(old(heads), old(next), old(pageCount))
      ensures lists == FreeArea.RemoveBlock(old(lists), order, pgd)
      ensures next[pgd] == NULL
    {
      ghost var s := lists[order];
      ghost var h0 := heads[..];
      ghost var n0 := next[..];
      ghost var t0 := lists;
      assert Linked(h0[order], s, n0);
      var slot := Head(order);
      ghost var j := 0;
      while Deref(slot) != NULL && pgd != Deref(slot)
        invariant Kept(old(heads), old(next), old(pageCount))
        invariant heads[..] == h0 && next[..] == n0 && lists == t0
        invariant 0 <= j <= |s|
        invariant slot == if j == 0 then Head(order) else Link(s[j - 1])
        invariant Deref(slot) == if j < |s| then s[j] else NULL
        invariant forall i :: 0 <= i < j ==> s[i] != pgd
        decreases |s| - j
      {
        LinkAt(h0[order], s, n0, j);
        slot := Link(Deref(slot));
        j := j + 1;
      }
      assert Deref(slot) == pgd;
      RemoveLinks(h0, n0, lists, order, j);
      var succ := next[pgd];
      match slot {
        case Head(k) => heads[k] := succ;
        case Link(p) => next[p] := succ;
      }
      next[pgd] := NULL;
      assert heads[..] == if j == 0 then h0[order := succ] else h0;
      assert next[..] == if j == 0 then n0[pgd := NULL] else n0[s[j - 1] := succ][pgd := NULL];
      lists := FreeArea.RemoveBlock(lists, order, pgd);
    }

    /**
     * split_block: the order-`order` block `block` leaves its list and its two
     * halves, `block` and its order-(order-1) buddy, join the list one order
     * down; the left half is returned.
     */
    method SplitBlock(block: int, order: nat) returns (left: int)
      requires ListsValid() && WellFormed(lists, pageCount) && pageCount <= next.Length
      requires 0 < order <= MAX_ORDER && block in lists[order]
      modifies this, heads, next
      ensures ListsValid() && Kept(old(heads), old(next), old(pageCount))
      ensures lists == FreeArea.SplitBlock(old(lists), order, block)
      ensures left == block
    {
      ghost var t0 := lists;
      SplitKeepsWellFormed(t0, pageCount, order, block);
      var target := order - 1;
      left := block;
      var right := BuddyOf(left, target).value;
      assert right == block + PagesPerBlock(target) && Contains(block, order, right);
      RemoveBlock(block, order);
      RemoveKeepsWellFormed(t0, pageCount, order, block);
      forall k | 0 <= k < |lists|
        ensures left !in lists[k] && right !in lists[k]
      {
        FreeOfExcludes(lists, block, order, left, k);
        FreeOfExcludes(lists, block, order, right, k);
      }
      ghost var t1 := lists;
      var _ := InsertBlock(left, target);
      var _ := InsertBlock(right, target);
      SplitBlockSteps(t0, order, block, t1, right);
    }

    /**
     * merge_block: block `block` and its buddy, both on the order-`order`
     * list, leave it and the lower of the two joins the next order; the
     * returned slot points at the merged block.
     */
    method MergeBlock(block: int, order: nat) returns (slot: Slot)
      requires ListsValid() && WellFormed(lists, pageCount) && pageCount <= next.Length
      requires order < MAX_ORDER && block in lists[order] && BuddyPfn(block, order) in lists[order]
      modifies this, heads, next
      ensures ListsValid() && Kept(old(heads), old(next), old(pageCount))
      ensures lists == FreeArea.MergeBlock(old(lists), order, block)
      ensures Deref(slot) == MergedStart(block, order)
    {
      ghost var t0 := lists;
      var target := order + 1;
      var leftBuddy := block;
      var rightBuddy := BuddyOf(leftBuddy, order).value;
      if leftBuddy > rightBuddy {
        var temp := leftBuddy;
        leftBuddy := rightBuddy;
        rightBuddy := temp;
      }
      ListedInRange(heads[..], next[..], lists, order, leftBuddy);
      RemoveBlock(leftBuddy, order);
      RemoveMembers(t0, order, leftBuddy);
      ghost var t1 := lists;
      RemoveBlock(rightBuddy, order);
      RemoveMembers(t1, order, rightBuddy);
      slot := InsertBlock(leftBuddy, target);
    }

    /**
     * One merge on the way up in page_merge: merge `block` with its free
     * buddy and return the merged block and its order, one up.
     */
    method MergeUp(block: int, order: nat) returns (merged: int, target: nat)
      requires ListsValid() && WellFormed(lists, pageCount) && pageCount <= next.Length
      requires order < MAX_ORDER && block in lists[order] && BuddyPfn(block, order) in lists[order]
      modifies this, heads, next
      ensures ListsValid() && WellFormed(lists, pageCount) && Kept(old(heads), old(next), old(pageCount))
      ensures target == order + 1
      ensures lists == FreeArea.MergeBlock(old(lists), order, block)
      ensures merged == MergedStart(block, order) && merged in lists[target] && IsAligned(merged, target)
      ensures Release.PageMerge(old(lists), block, order) == Release.PageMerge(lists, merged, target)
    {
      ghost var t0 := lists;
      assert WellFormed(FreeArea.MergeBlock(t0, order, block), pageCount) by {
        MergeKeepsWellFormed(t0, pageCount, order, block);
      }
      assert MergedStart(block, order) in FreeArea.MergeBlock(t0, order, block)[order + 1] &&
        IsAligned(MergedStart(block, order), order + 1) &&
        Release.PageMerge(t0, block, order) == Release.PageMerge(FreeArea.MergeBlock(t0, order, block), MergedStart(block, order), order + 1) by {
        Release.PageMergeStep(t0, block, order);
      }
      var slot := MergeBlock(block, order);
      merged := Deref(slot);
      target := order + 1;
    }

    /**
     * page_merge: while below MAX_ORDER and the buddy of the current block is
     * free at the current order, merge the two and go one order up; the order
     * and block it stops at are returned.
     */
    method PageMerge(pgd: int, order: nat) returns (mergedOrder: nat, block: int)
      requires ListsValid() && WellFormed(lists, pageCount) && pageCount <= next.Length
      requires order <= MAX_ORDER && pgd in lists[order]
      modifies this, heads, next
      ensures ListsValid() && Kept(old(heads), old(next), old(pageCount))
      ensures Release.PageMerge(old(lists), pgd, order) == Release.Merged(lists, block, mergedOrder)
    {
      ghost var t0 := lists;
      block := pgd;
      mergedOrder := order;
      if mergedOrder == MAX_ORDER {
        assert Release.PageMerge(t0, pgd, order) == Release.Merged(t0, pgd, order);
        return;
      }
      var toBeMerged := OrNull(BuddyOf(block, mergedOrder));
      var slot := PageIsFree(toBeMerged, mergedOrder);
      while slot.Some?
        invariant ListsValid() && WellFormed(lists, pageCount)
        invariant Kept(old(heads), old(next), old(pageCount))
        invariant mergedOrder < MAX_ORDER && block in lists[mergedOrder] && IsAligned(block, mergedOrder)
        invariant toBeMerged == BuddyPfn(block, mergedOrder)
        invariant slot.Some? <==> toBeMerged in lists[mergedOrder]
        invariant Release.PageMerge(t0, pgd, order) == Release.PageMerge(lists, block, mergedOrder)
        decreases MAX_ORDER - mergedOrder
      {
        block, mergedOrder := MergeUp(block, mergedOrder);
        toBeMerged := OrNull(BuddyOf(block, mergedOrder));
        if mergedOrder == MAX_ORDER {
          assert Release.PageMerge(lists, block, mergedOrder) == Release.Merged(lists, block, mergedOrder);
          break;
        }
        slot := PageIsFree(toBeMerged, mergedOrder);
      }
      assert Release.PageMerge(lists, block, mergedOrder) == Release.Merged(lists, block, mergedOrder);
    }

    /**
     * free_pages: the block goes back on its order's list and is merged as
     * far as it goes.  The block must be aligned for its order, inside the
     * pages init was given, and allocated: no free block overlaps it.
     */
    method FreePages(pgd: int, order: nat)
      requires Valid() && order <= MAX_ORDER && IsAligned(pgd, order)
      requires 0 <= pgd && pgd + PagesPerBlock(order) <= pageCount && FreeOf(lists, pgd, order)
      modifies this, heads, next
      ensures Valid() && Kept(old(heads), old(next), old(pageCount))
      ensures lists == Release.FreePages(old(lists), pgd, order)
      ensures FreeCount(lists) == FreeCount(old(lists)) + PagesPerBlock(order)
    {
      ghost var t0 := lists;
      forall k | 0 <= k < |lists|
        ensures pgd !in lists[k]
      {
        FreeOfExcludes(lists, pgd, order, pgd, k);
      }
      var _ := InsertBlock(pgd, order);
      InsertKeepsWellFormed(t0, pageCount, order, pgd);
      var _, _ := PageMerge(pgd, order);
      FreePagesKeeps(t0, pageCount, pgd, order);
    }

    /**
     * One iteration of the downward phase of alloc_pages: split the first
     * block at order `indexOrder`, the block being carried down, and step
     * one order down, where its lower half is now the first block.
     */
    method SplitLower(indexOrder: nat, ghost t0: Table, ghost order: nat, ghost top: nat) returns (freeBlock: int, lower: nat)
      requires ListsValid() && WellFormed(lists, pageCount) && pageCount <= next.Length
      requires IsTable(t0) && AllAligned(t0) && Allocate.FirstNonEmpty(t0, order) == Some(top)
      requires order < indexOrder <= top && lists == Allocate.SplitDown(t0, top, indexOrder, t0[top][0])
      requires heads[indexOrder] == t0[top][0]
      modifies this, heads, next
      ensures ListsValid() && WellFormed(lists, pageCount) && Kept(old(heads), old(next), old(pageCount))
      ensures lower + 1 == indexOrder
      ensures freeBlock == t0[top][0] && lists == Allocate.SplitDown(t0, top, lower, freeBlock)
      ensures freeBlock in lists[lower] && heads[lower] == freeBlock
    {
      ghost var t1 := lists;
      ghost var b := t0[top][0];
      Allocate.SplitDownNext(t0, order, top, indexOrder, b);
      SplitKeepsWellFormed(t1, pageCount, indexOrder, b);
      freeBlock := SplitBlock(heads[indexOrder], indexOrder);
      lower := indexOrder - 1;
      assert Linked(heads[..][lower], lists[lower], next[..]);
    }

    /**
     * alloc_pages: look upward from `order` for a non-empty list; NULL when
     * there is none.  Otherwise split its first block down to `order` and take
     * it off the order-`order` list.
     */
    method AllocPages(order: nat) returns (block: int)
      requires Valid() && order <= MAX_ORDER
      modifies this, heads, next
      ensures Valid()
      ensures lists == Allocate.AllocPages(old(lists), order).table
      ensures block == OrNull(Allocate.AllocPages(old(lists), order).block)
      ensures Kept(old(heads), old(next), old(pageCount))
      ensures FreeCount(lists) == FreeCount(old(lists)) - if block == NULL then 0 else PagesPerBlock(order)
    {
      ghost var t0 := lists;
      var indexOrder: int := order;
      var freeBlock := heads[order];
      // The order whose first block is being split down.
      ghost var top: nat := order;
      assert Linked(heads[..][order], t0[order], next[..]);
      if freeBlock != NULL {
        Allocate.FirstNonEmptyAt(t0, order, order);
      }
      while freeBlock == NULL || indexOrder > order
        invariant ListsValid() && WellFormed(lists, pageCount)
        invariant Kept(old(heads), old(next), old(pageCount))
        invariant order <= indexOrder <= MAX_ORDER + 1
        invariant freeBlock == NULL ==> lists == t0 && t0[order] == [] && forall i :: order <= i < indexOrder ==> t0[i] == []
        invariant freeBlock != NULL ==>
          indexOrder <= top <= MAX_ORDER && Allocate.FirstNonEmpty(t0, order) == Some(top) &&
          freeBlock == t0[top][0] && lists == Allocate.SplitDown(t0, top, indexOrder, freeBlock) &&
          freeBlock in lists[indexOrder] && heads[indexOrder] == freeBlock
        decreases if freeBlock == NULL then 2 * MAX_ORDER + 3 - indexOrder else indexOrder
      {
        if indexOrder > MAX_ORDER || indexOrder < 0 {
          return NULL;
        }
        assert Linked(heads[..][indexOrder], lists[indexOrder], next[..]);
        if heads[indexOrder] != NULL {
          if freeBlock == NULL {
            top := indexOrder;
            Allocate.FirstNonEmptyAt(t0, order, top);
            assert t0[top][0] in t0[top];
            assert lists == Allocate.SplitDown(t0, top, indexOrder, t0[top][0]);
          }
          freeBlock, indexOrder := SplitLower(indexOrder, t0, order, top);
        } else {
          indexOrder := indexOrder + 1;
        }
      }
      RemoveBlock(freeBlock, order);
      block := freeBlock;
      Allocate.AllocPagesKeeps(t0, pageCount, order);
    }

    /**
     * The scan of reserve_page through the order-`order` list: the first block,
     * in list order, that contains page `pgd`, or NULL when none does.
     */
    method FindInList(order: nat, pgd: int) returns (block: int)
      requires ListsValid() && order <= MAX_ORDER
      ensures block == OrNull(Reserve.FirstContaining(lists[order], order, pgd))
    {
      ghost var s := lists[order];
      assert Linked(heads[..][order], s, next[..]);
      block := heads[order];
      ghost var j := 0;
      while block != NULL
        invariant 0 <= j <= |s|
        invariant block == if j < |s| then s[j] else NULL
        invariant forall i :: 0 <= i < j ==> !Contains(s[i], order, pgd)
        decreases |s| - j
      {
        if Contains(block, order, pgd) {
          Reserve.FirstContainingAt(s, order, pgd, j);
          return;
        }
        LinkAt(heads[..][order], s, next[..], j);
        block := next[block];
        j := j + 1;
      }
    }

    /**
     * One split on the way down in reserve_page: split `block`, which contains
     * page `pgd`, and return the half that contains it and the order below.
     */
    method SplitToward(block: int, order: nat, pgd: int) returns (half: int, tempOrder: nat)
      requires ListsValid() && WellFormed(lists, pageCount) && pageCount <= next.Length
      requires 0 < order <= MAX_ORDER && block in lists[order] && Contains(block, order, pgd)
      modifies this, heads, next
      ensures ListsValid() && WellFormed(lists, pageCount)
      ensures Kept(old(heads), old(next), old(pageCount))
      ensures tempOrder + 1 == order
      ensures lists == FreeArea.SplitBlock(old(lists), order, block)
      ensures half in lists[tempOrder] && IsAligned(half, tempOrder) && Contains(half, tempOrder, pgd)
      ensures Reserve.SplitTo(old(lists), order, block, pgd) == Reserve.SplitTo(lists, tempOrder, half, pgd)
    {
      ghost var t1 := lists;
      SplitKeepsWellFormed(t1, pageCount, order, block);
      Reserve.SplitToStep(t1, order, block, pgd);
      var leftBuddy := SplitBlock(block, order);
      tempOrder := order - 1;
      if Contains(leftBuddy, tempOrder, pgd) {
        half := leftBuddy;
      } else {
        half := BuddyOf(leftBuddy, tempOrder).value;
      }
    }

    /**
     * The end of reserve_page: page `pgd` is now a free block of order 0, the
     * last of the splits of the block the search found, and comes off the
     * order-0 list.
     */
    method TakePage(pgd: int, ghost t0: Table, ghost k0: nat, ghost c0: int)
      requires ListsValid() && WellFormed(lists, pageCount) && pageCount <= next.Length
      requires WellFormed(t0, pageCount) && Coalesced(t0)
      requires pgd in lists[0] && Reserve.FindContaining(t0, |t0| - 1, pgd) == Some((k0, c0))
      requires lists == Reserve.SplitTo(t0, k0, c0, pgd)
      modifies this, heads, next
      ensures Valid() && Kept(old(heads), old(next), old(pageCount))
      ensures lists == Reserve.ReservePage(t0, pgd).table && Reserve.ReservePage(t0, pgd).ok
      ensures FreeCount(lists) == FreeCount(t0) - 1
    {
      var point := PageIsFree(pgd, 0);
      assert point.Some?;
      RemoveBlock(Deref(point.value), 0);
      assert WellFormed(lists, pageCount) && Coalesced(lists) && FreeCount(lists) == FreeCount(t0) - 1 by {
        Reserve.ReservePageKeeps(t0, pageCount, pgd);
      }
    }

    /**
     * The rest of reserve_page once the search has found the free block that
     * contains page `pgd`: split it, order by order, keeping the half that
     * contains the page, and at order 0 take the page off its list.
     */
    method SplitAndTake(order0: nat, block0: int, pgd: int, ghost t0: Table, ghost k0: nat, ghost c0: int)
      requires ListsValid() && WellFormed(lists, pageCount) && pageCount <= next.Length
      requires WellFormed(t0, pageCount) && Coalesced(t0)
      requires order0 <= MAX_ORDER && block0 in lists[order0] && IsAligned(block0, order0) && Contains(block0, order0, pgd)
      requires Reserve.FindContaining(t0, |t0| - 1, pgd) == Some((k0, c0))
      requires Reserve.SplitTo(lists, order0, block0, pgd) == Reserve.SplitTo(t0, k0, c0, pgd)
      modifies this, heads, next
      ensures Valid() && Kept(old(heads), old(next), old(pageCount))
      ensures lists == Reserve.ReservePage(t0, pgd).table && Reserve.ReservePage(t0, pgd).ok
      ensures FreeCount(lists) == FreeCount(t0) - 1
    {
      var order: nat := order0;
      var currentBlock := block0;
      while order != 0
        invariant ListsValid() && WellFormed(lists, pageCount) && pageCount <= next.Length
        invariant Kept(old(heads), old(next), old(pageCount))
        invariant order <= MAX_ORDER && currentBlock in lists[order] && IsAligned(currentBlock, order)
        invariant Contains(currentBlock, order, pgd)
        invariant Reserve.SplitTo(lists, order, currentBlock, pgd) == Reserve.SplitTo(t0, k0, c0, pgd)
      {
        currentBlock, order := SplitToward(currentBlock, order, pgd);
      }
      assert currentBlock == pgd by {
        assert PagesPerBlock(0) == 1;
      }
      TakePage(pgd, t0, k0, c0);
    }

    /**
     * reserve_page: search the lists from MAX_ORDER down for the free block
     * containing page `pgd`, split it down to that single page, and take the
     * page off the order-0 list; false, with nothing changed, when no free
     * block contains the page.
     */
    method ReservePage(pgd: int) returns (ok: bool)
      requires Valid()
      modifies this, heads, next
      ensures Valid()
      ensures lists == Reserve.ReservePage(old(lists), pgd).table
      ensures ok == Reserve.ReservePage(old(lists), pgd).ok
      ensures Kept(old(heads), old(next), old(pageCount))
      ensures FreeCount(lists) == FreeCount(old(lists)) - if ok then 1 else 0
    {
      ghost var t0 := lists;
      var order: int := MAX_ORDER;
      while order >= 0
        invariant Valid() && lists == t0 && Kept(old(heads), old(next), old(pageCount))
        invariant -1 <= order <= MAX_ORDER
        invariant forall i, c :: order < i <= MAX_ORDER && c in t0[i] ==> !Contains(c, i, pgd)
      {
        var currentBlock := FindInList(order, pgd);
        if currentBlock != NULL {
          assert Reserve.FindContaining(t0, |t0| - 1, pgd) == Some((order, currentBlock)) by {
            Reserve.FindContainingFrom(t0, order, pgd, |t0| - 1);
          }
          SplitAndTake(order, currentBlock, pgd, t0, order, currentBlock);
          return true;
        }
        order := order - 1;
      }
      ok := false;
    }

    /**
     * The inner loop of init: free the blocks of order `order` that start at
     * `pd`, `pd` + 2^order, … below `finalBlock`, a whole number of blocks
     * away.  Throughout, the blocks init has still to free from `pd` on,
     * inserted into the current lists, give the table init ends with.
     */
    method InsertRun(order: nat, pd0: int, finalBlock: int, remaining0: int) returns (pd: int, remainingPages: int)
      requires ListsValid() && order <= MAX_ORDER && pageCount <= next.Length
      requires 0 <= pd0 <= finalBlock && finalBlock - pd0 <= remaining0 && pd0 + remaining0 == pageCount
      requires IsAligned(pd0, order) && (finalBlock - pd0) % PagesPerBlock(order) == 0
      requires InitLayout.InsertAll(lists, InitLayout.InitBlocks(pd0, remaining0, order)) == InitLayout.InitTable(pageCount)
      requires forall k, c :: 0 <= k < |lists| && c in lists[k] ==> c < pd0
      modifies this, heads, next
      ensures ListsValid() && Kept(old(heads), old(next), old(pageCount))
      ensures pd == finalBlock && remainingPages == remaining0 - (finalBlock - pd0)
      ensures IsAligned(pd, order)
      ensures InitLayout.InsertAll(lists, InitLayout.InitBlocks(pd, remainingPages, order)) == InitLayout.InitTable(pageCount)
      ensures forall k, c :: 0 <= k < |lists| && c in lists[k] ==> c < pd
    {
      var blockSize := PagesPerBlock(order);
      pd, remainingPages := pd0, remaining0;
      while pd < finalBlock
        invariant ListsValid() && Kept(old(heads), old(next), old(pageCount))
        invariant pd0 <= pd <= finalBlock && pd - pd0 == remaining0 - remainingPages
        invariant IsAligned(pd, order) && (finalBlock - pd) % blockSize == 0
        invariant InitLayout.InsertAll(lists, InitLayout.InitBlocks(pd, remainingPages, order)) == InitLayout.InitTable(pageCount)
        invariant forall k, c :: 0 <= k < |lists| && c in lists[k] ==> c < pd
        decreases finalBlock - pd
      {
        forall k | 0 <= k < |lists|
          ensures pd !in lists[k]
        {
        }
        ghost var t, pd1, remaining1 := lists, pd, remainingPages;
        var _ := InsertBlock(pd, order);
        pd := pd + blockSize;
        remainingPages := remainingPages - blockSize;
        InitLayout.RunStep(finalBlock - pd1, blockSize, finalBlock - pd);
        InitLayout.InitStep(t, pd1, remaining1, order, pd, remainingPages);
      }
    }

    /**
     * One pass of init's do-while loop: `block_num` whole blocks of `order`
     * fit in the pages left; free them from `pd0` on.  Fewer than 2^order
     * pages are left afterwards.
     */
    method FreeOrder(order: nat, pd0: int, remaining0: int) returns (pd: int, remainingPages: int)
      requires ListsValid() && order <= MAX_ORDER && pageCount <= next.Length
      requires 0 <= pd0 && 0 <= remaining0 && pd0 + remaining0 == pageCount && IsAligned(pd0, order)
      requires InitLayout.InsertAll(lists, InitLayout.InitBlocks(pd0, remaining0, order)) == InitLayout.InitTable(pageCount)
      requires forall k, c :: 0 <= k < |lists| && c in lists[k] ==> c < pd0
      modifies this, heads, next
      ensures ListsValid() && Kept(old(heads), old(next), old(pageCount))
      ensures pd0 <= pd && 0 <= remainingPages < PagesPerBlock(order) && pd + remainingPages == pageCount
      ensures IsAligned(pd, order)
      ensures InitLayout.InsertAll(lists, InitLayout.InitBlocks(pd, remainingPages, order)) == InitLayout.InitTable(pageCount)
      ensures forall k, c :: 0 <= k < |lists| && c in lists[k] ==> c < pd
    {
      var blockSize := PagesPerBlock(order);
      var remainderPages := remaining0 % blockSize;
      var blockNum := (remaining0 - remainderPages) / blockSize;
      var finalBlock := pd0 + blockNum * blockSize;
      assert pd0 <= finalBlock && finalBlock - pd0 <= remaining0 && (finalBlock - pd0) % blockSize == 0 &&
        remaining0 - (finalBlock - pd0) < blockSize by {
        InitLayout.Decompose(remaining0, blockSize);
      }
      pd, remainingPages := InsertRun(order, pd0, finalBlock, remaining0);
    }

    /**
     * The do-while loop of init: from order MAX_ORDER down, free as many
     * blocks of each order as fit in the pages left, from the low end.
     */
    method FreeOrders(nrPageDescriptors: nat)
      requires ListsValid() && lists == EmptyTable() && pageCount == nrPageDescriptors <= next.Length
      modifies this, heads, next
      ensures ListsValid() && Kept(old(heads), old(next), old(pageCount))
      ensures lists == InitLayout.InitTable(pageCount)
    {
      var order: int := MAX_ORDER;
      var remainingPages: int := nrPageDescriptors;
      // The frame number page_descriptors points at: the first descriptor is frame 0.
      var pd := 0;
      while true
        invariant ListsValid() && Kept(old(heads), old(next), old(pageCount))
        invariant 0 <= order <= MAX_ORDER && 0 <= pd && 0 <= remainingPages
        invariant pd + remainingPages == pageCount
        invariant IsAligned(pd, order)
        invariant InitLayout.InsertAll(lists, InitLayout.InitBlocks(pd, remainingPages, order)) == InitLayout.InitTable(pageCount)
        invariant forall k, c :: 0 <= k < |lists| && c in lists[k] ==> c < pd
        decreases order
      {
        pd, remainingPages := FreeOrder(order, pd, remainingPages);
        ghost var order1 := order;
        order := order - 1;
        if remainingPages == 0 {
          break;
        }
        InitLayout.NextOrder(pd, remainingPages, order1, order);
      }
    }

    /**
     * init: take the page descriptors, whose `next_free` fields become the
     * links, and free pages [0, nrPageDescriptors): as many order-MAX_ORDER
     * blocks as fit, from the low end, then the remainder order by order.
     * The allocator must be fresh from the constructor.
     */
    method Init(pageDescriptors: array<int>, nrPageDescriptors: nat) returns (ok: bool)
      requires ListsValid() && lists == EmptyTable()
      requires nrPageDescriptors <= pageDescriptors.Length && pageDescriptors != heads
      modifies this, heads, pageDescriptors
      ensures Valid() && ok
      ensures heads == old(heads) && next == pageDescriptors
      ensures pageCount == nrPageDescriptors && FreeCount(lists) == nrPageDescriptors
      ensures lists == InitLayout.InitTable(nrPageDescriptors)
    {
      forall k | 0 <= k < |lists|
        ensures heads[k] == NULL
      {
        assert Linked(heads[..][k], lists[k], next[..]);
      }
      next := pageDescriptors;
      pageCount := nrPageDescriptors;
      assert Represents(heads[..], next[..], lists);
      FreeOrders(nrPageDescriptors);
      InitLayout.InitTableSpec(nrPageDescriptors);
      ok := true;
    }
  }
}
