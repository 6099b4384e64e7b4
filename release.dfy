/**
 * free_pages and page_merge on the free-area table: the released block goes
 * back on its order's list, then merges with its buddy, order by order, for as
 * long as the buddy is free.
 */
module Release {
  import opened BuddyMath
  import opened SortedList
  import opened FreeArea

  /** What page_merge ends with: the table, and the block and order it stopped at. */
  datatype Merged = Merged(table: Table, block: int, order: nat)

  /**
   * page_merge: below MAX_ORDER, while the buddy of the current block is on the
   * current order's list, merge the pair into the next order and continue
   * with the merged block.
   */
  function PageMerge(t: Table, b: int, k: nat): (r: Merged)
    requires IsTable(t) && k <= MAX_ORDER && IsAligned(b, k) && b in t[k]
    ensures IsTable(r.table) && k <= r.order <= MAX_ORDER
    ensures r.block in r.table[r.order]
    decreases MAX_ORDER - k
  {
    if k == MAX_ORDER then Merged(t, b, k)
    else if BuddyPfn(b, k) in t[k] then
      MergeBlockListsMerged(t, k, b);
      PageMerge(MergeBlock(t, k, b), MergedStart(b, k), k + 1)
    else Merged(t, b, k)
  }

  /**
   * page_merge ends with a block aligned for the order it ends at, and stops
   * only at MAX_ORDER or where that block's buddy is not free.
   */
  lemma {:induction false} PageMergeStops(t: Table, b: int, k: nat)
    requires IsTable(t) && k <= MAX_ORDER && IsAligned(b, k) && b in t[k]
    ensures IsAligned(PageMerge(t, b, k).block, PageMerge(t, b, k).order)
    ensures PageMerge(t, b, k).order == MAX_ORDER ||
      BuddyPfn(PageMerge(t, b, k).block, PageMerge(t, b, k).order) !in PageMerge(t, b, k).table[PageMerge(t, b, k).order]
    decreases MAX_ORDER - k, 1
  {
    if k < MAX_ORDER && BuddyPfn(b, k) in t[k] {
      MergeUpStops(t, b, k);
    } else {
      assert PageMerge(t, b, k) == Merged(t, b, k);
    }
  }

  /** The merging case of PageMergeStops. */
  lemma {:induction false} MergeUpStops(t: Table, b: int, k: nat)
    requires IsTable(t) && k < MAX_ORDER && IsAligned(b, k) && b in t[k] && BuddyPfn(b, k) in t[k]
    ensures IsAligned(PageMerge(t, b, k).block, PageMerge(t, b, k).order)
    ensures PageMerge(t, b, k).order == MAX_ORDER ||
      BuddyPfn(PageMerge(t, b, k).block, PageMerge(t, b, k).order) !in PageMerge(t, b, k).table[PageMerge(t, b, k).order]
    decreases MAX_ORDER - k, 0
  {
    var t1 := MergeBlock(t, k, b);
    var b1 := MergedStart(b, k);
    assert IsTable(t1) && b1 in t1[k + 1] && IsAligned(b1, k + 1) && PageMerge(t, b, k) == PageMerge(t1, b1, k + 1) by {
      PageMergeStep(t, b, k);
    }
    PageMergeStops(t1, b1, k + 1);
  }

  /** free_pages: insert the block at its order, then merge it as far as it goes. */
  function FreePages(t: Table, b: int, order: nat): (r: Table)
    requires IsTable(t) && order <= MAX_ORDER && IsAligned(b, order)
    ensures IsTable(r)
  {
    PageMerge(InsertBlock(t, order, b), b, order).table
  }

  /** One merge on the way up: page_merge of `b` continues from the merged block one order up. */
  lemma PageMergeStep(t: Table, b: int, k: nat)
    requires IsTable(t) && k < MAX_ORDER && IsAligned(b, k) && b in t[k] && BuddyPfn(b, k) in t[k]
    ensures MergedStart(b, k) in MergeBlock(t, k, b)[k + 1] && IsAligned(MergedStart(b, k), k + 1)
    ensures PageMerge(t, b, k) == PageMerge(MergeBlock(t, k, b), MergedStart(b, k), k + 1)
  {
    MergeBlockListsMerged(t, k, b);
  }

  /** page_merge keeps the table well formed and the number of free pages. */
  lemma {:induction false} PageMergeKeeps(t: Table, n: int, b: int, k: nat)
    requires WellFormed(t, n) && k <= MAX_ORDER && b in t[k]
    ensures IsAligned(b, k)
    ensures WellFormed(PageMerge(t, b, k).table, n)
    ensures FreeCount(PageMerge(t, b, k).table) == FreeCount(t)
    decreases MAX_ORDER - k, 1
  {
    if k < MAX_ORDER && BuddyPfn(b, k) in t[k] {
      MergeUpKeeps(t, n, b, k);
    } else {
      assert PageMerge(t, b, k) == Merged(t, b, k);
    }
  }

  /** The merging case of PageMergeKeeps. */
  lemma {:induction false} MergeUpKeeps(t: Table, n: int, b: int, k: nat)
    requires WellFormed(t, n) && k < MAX_ORDER && b in t[k] && BuddyPfn(b, k) in t[k]
    ensures WellFormed(PageMerge(t, b, k).table, n)
    ensures FreeCount(PageMerge(t, b, k).table) == FreeCount(t)
    decreases MAX_ORDER - k, 0
  {
    var t1 := MergeBlock(t, k, b);
    var b1 := MergedStart(b, k);
    assert b1 in t1[k + 1] && PageMerge(t, b, k) == PageMerge(t1, b1, k + 1) by {
      PageMergeStep(t, b, k);
    }
    assert WellFormed(t1, n) && FreeCount(t1) == FreeCount(t) by {
      MergeKeepsWellFormed(t, n, k, b);
    }
    PageMergeKeeps(t1, n, b1, k + 1);
  }

  /** page_merge leaves the same pages free. */
  lemma {:induction false} PageMergeSameFree(t: Table, n: int, b: int, k: nat)
    requires WellFormed(t, n) && k <= MAX_ORDER && b in t[k]
    ensures forall p :: PageFree(PageMerge(t, b, k).table, p) <==> PageFree(t, p)
    decreases MAX_ORDER - k, 1
  {
    if k < MAX_ORDER && BuddyPfn(b, k) in t[k] {
      MergeUpSameFree(t, n, b, k);
    } else {
      assert PageMerge(t, b, k) == Merged(t, b, k);
    }
  }

  /** The merging case of PageMergeSameFree. */
  lemma {:induction false} MergeUpSameFree(t: Table, n: int, b: int, k: nat)
    requires WellFormed(t, n) && k < MAX_ORDER && b in t[k] && BuddyPfn(b, k) in t[k]
    ensures forall p :: PageFree(PageMerge(t, b, k).table, p) <==> PageFree(t, p)
    decreases MAX_ORDER - k, 0
  {
    var t1 := MergeBlock(t, k, b);
    var b1 := MergedStart(b, k);
    assert b1 in t1[k + 1] && PageMerge(t, b, k) == PageMerge(t1, b1, k + 1) by {
      PageMergeStep(t, b, k);
    }
    assert WellFormed(t1, n) && (forall p :: PageFree(t1, p) <==> PageFree(t, p)) by {
      MergeKeepsWellFormed(t, n, k, b);
    }
    PageMergeSameFree(t1, n, b1, k + 1);
    forall p
      ensures PageFree(PageMerge(t, b, k).table, p) <==> PageFree(t, p)
    {
      assert PageFree(PageMerge(t1, b1, k + 1).table, p) <==> PageFree(t1, p);
    }
  }

  /** page_merge carries the one allowed exception to coalescing along with the block it merges. */
  lemma {:induction false} PageMergeExcept(t: Table, n: int, b: int, k: nat)
    requires WellFormed(t, n) && k <= MAX_ORDER && b in t[k] && CoalescedExcept(t, k, b)
    ensures CoalescedExcept(PageMerge(t, b, k).table, PageMerge(t, b, k).order, PageMerge(t, b, k).block)
    decreases MAX_ORDER - k, 1
  {
    if k < MAX_ORDER && BuddyPfn(b, k) in t[k] {
      MergeUpExcept(t, n, b, k);
    } else {
      assert PageMerge(t, b, k) == Merged(t, b, k);
    }
  }

  /** The merging case of PageMergeExcept: one merge, then the rest of page_merge from one order up. */
  lemma {:induction false} MergeUpExcept(t: Table, n: int, b: int, k: nat)
    requires WellFormed(t, n) && k < MAX_ORDER && b in t[k] && BuddyPfn(b, k) in t[k] && CoalescedExcept(t, k, b)
    ensures CoalescedExcept(PageMerge(t, b, k).table, PageMerge(t, b, k).order, PageMerge(t, b, k).block)
    decreases MAX_ORDER - k, 0
  {
    var t1 := MergeBlock(t, k, b);
    var b1 := MergedStart(b, k);
    assert b1 in t1[k + 1] && PageMerge(t, b, k) == PageMerge(t1, b1, k + 1) by {
      PageMergeStep(t, b, k);
    }
    assert WellFormed(t1, n) && CoalescedExcept(t1, k + 1, b1) by {
      MergeKeepsWellFormed(t, n, k, b);
      MergeCoalescedExcept(t, n, k, b);
    }
    PageMergeExcept(t1, n, b1, k + 1);
    assert CoalescedExcept(PageMerge(t1, b1, k + 1).table, PageMerge(t1, b1, k + 1).order, PageMerge(t1, b1, k + 1).block);
  }

  /** page_merge from a table coalesced except for the current block's pair ends coalesced. */
  lemma PageMergeCoalesced(t: Table, n: int, b: int, k: nat)
    requires WellFormed(t, n) && k <= MAX_ORDER && b in t[k] && CoalescedExcept(t, k, b)
    ensures Coalesced(PageMerge(t, b, k).table)
  {
    PageMergeExcept(t, n, b, k);
    PageMergeStops(t, b, k);
    var r := PageMerge(t, b, k);
    StopCoalesced(r.table, r.order, r.block);
  }

  /**
   * free_pages on a well-formed, coalesced table, for an in-range block aligned
   * for its order that no free block overlaps (it is allocated): the table stays
   * well formed and coalesced, 2^order more pages are free, and the free pages
   * are the old ones plus the block's.
   */
  lemma FreePagesKeeps(t: Table, n: int, b: int, order: nat)
    requires WellFormed(t, n) && Coalesced(t) && order <= MAX_ORDER
    requires 0 <= b && b + PagesPerBlock(order) <= n && IsAligned(b, order) && FreeOf(t, b, order)
    ensures WellFormed(FreePages(t, b, order), n)
    ensures Coalesced(FreePages(t, b, order))
    ensures FreeCount(FreePages(t, b, order)) == FreeCount(t) + PagesPerBlock(order)
    ensures forall p :: PageFree(FreePages(t, b, order), p) <==> PageFree(t, p) || Contains(b, order, p)
  {
    var t1 := InsertBlock(t, order, b);
    InsertKeepsWellFormed(t, n, order, b);
    InsertCoalescedExcept(t, n, order, b);
    assert b in t1[order];
    PageMergeKeeps(t1, n, b, order);
    PageMergeSameFree(t1, n, b, order);
    PageMergeCoalesced(t1, n, b, order);
  }
}
