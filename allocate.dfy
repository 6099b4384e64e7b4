/**
 * alloc_pages on the free-area table: find the lowest non-empty order at or
 * above the request, split the first block there down to the requested order,
 * and take the resulting block off its list.
 */
module Allocate {
  import opened Wrappers
  import opened BuddyMath
  import opened SortedList
  import opened FreeArea
  import Release

  /** What alloc_pages ends with: the table, and the allocated block or None (NULL). */
  datatype Allocated = Allocated(table: Table, block: Option<int>)

  /** The lowest order from `k` up to MAX_ORDER whose free list is not empty. */
  function FirstNonEmpty(t: Table, k: nat): (r: Option<nat>)
    requires IsTable(t)
    ensures r.Some? ==> k <= r.value <= MAX_ORDER && t[r.value] != []
    ensures r.Some? ==> forall j :: k <= j < r.value ==> t[j] == []
    ensures r.None? <==> forall j :: k <= j <= MAX_ORDER ==> t[j] == []
    decreases MAX_ORDER + 1 - k
  {
    if k > MAX_ORDER then None
    else if t[k] != [] then Some(k)
    else FirstNonEmpty(t, k + 1)
  }

  /** Split block `b` of order j, keeping its lower half each time, down to order k. */
  function SplitDown(t: Table, j: nat, k: nat, b: int): (r: Table)
    requires IsTable(t) && k <= j <= MAX_ORDER && b in t[j] && IsAligned(b, j)
    ensures IsTable(r) && b in r[k] && IsAligned(b, k)
    decreases j
  {
    if j == k then t
    else
      SplitBlockListsHalves(t, j, b);
      SplitDown(SplitBlock(t, j, b), j - 1, k, b)
  }

  /**
   * alloc_pages: NULL when every list from `order` up is empty, and then nothing
   * changes; otherwise the first block of the lowest non-empty order, split down
   * to `order` and removed from the order-`order` list.
   */
  function AllocPages(t: Table, order: nat): (r: Allocated)
    requires IsTable(t) && order <= MAX_ORDER && AllAligned(t)
    ensures IsTable(r.table)
    ensures r.block.None? <==> forall j :: order <= j <= MAX_ORDER ==> t[j] == []
    ensures r.block.None? ==> r.table == t
    ensures t[order] != [] ==> r == Allocated(RemoveBlock(t, order, t[order][0]), Some(t[order][0]))
  {
    match FirstNonEmpty(t, order)
    case None => Allocated(t, None)
    case Some(j) =>
      var b := t[j][0];
      assert b in t[j];
      var t1 := SplitDown(t, j, order, b);
      Allocated(RemoveBlock(t1, order, b), Some(b))
  }

  // ---------------------------------------------------------------------------

  /** Scanning upward from k past empty lists to a non-empty one finds that one. */
  lemma {:induction false} FirstNonEmptyAt(t: Table, k: nat, j: nat)
    requires IsTable(t) && k <= j <= MAX_ORDER && t[j] != []
    requires forall i :: k <= i < j ==> t[i] == []
    ensures FirstNonEmpty(t, k) == Some(j)
    decreases j - k
  {
    if k < j {
      FirstNonEmptyAt(t, k + 1, j);
    }
  }

  /**
   * Splitting down leaves the lists below the target order alone, and one more
   * split of `b` takes it one order further down.
   */
  lemma {:induction false} SplitDownStep(t: Table, j: nat, k: nat, b: int)
    requires IsTable(t) && k <= j <= MAX_ORDER && b in t[j] && IsAligned(b, j)
    ensures forall i :: 0 <= i < k ==> SplitDown(t, j, k, b)[i] == t[i]
    ensures 0 < k ==> SplitDown(t, j, k - 1, b) == SplitBlock(SplitDown(t, j, k, b), k, b)
    decreases j, 1
  {
    if j > k {
      SplitDownStepAbove(t, j, k, b);
    } else if 0 < k {
      SplitBlockListsHalves(t, j, b);
      assert SplitDown(SplitBlock(t, j, b), j - 1, k - 1, b) == SplitBlock(t, j, b);
    }
  }

  /** The case of SplitDownStep where the walk still has orders to split through above `k`. */
  lemma {:induction false} SplitDownStepAbove(t: Table, j: nat, k: nat, b: int)
    requires IsTable(t) && k < j <= MAX_ORDER && b in t[j] && IsAligned(b, j)
    ensures forall i :: 0 <= i < k ==> SplitDown(t, j, k, b)[i] == t[i]
    ensures 0 < k ==> SplitDown(t, j, k - 1, b) == SplitBlock(SplitDown(t, j, k, b), k, b)
    decreases j, 0
  {
    SplitBlockListsHalves(t, j, b);
    var t1 := SplitBlock(t, j, b);
    SplitDownStep(t1, j - 1, k, b);
    assert SplitDown(t, j, k, b) == SplitDown(t1, j - 1, k, b);
  }

  /** After split_block of `b` onto an empty lower list, that list is exactly the two halves. */
  lemma SplitOntoEmpty(t: Table, j: nat, b: int)
    requires IsTable(t) && 0 < j <= MAX_ORDER && b in t[j] && IsAligned(b, j) && t[j - 1] == []
    ensures SplitBlock(t, j, b)[j - 1] == [b, b + PagesPerBlock(j - 1)]
    ensures forall i :: 0 <= i < |t| && i != j && i != j - 1 ==> SplitBlock(t, j, b)[i] == t[i]
  {
    AlignedLower(b, j, j - 1);
    assert BuddyOf(b, j - 1) == Some(b + PagesPerBlock(j - 1));
    assert InsertSorted([], b) == [b];
    assert InsertSorted([b], b + PagesPerBlock(j - 1)) == [b, b + PagesPerBlock(j - 1)];
  }

  /**
   * One iteration of the downward phase of alloc_pages: below the first
   * non-empty order every list is empty, so splitting `b` at order i puts
   * exactly its two halves on the order-(i-1) list.
   */
  lemma SplitDownNext(t: Table, order: nat, top: nat, i: nat, b: int)
    requires IsTable(t) && AllAligned(t) && FirstNonEmpty(t, order) == Some(top) && b == t[top][0]
    requires order < i <= top
    ensures b in t[top] && IsAligned(b, top)
    ensures SplitDown(t, top, i - 1, b) == SplitBlock(SplitDown(t, top, i, b), i, b)
    ensures SplitDown(t, top, i - 1, b)[i - 1] == [b, b + PagesPerBlock(i - 1)]
  {
    assert b in t[top];
    SplitDownStep(t, top, i, b);
    SplitOntoEmpty(SplitDown(t, top, i, b), i, b);
  }

  /**
   * Splitting down keeps the table well formed, the same pages free, and the
   * table coalesced except for the pair of the block being split; the block
   * ends up listed at the lower order.
   */
  lemma {:induction false} SplitDownKeeps(t: Table, n: int, j: nat, k: nat, b: int)
    requires WellFormed(t, n) && k <= j <= MAX_ORDER && b in t[j] && CoalescedExcept(t, j, b)
    ensures IsAligned(b, j)
    ensures WellFormed(SplitDown(t, j, k, b), n)
    ensures FreeCount(SplitDown(t, j, k, b)) == FreeCount(t)
    ensures forall p :: PageFree(SplitDown(t, j, k, b), p) <==> PageFree(t, p)
    ensures CoalescedExcept(SplitDown(t, j, k, b), k, b)
    decreases j
  {
    if j > k {
      SplitKeepsWellFormed(t, n, j, b);
      SplitCoalescedExcept(t, n, j, b);
      SplitBlockListsHalves(t, j, b);
      SplitDownKeeps(SplitBlock(t, j, b), n, j - 1, k, b);
    }
  }

  /**
   * alloc_pages on a well-formed, coalesced table keeps it so.  A returned block
   * is aligned for `order` and inside the page array, is on no free list and
   * overlaps no free block afterwards, and exactly its 2^order pages stop being free.
   */
  lemma AllocPagesKeeps(t: Table, n: int, order: nat)
    requires WellFormed(t, n) && Coalesced(t) && order <= MAX_ORDER
    ensures WellFormed(AllocPages(t, order).table, n)
    ensures Coalesced(AllocPages(t, order).table)
    ensures AllocPages(t, order).block.Some? ==>
      var b := AllocPages(t, order).block.value;
      var t' := AllocPages(t, order).table;
      IsAligned(b, order) && 0 <= b && b + PagesPerBlock(order) <= n &&
      (forall k :: 0 <= k < |t'| ==> b !in t'[k]) && FreeOf(t', b, order) &&
      FreeCount(t') == FreeCount(t) - PagesPerBlock(order) &&
      (forall p :: Contains(b, order, p) ==> PageFree(t, p)) &&
      forall p :: PageFree(t', p) <==> PageFree(t, p) && !Contains(b, order, p)
  {
    match FirstNonEmpty(t, order)
    case None =>
    case Some(j) =>
      var b := t[j][0];
      assert b in t[j];
      var t1 := SplitDown(t, j, order, b);
      CoalescedAnyExcept(t, j, b);
      SplitDownKeeps(t, n, j, order, b);
      RemoveKeepsWellFormed(t1, n, order, b);
      RemoveCoalesced(t1, n, order, b);
      var t' := RemoveBlock(t1, order, b);
      assert AllocPages(t, order) == Allocated(t', Some(b));
      forall k | 0 <= k < |t'|
        ensures b !in t'[k]
      {
        FreeOfExcludes(t', b, order, b, k);
      }
      forall p | Contains(b, order, p)
        ensures PageFree(t, p)
      {
        PagesPerBlockMonotone(order, j);
        assert Contains(b, j, p);
      }
  }

  /**
   * Merging back up from order i undoes splitting down from order j: on a
   * coalesced table whose lists between i and j are empty, page_merge of the
   * carried block ends with the table splitting started from.
   */
  lemma {:induction false} MergeUndoesSplitDown(t: Table, n: int, j: nat, i: nat, b: int)
    requires WellFormed(t, n) && Coalesced(t) && i <= j <= MAX_ORDER && b in t[j] && IsAligned(b, j)
    requires forall m :: i <= m < j ==> t[m] == []
    ensures Release.PageMerge(SplitDown(t, j, i, b), b, i).table == t
    decreases j - i
  {
    if i == j {
      assert j == MAX_ORDER || BuddyPfn(b, j) !in t[j];
      assert Release.PageMerge(t, b, j) == Release.Merged(t, b, j);
    } else {
      var s := SplitDown(t, j, i + 1, b);
      MergeUndoesSplitDown(t, n, j, i + 1, b);
      SplitDownStep(t, j, i + 1, b);
      assert WellFormed(s, n) by {
        CoalescedAnyExcept(t, j, b);
        SplitDownKeeps(t, n, j, i + 1, b);
      }
      SplitMergeInverse(s, i, b);
      Release.PageMergeStep(SplitBlock(s, i + 1, b), b, i);
      assert Release.PageMerge(SplitDown(t, j, i, b), b, i) == Release.PageMerge(s, b, i + 1);
    }
  }

  /**
   * free_pages of the block alloc_pages has just returned, at the same order,
   * gives back the table alloc_pages started from.
   */
  lemma AllocFreeRoundTrip(t: Table, n: int, order: nat)
    requires WellFormed(t, n) && Coalesced(t) && order <= MAX_ORDER
    ensures AllocPages(t, order).block.Some? ==>
      IsAligned(AllocPages(t, order).block.value, order) &&
      Release.FreePages(AllocPages(t, order).table, AllocPages(t, order).block.value, order) == t
  {
    match FirstNonEmpty(t, order)
    case None =>
    case Some(j) =>
      var b := t[j][0];
      assert b in t[j];
      var t1 := SplitDown(t, j, order, b);
      assert WellFormed(t1, n) by {
        CoalescedAnyExcept(t, j, b);
        SplitDownKeeps(t, n, j, order, b);
      }
      assert AllocPages(t, order) == Allocated(RemoveBlock(t1, order, b), Some(b));
      InsertRemovedBlock(t1, order, b);
      MergeUndoesSplitDown(t, n, j, order, b);
  }
}
