/**
 * The order range of the free-area array.  The allocator works with orders
 * 0..MAX_ORDER inclusive (alloc_pages accepts MAX_ORDER, reserve_page and init
 * start there), but `_free_areas` is declared with MAX_ORDER entries, so the
 * order-MAX_ORDER list has no entry of its own.  The declared size is modelled
 * here; the rest of the model uses MAX_ORDER + 1 lists (FreeArea.IsTable).
 */
module Findings {
  import opened BuddyMath
  import opened FreeArea
  import opened InitLayout

  /** The number of entries `_free_areas` is declared with. */
  const DECLARED_FREE_AREAS: nat := MAX_ORDER

  /** An order names an entry of `_free_areas` as declared. */
  predicate InDeclaredArray(order: nat)
  {
    order < DECLARED_FREE_AREAS
  }

  /**
   * As declared: init over at least 2^MAX_ORDER pages first inserts a block
   * of order MAX_ORDER, and that order names no entry of the array.
   */
  lemma InitIndexesPastDeclaredArray(n: nat)
    requires PagesPerBlock(MAX_ORDER) <= n
    ensures |InitBlocks(0, n, MAX_ORDER)| > 0
    ensures InitBlocks(0, n, MAX_ORDER)[0] == Block(MAX_ORDER, 0)
    ensures !InDeclaredArray(InitBlocks(0, n, MAX_ORDER)[0].order)
  {
    InitBlocksTake(0, n, MAX_ORDER);
  }

  /** The smallest such input: init over exactly 2^17 pages inserts one block, of order 17, past the array. */
  lemma InitOverrunAtOneMaxBlock()
    ensures InitBlocks(0, PagesPerBlock(MAX_ORDER), MAX_ORDER) == [Block(MAX_ORDER, 0)]
    ensures !InDeclaredArray(MAX_ORDER)
  {
    InitBlocksTake(0, PagesPerBlock(MAX_ORDER), MAX_ORDER);
  }

  /**
   * Corrected: with MAX_ORDER + 1 lists every order the allocator uses has
   * its list, so every block init hands over is inserted, none passed over.
   */
  lemma InitOrdersHaveLists(n: nat)
    ensures forall i :: 0 <= i < |InitBlocks(0, n, MAX_ORDER)| ==> InitBlocks(0, n, MAX_ORDER)[i].order < |EmptyTable()|
    ensures MAX_ORDER < |EmptyTable()| == DECLARED_FREE_AREAS + 1
  {
    InitBlocksOrders(0, n, MAX_ORDER);
    assert |EmptyTable()| == MAX_ORDER + 1;
  }
}
