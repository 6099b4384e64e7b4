/**
 * The free-area table: one free list per order 0..MAX_ORDER, each read as the
 * sequence of block frame numbers in list order, and the table operations
 * insert_block, remove_block, split_block and merge_block on that reading.
 */
module FreeArea {
  import opened Wrappers
  import opened BuddyMath
  import opened SortedList

  /** `t[k]` is the order-k free list. */
  type Table = seq<seq<int>>

  /** A table has one list for each order 0..MAX_ORDER. */
  predicate IsTable(t: Table)
  {
    |t| == MAX_ORDER + 1
  }

  /** The table as the constructor leaves it: every list empty. */
  function EmptyTable(): (t: Table)
    ensures IsTable(t)
    ensures forall k :: 0 <= k < |t| ==> t[k] == []
  {
    seq(MAX_ORDER + 1, _ => [])
  }

  /** Every listed block is aligned for the order of its list. */
  predicate AllAligned(t: Table)
  {
    forall k, b :: 0 <= k < |t| && b in t[k] ==> IsAligned(b, k)
  }

  /** Each list is ascending by address, without duplicates. */
  predicate ListsSorted(t: Table)
  {
    forall k :: 0 <= k < |t| ==> StrictlySorted(t[k])
  }

  /** Each listed block is aligned for its order and lies inside an array of `n` pages. */
  predicate BlocksInRange(t: Table, n: int)
  {
    forall k, b :: 0 <= k < |t| && b in t[k] ==> 0 <= b && b + PagesPerBlock(k) <= n && IsAligned(b, k)
  }

  /** No two listed blocks, at any orders, share a page. */
  predicate NoOverlap(t: Table)
  {
    forall k1, b1, k2, b2 ::
      0 <= k1 < |t| && 0 <= k2 < |t| && b1 in t[k1] && b2 in t[k2] && (k1 != k2 || b1 != b2) ==>
        Disjoint(b1, k1, b2, k2)
  }

  /** The invariant between operations, for a page array of `n` pages. */
  predicate WellFormed(t: Table, n: int)
  {
    IsTable(t) && ListsSorted(t) && BlocksInRange(t, n) && NoOverlap(t)
  }

  /** No listed block shares a page with block `b` of order `k`. */
  predicate FreeOf(t: Table, b: int, k: nat)
  {
    forall k', c :: 0 <= k' < |t| && c in t[k'] ==> Disjoint(c, k', b, k)
  }

  /** Page `p` lies in some free block. */
  ghost predicate PageFree(t: Table, p: int)
  {
    exists k, b :: 0 <= k < |t| && b in t[k] && Contains(b, k, p)
  }

  /**
   * Eager coalescing: below MAX_ORDER, no free block has its buddy free at the
   * same order (such a pair would have been merged).
   */
  predicate Coalesced(t: Table)
  {
    forall k, b {:trigger BuddyPfn(b, k)} :: 0 <= k < MAX_ORDER && k < |t| && b in t[k] ==> BuddyPfn(b, k) !in t[k]
  }

  /**
   * Eager coalescing with one allowed exception: the buddy pair at order k that
   * contains `b` (the state inside page_merge, split_block chains and reserve_page).
   */
  predicate CoalescedExcept(t: Table, k: nat, b: int)
  {
    forall k', c {:trigger BuddyPfn(c, k')} :: 0 <= k' < MAX_ORDER && k' < |t| && c in t[k'] && !(k' == k && (c == b || c == BuddyPfn(b, k))) ==>
      BuddyPfn(c, k') !in t[k']
  }

  /** Free pages counted from orders `k` and up: each order-j block holds 2^j pages. */
  function FreeCountFrom(t: Table, k: nat): nat
    decreases |t| - k
  {
    if k >= |t| then 0 else |t[k]| * PagesPerBlock(k) + FreeCountFrom(t, k + 1)
  }

  /** The number of free pages the table holds. */
  function FreeCount(t: Table): nat
  {
    FreeCountFrom(t, 0)
  }

  /** insert_block(pgd, order) on the table: only the order-k list changes. */
  function InsertBlock(t: Table, k: nat, b: int): (r: Table)
    requires k < |t|
    ensures |r| == |t| && r[k] == InsertSorted(t[k], b)
    ensures forall j :: 0 <= j < |t| && j != k ==> r[j] == t[j]
  {
    t[k := InsertSorted(t[k], b)]
  }

  /** remove_block(pgd, order) on the table; the block must be listed (the assert). */
  function RemoveBlock(t: Table, k: nat, b: int): (r: Table)
    requires k < |t| && b in t[k]
    ensures |r| == |t| && r[k] == RemoveFirst(t[k], b)
    ensures forall j :: 0 <= j < |t| && j != k ==> r[j] == t[j]
  {
    t[k := RemoveFirst(t[k], b)]
  }

  /**
   * split_block: the listed order-k block `b` leaves order k and its halves `b`
   * and `b + 2^(k-1)` join order k-1 (the left half is returned).  The right
   * half is the order-(k-1) buddy of `b` (SplitBlockListsHalves).
   */
  function SplitBlock(t: Table, k: nat, b: int): (r: Table)
    requires IsTable(t) && 0 < k <= MAX_ORDER && b in t[k] && IsAligned(b, k)
    ensures |r| == |t| && forall j :: 0 <= j < |t| && j != k && j != k - 1 ==> r[j] == t[j]
  {
    var right := b + PagesPerBlock(k - 1);
    InsertBlock(InsertBlock(RemoveBlock(t, k, b), k - 1, b), k - 1, right)
  }

  /** The lower of a block and its buddy: the start of the block they merge into. */
  function MergedStart(b: int, k: nat): int
  {
    var buddy := BuddyPfn(b, k);
    if b < buddy then b else buddy
  }

  /** split_block as its three list operations, in the order the source does them. */
  lemma SplitBlockSteps(t: Table, k: nat, b: int, t1: Table, right: int)
    requires IsTable(t) && 0 < k <= MAX_ORDER && b in t[k] && IsAligned(b, k)
    requires t1 == RemoveBlock(t, k, b) && right == b + PagesPerBlock(k - 1)
    ensures SplitBlock(t, k, b) == InsertBlock(InsertBlock(t1, k - 1, b), k - 1, right)
  {
  }

  /**
   * merge_block: block `b` and its buddy, both listed at order k < MAX_ORDER,
   * leave order k and the lower of the two joins order k+1.
   */
  function MergeBlock(t: Table, k: nat, b: int): (r: Table)
    requires IsTable(t) && k < MAX_ORDER && IsAligned(b, k)
    requires b in t[k] && BuddyPfn(b, k) in t[k]
    ensures |r| == |t| && forall j :: 0 <= j < |t| && j != k && j != k + 1 ==> r[j] == t[j]
  {
    var buddy := BuddyPfn(b, k);
    var lo := if b > buddy then buddy else b;
    var hi := if b > buddy then b else buddy;
    InsertBlock(RemoveBlock(RemoveBlock(t, k, lo), k, hi), k + 1, lo)
  }

  /** The merged block is listed one order up after merge_block. */
  lemma MergeBlockListsMerged(t: Table, k: nat, b: int)
    requires IsTable(t) && k < MAX_ORDER && IsAligned(b, k)
    requires b in t[k] && BuddyPfn(b, k) in t[k]
    ensures IsTable(MergeBlock(t, k, b)) && MergedStart(b, k) in MergeBlock(t, k, b)[k + 1]
    ensures IsAligned(MergedStart(b, k), k + 1)
  {
    BuddyFacts(b, k);
    var buddy := BuddyPfn(b, k);
    var lo := if b > buddy then buddy else b;
    assert lo == MergedStart(b, k);
  }

  /** Both halves are listed one order down after split_block. */
  lemma SplitBlockListsHalves(t: Table, k: nat, b: int)
    requires IsTable(t) && 0 < k <= MAX_ORDER && b in t[k] && IsAligned(b, k)
    ensures IsTable(SplitBlock(t, k, b)) && IsAligned(b, k - 1)
    ensures b in SplitBlock(t, k, b)[k - 1] && b + PagesPerBlock(k - 1) in SplitBlock(t, k, b)[k - 1]
    ensures IsAligned(b + PagesPerBlock(k - 1), k - 1)
  {
    RightHalfIsBuddy(b, k);
  }

  /** The right half of a split block is the buddy of its left half. */
  lemma RightHalfIsBuddy(b: int, k: nat)
    requires 0 < k <= MAX_ORDER && IsAligned(b, k)
    ensures IsAligned(b, k - 1) && IsAligned(b + PagesPerBlock(k - 1), k - 1)
    ensures BuddyOf(b, k - 1) == Some(b + PagesPerBlock(k - 1))
  {
    AlignedLower(b, k, k - 1);
    BuddyFacts(b, k - 1);
  }

  /** remove_block then insert_block of the same block gives back the table. */
  lemma InsertRemovedBlock(t: Table, k: nat, b: int)
    requires k < |t| && b in t[k] && StrictlySorted(t[k])
    ensures InsertBlock(RemoveBlock(t, k, b), k, b) == t
  {
    InsertRemoved(t[k], b);
  }

  /** insert_block then remove_block of a block not on the list gives back the table. */
  lemma RemoveInsertedBlock(t: Table, k: nat, b: int)
    requires k < |t| && b !in t[k] && StrictlySorted(t[k])
    ensures b in InsertBlock(t, k, b)[k] && RemoveBlock(InsertBlock(t, k, b), k, b) == t
  {
    RemoveInserted(t[k], b);
  }

  /**
   * merge_block undoes split_block: the two halves of a split block are
   * buddies, the left one is where they merge, and merging them gives back
   * the table, provided the lower list held nothing else.
   */
  lemma SplitMergeInverse(t: Table, k: nat, b: int)
    requires IsTable(t) && k < MAX_ORDER && b in t[k + 1] && IsAligned(b, k + 1)
    requires StrictlySorted(t[k + 1]) && t[k] == []
    ensures IsAligned(b, k) && BuddyPfn(b, k) == b + PagesPerBlock(k) && MergedStart(b, k) == b
    ensures b in SplitBlock(t, k + 1, b)[k] && BuddyPfn(b, k) in SplitBlock(t, k + 1, b)[k]
    ensures MergeBlock(SplitBlock(t, k + 1, b), k, b) == t
  {
    RightHalfIsBuddy(b, k + 1);
    var h := PagesPerBlock(k);
    var u := SplitBlock(t, k + 1, b);
    assert InsertSorted([], b) == [b];
    assert InsertSorted([b], b + h) == [b, b + h];
    assert u[k] == [b, b + h];
    assert u[k + 1] == RemoveFirst(t[k + 1], b);
    assert RemoveFirst([b, b + h], b) == [b + h];
    assert RemoveFirst([b + h], b + h) == [];
    InsertRemoved(t[k + 1], b);
    var m := MergeBlock(u, k, b);
    assert m[k] == t[k] && m[k + 1] == t[k + 1];
    assert forall j :: 0 <= j < |t| ==> m[j] == t[j];
  }

  // ---------------------------------------------------------------------------
  // Free-page count.

  /** Replacing the order-j list by one d blocks longer changes the count by d times 2^j. */
  lemma {:induction false} FreeCountFromUpdate(t: Table, j: nat, s: seq<int>, d: int, k: nat)
    requires j < |t| && |s| == |t[j]| + d
    ensures k <= j ==> FreeCountFrom(t[j := s], k) == FreeCountFrom(t, k) + d * PagesPerBlock(j)
    ensures k > j ==> FreeCountFrom(t[j := s], k) == FreeCountFrom(t, k)
    decreases |t| - k
  {
    if k < |t| {
      FreeCountFromUpdate(t, j, s, d, k + 1);
      if k == j {
        assert |s| * PagesPerBlock(j) == |t[j]| * PagesPerBlock(j) + d * PagesPerBlock(j);
      }
    }
  }

  /** Inserting a block at order k adds 2^k free pages. */
  lemma FreeCountInsert(t: Table, k: nat, b: int)
    requires k < |t|
    ensures FreeCount(InsertBlock(t, k, b)) == FreeCount(t) + PagesPerBlock(k)
  {
    FreeCountFromUpdate(t, k, InsertSorted(t[k], b), 1, 0);
  }

  /** Removing a listed block at order k takes 2^k free pages away. */
  lemma FreeCountRemove(t: Table, k: nat, b: int)
    requires k < |t| && b in t[k]
    ensures FreeCount(RemoveBlock(t, k, b)) == FreeCount(t) - PagesPerBlock(k)
  {
    FreeCountFromUpdate(t, k, RemoveFirst(t[k], b), -1, 0);
  }

  // ---------------------------------------------------------------------------
  // Insert and remove keep the invariant.

  /** The blocks listed after an insert are the old ones and the inserted one. */
  lemma InsertMembers(t: Table, k: nat, b: int)
    requires k < |t|
    ensures forall k', c :: 0 <= k' < |t| ==> (c in InsertBlock(t, k, b)[k'] <==> c in t[k'] || (k' == k && c == b))
  {
  }

  /** The blocks listed after removing a listed block from a sorted table are the others. */
  lemma RemoveMembers(t: Table, k: nat, b: int)
    requires k < |t| && b in t[k] && ListsSorted(t)
    ensures forall k', c :: 0 <= k' < |t| ==> (c in RemoveBlock(t, k, b)[k'] <==> c in t[k'] && (k' != k || c != b))
  {
  }

  /** A block that no free block overlaps is not itself listed at its order. */
  lemma FreeOfNotListed(t: Table, b: int, k: nat)
    requires k < |t| && FreeOf(t, b, k)
    ensures b !in t[k]
  {
    forall i | 0 <= i < |t[k]|
      ensures t[k][i] != b
    {
      assert Disjoint(t[k][i], k, b, k);
    }
  }

  /** No page of a block that no free block overlaps starts a listed block, at any order. */
  lemma FreeOfExcludes(t: Table, b: int, k: nat, p: int, k': nat)
    requires k' < |t| && FreeOf(t, b, k) && Contains(b, k, p)
    ensures p !in t[k']
  {
    forall i | 0 <= i < |t[k']|
      ensures t[k'][i] != p
    {
      assert Disjoint(t[k'][i], k', b, k);
    }
  }

  /**
   * Inserting an in-range aligned block that no free block overlaps keeps the table
   * well formed, adds 2^k free pages, and frees exactly the block's pages.
   */
  lemma InsertKeepsWellFormed(t: Table, n: int, k: nat, b: int)
    requires WellFormed(t, n) && k <= MAX_ORDER
    requires 0 <= b && b + PagesPerBlock(k) <= n && IsAligned(b, k) && FreeOf(t, b, k)
    ensures WellFormed(InsertBlock(t, k, b), n)
    ensures FreeCount(InsertBlock(t, k, b)) == FreeCount(t) + PagesPerBlock(k)
    ensures forall p :: PageFree(InsertBlock(t, k, b), p) <==> PageFree(t, p) || Contains(b, k, p)
  {
    assert ListsSorted(InsertBlock(t, k, b)) by {
      FreeOfNotListed(t, b, k);
      InsertKeepsSorted(t, k, b);
    }
    assert BlocksInRange(InsertBlock(t, k, b), n) by {
      InsertKeepsInRange(t, n, k, b);
    }
    assert NoOverlap(InsertBlock(t, k, b)) by {
      InsertKeepsNoOverlap(t, k, b);
    }
    FreeCountInsert(t, k, b);
    InsertPageFree(t, k, b);
  }

  /** Inserting an unlisted block keeps every list sorted. */
  lemma InsertKeepsSorted(t: Table, k: nat, b: int)
    requires IsTable(t) && k <= MAX_ORDER && ListsSorted(t) && b !in t[k]
    ensures ListsSorted(InsertBlock(t, k, b))
  {
    var r := InsertBlock(t, k, b);
    forall j | 0 <= j < |r|
      ensures StrictlySorted(r[j])
    {
      assert StrictlySorted(t[j]);
    }
  }

  /** Inserting an in-range aligned block keeps every block in range and aligned. */
  lemma InsertKeepsInRange(t: Table, n: int, k: nat, b: int)
    requires IsTable(t) && k <= MAX_ORDER && BlocksInRange(t, n)
    requires 0 <= b && b + PagesPerBlock(k) <= n && IsAligned(b, k)
    ensures BlocksInRange(InsertBlock(t, k, b), n)
  {
    InsertMembers(t, k, b);
  }

  /** Inserting a block no free block overlaps keeps the blocks pairwise disjoint. */
  lemma InsertKeepsNoOverlap(t: Table, k: nat, b: int)
    requires IsTable(t) && k <= MAX_ORDER && NoOverlap(t) && FreeOf(t, b, k)
    ensures NoOverlap(InsertBlock(t, k, b))
  {
    var r := InsertBlock(t, k, b);
    InsertMembers(t, k, b);
    forall k1, b1, k2, b2 |
      0 <= k1 < |r| && 0 <= k2 < |r| && b1 in r[k1] && b2 in r[k2] && (k1 != k2 || b1 != b2)
      ensures Disjoint(b1, k1, b2, k2)
    {
      if k1 == k && b1 == b {
        assert b2 in t[k2];
        assert Disjoint(b2, k2, b, k);
      } else if k2 == k && b2 == b {
        assert b1 in t[k1];
      } else {
        assert b1 in t[k1] && b2 in t[k2];
      }
    }
  }

  /** Inserting a block frees exactly its pages in addition to those already free. */
  lemma InsertPageFree(t: Table, k: nat, b: int)
    requires IsTable(t) && k <= MAX_ORDER
    ensures forall p :: PageFree(InsertBlock(t, k, b), p) <==> PageFree(t, p) || Contains(b, k, p)
  {
    var r := InsertBlock(t, k, b);
    InsertMembers(t, k, b);
    forall p
      ensures PageFree(r, p) <==> PageFree(t, p) || Contains(b, k, p)
    {
      if PageFree(r, p) {
        var k', c :| 0 <= k' < |r| && c in r[k'] && Contains(c, k', p);
        assert c in t[k'] || (k' == k && c == b);
      }
      if PageFree(t, p) {
        var k', c :| 0 <= k' < |t| && c in t[k'] && Contains(c, k', p);
        assert c in r[k'];
      }
      if Contains(b, k, p) {
        assert b in r[k];
      }
    }
  }

  /**
   * Removing a listed block keeps the table well formed, takes 2^k pages off the
   * count, unfrees exactly the block's pages, and leaves no block overlapping it.
   */
  lemma RemoveKeepsWellFormed(t: Table, n: int, k: nat, b: int)
    requires WellFormed(t, n) && k <= MAX_ORDER && b in t[k]
    ensures WellFormed(RemoveBlock(t, k, b), n)
    ensures FreeCount(RemoveBlock(t, k, b)) == FreeCount(t) - PagesPerBlock(k)
    ensures forall p :: PageFree(RemoveBlock(t, k, b), p) <==> PageFree(t, p) && !Contains(b, k, p)
    ensures FreeOf(RemoveBlock(t, k, b), b, k)
  {
    var r := RemoveBlock(t, k, b);
    assert WellFormed(r, n) && FreeOf(r, b, k) by {
      RemoveMembers(t, k, b);
      assert ListsSorted(r);
      assert BlocksInRange(r, n);
      assert NoOverlap(r);
      forall k', c | 0 <= k' < |r| && c in r[k']
        ensures Disjoint(c, k', b, k)
      {
        assert c in t[k'];
      }
    }
    FreeCountRemove(t, k, b);
    RemovePageFree(t, n, k, b);
  }

  /** Removing a listed block unfrees exactly its pages. */
  lemma RemovePageFree(t: Table, n: int, k: nat, b: int)
    requires WellFormed(t, n) && k <= MAX_ORDER && b in t[k]
    ensures forall p :: PageFree(RemoveBlock(t, k, b), p) <==> PageFree(t, p) && !Contains(b, k, p)
  {
    var r := RemoveBlock(t, k, b);
    RemoveMembers(t, k, b);
    forall p
      ensures PageFree(r, p) <==> PageFree(t, p) && !Contains(b, k, p)
    {
      if PageFree(r, p) {
        var k', c :| 0 <= k' < |r| && c in r[k'] && Contains(c, k', p);
        assert c in t[k'];
        assert Disjoint(c, k', b, k);
      }
      if PageFree(t, p) && !Contains(b, k, p) {
        var k', c :| 0 <= k' < |t| && c in t[k'] && Contains(c, k', p);
        assert c in r[k'];
      }
    }
  }

  // ---------------------------------------------------------------------------
  // Split and merge keep the invariant and the free pages.

  /** A block that no free block overlaps still has no free block overlapping its lower half. */
  lemma FreeOfLowerHalf(t: Table, b: int, k: nat)
    requires 0 < k && FreeOf(t, b, k)
    ensures FreeOf(t, b, k - 1)
  {
    forall k', c | 0 <= k' < |t| && c in t[k']
      ensures Disjoint(c, k', b, k - 1)
    {
      assert Disjoint(c, k', b, k);
    }
  }

  /**
   * The first two steps of split_block: the block leaves its list and its
   * left half joins the list one order down.  The table stays well formed,
   * the right half's pages stop being free, and no free block overlaps the
   * right half.
   */
  lemma SplitLeftHalf(t: Table, n: int, k: nat, b: int)
    requires WellFormed(t, n) && 0 < k <= MAX_ORDER && b in t[k] && IsAligned(b, k - 1)
    ensures var t2 := InsertBlock(RemoveBlock(t, k, b), k - 1, b);
      WellFormed(t2, n) && FreeCount(t2) + PagesPerBlock(k - 1) == FreeCount(t) &&
      (forall p :: PageFree(t2, p) <==> (PageFree(t, p) && !Contains(b, k, p)) || Contains(b, k - 1, p)) &&
      (forall k', c :: 0 <= k' < |t| ==> (c in t2[k'] <==> (c in t[k'] && (k' != k || c != b)) || (k' == k - 1 && c == b))) &&
      FreeOf(t2, b + PagesPerBlock(k - 1), k - 1)
  {
    var h := PagesPerBlock(k - 1);
    var t1 := RemoveBlock(t, k, b);
    RemoveKeepsWellFormed(t, n, k, b);
    RemoveMembers(t, k, b);
    FreeOfLowerHalf(t1, b, k);
    var t2 := InsertBlock(t1, k - 1, b);
    InsertKeepsWellFormed(t1, n, k - 1, b);
    InsertMembers(t1, k - 1, b);
    forall k', c | 0 <= k' < |t2| && c in t2[k']
      ensures Disjoint(c, k', b + h, k - 1)
    {
      if c in t1[k'] {
        assert Disjoint(c, k', b, k);
      }
    }
  }

  /**
   * split_block keeps the table well formed and the same pages free; the block
   * leaves order k and exactly its two halves join order k-1.
   */
  lemma SplitKeepsWellFormed(t: Table, n: int, k: nat, b: int)
    requires WellFormed(t, n) && 0 < k <= MAX_ORDER && b in t[k]
    ensures IsAligned(b, k) && IsAligned(b, k - 1) && IsAligned(b + PagesPerBlock(k - 1), k - 1)
    ensures WellFormed(SplitBlock(t, k, b), n)
    ensures FreeCount(SplitBlock(t, k, b)) == FreeCount(t)
    ensures forall p :: PageFree(SplitBlock(t, k, b), p) <==> PageFree(t, p)
    ensures forall k', c :: 0 <= k' < |t| ==>
      (c in SplitBlock(t, k, b)[k'] <==>
        (c in t[k'] && (k' != k || c != b)) || (k' == k - 1 && (c == b || c == b + PagesPerBlock(k - 1))))
  {
    var h := PagesPerBlock(k - 1);
    AlignedLower(b, k, k - 1);
    assert BuddyOf(b, k - 1) == Some(b + h);
    SplitLeftHalf(t, n, k, b);
    var t2 := InsertBlock(RemoveBlock(t, k, b), k - 1, b);
    assert 0 <= b + h && b + h + h <= n;
    InsertKeepsWellFormed(t2, n, k - 1, b + h);
    InsertMembers(t2, k - 1, b + h);
    assert SplitBlock(t, k, b) == InsertBlock(t2, k - 1, b + h);
    forall p
      ensures PageFree(SplitBlock(t, k, b), p) <==> PageFree(t, p)
    {
      if Contains(b, k, p) {
        assert b in t[k];
      }
    }
  }

  /** Two buddies that no other free block overlaps leave the merged block uncovered once removed. */
  lemma FreeOfMerged(t: Table, t2: Table, k: nat, lo: int)
    requires |t2| == |t| && NoOverlap(t)
    requires k + 1 < |t| && lo in t[k] && lo + PagesPerBlock(k) in t[k]
    requires forall k', c :: 0 <= k' < |t| && c in t2[k'] ==> c in t[k'] && (k' != k || (c != lo && c != lo + PagesPerBlock(k)))
    ensures FreeOf(t2, lo, k + 1)
  {
    var hi := lo + PagesPerBlock(k);
    forall k', c | 0 <= k' < |t2| && c in t2[k']
      ensures Disjoint(c, k', lo, k + 1)
    {
      assert Disjoint(c, k', lo, k) && Disjoint(c, k', hi, k);
    }
  }

  /**
   * Removing both blocks of a listed pair, `lo` and `lo + 2^k`, keeps the
   * table well formed, takes their 2^(k+1) pages away, and leaves no free
   * block overlapping the merged block.
   */
  lemma RemovePair(t: Table, n: int, k: nat, lo: int)
    requires WellFormed(t, n) && k < MAX_ORDER && lo in t[k] && lo + PagesPerBlock(k) in t[k]
    ensures lo + PagesPerBlock(k) in RemoveBlock(t, k, lo)[k]
    ensures var t2 := RemoveBlock(RemoveBlock(t, k, lo), k, lo + PagesPerBlock(k));
      WellFormed(t2, n) && FreeCount(t2) + PagesPerBlock(k + 1) == FreeCount(t) &&
      (forall p :: PageFree(t2, p) <==> PageFree(t, p) && !Contains(lo, k + 1, p)) &&
      (forall k', c :: 0 <= k' < |t| ==> (c in t2[k'] <==> c in t[k'] && (k' != k || (c != lo && c != lo + PagesPerBlock(k))))) &&
      FreeOf(t2, lo, k + 1)
  {
    var hi := lo + PagesPerBlock(k);
    var t1 := RemoveBlock(t, k, lo);
    RemoveKeepsWellFormed(t, n, k, lo);
    RemoveMembers(t, k, lo);
    var t2 := RemoveBlock(t1, k, hi);
    RemoveKeepsWellFormed(t1, n, k, hi);
    RemoveMembers(t1, k, hi);
    FreeOfMerged(t, t2, k, lo);
  }

  /**
   * merge_block keeps the table well formed and the same pages free; the two
   * buddies leave order k and exactly the lower of them joins order k+1.
   */
  lemma MergeKeepsWellFormed(t: Table, n: int, k: nat, b: int)
    requires WellFormed(t, n) && k < MAX_ORDER && b in t[k] && BuddyPfn(b, k) in t[k]
    ensures IsAligned(MergedStart(b, k), k + 1)
    ensures WellFormed(MergeBlock(t, k, b), n)
    ensures FreeCount(MergeBlock(t, k, b)) == FreeCount(t)
    ensures forall p :: PageFree(MergeBlock(t, k, b), p) <==> PageFree(t, p)
    ensures forall k', c :: 0 <= k' < |t| ==>
      (c in MergeBlock(t, k, b)[k'] <==>
        (c in t[k'] && (k' != k || (c != b && c != BuddyPfn(b, k)))) || (k' == k + 1 && c == MergedStart(b, k)))
  {
    var m := PagesPerBlock(k);
    BuddyFacts(b, k);
    var lo := MergedStart(b, k);
    var hi := lo + m;
    assert lo in t[k] && hi in t[k];
    RemovePair(t, n, k, lo);
    var t2 := RemoveBlock(RemoveBlock(t, k, lo), k, hi);
    assert MergeBlock(t, k, b) == InsertBlock(t2, k + 1, lo);
    assert 0 <= lo && lo + PagesPerBlock(k + 1) <= n;
    InsertKeepsWellFormed(t2, n, k + 1, lo);
    InsertMembers(t2, k + 1, lo);
    forall p | Contains(lo, k + 1, p)
      ensures PageFree(t, p)
    {
      if p < hi {
        assert Contains(lo, k, p);
      } else {
        assert Contains(hi, k, p);
      }
    }
  }

  // ---------------------------------------------------------------------------
  // Eager coalescing.

  /** The buddy relation is symmetric on aligned blocks. */
  lemma BuddyPfnInvolution(c: int, k: nat)
    requires IsAligned(c, k)
    ensures BuddyPfn(BuddyPfn(c, k), k) == c
  {
    BuddyFacts(c, k);
  }

  /** The exception names a pair: either member of the pair names the same one. */
  lemma CoalescedExceptBuddy(t: Table, k: nat, b: int)
    requires IsAligned(b, k) && CoalescedExcept(t, k, b)
    ensures CoalescedExcept(t, k, BuddyPfn(b, k))
  {
    BuddyPfnInvolution(b, k);
  }

  /** Inserting a block into a coalesced table can only make its own pair un-merged. */
  lemma InsertCoalescedExcept(t: Table, n: int, k: nat, b: int)
    requires WellFormed(t, n) && Coalesced(t) && k <= MAX_ORDER && IsAligned(b, k)
    ensures CoalescedExcept(InsertBlock(t, k, b), k, b)
  {
    var r := InsertBlock(t, k, b);
    InsertMembers(t, k, b);
    forall k', c | 0 <= k' < MAX_ORDER && k' < |r| && c in r[k'] && !(k' == k && (c == b || c == BuddyPfn(b, k)))
      ensures BuddyPfn(c, k') !in r[k']
    {
      assert c in t[k'];
      BuddyPfnInvolution(c, k');
    }
  }

  /** When the pair in the exception is not both free (or k is MAX_ORDER), the table is coalesced. */
  lemma StopCoalesced(t: Table, k: nat, b: int)
    requires IsTable(t) && k <= MAX_ORDER && IsAligned(b, k) && CoalescedExcept(t, k, b)
    requires k == MAX_ORDER || BuddyPfn(b, k) !in t[k]
    ensures Coalesced(t)
  {
    forall k', c | 0 <= k' < MAX_ORDER && k' < |t| && c in t[k']
      ensures BuddyPfn(c, k') !in t[k']
    {
      if k' == k && c == BuddyPfn(b, k) {
        BuddyPfnInvolution(b, k);
      }
    }
  }

  /** A coalesced table is coalesced with any exception. */
  lemma CoalescedAnyExcept(t: Table, k: nat, b: int)
    requires Coalesced(t)
    ensures CoalescedExcept(t, k, b)
  {
  }

  /** Merging the excepted pair moves the exception to the merged block one order up. */
  lemma MergeCoalescedExcept(t: Table, n: int, k: nat, b: int)
    requires WellFormed(t, n) && k < MAX_ORDER && b in t[k] && BuddyPfn(b, k) in t[k]
    requires CoalescedExcept(t, k, b)
    ensures CoalescedExcept(MergeBlock(t, k, b), k + 1, MergedStart(b, k))
  {
    var r := MergeBlock(t, k, b);
    var lo := MergedStart(b, k);
    MergeKeepsWellFormed(t, n, k, b);
    forall k', c | 0 <= k' < MAX_ORDER && k' < |r| && c in r[k'] && !(k' == k + 1 && (c == lo || c == BuddyPfn(lo, k + 1)))
      ensures BuddyPfn(c, k') !in r[k']
    {
      assert c in t[k'] && (k' != k || (c != b && c != BuddyPfn(b, k)));
      BuddyPfnInvolution(c, k');
    }
  }

  /** Splitting a block of the excepted pair makes its two halves the excepted pair. */
  lemma SplitCoalescedExcept(t: Table, n: int, k: nat, b: int)
    requires WellFormed(t, n) && 0 < k <= MAX_ORDER && b in t[k] && CoalescedExcept(t, k, b)
    ensures CoalescedExcept(SplitBlock(t, k, b), k - 1, b)
  {
    var r := SplitBlock(t, k, b);
    var h := PagesPerBlock(k - 1);
    SplitKeepsWellFormed(t, n, k, b);
    assert BuddyPfn(b, k - 1) == b + h;
    BuddyPfnInvolution(b, k - 1);
    BuddyPfnInvolution(b, k);
    forall k', c | 0 <= k' < MAX_ORDER && k' < |r| && c in r[k'] && !(k' == k - 1 && (c == b || c == BuddyPfn(b, k - 1)))
      ensures BuddyPfn(c, k') !in r[k']
    {
      assert c in t[k'] && (k' != k || c != b);
      var d := BuddyPfn(c, k');
      BuddyPfnInvolution(c, k');
      assert !(k' == k - 1 && (d == b || d == b + h));
      assert !(d in t[k'] && (k' != k || d != b));
    }
  }

  /** Removing a block of the excepted pair leaves the table coalesced. */
  lemma RemoveCoalesced(t: Table, n: int, k: nat, b: int)
    requires WellFormed(t, n) && k <= MAX_ORDER && b in t[k] && CoalescedExcept(t, k, b)
    ensures Coalesced(RemoveBlock(t, k, b))
  {
    var r := RemoveBlock(t, k, b);
    RemoveMembers(t, k, b);
    forall k', c | 0 <= k' < MAX_ORDER && k' < |r| && c in r[k']
      ensures BuddyPfn(c, k') !in r[k']
    {
      assert c in t[k'];
      if k' == k && c == BuddyPfn(b, k) {
        BuddyPfnInvolution(b, k);
      }
    }
  }
}
