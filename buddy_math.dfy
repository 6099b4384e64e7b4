/**
 * Page-frame arithmetic of the buddy allocator: block sizes, alignment,
 * the buddy of a block and the page-range test.  A page is identified by
 * its page-frame number, which is also its index in the page array.
 */
module BuddyMath {
  import opened Wrappers

  /** The largest order: a block of order MAX_ORDER spans 2^17 pages. */
  const MAX_ORDER: nat := 17

  /** pages_per_block: a block of order `order` spans 2^order pages (`1 << order`). */
  function PagesPerBlock(order: nat): (r: nat)
    ensures r >= 1
  {
    if order == 0 then 1 else 2 * PagesPerBlock(order - 1)
  }

  /** is_correct_alignment_for_order: the frame number is a multiple of the block size. */
  predicate IsAligned(pfn: int, order: nat): (r: bool)
    ensures order == 0 ==> r
  {
    pfn % PagesPerBlock(order) == 0
  }

  /** page_contained: page `pfn` lies in the half-open range [block, block + 2^order). */
  predicate Contains(block: int, order: nat, pfn: int): (r: bool)
    ensures order == 0 ==> (r <==> pfn == block)
  {
    block <= pfn < block + PagesPerBlock(order)
  }

  /** The page ranges of block `b1` of order `k1` and block `b2` of order `k2` share no page. */
  predicate Disjoint(b1: int, k1: nat, b2: int, k2: nat)
  {
    b1 + PagesPerBlock(k1) <= b2 || b2 + PagesPerBlock(k2) <= b1
  }

  /**
   * The frame number of the buddy of an aligned block: the next block of the
   * same order when the block is aligned for the next order, else the previous one.
   */
  function BuddyPfn(pfn: int, order: nat): (r: int)
    ensures r != pfn && (pfn < r <==> IsAligned(pfn, order + 1))
  {
    if IsAligned(pfn, order + 1) then pfn + PagesPerBlock(order) else pfn - PagesPerBlock(order)
  }

  /**
   * buddy_of: the buddy of block `pfn` at `order`, or None (NULL) when the order
   * has no next order to merge into or the block is misaligned for it.
   */
  function BuddyOf(pfn: int, order: nat): (r: Option<int>)
    ensures r.Some? <==> order < MAX_ORDER && IsAligned(pfn, order)
    ensures r.Some? ==> IsAligned(r.value, order)
    ensures r.Some? ==> r.value == pfn + PagesPerBlock(order) || r.value == pfn - PagesPerBlock(order)
    ensures r.Some? ==> IsAligned(if pfn < r.value then pfn else r.value, order + 1)
    ensures r.Some? && pfn >= 0 ==> r.value >= 0
  {
    if order >= MAX_ORDER then None
    else if !IsAligned(pfn, order) then None
    else
      BuddyFacts(pfn, order);
      Some(BuddyPfn(pfn, order))
  }

  // ---------------------------------------------------------------------------
  // Arithmetic on aligned frame numbers.

  /** The only multiple of a positive m strictly between -m and m is zero. */
  lemma SmallMultiple(d: int, m: int)
    requires m > 0 && -m < d * m < m
    ensures d == 0
  {
  }

  /** Division by a positive modulus is determined by any quotient/remainder pair. */
  lemma ModUnique(x: int, q: int, m: int, r: int)
    requires m > 0 && 0 <= r < m && x == q * m + r
    ensures x % m == r && x / m == q
  {
    assert x == (x / m) * m + x % m;
    assert (q - x / m) * m == x % m - r;
    SmallMultiple(q - x / m, m);
  }

  /** A multiple of 2m is a multiple of m. */
  lemma MultipleOfDouble(x: int, m: int)
    requires m > 0 && x % (2 * m) == 0
    ensures x % m == 0
  {
    assert x == (x / (2 * m)) * (2 * m) + x % (2 * m);
    ModUnique(x, 2 * (x / (2 * m)), m, 0);
  }

  /** Adding a multiple of a block size keeps alignment. */
  lemma AddMultiple(x: int, q: int, m: int)
    requires m > 0 && x % m == 0
    ensures (x + q * m) % m == 0
  {
    assert x == (x / m) * m + x % m;
    ModUnique(x + q * m, x / m + q, m, 0);
  }

  /** A block aligned for an order is aligned for every lower order. */
  lemma {:induction false} AlignedLower(pfn: int, order: nat, lower: nat)
    requires lower <= order && IsAligned(pfn, order)
    ensures IsAligned(pfn, lower)
    decreases order
  {
    if lower < order {
      MultipleOfDouble(pfn, PagesPerBlock(order - 1));
      AlignedLower(pfn, order - 1, lower);
    }
  }

  /** A block of a higher order spans at least as many pages. */
  lemma {:induction false} PagesPerBlockMonotone(lower: nat, order: nat)
    requires lower <= order
    ensures PagesPerBlock(lower) <= PagesPerBlock(order)
    decreases order
  {
    if lower < order {
      PagesPerBlockMonotone(lower, order - 1);
    }
  }

  /** A multiple of m that is not a multiple of 2m lies m above a multiple of 2m. */
  lemma OddMultiple(x: int, m: int)
    requires m > 0 && x % m == 0 && x % (2 * m) != 0
    ensures (x - m) % (2 * m) == 0 && (x >= 0 ==> x - m >= 0)
  {
    var a := x / m;
    var q := x / (2 * m);
    var r := x % (2 * m);
    assert x == a * m by {
      assert x == (x / m) * m + x % m;
    }
    assert x == (2 * q) * m + r by {
      assert x == q * (2 * m) + r;
      assert q * (2 * m) == (2 * q) * m;
    }
    assert (a - 2 * q - 1) * m == r - m by {
      assert (a - 2 * q - 1) * m == a * m - (2 * q) * m - m;
    }
    SmallMultiple(a - 2 * q - 1, m);
    ModUnique(x - m, q, 2 * m, 0);
    assert x >= 0 ==> q >= 0;
  }

  /** An aligned block that is not aligned for the next order is the odd block of its pair. */
  lemma OddBlock(pfn: int, order: nat)
    requires IsAligned(pfn, order) && !IsAligned(pfn, order + 1)
    ensures IsAligned(pfn - PagesPerBlock(order), order + 1)
    ensures pfn - PagesPerBlock(order) >= 0 || pfn < 0
  {
    OddMultiple(pfn, PagesPerBlock(order));
  }

  /** The buddy of an aligned block is aligned, at distance 2^order, and the lower of the two is aligned one order up. */
  lemma BuddyFacts(pfn: int, order: nat)
    requires IsAligned(pfn, order)
    ensures IsAligned(BuddyPfn(pfn, order), order)
    ensures IsAligned(if pfn < BuddyPfn(pfn, order) then pfn else BuddyPfn(pfn, order), order + 1)
    ensures pfn >= 0 ==> BuddyPfn(pfn, order) >= 0
    ensures IsAligned(pfn, order + 1) <==> !IsAligned(BuddyPfn(pfn, order), order + 1)
  {
    var m := PagesPerBlock(order);
    if IsAligned(pfn, order + 1) {
      AddMultiple(pfn, 1, m);
      // pfn + m is an odd multiple of m, so it is not aligned for order + 1.
      var h := pfn / (2 * m);
      assert pfn == h * (2 * m) + pfn % (2 * m);
      ModUnique(pfn + m, h, 2 * m, m);
    } else {
      OddBlock(pfn, order);
      AddMultiple(pfn, -1, m);
    }
  }

  /** Taking the buddy twice gives back the original block. */
  lemma BuddyInvolution(pfn: int, order: nat)
    requires order < MAX_ORDER && IsAligned(pfn, order)
    ensures BuddyOf(pfn, order).Some? && BuddyOf(BuddyOf(pfn, order).value, order) == Some(pfn)
  {
    BuddyFacts(pfn, order);
  }
}
