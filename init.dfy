/**
 * init on the free-area table: the page array is cut, from the low end, into
 * as many order-MAX_ORDER blocks as fit, then the remainder into at most one
 * block of each lower order, largest first, and each block is inserted.
 */
module InitLayout {
  import opened BuddyMath
  import opened SortedList
  import opened FreeArea

  /** A block handed to insert_block by init: its order and first page. */
  datatype Block = Block(order: nat, start: int)

  /** One past the last page of a block. */
  function End(b: Block): int
  {
    b.start + PagesPerBlock(b.order)
  }

  /** The blocks lie back to back, in ascending order, covering the pages [lo, hi). */
  predicate Tiles(bs: seq<Block>, lo: int, hi: int)
  {
    if bs == [] then lo == hi
    else
      bs[0].start == lo && End(bs[|bs| - 1]) == hi &&
      (forall i :: 0 <= i < |bs| - 1 ==> End(bs[i]) == bs[i + 1].start)
  }

  /** Every block is aligned for its order, and no order exceeds MAX_ORDER. */
  predicate AllBlocksAligned(bs: seq<Block>)
  {
    forall i :: 0 <= i < |bs| ==> bs[i].order <= MAX_ORDER && IsAligned(bs[i].start, bs[i].order)
  }

  /**
   * Orders never grow along the sequence, and only MAX_ORDER repeats: below
   * MAX_ORDER each order occurs at most once.
   */
  predicate LargestFirst(bs: seq<Block>)
  {
    forall i, j :: 0 <= i < j < |bs| ==>
      bs[j].order < bs[i].order || (bs[i].order == MAX_ORDER && bs[j].order == MAX_ORDER)
  }

  /**
   * The loops of init from `order` down, one block at a time: while a whole
   * block of `order` fits in the `remaining` pages starting at `base`, that
   * block; when none fits, the next order down; nothing once no page remains.
   */
  function InitBlocks(base: int, remaining: nat, order: nat): (r: seq<Block>)
    ensures r == [] <==> remaining == 0
    decreases order, remaining
  {
    var size := PagesPerBlock(order);
    if remaining == 0 then []
    else if size <= remaining then [Block(order, base)] + InitBlocks(base + size, remaining - size, order)
    else
      assert order > 0;
      InitBlocks(base, remaining, order - 1)
  }

  /**
   * insert_block of each block in turn.  A block of an order above MAX_ORDER
   * has no list and is passed over; init hands over none (InitBlocksOrders).
   */
  function InsertAll(t: Table, bs: seq<Block>): (r: Table)
    requires IsTable(t)
    ensures IsTable(r)
    ensures forall k, x :: 0 <= k < |t| && x in t[k] ==> x in r[k]
    decreases |bs|
  {
    if bs == [] then t
    else
      var last := bs[|bs| - 1];
      var front := InsertAll(t, bs[..|bs| - 1]);
      if last.order <= MAX_ORDER then InsertBlock(front, last.order, last.start) else front
  }

  /** The free-area table init builds over pages [0, n) from an empty table. */
  function InitTable(n: nat): (t: Table)
    ensures IsTable(t)
    ensures n == 0 ==> t == EmptyTable()
  {
    InsertAll(EmptyTable(), InitBlocks(0, n, MAX_ORDER))
  }

  // ---------------------------------------------------------------------------
  // The shape of the decomposition.

  /** One pass of the inner loop of init: a whole block fits, so it comes first. */
  lemma InitBlocksTake(base: int, remaining: nat, order: nat)
    requires PagesPerBlock(order) <= remaining
    ensures InitBlocks(base, remaining, order) ==
      [Block(order, base)] + InitBlocks(base + PagesPerBlock(order), remaining - PagesPerBlock(order), order)
  {
  }

  /** Inserting a block and then the rest is inserting the block and the rest. */
  lemma {:induction false} InsertAllFront(t: Table, b: Block, rest: seq<Block>)
    requires IsTable(t) && b.order <= MAX_ORDER
    ensures InsertAll(t, [b] + rest) == InsertAll(InsertBlock(t, b.order, b.start), rest)
    decreases |rest|
  {
    if rest != [] {
      var front := rest[..|rest| - 1];
      var last := rest[|rest| - 1];
      assert ([b] + rest)[..|rest|] == [b] + front;
      InsertAllFront(t, b, front);
    }
  }

  /**
   * One insertion of the inner loop of init: the block at `base` goes into the
   * table, the blocks still to insert start one block further on, and that
   * start is still aligned.
   */
  lemma InitStep(t: Table, base: int, remaining: nat, order: nat, next: int, rest: nat)
    requires IsTable(t) && order <= MAX_ORDER && PagesPerBlock(order) <= remaining && IsAligned(base, order)
    requires next == base + PagesPerBlock(order) && rest == remaining - PagesPerBlock(order)
    ensures IsAligned(next, order)
    ensures InsertAll(t, InitBlocks(base, remaining, order)) == InsertAll(InsertBlock(t, order, base), InitBlocks(next, rest, order))
  {
    var size := PagesPerBlock(order);
    AddMultiple(base, 1, size);
    InitBlocksTake(base, remaining, order);
    InsertAllFront(t, Block(order, base), InitBlocks(next, rest, order));
  }

  /** The end of the inner loop of init: no whole block fits, so init goes one order down. */
  lemma InitBlocksDrop(base: int, remaining: nat, order: nat)
    requires 0 < remaining < PagesPerBlock(order)
    ensures 0 < order
    ensures InitBlocks(base, remaining, order) == InitBlocks(base, remaining, order - 1)
  {
  }

  /**
   * The end of one order in init: pages remain but no whole block of this
   * order, so init carries on one order down from the same, still aligned, start.
   */
  lemma NextOrder(base: int, remaining: nat, order: nat, lower: int)
    requires order <= MAX_ORDER && 0 < remaining < PagesPerBlock(order) && IsAligned(base, order)
    requires lower == order - 1
    ensures 0 <= lower && IsAligned(base, lower)
    ensures InitBlocks(base, remaining, order) == InitBlocks(base, remaining, lower)
  {
    InitBlocksDrop(base, remaining, order);
    AlignedLower(base, order, order - 1);
  }

  /** No block of the decomposition from `order` down has a larger order. */
  lemma {:induction false} InitBlocksOrders(base: int, remaining: nat, order: nat)
    ensures forall i :: 0 <= i < |InitBlocks(base, remaining, order)| ==> InitBlocks(base, remaining, order)[i].order <= order
    decreases order, remaining
  {
    var size := PagesPerBlock(order);
    if remaining == 0 {
    } else if size <= remaining {
      InitBlocksOrders(base + size, remaining - size, order);
    } else {
      InitBlocksOrders(base, remaining, order - 1);
    }
  }

  /** Two tilings back to back tile the union. */
  lemma TilesAppend(a: seq<Block>, b: seq<Block>, lo: int, mid: int, hi: int)
    requires Tiles(a, lo, mid) && Tiles(b, mid, hi)
    ensures Tiles(a + b, lo, hi)
  {
    if a != [] && b != [] {
      var ab := a + b;
      forall i | 0 <= i < |ab| - 1
        ensures End(ab[i]) == ab[i + 1].start
      {
        if i < |a| - 1 {
          assert ab[i] == a[i] && ab[i + 1] == a[i + 1];
        } else if i == |a| - 1 {
          assert ab[i] == a[|a| - 1] && ab[i + 1] == b[0];
        } else {
          assert ab[i] == b[i - |a|] && ab[i + 1] == b[i - |a| + 1];
        }
      }
    } else if a == [] {
      assert a + b == b;
    } else {
      assert a + b == a;
    }
  }

  /** The remaining pages split into whole blocks and a remainder below one block. */
  lemma Decompose(remaining: nat, size: nat)
    requires size > 0
    ensures 0 <= remaining % size <= remaining && remaining % size < size
    ensures (remaining - remaining % size) / size >= 0
    ensures (remaining - remaining % size) / size * size == remaining - remaining % size
    ensures (remaining - remaining % size) / size == remaining / size
    ensures (remaining - remaining % size) % size == 0
  {
    var q := remaining / size;
    var r := remaining % size;
    assert remaining == q * size + r;
    assert q >= 0;
    assert r <= remaining by {
      assert q * size >= 0;
    }
    ModUnique(remaining - r, q, size, 0);
  }

  /** The whole blocks in n pages: ⌊n / size⌋ of them fit, one more does not. */
  lemma QuotientBounds(n: nat, size: nat)
    requires size > 0
    ensures n / size >= 0
    ensures n / size * size <= n < (n / size + 1) * size
  {
    Decompose(n, size);
    assert (n / size + 1) * size == n / size * size + size;
  }

  /**
   * The arithmetic of one pass of the inner loop of init: a positive whole
   * number of blocks still lies ahead, so at least one, and one fewer after it.
   */
  lemma RunStep(d: int, size: nat, e: int)
    requires size > 0 && d > 0 && d % size == 0 && e == d - size
    ensures size <= d && e % size == 0
  {
    var q := d / size;
    assert d == q * size;
    assert q >= 1;
    assert d == (q - 1) * size + size;
    assert (q - 1) * size >= 0;
    ModUnique(d - size, q - 1, size, 0);
  }

  /** One block fewer: (q - 1) blocks are q blocks less one. */
  lemma OneFewer(q: nat, size: nat)
    requires q > 0
    ensures size <= q * size
    ensures (q - 1) * size == q * size - size
  {
  }

  /**
   * A block followed by blocks of no larger order, of strictly smaller order
   * unless the block's order is MAX_ORDER, is largest first.
   */
  lemma PrependLargestFirst(b: Block, tail: seq<Block>)
    requires LargestFirst(tail)
    requires forall i :: 0 <= i < |tail| ==> tail[i].order < b.order || (b.order == MAX_ORDER && tail[i].order == MAX_ORDER)
    ensures LargestFirst([b] + tail)
  {
    var r := [b] + tail;
    forall i, j | 0 <= i < j < |r|
      ensures r[j].order < r[i].order || (r[i].order == MAX_ORDER && r[j].order == MAX_ORDER)
    {
      assert r[j] == tail[j - 1];
      if i > 0 {
        assert r[i] == tail[i - 1];
      }
    }
  }

  /** An aligned block in front of aligned blocks. */
  lemma PrependAligned(b: Block, tail: seq<Block>)
    requires b.order <= MAX_ORDER && IsAligned(b.start, b.order) && AllBlocksAligned(tail)
    ensures AllBlocksAligned([b] + tail)
  {
    var r := [b] + tail;
    forall i | 0 < i < |r|
      ensures r[i] == tail[i - 1]
    {
    }
  }

  /** When not one block of `order` fits, every block of the decomposition is of a lower order. */
  lemma InitBlocksBelow(base: int, remaining: nat, order: nat)
    requires remaining < PagesPerBlock(order)
    ensures forall i :: 0 <= i < |InitBlocks(base, remaining, order)| ==> InitBlocks(base, remaining, order)[i].order < order
  {
    if remaining > 0 {
      InitBlocksDrop(base, remaining, order);
      InitBlocksOrders(base, remaining, order - 1);
    }
  }

  /**
   * From a base aligned for `order`, the decomposition tiles
   * [base, base + remaining) with blocks aligned for their orders.
   */
  lemma {:induction false} InitBlocksTile(base: int, remaining: nat, order: nat)
    requires order <= MAX_ORDER && IsAligned(base, order)
    ensures Tiles(InitBlocks(base, remaining, order), base, base + remaining)
    ensures AllBlocksAligned(InitBlocks(base, remaining, order))
    decreases order, remaining
  {
    var size := PagesPerBlock(order);
    var r := InitBlocks(base, remaining, order);
    if remaining == 0 {
    } else if size <= remaining {
      var tail := InitBlocks(base + size, remaining - size, order);
      InitBlocksTake(base, remaining, order);
      AddMultiple(base, 1, size);
      InitBlocksTile(base + size, remaining - size, order);
      TilesAppend([Block(order, base)], tail, base, base + size, base + remaining);
      PrependAligned(Block(order, base), tail);
    } else {
      InitBlocksDrop(base, remaining, order);
      AlignedLower(base, order, order - 1);
      InitBlocksTile(base, remaining, order - 1);
    }
  }

  /**
   * With fewer than two order-`order` blocks' worth of pages unless `order` is
   * MAX_ORDER, the decomposition is largest first.
   */
  lemma {:induction false} InitBlocksLargestFirst(base: int, remaining: nat, order: nat)
    requires order <= MAX_ORDER
    requires order < MAX_ORDER ==> remaining < 2 * PagesPerBlock(order)
    ensures LargestFirst(InitBlocks(base, remaining, order))
    decreases order, remaining, 1
  {
    var size := PagesPerBlock(order);
    if remaining == 0 {
    } else if size <= remaining {
      TakeLargestFirst(base, remaining, order);
    } else {
      assert InitBlocks(base, remaining, order) == InitBlocks(base, remaining, order - 1) by {
        InitBlocksDrop(base, remaining, order);
      }
      assert size == 2 * PagesPerBlock(order - 1);
      InitBlocksLargestFirst(base, remaining, order - 1);
    }
  }

  /** The case of InitBlocksLargestFirst where a whole block fits: it goes first, ahead of smaller ones. */
  lemma {:induction false} TakeLargestFirst(base: int, remaining: nat, order: nat)
    requires order <= MAX_ORDER && PagesPerBlock(order) <= remaining
    requires order < MAX_ORDER ==> remaining < 2 * PagesPerBlock(order)
    ensures LargestFirst(InitBlocks(base, remaining, order))
    decreases order, remaining, 0
  {
    var size := PagesPerBlock(order);
    var tail := InitBlocks(base + size, remaining - size, order);
    InitBlocksTake(base, remaining, order);
    assert LargestFirst(tail) by {
      InitBlocksLargestFirst(base + size, remaining - size, order);
    }
    assert forall i :: 0 <= i < |tail| ==> tail[i].order < order || (order == MAX_ORDER && tail[i].order == MAX_ORDER) by {
      if order < MAX_ORDER {
        InitBlocksBelow(base + size, remaining - size, order);
      } else {
        InitBlocksOrders(base + size, remaining - size, order);
      }
    }
    PrependLargestFirst(Block(order, base), tail);
  }

  /**
   * From an order k with q whole order-k blocks in `remaining` pages, the first
   * q blocks are those, back to back from `base`, and every later block is of
   * a lower order.
   */
  lemma {:induction false} RunBlocks(base: int, remaining: nat, k: nat, q: nat)
    requires q * PagesPerBlock(k) <= remaining < (q + 1) * PagesPerBlock(k)
    ensures q <= |InitBlocks(base, remaining, k)|
    ensures forall i :: 0 <= i < q ==> InitBlocks(base, remaining, k)[i] == Block(k, base + i * PagesPerBlock(k))
    ensures forall i :: q <= i < |InitBlocks(base, remaining, k)| ==> InitBlocks(base, remaining, k)[i].order < k
    decreases q
  {
    var size := PagesPerBlock(k);
    var r := InitBlocks(base, remaining, k);
    if q == 0 {
      if remaining > 0 {
        InitBlocksDrop(base, remaining, k);
        InitBlocksOrders(base, remaining, k - 1);
      }
    } else {
      assert size <= remaining && (q - 1) * size <= remaining - size < q * size by {
        OneFewer(q, size);
      }
      var tail := InitBlocks(base + size, remaining - size, k);
      assert r == [Block(k, base)] + tail;
      RunBlocks(base + size, remaining - size, k, q - 1);
      forall i | 0 <= i < q
        ensures r[i] == Block(k, base + i * size)
      {
        if i > 0 {
          assert r[i] == tail[i - 1];
          assert base + size + (i - 1) * size == base + i * size by {
            OneFewer(i, size);
          }
        }
      }
      forall i | q <= i < |r|
        ensures r[i].order < k
      {
        assert r[i] == tail[i - 1];
      }
    }
  }

  /**
   * init over n pages, as a sequence of insert_block calls: back to back from
   * page 0 to page n, each block aligned for its order, first the ⌊n / 2^MAX_ORDER⌋
   * blocks of order MAX_ORDER, then at most one block of each lower order, in
   * decreasing order.
   */
  lemma InitBlocksSpec(n: nat)
    ensures Tiles(InitBlocks(0, n, MAX_ORDER), 0, n)
    ensures AllBlocksAligned(InitBlocks(0, n, MAX_ORDER))
    ensures LargestFirst(InitBlocks(0, n, MAX_ORDER))
    ensures n / PagesPerBlock(MAX_ORDER) <= |InitBlocks(0, n, MAX_ORDER)|
    ensures forall i :: 0 <= i < n / PagesPerBlock(MAX_ORDER) ==>
      InitBlocks(0, n, MAX_ORDER)[i] == Block(MAX_ORDER, i * PagesPerBlock(MAX_ORDER))
    ensures forall i :: 0 <= i < |InitBlocks(0, n, MAX_ORDER)| && InitBlocks(0, n, MAX_ORDER)[i].order == MAX_ORDER ==>
      i < n / PagesPerBlock(MAX_ORDER)
  {
    var size := PagesPerBlock(MAX_ORDER);
    InitBlocksTile(0, n, MAX_ORDER);
    InitBlocksLargestFirst(0, n, MAX_ORDER);
    QuotientBounds(n, size);
    var q := n / size;
    var r := InitBlocks(0, n, MAX_ORDER);
    RunBlocks(0, n, MAX_ORDER, q);
  }

  // ---------------------------------------------------------------------------
  // The table built by inserting a tiling.

  /** A block is listed after the inserts exactly when it was listed before or inserted at that order. */
  lemma {:induction false} InsertAllMembers(t: Table, bs: seq<Block>, k: nat, c: int)
    requires IsTable(t) && k <= MAX_ORDER
    ensures c in InsertAll(t, bs)[k] <==> c in t[k] || Block(k, c) in bs
    decreases |bs|
  {
    if bs != [] {
      var front := bs[..|bs| - 1];
      InsertAllMembers(t, front, k, c);
      if bs[|bs| - 1].order <= MAX_ORDER {
        InsertMembers(InsertAll(t, front), bs[|bs| - 1].order, bs[|bs| - 1].start);
      }
      assert bs == front + [bs[|bs| - 1]];
    }
  }

  /** A table that fits in n pages fits in any larger page count. */
  lemma WellFormedGrow(t: Table, n: int, m: int)
    requires WellFormed(t, n) && n <= m
    ensures WellFormed(t, m)
  {
  }

  /**
   * Inserting aligned blocks that tile [0, hi) into the empty table gives a
   * well-formed table whose free pages are exactly [0, hi).
   */
  lemma {:induction false} InsertTiling(bs: seq<Block>, hi: int)
    requires Tiles(bs, 0, hi) && AllBlocksAligned(bs)
    ensures WellFormed(InsertAll(EmptyTable(), bs), hi)
    ensures FreeCount(InsertAll(EmptyTable(), bs)) == hi
    ensures forall p :: PageFree(InsertAll(EmptyTable(), bs), p) <==> 0 <= p < hi
    decreases |bs|, 1
  {
    var e := EmptyTable();
    if bs == [] {
      assert FreeCount(e) == 0 by {
        EmptyFreeCount(e, 0);
      }
      forall p
        ensures !PageFree(e, p)
      {
      }
    } else {
      InsertTilingLast(bs, hi);
    }
  }

  /** The step of InsertTiling: the blocks before the last tile up to its start, and the last one is inserted on top. */
  lemma {:induction false} InsertTilingLast(bs: seq<Block>, hi: int)
    requires bs != [] && Tiles(bs, 0, hi) && AllBlocksAligned(bs)
    ensures WellFormed(InsertAll(EmptyTable(), bs), hi)
    ensures FreeCount(InsertAll(EmptyTable(), bs)) == hi
    ensures forall p :: PageFree(InsertAll(EmptyTable(), bs), p) <==> 0 <= p < hi
    decreases |bs|, 0
  {
    var e := EmptyTable();
    var front := bs[..|bs| - 1];
    var last := bs[|bs| - 1];
    var t := InsertAll(e, front);
    assert End(last) == hi && last.order <= MAX_ORDER && IsAligned(last.start, last.order);
    assert InsertAll(e, bs) == InsertBlock(t, last.order, last.start);
    assert WellFormed(t, last.start) && FreeCount(t) == last.start && (forall p :: PageFree(t, p) <==> 0 <= p < last.start) by {
      assert AllBlocksAligned(front);
      assert Tiles(front, 0, last.start) by {
        if front != [] {
          assert End(front[|front| - 1]) == last.start;
        }
      }
      InsertTiling(front, last.start);
    }
    assert 0 <= last.start;
    assert WellFormed(t, hi) && FreeOf(t, last.start, last.order) by {
      WellFormedGrow(t, last.start, hi);
    }
    InsertKeepsWellFormed(t, hi, last.order, last.start);
  }

  /** A strictly sorted list whose elements are all equal has at most one. */
  lemma AtMostOne(s: seq<int>)
    requires StrictlySorted(s) && forall c, d :: c in s && d in s ==> c == d
    ensures |s| <= 1
  {
    if s != [] {
      var last := |s| - 1;
      assert s[0] in s && s[last] in s;
    }
  }

  /** The empty table holds no free page. */
  lemma {:induction false} EmptyFreeCount(t: Table, k: nat)
    requires forall j :: 0 <= j < |t| ==> t[j] == []
    ensures FreeCountFrom(t, k) == 0
    decreases |t| - k
  {
    if k < |t| {
      EmptyFreeCount(t, k + 1);
    }
  }

  /** Below MAX_ORDER, the init table lists at most one block at each order. */
  lemma InitTableOnePerOrder(n: nat)
    ensures forall k, c, d :: 0 <= k < MAX_ORDER && c in InitTable(n)[k] && d in InitTable(n)[k] ==> c == d
  {
    var bs := InitBlocks(0, n, MAX_ORDER);
    var t := InitTable(n);
    InitBlocksLargestFirst(0, n, MAX_ORDER);
    forall k, c, d | 0 <= k < MAX_ORDER && c in t[k] && d in t[k]
      ensures c == d
    {
      InsertAllMembers(EmptyTable(), bs, k, c);
      InsertAllMembers(EmptyTable(), bs, k, d);
      var i :| 0 <= i < |bs| && bs[i] == Block(k, c);
      var j :| 0 <= j < |bs| && bs[j] == Block(k, d);
      assert i == j;
    }
  }

  /**
   * The table init builds over n pages is well formed and coalesced, frees
   * exactly the pages [0, n), and holds at most one block at each order below
   * MAX_ORDER.
   */
  lemma InitTableSpec(n: nat)
    ensures WellFormed(InitTable(n), n) && Coalesced(InitTable(n))
    ensures FreeCount(InitTable(n)) == n
    ensures forall p :: PageFree(InitTable(n), p) <==> 0 <= p < n
    ensures forall k :: 0 <= k < MAX_ORDER ==> |InitTable(n)[k]| <= 1
  {
    var bs := InitBlocks(0, n, MAX_ORDER);
    var t := InitTable(n);
    InitBlocksSpec(n);
    InsertTiling(bs, n);
    InitTableOnePerOrder(n);
    forall k, b | 0 <= k < MAX_ORDER && b in t[k]
      ensures BuddyPfn(b, k) !in t[k]
    {
      assert BuddyPfn(b, k) != b;
    }
    forall k | 0 <= k < MAX_ORDER
      ensures |t[k]| <= 1
    {
      AtMostOne(t[k]);
    }
  }
}
