/**
 * reserve_page on the free-area table: find, from MAX_ORDER down, the free
 * block that contains the page, split it until the page is a block of its own
 * at order 0, and take that block off the order-0 list.
 */
module Reserve {
  import opened Wrappers
  import opened BuddyMath
  import opened SortedList
  import opened FreeArea

  /** What reserve_page ends with: the table, and whether the page was reserved. */
  datatype Reserved = Reserved(table: Table, ok: bool)

  /** The scan of one free list: its first block, in list order, containing page `p`. */
  function FirstContaining(s: seq<int>, k: nat, p: int): (r: Option<int>)
    ensures r.Some? ==> r.value in s && Contains(r.value, k, p)
    ensures r.None? <==> forall c :: c in s ==> !Contains(c, k, p)
  {
    if s == [] then None
    else if Contains(s[0], k, p) then Some(s[0])
    else FirstContaining(s[1..], k, p)
  }

  /** The search of reserve_page from order k down to 0: the first order and block containing `p`. */
  function FindContaining(t: Table, k: nat, p: int): (r: Option<(nat, int)>)
    requires IsTable(t) && k <= MAX_ORDER
    ensures r.Some? ==> r.value.0 <= k && r.value.1 in t[r.value.0] && Contains(r.value.1, r.value.0, p)
    ensures r.None? <==> forall j, c :: 0 <= j <= k && c in t[j] ==> !Contains(c, j, p)
    decreases k
  {
    match FirstContaining(t[k], k, p)
    case Some(c) => Some((k, c))
    case None => if k == 0 then None else FindContaining(t, k - 1, p)
  }

  /**
   * Split block `c` of order k, which contains page `p`, keeping the half that
   * contains `p` each time, until `p` is a block of order 0.
   */
  function SplitTo(t: Table, k: nat, c: int, p: int): (r: Table)
    requires IsTable(t) && k <= MAX_ORDER && c in t[k] && IsAligned(c, k) && Contains(c, k, p)
    ensures IsTable(r) && p in r[0]
    decreases k
  {
    if k == 0 then t
    else
      SplitBlockListsHalves(t, k, c);
      var left := c;
      var next := if Contains(left, k - 1, p) then left else left + PagesPerBlock(k - 1);
      SplitTo(SplitBlock(t, k, c), k - 1, next, p)
  }

  /**
   * One split on the way down: the half of `c` holding page `p` is listed one
   * order down, and the rest of the split starts from it.
   */
  lemma SplitToStep(t: Table, k: nat, c: int, p: int)
    requires IsTable(t) && 0 < k <= MAX_ORDER && c in t[k] && IsAligned(c, k) && Contains(c, k, p)
    ensures BuddyOf(c, k - 1) == Some(c + PagesPerBlock(k - 1))
    ensures var half := if Contains(c, k - 1, p) then c else c + PagesPerBlock(k - 1);
      half in SplitBlock(t, k, c)[k - 1] && Contains(half, k - 1, p) &&
      SplitTo(t, k, c, p) == SplitTo(SplitBlock(t, k, c), k - 1, half, p)
  {
    SplitBlockListsHalves(t, k, c);
    assert PagesPerBlock(k) == 2 * PagesPerBlock(k - 1);
  }

  /**
   * reserve_page: false, with nothing changed, when no free block contains `p`;
   * otherwise the containing block is split down to `p` alone and `p` is removed.
   */
  function ReservePage(t: Table, p: int): (r: Reserved)
    requires IsTable(t) && AllAligned(t)
    ensures IsTable(r.table)
    ensures r.ok <==> PageFree(t, p)
    ensures !r.ok ==> r.table == t
  {
    match FindContaining(t, |t| - 1, p)
    case None => Reserved(t, false)
    case Some((k, c)) =>
      var t1 := SplitTo(t, k, c, p);
      Reserved(RemoveBlock(t1, 0, p), true)
  }

  // ---------------------------------------------------------------------------

  /** The list scan stops at position i when no earlier block contains `p` and that one does. */
  lemma {:induction false} FirstContainingAt(s: seq<int>, k: nat, p: int, i: nat)
    requires i < |s| && Contains(s[i], k, p)
    requires forall m :: 0 <= m < i ==> !Contains(s[m], k, p)
    ensures FirstContaining(s, k, p) == Some(s[i])
    decreases i
  {
    if i > 0 {
      FirstContainingAt(s[1..], k, p, i - 1);
    }
  }

  /** When the scan of every order from k + 1 up to MAX_ORDER finds nothing, the search starts at k. */
  lemma {:induction false} FindContainingFrom(t: Table, k: nat, p: int, j: nat)
    requires IsTable(t) && k <= j <= MAX_ORDER
    requires forall i, c :: k < i <= MAX_ORDER && c in t[i] ==> !Contains(c, i, p)
    ensures FindContaining(t, j, p) == FindContaining(t, k, p)
    decreases j
  {
    if j > k {
      assert FirstContaining(t[j], j, p).None?;
      FindContainingFrom(t, k, p, j - 1);
    }
  }

  /** Splitting down to page `p` keeps the table well formed and the same pages free. */
  lemma {:induction false} SplitToKeeps(t: Table, n: int, k: nat, c: int, p: int)
    requires WellFormed(t, n) && k <= MAX_ORDER && c in t[k] && Contains(c, k, p)
    ensures IsAligned(c, k)
    ensures WellFormed(SplitTo(t, k, c, p), n)
    ensures FreeCount(SplitTo(t, k, c, p)) == FreeCount(t)
    ensures forall q :: PageFree(SplitTo(t, k, c, p), q) <==> PageFree(t, q)
    decreases k
  {
    if k > 0 {
      var t1 := SplitBlock(t, k, c);
      var next := if Contains(c, k - 1, p) then c else c + PagesPerBlock(k - 1);
      assert WellFormed(t1, n) && FreeCount(t1) == FreeCount(t) && (forall q :: PageFree(t1, q) <==> PageFree(t, q)) by {
        SplitKeepsWellFormed(t, n, k, c);
      }
      assert next in t1[k - 1] && Contains(next, k - 1, p) && SplitTo(t, k, c, p) == SplitTo(t1, k - 1, next, p) by {
        SplitKeepsWellFormed(t, n, k, c);
        SplitToStep(t, k, c, p);
      }
      SplitToKeeps(t1, n, k - 1, next, p);
    }
  }

  /** Splitting down to page `p` from a block of the excepted pair leaves only `p`'s pair excepted. */
  lemma {:induction false} SplitToCoalesced(t: Table, n: int, k: nat, c: int, p: int)
    requires WellFormed(t, n) && k <= MAX_ORDER && c in t[k] && Contains(c, k, p)
    requires CoalescedExcept(t, k, c)
    ensures IsAligned(c, k)
    ensures CoalescedExcept(SplitTo(t, k, c, p), 0, p)
    decreases k
  {
    if k == 0 {
      assert c == p;
    } else {
      var t1 := SplitBlock(t, k, c);
      var next := if Contains(c, k - 1, p) then c else c + PagesPerBlock(k - 1);
      assert WellFormed(t1, n) && next in t1[k - 1] && Contains(next, k - 1, p) && CoalescedExcept(t1, k - 1, next) &&
        SplitTo(t, k, c, p) == SplitTo(t1, k - 1, next, p) by {
        SplitKeepsWellFormed(t, n, k, c);
        SplitCoalescedExcept(t, n, k, c);
        SplitToStep(t, k, c, p);
        CoalescedExceptBuddy(t1, k - 1, c);
      }
      SplitToCoalesced(t1, n, k - 1, next, p);
    }
  }

  /**
   * reserve_page on a well-formed, coalesced table keeps it so.  On success
   * exactly page `p` stops being free and the free count drops by one.
   */
  lemma ReservePageKeeps(t: Table, n: int, p: int)
    requires WellFormed(t, n) && Coalesced(t)
    ensures WellFormed(ReservePage(t, p).table, n)
    ensures Coalesced(ReservePage(t, p).table)
    ensures ReservePage(t, p).ok ==>
      0 <= p < n &&
      FreeCount(ReservePage(t, p).table) == FreeCount(t) - 1 &&
      forall q :: PageFree(ReservePage(t, p).table, q) <==> PageFree(t, q) && q != p
  {
    match FindContaining(t, |t| - 1, p)
    case None =>
    case Some((k, c)) =>
      var t1 := SplitTo(t, k, c, p);
      CoalescedAnyExcept(t, k, c);
      SplitToKeeps(t, n, k, c, p);
      SplitToCoalesced(t, n, k, c, p);
      RemoveKeepsWellFormed(t1, n, 0, p);
      RemoveCoalesced(t1, n, 0, p);
      assert ReservePage(t, p) == Reserved(RemoveBlock(t1, 0, p), true);
      assert PagesPerBlock(0) == 1;
  }
}
