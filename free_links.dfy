/**
 * The intrusive free lists: one head per order and one `next_free` link per
 * page, read as the table of list contents they represent.  A link is a frame
 * number, or NULL at the end of a list.
 */
module FreeLinks {
  import opened BuddyMath
  import opened SortedList
  import opened FreeArea

  /** The null link (a null page-descriptor pointer). */
  const NULL: int := -1

  /** Following the links from head `h` visits exactly the blocks of `s`, in order, then stops. */
  predicate Linked(h: int, s: seq<int>, next: seq<int>)
  {
    h == (if s == [] then NULL else s[0]) &&
    forall i :: 0 <= i < |s| ==>
      0 <= s[i] < |next| && next[s[i]] == (if i + 1 < |s| then s[i + 1] else NULL)
  }

  /** No block is listed at two orders. */
  predicate ListsDisjoint(t: Table)
  {
    forall k1, k2, x :: 0 <= k1 < |t| && 0 <= k2 < |t| && x in t[k1] && x in t[k2] ==> k1 == k2
  }

  /**
   * The list heads and the link fields represent the table `t`: each order's
   * list is sorted, no block is on two lists, and the links spell out each list.
   */
  predicate Represents(heads: seq<int>, next: seq<int>, t: Table)
  {
    IsTable(t) && |heads| == |t| && ListsSorted(t) && ListsDisjoint(t) &&
    forall k :: 0 <= k < |t| ==> Linked(heads[k], t[k], next)
  }

  /** A block of a represented table is a valid index into the link fields. */
  lemma ListedInRange(heads: seq<int>, next: seq<int>, t: Table, k: nat, x: int)
    requires Represents(heads, next, t) && k < |t| && x in t[k]
    ensures 0 <= x < |next|
  {
    var i :| 0 <= i < |t[k]| && t[k][i] == x;
    assert Linked(heads[k], t[k], next);
  }

  /** Link changes at blocks outside a list leave the list as it was. */
  lemma LinkedFrame(h: int, s: seq<int>, next: seq<int>, next': seq<int>)
    requires Linked(h, s, next) && |next'| == |next|
    requires forall i :: 0 <= i < |s| ==> next'[s[i]] == next[s[i]]
    ensures Linked(h, s, next')
  {
  }

  /** The link of the block at position m of a linked list. */
  lemma LinkAt(h: int, s: seq<int>, next: seq<int>, m: int)
    requires Linked(h, s, next) && 0 <= m < |s|
    ensures 0 <= s[m] < |next| && next[s[m]] == (if m + 1 < |s| then s[m + 1] else NULL)
  {
  }

  /** Splicing `x` in at position j of a list: the links of one list. */
  lemma LinkedInsert(h: int, s: seq<int>, next: seq<int>, j: nat, x: int)
    requires Linked(h, s, next) && StrictlySorted(s) && 0 <= x < |next| && x !in s && j <= |s|
    ensures Linked(
      if j == 0 then x else h,
      s[..j] + [x] + s[j..],
      if j == 0 then next[x := if j < |s| then s[j] else NULL]
      else next[x := if j < |s| then s[j] else NULL][s[j - 1] := x])
  {
    var s' := s[..j] + [x] + s[j..];
    var next1 := next[x := if j < |s| then s[j] else NULL];
    var next' := if j == 0 then next1 else next1[s[j - 1] := x];
    assert |s'| == |s| + 1;
    forall i | 0 <= i < |s'|
      ensures 0 <= s'[i] < |next'| && next'[s'[i]] == (if i + 1 < |s'| then s'[i + 1] else NULL)
    {
      if i < j {
        assert 0 <= s'[i] < |next'| && next'[s'[i]] == (if i + 1 < |s'| then s'[i + 1] else NULL) by {
          LinkAt(h, s, next, i);
          assert s'[i] == s[i] && s[i] in s;
          if i + 1 < j {
            assert s[i] < s[j - 1];
            assert s'[i + 1] == s[i + 1];
          } else {
            assert s'[i + 1] == x;
          }
        }
      } else if i == j {
        assert 0 <= s'[i] < |next'| && next'[s'[i]] == (if i + 1 < |s'| then s'[i + 1] else NULL) by {
          assert s'[i] == x;
          assert j > 0 ==> s[j - 1] in s;
          assert i + 1 < |s'| ==> s'[i + 1] == s[j];
        }
      } else {
        assert 0 <= s'[i] < |next'| && next'[s'[i]] == (if i + 1 < |s'| then s'[i + 1] else NULL) by {
          LinkAt(h, s, next, i - 1);
          assert s'[i] == s[i - 1] && s[i - 1] in s;
          assert j > 0 ==> s[j - 1] < s[i - 1];
          assert i + 1 < |s'| ==> s'[i + 1] == s[i];
        }
      }
    }
    assert (if j == 0 then x else h) == (if s' == [] then NULL else s'[0]);
    assert Linked(if j == 0 then x else h, s', next');
  }

  /** Unlinking the block at position j of a list: the links of one list. */
  lemma LinkedRemove(h: int, s: seq<int>, next: seq<int>, j: nat)
    requires Linked(h, s, next) && StrictlySorted(s) && j < |s|
    ensures Linked(
      if j == 0 then next[s[j]] else h,
      s[..j] + s[j + 1..],
      if j == 0 then next[s[j] := NULL] else next[s[j - 1] := next[s[j]]][s[j] := NULL])
  {
    var x := s[j];
    var s' := s[..j] + s[j + 1..];
    var next1 := if j == 0 then next else next[s[j - 1] := next[x]];
    var next' := next1[x := NULL];
    LinkAt(h, s, next, j);
    forall i | 0 <= i < |s'|
      ensures 0 <= s'[i] < |next'| && next'[s'[i]] == (if i + 1 < |s'| then s'[i + 1] else NULL)
    {
      if i < j {
        LinkAt(h, s, next, i);
        assert s'[i] == s[i] && s[i] < x;
        if i + 1 < j {
          assert s[i] < s[j - 1];
          assert s'[i + 1] == s[i + 1];
        } else {
          assert i + 1 < |s'| ==> s'[i + 1] == s[j + 1];
        }
      } else {
        LinkAt(h, s, next, i + 1);
        assert s'[i] == s[i + 1] && x < s[i + 1];
        assert j > 0 ==> s[j - 1] < s[i + 1];
        assert i + 1 < |s'| ==> s'[i + 1] == s[i + 2];
      }
    }
    assert j == 0 ==> s' == s[1..];
    assert (if j == 0 then next[x] else h) == (if s' == [] then NULL else s'[0]);
    assert Linked(if j == 0 then next[x] else h, s', next');
  }

  /**
   * insert_block relinking: with the scan stopped at position j of the order-k
   * list, `x` takes the old successor as its link, and the head (j == 0) or
   * the previous block's link points at `x`.  The result represents InsertBlock.
   */
  lemma InsertLinks(heads: seq<int>, next: seq<int>, t: Table, k: nat, j: nat, x: int)
    requires Represents(heads, next, t) && k < |t|
    requires 0 <= x < |next| && forall k' :: 0 <= k' < |t| ==> x !in t[k']
    requires j <= |t[k]| && (forall i :: 0 <= i < j ==> t[k][i] < x) && (j < |t[k]| ==> x <= t[k][j])
    ensures InsertBlock(t, k, x)[k] == t[k][..j] + [x] + t[k][j..]
    ensures Represents(
      if j == 0 then heads[k := x] else heads,
      if j == 0 then next[x := if j < |t[k]| then t[k][j] else NULL]
      else next[x := if j < |t[k]| then t[k][j] else NULL][t[k][j - 1] := x],
      InsertBlock(t, k, x))
  {
    var s := t[k];
    var r := InsertBlock(t, k, x);
    InsertSortedAt(s, x, j);
    assert r[k] == s[..j] + [x] + s[j..];
    var heads' := if j == 0 then heads[k := x] else heads;
    var next1 := next[x := if j < |s| then s[j] else NULL];
    var next' := if j == 0 then next1 else next1[s[j - 1] := x];
    assert x !in s;
    InsertKeepsSorted(t, k, x);
    InsertMembers(t, k, x);
    assert ListsDisjoint(r);
    LinkedInsert(heads[k], s, next, j, x);
    forall k' | 0 <= k' < |r| && k' != k
      ensures Linked(heads'[k'], r[k'], next')
    {
      assert j > 0 ==> s[j - 1] in s;
      forall i | 0 <= i < |t[k']|
        ensures next'[t[k'][i]] == next[t[k'][i]]
      {
        assert t[k'][i] in t[k'];
      }
      LinkedFrame(heads[k'], t[k'], next, next');
    }
  }

  /**
   * remove_block relinking: the head (j == 0) or the previous block's link
   * takes over the link of the block at position j, whose own link is then
   * cleared.  The result represents RemoveBlock.
   */
  lemma RemoveLinks(heads: seq<int>, next: seq<int>, t: Table, k: nat, j: nat)
    requires Represents(heads, next, t) && k < |t| && j < |t[k]|
    ensures t[k][j] in t[k] && 0 <= t[k][j] < |next|
    ensures RemoveBlock(t, k, t[k][j])[k] == t[k][..j] + t[k][j + 1..]
    ensures Represents(
      if j == 0 then heads[k := next[t[k][j]]] else heads,
      if j == 0 then next[t[k][j] := NULL]
      else next[t[k][j - 1] := next[t[k][j]]][t[k][j] := NULL],
      RemoveBlock(t, k, t[k][j]))
  {
    var s := t[k];
    var x := s[j];
    assert x in s;
    assert Linked(heads[k], s, next);
    var r := RemoveBlock(t, k, x);
    assert x !in s[..j] by {
      assert StrictlySorted(s);
    }
    RemoveFirstAt(s, x, j);
    assert r[k] == s[..j] + s[j + 1..];
    var heads' := if j == 0 then heads[k := next[x]] else heads;
    var next1 := if j == 0 then next else next[s[j - 1] := next[x]];
    var next' := next1[x := NULL];
    RemoveMembers(t, k, x);
    assert ListsDisjoint(r);
    assert ListsSorted(r);
    LinkedRemove(heads[k], s, next, j);
    forall k' | 0 <= k' < |r| && k' != k
      ensures Linked(heads'[k'], r[k'], next')
    {
      assert j > 0 ==> s[j - 1] in s;
      forall i | 0 <= i < |t[k']|
        ensures next'[t[k'][i]] == next[t[k'][i]]
      {
        assert t[k'][i] in t[k'];
      }
      LinkedFrame(heads[k'], t[k'], next, next');
    }
  }
}
