/**
 * The contents of one free list, read as a sequence of frame numbers in list
 * order: what insert_block and remove_block do to it.
 */
module SortedList {

  /** Ascending by address with no duplicates. */
  predicate StrictlySorted(s: seq<int>)
  {
    forall i, j :: 0 <= i < j < |s| ==> s[i] < s[j]
  }

  /** insert_block on one list: `x` goes in front of the first element that is not below it. */
  function InsertSorted(s: seq<int>, x: int): (r: seq<int>)
    ensures |r| == |s| + 1
    ensures forall y :: y in r <==> y in s || y == x
    ensures StrictlySorted(s) && x !in s ==> StrictlySorted(r)
  {
    if s == [] || x <= s[0] then [x] + s
    else
      var rest := InsertSorted(s[1..], x);
      assert StrictlySorted(s) ==> forall k :: 0 <= k < |rest| ==> s[0] < rest[k] by {
        if StrictlySorted(s) {
          forall k | 0 <= k < |rest|
            ensures s[0] < rest[k]
          {
            assert rest[k] in rest;
            if rest[k] != x {
              var i :| 0 <= i < |s[1..]| && s[1..][i] == rest[k];
              assert s[i + 1] == rest[k];
            }
          }
        }
      }
      [s[0]] + rest
  }

  /** remove_block on one list: unlink the first element equal to `x`. */
  function RemoveFirst(s: seq<int>, x: int): (r: seq<int>)
    requires x in s
    ensures |r| == |s| - 1
    ensures forall y :: y in r ==> y in s
    ensures forall y :: y in s && y != x ==> y in r
    ensures StrictlySorted(s) ==> StrictlySorted(r) && x !in r
  {
    if s[0] == x then
      assert StrictlySorted(s) ==> x !in s[1..] by {
        if StrictlySorted(s) {
          forall i | 0 <= i < |s[1..]|
            ensures s[1..][i] != x
          {
            assert s[0] < s[i + 1];
          }
        }
      }
      s[1..]
    else
      var rest := RemoveFirst(s[1..], x);
      assert StrictlySorted(s) ==> forall k :: 0 <= k < |rest| ==> s[0] < rest[k] by {
        if StrictlySorted(s) {
          forall k | 0 <= k < |rest|
            ensures s[0] < rest[k]
          {
            assert rest[k] in rest;
            var i :| 0 <= i < |s[1..]| && s[1..][i] == rest[k];
            assert s[i + 1] == rest[k];
          }
        }
      }
      [s[0]] + rest
  }

  /** Inserting at the position the scan of insert_block stops at splices `x` in there. */
  lemma {:induction false} InsertSortedAt(s: seq<int>, x: int, j: nat)
    requires j <= |s|
    requires forall i :: 0 <= i < j ==> s[i] < x
    requires j < |s| ==> x <= s[j]
    ensures InsertSorted(s, x) == s[..j] + [x] + s[j..]
    decreases j
  {
    if j > 0 {
      var rest := InsertSorted(s[1..], x);
      assert InsertSorted(s, x) == [s[0]] + rest by {
        assert s[0] < x;
      }
      assert rest == s[1..j] + [x] + s[j..] by {
        InsertSortedAt(s[1..], x, j - 1);
        assert s[1..][..j - 1] == s[1..j];
        assert s[1..][j - 1..] == s[j..];
      }
      assert [s[0]] + (s[1..j] + [x] + s[j..]) == s[..j] + [x] + s[j..] by {
        assert s[..j] == [s[0]] + s[1..j];
      }
    }
  }

  /** Removing the first occurrence, found at index j, keeps everything else in order. */
  lemma {:induction false} RemoveFirstAt(s: seq<int>, x: int, j: nat)
    requires j < |s| && s[j] == x && x !in s[..j]
    ensures RemoveFirst(s, x) == s[..j] + s[j + 1..]
    decreases j
  {
    if j > 0 {
      assert s[0] in s[..j];
      assert s[1..][..j - 1] == s[1..j];
      assert x !in s[1..][..j - 1];
      RemoveFirstAt(s[1..], x, j - 1);
      assert s[1..][j..] == s[j + 1..];
      assert s[..j] == [s[0]] + s[1..j];
    }
  }

  /** Two ascending duplicate-free lists with the same elements are the same list. */
  lemma {:induction false} SortedExtensional(a: seq<int>, b: seq<int>)
    requires StrictlySorted(a) && StrictlySorted(b)
    requires forall y :: y in a <==> y in b
    ensures a == b
    decreases |a|
  {
    assert |a| > 0 ==> a[0] in a;
    assert |b| > 0 ==> b[0] in b;
    if a != [] && b != [] {
      var i :| 0 <= i < |b| && b[i] == a[0];
      var j :| 0 <= j < |a| && a[j] == b[0];
      assert b[0] <= b[i] && a[0] <= a[j];
      forall y
        ensures y in a[1..] <==> y in b[1..]
      {
        if y in a[1..] {
          var i :| 1 <= i < |a| && a[i] == y;
          assert y in b && y != b[0];
        }
        if y in b[1..] {
          var i :| 1 <= i < |b| && b[i] == y;
          assert y in a && y != a[0];
        }
      }
      SortedExtensional(a[1..], b[1..]);
      assert a == [a[0]] + a[1..] && b == [b[0]] + b[1..];
    }
  }

  /** remove_block then insert_block of the same block gives back a sorted list. */
  lemma InsertRemoved(s: seq<int>, x: int)
    requires StrictlySorted(s) && x in s
    ensures InsertSorted(RemoveFirst(s, x), x) == s
  {
    SortedExtensional(InsertSorted(RemoveFirst(s, x), x), s);
  }

  /** insert_block then remove_block of a block not on the list gives back a sorted list. */
  lemma RemoveInserted(s: seq<int>, x: int)
    requires StrictlySorted(s) && x !in s
    ensures x in InsertSorted(s, x) && RemoveFirst(InsertSorted(s, x), x) == s
  {
    SortedExtensional(RemoveFirst(InsertSorted(s, x), x), s);
  }
}
