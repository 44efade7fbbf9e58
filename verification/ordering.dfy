/** The order both sorts of server.js produce, and the facts about it that
    the sorting and searching modules share. */
module Ordering {

  /** Non-descending order: every earlier element is at most every later one. */
  predicate Sorted(s: seq<int>) {
    forall i, j :: 0 <= i < j < |s| ==> s[i] <= s[j]
  }

  /** A sorted sequence is determined by its multiset of elements: two sorts
      that both return a sorted permutation of the same input agree. */
  lemma {:induction false} SortedUnique(a: seq<int>, b: seq<int>)
    requires Sorted(a) && Sorted(b)
    requires multiset(a) == multiset(b)
    ensures a == b
    decreases |a|
  {
    assert |a| == |multiset(a)| == |multiset(b)| == |b|;
    if |a| > 0 {
      assert a[0] in multiset(b);
      assert b[0] in multiset(a);
      var i :| 0 <= i < |b| && b[i] == a[0];
      var j :| 0 <= j < |a| && a[j] == b[0];
      assert a[0] <= a[j] && b[0] <= b[i];
      assert a == [a[0]] + a[1..];
      assert b == [b[0]] + b[1..];
      assert multiset(a[1..]) == multiset(a) - multiset{a[0]};
      assert multiset(b[1..]) == multiset(b) - multiset{b[0]};
      SortedUnique(a[1..], b[1..]);
    }
  }

  /** Three blocks around a pivot — everything in `lo` at most `p`, everything
      in `mid` equal to `p`, everything in `hi` at least `p` — concatenate to a
      sorted sequence when `lo` and `hi` are sorted. */
  lemma SortedAround(lo: seq<int>, mid: seq<int>, hi: seq<int>, p: int)
    requires Sorted(lo) && Sorted(hi)
    requires forall x :: x in lo ==> x <= p
    requires forall x :: x in mid ==> x == p
    requires forall x :: x in hi ==> x >= p
    ensures Sorted(lo + mid + hi)
  {
    var s := lo + mid + hi;
    forall i, j | 0 <= i < j < |s| ensures s[i] <= s[j] {
      if i < |lo| {
        assert s[i] == lo[i] && s[i] in lo;
        if j >= |lo| + |mid| {
          assert s[j] == hi[j - |lo| - |mid|] && s[j] in hi;
        } else if j >= |lo| {
          assert s[j] == mid[j - |lo|] && s[j] in mid;
        }
      } else if i < |lo| + |mid| {
        assert s[i] == mid[i - |lo|] && s[i] in mid;
        if j >= |lo| + |mid| {
          assert s[j] == hi[j - |lo| - |mid|] && s[j] in hi;
        } else {
          assert s[j] == mid[j - |lo|] && s[j] in mid;
        }
      } else {
        assert s[i] == hi[i - |lo| - |mid|] && s[j] == hi[j - |lo| - |mid|];
      }
    }
  }
}
