/** `quickSort` of server.js: a recursive sort that builds new arrays. The
    middle element by index is the pivot; three `filter` calls split the
    input into the elements below, equal to and above it; the result is the
    sorted lower part, the equal part as it stands, then the sorted upper
    part. */
module QuickSorting {
  import opened Ordering

  /** The three tests the source hands to `filter`: `x < pivot`,
      `x === pivot` and `x > pivot`. */
  datatype Relation = Below | Equal | Above

  predicate Holds(rel: Relation, x: int, pivot: int) {
    match rel
    case Below => x < pivot
    case Equal => x == pivot
    case Above => x > pivot
  }

  /** `arr.filter(x => rel(x, pivot))`: the elements that pass, in their
      original order. */
  function Filter(s: seq<int>, rel: Relation, pivot: int): (r: seq<int>)
    ensures |r| <= |s|
    ensures forall x :: x in r <==> x in s && Holds(rel, x, pivot)
  {
    if s == [] then []
    else (if Holds(rel, s[0], pivot) then [s[0]] else []) + Filter(s[1..], rel, pivot)
  }

  /** `quickSort(arr)`. */
  function QuickSort(s: seq<int>): (r: seq<int>)
    ensures |r| == |s|
    decreases |s|
  {
    if |s| <= 1 then s
    else
      var pivot := s[|s| / 2];
      var left := Filter(s, Below, pivot);
      var middle := Filter(s, Equal, pivot);
      var right := Filter(s, Above, pivot);
      OuterGroupsShrink(s);
      Partition(s, pivot);
      QuickSort(left) + middle + QuickSort(right)
  }

  /** `filter` keeps every occurrence of a passing element and drops every
      occurrence of a failing one. */
  lemma {:induction false} FilterKeepsOccurrences(s: seq<int>, rel: Relation, pivot: int)
    ensures forall x :: multiset(Filter(s, rel, pivot))[x] == if Holds(rel, x, pivot) then multiset(s)[x] else 0
    decreases |s|
  {
    if s != [] {
      FilterKeepsOccurrences(s[1..], rel, pivot);
      assert s == [s[0]] + s[1..];
    }
  }

  /** The three filters split the input: every element lands in exactly one
      of them, so their multisets add up to the input's and their lengths
      to its length. */
  lemma {:induction false} Partition(s: seq<int>, pivot: int)
    ensures multiset(Filter(s, Below, pivot)) + multiset(Filter(s, Equal, pivot))
            + multiset(Filter(s, Above, pivot)) == multiset(s)
    ensures |Filter(s, Below, pivot)| + |Filter(s, Equal, pivot)| + |Filter(s, Above, pivot)| == |s|
    decreases |s|
  {
    if s != [] {
      Partition(s[1..], pivot);
      assert s == [s[0]] + s[1..];
    }
  }

  /** The recursion is well-founded: once the pivot is in the middle group,
      both outer groups are strictly shorter than the input. */
  lemma OuterGroupsShrink(s: seq<int>)
    requires |s| > 1
    ensures |Filter(s, Below, s[|s| / 2])| < |s|
    ensures |Filter(s, Above, s[|s| / 2])| < |s|
  {
    var pivot := s[|s| / 2];
    Partition(s, pivot);
    assert pivot in Filter(s, Equal, pivot);
  }

  /** `quickSort` returns a permutation of its input. */
  lemma {:induction false} QuickSortPermutes(s: seq<int>)
    ensures multiset(QuickSort(s)) == multiset(s)
    decreases |s|
  {
    if |s| > 1 {
      var pivot := s[|s| / 2];
      OuterGroupsShrink(s);
      QuickSortPermutes(Filter(s, Below, pivot));
      QuickSortPermutes(Filter(s, Above, pivot));
      Partition(s, pivot);
    }
  }

  /** Every element of a `quickSort` result came from its input. */
  lemma QuickSortFrom(s: seq<int>, x: int)
    requires x in QuickSort(s)
    ensures x in s
  {
    QuickSortPermutes(s);
    assert x in multiset(QuickSort(s));
  }

  /** `quickSort` returns its input in non-descending order. */
  lemma {:induction false} QuickSortSorts(s: seq<int>)
    ensures Sorted(QuickSort(s))
    decreases |s|
  {
    if |s| > 1 {
      var pivot := s[|s| / 2];
      var left := Filter(s, Below, pivot);
      var right := Filter(s, Above, pivot);
      OuterGroupsShrink(s);
      QuickSortSorts(left);
      QuickSortSorts(right);
      forall x | x in QuickSort(left) ensures x <= pivot {
        QuickSortFrom(left, x);
      }
      forall x | x in QuickSort(right) ensures x >= pivot {
        QuickSortFrom(right, x);
      }
      SortedAround(QuickSort(left), Filter(s, Equal, pivot), QuickSort(right), pivot);
    }
  }

  /** Sorting an already sorted array with `quickSort` changes nothing. */
  lemma QuickSortKeepsSorted(s: seq<int>)
    requires Sorted(s)
    ensures QuickSort(s) == s
  {
    QuickSortSorts(s);
    QuickSortPermutes(s);
    SortedUnique(QuickSort(s), s);
  }
}
