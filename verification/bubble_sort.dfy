/** `bubbleSort` of server.js: two nested loops of adjacent compare-and-swap
    steps over the array, in place. The functions below replay those loops
    on a sequence, one step at a time; the method runs them on an array and
    is proved to end where the functions do. */
module BubbleSorting {
  import opened Ordering

  /** One step of the inner loop at index `j`: the two neighbours swap
      exactly when the left one is strictly greater. */
  function CompareSwap(s: seq<int>, j: nat): (r: seq<int>)
    requires j + 1 < |s|
    ensures |r| == |s|
    ensures r[j] <= r[j + 1]
    ensures (r[j] == s[j] && r[j + 1] == s[j + 1]) || (r[j] == s[j + 1] && r[j + 1] == s[j])
    ensures forall k :: 0 <= k < |s| && k != j && k != j + 1 ==> r[k] == s[k]
  {
    if s[j] > s[j + 1] then s[j := s[j + 1]][j + 1 := s[j]] else s
  }

  /** A compare-and-swap step only reorders its input. */
  lemma CompareSwapPermutes(s: seq<int>, j: nat)
    requires j + 1 < |s|
    ensures multiset(CompareSwap(s, j)) == multiset(s)
  {
  }

  /** The inner loop from index `j` onward: compare-and-swap at
      `j`, `j + 1`, ..., `bound - 1`. */
  function InnerPass(s: seq<int>, j: nat, bound: nat): (r: seq<int>)
    requires j <= bound < |s|
    ensures |r| == |s|
    decreases bound - j
  {
    if j == bound then s else InnerPass(CompareSwap(s, j), j + 1, bound)
  }

  /** The outer loop from round `i` onward; round `i` runs the inner loop
      up to `|s| - i - 1`, and there are `|s| - 1` rounds in all. */
  function Passes(s: seq<int>, i: nat): (r: seq<int>)
    ensures |r| == |s|
    decreases |s| - i
  {
    if i + 1 >= |s| then s else Passes(InnerPass(s, 0, |s| - i - 1), i + 1)
  }

  /** What `bubbleSort` leaves in the array it is given. */
  function BubbleSorted(s: seq<int>): (r: seq<int>)
    ensures |r| == |s|
  {
    Passes(s, 0)
  }

  /** An inner pass permutes its input and leaves everything after `bound`
      where it was. */
  lemma {:induction false} InnerPassPermutes(s: seq<int>, j: nat, bound: nat)
    requires j <= bound < |s|
    ensures multiset(InnerPass(s, j, bound)) == multiset(s)
    ensures forall m :: bound < m < |s| ==> InnerPass(s, j, bound)[m] == s[m]
    decreases bound - j
  {
    if j < bound {
      CompareSwapPermutes(s, j);
      InnerPassPermutes(CompareSwap(s, j), j + 1, bound);
    }
  }

  /** An inner pass carries the largest element of `s[..bound + 1]` to index
      `bound`, provided the part already walked ends in its largest element. */
  lemma {:induction false} InnerPassBubblesUp(s: seq<int>, j: nat, bound: nat)
    requires j <= bound < |s|
    requires forall k :: 0 <= k < j ==> s[k] <= s[j]
    ensures forall k :: 0 <= k <= bound ==> InnerPass(s, j, bound)[k] <= InnerPass(s, j, bound)[bound]
    decreases bound - j
  {
    if j < bound {
      var t := CompareSwap(s, j);
      forall k | 0 <= k < j + 1 ensures t[k] <= t[j + 1] {
        if k < j {
          assert t[k] == s[k];
        }
      }
      InnerPassBubblesUp(t, j + 1, bound);
    }
  }

  /** An inner pass only moves elements within `s[..bound + 1]`, so "nothing
      up to `bound` exceeds anything after it" survives it. */
  lemma {:induction false} InnerPassKeepsSplit(s: seq<int>, j: nat, bound: nat)
    requires j <= bound < |s|
    requires forall k, m :: 0 <= k <= bound < m < |s| ==> s[k] <= s[m]
    ensures forall k, m :: 0 <= k <= bound < m < |s| ==> InnerPass(s, j, bound)[k] <= InnerPass(s, j, bound)[m]
    decreases bound - j
  {
    if j < bound {
      var t := CompareSwap(s, j);
      forall k, m | 0 <= k <= bound < m < |s| ensures t[k] <= t[m] {
        assert t[m] == s[m];
        if k != j && k != j + 1 {
          assert t[k] == s[k];
        }
      }
      InnerPassKeepsSplit(t, j + 1, bound);
    }
  }

  /** After `i` rounds the last `i` elements are sorted and no earlier element
      exceeds them; the remaining rounds then leave a sorted permutation. */
  lemma {:induction false} PassesSort(s: seq<int>, i: nat)
    requires i <= |s|
    requires Sorted(s[|s| - i..])
    requires forall k, m :: 0 <= k < |s| - i <= m < |s| ==> s[k] <= s[m]
    ensures Sorted(Passes(s, i))
    ensures multiset(Passes(s, i)) == multiset(s)
    decreases |s| - i
  {
    var n := |s|;
    if i + 1 >= n {
      forall a, b | 0 <= a < b < n ensures s[a] <= s[b] {
        if a >= n - i {
          assert s[a] == s[n - i..][a - (n - i)] && s[b] == s[n - i..][b - (n - i)];
        }
      }
    } else {
      var bound := n - i - 1;
      var t := InnerPass(s, 0, bound);
      InnerPassPermutes(s, 0, bound);
      InnerPassBubblesUp(s, 0, bound);
      InnerPassKeepsSplit(s, 0, bound);
      forall a, b | bound <= a < b < n ensures t[a] <= t[b] {
        if a > bound {
          assert t[a] == s[n - i..][a - (n - i)] && t[b] == s[n - i..][b - (n - i)];
        }
      }
      assert t[n - (i + 1)..] == t[bound..];
      PassesSort(t, i + 1);
    }
  }

  /** `bubbleSort` returns a sorted permutation of its input. */
  lemma BubbleSortedCorrect(s: seq<int>)
    ensures |BubbleSorted(s)| == |s|
    ensures Sorted(BubbleSorted(s))
    ensures multiset(BubbleSorted(s)) == multiset(s)
  {
    PassesSort(s, 0);
  }

  /** Bubble-sorting an already sorted array changes nothing. */
  lemma BubbleSortKeepsSorted(s: seq<int>)
    requires Sorted(s)
    ensures BubbleSorted(s) == s
  {
    BubbleSortedCorrect(s);
    SortedUnique(BubbleSorted(s), s);
  }

  /** `bubbleSort(arr)`: sorts `a` in place by the source's two loops. */
  method BubbleSort(a: array<int>)
    modifies a
    ensures a[..] == BubbleSorted(old(a[..]))
    ensures Sorted(a[..])
    ensures multiset(a[..]) == multiset(old(a[..]))
  {
    ghost var s0 := a[..];
    var n := a.Length;
    var i := 0;
    while i < n - 1
      invariant 0 <= i && (n > 0 ==> i <= n - 1)
      invariant Passes(a[..], i) == BubbleSorted(s0)
    {
      ghost var before := a[..];
      var j := 0;
      while j < n - i - 1
        invariant 0 <= j <= n - i - 1
        invariant InnerPass(a[..], j, n - i - 1) == InnerPass(before, 0, n - i - 1)
      {
        ghost var cur := a[..];
        if a[j] > a[j + 1] {
          a[j], a[j + 1] := a[j + 1], a[j];
        }
        assert a[..] == CompareSwap(cur, j);
        j := j + 1;
      }
      i := i + 1;
    }
    BubbleSortedCorrect(s0);
  }
}
