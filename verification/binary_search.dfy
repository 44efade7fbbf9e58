/** `binarySearch` of server.js: the two-pointer loop over an array the
    caller has sorted, returning the first index whose element equals the
    target that the probes meet, or -1. */
module BinarySearching {
  import opened Ordering

  /** The loop of `binarySearch` from the window `[left, right]` onward.
      Probing stops at the first midpoint that matches. */
  function SearchFrom(arr: seq<int>, target: int, left: int, right: int): (r: int)
    requires 0 <= left <= right + 1 <= |arr|
    ensures r == -1 || left <= r <= right
    decreases right - left + 1
  {
    if left > right then -1
    else
      var mid := (left + right) / 2;
      if arr[mid] == target then mid
      else if arr[mid] < target then SearchFrom(arr, target, mid + 1, right)
      else SearchFrom(arr, target, left, mid - 1)
  }

  /** `binarySearch(arr, target)`: the loop from the whole array. */
  function Search(arr: seq<int>, target: int): (r: int)
    ensures -1 <= r < |arr|
  {
    SearchFrom(arr, target, 0, |arr| - 1)
  }

  /** Whatever the order of `arr`, a result other than -1 is an index into
      the window where `target` sits. */
  lemma {:induction false} SearchFromFinds(arr: seq<int>, target: int, left: int, right: int)
    requires 0 <= left <= right + 1 <= |arr|
    ensures var r := SearchFrom(arr, target, left, right);
            r == -1 || (left <= r <= right && arr[r] == target)
    decreases right - left + 1
  {
    if left <= right {
      var mid := (left + right) / 2;
      if arr[mid] < target {
        SearchFromFinds(arr, target, mid + 1, right);
      } else if arr[mid] > target {
        SearchFromFinds(arr, target, left, mid - 1);
      }
    }
  }

  /** On a sorted array, -1 means no element of the window equals `target`:
      each probe discards only a side where `target` cannot be. */
  lemma {:induction false} SearchFromMissesOnlyAbsent(arr: seq<int>, target: int, left: int, right: int)
    requires 0 <= left <= right + 1 <= |arr|
    requires Sorted(arr)
    requires SearchFrom(arr, target, left, right) == -1
    ensures forall k :: left <= k <= right ==> arr[k] != target
    decreases right - left + 1
  {
    if left <= right {
      var mid := (left + right) / 2;
      if arr[mid] < target {
        SearchFromMissesOnlyAbsent(arr, target, mid + 1, right);
      } else {
        SearchFromMissesOnlyAbsent(arr, target, left, mid - 1);
      }
    }
  }

  /** `binarySearch` returns -1 or an index holding `target`; on a sorted
      array it returns -1 exactly when `target` does not occur. */
  lemma SearchCorrect(arr: seq<int>, target: int)
    ensures var r := Search(arr, target);
            r == -1 || (0 <= r < |arr| && arr[r] == target)
    ensures Sorted(arr) ==> (Search(arr, target) == -1 <==> target !in arr)
  {
    SearchFromFinds(arr, target, 0, |arr| - 1);
    if Sorted(arr) && Search(arr, target) == -1 {
      SearchFromMissesOnlyAbsent(arr, target, 0, |arr| - 1);
    }
  }

  /** One probe of a sorted array keeps `target` out of everything left of
      the new window (when the probe is too small) or right of it (when it is
      too large). */
  lemma ProbeNarrows(arr: seq<int>, target: int, left: int, mid: int, right: int)
    requires Sorted(arr) && 0 <= left <= mid <= right < |arr|
    requires target !in arr[..left] && target !in arr[right + 1..]
    requires arr[mid] != target
    ensures arr[mid] < target ==> target !in arr[..mid + 1]
    ensures arr[mid] > target ==> target !in arr[mid..]
  {
    if arr[mid] < target {
      forall k | 0 <= k <= mid ensures arr[k] != target {
        assert arr[k] <= arr[mid];
      }
    } else {
      forall k | mid <= k < |arr| ensures arr[k] != target {
        assert arr[mid] <= arr[k];
      }
    }
  }

  /** `binarySearch(arr, target)`, with the source's loop over `left` and
      `right`: the loop keeps `0 <= left <= right + 1 <= |arr|`, every probe
      lies in the window, on a sorted array `target` never occurs outside
      the window, and the rest of the loop always yields what the whole
      search yields. */
  method BinarySearch(arr: seq<int>, target: int) returns (r: int)
    ensures r == Search(arr, target)
    ensures r == -1 || (0 <= r < |arr| && arr[r] == target)
    ensures Sorted(arr) ==> (r == -1 <==> target !in arr)
  {
    var left := 0;
    var right := |arr| - 1;
    while left <= right
      invariant 0 <= left <= right + 1 <= |arr|
      invariant SearchFrom(arr, target, left, right) == Search(arr, target)
      invariant Sorted(arr) ==> target !in arr[..left] && target !in arr[right + 1..]
      decreases right - left
    {
      var mid := (left + right) / 2;
      assert left <= mid <= right;
      if arr[mid] == target {
        assert arr[mid] in arr;
        return mid;
      }
      if Sorted(arr) {
        ProbeNarrows(arr, target, left, mid, right);
      }
      if arr[mid] < target {
        left := mid + 1;
      } else {
        right := mid - 1;
      }
    }
    assert arr == arr[..left] + arr[right + 1..];
    return -1;
  }
}
