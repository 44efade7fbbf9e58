# algo-test-api: the algorithm kernel and its dispatcher, in Dafny

The service `algo-test-api` serves a small REST API over three textbook
algorithms and a stub. This project models the part of `server.js` that
computes something:

- `bubbleSort`: two nested loops of adjacent compare-and-swap steps, in place
  on an array (`bubble_sort.dfy`, module `BubbleSorting`);
- `quickSort`: a recursive sort that takes the middle element by index as
  pivot, splits the array with three `filter` calls (`< pivot`, `=== pivot`,
  `> pivot`) and concatenates the sorted outer groups around the middle
  group (`quick_sort.dfy`, module `QuickSorting`);
- `binarySearch`: the two-pointer loop over an array the caller has sorted,
  returning the first matching midpoint it probes, or -1
  (`binary_search.dfy`, module `BinarySearching`);
- the `/api/run-algorithm` handler without HTTP: field validation, the
  `switch` over ids 1 to 4, the Dijkstra stub, the "Invalid algorithm ID"
  default, and the static `/api/algorithms` list (`service.dfy`, module
  `Service`).

`ordering.dfy` (module `Ordering`) holds non-descending order and two facts
shared by the sorts: a sorted permutation is unique, and three blocks around
a pivot concatenate to a sorted sequence.

Elements are `int`. `bubbleSort` and `binarySearch` are imperative in the
source, so each is a method with loop invariants (`BubbleSort` on an
`array<int>`, `BinarySearch` over `left` and `right`). Each method is also
proved equal to a function that follows the same loop one step at a time
(`BubbleSorted`, `Search`), and the properties are proved about those
functions. `quickSort` is a pure recursive function. The handler is the pure
function `Dispatch`, from a typed request to a success body or an error.
`RunAlgorithm` runs the handler as the source does: it copies the input into
a fresh array for bubble sort, then runs the two methods, and it is proved to
answer exactly what `Dispatch` answers.

The request is a datatype. `algorithmId` is an optional integer. `input` is
optional and is either a plain array of numbers or an object
`{array, target}`. An absent or `null` field is `None`. The id `0` is falsy
in JavaScript, so it counts as missing. Any array or object given as `input`
is truthy, the empty array included, so it passes validation. Two mismatches
make the selected algorithm throw `TypeError`, which Express's error
middleware turns into a 500:

- a `{array, target}` object under id 1 or 2, because spreading a plain
  object throws;
- a plain array under id 3, because destructuring it gives
  `array === undefined` and `binarySearch` then reads `undefined.length`.

The model answers both with `InternalFault`. So there are three kinds of
error. The handler itself answers the missing-field and unknown-id errors
with status 400 (server.js:81-83, 106). A wrong input shape gets a 500 from
the error middleware (server.js:159-165).

## Model

| member | source | states |
|---|---|---|
| `BubbleSorting.CompareSwap` | server.js:125-127 | after one step at `j` the pair at `j`, `j+1` is in order; it is either unchanged or swapped, so it swaps only when `arr[j] > arr[j+1]`; no other index changes |
| `BubbleSorting.CompareSwapPermutes` | server.js:125-127 | one compare-and-swap step keeps the multiset of elements |
| `BubbleSorting.InnerPass` | server.js:124-128 | the inner loop from index `j` to its bound, as a function; its contract states only that the length is kept, and `InnerPassPermutes`, `InnerPassBubblesUp` and `InnerPassKeepsSplit` state what it does |
| `BubbleSorting.Passes` | server.js:123-129 | the outer loop from round `i` on, as a function; its contract states only that the length is kept, and `PassesSort` states that it yields a sorted permutation |
| `BubbleSorting.BubbleSorted` | server.js:121-131 | what `bubbleSort` leaves in its array: all `n - 1` rounds from round 0; its contract states only that the length is kept, and `BubbleSortedCorrect` and `BubbleSortKeepsSorted` state its properties |
| `BubbleSorting.InnerPassPermutes` | server.js:124-128 | the inner loop permutes the array and leaves every index beyond its bound unchanged |
| `BubbleSorting.InnerPassBubblesUp` | server.js:124-128 | the inner loop leaves the largest element of `arr[0..bound]` at index `bound` |
| `BubbleSorting.InnerPassKeepsSplit` | server.js:124-128 | if no element up to `bound` exceeds any element after it, that still holds after the inner loop |
| `BubbleSorting.PassesSort` | server.js:123-129 | outer-loop invariant: once the last `i` elements are sorted and no earlier element exceeds them, the remaining rounds yield a sorted permutation |
| `BubbleSorting.BubbleSortedCorrect` | server.js:121-131 | `bubbleSort` returns an array of the same length, non-descending, with the same multiset of elements |
| `BubbleSorting.BubbleSortKeepsSorted` | server.js:121-131 | bubble-sorting an already sorted array leaves it unchanged, element for element |
| `BubbleSorting.BubbleSort` | server.js:121-131 | the in-place loops leave the array equal to the step-by-step model of the same loops, sorted and a permutation of its old contents |
| `QuickSorting.Filter` | server.js:137-139 | an element occurs in the result exactly when it occurs in the input and passes the test, and the result is no longer than the input; occurrence counts are stated by `FilterKeepsOccurrences` |
| `QuickSorting.FilterKeepsOccurrences` | server.js:137-139 | `filter` keeps every occurrence of a passing element and drops every occurrence of a failing one, so each element's count is its input count or 0 |
| `QuickSorting.Partition` | server.js:136-141 | the `<`, `===` and `>` filters put every element in exactly one group: their multisets add up to the input's, and their lengths add up to its length |
| `QuickSorting.OuterGroupsShrink` | server.js:136-141 | the pivot falls in the middle group, so the left and right groups are strictly shorter than the input and the recursion is well-founded |
| `QuickSorting.QuickSort` | server.js:133-142 | `quickSort` with the middle-index pivot and the three filters; its contract states that the length is kept, and `QuickSortPermutes`, `QuickSortSorts` and `QuickSortKeepsSorted` state its properties |
| `QuickSorting.QuickSortPermutes` | server.js:133-142 | `quickSort` returns a permutation of its input |
| `QuickSorting.QuickSortSorts` | server.js:133-142 | `quickSort` returns a non-descending array |
| `QuickSorting.QuickSortKeepsSorted` | server.js:133-142 | `quickSort` returns a sorted input unchanged, including every input of length at most 1 |
| `BinarySearching.SearchFrom` | server.js:148-153 | the loop from window `[left, right]` on, as a function; its contract states that the result is -1 or inside the window, and `SearchFromFinds` and `SearchFromMissesOnlyAbsent` state the rest |
| `BinarySearching.Search` | server.js:144-156 | `binarySearch` from the whole array; its contract states that the result is -1 or an index of the array, and `SearchCorrect` states the rest |
| `BinarySearching.SearchFromFinds` | server.js:148-153 | whatever the order of the array, the loop from window `[left, right]` returns -1 or an index inside that window holding the target |
| `BinarySearching.SearchFromMissesOnlyAbsent` | server.js:148-153 | on a sorted array, a -1 from window `[left, right]` means no index of the window holds the target: each probe discards only a side where the target cannot be |
| `BinarySearching.SearchCorrect` | server.js:144-156 | `binarySearch` returns -1 or an index `i` with `0 <= i < arr.length` and `arr[i] === target`; on a sorted array it returns -1 exactly when the target does not occur |
| `BinarySearching.ProbeNarrows` | server.js:149-152 | on a sorted array, a probe that is too small rules out everything up to it, and one that is too large rules out everything from it on |
| `BinarySearching.BinarySearch` | server.js:144-156 | the loop keeps `0 <= left <= right + 1 <= arr.length` with every probe inside the window; on a sorted array the target never occurs outside the window; the method returns what the step-by-step model returns: -1 or an index holding the target, and on a sorted array -1 exactly when the target is absent |
| `Service.Dispatch` | server.js:78-107 | missing-fields error exactly when a field is absent or falsy; invalid-id error exactly for a present id outside 1 to 4; 500 exactly for a wrong input shape; a success echoes the id and the input; id 4 always answers the fixed stub |
| `Service.MissingField` | server.js:80 | predicate for `!algorithmId \|\| !input`: a field is absent or null, or the id is 0; no contract of its own, the first `ensures` of `Dispatch` ties it to the missing-fields error |
| `Service.WrongShape` | server.js:93-100 | predicate for the inputs the selected algorithm cannot take apart; no contract of its own, the third `ensures` of `Dispatch` ties it to the 500 answer |
| `Service.Status` | server.js:81-83 | status of each error body: 400 for the handler's own rejections (also server.js:106), 500 from the error middleware (server.js:161); no contract of its own, stated by `RejectionStatus` |
| `Service.ErrorText` | server.js:81-83 | `error` text of each error body, including "Invalid algorithm ID" (server.js:106) and the middleware's text (server.js:162); no contract of its own, stated by `RejectionStatus` |
| `Service.RejectionStatus` | server.js:80-107 | a rejected request gets 400 exactly when a field is missing or the id is unknown, 500 exactly when the input has the wrong shape, and the "Invalid algorithm ID" text exactly for an unknown id |
| `Service.DispatchSorts` | server.js:92-97 | ids 1 and 2 answer with a sorted permutation of the input and echo the input unsorted, because the sort ran on a copy |
| `Service.DispatchSortsTo` | server.js:92-97 | ids 1 and 2 answer with the one sorted permutation of the input |
| `Service.SortsAgree` | server.js:121-142 | `bubbleSort` and `quickSort` return the same array for every input |
| `Service.SortsYield` | server.js:121-142 | both sorts return any given sorted array with the same multiset as the input |
| `Service.DispatchSearches` | server.js:98-101 | id 3 answers with -1 or an index holding the target; on a sorted array, -1 exactly when the target is absent |
| `Service.RunAlgorithm` | server.js:77-118 | running the handler with the in-place bubble sort on a fresh copy and the search loop answers exactly what `Dispatch` answers |
| `Service.SampleSorts` | server.js:91-97 | ids 1 and 2 turn `[5,3,1,4,2]` into `[1,2,3,4,5]` |
| `Service.SampleSearches` | server.js:98-101 | id 3 finds target 4 in `[1,2,3,4,5]` at index 3 and answers -1 for target 9 |
| `Service.SampleFailures` | server.js:80-106 | id 99 is rejected as invalid whatever the input; a body with neither field is rejected as missing fields |
| `Service.ListAlgorithms` | server.js:39-74 | `/api/algorithms` lists four entries, `count` equals their number, and every listed id is one the `switch` handles |
| `Service.ListedIffDispatched` | server.js:40-107 | a nonzero id is in the list exactly when the handler does not reject it as an invalid id |

## Left out

- The Express app, its middleware (helmet, cors, morgan, body parsing), route registration, `dotenv`, `PORT` and `app.listen` are left out. They are framework and I/O plumbing.
- `/health` and `/api/test` are left out. They return constant bodies with a wall-clock timestamp.
- The 404 handler is left out. The 500 body is modelled only as the `InternalFault` outcome and the status and error text it carries. Its `message` field depends on `NODE_ENV`, which is environment input.
- `executionTime` and `timestamp` are left out of the success body. They are clock reads with no specifiable value.
- JavaScript values outside the typed request are left out: floating-point and NaN elements, string ids, which the strict `switch` rejects, and a missing `target`. Elements and ids are `int`, and the request is a datatype rather than arbitrary JSON.
- Aliasing is not modelled. The payload is a value, so the source's reason for copying the input before sorting (`[...input]`) cannot arise in `Dispatch`. `RunAlgorithm` still makes the copy, and it has no `modifies` clause, so it cannot change the request.
- BubbleSort: returns nothing, whereas `bubbleSort` returns the array reference it was given. That reference is the caller's own array, which the method's postconditions describe.
- Running time is not modelled, including quicksort's quadratic worst case with a middle-index pivot.
