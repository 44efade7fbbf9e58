/** The `/api/run-algorithm` handler of server.js with the HTTP layer taken
    off, and the fixed list that `/api/algorithms` serves. A request body is
    a typed value; the handler's answer is a success body or one of the
    error bodies the service can send. */
module Service {
  import opened Ordering
  import BubbleSorting
  import QuickSorting
  import BinarySearching

  datatype Option<T> = None | Some(value: T)

  /** The `input` field of a request: a plain array of numbers (what ids 1
      and 2 expect) or an object `{array, target}` (what id 3 expects),
      whose `array` is `items` here. */
  datatype Payload = Numbers(xs: seq<int>) | SearchQuery(items: seq<int>, target: int)

  /** A request body; a field that is absent or `null` is `None`. */
  datatype Request = Request(algorithmId: Option<int>, input: Option<Payload>)

  /** The `result` field of a success body. */
  datatype Outcome =
    | SortedArray(values: seq<int>)
    | Index(index: int)
    | PathStub(message: string, path: string)

  /** A success body, without `executionTime` and `timestamp`. */
  datatype Execution = Execution(algorithmId: int, input: Payload, result: Outcome)

  /** The error bodies: a missing field and an unknown id are answered with
      400 by the handler itself; an input of the wrong shape makes the
      algorithm throw, and the error middleware answers 500. */
  datatype Failure = MissingFields | InvalidAlgorithmId | InternalFault

  datatype Response = Ok(execution: Execution) | Err(failure: Failure)

  function Status(f: Failure): int {
    match f
    case MissingFields => 400
    case InvalidAlgorithmId => 400
    case InternalFault => 500
  }

  function ErrorText(f: Failure): string {
    match f
    case MissingFields => "Missing required fields: algorithmId and input"
    case InvalidAlgorithmId => "Invalid algorithm ID"
    case InternalFault => "Something went wrong!"
  }

  const StubMessage: string := "Dijkstra's algorithm simulation"
  const StubPath: string := "A->B->C"

  /** `!algorithmId || !input`: a field is absent or null, or the id is the
      falsy number 0. Any array or object given as `input` is truthy, the
      empty array included. */
  predicate MissingField(req: Request) {
    req.algorithmId == None || req.algorithmId == Some(0) || req.input == None
  }

  /** The ids the `switch` knows. */
  predicate KnownId(id: int) {
    1 <= id <= 4
  }

  /** An input the selected algorithm cannot take apart: spreading the
      `{array, target}` object for a sort, or reading `array.length` of the
      `undefined` that destructuring a plain array yields for a search. */
  predicate WrongShape(id: int, input: Payload) {
    ((id == 1 || id == 2) && input.SearchQuery?) || (id == 3 && input.Numbers?)
  }

  /** The handler: validate, switch on the id, run the algorithm, and echo
      the id and the input beside the result. */
  function Dispatch(req: Request): (resp: Response)
    ensures resp == Err(MissingFields) <==> MissingField(req)
    ensures resp == Err(InvalidAlgorithmId) <==> !MissingField(req) && !KnownId(req.algorithmId.value)
    ensures resp == Err(InternalFault) <==>
              !MissingField(req) && WrongShape(req.algorithmId.value, req.input.value)
    ensures resp.Ok? ==>
              req.algorithmId == Some(resp.execution.algorithmId) && req.input == Some(resp.execution.input)
    ensures req.algorithmId == Some(4) && req.input.Some? ==>
              resp.Ok? && resp.execution.result == PathStub(StubMessage, StubPath)
  {
    if MissingField(req) then Err(MissingFields)
    else
      var id, input := req.algorithmId.value, req.input.value;
      if id == 1 then
        if input.Numbers? then Ok(Execution(id, input, SortedArray(BubbleSorting.BubbleSorted(input.xs))))
        else Err(InternalFault)
      else if id == 2 then
        if input.Numbers? then Ok(Execution(id, input, SortedArray(QuickSorting.QuickSort(input.xs))))
        else Err(InternalFault)
      else if id == 3 then
        if input.SearchQuery? then Ok(Execution(id, input, Index(BinarySearching.Search(input.items, input.target))))
        else Err(InternalFault)
      else if id == 4 then Ok(Execution(id, input, PathStub(StubMessage, StubPath)))
      else Err(InvalidAlgorithmId)
  }

  /** The status of a rejection: 400 for the two errors the handler sends
      itself, 500 only when the selected algorithm throws. */
  lemma RejectionStatus(req: Request)
    requires Dispatch(req).Err?
    ensures Status(Dispatch(req).failure) == 400 <==> MissingField(req) || !KnownId(req.algorithmId.value)
    ensures Status(Dispatch(req).failure) == 500 <==>
              !MissingField(req) && WrongShape(req.algorithmId.value, req.input.value)
    ensures ErrorText(Dispatch(req).failure) == "Invalid algorithm ID" <==>
              !MissingField(req) && !KnownId(req.algorithmId.value)
  {
  }

  /** Ids 1 and 2 answer with a sorted permutation of the input and echo
      the input as it was sent, unsorted: the sorts work on a copy. */
  lemma DispatchSorts(id: int, xs: seq<int>)
    requires id == 1 || id == 2
    ensures var resp := Dispatch(Request(Some(id), Some(Numbers(xs))));
            resp.Ok? && resp.execution.input == Numbers(xs) && resp.execution.result.SortedArray?
            && Sorted(resp.execution.result.values)
            && multiset(resp.execution.result.values) == multiset(xs)
  {
    if id == 1 {
      BubbleSorting.BubbleSortedCorrect(xs);
    } else {
      QuickSorting.QuickSortSorts(xs);
      QuickSorting.QuickSortPermutes(xs);
    }
  }

  /** Ids 1 and 2 give the same answer for every array. */
  lemma SortsAgree(xs: seq<int>)
    ensures BubbleSorting.BubbleSorted(xs) == QuickSorting.QuickSort(xs)
  {
    BubbleSorting.BubbleSortedCorrect(xs);
    QuickSorting.QuickSortSorts(xs);
    QuickSorting.QuickSortPermutes(xs);
    SortedUnique(BubbleSorting.BubbleSorted(xs), QuickSorting.QuickSort(xs));
  }

  /** Both sorts return the one sorted permutation of their input. */
  lemma SortsYield(xs: seq<int>, ys: seq<int>)
    requires Sorted(ys) && multiset(xs) == multiset(ys)
    ensures BubbleSorting.BubbleSorted(xs) == ys && QuickSorting.QuickSort(xs) == ys
  {
    BubbleSorting.BubbleSortedCorrect(xs);
    SortedUnique(BubbleSorting.BubbleSorted(xs), ys);
    SortsAgree(xs);
  }

  /** Ids 1 and 2 answer with the one sorted permutation of the input. */
  lemma DispatchSortsTo(id: int, xs: seq<int>, ys: seq<int>)
    requires id == 1 || id == 2
    requires Sorted(ys) && multiset(xs) == multiset(ys)
    ensures Dispatch(Request(Some(id), Some(Numbers(xs)))) == Ok(Execution(id, Numbers(xs), SortedArray(ys)))
  {
    SortsYield(xs, ys);
  }

  /** Id 3 answers with -1 or an index holding the target; on a sorted
      array, with -1 exactly when the target does not occur. */
  lemma DispatchSearches(items: seq<int>, target: int)
    ensures var resp := Dispatch(Request(Some(3), Some(SearchQuery(items, target))));
            resp.Ok? && resp.execution.result.Index?
            && var i := resp.execution.result.index;
               (i == -1 || (0 <= i < |items| && items[i] == target))
               && (Sorted(items) ==> (i == -1 <==> target !in items))
  {
    BinarySearching.SearchCorrect(items, target);
  }

  /** The handler as the source runs it: ids 1 and 2 copy the input
      (`[...input]`) and sort the copy, id 1 in place; id 3 runs the search
      loop on the array it was given. */
  method RunAlgorithm(req: Request) returns (resp: Response)
    ensures resp == Dispatch(req)
  {
    if req.algorithmId == None || req.algorithmId == Some(0) || req.input == None {
      return Err(MissingFields);
    }
    var id, input := req.algorithmId.value, req.input.value;
    var result: Outcome;
    if id == 1 {
      if !input.Numbers? {
        return Err(InternalFault);
      }
      var xs := input.xs;
      var a := new int[|xs|](i requires 0 <= i < |xs| => xs[i]);
      assert a[..] == xs;
      BubbleSorting.BubbleSort(a);
      result := SortedArray(a[..]);
    } else if id == 2 {
      if !input.Numbers? {
        return Err(InternalFault);
      }
      result := SortedArray(QuickSorting.QuickSort(input.xs));
    } else if id == 3 {
      if !input.SearchQuery? {
        return Err(InternalFault);
      }
      var i := BinarySearching.BinarySearch(input.items, input.target);
      result := Index(i);
    } else if id == 4 {
      result := PathStub(StubMessage, StubPath);
    } else {
      return Err(InvalidAlgorithmId);
    }
    return Ok(Execution(id, input, result));
  }

  /** The documented sample sorts: both sort ids turn `[5, 3, 1, 4, 2]`
      into `[1, 2, 3, 4, 5]`. */
  lemma SampleSorts()
    ensures Dispatch(Request(Some(1), Some(Numbers([5, 3, 1, 4, 2]))))
            == Ok(Execution(1, Numbers([5, 3, 1, 4, 2]), SortedArray([1, 2, 3, 4, 5])))
    ensures Dispatch(Request(Some(2), Some(Numbers([5, 3, 1, 4, 2]))))
            == Ok(Execution(2, Numbers([5, 3, 1, 4, 2]), SortedArray([1, 2, 3, 4, 5])))
  {
    SampleAnswerSorted();
    SampleAnswerPermutes();
    DispatchSortsTo(1, [5, 3, 1, 4, 2], [1, 2, 3, 4, 5]);
    DispatchSortsTo(2, [5, 3, 1, 4, 2], [1, 2, 3, 4, 5]);
  }

  lemma SampleAnswerSorted()
    ensures Sorted([1, 2, 3, 4, 5])
  {
  }

  lemma SampleAnswerPermutes()
    ensures multiset([5, 3, 1, 4, 2]) == multiset([1, 2, 3, 4, 5])
  {
  }

  /** The documented sample searches in `[1, 2, 3, 4, 5]`: target 4 is
      found at index 3, target 9 gives -1. */
  lemma SampleSearches()
    ensures Dispatch(Request(Some(3), Some(SearchQuery([1, 2, 3, 4, 5], 4))))
            == Ok(Execution(3, SearchQuery([1, 2, 3, 4, 5], 4), Index(3)))
    ensures Dispatch(Request(Some(3), Some(SearchQuery([1, 2, 3, 4, 5], 9))))
            == Ok(Execution(3, SearchQuery([1, 2, 3, 4, 5], 9), Index(-1)))
  {
  }

  /** The documented sample failures: id 99 is unknown, and a body without
      either field is rejected before the id is looked at. */
  lemma SampleFailures(input: Payload)
    ensures Dispatch(Request(Some(99), Some(input))) == Err(InvalidAlgorithmId)
    ensures Dispatch(Request(None, None)) == Err(MissingFields)
  {
  }

  datatype Category = Sorting | Search | Graph
  datatype Difficulty = Easy | Medium | Hard

  /** An entry of the list `/api/algorithms` serves. */
  datatype Descriptor = Descriptor(id: int, name: string, description: string,
                                   category: Category, difficulty: Difficulty)

  datatype Listing = Listing(algorithms: seq<Descriptor>, count: int)

  const Algorithms: seq<Descriptor> := [
    Descriptor(1, "Bubble Sort", "Simple sorting algorithm with O(n²) time complexity", Sorting, Easy),
    Descriptor(2, "Quick Sort", "Efficient sorting algorithm with O(n log n) average time complexity", Sorting, Medium),
    Descriptor(3, "Binary Search", "Search algorithm for sorted arrays with O(log n) time complexity", Search, Easy),
    Descriptor(4, "Dijkstra's Algorithm", "Shortest path algorithm for weighted graphs", Graph, Hard)
  ]

  predicate Listed(id: int) {
    exists d :: d in Algorithms && d.id == id
  }

  /** The `/api/algorithms` body: the four entries and their count. */
  function ListAlgorithms(): (r: Listing)
    ensures r.count == |r.algorithms| == 4
    ensures forall d :: d in r.algorithms ==> KnownId(d.id)
  {
    Listing(Algorithms, |Algorithms|)
  }

  /** The list and the `switch` name the same algorithms: a nonzero id is
      listed exactly when the handler does not reject it as unknown. */
  lemma ListedIffDispatched(id: int, input: Payload)
    requires id != 0
    ensures Listed(id) <==> Dispatch(Request(Some(id), Some(input))) != Err(InvalidAlgorithmId)
  {
    if KnownId(id) {
      assert Algorithms[id - 1] in Algorithms && Algorithms[id - 1].id == id;
    }
  }
}
