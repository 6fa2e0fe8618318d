/** The list of strings with its lazily maintained order (stringlist.c). */
module StringLists {
  import opened CStrings
  import opened Sorting

  function Itself(s: CString): string { s }

  function Sorted(s: seq<CString>): seq<CString> {
    SortBy(s, Itself)
  }

  predicate Ascending(s: seq<CString>) {
    AscendingBy(s, Itself)
  }

  /** The value of a list: its strings in their current order, and the `sorted` flag. */
  datatype ListState = ListState(strings: seq<CString>, sorted: bool) {
    predicate Valid() {
      sorted ==> Ascending(strings)
    }
    function Insert(s: CString): ListState {
      ListState(strings + [s], false)
    }
    function Sort(): ListState {
      if strings == [] then this else ListState(Sorted(strings), true)
    }
    /** What a membership test does to the list: it sorts a list that needs it. */
    function AfterContains(): ListState {
      if strings == [] || sorted then this else Sort()
    }
  }

  /** `struct stringlist_t` */
  class StringList {
    var strings: seq<CString>
    var sorted: bool

    function State(): ListState
      reads this
    {
      ListState(strings, sorted)
    }

    constructor ()
      ensures State() == ListState([], true)
    {
      strings, sorted := [], true;
    }

    method Insert(s: CString)
      modifies this
      ensures State() == old(State()).Insert(s)
    {
      strings := strings + [s];
      sorted := false;
    }

    method Sort()
      modifies this
      ensures State() == old(State()).Sort()
    {
      if |strings| > 0 {
        strings := SortBy(strings, Itself);
        sorted := true;
      }
    }

    /** Sorts first if need be, then searches by bisection. */
    method Contains(s: CString) returns (found: bool)
      requires State().Valid()
      modifies this
      ensures State() == old(State()).AfterContains()
      ensures found <==> s in old(strings)
    {
      if |strings| == 0 {
        return false;
      }
      SortByCorrect(strings, Itself);
      SameElements(Sorted(strings), strings);
      if !sorted {
        Sort();
      }
      found := Bisect(strings, s);
    }
  }

  /** `bsearch` on strings in `strcmp` order. */
  method Bisect(strings: seq<CString>, s: CString) returns (found: bool)
    requires Ascending(strings)
    ensures found <==> s in strings
  {
    var low, high := 0, |strings|;
    while low < high
      invariant 0 <= low <= high <= |strings|
      invariant forall k | 0 <= k < low :: strings[k] != s
      invariant forall k | high <= k < |strings| :: strings[k] != s
    {
      var mid := (low + high) / 2;
      var order := StrCmp(s, strings[mid]);
      BisectionStep(strings, s, mid);
      if order == 0 {
        return true;
      } else if order < 0 {
        high := mid;
      } else {
        low := mid + 1;
      }
    }
    return false;
  }

  lemma BisectionStep(strings: seq<CString>, s: CString, mid: nat)
    requires Ascending(strings) && mid < |strings|
    ensures StrCmp(s, strings[mid]) == 0 ==> s in strings
    ensures StrCmp(s, strings[mid]) < 0 ==> forall k | mid <= k < |strings| :: strings[k] != s
    ensures StrCmp(s, strings[mid]) > 0 ==> forall k | 0 <= k <= mid :: strings[k] != s
  {
    StrCmpAntisymmetric(s, strings[mid]);
    forall k | 0 <= k < |strings| && k != mid
      ensures k < mid ==> StrCmp(Itself(strings[k]), Itself(strings[mid])) <= 0
      ensures mid < k ==> StrCmp(Itself(strings[mid]), Itself(strings[k])) <= 0
    {
    }
    forall k | 0 <= k < |strings| && strings[k] == s
      ensures k < mid ==> StrCmp(s, strings[mid]) <= 0
      ensures mid < k ==> StrCmp(s, strings[mid]) >= 0
    {
    }
  }

  //
  // Whole runs
  //

  datatype ListOp = Insert(s: CString) | Sort | Contains(s: CString)

  function Perform(list: ListState, op: ListOp): ListState {
    match op
    case Insert(s) => list.Insert(s)
    case Sort => list.Sort()
    case Contains(_) => list.AfterContains()
  }

  function PerformAll(list: ListState, ops: seq<ListOp>): ListState {
    if ops == [] then list else Perform(PerformAll(list, ops[..|ops| - 1]), ops[|ops| - 1])
  }

  function Inserted(ops: seq<ListOp>): seq<CString> {
    if ops == [] then []
    else
      var before, op := Inserted(ops[..|ops| - 1]), ops[|ops| - 1];
      if op.Insert? then before + [op.s] else before
  }

  /**
   However insertions, sorts and membership tests interleave, the list holds exactly
   the strings inserted, and a raised `sorted` flag means `strcmp` order.
   */
  lemma {:induction false} RunKeepsContents(ops: seq<ListOp>)
    ensures var list := PerformAll(ListState([], true), ops);
            list.Valid() && multiset(list.strings) == multiset(Inserted(ops))
  {
    if ops != [] {
      RunKeepsContents(ops[..|ops| - 1]);
      var before := PerformAll(ListState([], true), ops[..|ops| - 1]);
      SortByCorrect(before.strings, Itself);
    }
  }

  /** Hence a membership test after any run answers whether the string was inserted. */
  lemma ContainsAnswersInserted(ops: seq<ListOp>, s: CString)
    ensures s in PerformAll(ListState([], true), ops).strings <==> Insert(s) in ops
  {
    RunKeepsContents(ops);
    SameElements(PerformAll(ListState([], true), ops).strings, Inserted(ops));
    InsertedIsInserts(ops, s);
  }

  lemma {:induction false} InsertedIsInserts(ops: seq<ListOp>, s: CString)
    ensures s in Inserted(ops) <==> Insert(s) in ops
  {
    if ops != [] {
      InsertedIsInserts(ops[..|ops| - 1], s);
      assert ops == ops[..|ops| - 1] + [ops[|ops| - 1]];
    }
  }

  /** A list that is already in order is not disturbed by sorting it once more. */
  lemma SortingSortedChangesNothing(list: ListState)
    requires list.Valid() && list.sorted
    ensures list.Sort() == list && list.AfterContains() == list
  {
    if list.strings != [] {
      SortUnchanged(list.strings, Itself);
    }
  }
}
