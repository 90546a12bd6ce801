/** One parsed CSV row, the orders the program sorts rows by, and the stable
    sort used for them. `String.localeCompare` is modelled as an arbitrary
    strict total order `less` on strings, passed in by the caller; parsed
    times are integers (milliseconds, as `Date.getTime` gives them). */
module Rows {

  /** The columns of a tutor log row (`CSVRow` in GraphvizProcessing.ts).
      A column that is absent from the file reads as the empty string. */
  datatype Row = Row(
    sessionId: string,
    time: int,
    stepName: string,
    outcome: string,
    progressStatus: string,
    problemName: string,
    studentId: string,
    autofilled: string)

  /** A row spread into a new object with one field added (`{...row, tag}`). */
  datatype Tagged<T> = Tagged(row: Row, tag: T)

  /** The rows under their added fields. */
  function Untagged<T>(ts: seq<Tagged<T>>): (r: seq<Row>)
    ensures |r| == |ts| && forall i :: 0 <= i < |ts| ==> r[i] == ts[i].row
  {
    if ts == [] then [] else Untagged(ts[..|ts| - 1]) + [ts[|ts| - 1].row]
  }

  /** What the program assumes of `localeCompare`: a strict total order. */
  ghost predicate StrictTotalOrder(less: (string, string) -> bool)
  {
    && (forall a :: !less(a, a))
    && (forall a, b, c :: less(a, b) && less(b, c) ==> less(a, c))
    && (forall a, b :: a != b ==> less(a, b) || less(b, a))
  }

  /** The three comparators of the program. */
  datatype Ordering =
    | BySessionThenTime            // sortBySessionIdAndTime
    | ByStudentThenTime            // sortByStudentIdAndTime, sortAndDeduplicate
    | ByStudentProblemThenTime     // loadAndSortData

  /** The comparator returns a negative number: `a` belongs before `b`. */
  predicate Before(less: (string, string) -> bool, order: Ordering, a: Row, b: Row)
  {
    match order
    case BySessionThenTime =>
      if a.sessionId == b.sessionId then a.time < b.time else less(a.sessionId, b.sessionId)
    case ByStudentThenTime =>
      if a.studentId == b.studentId then a.time < b.time else less(a.studentId, b.studentId)
    case ByStudentProblemThenTime =>
      if a.studentId == b.studentId then
        if a.problemName == b.problemName then a.time < b.time
        else less(a.problemName, b.problemName)
      else less(a.studentId, b.studentId)
  }

  /** No row is placed before an earlier one by the comparator. */
  ghost predicate Sorted(less: (string, string) -> bool, order: Ordering, s: seq<Row>)
  {
    forall i, j :: 0 <= i < j < |s| ==> !Before(less, order, s[j], s[i])
  }

  /** The facts about `Before` that sorting relies on. */
  lemma BeforeFacts(less: (string, string) -> bool, order: Ordering, x: Row, y: Row, z: Row)
    requires StrictTotalOrder(less)
    ensures Before(less, order, x, y) ==> !Before(less, order, y, x)
    ensures !Before(less, order, x, y) && !Before(less, order, y, z) ==> !Before(less, order, x, z)
  {
  }

  /** Inserts `x` into `s` after every element it does not belong before
      (stable insertion). */
  function Insert(less: (string, string) -> bool, order: Ordering, x: Row, s: seq<Row>): (r: seq<Row>)
    ensures |r| == |s| + 1
  {
    if s == [] || !Before(less, order, x, s[|s| - 1]) then s + [x]
    else
      assert s == s[..|s| - 1] + [s[|s| - 1]];
      Insert(less, order, x, s[..|s| - 1]) + [s[|s| - 1]]
  }

  /** Stable sort of `s` by the comparator: insert each row in turn into the
      sorted prefix, as the program's `Array.sort` calls order them. */
  function SortRows(less: (string, string) -> bool, order: Ordering, s: seq<Row>): (r: seq<Row>)
    ensures |r| == |s|
  {
    if s == [] then []
    else Insert(less, order, s[|s| - 1], SortRows(less, order, s[..|s| - 1]))
  }

  /** Insertion adds exactly one occurrence of `x`. */
  lemma {:induction false} InsertPermutes(less: (string, string) -> bool, order: Ordering, x: Row, s: seq<Row>)
    ensures multiset(Insert(less, order, x, s)) == multiset(s) + multiset{x}
  {
    if s != [] && Before(less, order, x, s[|s| - 1]) {
      var init, last := s[..|s| - 1], s[|s| - 1];
      InsertPermutes(less, order, x, init);
      assert s == init + [last];
      assert multiset(s) == multiset(init) + multiset{last};
    }
  }

  /** The sort only reorders its input. */
  lemma {:induction false} SortRowsPermutes(less: (string, string) -> bool, order: Ordering, s: seq<Row>)
    ensures multiset(SortRows(less, order, s)) == multiset(s)
  {
    if s != [] {
      var init, last := s[..|s| - 1], s[|s| - 1];
      SortRowsPermutes(less, order, init);
      InsertPermutes(less, order, last, SortRows(less, order, init));
      assert s == init + [last];
      assert multiset(s) == multiset(init) + multiset{last};
    }
  }

  lemma SortRowsSnoc(less: (string, string) -> bool, order: Ordering, s: seq<Row>, x: Row)
    ensures SortRows(less, order, s + [x]) == Insert(less, order, x, SortRows(less, order, s))
  {
    assert (s + [x])[..|s|] == s;
  }

  /** Where the insertion lands: after the last element `x` does not belong before. */
  lemma {:induction false} InsertAt(less: (string, string) -> bool, order: Ordering, x: Row, s: seq<Row>, j: nat)
    requires j <= |s|
    requires forall m :: j <= m < |s| ==> Before(less, order, x, s[m])
    requires j == 0 || !Before(less, order, x, s[j - 1])
    ensures Insert(less, order, x, s) == s[..j] + [x] + s[j..]
    decreases |s|
  {
    if j < |s| {
      var init, last := s[..|s| - 1], s[|s| - 1];
      assert Before(less, order, x, last);
      assert Insert(less, order, x, s) == Insert(less, order, x, init) + [last];
      assert forall m :: j <= m < |init| ==> init[m] == s[m];
      assert j > 0 ==> init[j - 1] == s[j - 1];
      InsertAt(less, order, x, init, j);
      assert init[..j] == s[..j];
      assert init[j..] + [last] == s[j..];
    } else if s != [] {
      assert !Before(less, order, x, s[|s| - 1]);
      assert s[..j] == s && s[j..] == [];
    }
  }

  /** Insertion keeps a sorted sequence sorted. */
  lemma {:induction false} InsertSorted(less: (string, string) -> bool, order: Ordering, x: Row, s: seq<Row>)
    requires StrictTotalOrder(less)
    requires Sorted(less, order, s)
    ensures Sorted(less, order, Insert(less, order, x, s))
    decreases |s|
  {
    if s == [] || !Before(less, order, x, s[|s| - 1]) {
      forall i | 0 <= i < |s|
        ensures !Before(less, order, x, s[i])
      {
        BeforeFacts(less, order, x, s[|s| - 1], s[i]);
      }
    } else {
      var init := s[..|s| - 1];
      var last := s[|s| - 1];
      InsertSorted(less, order, x, init);
      var r := Insert(less, order, x, init);
      InsertPermutes(less, order, x, init);
      forall i | 0 <= i < |r|
        ensures !Before(less, order, last, r[i])
      {
        assert r[i] in multiset(r);
        if r[i] == x {
          BeforeFacts(less, order, x, last, last);
        } else {
          assert r[i] in init;
        }
      }
      assert Insert(less, order, x, s) == r + [last];
    }
  }

  /** The sort yields a sorted permutation of its input. */
  lemma {:induction false} SortRowsSorted(less: (string, string) -> bool, order: Ordering, s: seq<Row>)
    requires StrictTotalOrder(less)
    ensures Sorted(less, order, SortRows(less, order, s)) && multiset(SortRows(less, order, s)) == multiset(s)
  {
    SortRowsPermutes(less, order, s);
    if s != [] {
      SortRowsSorted(less, order, s[..|s| - 1]);
      InsertSorted(less, order, s[|s| - 1], SortRows(less, order, s[..|s| - 1]));
    }
  }

  /** Moves `a[i]` left past the elements of the (sorted) prefix it belongs
      before: one step of the in-place insertion sort. */
  method InsertIntoPrefix(a: array<Row>, i: nat, less: (string, string) -> bool, order: Ordering)
    requires i < a.Length
    modifies a
    ensures a[..i + 1] == Insert(less, order, old(a[i]), old(a[..i]))
    ensures a[i + 1..] == old(a[i + 1..])
  {
    ghost var prefix := a[..i];
    var x := a[i];
    var j := i;
    while j > 0 && Before(less, order, x, a[j - 1])
      invariant 0 <= j <= i
      invariant forall k :: 0 <= k < j ==> a[k] == prefix[k]
      invariant forall k :: j < k <= i ==> a[k] == prefix[k - 1]
      invariant a[i + 1..] == old(a[i + 1..])
      invariant forall m :: j <= m < i ==> Before(less, order, x, prefix[m])
    {
      a[j] := a[j - 1];
      j := j - 1;
    }
    assert j > 0 ==> !Before(less, order, x, prefix[j - 1]);
    a[j] := x;
    InsertLands(less, order, x, prefix, j, a[..i + 1]);
  }

  /** The array prefix left by the shifting loop is the insertion. */
  lemma InsertLands(less: (string, string) -> bool, order: Ordering, x: Row, prefix: seq<Row>, j: nat, w: seq<Row>)
    requires j <= |prefix| && |w| == |prefix| + 1
    requires forall k :: 0 <= k < j ==> w[k] == prefix[k]
    requires w[j] == x
    requires forall k :: j < k < |w| ==> w[k] == prefix[k - 1]
    requires forall m :: j <= m < |prefix| ==> Before(less, order, x, prefix[m])
    requires j == 0 || !Before(less, order, x, prefix[j - 1])
    ensures w == Insert(less, order, x, prefix)
  {
    InsertAt(less, order, x, prefix, j);
    assert w == prefix[..j] + [x] + prefix[j..];
  }

  /** JavaScript `Array.prototype.sort` on an array of rows: an in-place
      insertion sort whose result is exactly `SortRows` of the old contents. */
  method SortInPlace(a: array<Row>, less: (string, string) -> bool, order: Ordering)
    modifies a
    ensures a[..] == SortRows(less, order, old(a[..]))
  {
    ghost var input := a[..];
    for i := 0 to a.Length
      invariant a[..i] == SortRows(less, order, input[..i])
      invariant a[i..] == input[i..]
    {
      ghost var before := a[..];
      assert a[i] == input[i];
      assert before[i + 1..] == input[i + 1..] by {
        assert before[i..] == input[i..];
      }
      InsertIntoPrefix(a, i, less, order);
      assert a[i + 1..] == input[i + 1..];
      assert input[..i + 1] == input[..i] + [input[i]];
      SortRowsSnoc(less, order, input[..i], input[i]);
    }
    assert a[..] == a[..a.Length] && input == input[..a.Length];
  }
}
