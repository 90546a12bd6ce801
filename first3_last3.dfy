/** first3Last3.ts: the first/last-three problem selection with a boolean
    tag, and getting back every row of the chosen problems. */
module First3Last3 {
  import opened Seqs
  import opened Rows
  import opened Preprocess
  import opened ProblemChoice

  /** The object literal of transformDataWithF3L3: the seven named columns,
      a missing step name replaced; columns it does not name (the autofill
      flag) are dropped, and a dropped column reads as the empty string, as an
      absent one does throughout this model. */
  function Transformed(row: Row): Row
  {
    Row(row.sessionId, row.time, if row.stepName == "" then DoneButton else row.stepName,
        row.outcome, row.progressStatus, row.problemName, row.studentId, "")
  }

  /** One output row per input row, in order; only the step name (filled in
      when missing) and the dropped autofill column differ. */
  function TransformDataWithF3L3(parsedData: seq<Row>): (r: seq<Row>)
    ensures |r| == |parsedData|
    ensures forall i :: 0 <= i < |r| ==>
      && r[i].stepName != ""
      && (parsedData[i].stepName == "" ==> r[i].stepName == DoneButton)
      && (parsedData[i].stepName != "" ==> r[i].stepName == parsedData[i].stepName)
      && r[i].autofilled == ""
      && r[i].(stepName := parsedData[i].stepName, autofilled := parsedData[i].autofilled) == parsedData[i]
  {
    seq(|parsedData|, i requires 0 <= i < |parsedData| => Transformed(parsedData[i]))
  }

  /** `data.sort(...)` by session id, then time: sorts the array in place and
      returns it. */
  method SortBySessionIdAndTime(data: array<Row>, less: (string, string) -> bool) returns (sorted: array<Row>)
    modifies data
    ensures sorted == data
    ensures data[..] == SortRows(less, BySessionThenTime, old(data[..]))
    ensures multiset(data[..]) == multiset(old(data[..]))
    ensures StrictTotalOrder(less) ==> Sorted(less, BySessionThenTime, data[..])
  {
    SortInPlace(data, less, BySessionThenTime);
    SortRowsPermutes(less, BySessionThenTime, old(data[..]));
    if StrictTotalOrder(less) {
      SortRowsSorted(less, BySessionThenTime, old(data[..]));
    }
    sorted := data;
  }

  /** `data.sort(...)` by student id, then time. */
  method SortByStudentIdAndTime(data: array<Row>, less: (string, string) -> bool) returns (sorted: array<Row>)
    modifies data
    ensures sorted == data
    ensures data[..] == SortRows(less, ByStudentThenTime, old(data[..]))
    ensures multiset(data[..]) == multiset(old(data[..]))
    ensures StrictTotalOrder(less) ==> Sorted(less, ByStudentThenTime, data[..])
  {
    SortInPlace(data, less, ByStudentThenTime);
    SortRowsPermutes(less, ByStudentThenTime, old(data[..]));
    if StrictTotalOrder(less) {
      SortRowsSorted(less, ByStudentThenTime, old(data[..]));
    }
    sorted := data;
  }

  /** groupByStudentId: a record for each student id that occurs (never for
      a missing one), with the first three and last three of that student's
      distinct problems. A missing problem name counts as a name here. */
  method GroupByStudentId(data: seq<Row>) returns (perStudentProblems: Choices)
    ensures "" !in perStudentProblems
    ensures forall s :: s in perStudentProblems <==> ProblemsSeen(data, s, false) != []
    ensures forall s :: s in perStudentProblems ==> perStudentProblems[s] == Choose(ProblemsSeen(data, s, false))
  {
    perStudentProblems := GroupRows(data, false);
    UnnamedStudentSkipped(data, false);
  }

  /** A row with the `isInFirstOrLast3` flag added, as its tag. */
  type FlaggedRow = Tagged<bool>

  /** The map step: `isInFirstOrLast3` for a row (every row reaching it has
      a known student). */
  function Flag(per: Choices, r: Row): FlaggedRow
  {
    Tagged(r, r.studentId in per &&
              (r.problemName in per[r.studentId].first3 || r.problemName in per[r.studentId].last3))
  }

  function FlagAll(per: Choices, rows: seq<Row>): (r: seq<FlaggedRow>)
    ensures |r| == |rows| && forall i :: 0 <= i < |rows| ==> r[i] == Flag(per, rows[i])
  {
    if rows == [] then [] else FlagAll(per, rows[..|rows| - 1]) + [Flag(per, rows[|rows| - 1])]
  }

  predicate IsFlagged(f: FlaggedRow)
  {
    f.tag
  }

  /** The filter, the flagging map and the filter on the flag. */
  function FilterRowsByProblems(data: seq<Row>, perStudentProblems: Choices): (r: seq<FlaggedRow>)
    ensures forall f :: f in r ==> f.tag
  {
    Filter(IsFlagged, FlagAll(perStudentProblems, ChosenRows(data, perStudentProblems)))
  }

  /** Every row that passed the first filter is flagged, so the last filter
      keeps them all. */
  lemma FlagsHold(per: Choices, kept: seq<Row>)
    requires forall x :: x in kept ==> Chosen(per, x)
    ensures Filter(IsFlagged, FlagAll(per, kept)) == FlagAll(per, kept)
    ensures Untagged(FlagAll(per, kept)) == kept
  {
    var flagged := FlagAll(per, kept);
    forall i | 0 <= i < |flagged| ensures IsFlagged(flagged[i]) {
      assert kept[i] in kept;
    }
    FilterKeepsAll(IsFlagged, flagged);
  }

  /** The rows kept are the chosen rows (a known student, a problem among
      that student's first three or last three), in their original order. */
  lemma FilterRowsByProblemsKeeps(data: seq<Row>, perStudentProblems: Choices)
    ensures Untagged(FilterRowsByProblems(data, perStudentProblems)) == ChosenRows(data, perStudentProblems)
    ensures IsSubseq(Untagged(FilterRowsByProblems(data, perStudentProblems)), data)
    ensures forall x :: x in Untagged(FilterRowsByProblems(data, perStudentProblems)) <==>
      x in data && Chosen(perStudentProblems, x)
  {
    ChosenRowsKeep(data, perStudentProblems);
    FlagsHold(perStudentProblems, ChosenRows(data, perStudentProblems));
  }

  /** `originalData.filter(...)` for one filtered row, spread into the result. */
  function AllMatching(originalData: seq<Row>, filteredData: seq<Row>): seq<Row>
  {
    if filteredData == [] then []
    else
      var f := filteredData[|filteredData| - 1];
      AllMatching(originalData, filteredData[..|filteredData| - 1]) + RowsOf(originalData, f.studentId, f.problemName)
  }

  method GetAllMatchingRows(originalData: seq<Row>, filteredData: seq<Row>) returns (matchingRows: seq<Row>)
    ensures matchingRows == AllMatching(originalData, filteredData)
  {
    matchingRows := [];
    assert filteredData[..0] == [];
    for k := 0 to |filteredData|
      invariant matchingRows == AllMatching(originalData, filteredData[..k])
    {
      var filteredRow := filteredData[k];
      var rowsForProblem := RowsOf(originalData, filteredRow.studentId, filteredRow.problemName);
      matchingRows := matchingRows + rowsForProblem;
      assert filteredData[..k + 1][..k] == filteredData[..k];
    }
    assert filteredData[..|filteredData|] == filteredData;
  }

  /** The filtered rows of the same student and problem as `x`. */
  function SameProblem(filteredData: seq<Row>, x: Row): nat
  {
    if filteredData == [] then 0
    else
      var f := filteredData[|filteredData| - 1];
      SameProblem(filteredData[..|filteredData| - 1], x) +
        if f.studentId == x.studentId && f.problemName == x.problemName then 1 else 0
  }

  lemma {:induction false} RowsOfCount(rows: seq<Row>, s: string, p: string, x: Row)
    ensures multiset(RowsOf(rows, s, p))[x] == if x.studentId == s && x.problemName == p then multiset(rows)[x] else 0
  {
    if rows != [] {
      var init, last := rows[..|rows| - 1], rows[|rows| - 1];
      RowsOfCount(init, s, p, x);
      assert rows == init + [last];
      assert multiset(rows) == multiset(init) + multiset{last};
      var tail := if last.studentId == s && last.problemName == p then [last] else [];
      assert RowsOf(rows, s, p) == RowsOf(init, s, p) + tail;
      assert multiset(RowsOf(rows, s, p)) == multiset(RowsOf(init, s, p)) + multiset(tail);
    }
  }

  /** One more filtered row of the same problem adds the row's count once more. */
  lemma CountStep(m: nat, a: nat, here: nat, same: bool)
    requires here == if same then m else 0
    ensures m * a + here == m * (a + if same then 1 else 0)
  {
  }

  /** Each original row appears once for every filtered row of its student
      and problem: duplicates are kept. */
  lemma {:induction false} AllMatchingCount(originalData: seq<Row>, filteredData: seq<Row>, x: Row)
    ensures multiset(AllMatching(originalData, filteredData))[x] == multiset(originalData)[x] * SameProblem(filteredData, x)
  {
    if filteredData != [] {
      var init, f := filteredData[..|filteredData| - 1], filteredData[|filteredData| - 1];
      var m, a := multiset(originalData)[x], SameProblem(init, x);
      var same := f.studentId == x.studentId && f.problemName == x.problemName;
      var here := multiset(RowsOf(originalData, f.studentId, f.problemName))[x];
      assert here == if same then m else 0 by {
        RowsOfCount(originalData, f.studentId, f.problemName, x);
      }
      assert multiset(AllMatching(originalData, filteredData))[x] == m * a + here by {
        AllMatchingCount(originalData, init, x);
      }
      assert SameProblem(filteredData, x) == a + if same then 1 else 0;
      CountStep(m, a, here, same);
    }
  }
}
