/** f3l3.ts: sorting and deduplicating rows, the first/last-three problem
    choice, and tagging each chosen row 'first' or 'last'. */
module F3L3 {
  import opened Seqs
  import opened Rows
  import opened ProblemChoice

  /** `${row['Anon Student Id']}_${row['Problem Name']}` */
  function DedupKey(r: Row): string
  {
    r.studentId + "_" + r.problemName
  }

  function KeysOf(rows: seq<Row>): (r: seq<string>)
    ensures |r| == |rows| && forall i :: 0 <= i < |rows| ==> r[i] == DedupKey(rows[i])
  {
    if rows == [] then [] else KeysOf(rows[..|rows| - 1]) + [DedupKey(rows[|rows| - 1])]
  }

  /** lodash `uniqBy`: a row is kept when no kept row has its key yet. */
  function UniqBy(rows: seq<Row>): seq<Row>
  {
    if rows == [] then []
    else
      var kept, last := UniqBy(rows[..|rows| - 1]), rows[|rows| - 1];
      if DedupKey(last) in KeysOf(kept) then kept else kept + [last]
  }

  /** Row `j` is the first with its key. */
  predicate FirstOfKey(rows: seq<Row>, j: nat)
    requires j < |rows|
  {
    forall m :: 0 <= m < j ==> DedupKey(rows[m]) != DedupKey(rows[j])
  }

  /** The first row of each key, in order: the reference for `UniqBy`. */
  function FirstOccurrences(rows: seq<Row>): seq<Row>
  {
    if rows == [] then []
    else
      FirstOccurrences(rows[..|rows| - 1]) + if FirstOfKey(rows, |rows| - 1) then [rows[|rows| - 1]] else []
  }

  lemma KeysOfSnoc(rows: seq<Row>, r: Row)
    ensures KeysOf(rows + [r]) == KeysOf(rows) + [DedupKey(r)]
  {
    assert (rows + [r])[..|rows|] == rows;
  }

  /** `uniqBy` keeps every key of its input and no other. */
  lemma {:induction false} UniqByKeys(rows: seq<Row>)
    ensures forall k :: k in KeysOf(UniqBy(rows)) <==> k in KeysOf(rows)
  {
    if rows != [] {
      var init, last := rows[..|rows| - 1], rows[|rows| - 1];
      UniqByKeys(init);
      assert rows == init + [last];
      KeysOfSnoc(init, last);
      KeysOfSnoc(UniqBy(init), last);
    }
  }

  /** `uniqBy` keeps at most one row per key. */
  lemma {:induction false} UniqByDistinctKeys(rows: seq<Row>)
    ensures NoDuplicates(KeysOf(UniqBy(rows)))
  {
    if rows != [] {
      var init, last := rows[..|rows| - 1], rows[|rows| - 1];
      UniqByDistinctKeys(init);
      KeysOfSnoc(UniqBy(init), last);
    }
  }

  lemma FirstOfKeyLast(rows: seq<Row>)
    requires rows != []
    ensures FirstOfKey(rows, |rows| - 1) <==> DedupKey(rows[|rows| - 1]) !in KeysOf(rows[..|rows| - 1])
  {
    var init := rows[..|rows| - 1];
    if DedupKey(rows[|rows| - 1]) in KeysOf(init) {
      var m :| 0 <= m < |init| && KeysOf(init)[m] == DedupKey(rows[|rows| - 1]);
      assert DedupKey(rows[m]) == DedupKey(rows[|rows| - 1]);
    }
  }

  /** `uniqBy` keeps, in input order, the first row with each key. */
  lemma {:induction false} UniqByFirstOccurrences(rows: seq<Row>)
    ensures UniqBy(rows) == FirstOccurrences(rows)
  {
    if rows != [] {
      var init := rows[..|rows| - 1];
      UniqByFirstOccurrences(init);
      UniqByKeys(init);
      FirstOfKeyLast(rows);
    }
  }

  /** The first sort, then `uniqBy`: the array is sorted in place and the
      deduplicated rows are returned. */
  method SortAndDeduplicate(data: array<Row>, less: (string, string) -> bool) returns (r: seq<Row>)
    modifies data
    ensures data[..] == SortRows(less, ByStudentThenTime, old(data[..]))
    ensures multiset(data[..]) == multiset(old(data[..]))
    ensures StrictTotalOrder(less) ==> Sorted(less, ByStudentThenTime, data[..])
    ensures r == UniqBy(data[..])
  {
    SortInPlace(data, less, ByStudentThenTime);
    SortRowsPermutes(less, ByStudentThenTime, old(data[..]));
    if StrictTotalOrder(less) {
      SortRowsSorted(less, ByStudentThenTime, old(data[..]));
    }
    r := UniqBy(data[..]);
  }

  lemma {:induction false} NoEmptyProblemSeen(data: seq<Row>, s: string)
    ensures "" !in ProblemsSeen(data, s, true)
  {
    if data != [] {
      NoEmptyProblemSeen(data[..|data| - 1], s);
    }
  }

  /** getFirstAndLast3: rows missing a student id or a problem name are
      skipped; every other student gets the first three and last three of
      their distinct problems. */
  method GetFirstAndLast3(data: seq<Row>) returns (perStudentProblems: Choices)
    ensures "" !in perStudentProblems
    ensures forall s :: s in perStudentProblems <==> ProblemsSeen(data, s, true) != []
    ensures forall s :: s in perStudentProblems ==> perStudentProblems[s] == Choose(ProblemsSeen(data, s, true))
    ensures forall s :: s in perStudentProblems ==>
      "" !in perStudentProblems[s].first3 && "" !in perStudentProblems[s].last3
  {
    perStudentProblems := GroupRows(data, true);
    UnnamedStudentSkipped(data, true);
    forall s | s in perStudentProblems
      ensures "" !in perStudentProblems[s].first3 && "" !in perStudentProblems[s].last3
    {
      NoEmptyProblemSeen(data, s);
      ChooseFacts(ProblemsSeen(data, s, true));
    }
  }

  /** A row with its `'first or last'` field, as its tag. */
  type LabelledRow = Tagged<string>

  function Label(per: Choices, r: Row): LabelledRow
  {
    var isFirst := r.studentId in per && r.problemName in per[r.studentId].first3;
    var isLast := r.studentId in per && r.problemName in per[r.studentId].last3;
    Tagged(r, if isFirst then "first" else if isLast then "last" else "")
  }

  function LabelAll(per: Choices, rows: seq<Row>): (r: seq<LabelledRow>)
    ensures |r| == |rows| && forall i :: 0 <= i < |rows| ==> r[i] == Label(per, rows[i])
  {
    if rows == [] then [] else LabelAll(per, rows[..|rows| - 1]) + [Label(per, rows[|rows| - 1])]
  }

  /** The filter, then the map adding the label. */
  function FilterRowsByProblems(data: seq<Row>, perStudentProblems: Choices): seq<LabelledRow>
  {
    LabelAll(perStudentProblems, ChosenRows(data, perStudentProblems))
  }

  /** The rows kept are the chosen rows, in order; each is labelled 'first'
      exactly when its problem is among the student's first three, and
      'last' otherwise: the empty label is never given. */
  lemma FilterRowsByProblemsLabels(data: seq<Row>, perStudentProblems: Choices)
    ensures Untagged(FilterRowsByProblems(data, perStudentProblems)) == ChosenRows(data, perStudentProblems)
    ensures IsSubseq(Untagged(FilterRowsByProblems(data, perStudentProblems)), data)
    ensures forall x :: x in Untagged(FilterRowsByProblems(data, perStudentProblems)) <==>
      x in data && Chosen(perStudentProblems, x)
    ensures forall l :: l in FilterRowsByProblems(data, perStudentProblems) ==>
      && l.row.studentId in perStudentProblems
      && (l.tag == "first" <==> l.row.problemName in perStudentProblems[l.row.studentId].first3)
      && (l.tag == "last" <==> l.row.problemName !in perStudentProblems[l.row.studentId].first3)
  {
    var kept := ChosenRows(data, perStudentProblems);
    var labelled := FilterRowsByProblems(data, perStudentProblems);
    ChosenRowsKeep(data, perStudentProblems);
    assert Untagged(labelled) == kept;
    forall l | l in labelled
      ensures && l.row.studentId in perStudentProblems
              && (l.tag == "first" <==> l.row.problemName in perStudentProblems[l.row.studentId].first3)
              && (l.tag == "last" <==> l.row.problemName !in perStudentProblems[l.row.studentId].first3)
    {
      var i :| 0 <= i < |labelled| && labelled[i] == l;
      assert kept[i] in kept;
    }
  }

  /** combineFirstAndLast: the labelled chosen rows of the original data. */
  function CombineFirstAndLast(originalData: seq<Row>, perStudentProblems: Choices): (r: seq<LabelledRow>)
    ensures Untagged(r) == ChosenRows(originalData, perStudentProblems)
    ensures forall l :: l in r ==> l.tag == "first" || l.tag == "last"
  {
    FilterRowsByProblemsLabels(originalData, perStudentProblems);
    FilterRowsByProblems(originalData, perStudentProblems)
  }
}
