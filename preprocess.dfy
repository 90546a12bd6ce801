/** Data loading and per-student sequences (GraphvizProcessing.ts, section 1).
    Parsing the CSV text is left to the caller: the model starts from the
    parsed rows. */
module Preprocess {
  import opened Seqs
  import opened Rows
  import opened Tables

  /** The step name substituted for a missing one. */
  const DoneButton := "DoneButton"

  /** The spellings of "true" that mark a row as autofilled. */
  predicate IsAutofilled(value: string)
  {
    value == "True" || value == "true" || value == "TRUE" || value == "1"
  }

  predicate NotAutofilled(r: Row)
  {
    !IsAutofilled(r.autofilled)
  }

  /** `row['Step Name'] || 'DoneButton'` */
  function WithStepName(r: Row): (c: Row)
    ensures c.stepName != ""
    ensures r.stepName == "" ==> c.stepName == DoneButton
    ensures r.stepName != "" ==> c == r
    ensures c.(stepName := r.stepName) == r
  {
    if r.stepName == "" then r.(stepName := DoneButton) else r
  }

  function Cleaned(rows: seq<Row>): (r: seq<Row>)
    ensures |r| == |rows|
    ensures forall i :: 0 <= i < |rows| ==> r[i] == WithStepName(rows[i])
  {
    if rows == [] then [] else Cleaned(rows[..|rows| - 1]) + [WithStepName(rows[|rows| - 1])]
  }

  /** loadAndSortData after parsing: drop autofilled rows, fill in missing
      step names, sort by student, then problem, then time. */
  function LoadAndSortData(less: (string, string) -> bool, parsed: seq<Row>): (r: seq<Row>)
    ensures |r| == |Filter(NotAutofilled, parsed)|
  {
    SortRows(less, ByStudentProblemThenTime, Cleaned(Filter(NotAutofilled, parsed)))
  }

  /** The loaded rows are the kept, cleaned rows, in sorted order; none is
      autofilled and none lacks a step name. */
  lemma LoadAndSortDataSorted(less: (string, string) -> bool, parsed: seq<Row>)
    requires StrictTotalOrder(less)
    ensures Sorted(less, ByStudentProblemThenTime, LoadAndSortData(less, parsed))
    ensures multiset(LoadAndSortData(less, parsed)) == multiset(Cleaned(Filter(NotAutofilled, parsed)))
    ensures forall x :: x in LoadAndSortData(less, parsed) ==> NotAutofilled(x) && x.stepName != ""
  {
    var kept := Filter(NotAutofilled, parsed);
    var cleaned := Cleaned(kept);
    SortRowsSorted(less, ByStudentProblemThenTime, cleaned);
    forall x | x in LoadAndSortData(less, parsed) ensures NotAutofilled(x) && x.stepName != "" {
      assert x in multiset(cleaned);
      var i :| 0 <= i < |cleaned| && cleaned[i] == x;
      assert kept[i] in kept;
    }
  }

  /** The rows of one (student, problem) pair, in row order. */
  function RowsOf(rows: seq<Row>, s: string, p: string): seq<Row>
  {
    if rows == [] then []
    else
      var last := rows[|rows| - 1];
      RowsOf(rows[..|rows| - 1], s, p) + if last.studentId == s && last.problemName == p then [last] else []
  }

  function StepNames(rows: seq<Row>): (r: seq<string>)
    ensures |r| == |rows|
  {
    if rows == [] then [] else StepNames(rows[..|rows| - 1]) + [rows[|rows| - 1].stepName]
  }

  function Outcomes(rows: seq<Row>): (r: seq<string>)
    ensures |r| == |rows|
    ensures forall i :: 0 <= i < |rows| ==> r[i] == rows[i].outcome
  {
    if rows == [] then [] else Outcomes(rows[..|rows| - 1]) + [rows[|rows| - 1].outcome]
  }

  function StudentNames(rows: seq<Row>): seq<string>
  {
    if rows == [] then [] else StudentNames(rows[..|rows| - 1]) + [rows[|rows| - 1].studentId]
  }

  /** The problem names of student `s`'s rows, in row order. */
  function ProblemNames(rows: seq<Row>, s: string): seq<string>
  {
    if rows == [] then []
    else
      var last := rows[|rows| - 1];
      ProblemNames(rows[..|rows| - 1], s) + if last.studentId == s then [last.problemName] else []
  }

  /** Drops each item equal to the one kept just before it (no self-loops). */
  function Collapse(xs: seq<string>): (r: seq<string>)
    ensures |r| <= |xs|
    ensures xs != [] ==> r != [] && r[|r| - 1] == xs[|xs| - 1]
  {
    if xs == [] then []
    else
      var c := Collapse(xs[..|xs| - 1]);
      if c != [] && c[|c| - 1] == xs[|xs| - 1] then c else c + [xs[|xs| - 1]]
  }

  predicate NoRepeats(xs: seq<string>)
  {
    forall i :: 0 < i < |xs| ==> xs[i] != xs[i - 1]
  }

  /** Collapsing leaves no two equal neighbours and keeps the steps in order. */
  lemma {:induction false} CollapseNoRepeats(xs: seq<string>)
    ensures NoRepeats(Collapse(xs))
    ensures IsSubseq(Collapse(xs), xs)
  {
    if xs != [] {
      var init, last := xs[..|xs| - 1], xs[|xs| - 1];
      CollapseNoRepeats(init);
      assert xs == init + [last];
      if Collapse(init) != [] && Collapse(init)[|Collapse(init)| - 1] == last {
        SubseqExtend(Collapse(init), init, last);
      } else {
        SubseqSnoc(Collapse(init), init, last);
      }
    }
  }

  /** A sequence without equal neighbours is left as it is. */
  lemma {:induction false} CollapseKeepsNoRepeats(xs: seq<string>)
    requires NoRepeats(xs)
    ensures Collapse(xs) == xs
  {
    if xs != [] {
      var init := xs[..|xs| - 1];
      CollapseKeepsNoRepeats(init);
      assert xs == init + [xs[|xs| - 1]];
    }
  }

  lemma {:induction false} ProblemsOfKnownStudent(t: Table, k: nat)
    requires NoDuplicates(StudentIds(t)) && k < |t|
    ensures ProblemsOf(t, t[k].student) == t[k].problems
  {
    if k > 0 {
      assert StudentIds(t)[0] != StudentIds(t)[k];
      assert StudentIds(t[1..]) == StudentIds(t)[1..];
      assert t[1..][k - 1] == t[k];
      ProblemsOfKnownStudent(t[1..], k - 1);
    }
  }

  lemma WellFormedFromKeys(t: Table)
    requires NoDuplicates(StudentIds(t))
    requires forall s :: NoDuplicates(ProblemIds(ProblemsOf(t, s)))
    ensures WellFormed(t)
  {
    forall k | 0 <= k < |t| ensures NoDuplicates(ProblemIds(t[k].problems)) {
      ProblemsOfKnownStudent(t, k);
    }
  }

  lemma {:induction false} NonEmptyGetHasKeys(t: Table, s: string, p: string)
    requires Get(t, s, p) != []
    ensures s in StudentIds(t) && p in ProblemIds(ProblemsOf(t, s))
  {
    if t[0].student != s {
      NonEmptyGetHasKeys(t[1..], s, p);
    } else {
      NonEmptyItemsHasKey(t[0].problems, p);
    }
  }

  lemma {:induction false} NonEmptyItemsHasKey(ps: seq<ProblemEntry>, p: string)
    requires ItemsOf(ps, p) != []
    ensures p in ProblemIds(ps)
  {
    if ps[0].problem != p {
      NonEmptyItemsHasKey(ps[1..], p);
    }
  }

  /** The list createStepSequences builds for one pair from its rows: every
      step with self-loops, otherwise the collapsed steps. */
  function StepSequence(rs: seq<Row>, selfLoops: bool): seq<string>
  {
    if selfLoops then StepNames(rs) else Collapse(StepNames(rs))
  }

  /** Pushing row `r`'s item keeps the keys of the accumulator in step with the rows. */
  lemma {:induction false} KeysAfterRow(t: Table, t': Table, rows: seq<Row>, r: Row, x: string)
    requires StudentIds(t) == Distinct(StudentNames(rows))
    requires forall s :: ProblemIds(ProblemsOf(t, s)) == Distinct(ProblemNames(rows, s))
    requires t' == Push(t, r.studentId, r.problemName, x) ||
             (t' == t && Get(t, r.studentId, r.problemName) != [])
    ensures StudentIds(t') == Distinct(StudentNames(rows + [r]))
    ensures forall s :: ProblemIds(ProblemsOf(t', s)) == Distinct(ProblemNames(rows + [r], s))
  {
    var rows' := rows + [r];
    assert rows'[..|rows'| - 1] == rows;
    assert StudentNames(rows') == StudentNames(rows) + [r.studentId];
    DistinctSnoc(StudentNames(rows), r.studentId);
    if t' != Push(t, r.studentId, r.problemName, x) {
      NonEmptyGetHasKeys(t, r.studentId, r.problemName);
    }
    forall s ensures ProblemIds(ProblemsOf(t', s)) == Distinct(ProblemNames(rows', s)) {
      if s == r.studentId {
        assert ProblemNames(rows', s) == ProblemNames(rows, s) + [r.problemName];
        DistinctSnoc(ProblemNames(rows, s), r.problemName);
      } else {
        assert ProblemNames(rows', s) == ProblemNames(rows, s);
      }
      if t' == Push(t, r.studentId, r.problemName, x) {
        ProblemIdsPush(t, r.studentId, r.problemName, x, s);
      }
    }
    if t' == Push(t, r.studentId, r.problemName, x) {
      StudentIdsPush(t, r.studentId, r.problemName, x);
    }
  }

  lemma RowsOfSnoc(rows: seq<Row>, r: Row, s: string, p: string)
    ensures RowsOf(rows + [r], s, p) ==
            RowsOf(rows, s, p) + if r.studentId == s && r.problemName == p then [r] else []
  {
    assert (rows + [r])[..|rows|] == rows;
  }

  /** What createStepSequences does with one row: the pair of row `r` gets its
      step unless, without self-loops, it would repeat the last one. */
  function StepPush(t: Table, r: Row, selfLoops: bool): Table
  {
    if PushesStep(Get(t, r.studentId, r.problemName), r, selfLoops)
    then Push(t, r.studentId, r.problemName, r.stepName) else t
  }

  predicate PushesStep(current: seq<string>, r: Row, selfLoops: bool)
  {
    selfLoops || current == [] || current[|current| - 1] != r.stepName
  }

  /** Row `r` changes only its own pair's list, and that one as the program's
      `reduce` step says. */
  lemma StepsAfterRow(t: Table, rows: seq<Row>, r: Row, selfLoops: bool, s: string, p: string)
    requires Get(t, s, p) == StepSequence(RowsOf(rows, s, p), selfLoops)
    ensures Get(StepPush(t, r, selfLoops), s, p) == StepSequence(RowsOf(rows + [r], s, p), selfLoops)
  {
    RowsOfSnoc(rows, r, s, p);
    if s == r.studentId && p == r.problemName {
      StepsOwnPair(t, RowsOf(rows, s, p), r, selfLoops);
    } else {
      assert RowsOf(rows + [r], s, p) == RowsOf(rows, s, p);
      if PushesStep(Get(t, r.studentId, r.problemName), r, selfLoops) {
        GetPush(t, r.studentId, r.problemName, r.stepName, s, p);
      }
      assert Get(StepPush(t, r, selfLoops), s, p) == Get(t, s, p);
    }
  }

  lemma StepsOwnPair(t: Table, rs: seq<Row>, r: Row, selfLoops: bool)
    requires Get(t, r.studentId, r.problemName) == StepSequence(rs, selfLoops)
    ensures Get(StepPush(t, r, selfLoops), r.studentId, r.problemName) == StepSequence(rs + [r], selfLoops)
  {
    var xs := StepNames(rs);
    assert (rs + [r])[..|rs|] == rs;
    assert StepNames(rs + [r]) == xs + [r.stepName];
    assert (xs + [r.stepName])[..|xs|] == xs;
    if PushesStep(Get(t, r.studentId, r.problemName), r, selfLoops) {
      GetPush(t, r.studentId, r.problemName, r.stepName, r.studentId, r.problemName);
    }
  }

  /** createStepSequences: per student and problem, the step names in row
      order, with runs of one step collapsed unless self-loops are wanted. */
  method CreateStepSequences(rows: seq<Row>, selfLoops: bool) returns (t: Table)
    ensures WellFormed(t)
    ensures StudentIds(t) == Distinct(StudentNames(rows))
    ensures forall s :: ProblemIds(ProblemsOf(t, s)) == Distinct(ProblemNames(rows, s))
    ensures forall s, p :: Get(t, s, p) == StepSequence(RowsOf(rows, s, p), selfLoops)
  {
    t := [];
    for i := 0 to |rows|
      invariant StudentIds(t) == Distinct(StudentNames(rows[..i]))
      invariant forall s :: ProblemIds(ProblemsOf(t, s)) == Distinct(ProblemNames(rows[..i], s))
      invariant forall s, p :: Get(t, s, p) == StepSequence(RowsOf(rows[..i], s, p), selfLoops)
    {
      var r := rows[i];
      var current := Get(t, r.studentId, r.problemName);
      ghost var t0 := t;
      if PushesStep(current, r, selfLoops) {
        t := Push(t, r.studentId, r.problemName, r.stepName);
      }
      assert rows[..i + 1] == rows[..i] + [r];
      KeysAfterRow(t0, t, rows[..i], r, r.stepName);
      forall s, p ensures Get(t, s, p) == StepSequence(RowsOf(rows[..i + 1], s, p), selfLoops) {
        StepsAfterRow(t0, rows[..i], r, selfLoops, s, p);
      }
    }
    assert rows[..|rows|] == rows;
    WellFormedFromKeys(t);
  }

  /** Row `r` appends its outcome to its own pair's list and changes no other. */
  lemma OutcomesAfterRow(t: Table, rows: seq<Row>, r: Row, s: string, p: string)
    requires Get(t, s, p) == Outcomes(RowsOf(rows, s, p))
    ensures Get(Push(t, r.studentId, r.problemName, r.outcome), s, p) == Outcomes(RowsOf(rows + [r], s, p))
  {
    RowsOfSnoc(rows, r, s, p);
    GetPush(t, r.studentId, r.problemName, r.outcome, s, p);
    if s == r.studentId && p == r.problemName {
      var rs := RowsOf(rows, s, p);
      assert (rs + [r])[..|rs|] == rs;
    } else {
      assert RowsOf(rows + [r], s, p) == RowsOf(rows, s, p);
    }
  }

  /** createOutcomeSequences: per student and problem, one outcome per row, in
      row order. */
  method CreateOutcomeSequences(rows: seq<Row>) returns (t: Table)
    ensures WellFormed(t)
    ensures StudentIds(t) == Distinct(StudentNames(rows))
    ensures forall s :: ProblemIds(ProblemsOf(t, s)) == Distinct(ProblemNames(rows, s))
    ensures forall s, p :: Get(t, s, p) == Outcomes(RowsOf(rows, s, p))
  {
    t := [];
    for i := 0 to |rows|
      invariant StudentIds(t) == Distinct(StudentNames(rows[..i]))
      invariant forall s :: ProblemIds(ProblemsOf(t, s)) == Distinct(ProblemNames(rows[..i], s))
      invariant forall s, p :: Get(t, s, p) == Outcomes(RowsOf(rows[..i], s, p))
    {
      var r := rows[i];
      ghost var t0 := t;
      t := Push(t, r.studentId, r.problemName, r.outcome);
      assert rows[..i + 1] == rows[..i] + [r];
      KeysAfterRow(t0, t, rows[..i], r, r.outcome);
      forall s, p ensures Get(t, s, p) == Outcomes(RowsOf(rows[..i + 1], s, p)) {
        OutcomesAfterRow(t0, rows[..i], r, s, p);
      }
    }
    assert rows[..|rows|] == rows;
    WellFormedFromKeys(t);
  }
}
