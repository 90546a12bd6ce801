/** What first3Last3.ts and f3l3.ts share: each student's first three and
    last three distinct problems, the loop that collects them, and the test
    of whether a row's problem was chosen. */
module ProblemChoice {
  import opened Seqs
  import opened Rows

  /** `{ first3, last3 }` for one student. While the rows are read, `last3`
      holds every problem name seen, in row order. */
  datatype Choice = Choice(first3: seq<string>, last3: seq<string>)

  type Choices = map<string, Choice>

  /** The row is read: it has a student id, and a problem name when
      `needsProblem` (getFirstAndLast3 skips rows without one, groupByStudentId
      does not). */
  predicate Counted(r: Row, needsProblem: bool)
  {
    r.studentId != "" && (!needsProblem || r.problemName != "")
  }

  /** The problem names of the read rows of student `s`, in row order. */
  function ProblemsSeen(data: seq<Row>, s: string, needsProblem: bool): seq<string>
  {
    if data == [] then []
    else
      var last := data[|data| - 1];
      ProblemsSeen(data[..|data| - 1], s, needsProblem) +
        if Counted(last, needsProblem) && last.studentId == s then [last.problemName] else []
  }

  /** Rows without a student id are never read. */
  lemma {:induction false} UnnamedStudentSkipped(data: seq<Row>, needsProblem: bool)
    ensures ProblemsSeen(data, "", needsProblem) == []
  {
    if data != [] {
      UnnamedStudentSkipped(data[..|data| - 1], needsProblem);
    }
  }

  /** The choice for a student who worked on `names`: the first three and the
      last three of the distinct names, in first-occurrence order. */
  function Choose(names: seq<string>): Choice
  {
    var d := Distinct(names);
    Choice(Take(d, 3), LastN(d, 3))
  }

  lemma NoDuplicatesSlice<T>(s: seq<T>, i: nat, j: nat)
    requires NoDuplicates(s) && i <= j <= |s|
    ensures NoDuplicates(s[i..j])
  {
    forall a, b | 0 <= a < b < j - i ensures s[i..j][a] != s[i..j][b] {
      assert s[i..j][a] == s[i + a] && s[i..j][b] == s[i + b];
    }
  }

  /** first3 is the start and last3 the end of the distinct names, each at
      most three long and without repeats, and each drawn from the names. */
  lemma ChooseFacts(names: seq<string>)
    ensures var c, d := Choose(names), Distinct(names);
      && c.first3 == d[..|c.first3|]
      && c.last3 == d[|d| - |c.last3|..]
      && |c.first3| == |c.last3| == (if |d| < 3 then |d| else 3)
      && NoDuplicates(c.first3) && NoDuplicates(c.last3)
      && (forall x :: x in c.first3 || x in c.last3 ==> x in names)
  {
    var d := Distinct(names);
    EndsFacts(d);
    assert forall x :: x in d ==> x in names;
  }

  /** The first three and last three of a sequence without repeats. */
  lemma EndsFacts(d: seq<string>)
    requires NoDuplicates(d)
    ensures var f, l := Take(d, 3), LastN(d, 3);
      && f == d[..|f|] && l == d[|d| - |l|..]
      && |f| == |l| == (if |d| < 3 then |d| else 3)
      && NoDuplicates(f) && NoDuplicates(l)
      && (forall x :: x in f || x in l ==> x in d)
  {
    var f, l := Take(d, 3), LastN(d, 3);
    NoDuplicatesSlice(d, 0, |f|);
    NoDuplicatesSlice(d, |d| - |l|, |d|);
    forall x | x in f || x in l ensures x in d {
      SliceMember(d, f, l, x);
    }
  }

  lemma SliceMember(d: seq<string>, f: seq<string>, l: seq<string>, x: string)
    requires f <= d && |l| <= |d| && l == d[|d| - |l|..] && (x in f || x in l)
    ensures x in d
  {
    if x in f {
      var i :| 0 <= i < |f| && f[i] == x;
      assert d[i] == x;
    } else {
      var i :| 0 <= i < |l| && l[i] == x;
      assert d[|d| - |l| + i] == x;
    }
  }

  /** With at most six distinct problems, every problem is chosen. */
  lemma FewProblemsAllChosen(names: seq<string>, x: string)
    requires |Distinct(names)| <= 6 && x in names
    ensures x in Choose(names).first3 || x in Choose(names).last3
  {
    var d := Distinct(names);
    var i :| 0 <= i < |d| && d[i] == x;
    if i < 3 {
      assert Take(d, 3)[i] == x;
    } else {
      assert LastN(d, 3)[i - (|d| - |LastN(d, 3)|)] == x;
    }
  }

  /** last3 follows first occurrences: a student who worked on a, b, c, d
      and then a again gets b, c, d, not c, d, a. */
  lemma LastThreeByFirstOccurrence(a: string, b: string, c: string, d: string)
    requires a != b && a != c && a != d && b != c && b != d && c != d
    ensures Choose([a, b, c, d, a]).last3 == [b, c, d]
  {
    assert Distinct([a, b, c, d]) == [a, b, c, d] by {
      DistinctOfNoDuplicates([a, b, c, d]);
    }
    assert Distinct([a, b, c, d, a]) == [a, b, c, d] by {
      DistinctSnoc([a, b, c, d], a);
      assert [a, b, c, d] + [a] == [a, b, c, d, a];
    }
  }

  // ---------------------------------------------------------------------------
  // The grouping loop
  // ---------------------------------------------------------------------------

  /** `if (!first3.includes(p)) first3.push(p); if (first3.length > 3)
      first3 = first3.slice(0, 3)` */
  function AddFirst(first3: seq<string>, p: string): seq<string>
  {
    Take(if p in first3 then first3 else first3 + [p], 3)
  }

  /** Keeping the first three after each row is taking the first three of
      all the distinct names at the end. */
  lemma AddFirstTracks(names: seq<string>, p: string)
    ensures Take(Distinct(names + [p]), 3) == AddFirst(Take(Distinct(names), 3), p)
  {
    DistinctSnoc(names, p);
    var d := Distinct(names);
    if p in Take(d, 3) {
    } else if p in d {
      assert |d| > 3;
    } else if |d| < 3 {
    } else {
      assert (d + [p])[..3] == d[..3];
    }
  }

  lemma ProblemsSeenStep(data: seq<Row>, k: nat, s: string, needsProblem: bool)
    requires k < |data|
    ensures ProblemsSeen(data[..k + 1], s, needsProblem) ==
      ProblemsSeen(data[..k], s, needsProblem) +
        if Counted(data[k], needsProblem) && data[k].studentId == s then [data[k].problemName] else []
  {
    assert data[..k + 1][..k] == data[..k];
  }

  /** The record of student `s` after the rows whose names for `s` are
      `seen`: present once a name was seen, first3 kept trimmed and last3
      holding every name. */
  predicate CollectedFor(per: Choices, s: string, seen: seq<string>)
  {
    && (s in per <==> seen != [])
    && (s in per ==> per[s] == Choice(Take(Distinct(seen), 3), seen))
  }

  /** The state after the rows `data`. */
  ghost predicate Collected(per: Choices, data: seq<Row>, needsProblem: bool)
  {
    forall s :: CollectedFor(per, s, ProblemsSeen(data, s, needsProblem))
  }

  /** The record update for row `r` (lines 57-75 of first3Last3.ts). */
  function RowUpdate(per: Choices, r: Row, needsProblem: bool): Choices
  {
    if Counted(r, needsProblem) then
      var cur := if r.studentId in per then per[r.studentId] else Choice([], []);
      per[r.studentId := Choice(AddFirst(cur.first3, r.problemName), cur.last3 + [r.problemName])]
    else per
  }

  lemma CollectedForStep(per: Choices, r: Row, needsProblem: bool, s: string, seen: seq<string>)
    requires CollectedFor(per, s, seen)
    ensures CollectedFor(RowUpdate(per, r, needsProblem), s,
                         seen + if Counted(r, needsProblem) && r.studentId == s then [r.problemName] else [])
  {
    AddFirstTracks(seen, r.problemName);
    assert seen + [] == seen;
    if seen == [] {
      assert Take(Distinct<string>([]), 3) == [];
      assert [] + [r.problemName] == [r.problemName];
    }
  }

  lemma CollectedStep(per: Choices, data: seq<Row>, k: nat, needsProblem: bool)
    requires k < |data| && Collected(per, data[..k], needsProblem)
    ensures Collected(RowUpdate(per, data[k], needsProblem), data[..k + 1], needsProblem)
  {
    var next := data[..k + 1];
    forall s ensures CollectedFor(RowUpdate(per, data[k], needsProblem), s, ProblemsSeen(next, s, needsProblem)) {
      ProblemsSeenStep(data, k, s, needsProblem);
      CollectedForStep(per, data[k], needsProblem, s, ProblemsSeen(data[..k], s, needsProblem));
    }
  }

  /** The forEach over the rows. */
  method CollectRows(data: seq<Row>, needsProblem: bool) returns (per: Choices)
    ensures Collected(per, data, needsProblem)
  {
    per := map[];
    assert data[..0] == [];
    for k := 0 to |data|
      invariant Collected(per, data[..k], needsProblem)
    {
      ghost var before := per;
      var row := data[k];
      if Counted(row, needsProblem) {
        var studentId := row.studentId;
        if studentId !in per {
          per := per[studentId := Choice([], [])];
        }
        var currentProblems := per[studentId];
        var first3 := currentProblems.first3;
        if row.problemName !in first3 {
          first3 := first3 + [row.problemName];
        }
        if |first3| > 3 {
          first3 := first3[..3];
        }
        per := per[studentId := Choice(first3, currentProblems.last3 + [row.problemName])];
      }
      assert per == RowUpdate(before, row, needsProblem);
      CollectedStep(before, data, k, needsProblem);
    }
    assert data[..|data|] == data;
  }

  /** The pass over the students: each full list becomes its last three
      distinct names. */
  method TrimLast(raw: Choices) returns (per: Choices)
    ensures per.Keys == raw.Keys
    ensures forall s :: s in raw ==> per[s] == Choice(raw[s].first3, LastN(Distinct(raw[s].last3), 3))
  {
    per := raw;
    var todo := per.Keys;
    while todo != {}
      invariant todo <= raw.Keys && per.Keys == raw.Keys
      invariant forall s :: s in per ==>
        per[s] == if s in todo then raw[s] else Choice(raw[s].first3, LastN(Distinct(raw[s].last3), 3))
      decreases |todo|
    {
      var studentId :| studentId in todo;
      var problems := per[studentId].last3;
      per := per[studentId := per[studentId].(last3 := LastN(Distinct(problems), 3))];
      todo := todo - {studentId};
    }
  }

  /** groupByStudentId / getFirstAndLast3: a record for exactly the students
      with a read row, holding the choice for that student's problems. */
  method GroupRows(data: seq<Row>, needsProblem: bool) returns (per: Choices)
    ensures forall s :: s in per <==> ProblemsSeen(data, s, needsProblem) != []
    ensures forall s :: s in per ==> per[s] == Choose(ProblemsSeen(data, s, needsProblem))
  {
    var raw := CollectRows(data, needsProblem);
    per := TrimLast(raw);
    forall s ensures (s in per <==> ProblemsSeen(data, s, needsProblem) != []) &&
                     (s in per ==> per[s] == Choose(ProblemsSeen(data, s, needsProblem)))
    {
      assert CollectedFor(raw, s, ProblemsSeen(data, s, needsProblem));
    }
  }

  /** The shared row test of both filterRowsByProblems: the row has a
      student id and a problem name, the student has a record, and the
      problem is among its first three or last three. */
  predicate Chosen(per: Choices, r: Row)
  {
    && r.studentId != "" && r.problemName != ""
    && r.studentId in per
    && (r.problemName in per[r.studentId].first3 || r.problemName in per[r.studentId].last3)
  }

  /** The rows that pass that test, in order. */
  function ChosenRows(data: seq<Row>, per: Choices): seq<Row>
  {
    Filter((x: Row) => Chosen(per, x), data)
  }

  /** The chosen rows are, in their original order, exactly the rows of a
      known student whose problem is among that student's chosen ones. */
  lemma ChosenRowsKeep(data: seq<Row>, per: Choices)
    ensures IsSubseq(ChosenRows(data, per), data)
    ensures forall x :: x in ChosenRows(data, per) <==> x in data && Chosen(per, x)
  {
    var p := (x: Row) => Chosen(per, x);
    FilterIsSubseq(p, data);
    FilterMultiset(p, data);
    forall x ensures x in Filter(p, data) <==> x in data && Chosen(per, x) {
      assert x in Filter(p, data) <==> multiset(Filter(p, data))[x] > 0;
    }
  }
}
