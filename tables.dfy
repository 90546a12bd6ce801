/** The nested dictionaries `{ [studentId]: { [problemName]: string[] } }`
    that the analytics pass around. A JavaScript object iterates its keys in
    insertion order, so it is modelled as an association list in that order:
    one entry per student, and inside it one entry per problem. */
module Tables {
  import opened Seqs

  datatype ProblemEntry = ProblemEntry(problem: string, items: seq<string>)
  datatype StudentEntry = StudentEntry(student: string, problems: seq<ProblemEntry>)
  type Table = seq<StudentEntry>

  /** `outcomes[i]`, which is `undefined` past the end of the list; used as an
      object key that value becomes the text "undefined". */
  function OutcomeAt(outcomes: seq<string>, i: nat): string
  {
    if i < |outcomes| then outcomes[i] else "undefined"
  }

  /** One (student, problem) list, as the nested `Object.entries` loops visit them. */
  datatype Path = Path(student: string, problem: string, items: seq<string>)

  function StudentIds(t: Table): (r: seq<string>)
    ensures |r| == |t| && forall i :: 0 <= i < |t| ==> r[i] == t[i].student
  {
    if t == [] then [] else [t[0].student] + StudentIds(t[1..])
  }

  function ProblemIds(ps: seq<ProblemEntry>): (r: seq<string>)
    ensures |r| == |ps| && forall i :: 0 <= i < |ps| ==> r[i] == ps[i].problem
  {
    if ps == [] then [] else [ps[0].problem] + ProblemIds(ps[1..])
  }

  /** `table[studentId] || {}` */
  function ProblemsOf(t: Table, s: string): seq<ProblemEntry>
  {
    if t == [] then [] else if t[0].student == s then t[0].problems else ProblemsOf(t[1..], s)
  }

  /** `problems[problemName] || []` */
  function ItemsOf(ps: seq<ProblemEntry>, p: string): seq<string>
  {
    if ps == [] then [] else if ps[0].problem == p then ps[0].items else ItemsOf(ps[1..], p)
  }

  /** `(table[studentId] || {})[problemName] || []` */
  function Get(t: Table, s: string, p: string): seq<string>
  {
    ItemsOf(ProblemsOf(t, s), p)
  }

  function PushItem(ps: seq<ProblemEntry>, p: string, x: string): seq<ProblemEntry>
  {
    if ps == [] then [ProblemEntry(p, [x])]
    else if ps[0].problem == p then [ProblemEntry(p, ps[0].items + [x])] + ps[1..]
    else [ps[0]] + PushItem(ps[1..], p, x)
  }

  /** Creates the entries that are missing and appends `x` to `table[s][p]`. */
  function Push(t: Table, s: string, p: string, x: string): Table
  {
    if t == [] then [StudentEntry(s, [ProblemEntry(p, [x])])]
    else if t[0].student == s then [StudentEntry(s, PushItem(t[0].problems, p, x))] + t[1..]
    else [t[0]] + Push(t[1..], s, p, x)
  }

  lemma {:induction false} ItemsOfPushItem(ps: seq<ProblemEntry>, p: string, x: string, q: string)
    ensures ItemsOf(PushItem(ps, p, x), q) == ItemsOf(ps, q) + if q == p then [x] else []
  {
    if ps != [] && ps[0].problem != p {
      ItemsOfPushItem(ps[1..], p, x, q);
    }
  }

  lemma {:induction false} ProblemIdsPushItem(ps: seq<ProblemEntry>, p: string, x: string)
    ensures ProblemIds(PushItem(ps, p, x)) ==
            if p in ProblemIds(ps) then ProblemIds(ps) else ProblemIds(ps) + [p]
  {
    if ps != [] && ps[0].problem != p {
      ProblemIdsPushItem(ps[1..], p, x);
      assert ProblemIds(ps) == [ps[0].problem] + ProblemIds(ps[1..]);
    }
  }

  lemma {:induction false} ProblemsOfPush(t: Table, s: string, p: string, x: string, u: string)
    ensures ProblemsOf(Push(t, s, p, x), u) ==
            if u == s then PushItem(ProblemsOf(t, s), p, x) else ProblemsOf(t, u)
  {
    if t != [] && t[0].student != s {
      ProblemsOfPush(t[1..], s, p, x, u);
    }
  }

  /** What a push changes: exactly one list grows by one item. */
  lemma GetPush(t: Table, s: string, p: string, x: string, u: string, q: string)
    ensures Get(Push(t, s, p, x), u, q) == Get(t, u, q) + if u == s && q == p then [x] else []
  {
    ProblemsOfPush(t, s, p, x, u);
    if u == s {
      ItemsOfPushItem(ProblemsOf(t, s), p, x, q);
    }
  }

  /** A push adds a student key only when it is new, at the end. */
  lemma {:induction false} StudentIdsPush(t: Table, s: string, p: string, x: string)
    ensures StudentIds(Push(t, s, p, x)) ==
            if s in StudentIds(t) then StudentIds(t) else StudentIds(t) + [s]
  {
    if t != [] && t[0].student != s {
      StudentIdsPush(t[1..], s, p, x);
      assert StudentIds(t) == [t[0].student] + StudentIds(t[1..]);
    }
  }

  /** A push adds a problem key to its student only when it is new, at the end. */
  lemma ProblemIdsPush(t: Table, s: string, p: string, x: string, u: string)
    ensures ProblemIds(ProblemsOf(Push(t, s, p, x), u)) ==
            if u == s && p !in ProblemIds(ProblemsOf(t, s)) then ProblemIds(ProblemsOf(t, s)) + [p]
            else ProblemIds(ProblemsOf(t, u))
  {
    ProblemsOfPush(t, s, p, x, u);
    if u == s {
      ProblemIdsPushItem(ProblemsOf(t, s), p, x);
    }
  }

  /** The keys are unique at both levels. */
  ghost predicate WellFormed(t: Table)
  {
    && NoDuplicates(StudentIds(t))
    && forall i :: 0 <= i < |t| ==> NoDuplicates(ProblemIds(t[i].problems))
  }

  function EntryPaths(e: StudentEntry): (r: seq<Path>)
    ensures |r| == |e.problems|
  {
    seq(|e.problems|, i requires 0 <= i < |e.problems| =>
      Path(e.student, e.problems[i].problem, e.problems[i].items))
  }

  /** All (student, problem) lists in the nested iteration order. */
  function Paths(t: Table): seq<Path>
  {
    if t == [] then [] else EntryPaths(t[0]) + Paths(t[1..])
  }

  /** Every path is what a lookup of its keys returns. */
  lemma {:induction false} PathsAreLookups(t: Table, k: nat)
    requires WellFormed(t) && k < |Paths(t)|
    ensures Paths(t)[k].student in StudentIds(t)
    ensures Paths(t)[k].items == Get(t, Paths(t)[k].student, Paths(t)[k].problem)
  {
    var e := t[0];
    var here := EntryPaths(e);
    if k < |here| {
      assert t[0].student == StudentIds(t)[0];
      ItemsOfEntry(e.problems, k);
    } else {
      WellFormedTail(t);
      PathsAreLookups(t[1..], k - |here|);
      assert Paths(t)[k] == Paths(t[1..])[k - |here|];
      LaterStudent(t, Paths(t)[k].student);
    }
  }

  lemma WellFormedTail(t: Table)
    requires WellFormed(t) && t != []
    ensures WellFormed(t[1..])
  {
    assert StudentIds(t[1..]) == StudentIds(t)[1..];
    forall i | 0 <= i < |t[1..]| ensures NoDuplicates(ProblemIds(t[1..][i].problems)) {
      assert t[1..][i] == t[i + 1];
    }
  }

  /** A student key of the tail differs from the head's key, and is a key of the table. */
  lemma LaterStudent(t: Table, s: string)
    requires WellFormed(t) && t != [] && s in StudentIds(t[1..])
    ensures s != t[0].student && s in StudentIds(t)
  {
    var m :| 0 <= m < |StudentIds(t[1..])| && StudentIds(t[1..])[m] == s;
    assert StudentIds(t)[m + 1] == s && StudentIds(t)[0] == t[0].student;
  }

  lemma {:induction false} ItemsOfEntry(ps: seq<ProblemEntry>, k: nat)
    requires NoDuplicates(ProblemIds(ps)) && k < |ps|
    ensures ItemsOf(ps, ps[k].problem) == ps[k].items
  {
    if k > 0 {
      assert ProblemIds(ps)[0] != ProblemIds(ps)[k];
      assert NoDuplicates(ProblemIds(ps[1..])) by {
        assert forall i :: 0 <= i < |ps[1..]| ==> ProblemIds(ps[1..])[i] == ProblemIds(ps)[i + 1];
      }
      ItemsOfEntry(ps[1..], k - 1);
    }
  }
}
