/** Edge and node counting (GraphvizProcessing.ts, section 3): every pair of
    consecutive steps of a student's problem is one traversal of the edge
    between them, and the tracking maps accumulate per-edge metrics over
    all traversals. An edge is the pair (source step, target step). */
module EdgeTracking {
  import opened Seqs
  import opened Tables
  import opened SequenceAnalysis

  type Edge = (string, string)

  /** One traversal of an edge by a student, with the outcome recorded for it
      (the outcome of the target step's position). */
  datatype Traversal = Traversal(edge: Edge, student: string, outcome: string)

  /** `StudentProblemCombination` */
  datatype Combination = Combination(student: string, problem: string, steps: seq<string>, outcomes: seq<string>)

  function CombinationOf(p: Path, outcomeTable: Table): Combination
  {
    Combination(p.student, p.problem, p.items, Get(outcomeTable, p.student, p.problem))
  }

  /** The (student, problem) pairs with at least two steps, in iteration order. */
  function Combinations(paths: seq<Path>, outcomeTable: Table): (r: seq<Combination>)
    ensures forall c :: c in r ==> |c.steps| >= 2
  {
    if paths == [] then []
    else
      var p := paths[|paths| - 1];
      Combinations(paths[..|paths| - 1], outcomeTable) +
        if |p.items| >= 2 then [CombinationOf(p, outcomeTable)] else []
  }

  /** The same pairs without the length filter. */
  function AllCombinations(paths: seq<Path>, outcomeTable: Table): seq<Combination>
  {
    if paths == [] then []
    else AllCombinations(paths[..|paths| - 1], outcomeTable) + [CombinationOf(paths[|paths| - 1], outcomeTable)]
  }

  /** prepareStudentProblemCombinations */
  method PrepareStudentProblemCombinations(stepTable: Table, outcomeTable: Table) returns (combos: seq<Combination>)
    ensures combos == Combinations(Paths(stepTable), outcomeTable)
  {
    var paths := Paths(stepTable);
    combos := [];
    for i := 0 to |paths|
      invariant combos == Combinations(paths[..i], outcomeTable)
    {
      var p := paths[i];
      if |p.items| >= 2 {
        combos := combos + [Combination(p.student, p.problem, p.items, Get(outcomeTable, p.student, p.problem))];
      }
      assert paths[..i + 1][..i] == paths[..i];
    }
    assert paths[..|paths|] == paths;
  }

  /** The number of iterations of `for (i = 0; i < steps.length - 1; i++)`. */
  function EdgeSlots(steps: seq<string>): nat
  {
    if steps == [] then 0 else |steps| - 1
  }

  function TraversalAt(c: Combination, i: nat): Traversal
    requires i + 1 < |c.steps|
  {
    Traversal((c.steps[i], c.steps[i + 1]), c.student, OutcomeAt(c.outcomes, i + 1))
  }

  /** The traversals of the first `n` consecutive step pairs of `c`. */
  function PathTraversals(c: Combination, n: nat): (r: seq<Traversal>)
    requires n <= EdgeSlots(c.steps)
    ensures |r| == n
  {
    if n == 0 then [] else PathTraversals(c, n - 1) + [TraversalAt(c, n - 1)]
  }

  lemma PathStep(done: seq<Traversal>, c: Combination, i: nat)
    requires i + 1 < |c.steps|
    ensures done + PathTraversals(c, i + 1) == (done + PathTraversals(c, i)) + [TraversalAt(c, i)]
  {
  }

  /** All traversals of the pairs, in processing order. */
  function AllTraversals(cs: seq<Combination>): seq<Traversal>
  {
    if cs == [] then []
    else
      var c := cs[|cs| - 1];
      AllTraversals(cs[..|cs| - 1]) + PathTraversals(c, EdgeSlots(c.steps))
  }

  /** Dropping the pairs with fewer than two steps loses no traversal. */
  lemma {:induction false} ShortPathsContributeNothing(paths: seq<Path>, outcomeTable: Table)
    ensures AllTraversals(Combinations(paths, outcomeTable)) == AllTraversals(AllCombinations(paths, outcomeTable))
  {
    if paths != [] {
      var init, p := paths[..|paths| - 1], paths[|paths| - 1];
      ShortPathsContributeNothing(init, outcomeTable);
      var kept := Combinations(init, outcomeTable);
      var all := AllCombinations(init, outcomeTable);
      var c := CombinationOf(p, outcomeTable);
      AllTraversalsSnoc(all, c);
      if |p.items| >= 2 {
        AllTraversalsSnoc(kept, c);
      } else {
        assert PathTraversals(c, EdgeSlots(c.steps)) == [];
        assert Combinations(paths, outcomeTable) == kept;
      }
    }
  }

  lemma AllTraversalsSnoc(cs: seq<Combination>, c: Combination)
    ensures AllTraversals(cs + [c]) == AllTraversals(cs) + PathTraversals(c, EdgeSlots(c.steps))
  {
    assert (cs + [c])[..|cs|] == cs;
  }

  lemma AllTraversalsPrefix(cs: seq<Combination>, k: nat)
    requires k < |cs|
    ensures AllTraversals(cs[..k + 1]) == AllTraversals(cs[..k]) + PathTraversals(cs[k], EdgeSlots(cs[k].steps))
  {
    assert cs[..k + 1] == cs[..k] + [cs[k]];
    AllTraversalsSnoc(cs[..k], cs[k]);
  }

  // ---------------------------------------------------------------------------
  // What the tracking maps hold, as functions of the traversal log
  // ---------------------------------------------------------------------------

  function EdgesOf(log: seq<Traversal>): set<Edge>
  {
    if log == [] then {} else EdgesOf(log[..|log| - 1]) + {log[|log| - 1].edge}
  }

  /** The distinct students who traversed `e` (`studentEdgeCounts`). */
  function StudentsOn(log: seq<Traversal>, e: Edge): set<string>
  {
    if log == [] then {}
    else
      var t := log[|log| - 1];
      StudentsOn(log[..|log| - 1], e) + if t.edge == e then {t.student} else {}
  }

  /** The number of traversals of `e` (`totalVisits`). */
  function Visits(log: seq<Traversal>, e: Edge): nat
  {
    if log == [] then 0
    else Visits(log[..|log| - 1], e) + if log[|log| - 1].edge == e then 1 else 0
  }

  /** Traversals of `e` per student (`repeatVisits`). */
  function RepeatVisits(log: seq<Traversal>, e: Edge): multiset<string>
  {
    if log == [] then multiset{}
    else
      var t := log[|log| - 1];
      RepeatVisits(log[..|log| - 1], e) + if t.edge == e then multiset{t.student} else multiset{}
  }

  /** Traversals of `e` per outcome (`edgeOutcomeCounts`). */
  function OutcomesOn(log: seq<Traversal>, e: Edge): multiset<string>
  {
    if log == [] then multiset{}
    else
      var t := log[|log| - 1];
      OutcomesOn(log[..|log| - 1], e) + if t.edge == e then multiset{t.outcome} else multiset{}
  }

  /** The outcome of each student's first traversal of `e`, per outcome
      (`firstAttemptOutcomes`). */
  function FirstAttempts(log: seq<Traversal>, e: Edge): multiset<string>
  {
    if log == [] then multiset{}
    else
      var init, t := log[..|log| - 1], log[|log| - 1];
      FirstAttempts(init, e) +
        if t.edge == e && t.student !in StudentsOn(init, e) then multiset{t.outcome} else multiset{}
  }

  /** The distinct students who left step `n` along some edge (`totalNodeEdges`). */
  function NodeStudents(log: seq<Traversal>, n: string): set<string>
  {
    if log == [] then {}
    else
      var t := log[|log| - 1];
      NodeStudents(log[..|log| - 1], n) + if t.edge.0 == n then {t.student} else {}
  }

  /** What one more traversal changes, one function at a time. */
  lemma EdgesSnoc(log: seq<Traversal>, t: Traversal)
    ensures EdgesOf(log + [t]) == EdgesOf(log) + {t.edge}
  {
    assert (log + [t])[..|log|] == log;
  }

  lemma StudentsSnoc(log: seq<Traversal>, t: Traversal, e: Edge)
    ensures StudentsOn(log + [t], e) == StudentsOn(log, e) + if t.edge == e then {t.student} else {}
  {
    assert (log + [t])[..|log|] == log;
  }

  lemma VisitsSnoc(log: seq<Traversal>, t: Traversal, e: Edge)
    ensures Visits(log + [t], e) == Visits(log, e) + if t.edge == e then 1 else 0
  {
    assert (log + [t])[..|log|] == log;
  }

  lemma RepeatsSnoc(log: seq<Traversal>, t: Traversal, e: Edge)
    ensures RepeatVisits(log + [t], e) == RepeatVisits(log, e) + if t.edge == e then multiset{t.student} else multiset{}
  {
    assert (log + [t])[..|log|] == log;
  }

  lemma OutcomesSnoc(log: seq<Traversal>, t: Traversal, e: Edge)
    ensures OutcomesOn(log + [t], e) == OutcomesOn(log, e) + if t.edge == e then multiset{t.outcome} else multiset{}
  {
    assert (log + [t])[..|log|] == log;
  }

  lemma FirstAttemptsSnoc(log: seq<Traversal>, t: Traversal, e: Edge)
    ensures FirstAttempts(log + [t], e) == FirstAttempts(log, e) +
      if t.edge == e && t.student !in StudentsOn(log, e) then multiset{t.outcome} else multiset{}
  {
    assert (log + [t])[..|log|] == log;
  }

  lemma NodeStudentsSnoc(log: seq<Traversal>, t: Traversal, n: string)
    ensures NodeStudents(log + [t], n) == NodeStudents(log, n) + if t.edge.0 == n then {t.student} else {}
  {
    assert (log + [t])[..|log|] == log;
  }

  /** The sizes of one edge's metrics: every traversal is one visit, one
      repeat and one outcome, and an edge is traversed exactly when it has a
      visit. */
  lemma {:induction false} MetricSizes(log: seq<Traversal>, e: Edge)
    ensures |RepeatVisits(log, e)| == Visits(log, e)
    ensures |OutcomesOn(log, e)| == Visits(log, e)
    ensures e in EdgesOf(log) <==> Visits(log, e) > 0
  {
    if log != [] {
      var init, t := log[..|log| - 1], log[|log| - 1];
      MetricSizes(init, e);
      assert log == init + [t];
      EdgesSnoc(init, t);
      VisitsSnoc(init, t, e);
      RepeatsSnoc(init, t, e);
      OutcomesSnoc(init, t, e);
    }
  }

  /** The students of one edge: each is counted once, has exactly one first
      attempt, and is exactly a student with a repeat count. */
  lemma {:induction false} StudentFacts(log: seq<Traversal>, e: Edge)
    ensures |StudentsOn(log, e)| <= Visits(log, e)
    ensures |FirstAttempts(log, e)| == |StudentsOn(log, e)|
    ensures forall s :: s in RepeatVisits(log, e) <==> s in StudentsOn(log, e)
  {
    if log != [] {
      var init, t := log[..|log| - 1], log[|log| - 1];
      StudentFacts(init, e);
      assert log == init + [t];
      StudentsSnoc(init, t, e);
      VisitsSnoc(init, t, e);
      RepeatsSnoc(init, t, e);
      FirstAttemptsSnoc(init, t, e);
    }
  }

  /** The relations between the metrics of one edge. */
  lemma EdgeMetricsFacts(log: seq<Traversal>, e: Edge)
    ensures |StudentsOn(log, e)| <= Visits(log, e)
    ensures |RepeatVisits(log, e)| == Visits(log, e)
    ensures |OutcomesOn(log, e)| == Visits(log, e)
    ensures |FirstAttempts(log, e)| == |StudentsOn(log, e)|
    ensures forall s :: s in RepeatVisits(log, e) <==> s in StudentsOn(log, e)
    ensures e in EdgesOf(log) <==> Visits(log, e) > 0
  {
    MetricSizes(log, e);
    StudentFacts(log, e);
  }

  /** An edge that was never traversed has empty metrics. */
  lemma {:induction false} Unvisited(log: seq<Traversal>, e: Edge)
    requires e !in EdgesOf(log)
    ensures StudentsOn(log, e) == {} && Visits(log, e) == 0
    ensures RepeatVisits(log, e) == multiset{} && OutcomesOn(log, e) == multiset{}
    ensures FirstAttempts(log, e) == multiset{}
  {
    if log != [] {
      var init := log[..|log| - 1];
      assert EdgesOf(log) == EdgesOf(init) + {log[|log| - 1].edge};
      Unvisited(init, e);
    }
  }

  /** No traversal leaves a step that is the source of no traversed edge. */
  lemma {:induction false} NodeStudentsUnused(log: seq<Traversal>, n: string)
    requires forall e :: e in EdgesOf(log) ==> e.0 != n
    ensures NodeStudents(log, n) == {}
  {
    if log != [] {
      var init := log[..|log| - 1];
      assert EdgesOf(log) == EdgesOf(init) + {log[|log| - 1].edge};
      NodeStudentsUnused(init, n);
    }
  }

  ghost predicate StudentSets(m: map<Edge, set<string>>, log: seq<Traversal>)
  {
    forall e {:trigger StudentsOn(log, e)} :: e in m ==> m[e] == StudentsOn(log, e)
  }

  ghost predicate VisitCounts(m: map<Edge, nat>, log: seq<Traversal>)
  {
    forall e {:trigger Visits(log, e)} :: e in m ==> m[e] == Visits(log, e)
  }

  ghost predicate RepeatCounts(m: map<Edge, multiset<string>>, log: seq<Traversal>)
  {
    forall e {:trigger RepeatVisits(log, e)} :: e in m ==> m[e] == RepeatVisits(log, e)
  }

  ghost predicate OutcomeCounts(m: map<Edge, multiset<string>>, log: seq<Traversal>)
  {
    forall e {:trigger OutcomesOn(log, e)} :: e in m ==> m[e] == OutcomesOn(log, e)
  }

  ghost predicate DistinctCounts(m: map<Edge, nat>, log: seq<Traversal>)
  {
    forall e {:trigger StudentsOn(log, e)} :: e in m ==> m[e] == |StudentsOn(log, e)|
  }

  ghost predicate FirstAttemptCounts(m: map<Edge, multiset<string>>, log: seq<Traversal>)
  {
    forall e {:trigger FirstAttempts(log, e)} :: e in m ==> m[e] == FirstAttempts(log, e)
  }

  ghost predicate NodeSets(m: map<string, set<string>>, log: seq<Traversal>)
  {
    forall n {:trigger NodeStudents(log, n)} :: n in m ==> m[n] == NodeStudents(log, n)
  }

  lemma StudentSetsStep(m: map<Edge, set<string>>, log: seq<Traversal>, t: Traversal)
    requires StudentSets(m, log) && t.edge in m
    ensures StudentSets(m[t.edge := m[t.edge] + {t.student}], log + [t])
  {
    forall e | e in m { StudentsSnoc(log, t, e); }
  }

  lemma VisitCountsStep(m: map<Edge, nat>, log: seq<Traversal>, t: Traversal)
    requires VisitCounts(m, log) && t.edge in m
    ensures VisitCounts(m[t.edge := m[t.edge] + 1], log + [t])
  {
    forall e | e in m { VisitsSnoc(log, t, e); }
  }

  lemma RepeatCountsStep(m: map<Edge, multiset<string>>, log: seq<Traversal>, t: Traversal)
    requires RepeatCounts(m, log) && t.edge in m
    ensures RepeatCounts(m[t.edge := m[t.edge] + multiset{t.student}], log + [t])
  {
    forall e | e in m { RepeatsSnoc(log, t, e); }
  }

  lemma OutcomeCountsStep(m: map<Edge, multiset<string>>, log: seq<Traversal>, t: Traversal)
    requires OutcomeCounts(m, log) && t.edge in m
    ensures OutcomeCounts(m[t.edge := m[t.edge] + multiset{t.outcome}], log + [t])
  {
    forall e | e in m { OutcomesSnoc(log, t, e); }
  }

  lemma DistinctCountsStep(m: map<Edge, nat>, log: seq<Traversal>, t: Traversal, count: nat)
    requires DistinctCounts(m, log)
    requires count == |StudentsOn(log + [t], t.edge)|
    ensures DistinctCounts(m[t.edge := count], log + [t])
  {
    var m' := m[t.edge := count];
    forall e | e in m' ensures m'[e] == |StudentsOn(log + [t], e)| {
      StudentsSnoc(log, t, e);
    }
  }

  /** The number of distinct students of an edge never decreases. */
  lemma DistinctCountGrows(m: map<Edge, nat>, log: seq<Traversal>, t: Traversal, count: nat)
    requires DistinctCounts(m, log)
    requires count == |StudentsOn(log + [t], t.edge)|
    ensures t.edge in m ==> m[t.edge] <= count
  {
    StudentsSnoc(log, t, t.edge);
    AddOneGrows(StudentsOn(log, t.edge), t.student);
  }

  lemma AddOneGrows(a: set<string>, x: string)
    ensures |a| <= |a + {x}|
  {
    if x in a {
      assert a + {x} == a;
    } else {
      assert |a + {x}| == |a| + 1;
    }
  }

  /** The first-attempt entry grows exactly when the student had not taken
      the edge before, that is when the repeat count becomes 1. */
  lemma FirstAttemptsStep(m: map<Edge, multiset<string>>, log: seq<Traversal>, t: Traversal)
    requires FirstAttemptCounts(m, log) && (t.edge !in m ==> t.edge !in EdgesOf(log))
    requires t.student !in StudentsOn(log, t.edge)
    ensures FirstAttemptCounts(m[t.edge := (if t.edge in m then m[t.edge] else multiset{}) + multiset{t.outcome}], log + [t])
  {
    var e := t.edge;
    var m' := m[e := (if e in m then m[e] else multiset{}) + multiset{t.outcome}];
    FirstAttemptsSnoc(log, t, e);
    if e !in m {
      Unvisited(log, e);
    }
    assert m'[e] == FirstAttempts(log + [t], e);
    forall d | d in m' && d != e ensures m'[d] == FirstAttempts(log + [t], d) {
      FirstAttemptsSnoc(log, t, d);
    }
  }

  lemma RepeatAttemptStep(m: map<Edge, multiset<string>>, log: seq<Traversal>, t: Traversal)
    requires FirstAttemptCounts(m, log)
    requires t.student in StudentsOn(log, t.edge)
    ensures FirstAttemptCounts(m, log + [t])
  {
    forall e | e in m ensures m[e] == FirstAttempts(log + [t], e) {
      FirstAttemptsSnoc(log, t, e);
    }
  }

  lemma NodeSetsStep(m: map<string, set<string>>, log: seq<Traversal>, t: Traversal)
    requires NodeSets(m, log) && t.edge.0 in m
    ensures NodeSets(m[t.edge.0 := m[t.edge.0] + {t.student}], log + [t])
  {
    forall n | n in m { NodeStudentsSnoc(log, t, n); }
  }

  /** `m` is the largest count among `edges`, or 0 when there are none. */
  ghost predicate IsMaxCount(m: nat, counts: map<Edge, nat>, edges: set<Edge>)
  {
    && (forall e :: e in edges ==> e in counts && counts[e] <= m)
    && (edges == {} ==> m == 0)
    && (edges != {} ==> exists e :: e in edges && e in counts && counts[e] == m)
  }

  /** `Math.max(currentMax, count)` keeps the maximum when one edge's count grows. */
  lemma MaxStep(m: nat, counts: map<Edge, nat>, edges: set<Edge>, e: Edge, v: nat)
    requires IsMaxCount(m, counts, edges)
    requires e in counts ==> counts[e] <= v
    ensures IsMaxCount(if m < v then v else m, counts[e := v], edges + {e})
  {
    var m' := if m < v then v else m;
    var counts' := counts[e := v];
    if edges == {} {
      assert e in edges + {e} && counts'[e] == m';
    } else if m < v {
      assert e in edges + {e} && counts'[e] == m';
    } else {
      var w :| w in edges && w in counts && counts[w] == m;
      if w == e {
        assert counts'[e] == m';
      } else {
        assert counts'[w] == m';
      }
    }
  }

  /** The first-attempt outcomes after one more traversal:
      a student's repeat count is 0 exactly when they had not taken the edge. */
  lemma FirstsRecorded(firsts: map<Edge, multiset<string>>, repeats: map<Edge, multiset<string>>,
                       log: seq<Traversal>, t: Traversal, firsts': map<Edge, multiset<string>>)
    requires FirstAttemptCounts(firsts, log) && (t.edge !in firsts ==> t.edge !in EdgesOf(log))
    requires RepeatCounts(repeats, log) && t.edge in repeats
    requires firsts' == if repeats[t.edge][t.student] == 0
      then firsts[t.edge := (if t.edge in firsts then firsts[t.edge] else multiset{}) + multiset{t.outcome}]
      else firsts
    ensures FirstAttemptCounts(firsts', log + [t])
  {
    StudentFacts(log, t.edge);
    if repeats[t.edge][t.student] == 0 {
      FirstAttemptsStep(firsts, log, t);
    } else {
      RepeatAttemptStep(firsts, log, t);
    }
  }

  // ---------------------------------------------------------------------------
  // The tracking maps
  // ---------------------------------------------------------------------------

  /** The seven maps of `EdgeTrackingMaps`. A count map `Map<string, number>`
      is a multiset, a `Set<string>` a set. */
  datatype TrackingMaps = TrackingMaps(
    totalNodeEdges: map<string, set<string>>,
    edgeOutcomeCounts: map<Edge, multiset<string>>,
    edgeCounts: map<Edge, nat>,
    totalVisits: map<Edge, nat>,
    studentEdgeCounts: map<Edge, set<string>>,
    repeatVisits: map<Edge, multiset<string>>,
    firstAttemptOutcomes: map<Edge, multiset<string>>)

  /** initializeTrackingMaps */
  const EmptyMaps := TrackingMaps(map[], map[], map[], map[], map[], map[], map[])

  /** The lookups that updateEdgeMetrics makes with `!`: the lazily created
      entries of the edge and of its source step. */
  predicate HasEntries(m: TrackingMaps, e: Edge)
  {
    && e in m.studentEdgeCounts && e in m.totalVisits && e in m.repeatVisits
    && e in m.edgeOutcomeCounts && e.0 in m.totalNodeEdges
  }

  /** Every edge with a student set has all its entries. */
  ghost predicate Aligned(m: TrackingMaps)
  {
    forall e :: e in m.studentEdgeCounts ==> HasEntries(m, e)
  }

  /** initializeEdgeTracking on values: the empty entries of an edge without a
      student set, and an empty student set for a new source step. */
  function EnterEdge(m: TrackingMaps, edge: Edge): (r: TrackingMaps)
    ensures Aligned(m) ==> Aligned(r) && HasEntries(r, edge)
  {
    var isNew := edge !in m.studentEdgeCounts;
    TrackingMaps(
      if edge.0 in m.totalNodeEdges then m.totalNodeEdges else m.totalNodeEdges[edge.0 := {}],
      if isNew then m.edgeOutcomeCounts[edge := multiset{}] else m.edgeOutcomeCounts,
      m.edgeCounts,
      if isNew then m.totalVisits[edge := 0] else m.totalVisits,
      if isNew then m.studentEdgeCounts[edge := {}] else m.studentEdgeCounts,
      if isNew then m.repeatVisits[edge := multiset{}] else m.repeatVisits,
      m.firstAttemptOutcomes)
  }

  /** updateEdgeMetrics on values: one traversal of an edge with entries. */
  function RecordTraversal(m: TrackingMaps, t: Traversal): (r: TrackingMaps)
    requires HasEntries(m, t.edge)
    ensures Aligned(m) ==> Aligned(r)
  {
    var e := t.edge;
    var firsts := m.firstAttemptOutcomes;
    TrackingMaps(
      m.totalNodeEdges[e.0 := m.totalNodeEdges[e.0] + {t.student}],
      m.edgeOutcomeCounts[e := m.edgeOutcomeCounts[e] + multiset{t.outcome}],
      m.edgeCounts[e := |m.studentEdgeCounts[e] + {t.student}|],
      m.totalVisits[e := m.totalVisits[e] + 1],
      m.studentEdgeCounts[e := m.studentEdgeCounts[e] + {t.student}],
      m.repeatVisits[e := m.repeatVisits[e] + multiset{t.student}],
      if m.repeatVisits[e][t.student] == 0
      then firsts[e := (if e in firsts then firsts[e] else multiset{}) + multiset{t.outcome}]
      else firsts)
  }

  /** processStudentPaths on values: enter and record each traversal in turn. */
  function Processed(m: TrackingMaps, ts: seq<Traversal>): (r: TrackingMaps)
    requires Aligned(m)
    ensures Aligned(r)
  {
    if ts == [] then m
    else
      var t := ts[|ts| - 1];
      RecordTraversal(EnterEdge(Processed(m, ts[..|ts| - 1]), t.edge), t)
  }

  /** The `Math.max` of the distinct-student counts seen after each traversal. */
  function RunningMax(m: TrackingMaps, ts: seq<Traversal>): nat
    requires Aligned(m)
  {
    if ts == [] then 0
    else
      var prev := RunningMax(m, ts[..|ts| - 1]);
      var count := Processed(m, ts).edgeCounts[ts[|ts| - 1].edge];
      if prev < count then count else prev
  }

  lemma ProcessedSnoc(m: TrackingMaps, ts: seq<Traversal>, t: Traversal)
    requires Aligned(m)
    ensures Processed(m, ts + [t]) == RecordTraversal(EnterEdge(Processed(m, ts), t.edge), t)
    ensures var prev, count := RunningMax(m, ts), Processed(m, ts + [t]).edgeCounts[t.edge];
      RunningMax(m, ts + [t]) == if prev < count then count else prev
  {
    assert (ts + [t])[..|ts|] == ts;
  }

  // ---------------------------------------------------------------------------
  // What processing a log from empty maps leaves in each map
  // ---------------------------------------------------------------------------

  /** The six per-edge maps have exactly the keys `edges`. */
  ghost predicate KeysAre(m: TrackingMaps, edges: set<Edge>)
  {
    forall e ::
      && (e in m.studentEdgeCounts <==> e in edges)
      && (e in m.totalVisits <==> e in edges)
      && (e in m.repeatVisits <==> e in edges)
      && (e in m.edgeOutcomeCounts <==> e in edges)
      && (e in m.edgeCounts <==> e in edges)
      && (e in m.firstAttemptOutcomes <==> e in edges)
  }

  /** Entering and recording a traversal adds its edge to every per-edge map:
      a first traversal of the edge is also some student's first attempt. */
  lemma StepKeys(m: TrackingMaps, edges: set<Edge>, t: Traversal)
    requires Aligned(m) && KeysAre(m, edges)
    ensures KeysAre(RecordTraversal(EnterEdge(m, t.edge), t), edges + {t.edge})
  {
    if t.edge !in m.studentEdgeCounts {
      assert EnterEdge(m, t.edge).repeatVisits[t.edge] == multiset{};
    }
  }

  /** The per-edge maps have exactly the traversed edges as keys. */
  lemma {:induction false} ProcessedKeys(ts: seq<Traversal>)
    ensures KeysAre(Processed(EmptyMaps, ts), EdgesOf(ts))
  {
    if ts != [] {
      var init, t := ts[..|ts| - 1], ts[|ts| - 1];
      assert ts == init + [t];
      ProcessedKeys(init);
      ProcessedSnoc(EmptyMaps, init, t);
      StepKeys(Processed(EmptyMaps, init), EdgesOf(init), t);
      EdgesSnoc(init, t);
    }
  }

  /** Entering and recording a traversal extends the student sets of a log. */
  lemma StudentsEntered(m: TrackingMaps, log: seq<Traversal>, t: Traversal)
    requires Aligned(m) && StudentSets(m.studentEdgeCounts, log)
    requires t.edge !in m.studentEdgeCounts ==> t.edge !in EdgesOf(log)
    ensures StudentSets(RecordTraversal(EnterEdge(m, t.edge), t).studentEdgeCounts, log + [t])
  {
    var s := EnterEdge(m, t.edge).studentEdgeCounts;
    if t.edge !in m.studentEdgeCounts {
      Unvisited(log, t.edge);
    }
    StudentSetsStep(s, log, t);
  }

  /** studentEdgeCounts holds the distinct students of each edge. */
  lemma {:induction false} ProcessedStudents(ts: seq<Traversal>)
    ensures StudentSets(Processed(EmptyMaps, ts).studentEdgeCounts, ts)
  {
    if ts != [] {
      var init, t := ts[..|ts| - 1], ts[|ts| - 1];
      assert ts == init + [t];
      ProcessedStudents(init);
      ProcessedKeys(init);
      ProcessedSnoc(EmptyMaps, init, t);
      StudentsEntered(Processed(EmptyMaps, init), init, t);
    }
  }

  /** Entering and recording a traversal extends the visit counts of a log. */
  lemma VisitsEntered(m: TrackingMaps, log: seq<Traversal>, t: Traversal)
    requires Aligned(m) && VisitCounts(m.totalVisits, log)
    requires t.edge !in m.studentEdgeCounts ==> t.edge !in EdgesOf(log)
    ensures VisitCounts(RecordTraversal(EnterEdge(m, t.edge), t).totalVisits, log + [t])
  {
    var v := EnterEdge(m, t.edge).totalVisits;
    if t.edge !in m.studentEdgeCounts {
      Unvisited(log, t.edge);
    }
    VisitCountsStep(v, log, t);
  }

  /** totalVisits holds the number of traversals of each edge. */
  lemma {:induction false} ProcessedVisits(ts: seq<Traversal>)
    ensures VisitCounts(Processed(EmptyMaps, ts).totalVisits, ts)
  {
    if ts != [] {
      var init, t := ts[..|ts| - 1], ts[|ts| - 1];
      assert ts == init + [t];
      ProcessedVisits(init);
      ProcessedKeys(init);
      ProcessedSnoc(EmptyMaps, init, t);
      VisitsEntered(Processed(EmptyMaps, init), init, t);
    }
  }

  /** Entering and recording a traversal extends the repeat counts of a log. */
  lemma RepeatsEntered(m: TrackingMaps, log: seq<Traversal>, t: Traversal)
    requires Aligned(m) && RepeatCounts(m.repeatVisits, log)
    requires t.edge !in m.studentEdgeCounts ==> t.edge !in EdgesOf(log)
    ensures RepeatCounts(RecordTraversal(EnterEdge(m, t.edge), t).repeatVisits, log + [t])
  {
    var r := EnterEdge(m, t.edge).repeatVisits;
    if t.edge !in m.studentEdgeCounts {
      Unvisited(log, t.edge);
    }
    RepeatCountsStep(r, log, t);
  }

  /** repeatVisits holds the traversals of each edge per student. */
  lemma {:induction false} ProcessedRepeats(ts: seq<Traversal>)
    ensures RepeatCounts(Processed(EmptyMaps, ts).repeatVisits, ts)
  {
    if ts != [] {
      var init, t := ts[..|ts| - 1], ts[|ts| - 1];
      assert ts == init + [t];
      ProcessedRepeats(init);
      ProcessedKeys(init);
      ProcessedSnoc(EmptyMaps, init, t);
      RepeatsEntered(Processed(EmptyMaps, init), init, t);
    }
  }

  /** Entering and recording a traversal extends the outcome counts of a log. */
  lemma OutcomesEntered(m: TrackingMaps, log: seq<Traversal>, t: Traversal)
    requires Aligned(m) && OutcomeCounts(m.edgeOutcomeCounts, log)
    requires t.edge !in m.studentEdgeCounts ==> t.edge !in EdgesOf(log)
    ensures OutcomeCounts(RecordTraversal(EnterEdge(m, t.edge), t).edgeOutcomeCounts, log + [t])
  {
    var o := EnterEdge(m, t.edge).edgeOutcomeCounts;
    if t.edge !in m.studentEdgeCounts {
      Unvisited(log, t.edge);
    }
    OutcomeCountsStep(o, log, t);
  }

  /** edgeOutcomeCounts holds the traversals of each edge per outcome. */
  lemma {:induction false} ProcessedOutcomes(ts: seq<Traversal>)
    ensures OutcomeCounts(Processed(EmptyMaps, ts).edgeOutcomeCounts, ts)
  {
    if ts != [] {
      var init, t := ts[..|ts| - 1], ts[|ts| - 1];
      assert ts == init + [t];
      ProcessedOutcomes(init);
      ProcessedKeys(init);
      ProcessedSnoc(EmptyMaps, init, t);
      OutcomesEntered(Processed(EmptyMaps, init), init, t);
    }
  }

  /** Entering and recording a traversal extends the distinct-student counts
      of a log; the count of the traversed edge does not decrease. */
  lemma CountsEntered(m: TrackingMaps, log: seq<Traversal>, t: Traversal)
    requires Aligned(m) && DistinctCounts(m.edgeCounts, log) && StudentSets(m.studentEdgeCounts, log)
    requires t.edge !in m.studentEdgeCounts ==> t.edge !in EdgesOf(log)
    ensures var r := RecordTraversal(EnterEdge(m, t.edge), t);
      && DistinctCounts(r.edgeCounts, log + [t])
      && (t.edge in m.edgeCounts ==> m.edgeCounts[t.edge] <= r.edgeCounts[t.edge])
  {
    var s := EnterEdge(m, t.edge).studentEdgeCounts;
    if t.edge !in m.studentEdgeCounts {
      Unvisited(log, t.edge);
    }
    assert s[t.edge] == StudentsOn(log, t.edge);
    StudentsSnoc(log, t, t.edge);
    DistinctCountsStep(m.edgeCounts, log, t, |s[t.edge] + {t.student}|);
    DistinctCountGrows(m.edgeCounts, log, t, |s[t.edge] + {t.student}|);
  }

  /** edgeCounts holds the number of distinct students of each edge. */
  lemma {:induction false} ProcessedCounts(ts: seq<Traversal>)
    ensures DistinctCounts(Processed(EmptyMaps, ts).edgeCounts, ts)
  {
    if ts != [] {
      var init, t := ts[..|ts| - 1], ts[|ts| - 1];
      assert ts == init + [t];
      ProcessedCounts(init);
      ProcessedStudents(init);
      ProcessedKeys(init);
      ProcessedSnoc(EmptyMaps, init, t);
      CountsEntered(Processed(EmptyMaps, init), init, t);
    }
  }

  /** Entering and recording a traversal extends the first-attempt outcomes
      of a log. */
  lemma FirstsEntered(m: TrackingMaps, log: seq<Traversal>, t: Traversal)
    requires Aligned(m) && FirstAttemptCounts(m.firstAttemptOutcomes, log) && RepeatCounts(m.repeatVisits, log)
    requires t.edge !in m.studentEdgeCounts ==> t.edge !in EdgesOf(log)
    requires t.edge !in m.firstAttemptOutcomes ==> t.edge !in EdgesOf(log)
    ensures FirstAttemptCounts(RecordTraversal(EnterEdge(m, t.edge), t).firstAttemptOutcomes, log + [t])
  {
    var r := EnterEdge(m, t.edge).repeatVisits;
    if t.edge !in m.studentEdgeCounts {
      Unvisited(log, t.edge);
    }
    assert RepeatCounts(r, log);
    FirstsRecorded(m.firstAttemptOutcomes, r, log, t, RecordTraversal(EnterEdge(m, t.edge), t).firstAttemptOutcomes);
  }

  /** firstAttemptOutcomes holds the outcomes of the first attempts at each edge. */
  lemma {:induction false} ProcessedFirsts(ts: seq<Traversal>)
    ensures FirstAttemptCounts(Processed(EmptyMaps, ts).firstAttemptOutcomes, ts)
  {
    if ts != [] {
      var init, t := ts[..|ts| - 1], ts[|ts| - 1];
      assert ts == init + [t];
      ProcessedFirsts(init);
      ProcessedRepeats(init);
      ProcessedKeys(init);
      ProcessedSnoc(EmptyMaps, init, t);
      FirstsEntered(Processed(EmptyMaps, init), init, t);
    }
  }

  /** Entering and recording a traversal extends the node sets of a log. */
  lemma NodesEntered(m: TrackingMaps, log: seq<Traversal>, t: Traversal)
    requires Aligned(m) && NodeSets(m.totalNodeEdges, log)
    requires forall d :: d in EdgesOf(log) ==> d in m.studentEdgeCounts
    ensures NodeSets(RecordTraversal(EnterEdge(m, t.edge), t).totalNodeEdges, log + [t])
  {
    var nodes := EnterEdge(m, t.edge).totalNodeEdges;
    if t.edge.0 !in m.totalNodeEdges {
      forall d | d in EdgesOf(log) ensures d.0 != t.edge.0 {
        assert HasEntries(m, d);
      }
      NodeStudentsUnused(log, t.edge.0);
    }
    assert NodeSets(nodes, log);
    NodeSetsStep(nodes, log, t);
  }

  /** `n` is the source of some traversed edge. */
  ghost predicate LeftStep(log: seq<Traversal>, n: string)
  {
    exists e :: e in EdgesOf(log) && e.0 == n
  }

  lemma LeftStepSnoc(log: seq<Traversal>, t: Traversal, n: string)
    ensures LeftStep(log + [t], n) <==> LeftStep(log, n) || t.edge.0 == n
  {
    EdgesSnoc(log, t);
    if LeftStep(log + [t], n) && t.edge.0 != n {
      var e :| e in EdgesOf(log + [t]) && e.0 == n;
      assert e in EdgesOf(log);
    }
    if t.edge.0 == n {
      assert t.edge in EdgesOf(log + [t]);
    }
  }

  /** Entering and recording a traversal adds exactly its source step. */
  lemma NodeKeysEntered(m: TrackingMaps, t: Traversal)
    requires Aligned(m)
    ensures RecordTraversal(EnterEdge(m, t.edge), t).totalNodeEdges.Keys == m.totalNodeEdges.Keys + {t.edge.0}
  {
  }

  /** totalNodeEdges holds the distinct students who left each step. */
  lemma {:induction false} ProcessedNodes(ts: seq<Traversal>)
    ensures NodeSets(Processed(EmptyMaps, ts).totalNodeEdges, ts)
  {
    if ts != [] {
      var init, t := ts[..|ts| - 1], ts[|ts| - 1];
      assert ts == init + [t];
      ProcessedNodes(init);
      ProcessedKeys(init);
      ProcessedSnoc(EmptyMaps, init, t);
      NodesEntered(Processed(EmptyMaps, init), init, t);
    }
  }

  /** totalNodeEdges has an entry for exactly the steps some traversal left. */
  lemma {:induction false} ProcessedNodeKeys(ts: seq<Traversal>)
    ensures forall n :: n in Processed(EmptyMaps, ts).totalNodeEdges <==> LeftStep(ts, n)
  {
    if ts != [] {
      var init, t := ts[..|ts| - 1], ts[|ts| - 1];
      assert ts == init + [t];
      ProcessedNodeKeys(init);
      ProcessedSnoc(EmptyMaps, init, t);
      NodeKeysEntered(Processed(EmptyMaps, init), t);
      forall n ensures LeftStep(ts, n) <==> LeftStep(init, n) || t.edge.0 == n {
        LeftStepSnoc(init, t, n);
      }
    }
  }

  /** The running maximum is the largest distinct-student count among the
      traversed edges, or 0 when there are none. */
  lemma {:induction false} ProcessedMax(ts: seq<Traversal>)
    ensures IsMaxCount(RunningMax(EmptyMaps, ts), Processed(EmptyMaps, ts).edgeCounts, EdgesOf(ts))
  {
    if ts != [] {
      var init, t := ts[..|ts| - 1], ts[|ts| - 1];
      assert ts == init + [t];
      var p := Processed(EmptyMaps, init);
      ProcessedMax(init);
      ProcessedCounts(init);
      ProcessedStudents(init);
      ProcessedKeys(init);
      ProcessedSnoc(EmptyMaps, init, t);
      CountsEntered(p, init, t);
      var v := Processed(EmptyMaps, ts).edgeCounts[t.edge];
      MaxStep(RunningMax(EmptyMaps, init), p.edgeCounts, EdgesOf(init), t.edge, v);
      EdgesSnoc(init, t);
    }
  }

  /** The tracking object that the edge-counting functions update in place. */
  class EdgeTrackingMaps {
    var maps: TrackingMaps

    /** initializeTrackingMaps */
    constructor ()
      ensures maps == EmptyMaps
    {
      maps := EmptyMaps;
    }

    /** initializeEdgeTracking */
    method InitializeEdgeTracking(edge: Edge)
      modifies this
      ensures maps == EnterEdge(old(maps), edge)
    {
      if edge !in maps.studentEdgeCounts {
        maps := maps.(studentEdgeCounts := maps.studentEdgeCounts[edge := {}]);
        maps := maps.(totalVisits := maps.totalVisits[edge := 0]);
        maps := maps.(repeatVisits := maps.repeatVisits[edge := multiset{}]);
        maps := maps.(edgeOutcomeCounts := maps.edgeOutcomeCounts[edge := multiset{}]);
      }
      if edge.0 !in maps.totalNodeEdges {
        maps := maps.(totalNodeEdges := maps.totalNodeEdges[edge.0 := {}]);
      }
    }

    /** updateEdgeMetrics: records one traversal and returns the updated maximum. */
    method UpdateEdgeMetrics(edge: Edge, studentId: string, outcome: string, currentMaxEdgeCount: nat)
      returns (newMaxEdgeCount: nat)
      requires HasEntries(maps, edge)
      modifies this
      ensures maps == RecordTraversal(old(maps), Traversal(edge, studentId, outcome))
      ensures newMaxEdgeCount == if currentMaxEdgeCount < maps.edgeCounts[edge] then maps.edgeCounts[edge] else currentMaxEdgeCount
    {
      var m := maps;
      var students := m.studentEdgeCounts[edge := m.studentEdgeCounts[edge] + {studentId}];
      var nodes := m.totalNodeEdges[edge.0 := m.totalNodeEdges[edge.0] + {studentId}];
      var visits := m.totalVisits[edge := m.totalVisits[edge] + 1];

      var edgeRepeatVisits := m.repeatVisits[edge];
      var currentRepeatCount := edgeRepeatVisits[studentId] + 1;
      var repeats := m.repeatVisits[edge := edgeRepeatVisits + multiset{studentId}];

      var firsts := m.firstAttemptOutcomes;
      if currentRepeatCount == 1 {
        // a missing entry reads as an empty count map
        var firstAttemptMap := if edge in firsts then firsts[edge] else multiset{};
        firsts := firsts[edge := firstAttemptMap + multiset{outcome}];
      }

      var currentEdgeCount := |students[edge]|;
      var counts := m.edgeCounts[edge := currentEdgeCount];
      newMaxEdgeCount := if currentMaxEdgeCount < currentEdgeCount then currentEdgeCount else currentMaxEdgeCount;

      var outcomeMap := m.edgeOutcomeCounts[edge];
      var outcomes := m.edgeOutcomeCounts[edge := outcomeMap + multiset{outcome}];
      maps := TrackingMaps(nodes, outcomes, counts, visits, students, repeats, firsts);
    }

    /** processStudentPaths: every consecutive step pair of every combination
        is one traversal, entered and then recorded; returns the running
        maximum of the distinct-student counts. */
    method ProcessStudentPaths(combinations: seq<Combination>) returns (maxEdgeCount: nat)
      requires Aligned(maps)
      modifies this
      ensures maps == Processed(old(maps), AllTraversals(combinations))
      ensures maxEdgeCount == RunningMax(old(maps), AllTraversals(combinations))
    {
      ghost var m0 := maps;
      maxEdgeCount := 0;
      for k := 0 to |combinations|
        invariant maps == Processed(m0, AllTraversals(combinations[..k]))
        invariant maxEdgeCount == RunningMax(m0, AllTraversals(combinations[..k]))
      {
        var c := combinations[k];
        ghost var done := AllTraversals(combinations[..k]);
        assert done + PathTraversals(c, 0) == done;
        var i := 0;
        while i + 1 < |c.steps|
          invariant i <= EdgeSlots(c.steps)
          invariant maps == Processed(m0, done + PathTraversals(c, i))
          invariant maxEdgeCount == RunningMax(m0, done + PathTraversals(c, i))
        {
          var currentStep := c.steps[i];
          var nextStep := c.steps[i + 1];
          var outcome := OutcomeAt(c.outcomes, i + 1);
          var edge := (currentStep, nextStep);
          InitializeEdgeTracking(edge);
          maxEdgeCount := UpdateEdgeMetrics(edge, c.student, outcome, maxEdgeCount);
          PathStep(done, c, i);
          ProcessedSnoc(m0, done + PathTraversals(c, i), TraversalAt(c, i));
          i := i + 1;
        }
        assert i == EdgeSlots(c.steps);
        AllTraversalsPrefix(combinations, k);
      }
      assert combinations[..|combinations|] == combinations;
    }
  }

  /** convertMapsToObjects, integer parts: the student sets become their
      sizes and the count maps are copied. */
  function ConvertMapsToObjects(m: TrackingMaps, maxEdgeCount: nat, topSequences: seq<SequenceCount>): EdgeAnalytics
  {
    EdgeAnalytics(
      m.edgeCounts,
      NodeSizes(m.totalNodeEdges),
      m.edgeOutcomeCounts,
      maxEdgeCount,
      m.totalVisits,
      m.repeatVisits,
      topSequences,
      m.firstAttemptOutcomes)
  }

  /** The result of countEdges without the floating-point `ratioEdges`. */
  datatype EdgeAnalytics = EdgeAnalytics(
    edgeCounts: map<Edge, nat>,
    totalNodeEdges: map<string, nat>,
    edgeOutcomeCounts: map<Edge, multiset<string>>,
    maxEdgeCount: nat,
    totalVisits: map<Edge, nat>,
    repeatVisits: map<Edge, multiset<string>>,
    topSequences: seq<SequenceCount>,
    firstAttemptOutcomes: map<Edge, multiset<string>>)

  /** The student sets of the steps become their sizes. */
  function NodeSizes(nodes: map<string, set<string>>): (r: map<string, nat>)
    ensures forall n :: n in r <==> n in nodes
    ensures forall n :: n in r ==> r[n] == |nodes[n]|
  {
    map n | n in nodes :: |nodes[n]|
  }

  /** The per-edge metrics countEdges promises for a traversal log. */
  ghost predicate EdgesDescribe(r: EdgeAnalytics, log: seq<Traversal>)
  {
    && (forall e ::
          && (e in r.edgeCounts <==> e in EdgesOf(log))
          && (e in r.totalVisits <==> e in EdgesOf(log))
          && (e in r.repeatVisits <==> e in EdgesOf(log))
          && (e in r.edgeOutcomeCounts <==> e in EdgesOf(log))
          && (e in r.firstAttemptOutcomes <==> e in EdgesOf(log)))
    && (forall e :: e in r.edgeCounts ==>
          && r.edgeCounts[e] == |StudentsOn(log, e)|
          && r.totalVisits[e] == Visits(log, e)
          && r.repeatVisits[e] == RepeatVisits(log, e)
          && r.edgeOutcomeCounts[e] == OutcomesOn(log, e)
          && r.firstAttemptOutcomes[e] == FirstAttempts(log, e))
    && IsMaxCount(r.maxEdgeCount, r.edgeCounts, EdgesOf(log))
  }

  /** The per-step counts countEdges promises: the sources of the traversed
      edges, and only they, have an entry, holding the number of students
      who left it. */
  ghost predicate NodesDescribe(r: EdgeAnalytics, log: seq<Traversal>)
  {
    && (forall n :: n in r.totalNodeEdges <==> LeftStep(log, n))
    && (forall n :: n in r.totalNodeEdges ==> r.totalNodeEdges[n] == |NodeStudents(log, n)|)
  }

  ghost predicate DescribesLog(r: EdgeAnalytics, log: seq<Traversal>)
  {
    EdgesDescribe(r, log) && NodesDescribe(r, log)
  }

  /** The maps after processing a log from scratch, converted, describe it. */
  lemma ConvertedDescribes(ts: seq<Traversal>, top: seq<SequenceCount>)
    ensures Aligned(EmptyMaps)
    ensures DescribesLog(ConvertMapsToObjects(Processed(EmptyMaps, ts), RunningMax(EmptyMaps, ts), top), ts)
  {
    var p := Processed(EmptyMaps, ts);
    ProcessedKeys(ts);
    ProcessedStudents(ts);
    ProcessedVisits(ts);
    ProcessedRepeats(ts);
    ProcessedOutcomes(ts);
    ProcessedCounts(ts);
    ProcessedFirsts(ts);
    ProcessedNodes(ts);
    ProcessedNodeKeys(ts);
    ProcessedMax(ts);
  }

  /** countEdges: the metrics of every traversal of every (student, problem)
      pair with at least two steps, and the five most frequent sequences. */
  method CountEdges(stepTable: Table, outcomeTable: Table) returns (r: EdgeAnalytics)
    ensures DescribesLog(r, AllTraversals(Combinations(Paths(stepTable), outcomeTable)))
    ensures r.topSequences == TopOf(Tally(ItemLists(Paths(stepTable))), 5)
  {
    var combinations := PrepareStudentProblemCombinations(stepTable, outcomeTable);
    var trackingMaps := new EdgeTrackingMaps();
    var topSequences := GetTopSequences(stepTable, 5);
    ConvertedDescribes(AllTraversals(combinations), topSequences);
    var maxEdgeCount := trackingMaps.ProcessStudentPaths(combinations);
    r := ConvertMapsToObjects(trackingMaps.maps, maxEdgeCount, topSequences);
  }

  /** Over everything countEdges reports, per edge: distinct students never
      exceed visits, the repeat counts and the outcome counts each add up to
      the visits, and the first-attempt outcomes add up to the students. */
  lemma CountEdgesMetrics(r: EdgeAnalytics, log: seq<Traversal>, e: Edge)
    requires DescribesLog(r, log) && e in r.edgeCounts
    ensures r.edgeCounts[e] <= r.totalVisits[e]
    ensures |r.repeatVisits[e]| == r.totalVisits[e]
    ensures |r.edgeOutcomeCounts[e]| == r.totalVisits[e]
    ensures |r.firstAttemptOutcomes[e]| == r.edgeCounts[e]
    ensures r.totalVisits[e] > 0
  {
    EdgeMetricsFacts(log, e);
  }
}
