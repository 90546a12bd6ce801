/** countEdgesForSelectedSequence and containsSequence (GraphvizProcessing.ts,
    section 3): the edge metrics restricted to the edges between consecutive
    steps of one selected sequence. Each (student, problem) pair contributes,
    for each position of the selected sequence, at most the first traversal
    of that position's edge in its own steps. In the progressive mode a
    position counts only for pairs whose steps contain the selected sequence
    up to and including that edge, and the step counts are replaced by the
    students who reached each position. */
module SelectedSequence {
  import opened Seqs
  import opened Tables
  import opened EdgeTracking

  // ---------------------------------------------------------------------------
  // containsSequence
  // ---------------------------------------------------------------------------

  /** containsSequence: the nested search for a contiguous occurrence. */
  method ContainsSequence(sequence: seq<string>, subsequence: seq<string>) returns (found: bool)
    ensures found <==> HasSlice(sequence, subsequence)
  {
    if |subsequence| == 0 {
      assert OccursAt(sequence, subsequence, 0);
      return true;
    }
    if |sequence| < |subsequence| {
      return false;
    }
    var i := 0;
    while i <= |sequence| - |subsequence|
      invariant 0 <= i <= |sequence| - |subsequence| + 1
      invariant forall k :: 0 <= k < i ==> !OccursAt(sequence, subsequence, k)
    {
      var matches := true;
      var j := 0;
      while j < |subsequence|
        invariant 0 <= j <= |subsequence| && matches
        invariant forall k :: 0 <= k < j ==> sequence[i + k] == subsequence[k]
      {
        if sequence[i + j] != subsequence[j] {
          matches := false;
          break;
        }
        j := j + 1;
      }
      if matches {
        assert sequence[i..i + |subsequence|] == subsequence;
        assert OccursAt(sequence, subsequence, i);
        return true;
      }
      assert sequence[i..i + |subsequence|][j] != subsequence[j];
      i := i + 1;
    }
    return false;
  }

  /** The two early answers of containsSequence: the empty sequence occurs
      everywhere, and nothing longer than the sequence occurs in it. */
  lemma ContainsEdgeCases(sequence: seq<string>, subsequence: seq<string>)
    ensures subsequence == [] ==> HasSlice(sequence, subsequence)
    ensures |sequence| < |subsequence| ==> !HasSlice(sequence, subsequence)
  {
    if subsequence == [] {
      assert OccursAt(sequence, subsequence, 0);
    }
  }

  // ---------------------------------------------------------------------------
  // The first traversal of an edge in a path
  // ---------------------------------------------------------------------------

  /** Steps `i` and `i + 1` of the path are the edge `e`. */
  predicate IsEdgeAt(steps: seq<string>, e: Edge, i: int)
  {
    0 <= i && i + 1 < |steps| && steps[i] == e.0 && steps[i + 1] == e.1
  }

  /** The first index from `from` at which the path takes the edge `e`, or -1. */
  function FirstEdgeFrom(steps: seq<string>, e: Edge, from: nat): (r: int)
    ensures r == -1 || (from <= r && IsEdgeAt(steps, e, r))
    ensures forall j :: from <= j && (r == -1 || j < r) ==> !IsEdgeAt(steps, e, j)
    decreases |steps| - from
  {
    if from + 1 >= |steps| then -1
    else if steps[from] == e.0 && steps[from + 1] == e.1 then from
    else FirstEdgeFrom(steps, e, from + 1)
  }

  /** The loop `for (i = 0; i < steps.length - 1; i++) if (...) { ...; break; }`
      that looks for the first traversal of an edge. */
  method FindEdge(steps: seq<string>, e: Edge) returns (i: int)
    ensures i == FirstEdgeFrom(steps, e, 0)
  {
    var k := 0;
    while k + 1 < |steps|
      invariant FirstEdgeFrom(steps, e, k) == FirstEdgeFrom(steps, e, 0)
      decreases |steps| - k
    {
      if steps[k] == e.0 && steps[k + 1] == e.1 {
        return k;
      }
      k := k + 1;
    }
    return -1;
  }

  // ---------------------------------------------------------------------------
  // The traversals that are counted
  // ---------------------------------------------------------------------------

  /** The traversal counted for position `k` of the selected sequence: the
      first traversal of its edge, when the pair's steps take that edge and,
      in the progressive mode, contain the selected sequence up to it. */
  ghost function SelectedAt(c: Combination, sel: seq<string>, progressive: bool, k: nat): seq<Traversal>
    requires k + 1 < |sel|
  {
    var e := (sel[k], sel[k + 1]);
    var i := FirstEdgeFrom(c.steps, e, 0);
    if (progressive ==> HasSlice(c.steps, sel[..k + 2])) && i >= 0
    then [Traversal(e, c.student, OutcomeAt(c.outcomes, i + 1))]
    else []
  }

  /** The traversals counted for the first `n` positions. */
  ghost function SelectedTraversals(c: Combination, sel: seq<string>, progressive: bool, n: nat): (r: seq<Traversal>)
    requires n <= EdgeSlots(sel)
  {
    if n == 0 then []
    else SelectedTraversals(c, sel, progressive, n - 1) + SelectedAt(c, sel, progressive, n - 1)
  }

  /** All traversals counted, pair after pair. */
  ghost function SelectedLog(cs: seq<Combination>, sel: seq<string>, progressive: bool): seq<Traversal>
  {
    if cs == [] then []
    else SelectedLog(cs[..|cs| - 1], sel, progressive) + SelectedTraversals(cs[|cs| - 1], sel, progressive, EdgeSlots(sel))
  }

  lemma SelectedLogPrefix(cs: seq<Combination>, k: nat, sel: seq<string>, progressive: bool)
    requires k < |cs|
    ensures SelectedLog(cs[..k + 1], sel, progressive) ==
            SelectedLog(cs[..k], sel, progressive) + SelectedTraversals(cs[k], sel, progressive, EdgeSlots(sel))
  {
    assert cs[..k + 1][..k] == cs[..k];
  }

  /** The edge from step `k` to step `k + 1` of the selected sequence. */
  function EdgeOfPosition(sel: seq<string>, k: nat): Edge
    requires k + 1 < |sel|
  {
    (sel[k], sel[k + 1])
  }

  /** The edges between consecutive steps of the selected sequence. */
  ghost function SequenceEdges(sel: seq<string>): set<Edge>
  {
    set k | 0 <= k < |sel| - 1 :: EdgeOfPosition(sel, k)
  }

  /** The number of the first `n` positions of the selected sequence whose edge is `e`. */
  function PositionsOf(sel: seq<string>, e: Edge, n: nat): nat
    requires n <= EdgeSlots(sel)
  {
    if n == 0 then 0
    else PositionsOf(sel, e, n - 1) + if (sel[n - 1], sel[n]) == e then 1 else 0
  }

  lemma {:induction false} EdgesAppend(a: seq<Traversal>, b: seq<Traversal>)
    ensures EdgesOf(a + b) == EdgesOf(a) + EdgesOf(b)
  {
    if b != [] {
      var init, t := b[..|b| - 1], b[|b| - 1];
      assert b == init + [t];
      EdgesAppend(a, init);
      assert a + b == (a + init) + [t];
      EdgesSnoc(a + init, t);
      EdgesSnoc(init, t);
    } else {
      assert a + b == a;
    }
  }

  lemma {:induction false} VisitsAppend(a: seq<Traversal>, b: seq<Traversal>, e: Edge)
    ensures Visits(a + b, e) == Visits(a, e) + Visits(b, e)
  {
    if b != [] {
      var init, t := b[..|b| - 1], b[|b| - 1];
      assert b == init + [t];
      VisitsAppend(a, init, e);
      assert a + b == (a + init) + [t];
      VisitsSnoc(a + init, t, e);
      VisitsSnoc(init, t, e);
    } else {
      assert a + b == a;
    }
  }

  /** A position contributes at most one traversal, of that position's edge. */
  lemma SelectedAtEdge(c: Combination, sel: seq<string>, progressive: bool, k: nat)
    requires k + 1 < |sel|
    ensures var here := SelectedAt(c, sel, progressive, k);
      && (here == [] ==> EdgesOf(here) == {})
      && (here != [] ==> here == [] + [here[0]] && here[0].edge == EdgeOfPosition(sel, k)
                         && EdgesOf(here) == {EdgeOfPosition(sel, k)})
  {
    var here := SelectedAt(c, sel, progressive, k);
    if here != [] {
      assert here == [] + [here[0]];
      EdgesSnoc([], here[0]);
    }
  }

  /** One pair's traversals are on the selected sequence's edges. */
  lemma {:induction false} PairEdges(c: Combination, sel: seq<string>, progressive: bool, n: nat)
    requires n <= EdgeSlots(sel)
    ensures EdgesOf(SelectedTraversals(c, sel, progressive, n)) <= SequenceEdges(sel)
  {
    if n > 0 {
      PairEdges(c, sel, progressive, n - 1);
      var prev := SelectedTraversals(c, sel, progressive, n - 1);
      var here := SelectedAt(c, sel, progressive, n - 1);
      EdgesAppend(prev, here);
      SelectedAtEdge(c, sel, progressive, n - 1);
      assert EdgeOfPosition(sel, n - 1) in SequenceEdges(sel);
    }
  }

  /** One pair counts an edge at most once per position where it occurs. */
  lemma {:induction false} PairVisits(c: Combination, sel: seq<string>, progressive: bool, n: nat, e: Edge)
    requires n <= EdgeSlots(sel)
    ensures Visits(SelectedTraversals(c, sel, progressive, n), e) <= PositionsOf(sel, e, n)
  {
    if n > 0 {
      PairVisits(c, sel, progressive, n - 1, e);
      var prev := SelectedTraversals(c, sel, progressive, n - 1);
      var here := SelectedAt(c, sel, progressive, n - 1);
      VisitsAppend(prev, here, e);
      if here != [] {
        assert here == [] + [here[0]];
        VisitsSnoc([], here[0], e);
      }
    }
  }

  /** Only the edges between consecutive steps of the selected sequence are
      counted. */
  lemma {:induction false} SelectedEdgesOnSequence(cs: seq<Combination>, sel: seq<string>, progressive: bool)
    ensures EdgesOf(SelectedLog(cs, sel, progressive)) <= SequenceEdges(sel)
  {
    if cs != [] {
      var init, c := cs[..|cs| - 1], cs[|cs| - 1];
      SelectedEdgesOnSequence(init, sel, progressive);
      var here := SelectedTraversals(c, sel, progressive, EdgeSlots(sel));
      PairEdges(c, sel, progressive, EdgeSlots(sel));
      EdgesAppend(SelectedLog(init, sel, progressive), here);
    }
  }

  lemma MulStep(a: nat, b: nat)
    ensures (a + 1) * b == a * b + b
  {
  }

  /** Each (student, problem) pair counts an edge at most once per position
      of the selected sequence where that edge occurs. */
  lemma {:induction false} SelectedVisitsBounded(cs: seq<Combination>, sel: seq<string>, progressive: bool, e: Edge)
    ensures Visits(SelectedLog(cs, sel, progressive), e) <= |cs| * PositionsOf(sel, e, EdgeSlots(sel))
  {
    if cs != [] {
      var init, c := cs[..|cs| - 1], cs[|cs| - 1];
      var bound := PositionsOf(sel, e, EdgeSlots(sel));
      SelectedVisitsBounded(init, sel, progressive, e);
      var here := SelectedTraversals(c, sel, progressive, EdgeSlots(sel));
      PairVisits(c, sel, progressive, EdgeSlots(sel), e);
      VisitsAppend(SelectedLog(init, sel, progressive), here, e);
      assert |cs| == |init| + 1;
      MulStep(|init|, bound);
    }
  }

  /** The progressive mode counts a subsequence of what the all-students
      mode counts: it only drops traversals, in the same order. */
  lemma {:induction false} PairProgressiveSubseq(c: Combination, sel: seq<string>, n: nat)
    requires n <= EdgeSlots(sel)
    ensures IsSubseq(SelectedTraversals(c, sel, true, n), SelectedTraversals(c, sel, false, n))
  {
    if n > 0 {
      PairProgressiveSubseq(c, sel, n - 1);
      var here := SelectedAt(c, sel, false, n - 1);
      if SelectedAt(c, sel, true, n - 1) == here {
        SubseqRefl(here);
      }
      SubseqAppend(SelectedTraversals(c, sel, true, n - 1), SelectedTraversals(c, sel, false, n - 1),
                   SelectedAt(c, sel, true, n - 1), here);
    }
  }

  lemma {:induction false} ProgressiveSubseq(cs: seq<Combination>, sel: seq<string>)
    ensures IsSubseq(SelectedLog(cs, sel, true), SelectedLog(cs, sel, false))
  {
    if cs != [] {
      var init, c := cs[..|cs| - 1], cs[|cs| - 1];
      ProgressiveSubseq(init, sel);
      PairProgressiveSubseq(c, sel, EdgeSlots(sel));
      SubseqAppend(SelectedLog(init, sel, true), SelectedLog(init, sel, false),
                   SelectedTraversals(c, sel, true, EdgeSlots(sel)), SelectedTraversals(c, sel, false, EdgeSlots(sel)));
    }
  }

  // ---------------------------------------------------------------------------
  // The students who reached each position (progressive mode)
  // ---------------------------------------------------------------------------

  /** The steps contain the selected sequence up to and including position `pos`. */
  ghost predicate Reaches(steps: seq<string>, sel: seq<string>, pos: nat)
    requires pos < |sel|
  {
    HasSlice(steps, sel[..pos + 1])
  }

  /** The students of the pairs whose steps reach position `pos`
      (`studentsAtSequencePosition`). */
  ghost function Reaching(cs: seq<Combination>, sel: seq<string>, pos: nat): set<string>
    requires pos < |sel|
  {
    if cs == [] then {}
    else
      var c := cs[|cs| - 1];
      Reaching(cs[..|cs| - 1], sel, pos) + if Reaches(c.steps, sel, pos) then {c.student} else {}
  }

  ghost function PositionSets(cs: seq<Combination>, sel: seq<string>): (r: seq<set<string>>)
    ensures |r| == |sel|
  {
    seq(|sel|, pos requires 0 <= pos < |sel| => Reaching(cs, sel, pos))
  }

  lemma ReachingPrefix(cs: seq<Combination>, k: nat, sel: seq<string>, pos: nat)
    requires k < |cs| && pos < |sel|
    ensures Reaching(cs[..k + 1], sel, pos) ==
            Reaching(cs[..k], sel, pos) + if Reaches(cs[k].steps, sel, pos) then {cs[k].student} else {}
  {
    assert cs[..k + 1][..k] == cs[..k];
  }

  /** A student who reached a position reached every earlier one. */
  lemma {:induction false} ProgressiveShrinks(cs: seq<Combination>, sel: seq<string>, pos: nat)
    requires pos + 1 < |sel|
    ensures Reaching(cs, sel, pos + 1) <= Reaching(cs, sel, pos)
  {
    if cs != [] {
      var c := cs[|cs| - 1];
      ProgressiveShrinks(cs[..|cs| - 1], sel, pos);
      if Reaches(c.steps, sel, pos + 1) {
        HasSlicePrefix(c.steps, sel[..pos + 2], pos + 1);
        assert sel[..pos + 2][..pos + 1] == sel[..pos + 1];
      }
    }
  }

  /** Records one pair in `studentsAtSequencePosition`: every position if it
      contains the whole sequence, otherwise each position whose prefix it
      contains. */
  method MarkPositions(studentsAt: seq<set<string>>, c: Combination, sel: seq<string>) returns (r: seq<set<string>>)
    requires |studentsAt| == |sel|
    ensures |r| == |sel|
    ensures forall pos :: 0 <= pos < |sel| ==>
      r[pos] == studentsAt[pos] + if Reaches(c.steps, sel, pos) then {c.student} else {}
  {
    r := studentsAt;
    var fullSequenceMatch := ContainsSequence(c.steps, sel);
    if fullSequenceMatch {
      for pos := 0 to |sel|
        invariant |r| == |sel|
        invariant forall q :: 0 <= q < pos ==> r[q] == studentsAt[q] + {c.student}
        invariant forall q :: pos <= q < |sel| ==> r[q] == studentsAt[q]
      {
        r := r[pos := r[pos] + {c.student}];
      }
      forall pos | 0 <= pos < |sel| ensures Reaches(c.steps, sel, pos) {
        HasSlicePrefix(c.steps, sel, pos + 1);
      }
    } else {
      for pos := 0 to |sel|
        invariant |r| == |sel|
        invariant forall q :: 0 <= q < pos ==>
          r[q] == studentsAt[q] + if Reaches(c.steps, sel, q) then {c.student} else {}
        invariant forall q :: pos <= q < |sel| ==> r[q] == studentsAt[q]
      {
        var partialSequence := sel[..pos + 1];
        var reached := ContainsSequence(c.steps, partialSequence);
        if reached {
          r := r[pos := r[pos] + {c.student}];
        }
      }
    }
  }

  // ---------------------------------------------------------------------------
  // The step counts of the progressive mode
  // ---------------------------------------------------------------------------

  /** `totalNodeEdges.clear()` followed by `set(selectedSequence[i], sets[i])`
      for the first `n` positions. */
  function PositionMap(sel: seq<string>, sets: seq<set<string>>, n: nat): map<string, set<string>>
    requires n <= |sel| && |sets| == |sel|
  {
    if n == 0 then map[] else PositionMap(sel, sets, n - 1)[sel[n - 1] := sets[n - 1]]
  }

  /** The overwritten step map has exactly the steps of the sequence as keys,
      and a step that occurs more than once keeps the set of its last
      position. */
  lemma {:induction false} PositionMapLast(sel: seq<string>, sets: seq<set<string>>, n: nat)
    requires n <= |sel| && |sets| == |sel|
    ensures forall x :: x in PositionMap(sel, sets, n) <==> x in sel[..n]
    ensures forall i :: 0 <= i < n && (forall j :: i < j < n ==> sel[j] != sel[i]) ==>
      PositionMap(sel, sets, n)[sel[i]] == sets[i]
  {
    if n > 0 {
      PositionMapLast(sel, sets, n - 1);
      assert sel[..n] == sel[..n - 1] + [sel[n - 1]];
    }
  }

  /** The loop that writes the position sets into the step map. */
  method PositionNodes(sel: seq<string>, studentsAt: seq<set<string>>) returns (nodes: map<string, set<string>>)
    requires |studentsAt| == |sel|
    ensures nodes == PositionMap(sel, studentsAt, |sel|)
  {
    nodes := map[];
    for i := 0 to |sel|
      invariant nodes == PositionMap(sel, studentsAt, i)
    {
      nodes := nodes[sel[i] := studentsAt[i]];
    }
  }

  // ---------------------------------------------------------------------------
  // countEdgesForSelectedSequence
  // ---------------------------------------------------------------------------

  /** What one position adds to the counted traversals, in terms of the
      path test `onPath` and the index found by the edge search (-1 when the
      search is skipped or fails). */
  lemma SelectedStep(done: seq<Traversal>, counted: seq<Traversal>, c: Combination, sel: seq<string>,
                     progressive: bool, k: nat, onPath: bool, i: int)
    requires k + 1 < |sel|
    requires counted == done + SelectedTraversals(c, sel, progressive, k)
    requires onPath == (progressive ==> HasSlice(c.steps, sel[..k + 2]))
    requires onPath ==> i == FirstEdgeFrom(c.steps, (sel[k], sel[k + 1]), 0)
    requires !onPath ==> i == -1
    ensures i >= 0 ==> counted + [Traversal((sel[k], sel[k + 1]), c.student, OutcomeAt(c.outcomes, i + 1))] ==
                       done + SelectedTraversals(c, sel, progressive, k + 1)
    ensures i < 0 ==> counted == done + SelectedTraversals(c, sel, progressive, k + 1)
  {
  }

  /** `initializeEdgeTracking` then `updateEdgeMetrics` for one edge found
      on the path: the log grows by that traversal. */
  method TrackEdge(trackingMaps: EdgeTrackingMaps, edge: Edge, student: string, outcome: string,
                   maxEdgeCount: nat, ghost counted: seq<Traversal>)
    returns (newMaxEdgeCount: nat)
    requires trackingMaps.maps == Processed(EmptyMaps, counted)
    requires maxEdgeCount == RunningMax(EmptyMaps, counted)
    modifies trackingMaps
    ensures trackingMaps.maps == Processed(EmptyMaps, counted + [Traversal(edge, student, outcome)])
    ensures newMaxEdgeCount == RunningMax(EmptyMaps, counted + [Traversal(edge, student, outcome)])
  {
    trackingMaps.InitializeEdgeTracking(edge);
    newMaxEdgeCount := trackingMaps.UpdateEdgeMetrics(edge, student, outcome, maxEdgeCount);
    ProcessedSnoc(EmptyMaps, counted, Traversal(edge, student, outcome));
  }

  /** The loop over the positions of the selected sequence for one pair. */
  method CountSelectedEdges(trackingMaps: EdgeTrackingMaps, c: Combination, sel: seq<string>, progressive: bool,
                            maxEdgeCount: nat, ghost done: seq<Traversal>)
    returns (newMaxEdgeCount: nat)
    requires trackingMaps.maps == Processed(EmptyMaps, done)
    requires maxEdgeCount == RunningMax(EmptyMaps, done)
    modifies trackingMaps
    ensures trackingMaps.maps == Processed(EmptyMaps, done + SelectedTraversals(c, sel, progressive, EdgeSlots(sel)))
    ensures newMaxEdgeCount == RunningMax(EmptyMaps, done + SelectedTraversals(c, sel, progressive, EdgeSlots(sel)))
  {
    newMaxEdgeCount := maxEdgeCount;
    ghost var counted := done;
    for seqIndex := 0 to EdgeSlots(sel)
      invariant counted == done + SelectedTraversals(c, sel, progressive, seqIndex)
      invariant trackingMaps.maps == Processed(EmptyMaps, counted)
      invariant newMaxEdgeCount == RunningMax(EmptyMaps, counted)
    {
      var currentStep := sel[seqIndex];
      var nextStep := sel[seqIndex + 1];
      var edge := (currentStep, nextStep);
      var onPath := true;
      if progressive {
        var partialSequence := sel[..seqIndex + 2];
        onPath := ContainsSequence(c.steps, partialSequence);
      }
      var i := -1;
      if onPath {
        i := FindEdge(c.steps, edge);
      }
      SelectedStep(done, counted, c, sel, progressive, seqIndex, onPath, i);
      if i >= 0 {
        var outcome := OutcomeAt(c.outcomes, i + 1);
        newMaxEdgeCount := TrackEdge(trackingMaps, edge, c.student, outcome, newMaxEdgeCount, counted);
        counted := counted + [Traversal(edge, c.student, outcome)];
      }
    }
  }

  /** Mode 1: the pass over all pairs that also records who reached each
      position. */
  method ProgressivePass(trackingMaps: EdgeTrackingMaps, combos: seq<Combination>, sel: seq<string>)
    returns (maxEdgeCount: nat, studentsAt: seq<set<string>>)
    requires trackingMaps.maps == EmptyMaps
    modifies trackingMaps
    ensures trackingMaps.maps == Processed(EmptyMaps, SelectedLog(combos, sel, true))
    ensures maxEdgeCount == RunningMax(EmptyMaps, SelectedLog(combos, sel, true))
    ensures studentsAt == PositionSets(combos, sel)
  {
    maxEdgeCount := 0;
    studentsAt := seq(|sel|, _ => {});
    for k := 0 to |combos|
      invariant trackingMaps.maps == Processed(EmptyMaps, SelectedLog(combos[..k], sel, true))
      invariant maxEdgeCount == RunningMax(EmptyMaps, SelectedLog(combos[..k], sel, true))
      invariant |studentsAt| == |sel|
      invariant forall pos :: 0 <= pos < |sel| ==> studentsAt[pos] == Reaching(combos[..k], sel, pos)
    {
      var c := combos[k];
      studentsAt := MarkPositions(studentsAt, c, sel);
      maxEdgeCount := CountSelectedEdges(trackingMaps, c, sel, true, maxEdgeCount, SelectedLog(combos[..k], sel, true));
      SelectedLogPrefix(combos, k, sel, true);
      forall pos | 0 <= pos < |sel|
        ensures studentsAt[pos] == Reaching(combos[..k + 1], sel, pos)
      {
        ReachingPrefix(combos, k, sel, pos);
      }
    }
    assert combos[..|combos|] == combos;
  }

  /** Mode 2: the pass over all pairs. */
  method AllStudentsPass(trackingMaps: EdgeTrackingMaps, combos: seq<Combination>, sel: seq<string>)
    returns (maxEdgeCount: nat)
    requires trackingMaps.maps == EmptyMaps
    modifies trackingMaps
    ensures trackingMaps.maps == Processed(EmptyMaps, SelectedLog(combos, sel, false))
    ensures maxEdgeCount == RunningMax(EmptyMaps, SelectedLog(combos, sel, false))
  {
    maxEdgeCount := 0;
    for k := 0 to |combos|
      invariant trackingMaps.maps == Processed(EmptyMaps, SelectedLog(combos[..k], sel, false))
      invariant maxEdgeCount == RunningMax(EmptyMaps, SelectedLog(combos[..k], sel, false))
    {
      var c := combos[k];
      maxEdgeCount := CountSelectedEdges(trackingMaps, c, sel, false, maxEdgeCount, SelectedLog(combos[..k], sel, false));
      SelectedLogPrefix(combos, k, sel, false);
    }
    assert combos[..|combos|] == combos;
  }

  /** The edge part of the converted maps does not depend on the step map. */
  lemma OverrideKeepsEdges(m: TrackingMaps, nodes: map<string, set<string>>, maxEdgeCount: nat, log: seq<Traversal>)
    requires EdgesDescribe(ConvertMapsToObjects(m, maxEdgeCount, []), log)
    ensures EdgesDescribe(ConvertMapsToObjects(m.(totalNodeEdges := nodes), maxEdgeCount, []), log)
  {
  }

  /** countEdgesForSelectedSequence: the edge metrics of the counted
      traversals; in the progressive mode the step counts are the students
      who reached each position, otherwise those of the counted traversals. */
  method CountEdgesForSelectedSequence(stepTable: Table, outcomeTable: Table, sel: seq<string>,
                                       onlyStudentsOnSequence: bool)
    returns (r: EdgeAnalytics)
    ensures var combos := AllCombinations(Paths(stepTable), outcomeTable);
      var log := SelectedLog(combos, sel, onlyStudentsOnSequence);
      && EdgesDescribe(r, log)
      && r.topSequences == []
      && (!onlyStudentsOnSequence ==> NodesDescribe(r, log))
      && (onlyStudentsOnSequence ==>
            r.totalNodeEdges == NodeSizes(PositionMap(sel, PositionSets(combos, sel), |sel|)))
  {
    var combos := AllCombinations(Paths(stepTable), outcomeTable);
    var trackingMaps := new EdgeTrackingMaps();
    var maxEdgeCount;
    ghost var log := SelectedLog(combos, sel, onlyStudentsOnSequence);
    ConvertedDescribes(log, []);
    if onlyStudentsOnSequence {
      var studentsAt;
      maxEdgeCount, studentsAt := ProgressivePass(trackingMaps, combos, sel);
      var nodes := PositionNodes(sel, studentsAt);
      OverrideKeepsEdges(trackingMaps.maps, nodes, maxEdgeCount, log);
      trackingMaps.maps := trackingMaps.maps.(totalNodeEdges := nodes);
    } else {
      maxEdgeCount := AllStudentsPass(trackingMaps, combos, sel);
    }
    r := ConvertMapsToObjects(trackingMaps.maps, maxEdgeCount, []);
  }
}
