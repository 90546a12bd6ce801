/** Sequence analysis over the per-student step sequences (GraphvizProcessing.ts,
    section 2): the most frequent step sequences, and which final-answer
    outcome follows each equation-answer outcome. */
module SequenceAnalysis {
  import opened Seqs
  import opened Text
  import opened Tables

  // ---------------------------------------------------------------------------
  // getTopSequences
  // ---------------------------------------------------------------------------

  /** One entry of the `sequenceCounts` dictionary. The key in the program is
      `JSON.stringify(sequence)`, which is one-to-one on lists of strings, so
      the entry is keyed by the sequence itself. Such keys always start with
      `[`, so the dictionary keeps its keys in insertion order. */
  datatype SequenceCount = SequenceCount(sequence: seq<string>, count: nat)

  /** The step lists of the (student, problem) pairs, in iteration order. */
  function ItemLists(ps: seq<Path>): (r: seq<seq<string>>)
    ensures |r| == |ps|
    ensures forall i :: 0 <= i < |ps| ==> r[i] == ps[i].items
  {
    if ps == [] then [] else ItemLists(ps[..|ps| - 1]) + [ps[|ps| - 1].items]
  }

  function Keys(es: seq<SequenceCount>): (r: seq<seq<string>>)
    ensures |r| == |es|
    ensures forall i :: 0 <= i < |es| ==> r[i] == es[i].sequence
  {
    if es == [] then [] else [es[0].sequence] + Keys(es[1..])
  }

  /** `counts[key] || 0` */
  function CountOf(es: seq<SequenceCount>, x: seq<string>): nat
  {
    if es == [] then 0 else if es[0].sequence == x then es[0].count else CountOf(es[1..], x)
  }

  /** `counts[key] = (counts[key] || 0) + 1` */
  function Bump(es: seq<SequenceCount>, x: seq<string>): seq<SequenceCount>
  {
    if es == [] then [SequenceCount(x, 1)]
    else if es[0].sequence == x then [SequenceCount(x, es[0].count + 1)] + es[1..]
    else [es[0]] + Bump(es[1..], x)
  }

  /** The dictionary after counting each list of `xs` in turn. */
  function Tally(xs: seq<seq<string>>): seq<SequenceCount>
  {
    if xs == [] then [] else Bump(Tally(xs[..|xs| - 1]), xs[|xs| - 1])
  }

  lemma {:induction false} KeysBump(es: seq<SequenceCount>, x: seq<string>)
    ensures Keys(Bump(es, x)) == if x in Keys(es) then Keys(es) else Keys(es) + [x]
  {
    if es != [] && es[0].sequence != x {
      KeysBump(es[1..], x);
      assert Keys(es) == [es[0].sequence] + Keys(es[1..]);
    }
  }

  lemma {:induction false} CountOfBump(es: seq<SequenceCount>, x: seq<string>, y: seq<string>)
    ensures CountOf(Bump(es, x), y) == CountOf(es, y) + if x == y then 1 else 0
  {
    if es != [] && es[0].sequence != x {
      CountOfBump(es[1..], x, y);
    }
  }

  /** The counted keys are the distinct lists in first-occurrence order, and
      each count is the number of occurrences of its list. */
  lemma {:induction false} TallyFacts(xs: seq<seq<string>>, y: seq<string>)
    ensures Keys(Tally(xs)) == Distinct(xs)
    ensures CountOf(Tally(xs), y) == multiset(xs)[y]
  {
    if xs != [] {
      var init, last := xs[..|xs| - 1], xs[|xs| - 1];
      TallyFacts(init, y);
      KeysBump(Tally(init), last);
      CountOfBump(Tally(init), last, y);
      assert xs == init + [last];
      DistinctSnoc(init, last);
      assert multiset(xs) == multiset(init) + multiset{last};
    }
  }

  lemma {:induction false} CountOfEntry(es: seq<SequenceCount>, e: SequenceCount)
    requires NoDuplicates(Keys(es)) && e in es
    ensures CountOf(es, e.sequence) == e.count
  {
    if es[0] != e {
      assert e in es[1..];
      var k :| 0 <= k < |es[1..]| && es[1..][k] == e;
      assert Keys(es)[0] != Keys(es)[k + 1];
      assert NoDuplicates(Keys(es[1..])) by {
        assert Keys(es[1..]) == Keys(es)[1..];
      }
      CountOfEntry(es[1..], e);
    }
  }

  /** Every entry of the dictionary holds the number of occurrences of its list. */
  lemma TallyEntry(xs: seq<seq<string>>, e: SequenceCount)
    requires e in Tally(xs)
    ensures e.count == multiset(xs)[e.sequence]
  {
    TallyFacts(xs, e.sequence);
    CountOfEntry(Tally(xs), e);
  }

  /** `JSON.parse(sequence).length >= 5` */
  predicate LongEnough(e: SequenceCount)
  {
    |e.sequence| >= 5
  }

  /** Stable insertion by the comparator `countB - countA`: `x` goes after
      every entry whose count is not smaller than its own. */
  function InsertByCount(x: SequenceCount, s: seq<SequenceCount>): (r: seq<SequenceCount>)
    ensures |r| == |s| + 1
  {
    if s == [] || x.count <= s[|s| - 1].count then s + [x]
    else InsertByCount(x, s[..|s| - 1]) + [s[|s| - 1]]
  }

  /** `Array.prototype.sort` with that comparator (a stable sort). */
  function SortByCount(s: seq<SequenceCount>): (r: seq<SequenceCount>)
    ensures |r| == |s|
  {
    if s == [] then [] else InsertByCount(s[|s| - 1], SortByCount(s[..|s| - 1]))
  }

  predicate CountsDescending(s: seq<SequenceCount>)
  {
    forall i, j :: 0 <= i < j < |s| ==> s[i].count >= s[j].count
  }

  lemma {:induction false} InsertByCountPermutes(x: SequenceCount, s: seq<SequenceCount>)
    ensures multiset(InsertByCount(x, s)) == multiset(s) + multiset{x}
  {
    if s != [] && x.count > s[|s| - 1].count {
      var init, last := s[..|s| - 1], s[|s| - 1];
      InsertByCountPermutes(x, init);
      assert s == init + [last];
      assert multiset(s) == multiset(init) + multiset{last};
    }
  }

  lemma {:induction false} InsertByCountSorted(x: SequenceCount, s: seq<SequenceCount>)
    requires CountsDescending(s)
    ensures CountsDescending(InsertByCount(x, s))
  {
    if s != [] && x.count > s[|s| - 1].count {
      var init, last := s[..|s| - 1], s[|s| - 1];
      InsertByCountSorted(x, init);
      var r := InsertByCount(x, init);
      InsertByCountPermutes(x, init);
      forall i | 0 <= i < |r| ensures r[i].count >= last.count {
        assert r[i] in multiset(r);
        if r[i] != x {
          assert r[i] in init;
        }
      }
    }
  }

  /** The sort yields the entries, reordered by non-increasing count. */
  lemma {:induction false} SortByCountFacts(s: seq<SequenceCount>)
    ensures CountsDescending(SortByCount(s))
    ensures multiset(SortByCount(s)) == multiset(s)
  {
    if s != [] {
      var init, last := s[..|s| - 1], s[|s| - 1];
      SortByCountFacts(init);
      InsertByCountSorted(last, SortByCount(init));
      InsertByCountPermutes(last, SortByCount(init));
      assert s == init + [last];
      assert multiset(s) == multiset(init) + multiset{last};
    }
  }

  /** The tail of getTopSequences: keep long sequences, sort by count, take `topN`. */
  function TopOf(counts: seq<SequenceCount>, topN: int): seq<SequenceCount>
  {
    SliceTo(SortByCount(Filter(LongEnough, counts)), topN)
  }

  /** getTopSequences: counts every (student, problem) step list, then ranks. */
  method GetTopSequences(t: Table, topN: int) returns (top: seq<SequenceCount>)
    ensures top == TopOf(Tally(ItemLists(Paths(t))), topN)
  {
    var paths := Paths(t);
    var counts: seq<SequenceCount> := [];
    for i := 0 to |paths|
      invariant counts == Tally(ItemLists(paths[..i]))
    {
      counts := Bump(counts, paths[i].items);
      assert paths[..i + 1][..i] == paths[..i];
    }
    assert paths[..|paths|] == paths;
    top := TopOf(counts, topN);
  }

  /** The ranked entries: `topN` of them, or every long sequence when there
      are fewer (`slice(0, topN)` with a negative `topN` drops that many from
      the end), all of sequences of at least five steps, taken from the counts
      and ordered by non-increasing count. */
  lemma TopOfFacts(counts: seq<SequenceCount>, topN: int)
    ensures var r := TopOf(counts, topN); var n := |Filter(LongEnough, counts)|;
      && (topN >= 0 ==> |r| == if topN < n then topN else n)
      && (topN < 0 ==> |r| == if -topN < n then n + topN else 0)
      && CountsDescending(r)
      && (forall e :: e in r ==> LongEnough(e) && e in counts)
  {
    var long := Filter(LongEnough, counts);
    var sorted := SortByCount(long);
    SortByCountFacts(long);
    assert |sorted| == |multiset(sorted)| == |multiset(long)| == |long|;
    forall e | e in TopOf(counts, topN) ensures LongEnough(e) && e in counts {
      assert e in sorted;
      assert e in multiset(long);
    }
  }

  /** No long sequence is left out while a less frequent one is kept, and
      one is left out only when all `topN` places are taken. */
  lemma TopOfComplete(counts: seq<SequenceCount>, topN: int, e: SequenceCount)
    requires e in counts && LongEnough(e) && e !in TopOf(counts, topN)
    ensures forall k :: 0 <= k < |TopOf(counts, topN)| ==> TopOf(counts, topN)[k].count >= e.count
    ensures topN >= 0 ==> |TopOf(counts, topN)| == topN
  {
    var long := Filter(LongEnough, counts);
    var sorted := SortByCount(long);
    SortByCountFacts(long);
    FilterCount(LongEnough, counts, e);
    assert e in multiset(sorted);
    var m :| 0 <= m < |sorted| && sorted[m] == e;
    var r := TopOf(counts, topN);
    assert forall q :: 0 <= q < |r| ==> r[q] == sorted[q];
    assert m >= |r|;
    assert |sorted| == |multiset(sorted)| == |multiset(long)| == |long|;
  }

  /** getTopSequences reports, for each sequence it returns, the number of
      (student, problem) pairs whose step list is exactly that sequence. */
  lemma TopSequencesCounts(xs: seq<seq<string>>, topN: int)
    ensures forall e :: e in TopOf(Tally(xs), topN) ==> e.count == multiset(xs)[e.sequence]
  {
    TopOfFacts(Tally(xs), topN);
    forall e | e in TopOf(Tally(xs), topN) ensures e.count == multiset(xs)[e.sequence] {
      TallyEntry(xs, e);
    }
  }

  // ---------------------------------------------------------------------------
  // analyzeEquationAnswerTransitions
  // ---------------------------------------------------------------------------

  datatype Option<T> = None | Some(value: T)

  const EquationAnswerMarker: string := "equationanswer"
  const FinalAnswerMarker: string := "finalanswer"

  predicate IsEquationAnswer(step: string)
  {
    Includes(Lower(step), EquationAnswerMarker)
  }

  predicate IsFinalAnswer(step: string)
  {
    Includes(Lower(step), FinalAnswerMarker)
  }

  /** The index the inner loop breaks at: the first final-answer step at or
      after `from`. */
  function NextFinalAnswer(steps: seq<string>, from: nat): (r: Option<nat>)
    ensures r.Some? ==> from <= r.value < |steps| && IsFinalAnswer(steps[r.value])
    ensures forall j :: from <= j < |steps| && (r.None? || j < r.value) ==> !IsFinalAnswer(steps[j])
    decreases |steps| - from
  {
    if from >= |steps| then None
    else if IsFinalAnswer(steps[from]) then Some(from)
    else NextFinalAnswer(steps, from + 1)
  }

  /** The two count dictionaries: `equationAnswerOutcomes` as a multiset of
      outcomes, and `equationToFinalTransitions` as a map from an
      equation-answer outcome to the multiset of final-answer outcomes that
      followed it (an outer key is only created together with a count). */
  datatype Stats = Stats(equationOutcomes: multiset<string>, transitions: map<string, multiset<string>>)

  function AddTransition(m: map<string, multiset<string>>, eo: string, fo: string): map<string, multiset<string>>
  {
    m[eo := (if eo in m then m[eo] else multiset{}) + multiset{fo}]
  }

  /** What iteration `i` of the step loop adds. */
  function ScanStep(acc: Stats, steps: seq<string>, outcomes: seq<string>, i: nat): Stats
    requires i < |steps|
  {
    if !IsEquationAnswer(steps[i]) then acc
    else
      var eo := OutcomeAt(outcomes, i);
      var counted := acc.(equationOutcomes := acc.equationOutcomes + multiset{eo});
      match NextFinalAnswer(steps, i + 1)
      case None => counted
      case Some(j) => counted.(transitions := AddTransition(acc.transitions, eo, OutcomeAt(outcomes, j)))
  }

  /** The first `n` iterations of the step loop over one pair. */
  function ScanSteps(acc: Stats, steps: seq<string>, outcomes: seq<string>, n: nat): Stats
    requires n <= |steps|
  {
    if n == 0 then acc else ScanStep(ScanSteps(acc, steps, outcomes, n - 1), steps, outcomes, n - 1)
  }

  /** All pairs of the step table, each with its outcome list
      (`(outcomeSequences[s] || {})[p] || []`). */
  function ScanPaths(acc: Stats, paths: seq<Path>, outcomeTable: Table): Stats
  {
    if paths == [] then acc
    else
      var last := paths[|paths| - 1];
      var before := ScanPaths(acc, paths[..|paths| - 1], outcomeTable);
      ScanSteps(before, last.items, Get(outcomeTable, last.student, last.problem), |last.items|)
  }

  /** Each equation-answer outcome is followed by at most as many final
      answers as it was counted: each counted step adds at most one transition. */
  ghost predicate TransitionsBounded(st: Stats)
  {
    forall eo :: eo in st.transitions ==> |st.transitions[eo]| <= st.equationOutcomes[eo]
  }

  lemma ScanStepBounded(acc: Stats, steps: seq<string>, outcomes: seq<string>, i: nat)
    requires i < |steps| && TransitionsBounded(acc)
    ensures TransitionsBounded(ScanStep(acc, steps, outcomes, i))
  {
    if IsEquationAnswer(steps[i]) {
      var eo := OutcomeAt(outcomes, i);
      var st := ScanStep(acc, steps, outcomes, i);
      assert st.equationOutcomes == acc.equationOutcomes + multiset{eo};
      forall o | o in st.transitions ensures |st.transitions[o]| <= st.equationOutcomes[o] {
        if o != eo {
          assert st.transitions[o] == acc.transitions[o];
        }
      }
    }
  }

  lemma {:induction false} ScanStepsBounded(acc: Stats, steps: seq<string>, outcomes: seq<string>, n: nat)
    requires n <= |steps| && TransitionsBounded(acc)
    ensures TransitionsBounded(ScanSteps(acc, steps, outcomes, n))
  {
    if n > 0 {
      ScanStepsBounded(acc, steps, outcomes, n - 1);
      ScanStepBounded(ScanSteps(acc, steps, outcomes, n - 1), steps, outcomes, n - 1);
    }
  }

  lemma {:induction false} ScanPathsBounded(acc: Stats, paths: seq<Path>, outcomeTable: Table)
    requires TransitionsBounded(acc)
    ensures TransitionsBounded(ScanPaths(acc, paths, outcomeTable))
  {
    if paths != [] {
      var last := paths[|paths| - 1];
      ScanPathsBounded(acc, paths[..|paths| - 1], outcomeTable);
      ScanStepsBounded(ScanPaths(acc, paths[..|paths| - 1], outcomeTable), last.items,
        Get(outcomeTable, last.student, last.problem), |last.items|);
    }
  }

  /** The number of equation-answer steps among the first `n` steps. */
  function EquationSteps(steps: seq<string>, n: nat): nat
    requires n <= |steps|
  {
    if n == 0 then 0 else EquationSteps(steps, n - 1) + if IsEquationAnswer(steps[n - 1]) then 1 else 0
  }

  /** One outcome is counted per equation-answer step. */
  lemma {:induction false} ScanStepsCounts(acc: Stats, steps: seq<string>, outcomes: seq<string>, n: nat)
    requires n <= |steps|
    ensures |ScanSteps(acc, steps, outcomes, n).equationOutcomes| == |acc.equationOutcomes| + EquationSteps(steps, n)
  {
    if n > 0 {
      ScanStepsCounts(acc, steps, outcomes, n - 1);
    }
  }

  /** The step loop over one pair, with the inner search that breaks at the
      first later final-answer step. */
  method ScanPair(acc: Stats, steps: seq<string>, outcomes: seq<string>) returns (st: Stats)
    ensures st == ScanSteps(acc, steps, outcomes, |steps|)
  {
    st := acc;
    for i := 0 to |steps|
      invariant st == ScanSteps(acc, steps, outcomes, i)
    {
      if IsEquationAnswer(steps[i]) {
        var equationOutcome := OutcomeAt(outcomes, i);
        var next := FindFinalAnswer(steps, i + 1);
        st := st.(equationOutcomes := st.equationOutcomes + multiset{equationOutcome});
        if next.Some? {
          st := st.(transitions := AddTransition(st.transitions, equationOutcome, OutcomeAt(outcomes, next.value)));
        }
      }
    }
  }

  /** The inner loop of analyzeEquationAnswerTransitions, which stops at the
      first final-answer step after an equation-answer step. */
  method FindFinalAnswer(steps: seq<string>, from: nat) returns (r: Option<nat>)
    ensures r == NextFinalAnswer(steps, from)
  {
    var j := from;
    while j < |steps|
      invariant from <= j
      invariant forall k :: from <= k < j && k < |steps| ==> !IsFinalAnswer(steps[k])
    {
      if IsFinalAnswer(steps[j]) {
        FirstFinalAnswer(steps, from, j);
        return Some(j);
      }
      j := j + 1;
    }
    NoFinalAnswer(steps, from);
    return None;
  }

  lemma {:induction false} FirstFinalAnswer(steps: seq<string>, from: nat, j: nat)
    requires from <= j < |steps| && IsFinalAnswer(steps[j])
    requires forall k :: from <= k < j ==> !IsFinalAnswer(steps[k])
    ensures NextFinalAnswer(steps, from) == Some(j)
    decreases j - from
  {
    if from < j {
      FirstFinalAnswer(steps, from + 1, j);
    }
  }

  lemma {:induction false} NoFinalAnswer(steps: seq<string>, from: nat)
    requires forall k :: from <= k < |steps| ==> !IsFinalAnswer(steps[k])
    ensures NextFinalAnswer(steps, from) == None
    decreases |steps| - from
  {
    if from < |steps| {
      NoFinalAnswer(steps, from + 1);
    }
  }

  /** analyzeEquationAnswerTransitions over the step and outcome tables. */
  method AnalyzeEquationAnswerTransitions(stepTable: Table, outcomeTable: Table) returns (st: Stats)
    ensures st == ScanPaths(Stats(multiset{}, map[]), Paths(stepTable), outcomeTable)
    ensures TransitionsBounded(st)
  {
    var paths := Paths(stepTable);
    st := Stats(multiset{}, map[]);
    for i := 0 to |paths|
      invariant st == ScanPaths(Stats(multiset{}, map[]), paths[..i], outcomeTable)
    {
      var path := paths[i];
      st := ScanPair(st, path.items, Get(outcomeTable, path.student, path.problem));
      assert paths[..i + 1][..i] == paths[..i];
    }
    assert paths[..|paths|] == paths;
    ScanPathsBounded(Stats(multiset{}, map[]), paths, outcomeTable);
  }
}
