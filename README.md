# PathAnalysis in Dafny

This is a verified model of the analytics core of PathAnalysis.
PathAnalysis turns tutor log exports (one CSV row per student step) into a graph:

- nodes are step names;
- edges are the transitions between consecutive steps of a student working on a problem.

The model covers:

- **Cleaning and grouping.** Autofilled rows are dropped, step names are filled in and rows are sorted. Rows are folded into per-student, per-problem step and outcome sequences.
- **Sequence analysis.** The most frequent step sequences are ranked. Equation-answer to final-answer transitions are counted.
- **Edge metrics.** A single pass over all paths keeps seven maps: distinct students per edge, visits, repeat visits, outcomes, first-attempt outcomes, students per source node, and the running maximum. The same metrics are also computed for one selected sequence, in its "progressive" and "any transition" modes.
- **Contiguous subsequence test.**
- **Connectivity threshold search.** This uses an undirected depth-first search, a direct-edge check along the selected sequence, and a predecessor heuristic.
- **The two first-three/last-three problem selections.** These are `first3Last3.ts` and `f3l3.ts`: sorting, deduplication, grouping by student, and filtering or labelling rows.
- **Smaller helpers:**
  - the progress-status filter;
  - the file title and file icon rules of the data file selector;
  - `save_csv_data` of the Hugging Face integration example.

## Modelling choices

- A parsed CSV row is the datatype `Rows.Row`. A column missing from a row reads as `""`; in JavaScript it is `undefined`, which is just as falsy.
- `localeCompare` is an arbitrary strict total order `less` that the caller supplies. Parsed times are integers.
- Edges are pairs of step names, not `"a->b"` strings. The string keys and their `split('->')` are modelled apart, in `EdgeKeys` (see Findings).
- Counting dictionaries (`Map<string, number>`, `{ [k]: number }`) are multisets. A key is present exactly when its count is positive, so "the sum of the counts" is the size of the multiset.
- Nested `{ student: { problem: list } }` objects are association lists in insertion order (`Tables`).
- A missing outcome (`outcomes[i]` past the end) is the text `"undefined"`, which is what it becomes as an object key.
- **Imperative code stays imperative.** This covers `EdgeTrackingMaps` with its in-place methods, the in-place array sorts, the DFS worklist, the threshold loop with `break`, `containsSequence`'s nested loops, the `forEach` groupings and `save_csv_data`. Each method is proved against a specification function, and the properties the program promises are proved as lemmas about that function.
- The I/O is modelled as follows:
  - the current time in `save_csv_data` is the parameter `timestamp`;
  - the HTTP POST is the parameter `send`, a function from the payload to a `Response` (a status code, or `Raised` for an exception).

## Model

| member | source | states |
|---|---|---|
| `Preprocess.WithStepName` | src/components/GraphvizProcessing.ts:89-98 | a missing step name becomes "DoneButton", a present one is kept, and no other column changes |
| `Preprocess.Cleaned` | src/components/GraphvizProcessing.ts:89-98 | one cleaned row per input row, in input order |
| `Preprocess.LoadAndSortData` | src/components/GraphvizProcessing.ts:74-117 | the output has exactly as many rows as the input has rows that are not autofilled |
| `Preprocess.LoadAndSortDataSorted` | src/components/GraphvizProcessing.ts:74-117 | the output is sorted by student, then problem, then time; it is a permutation of the cleaned non-autofilled rows; no output row is autofilled (`True`/`true`/`TRUE`/`1`) or has an empty step name |
| `Rows.InsertPermutes` | src/components/GraphvizProcessing.ts:109-117 | inserting a row adds exactly that row to the multiset |
| `Rows.SortRowsSorted` | src/components/GraphvizProcessing.ts:109-117 | the stable sort orders the rows under each comparator of the program and is a permutation |
| `Rows.InsertSorted` | src/components/GraphvizProcessing.ts:109-117 | inserting into a sorted sequence keeps it sorted |
| `Rows.SortInPlace` | src/first3Last3.ts:19-24 | the in-place array sort leaves exactly the stable sort of the old contents in the array |
| `Preprocess.CollapseNoRepeats` | src/components/GraphvizProcessing.ts:136-139 | without self-loops a step sequence has no two equal adjacent steps and is a subsequence of the rows' steps |
| `Preprocess.CollapseKeepsNoRepeats` | src/components/GraphvizProcessing.ts:136-139 | a step list without adjacent repeats is kept whole |
| `Preprocess.CreateStepSequences` | src/components/GraphvizProcessing.ts:127-143 | students and each student's problems appear once, in first-row order; each list is, in row order, the steps of exactly that pair's rows: all of them with self-loops, collapsed otherwise |
| `Preprocess.CreateOutcomeSequences` | src/components/GraphvizProcessing.ts:151-164 | the outcome list of each (student, problem) has one entry per row of that pair, in row order |
| `Preprocess.ProblemsOfKnownStudent` | src/components/GraphvizProcessing.ts:133-134 | a student entry's problems are what a lookup of that student returns |
| `Tables.GetPush` | src/components/GraphvizProcessing.ts:157-160 | pushing an item extends exactly the list of that (student, problem) |
| `Tables.PathsAreLookups` | src/components/GraphvizProcessing.ts:179-180 | iterating the nested values visits lists that are lookups of a present student and problem |
| `SequenceAnalysis.TallyFacts` | src/components/GraphvizProcessing.ts:177-184 | the tally holds each distinct sequence once, in first-seen order, counted as often as it occurs |
| `SequenceAnalysis.SortByCountFacts` | src/components/GraphvizProcessing.ts:188 | sorting by count gives non-increasing counts and a permutation |
| `SequenceAnalysis.GetTopSequences` | src/components/GraphvizProcessing.ts:176-198 | the loops compute the top-N of the tally of all step lists |
| `SequenceAnalysis.TopOfFacts` | src/components/GraphvizProcessing.ts:186-189 | exactly `min(topN, number of long sequences)` entries (`slice` semantics for a negative `topN`), counts non-increasing, each sequence of length at least 5 and taken from the tally |
| `SequenceAnalysis.TopOfComplete` | src/components/GraphvizProcessing.ts:186-189 | a long enough sequence left out counts no more than any entry returned, and is left out only when all `topN` places are filled |
| `SequenceAnalysis.TopSequencesCounts` | src/components/GraphvizProcessing.ts:176-198 | each returned count is the number of (student, problem) pairs with exactly that sequence |
| `SequenceAnalysis.NextFinalAnswer` | src/components/GraphvizProcessing.ts:229-238 | the position found is the first final-answer step after the equation step; none is found when there is none |
| `SequenceAnalysis.FindFinalAnswer` | src/components/GraphvizProcessing.ts:229-238 | the inner loop with `break` finds that position |
| `SequenceAnalysis.FirstFinalAnswer` | src/components/GraphvizProcessing.ts:229-238 | the first final-answer step after the start is the one found |
| `SequenceAnalysis.ScanPair` | src/components/GraphvizProcessing.ts:224-241 | the step loop of one (student, problem) pair computes the specified scan |
| `SequenceAnalysis.ScanStepsCounts` | src/components/GraphvizProcessing.ts:225-227 | one equation outcome is recorded per equation-answer step |
| `SequenceAnalysis.ScanPathsBounded` | src/components/GraphvizProcessing.ts:216-243 | no equation outcome has more recorded transitions than occurrences |
| `SequenceAnalysis.AnalyzeEquationAnswerTransitions` | src/components/GraphvizProcessing.ts:206-249 | the nested loops compute the scan over all pairs, and the transition bound holds of the result |
| `EdgeTracking.Combinations` | src/components/GraphvizProcessing.ts:306-319 | every combination kept has at least two steps |
| `EdgeTracking.PrepareStudentProblemCombinations` | src/components/GraphvizProcessing.ts:300-322 | the loops keep the pairs with at least two steps, in order, with their outcomes |
| `EdgeTracking.ShortPathsContributeNothing` | src/components/GraphvizProcessing.ts:310 | dropping sequences shorter than two removes no traversal: only sequences of length 2 or more contribute |
| `EdgeTracking.EdgeMetricsFacts` | src/components/GraphvizProcessing.ts:376-409 | per edge: distinct students at most visits; repeat visits over students sum to visits; outcomes sum to visits; first attempts sum to distinct students; repeat counts are kept for exactly the students on the edge; an edge is present iff visited |
| `EdgeTracking.EnterEdge` | src/components/GraphvizProcessing.ts:348-363 | lazy initialisation keeps the maps aligned and gives the edge its entries |
| `EdgeTracking.RecordTraversal` | src/components/GraphvizProcessing.ts:384-406 | recording one traversal keeps the maps aligned |
| `EdgeTracking.ProcessedSnoc` | src/components/GraphvizProcessing.ts:425-442 | processing one more traversal is entering its edge and recording it; the running maximum grows to the new edge count |
| `EdgeTracking.EdgeTrackingMaps.constructor` | src/components/GraphvizProcessing.ts:330-338 | all seven maps start empty |
| `EdgeTracking.EdgeTrackingMaps.InitializeEdgeTracking` | src/components/GraphvizProcessing.ts:348-363 | the maps become those with the edge entered |
| `EdgeTracking.EdgeTrackingMaps.UpdateEdgeMetrics` | src/components/GraphvizProcessing.ts:376-409 | the maps record the traversal, and the returned maximum is the larger of the old maximum and the edge's new count |
| `EdgeTracking.EdgeTrackingMaps.ProcessStudentPaths` | src/components/GraphvizProcessing.ts:419-446 | the maps and the maximum become those after all traversals of all combinations, in order |
| `EdgeTracking.ProcessedKeys` | src/components/GraphvizProcessing.ts:353-358 | after processing, the per-edge maps have a key for exactly the edges traversed |
| `EdgeTracking.ProcessedStudents` | src/components/GraphvizProcessing.ts:384 | each edge's student set is the set of students who traversed it |
| `EdgeTracking.ProcessedVisits` | src/components/GraphvizProcessing.ts:387 | each edge's total is its number of traversals |
| `EdgeTracking.ProcessedRepeats` | src/components/GraphvizProcessing.ts:389-391 | each edge's repeat counts count each student's traversals of it |
| `EdgeTracking.ProcessedOutcomes` | src/components/GraphvizProcessing.ts:405-406 | each edge's outcome counts count the outcomes of its traversals |
| `EdgeTracking.ProcessedCounts` | src/components/GraphvizProcessing.ts:401-402 | each edge's count is its number of distinct students |
| `EdgeTracking.ProcessedFirsts` | src/components/GraphvizProcessing.ts:393-399 | each edge's first-attempt counts record each student's first traversal of it only |
| `EdgeTracking.ProcessedNodes` | src/components/GraphvizProcessing.ts:385 | each source step's set holds the students who left it |
| `EdgeTracking.ProcessedNodeKeys` | src/components/GraphvizProcessing.ts:360-362 | the step map has an entry exactly for the steps some traversal left |
| `EdgeTracking.ProcessedMax` | src/components/GraphvizProcessing.ts:403 | the returned maximum is the largest edge count, or 0 when there are no edges |
| `EdgeTracking.NodeSizes` | src/components/GraphvizProcessing.ts:462-465 | each node's number is the size of its student set, over the same nodes |
| `EdgeTracking.ConvertedDescribes` | src/components/GraphvizProcessing.ts:457-515 | the converted objects hold exactly the metrics of the traversal log: an entry for exactly the traversed edges and for exactly the steps they leave |
| `EdgeTracking.CountEdges` | src/components/GraphvizProcessing.ts:538-559 | the result describes the traversals of all pairs with at least two steps, with node counts for exactly the steps those traversals leave, and carries the top five sequences |
| `EdgeTracking.CountEdgesMetrics` | src/components/GraphvizProcessing.ts:538-559 | in the result, each edge's count is at most its visits; repeat visits and outcomes sum to the visits; first attempts sum to the count; and every edge present was visited |
| `SelectedSequence.ContainsSequence` | src/components/GraphvizProcessing.ts:728-744 | the result is true iff the subsequence occurs contiguously at some index |
| `SelectedSequence.ContainsEdgeCases` | src/components/GraphvizProcessing.ts:729-730 | an empty subsequence is contained; one longer than the sequence is not |
| `SelectedSequence.FirstEdgeFrom` | src/components/GraphvizProcessing.ts:649-650 | the index found is the first occurrence of the edge, and -1 means none |
| `SelectedSequence.FindEdge` | src/components/GraphvizProcessing.ts:649-665 | the loop with `break` finds that first occurrence |
| `SelectedSequence.MarkPositions` | src/components/GraphvizProcessing.ts:620-635 | the student is added at exactly the positions whose sequence prefix their path contains |
| `SelectedSequence.ProgressiveShrinks` | src/components/GraphvizProcessing.ts:620-635 | the students at position p+1 are a subset of those at position p |
| `SelectedSequence.PositionNodes` | src/components/GraphvizProcessing.ts:672-677 | the per-node sets are rebuilt from the per-position sets |
| `SelectedSequence.PositionMapLast` | src/components/GraphvizProcessing.ts:672-677 | the rebuilt map has exactly the sequence's nodes, each holding the set of its last position |
| `SelectedSequence.SelectedEdgesOnSequence` | src/components/GraphvizProcessing.ts:638-641 | only edges between consecutive elements of the selected sequence get keys |
| `SelectedSequence.SelectedVisitsBounded` | src/components/GraphvizProcessing.ts:649-665 | each (student, problem) contributes at most one traversal per position of the edge in the sequence |
| `SelectedSequence.ProgressiveSubseq` | src/components/GraphvizProcessing.ts:644-647 | the progressive traversals are a subsequence of the any-transition traversals |
| `SelectedSequence.TrackEdge` | src/components/GraphvizProcessing.ts:653-662 | initialising and updating one edge appends one traversal to what the maps describe |
| `SelectedSequence.CountSelectedEdges` | src/components/GraphvizProcessing.ts:638-667 | the edge loop of one pair records exactly that pair's selected traversals |
| `SelectedSequence.ProgressivePass` | src/components/GraphvizProcessing.ts:604-670 | the maps, the maximum and the per-position sets become those of the progressive traversals |
| `SelectedSequence.AllStudentsPass` | src/components/GraphvizProcessing.ts:678-715 | the maps and the maximum become those of the any-transition traversals |
| `SelectedSequence.OverrideKeepsEdges` | src/components/GraphvizProcessing.ts:672-677 | replacing the node sets changes no edge metric |
| `SelectedSequence.CountEdgesForSelectedSequence` | src/components/GraphvizProcessing.ts:586-720 | edge metrics describe the selected traversals in both modes; node counts describe them in any-transition mode and are the per-position sets in progressive mode; no top sequences |
| `Connectivity.PushUnvisited` | src/components/GraphvizProcessing.ts:963-967 | the stack is extended by exactly the unvisited neighbours |
| `Connectivity.Explore` | src/components/GraphvizProcessing.ts:952-968 | the visited set is exactly the set of nodes reachable from the start |
| `Connectivity.UndirectedLinks` | src/components/GraphvizProcessing.ts:938-950 | the adjacency has the given nodes, and `w` neighbours `v` iff a named, non-self-loop edge joins them in either direction |
| `Connectivity.BuildUndirected` | src/components/GraphvizProcessing.ts:938-950 | the loops build that adjacency |
| `Connectivity.DirectedLinks` | src/components/GraphvizProcessing.ts:839-849 | `w` is a successor of `v` iff `v->w` is a named edge |
| `Connectivity.BuildDirected` | src/components/GraphvizProcessing.ts:839-849 | the loop builds that adjacency |
| `Connectivity.IncomingLinks` | src/components/GraphvizProcessing.ts:881-892 | a node has an incoming set that is not empty iff a named non-self-loop edge enters it |
| `Connectivity.BuildIncoming` | src/components/GraphvizProcessing.ts:881-892 | the loops build the incoming sets |
| `Connectivity.CheckGraphConnectivity` | src/components/GraphvizProcessing.ts:931-980 | true with no nodes; false with no edges and several nodes; and, when the nodes contain every edge end, true iff every node is reachable from the first node |
| `Connectivity.CheckSequenceConnectivity` | src/components/GraphvizProcessing.ts:833-865 | true iff every consecutive pair of the sequence is a direct edge (so true for length at most 1) |
| `Connectivity.CheckNodePredecessors` | src/components/GraphvizProcessing.ts:876-925 | false iff there are several nodes and none has a predecessor, or there are more than two nodes and more than half have none |
| `Connectivity.EdgeNodes` | src/components/GraphvizProcessing.ts:772-779 | the node list is the distinct ends of the named edges, in order |
| `Connectivity.CollectNodes` | src/components/GraphvizProcessing.ts:772-781 | the edges' ends are collected, and then the sequence's nodes |
| `Connectivity.AllNodesMembers` | src/components/GraphvizProcessing.ts:772-781 | the node set has no repeats, holds exactly the sequence's nodes and the ends of named edges, and contains every valid edge's ends |
| `Connectivity.PositiveCounts` | src/components/GraphvizProcessing.ts:792 | exactly the positive counts are kept |
| `Connectivity.UniqueDescending` | src/components/GraphvizProcessing.ts:793 | the thresholds are strictly decreasing and are exactly the values given |
| `Connectivity.ValidEdges` | src/components/GraphvizProcessing.ts:800-802 | only edges of the input are kept |
| `Connectivity.ThresholdAccepted` | src/components/GraphvizProcessing.ts:800-810 | the three checks all pass iff the threshold keeps the graph connected |
| `Connectivity.CalculateMaxMinEdgeCount` | src/components/GraphvizProcessing.ts:761-823 | 0 without nodes; otherwise 0 or a positive count that keeps the graph connected, with no larger positive count doing so |
| `EdgeKeys.KeyEndsOfPlainNames` | src/components/GraphvizProcessing.ts:774 | for step names without `->`, splitting the key gives back the two names |
| `EdgeKeys.ArrowNamesCollide` | src/components/GraphvizProcessing.ts:430 | the edges "a->b" to "c" and "a" to "b->c" get the same key, and the key reads back as "a" to "b" |
| `EdgeKeys.KeyRoundTrip` | src/components/GraphvizProcessing.ts:471 | an escaped key reads back as its edge, whatever the names contain |
| `EdgeKeys.EncodeKeyInjective` | src/components/GraphvizProcessing.ts:430 | two escaped keys are equal iff their edges are |
| `ProblemChoice.UnnamedStudentSkipped` | src/first3Last3.ts:52-55 | rows without a student id contribute nothing |
| `ProblemChoice.ChooseFacts` | src/first3Last3.ts:67-82 | first3 is the prefix and last3 the suffix, each of length min(3, n), of the n distinct problem names in first-occurrence order; both lists are free of repeats and drawn from the student's problems |
| `ProblemChoice.FewProblemsAllChosen` | src/first3Last3.ts:67-82 | with at most six distinct problems, every problem is chosen |
| `ProblemChoice.LastThreeByFirstOccurrence` | src/first3Last3.ts:79-82 | after problems a, b, c, d and then a again, last3 is b, c, d (first-occurrence order, not last-occurrence) |
| `ProblemChoice.AddFirstTracks` | src/first3Last3.ts:67-73 | keeping first3 trimmed after each row gives the first three distinct names |
| `ProblemChoice.CollectedStep` | src/first3Last3.ts:57-75 | one row's update keeps the invariant of the grouping loop |
| `ProblemChoice.CollectRows` | src/first3Last3.ts:46-76 | after the loop each student seen has a record, with first3 trimmed and last3 holding every name seen |
| `ProblemChoice.TrimLast` | src/first3Last3.ts:79-85 | each student's last3 becomes the last three of its distinct names, and nothing else changes |
| `ProblemChoice.GroupRows` | src/first3Last3.ts:41-88 | a record exists exactly for the students with a row that is read, and holds the choice for that student's problems |
| `ProblemChoice.ChosenRowsKeep` | src/first3Last3.ts:96-105 | the rows kept are a subsequence of the input, and a row is kept iff it has a student id and a problem name, its student has a record, and its problem is in first3 or last3 |
| `First3Last3.TransformDataWithF3L3` | src/first3Last3.ts:5-15 | row count and order are kept, an empty step name becomes "DoneButton", a present one is kept, the autofill column is dropped (read as empty), and no other column changes |
| `First3Last3.SortBySessionIdAndTime` | src/first3Last3.ts:18-25 | sorts in place and returns the same array, a permutation ordered by session then time |
| `First3Last3.SortByStudentIdAndTime` | src/first3Last3.ts:28-38 | sorts in place and returns the same array, a permutation ordered by student then time |
| `First3Last3.GroupByStudentId` | src/first3Last3.ts:41-88 | no record for an empty student id, and one record for each student with a row, holding the choice for that student's problems |
| `First3Last3.FilterRowsByProblems` | src/first3Last3.ts:92-119 | every output row carries `isInFirstOrLast3 = true` |
| `First3Last3.FilterRowsByProblemsKeeps` | src/first3Last3.ts:92-119 | the output rows are a subsequence of the input; they are exactly the chosen rows |
| `First3Last3.GetAllMatchingRows` | src/first3Last3.ts:122-136 | the loop concatenates, for each filtered row in order, the original rows of its (student, problem) |
| `First3Last3.AllMatchingCount` | src/first3Last3.ts:122-136 | each original row appears as often as it occurs times the number of filtered rows with its (student, problem): duplicates are kept |
| `F3L3.UniqByFirstOccurrences` | src/f3l3.ts:15 | deduplication keeps exactly the rows that are the first of their `student_problem` key |
| `F3L3.UniqByKeys` | src/f3l3.ts:15 | every key of the input is still present |
| `F3L3.UniqByDistinctKeys` | src/f3l3.ts:15 | at most one row per key remains |
| `F3L3.SortAndDeduplicate` | src/f3l3.ts:5-16 | the array is sorted in place by student then time (a permutation), and the result is its deduplication |
| `F3L3.NoEmptyProblemSeen` | src/f3l3.ts:26 | rows without a problem name are never collected |
| `F3L3.GetFirstAndLast3` | src/f3l3.ts:19-54 | a record exists exactly for the students with a row that has both a student id and a problem name; it holds the choice for that student's problems, with no empty id or problem name |
| `F3L3.FilterRowsByProblemsLabels` | src/f3l3.ts:57-83 | the kept rows are an order-preserving subsequence, exactly the chosen ones; each is labelled "first" iff its problem is in first3 and "last" otherwise, so the '' branch is never taken |
| `F3L3.CombineFirstAndLast` | src/f3l3.ts:86-90 | the result's rows are the chosen rows of the original data, each labelled "first" or "last" |
| `GradProm.FilterPromGrad` | src/lib/GradPromUtils.ts:4-11 | without a status the input comes back unchanged; with one, every output row has that status |
| `GradProm.FilterPromGradKeeps` | src/lib/GradPromUtils.ts:6 | the output is a subsequence of the input, keeping every occurrence of each row with the status and none of the others |
| `GradProm.FilterPromGradCount` | src/lib/GradPromUtils.ts:6 | the output length is the number of input rows with that status |
| `FileTitles.StripCsvExtension` | src/components/DataFileSelector.tsx:54 | exactly a trailing `.csv` or `.CSV` is removed, and any other name is kept |
| `FileTitles.MixedCaseExtensionKept` | src/components/DataFileSelector.tsx:54 | `data.Csv` keeps its extension, `data.csv` loses it |
| `FileTitles.Capitalize` | src/components/DataFileSelector.tsx:82 | the length is kept, the first character is upper-cased and the rest lower-cased, by the ASCII case maps |
| `FileTitles.MapPartCases` | src/components/DataFileSelector.tsx:59-83 | 'er' in any case maps to "Equivalent Ratios", 'astra' to "ASTRA Generated", and an unknown part is capitalised |
| `FileTitles.SwitchCases` | src/components/DataFileSelector.tsx:59-83 | a known token maps to one of the fixed phrases, and anything else is capitalised |
| `FileTitles.MapParts` | src/components/DataFileSelector.tsx:57-84 | each part is mapped, in order |
| `FileTitles.TitleHasNoHyphen` | src/components/DataFileSelector.tsx:57-86 | the title never contains a hyphen: the parts are joined with spaces |
| `FileTitles.SinglePartTitle` | src/components/DataFileSelector.tsx:54-86 | a name without hyphens has its one part mapped as the title |
| `Text.JoinSplit` | src/components/DataFileSelector.tsx:57 | joining the pieces of a split with the separator gives the string back |
| `Text.SplitJoin` | src/components/DataFileSelector.tsx:86 | splitting a join of separator-free parts gives the parts back |
| `FileTitles.GetFileTypeIconPriority` | src/components/DataFileSelector.tsx:42-49 | markers are tested in the order astra, successful, ER, ME, the last two case-sensitively, with the default icon otherwise |
| `FileTitles.UnsuccessfulIconUnreachable` | src/components/DataFileSelector.tsx:44-45 | the unsuccessful icon is never returned: a name with "unsuccessful" and no "astra" gets the successful icon |
| `FileTitles.FileTypeIconPriority` | src/components/DataFileSelector.tsx:42-49 | with "unsuccessful" tested first, such names get the unsuccessful icon, and every other name gets the icon it got before |
| `FileTitles.UnsuccessfulIconReachable` | src/components/DataFileSelector.tsx:45 | the corrected order gives `unsuccessful` its icon |
| `HfUpload.NormalizeFilename` | examples/huggingface-integration.py:24-29 | the normalised name ends with `.csv` |
| `HfUpload.NormalizeFilenameFacts` | examples/huggingface-integration.py:24-29 | with no name the file is `huggingface_generated_<timestamp>.csv`; a name ending in `.csv` is unchanged; any other gets exactly one `.csv` appended; so normalising is idempotent |
| `HfUpload.Line` | examples/huggingface-integration.py:39-41 | each record's line holds its values in header order, with "" for a missing key |
| `HfUpload.Lines` | examples/huggingface-integration.py:41 | one line per record, in input order |
| `HfUpload.FirstMisfit` | examples/huggingface-integration.py:41 | the first record with a key outside the header is found, or none |
| `HfUpload.WriteRows` | examples/huggingface-integration.py:41 | the loop writes every line, or stops at the first record that has a key outside the header |
| `HfUpload.SaveCsvFacts` | examples/huggingface-integration.py:16-62 | an empty list is a `ValueError` and no payload is built; a record with a key outside the header is a `ValueError` naming that key; otherwise the payload has the normalised name, the first record's keys as header and one line per record in order; the result is true iff the response status is 200, and false when the request raises |
| `HfUpload.SaveCsvData` | examples/huggingface-integration.py:16-62 | the method computes that outcome step by step |

## Left out

- **Floating point.** `ratioEdges` is left out (a division, GraphvizProcessing.ts:472), as are the thickness normalisations, colours, tooltips and DOT string generation. `checkNodePredecessors` compares `isolated > total / 2` in floating point; the same test is written exactly, on integers, as `2 * isolated > total`.
- **Parsing.** Papa.parse, the CSV reader for text, is not part of this model; the model starts from parsed rows. Parsing a time with `new Date(...)` is not modelled either: times are given integers, and an unparsable time (`NaN`, which makes the comparator inconsistent) is outside the model. `localeCompare` is any strict total order.
- **Autofill values.** The autofill column can hold only the strings a parser gives. The numeric `1` and boolean `true` comparisons cannot match such a string, so they are not modelled as separate cases.
- **JavaScript object key order.** Integer-like keys come first in an object's key order. This is ignored: nested objects iterate in insertion order. Step sequences are keyed by their JSON text, which starts with `[`, so the top-sequence tally is unaffected.
- **Outcome alignment.** The outcome used for a traversal is `outcomes[i + 1]`. When self-loops are collapsed, position `i + 1` of the step list is no longer row `i + 1`. The model uses the same index as the program and does not claim anything about which row the outcome came from.
- **Student and problem names.** The program reads them as plain keys. An absent id or name (`undefined`) is the empty string here, and the sorts order it as an ordinary key. In JavaScript, a comparison that reaches `undefined.localeCompare(...)` throws a TypeError instead. (The `!` in `a['Anon Student Id']!` is erased at compile time and changes nothing.) This throw is not modelled in any of the four sorts that can reach it:
  - `loadAndSortData`, on the problem name and the student id (GraphvizProcessing.ts:114, 116);
  - `sortBySessionIdAndTime`, on the session id (first3Last3.ts:23);
  - `sortByStudentIdAndTime`, on the student id (first3Last3.ts:34);
  - `sortAndDeduplicate`, on the student id (f3l3.ts:11).
- **First/last pass over an empty problem name.** groupByStudentId pushes a missing problem name as it is. Here that is `""`, where JavaScript would push `undefined`.
- **Depth-first search order.** The order in which neighbours are pushed is left open: any order of the unvisited neighbours is allowed. The result proved (the reachable set) does not depend on it.
- Connectivity.CheckGraphConnectivity: the iff with reachability is stated only when the nodes contain every edge end. Its one caller, calculateMaxMinEdgeCount, always meets that condition (`Connectivity.AllNodesMembers`).
- **`EdgeTrackingMaps`.** The seven JavaScript `Map`s live in one field holding a value of the datatype `TrackingMaps`, not in seven heap-allocated objects. Sharing between them is not modelled; the program never shares them.
- **Row types.** The `DataSet1` type of GradPromUtils.ts is not part of this model; `Rows.Row` stands for it. `Row` has one column per field the core reads. The `...row` spread of f3l3.ts and first3Last3.ts is a wrapper datatype around the row.
- FileTitles.Capitalize: the case maps `Text.LowerChar`/`Text.UpperChar` change only the ASCII letters `A`-`Z`/`a`-`z`. JavaScript's `toUpperCase`/`toLowerCase` follow the Unicode case tables. They also change other letters (`é` to `É`), and some mappings change the length (`ß` to `SS`). So a title part starting with a non-ASCII letter keeps that letter here. The recognised tokens of `MapPart` and the `equationanswer`/`finalanswer` markers are all ASCII, so recognising them is unaffected.
- **File icons** are symbolic values, not the emoji strings.
- **`F3L3` deduplication.** The key `${student}_${problem}` can collide: ("a_b", "c") and ("a", "b_c") share a key. The model keeps lodash's behaviour on the text key, collisions included. This is not claimed as a defect.
- **`save_csv_data`.**
  - The pandas `DataFrame` branch (`to_csv`) is not modelled.
  - CSV quoting and line endings are not modelled; the content is the header and the cells.
  - The `print` lines are not modelled.
  - The timestamp format is part of the injected `timestamp`.
- **Output.** `console.log` and `console.warn` calls are left out; they have no effect on results.

## Findings

| source | as written | input that shows it | evidently intended | confidence | as-written member | corrected member |
|---|---|---|---|---|---|---|
| src/components/GraphvizProcessing.ts:430 | edge keys are `${from}->${to}` and are read back with `split('->')` (lines 471, 774, 842, 888, 945) | steps "a->b" then "c" and steps "a" then "b->c" give the same key `a->b->c`, which reads back as the edge "a" to "b" | each key identifies one edge and reads back as it | not executed; a step name containing `->` is needed | `EdgeKeys.ArrowNamesCollide` | `EdgeKeys.KeyRoundTrip` |
| src/components/DataFileSelector.tsx:44-45 | "successful" is tested before "unsuccessful" | `unsuccessful-strategies.csv` gets the successful icon | names with "unsuccessful" get the unsuccessful icon | not executed | `FileTitles.UnsuccessfulIconUnreachable` | `FileTitles.FileTypeIconPriority` |

The corrected edge keys escape `-` as `-_` on both sides of the arrow (`EdgeKeys.EncodeKey` and `EdgeKeys.DecodeKey`). Elsewhere the model keys every edge map by the pair of step names itself, as the corrected behaviour requires. The corrected icon function `FileTitles.FileTypeIcon` tests "unsuccessful" before "successful" and agrees with the original on every other name.
