# GandaciJava maximum bipartite matching, modelled in Dafny

GandaciJava solves the InfoArena "java" problem. Each test has researchers and bugs, and a
list of experiments, where an experiment is a researcher-bug edge. The program pairs as many
researchers with bugs as it can, and each researcher and each bug is used at most once. It uses
Kuhn's augmenting-path algorithm:

- `PairManager` holds the matching as two 1-indexed partner arrays, with `0` meaning
  "unpaired".
- `VisitManager` marks the researchers visited in the current round.
- `Test` holds each researcher's experiment list.
- `GandaciJava::pair` searches recursively for one researcher. It first looks for a free bug,
  then tries to move the holders of its bugs elsewhere.
- `maximumBipartiteGraphMatching` repeats passes over all unpaired researchers until a pass
  pairs nobody.
- `solve` appends one pair count per test.

The model is functional, and it keeps the program's own structure:

- The pairing is two `seq<int>` of length count + 1, and index 0 is unused, as in the program's
  arrays.
- The visit marks are a `set<int>`.
- The search returns `Search(found, pairing, visited)`. It threads the pairing and the marks
  through two mutually recursive functions. `Augment` is the call of `pair`, and `Reroute` is
  its second loop.
- The search terminates because every nested call shrinks the set of unvisited researchers
  (`Unvisited`), so the recursion is at most `researcherCount` deep.
- Each researcher is searched from at most once per round. A nested search starts only from an
  unmarked researcher, which the `isVisited` test guarantees. A top-level search starts only
  from a researcher that is not yet marked. `Augment` and `Reroute` show that every researcher a
  search marks, apart from the one it starts from, was already paired. `Pass` requires every
  mark to belong to an earlier researcher or a paired one, so the unpaired researcher whose turn
  it is has no mark.
- The outer loop `Match` terminates because every repetition shrinks the set of unpaired bugs.
  This is the measure `bugCount - pairCount`, written as a set.

What is proved:

- Every pairing the engine produces is a matching of the test. Both arrays agree, and each
  paired researcher holds a bug from its own experiment list.
- A successful search pairs exactly one more bug and unpairs nobody.
- A failed search changes only the visit marks.
- Inside the recursion, symmetry is relaxed at exactly one bug: the old bug of the researcher
  that just moved still names that researcher. The caller's `pair` call then repairs the
  arrays (`PairAfterReroute`).
- The second loop never meets an unpaired bug, so `getResearcherOfBug` never returns 0 there.
  `Reroute` requires every listed bug to be paired. The failed first loop establishes this,
  and failed inner searches keep it, because they leave the pairing unchanged.
- The final matching is maximum. When a pass pairs nobody, its visit marks give a vertex cover
  as large as the matching: the unvisited researchers plus the bugs held by visited
  researchers. So no matching of the test is larger (König's bound). This proof does not need
  Berge's lemma.

## Model

| member | source | states |
|---|---|---|
| PairManager.Initialize | GandaciJava/GandaciJava.cpp:15-23 | After initialisation, every researcher 1..researcherCount and every bug 1..bugCount is unpaired. The arrays are sized for the counts, symmetric, and no bug is paired, so the pair count is 0. |
| PairManager.Pair | GandaciJava/GandaciJava.cpp:25-29 | Afterwards the researcher's bug is `bug` and the bug's researcher is `researcher`. Every other entry of both arrays is unchanged, and well-formedness is kept. |
| PairManager.QueriesAgree | GandaciJava/GandaciJava.cpp:31-53 | In a symmetric pairing, researcher r holds bug b exactly when bug b names r. A paired researcher's bug is paired, and a paired bug's researcher is paired. |
| PairManager.GetPairCount | GandaciJava/GandaciJava.cpp:55-70 | The scan over bugs 1..bugCount returns the number of paired bugs, which is the size of the set of bugs whose entry is not 0. |
| PairManager.PairCountBound | GandaciJava/GandaciJava.cpp:56-70 | In a symmetric pairing, the numbers of paired bugs and paired researchers are equal. The pair count is therefore at most min(researcherCount, bugCount). |
| VisitManager.Initialize | GandaciJava/GandaciJava.cpp:80-84 | After clearing, no researcher is visited. |
| VisitManager.Visit | GandaciJava/GandaciJava.cpp:91-94 | Afterwards the researcher is visited, every other mark is unchanged, and no mark is removed. |
| Tests.NewTest | GandaciJava/GandaciJava.cpp:108-112 | A new test has the given counts, an empty experiment list for every researcher, and is valid. |
| Tests.AddExperiment | GandaciJava/GandaciJava.cpp:124-127 | The bug is appended to the end of that researcher's list, and every other list and both counts are unchanged. |
| Tests.ExperimentExists | GandaciJava/GandaciJava.cpp:134-145 | Returns true exactly when the bug occurs in the researcher's experiment list. |
| Tests.Contains | GandaciJava/GandaciJava.cpp:136-144 | The front-to-back scan with early exit returns true exactly when some position of the list holds the bug. |
| Tests.Record | GandaciJava/GandaciJava.cpp:284-288 | Add-if-absent: afterwards the list holds the old bugs plus the new one. A duplicate-free list stays duplicate-free, and other researchers' lists are unchanged. |
| Tests.RecordAll | GandaciJava/GandaciJava.cpp:275-289 | Recording a test's experiment lines in order keeps the test valid. Each list then holds exactly its old bugs plus the bugs of its lines, and duplicate-free lists stay duplicate-free. |
| Tests.LoadedTest | GandaciJava/GandaciJava.cpp:272-289 | A test loaded from its lines is valid. Bug b is in researcher r's list exactly when (r, b) is one of the lines, and no list repeats a bug. |
| GandaciJava.FirstFree | GandaciJava/GandaciJava.cpp:169-180 | The first loop stops at the first unpaired bug of the list. If it reaches the end, every listed bug is paired. |
| GandaciJava.Augment | GandaciJava/GandaciJava.cpp:160-206 | The search marks its researcher and visits only researchers. Success: the researcher holds a new listed bug that names it back, and the arrays agree except at its old bug, which still names it. Only researchers visited by this search moved, none was unpaired, and exactly one more bug is paired. Every researcher it marks other than itself was paired before the search. Failure: the pairing is unchanged, and every bug listed by a researcher it explored is paired with a visited researcher. |
| GandaciJava.Reroute | GandaciJava/GandaciJava.cpp:182-206 | The second loop requires every listed bug to be paired, so the holder it reads is never 0. On success, the bug taken from a moved holder goes to the researcher, as `Augment` describes. On failure, the pairing is unchanged and every remaining bug's holder has been visited. Every researcher it marks was paired before it started. |
| GandaciJava.PairFreeBug | GandaciJava/GandaciJava.cpp:173-178 | Pairing the researcher with a free listed bug is a successful search: the pair is on an edge, symmetry holds except at the researcher's old bug, and the pair count rises by one. |
| GandaciJava.PairAfterReroute | GandaciJava/GandaciJava.cpp:192-199 | After the holder of `bug` has moved, `bug` still names it. Giving `bug` to the researcher restores symmetry everywhere except at the researcher's own old bug, keeps every pair on an edge, and leaves the pair count at one more than before the search. |
| GandaciJava.Pass | GandaciJava/GandaciJava.cpp:224-235 | The marks at each researcher's turn belong only to earlier researchers or paired ones. So a top-level search never starts from an already-marked researcher, as the comment at lines 165-166 promises. One pass keeps the pairing a matching on the test's edges, and no paired bug or researcher becomes unpaired. If any search succeeded, the set of paired bugs and the pair count strictly grow. If none did, the pairing is unchanged, every unpaired researcher is visited, and everything visited is closed. |
| GandaciJava.PassStep | GandaciJava/GandaciJava.cpp:231-234 | A search started from an unpaired researcher leaves a fully symmetric matching, loses no paired bug or researcher, and on success pairs strictly more bugs. |
| GandaciJava.UnpairedShrinks | GandaciJava/GandaciJava.cpp:237 | A pass that paired somebody strictly shrinks the set of unpaired bugs. This is the termination measure of the do-while loop. |
| GandaciJava.Match | GandaciJava/GandaciJava.cpp:220-237 | The repeated passes end in a matching of the test that keeps every bug paired at the start. |
| GandaciJava.MaximumBipartiteGraphMatching | GandaciJava/GandaciJava.cpp:209-238 | From an empty pairing, the result is a symmetric matching on the test's edges, with at most min(researcherCount, bugCount) pairs. |
| Optimality.MatchingWithinCover | GandaciJava/GandaciJava.cpp:208-238 | When a pass pairs nobody, every matching of the test has at most as many pairs as the cover has vertices. |
| Optimality.CoverWithinPairing | GandaciJava/GandaciJava.cpp:208-238 | When a pass pairs nobody, the cover has at most as many vertices as the pairing has pairs. |
| Optimality.StuckIsMaximum | GandaciJava/GandaciJava.cpp:208-238 | A pairing on which a whole pass fails has at least as many pairs as any matching of the test. |
| Optimality.MatchIsMaximum | GandaciJava/GandaciJava.cpp:208-238 | From any starting matching, the outer loop ends with at least as many pairs as any matching of the test. |
| Optimality.MaximumBipartiteGraphMatchingIsMaximum | GandaciJava/GandaciJava.cpp:208-238 | The computed matching is maximum, as the comment on line 208 promises. |
| Optimality.MatchIsFixedPoint | GandaciJava/GandaciJava.cpp:222-237 | After the loop exits, one more pass pairs nobody and leaves the pairing unchanged. |
| Solver.MaximumMatchingSizeIsMaximum | GandaciJava/GandaciJava.cpp:296-305 | The stored solution is at least 0, at most min(researcherCount, bugCount), and at least the size of every matching of the test. |
| Solver.Solve | GandaciJava/GandaciJava.cpp:296-305 | Solving a test appends exactly one entry, the pair count of the computed matching, and keeps the earlier solutions. |
| Solver.SolveAll | GandaciJava/GandaciJava.cpp:308-314 | Solving a list of tests appends one count per test, in test order, after the earlier solutions. |
| Scenarios.IdleResearchersUnpaired | GandaciJava/GandaciJava.cpp:160-180 | A researcher with no experiments is never paired in a matching. So the pair count is at most the number of researchers with experiments. |
| Scenarios.EmptyGraph | GandaciJava/GandaciJava.cpp:209-238 | With no researchers, no bugs, or no experiments, the solution is 0. |
| Scenarios.CompleteGraph | GandaciJava/GandaciJava.cpp:209-238 | When every researcher has experimented on every bug, the solution is min(researcherCount, bugCount). |
| Scenarios.SizeFromWitness | GandaciJava/GandaciJava.cpp:209-238 | A matching that reaches an upper bound determines the solution. |
| Scenarios.ThreeByThree | GandaciJava/GandaciJava.cpp:209-238 | Three researchers and three bugs with edges 1-1, 1-2, 2-1, 3-2, 3-3 give 3. |
| Scenarios.TwoResearchersOneBug | GandaciJava/GandaciJava.cpp:209-238 | Two researchers sharing one bug give 1. |
| Scenarios.Disconnected | GandaciJava/GandaciJava.cpp:209-238 | Four researchers and four bugs with edges 1-1 and 2-2 only give 2. |

## Left out

- `loadTests` file reading, `writeSolution` and `main` are stream I/O. Only the in-memory part
  of the loader's loop is modelled, by `RecordAll`: add each experiment if it is absent, in
  input order.
- The `short` widths and the fixed 10001-element capacities are not modelled. `Valid` and
  `PairManager.Initialize` require counts of at most 10000 (`Capacity`), and bug identifiers
  lie in 1..bugCount. Every count involved is at most 10000, so no arithmetic can overflow.
- `memset` is modelled as "every entry is 0" (`Initialize`) or "no researcher is visited"
  (`VisitManager.Initialize`), not byte by byte.
- The pass-by-value copies of `Test` and `vector` (`getExperiments`, `solve(Test)`) are not
  modelled, because they have no observable effect.
- `getResearcherCount`, `getBugCount` and `getSolutions` are plain field reads. They are read
  directly in the model, and the `solutions` member is the `solutions` parameter of `Solve` and
  `SolveAll`.
- The queries `isResearcherPaired`, `isBugPaired`, `getResearcherOfBug`, `getBugOfResearcher`,
  `isVisited` and `getExperiments` (`Tests.GetExperiments`) are one-line reads of an array
  entry or a list. They are modelled as predicates and
  functions without contracts of their own. `QueriesAgree` states what they promise together.
- Researcher 0 and bug 0: the program never reads these array slots for a real identifier,
  and neither does the model. Their contents are left unconstrained.
- The default constructor `Test()` only exists so that `currentTest` can be declared. It builds
  no usable test and is not modelled.
- Zero counts: nothing in the code needs the counts to be positive. The model follows the
  code and allows `researcherCount` or `bugCount` to be 0
  (`Scenarios.EmptyGraph`).
- Stack depth: the nesting of `pair` is bounded only through the termination measure
  (`Unvisited` shrinks on every nested call). There is no separate lemma bounding the depth
  by `researcherCount`.
