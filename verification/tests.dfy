/**
 * One test case: the researcher and bug counts and, for each researcher, the bugs it has
 * experimented on (the edges of the bipartite graph), in the order they were recorded.
 */
module Tests {
  import opened Ids

  /** experiments[r] lists researcher r's bugs; index 0 exists but is never used. */
  datatype Test = Test(researcherCount: int, bugCount: int, experiments: seq<seq<int>>)

  /** Counts within capacity, one list per researcher, and every listed bug a real bug. */
  ghost predicate Valid(t: Test) {
    && 0 <= t.researcherCount <= Capacity
    && 0 <= t.bugCount <= Capacity
    && |t.experiments| == t.researcherCount + 1
    && forall r, j | 1 <= r <= t.researcherCount && 0 <= j < |t.experiments[r]| ::
         1 <= t.experiments[r][j] <= t.bugCount
  }

  /** No bug is listed twice for the same researcher. */
  ghost predicate NoDuplicates(bugs: seq<int>) {
    forall i, j | 0 <= i < j < |bugs| :: bugs[i] != bugs[j]
  }

  /** A test with the given counts and no experiments yet. */
  function NewTest(researcherCount: int, bugCount: int): (t: Test)
    requires 0 <= researcherCount <= Capacity && 0 <= bugCount <= Capacity
    ensures Valid(t)
    ensures t.researcherCount == researcherCount && t.bugCount == bugCount
    ensures forall r | 0 <= r <= researcherCount :: GetExperiments(t, r) == []
  {
    Test(researcherCount, bugCount, seq(researcherCount + 1, _ => []))
  }

  function GetExperiments(t: Test, researcher: int): seq<int>
    requires 0 <= researcher < |t.experiments|
  {
    t.experiments[researcher]
  }

  /** Appends bug to the end of researcher's list; every other list is left alone. */
  function AddExperiment(t: Test, researcher: int, bug: int): (u: Test)
    requires 0 <= researcher < |t.experiments|
    ensures u.researcherCount == t.researcherCount && u.bugCount == t.bugCount
    ensures |u.experiments| == |t.experiments|
    ensures GetExperiments(u, researcher) == GetExperiments(t, researcher) + [bug]
    ensures forall r | 0 <= r < |t.experiments| && r != researcher ::
              GetExperiments(u, r) == GetExperiments(t, r)
  {
    t.(experiments := t.experiments[researcher := t.experiments[researcher] + [bug]])
  }

  /** Whether bug is already in researcher's list. */
  function ExperimentExists(t: Test, researcher: int, bug: int): (found: bool)
    requires 0 <= researcher < |t.experiments|
    ensures found <==> bug in GetExperiments(t, researcher)
  {
    Contains(t.experiments[researcher], bug)
  }

  /** Scans the list front to back and stops at the first occurrence. */
  function Contains(bugs: seq<int>, bug: int): (found: bool)
    ensures found <==> exists j | 0 <= j < |bugs| :: bugs[j] == bug
  {
    if |bugs| == 0 then false
    else if bugs[0] == bug then true
    else Contains(bugs[1..], bug)
  }

  /** Adds the experiment unless it is already recorded, as the loader does for each input line. */
  function Record(t: Test, researcher: int, bug: int): (u: Test)
    requires 0 <= researcher < |t.experiments|
    ensures u.researcherCount == t.researcherCount && u.bugCount == t.bugCount
    ensures |u.experiments| == |t.experiments|
    ensures forall b :: b in GetExperiments(u, researcher) <==>
              b in GetExperiments(t, researcher) || b == bug
    ensures NoDuplicates(GetExperiments(t, researcher)) ==> NoDuplicates(GetExperiments(u, researcher))
    ensures forall r | 0 <= r < |t.experiments| && r != researcher ::
              GetExperiments(u, r) == GetExperiments(t, r)
  {
    if ExperimentExists(t, researcher, bug) then t else AddExperiment(t, researcher, bug)
  }

  /**
   * Records a test's experiment lines in input order. Afterwards each list holds exactly the
   * bugs it held before plus those of its lines, each once.
   */
  function RecordAll(t: Test, edges: seq<(int, int)>): (u: Test)
    requires Valid(t)
    requires forall k | 0 <= k < |edges| ::
               1 <= edges[k].0 <= t.researcherCount && 1 <= edges[k].1 <= t.bugCount
    ensures Valid(u)
    ensures u.researcherCount == t.researcherCount && u.bugCount == t.bugCount
    ensures forall r, b | 0 <= r <= t.researcherCount ::
              b in GetExperiments(u, r) <==> b in GetExperiments(t, r) || (r, b) in edges
    ensures forall r | 0 <= r <= t.researcherCount && NoDuplicates(GetExperiments(t, r)) ::
              NoDuplicates(GetExperiments(u, r))
    decreases |edges|
  {
    if |edges| == 0 then t
    else
      var next := Record(t, edges[0].0, edges[0].1);
      assert edges == [edges[0]] + edges[1..];
      RecordAll(next, edges[1..])
  }

  /** Loading a test from its experiment lines yields each distinct experiment exactly once. */
  lemma LoadedTest(researcherCount: int, bugCount: int, edges: seq<(int, int)>)
    requires 0 <= researcherCount <= Capacity && 0 <= bugCount <= Capacity
    requires forall k | 0 <= k < |edges| ::
               1 <= edges[k].0 <= researcherCount && 1 <= edges[k].1 <= bugCount
    ensures Valid(RecordAll(NewTest(researcherCount, bugCount), edges))
    ensures forall r, b | 0 <= r <= researcherCount ::
              (b in GetExperiments(RecordAll(NewTest(researcherCount, bugCount), edges), r) <==>
               (r, b) in edges)
    ensures forall r | 0 <= r <= researcherCount ::
              NoDuplicates(GetExperiments(RecordAll(NewTest(researcherCount, bugCount), edges), r))
  {
    var t := NewTest(researcherCount, bugCount);
    forall r | 0 <= r <= researcherCount
      ensures NoDuplicates(GetExperiments(t, r))
    {
    }
  }
}
