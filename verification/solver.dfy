/** Solving tests: the matching size of each test, appended to the solutions in test order. */
module Solver {
  import opened Ids
  import opened PairManager
  import opened Tests
  import opened GandaciJava
  import opened Optimality

  /** The size of the matching the program computes for a test. */
  ghost function MaximumMatchingSize(t: Test): int
    requires Valid(t)
  {
    |PairedBugs(MaximumBipartiteGraphMatching(t))|
  }

  /**
   * The size of the program's matching is the maximum matching size: at most the smaller of
   * the two counts, and at least the size of every matching of the test.
   */
  lemma MaximumMatchingSizeIsMaximum(t: Test)
    requires Valid(t)
    ensures 0 <= MaximumMatchingSize(t) <= Min(t.researcherCount, t.bugCount)
    ensures forall q | IsMatching(t, q) :: |PairedBugs(q)| <= MaximumMatchingSize(t)
  {
    forall q | IsMatching(t, q)
      ensures |PairedBugs(q)| <= MaximumMatchingSize(t)
    {
      MaximumBipartiteGraphMatchingIsMaximum(t, q);
    }
  }

  /** Solves one test: computes its matching and appends the pair count to the solutions. */
  method Solve(solutions: seq<int>, t: Test) returns (solutions': seq<int>)
    requires Valid(t)
    ensures solutions' == solutions + [MaximumMatchingSize(t)]
  {
    var pairing := MaximumBipartiteGraphMatching(t);
    var pairCount := GetPairCount(pairing);
    solutions' := solutions + [pairCount];
  }

  /** Solves the tests in order, appending one count per test. */
  method SolveAll(solutions: seq<int>, tests: seq<Test>) returns (solutions': seq<int>)
    requires forall k | 0 <= k < |tests| :: Valid(tests[k])
    ensures |solutions'| == |solutions| + |tests| && solutions'[..|solutions|] == solutions
    ensures forall k | 0 <= k < |tests| :: solutions'[|solutions| + k] == MaximumMatchingSize(tests[k])
  {
    ghost var sizes := seq(|tests|, k requires 0 <= k < |tests| => MaximumMatchingSize(tests[k]));
    solutions' := solutions;
    var i := 0;
    while i < |tests|
      invariant 0 <= i <= |tests|
      invariant solutions' == solutions + sizes[..i]
    {
      solutions' := Solve(solutions', tests[i]);
      PrefixGrows(sizes, i);
      i := i + 1;
    }
    AppendedAt(solutions, sizes);
  }

  lemma PrefixGrows(s: seq<int>, i: nat)
    requires i < |s|
    ensures s[..i + 1] == s[..i] + [s[i]]
  {
  }

  lemma AppendedAt(prefix: seq<int>, s: seq<int>)
    ensures (prefix + s[..|s|])[..|prefix|] == prefix
    ensures forall k | 0 <= k < |s| :: (prefix + s[..|s|])[|prefix| + k] == s[k]
  {
    assert s[..|s|] == s;
  }
}
