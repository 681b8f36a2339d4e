/** Boundary cases and worked examples of the matching size. */
module Scenarios {
  import opened Ids
  import opened PairManager
  import opened Tests
  import opened GandaciJava
  import opened Optimality
  import opened Solver

  /** A researcher with no experiments is never paired in a matching. */
  lemma IdleResearchersUnpaired(t: Test, q: Pairing, active: set<int>)
    requires IsMatching(t, q)
    requires forall r | 1 <= r <= t.researcherCount && r !in active :: t.experiments[r] == []
    ensures PairedResearchers(q) <= active
    ensures |PairedBugs(q)| <= |active|
  {
    forall r | r in PairedResearchers(q)
      ensures r in active
    {
      assert q.researcher[r] in t.experiments[r];
    }
    PairCountBound(q);
    SubsetBound(PairedResearchers(q), active);
  }

  /** No researchers, no bugs, or no experiments at all: nothing is paired. */
  lemma EmptyGraph(t: Test)
    requires Valid(t)
    requires t.researcherCount == 0 || t.bugCount == 0 ||
             forall r | 1 <= r <= t.researcherCount :: t.experiments[r] == []
    ensures MaximumMatchingSize(t) == 0
  {
    var q := MaximumBipartiteGraphMatching(t);
    if t.researcherCount != 0 && t.bugCount != 0 {
      IdleResearchersUnpaired(t, q, {});
    }
  }

  /** When every researcher has experimented on every bug, the smaller side is fully paired. */
  lemma CompleteGraph(t: Test)
    requires Valid(t)
    requires forall r, b | 1 <= r <= t.researcherCount && 1 <= b <= t.bugCount :: b in t.experiments[r]
    ensures MaximumMatchingSize(t) == Min(t.researcherCount, t.bugCount)
  {
    var m := Min(t.researcherCount, t.bugCount);
    var w := Pairing(seq(t.researcherCount + 1, r => if 1 <= r <= m then r else Unpaired),
                     seq(t.bugCount + 1, b => if 1 <= b <= m then b else Unpaired));
    assert IsMatching(t, w);
    assert PairedBugs(w) == Range(m);
    RangeSize(m);
    MaximumBipartiteGraphMatchingIsMaximum(t, w);
  }

  /** A matching that reaches an upper bound on the size fixes the size. */
  lemma SizeFromWitness(t: Test, w: Pairing, active: set<int>)
    requires Valid(t) && IsMatching(t, w)
    requires forall r | 1 <= r <= t.researcherCount && r !in active :: t.experiments[r] == []
    requires |PairedBugs(w)| == |active| || |PairedBugs(w)| == Min(t.researcherCount, t.bugCount)
    ensures MaximumMatchingSize(t) == |PairedBugs(w)|
  {
    MaximumMatchingSizeIsMaximum(t);
    IdleResearchersUnpaired(t, MaximumBipartiteGraphMatching(t), active);
  }

  /** Three researchers and three bugs with edges 1-1, 1-2, 2-1, 3-2, 3-3: all three pair up. */
  lemma ThreeByThree(t: Test)
    requires t == Test(3, 3, [[], [1, 2], [1], [2, 3]])
    ensures MaximumMatchingSize(t) == 3
  {
    var w := Pairing([0, 2, 1, 3], [0, 2, 1, 3]);
    assert IsMatching(t, w);
    assert PairedBugs(w) == {1, 2, 3};
    assert |PairedBugs(w)| == 3;
    SizeFromWitness(t, w, {1, 2, 3});
  }

  /** Two researchers competing for one bug: one pair. */
  lemma TwoResearchersOneBug(t: Test)
    requires t == Test(2, 1, [[], [1], [1]])
    ensures MaximumMatchingSize(t) == 1
  {
    var w := Pairing([0, 1, 0], [0, 1]);
    assert IsMatching(t, w);
    assert PairedBugs(w) == {1};
    SizeFromWitness(t, w, {1, 2});
  }

  /** Four researchers and bugs with edges 1-1 and 2-2 only: two pairs. */
  lemma Disconnected(t: Test)
    requires t == Test(4, 4, [[], [1], [2], [], []])
    ensures MaximumMatchingSize(t) == 2
  {
    var w := Pairing([0, 1, 2, 0, 0], [0, 1, 2, 0, 0]);
    assert IsMatching(t, w);
    assert PairedBugs(w) == {1, 2};
    SizeFromWitness(t, w, {1, 2});
  }
}
