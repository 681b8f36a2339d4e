/** The current researcher-bug matching, held as two partner arrays. */
module PairManager {
  import opened Ids

  /** The partner sentinel: a researcher or bug whose entry is 0 is unpaired. */
  const Unpaired := 0

  /**
   * researcher[r] is the bug researcher r is paired with, bug[b] the researcher bug b is
   * paired with. Both are indexed from 1; index 0 exists but is never used, as in the
   * 1-indexed arrays the program keeps.
   */
  datatype Pairing = Pairing(researcher: seq<int>, bug: seq<int>)

  /** Every entry names an identifier that exists on the other side, or is the sentinel. */
  ghost predicate WellFormed(p: Pairing) {
    && |p.researcher| >= 1
    && |p.bug| >= 1
    && (forall r | 1 <= r < |p.researcher| :: 0 <= p.researcher[r] < |p.bug|)
    && (forall b | 1 <= b < |p.bug| :: 0 <= p.bug[b] < |p.researcher|)
  }

  /**
   * The two arrays agree, except that bug `stale` may still name a researcher that has since
   * moved to another bug. This is the state inside an augmenting search, between rerouting a
   * researcher and handing its old bug to the researcher that asked for it.
   */
  ghost predicate SymmetricExcept(p: Pairing, stale: int)
    requires WellFormed(p)
  {
    && (forall r | 1 <= r < |p.researcher| && p.researcher[r] != Unpaired ::
          p.bug[p.researcher[r]] == r)
    && (forall b | 1 <= b < |p.bug| && b != stale && p.bug[b] != Unpaired ::
          p.researcher[p.bug[b]] == b)
  }

  /** researcher[r] == b exactly when bug[b] == r, for every paired entry. */
  ghost predicate Symmetric(p: Pairing)
    requires WellFormed(p)
  {
    SymmetricExcept(p, Unpaired)
  }

  ghost function PairedBugs(p: Pairing): set<int> {
    set b | 1 <= b < |p.bug| && p.bug[b] != Unpaired
  }

  ghost function PairedResearchers(p: Pairing): set<int> {
    set r | 1 <= r < |p.researcher| && p.researcher[r] != Unpaired
  }

  ghost function UnpairedBugs(p: Pairing): set<int> {
    set b | 1 <= b < |p.bug| && p.bug[b] == Unpaired
  }

  /** The bugs 1..n-1 that are paired: what getPairCount has counted before index n. */
  ghost function PairedBugsBelow(p: Pairing, n: int): set<int> {
    set b | 1 <= b < n && b < |p.bug| && p.bug[b] != Unpaired
  }

  /** A fresh pairing for the given counts, in which nobody is paired. */
  function Initialize(researcherCount: nat, bugCount: nat): (p: Pairing)
    requires researcherCount <= Capacity && bugCount <= Capacity
    ensures |p.researcher| == researcherCount + 1 && |p.bug| == bugCount + 1
    ensures forall r | 1 <= r <= researcherCount :: !IsResearcherPaired(p, r)
    ensures forall b | 1 <= b <= bugCount :: !IsBugPaired(p, b)
    ensures WellFormed(p) && Symmetric(p)
    ensures PairedBugs(p) == {} && PairedResearchers(p) == {}
  {
    Pairing(seq(researcherCount + 1, _ => Unpaired), seq(bugCount + 1, _ => Unpaired))
  }

  /**
   * Records researcher and bug as partners, overwriting both entries and nothing else. Whoever
   * held either of them before is not told; callers must have moved them elsewhere first.
   */
  function Pair(p: Pairing, researcher: int, bug: int): (q: Pairing)
    requires 1 <= researcher < |p.researcher| && 1 <= bug < |p.bug|
    ensures |q.researcher| == |p.researcher| && |q.bug| == |p.bug|
    ensures GetBugOfResearcher(q, researcher) == bug
    ensures GetResearcherOfBug(q, bug) == researcher
    ensures forall r | 0 <= r < |p.researcher| && r != researcher :: q.researcher[r] == p.researcher[r]
    ensures forall b | 0 <= b < |p.bug| && b != bug :: q.bug[b] == p.bug[b]
    ensures WellFormed(p) ==> WellFormed(q)
  {
    Pairing(p.researcher[researcher := bug], p.bug[bug := researcher])
  }

  predicate IsResearcherPaired(p: Pairing, researcher: int)
    requires 0 <= researcher < |p.researcher|
  {
    p.researcher[researcher] != Unpaired
  }

  predicate IsBugPaired(p: Pairing, bug: int)
    requires 0 <= bug < |p.bug|
  {
    p.bug[bug] != Unpaired
  }

  function GetResearcherOfBug(p: Pairing, bug: int): int
    requires 0 <= bug < |p.bug|
  {
    p.bug[bug]
  }

  function GetBugOfResearcher(p: Pairing, researcher: int): int
    requires 0 <= researcher < |p.researcher|
  {
    p.researcher[researcher]
  }

  /** In a symmetric pairing the queries from either side agree. */
  lemma QueriesAgree(p: Pairing, researcher: int, bug: int)
    requires WellFormed(p) && Symmetric(p)
    requires 1 <= researcher < |p.researcher| && 1 <= bug < |p.bug|
    ensures GetBugOfResearcher(p, researcher) == bug <==> GetResearcherOfBug(p, bug) == researcher
    ensures IsResearcherPaired(p, researcher) ==> IsBugPaired(p, GetBugOfResearcher(p, researcher))
    ensures IsBugPaired(p, bug) ==> IsResearcherPaired(p, GetResearcherOfBug(p, bug))
  {
  }

  /** Counts the paired bugs by scanning bugs 1..bugCount. */
  method GetPairCount(p: Pairing) returns (pairCount: int)
    ensures pairCount == |PairedBugs(p)|
  {
    pairCount := 0;
    var bugIndex := 1;
    while bugIndex < |p.bug|
      invariant 1 <= bugIndex && (|p.bug| >= 1 ==> bugIndex <= |p.bug|)
      invariant pairCount == |PairedBugsBelow(p, bugIndex)|
    {
      if p.bug[bugIndex] != Unpaired {
        assert PairedBugsBelow(p, bugIndex + 1) == PairedBugsBelow(p, bugIndex) + {bugIndex};
        pairCount := pairCount + 1;
      } else {
        assert PairedBugsBelow(p, bugIndex + 1) == PairedBugsBelow(p, bugIndex);
      }
      bugIndex := bugIndex + 1;
    }
    assert PairedBugsBelow(p, bugIndex) == PairedBugs(p);
  }

  /**
   * In a symmetric pairing as many researchers as bugs are paired, and so the pair count is
   * at most the smaller of the two counts.
   */
  lemma PairCountBound(p: Pairing)
    requires WellFormed(p) && Symmetric(p)
    ensures |PairedBugs(p)| == |PairedResearchers(p)|
    ensures |PairedBugs(p)| <= Min(|p.researcher| - 1, |p.bug| - 1)
  {
    ResearchersInjectIntoBugs(p);
    BugsInjectIntoResearchers(p);
    RangeSubsetBound(PairedBugs(p), |p.bug| - 1);
    RangeSubsetBound(PairedResearchers(p), |p.researcher| - 1);
  }

  lemma ResearchersInjectIntoBugs(p: Pairing)
    requires WellFormed(p) && Symmetric(p)
    ensures |PairedResearchers(p)| <= |PairedBugs(p)|
  {
    var toBug := (r: int) => if 0 <= r < |p.researcher| then p.researcher[r] else 0;
    forall r | r in PairedResearchers(p)
      ensures toBug(r) in PairedBugs(p)
    {
      assert p.bug[p.researcher[r]] == r;
    }
    InjectionBound(PairedResearchers(p), PairedBugs(p), toBug);
  }

  lemma BugsInjectIntoResearchers(p: Pairing)
    requires WellFormed(p) && Symmetric(p)
    ensures |PairedBugs(p)| <= |PairedResearchers(p)|
  {
    var toResearcher := (b: int) => if 0 <= b < |p.bug| then p.bug[b] else 0;
    forall b | b in PairedBugs(p)
      ensures toResearcher(b) in PairedResearchers(p)
    {
      assert p.researcher[p.bug[b]] == b;
    }
    InjectionBound(PairedBugs(p), PairedResearchers(p), toResearcher);
  }
}
