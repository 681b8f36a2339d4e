/** The researchers already explored in the current round of augmenting searches. */
module VisitManager {

  /** The set of visited researchers; a researcher not in it has not been visited. */
  type Visits = set<int>

  /** Clears every mark for a fresh round. */
  function Initialize(researcherCount: nat): (v: Visits)
    ensures forall r :: !IsVisited(v, r)
  {
    {}
  }

  predicate IsVisited(v: Visits, researcher: int) {
    researcher in v
  }

  /** Marks one researcher visited; every other mark stays as it was. */
  function Visit(v: Visits, researcher: int): (v': Visits)
    ensures IsVisited(v', researcher)
    ensures forall r | r != researcher :: IsVisited(v', r) == IsVisited(v, r)
    ensures v <= v'
  {
    v + {researcher}
  }
}
