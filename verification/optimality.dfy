/**
 * The matching the outer loop stops at is maximum. When a pass pairs nobody, its visit marks V
 * hold every unpaired researcher and every researcher reachable from one by alternating paths,
 * and every bug listed by a researcher of V is paired with a researcher of V. The researchers
 * outside V together with the bugs held by researchers of V then cover every edge and are
 * exactly as many as the pairs, so no matching can be larger.
 */
module Optimality {
  import opened Ids
  import opened PairManager
  import opened VisitManager
  import opened Tests
  import opened GandaciJava

  /** A vertex of the bipartite graph: a researcher or a bug. */
  datatype Vertex = ResearcherVertex(researcher: int) | BugVertex(bug: int)

  /** The researchers outside `explored` and the bugs held by researchers inside it. */
  ghost function Cover(t: Test, p: Pairing, explored: set<int>): set<Vertex>
    requires Fits(t, p)
  {
    (set r | 1 <= r <= t.researcherCount && r !in explored :: ResearcherVertex(r)) +
    (set b | 1 <= b <= t.bugCount && p.bug[b] in explored :: BugVertex(b))
  }

  /** No alternating path leaves the explored set and every unpaired researcher is in it. */
  ghost predicate Stuck(t: Test, p: Pairing, explored: set<int>)
    requires Valid(t) && Fits(t, p)
  {
    && (forall r | r in explored :: 1 <= r <= t.researcherCount)
    && Closed(t, p, explored, explored)
    && (forall r | 1 <= r <= t.researcherCount && p.researcher[r] == Unpaired :: r in explored)
  }

  /** Every matching of the test has at most as many pairs as the cover has vertices. */
  lemma MatchingWithinCover(t: Test, p: Pairing, explored: set<int>, q: Pairing)
    requires IsMatching(t, p) && IsMatching(t, q)
    requires Stuck(t, p, explored)
    ensures |PairedResearchers(q)| <= |Cover(t, p, explored)|
  {
    var cover := Cover(t, p, explored);
    var f := (r: int) =>
      if r in explored && 0 <= r < |q.researcher| then BugVertex(q.researcher[r]) else ResearcherVertex(r);
    forall r | r in PairedResearchers(q)
      ensures f(r) in cover
    {
      if r in explored {
        var b := q.researcher[r];
        assert b in t.experiments[r];
        var j :| 0 <= j < |t.experiments[r]| && t.experiments[r][j] == b;
        assert p.bug[t.experiments[r][j]] in explored;
      }
    }
    forall r, r' | r in PairedResearchers(q) && r' in PairedResearchers(q) && f(r) == f(r')
      ensures r == r'
    {
      if r in explored && r' in explored {
        assert q.bug[q.researcher[r]] == r && q.bug[q.researcher[r']] == r';
      }
    }
    InjectionBound(PairedResearchers(q), cover, f);
  }

  /** The cover has no more vertices than the stuck pairing has pairs. */
  lemma CoverWithinPairing(t: Test, p: Pairing, explored: set<int>)
    requires IsMatching(t, p)
    requires Stuck(t, p, explored)
    ensures |Cover(t, p, explored)| <= |PairedResearchers(p)|
  {
    var cover := Cover(t, p, explored);
    var g := (v: Vertex) =>
      match v
      case ResearcherVertex(r) => r
      case BugVertex(b) => if 0 <= b < |p.bug| then p.bug[b] else 0;
    forall v | v in cover
      ensures g(v) in PairedResearchers(p)
    {
      if v.BugVertex? {
        assert p.researcher[p.bug[v.bug]] == v.bug;
      }
    }
    forall v, v' | v in cover && v' in cover && g(v) == g(v')
      ensures v == v'
    {
      if v.BugVertex? && v'.BugVertex? {
        assert p.researcher[p.bug[v.bug]] == v.bug && p.researcher[p.bug[v'.bug]] == v'.bug;
      }
    }
    InjectionBound(cover, PairedResearchers(p), g);
  }

  /** A stuck matching is maximum: no matching of the test pairs more bugs. */
  lemma StuckIsMaximum(t: Test, p: Pairing, explored: set<int>, q: Pairing)
    requires IsMatching(t, p) && IsMatching(t, q)
    requires Stuck(t, p, explored)
    ensures |PairedBugs(q)| <= |PairedBugs(p)|
  {
    MatchingWithinCover(t, p, explored, q);
    CoverWithinPairing(t, p, explored);
    PairCountBound(p);
    PairCountBound(q);
  }

  /** The outer loop, started from any matching, ends at a maximum matching. */
  lemma {:induction false} MatchIsMaximum(t: Test, p: Pairing, q: Pairing)
    requires IsMatching(t, p) && IsMatching(t, q)
    ensures |PairedBugs(q)| <= |PairedBugs(Match(t, p))|
    decreases UnpairedBugs(p)
  {
    var s := Pass(t, p, VisitManager.Initialize(t.researcherCount), 1);
    if s.found {
      UnpairedShrinks(p, s.pairing);
      MatchIsMaximum(t, s.pairing, q);
    } else {
      assert s.visited - {} == s.visited;
      StuckIsMaximum(t, p, s.visited, q);
    }
  }

  /** The program's matching is maximum: no matching of the test pairs more bugs. */
  lemma MaximumBipartiteGraphMatchingIsMaximum(t: Test, q: Pairing)
    requires Valid(t) && IsMatching(t, q)
    ensures |PairedBugs(q)| <= |PairedBugs(MaximumBipartiteGraphMatching(t))|
  {
    MatchIsMaximum(t, PairManager.Initialize(t.researcherCount, t.bugCount), q);
  }

  /** Once the outer loop has stopped, another pass changes nothing. */
  lemma {:induction false} MatchIsFixedPoint(t: Test, p: Pairing)
    requires IsMatching(t, p)
    ensures !Pass(t, Match(t, p), VisitManager.Initialize(t.researcherCount), 1).found
    ensures Pass(t, Match(t, p), VisitManager.Initialize(t.researcherCount), 1).pairing == Match(t, p)
    decreases UnpairedBugs(p)
  {
    var s := Pass(t, p, VisitManager.Initialize(t.researcherCount), 1);
    if s.found {
      UnpairedShrinks(p, s.pairing);
      MatchIsFixedPoint(t, s.pairing);
    }
  }
}
