/**
 * Kuhn's augmenting-path matching of researchers to bugs. `Augment` is the recursive search
 * for one researcher (a pass looking for a free bug, then a pass rerouting the holders of its
 * bugs), `Pass` tries every unpaired researcher once with one shared visited set, and `Match`
 * repeats passes until one pairs nobody.
 */
module GandaciJava {
  import opened Ids
  import opened PairManager
  import opened VisitManager
  import opened Tests

  /** What a search leaves behind: whether it paired its researcher, the pairing, the marks. */
  datatype Search = Search(found: bool, pairing: Pairing, visited: Visits)

  /** The pairing's arrays are sized for the test's counts. */
  ghost predicate Fits(t: Test, p: Pairing) {
    |p.researcher| == t.researcherCount + 1 && |p.bug| == t.bugCount + 1
  }

  /** Every paired researcher is paired with a bug from its own experiment list. */
  ghost predicate OnEdges(t: Test, p: Pairing)
    requires Valid(t) && Fits(t, p)
  {
    forall r | 1 <= r <= t.researcherCount && p.researcher[r] != Unpaired ::
      p.researcher[r] in t.experiments[r]
  }

  /** A well-formed pairing of the test that only uses the test's edges. */
  ghost predicate Consistent(t: Test, p: Pairing) {
    Valid(t) && Fits(t, p) && WellFormed(p) && OnEdges(t, p)
  }

  /** A matching of the test: consistent, and the two partner arrays agree. */
  ghost predicate IsMatching(t: Test, p: Pairing) {
    Consistent(t, p) && Symmetric(p)
  }

  /** The researchers a round has not visited yet; every nested search shrinks this set. */
  ghost function Unvisited(t: Test, visited: Visits): set<int> {
    set r | 1 <= r <= t.researcherCount && r !in visited
  }

  /** The marks added between `before` and `after` are all researchers of the test. */
  ghost predicate VisitsResearchers(t: Test, before: Visits, after: Visits) {
    forall r | r in after && r !in before :: 1 <= r <= t.researcherCount
  }

  /**
   * Every bug listed by a researcher of `explored` is paired, with a researcher in `reached`:
   * what a failed search has learnt about the part of the graph it explored.
   */
  ghost predicate Closed(t: Test, p: Pairing, explored: set<int>, reached: set<int>)
    requires Valid(t) && Fits(t, p)
  {
    forall r, j | r in explored && 1 <= r <= t.researcherCount && 0 <= j < |t.experiments[r]| ::
      p.bug[t.experiments[r][j]] != Unpaired && p.bug[t.experiments[r][j]] in reached
  }

  /**
   * How a successful search for `researcher` changes the pairing p into q. The researcher holds
   * a new bug that names it back; the result is symmetric except that the researcher's old bug
   * still names it (its caller hands that bug on next); only the researcher and the researchers
   * `below` it in the search changed bugs, none of them lost its bug; a bug only changes hands
   * if it was free or held by a researcher below, and then goes to the researcher or one below;
   * and exactly one more bug is paired.
   */
  ghost predicate Rerouted(p: Pairing, q: Pairing, researcher: int, below: set<int>)
    requires WellFormed(p) && WellFormed(q)
    requires |q.researcher| == |p.researcher| && |q.bug| == |p.bug|
    requires 1 <= researcher < |p.researcher|
  {
    var before := p.researcher[researcher];
    var after := q.researcher[researcher];
    && after != Unpaired && after != before && q.bug[after] == researcher
    && SymmetricExcept(q, before)
    && (before != Unpaired ==> q.bug[before] == researcher)
    && (forall r | 1 <= r < |p.researcher| && r != researcher && r !in below ::
          q.researcher[r] == p.researcher[r])
    && (forall r | 1 <= r < |p.researcher| && q.researcher[r] != p.researcher[r] ::
          q.researcher[r] != Unpaired)
    && (forall b | 1 <= b < |p.bug| && q.bug[b] != p.bug[b] ::
          && (p.bug[b] == Unpaired || p.bug[b] in below)
          && (q.bug[b] == researcher || q.bug[b] in below))
    && PairedBugs(p) <= PairedBugs(q)
    && |PairedBugs(q)| == |PairedBugs(p)| + 1
  }

  /**
   * The first pass over a researcher's bugs: the index of the first unpaired one, or the
   * length of the list when all of them are paired.
   */
  function FirstFree(p: Pairing, bugs: seq<int>, from: nat): (k: nat)
    requires from <= |bugs|
    requires forall j | 0 <= j < |bugs| :: 1 <= bugs[j] < |p.bug|
    ensures from <= k <= |bugs|
    ensures k < |bugs| ==> !IsBugPaired(p, bugs[k])
    ensures forall j | from <= j < k :: IsBugPaired(p, bugs[j])
    decreases |bugs| - from
  {
    if from == |bugs| then from
    else if !IsBugPaired(p, bugs[from]) then from
    else FirstFree(p, bugs, from + 1)
  }

  /**
   * Tries to pair `researcher`, rerouting other researchers if need be. On failure nothing but
   * the visit marks has changed and everything it explored is closed; on success the pairing
   * has been changed as `Rerouted` describes.
   */
  function Augment(t: Test, p: Pairing, visited: Visits, researcher: int): (s: Search)
    requires IsMatching(t, p)
    requires 1 <= researcher <= t.researcherCount
    ensures Consistent(t, s.pairing)
    ensures visited + {researcher} <= s.visited
    ensures VisitsResearchers(t, visited, s.visited)
    ensures !s.found ==> s.pairing == p
    ensures !s.found ==> Closed(t, p, s.visited - visited + {researcher}, s.visited)
    ensures s.found ==> Rerouted(p, s.pairing, researcher, s.visited - visited - {researcher})
    ensures forall r | r in s.visited && r !in visited && r != researcher ::
              1 <= r <= t.researcherCount && p.researcher[r] != Unpaired
    decreases Unvisited(t, visited + {researcher}), 1, 0
  {
    var experiments := GetExperiments(t, researcher);
    var marked := Visit(visited, researcher);
    var k := FirstFree(p, experiments, 0);
    if k < |experiments| then
      var bug := experiments[k];
      var s := Search(true, Pair(p, researcher, bug), marked);
      PairFreeBug(t, p, researcher, bug);
      assert s.visited - visited - {researcher} == {};
      s
    else
      var s := Reroute(t, p, marked, researcher, 0);
      AugmentAfterReroute(t, p, visited, researcher, s);
      s
  }

  /** The second pass's outcome, restated for the search that began by marking `researcher`. */
  lemma AugmentAfterReroute(t: Test, p: Pairing, visited: Visits, researcher: int, s: Search)
    requires IsMatching(t, p)
    requires 1 <= researcher <= t.researcherCount
    requires forall j | 0 <= j < |t.experiments[researcher]| ::
               IsBugPaired(p, t.experiments[researcher][j])
    requires Consistent(t, s.pairing)
    requires visited + {researcher} <= s.visited
    requires VisitsResearchers(t, visited + {researcher}, s.visited)
    requires !s.found ==> s.pairing == p
    requires !s.found ==> Closed(t, p, s.visited - (visited + {researcher}), s.visited)
    requires !s.found ==> forall j | 0 <= j < |t.experiments[researcher]| ::
               p.bug[t.experiments[researcher][j]] in s.visited
    requires s.found ==> Rerouted(p, s.pairing, researcher, s.visited - (visited + {researcher}))
    ensures VisitsResearchers(t, visited, s.visited)
    ensures !s.found ==> Closed(t, p, s.visited - visited + {researcher}, s.visited)
    ensures s.found ==> Rerouted(p, s.pairing, researcher, s.visited - visited - {researcher})
  {
    assert s.visited - visited - {researcher} == s.visited - (visited + {researcher});
    if !s.found {
      ClosedAddResearcher(t, p, s.visited - (visited + {researcher}), s.visited, researcher);
      assert s.visited - visited + {researcher} == s.visited - (visited + {researcher}) + {researcher};
    }
  }

  /**
   * The second pass over a researcher's bugs, from index i on. Every one of them is paired (the
   * first pass found none free), so each names the researcher holding it; an unvisited holder
   * is asked to move, and if it does the bug goes to `researcher`.
   */
  function Reroute(t: Test, p: Pairing, visited: Visits, researcher: int, i: nat): (s: Search)
    requires IsMatching(t, p)
    requires 1 <= researcher <= t.researcherCount && researcher in visited
    requires i <= |t.experiments[researcher]|
    requires forall j | 0 <= j < |t.experiments[researcher]| ::
               IsBugPaired(p, t.experiments[researcher][j])
    ensures Consistent(t, s.pairing)
    ensures visited <= s.visited
    ensures VisitsResearchers(t, visited, s.visited)
    ensures !s.found ==> s.pairing == p
    ensures !s.found ==> Closed(t, p, s.visited - visited, s.visited)
    ensures !s.found ==> forall j | i <= j < |t.experiments[researcher]| ::
              p.bug[t.experiments[researcher][j]] in s.visited
    ensures s.found ==> Rerouted(p, s.pairing, researcher, s.visited - visited)
    ensures forall r | r in s.visited && r !in visited ::
              1 <= r <= t.researcherCount && p.researcher[r] != Unpaired
    decreases Unvisited(t, visited), 0, |t.experiments[researcher]| - i
  {
    var experiments := GetExperiments(t, researcher);
    if i == |experiments| then Search(false, p, visited)
    else
      var bug := experiments[i];
      var anotherResearcher := GetResearcherOfBug(p, bug);
      if !IsVisited(visited, anotherResearcher) then
        assert IsBugPaired(p, bug) && 1 <= bug < |p.bug|;
        assert 1 <= anotherResearcher <= t.researcherCount;
        assert anotherResearcher in Unvisited(t, visited);
        var inner := Augment(t, p, visited, anotherResearcher);
        assert p.researcher[anotherResearcher] == bug;
        if inner.found then
          PairAfterReroute(t, p, inner.pairing, researcher, bug, anotherResearcher,
                           inner.visited - visited - {anotherResearcher}, inner.visited - visited);
          Search(true, Pair(inner.pairing, researcher, bug), inner.visited)
        else
          var rest := Reroute(t, inner.pairing, inner.visited, researcher, i + 1);
          RerouteFailureCombines(t, p, visited, inner.visited, rest, researcher, i);
          rest
      else
        var rest := Reroute(t, p, visited, researcher, i + 1);
        rest
  }

  /** Combining the marks of a failed inner search with the rest of the second pass. */
  lemma RerouteFailureCombines(t: Test, p: Pairing, visited: Visits, middle: Visits,
                               rest: Search, researcher: int, i: nat)
    requires IsMatching(t, p)
    requires 1 <= researcher <= t.researcherCount && i < |t.experiments[researcher]|
    requires researcher in visited
    requires visited <= middle <= rest.visited
    requires VisitsResearchers(t, visited, middle) && VisitsResearchers(t, middle, rest.visited)
    requires p.bug[t.experiments[researcher][i]] in middle
    requires Closed(t, p, middle - visited, middle)
    requires Consistent(t, rest.pairing)
    requires !rest.found ==> rest.pairing == p
    requires !rest.found ==> Closed(t, p, rest.visited - middle, rest.visited)
    requires !rest.found ==> forall j | i + 1 <= j < |t.experiments[researcher]| ::
               p.bug[t.experiments[researcher][j]] in rest.visited
    requires rest.found ==> Rerouted(p, rest.pairing, researcher, rest.visited - middle)
    ensures VisitsResearchers(t, visited, rest.visited)
    ensures !rest.found ==> Closed(t, p, rest.visited - visited, rest.visited)
    ensures !rest.found ==> forall j | i <= j < |t.experiments[researcher]| ::
              p.bug[t.experiments[researcher][j]] in rest.visited
    ensures rest.found ==> Rerouted(p, rest.pairing, researcher, rest.visited - visited)
  {
    if rest.found {
      ReroutedWiden(p, rest.pairing, researcher, rest.visited - middle, rest.visited - visited);
    }
  }

  /** Allowing more researchers below keeps a description of a successful search true. */
  lemma ReroutedWiden(p: Pairing, q: Pairing, researcher: int, below: set<int>, wider: set<int>)
    requires WellFormed(p) && WellFormed(q)
    requires |q.researcher| == |p.researcher| && |q.bug| == |p.bug|
    requires 1 <= researcher < |p.researcher|
    requires below <= wider && researcher !in wider
    requires Rerouted(p, q, researcher, below)
    ensures Rerouted(p, q, researcher, wider)
  {
  }

  /** The researcher itself is closed once all its bugs are paired with reached researchers. */
  lemma ClosedAddResearcher(t: Test, p: Pairing, explored: set<int>, reached: set<int>,
                            researcher: int)
    requires Valid(t) && Fits(t, p)
    requires 1 <= researcher <= t.researcherCount
    requires Closed(t, p, explored, reached)
    requires forall j | 0 <= j < |t.experiments[researcher]| ::
               p.bug[t.experiments[researcher][j]] != Unpaired
    requires forall j | 0 <= j < |t.experiments[researcher]| ::
               p.bug[t.experiments[researcher][j]] in reached
    ensures Closed(t, p, explored + {researcher}, reached)
  {
  }

  /** The first pass found a free bug: taking it is a successful search with nobody below. */
  lemma PairFreeBug(t: Test, p: Pairing, researcher: int, bug: int)
    requires IsMatching(t, p)
    requires 1 <= researcher <= t.researcherCount && 1 <= bug <= t.bugCount
    requires bug in t.experiments[researcher] && p.bug[bug] == Unpaired
    ensures Consistent(t, Pair(p, researcher, bug))
    ensures Rerouted(p, Pair(p, researcher, bug), researcher, {})
  {
    var q := Pair(p, researcher, bug);
    assert PairedBugs(q) == PairedBugs(p) + {bug};
  }

  /**
   * The rerouting step: `another` held `bug` and has moved (q is the state its search left,
   * where `bug` still names it); handing `bug` to `researcher` restores symmetry everywhere
   * except at researcher's own old bug.
   */
  lemma PairAfterReroute(t: Test, p: Pairing, q: Pairing, researcher: int, bug: int,
                         another: int, belowAnother: set<int>, below: set<int>)
    requires IsMatching(t, p) && Consistent(t, q)
    requires 1 <= researcher <= t.researcherCount && 1 <= bug <= t.bugCount
    requires 1 <= another <= t.researcherCount && another != researcher
    requires bug in t.experiments[researcher] && p.bug[bug] == another
    requires researcher !in below && another in below && belowAnother <= below
    requires another !in belowAnother
    requires Rerouted(p, q, another, belowAnother)
    ensures Consistent(t, Pair(q, researcher, bug))
    ensures Rerouted(p, Pair(q, researcher, bug), researcher, below)
  {
    var q' := Pair(q, researcher, bug);
    assert p.researcher[another] == bug;
    assert q.bug[bug] == another;
    assert PairedBugs(q') == PairedBugs(q);
    forall r | 1 <= r < |q'.researcher| && q'.researcher[r] != Unpaired
      ensures q'.bug[q'.researcher[r]] == r
    {
      if r != researcher {
        assert q'.researcher[r] != bug;
      }
    }
    forall b | 1 <= b < |q'.bug| && b != p.researcher[researcher] && q'.bug[b] != Unpaired
      ensures q'.researcher[q'.bug[b]] == b
    {
      if b != bug {
        assert q.bug[b] != researcher;
      }
    }
  }

  /**
   * One pass of the outer loop over researchers `researcher`..researcherCount, sharing one set
   * of visit marks: each researcher unpaired at its turn is searched for. `found` says whether
   * any search succeeded. The marks so far belong to earlier researchers or to paired ones, so
   * the researcher whose turn it is was never searched from in this pass.
   */
  function Pass(t: Test, p: Pairing, visited: Visits, researcher: int): (s: Search)
    requires IsMatching(t, p)
    requires 1 <= researcher <= t.researcherCount + 1
    requires forall v | v in visited ::
               v < researcher || (1 <= v <= t.researcherCount && p.researcher[v] != Unpaired)
    ensures IsMatching(t, s.pairing)
    ensures visited <= s.visited && VisitsResearchers(t, visited, s.visited)
    ensures PairedBugs(p) <= PairedBugs(s.pairing)
    ensures PairedResearchers(p) <= PairedResearchers(s.pairing)
    ensures s.found ==> PairedBugs(p) < PairedBugs(s.pairing)
    ensures s.found ==> |PairedBugs(p)| < |PairedBugs(s.pairing)|
    ensures !s.found ==> s.pairing == p
    ensures !s.found ==> Closed(t, p, s.visited - visited, s.visited)
    ensures !s.found ==> forall r | researcher <= r <= t.researcherCount && !IsResearcherPaired(p, r) ::
              r in s.visited
    decreases t.researcherCount + 1 - researcher
  {
    if researcher > t.researcherCount then Search(false, p, visited)
    else if IsResearcherPaired(p, researcher) then Pass(t, p, visited, researcher + 1)
    else
      assert researcher !in visited;
      var first := Augment(t, p, visited, researcher);
      PassStep(t, p, first, researcher, visited - {researcher});
      var rest := Pass(t, first.pairing, first.visited, researcher + 1);
      SubsetBound(PairedBugs(p), PairedBugs(rest.pairing));
      Search(first.found || rest.found, rest.pairing, rest.visited)
  }

  /** A successful search from an unpaired researcher yields a matching with one more pair. */
  lemma PassStep(t: Test, p: Pairing, first: Search, researcher: int, below: set<int>)
    requires IsMatching(t, p) && Consistent(t, first.pairing)
    requires 1 <= researcher <= t.researcherCount && !IsResearcherPaired(p, researcher)
    requires !first.found ==> first.pairing == p
    requires first.found ==> Rerouted(p, first.pairing, researcher, first.visited - below - {researcher})
    ensures IsMatching(t, first.pairing)
    ensures PairedBugs(p) <= PairedBugs(first.pairing)
    ensures PairedResearchers(p) <= PairedResearchers(first.pairing)
    ensures first.found ==> PairedBugs(p) < PairedBugs(first.pairing)
  {
    if first.found {
      assert |PairedBugs(first.pairing)| == |PairedBugs(p)| + 1;
      assert PairedBugs(p) != PairedBugs(first.pairing);
    }
  }

  /** A pass that paired somebody leaves fewer bugs unpaired. */
  lemma UnpairedShrinks(p: Pairing, q: Pairing)
    requires |q.bug| == |p.bug|
    requires PairedBugs(p) < PairedBugs(q)
    ensures UnpairedBugs(q) < UnpairedBugs(p)
  {
    var b :| b in PairedBugs(q) && b !in PairedBugs(p);
    assert b in UnpairedBugs(p) && b !in UnpairedBugs(q);
    forall c | c in UnpairedBugs(q)
      ensures c in UnpairedBugs(p)
    {
      assert c !in PairedBugs(q);
    }
  }

  /**
   * The outer loop: repeats passes, each with fresh visit marks, until a pass pairs nobody.
   * Each repetition pairs more bugs, so the loop ends.
   */
  function Match(t: Test, p: Pairing): (q: Pairing)
    requires IsMatching(t, p)
    ensures IsMatching(t, q)
    ensures PairedBugs(p) <= PairedBugs(q)
    ensures PairedResearchers(p) <= PairedResearchers(q)
    decreases UnpairedBugs(p)
  {
    var s := Pass(t, p, VisitManager.Initialize(t.researcherCount), 1);
    if s.found then
      UnpairedShrinks(p, s.pairing);
      Match(t, s.pairing)
    else s.pairing
  }

  /** The matching the program computes for a test, starting from nobody paired. */
  function MaximumBipartiteGraphMatching(t: Test): (q: Pairing)
    requires Valid(t)
    ensures IsMatching(t, q)
    ensures |PairedBugs(q)| <= Min(t.researcherCount, t.bugCount)
  {
    var q := Match(t, PairManager.Initialize(t.researcherCount, t.bugCount));
    PairCountBound(q);
    q
  }
}
