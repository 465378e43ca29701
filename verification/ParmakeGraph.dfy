/** What parmake knows about its dependency graph: which rules need which, and which lead to a cycle. */
module ParmakeGraph {
  import opened Graphs
  import opened Sequences

  /** Targets, numbered; the empty string, under which the parser files the goals, is 0. */
  type Name = nat
  const SENTINEL: Name := 0

  /** Dependencies of each target, in the order the graph library lists them. */
  type Deps = map<Name, seq<Name>>

  function Edges(deps: Deps): set<(Name, Name)> {
    set a, b | a in deps && b in deps[a] :: (a, b)
  }

  ghost predicate Closed(deps: Deps) {
    forall v, d {:trigger d in deps[v]} | v in deps && d in deps[v] :: d in deps
  }

  /** What the parser hands over: a closed graph without repeated edges that contains the sentinel. */
  ghost predicate WellFormed(deps: Deps, vertices: seq<Name>) {
    && SENTINEL in deps && Closed(deps)
    && (forall v | v in deps :: Distinct(deps[v]))
    && Distinct(vertices) && forall v :: v in vertices <==> v in deps
  }

  ghost predicate Needs(deps: Deps, v: Name, d: Name) {
    Reaches(Edges(deps), v, d)
  }

  ghost predicate Cyclic(deps: Deps, v: Name) {
    ReachesCycle(Edges(deps), v)
  }

  ghost function NeedPairs(deps: Deps): set<(Name, Name)> {
    set a, b | a in deps && b in deps && Needs(deps, a, b) :: (a, b)
  }

  ghost function CyclicRules(deps: Deps): set<Name> {
    set v | v in deps && Cyclic(deps, v)
  }

  /** Always true: naming a vertex in it lets a proof use the facts about some dependency of that vertex. */
  predicate LookBelow(v: Name) {
    true
  }

  /** The elementary facts about the two relations that the code relies on. */
  ghost predicate Facts(deps: Deps, needs: set<(Name, Name)>, cyclic: set<Name>) {
    && (forall v | v in deps :: (v, v) in needs)
    && (forall v, u, n {:trigger (v, u) in needs, n in deps[u]} | (v, u) in needs && u in deps && n in deps[u] ::
         (v, n) in needs)
    && (forall v, n, d {:trigger n in deps[v], (n, d) in needs} | v in deps && n in deps[v] && (n, d) in needs ::
         (v, d) in needs)
    && (forall v, n {:trigger n in deps[v], (n, v) in needs} | v in deps && n in deps[v] && (n, v) in needs ::
         v in cyclic)
    && (forall v, n {:trigger n in deps[v], n in cyclic} | v in deps && n in deps[v] && n in cyclic :: v in cyclic)
    && (forall v {:trigger LookBelow(v)} | v in cyclic ::
         LookBelow(v) ==> v in deps && exists n :: n in deps[v] && n in cyclic)
    && (forall v, d | (v, d) in needs :: v in deps && d in deps)
    && (forall v, d {:trigger LookBelow(v), (v, d) in needs} | (v, d) in needs && d != v ::
         LookBelow(v) ==> exists n :: n in deps[v] && (n, d) in needs)
  }

  lemma EdgeSet(deps: Deps, v: Name)
    requires v in deps
    ensures forall d :: d in deps[v] <==> (v, d) in Edges(deps)
  {
  }

  lemma NeedsThrough(deps: Deps, v: Name, u: Name, n: Name)
    requires u in deps && Needs(deps, v, u) && n in deps[u]
    ensures Needs(deps, v, n)
  {
    ReachesByEdge(Edges(deps), u, n);
    ReachesTransitive(Edges(deps), v, u, n);
  }

  lemma NeedsFrom(deps: Deps, v: Name, n: Name, d: Name)
    requires v in deps && n in deps[v] && Needs(deps, n, d)
    ensures Needs(deps, v, d)
  {
    ReachesByEdge(Edges(deps), v, n);
    ReachesTransitive(Edges(deps), v, n, d);
  }

  lemma MutualNeedIsCyclic(deps: Deps, v: Name, n: Name)
    requires v in deps && n in deps[v] && Needs(deps, n, v)
    ensures Cyclic(deps, v)
  {
    EdgeSet(deps, v);
    OnCycleStep(Edges(deps), v);
    OnCycleReachesCycle(Edges(deps), v);
  }

  lemma CyclicStep(deps: Deps, v: Name)
    requires v in deps
    ensures Cyclic(deps, v) <==> exists n :: n in deps[v] && Cyclic(deps, n)
  {
    EdgeSet(deps, v);
    ReachesCycleStep(Edges(deps), v);
  }

  lemma NeedsStep(deps: Deps, v: Name, d: Name)
    requires v in deps && Needs(deps, v, d)
    ensures d == v || exists n :: n in deps[v] && Needs(deps, n, d)
  {
    EdgeSet(deps, v);
    var p :| Joins(Edges(deps), p, v, d);
    if |p| >= 2 {
      FirstStep(Edges(deps), p, v, d);
      assert p[1] in deps[v] && Needs(deps, p[1], d);
    }
  }

  lemma NeedsIsReflexive(deps: Deps)
    ensures forall v | v in deps :: (v, v) in NeedPairs(deps)
  {
    forall v | v in deps
      ensures Needs(deps, v, v)
    {
      ReachesSelf(Edges(deps), v);
    }
  }

  lemma NeedPairsExtend(deps: Deps)
    requires Closed(deps)
    ensures forall v, u, n | (v, u) in NeedPairs(deps) && u in deps && n in deps[u] :: (v, n) in NeedPairs(deps)
    ensures forall v, n, d | v in deps && n in deps[v] && (n, d) in NeedPairs(deps) :: (v, d) in NeedPairs(deps)
  {
    forall v, u, n | (v, u) in NeedPairs(deps) && u in deps && n in deps[u]
      ensures (v, n) in NeedPairs(deps)
    {
      NeedsThrough(deps, v, u, n);
    }
    forall v, n, d | v in deps && n in deps[v] && (n, d) in NeedPairs(deps)
      ensures (v, d) in NeedPairs(deps)
    {
      NeedsFrom(deps, v, n, d);
    }
  }

  lemma CyclicFacts(deps: Deps)
    requires Closed(deps)
    ensures forall v, n | v in deps && n in deps[v] && (n, v) in NeedPairs(deps) :: v in CyclicRules(deps)
    ensures forall v, n | v in deps && n in deps[v] && n in CyclicRules(deps) :: v in CyclicRules(deps)
    ensures forall v | v in CyclicRules(deps) :: v in deps && exists n :: n in deps[v] && n in CyclicRules(deps)
  {
    forall v, n | v in deps && n in deps[v] && (n, v) in NeedPairs(deps)
      ensures v in CyclicRules(deps)
    {
      MutualNeedIsCyclic(deps, v, n);
    }
    forall v, n | v in deps && n in deps[v] && n in CyclicRules(deps)
      ensures v in CyclicRules(deps)
    {
      CyclicStep(deps, v);
    }
    forall v | v in CyclicRules(deps)
      ensures exists n :: n in deps[v] && n in CyclicRules(deps)
    {
      CyclicStep(deps, v);
      var n :| n in deps[v] && Cyclic(deps, n);
      assert n in CyclicRules(deps);
    }
  }

  lemma NeedPairsStep(deps: Deps)
    requires Closed(deps)
    ensures forall v, d | (v, d) in NeedPairs(deps) ::
        v in deps && d in deps && (d == v || exists n :: n in deps[v] && (n, d) in NeedPairs(deps))
  {
    forall v, d | (v, d) in NeedPairs(deps) && d != v
      ensures exists n :: n in deps[v] && (n, d) in NeedPairs(deps)
    {
      NeedsStep(deps, v, d);
      var n :| n in deps[v] && Needs(deps, n, d);
      assert (n, d) in NeedPairs(deps);
    }
  }

  /** The facts hold of the real relations. */
  lemma FactsHold(deps: Deps)
    requires Closed(deps)
    ensures Facts(deps, NeedPairs(deps), CyclicRules(deps))
  {
    NeedsIsReflexive(deps);
    NeedPairsExtend(deps);
    CyclicFacts(deps);
    NeedPairsStep(deps);
  }

  ghost function NeededBy(deps: Deps, needs: set<(Name, Name)>, v: Name): set<Name> {
    set d | d in deps && (v, d) in needs
  }

  /** Among rules that lead to no cycle there is one all of whose dependencies lie outside the set. */
  lemma {:induction false} SomeRuleIsReady(deps: Deps, needs: set<(Name, Name)>, cyclic: set<Name>, s: set<Name>, v: Name)
    returns (ready: Name)
    requires Closed(deps) && Facts(deps, needs, cyclic) && s <= deps.Keys && s !! cyclic && v in s
    ensures ready in s && forall d | d in deps[ready] :: d !in s
    decreases NeededBy(deps, needs, v)
  {
    if n :| n in deps[v] && n in s {
      assert v in NeededBy(deps, needs, v) && v !in NeededBy(deps, needs, n);
      assert NeededBy(deps, needs, n) <= NeededBy(deps, needs, v);
      ready := SomeRuleIsReady(deps, needs, cyclic, s, n);
    } else {
      ready := v;
    }
  }

  // What the goals need.

  ghost predicate CoversGoals(deps: Deps, needs: set<(Name, Name)>, wanted: set<Name>) {
    SENTINEL in deps && forall g, v | g in deps[SENTINEL] && (g, v) in needs :: v in wanted
  }

  /** A rule that some goal needs. */
  ghost predicate Wanted(deps: Deps, v: Name) {
    SENTINEL in deps && exists g :: g in deps[SENTINEL] && Needs(deps, g, v)
  }

  ghost function WantedRules(deps: Deps): set<Name> {
    set v | v in deps && Wanted(deps, v)
  }

  lemma GoalsAreWanted(deps: Deps)
    requires SENTINEL in deps
    ensures CoversGoals(deps, NeedPairs(deps), WantedRules(deps))
  {
    forall g, v | g in deps[SENTINEL] && (g, v) in NeedPairs(deps)
      ensures v in WantedRules(deps)
    {
      assert Needs(deps, g, v);
    }
  }

  lemma PlanHolds(deps: Deps, vertices: seq<Name>)
    requires WellFormed(deps, vertices)
    ensures Facts(deps, NeedPairs(deps), CyclicRules(deps)) && CoversGoals(deps, NeedPairs(deps), WantedRules(deps))
  {
    FactsHold(deps);
    GoalsAreWanted(deps);
  }
}
