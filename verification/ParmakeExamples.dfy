/** Two graphs on which a rule that is up to date spoils the count of finished goals. */
module ParmakeExamples {
  import opened Graphs
  import opened Parmake
  import opened ParmakeGraph
  import opened ParmakeQueue
  import opened ParmakeStop
  import opened Sequences

  /** The goal 1 needs 2, which needs 3, and so on up to n. */
  function Chain(n: nat): Deps {
    map v: Name {:trigger LookBelow(v)} | 0 <= v <= n :: if v < n then [v + 1] else []
  }

  lemma {:induction false} PathAscends(e: set<(Name, Name)>, p: seq<Name>)
    requires IsPath(e, p) && forall a, b | (a, b) in e :: a < b
    ensures p[0] + |p| <= p[|p| - 1] + 1
  {
    if |p| > 1 {
      var q := p[..|p| - 1];
      assert (p[|p| - 2], p[|p| - 1]) in e;
      forall i | 0 <= i < |q| - 1
        ensures (q[i], q[i + 1]) in e
      {
        assert (p[i], p[i + 1]) in e;
      }
      PathAscends(e, q);
    }
  }

  lemma ChainIsAcyclic(n: nat)
    ensures CyclicRules(Chain(n)) == {}
  {
    var e := Edges(Chain(n));
    forall v
      ensures !ReachesCycle(e, v)
    {
      if w :| Reaches(e, v, w) && OnCycle(e, w) {
        var p :| Joins(e, p, w, w) && |p| >= 2;
        PathAscends(e, p);
      }
    }
  }

  lemma ChainFirst(n: nat, before: seq<Name>, last: Name)
    requires forall i | 0 <= i < |before| :: before[i] == n - i
    requires last in Chain(n) && last !in before && forall d | d in Chain(n)[last] :: d in before
    ensures last == n - |before|
  {
    assert before[..|before|] == before;
    InChain(n, before, |before|, last);
    InChain(n, before, |before|, last + 1);
    assert last < n ==> last + 1 in Chain(n)[last];
  }

  /** A chain is dealt with from its end. */
  lemma {:induction false} ChainOrder(n: nat, order: seq<Name>)
    requires RanInOrder(Chain(n), order)
    ensures forall i | 0 <= i < |order| :: order[i] == n - i
  {
    if order != [] {
      var before, last := order[..|order| - 1], order[|order| - 1];
      forall i | 0 <= i < |before|
        ensures before[i] in Chain(n) && forall d | d in Chain(n)[before[i]] :: d in before[..i]
      {
        assert before[i] == order[i] && before[..i] == order[..i];
      }
      ChainOrder(n, before);
      ChainFirst(n, before, last);
    }
  }

  lemma ChainGoal(n: nat)
    requires n > 0
    ensures ValidAmong(Chain(n)[SENTINEL], CyclicRules(Chain(n))) == {1}
  {
    ChainIsAcyclic(n);
    assert Chain(n)[SENTINEL] == [1];
  }

  /** When k rules of a chain have been dealt with, the count is one for the goal 1 and one for the rule u if they are
      among them. */
  lemma ChainCount(n: nat, order: seq<Name>, k: nat, u: Name)
    requires n > 0 && RanInOrder(Chain(n), order) && k <= |order|
    ensures Count({1}, {u}, RanSet(order[..k])) == (if k >= n then 1 else 0) + (if u <= n && k >= n - u + 1 then 1 else 0)
  {
    ChainOrder(n, order);
    InChain(n, order, k, 1);
    InChain(n, order, k, u);
    OneAmong(1, order[..k]);
    OneAmong(u, order[..k]);
    hide RanInOrder, Chain, RanSet;
  }

  lemma OneAmong(u: Name, order: seq<Name>)
    ensures |{u} * RanSet(order)| == if u in order then 1 else 0
  {
    assert {u} * RanSet(order) == if u in order then {u} else {};
  }

  lemma InChain(n: nat, order: seq<Name>, k: nat, u: Name)
    requires k <= |order| && forall i | 0 <= i < |order| :: order[i] == n - i
    ensures u in order[..k] <==> u <= n && k >= n - u + 1
  {
    if u <= n && k >= n - u + 1 {
      assert order[..k][n - u] == u;
    }
  }

  lemma StartIsNotWanted(n: nat)
    requires n > 0
    ensures 0 !in WantedRules(Chain(n))
  {
    if g :| g in Chain(n)[SENTINEL] && Needs(Chain(n), g, 0) {
      var p :| Joins(Edges(Chain(n)), p, g, 0);
      PathAscends(Edges(Chain(n)), p);
    }
  }

  lemma TwiceIsNeverOnce(loaded: States, order: seq<Name>, outcome: Outcome)
    requires RanInOrder(Chain(2), order) && 0 !in order && EndsAs(Chain(2), loaded, {1}, {1}, order, outcome)
    ensures outcome == WaitsForever && order == [2, 1]
  {
    ChainOrder(2, order);
    forall k: nat | 0 < k <= |order|
      ensures Count({1}, {1}, RanSet(order[..k])) != |{1}|
    {
      ChainCount(2, order, k, 1);
    }
    InChain(2, order, |order|, 0);
    InChain(2, order, |order|, 1);
    hide Count, Chain, RanInOrder, Final, ReadySet;
    assert order[..|order|] == order;
    assert outcome == WaitsForever;
    assert 1 in RanSet(order);
  }

  lemma OnlyTwoIsOutdated()
    ensures Outdated([2, 1], {1}) == [2]
  {
    assert [2, 1][..1] == [2];
  }

  /** 1 needs 2, and 1 is up to date: it counts twice, the count passes over 1, and the worker waits for ever, although
      all has been done. */
  method GoalCountsTwice() returns (make: Make, outcome: Outcome)
    ensures fresh(make) && make.deps == Chain(2) && make.validGoals == {1} && make.upToDate == {1}
    ensures make.order == [2, 1] && make.log == [2] && outcome == WaitsForever
  {
    ghost var loaded: States;
    ChainIsWellFormed(2, [0, 1, 2]);
    ChainGoal(2);
    StartIsNotWanted(2);
    make, outcome, loaded := RunParmake(Chain(2), [0, 1, 2], {1});
    hide EndsAs, RanInOrder, Chain, NeedPairs, CyclicRules, WantedRules, LoadedAs, Outdated;
    TwiceIsNeverOnce(loaded, make.order, outcome);
    OnlyTwoIsOutdated();
  }

  lemma ChainIsWellFormed(n: nat, vertices: seq<Name>)
    requires n > 0 && |vertices| == n + 1 && forall i | 0 <= i <= n :: vertices[i] == i
    ensures WellFormed(Chain(n), vertices)
  {
    forall v: Name
      ensures v in vertices <==> v in Chain(n)
    {
      if v <= n {
        assert vertices[v] == v;
      }
    }
  }

  /** A chain longer than 3 in which 3 is up to date: the count is met when 3 has been dealt with, and only 2 is left in the
      queue before the mark. */
  lemma StopsTooEarly(n: nat, loaded: States, order: seq<Name>, outcome: Outcome)
    requires n > 3 && RanInOrder(Chain(n), order) && EndsAs(Chain(n), loaded, {1}, {3}, order, outcome)
    ensures outcome == Stopped && 1 !in order
  {
    ChainOrder(n, order);
    InChain(n, order, |order|, 1);
    assert order[..|order|] == order;
    if |order| >= n - 2 {
      ChainCount(n, order, n - 2, 3);
    }
    hide Count, RanInOrder, Final, Chain;
    assert 1 in RanSet(order) <==> 1 in order;
    if outcome == Stopped {
      var k: nat :| MetAt({1}, {3}, order, k) && RanSet(order) == Final(Chain(n), loaded, order, k);
      ChainCount(n, order, k, 3);
      OneIsNotFinal(n, loaded, order, k);
    }
  }

  lemma OneIsNotFinal(n: nat, loaded: States, order: seq<Name>, k: nat)
    requires n > 3 && forall i | 0 <= i < |order| :: order[i] == n - i
    requires 0 < k <= n - 2 && k <= |order|
    ensures 1 !in Final(Chain(n), loaded, order, k)
  {
    InChain(n, order, k, 1);
    InChain(n, order, k, 2);
    assert 2 in Chain(n)[1];
  }

  /** 1 needs 2, 2 needs 3, 3 needs 4, and 3 is up to date: it counts as if it were the goal, the mark is queued behind 2,
      and the worker stops without having run the goal 1. */
  method DependencyCountsAsGoal() returns (make: Make, outcome: Outcome)
    ensures fresh(make) && make.deps == Chain(4) && make.validGoals == {1} && make.upToDate == {3}
    ensures outcome == Stopped && 1 !in make.order
  {
    ghost var loaded: States;
    ChainIsWellFormed(4, [0, 1, 2, 3, 4]);
    ChainGoal(4);
    make, outcome, loaded := RunParmake(Chain(4), [0, 1, 2, 3, 4], {3});
    hide EndsAs, RanInOrder, Chain, NeedPairs, CyclicRules, WantedRules, LoadedAs;
    StopsTooEarly(4, loaded, make.order, outcome);
  }
}
