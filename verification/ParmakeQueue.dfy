/** The states of rules and the queue of rules, on values: what the cycle search marks, and what the worker keeps. */
module ParmakeQueue {
  import opened ParmakeGraph
  import opened Sequences

  datatype RuleState = Default | Unprocessed | Failed | Succeeded | Ignored | Processing

  /** An entry of the queue: a rule to run, or the null pointer that stops a worker. */
  datatype Task = Stop | Run(target: Name)

  type States = map<Name, RuleState>

  /** While cycles are being looked for: only rules that lead to a cycle are ever ignored. */
  ghost predicate Marked(deps: Deps, cyclic: set<Name>, state: States) {
    && state.Keys == deps.Keys
    && forall v | v in deps ::
         state[v] == Default || state[v] == Unprocessed || (state[v] == Ignored && v in cyclic)
  }

  /** Outside `open`, a marked rule that leads to no cycle has all its dependencies marked. */
  ghost predicate Explored(deps: Deps, cyclic: set<Name>, state: States, open: set<Name>) {
    forall v, d {:trigger d in deps[v]} | v in deps && v in state && v !in open && v !in cyclic && state[v] != Default && d in deps[v] ::
      d in state && state[d] != Default
  }

  /** `path` are the rules whose calls are in progress, down to `node`; every visited rule is one of
      them or leads to a cycle. */
  ghost predicate Explained(deps: Deps, needs: set<(Name, Name)>, cyclic: set<Name>,
                            visited: set<Name>, path: set<Name>, node: Name) {
    && node in deps && node in path
    && (forall v | v in path :: (v, node) in needs)
    && visited <= deps.Keys && visited <= path + cyclic
  }

  /** Nothing has lost its mark, and new marks stand only on what `from` needs. */
  ghost predicate MarksMore(needs: set<(Name, Name)>, from: Name, before: States, after: States) {
    && before.Keys == after.Keys
    && forall v | v in before ::
         (before[v] != Default ==> after[v] != Default) &&
         (after[v] != Default ==> before[v] != Default || (from, v) in needs)
  }

  lemma MarksMoreAlong(deps: Deps, needs: set<(Name, Name)>, cyclic: set<Name>, node: Name, neighbor: Name,
                       first: States, before: States, after: States)
    requires Facts(deps, needs, cyclic) && node in deps && neighbor in deps[node]
    requires MarksMore(needs, node, first, before) && MarksMore(needs, neighbor, before, after)
    ensures MarksMore(needs, node, first, after)
  {
  }

  /** What earlier failures leave in the visited set leads to a cycle. */
  ghost predicate VisitsMore(deps: Deps, cyclic: set<Name>, before: set<Name>, after: set<Name>) {
    before <= after <= deps.Keys && after <= before + cyclic
  }

  lemma ExtendPath(deps: Deps, needs: set<(Name, Name)>, cyclic: set<Name>,
                   visited: set<Name>, path: set<Name>, node: Name, n: Name)
    requires Closed(deps) && Facts(deps, needs, cyclic)
    requires Explained(deps, needs, cyclic, visited, path, node) && n in deps[node]
    ensures Explained(deps, needs, cyclic, visited + {n}, path + {n}, n)
  {
  }

  lemma VisitedLeadsToCycle(deps: Deps, needs: set<(Name, Name)>, cyclic: set<Name>,
                            visited: set<Name>, path: set<Name>, node: Name, n: Name)
    requires Closed(deps) && Facts(deps, needs, cyclic)
    requires Explained(deps, needs, cyclic, visited, path, node) && n in deps[node] && n in visited
    ensures node in cyclic && VisitsMore(deps, cyclic, visited, visited)
  {
  }

  lemma CyclicExactly(deps: Deps, needs: set<(Name, Name)>, cyclic: set<Name>, node: Name)
    requires Closed(deps) && Facts(deps, needs, cyclic) && node in deps
    ensures node in cyclic <==> exists n :: n in deps[node] && n in cyclic
  {
    assert LookBelow(node);
  }

  lemma ExploredWider(deps: Deps, cyclic: set<Name>, state: States, open: set<Name>, wider: set<Name>)
    requires Explored(deps, cyclic, state, open) && open <= wider
    ensures Explored(deps, cyclic, state, wider)
  {
  }

  lemma VisitDone(deps: Deps, cyclic: set<Name>, before: set<Name>, n: Name, after: set<Name>)
    requires n in deps && n !in before && VisitsMore(deps, cyclic, before + {n}, after)
    ensures n in cyclic ==> VisitsMore(deps, cyclic, before, after)
    ensures after == before + {n} ==> after - {n} == before && VisitsMore(deps, cyclic, before, before)
  {
  }

  lemma IgnoreKeepsExplored(deps: Deps, needs: set<(Name, Name)>, cyclic: set<Name>, before: States, state: States, open: set<Name>,
                            node: Name, n: Name)
    requires Marked(deps, cyclic, state) && Explored(deps, cyclic, state, open) && node in cyclic && node in deps
    requires MarksMore(needs, n, before, state) && node in before && before[node] != Default
    ensures MarksMore(needs, n, before, state[node := Ignored])
    ensures Marked(deps, cyclic, state[node := Ignored]) && Explored(deps, cyclic, state[node := Ignored], open)
  {
  }

  /** Every rule needed by a marked rule that leads to no cycle is unprocessed. */
  lemma {:induction false} NeededAreUnprocessed(deps: Deps, needs: set<(Name, Name)>, cyclic: set<Name>, state: States, v: Name, d: Name)
    requires Closed(deps) && Facts(deps, needs, cyclic)
    requires Marked(deps, cyclic, state) && Explored(deps, cyclic, state, {})
    requires (v, d) in needs && v !in cyclic && state[v] != Default
    ensures d !in cyclic && state[d] == Unprocessed
    decreases NeededBy(deps, needs, v)
  {
    if d != v {
      assert LookBelow(v);
      var n :| n in deps[v] && (n, d) in needs;
      assert v in NeededBy(deps, needs, v) && v !in NeededBy(deps, needs, n);
      assert NeededBy(deps, needs, n) <= NeededBy(deps, needs, v);
      NeededAreUnprocessed(deps, needs, cyclic, state, n, d);
    }
  }

  /** A rule that can be queued: marked, not yet run, all dependencies run. */
  ghost predicate Ready(deps: Deps, loaded: States, done: set<Name>, v: Name) {
    v in deps && v in loaded && v !in done && loaded[v] != Default && forall d | d in deps[v] :: d in done
  }

  /** The queue holds exactly the rules that are ready, each once. */
  ghost predicate QueueExact(deps: Deps, loaded: States, tasks: seq<Task>, done: set<Name>) {
    && (forall v :: Run(v) in tasks <==> Ready(deps, loaded, done, v))
    && (forall i, j | 0 <= i < j < |tasks| && tasks[i].Run? :: tasks[i] != tasks[j])
  }

  ghost predicate DepsFirst(deps: Deps, log: seq<Name>) {
    forall i | 0 <= i < |log| :: log[i] in deps && forall d | d in deps[log[i]] :: d in log[..i]
  }

  /** The rules that wait for r and become ready with it. */
  ghost predicate Unlocked(deps: Deps, state: States, r: Name, v: Name) {
    && v in deps && r in deps[v] && v in state && state[v] != Default
    && forall d | d in deps[v] :: d in state && state[d] == Succeeded
  }

  /** The states while the worker runs: what was loaded, overwritten where a rule has run. */
  ghost predicate StatesExact(deps: Deps, loaded: States, state: States, done: set<Name>) {
    && loaded.Keys == deps.Keys && state.Keys == deps.Keys && done <= deps.Keys
    && forall v | v in deps :: state[v] == if v in done then Succeeded else loaded[v]
  }

  /** The goals that lead to no cycle. */
  ghost function ValidAmong(goals: seq<Name>, cyclic: set<Name>): set<Name> {
    set g | g in goals && g !in cyclic
  }

  lemma ValidAmongNext(goals: seq<Name>, i: nat, cyclic: set<Name>)
    requires i < |goals| && Distinct(goals)
    ensures goals[i] !in ValidAmong(goals[..i], cyclic)
    ensures ValidAmong(goals[..i + 1], cyclic) ==
        ValidAmong(goals[..i], cyclic) + if goals[i] in cyclic then {} else {goals[i]}
  {
    assert goals[..i + 1] == goals[..i] + [goals[i]];
  }

  /** While a valid goal has not been run, some rule is ready, so the worker never waits in vain. */
  lemma SomethingReady(deps: Deps, needs: set<(Name, Name)>, cyclic: set<Name>, loaded: States, done: set<Name>, g: Name)
    returns (v: Name)
    requires Closed(deps) && Facts(deps, needs, cyclic)
    requires Marked(deps, cyclic, loaded) && Explored(deps, cyclic, loaded, {})
    requires g in deps && g !in cyclic && loaded[g] != Default && g !in done
    ensures Ready(deps, loaded, done, v)
  {
    var waiting := set d | d in deps && (g, d) in needs && d !in done;
    forall d | (g, d) in needs
      ensures d !in cyclic && loaded[d] == Unprocessed
    {
      NeededAreUnprocessed(deps, needs, cyclic, loaded, g, d);
    }
    v := SomeRuleIsReady(deps, needs, cyclic, waiting, g);
  }

  /** Rules run dependencies first never include one that leads to a cycle. */
  lemma {:induction false} RunRulesAreNotCyclic(deps: Deps, needs: set<(Name, Name)>, cyclic: set<Name>, log: seq<Name>)
    requires Facts(deps, needs, cyclic) && DepsFirst(deps, log)
    ensures forall v | v in log :: v !in cyclic
  {
    if log != [] {
      var before, last := log[..|log| - 1], log[|log| - 1];
      forall i | 0 <= i < |before|
        ensures before[i] in deps && forall d | d in deps[before[i]] :: d in before[..i]
      {
        assert before[i] == log[i] && before[..i] == log[..i];
      }
      RunRulesAreNotCyclic(deps, needs, cyclic, before);
      assert LookBelow(last);
      assert log == before + [last];
    }
  }

  /** What a run rule needs has been run too. */
  lemma {:induction false} NeededHaveRun(deps: Deps, needs: set<(Name, Name)>, cyclic: set<Name>, done: set<Name>, v: Name, d: Name)
    requires Closed(deps) && Facts(deps, needs, cyclic) && done !! cyclic
    requires forall u, n {:trigger n in deps[u]} | u in done && u in deps && n in deps[u] :: n in done
    requires v in done && (v, d) in needs
    ensures d in done
    decreases NeededBy(deps, needs, v)
  {
    if d != v {
      assert LookBelow(v);
      var n :| n in deps[v] && (n, d) in needs;
      assert v in NeededBy(deps, needs, v) && v !in NeededBy(deps, needs, n);
      assert NeededBy(deps, needs, n) <= NeededBy(deps, needs, v);
      NeededHaveRun(deps, needs, cyclic, done, n, d);
    }
  }

  lemma FullSubset<T>(a: set<T>, b: set<T>)
    ensures |a * b| == |a| <==> a <= b
  {
    assert a == (a * b) + (a - b) && (a * b) !! (a - b);
    assert |a| == |a * b| + |a - b|;
  }

  /** The bookkeeping of load_rules when i goals have been checked. */
  ghost predicate Checked(deps: Deps, cyclic: set<Name>, goals: seq<Name>, i: nat,
                          state: States, visited: set<Name>, valid: set<Name>, total: int)
  {
    && i <= |goals| && visited <= deps.Keys && visited <= cyclic
    && valid == ValidAmong(goals[..i], cyclic) && total == |valid| + |goals| - i
    && forall g | g in valid :: g in deps && g in state && state[g] != Default
  }

  lemma CheckedNext(deps: Deps, cyclic: set<Name>, goals: seq<Name>, i: nat,
                    state: States, visited: set<Name>, state': States, visited': set<Name>, valid: set<Name>, total: int)
    requires i < |goals| && Distinct(goals) && goals[i] in deps && state.Keys == state'.Keys == deps.Keys
    requires Checked(deps, cyclic, goals, i, state, visited, valid, total)
    requires visited' <= deps.Keys && visited' <= visited + cyclic
    requires forall v | v in deps && state[v] != Default :: state'[v] != Default
    requires state'[goals[i]] != Default
    ensures goals[i] in cyclic ==> Checked(deps, cyclic, goals, i + 1, state', visited', valid, total - 1)
    ensures goals[i] !in cyclic ==> Checked(deps, cyclic, goals, i + 1, state', visited', valid + {goals[i]}, total)
  {
    ValidAmongNext(goals, i, cyclic);
  }

  lemma GoalIsExplained(deps: Deps, needs: set<(Name, Name)>, cyclic: set<Name>, visited: set<Name>, g: Name)
    requires Facts(deps, needs, cyclic) && g in deps && visited <= deps.Keys && visited <= cyclic
    ensures Explained(deps, needs, cyclic, visited, {g}, g)
  {
  }

  lemma QueueAfterRun(deps: Deps, cyclic: set<Name>, loaded: States, state: States,
                      rest: seq<Task>, added: seq<Task>, done: set<Name>, r: Name)
    requires Closed(deps) && Marked(deps, cyclic, loaded)
    requires QueueExact(deps, loaded, [Run(r)] + rest, done)
    requires forall v, d {:trigger d in deps[v]} | v in done && v in deps && d in deps[v] :: d in done
    requires StatesExact(deps, loaded, state, done + {r})
    requires Distinct(added) && forall t | t in added :: t.Run?
    requires forall v :: Run(v) in added <==> Unlocked(deps, state, r, v)
    ensures QueueExact(deps, loaded, rest + added, done + {r})
  {
    var tasks := [Run(r)] + rest;
    assert Run(r) in tasks && Ready(deps, loaded, done, r);
    forall v
      ensures Run(v) in rest <==> Ready(deps, loaded, done, v) && v != r
    {
      assert Run(v) in tasks <==> Ready(deps, loaded, done, v);
      if Run(v) in rest {
        var j :| 0 <= j < |rest| && rest[j] == Run(v);
        assert tasks[0] == Run(r) && tasks[j + 1] == Run(v);
      }
    }
    forall v
      ensures Run(v) in added <==> Ready(deps, loaded, done + {r}, v) && r in deps[v]
    {
      assert Run(v) in added <==> Unlocked(deps, state, r, v);
    }
    forall v
      ensures Run(v) in rest + added <==> Ready(deps, loaded, done + {r}, v)
      ensures !(Run(v) in rest && Run(v) in added)
    {
      assert Run(v) in rest <==> Ready(deps, loaded, done, v) && v != r;
    }
    var after := rest + added;
    forall i, j | 0 <= i < j < |after| && after[i].Run?
      ensures after[i] != after[j]
    {
      if j < |rest| {
        assert tasks[i + 1] == after[i] && tasks[j + 1] == after[j];
      } else if i < |rest| {
        assert after[i] in rest && after[j] in added;
      }
    }
  }

  function RanSet(log: seq<Name>): set<Name> {
    set v | v in log
  }

  /** The worker's variables when it is about to pull the first task of `queue`; `order` are the rules it has dealt
      with, run or found up to date. */
  datatype Snapshot = Snapshot(state: States, queue: seq<Task>, order: seq<Name>, goalCount: int)

  /** What goal_count has come to: one for each valid goal dealt with, and one for each rule found up to date. */
  ghost function Count(goals: set<Name>, upToDate: set<Name>, done: set<Name>): nat {
    |goals * done| + |upToDate * done|
  }

  ghost predicate Working(deps: Deps, cyclic: set<Name>, goals: set<Name>, upToDate: set<Name>, loaded: States, w: Snapshot) {
    && Closed(deps) && Marked(deps, cyclic, loaded)
    && Distinct(w.order) && DepsFirst(deps, w.order)
    && StatesExact(deps, loaded, w.state, RanSet(w.order))
    && QueueExact(deps, loaded, w.queue, RanSet(w.order))
    && w.goalCount == Count(goals, upToDate, RanSet(w.order))
  }

  /** Each rule at most once, and only after its dependencies. */
  ghost predicate RanInOrder(deps: Deps, log: seq<Name>) {
    Distinct(log) && DepsFirst(deps, log) && RanSet(log) <= deps.Keys
  }

  lemma DepsOfRanHaveRun(deps: Deps, log: seq<Name>)
    requires DepsFirst(deps, log)
    ensures forall v, d {:trigger d in deps[v]} | v in RanSet(log) && v in deps && d in deps[v] :: d in RanSet(log)
  {
    forall v, d {:trigger d in deps[v]} | v in RanSet(log) && v in deps && d in deps[v]
      ensures d in RanSet(log)
    {
      var i :| 0 <= i < |log| && log[i] == v;
      assert d in log[..i];
    }
  }

  lemma LogExtended(deps: Deps, log: seq<Name>, r: Name)
    requires Distinct(log) && DepsFirst(deps, log)
    requires r in deps && r !in log && forall d | d in deps[r] :: d in log
    ensures Distinct(log + [r]) && DepsFirst(deps, log + [r]) && RanSet(log + [r]) == RanSet(log) + {r}
  {
    var longer := log + [r];
    forall i | 0 <= i < |longer|
      ensures longer[i] in deps && forall d | d in deps[longer[i]] :: d in longer[..i]
    {
      if i < |log| {
        assert longer[..i] == log[..i];
      } else {
        assert longer[..i] == log;
      }
    }
  }

  lemma StopKeepsQueueExact(deps: Deps, loaded: States, tasks: seq<Task>, done: set<Name>)
    requires QueueExact(deps, loaded, tasks, done)
    ensures QueueExact(deps, loaded, tasks + [Stop], done)
  {
    assert forall v :: Run(v) in tasks + [Stop] <==> Run(v) in tasks;
  }

  lemma CountOneMore(goals: set<Name>, upToDate: set<Name>, order: seq<Name>, r: Name)
    requires r !in order
    ensures Count(goals, upToDate, RanSet(order + [r])) ==
        Count(goals, upToDate, RanSet(order)) + (if r in goals then 1 else 0) + (if r in upToDate then 1 else 0)
  {
    GoalsRan(goals, order, r);
    GoalsRan(upToDate, order, r);
  }

  /** One rule taken from the queue and dealt with, its followers queued, and the stop mark added when due. */
  lemma WorkingAfterRun(deps: Deps, cyclic: set<Name>, goals: set<Name>, upToDate: set<Name>, loaded: States, w: Snapshot, w': Snapshot,
                        rest: seq<Task>, added: seq<Task>, r: Name)
    requires Working(deps, cyclic, goals, upToDate, loaded, w) && w.queue == [Run(r)] + rest
    requires w'.state == w.state[r := Succeeded] && w'.order == w.order + [r]
    requires Distinct(added) && forall t | t in added :: t.Run?
    requires forall v :: Run(v) in added <==> Unlocked(deps, w'.state, r, v)
    requires w'.goalCount == w.goalCount + (if r in upToDate then 1 else 0) + (if r in goals then 1 else 0)
    requires w'.queue == rest + added + if w'.goalCount == |goals| then [Stop] else []
    ensures Working(deps, cyclic, goals, upToDate, loaded, w') && RanSet(w.order) < RanSet(w'.order)
    ensures QueueExact(deps, loaded, rest + added, RanSet(w'.order))
  {
    assert Run(r) in w.queue && Ready(deps, loaded, RanSet(w.order), r);
    LogExtended(deps, w.order, r);
    DepsOfRanHaveRun(deps, w.order);
    QueueAfterRun(deps, cyclic, loaded, w'.state, rest, added, RanSet(w.order), r);
    StopKeepsQueueExact(deps, loaded, rest + added, RanSet(w'.order));
    CountOneMore(goals, upToDate, w.order, r);
    assert w'.goalCount != |goals| ==> w'.queue == rest + added;
    hide QueueExact, Count, DepsFirst, Ready, Marked;
  }

  lemma RuleInHand(deps: Deps, cyclic: set<Name>, goals: set<Name>, upToDate: set<Name>, loaded: States, w: Snapshot, r: Name)
    requires Working(deps, cyclic, goals, upToDate, loaded, w) && w.queue != [] && w.queue[0] == Run(r)
    ensures r in deps && r in w.state && r !in w.order && w.state.Keys == deps.Keys && loaded[r] != Default
    ensures w.state[r] == Unprocessed || w.state[r] == Ignored
    ensures forall d | d in deps[r] :: d in w.state && w.state[d] == Succeeded
    ensures r !in deps[r]
  {
    assert Run(r) in w.queue && Ready(deps, loaded, RanSet(w.order), r);
  }

  /** While a valid goal has not been dealt with there is something to pull. */
  lemma StillWork(deps: Deps, needs: set<(Name, Name)>, cyclic: set<Name>, goals: set<Name>, upToDate: set<Name>, loaded: States, w: Snapshot)
    requires Facts(deps, needs, cyclic) && Explored(deps, cyclic, loaded, {})
    requires Working(deps, cyclic, goals, upToDate, loaded, w)
    requires forall g | g in goals :: g in deps && g !in cyclic && loaded[g] != Default
    ensures goals <= RanSet(w.order) || w.queue != []
  {
    if g :| g in goals && g !in RanSet(w.order) {
      var v := SomethingReady(deps, needs, cyclic, loaded, RanSet(w.order), g);
      assert Run(v) in w.queue;
    }
  }

  /** Of the rules dealt with, those that had to be run. */
  function Outdated(order: seq<Name>, upToDate: set<Name>): seq<Name>
    decreases |order|
  {
    if order == [] then []
    else Outdated(order[..|order| - 1], upToDate) + if order[|order| - 1] in upToDate then [] else [order[|order| - 1]]
  }

  lemma OutdatedNext(before: seq<Name>, upToDate: set<Name>, r: Name)
    ensures Outdated(before + [r], upToDate) == Outdated(before, upToDate) + if r in upToDate then [] else [r]
  {
    var order := before + [r];
    assert order[..|order| - 1] == before;
  }

  /** What is dealt with is closed under needing, and leads to no cycle. */
  lemma DealtIsClosed(deps: Deps, needs: set<(Name, Name)>, cyclic: set<Name>, order: seq<Name>)
    requires Closed(deps) && Facts(deps, needs, cyclic) && RanInOrder(deps, order)
    ensures forall g, v | g in order && (g, v) in needs :: v in order
    ensures forall v | v in order :: v in deps && v !in cyclic
  {
    RunRulesAreNotCyclic(deps, needs, cyclic, order);
    DepsOfRanHaveRun(deps, order);
    forall g, v | g in order && (g, v) in needs
      ensures v in order
    {
      NeededHaveRun(deps, needs, cyclic, RanSet(order), g, v);
    }
  }

  lemma GoalsRan(goals: set<Name>, log: seq<Name>, r: Name)
    requires r !in log
    ensures |goals * RanSet(log + [r])| == |goals * RanSet(log)| + if r in goals then 1 else 0
    ensures goals <= RanSet(log) ==> goals <= RanSet(log + [r])
  {
    if r in goals {
      assert goals * RanSet(log + [r]) == goals * RanSet(log) + {r};
    } else {
      assert goals * RanSet(log + [r]) == goals * RanSet(log);
    }
  }

  /** What load_rules leaves in the rules: marks only on what some goal needs, and on all that the valid goals need. */
  ghost predicate LoadedAs(deps: Deps, cyclic: set<Name>, wanted: set<Name>, loaded: States) {
    && Marked(deps, cyclic, loaded) && Explored(deps, cyclic, loaded, {})
    && (forall v | v in deps && loaded[v] != Default :: v in wanted)
    && SENTINEL in deps && forall g | g in ValidAmong(deps[SENTINEL], cyclic) :: g in deps && loaded[g] != Default
  }

  /** What a whole run comes to: it deals with rules some goal needs, each at most once and after all it needs, never with
      one that leads to a cycle, and runs those of them that are not up to date. */
  ghost predicate RunOf(deps: Deps, needs: set<(Name, Name)>, cyclic: set<Name>, wanted: set<Name>, upToDate: set<Name>,
                        order: seq<Name>, log: seq<Name>)
  {
    && RanInOrder(deps, order) && log == Outdated(order, upToDate)
    && (forall v | v in order :: v in deps && v !in cyclic && v in wanted)
    && forall g, v | g in order && (g, v) in needs :: v in order
  }
}
