/** parmake: cycle detection over the goals, loading of the queue of rules, and one worker running the rules. */
module Parmake {
  import opened ParmakeGraph
  import opened ParmakeQueue
  import opened ParmakeStop
  import opened Sequences

  class Make {
    const deps: Deps
    const vertices: seq<Name>
    ghost const needs: set<(Name, Name)>
    ghost const cyclic: set<Name>
    /** The rules that some goal needs. */
    ghost const wanted: set<Name>
    /** The outside world: rules with a failing command, and rules whose target is newer than some dependency. */
    const failing: set<Name>
    const upToDate: set<Name>

    var state: States
    var visited: set<Name>
    var validGoals: set<Name>
    var tasks: seq<Task>
    var goalTotal: int
    var goalCount: int
    /** The rules whose commands have been run, and all rules dealt with, each in order. */
    ghost var log: seq<Name>
    ghost var order: seq<Name>

    constructor (deps: Deps, vertices: seq<Name>, failing: set<Name>, upToDate: set<Name>)
      requires WellFormed(deps, vertices)
      ensures this.deps == deps && this.vertices == vertices && this.failing == failing && this.upToDate == upToDate
      ensures needs == NeedPairs(deps) && cyclic == CyclicRules(deps) && wanted == WantedRules(deps)
      ensures Fresh()
    {
      hide Facts, CoversGoals, WellFormed, NeedPairs, CyclicRules, WantedRules;
      this.deps, this.vertices, this.failing, this.upToDate := deps, vertices, failing, upToDate;
      needs, cyclic, wanted := NeedPairs(deps), CyclicRules(deps), WantedRules(deps);
      state := map v | v in deps :: Default;
      visited, validGoals, tasks, goalTotal, goalCount, log, order := {}, {}, [], 0, 0, [], [];
      PlanHolds(deps, vertices);
    }

    ghost predicate Plan() {
      WellFormed(deps, vertices) && Facts(deps, needs, cyclic) && CoversGoals(deps, needs, wanted)
    }

    ghost predicate Fresh()
      reads this
    {
      && Plan()
      && state.Keys == deps.Keys && (forall v | v in deps :: state[v] == Default)
      && visited == {} && validGoals == {} && tasks == [] && log == [] && order == []
    }

    /** cycles. `path` are the rules whose calls are in progress; visited holds those below the goal,
        together with leftovers of earlier failures, all of which lead to a cycle. */
    method Cycles(node: Name, ghost path: set<Name>) returns (result: RuleState)
      requires Closed(deps) && Facts(deps, needs, cyclic)
      requires Explained(deps, needs, cyclic, visited, path, node)
      requires Marked(deps, cyclic, state) && Explored(deps, cyclic, state, path)
      modifies `state, `visited
      ensures result == if node in cyclic then Ignored else Unprocessed
      ensures Marked(deps, cyclic, state) && state[node] != Default
      ensures MarksMore(needs, node, old(state), state)
      ensures Explored(deps, cyclic, state, path - {node})
      ensures node !in cyclic ==> visited == old(visited)
      ensures VisitsMore(deps, cyclic, old(visited), visited)
      decreases deps.Keys - visited, 1
    {
      if state[node] == Ignored {
        return Ignored;
      }
      var neighbors := deps[node];
      state := state[node := Unprocessed];
      assert MarksMore(needs, node, old(state), state) && Explored(deps, cyclic, state, path);
      hide MarksMore, VisitsMore, Explained;
      var i := 0;
      while i < |neighbors|
        invariant 0 <= i <= |neighbors|
        invariant Marked(deps, cyclic, state) && state[node] != Default
        invariant MarksMore(needs, node, old(state), state)
        invariant Explored(deps, cyclic, state, path)
        invariant visited == old(visited)
        invariant forall k | 0 <= k < i :: neighbors[k] !in cyclic && neighbors[k] in state && state[neighbors[k]] != Default
      {
        assert neighbors[i] in deps[node];
        ghost var before := state;
        var inner := CyclesAt(node, neighbors[i], path);
        MarksMoreAlong(deps, needs, cyclic, node, neighbors[i], old(state), before, state);
        if inner == Ignored {
          return Ignored;
        }
        i := i + 1;
      }
      CyclicExactly(deps, needs, cyclic, node);
      return Unprocessed;
    }

    /** The body of the loop over the neighbours. */
    method CyclesAt(node: Name, neighbor: Name, ghost path: set<Name>) returns (result: RuleState)
      requires Closed(deps) && Facts(deps, needs, cyclic)
      requires Explained(deps, needs, cyclic, visited, path, node) && neighbor in deps[node]
      requires Marked(deps, cyclic, state) && Explored(deps, cyclic, state, path) && state[node] != Default
      modifies `state, `visited
      ensures result == if neighbor in old(visited) || neighbor in cyclic then Ignored else Unprocessed
      ensures result == Ignored ==> node in cyclic
      ensures result == Unprocessed ==> neighbor in state && state[neighbor] != Default && visited == old(visited)
      ensures Marked(deps, cyclic, state)
      ensures MarksMore(needs, neighbor, old(state), state)
      ensures Explored(deps, cyclic, state, path)
      ensures VisitsMore(deps, cyclic, old(visited), visited)
      decreases deps.Keys - visited, 0
    {
      CyclicExactly(deps, needs, cyclic, node);
      assert neighbor in deps && node in state && state.Keys == deps.Keys && MarksMore(needs, neighbor, state, state);
      hide Explored, Facts, Explained, Closed, MarksMore, VisitsMore;
      if neighbor in visited {
        VisitedLeadsToCycle(deps, needs, cyclic, visited, path, node, neighbor);
        return Ignored;
      }
      ExtendPath(deps, needs, cyclic, visited, path, node, neighbor);
      visited := visited + {neighbor};
      ExploredWider(deps, cyclic, state, path, path + {neighbor});
      var inner := Cycles(neighbor, path + {neighbor});
      ExploredWider(deps, cyclic, state, path + {neighbor} - {neighbor}, path);
      VisitDone(deps, cyclic, old(visited), neighbor, visited);
      if inner == Ignored {
        IgnoreKeepsExplored(deps, needs, cyclic, old(state), state, path, node, neighbor);
        state := state[node := Ignored];
        return Ignored;
      }
      visited := visited - {neighbor};
      return Unprocessed;
    }

    method CheckGoal(ghost goals: seq<Name>, ghost i: nat, target: Name)
      requires Closed(deps) && Facts(deps, needs, cyclic)
      requires i < |goals| && Distinct(goals) && target == goals[i] && target in deps && OnlyWanted()
      requires forall v | (target, v) in needs :: v in wanted
      requires Marked(deps, cyclic, state) && Explored(deps, cyclic, state, {})
      requires Checked(deps, cyclic, goals, i, state, visited, validGoals, goalTotal)
      modifies `state, `visited, `validGoals, `goalTotal
      ensures Marked(deps, cyclic, state) && Explored(deps, cyclic, state, {})
      ensures Checked(deps, cyclic, goals, i + 1, state, visited, validGoals, goalTotal) && OnlyWanted()
    {
      GoalIsExplained(deps, needs, cyclic, visited, target);
      var status := Cycles(target, {target});
      assert {target} - {target} == {};
      CheckedNext(deps, cyclic, goals, i, old(state), old(visited), state, visited, validGoals, goalTotal);
      if status == Ignored {
        goalTotal := goalTotal - 1;
      } else if status == Unprocessed {
        validGoals := validGoals + {target};
      }
    }

    /** Marks are put only on rules that some goal needs. */
    ghost predicate OnlyWanted()
      reads `state
    {
      forall v | v in deps && v in state && state[v] != Default :: v in wanted
    }

    /** First loop of load_rules: check every goal and count the valid ones. */
    method CheckGoals()
      requires Fresh()
      modifies `state, `visited, `validGoals, `goalTotal, `goalCount
      ensures Marked(deps, cyclic, state) && Explored(deps, cyclic, state, {})
      ensures validGoals == ValidAmong(deps[SENTINEL], cyclic) && validGoals <= deps.Keys
      ensures forall g | g in validGoals :: state[g] != Default
      ensures goalTotal == |validGoals| && goalCount == 0 && OnlyWanted()
    {
      var goals := deps[SENTINEL];
      goalTotal, goalCount := |goals|, 0;
      var i := 0;
      while i < |goals|
        invariant 0 <= i <= |goals| && goalCount == 0 && OnlyWanted()
        invariant Marked(deps, cyclic, state) && Explored(deps, cyclic, state, {})
        invariant Checked(deps, cyclic, goals, i, state, visited, validGoals, goalTotal)
      {
        assert goals[i] in deps[SENTINEL];
        CheckGoal(goals, i, goals[i]);
        i := i + 1;
      }
      assert goals[..|goals|] == goals;
    }

    /** load_rules: check the goals, then queue the marked leaves, or the stop mark if there is nothing to build. */
    method LoadRules()
      requires Fresh()
      modifies `state, `visited, `validGoals, `goalTotal, `goalCount, `tasks
      ensures Loaded()
    {
      CheckGoals();
      if goalTotal == 0 {
        tasks := tasks + [Stop];
      }
      ghost var before := tasks;
      QueueLeaves();
      ghost var added := tasks[|before|..];
      assert tasks == before + added;
      assert Stop in tasks <==> Stop in before;
      LeavesAreExact(before, added);
    }

    lemma LeavesAreExact(before: seq<Task>, added: seq<Task>)
      requires Plan() && Marked(deps, cyclic, state) && (before == [] || before == [Stop])
      requires Distinct(added) && Stop !in added
      requires forall v :: Run(v) in added <==> v in deps && deps[v] == [] && state[v] == Unprocessed
      ensures QueueExact(deps, state, before + added, {})
    {
      MarkedLeavesAreReady();
    }

    lemma MarkedLeavesAreReady()
      requires Plan() && Marked(deps, cyclic, state)
      ensures forall v :: Ready(deps, state, {}, v) <==> v in deps && deps[v] == [] && state[v] == Unprocessed
    {
      forall v | v in cyclic
        ensures v in deps && deps[v] != []
      {
        assert LookBelow(v);
      }
      assert forall v | v in deps && deps[v] != [] :: deps[v][0] in deps[v];
    }

    /** Second loop of load_rules: one task for each marked vertex without dependencies. */
    method QueueLeaves()
      requires WellFormed(deps, vertices) && state.Keys == deps.Keys
      modifies `tasks
      ensures |old(tasks)| <= |tasks| && tasks[..|old(tasks)|] == old(tasks)
      ensures Distinct(tasks[|old(tasks)|..]) && Stop !in tasks[|old(tasks)|..]
      ensures forall v :: Run(v) in tasks[|old(tasks)|..] <==> v in deps && deps[v] == [] && state[v] == Unprocessed
    {
      var i := 0;
      ghost var added: seq<Task> := [];
      while i < |vertices|
        invariant 0 <= i <= |vertices|
        invariant tasks == old(tasks) + added && Distinct(added) && Stop !in added
        invariant forall v :: Run(v) in added <==> v in vertices[..i] && deps[v] == [] && state[v] == Unprocessed
      {
        var target := vertices[i];
        if deps[target] == [] && state[target] == Unprocessed {
          tasks := tasks + [Run(target)];
          assert target !in vertices[..i];
          added := added + [Run(target)];
        }
        assert vertices[..i + 1] == vertices[..i] + [target];
        i := i + 1;
      }
      assert vertices[..|vertices|] == vertices;
      assert tasks[|old(tasks)|..] == added;
    }

    /** What load_rules establishes. */
    ghost predicate Loaded()
      reads this
    {
      && Plan() && LoadedAs(deps, cyclic, wanted, state)
      && validGoals == ValidAmong(deps[SENTINEL], cyclic) && goalTotal == |validGoals| && goalCount == 0
      && QueueExact(deps, state, tasks, {})
      && (if validGoals == {} then tasks != [] && tasks[0] == Stop else Stop !in tasks)
    }

    ghost function Now(queue: seq<Task>): Snapshot
      reads `state, `order, `goalCount
    {
      Snapshot(state, queue, order, goalCount)
    }

    method CheckFailedDependencies(rule: Name)
      requires rule in deps && Closed(deps) && state.Keys == deps.Keys
      modifies `state
      ensures state == if exists d :: d in deps[rule] && old(state)[d] == Failed
                       then old(state)[rule := Failed] else old(state)
    {
      var i := 0;
      while i < |deps[rule]|
        invariant 0 <= i <= |deps[rule]| && state == old(state)
        invariant forall k | 0 <= k < i :: deps[rule][k] in state && state[deps[rule][k]] != Failed
      {
        assert deps[rule][i] in deps[rule];
        if state[deps[rule][i]] == Failed {
          state := state[rule := Failed];
          return;
        }
        i := i + 1;
      }
    }

    method Execute(rule: Name)
      requires rule in state
      modifies `state, `log
      ensures log == old(log) + [rule]
      ensures state == old(state)[rule := if rule in failing || old(state)[rule] == Failed then Failed else Succeeded]
    {
      log := log + [rule];
      if rule in failing {
        state := state[rule := Failed];
      }
      if state[rule] != Failed {
        state := state[rule := Succeeded];
      }
    }

    method Antineighbors(rule: Name) returns (antis: seq<Name>)
      requires WellFormed(deps, vertices)
      ensures Distinct(antis) && forall v :: v in antis <==> v in deps && rule in deps[v]
    {
      antis := [];
      var i := 0;
      while i < |vertices|
        invariant 0 <= i <= |vertices|
        invariant Distinct(antis) && forall v :: v in antis <==> v in vertices[..i] && rule in deps[v]
      {
        if rule in deps[vertices[i]] {
          antis := antis + [vertices[i]];
        }
        assert vertices[..i + 1] == vertices[..i] + [vertices[i]];
        i := i + 1;
      }
      assert vertices[..|vertices|] == vertices;
    }

    method PushFailedAntineighbors(rule: Name) returns (ghost added: seq<Task>)
      requires WellFormed(deps, vertices)
      modifies `tasks
      ensures tasks == old(tasks) + added
      ensures forall t :: t in added <==> t.Run? && t.target in deps && rule in deps[t.target]
    {
      var antis := Antineighbors(rule);
      added := [];
      for i := 0 to |antis|
        invariant tasks == old(tasks) + added
        invariant forall t :: t in added <==> t.Run? && t.target in antis[..i]
      {
        tasks := tasks + [Run(antis[i])];
        added := added + [Run(antis[i])];
        assert antis[..i + 1] == antis[..i] + [antis[i]];
      }
      assert antis[..|antis|] == antis;
    }

    /** Whether every dependency has succeeded. */
    method AllSucceeded(rule: Name) returns (good: bool)
      requires rule in deps && Closed(deps) && state.Keys == deps.Keys
      ensures good <==> forall d | d in deps[rule] :: d in state && state[d] == Succeeded
    {
      good := true;
      for i := 0 to |deps[rule]|
        invariant good <==> forall k | 0 <= k < i :: deps[rule][k] in state && state[deps[rule][k]] == Succeeded
      {
        assert deps[rule][i] in deps[rule];
        if state[deps[rule][i]] != Succeeded {
          good := false;
        }
      }
    }

    method PushSuccessfulAntineighbors(rule: Name) returns (ghost added: seq<Task>)
      requires WellFormed(deps, vertices) && state.Keys == deps.Keys
      modifies `tasks
      ensures tasks == old(tasks) + added && Distinct(added) && forall t | t in added :: t.Run?
      ensures forall v :: Run(v) in added <==> Unlocked(deps, state, rule, v)
    {
      var antis := Antineighbors(rule);
      added := [];
      for i := 0 to |antis|
        invariant tasks == old(tasks) + added && Distinct(added) && forall t | t in added :: t.Run?
        invariant forall v :: Run(v) in added <==> v in antis[..i] && Unlocked(deps, state, rule, v)
      {
        var anti := antis[i];
        assert anti in antis && anti !in antis[..i];
        assert antis[..i + 1] == antis[..i] + [anti];
        if state[anti] != Default {
          var good := AllSucceeded(anti);
          if good {
            tasks := tasks + [Run(anti)];
            added := added + [Run(anti)];
          }
        }
      }
      assert antis[..|antis|] == antis;
    }

    ghost predicate HasFailedDependency(rule: Name)
      requires rule in deps
      reads `state
    {
      exists d :: d in deps[rule] && d != rule && d in state && state[d] == Failed
    }

    /** Run the commands of a stale rule, even after a failed dependency; an up-to-date rule counts as a goal. */
    method ProcessRule(rule: Name)
      requires Closed(deps) && rule in deps && state.Keys == deps.Keys
      modifies `state, `goalCount, `log
      ensures rule in upToDate ==>
          log == old(log) && goalCount == old(goalCount) + 1 && state == old(state)[rule := Succeeded]
      ensures rule !in upToDate ==>
          log == old(log) + [rule] && goalCount == old(goalCount) &&
          state == old(state)[rule := if rule in failing || old(HasFailedDependency(rule)) then Failed else Succeeded]
    {
      state := state[rule := Processing];
      CheckFailedDependencies(rule);
      if rule !in upToDate {
        Execute(rule);
      } else {
        state := state[rule := Succeeded];
        goalCount := goalCount + 1;
      }
    }

    method PushFollowers(rule: Name) returns (ghost added: seq<Task>)
      requires WellFormed(deps, vertices) && state.Keys == deps.Keys && rule in deps
      modifies `tasks
      ensures tasks == old(tasks) + added
      ensures state[rule] == Failed ==> forall t :: t in added <==> t.Run? && t.target in deps && rule in deps[t.target]
      ensures state[rule] == Succeeded ==>
          Distinct(added) && (forall t | t in added :: t.Run?) &&
          forall v :: Run(v) in added <==> Unlocked(deps, state, rule, v)
    {
      added := [];
      if state[rule] == Failed {
        added := PushFailedAntineighbors(rule);
      } else if state[rule] == Succeeded {
        added := PushSuccessfulAntineighbors(rule);
      }
    }

    /** Count a finished goal and queue the stop mark when it was the last one. */
    method CountGoal(rule: Name)
      modifies `tasks, `goalCount
      ensures goalCount == old(goalCount) + if rule in validGoals then 1 else 0
      ensures tasks == old(tasks) + if goalCount == goalTotal then [Stop] else []
    {
      if rule in validGoals {
        goalCount := goalCount + 1;
      }
      if goalCount == goalTotal {
        tasks := tasks + [Stop];
      }
    }

    /** One turn of the worker's loop with a rule in hand. */
    method RunRule(rule: Name, ghost loaded: States, ghost p: Progress) returns (ghost p': Progress)
      requires failing == {} && WellFormed(deps, vertices) && goalTotal == |validGoals|
      requires Working(deps, cyclic, validGoals, upToDate, loaded, Now([Run(rule)] + tasks))
      requires OnTrack(deps, loaded, validGoals, upToDate, order, [Run(rule)] + tasks, p)
      modifies `state, `tasks, `goalCount, `log, `order
      ensures Working(deps, cyclic, validGoals, upToDate, loaded, Now(tasks)) && OnTrack(deps, loaded, validGoals, upToDate, order, tasks, p')
      ensures order == old(order) + [rule] && rule !in old(order) && rule in deps && loaded[rule] != Default
      ensures log == old(log) + if rule in upToDate then [] else [rule]
    {
      hide QueueExact, Marked, DepsFirst, OnTrack, Count;
      ghost var before, rest := Now([Run(rule)] + tasks), tasks;
      RuleInHand(deps, cyclic, validGoals, upToDate, loaded, before, rule);
      ProcessRule(rule);
      ghost var added := PushFollowers(rule);
      CountGoal(rule);
      order := order + [rule];
      WorkingAfterRun(deps, cyclic, validGoals, upToDate, loaded, before, Now(tasks), rest, added, rule);
      p' := OnTrackAfterRun(deps, loaded, validGoals, upToDate, old(order), rest, added, rule, p);
    }

    /** Pull a task; stop on the stop mark, otherwise deal with the rule. */
    method Turn(ghost loaded: States, ghost p: Progress) returns (stopped: bool, ghost p': Progress)
      requires Started(loaded) && tasks != []
      requires Working(deps, cyclic, validGoals, upToDate, loaded, Now(tasks)) && OnTrack(deps, loaded, validGoals, upToDate, order, tasks, p)
      requires Dealt(loaded)
      modifies `state, `tasks, `goalCount, `log, `order
      ensures Dealt(loaded)
      ensures stopped ==> EndsAs(deps, loaded, validGoals, upToDate, order, Stopped)
      ensures !stopped ==>
          && Working(deps, cyclic, validGoals, upToDate, loaded, Now(tasks)) && OnTrack(deps, loaded, validGoals, upToDate, order, tasks, p')
          && RanSet(old(order)) < RanSet(order)
    {
      hide OnTrack, QueueExact, Marked, Count, EndsAs, Explored;
      p' := p;
      var task := tasks[0];
      assert tasks == [task] + tasks[1..];
      if task.Stop? {
        StopsAsItShould(deps, loaded, validGoals, upToDate, order, tasks, p);
        tasks := tasks[1..];
        return true, p;
      }
      tasks := tasks[1..];
      RuleInHand(deps, cyclic, validGoals, upToDate, loaded, Now([task] + tasks), task.target);
      if state[task.target] != Processing {
        p' := RunRule(task.target, loaded, p);
        DealtMore(old(order), old(log), task.target, loaded);
      }
      return false, p';
    }

    /** The rules dealt with were all marked, each once and after its dependencies, and the outdated ones have run. */
    ghost predicate Dealt(loaded: States)
      reads `order, `log
    {
      && RanInOrder(deps, order) && log == Outdated(order, upToDate)
      && forall v | v in order :: v in deps && v in loaded && loaded[v] != Default
    }

    lemma DealtMore(before: seq<Name>, logBefore: seq<Name>, r: Name, loaded: States)
      requires Working(deps, cyclic, validGoals, upToDate, loaded, Now(tasks)) && order == before + [r] && r in deps
      requires r in loaded && loaded[r] != Default && log == logBefore + if r in upToDate then [] else [r]
      requires logBefore == Outdated(before, upToDate)
      requires forall v | v in before :: v in deps && v in loaded && loaded[v] != Default
      ensures Dealt(loaded)
      ensures RanSet(order) == RanSet(before) + {r}
    {
      hide QueueExact, Marked, StatesExact, Count, DepsFirst, Distinct, Closed, Outdated;
      OutdatedNext(before, upToDate, r);
    }

    /** The goals are loaded and nothing fails. */
    ghost predicate Started(loaded: States)
      reads `validGoals, `goalTotal
    {
      && Plan() && failing == {} && goalTotal == |validGoals|
      && Explored(deps, cyclic, loaded, {})
      && forall g | g in validGoals :: g in deps && g !in cyclic && g in loaded && loaded[g] != Default
    }

    lemma LoadedIsWorking() returns (p: Progress)
      requires Loaded() && log == [] && order == [] && failing == {}
      ensures Started(state) && Working(deps, cyclic, validGoals, upToDate, state, Now(tasks)) && Dealt(state)
      ensures OnTrack(deps, state, validGoals, upToDate, order, tasks, p)
    {
      assert RanSet(order) == {} && validGoals * {} == {} && upToDate * {} == {};
      p := if validGoals == {} then Ending(0) else Going;
      assert validGoals == {} ==> forall v :: !Ahead(tasks, v);
    }

    /** The worker's loop, for a single worker: an empty queue would keep it waiting for ever. */
    method WorkUntilStopped(ghost loaded: States, ghost start: Progress) returns (outcome: Outcome)
      requires Started(loaded) && Dealt(loaded) && Working(deps, cyclic, validGoals, upToDate, loaded, Now(tasks))
      requires OnTrack(deps, loaded, validGoals, upToDate, order, tasks, start)
      modifies `state, `tasks, `goalCount, `log, `order
      ensures Dealt(loaded) && EndsAs(deps, loaded, validGoals, upToDate, order, outcome)
    {
      hide Working, OnTrack, EndsAs, RanInOrder, Facts, Explored;
      ghost var p := start;
      var stopped := false;
      while !stopped && tasks != []
        invariant Dealt(loaded)
        invariant stopped ==> EndsAs(deps, loaded, validGoals, upToDate, order, Stopped)
        invariant !stopped ==>
            Working(deps, cyclic, validGoals, upToDate, loaded, Now(tasks)) && OnTrack(deps, loaded, validGoals, upToDate, order, tasks, p)
        decreases !stopped, deps.Keys - RanSet(order)
      {
        DealtAreRules(loaded);
        stopped, p := Turn(loaded, p);
        DealtAreRules(loaded);
      }
      if stopped {
        return Stopped;
      }
      WaitsAsItShould(deps, needs, cyclic, validGoals, upToDate, loaded, Now(tasks), p);
      return WaitsForever;
    }

    lemma DealtAreRules(loaded: States)
      requires Dealt(loaded)
      ensures RanSet(order) <= deps.Keys
    {
    }

    /** rope, run by a single worker when no command fails, with any rules up to date. It deals with each rule at most
        once, dependencies first, with none that leads to a cycle and none that no goal needs, and runs those of them
        that are not up to date. It stops exactly if the count of line 185 is met at some pull, and has then dealt with
        exactly what was queued by that moment. */
    method Rope() returns (outcome: Outcome, ghost loaded: States)
      requires Loaded() && log == [] && order == [] && failing == {}
      modifies `state, `tasks, `goalCount, `log, `order
      ensures loaded == old(state) && LoadedAs(deps, cyclic, wanted, loaded)
      ensures EndsAs(deps, loaded, validGoals, upToDate, order, outcome)
      ensures RunOf(deps, needs, cyclic, wanted, upToDate, order, log)
    {
      hide QueueExact, Marked, EndsAs, OnTrack, RunOf, LoadedAs;
      loaded := state;
      ghost var p := LoadedIsWorking();
      outcome := WorkUntilStopped(loaded, p);
      if outcome == Stopped {
        tasks := tasks + [Stop];
      }
      DealtIsRun(loaded);
    }

    lemma DealtIsRun(loaded: States)
      requires Plan() && Dealt(loaded) && LoadedAs(deps, cyclic, wanted, loaded)
      ensures RunOf(deps, needs, cyclic, wanted, upToDate, order, log)
    {
      DealtIsClosed(deps, needs, cyclic, order);
      hide RanInOrder, Facts, WellFormed, Marked, Explored, ValidAmong;
    }
  }

  /** After load_rules the valid goals are those that lead to no cycle, and all they need is unprocessed,
      whatever earlier goals left behind. */
  lemma LoadedMeansUnprocessed(make: Make, g: Name, v: Name)
    requires make.Loaded() && make.needs == NeedPairs(make.deps) && make.cyclic == CyclicRules(make.deps)
    requires g in make.deps[SENTINEL] && v in make.deps && Needs(make.deps, g, v)
    ensures g in make.validGoals <==> !Cyclic(make.deps, g)
    ensures !Cyclic(make.deps, g) ==> make.state[v] == Unprocessed
  {
    assert g in make.deps;
    if !Cyclic(make.deps, g) {
      assert g in make.validGoals && (g, v) in make.needs;
      NeededAreUnprocessed(make.deps, make.needs, make.cyclic, make.state, g, v);
    }
  }

  /** parmake with one worker and no failing command, from the parsed graph to the end. The worker stops exactly if the
      count is met at some pull, and has then dealt with exactly what was queued by that moment. */
  method RunParmake(deps: Deps, vertices: seq<Name>, upToDate: set<Name>) returns (make: Make, outcome: Outcome, ghost loaded: States)
    requires WellFormed(deps, vertices)
    ensures fresh(make) && make.deps == deps && make.upToDate == upToDate && make.failing == {}
    ensures RunOf(deps, NeedPairs(deps), CyclicRules(deps), WantedRules(deps), upToDate, make.order, make.log)
    ensures LoadedAs(deps, CyclicRules(deps), WantedRules(deps), loaded)
    ensures make.validGoals == ValidAmong(deps[SENTINEL], CyclicRules(deps))
    ensures EndsAs(deps, loaded, make.validGoals, upToDate, make.order, outcome)
  {
    hide EndsAs, WellFormed, Facts, Marked, Explored, QueueExact, RanInOrder, CoversGoals;
    make := new Make(deps, vertices, {}, upToDate);
    make.LoadRules();
    outcome, loaded := make.Rope();
  }

  /** If no rule that a goal needs is up to date, parmake stops, every rule needed by a goal that leads to no cycle has run
      exactly once, and no other rule has run than those some goal needs. */
  method RunParmakeAfresh(deps: Deps, vertices: seq<Name>, upToDate: set<Name>) returns (make: Make, outcome: Outcome)
    requires WellFormed(deps, vertices) && upToDate !! WantedRules(deps)
    ensures fresh(make) && outcome == Stopped && RanInOrder(deps, make.log)
    ensures forall g, v | g in deps[SENTINEL] && !Cyclic(deps, g) && v in deps && Needs(deps, g, v) :: v in make.log
    ensures forall v | v in make.log :: !Cyclic(deps, v) && Wanted(deps, v)
  {
    ghost var loaded: States;
    make, outcome, loaded := RunParmake(deps, vertices, upToDate);
    AfreshIsComplete(deps, upToDate, loaded, make.order, make.log, outcome);
  }

  lemma AfreshIsComplete(deps: Deps, upToDate: set<Name>, loaded: States, order: seq<Name>, log: seq<Name>, outcome: Outcome)
    requires SENTINEL in deps && Closed(deps) && RunOf(deps, NeedPairs(deps), CyclicRules(deps), WantedRules(deps), upToDate, order, log)
    requires upToDate !! WantedRules(deps)
    requires EndsAs(deps, loaded, ValidAmong(deps[SENTINEL], CyclicRules(deps)), upToDate, order, outcome)
    ensures outcome == Stopped && RanInOrder(deps, log)
    ensures forall g, v | g in deps[SENTINEL] && !Cyclic(deps, g) && v in deps && Needs(deps, g, v) :: v in log
    ensures forall v | v in log :: !Cyclic(deps, v) && Wanted(deps, v)
  {
    assert upToDate !! RanSet(order);
    AllOutdated(order, upToDate);
    OutdatedGoalsRun(deps, loaded, ValidAmong(deps[SENTINEL], CyclicRules(deps)), upToDate, order, outcome);
    hide EndsAs, RanInOrder, Outdated;
    forall g, v | g in deps[SENTINEL] && !Cyclic(deps, g) && v in deps && Needs(deps, g, v)
      ensures v in log
    {
      ValidNeedHasRun(deps, order, g, v);
    }
  }

  lemma ValidNeedHasRun(deps: Deps, order: seq<Name>, g: Name, v: Name)
    requires SENTINEL in deps && Closed(deps) && ValidAmong(deps[SENTINEL], CyclicRules(deps)) <= RanSet(order)
    requires forall g, v | g in order && (g, v) in NeedPairs(deps) :: v in order
    requires g in deps[SENTINEL] && !Cyclic(deps, g) && v in deps && Needs(deps, g, v)
    ensures v in order
  {
    hide Cyclic, Needs, Edges;
    assert g in deps && g in RanSet(order) && (g, v) in NeedPairs(deps);
  }
}
