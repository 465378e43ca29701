/** The reusable barrier: n threads calling barrier_wait any number of times, one step per mutex or condition
    variable operation. */
module Barrier {
  import opened Division
  import opened Sequences

  datatype Owner = Free | Held(t: int)

  datatype Pc =
    | Outside
    | Entering     // about to lock the mutex
    | Counting     // holds the mutex, about to add one to count
    | Asleep       // in the condition wait, not woken
    | Woken        // about to lock the mutex again
    | Leaving      // holds the mutex, about to unlock it

  /** arrivals and passes record how often each thread has been counted and has left. */
  datatype State = State(count: nat, timesUsed: nat, owner: Owner, pc: seq<Pc>, arrivals: seq<nat>, passes: seq<nat>)

  datatype Action = Call | Lock | Count | Spurious | Unlock

  /** The shared fields, changed by the thread that holds the mutex. */
  class Counter {
    const nThreads: nat
    var count: nat
    var timesUsed: nat

    constructor (n: nat)
      ensures nThreads == n && count == 0 && timesUsed == 0
    {
      nThreads, count, timesUsed := n, 0, 0;
    }

    /** The locked section of barrier_wait: true when this caller completes the round and wakes the others. */
    method Arrive() returns (last: bool)
      requires count < nThreads
      modifies this
      ensures last <==> old(count) + 1 == nThreads
      ensures timesUsed * nThreads + count == old(timesUsed * nThreads + count) + 1 && count < nThreads
    {
      count := count + 1;
      if count == nThreads {
        count := 0;
        timesUsed := timesUsed + 1;
        last := true;
      } else {
        last := false;
      }
    }
  }

  predicate Enabled(s: State, t: int, a: Action) {
    0 <= t < |s.pc| &&
    match a
    case Call => s.pc[t].Outside?
    case Lock => (s.pc[t].Entering? || s.pc[t].Woken?) && s.owner == Free
    case Count => s.pc[t].Counting?
    case Spurious => s.pc[t].Asleep?
    case Unlock => s.pc[t].Leaving?
  }

  function WakeAll(pc: seq<Pc>): seq<Pc> {
    seq(|pc|, t requires 0 <= t < |pc| => if pc[t].Asleep? then Woken else pc[t])
  }

  ghost predicate Shaped(s: State, n: nat) {
    |s.pc| == |s.arrivals| == |s.passes| == n
  }

  function Step(s: State, t: int, a: Action): State
    requires Enabled(s, t, a) && |s.pc| == |s.arrivals| == |s.passes|
  {
    match a
    case Call => s.(pc := s.pc[t := Entering])
    case Lock => s.(owner := Held(t), pc := s.pc[t := if s.pc[t].Entering? then Counting else Leaving])
    case Count =>
      var arrivals := s.arrivals[t := s.arrivals[t] + 1];
      if s.count + 1 == |s.pc| then
        s.(count := 0, timesUsed := s.timesUsed + 1, arrivals := arrivals, pc := WakeAll(s.pc)[t := Leaving])
      else s.(count := s.count + 1, arrivals := arrivals, owner := Free, pc := s.pc[t := Asleep])
    case Spurious => s.(pc := s.pc[t := Woken])
    case Unlock => s.(owner := Free, passes := s.passes[t := s.passes[t] + 1], pc := s.pc[t := Outside])
  }

  ghost predicate Init(s: State, n: nat) {
    s == State(0, 0, Free, seq(n, _ => Outside), seq(n, _ => 0), seq(n, _ => 0))
  }

  /** What Arrive promises of the two fields pins them down: they are those of the counting step. */
  lemma ArriveIsCount(s: State, t: int, count: nat, timesUsed: nat, last: bool)
    requires Enabled(s, t, Count) && Shaped(s, |s.pc|) && s.count < |s.pc|
    requires last <==> s.count + 1 == |s.pc|
    requires timesUsed * |s.pc| + count == s.timesUsed * |s.pc| + s.count + 1 && count < |s.pc|
    ensures var s' := Step(s, t, Count);
      && s'.count == count && s'.timesUsed == timesUsed && (last <==> s'.pc[t] == Leaving)
  {
    var s' := Step(s, t, Count);
    NextRound(s.timesUsed, |s.pc|);
    SamePosition(|s.pc|, timesUsed, count, s'.timesUsed, s'.count);
  }

  // Counting sleepers and arrivals.

  function Sleepers(pc: seq<Pc>): nat {
    if pc == [] then 0 else Sleepers(pc[..|pc| - 1]) + if pc[|pc| - 1].Asleep? then 1 else 0
  }

  lemma {:induction false} SleepersUpdate(pc: seq<Pc>, t: nat, p: Pc)
    requires t < |pc|
    ensures Sleepers(pc[t := p]) == Sleepers(pc) - (if pc[t].Asleep? then 1 else 0) + (if p.Asleep? then 1 else 0)
  {
    var pc' := pc[t := p];
    if t == |pc| - 1 {
      assert pc'[..|pc| - 1] == pc[..|pc| - 1];
    } else {
      assert pc'[..|pc| - 1] == pc[..|pc| - 1][t := p];
      SleepersUpdate(pc[..|pc| - 1], t, p);
    }
  }

  /** How many are awake, and that the sleepers number as many as there are threads only when all sleep. */
  lemma {:induction false} AwakeAreFew(pc: seq<Pc>)
    ensures Sleepers(pc) <= |pc|
    ensures Sleepers(pc) == |pc| <==> forall t | 0 <= t < |pc| :: pc[t].Asleep?
  {
    if pc != [] {
      AwakeAreFew(pc[..|pc| - 1]);
      assert forall t | 0 <= t < |pc| - 1 :: pc[..|pc| - 1][t] == pc[t];
    }
  }

  lemma {:induction false} NoSleepers(pc: seq<Pc>)
    requires forall t | 0 <= t < |pc| :: !pc[t].Asleep?
    ensures Sleepers(pc) == 0
  {
    if pc != [] {
      NoSleepers(pc[..|pc| - 1]);
    }
  }

  // The invariant, without spurious wakeups.

  predicate Holds(p: Pc) {
    p.Counting? || p.Leaving?
  }

  /** A thread has been counted in the current round exactly when it sleeps. */
  ghost predicate ThreadOk(s: State, t: int)
    requires 0 <= t < |s.pc| && |s.pc| == |s.arrivals| == |s.passes|
  {
    && (Holds(s.pc[t]) <==> s.owner == Held(t))
    && s.arrivals[t] == s.timesUsed + (if s.pc[t].Asleep? then 1 else 0)
    && s.arrivals[t] == s.passes[t] + (if s.pc[t].Asleep? || s.pc[t].Woken? || s.pc[t].Leaving? then 1 else 0)
  }

  ghost predicate Inv(s: State, n: nat) {
    && Shaped(s, n) && s.count < n
    && (s.owner.Held? ==> 0 <= s.owner.t < n)
    && (forall t | 0 <= t < n :: ThreadOk(s, t))
    && s.count == Sleepers(s.pc)
    && Sum(s.arrivals) == s.timesUsed * n + s.count
  }

  lemma InitHolds(s: State, n: nat)
    requires Init(s, n) && n > 0
    ensures Inv(s, n)
  {
    NoSleepers(s.pc);
    SumZero(s.arrivals);
  }

  lemma LastIsAwaited(s: State, t: int, n: nat, u: int)
    requires Inv(s, n) && Enabled(s, t, Count) && s.count + 1 == n && 0 <= u < n
    ensures u != t ==> s.pc[u].Asleep?
  {
    assert ThreadOk(s, t);
    SleepersUpdate(s.pc, t, Asleep);
    AwakeAreFew(s.pc[t := Asleep]);
    assert u != t ==> s.pc[t := Asleep][u] == s.pc[u];
  }

  lemma CountLastThread(s: State, t: int, n: nat, u: int)
    requires Inv(s, n) && Enabled(s, t, Count) && s.count + 1 == n && 0 <= u < n
    ensures ThreadOk(Step(s, t, Count), u) && !Step(s, t, Count).pc[u].Asleep?
  {
    LastIsAwaited(s, t, n, u);
    assert ThreadOk(s, u) && ThreadOk(s, t);
  }

  lemma CountOneThread(s: State, t: int, n: nat, u: int)
    requires Inv(s, n) && Enabled(s, t, Count) && s.count + 1 != n && 0 <= u < n
    ensures ThreadOk(Step(s, t, Count), u)
  {
    assert ThreadOk(s, u) && ThreadOk(s, t);
  }

  lemma NextRound(used: nat, n: nat)
    ensures (used + 1) * n == used * n + n
  {
  }

  lemma CountLastKeepsInv(s: State, t: int, n: nat)
    requires Inv(s, n) && Enabled(s, t, Count) && s.count + 1 == n
    ensures Inv(Step(s, t, Count), n)
  {
    var s' := Step(s, t, Count);
    SumUpdate(s.arrivals, t, s.arrivals[t] + 1);
    NextRound(s.timesUsed, n);
    forall u | 0 <= u < n
      ensures ThreadOk(s', u) && !s'.pc[u].Asleep?
    {
      CountLastThread(s, t, n, u);
    }
    NoSleepers(s'.pc);
    hide ThreadOk, WakeAll, Sleepers;
  }

  lemma CountKeepsInv(s: State, t: int, n: nat)
    requires Inv(s, n) && Enabled(s, t, Count)
    ensures Inv(Step(s, t, Count), n)
  {
    if s.count + 1 == n {
      CountLastKeepsInv(s, t, n);
    } else {
      SumUpdate(s.arrivals, t, s.arrivals[t] + 1);
      SleepersUpdate(s.pc, t, Asleep);
      forall u | 0 <= u < n
        ensures ThreadOk(Step(s, t, Count), u)
      {
        CountOneThread(s, t, n, u);
      }
      assert ThreadOk(s, t);
      hide ThreadOk, Sleepers, Sum;
    }
  }

  lemma StepKeepsInv(s: State, t: int, a: Action, n: nat)
    requires Inv(s, n) && Enabled(s, t, a) && a != Spurious
    ensures Inv(Step(s, t, a), n)
  {
    if a == Count {
      CountKeepsInv(s, t, n);
    } else {
      var s' := Step(s, t, a);
      assert ThreadOk(s, t);
      SleepersUpdate(s.pc, t, s'.pc[t]);
      forall u | 0 <= u < n
        ensures ThreadOk(s', u)
      {
        assert ThreadOk(s, u);
      }
    }
  }

  datatype Event = Event(t: int, a: Action)

  ghost predicate IsRun(states: seq<State>, events: seq<Event>, n: nat) {
    && |states| == |events| + 1 && Init(states[0], n)
    && forall i {:trigger events[i]} | 0 <= i < |events| ::
         && Shaped(states[i], n) && Enabled(states[i], events[i].t, events[i].a)
         && states[i + 1] == Step(states[i], events[i].t, events[i].a)
  }

  ghost predicate NoSpuriousWakeups(events: seq<Event>) {
    forall i | 0 <= i < |events| :: events[i].a != Spurious
  }

  lemma {:induction false} RunKeepsInv(states: seq<State>, events: seq<Event>, n: nat, i: nat)
    requires IsRun(states, events, n) && NoSpuriousWakeups(events) && n > 0 && i < |states|
    ensures Inv(states[i], n)
  {
    if i == 0 {
      InitHolds(states[0], n);
    } else {
      RunKeepsInv(states, events, n, i - 1);
      assert events[i - 1].a != Spurious && Enabled(states[i - 1], events[i - 1].t, events[i - 1].a);
      StepKeepsInv(states[i - 1], events[i - 1].t, events[i - 1].a, n);
    }
  }

  /** No thread leaves a round before all threads have arrived in it, and nobody is a round ahead. */
  lemma NobodyLeavesEarly(states: seq<State>, events: seq<Event>, n: nat, i: nat, t: nat, u: nat)
    requires IsRun(states, events, n) && NoSpuriousWakeups(events) && i < |states| && t < n && u < n
    ensures Shaped(states[i], n) && states[i].passes[t] <= states[i].arrivals[u] <= states[i].passes[t] + 2
    ensures states[i].passes[t] <= states[i].timesUsed
    ensures Sum(states[i].arrivals) == states[i].timesUsed * n + states[i].count
    ensures states[i].count == Sleepers(states[i].pc)
  {
    RunKeepsInv(states, events, n, i);
    assert ThreadOk(states[i], t) && ThreadOk(states[i], u);
  }

  /** No lost wakeup: while anyone sleeps, someone has yet to arrive in the round. */
  lemma SleepersWaitForSomeone(s: State, n: nat, t: nat) returns (u: nat)
    requires Inv(s, n) && t < n && s.pc[t].Asleep?
    ensures u < n && s.arrivals[u] < s.arrivals[t]
  {
    AwakeAreFew(s.pc);
    u :| u < n && !s.pc[u].Asleep?;
    assert ThreadOk(s, t) && ThreadOk(s, u);
  }

  // The wait is not in a loop, so a spurious wakeup takes a thread out of its round.

  /** The events lead from one state to the other. */
  ghost predicate Leads(s: State, events: seq<Event>, s': State)
    decreases |events|
  {
    if events == [] then s' == s
    else
      && Shaped(s, |s.pc|) && Enabled(s, events[0].t, events[0].a)
      && Leads(Step(s, events[0].t, events[0].a), events[1..], s')
  }

  /** Thread t has left a round in which somebody has not arrived. */
  ghost predicate LeftEarly(s: State, t: int) {
    && Shaped(s, |s.pc|) && 0 <= t < |s.pc|
    && exists u :: 0 <= u < |s.pc| && s.arrivals[u] < s.passes[t]
  }

  ghost predicate CanLeaveEarly(s: State, t: int) {
    exists events, s' :: Leads(s, events, s') && NoSpuriousWakeups(events) && LeftEarly(s', t)
  }

  /** The thread that completes the round has the mutex and is about to count itself. */
  ghost predicate LastIsCounting(s: State, n: nat) {
    s.count + 1 == n && exists w :: 0 <= w < |s.pc| && s.pc[w].Counting?
  }

  lemma {:induction false} LeadsKeepsInv(s: State, events: seq<Event>, s': State, n: nat)
    requires Inv(s, n) && Leads(s, events, s') && NoSpuriousWakeups(events)
    ensures Inv(s', n)
    decreases |events|
  {
    if events != [] {
      assert events[0].a != Spurious;
      StepKeepsInv(s, events[0].t, events[0].a, n);
      assert forall i | 0 <= i < |events[1..]| :: events[1..][i] == events[i + 1];
      LeadsKeepsInv(Step(s, events[0].t, events[0].a), events[1..], s', n);
    }
  }

  lemma NobodyIsEarly(s: State, n: nat, t: int)
    requires Inv(s, n) && 0 <= t < n
    ensures !LeftEarly(s, t)
  {
    forall u | 0 <= u < n
      ensures s.passes[t] <= s.arrivals[u]
    {
      assert ThreadOk(s, t) && ThreadOk(s, u);
    }
  }

  /** While the last thread holds the mutex all others sleep, and it wakes them all: as if t had slept on. */
  lemma LastWakesAnyway(s: State, n: nat, t: int, w: int)
    requires Inv(s, n) && Enabled(s, t, Spurious) && Enabled(s, w, Count) && s.count + 1 == n
    ensures var s1 := Step(s, t, Spurious);
      && s1.owner == Held(w) && (forall u | 0 <= u < n && u != w && u != t :: s1.pc[u] == Asleep)
      && Enabled(s1, w, Count) && Step(s1, w, Count) == Step(s, w, Count)
  {
    assert ThreadOk(s, w);
    forall u | 0 <= u < n
      ensures u != w ==> s.pc[u].Asleep?
    {
      LastIsAwaited(s, w, n, u);
    }
    var s1 := Step(s, t, Spurious);
    assert WakeAll(s1.pc)[w := Leaving] == WakeAll(s.pc)[w := Leaving];
  }

  lemma HarmlessWhileLastCounts(s: State, n: nat, t: int, w: int, events: seq<Event>, s': State)
    requires Inv(s, n) && Enabled(s, t, Spurious) && Enabled(s, w, Count) && s.count + 1 == n
    requires Leads(Step(s, t, Spurious), events, s') && NoSpuriousWakeups(events)
    ensures !LeftEarly(s', t)
  {
    LastWakesAnyway(s, n, t, w);
    NobodyIsEarly(s, n, t);
    if events != [] {
      assert events[0].a != Spurious;
      assert events[0] == Event(w, Count);
      CountKeepsInv(s, w, n);
      assert forall i | 0 <= i < |events[1..]| :: events[1..][i] == events[i + 1];
      LeadsKeepsInv(Step(s, w, Count), events[1..], s', n);
      NobodyIsEarly(s', n, t);
    }
  }

  /** With the mutex free t takes it and leaves, while somebody has not arrived. */
  lemma LeavesAtOnce(s: State, n: nat, t: int)
    requires Inv(s, n) && Enabled(s, t, Spurious) && s.owner == Free
    ensures exists s' :: Leads(Step(s, t, Spurious), [Event(t, Lock), Event(t, Unlock)], s') && LeftEarly(s', t)
  {
    var u := SleepersWaitForSomeone(s, n, t);
    assert ThreadOk(s, t);
    var s1 := Step(s, t, Spurious);
    var s2 := Step(s1, t, Lock);
    var s' := Step(s2, t, Unlock);
    var events := [Event(t, Lock), Event(t, Unlock)];
    assert events[1..] == [Event(t, Unlock)] && events[1..][1..] == [];
    assert Leads(s2, events[1..], s') by {
      assert Leads(s', [], s');
    }
    assert Leads(s1, events, s');
    assert LeftEarly(s', t) by {
      assert s'.arrivals[u] < s'.passes[t];
    }
  }

  /** Whoever holds the mutex releases it in one step, which changes nothing for t. */
  lemma HolderReleases(s: State, n: nat, t: int) returns (e: Event)
    requires Inv(s, n) && Enabled(s, t, Spurious) && s.owner.Held? && !LastIsCounting(s, n)
    ensures Enabled(s, e.t, e.a) && e.a != Spurious && Enabled(Step(s, t, Spurious), e.t, e.a)
    ensures var s2 := Step(s, e.t, e.a);
      s2.owner == Free && Enabled(s2, t, Spurious) && Step(Step(s, t, Spurious), e.t, e.a) == Step(s2, t, Spurious)
  {
    var w := s.owner.t;
    assert ThreadOk(s, w) && ThreadOk(s, t);
    e := Event(w, if s.pc[w].Counting? then Count else Unlock);
    var p := Step(s, w, e.a).pc[w];
    assert s.pc[t := Woken][w := p] == s.pc[w := p][t := Woken];
  }

  /** After a spurious wakeup the thread can leave its round before all have arrived in it, even if no other spurious wakeup
      follows, unless the thread that completes the round has the mutex and is about to count itself. */
  lemma SpuriousWakeupLeavesEarly(s: State, n: nat, t: int)
    requires Inv(s, n) && Enabled(s, t, Spurious)
    ensures CanLeaveEarly(Step(s, t, Spurious), t) <==> !LastIsCounting(s, n)
  {
    var s1 := Step(s, t, Spurious);
    var leave := [Event(t, Lock), Event(t, Unlock)];
    if LastIsCounting(s, n) {
      var w :| 0 <= w < |s.pc| && s.pc[w].Counting?;
      forall events, s' | Leads(s1, events, s') && NoSpuriousWakeups(events)
        ensures !LeftEarly(s', t)
      {
        HarmlessWhileLastCounts(s, n, t, w, events, s');
      }
    } else if s.owner == Free {
      LeavesAtOnce(s, n, t);
      assert NoSpuriousWakeups(leave);
    } else {
      var e := HolderReleases(s, n, t);
      StepKeepsInv(s, e.t, e.a, n);
      LeavesAtOnce(Step(s, e.t, e.a), n, t);
      var s' :| Leads(Step(s1, e.t, e.a), leave, s') && LeftEarly(s', t);
      var events := [e] + leave;
      assert events[1..] == leave && NoSpuriousWakeups(events);
      assert Leads(s1, events, s');
    }
  }

  /** A run in which it happens: the first of two threads waits, is woken, and leaves; the second has never come. */
  lemma LeavesAlone(s: State) returns (s': State)
    requires Init(s, 2)
    ensures Leads(s, [Event(0, Call), Event(0, Lock), Event(0, Count), Event(0, Spurious), Event(0, Lock), Event(0, Unlock)], s')
    ensures s'.passes == [1, 0] && s'.arrivals == [1, 0]
  {
    s' := State(1, 0, Free, [Outside, Outside], [1, 0], [1, 0]);
  }
}
