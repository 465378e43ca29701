/** The blocking queue under any interleaving of its threads: one step per mutex or condition variable operation. */
module BlockingQueue {
  import opened LinkedQueue

  datatype Op = PushOp(data: int) | PullOp

  /** Where a thread is in queue_push or queue_pull. */
  datatype Pc =
    | Outside
    | Wants(op: Op)       // about to lock the mutex, on entry or to return from the condition wait
    | Testing(op: Op)     // holds the mutex, at the loop test
    | Asleep(op: Op)      // in the condition wait, not signalled
    | Acting(op: Op)      // holds the mutex, past the loop
    | Broadcasting        // holds the mutex, list and size updated
    | Unlocking           // holds the mutex, broadcast done

  datatype Owner = Free | Held(t: int)

  /** pushed and pulled record the data in the order in which the list was updated; chain is the list of nodes. */
  datatype State = State(q: Queue, owner: Owner, pc: map<int, Pc>, chain: seq<int>, pushed: seq<int>, pulled: seq<int>)

  /** The loop conditions of queue_push and queue_pull. */
  predicate MustWait(q: Queue, op: Op) {
    match op
    case PushOp(_) => q.maxSize > 0 && q.size >= q.maxSize
    case PullOp => q.size <= 0
  }

  ghost predicate Init(s: State) {
    && s.q == Queue(map[], NULL, NULL, 0, s.q.maxSize) && s.owner == Free && s.chain == [] && s.pushed == [] && s.pulled == []
    && forall t | t in s.pc :: s.pc[t] == Outside
  }

  datatype Action = Call(op: Op) | Lock | Test | Wake | Act(n: int) | Broadcast | Unlock

  predicate Enabled(s: State, t: int, a: Action) {
    t in s.pc &&
    match a
    case Call(_) => s.pc[t].Outside?
    case Lock => s.pc[t].Wants? && s.owner == Free
    case Test => s.pc[t].Testing?
    case Wake => s.pc[t].Asleep?
    case Act(n) => s.pc[t].Acting? && n != NULL && n !in s.q.nodes
    case Broadcast => s.pc[t].Broadcasting?
    case Unlock => s.pc[t].Unlocking?
  }

  function WakeAll(pc: map<int, Pc>): map<int, Pc> {
    map t | t in pc :: if pc[t].Asleep? then Wants(pc[t].op) else pc[t]
  }

  /** One step of thread t. Wake is a spurious wakeup; Act takes n as the newly allocated node. */
  function Step(s: State, t: int, a: Action): State
    requires Enabled(s, t, a)
  {
    match a
    case Call(op) => s.(pc := s.pc[t := Wants(op)])
    case Lock => s.(owner := Held(t), pc := s.pc[t := Testing(s.pc[t].op)])
    case Test =>
      if MustWait(s.q, s.pc[t].op) then s.(owner := Free, pc := s.pc[t := Asleep(s.pc[t].op)])
      else s.(pc := s.pc[t := Acting(s.pc[t].op)])
    case Wake => s.(pc := s.pc[t := Wants(s.pc[t].op)])
    case Act(n) =>
      (match s.pc[t].op
       case PushOp(d) => s.(q := Push(s.q, n, d), chain := s.chain + [n], pushed := s.pushed + [d], pc := s.pc[t := Broadcasting])
       case PullOp =>
         var d := if s.q.head in s.q.nodes then s.q.nodes[s.q.head].data else 0;
         s.(q := Pull(s.q), chain := if s.chain == [] then [] else s.chain[1..], pulled := s.pulled + [d], pc := s.pc[t := Broadcasting]))
    case Broadcast => s.(pc := WakeAll(s.pc)[t := Unlocking])
    case Unlock => s.(owner := Free, pc := s.pc[t := Outside])
  }

  predicate Holds(p: Pc) {
    p.Testing? || p.Acting? || p.Broadcasting? || p.Unlocking?
  }

  ghost predicate MutexOk(s: State) {
    && (s.owner.Held? ==> s.owner.t in s.pc)
    && forall t {:trigger t in s.pc} | t in s.pc :: Holds(s.pc[t]) <==> s.owner == Held(t)
  }

  /** The list holds what was pushed and not yet pulled, in order, and no more than it may. */
  ghost predicate QueueOk(s: State) {
    && ChainOk(s.q, s.chain) && s.pushed == s.pulled + Contents(s.q, s.chain)
    && (s.q.maxSize > 0 ==> s.q.size <= s.q.maxSize)
  }

  predicate AboutToBroadcast(s: State) {
    s.owner.Held? && s.owner.t in s.pc && s.pc[s.owner.t].Broadcasting?
  }

  /** A thread past its loop may act; a sleeper has to wait, unless a broadcast is on its way. */
  ghost predicate WaitersOk(s: State) {
    forall t {:trigger t in s.pc} | t in s.pc ::
      && (s.pc[t].Acting? ==> !MustWait(s.q, s.pc[t].op))
      && (s.pc[t].Asleep? ==> MustWait(s.q, s.pc[t].op) || AboutToBroadcast(s))
  }

  ghost predicate Inv(s: State) {
    MutexOk(s) && QueueOk(s) && WaitersOk(s)
  }

  lemma InitHolds(s: State)
    requires Init(s)
    ensures Inv(s)
  {
  }

  lemma ActKeepsQueue(s: State, t: int, n: int)
    requires Inv(s) && Enabled(s, t, Act(n))
    ensures QueueOk(Step(s, t, Act(n)))
  {
    assert s.owner == Held(t) && !MustWait(s.q, s.pc[t].op);
    match s.pc[t].op
    case PushOp(d) =>
      PushAppends(s.q, s.chain, n, d);
      hide ChainOk, Contents;
    case PullOp =>
      assert s.chain != [];
      PullTakesFirst(s.q, s.chain);
      hide ChainOk, Contents;
  }

  lemma ActKeepsInv(s: State, t: int, n: int)
    requires Inv(s) && Enabled(s, t, Act(n))
    ensures Inv(Step(s, t, Act(n)))
  {
    ActKeepsQueue(s, t, n);
    hide QueueOk;
    assert s.owner == Held(t);
  }

  lemma StepKeepsInv(s: State, t: int, a: Action)
    requires Inv(s) && Enabled(s, t, a)
    ensures Inv(Step(s, t, a)) && Step(s, t, a).q.maxSize == s.q.maxSize
  {
    if a.Act? {
      ActKeepsInv(s, t, a.n);
    } else {
      var s' := Step(s, t, a);
      assert QueueOk(s');
      hide QueueOk;
      assert Holds(s.pc[t]) ==> s.owner == Held(t);
      hide MustWait;
      assert MutexOk(s');
      assert WaitersOk(s');
    }
  }

  // Runs.

  /** A run: which thread did what, in order. */
  datatype Event = Event(t: int, a: Action)

  ghost predicate IsRun(states: seq<State>, events: seq<Event>) {
    && |states| == |events| + 1 && Init(states[0])
    && forall i {:trigger Enabled(states[i], events[i].t, events[i].a)} | 0 <= i < |events| ::
         Enabled(states[i], events[i].t, events[i].a) && states[i + 1] == Step(states[i], events[i].t, events[i].a)
  }

  lemma {:induction false} RunKeepsInv(states: seq<State>, events: seq<Event>, i: nat)
    requires IsRun(states, events) && i < |states|
    ensures Inv(states[i]) && states[i].q.maxSize == states[0].q.maxSize
  {
    if i == 0 {
      InitHolds(states[0]);
    } else {
      RunKeepsInv(states, events, i - 1);
      assert Enabled(states[i - 1], events[i - 1].t, events[i - 1].a);
      StepKeepsInv(states[i - 1], events[i - 1].t, events[i - 1].a);
    }
  }

  /** First in, first out, within bounds: what has been pulled is the start of what has been pushed, the rest is
      on the list, and a bounded queue never holds more than its bound. */
  lemma FirstInFirstOut(states: seq<State>, events: seq<Event>, i: nat)
    requires IsRun(states, events) && i < |states|
    ensures var s := states[i]; s.pulled <= s.pushed && s.q.size == |s.pushed| - |s.pulled|
    ensures var s := states[i]; s.pushed[|s.pulled|..] == Contents(s.q, s.chain)
    ensures var s := states[i]; s.q.maxSize > 0 ==> s.q.size <= s.q.maxSize
  {
    RunKeepsInv(states, events, i);
  }

  /** No lost wakeup: whenever the mutex is free, every thread still asleep has to wait. */
  lemma NoLostWakeup(states: seq<State>, events: seq<Event>, i: nat, t: int)
    requires IsRun(states, events) && i < |states|
    requires states[i].owner == Free && t in states[i].pc && states[i].pc[t].Asleep?
    ensures MustWait(states[i].q, states[i].pc[t].op)
  {
    RunKeepsInv(states, events, i);
  }

  /** Thread t can move on by itself: no spurious wakeup, no new call. */
  ghost predicate CanStep(s: State, t: int) {
    exists a :: Enabled(s, t, a) && !a.Call? && !a.Wake?
  }

  ghost predicate AllAsleepIn(s: State, pulling: bool) {
    forall t | t in s.pc && !s.pc[t].Outside? :: s.pc[t].Asleep? && s.pc[t].op.PullOp? == pulling
  }

  lemma HolderCanStep(s: State, t: int, n: int)
    requires Inv(s) && t in s.pc && Holds(s.pc[t]) && n != NULL && n !in s.q.nodes
    ensures CanStep(s, t)
  {
    assert Enabled(s, t, if s.pc[t].Testing? then Test else if s.pc[t].Acting? then Act(n) else if s.pc[t].Broadcasting? then Broadcast else Unlock);
  }

  /** No deadlock inside the queue: if no thread can move on, then the mutex is free and all threads inside an
      operation are asleep for one reason: pullers at an empty queue, or pushers at a full one. n is a node that
      malloc could return. */
  lemma BlockedOnlyWhenStarved(s: State, n: int)
    requires Inv(s) && n != NULL && n !in s.q.nodes
    requires forall t | t in s.pc :: !CanStep(s, t)
    ensures s.owner == Free
    ensures AllAsleepIn(s, true) || AllAsleepIn(s, false)
    ensures forall t | t in s.pc && s.pc[t].Asleep? :: if s.pc[t].op.PullOp? then s.q.size == 0 else s.q.size == s.q.maxSize > 0
  {
    if s.owner.Held? {
      HolderCanStep(s, s.owner.t, n);
    }
    forall t | t in s.pc && !s.pc[t].Outside?
      ensures s.pc[t].Asleep? && MustWait(s.q, s.pc[t].op)
    {
      if s.pc[t].Wants? {
        assert Enabled(s, t, Lock);
      }
    }
  }
}
