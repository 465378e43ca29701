/** Round robin is fair: with a fixed set of jobs the dispatches go round in a circle. */
module SchedulerFairness {
  import opened Division
  import opened Scheduler

  /** Job r is running, was dispatched no later than now, and after every job in the queue. */
  ghost predicate RoundRobinOk(s: State, r: int, now: real) {
    && Ok(s) && s.scheme == RR && r in s.jobs && r !in s.queue && s.jobs[r].rr <= now
    && forall i | 0 <= i < |s.queue| :: s.jobs[s.queue[i]].rr < s.jobs[r].rr
  }

  ghost function Expire(s: State, r: int, time: real): (State, int)
    requires InJobs(s.jobs, s.queue) && r in s.jobs
  {
    var s1 := NewJob(s, r, Evicted(s.jobs[r], time));
    (if InJobs(s1.jobs, s1.queue) then TakeFirst(s1, time) else s1, if s1.queue == [] then NONE else s1.queue[0])
  }

  /** The running job, then the queue in order. */
  ghost function Circle(s: State, r: int): seq<int> {
    [r] + s.queue
  }

  function Rotated(c: seq<int>): seq<int>
    requires c != []
  {
    c[1..] + [c[0]]
  }

  /** The expiry of a quantum moves the circle on by one place. */
  lemma ExpireRotates(s: State, r: int, now: real, time: real)
    requires RoundRobinOk(s, r, now) && time > now
    ensures var (s', r') := Expire(s, r, time); RoundRobinOk(s', r', time) && Circle(s', r') == Rotated(Circle(s, r))
  {
    var info := Evicted(s.jobs[r], time);
    var s1 := NewJob(s, r, info);
    NewJobKeepsOk(s, r, info);
    assert forall i | 0 <= i < |s.queue| :: s1.jobs[s.queue[i]] == s.jobs[s.queue[i]];
    OfferGreatestAppends(RR, s1.jobs, s.queue, r);
    assert s1.queue == s.queue + [r];
    TakeFirstKeepsOk(s1, time);
    var s', r' := TakeFirst(s1, time), s1.queue[0];
    forall i | 0 <= i < |s'.queue|
      ensures s'.queue[i] != r' && s'.jobs[s'.queue[i]].rr < s'.jobs[r'].rr
    {
      assert s'.queue[i] == s1.queue[i + 1];
    }
  }

  /** The state and the running job after quanta have expired at these times. */
  ghost function Run(s: State, r: int, times: seq<real>): (State, int)
    decreases |times|
  {
    if times == [] then (s, r)
    else
      var (s1, r1) := Run(s, r, times[..|times| - 1]);
      if InJobs(s1.jobs, s1.queue) && r1 in s1.jobs then Expire(s1, r1, times[|times| - 1]) else (s1, r1)
  }

  ghost predicate Increasing(now: real, times: seq<real>) {
    (forall i | 0 <= i < |times| :: now < times[i]) && forall i, j | 0 <= i < j < |times| :: times[i] < times[j]
  }

  /** The circle turned so that place m comes first. */
  function Turned(c: seq<int>, m: nat): seq<int>
    requires m < |c|
  {
    c[m..] + c[..m]
  }

  lemma RotateTurned(c: seq<int>, m: nat)
    requires m < |c|
    ensures Rotated(Turned(c, m)) == Turned(c, if m + 1 == |c| then 0 else m + 1)
  {
  }

  lemma OneMoreTurn(c: seq<int>, k: nat)
    requires c != []
    ensures Rotated(Turned(c, k % |c|)) == Turned(c, (k + 1) % |c|)
  {
    RotateTurned(c, k % |c|);
    NextRemainder(k, |c|);
  }

  lemma {:induction false} RunRotates(s: State, r: int, now: real, times: seq<real>)
    requires RoundRobinOk(s, r, now) && Increasing(now, times)
    ensures var (s', r') := Run(s, r, times);
      && RoundRobinOk(s', r', if times == [] then now else times[|times| - 1])
      && Circle(s', r') == Turned(Circle(s, r), |times| % |Circle(s, r)|)
    decreases |times|
  {
    if times != [] {
      var last := |times| - 1;
      var before := times[..last];
      RunRotates(s, r, now, before);
      var (s1, r1) := Run(s, r, before);
      ExpireRotates(s1, r1, if before == [] then now else before[last - 1], times[last]);
      OneMoreTurn(Circle(s, r), last);
    }
  }

  ghost function RunningAfter(s: State, r: int, times: seq<real>, k: nat): int
    requires k <= |times|
  {
    Run(s, r, times[..k]).1
  }

  /** Dispatches follow the circle, over and over. */
  lemma RunningFollowsCircle(s: State, r: int, now: real, times: seq<real>, k: nat)
    requires RoundRobinOk(s, r, now) && Increasing(now, times) && k <= |times|
    ensures RunningAfter(s, r, times, k) == Circle(s, r)[k % |Circle(s, r)|]
  {
    RunRotates(s, r, now, times[..k]);
    var (s', r') := Run(s, r, times[..k]);
    assert Circle(s', r')[0] == r';
  }

  /** Place p of a circle of n comes up within any n turns in a row. */
  lemma TurnOf(k: nat, n: nat, p: nat) returns (m: nat)
    requires p < n
    ensures k <= m < k + n && m % n == p
  {
    var at := k % n;
    m := k + if at <= p then p - at else p + n - at;
    RemainderAfter(k, n, m - k);
  }

  /** And no more than once. */
  lemma TurnsDiffer(k: nat, n: nat, i: nat, j: nat)
    requires i < n && j < n && (k + i) % n == (k + j) % n
    ensures i == j
  {
    RemainderAfter(k, n, i);
    RemainderAfter(k, n, j);
  }

  lemma {:induction false} RemainderAfter(k: nat, n: nat, j: nat)
    requires j < n
    ensures (k + j) % n == if k % n + j < n then k % n + j else k % n + j - n
  {
    if j > 0 {
      RemainderAfter(k, n, j - 1);
      NextRemainder(k + j - 1, n);
    }
  }

  /** Fairness: between a dispatch of a job and its next one every other unfinished job is dispatched exactly
      once. */
  lemma EachOtherJobOnce(s: State, r: int, now: real, times: seq<real>, k: nat, y: int) returns (m: nat)
    requires RoundRobinOk(s, r, now) && Increasing(now, times) && k + |Circle(s, r)| <= |times|
    requires y in Circle(s, r)
    ensures RunningAfter(s, r, times, k + |Circle(s, r)|) == RunningAfter(s, r, times, k)
    ensures k <= m < k + |Circle(s, r)| && RunningAfter(s, r, times, m) == y
    ensures forall i | k <= i < k + |Circle(s, r)| && RunningAfter(s, r, times, i) == y :: i == m
  {
    hide RoundRobinOk, Increasing, RunningAfter;
    var c, n := Circle(s, r), |Circle(s, r)|;
    var p :| 0 <= p < n && c[p] == y;
    m := TurnOf(k, n, p);
    RunningFollowsCircle(s, r, now, times, m);
    RunningFollowsCircle(s, r, now, times, k);
    RunningFollowsCircle(s, r, now, times, k + n);
    RemainderAfter(k, n, n - 1);
    NextRemainder(k + n - 1, n);
    forall i | k <= i < k + n && RunningAfter(s, r, times, i) == y
      ensures i == m
    {
      RunningFollowsCircle(s, r, now, times, i);
      CircleDistinct(s, r, now, i % n, p);
      TurnsDiffer(k, n, i - k, m - k);
    }
  }

  lemma CircleDistinct(s: State, r: int, now: real, p: nat, q: nat)
    requires RoundRobinOk(s, r, now) && p < |Circle(s, r)| && q < |Circle(s, r)| && Circle(s, r)[p] == Circle(s, r)[q]
    ensures p == q
  {
  }

  lemma InsertedAtEnds(queue: seq<int>, x: int, k: nat)
    requires k <= |queue| && x !in queue
    ensures queue[..k] + [x] + queue[k..] == [x] + queue <==> k == 0
    ensures queue[..k] + [x] + queue[k..] == queue + [x] <==> k == |queue|
  {
    var queue' := queue[..k] + [x] + queue[k..];
    assert queue'[k] == x;
    assert ([x] + queue)[k] == if k == 0 then x else queue[k - 1];
    assert (queue + [x])[k] == if k == |queue| then x else queue[k];
  }

  /** A job that arrives has zero as its last dispatch. It jumps the whole queue exactly when the first job there
      has already run, and waits its turn exactly when none has. */
  lemma NewcomerGoesFirst(s: State, id: int, info: Info)
    requires Ok(s) && s.scheme == RR && id !in s.queue && id != NONE && info.rr == 0.0
    ensures NewJob(s, id, info).queue == [id] + s.queue <==> s.queue == [] || s.jobs[s.queue[0]].rr > 0.0
    ensures NewJob(s, id, info).queue == s.queue + [id] <==> forall i | 0 <= i < |s.queue| :: s.jobs[s.queue[i]].rr <= 0.0
  {
    var jobs := s.jobs[id := info];
    var k := Place(s.scheme, jobs, s.queue, id);
    InsertedAtEnds(s.queue, id, k);
    forall i | 0 <= i < |s.queue|
      ensures s.queue[i] != id && jobs[s.queue[i]] == s.jobs[s.queue[i]]
    {
      assert s.queue[i] in s.queue;
    }
  }

  /** A job with one second of running behind it waits in the queue; the newcomer is put before it. */
  lemma NewcomerBeforeWaitingJob(info: Info)
    requires info.rr == 0.0
    ensures var waiting := Info(0, 5.0, 1.0, 0.0, 0.0, 1.0, 1.0);
      NewJob(State(RR, map[1 := waiting], [1]), 2, info).queue == [2, 1]
  {
    var s := State(RR, map[1 := Info(0, 5.0, 1.0, 0.0, 0.0, 1.0, 1.0)], [1]);
    NewcomerGoesFirst(s, 2, info);
    assert s.queue[0] == 1;
  }

  // The times kept for one job.

  /** Dispatched and evicted at these pairs of times, one after the other. */
  function Life(i: Info, turns: seq<(real, real)>): Info {
    if turns == [] then i
    else Evicted(Dispatched(Life(i, turns[..|turns| - 1]), turns[|turns| - 1].0), turns[|turns| - 1].1)
  }

  function TimeRun(turns: seq<(real, real)>): real {
    if turns == [] then 0.0 else TimeRun(turns[..|turns| - 1]) + (turns[|turns| - 1].1 - turns[|turns| - 1].0)
  }

  /** No turn takes less than no time. */
  predicate TurnsForward(turns: seq<(real, real)>) {
    forall k | 0 <= k < |turns| :: turns[k].0 <= turns[k].1
  }

  predicate AllEmpty(turns: seq<(real, real)>) {
    forall k | 0 <= k < |turns| :: turns[k].0 == turns[k].1
  }

  /** The turn whose dispatch is kept as the start: the first that takes time, or the last if none does. */
  function StartTurn(turns: seq<(real, real)>): (k: nat)
    requires turns != []
    ensures k < |turns| && AllEmpty(turns[..k]) && (k < |turns| - 1 ==> turns[k].0 != turns[k].1)
  {
    if |turns| == 1 then 0
    else
      var before := turns[..|turns| - 1];
      var k := StartTurn(before);
      assert turns[..k] == before[..k];
      if turns[k].0 != turns[k].1 then k
      else
        assert forall i | 0 <= i < |before| :: i < k ==> before[i] == before[..k][i];
        |turns| - 1
  }

  /** Over any number of turns, the time used is their sum and the start time is the dispatch of that turn. */
  lemma {:induction false} LifeAccounts(i: Info, turns: seq<(real, real)>)
    requires i.ut == 0.0 && turns != [] && TurnsForward(turns)
    ensures Life(i, turns).ut == TimeRun(turns) >= 0.0 && (TimeRun(turns) == 0.0 <==> AllEmpty(turns))
    ensures Life(i, turns).st == turns[StartTurn(turns)].0
  {
    var last := |turns| - 1;
    var before := turns[..last];
    if last > 0 {
      LifeAccounts(i, before);
      assert AllEmpty(turns) <==> AllEmpty(before) && turns[last].0 == turns[last].1;
      var k := StartTurn(before);
      assert AllEmpty(before) <==> turns[k].0 == turns[k].1 by {
        assert forall j | 0 <= j < k :: before[..k][j] == before[j];
        assert before[k] == turns[k];
      }
    } else {
      assert before == [];
    }
  }

  /** Empty turns are forgotten: with dispatches at increasing times, the start time is the first dispatch exactly
      when the first turn took time or was the only one. */
  lemma EmptyTurnIsForgotten(i: Info, turns: seq<(real, real)>)
    requires i.ut == 0.0 && turns != [] && TurnsForward(turns)
    requires forall j, k | 0 <= j < k < |turns| :: turns[j].0 < turns[k].0
    ensures Life(i, turns).st == turns[0].0 <==> |turns| == 1 || turns[0].0 < turns[0].1
  {
    LifeAccounts(i, turns);
    var k := StartTurn(turns);
    assert k > 0 ==> turns[..k][0] == turns[0];
  }

  /** A job dispatched at 1 and evicted at once, then dispatched at 2, has started at 2. */
  lemma StartMovesOn(i: Info)
    requires i.ut == 0.0
    ensures Life(i, [(1.0, 1.0), (2.0, 3.0)]).st == 2.0
  {
    var turns := [(1.0, 1.0), (2.0, 3.0)];
    EmptyTurnIsForgotten(i, turns);
    LifeAccounts(i, turns);
  }
}
