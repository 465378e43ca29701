/** The job scheduler: six orders over one priority queue. Times are reals. */
module Scheduler {
  import opened Sequences

  datatype Scheme = FCFS | PRI | PPRI | PSRTF | RR | SJF

  /** The metadata of a job. arrival is xxtime of the source, rr the time of the last dispatch. */
  datatype Info = Info(priority: int, rt: real, rr: real, arrival: real, et: real, ut: real, st: real)

  // The comparers.

  function CompareReal(a: real, b: real): int {
    if a > b then 1 else if b > a then -1 else 0
  }

  function CompareFcfs(a: Info, b: Info): int {
    CompareReal(a.arrival, b.arrival)
  }

  function BreakTie(first: int, a: Info, b: Info): int {
    if first != 0 then first else CompareFcfs(a, b)
  }

  function ComparePri(a: Info, b: Info): int {
    BreakTie(if a.priority > b.priority then 1 else if b.priority > a.priority then -1 else 0, a, b)
  }

  function Compare(scheme: Scheme, a: Info, b: Info): int {
    match scheme
    case FCFS => CompareFcfs(a, b)
    case PRI => ComparePri(a, b)
    case PPRI => ComparePri(a, b)
    case PSRTF => BreakTie(CompareReal(a.rt - a.ut, b.rt - b.ut), a, b)
    case RR => CompareReal(a.rr, b.rr)
    case SJF => BreakTie(CompareReal(a.rt, b.rt), a, b)
  }

  /** Each comparer is the sign of a total order: reversing the arguments reverses the answer, and it is
      transitive. */
  lemma CompareIsOrder(scheme: Scheme, a: Info, b: Info, c: Info)
    ensures Compare(scheme, a, b) == -Compare(scheme, b, a)
    ensures Compare(scheme, a, b) <= 0 && Compare(scheme, b, c) <= 0 ==> Compare(scheme, a, c) <= 0
    ensures Compare(scheme, a, b) <= 0 && Compare(scheme, b, c) < 0 ==> Compare(scheme, a, c) < 0
  {
  }

  // The priority queue: sorted, and stable among equals.

  type Jobs = map<int, Info>

  ghost predicate InJobs(jobs: Jobs, queue: seq<int>) {
    forall i | 0 <= i < |queue| :: queue[i] in jobs
  }

  ghost predicate Sorted(scheme: Scheme, jobs: Jobs, queue: seq<int>)
    requires InJobs(jobs, queue)
  {
    forall i, j | 0 <= i < j < |queue| :: Compare(scheme, jobs[queue[i]], jobs[queue[j]]) <= 0
  }

  /** Where job x goes: before the first entry that is greater. */
  function Place(scheme: Scheme, jobs: Jobs, queue: seq<int>, x: int): (k: nat)
    requires x in jobs && InJobs(jobs, queue)
    ensures k <= |queue|
    ensures forall i | 0 <= i < k :: Compare(scheme, jobs[queue[i]], jobs[x]) <= 0
    ensures k < |queue| ==> Compare(scheme, jobs[queue[k]], jobs[x]) > 0
  {
    if queue == [] || Compare(scheme, jobs[queue[0]], jobs[x]) > 0 then 0
    else
      assert forall i | 0 <= i < |queue[1..]| :: queue[1..][i] == queue[i + 1];
      1 + Place(scheme, jobs, queue[1..], x)
  }

  function Offer(scheme: Scheme, jobs: Jobs, queue: seq<int>, x: int): seq<int>
    requires x in jobs && InJobs(jobs, queue)
  {
    var k := Place(scheme, jobs, queue, x);
    queue[..k] + [x] + queue[k..]
  }

  lemma OfferedAt(scheme: Scheme, jobs: Jobs, queue: seq<int>, x: int, i: int)
    requires x in jobs && InJobs(jobs, queue) && 0 <= i <= |queue|
    ensures |Offer(scheme, jobs, queue, x)| == |queue| + 1
    ensures var k := Place(scheme, jobs, queue, x);
      Offer(scheme, jobs, queue, x)[i] == if i < k then queue[i] else if i == k then x else queue[i - 1]
  {
  }

  lemma OfferedInOrder(scheme: Scheme, jobs: Jobs, queue: seq<int>, x: int, i: int, j: int)
    requires x in jobs && InJobs(jobs, queue) && Sorted(scheme, jobs, queue) && 0 <= i < j <= |queue|
    ensures var queue' := Offer(scheme, jobs, queue, x);
      queue'[i] in jobs && queue'[j] in jobs && Compare(scheme, jobs[queue'[i]], jobs[queue'[j]]) <= 0
  {
    hide Compare, Offer;
    OfferedAt(scheme, jobs, queue, x, i);
    OfferedAt(scheme, jobs, queue, x, j);
    var k := Place(scheme, jobs, queue, x);
    if i == k {
      CompareIsOrder(scheme, jobs[x], jobs[queue[k]], jobs[queue[j - 1]]);
      assert j - 1 > k ==> Compare(scheme, jobs[queue[k]], jobs[queue[j - 1]]) <= 0;
    }
  }

  lemma OfferKeepsSorted(scheme: Scheme, jobs: Jobs, queue: seq<int>, x: int)
    requires x in jobs && InJobs(jobs, queue) && Sorted(scheme, jobs, queue)
    ensures InJobs(jobs, Offer(scheme, jobs, queue, x)) && Sorted(scheme, jobs, Offer(scheme, jobs, queue, x))
    ensures multiset(Offer(scheme, jobs, queue, x)) == multiset(queue) + multiset{x}
  {
    hide Compare;
    var k := Place(scheme, jobs, queue, x);
    assert queue == queue[..k] + queue[k..];
    forall i | 0 <= i <= |queue|
      ensures Offer(scheme, jobs, queue, x)[i] in jobs
    {
      OfferedAt(scheme, jobs, queue, x, i);
    }
    forall i, j | 0 <= i < j <= |queue|
      ensures Compare(scheme, jobs[Offer(scheme, jobs, queue, x)[i]], jobs[Offer(scheme, jobs, queue, x)[j]]) <= 0
    {
      OfferedInOrder(scheme, jobs, queue, x, i, j);
    }
  }

  /** A job that is not before any other goes to the end. */
  lemma OfferGreatestAppends(scheme: Scheme, jobs: Jobs, queue: seq<int>, x: int)
    requires x in jobs && InJobs(jobs, queue)
    requires forall i | 0 <= i < |queue| :: Compare(scheme, jobs[queue[i]], jobs[x]) <= 0
    ensures Offer(scheme, jobs, queue, x) == queue + [x]
  {
  }

  // The operations on values.

  const NONE := -1

  datatype State = State(scheme: Scheme, jobs: Jobs, queue: seq<int>)

  function NewInfo(time: real, priority: int, rt: real): Info {
    Info(priority, rt, 0.0, time, 0.0, 0.0, 0.0)
  }

  function Evicted(i: Info, time: real): Info {
    i.(ut := i.ut + (time - i.rr))
  }

  function Dispatched(i: Info, time: real): Info {
    i.(rr := time, st := if i.ut == 0.0 then time else i.st)
  }

  predicate Preempts(scheme: Scheme) {
    scheme in {PSRTF, PPRI, RR}
  }

  ghost predicate Ok(s: State) {
    InJobs(s.jobs, s.queue) && Sorted(s.scheme, s.jobs, s.queue) && Distinct(s.queue) && NONE !in s.jobs
  }

  ghost function NewJob(s: State, id: int, info: Info): State
    requires InJobs(s.jobs, s.queue)
  {
    var jobs := s.jobs[id := info];
    State(s.scheme, jobs, Offer(s.scheme, jobs, s.queue, id))
  }

  /** The running job, if any, back in the queue. */
  ghost function PutBack(s: State, x: int, time: real): State
    requires InJobs(s.jobs, s.queue) && (x == NONE || x in s.jobs)
  {
    if x == NONE then s else NewJob(s, x, Evicted(s.jobs[x], time))
  }

  ghost function TakeFirst(s: State, time: real): State
    requires InJobs(s.jobs, s.queue)
  {
    if s.queue == [] then s
    else
      var x := s.queue[0];
      State(s.scheme, s.jobs[x := Dispatched(s.jobs[x], time)], s.queue[1..])
  }

  lemma NewJobKeepsOk(s: State, id: int, info: Info)
    requires Ok(s) && id !in s.queue && id != NONE
    ensures Ok(NewJob(s, id, info)) && multiset(NewJob(s, id, info).queue) == multiset(s.queue) + multiset{id}
  {
    hide Compare, Place;
    var jobs := s.jobs[id := info];
    assert forall i | 0 <= i < |s.queue| :: s.queue[i] != id && jobs[s.queue[i]] == s.jobs[s.queue[i]];
    assert Sorted(s.scheme, jobs, s.queue);
    OfferKeepsSorted(s.scheme, jobs, s.queue, id);
    var k := Place(s.scheme, jobs, s.queue, id);
    var queue' := Offer(s.scheme, jobs, s.queue, id);
    forall i, j | 0 <= i < j < |queue'|
      ensures queue'[i] != queue'[j]
    {
      assert queue'[i] == if i < k then s.queue[i] else if i == k then id else s.queue[i - 1];
      assert queue'[j] == if j < k then s.queue[j] else if j == k then id else s.queue[j - 1];
    }
  }

  /** The job taken is least among the queued ones; no job still queued has changed. */
  lemma TakeFirstKeepsOk(s: State, time: real)
    requires Ok(s)
    ensures Ok(TakeFirst(s, time))
    ensures s.queue != [] ==> forall j | 0 <= j < |s.queue| :: Compare(s.scheme, s.jobs[s.queue[0]], s.jobs[s.queue[j]]) <= 0
    ensures forall i | 0 <= i < |TakeFirst(s, time).queue| ::
        TakeFirst(s, time).queue[i] in s.jobs && TakeFirst(s, time).jobs[TakeFirst(s, time).queue[i]] == s.jobs[TakeFirst(s, time).queue[i]]
  {
    if s.queue != [] {
      CompareIsOrder(s.scheme, s.jobs[s.queue[0]], s.jobs[s.queue[0]], s.jobs[s.queue[0]]);
    }
  }

  class Scheduler {
    const scheme: Scheme
    var jobs: Jobs
    var queue: seq<int>
    var jobCount: nat
    var twt: real
    var ttat: real
    var trt: real
    /** The running times asked for by all finished jobs. */
    ghost var finishedRt: real

    ghost function Now(): State
      reads this
    {
      State(scheme, jobs, queue)
    }

    /** The queue is sound, and turnaround is waiting plus running. */
    ghost predicate Valid()
      reads this
    {
      Ok(Now()) && ttat == twt + finishedRt
    }

    constructor (scheme: Scheme)
      ensures Valid() && Now() == State(scheme, map[], []) && jobCount == 0
    {
      this.scheme := scheme;
      jobs, queue, jobCount := map[], [], 0;
      twt, ttat, trt, finishedRt := 0.0, 0.0, 0.0, 0.0;
    }

    method AddJob(id: int, time: real, priority: int, rt: real)
      requires Valid() && id !in queue && id != NONE
      modifies `jobs, `queue
      ensures Valid() && Now() == NewJob(old(Now()), id, NewInfo(time, priority, rt))
      ensures multiset(queue) == multiset(old(queue)) + multiset{id}
    {
      NewJobKeepsOk(Now(), id, NewInfo(time, priority, rt));
      jobs := jobs[id := NewInfo(time, priority, rt)];
      queue := Offer(scheme, jobs, queue, id);
    }

    method Poll(time: real) returns (next: int)
      requires Valid()
      modifies `jobs, `queue
      ensures Valid() && Now() == TakeFirst(old(Now()), time)
      ensures next == if old(queue) == [] then NONE else old(queue)[0]
    {
      TakeFirstKeepsOk(Now(), time);
      if queue == [] {
        return NONE;
      }
      next := queue[0];
      queue := queue[1..];
      jobs := jobs[next := Dispatched(jobs[next], time)];
    }

    /** scheduler_quantum_expired. */
    method QuantumExpired(evicted: int, time: real) returns (next: int)
      requires Valid() && evicted !in queue && (evicted != NONE ==> evicted in jobs)
      modifies `jobs, `queue
      ensures Valid()
      ensures Preempts(scheme) ==>
          var s := PutBack(old(Now()), evicted, time);
          && Ok(s) && multiset(s.queue) == multiset(old(queue)) + (if evicted == NONE then multiset{} else multiset{evicted})
          && Now() == TakeFirst(s, time) && next == if s.queue == [] then NONE else s.queue[0]
      ensures !Preempts(scheme) && evicted == NONE ==>
          Now() == TakeFirst(old(Now()), time) && next == if old(queue) == [] then NONE else old(queue)[0]
      ensures !Preempts(scheme) && evicted != NONE ==> next == evicted && Now() == old(Now())
    {
      if Preempts(scheme) {
        if evicted != NONE {
          NewJobKeepsOk(Now(), evicted, Evicted(jobs[evicted], time));
          jobs := jobs[evicted := Evicted(jobs[evicted], time)];
          queue := Offer(scheme, jobs, queue, evicted);
        }
        next := Poll(time);
      } else if evicted == NONE {
        next := Poll(time);
      } else {
        next := evicted;
      }
    }

    method JobFinished(job: int, time: real)
      requires Valid() && job in jobs && job !in queue
      modifies this
      ensures Valid() && jobs == old(jobs) - {job} && queue == old(queue) && jobCount == old(jobCount) + 1
      ensures ttat == old(ttat) + (time - old(jobs)[job].arrival)
      ensures trt == old(trt) + (old(jobs)[job].st - old(jobs)[job].arrival)
      ensures finishedRt == old(finishedRt) + old(jobs)[job].rt
    {
      var x := jobs[job];
      x := x.(ut := x.ut + (time - x.rr), et := time);
      ttat := ttat + (x.et - x.arrival);
      twt := twt + (x.et - x.arrival - x.rt);
      trt := trt + (x.st - x.arrival);
      jobCount := jobCount + 1;
      finishedRt := finishedRt + x.rt;
      jobs := jobs - {job};
    }
  }

  /** What a dispatch under a preemptive scheme picks: a job that no other, the evicted one included, precedes. */
  lemma DispatchIsLeast(s: State, evicted: int, time: real, y: int)
    requires Ok(s) && Preempts(s.scheme) && evicted !in s.queue && (evicted != NONE ==> evicted in s.jobs)
    requires y == evicted != NONE || y in s.queue
    ensures var s' := PutBack(s, evicted, time);
      && s'.queue != [] && s'.queue[0] in s'.jobs && y in s'.jobs
      && Compare(s.scheme, s'.jobs[s'.queue[0]], s'.jobs[y]) <= 0
      && (y in s.queue ==> s'.jobs[y] == s.jobs[y])
  {
    var s' := PutBack(s, evicted, time);
    if evicted != NONE {
      NewJobKeepsOk(s, evicted, Evicted(s.jobs[evicted], time));
    }
    assert y in multiset(s'.queue);
    TakeFirstKeepsOk(s', time);
  }
}
