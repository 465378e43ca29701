/** The password cracker: workers draw jobs from one queue, and a single NULL passed from hand to hand stops them. */
module Cracker {
  import opened Sequences

  const NULL := -1

  /** A job, by which of its candidate passwords, in the order of the search, hash to its target. */
  type Job = seq<bool>

  /** The search starts by stepping past the first candidate, so that one is never tried. */
  ghost predicate Crackable(job: Job) {
    exists i :: 1 <= i < |job| && job[i]
  }

  /** The inner loop of crack. */
  method Search(job: Job) returns (found: bool, hashCount: nat)
    ensures found <==> Crackable(job)
    ensures found ==> 2 <= hashCount <= |job| && job[hashCount - 1] && forall i | 1 <= i < hashCount - 1 :: !job[i]
    ensures !found ==> hashCount == if job == [] then 1 else |job|
  {
    found, hashCount := false, 1;
    var at := 0;
    while at + 1 < |job|
      invariant 0 <= at && hashCount == at + 1 && (at < |job| || (job == [] && at == 0))
      invariant forall i | 1 <= i <= at && i < |job| :: !job[i]
    {
      at := at + 1;
      hashCount := hashCount + 1;
      if job[at] {
        found := true;
        break;
      }
    }
  }

  /** Some candidate, the first included, hashes to the target. */
  ghost predicate Solvable(job: Job) {
    exists i :: 0 <= i < |job| && job[i]
  }

  /** The search finds what there is to find exactly unless the first candidate is the only one that matches. */
  lemma FirstCandidateIsMissed(job: Job)
    ensures (Crackable(job) <==> Solvable(job)) <==> !(job != [] && job[0] && forall i | 1 <= i < |job| :: !job[i])
  {
    if Crackable(job) {
      var i :| 1 <= i < |job| && job[i];
      assert Solvable(job);
    } else if job != [] && job[0] {
      assert Solvable(job);
    }
  }

  /** A job whose only candidate hashes to the target is given up. */
  method OnlyCandidateIsMissed() returns (found: bool, hashCount: nat)
    ensures !found && hashCount == 1 && Solvable([true])
  {
    found, hashCount := Search([true]);
    FirstCandidateIsMissed([true]);
    assert [true][0];
  }

  datatype Worker = Unborn | Pulling | Working(job: int) | HoldingNull | Exited

  /** created and joined are the loop counters of start. drawn records who pulled each job so far, done which jobs are
      finished, holder who has the NULL when it is not in the queue. */
  datatype State = State(queue: seq<int>, workers: seq<Worker>, found: seq<int>, created: nat, joined: nat, cracked: int,
                         drawn: seq<int>, done: set<int>, holder: int)

  /** The queue when the producer loop of start is over. */
  function Filled(k: int, n: nat): seq<int>
    requires k <= n
  {
    seq(n - k, i => k + i)
  }

  method Produce(jobs: seq<Job>) returns (queue: seq<int>, total: nat)
    ensures queue == Filled(0, |jobs|) + [NULL] && total == |jobs|
  {
    queue, total := [], 0;
    while total < |jobs|
      invariant 0 <= total <= |jobs| && queue == Filled(0, total)
    {
      queue := queue + [total];
      total := total + 1;
    }
    queue := queue + [NULL];
  }

  ghost predicate Init(jobs: seq<Job>, n: nat, s: State) {
    s == State(Filled(0, |jobs|) + [NULL], seq(n, _ => Unborn), seq(n, _ => 0), 0, 0, 0, [], {}, NULL)
  }

  datatype Action = Create | Join | Pull(w: int) | Finish(w: int) | PushNull(w: int)

  predicate Enabled(s: State, a: Action) {
    match a
    case Create => s.created < |s.workers|
    case Join => s.created == |s.workers| && s.joined < |s.workers| && s.workers[s.joined] == Exited
    case Pull(w) => 0 <= w < |s.workers| && s.workers[w] == Pulling && s.queue != []
    case Finish(w) => 0 <= w < |s.workers| && s.workers[w].Working?
    case PushNull(w) => 0 <= w < |s.workers| && s.workers[w] == HoldingNull
  }

  ghost function Gain(jobs: seq<Job>, j: int): int {
    if 0 <= j < |jobs| && Crackable(jobs[j]) then 1 else 0
  }

  ghost function Step(jobs: seq<Job>, s: State, a: Action): State
    requires Enabled(s, a) && |s.found| == |s.workers|
  {
    match a
    case Create => if s.created < |s.workers| then s.(workers := s.workers[s.created := Pulling], created := s.created + 1) else s
    case Join => s.(cracked := s.cracked + s.found[s.joined], joined := s.joined + 1)
    case Pull(w) =>
      if s.queue[0] == NULL then s.(workers := s.workers[w := HoldingNull], queue := s.queue[1..], holder := w)
      else s.(workers := s.workers[w := Working(s.queue[0])], queue := s.queue[1..], drawn := s.drawn + [w])
    case Finish(w) =>
      var j := s.workers[w].job;
      s.(workers := s.workers[w := Pulling], found := s.found[w := s.found[w] + Gain(jobs, j)], done := s.done + {j})
    case PushNull(w) => s.(workers := s.workers[w := Exited], queue := s.queue + [NULL], holder := NULL)
  }

  // Counting.

  /** What worker w has found among the first k jobs, all of them finished jobs of its own. */
  ghost function Score(jobs: seq<Job>, drawn: seq<int>, done: set<int>, w: int, k: nat): int
    requires k <= |drawn|
  {
    if k == 0 then 0
    else Score(jobs, drawn, done, w, k - 1) + if drawn[k - 1] == w && k - 1 in done then Gain(jobs, k - 1) else 0
  }

  ghost function CrackableCount(jobs: seq<Job>, k: nat): int {
    if k == 0 then 0 else CrackableCount(jobs, k - 1) + Gain(jobs, k - 1)
  }

  /** Finishing job j, which was worker v's, changes v's score by its gain and no other score. */
  lemma {:induction false} ScoreFinish(jobs: seq<Job>, drawn: seq<int>, done: set<int>, w: int, k: nat, j: int)
    requires k <= |drawn| && j !in done && 0 <= j < |drawn|
    ensures Score(jobs, drawn, done + {j}, w, k) == Score(jobs, drawn, done, w, k) + if j < k && drawn[j] == w then Gain(jobs, j) else 0
  {
    if k > 0 {
      ScoreFinish(jobs, drawn, done, w, k - 1, j);
    }
  }

  /** A new job that is not finished yet changes no score. */
  lemma {:induction false} ScoreExtend(jobs: seq<Job>, drawn: seq<int>, done: set<int>, w: int, k: nat, v: int)
    requires k <= |drawn|
    ensures Score(jobs, drawn + [v], done, w, k) == Score(jobs, drawn, done, w, k)
  {
    if k > 0 {
      ScoreExtend(jobs, drawn, done, w, k - 1, v);
    }
  }

  ghost function Scores(jobs: seq<Job>, drawn: seq<int>, done: set<int>, n: nat, k: nat): seq<int>
    requires k <= |drawn|
  {
    seq(n, w => Score(jobs, drawn, done, w, k))
  }

  /** Each finished job is one worker's, so the scores add up to the number of crackable jobs. */
  lemma {:induction false} ScoresAddUp(jobs: seq<Job>, drawn: seq<int>, done: set<int>, n: nat, k: nat)
    requires k <= |drawn| && forall j | 0 <= j < k :: 0 <= drawn[j] < n && j in done
    ensures Sum(Scores(jobs, drawn, done, n, k)) == CrackableCount(jobs, k)
  {
    if k == 0 {
      SumZero(Scores(jobs, drawn, done, n, 0));
    } else {
      ScoresAddUp(jobs, drawn, done, n, k - 1);
      var before, w := Scores(jobs, drawn, done, n, k - 1), drawn[k - 1];
      assert Scores(jobs, drawn, done, n, k) == before[w := before[w] + Gain(jobs, k - 1)];
      SumUpdate(before, w, before[w] + Gain(jobs, k - 1));
    }
  }

  // The invariant.

  /** The queue is the jobs not pulled yet and, last, the NULL, unless some worker has the NULL; and that can
      only be when all jobs have been pulled. */
  ghost predicate QueueOk(jobs: seq<Job>, s: State) {
    && |s.drawn| <= |jobs|
    && s.queue == Filled(|s.drawn|, |jobs|) + (if s.holder == NULL then [NULL] else [])
    && (s.holder != NULL ==> |s.drawn| == |jobs|)
  }

  ghost predicate WorkerOk(jobs: seq<Job>, s: State, w: int)
    requires 0 <= w < |s.workers| && |s.found| == |s.workers|
  {
    && (s.workers[w] == HoldingNull <==> w == s.holder)
    && (s.workers[w] == Unborn <==> w >= s.created)
    && (s.workers[w] == Exited ==> |s.drawn| == |jobs|)
    && (w < s.joined ==> s.workers[w] == Exited)
    && s.found[w] == Score(jobs, s.drawn, s.done, w, |s.drawn|)
    && (s.workers[w].Working? ==> var j := s.workers[w].job; 0 <= j < |s.drawn| && s.drawn[j] == w && j !in s.done)
  }

  /** Every job pulled is either finished or being worked on by the one worker that pulled it. */
  ghost predicate JobOk(s: State, j: int)
    requires 0 <= j < |s.drawn|
  {
    0 <= s.drawn[j] < |s.workers| && (j in s.done || s.workers[s.drawn[j]] == Working(j))
  }

  ghost predicate Inv(jobs: seq<Job>, s: State) {
    && |s.found| == |s.workers| && s.created <= |s.workers| && s.joined <= s.created
    && (s.joined > 0 ==> s.created == |s.workers|)
    && (s.holder == NULL || 0 <= s.holder < |s.workers|)
    && QueueOk(jobs, s)
    && (forall w | 0 <= w < |s.workers| :: WorkerOk(jobs, s, w))
    && (forall j | 0 <= j < |s.drawn| :: JobOk(s, j))
    && (forall j | j in s.done :: 0 <= j < |s.drawn|)
    && s.cracked == Sum(s.found[..s.joined])
  }

  lemma InitHolds(jobs: seq<Job>, n: nat, s: State)
    requires Init(jobs, n, s)
    ensures Inv(jobs, s)
  {
  }

  lemma CreateKeeps(jobs: seq<Job>, s: State)
    requires Inv(jobs, s) && Enabled(s, Create)
    ensures Inv(jobs, Step(jobs, s, Create))
  {
    var s' := Step(jobs, s, Create);
    assert WorkerOk(jobs, s, s.created);
    forall w | 0 <= w < |s.workers|
      ensures WorkerOk(jobs, s', w)
    {
      assert WorkerOk(jobs, s, w);
    }
    forall j | 0 <= j < |s.drawn|
      ensures JobOk(s', j)
    {
      assert JobOk(s, j);
    }
  }

  lemma JoinKeeps(jobs: seq<Job>, s: State)
    requires Inv(jobs, s) && Enabled(s, Join)
    ensures Inv(jobs, Step(jobs, s, Join))
  {
    var s' := Step(jobs, s, Join);
    assert s.found[..s'.joined][..s.joined] == s.found[..s.joined];
    forall w | 0 <= w < |s.workers|
      ensures WorkerOk(jobs, s', w)
    {
      assert WorkerOk(jobs, s, w);
    }
    forall j | 0 <= j < |s.drawn|
      ensures JobOk(s', j)
    {
      assert JobOk(s, j);
    }
  }

  lemma PullNullKeeps(jobs: seq<Job>, s: State, w: int)
    requires Inv(jobs, s) && Enabled(s, Pull(w)) && s.queue[0] == NULL
    ensures Inv(jobs, Step(jobs, s, Pull(w)))
  {
    var s' := Step(jobs, s, Pull(w));
    assert s.queue == [NULL];
    forall v | 0 <= v < |s.workers|
      ensures WorkerOk(jobs, s', v)
    {
      assert WorkerOk(jobs, s, v);
    }
    forall j | 0 <= j < |s.drawn|
      ensures JobOk(s', j)
    {
      assert JobOk(s, j);
    }
  }

  lemma PullJobKeeps(jobs: seq<Job>, s: State, w: int)
    requires Inv(jobs, s) && Enabled(s, Pull(w)) && s.queue[0] != NULL
    ensures Inv(jobs, Step(jobs, s, Pull(w)))
  {
    var s', k := Step(jobs, s, Pull(w)), |s.drawn|;
    assert k < |jobs|;
    assert Filled(k, |jobs|) == [k] + Filled(k + 1, |jobs|);
    assert s.queue[0] == k && s'.queue == s.queue[1..];
    forall v | 0 <= v < |s.workers|
      ensures WorkerOk(jobs, s', v)
    {
      assert WorkerOk(jobs, s, v);
      ScoreExtend(jobs, s.drawn, s.done, v, k, w);
    }
    forall j | 0 <= j < |s'.drawn|
      ensures JobOk(s', j)
    {
      assert j < k ==> JobOk(s, j);
    }
  }

  lemma FinishKeeps(jobs: seq<Job>, s: State, w: int)
    requires Inv(jobs, s) && Enabled(s, Finish(w))
    ensures Inv(jobs, Step(jobs, s, Finish(w)))
  {
    var s', j := Step(jobs, s, Finish(w)), s.workers[w].job;
    assert WorkerOk(jobs, s, w);
    assert w >= s.joined;
    assert s'.found[..s.joined] == s.found[..s.joined];
    forall v | 0 <= v < |s.workers|
      ensures WorkerOk(jobs, s', v)
    {
      assert WorkerOk(jobs, s, v);
      ScoreFinish(jobs, s.drawn, s.done, v, |s.drawn|, j);
    }
    forall i | 0 <= i < |s.drawn|
      ensures JobOk(s', i)
    {
      assert JobOk(s, i);
    }
  }

  lemma PushNullKeeps(jobs: seq<Job>, s: State, w: int)
    requires Inv(jobs, s) && Enabled(s, PushNull(w))
    ensures Inv(jobs, Step(jobs, s, PushNull(w)))
  {
    var s' := Step(jobs, s, PushNull(w));
    assert WorkerOk(jobs, s, w) && s.holder == w;
    forall v | 0 <= v < |s.workers|
      ensures WorkerOk(jobs, s', v)
    {
      assert WorkerOk(jobs, s, v);
    }
    forall j | 0 <= j < |s.drawn|
      ensures JobOk(s', j)
    {
      assert JobOk(s, j);
    }
  }

  lemma StepKeepsInv(jobs: seq<Job>, s: State, a: Action)
    requires Inv(jobs, s) && Enabled(s, a)
    ensures Inv(jobs, Step(jobs, s, a)) && |Step(jobs, s, a).workers| == |s.workers|
  {
    match a
    case Create => CreateKeeps(jobs, s);
    case Join => JoinKeeps(jobs, s);
    case Pull(w) => if s.queue[0] == NULL { PullNullKeeps(jobs, s, w); } else { PullJobKeeps(jobs, s, w); }
    case Finish(w) => FinishKeeps(jobs, s, w);
    case PushNull(w) => PushNullKeeps(jobs, s, w);
  }

  // Termination.

  function StepsLeft(w: Worker): nat {
    match w
    case Unborn => 3
    case Pulling => 2
    case Working(_) => 3
    case HoldingNull => 1
    case Exited => 0
  }

  function Weights(ws: seq<Worker>): seq<int> {
    seq(|ws|, i requires 0 <= i < |ws| => StepsLeft(ws[i]) as int)
  }

  /** The number of steps still to come. */
  function Remaining(jobs: seq<Job>, s: State): int {
    2 * (|jobs| - |s.drawn|) + Sum(Weights(s.workers)) + |s.workers| - s.joined
  }

  lemma WeightUpdate(ws: seq<Worker>, i: nat, w: Worker)
    requires i < |ws|
    ensures Sum(Weights(ws[i := w])) == Sum(Weights(ws)) - StepsLeft(ws[i]) + StepsLeft(w)
  {
    assert Weights(ws[i := w]) == Weights(ws)[i := StepsLeft(w)];
    SumUpdate(Weights(ws), i, StepsLeft(w));
  }

  /** Whatever the interleaving, every step brings the end nearer by exactly one. */
  lemma StepCountsDown(jobs: seq<Job>, s: State, a: Action)
    requires Inv(jobs, s) && Enabled(s, a)
    ensures Remaining(jobs, Step(jobs, s, a)) == Remaining(jobs, s) - 1
  {
    match a
    case Create =>
      assert WorkerOk(jobs, s, s.created);
      WeightUpdate(s.workers, s.created, Pulling);
    case Join =>
    case Pull(w) => WeightUpdate(s.workers, w, Step(jobs, s, a).workers[w]);
    case Finish(w) => WeightUpdate(s.workers, w, Pulling);
    case PushNull(w) => WeightUpdate(s.workers, w, Exited);
  }

  lemma {:induction false} SumNonNegative(ws: seq<Worker>)
    ensures Sum(Weights(ws)) >= 0
  {
    if ws != [] {
      assert Weights(ws)[..|ws| - 1] == Weights(ws[..|ws| - 1]);
      SumNonNegative(ws[..|ws| - 1]);
    }
  }

  /** Until the main thread has joined all workers, somebody can move. */
  lemma NeverStuck(jobs: seq<Job>, s: State)
    requires Inv(jobs, s) && s.joined < |s.workers|
    ensures exists a :: Enabled(s, a)
  {
    var w := s.joined;
    assert WorkerOk(jobs, s, w);
    var a :=
      if s.created < |s.workers| then Create
      else if s.workers[w] == Exited then Join
      else if s.workers[w].Working? then Finish(w)
      else if s.workers[w] == HoldingNull then PushNull(w)
      else if s.queue != [] then Pull(w)
      else PushNull(s.holder);
    if s.holder != NULL {
      assert WorkerOk(jobs, s, s.holder);
    }
    assert Enabled(s, a);
  }

  // Whole runs.

  ghost predicate IsRun(jobs: seq<Job>, n: nat, states: seq<State>, actions: seq<Action>) {
    && |states| == |actions| + 1 && Init(jobs, n, states[0])
    && forall i {:trigger actions[i]} | 0 <= i < |actions| ::
         Enabled(states[i], actions[i]) && |states[i].found| == |states[i].workers| && states[i + 1] == Step(jobs, states[i], actions[i])
  }

  lemma {:induction false} RunKeepsInv(jobs: seq<Job>, n: nat, states: seq<State>, actions: seq<Action>, i: nat)
    requires IsRun(jobs, n, states, actions) && i < |states|
    ensures Inv(jobs, states[i]) && |states[i].workers| == n
    ensures Remaining(jobs, states[i]) == 2 * |jobs| + 4 * n - i
  {
    if i == 0 {
      InitHolds(jobs, n, states[0]);
      AllUnborn(n);
      assert states[0].workers == seq(n, _ => Unborn);
    } else {
      RunKeepsInv(jobs, n, states, actions, i - 1);
      assert Enabled(states[i - 1], actions[i - 1]);
      StepKeepsInv(jobs, states[i - 1], actions[i - 1]);
      StepCountsDown(jobs, states[i - 1], actions[i - 1]);
    }
  }

  lemma {:induction false} AllUnborn(n: nat)
    ensures Sum(Weights(seq(n, _ => Unborn))) == 3 * n
  {
    if n > 0 {
      var ws := seq(n, _ => Unborn);
      AllUnborn(n - 1);
      assert Weights(ws)[..n - 1] == Weights(seq(n - 1, _ => Unborn));
    }
  }

  lemma HolderHolds(jobs: seq<Job>, s: State)
    requires Inv(jobs, s)
    ensures s.holder != NULL ==> s.workers[s.holder] == HoldingNull
  {
    if s.holder != NULL {
      assert WorkerOk(jobs, s, s.holder);
    }
  }

  /** When the main thread is through, every worker has exited, every job was drawn by exactly one worker and
      finished, the NULL alone is left in the queue, and the joined counts are the number of crackable jobs. */
  lemma EndState(jobs: seq<Job>, s: State)
    requires Inv(jobs, s) && s.joined == |s.workers| && |s.workers| > 0
    ensures forall w | 0 <= w < |s.workers| :: s.workers[w] == Exited
    ensures s.queue == [NULL] && |s.drawn| == |jobs| && forall j | 0 <= j < |jobs| :: j in s.done
    ensures s.cracked == CrackableCount(jobs, |jobs|)
  {
    forall w | 0 <= w < |s.workers|
      ensures s.workers[w] == Exited && |s.drawn| == |jobs| && w != s.holder
      ensures s.found[w] == Score(jobs, s.drawn, s.done, w, |jobs|)
    {
      assert WorkerOk(jobs, s, w);
    }
    assert |s.drawn| == |jobs|;
    HolderHolds(jobs, s);
    forall j | 0 <= j < |jobs|
      ensures 0 <= s.drawn[j] < |s.workers| && j in s.done
    {
      assert JobOk(s, j);
    }
    assert s.found[..s.joined] == Scores(jobs, s.drawn, s.done, |s.workers|, |jobs|);
    ScoresAddUp(jobs, s.drawn, s.done, |s.workers|, |jobs|);
  }

  /** Every run is finite, and one that cannot be extended has the full length and ends as it should. */
  lemma EveryRunEnds(jobs: seq<Job>, n: nat, states: seq<State>, actions: seq<Action>)
    requires IsRun(jobs, n, states, actions) && n > 0
    ensures |actions| <= 2 * |jobs| + 4 * n
    ensures var s := states[|actions|]; (exists a :: Enabled(s, a)) <==> |actions| < 2 * |jobs| + 4 * n
    ensures var s := states[|actions|]; |actions| == 2 * |jobs| + 4 * n ==>
        s.joined == |s.workers| == n && s.queue == [NULL] && s.cracked == CrackableCount(jobs, |jobs|)
        && forall w | 0 <= w < n :: s.workers[w] == Exited
  {
    var s := states[|actions|];
    RunKeepsInv(jobs, n, states, actions, |actions|);
    SumNonNegative(s.workers);
    if s.joined < n {
      NeverStuck(jobs, s);
      var a :| Enabled(s, a);
      StepKeepsInv(jobs, s, a);
      StepCountsDown(jobs, s, a);
      SumNonNegative(Step(jobs, s, a).workers);
    } else {
      EndState(jobs, s);
      AllExited(s.workers);
      NothingEnabled(jobs, s);
    }
  }

  lemma AllExited(ws: seq<Worker>)
    requires forall w | 0 <= w < |ws| :: ws[w] == Exited
    ensures Sum(Weights(ws)) == 0
  {
    SumZero(Weights(ws));
  }

  lemma NothingEnabled(jobs: seq<Job>, s: State)
    requires Inv(jobs, s) && s.joined == |s.workers| > 0
    ensures !exists a :: Enabled(s, a)
  {
    EndState(jobs, s);
  }
}
