/** The chunked parallel reduce: what it computes under every interleaving of its threads. */
module ParReduce {
  import opened Division

  ghost predicate Associative(f: (int, int) -> int) {
    forall x, y, z {:trigger f(f(x, y), z)} :: f(f(x, y), z) == f(x, f(y, z))
  }

  ghost predicate LeftIdentity(f: (int, int) -> int, base: int) {
    forall x :: f(base, x) == x
  }

  /** The sequential reduce, from the left. */
  function Fold(f: (int, int) -> int, base: int, list: seq<int>): int
    decreases |list|
  {
    if list == [] then base else f(Fold(f, base, list[..|list| - 1]), list[|list| - 1])
  }

  /** Joining two partial results is reducing the two stretches one after the other, the second being non-empty. */
  lemma {:induction false} FoldAppend(f: (int, int) -> int, base: int, a: seq<int>, b: seq<int>)
    requires Associative(f) && LeftIdentity(f, base) && b != []
    ensures f(Fold(f, base, a), Fold(f, base, b)) == Fold(f, base, a + b)
    decreases |b|
  {
    var last := |b| - 1;
    var x, y, z := Fold(f, base, a), Fold(f, base, b[..last]), b[last];
    assert (a + b)[..|a + b| - 1] == a + b[..last];
    if last > 0 {
      FoldAppend(f, base, a, b[..last]);
      assert f(f(x, y), z) == f(x, f(y, z));
    } else {
      assert b[..last] == [] && a + b[..last] == a && f(base, z) == z;
    }
  }

  // The chunks.

  /** Threads actually used. */
  function Threads(len: nat, requested: nat): nat {
    if requested > len then len / 2 else requested
  }

  /** Where chunk i of n starts, and chunk i - 1 ends. */
  function Bound(len: nat, n: nat, i: nat): nat
    requires n > 0
  {
    if i >= n then len else i * (len / n)
  }

  /** The chunks are non-empty and in order, so together they are the list, each element once. */
  lemma ChunksPartition(len: nat, n: nat, i: nat)
    requires 0 < n <= len && i < n
    ensures Bound(len, n, 0) == 0 && Bound(len, n, n) == len
    ensures Bound(len, n, i) < Bound(len, n, i + 1) <= len
    ensures i + 1 < n ==> Bound(len, n, i + 1) == Bound(len, n, i) + len / n
  {
    var offset := len / n;
    OffsetPositive(len, n);
    NextChunk(offset, i);
    if i + 1 < n {
      NextMultiple(offset, i + 1, n);
    }
  }

  lemma OffsetPositive(len: nat, n: nat)
    requires 0 < n <= len
    ensures len / n > 0 && n * (len / n) <= len
  {
    assert len == (len / n) * n + len % n;
  }

  lemma NextChunk(offset: nat, i: nat)
    ensures (i + 1) * offset == i * offset + offset
  {
  }

  /** The loop of a thread. */
  method StartRoutine(f: (int, int) -> int, base: int, list: seq<int>, start: nat, end: nat) returns (output: int)
    requires start <= end <= |list|
    ensures output == Fold(f, base, list[start..end])
  {
    output := base;
    for i := start to end
      invariant output == Fold(f, base, list[start..i])
    {
      assert list[start..i + 1][..i - start] == list[start..i];
      output := f(output, list[i]);
    }
  }

  // All interleavings.

  /** bounds are the chunk ends handed out so far, pos and out the index and result of each thread created. */
  datatype State = State(bounds: seq<nat>, pos: seq<nat>, out: seq<int>, joined: nat, sum: int)

  datatype Action = Create | Work(i: nat) | Join

  datatype Task = Task(f: (int, int) -> int, base: int, list: seq<int>, n: nat)

  ghost predicate Init(task: Task, s: State) {
    s == State([0], [], [], 0, task.base)
  }

  ghost predicate Enabled(task: Task, s: State, a: Action) {
    && |s.bounds| == |s.pos| + 1 == |s.out| + 1 &&
    match a
    case Create => |s.pos| < task.n
    case Work(i) => i < |s.pos| && s.pos[i] < s.bounds[i + 1] && s.pos[i] < |task.list|
    case Join => |s.pos| == task.n && s.joined < task.n && s.pos[s.joined] == s.bounds[s.joined + 1]
  }

  function Step(task: Task, s: State, a: Action): State
    requires Enabled(task, s, a)
  {
    match a
    case Create =>
      var start := s.bounds[|s.pos|];
      var end := if |s.pos| + 1 == task.n then |task.list| else start + |task.list| / task.n;
      s.(bounds := s.bounds + [end], pos := s.pos + [start], out := s.out + [task.base])
    case Work(i) => s.(out := s.out[i := task.f(s.out[i], task.list[s.pos[i]])], pos := s.pos[i := s.pos[i] + 1])
    case Join => s.(sum := task.f(s.sum, s.out[s.joined]), joined := s.joined + 1)
  }

  ghost predicate ThreadOk(task: Task, s: State, i: nat)
    requires i < |s.pos| && |s.bounds| == |s.pos| + 1 == |s.out| + 1
  {
    && s.bounds[i] <= s.pos[i] <= s.bounds[i + 1] <= |task.list|
    && s.out[i] == Fold(task.f, task.base, task.list[s.bounds[i]..s.pos[i]])
    && (i < s.joined ==> s.pos[i] == s.bounds[i + 1])
  }

  ghost predicate Inv(task: Task, s: State) {
    && 0 < task.n <= |task.list|
    && |s.bounds| == |s.pos| + 1 == |s.out| + 1 && |s.pos| <= task.n && s.joined <= |s.pos|
    && (s.joined > 0 ==> |s.pos| == task.n)
    && (forall i | 0 <= i < |s.bounds| :: s.bounds[i] == Bound(|task.list|, task.n, i) <= |task.list|)
    && (forall i | 0 <= i < |s.pos| :: ThreadOk(task, s, i))
    && s.sum == Fold(task.f, task.base, task.list[..s.bounds[s.joined]])
  }

  ghost predicate Good(task: Task) {
    Associative(task.f) && LeftIdentity(task.f, task.base) && 0 < task.n <= |task.list|
  }

  lemma CreateKeeps(task: Task, s: State)
    requires Inv(task, s) && Enabled(task, s, Create)
    ensures Inv(task, Step(task, s, Create))
  {
    var s', k := Step(task, s, Create), |s.pos|;
    ChunksPartition(|task.list|, task.n, k);
    assert s.bounds[k] == Bound(|task.list|, task.n, k);
    forall i | 0 <= i < |s'.pos|
      ensures ThreadOk(task, s', i)
    {
      if i < k {
        assert ThreadOk(task, s, i);
      } else {
        assert task.list[s'.bounds[k]..s'.pos[k]] == [];
      }
    }
  }

  lemma WorkKeeps(task: Task, s: State, i: nat)
    requires Inv(task, s) && Enabled(task, s, Work(i))
    ensures Inv(task, Step(task, s, Work(i)))
  {
    var s' := Step(task, s, Work(i));
    assert ThreadOk(task, s, i);
    var chunk := task.list[s.bounds[i]..s.pos[i] + 1];
    assert chunk[..|chunk| - 1] == task.list[s.bounds[i]..s.pos[i]];
    forall j | 0 <= j < |s'.pos|
      ensures ThreadOk(task, s', j)
    {
      assert ThreadOk(task, s, j);
    }
  }

  lemma JoinKeeps(task: Task, s: State)
    requires Inv(task, s) && Enabled(task, s, Join) && Good(task)
    ensures Inv(task, Step(task, s, Join))
  {
    var s', k := Step(task, s, Join), s.joined;
    assert ThreadOk(task, s, k);
    ChunksPartition(|task.list|, task.n, k);
    var a, b := task.list[..s.bounds[k]], task.list[s.bounds[k]..s.bounds[k + 1]];
    assert a + b == task.list[..s.bounds[k + 1]];
    FoldAppend(task.f, task.base, a, b);
    forall j | 0 <= j < |s'.pos|
      ensures ThreadOk(task, s', j)
    {
      assert ThreadOk(task, s, j);
    }
  }

  /** Elements reduced so far by the first k threads. */
  ghost function Worked(s: State, k: nat): int
    requires k <= |s.pos| < |s.bounds|
  {
    if k == 0 then 0 else Worked(s, k - 1) + s.pos[k - 1] - s.bounds[k - 1]
  }

  lemma {:induction false} WorkedSame(s: State, s': State, k: nat)
    requires k <= |s.pos| < |s.bounds| && k <= |s'.pos| < |s'.bounds|
    requires forall i | 0 <= i < k :: s'.pos[i] == s.pos[i] && s'.bounds[i] == s.bounds[i]
    ensures Worked(s', k) == Worked(s, k)
  {
    if k > 0 {
      WorkedSame(s, s', k - 1);
    }
  }

  lemma {:induction false} WorkedMore(s: State, s': State, i: nat, k: nat)
    requires i < k <= |s.pos| < |s.bounds| && s' == s.(pos := s.pos[i := s.pos[i] + 1], out := s'.out)
    ensures Worked(s', k) == Worked(s, k) + 1
  {
    if i < k - 1 {
      WorkedMore(s, s', i, k - 1);
    } else {
      WorkedSame(s, s', k - 1);
    }
  }

  lemma {:induction false} WorkedBound(task: Task, s: State, k: nat)
    requires Inv(task, s) && k <= |s.pos|
    ensures 0 <= Worked(s, k) <= s.bounds[k]
    ensures (forall i | 0 <= i < k :: s.pos[i] == s.bounds[i + 1]) ==> Worked(s, k) == s.bounds[k]
  {
    ChunksPartition(|task.list|, task.n, 0);
    if k > 0 {
      WorkedBound(task, s, k - 1);
      assert ThreadOk(task, s, k - 1);
    }
  }

  lemma StepCounts(task: Task, s: State, a: Action)
    requires Inv(task, s) && Enabled(task, s, a)
    ensures var s' := Step(task, s, a);
      |s'.pos| + Worked(s', |s'.pos|) + s'.joined == |s.pos| + Worked(s, |s.pos|) + s.joined + 1
  {
    var s' := Step(task, s, a);
    match a
    case Create => WorkedSame(s, s', |s.pos|);
    case Work(i) => WorkedMore(s, s', i, |s.pos|);
    case Join => WorkedSame(s, s', |s.pos|);
  }

  ghost predicate IsRun(task: Task, states: seq<State>, actions: seq<Action>) {
    && |states| == |actions| + 1 && Init(task, states[0])
    && forall i {:trigger actions[i]} | 0 <= i < |actions| ::
         Enabled(task, states[i], actions[i]) && states[i + 1] == Step(task, states[i], actions[i])
  }

  lemma {:induction false} RunKeepsInv(task: Task, states: seq<State>, actions: seq<Action>, i: nat)
    requires IsRun(task, states, actions) && Good(task) && i < |states|
    ensures Inv(task, states[i]) && var s := states[i]; |s.pos| + Worked(s, |s.pos|) + s.joined == i
  {
    if i == 0 {
      assert task.list[..0] == [];
    } else {
      RunKeepsInv(task, states, actions, i - 1);
      assert Enabled(task, states[i - 1], actions[i - 1]);
      StepCounts(task, states[i - 1], actions[i - 1]);
      match actions[i - 1]
      case Create => CreateKeeps(task, states[i - 1]);
      case Work(j) => WorkKeeps(task, states[i - 1], j);
      case Join => JoinKeeps(task, states[i - 1]);
    }
  }

  /** Until all threads are joined, the main thread or the thread it waits for can move. */
  lemma NeverStuck(task: Task, s: State)
    requires Inv(task, s) && s.joined < task.n
    ensures exists a :: Enabled(task, s, a)
  {
    if |s.pos| < task.n {
      assert Enabled(task, s, Create);
    } else {
      assert ThreadOk(task, s, s.joined);
      assert Enabled(task, s, if s.pos[s.joined] < s.bounds[s.joined + 1] then Work(s.joined) else Join);
    }
  }

  /** Whatever the interleaving, a run ends after the same number of steps, not before, and then the joined
      result is the sequential reduce. */
  lemma EveryRunReduces(task: Task, states: seq<State>, actions: seq<Action>)
    requires IsRun(task, states, actions) && Good(task)
    ensures |actions| <= 2 * task.n + |task.list|
    ensures var s := states[|actions|];
      && (|actions| < 2 * task.n + |task.list| ==> exists a :: Enabled(task, s, a))
      && (|actions| == 2 * task.n + |task.list| ==> s.joined == task.n && s.sum == Fold(task.f, task.base, task.list))
  {
    var s := states[|actions|];
    RunKeepsInv(task, states, actions, |actions|);
    WorkedBound(task, s, |s.pos|);
    if s.joined < task.n {
      NeverStuck(task, s);
    } else {
      ChunksPartition(|task.list|, task.n, 0);
      assert task.list[..|task.list|] == task.list;
      forall i | 0 <= i < |s.pos|
        ensures s.pos[i] == s.bounds[i + 1]
      {
        assert ThreadOk(task, s, i);
      }
    }
  }

  // The call.

  datatype Outcome = Reduced(value: int) | DividesByZero

  /** par_reduce, each thread running to its end as it is created. Dividing by the number of threads fails exactly
      when none is asked for, or more than one for a list of one, or any for an empty list. */
  method Reduce(f: (int, int) -> int, base: int, list: seq<int>, requested: nat) returns (r: Outcome)
    requires Associative(f) && LeftIdentity(f, base)
    ensures r == DividesByZero <==> requested == 0 || |list| == 0 || (|list| == 1 && requested > 1)
    ensures r.Reduced? ==> r.value == Fold(f, base, list)
  {
    var n := Threads(|list|, requested);
    if n == 0 {
      return DividesByZero;
    }
    var offset, start := |list| / n, 0;
    var outputs := [];
    ChunksPartition(|list|, n, 0);
    for i := 0 to n
      invariant start == Bound(|list|, n, i) && |outputs| == i
      invariant forall j | 0 <= j < i :: Chunk(f, base, list, n, j, outputs[j])
    {
      ChunksPartition(|list|, n, i);
      var end := if i == n - 1 then |list| else start + offset;
      var output := StartRoutine(f, base, list, start, end);
      outputs := outputs + [output];
      start := end;
    }
    var sum := base;
    assert list[..0] == [];
    for i := 0 to n
      invariant Bound(|list|, n, i) <= |list| && sum == Fold(f, base, list[..Bound(|list|, n, i)])
    {
      ChunksPartition(|list|, n, i);
      var a, b := list[..Bound(|list|, n, i)], list[Bound(|list|, n, i)..Bound(|list|, n, i + 1)];
      assert a + b == list[..Bound(|list|, n, i + 1)];
      assert Chunk(f, base, list, n, i, outputs[i]);
      FoldAppend(f, base, a, b);
      sum := f(sum, outputs[i]);
    }
    assert list[..|list|] == list;
    return Reduced(sum);
  }

  ghost predicate Chunk(f: (int, int) -> int, base: int, list: seq<int>, n: nat, i: nat, output: int)
    requires n > 0
  {
    && Bound(|list|, n, i) <= Bound(|list|, n, i + 1) <= |list|
    && output == Fold(f, base, list[Bound(|list|, n, i)..Bound(|list|, n, i + 1)])
  }
}
