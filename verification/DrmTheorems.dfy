/** No deadlock, exact refusals and correct ownership, in every reachable state of the mutex library. */
module DrmTheorems {
  import opened Graphs
  import opened Options
  import opened DrmProtocol
  import opened DrmInvariant

  /** The thread is blocked locking the mutex of a drm that somebody owns. */
  predicate Blocked(s: State, t: nat) {
    t in s.pc && s.pc[t].At? && s.pc[t].stmt == WaitLockDrm && s.pc[t].drm in s.owner
  }

  /** Who really waits for whom, read off the mutexes and not off the graph. */
  function WaitsFor(s: State): set<(nat, nat)> {
    set t | t in s.pc && Blocked(s, t) :: (t, s.owner[s.pc[t].drm])
  }

  ghost predicate CanStep(s: State, t: nat) {
    exists s' :: Step(s, t, s')
  }

  /** A wait on an owner whose hold is visible is two edges of the graph. */
  lemma WaitInRag(s: State, x: nat, y: nat)
    requires Inv(s) && (x, y) in WaitsFor(s) && !HoldHidden(s.pc[y])
    ensures var d := s.pc[x].drm; (Thr(x), Drm(d)) in Settled(s) && (Drm(d), Thr(y)) in Settled(s)
    ensures Joins(Settled(s), [Thr(x), Drm(s.pc[x].drm), Thr(y)], Thr(x), Thr(y))
  {
    var d := s.pc[x].drm;
    assert RequestEdge(s, x, d) && HoldEdge(s, d, y);
    assert (Thr(x), Drm(d)) in s.rag && (Drm(d), Thr(y)) in s.rag;
  }

  lemma {:induction false} WaitPathInRag(s: State, p: seq<nat>, x: nat, y: nat)
    requires Inv(s) && Joins(WaitsFor(s), p, x, y) && y in s.pc && !HoldHidden(s.pc[y])
    ensures Reaches(Settled(s), Thr(x), Thr(y))
  {
    if |p| == 1 {
      ReachesSelf(Settled(s), Thr(x));
    } else {
      FirstStep(WaitsFor(s), p, x, y);
      assert p[1] == y || (p[1], p[2]) in WaitsFor(s);
      WaitInRag(s, x, p[1]);
      WaitPathInRag(s, p[1..], p[1], y);
      ReachesTransitive(Settled(s), Thr(x), Thr(p[1]), Thr(y));
    }
  }

  /** No circular wait among the mutexes. */
  lemma NoCircularWait(s: State)
    requires Inv(s)
    ensures Acyclic(WaitsFor(s))
  {
    forall x: nat | OnCycle(WaitsFor(s), x)
      ensures OnCycle(Settled(s), Thr(x))
    {
      OnCycleStep(WaitsFor(s), x);
      var y: nat :| (x, y) in WaitsFor(s) && Reaches(WaitsFor(s), y, x);
      var p :| Joins(WaitsFor(s), p, y, x);
      WaitPathInRag(s, p, y, x);
      assert y == x || (y, p[1]) in WaitsFor(s) by {
        if |p| > 1 {
          assert (p[0], p[1]) in WaitsFor(s);
        }
      }
      WaitInRag(s, x, y);
      var r :| Joins(Settled(s), r, Thr(y), Thr(x));
      JoinPaths(Settled(s), [Thr(x), Drm(s.pc[x].drm), Thr(y)], r, Thr(x), Thr(y), Thr(x));
    }
  }

  /** A thread that is not blocked on a drm can run whenever it need not wait for global_mut. */
  lemma UnblockedCanStep(s: State, t: nat)
    requires Inv(s) && t in s.pc && !Blocked(s, t) && (s.global == None || s.global == Some(t))
    ensures CanStep(s, t)
  {
    match s.pc[t]
    case Outside =>
      assert Step(s, t, Goto(s, t, At(PostLockGlobal, 0)));
    case At(at, d) =>
      match at
      case InitLockGlobal => assert Step(s, t, Lock(s, t, At(InitAddVertex, d)));
      case InitAddVertex => assert Step(s, t, Goto(s, t, At(InitUnlockGlobal, d)).(vertices := s.vertices + {Drm(d)}));
      case InitUnlockGlobal => assert Step(s, t, Unlock(s, t, Outside));
      case WaitLockGlobal => assert Step(s, t, Lock(s, t, At(WaitAddRequest, d)));
      case WaitAddRequest =>
        assert Step(s, t, Goto(s, t, At(WaitCheck, d)).(
          vertices := s.vertices + {Thr(t)}, rag := s.rag + {(Thr(t), Drm(d))}));
      case WaitCheck =>
        assert Step(s, t, Goto(s, t, At(if Refused(s.rag, t, d) then WaitWithdraw else WaitUnlockGlobal, d)));
      case WaitWithdraw => assert Step(s, t, Goto(s, t, At(WaitRefuse, d)).(rag := s.rag - {(Thr(t), Drm(d))}));
      case WaitRefuse => assert Step(s, t, Unlock(s, t, Outside));
      case WaitUnlockGlobal => assert Step(s, t, Unlock(s, t, At(WaitLockDrm, d)));
      case WaitLockDrm => assert Step(s, t, Goto(s, t, At(WaitRelockGlobal, d)).(owner := s.owner[d := t]));
      case WaitRelockGlobal => assert Step(s, t, Lock(s, t, At(WaitDropRequest, d)));
      case WaitDropRequest => assert Step(s, t, Goto(s, t, At(WaitAddHold, d)).(rag := s.rag - {(Thr(t), Drm(d))}));
      case WaitAddHold => assert Step(s, t, Goto(s, t, At(WaitGrant, d)).(rag := s.rag + {(Drm(d), Thr(t))}));
      case WaitGrant => assert Step(s, t, Unlock(s, t, Outside));
      case PostLockGlobal => assert Step(s, t, Lock(s, t, At(PostCheck, d)));
      case PostCheck =>
        var holds := Drm(d) in s.vertices && Thr(t) in s.vertices && (Drm(d), Thr(t)) in s.rag;
        assert Step(s, t, Goto(s, t, At(if holds then PostDropHold else PostFail, d)));
      case PostFail => assert Step(s, t, Unlock(s, t, Outside));
      case PostDropHold => assert Step(s, t, Goto(s, t, At(PostUnlockDrm, d)).(rag := s.rag - {(Drm(d), Thr(t))}));
      case PostUnlockDrm => assert Step(s, t, Goto(s, t, At(PostSucceed, d)).(owner := s.owner - {d}));
      case PostSucceed => assert Step(s, t, Unlock(s, t, Outside));
  }

  lemma BlockedWaits(s: State, t: nat)
    requires Locks(s)
    ensures Blocked(s, t) ==> exists w :: (t, w) in WaitsFor(s) && w in s.pc.Keys
  {
    if Blocked(s, t) {
      assert (t, s.owner[s.pc[t].drm]) in WaitsFor(s);
    }
  }

  /** Deadlock freedom: the wait chain of every thread ends at a thread that is not blocked on a drm
      and can step as soon as global_mut is free; and whoever holds global_mut can always step. */
  lemma NoDeadlock(s: State, t: nat) returns (u: nat)
    requires Reachable(s) && t in s.pc
    ensures Reaches(WaitsFor(s), t, u) && u in s.pc && !Blocked(s, u)
    ensures s.global == None ==> CanStep(s, u)
    ensures s.global.Some? ==> CanStep(s, s.global.value)
  {
    var run :| IsRun(run) && run[|run| - 1] == s;
    RunKeepsInv(run);
    NoCircularWait(s);
    u := LeafInside(WaitsFor(s), s.pc.Keys, [t]);
    BlockedWaits(s, u);
    if s.global == None {
      UnblockedCanStep(s, u);
    } else {
      UnblockedCanStep(s, s.global.value);
    }
  }

  /** At the check of t, following the graph from a drm to t is following owners that are really blocked. */
  lemma {:induction false} RagPathIsWaitChain(s: State, t: nat, p: seq<Vertex>, d: nat)
    requires Inv(s) && s.global == Some(t) && Joins(s.rag, p, Drm(d), Thr(t))
    ensures d in s.owner && Reaches(WaitsFor(s), s.owner[d], t)
    decreases |p|
  {
    FirstStep(s.rag, p, Drm(d), Thr(t));
    var v := p[1].t;
    assert (Drm(d), Thr(v)) in s.rag && HoldEdge(s, d, v);
    if v == t {
      ReachesSelf(WaitsFor(s), t);
    } else {
      FirstStep(s.rag, p[1..], Thr(v), Thr(t));
      var x := p[2].d;
      assert (Thr(v), Drm(x)) in s.rag && RequestEdge(s, v, x);
      assert p[1..][1..] == p[2..];
      RagPathIsWaitChain(s, t, p[2..], x);
      FirstStep(s.rag, p[2..], Drm(x), Thr(t));
      assert HoldEdge(s, x, p[3].t);
      assert (v, s.owner[x]) in WaitsFor(s);
      ReachesByEdge(WaitsFor(s), v, s.owner[x]);
      ReachesTransitive(WaitsFor(s), v, s.owner[x], t);
    }
  }

  /** Granting the request of t for d would make t wait, through owners of drms, for itself. */
  ghost predicate WouldDeadlock(s: State, t: nat, d: nat) {
    d in s.owner && Reaches(WaitsFor(s), s.owner[d], t)
  }

  /** drm_wait refuses exactly the requests that would deadlock. */
  lemma RefusesExactlyDeadlocks(s: State, t: nat, d: nat)
    requires Reachable(s) && t in s.pc && s.pc[t] == At(WaitCheck, d)
    ensures Refused(s.rag, t, d) <==> WouldDeadlock(s, t, d)
  {
    var run :| IsRun(run) && run[|run| - 1] == s;
    RunKeepsInv(run);
    EdgesOf(s, t);
    assert (Thr(t), Drm(d)) in s.rag;
    if Refused(s.rag, t, d) {
      RefusedIsOnCycle(s, t, d);
      OnCycleStep(s.rag, Thr(t));
      var v :| (Thr(t), v) in s.rag && Reaches(s.rag, v, Thr(t));
      assert (Thr(t), Drm(v.d)) in s.rag;
      var p :| Joins(s.rag, p, Drm(d), Thr(t));
      RagPathIsWaitChain(s, t, p, d);
    }
    if WouldDeadlock(s, t, d) {
      var y := s.owner[d];
      var p :| Joins(WaitsFor(s), p, y, t);
      assert y == t || (p[0], p[1]) in WaitsFor(s);
      assert HoldEdge(s, d, y);
      assert (Drm(d), Thr(y)) in s.rag;
      WaitPathInRag(s, p, y, t);
      SubgraphPath(Settled(s), s.rag, Thr(y), Thr(t));
      ReachesByEdge(s.rag, Drm(d), Thr(y));
      ReachesTransitive(s.rag, Drm(d), Thr(y), Thr(t));
      OnCycleStep(s.rag, Thr(t));
      OnCycleReachesCycle(s.rag, Thr(t));
    }
  }

  /** The only cycle the check can meet is one closed by the request itself. */
  lemma RefusedIsOnCycle(s: State, t: nat, d: nat)
    requires Inv(s) && t in s.pc && s.pc[t] == At(WaitCheck, d) && Refused(s.rag, t, d)
    ensures OnCycle(s.rag, Thr(t))
  {
    SettledDuringCheck(s, t, d);
    if (Drm(d), Thr(t)) in s.rag {
      ReachesByEdge(s.rag, Drm(d), Thr(t));
      assert (Thr(t), Drm(d)) in s.rag;
      OnCycleStep(s.rag, Thr(t));
    } else {
      var w :| Reaches(s.rag, Thr(t), w) && OnCycle(s.rag, w);
      NewCycleUsesNewEdge(Settled(s), Thr(t), Drm(d), w);
    }
  }

  /** drm_wait returns 1 only to the owner of the mutex, whose hold is then in the graph. */
  lemma GrantOwns(s: State, t: nat, d: nat)
    requires Reachable(s) && t in s.pc && s.pc[t] == At(WaitGrant, d)
    ensures d in s.owner && s.owner[d] == t && (Drm(d), Thr(t)) in s.rag
  {
    var run :| IsRun(run) && run[|run| - 1] == s;
    RunKeepsInv(run);
    EdgesOf(s, t);
  }

  /** drm_post unlocks exactly when the caller owns the mutex. */
  lemma PostUnlocksOwnedOnly(s: State, t: nat, d: nat, s': State)
    requires Reachable(s) && t in s.pc && s.pc[t] == At(PostCheck, d) && Step(s, t, s')
    ensures s'.pc[t] == At(PostDropHold, d) <==> d in s.owner && s.owner[d] == t
  {
    var run :| IsRun(run) && run[|run| - 1] == s;
    RunKeepsInv(run);
    EdgesOf(s, t);
  }

  /** While t is inside its critical section nobody else touches the graph. */
  lemma CriticalSectionOwnsRag(s: State, t: nat, u: nat, s': State)
    requires Locks(s) && s.global == Some(t) && u != t && Step(s, u, s')
    ensures s'.rag == s.rag && s'.pc[t] == s.pc[t]
  {
    assert u in s.pc && !InCritical(s.pc[u]);
  }

  /** The statements of a drm_wait that is about to refuse, all under global_mut. */
  predicate Refusing(pc: Pc, d: nat) {
    pc.At? && pc.drm == d &&
    (pc.stmt.WaitAddRequest? || pc.stmt.WaitCheck? || pc.stmt.WaitWithdraw? || pc.stmt.WaitRefuse?)
  }

  /** What the graph is at such a statement, given what it was when the call locked global_mut. */
  function DuringRefusal(base: Rag, pc: Pc, t: nat, d: nat): Rag {
    if Unchecked(pc) then base + {(Thr(t), Drm(d))} else base
  }

  lemma RefusalStep(base: Rag, s: State, u: nat, s': State, t: nat, d: nat)
    requires Locks(s) && Step(s, u, s') && t in s.pc && t in s'.pc
    requires Refusing(s.pc[t], d) && Refusing(s'.pc[t], d)
    requires (Thr(t), Drm(d)) !in base && s.rag == DuringRefusal(base, s.pc[t], t, d)
    ensures s'.rag == DuringRefusal(base, s'.pc[t], t, d)
  {
    if u != t {
      CriticalSectionOwnsRag(s, t, u, s');
    } else {
      assert RequestStep(s, t, s.pc[t].stmt, d, s');
    }
  }

  lemma RequestNotYetInRag(run: seq<State>, i: nat, t: nat, d: nat)
    requires IsRun(run) && i < |run| && t in run[i].pc && run[i].pc[t] == At(WaitAddRequest, d)
    ensures (Thr(t), Drm(d)) !in run[i].rag
  {
    RunPrefix(run, i);
    EdgesOf(run[i], t);
  }

  lemma RefusalStepInRun(base: Rag, run: seq<State>, i: nat, t: nat, d: nat)
    requires IsRun(run) && i < |run| - 1 && t in run[i].pc && t in run[i + 1].pc
    requires Refusing(run[i].pc[t], d) && Refusing(run[i + 1].pc[t], d)
    requires (Thr(t), Drm(d)) !in base && run[i].rag == DuringRefusal(base, run[i].pc[t], t, d)
    ensures run[i + 1].rag == DuringRefusal(base, run[i + 1].pc[t], t, d)
  {
    RunPrefix(run, i);
    assert Next(run[i], run[i + 1]);
    var u :| Step(run[i], u, run[i + 1]);
    RefusalStep(base, run[i], u, run[i + 1], t, d);
  }

  /** Between adding its request and refusing, a call leaves exactly the edges it found. */
  lemma {:induction false} RefusalRestoresRag(run: seq<State>, i: nat, j: nat, t: nat, d: nat)
    requires IsRun(run) && i <= j < |run|
    requires t in run[i].pc && run[i].pc[t] == At(WaitAddRequest, d)
    requires forall k | i <= k <= j :: t in run[k].pc && Refusing(run[k].pc[t], d)
    ensures run[j].rag == DuringRefusal(run[i].rag, run[j].pc[t], t, d)
    ensures run[j].pc[t] == At(WaitRefuse, d) ==> run[j].rag == run[i].rag
    decreases j
  {
    hide IsRun, Refusing;
    if i < j {
      RefusalRestoresRag(run, i, j - 1, t, d);
      RequestNotYetInRag(run, i, t, d);
      RefusalStepInRun(run[i].rag, run, j - 1, t, d);
    }
  }

  lemma RunPrefix(run: seq<State>, i: nat)
    requires IsRun(run) && i < |run|
    ensures Reachable(run[i]) && Inv(run[i])
  {
    var prefix := run[..i + 1];
    forall k | 0 <= k < |prefix| - 1
      ensures Next(prefix[k], prefix[k + 1])
    {
      assert Next(run[k], run[k + 1]);
    }
    assert IsRun(prefix) && prefix[|prefix| - 1] == run[i];
    RunKeepsInv(prefix);
  }
}
