/** Every step of the mutex library keeps the invariant; the safety theorems follow. */
module DrmInvariant {
  import opened Graphs
  import opened Options
  import opened DrmProtocol

  lemma InitHolds(s: State)
    requires Init(s)
    ensures Inv(s)
  {
    forall v
      ensures !OnCycle(Settled(s), v)
    {
      OnCycleStep(Settled(s), v);
    }
  }

  /** How a step of t in a call on d may change the owners: not at all, or by locking or unlocking d. */
  ghost predicate OwnersMove(s: State, t: nat, d: nat, s': State) {
    || s'.owner == s.owner
    || (d !in s.owner && s'.owner == s.owner[d := t])
    || (d in s.owner && s.owner[d] == t && s'.owner == s.owner - {d})
  }

  /** The other threads stay where they are, and t respects the lock discipline. */
  ghost predicate LocksMove(s: State, t: nat, d: nat, pc: Pc, s': State) {
    && t in s.pc && s'.pc == s.pc[t := pc]
    && OwnersMove(s, t, d, s')
    && s'.global == (if InCritical(pc) then Some(t) else if s.global == Some(t) then None else s.global)
    && (InCritical(pc) ==> s.global == None || s.global == Some(t))
    && (MustOwn(pc) ==> pc.drm in s'.owner && s'.owner[pc.drm] == t)
  }

  lemma LocksAfterMove(s: State, t: nat, d: nat, pc: Pc, s': State)
    requires Locks(s) && LocksMove(s, t, d, pc, s')
    ensures Locks(s')
  {
  }

  ghost predicate EdgeMove(rag: Rag, t: nat, d: nat, rag': Rag) {
    || rag' == rag
    || rag' == rag + {(Thr(t), Drm(d))} || rag' == rag - {(Thr(t), Drm(d))}
    || rag' == rag + {(Drm(d), Thr(t))} || rag' == rag - {(Drm(d), Thr(t))}
  }

  /** The graph changes only between t and d, where it ends up exact, and vertices are never removed. */
  ghost predicate RagMove(s: State, t: nat, d: nat, pc: Pc, s': State) {
    && s.vertices <= s'.vertices
    && EdgeMove(s.rag, t, d, s'.rag)
    && (s'.rag != s.rag ==> {Thr(t), Drm(d)} <= s'.vertices)
    && (Waiting(pc) ==> Drm(pc.drm) in s'.vertices)
    && (Registered(pc) ==> Thr(t) in s'.vertices)
    && (forall x :: (Thr(t), Drm(x)) in s'.rag <==> Requesting(pc) && pc.drm == x)
    && (forall x :: (Drm(x), Thr(t)) in s'.rag <==>
         x in s'.owner && s'.owner[x] == t && !(HoldHidden(pc) && pc.drm == x))
  }

  lemma RagAfterMove(s: State, t: nat, d: nat, pc: Pc, s': State)
    requires Locks(s) && RagExact(s) && LocksMove(s, t, d, pc, s') && RagMove(s, t, d, pc, s')
    ensures RagExact(s')
  {
    forall u, x
      ensures (Thr(u), Drm(x)) in s'.rag <==> RequestEdge(s', u, x)
    {
      if u != t {
        assert (Thr(u), Drm(x)) in s.rag <==> RequestEdge(s, u, x);
      }
    }
    forall u, x
      ensures (Drm(x), Thr(u)) in s'.rag <==> HoldEdge(s', x, u)
    {
      if u != t {
        assert (Drm(x), Thr(u)) in s.rag <==> HoldEdge(s, x, u);
      }
    }
  }

  lemma CallMoves(s: State, t: nat, d: nat, s': State)
    requires Locks(s) && RagExact(s) && t in s.pc && s.pc[t].Outside? && Call(s, t, s')
    ensures LocksMove(s, t, d, s'.pc[t], s') && RagMove(s, t, d, s'.pc[t], s')
  {
    EdgesOf(s, t);
  }

  lemma EdgesOf(s: State, t: nat)
    requires RagExact(s) && t in s.pc
    ensures forall d :: (Thr(t), Drm(d)) in s.rag <==> Requesting(s.pc[t]) && s.pc[t].drm == d
    ensures forall d :: (Drm(d), Thr(t)) in s.rag <==>
        d in s.owner && s.owner[d] == t && !(HoldHidden(s.pc[t]) && s.pc[t].drm == d)
    ensures forall d | (Thr(t), Drm(d)) in s.rag || (Drm(d), Thr(t)) in s.rag :: Thr(t) in s.vertices && Drm(d) in s.vertices
    ensures Waiting(s.pc[t]) ==> Drm(s.pc[t].drm) in s.vertices
    ensures Registered(s.pc[t]) ==> Thr(t) in s.vertices
  {
    assert forall d :: (Thr(t), Drm(d)) in s.rag <==> RequestEdge(s, t, d);
    assert forall d :: (Drm(d), Thr(t)) in s.rag <==> HoldEdge(s, d, t);
  }

  lemma InitMoves(s: State, t: nat, at: Stmt, d: nat, s': State)
    requires Locks(s) && RagExact(s) && t in s.pc && s.pc[t] == At(at, d) && InitStep(s, t, at, d, s')
    ensures LocksMove(s, t, d, s'.pc[t], s') && RagMove(s, t, d, s'.pc[t], s')
  {
    EdgesOf(s, t);
  }

  lemma RequestKeepsLocks(s: State, t: nat, at: Stmt, d: nat, s': State)
    requires Locks(s) && RagExact(s) && t in s.pc && s.pc[t] == At(at, d) && RequestStep(s, t, at, d, s')
    ensures LocksMove(s, t, d, s'.pc[t], s')
  {
    EdgesOf(s, t);
  }

  lemma RequestMovesRag(s: State, t: nat, at: Stmt, d: nat, s': State)
    requires Locks(s) && RagExact(s) && t in s.pc && s.pc[t] == At(at, d) && RequestStep(s, t, at, d, s')
    ensures RagMove(s, t, d, s'.pc[t], s')
  {
    EdgesOf(s, t);
    hide RagExact;
  }

  lemma AcquireKeepsLocks(s: State, t: nat, at: Stmt, d: nat, s': State)
    requires Locks(s) && RagExact(s) && t in s.pc && s.pc[t] == At(at, d) && AcquireStep(s, t, at, d, s')
    ensures LocksMove(s, t, d, s'.pc[t], s')
  {
    EdgesOf(s, t);
  }

  lemma AcquireMovesRag(s: State, t: nat, at: Stmt, d: nat, s': State)
    requires Locks(s) && RagExact(s) && t in s.pc && s.pc[t] == At(at, d) && AcquireStep(s, t, at, d, s')
    requires at != WaitLockDrm && at != WaitAddHold
    ensures RagMove(s, t, d, s'.pc[t], s')
  {
    EdgesOf(s, t);
    hide RagExact;
  }

  lemma LockDrmMovesRag(s: State, t: nat, d: nat, s': State)
    requires Locks(s) && RagExact(s) && t in s.pc && s.pc[t] == At(WaitLockDrm, d) && AcquireStep(s, t, WaitLockDrm, d, s')
    ensures RagMove(s, t, d, s'.pc[t], s')
  {
    EdgesOf(s, t);
    hide RagExact;
  }

  lemma AddHoldMovesRag(s: State, t: nat, d: nat, s': State)
    requires Locks(s) && RagExact(s) && t in s.pc && s.pc[t] == At(WaitAddHold, d) && AcquireStep(s, t, WaitAddHold, d, s')
    ensures RagMove(s, t, d, s'.pc[t], s')
  {
    EdgesOf(s, t);
    hide RagExact;
  }

  lemma PostKeepsLocks(s: State, t: nat, at: Stmt, d: nat, s': State)
    requires Locks(s) && RagExact(s) && t in s.pc && s.pc[t] == At(at, d) && PostStep(s, t, at, d, s')
    ensures LocksMove(s, t, d, s'.pc[t], s')
  {
    EdgesOf(s, t);
  }

  lemma PostMovesRag(s: State, t: nat, at: Stmt, d: nat, s': State)
    requires Locks(s) && RagExact(s) && t in s.pc && s.pc[t] == At(at, d) && PostStep(s, t, at, d, s')
    ensures RagMove(s, t, d, s'.pc[t], s')
  {
    EdgesOf(s, t);
    hide RagExact;
  }

  lemma StepMoves(s: State, t: nat, s': State) returns (d: nat)
    requires Locks(s) && RagExact(s) && Step(s, t, s')
    ensures t in s'.pc && LocksMove(s, t, d, s'.pc[t], s') && RagMove(s, t, d, s'.pc[t], s')
  {
    match s.pc[t]
    case Outside =>
      d := 0;
      CallMoves(s, t, d, s');
    case At(at, x) =>
      d := x;
      if InitStep(s, t, at, d, s') {
        InitMoves(s, t, at, d, s');
      } else if RequestStep(s, t, at, d, s') {
        RequestKeepsLocks(s, t, at, d, s');
        RequestMovesRag(s, t, at, d, s');
      } else if AcquireStep(s, t, at, d, s') {
        AcquireKeepsLocks(s, t, at, d, s');
        if at == WaitLockDrm {
          LockDrmMovesRag(s, t, d, s');
        } else if at == WaitAddHold {
          AddHoldMovesRag(s, t, d, s');
        } else {
          AcquireMovesRag(s, t, at, d, s');
        }
      } else {
        PostKeepsLocks(s, t, at, d, s');
        PostMovesRag(s, t, at, d, s');
      }
  }

  /** While t runs its check, the settled graph is everything but its own request. */
  lemma SettledDuringCheck(s: State, t: nat, d: nat)
    requires Locks(s) && RagExact(s) && t in s.pc && s.pc[t] == At(WaitCheck, d)
    ensures s.rag == Settled(s) + {(Thr(t), Drm(d))}
  {
    EdgesOf(s, t);
    forall e | e in s.rag
      ensures e in Settled(s) + {(Thr(t), Drm(d))}
    {
      if e.0 == Thr(t) {
        assert e.1 == Drm(e.1.d);
      }
    }
    assert (Thr(t), Drm(d)) in s.rag;
  }

  /** drm_wait adds a hold edge between two vertices that have no successors at that moment. */
  lemma HoldEndsAreSinks(s: State, t: nat, d: nat)
    requires Locks(s) && RagExact(s) && t in s.pc && s.pc[t] == At(WaitAddHold, d)
    ensures Sink(s.rag, Thr(t)) && Sink(s.rag, Drm(d))
  {
    EdgesOf(s, t);
    forall v
      ensures (Thr(t), v) !in s.rag && (Drm(d), v) !in s.rag
    {
      if v.Drm? {
        assert (Thr(t), Drm(v.d)) !in s.rag;
      } else {
        assert (Drm(d), Thr(v.t)) in s.rag <==> HoldEdge(s, d, v.t);
      }
    }
  }

  lemma AcyclicKeptByCheck(s: State, t: nat, d: nat, s': State)
    requires Inv(s) && t in s.pc && s.pc[t] == At(WaitCheck, d) && RequestStep(s, t, WaitCheck, d, s')
    ensures Acyclic(Settled(s'))
  {
    SettledDuringCheck(s, t, d);
    if Refused(s.rag, t, d) {
      assert Settled(s') == Settled(s);
    } else {
      assert Settled(s') <= s.rag;
      if OnCycle(s.rag, Thr(t)) {
        OnCycleReachesCycle(s.rag, Thr(t));
        assert false;
      }
      AddEdgeKeepsAcyclic(Settled(s), Thr(t), Drm(d));
      SubgraphAcyclic(Settled(s'), s.rag);
    }
  }

  lemma AcyclicKeptByHold(s: State, t: nat, d: nat, s': State)
    requires Inv(s) && t in s.pc && s.pc[t] == At(WaitAddHold, d) && AcquireStep(s, t, WaitAddHold, d, s')
    ensures Acyclic(Settled(s'))
  {
    HoldEndsAreSinks(s, t, d);
    EdgeToSinkKeepsAcyclic(Settled(s), Drm(d), Thr(t));
    SubgraphAcyclic(Settled(s'), Settled(s) + {(Drm(d), Thr(t))});
  }

  lemma RagShrinks(s: State, t: nat, s': State)
    requires Step(s, t, s') && (s.pc[t].At? ==> s.pc[t].stmt != WaitAddRequest && s.pc[t].stmt != WaitAddHold)
    ensures s'.rag <= s.rag && s'.pc == s.pc[t := s'.pc[t]]
    ensures Unchecked(s.pc[t]) ==> s.pc[t].stmt == WaitCheck || s'.rag == s.rag - {(Thr(t), Drm(s.pc[t].drm))}
  {
  }

  /** All other steps leave the settled graph alone or take an edge out of it. */
  lemma SettledShrinks(s: State, t: nat, s': State)
    requires Locks(s) && RagExact(s) && Step(s, t, s')
    requires s.pc[t].At? ==> s.pc[t].stmt != WaitCheck && s.pc[t].stmt != WaitAddHold
    ensures Settled(s') <= Settled(s)
  {
    EdgesOf(s, t);
    if s.pc[t].At? && s.pc[t].stmt == WaitAddRequest {
      assert RequestStep(s, t, WaitAddRequest, s.pc[t].drm, s');
    } else {
      RagShrinks(s, t, s');
      forall e | e in Settled(s')
        ensures e in Settled(s)
      {
        if e.0 == Thr(t) && Unchecked(s.pc[t]) {
          assert (Thr(t), Drm(e.1.d)) in s.rag;
        }
      }
    }
  }

  /** Every step keeps the invariant. */
  lemma InvKept(s: State, t: nat, s': State)
    requires Inv(s) && Step(s, t, s')
    ensures Inv(s')
  {
    var d := StepMoves(s, t, s');
    LocksAfterMove(s, t, d, s'.pc[t], s');
    RagAfterMove(s, t, d, s'.pc[t], s');
    if s.pc[t].At? && s.pc[t].stmt == WaitCheck {
      AcyclicKeptByCheck(s, t, s.pc[t].drm, s');
    } else if s.pc[t].At? && s.pc[t].stmt == WaitAddHold {
      AcyclicKeptByHold(s, t, s.pc[t].drm, s');
    } else {
      SettledShrinks(s, t, s');
      SubgraphAcyclic(Settled(s'), Settled(s));
    }
  }

  lemma {:induction false} RunKeepsInv(run: seq<State>)
    requires IsRun(run)
    ensures Inv(run[|run| - 1])
  {
    if |run| == 1 {
      InitHolds(run[0]);
    } else {
      var before := run[..|run| - 1];
      forall i | 0 <= i < |before| - 1
        ensures Next(before[i], before[i + 1])
      {
        assert Next(run[i], run[i + 1]);
      }
      RunKeepsInv(before);
      assert Next(run[|run| - 2], run[|run| - 1]);
      var t :| Step(run[|run| - 2], t, run[|run| - 1]);
      InvKept(run[|run| - 2], t, run[|run| - 1]);
    }
  }

  /** In every reachable state; out-degree is bounded even while global_mut is held. */
  lemma RagIsFunctional(s: State)
    requires RagExact(s)
    ensures OutDegreeAtMostOne(s.rag)
  {
    forall a, b, c | (a, b) in s.rag && (a, c) in s.rag
      ensures b == c
    {
      if a.Thr? {
        assert RequestEdge(s, a.t, b.d) && RequestEdge(s, a.t, c.d);
      } else {
        assert HoldEdge(s, a.d, b.t) && HoldEdge(s, a.d, c.t);
      }
    }
  }

  /** Whenever global_mut is free the graph is acyclic with out-degree at most one. */
  lemma RagSafeWhenUnlocked(s: State)
    requires Reachable(s)
    ensures OutDegreeAtMostOne(s.rag)
    ensures s.global == None ==> Acyclic(s.rag)
  {
    var run :| IsRun(run) && run[|run| - 1] == s;
    RunKeepsInv(run);
    RagIsFunctional(s);
    if s.global == None {
      assert s.rag == Settled(s);
    }
  }
}
