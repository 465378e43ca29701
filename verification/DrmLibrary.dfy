/** The sequential code of the mutex library: the cycle search and the critical sections around it. */
module DrmLibrary {
  import opened Graphs
  import opened Options
  import opened DrmProtocol
  import DrmInvariant
  import DrmTheorems

  ghost predicate Closed(vertices: set<Vertex>, rag: Rag) {
    forall a, b | (a, b) in rag :: a in vertices && b in vertices
  }

  /** Meeting a vertex again on the chain of calls means that a cycle is reachable. */
  lemma RevisitMeansCycle(rag: Rag, trail: seq<Vertex>)
    requires IsPath(rag, trail) && trail[|trail| - 1] in trail[..|trail| - 1]
    ensures ReachesCycle(rag, trail[|trail| - 1])
  {
    var node := trail[|trail| - 1];
    var i :| 0 <= i < |trail| - 1 && trail[i] == node;
    assert Joins(rag, trail[i..], node, node) by {
      forall k | 0 <= k < |trail[i..]| - 1
        ensures (trail[i..][k], trail[i..][k + 1]) in rag
      {
        assert (trail[i + k], trail[i + k + 1]) in rag;
      }
    }
    assert OnCycle(rag, node);
    OnCycleReachesCycle(rag, node);
  }

  /** The globals guarded by global_mut, with the owners of the drm mutexes. */
  class Library {
    var vertices: set<Vertex>
    var rag: Rag
    var visited: Option<set<Vertex>>
    var owner: map<nat, nat>

    constructor ()
      ensures vertices == {} && rag == {} && visited == None && owner == map[]
    {
      vertices, rag, visited, owner := {}, {}, None, map[];
    }

    method InitRegister(d: nat)
      requires Closed(vertices, rag)
      modifies `vertices
      ensures vertices == old(vertices) + {Drm(d)} && Closed(vertices, rag)
    {
      vertices := vertices + {Drm(d)};
    }

    /** The graph library returns each neighbour once; the order is left open. */
    method Neighbors(v: Vertex) returns (ns: seq<Vertex>)
      ensures forall w :: w in ns <==> (v, w) in rag
      ensures forall i, j | 0 <= i < j < |ns| :: ns[i] != ns[j]
    {
      ns := [];
      var rest := set e | e in rag && e.0 == v :: e.1;
      while rest != {}
        invariant forall w :: w in ns || w in rest <==> (v, w) in rag
        invariant forall w | w in ns :: w !in rest
        invariant forall i, j | 0 <= i < j < |ns| :: ns[i] != ns[j]
        decreases rest
      {
        var w :| w in rest;
        ns, rest := ns + [w], rest - {w};
      }
    }

    ghost function Seen(): set<Vertex>
      reads `visited
    {
      if visited.Some? then visited.value else {}
    }

    /** contains_cycle. `trail` is the chain of calls in progress; the set of visited vertices is shared
        with them and cleared by every return, so it is right only because no vertex has two successors. */
    method ContainsCycle(node: Vertex, ghost trail: seq<Vertex>) returns (found: bool)
      requires OutDegreeAtMostOne(rag) && Closed(vertices, rag) && node in vertices
      requires IsPath(rag, trail) && trail[|trail| - 1] == node
      requires Seen() <= vertices && forall v :: v in Seen() <==> v in trail[..|trail| - 1]
      modifies `visited
      ensures visited == None
      ensures found <==> ReachesCycle(rag, node)
      decreases vertices - Seen()
    {
      if visited == None {
        visited := Some({});
      }
      if node in visited.value {
        visited := None;
        RevisitMeansCycle(rag, trail);
        return true;
      } else {
        visited := Some(visited.value + {node});
        ghost var seen := visited.value;
        var neighbors := Neighbors(node);
        ReachesCycleStep(rag, node);
        var i := 0;
        while i < |neighbors|
          invariant 0 <= i <= |neighbors|
          invariant i == 0 ==> visited == Some(seen)
          invariant i > 0 ==> visited == None && !ReachesCycle(rag, neighbors[0])
        {
          assert i == 0 by {
            assert neighbors[0] in neighbors && neighbors[i] in neighbors;
          }
          assert neighbors[0] in neighbors;
          var inner := ContainsCycle(neighbors[i], trail + [neighbors[i]]);
          if inner {
            return true;
          }
          i := i + 1;
        }
      }
      visited := None;
      return false;
    }

    /** The first critical section of drm_wait: 1 (true) to go on and block, 0 (false) to refuse. */
    method WaitRequest(d: nat, t: nat) returns (granted: bool)
      requires visited == None && Drm(d) in vertices && Closed(vertices, rag)
      requires OutDegreeAtMostOne(rag + {(Thr(t), Drm(d))})
      modifies `vertices, `rag, `visited
      ensures vertices == old(vertices) + {Thr(t)} && visited == None
      ensures granted <==> !Refused(old(rag) + {(Thr(t), Drm(d))}, t, d)
      ensures rag == if granted then old(rag) + {(Thr(t), Drm(d))} else old(rag) - {(Thr(t), Drm(d))}
    {
      vertices := vertices + {Thr(t)};
      rag := rag + {(Thr(t), Drm(d))};
      var refused := (Drm(d), Thr(t)) in rag;
      if !refused {
        refused := ContainsCycle(Thr(t), [Thr(t)]);
      }
      if refused {
        rag := rag - {(Thr(t), Drm(d))};
        return false;
      }
      return true;
    }

    /** The second critical section of drm_wait, after the drm's own mutex has been locked: the request becomes
        the hold, the graph keeps its form, and the thread waits for nothing any more. */
    method WaitAcquired(d: nat, t: nat)
      requires Closed(vertices, rag) && OutDegreeAtMostOne(rag) && Acyclic(rag)
      requires (Thr(t), Drm(d)) in rag && Sink(rag, Drm(d))
      modifies `rag
      ensures Closed(vertices, rag) && OutDegreeAtMostOne(rag) && Acyclic(rag)
      ensures Sink(rag, Thr(t)) && (Drm(d), Thr(t)) in rag
      ensures rag == old(rag) - {(Thr(t), Drm(d))} + {(Drm(d), Thr(t))}
    {
      rag := rag - {(Thr(t), Drm(d))};
      SubgraphAcyclic(rag, old(rag));
      EdgeToSinkKeepsAcyclic(rag, Drm(d), Thr(t));
      rag := rag + {(Drm(d), Thr(t))};
    }

    /** drm_post, where the graph shows the hold of t on d exactly if t owns the mutex of d. */
    method Post(d: nat, t: nat) returns (released: bool)
      requires Closed(vertices, rag) && ((Drm(d), Thr(t)) in rag <==> d in owner && owner[d] == t)
      modifies `rag, `owner
      ensures released <==> d in old(owner) && old(owner)[d] == t
      ensures released <==> Drm(d) in vertices && Thr(t) in vertices && (Drm(d), Thr(t)) in old(rag)
      ensures released ==> rag == old(rag) - {(Drm(d), Thr(t))} && owner == old(owner) - {d}
      ensures !released ==> rag == old(rag) && owner == old(owner)
    {
      if Drm(d) !in vertices || Thr(t) !in vertices || (Drm(d), Thr(t)) !in rag {
        return false;
      }
      rag := rag - {(Drm(d), Thr(t))};
      owner := owner - {d};
      return true;
    }
  }

  /** In every run drm_init registers its drm in a graph it can handle, as one of the protocol's steps, which hands no lock
      on and leaves the graph alone. */
  lemma InitSectionSafe(s: State, t: nat, d: nat) returns (s': State)
    requires Reachable(s) && t in s.pc && s.pc[t] == At(InitAddVertex, d)
    ensures Closed(s.vertices, s.rag) && s.global == Some(t)
    ensures Step(s, t, s') && s'.vertices == s.vertices + {Drm(d)} && s'.rag == s.rag && s'.global == Some(t)
    ensures Closed(s'.vertices, s'.rag) && s'.pc[t] == At(InitUnlockGlobal, d)
  {
    var run :| IsRun(run) && run[|run| - 1] == s;
    DrmInvariant.RunKeepsInv(run);
    s' := Goto(s, t, At(InitUnlockGlobal, d)).(vertices := s.vertices + {Drm(d)});
    assert InitStep(s, t, InitAddVertex, d, s');
  }

  /** In every run the second section of drm_wait is entered in a state it can handle, and is two of the protocol's
      steps; after them the thread owns the mutex whose hold the graph shows. */
  lemma AcquiredSectionSafe(s: State, t: nat, d: nat) returns (s1: State, s2: State)
    requires Reachable(s) && t in s.pc && s.pc[t] == At(WaitDropRequest, d)
    ensures Closed(s.vertices, s.rag) && OutDegreeAtMostOne(s.rag) && Acyclic(s.rag)
    ensures (Thr(t), Drm(d)) in s.rag && Sink(s.rag, Drm(d))
    ensures Step(s, t, s1) && Step(s1, t, s2) && s2.vertices == s.vertices
    ensures s2.rag == s.rag - {(Thr(t), Drm(d))} + {(Drm(d), Thr(t))}
    ensures s2.pc[t] == At(WaitGrant, d) && d in s2.owner && s2.owner[d] == t
  {
    var run :| IsRun(run) && run[|run| - 1] == s;
    DrmInvariant.RunKeepsInv(run);
    DrmInvariant.RagIsFunctional(s);
    DrmInvariant.EdgesOf(s, t);
    assert s.rag == Settled(s);
    assert forall x :: !HoldEdge(s, d, x);
    assert Sink(s.rag, Drm(d));
    s1 := Goto(s, t, At(WaitAddHold, d)).(rag := s.rag - {(Thr(t), Drm(d))});
    s2 := Goto(s1, t, At(WaitGrant, d)).(rag := s1.rag + {(Drm(d), Thr(t))});
  }

  /** In every run drm_post tests a graph that shows the caller's hold exactly if the caller owns the mutex. */
  lemma PostSectionSafe(s: State, t: nat, d: nat)
    requires Reachable(s) && t in s.pc && s.pc[t] == At(PostCheck, d)
    ensures Closed(s.vertices, s.rag) && ((Drm(d), Thr(t)) in s.rag <==> d in s.owner && s.owner[d] == t)
  {
    var run :| IsRun(run) && run[|run| - 1] == s;
    DrmInvariant.RunKeepsInv(run);
    assert (Drm(d), Thr(t)) in s.rag <==> HoldEdge(s, d, t);
  }

  lemma RegistersAndKeeps(s: State, t: nat, s': State, d: nat)
    requires Inv(s) && Step(s, t, s')
    ensures s.vertices <= s'.vertices
    ensures s.pc[t] == At(InitAddVertex, d) ==> Drm(d) in s'.vertices
  {
    var e := DrmInvariant.StepMoves(s, t, s');
  }

  /** Over whole runs: once drm_init has passed the registration of a drm, every later state has its vertex, so
      that waiting for it finds what the request section requires. */
  lemma {:induction false} RegisteredForGood(run: seq<State>, i: nat, j: nat, t: nat, d: nat)
    requires IsRun(run) && i < j < |run| && Step(run[i], t, run[i + 1]) && run[i].pc[t] == At(InitAddVertex, d)
    ensures Drm(d) in run[j].vertices
    decreases j
  {
    hide Step, Inv;
    DrmTheorems.RunPrefix(run, j - 1);
    if j == i + 1 {
      RegistersAndKeeps(run[i], t, run[j], d);
    } else {
      RegisteredForGood(run, i, j - 1, t, d);
      assert Next(run[j - 1], run[j]);
      var u :| Step(run[j - 1], u, run[j]);
      RegistersAndKeeps(run[j - 1], u, run[j], d);
    }
  }

  /** In every run of the protocol the request section is entered in a state it can handle. */
  lemma RequestSectionSafe(s: State, t: nat, d: nat)
    requires Reachable(s) && t in s.pc && s.pc[t] == At(WaitAddRequest, d)
    ensures Drm(d) in s.vertices && Closed(s.vertices, s.rag)
    ensures OutDegreeAtMostOne(s.rag + {(Thr(t), Drm(d))})
    ensures s.rag - {(Thr(t), Drm(d))} == s.rag
  {
    var run :| IsRun(run) && run[|run| - 1] == s;
    DrmInvariant.RunKeepsInv(run);
    var s' := Goto(s, t, At(WaitCheck, d)).(vertices := s.vertices + {Thr(t)}, rag := s.rag + {(Thr(t), Drm(d))});
    assert Step(s, t, s');
    DrmInvariant.InvKept(s, t, s');
    DrmInvariant.RagIsFunctional(s');
    DrmInvariant.EdgesOf(s, t);
  }
}
