/** Paths, reachability and cycles in finite directed graphs given as edge sets. */
module Graphs {

  ghost predicate IsPath<V>(e: set<(V, V)>, p: seq<V>) {
    && |p| >= 1
    && forall i | 0 <= i < |p| - 1 :: (p[i], p[i + 1]) in e
  }

  ghost predicate Joins<V>(e: set<(V, V)>, p: seq<V>, a: V, b: V) {
    IsPath(e, p) && p[0] == a && p[|p| - 1] == b
  }

  ghost predicate Reaches<V(!new)>(e: set<(V, V)>, a: V, b: V) {
    exists p :: Joins(e, p, a, b)
  }

  ghost predicate OnCycle<V(!new)>(e: set<(V, V)>, v: V) {
    exists p :: Joins(e, p, v, v) && |p| >= 2
  }

  ghost predicate Acyclic<V(!new)>(e: set<(V, V)>) {
    forall v :: !OnCycle(e, v)
  }

  ghost predicate ReachesCycle<V(!new)>(e: set<(V, V)>, v: V) {
    exists w :: Reaches(e, v, w) && OnCycle(e, w)
  }

  ghost predicate OutDegreeAtMostOne<V(!new)>(e: set<(V, V)>) {
    forall a, b, c :: (a, b) in e && (a, c) in e ==> b == c
  }

  ghost predicate Sink<V(!new)>(e: set<(V, V)>, v: V) {
    forall w :: (v, w) !in e
  }

  lemma ReachesSelf<V(!new)>(e: set<(V, V)>, v: V)
    ensures Reaches(e, v, v)
  {
    assert Joins(e, [v], v, v);
  }

  lemma ReachesByEdge<V(!new)>(e: set<(V, V)>, a: V, b: V)
    requires (a, b) in e
    ensures Reaches(e, a, b)
  {
    assert Joins(e, [a, b], a, b);
  }

  lemma JoinPaths<V(!new)>(e: set<(V, V)>, p: seq<V>, q: seq<V>, a: V, b: V, c: V)
    requires Joins(e, p, a, b) && Joins(e, q, b, c)
    ensures Joins(e, p + q[1..], a, c)
  {
    var r := p + q[1..];
    forall i | 0 <= i < |r| - 1
      ensures (r[i], r[i + 1]) in e
    {
      if i < |p| - 1 {
        assert (p[i], p[i + 1]) in e;
      } else {
        assert (q[i - |p| + 1], q[i - |p| + 2]) in e;
      }
    }
  }

  lemma ReachesTransitive<V(!new)>(e: set<(V, V)>, a: V, b: V, c: V)
    requires Reaches(e, a, b) && Reaches(e, b, c)
    ensures Reaches(e, a, c)
  {
    var p :| Joins(e, p, a, b);
    var q :| Joins(e, q, b, c);
    JoinPaths(e, p, q, a, b, c);
  }

  lemma FirstStep<V(!new)>(e: set<(V, V)>, p: seq<V>, a: V, b: V)
    requires Joins(e, p, a, b) && |p| >= 2
    ensures (a, p[1]) in e && Joins(e, p[1..], p[1], b)
  {
    assert (p[0], p[1]) in e;
    forall i | 0 <= i < |p[1..]| - 1
      ensures (p[1..][i], p[1..][i + 1]) in e
    {
      assert (p[i + 1], p[i + 2]) in e;
    }
  }

  /** A vertex lies on a cycle exactly when one of its successors leads back to it. */
  lemma OnCycleStep<V(!new)>(e: set<(V, V)>, v: V)
    ensures OnCycle(e, v) <==> exists w :: (v, w) in e && Reaches(e, w, v)
  {
    if OnCycle(e, v) {
      var p :| Joins(e, p, v, v) && |p| >= 2;
      FirstStep(e, p, v, v);
      assert (v, p[1]) in e && Reaches(e, p[1], v);
    }
    if w :| (v, w) in e && Reaches(e, w, v) {
      var q :| Joins(e, q, w, v);
      assert Joins(e, [v, w], v, w);
      JoinPaths(e, [v, w], q, v, w, v);
    }
  }

  lemma ReachesCycleBackwards<V(!new)>(e: set<(V, V)>, v: V, w: V)
    requires Reaches(e, v, w) && ReachesCycle(e, w)
    ensures ReachesCycle(e, v)
  {
    var c :| Reaches(e, w, c) && OnCycle(e, c);
    ReachesTransitive(e, v, w, c);
  }

  /** A vertex leads to a cycle exactly when one of its successors does. */
  lemma ReachesCycleStep<V(!new)>(e: set<(V, V)>, v: V)
    ensures ReachesCycle(e, v) <==> exists w :: (v, w) in e && ReachesCycle(e, w)
  {
    if ReachesCycle(e, v) {
      var c :| Reaches(e, v, c) && OnCycle(e, c);
      var p :| Joins(e, p, v, c);
      if |p| >= 2 {
        FirstStep(e, p, v, c);
        assert (v, p[1]) in e && Reaches(e, p[1], c);
      } else {
        OnCycleStep(e, v);
        var w :| (v, w) in e && Reaches(e, w, v);
        assert ReachesCycle(e, w);
      }
    }
    if w :| (v, w) in e && ReachesCycle(e, w) {
      ReachesByEdge(e, v, w);
      ReachesCycleBackwards(e, v, w);
    }
  }

  lemma OnCycleReachesCycle<V(!new)>(e: set<(V, V)>, v: V)
    requires OnCycle(e, v)
    ensures ReachesCycle(e, v)
  {
    ReachesSelf(e, v);
  }

  lemma SubgraphPath<V(!new)>(e: set<(V, V)>, f: set<(V, V)>, a: V, b: V)
    requires e <= f && Reaches(e, a, b)
    ensures Reaches(f, a, b)
  {
    var p :| Joins(e, p, a, b);
    assert Joins(f, p, a, b);
  }

  lemma SubgraphCycle<V(!new)>(e: set<(V, V)>, f: set<(V, V)>, v: V)
    requires e <= f && OnCycle(e, v)
    ensures OnCycle(f, v)
  {
    var p :| Joins(e, p, v, v) && |p| >= 2;
    assert Joins(f, p, v, v);
  }

  lemma SubgraphAcyclic<V(!new)>(e: set<(V, V)>, f: set<(V, V)>)
    requires e <= f && Acyclic(f)
    ensures Acyclic(e)
  {
    forall v | OnCycle(e, v)
      ensures OnCycle(f, v)
    {
      SubgraphCycle(e, f, v);
    }
  }

  /** Any cycle that appears when the edge (a, b) is added runs through a. */
  lemma NewCycleUsesNewEdge<V(!new)>(e: set<(V, V)>, a: V, b: V, v: V)
    requires OnCycle(e + {(a, b)}, v) && !OnCycle(e, v)
    ensures OnCycle(e + {(a, b)}, a) && Reaches(e + {(a, b)}, v, a)
  {
    var f := e + {(a, b)};
    var p :| Joins(f, p, v, v) && |p| >= 2;
    if forall i | 0 <= i < |p| - 1 :: (p[i], p[i + 1]) in e {
      assert Joins(e, p, v, v);
      assert false;
    }
    var i :| 0 <= i < |p| - 1 && (p[i], p[i + 1]) !in e;
    assert (p[i], p[i + 1]) in f;
    assert p[i] == a;
    var front, back := p[..i + 1], p[i..];
    assert Joins(f, front, v, a);
    assert Joins(f, back, a, v) by {
      forall k | 0 <= k < |back| - 1
        ensures (back[k], back[k + 1]) in f
      {
        assert (p[i + k], p[i + k + 1]) in f;
      }
    }
    JoinPaths(f, back, front, a, v, a);
  }

  lemma AddEdgeKeepsAcyclic<V(!new)>(e: set<(V, V)>, a: V, b: V)
    requires Acyclic(e) && !OnCycle(e + {(a, b)}, a)
    ensures Acyclic(e + {(a, b)})
  {
    forall v
      ensures !OnCycle(e + {(a, b)}, v)
    {
      if OnCycle(e + {(a, b)}, v) {
        NewCycleUsesNewEdge(e, a, b, v);
      }
    }
  }

  lemma SinkReachesOnlyItself<V(!new)>(e: set<(V, V)>, v: V, w: V)
    requires Reaches(e, v, w)
    ensures v == w || !Sink(e, v)
  {
    var p :| Joins(e, p, v, w);
    if v != w {
      assert (p[0], p[1]) in e;
    }
  }

  /** An edge from a vertex without successors to another such vertex closes no cycle. */
  lemma EdgeToSinkKeepsAcyclic<V(!new)>(e: set<(V, V)>, a: V, b: V)
    requires Acyclic(e) && Sink(e, a) && Sink(e, b) && a != b
    ensures Acyclic(e + {(a, b)})
  {
    var f := e + {(a, b)};
    if OnCycle(f, a) {
      OnCycleStep(f, a);
      var w :| (a, w) in f && Reaches(f, w, a);
      assert w == b;
      SinkReachesOnlyItself(f, b, a);
    }
    AddEdgeKeepsAcyclic(e, a, b);
  }

  lemma RepeatClosesCycle<V(!new)>(e: set<(V, V)>, trail: seq<V>, i: nat, w: V)
    requires IsPath(e, trail) && i < |trail| && trail[i] == w && (trail[|trail| - 1], w) in e
    ensures OnCycle(e, w) && ReachesCycle(e, trail[0])
  {
    var loop := trail[i..] + [w];
    assert Joins(e, loop, w, w) by {
      forall k | 0 <= k < |loop| - 1
        ensures (loop[k], loop[k + 1]) in e
      {
        if k < |loop| - 2 {
          assert (trail[i + k], trail[i + k + 1]) in e;
        }
      }
    }
    assert Joins(e, trail[..i + 1], trail[0], w);
  }

  /** In a finite set of vertices none of which leads to a cycle, some vertex has
      no successor inside the set; moreover one such vertex is reached from any start. */
  lemma {:induction false} LeafInside<V(!new)>(e: set<(V, V)>, s: set<V>, trail: seq<V>) returns (leaf: V)
    requires IsPath(e, trail) && forall i | 0 <= i < |trail| :: trail[i] in s
    requires forall i, j | 0 <= i < j < |trail| :: trail[i] != trail[j]
    requires !ReachesCycle(e, trail[0])
    ensures leaf in s && Reaches(e, trail[0], leaf)
    ensures forall w :: (leaf, w) in e ==> w !in s
    decreases s - set i | 0 <= i < |trail| :: trail[i]
  {
    var last := trail[|trail| - 1];
    assert Joins(e, trail, trail[0], last);
    if w :| (last, w) in e && w in s {
      var longer := trail + [w];
      if i :| 0 <= i < |trail| && trail[i] == w {
        RepeatClosesCycle(e, trail, i, w);
        assert false;
      }
      assert w in s - set i | 0 <= i < |trail| :: trail[i];
      assert w in set i | 0 <= i < |longer| :: longer[i] by { assert longer[|trail|] == w; }
      forall i | 0 <= i < |trail|
        ensures trail[i] in set k | 0 <= k < |longer| :: longer[k]
      {
        assert longer[i] == trail[i];
      }
      leaf := LeafInside(e, s, longer);
    } else {
      leaf := last;
    }
  }
}
