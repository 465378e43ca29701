/** contains_cycle on any graph, without the bound on the out-degree that the mutex library keeps: when it returns. */
module DrmSearch {
  import opened DrmLibrary
  import opened DrmProtocol
  import opened Graphs
  import opened Options

  datatype Outcome = Running | Cycle | NoCycle

  /** The neighbours of each vertex in the order in which the graph library lists them. */
  type Lists = map<Vertex, seq<Vertex>>

  function Successors(g: Lists, v: Vertex): seq<Vertex> {
    if v in g then g[v] else []
  }

  function Seen(visited: Option<set<Vertex>>): set<Vertex> {
    if visited.Some? then visited.value else {}
  }

  /** contains_cycle for any graph, cut off after `fuel` nested calls. */
  function Search(g: Lists, visited: Option<set<Vertex>>, node: Vertex, fuel: nat): Outcome
    decreases fuel, 0
  {
    if fuel == 0 then Running
    else if node in Seen(visited) then Cycle
    else SearchAll(g, Some(Seen(visited) + {node}), Successors(g, node), fuel - 1)
  }

  /** The loop over the neighbours; whatever the first call returned, it left `visited` empty. */
  function SearchAll(g: Lists, visited: Option<set<Vertex>>, nodes: seq<Vertex>, fuel: nat): Outcome
    decreases fuel, |nodes|
  {
    if nodes == [] then NoCycle
    else
      var first := Search(g, visited, nodes[0], fuel);
      if first.NoCycle? then SearchAll(g, None, nodes[1..], fuel) else first
  }

  /** The lists name exactly the edges of the graph. */
  ghost predicate ListsEdges(g: Lists, rag: Rag) {
    && (forall v, w :: (v, w) in rag <==> v in g && w in g[v])
    && forall v, i, j | v in g && 0 <= i < j < |g[v]| :: g[v][i] != g[v][j]
  }

  /** Where no vertex has two successors this search returns what contains_cycle returns, after finitely many calls. */
  lemma {:induction false} SearchAgrees(g: Lists, vertices: set<Vertex>, rag: Rag, visited: Option<set<Vertex>>,
                                        node: Vertex, trail: seq<Vertex>) returns (fuel: nat)
    requires ListsEdges(g, rag) && OutDegreeAtMostOne(rag) && Closed(vertices, rag) && node in vertices
    requires IsPath(rag, trail) && trail[|trail| - 1] == node
    requires Seen(visited) <= vertices && forall v :: v in Seen(visited) <==> v in trail[..|trail| - 1]
    ensures Search(g, visited, node, fuel) == if ReachesCycle(rag, node) then Cycle else NoCycle
    decreases vertices - Seen(visited)
  {
    var seen := Seen(visited);
    if node in seen {
      RevisitMeansCycle(rag, trail);
      fuel := 1;
    } else {
      ReachesCycleStep(rag, node);
      if node in g && g[node] != [] {
        var next := g[node][0];
        var last := g[node][|g[node]| - 1];
        assert (node, next) in rag && (node, last) in rag && next == last;
        assert g[node] == [next] && g[node][1..] == [];
        var inner := SearchAgrees(g, vertices, rag, Some(seen + {node}), next, trail + [next]);
        assert [next][1..] == [];
        assert SearchAll(g, None, [], inner) == NoCycle;
        assert SearchAll(g, Some(seen + {node}), [next], inner) == Search(g, Some(seen + {node}), next, inner);
        fuel := inner + 1;
      } else {
        fuel := 1;
      }
    }
  }

  // Exactly when the search returns.

  function EdgesOf(g: Lists): Rag {
    set v, w | v in g && w in g[v] :: (v, w)
  }

  ghost predicate LeadsToCycle(g: Lists, v: Vertex) {
    ReachesCycle(EdgesOf(g), v)
  }

  lemma LeadsByStep(g: Lists, v: Vertex)
    ensures LeadsToCycle(g, v) <==> exists i :: 0 <= i < |Successors(g, v)| && LeadsToCycle(g, Successors(g, v)[i])
  {
    ReachesCycleStep(EdgesOf(g), v);
    if w :| (v, w) in EdgesOf(g) && LeadsToCycle(g, w) {
      var i :| 0 <= i < |g[v]| && g[v][i] == w;
      assert Successors(g, v)[i] == w;
    }
    if i :| 0 <= i < |Successors(g, v)| && LeadsToCycle(g, Successors(g, v)[i]) {
      assert (v, Successors(g, v)[i]) in EdgesOf(g);
    }
  }

  /** Where the first successor stands that leads to a cycle. */
  ghost function FirstLeading(g: Lists, nodes: seq<Vertex>): (i: nat)
    requires exists k :: 0 <= k < |nodes| && LeadsToCycle(g, nodes[k])
    ensures i < |nodes| && LeadsToCycle(g, nodes[i]) && forall k | 0 <= k < i :: !LeadsToCycle(g, nodes[k])
  {
    if LeadsToCycle(g, nodes[0]) then 0
    else
      assert exists k :: 0 <= k < |nodes[1..]| && LeadsToCycle(g, nodes[1..][k]) by {
        var k :| 0 <= k < |nodes| && LeadsToCycle(g, nodes[k]);
        assert nodes[1..][k - 1] == nodes[k];
      }
      1 + FirstLeading(g, nodes[1..])
  }

  ghost function Choice(g: Lists, v: Vertex): (i: nat)
    requires LeadsToCycle(g, v)
    ensures i < |Successors(g, v)| && LeadsToCycle(g, Successors(g, v)[i])
    ensures forall k | 0 <= k < i :: !LeadsToCycle(g, Successors(g, v)[k])
  {
    LeadsByStep(g, v);
    FirstLeading(g, Successors(g, v))
  }

  /** Always take the first successor that leads to a cycle. */
  ghost function Walk(g: Lists, v: Vertex, k: nat): (w: Vertex)
    requires LeadsToCycle(g, v)
    ensures LeadsToCycle(g, w)
    decreases k
  {
    if k == 0 then v else Walk(g, Successors(g, v)[Choice(g, v)], k - 1)
  }

  /** From here to there the walk uses only first edges. */
  ghost predicate FirstEdges(g: Lists, v: Vertex, from: nat, to: nat)
    requires LeadsToCycle(g, v)
  {
    forall k | from <= k < to :: Choice(g, Walk(g, v, k)) == 0
  }

  /** The loop that the walk runs into uses only first edges. */
  ghost predicate LoopsOnFirstEdges(g: Lists, v: Vertex)
    requires LeadsToCycle(g, v)
  {
    exists i: nat, j: nat :: i < j && Walk(g, v, i) == Walk(g, v, j) && FirstEdges(g, v, i, j)
  }

  // Vertices that lead to no cycle.

  /** Nothing visited can be met from here. */
  ghost predicate Unseen(g: Lists, seen: set<Vertex>, v: Vertex) {
    forall s | s in seen :: !Reaches(EdgesOf(g), v, s)
  }

  lemma UnseenBelow(g: Lists, seen: set<Vertex>, v: Vertex, i: nat)
    requires !LeadsToCycle(g, v) && i < |Successors(g, v)|
    ensures var w := Successors(g, v)[i];
      && !LeadsToCycle(g, w) && !Reaches(EdgesOf(g), w, v)
      && (Unseen(g, seen, v) ==> Unseen(g, seen + {v}, w))
      && forall x | Reaches(EdgesOf(g), w, x) :: Reaches(EdgesOf(g), v, x)
  {
    var e, w := EdgesOf(g), Successors(g, v)[i];
    assert (v, w) in e;
    LeadsByStep(g, v);
    if Reaches(e, w, v) {
      OnCycleStep(e, v);
      OnCycleReachesCycle(e, v);
    }
    forall x | Reaches(e, w, x)
      ensures Reaches(e, v, x)
    {
      ReachesByEdge(e, v, w);
      ReachesTransitive(e, v, w, x);
    }
  }

  lemma SeenLeads(g: Lists, seen: set<Vertex>, v: Vertex)
    requires !LeadsToCycle(g, v) && forall s | s in seen :: LeadsToCycle(g, s)
    ensures Unseen(g, seen, v)
  {
    forall s | s in seen
      ensures !Reaches(EdgesOf(g), v, s)
    {
      if Reaches(EdgesOf(g), v, s) {
        ReachesCycleBackwards(EdgesOf(g), v, s);
      }
    }
  }

  ghost predicate AllQuiet(g: Lists, seen: set<Vertex>, nodes: seq<Vertex>) {
    forall k | 0 <= k < |nodes| :: !LeadsToCycle(g, nodes[k]) && Unseen(g, seen, nodes[k])
  }

  lemma {:induction false} QuietNeverCycle(g: Lists, visited: Option<set<Vertex>>, v: Vertex, fuel: nat)
    requires !LeadsToCycle(g, v) && Unseen(g, Seen(visited), v)
    ensures Search(g, visited, v, fuel) != Cycle
    decreases fuel, 0
  {
    ReachesSelf(EdgesOf(g), v);
    if fuel > 0 {
      forall k | 0 <= k < |Successors(g, v)|
        ensures !LeadsToCycle(g, Successors(g, v)[k]) && Unseen(g, Seen(visited) + {v}, Successors(g, v)[k])
      {
        UnseenBelow(g, Seen(visited), v, k);
      }
      QuietNeverCycles(g, Some(Seen(visited) + {v}), Successors(g, v), fuel - 1);
    }
  }

  lemma {:induction false} QuietNeverCycles(g: Lists, visited: Option<set<Vertex>>, nodes: seq<Vertex>, fuel: nat)
    requires AllQuiet(g, Seen(visited), nodes)
    ensures SearchAll(g, visited, nodes, fuel) != Cycle
    decreases fuel, |nodes| + 1
  {
    if nodes != [] {
      QuietNeverCycle(g, visited, nodes[0], fuel);
      QuietNeverCycles(g, None, nodes[1..], fuel);
    }
  }

  ghost function Below(g: Lists, v: Vertex): set<Vertex> {
    set w | w in g && Reaches(EdgesOf(g), v, w)
  }

  /** With enough nested calls the search finds no cycle where there is none. */
  lemma {:induction false} QuietReturns(g: Lists, visited: Option<set<Vertex>>, v: Vertex) returns (enough: nat)
    requires !LeadsToCycle(g, v) && Unseen(g, Seen(visited), v)
    ensures forall fuel | fuel >= enough :: Search(g, visited, v, fuel) == NoCycle
    decreases Below(g, v), 1, 0
  {
    ReachesSelf(EdgesOf(g), v);
    forall k | 0 <= k < |Successors(g, v)|
      ensures !LeadsToCycle(g, Successors(g, v)[k]) && Unseen(g, Seen(visited) + {v}, Successors(g, v)[k])
      ensures Below(g, Successors(g, v)[k]) < Below(g, v)
    {
      UnseenBelow(g, Seen(visited), v, k);
      assert v in Below(g, v) && v !in Below(g, Successors(g, v)[k]);
    }
    var inner := QuietAllReturn(g, Some(Seen(visited) + {v}), Successors(g, v), v);
    enough := inner + 1;
  }

  lemma {:induction false} QuietAllReturn(g: Lists, visited: Option<set<Vertex>>, nodes: seq<Vertex>, v: Vertex) returns (enough: nat)
    requires AllQuiet(g, Seen(visited), nodes) && forall k | 0 <= k < |nodes| :: Below(g, nodes[k]) < Below(g, v)
    ensures forall fuel | fuel >= enough :: SearchAll(g, visited, nodes, fuel) == NoCycle
    decreases Below(g, v), 0, |nodes|
  {
    enough := 0;
    if nodes != [] {
      var first := QuietReturns(g, visited, nodes[0]);
      var rest := QuietAllReturn(g, None, nodes[1..], v);
      enough := if first < rest then rest else first;
    }
  }

  // Vertices that lead to a cycle.

  lemma {:induction false} LeadingNeverNoCycle(g: Lists, visited: Option<set<Vertex>>, v: Vertex, fuel: nat)
    requires LeadsToCycle(g, v)
    ensures Search(g, visited, v, fuel) != NoCycle
    decreases fuel, 0
  {
    if fuel > 0 {
      LeadingAmong(g, Some(Seen(visited) + {v}), Successors(g, v), Choice(g, v), fuel - 1);
    }
  }

  lemma {:induction false} LeadingAmong(g: Lists, visited: Option<set<Vertex>>, nodes: seq<Vertex>, i: nat, fuel: nat)
    requires i < |nodes| && LeadsToCycle(g, nodes[i])
    ensures SearchAll(g, visited, nodes, fuel) != NoCycle
    decreases fuel, |nodes| + 1
  {
    if i == 0 {
      LeadingNeverNoCycle(g, visited, nodes[0], fuel);
    } else {
      assert nodes[1..][i - 1] == nodes[i];
      LeadingAmong(g, None, nodes[1..], i - 1, fuel);
    }
  }

  /** What is visited when the walk goes on: all so far if it takes the first edge, and nothing otherwise. */
  function Passed(visited: Option<set<Vertex>>, i: nat): Option<set<Vertex>> {
    if i == 0 then visited else None
  }

  /** The loop over the neighbours comes to the same as the call for the first one that leads to a cycle, or does not
      return before it. */
  lemma {:induction false} SkipQuiet(g: Lists, visited: Option<set<Vertex>>, nodes: seq<Vertex>, i: nat, fuel: nat)
    requires i < |nodes| && LeadsToCycle(g, nodes[i]) && AllQuiet(g, Seen(visited), nodes[..i])
    ensures SearchAll(g, visited, nodes, fuel) == Running || SearchAll(g, visited, nodes, fuel) == Search(g, Passed(visited, i), nodes[i], fuel)
    decreases i
  {
    if i == 0 {
      LeadingNeverNoCycle(g, visited, nodes[0], fuel);
    } else {
      assert nodes[..i][0] == nodes[0];
      QuietNeverCycle(g, visited, nodes[0], fuel);
      assert nodes[1..][..i - 1] == nodes[..i][1..];
      SkipQuiet(g, None, nodes[1..], i - 1, fuel);
    }
  }

  lemma {:induction false} SkipQuietReturns(g: Lists, visited: Option<set<Vertex>>, nodes: seq<Vertex>, i: nat) returns (enough: nat)
    requires i < |nodes| && LeadsToCycle(g, nodes[i]) && AllQuiet(g, Seen(visited), nodes[..i])
    ensures forall fuel | fuel >= enough :: SearchAll(g, visited, nodes, fuel) == Search(g, Passed(visited, i), nodes[i], fuel)
    decreases i
  {
    if i == 0 {
      enough := 0;
      forall fuel: nat
        ensures SearchAll(g, visited, nodes, fuel) == Search(g, visited, nodes[0], fuel)
      {
        LeadingNeverNoCycle(g, visited, nodes[0], fuel);
      }
    } else {
      assert nodes[..i][0] == nodes[0];
      var first := QuietReturns(g, visited, nodes[0]);
      assert nodes[1..][..i - 1] == nodes[..i][1..];
      var rest := SkipQuietReturns(g, None, nodes[1..], i - 1);
      enough := if first < rest then rest else first;
    }
  }

  lemma QuietBefore(g: Lists, seen: set<Vertex>, v: Vertex)
    requires LeadsToCycle(g, v) && forall s | s in seen :: LeadsToCycle(g, s)
    ensures AllQuiet(g, seen + {v}, Successors(g, v)[..Choice(g, v)])
  {
    forall k | 0 <= k < Choice(g, v)
      ensures Unseen(g, seen + {v}, Successors(g, v)[k])
    {
      SeenLeads(g, seen + {v}, Successors(g, v)[k]);
    }
  }

  /** The walk comes back to a visited vertex by first edges only: the cycle is found. */
  lemma {:induction false} MeetsSeen(g: Lists, visited: Option<set<Vertex>>, v: Vertex, j: nat) returns (enough: nat)
    requires LeadsToCycle(g, v) && forall s | s in Seen(visited) :: LeadsToCycle(g, s)
    requires Walk(g, v, j) in Seen(visited) && FirstEdges(g, v, 0, j)
    ensures forall fuel | fuel >= enough :: Search(g, visited, v, fuel) == Cycle
    decreases j
  {
    enough := 1;
    if v !in Seen(visited) {
      FirstEdgesNext(g, v, j);
      var inner := MeetsSeen(g, Some(Seen(visited) + {v}), Onward(g, v), j - 1);
      enough := StepReturns(g, visited, v, inner);
    }
  }

  ghost function Onward(g: Lists, v: Vertex): (w: Vertex)
    requires LeadsToCycle(g, v)
    ensures LeadsToCycle(g, w) && forall k: nat | k > 0 :: Walk(g, v, k) == Walk(g, w, k - 1)
  {
    Successors(g, v)[Choice(g, v)]
  }

  lemma FirstEdgesNext(g: Lists, v: Vertex, j: nat)
    requires LeadsToCycle(g, v) && FirstEdges(g, v, 0, j) && j > 0
    ensures Choice(g, v) == 0 && FirstEdges(g, Onward(g, v), 0, j - 1)
  {
    assert Choice(g, Walk(g, v, 0)) == 0;
    forall k | 0 <= k < j - 1
      ensures Choice(g, Walk(g, Onward(g, v), k)) == 0
    {
      assert Choice(g, Walk(g, v, k + 1)) == 0;
    }
  }

  lemma FirstEdgesLater(g: Lists, v: Vertex, i: nat, j: nat)
    requires LeadsToCycle(g, v)
    ensures FirstEdges(g, v, i + 1, j + 1) <==> FirstEdges(g, Onward(g, v), i, j)
  {
    if FirstEdges(g, v, i + 1, j + 1) {
      forall k | i <= k < j
        ensures Choice(g, Walk(g, Onward(g, v), k)) == 0
      {
        assert Choice(g, Walk(g, v, k + 1)) == 0;
      }
    }
    if FirstEdges(g, Onward(g, v), i, j) {
      forall k | i + 1 <= k < j + 1
        ensures Choice(g, Walk(g, v, k)) == 0
      {
        assert Choice(g, Walk(g, Onward(g, v), k - 1)) == 0;
      }
    }
  }

  /** One call for a vertex that leads to a cycle and has not been visited. */
  lemma StepReturns(g: Lists, visited: Option<set<Vertex>>, v: Vertex, inner: nat) returns (enough: nat)
    requires LeadsToCycle(g, v) && v !in Seen(visited) && forall s | s in Seen(visited) :: LeadsToCycle(g, s)
    requires forall fuel | fuel >= inner :: Search(g, Passed(Some(Seen(visited) + {v}), Choice(g, v)), Onward(g, v), fuel) == Cycle
    ensures forall fuel | fuel >= enough :: Search(g, visited, v, fuel) == Cycle
  {
    QuietBefore(g, Seen(visited), v);
    var skip := SkipQuietReturns(g, Some(Seen(visited) + {v}), Successors(g, v), Choice(g, v));
    enough := if skip < inner then inner + 1 else skip + 1;
    assert Onward(g, v) == Successors(g, v)[Choice(g, v)];
    hide LeadsToCycle, AllQuiet;
    forall fuel | fuel >= enough
      ensures Search(g, visited, v, fuel) == Cycle
    {
      assert Search(g, Passed(Some(Seen(visited) + {v}), Choice(g, v)), Onward(g, v), fuel - 1) == Cycle;
      assert SearchAll(g, Some(Seen(visited) + {v}), Successors(g, v), fuel - 1) == Cycle;
    }
  }

  /** The loop uses only first edges: wherever the walk starts, the cycle is found. */
  lemma {:induction false} FirstEdgesReturn(g: Lists, visited: Option<set<Vertex>>, v: Vertex, i: nat, j: nat) returns (enough: nat)
    requires LeadsToCycle(g, v) && forall s | s in Seen(visited) :: LeadsToCycle(g, s)
    requires i < j && Walk(g, v, i) == Walk(g, v, j) && FirstEdges(g, v, i, j)
    ensures forall fuel | fuel >= enough :: Search(g, visited, v, fuel) == Cycle
    decreases i
  {
    hide LeadsToCycle, Search;
    if v in Seen(visited) {
      enough := MeetsSeen(g, visited, v, 0);
    } else {
      var visited' := Passed(Some(Seen(visited) + {v}), Choice(g, v));
      var inner: nat;
      if i == 0 {
        FirstEdgesNext(g, v, j);
        inner := MeetsSeen(g, visited', Onward(g, v), j - 1);
      } else {
        FirstEdgesLater(g, v, i - 1, j - 1);
        inner := FirstEdgesReturn(g, visited', Onward(g, v), i - 1, j - 1);
      }
      hide FirstEdges, Walk;
      enough := StepReturns(g, visited, v, inner);
    }
  }

  lemma SameLoop(g: Lists, v: Vertex)
    requires LeadsToCycle(g, v)
    ensures LoopsOnFirstEdges(g, Onward(g, v)) ==> LoopsOnFirstEdges(g, v)
  {
    if LoopsOnFirstEdges(g, Onward(g, v)) {
      var i: nat, j: nat :| i < j && Walk(g, Onward(g, v), i) == Walk(g, Onward(g, v), j) && FirstEdges(g, Onward(g, v), i, j);
      FirstEdgesLater(g, v, i, j);
      assert Walk(g, v, i + 1) == Walk(g, v, j + 1);
    }
  }

  /** The walk meets no visited vertex by first edges only. */
  ghost predicate MeetsNone(g: Lists, seen: set<Vertex>, v: Vertex)
    requires LeadsToCycle(g, v)
  {
    forall j: nat | FirstEdges(g, v, 0, j) :: Walk(g, v, j) !in seen
  }

  lemma MeetsNoneNext(g: Lists, seen: set<Vertex>, v: Vertex)
    requires LeadsToCycle(g, v) && MeetsNone(g, seen, v) && !LoopsOnFirstEdges(g, v)
    ensures v !in seen && !LoopsOnFirstEdges(g, Onward(g, v))
    ensures Choice(g, v) == 0 ==> MeetsNone(g, seen + {v}, Onward(g, v))
  {
    assert FirstEdges(g, v, 0, 0) && Walk(g, v, 0) == v;
    SameLoop(g, v);
    if Choice(g, v) == 0 {
      forall j: nat | FirstEdges(g, Onward(g, v), 0, j)
        ensures Walk(g, Onward(g, v), j) !in seen + {v}
      {
        FirstEdgesLater(g, v, 0, j);
        assert FirstEdges(g, v, 0, j + 1);
        assert Walk(g, v, j + 1) == Walk(g, Onward(g, v), j);
        assert Walk(g, v, j + 1) != Walk(g, v, 0);
      }
    }
  }

  /** The loop uses another edge: `visited` is cleared on every round, and the search never returns. */
  lemma {:induction false} OtherEdgeNeverReturns(g: Lists, visited: Option<set<Vertex>>, v: Vertex, fuel: nat)
    requires LeadsToCycle(g, v) && (forall s | s in Seen(visited) :: LeadsToCycle(g, s))
    requires MeetsNone(g, Seen(visited), v) && !LoopsOnFirstEdges(g, v)
    ensures Search(g, visited, v, fuel) == Running
    decreases fuel
  {
    if fuel > 0 {
      MeetsNoneNext(g, Seen(visited), v);
      var visited' := Passed(Some(Seen(visited) + {v}), Choice(g, v));
      OtherEdgeNeverReturns(g, visited', Onward(g, v), fuel - 1);
      QuietBefore(g, Seen(visited), v);
      SkipQuiet(g, Some(Seen(visited) + {v}), Successors(g, v), Choice(g, v), fuel - 1);
    }
  }

  /** contains_cycle returns, after finitely many nested calls, if and only if the vertex leads to no cycle, or the loop
      reached by always taking the first successor that leads to a cycle uses only first edges. When it returns, its answer
      is right. */
  lemma ReturnsExactlyIf(g: Lists, v: Vertex)
    ensures (exists fuel :: Search(g, None, v, fuel) != Running) <==> !LeadsToCycle(g, v) || LoopsOnFirstEdges(g, v)
    ensures forall fuel :: Search(g, None, v, fuel) == Cycle ==> LeadsToCycle(g, v)
    ensures forall fuel :: Search(g, None, v, fuel) == NoCycle ==> !LeadsToCycle(g, v)
  {
    if !LeadsToCycle(g, v) {
      var enough := QuietReturns(g, None, v);
      assert Search(g, None, v, enough) != Running;
      forall fuel: nat
        ensures Search(g, None, v, fuel) != Cycle
      {
        QuietNeverCycle(g, None, v, fuel);
      }
    } else {
      forall fuel: nat
        ensures Search(g, None, v, fuel) != NoCycle
      {
        LeadingNeverNoCycle(g, None, v, fuel);
      }
      if LoopsOnFirstEdges(g, v) {
        var i: nat, j: nat :| i < j && Walk(g, v, i) == Walk(g, v, j) && FirstEdges(g, v, i, j);
        var enough := FirstEdgesReturn(g, None, v, i, j);
        assert Search(g, None, v, enough) != Running;
      } else {
        forall fuel: nat
          ensures Search(g, None, v, fuel) == Running
        {
          OtherEdgeNeverReturns(g, None, v, fuel);
        }
      }
    }
  }

  /** A thread with two requests, the second on a drm it holds. */
  const TwoRequests: Lists := map[Thr(0) := [Drm(1), Drm(2)], Drm(2) := [Thr(0)]]

  lemma PastTheDeadEnd(seen: set<Vertex>, fuel: nat)
    requires Drm(1) !in seen && Search(TwoRequests, None, Drm(2), fuel) == Running
    ensures SearchAll(TwoRequests, Some(seen), [Drm(1), Drm(2)], fuel) == Running
  {
    assert [Drm(1), Drm(2)][1..] == [Drm(2)];
    assert SearchAll(TwoRequests, None, [Drm(2)], fuel) == Running;
    if fuel > 0 {
      assert Search(TwoRequests, Some(seen), Drm(1), fuel) == NoCycle;
    }
  }

  lemma {:induction false} SecondRequestLoops(fuel: nat)
    ensures Search(TwoRequests, None, Drm(2), fuel) == Running
  {
    if fuel >= 2 {
      SecondRequestLoops(fuel - 2);
      PastTheDeadEnd({} + {Drm(2)} + {Thr(0)}, fuel - 2);
      assert Search(TwoRequests, Some({} + {Drm(2)}), Thr(0), fuel - 1) == Running;
    }
  }

  /** With two successors the search need not return: the clearing of `visited` hides the cycle. */
  lemma TwoSuccessorsNeverReturn(fuel: nat)
    ensures Search(TwoRequests, None, Thr(0), fuel) == Running
  {
    if fuel >= 1 {
      SecondRequestLoops(fuel - 1);
      PastTheDeadEnd({} + {Thr(0)}, fuel - 1);
    }
  }
}
