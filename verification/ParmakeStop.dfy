/** The stop mark: when it is queued, and what the worker still deals with after that. */
module ParmakeStop {
  import opened ParmakeGraph
  import opened ParmakeQueue
  import opened Sequences

  /** The first moment at which the count equals the number of valid goals: after k rules, or at once without goals. */
  ghost predicate MetAt(goals: set<Name>, upToDate: set<Name>, order: seq<Name>, k: nat) {
    && k <= |order|
    && (if goals == {} then k == 0 else k > 0 && Count(goals, upToDate, RanSet(order[..k])) == |goals|)
    && forall j | 0 < j < k :: Count(goals, upToDate, RanSet(order[..j])) != |goals|
  }

  ghost predicate NeverMet(goals: set<Name>, upToDate: set<Name>, order: seq<Name>) {
    goals != {} && forall j | 0 < j <= |order| :: Count(goals, upToDate, RanSet(order[..j])) != |goals|
  }

  ghost function ReadySet(deps: Deps, loaded: States, done: set<Name>): set<Name> {
    set v | v in deps && Ready(deps, loaded, done, v)
  }

  /** What has been dealt with at the end, if the count was met after k rules: these, and the rules that were ready then
      and so stood in the queue before the mark. */
  ghost function Final(deps: Deps, loaded: States, order: seq<Name>, k: nat): set<Name>
    requires k <= |order|
  {
    if k == 0 then {} else RanSet(order[..k]) + ReadySet(deps, loaded, RanSet(order[..k]))
  }

  ghost predicate AheadAt(queue: seq<Task>, v: Name, i: nat) {
    i < |queue| && queue[i] == Run(v) && forall j | 0 <= j < i :: queue[j].Run?
  }

  /** The rule stands in the queue before any stop mark. */
  ghost predicate Ahead(queue: seq<Task>, v: Name) {
    exists i: nat :: AheadAt(queue, v, i)
  }

  lemma AheadOfLast(rest: seq<Task>, v: Name)
    requires Stop !in rest
    ensures Ahead(rest + [Stop], v) <==> Run(v) in rest
  {
    if Run(v) in rest {
      var i :| 0 <= i < |rest| && rest[i] == Run(v);
      assert AheadAt(rest + [Stop], v, i);
    }
  }

  lemma AheadNext(rest: seq<Task>, r: Name, v: Name, i: nat)
    ensures AheadAt([Run(r)] + rest, v, i + 1) <==> AheadAt(rest, v, i)
  {
    var queue := [Run(r)] + rest;
    if AheadAt(queue, v, i + 1) {
      assert forall j | 0 <= j < i :: rest[j] == queue[j + 1];
    }
  }

  lemma AheadOfHead(rest: seq<Task>, r: Name, v: Name)
    ensures Ahead([Run(r)] + rest, v) <==> v == r || Ahead(rest, v)
  {
    var queue := [Run(r)] + rest;
    assert AheadAt(queue, v, 0) <==> v == r;
    hide AheadAt;
    if i: nat :| AheadAt(queue, v, i) && i > 0 {
      AheadNext(rest, r, v, i - 1);
    }
    if i: nat :| AheadAt(rest, v, i) {
      AheadNext(rest, r, v, i);
    }
  }

  lemma AheadStays(rest: seq<Task>, more: seq<Task>, v: Name)
    requires Stop in rest
    ensures Ahead(rest + more, v) <==> Ahead(rest, v)
    ensures Ahead(rest, v) ==> Run(v) in rest
  {
    var queue := rest + more;
    var s :| 0 <= s < |rest| && rest[s] == Stop;
    assert queue[s] == Stop;
    forall i: nat
      ensures AheadAt(queue, v, i) <==> AheadAt(rest, v, i)
    {
      if AheadAt(queue, v, i) {
        assert i < s;
        assert forall j | 0 <= j < i :: rest[j] == queue[j];
      }
    }
  }

  datatype Progress = Going | Ending(k: nat)

  /** Before the count is met there is no mark in the queue; afterwards there is, and before it stands exactly what is
      still to be dealt with. */
  ghost predicate OnTrack(deps: Deps, loaded: States, goals: set<Name>, upToDate: set<Name>, order: seq<Name>, queue: seq<Task>, p: Progress) {
    match p
    case Going => NeverMet(goals, upToDate, order) && Stop !in queue
    case Ending(k) =>
      && MetAt(goals, upToDate, order, k) && Stop in queue
      && RanSet(order) <= Final(deps, loaded, order, k)
      && forall v :: Ahead(queue, v) <==> v in Final(deps, loaded, order, k) && v !in RanSet(order)
  }

  lemma PrefixStays(order: seq<Name>, r: Name, j: nat)
    requires j <= |order|
    ensures (order + [r])[..j] == order[..j]
  {
  }

  lemma MeetsAtEnd(goals: set<Name>, upToDate: set<Name>, order: seq<Name>, r: Name)
    requires NeverMet(goals, upToDate, order) && Count(goals, upToDate, RanSet(order + [r])) == |goals|
    ensures MetAt(goals, upToDate, order + [r], |order| + 1)
  {
    var order', k := order + [r], |order| + 1;
    assert order'[..k] == order';
    hide Count, RanSet;
    forall j | 0 < j < k
      ensures Count(goals, upToDate, RanSet(order'[..j])) != |goals|
    {
      PrefixStays(order, r, j);
    }
  }

  lemma FinalAtEnd(deps: Deps, loaded: States, order: seq<Name>, rest: seq<Task>)
    requires order != [] && QueueExact(deps, loaded, rest, RanSet(order))
    ensures RanSet(order) <= Final(deps, loaded, order, |order|)
    ensures forall v :: Run(v) in rest <==> v in Final(deps, loaded, order, |order|) && v !in RanSet(order)
  {
    assert order[..|order|] == order;
    hide RanSet;
    forall v
      ensures Run(v) in rest <==> v in ReadySet(deps, loaded, RanSet(order))
    {
      assert Run(v) in rest <==> Ready(deps, loaded, RanSet(order), v);
    }
  }

  lemma MeetsNow(deps: Deps, loaded: States, goals: set<Name>, upToDate: set<Name>, order: seq<Name>, rest: seq<Task>, r: Name)
    requires NeverMet(goals, upToDate, order) && Stop !in rest
    requires QueueExact(deps, loaded, rest, RanSet(order + [r])) && Count(goals, upToDate, RanSet(order + [r])) == |goals|
    ensures OnTrack(deps, loaded, goals, upToDate, order + [r], rest + [Stop], Ending(|order| + 1))
  {
    MeetsAtEnd(goals, upToDate, order, r);
    FinalAtEnd(deps, loaded, order + [r], rest);
    hide MetAt, NeverMet, QueueExact, Count, RanSet, Final, Ahead;
    forall v
      ensures Ahead(rest + [Stop], v) <==> Run(v) in rest
    {
      AheadOfLast(rest, v);
    }
  }

  lemma HeadGone(rest: seq<Task>, r: Name)
    requires forall i, j | 0 <= i < j < |[Run(r)] + rest| && ([Run(r)] + rest)[i].Run? :: ([Run(r)] + rest)[i] != ([Run(r)] + rest)[j]
    ensures Run(r) !in rest
  {
    var queue := [Run(r)] + rest;
    forall j | 0 <= j < |rest|
      ensures rest[j] != Run(r)
    {
      assert queue[j + 1] == rest[j] && queue[0] != queue[j + 1];
    }
  }

  lemma MetStays(goals: set<Name>, upToDate: set<Name>, order: seq<Name>, r: Name, k: nat)
    requires MetAt(goals, upToDate, order, k)
    ensures MetAt(goals, upToDate, order + [r], k)
  {
    hide Count, RanSet;
    PrefixStays(order, r, k);
    forall j | 0 < j < k
      ensures Count(goals, upToDate, RanSet((order + [r])[..j])) != |goals|
    {
      PrefixStays(order, r, j);
    }
  }

  lemma EndingGoesOn(deps: Deps, loaded: States, goals: set<Name>, upToDate: set<Name>, order: seq<Name>, rest: seq<Task>, more: seq<Task>,
                     r: Name, k: nat)
    requires OnTrack(deps, loaded, goals, upToDate, order, [Run(r)] + rest, Ending(k))
    requires QueueExact(deps, loaded, [Run(r)] + rest, RanSet(order)) && r !in order
    ensures OnTrack(deps, loaded, goals, upToDate, order + [r], rest + more, Ending(k))
  {
    HeadGone(rest, r);
    hide QueueExact, MetAt, Final, Ahead, RanSet, Count;
    MetStays(goals, upToDate, order, r, k);
    FinalStays(deps, loaded, order, r, k);
    RanSetNext(order, r);
    assert Stop in rest && Stop in rest + more;
    AheadOfHead(rest, r, r);
    forall v
      ensures Ahead(rest + more, v) <==> Ahead([Run(r)] + rest, v) && v != r
    {
      AheadOfHead(rest, r, v);
      AheadStays(rest, more, v);
    }
  }

  lemma RanSetNext(order: seq<Name>, r: Name)
    ensures RanSet(order + [r]) == RanSet(order) + {r}
  {
  }

  lemma FinalStays(deps: Deps, loaded: States, order: seq<Name>, r: Name, k: nat)
    requires k <= |order|
    ensures Final(deps, loaded, order + [r], k) == Final(deps, loaded, order, k)
  {
    PrefixStays(order, r, k);
  }

  lemma NotYetMet(goals: set<Name>, upToDate: set<Name>, order: seq<Name>, r: Name)
    requires NeverMet(goals, upToDate, order) && Count(goals, upToDate, RanSet(order + [r])) != |goals|
    ensures NeverMet(goals, upToDate, order + [r])
  {
    hide Count, RanSet;
    var order' := order + [r];
    forall j | 0 < j <= |order'|
      ensures Count(goals, upToDate, RanSet(order'[..j])) != |goals|
    {
      if j <= |order| {
        PrefixStays(order, r, j);
      } else {
        assert order'[..j] == order';
      }
    }
  }

  /** One rule taken from the queue and dealt with. */
  lemma OnTrackAfterRun(deps: Deps, loaded: States, goals: set<Name>, upToDate: set<Name>, order: seq<Name>, rest: seq<Task>, added: seq<Task>,
                        r: Name, p: Progress) returns (p': Progress)
    requires OnTrack(deps, loaded, goals, upToDate, order, [Run(r)] + rest, p) && r !in order && Stop !in added
    requires QueueExact(deps, loaded, [Run(r)] + rest, RanSet(order)) && QueueExact(deps, loaded, rest + added, RanSet(order + [r]))
    ensures var mark := if Count(goals, upToDate, RanSet(order + [r])) == |goals| then [Stop] else [];
      OnTrack(deps, loaded, goals, upToDate, order + [r], rest + added + mark, p')
  {
    hide QueueExact, MetAt, NeverMet, Count, RanSet, Final, Ahead;
    var mark := if Count(goals, upToDate, RanSet(order + [r])) == |goals| then [Stop] else [];
    p' := p;
    match p
    case Ending(k) =>
      EndingGoesOn(deps, loaded, goals, upToDate, order, rest, added + mark, r, k);
      assert rest + (added + mark) == rest + added + mark;
    case Going =>
      assert Stop !in rest + added;
      if mark == [Stop] {
        MeetsNow(deps, loaded, goals, upToDate, order, rest + added, r);
        p' := Ending(|order| + 1);
      } else {
        NotYetMet(goals, upToDate, order, r);
        assert rest + added + [] == rest + added;
      }
  }

  /** How the worker's run ends: at the stop mark, or pulling from an empty queue for ever. */
  datatype Outcome = Stopped | WaitsForever

  /** The worker stops exactly if the count was met, and has then dealt with exactly what was ready by that moment. */
  ghost predicate EndsAs(deps: Deps, loaded: States, goals: set<Name>, upToDate: set<Name>, order: seq<Name>, outcome: Outcome) {
    match outcome
    case Stopped => exists k: nat :: MetAt(goals, upToDate, order, k) && RanSet(order) == Final(deps, loaded, order, k)
    case WaitsForever => NeverMet(goals, upToDate, order) && goals <= RanSet(order) && ReadySet(deps, loaded, RanSet(order)) == {}
  }

  lemma StopsAsItShould(deps: Deps, loaded: States, goals: set<Name>, upToDate: set<Name>, order: seq<Name>, queue: seq<Task>, p: Progress)
    requires OnTrack(deps, loaded, goals, upToDate, order, queue, p) && queue != [] && queue[0] == Stop
    ensures EndsAs(deps, loaded, goals, upToDate, order, Stopped)
  {
    assert p.Ending? && p.k <= |order|;
    hide MetAt, NeverMet, Count, Final, RanSet;
    var final := Final(deps, loaded, order, p.k);
    forall v | v in final
      ensures v in RanSet(order)
    {
      assert !Ahead(queue, v);
    }
    assert RanSet(order) == final;
  }

  lemma WaitsAsItShould(deps: Deps, needs: set<(Name, Name)>, cyclic: set<Name>, goals: set<Name>, upToDate: set<Name>, loaded: States,
                        w: Snapshot, p: Progress)
    requires Facts(deps, needs, cyclic) && Explored(deps, cyclic, loaded, {})
    requires Working(deps, cyclic, goals, upToDate, loaded, w) && w.queue == []
    requires OnTrack(deps, loaded, goals, upToDate, w.order, w.queue, p)
    requires forall g | g in goals :: g in deps && g !in cyclic && loaded[g] != Default
    ensures EndsAs(deps, loaded, goals, upToDate, w.order, WaitsForever)
  {
    StillWork(deps, needs, cyclic, goals, upToDate, loaded, w);
    forall v
      ensures !Ready(deps, loaded, RanSet(w.order), v)
    {
      assert Run(v) !in w.queue;
    }
  }

  lemma CountOutdated(goals: set<Name>, upToDate: set<Name>, done: set<Name>)
    requires upToDate !! done
    ensures Count(goals, upToDate, done) == |goals| <==> goals <= done
  {
    assert upToDate * done == {};
    FullSubset(goals, done);
  }

  lemma NeverMetAtEnd(goals: set<Name>, upToDate: set<Name>, order: seq<Name>)
    requires NeverMet(goals, upToDate, order)
    ensures order != [] ==> Count(goals, upToDate, RanSet(order)) != |goals|
  {
    assert order[..|order|] == order;
  }

  /** If none of the rules dealt with is up to date, the worker stops, and all valid goals have been dealt with. */
  lemma OutdatedGoalsRun(deps: Deps, loaded: States, goals: set<Name>, upToDate: set<Name>, order: seq<Name>, outcome: Outcome)
    requires EndsAs(deps, loaded, goals, upToDate, order, outcome) && upToDate !! RanSet(order)
    ensures outcome == Stopped && goals <= RanSet(order)
  {
    match outcome
    case Stopped =>
      var k: nat :| MetAt(goals, upToDate, order, k) && RanSet(order) == Final(deps, loaded, order, k);
      if k > 0 {
        assert RanSet(order[..k]) <= RanSet(order);
        CountOutdated(goals, upToDate, RanSet(order[..k]));
      }
    case WaitsForever =>
      CountOutdated(goals, upToDate, RanSet(order));
      NeverMetAtEnd(goals, upToDate, order);
  }

  lemma {:induction false} AllOutdated(order: seq<Name>, upToDate: set<Name>)
    requires upToDate !! RanSet(order)
    ensures Outdated(order, upToDate) == order
  {
    if order != [] {
      var before, last := order[..|order| - 1], order[|order| - 1];
      assert order == before + [last];
      assert last in RanSet(order) && RanSet(before) <= RanSet(order);
      AllOutdated(before, upToDate);
    }
  }

  lemma SameMoment(goals: set<Name>, upToDate: set<Name>, order: seq<Name>, k: nat, j: nat)
    requires MetAt(goals, upToDate, order, k) && MetAt(goals, upToDate, order, j)
    ensures k == j
  {
  }

  /** Reading EndsAs: the worker stops exactly if the count was met at some moment, and it has dealt with all valid goals
      exactly if each of them had been dealt with or was ready by then. */
  lemma WhenItStops(deps: Deps, loaded: States, goals: set<Name>, upToDate: set<Name>, order: seq<Name>, outcome: Outcome)
    requires EndsAs(deps, loaded, goals, upToDate, order, outcome)
    ensures outcome == Stopped <==> exists k: nat :: MetAt(goals, upToDate, order, k)
    ensures goals <= RanSet(order) <==> forall k: nat | MetAt(goals, upToDate, order, k) :: goals <= Final(deps, loaded, order, k)
  {
    forall k: nat, j: nat | MetAt(goals, upToDate, order, k) && MetAt(goals, upToDate, order, j)
      ensures k == j
    {
      SameMoment(goals, upToDate, order, k, j);
    }
  }
}
