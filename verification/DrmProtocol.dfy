/**
 * The deadlock-resistant mutex as a step system: any number of threads run drm_init,
 * drm_wait and drm_post, and every step is one statement of the library (a lock
 * operation, a change of the resource allocation graph, or the cycle check).
 */
module DrmProtocol {
  import opened Graphs
  import opened Options

  /** Vertices of the resource allocation graph: thread ids and drms. */
  datatype Vertex = Thr(t: nat) | Drm(d: nat)

  type Rag = set<(Vertex, Vertex)>

  /** The statements of drm_init, drm_wait and drm_post that touch shared state. */
  datatype Stmt =
    | InitLockGlobal | InitAddVertex | InitUnlockGlobal
    | WaitLockGlobal | WaitAddRequest | WaitCheck | WaitWithdraw | WaitRefuse
    | WaitUnlockGlobal | WaitLockDrm | WaitRelockGlobal | WaitDropRequest | WaitAddHold | WaitGrant
    | PostLockGlobal | PostCheck | PostFail | PostDropHold | PostUnlockDrm | PostSucceed

  /** A thread is outside the library or about to execute a statement of a call with argument `drm`. */
  datatype Pc = Outside | At(stmt: Stmt, drm: nat)

  /** `owner` maps a locked drm mutex to the thread that locked it; `drms` are those ever allocated. */
  datatype State = State(
    pc: map<nat, Pc>,
    vertices: set<Vertex>,
    rag: Rag,
    global: Option<nat>,
    owner: map<nat, nat>,
    drms: set<nat>)

  /** The verdict of the check in drm_wait once the request edge is in place. */
  ghost predicate Refused(rag: Rag, t: nat, d: nat) {
    (Drm(d), Thr(t)) in rag || ReachesCycle(rag, Thr(t))
  }

  function Goto(s: State, t: nat, pc: Pc): State {
    s.(pc := s.pc[t := pc])
  }

  function Lock(s: State, t: nat, pc: Pc): State {
    Goto(s, t, pc).(global := Some(t))
  }

  function Unlock(s: State, t: nat, pc: Pc): State {
    Goto(s, t, pc).(global := None)
  }

  ghost predicate Init(s: State) {
    && (forall t | t in s.pc :: s.pc[t] == Outside)
    && s.vertices == {} && s.rag == {} && s.global == None && s.owner == map[] && s.drms == {}
  }

  /** A call may start with any argument, except that drm_wait is given a drm that drm_init registered. */
  ghost predicate Call(s: State, t: nat, s': State) {
    || (exists d :: d !in s.drms && s' == Goto(s, t, At(InitLockGlobal, d)).(drms := s.drms + {d}))
    || (exists d :: Drm(d) in s.vertices && s' == Goto(s, t, At(WaitLockGlobal, d)))
    || (exists d :: s' == Goto(s, t, At(PostLockGlobal, d)))
  }

  ghost predicate InitStep(s: State, t: nat, at: Stmt, d: nat, s': State) {
    match at
    case InitLockGlobal => s.global.None? && s' == Lock(s, t, At(InitAddVertex, d))
    case InitAddVertex => s' == Goto(s, t, At(InitUnlockGlobal, d)).(vertices := s.vertices + {Drm(d)})
    case InitUnlockGlobal => s' == Unlock(s, t, Outside)
    case _ => false
  }

  /** drm_wait up to the point where the request is refused or global_mut is released. */
  ghost predicate RequestStep(s: State, t: nat, at: Stmt, d: nat, s': State) {
    match at
    case WaitLockGlobal => s.global.None? && s' == Lock(s, t, At(WaitAddRequest, d))
    case WaitAddRequest =>
      s' == Goto(s, t, At(WaitCheck, d)).(vertices := s.vertices + {Thr(t)}, rag := s.rag + {(Thr(t), Drm(d))})
    case WaitCheck =>
      s' == Goto(s, t, At(if Refused(s.rag, t, d) then WaitWithdraw else WaitUnlockGlobal, d))
    case WaitWithdraw => s' == Goto(s, t, At(WaitRefuse, d)).(rag := s.rag - {(Thr(t), Drm(d))})
    case WaitRefuse => s' == Unlock(s, t, Outside)
    case WaitUnlockGlobal => s' == Unlock(s, t, At(WaitLockDrm, d))
    case _ => false
  }

  /** drm_wait from blocking on the drm's own mutex to returning 1. */
  ghost predicate AcquireStep(s: State, t: nat, at: Stmt, d: nat, s': State) {
    match at
    case WaitLockDrm => d !in s.owner && s' == Goto(s, t, At(WaitRelockGlobal, d)).(owner := s.owner[d := t])
    case WaitRelockGlobal => s.global.None? && s' == Lock(s, t, At(WaitDropRequest, d))
    case WaitDropRequest => s' == Goto(s, t, At(WaitAddHold, d)).(rag := s.rag - {(Thr(t), Drm(d))})
    case WaitAddHold => s' == Goto(s, t, At(WaitGrant, d)).(rag := s.rag + {(Drm(d), Thr(t))})
    case WaitGrant => s' == Unlock(s, t, Outside)
    case _ => false
  }

  ghost predicate PostStep(s: State, t: nat, at: Stmt, d: nat, s': State) {
    match at
    case PostLockGlobal => s.global.None? && s' == Lock(s, t, At(PostCheck, d))
    case PostCheck =>
      var holds := Drm(d) in s.vertices && Thr(t) in s.vertices && (Drm(d), Thr(t)) in s.rag;
      s' == Goto(s, t, At(if holds then PostDropHold else PostFail, d))
    case PostFail => s' == Unlock(s, t, Outside)
    case PostDropHold => s' == Goto(s, t, At(PostUnlockDrm, d)).(rag := s.rag - {(Drm(d), Thr(t))})
    case PostUnlockDrm => s' == Goto(s, t, At(PostSucceed, d)).(owner := s.owner - {d})
    case PostSucceed => s' == Unlock(s, t, Outside)
    case _ => false
  }

  /** Thread t executes its next statement. */
  ghost predicate Step(s: State, t: nat, s': State) {
    && t in s.pc
    && match s.pc[t]
       case Outside => Call(s, t, s')
       case At(at, d) =>
         || InitStep(s, t, at, d, s') || RequestStep(s, t, at, d, s')
         || AcquireStep(s, t, at, d, s') || PostStep(s, t, at, d, s')
  }

  ghost predicate Next(s: State, s': State) {
    exists t :: Step(s, t, s')
  }

  ghost predicate IsRun(run: seq<State>) {
    && |run| >= 1 && Init(run[0])
    && forall i | 0 <= i < |run| - 1 :: Next(run[i], run[i + 1])
  }

  ghost predicate Reachable(s: State) {
    exists run :: IsRun(run) && run[|run| - 1] == s
  }

  // What holds in every reachable state.

  /** Statements executed while global_mut is held. */
  predicate InCritical(pc: Pc) {
    pc.At? &&
    match pc.stmt
    case InitLockGlobal | WaitLockGlobal | WaitLockDrm | WaitRelockGlobal | PostLockGlobal => false
    case _ => true
  }

  /** The request edge of a thread is in the graph exactly at these statements. */
  predicate Requesting(pc: Pc) {
    pc.At? &&
    match pc.stmt
    case WaitCheck | WaitWithdraw | WaitUnlockGlobal | WaitLockDrm | WaitRelockGlobal | WaitDropRequest => true
    case _ => false
  }

  /** The thread has locked its drm's mutex but the graph does not show it (yet, or any more). */
  predicate HoldHidden(pc: Pc) {
    pc.At? &&
    match pc.stmt
    case WaitRelockGlobal | WaitDropRequest | WaitAddHold | PostUnlockDrm => true
    case _ => false
  }

  /** Statements at which the thread must own its drm's mutex. */
  predicate MustOwn(pc: Pc) {
    pc.At? && (HoldHidden(pc) || pc.stmt.WaitGrant? || pc.stmt.PostDropHold?)
  }

  /** Statements of a drm_wait in progress, whose argument must be registered. */
  predicate Waiting(pc: Pc) {
    Registered(pc) || (pc.At? && (pc.stmt.WaitLockGlobal? || pc.stmt.WaitAddRequest?))
  }

  /** Statements of drm_wait after the thread id has been added to the graph and while it still matters. */
  predicate Registered(pc: Pc) {
    Requesting(pc) || (pc.At? && pc.stmt.WaitAddHold?)
  }

  ghost predicate Locks(s: State) {
    && (s.global.Some? ==> s.global.value in s.pc)
    && (forall t | t in s.pc :: InCritical(s.pc[t]) <==> s.global == Some(t))
    && (forall d | d in s.owner :: s.owner[d] in s.pc)
    && (forall t | t in s.pc && MustOwn(s.pc[t]) :: s.pc[t].drm in s.owner && s.owner[s.pc[t].drm] == t)
  }

  predicate RequestEdge(s: State, t: nat, d: nat) {
    t in s.pc && Requesting(s.pc[t]) && s.pc[t].drm == d
  }

  predicate HoldEdge(s: State, d: nat, t: nat) {
    t in s.pc && d in s.owner && s.owner[d] == t && !(HoldHidden(s.pc[t]) && s.pc[t].drm == d)
  }

  /** The graph is exactly the requests in progress and the visible holds. */
  ghost predicate RagExact(s: State) {
    && (forall t, d :: (Thr(t), Drm(d)) in s.rag <==> RequestEdge(s, t, d))
    && (forall t, d :: (Drm(d), Thr(t)) in s.rag <==> HoldEdge(s, d, t))
    && (forall a, b | (a, b) in s.rag :: a.Thr? != b.Thr? && a in s.vertices && b in s.vertices)
    && (forall t | t in s.pc && Waiting(s.pc[t]) :: Drm(s.pc[t].drm) in s.vertices)
    && (forall t | t in s.pc && Registered(s.pc[t]) :: Thr(t) in s.vertices)
  }

  predicate Unchecked(pc: Pc) {
    pc.At? && (pc.stmt.WaitCheck? || pc.stmt.WaitWithdraw?)
  }

  /** The graph without the request that is being checked or withdrawn. */
  function Settled(s: State): Rag {
    set e | e in s.rag && !(e.0.Thr? && e.0.t in s.pc && Unchecked(s.pc[e.0.t]))
  }

  ghost predicate Inv(s: State) {
    Locks(s) && RagExact(s) && Acyclic(Settled(s))
  }
}
