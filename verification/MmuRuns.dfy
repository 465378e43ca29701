/** Whole runs of the software MMU against a flat memory per process. */
module MmuRuns {
  import opened MmuMemory
  import opened MmuProcesses
  import opened MmuState
  import opened Options
  import M = Mmu

  datatype Op =
    | Load(va: nat, pid: Pid, n: nat)
    | Save(va: nat, pid: Pid, data: seq<Byte>)
    | Add(pid: Pid)
    | Remove(pid: Pid)

  predicate Accessible(va: nat) {
    va != 0 && M.InSegments(va)
  }

  function FlatStep(flat: Flat, op: Op): Flat {
    match op
    case Load(_, _, _) => flat
    case Save(va, pid, data) => if Accessible(va) then Overwrite(flat, pid, va, data) else flat
    case Add(pid) => Forget(flat, pid)
    case Remove(pid) => Forget(flat, pid)
  }

  function PidsStep(pids: set<Pid>, op: Op): set<Pid> {
    match op
    case Add(pid) => pids + {pid}
    case Remove(pid) => pids - {pid}
    case _ => pids
  }

  /** Accesses stay within a page and name a process that exists. */
  predicate LegalOp(pids: set<Pid>, op: Op) {
    && op.pid < M.MAX_PROCESS_ID
    && match op
       case Load(va, pid, n) => pid in pids && va < ADDRESSES && n + va % PAGE <= PAGE
       case Save(va, pid, data) => pid in pids && va < ADDRESSES && |data| + va % PAGE <= PAGE
       case Add(_) => true
       case Remove(_) => true
  }

  predicate Legal(pids: set<Pid>, ops: seq<Op>)
    decreases |ops|
  {
    ops == [] || (LegalOp(pids, ops[0]) && Legal(PidsStep(pids, ops[0]), ops[1..]))
  }

  /** What the specification remembers: the processes, their flat memories, and the pages that only the cache of the
      current process leads to. */
  datatype Spec = Spec(pids: set<Pid>, flat: Flat, current: Pid, shown: map<nat, seq<Byte>>)

  ghost predicate Full(s: Spec) {
    forall vpn | vpn in s.shown :: |s.shown[vpn]| == PAGE
  }

  /** An access by pid. Pages above the first directory entry are shown, as written, exactly while they are cached. */
  ghost predicate Accessed(writeBack: bool, s: Spec, va: nat, pid: Pid, data: seq<Byte>, junk: seq<Byte>, s': Spec) {
    && s'.current == pid && (va / PAGE in s'.shown <==> !writeBack && va / PAGE >= ENTRIES)
    && AccessSeen(s.shown, s.current == pid, s.current == pid && va / PAGE in s.shown, s'.shown, va / PAGE, va % PAGE, data, junk)
  }

  ghost predicate Move(writeBack: bool, s: Spec, op: Op, junk: seq<Byte>, s': Spec) {
    && s'.pids == PidsStep(s.pids, op) && s'.flat == FlatStep(s.flat, op) && Full(s')
    && match op
       case Load(va, pid, _) =>
         if va == 0 then s'.current == s.current && s'.shown == s.shown else Accessed(writeBack, s, va, pid, [], junk, s')
       case Save(va, pid, data) =>
         if va == 0 then s'.current == s.current && s'.shown == s.shown
         else Accessed(writeBack, s, va, pid, if Accessible(va) then data else [], junk, s')
       case Add(_) => s'.current == s.current && s'.shown == s.shown
       case Remove(pid) => s'.current == s.current && s'.shown == if s.current == pid then map[] else s.shown
  }

  /** A load faults outside the segments. Otherwise it answers with the bytes written last, or, as written and above the
      first directory entry, with the page that the cache leads to. */
  ghost predicate Answer(writeBack: bool, op: Op, s': Spec, out: Option<seq<Byte>>) {
    match op
    case Load(va, pid, n) =>
      && (out.Some? <==> Accessible(va))
      && (out.Some? ==> |out.value| == n)
      && (out.Some? && (writeBack || va < M.FIRST_ENTRY_END) ==> ShowsFlat(s'.flat, pid, va, out.value))
      && (out.Some? && !writeBack && va >= M.FIRST_ENTRY_END ==>
            va / PAGE in s'.shown && va % PAGE + n <= PAGE == |s'.shown[va / PAGE]| &&
            out.value == s'.shown[va / PAGE][va % PAGE..va % PAGE + n])
    case _ => out.None?
  }

  ghost function Now(m: M.Mmu): Spec
    reads m
  {
    Spec(m.pageDirectories.Keys, m.flat, m.currPid, m.Seen())
  }

  /** The operation leaves the cache right: anything but adding the current process again while its cache holds entries
      that the new directory does not lead to. */
  predicate CacheSurvives(m: M.Mmu, op: Op)
    reads m
  {
    op.Add? ==> Surviving(m.writeBack, m.tlb, m.currPid, op.pid) == m.tlb
  }

  method Execute(m: M.Mmu, op: Op, junk: seq<Byte>) returns (out: Option<seq<Byte>>)
    requires m.Valid() && |junk| == PAGE && LegalOp(m.pageDirectories.Keys, op) && CacheSurvives(m, op)
    modifies m
    ensures m.Valid() && Move(m.writeBack, old(Now(m)), op, junk, Now(m)) && Answer(m.writeBack, op, Now(m), out)
  {
    hide StateOk, FirstLinked, ShownOk, AccessSeen;
    out := None;
    CachedIsShown(m, op);
    match op
    case Load(va, pid, n) =>
      out := m.Read(va, pid, n, junk);
      SeenAreFull(m);
      CachedIsShown(m, op);
      CachedMeansShown(old(m.Seen()), old(m.currPid) == pid, old(m.Cached(pid, va / PAGE)), m.Seen(), va, [], junk);
      assert Move(m.writeBack, old(Now(m)), op, junk, Now(m));
    case Save(va, pid, data) =>
      var ok := m.Write(va, pid, data, junk);
      SeenAreFull(m);
      CachedIsShown(m, op);
      CachedMeansShown(old(m.Seen()), old(m.currPid) == pid, old(m.Cached(pid, va / PAGE)), m.Seen(), va, if ok then data else [], junk);
      assert Move(m.writeBack, old(Now(m)), op, junk, Now(m));
    case Add(pid) =>
      m.AddProcess(pid, junk);
      SeenAreFull(m);
    case Remove(pid) =>
      m.RemoveProcess(pid);
      SeenAreFull(m);
  }

  /** Whether the page was cached matters for pages that are shown, and those are shown exactly while cached. */
  lemma CachedMeansShown(shown: map<nat, seq<Byte>>, same: bool, cached: bool, shown': map<nat, seq<Byte>>, va: nat,
                         data: seq<Byte>, junk: seq<Byte>)
    ensures AccessSeen(shown, same, cached, shown', va / PAGE, va % PAGE, data, junk)
        && (va / PAGE in shown' ==> cached == (same && va / PAGE in shown))
        ==> AccessSeen(shown, same, same && va / PAGE in shown, shown', va / PAGE, va % PAGE, data, junk)
  {
  }

  lemma CachedIsShown(m: M.Mmu, op: Op)
    requires m.Valid()
    ensures (op.Load? || op.Save?) ==> var vpn := op.va / PAGE;
      vpn in m.Seen() <==> !m.writeBack && vpn in m.tlb && vpn >= ENTRIES
  {
    if op.Load? || op.Save? {
      m.SeenAreHigh(op.va / PAGE);
    }
  }

  lemma SeenAreFull(m: M.Mmu)
    requires m.Valid()
    ensures Full(Now(m))
  {
    forall vpn | vpn in m.Seen()
      ensures |m.Seen()[vpn]| == PAGE
    {
      m.SeenIsFull(vpn);
    }
  }

  /** A process that is not current, or nothing of which is cached, can always be added, again or for the first time. */
  lemma CacheSurvivesUnlessCurrent(m: M.Mmu, pid: Pid)
    requires m.Valid() && (pid != m.currPid || m.tlb == map[] || pid !in m.pageDirectories)
    ensures CacheSurvives(m, Add(pid))
  {
  }

  // Whole runs.

  /** specs are the remembered states before, between and after the operations. */
  ghost predicate IsRun(writeBack: bool, ops: seq<Op>, junks: seq<seq<Byte>>, specs: seq<Spec>, outs: seq<Option<seq<Byte>>>) {
    && |junks| == |outs| == |ops| && |specs| == |ops| + 1
    && (forall k | 0 <= k < |junks| :: |junks[k]| == PAGE)
    && (forall k | 0 <= k < |specs| :: Full(specs[k]))
    && forall k | 0 <= k < |ops| ::
         Move(writeBack, specs[k], ops[k], junks[k], specs[k + 1]) && Answer(writeBack, ops[k], specs[k + 1], outs[k])
  }

  /** Adding the current process again over its cached entries leaves the cache wrong. */
  method AddWrongly(m: M.Mmu, op: Op, junk: seq<Byte>)
    requires m.Valid() && |junk| == PAGE && LegalOp(m.pageDirectories.Keys, op) && !CacheSurvives(m, op)
    modifies m
    ensures op.Add? && !m.Valid()
  {
    m.AddProcess(op.pid, junk);
  }

  /** Any legal run, whatever the kernel evicts, the cache forgets and new frames contain, is one of the specification,
      to its end or to the first operation that would leave the cache wrong. */
  method RunAll(m: M.Mmu, ops: seq<Op>, junks: seq<seq<Byte>>) returns (outs: seq<Option<seq<Byte>>>, ghost specs: seq<Spec>, done: nat)
    requires m.Valid() && Legal(m.pageDirectories.Keys, ops)
    requires |junks| == |ops| && forall i | 0 <= i < |junks| :: |junks[i]| == PAGE
    modifies m
    ensures done <= |ops| && IsRun(m.writeBack, ops[..done], junks[..done], specs, outs)
    ensures specs[0] == old(Now(m))
    ensures done == |ops| ==> m.Valid() && specs[done] == Now(m)
    ensures done < |ops| ==> ops[done].Add? && !m.Valid()
  {
    outs, specs, done := [], [Now(m)], 0;
    SeenAreFull(m);
    LegalFromStart(m.pageDirectories.Keys, ops);
    while done < |ops|
      invariant m.Valid() && done <= |ops| && |outs| == done && |specs| == done + 1
      invariant specs[0] == old(Now(m)) && specs[done] == Now(m)
      invariant Legal(m.pageDirectories.Keys, ops[done..])
      invariant IsRun(m.writeBack, ops[..done], junks[..done], specs, outs)
    {
      hide Move, Answer, Full, IsRun, Legal, LegalOp, CacheSurvives;
      LegalNext(m.pageDirectories.Keys, ops, done);
      if !CacheSurvives(m, ops[done]) {
        AddWrongly(m, ops[done], junks[done]);
        return;
      }
      var out := Execute(m, ops[done], junks[done]);
      SeenAreFull(m);
      RunExtended(m.writeBack, ops, junks, specs, outs, done, Now(m), out);
      outs, specs := outs + [out], specs + [Now(m)];
      PidsMoved(m.writeBack, specs[done], ops[done], junks[done], specs[done + 1]);
      done := done + 1;
    }
  }

  lemma LegalFromStart(pids: set<Pid>, ops: seq<Op>)
    requires Legal(pids, ops)
    ensures Legal(pids, ops[0..])
  {
    assert ops[0..] == ops;
  }

  lemma LegalNext(pids: set<Pid>, ops: seq<Op>, i: nat)
    requires i < |ops| && Legal(pids, ops[i..])
    ensures LegalOp(pids, ops[i]) && Legal(PidsStep(pids, ops[i]), ops[i + 1..])
  {
    assert ops[i..][1..] == ops[i + 1..];
  }

  lemma PidsMoved(writeBack: bool, s: Spec, op: Op, junk: seq<Byte>, s': Spec)
    requires Move(writeBack, s, op, junk, s')
    ensures s'.pids == PidsStep(s.pids, op)
  {
  }

  lemma RunExtended(writeBack: bool, ops: seq<Op>, junks: seq<seq<Byte>>, specs: seq<Spec>, outs: seq<Option<seq<Byte>>>,
                    i: nat, s': Spec, out: Option<seq<Byte>>)
    requires i < |ops| == |junks| && |junks[i]| == PAGE && Full(s')
    requires IsRun(writeBack, ops[..i], junks[..i], specs, outs)
    requires Move(writeBack, specs[i], ops[i], junks[i], s') && Answer(writeBack, ops[i], s', out)
    ensures IsRun(writeBack, ops[..i + 1], junks[..i + 1], specs + [s'], outs + [out])
  {
    hide Move, Answer, Full;
    var ops', junks', specs', outs' := ops[..i + 1], junks[..i + 1], specs + [s'], outs + [out];
    forall k | 0 <= k < |ops'|
      ensures Move(writeBack, specs'[k], ops'[k], junks'[k], specs'[k + 1]) && Answer(writeBack, ops'[k], specs'[k + 1], outs'[k])
    {
      if k < i {
        assert ops[..i][k] == ops[k] && junks[..i][k] == junks[k];
      }
    }
    forall k | 0 <= k < |junks'|
      ensures |junks'[k]| == PAGE
    {
      if k < i {
        assert junks[..i][k] == junks[k];
      }
    }
  }

  // When a load shows the last write.

  predicate Writes(op: Op, pid: Pid, a: nat) {
    op.Save? && op.pid == pid && Accessible(op.va) && op.va <= a < op.va + |op.data| && op.va % PAGE + |op.data| <= PAGE
  }

  /** The operation neither writes this byte nor adds or removes its process. */
  predicate Leaves(op: Op, pid: Pid, a: nat) {
    match op
    case Load(_, _, _) => true
    case Save(va, q, data) => (q == pid && Accessible(va) ==> a < va || va + |data| <= a) && va % PAGE + |data| <= PAGE
    case Add(q) => q != pid
    case Remove(q) => q != pid
  }

  predicate CachedAt(s: Spec, pid: Pid, a: nat) {
    s.current == pid && a / PAGE in s.shown
  }

  lemma {:induction false} LastWriteInFlat(writeBack: bool, ops: seq<Op>, junks: seq<seq<Byte>>, specs: seq<Spec>,
                                           outs: seq<Option<seq<Byte>>>, i: nat, j: nat, pid: Pid, a: nat)
    requires IsRun(writeBack, ops, junks, specs, outs) && i < j <= |ops| && Writes(ops[i], pid, a)
    requires forall k | i < k < j :: Leaves(ops[k], pid, a)
    ensures (pid, a) in specs[j].flat && specs[j].flat[(pid, a)] == ops[i].data[a - ops[i].va]
    decreases j
  {
    hide Move, Answer, Writes, Leaves;
    assert Move(writeBack, specs[j - 1], ops[j - 1], junks[j - 1], specs[j]);
    if j > i + 1 {
      LastWriteInFlat(writeBack, ops, junks, specs, outs, i, j - 1, pid, a);
      assert Leaves(ops[j - 1], pid, a);
    }
    FlatMoves(writeBack, specs[j - 1], ops[j - 1], junks[j - 1], specs[j], pid, a);
    if j > i + 1 {
      LeavesWritesNot(ops[j - 1], pid, a);
    }
  }

  lemma FlatMoves(writeBack: bool, s: Spec, op: Op, junk: seq<Byte>, s': Spec, pid: Pid, a: nat)
    requires Move(writeBack, s, op, junk, s')
    ensures Writes(op, pid, a) ==> (pid, a) in s'.flat && s'.flat[(pid, a)] == op.data[a - op.va]
    ensures Leaves(op, pid, a) ==> ((pid, a) in s'.flat <==> (pid, a) in s.flat)
    ensures Leaves(op, pid, a) && (pid, a) in s.flat ==> s'.flat[(pid, a)] == s.flat[(pid, a)]
  {
    if op.Save? {
      OverwriteAt(s.flat, op.pid, op.va, op.data, pid, a);
    }
  }

  /** One operation and a byte of a page that the cache leads to afterwards: the byte was written, or it is what it was
      if the page was cached before, or else what the new frame happened to hold. */
  lemma ByteMoves(writeBack: bool, s: Spec, op: Op, junk: seq<Byte>, s': Spec, pid: Pid, a: nat)
    requires Move(writeBack, s, op, junk, s') && Full(s) && |junk| == PAGE && CachedAt(s', pid, a)
    requires Writes(op, pid, a) || Leaves(op, pid, a)
    ensures |s'.shown[a / PAGE]| == PAGE
    ensures s'.shown[a / PAGE][a % PAGE] ==
        if Writes(op, pid, a) then op.data[a - op.va]
        else if CachedAt(s, pid, a) then s.shown[a / PAGE][a % PAGE]
        else junk[a % PAGE]
  {
    if op.Save? && op.va / PAGE == a / PAGE {
      if op.va <= a < op.va + |op.data| {
        SamePage(op.va, a, |op.data|);
      } else {
        OtherOffset(op.va, a, |op.data|);
      }
    } else if Writes(op, pid, a) {
      SamePage(op.va, a, |op.data|);
    }
  }

  /** The page has been cached ever since operation i. */
  ghost predicate StayedCached(specs: seq<Spec>, i: nat, j: nat, pid: Pid, a: nat)
    requires j < |specs|
  {
    forall k | i < k <= j :: CachedAt(specs[k], pid, a)
  }

  /** After a write, as written and above the first directory entry, the byte is still shown if the page has stayed
      cached; if not, it is what the frame held that the page was given when it was cached again. */
  lemma {:induction false} ByteSinceWrite(writeBack: bool, ops: seq<Op>, junks: seq<seq<Byte>>, specs: seq<Spec>,
                                          outs: seq<Option<seq<Byte>>>, i: nat, j: nat, pid: Pid, a: nat) returns (m: nat)
    requires IsRun(writeBack, ops, junks, specs, outs) && i < j <= |ops| && Writes(ops[i], pid, a)
    requires (forall k | i < k < j :: Leaves(ops[k], pid, a)) && CachedAt(specs[j], pid, a)
    ensures |specs[j].shown[a / PAGE]| == PAGE
    ensures StayedCached(specs, i, j, pid, a) ==> specs[j].shown[a / PAGE][a % PAGE] == ops[i].data[a - ops[i].va]
    ensures !StayedCached(specs, i, j, pid, a) ==>
        i < m < j && !CachedAt(specs[m], pid, a) && specs[j].shown[a / PAGE][a % PAGE] == junks[m][a % PAGE]
    decreases j
  {
    hide Move, Answer, Writes, Leaves;
    assert Move(writeBack, specs[j - 1], ops[j - 1], junks[j - 1], specs[j]);
    m := j - 1;
    if j > i + 1 {
      assert Leaves(ops[j - 1], pid, a);
      LeavesWritesNot(ops[j - 1], pid, a);
      ByteMoves(writeBack, specs[j - 1], ops[j - 1], junks[j - 1], specs[j], pid, a);
      if CachedAt(specs[j - 1], pid, a) {
        m := ByteSinceWrite(writeBack, ops, junks, specs, outs, i, j - 1, pid, a);
      }
    } else {
      ByteMoves(writeBack, specs[i], ops[i], junks[i], specs[j], pid, a);
    }
  }

  lemma LeavesWritesNot(op: Op, pid: Pid, a: nat)
    requires Leaves(op, pid, a)
    ensures !Writes(op, pid, a)
  {
  }

  /** The load at j reads byte a of process pid, which operation i wrote last. */
  ghost predicate LoadsAfter(ops: seq<Op>, i: nat, j: nat, pid: Pid, a: nat) {
    && i < j < |ops| && Writes(ops[i], pid, a) && (forall k | i < k < j :: Leaves(ops[k], pid, a))
    && ops[j].Load? && ops[j].pid == pid && Accessible(ops[j].va) && ops[j].va <= a < ops[j].va + ops[j].n
    && ops[j].va % PAGE + ops[j].n <= PAGE
  }

  /** Over whole runs, exactly what a load shows of the last write: the byte itself if directory entries are stored
      back, or the address is under the first one, or the page has stayed cached since; and otherwise what some frame
      happened to hold that was handed out since then, after the page had left the cache. */
  lemma LoadAfterWrite(writeBack: bool, ops: seq<Op>, junks: seq<seq<Byte>>, specs: seq<Spec>, outs: seq<Option<seq<Byte>>>,
                       i: nat, j: nat, pid: Pid, a: nat) returns (m: nat)
    requires IsRun(writeBack, ops, junks, specs, outs) && LoadsAfter(ops, i, j, pid, a)
    ensures outs[j].Some? && |outs[j].value| == ops[j].n
    ensures writeBack || a < M.FIRST_ENTRY_END || StayedCached(specs, i, j, pid, a) ==>
        outs[j].value[a - ops[j].va] == ops[i].data[a - ops[i].va]
    ensures !(writeBack || a < M.FIRST_ENTRY_END || StayedCached(specs, i, j, pid, a)) ==>
        i < m <= j && !CachedAt(specs[m], pid, a) && outs[j].value[a - ops[j].va] == junks[m][a % PAGE]
  {
    hide Writes, Leaves;
    var va := ops[j].va;
    assert Move(writeBack, specs[j], ops[j], junks[j], specs[j + 1]) && Answer(writeBack, ops[j], specs[j + 1], outs[j]);
    SamePage(va, a, ops[j].n);
    m := j;
    if writeBack || va < M.FIRST_ENTRY_END {
      LastWriteInFlat(writeBack, ops, junks, specs, outs, i, j, pid, a);
    } else {
      LoadLeaves(ops[j], pid, a);
      m := ByteSinceWrite(writeBack, ops, junks, specs, outs, i, j + 1, pid, a);
      assert StayedCached(specs, i, j + 1, pid, a) <==> StayedCached(specs, i, j, pid, a);
    }
  }

  lemma LoadLeaves(op: Op, pid: Pid, a: nat)
    requires op.Load?
    ensures Leaves(op, pid, a)
  {
  }

  /** So whenever no frame handed out since the write happens to hold the byte written, the load shows the write if and
      only if one of the three holds. */
  lemma LoadShowsWriteExactlyIf(writeBack: bool, ops: seq<Op>, junks: seq<seq<Byte>>, specs: seq<Spec>,
                                outs: seq<Option<seq<Byte>>>, i: nat, j: nat, pid: Pid, a: nat)
    requires IsRun(writeBack, ops, junks, specs, outs) && LoadsAfter(ops, i, j, pid, a)
    requires forall k | i < k <= j :: junks[k][a % PAGE] != ops[i].data[a - ops[i].va]
    ensures outs[j].Some? && |outs[j].value| == ops[j].n
    ensures outs[j].value[a - ops[j].va] == ops[i].data[a - ops[i].va]
        <==> writeBack || a < M.FIRST_ENTRY_END || StayedCached(specs, i, j, pid, a)
  {
    var m := LoadAfterWrite(writeBack, ops, junks, specs, outs, i, j, pid, a);
  }
}
