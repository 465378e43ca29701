/** What adding and removing a process does to physical memory. */
module MmuProcesses {
  import opened MmuMemory
  import opened MmuState

  function Forget(flat: Flat, pid: Pid): Flat {
    map k | k in flat && k.0 != pid :: flat[k]
  }

  /** A process that already has a directory loses it: its frames stay in use but cannot be reached. */
  function Abandoned(role: Role, pid: Pid): Role {
    if role == Directory(pid) then Lost
    else if role.Table? && role.pid == pid then Orphan
    else role
  }

  /** A zeroed frame becomes the directory of the process. */
  function NewDirectory(p: Physical, pid: Pid, d: Frame): Physical {
    p.(frames := (map f | f in p.frames :: Abandoned(p.frames[f], pid))[d := Directory(pid)],
       pdes := map k | k in p.pdes && k.0 != d :: p.pdes[k])
  }

  /** The cached entries that stay right when the process is given a new directory. */
  function Surviving(writeBack: bool, tlb: map<nat, PteRef>, current: Pid, pid: Pid): map<nat, PteRef> {
    if current != pid then tlb
    else if writeBack then map[]
    else map vpn | vpn in tlb && vpn >= ENTRIES :: tlb[vpn]
  }

  lemma NewDirectoryKeepsMemory(dirs: Directories, p: Physical, pid: Pid, d: Frame)
    requires MemoryOk(dirs, p) && d !in p.frames
    ensures MemoryOk(dirs[pid := d], NewDirectory(p, pid, d)) && ContentsKept(p, NewDirectory(p, pid, d))
    ensures forall f | IsTable(p, f) :: IsTable(NewDirectory(p, pid, d), f)
    ensures forall i :: (d, i) !in NewDirectory(p, pid, d).pdes
  {
  }

  lemma NewDirectoryKeepsFlat(writeBack: bool, dirs: Directories, p: Physical, flat: Flat, pid: Pid, d: Frame)
    requires MemoryOk(dirs, p) && d !in p.frames && Remembers(dirs, p, flat) && Linked(writeBack, dirs, p, flat)
    ensures var dirs', p', flat' := dirs[pid := d], NewDirectory(p, pid, d), Forget(flat, pid);
      Remembers(dirs', p', flat') && Linked(writeBack, dirs', p', flat')
  {
    var dirs', p', flat' := dirs[pid := d], NewDirectory(p, pid, d), Forget(flat, pid);
    forall q, va | (q, va) in flat'
      ensures Backed(dirs', p', q, va / PAGE) <==> Backed(dirs, p, q, va / PAGE)
      ensures Backed(dirs', p', q, va / PAGE) ==> Holds(p', Walk(dirs', p', q, va / PAGE), va % PAGE, flat'[(q, va)])
    {
      assert (q, va).0 in dirs && dirs[q] in p.frames;
    }
  }

  lemma NewDirectoryKeepsTlb(writeBack: bool, tlb: map<nat, PteRef>, current: Pid, dirs: Directories, p: Physical, flat: Flat, pid: Pid, d: Frame)
    requires MemoryOk(dirs, p) && d !in p.frames && Linked(writeBack, dirs, p, flat) && TlbOk(writeBack, tlb, current, dirs, p)
    ensures TlbOk(writeBack, Surviving(writeBack, tlb, current, pid), current, dirs[pid := d], NewDirectory(p, pid, d))
  {
    var dirs', p' := dirs[pid := d], NewDirectory(p, pid, d);
    forall vpn | vpn in Surviving(writeBack, tlb, current, pid)
      ensures tlb[vpn].index == vpn % ENTRIES
      ensures if Backed(dirs', p', current, vpn) then tlb[vpn] == Walk(dirs', p', current, vpn)
              else !writeBack && IsOrphan(p', tlb[vpn].table)
    {
      if current == pid {
        assert !((dirs[pid], vpn / ENTRIES) in p.pdes);
      }
    }
  }

  lemma LinkFirstRemembers(dirs: Directories, p: Physical, flat: Flat, pid: Pid, t: Frame)
    requires MemoryOk(dirs, p) && Remembers(dirs, p, flat) && pid in dirs
    requires forall k | k in flat :: k.0 != pid && k.0 in dirs
    ensures Remembers(dirs, LinkTable(dirs, p, pid, 0, t), flat)
  {
    var p' := LinkTable(dirs, p, pid, 0, t);
    forall q, va | (q, va) in flat && Backed(dirs, p', q, va / PAGE)
      ensures Holds(p', Walk(dirs, p', q, va / PAGE), va % PAGE, flat[(q, va)])
    {
      assert (q, va).0 != pid && p.frames[dirs[q]] == Directory(q) && p.frames[dirs[pid]] == Directory(pid);
      assert Backed(dirs, p, q, va / PAGE);
    }
  }

  lemma LinkFirstCached(writeBack: bool, tlb: map<nat, PteRef>, current: Pid, dirs: Directories, p: Physical, pid: Pid, t: Frame)
    requires MemoryOk(dirs, p) && TlbOk(writeBack, tlb, current, dirs, p) && pid in dirs
    requires current == pid ==> forall vpn | vpn in tlb :: vpn >= ENTRIES
    ensures TlbOk(writeBack, tlb, current, dirs, LinkTable(dirs, p, pid, 0, t))
  {
    var p' := LinkTable(dirs, p, pid, 0, t);
    forall vpn | vpn in tlb
      ensures Backed(dirs, p', current, vpn) <==> Backed(dirs, p, current, vpn)
      ensures Backed(dirs, p, current, vpn) ==> Walk(dirs, p', current, vpn) == Walk(dirs, p, current, vpn)
    {
      assert p.frames[dirs[current]] == Directory(current) && p.frames[dirs[pid]] == Directory(pid);
    }
  }

  /** The first table of a new process is linked before anything has been written or cached under it. */
  lemma LinkFirstKeeps(writeBack: bool, tlb: map<nat, PteRef>, current: Pid, dirs: Directories, p: Physical, flat: Flat, pid: Pid, t: Frame)
    requires StateOk(writeBack, tlb, current, dirs, p, flat) && pid in dirs
    requires t in p.frames && p.frames[t] == Table(pid, 0)
    requires forall k | k in flat :: k.0 != pid
    requires current == pid ==> forall vpn | vpn in tlb :: vpn >= ENTRIES
    ensures StateOk(writeBack, tlb, current, dirs, LinkTable(dirs, p, pid, 0, t), flat)
  {
    var p' := LinkTable(dirs, p, pid, 0, t);
    LinkTableKeeps(dirs, p, pid, 0, t);
    LinkFirstRemembers(dirs, p, flat, pid, t);
    LinkFirstCached(writeBack, tlb, current, dirs, p, pid, t);
    hide Remembers, TlbOk, MemoryOk;
    forall k | k in flat
      ensures k.0 in dirs && (writeBack ==> Backed(dirs, p', k.0, k.1 / PAGE))
    {
      assert Backed(dirs, p, k.0, k.1 / PAGE) ==> Backed(dirs, p', k.0, k.1 / PAGE);
    }
  }

  lemma LinkFirstLinks(dirs: Directories, p: Physical, p': Physical, pid: Pid, t: Frame)
    requires pid in dirs && FirstLinked(dirs - {pid}, p) && p'.pdes == p.pdes[(dirs[pid], 0) := t]
    ensures FirstLinked(dirs, p')
  {
    forall q | q in dirs
      ensures (dirs[q], 0) in p'.pdes
    {
      if q != pid {
        assert q in dirs - {pid};
      }
    }
  }

  lemma CachedTablesExist(writeBack: bool, tlb: map<nat, PteRef>, current: Pid, dirs: Directories, p: Physical)
    requires MemoryOk(dirs, p) && TlbOk(writeBack, tlb, current, dirs, p)
    ensures forall vpn | vpn in tlb :: IsTable(p, tlb[vpn].table)
  {
    forall vpn | vpn in tlb && Backed(dirs, p, current, vpn)
      ensures IsTable(p, tlb[vpn].table)
    {
      WalkInjective(dirs, p, current, vpn, current, vpn);
    }
  }

  /** With a fresh first table, the cache is right exactly when all of it survives. */
  lemma SurvivorsDecide(writeBack: bool, tlb: map<nat, PteRef>, current: Pid, dirs: Directories, p: Physical, flat: Flat, pid: Pid)
    requires StateOk(writeBack, Surviving(writeBack, tlb, current, pid), current, dirs, p, flat) && pid in dirs
    requires forall i :: (dirs[pid], i) in p.pdes <==> i == 0
    requires forall vpn | vpn in tlb :: tlb[vpn].table != p.pdes[(dirs[pid], 0)]
    ensures StateOk(writeBack, tlb, current, dirs, p, flat) <==> Surviving(writeBack, tlb, current, pid) == tlb
  {
    if current == pid && Surviving(writeBack, tlb, current, pid) != tlb {
      var vpn :| vpn in tlb && (writeBack || vpn < ENTRIES);
      assert Backed(dirs, p, current, vpn) <==> vpn / ENTRIES == 0;
      assert !TlbOk(writeBack, tlb, current, dirs, p);
    }
  }

  // Removing a process.

  /** The frames of the pages of table t with index below n. */
  function PagesBelow(p: Physical, t: Frame, n: nat): set<Frame> {
    set ref | ref in p.ptes && ref.table == t && ref.index < n && Present(p, ref) :: p.ptes[ref].frame
  }

  /** After the loop over a table has freed the entries below n, on and off disk. */
  function FreedBelow(p: Physical, t: Frame, n: nat): Physical {
    p.(frames := p.frames - PagesBelow(p, t, n),
       swap := map ref | ref in p.swap && !(ref.table == t && ref.index < n) :: p.swap[ref])
  }

  function FreeTable(p: Physical, t: Frame): Physical {
    var q := FreedBelow(p, t, ENTRIES);
    q.(frames := q.frames - {t})
  }

  lemma FreeTableFrames(p: Physical, t: Frame, f: Frame)
    requires PagesOk(p) && IsTable(p, t) && f in p.frames
    ensures f in FreeTable(p, t).frames <==> f != t && f !in PagesBelow(p, t, ENTRIES)
    ensures f in PagesBelow(p, t, ENTRIES) ==> p.frames[f].Page? && p.frames[f].ref.table == t
    ensures f in FreeTable(p, t).frames ==> FreeTable(p, t).frames[f] == p.frames[f]
  {
  }

  lemma FreeTableKeepsPages(p: Physical, t: Frame, ref: PteRef)
    requires PagesOk(p) && IsTable(p, t) && ref.table != t && IsTable(p, ref.table) && Present(p, ref)
    ensures p.ptes[ref].frame in FreeTable(p, t).frames && FreeTable(p, t).frames[p.ptes[ref].frame] == Page(ref)
  {
    FreeTableFrames(p, t, p.ptes[ref].frame);
  }

  lemma FreeTableKeepsFrames(p: Physical, t: Frame)
    requires PagesOk(p) && IsTable(p, t)
    ensures forall f | f in p.frames && !p.frames[f].Page? && f != t :: f in FreeTable(p, t).frames && FreeTable(p, t).frames[f] == p.frames[f]
    ensures forall f | f in FreeTable(p, t).frames :: f in p.frames && FreeTable(p, t).frames[f] == p.frames[f] && f != t
  {
    forall f | f in p.frames
      ensures f in FreeTable(p, t).frames ==> FreeTable(p, t).frames[f] == p.frames[f] && f != t
      ensures !p.frames[f].Page? && f != t ==> f in FreeTable(p, t).frames
    {
      FreeTableFrames(p, t, f);
    }
  }

  lemma FreeTableKeepsHolds(p: Physical, t: Frame)
    ensures forall ref: PteRef, off: nat, b: Byte | ref.table != t && Holds(p, ref, off, b) :: Holds(FreeTable(p, t), ref, off, b)
  {
  }

  lemma FreeTableKeepsPagesOk(p: Physical, t: Frame)
    requires PagesOk(p) && IsTable(p, t)
    ensures PagesOk(FreeTable(p, t))
  {
    var p' := FreeTable(p, t);
    FreeTableKeepsFrames(p, t);
    forall ref | Present(p', ref) && IsTable(p', ref.table)
      ensures p.ptes[ref].frame in p'.frames && p'.frames[p.ptes[ref].frame] == Page(ref)
    {
      FreeTableKeepsPages(p, t, ref);
    }
    assert forall ref | ref in p'.swap :: ref in p.swap && p'.swap[ref] == p.swap[ref] && ref.table != t;
    hide PagesBelow;
  }

  lemma FreeTableKeepsMemory(dirs: Directories, p: Physical, t: Frame, pid: Pid, index: nat)
    requires MemoryOk(dirs, p) && pid !in dirs && t in p.frames && p.frames[t] == Table(pid, index)
    ensures MemoryOk(dirs, FreeTable(p, t))
    ensures forall f | f in p.frames && !p.frames[f].Page? && f != t :: f in FreeTable(p, t).frames && FreeTable(p, t).frames[f] == p.frames[f]
    ensures forall ref: PteRef, off: nat, b: Byte | ref.table != t && Holds(p, ref, off, b) :: Holds(FreeTable(p, t), ref, off, b)
  {
    FreeTableKeepsFrames(p, t);
    FreeTableKeepsHolds(p, t);
    FreeTableKeepsPagesOk(p, t);
    assert FreeTable(p, t).pdes == p.pdes;
    hide FreeTable, PagesOk, Holds;
  }

  lemma FreeTableKeeps(writeBack: bool, tlb: map<nat, PteRef>, current: Pid, dirs: Directories, p: Physical, flat: Flat, t: Frame, pid: Pid, index: nat)
    requires StateOk(writeBack, tlb, current, dirs, p, flat) && pid !in dirs && t in p.frames && p.frames[t] == Table(pid, index)
    ensures StateOk(writeBack, tlb, current, dirs, FreeTable(p, t), flat)
  {
    FreeTableKeepsMemory(dirs, p, t, pid, index);
    forall q, va | (q, va) in flat && Backed(dirs, p, q, va / PAGE)
      ensures Holds(FreeTable(p, t), Walk(dirs, p, q, va / PAGE), va % PAGE, flat[(q, va)])
    {
      WalkInjective(dirs, p, q, va / PAGE, q, va / PAGE);
      assert q in dirs && q != pid;
    }
  }

  /** A process without a directory is forgotten. */
  lemma DropDirectoryKeeps(writeBack: bool, tlb: map<nat, PteRef>, current: Pid, dirs: Directories, p: Physical, flat: Flat, pid: Pid)
    requires StateOk(writeBack, tlb, current, dirs, p, flat)
    ensures StateOk(writeBack, if current == pid then map[] else tlb, current, dirs - {pid}, p, Forget(flat, pid))
  {
    var dirs', flat' := dirs - {pid}, Forget(flat, pid);
    forall q, va | (q, va) in flat' && Backed(dirs', p, q, va / PAGE)
      ensures Holds(p, Walk(dirs', p, q, va / PAGE), va % PAGE, flat'[(q, va)])
    {
      assert Backed(dirs, p, q, va / PAGE) && (q, va) in flat;
    }
    forall k | k in flat'
      ensures k.0 in dirs' && (writeBack ==> Backed(dirs', p, k.0, k.1 / PAGE))
    {
    }
  }

  /** Giving back the directory frame itself. */
  lemma FreeDirectoryKeeps(writeBack: bool, tlb: map<nat, PteRef>, current: Pid, dirs: Directories, p: Physical, flat: Flat, pid: Pid, d: Frame)
    requires StateOk(writeBack, tlb, current, dirs, p, flat) && pid !in dirs && d in p.frames && p.frames[d] == Directory(pid)
    ensures StateOk(writeBack, tlb, current, dirs, p.(frames := p.frames - {d}), flat)
  {
    RemembersWhenKept(dirs, p, p.(frames := p.frames - {d}), flat);
  }

  lemma PagesBelowNext(p: Physical, t: Frame, n: nat)
    ensures PagesBelow(p, t, 0) == {}
    ensures PagesBelow(p, t, n + 1) ==
        PagesBelow(p, t, n) + if Present(p, PteRef(t, n)) then {p.ptes[PteRef(t, n)].frame} else {}
  {
    forall f | f in PagesBelow(p, t, n + 1)
      ensures f in PagesBelow(p, t, n) || (Present(p, PteRef(t, n)) && f == p.ptes[PteRef(t, n)].frame)
    {
      var r :| r in p.ptes && r.table == t && r.index < n + 1 && Present(p, r) && p.ptes[r].frame == f;
      if r.index == n {
        assert r == PteRef(t, n);
      }
    }
  }

  lemma FreedBelowStart(p: Physical, t: Frame)
    ensures FreedBelow(p, t, 0) == p
  {
    PagesBelowNext(p, t, 0);
    assert p.frames - {} == p.frames;
    assert FreedBelow(p, t, 0).swap == p.swap;
  }

  lemma FreedBelowNext(p: Physical, t: Frame, n: nat)
    ensures FreedBelow(p, t, n + 1).frames == FreedBelow(p, t, n).frames -
        if Present(p, PteRef(t, n)) then {p.ptes[PteRef(t, n)].frame} else {}
    ensures FreedBelow(p, t, n + 1).swap == FreedBelow(p, t, n).swap - {PteRef(t, n)}
  {
    PagesBelowNext(p, t, n);
  }

  // All that a process has.

  /** The tables behind the directory entries below n. */
  function TablesOf(p: Physical, d: Frame, n: nat): set<Frame> {
    set i: nat | i < n && (d, i) in p.pdes :: p.pdes[(d, i)]
  }

  /** The frames of the pages in these tables. */
  function PagesIn(p: Physical, tables: set<Frame>): set<Frame> {
    set ref | ref in p.ptes && ref.table in tables && ref.index < ENTRIES && Present(p, ref) :: p.ptes[ref].frame
  }

  /** Memory without these tables, their pages and their saved pages. */
  function WithoutTables(p: Physical, tables: set<Frame>): Physical {
    p.(frames := p.frames - PagesIn(p, tables) - tables,
       swap := map ref | ref in p.swap && !(ref.table in tables && ref.index < ENTRIES) :: p.swap[ref])
  }

  function FreeProcess(p: Physical, d: Frame): Physical {
    var q := WithoutTables(p, TablesOf(p, d, ENTRIES));
    q.(frames := q.frames - {d})
  }

  lemma WithoutNoTables(p: Physical, d: Frame)
    ensures WithoutTables(p, TablesOf(p, d, 0)) == p
  {
    assert TablesOf(p, d, 0) == {} && PagesIn(p, {}) == {};
    assert p.frames - {} - {} == p.frames;
    assert WithoutTables(p, {}).swap == p.swap;
  }

  lemma WithoutNextTable(p: Physical, d: Frame, n: nat)
    ensures WithoutTables(p, TablesOf(p, d, n + 1)) ==
        if (d, n) in p.pdes then FreeTable(WithoutTables(p, TablesOf(p, d, n)), p.pdes[(d, n)])
        else WithoutTables(p, TablesOf(p, d, n))
  {
    var before, after := TablesOf(p, d, n), TablesOf(p, d, n + 1);
    if (d, n) in p.pdes {
      assert after == before + {p.pdes[(d, n)]};
      FreeOneMore(p, before, p.pdes[(d, n)]);
    } else {
      assert after == before;
    }
  }

  lemma PagesOneMore(p: Physical, tables: set<Frame>, t: Frame)
    ensures PagesIn(p, tables + {t}) == PagesIn(p, tables) + PagesBelow(p, t, ENTRIES)
  {
  }

  lemma FreeOneMore(p: Physical, tables: set<Frame>, t: Frame)
    ensures WithoutTables(p, tables + {t}) == FreeTable(WithoutTables(p, tables), t)
  {
    var q := WithoutTables(p, tables);
    PagesOneMore(p, tables, t);
    assert PagesBelow(q, t, ENTRIES) == PagesBelow(p, t, ENTRIES);
    hide PagesIn, PagesBelow;
    var r, r' := WithoutTables(p, tables + {t}), FreeTable(q, t);
    assert r.frames == r'.frames;
    assert r.swap == r'.swap;
  }

  /** Freeing a process frees exactly its directory, the tables behind it, their pages and their saved pages: every
      other frame stays, and so does every page of a table that is not behind the directory. */
  lemma FreeProcessFrees(dirs: Directories, p: Physical, pid: Pid)
    requires MemoryOk(dirs, p) && pid in dirs
    ensures var d, p' := dirs[pid], FreeProcess(p, dirs[pid]); var tables := TablesOf(p, d, ENTRIES);
      && d !in p'.frames && tables !! p'.frames.Keys
      && (forall ref: PteRef | ref.table in tables && ref.index < ENTRIES ::
            ref !in p'.swap && (Present(p, ref) ==> p.ptes[ref].frame !in p'.frames))
      && (forall f | f in p.frames && !p.frames[f].Page? && f != d && f !in tables ::
            f in p'.frames && p'.frames[f] == p.frames[f])
      && (forall ref: PteRef | IsTable(p, ref.table) && ref.table !in tables && Present(p, ref) ::
            p.ptes[ref].frame in p'.frames && p'.frames[p.ptes[ref].frame] == Page(ref))
      && (forall ref: PteRef | ref.table !in tables :: PageOf(p', ref) == PageOf(p, ref))
  {
    var d, p' := dirs[pid], FreeProcess(p, dirs[pid]);
    var tables := TablesOf(p, d, ENTRIES);
    forall t | t in tables
      ensures t in p.frames && p.frames[t].Table?
    {
      var i: nat :| i < ENTRIES && (d, i) in p.pdes && p.pdes[(d, i)] == t;
      assert (dirs[pid], i) in p.pdes;
    }
    forall f | f in PagesIn(p, tables)
      ensures f in p.frames && p.frames[f].Page? && p.frames[f].ref.table in tables
    {
      var ref :| ref in p.ptes && ref.table in tables && ref.index < ENTRIES && Present(p, ref) && p.ptes[ref].frame == f;
      assert p.frames[f] == Page(ref);
    }
    forall ref: PteRef | IsTable(p, ref.table) && ref.table !in tables && Present(p, ref)
      ensures p.ptes[ref].frame in p'.frames && p'.frames[p.ptes[ref].frame] == Page(ref)
    {
      assert p.frames[p.ptes[ref].frame] == Page(ref);
    }
  }

  ghost predicate OthersTablesKept(p: Physical, p': Physical, pid: Pid) {
    forall f | f in p.frames && p.frames[f].Table? && p.frames[f].pid != pid :: f in p'.frames && p'.frames[f] == p.frames[f]
  }

  /** When all cached entries survive the new directory, the cache shows what it showed. */
  lemma SurvivorsShown(writeBack: bool, tlb: map<nat, PteRef>, current: Pid, dirs: Directories, p: Physical, flat: Flat, p': Physical, pid: Pid)
    requires StateOk(writeBack, tlb, current, dirs, p, flat) && FirstLinked(dirs, p) && ShownOk(tlb, p)
    requires Grown(p, p') && OthersTablesKept(p, p', pid)
    requires Surviving(writeBack, tlb, current, pid) == tlb
    ensures ShownOk(tlb, p') && Shown(tlb, p') == Shown(tlb, p)
  {
    forall vpn | vpn in tlb
      ensures IsTable(p, tlb[vpn].table) && (IsOrphan(p', tlb[vpn].table) <==> IsOrphan(p, tlb[vpn].table))
    {
      OrphanIsUnbacked(writeBack, tlb, current, dirs, p, vpn);
      if Backed(dirs, p, current, vpn) {
        WalkInjective(dirs, p, current, vpn, current, vpn);
        SurvivorsUnbacked(writeBack, tlb, current, dirs, p, flat, pid, vpn);
      }
    }
  }

  lemma SurvivorsUnbacked(writeBack: bool, tlb: map<nat, PteRef>, current: Pid, dirs: Directories, p: Physical, flat: Flat, pid: Pid, vpn: nat)
    requires StateOk(writeBack, tlb, current, dirs, p, flat) && vpn in tlb
    requires Surviving(writeBack, tlb, current, pid) == tlb && Backed(dirs, p, current, vpn)
    ensures current != pid
  {
  }

  lemma NewDirectoryGrows(dirs: Directories, p: Physical, pid: Pid, d: Frame)
    requires MemoryOk(dirs, p) && d !in p.frames
    ensures Grown(p, NewDirectory(p, pid, d)) && OthersTablesKept(p, NewDirectory(p, pid, d), pid)
  {
    NewDirectoryKeepsMemory(dirs, p, pid, d);
    ContentsKeptKeepsPages(p, NewDirectory(p, pid, d));
  }

  lemma TablesAreNotOrphans(dirs: Directories, p: Physical, pid: Pid)
    requires MemoryOk(dirs, p) && pid in dirs
    ensures forall t | t in TablesOf(p, dirs[pid], ENTRIES) :: !IsOrphan(p, t) && t in p.frames
  {
    forall t | t in TablesOf(p, dirs[pid], ENTRIES)
      ensures !IsOrphan(p, t) && t in p.frames
    {
      var i: nat :| i < ENTRIES && (dirs[pid], i) in p.pdes && p.pdes[(dirs[pid], i)] == t;
      assert (dirs[pid], i) in p.pdes;
    }
  }

  lemma ShownSame(tlb: map<nat, PteRef>, p: Physical, p': Physical)
    requires ShownOk(tlb, p) && forall f :: IsOrphan(p', f) <==> IsOrphan(p, f)
    requires forall ref: PteRef | IsOrphan(p, ref.table) :: PageOf(p', ref) == PageOf(p, ref)
    ensures ShownOk(tlb, p') && Shown(tlb, p') == Shown(tlb, p)
  {
  }

  /** The cache of another process shows the same after a process has been freed. */
  lemma FreeProcessShows(dirs: Directories, p: Physical, pid: Pid, tlb: map<nat, PteRef>)
    requires MemoryOk(dirs, p) && pid in dirs && ShownOk(tlb, p)
    ensures ShownOk(tlb, FreeProcess(p, dirs[pid])) && Shown(tlb, FreeProcess(p, dirs[pid])) == Shown(tlb, p)
  {
    FreeProcessFrees(dirs, p, pid);
    TablesAreNotOrphans(dirs, p, pid);
    FreedFramesOnly(p, dirs[pid]);
    hide TablesOf, PageOf, PagesOk, ShownOk, FreeProcess;
    assert p.frames[dirs[pid]] == Directory(pid);
    ShownSame(tlb, p, FreeProcess(p, dirs[pid]));
  }

  lemma FreedFramesOnly(p: Physical, d: Frame)
    ensures forall f | f in FreeProcess(p, d).frames :: f in p.frames && FreeProcess(p, d).frames[f] == p.frames[f]
  {
  }

  lemma EntriesStay(p: Physical, d: Frame)
    ensures FreeProcess(p, d).pdes == p.pdes
  {
  }

  /** A process is added, over memory that has grown: the cache is right, and shows what it showed, exactly when all of
      it survives. */
  lemma SurvivorsDecideAll(writeBack: bool, tlb: map<nat, PteRef>, current: Pid, dirs: Directories, p: Physical, flat: Flat,
                           dirs': Directories, p': Physical, flat': Flat, pid: Pid)
    requires StateOk(writeBack, tlb, current, dirs, p, flat) && FirstLinked(dirs, p) && ShownOk(tlb, p)
    requires StateOk(writeBack, Surviving(writeBack, tlb, current, pid), current, dirs', p', flat') && pid in dirs'
    requires forall i :: (dirs'[pid], i) in p'.pdes <==> i == 0
    requires !IsTable(p, p'.pdes[(dirs'[pid], 0)]) && Grown(p, p') && OthersTablesKept(p, p', pid)
    ensures StateOk(writeBack, tlb, current, dirs', p', flat') <==> Surviving(writeBack, tlb, current, pid) == tlb
    ensures Surviving(writeBack, tlb, current, pid) == tlb ==> ShownOk(tlb, p') && Shown(tlb, p') == Shown(tlb, p)
  {
    CachedTablesExist(writeBack, tlb, current, dirs, p);
    hide StateOk, Surviving, FirstLinked, ShownOk, Grown, OthersTablesKept, Shown;
    SurvivorsDecide(writeBack, tlb, current, dirs', p', flat', pid);
    if Surviving(writeBack, tlb, current, pid) == tlb {
      SurvivorsShown(writeBack, tlb, current, dirs, p, flat, p', pid);
    }
  }

  /** A store through a cached entry keeps the whole state. */
  lemma StoreReachesCached(writeBack: bool, tlb: map<nat, PteRef>, pid: Pid, dirs: Directories, p: Physical, flat: Flat, va: nat, data: seq<Byte>)
    requires StateOk(writeBack, tlb, pid, dirs, p, flat) && FirstLinked(dirs, p) && pid in dirs && va % PAGE + |data| <= PAGE
    requires va / PAGE in tlb && Present(p, tlb[va / PAGE]) && IsTable(p, tlb[va / PAGE].table)
    ensures var ref := tlb[va / PAGE];
      && p.ptes[ref].frame in p.bytes && |p.bytes[p.ptes[ref].frame]| == PAGE
      && StateOk(writeBack, tlb, pid, dirs, Store(p, ref, va % PAGE, data), Overwrite(flat, pid, va, data))
      && FirstLinked(dirs, Store(p, ref, va % PAGE, data))
  {
    StoreKeepsState(writeBack, tlb, pid, dirs, p, flat, va, data, tlb[va / PAGE]);
    hide StateOk, Overwrite;
  }
}
