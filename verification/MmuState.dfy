/** The invariant of the software MMU, on values. */
module MmuState {
  import opened MmuMemory

  predicate IsOrphan(p: Physical, f: Frame) {
    f in p.frames && p.frames[f].Orphan?
  }

  /** A cached entry is the one the two-level walk reaches. Where the directory entry is absent there is
      no walk, and the cached entry sits in a table that only the cache knows. */
  ghost predicate TlbOk(writeBack: bool, tlb: map<nat, PteRef>, pid: Pid, dirs: Directories, p: Physical) {
    && (tlb != map[] ==> pid in dirs)
    && forall vpn | vpn in tlb ::
         && tlb[vpn].index == vpn % ENTRIES
         && if Backed(dirs, p, pid, vpn) then tlb[vpn] == Walk(dirs, p, pid, vpn)
            else !writeBack && IsOrphan(p, tlb[vpn].table)
  }

  /** As written, only the first directory entry of a process is ever present; with the write-back that
      the source intends, every page that has been written has its directory entry. */
  ghost predicate Linked(writeBack: bool, dirs: Directories, p: Physical, flat: Flat) {
    && (forall k | k in flat :: k.0 in dirs && (writeBack ==> Backed(dirs, p, k.0, k.1 / PAGE)))
    && (!writeBack ==> forall pid, i {:trigger (dirs[pid], i) in p.pdes} | pid in dirs && (dirs[pid], i) in p.pdes :: i == 0)
  }

  /** The first directory entry of every process is present. */
  ghost predicate FirstLinked(dirs: Directories, p: Physical) {
    forall pid | pid in dirs :: (dirs[pid], 0) in p.pdes
  }

  /** The invariant of the MMU, on values. */
  ghost predicate StateOk(writeBack: bool, tlb: map<nat, PteRef>, pid: Pid, dirs: Directories, p: Physical, flat: Flat) {
    MemoryOk(dirs, p) && Remembers(dirs, p, flat) && Linked(writeBack, dirs, p, flat) && TlbOk(writeBack, tlb, pid, dirs, p)
  }

  /** Memory changes that keep contents, directory entries and orphaned tables. */
  ghost predicate Extends(p: Physical, p': Physical) {
    && ContentsKept(p, p') && p'.pdes == p.pdes
    && forall f | IsOrphan(p, f) :: IsOrphan(p', f)
  }

  lemma ExtendsKeepsState(writeBack: bool, tlb: map<nat, PteRef>, pid: Pid, dirs: Directories, p: Physical, p': Physical, flat: Flat)
    requires StateOk(writeBack, tlb, pid, dirs, p, flat) && MemoryOk(dirs, p') && Extends(p, p')
    ensures StateOk(writeBack, tlb, pid, dirs, p', flat)
  {
    RemembersWhenKept(dirs, p, p', flat);
  }

  /** With the write-back, no remembered byte lies under an absent directory entry. */
  lemma LinkKeepsFlat(dirs: Directories, p: Physical, flat: Flat, pid: Pid, index: nat, f: Frame)
    requires MemoryOk(dirs, p) && Remembers(dirs, p, flat) && Linked(true, dirs, p, flat)
    requires pid in dirs && (dirs[pid], index) !in p.pdes
    ensures Remembers(dirs, LinkTable(dirs, p, pid, index, f), flat) && Linked(true, dirs, LinkTable(dirs, p, pid, index, f), flat)
  {
    var p' := LinkTable(dirs, p, pid, index, f);
    forall q, va | (q, va) in flat
      ensures Backed(dirs, p', q, va / PAGE) && Holds(p', Walk(dirs, p', q, va / PAGE), va % PAGE, flat[(q, va)])
    {
      assert (q, va).0 in dirs && Backed(dirs, p, q, va / PAGE);
    }
  }

  /** Nor does a cached entry. */
  lemma LinkKeepsTlb(tlb: map<nat, PteRef>, pid: Pid, dirs: Directories, p: Physical, index: nat, f: Frame)
    requires MemoryOk(dirs, p) && TlbOk(true, tlb, pid, dirs, p)
    requires pid in dirs && (dirs[pid], index) !in p.pdes
    ensures TlbOk(true, tlb, pid, dirs, LinkTable(dirs, p, pid, index, f))
  {
  }

  /** The buffer shows, for every byte that was ever written, the one written last. */
  ghost predicate ShowsFlat(flat: Flat, pid: Pid, va: nat, buffer: seq<Byte>) {
    forall a: nat | va <= a < va + |buffer| && (pid, a) in flat :: buffer[a - va] == flat[(pid, a)]
  }

  lemma ReadIsFlat(dirs: Directories, p: Physical, flat: Flat, pid: Pid, va: nat, n: nat, ref: PteRef)
    requires MemoryOk(dirs, p) && Remembers(dirs, p, flat) && va % PAGE + n <= PAGE
    requires Present(p, ref) && IsTable(p, ref.table)
    requires Backed(dirs, p, pid, va / PAGE) && ref == Walk(dirs, p, pid, va / PAGE)
    ensures ShowsFlat(flat, pid, va, p.bytes[p.ptes[ref].frame][va % PAGE..va % PAGE + n])
  {
    forall a: nat | va <= a < va + n && (pid, a) in flat
      ensures p.bytes[p.ptes[ref].frame][va % PAGE..va % PAGE + n][a - va] == flat[(pid, a)]
    {
      SamePage(va, a, n);
      assert Backed(dirs, p, pid, a / PAGE);
    }
  }

  lemma StoreKeepsState(writeBack: bool, tlb: map<nat, PteRef>, pid: Pid, dirs: Directories, p: Physical, flat: Flat,
                        va: nat, data: seq<Byte>, ref: PteRef)
    requires StateOk(writeBack, tlb, pid, dirs, p, flat) && pid in dirs && va % PAGE + |data| <= PAGE
    requires Present(p, ref) && IsTable(p, ref.table)
    requires if Backed(dirs, p, pid, va / PAGE) then ref == Walk(dirs, p, pid, va / PAGE) else !writeBack && IsOrphan(p, ref.table)
    ensures p.ptes[ref].frame in p.bytes && |p.bytes[p.ptes[ref].frame]| == PAGE
    ensures StateOk(writeBack, tlb, pid, dirs, Store(p, ref, va % PAGE, data), Overwrite(flat, pid, va, data))
  {
    StoreEffect(dirs, p, ref, va % PAGE, data);
    RemembersStore(dirs, p, ref, pid, va, data, flat);
    forall k | k in Overwrite(flat, pid, va, data)
      ensures k.0 in dirs && (writeBack ==> Backed(dirs, Store(p, ref, va % PAGE, data), k.0, k.1 / PAGE))
    {
      OverwriteAt(flat, pid, va, data, k.0, k.1);
      if k.0 == pid && va <= k.1 < va + |data| {
        SamePage(va, k.1, |data|);
      }
    }
  }

  // The pages of tables that no directory refers to, which are reached through the cache alone.

  /** The contents of the page behind an entry, in its frame or on disk; none if it has no page. */
  function PageOf(p: Physical, ref: PteRef): seq<Byte> {
    if Present(p, ref) then (if p.ptes[ref].frame in p.bytes then p.bytes[p.ptes[ref].frame] else [])
    else if ref in p.swap then p.swap[ref] else []
  }

  ghost predicate PagesKept(p: Physical, p': Physical) {
    forall ref: PteRef | IsTable(p, ref.table) && PageOf(p, ref) != [] :: PageOf(p', ref) == PageOf(p, ref)
  }

  lemma PageIsFull(p: Physical, ref: PteRef)
    requires PagesOk(p) && IsTable(p, ref.table)
    ensures PageOf(p, ref) == [] || |PageOf(p, ref)| == PAGE
    ensures Present(p, ref) ==> |PageOf(p, ref)| == PAGE
  {
  }

  /** Keeping every byte keeps every page. */
  lemma ContentsKeptKeepsPages(p: Physical, p': Physical)
    requires PagesOk(p) && PagesOk(p') && ContentsKept(p, p') && forall f | IsTable(p, f) :: IsTable(p', f)
    ensures PagesKept(p, p')
  {
    forall ref: PteRef | IsTable(p, ref.table) && PageOf(p, ref) != []
      ensures PageOf(p', ref) == PageOf(p, ref)
    {
      PageIsFull(p, ref);
      PageIsFull(p', ref);
      var page := PageOf(p, ref);
      assert Holds(p, ref, 0, page[0]);
      assert |PageOf(p', ref)| == |page| == PAGE;
      forall off | 0 <= off < PAGE
        ensures PageOf(p', ref)[off] == page[off]
      {
        assert Holds(p, ref, off, page[off]);
        assert Holds(p', ref, off, page[off]);
      }
    }
  }

  /** What the cache shows: the pages of its entries that no directory leads to. */
  function Shown(tlb: map<nat, PteRef>, p: Physical): map<nat, seq<Byte>> {
    map vpn | vpn in tlb && IsOrphan(p, tlb[vpn].table) :: PageOf(p, tlb[vpn])
  }

  /** Every cached entry that no directory leads to has a page, and no other entry is the same. */
  ghost predicate ShownOk(tlb: map<nat, PteRef>, p: Physical) {
    && (forall vpn | vpn in tlb && IsOrphan(p, tlb[vpn].table) :: PageOf(p, tlb[vpn]) != [])
    && forall v, w | v in tlb && w in tlb && v != w && IsOrphan(p, tlb[v].table) :: tlb[v] != tlb[w]
  }

  /** Those entries are the ones without a walk. */
  lemma OrphanIsUnbacked(writeBack: bool, tlb: map<nat, PteRef>, pid: Pid, dirs: Directories, p: Physical, vpn: nat)
    requires MemoryOk(dirs, p) && TlbOk(writeBack, tlb, pid, dirs, p) && vpn in tlb
    ensures IsTable(p, tlb[vpn].table)
    ensures IsOrphan(p, tlb[vpn].table) <==> !Backed(dirs, p, pid, vpn)
  {
    if Backed(dirs, p, pid, vpn) {
      WalkInjective(dirs, p, pid, vpn, pid, vpn);
    }
  }

  /** Elsewhere than at vpn nothing new is shown; what is shown is what was shown, to the same process. */
  ghost predicate ShownMoves(shown: map<nat, seq<Byte>>, shown': map<nat, seq<Byte>>, vpn: nat, sameProcess: bool) {
    forall v | v in shown' && v != vpn :: sameProcess && v in shown && shown'[v] == shown[v]
  }

  lemma OrphansStay(writeBack: bool, tlb: map<nat, PteRef>, pid: Pid, dirs: Directories, p: Physical, flat: Flat,
                    tlb': map<nat, PteRef>, p': Physical, flat': Flat, v: nat)
    requires StateOk(writeBack, tlb, pid, dirs, p, flat) && StateOk(writeBack, tlb', pid, dirs, p', flat')
    requires Grown(p, p') && (!writeBack ==> p'.pdes == p.pdes) && v in tlb && v in tlb' && tlb'[v] == tlb[v]
    ensures IsTable(p, tlb[v].table) && (IsOrphan(p', tlb[v].table) <==> IsOrphan(p, tlb[v].table))
  {
    OrphanIsUnbacked(writeBack, tlb, pid, dirs, p, v);
    OrphanIsUnbacked(writeBack, tlb', pid, dirs, p', v);
  }

  /** The translation of an access to vpn, over memory that has grown. */
  lemma AccessShows(writeBack: bool, tlb: map<nat, PteRef>, current: Pid, dirs: Directories, p: Physical, flat: Flat,
                    tlb': map<nat, PteRef>, pid: Pid, p': Physical, flat': Flat, vpn: nat)
    requires StateOk(writeBack, tlb, current, dirs, p, flat) && ShownOk(tlb, p)
    requires StateOk(writeBack, tlb', pid, dirs, p', flat') && Grown(p, p') && (!writeBack ==> p'.pdes == p.pdes)
    requires vpn in tlb' && PageOf(p', tlb'[vpn]) != []
    requires forall v | v in tlb' && v != vpn :: current == pid && v in tlb && tlb'[v] == tlb[v]
    requires current == pid && vpn in tlb ==> tlb' == tlb
    requires !(current == pid && vpn in tlb) && IsOrphan(p', tlb'[vpn].table) ==> !IsTable(p, tlb'[vpn].table)
    ensures ShownOk(tlb', p') && ShownMoves(Shown(tlb, p), Shown(tlb', p'), vpn, current == pid)
    ensures current == pid && vpn in tlb && vpn in Shown(tlb', p') ==>
        vpn in Shown(tlb, p) && Shown(tlb', p')[vpn] == Shown(tlb, p)[vpn]
  {
    forall v | v in tlb' && (v != vpn || (current == pid && vpn in tlb))
      ensures current == pid && v in tlb && tlb'[v] == tlb[v]
      ensures IsTable(p, tlb[v].table) && (IsOrphan(p', tlb[v].table) <==> IsOrphan(p, tlb[v].table))
    {
      OrphansStay(writeBack, tlb, pid, dirs, p, flat, tlb', p', flat', v);
    }
    forall v, w | v in tlb' && w in tlb' && v != w && IsOrphan(p', tlb'[v].table)
      ensures tlb'[v] != tlb'[w]
    {
      if !(current == pid && vpn in tlb) && (v == vpn || w == vpn) {
        var other := if v == vpn then w else v;
        assert IsTable(p, tlb'[other].table);
      }
    }
  }

  /** Marking an entry as accessed shows nothing else. */
  lemma TouchShows(tlb: map<nat, PteRef>, p: Physical, ref: PteRef)
    requires ref in p.ptes && ShownOk(tlb, p)
    ensures ShownOk(tlb, Touch(p, ref)) && Shown(tlb, Touch(p, ref)) == Shown(tlb, p)
  {
    assert forall r :: PageOf(Touch(p, ref), r) == PageOf(p, r);
  }

  /** A store through the entry of vpn is shown there, if that entry is one the cache alone leads to. */
  lemma StoreShows(writeBack: bool, tlb: map<nat, PteRef>, pid: Pid, dirs: Directories, p: Physical, flat: Flat, vpn: nat, off: nat, data: seq<Byte>)
    requires StateOk(writeBack, tlb, pid, dirs, p, flat) && ShownOk(tlb, p) && vpn in tlb
    requires Present(p, tlb[vpn]) && IsTable(p, tlb[vpn].table) && off + |data| <= PAGE
    ensures p.ptes[tlb[vpn]].frame in p.bytes && |PageOf(p, tlb[vpn])| == PAGE
    ensures ShownOk(tlb, Store(p, tlb[vpn], off, data))
    ensures ShownMoves(Shown(tlb, p), Shown(tlb, Store(p, tlb[vpn], off, data)), vpn, true)
    ensures Shown(tlb, Store(p, tlb[vpn], off, data)).Keys == Shown(tlb, p).Keys
    ensures vpn in Shown(tlb, p) ==>
        Shown(tlb, Store(p, tlb[vpn], off, data))[vpn] == Overlaid(Shown(tlb, p)[vpn], off, data)
  {
    var p' := Store(p, tlb[vpn], off, data);
    StorePages(dirs, p, tlb[vpn], off, data);
    forall v | v in tlb
      ensures IsTable(p, tlb[v].table) && (IsOrphan(p', tlb[v].table) <==> IsOrphan(p, tlb[v].table))
      ensures IsOrphan(p, tlb[v].table) && v != vpn ==> PageOf(p', tlb[v]) == PageOf(p, tlb[v])
    {
      OrphanIsUnbacked(writeBack, tlb, pid, dirs, p, v);
    }
  }

  function Overlaid(page: seq<Byte>, off: nat, data: seq<Byte>): seq<Byte> {
    if off + |data| <= |page| then page[..off] + data + page[off + |data|..] else page
  }

  /** A store changes the page of its entry and no other page. */
  lemma StorePages(dirs: Directories, p: Physical, ref: PteRef, off: nat, data: seq<Byte>)
    requires MemoryOk(dirs, p) && Present(p, ref) && IsTable(p, ref.table) && off + |data| <= PAGE
    ensures p.ptes[ref].frame in p.bytes && |PageOf(p, ref)| == PAGE
    ensures PageOf(Store(p, ref, off, data), ref) == PageOf(p, ref)[..off] + data + PageOf(p, ref)[off + |data|..]
    ensures forall r: PteRef | IsTable(p, r.table) && r != ref :: PageOf(Store(p, ref, off, data), r) == PageOf(p, r)
  {
    var p' := Store(p, ref, off, data);
    forall r: PteRef | IsTable(p, r.table) && r != ref
      ensures PageOf(p', r) == PageOf(p, r)
    {
      if Present(p, r) {
        assert p.frames[p.ptes[r].frame] == Page(r) && p.frames[p.ptes[ref].frame] == Page(ref);
      }
    }
  }

  /** No page, table or orphan is lost. */
  ghost predicate Grown(p: Physical, p': Physical) {
    && PagesKept(p, p')
    && (forall f | IsTable(p, f) :: IsTable(p', f))
    && forall f | IsOrphan(p, f) :: IsOrphan(p', f)
  }

  lemma GrownByKeeping(dirs: Directories, p: Physical, p': Physical)
    requires MemoryOk(dirs, p) && MemoryOk(dirs, p') && Extends(p, p') && forall f | IsTable(p, f) :: IsTable(p', f)
    ensures Grown(p, p')
  {
    ContentsKeptKeepsPages(p, p');
  }

  lemma GrownTransitive(p: Physical, q: Physical, r: Physical)
    requires Grown(p, q) && Grown(q, r)
    ensures Grown(p, r)
  {
  }

  /** A zeroed frame as table: in the directory if the entry is stored back, an orphan otherwise. */
  function TableAdded(writeBack: bool, dirs: Directories, p: Physical, pid: Pid, index: nat, f: Frame): Physical
    requires pid in dirs
  {
    if writeBack then LinkTable(dirs, NewTable(p, f, Table(pid, index)), pid, index, f) else NewTable(p, f, Orphan)
  }

  lemma TableAddedKeeps(writeBack: bool, tlb: map<nat, PteRef>, pid: Pid, dirs: Directories, p: Physical, flat: Flat, index: nat, f: Frame)
    requires StateOk(writeBack, tlb, pid, dirs, p, flat) && pid in dirs && (dirs[pid], index) !in p.pdes && f !in p.frames
    ensures var p' := TableAdded(writeBack, dirs, p, pid, index, f);
      && StateOk(writeBack, tlb, pid, dirs, p', flat) && Grown(p, p')
      && forall i :: PteRef(f, i) !in p'.ptes && PteRef(f, i) !in p'.swap
  {
    var role := if writeBack then Table(pid, index) else Orphan;
    NewTableKeeps(dirs, p, f, role);
    var q := NewTable(p, f, role);
    ExtendsKeepsState(writeBack, tlb, pid, dirs, p, q, flat);
    GrownByKeeping(dirs, p, q);
    if writeBack {
      LinkTableKeeps(dirs, q, pid, index, f);
      LinkKeepsFlat(dirs, q, flat, pid, index, f);
      LinkKeepsTlb(tlb, pid, dirs, q, index, f);
      LinkGrows(dirs, q, pid, index, f);
      GrownTransitive(p, q, LinkTable(dirs, q, pid, index, f));
    }
  }

  lemma LinkGrows(dirs: Directories, p: Physical, pid: Pid, index: nat, f: Frame)
    requires pid in dirs
    ensures Grown(p, LinkTable(dirs, p, pid, index, f))
  {
  }

  /** What one access to vpn does to the shown pages: the page there is the one cached before, or else what a new frame
      holds, with the data written over it; elsewhere entries may only be forgotten. */
  ghost predicate AccessSeen(shown: map<nat, seq<Byte>>, sameProcess: bool, cached: bool, shown': map<nat, seq<Byte>>,
                             vpn: nat, off: nat, data: seq<Byte>, junk: seq<Byte>)
  {
    && ShownMoves(shown, shown', vpn, sameProcess)
    && (vpn in shown' && cached ==> vpn in shown && shown'[vpn] == Overlaid(shown[vpn], off, data))
    && (vpn in shown' && !cached ==> shown'[vpn] == Overlaid(junk, off, data))
  }

  lemma OverlaidNothing(page: seq<Byte>, off: nat)
    ensures Overlaid(page, off, []) == page
  {
  }

  lemma TranslatedSeen(shown: map<nat, seq<Byte>>, sameProcess: bool, cached: bool, shown': map<nat, seq<Byte>>,
                       vpn: nat, off: nat, junk: seq<Byte>)
    requires ShownMoves(shown, shown', vpn, sameProcess)
    requires vpn in shown' && cached ==> vpn in shown && shown'[vpn] == shown[vpn]
    requires vpn in shown' && !cached ==> shown'[vpn] == junk
    ensures AccessSeen(shown, sameProcess, cached, shown', vpn, off, [], junk)
  {
    OverlaidNothing(junk, off);
    if vpn in shown {
      OverlaidNothing(shown[vpn], off);
    }
  }

  lemma StoredSeen(shown: map<nat, seq<Byte>>, sameProcess: bool, cached: bool, shown1: map<nat, seq<Byte>>,
                   shown2: map<nat, seq<Byte>>, vpn: nat, off: nat, data: seq<Byte>, junk: seq<Byte>)
    requires AccessSeen(shown, sameProcess, cached, shown1, vpn, off, [], junk)
    requires ShownMoves(shown1, shown2, vpn, true) && shown2.Keys == shown1.Keys
    requires vpn in shown2 ==> shown2[vpn] == Overlaid(shown1[vpn], off, data)
    ensures AccessSeen(shown, sameProcess, cached, shown2, vpn, off, data, junk)
  {
    OverlaidNothing(junk, off);
    if vpn in shown {
      OverlaidNothing(shown[vpn], off);
    }
  }

  lemma NothingShown(p: Physical)
    ensures ShownOk(map[], p) && Shown(map[], p) == map[]
  {
  }

  /** What an access writes the next one to the same page shows. */
  lemma SeenThenShown(shown: map<nat, seq<Byte>>, sameProcess: bool, cached: bool, shown1: map<nat, seq<Byte>>,
                      shown2: map<nat, seq<Byte>>, vpn: nat, off: nat, data: seq<Byte>, junk: seq<Byte>, junk': seq<Byte>)
    requires AccessSeen(shown, sameProcess, cached, shown1, vpn, off, data, junk) && off + |data| <= PAGE == |junk|
    requires AccessSeen(shown1, true, true, shown2, vpn, off, [], junk') && vpn in shown1 && vpn in shown2
    requires vpn in shown ==> |shown[vpn]| == PAGE
    ensures |shown2[vpn]| == PAGE && shown2[vpn][off..off + |data|] == data
  {
    OverlaidNothing(shown1[vpn], off);
  }

  lemma ShowsOverwritten(flat: Flat, pid: Pid, va: nat, data: seq<Byte>, buffer: seq<Byte>)
    requires ShowsFlat(Overwrite(flat, pid, va, data), pid, va, buffer) && |buffer| == |data|
    ensures buffer == data
  {
    forall i | 0 <= i < |data|
      ensures buffer[i] == data[i]
    {
      OverwriteAt(flat, pid, va, data, pid, va + i);
    }
  }

  lemma UncachedShowsFrame(shown: map<nat, seq<Byte>>, sameProcess: bool, shown': map<nat, seq<Byte>>, vpn: nat, off: nat, junk: seq<Byte>)
    requires AccessSeen(shown, sameProcess, false, shown', vpn, off, [], junk) && vpn in shown'
    ensures shown'[vpn] == junk
  {
    OverlaidNothing(junk, off);
  }
}
