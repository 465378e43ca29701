/** Physical memory as the software MMU and its kernel share it: frames, page tables and swapped-out pages. */
module MmuMemory {

  type Byte = bv8
  type Frame = nat
  type Pid = nat

  const PAGE := 4096
  const ENTRIES := 1024
  const ADDRESSES := 0x1_0000_0000

  /** A page-table entry is named by the frame of its table and its index there. */
  datatype PteRef = PteRef(table: Frame, index: nat)

  datatype Pte = Pte(present: bool, frame: Frame, dirty: bool, accessed: bool)

  /** What a frame is used for. An orphan is a table that no directory refers to, a lost frame a directory
      that no process refers to. */
  datatype Role = Directory(pid: Pid) | Table(pid: Pid, index: nat) | Page(ref: PteRef) | Orphan | Lost

  /** `pdes` holds the present directory entries; a page-table entry that is not in `ptes` is zero. */
  datatype Physical = Physical(
    frames: map<Frame, Role>,
    pdes: map<(Frame, nat), Frame>,
    ptes: map<PteRef, Pte>,
    bytes: map<Frame, seq<Byte>>,
    swap: map<PteRef, seq<Byte>>)

  /** page_directories: the directory frame of each process that has one. */
  type Directories = map<Pid, Frame>

  predicate IsTable(p: Physical, f: Frame) {
    f in p.frames && (p.frames[f].Table? || p.frames[f].Orphan?)
  }

  predicate Present(p: Physical, ref: PteRef) {
    ref in p.ptes && p.ptes[ref].present
  }

  ghost predicate DirectoriesOk(dirs: Directories, p: Physical) {
    && (forall pid | pid in dirs :: dirs[pid] in p.frames && p.frames[dirs[pid]] == Directory(pid))
    && (forall pid, i {:trigger (dirs[pid], i) in p.pdes} | pid in dirs && (dirs[pid], i) in p.pdes ::
          var t := p.pdes[(dirs[pid], i)]; t in p.frames && p.frames[t] == Table(pid, i))
  }

  ghost predicate PagesOk(p: Physical) {
    && (forall ref | Present(p, ref) && IsTable(p, ref.table) ::
          var f := p.ptes[ref].frame;
          ref.index < ENTRIES && f in p.frames && p.frames[f] == Page(ref) && f in p.bytes && |p.bytes[f]| == PAGE)
    && (forall ref | ref in p.swap :: IsTable(p, ref.table) && ref.index < ENTRIES && |p.swap[ref]| == PAGE)
  }

  ghost predicate MemoryOk(dirs: Directories, p: Physical) {
    DirectoriesOk(dirs, p) && PagesOk(p)
  }

  /** The directory entry for the virtual page is present. */
  predicate Backed(dirs: Directories, p: Physical, pid: Pid, vpn: nat) {
    pid in dirs && (dirs[pid], vpn / ENTRIES) in p.pdes
  }

  /** The two-level walk. */
  function Walk(dirs: Directories, p: Physical, pid: Pid, vpn: nat): PteRef
    requires Backed(dirs, p, pid, vpn)
  {
    PteRef(p.pdes[(dirs[pid], vpn / ENTRIES)], vpn % ENTRIES)
  }

  /** Byte `off` of the page behind `ref` is b, in its frame or on disk. */
  predicate Holds(p: Physical, ref: PteRef, off: nat, b: Byte) {
    if Present(p, ref) then
      p.ptes[ref].frame in p.bytes && off < |p.bytes[p.ptes[ref].frame]| && p.bytes[p.ptes[ref].frame][off] == b
    else
      ref in p.swap && off < |p.swap[ref]| && p.swap[ref][off] == b
  }

  /** No page reachable through a table loses a byte. */
  ghost predicate ContentsKept(p: Physical, p': Physical) {
    forall ref: PteRef, off: nat, b: Byte | IsTable(p, ref.table) && Holds(p, ref, off, b) :: Holds(p', ref, off, b)
  }

  /** Different virtual pages never share a page-table entry. */
  lemma WalkInjective(dirs: Directories, p: Physical, pid: Pid, vpn: nat, pid': Pid, vpn': nat)
    requires DirectoriesOk(dirs, p) && Backed(dirs, p, pid, vpn) && Backed(dirs, p, pid', vpn')
    ensures IsTable(p, Walk(dirs, p, pid, vpn).table) && p.frames[Walk(dirs, p, pid, vpn).table] == Table(pid, vpn / ENTRIES)
    ensures Walk(dirs, p, pid, vpn) == Walk(dirs, p, pid', vpn') ==> pid == pid' && vpn == vpn'
  {
    assert (dirs[pid], vpn / ENTRIES) in p.pdes && (dirs[pid'], vpn' / ENTRIES) in p.pdes;
  }

  /** Page out a set of pages: save each frame, clear the present bit, give the frame back. */
  function Evict(p: Physical, refs: set<PteRef>): Physical
    requires forall ref | ref in refs && Present(p, ref) :: p.ptes[ref].frame in p.bytes
  {
    p.(ptes := map ref | ref in p.ptes :: if ref in refs then p.ptes[ref].(present := false) else p.ptes[ref],
       swap := p.swap + map ref | ref in refs && Present(p, ref) :: p.bytes[p.ptes[ref].frame],
       frames := p.frames - set ref | ref in refs && Present(p, ref) :: p.ptes[ref].frame)
  }

  /** The pages the kernel may evict; directories and tables are never among them. */
  ghost predicate Evictable(p: Physical, refs: set<PteRef>) {
    forall ref | ref in refs :: Present(p, ref) && IsTable(p, ref.table)
  }

  lemma EvictKeepsFrames(p: Physical, refs: set<PteRef>)
    requires PagesOk(p) && Evictable(p, refs)
    ensures var p' := Evict(p, refs);
      && (forall f | f in p'.frames :: f in p.frames && p'.frames[f] == p.frames[f])
      && (forall f | f in p.frames && !p.frames[f].Page? :: f in p'.frames)
      && (forall ref | Present(p', ref) :: Present(p, ref) && ref !in refs && p'.ptes[ref] == p.ptes[ref])
      && (forall ref | Present(p, ref) && ref !in refs && IsTable(p, ref.table) :: Present(p', ref) && p.ptes[ref].frame in p'.frames)
  {
    var p' := Evict(p, refs);
    forall ref | Present(p, ref) && ref !in refs && IsTable(p, ref.table)
      ensures p.ptes[ref].frame in p'.frames
    {
      assert p.frames[p.ptes[ref].frame] == Page(ref);
    }
  }

  lemma EvictKeeps(dirs: Directories, p: Physical, refs: set<PteRef>)
    requires MemoryOk(dirs, p) && Evictable(p, refs)
    ensures MemoryOk(dirs, Evict(p, refs))
  {
    EvictKeepsFrames(p, refs);
  }

  lemma EvictKeepsContents(p: Physical, refs: set<PteRef>)
    requires PagesOk(p) && Evictable(p, refs)
    ensures ContentsKept(p, Evict(p, refs))
  {
  }

  /** A page enters a free frame: from disk if it was saved, otherwise with whatever the frame holds. */
  function PageIn(p: Physical, ref: PteRef, f: Frame, junk: seq<Byte>): Physical {
    p.(frames := p.frames[f := Page(ref)],
       ptes := p.ptes[ref := Pte(true, f, false, false)],
       bytes := p.bytes[f := if ref in p.swap then p.swap[ref] else junk])
  }

  lemma PageInKeeps(dirs: Directories, p: Physical, ref: PteRef, f: Frame, junk: seq<Byte>)
    requires MemoryOk(dirs, p) && IsTable(p, ref.table) && ref.index < ENTRIES && !Present(p, ref)
    requires f !in p.frames && |junk| == PAGE
    ensures MemoryOk(dirs, PageIn(p, ref, f, junk)) && ContentsKept(p, PageIn(p, ref, f, junk))
  {
  }

  /** A zeroed frame becomes a page table. */
  function NewTable(p: Physical, f: Frame, role: Role): Physical {
    p.(frames := p.frames[f := role],
       ptes := map ref | ref in p.ptes && ref.table != f :: p.ptes[ref])
  }

  lemma NewTableKeeps(dirs: Directories, p: Physical, f: Frame, role: Role)
    requires MemoryOk(dirs, p) && f !in p.frames && (role.Orphan? || role.Table?)
    ensures MemoryOk(dirs, NewTable(p, f, role)) && ContentsKept(p, NewTable(p, f, role))
    ensures forall i :: PteRef(f, i) !in NewTable(p, f, role).ptes && PteRef(f, i) !in p.swap
  {
  }

  /** A directory entry starts to refer to a table. */
  function LinkTable(dirs: Directories, p: Physical, pid: Pid, index: nat, f: Frame): Physical
    requires pid in dirs
  {
    p.(pdes := p.pdes[(dirs[pid], index) := f])
  }

  lemma LinkTableKeeps(dirs: Directories, p: Physical, pid: Pid, index: nat, f: Frame)
    requires MemoryOk(dirs, p) && pid in dirs && f in p.frames && p.frames[f] == Table(pid, index)
    ensures MemoryOk(dirs, LinkTable(dirs, p, pid, index, f))
    ensures ContentsKept(p, LinkTable(dirs, p, pid, index, f))
  {
    var p' := LinkTable(dirs, p, pid, index, f);
    forall q, i {:trigger (dirs[q], i) in p'.pdes} | q in dirs && (dirs[q], i) in p'.pdes
      ensures p'.pdes[(dirs[q], i)] in p'.frames && p'.frames[p'.pdes[(dirs[q], i)]] == Table(q, i)
    {
      if dirs[q] == dirs[pid] {
        assert p.frames[dirs[q]] == Directory(q) && p.frames[dirs[pid]] == Directory(pid);
      }
      if (dirs[q], i) != (dirs[pid], index) {
        assert (dirs[q], i) in p.pdes;
      }
    }
  }

  /** memcpy into a present page, with the flags of the entry. */
  function Store(p: Physical, ref: PteRef, off: nat, data: seq<Byte>): Physical
    requires Present(p, ref) && p.ptes[ref].frame in p.bytes && off + |data| <= |p.bytes[p.ptes[ref].frame]|
  {
    var f := p.ptes[ref].frame;
    var page := p.bytes[f];
    p.(ptes := p.ptes[ref := p.ptes[ref].(dirty := true, accessed := true)],
       bytes := p.bytes[f := page[..off] + data + page[off + |data|..]])
  }

  lemma StoreEffect(dirs: Directories, p: Physical, ref: PteRef, off: nat, data: seq<Byte>)
    requires MemoryOk(dirs, p) && Present(p, ref) && IsTable(p, ref.table) && off + |data| <= PAGE
    ensures MemoryOk(dirs, Store(p, ref, off, data))
    ensures forall i | 0 <= i < |data| :: Holds(Store(p, ref, off, data), ref, off + i, data[i])
    ensures forall r: PteRef, o: nat, b: Byte | IsTable(p, r.table) && Holds(p, r, o, b) && (r != ref || o < off || off + |data| <= o) ::
        Holds(Store(p, ref, off, data), r, o, b)
  {
  }

  /** A read marks the entry as accessed. */
  function Touch(p: Physical, ref: PteRef): Physical
    requires ref in p.ptes
  {
    p.(ptes := p.ptes[ref := p.ptes[ref].(accessed := true)])
  }

  lemma TouchKeeps(dirs: Directories, p: Physical, ref: PteRef)
    requires MemoryOk(dirs, p) && ref in p.ptes
    ensures MemoryOk(dirs, Touch(p, ref)) && ContentsKept(p, Touch(p, ref))
  {
  }

  // The flat memory that the MMU implements.

  /** The last byte written to each address of each process since it was added. */
  type Flat = map<(Pid, nat), Byte>

  ghost predicate Remembers(dirs: Directories, p: Physical, flat: Flat) {
    forall pid, va | (pid, va) in flat && Backed(dirs, p, pid, va / PAGE) ::
      Holds(p, Walk(dirs, p, pid, va / PAGE), va % PAGE, flat[(pid, va)])
  }

  function Span(pid: Pid, va: nat, n: nat): set<(Pid, nat)> {
    set a: nat | va <= a < va + n :: (pid, a)
  }

  function Overwrite(flat: Flat, pid: Pid, va: nat, data: seq<Byte>): Flat {
    flat + map a | a in Span(pid, va, |data|) :: data[a.1 - va]
  }

  lemma OverwriteAt(flat: Flat, pid: Pid, va: nat, data: seq<Byte>, pid': Pid, va': nat)
    ensures var after := Overwrite(flat, pid, va, data);
      if pid' == pid && va <= va' < va + |data| then (pid', va') in after && after[(pid', va')] == data[va' - va]
      else ((pid', va') in after <==> (pid', va') in flat) &&
           ((pid', va') in flat ==> after[(pid', va')] == flat[(pid', va')])
  {
    if pid' == pid && va <= va' < va + |data| {
      assert (pid, va') in Span(pid, va, |data|);
    }
  }

  lemma RemembersWhenKept(dirs: Directories, p: Physical, p': Physical, flat: Flat)
    requires DirectoriesOk(dirs, p) && ContentsKept(p, p') && p'.pdes == p.pdes && Remembers(dirs, p, flat)
    ensures Remembers(dirs, p', flat)
  {
    forall pid, va | (pid, va) in flat && Backed(dirs, p', pid, va / PAGE)
      ensures Holds(p', Walk(dirs, p', pid, va / PAGE), va % PAGE, flat[(pid, va)])
    {
      WalkInjective(dirs, p, pid, va / PAGE, pid, va / PAGE);
    }
  }

  lemma StoredByte(dirs: Directories, p: Physical, ref: PteRef, va: nat, data: seq<Byte>, a: nat)
    requires MemoryOk(dirs, p) && Present(p, ref) && IsTable(p, ref.table) && va % PAGE + |data| <= PAGE
    requires va <= a < va + |data|
    ensures Holds(Store(p, ref, va % PAGE, data), ref, a % PAGE, data[a - va])
  {
    SamePage(va, a, |data|);
    var i := a - va;
    StoreAt(dirs, p, ref, va % PAGE, data, i);
  }

  lemma StoreAt(dirs: Directories, p: Physical, ref: PteRef, off: nat, data: seq<Byte>, i: nat)
    requires MemoryOk(dirs, p) && Present(p, ref) && IsTable(p, ref.table) && off + |data| <= PAGE && i < |data|
    ensures Holds(Store(p, ref, off, data), ref, off + i, data[i])
  {
    StoreEffect(dirs, p, ref, off, data);
  }

  lemma OtherByte(dirs: Directories, p: Physical, ref: PteRef, va: nat, data: seq<Byte>, r: PteRef, a: nat, b: Byte)
    requires MemoryOk(dirs, p) && Present(p, ref) && IsTable(p, ref.table) && va % PAGE + |data| <= PAGE
    requires IsTable(p, r.table) && Holds(p, r, a % PAGE, b)
    requires r == ref ==> a / PAGE == va / PAGE && !(va <= a < va + |data|)
    ensures Holds(Store(p, ref, va % PAGE, data), r, a % PAGE, b)
  {
    if r == ref {
      OtherOffset(va, a, |data|);
    }
    StoreEffect(dirs, p, ref, va % PAGE, data);
  }

  /** A store through the walk of an address updates the flat memory there and nowhere else; a store
      through any other entry leaves it alone. */
  lemma RemembersStore(dirs: Directories, p: Physical, ref: PteRef, pid: Pid, va: nat, data: seq<Byte>, flat: Flat)
    requires MemoryOk(dirs, p) && Remembers(dirs, p, flat)
    requires Present(p, ref) && IsTable(p, ref.table) && va % PAGE + |data| <= PAGE
    requires if Backed(dirs, p, pid, va / PAGE) then ref == Walk(dirs, p, pid, va / PAGE) else p.frames[ref.table].Orphan?
    ensures Remembers(dirs, Store(p, ref, va % PAGE, data), Overwrite(flat, pid, va, data))
  {
    var p', flat' := Store(p, ref, va % PAGE, data), Overwrite(flat, pid, va, data);
    forall q, a | (q, a) in flat' && Backed(dirs, p', q, a / PAGE)
      ensures Holds(p', Walk(dirs, p', q, a / PAGE), a % PAGE, flat'[(q, a)])
    {
      WalkInjective(dirs, p, q, a / PAGE, q, a / PAGE);
      OverwriteAt(flat, pid, va, data, q, a);
      if q == pid && va <= a < va + |data| {
        SamePage(va, a, |data|);
        StoredByte(dirs, p, ref, va, data, a);
      } else {
        OnlyOwnPage(dirs, p, ref, pid, va, q, a);
        OtherByte(dirs, p, ref, va, data, Walk(dirs, p, q, a / PAGE), a, flat[(q, a)]);
      }
    }
  }

  /** Two addresses whose walks meet are on the same page of the same process. */
  lemma OnlyOwnPage(dirs: Directories, p: Physical, ref: PteRef, pid: Pid, va: nat, q: Pid, a: nat)
    requires DirectoriesOk(dirs, p) && Backed(dirs, p, q, a / PAGE) && IsTable(p, ref.table)
    requires if Backed(dirs, p, pid, va / PAGE) then ref == Walk(dirs, p, pid, va / PAGE) else p.frames[ref.table].Orphan?
    ensures ref == Walk(dirs, p, q, a / PAGE) ==> q == pid && a / PAGE == va / PAGE
  {
    WalkInjective(dirs, p, q, a / PAGE, q, a / PAGE);
    if Backed(dirs, p, pid, va / PAGE) {
      WalkInjective(dirs, p, pid, va / PAGE, q, a / PAGE);
    }
  }

  lemma SamePage(va: nat, a: nat, n: nat)
    requires va <= a < va + n && va % PAGE + n <= PAGE
    ensures a / PAGE == va / PAGE && a % PAGE == va % PAGE + (a - va)
  {
  }

  lemma OtherOffset(va: nat, a: nat, n: nat)
    requires a / PAGE == va / PAGE && va % PAGE + n <= PAGE && !(va <= a < va + n)
    ensures a % PAGE < va % PAGE || va % PAGE + n <= a % PAGE
  {
  }
}
