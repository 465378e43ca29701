/** The software MMU: a cache of page-table entries over two-level page tables with demand paging. */
module Mmu {
  import opened MmuMemory
  import opened MmuState
  import opened MmuProcesses
  import opened Options

  const MAX_PROCESS_ID := 65536

  /** The addresses under the first directory entry, the only one that mmu_add_process fills in. */
  const FIRST_ENTRY_END := ENTRIES * PAGE

  /** The segments every process gets; the stack-side and heap-side ones that start empty are left out. */
  predicate InSegments(va: nat) {
    || 0xBFFFE000 <= va < 0xC07FE000
    || 0x08048000 <= va < 0x08072000
    || PAGE <= va < 3 * PAGE
  }

  lemma FreeFrame(s: set<Frame>)
    ensures exists f: Frame :: f !in s
  {
    var bound := Bound(s);
    assert bound !in s;
  }

  ghost function Bound(s: set<Frame>): (b: Frame)
    ensures forall f | f in s :: f < b
  {
    if s == {} then 0
    else
      var f :| f in s;
      var b := Bound(s - {f});
      assert s == (s - {f}) + {f};
      if f < b then b else f + 1
  }

  class Mmu {
    /** False for the code as written: a new directory entry is a local copy and is lost. */
    const writeBack: bool

    var currPid: Pid
    var tlb: map<nat, PteRef>
    var pageDirectories: Directories
    var numTlbMisses: nat
    var numPageFaults: nat
    var numSegmentationFaults: nat
    var mem: Physical
    ghost var flat: Flat

    /** The invariant in the middle of an access. */
    ghost predicate Sound()
      reads this
    {
      StateOk(writeBack, tlb, currPid, pageDirectories, mem, flat) && FirstLinked(pageDirectories, mem)
    }

    ghost predicate Valid()
      reads this
    {
      Sound() && ShownOk(tlb, mem)
    }

    /** The pages that only the cache leads to. */
    ghost function Seen(): map<nat, seq<Byte>>
      reads this
    {
      Shown(tlb, mem)
    }

    constructor (writeBack: bool)
      ensures Valid() && this.writeBack == writeBack && flat == map[] && pageDirectories == map[] && tlb == map[]
    {
      this.writeBack := writeBack;
      currPid, tlb, pageDirectories := 0, map[], map[];
      numTlbMisses, numPageFaults, numSegmentationFaults := 0, 0, 0;
      mem := Physical(map[], map[], map[], map[], map[]);
      flat := map[];
    }

    /** The kernel hands out a free frame, paging out any pages it likes first. */
    method AskKernelForFrame() returns (f: Frame)
      requires MemoryOk(pageDirectories, mem)
      modifies `mem
      ensures MemoryOk(pageDirectories, mem) && Extends(old(mem), mem) && Grown(old(mem), mem) && f !in mem.frames
      ensures forall x | x in old(mem).frames && !old(mem).frames[x].Page? :: x in mem.frames && mem.frames[x] == old(mem).frames[x]
      ensures forall x | x in mem.frames :: x in old(mem).frames
      ensures forall r | Present(mem, r) :: Present(old(mem), r)
      ensures forall r | r in mem.swap && r !in old(mem).swap :: Present(old(mem), r)
    {
      var pages := set r | r in mem.ptes && Present(mem, r) && IsTable(mem, r.table);
      assert {} <= pages;
      var victims :| victims <= pages;
      EvictKeepsFrames(mem, victims);
      EvictKeeps(pageDirectories, mem, victims);
      EvictKeepsContents(mem, victims);
      GrownByKeeping(pageDirectories, mem, Evict(mem, victims));
      mem := Evict(mem, victims);
      FreeFrame(mem.frames.Keys);
      f :| f !in mem.frames.Keys;
    }

    /** tlb_add_pte: the cache may forget any other entries. */
    method TlbAdd(vpn: nat, ref: PteRef)
      modifies `tlb
      ensures vpn in tlb && tlb[vpn] == ref
      ensures forall v | v in tlb && v != vpn :: v in old(tlb) && tlb[v] == old(tlb)[v]
    {
      assert {} <= tlb.Keys;
      var kept :| kept <= tlb.Keys;
      tlb := (map v | v in kept && v in tlb :: tlb[v])[vpn := ref];
    }

    method SwitchTo(pid: Pid)
      modifies `currPid, `tlb
      ensures currPid == pid && tlb == if old(currPid) == pid then old(tlb) else map[]
    {
      if currPid != pid {
        currPid := pid;
        tlb := map[];
      }
    }

    /** Find the page-table entry of a virtual page: cached, or by the walk on a miss. */
    method FindEntry(vpn: nat) returns (ref: PteRef)
      requires Sound() && currPid in pageDirectories
      modifies `tlb, `mem, `numTlbMisses, `numPageFaults
      ensures Sound() && IsTable(mem, ref.table) && ref.index < ENTRIES
      ensures if Backed(pageDirectories, mem, currPid, vpn) then ref == Walk(pageDirectories, mem, currPid, vpn) else IsOrphan(mem, ref.table)
      ensures vpn in tlb && tlb[vpn] == ref && (vpn in old(tlb) ==> tlb == old(tlb))
      ensures forall v | v in tlb && v != vpn :: v in old(tlb) && tlb[v] == old(tlb)[v]
      ensures Grown(old(mem), mem) && (!writeBack ==> mem.pdes == old(mem).pdes)
      ensures Backed(pageDirectories, mem, currPid, vpn) <==>
          old(Backed(pageDirectories, mem, currPid, vpn)) || writeBack
      ensures numTlbMisses == old(numTlbMisses) + if vpn in old(tlb) then 0 else 1
      ensures vpn in old(tlb) || old(Backed(pageDirectories, mem, currPid, vpn)) ==>
          mem == old(mem) && numPageFaults == old(numPageFaults)
      ensures !(vpn in old(tlb) || old(Backed(pageDirectories, mem, currPid, vpn))) ==>
          numPageFaults == old(numPageFaults) + 1 && !IsTable(old(mem), ref.table) && !Present(mem, ref) && ref !in mem.swap
    {
      if vpn in tlb {
        return tlb[vpn];
      }
      var directory := pageDirectories[currPid];
      var table: Frame;
      if (directory, vpn / ENTRIES) in mem.pdes {
        table := mem.pdes[(directory, vpn / ENTRIES)];
        WalkInjective(pageDirectories, mem, currPid, vpn, currPid, vpn);
      } else {
        table := MissingTable(vpn / ENTRIES);
        numPageFaults := numPageFaults + 1;
      }
      ref := PteRef(table, vpn % ENTRIES);
      TlbAdd(vpn, ref);
      numTlbMisses := numTlbMisses + 1;
    }

    /** The directory entry is absent: a zeroed frame becomes its table, but the entry filled in is a copy. */
    method MissingTable(index: nat) returns (f: Frame)
      requires Sound() && currPid in pageDirectories && (pageDirectories[currPid], index) !in mem.pdes
      modifies `mem
      ensures Sound() && !IsTable(old(mem), f)
      ensures forall i :: PteRef(f, i) !in mem.ptes && PteRef(f, i) !in mem.swap
      ensures if writeBack then f in mem.frames && mem.frames[f] == Table(currPid, index) else IsOrphan(mem, f)
      ensures mem.pdes == if writeBack then old(mem).pdes[(pageDirectories[currPid], index) := f] else old(mem).pdes
      ensures Grown(old(mem), mem)
    {
      hide MemoryOk, Remembers, Linked, TlbOk, Grown, Extends;
      f := AskKernelForFrame();
      ExtendsKeepsState(writeBack, tlb, currPid, pageDirectories, old(mem), mem, flat);
      ghost var before := mem;
      TableAddedKeeps(writeBack, tlb, currPid, pageDirectories, mem, flat, index, f);
      mem := NewTable(mem, f, if writeBack then Table(currPid, index) else Orphan);
      if writeBack {
        mem := LinkTable(pageDirectories, mem, currPid, index, f);
      }
      GrownTransitive(old(mem), before, mem);
    }

    /** Page the page in if it is not present. */
    method EnsurePresent(ref: PteRef, junk: seq<Byte>)
      requires Sound() && IsTable(mem, ref.table) && ref.index < ENTRIES && |junk| == PAGE
      modifies `mem, `numPageFaults
      ensures Sound() && Present(mem, ref) && IsTable(mem, ref.table) && Extends(old(mem), mem)
      ensures numPageFaults == old(numPageFaults) + if Present(old(mem), ref) then 0 else 1
      ensures Grown(old(mem), mem)
      ensures !Present(old(mem), ref) && ref !in old(mem).swap ==> mem.bytes[mem.ptes[ref].frame] == junk
    {
      if !Present(mem, ref) {
        var f := AskKernelForFrame();
        ExtendsKeepsState(writeBack, tlb, currPid, pageDirectories, old(mem), mem, flat);
        var before := mem;
        PageInKeeps(pageDirectories, before, ref, f, junk);
        mem := PageIn(before, ref, f, junk);
        GrownByKeeping(pageDirectories, before, mem);
        GrownTransitive(old(mem), before, mem);
        ExtendsKeepsState(writeBack, tlb, currPid, pageDirectories, before, mem, flat);
        numPageFaults := numPageFaults + 1;
      }
    }

    ghost predicate Cached(pid: Pid, vpn: nat)
      reads `currPid, `tlb
    {
      currPid == pid && vpn in tlb
    }

    /** The counters after an access: a miss unless the page was cached, and a fault for each of table and page that
        was not there. */
    twostate predicate Counted(va: nat, pid: Pid)
      reads `numTlbMisses, `numPageFaults
    {
      var vpn := va / PAGE;
      && numTlbMisses == old(numTlbMisses) + (if old(Cached(pid, vpn)) then 0 else 1)
      && numPageFaults == old(numPageFaults) +
           if old(Cached(pid, vpn)) then (if Present(old(mem), old(tlb)[vpn]) then 0 else 1)
           else if old(Backed(pageDirectories, mem, pid, vpn)) then
             (if Present(old(mem), Walk(old(pageDirectories), old(mem), pid, vpn)) then 0 else 1)
           else 2
    }

    /** What one access does to the pages that the cache alone leads to; the page accessed is cached afterwards. */
    twostate predicate SeenAfterAccess(va: nat, pid: Pid, data: seq<Byte>, junk: seq<Byte>)
      reads this
    {
      && va / PAGE in tlb && (va / PAGE in Seen() <==> !Backed(pageDirectories, mem, pid, va / PAGE))
      && AccessSeen(old(Seen()), old(currPid) == pid, old(Cached(pid, va / PAGE)), Seen(), va / PAGE, va % PAGE, data, junk)
    }

    /** The translation shared by reads and writes, up to the segment check. */
    method Translate(va: nat, pid: Pid, junk: seq<Byte>) returns (ref: PteRef)
      requires Valid() && pid in pageDirectories && |junk| == PAGE
      modifies `currPid, `tlb, `mem, `numTlbMisses, `numPageFaults
      ensures Valid() && currPid == pid && Present(mem, ref) && IsTable(mem, ref.table)
      ensures if Backed(pageDirectories, mem, pid, va / PAGE) then ref == Walk(pageDirectories, mem, pid, va / PAGE)
              else IsOrphan(mem, ref.table)
      ensures Backed(pageDirectories, mem, pid, va / PAGE) <==> old(Backed(pageDirectories, mem, pid, va / PAGE)) || writeBack
      ensures va / PAGE in tlb && tlb[va / PAGE] == ref
      ensures va / PAGE in Seen() ==> Seen()[va / PAGE] == PageOf(mem, ref)
      ensures SeenAfterAccess(va, pid, [], junk) && Counted(va, pid)
    {
      hide Remembers, Linked, DirectoriesOk, FirstLinked;
      SwitchTo(pid);
      ref := FindEntry(va / PAGE);
      ghost var found := mem;
      EnsurePresent(ref, junk);
      GrownTransitive(old(mem), found, mem);
      OrphanIsUnbacked(writeBack, tlb, pid, pageDirectories, mem, va / PAGE);
      PageIsFull(mem, ref);
      AccessShows(writeBack, old(tlb), old(currPid), pageDirectories, old(mem), flat, tlb, pid, mem, flat, va / PAGE);
      TranslatedSeen(old(Seen()), old(currPid) == pid, old(Cached(pid, va / PAGE)), Seen(), va / PAGE, va % PAGE, junk);
    }

    /** memcpy from the page, marking it as accessed. */
    method CopyOut(ref: PteRef, off: nat, n: nat) returns (buffer: seq<Byte>)
      requires Valid() && Present(mem, ref) && IsTable(mem, ref.table) && off + n <= PAGE
      modifies `mem
      ensures Valid() && Seen() == old(Seen()) && mem == Touch(old(mem), ref)
      ensures |PageOf(old(mem), ref)| == PAGE && buffer == PageOf(old(mem), ref)[off..off + n]
    {
      TouchKeeps(pageDirectories, mem, ref);
      TouchShows(tlb, mem, ref);
      mem := Touch(mem, ref);
      ExtendsKeepsState(writeBack, tlb, currPid, pageDirectories, old(mem), mem, flat);
      buffer := mem.bytes[mem.ptes[ref].frame][off..off + n];
    }

    /** memcpy into the page, marking it as accessed and dirty. */
    method CopyIn(ref: PteRef, va: nat, data: seq<Byte>)
      requires Valid() && currPid in pageDirectories && Present(mem, ref) && IsTable(mem, ref.table)
      requires |data| + va % PAGE <= PAGE && va / PAGE in tlb && tlb[va / PAGE] == ref
      modifies `mem, `flat
      ensures Valid() && flat == Overwrite(old(flat), currPid, va, data)
      ensures ShownMoves(old(Seen()), Seen(), va / PAGE, true) && Seen().Keys == old(Seen()).Keys
      ensures va / PAGE in Seen() ==> Seen()[va / PAGE] == Overlaid(old(Seen())[va / PAGE], va % PAGE, data)
      ensures old(mem).ptes[ref].frame in old(mem).bytes && |old(mem).bytes[old(mem).ptes[ref].frame]| == PAGE
      ensures mem == Store(old(mem), ref, va % PAGE, data)
    {
      hide StateOk, ShownOk, FirstLinked, Overwrite, Shown, ShownMoves;
      StoreReachesCached(writeBack, tlb, currPid, pageDirectories, mem, flat, va, data);
      StoreShows(writeBack, tlb, currPid, pageDirectories, mem, flat, va / PAGE, va % PAGE, data);
      mem := Store(mem, ref, va % PAGE, data);
      flat := Overwrite(flat, currPid, va, data);
    }

    /** As written, exactly the addresses under the first directory entry have a page table to walk to. */
    lemma BackedIsFirstEntry(pid: Pid, va: nat)
      requires Sound() && pid in pageDirectories && !writeBack
      ensures Backed(pageDirectories, mem, pid, va / PAGE) <==> va < FIRST_ENTRY_END
    {
    }

    lemma PageShowsFlat(ref: PteRef, va: nat, n: nat)
      requires Valid() && Present(mem, ref) && IsTable(mem, ref.table) && va % PAGE + n <= PAGE
      ensures |PageOf(mem, ref)| == PAGE
      ensures Backed(pageDirectories, mem, currPid, va / PAGE) && ref == Walk(pageDirectories, mem, currPid, va / PAGE) ==>
          ShowsFlat(flat, currPid, va, PageOf(mem, ref)[va % PAGE..va % PAGE + n])
    {
      if Backed(pageDirectories, mem, currPid, va / PAGE) && ref == Walk(pageDirectories, mem, currPid, va / PAGE) {
        ReadIsFlat(pageDirectories, mem, flat, currPid, va, n, ref);
      }
    }

    lemma SeenIsFull(vpn: nat)
      requires Valid() && vpn in Seen()
      ensures |Seen()[vpn]| == PAGE
    {
      PageIsFull(mem, tlb[vpn]);
    }

    /** As written, the cache shows exactly its entries above the first directory entry; with write-back, nothing. */
    lemma SeenAreHigh(vpn: nat)
      requires Valid()
      ensures vpn in Seen() <==> !writeBack && vpn in tlb && vpn >= ENTRIES
    {
      if vpn in tlb {
        OrphanIsUnbacked(writeBack, tlb, currPid, pageDirectories, mem, vpn);
        assert !writeBack ==> (Backed(pageDirectories, mem, currPid, vpn) <==> vpn < ENTRIES);
      }
    }

    /** mmu_read_from_virtual_address; None is a segmentation fault. `junk` is what a new frame happens to hold. */
    method Read(va: nat, pid: Pid, n: nat, junk: seq<Byte>) returns (buffer: Option<seq<Byte>>)
      requires Valid() && pid < MAX_PROCESS_ID && va < ADDRESSES && n + va % PAGE <= PAGE && |junk| == PAGE
      requires va != 0 ==> pid in pageDirectories
      modifies `currPid, `tlb, `mem, `numTlbMisses, `numPageFaults, `numSegmentationFaults
      ensures Valid() && (va != 0 ==> currPid == pid)
      ensures buffer.Some? <==> va != 0 && InSegments(va)
      ensures numSegmentationFaults == old(numSegmentationFaults) + if buffer.Some? then 0 else 1
      ensures if va == 0 then numPageFaults == old(numPageFaults) && numTlbMisses == old(numTlbMisses) else Counted(va, pid)
      ensures buffer.Some? ==> |buffer.value| == n
      ensures buffer.Some? && (writeBack || va < FIRST_ENTRY_END) ==> ShowsFlat(flat, pid, va, buffer.value)
      ensures buffer.Some? && !writeBack && va >= FIRST_ENTRY_END ==>
          va / PAGE in Seen() && |Seen()[va / PAGE]| == PAGE && buffer.value == Seen()[va / PAGE][va % PAGE..va % PAGE + n]
      ensures va != 0 ==> SeenAfterAccess(va, pid, [], junk)
      ensures va == 0 ==> Seen() == old(Seen()) && currPid == old(currPid)
    {
      hide StateOk, FirstLinked, ShownOk, Counted, AccessSeen;
      if va == 0 {
        numSegmentationFaults := numSegmentationFaults + 1;
        return None;
      }
      if !writeBack {
        BackedIsFirstEntry(pid, va);
      }
      var ref := Translate(va, pid, junk);
      if InSegments(va) {
        PageShowsFlat(ref, va, n);
        var bytes := CopyOut(ref, va % PAGE, n);
        buffer := Some(bytes);
      } else {
        numSegmentationFaults := numSegmentationFaults + 1;
        buffer := None;
      }
    }

    /** mmu_write_to_virtual_address; false is a segmentation fault. */
    method Write(va: nat, pid: Pid, data: seq<Byte>, junk: seq<Byte>) returns (ok: bool)
      requires Valid() && pid < MAX_PROCESS_ID && va < ADDRESSES && |data| + va % PAGE <= PAGE && |junk| == PAGE
      requires va != 0 ==> pid in pageDirectories
      modifies `currPid, `tlb, `mem, `numTlbMisses, `numPageFaults, `numSegmentationFaults, `flat
      ensures Valid() && (va != 0 ==> currPid == pid)
      ensures ok <==> va != 0 && InSegments(va)
      ensures numSegmentationFaults == old(numSegmentationFaults) + if ok then 0 else 1
      ensures if va == 0 then numPageFaults == old(numPageFaults) && numTlbMisses == old(numTlbMisses) else Counted(va, pid)
      ensures va != 0 ==> SeenAfterAccess(va, pid, if ok then data else [], junk)
      ensures va == 0 ==> Seen() == old(Seen()) && currPid == old(currPid)
      ensures flat == if ok then Overwrite(old(flat), pid, va, data) else old(flat)
    {
      hide StateOk, FirstLinked, ShownOk, Counted, AccessSeen, ShownMoves;
      if va == 0 {
        numSegmentationFaults := numSegmentationFaults + 1;
        return false;
      }
      var ref := Translate(va, pid, junk);
      if InSegments(va) {
        ghost var seen := Seen();
        CopyIn(ref, va, data);
        StoredSeen(old(Seen()), old(currPid) == pid, old(Cached(pid, va / PAGE)), seen, Seen(), va / PAGE, va % PAGE, data, junk);
        ok := true;
      } else {
        numSegmentationFaults := numSegmentationFaults + 1;
        ok := false;
      }
    }

    /** The test pages of a new process: entries 1 and 2 of its first table get frames. */
    method AddTestPage(ghost pid: Pid, table: Frame, index: nat, junk: seq<Byte>)
      requires MemoryOk(pageDirectories, mem) && |junk| == PAGE && index < ENTRIES
      requires IsTable(mem, table) && !Present(mem, PteRef(table, index))
      modifies `mem
      ensures MemoryOk(pageDirectories, mem) && Extends(old(mem), mem)
      ensures Present(mem, PteRef(table, index)) && Grown(old(mem), mem) && OthersTablesKept(old(mem), mem, pid)
      ensures forall r | Present(mem, r) :: Present(old(mem), r) || r == PteRef(table, index)
    {
      var f := AskKernelForFrame();
      var before := mem;
      PageInKeeps(pageDirectories, mem, PteRef(table, index), f, junk);
      mem := PageIn(mem, PteRef(table, index), f, junk);
      GrownByKeeping(pageDirectories, before, mem);
      GrownTransitive(old(mem), before, mem);
    }

    method AddTestPages(pid: Pid, table: Frame, junk: seq<Byte>)
      requires StateOk(writeBack, Surviving(writeBack, tlb, currPid, pid), currPid, pageDirectories, mem, flat)
      requires |junk| == PAGE && IsTable(mem, table) && forall i :: !Present(mem, PteRef(table, i))
      requires FirstLinked(pageDirectories, mem)
      modifies `mem
      ensures FirstLinked(pageDirectories, mem)
      ensures StateOk(writeBack, Surviving(writeBack, tlb, currPid, pid), currPid, pageDirectories, mem, flat)
      ensures mem.pdes == old(mem).pdes && Grown(old(mem), mem) && OthersTablesKept(old(mem), mem, pid)
      ensures |PageOf(mem, PteRef(table, 1))| == PAGE && Present(mem, PteRef(table, 2))
    {
      hide Surviving;
      AddTestPage(pid, table, 1, junk);
      ghost var before := mem;
      PageIsFull(mem, PteRef(table, 1));
      AddTestPage(pid, table, 2, junk);
      GrownTransitive(old(mem), before, mem);
      ExtendsKeepsState(writeBack, Surviving(writeBack, tlb, currPid, pid), currPid, pageDirectories, old(mem), mem, flat);
    }

    /** A zeroed frame becomes the directory of pid, replacing any it had. */
    method AddDirectory(pid: Pid)
      requires Sound()
      modifies `mem, `pageDirectories, `flat
      ensures StateOk(writeBack, Surviving(writeBack, tlb, currPid, pid), currPid, pageDirectories, mem, flat)
      ensures flat == Forget(old(flat), pid) && pid in pageDirectories
      ensures pageDirectories == old(pageDirectories)[pid := pageDirectories[pid]]
      ensures forall i :: (pageDirectories[pid], i) !in mem.pdes
      ensures FirstLinked(pageDirectories - {pid}, mem)
      ensures Grown(old(mem), mem) && OthersTablesKept(old(mem), mem, pid)
    {
      var d := AskKernelForFrame();
      ExtendsKeepsState(writeBack, tlb, currPid, pageDirectories, old(mem), mem, flat);
      NewDirectoryKeepsMemory(pageDirectories, mem, pid, d);
      NewDirectoryKeepsFlat(writeBack, pageDirectories, mem, flat, pid, d);
      NewDirectoryKeepsTlb(writeBack, tlb, currPid, pageDirectories, mem, flat, pid, d);
      NewDirectoryGrows(pageDirectories, mem, pid, d);
      GrownTransitive(old(mem), mem, NewDirectory(mem, pid, d));
      mem := NewDirectory(mem, pid, d);
      pageDirectories := pageDirectories[pid := d];
      flat := Forget(flat, pid);
    }

    /** The page table behind the first directory entry. */
    method AddFirstTable(pid: Pid) returns (t: Frame)
      requires StateOk(writeBack, Surviving(writeBack, tlb, currPid, pid), currPid, pageDirectories, mem, flat)
      requires pid in pageDirectories && forall k | k in flat :: k.0 != pid
      requires FirstLinked(pageDirectories - {pid}, mem)
      modifies `mem
      ensures FirstLinked(pageDirectories, mem)
      ensures StateOk(writeBack, Surviving(writeBack, tlb, currPid, pid), currPid, pageDirectories, mem, flat)
      ensures mem.pdes == old(mem).pdes[(pageDirectories[pid], 0) := t]
      ensures IsTable(mem, t) && !IsTable(old(mem), t) && forall i :: !Present(mem, PteRef(t, i))
      ensures Grown(old(mem), mem) && OthersTablesKept(old(mem), mem, pid)
    {
      ghost var kept := Surviving(writeBack, tlb, currPid, pid);
      t := AskKernelForFrame();
      ExtendsKeepsState(writeBack, kept, currPid, pageDirectories, old(mem), mem, flat);
      var before := mem;
      NewTableKeeps(pageDirectories, before, t, Table(pid, 0));
      mem := NewTable(before, t, Table(pid, 0));
      ExtendsKeepsState(writeBack, kept, currPid, pageDirectories, before, mem, flat);
      GrownByKeeping(pageDirectories, before, mem);
      GrownTransitive(old(mem), before, mem);
      LinkFirstKeeps(writeBack, kept, currPid, pageDirectories, mem, flat, pid, t);
      LinkGrows(pageDirectories, mem, pid, 0, t);
      GrownTransitive(old(mem), mem, LinkTable(pageDirectories, mem, pid, 0, t));
      mem := LinkTable(pageDirectories, mem, pid, 0, t);
      LinkFirstLinks(pageDirectories, old(mem), mem, pid, t);
    }

    /** The frames of a new process: directory, first table and two test pages. */
    method AddFrames(pid: Pid, junk: seq<Byte>)
      requires Sound() && |junk| == PAGE
      modifies `pageDirectories, `mem, `flat
      ensures pid in pageDirectories && pageDirectories == old(pageDirectories)[pid := pageDirectories[pid]]
      ensures flat == Forget(old(flat), pid) && FirstLinked(pageDirectories, mem)
      ensures StateOk(writeBack, Surviving(writeBack, tlb, currPid, pid), currPid, pageDirectories, mem, flat)
      ensures forall i :: (pageDirectories[pid], i) in mem.pdes <==> i == 0
      ensures !IsTable(old(mem), mem.pdes[(pageDirectories[pid], 0)])
      ensures Grown(old(mem), mem) && OthersTablesKept(old(mem), mem, pid) && HasTestPages(pid)
    {
      hide StateOk, Surviving, FirstLinked, PagesKept;
      AddDirectory(pid);
      ghost var before := mem;
      var t := AddFirstTable(pid);
      GrownTransitive(old(mem), before, mem);
      before := mem;
      AddTestPages(pid, t, junk);
      GrownTransitive(old(mem), before, mem);
    }

    /** The two test pages of a process exist: the second in a frame, the first there or paged out for the second. */
    ghost predicate HasTestPages(pid: Pid)
      reads `pageDirectories, `mem
    {
      && pid in pageDirectories && (pageDirectories[pid], 0) in mem.pdes
      && var t := mem.pdes[(pageDirectories[pid], 0)];
        |PageOf(mem, PteRef(t, 1))| == PAGE && Present(mem, PteRef(t, 2))
    }

    /** mmu_add_process. The cache is not flushed, so adding the current process again leaves it wrong
        exactly when it holds an entry that the new directory no longer justifies. */
    method AddProcess(pid: Pid, junk: seq<Byte>)
      requires Valid() && pid < MAX_PROCESS_ID && |junk| == PAGE
      modifies `pageDirectories, `mem, `flat
      ensures pageDirectories.Keys == old(pageDirectories).Keys + {pid} && flat == Forget(old(flat), pid)
      ensures StateOk(writeBack, Surviving(writeBack, tlb, currPid, pid), currPid, pageDirectories, mem, flat)
      ensures Valid() <==> Surviving(writeBack, tlb, currPid, pid) == tlb
      ensures HasTestPages(pid) && (Valid() ==> Seen() == old(Seen()))
    {
      hide StateOk, Surviving, FirstLinked, ShownOk, Grown, OthersTablesKept, HasTestPages, Shown;
      AddFrames(pid, junk);
      SurvivorsDecideAll(writeBack, tlb, currPid, old(pageDirectories), old(mem), old(flat), pageDirectories, mem, flat, pid);
    }

    /** The inner loop of mmu_remove_process and the return of the table itself. */
    method RemoveTable(t: Frame)
      modifies `mem
      ensures mem == FreeTable(old(mem), t)
    {
      FreedBelowStart(mem, t);
      for vpn2 := 0 to ENTRIES
        invariant mem == FreedBelow(old(mem), t, vpn2)
      {
        FreedBelowNext(old(mem), t, vpn2);
        var ref := PteRef(t, vpn2);
        if Present(mem, ref) {
          mem := mem.(frames := mem.frames - {mem.ptes[ref].frame});
        }
        mem := mem.(swap := mem.swap - {ref});
      }
      mem := mem.(frames := mem.frames - {t});
    }

    /** The tables of pid that the outer loop has not reached yet. */
    ghost predicate TablesLeft(pid: Pid, d: Frame, from: nat)
      reads `mem
    {
      && d in mem.frames && mem.frames[d] == Directory(pid)
      && forall j {:trigger (d, j) in mem.pdes} | j >= from && (d, j) in mem.pdes ::
           var t := mem.pdes[(d, j)]; t in mem.frames && mem.frames[t] == Table(pid, j)
    }

    /** One turn of the outer loop. */
    method RemoveEntry(pid: Pid, d: Frame, vpn1: nat, ghost kept: map<nat, PteRef>, ghost others: Directories, ghost rest: Flat)
      requires pid !in others && TablesLeft(pid, d, vpn1)
      requires StateOk(writeBack, kept, currPid, others, mem, rest)
      modifies `mem
      ensures TablesLeft(pid, d, vpn1 + 1) && StateOk(writeBack, kept, currPid, others, mem, rest)
      ensures mem.pdes == old(mem).pdes
      ensures mem == if (d, vpn1) in old(mem).pdes then FreeTable(old(mem), old(mem).pdes[(d, vpn1)]) else old(mem)
    {
      if (d, vpn1) in mem.pdes {
        var t := mem.pdes[(d, vpn1)];
        FreeTableKeeps(writeBack, kept, currPid, others, mem, rest, t, pid, vpn1);
        FreeTableKeepsMemory(others, mem, t, pid, vpn1);
        RemoveTable(t);
      }
    }

    /** The outer loop of mmu_remove_process and the return of the directory. */
    method RemoveTables(pid: Pid, d: Frame, ghost kept: map<nat, PteRef>, ghost others: Directories, ghost rest: Flat)
      requires pid !in others && TablesLeft(pid, d, 0)
      requires StateOk(writeBack, kept, currPid, others, mem, rest)
      modifies `mem
      ensures mem == FreeProcess(old(mem), d) && StateOk(writeBack, kept, currPid, others, mem, rest)
    {
      hide StateOk, WithoutTables, TablesOf, FreeTable;
      WithoutNoTables(mem, d);
      for vpn1 := 0 to ENTRIES
        invariant mem == WithoutTables(old(mem), TablesOf(old(mem), d, vpn1)) && TablesLeft(pid, d, vpn1)
        invariant StateOk(writeBack, kept, currPid, others, mem, rest) && mem.pdes == old(mem).pdes
      {
        WithoutNextTable(old(mem), d, vpn1);
        RemoveEntry(pid, d, vpn1, kept, others, rest);
      }
      FreeDirectoryKeeps(writeBack, kept, currPid, others, mem, rest, pid, d);
      mem := mem.(frames := mem.frames - {d});
    }

    lemma TablesToFree(pid: Pid)
      requires Sound() && pid in pageDirectories
      ensures MemoryOk(pageDirectories, mem) && TablesLeft(pid, pageDirectories[pid], 0)
    {
    }

    /** mmu_remove_process: all frames and saved pages of the process are given back, nobody else's. */
    method RemoveProcess(pid: Pid)
      requires Valid() && pid < MAX_PROCESS_ID
      modifies `pageDirectories, `tlb, `mem, `flat
      ensures Valid() && pageDirectories == old(pageDirectories) - {pid} && flat == Forget(old(flat), pid)
      ensures mem == if pid in old(pageDirectories) then FreeProcess(old(mem), old(pageDirectories)[pid]) else old(mem)
      ensures Seen() == if currPid == pid then map[] else old(Seen())
    {
      hide StateOk, ShownOk, FreeProcess;
      ghost var others, rest := pageDirectories - {pid}, Forget(flat, pid);
      ghost var kept := if currPid == pid then map[] else tlb;
      DropDirectoryKeeps(writeBack, tlb, currPid, pageDirectories, mem, flat, pid);
      if pid in pageDirectories {
        var d := pageDirectories[pid];
        TablesToFree(pid);
        FreeProcessShows(pageDirectories, mem, pid, tlb);
        EntriesStay(mem, d);
        RemoveTables(pid, d, kept, others, rest);
      }
      pageDirectories := pageDirectories - {pid};
      flat := rest;
      if currPid == pid {
        tlb := map[];
        NothingShown(mem);
      }
    }
  }

  /** A write, an access by another process, and a read back: the byte survives for every content of the
      frames handed out exactly when its directory entry is (or gets) stored in the directory. */
  method WriteSwitchRead(m: Mmu, va: nat, pid: Pid, other: Pid, b: Byte, junk: seq<Byte>) returns (r: Option<seq<Byte>>)
    requires m.Valid() && pid != other && pid < MAX_PROCESS_ID && other < MAX_PROCESS_ID
    requires pid in m.pageDirectories && other in m.pageDirectories
    requires va < ADDRESSES && InSegments(va) && |junk| == PAGE
    modifies m
    ensures m.Valid() && r == Some([if m.writeBack || va < FIRST_ENTRY_END then b else junk[va % PAGE]])
  {
    hide StateOk, FirstLinked, ShownOk, AccessSeen, Overwrite, ShowsFlat;
    var ok := m.Write(va, pid, [b], junk);
    var _ := m.Read(PAGE, other, 1, junk);
    ghost var seen := m.Seen();
    r := m.Read(va, pid, 1, junk);
    m.SeenAreHigh(va / PAGE);
    if m.writeBack || va < FIRST_ENTRY_END {
      ShowsOverwritten(old(m.flat), pid, va, [b], r.value);
    } else {
      UncachedShowsFrame(seen, false, m.Seen(), va / PAGE, va % PAGE, junk);
    }
    assert r.value == [r.value[0]];
  }

  /** A write and at once a read by the same process, anywhere in its segments: the page is still cached, so the bytes
      come back whether or not directory entries are stored back. */
  method WriteRead(m: Mmu, va: nat, pid: Pid, data: seq<Byte>, junk: seq<Byte>, junk': seq<Byte>) returns (r: Option<seq<Byte>>)
    requires m.Valid() && pid < MAX_PROCESS_ID && pid in m.pageDirectories
    requires va < ADDRESSES && InSegments(va) && |data| + va % PAGE <= PAGE && |junk| == |junk'| == PAGE
    modifies m
    ensures m.Valid() && r == Some(data)
  {
    hide StateOk, FirstLinked, ShownOk, AccessSeen, Overlaid, ShowsFlat, Overwrite;
    if va / PAGE in m.Seen() {
      m.SeenIsFull(va / PAGE);
    }
    var ok := m.Write(va, pid, data, junk);
    m.SeenAreHigh(va / PAGE);
    ghost var seen := m.Seen();
    r := m.Read(va, pid, |data|, junk');
    if !m.writeBack && va >= FIRST_ENTRY_END {
      SeenThenShown(old(m.Seen()), old(m.currPid) == pid, old(m.Cached(pid, va / PAGE)), seen, m.Seen(), va / PAGE, va % PAGE, data, junk, junk');
    } else {
      ShowsOverwritten(old(m.flat), pid, va, data, r.value);
    }
  }

  /** Adding a process, reading one of its test pages and adding it again leaves the cache wrong: it still holds the
      entry of the old table. */
  method AddTwice(writeBack: bool, pid: Pid, junk: seq<Byte>) returns (m: Mmu)
    requires pid < MAX_PROCESS_ID && |junk| == PAGE
    ensures !m.Valid() && pid in m.pageDirectories
  {
    m := new Mmu(writeBack);
    m.AddProcess(pid, junk);
    var _ := m.Read(PAGE, pid, 1, junk);
    m.AddProcess(pid, junk);
    assert 1 in m.tlb && 1 !in Surviving(m.writeBack, m.tlb, m.currPid, pid);
  }
}
