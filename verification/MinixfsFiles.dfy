/** minixfs_write and minixfs_read over the block store. */
module MinixfsFiles {
  import opened Division
  import opened Minixfs

  /** Byte pos of file p. */
  ghost function ByteAt(g: Geometry, d: Disk, p: int, pos: nat): byte
    requires g.block > 0
  {
    Cell(g, d, p, pos / g.block, pos % g.block)
  }

  /** There is a block for byte pos of file p. */
  ghost predicate Backed(g: Geometry, d: Disk, p: int, pos: nat)
    requires g.block > 0
  {
    Assigned(g, d, p, pos / g.block)
  }

  ghost predicate BackedFrom(g: Geometry, d: Disk, p: int, lo: nat, hi: nat)
    requires g.block > 0
  {
    forall pos: nat | lo <= pos < hi :: Backed(g, d, p, pos)
  }

  /** File p has these bytes from offset off on. */
  ghost predicate HasBytes(g: Geometry, d: Disk, p: int, off: nat, bytes: seq<byte>)
    requires g.block > 0
  {
    forall pos: nat {:trigger ByteAt(g, d, p, pos)} | off <= pos < off + |bytes| :: ByteAt(g, d, p, pos) == bytes[pos - off]
  }

  ghost predicate BlocksAssigned(g: Geometry, d: Disk, p: int, count: int) {
    forall b | 0 <= b < count :: Assigned(g, d, p, b)
  }

  /** The write left every stored byte outside its range alone, and all other files' sizes. */
  ghost predicate OthersKept(g: Geometry, d: Disk, d': Disk, p: int, off: nat, n: nat)
    requires g.block > 0
  {
    && (forall q | q in d.inodes && q != p :: q in d'.inodes && d'.inodes[q].size == d.inodes[q].size)
    && forall q, pos: nat {:trigger ByteAt(g, d', q, pos)} {:trigger ByteAt(g, d, q, pos)} |
           Backed(g, d, q, pos) && !(q == p && off <= pos < off + n) ::
         Backed(g, d', q, pos) && ByteAt(g, d', q, pos) == ByteAt(g, d, q, pos)
  }

  /** What a write has stored is at its offset, in terms of positions. */
  lemma WrittenBytes(g: Geometry, d0: Disk, d1: Disk, d: Disk, owner: map<int, Slot>, p: int, off: nat, buf: seq<byte>)
    requires DiskOk(g, d0, owner) && Extends(g, d0, d1) && Written(g, d1, d, p, off, buf, |buf|)
    ensures HasBytes(g, d, p, off, buf)
    ensures OthersKept(g, d0, d, p, off, |buf|)
  {
    forall pos: nat | off <= pos < off + |buf|
      ensures ByteAt(g, d, p, pos) == buf[pos - off]
    {
      var b, o := pos / g.block, pos % g.block;
      assert b * g.block + o == pos;
      assert Cell(g, d, p, b, o) == buf[b * g.block + o - off];
    }
    forall q, pos: nat | Backed(g, d0, q, pos) && !(q == p && off <= pos < off + |buf|)
      ensures Backed(g, d, q, pos) && ByteAt(g, d, q, pos) == ByteAt(g, d0, q, pos)
    {
      var b, o := pos / g.block, pos % g.block;
      assert b * g.block + o == pos;
      ExtendsKeepsCells(g, d0, d1, owner, q, b, o);
      assert Cell(g, d, q, b, o) == Cell(g, d1, q, b, o);
    }
  }

  lemma CoveredByCount(g: Geometry, b: int, size: nat)
    requires g.block > 0 && 0 <= b && b * g.block < size
    ensures b < size / g.block + 1
  {
    if b >= size / g.block + 1 {
      NextMultiple(g.block, size / g.block, b);
    }
  }

  lemma WrittenNothing(g: Geometry, d: Disk, p: int, off: nat, buf: seq<byte>)
    ensures Written(g, d, d, p, off, buf, 0)
  {
  }

  /** The next block of a write is among those the file was given. */
  lemma BlockInCount(g: Geometry, d0: Disk, d: Disk, p: int, off: nat, buf: seq<byte>, at: nat, bnum: nat, boff: nat)
    requires g.block > 0 && at < |buf| && bnum * g.block + boff == off + at
    requires BlocksAssigned(g, d0, p, (off + |buf|) / g.block + 1) && Written(g, d0, d, p, off, buf, at)
    ensures Assigned(g, d, p, bnum)
  {
    CoveredByCount(g, bnum, off + |buf|);
    assert Assigned(g, d0, p, bnum);
    assert BlockNo(g, d, p, bnum) == BlockNo(g, d0, p, bnum);
  }

  lemma StretchPosition(g: Geometry, from: nat, bnum: nat, boff: nat, pos: nat)
    requires g.block > 0 && from <= pos && boff + (pos - from) < g.block && bnum * g.block + boff == from
    ensures pos / g.block == bnum && pos % g.block == boff + (pos - from)
  {
    var b, o := pos / g.block, pos % g.block;
    assert b * g.block + o == pos;
    SamePosition(g.block, b, o, bnum, boff + (pos - from));
  }

  /** The part of a block that a read copies out is the file's bytes at these positions. */
  lemma StretchBytes(g: Geometry, d: Disk, owner: map<int, Slot>, p: int, off: nat, bytes: seq<byte>, bnum: nat, boff: nat, n: nat)
    requires DiskOk(g, d, owner) && Assigned(g, d, p, bnum) && boff + n <= g.block && bnum * g.block + boff == off + |bytes|
    requires BackedFrom(g, d, p, off, off + |bytes|) && HasBytes(g, d, p, off, bytes)
    ensures BlockOk(g, d, owner, p, bnum)
    ensures var bytes' := bytes + d.data[BlockNo(g, d, p, bnum)].bytes[boff..boff + n];
      BackedFrom(g, d, p, off, off + |bytes'|) && HasBytes(g, d, p, off, bytes')
  {
    assert BlockOk(g, d, owner, p, bnum);
    forall pos: nat | off + |bytes| <= pos < off + |bytes| + n
      ensures Backed(g, d, p, pos)
      ensures ByteAt(g, d, p, pos) == d.data[BlockNo(g, d, p, bnum)].bytes[boff + (pos - off - |bytes|)]
    {
      StretchPosition(g, off + |bytes|, bnum, boff, pos);
    }
  }

  /** Setting the size to the end of the write keeps the disk sound, since the blocks up to there exist. */
  lemma SetSizeKeeps(g: Geometry, d0: Disk, d: Disk, owner: map<int, Slot>, p: int, off: nat, buf: seq<byte>)
    requires DiskOk(g, d, owner) && p in d.inodes && BlocksAssigned(g, d0, p, (off + |buf|) / g.block + 1)
    requires Written(g, d0, d, p, off, buf, |buf|)
    ensures var d' := d.(inodes := d.inodes[p := d.inodes[p].(size := off + |buf|)]);
      && DiskOk(g, d', owner)
      && forall q, pos: nat {:trigger ByteAt(g, d', q, pos)} {:trigger Backed(g, d', q, pos)} ::
           ByteAt(g, d', q, pos) == ByteAt(g, d, q, pos) && Backed(g, d', q, pos) == Backed(g, d, q, pos)
  {
    var d' := d.(inodes := d.inodes[p := d.inodes[p].(size := off + |buf|)]);
    forall q, c
      ensures BlockNo(g, d', q, c) == BlockNo(g, d, q, c) && BlockOk(g, d', owner, q, c)
    {
      assert BlockOk(g, d, owner, q, c);
    }
    forall q | q in d'.inodes
      ensures InodeOk(g, d', owner, q)
    {
      assert InodeOk(g, d, owner, q);
    }
    forall q, c | q in d'.inodes && 0 <= c && c * g.block < d'.inodes[q].size
      ensures Assigned(g, d', q, c)
    {
      if q == p {
        CoveredByCount(g, c, off + |buf|);
        assert Assigned(g, d0, p, c);
        assert BlockNo(g, d, p, c) == BlockNo(g, d0, p, c);
      } else {
        assert Assigned(g, d, q, c);
      }
    }
  }

  lemma BackedUpToSize(g: Geometry, d: Disk, owner: map<int, Slot>, p: int, pos: nat)
    requires DiskOk(g, d, owner) && p in d.inodes
    ensures pos < d.inodes[p].size ==> Backed(g, d, p, pos)
  {
    var b := pos / g.block;
    assert b * g.block + pos % g.block == pos;
  }

  lemma OneBlockOn(m: nat, b: nat)
    ensures (b + 1) * m == b * m + m
  {
  }

  lemma Located(m: nat, pos: nat)
    requires m > 0
    ensures pos / m * m + pos % m == pos && pos / m >= 0 && 0 <= pos % m < m
  {
  }

  lemma NoBytes(g: Geometry, d: Disk, p: int, off: nat)
    requires g.block > 0
    ensures BackedFrom(g, d, p, off, off) && HasBytes(g, d, p, off, [])
  {
  }

  lemma BlockIsFull(g: Geometry, d: Disk, owner: map<int, Slot>, p: int, b: nat)
    requires DiskOk(g, d, owner) && Assigned(g, d, p, b)
    ensures BlockNo(g, d, p, b) in d.data && d.data[BlockNo(g, d, p, b)].Bytes? && |d.data[BlockNo(g, d, p, b)].bytes| == g.block
  {
    assert BlockOk(g, d, owner, p, b);
  }

  /** An unassigned block within the range of a read lies past the end of the file. */
  lemma WildRead(g: Geometry, d: Disk, owner: map<int, Slot>, p: int, off: nat, pos: nat, end: nat, bnum: nat, boff: nat)
    requires DiskOk(g, d, owner) && p in d.inodes && !Assigned(g, d, p, bnum)
    requires boff < g.block && bnum * g.block + boff == pos && off <= pos < end
    ensures pos >= d.inodes[p].size && !BackedFrom(g, d, p, off, end)
  {
    StretchPosition(g, pos, bnum, boff, pos);
    BackedUpToSize(g, d, owner, p, pos);
    assert !Backed(g, d, p, pos);
  }

  /** How many bytes a read asks for. */
  function Wanted(size: nat, count: nat, off: nat): nat {
    if off <= size && size - off < count then size - off else count
  }

  /** What minixfs_read gives back; Wild is a block address made from an unassigned number. */
  datatype ReadResult = NoEntry | Wild | Got(bytes: seq<byte>)

  class FileSystem {
    const g: Geometry
    const dataNumber: nat
    var disk: Disk
    ghost var owner: map<int, Slot>

    ghost predicate Valid()
      reads this
    {
      DiskOk(g, disk, owner)
    }

    constructor (g: Geometry, dataNumber: nat)
      requires g.block > 0
      ensures Valid() && this.g == g && this.dataNumber == dataNumber && disk == Disk(map[], map[])
    {
      this.g, this.dataNumber := g, dataNumber;
      disk, owner := Disk(map[], map[]), map[];
    }

    ghost predicate Full()
      reads this
    {
      forall n | 0 <= n < dataNumber :: n in disk.data
    }

    method FirstUnused() returns (n: int)
      ensures n == UNASSIGNED <==> Full()
      ensures n != UNASSIGNED ==> 0 <= n < dataNumber && n !in disk.data
    {
      n := 0;
      while n < dataNumber
        invariant 0 <= n <= dataNumber && forall m | 0 <= m < n :: m in disk.data
      {
        if n !in disk.data {
          return;
        }
        n := n + 1;
      }
      n := UNASSIGNED;
    }

    /** A block for place b of file p, if one is left; the indirect block comes first. */
    method AssignBlock(p: int, b: nat) returns (ok: bool)
      requires Valid() && p in disk.inodes && b < g.direct + g.indirect
      modifies this
      ensures Valid() && Extends(g, old(disk), disk) && disk.inodes.Keys == old(disk.inodes.Keys)
      ensures if ok then Assigned(g, disk, p, b) else Full()
    {
      if Assigned(g, disk, p, b) {
        return true;
      }
      if b >= g.direct && disk.inodes[p].indirect == UNASSIGNED {
        var t := FirstUnused();
        if t == UNASSIGNED {
          return false;
        }
        AddTableKeeps(g, disk, owner, p, t);
        disk, owner := AddTable(g, disk, p, t), owner[t := Slot(p, -1)];
      }
      var n := FirstUnused();
      if n == UNASSIGNED {
        return false;
      }
      var bytes := seq(g.block, _ => 0);
      AddBlockKeeps(g, disk, owner, p, b, n, bytes);
      ExtendsTransitive(g, old(disk), disk, AddBlock(g, disk, p, b, n, bytes));
      disk, owner := AddBlock(g, disk, p, b, n, bytes), owner[n := Slot(p, b)];
      return true;
    }

    /** The contract of minixfs_min_blockcount: blocks 0 to count - 1 of the file, or failure for want of room. */
    method MinBlockcount(p: int, count: nat) returns (ok: bool)
      requires Valid()
      modifies this
      ensures Valid() && Extends(g, old(disk), disk) && disk.inodes.Keys <= old(disk.inodes.Keys) + {p}
      ensures p !in old(disk.inodes) && p in disk.inodes ==> disk.inodes[p].size == 0
      ensures ok ==> count <= g.direct + g.indirect && p in disk.inodes && BlocksAssigned(g, disk, p, count)
      ensures !ok ==> count > g.direct + g.indirect || Full()
    {
      if count > g.direct + g.indirect {
        return false;
      }
      if p !in disk.inodes {
        AddInodeKeeps(g, disk, owner, p);
        disk := AddInode(g, disk, p);
      }
      var b := 0;
      while b < count
        invariant 0 <= b <= count && Valid() && Extends(g, old(disk), disk) && BlocksAssigned(g, disk, p, b)
        invariant disk.inodes.Keys == old(disk.inodes.Keys) + {p}
        invariant p !in old(disk.inodes) ==> disk.inodes[p].size == 0
      {
        ghost var before := disk;
        ok := AssignBlock(p, b);
        ExtendsTransitive(g, old(disk), before, disk);
        if !ok {
          return;
        }
        forall c | 0 <= c < b
          ensures Assigned(g, disk, p, c)
        {
          assert Assigned(g, before, p, c) && BlockNo(g, disk, p, c) == BlockNo(g, before, p, c);
        }
        b := b + 1;
      }
      return true;
    }

    /** The loop of minixfs_write. */
    method WriteBlocks(p: int, buf: seq<byte>, off: nat)
      requires Valid() && p in disk.inodes && BlocksAssigned(g, disk, p, (off + |buf|) / g.block + 1)
      modifies `disk
      ensures Valid() && Written(g, old(disk), disk, p, off, buf, |buf|)
    {
      assert g.block > 0;
      hide DiskOk, Written, BlockOk;
      var unwritten := |buf|;
      var bnum, boff := off / g.block, off % g.block;
      var at := 0;
      WrittenNothing(g, disk, p, off, buf);
      while unwritten > 0
        invariant 0 <= unwritten && at == |buf| - unwritten && 0 <= boff < g.block && 0 <= bnum
        invariant unwritten > 0 ==> bnum * g.block + boff == off + at
        invariant Valid() && disk.inodes == old(disk).inodes
        invariant Written(g, old(disk), disk, p, off, buf, at)
      {
        var n := if g.block - boff < unwritten then g.block - boff else unwritten;
        BlockInCount(g, old(disk), disk, p, off, buf, at, bnum, boff);
        CopyKeepsDisk(g, disk, owner, p, bnum, boff, buf[at..at + n]);
        CopyExtendsWritten(g, old(disk), disk, owner, p, off, buf, at, bnum, boff, n);
        var block := BlockNo(g, disk, p, bnum);
        disk := disk.(data := disk.data[block := Bytes(Patched(disk.data[block].bytes, boff, buf[at..at + n]))]);
        at := at + n;
        unwritten := unwritten - n;
        bnum := bnum + 1;
        boff := 0;
      }
    }

    /** minixfs_write. One block more than needed is asked for when the write ends on a block boundary. */
    method Write(p: int, buf: seq<byte>, off: nat) returns (written: int, newOff: nat)
      requires Valid()
      modifies this
      ensures Valid() && written in {-1, |buf|}
      ensures (off + |buf|) / g.block + 1 > g.direct + g.indirect ==> written == -1
      ensures written == -1 ==> (off + |buf|) / g.block + 1 > g.direct + g.indirect || Full()
      ensures written == -1 ==> newOff == off && Extends(g, old(disk), disk)
      ensures written == |buf| ==> p in disk.inodes && disk.inodes[p].size == newOff == off + |buf|
      ensures written == |buf| ==> HasBytes(g, disk, p, off, buf)
      ensures written == |buf| ==> OthersKept(g, old(disk), disk, p, off, |buf|)
    {
      var blockCount := (off + |buf|) / g.block + 1;
      var ok := MinBlockcount(p, blockCount);
      if !ok {
        return -1, off;
      }
      ghost var ready := disk;
      WriteBlocks(p, buf, off);
      WrittenBytes(g, old(disk), ready, disk, old(owner), p, off, buf);
      newOff := off + |buf|;
      written := |buf|;
      SetSizeKeeps(g, ready, disk, owner, p, off, buf);
      disk := disk.(inodes := disk.inodes[p := disk.inodes[p].(size := newOff)]);
    }

    /** minixfs_read. The unsigned difference size - off wraps around when the offset lies past the end, and
        the request is then not cut short. */
    method Read(p: int, count: nat, off: nat) returns (r: ReadResult, newOff: nat)
      requires Valid()
      ensures r == NoEntry <==> p !in disk.inodes
      ensures p in disk.inodes && off <= disk.inodes[p].size ==> r.Got?
      ensures p in disk.inodes ==> var want := Wanted(disk.inodes[p].size, count, off);
        && (r.Got? <==> BackedFrom(g, disk, p, off, off + want))
        && (r.Got? ==> |r.bytes| == want && newOff == off + want && HasBytes(g, disk, p, off, r.bytes))
    {
      assert g.block > 0;
      hide DiskOk, BlockOk, BackedFrom, HasBytes;
      if p !in disk.inodes {
        return NoEntry, off;
      }
      NoBytes(g, disk, p, off);
      Located(g.block, off);
      var size := disk.inodes[p].size;
      var unread := Wanted(size, count, off);
      ghost var want := unread;
      var bnum, boff := off / g.block, off % g.block;
      var buf := [];
      while unread > 0
        invariant 0 <= unread && |buf| == want - unread && 0 <= boff < g.block && 0 <= bnum
        invariant unread > 0 ==> bnum * g.block + boff == off + |buf|
        invariant BackedFrom(g, disk, p, off, off + |buf|) && HasBytes(g, disk, p, off, buf)
      {
        var n := if g.block - boff < unread then g.block - boff else unread;
        if !Assigned(g, disk, p, bnum) {
          WildRead(g, disk, owner, p, off, off + |buf|, off + want, bnum, boff);
          return Wild, off;
        }
        StretchBytes(g, disk, owner, p, off, buf, bnum, boff, n);
        BlockIsFull(g, disk, owner, p, bnum);
        OneBlockOn(g.block, bnum);
        buf := buf + disk.data[BlockNo(g, disk, p, bnum)].bytes[boff..boff + n];
        unread := unread - n;
        bnum := bnum + 1;
        boff := 0;
      }
      return Got(buf), off + |buf|;
    }
  }

  lemma SameBytes(g: Geometry, d: Disk, p: int, off: nat, a: seq<byte>, b: seq<byte>)
    requires g.block > 0 && |a| == |b| && HasBytes(g, d, p, off, a) && HasBytes(g, d, p, off, b)
    ensures a == b
  {
    forall i | 0 <= i < |a|
      ensures a[i] == b[i]
    {
      assert ByteAt(g, d, p, off + i) == a[i];
    }
  }

  /** A write followed by a read at the same offset gives back the bytes written, whatever blocks they cross. */
  method WriteThenRead(fs: FileSystem, p: int, buf: seq<byte>, off: nat) returns (written: int, r: ReadResult)
    requires fs.Valid()
    modifies fs
    ensures fs.Valid() && (written == |buf| ==> r == Got(buf))
  {
    var at;
    written, at := fs.Write(p, buf, off);
    r, at := fs.Read(p, |buf|, off);
    if written == |buf| {
      SameBytes(fs.g, fs.disk, p, off, r.bytes, buf);
    }
  }

  /** Reading another file gives the same before and after a write. */
  method ReadOtherAcrossWrite(fs: FileSystem, q: int, count: nat, at: nat, p: int, buf: seq<byte>, off: nat)
    returns (written: int, before: ReadResult, after: ReadResult)
    requires fs.Valid() && q != p
    modifies fs
    ensures fs.Valid() && (written == |buf| && before.Got? ==> after == before)
  {
    var end;
    before, end := fs.Read(q, count, at);
    ghost var d := fs.disk;
    written, end := fs.Write(p, buf, off);
    after, end := fs.Read(q, count, at);
    if written == |buf| && before.Got? {
      BytesKept(fs.g, d, fs.disk, p, off, |buf|, q, at, before.bytes);
      SameBytes(fs.g, fs.disk, q, at, before.bytes, after.bytes);
    }
  }

  lemma BytesKept(g: Geometry, d: Disk, d': Disk, p: int, off: nat, n: nat, q: int, at: nat, bytes: seq<byte>)
    requires g.block > 0 && OthersKept(g, d, d', p, off, n) && q != p
    requires BackedFrom(g, d, q, at, at + |bytes|) && HasBytes(g, d, q, at, bytes)
    ensures BackedFrom(g, d', q, at, at + |bytes|) && HasBytes(g, d', q, at, bytes)
  {
    forall pos: nat | at <= pos < at + |bytes|
      ensures Backed(g, d', q, pos) && ByteAt(g, d', q, pos) == bytes[pos - at]
    {
      assert Backed(g, d, q, pos) && ByteAt(g, d, q, pos) == bytes[pos - at];
    }
  }

  lemma ReadLength(size: nat, count: nat, off: nat)
    ensures Wanted(size, count, off) <= (if off < size then size - off else 0) <==> off <= size || count == 0
  {
  }

  /** A read gives bytes of the file, and no others, exactly when it starts within the file or asks for nothing:
      past the end it gives as much as was asked for of what lies there, or goes through an unassigned block. */
  method ReadStopsAtEnd(fs: FileSystem, p: int, count: nat, off: nat) returns (r: ReadResult)
    requires fs.Valid() && p in fs.disk.inodes
    ensures r.Got? && (r.bytes == [] || off + |r.bytes| <= fs.disk.inodes[p].size)
        <==> off <= fs.disk.inodes[p].size || count == 0
    ensures off > fs.disk.inodes[p].size && r.Got? ==> |r.bytes| == count
    ensures r.Got? ==> HasBytes(fs.g, fs.disk, p, off, r.bytes)
  {
    ReadLength(fs.disk.inodes[p].size, count, off);
    var end;
    r, end := fs.Read(p, count, off);
  }

  /** It happens: a file of four bytes is cut to one by writing its first byte, and a read from offset 2 on still gives
      the two bytes that are no longer part of it. */
  method ReadsBehindTheEnd(fs: FileSystem, p: int) returns (ok: bool, r: ReadResult)
    requires fs.Valid()
    modifies fs
    ensures ok ==> p in fs.disk.inodes && fs.disk.inodes[p].size == 1 && r == Got([3, 4])
    ensures !ok ==> 4 / fs.g.block + 1 > fs.g.direct + fs.g.indirect || fs.Full()
  {
    var first, second, end;
    first, end := fs.Write(p, [1, 2, 3, 4], 0);
    ok, r := false, NoEntry;
    if first == 4 {
      ghost var d := fs.disk;
      BackedUpToSize(fs.g, d, fs.owner, p, 2);
      BackedUpToSize(fs.g, d, fs.owner, p, 3);
      assert ByteAt(fs.g, d, p, 2) == 3 && ByteAt(fs.g, d, p, 3) == 4;
      hide HasBytes, DiskOk, Extends;
      second, end := fs.Write(p, [5], 0);
      if second == 1 {
        r, end := fs.Read(p, 2, 2);
        ok := true;
        BytesBehind(fs.g, d, fs.disk, p, r);
      }
    }
  }

  lemma BytesBehind(g: Geometry, d: Disk, d': Disk, p: int, r: ReadResult)
    requires g.block > 0 && OthersKept(g, d, d', p, 0, 1) && Backed(g, d, p, 2) && Backed(g, d, p, 3)
    requires ByteAt(g, d, p, 2) == 3 && ByteAt(g, d, p, 3) == 4
    requires r.Got? <==> BackedFrom(g, d', p, 2, 4)
    requires r.Got? ==> |r.bytes| == 2 && HasBytes(g, d', p, 2, r.bytes)
    ensures r == Got([3, 4])
  {
    hide ByteAt, Backed;
    assert ByteAt(g, d', p, 2) == 3 && ByteAt(g, d', p, 3) == 4;
    assert Backed(g, d', p, 2) && Backed(g, d', p, 3);
  }

  /** The bytes a write at off into this file should leave: the new ones, and the old ones beyond them. */
  function Overlaid(bytes: seq<byte>, off: nat, b: seq<byte>): seq<byte>
    requires off <= |bytes|
  {
    bytes[..off] + b + if off + |b| < |bytes| then bytes[off + |b|..] else []
  }

  /** A write sets the size to where it ends. So for any file, offset and data the old length stays readable exactly
      when the write reaches that far, and a write that starts inside the file then leaves the patched contents, and
      otherwise loses the tail. */
  method WriteInside(fs: FileSystem, p: int, b: seq<byte>, off: nat) returns (ok: bool, before: ReadResult, after: ReadResult)
    requires fs.Valid() && p in fs.disk.inodes
    modifies fs
    ensures fs.Valid() && before.Got? && |before.bytes| == old(fs.disk.inodes[p].size)
    ensures ok ==> after.Got? && (|after.bytes| >= |before.bytes| <==> off + |b| >= |before.bytes|)
    ensures ok && off <= |before.bytes| ==> after == Got(before.bytes[..off] + b)
    ensures ok && off <= |before.bytes| ==> (after == Got(Overlaid(before.bytes, off, b)) <==> off + |b| >= |before.bytes|)
  {
    var size := fs.disk.inodes[p].size;
    var end;
    before, end := fs.Read(p, size, 0);
    ghost var g, d := fs.g, fs.disk;
    var written;
    written, end := fs.Write(p, b, off);
    ok := written == |b|;
    after, end := fs.Read(p, size + off + |b|, 0);
    if ok && off <= size {
      StartKept(g, d, fs.disk, p, off, |b|, before.bytes);
      StartThenWrite(g, fs.disk, p, before.bytes[..off], b);
      SameBytes(g, fs.disk, p, 0, after.bytes, before.bytes[..off] + b);
      assert off + |b| < size ==> |Overlaid(before.bytes, off, b)| == size;
    }
  }

  lemma StartKept(g: Geometry, d: Disk, d': Disk, p: int, off: nat, n: nat, bytes: seq<byte>)
    requires g.block > 0 && OthersKept(g, d, d', p, off, n) && off <= |bytes|
    requires BackedFrom(g, d, p, 0, |bytes|) && HasBytes(g, d, p, 0, bytes)
    ensures HasBytes(g, d', p, 0, bytes[..off])
  {
    forall pos: nat | pos < off
      ensures ByteAt(g, d', p, pos) == bytes[pos]
    {
      assert Backed(g, d, p, pos) && ByteAt(g, d, p, pos) == bytes[pos];
    }
  }

  lemma StartThenWrite(g: Geometry, d: Disk, p: int, start: seq<byte>, b: seq<byte>)
    requires g.block > 0 && HasBytes(g, d, p, 0, start) && HasBytes(g, d, p, |start|, b)
    ensures HasBytes(g, d, p, 0, start + b)
  {
  }
}
