/** The block file store: file offsets mapped through direct and indirect blocks, written and read block by block. */
module Minixfs {
  import opened Division

  newtype byte = x | 0 <= x < 256

  const UNASSIGNED := -1

  /** Bytes in a block, block numbers in an inode, and block numbers in its indirect block. */
  datatype Geometry = Geometry(block: nat, direct: nat, indirect: nat)

  datatype Block = Bytes(bytes: seq<byte>) | Table(numbers: seq<int>)
  datatype Inode = Inode(size: nat, direct: seq<int>, indirect: int)
  datatype Disk = Disk(data: map<int, Block>, inodes: map<int, Inode>)

  /** What a block is there for: block b of file p, or with b == -1 its indirect block. */
  datatype Slot = Slot(p: int, b: int)

  /** The number of block b of file p. */
  function BlockNo(g: Geometry, d: Disk, p: int, b: int): int {
    if p !in d.inodes || b < 0 then UNASSIGNED
    else
      var node := d.inodes[p];
      if b < g.direct then (if b < |node.direct| then node.direct[b] else UNASSIGNED)
      else if node.indirect in d.data && d.data[node.indirect].Table? && b - g.direct < |d.data[node.indirect].numbers| then
        d.data[node.indirect].numbers[b - g.direct]
      else UNASSIGNED
  }

  function Assigned(g: Geometry, d: Disk, p: int, b: int): bool {
    BlockNo(g, d, p, b) != UNASSIGNED
  }

  function Cell(g: Geometry, d: Disk, p: int, b: int, o: int): byte {
    var n := BlockNo(g, d, p, b);
    if n in d.data && d.data[n].Bytes? && 0 <= o < |d.data[n].bytes| then d.data[n].bytes[o] else 0
  }

  ghost predicate InodeOk(g: Geometry, d: Disk, owner: map<int, Slot>, p: int)
    requires p in d.inodes
  {
    var node := d.inodes[p];
    && |node.direct| == g.direct
    && (node.indirect != UNASSIGNED ==>
          && node.indirect in d.data && d.data[node.indirect].Table? && |d.data[node.indirect].numbers| == g.indirect
          && node.indirect in owner && owner[node.indirect] == Slot(p, -1))
  }

  ghost predicate BlockOk(g: Geometry, d: Disk, owner: map<int, Slot>, p: int, b: int) {
    var n := BlockNo(g, d, p, b);
    n != UNASSIGNED ==>
      && n in d.data && d.data[n].Bytes? && |d.data[n].bytes| == g.block
      && n in owner && owner[n] == Slot(p, b)
  }

  /** Every block in use belongs to one place of one file, and a file's bytes up to its size have blocks. */
  ghost predicate DiskOk(g: Geometry, d: Disk, owner: map<int, Slot>) {
    && g.block > 0 && UNASSIGNED !in d.data
    && (forall p | p in d.inodes :: InodeOk(g, d, owner, p))
    && (forall p, b :: BlockOk(g, d, owner, p, b))
    && (forall p, b | p in d.inodes && 0 <= b && b * g.block < d.inodes[p].size :: Assigned(g, d, p, b))
  }

  /** Different places hold different blocks. */
  lemma BlocksDisjoint(g: Geometry, d: Disk, owner: map<int, Slot>, p: int, b: int, q: int, c: int)
    requires DiskOk(g, d, owner) && Assigned(g, d, p, b) && BlockNo(g, d, p, b) == BlockNo(g, d, q, c)
    ensures p == q && b == c
  {
    assert BlockOk(g, d, owner, p, b) && BlockOk(g, d, owner, q, c);
  }

  // The address arithmetic: position pos is byte pos % block of block pos / block.

  /** A byte of block b lies in the stretch of block bnum from boff, n bytes long, exactly when its position does. */
  lemma StretchIsInBlock(m: nat, b: int, o: int, bnum: int, boff: int, n: int)
    requires 0 <= o < m && 0 <= boff && boff + n <= m
    ensures bnum * m + boff <= b * m + o < bnum * m + boff + n <==> b == bnum && boff <= o < boff + n
  {
    if b < bnum {
      NextMultiple(m, b, bnum);
    } else if bnum < b {
      NextMultiple(m, bnum, b);
    }
  }

  // One memcpy.

  function Patched(bytes: seq<byte>, o: int, chunk: seq<byte>): seq<byte>
    requires 0 <= o && o + |chunk| <= |bytes|
  {
    bytes[..o] + chunk + bytes[o + |chunk|..]
  }

  ghost function Copied(g: Geometry, d: Disk, p: int, b: int, o: int, chunk: seq<byte>): Disk
    requires BlockNo(g, d, p, b) in d.data && d.data[BlockNo(g, d, p, b)].Bytes?
    requires 0 <= o && o + |chunk| <= |d.data[BlockNo(g, d, p, b)].bytes|
  {
    var n := BlockNo(g, d, p, b);
    d.(data := d.data[n := Bytes(Patched(d.data[n].bytes, o, chunk))])
  }

  lemma CopyKeepsBlocks(g: Geometry, d: Disk, owner: map<int, Slot>, p: int, b: int, o: int, chunk: seq<byte>, q: int, c: int)
    requires DiskOk(g, d, owner) && Assigned(g, d, p, b) && 0 <= o && o + |chunk| <= g.block
    ensures BlockOk(g, d, owner, p, b) && BlockNo(g, Copied(g, d, p, b, o, chunk), q, c) == BlockNo(g, d, q, c)
  {
    assert BlockOk(g, d, owner, p, b);
  }

  lemma CopySetsCells(g: Geometry, d: Disk, owner: map<int, Slot>, p: int, b: int, o: int, chunk: seq<byte>, q: int, c: int, i: int)
    requires DiskOk(g, d, owner) && Assigned(g, d, p, b) && 0 <= o && o + |chunk| <= g.block
    ensures BlockOk(g, d, owner, p, b)
    ensures Cell(g, Copied(g, d, p, b, o, chunk), q, c, i) ==
        if q == p && c == b && o <= i < o + |chunk| then chunk[i - o] else Cell(g, d, q, c, i)
  {
    assert BlockOk(g, d, owner, p, b);
    CopyKeepsBlocks(g, d, owner, p, b, o, chunk, q, c);
    if BlockNo(g, d, q, c) == BlockNo(g, d, p, b) {
      BlocksDisjoint(g, d, owner, p, b, q, c);
    }
  }

  lemma CopyKeepsDisk(g: Geometry, d: Disk, owner: map<int, Slot>, p: int, b: int, o: int, chunk: seq<byte>)
    requires DiskOk(g, d, owner) && Assigned(g, d, p, b) && 0 <= o && o + |chunk| <= g.block
    ensures BlockOk(g, d, owner, p, b) && DiskOk(g, Copied(g, d, p, b, o, chunk), owner)
  {
    assert BlockOk(g, d, owner, p, b);
    var d' := Copied(g, d, p, b, o, chunk);
    forall q, c
      ensures BlockNo(g, d', q, c) == BlockNo(g, d, q, c) && BlockOk(g, d', owner, q, c)
    {
      CopyKeepsBlocks(g, d, owner, p, b, o, chunk, q, c);
      assert BlockOk(g, d, owner, q, c);
    }
    forall q | q in d'.inodes
      ensures InodeOk(g, d', owner, q)
    {
      assert InodeOk(g, d, owner, q);
    }
    forall q, c | q in d'.inodes && 0 <= c && c * g.block < d'.inodes[q].size
      ensures Assigned(g, d', q, c)
    {
      assert Assigned(g, d, q, c);
    }
  }

  /** What a partly done write has reached: the first `done` bytes of buf are at off, all other bytes are as before. */
  ghost predicate Written(g: Geometry, d0: Disk, d: Disk, p: int, off: nat, buf: seq<byte>, done: int)
    requires 0 <= done <= |buf|
  {
    && d.inodes == d0.inodes
    && (forall q, c {:trigger BlockNo(g, d, q, c)} :: BlockNo(g, d, q, c) == BlockNo(g, d0, q, c))
    && forall q, c, i {:trigger Cell(g, d, q, c, i)} | 0 <= i < g.block ::
         Cell(g, d, q, c, i) ==
           if q == p && off <= c * g.block + i < off + done then buf[c * g.block + i - off] else Cell(g, d0, q, c, i)
  }

  lemma CopyExtendsWritten(g: Geometry, d0: Disk, d: Disk, owner: map<int, Slot>, p: int, off: nat, buf: seq<byte>, done: int,
                           bnum: nat, boff: nat, n: nat)
    requires DiskOk(g, d, owner) && Assigned(g, d, p, bnum) && 0 <= done && done + n <= |buf| && boff + n <= g.block
    requires Written(g, d0, d, p, off, buf, done) && bnum * g.block + boff == off + done
    ensures BlockOk(g, d, owner, p, bnum)
    ensures Written(g, d0, Copied(g, d, p, bnum, boff, buf[done..done + n]), p, off, buf, done + n)
  {
    var chunk := buf[done..done + n];
    assert BlockOk(g, d, owner, p, bnum);
    var d' := Copied(g, d, p, bnum, boff, chunk);
    forall q, c
      ensures BlockNo(g, d', q, c) == BlockNo(g, d0, q, c)
    {
      CopyKeepsBlocks(g, d, owner, p, bnum, boff, chunk, q, c);
    }
    forall q, c, i {:trigger Cell(g, d', q, c, i)} | 0 <= i < g.block
      ensures Cell(g, d', q, c, i) ==
           if q == p && off <= c * g.block + i < off + (done + n) then buf[c * g.block + i - off] else Cell(g, d0, q, c, i)
    {
      CopySetsCells(g, d, owner, p, bnum, boff, chunk, q, c, i);
      StretchIsInBlock(g.block, c, i, bnum, boff, n);
      assert c == bnum ==> c * g.block == bnum * g.block;
      assert Cell(g, d, q, c, i) ==
        if q == p && off <= c * g.block + i < off + done then buf[c * g.block + i - off] else Cell(g, d0, q, c, i);
    }
  }

  // Adding blocks to a file.

  /** All that was stored stays where it was; files may have gained blocks. */
  ghost predicate Extends(g: Geometry, d: Disk, d': Disk) {
    && (forall p | p in d.inodes :: p in d'.inodes && d'.inodes[p].size == d.inodes[p].size)
    && (forall p, b {:trigger BlockNo(g, d, p, b)} {:trigger BlockNo(g, d', p, b)} | Assigned(g, d, p, b) ::
          BlockNo(g, d', p, b) == BlockNo(g, d, p, b))
    && (forall n | n in d.data && d.data[n].Bytes? :: n in d'.data && d'.data[n] == d.data[n])
  }

  lemma ExtendsKeepsCells(g: Geometry, d: Disk, d': Disk, owner: map<int, Slot>, p: int, b: int, o: int)
    requires DiskOk(g, d, owner) && Extends(g, d, d') && Assigned(g, d, p, b)
    ensures Assigned(g, d', p, b) && Cell(g, d', p, b, o) == Cell(g, d, p, b, o)
  {
    assert BlockOk(g, d, owner, p, b);
  }

  function Blank(g: Geometry): Inode {
    Inode(0, seq(g.direct, _ => UNASSIGNED), UNASSIGNED)
  }

  function AddInode(g: Geometry, d: Disk, p: int): Disk {
    d.(inodes := d.inodes[p := Blank(g)])
  }

  lemma AddInodeKeeps(g: Geometry, d: Disk, owner: map<int, Slot>, p: int)
    requires DiskOk(g, d, owner) && p !in d.inodes
    ensures DiskOk(g, AddInode(g, d, p), owner) && Extends(g, d, AddInode(g, d, p))
  {
    var d' := AddInode(g, d, p);
    forall q, c
      ensures BlockNo(g, d', q, c) == BlockNo(g, d, q, c) && BlockOk(g, d', owner, q, c)
    {
      assert BlockOk(g, d, owner, q, c);
    }
    forall q | q in d'.inodes
      ensures InodeOk(g, d', owner, q)
    {
      assert q != p ==> InodeOk(g, d, owner, q);
    }
    SizesCovered(g, d, d', owner);
  }

  /** A file of unchanged size is still covered when no block was taken away. */
  lemma SizesCovered(g: Geometry, d: Disk, d': Disk, owner: map<int, Slot>)
    requires DiskOk(g, d, owner)
    requires forall p, b {:trigger BlockNo(g, d', p, b)} | Assigned(g, d, p, b) :: BlockNo(g, d', p, b) == BlockNo(g, d, p, b)
    requires forall p | p in d'.inodes :: if p in d.inodes then d'.inodes[p].size == d.inodes[p].size else d'.inodes[p].size == 0
    ensures forall p, b | p in d'.inodes && 0 <= b && b * g.block < d'.inodes[p].size :: Assigned(g, d', p, b)
  {
    forall p, b | p in d'.inodes && 0 <= b && b * g.block < d'.inodes[p].size
      ensures Assigned(g, d', p, b)
    {
      assert b * g.block >= 0;
      assert Assigned(g, d, p, b) && BlockNo(g, d', p, b) == BlockNo(g, d, p, b);
    }
  }

  function AddTable(g: Geometry, d: Disk, p: int, n: int): Disk
    requires p in d.inodes
  {
    Disk(d.data[n := Table(seq(g.indirect, _ => UNASSIGNED))], d.inodes[p := d.inodes[p].(indirect := n)])
  }

  lemma AddTableKeeps(g: Geometry, d: Disk, owner: map<int, Slot>, p: int, n: int)
    requires DiskOk(g, d, owner) && p in d.inodes && d.inodes[p].indirect == UNASSIGNED
    requires n !in d.data && n != UNASSIGNED
    ensures DiskOk(g, AddTable(g, d, p, n), owner[n := Slot(p, -1)]) && Extends(g, d, AddTable(g, d, p, n))
    ensures forall q, c {:trigger BlockNo(g, AddTable(g, d, p, n), q, c)} ::
        BlockNo(g, AddTable(g, d, p, n), q, c) == BlockNo(g, d, q, c)
  {
    var d' := AddTable(g, d, p, n);
    forall q, c
      ensures BlockNo(g, d', q, c) == BlockNo(g, d, q, c) && BlockOk(g, d', owner[n := Slot(p, -1)], q, c)
    {
      assert BlockOk(g, d, owner, q, c);
      if q in d.inodes {
        assert InodeOk(g, d, owner, q);
      }
    }
    forall q | q in d'.inodes
      ensures InodeOk(g, d', owner[n := Slot(p, -1)], q)
    {
      assert InodeOk(g, d, owner, q);
    }
    SizesCovered(g, d, d', owner);
  }

  /** Block b of file p becomes block n, which held these bytes. */
  function AddBlock(g: Geometry, d: Disk, p: int, b: int, n: int, bytes: seq<byte>): Disk
    requires p in d.inodes && |d.inodes[p].direct| == g.direct && 0 <= b
    requires b >= g.direct ==>
      && d.inodes[p].indirect in d.data && d.data[d.inodes[p].indirect].Table?
      && b - g.direct < |d.data[d.inodes[p].indirect].numbers|
  {
    var node, data := d.inodes[p], d.data[n := Bytes(bytes)];
    if b < g.direct then Disk(data, d.inodes[p := node.(direct := node.direct[b := n])])
    else Disk(data[node.indirect := Table(d.data[node.indirect].numbers[b - g.direct := n])], d.inodes)
  }

  lemma AddBlockNumbers(g: Geometry, d: Disk, owner: map<int, Slot>, p: int, b: int, n: int, bytes: seq<byte>, q: int, c: int)
    requires DiskOk(g, d, owner) && p in d.inodes && 0 <= b < g.direct + g.indirect && !Assigned(g, d, p, b)
    requires n !in d.data && n != UNASSIGNED && (b >= g.direct ==> d.inodes[p].indirect != UNASSIGNED)
    ensures InodeOk(g, d, owner, p)
    ensures BlockNo(g, AddBlock(g, d, p, b, n, bytes), q, c) == if q == p && c == b then n else BlockNo(g, d, q, c)
  {
    assert InodeOk(g, d, owner, p);
    if q in d.inodes {
      assert InodeOk(g, d, owner, q);
    }
  }

  lemma AddBlockKeeps(g: Geometry, d: Disk, owner: map<int, Slot>, p: int, b: int, n: int, bytes: seq<byte>)
    requires DiskOk(g, d, owner) && p in d.inodes && 0 <= b < g.direct + g.indirect && !Assigned(g, d, p, b)
    requires n !in d.data && n != UNASSIGNED && (b >= g.direct ==> d.inodes[p].indirect != UNASSIGNED)
    requires |bytes| == g.block
    ensures InodeOk(g, d, owner, p)
    ensures var d' := AddBlock(g, d, p, b, n, bytes);
      DiskOk(g, d', owner[n := Slot(p, b)]) && Extends(g, d, d') && Assigned(g, d', p, b)
  {
    assert InodeOk(g, d, owner, p);
    var d', owner' := AddBlock(g, d, p, b, n, bytes), owner[n := Slot(p, b)];
    forall q, c
      ensures BlockNo(g, d', q, c) == (if q == p && c == b then n else BlockNo(g, d, q, c)) && BlockOk(g, d', owner', q, c)
    {
      AddBlockNumbers(g, d, owner, p, b, n, bytes, q, c);
      assert BlockOk(g, d, owner, q, c);
    }
    forall q | q in d'.inodes
      ensures InodeOk(g, d', owner', q)
    {
      assert InodeOk(g, d, owner, q);
    }
    SizesCovered(g, d, d', owner);
  }

  lemma ExtendsTransitive(g: Geometry, d0: Disk, d1: Disk, d2: Disk)
    requires Extends(g, d0, d1) && Extends(g, d1, d2)
    ensures Extends(g, d0, d2)
  {
    forall p, b | Assigned(g, d0, p, b)
      ensures BlockNo(g, d2, p, b) == BlockNo(g, d0, p, b)
    {
      assert BlockNo(g, d1, p, b) == BlockNo(g, d0, p, b);
    }
  }
}
