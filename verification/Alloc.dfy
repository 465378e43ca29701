/** The first-fit allocator: blocks with a size header, and a doubly linked free list kept in their footers. */
module Alloc {
  import opened Sequences

  const WORD := 8
  const NODE := 24
  const SMALLEST := 32

  /** Memory by words; a word that was never written reads as 0. */
  type Memory = map<int, int>

  function Word(mem: Memory, a: int): int {
    if a in mem then mem[a] else 0
  }

  /** Room for the request or a list node, plus the header, in multiples of eight. */
  function Space(size: nat): nat {
    (if size < NODE then NODE else size) + WORD + Padding((if size < NODE then NODE else size) + WORD)
  }

  function Padding(n: nat): nat {
    (8 - n % 8) % 8
  }

  /** Block i occupies [starts[i], starts[i + 1]); the last entry is the program break. */
  ghost predicate Tiled(starts: seq<int>) {
    && |starts| >= 1 && starts[0] > 0 && starts[0] % 8 == 0
    && forall i {:trigger IsBlock(starts, i)} | IsBlock(starts, i) ::
         starts[i] + SMALLEST <= starts[i + 1] && (starts[i + 1] - starts[i]) % 8 == 0
  }

  ghost predicate IsBlock(starts: seq<int>, i: int) {
    0 <= i < |starts| - 1
  }

  ghost function Size(starts: seq<int>, i: int): int
    requires IsBlock(starts, i)
  {
    starts[i + 1] - starts[i]
  }

  /** The list node of a free block fills its last three words: size pointer, next, prev. */
  ghost function Node(starts: seq<int>, i: int): int
    requires IsBlock(starts, i)
  {
    starts[i + 1] - NODE
  }

  lemma {:induction false} Ordered(starts: seq<int>, i: int, j: int)
    requires Tiled(starts) && 0 <= i < j < |starts|
    ensures starts[0] <= starts[i] && starts[i] + SMALLEST <= starts[i + 1] <= starts[j]
    decreases i + j
  {
    assert IsBlock(starts, i) && IsBlock(starts, j - 1);
    if j > i + 1 {
      Ordered(starts, i, j - 1);
    } else if i > 0 {
      Ordered(starts, i - 1, i);
    }
  }

  lemma {:induction false} Aligned(starts: seq<int>, i: int)
    requires Tiled(starts) && 0 <= i < |starts|
    ensures starts[i] % 8 == 0
  {
    if i > 0 {
      assert IsBlock(starts, i - 1);
      Aligned(starts, i - 1);
    }
  }

  ghost predicate Inside(starts: seq<int>, i: int, a: int) {
    IsBlock(starts, i) && starts[i] <= a < starts[i + 1]
  }

  /** Different blocks share no address. */
  lemma BlocksDisjoint(starts: seq<int>, i: int, j: int, a: int)
    requires Tiled(starts) && Inside(starts, i, a) && Inside(starts, j, a)
    ensures i == j
  {
    if i < j {
      Ordered(starts, i, j);
    } else if j < i {
      Ordered(starts, j, i);
    }
  }

  /** Nodes of different blocks are apart from each other, and from all headers. */
  lemma NodesApart(starts: seq<int>, i: int, j: int)
    requires Tiled(starts) && IsBlock(starts, i) && IsBlock(starts, j)
    ensures i != j ==> Node(starts, i) + SMALLEST <= Node(starts, j) || Node(starts, j) + SMALLEST <= Node(starts, i)
    ensures starts[j] + WORD <= Node(starts, i) || Node(starts, i) + NODE <= starts[j]
    ensures starts[0] <= starts[i] && starts[i] + WORD <= Node(starts, i) && 0 < Node(starts, i)
  {
    Ordered(starts, i, i + 1);
    if i < j {
      Ordered(starts, i, j);
      Ordered(starts, i + 1, j + 1);
    } else if j < i {
      Ordered(starts, j, i);
      Ordered(starts, j + 1, i + 1);
    }
  }

  /** Every block's header holds its size. */
  ghost predicate HeadersOk(mem: Memory, starts: seq<int>) {
    forall i {:trigger IsBlock(starts, i)} | IsBlock(starts, i) :: Word(mem, starts[i]) == Size(starts, i)
  }

  ghost predicate AreBlocks(starts: seq<int>, free: seq<int>) {
    forall k | 0 <= k < |free| :: IsBlock(starts, free[k])
  }

  /** The node of the k-th entry of the free list, or the null pointer past either end. */
  ghost function NodeAt(starts: seq<int>, free: seq<int>, k: int): int
    requires AreBlocks(starts, free)
  {
    if 0 <= k < |free| then Node(starts, free[k]) else 0
  }

  /** A node holds these three words. */
  ghost predicate NodeHolds(mem: Memory, n: int, sizePtr: int, next: int, prev: int) {
    Word(mem, n) == sizePtr && Word(mem, n + 8) == next && Word(mem, n + 16) == prev
  }

  /** The k-th node of the free list. The size pointer of a free block points at the first payload word. */
  ghost predicate LinkOk(mem: Memory, starts: seq<int>, free: seq<int>, k: int)
    requires AreBlocks(starts, free) && 0 <= k < |free|
  {
    NodeHolds(mem, Node(starts, free[k]), starts[free[k]] + WORD, NodeAt(starts, free, k + 1), NodeAt(starts, free, k - 1))
  }

  /** The free list: each free block once, forward and backward links inverse to each other, ends null. */
  ghost predicate ListOk(mem: Memory, starts: seq<int>, free: seq<int>, head: int) {
    && AreBlocks(starts, free) && Distinct(free)
    && head == NodeAt(starts, free, 0)
    && forall k | 0 <= k < |free| :: LinkOk(mem, starts, free, k)
  }

  ghost predicate HeapOk(mem: Memory, starts: seq<int>, free: seq<int>, head: int) {
    Tiled(starts) && HeadersOk(mem, starts) && ListOk(mem, starts, free, head)
  }

  ghost predicate Live(starts: seq<int>, free: seq<int>, i: int) {
    IsBlock(starts, i) && i !in free
  }

  /** Nothing outside the nodes of these blocks has changed. */
  ghost predicate OnlyNodesChanged(mem: Memory, mem': Memory, starts: seq<int>, blocks: seq<int>)
    requires AreBlocks(starts, blocks)
  {
    forall a | Word(mem', a) != Word(mem, a) ::
      exists k :: 0 <= k < |blocks| && Node(starts, blocks[k]) <= a < Node(starts, blocks[k]) + NODE
  }

  lemma HeadersUntouched(mem: Memory, mem': Memory, starts: seq<int>, blocks: seq<int>)
    requires Tiled(starts) && HeadersOk(mem, starts) && AreBlocks(starts, blocks)
    requires OnlyNodesChanged(mem, mem', starts, blocks)
    ensures HeadersOk(mem', starts)
  {
    forall i {:trigger IsBlock(starts, i)} | IsBlock(starts, i)
      ensures Word(mem', starts[i]) == Word(mem, starts[i])
    {
      if Word(mem', starts[i]) != Word(mem, starts[i]) {
        var k :| 0 <= k < |blocks| && Node(starts, blocks[k]) <= starts[i] < Node(starts, blocks[k]) + NODE;
        NodesApart(starts, blocks[k], i);
      }
    }
  }

  /** A program that writes to its own live block cannot disturb the allocator. */
  lemma UserWriteKeeps(mem: Memory, mem': Memory, starts: seq<int>, free: seq<int>, head: int, i: int, a: int)
    requires HeapOk(mem, starts, free, head) && Live(starts, free, i)
    requires starts[i] + WORD <= a < starts[i + 1] && mem' == mem[a := Word(mem', a)]
    ensures HeapOk(mem', starts, free, head)
  {
    forall j {:trigger IsBlock(starts, j)} | IsBlock(starts, j)
      ensures starts[j] != a
    {
      Ordered(starts, j, j + 1);
      if starts[j] == a {
        BlocksDisjoint(starts, i, j, a);
      }
    }
    forall k | 0 <= k < |free|
      ensures LinkOk(mem', starts, free, k)
    {
      assert LinkOk(mem, starts, free, k) && free[k] in free;
      OutsideNode(starts, i, free[k], a);
    }
  }

  lemma OutsideNode(starts: seq<int>, i: int, j: int, a: int)
    requires Tiled(starts) && IsBlock(starts, j) && i != j && Inside(starts, i, a)
    ensures a < Node(starts, j) || Node(starts, j) + NODE <= a
  {
    if i < j {
      Ordered(starts, i + 1, j + 1);
      Ordered(starts, i, j);
    } else {
      Ordered(starts, j, i);
    }
  }

  // Linking a block in at the head.

  function Push(mem: Memory, n: int, sizePtr: int, head: int): Memory {
    var m := mem[n := sizePtr][n + 16 := 0][n + 8 := head];
    if head == 0 then m else m[head + 16 := n]
  }

  lemma PushWrites(mem: Memory, n: int, header: int, head: int)
    ensures var m := mem[n := header]; var m := m[n := Word(m, n) + WORD][n + 16 := 0];
      Push(mem, n, header + WORD, head) == if head == 0 then m[n + 8 := 0] else m[n + 8 := head][head + 16 := n]
  {
    var m := mem[n := header];
    assert m[n := Word(m, n) + WORD] == mem[n := header + WORD];
  }

  lemma PushWords(mem: Memory, n: int, sizePtr: int, head: int, a: int)
    requires head != 0 ==> head + NODE <= n || n + NODE <= head
    ensures Word(Push(mem, n, sizePtr, head), a) ==
        if a == n then sizePtr else if a == n + 8 then head else if a == n + 16 then 0
        else if head != 0 && a == head + 16 then n else Word(mem, a)
  {
  }

  /** Node m as it is after pushing n: only the old first node changes, in its prev word. */
  lemma PushOtherNode(mem: Memory, n: int, sizePtr: int, head: int, m: int, sp: int, next: int, prev: int)
    requires head != 0 && (head + NODE <= n || n + NODE <= head) && (m + NODE <= n || n + NODE <= m)
    requires m == head || m + NODE <= head || head + NODE <= m
    requires NodeHolds(mem, m, sp, next, prev)
    ensures NodeHolds(Push(mem, n, sizePtr, head), m, sp, next, if m == head then n else prev)
  {
    PushWords(mem, n, sizePtr, head, m);
    PushWords(mem, n, sizePtr, head, m + 8);
    PushWords(mem, n, sizePtr, head, m + 16);
  }

  lemma PushLinks(mem: Memory, starts: seq<int>, free: seq<int>, head: int, i: int, k: int)
    requires HeapOk(mem, starts, free, head) && Live(starts, free, i) && 0 <= k <= |free|
    ensures AreBlocks(starts, [i] + free)
    ensures LinkOk(Push(mem, Node(starts, i), starts[i] + WORD, head), starts, [i] + free, k)
  {
    var n, sp, free' := Node(starts, i), starts[i] + WORD, [i] + free;
    if free != [] {
      NodesApart(starts, i, free[0]);
    }
    if k == 0 {
      PushWords(mem, n, sp, head, n);
      PushWords(mem, n, sp, head, n + 8);
      PushWords(mem, n, sp, head, n + 16);
    } else {
      var f := free[k - 1];
      assert free'[k] == f && f in free && LinkOk(mem, starts, free, k - 1);
      NodesApart(starts, i, f);
      NodesApart(starts, free[0], f);
      PushOtherNode(mem, n, sp, head, Node(starts, f), starts[f] + WORD, NodeAt(starts, free, k), NodeAt(starts, free, k - 2));
      if k > 1 {
        assert free[0] != f;
      }
    }
  }

  lemma PushTouchesNodes(mem: Memory, starts: seq<int>, free: seq<int>, head: int, i: int)
    requires HeapOk(mem, starts, free, head) && Live(starts, free, i)
    ensures AreBlocks(starts, [i] + free)
    ensures OnlyNodesChanged(mem, Push(mem, Node(starts, i), starts[i] + WORD, head), starts, [i] + free)
  {
    var n, free' := Node(starts, i), [i] + free;
    var mem' := Push(mem, n, starts[i] + WORD, head);
    if free != [] {
      NodesApart(starts, i, free[0]);
    }
    forall a | Word(mem', a) != Word(mem, a)
      ensures exists k :: 0 <= k < |free'| && Node(starts, free'[k]) <= a < Node(starts, free'[k]) + NODE
    {
      PushWords(mem, n, starts[i] + WORD, head, a);
      var k := if n <= a < n + NODE then 0 else 1;
      assert Node(starts, free'[k]) <= a < Node(starts, free'[k]) + NODE;
    }
  }

  lemma PushKeeps(mem: Memory, starts: seq<int>, free: seq<int>, head: int, i: int)
    requires HeapOk(mem, starts, free, head) && Live(starts, free, i)
    ensures HeapOk(Push(mem, Node(starts, i), starts[i] + WORD, head), starts, [i] + free, Node(starts, i))
  {
    var free', mem' := [i] + free, Push(mem, Node(starts, i), starts[i] + WORD, head);
    PushTouchesNodes(mem, starts, free, head, i);
    HeadersUntouched(mem, mem', starts, free');
    forall k | 0 <= k < |free'|
      ensures LinkOk(mem', starts, free', k)
    {
      PushLinks(mem, starts, free, head, i, k);
    }
  }

  // Unlinking a block from anywhere in the list.

  function Unlink(mem: Memory, n: int, next: int, prev: int): Memory {
    var m := if prev != 0 then mem[prev + 8 := next] else mem;
    var m := if next != 0 then m[next + 16 := prev] else m;
    var m := if prev == 0 && next != 0 then m[n + 8 := 0] else m;
    m[n := Word(mem, n) - WORD]
  }

  ghost predicate ApartFrom(m: int, n: int) {
    m == 0 || m + NODE <= n || n + NODE <= m
  }

  lemma UnlinkWords(mem: Memory, n: int, next: int, prev: int, a: int)
    requires n != 0 && ApartFrom(next, n) && ApartFrom(prev, n) && (next != 0 ==> ApartFrom(prev, next))
    ensures Word(Unlink(mem, n, next, prev), a) ==
        if a == n then Word(mem, n) - WORD
        else if prev != 0 && a == prev + 8 then next
        else if next != 0 && a == next + 16 then prev
        else if prev == 0 && next != 0 && a == n + 8 then 0
        else Word(mem, a)
  {
  }

  lemma UnlinkOtherNode(mem: Memory, n: int, next: int, prev: int, m: int, sp: int, mNext: int, mPrev: int)
    requires n != 0 && ApartFrom(next, n) && ApartFrom(prev, n) && (next != 0 ==> ApartFrom(prev, next))
    requires m != 0 && ApartFrom(m, n) && (m == next || ApartFrom(next, m)) && (m == prev || ApartFrom(prev, m))
    requires NodeHolds(mem, m, sp, mNext, mPrev)
    ensures NodeHolds(Unlink(mem, n, next, prev), m, sp, if m == prev then next else mNext, if m == next then prev else mPrev)
  {
    UnlinkWords(mem, n, next, prev, m);
    UnlinkWords(mem, n, next, prev, m + 8);
    UnlinkWords(mem, n, next, prev, m + 16);
  }

  ghost function Without(free: seq<int>, k: int): seq<int>
    requires 0 <= k < |free|
  {
    free[..k] + free[k + 1..]
  }

  lemma NodeAtApart(starts: seq<int>, free: seq<int>, k: int, l: int)
    requires Tiled(starts) && AreBlocks(starts, free) && Distinct(free) && 0 <= k < |free|
    ensures NodeAt(starts, free, k) > 0
    ensures k != l ==> ApartFrom(NodeAt(starts, free, l), NodeAt(starts, free, k)) && NodeAt(starts, free, l) != NodeAt(starts, free, k)
  {
    NodesApart(starts, free[k], free[k]);
    if 0 <= l < |free| && l != k {
      NodesApart(starts, free[k], free[l]);
    }
  }

  lemma UnlinkLinks(mem: Memory, starts: seq<int>, free: seq<int>, head: int, k: int, l: int)
    requires HeapOk(mem, starts, free, head) && 0 <= k < |free| && 0 <= l < |free| && l != k
    ensures NodeHolds(Unlink(mem, NodeAt(starts, free, k), NodeAt(starts, free, k + 1), NodeAt(starts, free, k - 1)),
                      NodeAt(starts, free, l), starts[free[l]] + WORD,
                      NodeAt(starts, free, if l + 1 == k then k + 1 else l + 1),
                      NodeAt(starts, free, if l - 1 == k then k - 1 else l - 1))
  {
    assert LinkOk(mem, starts, free, l);
    NodeAtApart(starts, free, k, k + 1);
    NodeAtApart(starts, free, k, k - 1);
    NodeAtApart(starts, free, l, k);
    NodeAtApart(starts, free, l, k + 1);
    NodeAtApart(starts, free, l, k - 1);
    if k + 1 < |free| {
      NodeAtApart(starts, free, k + 1, k - 1);
    }
    UnlinkOtherNode(mem, NodeAt(starts, free, k), NodeAt(starts, free, k + 1), NodeAt(starts, free, k - 1),
                    NodeAt(starts, free, l), starts[free[l]] + WORD, NodeAt(starts, free, l + 1), NodeAt(starts, free, l - 1));
  }

  lemma UnlinkTouchesNodes(mem: Memory, starts: seq<int>, free: seq<int>, head: int, k: int)
    requires HeapOk(mem, starts, free, head) && 0 <= k < |free|
    ensures OnlyNodesChanged(mem, Unlink(mem, NodeAt(starts, free, k), NodeAt(starts, free, k + 1), NodeAt(starts, free, k - 1)), starts, free)
  {
    var mem' := Unlink(mem, NodeAt(starts, free, k), NodeAt(starts, free, k + 1), NodeAt(starts, free, k - 1));
    NodeAtApart(starts, free, k, k + 1);
    NodeAtApart(starts, free, k, k - 1);
    if k + 1 < |free| {
      NodeAtApart(starts, free, k + 1, k - 1);
    }
    forall a | Word(mem', a) != Word(mem, a)
      ensures exists j :: 0 <= j < |free| && Node(starts, free[j]) <= a < Node(starts, free[j]) + NODE
    {
      UnlinkWords(mem, NodeAt(starts, free, k), NodeAt(starts, free, k + 1), NodeAt(starts, free, k - 1), a);
      var n := NodeAt(starts, free, k);
      var j := if a == n || a == n + 8 then k else if a == NodeAt(starts, free, k - 1) + 8 then k - 1 else k + 1;
      assert 0 <= j < |free| && Node(starts, free[j]) <= a < Node(starts, free[j]) + NODE;
    }
  }

  lemma WithoutBlocks(starts: seq<int>, free: seq<int>, k: int)
    requires AreBlocks(starts, free) && Distinct(free) && 0 <= k < |free|
    ensures AreBlocks(starts, Without(free, k)) && Distinct(Without(free, k)) && free[k] !in Without(free, k)
    ensures forall l :: NodeAt(starts, Without(free, k), l) == NodeAt(starts, free, if l < k then l else l + 1)
  {
    var free' := Without(free, k);
    assert forall l | 0 <= l < |free'| :: free'[l] == free[if l < k then l else l + 1];
    forall l
      ensures NodeAt(starts, free', l) == NodeAt(starts, free, if l < k then l else l + 1)
    {
      if 0 <= l < |free'| {
        assert NodeAt(starts, free', l) == Node(starts, free'[l]);
      }
    }
  }

  lemma UnlinkedLink(mem: Memory, starts: seq<int>, free: seq<int>, head: int, k: int, l: int)
    requires HeapOk(mem, starts, free, head) && 0 <= k < |free| && 0 <= l < |free| - 1
    ensures AreBlocks(starts, Without(free, k))
    ensures LinkOk(Unlink(mem, NodeAt(starts, free, k), NodeAt(starts, free, k + 1), NodeAt(starts, free, k - 1)),
                   starts, Without(free, k), l)
  {
    WithoutBlocks(starts, free, k);
    UnlinkLinks(mem, starts, free, head, k, if l < k then l else l + 1);
  }

  lemma UnlinkKeeps(mem: Memory, starts: seq<int>, free: seq<int>, head: int, k: int)
    requires HeapOk(mem, starts, free, head) && 0 <= k < |free|
    ensures var mem' := Unlink(mem, NodeAt(starts, free, k), NodeAt(starts, free, k + 1), NodeAt(starts, free, k - 1));
      HeapOk(mem', starts, Without(free, k), if k == 0 then NodeAt(starts, free, 1) else head)
  {
    var mem' := Unlink(mem, NodeAt(starts, free, k), NodeAt(starts, free, k + 1), NodeAt(starts, free, k - 1));
    UnlinkTouchesNodes(mem, starts, free, head, k);
    HeadersUntouched(mem, mem', starts, free);
    WithoutBlocks(starts, free, k);
    forall l | 0 <= l < |free| - 1
      ensures LinkOk(mem', starts, Without(free, k), l)
    {
      UnlinkedLink(mem, starts, free, head, k, l);
    }
    hide Unlink, LinkOk, HeadersOk, OnlyNodesChanged, Tiled;
  }

  /** The next block, cut from above the break. */
  lemma GrowKeeps(mem: Memory, starts: seq<int>, free: seq<int>, head: int, space: int)
    requires HeapOk(mem, starts, free, head) && space >= SMALLEST && space % 8 == 0
    ensures var brk := starts[|starts| - 1]; HeapOk(mem[brk := space], starts + [brk + space], free, head)
  {
    var brk := starts[|starts| - 1];
    var mem', starts' := mem[brk := space], starts + [brk + space];
    forall i {:trigger IsBlock(starts', i)} | IsBlock(starts', i)
      ensures starts'[i] + SMALLEST <= starts'[i + 1] && (starts'[i + 1] - starts'[i]) % 8 == 0
      ensures Word(mem', starts'[i]) == Size(starts', i)
    {
      if i < |starts| - 1 {
        assert IsBlock(starts, i);
        Ordered(starts, i, |starts| - 1);
      }
    }
    forall k | 0 <= k < |free|
      ensures IsBlock(starts', free[k]) && Node(starts', free[k]) == Node(starts, free[k])
    {
      assert IsBlock(starts, free[k]);
    }
    forall k | 0 <= k < |free|
      ensures LinkOk(mem', starts', free, k)
    {
      assert LinkOk(mem, starts, free, k);
      Ordered(starts, free[k], |starts| - 1);
    }
  }

  /** Blocks that are in use keep their contents, header included. */
  ghost predicate LiveKept(mem: Memory, mem': Memory, starts: seq<int>, free: seq<int>) {
    forall i, a {:trigger Inside(starts, i, a)} | Live(starts, free, i) && Inside(starts, i, a) :: Word(mem', a) == Word(mem, a)
  }

  lemma NodesSpareLive(mem: Memory, mem': Memory, starts: seq<int>, free: seq<int>)
    requires Tiled(starts) && AreBlocks(starts, free) && OnlyNodesChanged(mem, mem', starts, free)
    ensures LiveKept(mem, mem', starts, free)
  {
    forall i, a {:trigger Inside(starts, i, a)} | Live(starts, free, i) && Inside(starts, i, a)
      ensures Word(mem', a) == Word(mem, a)
    {
      LiveUntouched(mem, mem', starts, free, i, a);
    }
  }

  lemma GrowSparesLive(mem: Memory, starts: seq<int>, free: seq<int>, space: int)
    requires Tiled(starts)
    ensures LiveKept(mem, mem[starts[|starts| - 1] := space], starts, free)
  {
    forall i, a {:trigger Inside(starts, i, a)} | Live(starts, free, i) && Inside(starts, i, a)
      ensures a != starts[|starts| - 1]
    {
      Ordered(starts, i, |starts| - 1);
    }
  }

  lemma LiveUntouched(mem: Memory, mem': Memory, starts: seq<int>, free: seq<int>, i: int, a: int)
    requires Tiled(starts) && AreBlocks(starts, free) && OnlyNodesChanged(mem, mem', starts, free)
    requires Live(starts, free, i) && Inside(starts, i, a)
    ensures Word(mem', a) == Word(mem, a)
  {
    if Word(mem', a) != Word(mem, a) {
      var k :| 0 <= k < |free| && Node(starts, free[k]) <= a < Node(starts, free[k]) + NODE;
      assert free[k] in free;
      OutsideNode(starts, i, free[k], a);
    }
  }

  lemma Headers(mem: Memory, starts: seq<int>, free: seq<int>, head: int, k: int)
    requires HeapOk(mem, starts, free, head) && 0 <= k < |free|
    ensures IsBlock(starts, free[k]) && Word(mem, starts[free[k]]) == Size(starts, free[k])
    ensures AreBlocks(starts, free) && Distinct(free) && Word(mem, NodeAt(starts, free, k)) == starts[free[k]] + WORD
  {
    assert LinkOk(mem, starts, free, k);
  }

  lemma HeaderOf(mem: Memory, starts: seq<int>, i: int)
    requires HeadersOk(mem, starts) && IsBlock(starts, i)
    ensures Word(mem, starts[i]) == Size(starts, i)
  {
  }

  lemma BreakIsNoBlock(mem: Memory, starts: seq<int>, free: seq<int>, head: int)
    requires ListOk(mem, starts, free, head)
    ensures |starts| - 1 !in free
  {
  }

  /** The word that the fit test reads for a free block: its first payload word as written, its header as meant. */
  ghost function TestedWord(mem: Memory, starts: seq<int>, testsHeader: bool, i: int): int
    requires IsBlock(starts, i)
  {
    Word(mem, if testsHeader then starts[i] else starts[i] + WORD)
  }

  /** The j-th listed block is too small for the space but looks large, and those before it look too small. */
  ghost predicate Trap(mem: Memory, starts: seq<int>, free: seq<int>, testsHeader: bool, space: nat, j: nat)
    requires AreBlocks(starts, free)
  {
    && j < |free| && Word(mem, starts[free[j]]) < space <= TestedWord(mem, starts, testsHeader, free[j])
    && forall l | 0 <= l < j :: TestedWord(mem, starts, testsHeader, free[l]) < space
  }

  ghost predicate Trapped(mem: Memory, starts: seq<int>, free: seq<int>, testsHeader: bool, space: nat)
    requires AreBlocks(starts, free)
  {
    exists j: nat :: Trap(mem, starts, free, testsHeader, space, j)
  }

  /** The test that is meant sets no trap. */
  lemma HeaderTestNeverTraps(mem: Memory, starts: seq<int>, free: seq<int>, space: nat)
    requires AreBlocks(starts, free)
    ensures !Trapped(mem, starts, free, true, space)
  {
  }

  /** A listed block of 32 bytes is a trap, for any larger request up to its address, unless a block before it
      passes the test; and then the first such block decides. */
  lemma SmallBlockTraps(mem: Memory, starts: seq<int>, free: seq<int>, head: int, k: nat, space: nat)
    requires HeapOk(mem, starts, free, head) && k < |free| && Size(starts, free[k]) == SMALLEST
    requires SMALLEST < space <= starts[free[k]] + WORD
    ensures !Trapped(mem, starts, free, false, space) <==>
        exists l: nat :: l < k && Word(mem, starts[free[l]]) >= space && FirstToPass(mem, starts, free, space, l)
  {
    SmallBlockLooksLarge(mem, starts, free, head, k);
    Headers(mem, starts, free, head, k);
    var l := FindFirst(mem, starts, free, space, k);
    if l == k {
      assert Trap(mem, starts, free, false, space, k);
    } else if Word(mem, starts[free[l]]) < space {
      assert Trap(mem, starts, free, false, space, l);
    }
  }

  ghost predicate FirstToPass(mem: Memory, starts: seq<int>, free: seq<int>, space: nat, l: nat)
    requires AreBlocks(starts, free)
  {
    && l < |free| && TestedWord(mem, starts, false, free[l]) >= space
    && forall m | 0 <= m < l :: TestedWord(mem, starts, false, free[m]) < space
  }

  lemma {:induction false} FindFirst(mem: Memory, starts: seq<int>, free: seq<int>, space: nat, k: nat) returns (l: nat)
    requires AreBlocks(starts, free) && k < |free| && TestedWord(mem, starts, false, free[k]) >= space
    ensures l <= k && FirstToPass(mem, starts, free, space, l)
  {
    if m: nat :| m < k && TestedWord(mem, starts, false, free[m]) >= space {
      l := FindFirst(mem, starts, free, space, m);
    } else {
      l := k;
    }
  }

  /** The search decides whether the trap closes. */
  lemma FirstFitDecides(mem: Memory, starts: seq<int>, free: seq<int>, testsHeader: bool, space: nat, k: nat)
    requires AreBlocks(starts, free) && k < |free| && TestedWord(mem, starts, testsHeader, free[k]) >= space
    requires forall j | 0 <= j < k :: TestedWord(mem, starts, testsHeader, free[j]) < space
    ensures Trapped(mem, starts, free, testsHeader, space) <==> Word(mem, starts[free[k]]) < space
  {
    if Word(mem, starts[free[k]]) < space {
      assert Trap(mem, starts, free, testsHeader, space, k);
    }
  }

  /** A block has room for the request and its header exactly when it has the rounded space. */
  lemma RoomIsSpace(starts: seq<int>, i: int, size: nat)
    requires Tiled(starts) && IsBlock(starts, i)
    ensures Size(starts, i) >= size + WORD <==> Size(starts, i) >= Space(size)
  {
  }

  class Heap {
    /** False for the code as written: the fit test reads through the size pointer, which free has moved
        past the header. True for the test it means. */
    const testsHeader: bool
    var mem: Memory
    var head: int
    var brk: int
    ghost var starts: seq<int>
    ghost var free: seq<int>

    ghost predicate Valid()
      reads this
    {
      HeapOk(mem, starts, free, head) && brk == starts[|starts| - 1]
    }

    constructor (testsHeader: bool, base: int)
      requires base > 0 && base % 8 == 0
      ensures Valid() && this.testsHeader == testsHeader && starts == [base] && free == []
    {
      this.testsHeader := testsHeader;
      mem, head, brk := map[], 0, base;
      starts, free := [base], [];
    }

    /** The word that malloc compares with the space it needs. */
    ghost function Tested(i: int): int
      requires IsBlock(starts, i)
      reads `mem, `starts
    {
      TestedWord(mem, starts, testsHeader, i)
    }

    method RoundUp(size: nat) returns (space: nat)
      ensures space == Space(size) && space % 8 == 0 && space >= SMALLEST && space >= size + WORD
    {
      space := if size < NODE then NODE else size;
      space := space + WORD;
      ghost var start := space;
      while space % 8 != 0
        invariant start <= space <= start + Padding(start)
        decreases start + 8 - space
      {
        space := space + 1;
      }
    }

    /** remove_node on the k-th node of the list. */
    method RemoveNode(n: int, ghost k: int)
      requires Valid() && 0 <= k < |free| && n == NodeAt(starts, free, k)
      modifies `mem, `head, `free
      ensures Valid() && free == Without(old(free), k) && OnlyNodesChanged(old(mem), mem, starts, old(free))
      ensures Word(mem, n) == Word(old(mem), n) - WORD
    {
      assert LinkOk(mem, starts, free, k);
      UnlinkKeeps(mem, starts, free, head, k);
      UnlinkTouchesNodes(mem, starts, free, head, k);
      NodeAtApart(starts, free, k, k + 1);
      NodeAtApart(starts, free, k, k - 1);
      NodeAtApart(starts, free, k, 0);
      var next, prev := Word(mem, n + 8), Word(mem, n + 16);
      if k + 1 < |free| {
        NodeAtApart(starts, free, k + 1, k - 1);
      }
      if k > 0 {
        NodeAtApart(starts, free, k - 1, k);
      }
      UnlinkWords(mem, n, next, prev, n);
      if prev != 0 && next != 0 {
        mem := mem[prev + 8 := next];
        mem := mem[next + 16 := prev];
      } else if prev != 0 {
        mem := mem[prev + 8 := 0];
      } else if next != 0 {
        head := next;
        mem := mem[next + 16 := 0];
        mem := mem[n + 8 := 0];
      } else {
        head := 0;
      }
      mem := mem[n := Word(mem, n) - WORD];
      free := Without(free, k);
      assert mem == Unlink(old(mem), n, next, prev);
    }

    /** The search of malloc: the first node whose tested word is large enough, or null at the end. */
    method FirstFit(space: nat) returns (curr: int, ghost k: nat)
      requires Valid()
      ensures k <= |free| && curr == NodeAt(starts, free, k) && (curr == 0 <==> k == |free|)
      ensures forall j | 0 <= j < k :: Tested(free[j]) < space
      ensures k < |free| ==> Tested(free[k]) >= space
    {
      curr := head;
      k := 0;
      while curr != 0
        invariant 0 <= k <= |free| && curr == NodeAt(starts, free, k)
        invariant forall j | 0 <= j < k :: Tested(free[j]) < space
        decreases |free| - k
      {
        assert LinkOk(mem, starts, free, k);
        var sizePtr := Word(mem, curr);
        if Word(mem, if testsHeader then sizePtr - WORD else sizePtr) >= space {
          return;
        }
        curr := Word(mem, curr + 8);
        k := k + 1;
      }
      if k < |free| {
        NodeAtApart(starts, free, k, k);
      }
    }

    /** The end of malloc: a new block from sbrk. */
    method Grow(space: nat) returns (p: int)
      requires Valid() && space >= SMALLEST && space % 8 == 0
      modifies `mem, `brk, `starts
      ensures Valid() && starts == old(starts) + [old(brk) + space] && p == old(brk) + WORD && p % 8 == 0
      ensures LiveKept(old(mem), mem, old(starts), free)
    {
      Aligned(starts, |starts| - 1);
      GrowKeeps(mem, starts, free, head, space);
      GrowSparesLive(mem, starts, free, space);
      var block := brk;
      brk := brk + space;
      mem := mem[block := space];
      starts := starts + [brk];
      p := block + WORD;
    }

    /** malloc. k is the place in the free list where the search stopped, i the block handed out. */
    method Malloc(size: nat) returns (p: int, ghost k: nat, ghost i: nat)
      requires Valid()
      modifies `mem, `head, `brk, `starts, `free
      ensures Valid() && k <= |old(free)| && LiveKept(old(mem), mem, old(starts), old(free))
      ensures forall j | 0 <= j < k :: old(Tested(free[j])) < Space(size)
      ensures k < |old(free)| ==>
          && old(Tested(free[k])) >= Space(size)
          && i == old(free)[k] && free == Without(old(free), k) && starts == old(starts)
      ensures k == |old(free)| ==>
          i == |old(starts)| - 1 && free == old(free) && starts == old(starts) + [old(brk) + Space(size)]
      ensures !old(Live(starts, free, i)) && Live(starts, free, i) && p == starts[i] + WORD && p % 8 == 0
      ensures forall j | j != i :: Live(starts, free, j) <==> old(Live(starts, free, j))
      ensures Size(starts, i) >= size + WORD <==> !old(Trapped(mem, starts, free, testsHeader, Space(size)))
    {
      hide ListOk, HeadersOk, OnlyNodesChanged, LiveKept, Distinct;
      var space := RoundUp(size);
      var curr;
      curr, k := FirstFit(space);
      if curr != 0 {
        Headers(mem, starts, free, head, k);
        FirstFitDecides(mem, starts, free, testsHeader, space, k);
        i := free[k];
        RoomIsSpace(starts, i, size);
        RemoveNode(curr, k);
        NodesSpareLive(old(mem), mem, starts, old(free));
        WithoutBlocks(starts, old(free), k);
        Aligned(starts, i);
        p := Word(mem, curr) + WORD;
      } else {
        i := |starts| - 1;
        BreakIsNoBlock(mem, starts, free, head);
        p := Grow(space);
        RoomIsSpace(starts, i, size);
      }
    }

    /** free. The caller owns block i, or passes null. */
    method Free(p: int, ghost i: nat)
      requires Valid() && (p != 0 ==> Live(starts, free, i) && p == starts[i] + WORD)
      modifies `mem, `head, `free
      ensures Valid()
      ensures p == 0 ==> mem == old(mem) && head == old(head) && free == old(free)
      ensures p != 0 ==> free == [i] + old(free) && LiveKept(old(mem), mem, starts, free)
    {
      hide HeadersOk, LiveKept, OnlyNodesChanged;
      if p == 0 {
        return;
      }
      PushKeeps(mem, starts, free, head, i);
      PushTouchesNodes(mem, starts, free, head, i);
      NodesApart(starts, i, i);
      HeaderOf(mem, starts, i);
      var node := p - WORD + Word(mem, p - WORD) - NODE;
      if head != 0 {
        NodesApart(starts, i, free[0]);
      }
      mem := mem[node := p - WORD];
      mem := mem[node := Word(mem, node) + WORD];
      if head == 0 {
        mem := mem[node + 16 := 0];
        mem := mem[node + 8 := 0];
        head := node;
      } else {
        mem := mem[node + 16 := 0];
        mem := mem[node + 8 := head];
        mem := mem[head + 16 := node];
        head := node;
      }
      PushWrites(old(mem), node, p - WORD, old(head));
      free := [i] + free;
      NodesSpareLive(old(mem), mem, starts, free);
    }

    /** The program stores a word in the payload of a block it owns. */
    method Store(i: nat, a: int, w: int)
      requires Valid() && Live(starts, free, i) && starts[i] + WORD <= a < starts[i + 1]
      modifies `mem
      ensures Valid() && mem == old(mem)[a := w]
    {
      UserWriteKeeps(mem, mem[a := w], starts, free, head, i, a);
      mem := mem[a := w];
    }
  }

  /** Where k steps along the next pointers lead. */
  function Follow(mem: Memory, p: int, k: nat): int
    decreases k
  {
    if k == 0 || p == 0 then p else Follow(mem, Word(mem, p + 8), k - 1)
  }

  /** Walking the list from the head meets exactly the free blocks, in order, and ends. */
  lemma {:induction false} WalkMeetsFreeBlocks(mem: Memory, starts: seq<int>, free: seq<int>, head: int, j: nat, k: nat)
    requires HeapOk(mem, starts, free, head) && j <= |free|
    ensures Follow(mem, NodeAt(starts, free, j), k) == NodeAt(starts, free, j + k)
    ensures Follow(mem, NodeAt(starts, free, j), k) == 0 <==> j + k >= |free|
    decreases k
  {
    if j + k < |free| {
      NodeAtApart(starts, free, j + k, j + k);
    }
    if j < |free| {
      NodeAtApart(starts, free, j, j);
      assert LinkOk(mem, starts, free, j);
      if k > 0 {
        WalkMeetsFreeBlocks(mem, starts, free, head, j + 1, k - 1);
      }
    }
  }

  /** Every address below the break is in exactly one block, and that block is live or once on the list. */
  lemma {:induction false} EveryAddressInOneBlock(starts: seq<int>, free: seq<int>, a: int, hi: nat) returns (i: int)
    requires Tiled(starts) && AreBlocks(starts, free) && Distinct(free)
    requires hi < |starts| && starts[0] <= a < starts[hi]
    ensures Inside(starts, i, a) && forall j | Inside(starts, j, a) :: j == i
    ensures Live(starts, free, i) <==> !exists k :: 0 <= k < |free| && free[k] == i
    ensures forall k, l | 0 <= k < |free| && 0 <= l < |free| && free[k] == i && free[l] == i :: k == l
  {
    if starts[hi - 1] <= a {
      i := hi - 1;
      forall j | Inside(starts, j, a)
        ensures j == i
      {
        BlocksDisjoint(starts, i, j, a);
      }
    } else {
      i := EveryAddressInOneBlock(starts, free, a, hi - 1);
    }
  }

  /** As written, a freed block of the least size shows its address to the fit test: the word read is the size
      pointer in its own list node. */
  lemma SmallBlockLooksLarge(mem: Memory, starts: seq<int>, free: seq<int>, head: int, k: nat)
    requires HeapOk(mem, starts, free, head) && k < |free| && Size(starts, free[k]) == SMALLEST
    ensures Word(mem, starts[free[k]] + WORD) == starts[free[k]] + WORD
  {
    assert LinkOk(mem, starts, free, k);
  }

  /** So a program that allocates, frees and allocates again can get a block without room for its request. */
  method ReuseTooSmall(base: int, size: nat) returns (h: Heap, p: int, q: int, ghost i: nat)
    requires base > 0 && base % 8 == 0 && SMALLEST < Space(size) <= base + WORD
    ensures h.Valid() && p == q && Live(h.starts, h.free, i) && q == h.starts[i] + WORD
    ensures Size(h.starts, i) == SMALLEST < size + WORD
  {
    h := new Heap(false, base);
    ghost var k;
    p, k, i := h.Malloc(NODE);
    assert i == 0 && h.starts == [base, base + SMALLEST];
    h.Free(p, i);
    SmallBlockLooksLarge(h.mem, h.starts, h.free, h.head, 0);
    q, k, i := h.Malloc(size);
  }
}
