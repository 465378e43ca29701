/** The linked list of the blocking queue: the parts of queue_push and queue_pull that run with the mutex held. */
module LinkedQueue {
  import opened Sequences

  const NULL := 0

  datatype Node = Node(data: int, next: int)
  datatype Queue = Queue(nodes: map<int, Node>, head: int, tail: int, size: int, maxSize: int)

  function At(chain: seq<int>, i: int): int {
    if 0 <= i < |chain| then chain[i] else NULL
  }

  predicate IsNode(nodes: map<int, Node>, n: int, next: int) {
    n != NULL && n in nodes && nodes[n].next == next
  }

  ghost predicate Linked(nodes: map<int, Node>, chain: seq<int>) {
    forall i | 0 <= i < |chain| :: IsNode(nodes, chain[i], At(chain, i + 1))
  }

  /** The nodes in order from head to tail; there are no others. */
  ghost predicate ChainOk(q: Queue, chain: seq<int>) {
    && q.size == |chain| && q.head == At(chain, 0) && q.tail == At(chain, |chain| - 1)
    && Linked(q.nodes, chain) && Distinct(chain) && forall n | n in q.nodes :: n in chain
  }

  function Contents(q: Queue, chain: seq<int>): seq<int> {
    seq(|chain|, i requires 0 <= i < |chain| => if chain[i] in q.nodes then q.nodes[chain[i]].data else 0)
  }

  function SetNext(nodes: map<int, Node>, a: int, n: int): map<int, Node> {
    if a in nodes then nodes[a := Node(nodes[a].data, n)] else nodes
  }

  function NextOf(nodes: map<int, Node>, a: int): int {
    if a in nodes then nodes[a].next else NULL
  }

  /** queue_push, lines 84 to 97: node n was just allocated. */
  function Push(q: Queue, n: int, data: int): Queue {
    var nodes := q.nodes[n := Node(data, NULL)];
    if q.size == 0 then Queue(nodes, n, n, q.size + 1, q.maxSize)
    else Queue(SetNext(nodes, q.tail, n), q.head, n, q.size + 1, q.maxSize)
  }

  /** queue_pull, lines 111 to 123. */
  function Pull(q: Queue): Queue {
    if q.size == 1 then Queue(q.nodes - {q.head}, NULL, NULL, q.size - 1, q.maxSize)
    else Queue(q.nodes - {q.head}, NextOf(q.nodes, q.head), q.tail, q.size - 1, q.maxSize)
  }

  lemma PushNodes(q: Queue, chain: seq<int>, n: int, data: int, i: int)
    requires ChainOk(q, chain) && n != NULL && n !in q.nodes && 0 <= i < |chain|
    ensures n !in chain && chain[i] in q.nodes && chain[i] in Push(q, n, data).nodes
    ensures Push(q, n, data).nodes[chain[i]] == Node(q.nodes[chain[i]].data, At(chain + [n], i + 1))
  {
    assert IsNode(q.nodes, chain[i], At(chain, i + 1)) && IsNode(q.nodes, chain[|chain| - 1], NULL);
    forall j | 0 <= j < |chain|
      ensures chain[j] != n
    {
      assert IsNode(q.nodes, chain[j], At(chain, j + 1));
    }
  }

  lemma PushLinks(q: Queue, chain: seq<int>, n: int, data: int)
    requires ChainOk(q, chain) && n != NULL && n !in q.nodes
    ensures Linked(Push(q, n, data).nodes, chain + [n])
  {
    var chain' := chain + [n];
    forall i | 0 <= i < |chain'|
      ensures IsNode(Push(q, n, data).nodes, chain'[i], At(chain', i + 1))
    {
      if i < |chain| {
        PushNodes(q, chain, n, data, i);
        assert IsNode(q.nodes, chain[i], At(chain, i + 1));
      }
    }
  }

  lemma PushKeepsChain(q: Queue, chain: seq<int>, n: int, data: int)
    requires ChainOk(q, chain) && n != NULL && n !in q.nodes
    ensures ChainOk(Push(q, n, data), chain + [n])
  {
    PushLinks(q, chain, n, data);
    forall i | 0 <= i < |chain|
      ensures chain[i] != n
    {
      PushNodes(q, chain, n, data, i);
    }
    assert Distinct(chain + [n]);
    assert n in chain + [n];
    forall m | m in q.nodes
      ensures m in chain + [n]
    {
      assert m in chain;
    }
  }

  lemma PushAppends(q: Queue, chain: seq<int>, n: int, data: int)
    requires ChainOk(q, chain) && n != NULL && n !in q.nodes
    ensures ChainOk(Push(q, n, data), chain + [n])
    ensures Contents(Push(q, n, data), chain + [n]) == Contents(q, chain) + [data]
  {
    PushKeepsChain(q, chain, n, data);
    hide ChainOk, Linked, Distinct;
    forall i | 0 <= i < |chain|
      ensures Contents(Push(q, n, data), chain + [n])[i] == Contents(q, chain)[i]
    {
      PushNodes(q, chain, n, data, i);
    }
  }

  lemma PullNodes(q: Queue, chain: seq<int>, i: int)
    requires ChainOk(q, chain) && 0 < i < |chain|
    ensures q.head == chain[0] && IsNode(q.nodes, chain[0], At(chain, 1)) && chain[i] in q.nodes
    ensures chain[i] in Pull(q).nodes && Pull(q).nodes[chain[i]] == q.nodes[chain[i]]
    ensures q.nodes[chain[i]].next == At(chain, i + 1)
  {
    assert IsNode(q.nodes, chain[0], At(chain, 1)) && IsNode(q.nodes, chain[i], At(chain, i + 1));
    assert chain[0] != chain[i];
  }

  lemma PullLinks(q: Queue, chain: seq<int>)
    requires ChainOk(q, chain) && chain != []
    ensures Linked(Pull(q).nodes, chain[1..])
  {
    var chain' := chain[1..];
    forall i | 0 <= i < |chain'|
      ensures IsNode(Pull(q).nodes, chain'[i], At(chain', i + 1))
    {
      PullNodes(q, chain, i + 1);
      assert IsNode(q.nodes, chain[i + 1], At(chain, i + 2));
    }
  }

  lemma DistinctTail(chain: seq<int>, m: int)
    requires Distinct(chain) && m in chain
    ensures Distinct(chain[1..]) && (m != chain[0] ==> m in chain[1..])
  {
  }

  lemma PullKeepsChain(q: Queue, chain: seq<int>)
    requires ChainOk(q, chain) && chain != []
    ensures ChainOk(Pull(q), chain[1..]) && q.head == chain[0] && IsNode(q.nodes, chain[0], At(chain, 1))
  {
    assert IsNode(q.nodes, chain[0], At(chain, 1));
    PullLinks(q, chain);
    PullLeavesNoOthers(q, chain);
    hide Linked, Distinct;
  }

  lemma PullLeavesNoOthers(q: Queue, chain: seq<int>)
    requires ChainOk(q, chain) && chain != []
    ensures Distinct(chain[1..]) && forall m | m in Pull(q).nodes :: m in chain[1..]
  {
    DistinctTail(chain, chain[0]);
    hide Linked;
    forall m | m in Pull(q).nodes
      ensures m in chain[1..]
    {
      DistinctTail(chain, m);
    }
  }

  lemma PullTakesFirst(q: Queue, chain: seq<int>)
    requires ChainOk(q, chain) && chain != []
    ensures ChainOk(Pull(q), chain[1..]) && q.head in q.nodes
    ensures Contents(q, chain) == [q.nodes[q.head].data] + Contents(Pull(q), chain[1..])
  {
    PullKeepsChain(q, chain);
    hide ChainOk, Linked, Distinct;
    forall i | 0 < i < |chain|
      ensures Contents(Pull(q), chain[1..])[i - 1] == Contents(q, chain)[i]
    {
      PullNodes(q, chain, i);
    }
  }

  /** The queue object, used by the thread that holds its mutex. */
  class SharedQueue {
    var nodes: map<int, Node>
    var head: int
    var tail: int
    var size: int
    const maxSize: int
    ghost var chain: seq<int>

    function Now(): Queue
      reads this
    {
      Queue(nodes, head, tail, size, maxSize)
    }

    ghost predicate Valid()
      reads this
    {
      ChainOk(Now(), chain)
    }

    constructor (maxSize: int)
      ensures Valid() && chain == [] && this.maxSize == maxSize
    {
      nodes, head, tail, size := map[], NULL, NULL, 0;
      this.maxSize := maxSize;
      chain := [];
    }

    method Append(n: int, data: int)
      requires Valid() && n != NULL && n !in nodes
      modifies this
      ensures Now() == Push(old(Now()), n, data) && Valid()
      ensures Contents(Now(), chain) == old(Contents(Now(), chain)) + [data]
    {
      PushAppends(Now(), chain, n, data);
      nodes := nodes[n := Node(data, NULL)];
      if size == 0 {
        tail := n;
        head := tail;
      } else {
        assert IsNode(nodes, chain[|chain| - 1], NULL);
        nodes := nodes[tail := Node(nodes[tail].data, n)];
        tail := n;
      }
      size := size + 1;
      chain := chain + [n];
    }

    method TakeFirst() returns (data: int)
      requires Valid() && size > 0
      modifies this
      ensures Now() == Pull(old(Now())) && Valid()
      ensures old(Contents(Now(), chain)) == [data] + Contents(Now(), chain)
    {
      PullTakesFirst(Now(), chain);
      hide Linked, Distinct, Contents, At;
      var node := head;
      if size == 1 {
        tail := NULL;
        head := tail;
      } else {
        head := nodes[node].next;
      }
      data := nodes[node].data;
      nodes := nodes - {node};
      size := size - 1;
      chain := chain[1..];
    }
  }
}
