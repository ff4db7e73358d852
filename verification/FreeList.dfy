/** A free-list: nodes of one size, handed out from blocks that are allocated several nodes at a time. */
module FreeLists {
  import opened Segments

  /** The memory of one node. Its first word links it into the free-list while it is idle, and is its owner's to use
      while it is not. */
  class Node {
    var next: Node?
    const bytes: array<char>

    constructor (size: nat)
      ensures next == null && fresh(bytes) && bytes.Length == size
    {
      next, bytes := null, new char[size];
    }
  }

  class FreeListBlock {
    var next: FreeListBlock?
    const nodes: seq<Node>

    constructor (size: nat, count: nat)
      ensures next == null && |nodes| == count && NewNodes(nodes, size) && fresh(Objects(this, [], nodes))
      ensures forall n :: n in nodes ==> fresh(n) && fresh(n.bytes)
    {
      var ns: seq<Node> := [];
      while |ns| < count
        invariant |ns| <= count && NewNodes(ns, size)
        invariant forall n :: n in ns ==> fresh(n) && fresh(n.bytes)
      {
        var node := new Node(size);
        ns := ns + [node];
      }
      next, nodes := null, ns;
    }
  }

  ghost predicate NewNodes(c: seq<Node>, size: nat) {
    && Distinct(c)
    && (forall n :: n in c ==> n.bytes.Length == size)
    && (forall i, j :: 0 <= i < j < |c| ==> c[i].bytes != c[j].bytes)
  }

  ghost function FirstNode(c: seq<Node>): Node? {
    if c == [] then null else c[0]
  }

  ghost function FirstBlock(bs: seq<FreeListBlock>): FreeListBlock? {
    if bs == [] then null else bs[0]
  }

  /** The links run through the nodes of c, and then to end. */
  ghost predicate Threaded(c: seq<Node>, end: Node?)
    reads (set n | n in c)`next
  {
    forall i {:trigger c[i].next} :: 0 <= i < |c| ==> c[i].next == if i + 1 < |c| then c[i + 1] else end
  }

  ghost predicate BlocksLinked(bs: seq<FreeListBlock>)
    reads (set b | b in bs)`next
  {
    forall i {:trigger bs[i].next} :: 0 <= i < |bs| ==> bs[i].next == FirstBlock(bs[i + 1..])
  }

  /** All of the nodes of a list of blocks, those of the last block first. */
  ghost function Gather(bs: seq<FreeListBlock>): seq<Node> {
    if bs == [] then [] else bs[|bs| - 1].nodes + Gather(bs[..|bs| - 1])
  }

  lemma {:induction false} GatherFront(b: FreeListBlock, bs: seq<FreeListBlock>)
    ensures Gather([b] + bs) == Gather(bs) + b.nodes
  {
    var all := [b] + bs;
    if bs == [] {
      assert all[..0] == [];
    } else {
      assert all[..|all| - 1] == [b] + bs[..|bs| - 1];
      GatherFront(b, bs[..|bs| - 1]);
    }
  }

  /** Every node of every block is gathered. */
  lemma {:induction false} GatherAll(bs: seq<FreeListBlock>, n: Node)
    ensures n in Gather(bs) <==> exists b :: b in bs && n in b.nodes
  {
    if bs != [] {
      var last := |bs| - 1;
      GatherAll(bs[..last], n);
      assert forall b :: b in bs <==> b in bs[..last] || b == bs[last];
    }
  }

  lemma ThreadedRest(c: seq<Node>)
    requires c != [] && Threaded(c, null)
    ensures c[0].next == FirstNode(c[1..]) && Threaded(c[1..], null)
  {
  }

  lemma ThreadedJoin(p: seq<Node>, q: seq<Node>)
    requires p != [] && Threaded(q, null) && Threaded(p, FirstNode(q))
    ensures Threaded(p + q, null) && FirstNode(p + q) == p[0]
  {
    var c := p + q;
    forall i | 0 <= i < |c| ensures c[i].next == if i + 1 < |c| then c[i + 1] else null {
      if i < |p| {
        assert c[i] == p[i];
      } else {
        assert c[i] == q[i - |p|];
      }
    }
  }

  /** Link each node of a block to the one that follows it. */
  method ThreadBlock(block: FreeListBlock)
    requires block.nodes != [] && Distinct(block.nodes)
    modifies (set n | n in block.nodes)`next
    ensures Threaded(block.nodes, null)
  {
    var i := 0;
    while i < |block.nodes| - 1
      invariant 0 <= i < |block.nodes|
      invariant forall k :: 0 <= k < i ==> block.nodes[k].next == block.nodes[k + 1]
    {
      block.nodes[i].next := block.nodes[i + 1];
      i := i + 1;
    }
    block.nodes[i].next := null;
  }

  /** Link the last node of a threaded block to a chain of other nodes. */
  method LinkLast(block: FreeListBlock, chain: Node?, ghost c: seq<Node>)
    requires block.nodes != [] && Distinct(block.nodes) && Threaded(block.nodes, null)
    requires chain == FirstNode(c) && Threaded(c, null) && forall n :: n in block.nodes ==> n !in c
    modifies (set n | n in block.nodes)`next
    ensures Threaded(block.nodes + c, null) && FirstNode(block.nodes + c) == block.nodes[0]
  {
    block.nodes[|block.nodes| - 1].next := chain;
    ThreadedJoin(block.nodes, c);
  }

  lemma {:induction false} GatherPrefix(bs: seq<FreeListBlock>, k: nat)
    requires Distinct(Gather(bs)) && k <= |bs|
    ensures Distinct(Gather(bs[..k]))
    ensures k < |bs| ==> Distinct(bs[k].nodes + Gather(bs[..k])) && Gather(bs[..k + 1]) == bs[k].nodes + Gather(bs[..k])
  {
    if k == |bs| {
      assert bs[..k] == bs;
    } else {
      var rest := bs[..|bs| - 1];
      var p, q := bs[|bs| - 1].nodes, Gather(rest);
      forall i, j | 0 <= i < j < |q| ensures q[i] != q[j] {
        assert q[i] == (p + q)[|p| + i] && q[j] == (p + q)[|p| + j];
      }
      assert rest[..k] == bs[..k];
      if k < |rest| {
        assert rest[..k + 1] == bs[..k + 1];
      } else {
        assert bs[..k + 1] == bs;
      }
      GatherPrefix(rest, k);
    }
  }

  /** No two blocks have a node in common, nor does a node appear twice in one. */
  lemma BlocksApart(bs: seq<FreeListBlock>, j: nat, k: nat)
    requires Distinct(Gather(bs)) && j <= k < |bs|
    ensures Distinct(bs[k].nodes)
    ensures j < k ==> forall n :: n in bs[j].nodes ==> n !in bs[k].nodes
    ensures forall n :: n in Gather(bs[..j]) ==> n !in bs[k].nodes
  {
    GatherPrefix(bs, k);
    var p, q := bs[k].nodes, Gather(bs[..k]);
    forall i, i' | 0 <= i < i' < |p| ensures p[i] != p[i'] {
      assert p[i] == (p + q)[i] && p[i'] == (p + q)[i'];
    }
    forall n | n in q ensures n !in p {
      var i :| 0 <= i < |q| && q[i] == n;
      assert (p + q)[|p| + i] == n;
      assert forall i' :: 0 <= i' < |p| ==> (p + q)[i'] == p[i'];
    }
    forall n | n in Gather(bs[..j]) ensures n in q {
      GatherAll(bs[..j], n);
      GatherAll(bs[..k], n);
    }
    if j < k {
      forall n | n in bs[j].nodes ensures n in q {
        assert bs[..k][j] == bs[j];
        GatherAll(bs[..k], n);
      }
    }
  }

  /** Each node is either idle or busy, and no node is twice anything. */
  ghost predicate Accounted(all: seq<Node>, free: seq<Node>, busy: set<Node>, ntotal: int, nbusy: int) {
    && Distinct(free)
    && (forall n :: n in all ==> n in free || n in busy)
    && (forall n :: n in free ==> n in all) && (forall n :: n in busy ==> n in all)
    && (forall n :: n in free ==> n !in busy)
    && |all| == ntotal && |busy| == nbusy && |free| == ntotal - nbusy
  }

  /** The list of blocks, and the nodes in them. */
  ghost predicate Listed(block: FreeListBlock?, bs: seq<FreeListBlock>, all: seq<Node>, size: nat, count: nat)
    reads (set b | b in bs)`next
  {
    && block == FirstBlock(bs) && BlocksLinked(bs)
    && (forall b :: b in bs ==> |b.nodes| == count)
    && all == Gather(bs) && NewNodes(all, size)
  }

  lemma ListedFront(b: FreeListBlock, bs: seq<FreeListBlock>, all: seq<Node>, size: nat, count: nat)
    requires Listed(b.next, bs, all, size, count)
    requires |b.nodes| == count && NewNodes(all + b.nodes, size)
    ensures Listed(b, [b] + bs, all + b.nodes, size, count)
  {
    GatherFront(b, bs);
  }

  lemma NewNodesDistinct(c: seq<Node>, size: nat)
    requires NewNodes(c, size)
    ensures Distinct(c)
  {
  }

  lemma AccountedExtend(all: seq<Node>, busy: set<Node>, ntotal: int, nbusy: int, more: seq<Node>, size: nat)
    requires Accounted(all, [], busy, ntotal, nbusy) && NewNodes(all, size) && NewNodes(more, size)
    requires forall n, m :: n in all && m in more ==> n != m && n.bytes != m.bytes
    ensures Accounted(all + more, more, busy, ntotal + |more|, nbusy) && NewNodes(all + more, size)
  {
  }

  lemma AccountedIdle(all: seq<Node>, size: nat, ntotal: int)
    requires NewNodes(all, size) && |all| == ntotal
    ensures Accounted(all, all, {}, ntotal, 0)
  {
  }

  lemma AccountedTake(all: seq<Node>, free: seq<Node>, busy: set<Node>, ntotal: int, nbusy: int)
    requires Accounted(all, free, busy, ntotal, nbusy) && free != []
    ensures free[0] !in busy && free[0] in all
    ensures Accounted(all, free[1..], busy + {free[0]}, ntotal, nbusy + 1)
  {
  }

  lemma AccountedReturn(all: seq<Node>, free: seq<Node>, busy: set<Node>, ntotal: int, nbusy: int, node: Node)
    requires Accounted(all, free, busy, ntotal, nbusy) && node in busy
    ensures node !in free && Accounted(all, [node] + free, busy - {node}, ntotal, nbusy - 1)
  {
  }

  ghost function Objects(list: object, bs: seq<FreeListBlock>, c: seq<Node>): set<object> {
    var blocks: set<object>, nodes: set<object> := set b | b in bs, set n | n in c;
    var arrays: set<object> := set n | n in c :: n.bytes;
    {list} + blocks + nodes + arrays
  }

  lemma ObjectsAdd(list: object, bs: seq<FreeListBlock>, c: seq<Node>, b: FreeListBlock)
    ensures Objects(list, [b] + bs, c + b.nodes) == Objects(list, bs, c) + Objects(b, [], b.nodes)
  {
  }

  /** A new block, threaded, in front of a list of blocks. */
  method NewBlock(size: nat, count: nat, next: FreeListBlock?) returns (b: FreeListBlock)
    requires count > 0
    ensures b.next == next && |b.nodes| == count && NewNodes(b.nodes, size) && Threaded(b.nodes, null)
    ensures fresh(b) && fresh(Objects(b, [], b.nodes)) && forall n :: n in b.nodes ==> fresh(n) && fresh(n.bytes)
  {
    b := new FreeListBlock(size, count);
    NewNodesDistinct(b.nodes, size);
    ThreadBlock(b);
    b.next := next;
  }

  class FreeList {
    const nodeSize: nat
    const blockingFactor: nat
    var nbusy: int
    var ntotal: int
    var block: FreeListBlock?
    var freeList: Node?
    ghost var blocks: seq<FreeListBlock>
    ghost var all: seq<Node>
    ghost var free: seq<Node>
    ghost var busy: set<Node>
    ghost var Repr: set<object>   // everything that is allocated for the list

    ghost predicate Built()
      reads `block, `blocks, `all, (set b | b in blocks)`next
    {
      blockingFactor > 0 && Listed(block, blocks, all, nodeSize, blockingFactor)
    }

    ghost predicate Valid()
      reads this, (set b | b in blocks)`next, (set n | n in free)`next
    {
      && Built()
      && Accounted(all, free, busy, ntotal, nbusy) && Objects(this, blocks, all) <= Repr
      && freeList == FirstNode(free) && Threaded(free, null)
    }

    constructor (nodeSize: nat, blockingFactor: nat)
      ensures Valid() && this.nodeSize == nodeSize
      ensures this.blockingFactor == (if blockingFactor < 1 then 1 else blockingFactor)
      ensures nbusy == 0 && busy == {} && ntotal == this.blockingFactor
      ensures fresh(Repr)
    {
      this.nodeSize := nodeSize;
      this.blockingFactor := if blockingFactor < 1 then 1 else blockingFactor;
      nbusy, ntotal, block, freeList := 0, 0, null, null;
      blocks, all, free, busy, Repr := [], [], [], {}, {this};
      new;
      var first := Extend();
    }

    /** Allocate a new block, and put its nodes on the free-list. */
    method Extend() returns (b: FreeListBlock)
      requires Valid() && free == []
      modifies this
      ensures Valid() && busy == old(busy) && nbusy == old(nbusy) && ntotal == old(ntotal) + blockingFactor
      ensures fresh(b) && blocks == [b] + old(blocks) && free == b.nodes && all == old(all) + b.nodes
      ensures free != [] && fresh(Repr - old(Repr)) && forall n :: n in b.nodes ==> fresh(n)
    {
      hide Accounted, NewNodes, Objects, Distinct, Listed, Gather, BlocksLinked, Threaded, FirstBlock;
      NodesKnown();
      b := NewBlock(nodeSize, blockingFactor, block);
      ntotal := ntotal + blockingFactor;
      block := b;
      freeList := b.nodes[0];
      AccountedExtend(all, busy, ntotal - blockingFactor, nbusy, b.nodes, nodeSize);
      ListedFront(b, blocks, all, nodeSize, blockingFactor);
      ObjectsAdd(this, blocks, all, b);
      blocks, all, free, Repr := [b] + blocks, all + b.nodes, b.nodes, Repr + Objects(b, [], b.nodes);
    }

    /** How many nodes are there that could be handed out without allocating more? */
    function Idle(): int
      reads this
    {
      ntotal - nbusy
    }

    /** Outstanding nodes are not in the chain of idle ones, which is acyclic and holds all of the others; and no two
        nodes share memory. */
    lemma NoAliasing()
      requires Valid()
      ensures |free| == Idle() && |busy| == nbusy && Distinct(free) && Threaded(free, null)
      ensures forall n :: n in all ==> (n in busy <==> n !in free)
      ensures forall m, n :: m in all && n in all && m != n ==> m.bytes != n.bytes
    {
      forall m, n | m in all && n in all && m != n ensures m.bytes != n.bytes {
        var i :| 0 <= i < |all| && all[i] == m;
        var j :| 0 <= j < |all| && all[j] == n;
      }
    }

    lemma NodesKnown()
      requires Built()
      ensures NewNodes(all, nodeSize)
    {
    }

    lemma FreeCount()
      requires Valid()
      ensures |free| == Idle() >= 0 && (freeList == null <==> Idle() == 0) && |all| == ntotal
      ensures (forall n :: n in free ==> n in all && n !in busy) && Objects(this, blocks, all) <= Repr
    {
    }

    lemma NodeSizes()
      requires Valid()
      ensures this in Repr && forall n :: n in all ==> n in Repr && n.bytes in Repr
      ensures forall n :: n in all ==> n.bytes.Length == nodeSize
    {
    }

    /** A node that is idle, or from a new block if there are none: nothing when there is no memory for one. */
    method New(memory: bool) returns (node: Node?)
      requires Valid()
      modifies this
      ensures Valid()
      ensures node == null <==> old(Idle()) == 0 && !memory
      ensures node == null ==> unchanged(this)
      ensures node != null ==> node !in old(busy) && busy == old(busy) + {node} && nbusy == old(nbusy) + 1
      ensures node != null ==> node.bytes.Length == nodeSize && node in all
      ensures node != null ==> ntotal == old(ntotal) + if old(Idle()) == 0 then blockingFactor else 0
      ensures node != null ==> node in old(all) || fresh(node)
      ensures old(all) <= all && fresh(Repr - old(Repr))
    {
      hide Valid;
      FreeCount();
      if freeList == null {
        if !memory {
          return null;
        }
        var added := Extend();
        FreeCount();
      }
      node := Take();
    }

    /** Take the first node off the free-list. */
    method Take() returns (node: Node)
      requires Valid() && free != []
      modifies this
      ensures Valid() && node == old(free[0]) && node !in old(busy) && node in all && node.bytes.Length == nodeSize
      ensures busy == old(busy) + {node} && nbusy == old(nbusy) + 1
      ensures unchanged(`ntotal, `block, `blocks, `all, `Repr)
    {
      hide Built, NewNodes, Accounted, Threaded, Objects;
      FreeCount();
      NodeSizes();
      node := freeList;
      ThreadedRest(free);
      AccountedTake(all, free, busy, ntotal, nbusy);
      freeList := node.next;
      nbusy := nbusy + 1;
      free, busy := free[1..], busy + {node};
    }

    /** Return a node to the free-list. */
    method Del(node: Node?)
      requires Valid() && (node != null ==> node in busy)
      modifies this, (set n | n in busy && n == node)`next
      ensures Valid() && all == old(all) && blocks == old(blocks) && Repr == old(Repr)
      ensures busy == old(busy) - {node} && nbusy == old(nbusy) - (if node == null then 0 else 1)
      ensures ntotal == old(ntotal)
    {
      hide Built, Accounted, NewNodes, Objects;
      if node != null {
        AccountedReturn(all, free, busy, ntotal, nbusy, node);
        node.next := freeList;
        freeList := node;
        nbusy := nbusy - 1;
        ThreadedJoin([node], free);
        free, busy := [node] + free, busy - {node};
      }
    }

    /** Return all of the nodes to the free-list, as one chain. */
    method Reset()
      requires Valid()
      modifies this, (set n | n in all)`next
      ensures Valid() && all == old(all) && blocks == old(blocks) && Repr == old(Repr) && ntotal == old(ntotal)
      ensures free == all && busy == {} && nbusy == 0
    {
      hide Accounted, NewNodes, Built, Threaded, Gather, Objects;
      FreeCount();
      BuiltFirst();
      ThreadBlocks();
      JoinBlocks();
      BuiltFirst();
      AccountedIdle(all, nodeSize, ntotal);
      nbusy := 0;
      free, busy := all, {};
    }

    /** Thread the nodes of each block. */
    method ThreadBlocks()
      requires Built()
      modifies (set n | n in all)`next
      ensures Built() && forall b :: b in blocks ==> Threaded(b.nodes, null)
    {
      hide NewNodes, Built, Threaded, Distinct, Gather;
      var b := block;
      ghost var k := 0;
      BuiltFirst();
      while b != null
        invariant Built() && 0 <= k <= |blocks| && b == FirstBlock(blocks[k..])
        invariant forall j :: 0 <= j < k ==> Threaded(blocks[j].nodes, null)
        decreases |blocks| - k
      {
        BlockNodes(k);
        ThreadBlock(b);
        b, k := b.next, k + 1;
      }
    }

    /** Join the nodes of the threaded blocks into one chain. */
    method JoinBlocks()
      requires Built() && forall b :: b in blocks ==> Threaded(b.nodes, null)
      modifies `freeList, (set n | n in all)`next
      ensures Built() && freeList == FirstNode(all) && Threaded(all, null)
    {
      hide NewNodes, Built, Threaded, Distinct, Gather;
      BuiltFirst();
      freeList := null;
      var b := block;
      ghost var k := 0;
      while b != null
        invariant Built() && 0 <= k <= |blocks| && b == FirstBlock(blocks[k..])
        invariant freeList == FirstNode(Gather(blocks[..k])) && Threaded(Gather(blocks[..k]), null)
        invariant forall j :: k <= j < |blocks| ==> Threaded(blocks[j].nodes, null)
        decreases |blocks| - k
      {
        BlockNodes(k);
        ghost var c := Gather(blocks[..k]);
        LinkLast(b, freeList, c);
        freeList := b.nodes[0];
        b, k := b.next, k + 1;
      }
      BuiltFirst();
    }

    lemma BuiltFirst()
      requires Built()
      ensures blocks[..|blocks|] == blocks == blocks[0..] && block == FirstBlock(blocks) && all == Gather(blocks)
      ensures blocks[..0] == [] && Gather([]) == [] && Threaded([], null) && NewNodes(all, nodeSize)
    {
      assert blocks[0..] == blocks;
    }

    lemma BlockNodes(k: nat)
      requires Built() && k < |blocks|
      ensures blocks[k..][0] == blocks[k] && blocks[k].next == FirstBlock(blocks[k + 1..])
      ensures blocks[k].nodes != [] && Distinct(blocks[k].nodes)
      ensures forall j, n :: 0 <= j < |blocks| && j != k && n in blocks[j].nodes ==> n !in blocks[k].nodes
      ensures forall n :: n in Gather(blocks[..k]) ==> n !in blocks[k].nodes
      ensures forall n :: n in blocks[k].nodes ==> n in Gather(blocks)
      ensures Gather(blocks[..k + 1]) == blocks[k].nodes + Gather(blocks[..k])
    {
      GatherPrefix(blocks, k);
      BlocksApart(blocks, k, k);
      forall j, n | 0 <= j < |blocks| && j != k && n in blocks[j].nodes ensures n !in blocks[k].nodes {
        BlocksApart(blocks, if j < k then j else k, if j < k then k else j);
      }
      forall n | n in blocks[k].nodes ensures n in Gather(blocks) {
        GatherAll(blocks, n);
      }
    }
  }
}
