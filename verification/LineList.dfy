/** The time-ordered, doubly linked list of history lines. */
module LineLists {
  import opened Segments
  import opened LineStorage

  class LineNode {
    const id: int
    var timestamp: int
    var group: nat
    var next: LineNode?
    var prev: LineNode?
    var line: HashNode?

    constructor (id: int, timestamp: int, group: nat, line: HashNode)
      ensures this.id == id && this.timestamp == timestamp && this.group == group && this.line == line
    {
      this.id, this.timestamp, this.group, this.line := id, timestamp, group, line;
      next, prev := null, null;
    }

    ghost predicate Records(e: Entry)
      reads `timestamp, `group, `line
    {
      id == e.id && timestamp == e.timestamp && group == e.group && line == e.line
    }
  }

  /** What one node of the list records. */
  datatype Entry = Entry(id: int, timestamp: int, group: nat, line: HashNode)

  ghost function At(c: seq<LineNode>, i: int): LineNode? {
    if 0 <= i < |c| then c[i] else null
  }

  /** The `next` links run forward along c. */
  ghost predicate Forward(c: seq<LineNode>)
    reads (set n | n in c)`next
  {
    forall i {:trigger c[i].next} :: 0 <= i < |c| ==> c[i].next == At(c, i + 1)
  }

  /** The `prev` links run backward along c. */
  ghost predicate Backward(c: seq<LineNode>)
    reads (set n | n in c)`prev
  {
    forall i {:trigger c[i].prev} :: 0 <= i < |c| ==> c[i].prev == At(c, i - 1)
  }

  ghost predicate Recorded(c: seq<LineNode>, es: seq<Entry>)
    reads (set n | n in c)`timestamp, (set n | n in c)`group, (set n | n in c)`line
  {
    |es| == |c| && forall i :: 0 <= i < |c| ==> c[i].Records(es[i])
  }

  lemma AtDrop(c: seq<LineNode>, k: nat)
    requires k < |c|
    ensures At(Drop(c, k), k) == At(c, k + 1)
  {
  }

  lemma ForwardBypass(c: seq<LineNode>, k: nat)
    requires k < |c|
    requires forall i {:trigger c[i].next} :: 0 <= i < |c| && i != k && i != k - 1 ==> c[i].next == At(c, i + 1)
    requires k > 0 ==> c[k - 1].next == At(c, k + 1)
    ensures Forward(Drop(c, k))
  {
    var d := Drop(c, k);
    forall i | 0 <= i < |d| ensures d[i].next == At(d, i + 1) {
      assert d[i] == if i < k then c[i] else c[i + 1];
    }
  }

  lemma BackwardBypass(c: seq<LineNode>, k: nat)
    requires k < |c|
    requires forall i {:trigger c[i].prev} :: 0 <= i < |c| && i != k && i != k + 1 ==> c[i].prev == At(c, i - 1)
    requires k + 1 < |c| ==> c[k + 1].prev == At(c, k - 1)
    ensures Backward(Drop(c, k))
  {
    var d := Drop(c, k);
    forall i | 0 <= i < |d| ensures d[i].prev == At(d, i - 1) {
      assert d[i] == if i < k then c[i] else c[i + 1];
    }
  }

  lemma RecordedDrop(c: seq<LineNode>, es: seq<Entry>, k: nat)
    requires Recorded(c, es) && k < |c|
    ensures |es| == |c| && Recorded(Drop(c, k), Drop(es, k)) && c[k].Records(es[k])
  {
    var d := Drop(c, k);
    forall i | 0 <= i < |d| ensures d[i].Records(Drop(es, k)[i]) {
      assert c[if i < k then i else i + 1].Records(es[if i < k then i else i + 1]);
    }
  }

  class LineList {
    var head: LineNode?
    var tail: LineNode?
    ghost var nodes: seq<LineNode>
    ghost var entries: seq<Entry>
    ghost var Repr: set<object>

    ghost predicate Valid()
      reads this, Repr
    {
      && this in Repr && (forall n :: n in nodes ==> n in Repr)
      && Distinct(nodes)
      && head == At(nodes, 0) && tail == At(nodes, |nodes| - 1)
      && Forward(nodes) && Backward(nodes) && Recorded(nodes, entries)
    }

    constructor ()
      ensures Valid() && nodes == [] && entries == [] && Repr == {this}
    {
      head, tail, nodes, entries, Repr := null, null, [], [], {this};
    }

    lemma Ends()
      requires Valid()
      ensures head == At(nodes, 0) && tail == At(nodes, |nodes| - 1) && |entries| == |nodes| && Distinct(nodes)
      ensures this in Repr
    {
    }

    lemma Links(k: nat)
      requires Valid() && k < |nodes|
      ensures nodes[k].next == At(nodes, k + 1) && nodes[k].prev == At(nodes, k - 1)
      ensures |entries| == |nodes| && nodes[k].Records(entries[k])
    {
    }

    lemma Places(i: nat, j: nat)
      requires Valid() && i < |nodes| && j < |nodes|
      ensures nodes[i] == nodes[j] ==> i == j
    {
    }

    /** Append a new node to the end of the list. */
    method Append(node: LineNode, ghost e: Entry)
      requires Valid() && node !in Repr && node.Records(e)
      modifies Repr, node
      ensures Valid() && nodes == old(nodes) + [node] && entries == old(entries) + [e]
      ensures Repr == old(Repr) + {node}
    {
      if head != null {
        tail.next := node;
      } else {
        head := node;
      }
      node.next := null;
      node.prev := tail;
      tail := node;
      nodes, entries, Repr := nodes + [node], entries + [e], Repr + {node};
      assert old(Recorded(nodes, entries));
    }

    /** Forget all of the nodes. */
    method Reset()
      requires Valid()
      modifies this
      ensures Valid() && nodes == [] && entries == [] && Repr == old(Repr)
    {
      head, tail, nodes, entries := null, null, [], [];
    }

    /** Take the k'th node out of the list. */
    method Remove(node: LineNode, ghost k: nat)
      requires Valid() && k < |nodes| && nodes[k] == node
      modifies Repr
      ensures Valid() && nodes == Drop(old(nodes), k) && entries == Drop(old(entries), k)
      ensures node.Records(old(entries)[k]) && node in old(Repr) && Repr == old(Repr) - {node}
      ensures forall n :: n in nodes <==> n in old(nodes) && n != node
    {
      hide Recorded, Forward, Backward, Distinct, At;
      ghost var c := nodes;
      RecordedDrop(c, entries, k);
      WithoutOne(c, k);
      Bypass(node, k);
      nodes, entries, Repr := Drop(c, k), Drop(entries, k), Repr - {node};
    }

    /** Link the neighbours of the k'th node to each other. */
    method Bypass(node: LineNode, ghost k: nat)
      requires Valid() && k < |nodes| && nodes[k] == node
      modifies `head, `tail, (set n | n in nodes)`next, (set n | n in nodes)`prev
      ensures var d := Drop(nodes, k); Forward(d) && Backward(d) && head == At(d, 0) && tail == At(d, |d| - 1)
    {
      hide Recorded;
      ghost var c := nodes;
      assert c[k].next == At(c, k + 1) && c[k].prev == At(c, k - 1);
      if node.prev != null {
        node.prev.next := node.next;
      } else {
        head := node.next;
      }
      if node.next != null {
        node.next.prev := node.prev;
      } else {
        tail := node.prev;
      }
      ForwardBypass(c, k);
      BackwardBypass(c, k);
    }

    /** Replace the timestamp and group of the newest line. */
    method StampTail(timestamp: int, group: nat)
      requires Valid()
      modifies Repr
      ensures Valid() && nodes == old(nodes) && Repr == old(Repr)
      ensures entries == if nodes == [] then [] else
                           var es, n := old(entries), |nodes| - 1;
                           es[n := es[n].(timestamp := timestamp, group := group)]
    {
      if tail != null {
        ghost var n := |nodes| - 1;
        tail.timestamp, tail.group := timestamp, group;
        entries := entries[n := entries[n].(timestamp := timestamp, group := group)];
        assert forall i :: 0 <= i < n ==> old(nodes[i].Records(entries[i])) && nodes[i] != nodes[n];
      }
    }
  }
}
