/** The output queue itself: a list of fixed-size buffers, taken from a free-list of one node to a block. */
module CharQueues {
  import opened Segments
  import opened Arithmetic
  import opened FreeLists
  import opened IoUtil
  import opened QueueSpec

  /** The bytes of a list of buffers, end to end. */
  ghost function Joined(c: seq<Node>): string
    reads (set n | n in c :: n.bytes)
  {
    if c == [] then [] else c[0].bytes[..] + Joined(c[1..])
  }

  ghost predicate Sized(c: seq<Node>, size: nat) {
    forall n :: n in c ==> n.bytes.Length == size
  }

  lemma {:induction false} JoinedLength(c: seq<Node>, size: nat)
    requires Sized(c, size) && size > 0
    ensures |Joined(c)| == size * |c|
  {
    if c != [] {
      JoinedLength(c[1..], size);
      Multiples(size, |c| - 1, |c|);
      Distribute(size, |c| - 1, |c|);
    }
  }

  lemma {:induction false} JoinedLast(c: seq<Node>, n: Node)
    ensures Joined(c + [n]) == Joined(c) + n.bytes[..]
  {
    if c == [] {
      assert [n][1..] == [];
    } else {
      assert (c + [n])[1..] == c[1..] + [n];
      JoinedLast(c[1..], n);
      assert (c + [n])[0] == c[0];
    }
  }

  /** The text is in the buffers of c, from offset off of the first one. */
  ghost predicate Holds(c: seq<Node>, off: nat, text: string)
    reads (set n | n in c :: n.bytes)
  {
    off + |text| <= |Joined(c)| && Joined(c)[off..off + |text|] == text
  }

  /** The part of the text that is in the first buffer. */
  lemma HoldsFirst(c: seq<Node>, size: nat, off: nat, text: string, n: nat)
    requires c != [] && Sized(c, size) && Holds(c, off, text) && n <= |text| && off + n <= size
    ensures c[0].bytes.Length == size && c[0].bytes[off..off + n] == text[..n]
  {
    var first := c[0].bytes[..];
    assert Joined(c)[off..off + n] == text[..n];
    assert first[off..off + n] == Joined(c)[off..off + n];
  }

  lemma HoldsLess(c: seq<Node>, off: nat, text: string, r: nat)
    requires Holds(c, off, text) && r <= |text|
    ensures Holds(c, off + r, text[r..])
  {
  }

  lemma HoldsRest(c: seq<Node>, size: nat, off: nat, text: string, r: nat)
    requires c != [] && Sized(c, size) && Holds(c, off, text) && r <= |text| && off + r == size
    ensures Holds(c[1..], 0, text[r..])
  {
    assert Joined(c)[size..] == Joined(c[1..]);
    assert Joined(c)[size..][..|text| - r] == Joined(c)[off..off + |text|][r..];
  }

  /** A further buffer makes no difference to what is held. */
  lemma HoldsMore(c: seq<Node>, n: Node, off: nat, text: string)
    requires Holds(c, off, text)
    ensures Holds(c + [n], off, text)
  {
    JoinedLast(c, n);
  }

  /** Characters written behind the text, in the last buffer. */
  lemma HoldsAppended(before: string, last: string, off: nat, text: string, boff: nat, last': string, s: string)
    requires off + |text| == |before| + boff && boff + |s| <= |last'| == |last|
    requires (before + last)[off..off + |text|] == text
    requires last'[..boff] == last[..boff] && last'[boff..boff + |s|] == s
    ensures (before + last')[off..off + |text + s|] == text + s
  {
    var all := before + last';
    assert all[..|before| + boff] == before + last'[..boff] == (before + last)[..|before| + boff];
    assert all[off..off + |text|] == all[..off + |text|][off..] == (before + last)[..off + |text|][off..] == text;
    assert all[off + |text|..off + |text| + |s|] == last'[boff..boff + |s|];
    assert all[off..off + |text + s|] == all[off..off + |text|] + all[off + |text|..off + |text| + |s|];
  }

  /** Copy characters into the last buffer, behind the text that is held. */
  method WriteLast(tail: Node, boff: nat, s: string, ghost c: seq<Node>, ghost size: nat,
                   ghost off: nat, ghost text: string)
    requires Sized(c + [tail], size) && forall n :: n in c ==> n.bytes != tail.bytes
    requires Holds(c + [tail], off, text) && off + |text| == |Joined(c)| + boff && boff + |s| <= tail.bytes.Length
    modifies tail.bytes
    ensures Holds(c + [tail], off, text + s)
  {
    hide Joined;
    JoinedLast(c, tail);
    ghost var last := tail.bytes[..];
    var i := 0;
    while i < |s|
      invariant 0 <= i <= |s| && tail.bytes[..boff] == last[..boff] && tail.bytes[boff..boff + i] == s[..i]
    {
      tail.bytes[boff + i] := s[i];
      i := i + 1;
    }
    assert s[..i] == s;
    JoinedLast(c, tail);
    HoldsAppended(Joined(c), last, off, text, boff, tail.bytes[..], s);
  }

  ghost function LastNode(c: seq<Node>): Node? {
    if c == [] then null else c[|c| - 1]
  }

  /** Link a buffer behind the last one of a list. */
  method Attach(tail: Node?, node: Node, ghost c: seq<Node>)
    requires Distinct(c) && Threaded(c, null) && tail == LastNode(c) && node !in c
    modifies node`next, (set n | n in c)`next
    ensures Threaded(c + [node], null)
  {
    node.next := null;
    if tail != null {
      tail.next := node;
    }
    ghost var d := c + [node];
    forall i | 0 <= i < |d| ensures d[i].next == if i + 1 < |d| then d[i + 1] else null {
      if i < |c| {
        assert d[i] == c[i];
      }
    }
  }

  class CharQueue {
    const size: nat
    const bufmem: FreeList
    var head: Node?
    var tail: Node?
    var nflush: nat
    var ntotal: nat
    ghost var nodes: seq<Node>
    ghost var text: string

    ghost predicate Memory()
      reads bufmem, (set b | b in bufmem.blocks)`next, (set n | n in bufmem.free)`next
    {
      bufmem.Valid() && bufmem.nodeSize == size > 0 && bufmem.blockingFactor == 1
    }

    /** The list of buffers, all of which are in use. */
    ghost predicate Chain()
      reads `head, `tail, `nodes, (set n | n in nodes)`next, bufmem
    {
      && Distinct(nodes) && (forall n :: n in nodes ==> n in bufmem.busy) && bufmem.nbusy == |nodes|
      && head == FirstNode(nodes) && tail == LastNode(nodes) && Threaded(nodes, null)
    }

    /** The positions, when there are more buffers at the end than the characters need. */
    ghost predicate Places(more: nat)
      reads `nflush, `ntotal, `nodes, `text, bufmem
      requires size > 0
    {
      && nflush + |text| == ntotal && (text == [] ==> nflush == 0)
      && |nodes| == Used(size, nflush, ntotal) + more && bufmem.ntotal > 0
    }

    ghost predicate ValidWith(more: nat)
      reads this, bufmem, (set b | b in bufmem.blocks)`next, (set n | n in bufmem.free)`next,
            (set n | n in nodes)`next, (set n | n in nodes :: n.bytes)
    {
      Memory() && Chain() && Places(more) && Holds(nodes, nflush % size, text)
    }

    ghost predicate Valid()
      reads this, bufmem, (set b | b in bufmem.blocks)`next, (set n | n in bufmem.free)`next,
            (set n | n in nodes)`next, (set n | n in nodes :: n.bytes)
    {
      ValidWith(0)
    }

    ghost function View(): Queue
      reads `nflush, `text, bufmem
    {
      Queue(nflush, text, bufmem.ntotal)
    }

    ghost function Repr(): set<object>
      reads bufmem`Repr
    {
      {this} + bufmem.Repr
    }

    lemma InRepr()
      requires Memory() && Chain()
      ensures forall n :: n in nodes ==> n in bufmem.all && n in Repr() && n.bytes in Repr()
      ensures forall n :: n in bufmem.all ==> n in Repr() && n.bytes in Repr()
      ensures bufmem in Repr() && this in Repr() && Sized(nodes, size)
      ensures bufmem.Idle() == bufmem.ntotal - |nodes| >= 0
    {
      bufmem.FreeCount();
      bufmem.NodeSizes();
    }

    lemma ValidImplies()
      requires Valid()
      ensures size > 0 && WellFormed(size, View()) && Total(View()) == ntotal && |nodes| == Used(size, nflush, ntotal)
      ensures bufmem.Idle() == QueueSpec.Idle(size, View())
      ensures View().text == text && (head == null <==> text == [])
    {
      hide Holds, Threaded, FreeList.Valid, Joined, Distinct, Used, Request;
      InRepr();
      UsedByOne(size, View());
      if text != [] {
        RequestIs(size, View());
      }
    }

    constructor (size: nat)
      requires size > 0
      ensures Valid() && View() == Queue(0, [], 1) && this.size == size && fresh(Repr())
    {
      this.size := size;
      bufmem := new FreeList(size, 1);
      head, tail, nflush, ntotal, nodes, text := null, null, 0, 0, [], [];
      new;
      UsedByOne(size, View());
    }

    /** _glq_char_count */
    function CharCount(): (n: int)
      reads this, bufmem, (set b | b in bufmem.blocks)`next, (set n | n in bufmem.free)`next,
            (set n | n in nodes)`next, (set n | n in nodes :: n.bytes)
      requires Valid()
      ensures n == |text|
    {
      ValidImplies();
      if head != null then ntotal - nflush else 0
    }

    /** _glq_empty_queue */
    method Empty()
      requires Memory() && bufmem.ntotal > 0
      modifies this, bufmem, (set n | n in bufmem.all)`next
      ensures Valid() && View() == Queue(0, [], old(bufmem.ntotal)) && Repr() == old(Repr())
      ensures bufmem.all == old(bufmem.all)
    {
      hide FreeList.Valid, Joined, Distinct, Used, Threaded;
      bufmem.Reset();
      head, tail := null, null;
      nflush, ntotal := 0, 0;
      nodes, text := [], [];
      UsedByOne(size, View());
      NothingHeld();
    }

    static lemma NothingHeld()
      ensures var none: seq<Node> := []; Distinct(none) && Threaded(none, null) && Joined(none) == []
    {
    }

    /** Take the first buffer off the list. */
    method DropHead()
      requires Memory() && Chain() && |nodes| > 1
      modifies this`head, this`nodes, bufmem, (set n | n in bufmem.all)`next
      ensures Memory() && Chain() && nodes == old(nodes)[1..]
      ensures bufmem.ntotal == old(bufmem.ntotal) && Repr() == old(Repr()) && bufmem.all == old(bufmem.all)
    {
      var node := head;
      ThreadedRest(nodes);
      head := node.next;
      ghost var rest := nodes[1..];
      bufmem.Del(node);
      nodes := rest;
    }

    /** What the code works out to be left in the first buffer is there. */
    lemma FirstRequest()
      requires Valid() && text != []
      ensures nodes != [] && head == nodes[0] && View().text == text && (head == tail <==> |nodes| == 1)
      ensures var n, off, end := Request(size, View()), nflush % size, ntotal % size;
              && n == (if head != tail || end == 0 then size else end) - off && 0 < n <= |text|
              && off + n <= head.bytes.Length == size && head.bytes[off..off + n] == text[..n]
    {
      hide Threaded, Holds, Used, FreeList.Valid, WellFormed, Joined;
      ValidImplies();
      InRepr();
      RequestIs(size, View());
      HoldsFirst(nodes, size, nflush % size, text, Request(size, View()));
    }

    /** Some of the first buffer has been written; once all of it has, it is done with. */
    method Advance(nnew: nat, nbuff: nat, isTail: bool)
      requires Valid() && text != [] && nbuff == Request(size, View()) && 0 < nnew <= nbuff
      requires isTail <==> |nodes| == 1
      modifies this, bufmem, (set n | n in bufmem.all)`next
      ensures Valid() && View() == Sent(old(View()), nnew) && |text| < old(|text|) && Repr() == old(Repr())
      ensures bufmem.all == old(bufmem.all)
    {
      hide Threaded, Holds, Distinct, Used, FreeList.Valid, WellFormed, Request, Joined;
      ghost var q, c := View(), nodes;
      ghost var off := nflush % size;
      ValidImplies();
      InRepr();
      RequestIs(size, q);
      nflush := nflush + nnew;
      if nnew == nbuff {
        if isTail {
          Empty();
        } else {
          SentBlock(size, q);
          HoldsRest(c, size, off, text, nnew);
          DropHead();
          text := text[nnew..];
        }
      } else {
        SentPart(size, q, nnew);
        HoldsLess(c, off, text, nnew);
        text := text[nnew..];
      }
    }

    /** Offer what is in the first buffer to the write function. */
    method WriteHead(writer: Writer) returns (nnew: int)
      requires Valid() && text != []
      modifies this, bufmem, (set n | n in bufmem.all)`next, writer
      ensures Valid() && Repr() == old(Repr()) && bufmem.all == old(bufmem.all)
      ensures var q, n := old(View()), Request(size, old(View()));
              && nnew == Reply(old(writer.View()), n) && writer.View() == Answered(old(writer.View()), q.text[..n])
              && View() == (if nnew > 0 then Sent(q, nnew) else q) && (nnew > 0 ==> |text| < old(|text|))
    {
      hide ValidWith, View, Request, Sent, Answered, Reply;
      ValidImplies();
      FirstRequest();
      var isTail := head == tail;
      var nmodulo := ntotal % size;
      var nhead := if !isTail || nmodulo == 0 then size else nmodulo;
      var nbuff := nhead - nflush % size;
      nnew := writer.Write(head.bytes, nflush % size, nbuff);
      if nnew > 0 {
        Advance(nnew, nbuff, isTail);
      }
    }

    /** _glq_flush_queue */
    method Flush(writer: Writer) returns (state: FlushState)
      requires Valid()
      modifies this, bufmem, (set n | n in bufmem.all)`next, writer
      ensures Valid() && Repr() == old(Repr()) && bufmem.all == old(bufmem.all)
      ensures (View(), writer.View(), state) == QueueSpec.Flush(size, old(View()), old(writer.View()))
    {
      hide ValidWith, View, QueueSpec.Flush, Request, Sent, Answered, Reply, WellFormed;
      ValidImplies();
      while head != null
        invariant Valid() && Repr() == old(Repr()) && bufmem.all == old(bufmem.all)
        invariant QueueSpec.Flush(size, View(), writer.View())
               == QueueSpec.Flush(size, old(View()), old(writer.View()))
        decreases |text|
      {
        ValidImplies();
        FlushStep(size, View(), writer.View());
        var nnew := WriteHead(writer);
        if nnew == 0 {
          return Again;
        } else if nnew < 0 {
          return Error;
        }
      }
      ValidImplies();
      FlushStep(size, View(), writer.View());
      return Done;
    }

    /** Add a buffer to the end of the list: there may be no memory for one. */
    method Grow(memory: bool) returns (ok: bool)
      requires Valid() && ntotal % size == 0
      modifies this, bufmem, (set n | n in bufmem.all)`next
      ensures ok <==> !(NeedsBlock(size, old(View())) && !memory)
      ensures fresh(Repr() - old(Repr())) && ntotal == old(ntotal) == Total(View())
      ensures !ok ==> Valid() && View() == old(View())
      ensures ok ==> ValidWith(1)
      ensures ok ==>
              View() == old(View()).(nblock := old(bufmem.ntotal) + if NeedsBlock(size, old(View())) then 1 else 0)
    {
      hide Threaded, Holds, Used, FreeList.Valid, WellFormed, Joined, Sized;
      ValidImplies();
      InRepr();
      var node := bufmem.New(memory);
      if node == null {
        return false;
      }
      Enlist(node);
      return true;
    }

    /** Put a node that has just been allocated at the end of the list. */
    method Enlist(node: Node)
      requires Memory() && node in bufmem.busy && node !in nodes && bufmem.nbusy == |nodes| + 1
      requires Distinct(nodes) && (forall n :: n in nodes ==> n in bufmem.busy)
      requires head == FirstNode(nodes) && tail == LastNode(nodes) && Threaded(nodes, null)
      requires Holds(nodes, nflush % size, text)
      modifies `head, `tail, `nodes, node`next, (set n | n in nodes)`next
      ensures Memory() && Chain() && nodes == old(nodes) + [node] && Holds(nodes, nflush % size, text)
    {
      hide Threaded, Holds, FreeList.Valid, Joined;
      ghost var c := nodes;
      bufmem.FreeCount();
      Attach(tail, node, c);
      if tail == null {
        head := node;
      }
      tail := node;
      HoldsMore(c, node, nflush % size, text);
      nodes := c + [node];
    }

    /** Write characters into the last buffer, which has room for them. */
    method Fill(s: string)
      requires size > 0 && ValidWith(if ntotal % size == 0 then 1 else 0) && 0 < |s| <= Room(size, View())
      modifies this, (set n | n in bufmem.all :: n.bytes)
      ensures Valid() && View() == old(View()).(text := old(text) + s)
      ensures Repr() == old(Repr()) && bufmem.all == old(bufmem.all)
    {
      hide Threaded, Holds, Used, FreeList.Valid, WellFormed, Joined, Distinct;
      ghost var q, more: nat := View(), if ntotal % size == 0 then 1 else 0;
      InRepr();
      NextPlace(size, q);
      UsedAfter(size, q, |s|);
      ghost var c := nodes[..|nodes| - 1];
      assert nodes == c + [tail];
      JoinedLength(c, size);
      BytesApart(c);
      WriteLast(tail, ntotal % size, s, c, size, nflush % size, text);
      ntotal := ntotal + |s|;
      text := text + s;
    }

    lemma BytesApart(c: seq<Node>)
      requires Memory() && Chain() && tail != null && nodes == c + [tail]
      ensures forall n :: n in c ==> n.bytes != tail.bytes
    {
      var last := |nodes| - 1;
      forall n | n in c ensures n.bytes != tail.bytes {
        var i :| 0 <= i < |c| && c[i] == n;
        assert nodes[i] == n && nodes[last] == tail;
        assert n in nodes && n in bufmem.busy && tail in nodes && tail in bufmem.busy;
        InRepr();
        var j :| 0 <= j < |bufmem.all| && bufmem.all[j] == n;
        var k :| 0 <= k < |bufmem.all| && bufmem.all[k] == tail;
      }
    }

    lemma Owns(more: nat)
      requires ValidWith(more)
      ensures this in Repr() && bufmem in Repr() && forall n :: n in bufmem.all ==> n in Repr() && n.bytes in Repr()
    {
      InRepr();
    }

    lemma Reached()
      requires Valid()
      ensures size > 0 && Total(View()) == ntotal && bufmem.Idle() == QueueSpec.Idle(size, View())
      ensures this in Repr() && bufmem in Repr() && forall n :: n in bufmem.all ==> n in Repr() && n.bytes in Repr()
    {
      ValidImplies();
      Owns(0);
    }

    /** Before memory is allocated for a further buffer, try to write what there is. */
    method MakeReady(writer: Writer) returns (state: FlushState)
      requires Valid()
      modifies this, bufmem, (set n | n in bufmem.all)`next, writer
      ensures Valid() && Repr() == old(Repr())
      ensures (View(), writer.View(), state) == Ready(size, old(View()), old(writer.View()))
    {
      hide ValidWith, QueueSpec.Flush, WellFormed;
      ValidImplies();
      state := Done;
      if ntotal % size == 0 && bufmem.Idle() == 0 {
        state := Flush(writer);
      }
    }

    lemma FilledIs(q: Queue, s: string)
      requires size > 0
      ensures QueueSpec.Filled(size, q, s)
            == Queue(q.nflush, q.text + s, q.nblock + if NeedsBlock(size, q) then 1 else 0)
    {
    }

    /** Append as much as fits in the last buffer, or in a new one. */
    method AppendChunk(chars: string, writer: Writer, memory: nat) returns (nnew: nat, left: nat)
      requires Valid() && chars != []
      modifies Repr(), writer
      ensures Valid() && fresh(Repr() - old(Repr()))
      ensures (View(), writer.View(), nnew, left) == Chunk(size, old(View()), old(writer.View()), chars, memory)
    {
      hide ValidWith, Ready, WellFormed, QueueSpec.Filled, Used, QueueSpec.Idle, QueueSpec.Flush, QueueSpec.Append;
      Reached();
      var state := MakeReady(writer);
      if state == Error {
        return 0, memory;
      }
      Reached();
      ghost var q := View();
      left := memory;
      var boff := ntotal % size;
      if boff == 0 {
        var needs := bufmem.Idle() == 0;
        var ok := Grow(memory > 0);
        if !ok {
          return 0, memory;
        }
        left := if needs then memory - 1 else memory;
      }
      var nleft := size - boff;
      nnew := if nleft < |chars| then nleft else |chars|;
      Owns(if boff == 0 then 1 else 0);
      Fill(chars[..nnew]);
      FilledIs(q, chars[..nnew]);
    }

    /** _glq_append_chars: there is memory for so many further buffers. */
    method Append(chars: string, writer: Writer, memory: nat) returns (ndone: nat)
      requires Valid()
      modifies Repr(), writer
      ensures Valid() && fresh(Repr() - old(Repr()))
      ensures (View(), writer.View(), ndone) == QueueSpec.Append(size, old(View()), old(writer.View()), chars, memory)
    {
      hide ValidWith, View, Chunk, WellFormed, QueueSpec.Append, Answered, Reply;
      ValidImplies();
      ndone := 0;
      var left := memory;
      assert chars[0..] == chars;
      while ndone < |chars|
        invariant ndone <= |chars| && Valid() && fresh(Repr() - old(Repr()))
        invariant Behind(QueueSpec.Append(size, View(), writer.View(), chars[ndone..], left), ndone)
               == QueueSpec.Append(size, old(View()), old(writer.View()), chars, memory)
      {
        AppendStep(size, View(), writer.View(), chars[ndone..], left);
        var nnew;
        nnew, left := AppendChunk(chars[ndone..], writer, left);
        if nnew == 0 {
          return;
        }
        assert chars[ndone..][nnew..] == chars[ndone + nnew..];
        ndone := ndone + nnew;
      }
      assert chars[ndone..] == [];
      AppendStep(size, View(), writer.View(), [], left);
    }
  }
}
