/** What the output queue does to the characters in it, whatever the function that it writes them with does. */
module QueueSpec {
  import opened Arithmetic
  import opened IoUtil

  /** The characters that are waiting to be written, and where in the blocks of the queue they are. */
  datatype Queue = Queue(
    nflush: nat,      // characters written since the queue was last empty
    text: string,     // characters not written yet
    nblock: int       // blocks of memory allocated so far
  )

  datatype FlushState = Done | Again | Error

  /** How many blocks there are between the first character not written and the last one appended. */
  function Used(size: nat, nflush: nat, ntotal: nat): int
    requires size > 0
  {
    (ntotal + size - 1) / size - nflush / size
  }

  function Total(q: Queue): nat {
    q.nflush + |q.text|
  }

  function Idle(size: nat, q: Queue): int
    requires size > 0
  {
    q.nblock - Used(size, q.nflush, Total(q))
  }

  ghost predicate WellFormed(size: nat, q: Queue)
    requires size > 0
  {
    (q.text == [] ==> q.nflush == 0) && Idle(size, q) >= 0 && q.nblock > 0
  }

  /** How much of the text is in the first block. */
  function Request(size: nat, q: Queue): (n: nat)
    requires size > 0
    ensures n <= |q.text| && (q.text != [] ==> n > 0)
  {
    var room := size - q.nflush % size;
    if |q.text| < room then |q.text| else room
  }

  /** The queue after r of its characters have been written. */
  function Sent(q: Queue, r: nat): Queue
    requires r <= |q.text|
  {
    if r == |q.text| then q.(nflush := 0, text := []) else q.(nflush := q.nflush + r, text := q.text[r..])
  }

  /** _glq_flush_queue. */
  function Flush(size: nat, q: Queue, sink: Sink): (Queue, Sink, FlushState)
    requires size > 0
    decreases |q.text|
  {
    if q.text == [] then (q, sink, Done)
    else
      var n := Request(size, q);
      var r := Reply(sink, n);
      var sink' := Answered(sink, q.text[..n]);
      if r > 0 then Flush(size, Sent(q, r), sink') else (q, sink', if r == 0 then Again else Error)
  }

  predicate NeedsBlock(size: nat, q: Queue)
    requires size > 0
  {
    Total(q) % size == 0 && Idle(size, q) == 0
  }

  /** Before memory is allocated for a further block, try to write what there is. */
  function Ready(size: nat, q: Queue, sink: Sink): (Queue, Sink, FlushState)
    requires size > 0
  {
    if NeedsBlock(size, q) then Flush(size, q, sink) else (q, sink, Done)
  }

  /** Append to the block that is being filled, or to a new one. */
  function Filled(size: nat, q: Queue, s: string): Queue
    requires size > 0
  {
    q.(text := q.text + s, nblock := q.nblock + if NeedsBlock(size, q) then 1 else 0)
  }

  function Room(size: nat, q: Queue): (n: nat)
    requires size > 0
    ensures n > 0
  {
    size - Total(q) % size
  }

  /** Append as much as fits in one block, if there is memory for so many more blocks: how much that is, and how many
      more blocks there is memory for then. */
  function Chunk(size: nat, q: Queue, sink: Sink, chars: string, memory: nat): (r: (Queue, Sink, nat, nat))
    requires size > 0
    ensures r.2 <= |chars|
  {
    var (q1, sink1, f) := Ready(size, q, sink);
    if f.Error? || (NeedsBlock(size, q1) && memory == 0) then (q1, sink1, 0, memory)
    else
      var n := if Room(size, q1) < |chars| then Room(size, q1) else |chars|;
      (Filled(size, q1, chars[..n]), sink1, n, if NeedsBlock(size, q1) then memory - 1 else memory)
  }

  /** _glq_append_chars, and how many characters it appends, when there is memory for so many more blocks. */
  function Append(size: nat, q: Queue, sink: Sink, chars: string, memory: nat): (Queue, Sink, nat)
    requires size > 0
    decreases |chars|
  {
    if chars == [] then (q, sink, 0)
    else
      var (q1, sink1, n, left) := Chunk(size, q, sink, chars, memory);
      if n == 0 then (q1, sink1, 0)
      else
        var (q2, sink2, k) := Append(size, q1, sink1, chars[n..], left);
        (q2, sink2, n + k)
  }

  /** One request of a flush. */
  lemma FlushStep(size: nat, q: Queue, sink: Sink)
    requires size > 0
    ensures q.text == [] ==> Flush(size, q, sink) == (q, sink, Done)
    ensures q.text != [] ==>
              var n := Request(size, q);
              var r, sink' := Reply(sink, n), Answered(sink, q.text[..n]);
              Flush(size, q, sink)
                == if r > 0 then Flush(size, Sent(q, r), sink') else (q, sink', if r == 0 then Again else Error)
  {
  }

  lemma AppendStep(size: nat, q: Queue, sink: Sink, chars: string, memory: nat)
    requires size > 0
    ensures chars == [] ==> Append(size, q, sink, chars, memory) == (q, sink, 0)
    ensures chars != [] ==>
              var (q1, sink1, n, left) := Chunk(size, q, sink, chars, memory);
              Append(size, q, sink, chars, memory)
                == if n == 0 then (q1, sink1, 0) else Behind(Append(size, q1, sink1, chars[n..], left), n)
  {
  }

  /** What appending the rest of some characters gives, when n of them have been appended. */
  function Behind(r: (Queue, Sink, nat), n: nat): (Queue, Sink, nat) {
    (r.0, r.1, n + r.2)
  }

  // ---- Blocks ----

  /** Where the first and the last of the characters in the queue are. */
  lemma Places(size: nat, nflush: nat, ntotal: nat) returns (first: nat, last: int)
    requires size > 0 && nflush <= ntotal
    ensures nflush == size * first + nflush % size && first == nflush / size
    ensures last == (ntotal + size - 1) / size && Used(size, nflush, ntotal) == last - first
    ensures size * (last - first) == size * last - size * first
    ensures ntotal == if ntotal % size == 0 then size * last else size * last - size + ntotal % size
    ensures nflush < ntotal ==> last > first
  {
    first, last := nflush / size, (ntotal + size - 1) / size;
    var q, r := ntotal / size, ntotal % size;
    Multiples(size, q, q + 1);
    if r == 0 {
      DivUnique(ntotal + size - 1, size, q, size - 1);
    } else {
      DivUnique(ntotal + size - 1, size, q + 1, r - 1);
    }
    Multiples(size, first, last);
    Multiples(size, last, first);
  }

  /** The request that the code computes from the position of the last block. */
  lemma RequestIs(size: nat, q: Queue)
    requires size > 0 && q.text != []
    ensures var used, end := Used(size, q.nflush, Total(q)), Total(q) % size;
            && used > 0
            && Request(size, q) == (if used != 1 || end == 0 then size else end) - q.nflush % size
            && (used > 1 ==> Request(size, q) < |q.text|)
            && (used == 1 ==> Request(size, q) == |q.text|)
  {
    var first, last := Places(size, q.nflush, Total(q));
    Multiples(size, 1, last - first);
    Multiples(size, 2, last - first);
  }

  /** Writing part of the first block leaves the blocks as they were. */
  lemma SentPart(size: nat, q: Queue, r: nat)
    requires size > 0 && 0 < r < Request(size, q)
    ensures var q' := Sent(q, r);
            q'.text == q.text[r..] && Total(q') == Total(q) && q'.nflush % size == q.nflush % size + r
            && Used(size, q'.nflush, Total(q')) == Used(size, q.nflush, Total(q))
  {
    DivUnique(q.nflush + r, size, q.nflush / size, q.nflush % size + r);
  }

  /** Writing all of the first block leaves those after it. */
  lemma SentBlock(size: nat, q: Queue)
    requires size > 0 && 0 < Request(size, q) < |q.text|
    ensures var q' := Sent(q, Request(size, q));
            q'.text == q.text[Request(size, q)..] && Total(q') == Total(q) && q'.nflush % size == 0
            && q.nflush % size + Request(size, q) == size
            && Used(size, q'.nflush, Total(q')) == Used(size, q.nflush, Total(q)) - 1
  {
    Multiples(size, q.nflush / size, q.nflush / size + 1);
    DivUnique(q.nflush + Request(size, q), size, q.nflush / size + 1, 0);
  }

  /** Where the next character goes in the blocks that hold the text. */
  lemma NextPlace(size: nat, q: Queue)
    requires size > 0 && (q.text == [] ==> q.nflush == 0)
    ensures var used, end := Used(size, q.nflush, Total(q)), Total(q) % size;
            && used >= 0
            && q.nflush % size + |q.text| == (if end == 0 then size * used else size * (used - 1) + end)
            && (end != 0 ==> used > 0)
  {
    var first, last := Places(size, q.nflush, Total(q));
    Multiples(size, last - first - 1, last - first);
  }

  /** Filling up the last block, or starting a new one. */
  lemma UsedAfter(size: nat, q: Queue, n: nat)
    requires size > 0 && 0 < n <= Room(size, q) && (q.text == [] ==> q.nflush == 0)
    ensures var used := Used(size, q.nflush, Total(q));
            Used(size, q.nflush, Total(q) + n) == used + if Total(q) % size == 0 then 1 else 0
  {
    var first, last := Places(size, q.nflush, Total(q));
    Multiples(size, last, last + 1);
    Multiples(size, last - 1, last);
    var e := Total(q) % size;
    if e == 0 {
      DivUnique(Total(q) + n + size - 1, size, last + 1, n - 1);
    } else {
      DivUnique(Total(q) + n + size - 1, size, last, e + n - 1);
    }
  }

  // ---- The invariant is kept ----

  lemma UsedByOne(size: nat, q: Queue)
    requires size > 0
    ensures q.text == [] && q.nflush == 0 ==> Used(size, q.nflush, Total(q)) == 0
  {
    var first, last := Places(size, q.nflush, Total(q));
  }

  lemma SentKeeps(size: nat, q: Queue, r: nat)
    requires size > 0 && WellFormed(size, q) && 0 < r <= Request(size, q)
    ensures WellFormed(size, Sent(q, r)) && Sent(q, r).nblock == q.nblock
  {
    RequestIs(size, q);
    if r < Request(size, q) {
      SentPart(size, q, r);
    } else if r < |q.text| {
      SentBlock(size, q);
    } else {
      UsedByOne(size, Sent(q, r));
    }
  }

  lemma {:induction false} FlushKeeps(size: nat, q: Queue, sink: Sink)
    requires size > 0 && WellFormed(size, q)
    ensures var (q', _, _) := Flush(size, q, sink); WellFormed(size, q') && q'.nblock == q.nblock
    decreases |q.text|
  {
    hide WellFormed;
    if q.text != [] {
      var n := Request(size, q);
      var r := Reply(sink, n);
      if r > 0 {
        SentKeeps(size, q, r);
        FlushKeeps(size, Sent(q, r), Answered(sink, q.text[..n]));
      }
    }
  }

  lemma FilledKeeps(size: nat, q: Queue, s: string)
    requires size > 0 && WellFormed(size, q) && 0 < |s| <= Room(size, q)
    ensures WellFormed(size, Filled(size, q, s))
  {
    UsedAfter(size, q, |s|);
  }

  lemma ChunkKeeps(size: nat, q: Queue, sink: Sink, chars: string, memory: nat)
    requires size > 0 && WellFormed(size, q) && chars != []
    ensures WellFormed(size, Chunk(size, q, sink, chars, memory).0)
  {
    hide WellFormed, Filled, Room, NeedsBlock, Flush;
    FlushKeeps(size, q, sink);
    var (q1, sink1, f) := Ready(size, q, sink);
    var n := if Room(size, q1) < |chars| then Room(size, q1) else |chars|;
    if !f.Error? {
      FilledKeeps(size, q1, chars[..n]);
    }
  }

  lemma {:induction false} AppendKeeps(size: nat, q: Queue, sink: Sink, chars: string, memory: nat)
    requires size > 0 && WellFormed(size, q)
    ensures WellFormed(size, Append(size, q, sink, chars, memory).0)
    decreases |chars|
  {
    hide WellFormed, Chunk;
    if chars != [] {
      ChunkKeeps(size, q, sink, chars, memory);
      var (q1, sink1, n, left) := Chunk(size, q, sink, chars, memory);
      if n > 0 {
        AppendKeeps(size, q1, sink1, chars[n..], left);
      }
    }
  }

  // ---- Nothing is lost, repeated or reordered ----

  /** Everything that the write function has been given, and is yet to be given. */
  function Stream(q: Queue, sink: Sink): string {
    sink.accepted + q.text
  }

  lemma SentConserves(q: Queue, sink: Sink, n: nat)
    requires 0 < n <= |q.text|
    ensures var r, sink' := Reply(sink, n), Answered(sink, q.text[..n]);
            if r > 0 then Stream(Sent(q, r), sink') == Stream(q, sink) && |Sent(q, r).text| < |q.text|
            else sink'.accepted == sink.accepted
  {
    var r := Reply(sink, n);
    if r > 0 {
      assert q.text[..n][..r] == q.text[..r];
      assert q.text == q.text[..r] + q.text[r..];
      assert r == |q.text| ==> q.text[r..] == [];
    }
  }

  /** Whatever the write function does, a flush moves characters from the front of the queue to it, in order; and it
      is only done when none are left. */
  lemma {:induction false} FlushConserves(size: nat, q: Queue, sink: Sink)
    requires size > 0
    ensures var (q', sink', f) := Flush(size, q, sink);
            && Stream(q', sink') == Stream(q, sink)
            && (f.Done? <==> q'.text == [])
            && sink'.answers == sink.answers && sink'.calls >= sink.calls
            && (f.Error? ==> sink'.calls > sink.calls && sink.answers(sink'.calls - 1) < 0)
            && (f.Again? ==> sink'.calls > sink.calls && sink.answers(sink'.calls - 1) == 0)
    decreases |q.text|
  {
    hide Request, Sent, Stream;
    if q.text != [] {
      var n := Request(size, q);
      SentConserves(q, sink, n);
      var r := Reply(sink, n);
      if r > 0 {
        FlushConserves(size, Sent(q, r), Answered(sink, q.text[..n]));
      } else {
        StreamSame(q, sink, Answered(sink, q.text[..n]));
      }
    }
  }

  lemma StreamSame(q: Queue, sink: Sink, sink': Sink)
    requires sink'.accepted == sink.accepted
    ensures Stream(q, sink') == Stream(q, sink)
  {
  }

  lemma FilledConserves(size: nat, q: Queue, sink: Sink, s: string)
    requires size > 0
    ensures Stream(Filled(size, q, s), sink) == Stream(q, sink) + s
  {
    assert sink.accepted + (q.text + s) == sink.accepted + q.text + s;
  }

  lemma TakeMore(chars: string, n: nat, k: nat)
    requires n <= |chars| && k <= |chars| - n
    ensures chars[..n] + chars[n..][..k] == chars[..n + k]
  {
  }

  lemma ChunkConserves(size: nat, q: Queue, sink: Sink, chars: string, memory: nat)
    requires size > 0 && chars != []
    ensures var (q', sink', n, left) := Chunk(size, q, sink, chars, memory);
            && Stream(q', sink') == Stream(q, sink) + chars[..n]
            && sink'.answers == sink.answers && sink'.calls >= sink.calls
            && q'.nblock + left == q.nblock + memory
            && (n == 0 ==> left == 0 || (sink'.calls > 0 && sink.answers(sink'.calls - 1) < 0))
  {
    hide Stream, Flush, NeedsBlock, Room;
    FlushConserves(size, q, sink);
    FlushBlocks(size, q, sink);
    var (q1, sink1, f) := Ready(size, q, sink);
    if f.Error? || (NeedsBlock(size, q1) && memory == 0) {
      assert Stream(q, sink) + chars[..0] == Stream(q, sink);
    } else {
      FilledConserves(size, q1, sink1, chars[..if Room(size, q1) < |chars| then Room(size, q1) else |chars|]);
    }
  }

  /** Appending k characters adds the first k of them to the stream, and nothing else; fewer are only appended when
      the write function fails, or there is no memory. */
  lemma {:induction false} AppendConserves(size: nat, q: Queue, sink: Sink, chars: string, memory: nat)
    requires size > 0
    ensures var (q', sink', k) := Append(size, q, sink, chars, memory);
            && k <= |chars| && Stream(q', sink') == Stream(q, sink) + chars[..k]
            && sink'.answers == sink.answers && sink'.calls >= sink.calls
            && q'.nblock <= q.nblock + memory
            && (k < |chars| ==>
                  q'.nblock == q.nblock + memory || (sink'.calls > 0 && sink.answers(sink'.calls - 1) < 0))
    decreases |chars|
  {
    hide Stream, Chunk;
    if chars == [] {
      assert Stream(q, sink) + chars[..0] == Stream(q, sink);
    } else {
      ChunkConserves(size, q, sink, chars, memory);
      var (q1, sink1, n, left) := Chunk(size, q, sink, chars, memory);
      if n > 0 {
        AppendConserves(size, q1, sink1, chars[n..], left);
        var k := Append(size, q1, sink1, chars[n..], left).2;
        TakeMore(chars, n, k);
        assert Stream(q, sink) + chars[..n] + chars[n..][..k] == Stream(q, sink) + (chars[..n] + chars[n..][..k]);
      }
    }
  }

  lemma {:induction false} FlushBlocks(size: nat, q: Queue, sink: Sink)
    requires size > 0
    ensures Flush(size, q, sink).0.nblock == q.nblock
    decreases |q.text|
  {
    if q.text != [] {
      var n := Request(size, q);
      var r := Reply(sink, n);
      if r > 0 {
        FlushBlocks(size, Sent(q, r), Answered(sink, q.text[..n]));
      }
    }
  }

  // ---- Memory ----

  /** A write function that always accepts something. */
  ghost predicate Willing(sink: Sink) {
    forall i: nat :: sink.answers(i) > 0
  }

  lemma {:induction false} WillingFlush(size: nat, q: Queue, sink: Sink)
    requires size > 0 && Willing(sink)
    ensures var (q', sink', f) := Flush(size, q, sink);
            f.Done? && q' == (if q.text == [] then q else Queue(0, [], q.nblock)) && sink'.answers == sink.answers
    decreases |q.text|
  {
    if q.text != [] {
      var n := Request(size, q);
      var r := Reply(sink, n);
      WillingFlush(size, Sent(q, r), Answered(sink, q.text[..n]));
    }
  }

  lemma WillingChunk(size: nat, q: Queue, sink: Sink, chars: string, memory: nat)
    requires size > 0 && Willing(sink) && WellFormed(size, q) && chars != []
    ensures var (q', sink', n, left) := Chunk(size, q, sink, chars, memory);
            && n > 0 && left == memory && q'.nblock == q.nblock && Willing(sink') && sink'.answers == sink.answers
  {
    hide Flush, Room, Willing;
    WillingFlush(size, q, sink);
    FlushKeeps(size, q, sink);
    var (q1, sink1, f) := Ready(size, q, sink);
    UsedByOne(size, q1);
    WillingCarries(sink, sink1);
  }

  /** Appending to a queue that never blocks allocates no more memory: it keeps to the one block that it starts with. */
  lemma {:induction false} WillingAppend(size: nat, q: Queue, sink: Sink, chars: string, memory: nat)
    requires size > 0 && Willing(sink) && WellFormed(size, q)
    ensures var (q', sink', k) := Append(size, q, sink, chars, memory);
            k == |chars| && q'.nblock == q.nblock && sink'.answers == sink.answers
    decreases |chars|
  {
    hide Chunk, Willing, WellFormed;
    if chars != [] {
      WillingChunk(size, q, sink, chars, memory);
      ChunkKeeps(size, q, sink, chars, memory);
      var (q1, sink1, n, left) := Chunk(size, q, sink, chars, memory);
      WillingAppend(size, q1, sink1, chars[n..], left);
    }
  }

  lemma WillingCarries(sink: Sink, sink': Sink)
    requires Willing(sink) && sink'.answers == sink.answers
    ensures Willing(sink')
  {
  }

  /** Characters for which there is room in the blocks are put there, and nothing is written. */
  lemma {:induction false} AppendInRoom(size: nat, q: Queue, sink: Sink, chars: string, memory: nat)
    requires size > 0 && WellFormed(size, q) && Used(size, q.nflush, Total(q) + |chars|) <= q.nblock
    ensures Append(size, q, sink, chars, memory) == (q.(text := q.text + chars), sink, |chars|)
    decreases |chars|
  {
    if chars == [] {
      assert q.text + [] == q.text;
    } else {
      hide Used, WellFormed;
      BlockToSpare(size, q, |chars|);
      var n := if Room(size, q) < |chars| then Room(size, q) else |chars|;
      var q1 := q.(text := q.text + chars[..n]);
      FilledKeeps(size, q, chars[..n]);
      assert Filled(size, q, chars[..n]) == q1;
      AppendInRoom(size, q1, sink, chars[n..], memory);
      assert q1.text + chars[n..] == q.text + chars;
    }
  }

  lemma BlockToSpare(size: nat, q: Queue, n: nat)
    requires size > 0 && WellFormed(size, q) && 0 < n && Used(size, q.nflush, Total(q) + n) <= q.nblock
    ensures !NeedsBlock(size, q)
  {
    var k := if Room(size, q) < n then Room(size, q) else n;
    UsedAfter(size, q, k);
    UsedGrows(size, q.nflush, Total(q) + k, Total(q) + n);
  }

  lemma UsedGrows(size: nat, nflush: nat, ntotal: nat, ntotal': nat)
    requires size > 0 && nflush <= ntotal <= ntotal'
    ensures Used(size, nflush, ntotal) <= Used(size, nflush, ntotal')
  {
    DivGrows(size, ntotal + size - 1, ntotal' + size - 1);
  }

  /** How many of the calls from one on the write function answered by accepting nothing. */
  function Refusals(answers: nat -> int, from: nat, end: nat): nat
    requires from <= end
  {
    if from == end then 0 else Refusals(answers, from, end - 1) + if answers(end - 1) == 0 then 1 else 0
  }

  lemma {:induction false} RefusalsJoin(answers: nat -> int, from: nat, mid: nat, end: nat)
    requires from <= mid <= end
    ensures Refusals(answers, from, end) == Refusals(answers, from, mid) + Refusals(answers, mid, end)
    decreases end
  {
    if mid < end {
      RefusalsJoin(answers, from, mid, end - 1);
    }
  }

  /** A block is only added once the write function has been asked to make room, and accepted nothing. */
  lemma ChunkGrows(size: nat, q: Queue, sink: Sink, chars: string, memory: nat)
    requires size > 0 && WellFormed(size, q) && chars != []
    ensures var (q', sink', _, _) := Chunk(size, q, sink, chars, memory);
            && sink.calls <= sink'.calls && sink'.answers == sink.answers
            && q'.nblock <= q.nblock + Refusals(sink.answers, sink.calls, sink'.calls)
  {
    hide Flush, Room, Stream;
    FlushConserves(size, q, sink);
    FlushKeeps(size, q, sink);
    var (q1, sink1, f) := Ready(size, q, sink);
    UsedByOne(size, q1);
  }

  /** However often the memory is added to, the write function has accepted nothing as often. */
  lemma {:induction false} AppendGrows(size: nat, q: Queue, sink: Sink, chars: string, memory: nat)
    requires size > 0 && WellFormed(size, q)
    ensures var (q', sink', _) := Append(size, q, sink, chars, memory);
            && sink.calls <= sink'.calls && sink'.answers == sink.answers
            && q'.nblock <= q.nblock + Refusals(sink.answers, sink.calls, sink'.calls)
    decreases |chars|
  {
    hide WellFormed, Chunk, Refusals;
    RefusalsJoin(sink.answers, sink.calls, sink.calls, sink.calls);
    if chars != [] {
      ChunkKeeps(size, q, sink, chars, memory);
      ChunkGrows(size, q, sink, chars, memory);
      var (q1, sink1, n, left) := Chunk(size, q, sink, chars, memory);
      if n > 0 {
        AppendGrows(size, q1, sink1, chars[n..], left);
        RefusalsJoin(sink.answers, sink.calls, sink1.calls, Append(size, q1, sink1, chars[n..], left).1.calls);
      }
    }
  }

  // ---- Whole runs ----

  datatype QueueOp = AppendChars(chars: string, memory: nat) | FlushQueue

  /** A run of operations on a queue, and the characters that were successfully appended during it. */
  function Run(size: nat, q: Queue, sink: Sink, ops: seq<QueueOp>): (Queue, Sink, string)
    requires size > 0
    decreases |ops|
  {
    if ops == [] then (q, sink, [])
    else match ops[0]
      case AppendChars(chars, memory) =>
        AppendConserves(size, q, sink, chars, memory);
        var (q1, sink1, k) := Append(size, q, sink, chars, memory);
        var (q2, sink2, taken) := Run(size, q1, sink1, ops[1..]);
        (q2, sink2, chars[..k] + taken)
      case FlushQueue =>
        var (q1, sink1, _) := Flush(size, q, sink);
        Run(size, q1, sink1, ops[1..])
  }

  /** Over any run, what the write function accepted, followed by what is still queued, is what was appended. */
  lemma {:induction false} RunConserves(size: nat, q: Queue, sink: Sink, ops: seq<QueueOp>)
    requires size > 0
    ensures var (q', sink', taken) := Run(size, q, sink, ops); Stream(q', sink') == Stream(q, sink) + taken
    decreases |ops|
  {
    hide Stream, Append, Flush;
    if ops == [] {
      assert Stream(q, sink) + [] == Stream(q, sink);
    } else {
      match ops[0]
      case AppendChars(chars, memory) =>
        AppendConserves(size, q, sink, chars, memory);
        var (q1, sink1, k) := Append(size, q, sink, chars, memory);
        RunConserves(size, q1, sink1, ops[1..]);
        var taken := Run(size, q1, sink1, ops[1..]).2;
        assert Stream(q, sink) + chars[..k] + taken == Stream(q, sink) + (chars[..k] + taken);
      case FlushQueue =>
        FlushConserves(size, q, sink);
        var (q1, sink1, _) := Flush(size, q, sink);
        RunConserves(size, q1, sink1, ops[1..]);
    }
  }

  /** All that was asked to be appended. */
  function Asked(ops: seq<QueueOp>): string {
    if ops == [] then [] else (if ops[0].AppendChars? then ops[0].chars else []) + Asked(ops[1..])
  }

  /** If the write function always accepts something, a queue never outgrows its one block, and nothing is refused. */
  lemma {:induction false} RunInOneBlock(size: nat, q: Queue, sink: Sink, ops: seq<QueueOp>)
    requires size > 0 && Willing(sink) && WellFormed(size, q)
    ensures var (q', sink', taken) := Run(size, q, sink, ops);
            WellFormed(size, q') && q'.nblock == q.nblock && taken == Asked(ops)
    decreases |ops|
  {
    hide WellFormed, Append, Flush, Willing;
    if ops != [] {
      match ops[0]
      case AppendChars(chars, memory) =>
        WillingAppend(size, q, sink, chars, memory);
        AppendKeeps(size, q, sink, chars, memory);
        var (q1, sink1, k) := Append(size, q, sink, chars, memory);
        WillingCarries(sink, sink1);
        RunInOneBlock(size, q1, sink1, ops[1..]);
      case FlushQueue =>
        WillingFlush(size, q, sink);
        FlushKeeps(size, q, sink);
        var (q1, sink1, _) := Flush(size, q, sink);
        WillingCarries(sink, sink1);
        RunInOneBlock(size, q1, sink1, ops[1..]);
    }
  }
}
