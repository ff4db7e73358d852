/** Segmented line storage: a line is a chain of fixed-size segments taken
    from one buffer. Everything here is about the buffer as a value. */
module Segments {
  import opened CStrings

  const SEG_SIZE: nat := 16

  /** The null segment pointer. */
  const NIL: int := -1

  type SegChars = s: seq<char> | |s| == SEG_SIZE witness seq(SEG_SIZE, _ => NUL)

  datatype LineSeg = LineSeg(next: int, s: SegChars)

  /** How many segments a line of n characters and its terminator take. */
  function SegsFor(n: nat): nat {
    (n + 1 + SEG_SIZE - 1) / SEG_SIZE
  }

  lemma SomeSegs(n: nat)
    ensures SegsFor(n) > 0
  {
  }

  ghost predicate Distinct<T>(c: seq<T>) {
    forall i, j :: 0 <= i < j < |c| ==> c[i] != c[j]
  }

  /** The sequence c without its k'th element. */
  ghost function Drop<T>(c: seq<T>, k: nat): (d: seq<T>)
    requires k < |c|
    ensures |d| == |c| - 1
  {
    c[..k] + c[k + 1..]
  }

  lemma WithoutOne<T>(c: seq<T>, k: nat)
    requires k < |c| && Distinct(c)
    ensures Distinct(c[..k] + c[k + 1..])
    ensures forall x :: x in c[..k] + c[k + 1..] <==> x in c && x != c[k]
  {
    var d := c[..k] + c[k + 1..];
    forall x | x in c && x != c[k] ensures x in d {
      var j :| 0 <= j < |c| && c[j] == x;
      assert if j < k then d[j] == x else d[j - 1] == x;
    }
  }

  ghost predicate InRange(c: seq<int>, n: nat) {
    forall i :: 0 <= i < |c| ==> 0 <= c[i] < n
  }

  ghost function HeadOf(c: seq<int>): int {
    if c == [] then NIL else c[0]
  }

  /** Following `next` from `head` visits exactly the segments of c, then stops. */
  ghost predicate Linked(b: seq<LineSeg>, head: int, c: seq<int>) {
    && head == HeadOf(c)
    && InRange(c, |b|)
    && Distinct(c)
    && forall i {:trigger b[c[i]]} :: 0 <= i < |c| ==> b[c[i]].next == HeadOf(c[i + 1..])
  }

  /** The segments of c spell out the text and its terminator. */
  ghost predicate Spells(b: seq<LineSeg>, c: seq<int>, text: string)
    requires InRange(c, |b|)
  {
    && |c| == SegsFor(|text|)
    && (forall j {:trigger b[c[j]]} :: 0 <= j < |c| - 1 ==>
          b[c[j]].s == text[SEG_SIZE * j..SEG_SIZE * (j + 1)])
    && var last := |c| - 1;
       var rest := text[SEG_SIZE * last..];
       b[c[last]].s[..|rest|] == rest && b[c[last]].s[|rest|] == NUL
  }

  /** A stored line: its chain, and what the chain spells. */
  ghost predicate Stores(b: seq<LineSeg>, head: int, c: seq<int>, text: string) {
    Linked(b, head, c) && Spells(b, c, text)
  }

  /** Character i of segment j is character 16j+i of the text, or its terminator. */
  lemma SpellsAt(b: seq<LineSeg>, c: seq<int>, text: string, j: nat, i: nat)
    requires InRange(c, |b|) && Spells(b, c, text)
    requires i < SEG_SIZE && SEG_SIZE * j + i <= |text|
    ensures j < |c|
    ensures b[c[j]].s[i] == (text + [NUL])[SEG_SIZE * j + i]
  {
    if j < |c| - 1 {
      assert b[c[j]].s[i] == text[SEG_SIZE * j..SEG_SIZE * (j + 1)][i];
    } else {
      var rest := text[SEG_SIZE * j..];
      assert b[c[j]].s[..|rest|] == rest;
      if i < |rest| {
        assert b[c[j]].s[..|rest|][i] == rest[i];
      }
    }
  }

  /** The first m characters of segment j are the next m characters of the text. */
  lemma SpellsSlice(b: seq<LineSeg>, c: seq<int>, text: string, j: nat, m: nat)
    requires InRange(c, |b|) && Spells(b, c, text)
    requires m <= SEG_SIZE && SEG_SIZE * j + m <= |text|
    ensures j < |c| && b[c[j]].s[..m] == text[SEG_SIZE * j..SEG_SIZE * j + m]
  {
    if j < |c| - 1 {
      assert text[SEG_SIZE * j..SEG_SIZE * (j + 1)][..m] == text[SEG_SIZE * j..SEG_SIZE * j + m];
    } else {
      var rest := text[SEG_SIZE * j..];
      assert b[c[j]].s[..|rest|][..m] == b[c[j]].s[..m] && rest[..m] == text[SEG_SIZE * j..SEG_SIZE * j + m];
    }
  }

  /** The part of the text in segment j: all of the segment, or up to the terminator in the last one. */
  lemma SegmentText(b: seq<LineSeg>, c: seq<int>, text: string, j: nat)
    requires Linked(b, HeadOf(c), c) && Spells(b, c, text) && NoNul(text) && j < |c|
    ensures b[c[j]].next != NIL <==> j < |c| - 1
    ensures var s := b[c[j]].s;
            if j < |c| - 1 then SEG_SIZE * (j + 1) <= |text| && s == text[SEG_SIZE * j..SEG_SIZE * (j + 1)]
            else SEG_SIZE * j <= |text| && NUL in s && SEG_SIZE * j + StrLen(s) == |text|
                 && s[..StrLen(s)] == text[SEG_SIZE * j..]
  {
    assert b[c[j]].next == HeadOf(c[j + 1..]);
    if j == |c| - 1 {
      var rest := text[SEG_SIZE * j..];
      assert b[c[j]].s[..|rest|] == rest;
      StrLenUnique(b[c[j]].s, |rest|);
    }
  }

  /** A chain only depends on its own segments. */
  lemma StoresFrame(b: seq<LineSeg>, b': seq<LineSeg>, head: int, c: seq<int>, text: string)
    requires Stores(b, head, c, text)
    requires |b'| >= |b|
    requires forall i :: 0 <= i < |c| ==> b'[c[i]] == b[c[i]]
    ensures Stores(b', head, c, text)
  {
  }

  lemma LinkedFrame(b: seq<LineSeg>, b': seq<LineSeg>, head: int, c: seq<int>)
    requires Linked(b, head, c)
    requires |b'| >= |b|
    requires forall i :: 0 <= i < |c| ==> b'[c[i]].next == b[c[i]].next
    ensures Linked(b', head, c)
  {
  }

  /** Cutting a chain after its k'th segment leaves two chains. */
  lemma CutChain(b: seq<LineSeg>, b': seq<LineSeg>, head: int, c: seq<int>, k: nat)
    requires Linked(b, head, c) && 0 < k <= |c|
    requires b' == b[c[k - 1] := b[c[k - 1]].(next := NIL)]
    ensures Linked(b', head, c[..k])
    ensures Linked(b', b[c[k - 1]].next, c[k..])
  {
    var p, q := c[..k], c[k..];
    forall i | 0 <= i < |p| ensures b'[p[i]].next == HeadOf(p[i + 1..]) {
      assert p[i] == c[i];
      if i < k - 1 {
        assert b[c[i]].next == c[i + 1] == p[i + 1];
      }
    }
    forall i | 0 <= i < |q| ensures b'[q[i]].next == HeadOf(q[i + 1..]) {
      assert q[i] == c[k + i];
      assert q[i + 1..] == c[k + i + 1..];
    }
    assert b[c[k - 1]].next == HeadOf(q);
  }

  /** Pointing the last segment of one chain at the head of another joins them. */
  lemma JoinChains(b: seq<LineSeg>, b': seq<LineSeg>, p: seq<int>, head: int, q: seq<int>)
    requires p != [] && Linked(b, p[0], p) && Linked(b, head, q) && Distinct(p + q)
    requires b' == b[p[|p| - 1] := b[p[|p| - 1]].(next := head)]
    ensures Linked(b', p[0], p + q)
  {
    var c := p + q;
    forall i | 0 <= i < |c| ensures 0 <= c[i] < |b'| && b'[c[i]].next == HeadOf(c[i + 1..]) {
      if i < |p| - 1 {
        assert c[i] == p[i] && c[|p| - 1] == p[|p| - 1];
        assert b[p[i]].next == HeadOf(p[i + 1..]) == p[i + 1] == c[i + 1];
      } else if i == |p| - 1 {
        assert c[i + 1..] == q;
      } else {
        assert c[i] == q[i - |p|] && c[|p| - 1] == p[|p| - 1];
        assert c[i + 1..] == q[i - |p| + 1..];
      }
    }
  }

  /** The segments from..to, in order. */
  ghost function Run(from: int, to: int): seq<int>
    requires from <= to
  {
    seq(to - from, k requires 0 <= k < to - from => from + k)
  }

  /** A text is spelled out by the first k segments of c once each of them holds its part. */
  lemma SpellsIntro(b: seq<LineSeg>, c: seq<int>, k: nat, text: string)
    requires InRange(c, |b|) && k == SegsFor(|text|) <= |c|
    requires forall j :: 0 <= j < k - 1 ==> b[c[j]].s == text[SEG_SIZE * j..SEG_SIZE * (j + 1)]
    requires var rest := text[SEG_SIZE * (k - 1)..];
             b[c[k - 1]].s[..|rest|] == rest && b[c[k - 1]].s[|rest|] == NUL
    ensures Spells(b, c[..k], text)
  {
  }

  /** Link the segments from..buffer.Length into one chain. */
  method ThreadBuffer(buffer: array<LineSeg>, from: nat)
    requires from < buffer.Length
    modifies buffer
    ensures Linked(buffer[..], from, Run(from, buffer.Length))
    ensures forall k :: 0 <= k < from ==> buffer[k] == old(buffer[k])
  {
    var i := from;
    while i < buffer.Length - 1
      invariant from <= i < buffer.Length
      invariant forall k :: 0 <= k < from ==> buffer[k] == old(buffer[k])
      invariant forall k :: from <= k < i ==> buffer[k].next == k + 1
    {
      buffer[i] := buffer[i].(next := i + 1);
      i := i + 1;
    }
    buffer[i] := buffer[i].(next := NIL);
  }

  /** Link whatever segments there are from `from` on into one chain. */
  method ThreadRest(buffer: array<LineSeg>, from: nat)
    requires from <= buffer.Length
    modifies buffer
    ensures var free := Run(from, buffer.Length); Linked(buffer[..], HeadOf(free), free)
    ensures forall k :: 0 <= k < from ==> buffer[k] == old(buffer[k])
  {
    if from < buffer.Length {
      ThreadBuffer(buffer, from);
    }
  }

  /** Copy the chain c from one buffer to consecutive segments of another. */
  method CopyChain(buffer: array<LineSeg>, head: int, buffer': array<LineSeg>, pos: nat, ghost c: seq<int>)
    returns (end: nat)
    requires Linked(buffer[..], head, c) && pos + |c| <= buffer'.Length && buffer != buffer'
    modifies buffer'
    ensures end == pos + |c| && Linked(buffer'[..], HeadOf(Run(pos, end)), Run(pos, end))
    ensures forall k :: 0 <= k < |c| ==> buffer'[pos + k].s == buffer[c[k]].s
    ensures forall k :: 0 <= k < buffer'.Length && !(pos <= k < end) ==> buffer'[k] == old(buffer'[k])
  {
    ghost var b := buffer[..];
    end := pos;
    var seg := head;
    while seg != NIL
      invariant pos <= end <= pos + |c| && seg == HeadOf(c[end - pos..]) && buffer[..] == b
      invariant forall k :: pos <= k < end ==> buffer'[k].s == b[c[k - pos]].s
      invariant forall k :: pos <= k < end ==> buffer'[k].next == if k + 1 < pos + |c| then k + 1 else NIL
      invariant forall k :: 0 <= k < buffer'.Length && !(pos <= k < end) ==> buffer'[k] == old(buffer'[k])
      decreases pos + |c| - end
    {
      ghost var j := end - pos;
      assert buffer[seg] == b[c[j]] && b[c[j]].next == HeadOf(c[j + 1..]);
      buffer'[end] := buffer[seg];
      buffer'[end] := buffer'[end].(next := if buffer[seg].next != NIL then end + 1 else NIL);
      end, seg := end + 1, buffer[seg].next;
    }
  }

  /** A line copied to consecutive segments is the same line. */
  method CopyLine(buffer: array<LineSeg>, head: int, buffer': array<LineSeg>, pos: nat,
                  ghost c: seq<int>, ghost text: string)
    returns (end: nat)
    requires Stores(buffer[..], head, c, text) && pos + |c| <= buffer'.Length && buffer != buffer'
    modifies buffer'
    ensures end == pos + |c| && Stores(buffer'[..], HeadOf(Run(pos, end)), Run(pos, end), text)
    ensures forall k :: 0 <= k < buffer'.Length && !(pos <= k < end) ==> buffer'[k] == old(buffer'[k])
  {
    end := CopyChain(buffer, head, buffer', pos, c);
    ghost var b, b', c' := buffer[..], buffer'[..], Run(pos, end);
    forall j | 0 <= j < |c| ensures b'[c'[j]].s == b[c[j]].s {
      assert c'[j] == pos + j;
    }
    forall j | 0 <= j < |c| - 1 ensures b'[c'[j]].s == text[SEG_SIZE * j..SEG_SIZE * (j + 1)] {
      assert b[c[j]].s == text[SEG_SIZE * j..SEG_SIZE * (j + 1)];
    }
  }

  /** The total number of segments taken by a set of texts. */
  ghost function Cost(texts: set<string>): nat {
    if texts == {} then 0 else
      var t :| t in texts;
      SegsFor(|t|) + Cost(texts - {t})
  }

  lemma {:induction false} CostRemove(texts: set<string>, t: string)
    requires t in texts
    ensures Cost(texts) == SegsFor(|t|) + Cost(texts - {t})
  {
    var u :| u in texts && Cost(texts) == SegsFor(|u|) + Cost(texts - {u});
    if u != t {
      CostRemove(texts - {u}, t);
      CostRemove(texts - {t}, u);
      assert texts - {u} - {t} == texts - {t} - {u};
    }
  }

  lemma CostAdd(texts: set<string>, t: string)
    ensures Cost(texts + {t}) == Cost(texts) + if t in texts then 0 else SegsFor(|t|)
  {
    if t in texts {
      assert texts + {t} == texts;
    } else {
      CostRemove(texts + {t}, t);
      assert texts + {t} - {t} == texts;
    }
  }

  lemma CostPositive(texts: set<string>)
    ensures Cost(texts) == 0 <==> texts == {}
  {
    if t :| t in texts {
      CostRemove(texts, t);
      SomeSegs(|t|);
    }
  }

  lemma {:induction false} CostMonotone(small: set<string>, big: set<string>)
    requires small <= big
    ensures Cost(small) <= Cost(big)
  {
    if small != {} {
      var t :| t in small;
      CostRemove(small, t);
      CostRemove(big, t);
      CostMonotone(small - {t}, big - {t});
    }
  }
}
