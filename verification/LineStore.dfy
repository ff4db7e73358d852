/** The reference-counted store of history lines: a hash table whose nodes own
    chains of segments of one buffer. */
module LineStorage {
  import opened Arithmetic
  import opened CStrings
  import opened Segments

  const HASH_SIZE: nat := 113

  /** The dragon-book hash of a text, before reduction to a bucket. */
  function HashSum(text: string): (h: nat)
    ensures h < ULONG_RANGE
  {
    if text == [] then 0 else
      var k := |text| - 1;
      (65599 * HashSum(text[..k]) + text[k] as int % 256) % ULONG_RANGE
  }

  function HashOf(text: string): (b: nat)
    ensures b < HASH_SIZE
  {
    HashSum(text) % HASH_SIZE
  }

  class HashNode {
    var bucket: nat
    var next: HashNode?
    var head: int
    var len: nat
    var used: int

    constructor (bucket: nat, len: nat)
      ensures this.bucket == bucket && this.len == len && used == 0
    {
      this.bucket, this.next, this.head, this.len, used := bucket, null, NIL, len, 0;
    }

    /** This node's chain of segments spells out the text. */
    ghost predicate Holds(buffer: array<LineSeg>, c: seq<int>, text: string)
      reads `head, `len, buffer
    {
      Stores(buffer[..], head, c, text) && len == |text| && NoNul(text)
    }

    /** The inner loop of IsLine: compare one segment with line[pos..n]. */
    static method IsSegment(s: SegChars, line: string, pos: nat, n: nat) returns (same: bool, end: nat)
      requires pos < n <= |line|
      ensures end == if pos + SEG_SIZE <= n then pos + SEG_SIZE else n
      ensures same <==> line[pos..end] == s[..end - pos]
    {
      end := if pos + SEG_SIZE <= n then pos + SEG_SIZE else n;
      var i := 0;
      while pos + i < n && i < SEG_SIZE
        invariant 0 <= i <= end - pos
        invariant forall k :: 0 <= k < i ==> line[pos + k] == s[k]
      {
        if line[pos + i] != s[i] {
          assert line[pos..end][i] != s[..end - pos][i];
          return false, end;
        }
        i := i + 1;
      }
      same := true;
    }

    method IsLine(buffer: array<LineSeg>, line: string, n: nat, ghost c: seq<int>, ghost text: string)
      returns (same: bool)
      requires Holds(buffer, c, text) && n <= |line|
      ensures same <==> line[..n] == text
    {
      ghost var b := buffer[..];
      if n != len {
        return false;
      }
      var seg, pos := head, 0;
      ghost var j := 0;
      while pos < n && seg != NIL
        invariant 0 <= j <= |c| && seg == HeadOf(c[j..])
        invariant pos == if SEG_SIZE * j <= n then SEG_SIZE * j else n
        invariant line[..pos] == text[..pos]
        decreases |c| - j
      {
        assert b[c[j]].next == HeadOf(c[j + 1..]);
        var end;
        same, end := IsSegment(buffer[seg].s, line, pos, n);
        SpellsSlice(b, c, text, j, end - pos);
        if !same {
          SliceOfTake(line, n, pos, end);
          return;
        }
        assert line[..end] == line[..pos] + line[pos..end];
        assert text[..end] == text[..pos] + text[pos..end];
        pos, seg := end, buffer[seg].next;
        j := j + 1;
      }
      return true;
    }

    /** The inner loop of ReturnLine: copy one segment, as far as it fits below dim. */
    static method CopySegment(s: SegChars, line: array<char>, pos: nat, dim: nat) returns (end: nat)
      requires pos < dim <= line.Length
      modifies line
      ensures end == if pos + SEG_SIZE <= dim then pos + SEG_SIZE else dim
      ensures forall k :: pos <= k < end ==> line[k] == s[k - pos]
      ensures forall k :: 0 <= k < pos || dim <= k < line.Length ==> line[k] == old(line[k])
    {
      end := if pos + SEG_SIZE <= dim then pos + SEG_SIZE else dim;
      var i := 0;
      while pos + i < dim && i < SEG_SIZE
        invariant 0 <= i <= end - pos
        invariant forall k :: pos <= k < pos + i ==> line[k] == s[k - pos]
        invariant forall k :: 0 <= k < pos || dim <= k < line.Length ==> line[k] == old(line[k])
      {
        line[pos + i] := s[i];
        i := i + 1;
      }
    }

    method ReturnLine(buffer: array<LineSeg>, line: array<char>, dim: nat, ghost c: seq<int>, ghost text: string)
      requires Holds(buffer, c, text)
      requires 0 < dim <= line.Length && line as object != buffer
      modifies line
      ensures NUL in line[..dim] && CStr(line[..dim]) == Clip(text, dim)
      ensures forall k :: dim <= k < line.Length ==> line[k] == old(line[k])
    {
      ghost var b := buffer[..];
      ghost var image := text + [NUL];
      var seg, pos := head, 0;
      ghost var j := 0;
      while pos < dim && seg != NIL
        invariant buffer[..] == b && Stores(b, head, c, text)
        invariant 0 <= j <= |c| && seg == HeadOf(c[j..])
        invariant pos == if SEG_SIZE * j <= dim then SEG_SIZE * j else dim
        invariant forall k :: 0 <= k < pos && k < |image| ==> line[k] == image[k]
        invariant forall k :: dim <= k < line.Length ==> line[k] == old(line[k])
        decreases |c| - j
      {
        assert buffer[seg] == b[c[j]] && b[c[j]].next == HeadOf(c[j + 1..]);
        label copy:
        var end := CopySegment(buffer[seg].s, line, pos, dim);
        forall k | pos <= k < end && k < |image| ensures line[k] == image[k] {
          SpellsAt(b, c, text, j, k - pos);
        }
        seg, pos := buffer[seg].next, end;
        j := j + 1;
      }
      if pos == dim {
        line[dim - 1] := NUL;
      }
      var n := |Clip(text, dim)|;
      assert line[..dim][..n] == Clip(text, dim);
      StrLenUnique(line[..dim], n);
    }

    /** Write the line out, segment by segment. */
    method Spell(buffer: array<LineSeg>, ghost c: seq<int>, ghost text: string) returns (out: string)
      requires Holds(buffer, c, text)
      ensures out == text
    {
      ghost var b := buffer[..];
      out := [];
      var seg := head;
      ghost var j := 0;
      while seg != NIL
        invariant 0 <= j <= |c| && seg == HeadOf(c[j..])
        invariant out == text[..if SEG_SIZE * j <= |text| then SEG_SIZE * j else |text|]
        decreases |c| - j
      {
        assert buffer[seg] == b[c[j]] && b[c[j]].next == HeadOf(c[j + 1..]);
        SegmentText(b, c, text, j);
        var slen := if buffer[seg].next != NIL then SEG_SIZE else StrLen(buffer[seg].s);
        ghost var end := SEG_SIZE * j + slen;
        assert text[..end] == text[..SEG_SIZE * j] + text[SEG_SIZE * j..end];
        out := out + buffer[seg].s[..slen];
        seg := buffer[seg].next;
        j := j + 1;
      }
    }

    /** Does the prefix contain an unescaped wildcard? */
    method ContainsGlob(buffer: array<LineSeg>, ghost c: seq<int>, ghost text: string) returns (glob: bool)
      requires Holds(buffer, c, text)
      ensures IsLiteral(text) ==> !glob
    {
      hide Stores;
      var str := new LineStream(buffer, this, c, text);
      while str.c != NUL
        invariant fresh(str) && str.Valid(buffer) && str.text == text
        decreases |text| - str.loaded, |text| - str.read
      {
        if str.c == '\\' {
          str.Step(buffer);
        } else if str.c in {'*', '?', '['} {
          return true;
        }
        str.Step(buffer);
      }
      return false;
    }

    /** Does the line start with the given prefix? A null prefix matches every line. */
    method MatchesPrefix(buffer: array<LineSeg>, ghost c: seq<int>, ghost text: string,
                         prefix: HashNode?, ghost pc: seq<int>, ghost ptext: string)
      returns (matches: bool)
      requires Holds(buffer, c, text)
      requires prefix != null ==> prefix.Holds(buffer, pc, ptext) && IsLiteral(ptext)
      ensures matches <==> prefix == null || ptext <= text
    {
      hide Stores;
      if prefix == null {
        return true;
      }
      var lstr := new LineStream(buffer, this, c, text);
      var pstr := new LineStream(buffer, prefix, pc, ptext);
      var glob := prefix.ContainsGlob(buffer, pc, ptext);
      if glob {
        assert false;
      }
      if prefix.len > len {
        return false;
      }
      while pstr.c != NUL && pstr.c == lstr.c
        invariant fresh(lstr) && fresh(pstr) && lstr != pstr
        invariant lstr.Valid(buffer) && pstr.Valid(buffer) && lstr.text == text && pstr.text == ptext
        invariant lstr.loaded == pstr.loaded && text[..pstr.loaded] == ptext[..pstr.loaded]
        invariant pstr.loaded < |ptext| ==> lstr.read == pstr.read
        decreases |ptext| - pstr.loaded, |ptext| - pstr.read
      {
        ghost var q := pstr.loaded;
        assert text[..q + 1] == text[..q] + [text[q]] && ptext[..q + 1] == ptext[..q] + [ptext[q]];
        lstr.Step(buffer);
        pstr.Step(buffer);
      }
      if pstr.c != NUL {
        assert ptext[pstr.loaded] != text[pstr.loaded];
      }
      return pstr.c == NUL;
    }
  }

  /** An iterator over the characters of a segmented line. */
  class LineStream {
    var seg: int
    var posn: nat
    var c: char
    ghost const chain: seq<int>
    ghost const text: string
    ghost var read: nat     // how many characters have been consumed
    ghost var loaded: nat   // the index of the character held in c

    ghost predicate Valid(buffer: array<LineSeg>)
      reads this, buffer
    {
      && NoNul(text) && Stores(buffer[..], HeadOf(chain), chain, text)
      && read <= |text| && read / SEG_SIZE < |chain|
      && seg == chain[read / SEG_SIZE] && posn == read % SEG_SIZE
      && loaded <= |text| && c == (text + [NUL])[loaded]
      && loaded <= read <= loaded + 1 && (0 < loaded < |text| ==> read == loaded + 1)
    }

    /** The first character is loaded but not consumed, so that the first Step delivers it again. */
    constructor (buffer: array<LineSeg>, line: HashNode, ghost chain: seq<int>, ghost text: string)
      requires line.Holds(buffer, chain, text)
      ensures Valid(buffer) && this.chain == chain && this.text == text && read == loaded == 0
    {
      SpellsAt(buffer[..], chain, text, 0, 0);
      seg, posn, c := line.head, 0, buffer[line.head].s[0];
      this.chain, this.text, read, loaded := chain, text, 0, 0;
    }

    method Step(buffer: array<LineSeg>)
      requires Valid(buffer)
      modifies this
      ensures Valid(buffer) && loaded == old(read)
      ensures read == if old(read) < |text| then old(read) + 1 else old(read)
    {
      ghost var b, j := buffer[..], read / SEG_SIZE;
      SpellsAt(b, chain, text, j, posn);
      assert buffer[seg] == b[chain[j]] && b[chain[j]].next == HeadOf(chain[j + 1..]);
      c := if seg != NIL then buffer[seg].s[posn] else NUL;
      loaded := read;
      if c != NUL {
        posn, read := posn + 1, read + 1;
        if posn >= SEG_SIZE {
          posn, seg := 0, buffer[seg].next;
        }
      }
    }
  }

  ghost function FirstOf(c: seq<HashNode>): HashNode? {
    if c == [] then null else c[0]
  }

  /** Following `next` from `first` visits exactly the nodes of c, then stops. */
  ghost predicate LinkedNodes(first: HashNode?, c: seq<HashNode>)
    reads (set n | n in c)`next
  {
    && first == FirstOf(c) && Distinct(c)
    && forall i {:trigger c[i].next} :: 0 <= i < |c| ==> c[i].next == FirstOf(c[i + 1..])
  }

  lemma DistinctNodes(first: HashNode?, c: seq<HashNode>)
    requires LinkedNodes(first, c)
    ensures Distinct(c)
  {
  }

  /** The lists of nodes of a hash table that holds the lines of t. */
  ghost predicate Placed(chains: seq<seq<HashNode>>, t: map<HashNode, string>) {
    && |chains| == HASH_SIZE
    && (forall b, i :: 0 <= b < HASH_SIZE && 0 <= i < |chains[b]| ==>
          chains[b][i] in t && HashOf(t[chains[b][i]]) == b)
    && (forall n :: n in t ==> n in chains[HashOf(t[n])])
    && (forall m, n :: m in t && n in t && t[m] == t[n] ==> m == n)
  }

  lemma PlacedAdd(chains: seq<seq<HashNode>>, t: map<HashNode, string>, b: nat, hash: HashNode, text: string)
    requires Placed(chains, t) && hash !in t && text !in t.Values && b == HashOf(text)
    ensures hash !in chains[b] && Placed(chains[b := [hash] + chains[b]], t[hash := text])
  {
    hide HashOf;
    var chains' := chains[b := [hash] + chains[b]];
    assert chains'[b][0] == hash;
  }

  lemma PlacedRemove(chains: seq<seq<HashNode>>, t: map<HashNode, string>, b: nat, k: nat)
    requires b < |chains| && k < |chains[b]| && Placed(chains, t) && Distinct(chains[b])
    ensures Placed(chains[b := chains[b][..k] + chains[b][k + 1..]], t - {chains[b][k]})
  {
    hide HashOf;
    WithoutOne(chains[b], k);
    var chains' := chains[b := chains[b][..k] + chains[b][k + 1..]];
    forall d, i | 0 <= d < HASH_SIZE && 0 <= i < |chains'[d]|
      ensures chains'[d][i] in t && chains'[d][i] != chains[b][k] && HashOf(t[chains'[d][i]]) == d
    {
      assert chains'[d][i] in chains'[d];
      assert chains'[d][i] in chains[d];
    }
  }

  lemma PlacedApart(chains: seq<seq<HashNode>>, t: map<HashNode, string>, b: nat, d: nat)
    requires Placed(chains, t) && b < |chains| && d < |chains| && b != d
    ensures forall n :: n in chains[d] ==> n in t && n !in chains[b]
  {
  }

  lemma PlacedAt(chains: seq<seq<HashNode>>, t: map<HashNode, string>, hash: HashNode) returns (b: nat, k: nat)
    requires Placed(chains, t) && hash in t
    ensures |chains| == HASH_SIZE && b == HashOf(t[hash]) < |chains|
    ensures k < |chains[b]| && chains[b][k] == hash && forall n :: n in chains[b] ==> n in t
  {
    b := HashOf(t[hash]);
    k :| 0 <= k < |chains[b]| && chains[b][k] == hash;
  }

  lemma PlacedIn(chains: seq<seq<HashNode>>, t: map<HashNode, string>)
    requires Placed(chains, t)
    ensures |chains| == HASH_SIZE
    ensures forall b, n :: 0 <= b < HASH_SIZE ==> (n in chains[b] <==> n in t && HashOf(t[n]) == b)
  {
  }

  lemma LinkedAt(first: HashNode?, c: seq<HashNode>, j: nat)
    requires LinkedNodes(first, c) && j <= |c|
    ensures first == FirstOf(c) && c[..0] == [] && c[0..] == c
    ensures j < |c| ==> c[j].next == FirstOf(c[j + 1..]) && c[j] !in c[..j] && c[..j + 1] == c[..j] + [c[j]]
  {
  }

  lemma LinkedNodesPrepend(h: HashNode, c: seq<HashNode>)
    requires LinkedNodes(h.next, c) && h !in c
    ensures LinkedNodes(h, [h] + c)
  {
    var d := [h] + c;
    forall i | 0 <= i < |d| ensures d[i].next == FirstOf(d[i + 1..]) {
      assert d[i + 1..] == c[i..];
      if i > 0 {
        assert c[i - 1].next == FirstOf(c[i..]);
      }
    }
  }

  /** Bypassing the k'th node takes it out of the list. */
  lemma LinkedNodesBypass(first: HashNode?, c: seq<HashNode>, k: nat, first': HashNode?)
    requires k < |c| && Distinct(c) && first == FirstOf(c)
    requires forall i {:trigger c[i].next} :: 0 <= i < |c| && i != k && i != k - 1 ==> c[i].next == FirstOf(c[i + 1..])
    requires if k == 0 then first' == FirstOf(c[1..]) else first' == first && c[k - 1].next == FirstOf(c[k + 1..])
    ensures LinkedNodes(first', c[..k] + c[k + 1..])
  {
    var d := c[..k] + c[k + 1..];
    forall i | 0 <= i < |d| ensures d[i].next == FirstOf(d[i + 1..]) {
      if i < k - 1 {
        assert c[i].next == FirstOf(c[i + 1..]);
      } else if i == k - 1 {
        assert d[i + 1..] == c[k + 1..];
      } else {
        assert c[i + 1].next == FirstOf(c[i + 2..]);
        assert d[i + 1..] == c[i + 2..];
      }
    }
  }

  /** Each segment is free or belongs to exactly one line, as `owner` records. */
  ghost predicate Partition(owner: seq<HashNode?>, free: seq<int>, segs: map<HashNode, seq<int>>) {
    && InRange(free, |owner|)
    && (forall i :: 0 <= i < |free| ==> owner[free[i]] == null)
    && (forall n :: n in segs ==> InRange(segs[n], |owner|))
    && (forall n, i :: n in segs && 0 <= i < |segs[n]| ==> owner[segs[n][i]] == n)
    && (forall k {:trigger owner[k]} :: 0 <= k < |owner| ==>
          if owner[k] == null then k in free else owner[k] in segs && k in segs[owner[k]])
  }

  lemma PartitionMeans(owner: seq<HashNode?>, free: seq<int>, segs: map<HashNode, seq<int>>)
    requires Partition(owner, free, segs)
    ensures forall k :: 0 <= k < |owner| ==> (k in free <==> forall n :: n in segs ==> k !in segs[n])
    ensures forall k, m, n :: m in segs && n in segs && k in segs[m] && k in segs[n] ==> m == n
  {
    forall k | k in free ensures 0 <= k < |owner| && owner[k] == null {
      var i :| 0 <= i < |free| && free[i] == k;
    }
    forall k, n | n in segs && k in segs[n] ensures 0 <= k < |owner| && owner[k] == n {
      var i :| 0 <= i < |segs[n]| && segs[n][i] == k;
    }
    forall k | 0 <= k < |owner| && k !in free ensures exists n :: n in segs && k in segs[n] {
      var n := owner[k];
      assert n in segs && k in segs[n];
    }
  }

  lemma FreeChain(b: seq<LineSeg>, free: seq<int>, segs: map<HashNode, seq<int>>, t: map<HashNode, string>)
    requires Chains(b, free, segs, t)
    ensures Linked(b, HeadOf(free), free) && segs.Keys == t.Keys
  {
  }

  lemma ChainBounds(b: seq<LineSeg>, free: seq<int>, segs: map<HashNode, seq<int>>, t: map<HashNode, string>, n: nat)
    requires Chains(b, free, segs, t)
    ensures Distinct(free) && segs.Keys == t.Keys && SegsFor(n) > 0
    ensures SegsFor(n) <= |free| ==> 0 <= free[SegsFor(n) - 1] < |b|
  {
  }

  /** The chains in a buffer b: the unused one, and one for each line of t. */
  ghost predicate Chains(b: seq<LineSeg>, free: seq<int>, segs: map<HashNode, seq<int>>, t: map<HashNode, string>) {
    && Linked(b, HeadOf(free), free)
    && segs.Keys == t.Keys
    && forall n :: n in t ==> Stores(b, HeadOf(segs[n]), segs[n], t[n])
  }

  lemma ChainsLine(b: seq<LineSeg>, free: seq<int>, segs: map<HashNode, seq<int>>,
                   t: map<HashNode, string>, n: HashNode)
    requires Chains(b, free, segs, t) && n in t
    ensures n in segs && |segs[n]| == SegsFor(|t[n]|) > 0
    ensures Stores(b, HeadOf(segs[n]), segs[n], t[n]) && Linked(b, HeadOf(segs[n]), segs[n])
  {
  }

  /** Give the segments of c to h, or to nobody. */
  ghost function Reassign(owner: seq<HashNode?>, c: seq<int>, h: HashNode?): seq<HashNode?> {
    seq(|owner|, k requires 0 <= k < |owner| => if k in c then h else owner[k])
  }

  lemma PartitionTake(owner: seq<HashNode?>, free: seq<int>, segs: map<HashNode, seq<int>>, h: HashNode, k: nat)
    requires Partition(owner, free, segs) && Distinct(free)
    requires k <= |free| && h !in segs
    ensures Partition(Reassign(owner, free[..k], h), free[k..], segs[h := free[..k]])
  {
    var owner', free', segs' := Reassign(owner, free[..k], h), free[k..], segs[h := free[..k]];
    forall i | 0 <= i < |free'| ensures owner'[free'[i]] == null {
      assert free'[i] == free[k + i];
    }
    forall i | 0 <= i < k ensures owner'[segs'[h][i]] == h {
      assert segs'[h][i] == free[i];
    }
    forall n, i | n in segs && 0 <= i < |segs[n]| ensures owner'[segs[n][i]] == n {
      assert owner[segs[n][i]] == n;
    }
    forall j | 0 <= j < |owner'|
      ensures if owner'[j] == null then j in free' else owner'[j] in segs' && j in segs'[owner'[j]]
    {
      if j in free {
        var i :| 0 <= i < |free| && free[i] == j;
        if i >= k {
          assert free'[i - k] == j;
        } else {
          assert free[..k][i] == j;
        }
      }
    }
  }

  lemma PartitionReturn(owner: seq<HashNode?>, free: seq<int>, segs: map<HashNode, seq<int>>, h: HashNode)
    requires Partition(owner, free, segs) && h in segs
    ensures Partition(Reassign(owner, segs[h], null), segs[h] + free, segs - {h})
  {
    var owner', free', segs' := Reassign(owner, segs[h], null), segs[h] + free, segs - {h};
    forall n, i | n in segs' && 0 <= i < |segs'[n]| ensures owner'[segs'[n][i]] == n {
      assert owner[segs[n][i]] == n;
    }
  }

  /** Chains survive any change to segments that are not theirs, and any change of unused text. */
  lemma ChainsFrame(b: seq<LineSeg>, b': seq<LineSeg>, owner: seq<HashNode?>, free: seq<int>,
                    segs: map<HashNode, seq<int>>, t: map<HashNode, string>)
    requires Chains(b, free, segs, t) && Partition(owner, free, segs)
    requires |b| == |b'| == |owner|
    requires forall k {:trigger b'[k]} :: 0 <= k < |b| && owner[k] != null ==> b'[k] == b[k]
    ensures forall n :: n in t ==> Stores(b', HeadOf(segs[n]), segs[n], t[n])
  {
    forall n | n in t ensures Stores(b', HeadOf(segs[n]), segs[n], t[n]) {
      forall i | 0 <= i < |segs[n]| ensures b'[segs[n][i]] == b[segs[n][i]] {
        assert owner[segs[n][i]] == n;
      }
      StoresFrame(b, b', HeadOf(segs[n]), segs[n], t[n]);
    }
  }

  /** Cutting off the filled front of the unused chain makes it the chain of a new line. */
  lemma ChainsTake(b: seq<LineSeg>, b': seq<LineSeg>, owner: seq<HashNode?>, free: seq<int>,
                   segs: map<HashNode, seq<int>>, t: map<HashNode, string>, h: HashNode, text: string, k: nat)
    requires Chains(b, free, segs, t) && Partition(owner, free, segs) && |b| == |owner|
    requires 0 < k <= |free| && Spells(b, free[..k], text) && h !in t
    requires b' == b[free[k - 1] := b[free[k - 1]].(next := NIL)]
    ensures Chains(b', free[k..], segs[h := free[..k]], t[h := text])
    ensures HeadOf(free[k..]) == b[free[k - 1]].next
  {
    ChainsFrame(b, b', owner, free, segs, t);
    CutChain(b, b', HeadOf(free), free, k);
    assert Spells(b', free[..k], text);
  }

  /** Pointing the end of a line's chain at the unused chain gives its segments back. */
  lemma ChainsReturn(b: seq<LineSeg>, b': seq<LineSeg>, owner: seq<HashNode?>, free: seq<int>,
                     segs: map<HashNode, seq<int>>, t: map<HashNode, string>, h: HashNode)
    requires Chains(b, free, segs, t) && Partition(owner, free, segs) && |b| == |owner|
    requires h in t
    requires var last := segs[h][|segs[h]| - 1]; b' == b[last := b[last].(next := HeadOf(free))]
    ensures Chains(b', segs[h] + free, segs - {h}, t - {h})
  {
    var c := segs[h];
    forall i, j | 0 <= i < |c| && 0 <= j < |free| ensures c[i] != free[j] {
      assert owner[c[i]] == h && owner[free[j]] == null;
    }
    JoinChains(b, b', c, HeadOf(free), free);
    forall n | n in t && n != h ensures Stores(b', HeadOf(segs[n]), segs[n], t[n]) {
      forall i | 0 <= i < |segs[n]| ensures b'[segs[n][i]] == b[segs[n][i]] {
        assert owner[segs[n][i]] == n && owner[c[|c| - 1]] == h;
      }
      StoresFrame(b, b', HeadOf(segs[n]), segs[n], t[n]);
    }
  }

  lemma ChainsFull(b: seq<LineSeg>, owner: seq<HashNode?>, segs: map<HashNode, seq<int>>, t: map<HashNode, string>,
                   b': seq<LineSeg>, free: seq<int>)
    requires Chains(b, [], segs, t) && Partition(owner, [], segs) && |owner| <= |b| == |b'|
    requires forall k {:trigger b'[k]} :: 0 <= k < |owner| ==> b'[k] == b[k]
    requires free == Run(|owner|, |b|) && Linked(b', HeadOf(free), free)
    ensures Chains(b', free, segs, t)
    ensures Partition(owner + seq(|b| - |owner|, _ => null), free, segs)
  {
    forall n | n in t ensures Stores(b', HeadOf(segs[n]), segs[n], t[n]) {
      StoresFrame(b, b', HeadOf(segs[n]), segs[n], t[n]);
    }
    var owner' := owner + seq(|b| - |owner|, _ => null);
    forall k | |owner| <= k < |b| ensures k in free {
      assert free[k - |owner|] == k;
    }
  }

  /** Copying one more line behind those already copied. */
  lemma ChainsAppend(b: seq<LineSeg>, owner: seq<HashNode?>, segs: map<HashNode, seq<int>>, t: map<HashNode, string>,
                     b': seq<LineSeg>, h: HashNode, c: seq<int>, text: string)
    requires Chains(b, [], segs, t) && Partition(owner, [], segs) && h !in t
    requires |b'| == |b| && forall k {:trigger b'[k]} :: 0 <= k < |owner| && k < |b| ==> b'[k] == b[k]
    requires Stores(b', HeadOf(c), c, text) && c == Run(|owner|, |owner| + |c|)
    ensures Chains(b', [], segs[h := c], t[h := text])
    ensures Partition(owner + seq(|c|, _ => h), [], segs[h := c])
  {
    PartitionAppend(owner, segs, h, c);
    hide Stores, Run;
    forall n | n in t ensures Stores(b', HeadOf(segs[n]), segs[n], t[n]) {
      assert Stores(b, HeadOf(segs[n]), segs[n], t[n]);
      StoresFrame(b, b', HeadOf(segs[n]), segs[n], t[n]);
    }
  }

  lemma PartitionAppend(owner: seq<HashNode?>, segs: map<HashNode, seq<int>>, h: HashNode, c: seq<int>)
    requires Partition(owner, [], segs) && h !in segs && c == Run(|owner|, |owner| + |c|)
    ensures Partition(owner + seq(|c|, _ => h), [], segs[h := c])
  {
    var owner', segs' := owner + seq(|c|, _ => h), segs[h := c];
    forall k | |owner| <= k < |owner'| ensures k in c {
      assert c[k - |owner|] == k;
    }
    forall k | 0 <= k < |owner| ensures owner'[k] != null && owner'[k] in segs' && k in segs'[owner'[k]] {
      assert owner'[k] == owner[k];
    }
  }

  /** Lines still to be copied fit behind those already copied. */
  lemma CostRoom(done: map<HashNode, string>, t: map<HashNode, string>, h: HashNode)
    requires forall n :: n in done ==> n in t && done[n] == t[n]
    requires h in t && h !in done && forall m :: m in t && t[m] == t[h] ==> m == h
    ensures Cost(done.Values) + SegsFor(|t[h]|) == Cost(done[h := t[h]].Values) <= Cost(t.Values)
  {
    CostStore(done, h, t[h]);
    var done' := done[h := t[h]];
    forall x | x in done'.Values ensures x in t.Values {
      var n :| n in done' && done'[n] == x;
      assert t[n] == x;
    }
    CostMonotone(done'.Values, t.Values);
  }

  lemma CostStore(t: map<HashNode, string>, h: HashNode, text: string)
    requires h !in t && text !in t.Values
    ensures Cost(t[h := text].Values) == Cost(t.Values) + SegsFor(|text|)
  {
    var t' := t[h := text];
    assert h in t';
    forall x | x in t.Values ensures x in t'.Values {
      var n :| n in t && t[n] == x;
      assert t'[n] == x;
    }
    assert t'.Values == t.Values + {text};
    CostAdd(t.Values, text);
  }

  lemma CostDelete(t: map<HashNode, string>, h: HashNode)
    requires h in t && forall m :: m in t && t[m] == t[h] ==> m == h
    ensures Cost((t - {h}).Values) + SegsFor(|t[h]|) == Cost(t.Values)
  {
    var t' := t - {h};
    forall x | x in t.Values && x != t[h] ensures x in t'.Values {
      var n :| n in t && t[n] == x;
      assert t'[n] == x;
    }
    assert t'.Values == t.Values - {t[h]};
    CostRemove(t.Values, t[h]);
  }

  /** Write the text into the first segments of a chain; the last one written is returned. */
  method FillSegments(buffer: array<LineSeg>, head: int, line: string, n: nat, ghost c: seq<int>)
    returns (seg: int)
    requires Linked(buffer[..], head, c) && n <= |line| && SegsFor(n) <= |c|
    modifies buffer
    ensures seg == c[SegsFor(n) - 1]
    ensures forall k :: 0 <= k < buffer.Length ==> buffer[k].next == old(buffer[k].next)
    ensures forall k :: 0 <= k < buffer.Length && k !in c ==> buffer[k] == old(buffer[k])
    ensures InRange(c, buffer.Length) && Spells(buffer[..], c[..SegsFor(n)], line[..n])
  {
    ghost var b := buffer[..];
    var nseg := SegsFor(n);
    var offset, i := 0, 0;
    seg := head;
    while i < nseg - 1
      invariant 0 <= i <= nseg - 1 && offset == SEG_SIZE * i && seg == c[i]
      invariant forall j :: 0 <= j < i ==> buffer[c[j]].s == line[SEG_SIZE * j..SEG_SIZE * (j + 1)]
      invariant forall k :: 0 <= k < buffer.Length ==> buffer[k].next == b[k].next
      invariant forall k :: 0 <= k < buffer.Length && k !in c ==> buffer[k] == b[k]
    {
      assert b[c[i]].next == HeadOf(c[i + 1..]);
      buffer[seg] := buffer[seg].(s := line[offset..offset + SEG_SIZE]);
      seg, i, offset := buffer[seg].next, i + 1, offset + SEG_SIZE;
    }
    var rest := line[offset..n];
    buffer[seg] := buffer[seg].(s := rest + [NUL] + buffer[seg].s[|rest| + 1..]);
    ghost var text := line[..n];
    assert text[SEG_SIZE * (nseg - 1)..] == rest;
    forall j | 0 <= j < nseg - 1 ensures buffer[..][c[j]].s == text[SEG_SIZE * j..SEG_SIZE * (j + 1)] {
      assert c[j] != c[nseg - 1] && buffer[c[j]].s == line[SEG_SIZE * j..SEG_SIZE * (j + 1)];
      SliceOfTake(line, n, SEG_SIZE * j, SEG_SIZE * (j + 1));
    }
    SpellsIntro(buffer[..], c, nseg, text);
  }

  /** Take the k'th node out of the list c of bucket b. */
  method UnlinkFrom(bucket: array<HashNode?>, b: nat, hash: HashNode, ghost c: seq<HashNode>, ghost k: nat)
    requires b < bucket.Length && LinkedNodes(bucket[b], c) && k < |c| && c[k] == hash
    modifies bucket, (set n | n in c)`next
    ensures LinkedNodes(bucket[b], c[..k] + c[k + 1..])
    ensures forall d :: 0 <= d < bucket.Length && d != b ==> bucket[d] == old(bucket[d])
  {
    ghost var first := bucket[b];
    assert c[k].next == FirstOf(c[k + 1..]);
    if bucket[b] == hash {
      bucket[b] := hash.next;
    } else {
      var prev := bucket[b];
      ghost var i := 0;
      while prev != null && prev.next != hash
        invariant 0 <= i < k && prev == c[i]
        decreases k - i
      {
        assert c[i].next == FirstOf(c[i + 1..]);
        prev, i := prev.next, i + 1;
      }
      assert c[i].next == FirstOf(c[i + 1..]);
      if prev != null {
        prev.next := hash.next;
      }
    }
    hash.next := null;
    LinkedNodesBypass(first, c, k, bucket[b]);
  }

  /** The last segment of a chain, and how many there are. */
  method ChainEnd(buffer: array<LineSeg>, head: int, ghost c: seq<int>) returns (tail: int, nseg: nat)
    requires Linked(buffer[..], head, c) && c != []
    ensures tail == c[|c| - 1] && nseg == |c|
  {
    nseg, tail := 1, head;
    ghost var b := buffer[..];
    assert b[c[0]].next == HeadOf(c[1..]);
    while buffer[tail].next != NIL
      invariant 1 <= nseg <= |c| && tail == c[nseg - 1]
      invariant b[c[nseg - 1]].next == HeadOf(c[nseg..])
      decreases |c| - nseg
    {
      nseg, tail := nseg + 1, buffer[tail].next;
      assert b[c[nseg - 1]].next == HeadOf(c[nseg..]);
    }
  }

  class LineStore {
    var buffer: array<LineSeg>
    var nbuff: nat
    var unused: int
    var nbusy: int
    var nfree: int
    const bucket: array<HashNode?>

    ghost var texts: map<HashNode, string>      // the stored lines
    ghost var refs: multiset<HashNode>          // the references handed out to them
    ghost var segs: map<HashNode, seq<int>>     // the segments of each stored line
    ghost var free: seq<int>                    // the unused segments, in chain order
    ghost var owner: seq<HashNode?>             // the line that each segment belongs to
    ghost var chains: seq<seq<HashNode>>        // the nodes of each bucket

    ghost function Repr(): set<object>
      reads `buffer, `texts
    {
      {this, buffer, bucket} + texts.Keys
    }

    ghost predicate Valid()
      reads Repr()
    {
      && buffer as object != bucket
      && SegmentsOk(texts)
      && TableOk(texts)
      && CountsOk(texts)
    }

    /** The buffer is partitioned into the unused chain and the chains of the lines of t. */
    ghost predicate SegmentsOk(t: map<HashNode, string>)
      reads `buffer, `nbuff, `unused, `nbusy, `nfree, `segs, `free, `owner, buffer, t.Keys`head, t.Keys`len
    {
      && buffer.Length == nbuff == |owner|
      && Chains(buffer[..], free, segs, t)
      && Partition(owner, free, segs)
      && unused == HeadOf(free) && nfree == |free|
      && nbusy == Cost(t.Values) && nbusy + nfree == nbuff
      && (forall n :: n in t ==> n.head == HeadOf(segs[n]) && n.len == |t[n]| && NoNul(t[n]))
    }

    /** The buckets chain together exactly the lines of t, each in its own bucket and each just once. */
    ghost predicate TableOk(t: map<HashNode, string>)
      reads `chains, bucket, t.Keys`next, t.Keys`bucket
    {
      && Placed(chains, t)
      && bucket.Length == HASH_SIZE
      && (forall b :: 0 <= b < HASH_SIZE ==> LinkedNodes(bucket[b], chains[b]))
      && (forall n :: n in t ==> n.bucket == HashOf(t[n]))
    }

    /** The counts in the nodes of t are the numbers of references handed out. */
    ghost predicate CountsOk(t: map<HashNode, string>)
      reads `refs, t.Keys`used
    {
      && (forall n :: n in t ==> n.used == refs[n])
      && (forall n :: n in refs ==> n in t)
    }

    lemma CountsAdd(t: map<HashNode, string>, hash: HashNode, text: string)
      requires CountsOk(t) && hash !in t && hash.used == 0
      ensures CountsOk(t[hash := text])
    {
      assert hash !in refs;
    }

    method FindBucket(line: string, n: nat) returns (b: nat)
      requires n <= |line|
      ensures b == HashOf(line[..n])
    {
      var h := 0;
      for i := 0 to n
        invariant h == HashSum(line[..i])
      {
        assert line[..i + 1][..i] == line[..i];
        h := (65599 * h + line[i] as int % 256) % ULONG_RANGE;
      }
      b := h % HASH_SIZE;
    }

    lemma HoldsText(hash: HashNode)
      requires SegmentsOk(texts) && hash in texts
      ensures hash in segs && hash.Holds(buffer, segs[hash], texts[hash])
      ensures segs[hash] != [] && |segs[hash]| == SegsFor(|texts[hash]|) && hash.head != NIL
    {
    }

    method FindHashNode(b: nat, line: string, n: nat) returns (hash: HashNode?)
      requires Valid() && n <= |line| && b == HashOf(line[..n])
      ensures hash != null ==> hash in texts && texts[hash] == line[..n]
      ensures hash == null ==> line[..n] !in texts.Values
    {
      hide SegmentsOk, CountsOk, HashSum, HashOf;
      ghost var c := chains[b];
      ghost var i := 0;
      hash := bucket[b];
      while hash != null
        invariant 0 <= i <= |c| && hash == FirstOf(c[i..])
        invariant forall k :: 0 <= k < i ==> texts[c[k]] != line[..n]
        decreases |c| - i
      {
        assert hash == chains[b][i];
        HoldsText(hash);
        var same := hash.IsLine(buffer, line, n, segs[hash], texts[hash]);
        if same {
          return;
        }
        assert c[i].next == FirstOf(c[i + 1..]);
        hash := hash.next;
        i := i + 1;
      }
    }

    /** Write the text into the first unused segments; the last one written is returned. */
    method FillUnused(line: string, n: nat) returns (seg: int)
      requires SegmentsOk(texts) && n <= |line| && SegsFor(n) <= nfree
      modifies buffer
      ensures SegmentsOk(texts)
      ensures seg == free[SegsFor(n) - 1] && Spells(buffer[..], free[..SegsFor(n)], line[..n])
    {
      ghost var b := buffer[..];
      seg := FillSegments(buffer, unused, line, n, free);
      LinkedFrame(b, buffer[..], unused, free);
      ChainsFrame(b, buffer[..], owner, free, segs, texts);
    }

    /** Move the filled front of the unused chain, which ends at seg, to a new node. */
    method TakeSegments(hash: HashNode, seg: int, ghost text: string)
      requires SegmentsOk(texts) && hash !in texts && hash.len == |text| && NoNul(text)
      requires text !in texts.Values && SegsFor(|text|) <= nfree
      requires seg == free[SegsFor(|text|) - 1] && Spells(buffer[..], free[..SegsFor(|text|)], text)
      modifies `unused, `nbusy, `nfree, `segs, `free, `owner, buffer, hash`head
      ensures SegmentsOk(texts[hash := text]) && nbusy == old(nbusy) + SegsFor(|text|)
    {
      hide Chains, Partition, Spells, Cost, SegsFor;
      var nseg := SegsFor(hash.len);
      ghost var b := buffer[..];
      ChainBounds(b, free, segs, texts, hash.len);
      hash.head := unused;
      unused := buffer[seg].next;
      buffer[seg] := buffer[seg].(next := NIL);
      nbusy, nfree := nbusy + nseg, nfree - nseg;
      ChainsTake(b, buffer[..], owner, free, segs, texts, hash, text, nseg);
      PartitionTake(owner, free, segs, hash, nseg);
      CostStore(texts, hash, text);
      owner, free, segs := Reassign(owner, free[..nseg], hash), free[nseg..], segs[hash := free[..nseg]];
    }

    /** Give a new node a copy of the line, in segments from the front of the unused chain. */
    method FillAndTake(hash: HashNode, line: string, n: nat)
      requires SegmentsOk(texts) && hash !in texts && n <= |line| && hash.len == n && NoNul(line[..n])
      requires line[..n] !in texts.Values && SegsFor(n) <= nfree
      modifies `unused, `nbusy, `nfree, `segs, `free, `owner, buffer, hash`head
      ensures SegmentsOk(texts[hash := line[..n]]) && nbusy == old(nbusy) + SegsFor(n)
    {
      hide SegmentsOk, SegsFor, NoNul, Spells;
      var seg := FillUnused(line, n);
      TakeSegments(hash, seg, line[..n]);
    }

    /** Prepend a node to the list of its bucket. */
    method LinkNode(b: nat, hash: HashNode, ghost text: string)
      requires TableOk(texts) && hash !in texts && text !in texts.Values
      requires hash.bucket == b == HashOf(text)
      modifies bucket, `chains, hash`next
      ensures TableOk(texts[hash := text])
    {
      hide Placed, HashOf, Distinct, LinkedNodes;
      PlacedIn(chains, texts);
      hash.next := bucket[b];
      bucket[b] := hash;
      PlacedAdd(chains, texts, b, hash, text);
      LinkedNodesPrepend(hash, chains[b]);
      chains := chains[b := [hash] + chains[b]];
    }

    /** Store a new line in the first unused segments, under a node with no references yet. */
    method StoreLine(b: nat, line: string, n: nat) returns (hash: HashNode)
      requires Valid() && n <= |line| && NoNul(line[..n]) && b == HashOf(line[..n])
      requires line[..n] !in texts.Values && SegsFor(n) <= nfree
      modifies Repr()
      ensures Valid() && fresh(hash) && Repr() == old(Repr()) + {hash}
      ensures texts == old(texts)[hash := line[..n]]
      ensures refs == old(refs) && nbuff == old(nbuff) && nbusy == old(nbusy) + SegsFor(n)
    {
      hide SegmentsOk, TableOk, CountsOk, HashOf, SegsFor, NoNul, Cost;
      ghost var text := line[..n];
      hash := new HashNode(b, n);
      CountsAdd(texts, hash, text);
      FillAndTake(hash, line, n);
      assert TableOk(texts) && CountsOk(texts[hash := text]);
      LinkNode(b, hash, text);
      texts := texts[hash := text];
    }

    /** Hand out one more reference to a stored line. */
    method Retain(hash: HashNode)
      requires Valid() && hash in texts
      modifies `refs, hash`used
      ensures Valid() && refs == old(refs) + multiset{hash}
    {
      hide SegmentsOk, TableOk;
      hash.used := hash.used + 1;
      refs := refs + multiset{hash};
    }

    /** Take one reference back. */
    method Release(hash: HashNode)
      requires CountsOk(texts) && hash in refs
      modifies `refs, hash`used
      ensures refs == old(refs) - multiset{hash} && hash in texts && hash.used == refs[hash]
      ensures CountsOk(texts) && (hash !in refs ==> CountsOk(texts - {hash}))
    {
      hash.used := hash.used - 1;
      refs := refs - multiset{hash};
    }

    lemma RefStored(hash: HashNode)
      requires CountsOk(texts) && hash in refs
      ensures hash in texts
    {
    }

    lemma UsesAre(hash: HashNode)
      requires Valid() && hash in texts
      ensures hash.used == refs[hash]
    {
    }

    lemma StoreSizes()
      requires Valid()
      ensures nbusy == Cost(texts.Values) && nbusy + nfree == nbuff && 0 <= nfree
      ensures forall n :: n in refs ==> n in texts
    {
    }

    /** The buffer is partitioned: each segment is in the unused chain, or in the chain of exactly one line, and no
        chain comes back to a segment it has been through. */
    lemma BufferPartitioned()
      requires Valid()
      ensures buffer.Length == nbuff && nbusy + nfree == nbuff && nfree == |free|
      ensures Linked(buffer[..], unused, free)
      ensures forall n :: n in texts ==>
                n in segs && Linked(buffer[..], n.head, segs[n]) && |segs[n]| == SegsFor(|texts[n]|)
      ensures forall k :: 0 <= k < nbuff ==> (k in free <==> forall n :: n in texts ==> k !in segs[n])
      ensures forall k, m, n :: m in texts && n in texts && k in segs[m] && k in segs[n] ==> m == n
    {
      hide TableOk, CountsOk, Cost, Partition, Chains, Linked, SegsFor;
      PartitionMeans(owner, free, segs);
      FreeChain(buffer[..], free, segs, texts);
      forall n | n in texts
        ensures n in segs && Linked(buffer[..], n.head, segs[n]) && |segs[n]| == SegsFor(|texts[n]|)
      {
        ChainsLine(buffer[..], free, segs, texts, n);
      }
    }

    lemma HeldText(hash: HashNode)
      requires Valid() && hash in texts
      ensures hash in segs && hash.Holds(buffer, segs[hash], texts[hash])
    {
      HoldsText(hash);
    }

    /** Lines are stored once: comparing nodes compares texts. */
    lemma SharedText(m: HashNode, n: HashNode)
      requires Valid() && m in texts && n in texts
      ensures m == n <==> texts[m] == texts[n]
    {
      OnlyNodeOf(m);
    }

    lemma OnlyNodeOf(hash: HashNode)
      requires TableOk(texts) && hash in texts
      ensures forall m :: m in texts && texts[m] == texts[hash] ==> m == hash
    {
    }

    /** Take a node out of the list of its bucket. */
    method UnlinkNode(hash: HashNode)
      requires TableOk(texts) && hash in texts
      modifies bucket, `chains, texts.Keys`next
      ensures TableOk(texts - {hash})
    {
      hide HashOf, Placed, LinkedNodes;
      var b := hash.bucket;
      ghost var _, k := PlacedAt(chains, texts, hash);
      ghost var c := chains[b];
      assert LinkedNodes(bucket[b], c);
      DistinctNodes(bucket[b], c);
      PlacedRemove(chains, texts, b, k);
      UnlinkFrom(bucket, b, hash, c, k);
      forall d | 0 <= d < HASH_SIZE && d != b ensures LinkedNodes(bucket[d], chains[d]) {
        PlacedApart(chains, texts, b, d);
        assert old(LinkedNodes(bucket[d], chains[d]));
      }
      chains := chains[b := c[..k] + c[k + 1..]];
    }

    /** Return the segments of a line to the unused chain. */
    method GiveBack(hash: HashNode)
      requires SegmentsOk(texts) && hash in texts
      requires forall m :: m in texts && texts[m] == texts[hash] ==> m == hash
      modifies `unused, `nbusy, `nfree, `segs, `free, `owner, buffer
      ensures SegmentsOk(texts - {hash}) && nbuff == old(nbuff)
    {
      hide Chains, Partition, Spells, Cost, SegsFor, NoNul;
      HoldsText(hash);
      ChainBounds(buffer[..], free, segs, texts, |texts[hash]|);
      if hash.head != NIL {
        ghost var b := buffer[..];
        var tail, nseg := ChainEnd(buffer, hash.head, segs[hash]);
        buffer[tail] := buffer[tail].(next := unused);
        unused := hash.head;
        nbusy, nfree := nbusy - nseg, nfree + nseg;
        ChainsReturn(b, buffer[..], owner, free, segs, texts, hash);
        PartitionReturn(owner, free, segs, hash);
        CostDelete(texts, hash);
        owner, free, segs := Reassign(owner, segs[hash], null), segs[hash] + free, segs - {hash};
      }
    }

    /** Delete a line that is no longer referenced. */
    method DeleteLine(hash: HashNode)
      requires SegmentsOk(texts) && TableOk(texts) && CountsOk(texts - {hash}) && hash in texts
      modifies `texts, `unused, `nbusy, `nfree, `segs, `free, `owner, buffer, `chains, bucket, texts.Keys`next
      ensures SegmentsOk(texts) && TableOk(texts) && CountsOk(texts)
      ensures texts == old(texts) - {hash} && nbuff == old(nbuff)
    {
      hide SegmentsOk, TableOk, CountsOk;
      OnlyNodeOf(hash);
      UnlinkNode(hash);
      GiveBack(hash);
      texts := texts - {hash};
    }

    /** Take one reference back; with the last one the line is deleted. */
    method DiscardCopy(hash: HashNode?)
      requires Valid() && (hash != null ==> hash in refs)
      modifies Repr()
      ensures Valid() && Repr() <= old(Repr()) && nbuff == old(nbuff)
      ensures refs == if hash == null then old(refs) else old(refs) - multiset{hash}
      ensures texts == if hash == null || hash in refs then old(texts) else old(texts) - {hash}
    {
      hide SegmentsOk, TableOk, CountsOk;
      if hash != null {
        assert hash in texts by { RefStored(hash); }
        Release(hash);
        if hash.used >= 1 {
          return;
        }
        DeleteLine(hash);
      }
    }

    constructor (buflen: nat)
      ensures Valid() && fresh(Repr())
      ensures texts == map[] && refs == multiset{} && nbuff == (buflen + SEG_SIZE - 1) / SEG_SIZE
    {
      hide SegmentsOk, TableOk;
      nbuff := (buflen + SEG_SIZE - 1) / SEG_SIZE;
      buffer := new LineSeg[(buflen + SEG_SIZE - 1) / SEG_SIZE](_ => LineSeg(NIL, seq(SEG_SIZE, _ => NUL)));
      bucket := new HashNode?[HASH_SIZE](_ => null);
      texts, refs := map[], multiset{};
      new;
      assert refs == multiset{};
      ClearTable();
      FreeAll();
    }

    /** Empty every bucket. */
    method ClearTable()
      requires bucket.Length == HASH_SIZE
      modifies bucket, `chains
      ensures TableOk(map[])
    {
      var i := 0;
      while i < HASH_SIZE
        invariant i <= HASH_SIZE
        invariant forall b :: 0 <= b < i ==> bucket[b] == null
      {
        bucket[i] := null;
        i := i + 1;
      }
      chains := seq(HASH_SIZE, _ => []);
    }

    /** Make one unused chain of the whole buffer. */
    method FreeAll()
      requires buffer.Length == nbuff
      modifies buffer, `unused, `nbusy, `nfree, `segs, `free, `owner
      ensures SegmentsOk(map[])
    {
      if nbuff > 0 {
        ThreadBuffer(buffer, 0);
        unused := 0;
      } else {
        unused := NIL;
      }
      nfree, nbusy := nbuff, 0;
      free, segs, owner := Run(0, nbuff), map[], seq(nbuff, _ => null);
      ghost var none: map<HashNode, string> := map[];
      assert none.Values == {};
      assert Linked(buffer[..], HeadOf(free), free);
      forall k | 0 <= k < nbuff ensures k in free {
        assert free[k] == k;
      }
    }

    /** Forget all of the lines, once nothing refers to them any more. */
    method Clear()
      requires Valid()
      modifies Repr()
      ensures Valid() && Repr() <= old(Repr()) && nbuff == old(nbuff)
      ensures texts == map[] && refs == multiset{}
    {
      hide TableOk, SegmentsOk;
      Sizes();
      ClearTable();
      FreeAll();
      texts, refs := map[], multiset{};
      assert CountsOk(texts);
    }

    lemma Sizes()
      requires TableOk(texts) && SegmentsOk(texts)
      ensures bucket.Length == HASH_SIZE && buffer.Length == nbuff
    {
    }

    /** Part of the lines, those of done, have been copied to the front of b'. */
    ghost predicate Compacting(b': seq<LineSeg>, done: map<HashNode, string>,
                               moved: map<HashNode, seq<int>>, owner': seq<HashNode?>)
      reads `texts, `segs, texts.Keys`head
    {
      && (forall n :: n in done ==> n in texts && done[n] == texts[n])
      && Chains(b', [], moved, done) && Partition(owner', [], moved)
      && |owner'| == Cost(done.Values) <= |b'|
      && segs.Keys == texts.Keys
      && (forall n :: n in texts ==> n.head == HeadOf(if n in done then moved[n] else segs[n]))
    }

    /** Copy one line behind those already copied. */
    method MoveLine(hash: HashNode, buffer': array<LineSeg>, ghost done: map<HashNode, string>,
                    ghost moved: map<HashNode, seq<int>>, ghost owner': seq<HashNode?>, pos: nat) returns (end: nat)
      requires Compacting(buffer'[..], done, moved, owner') && pos == |owner'|
      requires Chains(buffer[..], free, segs, texts) && buffer != buffer'
      requires hash in texts && hash !in done && Cost(texts.Values) <= buffer'.Length
      requires forall m :: m in texts && texts[m] == texts[hash] ==> m == hash
      modifies buffer', hash`head
      ensures end == pos + SegsFor(|texts[hash]|)
      ensures Compacting(buffer'[..], done[hash := texts[hash]], moved[hash := Run(pos, end)],
                         owner' + seq(end - pos, _ => hash))
    {
      hide SegsFor, Spells, Cost, Linked, Chains, Partition, Stores;
      ghost var c, b', text := segs[hash], buffer'[..], texts[hash];
      ChainsLine(buffer[..], free, segs, texts, hash);
      CostRoom(done, texts, hash);
      end := CopyLine(buffer, hash.head, buffer', pos, c, text);
      hash.head := pos;
      ghost var c' := Run(pos, end);
      ChainsAppend(b', owner', moved, done, buffer'[..], hash, c', text);
      assert HeadOf(c') == pos;
    }

    /** Copy the lines of one bucket. */
    method CompactBucket(i: nat, buffer': array<LineSeg>, ghost done0: map<HashNode, string>,
                         ghost moved0: map<HashNode, seq<int>>, ghost owner0: seq<HashNode?>, pos: nat)
      returns (end: nat, ghost done: map<HashNode, string>,
               ghost moved: map<HashNode, seq<int>>, ghost owner': seq<HashNode?>)
      requires Compacting(buffer'[..], done0, moved0, owner0) && pos == |owner0|
      requires TableOk(texts) && Chains(buffer[..], free, segs, texts) && i < HASH_SIZE
      requires buffer != buffer' && buffer' as object != bucket && Cost(texts.Values) <= buffer'.Length
      requires forall n :: n in texts ==> (n in done0 <==> HashOf(texts[n]) < i)
      modifies buffer', texts.Keys`head
      ensures end == |owner'| && Compacting(buffer'[..], done, moved, owner')
      ensures forall n :: n in texts ==> (n in done <==> HashOf(texts[n]) < i + 1)
    {
      hide Placed, Compacting, HashOf, Chains, LinkedNodes, Cost, SegsFor;
      PlacedIn(chains, texts);
      ghost var c := chains[i];
      assert LinkedNodes(bucket[i], c);
      LinkedAt(bucket[i], c, 0);
      end, done, moved, owner' := pos, done0, moved0, owner0;
      var hnode := bucket[i];
      ghost var j := 0;
      while hnode != null
        invariant 0 <= j <= |c| && hnode == FirstOf(c[j..]) && end == |owner'|
        invariant Compacting(buffer'[..], done, moved, owner')
        invariant TableOk(texts) && buffer[..] == old(buffer[..])
        invariant forall n :: n in texts ==> (n in done <==> HashOf(texts[n]) < i || n in c[..j])
        decreases |c| - j
      {
        OnlyNodeOf(hnode);
        LinkedAt(bucket[i], c, j);
        var end' := MoveLine(hnode, buffer', done, moved, owner', end);
        done, moved := done[hnode := texts[hnode]], moved[hnode := Run(end, end')];
        owner' := owner' + seq(end' - end, _ => hnode);
        end, hnode, j := end', hnode.next, j + 1;
      }
      assert c[..j] == c;
    }

    /** Copy all of the lines to the front of another buffer. */
    method Compact(buffer': array<LineSeg>)
      returns (nbusy': nat, ghost moved: map<HashNode, seq<int>>, ghost owner': seq<HashNode?>)
      requires Valid() && buffer' !in Repr() && nbusy <= buffer'.Length
      modifies buffer', texts.Keys`head
      ensures nbusy' == |owner'| && Compacting(buffer'[..], texts, moved, owner')
    {
      hide SegmentsOk, TableOk, CountsOk, Compacting, HashOf, Chains, Cost;
      ghost var done: map<HashNode, string>;
      nbusy', done, moved, owner' := 0, map[], map[], [];
      StartCompacting(buffer'[..]);
      var i := 0;
      while i < HASH_SIZE
        invariant 0 <= i <= HASH_SIZE && nbusy' == |owner'|
        invariant Compacting(buffer'[..], done, moved, owner')
        invariant TableOk(texts) && buffer[..] == old(buffer[..])
        invariant forall n :: n in texts ==> (n in done <==> HashOf(texts[n]) < i)
      {
        nbusy', done, moved, owner' := CompactBucket(i, buffer', done, moved, owner', nbusy');
        i := i + 1;
      }
      DoneCompacting(buffer'[..], done, moved, owner');
    }

    lemma StartCompacting(b': seq<LineSeg>)
      requires SegmentsOk(texts)
      ensures Compacting(b', map[], map[], [])
      ensures Chains(buffer[..], free, segs, texts) && nbusy == Cost(texts.Values)
    {
      var none: map<HashNode, string> := map[];
      assert none.Values == {};
    }

    lemma DoneCompacting(b': seq<LineSeg>, done: map<HashNode, string>,
                         moved: map<HashNode, seq<int>>, owner': seq<HashNode?>)
      requires Compacting(b', done, moved, owner') && forall n :: n in texts ==> n in done
      ensures done == texts
    {
    }

    /** Install a buffer to which all of the lines have been copied. */
    method Install(buffer': array<LineSeg>, nbusy': nat, ghost moved: map<HashNode, seq<int>>,
                   ghost owner': seq<HashNode?>)
      requires Compacting(buffer'[..], texts, moved, owner') && nbusy' == |owner'|
      requires forall n :: n in texts ==> n.len == |texts[n]| && NoNul(texts[n])
      modifies buffer', `buffer, `nbuff, `unused, `nbusy, `nfree, `segs, `free, `owner
      ensures SegmentsOk(texts) && buffer == buffer' && nbuff == buffer'.Length
    {
      hide Spells, Cost, Chains, Partition, NoNul, Linked, Compacting, Run, HeadOf;
      ghost var b' := buffer'[..];
      Compacted(b', moved, owner');
      RunIs(nbusy', buffer'.Length);
      ThreadRest(buffer', nbusy');
      buffer, nbuff := buffer', buffer'.Length;
      nbusy, nfree := nbusy', nbuff - nbusy';
      unused := if nfree > 0 then nbusy' else NIL;
      segs, free := moved, Run(nbusy', nbuff);
      ChainsFull(b', owner', moved, texts, buffer[..], free);
      owner := owner' + seq(nbuff - nbusy', _ => null);
      assert Chains(buffer[..], free, segs, texts) && Partition(owner, free, segs);
    }

    lemma Compacted(b': seq<LineSeg>, moved: map<HashNode, seq<int>>, owner': seq<HashNode?>)
      requires Compacting(b', texts, moved, owner')
      ensures Chains(b', [], moved, texts) && Partition(owner', [], moved) && |owner'| == Cost(texts.Values) <= |b'|
      ensures forall n :: n in texts ==> n in moved && n.head == HeadOf(moved[n])
    {
    }

    static lemma RunIs(from: int, to: int)
      requires from <= to
      ensures |Run(from, to)| == to - from && HeadOf(Run(from, to)) == if from < to then from else NIL
    {
    }

    lemma LengthsOk()
      requires SegmentsOk(texts)
      ensures forall n :: n in texts ==> n.len == |texts[n]| && NoNul(texts[n])
    {
    }

    /** Change from one finite buffer size to another that is large enough for the stored lines. */
    method Resize(nbuff': nat)
      requires Valid() && 0 < nbuff' && nbusy <= nbuff'
      modifies Repr()
      ensures Valid() && fresh(buffer) && nbuff == nbuff' && texts == old(texts) && refs == old(refs)
    {
      hide SegmentsOk, TableOk, CountsOk, Compacting, NoNul;
      LengthsOk();
      var buffer' := new LineSeg[nbuff'](_ => LineSeg(NIL, seq(SEG_SIZE, _ => NUL)));
      var nbusy', moved, owner' := Compact(buffer');
      Install(buffer', nbusy', moved, owner');
    }

    /** Give an empty store a buffer of another size; a size of zero stands for no buffer. */
    method Reallocate(nbuff': nat)
      requires Valid() && texts == map[]
      modifies Repr()
      ensures Valid() && fresh(buffer) && nbuff == nbuff' && texts == map[] && refs == old(refs)
    {
      hide TableOk, SegmentsOk, CountsOk;
      buffer := new LineSeg[nbuff'](_ => LineSeg(NIL, seq(SEG_SIZE, _ => NUL)));
      nbuff := nbuff';
      FreeAll();
    }
  }
}
