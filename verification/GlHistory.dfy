/** The history store: linked lines over the segmented, reference-counted store,
    each operation proved to do what HistorySpec says. */
module HistoryStore {
  import opened CStrings
  import opened Segments
  import opened LineStorage
  import opened LineLists
  import opened HistorySpec
  import opened HistoryFile

  ghost function Handles(es: seq<Entry>): seq<HashNode> {
    seq(|es|, i requires 0 <= i < |es| => es[i].line)
  }

  ghost function HandlesOf(prefix: HashNode?): multiset<HashNode> {
    if prefix == null then multiset{} else multiset{prefix}
  }

  ghost predicate Known(es: seq<Entry>, t: map<HashNode, string>) {
    forall i :: 0 <= i < |es| ==> es[i].line in t
  }

  /** The lines that the entries of the list stand for. */
  ghost function LinesOf(es: seq<Entry>, t: map<HashNode, string>): (ls: seq<Line>)
    requires Known(es, t)
    ensures |ls| == |es|
  {
    seq(|es|, i requires 0 <= i < |es| => Line(es[i].id, es[i].timestamp, es[i].group, t[es[i].line]))
  }

  lemma DropHandle(es: seq<Entry>, k: nat)
    requires k < |es|
    ensures multiset(Handles(Drop(es, k))) == multiset(Handles(es)) - multiset{es[k].line}
  {
    var s := Handles(es);
    assert s == s[..k] + [s[k]] + s[k + 1..];
    assert Handles(Drop(es, k)) == s[..k] + s[k + 1..];
  }

  lemma AddHandle(es: seq<Entry>, e: Entry)
    ensures multiset(Handles(es + [e])) == multiset(Handles(es)) + multiset{e.line}
  {
    assert Handles(es + [e]) == Handles(es) + [e.line];
  }

  lemma HandleIn(es: seq<Entry>, h: HashNode)
    ensures h in multiset(Handles(es)) <==> exists i :: 0 <= i < |es| && es[i].line == h
  {
    if i: nat :| i < |es| && es[i].line == h {
      assert Handles(es)[i] == h;
    }
    if h in Handles(es) {
      var i :| 0 <= i < |es| && Handles(es)[i] == h;
    }
  }

  /** References are exact: every stored line is in use, and its uses are counted. */
  ghost predicate Counted(es: seq<Entry>, prefix: HashNode?, extra: multiset<HashNode>,
                          t: map<HashNode, string>, refs: multiset<HashNode>) {
    && refs == multiset(Handles(es)) + HandlesOf(prefix) + extra
    && (forall n :: n in t ==> n in refs)
    && (forall n :: n in refs ==> n in t)
  }

  lemma CountedKnown(es: seq<Entry>, prefix: HashNode?, extra: multiset<HashNode>,
                     t: map<HashNode, string>, refs: multiset<HashNode>)
    requires Counted(es, prefix, extra, t, refs)
    ensures Known(es, t) && (prefix != null ==> prefix in t)
  {
    forall i | 0 <= i < |es| ensures es[i].line in t {
      HandleIn(es, es[i].line);
    }
  }

  /** What is stored is exactly the texts of the lines and of the prefix. */
  lemma StoredTexts(es: seq<Entry>, prefix: HashNode?, t: map<HashNode, string>, refs: multiset<HashNode>)
    requires Counted(es, prefix, multiset{}, t, refs) && Known(es, t) && (prefix != null ==> prefix in t)
    ensures t.Values == Texts(LinesOf(es, t)) + Held(if prefix == null then None else Some(t[prefix]))
  {
    var ls := LinesOf(es, t);
    forall x | x in t.Values ensures x in Texts(ls) + Held(if prefix == null then None else Some(t[prefix])) {
      var n :| n in t && t[n] == x;
      HandleIn(es, n);
      if n != prefix {
        var i :| 0 <= i < |es| && es[i].line == n;
        assert ls[i].text == x;
      }
    }
    forall l | l in ls ensures l.text in t.Values {
      var i :| 0 <= i < |ls| && ls[i] == l;
      assert es[i].line in t;
    }
  }

  lemma CountedEntry(es: seq<Entry>, prefix: HashNode?, t: map<HashNode, string>, refs: multiset<HashNode>, k: nat)
    requires Counted(es, prefix, multiset{}, t, refs) && k < |es|
    ensures es[k].line in refs
  {
    HandleIn(es, es[k].line);
  }

  /** Stored lines keep their texts. */
  ghost predicate Agree(t': map<HashNode, string>, t: map<HashNode, string>) {
    forall n :: n in t' ==> n in t && t'[n] == t[n]
  }

  lemma LinesOfDrop(es: seq<Entry>, t: map<HashNode, string>, k: nat, t': map<HashNode, string>)
    requires Known(es, t) && k < |es| && Known(Drop(es, k), t') && Agree(t', t)
    ensures LinesOf(Drop(es, k), t') == Drop(LinesOf(es, t), k)
  {
  }

  lemma CountedPrefix(es: seq<Entry>, prefix: HashNode, t: map<HashNode, string>, refs: multiset<HashNode>)
    requires Counted(es, prefix, multiset{}, t, refs)
    ensures prefix in refs
  {
  }

  /** Dropping an entry and one reference to its line leaves the other lines as they were. */
  lemma DropEntry(es: seq<Entry>, prefix: HashNode?, t: map<HashNode, string>, refs: multiset<HashNode>, k: nat,
                  t': map<HashNode, string>, refs': multiset<HashNode>)
    requires Counted(es, prefix, multiset{}, t, refs) && Known(es, t) && k < |es| && (prefix != null ==> prefix in t)
    requires refs' == refs - multiset{es[k].line}
    requires t' == if es[k].line in refs' then t else t - {es[k].line}
    ensures Counted(Drop(es, k), prefix, multiset{}, t', refs') && Agree(t', t)
    ensures Known(Drop(es, k), t') && LinesOf(Drop(es, k), t') == Drop(LinesOf(es, t), k)
    ensures prefix != null ==> prefix in t'
  {
    assert es[k].line in multiset(Handles(es)) by { HandleIn(es, es[k].line); }
    CountedDrop(es, prefix, t, refs, k, t', refs');
    CountedKnown(Drop(es, k), prefix, multiset{}, t', refs');
    LinesOfDrop(es, t, k, t');
  }

  lemma CountedDrop(es: seq<Entry>, prefix: HashNode?, t: map<HashNode, string>, refs: multiset<HashNode>, k: nat,
                    t': map<HashNode, string>, refs': multiset<HashNode>)
    requires Counted(es, prefix, multiset{}, t, refs) && k < |es|
    requires es[k].line in multiset(Handles(es))
    requires refs' == refs - multiset{es[k].line}
    requires t' == if es[k].line in refs' then t else t - {es[k].line}
    ensures Counted(Drop(es, k), prefix, multiset{}, t', refs')
  {
    hide Handles, Drop, HandlesOf;
    DropHandle(es, k);
    DropFromLeft(multiset(Handles(es)), HandlesOf(prefix), es[k].line);
    KeysDrop(t, refs, es[k].line);
  }

  lemma DropFromLeft(a: multiset<HashNode>, b: multiset<HashNode>, h: HashNode)
    requires h in a
    ensures (a + b + multiset{}) - multiset{h} == (a - multiset{h}) + b + multiset{}
  {
  }

  lemma DropFromRight(a: multiset<HashNode>, h: HashNode)
    ensures (a + multiset{h} + multiset{}) - multiset{h} == a + multiset{} + multiset{}
  {
  }

  /** A line is stored for just as long as there are references to it. */
  lemma KeysDrop(t: map<HashNode, string>, refs: multiset<HashNode>, h: HashNode)
    requires (forall n :: n in t ==> n in refs) && (forall n :: n in refs ==> n in t)
    ensures var refs' := refs - multiset{h};
            var t' := if h in refs' then t else t - {h};
            (forall n :: n in t' ==> n in refs') && (forall n :: n in refs' ==> n in t')
  {
  }

  /** Handing out a reference to a line, new or already stored, leaves the other lines as they were. */
  lemma TakeReference(es: seq<Entry>, prefix: HashNode?, t: map<HashNode, string>, refs: multiset<HashNode>,
                      h: HashNode, t': map<HashNode, string>)
    requires Counted(es, prefix, multiset{}, t, refs) && Known(es, t) && (prefix != null ==> prefix in t)
    requires h in t' && (t' == t || (h !in t && t' == t[h := t'[h]]))
    ensures Counted(es, prefix, multiset{h}, t', refs + multiset{h})
    ensures Known(es, t') && LinesOf(es, t') == LinesOf(es, t) && Agree(t, t')
  {
    hide HandlesOf, Handles, LinesOf;
    assert forall n :: n in refs + multiset{h} <==> n in refs || n == h;
    LinesOfMore(es, t, h, t');
  }

  lemma LinesOfMore(es: seq<Entry>, t: map<HashNode, string>, h: HashNode, t': map<HashNode, string>)
    requires Known(es, t) && h in t' && (t' == t || (h !in t && t' == t[h := t'[h]]))
    ensures Known(es, t') && LinesOf(es, t') == LinesOf(es, t)
  {
  }

  /** An entry for a line that a reference is held to. */
  lemma AppendEntry(es: seq<Entry>, e: Entry, prefix: HashNode?, t: map<HashNode, string>, refs: multiset<HashNode>)
    requires Counted(es, prefix, multiset{e.line}, t, refs) && Known(es, t) && e.line in t
    ensures Counted(es + [e], prefix, multiset{}, t, refs) && Known(es + [e], t)
    ensures LinesOf(es + [e], t) == LinesOf(es, t) + [Line(e.id, e.timestamp, e.group, t[e.line])]
  {
    AddHandle(es, e);
  }

  lemma CountedWithout(es: seq<Entry>, prefix: HashNode, t: map<HashNode, string>, refs: multiset<HashNode>,
                       t': map<HashNode, string>, refs': multiset<HashNode>)
    requires Counted(es, prefix, multiset{}, t, refs) && refs' == refs - multiset{prefix}
    requires t' == if prefix in refs' then t else t - {prefix}
    ensures Counted(es, null, multiset{}, t', refs')
  {
    hide Handles;
    DropFromRight(multiset(Handles(es)), prefix);
    KeysDrop(t, refs, prefix);
  }

  /** Giving up the prefix leaves the lines as they were. */
  lemma DropPrefix(es: seq<Entry>, prefix: HashNode, t: map<HashNode, string>, refs: multiset<HashNode>,
                   t': map<HashNode, string>, refs': multiset<HashNode>)
    requires Counted(es, prefix, multiset{}, t, refs) && Known(es, t)
    requires refs' == refs - multiset{prefix}
    requires t' == if prefix in refs' then t else t - {prefix}
    ensures Counted(es, null, multiset{}, t', refs') && Known(es, t') && LinesOf(es, t') == LinesOf(es, t)
  {
    CountedWithout(es, prefix, t, refs, t', refs');
    CountedKnown(es, null, multiset{}, t', refs');
  }

  /** A reference that is held becomes the prefix. */
  lemma MakePrefix(es: seq<Entry>, hash: HashNode?, t: map<HashNode, string>, refs: multiset<HashNode>)
    requires Counted(es, null, HandlesOf(hash), t, refs)
    ensures Counted(es, hash, multiset{}, t, refs)
  {
  }

  /** Stamping the last entry. */
  lemma StampEntry(es: seq<Entry>, prefix: HashNode?, t: map<HashNode, string>, refs: multiset<HashNode>,
                   timestamp: int, group: nat)
    requires es != [] && Counted(es, prefix, multiset{}, t, refs) && Known(es, t)
    ensures var n := |es| - 1;
            var es', ls := es[n := es[n].(timestamp := timestamp, group := group)], LinesOf(es, t);
            Counted(es', prefix, multiset{}, t, refs) && Known(es', t) &&
            LinesOf(es', t) == ls[n := ls[n].(timestamp := timestamp, group := group)]
  {
    var n := |es| - 1;
    assert Handles(es[n := es[n].(timestamp := timestamp, group := group)]) == Handles(es);
  }

  lemma EmptyRoom(ls: seq<Line>, held: set<string>, text: string)
    ensures ls == [] ==> Texts(ls) + held + {text} == held + {text}
  {
  }

  lemma NothingCounted()
    ensures Counted([], null, multiset{}, map[], multiset{})
    ensures Known([], map[]) && LinesOf([], map[]) == []
  {
  }

  class GlHistory {
    const store: LineStore
    const list: LineList
    var recall: LineNode?
    var idNode: LineNode?
    var prefix: HashNode?
    var seqno: int
    var group: nat
    var nline: int
    var maxLines: int
    var enable: bool
    ghost var view: History   // the plain history that all of this represents

    /** The objects that the store and the list are made of. */
    ghost function Owned(): set<object>
      reads store`buffer, store`texts, list`Repr
    {
      store.Repr() + list.Repr
    }

    ghost predicate Parts()
      reads store, list, Owned()
    {
      && store.Valid() && list.Valid()
      && store.Repr() !! list.Repr && this !in store.Repr() + list.Repr
    }

    /** The parts represent the view; extra are references held by an operation in progress. */
    ghost predicate Tied(extra: multiset<HashNode>)
      reads this, store`texts, store`refs, store`nbuff, list`nodes, list`entries
    {
      && Counted(list.entries, prefix, extra, store.texts, store.refs)
      && Known(list.entries, store.texts) && (prefix != null ==> prefix in store.texts)
      && view.lines == LinesOf(list.entries, store.texts)
      && view.prefix == (if prefix == null then None else Some(store.texts[prefix]))
      && |list.nodes| == |list.entries|
      && (if recall == null then view.recall == None
          else view.recall.Some? && At(list.nodes, view.recall.value) == recall)
      && (idNode != null ==> idNode in list.nodes)
      && view.nextId == seqno && view.group == group && view.maxLines == maxLines
      && view.enable == enable && view.nbuff == store.nbuff && nline == |list.entries|
    }

    ghost predicate IsCopy(hash: HashNode, text: string)
      reads store`texts
    {
      hash in store.texts && store.texts[hash] == text
    }

    ghost predicate Valid()
      reads this, store, list, Owned()
    {
      Parts() && Tied(multiset{}) && WellFormed(view)
    }

    constructor (buflen: nat)
      ensures Valid() && fresh(Owned())
      ensures view == History([], None, None, 0, 0, -1, true, (buflen + SEG_SIZE - 1) / SEG_SIZE)
    {
      hide LineStore.Valid, LineList.Valid, Counted, Known, LinesOf, WellFormed;
      store := new LineStore(buflen);
      list := new LineList();
      recall, idNode, prefix := null, null, null;
      seqno, group, nline, maxLines, enable := 0, 0, 0, -1, true;
      new;
      view := History([], None, None, 0, 0, -1, true, store.nbuff);
      NothingCounted();
      EmptyWellFormed(view);
    }

    /** Take the k'th node out of the list, and take back its reference to its line. */
    method Unlink(node: LineNode, ghost k: nat)
      requires Parts() && k < |list.nodes| && list.nodes[k] == node
      requires |list.entries| == |list.nodes| && list.entries[k].line in store.refs
      modifies Owned(), `idNode
      ensures Parts() && this !in Owned() && Owned() <= old(Owned()) && store.nbuff == old(store.nbuff)
      ensures unchanged(`recall, `prefix, `seqno, `group, `nline, `maxLines, `enable, `view)
      ensures list.nodes == Drop(old(list.nodes), k) && list.entries == Drop(old(list.entries), k)
      ensures idNode == if old(idNode) == node then null else old(idNode)
      ensures idNode != null && idNode in old(list.nodes) ==> idNode in list.nodes
      ensures var h := old(list.entries)[k].line;
              && store.refs == old(store.refs) - multiset{h}
              && store.texts == if h in store.refs then old(store.texts) else old(store.texts) - {h}
    {
      hide LineStore.Valid, LineList.Valid;
      list.Remove(node, k);
      if node == idNode {
        idNode := null;
      }
      assert store.Repr() !! list.Repr && node !in list.Repr;
      store.DiscardCopy(node.line);
      assert list.Valid();
      node.line := null;
    }

    /** Discard the k'th line of the list. */
    method DiscardLine(node: LineNode, ghost k: nat)
      requires Parts() && Tied(multiset{}) && recall == null
      requires k < |list.nodes| && list.nodes[k] == node
      modifies this, Owned()
      ensures Parts() && Tied(multiset{}) && recall == null && prefix == old(prefix)
      ensures Owned() <= old(Owned())
      ensures view == old(view).(lines := Drop(old(view.lines), k))
      ensures list.nodes == Drop(old(list.nodes), k)
      ensures Agree(store.texts, old(store.texts))
    {
      hide LineStore.Valid, LineList.Valid, Parts, Tied, Agree, Drop;
      EntryCounted(k);
      Unlink(node, k);
      nline := nline - 1;
      view := view.(lines := Drop(view.lines, k));
      Discarded(k);
    }

    lemma EntryCounted(k: nat)
      requires Tied(multiset{}) && k < |list.nodes|
      ensures |list.entries| == |list.nodes| == |view.lines| && list.entries[k].line in store.refs
      ensures idNode != null ==> idNode in list.nodes
    {
      hide Counted, Known, LinesOf;
      CountedEntry(list.entries, prefix, store.texts, store.refs, k);
    }

    /** Once a line is out of the list and of the store, the parts represent a history without it. */
    twostate lemma Discarded(k: nat)
      requires old(Tied(multiset{})) && old(recall) == null && k < |old(list.nodes)| == |old(view.lines)|
      requires unchanged(`recall, `prefix, `seqno, `group, `maxLines, `enable, store`nbuff)
      requires nline == old(nline) - 1 && view == old(view).(lines := Drop(old(view.lines), k))
      requires |old(list.entries)| == |old(list.nodes)|
      requires list.nodes == Drop(old(list.nodes), k) && list.entries == Drop(old(list.entries), k)
      requires idNode != null ==> idNode in list.nodes
      requires var h := old(list.entries)[k].line;
               && store.refs == old(store.refs) - multiset{h}
               && store.texts == if h in store.refs then old(store.texts) else old(store.texts) - {h}
      ensures Tied(multiset{}) && Agree(store.texts, old(store.texts))
    {
      hide Counted, Known, LinesOf, Agree, Drop;
      DropEntry(old(list.entries), prefix, old(store.texts), old(store.refs), k, store.texts, store.refs);
    }

    /** Room for a text that is not stored yet is a matter of free segments. */
    lemma Space(text: string)
      requires Parts() && Tied(multiset{}) && text !in store.texts.Values
      ensures Room(view.lines, Held(view.prefix), text, view.nbuff, -1) <==> SegsFor(|text|) <= store.nfree
      ensures view.lines == [] && store.nbusy > 0 ==> view.prefix.Some?
      ensures view.lines != [] ==> store.nbusy > 0
    {
      hide LineStore.Valid, LineList.Valid, Counted, LinesOf, SegsFor;
      store.StoreSizes();
      StoredTexts(list.entries, prefix, store.texts, store.refs);
      var texts := Texts(view.lines) + Held(view.prefix);
      CostAdd(texts, text);
      if view.lines != [] {
        var t := view.lines[0].text;
        CostRemove(texts, t);
        assert SegsFor(|t|) > 0 by { SomeSegs(|t|); }
      }
    }

    /** Discard the oldest lines until a new text fits, or nothing is left to discard. */
    method MakeRoom(nseg: nat, ghost text: string)
      requires Parts() && Tied(multiset{}) && recall == null
      requires nseg == SegsFor(|text|) && text !in store.texts.Values
      requires view.prefix.Some? ==> Cost(Held(view.prefix) + {text}) <= view.nbuff
      modifies this, Owned()
      ensures Parts() && Tied(multiset{}) && recall == null && prefix == old(prefix) && Owned() <= old(Owned())
      ensures view == old(view).(lines := Trim(old(view.lines), Held(view.prefix), text, view.nbuff, -1))
      ensures text !in store.texts.Values
      ensures nseg <= store.nfree <==> Room(view.lines, Held(view.prefix), text, view.nbuff, -1)
    {
      hide LineStore.Valid, LineList.Valid, Counted, Known, LinesOf, SegsFor, Cost, Held, Trim, Owned;
      Space(text);
      while store.nfree < nseg && store.nbusy > 0
        invariant Parts() && Tied(multiset{}) && recall == null && prefix == old(prefix) && Owned() <= old(Owned())
        invariant view == old(view).(lines := view.lines) && text !in store.texts.Values
        invariant Trim(view.lines, Held(view.prefix), text, view.nbuff, -1)
               == Trim(old(view.lines), Held(view.prefix), text, view.nbuff, -1)
        invariant nseg <= store.nfree <==> Room(view.lines, Held(view.prefix), text, view.nbuff, -1)
        invariant view.lines == [] && store.nbusy > 0 ==> view.prefix.Some?
        invariant view.lines != [] ==> store.nbusy > 0
        decreases |view.lines|
      {
        assert view.lines != [] by { EmptyRoom(view.lines, Held(view.prefix), text); }
        list.Ends();
        TrimStep(view.lines, Held(view.prefix), text, view.nbuff, -1);
        DiscardLine(list.head, 0);
        Space(text);
      }
      TrimDone(view.lines, Held(view.prefix), text, view.nbuff, -1);
    }

    /** If a search is in progress, end it: the line being typed leaves the list. */
    method CancelSearch()
      requires Valid()
      modifies this, Owned()
      ensures Valid() && recall == null && prefix == old(prefix) && Owned() <= old(Owned())
      ensures view == Cancel(old(view))
    {
      hide LineStore.Valid, LineList.Valid, Counted, Known, LinesOf, Owned, WellFormed;
      CancelKeeps(view);
      if recall == null {
        return;
      }
      list.Ends();
      recall := null;
      view := view.(recall := None);
      ghost var k := |list.nodes| - 1;
      assert Drop(view.lines, k) == view.lines[..k];
      DiscardLine(list.tail, k);
    }

    method StoreNew(b: nat, line: string, n: nat) returns (hash: HashNode)
      requires Parts() && n <= |line| && NoNul(line[..n]) && b == HashOf(line[..n])
      requires line[..n] !in store.texts.Values && SegsFor(n) <= store.nfree
      modifies store.Repr()
      ensures Parts() && fresh(hash) && Owned() == old(Owned()) + {hash}
      ensures hash !in old(store.texts) && store.texts == old(store.texts)[hash := line[..n]]
      ensures store.refs == old(store.refs) && store.nbuff == old(store.nbuff)
    {
      hide LineStore.Valid, LineList.Valid, SegsFor, NoNul, HashOf;
      hash := store.StoreLine(b, line, n);
    }

    method Refer(hash: HashNode)
      requires Parts() && hash in store.texts
      modifies store.Repr()
      ensures Parts() && Owned() == old(Owned()) && store.refs == old(store.refs) + multiset{hash}
      ensures store.texts == old(store.texts) && store.nbuff == old(store.nbuff)
    {
      hide LineStore.Valid, LineList.Valid;
      store.Retain(hash);
    }

    /** Hand out a reference to a text that is stored already. */
    method Share(hash: HashNode)
      requires Parts() && Tied(multiset{}) && hash in store.texts
      modifies store.Repr()
      ensures Parts() && Tied(multiset{hash}) && unchanged(this) && Owned() == old(Owned())
      ensures IsCopy(hash, old(store.texts)[hash])
    {
      hide LineStore.Valid, LineList.Valid, Counted, Known, LinesOf;
      TakeReference(list.entries, prefix, store.texts, store.refs, hash, store.texts);
      Refer(hash);
    }

    /** Store a text, and hand out a reference to it. */
    method StoreAndShare(b: nat, line: string, n: nat) returns (hash: HashNode)
      requires Parts() && Tied(multiset{}) && n <= |line| && NoNul(line[..n]) && b == HashOf(line[..n])
      requires line[..n] !in store.texts.Values && SegsFor(n) <= store.nfree
      modifies store.Repr()
      ensures Parts() && Tied(multiset{hash}) && unchanged(this) && fresh(Owned() - old(Owned()))
      ensures IsCopy(hash, line[..n])
    {
      hide LineStore.Valid, LineList.Valid, Counted, Known, LinesOf, SegsFor, NoNul, HashOf;
      ghost var t := store.texts;
      hash := StoreNew(b, line, n);
      TakeReference(list.entries, prefix, t, store.refs, hash, store.texts);
      Refer(hash);
    }

    /** Find or store a line, discarding old lines to make room, and hand out a reference to it. */
    method AcquireCopy(line: string, n: nat) returns (hash: HashNode?)
      requires Parts() && Tied(multiset{}) && recall == null && n <= |line| && NoNul(line[..n])
      requires view.prefix.Some? ==> Cost(Held(view.prefix) + {line[..n]}) <= view.nbuff
      modifies this, Owned()
      ensures Parts() && recall == null && prefix == old(prefix) && fresh(Owned() - old(Owned()))
      ensures view == old(view).(lines := Trim(old(view.lines), Held(view.prefix), line[..n], view.nbuff, -1))
      ensures hash != null <==> Room(view.lines, Held(view.prefix), line[..n], view.nbuff, -1)
      ensures Tied(HandlesOf(hash)) && (hash != null ==> IsCopy(hash, line[..n]))
    {
      hide LineStore.Valid, LineList.Valid, Parts, Tied, SegsFor, Cost, Held, Trim, NoNul, HashOf, Room;
      ghost var text := line[..n];
      PartsValid();
      var b := store.FindBucket(line, n);
      hash := store.FindHashNode(b, line, n);
      if hash == null {
        var nseg := SegsFor(n);
        MakeRoom(nseg, text);
        if store.nfree < nseg {
          return null;
        }
        hash := StoreAndShare(b, line, n);
      } else {
        Stored(text);
        TrimDone(view.lines, Held(view.prefix), text, view.nbuff, -1);
        Share(hash);
      }
    }

    lemma PartsValid()
      requires Parts()
      ensures store.Valid() && list.Valid()
    {
    }

    /** A text that is stored already takes no more room. */
    lemma Stored(text: string)
      requires Parts() && Tied(multiset{}) && text in store.texts.Values
      ensures Room(view.lines, Held(view.prefix), text, view.nbuff, -1)
    {
      hide LineStore.Valid, LineList.Valid, Counted, LinesOf, SegsFor;
      store.StoreSizes();
      StoredTexts(list.entries, prefix, store.texts, store.refs);
      CostAdd(store.texts.Values, text);
    }

    method PushNode(node: LineNode, ghost e: Entry)
      requires Parts() && node !in Owned() && node.Records(e)
      modifies list.Repr, node
      ensures Parts() && Owned() == old(Owned()) + {node}
      ensures list.nodes == old(list.nodes) + [node] && list.entries == old(list.entries) + [e]
    {
      hide LineStore.Valid, LineList.Valid;
      list.Append(node, e);
    }

    /** Append a line, for which a reference is held, to the list. */
    method AppendLine(hash: HashNode, now: int, ghost text: string)
      requires Parts() && Tied(HandlesOf(hash)) && recall == null && IsCopy(hash, text)
      modifies this, Owned()
      ensures Parts() && Tied(multiset{}) && recall == null && prefix == old(prefix) && fresh(Owned() - old(Owned()))
      ensures view == old(view).(lines := old(view).lines + [Line(old(view).nextId, now, old(view).group, text)],
                                 nextId := old(view).nextId + 1)
    {
      hide LineStore.Valid, LineList.Valid, Counted, Known, LinesOf;
      ghost var e := Entry(seqno, now, group, hash);
      AppendEntry(list.entries, e, prefix, store.texts, store.refs);
      var lnode := new LineNode(seqno, now, group, hash);
      seqno := seqno + 1;
      PushNode(lnode, e);
      nline := nline + 1;
      view := view.(lines := view.lines + [Line(e.id, now, group, text)], nextId := seqno);
    }

    /** Discard the oldest lines until one more is within the ceiling on their number. */
    method EnforceLimit(ghost text: string)
      requires Parts() && Tied(multiset{}) && recall == null && maxLines != 0
      modifies this, Owned()
      ensures Parts() && Tied(multiset{}) && recall == null && prefix == old(prefix) && Owned() <= old(Owned())
      ensures view == old(view).(lines := view.lines) && Kept(view, text) == Kept(old(view), text)
      ensures maxLines >= 0 ==> |view.lines| < maxLines
    {
      hide LineStore.Valid, LineList.Valid, Counted, Known, LinesOf, Owned, Trim, Texts, Held;
      if maxLines >= 0 {
        while nline > 0 && nline >= maxLines
          invariant Parts() && Tied(multiset{}) && recall == null && prefix == old(prefix) && Owned() <= old(Owned())
          invariant view == old(view).(lines := view.lines) && Kept(view, text) == Kept(old(view), text)
          decreases |view.lines|
        {
          list.Ends();
          TrimStep(view.lines, Held(view.prefix), text, view.nbuff, view.maxLines);
          DiscardLine(list.head, 0);
        }
      }
    }

    /** The length of a line without its newline, and whether it is blank. */
    static method Measure(line: string) returns (slen: nat, empty: bool)
      ensures slen <= |line| && line[..slen] == Chop(line) && (empty <==> IsBlank(Chop(line)))
    {
      slen := 0;
      while slen < |line| && line[slen] != '\n'
        invariant 0 <= slen <= |line| && slen <= |Chop(line)|
      {
        slen := slen + 1;
      }
      empty := true;
      var i := 0;
      while i < slen && empty
        invariant 0 <= i <= slen
        invariant empty <==> IsBlank(line[..i])
      {
        assert line[..i + 1] == line[..i] + [line[i]];
        empty := IsSpace(line[i]);
        i := i + 1;
      }
    }

    /** Append a new line, deleting old lines to make room, if needed. */
    method AddHistory(line: string, force: bool, now: int) returns (error: bool)
      requires Valid() && NoNul(line) && MayAdd(view, line, force)
      modifies this, Owned()
      ensures Valid() && prefix == old(prefix) && fresh(Owned() - old(Owned()))
      ensures (view, !error) == Add(old(view), line, force, now)
    {
      hide LineStore.Valid, LineList.Valid, Parts, Tied, Trim, Texts, Held, Room, WellFormed, NoNul,
           IsBlank, IsSpace, Cost;
      AddKeeps(view, line, force, now);
      Sizes();
      if !enable || store.nbuff == 0 || maxLines == 0 {
        return false;
      }
      CancelSearch();
      var slen, empty := Measure(line);
      if empty && !force {
        return false;
      }
      ChopStorable(line);
      Sizes();
      error := ArchiveLine(line, slen, now);
    }

    /** Append the first slen characters of a line to the list, deleting old lines to make room. */
    method ArchiveLine(line: string, slen: nat, now: int) returns (error: bool)
      requires Parts() && Tied(multiset{}) && recall == null && maxLines != 0 && slen <= |line| && NoNul(line[..slen])
      requires view.prefix.Some? ==> Cost(Held(view.prefix) + {line[..slen]}) <= view.nbuff
      modifies this, Owned()
      ensures Parts() && Tied(multiset{}) && recall == null && prefix == old(prefix) && fresh(Owned() - old(Owned()))
      ensures var h := old(view).(lines := Kept(old(view), line[..slen]));
              error == !HasRoom(h, line[..slen]) &&
              view == if error then h else
                        h.(lines := h.lines + [Line(h.nextId, now, h.group, line[..slen])], nextId := h.nextId + 1)
    {
      hide LineStore.Valid, LineList.Valid, Counted, Known, LinesOf, Trim, Texts, Held, Room, NoNul, Cost;
      ghost var text := line[..slen];
      EnforceLimit(text);
      TrimUnlimited(view.lines, Held(view.prefix), text, view.nbuff, view.maxLines);
      var hash := AcquireCopy(line, slen);
      if hash == null {
        return true;
      }
      AppendLine(hash, now, text);
      return false;
    }

    method LineIs(hash: HashNode, line: string, ghost text: string) returns (same: bool)
      requires Parts() && IsCopy(hash, text)
      ensures same <==> line == text
    {
      hide LineStore.Valid, LineList.Valid;
      store.HeldText(hash);
      assert line[..|line|] == line;
      same := hash.IsLine(store.buffer, line, |line|, store.segs[hash], text);
    }

    method CopyOut(hash: HashNode, line: array<char>, dim: nat, ghost text: string)
      requires Parts() && IsCopy(hash, text) && 0 < dim <= line.Length && line !in Owned()
      modifies line
      ensures Parts()
      ensures NUL in line[..] && CStr(line[..]) == Clip(text, dim)
    {
      hide LineStore.Valid, LineList.Valid, StrLen, Clip;
      store.HeldText(hash);
      hash.ReturnLine(store.buffer, line, dim, store.segs[hash], text);
      TakeCStr(line[..], dim);
    }

    method PrefixMatches(hash: HashNode, ghost text: string) returns (matches: bool)
      requires Parts() && Tied(multiset{}) && IsCopy(hash, text) && WellFormed(view)
      ensures matches <==> (view.prefix.Some? ==> view.prefix.value <= text)
    {
      hide LineStore.Valid, LineList.Valid, Counted, Known, LinesOf, Increasing, Storable, Cost, Texts, Held, IsLiteral;
      store.HeldText(hash);
      if prefix != null {
        store.HeldText(prefix);
      }
      matches := hash.MatchesPrefix(store.buffer, store.segs[hash], text, prefix,
                                    if prefix == null then [] else store.segs[prefix],
                                    if prefix == null then [] else store.texts[prefix]);
    }

    /** What the k'th node and its line have to do with the view. */
    lemma NodeAt(k: nat)
      requires Parts() && Tied(multiset{}) && k < |list.nodes|
      ensures |list.nodes| == |view.lines| && list.nodes[k].line != null
      ensures IsCopy(list.nodes[k].line, view.lines[k].text)
      ensures list.nodes[k].group == view.lines[k].group && list.nodes[k].id == view.lines[k].id
      ensures list.nodes[k].timestamp == view.lines[k].timestamp
      ensures list.nodes[k].next == At(list.nodes, k + 1) && list.nodes[k].prev == At(list.nodes, k - 1)
    {
      hide LineStore.Valid, LineList.Valid, Counted;
      list.Links(k);
    }

    lemma SameLine(m: HashNode, mtext: string, n: HashNode, ntext: string)
      requires Parts() && IsCopy(m, mtext) && IsCopy(n, ntext)
      ensures m == n <==> mtext == ntext
    {
      hide LineStore.Valid, LineList.Valid;
      store.SharedText(m, n);
    }

    /** A stored line is used once for each node of the list that refers to it, and once more if it is the prefix
        that is held; and a line that isn't used isn't stored. */
    lemma UsesCounted(hash: HashNode)
      requires Valid() && hash in store.texts
      ensures hash.used == multiset(Handles(list.entries))[hash] + (if prefix == hash then 1 else 0)
      ensures hash.used > 0
    {
      hide LineStore.Valid, LineList.Valid, WellFormed, Handles;
      store.UsesAre(hash);
    }

    /** Is this a node that a search moves to? */
    method NodeMatches(node: LineNode, oldLine: HashNode, ghost k: nat, ghost last: string) returns (matches: bool)
      requires Valid() && k < |list.nodes| && list.nodes[k] == node && IsCopy(oldLine, last)
      ensures k < |view.lines| && (matches <==> Matches(view, k, last))
    {
      hide LineStore.Valid, LineList.Valid, Counted, Known, LinesOf, WellFormed;
      NodeAt(k);
      if node.group != group {
        return false;
      }
      SameLine(node.line, view.lines[k].text, oldLine, last);
      if node.line == oldLine {
        return false;
      }
      matches := PrefixMatches(node.line, view.lines[k].text);
    }

    /** Search backwards, from the node before the i'th. */
    method SearchBackwards(from: LineNode?, oldLine: HashNode, ghost i: nat, ghost last: string)
      returns (node: LineNode?)
      requires Valid() && i <= |view.lines| && from == At(list.nodes, i - 1) && IsCopy(oldLine, last)
      ensures var j := NearestOlder(view, i, last);
              node == if j.None? then null else At(list.nodes, j.value)
    {
      hide LineStore.Valid, LineList.Valid, Counted, Known, LinesOf, WellFormed, Matches;
      node := from;
      ghost var k := i;
      while node != null
        invariant Valid() && 0 <= k <= |view.lines| && node == At(list.nodes, k - 1)
        invariant NearestOlder(view, k, last) == NearestOlder(view, i, last)
        decreases k
      {
        var matches := NodeMatches(node, oldLine, k - 1, last);
        if matches {
          return;
        }
        NodeAt(k - 1);
        node, k := node.prev, k - 1;
      }
      assert k == 0 by { Sizes(); }
    }

    /** Search forwards, from the i'th node. */
    method SearchForwards(from: LineNode?, oldLine: HashNode, ghost i: nat, ghost last: string)
      returns (node: LineNode?)
      requires Valid() && i <= |view.lines| && from == At(list.nodes, i) && IsCopy(oldLine, last)
      ensures var j := NearestNewer(view, i, last);
              node == if j.None? then null else At(list.nodes, j.value)
    {
      hide LineStore.Valid, LineList.Valid, Counted, Known, LinesOf, WellFormed, Matches;
      node := from;
      ghost var k := i;
      while node != null
        invariant Valid() && k <= |view.lines| && node == At(list.nodes, k)
        invariant NearestNewer(view, k, last) == NearestNewer(view, i, last)
        decreases |view.lines| - k
      {
        var matches := NodeMatches(node, oldLine, k, last);
        if matches {
          return;
        }
        NodeAt(k);
        node, k := node.next, k + 1;
      }
      assert k == |view.lines| by { Sizes(); }
    }

    lemma Sizes()
      requires Tied(multiset{})
      ensures |list.nodes| == |view.lines| && store.nbuff == view.nbuff
      ensures view.enable == enable && view.maxLines == maxLines && view.group == group
      ensures prefix == null <==> view.prefix.None?
      ensures if recall == null then view.recall.None?
              else view.recall.Some? && 0 <= view.recall.value < |view.lines| && list.nodes[view.recall.value] == recall
    {
      hide Counted, Known, LinesOf;
    }

    /** The session in progress, unless it is at its last line and the user has changed that. */
    method DropStaleSession(line: string)
      requires Valid() && NoNul(line)
      modifies this, Owned()
      ensures Valid() && prefix == old(prefix) && Owned() <= old(Owned())
      ensures view == Current(old(view), line)
    {
      hide LineStore.Valid, LineList.Valid, Counted, Known, LinesOf, WellFormed, NoNul, Owned;
      list.Ends();
      Sizes();
      CancelKeeps(view);
      if recall != null && recall == list.tail {
        list.Places(view.recall.value, |list.nodes| - 1);
        NodeAt(|list.nodes| - 1);
        var same := LineIs(recall.line, line, view.lines[|view.lines| - 1].text);
        if !same {
          CancelSearch();
        }
      }
    }

    /** Save the line being typed at the end of the list, and mark it as the last line recalled. */
    method OpenSession(line: string, now: int) returns (error: bool)
      requires Valid() && NoNul(line) && Enabled(view) && recall == null && MayAdd(view, line, true)
      modifies this, Owned()
      ensures Parts() && Tied(multiset{}) && prefix == old(prefix) && fresh(Owned() - old(Owned()))
      ensures (view, !error) == Open(old(view), line, now) && (!error ==> recall != null)
    {
      hide LineStore.Valid, LineList.Valid, Parts, Tied, WellFormed, NoNul, Cost, Held, Texts, Add;
      Sizes();
      AddAppends(view, line, now);
      error := AddHistory(line, true, now);
      if !error {
        MarkLast();
      }
    }

    /** Make the last line of the list the one last recalled, and take back its id. */
    method MarkLast()
      requires Parts() && Tied(multiset{}) && view.lines != []
      modifies `recall, `seqno, `view
      ensures Parts() && Tied(multiset{}) && recall != null
      ensures view == old(view).(recall := Some(|old(view).lines| - 1), nextId := old(view).nextId - 1)
    {
      hide LineStore.Valid, LineList.Valid, Counted, Known, LinesOf;
      list.Ends();
      recall := list.tail;
      seqno := seqno - 1;
      view := view.(recall := Some(|view.lines| - 1), nextId := seqno);
    }

    /** Preserve the line being typed in the list while other lines are recalled. */
    method PrepareForRecall(line: string, now: int) returns (error: bool)
      requires Valid() && NoNul(line) && Enabled(view) && MayRecall(view, line)
      modifies this, Owned()
      ensures Valid() && prefix == old(prefix) && fresh(Owned() - old(Owned()))
      ensures (view, !error) == Prepare(old(view), line, now) && (!error ==> recall != null)
    {
      hide LineStore.Valid, LineList.Valid, Parts, Tied, WellFormed, NoNul, Cost, Held, Texts, Open;
      PrepareKeeps(view, line, now);
      DropStaleSession(line);
      Sizes();
      error := false;
      if recall == null {
        error := OpenSession(line, now);
      }
    }

    /** The C string in a buffer. */
    static method StringIn(line: array<char>) returns (s: string)
      requires NUL in line[..]
      ensures s == CStr(line[..])
    {
      var n := 0;
      while line[n] != NUL
        invariant 0 <= n <= StrLen(line[..])
        decreases StrLen(line[..]) - n
      {
        n := n + 1;
      }
      StrLenUnique(line[..], n);
      s := line[..n];
    }

    /** Make a line the last one recalled, and return its text. */
    method Show(node: LineNode, ghost k: nat, line: array<char>, dim: nat)
      requires Valid() && recall != null && k < |list.nodes| && list.nodes[k] == node
      requires 0 < dim <= line.Length && line !in Owned()
      modifies this, line
      ensures Valid() && Owned() == old(Owned()) && prefix == old(prefix) && recall == node
      ensures view == old(view).(recall := Some(k))
      ensures NUL in line[..] && k < |view.lines| && CStr(line[..]) == Clip(view.lines[k].text, dim)
    {
      hide LineStore.Valid, LineList.Valid, Counted, Known, LinesOf, WellFormed;
      NodeAt(k);
      ReturnedKeeps(view, k, dim);
      recall := node;
      view := view.(recall := Some(k));
      CopyOut(node.line, line, dim, view.lines[k].text);
    }

    /** What a recall operation leaves behind: the new history, and the text in the line buffer. */
    ghost predicate Recalls(outcome: (History, Option<string>), found: bool, line: array<char>, before: seq<char>)
      reads this, line
    {
      && view == outcome.0 && found == outcome.1.Some?
      && (if found then NUL in line[..] && CStr(line[..]) == outcome.1.value else line[..] == before)
    }

    /** Show the nearest match that is older than the line last recalled. */
    method ShowOlder(line: array<char>, dim: nat) returns (found: bool)
      requires Valid() && recall != null && 0 < dim <= line.Length && line !in Owned()
      modifies this, line
      ensures Valid() && Owned() == old(Owned()) && prefix == old(prefix)
      ensures old(view).recall.Some? && old(view).recall.value < |old(view).lines|
      ensures var h, i := old(view), old(view).recall.value;
              var j := NearestOlder(h, i, h.lines[i].text);
              Recalls(if j.None? then (h, None) else Recalled(h, j.value, dim), found, line, old(line[..]))
    {
      hide LineStore.Valid, LineList.Valid, Parts, Tied, WellFormed, NearestOlder, StrLen, Clip;
      Sizes();
      ghost var i, last := view.recall.value, view.lines[view.recall.value].text;
      NodeAt(i);
      var node := SearchBackwards(recall.prev, recall.line, i, last);
      if node == null {
        return false;
      }
      Show(node, NearestOlder(view, i, last).value, line, dim);
      found := true;
    }

    /** Recall the nearest older line that the search is for. */
    method FindBackwards(line: array<char>, dim: nat, now: int) returns (found: bool)
      requires Valid() && NUL in line[..] && dim <= line.Length && line !in Owned()
      requires |CStr(line[..])| < dim ==> MayRecall(view, CStr(line[..]))
      modifies this, Owned(), line
      ensures Valid() && prefix == old(prefix) && fresh(Owned() - old(Owned()))
      ensures Recalls(HistorySpec.FindBackwards(old(view), CStr(old(line[..])), dim, now), found, line, old(line[..]))
    {
      hide LineStore.Valid, LineList.Valid, Parts, Tied, WellFormed, Cost, Held, Texts, Prepare,
        NearestOlder, StrLen, Clip;
      Sizes();
      if !enable || store.nbuff == 0 || maxLines == 0 {
        return false;
      }
      var s := StringIn(line);
      if dim < |s| + 1 {
        return false;
      }
      PrepareOpens(view, s, now);
      var error := PrepareForRecall(s, now);
      if error {
        return false;
      }
      found := ShowOlder(line, dim);
    }

    /** Return to a line; the session ends if that is the line that was being typed. */
    method ReturnTo(node: LineNode, ghost k: nat, line: array<char>, dim: nat)
      requires Valid() && recall != null && k < |list.nodes| && list.nodes[k] == node
      requires 0 < dim <= line.Length && line !in Owned()
      modifies this, Owned(), line
      ensures Valid() && Owned() <= old(Owned()) && prefix == old(prefix)
      ensures NUL in line[..] && k < |old(view).lines| && (view, Some(CStr(line[..]))) == Returned(old(view), k, dim)
    {
      hide LineStore.Valid, LineList.Valid, Counted, Known, LinesOf, WellFormed, StrLen, Clip;
      Show(node, k, line, dim);
      list.Ends();
      Sizes();
      list.Places(k, |list.nodes| - 1);
      if node == list.tail {
        CancelSearch();
      }
    }

    /** Recall the nearest newer line that the search is for. */
    method FindForwards(line: array<char>, dim: nat) returns (found: bool)
      requires Valid() && NUL in line[..] && dim <= line.Length && line !in Owned()
      modifies this, Owned(), line
      ensures Valid() && prefix == old(prefix) && Owned() <= old(Owned())
      ensures Recalls(HistorySpec.FindForwards(old(view), CStr(old(line[..])), dim), found, line, old(line[..]))
    {
      hide LineStore.Valid, LineList.Valid, Parts, Tied, WellFormed, NearestNewer, StrLen, Returned;
      Sizes();
      if !enable || store.nbuff == 0 || maxLines == 0 {
        return false;
      }
      var s := StringIn(line);
      if dim < |s| + 1 || recall == null {
        return false;
      }
      Sizes();
      ghost var i, last := view.recall.value, view.lines[view.recall.value].text;
      NodeAt(i);
      var node := SearchForwards(recall.next, recall.line, i + 1, last);
      if node == null {
        return false;
      }
      ReturnTo(node, NearestNewer(view, i + 1, last).value, line, dim);
      found := true;
    }

    /** The oldest node that belongs to the current group. */
    method FirstOfGroup() returns (node: LineNode?)
      requires Valid()
      ensures var j := OldestOf(view.lines, view.group, 0);
              node == if j.None? then null else At(list.nodes, j.value)
    {
      hide LineStore.Valid, LineList.Valid, Counted, Known, LinesOf, WellFormed;
      list.Ends();
      Sizes();
      node := list.head;
      ghost var k := 0;
      while node != null && node.group != group
        invariant Valid() && 0 <= k <= |view.lines| && node == At(list.nodes, k)
        invariant OldestOf(view.lines, view.group, k) == OldestOf(view.lines, view.group, 0)
        decreases |view.lines| - k
      {
        NodeAt(k);
        node, k := node.next, k + 1;
      }
      if node != null {
        NodeAt(k);
      }
    }

    /** Recall the oldest line. */
    method OldestLine(line: array<char>, dim: nat, now: int) returns (found: bool)
      requires Valid() && NUL in line[..] && dim <= line.Length && line !in Owned()
      requires |CStr(line[..])| < dim ==> MayRecall(view, CStr(line[..]))
      modifies this, Owned(), line
      ensures Valid() && prefix == old(prefix) && fresh(Owned() - old(Owned()))
      ensures Recalls(HistorySpec.OldestLine(old(view), CStr(old(line[..])), dim, now), found, line, old(line[..]))
    {
      hide LineStore.Valid, LineList.Valid, Parts, Tied, WellFormed, Cost, Held, Texts, Prepare, OldestOf,
           StrLen, Returned;
      Sizes();
      if !enable || store.nbuff == 0 || maxLines == 0 {
        return false;
      }
      var s := StringIn(line);
      if dim < |s| + 1 {
        return false;
      }
      var error := PrepareForRecall(s, now);
      if error {
        return false;
      }
      Sizes();
      var node := FirstOfGroup();
      if node == null {
        return false;
      }
      ReturnTo(node, OldestOf(view.lines, view.group, 0).value, line, dim);
      found := true;
    }

    /** Return to the line that was being entered, and end the session. */
    method EndSession(line: array<char>, dim: nat)
      requires Valid() && recall != null && 0 < dim <= line.Length && line !in Owned()
      modifies this, Owned(), line
      ensures Valid() && prefix == old(prefix) && Owned() <= old(Owned())
      ensures old(view).lines != [] && NUL in line[..]
      ensures (view, Some(CStr(line[..]))) == Returned(old(view), |old(view).lines| - 1, dim)
    {
      hide LineStore.Valid, LineList.Valid, Parts, Tied, WellFormed, StrLen, Clip, Cancel, Returned;
      Sizes();
      PartsValid();
      list.Ends();
      ghost var k := |list.nodes| - 1;
      NodeAt(k);
      CopyOut(list.tail.line, line, dim, view.lines[k].text);
      ReturnedLast(view, dim);
      CancelSearch();
    }

    /** Recall the line that was being entered when the session started. */
    method CurrentLine(line: array<char>, dim: nat) returns (found: bool)
      requires Valid() && NUL in line[..] && dim <= line.Length && line !in Owned()
      modifies this, Owned(), line
      ensures Valid() && prefix == old(prefix) && Owned() <= old(Owned())
      ensures Recalls(HistorySpec.CurrentLine(old(view), CStr(old(line[..])), dim), found, line, old(line[..]))
    {
      hide LineStore.Valid, LineList.Valid, Parts, Tied, WellFormed, StrLen, Returned;
      Sizes();
      if !enable || store.nbuff == 0 || maxLines == 0 || recall == null {
        return false;
      }
      var s := StringIn(line);
      if dim < |s| + 1 {
        return false;
      }
      EndSession(line, dim);
      found := true;
    }

    method SeekForwards(from: LineNode, id: int, ghost i: nat) returns (node: LineNode?)
      requires Valid() && i < |list.nodes| && list.nodes[i] == from && from.id < id
      ensures var j := WithId(view.lines, id, 0);
              node == if j.None? then null else At(list.nodes, j.value)
    {
      hide LineStore.Valid, LineList.Valid, Counted, Known, LinesOf, Cost, Storable;
      NodeAt(i);
      WithIdBeyond(view.lines, id, i);
      node := from;
      ghost var k := i;
      while node != null && node.id != id
        invariant Valid() && 0 <= k <= |view.lines| && node == At(list.nodes, k)
        invariant forall j :: 0 <= j < k ==> view.lines[j].id != id
        decreases |view.lines| - k
      {
        NodeAt(k);
        node, k := node.next, k + 1;
      }
      if node != null {
        NodeAt(k);
        WithIdAt(view.lines, id, k);
      }
    }

    method SeekBackwards(from: LineNode, id: int, ghost i: nat) returns (node: LineNode?)
      requires Valid() && i < |list.nodes| && list.nodes[i] == from && from.id >= id
      ensures var j := WithId(view.lines, id, 0);
              node == if j.None? then null else At(list.nodes, j.value)
    {
      hide LineStore.Valid, LineList.Valid, Counted, Known, LinesOf, Cost, Storable;
      NodeAt(i);
      WithIdBeyond(view.lines, id, i);
      node := from;
      ghost var k: int := i;
      while node != null && node.id != id
        invariant Valid() && -1 <= k < |view.lines| && node == At(list.nodes, k)
        invariant forall j :: k < j < |view.lines| ==> view.lines[j].id != id
        decreases k
      {
        NodeAt(k);
        node, k := node.prev, k - 1;
      }
      if node != null {
        NodeAt(k);
        WithIdAt(view.lines, id, k);
      }
    }

    /** Look up a node by its id, starting where the last search for an id ended. */
    method FindId(id: int) returns (node: LineNode?)
      requires Valid()
      modifies `idNode
      ensures Valid()
      ensures var j := WithId(view.lines, id, 0);
              node == if !enable || j.None? then null else At(list.nodes, j.value)
    {
      hide LineStore.Valid, LineList.Valid, Counted, Known, LinesOf, WellFormed;
      list.Ends();
      Sizes();
      if !enable || list.head == null {
        return null;
      }
      node := idNode;
      if node == null {
        node := list.head;
      }
      ghost var i: nat :| i < |list.nodes| && list.nodes[i] == node;
      if node.id < id {
        node := SeekForwards(node, id, i);
        idNode := if node != null then node else list.tail;
      } else {
        node := SeekBackwards(node, id, i);
        idNode := if node != null then node else list.head;
      }
    }

    /** Recall a line by its id. */
    method RecallLine(id: int, line: array<char>, dim: nat, now: int) returns (found: bool)
      requires Valid() && NUL in line[..] && 0 < dim <= line.Length && line !in Owned()
      requires MayRecall(view, CStr(line[..]))
      modifies this, Owned(), line
      ensures Valid() && prefix == old(prefix) && fresh(Owned() - old(Owned()))
      ensures Recalls(HistorySpec.RecallLine(old(view), id, CStr(old(line[..])), dim, now), found, line, old(line[..]))
    {
      hide LineStore.Valid, LineList.Valid, Parts, Tied, WellFormed, Cost, Held, Texts, Prepare,
        WithId, StrLen;
      Sizes();
      if !enable || store.nbuff == 0 || maxLines == 0 {
        return false;
      }
      var s := StringIn(line);
      PrepareOpens(view, s, now);
      var error := PrepareForRecall(s, now);
      if error {
        return false;
      }
      var node := FindId(id);
      Sizes();
      ghost var j := WithId(view.lines, id, 0);
      if j.Some? {
        NodeAt(j.value);
      }
      if node == null || node.group != group {
        return false;
      }
      Show(node, j.value, line, dim);
      found := true;
    }

    method Release(hash: HashNode)
      requires Parts() && hash in store.refs
      modifies store.Repr()
      ensures Parts() && Owned() <= old(Owned()) && store.nbuff == old(store.nbuff)
      ensures store.refs == old(store.refs) - multiset{hash}
      ensures store.texts == if hash in store.refs then old(store.texts) else old(store.texts) - {hash}
    {
      hide LineStore.Valid, LineList.Valid;
      store.DiscardCopy(hash);
    }

    /** Give up the search prefix, if there is one. */
    method DropSearchPrefix()
      requires Valid()
      modifies this, Owned()
      ensures Valid() && prefix == null && recall == old(recall) && Owned() <= old(Owned())
      ensures view == old(view).(prefix := None)
    {
      hide LineStore.Valid, LineList.Valid, Counted, Known, LinesOf, WellFormed, IsLiteral, NoNul;
      NoPrefixKeeps(view);
      if prefix != null {
        assert prefix in store.refs by { CountedPrefix(list.entries, prefix, store.texts, store.refs); }
        ghost var t, refs := store.texts, store.refs;
        Release(prefix);
        DropPrefix(list.entries, prefix, t, refs, store.texts, store.refs);
        prefix := null;
      }
      view := view.(prefix := None);
    }

    /** Store a prefix, making room for it if need be. */
    method HoldPrefix(line: string, prefixLen: nat)
      requires Parts() && Tied(multiset{}) && recall == null && prefix == null
      requires prefixLen <= |line| && NoNul(line[..prefixLen])
      modifies this, Owned()
      ensures Parts() && Tied(multiset{}) && fresh(Owned() - old(Owned()))
      ensures view == Holding(old(view), line[..prefixLen])
    {
      hide LineStore.Valid, LineList.Valid, Parts, Tied, IsLiteral, NoNul, Trim, Room, Cost, Texts;
      Sizes();
      var hash := AcquireCopy(line, prefixLen);
      KeepPrefix(hash, line[..prefixLen]);
    }

    /** Make a line that a reference is held to, if any, the prefix. */
    method KeepPrefix(hash: HashNode?, ghost text: string)
      requires Parts() && Tied(HandlesOf(hash)) && prefix == null && (hash != null ==> IsCopy(hash, text))
      modifies `prefix, `view
      ensures Parts() && Tied(multiset{}) && prefix == hash
      ensures view == old(view).(prefix := if hash == null then None else Some(text))
    {
      hide LineStore.Valid, LineList.Valid, Counted, Known, LinesOf, HandlesOf;
      MakePrefix(list.entries, hash, store.texts, store.refs);
      CountedKnown(list.entries, hash, multiset{}, store.texts, store.refs);
      prefix := hash;
      view := view.(prefix := if hash == null then None else Some(text));
    }

    /** Set the prefix of subsequent history searches. */
    method SearchPrefix(line: string, prefixLen: nat) returns (error: bool)
      requires Valid() && prefixLen <= |line| && NoNul(line[..prefixLen]) && IsLiteral(line[..prefixLen])
      requires prefixLen > 0 ==> recall == null
      modifies this, Owned()
      ensures Valid() && fresh(Owned() - old(Owned()))
      ensures (view, !error) == HistorySpec.SearchPrefix(old(view), line[..prefixLen])
    {
      hide LineStore.Valid, LineList.Valid, Counted, Known, LinesOf, WellFormed, IsLiteral, NoNul, Trim, Room, Holding;
      SearchPrefixKeeps(view, line[..prefixLen]);
      HoldingAfresh(view, line[..prefixLen]);
      if !enable || store.nbuff == 0 || maxLines == 0 {
        return false;
      }
      DropSearchPrefix();
      if prefixLen > 0 {
        HoldPrefix(line, prefixLen);
        error := prefix == null;
      } else {
        error := false;
      }
    }

    /** Switch history groups. */
    method SetGroup(group': nat)
      requires Valid()
      modifies this, Owned()
      ensures Valid() && Owned() <= old(Owned()) && view == HistorySpec.SetGroup(old(view), group')
    {
      hide LineStore.Valid, LineList.Valid, Counted, Known, LinesOf, Cost, Increasing, Storable;
      if group' != group {
        CancelSearch();
        group := group';
        view := view.(group := group');
      }
    }

    /** Temporarily enable or disable the history list. */
    method ToggleHistory(enable': bool)
      requires Valid()
      modifies this
      ensures Valid() && Owned() == old(Owned()) && view == old(view).(enable := enable')
    {
      hide LineStore.Valid, LineList.Valid, Counted, Known, LinesOf, Cost, Increasing, Storable;
      enable := enable';
      view := view.(enable := enable');
    }

    /** Discard the oldest lines, down to the e'th. */
    method DiscardOlder(oldest: LineNode?, ghost e: nat)
      requires Valid() && recall == null && e <= |list.nodes| && oldest == At(list.nodes, e)
      modifies this, Owned()
      ensures Valid() && recall == null && Owned() <= old(Owned())
      ensures |old(view).lines| >= e && view == old(view).(lines := old(view).lines[e..])
    {
      hide LineStore.Valid, LineList.Valid, Counted, Known, LinesOf, WellFormed, Owned;
      Sizes();
      SuffixKeeps(view, e);
      list.Ends();
      ghost var nodes, lines, k := list.nodes, view.lines, 0;
      assert nodes == nodes[0..] && lines == lines[0..];
      while list.head != null && list.head != oldest
        invariant Parts() && Tied(multiset{}) && recall == null && Owned() <= old(Owned())
        invariant 0 <= k <= e && list.nodes == nodes[k..] && list.head == At(list.nodes, 0)
        invariant view == old(view).(lines := lines[k..])
        decreases |nodes| - k
      {
        assert k < e;
        assert Drop(nodes[k..], 0) == nodes[k + 1..] && Drop(lines[k..], 0) == lines[k + 1..];
        DiscardLine(list.head, 0);
        k := k + 1;
        list.Ends();
      }
      assert k == e;
    }

    /** The newest of the lines that exceed a ceiling, if any do. */
    method NewestExcess(max: nat) returns (node: LineNode?)
      requires Valid()
      ensures node == At(list.nodes, |list.nodes| - max - 1)
    {
      hide LineStore.Valid, LineList.Valid, Counted, Known, LinesOf, WellFormed;
      list.Ends();
      var n := 1;
      node := list.tail;
      while node != null && n <= max
        invariant 1 <= n <= max + 1 && n <= |list.nodes| + 1 && node == At(list.nodes, |list.nodes| - n)
      {
        NodeAt(|list.nodes| - n);
        node, n := node.prev, n + 1;
      }
    }

    /** Set a ceiling on the number of lines, or remove it. */
    method LimitHistory(max: int)
      requires Valid() && recall == null
      modifies this, Owned()
      ensures Valid() && Owned() <= old(Owned()) && view == Limit(old(view), max)
    {
      hide LineStore.Valid, LineList.Valid, Parts, Tied, WellFormed;
      Sizes();
      LimitKeeps(view, max);
      assert view.lines == view.lines[0..];
      if max >= 0 && max != maxLines {
        var node := NewestExcess(max);
        if node != null {
          NodeAt(|list.nodes| - max - 1);
          DiscardOlder(node.next, |list.nodes| - max);
        }
      }
      SetCeiling(max);
    }

    method SetCeiling(max: int)
      requires Parts() && Tied(multiset{})
      modifies `maxLines, `view
      ensures Parts() && Tied(multiset{}) && view == old(view).(maxLines := max)
    {
      hide LineStore.Valid, LineList.Valid, Counted, Known, LinesOf;
      maxLines := max;
      view := view.(maxLines := max);
    }

    /** Empty the list and the store. */
    method ForgetAll()
      requires Valid() && recall == null && prefix == null
      modifies this, Owned()
      ensures Valid() && recall == null && prefix == null && Owned() <= old(Owned())
      ensures store.texts == map[] && view == old(view).(lines := [])
    {
      hide LineStore.Valid, LineList.Valid, Parts, Counted, Known, LinesOf, WellFormed;
      ClearKeeps(view, true);
      EmptyWellFormed(view.(lines := []));
      EmptyParts();
      nline, idNode := 0, null;
      NothingCounted();
      view := view.(lines := []);
    }

    method EmptyParts()
      requires Parts()
      modifies Owned()
      ensures Parts() && this !in Owned() && Owned() <= old(Owned()) && unchanged(this)
      ensures list.nodes == [] && list.entries == [] && store.texts == map[] && store.refs == multiset{}
      ensures store.nbuff == old(store.nbuff)
    {
      hide LineStore.Valid, LineList.Valid;
      list.Ends();
      list.Reset();
      store.Clear();
    }

    /** Discard the lines of the current group. */
    method ForgetGroup()
      requires Valid() && recall == null
      modifies this, Owned()
      ensures Parts() && Tied(multiset{}) && recall == null && prefix == old(prefix) && Owned() <= old(Owned())
      ensures view == old(view).(lines := Others(old(view).lines, old(view).group))
    {
      hide LineStore.Valid, LineList.Valid, Counted, Known, LinesOf, WellFormed, Owned, Drop;
      Sizes();
      list.Ends();
      var node := list.head;
      ghost var lines, m := view.lines, 0;   // the lines before the m'th have been dealt with
      ghost var done: seq<Line> := [];
      assert lines == done + lines[0..] && Others(lines, group) == done + Others(lines[0..], group);
      while node != null
        invariant Parts() && Tied(multiset{}) && recall == null && prefix == old(prefix) && Owned() <= old(Owned())
        invariant 0 <= m <= |lines| && view == old(view).(lines := done + lines[m..])
        invariant node == At(list.nodes, |done|)
        invariant Others(lines, group) == done + Others(lines[m..], group)
        decreases |lines| - m
      {
        ghost var k := |done|;
        Sizes();
        NodeAt(k);
        OthersStep(lines, group, done, m);
        AtDrop(list.nodes, k);
        var next := node.next;
        if node.group == group {
          DiscardLine(node, k);
        } else {
          done := done + [lines[m]];
        }
        node, m := next, m + 1;
      }
      Sizes();
      assert m == |lines|;
    }

    /** Discard all of the lines, or those of the current group. */
    method ClearHistory(allGroups: bool)
      requires Valid() && (allGroups ==> prefix == null)
      modifies this, Owned()
      ensures Valid() && recall == null && prefix == old(prefix) && Owned() <= old(Owned())
      ensures (allGroups ==> store.texts == map[]) && view == Clear(old(view), allGroups)
    {
      hide LineStore.Valid, LineList.Valid, Counted, Known, LinesOf, WellFormed, Owned;
      ClearKeeps(view, allGroups);
      CancelSearch();
      if allGroups {
        ForgetAll();
      } else {
        ForgetGroup();
      }
    }

    /** The segments in use are those that the lines and the prefix need. */
    lemma Usage()
      requires Parts() && Tied(multiset{})
      ensures store.nbusy == Cost(Texts(view.lines) + Held(view.prefix)) && 0 <= store.nbusy <= view.nbuff
      ensures store.nbusy == 0 <==> store.texts == map[]
      ensures view.lines == [] ==> Texts(view.lines) + Held(view.prefix) == Held(view.prefix)
    {
      hide LineStore.Valid, LineList.Valid, Counted, LinesOf;
      store.StoreSizes();
      StoredTexts(list.entries, prefix, store.texts, store.refs);
      CostPositive(store.texts.Values);
      if n :| n in store.texts {
        assert store.texts[n] in store.texts.Values;
      }
    }

    /** Discard the oldest lines until those left need no more than nbuff' segments. */
    method ShrinkTo(nbuff': nat)
      requires Parts() && Tied(multiset{}) && recall == null && Cost(Held(view.prefix)) <= nbuff'
      modifies this, Owned()
      ensures Parts() && Tied(multiset{}) && recall == null && prefix == old(prefix) && Owned() <= old(Owned())
      ensures view == old(view).(lines := Shrink(old(view).lines, Held(view.prefix), nbuff'))
      ensures store.nbusy <= nbuff'
    {
      hide LineStore.Valid, LineList.Valid, Counted, Known, LinesOf, Owned, Texts, Held, Cost, Shrink;
      Usage();
      list.Ends();
      while list.head != null && store.nbusy > nbuff'
        invariant Parts() && Tied(multiset{}) && recall == null && prefix == old(prefix) && Owned() <= old(Owned())
        invariant view == old(view).(lines := view.lines) && list.head == At(list.nodes, 0)
        invariant store.nbusy == Cost(Texts(view.lines) + Held(view.prefix))
        invariant view.lines == [] ==> store.nbusy <= nbuff'
        invariant Shrink(view.lines, Held(view.prefix), nbuff') == Shrink(old(view).lines, Held(view.prefix), nbuff')
        decreases |view.lines|
      {
        ShrinkStep(view.lines, Held(view.prefix), nbuff');
        DiscardLine(list.head, 0);
        Usage();
        list.Ends();
      }
      Sizes();
      ShrinkStep(view.lines, Held(view.prefix), nbuff');
    }

    method NewBuffer(nbuff': nat)
      requires Parts() && Tied(multiset{}) && store.texts == map[]
      modifies store.Repr(), `view
      ensures Parts() && Tied(multiset{}) && fresh(Owned() - old(Owned()))
      ensures view == old(view).(nbuff := nbuff')
    {
      hide LineStore.Valid, LineList.Valid, Counted, Known, LinesOf;
      store.Reallocate(nbuff');
      assert Parts();
      view := view.(nbuff := nbuff');
    }

    method CompactBuffer(nbuff': nat)
      requires Parts() && Tied(multiset{}) && store.nbusy <= nbuff' && 0 < nbuff'
      modifies store.Repr(), `view
      ensures Parts() && Tied(multiset{}) && fresh(Owned() - old(Owned()))
      ensures view == old(view).(nbuff := nbuff')
    {
      hide LineStore.Valid, LineList.Valid, Counted, Known, LinesOf;
      store.Resize(nbuff');
      assert Parts();
      view := view.(nbuff := nbuff');
    }

    /** Change the size of the buffer to nbuff' segments, once there are other than that. */
    method ChangeBuffer(nbuff': nat)
      requires Valid() && recall == null && Cost(Held(view.prefix)) <= nbuff'
      modifies this, Owned()
      ensures Parts() && Tied(multiset{}) && fresh(Owned() - old(Owned()))
      ensures view == Resized(old(view), nbuff')
    {
      hide LineStore.Valid, LineList.Valid, Parts, Tied, WellFormed, Cost, Shrink;
      Sizes();
      Usage();
      CostPositive(Held(view.prefix));
      if store.nbuff == 0 {
        EmptyBuffer(view);
        NewBuffer(nbuff');
      } else if nbuff' == 0 {
        ClearHistory(true);
        NewBuffer(0);
      } else {
        ShrinkTo(nbuff');
        CompactBuffer(nbuff');
      }
    }

    /** Change the size of the history buffer. */
    method ResizeHistory(bufsize: nat)
      requires Valid() && Cost(Held(view.prefix)) <= (bufsize + SEG_SIZE - 1) / SEG_SIZE
      modifies this, Owned()
      ensures Valid() && fresh(Owned() - old(Owned())) && view == HistorySpec.Resize(old(view), bufsize)
    {
      hide LineStore.Valid, LineList.Valid, Counted, Known, LinesOf, WellFormed, Cost, Resized, Held;
      ResizeKeeps(view, bufsize);
      CancelKeeps(view);
      var nbuff' := (bufsize + SEG_SIZE - 1) / SEG_SIZE;
      if store.nbuff != nbuff' {
        CancelSearch();
        ChangeBuffer(nbuff');
      }
    }

    method WriteOut(hash: HashNode, ghost text: string) returns (out: string)
      requires Parts() && IsCopy(hash, text)
      ensures out == text
    {
      hide LineStore.Valid, LineList.Valid;
      store.HeldText(hash);
      out := hash.Spell(store.buffer, store.segs[hash], text);
    }

    /** The oldest of the lines to be saved. */
    method FirstSaved(max: int) returns (node: LineNode?)
      requires Valid()
      ensures node == At(list.nodes, |list.nodes| - |Saved(view.lines, max)|) && |list.nodes| == |view.lines|
    {
      hide LineStore.Valid, LineList.Valid, Counted, Known, LinesOf, WellFormed;
      list.Ends();
      Sizes();
      node := null;
      if max >= 0 {
        node := list.tail;
        var n := max - 1;
        ghost var k := 1;
        while node != null && n > 0
          invariant 1 <= k <= |list.nodes| + 1 && node == At(list.nodes, |list.nodes| - k) && n == max - k
          invariant (k == 1 || n >= 0)
          decreases n
        {
          NodeAt(|list.nodes| - k);
          node, n, k := node.prev, n - 1, k + 1;
        }
      }
      if node == null {
        node := list.head;
      }
    }

    /** Render the newest lines, as many as max unless that is negative, as a history file. */
    method SaveHistory(comment: string, max: int, stamp: int -> string) returns (file: string)
      requires Valid()
      ensures file == FileOf(Saved(view.lines, max), comment, stamp)
    {
      hide LineStore.Valid, LineList.Valid, Counted, Known, LinesOf, WellFormed, FileOf;
      var node := FirstSaved(max);
      ghost var ls := Saved(view.lines, max);
      ghost var from, k, whole := |view.lines| - |ls|, 0, FileOf(ls, comment, stamp);
      assert ls == view.lines[from..] && ls[0..] == ls;
      file := "";
      assert file + FileOf(ls[0..], comment, stamp) == whole;
      while node != null
        invariant 0 <= k <= |ls| && node == At(list.nodes, from + k)
        invariant whole == file + FileOf(ls[k..], comment, stamp)
        decreases |ls| - k
      {
        NodeAt(from + k);
        FileOfNext(ls, k, comment, stamp, file, whole);
        file := file + (comment + " " + stamp(node.timestamp) + " " + Decimal(node.group)) + "\n";
        var text := WriteOut(node.line, ls[k].text);
        file := file + text + "\n";
        node, k := node.next, k + 1;
      }
      FileOfNone(ls, comment, stamp);
      assert k == |ls|;
    }

    /** Stamp the newest line. */
    method StampNewest(timestamp: int, group': nat)
      requires Valid() && recall == null
      modifies this, Owned()
      ensures Valid() && recall == null && prefix == old(prefix) && Owned() == old(Owned())
      ensures view == Stamped(old(view), timestamp, group') && view.recall.None?
    {
      hide LineStore.Valid, LineList.Valid, Counted, Known, LinesOf, WellFormed;
      StampedKeeps(view, timestamp, group');
      if view.lines != [] {
        StampEntry(list.entries, prefix, store.texts, store.refs, timestamp, group');
      }
      list.StampTail(timestamp, group');
      view := Stamped(view, timestamp, group');
    }

    /** Read history lines back from a file. */
    method LoadHistory(file: string, comment: string, dim: nat, now: int, decode: string -> Option<int>)
      returns (error: bool)
      requires Valid() && prefix == null && dim >= 2 && NoNul(file)
      modifies this, Owned()
      ensures Valid() && fresh(Owned() - old(Owned()))
      ensures (view, !error) == Load(Clear(old(view), true), file, comment, dim, now, decode)
    {
      hide LineStore.Valid, LineList.Valid, Parts, Tied, WellFormed, Add, Stamped, ParseParams, ReadLine;
      Sizes();
      ClearHistory(true);
      Sizes();
      var rest := file;
      while rest != ""
        invariant Valid() && view.recall.None? && prefix == null && fresh(Owned() - old(Owned())) && NoNul(rest)
        invariant Load(view, rest, comment, dim, now, decode)
              == Load(Clear(old(view), true), file, comment, dim, now, decode)
        decreases |rest|
      {
        var (param, rest1) := ReadLine(rest, dim);
        var p := ParseParams(param, comment, decode);
        if p.None? || rest1 == "" {
          return true;
        }
        var (line, rest2) := ReadLine(rest1, dim);
        assert NoNul(line) && NoNul(rest2) by { PartsNoNul(param, rest1, line, rest2); }
        Sizes();
        AddCloses(view, line, true, now);
        error := AddHistory(line, true, now);
        if error {
          return;
        }
        Sizes();
        StampNewest(p.value.0, p.value.1);
        rest := rest2;
      }
      error := false;
    }

    static lemma PartsNoNul(a: string, b: string, c: string, d: string)
      requires NoNul(a + b) && b == c + d
      ensures NoNul(c) && NoNul(d)
    {
      assert forall i :: 0 <= i < |b| ==> b[i] == (a + b)[|a| + i];
      assert forall i :: 0 <= i < |c| ==> c[i] == b[i];
      assert forall i :: 0 <= i < |d| ==> d[i] == b[|c| + i];
    }
  }
}
