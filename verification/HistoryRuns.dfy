/** What holds of the history over whole runs of operations, and of operations that follow one another. */
module HistoryRuns {
  import opened CStrings
  import opened Segments
  import opened HistoryFile
  import opened HistorySpec
  import opened RecallSession

  datatype HistoryOp =
    | AddLine(line: string, force: bool, now: int)
    | Recall(line: string, dim: nat, op: RecallOp)
    | ReturnToCurrent(line: string, dim: nat)
    | SearchFor(prefix: string)
    | LimitLines(max: int)
    | ClearLines(all: bool)
    | ChooseGroup(group: nat)
    | Toggle(enable: bool)
    | ChangeSize(bufsize: nat)
    | LoadFile(file: string, comment: string, dim: nat, now: int, decode: string -> Option<int>)

  /** What the callers of an operation see to. */
  ghost predicate Allowed(h: History, op: HistoryOp) {
    match op
    case AddLine(line, force, _) => NoNul(line) && MayAdd(h, line, force)
    case Recall(line, dim, r) => NoNul(line) && dim > 0 && Permitted(h, line, dim, r)
    case SearchFor(prefix) => NoNul(prefix) && IsLiteral(prefix) && (prefix != [] ==> h.recall.None?)
    case LimitLines(_) => h.recall.None?
    case ClearLines(all) => all ==> h.prefix.None?
    case ChangeSize(bufsize) => Cost(Held(h.prefix)) <= (bufsize + SEG_SIZE - 1) / SEG_SIZE
    case LoadFile(file, _, dim, _, _) => NoNul(file) && dim >= 2 && h.prefix.None?
    case _ => true
  }

  ghost function Step(h: History, op: HistoryOp): History
    requires WellFormed(h) && Allowed(h, op)
  {
    match op
    case AddLine(line, force, now) => Add(h, line, force, now).0
    case Recall(line, dim, r) => Outcome(h, line, dim, r).0
    case ReturnToCurrent(line, dim) => CurrentLine(h, line, dim).0
    case SearchFor(prefix) => SearchPrefix(h, prefix).0
    case LimitLines(max) => Limit(h, max)
    case ClearLines(all) => Clear(h, all)
    case ChooseGroup(group) => SetGroup(h, group)
    case Toggle(enable) => h.(enable := enable)
    case ChangeSize(bufsize) => Resize(h, bufsize)
    case LoadFile(file, comment, dim, now, decode) => Load(Clear(h, true), file, comment, dim, now, decode).0
  }

  /** Loading a file keeps the invariant, however much of it can be read. */
  lemma {:induction false} LoadKeeps(h: History, file: string, comment: string, dim: nat, now: int,
                                     decode: string -> Option<int>)
    requires WellFormed(h) && h.recall.None? && NoNul(file) && dim >= 2
    ensures WellFormed(Load(h, file, comment, dim, now, decode).0)
    decreases |file|
  {
    hide WellFormed, Add, ParseParams, Stamped;
    if file != [] {
      var (param, rest) := ReadLine(file, dim);
      var p := ParseParams(param, comment, decode);
      PartsNoNul(file, param, rest);
      if p.Some? && rest != [] {
        var (line, rest') := ReadLine(rest, dim);
        PartsNoNul(rest, line, rest');
        AddKeeps(h, line, true, now);
        AddCloses(h, line, true, now);
        var (h1, ok) := Add(h, line, true, now);
        if ok {
          StampedKeeps(h1, p.value.0, p.value.1);
          StampedCloses(h1, p.value.0, p.value.1);
          LoadKeeps(Stamped(h1, p.value.0, p.value.1), rest', comment, dim, now, decode);
        }
      }
    }
  }

  lemma StampedCloses(h: History, timestamp: int, group: nat)
    ensures Stamped(h, timestamp, group).recall == h.recall
  {
  }

  lemma PartsNoNul(s: string, a: string, b: string)
    requires NoNul(s) && s == a + b
    ensures NoNul(a) && NoNul(b)
  {
    assert forall i :: 0 <= i < |a| ==> a[i] == s[i];
    assert forall i :: 0 <= i < |b| ==> b[i] == s[|a| + i];
  }

  lemma CurrentLineKeeps(h: History, line: string, dim: nat)
    requires WellFormed(h)
    ensures WellFormed(CurrentLine(h, line, dim).0)
  {
    hide Returned, Recalled;
    if h.recall.Some? && Enabled(h) && |line| < dim {
      MoveKeeps(h, |h.lines| - 1, dim);
    }
  }

  lemma GroupKeeps(h: History, group: nat)
    requires WellFormed(h)
    ensures h.recall.Some? ==> h.lines != []
    ensures WellFormed(SetGroup(h, group))
  {
    hide Cost, Increasing, Storable;
    CancelKeeps(h);
  }

  lemma ToggleKeeps(h: History, enable: bool)
    requires WellFormed(h)
    ensures WellFormed(h.(enable := enable))
  {
    hide Cost, Increasing, Storable;
  }

  lemma StepKeeps(h: History, op: HistoryOp)
    requires WellFormed(h) && Allowed(h, op)
    ensures WellFormed(Step(h, op))
  {
    hide WellFormed, Outcome, Add, SearchPrefix, Limit, Resize, CurrentLine, SetGroup, Cost, Load, Others, Permitted;
    CancelKeeps(h);
    match op
    case AddLine(line, force, now) => AddKeeps(h, line, force, now);
    case Recall(line, dim, r) => OutcomeKeeps(h, line, dim, r);
    case ReturnToCurrent(line, dim) => CurrentLineKeeps(h, line, dim);
    case SearchFor(prefix) => SearchPrefixKeeps(h, prefix);
    case LimitLines(max) => LimitKeeps(h, max);
    case ClearLines(all) => ClearKeeps(h, all);
    case ChooseGroup(group) => GroupKeeps(h, group);
    case Toggle(enable) => ToggleKeeps(h, enable);
    case ChangeSize(bufsize) => ResizeKeeps(h, bufsize);
    case LoadFile(file, comment, dim, now, decode) =>
      ClearKeeps(h, true);
      LoadKeeps(Clear(h, true), file, comment, dim, now, decode);
  }

  /** Every history that a run of allowed operations can lead to. */
  ghost predicate Reachable(h0: History, ops: seq<HistoryOp>, h: History)
    decreases |ops|
  {
    if ops == [] then h == h0
    else WellFormed(h0) && Allowed(h0, ops[0]) && Reachable(Step(h0, ops[0]), ops[1..], h)
  }

  /** From a new history on, the ids of the lines increase, the segments and the lines are within their limits, and an
      open session has its line at the end of the list: whatever is done. */
  lemma {:induction false} RunKeeps(h0: History, ops: seq<HistoryOp>, h: History)
    requires WellFormed(h0) && Reachable(h0, ops, h)
    ensures WellFormed(h)
    decreases |ops|
  {
    hide WellFormed, Allowed, Step;
    if ops != [] {
      StepKeeps(h0, ops[0]);
      RunKeeps(Step(h0, ops[0]), ops[1..], h);
    }
  }

  lemma NewHistory(nbuff: nat)
    ensures WellFormed(History([], None, None, 0, 0, -1, true, nbuff))
  {
    EmptyWellFormed(History([], None, None, 0, 0, -1, true, nbuff));
  }

  // ---- What is discarded ----

  /** Adding a line, which ends any session, keeps the longest suffix of the list that leaves room for it, each line as
      it was. */
  lemma AddKeepsLongest(h: History, line: string, force: bool, now: int) returns (k: nat)
    requires WellFormed(h) && Enabled(h) && (force || !IsBlank(Chop(line)))
    ensures h.recall.Some? ==> h.lines != []
    ensures var h0, (h1, ok) := Cancel(h), Add(h, line, force, now);
            && k <= |h0.lines|
            && (forall j :: 0 <= j < k ==> !HasRoom(h0.(lines := h0.lines[j..]), Chop(line)))
            && (ok <==> HasRoom(h0.(lines := h0.lines[k..]), Chop(line)))
            && (!ok ==> h1 == h0.(lines := []))
            && (ok ==> h1 == h0.(lines := h0.lines[k..] + [Line(h.nextId, now, h.group, Chop(line))],
                                 nextId := h.nextId + 1))
  {
    hide Room, WellFormed, IsBlank;
    CancelKeeps(h);
    var h0 := Cancel(h);
    k := TrimIsSuffix(h0.lines, Held(h.prefix), Chop(line), h.nbuff, h.maxLines);
    assert h0.lines[|h0.lines|..] == [];
  }

  /** A refused line costs all of the others: a line that is to be stored either is, or leaves the history as it was,
      exactly when it fits in the buffer beside the prefix, or there were no lines. */
  lemma RefusalIsHarmless(h: History, line: string, force: bool, now: int)
    requires WellFormed(h) && Enabled(h) && (force || !IsBlank(Chop(line)))
    ensures h.recall.Some? ==> h.lines != []
    ensures var (h1, ok) := Add(h, line, force, now);
            ok || h1 == Cancel(h) <==> FitsBeside(h, line) || Cancel(h).lines == []
  {
    hide WellFormed, IsBlank, Cost, Add;
    AddSucceeds(h, line, force, now);
  }

  /** A line of two segments, in a history of one, discards the line that is there. */
  lemma RefusalEmpties(now: int)
    ensures var h := History([Line(0, now, 0, "a")], None, None, 1, 0, -1, true, 1);
            WellFormed(h) && Add(h, "bbbbbbbbbbbbbbbb", true, now) == (h.(lines := []), false)
  {
    hide Cost, IsBlank, Add;
    var h, line := History([Line(0, now, 0, "a")], None, None, 1, 0, -1, true, 1), "bbbbbbbbbbbbbbbb";
    OneSegmentEach();
    assert Texts(h.lines) + Held(None) == {"a"};
    AddSucceeds(h, line, true, now);
    ChopIdempotent(line);
    CostAdd({}, line);
    assert Held(None) + {line} == {} + {line};
  }

  /** Changing the size keeps the longest suffix that fits, each line as it was, which is nothing if either size is
      zero; a size that needs as many segments changes nothing, and any other ends the session. */
  lemma ResizeKeepsLongest(h: History, bufsize: nat) returns (k: nat)
    requires WellFormed(h)
    requires Cost(Held(h.prefix)) <= (bufsize + SEG_SIZE - 1) / SEG_SIZE
    ensures h.recall.Some? ==> h.lines != []
    ensures var nbuff, h1 := (bufsize + SEG_SIZE - 1) / SEG_SIZE, Resize(h, bufsize);
            if nbuff == h.nbuff then h1 == h
            else
              var h0 := Cancel(h);
              && k <= |h0.lines| && h1 == h0.(lines := h0.lines[k..], nbuff := nbuff)
              && Cost(Texts(h1.lines) + Held(h.prefix)) <= nbuff
              && (forall j :: 0 <= j < k ==> Cost(Texts(h0.lines[j..]) + Held(h.prefix)) > nbuff)
  {
    hide WellFormed, Shrink;
    CancelKeeps(h);
    SizeZero(h, bufsize);
    var nbuff, h0 := (bufsize + SEG_SIZE - 1) / SEG_SIZE, Cancel(h);
    assert Texts([]) + Held(h.prefix) == Held(h.prefix) && h0.lines[|h0.lines|..] == [];
    k := ShrinkIsSuffix(h0.lines, Held(h.prefix), nbuff);
  }

  /** Nothing is kept without a buffer. */
  lemma SizeZero(h: History, bufsize: nat)
    requires WellFormed(h)
    ensures h.recall.Some? ==> h.lines != []
    ensures h.nbuff == 0 ==> Cancel(h).lines == []
    ensures bufsize == 0 ==> forall ls: seq<Line> :: Cost(Texts(ls) + Held(h.prefix)) <= 0 ==> ls == []
  {
    hide Cost;
    CancelKeeps(h);
    if h.nbuff == 0 {
      EmptyBuffer(h);
    }
    forall ls: seq<Line> | Cost(Texts(ls) + Held(h.prefix)) <= 0 ensures ls == [] {
      CostPositive(Texts(ls) + Held(h.prefix));
      assert ls != [] ==> ls[0].text in Texts(ls) + Held(h.prefix);
    }
  }

  /** A limit keeps the newest lines, as many as it allows; a negative one keeps all. */
  lemma LimitKeepsNewest(h: History, max: int)
    requires WellFormed(h) && h.recall.None?
    ensures var h1 := Limit(h, max);
            && |h1.lines| == (if max < 0 || |h.lines| < max then |h.lines| else max)
            && h1 == h.(lines := h.lines[|h.lines| - |h1.lines|..], maxLines := max)
  {
    hide Increasing, Storable, Cost;
  }

  /** Another group ends the session, and is that of the lines to come; the same group changes nothing. */
  lemma GroupChosen(h: History, group: nat)
    requires WellFormed(h)
    ensures h.recall.Some? ==> h.lines != []
    ensures SetGroup(h, group) ==
            if group == h.group then h
            else h.(group := group, recall := None,
                    lines := if h.recall.Some? then h.lines[..|h.lines| - 1] else h.lines)
  {
    hide WellFormed;
    CancelKeeps(h);
  }

  /** Clearing ends the session; of the lines before it none are left, or exactly those of the other groups, which the
      ids keep in their order. */
  lemma ClearLeaves(h: History, all: bool)
    requires WellFormed(h)
    ensures h.recall.Some? ==> h.lines != []
    ensures var others, h1 := if h.recall.Some? then h.lines[..|h.lines| - 1] else h.lines, Clear(h, all);
            && h1 == h.(recall := None, lines := h1.lines) && (all ==> h1.lines == [])
            && (!all ==> Increasing(h1.lines) && forall l :: l in h1.lines <==> l in others && l.group != h.group)
  {
    hide Storable, Cost, Others;
    CancelKeeps(h);
    OthersKeep(Cancel(h).lines, h.group);
  }

  /** A prefix takes the place of any other if it fits in the buffer, once all but the longest suffix of the lines
      that leaves room for it have gone; if it doesn't, no prefix is held, and all of the lines have gone. An empty
      prefix only lets go of the other. */
  lemma PrefixTaken(h: History, prefix: string) returns (k: nat)
    requires WellFormed(h)
    ensures !h.enable || h.nbuff == 0 || h.maxLines == 0 ==> SearchPrefix(h, prefix) == (h, true)
    ensures Enabled(h) && prefix == [] ==> SearchPrefix(h, prefix) == (h.(prefix := None), true)
    ensures Enabled(h) && prefix != [] ==>
              var (h1, ok) := SearchPrefix(h, prefix);
              && (ok <==> Cost({prefix}) <= h.nbuff)
              && k <= |h.lines| && h1 == h.(lines := h.lines[k..], prefix := if ok then Some(prefix) else None)
              && (forall j :: 0 <= j < k ==> Cost(Texts(h.lines[j..]) + {prefix}) > h.nbuff)
              && (if ok then Cost(Texts(h.lines[k..]) + {prefix}) <= h.nbuff else k == |h.lines|)
  {
    hide WellFormed, Cost, Trim;
    k := TrimIsSuffix(h.lines, {}, prefix, h.nbuff, -1);
    assert forall ls :: Texts(ls) + {} + {prefix} == Texts(ls) + {prefix};
    CostMonotone({prefix}, Texts(h.lines[k..]) + {prefix});
    assert h.lines[|h.lines|..] == [] && Texts([]) + {prefix} == {prefix};
  }

  /** Unless that is forced, a line isn't added if there is nothing but spaces, tabs, newlines, vertical tabs, form
      feeds and carriage returns before its first newline; any other line is added just as if it were. */
  lemma OnlyBlankIgnored(h: History, line: string, force: bool, now: int)
    requires WellFormed(h)
    ensures h.recall.Some? ==> h.lines != []
    ensures !h.enable || h.nbuff == 0 || h.maxLines == 0 ==> Add(h, line, force, now) == (h, true)
    ensures Enabled(h) ==>
              Add(h, line, false, now)
                == if forall c :: c in Chop(line) ==> c in {' ', '\t', '\n', '\U{0B}', '\U{0C}', '\r'} then
                     (h.(recall := None, lines := if h.recall.Some? then h.lines[..|h.lines| - 1] else h.lines), true)
                   else Add(h, line, true, now)
  {
    hide WellFormed, Add, IsBlank;
    CancelKeeps(h);
    BlankChars(Chop(line));
    AddUnforced(h, line, force, now);
  }

  lemma AddUnforced(h: History, line: string, force: bool, now: int)
    requires h.recall.Some? ==> h.lines != []
    ensures !Enabled(h) ==> Add(h, line, force, now) == (h, true)
    ensures Enabled(h) ==> Add(h, line, false, now) == if IsBlank(Chop(line)) then (Cancel(h), true)
                                                       else Add(h, line, true, now)
  {
    hide Trim, Room, IsBlank;
  }

  lemma BlankChars(s: string)
    ensures IsBlank(s) <==> forall c :: c in s ==> c in {' ', '\t', '\n', '\U{0B}', '\U{0C}', '\r'}
  {
    forall c: char ensures IsSpace(c) <==> c in {' ', '\t', '\n', '\U{0B}', '\U{0C}', '\r'} {
      if IsSpace(c) && c != ' ' {
        assert c as int - '\t' as int in {0, 1, 2, 3, 4};
      }
    }
    hide IsSpace;
    assert forall i :: 0 <= i < |s| ==> s[i] in s;
  }

  // ---- Searching back and forth ----

  /** Is line i one that a search could move to, when it comes from a different text? */
  predicate InScope(h: History, i: nat)
    requires i < |h.lines|
  {
    h.lines[i].group == h.group && (h.prefix.Some? ==> h.prefix.value <= h.lines[i].text)
  }

  /** The nearest match forward from where a search backward ended has the text that the search started from. */
  lemma NearestBack(h: History, i: nat)
    requires i < |h.lines| && InScope(h, i)
    ensures var j := NearestOlder(h, i, h.lines[i].text);
            j.Some? ==> var k := NearestNewer(h, j.value + 1, h.lines[j.value].text);
                        k.Some? && k.value <= i && h.lines[k.value].text == h.lines[i].text
  {
    var j := NearestOlder(h, i, h.lines[i].text);
    if j.Some? {
      var k := NearestNewer(h, j.value + 1, h.lines[j.value].text);
      assert Matches(h, i, h.lines[j.value].text);
      assert k.Some? && k.value < i ==> !Matches(h, k.value, h.lines[i].text);
    }
  }

  /** A search forward gives back the line that a search backward started from. */
  lemma ForwardUndoesBackward(h: History, line: string, dim: nat, now: int)
    requires WellFormed(h) && Enabled(h) && h.recall.Some? && Current(h, line) == h && |line| < dim
    requires h.recall.value < |h.lines| && InScope(h, h.recall.value)
    ensures var (h1, r1) := FindBackwards(h, line, dim, now);
            r1.Some? ==>
              WellFormed(h1) && FindForwards(h1, r1.value, dim).1 == Some(Clip(h.lines[h.recall.value].text, dim))
  {
    hide WellFormed, NearestOlder, NearestNewer;
    var i := h.recall.value;
    NearestBack(h, i);
    var j := NearestOlder(h, i, h.lines[i].text);
    if j.Some? {
      MoveKeeps(h, j.value, dim);
      SameSearch(h, h.(recall := Some(j.value)), j.value + 1, h.lines[j.value].text);
    }
  }

  /** Searches don't depend on where recall is. */
  lemma {:induction false} SameSearch(h: History, h': History, i: nat, last: string)
    requires i <= |h.lines| && h' == h.(recall := h'.recall)
    ensures NearestNewer(h, i, last) == NearestNewer(h', i, last)
    decreases |h.lines| - i
  {
    if i < |h.lines| {
      SameSearch(h, h', i + 1, last);
    }
  }

  // ---- Ids ----

  lemma OneSegmentEach()
    ensures Cost({"a"}) == 1 && Cost({"a", "b"}) == 2
  {
    CostAdd({}, "a");
    CostAdd({"a"}, "b");
    assert {} + {"a"} == {"a"} && {"a"} + {"b"} == {"a", "b"};
  }

  lemma AddedWithRoom(h: History, text: string, now: int)
    requires h.recall.None? && Enabled(h) && HasRoom(h, text) && '\n' !in text
    ensures var (h1, ok) := Add(h, text, true, now);
            ok && h1 == h.(lines := h.lines + [Line(h.nextId, now, h.group, text)], nextId := h.nextId + 1)
  {
    hide Room;
    ChopIdempotent(text);
    TrimDone(h.lines, Held(h.prefix), text, h.nbuff, h.maxLines);
  }

  /** The first line ever added has id zero, and is recalled by it. */
  lemma IdZeroIsRecalled(now: int)
    ensures var h0 := History([], None, None, 0, 0, -1, true, 2);
            var h1 := Add(h0, "a", true, now).0;
            WellFormed(h1) && RecallLine(h1, 0, "b", 10, now).1 == Some("a")
  {
    hide Increasing, Storable, Cost, Add, NoNul;
    var h0 := History([], None, None, 0, 0, -1, true, 2);
    var h1 := Add(h0, "a", true, now).0;
    var a := Line(0, now, 0, "a");
    NewHistory(2);
    NoNulHere();
    AddKeeps(h0, "a", true, now);
    OneSegmentEach();
    assert Texts([]) + Held(None) + {"a"} == {"a"};
    AddedWithRoom(h0, "a", now);
    assert h1.lines == [a];
    assert Texts([a]) + Held(None) + {"b"} == {"a", "b"};
    AddedWithRoom(h1, "b", now);
    var (h2, ok) := Prepare(h1, "b", now);
    assert ok && h2.lines == [a, Line(1, now, 0, "b")];
    assert WithId(h2.lines, 0, 0) == Some(0);
  }

  lemma NoNulHere()
    ensures NoNul("a")
  {
  }
}
