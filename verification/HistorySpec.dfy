/** What the history functions do to a plain sequence of lines, and what follows from it. */
module HistorySpec {
  import opened CStrings
  import opened Segments

  datatype Line = Line(id: int, timestamp: int, group: nat, text: string)

  /** The line of characters being typed is the last line while a recall session is open. */
  datatype History = History(
    lines: seq<Line>,         // oldest first
    recall: Option<nat>,      // the line last recalled, while a session is open
    prefix: Option<string>,   // what lines recalled by a search must start with
    nextId: int,
    group: nat,
    maxLines: int,            // a ceiling on the number of lines, if not negative
    enable: bool,
    nbuff: nat                // the number of segments in the buffer
  )

  function Texts(ls: seq<Line>): set<string> {
    set l | l in ls :: l.text
  }

  function Held(prefix: Option<string>): set<string> {
    if prefix.Some? then {prefix.value} else {}
  }

  ghost predicate Increasing(ls: seq<Line>) {
    forall i, j :: 0 <= i < j < |ls| ==> ls[i].id < ls[j].id
  }

  predicate Storable(text: string) {
    NoNul(text) && '\n' !in text
  }

  /** The invariant of every history. */
  ghost predicate WellFormed(h: History) {
    && Increasing(h.lines)
    && (forall l :: l in h.lines ==> Storable(l.text))
    && (h.recall.None? ==> forall l :: l in h.lines ==> l.id < h.nextId)
    && (h.recall.Some? ==> h.recall.value < |h.lines|)
    && (h.recall.Some? ==> var l := h.lines[|h.lines| - 1]; l.id == h.nextId && l.group == h.group)
    && (h.prefix.Some? ==> NoNul(h.prefix.value) && IsLiteral(h.prefix.value))
    && Cost(Texts(h.lines) + Held(h.prefix)) <= h.nbuff
    && (h.maxLines >= 0 ==> |h.lines| <= h.maxLines)
  }

  predicate Enabled(h: History) {
    h.enable && h.nbuff > 0 && h.maxLines != 0
  }

  /** The line without its newline and what follows it. */
  function Chop(line: string): (r: string)
    ensures r <= line && '\n' !in r
    ensures |r| < |line| ==> line[|r|] == '\n'
  {
    if line == [] || line[0] == '\n' then [] else
      [line[0]] + Chop(line[1..])
  }

  predicate IsSpace(c: char) {
    c == ' ' || '\t' <= c <= '\r'
  }

  predicate IsBlank(s: string) {
    forall i :: 0 <= i < |s| ==> IsSpace(s[i])
  }

  /** Is there room for a text beside the lines ls and the texts in held? */
  ghost predicate Room(ls: seq<Line>, held: set<string>, text: string, nbuff: nat, max: int) {
    && (max >= 0 ==> |ls| < max)
    && Cost(Texts(ls) + held + {text}) <= nbuff
  }

  /** Discard the oldest lines until there is room for a text. */
  ghost function Trim(ls: seq<Line>, held: set<string>, text: string, nbuff: nat, max: int): seq<Line> {
    if ls == [] || Room(ls, held, text, nbuff, max) then ls else Trim(ls[1..], held, text, nbuff, max)
  }

  ghost function Kept(h: History, text: string): seq<Line> {
    Trim(h.lines, Held(h.prefix), text, h.nbuff, h.maxLines)
  }

  ghost predicate HasRoom(h: History, text: string) {
    Room(h.lines, Held(h.prefix), text, h.nbuff, h.maxLines)
  }

  function Cancel(h: History): History
    requires h.recall.Some? ==> h.lines != []
  {
    if h.recall.None? then h else h.(recall := None, lines := h.lines[..|h.lines| - 1])
  }

  /** _glh_add_history, and whether it succeeded. */
  ghost function Add(h: History, line: string, force: bool, now: int): (History, bool)
    requires h.recall.Some? ==> h.lines != []
  {
    var h1 := Cancel(h);
    var text := Chop(line);
    if !Enabled(h) then (h, true)
    else if IsBlank(text) && !force then (h1, true)
    else
      var h2 := h1.(lines := Kept(h1, text));
      if HasRoom(h2, text) then
        (h2.(lines := h2.lines + [Line(h.nextId, now, h.group, text)], nextId := h.nextId + 1), true)
      else (h2, false)
  }

  /** A session that has come back to the line being typed ends if that line has been changed. */
  function Current(h: History, line: string): History
    requires h.recall.Some? ==> h.lines != []
  {
    if h.recall.Some? && h.recall.value == |h.lines| - 1 && h.lines[h.recall.value].text != line then Cancel(h) else h
  }

  /** Save the line being typed at the end of the list, and start a session there. */
  ghost function Open(h: History, line: string, now: int): (History, bool)
    requires h.recall.Some? ==> h.lines != []
    requires Enabled(h)
  {
    var (h1, ok) := Add(h, line, true, now);
    if ok then
      AddAppends(h, line, now);
      (h1.(recall := Some(|h1.lines| - 1), nextId := h1.nextId - 1), true)
    else (h1, false)
  }

  /** A line and the search prefix that is held fit in the buffer together. */
  ghost predicate FitsBeside(h: History, line: string) {
    Cost(Held(h.prefix) + {Chop(line)}) <= h.nbuff
  }

  /** A session goes on for as long as what it comes back to is the line being typed. */
  predicate Continues(h: History, line: string) {
    && h.recall.Some? && h.recall.value < |h.lines|
    && (h.recall.value == |h.lines| - 1 ==> h.lines[h.recall.value].text == line)
  }

  /** A line that is to be added fits beside the prefix, which isn't discarded to make room for it. */
  ghost predicate MayAdd(h: History, line: string, force: bool) {
    h.prefix.Some? && Enabled(h) && (force || !IsBlank(Chop(line))) ==> FitsBeside(h, line)
  }

  /** The same of a line from which others are recalled, which is only stored if a session has to be opened. */
  ghost predicate MayRecall(h: History, line: string) {
    h.prefix.Some? && Enabled(h) && !Continues(h, line) ==> FitsBeside(h, line)
  }

  /** _glh_prepare_for_recall, and whether it succeeded. */
  ghost function Prepare(h: History, line: string, now: int): (History, bool)
    requires h.recall.Some? ==> h.lines != []
    requires Enabled(h)
  {
    var h1 := Current(h, line);
    if h1.recall.Some? then (h1, true) else Open(h1, line, now)
  }

  /** Is line i one that a search moves to, when the last line recalled is `last`? */
  predicate Matches(h: History, i: nat, last: string)
    requires i < |h.lines|
  {
    && h.lines[i].group == h.group
    && h.lines[i].text != last
    && (h.prefix.Some? ==> h.prefix.value <= h.lines[i].text)
  }

  /** The nearest match that is older than line i. */
  function NearestOlder(h: History, i: nat, last: string): (r: Option<nat>)
    requires i <= |h.lines|
    ensures r.Some? ==> r.value < i && Matches(h, r.value, last)
    ensures forall j :: (if r.Some? then r.value < j else 0 <= j) && j < i ==> !Matches(h, j, last)
  {
    if i == 0 then None
    else if Matches(h, i - 1, last) then Some(i - 1)
    else NearestOlder(h, i - 1, last)
  }

  /** The nearest match from line i on. */
  function NearestNewer(h: History, i: nat, last: string): (r: Option<nat>)
    requires i <= |h.lines|
    ensures r.Some? ==> i <= r.value < |h.lines| && Matches(h, r.value, last)
    ensures forall j :: i <= j && (if r.Some? then j < r.value else j < |h.lines|) ==> !Matches(h, j, last)
    decreases |h.lines| - i
  {
    if i == |h.lines| then None
    else if Matches(h, i, last) then Some(i)
    else NearestNewer(h, i + 1, last)
  }

  /** The oldest line of a group, among lines i and on. */
  function OldestOf(ls: seq<Line>, group: nat, i: nat): (r: Option<nat>)
    requires i <= |ls|
    ensures r.Some? ==> i <= r.value < |ls| && ls[r.value].group == group
    ensures forall j :: i <= j && (if r.Some? then j < r.value else j < |ls|) ==> ls[j].group != group
    decreases |ls| - i
  {
    if i == |ls| then None else if ls[i].group == group then Some(i) else OldestOf(ls, group, i + 1)
  }

  /** The line that has a given id, if any, among lines i and on. */
  function WithId(ls: seq<Line>, id: int, i: nat): (r: Option<nat>)
    requires i <= |ls|
    ensures r.Some? ==> i <= r.value < |ls| && ls[r.value].id == id
    ensures r.None? ==> forall j :: i <= j < |ls| ==> ls[j].id != id
    decreases |ls| - i
  {
    if i == |ls| then None else if ls[i].id == id then Some(i) else WithId(ls, id, i + 1)
  }

  /** Move recall to a line, and return its text. */
  function Recalled(h: History, i: nat, dim: nat): (History, Option<string>)
    requires i < |h.lines| && dim > 0
  {
    (h.(recall := Some(i)), Some(Clip(h.lines[i].text, dim)))
  }

  /** Return to line i; the session ends when that is the line that was being typed. */
  function Returned(h: History, i: nat, dim: nat): (History, Option<string>)
    requires i < |h.lines| && dim > 0
  {
    var (h1, r) := Recalled(h, i, dim);
    (if i == |h.lines| - 1 then Cancel(h1) else h1, r)
  }

  lemma ReturnedLast(h: History, dim: nat)
    requires WellFormed(h) && h.recall.Some? && dim > 0
    ensures Returned(h, |h.lines| - 1, dim) == (Cancel(h), Some(Clip(h.lines[|h.lines| - 1].text, dim)))
  {
  }

  /** _glh_find_backwards, and the text it returns. */
  ghost function FindBackwards(h: History, line: string, dim: nat, now: int): (History, Option<string>)
    requires WellFormed(h)
  {
    if !Enabled(h) || dim < |line| + 1 then (h, None)
    else
      PrepareOpens(h, line, now);
      var (h1, ok) := Prepare(h, line, now);
      if !ok then (h1, None) else
        var i := h1.recall.value;
        var j := NearestOlder(h1, i, h1.lines[i].text);
        if j.None? then (h1, None) else Recalled(h1, j.value, dim)
  }

  /** _glh_find_forwards, and the text it returns. */
  function FindForwards(h: History, line: string, dim: nat): (History, Option<string>)
    requires WellFormed(h)
  {
    if !Enabled(h) || dim < |line| + 1 || h.recall.None? then (h, None)
    else
      var i := h.recall.value;
      var j := NearestNewer(h, i + 1, h.lines[i].text);
      if j.None? then (h, None) else Returned(h, j.value, dim)
  }

  /** _glh_oldest_line, and the text it returns. */
  ghost function OldestLine(h: History, line: string, dim: nat, now: int): (History, Option<string>)
    requires WellFormed(h)
  {
    if !Enabled(h) || dim < |line| + 1 then (h, None)
    else
      var (h1, ok) := Prepare(h, line, now);
      if !ok then (h1, None) else
        var j := OldestOf(h1.lines, h1.group, 0);
        if j.None? then (h1, None) else Returned(h1, j.value, dim)
  }

  /** _glh_current_line, and the text it returns. */
  function CurrentLine(h: History, line: string, dim: nat): (History, Option<string>)
    requires WellFormed(h)
  {
    if !Enabled(h) || h.recall.None? || dim < |line| + 1 then (h, None)
    else Returned(h, |h.lines| - 1, dim)
  }

  /** _glh_recall_line, and the text it returns. */
  ghost function RecallLine(h: History, id: int, line: string, dim: nat, now: int): (History, Option<string>)
    requires WellFormed(h) && dim > 0
  {
    if !Enabled(h) then (h, None)
    else
      var (h1, ok) := Prepare(h, line, now);
      if !ok then (h1, None) else
        var j := WithId(h1.lines, id, 0);
        if j.None? || h1.lines[j.value].group != h1.group then (h1, None) else Recalled(h1, j.value, dim)
  }

  /** Take a prefix, discarding the oldest lines to make room for it; without room there is none. */
  ghost function Holding(h: History, prefix: string): History {
    var kept := Trim(h.lines, {}, prefix, h.nbuff, -1);
    h.(lines := kept, prefix := if Room(kept, {}, prefix, h.nbuff, -1) then Some(prefix) else None)
  }

  /** _glh_search_prefix, and whether it succeeded. */
  ghost function SearchPrefix(h: History, prefix: string): (History, bool) {
    if !Enabled(h) then (h, true)
    else if prefix == [] then (h.(prefix := None), true)
    else
      var h1 := Holding(h, prefix);
      (h1, h1.prefix.Some?)
  }

  /** _glh_limit_history. */
  function Limit(h: History, max: int): History {
    var excess := if max >= 0 && max != h.maxLines && |h.lines| > max then |h.lines| - max else 0;
    h.(lines := h.lines[excess..], maxLines := max)
  }

  /** The lines that are not of a group. */
  function Others(ls: seq<Line>, group: nat): seq<Line> {
    if ls == [] then [] else
      (if ls[0].group == group then [] else [ls[0]]) + Others(ls[1..], group)
  }

  /** _glh_clear_history. */
  function Clear(h: History, all: bool): History
    requires h.recall.Some? ==> h.lines != []
  {
    var h1 := Cancel(h);
    h1.(lines := if all then [] else Others(h1.lines, h1.group))
  }

  /** _glh_set_group. */
  function SetGroup(h: History, group: nat): History
    requires h.recall.Some? ==> h.lines != []
  {
    if group == h.group then h else Cancel(h).(group := group)
  }

  /** Discard the oldest lines until those left fit in nbuff segments. */
  ghost function Shrink(ls: seq<Line>, held: set<string>, nbuff: nat): seq<Line> {
    if ls == [] || Cost(Texts(ls) + held) <= nbuff then ls else Shrink(ls[1..], held, nbuff)
  }

  ghost function Resized(h: History, nbuff: nat): History {
    h.(nbuff := nbuff, lines := if h.nbuff == 0 || nbuff == 0 then [] else Shrink(h.lines, Held(h.prefix), nbuff))
  }

  /** _glh_resize_history. */
  ghost function Resize(h: History, bufsize: nat): History
    requires h.recall.Some? ==> h.lines != []
  {
    var nbuff := (bufsize + SEG_SIZE - 1) / SEG_SIZE;
    if nbuff == h.nbuff then h else Resized(Cancel(h), nbuff)
  }

  lemma RecallInRange(h: History)
    requires WellFormed(h)
    ensures h.recall.Some? ==> h.recall.value < |h.lines|
  {
  }

  /** Nothing is stored without a buffer. */
  lemma EmptyBuffer(h: History)
    requires WellFormed(h) && h.nbuff == 0
    ensures h.lines == [] && h.prefix.None?
  {
    var stored := Texts(h.lines) + Held(h.prefix);
    CostPositive(stored);
    assert |h.lines| > 0 ==> h.lines[0].text in stored;
    assert Held(h.prefix) <= stored;
  }

  /** Ids are unique, so that where a search for one ends does not depend on where it starts. */
  lemma WithIdAt(ls: seq<Line>, id: int, k: nat)
    requires Increasing(ls) && k < |ls| && ls[k].id == id
    ensures WithId(ls, id, 0) == Some(k)
  {
  }

  lemma WithIdBeyond(ls: seq<Line>, id: int, k: nat)
    requires Increasing(ls) && k < |ls|
    ensures ls[k].id < id ==> forall j :: 0 <= j <= k ==> ls[j].id != id
    ensures ls[k].id >= id ==> forall j :: k < j < |ls| ==> ls[j].id != id
  {
  }

  // ---- The invariant is kept ----

  lemma EmptyWellFormed(h: History)
    requires h.lines == [] && h.recall.None? && h.prefix.None?
    ensures WellFormed(h)
  {
    assert Texts([]) + Held(None) == {};
  }

  /** Dropping lines leaves less to store. */
  lemma CostFewer(few: seq<Line>, many: seq<Line>, held: set<string>)
    requires forall l :: l in few ==> l in many
    ensures Cost(Texts(few) + held) <= Cost(Texts(many) + held)
  {
    CostMonotone(Texts(few) + held, Texts(many) + held);
  }

  lemma TrimIsSuffix(ls: seq<Line>, held: set<string>, text: string, nbuff: nat, max: int) returns (k: nat)
    ensures k <= |ls| && Trim(ls, held, text, nbuff, max) == ls[k..]
    ensures k == |ls| || Room(ls[k..], held, text, nbuff, max)
    ensures forall j :: 0 <= j < k ==> !Room(ls[j..], held, text, nbuff, max)
  {
    if ls == [] || Room(ls, held, text, nbuff, max) {
      k := 0;
      assert ls[0..] == ls;
    } else {
      var k' := TrimIsSuffix(ls[1..], held, text, nbuff, max);
      k := k' + 1;
      assert forall j :: 0 < j <= |ls| ==> ls[1..][j - 1..] == ls[j..];
      assert ls[0..] == ls;
    }
  }

  lemma TrimStep(ls: seq<Line>, held: set<string>, text: string, nbuff: nat, max: int)
    requires ls != [] && !Room(ls, held, text, nbuff, max)
    ensures Trim(ls, held, text, nbuff, max) == Trim(Drop(ls, 0), held, text, nbuff, max)
  {
    assert Drop(ls, 0) == ls[1..];
  }

  lemma TrimDone(ls: seq<Line>, held: set<string>, text: string, nbuff: nat, max: int)
    requires ls == [] || Room(ls, held, text, nbuff, max)
    ensures Trim(ls, held, text, nbuff, max) == ls
  {
  }

  /** Once the ceiling on the number of lines is met, only space matters. */
  lemma TrimUnlimited(ls: seq<Line>, held: set<string>, text: string, nbuff: nat, max: int)
    requires max >= 0 ==> |ls| < max
    ensures Trim(ls, held, text, nbuff, max) == Trim(ls, held, text, nbuff, -1)
    ensures var kept := Trim(ls, held, text, nbuff, -1);
            Room(kept, held, text, nbuff, max) <==> Room(kept, held, text, nbuff, -1)
  {
  }

  lemma CancelKeeps(h: History)
    requires WellFormed(h)
    ensures h.recall.Some? ==> h.lines != []
    ensures WellFormed(Cancel(h))
  {
    if h.recall.Some? {
      CostFewer(Cancel(h).lines, h.lines, Held(h.prefix));
    }
  }

  lemma SuffixKeeps(h: History, k: nat)
    requires WellFormed(h) && h.recall.None? && k <= |h.lines|
    ensures WellFormed(h.(lines := h.lines[k..]))
  {
    CostFewer(h.lines[k..], h.lines, Held(h.prefix));
  }

  lemma AppendKeeps(h: History, l: Line)
    requires WellFormed(h) && h.recall.None? && HasRoom(h, l.text)
    requires l.id == h.nextId && Storable(l.text)
    ensures WellFormed(h.(lines := h.lines + [l], nextId := h.nextId + 1))
  {
    hide Storable, NoNul, IsLiteral, Cost;
    assert Texts(h.lines + [l]) + Held(h.prefix) == Texts(h.lines) + Held(h.prefix) + {l.text};
  }

  lemma AddKeeps(h: History, line: string, force: bool, now: int)
    requires WellFormed(h) && NoNul(line)
    ensures WellFormed(Add(h, line, force, now).0)
  {
    hide WellFormed, Trim, Room, IsBlank, NoNul;
    CancelKeeps(h);
    var h1, text := Cancel(h), Chop(line);
    assert Storable(text) by { ChopStorable(line); }
    if Enabled(h) && !(IsBlank(text) && !force) {
      var k := TrimIsSuffix(h1.lines, Held(h1.prefix), text, h1.nbuff, h1.maxLines);
      SuffixKeeps(h1, k);
      var h2 := h1.(lines := h1.lines[k..]);
      if HasRoom(h2, text) {
        AppendKeeps(h2, Line(h.nextId, now, h.group, text));
      }
    }
  }

  lemma ChopStorable(line: string)
    requires NoNul(line)
    ensures Storable(Chop(line))
  {
  }

  /** A line that is to be stored is refused exactly when it doesn't fit in the buffer beside the prefix; by then all of
      the lines have been discarded. */
  lemma AddSucceeds(h: History, line: string, force: bool, now: int)
    requires WellFormed(h) && Enabled(h) && (force || !IsBlank(Chop(line)))
    ensures h.recall.Some? ==> h.lines != []
    ensures var (h1, ok) := Add(h, line, force, now);
            && (ok <==> FitsBeside(h, line))
            && (!ok ==> h1 == Cancel(h).(lines := []))
  {
    hide WellFormed, IsBlank, Cost;
    CancelKeeps(h);
    var h1, text := Cancel(h), Chop(line);
    var k := TrimIsSuffix(h1.lines, Held(h1.prefix), text, h1.nbuff, h1.maxLines);
    CostMonotone(Held(h.prefix) + {text}, Texts(h1.lines[k..]) + Held(h.prefix) + {text});
    assert h1.lines[|h1.lines|..] == [];
    assert Texts([]) + Held(h.prefix) + {text} == Held(h.prefix) + {text};
  }

  lemma AddAppends(h: History, line: string, now: int)
    requires Enabled(h) && (h.recall.Some? ==> h.lines != [])
    ensures var (h1, ok) := Add(h, line, true, now); h1.recall.None? && (ok ==> h1.lines != [])
  {
  }

  lemma AddCloses(h: History, line: string, force: bool, now: int)
    requires h.recall.None?
    ensures Add(h, line, force, now).0.recall.None?
  {
  }

  lemma PrepareOpens(h: History, line: string, now: int)
    requires WellFormed(h) && Enabled(h)
    ensures var (h1, ok) := Prepare(h, line, now); ok ==> h1.recall.Some? && h1.recall.value < |h1.lines|
    ensures Enabled(Prepare(h, line, now).0)
  {
  }

  lemma PrepareKeeps(h: History, line: string, now: int)
    requires WellFormed(h) && Enabled(h) && NoNul(line)
    ensures WellFormed(Prepare(h, line, now).0)
  {
    CancelKeeps(h);
    AddKeeps(h, line, true, now);
    AddKeeps(Cancel(h), line, true, now);
  }

  /** Moving recall within the list keeps the invariant. */
  lemma ReturnedKeeps(h: History, i: nat, dim: nat)
    requires WellFormed(h) && i < |h.lines| && dim > 0 && h.recall.Some?
    ensures WellFormed(Recalled(h, i, dim).0) && WellFormed(Returned(h, i, dim).0)
  {
    CancelKeeps(h.(recall := Some(i)));
  }

  lemma NoPrefixKeeps(h: History)
    requires WellFormed(h)
    ensures WellFormed(h.(prefix := None))
  {
    CostMonotone(Texts(h.lines) + Held(None), Texts(h.lines) + Held(h.prefix));
  }

  lemma HoldingAfresh(h: History, prefix: string)
    ensures Holding(h.(prefix := None), prefix) == Holding(h, prefix)
  {
  }

  lemma SearchPrefixKeeps(h: History, prefix: string)
    requires WellFormed(h) && (prefix != [] ==> h.recall.None?) && NoNul(prefix) && IsLiteral(prefix)
    ensures WellFormed(SearchPrefix(h, prefix).0)
  {
    var h1 := h.(prefix := None);
    NoPrefixKeeps(h);
    if Enabled(h) && prefix != [] {
      var k := TrimIsSuffix(h.lines, {}, prefix, h.nbuff, -1);
      SuffixKeeps(h1, k);
      assert Texts(h.lines[k..]) + {} + {prefix} == Texts(h.lines[k..]) + Held(Some(prefix));
    }
  }

  lemma LimitKeeps(h: History, max: int)
    requires WellFormed(h) && h.recall.None?
    ensures WellFormed(Limit(h, max))
  {
    hide Increasing, Cost, Texts, Storable;
    var excess := if max >= 0 && max != h.maxLines && |h.lines| > max then |h.lines| - max else 0;
    SuffixKeeps(h, excess);
  }

  /** One step through the lines, when those before the m'th have left those in done. */
  lemma OthersStep(ls: seq<Line>, group: nat, done: seq<Line>, m: nat)
    requires m < |ls| && Others(ls, group) == done + Others(ls[m..], group)
    ensures (done + ls[m..])[|done|] == ls[m]
    ensures ls[m].group == group ==>
              && Drop(done + ls[m..], |done|) == done + ls[m + 1..]
              && Others(ls, group) == done + Others(ls[m + 1..], group)
    ensures ls[m].group != group ==>
              var done' := done + [ls[m]];
              done + ls[m..] == done' + ls[m + 1..] && Others(ls, group) == done' + Others(ls[m + 1..], group)
  {
    hide Others, Drop;
    OthersFrom(ls, group, m);
    DropMiddle(done, ls, m);
    var rest := Others(ls[m + 1..], group);
    assert done + ([ls[m]] + rest) == (done + [ls[m]]) + rest;
  }

  lemma OthersFrom(ls: seq<Line>, group: nat, m: nat)
    requires m < |ls|
    ensures var rest := Others(ls[m + 1..], group);
            Others(ls[m..], group) == if ls[m].group == group then rest else [ls[m]] + rest
  {
    assert ls[m..][1..] == ls[m + 1..];
  }

  lemma DropMiddle(done: seq<Line>, ls: seq<Line>, m: nat)
    requires m < |ls|
    ensures (done + ls[m..])[|done|] == ls[m] && Drop(done + ls[m..], |done|) == done + ls[m + 1..]
    ensures done + ls[m..] == (done + [ls[m]]) + ls[m + 1..]
  {
  }

  lemma OthersKeep(ls: seq<Line>, group: nat)
    ensures forall l :: l in Others(ls, group) <==> l in ls && l.group != group
    ensures |Others(ls, group)| <= |ls|
    ensures Increasing(ls) ==> Increasing(Others(ls, group))
  {
    if ls != [] {
      OthersKeep(ls[1..], group);
      assert Increasing(ls) ==> Increasing(ls[1..]);
    }
  }

  lemma ClearKeeps(h: History, all: bool)
    requires WellFormed(h)
    ensures WellFormed(Clear(h, all))
  {
    CancelKeeps(h);
    var h1, h2 := Cancel(h), Clear(h, all);
    OthersKeep(h1.lines, h1.group);
    CostFewer(h2.lines, h1.lines, Held(h.prefix));
  }

  lemma ShrinkStep(ls: seq<Line>, held: set<string>, nbuff: nat)
    ensures ls != [] && Cost(Texts(ls) + held) > nbuff ==> Shrink(ls, held, nbuff) == Shrink(Drop(ls, 0), held, nbuff)
    ensures ls == [] || Cost(Texts(ls) + held) <= nbuff ==> Shrink(ls, held, nbuff) == ls
  {
    if ls != [] {
      assert Drop(ls, 0) == ls[1..];
    }
  }

  lemma ShrinkIsSuffix(ls: seq<Line>, held: set<string>, nbuff: nat) returns (k: nat)
    ensures k <= |ls| && Shrink(ls, held, nbuff) == ls[k..]
    ensures k == |ls| || Cost(Texts(ls[k..]) + held) <= nbuff
    ensures forall j :: 0 <= j < k ==> Cost(Texts(ls[j..]) + held) > nbuff
  {
    if ls == [] || Cost(Texts(ls) + held) <= nbuff {
      k := 0;
      assert ls[0..] == ls;
    } else {
      var k' := ShrinkIsSuffix(ls[1..], held, nbuff);
      k := k' + 1;
      assert forall j :: 0 < j <= |ls| ==> ls[1..][j - 1..] == ls[j..];
      assert ls[0..] == ls;
    }
  }

  lemma ResizeKeeps(h: History, bufsize: nat)
    requires WellFormed(h)
    requires Cost(Held(h.prefix)) <= (bufsize + SEG_SIZE - 1) / SEG_SIZE
    ensures WellFormed(Resize(h, bufsize))
  {
    hide Increasing, Storable, Held;
    CancelKeeps(h);
    var h1, h2 := Cancel(h), Resize(h, bufsize);
    var k := ShrinkIsSuffix(h1.lines, Held(h1.prefix), h2.nbuff);
    SuffixKeeps(h1, k);
    SuffixKeeps(h1, |h1.lines|);
    assert Texts([]) + Held(h.prefix) == Held(h.prefix);
    assert h1.lines[|h1.lines|..] == [];
  }
}
