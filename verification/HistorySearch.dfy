/** Which line each of the recall operations finds, in terms of the lines that it goes through. */
module HistorySearch {
  import opened CStrings
  import opened Segments
  import opened HistorySpec

  // ---- The lines that are gone through ----

  /** The lines of a session that goes on; otherwise those that are kept to open one, and the line being typed. */
  ghost function Searched(h: History, line: string, now: int): seq<Line>
    requires h.recall.Some? ==> h.lines != []
  {
    if Continues(h, line) then h.lines
    else Kept(Cancel(h), Chop(line)) + [Line(h.nextId, now, h.group, Chop(line))]
  }

  /** The line that a search starts from: the one last recalled, or that being typed. */
  ghost function From(h: History, line: string, now: int): nat
    requires h.recall.Some? ==> h.lines != []
  {
    if Continues(h, line) then h.recall.value else |Kept(Cancel(h), Chop(line))|
  }

  /** A session goes on unless it has come back to the line being typed, and that has been edited. Otherwise the lines
      that leave room for the one being typed, as many as possible, are gone through, and the one being typed. */
  lemma SearchedAre(h: History, line: string, now: int) returns (k: nat)
    requires WellFormed(h)
    ensures h.recall.Some? ==> h.recall.value < |h.lines|
    ensures var ls, i := Searched(h, line, now), From(h, line, now);
            if h.recall.Some? && (h.recall.value + 1 == |h.lines| ==> h.lines[h.recall.value].text == line) then
              ls == h.lines && i == h.recall.value
            else
              var others := if h.recall.Some? then h.lines[..|h.lines| - 1] else h.lines;
              && k <= |others| && ls == others[k..] + [Line(h.nextId, now, h.group, Chop(line))] && i == |ls| - 1
              && (k < |others| ==> Leaves(h, others[k..], line))
              && forall j :: 0 <= j < k ==> !Leaves(h, others[j..], line)
  {
    hide WellFormed, Cost;
    RecallInRange(h);
    CancelKeeps(h);
    k := TrimIsSuffix(Cancel(h).lines, Held(h.prefix), Chop(line), h.nbuff, h.maxLines);
  }

  /** Do some lines leave room for another, beside the prefix that is held? */
  ghost predicate Leaves(h: History, ls: seq<Line>, line: string) {
    (h.maxLines >= 0 ==> |ls| < h.maxLines) && Cost(Texts(ls) + Held(h.prefix) + {Chop(line)}) <= h.nbuff
  }

  /** What a recall operation has to go through, or what is left when the line being typed can't be put away. */
  lemma Prepared(h: History, line: string, now: int)
    requires WellFormed(h) && Enabled(h) && NoNul(line)
    ensures h.recall.Some? ==> h.lines != []
    ensures var (h1, ok) := Prepare(h, line, now);
            && WellFormed(h1) && (ok <==> Continues(h, line) || FitsBeside(h, line))
            && From(h, line, now) < |Searched(h, line, now)|
            && h1 == if ok then h.(lines := Searched(h, line, now), recall := Some(From(h, line, now)))
                     else h.(lines := [], recall := None)
  {
    hide WellFormed, NoNul, Cost, Room, Trim, IsBlank;
    CancelKeeps(h);
    RecallInRange(h);
    AddSucceeds(h, line, true, now);
    AddSucceeds(Cancel(h), line, true, now);
    PrepareKeeps(h, line, now);
  }

  lemma MatchesAre(h: History, last: string)
    ensures forall j :: 0 <= j < |h.lines| ==>
              (Matches(h, j, last) <==> && h.lines[j].group == h.group && h.lines[j].text != last
                                        && (h.prefix.Some? ==> h.prefix.value <= h.lines[j].text))
  {
  }

  // ---- What is found ----

  /** A search backward finds a line exactly when an older one than it starts from is of the group, has another text,
      and has the prefix that is held, if any: and then the newest such line. */
  lemma BackwardsFinds(h: History, line: string, dim: nat, now: int) returns (k: nat)
    requires WellFormed(h) && Enabled(h) && NoNul(line) && |line| < dim
    ensures h.recall.Some? ==> h.lines != []
    ensures var ((h1, r), ls, i) := (FindBackwards(h, line, dim, now), Searched(h, line, now), From(h, line, now));
            if Continues(h, line) || FitsBeside(h, line) then
              && k <= i < |ls| && (r.Some? <==> k < i) && h1 == h.(lines := ls, recall := Some(k))
              && (forall j :: (if r.Some? then k else 0) <= j < i ==>
                    (j == k <==> && ls[j].group == h.group && ls[j].text != ls[i].text
                                 && (h.prefix.Some? ==> h.prefix.value <= ls[j].text)))
              && (r.Some? ==> r.value == Clip(ls[k].text, dim))
            else h1 == h.(lines := [], recall := None) && r.None?
  {
    hide WellFormed, NoNul, Prepare, Searched, From, Continues, FitsBeside;
    Prepared(h, line, now);
    var h2 := Prepare(h, line, now).0;
    k := From(h, line, now);
    if Prepare(h, line, now).1 {
      var j := NearestOlder(h2, k, h2.lines[k].text);
      MatchesAre(h2, h2.lines[k].text);
      k := if j.Some? then j.value else k;
    }
  }

  /** A search forward finds a line exactly when a newer one than that last recalled is of the group, has another text,
      and has the prefix that is held, if any: and then the oldest such line. If that is the one that was being typed,
      the session is over. */
  lemma ForwardsFinds(h: History, line: string, dim: nat) returns (k: nat)
    requires WellFormed(h) && Enabled(h) && |line| < dim && h.recall.Some?
    ensures var ((h1, r), ls, i) := (FindForwards(h, line, dim), h.lines, h.recall.value);
            && i < k <= |ls| && (r.Some? <==> k < |ls|)
            && (forall j :: i < j <= k && j < |ls| ==>
                  (j == k <==> && ls[j].group == h.group && ls[j].text != ls[i].text
                               && (h.prefix.Some? ==> h.prefix.value <= ls[j].text)))
            && (r.Some? ==> r.value == Clip(ls[k].text, dim))
            && h1 == if r.None? then h else if k + 1 == |ls| then h.(lines := ls[..k], recall := None)
                     else h.(recall := Some(k))
  {
    hide WellFormed;
    RecallInRange(h);
    var j := NearestNewer(h, h.recall.value + 1, h.lines[h.recall.value].text);
    MatchesAre(h, h.lines[h.recall.value].text);
    k := if j.Some? then j.value else |h.lines|;
  }

  /** The oldest line is the first of the group, which the line being typed is one of; if it is that line, the session
      is over. */
  lemma OldestFinds(h: History, line: string, dim: nat, now: int) returns (k: nat)
    requires WellFormed(h) && Enabled(h) && NoNul(line) && |line| < dim
    ensures h.recall.Some? ==> h.lines != []
    ensures var ((h1, r), ls) := (OldestLine(h, line, dim, now), Searched(h, line, now));
            if Continues(h, line) || FitsBeside(h, line) then
              && k < |ls| && (forall j :: 0 <= j <= k ==> (j == k <==> ls[j].group == h.group))
              && r == Some(Clip(ls[k].text, dim))
              && h1 == if k + 1 == |ls| then h.(lines := ls[..k], recall := None)
                       else h.(lines := ls, recall := Some(k))
            else h1 == h.(lines := [], recall := None) && r.None?
  {
    hide NoNul, Prepare, Searched, From, Continues, FitsBeside, Increasing, Storable, Cost;
    Prepared(h, line, now);
    var h2 := Prepare(h, line, now).0;
    k := 0;
    if Prepare(h, line, now).1 {
      var j := OldestOf(h2.lines, h2.group, 0);
      assert h2.lines[|h2.lines| - 1].group == h2.group;
      k := j.value;
    }
  }

  /** A line is recalled by an id, be that zero or any other, exactly when the one line that has the id is of the
      group. */
  lemma RecalledById(h: History, id: int, line: string, dim: nat, now: int) returns (k: nat)
    requires WellFormed(h) && Enabled(h) && NoNul(line) && dim > 0
    ensures h.recall.Some? ==> h.lines != []
    ensures var ((h1, r), ls) := (RecallLine(h, id, line, dim, now), Searched(h, line, now));
            if Continues(h, line) || FitsBeside(h, line) then
              && k <= |ls| && (forall j :: 0 <= j < |ls| ==> (j == k <==> ls[j].id == id))
              && (r.Some? <==> k < |ls| && ls[k].group == h.group)
              && (r.Some? ==> r.value == Clip(ls[k].text, dim))
              && h1 == h.(lines := ls, recall := Some(if r.Some? then k else From(h, line, now)))
            else h1 == h.(lines := [], recall := None) && r.None?
  {
    hide NoNul, Prepare, Searched, From, Continues, FitsBeside, Storable, Cost;
    Prepared(h, line, now);
    var h2 := Prepare(h, line, now).0;
    k := 0;
    if Prepare(h, line, now).1 {
      var j := WithId(h2.lines, id, 0);
      k := if j.Some? then j.value else |h2.lines|;
    }
  }

  /** Returning to the current line gives the last one, which was being typed, and takes it off the list. */
  lemma CurrentIsLast(h: History, line: string, dim: nat)
    requires WellFormed(h) && Enabled(h) && |line| < dim && h.recall.Some?
    ensures h.lines != []
    ensures var n := |h.lines| - 1;
            CurrentLine(h, line, dim) == (h.(lines := h.lines[..n], recall := None), Some(Clip(h.lines[n].text, dim)))
  {
    hide WellFormed;
    RecallInRange(h);
  }

  /** Nothing is recalled, and nothing changes, when the history is disabled, when the line doesn't fit in its own
      buffer, or when there is no session to go forward or return in. */
  lemma NothingRecalled(h: History, id: int, line: string, dim: nat, now: int)
    requires WellFormed(h)
    ensures !h.enable || h.nbuff == 0 || h.maxLines == 0 || dim <= |line| ==>
              && FindBackwards(h, line, dim, now) == (h, None) && OldestLine(h, line, dim, now) == (h, None)
              && FindForwards(h, line, dim) == (h, None) && CurrentLine(h, line, dim) == (h, None)
    ensures !h.enable || h.nbuff == 0 || h.maxLines == 0 ==> dim > 0 ==> RecallLine(h, id, line, dim, now) == (h, None)
    ensures h.recall.None? ==> FindForwards(h, line, dim) == (h, None) && CurrentLine(h, line, dim) == (h, None)
  {
    hide WellFormed;
  }
}
