/** Which characters each of the line-editing actions takes out, puts back or adds, and where it leaves the cursor. */
module EditEffects {
  import opened CStrings
  import opened EditSpec

  // ---- Taking characters out ----

  /** Is this what is left without n characters from position p on? In vi overwrite mode there is instead, at their
      positions, what was there before inserting started, if the line was as long as that. */
  ghost predicate Gone(e: Edit, p: nat, n: nat, text: string)
    requires p + n <= |e.text|
  {
    if n == 0 then text == e.text
    else if e.editor == Vi && !e.command && !e.insert then
      var u := e.undo.text;
      && |text| == (if p + n <= |u| then |e.text| else if p <= |u| then |u| else p)
      && forall j :: 0 <= j < |text| ==> text[j] == if p <= j < p + n then u[j] else e.text[j]
    else text == e.text[..p] + e.text[p + n..]
  }

  /** In vi command mode an action first saves the line, unless that has been done. */
  ghost predicate Saves(e: Edit, r: Edit) {
    r.undo == if e.command && !e.undo.saved then Undo(e.text, e.cursor, true) else e.undo
  }

  /** Where the cursor ends up at position p of a text: in vi command mode it stays on a character. */
  ghost predicate IsAt(e: Edit, r: Edit, p: nat) {
    r.cursor == if e.command && 0 < |r.text| <= p then |r.text| - 1 else p
  }

  /** Are n characters from position p on taken out, and cut if so asked, leaving the cursor there? */
  ghost predicate TakesOut(e: Edit, r: Edit, p: nat, n: nat, cut: bool)
    requires p + n <= |e.text|
  {
    && Gone(e, p, n, r.text) && (if n == 0 then r.cursor == p else IsAt(e, r, p))
    && r.cut == (if cut then e.text[p..p + n] else e.cut)
    && Saves(e, r) && r == e.(text := r.text, cursor := r.cursor, cut := r.cut, mark := r.mark, undo := r.undo)
  }

  lemma WithoutGone(e: Edit, n: nat)
    requires 0 < n && e.cursor + n <= |e.text|
    ensures Gone(e, e.cursor, n, Without(e, n))
  {
  }

  /** What is deleted depends on neither the cut buffer nor, in command mode, the undo buffer. */
  lemma WithoutSame(e: Edit, e1: Edit, n: nat)
    requires e.cursor + n <= |e.text| && e1 == e.(cut := e1.cut, undo := e1.undo) && (!e.command ==> e1.undo == e.undo)
    ensures Without(e1, n) == Without(e, n)
  {
  }

  /** As many characters are deleted from the cursor on as asked for, or as there are. */
  lemma DeleteTakesOut(e: Edit, nc: int, cut: bool)
    requires WellFormed(e) && (cut ==> nc >= 0)
    ensures var n := if nc <= 0 then 0 else if e.cursor + nc > |e.text| then |e.text| - e.cursor else nc;
            TakesOut(e, DeleteChars(e, nc, cut), e.cursor, n, cut) && DeleteChars(e, nc, cut).mark == e.mark
  {
    hide NoNul, Without, Gone, DeleteChars, TakesOut, SaveForUndo;
    var n := if nc <= 0 then 0 else if e.cursor + nc > |e.text| then |e.text| - e.cursor else nc;
    if n > 0 {
      WithoutGone(e, n);
      WithoutAfter(e, n);
      Deleted(e, n, nc, cut);
      TakenOut(e, e.cursor, n, Without(e, n), cut);
    } else {
      GoneNothing(e);
      NothingDeleted(e, nc, cut);
    }
  }

  lemma NothingDeleted(e: Edit, nc: int, cut: bool)
    requires e.cursor <= |e.text| && (nc <= 0 || e.cursor == |e.text|) && (cut ==> nc >= 0)
    ensures Gone(e, e.cursor, 0, e.text)
    ensures TakesOut(e, DeleteChars(e, nc, cut), e.cursor, 0, cut) && DeleteChars(e, nc, cut).mark == e.mark
  {
  }

  lemma TakenOut(e: Edit, p: nat, n: nat, text: string, cut: bool)
    requires 0 < n && p + n <= |e.text| && Gone(e, p, n, text) && p <= |text|
    ensures var r := PlaceCursor(SaveForUndo(e).(cut := if cut then e.text[p..p + n] else e.cut, text := text), p);
            TakesOut(e, r, p, n, cut) && r.mark == e.mark
  {
    hide Gone;
  }

  lemma Deleted(e: Edit, n: nat, nc: int, cut: bool)
    requires e.cursor <= |e.text| && nc > 0 && 0 < n == if e.cursor + nc > |e.text| then |e.text| - e.cursor else nc
    ensures var cut' := if cut then e.text[e.cursor..e.cursor + n] else e.cut;
            DeleteChars(e, nc, cut) == PlaceCursor(SaveForUndo(e).(cut := cut', text := Without(e, n)), e.cursor)
  {
    hide Without, PlaceCursor;
    var e1 := SaveForUndo(e);
    WithoutSame(e, if cut then e1.(cut := e.text[e.cursor..e.cursor + n]) else e1, n);
  }

  lemma WithoutAfter(e: Edit, n: nat)
    requires e.cursor + n <= |e.text|
    ensures e.cursor <= |Without(e, n)|
  {
  }

  lemma GoneNothing(e: Edit)
    requires e.cursor <= |e.text|
    ensures Gone(e, e.cursor, 0, e.text)
  {
  }

  /** The whole line is cut. */
  lemma LineCut(e: Edit)
    ensures var r := DeleteLine(e);
            Saves(e, r) && r == e.(text := [], cursor := 0, cut := e.text, undo := r.undo)
  {
  }

  /** The line is cut at the cursor, which stays there. */
  lemma EndCut(e: Edit)
    requires WellFormed(e)
    ensures var r := KillLine(e);
            && |r.text| == e.cursor && r.text + r.cut == e.text && IsAt(e, r, e.cursor) && Saves(e, r)
            && r == e.(text := r.text, cursor := r.cursor, cut := r.cut, undo := r.undo)
  {
    hide NoNul;
  }

  /** What lies between the mark and the cursor is cut, on whichever side of the cursor the mark is. */
  lemma RegionCut(e: Edit)
    requires WellFormed(e)
    ensures var r, m := KillRegion(e), if e.mark > |e.text| then |e.text| else e.mark;
            var from, until := if m < e.cursor then m else e.cursor, if m < e.cursor then e.cursor else m;
            TakesOut(e, r, from, until - from, true) && r.mark == r.cursor
  {
    hide NoNul, DeleteChars, Gone;
    var m := if e.mark > |e.text| then |e.text| else e.mark;
    var e1 := SaveForUndo(e).(mark := m);
    if m == e.cursor {
      GoneNothing(e);
    } else {
      hide SaveForUndo, TakesOut;
      Saved(e);
      var e2 := if m < e.cursor then ExchangePointAndMark(e1) else e1;
      TakenFrom(e, e2, e2.cursor, e2.mark - e2.cursor, true);
    }
  }

  lemma Saved(e: Edit)
    ensures SaveForUndo(e) == e.(undo := SaveForUndo(e).undo) && Saves(e, SaveForUndo(e))
    ensures WellFormed(e) ==> WellFormed(SaveForUndo(e))
  {
    hide NoNul;
  }

  /** Once the line has been saved, and the cursor placed, deleting from there takes characters out of the line. */
  lemma TakenFrom(e: Edit, e1: Edit, p: nat, n: nat, cut: bool)
    requires WellFormed(e) && p + n <= |e.text| && e1 == e.(cursor := p, mark := e1.mark, undo := SaveForUndo(e).undo)
    ensures var r := DeleteChars(e1, n, cut);
            TakesOut(e, r, p, n, cut) && TakesOut(e, r.(mark := r.cursor), p, n, cut) && r.mark == e1.mark
  {
    hide NoNul, DeleteChars, Gone, SaveForUndo;
    Saved(e);
    DeleteTakesOut(e1, n, cut);
    GoneSame(e, e1, p, n, DeleteChars(e1, n, cut).text);
  }

  /** What is gone depends on neither the cursor, the mark nor the cut buffer. */
  lemma GoneSame(e: Edit, e1: Edit, p: nat, n: nat, text: string)
    requires p + n <= |e.text| && e1 == e.(cursor := e1.cursor, mark := e1.mark, cut := e1.cut, undo := e1.undo)
    requires !e.command ==> e1.undo == e.undo
    ensures Gone(e1, p, n, text) <==> Gone(e, p, n, text)
  {
  }

  // ---- Words ----

  /** What words are made of. */
  lemma WordChars(c: char)
    requires c != NUL
    ensures IsWordChar(c) <==> || 'a' <= c <= 'z' || 'A' <= c <= 'Z' || '0' <= c <= '9'
                               || c == '_' || c == '*' || c == '?' || c == '\\' || c == '[' || c == ']'
  {
    assert WORD_CHARS[1..] == "*?\\[]" && "*?\\[]"[1..] == "?\\[]" && "?\\[]"[1..] == "\\[]";
    assert "\\[]"[1..] == "[]" && "[]"[1..] == "]" && "]"[1..] == "";
  }

  /** The search goes to the count'th word end behind the cursor, or to the last character of a line that has fewer. */
  lemma NthEnd(e: Edit, count: int)
    requires e.cursor <= |e.text|
    ensures var r, from := NthWordEndForward(e, count) + 1, if e.cursor < |e.text| then e.cursor + 1 else e.cursor;
            && from <= r <= |e.text| && EndsIn(e.text, from, r) <= (if count > 0 then count else 0)
            && (r < |e.text| && count > 0 ==> EndsIn(e.text, from, r) == count)
            && (EndsIn(e.text, from, r) == count > 0 ==> IsWordEnd(e.text, r - 1))
            && (count <= 0 ==> r == from)
  {
    if e.cursor < |e.text| {
      WordEndsAre(e.text, e.cursor + 1, count);
    }
  }

  /** The search goes to the count'th word start behind the cursor, or to the end of a line that has fewer. */
  lemma NthStart(e: Edit, count: int)
    requires e.cursor <= |e.text|
    ensures var r := NthWordStartForward(e, count);
            && e.cursor <= r <= |e.text|
            && (r < |e.text| && count > 0 ==>
                  e.cursor < r && IsWordStart(e.text, 0, r) && StartsIn(e.text, 0, e.cursor + 1, r) == count - 1)
            && (e.cursor < r ==> StartsIn(e.text, 0, e.cursor + 1, r) < count)
            && (count <= 0 ==> r == e.cursor)
  {
    WordStartsAre(e.text, e.cursor, count);
  }

  /** The search goes to the count'th word start before the cursor, or to where inserting started if there are fewer. */
  lemma NthStartBack(e: Edit, count: int)
    requires e.insertFrom <= e.cursor <= |e.text|
    ensures var r, from := NthWordStartBackward(e, count), e.insertFrom;
            && from <= r <= e.cursor && StartsIn(e.text, from, r, e.cursor) <= (if count > 0 then count else 0)
            && (r > from && count > 0 ==> StartsIn(e.text, from, r, e.cursor) == count)
            && (StartsIn(e.text, from, r, e.cursor) == count > 0 ==> r < e.cursor && IsWordStart(e.text, from, r))
            && (count <= 0 ==> r == e.cursor)
  {
    WordsBackAre(e.text, e.cursor, count, e.insertFrom);
  }

  /** Forward, in emacs mode what is before the end of a word is cut; otherwise what is before the start of one is
      deleted, and cut in vi command mode. */
  lemma WordTakenOut(e: Edit, count: int)
    requires WellFormed(e)
    ensures var r := ForwardDeleteWord(e, count);
            var until := if e.editor == Emacs then NthWordEndForward(e, count) + 1 else NthWordStartForward(e, count);
            && e.cursor <= until <= |e.text| && r.mark == e.mark
            && TakesOut(e, r, e.cursor, until - e.cursor, e.editor == Emacs || e.command)
  {
    hide NoNul, DeleteChars, Gone, WordEnds, WordStarts;
    var until := if e.editor == Emacs then NthWordEndForward(e, count) + 1 else NthWordStartForward(e, count);
    SaveKeeps(e);
    DeleteTakesOut(SaveForUndo(e), until - e.cursor, e.editor == Emacs || e.command);
    GoneSame(e, SaveForUndo(e), e.cursor, until - e.cursor, ForwardDeleteWord(e, count).text);
  }

  /** Backward, what is behind the start of a word is deleted, and cut unless in vi insert mode. */
  lemma WordTakenBack(e: Edit, count: int)
    requires WellFormed(e) && e.insertFrom <= e.cursor
    ensures var r, p := BackwardDeleteWord(e, count), NthWordStartBackward(e, count);
            var from := if e.command && 0 < p == |e.text| then p - 1 else p;
            TakesOut(e, r, from, e.cursor - from, e.editor == Emacs || e.command) && r.mark == e.mark
  {
    hide NoNul, DeleteChars, Gone, WordsBack;
    var e1 := SaveForUndo(e);
    SaveKeeps(e);
    var e2 := PlaceCursor(e1, NthWordStartBackward(e1, count));
    PlaceKeeps(e1, NthWordStartBackward(e1, count));
    DeleteTakesOut(e2, e.cursor - e2.cursor, e.editor == Emacs || e.command);
    GoneSame(e, e2, e2.cursor, e.cursor - e2.cursor, BackwardDeleteWord(e, count).text);
  }

  // ---- Moving ----

  /** May the cursor be there? */
  predicate OnLine(e: Edit, p: nat) {
    if e.command && e.text != [] then p < |e.text| else p <= |e.text|
  }

  /** The cursor is placed as close to a position as it may be. */
  lemma PlacedClosest(e: Edit, pos: int)
    ensures var r := PlaceCursor(e, pos);
            && OnLine(e, r.cursor) && r == e.(cursor := r.cursor)
            && forall p: nat :: OnLine(e, p) ==> Distance(r.cursor, pos) <= Distance(p, pos)
  {
  }

  function Distance(a: int, b: int): int {
    if a < b then b - a else a - b
  }

  /** The cursor goes to the mark, or as close to it as it may be, and the mark to where the cursor was. */
  lemma Exchanged(e: Edit)
    ensures var r := ExchangePointAndMark(e);
            && r == e.(mark := e.cursor, cursor := r.cursor) && OnLine(e, r.cursor)
            && forall p: nat :: OnLine(e, p) ==> Distance(r.cursor, e.mark) <= Distance(p, e.mark)
  {
  }

  // ---- Putting characters in ----

  /** n copies of a string. */
  function Copies(s: string, n: nat): string {
    if n == 0 then [] else Copies(s, n - 1) + s
  }

  lemma {:induction false} CopiesBefore(s: string, n: nat)
    ensures Copies(s, n + 1) == s + Copies(s, n)
  {
    if n > 0 {
      CopiesBefore(s, n - 1);
      assert Copies(s, n + 1) == (s + Copies(s, n - 1)) + s == s + (Copies(s, n - 1) + s);
    } else {
      assert Copies(s, 1) == [] + s == s == s + Copies(s, 0);
    }
  }

  /** As many copies are added as asked for, or as there is room for. */
  lemma {:induction false} TimesAdded(e: Edit, s: string, count: int) returns (n: nat)
    requires e.cursor <= |e.text| <= e.room
    ensures n <= (if count > 0 then count else 0) && |e.text| + |Copies(s, n)| <= e.room
    ensures n < count ==> |e.text| + |Copies(s, n + 1)| > e.room
    ensures AddTimes(e, s, count) == e.(text := e.text[..e.cursor] + Copies(s, n) + e.text[e.cursor..],
                                        cursor := e.cursor + |Copies(s, n)|)
    decreases if count > 0 then count else 0
  {
    hide AddString, Copies;
    n := 0;
    if count > 0 && |e.text| + |s| <= e.room {
      var e1 := AddString(e, s);
      AddedOnce(e, s);
      n := TimesAdded(e1, s, count - 1);
      CopiesBefore(s, n);
      CopiesBefore(s, n + 1);
      CopiesBehind(e, s, Copies(s, n));
      n := n + 1;
    } else {
      NoneAdded(e, s, count);
    }
  }

  lemma AddedOnce(e: Edit, s: string)
    requires e.cursor <= |e.text| && |e.text| + |s| <= e.room
    ensures var e1 := AddString(e, s);
            && e1 == e.(text := e1.text, cursor := e.cursor + |s|) && |e1.text| == |e.text| + |s|
            && e1.text[..e1.cursor] == e.text[..e.cursor] + s && e1.text[e1.cursor..] == e.text[e.cursor..]
  {
  }

  lemma CopiesBehind(e: Edit, s: string, more: string)
    requires e.cursor <= |e.text|
    ensures (e.text[..e.cursor] + s) + more + e.text[e.cursor..] == e.text[..e.cursor] + (s + more) + e.text[e.cursor..]
  {
  }

  lemma {:induction false} NoneAdded(e: Edit, s: string, count: int)
    requires e.cursor <= |e.text| <= e.room && (count <= 0 || |e.text| + |s| > e.room)
    ensures AddTimes(e, s, count) == e && Copies(s, 0) == [] && Copies(s, 1) == s
    ensures e.text[..e.cursor] + Copies(s, 0) + e.text[e.cursor..] == e.text
    decreases if count > 0 then count else 0
  {
    CopiesBefore(s, 0);
    if count > 0 {
      NoneAdded(e, s, count - 1);
    }
  }

  /** A yank adds as many copies of what was cut as asked for, or as there is room for, at the cursor; the mark is left
      before them, and the cursor behind them, or in vi mode on the last character. */
  lemma Yanked(e: Edit, count: int) returns (n: nat)
    requires WellFormed(e)
    ensures e.cut == [] ==> Yank(e, count) == e.(mark := e.cursor)
    ensures e.cut != [] ==>
              var r, s := Yank(e, count), Copies(e.cut, n);
              && n <= (if count > 0 then count else 0) && |e.text| + |s| <= e.room
              && (n < count ==> |e.text| + |Copies(e.cut, n + 1)| > e.room)
              && r.text == e.text[..e.cursor] + s + e.text[e.cursor..] && Saves(e, r)
              && r.cursor == (if e.editor == Vi && e.cursor + |s| > 0 then e.cursor + |s| - 1 else e.cursor + |s|)
              && r == e.(text := r.text, mark := e.cursor, cursor := r.cursor, undo := r.undo)
  {
    hide NoNul, AddTimes;
    n := TimesAdded(SaveForUndo(e.(mark := e.cursor)), e.cut, count);
  }

  /** An undo swaps the line and the undo buffer; the cursor goes to the leftmost of the places where it is and where it
      was when the line was saved, or to the end of the line if that is shorter. */
  lemma Undone(e: Edit)
    ensures var r := ViUndo(e);
            && r.text == e.undo.text && r.undo == e.undo.(text := e.text, cursor := r.cursor)
            && r.cursor <= e.cursor && r.cursor <= e.undo.cursor && r.cursor <= |e.undo.text|
            && (r.cursor == e.cursor || r.cursor == e.undo.cursor || r.cursor == |e.undo.text|)
            && r == e.(text := r.text, cursor := r.cursor, undo := r.undo)
  {
  }
}
