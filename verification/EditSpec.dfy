/** What the line-editing actions do to the text of a line, the cut buffer and the undo buffer. */
module EditSpec {
  import opened CStrings

  datatype Editor = Emacs | Vi | NoEditor

  datatype Edit = Edit(
    room: nat,          // the longest line there is room for
    text: string,
    cursor: nat,
    mark: nat,
    cut: string,
    editor: Editor,
    insert: bool,       // insert, rather than overwrite
    insertFrom: nat,    // where inserting started
    command: bool,      // vi command mode
    undo: Undo
  )

  datatype Undo = Undo(text: string, cursor: nat, saved: bool)

  ghost predicate WellFormed(e: Edit) {
    && |e.text| <= e.room && NoNul(e.text) && e.cursor <= |e.text|
    && |e.cut| <= e.room && NoNul(e.cut)
    && |e.undo.text| <= e.room && NoNul(e.undo.text)
    && (e.command || e.insertFrom > 0 ==> e.editor == Vi)
  }

  /** gl_place_cursor: in vi command mode the cursor stays on a character. */
  function PlaceCursor(e: Edit, pos: int): Edit {
    var p := if pos >= |e.text| then (if e.command then |e.text| - 1 else |e.text|) else pos;
    e.(cursor := if p < 0 then 0 else p)
  }

  /** gl_save_for_undo */
  function SaveForUndo(e: Edit): Edit {
    if e.command && !e.undo.saved then e.(undo := Undo(e.text, e.cursor, true)) else e
  }

  /** The text with n characters at position p replaced by those that the undo buffer has there. */
  function Restored(text: string, p: nat, n: nat, undo: string): string
    requires p + n <= |text|
  {
    if p + n <= |undo| then text[..p] + undo[p..p + n] + text[p + n..]
    else if p < |undo| then text[..p] + undo[p..]
    else text[..p]
  }

  /** The text without n characters from the cursor on; but in vi overwrite mode, what there was before comes back. */
  function Without(e: Edit, n: nat): string
    requires e.cursor + n <= |e.text|
  {
    if e.editor == Vi && !e.command && !e.insert then Restored(e.text, e.cursor, n, e.undo.text)
    else e.text[..e.cursor] + e.text[e.cursor + n..]
  }

  /** gl_delete_chars, of n characters from the cursor on. */
  function DeleteChars(e: Edit, nc: int, cut: bool): Edit
    requires e.cursor <= |e.text| && (cut ==> nc >= 0)
  {
    var n := if e.cursor + nc > |e.text| then |e.text| - e.cursor else nc;
    var e1 := SaveForUndo(e);
    var e2 := if cut then e1.(cut := e.text[e.cursor..e.cursor + n]) else e1;
    if n <= 0 then e2 else PlaceCursor(e2.(text := Without(e2, n)), e.cursor)
  }

  /** gl_delete_line */
  function DeleteLine(e: Edit): Edit {
    PlaceCursor(SaveForUndo(e).(cut := e.text, text := []), 0)
  }

  /** gl_kill_line */
  function KillLine(e: Edit): Edit
    requires e.cursor <= |e.text|
  {
    PlaceCursor(SaveForUndo(e).(cut := e.text[e.cursor..], text := e.text[..e.cursor]), e.cursor)
  }

  /** gl_exchange_point_and_mark */
  function ExchangePointAndMark(e: Edit): Edit {
    PlaceCursor(e.(mark := e.cursor), if e.mark <= |e.text| then e.mark else |e.text|)
  }

  /** gl_kill_region */
  function KillRegion(e: Edit): Edit
    requires e.cursor <= |e.text|
  {
    var e1 := SaveForUndo(e).(mark := if e.mark > |e.text| then |e.text| else e.mark);
    if e1.mark == e1.cursor then e1.(cut := [])
    else
      var e2 := if e1.mark < e1.cursor then ExchangePointAndMark(e1) else e1;
      var e3 := DeleteChars(e2, e2.mark - e2.cursor, true);
      e3.(mark := e3.cursor)
  }

  // ---- Words ----

  const WORD_CHARS: string := "_*?\\[]"

  predicate IsAlnum(c: char) {
    '0' <= c <= '9' || 'A' <= c <= 'Z' || 'a' <= c <= 'z'
  }

  /** gl_is_word_char */
  predicate IsWordChar(c: char) {
    IsAlnum(c) || StrChr(WORD_CHARS, c).Some?
  }

  /** The first position from i on of a character that is (or isn't) in a word. */
  function Skip(text: string, i: nat, word: bool): (r: nat)
    requires i <= |text|
    ensures i <= r <= |text|
    decreases |text| - i
  {
    if i < |text| && IsWordChar(text[i]) == word then Skip(text, i + 1, word) else i
  }

  lemma {:induction false} SkipFinds(text: string, i: nat, word: bool)
    requires i <= |text|
    ensures var r := Skip(text, i, word);
            && (forall j :: i <= j < r ==> IsWordChar(text[j]) == word)
            && (r < |text| ==> IsWordChar(text[r]) != word)
    decreases |text| - i
  {
    hide IsWordChar;
    if i < |text| && IsWordChar(text[i]) == word {
      SkipFinds(text, i + 1, word);
    }
  }

  /** Just beyond the end of the n'th word from i on. */
  function WordEnds(text: string, i: nat, n: int): (r: nat)
    requires i <= |text|
    ensures i <= r <= |text|
    decreases if n > 0 then n else 0
  {
    if n <= 0 || i >= |text| then i else WordEnds(text, Skip(text, Skip(text, i, false), true), n - 1)
  }

  /** The start of the n'th word beyond i. */
  function WordStarts(text: string, i: nat, n: int): (r: nat)
    requires i <= |text|
    ensures i <= r <= |text|
    decreases if n > 0 then n else 0
  {
    if n <= 0 || i >= |text| then i else WordStarts(text, Skip(text, Skip(text, i, true), false), n - 1)
  }

  /** gl_nth_word_end_forward */
  function NthWordEndForward(e: Edit, n: int): (r: int)
    ensures e.cursor <= |e.text| ==> e.cursor <= r + 1 <= |e.text|
  {
    if e.cursor + 1 >= |e.text| then |e.text| - 1 else WordEnds(e.text, e.cursor + 1, n) - 1
  }

  /** gl_nth_word_start_forward */
  function NthWordStartForward(e: Edit, n: int): (r: int)
    requires e.cursor <= |e.text|
    ensures e.cursor <= r <= |e.text|
  {
    WordStarts(e.text, e.cursor, n)
  }

  /** Going back from i to lo, the last character that is (or isn't) in a word, or the position before lo or i. */
  function Back(text: string, i: int, lo: nat, word: bool): (r: int)
    requires i <= |text|
    ensures (if i < lo then i - 1 else lo - 1) <= r < i
    decreases i + 1 - lo
  {
    if i - 1 >= lo && IsWordChar(text[i - 1]) != word then Back(text, i - 1, lo, word) else i - 1
  }

  lemma {:induction false} BackFinds(text: string, i: int, lo: nat, word: bool)
    requires i <= |text|
    ensures var r := Back(text, i, lo, word);
            && (forall j :: r < j < i && lo <= j ==> IsWordChar(text[j]) != word)
            && (r >= lo ==> IsWordChar(text[r]) == word)
    decreases i + 1 - lo
  {
    hide IsWordChar;
    if i - 1 >= lo && IsWordChar(text[i - 1]) != word {
      BackFinds(text, i - 1, lo, word);
    }
  }

  /** The start of the n'th word before i, going back no further than lo. */
  function WordsBack(text: string, i: int, n: int, lo: nat): (r: int)
    requires i <= |text|
    ensures r <= i
    decreases if n > 0 then n else 0
  {
    if n <= 0 || i <= lo then i
    else WordsBack(text, Back(text, Back(text, i, lo, true), lo, false) + 1, n - 1, lo)
  }

  /** gl_nth_word_start_backward */
  function NthWordStartBackward(e: Edit, n: int): (r: nat)
    requires e.cursor <= |e.text| && e.insertFrom <= e.cursor
    ensures e.insertFrom <= r <= e.cursor
  {
    var p := WordsBack(e.text, e.cursor, n, e.insertFrom);
    if p >= e.insertFrom then p else e.insertFrom
  }

  /** gl_forward_delete_word */
  function ForwardDeleteWord(e: Edit, count: int): Edit
    requires e.cursor <= |e.text|
  {
    var e1 := SaveForUndo(e);
    if e.editor == Emacs then DeleteChars(e1, NthWordEndForward(e1, count) - e1.cursor + 1, true)
    else DeleteChars(e1, NthWordStartForward(e1, count) - e1.cursor, e1.command)
  }

  /** gl_backward_delete_word */
  function BackwardDeleteWord(e: Edit, count: int): Edit
    requires e.cursor <= |e.text| && e.insertFrom <= e.cursor
  {
    var e1 := SaveForUndo(e);
    var e2 := PlaceCursor(e1, NthWordStartBackward(e1, count));
    DeleteChars(e2, e.cursor - e2.cursor, e.editor == Emacs || e.command)
  }

  // ---- Pasting ----

  /** gl_add_string_to_line: nothing is added if there isn't room for it. */
  function AddString(e: Edit, s: string): Edit
    requires e.cursor <= |e.text|
  {
    if |e.text| + |s| > e.room then e
    else e.(text := e.text[..e.cursor] + s + e.text[e.cursor..], cursor := e.cursor + |s|)
  }

  function AddTimes(e: Edit, s: string, n: int): (r: Edit)
    requires e.cursor <= |e.text|
    ensures r.cursor <= |r.text|
    decreases if n > 0 then n else 0
  {
    if n <= 0 then e else AddTimes(AddString(e, s), s, n - 1)
  }

  /** gl_yank */
  function Yank(e: Edit, count: int): Edit
    requires e.cursor <= |e.text|
  {
    var e1 := e.(mark := e.cursor);
    if e.cut == [] then e1
    else
      var e2 := AddTimes(SaveForUndo(e1), e.cut, count);
      if e.editor == Vi then PlaceCursor(e2, e2.cursor - 1) else e2
  }

  /** gl_vi_undo */
  function ViUndo(e: Edit): Edit {
    var c := if e.cursor > |e.undo.text| then |e.undo.text| else e.cursor;
    var p := if c < e.undo.cursor then c else e.undo.cursor;
    e.(text := e.undo.text, cursor := p, undo := e.undo.(text := e.text, cursor := p))
  }

  // ---- The invariant is kept ----

  lemma SliceNoNul(s: string, i: nat, j: nat)
    requires NoNul(s) && i <= j <= |s|
    ensures NoNul(s[i..j]) && NoNul(s[..i] + s[j..])
  {
  }

  lemma PlaceKeeps(e: Edit, pos: int)
    requires WellFormed(e.(cursor := 0))
    ensures WellFormed(PlaceCursor(e, pos))
  {
  }

  lemma SaveKeeps(e: Edit)
    requires WellFormed(e)
    ensures WellFormed(SaveForUndo(e))
  {
  }

  lemma RestoredKeeps(text: string, p: nat, n: nat, undo: string)
    requires p + n <= |text| && NoNul(text) && NoNul(undo)
    ensures NoNul(Restored(text, p, n, undo)) && p <= |Restored(text, p, n, undo)| <= |text|
  {
  }

  lemma DeleteKeeps(e: Edit, nc: int, cut: bool)
    requires WellFormed(e) && (cut ==> nc >= 0)
    ensures WellFormed(DeleteChars(e, nc, cut))
  {
    hide NoNul, Without, PlaceCursor;
    SaveKeeps(e);
    var n := if e.cursor + nc > |e.text| then |e.text| - e.cursor else nc;
    var e1 := SaveForUndo(e);
    if n >= 0 {
      SliceNoNul(e.text, e.cursor, e.cursor + n);
      var e2 := if cut then e1.(cut := e.text[e.cursor..e.cursor + n]) else e1;
      WithoutKeeps(e2, n);
      PlaceKeeps(e2.(text := Without(e2, n)), e.cursor);
    }
  }

  lemma WithoutKeeps(e: Edit, n: nat)
    requires NoNul(e.text) && NoNul(e.undo.text) && e.cursor + n <= |e.text|
    ensures |Without(e, n)| <= |e.text| && NoNul(Without(e, n))
  {
    hide NoNul, Restored;
    SliceNoNul(e.text, e.cursor, e.cursor + n);
    RestoredKeeps(e.text, e.cursor, n, e.undo.text);
  }

  lemma KillKeeps(e: Edit)
    requires WellFormed(e)
    ensures WellFormed(DeleteLine(e)) && WellFormed(KillLine(e))
  {
    SliceNoNul(e.text, e.cursor, |e.text|);
  }

  lemma DeleteWordKeeps(e: Edit, count: int)
    requires WellFormed(e)
    ensures WellFormed(ForwardDeleteWord(e, count))
    ensures e.insertFrom <= e.cursor ==> WellFormed(BackwardDeleteWord(e, count))
  {
    hide NoNul, DeleteChars, WordEnds, WordStarts, WordsBack;
    SaveKeeps(e);
    var e1 := SaveForUndo(e);
    DeleteKeeps(e1, NthWordEndForward(e1, count) - e1.cursor + 1, true);
    DeleteKeeps(e1, NthWordStartForward(e1, count) - e1.cursor, e1.command);
    if e.insertFrom <= e.cursor {
      var e2 := PlaceCursor(e1, NthWordStartBackward(e1, count));
      DeleteKeeps(e2, e.cursor - e2.cursor, e.editor == Emacs || e.command);
    }
  }

  lemma RegionKeeps(e: Edit)
    requires WellFormed(e)
    ensures WellFormed(KillRegion(e))
  {
    hide NoNul, DeleteChars;
    SaveKeeps(e);
    SliceNoNul([], 0, 0);
    var e1 := SaveForUndo(e).(mark := if e.mark > |e.text| then |e.text| else e.mark);
    if e1.mark != e1.cursor {
      var e2 := if e1.mark < e1.cursor then ExchangePointAndMark(e1) else e1;
      DeleteKeeps(e2, e2.mark - e2.cursor, true);
    }
  }

  lemma {:induction false} AddKeeps(e: Edit, s: string, n: int)
    requires WellFormed(e) && NoNul(s)
    ensures WellFormed(AddString(e, s)) && WellFormed(AddTimes(e, s, n))
    decreases if n > 0 then n else 0
  {
    if n > 0 {
      AddKeeps(AddString(e, s), s, n - 1);
    }
  }

  lemma YankKeeps(e: Edit, count: int)
    requires WellFormed(e)
    ensures WellFormed(Yank(e, count))
  {
    hide NoNul, AddTimes;
    AddKeeps(SaveForUndo(e.(mark := e.cursor)), e.cut, count);
  }

  lemma UndoKeeps(e: Edit)
    requires WellFormed(e)
    ensures WellFormed(ViUndo(e))
  {
  }

  // ---- What the searches find ----

  /** Does a word end with character k? */
  predicate IsWordEnd(text: string, k: nat)
    requires k < |text|
  {
    IsWordChar(text[k]) && (k + 1 == |text| || !IsWordChar(text[k + 1]))
  }

  /** Does a word start with character k, when there is nothing before lo? */
  predicate IsWordStart(text: string, lo: nat, k: nat)
    requires lo <= k < |text|
  {
    IsWordChar(text[k]) && (k == lo || !IsWordChar(text[k - 1]))
  }

  /** How many words end between i and j? */
  function EndsIn(text: string, i: nat, j: nat): nat
    requires i <= j <= |text|
  {
    if i == j then 0 else EndsIn(text, i, j - 1) + if IsWordEnd(text, j - 1) then 1 else 0
  }

  /** How many words start between i and j? */
  function StartsIn(text: string, lo: nat, i: nat, j: nat): nat
    requires lo <= i <= j <= |text|
  {
    if i == j then 0 else StartsIn(text, lo, i, j - 1) + if IsWordStart(text, lo, j - 1) then 1 else 0
  }

  lemma {:induction false} EndsJoin(text: string, i: nat, j: nat, k: nat)
    requires i <= j <= k <= |text|
    ensures EndsIn(text, i, k) == EndsIn(text, i, j) + EndsIn(text, j, k)
    decreases k
  {
    if j < k {
      EndsJoin(text, i, j, k - 1);
    }
  }

  lemma {:induction false} NoEnds(text: string, i: nat, j: nat)
    requires i <= j <= |text| && forall k :: i <= k < j ==> !IsWordEnd(text, k)
    ensures EndsIn(text, i, j) == 0
    decreases j
  {
    if i < j {
      NoEnds(text, i, j - 1);
    }
  }

  lemma {:induction false} StartsJoin(text: string, lo: nat, i: nat, j: nat, k: nat)
    requires lo <= i <= j <= k <= |text|
    ensures StartsIn(text, lo, i, k) == StartsIn(text, lo, i, j) + StartsIn(text, lo, j, k)
    decreases k
  {
    if j < k {
      StartsJoin(text, lo, i, j, k - 1);
    }
  }

  lemma {:induction false} NoStarts(text: string, lo: nat, i: nat, j: nat)
    requires lo <= i <= j <= |text| && forall k :: i <= k < j ==> !IsWordStart(text, lo, k)
    ensures StartsIn(text, lo, i, j) == 0
    decreases j
  {
    if i < j {
      NoStarts(text, lo, i, j - 1);
    }
  }

  /** One step forward goes just beyond the end of the next word, or to the end of the line if there is none. */
  lemma NextWordEnd(text: string, i: nat)
    requires i < |text|
    ensures var r := Skip(text, Skip(text, i, false), true);
            && EndsIn(text, i, r) == (if IsWordChar(text[r - 1]) then 1 else 0)
            && (if EndsIn(text, i, r) == 1 then IsWordEnd(text, r - 1) else r == |text|)
  {
    hide IsWordChar;
    var m := Skip(text, i, false);
    var r := Skip(text, m, true);
    SkipFinds(text, i, false);
    SkipFinds(text, m, true);
    if m < r {
      NoEnds(text, i, r - 1);
    } else {
      NoEnds(text, i, r);
    }
  }

  /** The search for n word ends goes just beyond the n'th of them, or to the end of a line that has fewer. */
  lemma {:induction false} WordEndsAre(text: string, i: nat, n: int)
    requires i <= |text|
    ensures var r := WordEnds(text, i, n);
            && EndsIn(text, i, r) <= (if n > 0 then n else 0)
            && (r < |text| && n > 0 ==> EndsIn(text, i, r) == n)
            && (EndsIn(text, i, r) == n > 0 ==> IsWordEnd(text, r - 1))
            && (n <= 0 ==> r == i)
    decreases if n > 0 then n else 0
  {
    hide IsWordChar;
    if n > 0 && i < |text| {
      var m := Skip(text, Skip(text, i, false), true);
      NextWordEnd(text, i);
      WordEndsAre(text, m, n - 1);
      EndsJoin(text, i, m, WordEnds(text, m, n - 1));
    }
  }

  /** One step forward goes to the start of the next word, or to the end of the line if there is none. */
  lemma NextWordStart(text: string, i: nat)
    requires i < |text|
    ensures var r := Skip(text, Skip(text, i, true), false);
            && i < r && StartsIn(text, 0, i + 1, r) == 0 && (r < |text| ==> IsWordStart(text, 0, r))
  {
    hide IsWordChar;
    var m := Skip(text, i, true);
    var r := Skip(text, m, false);
    SkipFinds(text, i, true);
    SkipFinds(text, m, false);
    assert i < r;
    NoStarts(text, 0, i + 1, r);
  }

  /** The search for n word starts goes to the n'th of them beyond i, or to the end of a line that has fewer. */
  lemma {:induction false} WordStartsAre(text: string, i: nat, n: int)
    requires i <= |text|
    ensures var r := WordStarts(text, i, n);
            && (r < |text| && n > 0 ==> i < r && IsWordStart(text, 0, r) && StartsIn(text, 0, i + 1, r) == n - 1)
            && (i < r ==> StartsIn(text, 0, i + 1, r) < n)
            && (n <= 0 ==> r == i)
    decreases if n > 0 then n else 0
  {
    hide IsWordChar;
    if n > 0 && i < |text| {
      var m := Skip(text, Skip(text, i, true), false);
      NextWordStart(text, i);
      WordStartsAre(text, m, n - 1);
      var r := WordStarts(text, m, n - 1);
      if m < r {
        StartsJoin(text, 0, i + 1, m, r);
        StartsJoin(text, 0, m, m + 1, r);
      }
    }
  }

  /** One step back goes to the start of the nearest word before i, or before lo if there is none. */
  lemma PreviousWordStart(text: string, i: nat, lo: nat)
    requires lo < i <= |text|
    ensures var s := Back(text, Back(text, i, lo, true), lo, false) + 1;
            && lo - 1 <= s < i
            && (if s >= lo then IsWordStart(text, lo, s) && StartsIn(text, lo, s, i) == 1
                else StartsIn(text, lo, lo, i) == 0)
  {
    hide IsWordChar;
    var last := Back(text, i, lo, true);
    var s := Back(text, last, lo, false) + 1;
    BackFinds(text, i, lo, true);
    BackFinds(text, last, lo, false);
    if s >= lo {
      assert IsWordChar(text[last]) && s <= last;
      NoStarts(text, lo, s + 1, i);
      StartsJoin(text, lo, s, s + 1, i);
    } else {
      NoStarts(text, lo, lo, i);
    }
  }

  /** The search for n word starts backward goes to the n'th of them before i, or to lo if there are fewer. */
  lemma {:induction false} WordsBackAre(text: string, i: nat, n: int, lo: nat)
    requires lo <= i <= |text|
    ensures var w := WordsBack(text, i, n, lo);
            var r := if w >= lo then w else lo;
            && r <= i && StartsIn(text, lo, r, i) <= (if n > 0 then n else 0)
            && (r > lo && n > 0 ==> StartsIn(text, lo, r, i) == n)
            && (StartsIn(text, lo, r, i) == n > 0 ==> r < i && IsWordStart(text, lo, r))
            && (n <= 0 ==> r == i)
    decreases if n > 0 then n else 0
  {
    hide IsWordChar;
    if n > 0 && i > lo {
      PreviousWordStart(text, i, lo);
      var s := Back(text, Back(text, i, lo, true), lo, false) + 1;
      if s >= lo {
        WordsBackAre(text, s, n - 1, lo);
        var w := WordsBack(text, s, n - 1, lo);
        StartsJoin(text, lo, if w >= lo then w else lo, s, i);
      }
    }
  }

  /** Where the mark is in the line, swapping it with the cursor twice changes nothing. */
  lemma ExchangeTwice(e: Edit)
    requires WellFormed(e) && e.mark <= |e.text|
    requires e.command ==> e.mark < |e.text| && e.cursor < |e.text|
    ensures ExchangePointAndMark(e) == e.(cursor := e.mark, mark := e.cursor)
    ensures ExchangePointAndMark(ExchangePointAndMark(e)) == e
  {
  }

  // ---- Round trips ----

  /** What was cut out of the text at position p is put back by a yank there. */
  lemma PutBack(text: string, p: nat, n: nat)
    requires p + n <= |text|
    ensures var rest := text[..p] + text[p + n..]; rest[..p] + text[p..p + n] + rest[p..] == text
  {
  }

  /** When a cut has left the cursor where the text was. */
  ghost predicate CutAt(e: Edit, e1: Edit, p: nat, n: nat) {
    && p + n <= |e.text| && e1.text == e.text[..p] + e.text[p + n..] && e1.cut == e.text[p..p + n]
    && e1.cursor == p && e1.editor == Emacs && e1.room == e.room && !e1.command
  }

  lemma YankRestores(e: Edit, e1: Edit, p: nat, n: nat)
    requires WellFormed(e) && WellFormed(e1) && CutAt(e, e1, p, n)
    ensures Yank(e1, 1).text == e.text && Yank(e1, 1).cursor == p + n && Yank(e1, 1).mark == p
  {
    PutBack(e.text, p, n);
    assert AddTimes(e1.(mark := p), e1.cut, 1) == AddString(e1.(mark := p), e1.cut);
  }

  lemma DeleteCutsAt(e: Edit, nc: nat)
    requires WellFormed(e) && e.editor == Emacs
    ensures CutAt(e, DeleteChars(e, nc, true), e.cursor, if e.cursor + nc > |e.text| then |e.text| - e.cursor else nc)
  {
    assert e.text[..e.cursor] + e.text[e.cursor..] == e.text;
  }

  /** Is the text of e what a yank gives after it has been cut from? */
  ghost predicate YankUndoes(e: Edit, e1: Edit) {
    e1.cursor <= |e1.text| && Yank(e1, 1).text == e.text
  }

  lemma InEmacs(e: Edit)
    requires WellFormed(e) && e.editor == Emacs
    ensures !e.command && e.insertFrom == 0 && e.cursor <= |e.text| && SaveForUndo(e) == e
    ensures WellFormed(e.(cursor := 0))
  {
  }

  lemma KillThenYank(e: Edit)
    requires WellFormed(e) && e.editor == Emacs
    ensures YankUndoes(e, DeleteLine(e)) && YankUndoes(e, KillLine(e))
  {
    hide NoNul, AddTimes;
    KillKeeps(e);
    var n := |e.text|;
    assert e.text[..0] + e.text[n..] == [] && e.text[0..n] == e.text;
    YankRestores(e, DeleteLine(e), 0, n);
    assert e.text[..e.cursor] + e.text[n..] == e.text[..e.cursor] && e.text[e.cursor..n] == e.text[e.cursor..];
    YankRestores(e, KillLine(e), e.cursor, n - e.cursor);
  }

  lemma WordThenYank(e: Edit, count: int)
    requires WellFormed(e) && e.editor == Emacs
    ensures e.cursor <= |e.text| && e.insertFrom <= e.cursor
    ensures YankUndoes(e, ForwardDeleteWord(e, count)) && YankUndoes(e, BackwardDeleteWord(e, count))
  {
    hide DeleteChars, Yank, WordEnds, WordStarts, WordsBack, NoNul;
    InEmacs(e);
    DeleteWordKeeps(e, count);
    var f := NthWordEndForward(e, count) - e.cursor + 1;
    DeleteCutsAt(e, f);
    YankRestores(e, ForwardDeleteWord(e, count), e.cursor, f);
    var b := PlaceCursor(e, NthWordStartBackward(e, count));
    PlaceKeeps(e, NthWordStartBackward(e, count));
    DeleteCutsAt(b, e.cursor - b.cursor);
    YankRestores(b, BackwardDeleteWord(e, count), b.cursor, e.cursor - b.cursor);
  }

  lemma RegionThenYank(e: Edit)
    requires WellFormed(e) && e.editor == Emacs
    ensures YankUndoes(e, KillRegion(e))
  {
    hide DeleteChars, NoNul, Yank;
    InEmacs(e);
    RegionKeeps(e);
    var e1 := e.(mark := if e.mark > |e.text| then |e.text| else e.mark);
    if e1.mark == e1.cursor {
      YankNothing(KillRegion(e));
    } else {
      var e2 := if e1.mark < e1.cursor then ExchangePointAndMark(e1) else e1;
      DeleteCutsAt(e2, e2.mark - e2.cursor);
      YankRestores(e2, KillRegion(e), e2.cursor, e2.mark - e2.cursor);
    }
  }

  lemma YankNothing(e: Edit)
    requires e.cut == [] && e.cursor <= |e.text|
    ensures Yank(e, 1).text == e.text
  {
  }

  /** In emacs mode, whatever the text, the cursor and the mark, a yank restores the line that a cut was made from. */
  lemma CutThenYank(e: Edit, count: int)
    requires WellFormed(e) && e.editor == Emacs
    ensures e.cursor <= |e.text| && e.insertFrom <= e.cursor
    ensures YankUndoes(e, DeleteLine(e)) && YankUndoes(e, KillLine(e)) && YankUndoes(e, KillRegion(e))
    ensures YankUndoes(e, ForwardDeleteWord(e, count)) && YankUndoes(e, BackwardDeleteWord(e, count))
  {
    hide YankUndoes, DeleteLine, KillLine, KillRegion, ForwardDeleteWord, BackwardDeleteWord, NoNul;
    KillThenYank(e);
    RegionThenYank(e);
    WordThenYank(e, count);
  }

  /** What a yank added is what there is between the mark and the cursor. */
  lemma {:induction false} Added(e: Edit, s: string, n: int)
    requires WellFormed(e)
    ensures var r := AddTimes(e, s, n);
            && e.cursor <= r.cursor <= |r.text| && r.text[..e.cursor] + r.text[r.cursor..] == e.text
            && r == e.(text := r.text, cursor := r.cursor)
    decreases if n > 0 then n else 0
  {
    if n <= 0 {
      assert e.text[..e.cursor] + e.text[e.cursor..] == e.text;
    } else {
      var e1 := AddString(e, s);
      AddedLater(e1, s, n - 1, e.cursor, e1.cursor - e.cursor);
      var r := AddTimes(e, s, n);
      assert e1.text[..e.cursor] + e1.text[e1.cursor..] == e.text;
    }
  }

  /** Characters added at the cursor leave those before and after it alone. */
  lemma {:induction false} AddedLater(e: Edit, s: string, n: int, p: nat, k: nat)
    requires e.cursor == p + k <= |e.text|
    ensures var r := AddTimes(e, s, n);
            && e.cursor <= r.cursor <= |r.text|
            && r.text[..p] == e.text[..p] && r.text[r.cursor..] == e.text[e.cursor..]
            && r == e.(text := r.text, cursor := r.cursor)
    decreases if n > 0 then n else 0
  {
    if n > 0 {
      var e1 := AddString(e, s);
      assert e1.text[..p] == e.text[..p] && e1.text[e1.cursor..] == e.text[e.cursor..];
      AddedLater(e1, s, n - 1, p, e1.cursor - p);
    }
  }

  /** In emacs mode, killing the region undoes a yank, however many copies it inserted. */
  lemma YankThenKill(e: Edit, count: int)
    requires WellFormed(e) && e.editor == Emacs
    ensures var e1 := Yank(e, count);
            && e1.cursor <= |e1.text|
            && KillRegion(e1).text == e.text && KillRegion(e1).cursor == e.cursor
  {
    hide NoNul, AddTimes, KillRegion;
    InEmacs(e);
    var e0 := e.(mark := e.cursor);
    Added(e0, e.cut, count);
    KillBehindMark(Yank(e, count));
  }

  lemma KillBehindMark(e: Edit)
    requires e.editor == Emacs && !e.command && e.mark <= e.cursor <= |e.text|
    ensures KillRegion(e).text == e.text[..e.mark] + e.text[e.cursor..] && KillRegion(e).cursor == e.mark
  {
    if e.mark == e.cursor {
      assert e.text[..e.mark] + e.text[e.mark..] == e.text;
    }
  }

  /** What n undos do. */
  function Undos(e: Edit, n: nat): Edit
    decreases n
  {
    if n == 0 then e else Undos(ViUndo(e), n - 1)
  }

  /** An even number of undos restores the text of the line and that of the undo buffer; an odd number swaps them. */
  lemma {:induction false} UndosSwap(e: Edit, n: nat)
    ensures var e1 := Undos(e, n);
            && e1 == e.(text := e1.text, cursor := e1.cursor,
                        undo := e.undo.(text := e1.undo.text, cursor := e1.undo.cursor))
            && (n % 2 == 0 ==> e1.text == e.text && e1.undo.text == e.undo.text)
            && (n % 2 == 1 ==> e1.text == e.undo.text && e1.undo.text == e.text)
            && e1.cursor <= e.cursor && (n > 0 ==> e1.undo.cursor == e1.cursor)
    decreases n
  {
    if n > 0 {
      UndosSwap(ViUndo(e), n - 1);
    }
  }

  /** In vi command mode, an undo restores the line that any one of these actions changed. */
  lemma UndoAction(e: Edit, count: int)
    requires WellFormed(e) && e.command && !e.undo.saved
    ensures ViUndo(DeleteLine(e)).text == e.text
    ensures ViUndo(KillLine(e)).text == e.text
    ensures ViUndo(KillRegion(e)).text == e.text
    ensures ViUndo(ForwardDeleteWord(e, count)).text == e.text
    ensures e.insertFrom <= e.cursor ==> ViUndo(BackwardDeleteWord(e, count)).text == e.text
    ensures e.cut != [] ==> ViUndo(Yank(e, count)).text == e.text
  {
    hide WordEnds, WordStarts, WordsBack, NoNul;
    var e0 := SaveForUndo(e).(mark := e.cursor);
    AddedLater(e0, e.cut, count, e.cursor, 0);
  }
}
