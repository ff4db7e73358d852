/** The line-editing actions themselves, on NUL-terminated buffers of a fixed size. */
module EditBuffers {
  import opened CStrings
  import opened EditSpec
  import opened Brackets

  /** The contents of a buffer in which s has been copied to position `to`. */
  function Overwritten(a: string, to: nat, s: string): string
    requires to + |s| <= |a|
  {
    a[..to] + s + a[to + |s|..]
  }

  /** memmove() within a buffer. */
  method Move(a: array<char>, to: nat, from: nat, n: nat)
    requires to + n <= a.Length && from + n <= a.Length
    modifies a
    ensures a[..] == Overwritten(old(a[..]), to, old(a[from..from + n]))
  {
    ghost var was := a[..];
    if to < from {
      var i := 0;
      while i < n
        invariant 0 <= i <= n
        invariant forall k :: 0 <= k < a.Length && !(to <= k < to + i) ==> a[k] == was[k]
        invariant forall k :: to <= k < to + i ==> a[k] == was[k - to + from]
      {
        a[to + i] := a[from + i];
        i := i + 1;
      }
    } else {
      var i := n;
      while i > 0
        invariant 0 <= i <= n
        invariant forall k :: 0 <= k < a.Length && !(to + i <= k < to + n) ==> a[k] == was[k]
        invariant forall k :: to + i <= k < to + n ==> a[k] == was[k - to + from]
      {
        i := i - 1;
        a[to + i] := a[from + i];
      }
    }
    OverwrittenIs(was, a[..], to, was[from..from + n]);
  }

  lemma OverwrittenIs(was: string, a: string, to: nat, s: string)
    requires to + |s| <= |was| == |a|
    requires forall k :: 0 <= k < |a| && !(to <= k < to + |s|) ==> a[k] == was[k]
    requires forall k :: to <= k < to + |s| ==> a[k] == s[k - to]
    ensures a == Overwritten(was, to, s)
  {
  }

  /** memcpy() from one buffer to another, and strcpy() given the length of the string. */
  method Copy(dst: array<char>, to: nat, src: array<char>, from: nat, n: nat)
    requires dst != src && to + n <= dst.Length && from + n <= src.Length
    modifies dst
    ensures dst[..] == Overwritten(old(dst[..]), to, src[from..from + n])
  {
    ghost var was := dst[..];
    var i := 0;
    while i < n
      invariant 0 <= i <= n
      invariant forall k :: 0 <= k < dst.Length && !(to <= k < to + i) ==> dst[k] == was[k]
      invariant forall k :: to <= k < to + i ==> dst[k] == src[k - to + from]
    {
      dst[to + i] := src[from + i];
      i := i + 1;
    }
    OverwrittenIs(was, dst[..], to, src[from..from + n]);
  }

  /** strlen() of what starts at a[from] and ends at a[end]. */
  method Length(a: array<char>, from: nat, ghost end: nat) returns (n: nat)
    requires from <= end < a.Length && a[end] == NUL && forall i :: from <= i < end ==> a[i] != NUL
    ensures n == end - from
  {
    n := 0;
    while a[from + n] != NUL
      invariant 0 <= n <= end - from
      decreases end - from - n
    {
      n := n + 1;
    }
  }

  /** A buffer that holds a string of n characters and its terminator. */
  ghost predicate Holds(a: string, n: nat) {
    n < |a| && a[n] == NUL && NoNul(a[..n])
  }

  /** The text t, with s written over it from position p on. */
  function Over(t: string, p: nat, s: string): string
    requires p <= |t|
  {
    t[..p] + s + (if p + |s| < |t| then t[p + |s|..] else [])
  }

  /** As much of a string as there is room for. */
  function Fitting(s: string, room: int): string {
    if |s| <= room then s else if room < 0 then [] else s[..room]
  }

  lemma OverNothing(t: string, p: nat)
    requires p <= |t|
    ensures Over(t, p, []) == t
  {
  }

  lemma OverOneMore(t: string, p: nat, s: string, i: nat)
    requires p <= |t| && i < |s|
    ensures var r, r' := Over(t, p, s[..i]), Over(t, p, s[..i + 1]);
            p + i <= |r| && r' == if p + i == |r| then r + [s[i]] else r[p + i := s[i]]
  {
    assert s[..i + 1] == s[..i] + [s[i]];
  }

  lemma RestoredIs(t: string, p: nat, nc: nat, u: string)
    requires 0 < nc && p + nc <= |t|
    ensures p + nc <= |u| ==> Over(t, p, u[p..p + nc]) == Restored(t, p, nc, u)
    ensures p < |u| < p + nc ==> |Over(t, p, u[p..|u|])| == |t| && Over(t, p, u[p..|u|])[..|u|] == Restored(t, p, nc, u)
    ensures |u| <= p ==> t[..p] == Restored(t, p, nc, u)
  {
    if p + nc <= |u| {
      assert p + nc == |t| ==> t[p + nc..] == [];
    } else if p < |u| {
      assert u[p..|u|] == u[p..];
      assert (t[..p] + u[p..] + t[|u|..])[..|u|] == t[..p] + u[p..];
    }
  }

  /** Moving the end of a line of n characters, with its terminator, up by k characters. */
  lemma GapMade(a: string, n: nat, start: nat, k: nat)
    requires start <= n && n + k < |a|
    ensures var b := Overwritten(a, start + k, a[start..n + 1]);
            |b| == |a| && b[n + k] == a[n] && b[..n + k][..start] == a[..n][..start]
            && b[..n + k][start + k..] == a[..n][start..]
  {
    var b := Overwritten(a, start + k, a[start..n + 1]);
    assert b[start + k..n + k + 1] == a[start..n + 1];
    assert b[n + k] == b[start + k..n + k + 1][n - start];
    assert b[..n + k][start + k..] == b[start + k..n + k + 1][..n - start];
    assert a[..n][start..] == a[start..n + 1][..n - start];
  }

  /** Moving it down by k characters. */
  lemma Removed(a: string, n: nat, start: nat, k: nat)
    requires start + k <= n < |a|
    ensures var b := Overwritten(a, start, a[start + k..n + 1]);
            |b| == |a| && b[n - k] == a[n] && b[..n - k] == a[..n][..start] + a[..n][start + k..]
  {
    var b := Overwritten(a, start, a[start + k..n + 1]);
    assert b[start..n - k + 1] == a[start + k..n + 1];
    assert b[n - k] == b[start..n - k + 1][n - k - start];
    assert b[..n - k] == b[..start] + b[start..n - k + 1][..n - k - start];
    assert a[..n][start + k..] == a[start + k..n + 1][..n - k - start];
  }

  /** Two buffers that held t and u, of which the first i characters have been swapped. */
  ghost predicate Swapped(a: string, b: string, t: string, u: string, i: nat) {
    && |a| == |b| == |t| == |u| && i <= |t|
    && a[..i] == u[..i] && a[i..] == t[i..] && b[..i] == t[..i] && b[i..] == u[i..]
  }

  lemma SwappedNone(t: string, u: string)
    requires |t| == |u|
    ensures Swapped(t, u, t, u, 0)
  {
  }

  lemma SwapOne(a: string, b: string, t: string, u: string, i: nat)
    requires Swapped(a, b, t, u, i) && i < |t|
    ensures |a| == |b| == |t| == |u| && a[i] == t[i] && b[i] == u[i]
    ensures Swapped(a[i := b[i]], b[i := a[i]], t, u, i + 1)
  {
    assert a[i..][0] == a[i] && b[i..][0] == b[i];
    var a', b' := a[i := b[i]], b[i := a[i]];
    assert a'[..i + 1] == a[..i] + [u[i]] && b'[..i + 1] == b[..i] + [t[i]];
    assert a'[i + 1..] == a[i..][1..] && b'[i + 1..] == b[i..][1..];
  }

  lemma SwappedParts(a: string, b: string, t: string, u: string, i: nat)
    requires Swapped(a, b, t, u, i)
    ensures |a| == |b| == |t| == |u| && i <= |t|
    ensures a[..i] == u[..i] && a[i..] == t[i..] && b[..i] == t[..i] && b[i..] == u[i..]
  {
  }

  lemma EndAt(a: string, i: nat)
    requires i < |a| && NoNul(a[..i])
    ensures Holds(a[i := NUL], i) && a[i := NUL][..i] == a[..i]
  {
  }

  /** Filling a gap that has been made in t. */
  lemma OverGap(t: string, t': string, p: nat, s: string)
    requires p <= |t| && p <= |t'| && t'[..p] == t[..p]
    requires if |t| > p then |t'| == |t| + |s| && t'[p + |s|..] == t[p..] else |t'| == |t|
    ensures Over(t', p, s) == t[..p] + s + t[p..]
  {
  }

  /** Copying what follows position i completes the copy of a string of n characters. */
  lemma CopiedRest(dst: string, t: string, src: string, i: nat, n: nat)
    requires i <= n < |t| == |src| == |dst| && NoNul(t[..n])
    requires dst[..i] == t[..i] && src[i..] == t[i..]
    ensures NoNul(src[i..n]) && src[n] == t[n]
    ensures var r := Overwritten(dst, i, src[i..n] + [NUL]); r[..n] == t[..n] && Holds(r, n)
  {
    assert src[i..n] == src[i..][..n - i] == t[i..n];
    assert t[..n] == t[..i] + t[i..n];
    assert forall k :: i <= k < n ==> t[k] == t[..n][k];
    assert src[i..][n - i] == t[i..][n - i];
    var r := Overwritten(dst, i, src[i..n] + [NUL]);
    assert r[..n] == t[..i] + t[i..n];
  }

  /** strcpy() of the string of n characters that starts at src[from]. */
  method CopyString(dst: array<char>, to: nat, src: array<char>, from: nat, ghost n: nat)
    requires dst != src && from + n < src.Length && to + n < dst.Length
    requires src[from + n] == NUL && NoNul(src[from..from + n])
    modifies dst
    ensures dst[..] == Overwritten(old(dst[..]), to, src[from..from + n] + [NUL])
  {
    assert forall i :: from <= i < from + n ==> src[i] == src[from..from + n][i - from];
    var len := Length(src, from, from + n);
    Copy(dst, to, src, from, len + 1);
    assert src[from..from + n + 1] == src[from..from + n] + [NUL];
  }

  class EditBuffer {
    const linelen: nat
    const line: array<char>
    const cutbuf: array<char>
    const undoLine: array<char>
    var ntotal: nat
    var curpos: nat
    var mark: nat
    var editor: Editor
    var insert: bool
    var insertCurpos: nat
    var command: bool
    var undoNtotal: nat
    var undoCurpos: nat
    var undoSaved: bool
    ghost var ncut: nat

    ghost predicate Buffers() {
      && line != cutbuf && line != undoLine && cutbuf != undoLine
      && line.Length == linelen + 2 && cutbuf.Length == linelen + 2 && undoLine.Length == linelen + 2
    }

    /** The line has a length, and ends there. */
    ghost predicate Ends()
      reads `ntotal, line
    {
      Buffers() && ntotal <= linelen && line[ntotal] == NUL
    }

    ghost predicate Valid()
      reads this, line, cutbuf, undoLine
    {
      && Buffers()
      && ntotal <= linelen && Holds(line[..], ntotal)
      && ncut <= linelen && Holds(cutbuf[..], ncut)
      && undoNtotal <= linelen && Holds(undoLine[..], undoNtotal)
      && curpos <= ntotal && (command || insertCurpos > 0 ==> editor == Vi)
    }

    ghost function Text(): string
      requires Ends()
      reads `ntotal, line
    {
      line[..ntotal]
    }

    ghost function View(): (e: Edit)
      requires Valid()
      reads this, line, cutbuf, undoLine
      ensures WellFormed(e)
    {
      Edit(linelen, line[..ntotal], curpos, mark, cutbuf[..ncut], editor, insert, insertCurpos, command,
           Undo(undoLine[..undoNtotal], undoCurpos, undoSaved))
    }

    constructor (linelen: nat)
      ensures Valid() && View() == Edit(linelen, [], 0, 0, [], Emacs, true, 0, false, Undo([], 0, false))
      ensures fresh(line) && fresh(cutbuf) && fresh(undoLine)
    {
      this.linelen := linelen;
      line, cutbuf, undoLine := new char[linelen + 2], new char[linelen + 2], new char[linelen + 2];
      ntotal, curpos, mark, editor, insert, insertCurpos, command := 0, 0, 0, Emacs, true, 0, false;
      undoNtotal, undoCurpos, undoSaved, ncut := 0, 0, false, 0;
      new;
      line[0], cutbuf[0], undoLine[0] := NUL, NUL, NUL;
    }

    // ---- Buffer primitives ----

    /** gl_buffer_char */
    method BufferChar(c: char, bufpos: nat) returns (full: bool)
      requires Ends()
      modifies line, `ntotal
      ensures Ends() && full == (bufpos >= linelen)
      ensures full ==> ntotal == old(ntotal) && line[..] == old(line[..])
      ensures !full ==> ntotal == (if bufpos >= old(ntotal) then bufpos + 1 else old(ntotal))
      ensures !full ==> line[..] == if bufpos >= old(ntotal) then old(line[..])[bufpos := c][bufpos + 1 := NUL]
                                    else old(line[..])[bufpos := c]
      ensures !full && bufpos <= old(ntotal) ==>
                Text() == if bufpos == old(ntotal) then old(Text()) + [c] else old(Text())[bufpos := c]
    {
      if bufpos >= linelen {
        return true;
      }
      line[bufpos] := c;
      if bufpos >= ntotal {
        ntotal := bufpos + 1;
        line[ntotal] := NUL;
      }
      return false;
    }

    /** gl_buffer_string: what doesn't fit is left out. */
    method BufferString(s: string, bufpos: nat) returns (truncated: bool)
      requires Ends()
      modifies line, `ntotal
      ensures Ends() && truncated == (bufpos + |s| > linelen)
      ensures bufpos <= old(ntotal) ==> Text() == Over(old(Text()), bufpos, Fitting(s, linelen - bufpos))
      ensures old(ntotal) < bufpos < linelen && s != [] ==>
                ntotal == bufpos + |Fitting(s, linelen - bufpos)| && Text()[bufpos..] == Fitting(s, linelen - bufpos)
      ensures bufpos >= linelen || s == [] ==> Text() == old(Text())
    {
      ghost var was := Text();
      var nnew := if bufpos + |s| <= linelen then |s| else linelen - bufpos;
      var i := 0;
      if bufpos <= |was| {
        OverNothing(was, bufpos);
      }
      while i < nnew
        invariant 0 <= i && (i <= nnew || i == 0) && Ends()
        invariant i == 0 ==> ntotal == |was| && Text() == was
        invariant bufpos <= |was| ==> bufpos + i <= ntotal && Text() == Over(was, bufpos, s[..i])
        invariant bufpos > |was| && i > 0 ==> ntotal == bufpos + i && Text()[bufpos..] == s[..i]
      {
        var full := BufferChar(s[i], bufpos + i);
        if bufpos <= |was| {
          OverOneMore(was, bufpos, s, i);
        } else {
          assert s[..i + 1] == s[..i] + [s[i]];
        }
        i := i + 1;
      }
      assert s[..|s|] == s;
      return nnew < |s|;
    }

    /** gl_make_gap_in_buffer: what it returns says nothing. */
    method MakeGapInBuffer(start: nat, n: nat) returns (r: bool)
      requires Ends() && start <= ntotal
      modifies line, `ntotal
      ensures Ends() && r && ntotal == if old(ntotal) + n > linelen then old(ntotal) else old(ntotal) + n
      ensures old(ntotal) + n > linelen ==> Text() == old(Text())
      ensures old(ntotal) + n <= linelen ==>
              Text()[..start] == old(Text())[..start] && Text()[start + n..] == old(Text())[start..]
    {
      if ntotal + n > linelen {
        return true;
      }
      ghost var was := line[..];
      GapMade(was, ntotal, start, n);
      Move(line, start + n, start, ntotal - start + 1);
      ntotal := ntotal + n;
      return true;
    }

    /** gl_remove_from_buffer */
    method RemoveFromBuffer(start: nat, n: nat)
      requires Ends() && start + n <= ntotal
      modifies line, `ntotal
      ensures Ends() && Text() == old(Text())[..start] + old(Text())[start + n..]
    {
      ghost var was := line[..];
      Removed(was, ntotal, start, n);
      Move(line, start, start + n, ntotal - start - n + 1);
      ntotal := ntotal - n;
    }

    /** gl_truncate_buffer */
    method TruncateBuffer(n: nat) returns (error: bool)
      requires Buffers()
      modifies line, `ntotal
      ensures error == (n > linelen) && (error ==> ntotal == old(ntotal) && line[..] == old(line[..]))
      ensures !error ==> Ends() && ntotal == n && Text() == old(line[..])[..n]
    {
      if n > linelen {
        return true;
      }
      ghost var was := line[..];
      line[n] := NUL;
      ntotal := n;
      assert Text() == was[..n];
      return false;
    }

    /** gl_update_buffer: only a string that is terminated in time leaves the line as long as it may be. */
    method UpdateBuffer()
      requires Buffers()
      modifies line, `ntotal, `curpos
      ensures var was := old(line[..linelen + 1]);
              && ntotal == (if NUL in was then StrLen(was) else linelen + 1)
              && line[..] == old(line[..])[ntotal := NUL]
      ensures curpos == if old(curpos) > ntotal then ntotal else old(curpos)
    {
      ghost var was := line[..linelen + 1];
      var len := 0;
      while len <= linelen && line[len] != NUL
        invariant 0 <= len <= linelen + 1 && line[..linelen + 1] == was && line[..] == old(line[..])
        invariant forall i :: 0 <= i < len ==> was[i] != NUL
      {
        len := len + 1;
      }
      if len <= linelen {
        assert was[len] == NUL;
        StrLenUnique(was, len);
      }
      line[len] := NUL;
      ntotal := len;
      if curpos > ntotal {
        curpos := ntotal;
      }
    }

    // ---- Actions ----

    /** gl_place_cursor */
    method PlaceCursor(pos: int)
      requires Valid()
      modifies `curpos
      ensures Valid() && View() == EditSpec.PlaceCursor(old(View()), pos)
    {
      var p := pos;
      if p >= ntotal {
        p := if command then ntotal - 1 else ntotal;
      }
      if p < 0 {
        p := 0;
      }
      curpos := p;
    }

    /** gl_save_for_undo */
    method SaveForUndo()
      requires Valid()
      modifies undoLine, `undoNtotal, `undoCurpos, `undoSaved
      ensures Valid() && View() == EditSpec.SaveForUndo(old(View()))
    {
      if command && !undoSaved {
        CopyString(undoLine, 0, line, 0, ntotal);
        undoCurpos := curpos;
        undoNtotal := ntotal;
        undoSaved := true;
      }
    }

    /** In vi overwrite mode, put back what was there before the characters that are to be deleted. */
    method RestoreChars(nc: nat)
      requires Valid() && 0 < nc && curpos + nc <= ntotal
      modifies line, `ntotal
      ensures Ends() && Text() == Restored(old(Text()), curpos, nc, old(View()).undo.text)
    {
      hide Restored, Over, NoNul, WellFormed;
      ghost var t, u := Text(), undoLine[..undoNtotal];
      RestoredIs(t, curpos, nc, u);
      var nrestore := if curpos + nc <= undoNtotal then nc else undoNtotal - curpos;
      if nrestore > 0 {
        SliceOfTake(undoLine[..], undoNtotal, curpos, curpos + nrestore);
        assert undoLine[..][..undoNtotal] == u;
        var truncated := BufferString(undoLine[curpos..curpos + nrestore], curpos);
      }
      if nc != nrestore {
        var n := if undoNtotal > curpos then undoNtotal else curpos;
        assert Text()[..n] == line[..][..n];
        var error := TruncateBuffer(n);
      }
    }

    lemma ValidText()
      requires Valid()
      ensures Ends() && NoNul(Text()) && View().text == Text() && |Text()| == ntotal
      ensures View().cursor == curpos <= ntotal
      ensures View().room == linelen && View().command == command && View().editor == editor && View().insert == insert
      ensures View().cut == cutbuf[..ncut] && View().mark == mark && View().insertFrom == insertCurpos
    {
    }

    /** Take characters out of the line, from the cursor on. */
    method RemoveChars(nc: nat)
      requires Valid() && 0 < nc && curpos + nc <= ntotal
      modifies line, `ntotal
      ensures Valid()
      ensures View() == old(View()).(text := Without(old(View()), nc))
    {
      hide NoNul, Restored;
      ghost var e := View();
      SliceNoNul(e.text, curpos, curpos + nc);
      RestoredKeeps(e.text, curpos, nc, e.undo.text);
      if editor == Vi && !command && !insert {
        RestoreChars(nc);
      } else {
        RemoveFromBuffer(curpos, nc);
      }
    }

    /** Copy part of the line to the cut buffer. */
    method Cut(from: nat, n: nat)
      requires Valid() && from + n <= ntotal
      modifies cutbuf, `ncut
      ensures Valid() && View() == old(View()).(cut := old(View()).text[from..from + n])
    {
      ghost var t := Text();
      SliceNoNul(t, from, from + n);
      SliceOfTake(line[..], ntotal, from, from + n);
      assert line[..][..ntotal] == t;
      Copy(cutbuf, 0, line, from, n);
      assert cutbuf[..][..n] == line[..][from..from + n];
      cutbuf[n] := NUL;
      ncut := n;
      assert cutbuf[..n] == t[from..from + n];
    }

    static lemma SavedUndo(e: Edit)
      ensures EditSpec.SaveForUndo(e) == e.(undo := EditSpec.SaveForUndo(e).undo)
    {
    }

    /** gl_delete_chars */
    method DeleteChars(count: int, cut: bool)
      requires Valid() && (cut ==> count >= 0)
      modifies this, line, cutbuf, undoLine
      ensures Valid() && View() == EditSpec.DeleteChars(old(View()), count, cut)
    {
      hide Valid, View, Without, EditSpec.PlaceCursor, EditSpec.SaveForUndo;
      ValidText();
      SavedUndo(View());
      SaveForUndo();
      ValidText();
      var nc := count;
      if curpos + nc > ntotal {
        nc := ntotal - curpos;
      }
      if cut {
        Cut(curpos, nc);
      }
      if nc <= 0 {
        return;
      }
      ValidText();
      RemoveChars(nc);
      ValidText();
      PlaceCursor(curpos);
    }

    /** gl_delete_line */
    method DeleteLine()
      requires Valid()
      modifies this, line, cutbuf, undoLine
      ensures Valid() && View() == EditSpec.DeleteLine(old(View()))
    {
      hide EditSpec.SaveForUndo;
      SaveForUndo();
      CutString(0);
      Truncate(0);
      PlaceCursor(0);
    }

    /** gl_kill_line */
    method KillLine()
      requires Valid()
      modifies this, line, cutbuf, undoLine
      ensures Valid() && View() == EditSpec.KillLine(old(View()))
    {
      hide EditSpec.SaveForUndo;
      SaveForUndo();
      CutString(curpos);
      Truncate(curpos);
      PlaceCursor(curpos);
    }

    /** Copy the rest of the line to the cut buffer. */
    method CutString(from: nat)
      requires Valid() && from <= ntotal
      modifies cutbuf, `ncut
      ensures Valid() && View() == old(View()).(cut := old(View()).text[from..])
    {
      ghost var t, n := Text(), ntotal - from;
      SliceNoNul(t, from, ntotal);
      assert line[from..from + n] == t[from..];
      CopyString(cutbuf, 0, line, from, n);
      ncut := n;
      assert cutbuf[..n] == t[from..] && cutbuf[n] == NUL;
    }

    /** Shorten the line; the cursor is left to be placed. */
    method Truncate(n: nat)
      requires Valid() && n <= ntotal
      modifies line, `ntotal, `curpos
      ensures Valid()
      ensures View()
            == old(View()).(text := old(View()).text[..n], cursor := if old(curpos) > n then n else old(curpos))
    {
      ghost var t := Text();
      SliceNoNul(t, 0, n);
      assert t[0..n] == t[..n] == line[..][..n];
      var error := TruncateBuffer(n);
      curpos := if curpos > n then n else curpos;
    }

    /** gl_exchange_point_and_mark */
    method ExchangePointAndMark()
      requires Valid()
      modifies `curpos, `mark
      ensures Valid() && View() == EditSpec.ExchangePointAndMark(old(View()))
    {
      var oldMark := if mark <= ntotal then mark else ntotal;
      mark := curpos;
      PlaceCursor(oldMark);
    }

    /** gl_kill_region */
    method KillRegion()
      requires Valid()
      modifies this, line, cutbuf, undoLine
      ensures Valid() && View() == EditSpec.KillRegion(old(View()))
    {
      hide Valid, View, EditSpec.SaveForUndo, EditSpec.DeleteChars;
      ValidText();
      SavedUndo(View());
      SaveForUndo();
      ValidText();
      if mark > ntotal {
        SetMark(ntotal);
      }
      ValidText();
      if mark == curpos {
        ClearCut();
        return;
      }
      if mark < curpos {
        ExchangePointAndMark();
        ValidText();
      }
      DeleteChars(mark - curpos, true);
      ValidText();
      SetMark(curpos);
    }

    method SetMark(pos: nat)
      requires Valid()
      modifies `mark
      ensures Valid() && View() == old(View()).(mark := pos)
    {
      hide NoNul, WellFormed;
      mark := pos;
    }

    /** Clear the cut buffer. */
    method ClearCut()
      requires Valid()
      modifies cutbuf, `ncut
      ensures Valid() && View() == old(View()).(cut := [])
    {
      hide WellFormed;
      cutbuf[0] := NUL;
      ncut := 0;
    }

    // ---- Words ----

    /** gl_nth_word_end_forward */
    method NthWordEndForward(n: int) returns (r: int)
      requires Valid()
      ensures r == EditSpec.NthWordEndForward(View(), n)
    {
      hide Skip, NoNul, WellFormed, EditSpec.IsWordChar;
      ghost var text := Text();
      var bufpos: nat := curpos + 1;
      if bufpos >= ntotal {
        return ntotal - 1;
      }
      var i := 0;
      while i < n && bufpos < ntotal
        invariant 0 <= i && bufpos <= ntotal
        invariant WordEnds(text, bufpos, n - i) == WordEnds(text, curpos + 1, n)
      {
        bufpos := SkipForward(bufpos, false);
        bufpos := SkipForward(bufpos, true);
        i := i + 1;
      }
      return if bufpos > 0 then bufpos - 1 else bufpos;
    }

    /** gl_nth_word_start_forward */
    method NthWordStartForward(n: int) returns (bufpos: nat)
      requires Valid()
      ensures bufpos == EditSpec.NthWordStartForward(View(), n)
    {
      hide Skip, NoNul, WellFormed, EditSpec.IsWordChar;
      ghost var text := Text();
      bufpos := curpos;
      var i := 0;
      while i < n && bufpos < ntotal
        invariant 0 <= i && bufpos <= ntotal
        invariant WordStarts(text, bufpos, n - i) == WordStarts(text, curpos, n)
      {
        bufpos := SkipForward(bufpos, true);
        bufpos := SkipForward(bufpos, false);
        i := i + 1;
      }
    }

    /** Skip characters that are (or aren't) in words. */
    method SkipForward(from: nat, word: bool) returns (bufpos: nat)
      requires Valid() && from <= ntotal
      ensures bufpos <= ntotal && bufpos == Skip(Text(), from, word)
    {
      hide NoNul, WellFormed, EditSpec.IsWordChar;
      bufpos := from;
      while bufpos < ntotal && EditSpec.IsWordChar(line[bufpos]) == word
        invariant from <= bufpos <= ntotal && Skip(Text(), bufpos, word) == Skip(Text(), from, word)
      {
        bufpos := bufpos + 1;
      }
    }

    /** gl_nth_word_start_backward */
    method NthWordStartBackward(n: int) returns (r: nat)
      requires Valid() && insertCurpos <= curpos
      ensures r == EditSpec.NthWordStartBackward(View(), n)
    {
      hide Back, NoNul, WellFormed, EditSpec.IsWordChar;
      ghost var text := Text();
      var bufpos: int := curpos;
      var i := 0;
      while i < n && bufpos > insertCurpos
        invariant 0 <= i && bufpos <= curpos
        invariant WordsBack(text, bufpos, n - i, insertCurpos) == WordsBack(text, curpos, n, insertCurpos)
      {
        bufpos := SearchBack(bufpos, true);
        bufpos := SearchBack(bufpos, false);
        bufpos := bufpos + 1;
        i := i + 1;
      }
      return if bufpos >= insertCurpos then bufpos else insertCurpos;
    }

    /** Go back to the nearest character that is (or isn't) in a word. */
    method SearchBack(from: int, word: bool) returns (bufpos: int)
      requires Valid() && from <= ntotal
      ensures bufpos == Back(Text(), from, insertCurpos, word)
    {
      hide NoNul, WellFormed, EditSpec.IsWordChar;
      bufpos := from - 1;
      while bufpos >= insertCurpos && EditSpec.IsWordChar(line[bufpos]) != word
        invariant bufpos < from
        invariant Back(Text(), bufpos + 1, insertCurpos, word) == Back(Text(), from, insertCurpos, word)
        decreases bufpos + 1 - insertCurpos
      {
        bufpos := bufpos - 1;
      }
    }

    /** gl_forward_delete_word */
    method ForwardDeleteWord(count: int)
      requires Valid()
      modifies this, line, cutbuf, undoLine
      ensures Valid() && View() == EditSpec.ForwardDeleteWord(old(View()), count)
    {
      hide EditSpec.SaveForUndo, EditSpec.DeleteChars, WordEnds, WordStarts;
      SaveForUndo();
      if editor == Emacs {
        var end := NthWordEndForward(count);
        DeleteChars(end - curpos + 1, true);
      } else {
        var start := NthWordStartForward(count);
        DeleteChars(start - curpos, command);
      }
    }

    /** gl_backward_delete_word */
    method BackwardDeleteWord(count: int)
      requires Valid() && insertCurpos <= curpos
      modifies this, line, cutbuf, undoLine
      ensures Valid() && View() == EditSpec.BackwardDeleteWord(old(View()), count)
    {
      hide EditSpec.DeleteChars, WordsBack;
      var buffCurpos := curpos;
      SaveForUndo();
      var start := NthWordStartBackward(count);
      PlaceCursor(start);
      DeleteChars(buffCurpos - curpos, editor == Emacs || command);
    }

    // ---- Pasting ----

    /** gl_add_string_to_line */
    method AddStringToLine(s: array<char>, ghost n: nat)
      requires Valid() && s != line && n < s.Length && Holds(s[..], n)
      modifies line, `ntotal, `curpos
      ensures Valid() && View() == AddString(old(View()), s[..n])
    {
      hide NoNul, WellFormed;
      AddKeeps(View(), s[..n], 1);
      StringEnds(s[..], n);
      var slen := Length(s, 0, n);
      if ntotal + slen > linelen {
        return;
      }
      InsertText(s[..slen]);
      curpos := curpos + slen;
    }

    /** Insert characters at the cursor, for which there is room. */
    method InsertText(s: string)
      requires Ends() && curpos <= ntotal && ntotal + |s| <= linelen
      modifies line, `ntotal
      ensures Ends() && Text() == old(Text())[..curpos] + s + old(Text())[curpos..]
    {
      hide Over;
      ghost var t := Text();
      if ntotal > curpos {
        var r := MakeGapInBuffer(curpos, |s|);
      }
      ghost var t' := Text();
      var truncated := BufferString(s, curpos);
      OverGap(t, t', curpos, s);
    }

    static lemma StringEnds(s: string, n: nat)
      requires Holds(s, n)
      ensures n < |s| && s[n] == NUL && NoNul(s[..n]) && forall i :: 0 <= i < n ==> s[i] != NUL
    {
      assert forall i :: 0 <= i < n ==> s[i] == s[..n][i];
    }

    /** gl_yank */
    method Yank(count: int)
      requires Valid()
      modifies this, line, undoLine
      ensures Valid() && View() == EditSpec.Yank(old(View()), count)
    {
      hide Valid, View, NoNul, WellFormed, AddString, EditSpec.SaveForUndo, EditSpec.PlaceCursor;
      ValidText();
      SetMark(curpos);
      CutStarts();
      if cutbuf[0] == NUL {
        return;
      }
      SavedUndo(View());
      SaveForUndo();
      ValidText();
      ghost var e := View();
      var i := 0;
      while i < count
        invariant 0 <= i && Valid() && View().cut == e.cut && View().editor == e.editor
        invariant View().cursor <= |View().text|
        invariant AddTimes(View(), e.cut, count - i) == AddTimes(e, e.cut, count)
      {
        CutStarts();
        AddedOnce(View(), e.cut);
        AddStringToLine(cutbuf, ncut);
        ValidText();
        i := i + 1;
      }
      ValidText();
      if editor == Vi {
        PlaceCursor(curpos - 1);
      }
    }

    lemma CutStarts()
      requires Valid()
      ensures cutbuf[0] == NUL <==> View().cut == []
      ensures cutbuf != line && ncut < cutbuf.Length && Holds(cutbuf[..], ncut) && cutbuf[..ncut] == View().cut
    {
      StringEnds(cutbuf[..], ncut);
    }

    static lemma AddedOnce(e: Edit, s: string)
      requires e.cursor <= |e.text|
      ensures AddString(e, s) == e.(text := AddString(e, s).text, cursor := AddString(e, s).cursor)
    {
    }

    // ---- Undo ----

    /** gl_vi_undo */
    method ViUndo()
      requires Valid()
      modifies this, line, undoLine
      ensures Valid() && View() == EditSpec.ViUndo(old(View()))
    {
      hide Valid, View;
      ExchangeTexts();
      PlaceBoth();
    }

    /** Put both cursors where the first of them is. */
    method PlaceBoth()
      requires Valid()
      modifies `curpos, `undoCurpos
      ensures Valid()
      ensures var e := old(View());
              var p := if e.cursor < e.undo.cursor then e.cursor else e.undo.cursor;
              View() == e.(cursor := p, undo := e.undo.(cursor := p))
    {
      hide NoNul, WellFormed;
      if curpos < undoCurpos {
        undoCurpos := curpos;
      } else {
        curpos := undoCurpos;
      }
    }

    /** Swap the texts, and measure them. */
    method ExchangeTexts()
      requires Valid()
      modifies line, undoLine, `ntotal, `curpos, `undoNtotal
      ensures Valid()
      ensures var e := old(View());
              View() == e.(text := e.undo.text, undo := e.undo.(text := e.text),
                           cursor := if e.cursor > |e.undo.text| then |e.undo.text| else e.cursor)
    {
      hide NoNul, WellFormed;
      SwapTexts();
      Measured(line[..], undoNtotal, linelen);
      undoNtotal := ntotal;
      UpdateBuffer();
    }

    static lemma Measured(a: string, n: nat, linelen: nat)
      requires Holds(a, n) && n <= linelen && linelen + 1 <= |a|
      ensures NUL in a[..linelen + 1] && StrLen(a[..linelen + 1]) == n && a[n := NUL] == a
    {
      StringEnds(a, n);
      assert a[..linelen + 1][..n] == a[..n];
      StrLenUnique(a[..linelen + 1], n);
    }

    /** Swap the text of the line with the one in the undo buffer. */
    method SwapTexts()
      requires Valid()
      modifies line, undoLine
      ensures Holds(line[..], undoNtotal) && line[..undoNtotal] == old(undoLine[..undoNtotal])
      ensures Holds(undoLine[..], ntotal) && undoLine[..ntotal] == old(line[..ntotal])
    {
      hide Holds, NoNul, Swapped, Overwritten, WellFormed;
      ghost var t, u := line[..], undoLine[..];
      StringEnds(t, ntotal);
      StringEnds(u, undoNtotal);
      SwappedNone(t, u);
      var i := 0;
      while undoLine[i] != NUL && line[i] != NUL
        invariant 0 <= i <= ntotal && i <= undoNtotal
        invariant Swapped(line[..], undoLine[..], t, u, i)
        decreases ntotal - i
      {
        SwapOne(line[..], undoLine[..], t, u, i);
        line[i], undoLine[i] := undoLine[i], line[i];
        i := i + 1;
      }
      SwapOne(line[..], undoLine[..], t, u, i);
      SwappedParts(line[..], undoLine[..], t, u, i);
      if ntotal > undoNtotal {
        CopiedRest(undoLine[..], t, line[..], i, ntotal);
        CopyString(undoLine, i, line, i, ntotal - i);
        EndAt(line[..], i);
        line[i] := NUL;
      } else {
        CopiedRest(line[..], u, undoLine[..], i, undoNtotal);
        CopyString(line, i, undoLine, i, undoNtotal - i);
        EndAt(undoLine[..], i);
        undoLine[i] := NUL;
      }
    }

    // ---- Brackets ----

    /** gl_index_of_matching_paren, or -1 */
    method IndexOfMatchingParen() returns (r: int)
      requires Valid()
      ensures r == var m := MatchingParen(Text(), curpos); if m.Some? then m.value else -1
    {
      hide StrChr, NoNul, WellFormed;
      ghost var text := Text();
      var c := line[curpos];
      assert c == (text + [NUL])[curpos];
      var o := StrChr(O_PAREN, c);
      if o.Some? {
        var mate := (C_PAREN + [NUL])[o.value];
        var needed := 1;
        var i := curpos + 1;
        while i < ntotal
          invariant curpos < i && needed > 0 && (curpos < ntotal ==> i <= ntotal)
          invariant curpos < ntotal ==> Forward(text, c, mate, i, needed) == MatchingParen(text, curpos)
        {
          if line[i] == c {
            needed := needed + 1;
          } else if line[i] == mate {
            needed := needed - 1;
            if needed == 0 {
              return i;
            }
          }
          i := i + 1;
        }
        return -1;
      }
      var k := StrChr(C_PAREN, c);
      if k.Some? {
        var mate := (O_PAREN + [NUL])[k.value];
        var needed := 1;
        var i := curpos - 1;
        while i >= 0
          invariant -1 <= i < curpos && needed > 0
          invariant Backward(text, mate, c, i + 1, needed) == MatchingParen(text, curpos)
        {
          if line[i] == c {
            needed := needed + 1;
          } else if line[i] == mate {
            needed := needed - 1;
            if needed == 0 {
              return i;
            }
          }
          i := i - 1;
        }
        return -1;
      }
      var i := curpos + 1;
      while i < ntotal
        invariant curpos < i <= ntotal && AnyClose(text, i) == MatchingParen(text, curpos)
      {
        if StrChr(C_PAREN, line[i]).Some? {
          return i;
        }
        i := i + 1;
      }
      return -1;
    }
  }
}
