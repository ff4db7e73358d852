/** Recall sessions on the history store itself, as the line editor conducts them. */
module HistorySession {
  import opened CStrings
  import opened HistorySpec
  import opened RecallSession
  import opened HistoryStore

  /** A line buffer, apart from the history, that holds a string of less than dim characters. */
  ghost predicate Separate(glh: GlHistory, line: array<char>, dim: nat)
    reads glh, glh.store, glh.list, glh.Owned(), line
  {
    glh.Valid() && NUL in line[..] && 0 < dim <= line.Length && line !in glh.Owned()
  }

  /** Recall a line, passing the history what is in the line buffer. */
  method RecallOnce(glh: GlHistory, line: array<char>, dim: nat, op: RecallOp)
    requires Separate(glh, line, dim) && Permitted(glh.view, CStr(line[..]), dim, op)
    modifies glh, glh.Owned(), line
    ensures Separate(glh, line, dim) && fresh(glh.Owned() - old(glh.Owned()))
    ensures WellFormed(old(glh.view))
    ensures var (h, r) := Outcome(old(glh.view), old(CStr(line[..])), dim, op);
            glh.view == h && CStr(line[..]) == Buffer(old(CStr(line[..])), r)
  {
    hide GlHistory.Parts, GlHistory.Tied, WellFormed, FindBackwards, FindForwards, OldestLine, RecallLine, StrLen;
    match op
    case Backwards(now) => var found := glh.FindBackwards(line, dim, now);
    case Forwards => var found := glh.FindForwards(line, dim);
    case Oldest(now) => var found := glh.OldestLine(line, dim, now);
    case ById(id, now) => var found := glh.RecallLine(id, line, dim, now);
  }

  /** A run of recalls. */
  method RecallRun(glh: GlHistory, line: array<char>, dim: nat, ops: seq<RecallOp>)
    requires Separate(glh, line, dim) && WellFormed(glh.view)
    requires RunPermitted(glh.view, CStr(line[..]), dim, ops)
    modifies glh, glh.Owned(), line
    ensures Separate(glh, line, dim) && fresh(glh.Owned() - old(glh.Owned()))
    ensures WellFormed(old(glh.view))
         && (glh.view, CStr(line[..])) == Run(old(glh.view), old(CStr(line[..])), dim, ops)
  {
    hide GlHistory.Parts, GlHistory.Tied, WellFormed, Outcome, Permitted, StrLen;
    var i := 0;
    assert ops[0..] == ops;
    while i < |ops|
      invariant 0 <= i <= |ops|
      invariant Separate(glh, line, dim) && WellFormed(glh.view) && fresh(glh.Owned() - old(glh.Owned()))
      invariant RunPermitted(glh.view, CStr(line[..]), dim, ops[i..])
      invariant Run(glh.view, CStr(line[..]), dim, ops[i..]) == Run(old(glh.view), old(CStr(line[..])), dim, ops)
    {
      OutcomeKeeps(glh.view, CStr(line[..]), dim, ops[i]);
      assert ops[i..][0] == ops[i] && ops[i..][1..] == ops[i + 1..];
      RecallOnce(glh, line, dim, ops[i]);
      i := i + 1;
    }
  }

  /** A whole session: recalls that start from a typed line, and the return to it. */
  method RecallAndReturn(glh: GlHistory, line: array<char>, dim: nat, ops: seq<RecallOp>)
    requires Separate(glh, line, dim) && glh.view.recall.None? && |CStr(line[..])| < dim
    requires MayRecall(glh.view, CStr(line[..])) || forall op :: op in ops ==> op.Forwards?
    modifies glh, glh.Owned(), line
    ensures Separate(glh, line, dim) && fresh(glh.Owned() - old(glh.Owned()))
    ensures Chop(CStr(line[..])) == Chop(old(CStr(line[..])))
    ensures CStr(line[..]) == old(CStr(line[..])) <==>
            '\n' !in old(CStr(line[..])) || !Opens(old(glh.view), old(CStr(line[..])), ops)
    ensures glh.view == old(glh.view).(lines := glh.view.lines)
    ensures glh.view.lines == old(glh.view).lines || glh.view.lines == Kept(old(glh.view), Chop(old(CStr(line[..]))))
    ensures HasRoom(old(glh.view), Chop(old(CStr(line[..])))) ==> glh.view == old(glh.view)
  {
    hide GlHistory.Parts, GlHistory.Tied, WellFormed, RunPermitted, Run, Kept, HasRoom, MayRecall, Opens, StrLen;
    ghost var h, t := glh.view, CStr(line[..]);
    SessionPermitted(h, t, dim, ops);
    SessionRollsBack(h, t, dim, ops);
    SessionGivesBackExactly(h, t, dim, ops);
    RecallRun(glh, line, dim, ops);
    var found := glh.CurrentLine(line, dim);
  }
}
