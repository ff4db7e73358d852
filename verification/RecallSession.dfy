/** Recall sessions, over any run of recall operations. */
module RecallSession {
  import opened CStrings
  import opened Segments
  import opened HistorySpec

  /** An operation that recalls a line, and the time at which it is done. */
  datatype RecallOp =
    | Backwards(now: int)
    | Forwards
    | Oldest(now: int)
    | ById(id: int, now: int)

  /** What one operation does to the history, and what it returns. */
  ghost function Outcome(h: History, line: string, dim: nat, op: RecallOp): (History, Option<string>)
    requires WellFormed(h) && dim > 0
  {
    match op
    case Backwards(now) => FindBackwards(h, line, dim, now)
    case Forwards => FindForwards(h, line, dim)
    case Oldest(now) => OldestLine(h, line, dim, now)
    case ById(id, now) => RecallLine(h, id, line, dim, now)
  }

  /** What the caller of an operation sees to. */
  ghost predicate Permitted(h: History, line: string, dim: nat, op: RecallOp) {
    match op
    case Backwards(_) => |line| < dim ==> MayRecall(h, line)
    case Forwards => true
    case Oldest(_) => |line| < dim ==> MayRecall(h, line)
    case ById(_, _) => MayRecall(h, line)
  }

  /** The line buffer after an operation: the line returned, or what was there. */
  function Buffer(line: string, returned: Option<string>): string {
    if returned.Some? then returned.value else line
  }

  /** A run of operations, each passed the line that the one before left in the buffer. */
  ghost function Run(h: History, line: string, dim: nat, ops: seq<RecallOp>): (History, string)
    requires WellFormed(h) && dim > 0 && NoNul(line)
    decreases |ops|
  {
    if ops == [] then (h, line) else
      OutcomeKeeps(h, line, dim, ops[0]);
      var (h1, r) := Outcome(h, line, dim, ops[0]);
      Run(h1, Buffer(line, r), dim, ops[1..])
  }

  /** Moving to a line leaves a text that is free of NULs. */
  lemma MoveKeeps(h: History, i: nat, dim: nat)
    requires WellFormed(h) && h.recall.Some? && i < |h.lines| && dim > 0
    ensures WellFormed(Recalled(h, i, dim).0) && WellFormed(Returned(h, i, dim).0)
    ensures var text := Clip(h.lines[i].text, dim); Storable(text) && |text| < dim
  {
    ReturnedKeeps(h, i, dim);
    assert h.lines[i] in h.lines;
  }

  lemma OutcomeKeeps(h: History, line: string, dim: nat, op: RecallOp)
    requires WellFormed(h) && dim > 0 && NoNul(line)
    ensures var (h1, r) := Outcome(h, line, dim, op); WellFormed(h1) && NoNul(Buffer(line, r))
  {
    hide WellFormed, Prepare, NearestOlder, NearestNewer, OldestOf, WithId, Clip, NoNul, Cancel;
    var (h1, r) := Outcome(h, line, dim, op);
    RecallInRange(h);
    if Enabled(h) {
      if op.Forwards? {
        if h.recall.Some? {
          var j := NearestNewer(h, h.recall.value + 1, h.lines[h.recall.value].text);
          if j.Some? {
            MoveKeeps(h, j.value, dim);
          }
        }
      } else {
        PrepareOpens(h, line, op.now);
        PrepareKeeps(h, line, op.now);
        var (h2, ok) := Prepare(h, line, op.now);
        var j := if !ok then None else match op
          case Backwards(_) => NearestOlder(h2, h2.recall.value, h2.lines[h2.recall.value].text)
          case Oldest(_) => OldestOf(h2.lines, h2.group, 0)
          case ById(id, _) => WithId(h2.lines, id, 0)
          case Forwards => None;
        if j.Some? {
          MoveKeeps(h2, j.value, dim);
        }
      }
    }
  }

  // ---- Sessions roll back ----

  /** Where a run can have got to that was started, outside any session, on the line t. */
  ghost predicate Reached(h0: History, t: string, dim: nat, h: History, line: string) {
    var kept := Kept(h0, Chop(t));
    && h == h0.(lines := h.lines, recall := h.recall)
    && NoNul(line) && |line| < dim && ('\n' in line ==> line == t)
    && (h.recall.None? ==> Chop(line) == Chop(t) && (h.lines == h0.lines || h.lines == kept))
    && (h.recall.Some? ==>
          && Enabled(h) && HasRoom(h0.(lines := kept), Chop(t))
          && |h.lines| == |kept| + 1 && h.lines[..|kept|] == kept
          && h.lines[|kept|].text == Chop(t) && h.lines[|kept|].group == h.group
          && h.recall.value <= |kept|
          && (h.recall.value == |kept| ==> Chop(line) == Chop(t)))
  }

  lemma ChopIdempotent(t: string)
    requires '\n' !in t
    ensures Chop(t) == t
  {
  }

  /** What was kept to make room for a text has room for it still. */
  lemma KeptAgain(h0: History, text: string)
    ensures var h := h0.(lines := Kept(h0, text)); Kept(h, text) == h.lines
  {
    var k := TrimIsSuffix(h0.lines, Held(h0.prefix), text, h0.nbuff, h0.maxLines);
    TrimDone(Kept(h0, text), Held(h0.prefix), text, h0.nbuff, h0.maxLines);
  }

  /** (Re)opening a session keeps what the first one kept. */
  lemma PrepareReaches(h0: History, t: string, dim: nat, h: History, line: string, now: int)
    requires WellFormed(h0) && h0.recall.None? && WellFormed(h) && Enabled(h)
    requires Reached(h0, t, dim, h, line)
    ensures Reached(h0, t, dim, Prepare(h, line, now).0, line)
  {
    hide WellFormed, Trim, Room, NoNul, IsBlank;
    RecallInRange(h);
    KeptAgain(h0, Chop(t));
    var kept := Kept(h0, Chop(t));
    if h.recall.Some? {
      assert Cancel(h).lines == kept;
    }
    var h1 := Current(h, line);
    if h1.recall.None? {
      var l := Line(h.nextId, now, h.group, Chop(t));
      assert (kept + [l])[..|kept|] == kept;
    }
  }

  /** Moving within the list. */
  lemma RecalledReaches(h0: History, t: string, dim: nat, h: History, line: string, i: nat)
    requires WellFormed(h) && h.recall.Some? && Reached(h0, t, dim, h, line) && |t| < dim
    requires i < |h.lines|
    ensures var (h1, r) := Recalled(h, i, dim); Reached(h0, t, dim, h1, Buffer(line, r))
    ensures i == |h.lines| - 1 ==> Clip(h.lines[i].text, dim) == Chop(t)
  {
    MoveKeeps(h, i, dim);
    hide WellFormed, Kept, HasRoom, NoNul;
    ChopIdempotent(Chop(t));
  }

  /** Moving within the list, and coming back to the line being typed. */
  lemma MoveReaches(h0: History, t: string, dim: nat, h: History, line: string, i: nat)
    requires WellFormed(h) && h.recall.Some? && Reached(h0, t, dim, h, line) && |t| < dim
    requires i < |h.lines|
    ensures var (h1, r) := Recalled(h, i, dim); Reached(h0, t, dim, h1, Buffer(line, r))
    ensures var (h1, r) := Returned(h, i, dim); Reached(h0, t, dim, h1, Buffer(line, r))
    ensures i == |h.lines| - 1 ==> Returned(h, i, dim).1 == Some(Chop(t))
  {
    hide WellFormed, Kept, HasRoom, NoNul, Clip, Chop, Enabled;
    RecalledReaches(h0, t, dim, h, line, i);
  }

  lemma OutcomeReaches(h0: History, t: string, dim: nat, h: History, line: string, op: RecallOp)
    requires WellFormed(h0) && h0.recall.None? && |t| < dim
    requires WellFormed(h) && Reached(h0, t, dim, h, line)
    ensures var (h1, r) := Outcome(h, line, dim, op); Reached(h0, t, dim, h1, Buffer(line, r))
  {
    hide WellFormed, Reached, Prepare, NearestOlder, NearestNewer, OldestOf, WithId, Clip, NoNul, Cancel,
      Recalled, Returned;
    RecallInRange(h);
    if Enabled(h) {
      if op.Forwards? {
        if h.recall.Some? {
          var j := NearestNewer(h, h.recall.value + 1, h.lines[h.recall.value].text);
          if j.Some? {
            MoveReaches(h0, t, dim, h, line, j.value);
          }
        }
      } else {
        assert NoNul(line) by { ReachedNoNul(h0, t, dim, h, line); }
        PrepareOpens(h, line, op.now);
        PrepareKeeps(h, line, op.now);
        PrepareReaches(h0, t, dim, h, line, op.now);
        var (h2, ok) := Prepare(h, line, op.now);
        if ok {
          var j := match op
            case Backwards(_) => NearestOlder(h2, h2.recall.value, h2.lines[h2.recall.value].text)
            case Oldest(_) => OldestOf(h2.lines, h2.group, 0)
            case ById(id, _) => WithId(h2.lines, id, 0)
            case Forwards => None;
          if j.Some? {
            MoveReaches(h0, t, dim, h2, line, j.value);
          }
        }
      }
    }
  }

  lemma ReachedNoNul(h0: History, t: string, dim: nat, h: History, line: string)
    requires Reached(h0, t, dim, h, line)
    ensures NoNul(line)
  {
  }

  lemma {:induction false} RunReaches(h0: History, t: string, dim: nat, h: History, line: string, ops: seq<RecallOp>)
    requires WellFormed(h0) && h0.recall.None? && |t| < dim
    requires WellFormed(h) && NoNul(line) && Reached(h0, t, dim, h, line)
    ensures var (h1, line1) := Run(h, line, dim, ops);
            WellFormed(h1) && NoNul(line1) && Reached(h0, t, dim, h1, line1)
    decreases |ops|
  {
    hide WellFormed, Reached, Outcome, NoNul;
    if ops != [] {
      OutcomeKeeps(h, line, dim, ops[0]);
      OutcomeReaches(h0, t, dim, h, line, ops[0]);
      var (h1, r) := Outcome(h, line, dim, ops[0]);
      RunReaches(h0, t, dim, h1, Buffer(line, r), ops[1..]);
    }
  }

  /** Whatever run of recalls was started on the line t, returning to the current line gives t back, up to its
      newline; and it leaves the history as it was, but for the oldest lines if t only fitted without them. */
  lemma SessionRollsBack(h: History, t: string, dim: nat, ops: seq<RecallOp>)
    requires WellFormed(h) && h.recall.None? && NoNul(t) && |t| < dim
    ensures var (h1, line) := Run(h, t, dim, ops);
            && WellFormed(h1)
            && var (h2, r) := CurrentLine(h1, line, dim);
               && Chop(Buffer(line, r)) == Chop(t)
               && ('\n' !in t ==> Buffer(line, r) == t)
               && (r.Some? ==> r.value == Chop(t))
               && h2 == h.(lines := h2.lines)
               && (h2.lines == h.lines || h2.lines == Kept(h, Chop(t)))
               && (HasRoom(h, Chop(t)) ==> h2 == h)
  {
    hide WellFormed, Run, NoNul, Trim, Room;
    RunReaches(h, t, dim, h, t, ops);
    var (h1, line) := Run(h, t, dim, ops);
    RecallInRange(h1);
    if h1.recall.Some? {
      MoveReaches(h, t, dim, h1, line, |h1.lines| - 1);
    }
    if HasRoom(h, Chop(t)) {
      TrimDone(h.lines, Held(h.prefix), Chop(t), h.nbuff, h.maxLines);
    }
    if '\n' !in t {
      ChopIdempotent(t);
      ChopIdempotent(line);
    }
  }

  // ---- What callers see to, along a run ----

  /** Is each operation of a run permitted where it is done? */
  ghost predicate RunPermitted(h: History, line: string, dim: nat, ops: seq<RecallOp>)
    requires WellFormed(h) && dim > 0 && NoNul(line)
    decreases |ops|
  {
    if ops == [] then true else
      OutcomeKeeps(h, line, dim, ops[0]);
      var (h1, r) := Outcome(h, line, dim, ops[0]);
      Permitted(h, line, dim, ops[0]) && RunPermitted(h1, Buffer(line, r), dim, ops[1..])
  }

  lemma StepPermitted(h0: History, t: string, dim: nat, h: History, line: string, op: RecallOp)
    requires MayRecall(h0, t) && h0.recall.None? && Reached(h0, t, dim, h, line)
    ensures Permitted(h, line, dim, op)
  {
  }

  lemma {:induction false} StepsPermitted(h0: History, t: string, dim: nat, h: History, line: string,
                                          ops: seq<RecallOp>)
    requires WellFormed(h0) && h0.recall.None? && |t| < dim && MayRecall(h0, t)
    requires WellFormed(h) && NoNul(line) && Reached(h0, t, dim, h, line)
    ensures RunPermitted(h, line, dim, ops)
    decreases |ops|
  {
    hide WellFormed, Reached, Outcome, NoNul, MayRecall, Permitted;
    if ops != [] {
      StepPermitted(h0, t, dim, h, line, ops[0]);
      OutcomeKeeps(h, line, dim, ops[0]);
      OutcomeReaches(h0, t, dim, h, line, ops[0]);
      var (h1, r) := Outcome(h, line, dim, ops[0]);
      StepsPermitted(h0, t, dim, h1, Buffer(line, r), ops[1..]);
    }
  }

  /** A run that only searches forward does nothing without a session. */
  lemma {:induction false} ForwardsPermitted(h: History, t: string, dim: nat, ops: seq<RecallOp>)
    requires WellFormed(h) && h.recall.None? && NoNul(t) && |t| < dim && !MayRecall(h, t)
    ensures RunPermitted(h, t, dim, ops) <==> forall op :: op in ops ==> op.Forwards?
    decreases |ops|
  {
    hide WellFormed, MayRecall, FindBackwards, OldestLine, RecallLine;
    if ops != [] {
      assert ops[0] in ops && forall op :: op in ops <==> op == ops[0] || op in ops[1..];
      OutcomeKeeps(h, t, dim, ops[0]);
      if ops[0].Forwards? {
        ForwardsPermitted(h, t, dim, ops[1..]);
      }
    }
  }

  /** Every operation of a session is permitted if the one that opens it is: the conditions on callers are met all
      along the run if they are met by the line that it is started on, or if it never gets to store that line. */
  lemma SessionPermitted(h: History, t: string, dim: nat, ops: seq<RecallOp>)
    requires WellFormed(h) && h.recall.None? && NoNul(t) && |t| < dim
    ensures RunPermitted(h, t, dim, ops) <==> MayRecall(h, t) || forall op :: op in ops ==> op.Forwards?
  {
    hide WellFormed, RunPermitted, NoNul, MayRecall;
    if MayRecall(h, t) {
      StepsPermitted(h, t, dim, h, t, ops);
    } else {
      ForwardsPermitted(h, t, dim, ops);
    }
  }

  // ---- When the line typed is given back whole ----

  /** Does a run of operations that is started on the line t open a session? */
  ghost predicate Opens(h: History, t: string, ops: seq<RecallOp>) {
    Enabled(h) && FitsBeside(h, t) && exists op :: op in ops && !op.Forwards?
  }

  /** With a newline in t, has t been lost for good? */
  ghost predicate Lost(t: string, h: History, line: string) {
    h.recall.Some? || line != t
  }

  /** What fits when a session is opened is stored, then and whenever it is opened again. */
  lemma PrepareSucceeds(h0: History, t: string, dim: nat, h: History, line: string, now: int)
    requires WellFormed(h) && Enabled(h) && Reached(h0, t, dim, h, line) && FitsBeside(h0, t)
    ensures Prepare(h, line, now).1
  {
    hide WellFormed, Trim, Room, NoNul, IsBlank, Cost;
    RecallInRange(h);
    CancelKeeps(h);
    AddSucceeds(h, line, true, now);
    AddSucceeds(Cancel(h), line, true, now);
  }

  lemma OutcomeLoses(h0: History, t: string, dim: nat, h: History, line: string, op: RecallOp)
    requires WellFormed(h0) && h0.recall.None? && |t| < dim && '\n' in t
    requires WellFormed(h) && Enabled(h) && Reached(h0, t, dim, h, line) && FitsBeside(h0, t)
    requires op.Forwards? ==> Lost(t, h, line)
    ensures var (h1, r) := Outcome(h, line, dim, op); Lost(t, h1, Buffer(line, r))
  {
    hide WellFormed, Reached, Prepare, NearestOlder, NearestNewer, OldestOf, WithId, Clip, NoNul, Cancel, FitsBeside;
    RecallInRange(h);
    ReachedNoNul(h0, t, dim, h, line);
    if op.Forwards? {
      if h.recall.Some? {
        var j := NearestNewer(h, h.recall.value + 1, h.lines[h.recall.value].text);
        if j.Some? {
          MoveKeeps(h, j.value, dim);
        }
      }
    } else {
      PrepareOpens(h, line, op.now);
      PrepareKeeps(h, line, op.now);
      PrepareSucceeds(h0, t, dim, h, line, op.now);
      var h2 := Prepare(h, line, op.now).0;
      var j := match op
        case Backwards(_) => NearestOlder(h2, h2.recall.value, h2.lines[h2.recall.value].text)
        case Oldest(_) => OldestOf(h2.lines, h2.group, 0)
        case ById(id, _) => WithId(h2.lines, id, 0)
        case Forwards => None;
      if j.Some? {
        MoveKeeps(h2, j.value, dim);
      }
    }
  }

  lemma ReachedSame(h0: History, t: string, dim: nat, h: History, line: string)
    requires Reached(h0, t, dim, h, line)
    ensures h == h0.(lines := h.lines, recall := h.recall) && |line| < dim && (Enabled(h0) <==> Enabled(h))
  {
  }

  lemma {:induction false} RunLoses(h0: History, t: string, dim: nat, h: History, line: string, ops: seq<RecallOp>)
    requires WellFormed(h0) && h0.recall.None? && |t| < dim && '\n' in t && Enabled(h0) && FitsBeside(h0, t)
    requires WellFormed(h) && NoNul(line) && Reached(h0, t, dim, h, line)
    requires Lost(t, h, line) || exists op :: op in ops && !op.Forwards?
    ensures var (h1, line1) := Run(h, line, dim, ops); WellFormed(h1) && Lost(t, h1, line1)
    decreases |ops|
  {
    hide WellFormed, Reached, Outcome, NoNul, FitsBeside;
    if ops != [] {
      assert forall op :: op in ops <==> op == ops[0] || op in ops[1..];
      OutcomeKeeps(h, line, dim, ops[0]);
      OutcomeReaches(h0, t, dim, h, line, ops[0]);
      ReachedSame(h0, t, dim, h, line);
      var (h1, r) := Outcome(h, line, dim, ops[0]);
      if !ops[0].Forwards? || Lost(t, h, line) {
        OutcomeLoses(h0, t, dim, h, line, ops[0]);
      } else {
        StaysClosed(h, line, dim, ops[0]);
      }
      RunLoses(h0, t, dim, h1, Buffer(line, r), ops[1..]);
    }
  }

  /** An operation that can't open a session leaves the line alone, and no session open. */
  lemma StaysClosed(h: History, line: string, dim: nat, op: RecallOp)
    requires WellFormed(h) && h.recall.None? && NoNul(line) && dim > 0
    requires Enabled(h) && FitsBeside(h, line) ==> op.Forwards?
    ensures var (h1, r) := Outcome(h, line, dim, op);
            r.None? && h1 == h.(lines := h1.lines) && (op.Forwards? ==> h1 == h)
  {
    hide WellFormed, Cost, Room, Trim, IsBlank, NoNul;
    if Enabled(h) && !op.Forwards? {
      AddSucceeds(h, line, true, op.now);
    }
  }

  lemma {:induction false} RunStaysClosed(h: History, line: string, dim: nat, ops: seq<RecallOp>)
    requires WellFormed(h) && h.recall.None? && NoNul(line) && dim > 0 && !Opens(h, line, ops)
    ensures var (h1, line1) := Run(h, line, dim, ops); h1.recall.None? && line1 == line
    decreases |ops|
  {
    hide WellFormed, Outcome, NoNul, FitsBeside;
    if ops != [] {
      assert ops[0] in ops && forall op :: op in ops[1..] ==> op in ops;
      OutcomeKeeps(h, line, dim, ops[0]);
      StaysClosed(h, line, dim, ops[0]);
      var (h1, r) := Outcome(h, line, dim, ops[0]);
      FitsSame(h, h1, line);
      RunStaysClosed(h1, line, dim, ops[1..]);
    }
  }

  lemma FitsSame(h: History, h1: History, line: string)
    requires h1 == h.(lines := h1.lines, recall := h1.recall)
    ensures FitsBeside(h1, line) == FitsBeside(h, line) && Enabled(h1) == Enabled(h)
  {
  }

  /** The line typed is given back whole exactly when it has no newline, or no session was opened. */
  lemma SessionGivesBackExactly(h: History, t: string, dim: nat, ops: seq<RecallOp>)
    requires WellFormed(h) && h.recall.None? && NoNul(t) && |t| < dim
    ensures var (h1, line) := Run(h, t, dim, ops);
            && WellFormed(h1)
            && (Buffer(line, CurrentLine(h1, line, dim).1) == t <==> '\n' !in t || !Opens(h, t, ops))
  {
    hide WellFormed, Run, NoNul, Kept, HasRoom, FitsBeside;
    SessionRollsBack(h, t, dim, ops);
    if !Opens(h, t, ops) {
      RunStaysClosed(h, t, dim, ops);
    } else if '\n' in t {
      RunLoses(h, t, dim, h, t, ops);
      RunReaches(h, t, dim, h, t, ops);
      var (h1, line) := Run(h, t, dim, ops);
      ReachedSame(h, t, dim, h1, line);
    }
  }

  /** A line with a newline in it, of which only what precedes the newline is given back. */
  lemma NewlineIsLost(now: int)
    ensures var h, t := History([], None, None, 0, 0, -1, true, 1), "a\nb";
            && WellFormed(h) && NoNul(t)
            && var (h1, line) := Run(h, t, 10, [Backwards(now)]);
               WellFormed(h1) && Buffer(line, CurrentLine(h1, line, 10).1) != t
  {
    hide Increasing, Run, Cost;
    var h, t := History([], None, None, 0, 0, -1, true, 1), "a\nb";
    EmptyWellFormed(h);
    assert t[1] == '\n' && t[1..] == "\nb" && Chop(t) == "a";
    CostAdd({}, "a");
    CostPositive({});
    assert Held(None) + {"a"} == {} + {"a"};
    assert Backwards(now) in [Backwards(now)];
    SessionGivesBackExactly(h, t, 10, [Backwards(now)]);
  }
}
