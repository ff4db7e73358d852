/** History files: what is written for each line, and what is read back. */
module HistoryFile {
  import opened Arithmetic
  import opened CStrings
  import opened Segments
  import opened HistorySpec

  const UINT_RANGE: nat := 0x1_0000_0000

  /** The number of characters in a timestamp yyyymmddhhmmss. */
  const TS_LEN: nat := 14

  predicate IsDigit(c: char) {
    '0' <= c <= '9'
  }

  predicate Digits(s: string) {
    forall i :: 0 <= i < |s| ==> IsDigit(s[i])
  }

  /** %u */
  function Decimal(n: nat): (s: string)
    ensures s != [] && Digits(s)
  {
    var d := [(n % 10) as char + '0'];
    if n < 10 then d else Decimal(n / 10) + d
  }

  function ValueOf(s: string): nat
    requires Digits(s)
  {
    if s == [] then 0 else 10 * ValueOf(s[..|s| - 1]) + (s[|s| - 1] - '0') as nat
  }

  lemma DecimalValue(n: nat)
    ensures ValueOf(Decimal(n)) == n
  {
    if n >= 10 {
      var s := Decimal(n);
      assert s[..|s| - 1] == Decimal(n / 10);
    }
  }

  // ---- Saving ----

  /** The lines to be saved. A maximum of zero saves one line all the same. */
  function Saved(ls: seq<Line>, max: int): seq<Line> {
    var n := if max == 0 then 1 else max;
    if 0 <= n < |ls| then ls[|ls| - n..] else ls
  }

  /** No more lines are saved than were asked for, unless none were. */
  lemma SavedWithin(ls: seq<Line>, max: nat)
    ensures |Saved(ls, max)| <= max <==> max > 0 || ls == []
    ensures exists k :: 0 <= k <= |ls| && Saved(ls, max) == ls[k..]
  {
    var n := if max == 0 then 1 else max;
    assert ls[0..] == ls;
    assert Saved(ls, max) == ls[if n < |ls| then |ls| - n else 0..];
  }

  /** The newest lines are saved: as many as asked for, but at least one, or all of them. */
  lemma NewestSaved(ls: seq<Line>, max: int)
    ensures var n := if max < 0 then |ls| else if max == 0 then 1 else max;
            && |Saved(ls, max)| == (if n < |ls| then n else |ls|)
            && Saved(ls, max) == ls[|ls| - |Saved(ls, max)|..]
  {
  }

  /** What is written in front of a line, where stamp renders its timestamp. */
  function Params(l: Line, comment: string, stamp: int -> string): string {
    comment + " " + stamp(l.timestamp) + " " + Decimal(l.group)
  }

  function Record(l: Line, comment: string, stamp: int -> string): string {
    Params(l, comment, stamp) + "\n" + l.text + "\n"
  }

  function FileOf(ls: seq<Line>, comment: string, stamp: int -> string): string {
    if ls == [] then [] else Record(ls[0], comment, stamp) + FileOf(ls[1..], comment, stamp)
  }

  /** Each line is written on a line of its own, behind one with the comment, its timestamp and its group. */
  lemma {:induction false} FileWritten(ls: seq<Line>, comment: string, stamp: int -> string)
    ensures FileOf([], comment, stamp) == []
    ensures forall l: Line :: FileOf(ls + [l], comment, stamp)
                           == FileOf(ls, comment, stamp)
                              + (comment + " " + stamp(l.timestamp) + " " + Decimal(l.group) + "\n" + l.text + "\n")
  {
    forall l: Line
      ensures FileOf(ls + [l], comment, stamp)
           == FileOf(ls, comment, stamp)
              + (comment + " " + stamp(l.timestamp) + " " + Decimal(l.group) + "\n" + l.text + "\n")
    {
      hide Decimal;
      if ls == [] {
        assert [] + [l] == [l] && [l][1..] == [];
      } else {
        FileWritten(ls[1..], comment, stamp);
        assert (ls + [l])[1..] == ls[1..] + [l];
      }
    }
  }

  lemma FileOfNext(ls: seq<Line>, k: nat, comment: string, stamp: int -> string, out: string, file: string)
    requires k < |ls| && file == out + FileOf(ls[k..], comment, stamp)
    ensures file
          == (out + Params(ls[k], comment, stamp) + "\n" + ls[k].text + "\n") + FileOf(ls[k + 1..], comment, stamp)
  {
    hide Params;
    assert ls[k..][1..] == ls[k + 1..];
    var p, t := Params(ls[k], comment, stamp), ls[k].text;
    assert out + p + "\n" + t + "\n" == out + (p + "\n" + t + "\n");
  }

  lemma FileOfNone(ls: seq<Line>, comment: string, stamp: int -> string)
    ensures FileOf(ls[|ls|..], comment, stamp) == []
  {
  }

  // ---- Loading ----

  /** fgets(): a line up to and including its newline, or as much of it as fits, and the rest of the file. */
  function ReadLine(file: string, dim: nat): (r: (string, string))
    requires dim >= 2
    ensures r.0 + r.1 == file && |r.0| < dim && (file != [] ==> r.0 != [])
    ensures forall i :: 0 <= i < |r.0| - 1 ==> r.0[i] != '\n'
    ensures r.1 != [] && r.0[|r.0| - 1] != '\n' ==> |r.0| == dim - 1
  {
    if file == [] then ([], [])
    else if file[0] == '\n' || dim == 2 then (file[..1], file[1..])
    else
      var (line, rest) := ReadLine(file[1..], dim - 1);
      ([file[0]] + line, rest)
  }

  function SkipBlanks(s: string): (r: string)
    ensures |r| <= |s|
  {
    if s != [] && (s[0] == ' ' || s[0] == '\t') then SkipBlanks(s[1..]) else s
  }

  /** The digits that s starts with, and what follows them. */
  function LeadingDigits(s: string): (r: (string, string))
    ensures Digits(r.0) && r.0 + r.1 == s
  {
    if s != [] && IsDigit(s[0]) then
      var (d, rest) := LeadingDigits(s[1..]);
      ([s[0]] + d, rest)
    else ([], s)
  }

  function SkipSpace(s: string): string {
    if s != [] && IsSpace(s[0]) then SkipSpace(s[1..]) else s
  }

  /** strtoul() in base 10: the number, and what follows it; s itself if it doesn't start with a number. */
  function ParseUnsigned(s: string): (nat, string) {
    var p := SkipSpace(s);
    var signed := p != [] && (p[0] == '-' || p[0] == '+');
    var (d, rest) := LeadingDigits(if signed then p[1..] else p);
    var v := ValueOf(d);
    if d == [] then (0, s)
    else if v >= ULONG_RANGE then (ULONG_RANGE - 1, rest)
    else if signed && p[0] == '-' then ((ULONG_RANGE - v) % ULONG_RANGE, rest)
    else (v, rest)
  }

  /** The timestamp that s starts with, and what follows it. */
  function ParseStamp(s: string, decode: string -> Option<int>): Option<(int, string)> {
    if s != [] && s[0] == '?' then Some((-1, s[1..]))
    else if |s| < TS_LEN then None
    else
      var t := decode(s[..TS_LEN]);
      if t.None? then None else Some((t.value, s[TS_LEN..]))
  }

  /** The timestamp and group on the line that precedes each history line. */
  function ParseParams(line: string, comment: string, decode: string -> Option<int>): Option<(int, nat)> {
    if !(comment <= line) then None
    else
      var stamp := ParseStamp(SkipBlanks(line[|comment|..]), decode);
      if stamp.None? then None
      else
        var (group, rest) := ParseUnsigned(SkipBlanks(stamp.value.1));
        if rest == [] || (rest[0] != ' ' && rest[0] != '\n') then None
        else
          var end := SkipBlanks(rest);
          if end == [] || end[0] != '\n' then None
          else Some((stamp.value.0, group % UINT_RANGE))
  }

  /** Replace the timestamp and group of the newest line. */
  function Stamped(h: History, timestamp: int, group: nat): History {
    if h.lines == [] then h else
      var n := |h.lines| - 1;
      h.(lines := h.lines[n := h.lines[n].(timestamp := timestamp, group := group)])
  }

  /** Add the lines of a file to the history; whether all of the file was read. */
  ghost function Load(h: History, file: string, comment: string, dim: nat, now: int, decode: string -> Option<int>)
    : (History, bool)
    requires h.recall.None? && dim >= 2
    decreases |file|
  {
    if file == [] then (h, true)
    else
      var (param, rest) := ReadLine(file, dim);
      var p := ParseParams(param, comment, decode);
      if p.None? || rest == [] then (h, false)
      else
        var (line, rest') := ReadLine(rest, dim);
        var (h1, ok) := Add(h, line, true, now);
        if !ok then (h1, false)
        else Load(Stamped(h1, p.value.0, p.value.1), rest', comment, dim, now, decode)
  }

  lemma StampedTexts(h: History, timestamp: int, group: nat)
    ensures var ls := Stamped(h, timestamp, group).lines;
            && |ls| == |h.lines| && Texts(ls) <= Texts(h.lines)
            && (forall i :: 0 <= i < |ls| ==> ls[i].text == h.lines[i].text && ls[i].id == h.lines[i].id)
            && (forall l :: l in ls ==> exists m :: m in h.lines && m.id == l.id && m.text == l.text)
  {
    var ls := Stamped(h, timestamp, group).lines;
    forall l | l in ls ensures exists m :: m in h.lines && m.id == l.id && m.text == l.text {
      var i :| 0 <= i < |ls| && ls[i] == l;
      assert h.lines[i] in h.lines;
    }
  }

  lemma StampedKeeps(h: History, timestamp: int, group: nat)
    requires WellFormed(h) && h.recall.None?
    ensures WellFormed(Stamped(h, timestamp, group))
  {
    hide Storable, Texts;
    var h1 := Stamped(h, timestamp, group);
    StampedTexts(h, timestamp, group);
    CostMonotone(Texts(h1.lines) + Held(h.prefix), Texts(h.lines) + Held(h.prefix));
  }

  // ---- The round trip ----

  /** A timestamp is written as fourteen digits, or as a question mark. */
  ghost predicate IsStamp(s: string) {
    s == "?" || (|s| == TS_LEN && Digits(s))
  }

  /** Is t the time that a rendered timestamp is read back as? */
  ghost predicate IsTime(t: int, ts: string, decode: string -> Option<int>) {
    Some(t) == if ts == "?" then Some(-1) else decode(ts)
  }

  ghost predicate ReadsStamps(decode: string -> Option<int>) {
    forall s :: |s| == TS_LEN && Digits(s) ==> decode(s).Some?
  }

  /** A line of which both parts can be read back into a buffer of dimension dim. */
  ghost predicate Loadable(l: Line, comment: string, stamp: int -> string, dim: nat) {
    && |l.text| + 2 <= dim && l.group < UINT_RANGE && IsStamp(stamp(l.timestamp))
    && |comment| + |stamp(l.timestamp)| + |Decimal(l.group)| + 4 <= dim
  }

  lemma {:induction false} ReadWholeLine(line: string, rest: string, dim: nat)
    requires '\n' !in line && |line| + 2 <= dim
    ensures ReadLine(line + "\n" + rest, dim) == (line + "\n", rest)
  {
    var file := line + "\n" + rest;
    if line == [] {
      assert file == "\n" + rest;
    } else {
      ReadWholeLine(line[1..], rest, dim - 1);
      assert file[1..] == line[1..] + "\n" + rest;
      assert line + "\n" == [line[0]] + (line[1..] + "\n");
    }
  }

  lemma {:induction false} LeadingDigitsOf(d: string, rest: string)
    requires Digits(d) && (rest == [] || !IsDigit(rest[0]))
    ensures LeadingDigits(d + rest) == (d, rest)
  {
    if d == [] {
      assert d + rest == rest;
    } else {
      LeadingDigitsOf(d[1..], rest);
      assert (d + rest)[1..] == d[1..] + rest;
      assert d == [d[0]] + d[1..];
    }
  }

  lemma StampReadBack(ts: string, after: string, decode: string -> Option<int>)
    requires IsStamp(ts) && ReadsStamps(decode)
    ensures SkipBlanks(" " + (ts + after)) == ts + after
    ensures var p := ParseStamp(ts + after, decode); p.Some? && p.value.1 == after && IsTime(p.value.0, ts, decode)
  {
    assert (" " + (ts + after))[1..] == ts + after;
    assert (ts + after)[0] == ts[0];
    if ts == "?" {
      assert (ts + after)[1..] == after;
    } else {
      assert IsDigit(ts[0]);
      assert (ts + after)[..TS_LEN] == ts && (ts + after)[TS_LEN..] == after;
    }
  }

  lemma GroupReadBack(group: nat)
    requires group < ULONG_RANGE
    ensures SkipBlanks(" " + Decimal(group) + "\n") == Decimal(group) + "\n"
    ensures ParseUnsigned(Decimal(group) + "\n") == (group, "\n")
  {
    var d := Decimal(group);
    assert IsDigit(d[0]) && (d + "\n")[0] == d[0];
    assert (" " + d + "\n")[1..] == d + "\n";
    LeadingDigitsOf(d, "\n");
    DecimalValue(group);
  }

  lemma ParamsSplit(comment: string, ts: string, d: string)
    ensures var line := comment + " " + ts + " " + d + "\n";
            comment <= line && line[|comment|..] == " " + (ts + (" " + d + "\n"))
  {
    assert comment + " " + ts + " " + d + "\n" == comment + (" " + (ts + (" " + d + "\n")));
  }

  lemma ParamsReadBack(l: Line, comment: string, stamp: int -> string, dim: nat, decode: string -> Option<int>)
    requires Loadable(l, comment, stamp, dim) && ReadsStamps(decode)
    ensures var p := ParseParams(Params(l, comment, stamp) + "\n", comment, decode);
            p.Some? && p.value.1 == l.group && IsTime(p.value.0, stamp(l.timestamp), decode)
  {
    hide ParseStamp, ParseUnsigned, Decimal, SkipBlanks, IsStamp, Digits, ReadsStamps, IsTime;
    var ts, d := stamp(l.timestamp), Decimal(l.group);
    ParamsSplit(comment, ts, d);
    StampReadBack(ts, " " + d + "\n", decode);
    GroupReadBack(l.group);
    NoBlanks();
  }

  lemma NoBlanks()
    ensures SkipBlanks("\n") == "\n"
  {
  }

  /** A line whose parts contain no newline of their own is written as two lines of the file. */
  lemma RecordReadBack(l: Line, rest: string, comment: string, stamp: int -> string, dim: nat)
    requires Loadable(l, comment, stamp, dim) && '\n' !in comment && '\n' !in l.text
    ensures dim >= 2
    ensures var file := Record(l, comment, stamp) + rest;
            var params, text := Params(l, comment, stamp) + "\n", l.text + "\n";
            ReadLine(file, dim) == (params, text + rest) && ReadLine(text + rest, dim) == (text, rest)
  {
    hide Decimal;
    var ts, d := stamp(l.timestamp), Decimal(l.group);
    assert '\n' !in ts && '\n' !in d;
    ReadWholeLine(Params(l, comment, stamp), l.text + "\n" + rest, dim);
    ReadWholeLine(l.text, rest, dim);
    assert Record(l, comment, stamp) + rest == Params(l, comment, stamp) + "\n" + (l.text + "\n" + rest);
  }

  lemma {:induction false} ChopNewline(text: string)
    requires '\n' !in text
    ensures Chop(text + "\n") == text
  {
    if text != [] {
      assert (text + "\n")[1..] == text[1..] + "\n";
      ChopNewline(text[1..]);
    }
  }

  /** A line for which there is room is added without discarding any. */
  lemma AddWithRoom(h: History, text: string, now: int)
    requires h.recall.None? && Enabled(h) && HasRoom(h, text) && '\n' !in text
    ensures Add(h, text + "\n", true, now)
         == (h.(lines := h.lines + [Line(h.nextId, now, h.group, text)], nextId := h.nextId + 1), true)
  {
    hide Room;
    ChopNewline(text);
    TrimDone(h.lines, Held(h.prefix), text, h.nbuff, h.maxLines);
    assert Cancel(h) == h && h.(lines := Kept(h, text)) == h;
    var (h1, ok) := Add(h, text + "\n", true, now);
    assert ok && h1.lines == h.lines + [Line(h.nextId, now, h.group, text)] && h1.nextId == h.nextId + 1;
    assert h1 == h.(lines := h1.lines, nextId := h1.nextId);
  }

  /** The lines ls, loaded behind those of h. */
  ghost predicate LoadedBehind(h: History, ls: seq<Line>, h': History,
                               stamp: int -> string, decode: string -> Option<int>) {
    && h' == h.(lines := h'.lines, nextId := h.nextId + |ls|)
    && |h'.lines| == |h.lines| + |ls| && h'.lines[..|h.lines|] == h.lines
    && forall i :: 0 <= i < |ls| ==>
         && LoadedAs(ls[i], h'.lines[|h.lines| + i], stamp, decode) && h'.lines[|h.lines| + i].id == h.nextId + i
  }

  /** Is l' what is loaded for the line l? */
  ghost predicate LoadedAs(l: Line, l': Line, stamp: int -> string, decode: string -> Option<int>) {
    l'.text == l.text && l'.group == l.group && IsTime(l'.timestamp, stamp(l.timestamp), decode)
  }

  /** All of the lines of h and ls fit at once; hence so does every prefix of them. */
  ghost predicate FitsWith(h: History, ls: seq<Line>) {
    && (h.maxLines >= 0 ==> |h.lines| + |ls| <= h.maxLines)
    && Cost(Texts(h.lines) + Texts(ls)) <= h.nbuff
  }

  lemma FitsFirst(h: History, ls: seq<Line>, l: Line)
    requires h.prefix.None? && ls != [] && FitsWith(h, ls) && l.text == ls[0].text
    ensures HasRoom(h, ls[0].text)
    ensures FitsWith(h.(lines := h.lines + [l]), ls[1..])
  {
    assert ls[0].text in Texts(ls);
    CostMonotone(Texts(h.lines) + Held(h.prefix) + {ls[0].text}, Texts(h.lines) + Texts(ls));
    CostMonotone(Texts(h.lines + [l]) + Texts(ls[1..]), Texts(h.lines) + Texts(ls));
  }

  /** A record that is read back whole adds its line. */
  lemma LoadOne(h: History, l: Line, rest: string, comment: string, stamp: int -> string,
                dim: nat, now: int, decode: string -> Option<int>) returns (timestamp: int)
    requires h.recall.None? && Enabled(h) && HasRoom(h, l.text)
    requires '\n' !in comment && '\n' !in l.text && ReadsStamps(decode) && Loadable(l, comment, stamp, dim)
    ensures var h1 := h.(lines := h.lines + [Line(h.nextId, timestamp, l.group, l.text)], nextId := h.nextId + 1);
            dim >= 2 && Load(h, Record(l, comment, stamp) + rest, comment, dim, now, decode)
                     == Load(h1, rest, comment, dim, now, decode)
    ensures IsTime(timestamp, stamp(l.timestamp), decode)
  {
    hide IsTime, Loadable, Enabled, HasRoom, ParseParams, ReadLine, Params, Add, ReadsStamps, WellFormed;
    ParamsReadBack(l, comment, stamp, dim, decode);
    RecordReadBack(l, rest, comment, stamp, dim);
    AddWithRoom(h, l.text, now);
    timestamp := ParseParams(Params(l, comment, stamp) + "\n", comment, decode).value.0;
    var added := Line(h.nextId, now, h.group, l.text);
    var stamped := Stamped(h.(lines := h.lines + [added], nextId := h.nextId + 1), timestamp, l.group);
    assert stamped.lines == h.lines + [Line(h.nextId, timestamp, l.group, l.text)];
    assert Record(l, comment, stamp) + rest != [] && l.text + "\n" + rest != [];
  }

  /** Saved lines that fit are added, whatever follows them in the file. */
  lemma {:induction false} LoadRecords(h: History, ls: seq<Line>, rest: string, comment: string, stamp: int -> string,
                                       dim: nat, now: int, decode: string -> Option<int>) returns (h': History)
    requires h.recall.None? && h.prefix.None? && Enabled(h) && dim >= 2 && FitsWith(h, ls)
    requires '\n' !in comment && ReadsStamps(decode)
    requires forall l :: l in ls ==> Storable(l.text) && Loadable(l, comment, stamp, dim)
    ensures LoadedBehind(h, ls, h', stamp, decode)
    ensures Load(h, FileOf(ls, comment, stamp) + rest, comment, dim, now, decode)
         == Load(h', rest, comment, dim, now, decode)
    decreases |ls|
  {
    if ls == [] {
      NothingLoaded(h, stamp, decode);
      h' := h;
      assert [] + rest == rest;
    } else {
      hide IsTime, Loadable, FitsWith, Enabled, Load, Record, NoNul, LoadedBehind, HasRoom, ReadsStamps, WellFormed;
      var l := ls[0];
      var added := Line(h.nextId, 0, l.group, l.text);
      FitsFirst(h, ls, added);
      var more := FileOf(ls[1..], comment, stamp);
      assert Record(l, comment, stamp) + (more + rest) == (Record(l, comment, stamp) + more) + rest;
      var timestamp := LoadOne(h, l, more + rest, comment, stamp, dim, now, decode);
      added := added.(timestamp := timestamp);
      var h1 := h.(lines := h.lines + [added], nextId := h.nextId + 1);
      FitsFirst(h, ls, added);
      StillFits(h, h1, added, ls[1..]);
      h' := LoadRecords(h1, ls[1..], rest, comment, stamp, dim, now, decode);
      LoadedStep(h, ls, added, h1, h', stamp, decode);
    }
  }

  /** Loading stops, having failed, where a line is not accepted in front of another, or has none behind it; the lines
      loaded before it stay. */
  lemma LoadStops(h: History, ls: seq<Line>, rest: string, comment: string, stamp: int -> string,
                  dim: nat, now: int, decode: string -> Option<int>)
    requires h.recall.None? && h.prefix.None? && Enabled(h) && dim >= 2 && FitsWith(h, ls)
    requires '\n' !in comment && ReadsStamps(decode)
    requires forall l :: l in ls ==> Storable(l.text) && Loadable(l, comment, stamp, dim)
    requires rest != []
    requires var (param, more) := ReadLine(rest, dim); ParseParams(param, comment, decode).None? || more == []
    ensures var (h', ok) := Load(h, FileOf(ls, comment, stamp) + rest, comment, dim, now, decode);
            !ok && LoadedBehind(h, ls, h', stamp, decode)
  {
    hide Loadable, FitsWith, LoadedBehind, ReadsStamps;
    var h' := LoadRecords(h, ls, rest, comment, stamp, dim, now, decode);
  }

  lemma NothingLoaded(h: History, stamp: int -> string, decode: string -> Option<int>)
    ensures LoadedBehind(h, [], h, stamp, decode)
  {
  }

  lemma StillFits(h: History, h2: History, l: Line, ls: seq<Line>)
    requires h2 == h.(lines := h.lines + [l], nextId := h.nextId + 1) && FitsWith(h.(lines := h.lines + [l]), ls)
    ensures FitsWith(h2, ls) && (Enabled(h) ==> Enabled(h2))
  {
  }

  lemma LoadedStep(h: History, ls: seq<Line>, l: Line, h2: History, h': History,
                   stamp: int -> string, decode: string -> Option<int>)
    requires ls != [] && LoadedAs(ls[0], l, stamp, decode) && l.id == h.nextId
    requires h2 == h.(lines := h.lines + [l], nextId := h.nextId + 1) && LoadedBehind(h2, ls[1..], h', stamp, decode)
    ensures LoadedBehind(h, ls, h', stamp, decode)
  {
    assert h'.lines[..|h.lines|] == h2.lines[..|h.lines|] == h.lines;
    assert h'.lines[|h.lines|] == h'.lines[..|h2.lines|][|h.lines|] == l;
    assert h' == h.(lines := h'.lines, nextId := h.nextId + |ls|);
    forall i | 0 <= i < |ls|
      ensures var k := h'.lines[|h.lines| + i]; LoadedAs(ls[i], k, stamp, decode) && k.id == h.nextId + i
    {
      if i > 0 {
        assert ls[i] == ls[1..][i - 1] && h'.lines[|h.lines| + i] == h'.lines[|h2.lines| + (i - 1)];
      }
    }
  }

  lemma LoadNothing(h: History, comment: string, dim: nat, now: int, decode: string -> Option<int>)
    requires h.recall.None? && dim >= 2
    ensures Load(h, [], comment, dim, now, decode) == (h, true)
  {
  }

  /** Saving all of the lines of h, and loading the file into a history of the same size, gives the same texts and
      groups in the same order, each with the time that its timestamp is read back as, with nothing discarded on the
      way. */
  lemma SaveThenLoad(h: History, into: History, comment: string, stamp: int -> string,
                     dim: nat, now: int, decode: string -> Option<int>)
    requires WellFormed(h) && h.recall.None? && h.prefix.None? && Enabled(h) && dim >= 2
    requires WellFormed(into) && into.prefix.None? && Enabled(into)
    requires into.nbuff == h.nbuff && into.maxLines == h.maxLines
    requires '\n' !in comment && ReadsStamps(decode)
    requires forall l :: l in h.lines ==> Loadable(l, comment, stamp, dim)
    ensures var file := FileOf(Saved(h.lines, -1), comment, stamp);
            var (h', ok) := Load(Clear(into, true), file, comment, dim, now, decode);
            && ok && |h'.lines| == |h.lines|
            && forall i :: 0 <= i < |h.lines| ==> LoadedAs(h.lines[i], h'.lines[i], stamp, decode)
  {
    hide Loadable, Increasing, Storable, Load, FileOf, ReadsStamps;
    var h0 := Clear(into, true);
    assert Texts(h0.lines) + Texts(h.lines) == Texts(h.lines) + Held(None);
    var h' := LoadRecords(h0, h.lines, [], comment, stamp, dim, now, decode);
    assert FileOf(h.lines, comment, stamp) + [] == FileOf(h.lines, comment, stamp);
    LoadNothing(h', comment, dim, now, decode);
  }
}
