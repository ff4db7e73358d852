/** Exactly which lines of a history file are accepted in front of the lines of the history. */
module HistoryParams {
  import opened Arithmetic
  import opened CStrings
  import opened HistorySpec
  import opened HistoryFile

  predicate Blanks(s: string) {
    forall i :: 0 <= i < |s| ==> s[i] == ' ' || s[i] == '\t'
  }

  lemma {:induction false} SkipBlanksIs(s: string) returns (b: string)
    ensures Blanks(b) && s == b + SkipBlanks(s)
    ensures SkipBlanks(s) != [] ==> SkipBlanks(s)[0] != ' ' && SkipBlanks(s)[0] != '\t'
  {
    b := [];
    if s != [] && (s[0] == ' ' || s[0] == '\t') {
      b := SkipBlanksIs(s[1..]);
      b := [s[0]] + b;
    }
  }

  lemma {:induction false} BlanksSkipped(b: string, s: string)
    requires Blanks(b) && (s != [] ==> s[0] != ' ' && s[0] != '\t')
    ensures SkipBlanks(b + s) == s
  {
    if b == [] {
      assert b + s == s;
    } else {
      assert (b + s)[1..] == b[1..] + s;
      BlanksSkipped(b[1..], s);
    }
  }

  lemma {:induction false} SkipSpaceIs(s: string) returns (w: string)
    ensures IsBlank(w) && s == w + SkipSpace(s)
  {
    hide IsSpace;
    w := [];
    if s != [] && IsSpace(s[0]) {
      w := SkipSpaceIs(s[1..]);
      w := [s[0]] + w;
    }
  }

  lemma {:induction false} SpaceSkipped(w: string, s: string)
    requires IsBlank(w) && (s != [] ==> !IsSpace(s[0]))
    ensures SkipSpace(w + s) == s
  {
    hide IsSpace;
    if w == [] {
      assert w + s == s;
    } else {
      assert (w + s)[1..] == w[1..] + s;
      SpaceSkipped(w[1..], s);
    }
  }

  /** What strtoul() makes of a sign and a number: the largest unsigned long if it is too large for one. */
  function Unsigned(sign: string, v: nat): (n: nat) {
    if v >= ULONG_RANGE then ULONG_RANGE - 1 else if sign == "-" then (ULONG_RANGE - v) % ULONG_RANGE else v
  }

  /** Is this a number with white space before it and a character behind it that isn't part of it? */
  predicate IsNumber(w: string, sign: string, d: string, rest: string) {
    IsBlank(w) && sign in {"", "+", "-"} && d != [] && Digits(d) && (rest != [] ==> !IsDigit(rest[0]))
  }

  lemma NumberParsed(w: string, sign: string, d: string, rest: string)
    requires IsNumber(w, sign, d, rest)
    ensures ParseUnsigned(w + (sign + (d + rest))) == (Unsigned(sign, ValueOf(d)), rest)
  {
    hide IsSpace, ValueOf;
    NumberStarts(sign, d, rest);
    SpaceSkipped(w, sign + (d + rest));
    LeadingDigitsOf(d, rest);
  }

  lemma NumberStarts(sign: string, d: string, rest: string)
    requires sign in {"", "+", "-"} && d != [] && Digits(d)
    ensures var s := sign + (d + rest);
            && !IsSpace(s[0]) && s[0] != ' ' && s[0] != '\t'
            && (if sign == "" then s == d + rest && s[0] != '-' && s[0] != '+'
                else s[0] == sign[0] && s[1..] == d + rest)
  {
    assert IsDigit(d[0]);
  }

  lemma {:induction false} LeadingDigitsAll(s: string)
    ensures var (d, rest) := LeadingDigits(s); rest != [] ==> !IsDigit(rest[0])
  {
    if s != [] && IsDigit(s[0]) {
      LeadingDigitsAll(s[1..]);
    }
  }

  lemma ParsedNumber(s: string) returns (w: string, sign: string, d: string)
    ensures var (v, rest) := ParseUnsigned(s);
            if d == [] then v == 0 && rest == s
            else s == w + (sign + (d + rest)) && IsNumber(w, sign, d, rest) && v == Unsigned(sign, ValueOf(d))
  {
    hide IsSpace, ValueOf;
    w := SkipSpaceIs(s);
    var p := SkipSpace(s);
    var signed := p != [] && (p[0] == '-' || p[0] == '+');
    sign := if signed then [p[0]] else "";
    var q := if signed then p[1..] else p;
    d := LeadingDigits(q).0;
    LeadingDigitsAll(q);
    assert p == sign + q;
  }

  /** May this be written for a time, and told from the blanks before it? */
  ghost predicate IsStampOf(ts: string, t: int, decode: string -> Option<int>) {
    IsTime(t, ts, decode) && (ts == "?" || (|ts| == TS_LEN && ts[0] !in {'?', ' ', '\t'}))
  }

  lemma StampParsed(ts: string, after: string, t: int, decode: string -> Option<int>)
    requires IsStampOf(ts, t, decode)
    ensures ParseStamp(ts + after, decode) == Some((t, after))
    ensures (ts + after)[0] != ' ' && (ts + after)[0] != '\t'
  {
    assert (ts + after)[0] == ts[0] && (ts + after)[..|ts|] == ts && (ts + after)[|ts|..] == after;
  }

  lemma ParsedStamp(s: string, decode: string -> Option<int>) returns (ts: string)
    requires ParseStamp(s, decode).Some? && s[0] != ' ' && s[0] != '\t'
    ensures var (t, after) := ParseStamp(s, decode).value; s == ts + after && IsStampOf(ts, t, decode)
  {
    ts := if s[0] == '?' then s[..1] else s[..TS_LEN];
  }

  /** A group is an unsigned number with white space before it, and with nothing or a space behind it; or nothing but
      blanks, which stand for zero. */
  ghost predicate IsGroup(between: string, sign: string, digits: string, behind: string) {
    && IsBlank(between) && sign in {"", "+", "-"} && Digits(digits)
    && Blanks(behind) && (behind != [] ==> behind[0] == ' ')
    && (digits == [] ==> Blanks(between) && sign == "" && behind == [])
  }

  lemma GroupParsed(between: string, sign: string, digits: string, behind: string)
    requires IsGroup(between, sign, digits, behind)
    ensures ParseUnsigned(SkipBlanks(between + (sign + (digits + (behind + "\n")))))
         == (Unsigned(sign, ValueOf(digits)), behind + "\n")
  {
    hide Unsigned, ParseUnsigned, IsSpace, ValueOf;
    if digits == [] {
      assert sign + (digits + (behind + "\n")) == "\n" == behind + "\n";
      NumberMissing(between);
    } else {
      BetweenSkipped(between, sign + (digits + (behind + "\n")), sign, digits, behind + "\n");
    }
  }

  lemma NumberMissing(b: string)
    requires Blanks(b)
    ensures ParseUnsigned(SkipBlanks(b + "\n")) == (Unsigned("", ValueOf([])), "\n")
  {
    BlanksSkipped(b, "\n");
    SpaceSkipped("\n", []);
    assert "\n" + [] == "\n";
  }

  lemma BetweenSkipped(w: string, number: string, sign: string, d: string, rest: string)
    requires number == sign + (d + rest) && IsNumber(w, sign, d, rest)
    ensures ParseUnsigned(SkipBlanks(w + number)) == (Unsigned(sign, ValueOf(d)), rest)
  {
    hide Unsigned, ParseUnsigned, IsSpace, ValueOf, Digits, IsBlank;
    var b := SkipBlanksIs(w);
    var w' := SkipBlanks(w);
    NumberStarts(sign, d, rest);
    BlankRest(b, w');
    assert w + number == b + (w' + number);
    BlanksSkipped(b, w' + number);
    NumberParsed(w', sign, d, rest);
  }

  lemma BlankRest(b: string, w: string)
    requires IsBlank(b + w)
    ensures IsBlank(w)
  {
    assert forall i :: 0 <= i < |w| ==> w[i] == (b + w)[|b| + i];
  }

  /** What a group was read from, up to the first character that isn't part of it. */
  lemma ParsedGroup(s: string) returns (between: string, sign: string, digits: string)
    ensures var (v, rest) := ParseUnsigned(SkipBlanks(s));
            && s == between + (sign + (digits + rest)) && IsBlank(between) && sign in {"", "+", "-"}
            && Digits(digits) && v == Unsigned(sign, ValueOf(digits))
            && (digits == [] ==> Blanks(between) && sign == "" && (rest != [] ==> rest[0] != ' '))
  {
    hide ParseUnsigned, IsSpace, ValueOf;
    var b := SkipBlanksIs(s);
    BlanksAreSpace(b);
    var w;
    w, sign, digits := ParsedNumber(SkipBlanks(s));
    var rest := ParseUnsigned(SkipBlanks(s)).1;
    if digits == [] {
      w, sign := [], [];
    }
    between := b + w;
    assert between + (sign + (digits + rest)) == b + (w + (sign + (digits + rest)));
  }

  lemma BlanksAreSpace(b: string)
    requires Blanks(b)
    ensures IsBlank(b) && Unsigned("", ValueOf([])) == 0
  {
  }

  /** The parts of the line that precedes a history line. */
  datatype ParamsLine = ParamsLine(before: string, ts: string, between: string, sign: string, digits: string,
                                   behind: string)

  function Spelled(p: ParamsLine, comment: string): string {
    comment + (p.before + (p.ts + (p.between + (p.sign + (p.digits + (p.behind + "\n"))))))
  }

  /** Behind the comment there are a timestamp and a group, with blanks before and behind each. */
  ghost predicate IsParams(p: ParamsLine, t: int, group: nat, decode: string -> Option<int>) {
    && Blanks(p.before) && IsStampOf(p.ts, t, decode) && IsGroup(p.between, p.sign, p.digits, p.behind)
    && group == Unsigned(p.sign, ValueOf(p.digits)) % UINT_RANGE
  }

  lemma ParamsAccepted(p: ParamsLine, t: int, group: nat, comment: string, decode: string -> Option<int>)
    requires IsParams(p, t, group, decode)
    ensures ParseParams(Spelled(p, comment), comment, decode) == Some((t, group))
  {
    hide Unsigned, ValueOf, Digits, SkipBlanks, ParseStamp, ParseUnsigned, IsStampOf, IsBlank;
    var end := p.behind + "\n";
    var s1 := p.between + (p.sign + (p.digits + end));
    var s := p.before + (p.ts + s1);
    assert comment <= comment + s && (comment + s)[|comment|..] == s;
    StampParsed(p.ts, s1, t, decode);
    BlanksSkipped(p.before, p.ts + s1);
    GroupParsed(p.between, p.sign, p.digits, p.behind);
    BlanksSkipped(p.behind, "\n");
    assert end[0] == ' ' || end[0] == '\n';
  }

  lemma AcceptedParams(line: string, comment: string, decode: string -> Option<int>) returns (p: ParamsLine)
    requires ParseParams(line, comment, decode).Some? && forall i :: 0 <= i < |line| - 1 ==> line[i] != '\n'
    ensures var (t, group) := ParseParams(line, comment, decode).value;
            line == Spelled(p, comment) && IsParams(p, t, group, decode)
  {
    hide Unsigned, ValueOf, Digits, SkipBlanks, ParseStamp, ParseUnsigned, IsStampOf, IsBlank, IsTime;
    var s := line[|comment|..];
    assert line == comment + s;
    var before := SkipBlanksIs(s);
    StampStarts(SkipBlanks(s), decode);
    var ts := ParsedStamp(SkipBlanks(s), decode);
    var s1 := ParseStamp(SkipBlanks(s), decode).value.1;
    var between, sign, digits := ParsedGroup(s1);
    var rest := ParseUnsigned(SkipBlanks(s1)).1;
    var behind := SkipBlanksIs(rest);
    var end := SkipBlanks(rest);
    p := ParamsLine(before, ts, between, sign, digits, behind);
    assert line == comment + (before + (ts + (between + (sign + (digits + (behind + end))))));
    assert line[|line| - |end|] == end[0] == '\n';
    assert end == "\n";
    assert behind != [] ==> behind[0] == rest[0];
  }

  lemma StampStarts(s: string, decode: string -> Option<int>)
    ensures ParseStamp(s, decode).Some? ==> s != []
  {
  }

  /** The line that precedes a history line is accepted exactly when it is made of these parts, and they tell the time
      and the group. */
  lemma ParamsAre(line: string, comment: string, decode: string -> Option<int>, t: int, group: nat)
    requires forall i :: 0 <= i < |line| - 1 ==> line[i] != '\n'
    ensures ParseParams(line, comment, decode) == Some((t, group)) <==>
            exists p :: line == Spelled(p, comment) && IsParams(p, t, group, decode)
  {
    hide ParseParams, IsParams, Spelled;
    if ParseParams(line, comment, decode) == Some((t, group)) {
      var p := AcceptedParams(line, comment, decode);
    }
    if p :| line == Spelled(p, comment) && IsParams(p, t, group, decode) {
      ParamsAccepted(p, t, group, comment, decode);
    }
  }

  /** A line without a group is accepted. */
  lemma GroupMissing(decode: string -> Option<int>)
    ensures ParseParams("# ?\n", "#", decode) == Some((-1, 0))
  {
    ParamsAccepted(ParamsLine(" ", "?", "", "", "", ""), -1, 0, "#", decode);
    assert Spelled(ParamsLine(" ", "?", "", "", "", ""), "#") == "# ?\n";
  }
}
