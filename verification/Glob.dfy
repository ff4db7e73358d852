/** File-name patterns: the matcher, what it means for a name to match, and the escaping of names. */
module Glob {
  import opened CStrings

  /** What each part of a pattern stands for. */
  datatype Token = Star | Any | Lit(c: char)

  /** A pattern without character ranges, and which doesn't end in the middle of an escape. */
  predicate Plain(p: string) {
    if p == [] then true
    else if p[0] == '\\' then |p| >= 2 && p[1] != NUL && Plain(p[2..])
    else p[0] != '[' && p[0] != NUL && Plain(p[1..])
  }

  function Parse(p: string): seq<Token>
    requires Plain(p)
  {
    if p == [] then []
    else if p[0] == '\\' then [Lit(p[1])] + Parse(p[2..])
    else [if p[0] == '*' then Star else if p[0] == '?' then Any else Lit(p[0])] + Parse(p[1..])
  }

  // ---- What the code computes ----

  /** ef_string_matches_pattern, of a name and the rest of a pattern. */
  predicate Match(ts: seq<Token>, file: string, xplicit: bool)
    decreases |ts|, 1, |file|
  {
    if ts == [] then file == []
    else match ts[0]
      case Star => !xplicit && (|ts| == 1 || MatchLater(ts[1..], file))
      case Any => !xplicit && file != [] && Match(ts[1..], file[1..], false)
      case Lit(c) => file != [] && file[0] == c && Match(ts[1..], file[1..], false)
  }

  /** Does what follows a `*` match what is left of the name, from one of its characters on? */
  predicate MatchLater(ts: seq<Token>, file: string)
    decreases |ts|, 2, |file|
  {
    file != [] && (Match(ts, file, false) || MatchLater(ts, file[1..]))
  }

  method StringMatchesPattern(file: string, f: nat, pattern: string, p: nat, explicit: bool, nextp: nat)
    returns (r: bool)
    requires f <= |file| && p <= nextp <= |pattern| && NoNul(file) && Plain(pattern[p..nextp])
    ensures r == Match(Parse(pattern[p..nextp]), file[f..], explicit)
    decreases nextp - p
  {
    hide Plain, Parse, NoNul;
    var pptr, fptr, xplicit := p, f, explicit;
    while pptr < nextp
      invariant p <= pptr <= nextp && f <= fptr <= |file| && Plain(pattern[pptr..nextp])
      invariant Match(Parse(pattern[pptr..nextp]), file[fptr..], xplicit)
            == Match(Parse(pattern[p..nextp]), file[f..], explicit)
      decreases nextp - pptr
    {
      ParseStep(pattern[pptr..nextp]);
      NextSlices(pattern, pptr, nextp, file, fptr);
      match pattern[pptr] {
        case '*' =>
          pptr := pptr + 1;
          if xplicit {
            return false;
          }
          if pptr >= nextp {
            ParseNothing(pattern[pptr..nextp]);
            return true;
          }
          ParseNothing(pattern[pptr..nextp]);
          ghost var rest := Parse(pattern[pptr..nextp]);
          while fptr < |file|
            invariant f <= fptr <= |file|
            invariant MatchLater(rest, file[fptr..]) == Match(Parse(pattern[p..nextp]), file[f..], explicit)
          {
            NextSlices(pattern, pptr, nextp, file, fptr);
            var found := StringMatchesPattern(file, fptr, pattern, pptr, false, nextp);
            if found {
              return true;
            }
            fptr := fptr + 1;
          }
          return false;
        case '?' =>
          if !xplicit && fptr < |file| {
            fptr := fptr + 1;
            pptr := pptr + 1;
          } else {
            return false;
          }
        case _ =>
          if pattern[pptr] == '\\' {
            pptr := pptr + 1;
          }
          if fptr < |file| && file[fptr] == pattern[pptr] {
            fptr := fptr + 1;
            pptr := pptr + 1;
          } else {
            return false;
          }
      }
      xplicit := false;
    }
    ParseNothing(pattern[pptr..nextp]);
    return fptr == |file|;
  }

  lemma ParseNothing(p: string)
    ensures p == [] ==> Plain(p) && Parse(p) == []
    ensures p != [] && Plain(p) ==> Parse(p) != []
  {
  }

  lemma ParseStep(p: string)
    requires Plain(p) && p != []
    ensures p[0] == '\\' ==> |p| >= 2 && Plain(p[2..]) && Parse(p) == [Lit(p[1])] + Parse(p[2..])
    ensures p[0] != '\\' ==>
              p[0] != '[' && Plain(p[1..])
              && Parse(p) == [if p[0] == '*' then Star else if p[0] == '?' then Any else Lit(p[0])] + Parse(p[1..])
  {
  }

  lemma NextSlices(pattern: string, p: nat, nextp: nat, file: string, f: nat)
    requires p < nextp <= |pattern| && f <= |file|
    ensures pattern[p..nextp][0] == pattern[p] && pattern[p..nextp][1..] == pattern[p + 1..nextp]
    ensures p + 2 <= nextp ==> pattern[p..nextp][1] == pattern[p + 1] && pattern[p..nextp][2..] == pattern[p + 2..nextp]
    ensures f < |file| ==> file[f..][0] == file[f] && file[f..][1..] == file[f + 1..]
  {
  }

  // ---- What it means to match ----

  /** May a token stand for this part of a name? */
  predicate Stands(t: Token, part: string) {
    match t
    case Star => true
    case Any => |part| == 1
    case Lit(c) => part == [c]
  }

  function Concat(parts: seq<string>): string {
    if parts == [] then [] else parts[0] + Concat(parts[1..])
  }

  /** The name is made of one part for each of the tokens. */
  ghost predicate Covers(ts: seq<Token>, parts: seq<string>, file: string) {
    |parts| == |ts| && Concat(parts) == file && forall i :: 0 <= i < |ts| ==> Stands(ts[i], parts[i])
  }

  ghost predicate Accepts(ts: seq<Token>, file: string) {
    exists parts :: Covers(ts, parts, file)
  }

  predicate StartsWild(ts: seq<Token>) {
    ts != [] && !ts[0].Lit?
  }

  /** Two wildcards that match any number of characters end the pattern. */
  predicate EndsInStars(ts: seq<Token>) {
    |ts| >= 2 && ts[|ts| - 1] == Star && ts[|ts| - 2] == Star
  }

  lemma CoversFirst(ts: seq<Token>, parts: seq<string>, file: string)
    requires ts != [] && Covers(ts, parts, file)
    ensures parts != [] && file == parts[0] + Concat(parts[1..]) && Stands(ts[0], parts[0])
    ensures Covers(ts[1..], parts[1..], file[|parts[0]|..])
  {
  }

  lemma CoversMore(ts: seq<Token>, part: string, parts: seq<string>, file: string)
    requires ts != [] && Stands(ts[0], part) && Covers(ts[1..], parts, file)
    ensures Covers(ts, [part] + parts, part + file)
  {
    assert ([part] + parts)[1..] == parts;
  }

  /** What patterns mean: an ordinary character stands for itself, any character that follows a backslash does, `?`
      stands for any one character, and `*` for any string. */
  lemma PatternsMean(p: string, file: string)
    requires Plain(p)
    ensures p == [] ==> (Accepts(Parse(p), file) <==> file == [])
    ensures p != [] && p[0] == '\\' ==>
              |p| >= 2 && Plain(p[2..])
              && (Accepts(Parse(p), file) <==> file != [] && file[0] == p[1] && Accepts(Parse(p[2..]), file[1..]))
    ensures p != [] && p[0] == '?' ==>
              Plain(p[1..]) && (Accepts(Parse(p), file) <==> file != [] && Accepts(Parse(p[1..]), file[1..]))
    ensures p != [] && p[0] == '*' ==>
              Plain(p[1..])
              && (Accepts(Parse(p), file) <==> exists k :: 0 <= k <= |file| && Accepts(Parse(p[1..]), file[k..]))
    ensures p != [] && p[0] != '\\' && p[0] != '?' && p[0] != '*' ==>
              Plain(p[1..])
              && (Accepts(Parse(p), file) <==> file != [] && file[0] == p[0] && Accepts(Parse(p[1..]), file[1..]))
  {
    hide Accepts, Parse, Plain;
    ParseNothing(p);
    if p == [] {
      AcceptsEmpty(file);
    } else {
      ParseStep(p);
      AcceptsFirst(Parse(p), file);
    }
  }

  lemma AcceptsEmpty(file: string)
    ensures Accepts([], file) <==> file == []
  {
    var none: seq<string> := [];
    assert file == [] ==> Covers([], none, file);
  }

  lemma AcceptsFirst(ts: seq<Token>, file: string)
    requires ts != []
    ensures Accepts(ts, file) <==>
            exists k :: 0 <= k <= |file| && Stands(ts[0], file[..k]) && Accepts(ts[1..], file[k..])
  {
    if Accepts(ts, file) {
      var parts :| Covers(ts, parts, file);
      CoversFirst(ts, parts, file);
      assert file[..|parts[0]|] == parts[0];
    }
    if k :| 0 <= k <= |file| && Stands(ts[0], file[..k]) && Accepts(ts[1..], file[k..]) {
      var parts :| Covers(ts[1..], parts, file[k..]);
      CoversMore(ts, file[..k], parts, file[k..]);
      assert file[..k] + file[k..] == file;
    }
  }

  /** What the code accepts does match. */
  lemma {:induction false} MatchSound(ts: seq<Token>, file: string, xplicit: bool)
    requires Match(ts, file, xplicit)
    ensures Accepts(ts, file) && (xplicit ==> !StartsWild(ts))
    decreases |ts|, 1, |file|
  {
    if ts == [] {
      assert Covers(ts, [], file);
    } else if ts[0] == Star {
      if |ts| == 1 {
        assert Concat([]) == [];
        assert Covers(ts, [file], file);
      } else {
        var k := LaterSound(ts[1..], file);
        var parts :| Covers(ts[1..], parts, file[k..]);
        CoversMore(ts, file[..k], parts, file[k..]);
        assert file[..k] + file[k..] == file;
      }
    } else {
      MatchSound(ts[1..], file[1..], false);
      var parts :| Covers(ts[1..], parts, file[1..]);
      CoversMore(ts, [file[0]], parts, file[1..]);
      assert [file[0]] + file[1..] == file;
    }
  }

  lemma {:induction false} LaterSound(ts: seq<Token>, file: string) returns (k: nat)
    requires MatchLater(ts, file)
    ensures k < |file| && Match(ts, file[k..], false) && Accepts(ts, file[k..])
    decreases |ts|, 2, |file|
  {
    if Match(ts, file, false) {
      k := 0;
      assert file[0..] == file;
      MatchSound(ts, file, false);
    } else {
      var k' := LaterSound(ts, file[1..]);
      k := k' + 1;
      assert file[1..][k'..] == file[k..];
    }
  }

  lemma {:induction false} LaterFinds(ts: seq<Token>, file: string, k: nat)
    requires k < |file| && Match(ts, file[k..], false)
    ensures MatchLater(ts, file)
    decreases k
  {
    if k == 0 {
      assert file[0..] == file;
    } else {
      assert file[1..][k - 1..] == file[k..];
      LaterFinds(ts, file[1..], k - 1);
    }
  }

  /** Only wildcards match nothing at all. */
  lemma {:induction false} AcceptsNothing(ts: seq<Token>)
    requires Accepts(ts, [])
    ensures forall i :: 0 <= i < |ts| ==> ts[i] == Star
  {
    if ts != [] {
      var name: string := [];
      var parts :| Covers(ts, parts, name);
      CoversFirst(ts, parts, name);
      assert parts[0] == [] && name[|parts[0]|..] == [];
      assert Accepts(ts[1..], name);
      AcceptsNothing(ts[1..]);
    }
  }

  lemma OnlyStars(ts: seq<Token>)
    requires |ts| > 1 && ts[0] == Star && Accepts(ts[1..], [])
    ensures EndsInStars(ts)
  {
    AcceptsNothing(ts[1..]);
    assert ts[1..][|ts| - 2] == ts[|ts| - 1];
    assert |ts| > 2 ==> ts[1..][|ts| - 3] == ts[|ts| - 2];
  }

  /** What matches is accepted by the code, unless the pattern ends with two `*`. */
  lemma {:induction false} MatchComplete(ts: seq<Token>, file: string, xplicit: bool)
    requires Accepts(ts, file) && (xplicit ==> !StartsWild(ts)) && !EndsInStars(ts)
    ensures Match(ts, file, xplicit)
    decreases |ts|
  {
    var parts :| Covers(ts, parts, file);
    if ts != [] {
      CoversFirst(ts, parts, file);
      var rest := file[|parts[0]|..];
      assert Accepts(ts[1..], rest);
      assert !EndsInStars(ts[1..]);
      if |ts| > 1 || ts[0] != Star {
        MatchComplete(ts[1..], rest, false);
      }
      if ts[0] == Star && |ts| > 1 {
        if rest == [] {
          OnlyStars(ts);
        }
        LaterFinds(ts[1..], file, |parts[0]|);
      }
    }
  }

  // ---- Exactly when the code is right ----

  /** The shortest name that matches. */
  function Witness(ts: seq<Token>): string {
    if ts == [] then []
    else (match ts[0] case Star => [] case Any => ['a'] case Lit(c) => [c]) + Witness(ts[1..])
  }

  lemma {:induction false} WitnessMatches(ts: seq<Token>)
    ensures Accepts(ts, Witness(ts))
  {
    if ts == [] {
      assert Covers(ts, [], Witness(ts));
    } else {
      WitnessMatches(ts[1..]);
      var parts :| Covers(ts[1..], parts, Witness(ts[1..]));
      CoversMore(ts, match ts[0] case Star => [] case Any => ['a'] case Lit(c) => [c], parts, Witness(ts[1..]));
    }
  }

  lemma {:induction false} WitnessShortest(ts: seq<Token>, file: string)
    requires Accepts(ts, file)
    ensures |Witness(ts)| <= |file|
  {
    var parts :| Covers(ts, parts, file);
    if ts != [] {
      CoversFirst(ts, parts, file);
      WitnessShortest(ts[1..], file[|parts[0]|..]);
    }
  }

  lemma LaterAll(ts: seq<Token>)
    requires MatchLater(ts, Witness(ts))
    ensures Match(ts, Witness(ts), false)
  {
    var w := Witness(ts);
    var k := LaterSound(ts, w);
    WitnessShortest(ts, w[k..]);
    assert w[0..] == w;
  }

  lemma {:induction false} WitnessRefused(ts: seq<Token>, xplicit: bool)
    requires EndsInStars(ts)
    ensures !Match(ts, Witness(ts), xplicit)
    decreases |ts|
  {
    if |ts| > 2 {
      if ts[0] == Star && MatchLater(ts[1..], Witness(ts[1..])) {
        LaterAll(ts[1..]);
      }
      assert ts[1..][|ts| - 2] == ts[|ts| - 1] && ts[1..][|ts| - 3] == ts[|ts| - 2];
      WitnessRefused(ts[1..], false);
      assert Witness(ts)[if ts[0] == Star then 0 else 1..] == Witness(ts[1..]);
      assert Witness(ts)[0..] == Witness(ts);
    } else {
      assert ts[1..] == [Star] && [Star][1..] == [] && Witness([Star]) == [];
    }
  }

  /** Does the code accept exactly the names that match? A first character that must be matched explicitly rules out
      the patterns that start with a wildcard. */
  ghost predicate Right(ts: seq<Token>, xplicit: bool) {
    forall file :: Match(ts, file, xplicit) <==> Accepts(ts, file) && (xplicit ==> !StartsWild(ts))
  }

  /** The code is right, but for the patterns that end with two `*`. */
  lemma RightUnlessStars(ts: seq<Token>, xplicit: bool)
    ensures Right(ts, xplicit) <==> !EndsInStars(ts) || (xplicit && StartsWild(ts))
  {
    if EndsInStars(ts) && !(xplicit && StartsWild(ts)) {
      WitnessMatches(ts);
      WitnessRefused(ts, xplicit);
    } else {
      forall file ensures Match(ts, file, xplicit) <==> Accepts(ts, file) && (xplicit ==> !StartsWild(ts)) {
        if Match(ts, file, xplicit) {
          MatchSound(ts, file, xplicit);
        }
        if Accepts(ts, file) && (xplicit ==> !StartsWild(ts)) {
          MatchComplete(ts, file, xplicit);
        }
      }
    }
  }

  /** Two `*` are refused a name that one of them accepts. */
  lemma TwoStars()
    ensures Plain("**") && !Match(Parse("**"), "", false) && Accepts(Parse("**"), "")
    ensures Plain("*") && Match(Parse("*"), "", false)
  {
    assert "**"[1..] == "*" && "*"[1..] == "";
    var parts: seq<string> := ["", ""];
    assert parts[1..] == [""] && [""][1..] == [];
    assert Covers(Parse("**"), parts, "");
  }

  // ---- Escaping ----

  predicate IsSpecial(c: char) {
    c in {' ', '\t', '\\', '*', '?', '['}
  }

  function Escape(s: string): string {
    if s == [] then [] else (if IsSpecial(s[0]) then ['\\', s[0]] else [s[0]]) + Escape(s[1..])
  }

  function Literally(s: string): seq<Token> {
    seq(|s|, i requires 0 <= i < |s| => Lit(s[i]))
  }

  lemma {:induction false} EscapeParses(s: string)
    requires NoNul(s)
    ensures Plain(Escape(s)) && Parse(Escape(s)) == Literally(s)
  {
    if s != [] {
      EscapeParses(s[1..]);
      var p := Escape(s);
      assert if IsSpecial(s[0]) then p[0] == '\\' && p[1] == s[0] && p[2..] == Escape(s[1..])
             else p[0] == s[0] && p[1..] == Escape(s[1..]);
      assert Literally(s) == [Lit(s[0])] + Literally(s[1..]);
    }
  }

  lemma {:induction false} LiterallyMatches(s: string, file: string, xplicit: bool)
    ensures Match(Literally(s), file, xplicit) <==> file == s
    decreases |s|
  {
    if s != [] {
      assert Literally(s)[1..] == Literally(s[1..]);
      if file != [] {
        LiterallyMatches(s[1..], file[1..], false);
        assert file == [file[0]] + file[1..] && s == [s[0]] + s[1..];
      }
    }
  }

  /** A name that has been escaped matches that name, and no other. */
  lemma EscapedMatchesItself(s: string, file: string, xplicit: bool)
    requires NoNul(s)
    ensures Plain(Escape(s))
    ensures Match(Parse(Escape(s)), file, xplicit) <==> file == s
  {
    EscapeParses(s);
    LiterallyMatches(s, file, xplicit);
  }

  /** What a command line that starts with a name is read as: the name, up to a space or a tab that is not escaped,
      without the backslashes that escape characters of it; and the rest of the line. */
  function ReadName(line: string): (string, string) {
    if line == [] || line[0] == ' ' || line[0] == '\t' then ([], line)
    else if line[0] == '\\' && |line| > 1 then
      var (name, rest) := ReadName(line[2..]);
      ([line[1]] + name, rest)
    else
      var (name, rest) := ReadName(line[1..]);
      ([line[0]] + name, rest)
  }

  /** An escaped name is read back as that name, with what follows it on the line left. */
  lemma {:induction false} EscapedReadsBack(s: string, rest: string)
    requires rest == [] || rest[0] == ' ' || rest[0] == '\t'
    ensures ReadName(Escape(s) + rest) == (s, rest)
  {
    if s == [] {
      assert Escape(s) + rest == rest;
    } else {
      EscapedReadsBack(s[1..], rest);
      var line, more := Escape(s) + rest, Escape(s[1..]) + rest;
      assert if IsSpecial(s[0]) then line == ['\\', s[0]] + more && line[2..] == more
             else line == [s[0]] + more && line[1..] == more;
      assert s == [s[0]] + s[1..];
    }
  }

  /** A backslash is added for each space, tab, backslash, `*`, `?` and `[`, and for no other character. */
  lemma {:induction false} BackslashesAdded(s: string)
    ensures var m := multiset(s);
            |Escape(s)| == |s| + m[' '] + m['\t'] + m['\\'] + m['*'] + m['?'] + m['[']
  {
    if s != [] {
      BackslashesAdded(s[1..]);
      assert s == [s[0]] + s[1..];
    }
  }

  function Specials(s: string): (n: nat)
    ensures n <= |s|
  {
    if s == [] then 0 else Specials(s[..|s| - 1]) + if IsSpecial(s[|s| - 1]) then 1 else 0
  }

  lemma {:induction false} EscapeJoin(s: string, t: string)
    ensures Escape(s + t) == Escape(s) + Escape(t)
  {
    if s == [] {
      assert s + t == t;
    } else {
      assert (s + t)[1..] == s[1..] + t;
      EscapeJoin(s[1..], t);
    }
  }

  lemma EscapeOne(s: string, i: nat)
    requires i < |s|
    ensures s[..i + 1] == s[..i] + [s[i]] && s[..i + 1][..i] == s[..i]
    ensures Escape(s[..i + 1]) == Escape(s[..i]) + if IsSpecial(s[i]) then ['\\', s[i]] else [s[i]]
    ensures Specials(s[..i + 1]) == Specials(s[..i]) + if IsSpecial(s[i]) then 1 else 0
  {
    assert s[..i + 1] == s[..i] + [s[i]];
    EscapeJoin(s[..i], [s[i]]);
    assert [s[i]][1..] == [];
  }

  lemma {:induction false} EscapeLength(s: string)
    ensures |Escape(s)| == |s| + Specials(s)
    ensures Specials(s) == 0 ==> Escape(s) == s
  {
    if s != [] {
      var n := |s| - 1;
      EscapeLength(s[..n]);
      EscapeOne(s, n);
      assert s[..n + 1] == s && s == s[..n] + [s[n]];
    }
  }

  lemma {:induction false} SpecialsGrow(s: string, i: nat)
    requires i <= |s|
    ensures Specials(s[..i]) <= Specials(s)
  {
    if i < |s| {
      SpecialsGrow(s[..|s| - 1], i);
      assert s[..|s| - 1][..i] == s[..i];
    } else {
      assert s[..i] == s;
    }
  }

  lemma {:induction false} EscapeNoNul(s: string)
    requires NoNul(s)
    ensures NoNul(Escape(s))
  {
    if s != [] {
      EscapeNoNul(s[1..]);
    }
  }

  /** Count the backslashes that have to be added. */
  method CountSpecials(suffix: string) returns (nbsl: nat)
    ensures nbsl == Specials(suffix)
  {
    nbsl := 0;
    var i := 0;
    while i < |suffix|
      invariant 0 <= i <= |suffix| && nbsl == Specials(suffix[..i])
    {
      EscapeOne(suffix, i);
      if IsSpecial(suffix[i]) {
        nbsl := nbsl + 1;
      }
      i := i + 1;
    }
    assert suffix[..i] == suffix;
  }

  /** Copy a string that needs no escapes. */
  method CopyPlain(name: array<char>, suffix: string)
    requires name.Length == |suffix| + 1
    modifies name
    ensures name[|suffix|] == NUL && name[..|suffix|] == suffix
  {
    var i := 0;
    while i < |suffix|
      invariant 0 <= i <= |suffix| && name[..i] == suffix[..i]
    {
      name[i] := suffix[i];
      i := i + 1;
    }
    name[i] := NUL;
  }

  /** Copy a string, escaping its special characters. */
  method CopyEscaped(name: array<char>, suffix: string) returns (dst: nat)
    requires name.Length == |suffix| + Specials(suffix) + 1
    modifies name
    ensures dst == |Escape(suffix)| == name.Length - 1 && name[dst] == NUL && name[..dst] == Escape(suffix)
  {
    hide Specials, Escape;
    var i := 0;
    dst := 0;
    EscapeLength([]);
    while i < |suffix|
      invariant 0 <= i <= |suffix| && dst == i + Specials(suffix[..i]) < name.Length
      invariant name[..dst] == Escape(suffix[..i])
    {
      EscapeOne(suffix, i);
      SpecialsGrow(suffix, i + 1);
      if IsSpecial(suffix[i]) {
        name[dst] := '\\';
        dst := dst + 1;
      }
      name[dst] := suffix[i];
      dst := dst + 1;
      i := i + 1;
    }
    assert suffix[..i] == suffix;
    EscapeLength(suffix);
    name[dst] := NUL;
  }

  class CompleteFile {
    var buff: array<char>

    constructor ()
      ensures buff.Length == 1 && buff[0] == NUL
    {
      buff := new char[1];
      new;
      buff[0] := NUL;
    }

    /** cf_prepare_suffix */
    method PrepareSuffix(suffix: string, addEscapes: bool) returns (error: bool)
      requires NoNul(suffix)
      modifies this
      ensures !error && NUL in buff[..] && CStr(buff[..]) == if addEscapes then Escape(suffix) else suffix
      ensures addEscapes ==> ReadName(CStr(buff[..])) == (suffix, [])
    {
      hide Specials, Escape, ReadName;
      EscapedReadsBack(suffix, []);
      assert Escape(suffix) + [] == Escape(suffix);
      var nbsl := 0;
      if addEscapes {
        nbsl := CountSpecials(suffix);
      }
      buff := new char[|suffix| + nbsl + 1];
      EscapeLength(suffix);
      EscapeNoNul(suffix);
      if nbsl == 0 {
        CopyPlain(buff, suffix);
        StrLenUnique(buff[..], |suffix|);
      } else {
        var dst := CopyEscaped(buff, suffix);
        StrLenUnique(buff[..], dst);
      }
      return false;
    }
  }
}
