/** Completions: their common prefix, and how they are listed in columns. */
module Completion {
  import opened CStrings
  import opened Arithmetic
  import opened IoUtil

  const STR_BLK_FACT: nat := 100
  const CPL_COL_SEP: nat := 2

  datatype CplMatch = CplMatch(completion: string, suffix: string, typeSuffix: string)

  // ---- The common prefix ----

  /** strcmp(a, b) <= 0 */
  predicate LexLe(a: string, b: string) {
    a == [] || (b != [] && (a[0] < b[0] || (a[0] == b[0] && LexLe(a[1..], b[1..]))))
  }

  /** One string comes before another if it is a prefix of it, or has the lesser character where they first differ. */
  lemma {:induction false} LexLeMeans(a: string, b: string)
    ensures LexLe(a, b) <==> a <= b || exists k :: 0 <= k < |a| && k < |b| && a[..k] == b[..k] && a[k] < b[k]
  {
    if a != [] && b != [] {
      var p, q := a[1..], b[1..];
      LexLeMeans(p, q);
      if k :| 0 <= k < |a| && k < |b| && a[..k] == b[..k] && a[k] < b[k] {
        if k > 0 {
          assert a[0] == a[..k][0] == b[0];
          assert p[..k - 1] == a[..k][1..] == b[..k][1..] == q[..k - 1];
          assert p[k - 1] < q[k - 1];
        }
      }
      if a[0] == b[0] {
        assert p <= q ==> a <= b;
        if k :| 0 <= k < |p| && k < |q| && p[..k] == q[..k] && p[k] < q[k] {
          assert a[..k + 1] == [a[0]] + p[..k] == [b[0]] + q[..k] == b[..k + 1];
          assert a[k + 1] < b[k + 1];
        }
      } else if a[0] < b[0] {
        assert a[..0] == b[..0];
      }
    }
  }

  /** The longest prefix that two strings have in common. */
  function Common(a: string, b: string): (c: string)
    ensures c <= a && c <= b
  {
    if a == [] || b == [] || a[0] != b[0] then [] else [a[0]] + Common(a[1..], b[1..])
  }

  ghost predicate IsPrefixOfAll(p: string, ss: seq<string>) {
    forall s :: s in ss ==> p <= s
  }

  /** p is what all of the strings start with, and anything else that they all start with is part of it. */
  ghost predicate IsLongestPrefix(p: string, ss: seq<string>) {
    IsPrefixOfAll(p, ss) && forall q :: IsPrefixOfAll(q, ss) ==> q <= p
  }

  ghost predicate Ordered(ss: seq<string>) {
    forall i, j :: 0 <= i < j < |ss| ==> LexLe(ss[i], ss[j])
  }

  lemma {:induction false} CommonIsLongest(a: string, b: string, q: string)
    requires q <= a && q <= b
    ensures q <= Common(a, b)
  {
    if q != [] {
      CommonIsLongest(a[1..], b[1..], q[1..]);
      assert q == [q[0]] + q[1..];
    }
  }

  /** What lies between two strings starts with what they have in common. */
  lemma {:induction false} Between(a: string, x: string, b: string)
    requires LexLe(a, x) && LexLe(x, b)
    ensures Common(a, b) <= x
  {
    if a != [] && b != [] && a[0] == b[0] {
      Between(a[1..], x[1..], b[1..]);
      assert x == [x[0]] + x[1..];
    }
  }

  lemma {:induction false} LexLeRefl(a: string)
    ensures LexLe(a, a)
  {
    if a != [] {
      LexLeRefl(a[1..]);
    }
  }

  lemma {:induction false} LexLeTotal(a: string, b: string)
    ensures LexLe(a, b) || LexLe(b, a)
  {
    if a != [] && b != [] {
      LexLeTotal(a[1..], b[1..]);
    }
  }

  lemma {:induction false} LexLeTrans(a: string, b: string, c: string)
    requires LexLe(a, b) && LexLe(b, c)
    ensures LexLe(a, c)
  {
    if a != [] {
      if a[0] == b[0] && b[0] == c[0] {
        LexLeTrans(a[1..], b[1..], c[1..]);
      }
    }
  }

  /** Of strings in order, only the first and the last matter. */
  lemma EndsSuffice(ss: seq<string>)
    requires ss != [] && Ordered(ss)
    ensures IsLongestPrefix(Common(ss[0], ss[|ss| - 1]), ss)
  {
    var first, last := ss[0], ss[|ss| - 1];
    assert first in ss && last in ss;
    forall s | s in ss ensures Common(first, last) <= s {
      var i :| 0 <= i < |ss| && ss[i] == s;
      LexLeRefl(s);
      Between(first, s, last);
    }
    forall q | IsPrefixOfAll(q, ss) ensures q <= Common(first, last) {
      CommonIsLongest(first, last, q);
    }
  }

  lemma PrefixOfSame(p: string, ss: seq<string>, ts: seq<string>)
    requires IsLongestPrefix(p, ss) && forall s :: s in ss <==> s in ts
    ensures IsLongestPrefix(p, ts)
  {
    forall q ensures IsPrefixOfAll(q, ss) <==> IsPrefixOfAll(q, ts) {
    }
  }

  /** The longest common prefix doesn't depend on the order of the strings, nor on how often each of them is there. */
  lemma SamePrefix(p: string, ss: seq<string>, q: string, ts: seq<string>)
    requires IsLongestPrefix(p, ss) && IsLongestPrefix(q, ts)
    requires forall s :: s in ss <==> s in ts
    ensures p == q
  {
    PrefixOfSame(p, ss, ts);
  }

  // ---- Sorting ----

  /** What qsort() does with a comparison of suffixes. */
  function Inserted(m: CplMatch, ms: seq<CplMatch>): (r: seq<CplMatch>)
    ensures |r| == |ms| + 1
  {
    if ms == [] || LexLe(m.suffix, ms[0].suffix) then [m] + ms else [ms[0]] + Inserted(m, ms[1..])
  }

  function Sorted(ms: seq<CplMatch>): (r: seq<CplMatch>)
    ensures |r| == |ms|
  {
    if ms == [] then [] else Inserted(ms[0], Sorted(ms[1..]))
  }

  function Suffixes(ms: seq<CplMatch>): (r: seq<string>)
    ensures |r| == |ms| && forall i :: 0 <= i < |ms| ==> r[i] == ms[i].suffix
  {
    seq(|ms|, i requires 0 <= i < |ms| => ms[i].suffix)
  }

  ghost predicate InOrder(ms: seq<CplMatch>) {
    forall i, j :: 0 <= i < j < |ms| ==> LexLe(ms[i].suffix, ms[j].suffix)
  }

  lemma {:induction false} InsertedHas(m: CplMatch, ms: seq<CplMatch>)
    ensures multiset(Inserted(m, ms)) == multiset(ms) + multiset{m}
    ensures forall x :: x in Inserted(m, ms) ==> x == m || x in ms
  {
    if ms != [] && !LexLe(m.suffix, ms[0].suffix) {
      InsertedHas(m, ms[1..]);
      assert ms == [ms[0]] + ms[1..];
    }
  }

  lemma {:induction false} InsertedKeeps(m: CplMatch, ms: seq<CplMatch>)
    requires InOrder(ms)
    ensures InOrder(Inserted(m, ms))
  {
    if ms == [] {
    } else if LexLe(m.suffix, ms[0].suffix) {
      forall j | 1 <= j <= |ms| ensures LexLe(m.suffix, ([m] + ms)[j].suffix) {
        if j > 1 {
          LexLeTrans(m.suffix, ms[0].suffix, ms[j - 1].suffix);
        }
      }
    } else {
      InsertedKeeps(m, ms[1..]);
      InsertedHas(m, ms[1..]);
      LexLeTotal(m.suffix, ms[0].suffix);
      var r := Inserted(m, ms[1..]);
      forall x | x in r ensures LexLe(ms[0].suffix, x.suffix) {
        if x != m {
          var n :| 0 <= n < |ms[1..]| && ms[1..][n] == x;
          assert ms[n + 1] == x;
        }
      }
    }
  }

  /** Sorting puts the matches in order, and keeps each of them. */
  lemma {:induction false} SortedKeeps(ms: seq<CplMatch>)
    ensures InOrder(Sorted(ms)) && multiset(Sorted(ms)) == multiset(ms)
  {
    if ms != [] {
      SortedKeeps(ms[1..]);
      InsertedKeeps(ms[0], Sorted(ms[1..]));
      InsertedHas(ms[0], Sorted(ms[1..]));
      assert ms == [ms[0]] + ms[1..];
    }
  }

  lemma SuffixesHave(ms: seq<CplMatch>, s: string)
    ensures s in Suffixes(ms) <==> exists m :: m in multiset(ms) && m.suffix == s
  {
    if s in Suffixes(ms) {
      var i :| 0 <= i < |ms| && Suffixes(ms)[i] == s;
      assert ms[i] in multiset(ms);
    }
    if m :| m in multiset(ms) && m.suffix == s {
      var i :| 0 <= i < |ms| && ms[i] == m;
      assert Suffixes(ms)[i] == s;
    }
  }

  /** The longest common prefix of the suffixes is that of the first and the last one, once they have been sorted. */
  lemma CommonSuffixIs(ms: seq<CplMatch>)
    requires ms != []
    ensures var r := Sorted(ms); IsLongestPrefix(Common(r[0].suffix, r[|r| - 1].suffix), Suffixes(ms))
  {
    var r := Sorted(ms);
    SortedKeeps(ms);
    EndsSuffice(Suffixes(r));
    forall s ensures s in Suffixes(r) <==> s in Suffixes(ms) {
      SuffixesHave(r, s);
      SuffixesHave(ms, s);
    }
    PrefixOfSame(Common(r[0].suffix, r[|r| - 1].suffix), Suffixes(r), Suffixes(ms));
  }

  // ---- Columns ----

  datatype CplListFormat = CplListFormat(termWidth: nat, columnWidth: nat, ncol: nat, nline: nat)

  function Label(m: CplMatch): string {
    m.completion + m.typeSuffix
  }

  /** The length of the longest of the first n labels. */
  function MaxLen(ms: seq<CplMatch>, n: nat): (r: nat)
    requires n <= |ms|
    ensures forall i :: 0 <= i < n ==> |Label(ms[i])| <= r
    ensures r == 0 || exists i :: 0 <= i < n && |Label(ms[i])| == r
  {
    if n == 0 then 0
    else
      var r, len := MaxLen(ms, n - 1), |Label(ms[n - 1])|;
      if len > r then len else r
  }

  /** cpl_plan_listing */
  function Plan(ms: seq<CplMatch>, width: int): CplListFormat {
    var w: nat := if width < 0 then 0 else width;
    var maxlen := MaxLen(ms, |ms|);
    if maxlen == 0 then CplListFormat(w, 0, 0, 0)
    else
      var n := Floor(w, maxlen + CPL_COL_SEP);
      var ncol := if n < 1 then 1 else n;
      CplListFormat(w, maxlen, ncol, Ceiling(|ms|, ncol))
  }

  function Spaces(n: int): (s: string)
    ensures |s| == (if n < 0 then 0 else n) && forall i :: 0 <= i < |s| ==> s[i] == ' '
  {
    if n <= 0 then [] else [' '] + Spaces(n - 1)
  }

  /** The match that is listed in a given column of a line. */
  function Index(fmt: CplListFormat, lnum: nat, col: nat): nat {
    col * fmt.nline + lnum
  }

  /** Where a column starts. */
  function Start(fmt: CplListFormat, col: nat): nat {
    col * (fmt.columnWidth + CPL_COL_SEP)
  }

  /** A match, padded if another column follows. */
  function CellText(m: CplMatch, fmt: CplListFormat, col: nat): string {
    Label(m) + (if col + 1 < fmt.ncol then Spaces(fmt.columnWidth + CPL_COL_SEP - |Label(m)|) else [])
  }

  /** What is written on a line for one column. */
  function Cell(ms: seq<CplMatch>, fmt: CplListFormat, lnum: nat, col: nat): string {
    var m := Index(fmt, lnum, col);
    if m >= |ms| then []
    else CellText(ms[m], fmt, col)
  }

  /** What is written on a line for the first n columns. */
  function Cells(ms: seq<CplMatch>, fmt: CplListFormat, lnum: nat, n: nat): string {
    if n == 0 then [] else Cells(ms, fmt, lnum, n - 1) + Cell(ms, fmt, lnum, n - 1)
  }

  function LineText(ms: seq<CplMatch>, fmt: CplListFormat, lnum: nat): string {
    Cells(ms, fmt, lnum, fmt.ncol)
  }

  lemma IndexStep(fmt: CplListFormat, lnum: nat, col: nat)
    ensures Index(fmt, lnum, col + 1) == Index(fmt, lnum, col) + fmt.nline
    ensures Start(fmt, col + 1) == Start(fmt, col) + fmt.columnWidth + CPL_COL_SEP
    ensures Index(fmt, lnum, 0) == lnum && Start(fmt, 0) == 0
  {
  }

  /** The line that a match is listed on. */
  function LineOf(fmt: CplListFormat, m: nat): nat
    requires fmt.nline > 0
  {
    m % fmt.nline
  }

  /** The column that a match is listed in. */
  function ColumnOf(fmt: CplListFormat, m: nat): nat
    requires fmt.nline > 0
  {
    m / fmt.nline
  }

  lemma IndexIs(fmt: CplListFormat, lnum: nat, col: nat)
    requires lnum < fmt.nline
    ensures ColumnOf(fmt, Index(fmt, lnum, col)) == col && LineOf(fmt, Index(fmt, lnum, col)) == lnum
  {
    DivUnique(Index(fmt, lnum, col), fmt.nline, col, lnum);
  }

  lemma PlaceOf(fmt: CplListFormat, m: nat)
    requires fmt.nline > 0
    ensures Index(fmt, LineOf(fmt, m), ColumnOf(fmt, m)) == m && LineOf(fmt, m) < fmt.nline
    ensures m < fmt.ncol * fmt.nline ==> ColumnOf(fmt, m) < fmt.ncol
  {
    Multiples(fmt.nline, fmt.ncol, m / fmt.nline);
  }

  /** Are there as many columns as fit on the terminal, but at least one, and no more lines than n matches need? */
  ghost predicate IsSnug(fmt: CplListFormat, n: nat) {
    && fmt.ncol > 0 && fmt.ncol * (fmt.nline - 1) < n <= fmt.ncol * fmt.nline
    && fmt.termWidth < (fmt.ncol + 1) * (fmt.columnWidth + CPL_COL_SEP)
    && (fmt.ncol > 1 ==> fmt.ncol * (fmt.columnWidth + CPL_COL_SEP) <= fmt.termWidth)
  }

  lemma PlanIs(ms: seq<CplMatch>, width: int)
    ensures var fmt := Plan(ms, width);
            && fmt.termWidth == (if width < 0 then 0 else width) && fmt.columnWidth == MaxLen(ms, |ms|)
            && (if fmt.columnWidth > 0 then IsSnug(fmt, |ms|) else fmt.ncol == fmt.nline == 0)
  {
    hide MaxLen, Floor, Ceiling, IsSnug;
    var fmt := Plan(ms, width);
    if fmt.columnWidth > 0 {
      PlanSnug(fmt, |ms|);
    }
  }

  lemma PlanSnug(fmt: CplListFormat, n: nat)
    requires var w := Floor(fmt.termWidth, fmt.columnWidth + CPL_COL_SEP);
             fmt.ncol == (if w < 1 then 1 else w) && fmt.nline == Ceiling(n, fmt.ncol)
    ensures IsSnug(fmt, n)
  {
    hide Floor, Ceiling;
    RoundedUp(n, fmt.ncol);
    RoundedDown(fmt.termWidth, fmt.columnWidth + CPL_COL_SEP);
  }

  /** Each match is in exactly one place of the listing. */
  lemma EachOnce(ms: seq<CplMatch>, width: int, m: nat)
    requires m < |ms| && MaxLen(ms, |ms|) > 0
    ensures var fmt := Plan(ms, width);
            && fmt.nline > 0 && LineOf(fmt, m) < fmt.nline && ColumnOf(fmt, m) < fmt.ncol
            && forall lnum: nat, col: nat :: lnum < fmt.nline ==>
                 (Index(fmt, lnum, col) == m <==> lnum == LineOf(fmt, m) && col == ColumnOf(fmt, m))
  {
    hide Plan, Index, MaxLen, LineOf, ColumnOf;
    var fmt := Plan(ms, width);
    PlanIs(ms, width);
    PositiveLines(m, fmt);
    PlaceOf(fmt, m);
    forall lnum: nat, col: nat | lnum < fmt.nline
      ensures Index(fmt, lnum, col) == m <==> lnum == LineOf(fmt, m) && col == ColumnOf(fmt, m)
    {
      IndexIs(fmt, lnum, col);
    }
  }

  lemma PositiveLines(m: nat, fmt: CplListFormat)
    requires m < fmt.ncol * fmt.nline
    ensures fmt.nline > 0
  {
  }

  lemma LabelFits(ms: seq<CplMatch>, width: int, m: nat)
    requires m < |ms|
    ensures |Label(ms[m])| <= Plan(ms, width).columnWidth
  {
  }

  /** A column that is reached starts at a multiple of the width of the columns and what separates them. */
  lemma {:induction false} ColumnStarts(ms: seq<CplMatch>, width: int, lnum: nat, col: nat)
    requires var fmt := Plan(ms, width);
             lnum < fmt.nline && col < fmt.ncol && (col > 0 ==> Index(fmt, lnum, col - 1) < |ms|)
    ensures var fmt := Plan(ms, width); |Cells(ms, fmt, lnum, col)| == Start(fmt, col)
  {
    hide Plan, Index, Start, MaxLen;
    var fmt := Plan(ms, width);
    IndexStep(fmt, lnum, 0);
    if col > 0 {
      IndexStep(fmt, lnum, col - 1);
      if col > 1 {
        IndexStep(fmt, lnum, col - 2);
      }
      ColumnStarts(ms, width, lnum, col - 1);
      LabelFits(ms, width, Index(fmt, lnum, col - 1));
    }
  }

  predicate IsAt(line: string, at: nat, text: string) {
    at + |text| <= |line| && line[at..at + |text|] == text
  }

  predicate IsListed(ms: seq<CplMatch>, fmt: CplListFormat, m: nat)
    requires m < |ms|
  {
    fmt.nline > 0 && IsAt(LineText(ms, fmt, LineOf(fmt, m)), Start(fmt, ColumnOf(fmt, m)), Label(ms[m]))
  }

  /** Where a match is listed: its label is at the start of its column, on its line; but matches all of which are empty
      aren't listed at all. */
  lemma MatchIsListed(ms: seq<CplMatch>, width: int, m: nat)
    requires m < |ms|
    ensures IsListed(ms, Plan(ms, width), m) <==> MaxLen(ms, |ms|) > 0
  {
    if MaxLen(ms, |ms|) > 0 {
      LabelIsListed(ms, width, m);
    }
  }

  lemma LabelIsListed(ms: seq<CplMatch>, width: int, m: nat)
    requires m < |ms| && MaxLen(ms, |ms|) > 0
    ensures IsListed(ms, Plan(ms, width), m)
  {
    hide Plan, Index, Start, MaxLen, Cells, Cell, LineOf, ColumnOf, IsAt;
    var fmt := Plan(ms, width);
    EachOnce(ms, width, m);
    var lnum, col := LineOf(fmt, m), ColumnOf(fmt, m);
    PlaceOf(fmt, m);
    if col > 0 {
      IndexStep(fmt, lnum, col - 1);
    }
    ColumnStarts(ms, width, lnum, col);
    CellStarts(ms, fmt, lnum, col);
    CellsGrow(ms, fmt, lnum, col + 1, fmt.ncol);
    StaysAt(Cells(ms, fmt, lnum, col + 1), LineText(ms, fmt, lnum), Start(fmt, col), Label(ms[m]));
  }

  lemma CellStarts(ms: seq<CplMatch>, fmt: CplListFormat, lnum: nat, col: nat)
    requires Index(fmt, lnum, col) < |ms|
    ensures IsAt(Cells(ms, fmt, lnum, col + 1), |Cells(ms, fmt, lnum, col)|, Label(ms[Index(fmt, lnum, col)]))
  {
    hide Index, Spaces, Label;
  }

  /** What is between a match and the next column is blank. */
  lemma GapIsBlank(ms: seq<CplMatch>, width: int, lnum: nat, col: nat)
    requires var fmt := Plan(ms, width);
             lnum < fmt.nline && col + 1 < fmt.ncol && Index(fmt, lnum, col) < |ms|
    ensures var fmt := Plan(ms, width);
            var line, shown := LineText(ms, fmt, lnum), Label(ms[Index(fmt, lnum, col)]);
            && Start(fmt, col) + |shown| + CPL_COL_SEP <= Start(fmt, col + 1) <= |line|
            && forall i :: Start(fmt, col) + |shown| <= i < Start(fmt, col + 1) ==> line[i] == ' '
  {
    hide Plan, Index, Start, MaxLen, Cell, Spaces, Label;
    var fmt := Plan(ms, width);
    var m := Index(fmt, lnum, col);
    IndexStep(fmt, lnum, col);
    if col > 0 {
      IndexStep(fmt, lnum, col - 1);
    }
    LabelFits(ms, width, m);
    ColumnStarts(ms, width, lnum, col);
    CellsGrow(ms, fmt, lnum, col + 1, fmt.ncol);
    var before, part, line := Cells(ms, fmt, lnum, col), Cells(ms, fmt, lnum, col + 1), LineText(ms, fmt, lnum);
    CellPadded(ms, fmt, lnum, col);
    var shown, pad := Label(ms[m]), Spaces(fmt.columnWidth + CPL_COL_SEP - |Label(ms[m])|);
    assert part == before + (shown + pad) && part <= line;
    forall i | Start(fmt, col) + |shown| <= i < Start(fmt, col + 1) ensures line[i] == ' ' {
      assert line[i] == part[i] == pad[i - |before| - |shown|];
    }
  }

  lemma CellPadded(ms: seq<CplMatch>, fmt: CplListFormat, lnum: nat, col: nat)
    requires Index(fmt, lnum, col) < |ms| && col + 1 < fmt.ncol
    ensures var shown := Label(ms[Index(fmt, lnum, col)]);
            Cell(ms, fmt, lnum, col) == shown + Spaces(fmt.columnWidth + CPL_COL_SEP - |shown|)
  {
    hide Index, Spaces, Label;
  }

  lemma StaysAt(part: string, line: string, at: nat, text: string)
    requires part <= line && IsAt(part, at, text)
    ensures IsAt(line, at, text)
  {
    assert line[..|part|][at..at + |text|] == text;
  }

  lemma {:induction false} CellsGrow(ms: seq<CplMatch>, fmt: CplListFormat, lnum: nat, n: nat, k: nat)
    requires n <= k
    ensures Cells(ms, fmt, lnum, n) <= Cells(ms, fmt, lnum, k)
    decreases k
  {
    hide Cell;
    if n < k {
      CellsGrow(ms, fmt, lnum, n, k - 1);
    }
  }

  lemma CellFits(ms: seq<CplMatch>, width: int, lnum: nat, col: nat)
    ensures var fmt := Plan(ms, width);
            |Cell(ms, fmt, lnum, col)| <= fmt.columnWidth + if col + 1 < fmt.ncol then CPL_COL_SEP else 0
  {
    hide Plan, Index, Label;
    var m := Index(Plan(ms, width), lnum, col);
    if m < |ms| {
      LabelFits(ms, width, m);
    }
  }

  /** How far the first n columns of a line reach. */
  lemma {:induction false} CellsWidth(ms: seq<CplMatch>, width: int, lnum: nat, n: nat)
    requires n <= Plan(ms, width).ncol && lnum < Plan(ms, width).nline
    ensures var fmt := Plan(ms, width);
            |Cells(ms, fmt, lnum, n)|
            <= if n > 0 && n == fmt.ncol then Start(fmt, n - 1) + fmt.columnWidth else Start(fmt, n)
  {
    hide Plan, Start, Cell;
    if n > 0 {
      IndexStep(Plan(ms, width), lnum, n - 1);
      CellsWidth(ms, width, lnum, n - 1);
      CellFits(ms, width, lnum, n - 1);
    }
  }

  /** Every line fits on the terminal, if and only if the longest of the labels does. */
  lemma LinesFit(ms: seq<CplMatch>, width: nat)
    ensures var fmt := Plan(ms, width);
            (forall lnum: nat :: lnum < fmt.nline ==> |LineText(ms, fmt, lnum)| <= width) <==> fmt.columnWidth <= width
  {
    hide Plan, Index, Start, Cells, Cell, LineOf, ColumnOf;
    var fmt := Plan(ms, width);
    PlanIs(ms, width);
    if fmt.columnWidth > 0 {
      IndexStep(fmt, 0, fmt.ncol - 1);
      IndexStep(fmt, 0, 0);
      StartIs(fmt);
      forall lnum: nat | lnum < fmt.nline && fmt.columnWidth <= width ensures |LineText(ms, fmt, lnum)| <= width {
        CellsWidth(ms, width, lnum, fmt.ncol);
      }
      var i :| 0 <= i < |ms| && |Label(ms[i])| == fmt.columnWidth;
      MatchIsListed(ms, width, i);
      EachOnce(ms, width, i);
      assert |LineText(ms, fmt, LineOf(fmt, i))| >= fmt.columnWidth;
    }
  }

  lemma StartIs(fmt: CplListFormat)
    ensures Start(fmt, fmt.ncol) == fmt.ncol * (fmt.columnWidth + CPL_COL_SEP)
  {
  }

  // ---- Writing a listing ----

  /** Was a text written after what had been written before, or as much of it as could be? */
  ghost predicate Wrote(before: string, after: string, text: string, ok: bool) {
    if ok then after == before + text else before <= after <= before + text
  }

  lemma WroteThen(a: string, b: string, c: string, s: string, t: string, ok: bool)
    requires Wrote(a, b, s, true) && Wrote(b, c, t, ok)
    ensures Wrote(a, c, s + t, ok)
  {
    assert b + t == a + (s + t);
  }

  lemma WrotePart(a: string, b: string, s: string, t: string)
    requires Wrote(a, b, s, false)
    ensures Wrote(a, b, s + t, false)
  {
    assert a + (s + t) == (a + s) + t;
  }

  lemma WroteNothing(a: string, s: string)
    ensures Wrote(a, a, [], true) && Wrote(a, a, s, false)
  {
  }

  method WriteString(writer: Writer, s: string) returns (ok: bool)
    modifies writer
    ensures Wrote(old(writer.accepted), writer.accepted, s, ok)
  {
    ghost var sink := writer.View();
    ok := writer.WriteText(s);
    AnsweredWrote(sink, s);
  }

  lemma AnsweredWrote(sink: Sink, s: string)
    ensures Wrote(sink.accepted, Answered(sink, s).accepted, s, Reply(sink, |s|) == |s|)
  {
    var r := Reply(sink, |s|);
    if r > 0 {
      assert sink.accepted + s == sink.accepted + s[..r] + s[r..];
    }
    assert s[..|s|] == s;
  }

  lemma {:induction false} SpacesJoin(m: nat, n: nat)
    ensures Spaces(m) + Spaces(n) == Spaces(m + n)
  {
    if m > 0 {
      SpacesJoin(m - 1, n);
    }
  }

  /** Pad to the next column, in pieces of at most twenty spaces. */
  method WritePadding(writer: Writer, width: int) returns (ok: bool)
    modifies writer
    ensures Wrote(old(writer.accepted), writer.accepted, Spaces(width), ok)
  {
    hide Wrote, Spaces;
    ghost var before := writer.accepted;
    var nspace := 20;
    var spaces := "                    ";
    TwentySpaces();
    var npad := width;
    ghost var done: nat := 0;
    WroteNothing(before, Spaces(width));
    NoSpaces();
    while npad > 0
      invariant done == 0 || done + npad == width
      invariant npad >= 0 || npad == width
      invariant done == 0 ==> npad == width
      invariant Wrote(before, writer.accepted, Spaces(done), true)
    {
      var n := if npad > nspace then nspace else npad;
      SpacesJoin(nspace - n, n);
      ghost var a := writer.accepted;
      assert spaces[nspace - n..] == Spaces(n);
      ok := WriteString(writer, spaces[nspace - n..]);
      WroteThen(before, a, writer.accepted, Spaces(done), Spaces(n), ok);
      SpacesJoin(done, n);
      if !ok {
        WrotePart(before, writer.accepted, Spaces(done + n), Spaces(npad - n));
        SpacesJoin(done + n, npad - n);
        return false;
      }
      npad, done := npad - n, done + n;
    }
    return true;
  }

  lemma NoSpaces()
    ensures Spaces(0) == [] && forall n :: n < 0 ==> Spaces(n) == []
  {
  }

  lemma TwentySpaces()
    ensures Spaces(20) == "                    "
  {
    assert Spaces(5) == "     ";
    SpacesJoin(5, 5);
    SpacesJoin(10, 10);
  }

  /** Find the point at which two strings first differ. */
  method CommonLength(first: string, last: string) returns (length: nat)
    ensures length <= |first| && first[..length] == Common(first, last)
  {
    hide Common;
    length := 0;
    assert first[0..] == first && last[0..] == last;
    while length < |first| && length < |last| && first[length] == last[length]
      invariant length <= |first| && length <= |last|
      invariant first[..length] + Common(first[length..], last[length..]) == Common(first, last)
    {
      CommonStep(first, last, length);
      length := length + 1;
    }
    CommonStep(first, last, length);
  }

  lemma CommonStep(a: string, b: string, k: nat)
    requires k <= |a| && k <= |b|
    ensures var c := Common(a[k..], b[k..]);
            a[..k] + c == if k < |a| && k < |b| && a[k] == b[k] then a[..k + 1] + Common(a[k + 1..], b[k + 1..])
                          else a[..k]
  {
    if k < |a| && k < |b| && a[k] == b[k] {
      assert a[k..][1..] == a[k + 1..] && b[k..][1..] == b[k + 1..];
      assert a[..k] + ([a[k]] + Common(a[k + 1..], b[k + 1..])) == a[..k + 1] + Common(a[k + 1..], b[k + 1..]);
    }
  }

  class WordCompletion {
    var matches: array<CplMatch>
    var nmatch: nat
    var suffix: string
    var contSuffix: string

    ghost predicate Valid()
      reads `matches, `nmatch
    {
      nmatch <= matches.Length
    }

    ghost function Recorded(): seq<CplMatch>
      requires Valid()
      reads `matches, `nmatch, matches
    {
      matches[..nmatch]
    }

    constructor ()
      ensures Valid() && Recorded() == [] && suffix == [] && fresh(matches)
    {
      matches := new CplMatch[0];
      nmatch, suffix, contSuffix := 0, [], [];
    }

    /** cpl_add_completion: nothing is added without a suffix. */
    method AddCompletion(line: string, wordStart: nat, wordEnd: nat, suffix: Option<string>,
                         typeSuffix: Option<string>, contSuffix: Option<string>)
      requires Valid() && wordStart <= wordEnd <= |line|
      modifies this, matches
      ensures Valid() && (matches == old(matches) || fresh(matches))
      ensures Recorded() == old(Recorded()) +
                if suffix.None? then []
                else [CplMatch(line[wordStart..wordEnd] + suffix.value, suffix.value,
                               if typeSuffix.Some? then typeSuffix.value else [])]
      ensures suffix.Some? ==> this.contSuffix == if contSuffix.Some? then contSuffix.value else []
    {
      if suffix.None? {
        return;
      }
      ghost var was := Recorded();
      if nmatch + 1 > matches.Length {
        var needed := matches.Length + STR_BLK_FACT;
        var none := CplMatch([], [], []);
        var copy := new CplMatch[needed](_ => none);
        var i := 0;
        while i < nmatch
          invariant 0 <= i <= nmatch <= copy.Length && nmatch == old(nmatch) && matches == old(matches)
          invariant copy[..i] == was[..i] && matches[..nmatch] == was
        {
          copy[i] := matches[i];
          i := i + 1;
        }
        matches := copy;
      }
      assert matches[..nmatch] == was;
      var completion := line[wordStart..wordEnd] + suffix.value;
      matches[nmatch] := CplMatch(completion, suffix.value, if typeSuffix.Some? then typeSuffix.value else []);
      nmatch := nmatch + 1;
      this.contSuffix := if contSuffix.Some? then contSuffix.value else [];
    }

    /** qsort() of the matches by their suffixes */
    method SortSuffixes()
      requires Valid()
      modifies matches
      ensures Valid() && Recorded() == Sorted(old(Recorded()))
    {
      var sorted := Sorted(matches[..nmatch]);
      var i := 0;
      while i < nmatch
        invariant 0 <= i <= nmatch && Valid() && matches[..i] == sorted[..i]
      {
        matches[i] := sorted[i];
        i := i + 1;
      }
    }

    /** cpl_common_suffix */
    method CommonSuffix()
      requires Valid()
      modifies this`suffix, matches
      ensures Valid() && multiset(Recorded()) == multiset(old(Recorded()))
      ensures nmatch == 0 ==> suffix == old(suffix)
      ensures nmatch > 0 ==> IsLongestPrefix(suffix, Suffixes(old(Recorded())))
    {
      hide LexLe, Common, IsLongestPrefix, Sorted, InOrder;
      if nmatch < 1 {
        return;
      }
      ghost var ms := Recorded();
      SortSuffixes();
      SortedKeeps(ms);
      var first, last := matches[0].suffix, matches[nmatch - 1].suffix;
      var length := CommonLength(first, last);
      suffix := first[..length];
      CommonSuffixIs(ms);
    }

    /** cpl_plan_listing */
    method PlanListing(termWidth: int) returns (fmt: CplListFormat)
      requires Valid()
      ensures fmt == Plan(Recorded(), termWidth)
    {
      var width := if termWidth < 0 then 0 else termWidth;
      var maxlen, i := 0, 0;
      while i < nmatch
        invariant 0 <= i <= nmatch && maxlen == MaxLen(Recorded(), i)
      {
        var len := |matches[i].completion| + |matches[i].typeSuffix|;
        if len > maxlen {
          maxlen := len;
        }
        i := i + 1;
      }
      if maxlen == 0 {
        return CplListFormat(width, 0, 0, 0);
      }
      var ncol := Floor(width, maxlen + CPL_COL_SEP);
      if ncol < 1 {
        ncol := 1;
      }
      return CplListFormat(width, maxlen, ncol, Ceiling(nmatch, ncol));
    }

    /** What is written for one match, and the padding behind it. */
    method WriteCell(fmt: CplListFormat, col: nat, m: nat, writer: Writer) returns (ok: bool)
      requires Valid() && m < nmatch
      modifies writer
      ensures Wrote(old(writer.accepted), writer.accepted, CellText(Recorded()[m], fmt, col), ok)
    {
      hide Wrote, Spaces;
      var match' := matches[m];
      ghost var a := writer.accepted;
      ghost var pad := if col + 1 < fmt.ncol then Spaces(fmt.columnWidth + CPL_COL_SEP - |Label(match')|) else [];
      ok := WriteString(writer, match'.completion);
      if !ok {
        WrotePart(a, writer.accepted, match'.completion, match'.typeSuffix);
        WrotePart(a, writer.accepted, Label(match'), pad);
        return;
      }
      ghost var b := writer.accepted;
      WroteNothing(b, []);
      if |match'.typeSuffix| > 0 {
        ok := WriteString(writer, match'.typeSuffix);
      }
      WroteThen(a, b, writer.accepted, match'.completion, match'.typeSuffix, ok);
      if !ok {
        WrotePart(a, writer.accepted, Label(match'), pad);
        return;
      }
      ghost var c := writer.accepted;
      WroteNothing(c, []);
      if col + 1 < fmt.ncol {
        ok := WritePadding(writer, fmt.columnWidth + CPL_COL_SEP - |match'.completion| - |match'.typeSuffix|);
      }
      WroteThen(a, c, writer.accepted, Label(match'), pad, ok);
    }

    /** cpl_format_line: nothing is written without a write function. */
    method FormatLine(fmt: CplListFormat, lnum: int, writer: Writer?) returns (r: int)
      requires Valid()
      modifies writer
      ensures lnum < 0 || lnum >= fmt.nline ==> r == 1 && (writer != null ==> writer.accepted == old(writer.accepted))
      ensures 0 <= lnum < fmt.nline && writer == null ==> r == 0
      ensures 0 <= lnum < fmt.nline && writer != null ==>
                (r == 0 || r == 1)
                && Wrote(old(writer.accepted), writer.accepted, LineText(Recorded(), fmt, lnum) + "\r\n", r == 0)
    {
      hide Wrote, Cell, Index;
      if lnum < 0 || lnum >= fmt.nline {
        return 1;
      }
      if writer == null {
        return 0;
      }
      ghost var ms, a := Recorded(), writer.accepted;
      ghost var text := LineText(ms, fmt, lnum);
      var col := 0;
      WroteNothing(a, text);
      while col < fmt.ncol
        invariant 0 <= col <= fmt.ncol && Recorded() == ms
        invariant Wrote(a, writer.accepted, Cells(ms, fmt, lnum, col), true)
      {
        var m := col * fmt.nline + lnum;
        CellIs(ms, fmt, lnum, col);
        ghost var b := writer.accepted;
        var ok := true;
        WroteNothing(b, []);
        if m < nmatch {
          ok := WriteCell(fmt, col, m, writer);
        }
        WroteThen(a, b, writer.accepted, Cells(ms, fmt, lnum, col), Cell(ms, fmt, lnum, col), ok);
        col := col + 1;
        if !ok {
          LinePart(ms, fmt, lnum, col, a, writer.accepted);
          WrotePart(a, writer.accepted, text, "\r\n");
          return 1;
        }
      }
      ghost var b := writer.accepted;
      var ok := WriteString(writer, "\r\n");
      WroteThen(a, b, writer.accepted, text, "\r\n", ok);
      return if ok then 0 else 1;
    }

    static lemma CellIs(ms: seq<CplMatch>, fmt: CplListFormat, lnum: nat, col: nat)
      ensures var m := col * fmt.nline + lnum;
              Cell(ms, fmt, lnum, col) == if m >= |ms| then [] else CellText(ms[m], fmt, col)
    {
    }

    static lemma LinePart(ms: seq<CplMatch>, fmt: CplListFormat, lnum: nat, n: nat, a: string, b: string)
      requires n <= fmt.ncol && Wrote(a, b, Cells(ms, fmt, lnum, n), false)
      ensures Wrote(a, b, LineText(ms, fmt, lnum), false)
    {
      hide Cell;
      CellsGrow(ms, fmt, lnum, n, fmt.ncol);
      var part, line := Cells(ms, fmt, lnum, n), LineText(ms, fmt, lnum);
      assert line == part + line[|part|..];
      WrotePart(a, b, part, line[|part|..]);
    }

    /** _cpl_output_completions */
    method OutputCompletions(writer: Writer?, termWidth: int) returns (r: int)
      requires Valid()
      modifies writer
      ensures r == 0 || r == 1
      ensures writer == null || termWidth < 1 ==> r == 0
      ensures writer != null && termWidth < 1 ==> writer.accepted == old(writer.accepted)
      ensures writer != null && termWidth >= 1 ==>
                Wrote(old(writer.accepted), writer.accepted,
                      Listing(Recorded(), Plan(Recorded(), termWidth), 0), r == 0)
    {
      hide Wrote, Plan, LineText;
      if termWidth < 1 {
        return 0;
      }
      if writer != null {
        WroteNothing(writer.accepted, []);
        NothingListed(Recorded(), termWidth);
      }
      if writer != null && nmatch > 0 {
        ghost var ms, a := Recorded(), writer.accepted;
        var fmt := PlanListing(termWidth);
        ghost var all := Listing(ms, fmt, 0);
        var lnum := 0;
        ghost var done: string := [];
        WroteNothing(a, []);
        while lnum < fmt.nline
          invariant 0 <= lnum <= fmt.nline && Recorded() == ms && fmt == Plan(ms, termWidth)
          invariant Wrote(a, writer.accepted, done, true) && done + Listing(ms, fmt, lnum) == all
        {
          ghost var b, line := writer.accepted, LineText(ms, fmt, lnum) + "\r\n";
          ghost var rest := Listing(ms, fmt, lnum + 1);
          assert done + Listing(ms, fmt, lnum) == done + line + rest;
          r := FormatLine(fmt, lnum, writer);
          WroteThen(a, b, writer.accepted, done, line, r == 0);
          if r != 0 {
            WrotePart(a, writer.accepted, done + line, rest);
            return 1;
          }
          done := done + line;
          lnum := lnum + 1;
        }
        assert done == all;
      }
      return 0;
    }
  }

  lemma NothingListed(ms: seq<CplMatch>, width: int)
    ensures MaxLen(ms, |ms|) == 0 ==> Listing(ms, Plan(ms, width), 0) == []
  {
  }

  /** The lines of a listing, from one on. */
  function Listing(ms: seq<CplMatch>, fmt: CplListFormat, lnum: nat): string
    decreases fmt.nline - lnum
  {
    if lnum >= fmt.nline then [] else LineText(ms, fmt, lnum) + "\r\n" + Listing(ms, fmt, lnum + 1)
  }

  /** The first n lines. */
  function FirstLines(ms: seq<CplMatch>, fmt: CplListFormat, n: nat): string {
    if n == 0 then [] else FirstLines(ms, fmt, n - 1) + LineText(ms, fmt, n - 1) + "\r\n"
  }

  lemma {:induction false} ListingSplits(ms: seq<CplMatch>, fmt: CplListFormat, n: nat)
    requires n <= fmt.nline
    ensures Listing(ms, fmt, 0) == FirstLines(ms, fmt, n) + Listing(ms, fmt, n)
    ensures n == fmt.nline ==> Listing(ms, fmt, 0) == FirstLines(ms, fmt, n)
  {
    hide LineText;
    if n > 0 {
      ListingSplits(ms, fmt, n - 1);
      var first, line, rest := FirstLines(ms, fmt, n - 1), LineText(ms, fmt, n - 1) + "\r\n", Listing(ms, fmt, n);
      assert first + (line + rest) == (first + line) + rest;
      assert FirstLines(ms, fmt, n) == first + line;
    }
  }

  /** In a listing each match is written in full, behind the lines before its own and the columns before its own; and
      the listing ends with its last line. */
  lemma InListing(ms: seq<CplMatch>, width: int, m: nat)
    requires m < |ms| && MaxLen(ms, |ms|) > 0
    ensures var fmt := Plan(ms, width);
            && fmt.nline > 0 && Listing(ms, fmt, 0) == FirstLines(ms, fmt, fmt.nline)
            && IsAt(Listing(ms, fmt, 0), |FirstLines(ms, fmt, LineOf(fmt, m))| + Start(fmt, ColumnOf(fmt, m)),
                    ms[m].completion + ms[m].typeSuffix)
  {
    hide Plan, Start, MaxLen, LineOf, ColumnOf, LineText;
    var fmt := Plan(ms, width);
    EachOnce(ms, width, m);
    LabelIsListed(ms, width, m);
    var n := LineOf(fmt, m);
    ListingSplits(ms, fmt, fmt.nline);
    ListingSplits(ms, fmt, n);
    var after := "\r\n" + Listing(ms, fmt, n + 1);
    IsBehind(FirstLines(ms, fmt, n), LineText(ms, fmt, n), after, Start(fmt, ColumnOf(fmt, m)), Label(ms[m]));
    assert Listing(ms, fmt, n) == LineText(ms, fmt, n) + after;
  }

  lemma IsBehind(before: string, line: string, after: string, at: nat, text: string)
    requires IsAt(line, at, text)
    ensures IsAt(before + (line + after), |before| + at, text)
  {
    var all := before + (line + after);
    assert all[|before| + at..|before| + at + |text|] == line[at..at + |text|];
  }
}
