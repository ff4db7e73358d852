/** Which bracket matches which. */
module Brackets {
  import opened CStrings

  const O_PAREN: string := "([{"
  const C_PAREN: string := ")]}"

  /** The excess of opening brackets over closing ones. */
  function Excess(s: string, open: char, close: char): int {
    if s == [] then 0
    else Excess(s[..|s| - 1], open, close) + Weight(s[|s| - 1], open, close)
  }

  function Weight(c: char, open: char, close: char): int {
    if c == open then 1 else if c == close then -1 else 0
  }

  /** Every closing bracket has an opening one before it, and the other way around. */
  ghost predicate Balanced(s: string, open: char, close: char) {
    Excess(s, open, close) == 0 && forall i :: 0 <= i <= |s| ==> Excess(s[..i], open, close) >= 0
  }

  /** The bracket at p and the one at q are a pair. */
  ghost predicate Pair(text: string, open: char, close: char, p: nat, q: nat) {
    p < q < |text| && text[p] == open && text[q] == close && Balanced(text[p + 1..q], open, close)
  }

  /** Search forward from i for the closing bracket that is needed, when so many are. */
  function Forward(text: string, open: char, close: char, i: nat, needed: nat): (r: Option<nat>)
    requires i <= |text|
    ensures r.Some? ==> i <= r.value < |text|
    decreases |text| - i
  {
    if i == |text| then None
    else if text[i] == open then Forward(text, open, close, i + 1, needed + 1)
    else if text[i] != close then Forward(text, open, close, i + 1, needed)
    else if needed <= 1 then Some(i)
    else Forward(text, open, close, i + 1, needed - 1)
  }

  /** Search backward from i for the opening bracket that is needed, when so many are. */
  function Backward(text: string, open: char, close: char, i: nat, needed: nat): (r: Option<nat>)
    requires i <= |text|
    ensures r.Some? ==> r.value < i
  {
    if i == 0 then None
    else if text[i - 1] == close then Backward(text, open, close, i - 1, needed + 1)
    else if text[i - 1] != open then Backward(text, open, close, i - 1, needed)
    else if needed <= 1 then Some(i - 1)
    else Backward(text, open, close, i - 1, needed - 1)
  }

  /** The first closing bracket of any kind from i on. */
  function AnyClose(text: string, i: nat): (r: Option<nat>)
    requires i <= |text|
    ensures r.Some? ==> i <= r.value < |text| && StrChr(C_PAREN, text[r.value]).Some?
    ensures forall j :: i <= j && (if r.Some? then j < r.value else j < |text|) ==> StrChr(C_PAREN, text[j]).None?
    decreases |text| - i
  {
    if i == |text| then None
    else if StrChr(C_PAREN, text[i]).Some? then Some(i)
    else AnyClose(text, i + 1)
  }

  /** gl_index_of_matching_paren */
  function MatchingParen(text: string, p: nat): (r: Option<nat>)
    requires p <= |text|
    ensures r.Some? ==> r.value < |text|
  {
    var c := (text + [NUL])[p];
    var o, k := StrChr(O_PAREN, c), StrChr(C_PAREN, c);
    if o.Some? then
      (if p == |text| then None else Forward(text, c, (C_PAREN + [NUL])[o.value], p + 1, 1))
    else if k.Some? then Backward(text, (O_PAREN + [NUL])[k.value], c, p, 1)
    else AnyClose(text, p + 1)
  }

  // ---- Excess ----

  lemma {:induction false} ExcessJoin(s: string, t: string, open: char, close: char)
    ensures Excess(s + t, open, close) == Excess(s, open, close) + Excess(t, open, close)
  {
    if t == [] {
      assert s + t == s;
    } else {
      assert (s + t)[..|s + t| - 1] == s + t[..|t| - 1];
      ExcessJoin(s, t[..|t| - 1], open, close);
    }
  }

  lemma ExcessParts(text: string, open: char, close: char, i: nat, j: nat, k: nat)
    requires i <= j <= k <= |text|
    ensures Excess(text[i..k], open, close) == Excess(text[i..j], open, close) + Excess(text[j..k], open, close)
  {
    assert text[i..k] == text[i..j] + text[j..k];
    ExcessJoin(text[i..j], text[j..k], open, close);
  }

  lemma ExcessOne(text: string, open: char, close: char, i: nat)
    requires i < |text|
    ensures Excess(text[i..i + 1], open, close) == Weight(text[i], open, close)
  {
    assert text[i..i + 1] == [text[i]] && [text[i]][..0] == [];
  }

  lemma ExcessNext(text: string, open: char, close: char, i: nat, k: nat)
    requires i <= k < |text|
    ensures Excess(text[i..k + 1], open, close) == Excess(text[i..k], open, close) + Weight(text[k], open, close)
  {
    ExcessParts(text, open, close, i, k, k + 1);
    ExcessOne(text, open, close, k);
  }

  lemma ExcessBack(text: string, open: char, close: char, i: nat, k: nat)
    requires i < k <= |text|
    ensures Excess(text[i..k], open, close) == Weight(text[i], open, close) + Excess(text[i + 1..k], open, close)
  {
    ExcessParts(text, open, close, i, i + 1, k);
    ExcessOne(text, open, close, i);
  }

  // ---- The searches find the pairs ----

  /** No text from a to any place up to b has more closing than opening brackets. */
  ghost predicate NeverShort(text: string, open: char, close: char, a: nat, b: nat)
    requires a <= b <= |text|
  {
    forall k :: a <= k <= b ==> Excess(text[a..k], open, close) >= 0
  }

  /** What a search forward from a finds is the first place at which there is one closing bracket too many. */
  lemma {:induction false} ForwardFinds(text: string, open: char, close: char, a: nat, i: nat, needed: nat)
    requires open != close && a <= i <= |text| && needed == 1 + Excess(text[a..i], open, close)
    requires NeverShort(text, open, close, a, i)
    ensures var r := Forward(text, open, close, i, needed);
            && (r.Some? ==> text[r.value] == close && Excess(text[a..r.value], open, close) == 0
                            && NeverShort(text, open, close, a, r.value))
            && (r.None? ==> NeverShort(text, open, close, a, |text|))
    decreases |text| - i
  {
    if i < |text| {
      ExcessNext(text, open, close, a, i);
      if text[i] != close || needed > 1 {
        assert Excess(text[a..i + 1], open, close) >= 0;
        ForwardFinds(text, open, close, a, i + 1, 1 + Excess(text[a..i + 1], open, close));
      }
    }
  }

  lemma BalancedBetween(text: string, open: char, close: char, a: nat, b: nat)
    requires a <= b <= |text|
    ensures Balanced(text[a..b], open, close)
       <==> Excess(text[a..b], open, close) == 0 && NeverShort(text, open, close, a, b)
  {
    forall i | 0 <= i <= b - a ensures text[a..b][..i] == text[a..a + i] {
    }
    if NeverShort(text, open, close, a, b) {
      forall i | 0 <= i <= b - a ensures Excess(text[a..b][..i], open, close) >= 0 {
        assert Excess(text[a..a + i], open, close) >= 0;
      }
    }
    if Balanced(text[a..b], open, close) {
      forall k | a <= k <= b ensures Excess(text[a..k], open, close) >= 0 {
        assert text[a..b][..k - a] == text[a..k];
      }
    }
  }

  lemma NotBefore(text: string, open: char, close: char, a: nat, b: nat, q: nat)
    requires a <= b <= |text| && a <= q < |text|
    requires NeverShort(text, open, close, a, b) && Excess(text[a..q + 1], open, close) < 0
    ensures b <= q
  {
  }

  /** A search forward from an opening bracket finds the bracket that it is paired with, if there is one. */
  lemma ForwardIsPair(text: string, open: char, close: char, p: nat)
    requires open != close && p < |text| && text[p] == open
    ensures var r := Forward(text, open, close, p + 1, 1);
            forall q: nat :: Pair(text, open, close, p, q) <==> r == Some(q)
  {
    hide Forward, Excess, Balanced, NeverShort;
    NothingBetween(text, open, close, p + 1);
    ForwardFinds(text, open, close, p + 1, p + 1, 1);
    var r := Forward(text, open, close, p + 1, 1);
    if r.Some? {
      BalancedBetween(text, open, close, p + 1, r.value);
      assert Pair(text, open, close, p, r.value);
    }
    forall q: nat | Pair(text, open, close, p, q) ensures r == Some(q) {
      BalancedBetween(text, open, close, p + 1, q);
      ExcessNext(text, open, close, p + 1, q);
      NotBefore(text, open, close, p + 1, if r.Some? then r.value else |text|, q);
      if r.Some? {
        ExcessNext(text, open, close, p + 1, r.value);
        NotBefore(text, open, close, p + 1, q, r.value);
      }
    }
  }

  /** No text from any place from a on to b has more opening than closing brackets. */
  ghost predicate NeverOver(text: string, open: char, close: char, a: nat, b: nat)
    requires a <= b <= |text|
  {
    forall k :: a <= k <= b ==> Excess(text[k..b], open, close) <= 0
  }

  lemma OverNow(text: string, open: char, close: char, a: nat, b: nat)
    requires a <= b <= |text| && NeverOver(text, open, close, a, b)
    ensures Excess(text[a..b], open, close) <= 0
  {
    hide Excess;
  }

  lemma OneMore(text: string, open: char, close: char, a: nat, b: nat)
    requires 0 < a <= b <= |text| && NeverOver(text, open, close, a, b) && Excess(text[a - 1..b], open, close) <= 0
    ensures NeverOver(text, open, close, a - 1, b)
  {
    hide Excess;
  }

  lemma {:induction false} BackwardFinds(text: string, open: char, close: char, b: nat, i: nat, needed: nat)
    requires open != close && i <= b <= |text| && needed == 1 - Excess(text[i..b], open, close)
    requires NeverOver(text, open, close, i, b)
    ensures var r := Backward(text, open, close, i, needed);
            && (r.Some? ==> text[r.value] == open && Excess(text[r.value + 1..b], open, close) == 0
                            && NeverOver(text, open, close, r.value + 1, b))
            && (r.None? ==> NeverOver(text, open, close, 0, b))
    decreases i
  {
    hide Excess, NeverOver;
    OverNow(text, open, close, i, b);
    if i > 0 {
      ExcessBack(text, open, close, i - 1, b);
      if text[i - 1] != open || needed > 1 {
        OneMore(text, open, close, i, b);
        BackwardFinds(text, open, close, b, i - 1, 1 - Excess(text[i - 1..b], open, close));
      }
    }
  }

  /** Balanced text looks balanced from its end too. */
  lemma BalancedBackward(text: string, open: char, close: char, a: nat, b: nat)
    requires a <= b <= |text| && Excess(text[a..b], open, close) == 0
    ensures NeverShort(text, open, close, a, b) <==> NeverOver(text, open, close, a, b)
  {
    forall k | a <= k <= b ensures Excess(text[a..k], open, close) == -Excess(text[k..b], open, close) {
      ExcessParts(text, open, close, a, k, b);
    }
  }

  lemma NotAfter(text: string, open: char, close: char, a: nat, b: nat, p: nat)
    requires a <= b <= |text| && p < b
    requires NeverOver(text, open, close, a, b) && Excess(text[p..b], open, close) > 0
    ensures p < a
  {
  }

  lemma NothingBetween(text: string, open: char, close: char, a: nat)
    requires a <= |text|
    ensures Excess(text[a..a], open, close) == 0
    ensures NeverShort(text, open, close, a, a) && NeverOver(text, open, close, a, a)
  {
    assert text[a..a] == [];
  }

  /** A search backward from a closing bracket finds the bracket that it is paired with, if there is one. */
  lemma BackwardIsPair(text: string, open: char, close: char, q: nat)
    requires open != close && q < |text| && text[q] == close
    ensures var r := Backward(text, open, close, q, 1);
            forall p: nat :: Pair(text, open, close, p, q) <==> r == Some(p)
  {
    hide Backward, Excess, Balanced, NeverOver, NeverShort;
    NothingBetween(text, open, close, q);
    BackwardFinds(text, open, close, q, q, 1);
    var r := Backward(text, open, close, q, 1);
    if r.Some? {
      BalancedBackward(text, open, close, r.value + 1, q);
      BalancedBetween(text, open, close, r.value + 1, q);
      assert Pair(text, open, close, r.value, q);
    }
    forall p: nat | Pair(text, open, close, p, q) ensures r == Some(p) {
      BalancedBetween(text, open, close, p + 1, q);
      BalancedBackward(text, open, close, p + 1, q);
      ExcessBack(text, open, close, p, q);
      NotAfter(text, open, close, if r.Some? then r.value + 1 else 0, q, p);
      if r.Some? {
        ExcessBack(text, open, close, r.value, q);
        NotAfter(text, open, close, p + 1, q, r.value);
      }
    }
  }

  // ---- Jumping between brackets ----

  predicate IsBracket(c: char) {
    c in O_PAREN || c in C_PAREN
  }

  /** The kinds of bracket. */
  lemma Kinds(c: char)
    ensures var o, k := StrChr(O_PAREN, c), StrChr(C_PAREN, c);
            && (c == '(' ==> o == Some(0)) && (c == '[' ==> o == Some(1)) && (c == '{' ==> o == Some(2))
            && (c == ')' ==> k == Some(0) && o.None?) && (c == ']' ==> k == Some(1) && o.None?)
            && (c == '}' ==> k == Some(2) && o.None?)
  {
    assert O_PAREN[1..] == "[{" && "[{"[1..] == "{" && "{"[1..] == "";
    assert C_PAREN[1..] == "]}" && "]}"[1..] == "}" && "}"[1..] == "";
  }

  /** Are p and q, in either order, a pair of brackets of the kind that there is at p? */
  ghost predicate Mates(text: string, p: nat, q: nat) {
    || Pair(text, '(', ')', p, q) || Pair(text, '[', ']', p, q) || Pair(text, '{', '}', p, q)
    || Pair(text, '(', ')', q, p) || Pair(text, '[', ']', q, p) || Pair(text, '{', '}', q, p)
  }

  /** From a bracket the code finds exactly the one that it is paired with. */
  lemma MatchingIsMate(text: string, p: nat)
    requires p < |text| && IsBracket(text[p])
    ensures forall q: nat :: MatchingParen(text, p) == Some(q) <==> Mates(text, p, q)
  {
    hide Forward, Backward, Balanced, StrChr;
    var c := text[p];
    Kinds(c);
    assert (text + [NUL])[p] == c;
    if c == '(' { ForwardIsPair(text, '(', ')', p); }
    if c == '[' { ForwardIsPair(text, '[', ']', p); }
    if c == '{' { ForwardIsPair(text, '{', '}', p); }
    if c == ')' { BackwardIsPair(text, '(', ')', p); }
    if c == ']' { BackwardIsPair(text, '[', ']', p); }
    if c == '}' { BackwardIsPair(text, '{', '}', p); }
  }

  /** From any other character the code finds the first closing bracket behind it, of whatever kind; and from the end of
      the line nothing. */
  lemma NotOnBracket(text: string, p: nat)
    requires NoNul(text) && p <= |text| && (p < |text| ==> text[p] !in "([{)]}")
    ensures var r := MatchingParen(text, p);
            && (p == |text| ==> r.None?) && (r.Some? ==> p < r.value < |text| && text[r.value] in ")]}")
            && (p < |text| ==>
                  forall j :: p < j && (if r.Some? then j < r.value else j < |text|) ==> text[j] !in ")]}")
  {
    hide Forward, Backward;
    assert StrChr(O_PAREN, NUL).Some?;
    if p < |text| {
      assert (text + [NUL])[p] == text[p];
      ClosingIs(text[p]);
      OpeningIs(text[p]);
      forall j | p < j < |text| ensures StrChr(C_PAREN, text[j]).Some? <==> text[j] in ")]}" {
        ClosingIs(text[j]);
      }
    }
  }

  lemma ClosingIs(c: char)
    requires c != NUL
    ensures StrChr(C_PAREN, c).Some? <==> c in ")]}"
  {
    Kinds(c);
  }

  lemma OpeningIs(c: char)
    requires c != NUL
    ensures StrChr(O_PAREN, c).Some? <==> c in "([{"
  {
    Kinds(c);
  }

  /** Jumping from a bracket to its match and on again comes back to where it started. */
  lemma JumpsBack(text: string, p: nat, q: nat)
    requires p < |text| && IsBracket(text[p]) && MatchingParen(text, p) == Some(q)
    ensures q < |text| && IsBracket(text[q]) && q != p && MatchingParen(text, q) == Some(p)
  {
    hide MatchingParen, Balanced;
    MatchingIsMate(text, p);
    assert Mates(text, p, q) && Mates(text, q, p);
    MatchingIsMate(text, q);
  }
}
