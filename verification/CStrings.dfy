/** Text as C sees it: characters up to a terminating NUL. */
module CStrings {

  const NUL: char := '\0'

  datatype Option<+T> = None | Some(value: T)

  predicate NoNul(s: seq<char>) {
    forall i :: 0 <= i < |s| ==> s[i] != NUL
  }

  /** The index of the first NUL, as strlen() finds it. */
  function StrLen(s: seq<char>): (n: nat)
    requires NUL in s
    ensures n < |s| && s[n] == NUL
    ensures forall i :: 0 <= i < n ==> s[i] != NUL
  {
    if s[0] == NUL then 0 else 1 + StrLen(s[1..])
  }

  /** The string held in a NUL-terminated buffer. */
  function CStr(s: seq<char>): (r: string)
    requires NUL in s
    ensures NoNul(r) && r <= s
  {
    s[..StrLen(s)]
  }

  /** strchr(): the index of a character, which may be that of the terminator. */
  function StrChr(s: string, c: char): (r: Option<nat>)
    ensures r.Some? ==> r.value <= |s| && (s + [NUL])[r.value] == c
    ensures r.None? ==> c !in s && c != NUL
  {
    if s == [] then (if c == NUL then Some(0) else None)
    else if s[0] == c then Some(0)
    else
      var r := StrChr(s[1..], c);
      if r.None? then None else Some(r.value + 1)
  }

  lemma StrLenUnique(s: seq<char>, n: nat)
    requires n < |s| && s[n] == NUL && NoNul(s[..n])
    ensures NUL in s && StrLen(s) == n && CStr(s) == s[..n]
  {
    forall i | 0 <= i < n ensures s[i] != NUL {
      assert s[..n][i] != NUL;
    }
  }

  lemma SliceOfTake<T>(s: seq<T>, n: nat, from: nat, to: nat)
    requires from <= to <= n <= |s|
    ensures s[..n][from..to] == s[from..to]
  {
  }

  /** What a line buffer of dimension dim can hold of a text. */
  function Clip(text: string, dim: nat): (r: string)
    requires dim > 0
    ensures r <= text && |r| < dim && (|r| < |text| ==> |r| == dim - 1)
  {
    if |text| < dim then text else text[..dim - 1]
  }

  /** A prefix with no globbing characters. */
  predicate IsLiteral(s: string) {
    forall i :: 0 <= i < |s| ==> s[i] !in {'*', '?', '[', '\\'}
  }

  lemma TakeCStr(s: seq<char>, n: nat)
    requires n <= |s| && NUL in s[..n]
    ensures NUL in s && CStr(s) == CStr(s[..n])
  {
    var k := StrLen(s[..n]);
    assert s[..n][..k] == s[..k];
    StrLenUnique(s, k);
  }
}
