/** Write functions, as they are registered by the callers of the library. */
module IoUtil {

  /** The write function and what it has been given. Its answers are arbitrary; a negative one is an error. */
  datatype Sink = Sink(answers: nat -> int, calls: nat, accepted: string)

  /** How many of n characters the write function accepts, or -1. */
  function Reply(sink: Sink, n: nat): (r: int)
    ensures -1 <= r <= n
  {
    var a := sink.answers(sink.calls);
    if a < 0 then -1 else if a > n then n else a
  }

  function Answered(sink: Sink, s: string): (s': Sink)
    ensures |s'.accepted| >= |sink.accepted|
  {
    var r := Reply(sink, |s|);
    sink.(calls := sink.calls + 1, accepted := sink.accepted + if r > 0 then s[..r] else [])
  }

  /** A function that writes characters, and its data. It may accept any part of what it is given, or fail. */
  class Writer {
    const answers: nat -> int
    var calls: nat
    ghost var accepted: string

    constructor (answers: nat -> int)
      ensures this.answers == answers && calls == 0 && accepted == []
    {
      this.answers, calls, accepted := answers, 0, [];
    }

    ghost function View(): Sink
      reads this
    {
      Sink(answers, calls, accepted)
    }

    /** Write some of the n characters that start at buff[from]. */
    method Write(buff: array<char>, from: nat, n: nat) returns (r: int)
      requires 0 < n && from + n <= buff.Length
      modifies this
      ensures r == Reply(old(View()), n) && View() == Answered(old(View()), buff[from..from + n])
    {
      var a := answers(calls);
      r := if a < 0 then -1 else if a > n then n else a;
      calls := calls + 1;
      accepted := accepted + if r > 0 then buff[from..from + n][..r] else [];
    }

    /** Write all of a string: whether that succeeded. */
    method WriteText(s: string) returns (ok: bool)
      modifies this
      ensures ok == (Reply(old(View()), |s|) == |s|) && View() == Answered(old(View()), s)
    {
      var a := answers(calls);
      var r := if a < 0 then -1 else if a > |s| then |s| else a;
      calls := calls + 1;
      accepted := accepted + if r > 0 then s[..r] else [];
      ok := r == |s|;
    }
  }
}
