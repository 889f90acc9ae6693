/** Runs of the byte step over the pieces of a message, put together. */
module HttpPieces {
  import opened Bytes
  import opened HttpTypes
  import opened HttpStep
  import opened HttpRun
  import opened HttpSplit

  const CRLF: bytes := [CR, LF]

  /** The bytewise run over `w` goes through to the end of it, and leads from `c` to `d`. */
  ghost predicate Leads(hc: Parser -> HeadersAnswer, c: Conn, w: bytes, d: Conn) {
    Bytewise(hc, c, w, 0) == RunResult(d, |w|, Go)
  }

  /** The parser refuses what it reads, for this reason. */
  predicate RefusedFor(r: RunResult, e: Errno) {
    r.out.Fail? && r.c.s.errno == e
  }

  lemma {:induction false} LeadsThen(hc: Parser -> HeadersAnswer, c: Conn, a: bytes, d: Conn, b: bytes)
    requires Leads(hc, c, a, d)
    ensures var r := Bytewise(hc, d, b, 0); Bytewise(hc, c, a + b, 0) == r.(n := r.n + |a|)
  {
    hide Step, Bytewise, SkipsBadByte;
    BytewiseConcat(hc, c, a, b, 0);
    BytewiseShift(hc, d, a, b, 0);
  }

  lemma LeadsOn(hc: Parser -> HeadersAnswer, c: Conn, a: bytes, d: Conn, b: bytes, e: Conn)
    requires Leads(hc, c, a, d) && Leads(hc, d, b, e)
    ensures Leads(hc, c, a + b, e)
  {
    hide Bytewise;
    LeadsThen(hc, c, a, d, b);
  }

  /** One byte that goes on. */
  lemma OneByte(hc: Parser -> HeadersAnswer, c: Conn, ch: byte)
    ensures var r := Step(hc, c.s, ch, false); r.out.Go? ==> Leads(hc, c, [ch], Next(c, r))
    ensures var r := Step(hc, c.s, ch, false);
            r.out.Exit? ==> Bytewise(hc, c, [ch], 0) == RunResult(Next(c, r), 1, Exit)
    ensures var r := Step(hc, c.s, ch, false);
            r.out.Fail? ==> Bytewise(hc, c, [ch], 0) == RunResult(Next(c, r), 0, Fail)
  {
    hide Step, EmitAll;
    var r := Step(hc, c.s, ch, false);
    if r.out.Go? {
      assert Bytewise(hc, Next(c, r), [ch], 1) == RunResult(Next(c, r), 1, Go);
    }
  }

  /** A byte that makes no callback, and one that makes one. */
  lemma QuietByte(hc: Parser -> HeadersAnswer, s: Parser, t: seq<Event>, shadow: bool, ch: byte, s1: Parser)
    requires Step(hc, s, ch, false) == StepResult(s1, [], Go) && !Shadows(s, s1)
    ensures Leads(hc, Conn(s, t, shadow), [ch], Conn(s1, t, false))
  {
    hide Step, EmitAll, Shadows;
    OneByte(hc, Conn(s, t, shadow), ch);
    EmitNone(t);
  }

  lemma LoudByte(hc: Parser -> HeadersAnswer, s: Parser, t: seq<Event>, shadow: bool, ch: byte, s1: Parser, e: Event)
    requires Step(hc, s, ch, false) == StepResult(s1, [e], Go)
    ensures Leads(hc, Conn(s, t, shadow), [ch], Conn(s1, Emit(t, e), Shadows(s, s1)))
  {
    hide Step, EmitAll, Shadows, Emit;
    OneByte(hc, Conn(s, t, shadow), ch);
    EmitOne(t, e);
  }
}
