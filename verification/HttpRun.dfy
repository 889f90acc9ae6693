/** Runs of the byte step over buffers, and the trace that a recording handler can tell apart. */
module HttpRun {
  import opened Bytes
  import opened HttpTypes
  import opened HttpStep
  import opened HttpInvariant

  // ---------------------------------------------------------------- traces

  /** One more callback; a data callback that continues the previous run is joined to it. */
  function Emit(trace: seq<Event>, e: Event): seq<Event> {
    if e.Data? && trace != [] && trace[|trace| - 1].Data? && trace[|trace| - 1].kind == e.kind
    then trace[..|trace| - 1] + [Data(e.kind, trace[|trace| - 1].run + e.run)]
    else trace + [e]
  }

  function EmitAll(trace: seq<Event>, evs: seq<Event>): seq<Event>
    decreases |evs|
  {
    if evs == [] then trace else EmitAll(Emit(trace, evs[0]), evs[1..])
  }

  /** The calls of a handler, with adjacent data callbacks of one kind joined. */
  function Merge(log: seq<Event>): seq<Event> {
    EmitAll([], log)
  }

  lemma {:induction false} EmitAllConcat(trace: seq<Event>, a: seq<Event>, b: seq<Event>)
    ensures EmitAll(trace, a + b) == EmitAll(EmitAll(trace, a), b)
    decreases |a|
  {
    if a == [] {
      assert a + b == b;
    } else {
      assert (a + b)[1..] == a[1..] + b;
      EmitAllConcat(Emit(trace, a[0]), a[1..], b);
    }
  }

  lemma EmitJoins(trace: seq<Event>, k: DataKind, x: bytes, y: bytes)
    ensures Emit(Emit(trace, Data(k, x)), Data(k, y)) == Emit(trace, Data(k, x + y))
  {
    var t := Emit(trace, Data(k, x));
    assert t[|t| - 1].Data? && t[|t| - 1].kind == k;
    if trace != [] && trace[|trace| - 1].Data? && trace[|trace| - 1].kind == k {
      assert t[..|t| - 1] == trace[..|trace| - 1];
      assert trace[|trace| - 1].run + (x + y) == (trace[|trace| - 1].run + x) + y;
    } else {
      assert t[..|t| - 1] == trace;
    }
  }

  lemma EmitNone(trace: seq<Event>)
    ensures EmitAll(trace, []) == trace
  {
  }

  lemma EmitOne(trace: seq<Event>, e: Event)
    ensures EmitAll(trace, [e]) == Emit(trace, e)
  {
    assert [e][1..] == [];
  }

  lemma EmitTwo(trace: seq<Event>, e: Event, f: Event)
    ensures EmitAll(trace, [e, f]) == Emit(Emit(trace, e), f)
  {
    assert [e, f][1..] == [f];
    EmitOne(Emit(trace, e), f);
  }

  // ---------------------------------------------------------------- runs

  /** A parser, what its handler has seen, and whether the next byte of the buffer lies in a shadow. */
  datatype Conn = Conn(s: Parser, trace: seq<Event>, shadow: bool)

  /** Where a run over a buffer stopped: `n` bytes are consumed. */
  datatype RunResult = RunResult(c: Conn, n: nat, out: Outcome)

  /** A byte of a value of no interest shadows the next byte of the value. */
  predicate Shadows(before: Parser, after: Parser) {
    before.state.HeaderValue? && before.hstate.General? && after.state.HeaderValue?
  }

  function Next(c: Conn, r: StepResult): Conn {
    Conn(r.s, EmitAll(c.trace, r.evs), r.out.Go? && Shadows(c.s, r.s))
  }

  /** The run over `data[i..]`. */
  function RunFrom(hc: Parser -> HeadersAnswer, c: Conn, data: bytes, i: nat): RunResult
    requires i <= |data|
    decreases |data| - i
  {
    if i == |data| then RunResult(c, i, Go)
    else
      var r := Step(hc, c.s, data[i], c.shadow);
      match r.out
      case Go => RunFrom(hc, Next(c, r), data, i + 1)
      case Fail => RunResult(Next(c, r), i, Fail)
      case Exit => RunResult(Next(c, r), i + 1, Exit)
  }

  /** One byte of a run. */
  lemma RunUnfolds(hc: Parser -> HeadersAnswer, c: Conn, data: bytes, i: nat)
    requires i < |data|
    ensures var r := Step(hc, c.s, data[i], c.shadow);
            (RunFrom(hc, c, data, i)
             == match r.out
                case Go => RunFrom(hc, Next(c, r), data, i + 1)
                case Fail => RunResult(Next(c, r), i, Fail)
                case Exit => RunResult(Next(c, r), i + 1, Exit))
  {
    hide Step, EmitAll;
  }

  lemma RunEnds(hc: Parser -> HeadersAnswer, c: Conn, data: bytes)
    ensures RunFrom(hc, c, data, |data|) == RunResult(c, |data|, Go)
  {
  }

  lemma {:induction false} RunKeepsValid(hc: Parser -> HeadersAnswer, c: Conn, data: bytes, i: nat)
    requires i <= |data| && Ready(c.s)
    ensures var r := RunFrom(hc, c, data, i);
            && i <= r.n <= |data| && r.c.s.lenient == c.s.lenient
            && (r.out.Go? ==> Ready(r.c.s) && r.n == |data| && (NotUpgraded(c.s) ==> NotUpgraded(r.c.s)))
            && (r.out.Fail? ==> r.c.s.errno != Ok)
            && (r.out.Exit? ==> Ready(r.c.s) && !NotUpgraded(r.c.s))
    decreases |data| - i
  {
    hide Step, Valid, NotUpgraded, EmitAll;
    if i < |data| {
      StepKeepsValid(hc, c.s, data[i], c.shadow);
      var r := Step(hc, c.s, data[i], c.shadow);
      if r.out.Go? {
        RunKeepsValid(hc, Next(c, r), data, i + 1);
      }
    }
  }

  /** A run over `a + b` is a run over `a` and, if that is not stopped, one over `b`. */
  lemma {:induction false} RunConcat(hc: Parser -> HeadersAnswer, c: Conn, a: bytes, b: bytes, i: nat)
    requires i <= |a|
    ensures var r := RunFrom(hc, c, a, i);
            RunFrom(hc, c, a + b, i) == if r.out.Go? then RunFrom(hc, r.c, a + b, |a|) else r
    decreases |a| - i
  {
    hide Step;
    if i < |a| {
      var r := Step(hc, c.s, a[i], c.shadow);
      if r.out.Go? {
        RunConcat(hc, Next(c, r), a, b, i + 1);
      }
    }
  }

  lemma {:induction false} RunShift(hc: Parser -> HeadersAnswer, c: Conn, a: bytes, b: bytes, i: nat)
    requires i <= |b|
    ensures var r := RunFrom(hc, c, b, i);
            RunFrom(hc, c, a + b, |a| + i) == r.(n := r.n + |a|)
    decreases |b| - i
  {
    hide Step;
    if i < |b| {
      var r := Step(hc, c.s, b[i], c.shadow);
      if r.out.Go? {
        RunShift(hc, Next(c, r), a, b, i + 1);
      }
    }
  }
}
