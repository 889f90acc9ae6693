/** Whole requests: what is written is what the callbacks report, and the message ends with its last byte. */
module HttpRequest {
  import opened Bytes
  import opened HttpTypes
  import opened HttpStep
  import opened HttpRun
  import opened HttpSplit
  import opened HttpPieces
  import opened HttpHeaders
  import opened HttpMessage
  import R = HttpRequestLine

  datatype Request = Request(line: R.RequestLine, headers: seq<Header>, body: Body)

  function Text(r: Request): bytes {
    R.LineText(r.line) + HeadAndBody(r.headers, r.body)
  }

  /** Requests as they should be; a request whose length is not told has no body. */
  predicate RequestOk(hc: Parser -> HeadersAnswer, s: Parser, r: Request) {
    R.LineOk(r.line) && MessageOk(hc, R.AfterRequestLine(s, r.line), r.headers, r.body)
  }

  function RequestEvents(hc: Parser -> HeadersAnswer, s: Parser, r: Request): seq<Event> {
    R.LineEvents(s, r.line) + HeadAndBodyEvents(hc, R.AfterRequestLine(s, r.line), r.headers, r.body)
  }

  /** The parser after the request, and whether it stops there. */
  function RequestResult(hc: Parser -> HeadersAnswer, s: Parser, t: seq<Event>, r: Request): RunResult {
    var s1 := Begun(hc, AfterLines(R.AfterRequestLine(s, r.line), r.headers));
    RunResult(Conn(Final(s1, r.body), EmitAll(t, RequestEvents(hc, s, r)), false), |Text(r)|,
              if s1.upgrade && !r.body.Rest? then Exit else Go)
  }

  /**
   * A request is reported piece by piece just as it was written, and the message
   * is complete at its last byte; or, if it asks for another protocol, the parser
   * stops there.
   */
  lemma RequestRead(hc: Parser -> HeadersAnswer, s: Parser, t: seq<Event>, r: Request)
    requires s.state.StartReq? && s.errno == Ok && RequestOk(hc, s, r)
    ensures Bytewise(hc, Conn(s, t, false), Text(r), 0) == RequestResult(hc, s, t, r)
  {
    hide Leads, Bytewise, EmitAll, R.LineText, R.LineOk, R.LineEvents, HeadAndBody, HeadAndBodyEvents, MessageOk,
      AfterLines, Final, Begun;
    R.RequestLineRead(hc, s, t, r.line);
    LineThenMessage(hc, Conn(s, t, false), R.LineText(r.line), R.AfterRequestLine(s, r.line), t,
                    R.LineEvents(s, r.line), r.headers, r.body);
  }

  /** However the request is cut into buffers, it is read the same. */
  lemma RequestInBuffers(hc: Parser -> HeadersAnswer, s: Parser, t: seq<Event>, r: Request, buffers: seq<bytes>)
    requires s.state.StartReq? && s.errno == Ok && RequestOk(hc, s, r) && Flatten(buffers) == Text(r)
    ensures Same(Feed(hc, Conn(s, t, false), buffers), RequestResult(hc, s, t, r))
  {
    hide Bytewise, RequestOk, RequestResult, Text, RunFrom;
    RequestRead(hc, s, t, r);
    ResultGoes(hc, s, t, r);
    AnyBuffers(hc, Conn(s, t, false), Text(r), buffers);
  }

  lemma ResultGoes(hc: Parser -> HeadersAnswer, s: Parser, t: seq<Event>, r: Request)
    ensures !RequestResult(hc, s, t, r).out.Fail?
  {
  }

  /** A request is never read to the end of the stream. */
  lemma RequestsEnd(hc: Parser -> HeadersAnswer, s: Parser, r: Request)
    requires s.ptype.Request? && s.errno == Ok && RequestOk(hc, s, r)
    ensures !r.body.Rest?
  {
    hide R.LineOk, MessageOk;
    OpenExact(hc, R.AfterRequestLine(s, r.line), r.headers, r.body);
  }

  // ---------------------------------------------------------------- whether the connection stays open

  function AfterRequest(hc: Parser -> HeadersAnswer, s: Parser, r: Request): Parser {
    Final(Begun(hc, AfterLines(R.AfterRequestLine(s, r.line), r.headers)), r.body)
  }

  /** A request after which the parser stops. */
  predicate Upgrades(hc: Parser -> HeadersAnswer, s: Parser, r: Request) {
    AsksForUpgrade(r.line.verb, r.headers, hc(Headed(AfterLines(R.AfterRequestLine(s, r.line), r.headers))))
  }

  /**
   * After a request the parser waits for another exactly if it is of version 1.1
   * or later and no Connection has the option `close`, or is of a lower version
   * and one has the option `keep-alive`; otherwise the connection is dead.
   */
  lemma KeptOpen(hc: Parser -> HeadersAnswer, s: Parser, t: seq<Event>, r: Request)
    requires s.state.StartReq? && s.ptype.Request? && s.errno == Ok && RequestOk(hc, s, r)
    ensures var d := Bytewise(hc, Conn(s, t, false), Text(r), 0);
            && d.c.s == AfterRequest(hc, s, r) && d.n == |Text(r)|
            && d.c.s.state == (if StaysOpen(r.line.major, r.line.minor, r.headers) then StartReq else Dead)
            && (d.out.Exit? <==> Upgrades(hc, s, r)) && !d.out.Fail?
  {
    hide Bytewise, EmitAll, R.LineOk, MessageOk, StaysOpen, AsksForUpgrade, Text, Begun, AfterLines, Final,
      RequestEvents;
    RequestRead(hc, s, t, r);
    OpenExact(hc, R.AfterRequestLine(s, r.line), r.headers, r.body);
  }

  /** Behind a request that closes the connection, any byte but a line end is refused. */
  lemma NothingAfterClose(hc: Parser -> HeadersAnswer, s: Parser, t: seq<Event>, r: Request, ch: byte, rest: bytes)
    requires s.state.StartReq? && s.ptype.Request? && s.errno == Ok && RequestOk(hc, s, r)
    requires !StaysOpen(r.line.major, r.line.minor, r.headers) && !Upgrades(hc, s, r) && ch != CR && ch != LF
    ensures var d := Bytewise(hc, Conn(s, t, false), Text(r) + ([ch] + rest), 0);
            RefusedFor(d, ClosedConnection) && d.n == |Text(r)|
  {
    hide Bytewise, StaysOpen, Upgrades, RequestOk, Text, AfterRequest;
    KeptOpen(hc, s, t, r);
    var d := Bytewise(hc, Conn(s, t, false), Text(r), 0);
    GoesNoShadow(hc, s, t, r);
    LeadsThen(hc, Conn(s, t, false), Text(r), d.c, [ch] + rest);
    DeadRefuses(hc, d.c, ch, rest);
  }

  lemma GoesNoShadow(hc: Parser -> HeadersAnswer, s: Parser, t: seq<Event>, r: Request)
    requires s.state.StartReq? && s.errno == Ok && RequestOk(hc, s, r)
    ensures !Bytewise(hc, Conn(s, t, false), Text(r), 0).c.shadow
  {
    hide Bytewise, EmitAll, RequestOk, Text, Begun, AfterLines, Final, RequestEvents;
    RequestRead(hc, s, t, r);
  }

  // ---------------------------------------------------------------- one request after the other

  /** Requests on one connection: each of them leaves it open for the next. */
  predicate PipelineOk(hc: Parser -> HeadersAnswer, s: Parser, rs: seq<Request>)
    decreases |rs|
  {
    rs == []
    || (var r := rs[0];
        && RequestOk(hc, s, r) && StaysOpen(r.line.major, r.line.minor, r.headers) && !Upgrades(hc, s, r)
        && PipelineOk(hc, AfterRequest(hc, s, r), rs[1..]))
  }

  function PipelineText(rs: seq<Request>): bytes {
    if rs == [] then [] else Text(rs[0]) + PipelineText(rs[1..])
  }

  function PipelineEvents(hc: Parser -> HeadersAnswer, s: Parser, rs: seq<Request>): seq<Event>
    decreases |rs|
  {
    if rs == [] then []
    else RequestEvents(hc, s, rs[0]) + PipelineEvents(hc, AfterRequest(hc, s, rs[0]), rs[1..])
  }

  function AfterPipeline(hc: Parser -> HeadersAnswer, s: Parser, rs: seq<Request>): Parser
    decreases |rs|
  {
    if rs == [] then s else AfterPipeline(hc, AfterRequest(hc, s, rs[0]), rs[1..])
  }

  lemma StillOk(hc: Parser -> HeadersAnswer, s: Parser, r: Request)
    requires s.ptype.Request? && s.errno == Ok && RequestOk(hc, s, r)
    ensures AfterRequest(hc, s, r).errno == Ok && AfterRequest(hc, s, r).ptype.Request?
  {
    hide R.LineOk, AfterLines, NewMessage, Announces, HeadersOk, MeantAll, LengthAll;
    LinesMean(R.AfterRequestLine(s, r.line), r.headers);
  }

  /** Nothing of a request is left over when the next one is read. */
  lemma {:induction false} PipelineRead(hc: Parser -> HeadersAnswer, s: Parser, t: seq<Event>, rs: seq<Request>)
    requires s.state.StartReq? && s.ptype.Request? && s.errno == Ok && PipelineOk(hc, s, rs)
    ensures Leads(hc, Conn(s, t, false), PipelineText(rs),
                  Conn(AfterPipeline(hc, s, rs), EmitAll(t, PipelineEvents(hc, s, rs)), false))
    decreases |rs|
  {
    hide Bytewise, EmitAll, RequestOk, RequestEvents, Text, Final, Begun, AfterLines, R.AfterRequestLine, StaysOpen,
      Upgrades;
    if rs == [] {
      EmitNone(t);
      assert Bytewise(hc, Conn(s, t, false), [], 0) == RunResult(Conn(s, t, false), 0, Go) by {
        BytewiseNothing(hc, Conn(s, t, false));
      }
    } else {
      var r, s1 := rs[0], AfterRequest(hc, s, rs[0]);
      var t1 := EmitAll(t, RequestEvents(hc, s, r));
      RequestRead(hc, s, t, r);
      KeptOpen(hc, s, t, r);
      StillOk(hc, s, r);
      PipelineRead(hc, s1, t1, rs[1..]);
      LeadsOn(hc, Conn(s, t, false), Text(r), Conn(s1, t1, false), PipelineText(rs[1..]),
              Conn(AfterPipeline(hc, s, rs), EmitAll(t1, PipelineEvents(hc, s1, rs[1..])), false));
      EmitAllConcat(t, RequestEvents(hc, s, r), PipelineEvents(hc, s1, rs[1..]));
    }
  }

  /** However the connection's bytes are cut into buffers, its requests are read the same. */
  lemma PipelineInBuffers(hc: Parser -> HeadersAnswer, s: Parser, t: seq<Event>, rs: seq<Request>, buffers: seq<bytes>)
    requires s.state.StartReq? && s.ptype.Request? && s.errno == Ok && PipelineOk(hc, s, rs)
    requires Flatten(buffers) == PipelineText(rs)
    ensures Same(Feed(hc, Conn(s, t, false), buffers),
                 RunResult(Conn(AfterPipeline(hc, s, rs), EmitAll(t, PipelineEvents(hc, s, rs)), false),
                           |PipelineText(rs)|, Go))
  {
    hide Bytewise, PipelineOk, PipelineText, PipelineEvents, AfterPipeline, RunFrom;
    PipelineRead(hc, s, t, rs);
    AnyBuffers(hc, Conn(s, t, false), PipelineText(rs), buffers);
  }
}
