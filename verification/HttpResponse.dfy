/** Whole responses: status line, headers and body are what the callbacks report. */
module HttpResponse {
  import opened Bytes
  import opened Decimals
  import opened HttpTypes
  import opened HttpStep
  import opened HttpRun
  import opened HttpSplit
  import opened HttpPieces
  import opened HttpNumbers
  import opened HttpHeaders
  import opened HttpMessage

  // ---------------------------------------------------------------- the status line

  /** A status line; the blank before the reason phrase may be missing, and then the phrase is. */
  datatype StatusLine = StatusLine(major: nat, minor: nat, status: nat, reason: Option<bytes>)

  predicate IsReason(w: bytes) {
    forall k :: 0 <= k < |w| ==> w[k] != CR && w[k] != LF
  }

  predicate LineOk(l: StatusLine) {
    l.major <= 999 && l.minor <= 999 && l.status <= 999 && (l.reason.Some? ==> IsReason(l.reason.value))
  }

  function ReasonText(r: Option<bytes>): bytes {
    match r case None => [] case Some(w) => " " + w
  }

  function NumbersText(l: StatusLine): bytes {
    HTTP_SLASH + Dec(l.major) + "." + Dec(l.minor) + " " + Dec(l.status)
  }

  function LineText(l: StatusLine): bytes {
    NumbersText(l) + (ReasonText(l.reason) + CRLF)
  }

  /** After the first letter, which begins the message. */
  function Started(s: Parser): Parser {
    s.(flags := NO_FLAGS, contentLength := ULLONG_MAX, state := if s.state.StartRes? then ResH else ResOrRespH)
  }

  /** A parser of either kind of message turns to responses. */
  function Kind(s: Parser): ParserType {
    if s.state.StartRes? then s.ptype else ParserType.Response
  }

  /** The reason phrase is reported unless it is empty. */
  function ReasonEvents(r: Option<bytes>): seq<Event> {
    if r.None? || r.value == [] then [] else [Data(OnStatus, r.value)]
  }

  function LineEvents(s: Parser, l: StatusLine): seq<Event> {
    [Notify(OnMessageBegin, Started(s))] + ReasonEvents(l.reason)
  }

  function AfterStatusLine(s: Parser, l: StatusLine): Parser {
    s.(ptype := Kind(s), flags := NO_FLAGS, contentLength := ULLONG_MAX,
       major := l.major, minor := l.minor, status := l.status, state := HeaderFieldStart,
       index := if l.reason.None? || l.reason.value == [] then s.index else 0)
  }

  lemma FirstLetters(hc: Parser -> HeadersAnswer, s: Parser)
    requires s.state.StartRes? || s.state.StartReqOrRes?
    ensures Step(hc, s, 'H', false) == StepResult(Started(s), [Notify(OnMessageBegin, Started(s))], Go)
    ensures Step(hc, Started(s), 'T', false)
         == StepResult(Started(s).(ptype := Kind(s), state := ResHT), [], Go)
  {
    hide UrlByte, RequestLineByte, ChunkByte;
  }

  const HT: bytes := "HT"

  /** A parser of either kind of message learns from the second letter which kind it reads. */
  lemma FirstLettersRead(hc: Parser -> HeadersAnswer, s: Parser, t: seq<Event>)
    requires s.state.StartRes? || s.state.StartReqOrRes?
    ensures Leads(hc, Conn(s, t, false), HT,
                  Conn(Started(s).(ptype := Kind(s), state := ResHT),
                       Emit(t, Notify(OnMessageBegin, Started(s))), false))
  {
    FirstLetters(hc, s);
    var s1, t1 := Started(s), Emit(t, Notify(OnMessageBegin, Started(s)));
    var s2 := s1.(ptype := Kind(s), state := ResHT);
    hide Step, Leads, Emit, Started;
    LoudByte(hc, s, t, false, 'H', s1, Notify(OnMessageBegin, s1));
    StartedApart(s);
    QuietByte(hc, s1, t1, false, 'T', s2);
    LeadsOn(hc, Conn(s, t, false), ['H'], Conn(s1, t1, false), ['T'], Conn(s2, t1, false));
    assert ['H'] + ['T'] == HT;
  }

  lemma StartedApart(s: Parser)
    requires s.state.StartRes? || s.state.StartReqOrRes?
    ensures !Started(s).state.HeaderValue? && !s.state.HeaderValue?
  {
  }

  const TP_SLASH: bytes := "TP/"

  lemma SlashRead(hc: Parser -> HeadersAnswer, s: Parser, t: seq<Event>)
    requires s.state.ResHT?
    ensures Leads(hc, Conn(s, t, false), TP_SLASH, Conn(s.(state := ResFirstHttpMajor), t, false))
  {
    hide Leads;
    PunctuationRun(hc, s, t, TP_SLASH, [ResHT, ResHTT, ResHTTP, ResFirstHttpMajor]);
  }

  /** The numbers of the line, from its second letter on. */
  lemma NumbersRead(hc: Parser -> HeadersAnswer, s: Parser, t: seq<Event>, l: StatusLine)
    requires s.state.ResHT? && LineOk(l)
    ensures Leads(hc, Conn(s, t, false), TP_SLASH + Dec(l.major) + "." + Dec(l.minor) + " " + Dec(l.status),
                  Conn(s.(major := l.major, minor := l.minor, status := l.status, state := ResStatusCode), t, false))
  {
    hide Leads, Dec;
    var c := Conn(s, t, false);
    var s1 := s.(state := ResFirstHttpMajor);
    var s2 := Reading(s1, ResMajor, l.major);
    var s3 := s2.(state := ResFirstHttpMinor);
    var s4 := Reading(s3, ResMinor, l.minor);
    var s5 := s4.(state := ResFirstStatusCode);
    var s6 := Reading(s5, ResStatusNumber, l.status);
    SlashRead(hc, s, t);
    NumberRead(hc, s1, t, ResMajor, l.major);
    LeadsOn(hc, c, TP_SLASH, Conn(s1, t, false), Dec(l.major), Conn(s2, t, false));
    Punctuation(hc, s2, t, '.', ResFirstHttpMinor);
    LeadsOn(hc, c, TP_SLASH + Dec(l.major), Conn(s2, t, false), ".", Conn(s3, t, false));
    NumberRead(hc, s3, t, ResMinor, l.minor);
    LeadsOn(hc, c, TP_SLASH + Dec(l.major) + ".", Conn(s3, t, false), Dec(l.minor), Conn(s4, t, false));
    Punctuation(hc, s4, t, ' ', ResFirstStatusCode);
    LeadsOn(hc, c, TP_SLASH + Dec(l.major) + "." + Dec(l.minor), Conn(s4, t, false), " ", Conn(s5, t, false));
    NumberRead(hc, s5, t, ResStatusNumber, l.status);
    LeadsOn(hc, c, TP_SLASH + Dec(l.major) + "." + Dec(l.minor) + " ", Conn(s5, t, false), Dec(l.status),
            Conn(s6, t, false));
  }

  lemma ReasonSteps(hc: Parser -> HeadersAnswer, s: Parser, ch: byte)
    requires s.state.ResStatusStart?
    ensures var s1 := s.(state := ResStatus, index := 0);
            && (ch != CR && ch != LF ==>
                  && Step(hc, s, ch, false) == StepResult(s1, [Data(OnStatus, [ch])], Go)
                  && Step(hc, s1, ch, false) == StepResult(s1, [Data(OnStatus, [ch])], Go))
            && Step(hc, s, CR, false) == StepResult(s.(state := ResLineAlmostDone), [], Go)
            && Step(hc, s1, CR, false) == StepResult(s1.(state := ResLineAlmostDone), [Data(OnStatus, [])], Go)
  {
  }

  /** The reason phrase is reported as it stands. */
  lemma {:induction false} PhraseRead(hc: Parser -> HeadersAnswer, s: Parser, t: seq<Event>, w: bytes)
    requires s.state.ResStatusStart? && w != [] && IsReason(w)
    ensures Leads(hc, Conn(s, t, false), w, Conn(s.(state := ResStatus, index := 0), Emit(t, Data(OnStatus, w)), false))
    decreases |w|
  {
    hide Leads, Emit, Step;
    var n := |w| - 1;
    var init, ch := w[..n], w[n];
    var s1 := s.(state := ResStatus, index := 0);
    assert w == init + [ch];
    ReasonSteps(hc, s, ch);
    if n == 0 {
      assert w == [ch];
      LoudByte(hc, s, t, false, ch, s1, Data(OnStatus, [ch]));
    } else {
      PhraseRead(hc, s, t, init);
      var t1 := Emit(t, Data(OnStatus, init));
      LoudByte(hc, s1, t1, false, ch, s1, Data(OnStatus, [ch]));
      EmitJoins(t, OnStatus, init, [ch]);
      LeadsOn(hc, Conn(s, t, false), init, Conn(s1, t1, false), [ch], Conn(s1, Emit(t, Data(OnStatus, w)), false));
    }
  }

  lemma LastLf(hc: Parser -> HeadersAnswer, s: Parser, t: seq<Event>, a: bytes, c: Conn)
    requires s.state.ResLineAlmostDone? && Leads(hc, c, a, Conn(s, t, false))
    ensures Leads(hc, c, a + [LF], Conn(s.(state := HeaderFieldStart), t, false))
  {
    hide Leads;
    Punctuation(hc, s, t, LF, HeaderFieldStart);
    LeadsOn(hc, c, a, Conn(s, t, false), [LF], Conn(s.(state := HeaderFieldStart), t, false));
  }

  /** What comes after the status code, to the end of the line. */
  lemma ReasonRead(hc: Parser -> HeadersAnswer, s: Parser, t: seq<Event>, r: Option<bytes>)
    requires s.state.ResStatusCode? && (r.Some? ==> IsReason(r.value))
    ensures Leads(hc, Conn(s, t, false), ReasonText(r) + CRLF,
                  Conn(s.(index := if r.None? || r.value == [] then s.index else 0, state := HeaderFieldStart),
                       EmitAll(t, ReasonEvents(r)), false))
  {
    hide Leads, Emit, EmitAll, Step;
    var c := Conn(s, t, false);
    if r.None? || r.value == [] {
      EmitNone(t);
      var s2 := s.(state := ResLineAlmostDone);
      if r.None? {
        Punctuation(hc, s, t, CR, ResLineAlmostDone);
        LastLf(hc, s2, t, [CR], c);
        assert [CR] + [LF] == ReasonText(r) + CRLF;
      } else {
        var s1 := s.(state := ResStatusStart);
        Punctuation(hc, s, t, ' ', ResStatusStart);
        ReasonSteps(hc, s1, CR);
        QuietByte(hc, s1, t, false, CR, s2);
        LeadsOn(hc, c, [' '], Conn(s1, t, false), [CR], Conn(s2, t, false));
        LastLf(hc, s2, t, [' '] + [CR], c);
        assert [' '] + [CR] + [LF] == ReasonText(r) + CRLF;
      }
    } else {
      var w := r.value;
      var s1 := s.(state := ResStatusStart);
      var s2, t2 := s.(state := ResStatus, index := 0), Emit(t, Data(OnStatus, w));
      var s3 := s2.(state := ResLineAlmostDone);
      Punctuation(hc, s, t, ' ', ResStatusStart);
      PhraseRead(hc, s1, t, w);
      ReasonSteps(hc, s1, CR);
      EmitJoins(t, OnStatus, w, []);
      assert w + [] == w;
      EmitOne(t, Data(OnStatus, w));
      LeadsOn(hc, c, [' '], Conn(s1, t, false), w, Conn(s2, t2, false));
      LoudByte(hc, s2, t2, false, CR, s3, Data(OnStatus, []));
      LeadsOn(hc, c, [' '] + w, Conn(s2, t2, false), [CR], Conn(s3, t2, false));
      LastLf(hc, s3, t2, [' '] + w + [CR], c);
      assert [' '] + w + [CR] + [LF] == ReasonText(r) + CRLF;
    }
  }

  /** Every status line is read for what it says. */
  lemma StatusLineRead(hc: Parser -> HeadersAnswer, s: Parser, t: seq<Event>, l: StatusLine)
    requires (s.state.StartRes? || s.state.StartReqOrRes?) && LineOk(l)
    ensures Leads(hc, Conn(s, t, false), LineText(l),
                  Conn(AfterStatusLine(s, l), EmitAll(t, LineEvents(s, l)), false))
  {
    hide Leads, Emit, EmitAll, Dec, ReasonText, ReasonEvents, IsReason;
    var begin := Notify(OnMessageBegin, Started(s));
    var c, t1 := Conn(s, t, false), Emit(t, begin);
    var s1 := Started(s).(ptype := Kind(s), state := ResHT);
    var s2 := s1.(major := l.major, minor := l.minor, status := l.status, state := ResStatusCode);
    var numbers := TP_SLASH + Dec(l.major) + "." + Dec(l.minor) + " " + Dec(l.status);
    FirstLettersRead(hc, s, t);
    NumbersRead(hc, s1, t1, l);
    LeadsOn(hc, c, HT, Conn(s1, t1, false), numbers, Conn(s2, t1, false));
    assert HT + numbers == NumbersText(l) by { Slashes(l); }
    ReasonRead(hc, s2, t1, l.reason);
    EmitAllConcat(t, [begin], ReasonEvents(l.reason));
    EmitOne(t, begin);
    var d := Conn(AfterStatusLine(s, l), EmitAll(t1, ReasonEvents(l.reason)), false);
    LeadsOn(hc, c, NumbersText(l), Conn(s2, t1, false), ReasonText(l.reason) + CRLF, d);
  }

  lemma Slashes(l: StatusLine)
    ensures HT + (TP_SLASH + Dec(l.major) + "." + Dec(l.minor) + " " + Dec(l.status)) == NumbersText(l)
  {
    hide Dec;
    assert HT + TP_SLASH == HTTP_SLASH;
  }

  // ---------------------------------------------------------------- blank lines before a response

  /** A parser that waits for a response, and has seen a line end instead. */
  function Waiting(s: Parser): Parser {
    s.(flags := NO_FLAGS, contentLength := ULLONG_MAX)
  }

  function Times(e: Event, n: nat): seq<Event> {
    if n == 0 then [] else Times(e, n - 1) + [e]
  }

  lemma BlankStep(hc: Parser -> HeadersAnswer, s: Parser, ch: byte)
    requires s.state.StartRes? && (ch == CR || ch == LF)
    ensures Step(hc, s, ch, false) == StepResult(Waiting(s), [Notify(OnMessageBegin, Waiting(s))], Go)
  {
  }

  /** Each byte of the line ends before a response is reported as the beginning of a message. */
  lemma {:induction false} BlankLinesBegin(hc: Parser -> HeadersAnswer, s: Parser, t: seq<Event>, w: bytes)
    requires s.state.StartRes? && w != [] && forall k :: 0 <= k < |w| ==> w[k] == CR || w[k] == LF
    ensures Leads(hc, Conn(s, t, false), w,
                  Conn(Waiting(s), EmitAll(t, Times(Notify(OnMessageBegin, Waiting(s)), |w|)), false))
    decreases |w|
  {
    hide Leads, Emit, EmitAll, Step;
    var n := |w| - 1;
    var init, ch, e := w[..n], w[n], Notify(OnMessageBegin, Waiting(s));
    assert w == init + [ch];
    EmitAllConcat(t, Times(e, n), [e]);
    EmitOne(EmitAll(t, Times(e, n)), e);
    if n == 0 {
      assert w == [ch];
      EmitNone(t);
      BlankStep(hc, s, ch);
      LoudByte(hc, s, t, false, ch, Waiting(s), e);
    } else {
      var s1, t1 := Waiting(s), EmitAll(t, Times(e, n));
      BlankLinesBegin(hc, s, t, init);
      BlankStep(hc, s1, ch);
      LoudByte(hc, s1, t1, false, ch, s1, e);
      LeadsOn(hc, Conn(s, t, false), init, Conn(s1, t1, false), [ch], Conn(s1, Emit(t1, e), false));
    }
  }

  /** Before a request they pass without a callback. */
  lemma {:induction false} BlankLinesSkipped(hc: Parser -> HeadersAnswer, s: Parser, t: seq<Event>, w: bytes)
    requires s.state.StartReq? && forall k :: 0 <= k < |w| ==> w[k] == CR || w[k] == LF
    ensures Leads(hc, Conn(s, t, false), w, Conn(s, t, false))
    decreases |w|
  {
    assert forall ch: byte :: ch == CR || ch == LF ==> Step(hc, s, ch, false) == StepResult(s, [], Go);
    hide Step;
    if w != [] {
      hide Leads;
      QuietByte(hc, s, t, false, w[0], s);
      BlankLinesSkipped(hc, s, t, w[1..]);
      assert [w[0]] + w[1..] == w;
      LeadsOn(hc, Conn(s, t, false), [w[0]], Conn(s, t, false), w[1..], Conn(s, t, false));
    }
  }

  // ---------------------------------------------------------------- the message

  datatype Response = Response(line: StatusLine, headers: seq<Header>, body: Body)

  function Text(r: Response): bytes {
    LineText(r.line) + HeadAndBody(r.headers, r.body)
  }

  predicate ResponseOk(hc: Parser -> HeadersAnswer, s: Parser, r: Response) {
    LineOk(r.line) && MessageOk(hc, AfterStatusLine(s, r.line), r.headers, r.body)
  }

  function ResponseEvents(hc: Parser -> HeadersAnswer, s: Parser, r: Response): seq<Event> {
    LineEvents(s, r.line) + HeadAndBodyEvents(hc, AfterStatusLine(s, r.line), r.headers, r.body)
  }

  /** The parser after the response, and whether it stops there. */
  function ResponseResult(hc: Parser -> HeadersAnswer, s: Parser, t: seq<Event>, r: Response): RunResult {
    var s1 := Begun(hc, AfterLines(AfterStatusLine(s, r.line), r.headers));
    RunResult(Conn(Final(s1, r.body), EmitAll(t, ResponseEvents(hc, s, r)), false), |Text(r)|,
              if s1.upgrade && !r.body.Rest? then Exit else Go)
  }

  /**
   * A response is reported piece by piece just as it was written: its numbers and
   * phrase, its headers, and a body that ends by its status, its length, its
   * chunks, or with the stream.
   */
  lemma ResponseRead(hc: Parser -> HeadersAnswer, s: Parser, t: seq<Event>, r: Response)
    requires (s.state.StartRes? || s.state.StartReqOrRes?) && s.errno == Ok && ResponseOk(hc, s, r)
    ensures Bytewise(hc, Conn(s, t, false), Text(r), 0) == ResponseResult(hc, s, t, r)
  {
    hide Leads, Bytewise, EmitAll, LineText, LineOk, LineEvents, HeadAndBody, HeadAndBodyEvents, MessageOk, AfterLines,
      Final, Begun;
    StatusLineRead(hc, s, t, r.line);
    LineThenMessage(hc, Conn(s, t, false), LineText(r.line), AfterStatusLine(s, r.line), t, LineEvents(s, r.line),
                    r.headers, r.body);
  }

  /** However the response is cut into buffers, it is read the same. */
  lemma ResponseInBuffers(hc: Parser -> HeadersAnswer, s: Parser, t: seq<Event>, r: Response, buffers: seq<bytes>)
    requires (s.state.StartRes? || s.state.StartReqOrRes?) && s.errno == Ok && ResponseOk(hc, s, r)
    requires Flatten(buffers) == Text(r)
    ensures Same(Feed(hc, Conn(s, t, false), buffers), ResponseResult(hc, s, t, r))
  {
    hide Bytewise, ResponseOk, ResponseResult, Text, RunFrom;
    ResponseRead(hc, s, t, r);
    ResultGoes(hc, s, t, r);
    AnyBuffers(hc, Conn(s, t, false), Text(r), buffers);
  }

  lemma ResultGoes(hc: Parser -> HeadersAnswer, s: Parser, t: seq<Event>, r: Response)
    ensures !ResponseResult(hc, s, t, r).out.Fail?
  {
  }

  /**
   * After a response the parser waits for another exactly if version and header
   * keep the connection open and its body does not end with the stream.
   */
  lemma KeptOpen(hc: Parser -> HeadersAnswer, s: Parser, t: seq<Event>, r: Response)
    requires (s.state.StartRes? && s.ptype.Response?) || s.state.StartReqOrRes?
    requires s.errno == Ok && ResponseOk(hc, s, r)
    ensures var d := Bytewise(hc, Conn(s, t, false), Text(r), 0);
            var answer := hc(Headed(AfterLines(AfterStatusLine(s, r.line), r.headers)));
            var unending := Unending(r.line.status, r.headers, answer);
            && d.n == |Text(r)|
            && (r.body.Rest? ==> unending)
            && (d.c.s.state
                == if r.body.Rest? then BodyIdentityEof
                   else if StaysOpen(r.line.major, r.line.minor, r.headers) && !unending then StartRes else Dead)
  {
    hide Bytewise, EmitAll, LineOk, MessageOk, StaysOpen, Text, Begun, AfterLines, Final, ResponseEvents, Unending,
      EndsWithStream;
    var s1 := AfterStatusLine(s, r.line);
    ResponseRead(hc, s, t, r);
    OpenExact(hc, s1, r.headers, r.body);
    UnendingExact(hc, s1, r.headers, r.body);
    OnlyNoneEnds(hc, s1, r.headers, r.body);
  }

  /** Only a message without a body can end with the stream and yet be over. */
  lemma OnlyNoneEnds(hc: Parser -> HeadersAnswer, s: Parser, hs: seq<Header>, b: Body)
    requires MessageOk(hc, s, hs, b)
    ensures EndsWithStream(Begun(hc, AfterLines(s, hs))) ==> b.None? || b.Rest?
  {
    hide AfterLines, HeadersOk, Begun;
  }
}
