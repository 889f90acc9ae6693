/** What holds of the parser record between bytes, in every state a run can reach. */
module HttpInvariant {
  import opened Bytes
  import opened HttpTypes
  import opened HttpStep

  /** The name that a header field, or the value of one, is being compared with. */
  function Matching(h: HState): string {
    match h
    case MatchingConnection => CONNECTION
    case MatchingProxyConnection => PROXY_CONNECTION
    case MatchingContentLength => CONTENT_LENGTH
    case MatchingTransferEncoding => TRANSFER_ENCODING
    case MatchingUpgrade => UPGRADE
    case MatchingTransferEncodingChunked => CHUNKED
    case MatchingConnectionKeepAlive => KEEP_ALIVE
    case MatchingConnectionClose => CLOSE
    case MatchingConnectionUpgrade => UPGRADE
    case _ => ""
  }

  /** The matcher stands before the last character of the name, so that no comparison reads past its NUL. */
  predicate MatcherInBounds(h: HState, index: nat) {
    Matching(h) != "" ==> index < |Matching(h)| - 1
  }

  /** The header states a field name can be in; line 1405 claims there is no other. */
  predicate FieldState(h: HState) {
    h.General? || h.C? || h.CO? || h.CON? || h.MatchingConnection? || h.MatchingProxyConnection?
    || h.MatchingContentLength? || h.MatchingTransferEncoding? || h.MatchingUpgrade?
    || h.Connection? || h.ContentLength? || h.TransferEncoding? || h.Upgrade?
  }

  /** The header states a value can be in; line 1562 claims that `Connection` and `TransferEncoding` are not
      among them, and the `default` of line 1682 is never taken. */
  predicate ValueState(h: HState) {
    h.General? || h.ContentLength? || h.MatchingTransferEncodingChunked?
    || h.MatchingConnectionTokenStart? || h.MatchingConnectionKeepAlive? || h.MatchingConnectionClose?
    || h.MatchingConnectionUpgrade? || h.MatchingConnectionToken?
    || h.TransferEncodingChunked? || h.ConnectionKeepAlive? || h.ConnectionClose? || h.ConnectionUpgrade?
  }

  predicate InField(s: Parser) {
    FieldState(s.hstate) && MatcherInBounds(s.hstate, s.index)
    && (s.hstate.C? ==> s.index == 0) && (s.hstate.CO? ==> s.index == 1) && (s.hstate.CON? ==> s.index == 2)
  }

  predicate InValue(s: Parser) {
    ValueState(s.hstate) && MatcherInBounds(s.hstate, s.index)
    && (s.hstate.MatchingConnectionTokenStart? ==> s.index == 0)
  }

  predicate InChunk(st: State) {
    st.ChunkSizeStart? || st.ChunkSize? || st.ChunkParameters? || st.ChunkSizeAlmostDone?
    || st.ChunkData? || st.ChunkDataAlmostDone? || st.ChunkDataDone?
  }

  /** The state's own demands: the internal assertions of `http_parser_execute`. */
  predicate StateOk(s: Parser) {
    match s.state
    case ReqMethod => 1 <= s.index <= |MethodString(s.verb)|
    case HeaderField => InField(s)
    case HeaderValueDiscardWs => FieldState(s.hstate)
    case HeaderValueDiscardWsAlmostDone => FieldState(s.hstate)
    case HeaderValueDiscardLws => FieldState(s.hstate)
    case HeaderValue => InValue(s)
    case ChunkSizeStart => s.flags.chunked
    case ChunkSize => s.flags.chunked && s.contentLength != ULLONG_MAX
    case ChunkParameters => s.flags.chunked && s.contentLength != ULLONG_MAX
    case ChunkSizeAlmostDone => s.flags.chunked && s.contentLength != ULLONG_MAX
    case ChunkData => s.flags.chunked && s.contentLength != 0 && s.contentLength != ULLONG_MAX
    case ChunkDataAlmostDone => s.flags.chunked && s.contentLength == 0
    case ChunkDataDone => s.flags.chunked && s.contentLength == 0
    case BodyIdentity => s.contentLength != 0 && s.contentLength != ULLONG_MAX
    case HeaderValueStart => false   // these three are left within the byte that enters them
    case HeadersDone => false
    case MessageDone => false
    case _ => true
  }

  /** The field widths of http_parser.h, and the limits the parser itself puts on its numbers. */
  predicate Valid(s: Parser) {
    && s.index < 128 && s.major <= 999 && s.minor <= 999 && s.status <= 999
    && s.contentLength <= ULLONG_MAX
    && (s.flags.contentLength ==> s.contentLength != ULLONG_MAX)
    && StateOk(s)
  }

  /** Fields at the widths of http_parser.h even when the step fails: nothing wraps. */
  predicate Fits(s: Parser) {
    s.index < 128 && s.major < 0x1_0000 && s.minor < 0x1_0000 && s.status < 0x1_0000
    && s.contentLength <= ULLONG_MAX
  }

  /** Between messages, and not because the stream has changed to another protocol. */
  predicate NotUpgraded(s: Parser) {
    s.state.StartReq? || s.state.StartRes? || s.state.StartReqOrRes? || s.state.Dead? ==> !s.upgrade
  }

  /** What a step from a valid state leads to. */
  predicate Good(s: Parser, r: StepResult) {
    && r.s.lenient == s.lenient
    && match r.out
       case Go => r.s.errno == Ok && Valid(r.s) && (NotUpgraded(s) ==> NotUpgraded(r.s))
       case Fail => r.s.errno != Ok && r.s.errno != HeaderOverflow && Fits(r.s)
       case Exit => r.s.errno == Ok && Valid(r.s) && !NotUpgraded(r.s)
  }

  predicate Ready(s: Parser) {
    Valid(s) && s.errno == Ok
  }

  lemma {:induction false} StepKeepsValid(hc: Parser -> HeadersAnswer, s: Parser, ch: byte, shadowed: bool)
    requires Ready(s)
    ensures Good(s, Step(hc, s, ch, shadowed))
  {
    hide Good, FieldByte, ValueByte, FieldStartByte, HeadersAlmostDoneByte, DiscardLwsByte, ValueLwsByte,
      DiscardWsByte, UrlByte, StatusByte, StatusLineByte, RequestLineByte, ChunkByte, StartReqByte, StartReqOrResByte,
      StartResByte,
      ChunkDataByte, BodyIdentityByte, HeaderAlmostDoneByte;
    match s.state
    case HeaderField => FieldKeepsValid(s, ch);
    case HeaderValue => ValueKeepsValid(s, ch, shadowed);
    case HeaderFieldStart => FieldStartKeepsValid(hc, s, ch);
    case HeadersAlmostDone => HeadersAlmostDoneKeepsValid(hc, s, ch);
    case HeaderValueDiscardLws => DiscardLwsKeepsValid(hc, s, ch);
    case HeaderValueLws => ValueLwsKeepsValid(hc, s, ch);
    case HeaderValueDiscardWs => DiscardWsKeepsValid(s, ch);
    case ReqSpacesBeforeUrl => UrlKeepsValid(s, ch);
    case ChunkSizeStart => ChunkKeepsValid(s, ch);
    case ChunkSize => ChunkKeepsValid(s, ch);
    case ChunkParameters => ChunkKeepsValid(s, ch);
    case ChunkSizeAlmostDone => ChunkKeepsValid(s, ch);
    case ChunkDataAlmostDone => ChunkKeepsValid(s, ch);
    case ChunkDataDone => ChunkKeepsValid(s, ch);
    case ChunkData => BodyKeepsValid(s, ch);
    case BodyIdentity => BodyKeepsValid(s, ch);
    case StartReq => StartKeepsValid(s, ch);
    case StartRes => StartKeepsValid(s, ch);
    case StartReqOrRes => StartKeepsValid(s, ch);
    case ResStatusStart => StatusKeepsValid(s, ch);
    case ResStatus => StatusKeepsValid(s, ch);
    case BodyIdentityEof => OtherKeepsValid(hc, s, ch, shadowed);
    case HeaderAlmostDone => OtherKeepsValid(hc, s, ch, shadowed);
    case HeaderValueDiscardWsAlmostDone => OtherKeepsValid(hc, s, ch, shadowed);
    case Dead => OtherKeepsValid(hc, s, ch, shadowed);
    case _ =>
      if InUrl(s.state) {
        UrlKeepsValid(s, ch);
      } else if InStatusLine(s.state) {
        StatusLineKeepsValid(s, ch);
      } else {
        RequestLineKeepsValid(s, ch);
      }
  }

  lemma {:induction false} OtherKeepsValid(hc: Parser -> HeadersAnswer, s: Parser, ch: byte, shadowed: bool)
    requires Ready(s)
    requires s.state.BodyIdentityEof? || s.state.HeaderAlmostDone? || s.state.HeaderValueDiscardWsAlmostDone?
             || s.state.Dead?
    ensures Good(s, Step(hc, s, ch, shadowed))
  {
    hide UrlByte, StatusLineByte, RequestLineByte, ChunkByte, FieldByte, ValueByte, FieldStartByte, InUrl;
  }

  lemma {:induction false} StartKeepsValid(s: Parser, ch: byte)
    requires Ready(s) && (s.state.StartReq? || s.state.StartRes? || s.state.StartReqOrRes?)
    ensures s.state.StartReq? ==> Good(s, StartReqByte(s, ch))
    ensures s.state.StartRes? ==> Good(s, StartResByte(s, ch))
    ensures s.state.StartReqOrRes? ==> Good(s, StartReqOrResByte(s, ch))
  {
    hide MethodString;
    MethodLength(StartMethod(ch).0);
  }

  lemma {:induction false} StatusKeepsValid(s: Parser, ch: byte)
    requires Ready(s) && (s.state.ResStatusStart? || s.state.ResStatus?)
    ensures Good(s, StatusByte(s, ch))
  {
  }

  lemma {:induction false} StatusLineKeepsValid(s: Parser, ch: byte)
    requires Ready(s) && InStatusLine(s.state)
    ensures Good(s, StatusLineByte(s, ch))
  {
    hide StatusLineByte, Good;
    if InStatusNumbers(s.state) {
      StatusNumbersKeepValid(s, ch);
    } else {
      StatusWordKeepsValid(s, ch);
    }
  }

  /** The states of a status line that look for digits. */
  predicate InStatusNumbers(st: State) {
    st.ResFirstHttpMajor? || st.ResHttpMajor? || st.ResFirstHttpMinor? || st.ResHttpMinor? || st.ResFirstStatusCode?
    || st.ResStatusCode?
  }

  lemma {:induction false} StatusNumbersKeepValid(s: Parser, ch: byte)
    requires Ready(s) && InStatusNumbers(s.state)
    ensures Good(s, StatusLineByte(s, ch))
  {
    hide MethodString, MajorDigit, MinorDigit;
    DigitKeepsValid(s, ch);
  }

  lemma {:induction false} StatusWordKeepsValid(s: Parser, ch: byte)
    requires Ready(s)
    requires s.state.ResOrRespH? || s.state.ResH? || s.state.ResHT? || s.state.ResHTT? || s.state.ResHTTP?
             || s.state.ResLineAlmostDone?
    ensures Good(s, StatusLineByte(s, ch))
  {
    hide MethodString, MajorDigit, MinorDigit;
    MethodLength(HEAD);
  }

  lemma {:induction false} RequestLineKeepsValid(s: Parser, ch: byte)
    requires Ready(s) && InRequestLine(s.state)
    ensures Good(s, RequestLineByte(s, ch))
  {
    hide MethodByte, Good;
    if s.state.ReqMethod? {
      MethodKeepsValid(s, ch);
    } else if s.state.ReqFirstHttpMajor? || s.state.ReqHttpMajor? || s.state.ReqFirstHttpMinor?
              || s.state.ReqHttpMinor? {
      RequestNumbersKeepValid(s, ch);
    } else {
      RequestWordKeepsValid(s, ch);
    }
  }

  lemma {:induction false} RequestNumbersKeepValid(s: Parser, ch: byte)
    requires Ready(s)
    requires s.state.ReqFirstHttpMajor? || s.state.ReqHttpMajor? || s.state.ReqFirstHttpMinor? || s.state.ReqHttpMinor?
    ensures Good(s, RequestLineByte(s, ch))
  {
    hide MajorDigit, MinorDigit;
    DigitKeepsValid(s, ch);
  }

  lemma {:induction false} RequestWordKeepsValid(s: Parser, ch: byte)
    requires Ready(s)
    requires s.state.ReqHttpStart? || s.state.ReqHttpH? || s.state.ReqHttpHT? || s.state.ReqHttpHTT?
             || s.state.ReqHttpHTTP? || s.state.ReqLineAlmostDone?
    ensures Good(s, RequestLineByte(s, ch))
  {
    RequestTargets(s);
    hide To, Err, Good, Valid;
  }

  /** Failing, and going on along a request line, is good in any state. */
  lemma RequestTargets(s: Parser)
    requires Ready(s)
    ensures forall e: Errno :: e != Ok && e != HeaderOverflow ==> Good(s, Err(s, e))
    ensures forall st: State :: (InRequestLine(st) && !st.ReqMethod?) || st.HeaderFieldStart? ==> Good(s, To(s, st))
  {
  }

  lemma {:induction false} DigitKeepsValid(s: Parser, ch: byte)
    requires Ready(s)
    ensures Good(s, MajorDigit(s, ch)) && Good(s, MinorDigit(s, ch))
  {
    hide MethodString;
  }

  lemma {:induction false} MethodLength(m: Method)
    ensures 3 <= |MethodString(m)| < 127
    ensures m == MKCALENDAR || m == UNLINK || m == PROPPATCH ==> |MethodString(m)| >= 5
  {
  }

  /** A method that takes over from another is long enough. */
  lemma SwitchFits(m: Method, index: nat, ch: byte)
    ensures var (n, known) := SwitchMethod(m, index, ch); known ==> index + 1 <= |MethodString(n)|
  {
    hide MethodString;
    MethodLength(SwitchMethod(m, index, ch).0);
  }

  lemma {:induction false} MethodKeepsValid(s: Parser, ch: byte)
    requires Ready(s) && s.state.ReqMethod?
    ensures Good(s, MethodByte(s, ch))
  {
    hide MethodString, SwitchMethod, IsAlpha;
    MethodLength(s.verb);
    MethodLength(SwitchMethod(s.verb, s.index, ch).0);
    SwitchFits(s.verb, s.index, ch);
    MethodLength(MSEARCH);
  }

  lemma {:induction false} UrlKeepsValid(s: Parser, ch: byte)
    requires Ready(s) && (s.state.ReqSpacesBeforeUrl? || InUrl(s.state))
    ensures Good(s, UrlByte(s, ch))
  {
    hide ParseUrlChar;
    UrlStates(s.state, ch);
    UrlStates(ReqServerStart, ch);
  }

  lemma {:induction false} UrlStates(st: State, ch: byte)
    ensures ParseUrlChar(st, ch).Dead? || InUrl(ParseUrlChar(st, ch))
  {
  }

  lemma {:induction false} FieldKeepsValid(s: Parser, ch: byte)
    requires Ready(s) && s.state.HeaderField?
    ensures Good(s, FieldByte(s, ch))
  {
    hide FieldChar;
    if Token(ch) != '\0' {
      FieldCharKeepsValid(s, ch, Token(ch));
    }
  }

  lemma {:induction false} FieldCharKeepsValid(s: Parser, ch: byte, c: byte)
    requires InField(s) && s.index < 128 && c != '\0'
    ensures var s1 := FieldChar(s, ch, c);
            InField(s1) && s1.index < 128 && s1 == s.(index := s1.index, hstate := s1.hstate)
  {
    NameLengths();
    hide CONNECTION, PROXY_CONNECTION, CONTENT_LENGTH, TRANSFER_ENCODING, UPGRADE, Match;
    match s.hstate
    case MatchingConnection => MatchKeeps(s, CONNECTION, c, s.hstate, General, Connection);
    case MatchingProxyConnection => MatchKeeps(s, PROXY_CONNECTION, c, s.hstate, General, Connection);
    case MatchingContentLength => MatchKeeps(s, CONTENT_LENGTH, c, s.hstate, General, ContentLength);
    case MatchingTransferEncoding => MatchKeeps(s, TRANSFER_ENCODING, c, s.hstate, General, TransferEncoding);
    case MatchingUpgrade => MatchKeeps(s, UPGRADE, c, s.hstate, General, Upgrade);
    case _ =>
  }

  lemma NameLengths()
    ensures |CONNECTION| == 10 && |PROXY_CONNECTION| == 16 && |CONTENT_LENGTH| == 14
    ensures |TRANSFER_ENCODING| == 17 && |UPGRADE| == 7
    ensures |CHUNKED| == 7 && |KEEP_ALIVE| == 10 && |CLOSE| == 5
  {
  }

  lemma {:induction false} ValueStartKeepsValid(s: Parser, ch: byte)
    requires Ready(s.(state := HeaderFieldStart))
    ensures Good(s, ValueStartByte(s, ch))
  {
    hide ValueStartByte, Good;
    if s.hstate.ContentLength? {
      LengthStartKeepsValid(s, ch);
    } else if s.hstate.Connection? || s.hstate.TransferEncoding? {
      MatcherStartKeepsValid(s, ch);
    } else {
      OtherStartKeepsValid(s, ch);
    }
  }

  lemma {:induction false} LengthStartKeepsValid(s: Parser, ch: byte)
    requires Ready(s.(state := HeaderFieldStart)) && s.hstate.ContentLength?
    ensures Good(s, ValueStartByte(s, ch))
  {
  }

  lemma {:induction false} MatcherStartKeepsValid(s: Parser, ch: byte)
    requires Ready(s.(state := HeaderFieldStart)) && (s.hstate.Connection? || s.hstate.TransferEncoding?)
    ensures Good(s, ValueStartByte(s, ch))
  {
    NameLengths();
  }

  lemma {:induction false} OtherStartKeepsValid(s: Parser, ch: byte)
    requires Ready(s.(state := HeaderFieldStart))
    requires !s.hstate.ContentLength? && !s.hstate.Connection? && !s.hstate.TransferEncoding?
    ensures Good(s, ValueStartByte(s, ch))
  {
  }

  lemma {:induction false} DiscardWsKeepsValid(s: Parser, ch: byte)
    requires Ready(s) && s.state.HeaderValueDiscardWs?
    ensures Good(s, DiscardWsByte(s, ch))
  {
    hide ValueStartByte;
    ValueStartKeepsValid(s, ch);
  }

  lemma {:induction false} ValueKeepsValid(s: Parser, ch: byte, shadowed: bool)
    requires Ready(s) && s.state.HeaderValue?
    ensures Good(s, ValueByte(s, ch, shadowed))
  {
    ValueErrno(s, ch);
    hide ValueChar, InValue;
    if ch != CR && ch != LF {
      ValueCharKeepsValid(s, ch);
    }
  }

  lemma ValueErrno(s: Parser, ch: byte)
    requires s.errno == Ok
    ensures ValueChar(s, ch).errno == Ok || ValueChar(s, ch).errno == InvalidContentLength
  {
    hide CharAt;
  }

  /** `s1` is what a character of the value may make of `s`. */
  predicate SameValue(s: Parser, s1: Parser) {
    && InValue(s1) && s1.index < 128 && s1.contentLength <= ULLONG_MAX
    && (s1.flags.contentLength ==> s1.contentLength != ULLONG_MAX)
    && s1 == s.(index := s1.index, hstate := s1.hstate, errno := s1.errno, flags := s1.flags,
                contentLength := s1.contentLength)
  }

  lemma {:induction false} ValueCharKeepsValid(s: Parser, ch: byte)
    requires Valid(s) && s.state.HeaderValue?
    ensures SameValue(s, ValueChar(s, ch))
  {
    hide ValueChar, SameValue;
    if Matching(s.hstate) != "" {
      MatcherKeepsValid(s, ch);
    } else if s.hstate.ContentLength? {
      LengthKeepsValid(s, ch);
    } else {
      TokensKeepValid(s, ch);
    }
  }

  lemma {:induction false} LengthKeepsValid(s: Parser, ch: byte)
    requires Valid(s) && s.state.HeaderValue? && s.hstate.ContentLength?
    ensures SameValue(s, ValueChar(s, ch))
  {
    NameLengths();
  }

  lemma {:induction false} TokensKeepValid(s: Parser, ch: byte)
    requires Valid(s) && s.state.HeaderValue? && Matching(s.hstate) == "" && !s.hstate.ContentLength?
    ensures SameValue(s, ValueChar(s, ch))
  {
    hide Match, Token, ConnectionTokenEnd;
    NameLengths();
    TokenEndKeepsValid(s, ch);
  }

  lemma TokenEndKeepsValid(s: Parser, ch: byte)
    requires Valid(s) && s.state.HeaderValue?
    ensures SameValue(s, ConnectionTokenEnd(s, ch))
            || !(s.hstate.ConnectionKeepAlive? || s.hstate.ConnectionClose? || s.hstate.ConnectionUpgrade?)
  {
  }

  lemma {:induction false} MatcherKeepsValid(s: Parser, ch: byte)
    requires Valid(s) && s.state.HeaderValue? && Matching(s.hstate) != ""
    ensures SameValue(s, ValueChar(s, ch))
  {
    NameLengths();
    hide UPGRADE, CHUNKED, KEEP_ALIVE, CLOSE, Match;
    var c := Lower(ch);
    match s.hstate
    case MatchingTransferEncodingChunked => MatchKeeps(s, CHUNKED, c, s.hstate, General, TransferEncodingChunked);
    case MatchingConnectionKeepAlive =>
      MatchKeeps(s, KEEP_ALIVE, c, s.hstate, MatchingConnectionToken, ConnectionKeepAlive);
    case MatchingConnectionClose => MatchKeeps(s, CLOSE, c, s.hstate, MatchingConnectionToken, ConnectionClose);
    case MatchingConnectionUpgrade => MatchKeeps(s, UPGRADE, c, s.hstate, MatchingConnectionToken, ConnectionUpgrade);
    case _ =>
  }

  lemma {:induction false} MatchKeeps(s: Parser, name: string, c: byte, stay: HState, miss: HState, hit: HState)
    requires 1 <= |name| < 127 && s.index < 128 && c != '\0' && stay != miss && stay != hit
    ensures var s1 := Match(s, name, c, stay, miss, hit);
            && (s1.hstate == stay || s1.hstate == miss || s1.hstate == hit)
            && (s1.hstate == stay ==> s1.index < |name| - 1)
            && s1.index < 128 && s1 == s.(index := s1.index, hstate := s1.hstate)
  {
  }

  lemma {:induction false} FieldStartKeepsValid(hc: Parser -> HeadersAnswer, s: Parser, ch: byte)
    requires Ready(s) && s.state.HeaderFieldStart?
    ensures Good(s, FieldStartByte(hc, s, ch))
  {
    hide HeadersAlmostDoneByte;
    HeadersAlmostDoneKeepsValid(hc, s.(state := HeadersAlmostDone), ch);
  }

  lemma {:induction false} HeadersAlmostDoneKeepsValid(hc: Parser -> HeadersAnswer, s: Parser, ch: byte)
    requires Ready(s) && s.state.HeadersAlmostDone?
    ensures Good(s, HeadersAlmostDoneByte(hc, s, ch))
  {
    hide HeadersAlmostDoneByte, Good;
    if s.flags.trailing {
      TrailerKeepsValid(hc, s, ch);
    } else {
      AnswerKeepsValid(hc, s, ch);
    }
  }

  lemma {:induction false} TrailerKeepsValid(hc: Parser -> HeadersAnswer, s: Parser, ch: byte)
    requires Ready(s) && s.state.HeadersAlmostDone? && s.flags.trailing
    ensures Good(s, HeadersAlmostDoneByte(hc, s, ch))
  {
    hide MessageDoneByte;
    MessageDoneKeepsValid(s.(state := MessageDone));
    MessageDoneStays(s.(state := MessageDone));
  }

  lemma {:induction false} AnswerKeepsValid(hc: Parser -> HeadersAnswer, s: Parser, ch: byte)
    requires Ready(s) && s.state.HeadersAlmostDone? && !s.flags.trailing
    ensures Good(s, HeadersAlmostDoneByte(hc, s, ch))
  {
    hide HeadersDoneByte, Answered, Valid;
    AnsweredReady(s, s.(state := HeadersDone), Proceed);
    var s1 := s.(state := HeadersDone,
                 upgrade := (s.flags.upgrade && s.flags.connectionUpgrade) || s.verb == CONNECT);
    AnsweredReady(s, s1, hc(s1));
    HeadersDoneKeepsValid(Answered(s1, hc(s1)));
  }

  lemma AnsweredReady(s: Parser, s1: Parser, answer: HeadersAnswer)
    requires Ready(s) && s.state.HeadersAlmostDone? && s1 == s.(state := HeadersDone, upgrade := s1.upgrade)
    ensures Ready(Answered(s1, answer).(state := HeaderFieldStart)) && Answered(s1, answer).lenient == s.lenient
    ensures Answered(s1, answer).state == HeadersDone && Fits(s) && Fits(s1)
  {
  }

  lemma MessageDoneStays(s: Parser)
    ensures var r := MessageDoneByte(s);
            r.s.lenient == s.lenient && (r.out.Go? ==> NotUpgraded(r.s)) && (r.out.Exit? ==> !NotUpgraded(r.s))
  {
  }

  lemma {:induction false} HeadersDoneKeepsValid(s: Parser)
    requires Ready(s.(state := HeaderFieldStart))
    ensures Good(s, HeadersDoneByte(s))
  {
  }

  lemma {:induction false} MessageDoneKeepsValid(s: Parser)
    requires Ready(s.(state := HeaderFieldStart))
    ensures var r := MessageDoneByte(s); Ready(r.s) && !r.out.Fail?
  {
  }

  /** A header line that is complete leaves a parser that is ready for the next. */
  lemma FinishKeepsReady(s: Parser)
    requires Ready(s) && (s.state.HeaderValueLws? || s.state.HeaderValueDiscardLws?)
    ensures Ready(FinishValue(s).(state := HeaderFieldStart)) && FinishValue(s).lenient == s.lenient
    ensures Valid(s.(state := HeaderFieldStart))
    ensures s.state.HeaderValueDiscardLws? ==> Valid(s.(state := HeaderValueDiscardWs))
  {
  }

  lemma {:induction false} ValueLwsKeepsValid(hc: Parser -> HeadersAnswer, s: Parser, ch: byte)
    requires Ready(s) && s.state.HeaderValueLws?
    ensures Good(s, ValueLwsByte(hc, s, ch))
  {
    hide ValueStartByte, FieldStartByte, Valid, FinishValue;
    FinishKeepsReady(s);
    if ch == ' ' || ch == '\t' {
      ValueStartKeepsValid(s.(state := HeaderValueStart), ch);
    } else {
      FieldStartKeepsValid(hc, FinishValue(s).(state := HeaderFieldStart), ch);
    }
  }

  lemma {:induction false} DiscardLwsKeepsValid(hc: Parser -> HeadersAnswer, s: Parser, ch: byte)
    requires Ready(s) && s.state.HeaderValueDiscardLws?
    ensures Good(s, DiscardLwsByte(hc, s, ch))
  {
    hide FieldStartByte, FinishValue, Valid;
    FinishKeepsReady(s);
    FieldStartKeepsValid(hc, FinishValue(s).(state := HeaderFieldStart), ch);
  }

  lemma {:induction false} ChunkKeepsValid(s: Parser, ch: byte)
    requires Ready(s) && InChunk(s.state) && !s.state.ChunkData?
    ensures Good(s, ChunkByte(s, ch))
  {
    hide Good, ChunkByte;
    if s.state.ChunkSize? {
      ChunkSizeKeepsValid(s, ch);
    } else if s.state.ChunkSizeAlmostDone? || s.state.ChunkDataDone? {
      ChunkLineKeepsValid(s, ch);
    } else {
      ChunkCharKeepsValid(s, ch);
    }
  }

  lemma {:induction false} ChunkSizeKeepsValid(s: Parser, ch: byte)
    requires Ready(s) && s.state.ChunkSize?
    ensures Good(s, ChunkByte(s, ch))
  {
  }

  lemma {:induction false} ChunkLineKeepsValid(s: Parser, ch: byte)
    requires Ready(s) && (s.state.ChunkSizeAlmostDone? || s.state.ChunkDataDone?)
    ensures Good(s, ChunkByte(s, ch))
  {
  }

  lemma {:induction false} ChunkCharKeepsValid(s: Parser, ch: byte)
    requires Ready(s) && (s.state.ChunkSizeStart? || s.state.ChunkParameters? || s.state.ChunkDataAlmostDone?)
    ensures Good(s, ChunkByte(s, ch))
  {
  }

  lemma {:induction false} BodyKeepsValid(s: Parser, ch: byte)
    requires Ready(s) && (s.state.ChunkData? || s.state.BodyIdentity?)
    ensures Good(s, if s.state.ChunkData? then ChunkDataByte(s, ch) else BodyIdentityByte(s, ch))
  {
  }
}
