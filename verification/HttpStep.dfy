/** What one byte does to the parser: the switch of `http_parser_execute`, without buffers.

    A step reports the callbacks of its byte.  A byte that belongs to a data callback gives
    `Data(kind, [ch])`, and the byte that closes the run gives `Data(kind, [])`; how the bytes of a run
    are gathered into calls is the business of the buffer loop. */
module HttpStep {
  import opened Bytes
  import opened HttpTypes

  /** `Go` to the next byte; `Fail` with an errno, the byte not consumed; `Exit` because the rest of the
      stream is in a different protocol, the byte consumed. */
  datatype Outcome = Go | Fail | Exit

  datatype StepResult = StepResult(s: Parser, evs: seq<Event>, out: Outcome)

  function Err(s: Parser, e: Errno): StepResult {
    StepResult(s.(errno := e), [], Fail)
  }

  function To(s: Parser, st: State): StepResult {
    StepResult(s.(state := st), [], Go)
  }

  /** `index + 1` in its seven bits. */
  function Next7(index: nat): nat {
    if index == 127 then 0 else index + 1
  }

  function After(evs: seq<Event>, r: StepResult): StepResult {
    r.(evs := evs + r.evs)
  }

  // ---------------------------------------------------------------- message length and persistence

  predicate NeedsEof(s: Parser) {
    !s.ptype.Request?
    && !(s.status / 100 == 1 || s.status == 204 || s.status == 304 || s.flags.skipBody)
    && !(s.flags.chunked || s.contentLength != ULLONG_MAX)
  }

  predicate ShouldKeepAlive(s: Parser) {
    (if s.major > 0 && s.minor > 0 then !s.flags.close else s.flags.keepAlive)
    && !NeedsEof(s)
  }

  function NewMessage(s: Parser): State {
    if !ShouldKeepAlive(s) then Dead else if s.ptype.Request? then StartReq else StartRes
  }

  // ---------------------------------------------------------------- start of a message

  function StartMethod(ch: byte): (Method, bool) {
    match ch
    case 'A' => (ACL, true) case 'B' => (BIND, true) case 'C' => (CONNECT, true)
    case 'D' => (DELETE, true) case 'G' => (GET, true) case 'H' => (HEAD, true)
    case 'L' => (LOCK, true) case 'M' => (MKCOL, true) case 'N' => (NOTIFY, true)
    case 'O' => (OPTIONS, true) case 'P' => (POST, true) case 'R' => (REPORT, true)
    case 'S' => (SUBSCRIBE, true) case 'T' => (TRACE, true) case 'U' => (UNLOCK, true)
    case _ => (DELETE, false)
  }

  function StartReqByte(s: Parser, ch: byte): StepResult {
    if ch == CR || ch == LF then To(s, s.state)
    else
      var s0 := s.(flags := NO_FLAGS, contentLength := ULLONG_MAX);
      if !IsAlpha(ch) then Err(s0, InvalidMethod)
      else
        var (m, known) := StartMethod(ch);
        var s1 := s0.(verb := m, index := 1);
        if !known then Err(s1, InvalidMethod)
        else
          var s2 := s1.(state := ReqMethod);
          StepResult(s2, [Notify(OnMessageBegin, s2)], Go)
  }

  function StartReqOrResByte(s: Parser, ch: byte): StepResult {
    if ch == CR || ch == LF then To(s, s.state)
    else
      var s0 := s.(flags := NO_FLAGS, contentLength := ULLONG_MAX);
      if ch == 'H' then
        var s1 := s0.(state := ResOrRespH);
        StepResult(s1, [Notify(OnMessageBegin, s1)], Go)
      else StartReqByte(s0.(ptype := Request, state := StartReq), ch)
  }

  function StartResByte(s: Parser, ch: byte): StepResult {
    var s0 := s.(flags := NO_FLAGS, contentLength := ULLONG_MAX);
    if ch != 'H' && ch != CR && ch != LF then Err(s0, InvalidConstant)
    else
      var s1 := if ch == 'H' then s0.(state := ResH) else s0;
      StepResult(s1, [Notify(OnMessageBegin, s1)], Go)
  }

  // ---------------------------------------------------------------- request and status line

  function Expect(s: Parser, ch: byte, want: byte, e: Errno, st: State): StepResult {
    if ch != want then Err(s, e) else To(s, st)
  }

  /** The method chosen so far turns out to be another one with the same beginning. */
  function SwitchMethod(m: Method, index: nat, ch: byte): (Method, bool) {
    if m == POST && index == 1 && ch == 'U' then (PUT, true)
    else if m == POST && index == 1 && ch == 'A' then (PATCH, true)
    else if m == CONNECT && index == 1 && ch == 'H' then (CHECKOUT, true)
    else if m == CONNECT && index == 2 && ch == 'P' then (COPY, true)
    else if m == MKCOL && index == 1 && ch == 'O' then (MOVE, true)
    else if m == MKCOL && index == 1 && ch == 'E' then (MERGE, true)
    else if m == MKCOL && index == 2 && ch == 'A' then (MKACTIVITY, true)
    else if m == MKCOL && index == 3 && ch == 'A' then (MKCALENDAR, true)
    else if m == SUBSCRIBE && index == 1 && ch == 'E' then (SEARCH, true)
    else if m == REPORT && index == 2 && ch == 'B' then (REBIND, true)
    else if m == POST && index == 1 && ch == 'R' then (PROPFIND, true)
    else if m == PROPFIND && index == 4 && ch == 'P' then (PROPPATCH, true)
    else if m == PUT && index == 2 && ch == 'R' then (PURGE, true)
    else if m == LOCK && index == 1 && ch == 'I' then (LINK, true)
    else if m == UNLOCK && index == 2 && ch == 'S' then (UNSUBSCRIBE, true)
    else if m == UNLOCK && index == 2 && ch == 'B' then (UNBIND, true)
    else if m == UNLOCK && index == 3 && ch == 'I' then (UNLINK, true)
    else (m, false)
  }

  function MethodByte(s: Parser, ch: byte): StepResult {
    var matcher := MethodString(s.verb);
    var next := s.(index := Next7(s.index));
    if ch == '\0' then Err(s, InvalidMethod)
    else if ch == ' ' && CharAt(matcher, s.index) == '\0' then To(next, ReqSpacesBeforeUrl)
    else if ch == CharAt(matcher, s.index) then To(next, s.state)
    else if IsAlpha(ch) then
      var (m, known) := SwitchMethod(s.verb, s.index, ch);
      if known then To(next.(verb := m), s.state) else Err(s, InvalidMethod)
    else if ch == '-' && s.index == 1 && s.verb == MKCOL then To(next.(verb := MSEARCH), s.state)
    else Err(s, InvalidMethod)
  }

  /** `parse_url_char` (lines 486-632), for the states that can hold inside a URL. */
  function ParseUrlChar(s: State, ch: byte): State {
    if ch == ' ' || ch == CR || ch == LF || ch == '\t' || ch as int == 12 then Dead
    else match s
      case ReqSpacesBeforeUrl =>
        if ch == '/' || ch == '*' then ReqPath else if IsAlpha(ch) then ReqSchema else Dead
      case ReqSchema =>
        if IsAlpha(ch) then ReqSchema else if ch == ':' then ReqSchemaSlash else Dead
      case ReqSchemaSlash => if ch == '/' then ReqSchemaSlashSlash else Dead
      case ReqSchemaSlashSlash => if ch == '/' then ReqServerStart else Dead
      case ReqServerWithAt => if ch == '@' then Dead else ParseServerChar(ch)
      case ReqServerStart => ParseServerChar(ch)
      case ReqServer => ParseServerChar(ch)
      case ReqPath =>
        if IsUrlChar(ch) then ReqPath
        else if ch == '?' then ReqQueryStringStart
        else if ch == '#' then ReqFragmentStart else Dead
      case ReqQueryStringStart => ParseQueryChar(ch)
      case ReqQueryString => ParseQueryChar(ch)
      case ReqFragmentStart =>
        if IsUrlChar(ch) || ch == '?' then ReqFragment
        else if ch == '#' then ReqFragmentStart else Dead
      case ReqFragment =>
        if IsUrlChar(ch) || ch == '?' || ch == '#' then ReqFragment else Dead
      case _ => Dead
  }

  function ParseServerChar(ch: byte): State {
    if ch == '/' then ReqPath
    else if ch == '?' then ReqQueryStringStart
    else if ch == '@' then ReqServerWithAt
    else if IsUserinfoChar(ch) || ch == '[' || ch == ']' then ReqServer else Dead
  }

  function ParseQueryChar(ch: byte): State {
    if IsUrlChar(ch) || ch == '?' then ReqQueryString
    else if ch == '#' then ReqFragmentStart else Dead
  }

  function UrlChar(s: Parser, from: State, ch: byte): StepResult {
    var st := ParseUrlChar(from, ch);
    if st.Dead? then Err(s.(state := Dead), InvalidUrl)
    else StepResult(s.(state := st), [Data(OnUrl, [ch])], Go)
  }

  /** The bytes of the URL, and the one that ends it. */
  function UrlByte(s: Parser, ch: byte): StepResult {
    if s.state.ReqSpacesBeforeUrl? then
      if ch == ' ' then To(s, s.state)
      else UrlChar(s, if s.verb == CONNECT then ReqServerStart else s.state, ch)
    else if s.state.ReqSchema? || s.state.ReqSchemaSlash? || s.state.ReqSchemaSlashSlash?
            || s.state.ReqServerStart? then
      if ch == ' ' || ch == CR || ch == LF then Err(s, InvalidUrl)
      else UrlChar(s, s.state, ch)
    else if ch == ' ' then
      StepResult(s.(state := ReqHttpStart), [Data(OnUrl, [])], Go)
    else if ch == CR || ch == LF then
      StepResult(s.(major := 0, minor := 9, state := if ch == CR then ReqLineAlmostDone else HeaderFieldStart),
                 [Data(OnUrl, [])], Go)
    else UrlChar(s, s.state, ch)
  }

  /** The reason phrase of a response. */
  function StatusByte(s: Parser, ch: byte): StepResult {
    var close := if s.state.ResStatus? then [Data(OnStatus, [])] else [];
    if ch == CR then StepResult(s.(state := ResLineAlmostDone), close, Go)
    else if ch == LF then StepResult(s.(state := HeaderFieldStart), close, Go)
    else if s.state.ResStatus? then StepResult(s, [Data(OnStatus, [ch])], Go)
    else StepResult(s.(state := ResStatus, index := 0), [Data(OnStatus, [ch])], Go)
  }

  /** One more decimal digit of a number that may have three. */
  function ThreeDigits(n: nat, ch: byte): nat
    requires IsDigit(ch)
  {
    n * 10 + DigitValue(ch)
  }

  /** The states of a status line, but for the reason phrase. */
  predicate InStatusLine(st: State) {
    st.ResOrRespH? || st.ResH? || st.ResHT? || st.ResHTT? || st.ResHTTP? || st.ResFirstHttpMajor?
    || st.ResHttpMajor? || st.ResFirstHttpMinor? || st.ResHttpMinor? || st.ResFirstStatusCode?
    || st.ResStatusCode? || st.ResLineAlmostDone?
  }

  function StatusLineByte(s: Parser, ch: byte): StepResult {
    match s.state
    case ResOrRespH =>
      if ch == 'T' then To(s.(ptype := Response), ResHT)
      else if ch != 'E' then Err(s, InvalidConstant)
      else To(s.(ptype := Request, verb := HEAD, index := 2), ReqMethod)
    case ResH => Expect(s, ch, 'T', Strict, ResHT)
    case ResHT => Expect(s, ch, 'T', Strict, ResHTT)
    case ResHTT => Expect(s, ch, 'P', Strict, ResHTTP)
    case ResHTTP => Expect(s, ch, '/', Strict, ResFirstHttpMajor)
    case ResFirstHttpMajor =>
      if !IsDigit(ch) then Err(s, InvalidVersion) else To(s.(major := DigitValue(ch)), ResHttpMajor)
    case ResHttpMajor => if ch == '.' then To(s, ResFirstHttpMinor) else MajorDigit(s, ch)
    case ResFirstHttpMinor =>
      if !IsDigit(ch) then Err(s, InvalidVersion) else To(s.(minor := DigitValue(ch)), ResHttpMinor)
    case ResHttpMinor => if ch == ' ' then To(s, ResFirstStatusCode) else MinorDigit(s, ch)
    case ResFirstStatusCode =>
      if IsDigit(ch) then To(s.(status := DigitValue(ch)), ResStatusCode)
      else if ch == ' ' then To(s, s.state) else Err(s, InvalidStatus)
    case ResStatusCode =>
      if IsDigit(ch) then
        var s1 := s.(status := ThreeDigits(s.status, ch));
        if s1.status > 999 then Err(s1, InvalidStatus) else To(s1, s.state)
      else if ch == ' ' then To(s, ResStatusStart)
      else if ch == CR then To(s, ResLineAlmostDone)
      else if ch == LF then To(s, HeaderFieldStart)
      else Err(s, InvalidStatus)
    case _ => Expect(s, ch, LF, Strict, HeaderFieldStart)
  }

  /** The states of a request line, but for the URL. */
  predicate InRequestLine(st: State) {
    st.ReqMethod? || st.ReqHttpStart? || st.ReqHttpH? || st.ReqHttpHT? || st.ReqHttpHTT? || st.ReqHttpHTTP?
    || st.ReqFirstHttpMajor? || st.ReqHttpMajor? || st.ReqFirstHttpMinor? || st.ReqHttpMinor?
    || st.ReqLineAlmostDone?
  }

  function RequestLineByte(s: Parser, ch: byte): StepResult {
    match s.state
    case ReqMethod => MethodByte(s, ch)
    case ReqHttpStart =>
      if ch == 'H' then To(s, ReqHttpH) else if ch == ' ' then To(s, s.state) else Err(s, InvalidConstant)
    case ReqHttpH => Expect(s, ch, 'T', Strict, ReqHttpHT)
    case ReqHttpHT => Expect(s, ch, 'T', Strict, ReqHttpHTT)
    case ReqHttpHTT => Expect(s, ch, 'P', Strict, ReqHttpHTTP)
    case ReqHttpHTTP => Expect(s, ch, '/', Strict, ReqFirstHttpMajor)
    case ReqFirstHttpMajor =>
      if !IsDigit(ch) || ch == '0' then Err(s, InvalidVersion) else To(s.(major := DigitValue(ch)), ReqHttpMajor)
    case ReqHttpMajor => if ch == '.' then To(s, ReqFirstHttpMinor) else MajorDigit(s, ch)
    case ReqFirstHttpMinor =>
      if !IsDigit(ch) then Err(s, InvalidVersion) else To(s.(minor := DigitValue(ch)), ReqHttpMinor)
    case ReqHttpMinor =>
      if ch == CR then To(s, ReqLineAlmostDone)
      else if ch == LF then To(s, HeaderFieldStart) else MinorDigit(s, ch)
    case _ => Expect(s, ch, LF, LfExpected, HeaderFieldStart)
  }

  function MajorDigit(s: Parser, ch: byte): StepResult {
    if !IsDigit(ch) then Err(s, InvalidVersion)
    else
      var s1 := s.(major := ThreeDigits(s.major, ch));
      if s1.major > 999 then Err(s1, InvalidVersion) else To(s1, s.state)
  }

  function MinorDigit(s: Parser, ch: byte): StepResult {
    if !IsDigit(ch) then Err(s, InvalidVersion)
    else
      var s1 := s.(minor := ThreeDigits(s.minor, ch));
      if s1.minor > 999 then Err(s1, InvalidVersion) else To(s1, s.state)
  }

  // ---------------------------------------------------------------- header fields

  const CONNECTION := "connection"
  const PROXY_CONNECTION := "proxy-connection"
  const CONTENT_LENGTH := "content-length"
  const TRANSFER_ENCODING := "transfer-encoding"
  const UPGRADE := "upgrade"
  const CHUNKED := "chunked"
  const KEEP_ALIVE := "keep-alive"
  const CLOSE := "close"

  /** One character of a name being matched: `miss` on a difference, `hit` on the last character. */
  function Match(s: Parser, name: string, c: byte, stay: HState, miss: HState, hit: HState): Parser
    requires |name| >= 1
  {
    var i := Next7(s.index);
    s.(index := i,
       hstate := if i > |name| || c != CharAt(name, i) then miss else if i == |name| - 1 then hit else stay)
  }

  /** One token character `ch` of a header name; `c` is its lower case. */
  function FieldChar(s: Parser, ch: byte, c: byte): Parser {
    match s.hstate
    case C => s.(index := Next7(s.index), hstate := if c == 'o' then CO else General)
    case CO => s.(index := Next7(s.index), hstate := if c == 'n' then CON else General)
    case CON =>
      s.(index := Next7(s.index),
         hstate := if c == 'n' then MatchingConnection else if c == 't' then MatchingContentLength else General)
    case MatchingConnection => Match(s, CONNECTION, c, s.hstate, General, Connection)
    case MatchingProxyConnection => Match(s, PROXY_CONNECTION, c, s.hstate, General, Connection)
    case MatchingContentLength => Match(s, CONTENT_LENGTH, c, s.hstate, General, ContentLength)
    case MatchingTransferEncoding => Match(s, TRANSFER_ENCODING, c, s.hstate, General, TransferEncoding)
    case MatchingUpgrade => Match(s, UPGRADE, c, s.hstate, General, Upgrade)
    case Connection => if ch != ' ' then s.(hstate := General) else s
    case ContentLength => if ch != ' ' then s.(hstate := General) else s
    case TransferEncoding => if ch != ' ' then s.(hstate := General) else s
    case Upgrade => if ch != ' ' then s.(hstate := General) else s
    case _ => s
  }

  function FieldByte(s: Parser, ch: byte): StepResult {
    var c := Token(ch);
    if c != '\0' then StepResult(FieldChar(s, ch, c), [Data(OnHeaderField, [ch])], Go)
    else if ch == ':' then StepResult(s.(state := HeaderValueDiscardWs), [Data(OnHeaderField, [])], Go)
    else Err(s, InvalidHeaderToken)
  }

  function FieldStartByte(hc: Parser -> HeadersAnswer, s: Parser, ch: byte): StepResult {
    if ch == CR then To(s, HeadersAlmostDone)
    else if ch == LF then HeadersAlmostDoneByte(hc, s.(state := HeadersAlmostDone), ch)
    else
      var c := Token(ch);
      if c == '\0' then Err(s, InvalidHeaderToken)
      else
        var h := match c case 'c' => C case 'p' => MatchingProxyConnection case 't' => MatchingTransferEncoding
                         case 'u' => MatchingUpgrade case _ => General;
        StepResult(s.(index := 0, state := HeaderField, hstate := h), [Data(OnHeaderField, [ch])], Go)
  }

  // ---------------------------------------------------------------- header values

  /** The first byte of a header value, or of a continuation line. */
  function ValueStartByte(s: Parser, ch: byte): StepResult {
    var c := Lower(ch);
    var s0 := s.(state := HeaderValue, index := 0);
    var go := (s1: Parser) => StepResult(s1, [Data(OnHeaderValue, [ch])], Go);
    match s.hstate
    case Upgrade => go(s0.(flags := s.flags.(upgrade := true), hstate := General))
    case TransferEncoding => go(s0.(hstate := if c == 'c' then MatchingTransferEncodingChunked else General))
    case ContentLength =>
      if !IsDigit(ch) then Err(s0, InvalidContentLength)
      else if s.flags.contentLength then Err(s0, UnexpectedContentLength)
      else go(s0.(flags := s.flags.(contentLength := true), contentLength := DigitValue(ch)))
    case Connection =>
      go(s0.(hstate := if c == 'k' then MatchingConnectionKeepAlive
                       else if c == 'c' then MatchingConnectionClose
                       else if c == 'u' then MatchingConnectionUpgrade else MatchingConnectionToken))
    case MatchingConnectionTokenStart => go(s0)
    case _ => go(s0.(hstate := General))
  }

  function SetConnectionFlag(f: Flags, h: HState): Flags {
    if h.ConnectionKeepAlive? then f.(keepAlive := true)
    else if h.ConnectionClose? then f.(close := true)
    else if h.ConnectionUpgrade? then f.(connectionUpgrade := true)
    else f
  }

  /** One byte of a header value that is neither CR nor LF; the errno of the result tells failure. */
  function ValueChar(s: Parser, ch: byte): Parser {
    var c := Lower(ch);
    match s.hstate
    case General => s
    case Connection => s
    case TransferEncoding => s
    case ContentLength =>
      if ch == ' ' then s
      else if !IsDigit(ch) then s.(errno := InvalidContentLength)
      else if (ULLONG_MAX - 10) / 10 < s.contentLength then s.(errno := InvalidContentLength)
      else s.(contentLength := s.contentLength * 10 + DigitValue(ch))
    case MatchingTransferEncodingChunked => Match(s, CHUNKED, c, s.hstate, General, TransferEncodingChunked)
    case MatchingConnectionTokenStart =>
      if c == 'k' then s.(hstate := MatchingConnectionKeepAlive)
      else if c == 'c' then s.(hstate := MatchingConnectionClose)
      else if c == 'u' then s.(hstate := MatchingConnectionUpgrade)
      else if Token(c) != '\0' then s.(hstate := MatchingConnectionToken)
      else if c == ' ' || c == '\t' then s
      else s.(hstate := General)
    case MatchingConnectionKeepAlive =>
      Match(s, KEEP_ALIVE, c, s.hstate, MatchingConnectionToken, ConnectionKeepAlive)
    case MatchingConnectionClose => Match(s, CLOSE, c, s.hstate, MatchingConnectionToken, ConnectionClose)
    case MatchingConnectionUpgrade => Match(s, UPGRADE, c, s.hstate, MatchingConnectionToken, ConnectionUpgrade)
    case MatchingConnectionToken =>
      if ch == ',' then s.(hstate := MatchingConnectionTokenStart, index := 0) else s
    case TransferEncodingChunked => if ch != ' ' then s.(hstate := General) else s
    case ConnectionKeepAlive => ConnectionTokenEnd(s, ch)
    case ConnectionClose => ConnectionTokenEnd(s, ch)
    case ConnectionUpgrade => ConnectionTokenEnd(s, ch)
    case _ => s.(hstate := General)
  }

  function ConnectionTokenEnd(s: Parser, ch: byte): Parser {
    if ch == ',' then
      s.(flags := SetConnectionFlag(s.flags, s.hstate), hstate := MatchingConnectionTokenStart, index := 0)
    else if ch != ' ' then s.(hstate := MatchingConnectionToken)
    else s
  }

  /** A byte of a header value.  `shadowed` says that the byte lies in the shadow of a `memchr`: an earlier
      byte of the same buffer, in a value of no interest, made the parser look for the end of the line only. */
  function ValueByte(s: Parser, ch: byte, shadowed: bool): StepResult {
    if ch == CR then StepResult(s.(state := HeaderAlmostDone), [Data(OnHeaderValue, [])], Go)
    else if ch == LF then
      After([Data(OnHeaderValue, [])], HeaderAlmostDoneByte(s.(state := HeaderAlmostDone), ch))
    else if !s.lenient && !shadowed && !IsHeaderChar(ch) then Err(s, InvalidHeaderToken)
    else
      var s1 := ValueChar(s, ch);
      if s1.errno != Ok then StepResult(s1, [], Fail)
      else StepResult(s1, [Data(OnHeaderValue, [ch])], Go)
  }

  function HeaderAlmostDoneByte(s: Parser, ch: byte): StepResult {
    if ch != LF then Err(s, LfExpected) else To(s, HeaderValueLws)
  }

  /** The flags that a finished header value sets. */
  function FinishValue(s: Parser): Parser {
    if s.hstate.TransferEncodingChunked? then s.(flags := s.flags.(chunked := true))
    else s.(flags := SetConnectionFlag(s.flags, s.hstate))
  }

  function ValueLwsByte(hc: Parser -> HeadersAnswer, s: Parser, ch: byte): StepResult {
    if ch == ' ' || ch == '\t' then ValueStartByte(s.(state := HeaderValueStart), ch)
    else FieldStartByte(hc, FinishValue(s).(state := HeaderFieldStart), ch)
  }

  function DiscardWsByte(s: Parser, ch: byte): StepResult {
    if ch == ' ' || ch == '\t' then To(s, s.state)
    else if ch == CR then To(s, HeaderValueDiscardWsAlmostDone)
    else if ch == LF then To(s, HeaderValueDiscardLws)
    else ValueStartByte(s, ch)
  }

  function DiscardLwsByte(hc: Parser -> HeadersAnswer, s: Parser, ch: byte): StepResult {
    if ch == ' ' || ch == '\t' then To(s, HeaderValueDiscardWs)
    else After([Data(OnHeaderValue, [])],
               FieldStartByte(hc, FinishValue(s).(state := HeaderFieldStart), ch))
  }

  // ---------------------------------------------------------------- end of the headers

  function HeadersAlmostDoneByte(hc: Parser -> HeadersAnswer, s: Parser, ch: byte): StepResult {
    if ch != LF then Err(s, Strict)
    else if s.flags.trailing then
      var s1 := s.(state := MessageDone);
      After([Notify(OnChunkComplete, s1)], MessageDoneByte(s1))
    else if s.flags.chunked && s.flags.contentLength then Err(s, UnexpectedContentLength)
    else
      var s1 := s.(state := HeadersDone,
                   upgrade := (s.flags.upgrade && s.flags.connectionUpgrade) || s.verb == CONNECT);
      var seen := [Notify(OnHeadersComplete, s1)];
      if hc(s1).Refuse? then After(seen, Err(s1, CbHeadersComplete))
      else After(seen, HeadersDoneByte(Answered(s1, hc(s1))))
  }

  /** What the answer of `on_headers_complete` changes. */
  function Answered(s: Parser, answer: HeadersAnswer): Parser {
    match answer
    case SkipBody => s.(flags := s.flags.(skipBody := true))
    case SkipBodyAndUpgrade => s.(upgrade := true, flags := s.flags.(skipBody := true))
    case _ => s
  }

  /** The message is over: notify, and go on with the next one. */
  function Complete(s: Parser, out: Outcome): StepResult {
    var s1 := s.(state := NewMessage(s));
    StepResult(s1, [Notify(OnMessageComplete, s1)], out)
  }

  /** What follows the headers, decided at their last LF. */
  function HeadersDoneByte(s: Parser): StepResult {
    var hasBody := s.flags.chunked || (s.contentLength > 0 && s.contentLength != ULLONG_MAX);
    if s.upgrade && (s.verb == CONNECT || s.flags.skipBody || !hasBody) then Complete(s, Exit)
    else if s.flags.skipBody then Complete(s, Go)
    else if s.flags.chunked then To(s, ChunkSizeStart)
    else if s.contentLength == 0 then Complete(s, Go)
    else if s.contentLength != ULLONG_MAX then To(s, BodyIdentity)
    else if !NeedsEof(s) then Complete(s, Go)
    else To(s, BodyIdentityEof)
  }

  function MessageDoneByte(s: Parser): StepResult {
    Complete(s, if s.upgrade then Exit else Go)
  }

  // ---------------------------------------------------------------- bodies

  /** `content_length - 1` on 64 bits. */
  function Less1(n: nat): nat {
    if n == 0 then ULLONG_MAX else n - 1
  }

  function BodyIdentityByte(s: Parser, ch: byte): StepResult {
    var s1 := s.(contentLength := Less1(s.contentLength));
    if s1.contentLength == 0 then
      After([Data(OnBody, [ch])], MessageDoneByte(s1.(state := MessageDone)))
    else StepResult(s1, [Data(OnBody, [ch])], Go)
  }

  function ChunkDataByte(s: Parser, ch: byte): StepResult {
    var s1 := s.(contentLength := Less1(s.contentLength));
    StepResult(if s1.contentLength == 0 then s1.(state := ChunkDataAlmostDone) else s1,
               [Data(OnBody, [ch])], Go)
  }

  /** The states around chunk data. */
  function ChunkByte(s: Parser, ch: byte): StepResult {
    match s.state
    case ChunkSizeStart =>
      if Unhex(ch) == -1 then Err(s, InvalidChunkSize)
      else To(s.(contentLength := Unhex(ch)), ChunkSize)
    case ChunkSize =>
      if ch == CR then To(s, ChunkSizeAlmostDone)
      else if Unhex(ch) == -1 then
        if ch == ';' || ch == ' ' then To(s, ChunkParameters) else Err(s, InvalidChunkSize)
      else if (ULLONG_MAX - 16) / 16 < s.contentLength then Err(s, InvalidContentLength)
      else To(s.(contentLength := s.contentLength * 16 + Unhex(ch)), s.state)
    case ChunkParameters => if ch == CR then To(s, ChunkSizeAlmostDone) else To(s, s.state)
    case ChunkSizeAlmostDone =>
      if ch != LF then Err(s, Strict)
      else
        var s1 := if s.contentLength == 0
                  then s.(flags := s.flags.(trailing := true), state := HeaderFieldStart)
                  else s.(state := ChunkData);
        StepResult(s1, [Notify(OnChunkHeader, s1)], Go)
    case ChunkDataAlmostDone => Expect(s, ch, CR, Strict, ChunkDataDone)
    case _ =>
      if ch != LF then Err(s, Strict)
      else
        var s1 := s.(state := ChunkSizeStart);
        StepResult(s1, [Notify(OnChunkComplete, s1)], Go)
  }

  // ---------------------------------------------------------------- the step function

  function Step(hc: Parser -> HeadersAnswer, s: Parser, ch: byte, shadowed: bool): StepResult {
    match s.state
    case Dead => if ch == CR || ch == LF then To(s, s.state) else Err(s, ClosedConnection)
    case StartReqOrRes => StartReqOrResByte(s, ch)
    case StartRes => StartResByte(s, ch)
    case StartReq => StartReqByte(s, ch)
    case ResStatusStart => StatusByte(s, ch)
    case ResStatus => StatusByte(s, ch)
    case ReqSpacesBeforeUrl => UrlByte(s, ch)
    case HeaderFieldStart => FieldStartByte(hc, s, ch)
    case HeaderField => FieldByte(s, ch)
    case HeaderValueDiscardWs => DiscardWsByte(s, ch)
    case HeaderValueDiscardWsAlmostDone => Expect(s, ch, LF, Strict, HeaderValueDiscardLws)
    case HeaderValueDiscardLws => DiscardLwsByte(hc, s, ch)
    case HeaderValueStart => ValueStartByte(s, ch)
    case HeaderValue => ValueByte(s, ch, shadowed)
    case HeaderAlmostDone => HeaderAlmostDoneByte(s, ch)
    case HeaderValueLws => ValueLwsByte(hc, s, ch)
    case HeadersAlmostDone => HeadersAlmostDoneByte(hc, s, ch)
    case HeadersDone => if ch != LF then Err(s, Strict) else HeadersDoneByte(s)
    case MessageDone => MessageDoneByte(s)
    case BodyIdentity => BodyIdentityByte(s, ch)
    case BodyIdentityEof => StepResult(s, [Data(OnBody, [ch])], Go)
    case ChunkData => ChunkDataByte(s, ch)
    case ChunkSizeStart => ChunkByte(s, ch)
    case ChunkSize => ChunkByte(s, ch)
    case ChunkParameters => ChunkByte(s, ch)
    case ChunkSizeAlmostDone => ChunkByte(s, ch)
    case ChunkDataAlmostDone => ChunkByte(s, ch)
    case ChunkDataDone => ChunkByte(s, ch)
    case _ =>
      if InUrl(s.state) then UrlByte(s, ch)
      else if InStatusLine(s.state) then StatusLineByte(s, ch)
      else RequestLineByte(s, ch)
  }
}
