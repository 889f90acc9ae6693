/** `http_parser_execute`: the buffer loop over the fields of `struct http_parser`, with its marks, its
    look-ahead in header lines and its jumps over bodies.  The handler of the model records every callback
    in `log` and returns 0; what `on_headers_complete` returns is the function `hc` of the parser. */
module HttpParser {
  import opened Bytes
  import opened HttpTypes
  import opened HttpStep
  import opened HttpInvariant
  import opened HttpRun
  import opened HttpMarks

  const UINT32: nat := 0x1_0000_0000

  function Add32(a: nat, b: nat): (c: nat)
    ensures c < UINT32
    ensures a + b < UINT32 ==> c == a + b
  {
    (a + b) % UINT32
  }

  /** Buffers short enough for the 32-bit header counter not to wrap within one of them. */
  predicate Small(data: bytes) {
    |data| + HTTP_MAX_HEADER_SIZE < UINT32
  }

  /** The state after a value byte was refused: `header_state` is written back on every other way out. */
  predicate SameButStale(s: Parser, spec: Parser) {
    s == (if spec.errno == InvalidHeaderToken && spec.state.HeaderValue? then spec.(hstate := s.hstate) else spec)
  }

  /** The parser, its handler and the returned count agree with a run of the byte step; but a parser that
      stopped on an error has not reported the run of data it was reading. */
  ghost predicate Agrees(r: RunResult, s: Parser, log: seq<Event>, nparsed: nat) {
    && nparsed == r.n
    && (if r.out.Fail? then UpToLastRun(Merge(log), r.c.trace) else Merge(log) == r.c.trace)
    && SameButStale(s, r.c.s)
  }

  /** A call with no bytes announces the end of the stream. */
  predicate AtEof(s: Parser, calls: seq<Event>, s1: Parser, calls1: seq<Event>, nparsed: nat) {
    if s.state.BodyIdentityEof? then
      nparsed == 0 && s1 == s && calls1 == calls + [Notify(OnMessageComplete, s)]
    else if s.state.Dead? || s.state.StartReqOrRes? || s.state.StartRes? || s.state.StartReq? then
      nparsed == 0 && s1 == s && calls1 == calls
    else
      nparsed == 1 && s1 == s.(errno := InvalidEofState) && calls1 == calls
  }

  class HttpParser {
    const hc: Parser -> HeadersAnswer

    var ptype: ParserType
    var flags: Flags
    var state: State
    var hstate: HState
    var index: nat
    var lenient: bool
    var contentLength: nat
    var major: nat
    var minor: nat
    var status: nat
    var verb: Method
    var errno: Errno
    var upgrade: bool
    var nread: nat

    var marks: Marks
    var log: seq<Event>

    function Abs(): Parser
      reads this
    {
      Parser(ptype, flags, state, hstate, index, lenient, contentLength, major, minor, status, verb, errno,
             upgrade)
    }

    /** The recorded calls together with those that are due before byte `p`. */
    ghost function Seen(data: bytes, p: nat): seq<Event>
      reads this
    {
      TraceAt(log, marks, data, p)
    }

    /** What holds before each byte. */
    ghost predicate AtByte(data: bytes, p: nat)
      reads this
    {
      Ready(Abs()) && nread <= HTTP_MAX_HEADER_SIZE && MarksOk(state, marks, p, |data|)
    }

    constructor (t: ParserType, lenient: bool, hc: Parser -> HeadersAnswer)
      ensures Abs() == Init(t, lenient) && log == [] && nread == 0 && this.hc == hc
    {
      this.hc := hc;
      ptype := t;
      flags := NO_FLAGS;
      state := match t case Request => StartReq case Response => StartRes case Both => StartReqOrRes;
      hstate := General;
      index := 0;
      this.lenient := lenient;
      contentLength, major, minor, status, nread := 0, 0, 0, 0, 0;
      verb := DELETE;
      errno := Ok;
      upgrade := false;
      marks := map[];
      log := [];
    }

    // -------------------------------------------------------------- the macros

    method Mark(k: DataKind, p: nat)
      modifies `marks
      ensures marks == if k in old(marks) then old(marks) else old(marks)[k := p]
    {
      if k !in marks {
        marks := marks[k := p];
      }
    }

    /** Mark byte `p` as the first of a run. */
    method MarkFirst(k: DataKind, data: bytes, p: nat)
      requires p < |data| && marks == map[]
      modifies `marks
      ensures marks == map[k := p]
      ensures Seen(data, p) == old(Seen(data, p))
      ensures Seen(data, p + 1) == EmitAll(old(Seen(data, p)), [Data(k, [data[p]])])
    {
      hide TraceAt, EmitAll, Emit, Merge;
      TraceNone(log, data, p);
      Mark(k, p);
      EmitOne(Seen(data, p), Data(k, [data[p]]));
      TraceOnly(log, marks, data, p, k);
      TraceGrows(log, marks, data, p, p + 1, k);
      assert data[p..p + 1] == [data[p]];
    }

    /** CALLBACK_DATA_: call `k` with the bytes from its mark up to `to`, if the mark is set. */
    method CallbackData(k: DataKind, data: bytes, to: nat)
      requires k in marks ==> marks[k] <= to <= |data|
      modifies `marks, `log
      ensures marks == old(marks) - {k}
      ensures log == if k in old(marks) then old(log) + [Data(k, data[old(marks)[k]..to])] else old(log)
    {
      if k in marks {
        log := log + [Data(k, data[marks[k]..to])];
        marks := marks - {k};
      } else {
        assert marks == marks - {k};
      }
    }

    /** The run under the mark ends before byte `p`, which is not part of it. */
    method CloseRun(k: DataKind, data: bytes, p: nat)
      requires p < |data| && OnlyMark(marks, k, p)
      modifies `marks, `log
      ensures marks == map[] && Seen(data, p + 1) == Emit(old(Seen(data, p)), Data(k, []))
    {
      hide TraceAt, EmitAll, Emit, Merge;
      TraceCloses(log, marks, data, p, k);
      CallbackData(k, data, p);
      TraceNone(log, data, p + 1);
    }

    method CallbackNotify(n: Notification)
      modifies `log
      ensures log == old(log) + [Notify(n, Abs())]
    {
      log := log + [Notify(n, Abs())];
    }

    /** A notification without data, at byte `p`. */
    method NotifyAt(n: Notification, data: bytes, p: nat)
      requires marks == map[]
      modifies `log
      ensures Seen(data, p + 1) == EmitAll(old(Seen(data, p)), [Notify(n, Abs())])
    {
      hide TraceAt, EmitAll, Emit, Merge;
      Notified(n, data, p);
      CallbackNotify(n);
      Unmoved(data, p);
    }

    /** COUNT_HEADER_SIZE: the counter has 32 bits. */
    method CountHeaderSize(n: nat) returns (overflow: bool)
      modifies `nread, `errno
      ensures nread == Add32(old(nread), n)
      ensures overflow == (nread > HTTP_MAX_HEADER_SIZE)
      ensures errno == if overflow then HeaderOverflow else old(errno)
    {
      nread := Add32(nread, n);
      overflow := nread > HTTP_MAX_HEADER_SIZE;
      if overflow {
        errno := HeaderOverflow;
      }
    }

    /** The loop inside a header line from byte `p0` to byte `p` has counted its bytes, the last one but at the end of
        the buffer excepted; it has failed if they are too many. */
    ghost predicate Counted(n: nat, p0: nat, p: nat, size: nat, out: Outcome)
      reads this
    {
      && (errno == HeaderOverflow ==> n + (Min(p + 1, size) - p0) > HTTP_MAX_HEADER_SIZE)
      && (!out.Fail? ==> nread == n + (p - p0) || (p + 1 == size && nread == n + (p + 1 - p0)))
    }

    /** The method did for byte `p` what the step `r` says, after the trace `t0`. */
    ghost predicate Did(r: StepResult, t0: seq<Event>, data: bytes, p: nat, out: Outcome)
      reads this
    {
      && out == r.out
      && Seen(data, if out.Fail? then p else p + 1) == EmitAll(t0, r.evs)
      && (out.Go? ==> MarksOk(state, marks, p + 1, |data|) && (state.ChunkSizeStart? ==> nread == 0))
      && (out.Exit? ==> marks == map[])
      && (out.Fail? ==> OneMark(marks, p))
      && Abs() == r.s
    }

    // -------------------------------------------------------------- states that make no data callback

    /** The method did to the fields what the step `r` says. */
    ghost predicate Became(r: StepResult, out: Outcome)
      reads this
    {
      out == r.out && Abs() == r.s
    }

    /** STRICT_CHECK, and the other tests for one certain byte. */
    method Expected(ch: byte, want: byte, e: Errno, st: State) returns (out: Outcome)
      modifies `state, `errno
      ensures Became(Expect(old(Abs()), ch, want, e, st), out)
    {
      if ch != want {
        errno := e;
        return Fail;
      }
      state := st;
      return Go;
    }

    /** A further digit of the major version. */
    method OnMajorDigit(ch: byte) returns (out: Outcome)
      modifies `major, `errno
      ensures Became(MajorDigit(old(Abs()), ch), out)
    {
      if !IsDigit(ch) {
        errno := InvalidVersion;
        return Fail;
      }
      major := major * 10;
      major := major + DigitValue(ch);
      if major > 999 {
        errno := InvalidVersion;
        return Fail;
      }
      return Go;
    }

    /** A further digit of the minor version. */
    method OnMinorDigit(ch: byte) returns (out: Outcome)
      modifies `minor, `errno
      ensures Became(MinorDigit(old(Abs()), ch), out)
    {
      if !IsDigit(ch) {
        errno := InvalidVersion;
        return Fail;
      }
      minor := minor * 10;
      minor := minor + DigitValue(ch);
      if minor > 999 {
        errno := InvalidVersion;
        return Fail;
      }
      return Go;
    }

    method OnStatusLine(ch: byte) returns (out: Outcome)
      requires InStatusLine(state)
      modifies `ptype, `verb, `index, `state, `major, `minor, `status, `errno
      ensures Became(StatusLineByte(old(Abs()), ch), out)
    {
      hide MajorDigit, MinorDigit, Expect;
      match state {
        case ResOrRespH =>
          if ch == 'T' {
            ptype, state := Response, ResHT;
            return Go;
          }
          if ch != 'E' {
            errno := InvalidConstant;
            return Fail;
          }
          ptype, verb, index, state := Request, HEAD, 2, ReqMethod;
          return Go;
        case ResH => out := Expected(ch, 'T', Strict, ResHT);
        case ResHT => out := Expected(ch, 'T', Strict, ResHTT);
        case ResHTT => out := Expected(ch, 'P', Strict, ResHTTP);
        case ResHTTP => out := Expected(ch, '/', Strict, ResFirstHttpMajor);
        case ResFirstHttpMajor =>
          if !IsDigit(ch) {
            errno := InvalidVersion;
            return Fail;
          }
          major, state := DigitValue(ch), ResHttpMajor;
          return Go;
        case ResHttpMajor =>
          if ch == '.' {
            state := ResFirstHttpMinor;
            return Go;
          }
          out := OnMajorDigit(ch);
        case ResFirstHttpMinor =>
          if !IsDigit(ch) {
            errno := InvalidVersion;
            return Fail;
          }
          minor, state := DigitValue(ch), ResHttpMinor;
          return Go;
        case ResHttpMinor =>
          if ch == ' ' {
            state := ResFirstStatusCode;
            return Go;
          }
          out := OnMinorDigit(ch);
        case ResFirstStatusCode =>
          if !IsDigit(ch) {
            if ch == ' ' {
              return Go;
            }
            errno := InvalidStatus;
            return Fail;
          }
          status, state := DigitValue(ch), ResStatusCode;
          return Go;
        case ResStatusCode => out := OnStatusCode(ch);
        case ResLineAlmostDone => out := Expected(ch, LF, Strict, HeaderFieldStart);
      }
    }

    /** A further digit of the status code, or what ends it. */
    method OnStatusCode(ch: byte) returns (out: Outcome)
      requires state.ResStatusCode?
      modifies `state, `status, `errno
      ensures Became(StatusLineByte(old(Abs()), ch), out)
    {
      if !IsDigit(ch) {
        if ch == ' ' {
          state := ResStatusStart;
        } else if ch == CR {
          state := ResLineAlmostDone;
        } else if ch == LF {
          state := HeaderFieldStart;
        } else {
          errno := InvalidStatus;
          return Fail;
        }
        return Go;
      }
      status := status * 10;
      status := status + DigitValue(ch);
      if status > 999 {
        errno := InvalidStatus;
        return Fail;
      }
      return Go;
    }

    /** A letter of the method, which may turn it into another one, or the blank after it. */
    method OnMethodLetter(ch: byte) returns (out: Outcome)
      modifies `verb, `index, `state, `errno
      ensures Became(MethodByte(old(Abs()), ch), out)
    {
      if ch == '\0' {
        errno := InvalidMethod;
        return Fail;
      }
      var matcher := MethodString(verb);
      if ch == ' ' && CharAt(matcher, index) == '\0' {
        state := ReqSpacesBeforeUrl;
      } else if ch == CharAt(matcher, index) {
      } else if IsAlpha(ch) {
        var (m, known) := SwitchMethod(verb, index, ch);
        if !known {
          errno := InvalidMethod;
          return Fail;
        }
        verb := m;
      } else if ch == '-' && index == 1 && verb == MKCOL {
        verb := MSEARCH;
      } else {
        errno := InvalidMethod;
        return Fail;
      }
      index := Next7(index);
      return Go;
    }

    /** The digits of a request's version, the point between them and the end of the line. */
    method OnRequestVersion(ch: byte) returns (out: Outcome)
      requires state.ReqFirstHttpMajor? || state.ReqHttpMajor? || state.ReqFirstHttpMinor? || state.ReqHttpMinor?
      modifies `state, `major, `minor, `errno
      ensures Became(RequestLineByte(old(Abs()), ch), out)
    {
      hide MajorDigit, MinorDigit, MethodByte, Expect;
      match state {
        case ReqFirstHttpMajor =>
          if ch < '1' || ch > '9' {
            errno := InvalidVersion;
            return Fail;
          }
          major, state := DigitValue(ch), ReqHttpMajor;
          return Go;
        case ReqHttpMajor =>
          if ch == '.' {
            state := ReqFirstHttpMinor;
            return Go;
          }
          out := OnMajorDigit(ch);
        case ReqFirstHttpMinor =>
          if !IsDigit(ch) {
            errno := InvalidVersion;
            return Fail;
          }
          minor, state := DigitValue(ch), ReqHttpMinor;
          return Go;
        case ReqHttpMinor =>
          if ch == CR {
            state := ReqLineAlmostDone;
            return Go;
          }
          if ch == LF {
            state := HeaderFieldStart;
            return Go;
          }
          out := OnMinorDigit(ch);
      }
    }

    method OnRequestLine(ch: byte) returns (out: Outcome)
      requires InRequestLine(state)
      modifies `verb, `index, `state, `major, `minor, `errno
      ensures Became(RequestLineByte(old(Abs()), ch), out)
    {
      hide MajorDigit, MinorDigit, MethodByte, Expect;
      match state {
        case ReqMethod => out := OnMethodLetter(ch);
        case ReqHttpStart =>
          if ch == 'H' {
            state := ReqHttpH;
          } else if ch != ' ' {
            errno := InvalidConstant;
            return Fail;
          }
          return Go;
        case ReqHttpH => out := Expected(ch, 'T', Strict, ReqHttpHT);
        case ReqHttpHT => out := Expected(ch, 'T', Strict, ReqHttpHTT);
        case ReqHttpHTT => out := Expected(ch, 'P', Strict, ReqHttpHTTP);
        case ReqHttpHTTP => out := Expected(ch, '/', Strict, ReqFirstHttpMajor);
        case ReqFirstHttpMajor => out := OnRequestVersion(ch);
        case ReqHttpMajor => out := OnRequestVersion(ch);
        case ReqFirstHttpMinor => out := OnRequestVersion(ch);
        case ReqHttpMinor => out := OnRequestVersion(ch);
        case ReqLineAlmostDone => out := Expected(ch, LF, LfExpected, HeaderFieldStart);
      }
    }

    /** The size of a chunk, and what may stand after it. */
    method OnChunkSize(ch: byte) returns (out: Outcome)
      requires state.ChunkSizeStart? || state.ChunkSize? || state.ChunkParameters?
      modifies `state, `contentLength, `errno
      ensures Became(ChunkByte(old(Abs()), ch), out)
    {
      out := Go;
      if state.ChunkSizeStart? {
        var unhexVal := Unhex(ch);
        if unhexVal == -1 {
          errno := InvalidChunkSize;
          return Fail;
        }
        contentLength, state := unhexVal, ChunkSize;
      } else if ch == CR {
        state := ChunkSizeAlmostDone;
      } else if state.ChunkSize? {
        var unhexVal := Unhex(ch);
        if unhexVal == -1 {
          if ch == ';' || ch == ' ' {
            state := ChunkParameters;
            return;
          }
          errno := InvalidChunkSize;
          return Fail;
        }
        if (ULLONG_MAX - 16) / 16 < contentLength {
          errno := InvalidContentLength;
          return Fail;
        }
        contentLength := contentLength * 16 + unhexVal;
      }
    }

    /** A connection that is closed takes line ends only. */
    method OnDead(ch: byte) returns (out: Outcome)
      requires state.Dead?
      modifies `errno
      ensures Became(Step(hc, old(Abs()), ch, false), out)
    {
      if ch == CR || ch == LF {
        return Go;
      }
      errno := ClosedConnection;
      return Fail;
    }

    /** The states that only look at their byte and change fields. */
    method OnQuiet(data: bytes, p: nat) returns (out: Outcome)
      requires p < |data| && AtByte(data, p) && Quiet(state)
      modifies `ptype, `state, `index, `contentLength, `major, `minor, `status, `verb, `errno
      ensures Did(Step(hc, old(Abs()), data[p], false), old(Seen(data, p)), data, p, out)
    {
      hide StatusLineByte, RequestLineByte, ChunkByte, TraceAt, Emit, Merge, Valid;
      var ch := data[p];
      QuietStep(hc, Abs(), ch);
      TraceNone(log, data, p);
      TraceNone(log, data, p + 1);
      if state.Dead? {
        out := OnDead(ch);
      } else if state.HeaderAlmostDone? {
        out := Expected(ch, LF, LfExpected, HeaderValueLws);
      } else if state.HeaderValueDiscardWsAlmostDone? {
        out := Expected(ch, LF, Strict, HeaderValueDiscardLws);
      } else if state.ChunkSizeStart? || state.ChunkSize? || state.ChunkParameters? {
        out := OnChunkSize(ch);
      } else if InStatusLine(state) {
        out := OnStatusLine(ch);
      } else {
        out := OnRequestLine(ch);
      }
    }

    method OnStartReq(data: bytes, p: nat) returns (out: Outcome)
      requires p < |data| && state.StartReq? && marks == map[]
      modifies `flags, `contentLength, `state, `verb, `index, `errno, `log
      ensures Did(StartReqByte(old(Abs()), data[p]), old(Seen(data, p)), data, p, out)
    {
      hide TraceAt, EmitAll, Emit, Merge, StartMethod, IsAlpha;
      Unmoved(data, p);
      var ch := data[p];
      if ch == CR || ch == LF {
        return Go;
      }
      flags, contentLength := NO_FLAGS, ULLONG_MAX;
      if !IsAlpha(ch) {
        errno := InvalidMethod;
        return Fail;
      }
      out := OnMethodStart(data, p);
    }

    /** The first letter of a method. */
    method OnMethodStart(data: bytes, p: nat) returns (out: Outcome)
      requires p < |data| && IsAlpha(data[p]) && marks == map[]
      modifies `state, `verb, `index, `errno, `log
      ensures var (m, known) := StartMethod(data[p]);
              var s1 := old(Abs()).(verb := m, index := 1);
              var s2 := s1.(state := ReqMethod);
              Did(if known then StepResult(s2, [Notify(OnMessageBegin, s2)], Go) else Err(s1, InvalidMethod),
                  old(Seen(data, p)), data, p, out)
    {
      hide TraceAt, EmitAll, Emit, Merge, StartMethod, IsAlpha;
      Unmoved(data, p);
      var (m, known) := StartMethod(data[p]);
      verb, index := m, 1;
      if !known {
        errno := InvalidMethod;
        return Fail;
      }
      state := ReqMethod;
      NotifyAt(OnMessageBegin, data, p);
      return Go;
    }

    method OnStartReqOrRes(data: bytes, p: nat) returns (out: Outcome)
      requires p < |data| && state.StartReqOrRes? && marks == map[]
      modifies `ptype, `flags, `contentLength, `state, `verb, `index, `errno, `log
      ensures Did(StartReqOrResByte(old(Abs()), data[p]), old(Seen(data, p)), data, p, out)
    {
      hide TraceAt, EmitAll, Emit, Merge, StartReqByte;
      Unmoved(data, p);
      var ch := data[p];
      if ch == CR || ch == LF {
        return Go;
      }
      flags, contentLength := NO_FLAGS, ULLONG_MAX;
      if ch == 'H' {
        state := ResOrRespH;
        NotifyAt(OnMessageBegin, data, p);
        return Go;
      }
      ptype, state := Request, StartReq;
      out := OnStartReq(data, p);
    }

    method OnStartRes(data: bytes, p: nat) returns (out: Outcome)
      requires p < |data| && state.StartRes? && marks == map[]
      modifies `flags, `contentLength, `state, `errno, `log
      ensures Did(StartResByte(old(Abs()), data[p]), old(Seen(data, p)), data, p, out)
    {
      hide TraceAt, EmitAll, Emit, Merge;
      Unmoved(data, p);
      var ch := data[p];
      flags, contentLength := NO_FLAGS, ULLONG_MAX;
      if ch == 'H' {
        state := ResH;
      } else if ch != CR && ch != LF {
        errno := InvalidConstant;
        return Fail;
      }
      NotifyAt(OnMessageBegin, data, p);
      return Go;
    }

    // -------------------------------------------------------------- URL and reason phrase

    /** One character of the URL, read under its mark. */
    method UrlCharacter(from: State, ch: byte) returns (out: Outcome)
      modifies `state, `errno
      ensures state == ParseUrlChar(from, ch)
      ensures errno == if state.Dead? then InvalidUrl else old(errno)
      ensures out == if state.Dead? then Fail else Go
    {
      state := ParseUrlChar(from, ch);
      if state.Dead? {
        errno := InvalidUrl;
        return Fail;
      }
      return Go;
    }

    method OnUrlStart(data: bytes, p: nat) returns (out: Outcome)
      requires p < |data| && marks == map[] && state.ReqSpacesBeforeUrl?
      modifies `state, `errno, `marks
      ensures Did(UrlByte(old(Abs()), data[p]), old(Seen(data, p)), data, p, out)
    {
      hide Merge, TraceAt, EmitAll, Emit, ParseUrlChar;
      var ch := data[p];
      Unmoved(data, p);
      if ch == ' ' {
        return Go;
      }
      out := OnUrlFirst(data, p, if verb == CONNECT then ReqServerStart else state);
    }

    /** The first character of the URL. */
    method OnUrlFirst(data: bytes, p: nat, from: State) returns (out: Outcome)
      requires p < |data| && marks == map[]
      modifies `state, `errno, `marks
      ensures Did(UrlChar(old(Abs()), from, data[p]), old(Seen(data, p)), data, p, out)
    {
      hide Merge, TraceAt, EmitAll, Emit, ParseUrlChar;
      Unmoved(data, p);
      UrlStates(from, data[p]);
      MarkFirst(OnUrl, data, p);
      out := UrlCharacter(from, data[p]);
    }

    /** The byte that ends the URL. */
    method OnUrlEnd(data: bytes, p: nat) returns (out: Outcome)
      requires p < |data| && MarksOk(state, marks, p, |data|) && InUrl(state)
      requires data[p] == ' ' || data[p] == CR || data[p] == LF
      requires !state.ReqSchema? && !state.ReqSchemaSlash? && !state.ReqSchemaSlashSlash? && !state.ReqServerStart?
      modifies `state, `major, `minor, `marks, `log
      ensures Did(UrlByte(old(Abs()), data[p]), old(Seen(data, p)), data, p, out)
    {
      hide TraceAt, EmitAll, Emit, Merge, UrlChar;
      var ch := data[p];
      EmitOne(Seen(data, p), Data(OnUrl, []));
      if ch == ' ' {
        state := ReqHttpStart;
      } else {
        major, minor := 0, 9;
        state := if ch == CR then ReqLineAlmostDone else HeaderFieldStart;
      }
      CloseRun(OnUrl, data, p);
      out := Go;
    }

    method OnUrlByte(data: bytes, p: nat) returns (out: Outcome)
      requires p < |data| && MarksOk(state, marks, p, |data|) && InUrl(state)
      modifies `state, `errno, `major, `minor, `marks, `log
      ensures Did(UrlByte(old(Abs()), data[p]), old(Seen(data, p)), data, p, out)
    {
      hide TraceAt, EmitAll, Emit, Merge, ParseUrlChar;
      var ch := data[p];
      var ends := ch == ' ' || ch == CR || ch == LF;
      EmitNone(Seen(data, p));
      EmitOne(Seen(data, p), Data(OnUrl, [ch]));
      UrlStates(state, ch);
      assert data[p..p + 1] == [ch];
      TraceGrows(log, marks, data, p, p + 1, OnUrl);
      if !ends {
        out := UrlCharacter(state, ch);
      } else if state.ReqSchema? || state.ReqSchemaSlash? || state.ReqSchemaSlashSlash? || state.ReqServerStart? {
        errno := InvalidUrl;
        out := Fail;
      } else {
        out := OnUrlEnd(data, p);
      }
    }

    method OnStatusStart(data: bytes, p: nat) returns (out: Outcome)
      requires p < |data| && marks == map[] && state.ResStatusStart?
      modifies `state, `index, `marks
      ensures Did(StatusByte(old(Abs()), data[p]), old(Seen(data, p)), data, p, out)
    {
      hide TraceAt, EmitAll, Emit, Merge;
      var ch := data[p];
      Unmoved(data, p);
      if ch == CR || ch == LF {
        state := if ch == CR then ResLineAlmostDone else HeaderFieldStart;
        return Go;
      }
      MarkFirst(OnStatus, data, p);
      state := ResStatus;
      index := 0;
      return Go;
    }

    method OnStatusByte(data: bytes, p: nat) returns (out: Outcome)
      requires p < |data| && MarksOk(state, marks, p, |data|) && state.ResStatus?
      modifies `state, `marks, `log
      ensures Did(StatusByte(old(Abs()), data[p]), old(Seen(data, p)), data, p, out)
    {
      hide TraceAt, EmitAll, Emit, Merge;
      var ch := data[p];
      EmitOne(Seen(data, p), Data(OnStatus, [ch]));
      EmitOne(Seen(data, p), Data(OnStatus, []));
      assert data[p..p + 1] == [ch];
      TraceGrows(log, marks, data, p, p + 1, OnStatus);
      TraceCloses(log, marks, data, p, OnStatus);
      if ch == CR || ch == LF {
        state := if ch == CR then ResLineAlmostDone else HeaderFieldStart;
        CallbackData(OnStatus, data, p);
        TraceNone(log, data, p + 1);
      }
      return Go;
    }

    // -------------------------------------------------------------- end of the headers, end of the message

    method OnMessageDone(data: bytes, p: nat) returns (out: Outcome)
      requires marks == map[]
      modifies `state, `log
      ensures Did(MessageDoneByte(old(Abs())), old(Seen(data, p)), data, p, out)
    {
      out := if upgrade then Exit else Go;
      CompleteMessage(data, p, out);
    }

    /** The next state, and the callback that ends a message. */
    method CompleteMessage(data: bytes, p: nat, out: Outcome)
      requires marks == map[] && !out.Fail?
      modifies `state, `log
      ensures Did(Complete(old(Abs()), out), old(Seen(data, p)), data, p, out)
    {
      hide TraceAt, EmitAll, Emit, Merge, ShouldKeepAlive;
      Unmoved(data, p);
      state := NewMessage(Abs());
      NotifyAt(OnMessageComplete, data, p);
    }

    method OnHeadersDone(data: bytes, p: nat) returns (out: Outcome)
      requires marks == map[]
      modifies `state, `log, `nread
      ensures Did(HeadersDoneByte(old(Abs())), old(Seen(data, p)), data, p, out)
      ensures nread == 0
    {
      hide TraceAt, EmitAll, Emit, Merge, Complete, NeedsEof;
      Unmoved(data, p);
      nread := 0;
      var hasBody := flags.chunked || (contentLength > 0 && contentLength != ULLONG_MAX);
      out := Go;
      if upgrade && (verb == CONNECT || flags.skipBody || !hasBody) {
        out := Exit;
        CompleteMessage(data, p, Exit);
      } else if flags.skipBody {
        CompleteMessage(data, p, Go);
      } else if flags.chunked {
        state := ChunkSizeStart;
      } else if contentLength == 0 {
        CompleteMessage(data, p, Go);
      } else if contentLength != ULLONG_MAX {
        state := BodyIdentity;
      } else if !NeedsEof(Abs()) {
        CompleteMessage(data, p, Go);
      } else {
        state := BodyIdentityEof;
      }
    }

    method OnHeadersAlmostDone(data: bytes, p: nat) returns (out: Outcome)
      requires p < |data| && marks == map[]
      modifies `state, `errno, `upgrade, `flags, `log, `nread
      ensures Did(HeadersAlmostDoneByte(hc, old(Abs()), data[p]), old(Seen(data, p)), data, p, out)
      ensures nread == 0 || nread == old(nread)
    {
      hide TraceAt, EmitAll, Emit, Merge, HeadersDoneByte, MessageDoneByte;
      Unmoved(data, p);
      if data[p] != LF {
        errno := Strict;
        return Fail;
      }
      if flags.trailing {
        out := OnTrailerDone(data, p);
        return;
      }
      if flags.chunked && flags.contentLength {
        errno := UnexpectedContentLength;
        return Fail;
      }
      state := HeadersDone;
      upgrade := (flags.upgrade && flags.connectionUpgrade) || verb == CONNECT;
      out := OnHeadersAnswered(data, p);
    }

    /** The last LF of a chunked message. */
    method OnTrailerDone(data: bytes, p: nat) returns (out: Outcome)
      requires p < |data| && marks == map[]
      modifies `state, `log
      ensures var s1 := old(Abs()).(state := MessageDone);
              Did(After([Notify(OnChunkComplete, s1)], MessageDoneByte(s1)), old(Seen(data, p)), data, p, out)
    {
      hide TraceAt, EmitAll, Emit, Merge, MessageDoneByte;
      ghost var t0 := Seen(data, p);
      state := MessageDone;
      ghost var s1 := Abs();
      Notified(OnChunkComplete, data, p);
      EmitAllConcat(t0, [Notify(OnChunkComplete, s1)], MessageDoneByte(s1).evs);
      CallbackNotify(OnChunkComplete);
      TraceNone(log, data, p);
      out := OnMessageDone(data, p);
    }

    /** `on_headers_complete` is called, and what it returns is obeyed. */
    method OnHeadersAnswered(data: bytes, p: nat) returns (out: Outcome)
      requires p < |data| && marks == map[]
      modifies `state, `errno, `upgrade, `flags, `log, `nread
      ensures var s1 := old(Abs());
              var seen := [Notify(OnHeadersComplete, s1)];
              Did(if hc(s1).Refuse? then After(seen, Err(s1, CbHeadersComplete))
                  else After(seen, HeadersDoneByte(Answered(s1, hc(s1)))), old(Seen(data, p)), data, p, out)
      ensures nread == 0 || nread == old(nread)
    {
      hide TraceAt, EmitAll, Emit, Merge, HeadersDoneByte;
      ghost var t0, s1 := Seen(data, p), Abs();
      Notified(OnHeadersComplete, data, p);
      EmitAllConcat(t0, [Notify(OnHeadersComplete, s1)], HeadersDoneByte(Answered(s1, hc(s1))).evs);
      assert [Notify(OnHeadersComplete, s1)] + [] == [Notify(OnHeadersComplete, s1)];
      var answer := hc(Abs());
      CallbackNotify(OnHeadersComplete);
      TraceNone(log, data, p);
      if answer.Refuse? {
        errno := CbHeadersComplete;
        return Fail;
      }
      if answer.SkipBodyAndUpgrade? {
        upgrade := true;
      }
      if answer.SkipBody? || answer.SkipBodyAndUpgrade? {
        flags := flags.(skipBody := true);
      }
      assert Abs() == Answered(s1, hc(s1));
      out := OnHeadersDone(data, p);
    }

    // -------------------------------------------------------------- header lines

    method OnFieldStart(data: bytes, p: nat) returns (out: Outcome)
      requires p < |data| && marks == map[]
      modifies `state, `errno, `upgrade, `flags, `log, `nread, `marks, `index, `hstate
      ensures Did(FieldStartByte(hc, old(Abs()), data[p]), old(Seen(data, p)), data, p, out)
      ensures nread == 0 || nread == old(nread)
    {
      hide TraceAt, EmitAll, Emit, HeadersAlmostDoneByte;
      var ch := data[p];
      Unmoved(data, p);
      if ch == CR {
        state := HeadersAlmostDone;
        return Go;
      }
      if ch == LF {
        state := HeadersAlmostDone;
        out := OnHeadersAlmostDone(data, p);
        return;
      }
      var c := Token(ch);
      if c == '\0' {
        errno := InvalidHeaderToken;
        return Fail;
      }
      MarkFirst(OnHeaderField, data, p);
      index, state := 0, HeaderField;
      hstate := match c case 'c' => C case 'p' => MatchingProxyConnection case 't' => MatchingTransferEncoding
                        case 'u' => MatchingUpgrade case _ => General;
      return Go;
    }

    method OnValueStart(data: bytes, p: nat) returns (out: Outcome)
      requires p < |data| && marks == map[]
      modifies `state, `errno, `flags, `marks, `index, `hstate, `contentLength
      ensures Did(ValueStartByte(old(Abs()), data[p]), old(Seen(data, p)), data, p, out)
    {
      hide TraceAt, EmitAll, Emit, Merge, ValueStartByte;
      var ch := data[p];
      Unmoved(data, p);
      MarkFirst(OnHeaderValue, data, p);
      ValueStartEvents(Abs(), ch);
      out := ClassifyValue(ch);
    }

    /** What the first byte of a value says about a value of interest. */
    method ClassifyValue(ch: byte) returns (out: Outcome)
      modifies `state, `errno, `flags, `index, `hstate, `contentLength
      ensures out == ValueStartByte(old(Abs()), ch).out
      ensures Abs() == ValueStartByte(old(Abs()), ch).s
    {
      state, index := HeaderValue, 0;
      var c := Lower(ch);
      match hstate {
        case Upgrade =>
          flags, hstate := flags.(upgrade := true), General;
        case TransferEncoding =>
          hstate := if c == 'c' then MatchingTransferEncodingChunked else General;
        case ContentLength =>
          if !IsDigit(ch) {
            errno := InvalidContentLength;
            return Fail;
          }
          if flags.contentLength {
            errno := UnexpectedContentLength;
            return Fail;
          }
          flags, contentLength := flags.(contentLength := true), DigitValue(ch);
        case Connection =>
          hstate := if c == 'k' then MatchingConnectionKeepAlive
                    else if c == 'c' then MatchingConnectionClose
                    else if c == 'u' then MatchingConnectionUpgrade else MatchingConnectionToken;
        case MatchingConnectionTokenStart =>
        case _ =>
          hstate := General;
      }
      return Go;
    }

    method OnDiscardWs(data: bytes, p: nat) returns (out: Outcome)
      requires p < |data| && marks == map[] && state.HeaderValueDiscardWs?
      modifies `state, `errno, `flags, `marks, `index, `hstate, `contentLength
      ensures Did(DiscardWsByte(old(Abs()), data[p]), old(Seen(data, p)), data, p, out)
    {
      hide TraceAt, EmitAll, Emit, ValueStartByte;
      var ch := data[p];
      EmitNone(Seen(data, p));
      TraceNone(log, data, p);
      TraceNone(log, data, p + 1);
      if ch == ' ' || ch == '\t' {
        return Go;
      }
      if ch == CR {
        state := HeaderValueDiscardWsAlmostDone;
        return Go;
      }
      if ch == LF {
        state := HeaderValueDiscardLws;
        return Go;
      }
      out := OnValueStart(data, p);
    }

    /** The flags that the finished value sets. */
    method FinishFlags()
      modifies `flags
      ensures flags == FinishValue(old(Abs())).flags
    {
      match hstate {
        case ConnectionKeepAlive => flags := flags.(keepAlive := true);
        case ConnectionClose => flags := flags.(close := true);
        case TransferEncodingChunked => flags := flags.(chunked := true);
        case ConnectionUpgrade => flags := flags.(connectionUpgrade := true);
        case _ =>
      }
    }

    method OnValueLws(data: bytes, p: nat) returns (out: Outcome)
      requires p < |data| && marks == map[] && state.HeaderValueLws?
      modifies `state, `errno, `upgrade, `flags, `log, `nread, `marks, `index, `hstate, `contentLength
      ensures Did(ValueLwsByte(hc, old(Abs()), data[p]), old(Seen(data, p)), data, p, out)
      ensures nread == 0 || nread == old(nread)
    {
      hide TraceAt, EmitAll, Emit, ValueStartByte, FieldStartByte;
      ValueStartPieces(Abs().(state := HeaderValueStart), data[p]);
      if data[p] == ' ' || data[p] == '\t' {
        state := HeaderValueStart;
        out := OnValueStart(data, p);
        return;
      }
      FinishFlags();
      state := HeaderFieldStart;
      out := OnFieldStart(data, p);
    }

    /** Lines 1768-1771: the value is empty, and reported. */
    method ReportEmptyValue(data: bytes, p: nat)
      requires p < |data| && marks == map[]
      modifies `marks, `log
      ensures marks == map[] && Seen(data, p) == Emit(old(Seen(data, p)), Data(OnHeaderValue, []))
    {
      hide TraceAt, EmitAll, Emit, Merge;
      TraceNone(log, data, p);
      Mark(OnHeaderValue, p);
      TraceOnly(log, marks, data, p, OnHeaderValue);
      TraceCloses(log, marks, data, p, OnHeaderValue);
      CallbackData(OnHeaderValue, data, p);
      TraceNone(log, data, p);
    }

    method OnDiscardLws(data: bytes, p: nat) returns (out: Outcome)
      requires p < |data| && marks == map[] && state.HeaderValueDiscardLws?
      modifies `state, `errno, `upgrade, `flags, `log, `nread, `marks, `index, `hstate
      ensures Did(DiscardLwsByte(hc, old(Abs()), data[p]), old(Seen(data, p)), data, p, out)
      ensures nread == 0 || nread == old(nread)
    {
      hide Merge, TraceAt, EmitAll, Emit, FieldStartByte;
      TraceNone(log, data, p);
      TraceNone(log, data, p + 1);
      EmitNone(Seen(data, p));
      if data[p] == ' ' || data[p] == '\t' {
        state := HeaderValueDiscardWs;
        return Go;
      }
      ghost var t0 := Seen(data, p);
      FinishFlags();
      state := HeaderFieldStart;
      ReportEmptyValue(data, p);
      EmitOne(t0, Data(OnHeaderValue, []));
      EmitAllConcat(t0, [Data(OnHeaderValue, [])], FieldStartByte(hc, Abs(), data[p]).evs);
      out := OnFieldStart(data, p);
    }

    // -------------------------------------------------------------- around chunk data

    method OnChunkSizeAlmostDone(data: bytes, p: nat) returns (out: Outcome)
      requires p < |data| && marks == map[] && state.ChunkSizeAlmostDone?
      modifies `state, `errno, `flags, `log, `nread
      ensures Did(ChunkByte(old(Abs()), data[p]), old(Seen(data, p)), data, p, out)
      ensures nread == 0 || nread == old(nread)
    {
      hide Merge, TraceAt, EmitAll, Emit, Unhex;
      EmitNone(Seen(data, p));
      TraceNone(log, data, p);
      if data[p] != LF {
        errno := Strict;
        return Fail;
      }
      nread := 0;
      BeginChunk(data, p);
      return Go;
    }

    /** The chunk has a size; the last one is followed by trailers. */
    method BeginChunk(data: bytes, p: nat)
      requires marks == map[]
      modifies `state, `flags, `log
      ensures var s := old(Abs());
              var s1 := if s.contentLength == 0
                        then s.(flags := s.flags.(trailing := true), state := HeaderFieldStart)
                        else s.(state := ChunkData);
              && Abs() == s1
              && Seen(data, p + 1) == EmitAll(old(Seen(data, p)), [Notify(OnChunkHeader, s1)])
    {
      hide TraceAt, EmitAll, Merge;
      if contentLength == 0 {
        flags := flags.(trailing := true);
        state := HeaderFieldStart;
      } else {
        state := ChunkData;
      }
      NotifyAt(OnChunkHeader, data, p);
    }

    method OnChunkDataAlmostDone(data: bytes, p: nat) returns (out: Outcome)
      requires p < |data| && MarksOk(state, marks, p, |data|) && state.ChunkDataAlmostDone?
      modifies `state, `errno, `marks, `log
      ensures Did(ChunkByte(old(Abs()), data[p]), old(Seen(data, p)), data, p, out)
    {
      hide TraceAt, EmitAll, Emit;
      EmitNone(Seen(data, p));
      if data[p] != CR {
        errno := Strict;
        return Fail;
      }
      state := ChunkDataDone;
      if marks == map[] {
        TraceNone(log, data, p);
      } else {
        TraceOnly(log, marks, data, p, OnBody);
        MergeSnoc(log, Data(OnBody, data[marks[OnBody]..p]));
      }
      CallbackData(OnBody, data, p);
      TraceNone(log, data, p + 1);
      return Go;
    }

    method OnChunkDataDone(data: bytes, p: nat) returns (out: Outcome)
      requires p < |data| && marks == map[] && state.ChunkDataDone?
      modifies `state, `errno, `log, `nread
      ensures Did(ChunkByte(old(Abs()), data[p]), old(Seen(data, p)), data, p, out)
      ensures nread == 0 || nread == old(nread)
    {
      hide TraceAt, EmitAll, Emit;
      EmitNone(Seen(data, p));
      TraceNone(log, data, p);
      if data[p] != LF {
        errno := Strict;
        return Fail;
      }
      nread := 0;
      state := ChunkSizeStart;
      NotifyAt(OnChunkComplete, data, p);
      return Go;
    }

    // -------------------------------------------------------------- jumps over bodies

    /** The method did what the run from `c0` at byte `i` does up to byte `p`. */
    ghost predicate Ran(c0: Conn, data: bytes, i: nat, p: nat, out: Outcome, shadow: bool)
      requires i <= |data|
      reads this
    {
      && p < |data|
      && (out.Go? ==> MarksOk(state, marks, p + 1, |data|))
      && (out.Exit? ==> marks == map[])
      && match out
         case Go => RunFrom(hc, c0, data, i) == RunFrom(hc, Conn(Abs(), Seen(data, p + 1), shadow), data, p + 1)
         case Fail => Stopped(RunFrom(hc, c0, data, i), data, p, Fail)
         case Exit => Stopped(RunFrom(hc, c0, data, i), data, p + 1, Exit)
    }

    /** Between bytes again, or failed. */
    ghost predicate Onward(out: Outcome)
      reads this
    {
      if out.Fail? then errno != Ok
      else errno == Ok && Ready(Abs()) && nread <= HTTP_MAX_HEADER_SIZE && (state.ChunkSizeStart? ==> nread == 0)
    }

    /** The parser stopped after `n` bytes as the run `r` does. */
    ghost predicate Stopped(r: RunResult, data: bytes, n: nat, out: Outcome)
      reads this
    {
      && r.out == out && r.n == n && r.c.trace == Seen(data, n) && (out.Fail? ==> OneMark(marks, n))
      && SameButStale(Abs(), r.c.s)
    }

    method OnBodyIdentity(data: bytes, p0: nat) returns (p: nat, out: Outcome)
      requires p0 < |data| && marks == map[] && state.BodyIdentity? && Ready(Abs()) && nread <= HTTP_MAX_HEADER_SIZE
      modifies `state, `contentLength, `marks, `log
      ensures p0 <= p < |data| && Onward(out) && errno != HeaderOverflow
      ensures Ran(Conn(old(Abs()), old(Seen(data, p0)), false), data, p0, p, out, false)
    {
      hide TraceAt, EmitAll, Emit, Ready, RunFrom, MessageDoneByte, Onward, Ran, MarksOk, OnlyMark;
      ghost var s0, t0 := Abs(), Seen(data, p0);
      TraceNone(log, data, p0);
      var toRead := Min(contentLength, |data| - p0);
      BodyStays(s0, toRead);
      Mark(OnBody, p0);
      BodyMark(marks, p0, |data|);
      contentLength := contentLength - toRead;
      p := p0 + toRead - 1;
      TraceOnly(log, marks, data, p0, OnBody);
      if contentLength == 0 {
        BodyEnds(hc, s0, t0, data, p0, p);
        state := MessageDone;
        ghost var r := MessageDoneByte(Abs());
        out := OnBodyComplete(data, p0, p);
        DidRan(Conn(s0, t0, false), r, Emit(t0, Data(OnBody, data[p0..p + 1])), data, p0, p, out);
      } else {
        BodyRun(hc, s0, t0, data, p0, |data|);
        TraceGrows(log, marks, data, p0, |data|, OnBody);
        GoneTo(Conn(s0, t0, false), data, p0, |data|, false);
        out := Go;
      }
    }

    /** What was done at byte `p` is what the run does there. */
    lemma DidRan(c0: Conn, r: StepResult, t: seq<Event>, data: bytes, i: nat, p: nat, out: Outcome)
      requires i <= p < |data| && Did(r, t, data, p, out) && !out.Fail?
      requires var c := Conn(r.s, EmitAll(t, r.evs), false);
               (RunFrom(hc, c0, data, i)
                == if out.Go? then RunFrom(hc, c, data, p + 1) else RunResult(c, p + 1, out))
      ensures Ran(c0, data, i, p, out, false)
    {
      hide RunFrom, TraceAt, EmitAll, MarksOk;
    }

    /** Line 1911: report the last run of the body, and complete the message at the same byte. */
    method OnBodyComplete(data: bytes, p0: nat, p: nat) returns (out: Outcome)
      requires p0 <= p < |data| && OnlyMark(marks, OnBody, p0) && marks[OnBody] == p0
      requires state.MessageDone? && Ready(Abs().(state := HeaderFieldStart)) && nread <= HTTP_MAX_HEADER_SIZE
      modifies `state, `marks, `log
      ensures Onward(out) && errno == Ok && !out.Fail?
      ensures Did(MessageDoneByte(old(Abs())), Emit(Merge(old(log)), Data(OnBody, data[p0..p + 1])), data, p, out)
    {
      hide TraceAt, EmitAll, Emit, Merge, Ready, MessageDoneByte, MarksOk;
      ReadyOk(Abs().(state := HeaderFieldStart));
      MessageDoneKeepsValid(Abs());
      MessageDoneGoesOn(Abs());
      MergeSnoc(log, Data(OnBody, data[p0..p + 1]));
      CallbackData(OnBody, data, p + 1);
      TraceNone(log, data, p);
      out := OnMessageDone(data, p);
    }

    method OnChunkData(data: bytes, p0: nat) returns (p: nat, out: Outcome)
      requires p0 < |data| && marks == map[] && state.ChunkData? && Ready(Abs()) && nread <= HTTP_MAX_HEADER_SIZE
      modifies `state, `contentLength, `marks
      ensures p0 <= p < |data| && Onward(out) && errno != HeaderOverflow
      ensures Ran(Conn(old(Abs()), old(Seen(data, p0)), false), data, p0, p, out, false)
    {
      hide Ready, Onward, Ran, MarksOk, TraceAt, Merge;
      ghost var s0, t0 := Abs(), Seen(data, p0);
      TraceNone(log, data, p0);
      var toRead := Min(contentLength, |data| - p0);
      BodyStays(s0, toRead);
      Mark(OnBody, p0);
      contentLength := contentLength - toRead;
      p := p0 + toRead - 1;
      if contentLength == 0 {
        state := ChunkDataAlmostDone;
      }
      ChunkRan(s0, t0, data, p0, p);
      out := Go;
    }

    lemma ChunkRan(s0: Parser, t0: seq<Event>, data: bytes, p0: nat, p: nat)
      requires p0 <= p < |data| && s0.state.ChunkData? && Ready(s0) && p + 1 - p0 <= s0.contentLength
      requires marks == map[OnBody := p0] && t0 == Merge(log) && nread <= HTTP_MAX_HEADER_SIZE
      requires if p + 1 - p0 == s0.contentLength then Abs() == s0.(contentLength := 0, state := ChunkDataAlmostDone)
               else p + 1 == |data| && Abs() == Taken(s0, p + 1 - p0)
      ensures Onward(Go) && Ran(Conn(s0, t0, false), data, p0, p, Go, false)
    {
      hide TraceAt, EmitAll, Emit, Merge, Ready, RunFrom, Onward, Ran, MarksOk, OnlyMark;
      BodyMark(marks, p0, |data|);
      BodyStays(s0, p + 1 - p0);
      TraceOnly(log, marks, data, p0, OnBody);
      TraceGrows(log, marks, data, p0, p + 1, OnBody);
      assert state == Abs().state;
      if p + 1 - p0 == s0.contentLength {
        ChunkEnds(hc, s0, t0, data, p0, p);
      } else {
        BodyRun(hc, s0, t0, data, p0, |data|);
      }
      GoneTo(Conn(s0, t0, false), data, p0, p + 1, false);
    }

    method OnBodyIdentityEof(data: bytes, p0: nat) returns (p: nat, out: Outcome)
      requires p0 < |data| && marks == map[] && state.BodyIdentityEof? && Ready(Abs()) && nread <= HTTP_MAX_HEADER_SIZE
      modifies `marks
      ensures p0 <= p < |data| && Onward(out) && errno != HeaderOverflow
      ensures Ran(Conn(old(Abs()), old(Seen(data, p0)), false), data, p0, p, out, false)
    {
      hide TraceAt, EmitAll, Emit, RunFrom, Ready, Onward, Ran;
      ghost var s0, t0 := Abs(), Seen(data, p0);
      TraceNone(log, data, p0);
      Mark(OnBody, p0);
      TraceOnly(log, marks, data, p0, OnBody);
      TraceGrows(log, marks, data, p0, |data|, OnBody);
      BodyRun(hc, s0, t0, data, p0, |data|);
      p := |data| - 1;
      GoneTo(Conn(s0, t0, false), data, p0, |data|, false);
      ReadyOk(Abs());
      out := Go;
    }

    // -------------------------------------------------------------- the loops inside a header line

    /** One character of a name that is being matched. */
    method MatchChar(name: string, c: byte, miss: HState, hit: HState)
      requires |name| >= 1
      modifies `index, `hstate
      ensures index == Next7(old(index))
      ensures hstate == if index > |name| || c != CharAt(name, index) then miss
                        else if index == |name| - 1 then hit else old(hstate)
    {
      hide CharAt, Next7;
      index := Next7(index);
      if index > |name| || c != CharAt(name, index) {
        hstate := miss;
      } else if index == |name| - 1 {
        hstate := hit;
      }
    }

    /** The character after a name that has matched. */
    method EndName(ch: byte)
      modifies `hstate
      ensures hstate == if ch != ' ' then General else old(hstate)
    {
      if ch != ' ' {
        hstate := General;
      }
    }

    /** One character of a field name. */
    method OnFieldChar(ch: byte, c: byte)
      modifies `index, `hstate
      ensures Abs() == FieldChar(old(Abs()), ch, c)
    {
      hide CharAt, Next7, CONNECTION, PROXY_CONNECTION, CONTENT_LENGTH, TRANSFER_ENCODING, UPGRADE;
      NamesLong();
      match hstate {
        case C =>
          index := Next7(index);
          hstate := if c == 'o' then CO else General;
        case CO =>
          index := Next7(index);
          hstate := if c == 'n' then CON else General;
        case CON =>
          index := Next7(index);
          hstate := if c == 'n' then MatchingConnection else if c == 't' then MatchingContentLength else General;
        case MatchingConnection => MatchChar(CONNECTION, c, General, Connection);
        case MatchingProxyConnection => MatchChar(PROXY_CONNECTION, c, General, Connection);
        case MatchingContentLength => MatchChar(CONTENT_LENGTH, c, General, ContentLength);
        case MatchingTransferEncoding => MatchChar(TRANSFER_ENCODING, c, General, TransferEncoding);
        case MatchingUpgrade => MatchChar(UPGRADE, c, General, Upgrade);
        case Connection => EndName(ch);
        case ContentLength => EndName(ch);
        case TransferEncoding => EndName(ch);
        case Upgrade => EndName(ch);
        case _ =>
      }
    }

    /** The characters of a field name, up to one that is none. */
    method OnFieldCharacters(data: bytes, p0: nat) returns (p: nat)
      requires p0 < |data| && AtByte(data, p0) && state.HeaderField?
      modifies `hstate, `index
      ensures p0 <= p <= |data| && (p < |data| ==> Token(data[p]) == '\0')
      ensures InField(Abs()) && index < 128 && OnlyMark(marks, OnHeaderField, p0)
      ensures RunFrom(hc, Conn(old(Abs()), old(Seen(data, p0)), false), data, p0)
           == RunFrom(hc, Conn(Abs(), Seen(data, p), false), data, p)
    {
      hide TraceAt, EmitAll, Emit, FieldChar, RunFrom, Token;
      ghost var c0 := Conn(Abs(), Seen(data, p0), false);
      p := p0;
      while p < |data|
        invariant p0 <= p <= |data|
        invariant InField(Abs()) && index < 128
        invariant OnlyMark(marks, OnHeaderField, p0)
        invariant RunFrom(hc, c0, data, p0) == RunFrom(hc, Conn(Abs(), Seen(data, p), false), data, p)
      {
        var ch := data[p];
        var c := Token(ch);
        if c == '\0' {
          break;
        }
        FieldCharKeepsValid(Abs(), ch, c);
        FieldStep(hc, Abs(), Seen(data, p), data, p);
        TraceGrows(log, marks, data, p, p + 1, OnHeaderField);
        assert data[p..p + 1] == [ch];
        OnFieldChar(ch, c);
        p := p + 1;
      }
    }

    /** The byte after a field name. */
    method OnFieldEnd(data: bytes, p: nat) returns (out: Outcome)
      requires p < |data| && OnlyMark(marks, OnHeaderField, p)
      modifies `state, `errno, `marks, `log
      ensures if data[p] == ':' then
                && out.Go? && marks == map[] && Seen(data, p + 1) == Emit(old(Seen(data, p)), Data(OnHeaderField, []))
                && Abs() == old(Abs()).(state := HeaderValueDiscardWs)
              else
                && out.Fail? && marks == old(marks) && log == old(log)
                && Abs() == old(Abs()).(errno := InvalidHeaderToken)
    {
      hide TraceAt, EmitAll, Emit, Merge;
      if data[p] == ':' {
        state := HeaderValueDiscardWs;
        CloseRun(OnHeaderField, data, p);
        return Go;
      }
      errno := InvalidHeaderToken;
      return Fail;
    }

    method OnField(data: bytes, p0: nat) returns (p: nat, out: Outcome)
      requires p0 < |data| && AtByte(data, p0) && state.HeaderField?
      modifies `state, `errno, `hstate, `index, `nread, `marks, `log
      ensures errno == HeaderOverflow ==> out.Fail?
      ensures p0 <= p <= |data| && (p < |data| || out.Fail?) && Onward(out)
      ensures errno != HeaderOverflow ==> Ran(Conn(old(Abs()), old(Seen(data, p0)), false), data, p0, p, out, false)
      ensures nread == Add32(old(nread), p - p0) || (p + 1 == |data| && nread == Add32(old(nread), p + 1 - p0))
      ensures errno == HeaderOverflow ==> nread == Add32(old(nread), p - p0) > HTTP_MAX_HEADER_SIZE
    {
      hide TraceAt, EmitAll, Emit, RunFrom, Token, Ready, InField, MarksOk, OnlyMark, AtByte, Onward, Ran, Stopped,
        Add32;
      BetweenBytes(data, p0);
      ghost var s0, c0 := Abs(), Conn(Abs(), Seen(data, p0), false);
      p := OnFieldCharacters(data, p0);
      HeaderFieldMark(marks, p0, p, |data|);
      FieldOnward(s0, Abs());
      var overflow := CountHeaderSize(p - p0);
      if overflow {
        FailedOnward();
        return p, Fail;
      }
      if p == |data| {
        GoneTo(c0, data, p0, p, false);
        return p - 1, Go;
      }
      MarkLater(marks, OnHeaderField, p0, p);
      FieldEnd(hc, Abs(), Seen(data, p), data, p);
      out := OnFieldEnd(data, p);
      if out.Go? {
        GoneTo(c0, data, p0, p + 1, false);
      } else {
        FailedAt(c0, data, p0, p);
      }
    }

    lemma FailedOnward()
      requires errno != Ok
      ensures Onward(Fail)
    {
    }

    /** The run has come to byte `q`, and the parser is between bytes there. */
    lemma GoneTo(c0: Conn, data: bytes, i: nat, q: nat, shadow: bool)
      requires i < q <= |data| && Ready(Abs()) && nread <= HTTP_MAX_HEADER_SIZE
      requires MarksOk(state, marks, q, |data|) && (state.ChunkSizeStart? ==> nread == 0)
      requires RunFrom(hc, c0, data, i) == RunFrom(hc, Conn(Abs(), Seen(data, q), shadow), data, q)
      ensures Onward(Go) && Ran(c0, data, i, q - 1, Go, shadow)
    {
      hide RunFrom, MarksOk, TraceAt;
    }

    /** The run has failed at byte `p`. */
    lemma FailedAt(c0: Conn, data: bytes, i: nat, p: nat)
      requires i <= p < |data| && errno != Ok && OneMark(marks, p)
      requires RunFrom(hc, c0, data, i) == RunResult(Conn(Abs(), Seen(data, p), false), p, Fail)
      ensures Onward(Fail) && Ran(c0, data, i, p, Fail, false)
    {
      hide RunFrom, TraceAt;
    }

    /** The CR or LF that ends a value. */
    method OnValueEnd(data: bytes, p: nat, start: nat, hState: HState) returns (out: Outcome)
      requires start <= p < |data| && (data[p] == CR || data[p] == LF) && OnlyMark(marks, OnHeaderValue, p)
      requires errno == Ok
      modifies `state, `errno, `hstate, `nread, `marks, `log
      ensures if errno == HeaderOverflow then out.Fail? else
                && out.Go? && errno == Ok && hstate == hState && marks == map[]
                && nread <= HTTP_MAX_HEADER_SIZE
                && state == (if data[p] == CR then HeaderAlmostDone else HeaderValueLws)
                && Seen(data, p + 1) == Emit(old(Seen(data, p)), Data(OnHeaderValue, []))
      ensures nread == Add32(old(nread), p - start)
      ensures errno == HeaderOverflow ==> nread > HTTP_MAX_HEADER_SIZE
    {
      hide TraceAt, EmitAll, Emit, Merge;
      state := HeaderAlmostDone;
      if data[p] == CR {
        hstate := hState;
        CloseRun(OnHeaderValue, data, p);
        var overflow := CountHeaderSize(p - start);
        return if overflow then Fail else Go;
      }
      var overflow := CountHeaderSize(p - start);
      if overflow {
        return Fail;
      }
      hstate := hState;
      CloseRun(OnHeaderValue, data, p);
      state := HeaderValueLws;
      return Go;
    }

    /** One byte of a value of interest, with the header state that is kept beside the field. */
    method OnValueChar(ch: byte, hState: HState) returns (h: HState, out: Outcome)
      requires errno == Ok
      modifies `errno, `index, `flags, `contentLength
      ensures Abs().(hstate := h) == ValueChar(old(Abs()).(hstate := hState), ch)
      ensures out == if errno == Ok then Go else Fail
    {
      hide CharAt, Next7, CHUNKED, KEEP_ALIVE, CLOSE, UPGRADE, Token;
      NamesLong();
      var c := Lower(ch);
      h, out := hState, Go;
      match hState {
        case General =>
        case Connection =>
        case TransferEncoding =>
        case ContentLength => out := OnLengthChar(ch);
        case MatchingTransferEncodingChunked =>
          h := MatchValueChar(CHUNKED, c, hState, General, TransferEncodingChunked);
        case MatchingConnectionTokenStart =>
          if c == 'k' {
            h := MatchingConnectionKeepAlive;
          } else if c == 'c' {
            h := MatchingConnectionClose;
          } else if c == 'u' {
            h := MatchingConnectionUpgrade;
          } else if Token(c) != '\0' {
            h := MatchingConnectionToken;
          } else if c != ' ' && c != '\t' {
            h := General;
          }
        case MatchingConnectionKeepAlive =>
          h := MatchValueChar(KEEP_ALIVE, c, hState, MatchingConnectionToken, ConnectionKeepAlive);
        case MatchingConnectionClose =>
          h := MatchValueChar(CLOSE, c, hState, MatchingConnectionToken, ConnectionClose);
        case MatchingConnectionUpgrade =>
          h := MatchValueChar(UPGRADE, c, hState, MatchingConnectionToken, ConnectionUpgrade);
        case MatchingConnectionToken =>
          if ch == ',' {
            h, index := MatchingConnectionTokenStart, 0;
          }
        case TransferEncodingChunked =>
          if ch != ' ' {
            h := General;
          }
        case ConnectionKeepAlive => h := OnTokenEnd(ch, hState);
        case ConnectionClose => h := OnTokenEnd(ch, hState);
        case ConnectionUpgrade => h := OnTokenEnd(ch, hState);
        case _ => h := General;
      }
    }

    /** One byte of the value of a Content-Length: a blank is passed over. */
    method OnLengthChar(ch: byte) returns (out: Outcome)
      requires errno == Ok
      modifies `errno, `contentLength
      ensures Abs() == (ValueChar(old(Abs()).(hstate := ContentLength), ch)).(hstate := old(hstate))
      ensures out == if errno == Ok then Go else Fail
    {
      if ch == ' ' {
        return Go;
      }
      if !IsDigit(ch) || (ULLONG_MAX - 10) / 10 < contentLength {
        errno := InvalidContentLength;
        return Fail;
      }
      contentLength := contentLength * 10;
      contentLength := contentLength + DigitValue(ch);
      return Go;
    }

    /** One letter of a word that is being matched, in a value. */
    method MatchValueChar(name: string, c: byte, hState: HState, miss: HState, hit: HState) returns (h: HState)
      requires |name| >= 1
      modifies `index
      ensures index == Next7(old(index))
      ensures h == if index > |name| || c != CharAt(name, index) then miss
                   else if index == |name| - 1 then hit else hState
    {
      hide CharAt, Next7;
      index := Next7(index);
      if index > |name| || c != CharAt(name, index) {
        return miss;
      }
      h := if index == |name| - 1 then hit else hState;
    }

    /** The byte after a word of a Connection: a comma sets the word's flag. */
    method OnTokenEnd(ch: byte, hState: HState) returns (h: HState)
      modifies `flags, `index
      ensures Abs().(hstate := h) == ConnectionTokenEnd(old(Abs()).(hstate := hState), ch)
    {
      if ch == ',' {
        if hState.ConnectionKeepAlive? {
          flags := flags.(keepAlive := true);
        } else if hState.ConnectionClose? {
          flags := flags.(close := true);
        } else if hState.ConnectionUpgrade? {
          flags := flags.(connectionUpgrade := true);
        }
        index := 0;
        return MatchingConnectionTokenStart;
      }
      h := if ch != ' ' then MatchingConnectionToken else hState;
    }

    /** One turn of the loop over a value, at a byte that does not end the line.  `lost` tells that the line end
        was not looked for in the whole buffer. */
    method OnValueByte(data: bytes, p: nat, hState: HState)
      returns (q: nat, h: HState, out: Outcome, ghost shadow: bool, ghost lost: bool)
      requires p < |data| && data[p] != CR && data[p] != LF && OnlyMark(marks, OnHeaderValue, p)
      requires state.HeaderValue? && Ready(Abs().(hstate := hState))
      modifies `errno, `hstate, `index, `flags, `contentLength
      ensures !out.Exit? && errno != HeaderOverflow && (lost ==> out.Go?) && (out.Fail? ==> errno != Ok)
      ensures out.Fail? ==>
                Stopped(RunFrom(hc, Conn(old(Abs()).(hstate := hState), old(Seen(data, p)), false), data, p),
                        data, p, Fail)
      ensures out.Go? ==>
                && p < q <= |data| && errno == Ok && Ready(Abs().(hstate := h))
                && (lost ==> q == |data| && q - p > HTTP_MAX_HEADER_SIZE)
                && (shadow ==> q == |data| || data[q] == CR || data[q] == LF)
                && (!lost ==>
                      RunFrom(hc, Conn(old(Abs()).(hstate := hState), old(Seen(data, p)), false), data, p)
                      == RunFrom(hc, Conn(Abs().(hstate := h), Seen(data, q), shadow), data, q))
    {
      hide TraceAt, EmitAll, Emit, ValueChar, RunFrom, Valid;
      var ch := data[p];
      ghost var s, t := Abs().(hstate := hState), Seen(data, p);
      q, h, shadow, lost := p + 1, hState, false, false;
      TraceGrows(log, marks, data, p, p + 1, OnHeaderValue);
      assert data[p..p + 1] == [ch];
      if !lenient && !IsHeaderChar(ch) {
        ValueRefused(hc, s, t, data, p);
        errno := InvalidHeaderToken;
        out := Fail;
        return;
      }
      out := Go;
      if hState.General? {
        var limit := Min(|data| - p, HTTP_MAX_HEADER_SIZE);
        q := NextLineEnd(data, p, limit);
        lost := q == |data| && |data| - p > limit;
        shadow := true;
        if !lost {
          ValueRun(hc, s, t, data, p, q, false);
          TraceGrows(log, marks, data, p, q, OnHeaderValue);
        }
        return;
      }
      ValueStays(s, ch);
      ValueStep(hc, s, t, data, p);
      h, out := OnValueChar(ch, hState);
      if out.Fail? {
        hstate := h;
      }
    }

    /** The loop of lines 1510-1687, up to the end of the line, of the buffer or of the parse. */
    method OnValueLine(data: bytes, p0: nat)
      returns (p: nat, h: HState, out: Outcome, ghost shadow: bool, ghost lost: bool)
      requires p0 < |data| && OnlyMark(marks, OnHeaderValue, p0) && state.HeaderValue? && Ready(Abs())
      modifies `errno, `hstate, `index, `flags, `contentLength
      ensures p0 <= p <= |data| && !out.Exit? && errno != HeaderOverflow && (out.Fail? ==> errno != Ok)
      ensures lost ==> out.Go? && p == |data| && p - p0 > HTTP_MAX_HEADER_SIZE
      ensures out.Fail? ==>
                p < |data|
                && Stopped(RunFrom(hc, Conn(old(Abs()), old(Seen(data, p0)), false), data, p0), data, p, Fail)
      ensures out.Go? ==>
                && (p < |data| ==> data[p] == CR || data[p] == LF)
                && errno == Ok && Ready(Abs().(hstate := h))
                && (!lost ==>
                      RunFrom(hc, Conn(old(Abs()), old(Seen(data, p0)), false), data, p0)
                      == RunFrom(hc, Conn(Abs().(hstate := h), Seen(data, p), shadow), data, p))
    {
      hide *;
      ghost var c0 := Conn(Abs(), Seen(data, p0), false);
      SameConn(c0, data, p0, hstate);
      p, h, out, shadow, lost := p0, hstate, Go, false, false;
      while p < |data| && data[p] != CR && data[p] != LF
        invariant p0 <= p <= |data| && out.Go?
        invariant errno == Ok && Ready(Abs().(hstate := h))
        invariant lost ==> p == |data| && p - p0 > HTTP_MAX_HEADER_SIZE
        invariant shadow ==> p == |data| || data[p] == CR || data[p] == LF
        invariant !lost ==>
            RunFrom(hc, c0, data, p0) == RunFrom(hc, Conn(Abs().(hstate := h), Seen(data, p), shadow), data, p)
      {
        var q;
        MarkLater(marks, OnHeaderValue, p0, p);
        q, h, out, shadow, lost := OnValueByte(data, p, h);
        if out.Fail? {
          return;
        }
        p := q;
      }
    }

    lemma SameConn(c0: Conn, data: bytes, p: nat, h: HState)
      requires c0 == Conn(Abs(), Seen(data, p), false) && h == hstate && Ready(Abs()) && p <= |data|
      ensures errno == Ok && Abs().(hstate := h) == Abs()
    {
    }

    /** The line of the value ends in this buffer. */
    method OnLineEnd(data: bytes, p0: nat, p: nat, h: HState, ghost c0: Conn, ghost shadow: bool)
      returns (out: Outcome)
      requires p0 <= p < |data| && (data[p] == CR || data[p] == LF) && OnlyMark(marks, OnHeaderValue, p)
      requires state.HeaderValue? && errno == Ok && Ready(Abs().(hstate := h))
      requires RunFrom(hc, c0, data, p0) == RunFrom(hc, Conn(Abs().(hstate := h), Seen(data, p), shadow), data, p)
      modifies `state, `errno, `hstate, `nread, `marks, `log
      ensures !out.Exit? && Onward(out) && (errno == HeaderOverflow ==> out.Fail?)
      ensures out.Go? ==> MarksOk(state, marks, p + 1, |data|)
      ensures errno != HeaderOverflow ==> Ran(c0, data, p0, p, out, false)
      ensures nread == Add32(old(nread), p - p0) && (errno == HeaderOverflow ==> nread > HTTP_MAX_HEADER_SIZE)
    {
      hide TraceAt, EmitAll, Emit, RunFrom, Ready, MarksOk, Onward, Ran, OnlyMark, Seen;
      ghost var s, t := Abs().(hstate := h), Seen(data, p);
      out := OnValueEnd(data, p, p0, h);
      if out.Go? {
        LineEnded(data, p0, p, c0, s, t, shadow);
      } else {
        FailedOnward();
      }
    }

    lemma LineEnded(data: bytes, p0: nat, p: nat, c0: Conn, s: Parser, t: seq<Event>, shadow: bool)
      requires p0 <= p < |data| && (data[p] == CR || data[p] == LF) && s.state.HeaderValue? && Ready(s)
      requires RunFrom(hc, c0, data, p0) == RunFrom(hc, Conn(s, t, shadow), data, p)
      requires Abs() == s.(state := if data[p] == CR then HeaderAlmostDone else HeaderValueLws)
      requires Seen(data, p + 1) == Emit(t, Data(OnHeaderValue, [])) && marks == map[] && nread <= HTTP_MAX_HEADER_SIZE
      ensures MarksOk(state, marks, p + 1, |data|) && Onward(Go) && Ran(c0, data, p0, p, Go, false)
    {
      hide TraceAt, Emit, RunFrom, Ready, MarksOk, Onward, Ran, Seen;
      ValueEnd(hc, s, t, data, p, shadow);
      ValueLeaves(s);
      HeaderValueMark(marks, p + 1, |data|);
      assert state == Abs().state;
      GoneTo(c0, data, p0, p + 1, false);
    }

    /** The line goes on in the next buffer; `lost` tells that its end may have been passed over. */
    method OnLineOpen(data: bytes, p0: nat, h: HState, ghost c0: Conn, ghost shadow: bool, ghost lost: bool)
      returns (out: Outcome)
      requires p0 < |data| && OnlyMark(marks, OnHeaderValue, p0) && nread <= HTTP_MAX_HEADER_SIZE
      requires state.HeaderValue? && errno == Ok && Ready(Abs().(hstate := h))
      requires lost ==> |data| - p0 > HTTP_MAX_HEADER_SIZE
      requires !lost ==>
                 RunFrom(hc, c0, data, p0)
                 == RunFrom(hc, Conn(Abs().(hstate := h), Seen(data, |data|), shadow), data, |data|)
      modifies `errno, `hstate, `nread
      ensures !out.Exit? && Onward(out) && (errno == HeaderOverflow ==> out.Fail?)
      ensures MarksOk(state, marks, |data|, |data|)
      ensures errno != HeaderOverflow && Small(data) ==> Ran(c0, data, p0, |data| - 1, out, shadow)
      ensures nread == Add32(old(nread), |data| - p0) && (errno == HeaderOverflow ==> nread > HTTP_MAX_HEADER_SIZE)
    {
      hide TraceAt, EmitAll, Emit, RunFrom, Ready, MarksOk, Onward, Ran, OnlyMark, Add32;
      HeaderValueMark(marks, p0, |data|);
      hstate := h;
      var overflow := CountHeaderSize(|data| - p0);
      if overflow {
        FailedOnward();
        return Fail;
      }
      GoneOnward();
      if !lost {
        GoneTo(c0, data, p0, |data|, shadow);
      }
      return Go;
    }

    method OnValue(data: bytes, p0: nat) returns (p: nat, out: Outcome, ghost shadow: bool)
      requires p0 < |data| && AtByte(data, p0) && state.HeaderValue?
      modifies `state, `errno, `hstate, `index, `flags, `contentLength, `nread, `marks, `log
      ensures errno == HeaderOverflow ==> out.Fail?
      ensures p0 <= p < |data| && !out.Exit? && Onward(out)
      ensures out.Go? ==> MarksOk(state, marks, p + 1, |data|)
      ensures errno != HeaderOverflow && Small(data) ==>
                Ran(Conn(old(Abs()), old(Seen(data, p0)), false), data, p0, p, out, shadow)
      ensures shadow ==> p == |data| - 1
      ensures Small(data) ==> Counted(old(nread), p0, p, |data|, out)
    {
      hide *;
      BetweenBytes(data, p0);
      InHeaderValue(data, p0);
      ghost var n := nread;
      var h;
      ghost var c0, lost := Conn(Abs(), Seen(data, p0), false), false;
      p, h, out, shadow, lost := OnValueLine(data, p0);
      if out.Fail? {
        shadow := false;
        FailedOnward();
        StoppedRan(c0, data, p0, p);
        NotCounted(n, p0, p, |data|);
      } else if p < |data| {
        MarkLater(marks, OnHeaderValue, p0, p);
        out := OnLineEnd(data, p0, p, h, c0, shadow);
        shadow := false;
        LineCounted(data, n, p0, p, p - p0, out);
      } else {
        out := OnLineOpen(data, p0, h, c0, shadow, lost);
        LineCounted(data, n, p0, |data| - 1, |data| - p0, out);
        p := p - 1;
      }
    }

    lemma NotCounted(n: nat, p0: nat, p: nat, size: nat)
      requires errno != HeaderOverflow && p0 <= p
      ensures Counted(n, p0, p, size, Fail)
    {
    }

    lemma NameCounted(data: bytes, n: nat, p0: nat, p: nat, out: Outcome)
      requires n <= HTTP_MAX_HEADER_SIZE && p0 <= p <= |data|
      requires nread == Add32(n, p - p0) || (p + 1 == |data| && nread == Add32(n, p + 1 - p0))
      requires errno == HeaderOverflow ==> nread == Add32(n, p - p0) > HTTP_MAX_HEADER_SIZE
      ensures Small(data) ==> Counted(n, p0, p, |data|, out)
    {
    }

    lemma LineCounted(data: bytes, n: nat, p0: nat, p: nat, k: nat, out: Outcome)
      requires n <= HTTP_MAX_HEADER_SIZE && p0 <= p < |data| && nread == Add32(n, k)
      requires k == p - p0 || (k == p + 1 - p0 && p + 1 == |data|)
      requires errno == HeaderOverflow ==> nread > HTTP_MAX_HEADER_SIZE
      ensures Small(data) ==> Counted(n, p0, p, |data|, out)
    {
    }

    lemma InHeaderValue(data: bytes, p: nat)
      requires AtByte(data, p) && state.HeaderValue?
      ensures OnlyMark(marks, OnHeaderValue, p)
    {
    }

    lemma GoneOnward()
      requires Ready(Abs()) && nread <= HTTP_MAX_HEADER_SIZE && (state.ChunkSizeStart? ==> nread == 0)
      ensures Onward(Go)
    {
    }

    lemma StoppedRan(c0: Conn, data: bytes, i: nat, p: nat)
      requires i <= p < |data| && Stopped(RunFrom(hc, c0, data, i), data, p, Fail)
      ensures Ran(c0, data, i, p, Fail, false)
    {
      hide RunFrom, TraceAt;
    }

    // -------------------------------------------------------------- http_parser_execute

    /** The states whose code handles one byte of the buffer. */
    method OnByte(data: bytes, p: nat) returns (out: Outcome)
      requires p < |data| && AtByte(data, p) && !Loops(state)
      modifies this
      ensures Did(Step(hc, old(Abs()), data[p], false), old(Seen(data, p)), data, p, out)
      ensures nread == 0 || nread == old(nread)
    {
      hide Did, AtByte, MarksOk, TraceAt, FieldByte, ValueByte, FieldStartByte, HeadersAlmostDoneByte, DiscardLwsByte,
        ValueLwsByte, DiscardWsByte, UrlByte, StatusByte, StatusLineByte, RequestLineByte, ChunkByte, StartReqByte,
        StartReqOrResByte, StartResByte, ChunkDataByte, BodyIdentityByte, HeaderAlmostDoneByte;
      SingleByte(data, p);
      if InUrl(state) {
        out := OnUrlByte(data, p);
      } else if state.StartReqOrRes? {
        out := OnStartReqOrRes(data, p);
      } else if state.StartRes? {
        out := OnStartRes(data, p);
      } else if state.StartReq? {
        out := OnStartReq(data, p);
      } else if state.ResStatusStart? {
        out := OnStatusStart(data, p);
      } else if state.ResStatus? {
        out := OnStatusByte(data, p);
      } else if state.ReqSpacesBeforeUrl? {
        out := OnUrlStart(data, p);
      } else if state.HeaderFieldStart? {
        out := OnFieldStart(data, p);
      } else if state.HeaderValueDiscardWs? {
        out := OnDiscardWs(data, p);
      } else if state.HeaderValueDiscardLws? {
        out := OnDiscardLws(data, p);
      } else if state.HeaderValueLws? {
        out := OnValueLws(data, p);
      } else if state.HeadersAlmostDone? {
        out := OnHeadersAlmostDone(data, p);
      } else if state.ChunkSizeAlmostDone? {
        out := OnChunkSizeAlmostDone(data, p);
      } else if state.ChunkDataAlmostDone? {
        out := OnChunkDataAlmostDone(data, p);
      } else if state.ChunkDataDone? {
        out := OnChunkDataDone(data, p);
      } else {
        out := OnQuiet(data, p);
      }
    }

    /** What the methods of `OnByte` ask for. */
    lemma SingleByte(data: bytes, p: nat)
      requires p < |data| && AtByte(data, p) && !Loops(state)
      ensures MarksOk(state, marks, p, |data|)
      ensures !state.ResStatus? && !InUrl(state) && !state.ChunkDataAlmostDone? ==> marks == map[]
      ensures !state.HeaderValueStart? && !state.HeadersDone? && !state.MessageDone?
    {
    }

    /** The marks that a buffer starts with. */
    method SetMarks(data: bytes)
      modifies `marks
      ensures MarksOk(state, marks, 0, |data|) && Seen(data, 0) == Merge(log)
    {
      marks := map[];
      if state.HeaderField? {
        Mark(OnHeaderField, 0);
      }
      if state.HeaderValue? {
        Mark(OnHeaderValue, 0);
      }
      if InUrl(state) {
        Mark(OnUrl, 0);
      } else if state.ResStatus? {
        Mark(OnStatus, 0);
      }
      TraceStart(log, marks, data);
    }

    /** The calls that are due at the end of a buffer; at most one mark is set (line 2071). */
    method Flush(data: bytes)
      requires MarksOk(state, marks, |data|, |data|) && data != []
      modifies `marks, `log
      ensures marks == map[] && Merge(log) == old(Seen(data, |data|))
    {
      AtMostOneMark(state, marks, |data|, |data|);
      hide TraceAt, EmitAll, Emit, MarksOk;
      if marks == map[] {
        TraceNone(log, data, |data|);
      } else {
        ghost var k :| k in marks;
        TraceOnly(log, marks, data, |data|, k);
        MergeSnoc(log, Data(k, data[marks[k]..|data|]));
      }
      CallbackData(OnHeaderField, data, |data|);
      CallbackData(OnHeaderValue, data, |data|);
      CallbackData(OnUrl, data, |data|);
      CallbackData(OnBody, data, |data|);
      CallbackData(OnStatus, data, |data|);
    }

    /** What holds between calls: the parser has failed, or is ready for the next buffer. */
    ghost predicate Usable()
      reads this
    {
      errno == Ok ==> Valid(Abs()) && nread <= HTTP_MAX_HEADER_SIZE && (state.ChunkSizeStart? ==> nread == 0)
    }

    /** The run over `data` from the state between calls. */
    ghost function RunOver(data: bytes): RunResult
      reads this
    {
      RunFrom(hc, Conn(Abs(), Merge(log), false), data, 0)
    }

    method Execute(data: bytes) returns (nparsed: nat)
      requires Usable()
      modifies this
      ensures Usable() && nparsed <= |data| + 1
      ensures old(errno) != Ok ==> nparsed == 0 && Abs() == old(Abs()) && log == old(log)
      ensures old(errno) == Ok && data == [] ==>
                AtEof(old(Abs()), old(log), Abs(), log, nparsed)
      ensures old(errno) == Ok && data != [] && Small(data) && errno != HeaderOverflow ==>
                Agrees(old(RunOver(data)), Abs(), log, nparsed)
      ensures old(errno) == Ok && Small(data) && errno == HeaderOverflow ==>
                old(nread) + |data| + 1 > HTTP_MAX_HEADER_SIZE
      ensures old(errno) == Ok && Small(data) && errno == Ok ==> nread <= old(nread) + |data| + 1
    {
      if errno != Ok {
        return 0;
      }
      if |data| == 0 {
        if state.BodyIdentityEof? {
          CallbackNotify(OnMessageComplete);
          return 0;
        }
        if state.Dead? || state.StartReqOrRes? || state.StartRes? || state.StartReq? {
          return 0;
        }
        errno := InvalidEofState;
        return 1;
      }
      SetMarks(data);
      var p, out := Loop(data);
      if out.Go? {
        Flush(data);
      } else if errno != HeaderOverflow && Small(data) {
        if out.Fail? {
          TraceLacksOneRun(log, marks, data, p);
        } else {
          TraceNone(log, data, p);
        }
      }
      nparsed := p;
    }

    /** The loop of line 702. */
    method Loop(data: bytes) returns (p: nat, out: Outcome)
      requires AtByte(data, 0) && (state.ChunkSizeStart? ==> nread == 0)
      modifies this
      ensures p <= |data| && Onward(out) && (errno == HeaderOverflow ==> out.Fail?)
      ensures out.Go? ==> p == |data| && MarksOk(state, marks, p, p)
      ensures out.Exit? ==> marks == map[]
      ensures errno != HeaderOverflow && Small(data) ==>
                Stopped(RunFrom(hc, Conn(old(Abs()), old(Seen(data, 0)), false), data, 0), data, p, out)
      ensures Small(data) ==> WithinSize(old(nread), |data|, out)
    {
      hide *;
      BetweenBytes(data, 0);
      ghost var n := nread;
      ghost var r := RunFrom(hc, Conn(Abs(), Seen(data, 0), false), data, 0);
      ghost var shadow := false;
      p := 0;
      while p < |data|
        invariant p <= |data| && errno == Ok
        invariant AtByte(data, p) && (state.ChunkSizeStart? ==> nread == 0)
        invariant shadow ==> p == |data|
        invariant Small(data) ==> r == RunFrom(hc, Conn(Abs(), Seen(data, p), shadow), data, p)
        invariant Small(data) ==> nread <= n + p + if p == |data| then 1 else 0
      {
        ghost var c, i := Conn(Abs(), Seen(data, p), false), p;
        ghost var header, before := ParsingHeader(state), nread;
        p, out, shadow := Turn(data, p);
        if Small(data) {
          TurnWithin(header, n, before, i, p, |data|, out);
        }
        if errno != HeaderOverflow && Small(data) {
          RanOn(c, data, i, p, out, shadow);
        }
        if out.Fail? {
          return;
        }
        if out.Exit? {
          p := p + 1;
          return;
        }
        p := p + 1;
        OnwardAt(data, p);
      }
      out := Go;
      LoopEnds(data, shadow);
      EndWithin(n, |data|);
    }

    /** The counter does not pass the bytes of the buffer by more than one, and the parser fails for the size of the
        header only if these take it past the limit. */
    ghost predicate WithinSize(n: nat, size: nat, out: Outcome)
      reads this
    {
      && (errno == HeaderOverflow ==> n + size + 1 > HTTP_MAX_HEADER_SIZE)
      && (!out.Fail? ==> nread <= n + size + 1)
    }

    lemma TurnWithin(header: bool, n: nat, before: nat, i: nat, p: nat, size: nat, out: Outcome)
      requires CountedTurn(header, before, i, p, size, out) && i <= p <= size && i < size && (p < size || out.Fail?)
      requires before <= n + i
      ensures errno == HeaderOverflow ==> n + size + 1 > HTTP_MAX_HEADER_SIZE
      ensures out.Go? ==> nread <= n + (p + 1) + if p + 1 == size then 1 else 0
      ensures !out.Go? ==> WithinSize(n, size, out)
    {
    }

    lemma EndWithin(n: nat, size: nat)
      ensures errno == Ok && nread <= n + size + 1 ==> WithinSize(n, size, Go)
    {
    }

    lemma BetweenBytes(data: bytes, p: nat)
      requires AtByte(data, p)
      ensures errno == Ok && Ready(Abs()) && nread <= HTTP_MAX_HEADER_SIZE && MarksOk(state, marks, p, |data|)
    {
    }

    lemma OnwardAt(data: bytes, p: nat)
      requires Onward(Go) && MarksOk(state, marks, p, |data|)
      ensures AtByte(data, p) && (state.ChunkSizeStart? ==> nread == 0)
      ensures errno == Ok
    {
    }

    lemma RanOn(c0: Conn, data: bytes, i: nat, p: nat, out: Outcome, shadow: bool)
      requires i <= |data| && Ran(c0, data, i, p, out, shadow)
      ensures p < |data|
      ensures match out
              case Go => RunFrom(hc, c0, data, i) == RunFrom(hc, Conn(Abs(), Seen(data, p + 1), shadow), data, p + 1)
              case Fail => Stopped(RunFrom(hc, c0, data, i), data, p, Fail)
              case Exit => Stopped(RunFrom(hc, c0, data, i), data, p + 1, Exit)
    {
      hide RunFrom, TraceAt, Abs, SameButStale;
    }

    lemma LoopEnds(data: bytes, shadow: bool)
      requires AtByte(data, |data|) && (state.ChunkSizeStart? ==> nread == 0)
      ensures Onward(Go) && MarksOk(state, marks, |data|, |data|)
      ensures Stopped(RunFrom(hc, Conn(Abs(), Seen(data, |data|), shadow), data, |data|), data, |data|, Go)
    {
      hide RunFrom, TraceAt, MarksOk;
      RunEnds(hc, Conn(Abs(), Seen(data, |data|), shadow), data);
    }

    /** One turn of the loop. */
    method Turn(data: bytes, p0: nat) returns (p: nat, out: Outcome, ghost shadow: bool)
      requires p0 < |data| && AtByte(data, p0) && (state.ChunkSizeStart? ==> nread == 0)
      modifies this
      ensures errno == HeaderOverflow ==> out.Fail?
      ensures p0 <= p <= |data| && (p < |data| || out.Fail?) && (shadow ==> p == |data| - 1) && Onward(out)
      ensures errno != HeaderOverflow && Small(data) ==>
                Ran(Conn(old(Abs()), old(Seen(data, p0)), false), data, p0, p, out, shadow)
      ensures out.Go? ==> MarksOk(state, marks, p + 1, |data|)
      ensures out.Exit? ==> marks == map[]
      ensures Small(data) ==> CountedTurn(old(ParsingHeader(state)), old(nread), p0, p, |data|, out)
    {
      hide *;
      BetweenBytes(data, p0);
      BodyStates(state);
      ghost var header, line, n := ParsingHeader(state), InLine(state), nread;
      out := Count(data, p0);
      if out.Fail? {
        p, shadow := p0, false;
        FailedOnward();
        CountedFirst(header, n, p0, |data|);
        return;
      }
      p, out, shadow := Advance(data, p0);
      if Small(data) {
        CountedRest(header, line, n, p0, p, |data|, out);
      }
    }

    /** What a turn from byte `p0` to byte `p` adds to the counter in the states that count: the number of bytes that
        it has passed, and one more if the buffer ends inside a header line; unless the counter starts afresh.  It
        fails for the size of the header only if this takes the counter past the limit. */
    ghost predicate CountedTurn(header: bool, n: nat, p0: nat, p: nat, size: nat, out: Outcome)
      reads this
    {
      && (errno == HeaderOverflow ==> header && n + 1 + (Min(p + 1, size) - p0) > HTTP_MAX_HEADER_SIZE)
      && (!out.Fail? && header ==>
            nread == 0 || nread == n + (p + 1 - p0) || (p + 1 == size && nread == n + (p + 2 - p0)))
      && (!out.Fail? && !header ==> nread == 0 || nread == n)
    }

    lemma CountedFirst(header: bool, n: nat, p0: nat, size: nat)
      requires nread == n + (if header then 1 else 0) && n <= HTTP_MAX_HEADER_SIZE && p0 < size
      requires errno == HeaderOverflow ==> nread > HTTP_MAX_HEADER_SIZE
      ensures CountedTurn(header, n, p0, p0, size, Fail)
    {
    }

    lemma CountedRest(header: bool, line: bool, n: nat, p0: nat, p: nat, size: nat, out: Outcome)
      requires Advanced(line, n + if header then 1 else 0, p0, p, size, out)
      requires p0 < size && p0 <= p <= size && (line ==> header) && (header && !line ==> p == p0)
      ensures CountedTurn(header, n, p0, p, size, out)
    {
    }

    /** Lines 705-706, and the assertions of lines 1936-1937. */
    method Count(data: bytes, p: nat) returns (out: Outcome)
      requires p < |data| && AtByte(data, p) && (state.ChunkSizeStart? ==> nread == 0)
      modifies `nread, `errno
      ensures if errno == HeaderOverflow then out.Fail? else out.Go? && AtByte(data, p) && Abs() == old(Abs())
      ensures Seen(data, p) == old(Seen(data, p))
      ensures nread == old(nread) + if ParsingHeader(state) then 1 else 0
      ensures errno == HeaderOverflow ==> nread > HTTP_MAX_HEADER_SIZE
    {
      hide MarksOk;
      if ParsingHeader(state) {
        var overflow := CountHeaderSize(1);
        if overflow {
          return Fail;
        }
      }
      assert state.ChunkSizeStart? ==> nread == 1 && flags.chunked;
      return Go;
    }

    /** A state that handles one byte, as a run over that byte. */
    method OnSingle(data: bytes, p: nat) returns (out: Outcome)
      requires p < |data| && AtByte(data, p) && !Loops(state)
      modifies this
      ensures errno != HeaderOverflow && Onward(out)
      ensures Ran(Conn(old(Abs()), old(Seen(data, p)), false), data, p, p, out, false)
      ensures nread == 0 || nread == old(nread)
    {
      ghost var c0 := Conn(Abs(), Seen(data, p), false);
      hide RunFrom, TraceAt, EmitAll, Emit, Step, MarksOk, Valid;
      StepKeepsValid(hc, c0.s, data[p], false);
      RunUnfolds(hc, c0, data, p);
      out := OnByte(data, p);
    }

    /** The switch of line 709. */
    method Advance(data: bytes, p0: nat) returns (p: nat, out: Outcome, ghost shadow: bool)
      requires p0 < |data| && AtByte(data, p0)
      modifies this
      ensures errno == HeaderOverflow ==> out.Fail?
      ensures p0 <= p <= |data| && (p < |data| || out.Fail?) && (shadow ==> p == |data| - 1) && Onward(out)
      ensures errno != HeaderOverflow && Small(data) ==>
                Ran(Conn(old(Abs()), old(Seen(data, p0)), false), data, p0, p, out, shadow)
      ensures out.Go? ==> MarksOk(state, marks, p + 1, |data|)
      ensures out.Exit? ==> marks == map[]
      ensures Small(data) ==> Advanced(old(InLine(state)), old(nread), p0, p, |data|, out)
      ensures old(ParsingHeader(state)) && !old(InLine(state)) ==> p == p0
    {
      hide *;
      BetweenBytes(data, p0);
      BodyUnmarked(data, p0);
      ghost var n := nread;
      InLineExact(state);
      BodyStates(state);
      ghost var c0 := Conn(Abs(), Seen(data, p0), false);
      p, shadow := p0, false;
      if state.HeaderValue? {
        p, out, shadow := OnValue(data, p0);
        AdvancedLine(n, p0, p, |data|, out);
        return;
      }
      if state.HeaderField? {
        p, out := OnField(data, p0);
        NameCounted(data, n, p0, p, out);
        AdvancedLine(n, p0, p, |data|, out);
      } else if state.BodyIdentity? {
        p, out := OnBodyIdentity(data, p0);
      } else if state.BodyIdentityEof? {
        p, out := OnBodyIdentityEof(data, p0);
      } else if state.ChunkData? {
        p, out := OnChunkData(data, p0);
      } else {
        StateLooped(state);
        out := OnSingle(data, p0);
      }
      AdvancedElse(n, p0, p, |data|, out);
      if errno != HeaderOverflow {
        RanMarks(c0, data, p0, p, out);
      }
    }

    /** The two states with a loop that counts. */
    predicate InLine(st: State) {
      st.HeaderField? || st.HeaderValue?
    }

    /** What a state has done to the counter. */
    ghost predicate Advanced(line: bool, n: nat, p0: nat, p: nat, size: nat, out: Outcome)
      reads this
    {
      if line then Counted(n, p0, p, size, out) else errno != HeaderOverflow && (nread == 0 || nread == n)
    }

    lemma AdvancedLine(n: nat, p0: nat, p: nat, size: nat, out: Outcome)
      ensures Counted(n, p0, p, size, out) ==> Advanced(true, n, p0, p, size, out)
    {
    }

    lemma AdvancedElse(n: nat, p0: nat, p: nat, size: nat, out: Outcome)
      ensures errno != HeaderOverflow && (nread == 0 || nread == n) ==> Advanced(false, n, p0, p, size, out)
    {
    }

    lemma BodyStates(st: State)
      ensures st.BodyIdentity? || st.BodyIdentityEof? || st.ChunkData? ==> !ParsingHeader(st)
      ensures InLine(st) ==> ParsingHeader(st)
    {
    }

    lemma InLineExact(st: State)
      ensures InLine(st) <==> st.HeaderField? || st.HeaderValue?
    {
    }

    lemma StateLooped(st: State)
      requires !st.HeaderField? && !st.HeaderValue? && !st.BodyIdentity? && !st.BodyIdentityEof? && !st.ChunkData?
      ensures !Loops(st)
    {
    }

    lemma BodyUnmarked(data: bytes, p: nat)
      requires AtByte(data, p) && p < |data|
      ensures state.BodyIdentity? || state.BodyIdentityEof? || state.ChunkData? ==> marks == map[]
    {
    }

    lemma RanMarks(c0: Conn, data: bytes, i: nat, p: nat, out: Outcome)
      requires i <= |data| && Ran(c0, data, i, p, out, false)
      ensures p < |data| && (out.Go? ==> MarksOk(state, marks, p + 1, |data|)) && (out.Exit? ==> marks == map[])
    {
      hide RunFrom, TraceAt, MarksOk, Abs, SameButStale;
    }

    /** Without marks nothing is due, and no callback leaves the trace as it is. */
    lemma Unmoved(data: bytes, p: nat)
      requires marks == map[]
      ensures Seen(data, p) == Merge(log) == Seen(data, p + 1)
      ensures EmitAll(Seen(data, p), []) == Seen(data, p)
    {
      TraceNone(log, data, p);
      TraceNone(log, data, p + 1);
      EmitNone(Seen(data, p));
    }

    /** What a notification adds to the trace. */
    lemma Notified(n: Notification, data: bytes, p: nat)
      requires marks == map[]
      ensures Merge(log + [Notify(n, Abs())]) == Emit(Seen(data, p), Notify(n, Abs()))
      ensures EmitAll(Seen(data, p), [Notify(n, Abs())]) == Emit(Seen(data, p), Notify(n, Abs()))
    {
      TraceNone(log, data, p);
      MergeSnoc(log, Notify(n, Abs()));
      EmitOne(Seen(data, p), Notify(n, Abs()));
    }
  }

  /** `memchr`: the first `c` among the `limit` bytes from `p`, or `None`. */
  method MemChr(data: bytes, p: nat, c: byte, limit: nat) returns (found: bool, q: nat)
    requires p + limit <= |data|
    ensures found ==> p <= q < p + limit && data[q] == c && forall i :: p <= i < q ==> data[i] != c
    ensures !found ==> forall i :: p <= i < p + limit ==> data[i] != c
  {
    q := p;
    while q < p + limit
      invariant p <= q <= p + limit
      invariant forall i :: p <= i < q ==> data[i] != c
    {
      if data[q] == c {
        return true, q;
      }
      q := q + 1;
    }
    found := false;
  }

  predicate NoLineEnd(data: bytes, p: nat, q: nat) {
    forall i :: p <= i < q <= |data| ==> data[i] != CR && data[i] != LF
  }

  /** Where the line ends, if it does within `limit` bytes; the end of the buffer otherwise (lines 1537-1555). */
  method NextLineEnd(data: bytes, p: nat, limit: nat) returns (q: nat)
    requires p + limit <= |data| && limit > 0 && data[p] != CR && data[p] != LF
    ensures p < q <= |data|
    ensures q < |data| ==> (data[q] == CR || data[q] == LF) && NoLineEnd(data, p, q)
    ensures q == |data| ==> NoLineEnd(data, p, p + limit)
  {
    var hasCr, pCr := MemChr(data, p, CR, limit);
    var hasLf, pLf := MemChr(data, p, LF, limit);
    if hasCr {
      if hasLf && pCr >= pLf {
        q := pLf;
      } else {
        q := pCr;
      }
    } else if hasLf {
      q := pLf;
    } else {
      q := |data|;
    }
  }

  /** The states whose code reads on in the buffer. */
  predicate Loops(st: State) {
    st.HeaderField? || st.HeaderValue? || st.BodyIdentity? || st.BodyIdentityEof? || st.ChunkData?
  }

  /** The states whose code changes fields only. */
  predicate Quiet(st: State) {
    && !st.StartReqOrRes? && !st.StartRes? && !st.StartReq? && !st.ResStatusStart? && !st.ResStatus?
    && !st.ReqSpacesBeforeUrl? && !InUrl(st)
    && !st.HeaderFieldStart? && !st.HeaderField? && !st.HeaderValueDiscardWs? && !st.HeaderValueDiscardLws?
    && !st.HeaderValueStart? && !st.HeaderValue? && !st.HeaderValueLws? && !st.HeadersAlmostDone?
    && !st.HeadersDone? && !st.MessageDone? && !st.BodyIdentity? && !st.BodyIdentityEof?
    && !st.ChunkData? && !st.ChunkDataAlmostDone? && !st.ChunkDataDone? && !st.ChunkSizeAlmostDone?
  }

  /** The states in which no mark needs to be set. */
  predicate Unmarked(st: State) {
    !st.HeaderField? && !st.HeaderValue? && !st.ResStatus? && !InUrl(st)
  }

  /** A step that changes fields only. */
  predicate IsQuiet(r: StepResult) {
    r.evs == [] && !r.out.Exit? && (r.out.Go? ==> Unmarked(r.s.state) && !r.s.state.ChunkSizeStart?)
  }

  lemma {:induction false} QuietStep(hc: Parser -> HeadersAnswer, s: Parser, ch: byte)
    requires Ready(s) && Quiet(s.state)
    ensures IsQuiet(Step(hc, s, ch, false))
  {
    hide IsQuiet, StatusLineByte, RequestLineByte, ChunkByte, Expect, HeaderAlmostDoneByte;
    if InChunk(s.state) {
      QuietChunk(s, ch);
    } else if s.state.Dead? || s.state.HeaderAlmostDone? || s.state.HeaderValueDiscardWsAlmostDone? {
      QuietOther(hc, s, ch);
    } else if InStatusLine(s.state) {
      QuietStatusLine(s, ch);
    } else {
      QuietRequestLine(s, ch);
    }
  }

  /** Going on in a state that needs no mark is quiet, and so is failing. */
  lemma QuietTargets()
    ensures forall s: Parser, st: State :: Unmarked(st) && !st.ChunkSizeStart? ==> IsQuiet(To(s, st))
    ensures forall s: Parser, e: Errno :: IsQuiet(Err(s, e))
  {
  }

  lemma {:induction false} QuietOther(hc: Parser -> HeadersAnswer, s: Parser, ch: byte)
    requires s.state.Dead? || s.state.HeaderAlmostDone? || s.state.HeaderValueDiscardWsAlmostDone?
    ensures IsQuiet(Step(hc, s, ch, false))
  {
    QuietTargets();
    hide To, Err, IsQuiet;
  }

  lemma {:induction false} QuietChunk(s: Parser, ch: byte)
    requires s.state.ChunkSizeStart? || s.state.ChunkSize? || s.state.ChunkParameters?
    ensures IsQuiet(ChunkByte(s, ch))
  {
    QuietTargets();
    hide To, Err, IsQuiet;
  }

  lemma {:induction false} QuietStatusLine(s: Parser, ch: byte)
    requires InStatusLine(s.state)
    ensures IsQuiet(StatusLineByte(s, ch))
  {
    QuietTargets();
    hide To, Err, IsQuiet;
  }

  lemma {:induction false} QuietRequestLine(s: Parser, ch: byte)
    requires InRequestLine(s.state)
    ensures IsQuiet(RequestLineByte(s, ch))
  {
    QuietTargets();
    hide To, Err, IsQuiet;
  }

  lemma NamesLong()
    ensures |CONNECTION| >= 1 && |PROXY_CONNECTION| >= 1 && |CONTENT_LENGTH| >= 1 && |TRANSFER_ENCODING| >= 1
    ensures |CHUNKED| >= 1 && |KEEP_ALIVE| >= 1 && |CLOSE| >= 1 && |UPGRADE| >= 1
  {
  }

  lemma ValueStartEvents(s: Parser, ch: byte)
    ensures var r := ValueStartByte(s, ch);
            && !r.out.Exit? && r.s.state.HeaderValue?
            && r.evs == if r.out.Go? then [Data(OnHeaderValue, [ch])] else []
  {
  }

  lemma {:induction false} ValueStartPieces(s: Parser, ch: byte)
    ensures !ValueStartByte(s, ch).s.state.ChunkSizeStart?
  {
  }

  // ---------------------------------------------------------------- runs over body bytes

  /** `s` after `n` more bytes of a body that does not end with them. */
  function Taken(s: Parser, n: nat): Parser
    requires s.state.BodyIdentityEof? || n <= s.contentLength
  {
    if s.state.BodyIdentityEof? then s else s.(contentLength := s.contentLength - n)
  }

  lemma {:induction false} BodyRun(hc: Parser -> HeadersAnswer, s: Parser, t: seq<Event>, data: bytes, p: nat, q: nat)
    requires p < q <= |data|
    requires s.state.BodyIdentity? || s.state.ChunkData? || s.state.BodyIdentityEof?
    requires s.state.BodyIdentityEof? || q - p < s.contentLength
    ensures RunFrom(hc, Conn(s, t, false), data, p)
         == RunFrom(hc, Conn(Taken(s, q - p), Emit(t, Data(OnBody, data[p..q])), false), data, q)
    decreases q - p
  {
    hide RunFrom, Emit, EmitAll;
    RunUnfolds(hc, Conn(s, t, false), data, p);
    EmitOne(t, Data(OnBody, [data[p]]));
    assert data[p..p + 1] == [data[p]];
    var r := Step(hc, s, data[p], false);
    assert r == StepResult(Taken(s, 1), [Data(OnBody, [data[p]])], Go);
    if p + 1 < q {
      BodyRun(hc, Taken(s, 1), Emit(t, Data(OnBody, [data[p]])), data, p + 1, q);
      EmitJoins(t, OnBody, [data[p]], data[p + 1..q]);
      assert [data[p]] + data[p + 1..q] == data[p..q];
    }
  }

  /** The byte that ends a body of known length. */
  lemma {:induction false} BodyEnds(hc: Parser -> HeadersAnswer, s: Parser, t: seq<Event>, data: bytes, p: nat, q: nat)
    requires p <= q < |data| && s.state.BodyIdentity? && q + 1 - p == s.contentLength
    ensures var r := MessageDoneByte(s.(contentLength := 0, state := MessageDone));
            var c := Conn(r.s, EmitAll(Emit(t, Data(OnBody, data[p..q + 1])), r.evs), false);
            (RunFrom(hc, Conn(s, t, false), data, p)
             == if r.out.Go? then RunFrom(hc, c, data, q + 1) else RunResult(c, q + 1, r.out))
  {
    hide RunFrom, EmitAll, Emit, MessageDoneByte;
    var s1 := if p < q then Taken(s, q - p) else s;
    RunUnfolds(hc, Conn(s1, if p < q then Emit(t, Data(OnBody, data[p..q])) else t, false), data, q);
    var r := MessageDoneByte(s.(contentLength := 0, state := MessageDone));
    var t1 := if p < q then Emit(t, Data(OnBody, data[p..q])) else t;
    if p < q {
      BodyRun(hc, s, t, data, p, q);
    }
    LastByte(t, data, p, q);
    MessageDoneGoesOn(s.(contentLength := 0, state := MessageDone));
    EmitAllConcat(t1, [Data(OnBody, [data[q]])], r.evs);
    EmitOne(t1, Data(OnBody, [data[q]]));
  }

  lemma BodyStays(s: Parser, n: nat)
    requires Ready(s) && (s.state.BodyIdentity? || s.state.ChunkData?) && n <= s.contentLength
    ensures s.contentLength != 0 && s.contentLength != ULLONG_MAX && s.errno == Ok
    ensures n < s.contentLength ==> Ready(s.(contentLength := s.contentLength - n))
    ensures n == s.contentLength ==> Ready(s.(contentLength := 0, state := HeaderFieldStart))
    ensures n == s.contentLength && s.state.ChunkData? ==> Ready(s.(contentLength := 0, state := ChunkDataAlmostDone))
  {
  }

  lemma MessageDoneGoesOn(s: Parser)
    ensures !MessageDoneByte(s).out.Fail?
    ensures var st := MessageDoneByte(s).s.state; !st.HeaderValue? && !st.ChunkSizeStart?
  {
  }

  /** The byte that ends the data of a chunk. */
  lemma {:induction false} ChunkEnds(hc: Parser -> HeadersAnswer, s: Parser, t: seq<Event>, data: bytes, p: nat, q: nat)
    requires p <= q < |data| && s.state.ChunkData? && q + 1 - p == s.contentLength
    ensures var c := Conn(s.(contentLength := 0, state := ChunkDataAlmostDone),
                          Emit(t, Data(OnBody, data[p..q + 1])), false);
            RunFrom(hc, Conn(s, t, false), data, p) == RunFrom(hc, c, data, q + 1)
  {
    hide RunFrom, EmitAll, Emit;
    var s1 := if p < q then Taken(s, q - p) else s;
    RunUnfolds(hc, Conn(s1, if p < q then Emit(t, Data(OnBody, data[p..q])) else t, false), data, q);
    var t1 := if p < q then Emit(t, Data(OnBody, data[p..q])) else t;
    if p < q {
      BodyRun(hc, s, t, data, p, q);
    }
    LastByte(t, data, p, q);
    EmitOne(t1, Data(OnBody, [data[q]]));
  }

  lemma LastByte(t: seq<Event>, data: bytes, p: nat, q: nat)
    requires p <= q < |data|
    ensures var t1 := if p < q then Emit(t, Data(OnBody, data[p..q])) else t;
            Emit(t1, Data(OnBody, [data[q]])) == Emit(t, Data(OnBody, data[p..q + 1]))
  {
    if p < q {
      EmitJoins(t, OnBody, data[p..q], [data[q]]);
      assert data[p..q] + [data[q]] == data[p..q + 1];
    } else {
      assert data[p..q + 1] == [data[q]];
    }
  }

  // ---------------------------------------------------------------- runs over a header line

  lemma FieldStep(hc: Parser -> HeadersAnswer, s: Parser, t: seq<Event>, data: bytes, p: nat)
    requires p < |data| && s.state.HeaderField? && Token(data[p]) != '\0'
    ensures RunFrom(hc, Conn(s, t, false), data, p)
         == RunFrom(hc, Conn(FieldChar(s, data[p], Token(data[p])), Emit(t, Data(OnHeaderField, [data[p]])), false),
                    data, p + 1)
  {
    hide RunFrom, Emit, EmitAll, FieldChar;
    RunUnfolds(hc, Conn(s, t, false), data, p);
    EmitOne(t, Data(OnHeaderField, [data[p]]));
  }

  lemma FieldEnd(hc: Parser -> HeadersAnswer, s: Parser, t: seq<Event>, data: bytes, p: nat)
    requires p < |data| && s.state.HeaderField? && Token(data[p]) == '\0'
    ensures RunFrom(hc, Conn(s, t, false), data, p)
         == if data[p] == ':'
            then RunFrom(hc, Conn(s.(state := HeaderValueDiscardWs), Emit(t, Data(OnHeaderField, [])), false),
                         data, p + 1)
            else RunResult(Conn(s.(errno := InvalidHeaderToken), t, false), p, Fail)
  {
    hide RunFrom, Emit, EmitAll, FieldChar;
    RunUnfolds(hc, Conn(s, t, false), data, p);
    EmitOne(t, Data(OnHeaderField, []));
    EmitNone(t);
  }

  lemma ValueEnd(hc: Parser -> HeadersAnswer, s: Parser, t: seq<Event>, data: bytes, p: nat, shadow: bool)
    requires p < |data| && s.state.HeaderValue? && (data[p] == CR || data[p] == LF)
    ensures RunFrom(hc, Conn(s, t, shadow), data, p)
         == RunFrom(hc, Conn(s.(state := if data[p] == CR then HeaderAlmostDone else HeaderValueLws),
                             Emit(t, Data(OnHeaderValue, [])), false), data, p + 1)
  {
    hide RunFrom, Emit, EmitAll;
    RunUnfolds(hc, Conn(s, t, shadow), data, p);
    EmitOne(t, Data(OnHeaderValue, []));
    assert [Data(OnHeaderValue, [])] + [] == [Data(OnHeaderValue, [])];
  }

  lemma ValueRefused(hc: Parser -> HeadersAnswer, s: Parser, t: seq<Event>, data: bytes, p: nat)
    requires p < |data| && s.state.HeaderValue? && data[p] != CR && data[p] != LF
    requires !s.lenient && !IsHeaderChar(data[p])
    ensures RunFrom(hc, Conn(s, t, false), data, p)
         == RunResult(Conn(s.(errno := InvalidHeaderToken), t, false), p, Fail)
  {
    hide RunFrom, Emit, EmitAll;
    RunUnfolds(hc, Conn(s, t, false), data, p);
    EmitNone(t);
  }

  lemma ValueStep(hc: Parser -> HeadersAnswer, s: Parser, t: seq<Event>, data: bytes, p: nat)
    requires p < |data| && s.state.HeaderValue? && !s.hstate.General? && data[p] != CR && data[p] != LF
    requires s.lenient || IsHeaderChar(data[p])
    ensures var s1 := ValueChar(s, data[p]);
            (RunFrom(hc, Conn(s, t, false), data, p)
             == if s1.errno != Ok then RunResult(Conn(s1, t, false), p, Fail)
                else RunFrom(hc, Conn(s1, Emit(t, Data(OnHeaderValue, [data[p]])), false), data, p + 1))
  {
    hide RunFrom, Emit, EmitAll, ValueChar;
    RunUnfolds(hc, Conn(s, t, false), data, p);
    EmitNone(t);
    EmitOne(t, Data(OnHeaderValue, [data[p]]));
  }

  /** A value of no interest is read up to the end of the line without a look at its bytes. */
  lemma {:induction false} ValueRun(hc: Parser -> HeadersAnswer, s: Parser, t: seq<Event>, data: bytes,
                                    p: nat, q: nat, shadow: bool)
    requires p < q <= |data| && s.state.HeaderValue? && s.hstate.General? && s.errno == Ok
    requires NoLineEnd(data, p, q)
    requires s.lenient || shadow || IsHeaderChar(data[p])
    ensures RunFrom(hc, Conn(s, t, shadow), data, p)
         == RunFrom(hc, Conn(s, Emit(t, Data(OnHeaderValue, data[p..q])), true), data, q)
    decreases q - p
  {
    hide RunFrom, Emit, EmitAll;
    RunUnfolds(hc, Conn(s, t, shadow), data, p);
    EmitOne(t, Data(OnHeaderValue, [data[p]]));
    assert data[p..p + 1] == [data[p]];
    assert Step(hc, s, data[p], shadow) == StepResult(s, [Data(OnHeaderValue, [data[p]])], Go);
    if p + 1 < q {
      ValueRun(hc, s, Emit(t, Data(OnHeaderValue, [data[p]])), data, p + 1, q, true);
      EmitJoins(t, OnHeaderValue, [data[p]], data[p + 1..q]);
      assert [data[p]] + data[p + 1..q] == data[p..q];
    }
  }

  lemma ReadyOk(s: Parser)
    requires Ready(s)
    ensures s.errno == Ok
  {
  }

  /** In a field name, and after it. */
  lemma FieldOnward(s0: Parser, s: Parser)
    requires Ready(s0) && s0.state.HeaderField? && InField(s) && s.index < 128
    requires s == s0.(index := s.index, hstate := s.hstate)
    ensures Ready(s) && Ready(s.(state := HeaderValueDiscardWs)) && s.errno == Ok
  {
  }

  lemma MarkLater(marks: Marks, k: DataKind, p: nat, q: nat)
    requires OnlyMark(marks, k, p) && p <= q
    ensures OnlyMark(marks, k, q)
  {
  }

  /** The mark of a body, while it goes on and after the data of a chunk. */
  lemma BodyMark(marks: Marks, p: nat, end: nat)
    requires marks == map[OnBody := p]
    ensures OnlyMark(marks, OnBody, p)
    ensures p < end ==> MarksOk(ChunkData, marks, end, end) && MarksOk(BodyIdentity, marks, end, end)
    ensures forall q: nat :: p < q ==> MarksOk(ChunkDataAlmostDone, marks, q, end)
  {
  }

  /** The marks of a field name and of what follows it. */
  lemma HeaderFieldMark(marks: Marks, p0: nat, p: nat, end: nat)
    requires OnlyMark(marks, OnHeaderField, p0) && p0 <= p
    ensures p == end && p0 < p ==> MarksOk(HeaderField, marks, p, end)
    ensures MarksOk(HeaderValueDiscardWs, map[], p + 1, end) && OneMark(marks, p)
  {
  }

  lemma HeaderValueMark(marks: Marks, p: nat, end: nat)
    ensures MarksOk(HeaderValue, marks, p, end) ==> OnlyMark(marks, OnHeaderValue, p)
    ensures OnlyMark(marks, OnHeaderValue, p) ==> forall q: nat :: q > p ==> MarksOk(HeaderValue, marks, q, end)
    ensures marks == map[] ==> MarksOk(HeaderAlmostDone, marks, p, end) && MarksOk(HeaderValueLws, marks, p, end)
  {
  }

  lemma ValueStays(s: Parser, ch: byte)
    requires Ready(s) && s.state.HeaderValue?
    ensures var s1 := ValueChar(s, ch);
            && (s1.errno == Ok ==> Ready(s1)) && s1.errno != HeaderOverflow
            && s1 == s.(index := s1.index, hstate := s1.hstate, errno := s1.errno, flags := s1.flags,
                        contentLength := s1.contentLength)
  {
    ValueErrno(s, ch);
    hide ValueChar, InValue;
    ValueCharKeepsValid(s, ch);
  }

  lemma ValueLeaves(s: Parser)
    requires Ready(s) && s.state.HeaderValue?
    ensures Ready(s.(state := HeaderAlmostDone)) && Ready(s.(state := HeaderValueLws))
  {
  }
}
