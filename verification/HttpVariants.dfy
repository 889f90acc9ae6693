/** Other ways to write the same message, the characters that may stand in it, and what is refused. */
module HttpVariants {
  import opened Bytes
  import opened Decimals
  import opened HttpTypes
  import opened HttpStep
  import opened HttpRun
  import opened HttpSplit
  import opened HttpPieces
  import opened HttpNumbers
  import opened HttpHeaders
  import opened HttpFraming
  import opened HttpMessage
  import C = HttpChunked
  import R = HttpRequestLine

  // ---------------------------------------------------------------- characters and names

  /** The characters of a token by their codes (section 3.2.6 of RFC 7230), letters folded to lower case. */
  lemma TokenExact(c: byte)
    ensures var n := c as int;
            if 65 <= n <= 90 then Token(c) as int == n + 32
            else if 97 <= n <= 122 || 48 <= n <= 57
                    || n in {33, 35, 36, 37, 38, 39, 42, 43, 45, 46, 94, 95, 96, 124, 126} then Token(c) == c
            else Token(c) == '\0'
  {
  }

  /** The bytes that a strict parser takes in a value: no control characters but the tab, and the line ends. */
  lemma HeaderCharExact(c: byte)
    ensures IsHeaderChar(c) <==> c as int in {9, 10, 13} || 32 <= c as int < 127 || c as int >= 128
  {
  }

  /** The names and the words that the parser looks for. */
  lemma Spelled()
    ensures CONNECTION == "connection" && PROXY_CONNECTION == "proxy-connection"
    ensures CONTENT_LENGTH == "content-length" && TRANSFER_ENCODING == "transfer-encoding" && UPGRADE == "upgrade"
    ensures CHUNKED == "chunked" && KEEP_ALIVE == "keep-alive" && CLOSE == "close"
    ensures HTTP_MAX_HEADER_SIZE == 81920
  {
  }

  // ---------------------------------------------------------------- line ends

  /** The states of a first line in which it may end. */
  predicate FirstLineMayEnd(st: State) {
    || st.ReqHttpMinor? || st.ResStatusCode? || st.ResStatusStart? || st.ResStatus? || UrlMayEnd(st)
  }

  /** A URL may end here. */
  predicate UrlMayEnd(st: State) {
    || st.ReqServer? || st.ReqServerWithAt? || st.ReqPath? || st.ReqQueryStringStart? || st.ReqQueryString?
    || st.ReqFragmentStart? || st.ReqFragment?
  }

  /** A line may end here, or an empty line ends the header. */
  predicate LineMayEnd(st: State) {
    || FirstLineMayEnd(st)
    || st.HeaderFieldStart? || st.HeaderValueDiscardWs? || st.HeaderValue? || st.HeaderValueLws?
  }

  /** The line feed after a carriage return does what it does without it. */
  predicate LfAlone(hc: Parser -> HeadersAnswer, s: Parser) {
    var r := Step(hc, s, CR, false);
    && r.out.Go? && !r.s.state.HeaderValue?
    && (s.state.HeaderValue? ==> !Step(hc, s, LF, false).s.state.HeaderValue?)
    && Step(hc, s, LF, false) == After(r.evs, Step(hc, r.s, LF, false))
  }

  lemma LfAfterUrl(hc: Parser -> HeadersAnswer, s: Parser)
    requires UrlMayEnd(s.state)
    ensures LfAlone(hc, s)
  {
    hide StatusLineByte, ChunkByte, UrlChar;
    var r := Step(hc, s, CR, false);
    assert r == UrlByte(s, CR) && Step(hc, s, LF, false) == UrlByte(s, LF);
    assert r.s == s.(major := 0, minor := 9, state := ReqLineAlmostDone);
    assert Step(hc, r.s, LF, false) == RequestLineByte(r.s, LF);
  }

  lemma LfAfterLine(hc: Parser -> HeadersAnswer, s: Parser)
    requires s.state.ReqHttpMinor? || s.state.ResStatusCode? || s.state.ResStatusStart? || s.state.ResStatus?
    ensures LfAlone(hc, s)
  {
    hide ChunkByte, UrlByte, MinorDigit, MajorDigit, ThreeDigits;
  }

  lemma LfAfterValue(hc: Parser -> HeadersAnswer, s: Parser)
    requires s.state.HeaderValue? || s.state.HeaderValueDiscardWs?
    ensures LfAlone(hc, s)
  {
    hide ChunkByte, UrlByte, ValueStartByte, ValueChar, FieldStartByte;
  }

  /** The line feed that ends a header. */
  lemma LfAfterFields(hc: Parser -> HeadersAnswer, s: Parser)
    requires s.state.HeaderFieldStart?
    ensures LfAlone(hc, s)
    ensures Step(hc, s, CR, false) == StepResult(s.(state := HeadersAlmostDone), [], Go)
    ensures Step(hc, s, LF, false) == HeadersAlmostDoneByte(hc, s.(state := HeadersAlmostDone), LF)
  {
    hide HeadersAlmostDoneByte, Token;
    var q := HeadersAlmostDoneByte(hc, s.(state := HeadersAlmostDone), LF);
    assert [] + q.evs == q.evs;
  }

  /** The byte behind a line that is not continued begins another one. */
  lemma LwsSteps(hc: Parser -> HeadersAnswer, s: Parser)
    requires s.state.HeaderValueLws?
    ensures var s0 := FinishValue(s).(state := HeaderFieldStart);
            Step(hc, s, CR, false) == Step(hc, s0, CR, false) && Step(hc, s, LF, false) == Step(hc, s0, LF, false)
  {
    hide FieldStartByte, ValueStartByte, FinishValue, ChunkByte, UrlByte, StatusByte;
  }

  lemma SameSteps(hc: Parser -> HeadersAnswer, s: Parser, s0: Parser)
    requires Step(hc, s, CR, false) == Step(hc, s0, CR, false) && Step(hc, s, LF, false) == Step(hc, s0, LF, false)
    requires LfAlone(hc, s0) && !s.state.HeaderValue?
    ensures LfAlone(hc, s)
  {
    hide Step;
  }

  lemma LfAfterLws(hc: Parser -> HeadersAnswer, s: Parser)
    requires s.state.HeaderValueLws?
    ensures LfAlone(hc, s)
  {
    hide HeadersAlmostDoneByte, FieldStartByte, ValueStartByte, FinishValue, Step, LfAlone;
    LwsSteps(hc, s);
    var s0 := FinishValue(s).(state := HeaderFieldStart);
    LfAfterFields(hc, s0);
    SameSteps(hc, s, s0);
  }

  /**
   * A line feed alone ends a line just as it does after a carriage return: what is read, reported and refused is the
   * same, and the rest of the stream goes on from the same parser.
   */
  lemma LfForCrLf(hc: Parser -> HeadersAnswer, c: Conn, w: bytes)
    requires LineMayEnd(c.s.state)
    ensures Bytewise(hc, c, CRLF + w, 0) == Later(Bytewise(hc, c, [LF] + w, 0), 1)
  {
    hide Step, EmitAll, Bytewise, LineMayEnd;
    LfAnywhere(hc, c.s);
    var r := Step(hc, c.s, CR, false);
    var d := Next(c, r);
    assert CRLF + w == [CR] + ([LF] + w);
    OneByte(hc, c, CR);
    LeadsThen(hc, c, [CR], d, [LF] + w);
    FirstByte(hc, d, LF, w);
    FirstByte(hc, c, LF, w);
    EmitAllConcat(c.trace, r.evs, Step(hc, r.s, LF, false).evs);
  }

  lemma LfAnywhere(hc: Parser -> HeadersAnswer, s: Parser)
    requires LineMayEnd(s.state)
    ensures LfAlone(hc, s)
  {
    hide LfAlone;
    if UrlMayEnd(s.state) {
      LfAfterUrl(hc, s);
    } else if s.state.HeaderValue? || s.state.HeaderValueDiscardWs? {
      LfAfterValue(hc, s);
    } else if s.state.HeaderFieldStart? {
      LfAfterFields(hc, s);
    } else if s.state.HeaderValueLws? {
      LfAfterLws(hc, s);
    } else {
      LfAfterLine(hc, s);
    }
  }

  /** The first byte of a run. */
  lemma FirstByte(hc: Parser -> HeadersAnswer, c: Conn, ch: byte, w: bytes)
    ensures var r := Step(hc, c.s, ch, false);
            Bytewise(hc, c, [ch] + w, 0)
            == match r.out
               case Go => Later(Bytewise(hc, Next(c, r), w, 0), 1)
               case Fail => RunResult(Next(c, r), 0, Fail)
               case Exit => RunResult(Next(c, r), 1, Exit)
  {
    hide Step, EmitAll, Bytewise;
    var r := Step(hc, c.s, ch, false);
    OneByte(hc, c, ch);
    if r.out.Go? {
      LeadsThen(hc, c, [ch], Next(c, r), w);
    } else {
      BytewiseConcat(hc, c, [ch], w, 0);
    }
  }

  // ---------------------------------------------------------------- chunks with parameters, and trailers

  lemma ParameterSteps(hc: Parser -> HeadersAnswer, s: Parser, ch: byte)
    requires ch != CR
    ensures s.state.ChunkSize? && (ch == ';' || ch == ' ') ==>
              Step(hc, s, ch, false) == StepResult(s.(state := ChunkParameters), [], Go)
    ensures s.state.ChunkParameters? ==> Step(hc, s, ch, false) == StepResult(s, [], Go)
    ensures s.state.ChunkSize? ==> Step(hc, s, CR, false) == Step(hc, s.(state := ChunkParameters), CR, false)
                                == StepResult(s.(state := ChunkSizeAlmostDone), [], Go)
  {
  }

  lemma {:induction false} ParametersRead(hc: Parser -> HeadersAnswer, s: Parser, t: seq<Event>, w: bytes)
    requires s.state.ChunkParameters? && CR !in w
    ensures Leads(hc, Conn(s, t, false), w, Conn(s, t, false))
    decreases |w|
  {
    hide Step, Leads;
    if w == [] {
      NothingRead(hc, Conn(s, t, false));
    } else {
      ParameterSteps(hc, s, w[0]);
      QuietByte(hc, s, t, false, w[0], s);
      ParametersRead(hc, s, t, w[1..]);
      assert [w[0]] + w[1..] == w;
      LeadsOn(hc, Conn(s, t, false), [w[0]], Conn(s, t, false), w[1..], Conn(s, t, false));
    }
  }

  lemma NothingRead(hc: Parser -> HeadersAnswer, c: Conn)
    ensures Leads(hc, c, [], c)
  {
  }

  /** Whatever follows the size of a chunk behind a semicolon or a blank, up to the end of the line, is passed over. */
  lemma ParametersIgnored(hc: Parser -> HeadersAnswer, s: Parser, t: seq<Event>, parameters: bytes, w: bytes)
    requires s.state.ChunkSize? && CR !in parameters
    requires parameters != [] ==> parameters[0] == ';' || parameters[0] == ' '
    ensures Bytewise(hc, Conn(s, t, false), parameters + CRLF + w, 0)
         == Later(Bytewise(hc, Conn(s, t, false), CRLF + w, 0), |parameters|)
  {
    hide Step, Bytewise;
    var c := Conn(s, t, false);
    assert parameters + CRLF + w == parameters + (CRLF + w);
    if parameters == [] {
      assert [] + (CRLF + w) == CRLF + w;
    } else {
      var d := Conn(s.(state := ChunkParameters), t, false);
      ParameterSteps(hc, s, parameters[0]);
      QuietByte(hc, s, t, false, parameters[0], d.s);
      ParametersRead(hc, d.s, t, parameters[1..]);
      assert [parameters[0]] + parameters[1..] == parameters;
      LeadsOn(hc, c, [parameters[0]], d, parameters[1..], d);
      LeadsThen(hc, c, parameters, d, CRLF + w);
      assert CRLF + w == [CR] + ([LF] + w);
      FirstByte(hc, c, CR, [LF] + w);
      FirstByte(hc, d, CR, [LF] + w);
    }
  }

  /** The parser after the message. */
  function Over(s: Parser): Parser {
    var m := s.(state := MessageDone);
    m.(state := NewMessage(m))
  }

  /** The end of a trailer. */
  lemma TrailerSteps(hc: Parser -> HeadersAnswer, s: Parser)
    requires s.state.HeaderFieldStart? && s.flags.trailing
    ensures var s1, e := s.(state := HeadersAlmostDone), Over(s);
            && Step(hc, s, CR, false) == StepResult(s1, [], Go)
            && Step(hc, s1, LF, false)
               == StepResult(e, [Notify(OnChunkComplete, s.(state := MessageDone))] + [Notify(OnMessageComplete, e)],
                             if s.upgrade then Exit else Go)
  {
    hide ShouldKeepAlive, Token;
  }

  /**
   * Behind the last chunk there may be header lines: they are reported like those of the header, and the message is
   * complete at the empty line behind them.
   */
  lemma TrailerRead(hc: Parser -> HeadersAnswer, s: Parser, t: seq<Event>, hs: seq<Header>)
    requires s.state.HeaderFieldStart? && s.errno == Ok && s.flags.trailing
    requires HeadersOk(hs, s.lenient, s.flags.contentLength)
    ensures var a := AfterLines(s, hs);
            var e := Over(a);
            Bytewise(hc, Conn(s, t, false), Lines(hs) + CRLF, 0)
            == RunResult(Conn(e, EmitAll(t, LinesEvents(hs) + [Notify(OnChunkComplete, a.(state := MessageDone)),
                                                               Notify(OnMessageComplete, e)]), false),
                         |Lines(hs)| + 2, if s.upgrade then Exit else Go)
  {
    hide Step, Bytewise, EmitAll, AfterLines, HeadersOk, Over, LeadsBefore, MeantAll, LengthAll, Lines,
      LinesEvents;
    var a, t1 := AfterLines(s, hs), EmitAll(t, LinesEvents(hs));
    LinesMean(s, hs);
    TrailingKept(s.flags, hs);
    LinesRead(hc, s, t, hs);
    TrailerSteps(hc, a);
    var c := Conn(a, t1, false);
    var s1 := a.(state := HeadersAlmostDone);
    QuietByte(hc, a, t1, false, CR, s1);
    LeadsThen(hc, c, [CR], Conn(s1, t1, false), [LF]);
    OneByte(hc, Conn(s1, t1, false), LF);
    assert [CR] + [LF] == CRLF;
    var e := Over(a);
    var evs := [Notify(OnChunkComplete, a.(state := MessageDone))] + [Notify(OnMessageComplete, e)];
    assert evs == [Notify(OnChunkComplete, a.(state := MessageDone)), Notify(OnMessageComplete, e)];
    EmitAllConcat(t, LinesEvents(hs), evs);
    assert Bytewise(hc, c, CRLF, 0) == RunResult(Conn(e, EmitAll(t1, evs), false), 2, if s.upgrade then Exit else Go);
    BeforeApplied(hc, Conn(s, t, false), Lines(hs), c);
  }

  lemma BeforeApplied(hc: Parser -> HeadersAnswer, c: Conn, w: bytes, d: Conn)
    requires LeadsBefore(hc, c, w, d)
    ensures Bytewise(hc, c, w + CRLF, 0) == Later(Bytewise(hc, d, CRLF, 0), |w|)
  {
    hide Bytewise;
    assert StartsLine(CRLF);
  }

  lemma TrailingKept(f: Flags, hs: seq<Header>)
    ensures MeantAll(f, hs).trailing == f.trailing
  {
    hide MeantAll, HasOption, HasChunked, HasName;
    FlagsExact(f, hs);
  }

  // ---------------------------------------------------------------- values on several lines

  /** A value goes on in the next line if that begins with a blank; the blank is part of it. */
  lemma FoldStep(hc: Parser -> HeadersAnswer, s: Parser, blank: byte)
    requires s.state.HeaderValueLws? && Plain(s.hstate) && (blank == ' ' || blank == '\t')
    ensures Step(hc, s, blank, false)
         == StepResult(s.(state := HeaderValue, index := 0, hstate := General), [Data(OnHeaderValue, [blank])], Go)
  {
  }

  /** The bytes of a value after the first, which may be blank. */
  lemma {:induction false} MoreValueRead(hc: Parser -> HeadersAnswer, s: Parser, t: seq<Event>, v: bytes, shadow: bool)
    returns (after: bool)
    requires s.state.HeaderValue? && s.hstate.General? && s.errno == Ok
    requires forall k :: 0 <= k < |v| ==> v[k] != CR && v[k] != LF && (s.lenient || IsHeaderChar(v[k]))
    requires v != []
    ensures Leads(hc, Conn(s, t, shadow), v, Conn(s, Emit(t, Data(OnHeaderValue, v)), after))
    decreases |v|
  {
    hide Leads, Emit, Step, IsHeaderChar;
    var t1 := Emit(t, Data(OnHeaderValue, [v[0]]));
    PlainByte(hc, s, v[0]);
    LoudByte(hc, s, t, shadow, v[0], s, Data(OnHeaderValue, [v[0]]));
    if |v| == 1 {
      assert v == [v[0]];
      after := Shadows(s, s);
    } else {
      after := MoreValueRead(hc, s, t1, v[1..], Shadows(s, s));
      assert [v[0]] + v[1..] == v;
      EmitJoins(t, OnHeaderValue, [v[0]], v[1..]);
      LeadsOn(hc, Conn(s, t, shadow), [v[0]], Conn(s, t1, Shadows(s, s)), v[1..],
              Conn(s, Emit(t, Data(OnHeaderValue, v)), after));
    }
  }

  /** A header of no interest whose value goes on in a second line. */
  lemma FoldedLine(hc: Parser -> HeadersAnswer, s: Parser, t: seq<Event>, h: Header, blank: byte, more: bytes)
    requires s.state.HeaderFieldStart? && s.errno == Ok && PlainHeader(h, s.lenient)
    requires (blank == ' ' || blank == '\t') && more != []
    requires forall k :: 0 <= k < |more| ==> more[k] != CR && more[k] != LF && (s.lenient || IsHeaderChar(more[k]))
    ensures LeadsBefore(hc, Conn(s, t, false), Line(h) + [blank] + more + CRLF,
                        Conn(s.(hstate := General, index := 0),
                             EmitAll(t, LineEvents(Header(h.name, h.value + [blank] + more))), false))
  {
    hide Leads, LeadsBefore, Emit, EmitAll, Step, Special, IsHeaderChar, IsName;
    var c := Conn(s, t, false);
    var h1, i1 := NameColonRead(hc, s, t, h.name);
    var s1, t1 := s.(state := HeaderValueDiscardWs, hstate := h1, index := i1), Emit(t, Data(OnHeaderField, h.name));
    PlainName(h1, i1, h.name);
    PlainValueRead(hc, s1, t1, h.value);
    var s2 := s1.(state := HeaderValue, index := 0, hstate := General);
    var t2 := Emit(t1, Data(OnHeaderValue, h.value));
    var d := Conn(s2, t2, |h.value| > 1);
    LeadsOn(hc, c, h.name + COLON, Conn(s1, t1, false), h.value, d);
    var s3 := s2.(state := HeaderValueLws);
    EndOfValue(hc, d);
    LeadsOn(hc, c, h.name + COLON + h.value, d, CRLF, Conn(s3, Emit(t2, Data(OnHeaderValue, [])), false));
    EmitJoins(t1, OnHeaderValue, h.value, []);
    assert h.value + [] == h.value;
    FoldStep(hc, s3, blank);
    LoudByte(hc, s3, t2, false, blank, s2, Data(OnHeaderValue, [blank]));
    EmitJoins(t1, OnHeaderValue, h.value, [blank]);
    LeadsOn(hc, c, Line(h), Conn(s3, t2, false), [blank],
            Conn(s2, Emit(t1, Data(OnHeaderValue, h.value + [blank])), false));
    var after := MoreValueRead(hc, s2, Emit(t1, Data(OnHeaderValue, h.value + [blank])), more, false);
    EmitJoins(t1, OnHeaderValue, h.value + [blank], more);
    var v := h.value + [blank] + more;
    LeadsOn(hc, c, Line(h) + [blank], Conn(s2, Emit(t1, Data(OnHeaderValue, h.value + [blank])), false), more,
            Conn(s2, Emit(t1, Data(OnHeaderValue, v)), after));
    LineEnds(hc, c, Line(h) + [blank] + more, s2, t1, v, after);
    EmitTwo(t, Data(OnHeaderField, h.name), Data(OnHeaderValue, v));
    FinishPlain(s2);
  }

  lemma FinishPlain(s: Parser)
    requires s.hstate.General?
    ensures FinishValue(s) == s
  {
  }

  lemma PlainName(h: HState, i: nat, name: bytes)
    requires Tracks(h, i, Folded(name)) && !Special(name)
    ensures Plain(h)
  {
  }

  lemma EndOfValue(hc: Parser -> HeadersAnswer, c: Conn)
    requires c.s.state.HeaderValue?
    ensures Leads(hc, c, CRLF, Conn(c.s.(state := HeaderValueLws), Emit(c.trace, Data(OnHeaderValue, [])), false))
  {
    hide Leads, Step, Emit;
    ValueEndSteps(hc, c.s);
    var t1 := Emit(c.trace, Data(OnHeaderValue, []));
    var s1 := c.s.(state := HeaderAlmostDone);
    LoudByte(hc, c.s, c.trace, c.shadow, CR, s1, Data(OnHeaderValue, []));
    QuietByte(hc, s1, t1, false, LF, c.s.(state := HeaderValueLws));
    LeadsOn(hc, c, [CR], Conn(s1, t1, false), [LF], Conn(c.s.(state := HeaderValueLws), t1, false));
    assert [CR] + [LF] == CRLF;
  }

  // ---------------------------------------------------------------- blanks, and values that are empty

  /** Blanks before a value are passed over. */
  lemma {:induction false} BlanksBefore(hc: Parser -> HeadersAnswer, s: Parser, t: seq<Event>, w: bytes)
    requires s.state.HeaderValueDiscardWs? && forall k :: 0 <= k < |w| ==> w[k] == ' ' || w[k] == '\t'
    ensures Leads(hc, Conn(s, t, false), w, Conn(s, t, false))
    decreases |w|
  {
    hide Step, Leads;
    if w == [] {
      NothingRead(hc, Conn(s, t, false));
    } else {
      BlankStep(hc, s, w[0]);
      QuietByte(hc, s, t, false, w[0], s);
      BlanksBefore(hc, s, t, w[1..]);
      assert [w[0]] + w[1..] == w;
      LeadsOn(hc, Conn(s, t, false), [w[0]], Conn(s, t, false), w[1..], Conn(s, t, false));
    }
  }

  lemma BlankStep(hc: Parser -> HeadersAnswer, s: Parser, ch: byte)
    requires s.state.HeaderValueDiscardWs? && (ch == ' ' || ch == '\t')
    ensures Step(hc, s, ch, false) == StepResult(s, [], Go)
  {
  }

  lemma EmptySteps(hc: Parser -> HeadersAnswer, s: Parser)
    requires s.state.HeaderValueDiscardWs?
    ensures var s1, s2 := s.(state := HeaderValueDiscardWsAlmostDone), s.(state := HeaderValueDiscardLws);
            Step(hc, s, CR, false) == StepResult(s1, [], Go) && Step(hc, s1, LF, false) == StepResult(s2, [], Go)
  {
    hide ValueStartByte;
  }

  /** The byte behind an empty value. */
  lemma AfterEmpty(hc: Parser -> HeadersAnswer, s: Parser, ch: byte)
    requires s.state.HeaderValueDiscardLws? && !s.hstate.TransferEncodingChunked? && !s.hstate.ConnectionKeepAlive?
    requires !s.hstate.ConnectionClose? && !s.hstate.ConnectionUpgrade? && ch != ' ' && ch != '\t'
    ensures Step(hc, s, ch, false)
         == After([Data(OnHeaderValue, [])], Step(hc, s.(state := HeaderFieldStart), ch, false))
  {
    hide FieldStartByte, ValueStartByte, ChunkByte, UrlByte, StatusByte, FinishValue;
    FinishEmpty(s);
  }

  lemma FinishEmpty(s: Parser)
    requires !s.hstate.TransferEncodingChunked? && !s.hstate.ConnectionKeepAlive?
    requires !s.hstate.ConnectionClose? && !s.hstate.ConnectionUpgrade?
    ensures FinishValue(s) == s
  {
  }

  /** A header without a value is reported with an empty one, and whatever its name is, it means nothing. */
  lemma EmptyValue(hc: Parser -> HeadersAnswer, s: Parser, t: seq<Event>, name: bytes, blanks: bytes, w: bytes)
    returns (h: HState, i: nat)
    requires s.state.HeaderFieldStart? && IsName(name) && StartsLine(w)
    requires forall k :: 0 <= k < |blanks| ==> blanks[k] == ' ' || blanks[k] == '\t'
    ensures var t1 := EmitAll(t, [Data(OnHeaderField, name), Data(OnHeaderValue, [])]);
            Bytewise(hc, Conn(s, t, false), name + COLON + blanks + CRLF + w, 0)
            == Later(Bytewise(hc, Conn(s.(hstate := h, index := i), t1, false), w, 0), |name| + |blanks| + 4)
  {
    hide Step, Leads, Bytewise, Emit, EmitAll, Tracks, Token;
    var c := Conn(s, t, false);
    h, i := NameColonRead(hc, s, t, name);
    NamedState(h, i, Folded(name));
    var s1, t1 := s.(state := HeaderValueDiscardWs, hstate := h, index := i), Emit(t, Data(OnHeaderField, name));
    var d := Conn(s1, t1, false);
    BlanksBefore(hc, s1, t1, blanks);
    LeadsOn(hc, c, name + COLON, d, blanks, d);
    EmptySteps(hc, s1);
    var s2, s3 := s1.(state := HeaderValueDiscardWsAlmostDone), s1.(state := HeaderValueDiscardLws);
    AfterEmpty(hc, s3, w[0]);
    QuietByte(hc, s1, t1, false, CR, s2);
    QuietByte(hc, s2, t1, false, LF, s3);
    LeadsOn(hc, d, [CR], Conn(s2, t1, false), [LF], Conn(s3, t1, false));
    assert [CR] + [LF] == CRLF;
    LeadsOn(hc, c, name + COLON + blanks, d, CRLF, Conn(s3, t1, false));
    LeadsThen(hc, c, name + COLON + blanks + CRLF, Conn(s3, t1, false), w);
    var s4, t2 := s.(hstate := h, index := i), Emit(t1, Data(OnHeaderValue, []));
    assert w == [w[0]] + w[1..];
    var r := Step(hc, s4, w[0], false);
    FirstByte(hc, Conn(s3, t1, false), w[0], w[1..]);
    FirstByte(hc, Conn(s4, t2, false), w[0], w[1..]);
    EmitAllConcat(t1, [Data(OnHeaderValue, [])], r.evs);
    EmitOne(t1, Data(OnHeaderValue, []));
    EmitTwo(t, Data(OnHeaderField, name), Data(OnHeaderValue, []));
  }

  lemma NamedState(h: HState, i: nat, p: bytes)
    requires Tracks(h, i, p)
    ensures !h.TransferEncodingChunked? && !h.ConnectionKeepAlive? && !h.ConnectionClose? && !h.ConnectionUpgrade?
  {
  }

  // ---------------------------------------------------------------- requests or responses

  /** What a parser for both kinds of message becomes when it meets a request. */
  function AsRequest(s: Parser): Parser {
    s.(ptype := Request, state := StartReq)
  }

  lemma BothSteps(hc: Parser -> HeadersAnswer, s: Parser, ch: byte)
    requires s.state.StartReqOrRes?
    ensures ch == CR || ch == LF ==> Step(hc, s, ch, false) == StepResult(s, [], Go)
    ensures ch != 'H' && ch != CR && ch != LF ==>
              Step(hc, s, ch, false)
              == Step(hc, AsRequest(s).(flags := NO_FLAGS, contentLength := ULLONG_MAX), ch, false)
  {
    hide StartMethod, IsAlpha;
  }

  lemma HSteps(hc: Parser -> HeadersAnswer, s: Parser)
    requires s.state.StartReqOrRes?
    ensures var s1 := s.(flags := NO_FLAGS, contentLength := ULLONG_MAX, state := ResOrRespH);
            && Step(hc, s, 'H', false) == StepResult(s1, [Notify(OnMessageBegin, s1)], Go)
            && Step(hc, s1, 'T', false) == StepResult(s1.(ptype := Response, state := ResHT), [], Go)
            && Step(hc, s1, 'E', false)
               == StepResult(s1.(ptype := Request, verb := HEAD, index := 2, state := ReqMethod), [], Go)
            && forall ch: byte :: ch != 'T' && ch != 'E' ==>
                 Step(hc, s1, ch, false) == StepResult(s1.(errno := InvalidConstant), [], Fail)
  {
  }

  /** A parser for both kinds takes a message that begins with `HT` for a response, one with `HE` for a request of
      HEAD, and refuses any other that begins with `H`. */
  lemma BothDecides(hc: Parser -> HeadersAnswer, s: Parser, t: seq<Event>, ch: byte)
    requires s.state.StartReqOrRes?
    ensures var s1 := s.(flags := NO_FLAGS, contentLength := ULLONG_MAX, state := ResOrRespH);
            var t1 := Emit(t, Notify(OnMessageBegin, s1));
            var s2 := if ch == 'T' then s1.(ptype := Response, state := ResHT)
                      else s1.(ptype := Request, verb := HEAD, index := 2, state := ReqMethod);
            if ch == 'T' || ch == 'E' then Leads(hc, Conn(s, t, false), "H" + [ch], Conn(s2, t1, false))
            else RefusedFor(Bytewise(hc, Conn(s, t, false), "H" + [ch], 0), InvalidConstant)
  {
    HSteps(hc, s);
    hide Step, Emit, EmitAll, Bytewise;
    var s1 := s.(flags := NO_FLAGS, contentLength := ULLONG_MAX, state := ResOrRespH);
    var t1 := Emit(t, Notify(OnMessageBegin, s1));
    LoudByte(hc, s, t, false, 'H', s1, Notify(OnMessageBegin, s1));
    if ch == 'T' || ch == 'E' {
      var s2 := Step(hc, s1, ch, false).s;
      QuietByte(hc, s1, t1, false, ch, s2);
      LeadsOn(hc, Conn(s, t, false), "H", Conn(s1, t1, false), [ch], Conn(s2, t1, false));
    } else {
      LeadsThen(hc, Conn(s, t, false), "H", Conn(s1, t1, false), [ch]);
      OneByte(hc, Conn(s1, t1, false), ch);
    }
  }

  /** Any other method is read as by a parser for requests. */
  lemma BothMethodRead(hc: Parser -> HeadersAnswer, s: Parser, t: seq<Event>, m: Method)
    requires s.state.StartReqOrRes? && m != HEAD
    ensures var q := AsRequest(s);
            Leads(hc, Conn(s, t, false), MethodString(m) + " ",
                  Conn(R.AfterMethod(q, m), Emit(t, Notify(OnMessageBegin, R.InMethod(q, m, 1))), false))
  {
    hide Step, Leads, EmitAll, Emit;
    var q := AsRequest(s).(flags := NO_FLAGS, contentLength := ULLONG_MAX);
    R.MethodRead(hc, q, t, m);
    FirstLetter(m);
    BothSteps(hc, s, MethodString(m)[0]);
    SameStart(hc, s, q, t, MethodString(m) + " ",
              Conn(R.AfterMethod(q, m), Emit(t, Notify(OnMessageBegin, R.InMethod(q, m, 1))), false));
  }

  lemma FirstLetter(m: Method)
    requires m != HEAD
    ensures MethodString(m) != [] && MethodString(m)[0] != 'H' && MethodString(m)[0] != CR && MethodString(m)[0] != LF
  {
  }

  // ---------------------------------------------------------------- requests without a version

  /** A request line that ends with the URL is one of version 0.9. */
  lemma SimpleRequest(hc: Parser -> HeadersAnswer, s: Parser, t: seq<Event>, u: bytes)
    requires s.state.ReqSpacesBeforeUrl? && R.IsUrl(u, s.verb)
    ensures Leads(hc, Conn(s, t, false), u + CRLF,
                  Conn(s.(major := 0, minor := 9, state := HeaderFieldStart), Emit(t, Data(OnUrl, u)), false))
  {
    hide Leads, Emit, Step, R.UrlState;
    R.UrlRead(hc, s, t, u);
    var s1, t1 := s.(state := R.UrlState(R.UrlStart(s.verb), u)), Emit(t, Data(OnUrl, u));
    UrlLineSteps(hc, s1);
    var s2 := s1.(major := 0, minor := 9, state := ReqLineAlmostDone);
    LoudByte(hc, s1, t1, false, CR, s2, Data(OnUrl, []));
    EmitJoins(t, OnUrl, u, []);
    assert u + [] == u;
    QuietByte(hc, s2, t1, false, LF, s2.(state := HeaderFieldStart));
    LeadsOn(hc, Conn(s1, t1, false), [CR], Conn(s2, t1, false), [LF], Conn(s2.(state := HeaderFieldStart), t1, false));
    assert [CR] + [LF] == CRLF;
    LeadsOn(hc, Conn(s, t, false), u, Conn(s1, t1, false), CRLF, Conn(s2.(state := HeaderFieldStart), t1, false));
  }

  lemma UrlLineSteps(hc: Parser -> HeadersAnswer, s: Parser)
    requires InUrl(s.state) && !s.state.ReqSchema? && !s.state.ReqSchemaSlash?
    requires !s.state.ReqSchemaSlashSlash? && !s.state.ReqServerStart?
    ensures var s1 := s.(major := 0, minor := 9, state := ReqLineAlmostDone);
            && Step(hc, s, CR, false) == StepResult(s1, [Data(OnUrl, [])], Go)
            && Step(hc, s1, LF, false) == StepResult(s1.(state := HeaderFieldStart), [], Go)
  {
    hide StatusLineByte, ChunkByte, UrlChar;
  }

  // ---------------------------------------------------------------- what is refused

  /** A name is refused at its first byte that is no character of a token, but for the colon that ends it; where a
      line begins, a line end is no such byte, and a colon is one. */
  lemma NameRefused(hc: Parser -> HeadersAnswer, s: Parser, t: seq<Event>, name: bytes, ch: byte, w: bytes)
    requires s.state.HeaderFieldStart? && (name == [] || IsName(name)) && Token(ch) == '\0'
    requires if name == [] then ch != CR && ch != LF else ch != ':'
    ensures var r := Bytewise(hc, Conn(s, t, false), name + [ch] + w, 0);
            RefusedFor(r, InvalidHeaderToken) && r.n == |name|
  {
    hide Leads, Bytewise, Step, Emit, EmitAll, Tracks, Token;
    if name == [] {
      RefusedSteps(hc, s, ch);
      assert name + [ch] + w == [ch] + w;
      FirstByte(hc, Conn(s, t, false), ch, w);
    } else {
      var h, i := NameRead(hc, s, t, name);
      var d := Conn(InName(s, h, i), Emit(t, Data(OnHeaderField, name)), false);
      RefusedSteps(hc, d.s, ch);
      assert name + [ch] + w == name + ([ch] + w);
      LeadsThen(hc, Conn(s, t, false), name, d, [ch] + w);
      FirstByte(hc, d, ch, w);
    }
  }

  lemma RefusedSteps(hc: Parser -> HeadersAnswer, s: Parser, ch: byte)
    requires Token(ch) == '\0'
    ensures s.state.HeaderFieldStart? && ch != CR && ch != LF ==>
              Step(hc, s, ch, false) == StepResult(s.(errno := InvalidHeaderToken), [], Fail)
    ensures s.state.HeaderField? && ch != ':' ==>
              Step(hc, s, ch, false) == StepResult(s.(errno := InvalidHeaderToken), [], Fail)
  {
    hide Token;
  }

  /** The error for a number that is refused. */
  function NumberError(f: Number): Errno {
    if f.ResStatusNumber? then InvalidStatus else InvalidVersion
  }

  lemma DigitFails(hc: Parser -> HeadersAnswer, s: Parser, f: Number, n: nat, d: nat)
    requires d < 10
    ensures n * 10 + d > 999 ==>
              var r := Step(hc, Reading(s, f, n), Digit(d), false); r.out.Fail? && r.s.errno == NumberError(f)
    ensures s.state == Before(f) && f.ReqMajor? && d == 0 ==>
              Step(hc, s, Digit(d), false) == StepResult(s.(errno := InvalidVersion), [], Fail)
  {
    hide UrlByte, ChunkByte, MethodByte;
  }

  lemma {:induction false} MoreDigits(hc: Parser -> HeadersAnswer, s: Parser, t: seq<Event>, f: Number, n: nat,
                                      w: bytes)
    requires AllDigits(w) && n <= 999
    ensures if Decimal(n, w) <= 999
            then Leads(hc, Conn(Reading(s, f, n), t, false), w, Conn(Reading(s, f, Decimal(n, w)), t, false))
            else RefusedFor(Bytewise(hc, Conn(Reading(s, f, n), t, false), w, 0), NumberError(f))
    decreases |w|
  {
    hide Step, Leads, Bytewise, Reading, RefusedFor;
    var c := Conn(Reading(s, f, n), t, false);
    if w == [] {
      NothingRead(hc, c);
    } else {
      var d := DigitValue(w[0]);
      var m := n * 10 + d;
      assert Digit(d) == w[0] && [w[0]] + w[1..] == w;
      if m > 999 {
        DecimalGrows(m, w[1..]);
        DigitFails(hc, s, f, n, d);
        OneFails(hc, c, w[0], w[1..], NumberError(f));
      } else {
        var c1 := Conn(Reading(s, f, m), t, false);
        DigitSteps(hc, s, f, n, d);
        ReadingState(s, f, n);
        QuietByte(hc, c.s, t, false, w[0], c1.s);
        MoreDigits(hc, s, t, f, m, w[1..]);
        LeadsThen(hc, c, [w[0]], c1, w[1..]);
        if Decimal(m, w[1..]) <= 999 {
          LeadsOn(hc, c, [w[0]], c1, w[1..], Conn(Reading(s, f, Decimal(m, w[1..])), t, false));
        } else {
          StillRefused(Bytewise(hc, c1, w[1..], 0), Bytewise(hc, c, w, 0), NumberError(f));
        }
      }
    }
  }

  lemma ReadingState(s: Parser, f: Number, n: nat)
    ensures !Reading(s, f, n).state.HeaderValue?
  {
  }

  lemma StillRefused(r: RunResult, q: RunResult, e: Errno)
    requires RefusedFor(r, e) && q.out == r.out && q.c == r.c
    ensures RefusedFor(q, e)
  {
  }

  lemma OneFails(hc: Parser -> HeadersAnswer, c: Conn, ch: byte, w: bytes, e: Errno)
    requires var r := Step(hc, c.s, ch, false); r.out.Fail? && r.s.errno == e
    ensures RefusedFor(Bytewise(hc, c, [ch] + w, 0), e)
  {
    hide Step, Bytewise;
    FirstByte(hc, c, ch, w);
  }

  /**
   * A version or a status of any number of digits is taken for the number that they denote, exactly if that is at
   * most 999; but the first digit of a request's major version must not be 0.
   */
  lemma NumberExact(hc: Parser -> HeadersAnswer, s: Parser, t: seq<Event>, f: Number, w: bytes)
    requires s.state == Before(f) && AllDigits(w) && w != []
    ensures if Decimal(0, w) <= 999 && (f.ReqMajor? ==> w[0] != '0')
            then Leads(hc, Conn(s, t, false), w, Conn(Reading(s, f, Decimal(0, w)), t, false))
            else RefusedFor(Bytewise(hc, Conn(s, t, false), w, 0), NumberError(f))
  {
    hide Step, Leads, Bytewise, Reading, RefusedFor;
    var c := Conn(s, t, false);
    var d := DigitValue(w[0]);
    assert Digit(d) == w[0] && [w[0]] + w[1..] == w;
    assert Decimal(0, w) == Decimal(d, w[1..]);
    if f.ReqMajor? && d == 0 {
      DigitFails(hc, s, f, 0, 0);
      OneFails(hc, c, w[0], w[1..], InvalidVersion);
    } else {
      var c1 := Conn(Reading(s, f, d), t, false);
      DigitSteps(hc, s, f, 0, d);
      QuietByte(hc, s, t, false, w[0], c1.s);
      MoreDigits(hc, s, t, f, d, w[1..]);
      LeadsThen(hc, c, [w[0]], c1, w[1..]);
      if Decimal(d, w[1..]) <= 999 {
        LeadsOn(hc, c, [w[0]], c1, w[1..], Conn(Reading(s, f, Decimal(d, w[1..])), t, false));
      } else {
        StillRefused(Bytewise(hc, c1, w[1..], 0), Bytewise(hc, c, w, 0), NumberError(f));
      }
    }
  }
}
