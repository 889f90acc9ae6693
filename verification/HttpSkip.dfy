/** Streams whose cutting does matter: a control character in the value of a header of no interest. */
module HttpSkip {
  import opened Bytes
  import opened HttpTypes
  import opened HttpStep
  import opened HttpInvariant
  import opened HttpRun
  import opened HttpSplit
  import opened HttpPieces
  import opened HttpHeaders
  import R = HttpRequestLine
  import C = HttpChunked

  /** A new parser for requests, which is strict. */
  function NewParser(): Conn {
    Conn(Init(Request, false), [], false)
  }

  /** A request line, and a header line up to the end of its value. */
  function Beginning(line: R.RequestLine, h: Header): bytes {
    R.LineText(line) + (h.name + COLON + h.value)
  }

  lemma BeginningRead(hc: Parser -> HeadersAnswer, line: R.RequestLine, h: Header) returns (d: Conn)
    requires R.LineOk(line) && PlainHeader(h, false)
    ensures Leads(hc, NewParser(), Beginning(line, h), d)
    ensures d.s.state.HeaderValue? && !d.s.lenient && (d.shadow <==> |h.value| > 1)
  {
    hide Leads, Emit, EmitAll, R.LineText, R.LineOk, R.LineEvents, CONNECTION, PROXY_CONNECTION, CONTENT_LENGTH,
      TRANSFER_ENCODING, UPGRADE;
    var s := Init(Request, false);
    R.RequestLineRead(hc, s, [], line);
    var s1, t1 := R.AfterRequestLine(s, line), EmitAll([], R.LineEvents(s, line));
    var h2, i2 := NameColonRead(hc, s1, t1, h.name);
    var s2, t2 := s1.(state := HeaderValueDiscardWs, hstate := h2, index := i2), Emit(t1, Data(OnHeaderField, h.name));
    PlainValueRead(hc, s2, t2, h.value);
    d := Conn(s2.(state := HeaderValue, index := 0, hstate := General), Emit(t2, Data(OnHeaderValue, h.value)),
              |h.value| > 1);
    LeadsOn(hc, Conn(s1, t1, false), h.name + COLON, Conn(s2, t2, false), h.value, d);
    LeadsOn(hc, NewParser(), R.LineText(line), Conn(s1, t1, false), h.name + COLON + h.value, d);
  }

  /**
   * After two or more bytes of such a value, a byte that a strict parser refuses
   * is refused or not as the stream is cut; after one byte it is refused always.
   */
  lemma ControlAfterValue(hc: Parser -> HeadersAnswer, line: R.RequestLine, h: Header, ch: byte)
    requires R.LineOk(line) && PlainHeader(h, false) && !IsHeaderChar(ch)
    ensures SplitInvariant(hc, NewParser(), Beginning(line, h) + [ch]) <==> |h.value| == 1
  {
    hide Bytewise, Step, EmitAll, SplitInvariant, R.LineOk, Beginning, IsName, Special, Folded;
    var c, a, b := NewParser(), Beginning(line, h), [ch];
    var d := BeginningRead(hc, line, h);
    assert BadValueByte(d.s, ch);
    assert SkipsBadByte(hc, d, b, 0) <==> d.shadow;
    BytewiseConcat(hc, c, a, b, 0);
    BytewiseShift(hc, d, a, b, 0);
    NoSkipBefore(hc, c, a);
    SplitInvariance(hc, c, a + b);
  }

  /** A run that goes through has nothing to skip. */
  lemma NoSkipBefore(hc: Parser -> HeadersAnswer, c: Conn, a: bytes)
    requires Bytewise(hc, c, a, 0).out.Go?
    ensures !SkipsBadByte(hc, c, a, 0)
  {
    hide Bytewise, SkipsBadByte;
    if SkipsBadByte(hc, c, a, 0) {
      C.SkippingFails(hc, c, a, 0);
    }
  }

  const STREAM: bytes := "GET / HTTP/1.1\r\nx: ab" + [1 as char]

  /** One such stream, from the first byte that the parser sees. */
  lemma ControlCharacterSkipped(hc: Parser -> HeadersAnswer)
    ensures !SplitInvariant(hc, NewParser(), STREAM)
  {
    hide SplitInvariant;
    var line, h := R.RequestLine(GET, "/", 1, 1), Header("x", "ab");
    assert Beginning(line, h) + [1 as char] == STREAM;
    assert PlainHeader(h, false) by { ShortNamePlain(h.name); }
    assert R.UrlState(ReqSpacesBeforeUrl, "/").ReqPath?;
    assert R.LineOk(line);
    hide Beginning, STREAM, PlainHeader, R.LineOk;
    ControlAfterValue(hc, line, h, 1 as char);
  }

  lemma ShortNamePlain(name: bytes)
    requires IsName(name) && |name| < 5
    ensures !Special(name)
  {
    Initials();
    hide CONNECTION, PROXY_CONNECTION, CONTENT_LENGTH, TRANSFER_ENCODING, UPGRADE, Folded;
    assert |Folded(name)| < 5;
  }
}
