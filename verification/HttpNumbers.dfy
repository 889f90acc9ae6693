/** The fixed characters and the numbers of request and status lines. */
module HttpNumbers {
  import opened Bytes
  import opened Decimals
  import opened HttpTypes
  import opened HttpStep
  import opened HttpRun
  import opened HttpPieces

  const HTTP_SLASH: bytes := "HTTP/"

  /** The characters around the numbers. */
  predicate Punctuates(a: State, ch: byte, b: State) {
    match a
    case ReqHttpStart => ch == 'H' && b == ReqHttpH
    case ReqHttpH => ch == 'T' && b == ReqHttpHT
    case ReqHttpHT => ch == 'T' && b == ReqHttpHTT
    case ReqHttpHTT => ch == 'P' && b == ReqHttpHTTP
    case ReqHttpHTTP => ch == '/' && b == ReqFirstHttpMajor
    case ReqHttpMajor => ch == '.' && b == ReqFirstHttpMinor
    case ReqHttpMinor => ch == CR && b == ReqLineAlmostDone
    case ReqLineAlmostDone => ch == LF && b == HeaderFieldStart
    case ResH => ch == 'T' && b == ResHT
    case ResHT => ch == 'T' && b == ResHTT
    case ResHTT => ch == 'P' && b == ResHTTP
    case ResHTTP => ch == '/' && b == ResFirstHttpMajor
    case ResHttpMajor => ch == '.' && b == ResFirstHttpMinor
    case ResHttpMinor => ch == ' ' && b == ResFirstStatusCode
    case ResStatusCode => (ch == ' ' && b == ResStatusStart) || (ch == CR && b == ResLineAlmostDone)
    case ResLineAlmostDone => ch == LF && b == HeaderFieldStart
    case _ => false
  }

  lemma Punctuation(hc: Parser -> HeadersAnswer, s: Parser, t: seq<Event>, ch: byte, b: State)
    requires Punctuates(s.state, ch, b)
    ensures Leads(hc, Conn(s, t, false), [ch], Conn(s.(state := b), t, false))
  {
    PunctuationStep(hc, s, ch, b);
    hide Step, Leads;
    QuietByte(hc, s, t, false, ch, s.(state := b));
  }

  lemma PunctuationStep(hc: Parser -> HeadersAnswer, s: Parser, ch: byte, b: State)
    requires Punctuates(s.state, ch, b)
    ensures Step(hc, s, ch, false) == StepResult(s.(state := b), [], Go) && !s.state.HeaderValue?
  {
    hide StatusLineByte, RequestLineByte, UrlByte, ChunkByte, Punctuates;
    if InStatusLine(s.state) {
      StatusPunctuation(s, ch, b);
    } else {
      RequestPunctuation(s, ch, b);
    }
    assert InStatusLine(s.state) || InRequestLine(s.state) by { PunctuatesIn(s.state, ch, b); }
  }

  lemma PunctuatesIn(a: State, ch: byte, b: State)
    requires Punctuates(a, ch, b)
    ensures InStatusLine(a) || InRequestLine(a)
  {
  }

  lemma StatusPunctuation(s: Parser, ch: byte, b: State)
    requires Punctuates(s.state, ch, b) && InStatusLine(s.state)
    ensures StatusLineByte(s, ch) == StepResult(s.(state := b), [], Go)
  {
    hide MajorDigit, MinorDigit;
  }

  lemma RequestPunctuation(s: Parser, ch: byte, b: State)
    requires Punctuates(s.state, ch, b) && !InStatusLine(s.state)
    ensures RequestLineByte(s, ch) == StepResult(s.(state := b), [], Go)
  {
    hide MethodByte, MajorDigit, MinorDigit;
  }

  lemma {:induction false} PunctuationRun(hc: Parser -> HeadersAnswer, s: Parser, t: seq<Event>, w: bytes,
                                          states: seq<State>)
    requires w != [] && |states| == |w| + 1 && s.state == states[0]
    requires forall k :: 0 <= k < |w| ==> Punctuates(states[k], w[k], states[k + 1])
    ensures Leads(hc, Conn(s, t, false), w, Conn(s.(state := states[|w|]), t, false))
    decreases |w|
  {
    hide Leads, Punctuates;
    Punctuation(hc, s, t, w[0], states[1]);
    assert [w[0]] + w[1..] == w;
    if |w| == 1 {
      assert w == [w[0]];
    } else {
      var s1 := s.(state := states[1]);
      PunctuationRun(hc, s1, t, w[1..], states[1..]);
      LeadsOn(hc, Conn(s, t, false), [w[0]], Conn(s1, t, false), w[1..], Conn(s.(state := states[|w|]), t, false));
    }
  }

  /** The protocol's name in a request line, and the end of that line. */
  lemma RequestMarks(hc: Parser -> HeadersAnswer, s: Parser, t: seq<Event>)
    ensures s.state.ReqHttpStart? ==>
              Leads(hc, Conn(s, t, false), HTTP_SLASH, Conn(s.(state := ReqFirstHttpMajor), t, false))
    ensures s.state.ReqHttpMinor? ==> Leads(hc, Conn(s, t, false), CRLF, Conn(s.(state := HeaderFieldStart), t, false))
  {
    hide Leads;
    if s.state.ReqHttpStart? {
      PunctuationRun(hc, s, t, HTTP_SLASH, 
                     [ReqHttpStart, ReqHttpH, ReqHttpHT, ReqHttpHTT, ReqHttpHTTP, ReqFirstHttpMajor]);
    }
    if s.state.ReqHttpMinor? {
      PunctuationRun(hc, s, t, CRLF, [ReqHttpMinor, ReqLineAlmostDone, HeaderFieldStart]);
    }
  }

  // ---------------------------------------------------------------- numbers

  datatype Number = ReqMajor | ReqMinor | ResMajor | ResMinor | ResStatusNumber

  /** The state before the first digit. */
  function Before(f: Number): State {
    match f
    case ReqMajor => ReqFirstHttpMajor case ReqMinor => ReqFirstHttpMinor
    case ResMajor => ResFirstHttpMajor case ResMinor => ResFirstHttpMinor case ResStatusNumber => ResFirstStatusCode
  }

  /** After digits that denote `n`. */
  function Reading(s: Parser, f: Number, n: nat): Parser {
    match f
    case ReqMajor => s.(major := n, state := ReqHttpMajor)
    case ReqMinor => s.(minor := n, state := ReqHttpMinor)
    case ResMajor => s.(major := n, state := ResHttpMajor)
    case ResMinor => s.(minor := n, state := ResHttpMinor)
    case ResStatusNumber => s.(status := n, state := ResStatusCode)
  }

  function Digit(d: nat): byte
    requires d < 10
  {
    (d + '0' as int) as char
  }

  /** Only the major version of a request must not begin with 0. */
  lemma DigitSteps(hc: Parser -> HeadersAnswer, s: Parser, f: Number, n: nat, d: nat)
    requires d < 10 && n * 10 + d <= 999
    ensures s.state == Before(f) && (f.ReqMajor? ==> d > 0) ==>
              Step(hc, s, Digit(d), false) == StepResult(Reading(s, f, d), [], Go)
    ensures Step(hc, Reading(s, f, n), Digit(d), false) == StepResult(Reading(s, f, n * 10 + d), [], Go)
  {
    hide StatusLineByte, RequestLineByte, UrlByte, ChunkByte;
    if f.ReqMajor? || f.ReqMinor? {
      RequestDigits(s, f, n, d);
    } else {
      StatusDigits(s, f, n, d);
    }
  }

  lemma RequestDigits(s: Parser, f: Number, n: nat, d: nat)
    requires d < 10 && n * 10 + d <= 999 && (f.ReqMajor? || f.ReqMinor?)
    ensures s.state == Before(f) && (f.ReqMajor? ==> d > 0) ==>
              RequestLineByte(s, Digit(d)) == StepResult(Reading(s, f, d), [], Go)
    ensures RequestLineByte(Reading(s, f, n), Digit(d)) == StepResult(Reading(s, f, n * 10 + d), [], Go)
  {
    hide MethodByte;
  }

  lemma StatusDigits(s: Parser, f: Number, n: nat, d: nat)
    requires d < 10 && n * 10 + d <= 999 && !f.ReqMajor? && !f.ReqMinor?
    ensures s.state == Before(f) ==> StatusLineByte(s, Digit(d)) == StepResult(Reading(s, f, d), [], Go)
    ensures StatusLineByte(Reading(s, f, n), Digit(d)) == StepResult(Reading(s, f, n * 10 + d), [], Go)
  {
  }

  lemma {:induction false} NumberRead(hc: Parser -> HeadersAnswer, s: Parser, t: seq<Event>, f: Number, n: nat)
    requires s.state == Before(f) && n <= 999 && (f.ReqMajor? ==> n > 0)
    ensures Leads(hc, Conn(s, t, false), Dec(n), Conn(Reading(s, f, n), t, false))
  {
    hide Leads, Step;
    DigitSteps(hc, s, f, n / 10, n % 10);
    if n < 10 {
      QuietByte(hc, s, t, false, Digit(n), Reading(s, f, n));
    } else {
      var m := Reading(s, f, n / 10);
      NumberRead(hc, s, t, f, n / 10);
      QuietByte(hc, m, t, false, Digit(n % 10), Reading(s, f, n));
      LeadsOn(hc, Conn(s, t, false), Dec(n / 10), Conn(m, t, false), [Digit(n % 10)], Conn(Reading(s, f, n), t, false));
    }
  }
}
