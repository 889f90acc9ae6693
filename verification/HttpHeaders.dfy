/** Header lines: a name and a value are reported as they stand, and the names that matter are recognised. */
module HttpHeaders {
  import opened Bytes
  import opened Decimals
  import opened HttpTypes
  import opened HttpStep
  import opened HttpInvariant
  import opened HttpRun
  import opened HttpSplit
  import opened HttpPieces

  // ---------------------------------------------------------------- names

  /** The characters of a name as the `tokens` table gives them, in lower case. */
  function Folded(name: bytes): (r: bytes)
    ensures |r| == |name| && forall k :: 0 <= k < |name| ==> r[k] == Token(name[k])
  {
    seq(|name|, k requires 0 <= k < |name| => Token(name[k]))
  }

  predicate IsName(name: bytes) {
    name != [] && forall k :: 0 <= k < |name| ==> Token(name[k]) != '\0'
  }

  /** The beginning of a name that the parser looks for. */
  predicate Begins(p: bytes) {
    p <= CONNECTION || p <= PROXY_CONNECTION || p <= CONTENT_LENGTH || p <= TRANSFER_ENCODING || p <= UPGRADE
  }

  predicate Within(p: bytes, name: string, index: nat) {
    1 <= |p| < |name| && p <= name && index == |p| - 1
  }

  /** What the header state says about the part of a name read so far. */
  predicate Tracks(h: HState, index: nat, p: bytes) {
    match h
    case C => p == "c" && index == 0
    case CO => p == "co" && index == 1
    case CON => p == "con" && index == 2
    case MatchingConnection => |p| >= 4 && Within(p, CONNECTION, index)
    case MatchingProxyConnection => Within(p, PROXY_CONNECTION, index)
    case MatchingContentLength => |p| >= 4 && Within(p, CONTENT_LENGTH, index)
    case MatchingTransferEncoding => Within(p, TRANSFER_ENCODING, index)
    case MatchingUpgrade => Within(p, UPGRADE, index)
    case Connection => p == CONNECTION || p == PROXY_CONNECTION
    case ContentLength => p == CONTENT_LENGTH
    case TransferEncoding => p == TRANSFER_ENCODING
    case Upgrade => p == UPGRADE
    case General => !Begins(p)
    case _ => false
  }

  /** The first characters tell the names apart; the two that begin alike differ in their fourth. */
  lemma Initials()
    ensures |CONNECTION| == 10 && CONNECTION[0] == 'c' && CONNECTION[1] == 'o'
    ensures CONNECTION[2] == 'n' && CONNECTION[3] == 'n'
    ensures |CONTENT_LENGTH| == 14 && CONTENT_LENGTH[0] == 'c' && CONTENT_LENGTH[1] == 'o' && CONTENT_LENGTH[2] == 'n'
            && CONTENT_LENGTH[3] == 't'
    ensures |PROXY_CONNECTION| == 16 && PROXY_CONNECTION[0] == 'p'
    ensures |TRANSFER_ENCODING| == 17 && TRANSFER_ENCODING[0] == 't'
    ensures |UPGRADE| == 7 && UPGRADE[0] == 'u'
  {
  }

  /** `p` is as much of one of the names as tells it from the others. */
  predicate OnlyOf(p: bytes, name: string) {
    && 1 <= |p| && p <= name
    && (name == CONNECTION || name == PROXY_CONNECTION || name == CONTENT_LENGTH || name == TRANSFER_ENCODING
        || name == UPGRADE)
    && (name == CONNECTION || name == CONTENT_LENGTH ==> |p| >= 4)
  }

  /** Then what follows `p` is the beginning of a name only if it goes on with this one. */
  lemma OnlyThis(p: bytes, c: byte, name: string)
    requires OnlyOf(p, name)
    ensures Begins(p + [c]) <==> p + [c] <= name
    ensures p + [c] <= name <==> |p| < |name| && c == name[|p|]
  {
    Initials();
    hide CONNECTION, PROXY_CONNECTION, CONTENT_LENGTH, TRANSFER_ENCODING, UPGRADE;
    var q := p + [c];
    assert q[0] == p[0] == name[0];
    if |p| >= 4 {
      assert q[3] == p[3] == name[3];
    }
  }

  /** A match goes on, ends, or fails as the name does. */
  lemma MatchTracks(s: Parser, name: string, p: bytes, c: byte, stay: HState, hit: HState)
    requires 1 <= |name| < 127 && Within(p, name, s.index) && c != '\0'
    ensures var q := p + [c];
            Match(s, name, c, stay, General, hit)
            == s.(index := |p|, hstate := if !(q <= name) then General else if |q| == |name| then hit else stay)
  {
    assert p + [c] <= name <==> c == name[|p|];
  }

  /** One more character of a name. */
  lemma TrackStep(s: Parser, ch: byte, c: byte, p: bytes)
    requires p != [] && Tracks(s.hstate, s.index, p) && c != '\0' && ch != ' '
    ensures var s1 := FieldChar(s, ch, c);
            Tracks(s1.hstate, s1.index, p + [c]) && s1 == s.(index := s1.index, hstate := s1.hstate)
  {
    Initials();
    hide CONNECTION, PROXY_CONNECTION, CONTENT_LENGTH, TRANSFER_ENCODING, UPGRADE, Match;
    match s.hstate
    case MatchingConnection => MatchTracks(s, CONNECTION, p, c, MatchingConnection, Connection);
      OnlyThis(p, c, CONNECTION);
    case MatchingProxyConnection => MatchTracks(s, PROXY_CONNECTION, p, c, MatchingProxyConnection, Connection);
      OnlyThis(p, c, PROXY_CONNECTION);
    case MatchingContentLength => MatchTracks(s, CONTENT_LENGTH, p, c, MatchingContentLength, ContentLength);
      OnlyThis(p, c, CONTENT_LENGTH);
    case MatchingTransferEncoding => MatchTracks(s, TRANSFER_ENCODING, p, c, MatchingTransferEncoding,
                                                 TransferEncoding);
      OnlyThis(p, c, TRANSFER_ENCODING);
    case MatchingUpgrade => MatchTracks(s, UPGRADE, p, c, MatchingUpgrade, Upgrade);
      OnlyThis(p, c, UPGRADE);
    case Connection => OnlyThis(p, c, if p == CONNECTION then CONNECTION else PROXY_CONNECTION);
    case ContentLength => OnlyThis(p, c, CONTENT_LENGTH);
    case TransferEncoding => OnlyThis(p, c, TRANSFER_ENCODING);
    case Upgrade => OnlyThis(p, c, UPGRADE);
    case _ => ShortSteps(s, ch, c, p);
  }

  /** The states for one to three characters, and for a name of no interest. */
  lemma ShortSteps(s: Parser, ch: byte, c: byte, p: bytes)
    requires p != [] && Tracks(s.hstate, s.index, p) && c != '\0'
    requires s.hstate.C? || s.hstate.CO? || s.hstate.CON? || s.hstate.General?
    ensures var s1 := FieldChar(s, ch, c);
            Tracks(s1.hstate, s1.index, p + [c]) && s1 == s.(index := s1.index, hstate := s1.hstate)
  {
    Initials();
    hide CONNECTION, PROXY_CONNECTION, CONTENT_LENGTH, TRANSFER_ENCODING, UPGRADE, Match;
    var q := p + [c];
    assert q[..|p|] == p && q[0] == p[0];
  }

  /** The names that mean something to the parser. */
  predicate Special(name: bytes) {
    var p := Folded(name);
    p == CONNECTION || p == PROXY_CONNECTION || p == CONTENT_LENGTH || p == TRANSFER_ENCODING || p == UPGRADE
  }

  function InName(s: Parser, h: HState, i: nat): Parser {
    s.(state := HeaderField, hstate := h, index := i)
  }

  lemma NameStart(hc: Parser -> HeadersAnswer, s: Parser, ch: byte) returns (h: HState)
    requires s.state.HeaderFieldStart? && Token(ch) != '\0'
    ensures Step(hc, s, ch, false) == StepResult(InName(s, h, 0), [Data(OnHeaderField, [ch])], Go)
    ensures Tracks(h, 0, [Token(ch)])
  {
    Initials();
    hide CONNECTION, PROXY_CONNECTION, CONTENT_LENGTH, TRANSFER_ENCODING, UPGRADE, Token, IsAlpha;
    assert Token(CR) == '\0' && Token(LF) == '\0' by { NoTokens(); }
    h := match Token(ch) case 'c' => C case 'p' => MatchingProxyConnection case 't' => MatchingTransferEncoding
         case 'u' => MatchingUpgrade case _ => General;
  }

  lemma NoTokens()
    ensures Token(CR) == '\0' && Token(LF) == '\0' && Token(' ') == '\0' && Token(':') == '\0' && Token('\t') == '\0'
  {
  }

  lemma NameByte(hc: Parser -> HeadersAnswer, s: Parser, ch: byte, p: bytes)
    requires s.state.HeaderField? && Token(ch) != '\0' && p != [] && Tracks(s.hstate, s.index, p)
    ensures var s1 := FieldChar(s, ch, Token(ch));
            && Step(hc, s, ch, false) == StepResult(s1, [Data(OnHeaderField, [ch])], Go)
            && s1 == InName(s, s1.hstate, s1.index) && Tracks(s1.hstate, s1.index, p + [Token(ch)])
  {
    NoTokens();
    hide Tracks, FieldChar, Token;
    TrackStep(s, ch, Token(ch), p);
  }

  /** A name is reported as it stands, and the header state says whether it is one of those that matter. */
  lemma {:induction false} NameRead(hc: Parser -> HeadersAnswer, s: Parser, t: seq<Event>, name: bytes)
    returns (h: HState, i: nat)
    requires s.state.HeaderFieldStart? && IsName(name)
    ensures Leads(hc, Conn(s, t, false), name, Conn(InName(s, h, i), Emit(t, Data(OnHeaderField, name)), false))
    ensures Tracks(h, i, Folded(name))
    decreases |name|
  {
    hide Leads, Emit, Step, Tracks, FieldChar, Token;
    var n := |name| - 1;
    var init, ch := name[..n], name[n];
    assert name == init + [ch];
    assert Folded(name) == Folded(init) + [Token(ch)];
    if n == 0 {
      h := NameStart(hc, s, ch);
      i := 0;
      assert Folded(name) == [Token(ch)] && name == [ch];
      LoudByte(hc, s, t, false, ch, InName(s, h, 0), Data(OnHeaderField, [ch]));
    } else {
      var h0, i0 := NameRead(hc, s, t, init);
      var s0, t0 := InName(s, h0, i0), Emit(t, Data(OnHeaderField, init));
      NameByte(hc, s0, ch, Folded(init));
      var s1 := FieldChar(s0, ch, Token(ch));
      h, i := s1.hstate, s1.index;
      LoudByte(hc, s0, t0, false, ch, s1, Data(OnHeaderField, [ch]));
      EmitJoins(t, OnHeaderField, init, [ch]);
      LeadsOn(hc, Conn(s, t, false), init, Conn(s0, t0, false), [ch],
              Conn(InName(s, h, i), Emit(t, Data(OnHeaderField, name)), false));
    }
  }

  const COLON: bytes := ": "

  /** The name, the colon and a blank. */
  lemma NameColonRead(hc: Parser -> HeadersAnswer, s: Parser, t: seq<Event>, name: bytes) returns (h: HState, i: nat)
    requires s.state.HeaderFieldStart? && IsName(name)
    ensures Leads(hc, Conn(s, t, false), name + COLON,
                  Conn(s.(state := HeaderValueDiscardWs, hstate := h, index := i), Emit(t, Data(OnHeaderField, name)),
                       false))
    ensures Tracks(h, i, Folded(name))
  {
    h, i := NameRead(hc, s, t, name);
    var s0, t0 := InName(s, h, i), Emit(t, Data(OnHeaderField, name));
    var s1 := s.(state := HeaderValueDiscardWs, hstate := h, index := i);
    ColonStep(hc, s0);
    hide Leads, Emit, Step, Tracks;
    EmitJoins(t, OnHeaderField, name, []);
    assert name + [] == name;
    LoudByte(hc, s0, t0, false, ':', s1, Data(OnHeaderField, []));
    QuietByte(hc, s1, t0, false, ' ', s1);
    LeadsOn(hc, Conn(s0, t0, false), [':'], Conn(s1, t0, false), [' '], Conn(s1, t0, false));
    assert [':'] + [' '] == COLON;
    LeadsOn(hc, Conn(s, t, false), name, Conn(s0, t0, false), COLON, Conn(s1, t0, false));
  }

  lemma ColonStep(hc: Parser -> HeadersAnswer, s: Parser)
    requires s.state.HeaderField?
    ensures var s1 := s.(state := HeaderValueDiscardWs);
            && Step(hc, s, ':', false) == StepResult(s1, [Data(OnHeaderField, [])], Go)
            && Step(hc, s1, ' ', false) == StepResult(s1, [], Go)
  {
    NoTokens();
    hide Token;
  }

  // ---------------------------------------------------------------- the end of a line

  /** What follows a header line begins another, or ends the header: it does not continue the line. */
  predicate StartsLine(b: bytes) {
    b != [] && b[0] != ' ' && b[0] != '\t'
  }

  function Later(r: RunResult, n: nat): RunResult {
    r.(n := r.n + n)
  }

  /** The run over `a` leads from `c` to `d`, if what follows does not continue the line. */
  ghost predicate LeadsBefore(hc: Parser -> HeadersAnswer, c: Conn, a: bytes, d: Conn) {
    forall b: bytes :: StartsLine(b) ==> Bytewise(hc, c, a + b, 0) == Later(Bytewise(hc, d, b, 0), |a|)
  }

  lemma LwsAsStart(hc: Parser -> HeadersAnswer, s: Parser, t: seq<Event>, b: bytes)
    requires s.state.HeaderValueLws? && StartsLine(b)
    ensures Bytewise(hc, Conn(s, t, false), b, 0)
         == Bytewise(hc, Conn(FinishValue(s).(state := HeaderFieldStart), t, false), b, 0)
  {
    var s1 := FinishValue(s).(state := HeaderFieldStart);
    assert Step(hc, s, b[0], false) == Step(hc, s1, b[0], false);
    hide Step, EmitAll;
  }

  lemma ValueEndSteps(hc: Parser -> HeadersAnswer, s: Parser)
    requires s.state.HeaderValue?
    ensures Step(hc, s, CR, false) == StepResult(s.(state := HeaderAlmostDone), [Data(OnHeaderValue, [])], Go)
    ensures Step(hc, s.(state := HeaderAlmostDone), LF, false) == StepResult(s.(state := HeaderValueLws), [], Go)
  {
  }

  /** The line is over: the flags that the value sets are set when the next line begins. */
  lemma LineEnds(hc: Parser -> HeadersAnswer, c: Conn, line: bytes, s: Parser, t: seq<Event>, v: bytes, shadow: bool)
    requires s.state.HeaderValue? && Leads(hc, c, line, Conn(s, Emit(t, Data(OnHeaderValue, v)), shadow))
    ensures LeadsBefore(hc, c, line + CRLF,
                        Conn(FinishValue(s).(state := HeaderFieldStart), Emit(t, Data(OnHeaderValue, v)), false))
  {
    ValueEndSteps(hc, s);
    hide Leads, LeadsBefore, Emit, Step, Bytewise, FinishValue;
    var t1 := Emit(t, Data(OnHeaderValue, v));
    var s1, s2 := s.(state := HeaderAlmostDone), s.(state := HeaderValueLws);
    EmitJoins(t, OnHeaderValue, v, []);
    assert v + [] == v;
    LoudByte(hc, s, t1, shadow, CR, s1, Data(OnHeaderValue, []));
    QuietByte(hc, s1, t1, false, LF, s2);
    LeadsOn(hc, Conn(s, t1, shadow), [CR], Conn(s1, t1, false), [LF], Conn(s2, t1, false));
    assert [CR] + [LF] == CRLF;
    LeadsOn(hc, c, line, Conn(s, t1, shadow), CRLF, Conn(s2, t1, false));
    LwsBefore(hc, c, line + CRLF, s2, t1);
    FinishAnywhere(s);
  }

  lemma FinishAnywhere(s: Parser)
    ensures FinishValue(s.(state := HeaderValueLws)).(state := HeaderFieldStart)
         == FinishValue(s).(state := HeaderFieldStart)
  {
  }

  lemma LwsBefore(hc: Parser -> HeadersAnswer, c: Conn, a: bytes, s: Parser, t: seq<Event>)
    requires s.state.HeaderValueLws? && Leads(hc, c, a, Conn(s, t, false))
    ensures LeadsBefore(hc, c, a, Conn(FinishValue(s).(state := HeaderFieldStart), t, false))
  {
    hide Leads, Bytewise, FinishValue;
    forall b: bytes | StartsLine(b)
      ensures Bytewise(hc, c, a + b, 0)
           == Later(Bytewise(hc, Conn(FinishValue(s).(state := HeaderFieldStart), t, false), b, 0), |a|)
    {
      LwsAsStart(hc, s, t, b);
      LeadsThen(hc, c, a, Conn(s, t, false), b);
    }
  }

  lemma BeforeOn(hc: Parser -> HeadersAnswer, c: Conn, a: bytes, d: Conn, b: bytes, e: Conn)
    requires LeadsBefore(hc, c, a, d) && LeadsBefore(hc, d, b, e) && StartsLine(b)
    ensures LeadsBefore(hc, c, a + b, e)
  {
    hide Bytewise;
    forall x: bytes | StartsLine(x) ensures Bytewise(hc, c, a + b + x, 0) == Later(Bytewise(hc, e, x, 0), |a + b|) {
      assert a + b + x == a + (b + x);
    }
  }

  // ---------------------------------------------------------------- values of no interest

  /** A value: no line end, no blank at its beginning, and for a strict parser no control character. */
  predicate IsValue(v: bytes, lenient: bool) {
    && StartsLine(v)
    && forall k :: 0 <= k < |v| ==> v[k] != CR && v[k] != LF && (lenient || IsHeaderChar(v[k]))
  }

  predicate Plain(h: HState) {
    !h.Connection? && !h.ContentLength? && !h.TransferEncoding? && !h.Upgrade? && !h.MatchingConnectionTokenStart?
  }

  lemma PlainStart(hc: Parser -> HeadersAnswer, s: Parser, ch: byte)
    requires s.state.HeaderValueDiscardWs? && Plain(s.hstate) && ch != CR && ch != LF && ch != ' ' && ch != '\t'
    ensures Step(hc, s, ch, false)
         == StepResult(s.(state := HeaderValue, index := 0, hstate := General), [Data(OnHeaderValue, [ch])], Go)
  {
  }

  lemma PlainByte(hc: Parser -> HeadersAnswer, s: Parser, ch: byte)
    requires s.state.HeaderValue? && s.hstate.General? && s.errno == Ok
    requires ch != CR && ch != LF && (s.lenient || IsHeaderChar(ch))
    ensures Step(hc, s, ch, false) == StepResult(s, [Data(OnHeaderValue, [ch])], Go)
  {
  }

  lemma {:induction false} PlainValueRead(hc: Parser -> HeadersAnswer, s: Parser, t: seq<Event>, v: bytes)
    requires s.state.HeaderValueDiscardWs? && Plain(s.hstate) && s.errno == Ok && IsValue(v, s.lenient)
    ensures Leads(hc, Conn(s, t, false), v,
                  Conn(s.(state := HeaderValue, index := 0, hstate := General), Emit(t, Data(OnHeaderValue, v)),
                       |v| > 1))
    decreases |v|
  {
    hide Leads, Emit, Step, IsHeaderChar;
    var s1 := s.(state := HeaderValue, index := 0, hstate := General);
    var n := |v| - 1;
    var init, ch := v[..n], v[n];
    assert v == init + [ch];
    if n == 0 {
      assert v == [ch];
      PlainStart(hc, s, ch);
      LoudByte(hc, s, t, false, ch, s1, Data(OnHeaderValue, [ch]));
    } else {
      PlainValueRead(hc, s, t, init);
      var t1 := Emit(t, Data(OnHeaderValue, init));
      PlainByte(hc, s1, ch);
      LoudByte(hc, s1, t1, |init| > 1, ch, s1, Data(OnHeaderValue, [ch]));
      EmitJoins(t, OnHeaderValue, init, [ch]);
      LeadsOn(hc, Conn(s, t, false), init, Conn(s1, t1, |init| > 1), [ch],
              Conn(s1, Emit(t, Data(OnHeaderValue, v)), true));
    }
  }

  datatype Header = Header(name: bytes, value: bytes)

  function Line(h: Header): bytes {
    h.name + COLON + h.value + CRLF
  }

  function LineEvents(h: Header): seq<Event> {
    [Data(OnHeaderField, h.name), Data(OnHeaderValue, h.value)]
  }

  predicate PlainHeader(h: Header, lenient: bool) {
    IsName(h.name) && !Special(h.name) && IsValue(h.value, lenient)
  }

  /** A header of no interest: name and value are reported as they stand, and nothing else changes. */
  lemma PlainLine(hc: Parser -> HeadersAnswer, s: Parser, t: seq<Event>, h: Header)
    requires s.state.HeaderFieldStart? && s.errno == Ok && PlainHeader(h, s.lenient)
    ensures LeadsBefore(hc, Conn(s, t, false), Line(h),
                        Conn(s.(hstate := General, index := 0), EmitAll(t, LineEvents(h)), false))
  {
    hide Leads, LeadsBefore, Emit, EmitAll, Step, CONNECTION, PROXY_CONNECTION, CONTENT_LENGTH, TRANSFER_ENCODING,
      UPGRADE;
    var h1, i1 := NameColonRead(hc, s, t, h.name);
    var s1, t1 := s.(state := HeaderValueDiscardWs, hstate := h1, index := i1), Emit(t, Data(OnHeaderField, h.name));
    PlainValueRead(hc, s1, t1, h.value);
    var s2 := s1.(state := HeaderValue, index := 0, hstate := General);
    LeadsOn(hc, Conn(s, t, false), h.name + COLON, Conn(s1, t1, false), h.value,
            Conn(s2, Emit(t1, Data(OnHeaderValue, h.value)), |h.value| > 1));
    LineEnds(hc, Conn(s, t, false), h.name + COLON + h.value, s2, t1, h.value, |h.value| > 1);
    EmitTwo(t, Data(OnHeaderField, h.name), Data(OnHeaderValue, h.value));
  }
}
