/** From the end of the first line to the end of a message: headers, and the body that they announce. */
module HttpMessage {
  import opened Bytes
  import opened Decimals
  import opened HttpTypes
  import opened HttpStep
  import opened HttpInvariant
  import opened HttpRun
  import opened HttpSplit
  import opened HttpPieces
  import opened HttpHeaders
  import opened HttpOptions
  import opened HttpFraming
  import C = HttpChunked

  // ---------------------------------------------------------------- the header

  function Lines(hs: seq<Header>): bytes {
    if hs == [] then [] else Line(hs[0]) + Lines(hs[1..])
  }

  function LinesEvents(hs: seq<Header>): seq<Event> {
    if hs == [] then [] else LineEvents(hs[0]) + LinesEvents(hs[1..])
  }

  function AfterLines(s: Parser, hs: seq<Header>): Parser
    decreases |hs|
  {
    if hs == [] then s else AfterLines(AfterLine(s, hs[0]), hs[1..])
  }

  predicate IsLengthLine(h: Header) {
    Folded(h.name) == CONTENT_LENGTH
  }

  /** Headers that are understood, with at most one length among them. */
  predicate HeadersOk(hs: seq<Header>, lenient: bool, measured: bool)
    decreases |hs|
  {
    hs == []
    || (&& Understood(hs[0], lenient) && (IsLengthLine(hs[0]) ==> !measured)
        && HeadersOk(hs[1..], lenient, measured || IsLengthLine(hs[0])))
  }

  lemma LinesStart(hs: seq<Header>, lenient: bool, measured: bool)
    requires hs != [] && HeadersOk(hs, lenient, measured)
    ensures StartsLine(Lines(hs))
  {
    NoTokens();
    hide Token, Folded, IsValue, Spells, CONNECTION, PROXY_CONNECTION, CONTENT_LENGTH, TRANSFER_ENCODING, UPGRADE;
    assert IsName(hs[0].name);
    assert Lines(hs)[0] == hs[0].name[0];
  }

  /** The flags and the length after all lines. */
  function MeantAll(f: Flags, hs: seq<Header>): Flags
    decreases |hs|
  {
    if hs == [] then f else MeantAll(Meant(f, hs[0]), hs[1..])
  }

  function LengthAll(n: nat, hs: seq<Header>): nat
    decreases |hs|
  {
    if hs == [] then n else LengthAll(MeantLength(n, hs[0]), hs[1..])
  }

  lemma MeantMeasured(f: Flags, h: Header)
    ensures Meant(f, h).contentLength == (f.contentLength || IsLengthLine(h))
  {
    NamesApart();
    hide Folded, CONNECTION, PROXY_CONNECTION, CONTENT_LENGTH, TRANSFER_ENCODING, UPGRADE, Options, Whole;
  }

  /** The lines mean what their names and values say, and touch nothing else. */
  lemma {:induction false} LinesMean(s: Parser, hs: seq<Header>)
    requires s.state.HeaderFieldStart? && s.errno == Ok && HeadersOk(hs, s.lenient, s.flags.contentLength)
    ensures var d := AfterLines(s, hs);
            d == s.(hstate := d.hstate, index := d.index, contentLength := LengthAll(s.contentLength, hs),
                    flags := MeantAll(s.flags, hs))
    decreases |hs|
  {
    hide AfterLine, Meant, MeantLength, Understood, IsLengthLine;
    if hs != [] {
      LineMeans(s, hs[0]);
      MeantMeasured(s.flags, hs[0]);
      LinesMean(AfterLine(s, hs[0]), hs[1..]);
    }
  }

  // ---------------------------------------------------------------- flags from the lines

  /** Some line of a Connection has the word among its options. */
  predicate HasOption(hs: seq<Header>, w: Word) {
    exists k :: 0 <= k < |hs| && IsConnection(hs[k]) && w in Options(hs[k].value, true)
  }

  /** Some Transfer-Encoding is `chunked`. */
  predicate HasChunked(hs: seq<Header>) {
    exists k :: 0 <= k < |hs| && Folded(hs[k].name) == TRANSFER_ENCODING && Whole(hs[k].value, Chunked)
  }

  predicate HasName(hs: seq<Header>, name: bytes) {
    exists k :: 0 <= k < |hs| && Folded(hs[k].name) == name
  }

  /** Each flag is set exactly if some line sets it. */
  lemma {:induction false} FlagsExact(f: Flags, hs: seq<Header>)
    ensures var g := MeantAll(f, hs);
            && g.close == (f.close || HasOption(hs, Close))
            && g.keepAlive == (f.keepAlive || HasOption(hs, KeepAlive))
            && g.connectionUpgrade == (f.connectionUpgrade || HasOption(hs, ToUpgrade))
            && g.chunked == (f.chunked || HasChunked(hs))
            && g.upgrade == (f.upgrade || HasName(hs, UPGRADE))
            && g.contentLength == (f.contentLength || HasName(hs, CONTENT_LENGTH))
            && g.trailing == f.trailing && g.skipBody == f.skipBody
    decreases |hs|
  {
    hide *;
    if hs == [] {
      NoFlags(f);
    } else {
      FlagsExact(Meant(f, hs[0]), hs[1..]);
      FirstFlags(f, hs);
      FirstOption(hs);
      FirstName(hs);
    }
  }

  lemma NoFlags(f: Flags)
    ensures MeantAll(f, []) == f && !HasChunked([])
    ensures forall w :: !HasOption([], w)
    ensures !HasName([], UPGRADE) && !HasName([], CONTENT_LENGTH)
  {
  }

  lemma FirstFlags(f: Flags, hs: seq<Header>)
    requires hs != []
    ensures MeantAll(f, hs) == MeantAll(Meant(f, hs[0]), hs[1..])
    ensures var h, g := hs[0], Meant(f, hs[0]);
            && g.close == (f.close || (IsConnection(h) && Close in Options(h.value, true)))
            && g.keepAlive == (f.keepAlive || (IsConnection(h) && KeepAlive in Options(h.value, true)))
            && g.connectionUpgrade == (f.connectionUpgrade || (IsConnection(h) && ToUpgrade in Options(h.value, true)))
            && g.chunked == (f.chunked || (Folded(h.name) == TRANSFER_ENCODING && Whole(h.value, Chunked)))
            && g.upgrade == (f.upgrade || Folded(h.name) == UPGRADE)
            && g.contentLength == (f.contentLength || Folded(h.name) == CONTENT_LENGTH)
            && g.trailing == f.trailing && g.skipBody == f.skipBody
  {
    hide *;
    MeantStep(f, hs);
    MeantBy(f, hs[0]);
    AddedFlags(f, Options(hs[0].value, true));
  }

  /** A line has one name. */
  lemma MeantBy(f: Flags, h: Header)
    ensures var n, p := Folded(h.name), IsConnection(h);
            && !(n == CONTENT_LENGTH && (n == UPGRADE || n == TRANSFER_ENCODING || p))
            && !(n == UPGRADE && (n == TRANSFER_ENCODING || p)) && !(n == TRANSFER_ENCODING && p)
            && Meant(f, h) == if n == CONTENT_LENGTH then f.(contentLength := true)
                              else if n == UPGRADE then f.(upgrade := true)
                              else if n == TRANSFER_ENCODING then f.(chunked := f.chunked || Whole(h.value, Chunked))
                              else if p then Added(f, Options(h.value, true)) else f
  {
    NamesApart();
    hide Folded, Options, Whole, CONNECTION, PROXY_CONNECTION, CONTENT_LENGTH, TRANSFER_ENCODING, UPGRADE, Added;
  }

  /** What a list of options adds. */
  lemma AddedFlags(f: Flags, ws: set<Word>)
    ensures var g := Added(f, ws);
            && g.close == (f.close || Close in ws) && g.keepAlive == (f.keepAlive || KeepAlive in ws)
            && g.connectionUpgrade == (f.connectionUpgrade || ToUpgrade in ws) && g.chunked == f.chunked
            && g.upgrade == f.upgrade && g.contentLength == f.contentLength && g.trailing == f.trailing
            && g.skipBody == f.skipBody
  {
  }

  lemma MeantStep(f: Flags, hs: seq<Header>)
    requires hs != []
    ensures MeantAll(f, hs) == MeantAll(Meant(f, hs[0]), hs[1..])
  {
    hide Meant;
  }

  lemma FirstOption(hs: seq<Header>)
    requires hs != []
    ensures forall w ::
              HasOption(hs, w) <==>
                (IsConnection(hs[0]) && w in Options(hs[0].value, true)) || HasOption(hs[1..], w)
  {
    hide IsConnection, Options;
    forall w: Word
      ensures HasOption(hs, w) <==> (IsConnection(hs[0]) && w in Options(hs[0].value, true)) || HasOption(hs[1..], w)
    {
      if HasOption(hs[1..], w) {
        var k :| 0 <= k < |hs[1..]| && IsConnection(hs[1..][k]) && w in Options(hs[1..][k].value, true);
        assert hs[k + 1] == hs[1..][k];
      }
      if k :| 0 < k < |hs| && IsConnection(hs[k]) && w in Options(hs[k].value, true) {
        assert hs[1..][k - 1] == hs[k];
      }
    }
  }

  lemma FirstName(hs: seq<Header>)
    requires hs != []
    ensures HasChunked(hs)
        <==> (Folded(hs[0].name) == TRANSFER_ENCODING && Whole(hs[0].value, Chunked)) || HasChunked(hs[1..])
    ensures HasName(hs, UPGRADE) <==> Folded(hs[0].name) == UPGRADE || HasName(hs[1..], UPGRADE)
    ensures HasName(hs, CONTENT_LENGTH) <==> Folded(hs[0].name) == CONTENT_LENGTH || HasName(hs[1..], CONTENT_LENGTH)
  {
    hide Folded, Whole, TRANSFER_ENCODING;
    assert forall k :: 0 < k < |hs| ==> hs[k] == hs[1..][k - 1];
    forall name: bytes ensures HasName(hs, name) <==> Folded(hs[0].name) == name || HasName(hs[1..], name) {
      if HasName(hs[1..], name) {
        var k :| 0 <= k < |hs[1..]| && Folded(hs[1..][k].name) == name;
        assert hs[k + 1] == hs[1..][k];
      }
    }
    if HasChunked(hs[1..]) {
      var k :| 0 <= k < |hs[1..]| && Folded(hs[1..][k].name) == TRANSFER_ENCODING && Whole(hs[1..][k].value, Chunked);
      assert hs[k + 1] == hs[1..][k];
    }
  }

  /** The lines of a header are reported one after the other, and mean what each of them means. */
  lemma {:induction false} LinesRead(hc: Parser -> HeadersAnswer, s: Parser, t: seq<Event>, hs: seq<Header>)
    requires s.state.HeaderFieldStart? && s.errno == Ok && HeadersOk(hs, s.lenient, s.flags.contentLength)
    ensures LeadsBefore(hc, Conn(s, t, false), Lines(hs), Conn(AfterLines(s, hs), EmitAll(t, LinesEvents(hs)), false))
    decreases |hs|
  {
    if hs == [] {
      NothingBefore(hc, Conn(s, t, false));
      EmitNone(t);
    } else {
      hide LeadsBefore, EmitAll, AfterLine, Line, LineEvents, Understood, IsLengthLine, Meant, MeantLength;
      var s1, t1 := AfterLine(s, hs[0]), EmitAll(t, LineEvents(hs[0]));
      LineMeans(s, hs[0]);
      MeantMeasured(s.flags, hs[0]);
      LengthLineOnce(hs[0], s.flags.contentLength);
      LineRead(hc, s, t, hs[0]);
      LinesRead(hc, s1, t1, hs[1..]);
      EmitAllConcat(t, LineEvents(hs[0]), LinesEvents(hs[1..]));
      var d := Conn(AfterLines(s, hs), EmitAll(t, LinesEvents(hs)), false);
      if hs[1..] == [] {
        assert Line(hs[0]) + [] == Line(hs[0]);
        EmitNone(t1);
      } else {
        LinesStart(hs[1..], s.lenient, s1.flags.contentLength);
        BeforeOn(hc, Conn(s, t, false), Line(hs[0]), Conn(s1, t1, false), Lines(hs[1..]), d);
      }
    }
  }

  lemma LengthLineOnce(h: Header, measured: bool)
    requires IsLengthLine(h) ==> !measured
    ensures Folded(h.name) == CONTENT_LENGTH ==> !measured
  {
  }

  lemma NothingBefore(hc: Parser -> HeadersAnswer, c: Conn)
    ensures LeadsBefore(hc, c, [], c)
  {
    hide Bytewise;
    forall b: bytes | StartsLine(b) ensures Bytewise(hc, c, [] + b, 0) == Later(Bytewise(hc, c, b, 0), 0) {
      assert [] + b == b;
    }
  }

  /** The length is that of the one line that tells it. */
  lemma {:induction false} LengthExact(n: nat, hs: seq<Header>, lenient: bool, measured: bool)
    requires HeadersOk(hs, lenient, measured)
    ensures measured || !HasName(hs, CONTENT_LENGTH) ==> LengthAll(n, hs) == n
    ensures !measured && HasName(hs, CONTENT_LENGTH) ==>
              exists k :: 0 <= k < |hs| && LengthWithin(hs[k]) && LengthAll(n, hs) == Length(0, hs[k].value)
    decreases |hs|
  {
    hide Folded, Length, IsName, IsValue, LengthAll, HasName;
    if hs == [] {
      NoLength(n);
    } else {
      NextLength(n, hs);
      var m := MeantLength(n, hs[0]);
      LengthExact(m, hs[1..], lenient, measured || IsLengthLine(hs[0]));
      if !measured && !IsLengthLine(hs[0]) && HasName(hs[1..], CONTENT_LENGTH) {
        var k :| 0 <= k < |hs[1..]| && LengthWithin(hs[1..][k]) && LengthAll(n, hs[1..]) == Length(0, hs[1..][k].value);
        assert hs[k + 1] == hs[1..][k];
      }
    }
  }

  lemma NoLength(n: nat)
    ensures LengthAll(n, []) == n && !HasName([], CONTENT_LENGTH)
  {
  }

  lemma NextLength(n: nat, hs: seq<Header>)
    requires hs != []
    ensures LengthAll(n, hs) == LengthAll(MeantLength(n, hs[0]), hs[1..])
    ensures HasName(hs, CONTENT_LENGTH) <==> IsLengthLine(hs[0]) || HasName(hs[1..], CONTENT_LENGTH)
  {
    hide Folded, Length, IsLength;
    FirstName(hs);
  }

  /** What `on_headers_complete` sees. */
  function Headed(s: Parser): Parser {
    s.(state := HeadersDone, upgrade := (s.flags.upgrade && s.flags.connectionUpgrade) || s.verb == CONNECT)
  }

  /** The parser when the body is due; the callback may have said that there is none. */
  function Begun(hc: Parser -> HeadersAnswer, s: Parser): Parser {
    Answered(Headed(s), hc(Headed(s)))
  }

  lemma HeadSteps(hc: Parser -> HeadersAnswer, s: Parser)
    requires s.state.HeaderFieldStart? && !s.flags.trailing
    ensures var s1 := s.(state := HeadersAlmostDone);
            && Step(hc, s, CR, false) == StepResult(s1, [], Go)
            && (s.flags.chunked && s.flags.contentLength ==>
                  Step(hc, s1, LF, false) == StepResult(s1.(errno := UnexpectedContentLength), [], Fail))
            && (!(s.flags.chunked && s.flags.contentLength) && !hc(Headed(s)).Refuse? ==>
                  Step(hc, s1, LF, false)
                  == After([Notify(OnHeadersComplete, Headed(s))], HeadersDoneByte(Begun(hc, s))))
  {
    hide HeadersDoneByte, MessageDoneByte, Token, Answered;
  }

  /** A message with both a length and a chunked coding is refused at the end of its header. */
  lemma BothLengthsRefused(hc: Parser -> HeadersAnswer, s: Parser, t: seq<Event>, rest: bytes)
    requires s.state.HeaderFieldStart? && !s.flags.trailing && s.flags.chunked && s.flags.contentLength
    ensures var r := Bytewise(hc, Conn(s, t, false), CRLF + rest, 0);
            r.out.Fail? && r.c.s.errno == UnexpectedContentLength && r.n == 1
  {
    HeadSteps(hc, s);
    hide Step, Bytewise, SkipsBadByte;
    var s1 := s.(state := HeadersAlmostDone);
    QuietByte(hc, s, t, false, CR, s1);
    OneByte(hc, Conn(s1, t, false), LF);
    LeadsThen(hc, Conn(s, t, false), [CR], Conn(s1, t, false), [LF]);
    assert [CR] + [LF] == CRLF;
    BytewiseConcat(hc, Conn(s, t, false), CRLF, rest, 0);
  }

  // ---------------------------------------------------------------- bodies

  /** No body, one of a known length, one in chunks, or all that comes until the stream ends. */
  datatype Body = None | Sized(body: bytes) | Chunks(chunks: seq<bytes>, upper: bool) | Rest(rest: bytes)

  function BodyText(b: Body): bytes {
    match b
    case None => [] case Sized(w) => w case Chunks(cs, upper) => C.Encode(cs, upper) case Rest(w) => w
  }

  /** A message that has no body whatever its header says. */
  predicate Bodiless(s: Parser) {
    s.flags.skipBody || (s.upgrade && s.verb == CONNECT)
  }

  /** A response whose status does not forbid a body: without a length it lasts as long as the stream. */
  predicate Endless(s: Parser) {
    !s.ptype.Request? && !(100 <= s.status < 200) && s.status != 204 && s.status != 304
  }

  /** The header tells nothing of a length. */
  predicate Unmeasured(s: Parser) {
    !s.flags.chunked && s.contentLength == ULLONG_MAX
  }

  /** The body is of the kind and length that the header announces. */
  predicate Announces(s: Parser, b: Body) {
    match b
    case None =>
      || Bodiless(s) || (!s.flags.chunked && s.contentLength == 0)
      || (Unmeasured(s) && (s.upgrade || !Endless(s)))
    case Sized(w) => !Bodiless(s) && !s.flags.chunked && 0 < |w| == s.contentLength != ULLONG_MAX
    case Chunks(cs, _) => !Bodiless(s) && s.flags.chunked && C.Encodable(cs)
    case Rest(_) => !Bodiless(s) && Unmeasured(s) && !s.upgrade && Endless(s)
  }

  /** A header announces a body of one kind. */
  lemma OneKind(s: Parser, a: Body, b: Body)
    requires Announces(s, a) && Announces(s, b)
    ensures a.None? == b.None? && a.Sized? == b.Sized? && a.Chunks? == b.Chunks? && a.Rest? == b.Rest?
    ensures a.Sized? ==> |a.body| == |b.body|
  {
    hide C.Encodable;
  }

  /** The parser after the message; one that is read to the end of the stream goes on. */
  function Final(s: Parser, b: Body): Parser {
    match b
    case None => s.(state := NewMessage(s))
    case Sized(_) => s.(contentLength := 0, state := NewMessage(s.(contentLength := 0)))
    case Chunks(_, _) => C.Ended(s)
    case Rest(_) => s.(state := BodyIdentityEof)
  }

  function BodyEvents(s: Parser, b: Body): seq<Event> {
    match b
    case None => [Notify(OnMessageComplete, Final(s, b))]
    case Sized(w) => [Data(OnBody, w), Notify(OnMessageComplete, Final(s, b))]
    case Chunks(cs, _) => C.Events(s, cs)
    case Rest(w) => if w == [] then [] else [Data(OnBody, w)]
  }

  /** What decides on the body. */
  lemma BodyDecided(s: Parser, b: Body)
    requires Announces(s, b)
    ensures HeadersDoneByte(s)
         == match b
            case None => StepResult(Final(s, b), BodyEvents(s, b), if s.upgrade then Exit else Go)
            case Sized(_) => StepResult(s.(state := BodyIdentity), [], Go)
            case Chunks(_, _) => StepResult(s.(state := ChunkSizeStart), [], Go)
            case Rest(_) => StepResult(s.(state := BodyIdentityEof), [], Go)
  {
    hide C.Encodable, C.Events, C.Ended, NewMessage;
  }

  lemma BodySteps(hc: Parser -> HeadersAnswer, s: Parser, ch: byte)
    requires s.state.BodyIdentity? && s.contentLength > 0
    ensures s.contentLength > 1 ==>
              Step(hc, s, ch, false) == StepResult(s.(contentLength := s.contentLength - 1), [Data(OnBody, [ch])], Go)
    ensures s.contentLength == 1 ==>
              var e := Final(s, Sized([ch]));
              Step(hc, s, ch, false)
              == StepResult(e, [Data(OnBody, [ch])] + [Notify(OnMessageComplete, e)], if s.upgrade then Exit else Go)
  {
    hide NeedsEof;
    NewMessageAnywhere(s);
  }

  /** The state after a message does not depend on the state within it. */
  lemma NewMessageAnywhere(s: Parser)
    ensures NewMessage(s.(contentLength := 0, state := MessageDone)) == NewMessage(s.(contentLength := 0))
  {
  }

  lemma SameFinal(s: Parser, n: nat, v: bytes, w: bytes)
    ensures Final(s.(contentLength := n), Sized(w)) == Final(s, Sized(v))
  {
    hide NewMessage;
  }

  /** A body of announced length is reported as one run, and the message ends with it. */
  lemma {:induction false} SizedRead(hc: Parser -> HeadersAnswer, s: Parser, t: seq<Event>, w: bytes)
    requires s.state.BodyIdentity? && 0 < |w| == s.contentLength
    ensures Bytewise(hc, Conn(s, t, false), w, 0)
         == RunResult(Conn(Final(s, Sized(w)),
                           Emit(Emit(t, Data(OnBody, w)), Notify(OnMessageComplete, Final(s, Sized(w)))), false),
                      |w|, if s.upgrade then Exit else Go)
    decreases |w|
  {
    hide *;
    if |w| == 1 {
      OneOfBody(w);
      LastOfBody(hc, s, t, w[0]);
    } else {
      SizedRead(hc, s.(contentLength := s.contentLength - 1), Emit(t, Data(OnBody, [w[0]])), w[1..]);
      MoreOfBody(hc, s, t, w);
    }
  }

  lemma OneOfBody(w: bytes)
    requires |w| == 1
    ensures w == [w[0]]
  {
  }

  lemma MoreOfBody(hc: Parser -> HeadersAnswer, s: Parser, t: seq<Event>, w: bytes)
    requires s.state.BodyIdentity? && 1 < |w| == s.contentLength
    requires var s1, t1 := s.(contentLength := s.contentLength - 1), Emit(t, Data(OnBody, [w[0]]));
             var e := Final(s1, Sized(w[1..]));
             Bytewise(hc, Conn(s1, t1, false), w[1..], 0)
             == RunResult(Conn(e, Emit(Emit(t1, Data(OnBody, w[1..])), Notify(OnMessageComplete, e)), false),
                          |w[1..]|, if s1.upgrade then Exit else Go)
    ensures var e := Final(s, Sized(w));
            Bytewise(hc, Conn(s, t, false), w, 0)
            == RunResult(Conn(e, Emit(Emit(t, Data(OnBody, w)), Notify(OnMessageComplete, e)), false),
                         |w|, if s.upgrade then Exit else Go)
  {
    BodySteps(hc, s, w[0]);
    SameFinal(s, s.contentLength - 1, w, w[1..]);
    hide Step, Emit, EmitAll, Bytewise, SkipsBadByte, Final;
    var s1, t1 := s.(contentLength := s.contentLength - 1), Emit(t, Data(OnBody, [w[0]]));
    LoudByte(hc, s, t, false, w[0], s1, Data(OnBody, [w[0]]));
    LeadsThen(hc, Conn(s, t, false), [w[0]], Conn(s1, t1, false), w[1..]);
    EmitJoins(t, OnBody, [w[0]], w[1..]);
    assert [w[0]] + w[1..] == w;
  }

  lemma LastOfBody(hc: Parser -> HeadersAnswer, s: Parser, t: seq<Event>, ch: byte)
    requires s.state.BodyIdentity? && s.contentLength == 1
    ensures Bytewise(hc, Conn(s, t, false), [ch], 0)
         == RunResult(Conn(Final(s, Sized([ch])),
                           Emit(Emit(t, Data(OnBody, [ch])), Notify(OnMessageComplete, Final(s, Sized([ch])))), false),
                      1, if s.upgrade then Exit else Go)
  {
    BodySteps(hc, s, ch);
    hide Step, Emit, EmitAll, Bytewise, Final;
    var e := Notify(OnMessageComplete, Final(s, Sized([ch])));
    OneByte(hc, Conn(s, t, false), ch);
    EmitAllConcat(t, [Data(OnBody, [ch])], [e]);
    EmitOne(t, Data(OnBody, [ch]));
    EmitOne(Emit(t, Data(OnBody, [ch])), e);
  }

  /** A body to the end of the stream is reported as one run. */
  lemma {:induction false} RestRead(hc: Parser -> HeadersAnswer, s: Parser, t: seq<Event>, w: bytes)
    requires s.state.BodyIdentityEof?
    ensures Leads(hc, Conn(s, t, false), w, Conn(s, EmitAll(t, BodyEvents(s, Rest(w))), false))
    decreases |w|
  {
    assert forall ch: byte :: Step(hc, s, ch, false) == StepResult(s, [Data(OnBody, [ch])], Go);
    hide Step, Emit, EmitAll;
    if w == [] {
      EmitNone(t);
    } else {
      hide Leads;
      var n := |w| - 1;
      var init, ch := w[..n], w[n];
      assert w == init + [ch];
      RestRead(hc, s, t, init);
      EmitOne(t, Data(OnBody, w));
      if n == 0 {
        assert w == [ch];
        LoudByte(hc, s, t, false, ch, s, Data(OnBody, [ch]));
      } else {
        EmitOne(t, Data(OnBody, init));
        EmitJoins(t, OnBody, init, [ch]);
        LoudByte(hc, s, Emit(t, Data(OnBody, init)), false, ch, s, Data(OnBody, [ch]));
        LeadsOn(hc, Conn(s, t, false), init, Conn(s, Emit(t, Data(OnBody, init)), false), [ch],
                Conn(s, Emit(t, Data(OnBody, w)), false));
      }
    }
  }

  /** The header is complete, and the body begins. */
  lemma AfterHeader(hc: Parser -> HeadersAnswer, s: Parser, t: seq<Event>, s2: Parser)
    requires s.state.HeaderFieldStart? && !s.flags.trailing && !(s.flags.chunked && s.flags.contentLength)
    requires !hc(Headed(s)).Refuse? && HeadersDoneByte(Begun(hc, s)) == StepResult(s2, [], Go)
    ensures Leads(hc, Conn(s, t, false), CRLF, Conn(s2, Emit(t, Notify(OnHeadersComplete, Headed(s))), false))
  {
    HeadSteps(hc, s);
    hide Step, Leads, Emit, HeadersDoneByte;
    var s0, e := s.(state := HeadersAlmostDone), Notify(OnHeadersComplete, Headed(s));
    assert [e] + [] == [e];
    QuietByte(hc, s, t, false, CR, s0);
    LoudByte(hc, s0, t, false, LF, s2, e);
    LeadsOn(hc, Conn(s, t, false), [CR], Conn(s0, t, false), [LF], Conn(s2, Emit(t, e), false));
    assert [CR] + [LF] == CRLF;
  }

  /** From the end of the header lines to the end of the message. */
  lemma EndRead(hc: Parser -> HeadersAnswer, s: Parser, t: seq<Event>, b: Body)
    requires s.state.HeaderFieldStart? && !s.flags.trailing && !(s.flags.chunked && s.flags.contentLength)
    requires !hc(Headed(s)).Refuse? && Announces(Begun(hc, s), b)
    ensures var s1 := Begun(hc, s);
            Bytewise(hc, Conn(s, t, false), CRLF + BodyText(b), 0)
            == RunResult(Conn(Final(s1, b),
                              EmitAll(t, [Notify(OnHeadersComplete, Headed(s))] + BodyEvents(s1, b)), false),
                         |CRLF + BodyText(b)|, if s1.upgrade && !b.Rest? then Exit else Go)
  {
    var c, s1 := Conn(s, t, false), Begun(hc, s);
    var e := Notify(OnHeadersComplete, Headed(s));
    var s0, t1 := s.(state := HeadersAlmostDone), Emit(t, e);
    HeadSteps(hc, s);
    BodyDecided(s1, b);
    hide Step, Bytewise, SkipsBadByte, Emit, EmitAll, HeadersDoneByte, Final, C.Events, C.Encode, NewMessage, Begun,
      Headed, BodyEvents;
    EmitAllConcat(t, [e], BodyEvents(s1, b));
    EmitOne(t, e);
    match b
    case None =>
      QuietByte(hc, s, t, false, CR, s0);
      OneByte(hc, Conn(s0, t, false), LF);
      LeadsThen(hc, c, [CR], Conn(s0, t, false), [LF]);
      assert [CR] + [LF] == CRLF && CRLF + [] == CRLF;
    case Sized(w) => SizedEnd(hc, s, t, w);
    case Chunks(cs, upper) => ChunksEnd(hc, s, t, cs, upper);
    case Rest(w) =>
      var s2 := s1.(state := BodyIdentityEof);
      AfterHeader(hc, s, t, s2);
      RestRead(hc, s2, t1, w);
      assert BodyEvents(s2, b) == BodyEvents(s1, b) && Final(s1, b) == s2 by { SameRest(s1, w); }
      LeadsThen(hc, c, CRLF, Conn(s2, t1, false), w);
  }

  lemma SameRest(s: Parser, w: bytes)
    ensures BodyEvents(s.(state := BodyIdentityEof), Rest(w)) == BodyEvents(s, Rest(w))
    ensures Final(s, Rest(w)) == s.(state := BodyIdentityEof)
  {
  }

  lemma SizedEnd(hc: Parser -> HeadersAnswer, s: Parser, t: seq<Event>, w: bytes)
    requires s.state.HeaderFieldStart? && !s.flags.trailing && !(s.flags.chunked && s.flags.contentLength)
    requires !hc(Headed(s)).Refuse? && Announces(Begun(hc, s), Sized(w))
    ensures var s1 := Begun(hc, s);
            Bytewise(hc, Conn(s, t, false), CRLF + w, 0)
            == RunResult(Conn(Final(s1, Sized(w)),
                              EmitAll(Emit(t, Notify(OnHeadersComplete, Headed(s))), BodyEvents(s1, Sized(w))), false),
                         |CRLF + w|, if s1.upgrade then Exit else Go)
  {
    var s1 := Begun(hc, s);
    var s2, t1 := s1.(state := BodyIdentity), Emit(t, Notify(OnHeadersComplete, Headed(s)));
    BodyDecided(s1, Sized(w));
    AnnouncedSized(s1, w);
    hide Leads, Bytewise, Emit, EmitAll, HeadersDoneByte, Final, Begun, Headed;
    AfterHeader(hc, s, t, s2);
    SizedRead(hc, s2, t1, w);
    LeadsThen(hc, Conn(s, t, false), CRLF, Conn(s2, t1, false), w);
    EmitTwo(t1, Data(OnBody, w), Notify(OnMessageComplete, Final(s1, Sized(w))));
  }

  lemma ChunksEnd(hc: Parser -> HeadersAnswer, s: Parser, t: seq<Event>, cs: seq<bytes>, upper: bool)
    requires s.state.HeaderFieldStart? && !s.flags.trailing && !(s.flags.chunked && s.flags.contentLength)
    requires !hc(Headed(s)).Refuse? && Announces(Begun(hc, s), Chunks(cs, upper))
    ensures var s1 := Begun(hc, s);
            Bytewise(hc, Conn(s, t, false), CRLF + C.Encode(cs, upper), 0)
            == RunResult(Conn(C.Ended(s1),
                              EmitAll(Emit(t, Notify(OnHeadersComplete, Headed(s))), C.Events(s1, cs)), false),
                         |CRLF + C.Encode(cs, upper)|, if s1.upgrade then Exit else Go)
  {
    var s1 := Begun(hc, s);
    var s2, t1 := s1.(state := ChunkSizeStart), Emit(t, Notify(OnHeadersComplete, Headed(s)));
    BodyDecided(s1, Chunks(cs, upper));
    AnnouncedChunks(s1, cs);
    hide Leads, Bytewise, Emit, EmitAll, HeadersDoneByte, Final, C.Events, C.Encode, C.Ended, Begun, Headed;
    AfterHeader(hc, s, t, s2);
    C.ChunkedBody(hc, Conn(s2, t1, false), cs, upper);
    LeadsThen(hc, Conn(s, t, false), CRLF, Conn(s2, t1, false), C.Encode(cs, upper));
  }

  lemma AnnouncedSized(s: Parser, w: bytes)
    ensures Final(s.(state := BodyIdentity), Sized(w)) == Final(s, Sized(w))
  {
    hide NewMessage;
    assert NewMessage(s.(contentLength := 0, state := BodyIdentity)) == NewMessage(s.(contentLength := 0)) by {
      NewMessageInBody(s);
    }
  }

  lemma NewMessageInBody(s: Parser)
    ensures NewMessage(s.(contentLength := 0, state := BodyIdentity)) == NewMessage(s.(contentLength := 0))
  {
  }

  lemma {:induction false} AnnouncedChunks(s: Parser, cs: seq<bytes>)
    ensures C.Events(s.(state := ChunkSizeStart), cs) == C.Events(s, cs)
    ensures C.Ended(s.(state := ChunkSizeStart)) == C.Ended(s)
    decreases |cs|
  {
    if cs != [] {
      AnnouncedChunks(s, cs[1..]);
    }
  }

  // ---------------------------------------------------------------- whether the connection stays open

  /** What version and header say: an older connection is kept open if a line asks for it, a newer unless one does. */
  predicate StaysOpen(major: nat, minor: nat, hs: seq<Header>) {
    if major > 0 && minor > 0 then !HasOption(hs, Close) else HasOption(hs, KeepAlive)
  }

  /** The message has no end of its own. */
  predicate EndsWithStream(s: Parser) {
    Endless(s) && Unmeasured(s) && !s.flags.skipBody
  }

  /** Where a message with these flags ends. */
  lemma FinalState(s: Parser, b: Body)
    requires Announces(s, b)
    ensures Final(s, b).state
         == if b.Rest? then BodyIdentityEof
            else if (if s.major > 0 && s.minor > 0 then !s.flags.close else s.flags.keepAlive)
                    && !(b.None? && EndsWithStream(s))
            then if s.ptype.Request? then StartReq else StartRes
            else Dead
  {
    hide C.Encodable;
  }

  /** The other protocol begins where the message ends. */
  predicate AsksForUpgrade(verb: Method, hs: seq<Header>, answer: HeadersAnswer) {
    verb == CONNECT || (HasName(hs, UPGRADE) && HasOption(hs, ToUpgrade)) || answer.SkipBodyAndUpgrade?
  }

  /**
   * After a message the parser waits for the next one exactly if version and
   * header lines keep the connection open and the message does not end with the
   * stream; otherwise the connection is dead.
   */
  lemma OpenExact(hc: Parser -> HeadersAnswer, s: Parser, hs: seq<Header>, b: Body)
    requires s.state.HeaderFieldStart? && s.errno == Ok && s.flags == NO_FLAGS && MessageOk(hc, s, hs, b)
    ensures var p := Begun(hc, AfterLines(s, hs));
            Final(p, b).state
            == if b.Rest? then BodyIdentityEof
               else if StaysOpen(s.major, s.minor, hs) && !(b.None? && EndsWithStream(p))
               then if s.ptype.Request? then StartReq else StartRes
               else Dead
    ensures Begun(hc, AfterLines(s, hs)).upgrade
        <==> AsksForUpgrade(s.verb, hs, hc(Headed(AfterLines(s, hs))))
    ensures s.ptype.Request? ==> !EndsWithStream(Begun(hc, AfterLines(s, hs))) && !b.Rest?
  {
    hide AfterLines, HeadersOk, Final, MeantAll, LengthAll, HasOption, HasName, HasChunked, Announces, EndsWithStream,
      Answered;
    LinesMean(s, hs);
    FlagsExact(NO_FLAGS, hs);
    var a := AfterLines(s, hs);
    AnswerKeeps(Headed(a), hc(Headed(a)));
    FinalState(Begun(hc, a), b);
    if s.ptype.Request? {
      RequestsNotEndless(Begun(hc, a), b);
    }
  }

  /** What the answer of the callback leaves as it is. */
  lemma AnswerKeeps(s: Parser, answer: HeadersAnswer)
    ensures var p := Answered(s, answer);
            && p.flags.close == s.flags.close && p.flags.keepAlive == s.flags.keepAlive && p.major == s.major
            && p.minor == s.minor && p.ptype == s.ptype && (p.upgrade <==> s.upgrade || answer.SkipBodyAndUpgrade?)
  {
  }

  lemma RequestsNotEndless(s: Parser, b: Body)
    requires s.ptype.Request? && Announces(s, b)
    ensures !EndsWithStream(s) && !b.Rest?
  {
  }

  /** A response that tells nothing of the end of its body, by its status, its header and the answer of the callback. */
  predicate Unending(status: nat, hs: seq<Header>, answer: HeadersAnswer) {
    && !(100 <= status < 200) && status != 204 && status != 304
    && !HasChunked(hs) && !HasName(hs, CONTENT_LENGTH) && !answer.SkipBody? && !answer.SkipBodyAndUpgrade?
  }

  lemma UnendingExact(hc: Parser -> HeadersAnswer, s: Parser, hs: seq<Header>, b: Body)
    requires s.state.HeaderFieldStart? && s.errno == Ok && s.flags == NO_FLAGS && s.contentLength == ULLONG_MAX
    requires MessageOk(hc, s, hs, b)
    ensures EndsWithStream(Begun(hc, AfterLines(s, hs)))
        <==> !s.ptype.Request? && Unending(s.status, hs, hc(Headed(AfterLines(s, hs))))
    ensures b.Rest? ==> EndsWithStream(Begun(hc, AfterLines(s, hs)))
  {
    hide AfterLines, HeadersOk, MeantAll, LengthAll, HasOption, HasName, HasChunked, CONTENT_LENGTH, UPGRADE, IsName,
      IsLength, Folded, Length;
    LinesMean(s, hs);
    FlagsExact(NO_FLAGS, hs);
    LengthExact(ULLONG_MAX, hs, s.lenient, false);
  }

  /** A dead connection takes line ends, and refuses any other byte. */
  lemma DeadRefuses(hc: Parser -> HeadersAnswer, c: Conn, ch: byte, rest: bytes)
    requires c.s.state.Dead?
    ensures var r := Bytewise(hc, c, [ch] + rest, 0);
            if ch == CR || ch == LF then r == Later(Bytewise(hc, c.(shadow := false), rest, 0), 1)
            else r.n == 0 && RefusedFor(r, ClosedConnection)
  {
    var c1 := c.(shadow := false);
    hide Bytewise, EmitAll, SkipsBadByte;
    OneByte(hc, c, ch);
    EmitNone(c.trace);
    if ch == CR || ch == LF {
      LeadsThen(hc, c, [ch], c1, rest);
    } else {
      BytewiseConcat(hc, c, [ch], rest, 0);
    }
  }

  // ---------------------------------------------------------------- headers and body

  function HeadAndBody(hs: seq<Header>, b: Body): bytes {
    Lines(hs) + (CRLF + BodyText(b))
  }

  function HeadAndBodyEvents(hc: Parser -> HeadersAnswer, s: Parser, hs: seq<Header>, b: Body): seq<Event> {
    var p := AfterLines(s, hs);
    LinesEvents(hs) + ([Notify(OnHeadersComplete, Headed(p))] + BodyEvents(Begun(hc, p), b))
  }

  /** The header announces the body in one way, and the callback does not refuse the message. */
  predicate MessageOk(hc: Parser -> HeadersAnswer, s: Parser, hs: seq<Header>, b: Body) {
    && HeadersOk(hs, s.lenient, s.flags.contentLength)
    && var p := AfterLines(s, hs);
       !(p.flags.chunked && p.flags.contentLength) && !hc(Headed(p)).Refuse? && Announces(Begun(hc, p), b)
  }

  /** Where the parser is after the message, and what it has reported. */
  function MessageResult(hc: Parser -> HeadersAnswer, s: Parser, t: seq<Event>, hs: seq<Header>, b: Body): RunResult {
    var s1 := Begun(hc, AfterLines(s, hs));
    RunResult(Conn(Final(s1, b), EmitAll(t, HeadAndBodyEvents(hc, s, hs, b)), false), |HeadAndBody(hs, b)|,
              if s1.upgrade && !b.Rest? then Exit else Go)
  }

  /**
   * Headers and body are reported piece by piece just as they were written, the
   * flags and the length mean what the header says, and the message is complete
   * at its last byte; or, if it asks for another protocol, the parser stops there.
   */
  lemma MessageRead(hc: Parser -> HeadersAnswer, s: Parser, t: seq<Event>, hs: seq<Header>, b: Body)
    requires s.state.HeaderFieldStart? && s.errno == Ok && !s.flags.trailing && MessageOk(hc, s, hs, b)
    ensures Bytewise(hc, Conn(s, t, false), HeadAndBody(hs, b), 0) == MessageResult(hc, s, t, hs, b)
  {
    hide LeadsBefore, Bytewise, EmitAll, Lines, LinesEvents, AfterLines, BodyText, BodyEvents, Final, Begun, Headed,
      HeadersOk, Announces;
    var p, t1 := AfterLines(s, hs), EmitAll(t, LinesEvents(hs));
    LinesRead(hc, s, t, hs);
    LinesMean(s, hs);
    FlagsExact(s.flags, hs);
    EndRead(hc, p, t1, b);
    BeforeEnd(hc, Conn(s, t, false), Lines(hs), Conn(p, t1, false), CRLF + BodyText(b));
    EmitAllConcat(t, LinesEvents(hs), [Notify(OnHeadersComplete, Headed(p))] + BodyEvents(Begun(hc, p), b));
  }

  lemma BeforeEnd(hc: Parser -> HeadersAnswer, c: Conn, a: bytes, d: Conn, b: bytes)
    requires LeadsBefore(hc, c, a, d) && CRLF <= b
    ensures Bytewise(hc, c, a + b, 0) == Later(Bytewise(hc, d, b, 0), |a|)
  {
    hide Bytewise;
    assert b[0] == CR;
  }

  /** A first line, and then headers and body. */
  lemma LineThenMessage(hc: Parser -> HeadersAnswer, c: Conn, line: bytes, s: Parser, t: seq<Event>, evs: seq<Event>,
                        hs: seq<Header>, b: Body)
    requires Leads(hc, c, line, Conn(s, EmitAll(t, evs), false))
    requires s.state.HeaderFieldStart? && s.errno == Ok && !s.flags.trailing && MessageOk(hc, s, hs, b)
    ensures var r := MessageResult(hc, s, t, hs, b);
            Bytewise(hc, c, line + HeadAndBody(hs, b), 0)
            == RunResult(r.c.(trace := EmitAll(t, evs + HeadAndBodyEvents(hc, s, hs, b))), |line + HeadAndBody(hs, b)|,
                         r.out)
  {
    hide Leads, Bytewise, EmitAll, MessageOk, HeadAndBody, HeadAndBodyEvents, Final, Begun, AfterLines;
    MessageRead(hc, s, EmitAll(t, evs), hs, b);
    LeadsThen(hc, c, line, Conn(s, EmitAll(t, evs), false), HeadAndBody(hs, b));
    EmitAllConcat(t, evs, HeadAndBodyEvents(hc, s, hs, b));
  }

  /** A text that is read to its end, byte by byte, is read the same in any buffers. */
  lemma AnyBuffers(hc: Parser -> HeadersAnswer, c: Conn, w: bytes, buffers: seq<bytes>)
    requires !Bytewise(hc, c, w, 0).out.Fail? && Flatten(buffers) == w
    ensures Same(Feed(hc, c, buffers), Bytewise(hc, c, w, 0))
  {
    hide Bytewise, SkipsBadByte, RunFrom;
    if SkipsBadByte(hc, c, w, 0) {
      C.SkippingFails(hc, c, w, 0);
    }
    FeedIsBytewise(hc, c, c, buffers);
  }
}
