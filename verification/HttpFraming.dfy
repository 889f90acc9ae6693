/** The headers that tell how long a body is: Content-Length and Transfer-Encoding. */
module HttpFraming {
  import opened Bytes
  import opened Decimals
  import opened HttpTypes
  import opened HttpStep
  import opened HttpInvariant
  import opened HttpRun
  import opened HttpSplit
  import opened HttpPieces
  import opened HttpHeaders
  import opened HttpOptions

  // ---------------------------------------------------------------- Content-Length

  /** The greatest length that is accepted: no digit is taken after more than a tenth of it. */
  const MAX_LENGTH: nat := 18446744073709551609

  /** A length is written in digits, with blanks among them, which are passed over. */
  predicate LengthChars(w: bytes) {
    forall k :: 0 <= k < |w| ==> IsDigit(w[k]) || w[k] == ' '
  }

  predicate IsLength(v: bytes) {
    v != [] && IsDigit(v[0]) && LengthChars(v)
  }

  /** The length that these characters denote when they are written after the digits of `n`. */
  function Length(n: nat, w: bytes): nat
    requires LengthChars(w)
    decreases |w|
  {
    if w == [] then n else if w[0] == ' ' then Length(n, w[1..]) else Length(n * 10 + DigitValue(w[0]), w[1..])
  }

  /** A length without blanks is a number in decimal. */
  lemma {:induction false} LengthIsDecimal(n: nat, w: bytes)
    requires AllDigits(w)
    ensures LengthChars(w) && Length(n, w) == Decimal(n, w)
    decreases |w|
  {
    if w != [] {
      LengthIsDecimal(n * 10 + DigitValue(w[0]), w[1..]);
    }
  }

  /** With blanks, it is the number that is left when they are taken out. */
  function Squeezed(w: bytes): (r: bytes)
    requires LengthChars(w)
    ensures AllDigits(r)
  {
    if w == [] then [] else (if w[0] == ' ' then [] else [w[0]]) + Squeezed(w[1..])
  }

  lemma {:induction false} BlanksPassedOver(n: nat, w: bytes)
    requires LengthChars(w)
    ensures Length(n, w) == Decimal(n, Squeezed(w))
    decreases |w|
  {
    if w != [] {
      if w[0] != ' ' {
        assert Squeezed(w)[1..] == Squeezed(w[1..]);
        BlanksPassedOver(n * 10 + DigitValue(w[0]), w[1..]);
      } else {
        assert Squeezed(w) == Squeezed(w[1..]);
        BlanksPassedOver(n, w[1..]);
      }
    }
  }

  lemma {:induction false} LengthGrows(n: nat, w: bytes)
    requires LengthChars(w)
    ensures Length(n, w) >= n
    decreases |w|
  {
    if w != [] {
      LengthGrows(if w[0] == ' ' then n else n * 10 + DigitValue(w[0]), w[1..]);
    }
  }

  lemma DigitStep(hc: Parser -> HeadersAnswer, s: Parser, ch: byte)
    requires s.state.HeaderValue? && s.hstate.ContentLength? && s.errno == Ok && s.contentLength <= MAX_LENGTH
    requires ch != CR && ch != LF && (s.lenient || IsHeaderChar(ch))
    ensures Step(hc, s, ch, false)
         == (if ch == ' ' then StepResult(s, [Data(OnHeaderValue, [ch])], Go)
             else if IsDigit(ch) && s.contentLength * 10 + DigitValue(ch) <= MAX_LENGTH
             then
               StepResult(s.(contentLength := s.contentLength * 10 + DigitValue(ch)), [Data(OnHeaderValue, [ch])], Go)
             else StepResult(s.(errno := InvalidContentLength), [], Fail))
  {
  }

  lemma FirstDigitStep(hc: Parser -> HeadersAnswer, s: Parser, ch: byte)
    requires s.state.HeaderValueDiscardWs? && s.hstate.ContentLength? && ch != CR && ch != LF && ch != ' ' && ch != '\t'
    ensures var r := Step(hc, s, ch, false);
            if !IsDigit(ch) then r.out.Fail? && r.s.errno == InvalidContentLength
            else if s.flags.contentLength then r.out.Fail? && r.s.errno == UnexpectedContentLength
            else r == StepResult(Measured(s, DigitValue(ch)), [Data(OnHeaderValue, [ch])], Go)
  {
  }

  /** In the value of a Content-Length, after digits that denote `n`. */
  function Measured(s: Parser, n: nat): Parser {
    s.(state := HeaderValue, index := 0, contentLength := n, flags := s.flags.(contentLength := true))
  }

  /** What the run over the remaining characters comes to, when `x` has been read. */
  ghost predicate Reads(hc: Parser -> HeadersAnswer, s: Parser, t: seq<Event>, x: bytes, w: bytes) {
    var c := Conn(s, Emit(t, Data(OnHeaderValue, x)), false);
    if LengthChars(w) && Length(s.contentLength, w) <= MAX_LENGTH
    then
      var n := Length(s.contentLength, w);
      Leads(hc, c, w, Conn(s.(contentLength := n), Emit(t, Data(OnHeaderValue, x + w)), false))
    else RefusedFor(Bytewise(hc, c, w, 0), InvalidContentLength)
  }

  /** Bytes that may stand in a value after its first. */
  predicate InLine(w: bytes, lenient: bool) {
    forall k :: 0 <= k < |w| ==> w[k] != CR && w[k] != LF && (lenient || IsHeaderChar(w[k]))
  }

  lemma {:induction false} DigitsRead(hc: Parser -> HeadersAnswer, s: Parser, t: seq<Event>, x: bytes, w: bytes)
    requires s.state.HeaderValue? && s.hstate.ContentLength? && s.errno == Ok && s.contentLength <= MAX_LENGTH
    requires InLine(w, s.lenient)
    ensures Reads(hc, s, t, x, w)
    decreases |w|
  {
    hide Emit, Step, IsHeaderChar;
    if w == [] {
      assert x + w == x;
    } else {
      var c := Conn(s, Emit(t, Data(OnHeaderValue, x)), false);
      DigitStep(hc, s, w[0]);
      assert [w[0]] + w[1..] == w;
      if w[0] == ' ' || (IsDigit(w[0]) && s.contentLength * 10 + DigitValue(w[0]) <= MAX_LENGTH) {
        var n := if w[0] == ' ' then s.contentLength else s.contentLength * 10 + DigitValue(w[0]);
        DigitsRead(hc, s.(contentLength := n), t, x + [w[0]], w[1..]);
        DigitAndRest(hc, s, n, t, x, w);
      } else {
        OneByte(hc, c, w[0]);
        BytewiseConcat(hc, c, [w[0]], w[1..], 0);
        if LengthChars(w) {
          LengthGrows(s.contentLength * 10 + DigitValue(w[0]), w[1..]);
        }
      }
    }
  }

  lemma DigitAndRest(hc: Parser -> HeadersAnswer, s: Parser, n: nat, t: seq<Event>, x: bytes, w: bytes)
    requires s.state.HeaderValue? && !s.hstate.General? && w != []
    requires if w[0] == ' ' then n == s.contentLength else IsDigit(w[0]) && n == s.contentLength * 10 + DigitValue(w[0])
    requires Step(hc, s, w[0], false) == StepResult(s.(contentLength := n), [Data(OnHeaderValue, [w[0]])], Go)
    requires Reads(hc, s.(contentLength := n), t, x + [w[0]], w[1..])
    ensures Reads(hc, s, t, x, w)
  {
    hide Emit, Step, Bytewise, Leads;
    var c := Conn(s, Emit(t, Data(OnHeaderValue, x)), false);
    var d := Conn(s.(contentLength := n), Emit(t, Data(OnHeaderValue, x + [w[0]])), false);
    EmitJoins(t, OnHeaderValue, x, [w[0]]);
    LoudByte(hc, s, c.trace, false, w[0], s.(contentLength := n), Data(OnHeaderValue, [w[0]]));
    assert [w[0]] + w[1..] == w && x + [w[0]] + w[1..] == x + w;
    assert LengthChars(w) <==> LengthChars(w[1..]) by { assert forall k :: 0 < k < |w| ==> w[k] == w[1..][k - 1]; }
    if LengthChars(w) && Length(n, w[1..]) <= MAX_LENGTH {
      var e := Conn(s.(contentLength := Length(n, w[1..])), Emit(t, Data(OnHeaderValue, x + w)), false);
      LeadsOn(hc, c, [w[0]], d, w[1..], e);
    } else {
      LeadsThen(hc, c, [w[0]], d, w[1..]);
    }
  }

  predicate LengthHeader(h: Header) {
    IsName(h.name) && Folded(h.name) == CONTENT_LENGTH && IsLength(h.value)
  }

  /** After a line with a Content-Length. */
  function AfterLength(s: Parser, n: nat): Parser {
    s.(state := HeaderFieldStart, hstate := ContentLength, index := 0, contentLength := n,
       flags := s.flags.(contentLength := true))
  }

  /** The length is accepted. */
  predicate LengthWithin(h: Header) {
    LengthHeader(h) && Length(0, h.value) <= MAX_LENGTH
  }

  /**
   * A Content-Length is taken for the number that its digits denote, or refused:
   * it is refused exactly if it is not written in digits and blanks, or if the
   * number exceeds `MAX_LENGTH`, six less than the greatest that 64 bits hold.
   */
  lemma LengthLine(hc: Parser -> HeadersAnswer, s: Parser, t: seq<Event>, h: Header, rest: bytes)
    requires s.state.HeaderFieldStart? && s.errno == Ok && !s.flags.contentLength
    requires IsName(h.name) && Folded(h.name) == CONTENT_LENGTH && IsValue(h.value, s.lenient)
    ensures if LengthWithin(h)
            then LeadsBefore(hc, Conn(s, t, false), Line(h),
                             Conn(AfterLength(s, Length(0, h.value)), EmitAll(t, LineEvents(h)), false))
            else RefusedFor(Bytewise(hc, Conn(s, t, false), Line(h) + rest, 0), InvalidContentLength)
  {
    hide Leads, LeadsBefore, Emit, EmitAll, Step, Bytewise, IsHeaderChar, CONNECTION, PROXY_CONNECTION, CONTENT_LENGTH,
      TRANSFER_ENCODING, UPGRADE;
    var w := h.value;
    var h1, i1 := NameColonRead(hc, s, t, h.name);
    LengthTracked(h1, i1, Folded(h.name));
    var s1, t1 := s.(state := HeaderValueDiscardWs, hstate := h1, index := i1), Emit(t, Data(OnHeaderField, h.name));
    var start := h.name + COLON;
    FirstDigitStep(hc, s1, w[0]);
    assert [w[0]] + w[1..] == w;
    if !IsDigit(w[0]) {
      FirstRefused(hc, Conn(s, t, false), start, Conn(s1, t1, false), w, CRLF + rest);
      assert Line(h) + rest == start + (w + (CRLF + rest));
      return;
    }
    var s2, t2 := Measured(s1, DigitValue(w[0])), Emit(t1, Data(OnHeaderValue, [w[0]]));
    LoudByte(hc, s1, t1, false, w[0], s2, Data(OnHeaderValue, [w[0]]));
    DigitsRead(hc, s2, t1, [w[0]], w[1..]);
    LeadsOn(hc, Conn(s, t, false), start, Conn(s1, t1, false), [w[0]], Conn(s2, t2, false));
    assert LengthChars(w) <==> LengthChars(w[1..]) by { assert forall k :: 0 < k < |w| ==> w[k] == w[1..][k - 1]; }
    if LengthWithin(h) {
      var n := Length(0, w);
      assert n == Length(s2.contentLength, w[1..]);
      LengthTaken(hc, Conn(s, t, false), start, s2, t1, w, n);
      assert FinishValue(s2.(contentLength := n)).(state := HeaderFieldStart) == AfterLength(s, n);
      EmitTwo(t, Data(OnHeaderField, h.name), Data(OnHeaderValue, w));
    } else {
      LeadsThen(hc, Conn(s, t, false), start + [w[0]], Conn(s2, t2, false), w[1..] + (CRLF + rest));
      RefusedThen(hc, Conn(s2, t2, false), w[1..], CRLF + rest);
      assert Line(h) + rest == start + [w[0]] + (w[1..] + (CRLF + rest));
    }
  }

  lemma LengthTaken(hc: Parser -> HeadersAnswer, c: Conn, start: bytes, s: Parser, t: seq<Event>, w: bytes, n: nat)
    requires s.state.HeaderValue? && w != []
    requires Leads(hc, c, start + [w[0]], Conn(s, Emit(t, Data(OnHeaderValue, [w[0]])), false))
    requires Leads(hc, Conn(s, Emit(t, Data(OnHeaderValue, [w[0]])), false), w[1..],
                   Conn(s.(contentLength := n), Emit(t, Data(OnHeaderValue, [w[0]] + w[1..])), false))
    ensures LeadsBefore(hc, c, start + w + CRLF,
                        Conn(FinishValue(s.(contentLength := n)).(state := HeaderFieldStart),
                             Emit(t, Data(OnHeaderValue, w)), false))
  {
    hide *;
    var s1, s3 := Conn(s, Emit(t, Data(OnHeaderValue, [w[0]])), false), s.(contentLength := n);
    assert [w[0]] + w[1..] == w;
    LeadsOn(hc, c, start + [w[0]], s1, w[1..], Conn(s3, Emit(t, Data(OnHeaderValue, w)), false));
    assert start + [w[0]] + w[1..] == start + w;
    LineEnds(hc, c, start + w, s3, t, w, false);
  }

  /** A first byte that is refused. */
  lemma FirstRefused(hc: Parser -> HeadersAnswer, c: Conn, start: bytes, d: Conn, w: bytes, rest: bytes)
    requires w != [] && Leads(hc, c, start, d) && Step(hc, d.s, w[0], false).out.Fail?
    ensures RefusedFor(Bytewise(hc, c, start + (w + rest), 0), Step(hc, d.s, w[0], false).s.errno)
  {
    hide Leads, Step, EmitAll;
    LeadsThen(hc, c, start, d, w + rest);
    assert (w + rest)[0] == w[0];
  }

  /** A second Content-Length is refused, even one that repeats the first. */
  lemma SecondLengthRefused(hc: Parser -> HeadersAnswer, s: Parser, t: seq<Event>, h: Header, rest: bytes)
    requires s.state.HeaderFieldStart? && s.flags.contentLength && LengthHeader(h)
    ensures RefusedFor(Bytewise(hc, Conn(s, t, false), Line(h) + rest, 0), UnexpectedContentLength)
  {
    hide Leads, Emit, Step, Bytewise, CONNECTION, PROXY_CONNECTION, CONTENT_LENGTH, TRANSFER_ENCODING, UPGRADE;
    var h1, i1 := NameColonRead(hc, s, t, h.name);
    LengthTracked(h1, i1, Folded(h.name));
    var s1, t1 := s.(state := HeaderValueDiscardWs, hstate := h1, index := i1), Emit(t, Data(OnHeaderField, h.name));
    FirstDigitStep(hc, s1, h.value[0]);
    FirstRefused(hc, Conn(s, t, false), h.name + COLON, Conn(s1, t1, false), h.value, CRLF + rest);
    assert Line(h) + rest == h.name + COLON + (h.value + (CRLF + rest));
  }

  /** `Content-Length: 1 2` announces twelve bytes. */
  lemma BlankWithinLength()
    ensures IsLength("1 2") && Length(0, "1 2") == 12
  {
    assert "1 2"[1..] == " 2" && " 2"[1..] == "2" && "2"[1..] == [];
  }

  lemma LengthIsValue(v: bytes, lenient: bool)
    requires IsLength(v)
    ensures IsValue(v, lenient)
  {
  }

  lemma LengthTracked(h: HState, i: nat, p: bytes)
    requires Tracks(h, i, p) && p == CONTENT_LENGTH
    ensures h == ContentLength
  {
    Initials();
    hide CONNECTION, PROXY_CONNECTION, CONTENT_LENGTH, TRANSFER_ENCODING, UPGRADE;
  }

  lemma RefusedThen(hc: Parser -> HeadersAnswer, c: Conn, a: bytes, b: bytes)
    requires RefusedFor(Bytewise(hc, c, a, 0), InvalidContentLength)
    ensures RefusedFor(Bytewise(hc, c, a + b, 0), InvalidContentLength)
  {
    hide Bytewise, SkipsBadByte;
    BytewiseConcat(hc, c, a, b, 0);
  }

  // ---------------------------------------------------------------- Transfer-Encoding and Connection

  predicate WordHeader(h: Header, w: Word) {
    && IsName(h.name) && Spells(h.value, w)
    && (if w.Chunked? then Folded(h.name) == TRANSFER_ENCODING
        else Folded(h.name) == CONNECTION || Folded(h.name) == PROXY_CONNECTION)
  }

  predicate OptionHeader(h: Header, lenient: bool) {
    && IsName(h.name) && IsValue(h.value, lenient)
    && (Folded(h.name) == TRANSFER_ENCODING || Folded(h.name) == CONNECTION || Folded(h.name) == PROXY_CONNECTION)
  }

  /** After such a line: what its value has set is kept in the flags. */
  function AfterOptions(s: Parser, h: Header): Parser
    requires h.value != []
  {
    var start := s.(state := HeaderValueDiscardWs,
                    hstate := if Folded(h.name) == TRANSFER_ENCODING then TransferEncoding else Connection);
    FinishValue(Scanned(start, h.value)).(state := HeaderFieldStart)
  }

  /** A Transfer-Encoding or a Connection of any value is reported as it stands. */
  lemma OptionLine(hc: Parser -> HeadersAnswer, s: Parser, t: seq<Event>, h: Header)
    requires s.state.HeaderFieldStart? && s.errno == Ok && OptionHeader(h, s.lenient)
    ensures LeadsBefore(hc, Conn(s, t, false), Line(h), Conn(AfterOptions(s, h), EmitAll(t, LineEvents(h)), false))
  {
    var v := h.value;
    hide Leads, LeadsBefore, Emit, EmitAll, Step, Scanned, IsHeaderChar, CONNECTION, PROXY_CONNECTION, CONTENT_LENGTH,
      TRANSFER_ENCODING, UPGRADE;
    var h1, i1 := NameColonRead(hc, s, t, h.name);
    WordTracked(h1, i1, Folded(h.name));
    var s1, t1 := s.(state := HeaderValueDiscardWs, hstate := h1, index := i1), Emit(t, Data(OnHeaderField, h.name));
    var shadow := ScannedRead(hc, s1, t1, v);
    StartIndex(s1, i1, s.index, v);
    var s2 := Scanned(s1, v);
    LeadsOn(hc, Conn(s, t, false), h.name + COLON, Conn(s1, t1, false), v,
            Conn(s2, Emit(t1, Data(OnHeaderValue, v)), shadow));
    LineEnds(hc, Conn(s, t, false), h.name + COLON + v, s2, t1, v, shadow);
    EmitTwo(t, Data(OnHeaderField, h.name), Data(OnHeaderValue, v));
  }

  /** After a line whose value is the word. */
  function AfterWord(s: Parser, w: Word): Parser {
    s.(state := HeaderFieldStart, hstate := Matched(w), index := |Letters(w)| - 1, flags := WithFlag(s.flags, w))
  }

  /**
   * `Transfer-Encoding: chunked`, and `keep-alive`, `close` or `upgrade` as the
   * value of a Connection, set their flag, in whatever case they are written.
   */
  lemma WordLine(hc: Parser -> HeadersAnswer, s: Parser, t: seq<Event>, h: Header, w: Word)
    requires s.state.HeaderFieldStart? && s.errno == Ok && WordHeader(h, w)
    ensures LeadsBefore(hc, Conn(s, t, false), Line(h), Conn(AfterWord(s, w), EmitAll(t, LineEvents(h)), false))
  {
    hide Leads, LeadsBefore, Emit, EmitAll, Step, Letters, Scanned, Spells, Line, LineEvents, CONNECTION,
      PROXY_CONNECTION, CONTENT_LENGTH, TRANSFER_ENCODING, UPGRADE;
    NamesApart();
    WordIsValue(h.value, w, s.lenient);
    OptionLine(hc, s, t, h);
    var start := s.(state := HeaderValueDiscardWs, hstate := Before(w));
    WordScanned(start, h.value, w);
    assert |h.value| == |Letters(w)| by { SameLength(h.value, w); }
    assert AfterOptions(s, h) == AfterWord(s, w);
  }

  lemma SameLength(v: bytes, w: Word)
    requires Spells(v, w)
    ensures |v| == |Letters(w)|
  {
  }

  lemma WordTracked(h: HState, i: nat, p: bytes)
    requires Tracks(h, i, p)
    ensures p == TRANSFER_ENCODING ==> h == TransferEncoding
    ensures p == CONNECTION || p == PROXY_CONNECTION ==> h == Connection
  {
    Initials();
    hide CONNECTION, PROXY_CONNECTION, CONTENT_LENGTH, TRANSFER_ENCODING, UPGRADE;
  }

  // ---------------------------------------------------------------- Upgrade

  lemma UpgradeStart(hc: Parser -> HeadersAnswer, s: Parser, ch: byte)
    requires s.state.HeaderValueDiscardWs? && s.hstate.Upgrade? && ch != CR && ch != LF && ch != ' ' && ch != '\t'
    ensures Step(hc, s, ch, false) == Step(hc, s.(flags := s.flags.(upgrade := true), hstate := General), ch, false)
  {
  }

  predicate UpgradeHeader(h: Header, lenient: bool) {
    IsName(h.name) && Folded(h.name) == UPGRADE && IsValue(h.value, lenient)
  }

  function AfterUpgrade(s: Parser): Parser {
    s.(state := HeaderFieldStart, hstate := General, index := 0, flags := s.flags.(upgrade := true))
  }

  /** An Upgrade of any value sets its flag. */
  lemma UpgradeLine(hc: Parser -> HeadersAnswer, s: Parser, t: seq<Event>, h: Header)
    requires s.state.HeaderFieldStart? && s.errno == Ok && UpgradeHeader(h, s.lenient)
    ensures LeadsBefore(hc, Conn(s, t, false), Line(h), Conn(AfterUpgrade(s), EmitAll(t, LineEvents(h)), false))
  {
    var v := h.value;
    hide Leads, LeadsBefore, Emit, EmitAll, Step, CONNECTION, PROXY_CONNECTION, CONTENT_LENGTH, TRANSFER_ENCODING,
      UPGRADE;
    var h1, i1 := NameColonRead(hc, s, t, h.name);
    UpgradeTracked(h1, i1, Folded(h.name));
    var s1, t1 := s.(state := HeaderValueDiscardWs, hstate := h1, index := i1), Emit(t, Data(OnHeaderField, h.name));
    var s2 := s1.(flags := s.flags.(upgrade := true), hstate := General);
    UpgradeStart(hc, s1, v[0]);
    PlainValueRead(hc, s2, t1, v);
    SameStart(hc, s1, s2, t1, v,
              Conn(s2.(state := HeaderValue, index := 0), Emit(t1, Data(OnHeaderValue, v)), |v| > 1));
    var s3 := s2.(state := HeaderValue, index := 0);
    LeadsOn(hc, Conn(s, t, false), h.name + COLON, Conn(s1, t1, false), v,
            Conn(s3, Emit(t1, Data(OnHeaderValue, v)), |v| > 1));
    LineEnds(hc, Conn(s, t, false), h.name + COLON + v, s3, t1, v, |v| > 1);
    EmitTwo(t, Data(OnHeaderField, h.name), Data(OnHeaderValue, v));
    assert FinishValue(s3).(state := HeaderFieldStart) == AfterUpgrade(s);
  }

  lemma UpgradeTracked(h: HState, i: nat, p: bytes)
    requires Tracks(h, i, p) && p == UPGRADE
    ensures h.Upgrade?
  {
    Initials();
    hide CONNECTION, PROXY_CONNECTION, CONTENT_LENGTH, TRANSFER_ENCODING, UPGRADE;
  }

  /** Parsers that do the same with the first byte do the same with all. */
  lemma SameStart(hc: Parser -> HeadersAnswer, s1: Parser, s2: Parser, t: seq<Event>, w: bytes, d: Conn)
    requires w != [] && Step(hc, s1, w[0], false) == Step(hc, s2, w[0], false)
    requires !s1.state.HeaderValue? && !s2.state.HeaderValue?
    requires Leads(hc, Conn(s2, t, false), w, d)
    ensures Leads(hc, Conn(s1, t, false), w, d)
  {
    hide Step, EmitAll;
  }

  // ---------------------------------------------------------------- whole headers

  /** Any header, but for a length that is refused. */
  predicate Understood(h: Header, lenient: bool) {
    IsName(h.name) && if Folded(h.name) == CONTENT_LENGTH then LengthWithin(h) else IsValue(h.value, lenient)
  }

  /** The parser after a line. */
  function AfterLine(s: Parser, h: Header): Parser {
    var p := Folded(h.name);
    if p == CONTENT_LENGTH then AfterLength(s, if IsLength(h.value) then Length(0, h.value) else 0)
    else if p == UPGRADE then AfterUpgrade(s)
    else if (p == TRANSFER_ENCODING || p == CONNECTION || p == PROXY_CONNECTION) && h.value != []
    then AfterOptions(s, h)
    else s.(hstate := General, index := 0)
  }

  lemma NamesApart()
    ensures CONTENT_LENGTH != UPGRADE && CONTENT_LENGTH != TRANSFER_ENCODING && CONTENT_LENGTH != CONNECTION
            && CONTENT_LENGTH != PROXY_CONNECTION && UPGRADE != TRANSFER_ENCODING && UPGRADE != CONNECTION
            && UPGRADE != PROXY_CONNECTION && TRANSFER_ENCODING != CONNECTION && TRANSFER_ENCODING != PROXY_CONNECTION
  {
  }

  /** Every such line is reported as it stands. */
  lemma LineRead(hc: Parser -> HeadersAnswer, s: Parser, t: seq<Event>, h: Header)
    requires s.state.HeaderFieldStart? && s.errno == Ok && Understood(h, s.lenient)
    requires Folded(h.name) == CONTENT_LENGTH ==> !s.flags.contentLength
    ensures LeadsBefore(hc, Conn(s, t, false), Line(h), Conn(AfterLine(s, h), EmitAll(t, LineEvents(h)), false))
  {
    NamesApart();
    hide LeadsBefore, EmitAll, Line, LineEvents, IsName, Folded, CONNECTION, PROXY_CONNECTION, CONTENT_LENGTH,
      TRANSFER_ENCODING, UPGRADE, AfterOptions, AfterLength, AfterUpgrade, IsHeaderChar;
    if LengthWithin(h) {
      LengthIsValue(h.value, s.lenient);
      LengthLine(hc, s, t, h, []);
    } else if UpgradeHeader(h, s.lenient) {
      UpgradeLine(hc, s, t, h);
    } else if OptionHeader(h, s.lenient) {
      OptionLine(hc, s, t, h);
    } else {
      PlainLine(hc, s, t, h);
    }
  }

  /** Either of the two names of a Connection. */
  predicate IsConnection(h: Header) {
    Folded(h.name) == CONNECTION || Folded(h.name) == PROXY_CONNECTION
  }

  /** The flags that a line adds. */
  function Meant(f: Flags, h: Header): Flags {
    if Folded(h.name) == CONTENT_LENGTH then f.(contentLength := true)
    else if Folded(h.name) == UPGRADE then f.(upgrade := true)
    else if Folded(h.name) == TRANSFER_ENCODING then f.(chunked := f.chunked || Whole(h.value, Chunked))
    else if IsConnection(h) then Added(f, Options(h.value, true))
    else f
  }

  function MeantLength(n: nat, h: Header): nat {
    if Folded(h.name) == CONTENT_LENGTH && IsLength(h.value) then Length(0, h.value) else n
  }

  /** A line means what its name and value say, and touches nothing else. */
  lemma LineMeans(s: Parser, h: Header)
    requires s.state.HeaderFieldStart? && s.errno == Ok && Understood(h, s.lenient)
    ensures var d := AfterLine(s, h);
            d == s.(hstate := d.hstate, index := d.index, contentLength := MeantLength(s.contentLength, h),
                    flags := Meant(s.flags, h))
  {
    NamesApart();
    hide IsName, Folded, CONNECTION, PROXY_CONNECTION, CONTENT_LENGTH, TRANSFER_ENCODING, UPGRADE, Length, IsLength,
      Scanned, Options, Whole, IsHeaderChar, Added;
    if OptionHeader(h, s.lenient) {
      var start := s.(state := HeaderValueDiscardWs,
                      hstate := if Folded(h.name) == TRANSFER_ENCODING then TransferEncoding else Connection);
      assert CR !in h.value;
      ScannedShape(start, h.value);
      if Folded(h.name) == TRANSFER_ENCODING {
        ChunkedExact(start, h.value);
      } else {
        OptionsExact(start, h.value);
      }
    }
  }
}
