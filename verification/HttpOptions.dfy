/** The values of Transfer-Encoding and Connection: which of the words in them are taken. */
module HttpOptions {
  import opened Bytes
  import opened HttpTypes
  import opened HttpStep
  import opened HttpInvariant
  import opened HttpRun
  import opened HttpSplit
  import opened HttpPieces
  import opened HttpHeaders

  /** The values that set a flag. */
  datatype Word = Chunked | KeepAlive | Close | ToUpgrade

  function Letters(w: Word): string {
    match w case Chunked => CHUNKED case KeepAlive => KEEP_ALIVE case Close => CLOSE case ToUpgrade => UPGRADE
  }

  /** The header state before the value, while it is matched, and when it has matched. */
  function Before(w: Word): HState {
    if w.Chunked? then TransferEncoding else Connection
  }

  function During(w: Word): HState {
    match w
    case Chunked => MatchingTransferEncodingChunked case KeepAlive => MatchingConnectionKeepAlive
    case Close => MatchingConnectionClose case ToUpgrade => MatchingConnectionUpgrade
  }

  function Matched(w: Word): HState {
    match w
    case Chunked => TransferEncodingChunked case KeepAlive => ConnectionKeepAlive
    case Close => ConnectionClose case ToUpgrade => ConnectionUpgrade
  }

  function WithFlag(f: Flags, w: Word): Flags {
    match w
    case Chunked => f.(chunked := true) case KeepAlive => f.(keepAlive := true)
    case Close => f.(close := true) case ToUpgrade => f.(connectionUpgrade := true)
  }

  /** The word, in letters of either case. */
  predicate Spells(v: bytes, w: Word) {
    |v| == |Letters(w)| && forall k :: 0 <= k < |v| ==> v[k] != CR && Lower(v[k]) == Letters(w)[k]
  }

  lemma WordLengths(w: Word)
    ensures 5 <= |Letters(w)| <= 10
    ensures Letters(w)[0] == match w case Chunked => 'c' case KeepAlive => 'k' case Close => 'c' case ToUpgrade => 'u'
    ensures forall k :: 0 <= k < |Letters(w)| ==> 'a' <= Letters(w)[k] <= 'z' || Letters(w)[k] == '-'
  {
  }

  // ---------------------------------------------------------------- reading a value

  /** The characters of a value one after the other. */
  function ScanOn(s: Parser, w: bytes): Parser
    decreases |w|
  {
    if w == [] then s else ScanOn(ValueChar(s, w[0]), w[1..])
  }

  function Scanned(s: Parser, v: bytes): Parser
    requires v != []
  {
    ScanOn(ValueStartByte(s, v[0]).s, v[1..])
  }

  lemma {:induction false} ScanConcat(s: Parser, a: bytes, b: bytes)
    ensures ScanOn(s, a + b) == ScanOn(ScanOn(s, a), b)
    decreases |a|
  {
    hide ValueChar;
    if a == [] {
      assert a + b == b;
    } else {
      assert (a + b)[1..] == a[1..] + b;
      ScanConcat(ValueChar(s, a[0]), a[1..], b);
    }
  }

  lemma ScanOne(s: Parser, c: byte)
    ensures ScanOn(s, [c]) == ValueChar(s, c)
  {
    hide ValueChar;
    assert [c][1..] == [];
    assert ScanOn(ValueChar(s, c), []) == ValueChar(s, c);
  }

  /** In a value other than a length. */
  predicate InOptions(s: Parser) {
    s.state.HeaderValue? && s.errno == Ok && !s.hstate.ContentLength?
  }

  lemma OptionStays(s: Parser, ch: byte)
    requires InOptions(s)
    ensures var s1 := ValueChar(s, ch); InOptions(s1) && s1.lenient == s.lenient
  {
  }

  lemma OptionByte(hc: Parser -> HeadersAnswer, s: Parser, ch: byte)
    requires InOptions(s) && ch != CR && ch != LF && (s.lenient || IsHeaderChar(ch))
    ensures Step(hc, s, ch, false) == StepResult(ValueChar(s, ch), [Data(OnHeaderValue, [ch])], Go)
  {
    OptionStays(s, ch);
    hide ValueChar, IsHeaderChar;
  }

  predicate OptionStart(h: HState) {
    h.TransferEncoding? || h.Connection?
  }

  lemma OptionFirst(hc: Parser -> HeadersAnswer, s: Parser, ch: byte)
    requires s.state.HeaderValueDiscardWs? && OptionStart(s.hstate) && s.errno == Ok
    requires ch != CR && ch != LF && ch != ' ' && ch != '\t'
    ensures var s1 := ValueStartByte(s, ch).s;
            && InOptions(s1) && s1.lenient == s.lenient
            && Step(hc, s, ch, false) == StepResult(s1, [Data(OnHeaderValue, [ch])], Go)
  {
  }

  /** The value is reported as it stands. */
  lemma {:induction false} ScannedRead(hc: Parser -> HeadersAnswer, s: Parser, t: seq<Event>, v: bytes)
    returns (shadow: bool)
    requires s.state.HeaderValueDiscardWs? && OptionStart(s.hstate) && s.errno == Ok && IsValue(v, s.lenient)
    ensures Leads(hc, Conn(s, t, false), v, Conn(Scanned(s, v), Emit(t, Data(OnHeaderValue, v)), shadow))
    ensures InOptions(Scanned(s, v)) && Scanned(s, v).lenient == s.lenient
    decreases |v|
  {
    hide Leads, Emit, Step, IsHeaderChar, ValueChar, ValueStartByte, Shadows;
    var n := |v| - 1;
    var init, ch := v[..n], v[n];
    assert v == init + [ch];
    if n == 0 {
      OptionFirst(hc, s, ch);
      assert v == [ch] && v[1..] == [];
      var s1 := Scanned(s, v);
      shadow := Shadows(s, s1);
      LoudByte(hc, s, t, false, ch, s1, Data(OnHeaderValue, [ch]));
    } else {
      var before := ScannedRead(hc, s, t, init);
      var s0, t0 := Scanned(s, init), Emit(t, Data(OnHeaderValue, init));
      var s1 := ValueChar(s0, ch);
      assert v[1..] == init[1..] + [ch];
      ScanConcat(ValueStartByte(s, v[0]).s, init[1..], [ch]);
      ScanOne(s0, ch);
      OptionByte(hc, s0, ch);
      OptionStays(s0, ch);
      shadow := Shadows(s0, s1);
      LoudByte(hc, s0, t0, before, ch, s1, Data(OnHeaderValue, [ch]));
      EmitJoins(t, OnHeaderValue, init, [ch]);
      LeadsOn(hc, Conn(s, t, false), init, Conn(s0, t0, before), [ch],
              Conn(s1, Emit(t, Data(OnHeaderValue, v)), shadow));
    }
  }

  /** Where the matching of the name ended does not matter. */
  lemma StartIndex(s: Parser, i: nat, j: nat, v: bytes)
    requires v != [] && OptionStart(s.hstate)
    ensures Scanned(s.(index := i), v) == Scanned(s.(index := j), v)
  {
    hide ScanOn;
  }

  // ---------------------------------------------------------------- words

  /** The beginning of a word, in letters of either case. */
  predicate Stub(q: bytes, w: Word) {
    |q| < |Letters(w)| && forall k :: 0 <= k < |q| ==> Lower(q[k]) == Letters(w)[k]
  }

  predicate Blanks(q: bytes) {
    forall k :: 0 <= k < |q| ==> q[k] == ' '
  }

  /** The word, and blanks after it. */
  predicate Whole(q: bytes, w: Word) {
    |q| >= |Letters(w)| && Spells(q[..|Letters(w)|], w) && Blanks(q[|Letters(w)|..])
  }

  /** What the parser knows after these characters, if they began to be matched with the word. */
  function Known(q: bytes, w: Word, miss: HState): HState {
    if Stub(q, w) then During(w) else if Whole(q, w) then Matched(w) else miss
  }

  function Missed(w: Word): HState {
    if w.Chunked? then General else MatchingConnectionToken
  }

  /** One more character of a word, or after it. */
  lemma KnownStep(s: Parser, q: bytes, w: Word, c: byte)
    requires s.hstate == Known(q, w, Missed(w)) && (Stub(q, w) ==> q != [] && s.index == |q| - 1)
    requires (c != ',' || w.Chunked?) && c != CR && CR !in q
    ensures var s1, r := ValueChar(s, c), q + [c];
            && s1 == s.(index := s1.index, hstate := s1.hstate)
            && s1.hstate == Known(r, w, Missed(w)) && (Stub(r, w) ==> s1.index == |r| - 1)
  {
    WordLengths(w);
    hide Letters, Lower, ValueChar;
    var r, n := q + [c], |Letters(w)|;
    assert forall k :: 0 <= k < |q| ==> r[k] == q[k];
    assert r[|q|] == c;
    if Stub(q, w) {
      StubStep(q, w, c);
      MatchStep(s, w, q, c);
    } else {
      WholeStep(s, w, c);
      if |q| < n {
        var k :| 0 <= k < |q| && Lower(q[k]) != Letters(w)[k];
        assert r[k] == q[k];
        assert !Stub(r, w);
        if |r| >= n {
          assert r[..n][k] == q[k];
        }
      } else {
        AfterWhole(q, w, c);
      }
    }
  }

  lemma StubStep(q: bytes, w: Word, c: byte)
    requires Stub(q, w) && c != CR && CR !in q
    ensures var r := q + [c];
            && (Stub(r, w) <==> Lower(c) == Letters(w)[|q|] && |r| < |Letters(w)|)
            && (Whole(r, w) <==> Lower(c) == Letters(w)[|q|] && |r| == |Letters(w)|)
  {
    hide Letters, Lower;
    var r, n := q + [c], |Letters(w)|;
    assert forall k :: 0 <= k < |q| ==> r[k] == q[k];
    assert r[|q|] == c;
    if |r| == n {
      assert r[..n] == r && r[n..] == [];
      assert forall k :: 0 <= k < |r| ==> r[k] != CR;
    }
  }

  lemma AfterWhole(q: bytes, w: Word, c: byte)
    requires |q| >= |Letters(w)|
    ensures Whole(q + [c], w) <==> Whole(q, w) && c == ' '
  {
    hide Letters, Spells;
    var r, n := q + [c], |Letters(w)|;
    assert r[..n] == q[..n] && r[n..] == q[n..] + [c];
    assert r[n..][|q| - n] == c;
    if Blanks(r[n..]) {
      forall k | 0 <= k < |q[n..]| ensures q[n..][k] == ' ' {
        assert r[n..][k] == q[n..][k];
      }
    }
  }

  lemma MatchStep(s: Parser, w: Word, q: bytes, c: byte)
    requires s.hstate == During(w) && 0 < |q| < |Letters(w)| && s.index == |q| - 1
    ensures var s1 := ValueChar(s, c);
            s1 == s.(index := |q|, hstate := if Lower(c) != Letters(w)[|q|] then Missed(w)
                                             else if |q| + 1 == |Letters(w)| then Matched(w) else During(w))
  {
    WordLengths(w);
    hide Lower;
  }

  lemma WholeStep(s: Parser, w: Word, c: byte)
    requires (s.hstate == Matched(w) || s.hstate == Missed(w)) && (c != ',' || w.Chunked?)
    ensures ValueChar(s, c) == s.(hstate := if c == ' ' || s.hstate == Missed(w) then s.hstate else Missed(w))
  {
  }

  /** The rest of a word and what is after it, up to a comma. */
  lemma {:induction false} KnownRun(s: Parser, q: bytes, w: Word, x: bytes)
    requires s.hstate == Known(q, w, Missed(w)) && (Stub(q, w) ==> q != [] && s.index == |q| - 1)
    requires CR !in q && CR !in x && (w.Chunked? || ',' !in x)
    ensures var s1, r := ScanOn(s, x), q + x;
            && s1 == s.(index := s1.index, hstate := s1.hstate)
            && s1.hstate == Known(r, w, Missed(w)) && (Stub(r, w) ==> s1.index == |r| - 1)
    decreases |x|
  {
    hide Known, Stub, ValueChar;
    if x == [] {
      assert q + x == q;
    } else {
      KnownStep(s, q, w, x[0]);
      KnownRun(ValueChar(s, x[0]), q + [x[0]], w, x[1..]);
      assert q + [x[0]] + x[1..] == q + x;
    }
  }

  lemma FirstKnown(w: Word, c: byte)
    ensures Stub([c], w) <==> Lower(c) == Letters(w)[0]
    ensures !Whole([c], w)
  {
    WordLengths(w);
    hide Letters, Lower;
    assert [c][0] == c;
  }

  /** A Transfer-Encoding: is it the word, or the beginning of it? */
  lemma CodingScanned(s: Parser, v: bytes)
    requires s.hstate.TransferEncoding? && v != [] && CR !in v
    ensures var s1 := Scanned(s, v);
            && s1 == s.(state := HeaderValue, index := s1.index, hstate := Known(v, Chunked, General))
            && (Stub(v, Chunked) ==> s1.index == |v| - 1)
  {
    WordLengths(Chunked);
    FirstKnown(Chunked, v[0]);
    assert [v[0]] + v[1..] == v;
    hide ScanOn, Stub, Whole, Letters, Lower;
    KnownRun(ValueStartByte(s, v[0]).s, [v[0]], Chunked, v[1..]);
  }

  lemma {:induction false} ScanShape(s: Parser, x: bytes)
    requires InOptions(s)
    ensures var d := ScanOn(s, x);
            InOptions(d) && d == s.(hstate := d.hstate, index := d.index, flags := d.flags)
    decreases |x|
  {
    if x != [] {
      OptionStays(s, x[0]);
      var s1 := ValueChar(s, x[0]);
      assert s1 == s.(hstate := s1.hstate, index := s1.index, flags := s1.flags);
      hide ValueChar;
      ScanShape(s1, x[1..]);
    }
  }

  lemma ScannedShape(s: Parser, v: bytes)
    requires OptionStart(s.hstate) && s.errno == Ok && v != []
    ensures var d := Scanned(s, v);
            d == s.(state := HeaderValue, hstate := d.hstate, index := d.index, flags := d.flags)
  {
    hide ScanOn;
    ScanShape(ValueStartByte(s, v[0]).s, v[1..]);
  }

  // ---------------------------------------------------------------- what is taken

  /** `chunked` is taken exactly if it is the whole value, but for blanks behind it. */
  lemma ChunkedExact(s: Parser, v: bytes)
    requires s.hstate.TransferEncoding? && v != [] && CR !in v
    ensures FinishValue(Scanned(s, v)).flags == if Whole(v, Chunked) then s.flags.(chunked := true) else s.flags
  {
    CodingScanned(s, v);
    WordLengths(Chunked);
    hide Scanned, Letters, Spells, Blanks, Lower;
  }

  /** How far it is to the next comma. */
  function CommaAt(v: bytes): (n: nat)
    ensures n <= |v| && ',' !in v[..n] && (n < |v| ==> v[n] == ',')
  {
    if v == [] || v[0] == ',' then 0
    else
      var n := CommaAt(v[1..]);
      assert v[..n + 1] == [v[0]] + v[1..][..n];
      n + 1
  }

  function BehindComma(v: bytes): bytes {
    if CommaAt(v) == |v| then [] else v[CommaAt(v) + 1..]
  }

  /** Without the blanks before it; a NUL counts as a blank, and a tab does not. */
  function Trimmed(q: bytes): (r: bytes)
    ensures |r| <= |q| && r == q[|q| - |r|..]
    ensures r != [] ==> r[0] != ' ' && r[0] != '\0'
  {
    if q != [] && (q[0] == ' ' || q[0] == '\0') then Trimmed(q[1..]) else q
  }

  function Own(q: bytes): set<Word> {
    (if Whole(q, KeepAlive) then {KeepAlive} else {}) + (if Whole(q, Close) then {Close} else {})
    + (if Whole(q, ToUpgrade) then {ToUpgrade} else {})
  }

  predicate AnyStub(q: bytes) {
    Stub(q, KeepAlive) || Stub(q, Close) || Stub(q, ToUpgrade)
  }

  /**
   * The words that a list between commas gives.  An element that is the beginning
   * of a word, right before its comma, takes the next element with it; and an
   * element that is empty, or begins with no token character, ends the reading,
   * unless it is the first.
   */
  function Options(v: bytes, first: bool): set<Word>
    decreases |v|
  {
    var n := CommaAt(v);
    var q := if first then v[..n] else Trimmed(v[..n]);
    if !first && (q == [] || Token(Lower(q[0])) == '\0') then {}
    else if n == |v| then Own(q)
    else Own(q) + Options(if AnyStub(q) then BehindComma(v[n + 1..]) else v[n + 1..], false)
  }

  function Added(f: Flags, ws: set<Word>): Flags {
    f.(keepAlive := f.keepAlive || KeepAlive in ws, close := f.close || Close in ws,
       connectionUpgrade := f.connectionUpgrade || ToUpgrade in ws)
  }

  lemma AddedMore(f: Flags, a: set<Word>, b: set<Word>)
    ensures Added(Added(f, a), b) == Added(f, a + b) && Added(f, {}) == f
  {
  }

  /** The word that an element begins to be matched with. */
  function Guess(c: byte): (w: Word)
    ensures !w.Chunked?
  {
    if Lower(c) == 'k' then KeepAlive else if Lower(c) == 'c' then Close else ToUpgrade
  }

  /** The parser at the end of an element. */
  predicate AtElement(s: Parser, q: bytes)
    requires q != []
  {
    s.hstate == Known(q, Guess(q[0]), MatchingConnectionToken) && (Stub(q, Guess(q[0])) ==> s.index == |q| - 1)
  }

  lemma FirstLetter(q: bytes, w: Word)
    requires q != []
    ensures Stub(q, w) || Whole(q, w) ==> Lower(q[0]) == Letters(w)[0]
  {
    WordLengths(w);
    hide Lower, Letters;
    if Whole(q, w) {
      assert q[..|Letters(w)|][0] == q[0];
    }
  }

  lemma OnlyGuess(q: bytes)
    requires q != []
    ensures forall w: Word :: !w.Chunked? && w != Guess(q[0]) ==> !Stub(q, w) && !Whole(q, w)
    ensures AnyStub(q) <==> Stub(q, Guess(q[0]))
    ensures Own(q) == if Whole(q, Guess(q[0])) then {Guess(q[0])} else {}
  {
    WordLengths(KeepAlive);
    WordLengths(Close);
    WordLengths(ToUpgrade);
    forall w: Word | !w.Chunked? && w != Guess(q[0]) ensures !Stub(q, w) && !Whole(q, w) {
      WordLengths(w);
      FirstLetter(q, w);
    }
    hide Stub, Whole, Letters, Lower;
  }

  /** An element, from its first character on. */
  lemma ElementScanned(s: Parser, q: bytes)
    requires s.hstate.MatchingConnectionTokenStart? && s.index == 0 && q != [] && Token(Lower(q[0])) != '\0'
    requires CR !in q && ',' !in q
    ensures var s1 := ScanOn(s, q); s1 == s.(index := s1.index, hstate := s1.hstate) && AtElement(s1, q)
  {
    var w := Guess(q[0]);
    WordLengths(w);
    FirstKnown(w, q[0]);
    assert [q[0]] + q[1..] == q;
    hide Stub, Whole, Letters, Token;
    KnownRun(ValueChar(s, q[0]), [q[0]], w, q[1..]);
  }

  /** The first element. */
  lemma FirstScanned(s: Parser, q: bytes)
    requires s.hstate.Connection? && q != [] && CR !in q && ',' !in q[1..]
    ensures q[0] != ',' ==>
              var s1 := Scanned(s, q);
              s1 == s.(state := HeaderValue, index := s1.index, hstate := s1.hstate) && AtElement(s1, q)
  {
    var w := Guess(q[0]);
    WordLengths(w);
    FirstKnown(w, q[0]);
    assert [q[0]] + q[1..] == q;
    hide Stub, Whole, Letters, ScanOn;
    KnownRun(ValueStartByte(s, q[0]).s, [q[0]], w, q[1..]);
  }

  /** The comma behind an element. */
  lemma CommaScanned(s: Parser, q: bytes)
    requires q != [] && AtElement(s, q)
    ensures var s1 := ValueChar(s, ',');
            if AnyStub(q) then s1 == s.(index := s1.index, hstate := MatchingConnectionToken)
            else s1 == s.(hstate := MatchingConnectionTokenStart, index := 0, flags := Added(s.flags, Own(q)))
  {
    OnlyGuess(q);
    var w := Guess(q[0]);
    hide Stub, Whole, AnyStub, Own, Letters, Lower, Token, ValueChar, Guess;
    if Stub(q, w) {
      StubComma(s, q, w);
    } else if Whole(q, w) {
      WholeComma(s, w);
    } else {
      OtherComma(s);
    }
  }

  lemma WholeComma(s: Parser, w: Word)
    requires s.hstate == Matched(w) && !w.Chunked?
    ensures ValueChar(s, ',') == s.(hstate := MatchingConnectionTokenStart, index := 0, flags := Added(s.flags, {w}))
  {
  }

  lemma OtherComma(s: Parser)
    requires s.hstate.MatchingConnectionToken?
    ensures ValueChar(s, ',') == s.(hstate := MatchingConnectionTokenStart, index := 0, flags := Added(s.flags, {}))
  {
  }

  lemma StubComma(s: Parser, q: bytes, w: Word)
    requires q != [] && Stub(q, w) && s.hstate == During(w) && s.index == |q| - 1 && !w.Chunked?
    ensures ValueChar(s, ',') == s.(index := |q|, hstate := MatchingConnectionToken)
  {
    WordLengths(w);
    MatchStep(s, w, q, ',');
  }

  lemma {:induction false} BlanksScanned(s: Parser, b: bytes)
    requires s.hstate.MatchingConnectionTokenStart? && forall k :: 0 <= k < |b| ==> b[k] == ' ' || b[k] == '\0'
    ensures ScanOn(s, b) == s
    decreases |b|
  {
    if b != [] {
      assert ValueChar(s, b[0]) == s;
      BlanksScanned(s, b[1..]);
    }
  }

  lemma {:induction false} TokenScanned(s: Parser, x: bytes)
    requires s.hstate.MatchingConnectionToken? && ',' !in x
    ensures ScanOn(s, x) == s
    decreases |x|
  {
    if x != [] {
      assert ValueChar(s, x[0]) == s;
      TokenScanned(s, x[1..]);
    }
  }

  lemma {:induction false} GeneralScanned(s: Parser, x: bytes)
    requires s.hstate.General?
    ensures ScanOn(s, x) == s
    decreases |x|
  {
    if x != [] {
      GeneralScanned(s, x[1..]);
    }
  }

  /** The flags, when the line is over. */
  function Flagged(s: Parser, x: bytes): Flags {
    FinishValue(ScanOn(s, x)).flags
  }

  lemma FlaggedOn(s: Parser, a: bytes, b: bytes)
    ensures Flagged(s, a + b) == Flagged(ScanOn(s, a), b)
  {
    hide ValueChar, FinishValue;
    ScanConcat(s, a, b);
  }

  lemma FlaggedNext(s: Parser, x: bytes)
    requires x != []
    ensures Flagged(s, x) == Flagged(ValueChar(s, x[0]), x[1..])
  {
    hide ValueChar, FinishValue;
  }

  lemma FlaggedEnd(s: Parser)
    requires s.hstate.MatchingConnectionTokenStart? || s.hstate.MatchingConnectionToken? || s.hstate.General?
    ensures Flagged(s, []) == s.flags
  {
  }

  lemma {:induction false} ListScanned(s: Parser, v: bytes)
    requires s.hstate.MatchingConnectionTokenStart? && s.index == 0 && CR !in v
    ensures Flagged(s, v) == Added(s.flags, Options(v, false))
    decreases |v|, 0
  {
    hide *;
    var n := CommaAt(v);
    var p, q := v[..n], Trimmed(v[..n]);
    var b := p[..n - |q|];
    TrimmedBlanks(p);
    assert v == b + (q + v[n..]);
    FlaggedOn(s, b, q + v[n..]);
    BlanksScanned(s, b);
    AddedMore(s.flags, {}, {});
    if q == [] || Token(Lower(q[0])) == '\0' {
      NoOptions(v);
      if q + v[n..] == [] {
        FlaggedEnd(s);
      } else {
        CommaStops();
        StopScanned(s, q + v[n..]);
      }
    } else {
      ElementScanned(s, q);
      FlaggedOn(s, q, v[n..]);
      RestScanned(ScanOn(s, q), q, v[n..]);
      SomeOptions(v);
      assert n < |v| ==> v[n..][0] == ',' && v[n..][1..] == v[n + 1..];
    }
  }

  lemma CommaStops()
    ensures Token(Lower(',')) == '\0'
  {
  }

  lemma NoOptions(v: bytes)
    requires var q := Trimmed(v[..CommaAt(v)]); q == [] || Token(Lower(q[0])) == '\0'
    ensures Options(v, false) == {}
  {
  }

  lemma SomeOptions(v: bytes)
    requires var q := Trimmed(v[..CommaAt(v)]); q != [] && Token(Lower(q[0])) != '\0'
    ensures Options(v, false) == OptionsOn(Trimmed(v[..CommaAt(v)]), v[CommaAt(v)..])
  {
    hide Own, AnyStub, Token, Lower;
    var n := CommaAt(v);
    assert n < |v| ==> v[n..][1..] == v[n + 1..];
  }

  /** The options from the end of an element on. */
  function OptionsOn(q: bytes, x: bytes): set<Word> {
    if x == [] then Own(q) else Own(q) + Options(if AnyStub(q) then BehindComma(x[1..]) else x[1..], false)
  }

  lemma {:induction false} TrimmedBlanks(p: bytes)
    ensures forall k :: 0 <= k < |p| - |Trimmed(p)| ==> p[k] == ' ' || p[k] == '\0'
    decreases |p|
  {
    if p != [] && (p[0] == ' ' || p[0] == '\0') {
      TrimmedBlanks(p[1..]);
      forall k | 0 <= k < |p| - |Trimmed(p)| ensures p[k] == ' ' || p[k] == '\0' {
        if k > 0 {
          assert p[k] == p[1..][k - 1];
        }
      }
    }
  }

  /** An element that no option can begin with. */
  lemma StopScanned(s: Parser, x: bytes)
    requires s.hstate.MatchingConnectionTokenStart?
    requires x != [] && x[0] != ' ' && x[0] != '\0' && Token(Lower(x[0])) == '\0'
    ensures Flagged(s, x) == s.flags
  {
    FlaggedNext(s, x);
    assert Lower(x[0]) != ' ';
    var s1 := ValueChar(s, x[0]);
    assert s1 == s.(hstate := General);
    GeneralScanned(s1, x[1..]);
  }

  /** Behind an element. */
  lemma {:induction false} RestScanned(s: Parser, q: bytes, x: bytes)
    requires q != [] && AtElement(s, q) && CR !in x && (x != [] ==> x[0] == ',')
    ensures Flagged(s, x) == Added(s.flags, OptionsOn(q, x))
    decreases |x|, 1
  {
    hide *;
    LastOption(q, x);
    if x == [] {
      LastScanned(s, q);
    } else {
      var y, s1 := x[1..], ValueChar(s, ',');
      FlaggedNext(s, x);
      CommaScanned(s, q);
      StubOwnsNothing(q);
      if AnyStub(q) {
        StubScanned(s1, y);
      } else {
        AddedMore(s.flags, Own(q), Options(y, false));
        ListScanned(s1, y);
      }
    }
  }

  lemma LastOption(q: bytes, x: bytes)
    ensures x == [] ==> OptionsOn(q, x) == Own(q)
    ensures x != [] && !AnyStub(q) ==> OptionsOn(q, x) == Own(q) + Options(x[1..], false)
    ensures x != [] && AnyStub(q) && Own(q) == {} ==> OptionsOn(q, x) == Options(BehindComma(x[1..]), false)
  {
    hide Own, AnyStub, Options;
  }

  /** An element that is taken along with the one before it. */
  lemma {:induction false} StubScanned(s: Parser, y: bytes)
    requires s.hstate.MatchingConnectionToken? && CR !in y
    ensures Flagged(s, y) == Added(s.flags, Options(BehindComma(y), false))
    decreases |y|, 1
  {
    hide *;
    var m := CommaAt(y);
    assert y == y[..m] + y[m..];
    FlaggedOn(s, y[..m], y[m..]);
    TokenScanned(s, y[..m]);
    Behind(y);
    if m < |y| {
      FlaggedNext(s, y[m..]);
      TokenComma(s);
      ListScanned(s.(hstate := MatchingConnectionTokenStart, index := 0), BehindComma(y));
    } else {
      FlaggedEnd(s);
      AddedMore(s.flags, {}, {});
    }
  }

  lemma Behind(y: bytes)
    ensures CommaAt(y) < |y| ==> y[CommaAt(y)..][0] == ',' && y[CommaAt(y)..][1..] == BehindComma(y)
    ensures CommaAt(y) < |y| ==> |BehindComma(y)| < |y|
    ensures CommaAt(y) == |y| ==> Options(BehindComma(y), false) == {}
    ensures CR !in y ==> CR !in BehindComma(y)
  {
    hide Own;
    var n := CommaAt(y);
    if n == |y| {
      assert CommaAt([]) == 0 && Trimmed([]) == [];
    } else {
      assert forall k :: 0 <= k < |BehindComma(y)| ==> BehindComma(y)[k] == y[n + 1 + k];
    }
  }

  lemma TokenComma(s: Parser)
    requires s.hstate.MatchingConnectionToken?
    ensures ValueChar(s, ',') == s.(hstate := MatchingConnectionTokenStart, index := 0)
  {
  }

  lemma StubOwnsNothing(q: bytes)
    ensures AnyStub(q) ==> Own(q) == {}
  {
    if q != [] {
      OnlyGuess(q);
      hide Letters, Lower, Spells, Blanks;
    } else {
      WordLengths(KeepAlive);
      WordLengths(Close);
      WordLengths(ToUpgrade);
    }
  }

  lemma LastScanned(s: Parser, q: bytes)
    requires q != [] && AtElement(s, q)
    ensures Flagged(s, []) == Added(s.flags, Own(q))
  {
    OnlyGuess(q);
    hide Stub, Whole, Own, Letters, Lower, Token;
  }

  /** The flags that a Connection of any value sets are those of its options. */
  lemma OptionsExact(s: Parser, v: bytes)
    requires s.hstate.Connection? && v != [] && CR !in v
    ensures FinishValue(Scanned(s, v)).flags == Added(s.flags, Options(v, true))
  {
    assert FinishValue(Scanned(s, v)).flags == Flagged(ValueStartByte(s, v[0]).s, v[1..]);
    hide *;
    var n := CommaAt(v);
    FirstOptions(v);
    StubOwnsNothing(v[..n]);
    if n > 0 {
      assert v[1..] == v[..n][1..] + v[n..];
      FirstRead(s, v[..n], v[n..]);
    } else {
      FirstComma(s, v[0]);
      StubScanned(ValueStartByte(s, v[0]).s, v[1..]);
    }
  }

  lemma FirstRead(s: Parser, q: bytes, x: bytes)
    requires s.hstate.Connection? && q != [] && CR !in q && ',' !in q && CR !in x && (x != [] ==> x[0] == ',')
    ensures Flagged(ValueStartByte(s, q[0]).s, q[1..] + x) == Added(s.flags, OptionsOn(q, x))
  {
    FirstScanned(s, q);
    assert Scanned(s, q) == ScanOn(ValueStartByte(s, q[0]).s, q[1..]);
    hide *;
    FlaggedOn(ValueStartByte(s, q[0]).s, q[1..], x);
    RestScanned(Scanned(s, q), q, x);
  }

  lemma EmptyStub(q: bytes)
    requires q == []
    ensures Stub(q, KeepAlive)
  {
    WordLengths(KeepAlive);
  }

  lemma FirstOptions(v: bytes)
    requires v != []
    ensures var n := CommaAt(v);
            && Options(v, true) == OptionsOn(v[..n], v[n..]) && (n < |v| ==> v[n..][0] == ',')
            && (n == 0 ==>
                  AnyStub(v[..n]) && (Own(v[..n]) == {} ==> Options(v, true) == Options(BehindComma(v[1..]), false)))
  {
    hide Own, Letters, Token, Lower, Trimmed, Stub, Whole;
    var n := CommaAt(v);
    EmptyStub(v[..0]);
    assert n < |v| ==> v[n..][1..] == v[n + 1..];
  }

  /** A comma at the beginning takes the next element with it. */
  lemma FirstComma(s: Parser, c: byte)
    requires s.hstate.Connection? && c == ','
    ensures var s1 := ValueStartByte(s, c).s; s1.hstate == MatchingConnectionToken && s1.flags == s.flags
  {
  }

  // ---------------------------------------------------------------- lists as they should be

  /** What stands between the commas. */
  function Elements(v: bytes): (r: seq<bytes>)
    ensures r != []
    decreases |v|
  {
    var n := CommaAt(v);
    if n == |v| then [v] else [v[..n]] + Elements(v[n + 1..])
  }

  /** An option as the standard has it, that is not the mere beginning of one of the words. */
  predicate Plain(q: bytes) {
    q != [] && Token(Lower(q[0])) != '\0' && !AnyStub(q)
  }

  lemma {:induction false} PlainElements(v: bytes, w: Word)
    requires !w.Chunked? && forall k :: 0 <= k < |Elements(v)| ==> Plain(Trimmed(Elements(v)[k]))
    ensures w in Options(v, false) <==> exists k :: 0 <= k < |Elements(v)| && Whole(Trimmed(Elements(v)[k]), w)
    decreases |v|
  {
    hide *;
    var n := CommaAt(v);
    var all := Elements(v);
    FirstElement(v);
    OwnExact(Trimmed(all[0]), w);
    if n < |v| {
      var rest := Elements(v[n + 1..]);
      forall k | 0 <= k < |rest| ensures Plain(Trimmed(rest[k])) {
        assert all[k + 1] == rest[k];
      }
      PlainElements(v[n + 1..], w);
      if w in Options(v[n + 1..], false) {
        var k :| 0 <= k < |rest| && Whole(Trimmed(rest[k]), w);
        assert all[k + 1] == rest[k];
      }
      if exists k :: 0 < k < |all| && Whole(Trimmed(all[k]), w) {
        var k :| 0 < k < |all| && Whole(Trimmed(all[k]), w);
        assert rest[k - 1] == all[k];
      }
    }
  }

  lemma FirstElement(v: bytes)
    requires Plain(Trimmed(Elements(v)[0]))
    ensures var n, q := CommaAt(v), Trimmed(Elements(v)[0]);
            if n == |v| then |Elements(v)| == 1 && Options(v, false) == Own(q)
            else && Elements(v) == [Elements(v)[0]] + Elements(v[n + 1..]) && |v[n + 1..]| < |v|
                 && Options(v, false) == Own(q) + Options(v[n + 1..], false)
  {
    hide *;
    ElementsBy(v);
    assert v[..|v|] == v;
    PlainFirst(v, CommaAt(v), Trimmed(v[..CommaAt(v)]));
  }

  lemma PlainFirst(v: bytes, n: nat, q: bytes)
    requires n == CommaAt(v) && q == Trimmed(v[..n]) && Plain(q)
    ensures n == |v| ==> Options(v, false) == Own(q)
    ensures n < |v| ==> Options(v, false) == Own(q) + Options(v[n + 1..], false)
  {
    PlainMeans(q);
    hide *;
    OptionsBy(v, n, q);
  }

  lemma OptionsBy(v: bytes, n: nat, q: bytes)
    requires n == CommaAt(v) && q == Trimmed(v[..n])
    ensures Options(v, false)
         == if q == [] || Token(Lower(q[0])) == '\0' then {} else if n == |v| then Own(q)
            else Own(q) + Options(if AnyStub(q) then BehindComma(v[n + 1..]) else v[n + 1..], false)
  {
    hide Own, AnyStub, Token, Lower, Trimmed, CommaAt, BehindComma;
  }

  lemma PlainMeans(q: bytes)
    requires Plain(q)
    ensures q != [] && Token(Lower(q[0])) != '\0' && !AnyStub(q)
  {
    hide Token, Lower, AnyStub;
  }

  lemma OwnExact(q: bytes, w: Word)
    requires !w.Chunked?
    ensures w in Own(q) <==> Whole(q, w)
  {
    hide Whole;
  }

  /** Of such a list each word is taken that is one of its elements, and no other. */
  lemma PlainOptions(v: bytes, w: Word)
    requires !w.Chunked? && v != [] && v[0] != ' ' && v[0] != '\0'
    requires forall k :: 0 <= k < |Elements(v)| ==> Plain(Trimmed(Elements(v)[k]))
    ensures w in Options(v, true) <==> exists k :: 0 <= k < |Elements(v)| && Whole(Trimmed(Elements(v)[k]), w)
  {
    hide Whole, AnyStub, Token, Lower;
    var n := CommaAt(v);
    assert n > 0 ==> v[..n][0] == v[0];
    assert Elements(v)[0] == if n == |v| then v else v[..n];
    assert Plain(Trimmed(Elements(v)[0]));
    assert Trimmed(v[..n]) == v[..n];
    PlainElements(v, w);
  }

  lemma FirstOf(x: bytes, y: bytes)
    requires ',' !in x
    ensures Elements(x + "," + y) == [x] + Elements(y) && CommaAt(x + "," + y) == |x|
  {
    hide Elements;
    assert x + "," + y == x + ("," + y);
    CommaFirst(x, y);
    ElementsBy(x + "," + y);
    assert (x + "," + y)[..|x|] == x && (x + "," + y)[|x| + 1..] == y;
  }

  lemma ElementsBy(v: bytes)
    ensures var n := CommaAt(v); Elements(v) == if n == |v| then [v] else [v[..n]] + Elements(v[n + 1..])
  {
    hide CommaAt;
  }

  lemma OneElement(v: bytes)
    requires ',' !in v
    ensures Elements(v) == [v] && CommaAt(v) == |v|
  {
    NoComma(v);
  }

  /** The options behind a first element that is no option and not the beginning of one. */
  lemma OptionsBehind(x: bytes, y: bytes)
    requires ',' !in x && !AnyStub(x) && Own(x) == {}
    ensures Options(x + "," + y, true) == Options(y, false)
  {
    hide AnyStub, Own, Trimmed, Token, Lower, Elements;
    FirstOf(x, y);
    var v := x + "," + y;
    assert v[..|x|] == x && v[|x| + 1..] == y;
    assert {} + Options(y, false) == Options(y, false);
  }

  /** The beginning of a word hides the element behind it, though `close` is an option there. */
  lemma StubHidesNext()
    ensures Elements("c,close") == ["c", "close"] && Options("c,close", true) == {}
  {
    hide *;
    FirstOf("c", "close");
    OneElement("close");
    StubC();
    StubBehind("c", "close");
    NothingBehind();
    assert "c" + "," + "close" == "c,close";
  }

  /** The options behind a first element that is the beginning of one. */
  lemma StubBehind(x: bytes, y: bytes)
    requires ',' !in x && AnyStub(x) && Own(x) == {}
    ensures Options(x + "," + y, true) == Options(BehindComma(y), false)
    ensures ',' !in y ==> BehindComma(y) == []
  {
    hide AnyStub, Own, Trimmed, Token, Lower, Elements;
    FirstOf(x, y);
    var v := x + "," + y;
    assert v[..|x|] == x && v[|x| + 1..] == y;
    assert {} + Options(BehindComma(y), false) == Options(BehindComma(y), false);
    if ',' !in y {
      NoComma(y);
    }
  }

  lemma NothingBehind()
    ensures Options([], false) == {}
  {
    assert CommaAt([]) == 0 && Trimmed([]) == [];
  }

  lemma StubC()
    ensures AnyStub("c") && Own("c") == {}
  {
    assert Stub("c", Close);
    StubOwnsNothing("c");
  }

  /** So does an element that is empty. */
  lemma EmptyHidesRest()
    ensures Elements("x,,close") == ["x", "", "close"] && Options("x,,close", true) == {}
  {
    hide *;
    FirstOf("x", ",close");
    FirstOf("", "close");
    OneElement("close");
    CommaNow("close");
    NotOwn('x');
    OptionsBehind("x", ",close");
    assert "x" + "," + ",close" == "x,,close" && "" + "," + "close" == ",close" == "," + "close";
  }

  lemma CommaNow(x: bytes)
    ensures CommaAt("," + x) == 0 && Options("," + x, false) == {}
  {
    assert ("," + x)[..0] == [] && Trimmed([]) == [];
  }

  lemma NotOwn(c: byte)
    requires c == 'x'
    ensures Own([c]) == {} && !AnyStub([c])
  {
    OnlyGuess([c]);
    WordLengths(ToUpgrade);
    FirstKnown(ToUpgrade, c);
    hide Own, AnyStub, Whole, Stub;
  }

  lemma {:induction false} NoComma(q: bytes)
    requires ',' !in q
    ensures CommaAt(q) == |q|
    decreases |q|
  {
    if q != [] {
      NoComma(q[1..]);
    }
  }

  lemma {:induction false} CommaFirst(q: bytes, x: bytes)
    requires ',' !in q
    ensures CommaAt(q + "," + x) == |q|
    decreases |q|
  {
    var v := q + "," + x;
    if q != [] {
      assert v[1..] == q[1..] + "," + x;
      CommaFirst(q[1..], x);
    }
  }

  // ---------------------------------------------------------------- a word alone

  lemma WordIsValue(v: bytes, w: Word, lenient: bool)
    requires Spells(v, w)
    ensures IsValue(v, lenient) && CR !in v
  {
    WordLengths(w);
    forall k | 0 <= k < |v| ensures v[k] != CR && v[k] != LF && IsHeaderChar(v[k]) && v[k] != ' ' && v[k] != '\t' {
      LetterPlain(v[k], Letters(w)[k]);
    }
    hide Letters, Lower;
  }

  lemma LetterPlain(ch: byte, c: char)
    requires ch != CR && Lower(ch) == c && ('a' <= c <= 'z' || c == '-')
    ensures ch != LF && IsHeaderChar(ch) && ch != ' ' && ch != '\t' && ch != ','
  {
  }

  lemma WordScanned(s: Parser, v: bytes, w: Word)
    requires s.hstate == Before(w) && Spells(v, w)
    ensures Scanned(s, v) == s.(state := HeaderValue, hstate := Matched(w), index := |v| - 1)
  {
    WordLengths(w);
    WordIsValue(v, w, false);
    forall k | 0 <= k < |v| ensures v[k] != ',' {
      LetterPlain(v[k], Letters(w)[k]);
    }
    var n := |v| - 1;
    var init := v[..n];
    assert v[1..] == init[1..] + [v[n]] && init[0] == v[0];
    assert Stub(init, w);
    StubScan(s, init, w);
    hide Letters, Lower, Spells, Stub, ValueStartByte, ScanOn, ValueChar;
    ScanConcat(ValueStartByte(s, v[0]).s, init[1..], [v[n]]);
    ScanOne(Scanned(s, init), v[n]);
    LastLetter(Scanned(s, init), init, w, v[n], v);
  }

  lemma LastLetter(s: Parser, q: bytes, w: Word, c: byte, v: bytes)
    requires v == q + [c] && q != [] && Spells(v, w) && s.hstate == During(w) && s.index == |q| - 1
    ensures ValueChar(s, c) == s.(index := |q|, hstate := Matched(w))
  {
    WordLengths(w);
    hide ValueChar, Letters, Lower;
    MatchStep(s, w, q, c);
  }

  lemma StubScan(s: Parser, q: bytes, w: Word)
    requires s.hstate == Before(w) && q != [] && Stub(q, w) && CR !in q && ',' !in q
    ensures Scanned(s, q) == s.(state := HeaderValue, hstate := During(w), index := |q| - 1)
  {
    if w.Chunked? {
      CodingScanned(s, q);
    } else {
      FirstScanned(s, q);
      OnlyGuess(q);
    }
    hide Scanned, Letters, Lower;
  }
}
