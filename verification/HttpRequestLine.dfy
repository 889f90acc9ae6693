/** Request lines: method, URL and version come out as they were written. */
module HttpRequestLine {
  import opened Bytes
  import opened Decimals
  import opened HttpTypes
  import opened HttpStep
  import opened HttpInvariant
  import opened HttpRun
  import opened HttpSplit
  import opened HttpPieces
  import opened HttpNumbers

  // ---------------------------------------------------------------- methods

  /** The method that the parser takes `m` for after `k` of its letters. */
  function Stem(m: Method, k: nat): Method {
    match m
    case PUT => if k < 2 then POST else PUT
    case PATCH => if k < 2 then POST else PATCH
    case PROPFIND => if k < 2 then POST else PROPFIND
    case PROPPATCH => if k < 2 then POST else if k < 5 then PROPFIND else PROPPATCH
    case PURGE => if k < 2 then POST else if k < 3 then PUT else PURGE
    case CHECKOUT => if k < 2 then CONNECT else CHECKOUT
    case COPY => if k < 3 then CONNECT else COPY
    case MOVE => if k < 2 then MKCOL else MOVE
    case MERGE => if k < 2 then MKCOL else MERGE
    case MSEARCH => if k < 2 then MKCOL else MSEARCH
    case MKACTIVITY => if k < 3 then MKCOL else MKACTIVITY
    case MKCALENDAR => if k < 4 then MKCOL else MKCALENDAR
    case SEARCH => if k < 2 then SUBSCRIBE else SEARCH
    case REBIND => if k < 3 then REPORT else REBIND
    case LINK => if k < 2 then LOCK else LINK
    case UNSUBSCRIBE => if k < 3 then UNLOCK else UNSUBSCRIBE
    case UNBIND => if k < 3 then UNLOCK else UNBIND
    case UNLINK => if k < 4 then UNLOCK else UNLINK
    case _ => m
  }

  /** The next letter either is that of the method so far, or makes the parser change its mind. */
  predicate Follows(m: Method, k: nat, ch: byte) {
    var v, w := Stem(m, k), Stem(m, k + 1);
    if v == w then ch == CharAt(MethodString(v), k)
    else ch != CharAt(MethodString(v), k) && ch != '\0' && ch != ' '
         && (if IsAlpha(ch) then SwitchMethod(v, k, ch) == (w, true)
             else ch == '-' && k == 1 && v == MKCOL && w == MSEARCH)
  }

  lemma StemFollows(m: Method, k: nat)
    requires 1 <= k < |MethodString(m)|
    ensures Follows(m, k, MethodString(m)[k])
  {
    if Stem(m, k) != m {
      StemShort(m, k);
      if k == 1 {
        StemFirst(m);
      } else {
        StemLater(m, k);
      }
    }
  }

  lemma StemShort(m: Method, k: nat)
    requires 1 <= k && Stem(m, k) != m
    ensures k <= 4 && (k > 1 ==> m == PROPPATCH || m == COPY || m == PURGE || m == MKACTIVITY || m == MKCALENDAR
                                 || m == REBIND || m == UNSUBSCRIBE || m == UNBIND || m == UNLINK)
  {
  }

  lemma StemFirst(m: Method)
    requires Stem(m, 1) != m
    ensures Follows(m, 1, MethodString(m)[1])
  {
  }

  lemma StemLater(m: Method, k: nat)
    requires 2 <= k <= 4 && k < |MethodString(m)| && Stem(m, k) != m
    requires m == PROPPATCH || m == COPY || m == PURGE || m == MKACTIVITY || m == MKCALENDAR
             || m == REBIND || m == UNSUBSCRIBE || m == UNBIND || m == UNLINK
    ensures Follows(m, k, MethodString(m)[k])
  {
  }

  /** The letters of a method are letters, but for one hyphen. */
  lemma MethodLetter(m: Method, k: nat)
    requires k < |MethodString(m)|
    ensures 'A' <= MethodString(m)[k] <= 'Z' || MethodString(m)[k] == '-'
  {
  }

  lemma MethodEnds(m: Method)
    ensures 3 <= |MethodString(m)| < 127 && Stem(m, |MethodString(m)|) == m
    ensures StartMethod(MethodString(m)[0]) == (Stem(m, 1), true)
  {
  }

  /** In a method, after `k` of its letters. */
  function InMethod(s: Parser, m: Method, k: nat): Parser {
    s.(flags := NO_FLAGS, contentLength := ULLONG_MAX, verb := Stem(m, k), index := k, state := ReqMethod)
  }

  lemma FirstLetterStep(hc: Parser -> HeadersAnswer, s: Parser, m: Method)
    requires s.state.StartReq?
    ensures var s1 := InMethod(s, m, 1);
            Step(hc, s, MethodString(m)[0], false) == StepResult(s1, [Notify(OnMessageBegin, s1)], Go)
  {
    MethodEnds(m);
    StartsAlpha(MethodString(m)[0]);
    hide MethodString, StartMethod, Stem, IsAlpha;
  }

  lemma StartsAlpha(ch: byte)
    requires StartMethod(ch).1
    ensures IsAlpha(ch) && ch != CR && ch != LF
  {
  }

  lemma LetterStep(hc: Parser -> HeadersAnswer, s: Parser, m: Method, k: nat)
    requires 1 <= k < |MethodString(m)|
    ensures Step(hc, InMethod(s, m, k), MethodString(m)[k], false) == StepResult(InMethod(s, m, k + 1), [], Go)
  {
    MethodEnds(m);
    MethodLetter(m, k);
    StemFollows(m, k);
    hide MethodString, SwitchMethod, Stem, IsAlpha;
  }

  lemma {:induction false} LettersRead(hc: Parser -> HeadersAnswer, s: Parser, t: seq<Event>, m: Method, k: nat)
    requires s.state.StartReq? && 1 <= k <= |MethodString(m)|
    ensures Leads(hc, Conn(s, t, false), MethodString(m)[..k],
                  Conn(InMethod(s, m, k), Emit(t, Notify(OnMessageBegin, InMethod(s, m, 1))), false))
    decreases k
  {
    hide Leads, Emit, Step, MethodString, Stem;
    var w := MethodString(m);
    var s1 := InMethod(s, m, 1);
    var t1 := Emit(t, Notify(OnMessageBegin, s1));
    if k == 1 {
      FirstLetterStep(hc, s, m);
      assert w[..1] == [w[0]];
      LoudByte(hc, s, t, false, w[0], s1, Notify(OnMessageBegin, s1));
    } else {
      LettersRead(hc, s, t, m, k - 1);
      LetterStep(hc, s, m, k - 1);
      QuietByte(hc, InMethod(s, m, k - 1), t1, false, w[k - 1], InMethod(s, m, k));
      assert w[..k - 1] + [w[k - 1]] == w[..k];
      LeadsOn(hc, Conn(s, t, false), w[..k - 1], Conn(InMethod(s, m, k - 1), t1, false), [w[k - 1]],
              Conn(InMethod(s, m, k), t1, false));
    }
  }

  lemma BlankStep(hc: Parser -> HeadersAnswer, s: Parser, m: Method)
    ensures var n := |MethodString(m)|;
            Step(hc, InMethod(s, m, n), ' ', false)
            == StepResult(InMethod(s, m, n).(index := n + 1, state := ReqSpacesBeforeUrl), [], Go)
  {
    MethodEnds(m);
    hide MethodString, Stem;
  }

  /** After the method and the blank behind it. */
  function AfterMethod(s: Parser, m: Method): Parser {
    s.(flags := NO_FLAGS, contentLength := ULLONG_MAX, verb := m, index := |MethodString(m)| + 1,
       state := ReqSpacesBeforeUrl)
  }

  /** Every method is recognised, whatever the parser takes it for at first. */
  lemma MethodRead(hc: Parser -> HeadersAnswer, s: Parser, t: seq<Event>, m: Method)
    requires s.state.StartReq?
    ensures Leads(hc, Conn(s, t, false), MethodString(m) + " ",
                  Conn(AfterMethod(s, m), Emit(t, Notify(OnMessageBegin, InMethod(s, m, 1))), false))
  {
    MethodEnds(m);
    hide Leads, Emit, Step, MethodString, Stem;
    var w := MethodString(m);
    var t1 := Emit(t, Notify(OnMessageBegin, InMethod(s, m, 1)));
    LettersRead(hc, s, t, m, |w|);
    assert w[..|w|] == w;
    BlankStep(hc, s, m);
    QuietByte(hc, InMethod(s, m, |w|), t1, false, ' ', AfterMethod(s, m));
    LeadsOn(hc, Conn(s, t, false), w, Conn(InMethod(s, m, |w|), t1, false), " ", Conn(AfterMethod(s, m), t1, false));
  }

  // ---------------------------------------------------------------- and no other methods

  /** A method that takes over begins as the one before it. */
  lemma SwitchGoesOn(m: Method, k: nat, ch: byte)
    requires k <= |MethodString(m)| && SwitchMethod(m, k, ch).1
    ensures var n := MethodString(SwitchMethod(m, k, ch).0);
            k < |n| && n[k] == ch && n[..k] == MethodString(m)[..k]
  {
    if k == 1 {
      SwitchAtOne(m, ch);
    } else {
      SwitchLater(m, k, ch);
    }
  }

  lemma SwitchAtOne(m: Method, ch: byte)
    requires SwitchMethod(m, 1, ch).1
    ensures var n := MethodString(SwitchMethod(m, 1, ch).0); 1 < |n| && n[1] == ch && n[0] == MethodString(m)[0]
  {
  }

  lemma SwitchLater(m: Method, k: nat, ch: byte)
    requires 1 != k <= |MethodString(m)| && SwitchMethod(m, k, ch).1
    ensures var n := MethodString(SwitchMethod(m, k, ch).0);
            k < |n| && n[k] == ch && n[..k] == MethodString(m)[..k]
  {
    hide MethodString;
    var n := SwitchMethod(m, k, ch).0;
    SwitchPairs(m, k, ch);
    SameBeginning(m, n, k);
  }

  /** The pairs of methods that part behind their first letter. */
  predicate PartLater(m: Method, n: Method, k: nat) {
    || (m == CONNECT && n == COPY && k == 2) || (m == MKCOL && n == MKACTIVITY && k == 2)
    || (m == MKCOL && n == MKCALENDAR && k == 3) || (m == REPORT && n == REBIND && k == 2)
    || (m == PROPFIND && n == PROPPATCH && k == 4) || (m == PUT && n == PURGE && k == 2)
    || (m == UNLOCK && n == UNSUBSCRIBE && k == 2) || (m == UNLOCK && n == UNBIND && k == 2)
    || (m == UNLOCK && n == UNLINK && k == 3)
  }

  lemma SwitchPairs(m: Method, k: nat, ch: byte)
    requires 1 != k && SwitchMethod(m, k, ch).1
    ensures var n := SwitchMethod(m, k, ch).0; PartLater(m, n, k) && k < |MethodString(n)| && MethodString(n)[k] == ch
  {
  }

  lemma SameBeginning(m: Method, n: Method, k: nat)
    requires PartLater(m, n, k)
    ensures k <= |MethodString(m)| && k <= |MethodString(n)|
    ensures forall j :: 0 <= j < k ==> MethodString(n)[j] == MethodString(m)[j]
  {
  }

  /** In a method, all letters so far are those of its name. */
  predicate Named(s: Parser, w: bytes) {
    s.state.ReqMethod? && s.index == |w| && w <= MethodString(s.verb)
  }

  lemma NamedStart(hc: Parser -> HeadersAnswer, s: Parser, ch: byte)
    requires s.state.StartReq? && ch != CR && ch != LF
    ensures var r := Step(hc, s, ch, false);
            if r.out.Go? then Named(r.s, [ch]) else r.out.Fail? && r.s.errno == InvalidMethod
  {
    hide StatusLineByte, RequestLineByte, UrlByte, ChunkByte;
    var (m, known) := StartMethod(ch);
    assert known ==> MethodString(m)[0] == ch;
    assert [ch] <= MethodString(m) <==> MethodString(m)[0] == ch;
  }

  lemma NamedStep(hc: Parser -> HeadersAnswer, s: Parser, w: bytes, ch: byte)
    requires Named(s, w) && w != [] && ch != ' '
    ensures var r := Step(hc, s, ch, false);
            if r.out.Go? then Named(r.s, w + [ch]) else r.out.Fail? && r.s.errno == InvalidMethod
  {
    hide StatusLineByte, UrlByte, ChunkByte, SwitchMethod, MethodString, IsAlpha;
    var m := MethodString(s.verb);
    MethodLength(s.verb);
    assert w == m[..|w|];
    if SwitchMethod(s.verb, s.index, ch).1 {
      SwitchGoesOn(s.verb, s.index, ch);
      var n := MethodString(SwitchMethod(s.verb, s.index, ch).0);
      assert w + [ch] == n[..|w| + 1];
    }
    if |w| < |m| && ch == m[|w|] {
      assert w + [ch] == m[..|w| + 1];
    }
    SearchNamed(s.verb, s.index, w);
  }

  lemma SearchNamed(m: Method, k: nat, w: bytes)
    requires w <= MethodString(m) && |w| == k
    ensures m == MKCOL && k == 1 ==> w + ['-'] <= MethodString(MSEARCH)
  {
    if m == MKCOL && k == 1 {
      assert w == ['M'];
    }
  }

  /** Letters that are taken are the beginning of a method's name. */
  lemma {:induction false} NamedRead(hc: Parser -> HeadersAnswer, s: Parser, t: seq<Event>, w: bytes)
    requires s.state.StartReq? && w != [] && w[0] != CR && w[0] != LF && ' ' !in w
    ensures var r := Bytewise(hc, Conn(s, t, false), w, 0);
            if r.out.Go? then r.n == |w| && Named(r.c.s, w) else RefusedFor(r, InvalidMethod)
    decreases |w|
  {
    hide Bytewise, SkipsBadByte, Step, EmitAll, Named;
    var n, c := |w| - 1, Conn(s, t, false);
    var init, ch := w[..n], w[n];
    assert w == init + [ch];
    if n == 0 {
      assert w == [ch];
      NamedStart(hc, s, ch);
      OneByte(hc, c, ch);
    } else {
      NamedRead(hc, s, t, init);
      var r := Bytewise(hc, c, init, 0);
      BytewiseConcat(hc, c, init, [ch], 0);
      if r.out.Go? {
        BytewiseShift(hc, r.c, init, [ch], 0);
        NamedStep(hc, r.c.s, init, ch);
        OneByte(hc, r.c, ch);
      }
    }
  }

  lemma NameOver(hc: Parser -> HeadersAnswer, s: Parser, w: bytes)
    requires Named(s, w)
    ensures var r := Step(hc, s, ' ', false);
            if w == MethodString(s.verb) then r.out.Go? && r.s.state.ReqSpacesBeforeUrl? && r.s.verb == s.verb
            else r.out.Fail? && r.s.errno == InvalidMethod
  {
    hide StatusLineByte, UrlByte, ChunkByte;
    NoBlanks(s.verb, s.index);
    hide MethodString, SwitchMethod;
    assert w == MethodString(s.verb)[..|w|];
  }

  lemma NoBlanks(m: Method, k: nat)
    ensures CharAt(MethodString(m), k) != ' ' && (k < |MethodString(m)| ==> CharAt(MethodString(m), k) != '\0')
  {
    if |MethodString(m)| < 7 {
      ShortNames(m);
    } else {
      LongNames(m);
    }
    hide MethodString;
  }

  /** A character of a method's name: a letter, or the dash. */
  predicate IsNameChar(c: byte) {
    'A' <= c <= 'Z' || c == '-'
  }

  lemma ShortNames(m: Method)
    requires |MethodString(m)| < 7
    ensures forall j :: 0 <= j < |MethodString(m)| ==> IsNameChar(MethodString(m)[j])
  {
  }

  lemma LongNames(m: Method)
    requires |MethodString(m)| >= 7
    ensures forall j :: 0 <= j < |MethodString(m)| ==> IsNameChar(MethodString(m)[j])
  {
  }

  /** A request begins with one of the methods and a blank, or it is refused. */
  lemma MethodsExact(hc: Parser -> HeadersAnswer, s: Parser, t: seq<Event>, w: bytes)
    requires s.state.StartReq? && w != [] && w[0] != CR && w[0] != LF && ' ' !in w
    ensures var r := Bytewise(hc, Conn(s, t, false), w + [' '], 0);
            && (r.out.Go? <==> exists m: Method :: w == MethodString(m))
            && (r.out.Go? ==> r.c.s.state.ReqSpacesBeforeUrl? && w == MethodString(r.c.s.verb))
            && (!r.out.Go? ==> RefusedFor(r, InvalidMethod))
  {
    hide Bytewise, SkipsBadByte, Step, EmitAll, Named, MethodString;
    var c := Conn(s, t, false);
    NamedRead(hc, s, t, w);
    var r := Bytewise(hc, c, w, 0);
    BytewiseConcat(hc, c, w, [' '], 0);
    if r.out.Go? {
      BytewiseShift(hc, r.c, w, [' '], 0);
      NameOver(hc, r.c.s, w);
      OneByte(hc, r.c, ' ');
    }
    if m: Method :| w == MethodString(m) {
      MethodRead(hc, s, t, m);
      assert w + [' '] == w + " ";
    }
  }

  // ---------------------------------------------------------------- URLs

  /** The state after the characters of a URL. */
  function UrlState(st: State, u: bytes): State
    decreases |u|
  {
    if u == [] then st else ParseUrlChar(UrlState(st, u[..|u| - 1]), u[|u| - 1])
  }

  function UrlStart(m: Method): State {
    if m == CONNECT then ReqServerStart else ReqSpacesBeforeUrl
  }

  /** A URL that the parser accepts: it may end where it does. */
  predicate IsUrl(u: bytes, m: Method) {
    && u != []
    && var st := UrlState(UrlStart(m), u);
       InUrl(st) && !st.ReqSchema? && !st.ReqSchemaSlash? && !st.ReqSchemaSlashSlash? && !st.ReqServerStart?
  }

  lemma UrlStep(hc: Parser -> HeadersAnswer, s: Parser, ch: byte)
    requires InUrl(s.state) && !ParseUrlChar(s.state, ch).Dead?
    ensures Step(hc, s, ch, false) == StepResult(s.(state := ParseUrlChar(s.state, ch)), [Data(OnUrl, [ch])], Go)
  {
    hide StatusLineByte, RequestLineByte, ChunkByte;
  }

  lemma UrlFirstStep(hc: Parser -> HeadersAnswer, s: Parser, ch: byte)
    requires s.state.ReqSpacesBeforeUrl? && !ParseUrlChar(UrlStart(s.verb), ch).Dead?
    ensures Step(hc, s, ch, false)
         == StepResult(s.(state := ParseUrlChar(UrlStart(s.verb), ch)), [Data(OnUrl, [ch])], Go)
  {
  }

  /** A character that is refused is never made good. */
  lemma {:induction false} DeadBefore(st: State, u: bytes)
    requires u != [] && !UrlState(st, u).Dead?
    ensures |u| > 1 ==> InUrl(UrlState(st, u[..|u| - 1])) || (UrlState(st, u[..|u| - 1]) == ReqSpacesBeforeUrl)
    decreases |u|
  {
    if |u| > 1 {
      UrlStates(UrlState(st, u[..|u| - 2]), u[|u| - 2]);
      assert u[..|u| - 1][..|u| - 2] == u[..|u| - 2];
    }
  }

  lemma {:induction false} UrlRead(hc: Parser -> HeadersAnswer, s: Parser, t: seq<Event>, u: bytes)
    requires s.state.ReqSpacesBeforeUrl? && u != [] && InUrl(UrlState(UrlStart(s.verb), u))
    ensures Leads(hc, Conn(s, t, false), u,
                  Conn(s.(state := UrlState(UrlStart(s.verb), u)), Emit(t, Data(OnUrl, u)), false))
    decreases |u|
  {
    hide Leads, Emit, Step, ParseUrlChar;
    var st := UrlStart(s.verb);
    var n := |u| - 1;
    var init, ch := u[..n], u[n];
    assert u == init + [ch];
    DeadBefore(st, u);
    if n == 0 {
      assert u == [ch] && UrlState(st, init) == st;
      UrlFirstStep(hc, s, ch);
      LoudByte(hc, s, t, false, ch, s.(state := UrlState(st, u)), Data(OnUrl, [ch]));
    } else {
      NoReturn(st, init);
      UrlRead(hc, s, t, init);
      var s1, t1 := s.(state := UrlState(st, init)), Emit(t, Data(OnUrl, init));
      UrlStep(hc, s1, ch);
      LoudByte(hc, s1, t1, false, ch, s.(state := UrlState(st, u)), Data(OnUrl, [ch]));
      EmitJoins(t, OnUrl, init, [ch]);
      LeadsOn(hc, Conn(s, t, false), init, Conn(s1, t1, false), [ch],
              Conn(s.(state := UrlState(st, u)), Emit(t, Data(OnUrl, u)), false));
    }
  }

  lemma NoReturn(st: State, u: bytes)
    requires u != []
    ensures UrlState(st, u).Dead? || InUrl(UrlState(st, u))
  {
    UrlStates(UrlState(st, u[..|u| - 1]), u[|u| - 1]);
  }

  /** A path of visible characters is a URL for every method but CONNECT. */
  lemma {:induction false} PathIsUrl(u: bytes, m: Method)
    requires u != [] && u[0] == '/' && m != CONNECT && forall k :: 0 <= k < |u| ==> IsUrlChar(u[k])
    ensures IsUrl(u, m) && UrlState(ReqSpacesBeforeUrl, u) == ReqPath
    decreases |u|
  {
    if |u| == 1 {
      assert UrlState(ReqSpacesBeforeUrl, u[..0]) == ReqSpacesBeforeUrl;
    } else {
      PathIsUrl(u[..|u| - 1], m);
    }
  }

  lemma UrlEndStep(hc: Parser -> HeadersAnswer, s: Parser)
    requires InUrl(s.state) && !s.state.ReqSchema? && !s.state.ReqSchemaSlash?
    requires !s.state.ReqSchemaSlashSlash? && !s.state.ReqServerStart?
    ensures Step(hc, s, ' ', false) == StepResult(s.(state := ReqHttpStart), [Data(OnUrl, [])], Go)
  {
    hide StatusLineByte, RequestLineByte, ChunkByte;
  }

  /** The URL is reported as it stands. */
  lemma UrlBlankRead(hc: Parser -> HeadersAnswer, s: Parser, t: seq<Event>, u: bytes)
    requires s.state.ReqSpacesBeforeUrl? && IsUrl(u, s.verb)
    ensures Leads(hc, Conn(s, t, false), u + " ", Conn(s.(state := ReqHttpStart), Emit(t, Data(OnUrl, u)), false))
  {
    hide Leads, Emit, Step, UrlState;
    UrlRead(hc, s, t, u);
    var s1, t1 := s.(state := UrlState(UrlStart(s.verb), u)), Emit(t, Data(OnUrl, u));
    UrlEndStep(hc, s1);
    LoudByte(hc, s1, t1, false, ' ', s.(state := ReqHttpStart), Data(OnUrl, []));
    EmitJoins(t, OnUrl, u, []);
    assert u + [] == u;
    LeadsOn(hc, Conn(s, t, false), u, Conn(s1, t1, false), " ", Conn(s.(state := ReqHttpStart), t1, false));
  }

  // ---------------------------------------------------------------- the version

  function VersionText(major: nat, minor: nat): bytes {
    HTTP_SLASH + Dec(major) + "." + Dec(minor) + CRLF
  }

  /** The version, to the end of the line. */
  lemma VersionRead(hc: Parser -> HeadersAnswer, s: Parser, t: seq<Event>, major: nat, minor: nat)
    requires s.state.ReqHttpStart? && 0 < major <= 999 && minor <= 999
    ensures Leads(hc, Conn(s, t, false), VersionText(major, minor),
                  Conn(s.(major := major, minor := minor, state := HeaderFieldStart), t, false))
  {
    hide Leads, Step, Dec;
    var c := Conn(s, t, false);
    var s1 := s.(state := ReqFirstHttpMajor);
    var s2 := Reading(s1, ReqMajor, major);
    var s3 := s2.(state := ReqFirstHttpMinor);
    var s4 := Reading(s3, ReqMinor, minor);
    var s6 := s4.(state := HeaderFieldStart);
    RequestMarks(hc, s, t);
    NumberRead(hc, s1, t, ReqMajor, major);
    LeadsOn(hc, c, HTTP_SLASH, Conn(s1, t, false), Dec(major), Conn(s2, t, false));
    Punctuation(hc, s2, t, '.', ReqFirstHttpMinor);
    LeadsOn(hc, c, HTTP_SLASH + Dec(major), Conn(s2, t, false), ".", Conn(s3, t, false));
    NumberRead(hc, s3, t, ReqMinor, minor);
    LeadsOn(hc, c, HTTP_SLASH + Dec(major) + ".", Conn(s3, t, false), Dec(minor), Conn(s4, t, false));
    RequestMarks(hc, s4, t);
    LeadsOn(hc, c, HTTP_SLASH + Dec(major) + "." + Dec(minor), Conn(s4, t, false), CRLF, Conn(s6, t, false));
  }

  // ---------------------------------------------------------------- the line

  datatype RequestLine = RequestLine(verb: Method, url: bytes, major: nat, minor: nat)

  predicate LineOk(r: RequestLine) {
    IsUrl(r.url, r.verb) && 0 < r.major <= 999 && r.minor <= 999
  }

  function LineText(r: RequestLine): bytes {
    MethodString(r.verb) + " " + (r.url + " ") + VersionText(r.major, r.minor)
  }

  function LineEvents(s: Parser, r: RequestLine): seq<Event> {
    [Notify(OnMessageBegin, InMethod(s, r.verb, 1)), Data(OnUrl, r.url)]
  }

  function AfterRequestLine(s: Parser, r: RequestLine): Parser {
    s.(flags := NO_FLAGS, contentLength := ULLONG_MAX, verb := r.verb, index := |MethodString(r.verb)| + 1,
       major := r.major, minor := r.minor, state := HeaderFieldStart)
  }

  /** Every request line is read for what it says. */
  lemma RequestLineRead(hc: Parser -> HeadersAnswer, s: Parser, t: seq<Event>, r: RequestLine)
    requires s.state.StartReq? && LineOk(r)
    ensures Leads(hc, Conn(s, t, false), LineText(r), Conn(AfterRequestLine(s, r), EmitAll(t, LineEvents(s, r)), false))
  {
    hide Leads, Step, Emit, EmitAll, MethodString, VersionText, IsUrl;
    var begin := Notify(OnMessageBegin, InMethod(s, r.verb, 1));
    var t1 := Emit(t, begin);
    var t2 := Emit(t1, Data(OnUrl, r.url));
    var s1 := AfterMethod(s, r.verb);
    var s2 := s1.(state := ReqHttpStart);
    MethodRead(hc, s, t, r.verb);
    UrlBlankRead(hc, s1, t1, r.url);
    VersionRead(hc, s2, t2, r.major, r.minor);
    LeadsOn(hc, Conn(s, t, false), MethodString(r.verb) + " ", Conn(s1, t1, false), r.url + " ", Conn(s2, t2, false));
    LeadsOn(hc, Conn(s, t, false), MethodString(r.verb) + " " + (r.url + " "), Conn(s2, t2, false),
            VersionText(r.major, r.minor), Conn(AfterRequestLine(s, r), t2, false));
    EmitTwo(t, begin, Data(OnUrl, r.url));
  }
}
