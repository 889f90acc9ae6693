/** Which URLs are accepted: a grammar of their pieces. */
module HttpUrl {
  import opened Bytes
  import opened HttpTypes
  import opened HttpStep
  import opened HttpRun
  import opened HttpSplit
  import opened HttpPieces
  import opened HttpRequestLine

  // ---------------------------------------------------------------- the grammar

  /** The pieces of a URL, without the marks between them. */
  datatype Url = Url(scheme: Option<bytes>, authority: Option<bytes>, path: bytes, query: Option<bytes>,
                     fragment: Option<bytes>)

  predicate Letter(c: byte) {
    'a' <= c <= 'z' || 'A' <= c <= 'Z'
  }

  predicate AuthorityChar(c: byte) {
    Letter(c) || '0' <= c <= '9' || c in "-_.!~*'()%;:&=+$,[]@"
  }

  /** A visible character that begins neither a query nor a fragment. */
  predicate PathChar(c: byte) {
    '!' <= c <= '~' && c != '?' && c != '#'
  }

  predicate IsScheme(w: bytes) {
    w != [] && forall k :: 0 <= k < |w| ==> Letter(w[k])
  }

  /** No two `@` stand side by side. */
  predicate IsAuthority(w: bytes) {
    && (forall k :: 0 <= k < |w| ==> AuthorityChar(w[k]))
    && (forall k :: 0 < k < |w| ==> !(w[k - 1] == '@' && w[k] == '@'))
  }

  predicate IsPath(w: bytes) {
    forall k :: 0 <= k < |w| ==> PathChar(w[k])
  }

  predicate IsQuery(w: bytes) {
    forall k :: 0 <= k < |w| ==> PathChar(w[k]) || w[k] == '?'
  }

  predicate IsFragment(w: bytes) {
    forall k :: 0 <= k < |w| ==> PathChar(w[k]) || w[k] == '?' || w[k] == '#'
  }

  /** The pieces are well-formed, and stand where they may. */
  predicate PiecesOk(p: Url, connect: bool) {
    && (p.scheme.Some? ==> IsScheme(p.scheme.value)) && (p.authority.Some? ==> IsAuthority(p.authority.value))
    && IsPath(p.path) && (p.query.Some? ==> IsQuery(p.query.value))
    && (p.fragment.Some? ==> IsFragment(p.fragment.value) && (p.path != [] || p.query.Some?))
    && (if connect then p.scheme.None? && p.authority.Some? else p.scheme.Some? == p.authority.Some?)
    && (if p.authority.Some? then p.path != [] ==> p.path[0] == '/'
        else p.path != [] && (p.path[0] == '/' || p.path[0] == '*'))
  }

  /** An authority without characters, and nothing behind it. */
  predicate Empty(p: Url) {
    p.authority == Some([]) && p.path == [] && p.query.None?
  }

  predicate UrlOk(p: Url, connect: bool) {
    PiecesOk(p, connect) && !Empty(p)
  }

  function Opt(mark: bytes, w: Option<bytes>): bytes {
    match w case None => [] case Some(v) => mark + v
  }

  function SchemeText(p: Url): bytes {
    match p.scheme case None => [] case Some(v) => v + "://"
  }

  function UrlText(p: Url): bytes {
    SchemeText(p) + Opt([], p.authority) + p.path + Opt("?", p.query) + Opt("#", p.fragment)
  }

  // ---------------------------------------------------------------- what has been read, and the state

  function Start(connect: bool): State {
    if connect then ReqServerStart else ReqSpacesBeforeUrl
  }

  /** The state after the pieces. */
  predicate At(p: Url, st: State) {
    if p.fragment.Some? then st.ReqFragmentStart? || st.ReqFragment?
    else if p.query.Some? then st.ReqQueryStringStart? || st.ReqQueryString?
    else if p.path != [] then st.ReqPath?
    else if p.authority.None? then false
    else if p.authority.value == [] then st.ReqServerStart?
    else if p.authority.value[|p.authority.value| - 1] == '@' then st.ReqServerWithAt?
    else st.ReqServer?
  }

  lemma Classes(c: byte)
    ensures IsAlpha(c) <==> Letter(c)
    ensures IsUserinfoChar(c) || c == '[' || c == ']' <==> AuthorityChar(c) && c != '@'
    ensures IsUrlChar(c) <==> PathChar(c)
  {
  }

  /** With one more character the pieces are longer, or a new one begins. */
  function Longer(p: Url, c: byte): Url {
    if p.fragment.Some? then p.(fragment := Some(p.fragment.value + [c]))
    else if c == '#' then p.(fragment := Some([]))
    else if p.query.Some? then p.(query := Some(p.query.value + [c]))
    else if c == '?' then p.(query := Some([]))
    else if p.path != [] || c == '/' || p.authority.None? then p.(path := p.path + [c])
    else p.(authority := Some(p.authority.value + [c]))
  }

  lemma LongerText(p: Url, c: byte)
    ensures UrlText(Longer(p, c)) == UrlText(p) + [c]
  {
    if p.fragment.Some? || c == '#' || p.query.Some? || c == '?' {
      LongerTail(p, c);
    } else {
      LongerHead(p, c);
    }
  }

  lemma LongerTail(p: Url, c: byte)
    requires p.fragment.Some? || c == '#' || p.query.Some? || c == '?'
    ensures UrlText(Longer(p, c)) == UrlText(p) + [c]
  {
    var w := SchemeText(p) + Opt([], p.authority) + p.path;
    hide SchemeText;
    SameScheme(p, Longer(p, c));
    assert "#" + [] == "#" && "?" + [] == "?";
    if p.fragment.Some? {
      assert "#" + (p.fragment.value + [c]) == "#" + p.fragment.value + [c];
      Append(w + Opt("?", p.query), "#" + p.fragment.value, c);
    } else if c == '#' {
      Append(w + Opt("?", p.query), [], c);
    } else if p.query.Some? {
      assert "?" + (p.query.value + [c]) == "?" + p.query.value + [c];
      Append(w, "?" + p.query.value, c);
    } else {
      Append(w, [], c);
    }
  }

  lemma SameScheme(p: Url, q: Url)
    requires p.scheme == q.scheme
    ensures SchemeText(p) == SchemeText(q)
  {
  }

  lemma LongerHead(p: Url, c: byte)
    requires p.fragment.None? && p.query.None? && c != '#' && c != '?'
    ensures UrlText(Longer(p, c)) == UrlText(p) + [c]
  {
    var a, s := Opt([], p.authority), SchemeText(p);
    if p.path != [] || c == '/' || p.authority.None? {
      Append(s + a, p.path, c);
    } else {
      assert [] + p.authority.value == p.authority.value && [] + (p.authority.value + [c]) == p.authority.value + [c];
      Append(s, p.authority.value, c);
    }
  }

  lemma Append(a: bytes, b: bytes, c: byte)
    ensures a + (b + [c]) == a + b + [c] && a + [] == a && b + [] == b
  {
  }

  /** They go on as the state does. */
  lemma OneMore(p: Url, connect: bool, st: State, c: byte)
    requires PiecesOk(p, connect) && At(p, st) && !ParseUrlChar(st, c).Dead?
    ensures PiecesOk(Longer(p, c), connect) && At(Longer(p, c), ParseUrlChar(st, c))
  {
    Classes(c);
    hide IsAlpha, IsUserinfoChar, IsUrlChar, Letter;
    if p.fragment.Some? || p.query.Some? || p.path != [] {
      MoreTail(p, connect, st, c);
    } else {
      MoreHead(p, connect, st, c);
    }
  }

  lemma MoreTail(p: Url, connect: bool, st: State, c: byte)
    requires PiecesOk(p, connect) && At(p, st) && !ParseUrlChar(st, c).Dead?
    requires p.fragment.Some? || p.query.Some? || p.path != []
    ensures PiecesOk(Longer(p, c), connect) && At(Longer(p, c), ParseUrlChar(st, c))
  {
    Classes(c);
    Marks();
    hide IsAlpha, IsUserinfoChar, IsUrlChar, AuthorityChar, PathChar, IsAuthority, IsScheme;
  }

  lemma MoreHead(p: Url, connect: bool, st: State, c: byte)
    requires PiecesOk(p, connect) && At(p, st) && !ParseUrlChar(st, c).Dead?
    requires p.fragment.None? && p.query.None? && p.path == []
    ensures PiecesOk(Longer(p, c), connect) && At(Longer(p, c), ParseUrlChar(st, c))
  {
    Classes(c);
    Marks();
    hide IsAlpha, IsUserinfoChar, IsUrlChar, AuthorityChar, PathChar, IsScheme, IsAuthority;
    var w := p.authority.value;
    MoreAuthority(w, c);
  }

  lemma Marks()
    ensures PathChar('/') && !PathChar('?') && !PathChar('#')
    ensures !AuthorityChar('/') && !AuthorityChar('?') && !AuthorityChar('#') && AuthorityChar('@')
  {
  }

  lemma MoreAuthority(w: bytes, c: byte)
    requires IsAuthority(w)
    ensures IsAuthority(w + [c]) <==> AuthorityChar(c) && !(c == '@' && w != [] && w[|w| - 1] == '@')
    ensures AuthorityChar('@')
  {
    hide Letter;
    assert forall k :: 0 <= k < |w| ==> (w + [c])[k] == w[k];
    assert (w + [c])[|w|] == c;
  }

  /** The beginning of a URL that has no pieces yet. */
  ghost predicate Opening(u: bytes, st: State) {
    match st
    case ReqSpacesBeforeUrl => u == []
    case ReqSchema => IsScheme(u)
    case ReqSchemaSlash => exists w: bytes :: IsScheme(w) && u == w + ":"
    case ReqSchemaSlashSlash => exists w: bytes :: IsScheme(w) && u == w + ":/"
    case _ => false
  }

  /** What a text is made of, if it is not refused. */
  lemma {:induction false} Split(connect: bool, u: bytes) returns (p: Option<Url>)
    requires !UrlState(Start(connect), u).Dead?
    ensures var st := UrlState(Start(connect), u);
            match p
            case None => !connect && Opening(u, st)
            case Some(q) => PiecesOk(q, connect) && At(q, st) && UrlText(q) == u
    decreases |u|
  {
    if u == [] {
      p := if connect then Some(Url(None, Some([]), [], None, None)) else None;
      return;
    }
    var n := |u| - 1;
    var init, c := u[..n], u[n];
    var st := UrlState(Start(connect), init);
    assert u == init + [c];
    NotDead(st, c);
    var before := Split(connect, init);
    if before.Some? {
      OneMore(before.value, connect, st, c);
      LongerText(before.value, c);
      p := Some(Longer(before.value, c));
    } else {
      p := Begins(init, st, c);
    }
  }

  lemma NotDead(st: State, c: byte)
    requires !ParseUrlChar(st, c).Dead?
    ensures !st.Dead?
  {
  }

  lemma BeginsScheme(u: bytes, c: byte)
    requires IsScheme(u) && !ParseUrlChar(ReqSchema, c).Dead?
    ensures Opening(u + [c], ParseUrlChar(ReqSchema, c))
  {
    Classes(c);
  }

  lemma BeginsSlash(u: bytes, c: byte)
    requires Opening(u, ReqSchemaSlash) && !ParseUrlChar(ReqSchemaSlash, c).Dead?
    ensures Opening(u + [c], ParseUrlChar(ReqSchemaSlash, c))
  {
    hide IsScheme;
    var w: bytes :| IsScheme(w) && u == w + ":";
    assert u + [c] == w + ":/";
  }

  lemma BeginsServer(u: bytes, c: byte) returns (q: Url)
    requires Opening(u, ReqSchemaSlashSlash) && !ParseUrlChar(ReqSchemaSlashSlash, c).Dead?
    ensures PiecesOk(q, false) && At(q, ParseUrlChar(ReqSchemaSlashSlash, c)) && UrlText(q) == u + [c]
  {
    hide IsScheme;
    var w: bytes :| IsScheme(w) && u == w + ":/";
    q := Url(Some(w), Some([]), [], None, None);
    assert UrlText(q) == w + "://" == u + [c];
  }

  lemma BeginsText(c: byte) returns (p: Option<Url>)
    requires !ParseUrlChar(ReqSpacesBeforeUrl, c).Dead?
    ensures match p
            case None => Opening([c], ParseUrlChar(ReqSpacesBeforeUrl, c))
            case Some(q) => PiecesOk(q, false) && At(q, ParseUrlChar(ReqSpacesBeforeUrl, c)) && UrlText(q) == [c]
  {
    Classes(c);
    hide IsAlpha, Letter;
    p := if c == '/' || c == '*' then Some(Url(None, None, [c], None, None)) else None;
  }

  lemma Begins(u: bytes, st: State, c: byte) returns (p: Option<Url>)
    requires Opening(u, st) && !ParseUrlChar(st, c).Dead?
    ensures match p
            case None => Opening(u + [c], ParseUrlChar(st, c))
            case Some(q) => PiecesOk(q, false) && At(q, ParseUrlChar(st, c)) && UrlText(q) == u + [c]
  {
    OpeningStates(u, st);
    hide *;
    p := None;
    match st
    case ReqSpacesBeforeUrl =>
      assert u + [c] == [c];
      p := BeginsText(c);
    case ReqSchema => BeginsScheme(u, c);
    case ReqSchemaSlash => BeginsSlash(u, c);
    case ReqSchemaSlashSlash =>
      var q := BeginsServer(u, c);
      p := Some(q);
  }

  lemma OpeningStates(u: bytes, st: State)
    requires Opening(u, st)
    ensures st.ReqSpacesBeforeUrl? || st.ReqSchema? || st.ReqSchemaSlash? || st.ReqSchemaSlashSlash?
    ensures st.ReqSpacesBeforeUrl? ==> u == []
    ensures st.ReqSchema? ==> IsScheme(u)
  {
  }

  // ---------------------------------------------------------------- pieces are read

  lemma {:induction false} StateConcat(st: State, a: bytes, b: bytes)
    ensures UrlState(st, a + b) == UrlState(UrlState(st, a), b)
    decreases |b|
  {
    hide ParseUrlChar;
    if b == [] {
      assert a + b == a;
    } else {
      var n := |b| - 1;
      assert (a + b)[..|a + b| - 1] == a + b[..n];
      StateConcat(st, a, b[..n]);
    }
  }

  lemma StateOne(st: State, c: byte)
    ensures UrlState(st, [c]) == ParseUrlChar(st, c)
  {
    hide ParseUrlChar;
    assert UrlState(st, [c][..0]) == st;
  }

  lemma {:induction false} SchemeState(w: bytes)
    requires IsScheme(w)
    ensures UrlState(ReqSpacesBeforeUrl, w + "://") == ReqServerStart
  {
    hide UrlState, ParseUrlChar, IsScheme;
    LettersState(w);
    StateConcat(ReqSpacesBeforeUrl, w, "://");
    StateConcat(ReqSchema, ":", "//");
    StateConcat(ReqSchemaSlash, "/", "/");
    assert ":" + "//" == "://" && "/" + "/" == "//";
    StateOne(ReqSchema, ':');
    StateOne(ReqSchemaSlash, '/');
    StateOne(ReqSchemaSlashSlash, '/');
    SchemeMarks();
  }

  lemma SchemeMarks()
    ensures ParseUrlChar(ReqSchema, ':') == ReqSchemaSlash && ParseUrlChar(ReqSchemaSlash, '/') == ReqSchemaSlashSlash
    ensures ParseUrlChar(ReqSchemaSlashSlash, '/') == ReqServerStart
  {
  }

  lemma {:induction false} LettersState(w: bytes)
    requires IsScheme(w)
    ensures UrlState(ReqSpacesBeforeUrl, w) == ReqSchema
    decreases |w|
  {
    var n := |w| - 1;
    Classes(w[n]);
    if n > 0 {
      LettersState(w[..n]);
    }
  }

  /** Which piece a run of characters belongs to. */
  lemma {:induction false} AuthorityState(p: Url, w: bytes)
    requires p.authority.Some? && p.path == [] && p.query.None? && p.fragment.None? && IsAuthority(w)
    requires p.authority.value == w
    ensures At(p, UrlState(ReqServerStart, w))
    decreases |w|
  {
    if w != [] {
      var n := |w| - 1;
      hide AuthorityChar, ParseUrlChar;
      var q := p.(authority := Some(w[..n]));
      AuthorityState(q, w[..n]);
      AuthorityStep(UrlState(ReqServerStart, w[..n]), w[n]);
    }
  }

  lemma AuthorityStep(st: State, c: byte)
    requires (st.ReqServerStart? || st.ReqServer? || st.ReqServerWithAt?) && AuthorityChar(c)
    requires !(st.ReqServerWithAt? && c == '@')
    ensures ParseUrlChar(st, c) == if c == '@' then ReqServerWithAt else ReqServer
  {
    Classes(c);
    hide IsAlpha, IsUserinfoChar, IsUrlChar;
  }

  /** A path may begin here. */
  predicate MayBegin(st: State, c: byte) {
    match st
    case ReqSpacesBeforeUrl => c == '/' || c == '*'
    case ReqServerStart => c == '/'
    case ReqServer => c == '/'
    case ReqServerWithAt => c == '/'
    case _ => false
  }

  lemma PathStep(st: State, c: byte)
    requires PathChar(c) && (st.ReqPath? || MayBegin(st, c))
    ensures ParseUrlChar(st, c) == ReqPath
  {
    Classes(c);
  }

  lemma {:induction false} PathState(st: State, w: bytes)
    requires IsPath(w) && w != [] && MayBegin(st, w[0])
    ensures UrlState(st, w) == ReqPath
    decreases |w|
  {
    hide ParseUrlChar, PathChar;
    var n := |w| - 1;
    if n > 0 {
      PathState(st, w[..n]);
    }
    PathStep(UrlState(st, w[..n]), w[n]);
  }

  lemma {:induction false} QueryState(st: State, w: bytes)
    requires IsQuery(w) && (st.ReqQueryStringStart? || st.ReqQueryString?)
    ensures UrlState(st, w).ReqQueryStringStart? || UrlState(st, w).ReqQueryString?
    decreases |w|
  {
    if w != [] {
      Classes(w[|w| - 1]);
      QueryState(st, w[..|w| - 1]);
    }
  }

  lemma {:induction false} FragmentState(st: State, w: bytes)
    requires IsFragment(w) && (st.ReqFragmentStart? || st.ReqFragment?)
    ensures UrlState(st, w).ReqFragmentStart? || UrlState(st, w).ReqFragment?
    decreases |w|
  {
    if w != [] {
      Classes(w[|w| - 1]);
      FragmentState(st, w[..|w| - 1]);
    }
  }

  /** The pieces are read one after the other. */
  lemma PiecesState(p: Url, connect: bool)
    requires PiecesOk(p, connect)
    ensures At(p, UrlState(Start(connect), UrlText(p)))
  {
    var head, start := SchemeText(p) + Opt([], p.authority), Start(connect);
    var p0 := p.(path := [], query := None, fragment := None);
    var s0 := UrlState(start, head);
    HeadState(p, connect);
    var s1 := UrlState(start, head + p.path);
    StateConcat(start, head, p.path);
    if p.path != [] {
      PathState(s0, p.path);
    } else {
      assert head + p.path == head;
    }
    var rest := head + p.path + Opt("?", p.query);
    var s2 := UrlState(start, rest);
    StateConcat(start, head + p.path, Opt("?", p.query));
    MarkedQuery(s1, p.query);
    StateConcat(start, rest, Opt("#", p.fragment));
    MarkedFragment(s2, p.fragment);
  }

  lemma HeadState(p: Url, connect: bool)
    requires PiecesOk(p, connect)
    ensures var s := UrlState(Start(connect), SchemeText(p) + Opt([], p.authority));
            if p.authority.None? then s == ReqSpacesBeforeUrl
            else At(p.(path := [], query := None, fragment := None), s)
  {
    if p.authority.Some? {
      var w := p.authority.value;
      assert Opt([], p.authority) == w;
      AuthorityState(p.(path := [], query := None, fragment := None), w);
      StateConcat(Start(connect), SchemeText(p), w);
      if p.scheme.Some? {
        SchemeState(p.scheme.value);
      }
    } else {
      assert SchemeText(p) + Opt([], p.authority) == [];
    }
  }

  lemma MarkedQuery(st: State, w: Option<bytes>)
    requires st.ReqPath? || st.ReqServerStart? || st.ReqServer? || st.ReqServerWithAt?
    requires w.Some? ==> IsQuery(w.value)
    ensures var s := UrlState(st, Opt("?", w));
            if w.None? then s == st else s.ReqQueryStringStart? || s.ReqQueryString?
  {
    assert ParseUrlChar(st, '?') == ReqQueryStringStart;
    hide ParseUrlChar, IsQuery;
    if w.Some? {
      StateConcat(st, "?", w.value);
      StateOne(st, '?');
      QueryState(ReqQueryStringStart, w.value);
    }
  }

  lemma MarkedFragment(st: State, w: Option<bytes>)
    requires w.Some? ==> IsFragment(w.value) && (st.ReqPath? || st.ReqQueryStringStart? || st.ReqQueryString?)
    ensures var s := UrlState(st, Opt("#", w));
            if w.None? then s == st else s.ReqFragmentStart? || s.ReqFragment?
  {
    if w.Some? {
      hide UrlState, ParseUrlChar, IsFragment;
      StateConcat(st, "#", w.value);
      StateOne(st, '#');
      FragmentMark(st);
      FragmentState(ReqFragmentStart, w.value);
    }
  }

  lemma FragmentMark(st: State)
    requires st.ReqPath? || st.ReqQueryStringStart? || st.ReqQueryString?
    ensures ParseUrlChar(st, '#') == ReqFragmentStart
  {
  }

  // ---------------------------------------------------------------- both together

  /**
   * A text is accepted as a URL exactly if it is made of such pieces: a path, or
   * a scheme and an authority that a path may follow, or for CONNECT an authority
   * that a path may follow; and then a query and a fragment.
   */
  lemma UrlExact(u: bytes, m: Method)
    ensures IsUrl(u, m) <==> exists p: Url :: UrlOk(p, m == CONNECT) && UrlText(p) == u
  {
    var connect := m == CONNECT;
    var st := UrlState(UrlStart(m), u);
    if IsUrl(u, m) {
      var p := Split(connect, u);
      assert p.Some? && !Empty(p.value);
    }
    if p: Url :| UrlOk(p, connect) && UrlText(p) == u {
      PiecesState(p, connect);
      assert u != [];
    }
  }

  /** A fragment may not follow an authority directly, though the standard allows it. */
  lemma FragmentAfterAuthority(scheme: bytes, authority: bytes, fragment: bytes, m: Method)
    requires IsScheme(scheme) && IsAuthority(authority) && m != CONNECT
    ensures !IsUrl(scheme + "://" + authority + ("#" + fragment), m)
  {
    hide IsScheme, IsAuthority, ParseUrlChar;
    var p := Url(Some(scheme), Some(authority), [], None, None);
    var w := scheme + "://" + authority;
    HeadState(p, false);
    assert SchemeText(p) + Opt([], p.authority) == w;
    var st := UrlState(ReqSpacesBeforeUrl, w);
    StateConcat(ReqSpacesBeforeUrl, w, "#" + fragment);
    StateConcat(st, "#", fragment);
    StateOne(st, '#');
    HashRefused(st);
    StaysDead(fragment);
  }

  lemma HashRefused(st: State)
    requires st.ReqServerStart? || st.ReqServer? || st.ReqServerWithAt?
    ensures ParseUrlChar(st, '#') == Dead
  {
  }

  /** One such URL. */
  lemma FragmentOfHost()
    ensures !IsUrl("http://host#top", GET)
  {
    hide IsUrl;
    assert IsScheme("http") && IsAuthority("host");
    hide IsScheme, IsAuthority;
    assert "http" + "://" + "host" + ("#" + "top") == "http://host#top";
    FragmentAfterAuthority("http", "host", "top", GET);
  }

  lemma {:induction false} StaysDead(w: bytes)
    ensures UrlState(Dead, w) == Dead
    decreases |w|
  {
    if w != [] {
      StaysDead(w[..|w| - 1]);
    }
  }

  // ---------------------------------------------------------------- what is refused

  /** What is not a URL is refused, at a character or at the blank behind it. */
  lemma UrlRefused(hc: Parser -> HeadersAnswer, s: Parser, t: seq<Event>, u: bytes, rest: bytes)
    requires s.state.ReqSpacesBeforeUrl? && u != [] && ' ' !in u && CR !in u && LF !in u && !IsUrl(u, s.verb)
    ensures RefusedFor(Bytewise(hc, Conn(s, t, false), u + ([' '] + rest), 0), InvalidUrl)
  {
    hide Bytewise, SkipsBadByte, ParseUrlChar, Step, Emit, EmitAll;
    var c, st := Conn(s, t, false), UrlState(UrlStart(s.verb), u);
    if st.Dead? {
      CharRefused(hc, s, t, u, [' '] + rest);
    } else {
      NoReturn(UrlStart(s.verb), u);
      UrlRead(hc, s, t, u);
      var d := Conn(s.(state := st), Emit(t, Data(OnUrl, u)), false);
      EndRefused(hc, d.s);
      OneByte(hc, d, ' ');
      BytewiseConcat(hc, d, [' '], rest, 0);
      LeadsThen(hc, c, u, d, [' '] + rest);
    }
  }

  lemma EndRefused(hc: Parser -> HeadersAnswer, s: Parser)
    requires s.state.ReqSchema? || s.state.ReqSchemaSlash? || s.state.ReqSchemaSlashSlash? || s.state.ReqServerStart?
    ensures Step(hc, s, ' ', false) == StepResult(s.(errno := InvalidUrl), [], Fail)
  {
    hide StatusLineByte, RequestLineByte, ChunkByte;
  }

  lemma {:induction false} CharRefused(hc: Parser -> HeadersAnswer, s: Parser, t: seq<Event>, u: bytes, x: bytes)
    requires s.state.ReqSpacesBeforeUrl? && u != [] && ' ' !in u && CR !in u && LF !in u
    requires UrlState(UrlStart(s.verb), u).Dead?
    ensures RefusedFor(Bytewise(hc, Conn(s, t, false), u + x, 0), InvalidUrl)
    decreases |u|
  {
    hide Bytewise, SkipsBadByte, ParseUrlChar, Step, Emit, EmitAll;
    var n, c, start := |u| - 1, Conn(s, t, false), UrlStart(s.verb);
    var init, ch := u[..n], u[n];
    assert u + x == init + ([ch] + x);
    if n == 0 {
      assert init + ([ch] + x) == [ch] + x;
      FirstRefused(hc, s, ch);
      OneByte(hc, c, ch);
      BytewiseConcat(hc, c, [ch], x, 0);
    } else if UrlState(start, init).Dead? {
      CharRefused(hc, s, t, init, [ch] + x);
    } else {
      NoReturn(start, init);
      UrlRead(hc, s, t, init);
      var d := Conn(s.(state := UrlState(start, init)), Emit(t, Data(OnUrl, init)), false);
      NextRefused(hc, d.s, ch);
      OneByte(hc, d, ch);
      BytewiseConcat(hc, d, [ch], x, 0);
      LeadsThen(hc, c, init, d, [ch] + x);
    }
  }

  lemma FirstRefused(hc: Parser -> HeadersAnswer, s: Parser, ch: byte)
    requires s.state.ReqSpacesBeforeUrl? && ParseUrlChar(UrlStart(s.verb), ch).Dead? && ch != ' '
    ensures Step(hc, s, ch, false) == StepResult(s.(state := Dead, errno := InvalidUrl), [], Fail)
  {
    hide ParseUrlChar;
  }

  lemma NextRefused(hc: Parser -> HeadersAnswer, s: Parser, ch: byte)
    requires InUrl(s.state) && ParseUrlChar(s.state, ch).Dead? && ch != ' ' && ch != CR && ch != LF
    ensures Step(hc, s, ch, false).out.Fail? && Step(hc, s, ch, false).s.errno == InvalidUrl
  {
    hide ParseUrlChar, StatusLineByte, RequestLineByte, ChunkByte;
  }
}
