/** The embedder's loop: buffers are handed to the parser until it fails or hands the connection over. */
module HttpFeed {
  import opened Bytes
  import opened HttpTypes
  import opened HttpStep
  import opened HttpInvariant
  import opened HttpRun
  import opened HttpMarks
  import opened HttpSplit
  import P = HttpParser

  predicate AllSmall(buffers: seq<bytes>) {
    forall i :: 0 <= i < |buffers| ==> buffers[i] != [] && P.Small(buffers[i])
  }

  /** `HttpSplit.Feed`, on a parser: the number of bytes consumed is returned. */
  method FeedAll(parser: P.HttpParser, buffers: seq<bytes>) returns (n: nat)
    requires parser.Usable() && parser.errno == Ok && NotUpgraded(parser.Abs()) && AllSmall(buffers)
    modifies parser
    ensures parser.Usable()
    ensures parser.errno != HeaderOverflow ==>
              P.Agrees(Feed(parser.hc, old(Conn(parser.Abs(), Merge(parser.log), false)), buffers),
                       parser.Abs(), parser.log, n)
    ensures parser.errno == HeaderOverflow ==> old(parser.nread) + |Flatten(buffers)| + |buffers| > HTTP_MAX_HEADER_SIZE
  {
    hide RunFrom, Valid, EmitAll, Flatten;
    ghost var c0 := Conn(parser.Abs(), Merge(parser.log), false);
    assert buffers[..0] == [] && |Flatten([])| == 0 by { FlattenNone(); }
    n := 0;
    var i := 0;
    while i < |buffers|
      invariant i <= |buffers|
      invariant parser.Usable() && parser.errno == Ok && NotUpgraded(parser.Abs())
      invariant Feed(parser.hc, c0, buffers)
             == Ahead(n, Feed(parser.hc, Conn(parser.Abs(), Merge(parser.log), false), buffers[i..]))
      invariant parser.nread <= old(parser.nread) + |Flatten(buffers[..i])| + i
    {
      FlattenOneMore(buffers, i);
      ghost var c := Conn(parser.Abs(), Merge(parser.log), false);
      RunKeepsValid(parser.hc, c, buffers[i], 0);
      assert buffers[i..][0] == buffers[i] && buffers[i..][1..] == buffers[i + 1..];
      var nparsed := parser.Execute(buffers[i]);
      n := n + nparsed;
      ShadowReset(parser.hc, RunFrom(parser.hc, c, buffers[i], 0).c, buffers[i + 1..]);
      if parser.errno != Ok || !NotUpgraded(parser.Abs()) {
        return;
      }
      i := i + 1;
    }
  }

  lemma FlattenNone()
    ensures Flatten([]) == []
  {
  }

  lemma FlattenOneMore(buffers: seq<bytes>, i: nat)
    requires i < |buffers|
    ensures |Flatten(buffers[..i + 1])| == |Flatten(buffers[..i])| + |buffers[i]| <= |Flatten(buffers)|
  {
    FlattenConcat(buffers[..i], [buffers[i]]);
    assert buffers[..i] + [buffers[i]] == buffers[..i + 1];
    var one := [buffers[i]];
    assert one[1..] == [];
    FlattenConcat(buffers[..i + 1], buffers[i + 1..]);
    assert buffers[..i + 1] + buffers[i + 1..] == buffers;
  }

  /** All buffers, and then the end of the stream: a body of unknown length ends with it, and a message that is
      cut short is an error. */
  method FeedToEnd(parser: P.HttpParser, buffers: seq<bytes>) returns (n: nat)
    requires parser.Usable() && parser.errno == Ok && NotUpgraded(parser.Abs()) && AllSmall(buffers)
    modifies parser
    ensures parser.errno != HeaderOverflow ==>
              var r := Feed(parser.hc, old(Conn(parser.Abs(), Merge(parser.log), false)), buffers);
              && n == r.n
              && (r.out.Go? ==> AtEnd(r.c, parser.Abs(), Merge(parser.log)))
              && (!r.out.Go? ==> P.Agrees(r, parser.Abs(), parser.log, n))
    ensures parser.errno == HeaderOverflow ==> old(parser.nread) + |Flatten(buffers)| + |buffers| > HTTP_MAX_HEADER_SIZE
  {
    hide RunFrom, Valid, EmitAll, Emit, Feed;
    FeedGoes(parser.hc, Conn(parser.Abs(), Merge(parser.log), false), buffers);
    n := FeedAll(parser, buffers);
    if parser.errno == Ok && NotUpgraded(parser.Abs()) {
      ghost var log := parser.log;
      var nparsed := parser.Execute([]);
      if parser.log != log {
        MergeSnoc(log, Notify(OnMessageComplete, parser.Abs()));
        NotifyApart(Merge(log), parser.Abs());
      }
    }
  }

  /** What the end of the stream makes of a parser that has read `c`. */
  predicate AtEnd(c: Conn, s: Parser, trace: seq<Event>) {
    if c.s.state.BodyIdentityEof? then s == c.s && trace == c.trace + [Notify(OnMessageComplete, s)]
    else if BetweenMessages(c.s.state) then s == c.s && trace == c.trace
    else s == c.s.(errno := InvalidEofState) && trace == c.trace
  }

  predicate BetweenMessages(st: State) {
    st.Dead? || st.StartReqOrRes? || st.StartRes? || st.StartReq?
  }

  lemma NotifyApart(t: seq<Event>, s: Parser)
    ensures Emit(t, Notify(OnMessageComplete, s)) == t + [Notify(OnMessageComplete, s)]
  {
  }

  /** A run over buffers that goes through leaves a parser for more. */
  lemma {:induction false} FeedGoes(hc: Parser -> HeadersAnswer, c: Conn, buffers: seq<bytes>)
    requires Ready(c.s) && NotUpgraded(c.s)
    ensures var r := Feed(hc, c, buffers);
            && (r.out.Go? ==> Ready(r.c.s) && NotUpgraded(r.c.s))
            && (r.out.Fail? ==> r.c.s.errno != Ok)
            && (r.out.Exit? ==> !NotUpgraded(r.c.s))
    decreases |buffers|
  {
    hide RunFrom, Ready, NotUpgraded;
    if buffers != [] {
      RunKeepsValid(hc, c.(shadow := false), buffers[0], 0);
      var r := RunFrom(hc, c.(shadow := false), buffers[0], 0);
      if r.out.Go? {
        FeedGoes(hc, r.c, buffers[1..]);
      }
    }
  }

  /** A result reached after `n` more bytes. */
  function Ahead(n: nat, r: RunResult): RunResult {
    r.(n := n + r.n)
  }

  lemma ShadowReset(hc: Parser -> HeadersAnswer, c: Conn, buffers: seq<bytes>)
    ensures Feed(hc, c, buffers) == Feed(hc, c.(shadow := false), buffers)
  {
  }
}
