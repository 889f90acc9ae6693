/** How a stream is cut into buffers does not matter, and exactly when it does. */
module HttpSplit {
  import opened Bytes
  import opened HttpTypes
  import opened HttpStep
  import opened HttpInvariant
  import opened HttpRun

  /** The buffers one after the other, up to the first error or change of protocol. */
  function Feed(hc: Parser -> HeadersAnswer, c: Conn, buffers: seq<bytes>): RunResult
    decreases |buffers|
  {
    if buffers == [] then RunResult(c.(shadow := false), 0, Go)
    else
      var r := RunFrom(hc, c.(shadow := false), buffers[0], 0);
      if !r.out.Go? then r
      else
        var q := Feed(hc, r.c, buffers[1..]);
        q.(n := |buffers[0]| + q.n)
  }

  /** The run that looks at every byte on its own. */
  function Bytewise(hc: Parser -> HeadersAnswer, c: Conn, w: bytes, i: nat): RunResult
    requires i <= |w|
    decreases |w| - i
  {
    if i == |w| then RunResult(c, i, Go)
    else
      var r := Step(hc, c.s, w[i], false);
      match r.out
      case Go => Bytewise(hc, Next(c, r), w, i + 1)
      case Fail => RunResult(Next(c, r), i, Fail)
      case Exit => RunResult(Next(c, r), i + 1, Exit)
  }

  /** Same parser, same joined callbacks, same number of bytes consumed, same way out. */
  predicate Same(a: RunResult, b: RunResult) {
    a.n == b.n && a.out == b.out && a.c.trace == b.c.trace && a.c.s == b.c.s
  }

  /** A byte that a strict parser refuses in the value of a header. */
  predicate BadValueByte(s: Parser, ch: byte) {
    s.state.HeaderValue? && !s.lenient && !IsHeaderChar(ch)
  }

  /** Looked at byte by byte, the stream breaks off at a bad byte of a value, and the byte before it shadows it. */
  predicate SkipsBadByte(hc: Parser -> HeadersAnswer, c: Conn, w: bytes, i: nat)
    requires i <= |w|
    decreases |w| - i
  {
    i < |w|
    && var r := Step(hc, c.s, w[i], false);
       if BadValueByte(c.s, w[i]) then c.shadow else r.out.Go? && SkipsBadByte(hc, Next(c, r), w, i + 1)
  }

  // ---------------------------------------------------------------- one byte

  lemma ShadowMatters(hc: Parser -> HeadersAnswer, s: Parser, ch: byte)
    requires !BadValueByte(s, ch)
    ensures Step(hc, s, ch, true) == Step(hc, s, ch, false)
  {
    hide FieldByte, FieldStartByte, HeadersAlmostDoneByte, DiscardLwsByte, ValueLwsByte, DiscardWsByte, UrlByte,
      StatusByte, StatusLineByte, RequestLineByte, ChunkByte, StartReqByte, StartReqOrResByte, StartResByte,
      ChunkDataByte, BodyIdentityByte, HeaderAlmostDoneByte, ValueChar;
  }

  lemma BadByteFails(hc: Parser -> HeadersAnswer, s: Parser, ch: byte)
    requires BadValueByte(s, ch)
    ensures Step(hc, s, ch, false).out.Fail?
  {
  }

  lemma ShadowedByteGoes(hc: Parser -> HeadersAnswer, s: Parser, ch: byte)
    requires BadValueByte(s, ch) && s.hstate.General? && s.errno == Ok
    ensures Step(hc, s, ch, true).out.Go?
  {
  }

  lemma ShadowFromGeneral(hc: Parser -> HeadersAnswer, s: Parser, ch: byte)
    requires s.errno == Ok && Shadows(s, Step(hc, s, ch, false).s)
    ensures var r := Step(hc, s, ch, false); r.out.Go? ==> r.s.hstate.General? && r.s.errno == Ok
  {
  }

  // ---------------------------------------------------------------- one buffer

  /** Without a bad byte to skip, a buffer is read as if byte by byte. */
  lemma {:induction false} RunIsBytewise(hc: Parser -> HeadersAnswer, c: Conn, d: Conn, w: bytes, i: nat)
    requires i <= |w| && c.s == d.s && c.trace == d.trace && (c.shadow ==> d.shadow)
    requires !SkipsBadByte(hc, d, w, i)
    ensures Same(RunFrom(hc, c, w, i), Bytewise(hc, d, w, i))
    decreases |w| - i
  {
    hide Step, EmitAll;
    if i < |w| {
      if BadValueByte(d.s, w[i]) {
        BadByteFails(hc, d.s, w[i]);
      } else {
        ShadowMatters(hc, d.s, w[i]);
        var r := Step(hc, d.s, w[i], false);
        if r.out.Go? {
          RunIsBytewise(hc, Next(c, r), Next(d, r), w, i + 1);
        }
      }
    }
  }

  /** With one, the buffer is read beyond the byte at which the bytewise run breaks off. */
  lemma {:induction false} RunSkips(hc: Parser -> HeadersAnswer, c: Conn, w: bytes, i: nat)
    requires i <= |w| && SkipsBadByte(hc, c, w, i) && Ready(c.s)
    requires c.shadow ==> c.s.hstate.General?
    ensures RunFrom(hc, c, w, i).n > Bytewise(hc, c, w, i).n
    decreases |w| - i
  {
    hide Step, EmitAll, Valid;
    var r := Step(hc, c.s, w[i], false);
    if BadValueByte(c.s, w[i]) {
      BadByteFails(hc, c.s, w[i]);
      ShadowedByteGoes(hc, c.s, w[i]);
      RunGoesOn(hc, Next(c, Step(hc, c.s, w[i], true)), w, i + 1);
    } else {
      ShadowMatters(hc, c.s, w[i]);
      StepKeepsValid(hc, c.s, w[i], false);
      if Shadows(c.s, r.s) {
        ShadowFromGeneral(hc, c.s, w[i]);
      }
      RunSkips(hc, Next(c, r), w, i + 1);
    }
  }

  lemma {:induction false} RunGoesOn(hc: Parser -> HeadersAnswer, c: Conn, w: bytes, i: nat)
    requires i <= |w|
    ensures RunFrom(hc, c, w, i).n >= i
    decreases |w| - i
  {
    hide Step, EmitAll;
    if i < |w| {
      var r := Step(hc, c.s, w[i], c.shadow);
      if r.out.Go? {
        RunGoesOn(hc, Next(c, r), w, i + 1);
      }
    }
  }

  // ---------------------------------------------------------------- several buffers

  lemma {:induction false} BytewiseConcat(hc: Parser -> HeadersAnswer, c: Conn, a: bytes, b: bytes, i: nat)
    requires i <= |a|
    ensures var r := Bytewise(hc, c, a, i);
            && (Bytewise(hc, c, a + b, i) == if r.out.Go? then Bytewise(hc, r.c, a + b, |a|) else r)
            && (SkipsBadByte(hc, c, a + b, i)
                <==> SkipsBadByte(hc, c, a, i) || (r.out.Go? && SkipsBadByte(hc, r.c, a + b, |a|)))
    decreases |a| - i
  {
    hide Step, EmitAll;
    if i < |a| {
      var r := Step(hc, c.s, a[i], false);
      if BadValueByte(c.s, a[i]) {
        BadByteFails(hc, c.s, a[i]);
      } else if r.out.Go? {
        BytewiseConcat(hc, Next(c, r), a, b, i + 1);
      }
    }
  }

  lemma {:induction false} BytewiseShift(hc: Parser -> HeadersAnswer, c: Conn, a: bytes, b: bytes, i: nat)
    requires i <= |b|
    ensures var r := Bytewise(hc, c, b, i);
            Bytewise(hc, c, a + b, |a| + i) == r.(n := r.n + |a|)
    ensures SkipsBadByte(hc, c, a + b, |a| + i) <==> SkipsBadByte(hc, c, b, i)
    decreases |b| - i
  {
    hide Step, EmitAll;
    if i < |b| {
      var r := Step(hc, c.s, b[i], false);
      if r.out.Go? {
        BytewiseShift(hc, Next(c, r), a, b, i + 1);
      }
    }
  }

  lemma {:induction false} BytewiseEnds(hc: Parser -> HeadersAnswer, c: Conn, w: bytes, i: nat)
    requires i <= |w| && Bytewise(hc, c, w, i).out.Go?
    ensures Bytewise(hc, c, w, i).n == |w|
    decreases |w| - i
  {
    hide Step, EmitAll;
    if i < |w| {
      BytewiseEnds(hc, Next(c, Step(hc, c.s, w[i], false)), w, i + 1);
    }
  }

  lemma {:induction false} FeedIsBytewise(hc: Parser -> HeadersAnswer, c: Conn, d: Conn, buffers: seq<bytes>)
    requires c.s == d.s && c.trace == d.trace
    requires !SkipsBadByte(hc, d, Flatten(buffers), 0)
    ensures Same(Feed(hc, c, buffers), Bytewise(hc, d, Flatten(buffers), 0))
    decreases |buffers|
  {
    hide Step, EmitAll, RunFrom, Bytewise, SkipsBadByte;
    if buffers == [] {
      assert Bytewise(hc, d, [], 0) == RunResult(d, 0, Go) by { BytewiseNothing(hc, d); }
    } else {
      var a, b := buffers[0], Flatten(buffers[1..]);
      BytewiseConcat(hc, d, a, b, 0);
      RunIsBytewise(hc, c.(shadow := false), d, a, 0);
      var r := Bytewise(hc, d, a, 0);
      if r.out.Go? {
        BytewiseEnds(hc, d, a, 0);
        BytewiseShift(hc, r.c, a, b, 0);
        FeedIsBytewise(hc, RunFrom(hc, c.(shadow := false), a, 0).c, r.c, buffers[1..]);
      }
    }
  }

  lemma BytewiseNothing(hc: Parser -> HeadersAnswer, c: Conn)
    ensures Bytewise(hc, c, [], 0) == RunResult(c, 0, Go)
  {
  }

  function Singles(w: bytes): seq<bytes> {
    if w == [] then [] else [[w[0]]] + Singles(w[1..])
  }

  /** The bytewise run is what one-byte buffers give, in every case. */
  lemma {:induction false} FeedSingles(hc: Parser -> HeadersAnswer, c: Conn, d: Conn, w: bytes)
    requires c.s == d.s && c.trace == d.trace
    ensures Cuts(Singles(w), w)
    ensures Same(Feed(hc, c, Singles(w)), Bytewise(hc, d, w, 0))
    decreases |w|
  {
    hide Step, EmitAll;
    if w != [] {
      var a, b := [w[0]], w[1..];
      assert a + b == w;
      assert Singles(w)[1..] == Singles(b);
      var r := Step(hc, c.s, w[0], false);
      RunUnfolds(hc, c.(shadow := false), a, 0);
      if r.out.Go? {
        RunEnds(hc, Next(c.(shadow := false), r), a);
        assert Bytewise(hc, d, w, 0) == Bytewise(hc, Next(d, r), w, 1);
        FeedSingles(hc, Next(c.(shadow := false), r), Next(d, r), b);
        BytewiseShift(hc, Next(d, r), a, b, 0);
      } else {
        FeedSingles(hc, c, d, b);
      }
    }
  }

  // ---------------------------------------------------------------- the theorem

  /** `buffers` cuts the stream `w` into non-empty pieces. */
  predicate Cuts(buffers: seq<bytes>, w: bytes) {
    Flatten(buffers) == w && forall i :: 0 <= i < |buffers| ==> buffers[i] != []
  }

  ghost predicate SplitInvariant(hc: Parser -> HeadersAnswer, c: Conn, w: bytes) {
    forall x, y :: Cuts(x, w) && Cuts(y, w) ==> Same(Feed(hc, c, x), Feed(hc, c, y))
  }

  /** From every usable parser, all ways of cutting a stream into buffers give the same result, exactly if no
      bad byte of a header value lies in the shadow of the byte before it. */
  lemma {:induction false} SplitInvariance(hc: Parser -> HeadersAnswer, c: Conn, w: bytes)
    requires Ready(c.s) && !c.shadow
    ensures SplitInvariant(hc, c, w) <==> !SkipsBadByte(hc, c, w, 0)
  {
    hide Step, EmitAll, RunFrom, Bytewise;
    if SkipsBadByte(hc, c, w, 0) {
      RunSkips(hc, c, w, 0);
      FeedSingles(hc, c, c, w);
      assert [w][1..] == [] && Flatten([w]) == w + Flatten([w][1..]) && w + [] == w;
      assert Cuts([w], w) && Cuts(Singles(w), w);
      RunGoesOn(hc, c, w, 0);
      assert Feed(hc, c, [w]).n == RunFrom(hc, c, w, 0).n by { FeedOne(hc, c, w); }
      assert !Same(Feed(hc, c, [w]), Feed(hc, c, Singles(w)));
    } else {
      forall x, y | Cuts(x, w) && Cuts(y, w) ensures Same(Feed(hc, c, x), Feed(hc, c, y)) {
        FeedIsBytewise(hc, c, c, x);
        FeedIsBytewise(hc, c, c, y);
      }
    }
  }

  lemma FeedOne(hc: Parser -> HeadersAnswer, c: Conn, w: bytes)
    requires Ready(c.s) && !c.shadow
    ensures Feed(hc, c, [w]).n == RunFrom(hc, c, w, 0).n
  {
    hide Step, EmitAll, RunFrom, Ready;
    RunKeepsValid(hc, c, w, 0);
    assert [w][1..] == [];
  }

  /** A lenient parser never skips, and neither does one that sees header characters only. */
  lemma {:induction false} NothingToSkip(hc: Parser -> HeadersAnswer, c: Conn, w: bytes, i: nat)
    requires i <= |w| && Ready(c.s)
    requires c.s.lenient || forall j :: i <= j < |w| ==> IsHeaderChar(w[j])
    ensures !SkipsBadByte(hc, c, w, i)
    decreases |w| - i
  {
    hide Step, EmitAll, Valid;
    if i < |w| {
      StepKeepsValid(hc, c.s, w[i], false);
      var r := Step(hc, c.s, w[i], false);
      if r.out.Go? {
        NothingToSkip(hc, Next(c, r), w, i + 1);
      }
    }
  }
}
