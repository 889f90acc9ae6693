/** Whatever the input, tokens refer to bytes of the buffer in order. */
module BdecodeSpans {
  import opened Bytes
  import opened Bdecode
  import opened BdecodeWalk

  /** Where the bytes of a token end: where the next token's start, or the decoder stands. */
  function EndOf(t: seq<Token>, i: nat, pos: nat): nat
    requires i < |t|
  {
    if i + 1 < |t| then t[i + 1].offset else pos
  }

  /** A string has its length prefix, and an integer its closing letter, before the bytes end. */
  predicate Spans(b: bytes, token: Token, end: nat)
    requires IsBuffer(b)
  {
    && token.offset <= end <= End(b)
    && (token.kind.StringToken? ==> token.offset + token.header + 2 <= end && token.header <= MAX_HEADER)
    && (token.kind.IntegerToken? ==> token.offset < end && 'e' in b[token.offset + 1..end])
  }

  predicate SpansOk(b: bytes, t: seq<Token>, pos: nat)
    requires IsBuffer(b)
  {
    forall i :: 0 <= i < |t| ==> Spans(b, t[i], EndOf(t, i, pos))
  }

  lemma SpansLater(b: bytes, token: Token, end: nat, later: nat)
    requires IsBuffer(b) && Spans(b, token, end) && end <= later <= End(b)
    ensures Spans(b, token, later)
  {
    if token.kind.IntegerToken? {
      var k :| 0 <= k < |b[token.offset + 1..end]| && b[token.offset + 1..end][k] == 'e';
      assert b[token.offset + 1..later][k] == 'e';
    }
  }

  /** One more token, at a place not before the end of the last. */
  lemma SpansAppend(b: bytes, t: seq<Token>, pos: nat, token: Token, after: nat)
    requires IsBuffer(b) && SpansOk(b, t, pos) && pos <= token.offset && Spans(b, token, after)
    ensures SpansOk(b, t + [token], after)
  {
    var u := t + [token];
    forall i | 0 <= i < |u| ensures Spans(b, u[i], EndOf(u, i, after)) {
      if i < |t| {
        assert Spans(b, t[i], EndOf(t, i, pos));
        if i + 1 == |t| {
          SpansLater(b, t[i], pos, token.offset);
        }
      }
    }
  }

  lemma SpansPatched(b: bytes, t: seq<Token>, pos: nat, i: nat, next: nat)
    requires IsBuffer(b) && SpansOk(b, t, pos) && i < |t|
    ensures SpansOk(b, Patched(t, i, next), pos)
  {
    var u := Patched(t, i, next);
    forall k | 0 <= k < |u| ensures Spans(b, u[k], EndOf(u, k, pos)) {
      assert Spans(b, t[k], EndOf(t, k, pos));
    }
  }

  lemma SpansMoved(b: bytes, t: seq<Token>, pos: nat, later: nat)
    requires IsBuffer(b) && SpansOk(b, t, pos) && pos <= later <= End(b)
    ensures SpansOk(b, t, later)
  {
    forall i | 0 <= i < |t| ensures Spans(b, t[i], EndOf(t, i, later)) {
      assert Spans(b, t[i], EndOf(t, i, pos));
      if i + 1 == |t| {
        SpansLater(b, t[i], pos, later);
      }
    }
  }

  /** Every step keeps the spans in order, within the buffer. */
  lemma OneTokenSpans(b: bytes, depthLimit: nat, d: Decoder)
    requires IsBuffer(b) && d.pos <= End(b) && FramesOk(d) && SpansOk(b, d.tokens, d.pos)
    ensures var s := OneToken(b, depthLimit, d); s.d.pos <= End(b) && SpansOk(b, s.d.tokens, s.d.pos)
  {
    hide Spans, SpansOk, ParseInt, CheckInteger, Toggled;
    OneTokenMoves(b, depthLimit, d);
    if d.pos < End(b) && |d.stack| < depthLimit && d.limit > 0 {
      var e, t := d.(limit := d.limit - 1), b[d.pos];
      if InDict(e) && !Top(e).value && !IsDigit(t) && t != 'e' {
      } else if t == 'd' || t == 'l' {
        var token := Token(d.pos, if t == 'd' then DictToken else ListToken, 0, 0);
        PlainSpan(b, token, d.pos + 1);
        SpansAppend(b, d.tokens, d.pos, token, d.pos + 1);
      } else if t == 'i' {
        IntegerSpans(b, e);
      } else if t == 'e' {
        CloseSpans(b, e);
      } else {
        StringSpans(b, e);
      }
    }
  }

  lemma PlainSpan(b: bytes, token: Token, end: nat)
    requires IsBuffer(b) && token.offset <= end <= End(b) && (IsContainer(token) || token.kind.EndToken?)
    ensures Spans(b, token, end)
  {
  }

  lemma IntegerSpans(b: bytes, d: Decoder)
    requires IsBuffer(b) && d.pos < End(b) && FramesOk(d) && SpansOk(b, d.tokens, d.pos)
    ensures var s := ReadInteger(b, d); s.d.pos <= End(b) && SpansOk(b, s.d.tokens, s.d.pos)
  {
    hide SpansOk, CheckInteger, Toggled;
    var c := CheckInteger(b, d.pos + 1);
    if c.error.None? {
      var token := Token(d.pos, IntegerToken, 1, 0);
      assert b[d.pos + 1..c.pos + 1][c.pos - d.pos - 1] == 'e';
      assert Spans(b, token, c.pos + 1);
      SpansAppend(b, d.tokens, d.pos, token, c.pos + 1);
    }
  }

  lemma StringSpans(b: bytes, d: Decoder)
    requires IsBuffer(b) && d.pos < End(b) && FramesOk(d) && SpansOk(b, d.tokens, d.pos)
    ensures var s := ReadString(b, d); s.d.pos <= End(b) && SpansOk(b, s.d.tokens, s.d.pos)
  {
    hide SpansOk, ParseInt, Toggled;
    if IsDigit(b[d.pos]) {
      var p := ParseInt(b, d.pos + 1, End(b), ':', DigitValue(b[d.pos]));
      SpansMoved(b, d.tokens, d.pos, p.pos);
      if p.pos < End(b) {
        SpansMoved(b, d.tokens, d.pos, p.pos + 1);
        var token, after := Token(d.pos, StringToken, 1, p.pos + 1 - d.pos - 2), p.pos + 1 + p.val;
        if after <= End(b) && token.header <= MAX_HEADER {
          SpansAppend(b, d.tokens, d.pos, token, after);
        }
      }
    }
  }

  lemma CloseSpans(b: bytes, d: Decoder)
    requires IsBuffer(b) && d.pos < End(b) && FramesOk(d) && SpansOk(b, d.tokens, d.pos)
    ensures var s := Close(d); s.d.pos <= End(b) && SpansOk(b, s.d.tokens, s.d.pos)
  {
    hide Spans, SpansOk;
    var token := Token(d.pos, EndToken, 1, 0);
    if d.stack != [] {
      var tokens := d.tokens + [token];
      PlainSpan(b, token, d.pos);
      SpansAppend(b, d.tokens, d.pos, token, d.pos);
      SpansMoved(b, tokens, d.pos, d.pos + 1);
      SpansPatched(b, tokens, d.pos + 1, Top(d).token, |tokens| - Top(d).token);
    }
  }

  lemma {:induction false} UnwindSpans(b: bytes, t: seq<Token>, stack: seq<Frame>, pos: nat)
    requires IsBuffer(b) && pos <= End(b) && SpansOk(b, t, pos)
    requires forall k :: 0 <= k < |stack| ==> stack[k].token < |t|
    ensures SpansOk(b, Unwind(t, stack, pos), pos)
    decreases |stack|
  {
    hide Spans, SpansOk;
    if stack == [] {
      PlainSpan(b, Token(pos, EndToken, 0, 0), pos);
      SpansAppend(b, t, pos, Token(pos, EndToken, 0, 0), pos);
    } else {
      var top := stack[|stack| - 1];
      var dummy, end := Token(pos, DictToken, 2, 0), Token(pos, EndToken, 0, 0);
      PlainSpan(b, dummy, pos);
      PlainSpan(b, end, pos);
      SpansAppend(b, t, pos, dummy, pos);
      SpansAppend(b, t + [dummy], pos, end, pos);
      assert t + [dummy] + [end] == t + [dummy, end];
      var v := WithDummy(t, top, pos);
      SpansPatched(b, v, pos, top.token, |v| - top.token);
      PlainSpan(b, Token(pos, EndToken, 1, 0), pos);
      SpansAppend(b, Patched(v, top.token, |v| - top.token), pos, Token(pos, EndToken, 1, 0), pos);
      UnwindSpans(b, Patched(v, top.token, |v| - top.token) + [Token(pos, EndToken, 1, 0)], stack[..|stack| - 1], pos);
    }
  }

  /** The tokens left by any input refer to bytes inside the buffer, in order. */
  lemma {:induction false} RunSpans(b: bytes, depthLimit: nat, d: Decoder)
    requires IsBuffer(b) && d.pos <= End(b) && FramesOk(d) && SpansOk(b, d.tokens, d.pos)
    ensures var r := Run(b, depthLimit, d); r.pos <= End(b) && SpansOk(b, r.tokens, r.pos)
    decreases |b| - d.pos
  {
    hide OneToken, Unwind, SpansOk;
    OneTokenMoves(b, depthLimit, d);
    OneTokenSpans(b, depthLimit, d);
    match OneToken(b, depthLimit, d)
    case Next(n) => RunSpans(b, depthLimit, n);
    case Finished(n) => UnwindSpans(b, n.tokens, n.stack, n.pos);
    case Failed(n, _, _) => UnwindSpans(b, n.tokens, n.stack, n.pos);
  }
}
