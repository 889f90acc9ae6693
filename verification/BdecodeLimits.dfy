/** The 29 bits of `next`: the limits under which they suffice, and what is lost beyond them. */
module BdecodeLimits {
  import opened Bytes
  import opened Bdecode
  import opened BdecodeWalk
  import opened BdecodeSpans

  // ---------------------------------------------------------------- limits that suffice

  lemma {:induction false} UnwindBelowLength(t: seq<Token>, stack: seq<Frame>, hi: nat, pos: nat)
    requires OpenUpTo(t, stack, hi, true) && forall k :: 0 <= k < |stack| ==> stack[k].token < |t|
    ensures |Unwind(t, stack, pos)| == |t| + |stack| + 1
    decreases |stack|
  {
    if stack != [] {
      var p, below := stack[|stack| - 1].token, stack[..|stack| - 1];
      NoDummy(t, stack, hi, pos);
      OpenFrame(t, Ended(t, p, pos), below, p, true);
      UnwindBelowLength(Ended(t, p, pos), below, p, pos);
    }
  }

  /** The unwinding adds an end token for each open container, one more, and at most one dummy value. */
  lemma UnwindLength(t: seq<Token>, stack: seq<Frame>, pos: nat)
    requires OpenUpTo(t, stack, |t|, false) && forall k :: 0 <= k < |stack| ==> stack[k].token < |t|
    ensures |t| + |stack| + 1 <= |Unwind(t, stack, pos)| <= |t| + |stack| + 3
  {
    UnwindGrows(t, stack, pos);
    if stack != [] {
      var top, below := stack[|stack| - 1], stack[..|stack| - 1];
      var u := Ended(WithDummy(t, top, pos), top.token, pos);
      OpenFrame(t, u, below, top.token, true);
      UnwindBelowLength(u, below, top.token, pos);
    }
  }

  /** A step takes one of the tokens that are left, and opens at most one container. */
  lemma OneTokenLength(b: bytes, depthLimit: nat, d: Decoder, bound: nat)
    requires IsBuffer(b) && End(b) <= MAX_OFFSET && d.pos <= End(b) && Good(d)
    requires |d.stack| <= depthLimit && |d.tokens| <= bound && (d.limit >= 0 ==> |d.tokens| + d.limit <= bound)
    ensures var s := OneToken(b, depthLimit, d);
            && |s.d.stack| <= depthLimit && |s.d.tokens| <= bound
            && (s.d.limit >= 0 ==> |s.d.tokens| + s.d.limit <= bound)
  {
    hide CheckInteger, ParseInt, OpenUpTo;
  }

  lemma {:induction false} RunLength(b: bytes, depthLimit: nat, d: Decoder, bound: nat)
    requires IsBuffer(b) && End(b) <= MAX_OFFSET && d.pos <= End(b) && Good(d)
    requires |d.stack| <= depthLimit && |d.tokens| <= bound && (d.limit >= 0 ==> |d.tokens| + d.limit <= bound)
    ensures |Run(b, depthLimit, d).tokens| <= Min(bound, End(b)) + depthLimit + 3
    decreases |b| - d.pos
  {
    hide OneToken, Unwind, OpenUpTo, Complete;
    OneTokenGood(b, depthLimit, d);
    OneTokenMoves(b, depthLimit, d);
    OneTokenLength(b, depthLimit, d, bound);
    match OneToken(b, depthLimit, d)
    case Next(n) => RunLength(b, depthLimit, n, bound);
    case Finished(n) => NothingToUnwind(n.tokens, n.pos);
    case Failed(n, _, _) => UnwindLength(n.tokens, n.stack, n.pos);
  }

  lemma NothingToUnwind(t: seq<Token>, pos: nat)
    ensures |Unwind(t, [], pos)| == |t| + 1
  {
  }

  /** The limits leave room for the tokens that the unwinding adds. */
  predicate LeavesRoom(size: nat, depthLimit: nat, tokenLimit: nat) {
    Min(tokenLimit, size) + depthLimit < MAX_NEXT_ITEM
  }

  /** Then the tokens are linked, whatever the buffer, and all of their fields fit. */
  lemma RoomSuffices(b: bytes, depthLimit: nat, tokenLimit: nat)
    requires IsBuffer(b) && 0 < End(b) <= MAX_OFFSET && LeavesRoom(End(b), depthLimit, tokenLimit)
    ensures var t := Decode(b, depthLimit, tokenLimit).tokens;
            && |t| <= MAX_TOKENS && Linked(t)
            && forall i :: 0 <= i < |t| ==>
                 t[i].offset <= MAX_OFFSET && (t[i].kind.StringToken? ==> t[i].header <= MAX_HEADER)
  {
    hide Run, Linked;
    var r := Decode(b, depthLimit, tokenLimit);
    RunLength(b, depthLimit, Start(tokenLimit), tokenLimit);
    LinkedExactly(b, depthLimit, tokenLimit);
    RunSpans(b, depthLimit, Start(tokenLimit));
    forall i | 0 <= i < |r.tokens|
      ensures r.tokens[i].offset <= MAX_OFFSET && (r.tokens[i].kind.StringToken? ==> r.tokens[i].header <= MAX_HEADER)
    {
      assert Spans(b, r.tokens[i], EndOf(r.tokens, i, r.pos));
    }
  }

  /** The limits that `bdecode` takes by default leave room for any buffer. */
  lemma DefaultLimits(size: nat)
    ensures LeavesRoom(size, 100, 1_000_000)
  {
  }

  // ---------------------------------------------------------------- limits that do not

  function Times(w: bytes, n: nat): bytes {
    if n == 0 then [] else w + Times(w, n - 1)
  }

  lemma {:induction false} TimesLength(w: bytes, n: nat)
    ensures |Times(w, n)| == |w| * n
  {
    if n > 0 {
      TimesLength(w, n - 1);
    }
  }

  function Frames(k: nat): (r: seq<Frame>)
    ensures |r| == k && forall i :: 0 <= i < k ==> r[i] == Frame(i, false)
  {
    seq(k, i requires 0 <= i < k => Frame(i, false))
  }

  /** `k` lists are open, and nothing else; `n` tokens have been pushed. */
  predicate InNest(d: Decoder, k: nat, n: nat) {
    && |d.tokens| == n >= k && d.stack == Frames(k)
    && forall i :: 0 <= i < k ==> d.tokens[i].kind == ListToken
  }

  /** One more list is opened. */
  lemma OpenOne(b: bytes, depthLimit: nat, d: Decoder, k: nat) returns (e: Decoder)
    requires IsBuffer(b) && d.pos < End(b) && b[d.pos] == 'l' && k < depthLimit && d.limit > 0 && InNest(d, k, k)
    ensures OneToken(b, depthLimit, d) == Step.Next(e)
    ensures e.pos == d.pos + 1 && e.limit == d.limit - 1 && InNest(e, k + 1, k + 1)
  {
    e := Open(d.(limit := d.limit - 1), ListToken);
    assert e.stack == Frames(k + 1);
  }

  lemma {:induction false} OpenAll(b: bytes, depthLimit: nat, d: Decoder, k: nat, m: nat) returns (e: Decoder)
    requires IsBuffer(b) && Has(b, d.pos, Times("l", m)) && d.pos + m <= End(b) && k + m <= depthLimit && d.limit >= m
    requires InNest(d, k, k)
    ensures e.pos == d.pos + m && e.limit == d.limit - m && InNest(e, k + m, k + m)
    ensures Run(b, depthLimit, d) == Run(b, depthLimit, e)
    decreases m
  {
    hide OneToken, InNest;
    e := d;
    if m > 0 {
      TimesLength("l", m - 1);
      HasConcat(b, d.pos, "l", Times("l", m - 1));
      HasAt(b, d.pos, "l", 0);
      var f := OpenOne(b, depthLimit, d, k);
      OneTokenMoves(b, depthLimit, d) by { NestFrames(d, k, k); }
      NestFrames(f, k + 1, k + 1);
      e := OpenAll(b, depthLimit, f, k + 1, m - 1);
    }
  }

  lemma NestFrames(d: Decoder, k: nat, n: nat)
    requires InNest(d, k, n)
    ensures FramesOk(d)
  {
  }

  /** An empty string. */
  lemma StringOne(b: bytes, depthLimit: nat, d: Decoder, k: nat) returns (e: Decoder)
    requires IsBuffer(b) && Has(b, d.pos, "0:") && d.pos + 2 < End(b)
    requires 0 < k < depthLimit && d.limit > 0 && InNest(d, k, k)
    ensures OneToken(b, depthLimit, d) == Step.Next(e)
    ensures e.pos == d.pos + 2 && e.limit == d.limit - 1 && InNest(e, k, k + 1)
  {
    HasAt(b, d.pos, "0:", 0);
    HasAt(b, d.pos, "0:", 1);
    assert "0:"[0] == '0' && "0:"[1] == ':';
    assert ParseInt(b, d.pos + 1, End(b), ':', 0) == ParsedInt(d.pos + 1, 0, None);
    assert !d.tokens[d.stack[k - 1].token].kind.DictToken?;
    e := Decoder(d.pos + 2, d.tokens + [Token(d.pos, StringToken, 1, 0)], d.stack, d.limit - 1);
  }

  /** A list without items. */
  lemma PairOne(b: bytes, depthLimit: nat, d: Decoder, k: nat, n: nat) returns (f: Decoder, e: Decoder)
    requires IsBuffer(b) && Has(b, d.pos, "le") && 0 < k && k + 1 < depthLimit && d.limit > 1 && InNest(d, k, n)
    requires d.pos + 2 <= End(b)
    ensures OneToken(b, depthLimit, d) == Step.Next(f) && f.pos == d.pos + 1 && FramesOk(f)
    ensures OneToken(b, depthLimit, f) == Step.Next(e)
    ensures e.pos == d.pos + 2 && e.limit == d.limit - 2 && InNest(e, k, n + 2)
  {
    HasAt(b, d.pos, "le", 0);
    HasAt(b, d.pos, "le", 1);
    assert "le"[0] == 'l' && "le"[1] == 'e';
    assert !d.tokens[d.stack[k - 1].token].kind.DictToken?;
    f := Decoder(d.pos + 1, d.tokens + [Token(d.pos, ListToken, 0, 0)], d.stack + [Frame(n, false)], d.limit - 1);
    var all := f.tokens + [Token(f.pos, EndToken, 1, 0)];
    assert f.stack[..k] == d.stack;
    e := Decoder(d.pos + 2, Patched(all, n, 2), d.stack, d.limit - 2);
  }

  lemma {:induction false} PairAll(b: bytes, depthLimit: nat, d: Decoder, k: nat, n: nat, m: nat) returns (e: Decoder)
    requires IsBuffer(b) && Has(b, d.pos, Times("le", m)) && d.pos + 2 * m <= End(b) && 0 < k && k + 1 < depthLimit
    requires d.limit >= 2 * m && InNest(d, k, n)
    ensures e.pos == d.pos + 2 * m && e.limit == d.limit - 2 * m && InNest(e, k, n + 2 * m)
    ensures Run(b, depthLimit, d) == Run(b, depthLimit, e)
    decreases m
  {
    hide OneToken, InNest;
    NestFrames(d, k, n);
    e := d;
    if m > 0 {
      TimesLength("le", m - 1);
      HasConcat(b, d.pos, "le", Times("le", m - 1));
      var f, g := PairOne(b, depthLimit, d, k, n);
      OneTokenMoves(b, depthLimit, d);
      OneTokenMoves(b, depthLimit, f);
      e := PairAll(b, depthLimit, g, k, n + 2, m - 1);
    }
  }

  /** Unwinding open lists: each `next` is to lead over all that follows it. */
  lemma {:induction false} UnwindLists(t: seq<Token>, k: nat, pos: nat)
    requires k <= |t| && forall i :: 0 <= i < k ==> t[i].kind == ListToken
    ensures var u := Unwind(t, Frames(k), pos);
            && |u| == |t| + k + 1
            && (forall i :: 0 <= i < k ==> u[i].kind == ListToken && u[i].next == Bits29(|t| + k - 1 - 2 * i))
            && forall i :: k <= i < |t| ==> u[i] == t[i]
    decreases k
  {
    hide Bits29;
    if k > 0 {
      var stack := Frames(k);
      assert stack[..k - 1] == Frames(k - 1);
      var u := Patched(t, k - 1, |t| - (k - 1)) + [Token(pos, EndToken, 1, 0)];
      UnwindLists(u, k - 1, pos);
      assert Unwind(t, stack, pos) == Unwind(u, Frames(k - 1), pos);
    }
  }

  /** `k` lists that are not closed, the innermost with an empty string and `m` empty lists. */
  function Nest(k: nat, m: nat): bytes {
    Times("l", k) + ("0:" + Times("le", m))
  }

  /**
   * Such a buffer leaves `2 * (k + m + 1)` tokens under any limits that let all of
   * it be read, and the second of them is a list whose `next` is cut to 29 bits.
   */
  lemma NestDecoded(b: bytes, k: nat, m: nat, depthLimit: nat, tokenLimit: nat)
    requires IsBuffer(b) && k >= 2 && m >= 1 && End(b) == |Nest(k, m)| <= MAX_OFFSET && Has(b, 0, Nest(k, m))
    requires k + 1 < depthLimit && k + 1 + 2 * m <= tokenLimit
    ensures End(b) == k + 2 + 2 * m
    ensures var r := Decode(b, depthLimit, tokenLimit);
            && r.error == Some(UnexpectedEof) && |r.tokens| == 2 * (k + m + 1)
            && r.tokens[0].kind == ListToken && r.tokens[1].kind == ListToken
            && r.tokens[1].next == Bits29(2 * (k + m - 1))
  {
    hide OneToken, InNest, Bits29;
    TimesLength("l", k);
    TimesLength("le", m);
    HasConcat(b, 0, Times("l", k), "0:" + Times("le", m));
    HasConcat(b, k, "0:", Times("le", m));
    var d := Start(tokenLimit);
    NestStart(tokenLimit);
    var e := OpenAll(b, depthLimit, d, 0, k);
    NestFrames(e, k, k);
    var f := StringOne(b, depthLimit, e, k);
    OneTokenMoves(b, depthLimit, e);
    var g := PairAll(b, depthLimit, f, k, k + 1, m);
    NestEnds(b, depthLimit, g, k, k + 1 + 2 * m);
  }

  lemma NestStart(tokenLimit: nat)
    ensures InNest(Start(tokenLimit), 0, 0)
  {
    assert Frames(0) == [];
  }

  lemma NestEnds(b: bytes, depthLimit: nat, d: Decoder, k: nat, n: nat)
    requires IsBuffer(b) && d.pos == End(b) && InNest(d, k, n) && k >= 2
    ensures FramesOk(d)
    ensures var r := Run(b, depthLimit, d);
            && r.error == Some(UnexpectedEof) && |r.tokens| == n + k + 1
            && r.tokens[0].kind == ListToken && r.tokens[1].kind == ListToken && r.tokens[1].next == Bits29(n + k - 3)
  {
    hide Bits29;
    UnwindLists(d.tokens, k, d.pos);
  }

  /** With one more token than `next` can lead over, the root no longer leads to its end. */
  lemma TooManyTokens(b: bytes, k: nat, m: nat, depthLimit: nat, tokenLimit: nat)
    requires IsBuffer(b) && k >= 2 && m >= 1 && End(b) == |Nest(k, m)| <= MAX_OFFSET && Has(b, 0, Nest(k, m))
    requires k + 1 < depthLimit && k + 1 + 2 * m <= tokenLimit
    ensures Linked(Decode(b, depthLimit, tokenLimit).tokens) <==> 2 * (k + m) <= MAX_NEXT_ITEM
  {
    hide Linked, Run;
    NestDecoded(b, k, m, depthLimit, tokenLimit);
    LinkedExactly(b, depthLimit, tokenLimit);
  }

  /**
   * A buffer of 2^29 - 1 bytes, the longest that is taken: five lists that are not
   * closed, an empty string, and empty lists. The second list is given the distance
   * 2^29, which is stored as 0, and walking through the root never gets past it.
   */
  lemma NestNotWalkable(b: bytes)
    requires IsBuffer(b) && End(b) == |Nest(5, 0x0FFF_FFFC)| && Has(b, 0, Nest(5, 0x0FFF_FFFC))
    ensures End(b) == MAX_OFFSET
    ensures !Walkable(Decode(b, 7, 0x1FFF_FFFF).tokens)
  {
    hide Decode;
    TimesLength("l", 5);
    TimesLength("le", 0x0FFF_FFFC);
    NestDecoded(b, 5, 0x0FFF_FFFC, 7, 0x1FFF_FFFF);
    StuckRoot(Decode(b, 7, 0x1FFF_FFFF).tokens);
  }

  lemma StuckRoot(t: seq<Token>)
    requires |t| > 1 && t[0].kind == ListToken && t[1].kind == ListToken && t[1].next == 0
    ensures !Walkable(t)
  {
  }
}
