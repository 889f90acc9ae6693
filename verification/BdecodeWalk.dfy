/** Whatever the input, the tokens can be walked: the decoder's invariant, and what the unwinding makes of it. */
module BdecodeWalk {
  import opened Bytes
  import opened Bdecode

  // ---------------------------------------------------------------- walks

  /**
   * Following `next` from `j` stays within the tokens and ends at an end token. In a dictionary the items
   * alternate between names, which are strings, and values, and the walk ends where a name could come;
   * `value` says that a value comes first.
   */
  predicate Walks(t: seq<Token>, j: nat, dict: bool, value: bool)
    decreases |t| - j
  {
    j < |t|
    && if t[j].kind.EndToken? then !value
       else
         && (dict && !value ==> t[j].kind.StringToken?)
         && t[j].next >= 1
         && Walks(t, j + t[j].next, dict, dict && !value)
  }

  /** From the token of a container. */
  predicate ContainerWalks(t: seq<Token>, i: nat)
    requires i < |t|
  {
    IsContainer(t[i]) ==> Walks(t, i + 1, t[i].kind.DictToken?, false)
  }

  /** Every container can be walked, no `next` leads past the last token, and that is an end token. */
  predicate Walkable(t: seq<Token>) {
    && t != [] && t[|t| - 1].kind.EndToken?
    && forall i :: 0 <= i < |t| ==> i + t[i].next < |t| && ContainerWalks(t, i)
  }

  // ---------------------------------------------------------------- complete items

  /** Complete items from `i` to `j`; from waiting for a value or not to doing so or not. */
  predicate Items(t: seq<Token>, i: nat, j: nat, dict: bool, value: bool, after: bool)
    decreases j - i, 1
  {
    i <= j <= |t|
    && if i == j then value == after
       else
         && (dict && !value ==> t[i].kind.StringToken?)
         && 1 <= t[i].next <= j - i
         && Complete(t, i)
         && Items(t, i + t[i].next, j, dict, dict && !value, after)
  }

  /** A string or integer, or a container whose `next` leads past its own end token. */
  predicate Complete(t: seq<Token>, i: nat)
    requires i < |t|
    decreases t[i].next, 0
  {
    match t[i].kind
    case StringToken | IntegerToken => t[i].next == 1
    case DictToken | ListToken =>
      && t[i].next >= 2 && i + t[i].next <= |t|
      && t[i + t[i].next - 1].kind.EndToken? && t[i + t[i].next - 1].next <= 1
      && Items(t, i + 1, i + t[i].next - 1, t[i].kind.DictToken?, false, false)
    case EndToken => false
  }

  /** The tokens from `i` to `j` are the same in both. */
  predicate SameTokens(t: seq<Token>, u: seq<Token>, i: nat, j: nat) {
    j <= |t| && j <= |u| && forall k :: i <= k < j ==> t[k] == u[k]
  }

  lemma {:induction false} ItemsFrame(t: seq<Token>, u: seq<Token>, i: nat, j: nat, dict: bool, value: bool,
                                      after: bool)
    requires Items(t, i, j, dict, value, after) && SameTokens(t, u, i, j)
    ensures Items(u, i, j, dict, value, after)
    decreases j - i, 1
  {
    if i < j {
      CompleteFrame(t, u, i);
      ItemsFrame(t, u, i + t[i].next, j, dict, dict && !value, after);
    }
  }

  lemma {:induction false} CompleteFrame(t: seq<Token>, u: seq<Token>, i: nat)
    requires i < |t| && Complete(t, i) && i < |u| && SameTokens(t, u, i, i + t[i].next)
    ensures Complete(u, i)
    decreases t[i].next, 0
  {
    if IsContainer(t[i]) {
      ItemsFrame(t, u, i + 1, i + t[i].next - 1, t[i].kind.DictToken?, false, false);
    }
  }

  /** One more complete item. */
  lemma {:induction false} ItemsAppend(t: seq<Token>, i: nat, j: nat, dict: bool, value: bool, after: bool)
    requires Items(t, i, j, dict, value, after) && j < |t| && Complete(t, j) && j + t[j].next <= |t|
    requires dict && !after ==> t[j].kind.StringToken?
    requires !dict ==> !value && !after
    ensures Items(t, i, j + t[j].next, dict, value, dict && !after)
    decreases j - i
  {
    if i < j {
      ItemsAppend(t, i + t[i].next, j, dict, dict && !value, after);
    }
  }

  /** A walk goes through complete items. */
  lemma {:induction false} ItemsWalk(t: seq<Token>, i: nat, j: nat, dict: bool, value: bool, after: bool)
    requires Items(t, i, j, dict, value, after) && Walks(t, j, dict, after)
    ensures Walks(t, i, dict, value)
    decreases j - i
  {
    if i < j {
      ItemsWalk(t, i + t[i].next, j, dict, dict && !value, after);
    }
  }

  /** All is well with the tokens from `lo` on; `next` may lead up to the end. */
  predicate WellFrom(t: seq<Token>, lo: nat) {
    forall i :: lo <= i < |t| ==> i + t[i].next <= |t| && ContainerWalks(t, i)
  }

  /** All is well inside complete items. */
  lemma {:induction false} ItemsInside(t: seq<Token>, i: nat, j: nat, dict: bool, value: bool, after: bool)
    requires Items(t, i, j, dict, value, after)
    ensures forall k :: i <= k < j ==> k + t[k].next <= j && ContainerWalks(t, k)
    decreases j - i, 1
  {
    if i < j {
      CompleteInside(t, i);
      ItemsInside(t, i + t[i].next, j, dict, dict && !value, after);
    }
  }

  lemma {:induction false} CompleteInside(t: seq<Token>, i: nat)
    requires i < |t| && Complete(t, i)
    ensures i + t[i].next <= |t|
    ensures forall k :: i <= k < i + t[i].next ==> k + t[k].next <= i + t[i].next && ContainerWalks(t, k)
    decreases t[i].next, 0
  {
    if IsContainer(t[i]) {
      var end, dict := i + t[i].next - 1, t[i].kind.DictToken?;
      ItemsInside(t, i + 1, end, dict, false, false);
      ItemsWalk(t, i + 1, end, dict, false, false);
    }
  }

  /** A walk does not look back. */
  lemma {:induction false} WalkFrame(t: seq<Token>, u: seq<Token>, j: nat, dict: bool, value: bool)
    requires Walks(t, j, dict, value) && SameTokens(t, u, j, |t|)
    ensures Walks(u, j, dict, value)
    decreases |t| - j
  {
    if !t[j].kind.EndToken? {
      WalkFrame(t, u, j + t[j].next, dict, dict && !value);
    }
  }

  lemma WellFrame(t: seq<Token>, u: seq<Token>, lo: nat)
    requires WellFrom(t, lo) && SameTokens(t, u, lo, |t|)
    ensures forall i :: lo <= i < |t| ==> i + u[i].next <= |t| && ContainerWalks(u, i)
  {
    forall i | lo <= i < |t| ensures i + u[i].next <= |t| && ContainerWalks(u, i) {
      assert ContainerWalks(t, i);
      if IsContainer(t[i]) {
        WalkFrame(t, u, i + 1, t[i].kind.DictToken?, false);
      }
    }
  }

  // ---------------------------------------------------------------- the open containers

  /**
   * The open containers, outermost first, fill the tokens up to `hi`: after the token of each come complete
   * items, then the token of the next one. `inner` says that a container is open inside the last, which a
   * dictionary then counts as the value it waited for.
   */
  predicate OpenUpTo(t: seq<Token>, stack: seq<Frame>, hi: nat, inner: bool)
    decreases |stack|
  {
    if stack == [] then hi == 0
    else
      var top := stack[|stack| - 1];
      && top.token < hi <= |t| && IsContainer(t[top.token])
      && var dict := t[top.token].kind.DictToken?;
         && (!dict || inner ==> !top.value)
         && Items(t, top.token + 1, hi, dict, false, if inner then dict else top.value)
         && OpenUpTo(t, stack[..|stack| - 1], top.token, true)
  }

  lemma {:induction false} OpenFrame(t: seq<Token>, u: seq<Token>, stack: seq<Frame>, hi: nat, inner: bool)
    requires OpenUpTo(t, stack, hi, inner) && SameTokens(t, u, 0, hi)
    ensures OpenUpTo(u, stack, hi, inner)
    decreases |stack|
  {
    if stack != [] {
      var top := stack[|stack| - 1];
      var dict := t[top.token].kind.DictToken?;
      ItemsFrame(t, u, top.token + 1, hi, dict, false, if inner then dict else top.value);
      OpenFrame(t, u, stack[..|stack| - 1], top.token, true);
    }
  }

  lemma {:induction false} OpenFrames(t: seq<Token>, stack: seq<Frame>, hi: nat, inner: bool)
    requires OpenUpTo(t, stack, hi, inner)
    ensures forall k :: 0 <= k < |stack| ==> stack[k].token < hi
    decreases |stack|
  {
    if stack != [] {
      OpenFrames(t, stack[..|stack| - 1], stack[|stack| - 1].token, true);
    }
  }

  /** The main loop's invariant. Every token stands for at least one byte. */
  predicate Good(d: Decoder) {
    FramesOk(d) && |d.tokens| <= d.pos && OpenUpTo(d.tokens, d.stack, |d.tokens|, false)
  }

  /** The end of the main loop: one complete item. */
  predicate Whole(d: Decoder) {
    d.stack == [] && d.tokens != [] && |d.tokens| <= d.pos && Complete(d.tokens, 0) && d.tokens[0].next == |d.tokens|
  }

  lemma ToggledGood(d: Decoder, u: seq<Token>)
    requires Good(d) && d.stack != [] && SameTokens(d.tokens, u, 0, |d.tokens|) && |d.tokens| < |u|
    requires Complete(u, |d.tokens|) && |d.tokens| + u[|d.tokens|].next == |u|
    requires InDict(d) && !Top(d).value ==> u[|d.tokens|].kind.StringToken?
    ensures OpenUpTo(u, Toggled(d).stack, |u|, false)
  {
    var top, n, stack := Top(d), |d.tokens|, Toggled(d).stack;
    var dict := d.tokens[top.token].kind.DictToken?;
    OpenFrame(d.tokens, u, d.stack, n, false);
    ItemsAppend(u, top.token + 1, n, dict, false, top.value);
    assert stack[..|stack| - 1] == d.stack[..|d.stack| - 1];
  }

  lemma ScalarGood(d: Decoder, token: Token, pos: nat)
    requires Good(d) && pos > d.pos && (token.kind.StringToken? || token.kind.IntegerToken?) && token.next == 1
    requires InDict(d) && !Top(d).value ==> token.kind.StringToken?
    ensures var s := Scalar(d, token, pos);
            (s.Next? ==> Good(s.d)) && (s.Finished? ==> Whole(s.d)) && !s.Failed?
  {
    var u := d.tokens + [token];
    assert Complete(u, |d.tokens|);
    if d.stack != [] {
      ToggledGood(d, u);
      OpenFrames(u, Toggled(d).stack, |u|, false);
    }
  }

  lemma OpenGood(d: Decoder, kind: Kind)
    requires Good(d) && (kind.DictToken? || kind.ListToken?) && !(InDict(d) && !Top(d).value)
    ensures Good(Open(d, kind))
  {
    hide Items;
    var n, stack, u := |d.tokens|, Toggled(d).stack, Open(d, kind).tokens;
    OpenFrame(d.tokens, u, d.stack, n, false);
    OpenTaken(d, u, n);
    var all := stack + [Frame(n, false)];
    assert all[..|all| - 1] == stack;
    OpenFrames(u, stack, n, true);
    assert Items(u, n + 1, n + 1, kind.DictToken?, false, false) by { NoItems(u, n + 1, kind.DictToken?); }
  }

  lemma NoItems(t: seq<Token>, i: nat, dict: bool)
    requires i <= |t|
    ensures Items(t, i, i, dict, false, false)
  {
  }

  /** The innermost container takes the one being opened for its next item. */
  lemma OpenTaken(d: Decoder, u: seq<Token>, n: nat)
    requires FramesOk(d) && !(InDict(d) && !Top(d).value) && OpenUpTo(u, d.stack, n, false)
    requires n == |d.tokens| <= |u| && SameTokens(d.tokens, u, 0, n)
    ensures OpenUpTo(u, Toggled(d).stack, n, true)
  {
    hide Items;
    if d.stack != [] {
      var stack := Toggled(d).stack;
      assert stack[..|stack| - 1] == d.stack[..|d.stack| - 1];
    }
  }

  /** A container that is closed becomes a complete item, with everything below it as it was. */
  lemma ClosedComplete(d: Decoder, u: seq<Token>)
    requires Good(d) && d.stack != [] && !(InDict(d) && Top(d).value)
    requires |d.tokens| < MAX_NEXT_ITEM
    requires u == Patched(d.tokens + [Token(d.pos, EndToken, 1, 0)], Top(d).token, |d.tokens| + 1 - Top(d).token)
    ensures var top := Top(d).token;
            && Complete(u, top) && top + u[top].next == |u| && OpenUpTo(u, d.stack[..|d.stack| - 1], top, true)
  {
    var n, top, stack := |d.tokens|, Top(d).token, d.stack[..|d.stack| - 1];
    var dict := d.tokens[top].kind.DictToken?;
    ItemsFrame(d.tokens, u, top + 1, n, dict, false, false);
    OpenFrame(d.tokens, u, stack, top, true);
  }

  /** The container below takes a complete container for its next item. */
  lemma OpenTakes(u: seq<Token>, stack: seq<Frame>, top: nat)
    requires stack != [] && OpenUpTo(u, stack, top, true)
    requires top < |u| && IsContainer(u[top]) && Complete(u, top) && top + u[top].next == |u|
    ensures OpenUpTo(u, stack, |u|, false)
    ensures forall k :: 0 <= k < |stack| ==> stack[k].token < |u|
  {
    hide Complete;
    var out := stack[|stack| - 1];
    var outer := u[out.token].kind.DictToken?;
    ItemsAppend(u, out.token + 1, top, outer, false, outer);
    OpenFrames(u, stack, top, true);
  }

  /** The `next` of a container that ends within the buffer always fits. */
  lemma CloseGood(d: Decoder)
    requires Good(d) && d.pos < MAX_NEXT_ITEM
    ensures var s := Close(d);
            && (s.Next? ==> Good(s.d)) && (s.Finished? ==> Whole(s.d))
            && (s.Failed? ==> s.d == d && s.code != LimitExceeded)
  {
    hide OpenUpTo, Complete;
    if d.stack != [] && !(InDict(d) && Top(d).value) {
      var top, stack, u := Top(d).token, d.stack[..|d.stack| - 1], Close(d).d.tokens;
      ClosedComplete(d, u);
      TopIsContainer(d);
      if stack != [] {
        OpenTakes(u, stack, top);
      } else {
        assert top == 0 by { OutermostFirst(u, top); }
      }
    }
  }

  lemma TopIsContainer(d: Decoder)
    requires Good(d) && d.stack != []
    ensures IsContainer(d.tokens[Top(d).token])
  {
  }

  lemma OutermostFirst(u: seq<Token>, hi: nat)
    requires OpenUpTo(u, [], hi, true)
    ensures hi == 0
  {
  }

  /** What a step may leave. */
  predicate StepGood(s: Step) {
    if s.Finished? then Whole(s.d) else Good(s.d)
  }

  /** Every step of the main loop keeps the invariant. */
  lemma OneTokenGood(b: bytes, depthLimit: nat, d: Decoder)
    requires IsBuffer(b) && End(b) <= MAX_OFFSET && d.pos <= End(b) && Good(d)
    ensures StepGood(OneToken(b, depthLimit, d))
  {
    hide Items, OpenUpTo, Toggled, CheckInteger, ParseInt, Complete, Open, Close;
    if d.pos < End(b) && |d.stack| < depthLimit && d.limit > 0 {
      var e, t := d.(limit := d.limit - 1), b[d.pos];
      if InDict(e) && !Top(e).value && !IsDigit(t) && t != 'e' {
      } else if t == 'd' {
        OpenGood(e, DictToken);
      } else if t == 'l' {
        OpenGood(e, ListToken);
      } else if t == 'e' {
        CloseGood(e);
      } else if t == 'i' {
        var c := CheckInteger(b, d.pos + 1);
        if c.error.None? {
          ScalarGood(e, Token(d.pos, IntegerToken, 1, 0), c.pos + 1);
        }
      } else if IsDigit(t) {
        var p := ParseInt(b, d.pos + 1, End(b), ':', DigitValue(t));
        if p.error.None? {
          ScalarGood(e, Token(d.pos, StringToken, 1, p.pos + 1 - d.pos - 2), p.pos + 1 + p.val);
        }
      }
    }
  }

  // ---------------------------------------------------------------- the unwinding

  lemma LastEnd(t: seq<Token>, pos: nat)
    requires WellFrom(t, 0)
    ensures Walkable(t + [Token(pos, EndToken, 0, 0)])
  {
    var u := t + [Token(pos, EndToken, 0, 0)];
    WellFrame(t, u, 0);
  }

  /** An open container whose items end at `hi`, with everything after its token settled, gets its end token. */
  function Ended(t: seq<Token>, i: nat, pos: nat): (u: seq<Token>)
    requires i < |t|
    ensures |u| == |t| + 1
  {
    Patched(t, i, |t| - i) + [Token(pos, EndToken, 1, 0)]
  }

  /** It is walked from its first item to that end token, and so is everything inside it. */
  lemma EndedWell(t: seq<Token>, p: nat, hi: nat, pos: nat, after: bool)
    requires p < hi <= |t| && IsContainer(t[p])
    requires var dict := t[p].kind.DictToken?; Items(t, p + 1, hi, dict, false, after) && (!dict ==> !after)
    requires hi == |t| ==> !after
    requires hi < |t| ==>
               && IsContainer(t[hi]) && t[hi].next >= 1 && hi + t[hi].next < |t| && t[hi + t[hi].next].kind.EndToken?
               && after == t[p].kind.DictToken?
    requires WellFrom(t, hi) && |t| - p <= MAX_NEXT_ITEM
    ensures WellFrom(Ended(t, p, pos), p)
  {
    var u, dict := Ended(t, p, pos), t[p].kind.DictToken?;
    ItemsFrame(t, u, p + 1, hi, dict, false, after);
    ItemsInside(u, p + 1, hi, dict, false, after);
    WellFrame(t, u, hi);
    assert Walks(u, hi, dict, after) by {
      if hi < |t| {
        assert u[hi + t[hi].next].kind.EndToken?;
      }
    }
    ItemsWalk(u, p + 1, hi, dict, false, after);
  }

  /** The unwinding adds an end token for each container, and one. */
  lemma {:induction false} UnwindGrows(t: seq<Token>, stack: seq<Frame>, pos: nat)
    requires forall k :: 0 <= k < |stack| ==> stack[k].token < |t|
    ensures |Unwind(t, stack, pos)| >= |t| + |stack| + 1
    decreases |stack|
  {
    if stack != [] {
      var top := stack[|stack| - 1];
      var v := WithDummy(t, top, pos);
      UnwindGrows(Patched(v, top.token, |v| - top.token) + [Token(pos, EndToken, 1, 0)], stack[..|stack| - 1], pos);
    }
  }

  /** As many tokens as `next` can lead over: from the first to the one before the last. */
  const MAX_TOKENS: nat := MAX_NEXT_ITEM + 2

  /** The unwinding below a container that was just ended. */
  lemma {:induction false} UnwindBelow(t: seq<Token>, stack: seq<Frame>, hi: nat, pos: nat)
    requires OpenUpTo(t, stack, hi, true) && hi < |t| && WellFrom(t, hi)
    requires IsContainer(t[hi]) && t[hi].next >= 1 && hi + t[hi].next < |t| && t[hi + t[hi].next].kind.EndToken?
    requires (forall k :: 0 <= k < |stack| ==> stack[k].token < |t|) && |Unwind(t, stack, pos)| <= MAX_TOKENS
    ensures Walkable(Unwind(t, stack, pos))
    decreases |stack|
  {
    hide Walkable, Items, Walks, WellFrom;
    UnwindGrows(t, stack, pos);
    if stack == [] {
      LastEnd(t, pos);
    } else {
      var below, p := stack[..|stack| - 1], stack[|stack| - 1].token;
      NoDummy(t, stack, hi, pos);
      var u := Ended(t, p, pos);
      EndedWell(t, p, hi, pos, t[p].kind.DictToken?);
      OpenFrame(t, u, below, p, true);
      UnwindBelow(u, below, p, pos);
    }
  }

  /** Only the innermost open container can lack a value. */
  lemma NoDummy(t: seq<Token>, stack: seq<Frame>, hi: nat, pos: nat)
    requires stack != [] && OpenUpTo(t, stack, hi, true) && stack[|stack| - 1].token < |t|
    ensures WithDummy(t, stack[|stack| - 1], pos) == t
  {
  }

  lemma DummyItems(t: seq<Token>, top: Frame, pos: nat)
    requires top.token < |t| && IsContainer(t[top.token])
    requires var dict := t[top.token].kind.DictToken?;
             (!dict ==> !top.value) && Items(t, top.token + 1, |t|, dict, false, top.value)
    ensures var u := WithDummy(t, top, pos);
            Items(u, top.token + 1, |u|, t[top.token].kind.DictToken?, false, false)
  {
    var u, dict := WithDummy(t, top, pos), t[top.token].kind.DictToken?;
    ItemsFrame(t, u, top.token + 1, |t|, dict, false, top.value);
    if dict && top.value {
      assert Complete(u, |t|);
      ItemsAppend(u, top.token + 1, |t|, dict, false, true);
    }
  }

  lemma UnwindWalkable(t: seq<Token>, stack: seq<Frame>, pos: nat)
    requires OpenUpTo(t, stack, |t|, false) && forall k :: 0 <= k < |stack| ==> stack[k].token < |t|
    requires |Unwind(t, stack, pos)| <= MAX_TOKENS
    ensures Walkable(Unwind(t, stack, pos))
  {
    hide Walkable, Items, Walks;
    if stack == [] {
      LastEnd(t, pos);
    } else {
      var below, top := stack[..|stack| - 1], stack[|stack| - 1];
      var v := WithDummy(t, top, pos);
      var u := Ended(v, top.token, pos);
      UnwindGrows(u, below, pos);
      DummyItems(t, top, pos);
      EndedWell(v, top.token, |v|, pos, false);
      OpenFrame(t, u, below, top.token, true);
      UnwindBelow(u, below, top.token, pos);
    }
  }

  lemma WholeWalkable(d: Decoder)
    requires Whole(d)
    ensures Walkable(Unwind(d.tokens, d.stack, d.pos))
  {
    CompleteInside(d.tokens, 0);
    LastEnd(d.tokens, d.pos);
  }

  // ---------------------------------------------------------------- the root

  /** The outermost open container is the first token. */
  lemma {:induction false} OutermostOpen(t: seq<Token>, stack: seq<Frame>, hi: nat, inner: bool)
    requires stack != [] && OpenUpTo(t, stack, hi, inner)
    ensures stack[0].token == 0 && hi > 0 && IsContainer(t[0]) && forall k :: 0 < k < |stack| ==> stack[k].token > 0
    decreases |stack|
  {
    hide Items;
    if |stack| > 1 {
      OutermostOpen(t, stack[..|stack| - 1], stack[|stack| - 1].token, true);
    }
  }

  /** The unwinding ends with it: its `next` is to lead to the end token before the last. */
  lemma {:induction false} UnwindRoot(t: seq<Token>, stack: seq<Frame>, pos: nat)
    requires stack != [] && forall k :: 0 <= k < |stack| ==> stack[k].token < |t|
    requires stack[0].token == 0 && IsContainer(t[0]) && forall k :: 0 < k < |stack| ==> stack[k].token > 0
    ensures var u := Unwind(t, stack, pos); |u| >= 2 && IsContainer(u[0]) && u[0].next == Bits29(|u| - 2)
    decreases |stack|
  {
    hide Bits29;
    var top, below := stack[|stack| - 1], stack[..|stack| - 1];
    var v := WithDummy(t, top, pos);
    var u := Patched(v, top.token, |v| - top.token) + [Token(pos, EndToken, 1, 0)];
    if below == [] {
      assert Unwind(t, stack, pos) == u + [Token(pos, EndToken, 0, 0)];
    } else {
      UnwindRoot(u, below, pos);
    }
  }

  /** The tokens can be walked, and the root's `next` leads to its end token, or to the last one behind it. */
  predicate Linked(t: seq<Token>) {
    Walkable(t) && (IsContainer(t[0]) ==> |t| - 2 <= t[0].next)
  }

  /** After a failure the tokens are linked exactly if there are not too many of them. */
  lemma UnwindLinked(d: Decoder)
    requires Good(d)
    ensures var t := Unwind(d.tokens, d.stack, d.pos); Linked(t) <==> |t| <= MAX_TOKENS
  {
    hide OpenUpTo, Walkable;
    var t := Unwind(d.tokens, d.stack, d.pos);
    if d.stack == [] {
      NothingOpen(d);
      UnwindWalkable(d.tokens, d.stack, d.pos);
    } else {
      OutermostOpen(d.tokens, d.stack, |d.tokens|, false);
      UnwindRoot(d.tokens, d.stack, d.pos);
      if |t| <= MAX_TOKENS {
        UnwindWalkable(d.tokens, d.stack, d.pos);
      }
    }
  }

  lemma NothingOpen(d: Decoder)
    requires Good(d) && d.stack == []
    ensures d.tokens == [] && Unwind(d.tokens, d.stack, d.pos) == [Token(d.pos, EndToken, 0, 0)]
  {
  }

  /** After a success they always are. */
  lemma WholeLinked(d: Decoder)
    requires Whole(d) && d.pos <= MAX_OFFSET
    ensures var t := Unwind(d.tokens, d.stack, d.pos); Linked(t) && |t| <= MAX_TOKENS
  {
    hide Complete, Walkable;
    WholeWalkable(d);
  }

  lemma {:induction false} RunLinked(b: bytes, depthLimit: nat, d: Decoder)
    requires IsBuffer(b) && End(b) <= MAX_OFFSET && d.pos <= End(b) && Good(d)
    ensures var r := Run(b, depthLimit, d); Linked(r.tokens) <==> |r.tokens| <= MAX_TOKENS
    ensures var r := Run(b, depthLimit, d); r.error.None? ==> |r.tokens| <= MAX_TOKENS
    decreases |b| - d.pos
  {
    hide OneToken, Unwind, Linked, OpenUpTo, Complete;
    OneTokenGood(b, depthLimit, d);
    OneTokenMoves(b, depthLimit, d);
    match OneToken(b, depthLimit, d)
    case Next(n) => RunLinked(b, depthLimit, n);
    case Finished(n) => WholeLinked(n);
    case Failed(n, _, _) => UnwindLinked(n);
  }

  /**
   * Every buffer, whether it decodes or not, leaves tokens that can be walked and
   * whose root leads to its end, exactly if they are no more than `next` can lead
   * over, as they are after a success; only an empty or oversized buffer leaves none.
   */
  lemma LinkedExactly(b: bytes, depthLimit: nat, tokenLimit: int)
    requires IsBuffer(b)
    ensures var t := Decode(b, depthLimit, tokenLimit).tokens;
            if 0 < End(b) <= MAX_OFFSET then Linked(t) <==> |t| <= MAX_TOKENS else t == []
    ensures var r := Decode(b, depthLimit, tokenLimit); r.error.None? ==> |r.tokens| <= MAX_TOKENS
  {
    if 0 < End(b) <= MAX_OFFSET {
      RunLinked(b, depthLimit, Start(tokenLimit));
    }
  }
}
