/** The flat decoder as it runs: tokens pushed and patched in place, and the open containers in a stack array. */
module BdecodeCode {
  import opened Bytes
  import opened Bdecode
  import opened BdecodeWalk
  import opened BdecodeSpans
  import opened BdecodeNode
  import opened BdecodeLimits

  lemma UnwindStep(tokens: seq<Token>, stack: seq<Frame>, pos: nat)
    requires stack != [] && forall k :: 0 <= k < |stack| ==> stack[k].token < |tokens|
    ensures var top := stack[|stack| - 1];
            var t := WithDummy(tokens, top, pos);
            Unwind(tokens, stack, pos)
            == Unwind(Patched(t, top.token, |t| - top.token) + [Token(pos, EndToken, 1, 0)], stack[..|stack| - 1], pos)
  {
  }

  class Decoding {
    const b: bytes
    /** Where the next token starts. */
    var start: nat
    var tokens: seq<Token>
    const stack: array<Frame>
    var sp: nat
    var tokenLimit: int

    constructor (buffer: bytes, depthLimit: nat, limit: int)
      requires IsBuffer(buffer)
      ensures b == buffer && fresh(stack) && stack.Length == depthLimit && sp == 0 && Abs() == Start(limit)
      ensures Valid()
    {
      b, start, tokens, sp, tokenLimit := buffer, 0, [], 0, limit;
      stack := new Frame[depthLimit](_ => Frame(0, false));
      new;
      assert stack[..0] == [];
    }

    function Abs(): Decoder
      requires sp <= stack.Length
      reads this, stack
    {
      Decoder(start, tokens, stack[..sp], tokenLimit)
    }

    predicate Valid()
      reads this, stack
    {
      IsBuffer(b) && sp <= stack.Length && start <= End(b) && FramesOk(Abs())
    }

    /** The item just read belongs to the container at the top of the stack: a dictionary's state changes over. */
    method Toggle(ghost d: Decoder)
      requires Valid() && FramesOk(d) && d.stack == stack[..sp] && d.tokens <= tokens
      modifies stack
      ensures Valid() && stack[..sp] == Toggled(d).stack
    {
      if sp > 0 && tokens[stack[sp - 1].token].kind.DictToken? {
        stack[sp - 1] := Frame(stack[sp - 1].token, !stack[sp - 1].value);
      }
      assert stack[..sp] == Toggled(d).stack;
    }

    /** `d` and `l`. */
    method OpenContainer(kind: Kind)
      requires Valid() && start < End(b) && sp < stack.Length
      modifies this, stack
      ensures Valid() && Abs() == Open(old(Abs()), kind)
    {
      ghost var d := Abs();
      tokens := tokens + [Token(start, kind, 0, 0)];
      Toggle(d);
      stack[sp] := Frame(|tokens| - 1, false);
      sp := sp + 1;
      start := start + 1;
      assert stack[..sp] == Open(d, kind).stack;
    }

    /** A string or an integer that ends before `pos`. */
    method PushScalar(token: Token, pos: nat) returns (done: bool)
      requires Valid() && pos <= End(b)
      modifies this, stack
      ensures Valid()
      ensures Scalar(old(Abs()), token, pos) == if done then Finished(Abs()) else Step.Next(Abs())
    {
      ghost var d := Abs();
      tokens := tokens + [token];
      Toggle(d);
      start := pos;
      done := sp == 0;
    }

    /** `i`. */
    method ParseInteger() returns (done: bool, error: Option<ErrorCode>, errorPos: nat)
      requires Valid() && start < End(b)
      modifies this, stack
      ensures Valid()
      ensures ReadInteger(b, old(Abs())) == Outcome(done, error, errorPos)
    {
      hide Toggled;
      done, errorPos := false, 0;
      var end;
      end, error := CheckIntegerAt(b, start + 1);
      if error.Some? {
        errorPos := end;
        return;
      }
      done := PushScalar(Token(start, IntegerToken, 1, 0), end + 1);
    }

    /** What a round of the loop has led to. */
    function Outcome(done: bool, error: Option<ErrorCode>, errorPos: nat): Step
      requires sp <= stack.Length
      reads this, stack
    {
      if error.Some? then Failed(Abs(), error.value, errorPos)
      else if done then Finished(Abs())
      else Step.Next(Abs())
    }

    /** A string. */
    method ParseString() returns (done: bool, error: Option<ErrorCode>, errorPos: nat)
      requires Valid() && start < End(b)
      modifies this, stack
      ensures Valid()
      ensures ReadString(b, old(Abs())) == Outcome(done, error, errorPos)
    {
      hide ParseInt;
      done := false;
      if !IsDigit(b[start]) {
        return false, Some(ExpectedValue), start;
      }
      var strStart := start;
      var len;
      start, len, error := ParseDigits(b, start + 1, End(b), ':', DigitValue(b[start]));
      errorPos := start;
      if error.Some? {
        return;
      }
      if start + len + 1 > End(b) {
        return false, Some(UnexpectedEof), start;
      }
      start := start + 1;
      if start >= End(b) {
        return false, Some(UnexpectedEof), start;
      }
      if start - strStart > MAX_HEADER + 2 {
        return false, Some(LimitExceeded), start;
      }
      done := PushScalar(Token(strStart, StringToken, 1, start - strStart - 2), start + len);
    }

    /** `e`. */
    method CloseContainer() returns (done: bool, error: Option<ErrorCode>, errorPos: nat)
      requires Valid() && start < End(b)
      modifies this, stack
      ensures Valid()
      ensures Close(old(Abs())) == Outcome(done, error, errorPos)
    {
      ghost var d := Abs();
      done, error, errorPos := false, None, start;
      if sp == 0 {
        return false, Some(UnexpectedEof), start;
      }
      if tokens[stack[sp - 1].token].kind.DictToken? && stack[sp - 1].value {
        return false, Some(ExpectedValue), start;
      }
      tokens := tokens + [Token(start, EndToken, 1, 0)];
      var top := stack[sp - 1].token;
      if |tokens| - top > MAX_NEXT_ITEM {
        return false, Some(LimitExceeded), start;
      }
      tokens := tokens[top := tokens[top].(next := |tokens| - top)];
      sp := sp - 1;
      start := start + 1;
      done := sp == 0;
      assert stack[..sp] == d.stack[..|d.stack| - 1];
    }

    /** One round of the main loop. */
    method Round() returns (done: bool, error: Option<ErrorCode>, errorPos: nat)
      requires Valid()
      modifies this, stack
      ensures Valid()
      ensures OneToken(b, stack.Length, old(Abs())) == Outcome(done, error, errorPos)
    {
      hide Open, Close, ReadInteger, ReadString;
      done, error, errorPos := false, None, start;
      if start >= End(b) {
        return false, Some(UnexpectedEof), start;
      }
      if sp >= stack.Length {
        return false, Some(DepthExceeded), start;
      }
      tokenLimit := tokenLimit - 1;
      if tokenLimit < 0 {
        return false, Some(LimitExceeded), start;
      }
      var t := b[start];
      if sp > 0 && tokens[stack[sp - 1].token].kind.DictToken? && !stack[sp - 1].value && !IsDigit(t) && t != 'e' {
        return false, Some(ExpectedDigit), start;
      }
      if t == 'd' {
        OpenContainer(DictToken);
      } else if t == 'l' {
        OpenContainer(ListToken);
      } else if t == 'i' {
        done, error, errorPos := ParseInteger();
      } else if t == 'e' {
        done, error, errorPos := CloseContainer();
      } else {
        done, error, errorPos := ParseString();
      }
    }

    /** The container at the top of the stack is ended. */
    method UnwindOne()
      requires Valid() && sp > 0
      modifies this
      ensures Valid() && start == old(start) && sp == old(sp) - 1
      ensures Unwind(tokens, stack[..sp], start) == Unwind(old(tokens), old(stack[..sp]), start)
    {
      hide Patched, Unwind;
      ghost var was := stack[..sp];
      UnwindStep(tokens, was, start);
      sp := sp - 1;
      assert was[..sp] == stack[..sp];
      var top := stack[sp];
      if tokens[top.token].kind.DictToken? && top.value {
        tokens := tokens + [Token(start, DictToken, 2, 0), Token(start, EndToken, 0, 0)];
      }
      tokens := Patch(tokens, top.token, |tokens| - top.token);
      tokens := tokens + [Token(start, EndToken, 1, 0)];
    }

    /** The unwinding. */
    method UnwindAll()
      requires Valid()
      modifies this
      ensures tokens == Unwind(old(tokens), old(stack[..sp]), start) && start == old(start)
    {
      ghost var all := Unwind(tokens, stack[..sp], start);
      while sp > 0
        invariant Valid() && start == old(start) && Unwind(tokens, stack[..sp], start) == all
        decreases sp
      {
        UnwindOne();
      }
      assert stack[..sp] == [];
      tokens := tokens + [Token(start, EndToken, 0, 0)];
    }
  }

  method Patch(tokens: seq<Token>, i: nat, next: nat) returns (r: seq<Token>)
    requires i < |tokens|
    ensures r == Patched(tokens, i, next)
  {
    r := tokens[i := tokens[i].(next := Bits29(next))];
  }

  /** check_integer. */
  method CheckIntegerAt(b: bytes, from: nat) returns (pos: nat, error: Option<ErrorCode>)
    requires IsBuffer(b) && from <= End(b)
    ensures Checked(pos, error) == CheckInteger(b, from)
  {
    pos, error := from, None;
    if pos == End(b) {
      return pos, Some(UnexpectedEof);
    }
    if b[pos] == '-' {
      pos := pos + 1;
      if pos == End(b) {
        return pos, Some(UnexpectedEof);
      }
    }
    var digits := 0;
    ghost var all := CheckDigits(b, pos, 0);
    while true
      invariant pos < End(b) && CheckDigits(b, pos, digits) == all && error.None?
      decreases End(b) - pos
    {
      if !IsDigit(b[pos]) {
        error := Some(ExpectedDigit);
        break;
      }
      pos := pos + 1;
      digits := digits + 1;
      if pos == End(b) {
        error := Some(UnexpectedEof);
        break;
      }
      if b[pos] == 'e' {
        break;
      }
    }
    if digits > 20 {
      error := Some(Overflow);
    }
  }

  /** bdecode: fills the node with the tokens, valid or not, unless the buffer is empty or too large. */
  method Decode(b: bytes, ret: Node, depthLimit: nat, tokenLimit: int)
    returns (error: Option<ErrorCode>, errorPos: nat)
    requires IsBuffer(b)
    modifies ret
    ensures var r := Bdecode.Decode(b, depthLimit, tokenLimit);
            && error == r.error && (error.Some? ==> errorPos == r.errorPos)
            && ret.tokens == r.tokens
            && (r.tokens != [] ==> ret.Is(r.tokens, b, r.pos, 0))
    ensures ret.tokenIdx == -1 <==> !(0 < End(b) <= MAX_OFFSET)
    ensures error.None? || (tokenLimit >= 0 && LeavesRoom(End(b), depthLimit, tokenLimit)) ==>
              |ret.tokens| <= MAX_TOKENS
    ensures |ret.tokens| <= MAX_TOKENS ==> ret.Valid()
  {
    error, errorPos := None, 0;
    ret.tokens, ret.tokenIdx := [], -1;
    ret.lastIndex, ret.lastToken, ret.size := -1, -1, -1;
    if End(b) > MAX_OFFSET {
      return Some(LimitExceeded), 0;
    }
    if End(b) == 0 {
      return;
    }
    var d := new Decoding(b, depthLimit, tokenLimit);
    error, errorPos := RunLoop(d);
    ret.tokens, ret.tokenIdx, ret.buffer, ret.bufferSize := d.tokens, 0, b, d.start;
    LinkedExactly(b, depthLimit, tokenLimit);
    RunSpans(b, depthLimit, Start(tokenLimit));
    if tokenLimit >= 0 && LeavesRoom(End(b), depthLimit, tokenLimit) {
      RoomSuffices(b, depthLimit, tokenLimit);
    }
  }

  /** The main loop and the unwinding. */
  method RunLoop(d: Decoding) returns (error: Option<ErrorCode>, errorPos: nat)
    requires d.Valid()
    modifies d, d.stack
    ensures var r := Run(d.b, d.stack.Length, old(d.Abs()));
            error == r.error && (error.Some? ==> errorPos == r.errorPos) && d.tokens == r.tokens && d.start == r.pos
  {
    hide OneToken, Unwind;
    ghost var all := Run(d.b, d.stack.Length, d.Abs());
    error, errorPos := None, 0;
    while true
      invariant d.Valid() && Run(d.b, d.stack.Length, d.Abs()) == all
      invariant error.None?
      decreases |d.b| - d.start
    {
      OneTokenMoves(d.b, d.stack.Length, d.Abs());
      var done;
      done, error, errorPos := d.Round();
      if done || error.Some? {
        break;
      }
    }
    d.UnwindAll();
  }
}
