/** The flat decoder: tokens in one array with relative skip offsets, a stack of open containers, and the unwinding. */
module Bdecode {
  import opened Bytes

  datatype ErrorCode =
    | ExpectedDigit | ExpectedColon | UnexpectedEof | ExpectedValue
    | DepthExceeded | LimitExceeded | Overflow

  datatype Kind = DictToken | ListToken | StringToken | IntegerToken | EndToken

  /** `next` is the distance to the next item; `header` the bytes of a string's length prefix beyond two. */
  datatype Token = Token(offset: nat, kind: Kind, next: nat, header: nat)

  const MAX_OFFSET: nat := 0x1FFF_FFFF
  const MAX_NEXT_ITEM: nat := 0x1FFF_FFFF
  const MAX_HEADER: nat := 7
  const MAX_INT64: nat := 0x7FFF_FFFF_FFFF_FFFF

  predicate IsContainer(t: Token) {
    t.kind.DictToken? || t.kind.ListToken?
  }

  /** An open container; in a dictionary `value` says that a key was read and its value comes next. */
  datatype Frame = Frame(token: nat, value: bool)

  /**
   * The decoder in its main loop. The buffer is followed by one byte that may be read but is not part of it;
   * `limit` is what is left of the token limit.
   */
  datatype Decoder = Decoder(pos: nat, tokens: seq<Token>, stack: seq<Frame>, limit: int)

  /** A buffer with the byte after its end. */
  predicate IsBuffer(b: bytes) {
    b != []
  }

  /** The size of the buffer. */
  function End(b: bytes): nat
    requires IsBuffer(b)
  {
    |b| - 1
  }

  // ---------------------------------------------------------------- integers

  datatype Checked = Checked(pos: nat, error: Option<ErrorCode>)

  function CheckedAt(pos: nat, digits: nat, error: Option<ErrorCode>): Checked {
    Checked(pos, if digits > 20 then Some(Overflow) else error)
  }

  /** The loop of check_integer, at a byte of the buffer. */
  function CheckDigits(b: bytes, pos: nat, digits: nat): (r: Checked)
    requires IsBuffer(b) && pos < End(b)
    ensures pos <= r.pos <= End(b)
    ensures r.error.None? ==> r.pos < End(b) && b[r.pos] == 'e' && pos < r.pos
    decreases |b| - pos
  {
    if !IsDigit(b[pos]) then CheckedAt(pos, digits, Some(ExpectedDigit))
    else if pos + 1 == End(b) then CheckedAt(pos + 1, digits + 1, Some(UnexpectedEof))
    else if b[pos + 1] == 'e' then CheckedAt(pos + 1, digits + 1, None)
    else CheckDigits(b, pos + 1, digits + 1)
  }

  /** check_integer: where the integer that starts at `start` ends, and what is wrong with it. */
  function CheckInteger(b: bytes, start: nat): (r: Checked)
    requires IsBuffer(b) && start <= End(b)
    ensures start <= r.pos <= End(b)
    ensures r.error.None? ==> r.pos < End(b) && b[r.pos] == 'e' && start < r.pos
  {
    if start == End(b) then Checked(start, Some(UnexpectedEof))
    else if b[start] != '-' then CheckDigits(b, start, 0)
    else if start + 1 == End(b) then Checked(start + 1, Some(UnexpectedEof))
    else CheckDigits(b, start + 1, 0)
  }

  datatype ParsedInt = ParsedInt(pos: nat, val: nat, error: Option<ErrorCode>)

  /** parse_int: the digits up to a delimiter, after `val`. The byte it stops at is read even at the end. */
  function ParseInt(b: bytes, start: nat, end: nat, delimiter: byte, val: nat): (r: ParsedInt)
    requires start <= end <= |b| && (end < |b| || delimiter in b[start..end]) && val <= MAX_INT64
    ensures start <= r.pos <= end && r.val <= MAX_INT64
    ensures r.error.None? ==> r.pos < |b| && b[r.pos] == delimiter
    decreases end - start
  {
    if start == end || b[start] == delimiter then
      ParsedInt(start, val, if b[start] == delimiter then None else Some(ExpectedColon))
    else if !IsDigit(b[start]) then ParsedInt(start, val, Some(ExpectedDigit))
    else if val > MAX_INT64 / 10 then ParsedInt(start, val, Some(Overflow))
    else if val * 10 > MAX_INT64 - DigitValue(b[start]) then ParsedInt(start, val * 10, Some(Overflow))
    else ParseInt(b, start + 1, end, delimiter, val * 10 + DigitValue(b[start]))
  }

  // ---------------------------------------------------------------- one token

  /** Every frame refers to a token. */
  predicate FramesOk(d: Decoder) {
    forall k :: 0 <= k < |d.stack| ==> d.stack[k].token < |d.tokens|
  }

  function Top(d: Decoder): Frame
    requires d.stack != []
  {
    d.stack[|d.stack| - 1]
  }

  predicate InDict(d: Decoder)
    requires FramesOk(d)
  {
    d.stack != [] && d.tokens[Top(d).token].kind.DictToken?
  }

  /** After an item the innermost dictionary waits for the opposite of what it waited for. */
  function Toggled(d: Decoder): Decoder
    requires FramesOk(d)
  {
    if InDict(d) then
      var top := Top(d);
      d.(stack := d.stack[|d.stack| - 1 := top.(value := !top.value)])
    else d
  }

  datatype Step =
    | Next(d: Decoder)
    | Finished(d: Decoder)
    | Failed(d: Decoder, code: ErrorCode, errorPos: nat)

  /** `d` and `l`: push the container; its `next` is filled in when it ends. */
  function Open(d: Decoder, kind: Kind): Decoder
    requires FramesOk(d)
  {
    var t := Toggled(d);
    Decoder(d.pos + 1, d.tokens + [Token(d.pos, kind, 0, 0)], t.stack + [Frame(|d.tokens|, false)], d.limit)
  }

  /** A string or integer was read. */
  function Scalar(d: Decoder, token: Token, pos: nat): Step
    requires FramesOk(d)
  {
    var n := Decoder(pos, d.tokens + [token], Toggled(d).stack, d.limit);
    if n.stack == [] then Finished(n) else Next(n)
  }

  function ReadInteger(b: bytes, d: Decoder): Step
    requires IsBuffer(b) && d.pos < End(b) && FramesOk(d)
  {
    var c := CheckInteger(b, d.pos + 1);
    if c.error.Some? then Failed(d, c.error.value, c.pos)
    else Scalar(d, Token(d.pos, IntegerToken, 1, 0), c.pos + 1)
  }

  function ReadString(b: bytes, d: Decoder): Step
    requires IsBuffer(b) && d.pos < End(b) && FramesOk(d)
  {
    if !IsDigit(b[d.pos]) then Failed(d, ExpectedValue, d.pos)
    else
      var p := ParseInt(b, d.pos + 1, End(b), ':', DigitValue(b[d.pos]));
      if p.error.Some? then Failed(d.(pos := p.pos), p.error.value, p.pos)
      else if p.pos + p.val + 1 > End(b) then Failed(d.(pos := p.pos), UnexpectedEof, p.pos)
      else if p.pos + 1 >= End(b) then Failed(d.(pos := p.pos + 1), UnexpectedEof, p.pos + 1)
      else if p.pos + 1 - d.pos > MAX_HEADER + 2 then Failed(d.(pos := p.pos + 1), LimitExceeded, p.pos + 1)
      else Scalar(d, Token(d.pos, StringToken, 1, p.pos + 1 - d.pos - 2), p.pos + 1 + p.val)
  }

  /** `e`: the end token, and the distance from the container's token to what follows it. */
  function Close(d: Decoder): Step
    requires FramesOk(d)
  {
    if d.stack == [] then Failed(d, UnexpectedEof, d.pos)
    else if InDict(d) && Top(d).value then Failed(d, ExpectedValue, d.pos)
    else
      var tokens := d.tokens + [Token(d.pos, EndToken, 1, 0)];
      var top := Top(d).token;
      if |tokens| - top > MAX_NEXT_ITEM then Failed(d.(tokens := tokens), LimitExceeded, d.pos)
      else
        var stack := d.stack[..|d.stack| - 1];
        var n := Decoder(d.pos + 1, Patched(tokens, top, |tokens| - top), stack, d.limit);
        if stack == [] then Finished(n) else Next(n)
  }

  /** What a field of 29 bits keeps of a number. */
  function Bits29(n: nat): (r: nat)
    ensures r <= MAX_NEXT_ITEM
    ensures r == n <==> n <= MAX_NEXT_ITEM
  {
    n % 0x2000_0000
  }

  /** The back-patch. */
  function Patched(tokens: seq<Token>, i: nat, next: nat): (r: seq<Token>)
    requires i < |tokens|
    ensures |r| == |tokens|
  {
    tokens[i := tokens[i].(next := Bits29(next))]
  }

  /** One round of the main loop. */
  function OneToken(b: bytes, depthLimit: nat, d: Decoder): Step
    requires IsBuffer(b) && d.pos <= End(b) && FramesOk(d)
  {
    if d.pos >= End(b) then Failed(d, UnexpectedEof, d.pos)
    else if |d.stack| >= depthLimit then Failed(d, DepthExceeded, d.pos)
    else
      var e := d.(limit := d.limit - 1);
      var t := b[d.pos];
      if e.limit < 0 then Failed(e, LimitExceeded, d.pos)
      else if InDict(e) && !Top(e).value && !IsDigit(t) && t != 'e' then Failed(e, ExpectedDigit, d.pos)
      else if t == 'd' then Next(Open(e, DictToken))
      else if t == 'l' then Next(Open(e, ListToken))
      else if t == 'i' then ReadInteger(b, e)
      else if t == 'e' then Close(e)
      else ReadString(b, e)
  }

  /** A step moves on and keeps the frames within the tokens. */
  lemma OneTokenMoves(b: bytes, depthLimit: nat, d: Decoder)
    requires IsBuffer(b) && d.pos <= End(b) && FramesOk(d)
    ensures var s := OneToken(b, depthLimit, d);
            && (s.Failed? ==> d.pos <= s.d.pos <= End(b))
            && (!s.Failed? ==> d.pos < s.d.pos <= End(b))
            && FramesOk(s.d)
  {
    hide CheckInteger, ParseInt;
  }

  // ---------------------------------------------------------------- all tokens, and the unwinding

  /** What the decoder leaves: the tokens, and with an error its code and position. */
  datatype Result = Result(tokens: seq<Token>, pos: nat, error: Option<ErrorCode>, errorPos: nat)

  /** Each open container gets an end token, after a dummy value for a key that has none; a last end token follows. */
  function Unwind(tokens: seq<Token>, stack: seq<Frame>, pos: nat): (r: seq<Token>)
    requires forall k :: 0 <= k < |stack| ==> stack[k].token < |tokens|
    decreases |stack|
  {
    if stack == [] then tokens + [Token(pos, EndToken, 0, 0)]
    else
      var top := stack[|stack| - 1];
      var t := WithDummy(tokens, top, pos);
      Unwind(Patched(t, top.token, |t| - top.token) + [Token(pos, EndToken, 1, 0)], stack[..|stack| - 1], pos)
  }

  function WithDummy(tokens: seq<Token>, top: Frame, pos: nat): (r: seq<Token>)
    requires top.token < |tokens|
    ensures tokens <= r
  {
    if tokens[top.token].kind.DictToken? && top.value then
      tokens + [Token(pos, DictToken, 2, 0), Token(pos, EndToken, 0, 0)]
    else tokens
  }

  /** The main loop. */
  function Run(b: bytes, depthLimit: nat, d: Decoder): Result
    requires IsBuffer(b) && d.pos <= End(b) && FramesOk(d)
    decreases |b| - d.pos
  {
    OneTokenMoves(b, depthLimit, d);
    match OneToken(b, depthLimit, d)
    case Next(n) => Run(b, depthLimit, n)
    case Finished(n) => Result(Unwind(n.tokens, n.stack, n.pos), n.pos, None, 0)
    case Failed(n, code, errorPos) => Result(Unwind(n.tokens, n.stack, n.pos), n.pos, Some(code), errorPos)
  }

  function Start(tokenLimit: int): Decoder {
    Decoder(0, [], [], tokenLimit)
  }

  /** bdecode: no tokens at all when the buffer is too large or empty. */
  function Decode(b: bytes, depthLimit: nat, tokenLimit: int): Result
    requires IsBuffer(b)
  {
    if End(b) > MAX_OFFSET then Result([], 0, Some(LimitExceeded), 0)
    else if End(b) == 0 then Result([], 0, None, 0)
    else Run(b, depthLimit, Start(tokenLimit))
  }
}
