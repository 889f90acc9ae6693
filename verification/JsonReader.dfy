/** The reader object: what its methods do to the stream position, the handler, the stack and the error. */
module JsonReader {
  import opened Bytes
  import opened JsonTypes
  import opened JsonScan
  import opened Utf8
  import opened JsonRecursive
  import opened JsonIterative

  datatype ParseError = ParseError(code: ErrorCode, offset: nat)

  class GenericReader {
    const t: bytes
    const cf: Config
    /** The position of the input stream. */
    var pos: nat
    /** What the handler has been told so far. */
    var log: seq<Event>
    /** The stack of the iterative parser, its top first. */
    var stack: seq<Frame>
    var error: Option<ParseError>

    constructor (text: bytes, flags: Config)
      ensures t == text && cf == flags && pos == 0 && log == [] && stack == [] && error == None
    {
      t, cf := text, flags;
      pos, log, stack, error := 0, [], [], None;
    }

    predicate Reading()
      reads this
    {
      pos <= |t| && error.None?
    }

    function Abs(): (s: Scan)
      reads this
    {
      match error
      case None => At(pos, log)
      case Some(e) => Failed(log, e.code, e.offset)
    }

    function PeekHere(): byte
      reads this
    {
      Peek(t, pos)
    }

    method Take() returns (c: byte)
      requires pos < |t|
      modifies this`pos
      ensures pos == old(pos) + 1 && c == t[old(pos)]
    {
      c := t[pos];
      pos := pos + 1;
    }

    method Consume(expected: byte) returns (ok: bool)
      requires pos <= |t| && expected != '\0'
      modifies this`pos
      ensures ok <==> Peek(t, old(pos)) == expected
      ensures pos == (if ok then old(pos) + 1 else old(pos)) && pos <= |t|
    {
      ok := PeekHere() == expected;
      if ok {
        pos := pos + 1;
      }
    }

    method SetParseError(code: ErrorCode, offset: nat)
      requires error.None?
      modifies this`error
      ensures error == Some(ParseError(code, offset))
    {
      error := Some(ParseError(code, offset));
    }

    // -------------------------------------------------------------- blanks and comments

    method SkipWhitespace()
      requires pos <= |t|
      modifies this`pos
      ensures pos == Blank(t, old(pos))
    {
      while IsBlank(PeekHere())
        invariant pos <= |t| && Blank(t, pos) == Blank(t, old(pos))
        decreases |t| - pos
      {
        pos := pos + 1;
      }
    }

    method SkipBlockComment()
      requires Reading()
      modifies this`pos, this`error
      ensures match BlockComment(t, old(pos))
              case Skipped(p) => pos == p && error.None?
              case BadComment(o) => error == Some(ParseError(UnspecificSyntaxError, o))
    {
      while true
        invariant Reading() && BlockComment(t, pos) == BlockComment(t, old(pos))
        decreases |t| - pos
      {
        if PeekHere() == '\0' {
          SetParseError(UnspecificSyntaxError, pos);
          return;
        }
        var star := Consume('*');
        if star {
          var slash := Consume('/');
          if slash {
            return;
          }
        } else {
          pos := pos + 1;
        }
      }
    }

    method SkipLineComment()
      requires pos <= |t|
      modifies this`pos
      ensures pos == LineComment(t, old(pos))
    {
      var more := true;
      while more && PeekHere() != '\0'
        invariant pos <= |t|
        invariant LineComment(t, old(pos)) == if more then LineComment(t, pos) else pos
        decreases |t| - pos
      {
        var c := Take();
        more := c != '\n';
      }
    }

    method SkipWhitespaceAndComments()
      requires Reading()
      modifies this`pos, this`error
      ensures Abs() == GapScan(t, cf, old(pos), log)
      ensures error.None? ==> Reading()
    {
      SkipWhitespace();
      if cf.comments {
        while PeekHere() == '/'
          invariant Reading() && Comments(t, pos) == Gap(t, cf, old(pos))
          decreases |t| - pos
        {
          pos := pos + 1;
          var star := Consume('*');
          if star {
            SkipBlockComment();
            if error.Some? {
              return;
            }
          } else {
            var slash := Consume('/');
            if slash {
              SkipLineComment();
            } else {
              SetParseError(UnspecificSyntaxError, pos);
              return;
            }
          }
          SkipWhitespace();
        }
      }
    }

    // -------------------------------------------------------------- null, true, false

    /** A chain of calls to Consume, up to the first that fails. */
    method ConsumeLetters(word: string) returns (ok: bool)
      requires pos <= |t| && forall k :: 0 <= k < |word| ==> word[k] as int < 256 && word[k] != '\0'
      modifies this`pos
      ensures pos == old(pos) + Letters(t, old(pos), word) && pos <= |t|
      ensures ok <==> Letters(t, old(pos), word) == |word|
    {
      var k := 0;
      ok := true;
      while ok && k < |word|
        invariant k <= |word| && pos == old(pos) + k && pos <= |t|
        invariant Letters(t, old(pos), word) == if ok then k + Letters(t, pos, word[k..]) else k
        invariant !ok ==> k < |word|
        decreases |word| - k, ok
      {
        ok := Consume(word[k]);
        if ok {
          k := k + 1;
        }
      }
    }

    method ParseNull()
      requires Reading() && PeekHere() == 'n'
      modifies this`pos, this`log, this`error
      ensures Abs() == Literal(t, old(pos), old(log), "null", Null)
      ensures error.None? ==> Reading()
    {
      var ok := ConsumeLetters("null");
      if ok {
        log := log + [Null];
      } else {
        SetParseError(ValueInvalid, pos);
      }
    }

    method ParseTrue()
      requires Reading() && PeekHere() == 't'
      modifies this`pos, this`log, this`error
      ensures Abs() == Literal(t, old(pos), old(log), "true", Bool(true))
      ensures error.None? ==> Reading()
    {
      var ok := ConsumeLetters("true");
      if ok {
        log := log + [Bool(true)];
      } else {
        SetParseError(ValueInvalid, pos);
      }
    }

    method ParseFalse()
      requires Reading() && PeekHere() == 'f'
      modifies this`pos, this`log, this`error
      ensures Abs() == Literal(t, old(pos), old(log), "false", Bool(false))
      ensures error.None? ==> Reading()
    {
      var ok := ConsumeLetters("false");
      if ok {
        log := log + [Bool(false)];
      } else {
        SetParseError(ValueInvalid, pos);
      }
    }

    // -------------------------------------------------------------- strings

    method ParseHex4(escapeOffset: nat) returns (codepoint: nat)
      requires Reading()
      modifies this`pos, this`error
      ensures match Hex(t, old(pos), 4, 0)
              case None => error == Some(ParseError(StringUnicodeEscapeInvalidHex, escapeOffset))
              case Some(cp) => Reading() && pos == old(pos) + 4 && codepoint == cp
    {
      codepoint := 0;
      for i := 0 to 4
        invariant Reading() && pos == old(pos) + i
        invariant Hex(t, pos, 4 - i, codepoint) == Hex(t, old(pos), 4, 0)
      {
        var digit := HexValue(PeekHere());
        if digit.None? {
          SetParseError(StringUnicodeEscapeInvalidHex, escapeOffset);
          return;
        }
        codepoint := codepoint * 16 + digit.value;
        pos := pos + 1;
      }
    }

    /** A unicode escape, after its `u`. */
    method ParseUnicodeEscape(escapeOffset: nat) returns (codepoint: nat)
      requires Reading()
      modifies this`pos, this`error
      ensures match UnicodeEscape(t, old(pos))
              case BadEscape(code) => error == Some(ParseError(code, escapeOffset))
              case Point(p, cp) => Reading() && pos == p && codepoint == cp
    {
      codepoint := ParseHex4(escapeOffset);
      if error.Some? || !HighSurrogate(codepoint) {
        return;
      }
      var ok := Consume('\\');
      if ok {
        ok := Consume('u');
      }
      if !ok {
        SetParseError(StringUnicodeSurrogateInvalid, escapeOffset);
        return;
      }
      var low := ParseHex4(escapeOffset);
      if error.Some? {
        return;
      }
      if !LowSurrogate(low) {
        SetParseError(StringUnicodeSurrogateInvalid, escapeOffset);
        return;
      }
      codepoint := (codepoint - 0xD800) * 1024 + (low - 0xDC00) + 0x10000;
    }

    /** ParseStringToStream. */
    method ParseStringToStream() returns (str: bytes)
      requires Reading()
      modifies this`pos, this`error
      ensures match StringBody(t, old(pos), [])
              case BadText(code, offset) => error == Some(ParseError(code, offset))
              case Text(p, s) => Reading() && pos == p && str == s
    {
      hide UnicodeEscape, Encode;
      str := [];
      while true
        invariant Reading() && StringBody(t, pos, str) == StringBody(t, old(pos), [])
        decreases |t| - pos
      {
        var c := PeekHere();
        if c == '\\' {
          var escapeOffset := pos;
          pos := pos + 1;
          var e := PeekHere();
          if Unescape(e).Some? {
            pos := pos + 1;
            str := str + [Unescape(e).value];
          } else if e == 'u' {
            pos := pos + 1;
            var codepoint := ParseUnicodeEscape(escapeOffset);
            if error.Some? {
              return;
            }
            str := str + Encode(codepoint);
          } else {
            SetParseError(StringEscapeInvalid, escapeOffset);
            return;
          }
        } else if c == '"' {
          pos := pos + 1;
          return;
        } else if c < ' ' {
          SetParseError(if c == '\0' then StringMissQuotationMark else StringEscapeInvalid, pos);
          return;
        } else {
          pos := pos + 1;
          str := str + [c];
        }
      }
    }

    method ParseString(isKey: bool)
      requires Reading() && PeekHere() == '"'
      modifies this`pos, this`log, this`error
      ensures Abs() == StringScan(t, old(pos), old(log), isKey)
      ensures error.None? ==> Reading()
    {
      pos := pos + 1;
      var str := ParseStringToStream();
      if error.None? {
        log := log + [if isKey then Key(str) else String(str)];
      }
    }

    // -------------------------------------------------------------- numbers

    /** One of the four integer loops. */
    method ParseDigits(start: nat, limit: nat) returns (value: nat)
      requires pos <= |t|
      modifies this`pos
      ensures Digits(pos, value) == DigitRun(t, old(pos), start, limit)
    {
      value := start;
      while IsDigit(PeekHere())
        invariant pos <= |t| && DigitRun(t, pos, value, limit) == DigitRun(t, old(pos), start, limit)
        decreases |t| - pos
      {
        if value >= limit / 10 {
          if value != limit / 10 || DigitValue(PeekHere()) > limit % 10 {
            break;
          }
        }
        value := value * 10 + DigitValue(PeekHere());
        pos := pos + 1;
      }
    }

    /** The digits of an integer that is held in a double. */
    method ParseBigDigits(digits: nat, startOffset: nat)
      requires Reading() && digits <= pos
      modifies this`pos, this`error
      ensures match BigDigits(t, cf, digits, old(pos))
              case None => error == Some(ParseError(NumberTooBig, startOffset))
              case Some(p) => Reading() && pos == p
    {
      while IsDigit(PeekHere())
        invariant Reading() && digits <= pos
        invariant BigDigits(t, cf, digits, pos) == BigDigits(t, cf, digits, old(pos))
        decreases |t| - pos
      {
        if cf.huge(t[digits..pos]) {
          SetParseError(NumberTooBig, startOffset);
          return;
        }
        pos := pos + 1;
      }
    }

    /** The integer part of a number. */
    method ParseWhole(startOffset: nat, minus: bool) returns (width: Width, value: nat, significandDigit: nat)
      requires Reading() && startOffset <= pos
      modifies this`pos, this`error
      ensures match WholePart(t, cf, startOffset, old(pos), minus)
              case BadWhole(code, offset) => error == Some(ParseError(code, offset))
              case w => Reading() && w == Whole(pos, width, value, significandDigit)
    {
      hide DigitRun, BigDigits;
      width, value, significandDigit := W32, 0, 0;
      var zero := Consume('0');
      if zero {
        return;
      }
      if !IsDigit(PeekHere()) {
        SetParseError(ValueInvalid, pos);
        return;
      }
      var first := pos;
      value := DigitValue(t[pos]);
      pos := pos + 1;
      value := ParseDigits(value, if minus then MIN_INT else MAX_UINT);
      significandDigit := pos - first - 1;
      if IsDigit(PeekHere()) {
        width := W64;
        value := ParseDigits(value, if minus then MIN_INT64 else MAX_UINT64);
        significandDigit := pos - first - 1;
        if IsDigit(PeekHere()) {
          width := WDouble;
          ParseBigDigits(first, startOffset);
        }
      }
    }

    /** The digits after the point. `expFrac` counts down from 0 as many digits as scale the significand. */
    method ParseFraction(width: Width, value: nat, digits: nat) returns (expFrac: int)
      requires pos <= |t|
      modifies this`pos
      ensures expFrac <= 0
      ensures Fraction(pos, -expFrac)
           == if width == WDouble then RestFraction(t, old(pos), true, 0, digits)
              else ExactFraction(t, old(pos), value, 0, digits)
    {
      var i64: nat, significandDigit: nat := value, digits;
      var positive := true;
      expFrac := 0;
      if width != WDouble {
        while IsDigit(PeekHere()) && i64 <= MAX_SIGNIFICAND
          invariant pos <= |t| && expFrac <= 0
          invariant ExactFraction(t, pos, i64, -expFrac, significandDigit)
                 == ExactFraction(t, old(pos), value, 0, digits)
          decreases |t| - pos
        {
          i64 := i64 * 10 + DigitValue(PeekHere());
          pos := pos + 1;
          expFrac := expFrac - 1;
          if i64 != 0 {
            significandDigit := significandDigit + 1;
          }
        }
        positive := i64 != 0;
      }
      label rest:
      ghost var frac, sig, pos1 := expFrac, significandDigit, positive;
      while IsDigit(PeekHere())
        invariant pos <= |t| && expFrac <= 0
        invariant RestFraction(t, pos, positive, -expFrac, significandDigit)
               == RestFraction(t, old@rest(pos), pos1, -frac, sig)
        decreases |t| - pos
      {
        if significandDigit < 17 {
          positive := positive || PeekHere() != '0';
          expFrac := expFrac - 1;
          if positive {
            significandDigit := significandDigit + 1;
          }
        }
        pos := pos + 1;
      }
    }

    /** The exponent, after its `e`. */
    method ParseExponent(startOffset: nat, expFrac: int)
      requires Reading() && startOffset <= pos && expFrac <= 0
      modifies this`pos, this`error
      ensures error.Some? ==> ExponentPart(t, startOffset, old(pos), -expFrac, log) == Abs()
      ensures error.None? ==> Reading() && startOffset <= pos
      ensures error.None? ==>
                ExponentPart(t, startOffset, old(pos), -expFrac, log) == DoubleScan(t, startOffset, pos, log)
    {
      hide DoubleScan;
      var expMinus := false;
      var plus := Consume('+');
      if !plus {
        expMinus := Consume('-');
      }
      if !IsDigit(PeekHere()) {
        SetParseError(NumberMissExponent, pos);
        return;
      }
      var exp: nat := DigitValue(PeekHere());
      label digits:
      pos := pos + 1;
      if expMinus {
        while IsDigit(PeekHere())
          invariant Reading() && SkipDigits(t, pos) == SkipDigits(t, old@digits(pos))
          decreases |t| - pos
        {
          exp := exp * 10 + DigitValue(PeekHere());
          pos := pos + 1;
          if exp >= 214748364 {
            while IsDigit(PeekHere())
              invariant Reading() && SkipDigits(t, pos) == SkipDigits(t, old@digits(pos))
              decreases |t| - pos
            {
              pos := pos + 1;
            }
          }
        }
      } else {
        var maxExp := 308 - expFrac;
        ghost var first, from := exp, pos;
        while IsDigit(PeekHere())
          invariant Reading() && from <= |t| && Exponent(t, pos, exp, maxExp) == Exponent(t, from, first, maxExp)
          decreases |t| - pos
        {
          exp := exp * 10 + DigitValue(PeekHere());
          pos := pos + 1;
          if exp > maxExp {
            SetParseError(NumberTooBig, startOffset);
            return;
          }
        }
      }
    }

    /** The point, the fraction and the exponent, and the event. */
    method ParseNumberRest(startOffset: nat, minus: bool, width: Width, value: nat, digits: nat)
      requires Reading() && startOffset <= pos
      modifies this`pos, this`log, this`error
      ensures Abs() == NumberRest(t, startOffset, minus, Whole(old(pos), width, value, digits), old(log))
      ensures error.None? ==> Reading()
    {
      hide ExponentPart, ExactFraction, RestFraction;
      var expFrac := 0;
      var useDouble := width == WDouble;
      var point := Consume('.');
      if point {
        if !IsDigit(PeekHere()) {
          SetParseError(NumberMissFraction, pos);
          return;
        }
        expFrac := ParseFraction(width, value, digits);
        useDouble := true;
      }
      if IsE(PeekHere()) {
        pos := pos + 1;
        useDouble := true;
        ParseExponent(startOffset, expFrac);
        if error.Some? {
          return;
        }
      }
      var negative: int := 0 - value;
      if useDouble {
        log := log + [Double(t[startOffset..pos])];
      } else if width == W64 {
        log := log + [if minus then Int64(negative) else Uint64(value)];
      } else {
        log := log + [if minus then Int(negative) else Uint(value)];
      }
    }

    method ParseNumber()
      requires Reading()
      modifies this`pos, this`log, this`error
      ensures Abs() == NumberScan(t, cf, old(pos), old(log))
      ensures error.None? ==> Reading()
    {
      hide WholePart, NumberRest;
      var startOffset := pos;
      var minus := Consume('-');
      var width, value, digits := ParseWhole(startOffset, minus);
      if error.None? {
        ParseNumberRest(startOffset, minus, width, value, digits);
      }
    }

    // -------------------------------------------------------------- recursive descent

    method ParseValue()
      requires Reading()
      modifies this`pos, this`log, this`error
      ensures Abs() == JsonRecursive.ParseValue(t, cf, old(pos), old(log))
      ensures error.None? ==> Reading()
      decreases |t| - pos, 1
    {
      hide Literal, StringScan, NumberScan, JsonRecursive.ParseObject, JsonRecursive.ParseArray;
      var c := PeekHere();
      if c == 'n' {
        ParseNull();
      } else if c == 't' {
        ParseTrue();
      } else if c == 'f' {
        ParseFalse();
      } else if c == '"' {
        ParseString(false);
      } else if c == '{' {
        ParseObject();
      } else if c == '[' {
        ParseArray();
      } else {
        ParseNumber();
      }
    }

    method ParseObject()
      requires Reading() && PeekHere() == '{'
      modifies this`pos, this`log, this`error
      ensures Abs() == JsonRecursive.ParseObject(t, cf, old(pos), old(log))
      ensures error.None? ==> Reading()
      decreases |t| - pos, 0
    {
      hide GapScan, JsonRecursive.ParseValue, StringScan;
      var start := pos;
      pos := pos + 1;
      log := log + [StartObject];
      SkipWhitespaceAndComments();
      if error.Some? {
        return;
      }
      var close := Consume('}');
      if close {
        log := log + [EndObject(0)];
        return;
      }
      var memberCount := 0;
      while true
        invariant Reading() && start < pos
        invariant JsonRecursive.ParseObject(t, cf, start, old(log)) == Members(t, cf, pos, log, memberCount)
        decreases |t| - pos
      {
        ParseMember();
        if error.Some? {
          return;
        }
        memberCount := Inc32(memberCount);
        var c := PeekHere();
        if c == ',' {
          pos := pos + 1;
          SkipWhitespaceAndComments();
          if error.Some? {
            return;
          }
        } else if c == '}' {
          pos := pos + 1;
          log := log + [EndObject(memberCount)];
          return;
        } else {
          SetParseError(ObjectMissCommaOrCurlyBracket, pos);
          return;
        }
        if cf.trailingCommas && PeekHere() == '}' {
          log := log + [EndObject(memberCount)];
          pos := pos + 1;
          return;
        }
      }
    }

    /** The part of the member loop up to the gap after the value. */
    method ParseMember()
      requires Reading()
      modifies this`pos, this`log, this`error
      ensures Abs() == Member(t, cf, old(pos), old(log))
      ensures error.None? ==> Reading()
      decreases |t| - pos, 0
    {
      hide GapScan, JsonRecursive.ParseValue, StringScan;
      if PeekHere() != '"' {
        SetParseError(ObjectMissName, pos);
        return;
      }
      ParseString(true);
      if error.Some? {
        return;
      }
      SkipWhitespaceAndComments();
      if error.Some? {
        return;
      }
      var colon := Consume(':');
      if !colon {
        SetParseError(ObjectMissColon, pos);
        return;
      }
      SkipWhitespaceAndComments();
      if error.Some? {
        return;
      }
      ParseValue();
      if error.Some? {
        return;
      }
      SkipWhitespaceAndComments();
    }

    method ParseArray()
      requires Reading() && PeekHere() == '['
      modifies this`pos, this`log, this`error
      ensures Abs() == JsonRecursive.ParseArray(t, cf, old(pos), old(log))
      ensures error.None? ==> Reading()
      decreases |t| - pos, 0
    {
      hide GapScan, JsonRecursive.ParseValue;
      var start := pos;
      pos := pos + 1;
      log := log + [StartArray];
      SkipWhitespaceAndComments();
      if error.Some? {
        return;
      }
      var close := Consume(']');
      if close {
        log := log + [EndArray(0)];
        return;
      }
      var elementCount := 0;
      while true
        invariant Reading() && start < pos
        invariant JsonRecursive.ParseArray(t, cf, start, old(log)) == Elements(t, cf, pos, log, elementCount)
        decreases |t| - pos
      {
        ParseValue();
        if error.Some? {
          return;
        }
        elementCount := Inc32(elementCount);
        SkipWhitespaceAndComments();
        if error.Some? {
          return;
        }
        var comma := Consume(',');
        if comma {
          SkipWhitespaceAndComments();
          if error.Some? {
            return;
          }
        } else {
          var end := Consume(']');
          if end {
            log := log + [EndArray(elementCount)];
          } else {
            SetParseError(ArrayMissCommaOrSquareBracket, pos);
          }
          return;
        }
        if cf.trailingCommas && PeekHere() == ']' {
          log := log + [EndArray(elementCount)];
          pos := pos + 1;
          return;
        }
      }
    }

    /** Parse without the iterative flag, on a reader that is at the start of its text. */
    method ParseRecursive()
      requires Reading() && pos == 0 && log == []
      modifies this`pos, this`log, this`error
      ensures Abs() == JsonRecursive.Parse(t, cf)
    {
      hide GapScan, JsonRecursive.ParseValue;
      SkipWhitespaceAndComments();
      if error.Some? {
        return;
      }
      if PeekHere() == '\0' {
        SetParseError(DocumentEmpty, pos);
        return;
      }
      ParseValue();
      if error.Some? || cf.stopWhenDone {
        return;
      }
      SkipWhitespaceAndComments();
      if error.None? && PeekHere() != '\0' {
        SetParseError(DocumentRootNotSingular, pos);
      }
    }

    // -------------------------------------------------------------- the pushdown automaton

    function Configuration(s: State): Machine
      reads this
    {
      Machine(s, pos, log, stack)
    }

    /** Transit. The error state is returned with the error set, or left to HandleError. */
    method Transit(src: State, token: Token, dst: State) returns (n: State)
      requires Reading() && MachineOk(Configuration(src)) && PeekHere() != '\0'
      requires token == Tokenize(PeekHere()) && dst == Predict(src, token)
      modifies this
      ensures match JsonIterative.Transit(t, cf, old(Configuration(src)), dst)
              case Next(m) => Reading() && Configuration(n) == m
              case Fault(l, code, offset) =>
                n == Error && log == l
                && (if error.Some? then error == Some(ParseError(code, offset))
                    else code == ErrorIn(src) && offset == pos)
    {
      hide StringScan, JsonRecursive.ParseValue, StackOk;
      if dst == Error {
        return Error;
      } else if dst == ObjectInitial || dst == ArrayInitial {
        stack := [Frame(Back(src), 0)] + stack;
        log := log + [if dst == ObjectInitial then StartObject else StartArray];
        pos := pos + 1;
        return dst;
      } else if dst == MemberKey {
        ParseString(true);
        return if error.Some? then Error else dst;
      } else if dst == KeyValueDelimiter {
        pos := pos + 1;
        return dst;
      } else if dst == MemberValue || dst == Element {
        ParseValue();
        return if error.Some? then Error else dst;
      } else if dst == MemberDelimiter || dst == ElementDelimiter {
        pos := pos + 1;
        stack := [stack[0].(count := Inc32(stack[0].count))] + stack[1..];
        return dst;
      } else if dst == ObjectFinish {
        n := CloseContainer(src == MemberDelimiter, src == MemberValue, ObjectMissName, true);
      } else if dst == ArrayFinish {
        n := CloseContainer(src == ElementDelimiter, src == Element, ValueInvalid, false);
      } else {
        ParseValue();
        return if error.Some? then Error else Finish;
      }
    }

    /** The transition that ends an object or an array. */
    method CloseContainer(delimiter: bool, last: bool, missing: ErrorCode, isObject: bool) returns (n: State)
      requires Reading() && stack != [] && PeekHere() != '\0'
      modifies this
      ensures match Close(cf, old(Configuration(Start)), delimiter, last, missing, isObject)
              case Next(m) => Reading() && Configuration(n) == m
              case Fault(l, code, offset) => n == Error && log == l && error == Some(ParseError(code, offset))
    {
      if delimiter && !cf.trailingCommas {
        SetParseError(missing, pos);
        return Error;
      }
      var c := stack[0].count;
      if last {
        c := Inc32(c);
      }
      n := stack[0].back;
      stack := stack[1..];
      if n == Start {
        n := Finish;
      }
      log := log + [if isObject then EndObject(c) else EndArray(c)];
      pos := pos + 1;
    }

    method HandleError(src: State)
      modifies this`error
      ensures error == if old(error).Some? then old(error) else Some(ParseError(ErrorIn(src), pos))
    {
      if error.None? {
        SetParseError(ErrorIn(src), pos);
      }
    }

    /** IterativeParse, on a reader that is at the start of its text. */
    method IterativeParse()
      requires Reading() && pos == 0 && log == [] && stack == []
      modifies this
      ensures Abs() == JsonIterative.IterativeParse(t, cf)
    {
      assert StackOk([]);
      hide GapScan, JsonIterative.Transit, StackOk, Predict;
      var state := Start;
      SkipWhitespaceAndComments();
      if error.Some? {
        return;
      }
      while PeekHere() != '\0'
        invariant Reading() && MachineOk(Configuration(state))
        invariant Loop(t, cf, Configuration(state)) == JsonIterative.IterativeParse(t, cf)
        decreases |t| - pos
      {
        var token := Tokenize(PeekHere());
        var n := Predict(state, token);
        var d := Transit(state, token, n);
        if d == Error {
          HandleError(state);
          return;
        }
        state := d;
        if cf.stopWhenDone && state == Finish {
          return;
        }
        SkipWhitespaceAndComments();
        if error.Some? {
          return;
        }
      }
      if state != Finish {
        HandleError(state);
      }
    }

    /** Parse, with or without the iterative flag; the stack is cleared on every way out. */
    method Parse(iterative: bool)
      requires pos == 0 && log == [] && stack == []
      modifies this
      ensures Abs() == if iterative then JsonIterative.IterativeParse(t, cf) else JsonRecursive.Parse(t, cf)
      ensures stack == []
    {
      error := None;
      if iterative {
        IterativeParse();
      } else {
        ParseRecursive();
      }
      stack := [];
    }
  }
}
