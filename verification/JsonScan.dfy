/** The parts both parsers share: blanks and comments, literals, strings and numbers. */
module JsonScan {
  import opened Bytes
  import opened JsonTypes
  import opened Utf8

  // ---------------------------------------------------------------- blanks and comments

  predicate IsBlank(c: byte) {
    c == ' ' || c == '\n' || c == '\r' || c == '\t'
  }

  /** Where `SkipWhitespace` stops. */
  function Blank(t: bytes, pos: nat): (r: nat)
    requires pos <= |t|
    ensures pos <= r <= |t|
    ensures !IsBlank(Peek(t, r))
    decreases |t| - pos
  {
    if IsBlank(Peek(t, pos)) then Blank(t, pos + 1) else pos
  }

  datatype Skip = Skipped(pos: nat) | BadComment(offset: nat)

  /** The rest of a block comment. */
  function BlockComment(t: bytes, pos: nat): (r: Skip)
    requires pos <= |t|
    ensures r.Skipped? ==> pos < r.pos <= |t|
    decreases |t| - pos
  {
    if Peek(t, pos) == '\0' then BadComment(pos)
    else if Peek(t, pos) == '*' && Peek(t, pos + 1) == '/' then Skipped(pos + 2)
    else BlockComment(t, pos + 1)
  }

  /** The rest of a line comment, with its line feed. */
  function LineComment(t: bytes, pos: nat): (r: nat)
    requires pos <= |t|
    ensures pos <= r <= |t|
    decreases |t| - pos
  {
    if Peek(t, pos) == '\0' then pos
    else if Peek(t, pos) == '\n' then pos + 1
    else LineComment(t, pos + 1)
  }

  /** A comment, from the byte after its first slash. */
  function Comment(t: bytes, pos: nat): (r: Skip)
    requires pos <= |t|
    ensures r.Skipped? ==> pos <= r.pos <= |t|
  {
    if Peek(t, pos) == '*' then BlockComment(t, pos + 1)
    else if Peek(t, pos) == '/' then Skipped(LineComment(t, pos + 1))
    else BadComment(pos)
  }

  /** The comments that start at `pos`, each with the blanks after it. */
  function Comments(t: bytes, pos: nat): (r: Skip)
    requires pos <= |t|
    ensures r.Skipped? ==> pos <= r.pos <= |t|
    decreases |t| - pos
  {
    if Peek(t, pos) != '/' then Skipped(pos)
    else
      match Comment(t, pos + 1)
      case BadComment(offset) => BadComment(offset)
      case Skipped(q) => Comments(t, Blank(t, q))
  }

  /** SkipWhitespaceAndComments. */
  function Gap(t: bytes, cf: Config, pos: nat): (r: Skip)
    requires pos <= |t|
    ensures r.Skipped? ==> pos <= r.pos <= |t|
  {
    if cf.comments then Comments(t, Blank(t, pos)) else Skipped(Blank(t, pos))
  }

  // ---------------------------------------------------------------- null, true, false

  /** How many of the letters of `word` stand at `pos`, in order and without a gap. */
  function Letters(t: bytes, pos: nat, word: string): (n: nat)
    ensures n <= |word|
    ensures forall k: nat :: k < n ==> Peek(t, pos + k) == word[k]
    ensures n < |word| ==> Peek(t, pos + n) != word[n]
    decreases |word|
  {
    if word == "" || Peek(t, pos) != word[0] then 0 else 1 + Letters(t, pos + 1, word[1..])
  }

  function Literal(t: bytes, pos: nat, log: seq<Event>, word: string, event: Event): (r: Scan)
  {
    var n := Letters(t, pos, word);
    if n == |word| then At(pos + n, log + [event]) else Failed(log, ValueInvalid, pos + n)
  }

  // ---------------------------------------------------------------- strings

  /** The escape table. */
  function Unescape(e: byte): Option<byte> {
    match e
    case '"' => Some('"') case '/' => Some('/') case '\\' => Some('\\')
    case 'b' => Some(8 as char) case 'f' => Some(12 as char) case 'n' => Some('\n')
    case 'r' => Some('\r') case 't' => Some('\t')
    case _ => None
  }

  function HexValue(c: byte): Option<nat> {
    if '0' <= c <= '9' then Some(c as int - '0' as int)
    else if 'A' <= c <= 'F' then Some(c as int - 'A' as int + 10)
    else if 'a' <= c <= 'f' then Some(c as int - 'a' as int + 10)
    else None
  }

  /** ParseHex4: the value of the `n` hexadecimal digits at `pos`, after `cp`. */
  function Hex(t: bytes, pos: nat, n: nat, cp: nat): (r: Option<nat>)
    ensures r.Some? ==> n == 0 || pos + n <= |t|
    decreases n
  {
    if n == 0 then Some(cp)
    else if HexValue(Peek(t, pos)).None? then None
    else Hex(t, pos + 1, n - 1, cp * 16 + HexValue(Peek(t, pos)).value)
  }

  lemma {:induction false} HexRange(t: bytes, pos: nat, n: nat, cp: nat, bound: nat)
    requires Hex(t, pos, n, cp).Some? && cp < bound
    requires n <= 4
    ensures Hex(t, pos, n, cp).value
          < match n case 0 => bound case 1 => bound * 16 case 2 => bound * 256 case 3 => bound * 4096
                      case _ => bound * 65536
    decreases n
  {
    if n > 0 {
      HexRange(t, pos + 1, n - 1, cp * 16 + HexValue(Peek(t, pos)).value, bound * 16);
    }
  }

  datatype Escape = Point(pos: nat, cp: nat) | BadEscape(code: ErrorCode)

  /** A unicode escape, from the byte after its `u`. */
  function UnicodeEscape(t: bytes, pos: nat): (r: Escape)
    requires pos <= |t|
    ensures r.Point? ==> pos < r.pos <= |t| && r.cp <= 0x10FFFF
  {
    match Hex(t, pos, 4, 0)
    case None => BadEscape(StringUnicodeEscapeInvalidHex)
    case Some(cp) =>
      HexRange(t, pos, 4, 0, 1);
      if !HighSurrogate(cp) then Point(pos + 4, cp)
      else if Peek(t, pos + 4) != '\\' || Peek(t, pos + 5) != 'u' then BadEscape(StringUnicodeSurrogateInvalid)
      else
        match Hex(t, pos + 6, 4, 0)
        case None => BadEscape(StringUnicodeEscapeInvalidHex)
        case Some(low) =>
          if !LowSurrogate(low) then BadEscape(StringUnicodeSurrogateInvalid)
          else Point(pos + 10, (cp - 0xD800) * 1024 + (low - 0xDC00) + 0x10000)
  }

  datatype Text = Text(pos: nat, str: bytes) | BadText(code: ErrorCode, offset: nat)

  /** ParseStringToStream: the string up to its closing quotation mark, after `str`. */
  function StringBody(t: bytes, pos: nat, str: bytes): (r: Text)
    requires pos <= |t|
    ensures r.Text? ==> pos < r.pos <= |t|
    decreases |t| - pos
  {
    var c := Peek(t, pos);
    if c == '\\' then
      var e := Peek(t, pos + 1);
      if Unescape(e).Some? then StringBody(t, pos + 2, str + [Unescape(e).value])
      else if e == 'u' then
        match UnicodeEscape(t, pos + 2)
        case Point(q, cp) => StringBody(t, q, str + Encode(cp))
        case BadEscape(code) => BadText(code, pos)
      else BadText(StringEscapeInvalid, pos)
    else if c == '"' then Text(pos + 1, str)
    else if c == '\0' then BadText(StringMissQuotationMark, pos)
    else if c < ' ' then BadText(StringEscapeInvalid, pos)
    else StringBody(t, pos + 1, str + [c])
  }

  /** ParseString, at the opening quotation mark. */
  function StringScan(t: bytes, pos: nat, log: seq<Event>, isKey: bool): (r: Scan)
    requires pos < |t|
    ensures r.At? ==> pos < r.pos <= |t|
  {
    match StringBody(t, pos + 1, [])
    case BadText(code, offset) => Failed(log, code, offset)
    case Text(q, str) => At(q, log + [if isKey then Key(str) else String(str)])
  }

  // ---------------------------------------------------------------- numbers

  const MAX_UINT: nat := 0xFFFF_FFFF
  const MIN_INT: nat := 0x8000_0000
  const MAX_UINT64: nat := 0xFFFF_FFFF_FFFF_FFFF
  const MIN_INT64: nat := 0x8000_0000_0000_0000

  datatype Digits = Digits(pos: nat, value: nat)

  /** One more digit would take the value past the limit: the test the integer loops make before they multiply. */
  predicate Overflows(value: nat, digit: nat, limit: nat) {
    value >= limit / 10 && (value != limit / 10 || digit > limit % 10)
  }

  /** An integer loop: stops at the first byte that is no digit, or that would take the value past `limit`. */
  function DigitRun(t: bytes, pos: nat, value: nat, limit: nat): (r: Digits)
    requires pos <= |t|
    ensures pos <= r.pos <= |t|
    ensures r.pos == pos ==> r.value == value
    ensures IsDigitAt(t, r.pos) ==> Overflows(r.value, DigitValue(Peek(t, r.pos)), limit)
    decreases |t| - pos
  {
    if IsDigitAt(t, pos) && !Overflows(value, DigitValue(Peek(t, pos)), limit) then
      DigitRun(t, pos + 1, value * 10 + DigitValue(Peek(t, pos)), limit)
    else Digits(pos, value)
  }

  /** Where a run of digits ends. */
  function SkipDigits(t: bytes, pos: nat): (r: nat)
    requires pos <= |t|
    ensures pos <= r <= |t|
    ensures !IsDigitAt(t, r)
    decreases |t| - pos
  {
    if IsDigitAt(t, pos) then SkipDigits(t, pos + 1) else pos
  }

  /** How the digits so far are held: in 32 bits, in 64 bits, or in a double. */
  datatype Width = W32 | W64 | WDouble

  /** The integer part: its end, how it is held, its value when in an integer, and the digits counted. */
  datatype Whole = Whole(pos: nat, width: Width, value: nat, digits: nat) | BadWhole(code: ErrorCode, offset: nat)

  /** The digits of a double-sized integer; the double is tested before each. */
  function BigDigits(t: bytes, cf: Config, start: nat, pos: nat): (r: Option<nat>)
    requires start <= pos <= |t|
    ensures r.Some? ==> pos <= r.value <= |t|
    decreases |t| - pos
  {
    if !IsDigitAt(t, pos) then Some(pos)
    else if cf.huge(t[start..pos]) then None
    else BigDigits(t, cf, start, pos + 1)
  }

  /** The integer part, from the byte after the sign. `start` is where the number starts. */
  function WholePart(t: bytes, cf: Config, start: nat, pos: nat, minus: bool): (r: Whole)
    requires start <= pos <= |t|
    ensures r.Whole? ==> pos < r.pos <= |t|
  {
    if Peek(t, pos) == '0' then Whole(pos + 1, W32, 0, 0)
    else if !IsDigitAt(t, pos) then BadWhole(ValueInvalid, pos)
    else
      var a := DigitRun(t, pos + 1, DigitValue(t[pos]), if minus then MIN_INT else MAX_UINT);
      if !IsDigitAt(t, a.pos) then Whole(a.pos, W32, a.value, a.pos - pos - 1)
      else
        var b := DigitRun(t, a.pos, a.value, if minus then MIN_INT64 else MAX_UINT64);
        if !IsDigitAt(t, b.pos) then Whole(b.pos, W64, b.value, b.pos - pos - 1)
        else
          match BigDigits(t, cf, pos, b.pos)
          case None => BadWhole(NumberTooBig, start)
          case Some(q) => Whole(q, WDouble, b.value, b.pos - pos - 1)
  }

  const MAX_SIGNIFICAND: nat := 0x1F_FFFF_FFFF_FFFF

  /** The digits after the point: where they end and how many of them scale the significand. */
  datatype Fraction = Fraction(pos: nat, scale: nat)

  /** The digits that still fit the 64-bit significand. */
  function ExactFraction(t: bytes, pos: nat, value: nat, scale: nat, digits: nat): (r: Fraction)
    requires pos <= |t|
    ensures pos <= r.pos <= |t|
    decreases |t| - pos, 1
  {
    if IsDigitAt(t, pos) && value <= MAX_SIGNIFICAND then
      var v := value * 10 + DigitValue(Peek(t, pos));
      ExactFraction(t, pos + 1, v, scale + 1, if v != 0 then digits + 1 else digits)
    else RestFraction(t, pos, value != 0, scale, digits)
  }

  /** The digits added to the double: the first seventeen significant ones, the rest is passed over. */
  function RestFraction(t: bytes, pos: nat, nonzero: bool, scale: nat, digits: nat): (r: Fraction)
    requires pos <= |t|
    ensures pos <= r.pos <= |t|
    decreases |t| - pos, 0
  {
    if !IsDigitAt(t, pos) then Fraction(pos, scale)
    else if digits < 17 then
      var nz := nonzero || Peek(t, pos) != '0';
      RestFraction(t, pos + 1, nz, scale + 1, if nz then digits + 1 else digits)
    else RestFraction(t, pos + 1, nonzero, scale, digits)
  }

  /** The digits of a positive exponent; `max` is the largest that does not overflow the double. */
  function Exponent(t: bytes, pos: nat, exp: nat, max: nat): (r: Option<nat>)
    requires pos <= |t|
    ensures r.Some? ==> pos <= r.value <= |t|
    decreases |t| - pos
  {
    if !IsDigitAt(t, pos) then Some(pos)
    else
      var e := exp * 10 + DigitValue(Peek(t, pos));
      if e > max then None else Exponent(t, pos + 1, e, max)
  }

  /** The exponent, from the byte after its `e`; without one, from the end of the number. */
  function ExponentPart(t: bytes, start: nat, pos: nat, scale: nat, log: seq<Event>): (r: Scan)
    requires start <= pos <= |t|
    ensures r.At? ==> pos <= r.pos <= |t|
  {
    var signed := Peek(t, pos) == '+' || Peek(t, pos) == '-';
    var p := if signed then pos + 1 else pos;
    if !IsDigitAt(t, p) then Failed(log, NumberMissExponent, p)
    else if Peek(t, pos) == '-' then DoubleScan(t, start, SkipDigits(t, p), log)
    else
      match Exponent(t, p + 1, DigitValue(t[p]), 308 + scale)
      case None => Failed(log, NumberTooBig, start)
      case Some(q) => DoubleScan(t, start, q, log)
  }

  function DoubleScan(t: bytes, start: nat, pos: nat, log: seq<Event>): (r: Scan)
    requires start <= pos <= |t|
  {
    At(pos, log + [Double(t[start..pos])])
  }

  /** The event for a number without point and exponent. */
  function IntegerEvent(t: bytes, start: nat, minus: bool, w: Whole): Event
    requires w.Whole? && start <= w.pos <= |t|
  {
    match w.width
    case W32 => if minus then Int(0 - w.value) else Uint(w.value)
    case W64 => if minus then Int64(0 - w.value) else Uint64(w.value)
    case WDouble => Double(t[start..w.pos])
  }

  predicate IsE(c: byte) { c == 'e' || c == 'E' }

  /** What follows the integer part. */
  function NumberRest(t: bytes, start: nat, minus: bool, w: Whole, log: seq<Event>): (r: Scan)
    requires w.Whole? && start <= w.pos <= |t|
    ensures r.At? ==> w.pos <= r.pos <= |t|
  {
    if Peek(t, w.pos) == '.' then
      if !IsDigitAt(t, w.pos + 1) then Failed(log, NumberMissFraction, w.pos + 1)
      else
        var f := if w.width == WDouble then RestFraction(t, w.pos + 1, true, 0, w.digits)
                 else ExactFraction(t, w.pos + 1, w.value, 0, w.digits);
        if IsE(Peek(t, f.pos)) then ExponentPart(t, start, f.pos + 1, f.scale, log)
        else DoubleScan(t, start, f.pos, log)
    else if IsE(Peek(t, w.pos)) then ExponentPart(t, start, w.pos + 1, 0, log)
    else At(w.pos, log + [IntegerEvent(t, start, minus, w)])
  }

  /** ParseNumber. */
  function NumberScan(t: bytes, cf: Config, pos: nat, log: seq<Event>): (r: Scan)
    requires pos <= |t|
    ensures r.At? ==> pos < r.pos <= |t|
  {
    var minus := Peek(t, pos) == '-';
    var p := if minus then pos + 1 else pos;
    match WholePart(t, cf, pos, p, minus)
    case BadWhole(code, offset) => Failed(log, code, offset)
    case w => NumberRest(t, pos, minus, w, log)
  }

  // ---------------------------------------------------------------- values that are no containers

  /** ParseValue on anything but `{` and `[`. */
  function ScalarScan(t: bytes, cf: Config, pos: nat, log: seq<Event>): (r: Scan)
    requires pos <= |t| && Peek(t, pos) != '{' && Peek(t, pos) != '['
    ensures r.At? ==> pos < r.pos <= |t|
  {
    match Peek(t, pos)
    case 'n' => Literal(t, pos, log, "null", Null)
    case 't' => Literal(t, pos, log, "true", Bool(true))
    case 'f' => Literal(t, pos, log, "false", Bool(false))
    case '"' => StringScan(t, pos, log, false)
    case _ => NumberScan(t, cf, pos, log)
  }
}
