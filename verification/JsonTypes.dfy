/** The events, error codes and parse flags of the JSON reader, and its NUL-terminated input. */
module JsonTypes {
  import opened Bytes

  /** What the reader tells its handler. A double is given as the text it was read from. */
  datatype Event =
    | Null
    | Bool(b: bool)
    | Int(i: int) | Uint(u: nat) | Int64(i64: int) | Uint64(u64: nat)
    | Double(literal: bytes)
    | String(str: bytes)
    | Key(name: bytes)
    | StartObject | EndObject(memberCount: nat)
    | StartArray | EndArray(elementCount: nat)

  datatype ErrorCode =
    | DocumentEmpty | DocumentRootNotSingular
    | ValueInvalid
    | ObjectMissName | ObjectMissColon | ObjectMissCommaOrCurlyBracket
    | ArrayMissCommaOrSquareBracket
    | StringUnicodeEscapeInvalidHex | StringUnicodeSurrogateInvalid
    | StringEscapeInvalid | StringMissQuotationMark
    | NumberTooBig | NumberMissFraction | NumberMissExponent
    | UnspecificSyntaxError

  /**
   * The parse flags, and the one floating-point test that decides between success and failure:
   * `huge(digits)` says whether the double accumulated from these digits is at least a tenth of DBL_MAX.
   */
  datatype Config = Config(comments: bool, trailingCommas: bool, stopWhenDone: bool, huge: bytes -> bool)

  /** A reader in the middle of its input: where it is and what it has reported; or what stopped it. */
  datatype Scan =
    | At(pos: nat, log: seq<Event>)
    | Failed(log: seq<Event>, code: ErrorCode, offset: nat)

  /** `is.Peek()`: the byte at `pos`, or the terminating NUL. A NUL in the text ends it just as well. */
  function Peek(t: bytes, pos: nat): byte {
    if pos < |t| then t[pos] else '\0'
  }

  predicate IsDigitAt(t: bytes, pos: nat) {
    IsDigit(Peek(t, pos))
  }

  /** `++` on a 32-bit SizeType. */
  function Inc32(n: nat): (r: nat)
    ensures r < 0x1_0000_0000
  {
    (n + 1) % 0x1_0000_0000
  }
}
