/** JSON pointers (RFC 6901): parsing into tokens, and writing them back. */
module JsonPointer {
  import opened Bytes
  import opened Decimals
  import opened Utf8
  import JsonAscii
  import JsonScan
  import JsonWriter

  /** No index. */
  const INVALID_INDEX: nat := 0xFFFF_FFFF

  datatype Token = Token(name: bytes, index: nat)

  datatype PointerError =
    | TokenMustBeginWithSolidus | InvalidEscape | InvalidPercentEncoding | CharacterMustPercentEncode

  datatype Parsed = Tokens(tokens: seq<Token>) | Malformed(code: PointerError, offset: nat)

  // ---------------------------------------------------------------- the index of a name

  /** The loop that converts digits: 32-bit arithmetic, and a test for a product below the number it came from. */
  function Convert(n: nat, digits: bytes): (r: nat)
    requires n < 0x1_0000_0000 && AllDigits(digits)
    ensures r < 0x1_0000_0000
    decreases |digits|
  {
    if digits == [] then n
    else
      var m := (n * 10 + DigitValue(digits[0])) % 0x1_0000_0000;
      if m < n then INVALID_INDEX else Convert(m, digits[1..])
  }

  /** A name that can be an index: digits without a leading zero. */
  predicate IsNumber(name: bytes) {
    name != [] && AllDigits(name) && (|name| > 1 ==> name[0] != '0')
  }

  function IndexOf(name: bytes): nat {
    if IsNumber(name) then Convert(0, name) else INVALID_INDEX
  }

  /** Some step of the conversion is seen to wrap. */
  predicate WrapSeen(n: nat, digits: bytes)
    requires n < 0x1_0000_0000 && AllDigits(digits)
    decreases |digits|
  {
    digits != []
    && var m := (n * 10 + DigitValue(digits[0])) % 0x1_0000_0000;
       m < n || WrapSeen(m, digits[1..])
  }

  lemma DecimalSplit(v: nat, digits: bytes)
    requires digits != [] && AllDigits(digits)
    ensures Decimal(v, digits) == Decimal(v * 10 + DigitValue(digits[0]), digits[1..])
  {
  }

  /** Without a wrap seen, the conversion is exact modulo 2^32; a number that fits is always converted exactly. */
  lemma {:induction false} ConvertExact(n: nat, v: nat, digits: bytes)
    requires AllDigits(digits) && n == v % 0x1_0000_0000
    ensures !WrapSeen(n, digits) ==> Convert(n, digits) == Decimal(v, digits) % 0x1_0000_0000
    ensures WrapSeen(n, digits) ==> Convert(n, digits) == INVALID_INDEX && Decimal(v, digits) >= 0x1_0000_0000
    decreases |digits|
  {
    if digits != [] {
      var d := DigitValue(digits[0]);
      var m := (n * 10 + d) % 0x1_0000_0000;
      DecimalSplit(v, digits);
      ModStep(n, v, d);
      DecimalGrows(v * 10 + d, digits[1..]);
      if m >= n {
        ConvertExact(m, v * 10 + d, digits[1..]);
      }
    }
  }

  lemma ModStep(n: nat, v: nat, d: nat)
    requires n == v % 0x1_0000_0000 && d < 10
    ensures (n * 10 + d) % 0x1_0000_0000 == (v * 10 + d) % 0x1_0000_0000
    ensures v < 0x1_0000_0000 && (n * 10 + d) % 0x1_0000_0000 < n ==> v * 10 + d >= 0x1_0000_0000
  {
    var q := v / 0x1_0000_0000;
    assert v * 10 + d == n * 10 + d + q * 10 * 0x1_0000_0000;
  }

  /**
   * The index of a number is its value exactly if it is below 2^32, or else it must be seen to wrap: a larger
   * number that is not gets the index of a different one.
   */
  lemma IndexExact(name: bytes)
    requires name != [] && (forall k :: 0 <= k < |name| ==> '0' <= name[k] <= '9') && (name[0] == '0' ==> |name| == 1)
    ensures var v := Decimal(0, name);
            IndexOf(name) == if v < 0x1_0000_0000 then v
                             else if WrapSeen(0, name) then INVALID_INDEX
                             else v % 0x1_0000_0000
  {
    ConvertExact(0, 0, name);
  }

  /** A name with a byte that is no digit, or with a superfluous zero, has no index. */
  lemma NoIndex(name: bytes)
    requires (exists k :: 0 <= k < |name| && !('0' <= name[k] <= '9')) || (|name| > 1 && name[0] == '0') || name == []
    ensures IndexOf(name) == 0xFFFF_FFFF
  {
    if k :| 0 <= k < |name| && !('0' <= name[k] <= '9') {
      assert !IsDigit(name[k]);
    }
  }

  /** Ten thousand million is taken for the index 1410065408. */
  lemma WrapMissed()
    ensures Decimal(0, "10000000000") == 10_000_000_000 && IndexOf("10000000000") == 1_410_065_408
  {
    hide Convert, Decimal;
    var z := seq(10, _ => '0');
    assert "10000000000" == ['1'] + z;
    FirstDigit(z);
    Zeros(1, 10);
    assert z[..] == z;
  }

  lemma FirstDigit(z: bytes)
    requires AllDigits(z)
    ensures AllDigits(['1'] + z) && Convert(0, ['1'] + z) == Convert(1, z) && Decimal(0, ['1'] + z) == Decimal(1, z)
  {
    assert (['1'] + z)[1..] == z;
  }

  lemma Zeros(n: nat, k: nat)
    requires n == 1 && k == 10
    ensures var z: bytes := seq(k, _ => '0'); Convert(n, z) == 1_410_065_408 && Decimal(n, z) == 10_000_000_000
  {
    hide Convert, Decimal;
    ZeroDigit(1, 10);
    ZeroDigit(10, 9);
    ZeroDigit(100, 8);
    ZeroDigit(1_000, 7);
    ZeroDigit(10_000, 6);
    ZeroDigit(100_000, 5);
    ZeroDigit(1_000_000, 4);
    ZeroDigit(10_000_000, 3);
    ZeroDigit(100_000_000, 2);
    LastZero();
  }

  lemma ZeroDigit(n: nat, k: nat)
    requires n * 10 < 0x1_0000_0000 && k > 0
    ensures var y: bytes, z: bytes := seq(k, _ => '0'), seq(k - 1, _ => '0');
            Convert(n, y) == Convert(n * 10, z) && Decimal(n, y) == Decimal(n * 10, z)
  {
    var y: bytes, z: bytes := seq(k, _ => '0'), seq(k - 1, _ => '0');
    assert y[1..] == z;
  }

  lemma LastZero()
    ensures var z: bytes := seq(1, _ => '0');
            Convert(1_000_000_000, z) == 1_410_065_408 && Decimal(1_000_000_000, z) == 10_000_000_000
  {
    var z: bytes := seq(1, _ => '0');
    assert z == "0" && z[1..] == [];
  }

  // ---------------------------------------------------------------- parsing

  /** Unreserved characters (section 2.3 of RFC 3986) stand for themselves in a URI. */
  predicate NeedPercentEncode(c: byte) {
    !(IsDigit(c) || 'A' <= c <= 'Z' || 'a' <= c <= 'z' || c == '-' || c == '.' || c == '_' || c == '~')
  }

  /** PercentDecodeStream::Take: the byte of a percent-encoded triplet. */
  function PercentByte(t: bytes, pos: nat): Option<byte> {
    if pos + 3 > |t| || t[pos] != '%' then None
    else
      var h, l := JsonScan.HexValue(t[pos + 1]), JsonScan.HexValue(t[pos + 2]);
      if h.None? || l.None? then None else Some((h.value * 16 + l.value) as char)
  }

  /** The bytes of `n` triplets. */
  function PercentBytes(t: bytes, pos: nat, n: nat): (r: Option<bytes>)
    ensures r.Some? ==> |r.value| == n && (n > 0 ==> pos + 3 * n <= |t|)
    decreases n
  {
    if n == 0 then Some([])
    else if PercentByte(t, pos).None? || PercentBytes(t, pos + 3, n - 1).None? then None
    else Some([PercentByte(t, pos).value] + PercentBytes(t, pos + 3, n - 1).value)
  }

  /** How many bytes Validate takes after this lead byte. */
  function SequenceLength(lead: byte): (n: nat)
    ensures 1 <= n <= 4
  {
    if lead as int < 0x80 then 1 else 1 + |Ranges(GetRange(lead))|
  }

  /** A percent-encoded code point: the bytes of one UTF-8 sequence. */
  function PercentSequence(t: bytes, pos: nat): (r: Option<bytes>)
    ensures r.Some? ==> 1 <= |r.value| && pos + 3 * |r.value| <= |t|
  {
    match PercentByte(t, pos)
    case None => None
    case Some(lead) =>
      match PercentBytes(t, pos, SequenceLength(lead))
      case None => None
      case Some(bs) => if Decode(bs, 0).ok then Some(bs) else None
  }

  datatype NameResult = Name(pos: nat, name: bytes) | BadName(code: PointerError, offset: nat)

  /** The loop over the characters of a name, with the name so far. */
  function NameScan(t: bytes, i: nat, fragment: bool, name: bytes): (r: NameResult)
    requires i <= |t|
    ensures r.Name? ==> i <= r.pos <= |t| && (r.pos < |t| ==> t[r.pos] == '/')
    decreases |t| - i, 1
  {
    if i == |t| || t[i] == '/' then Name(i, name)
    else if fragment && t[i] == '%' then
      match PercentSequence(t, i)
      case None => BadName(InvalidPercentEncoding, i)
      case Some(bs) =>
        if |bs| == 1 then Unescaped(t, i + 3, fragment, name, bs[0])
        else NameScan(t, i + 3 * |bs|, fragment, name + bs)
    else if fragment && NeedPercentEncode(t[i]) then BadName(CharacterMustPercentEncode, i)
    else Unescaped(t, i + 1, fragment, name, t[i])
  }

  /** The character `c`, or the one that `~` and the next character stand for. */
  function Unescaped(t: bytes, i: nat, fragment: bool, name: bytes, c: byte): (r: NameResult)
    requires i <= |t|
    ensures r.Name? ==> i <= r.pos <= |t| && (r.pos < |t| ==> t[r.pos] == '/')
    decreases |t| - i, 2
  {
    if c != '~' then NameScan(t, i, fragment, name + [c])
    else if i < |t| && t[i] == '0' then NameScan(t, i + 1, fragment, name + ['~'])
    else if i < |t| && t[i] == '1' then NameScan(t, i + 1, fragment, name + ['/'])
    else BadName(InvalidEscape, i)
  }

  /** The loop over the tokens, at a solidus or at the end. */
  function TokenScan(t: bytes, i: nat, fragment: bool, tokens: seq<Token>): Parsed
    requires i <= |t| && (i < |t| ==> t[i] == '/')
    decreases |t| - i
  {
    if i == |t| then Tokens(tokens)
    else
      match NameScan(t, i + 1, fragment, [])
      case BadName(code, offset) => Malformed(code, offset)
      case Name(q, name) => TokenScan(t, q, fragment, tokens + [Token(name, IndexOf(name))])
  }

  /** Parse. */
  function Parse(t: bytes): Parsed {
    var fragment := t != [] && t[0] == '#';
    var i := if fragment then 1 else 0;
    if i != |t| && t[i] != '/' then Malformed(TokenMustBeginWithSolidus, i)
    else TokenScan(t, i, fragment, [])
  }

  // ---------------------------------------------------------------- writing

  function PercentText(c: byte): bytes {
    ['%', HexDigit(c as int / 16, true), HexDigit(c as int % 16, true)]
  }

  function PercentAll(bs: bytes): (r: bytes)
    ensures |r| == 3 * |bs|
  {
    if bs == [] then [] else PercentText(bs[0]) + PercentAll(bs[1..])
  }

  /** A name in a pointer, from byte `j` on; `None` if it is no UTF-8 and that matters. */
  function NameText(name: bytes, j: nat, fragment: bool): (r: Option<bytes>)
    requires j <= |name|
    decreases |name| - j
  {
    if j == |name| then Some([])
    else if name[j] == '~' then Prepend("~0", NameText(name, j + 1, fragment))
    else if name[j] == '/' then Prepend("~1", NameText(name, j + 1, fragment))
    else if !fragment || !NeedPercentEncode(name[j]) then Prepend([name[j]], NameText(name, j + 1, fragment))
    else
      var d := Decode(name, j);
      if !d.ok then None
      else
        EncodeDecode(name, j);
        EncodeNotEmpty(d.cp);
        Prepend(PercentAll(name[j..d.pos]), NameText(name, d.pos, fragment))
  }

  function Prepend(w: bytes, r: Option<bytes>): Option<bytes> {
    match r case None => None case Some(rest) => Some(w + rest)
  }

  /** Stringify: each name after a solidus. */
  function TokensText(tokens: seq<Token>, fragment: bool): Option<bytes> {
    if tokens == [] then Some([])
    else
      match NameText(tokens[0].name, 0, fragment)
      case None => None
      case Some(w) => Prepend("/" + w, TokensText(tokens[1..], fragment))
  }

  function Stringify(tokens: seq<Token>, fragment: bool): Option<bytes> {
    if fragment then Prepend("#", TokensText(tokens, fragment)) else TokensText(tokens, fragment)
  }

  // ---------------------------------------------------------------- writing what was parsed

  /** In the string representation a name is written just as it was read. */
  lemma {:induction false} NameForth(t: bytes, i: nat, name: bytes)
    requires i <= |t| && NameScan(t, i, false, name).Name?
    ensures var r := NameScan(t, i, false, name);
            && name <= r.name
            && NameText(r.name, |name|, false) == Some(t[i..r.pos])
    decreases |t| - i
  {
    if i == |t| || t[i] == '/' {
      assert t[i..i] == [];
    } else {
      var two := t[i] == '~';
      var next := if two then i + 2 else i + 1;
      var c: byte := if !two then t[i] else if t[i + 1] == '0' then '~' else '/';
      NameForth(t, next, name + [c]);
      var r := NameScan(t, i, false, name);
      assert r == NameScan(t, next, false, name + [c]);
      assert r.name[|name|] == (name + [c])[|name|] == c;
      var w: bytes := if two then [t[i], t[i + 1]] else [t[i]];
      SliceSplit(t, i, next, r.pos, w);
      assert NameText(r.name, |name|, false) == Prepend(w, NameText(r.name, |name| + 1, false));
    }
  }

  lemma SliceSplit(t: bytes, i: nat, k: nat, j: nat, w: bytes)
    requires i <= k <= j <= |t| && t[i..k] == w
    ensures t[i..j] == w + t[k..j]
  {
  }

  lemma {:induction false} TokensForth(t: bytes, i: nat, tokens: seq<Token>)
    requires i <= |t| && (i < |t| ==> t[i] == '/') && TokenScan(t, i, false, tokens).Tokens?
    ensures var all := TokenScan(t, i, false, tokens).tokens;
            && tokens <= all
            && TokensText(all[|tokens|..], false) == Some(t[i..])
            && forall k :: |tokens| <= k < |all| ==> all[k].index == IndexOf(all[k].name)
    decreases |t| - i
  {
    hide NameScan, NameText;
    if i == |t| {
      assert t[i..] == [] && tokens[|tokens|..] == [];
    } else {
      NameForth(t, i + 1, []);
      var r := NameScan(t, i + 1, false, []);
      var first := Token(r.name, IndexOf(r.name));
      TokensForth(t, r.pos, tokens + [first]);
      var all := TokenScan(t, i, false, tokens).tokens;
      assert all[|tokens|] == (tokens + [first])[|tokens|];
      assert all[|tokens|..][1..] == all[|tokens + [first]|..];
      assert t[i..] == "/" + t[i + 1..r.pos] + t[r.pos..];
      assert TokensText(all[|tokens|..], false)
          == Prepend("/" + t[i + 1..r.pos], TokensText(all[|tokens| + 1..], false));
    }
  }

  /** Every accepted string is written back as it was; its tokens carry the index of their names. */
  lemma StringifyInvertsParse(t: bytes)
    requires Parse(t).Tokens? && !(t != [] && t[0] == '#')
    ensures Stringify(Parse(t).tokens, false) == Some(t)
    ensures forall k :: 0 <= k < |Parse(t).tokens| ==> Parse(t).tokens[k].index == IndexOf(Parse(t).tokens[k].name)
  {
    TokensForth(t, 0, []);
    assert t[0..] == t;
  }

  // ---------------------------------------------------------------- parsing what was written

  lemma {:induction false} TailsPos(t: bytes, d: Decoded, ranges: seq<Range>)
    ensures Tails(t, d, ranges).pos == d.pos + |ranges|
    decreases |ranges|
  {
    if ranges != [] {
      TailsPos(t, Tail(t, d, ranges[0]), ranges[1..]);
    }
  }

  /** The lead byte of a sequence tells its length. */
  lemma LengthKnown(t: bytes, pos: nat)
    requires pos < |t| && Decode(t, pos).ok
    ensures Decode(t, pos).pos == pos + SequenceLength(t[pos])
  {
    hide Decode, Tails;
    if t[pos] as int < 0x80 {
      DecodeOne(t, pos);
    } else {
      DecodeTails(t, pos);
      TailsPos(t, Decoded(LeadBits(t[pos], GetRange(t[pos])), pos + 1, true), Ranges(GetRange(t[pos])));
    }
  }

  lemma PercentByteBack(t: bytes, pos: nat, c: byte)
    requires Has(t, pos, PercentText(c))
    ensures PercentByte(t, pos) == Some(c)
  {
    var w := PercentText(c);
    HasAt(t, pos, w, 0);
    HasAt(t, pos, w, 1);
    HasAt(t, pos, w, 2);
    JsonAscii.HexDigitBack(c as int / 16);
    JsonAscii.HexDigitBack(c as int % 16);
  }

  lemma {:induction false} PercentBytesBack(t: bytes, pos: nat, bs: bytes)
    requires Has(t, pos, PercentAll(bs))
    ensures PercentBytes(t, pos, |bs|) == Some(bs)
    decreases |bs|
  {
    hide PercentByte, PercentText;
    if bs != [] {
      HasConcat(t, pos, PercentText(bs[0]), PercentAll(bs[1..]));
      PercentByteBack(t, pos, bs[0]);
      assert |PercentText(bs[0])| == 3 by { PercentThree(bs[0]); }
      PercentBytesBack(t, pos + 3, bs[1..]);
      assert [bs[0]] + bs[1..] == bs;
    }
  }

  lemma PercentThree(c: byte)
    ensures |PercentText(c)| == 3 && PercentText(c)[0] == '%'
  {
  }

  /** A percent-encoded code point is read back. */
  lemma SequenceBack(t: bytes, pos: nat, name: bytes, j: nat)
    requires j < |name| && Decode(name, j).ok && Decode(name, j).pos <= |name|
    requires j < Decode(name, j).pos && Has(t, pos, PercentAll(name[j..Decode(name, j).pos]))
    ensures PercentSequence(t, pos) == Some(name[j..Decode(name, j).pos])
    ensures pos < |t| && t[pos] == '%'
  {
    hide Decode, PercentText, PercentByte, Encode, GetRange;
    var d := Decode(name, j);
    var bs := name[j..d.pos];
    EncodeDecode(name, j);
    assert bs == Encode(d.cp) by { SliceIs(name, j, Encode(d.cp)); }
    assert bs[0..0 + |bs|] == bs;
    DecodeEncode(bs, 0, d.cp);
    LengthKnown(name, j);
    PercentBytesBack(t, pos, bs);
    HasConcat(t, pos, PercentText(bs[0]), PercentAll(bs[1..]));
    PercentByteBack(t, pos, bs[0]);
    PercentThree(bs[0]);
    HasAt(t, pos, PercentText(bs[0]), 0);
  }

  lemma SliceIs(t: bytes, pos: nat, w: bytes)
    requires Has(t, pos, w)
    ensures t[pos..pos + |w|] == w
  {
  }

  /** A name is read back from its text, in either representation. */
  lemma {:induction false} NameBack(t: bytes, i: nat, name: bytes, j: nat, fragment: bool, before: bytes)
    requires j <= |name| && NameText(name, j, fragment).Some?
    requires var w := NameText(name, j, fragment).value;
             Has(t, i, w) && (i + |w| == |t| || t[i + |w|] == '/')
    ensures i <= |t|
    ensures NameScan(t, i, fragment, before) == Name(i + |NameText(name, j, fragment).value|, before + name[j..])
    decreases |name| - j
  {
    hide Decode, PercentSequence, PercentAll, Encode, NameScan, Has, NameText;
    if j == |name| {
      NameEnd(t, i, name, fragment, before);
    } else {
      var next, head := NameHead(name, j, fragment);
      var rest := NameText(name, next, fragment).value;
      HasConcat(t, i, head, rest);
      NameBack(t, i + |head|, name, next, fragment, before + name[j..next]);
      SliceSplit(name, j, next, |name|, name[j..next]);
      assert before + name[j..next] + name[next..] == before + (name[j..next] + name[next..]);
      HeadBack(t, i, name, j, next, fragment, head, before);
    }
  }

  lemma NameEnd(t: bytes, i: nat, name: bytes, fragment: bool, before: bytes)
    requires var w := NameText(name, |name|, fragment).value; Has(t, i, w) && (i + |w| == |t| || t[i + |w|] == '/')
    ensures NameText(name, |name|, fragment) == Some([])
    ensures i <= |t| && NameScan(t, i, fragment, before) == Name(i, before + name[|name|..])
  {
    assert before + name[|name|..] == before;
  }

  /** `head` is the text of `name[j..next]`: one character, or one percent-encoded code point. */
  predicate HeadText(name: bytes, j: nat, next: nat, fragment: bool, head: bytes)
    requires j < next <= |name|
  {
    if name[j] == '~' then next == j + 1 && head == "~0"
    else if name[j] == '/' then next == j + 1 && head == "~1"
    else if !fragment || !NeedPercentEncode(name[j]) then next == j + 1 && head == [name[j]]
    else Decode(name, j).ok && next == Decode(name, j).pos && head == PercentAll(name[j..next])
  }

  lemma NameHead(name: bytes, j: nat, fragment: bool) returns (next: nat, head: bytes)
    requires j < |name| && NameText(name, j, fragment).Some?
    ensures j < next <= |name| && HeadText(name, j, next, fragment, head)
    ensures NameText(name, next, fragment).Some?
    ensures NameText(name, j, fragment).value == head + NameText(name, next, fragment).value
  {
    hide Decode, PercentAll, Encode;
    next := j + 1;
    if name[j] == '~' {
      head := "~0";
    } else if name[j] == '/' {
      head := "~1";
    } else if !fragment || !NeedPercentEncode(name[j]) {
      head := [name[j]];
    } else {
      next := Decode(name, j).pos;
      EncodeDecode(name, j);
      EncodeNotEmpty(Decode(name, j).cp);
      head := PercentAll(name[j..next]);
    }
  }

  lemma HeadBack(t: bytes, i: nat, name: bytes, j: nat, next: nat, fragment: bool, head: bytes, before: bytes)
    requires j < next <= |name| && HeadText(name, j, next, fragment, head) && Has(t, i, head)
    ensures i + |head| <= |t|
    ensures NameScan(t, i, fragment, before) == NameScan(t, i + |head|, fragment, before + name[j..next])
  {
    hide Decode, PercentSequence, PercentAll;
    assert name[j..j + 1] == [name[j]];
    if name[j] == '~' || name[j] == '/' || !fragment || !NeedPercentEncode(name[j]) {
      HasAt(t, i, head, 0);
      if |head| > 1 {
        HasAt(t, i, head, 1);
      }
    } else {
      SequenceBack(t, i, name, j);
      var bs := name[j..next];
      assert bs[0] == name[j];
    }
  }

  /** Names with the index that parsing gives them. */
  function WithIndexes(names: seq<bytes>): (r: seq<Token>)
    ensures |r| == |names|
  {
    if names == [] then [] else [Token(names[0], IndexOf(names[0]))] + WithIndexes(names[1..])
  }

  lemma {:induction false} TokensBack(t: bytes, i: nat, names: seq<bytes>, fragment: bool, before: seq<Token>)
    requires TokensText(WithIndexes(names), fragment).Some?
    requires var w := TokensText(WithIndexes(names), fragment).value; Has(t, i, w) && i + |w| == |t|
    ensures i <= |t| && (i < |t| ==> t[i] == '/')
    ensures TokenScan(t, i, fragment, before) == Tokens(before + WithIndexes(names))
    decreases |names|
  {
    hide NameScan, NameText, IndexOf;
    var tokens := WithIndexes(names);
    if names == [] {
      assert before + [] == before;
    } else {
      var w := NameText(names[0], 0, fragment).value;
      assert tokens[1..] == WithIndexes(names[1..]);
      var rest := TokensText(tokens[1..], fragment).value;
      HasConcat(t, i, "/" + w, rest);
      HasConcat(t, i, "/", w);
      HasAt(t, i, "/", 0);
      var q := i + 1 + |w|;
      TokensBack(t, q, names[1..], fragment, before + [tokens[0]]);
      NameBack(t, i + 1, names[0], 0, fragment, []);
      assert [] + names[0][0..] == names[0];
      assert before + [tokens[0]] + tokens[1..] == before + tokens;
    }
  }

  lemma {:induction false} NameTextExact(name: bytes, j: nat, fragment: bool)
    requires j <= |name|
    ensures NameText(name, j, fragment).Some? <==> !fragment || DecodeAll(name, j).Some?
    decreases |name| - j
  {
    hide Decode, Encode, PercentAll;
    if j < |name| {
      if name[j] as int < 0x80 {
        DecodeOne(name, j);
      }
      if Decode(name, j).ok {
        EncodeDecode(name, j);
        EncodeNotEmpty(Decode(name, j).cp);
        NameTextExact(name, Decode(name, j).pos, fragment);
      }
      if !fragment || name[j] as int < 0x80 {
        NameTextExact(name, j + 1, fragment);
      }
    }
  }

  lemma {:induction false} TokensTextExact(names: seq<bytes>, fragment: bool)
    ensures TokensText(WithIndexes(names), fragment).Some? <==>
              !fragment || forall k :: 0 <= k < |names| ==> DecodeAll(names[k], 0).Some?
    decreases |names|
  {
    hide NameText, DecodeAll, IndexOf;
    if names != [] {
      NameTextExact(names[0], 0, fragment);
      TokensTextExact(names[1..], fragment);
      var tokens := WithIndexes(names);
      assert tokens[1..] == WithIndexes(names[1..]);
      assert forall k :: 0 < k < |names| ==> names[k] == names[1..][k - 1];
    }
  }

  /**
   * Names that are written are read back, in either representation; and they are written exactly if they may be
   * any bytes, or are UTF-8.
   */
  lemma ParseInvertsStringify(names: seq<bytes>, fragment: bool)
    ensures Stringify(WithIndexes(names), fragment).Some? <==>
              !fragment || forall k :: 0 <= k < |names| ==> DecodeAll(names[k], 0).Some?
    ensures Stringify(WithIndexes(names), fragment).Some? ==>
              Parse(Stringify(WithIndexes(names), fragment).value) == Tokens(WithIndexes(names))
  {
    hide TokensText, TokenScan, WithIndexes, DecodeAll;
    TokensTextExact(names, fragment);
    if Stringify(WithIndexes(names), fragment).Some? {
      var w := TokensText(WithIndexes(names), fragment).value;
      var t := if fragment then "#" + w else w;
      var i := if fragment then 1 else 0;
      assert t[i..i + |w|] == w;
      TokensBack(t, i, names, fragment, []);
      assert [] + WithIndexes(names) == WithIndexes(names);
    }
  }
}
