/** How the strings of a JSON text may be spelled, what a spelling means, and what is no spelling. */
module JsonSpelling {
  import opened Bytes
  import opened Utf8
  import opened JsonTypes
  import opened JsonScan

  const LOWER: string := "0123456789abcdef"
  const UPPER: string := "0123456789ABCDEF"

  /** A hexadecimal digit has this value; its letter may be of either case. */
  predicate Worth(c: byte, v: nat) {
    v < 16 && (c == LOWER[v] || c == UPPER[v])
  }

  predicate FourDigits(w: bytes, v: nat) {
    && |w| == 4 && v < 0x10000
    && Worth(w[0], v / 0x1000) && Worth(w[1], v / 0x100 % 0x10) && Worth(w[2], v / 0x10 % 0x10) && Worth(w[3], v % 0x10)
  }

  /** The letter after a backslash, and the byte it stands for. */
  predicate StandsFor(letter: byte, c: byte) {
    (letter, c) in {('"', '"'), ('\\', '\\'), ('/', '/'), ('b', 8 as char), ('f', 12 as char), ('n', 10 as char),
                    ('r', 13 as char), ('t', 9 as char)}
  }

  /** A part of a spelling: a byte that stands for itself, an escape of two bytes, or one with digits. */
  datatype Piece =
    | Plain(c: byte)
    | Short(letter: byte, stands: byte)
    | Unit(digits: bytes, cp: nat)
    | Surrogates(high: bytes, low: bytes, cp: nat)

  /** The piece is allowed. A low surrogate may stand alone, a high one may not. */
  predicate Fits(p: Piece) {
    match p
    case Plain(c) => c as int >= 0x20 && c != '"' && c != '\\'
    case Short(letter, c) => StandsFor(letter, c)
    case Unit(w, cp) => FourDigits(w, cp) && !(0xD800 <= cp < 0xDC00)
    case Surrogates(high, low, cp) =>
      && 0x10000 <= cp < 0x110000
      && FourDigits(high, 0xD800 + (cp - 0x10000) / 0x400) && FourDigits(low, 0xDC00 + (cp - 0x10000) % 0x400)
  }

  function PieceText(p: Piece): bytes {
    match p
    case Plain(c) => [c]
    case Short(letter, c) => ['\\', letter]
    case Unit(w, cp) => "\\u" + w
    case Surrogates(high, low, cp) => "\\u" + high + "\\u" + low
  }

  function PieceMeans(p: Piece): bytes
    requires Fits(p)
  {
    match p
    case Plain(c) => [c]
    case Short(letter, c) => [c]
    case Unit(w, cp) => Encode(cp)
    case Surrogates(high, low, cp) => Encode(cp)
  }

  predicate AllFit(ps: seq<Piece>) {
    forall k :: 0 <= k < |ps| ==> Fits(ps[k])
  }

  function Spelling(ps: seq<Piece>): bytes {
    if ps == [] then [] else PieceText(ps[0]) + Spelling(ps[1..])
  }

  function Meaning(ps: seq<Piece>): bytes
    requires AllFit(ps)
  {
    if ps == [] then [] else PieceMeans(ps[0]) + Meaning(ps[1..])
  }

  // ---------------------------------------------------------------- hexadecimal digits

  /** Four digits of this value stand at `pos`. */
  predicate HexAt(t: bytes, pos: nat, v: nat) {
    pos + 4 <= |t| && FourDigits(t[pos..pos + 4], v)
  }

  lemma WorthExact(c: byte, v: nat)
    ensures Worth(c, v) <==> HexValue(c) == Some(v)
  {
  }

  lemma DigitsOf(v: nat, a: nat, b: nat, c: nat, d: nat)
    requires a < 16 && b < 16 && c < 16 && d < 16
    ensures v == ((a * 16 + b) * 16 + c) * 16 + d <==>
              v / 0x1000 == a && v / 0x100 % 0x10 == b && v / 0x10 % 0x10 == c && v % 0x10 == d
  {
    assert v == v / 0x10 * 0x10 + v % 0x10;
    assert v / 0x10 == v / 0x100 * 0x10 + v / 0x10 % 0x10;
    assert v / 0x100 == v / 0x1000 * 0x10 + v / 0x100 % 0x10;
  }

  lemma HexFour(t: bytes, pos: nat)
    ensures var a, b, c, d := HexValue(Peek(t, pos)), HexValue(Peek(t, pos + 1)), HexValue(Peek(t, pos + 2)),
                              HexValue(Peek(t, pos + 3));
            Hex(t, pos, 4, 0) == if a.Some? && b.Some? && c.Some? && d.Some?
                                 then Some(((a.value * 16 + b.value) * 16 + c.value) * 16 + d.value) else None
  {
    hide HexValue, Peek;
    var a, b, c, d := HexValue(Peek(t, pos)), HexValue(Peek(t, pos + 1)), HexValue(Peek(t, pos + 2)),
                      HexValue(Peek(t, pos + 3));
    if a.Some? {
      assert Hex(t, pos, 4, 0) == Hex(t, pos + 1, 3, a.value);
      if b.Some? {
        assert Hex(t, pos + 1, 3, a.value) == Hex(t, pos + 2, 2, a.value * 16 + b.value);
        if c.Some? {
          assert Hex(t, pos + 2, 2, a.value * 16 + b.value)
              == Hex(t, pos + 3, 1, (a.value * 16 + b.value) * 16 + c.value);
          if d.Some? {
            var n := ((a.value * 16 + b.value) * 16 + c.value) * 16 + d.value;
            assert Hex(t, pos + 4, 0, n) == Some(n);
          }
        }
      }
    }
  }

  lemma ValueBelow(c: byte)
    ensures HexValue(c).Some? ==> HexValue(c).value < 16
    ensures HexValue('\0').None?
  {
  }

  /** The reader takes four digits of either case for their value, and nothing else. */
  lemma HexExact(t: bytes, pos: nat, v: nat)
    ensures Hex(t, pos, 4, 0) == Some(v) <==> HexAt(t, pos, v)
  {
    hide HexValue, Worth, Hex;
    HexFour(t, pos);
    ValueBelow(Peek(t, pos));
    ValueBelow(Peek(t, pos + 1));
    ValueBelow(Peek(t, pos + 2));
    ValueBelow(Peek(t, pos + 3));
    var a, b, c, d := HexValue(Peek(t, pos)), HexValue(Peek(t, pos + 1)), HexValue(Peek(t, pos + 2)),
                      HexValue(Peek(t, pos + 3));
    if pos + 4 <= |t| {
      var w := t[pos..pos + 4];
      assert w == [Peek(t, pos), Peek(t, pos + 1), Peek(t, pos + 2), Peek(t, pos + 3)];
      WorthExact(w[0], v / 0x1000);
      WorthExact(w[1], v / 0x100 % 0x10);
      WorthExact(w[2], v / 0x10 % 0x10);
      WorthExact(w[3], v % 0x10);
      if a.Some? && b.Some? && c.Some? && d.Some? {
        DigitsOf(v, a.value, b.value, c.value, d.value);
      }
    }
  }

  /** The code point of a pair, by its two halves. */
  lemma PairExact(cp: nat, high: nat, low: nat)
    requires 0xD800 <= high < 0xDC00 && 0xDC00 <= low < 0xE000
    ensures var joined := (high - 0xD800) * 1024 + (low - 0xDC00) + 0x10000;
            && 0x10000 <= joined < 0x110000
            && (cp == joined <==> cp >= 0x10000 && high == 0xD800 + (cp - 0x10000) / 0x400
                                  && low == 0xDC00 + (cp - 0x10000) % 0x400)
  {
  }

  // ---------------------------------------------------------------- one piece

  /** An escape with digits, at its backslash. */
  lemma UnitStep(t: bytes, pos: nat, str: bytes, v: nat)
    requires pos + 2 <= |t| && t[pos] == '\\' && t[pos + 1] == 'u' && HexAt(t, pos + 2, v) && !(0xD800 <= v < 0xDC00)
    ensures StringBody(t, pos, str) == StringBody(t, pos + 6, str + Encode(v))
  {
    hide Hex, Encode, HexAt;
    HexExact(t, pos + 2, v);
  }

  lemma SurrogatesStep(t: bytes, pos: nat, str: bytes, high: nat, low: nat)
    requires pos + 8 <= |t| && t[pos] == '\\' && t[pos + 1] == 'u' && t[pos + 6] == '\\' && t[pos + 7] == 'u'
    requires HexAt(t, pos + 2, high) && 0xD800 <= high < 0xDC00
    requires HexAt(t, pos + 8, low) && 0xDC00 <= low < 0xE000
    ensures StringBody(t, pos, str)
         == StringBody(t, pos + 12, str + Encode((high - 0xD800) * 1024 + (low - 0xDC00) + 0x10000))
  {
    hide Hex, Encode, HexAt;
    HexExact(t, pos + 2, high);
    HexExact(t, pos + 8, low);
  }

  /** A piece is read as what it means. */
  lemma PieceRead(t: bytes, pos: nat, p: Piece, str: bytes)
    requires Fits(p) && Has(t, pos, PieceText(p))
    ensures StringBody(t, pos, str) == StringBody(t, pos + |PieceText(p)|, str + PieceMeans(p))
  {
    hide UnicodeEscape, Encode, FourDigits;
    var w := PieceText(p);
    HasAt(t, pos, w, 0);
    match p
    case Plain(c) =>
    case Short(letter, c) => HasAt(t, pos, w, 1);
    case Unit(digits, cp) => {
      HasAt(t, pos, w, 1);
      HasConcat(t, pos, "\\u", digits);
      Counted(digits, cp);
      UnitStep(t, pos, str, cp);
    }
    case Surrogates(high, low, cp) => PairRead(t, pos, high, low, cp, str);
  }

  lemma Counted(w: bytes, v: nat)
    requires FourDigits(w, v)
    ensures |w| == 4 && v < 0x10000
  {
  }

  lemma PairRead(t: bytes, pos: nat, high: bytes, low: bytes, cp: nat, str: bytes)
    requires Fits(Surrogates(high, low, cp)) && Has(t, pos, PieceText(Surrogates(high, low, cp)))
    ensures StringBody(t, pos, str)
         == StringBody(t, pos + |PieceText(Surrogates(high, low, cp))|, str + Encode(cp))
  {
    hide StringBody, Encode, FourDigits;
    var h, l := 0xD800 + (cp - 0x10000) / 0x400, 0xDC00 + (cp - 0x10000) % 0x400;
    Counted(high, h);
    Counted(low, l);
    HasConcat(t, pos, "\\u" + high + "\\u", low);
    HasConcat(t, pos, "\\u" + high, "\\u");
    HasConcat(t, pos, "\\u", high);
    HasAt(t, pos, "\\u", 0);
    HasAt(t, pos, "\\u", 1);
    HasAt(t, pos + 6, "\\u", 0);
    HasAt(t, pos + 6, "\\u", 1);
    PairExact(cp, h, l);
    SurrogatesStep(t, pos, str, h, l);
  }

  /** Nothing is taken at `pos`: the string is refused there. */
  predicate StringStops(t: bytes, pos: nat, str: bytes)
    requires pos <= |t|
  {
    var r := StringBody(t, pos, str);
    r.BadText? && r.offset == pos
  }

  /** What the reader takes next is a piece. */
  lemma NextPiece(t: bytes, pos: nat, str: bytes) returns (p: Piece)
    requires pos <= |t| && Peek(t, pos) != '"' && !StringStops(t, pos, str)
    ensures Fits(p) && Has(t, pos, PieceText(p)) && PieceText(p) != []
    ensures StringBody(t, pos, str) == StringBody(t, pos + |PieceText(p)|, str + PieceMeans(p))
  {
    hide UnicodeEscape, Encode, FourDigits;
    if Peek(t, pos) != '\\' {
      p := Plain(t[pos]);
    } else if Unescape(Peek(t, pos + 1)).Some? {
      p := Short(t[pos + 1], Unescape(t[pos + 1]).value);
      assert t[pos..pos + 2] == PieceText(p);
    } else {
      p := NextEscape(t, pos, str);
    }
  }

  lemma NextEscape(t: bytes, pos: nat, str: bytes) returns (p: Piece)
    requires pos + 2 <= |t| && t[pos] == '\\' && t[pos + 1] == 'u' && UnicodeEscape(t, pos + 2).Point?
    ensures Fits(p) && Has(t, pos, PieceText(p)) && PieceText(p) != []
    ensures StringBody(t, pos, str) == StringBody(t, pos + |PieceText(p)|, str + PieceMeans(p))
  {
    hide Hex, StringBody, Encode, FourDigits;
    var first := Hex(t, pos + 2, 4, 0).value;
    HexExact(t, pos + 2, first);
    var w := t[pos + 2..pos + 6];
    Counted(w, first);
    assert t[pos..pos + 2] == "\\u";
    HasConcat(t, pos, "\\u", w);
    if !(0xD800 <= first < 0xDC00) {
      p := Unit(w, first);
      UnitStep(t, pos, str, first);
    } else {
      var second := Hex(t, pos + 8, 4, 0).value;
      HexExact(t, pos + 8, second);
      var low := t[pos + 8..pos + 12];
      Counted(low, second);
      var cp := (first - 0xD800) * 1024 + (second - 0xDC00) + 0x10000;
      PairExact(cp, first, second);
      p := Surrogates(w, low, cp);
      assert t[pos + 6..pos + 8] == "\\u";
      HasConcat(t, pos, "\\u" + w, "\\u");
      HasConcat(t, pos, "\\u" + w + "\\u", low);
      SurrogatesStep(t, pos, str, first, second);
    }
  }

  // ---------------------------------------------------------------- whole strings

  lemma {:induction false} SpellingRead(t: bytes, pos: nat, ps: seq<Piece>, str: bytes)
    requires AllFit(ps) && Has(t, pos, Spelling(ps))
    ensures StringBody(t, pos, str) == StringBody(t, pos + |Spelling(ps)|, str + Meaning(ps))
    decreases |ps|
  {
    hide StringBody, PieceText, PieceMeans, Fits;
    if ps == [] {
      assert str + [] == str;
    } else {
      HasConcat(t, pos, PieceText(ps[0]), Spelling(ps[1..]));
      PieceRead(t, pos, ps[0], str);
      SpellingRead(t, pos + |PieceText(ps[0])|, ps[1..], str + PieceMeans(ps[0]));
      assert str + PieceMeans(ps[0]) + Meaning(ps[1..]) == str + Meaning(ps);
    }
  }

  /** A string that was read was spelled. */
  lemma {:induction false} ReadSpelling(t: bytes, pos: nat, str: bytes) returns (ps: seq<Piece>)
    requires pos <= |t| && StringBody(t, pos, str).Text?
    ensures AllFit(ps) && Has(t, pos, Spelling(ps) + "\"")
    ensures StringBody(t, pos, str) == Text(pos + |Spelling(ps)| + 1, str + Meaning(ps))
    decreases |t| - pos
  {
    hide PieceText, PieceMeans, Fits, UnicodeEscape;
    if Peek(t, pos) == '"' {
      ps := [];
      assert t[pos..pos + 1] == "\"" && Spelling(ps) + "\"" == "\"" && str + Meaning(ps) == str;
    } else {
      var p := NextPiece(t, pos, str);
      var rest := ReadSpelling(t, pos + |PieceText(p)|, str + PieceMeans(p));
      ps := [p] + rest;
      assert ps[1..] == rest;
      assert Spelling(ps) + "\"" == PieceText(p) + (Spelling(rest) + "\"");
      HasConcat(t, pos, PieceText(p), Spelling(rest) + "\"");
      assert str + PieceMeans(p) + Meaning(rest) == str + Meaning(ps);
    }
  }

  /** Exactly the spellings that end in a quotation mark are read, each as the string it means. */
  lemma StringExact(t: bytes, pos: nat, q: nat, str: bytes)
    requires pos <= |t|
    ensures StringBody(t, pos, []) == Text(q, str) <==>
              exists ps :: AllFit(ps) && Has(t, pos, Spelling(ps) + "\"")
                           && q == pos + |Spelling(ps)| + 1 && str == Meaning(ps)
  {
    hide StringBody, Spelling, Meaning, AllFit;
    if StringBody(t, pos, []) == Text(q, str) {
      var ps := ReadSpelling(t, pos, []);
      assert [] + Meaning(ps) == Meaning(ps);
    }
    forall ps | AllFit(ps) && Has(t, pos, Spelling(ps) + "\"")
      ensures StringBody(t, pos, []) == Text(pos + |Spelling(ps)| + 1, Meaning(ps))
    {
      SpellingEnds(t, pos, ps);
    }
  }

  lemma SpellingEnds(t: bytes, pos: nat, ps: seq<Piece>)
    requires AllFit(ps) && Has(t, pos, Spelling(ps) + "\"")
    ensures StringBody(t, pos, []) == Text(pos + |Spelling(ps)| + 1, Meaning(ps))
  {
    hide Spelling, Meaning;
    HasConcat(t, pos, Spelling(ps), "\"");
    SpellingRead(t, pos, ps, []);
    HasAt(t, pos + |Spelling(ps)|, "\"", 0);
    assert [] + Meaning(ps) == Meaning(ps);
  }

  /** Lower-case digits mean what upper-case ones mean. */
  lemma SmallLetters()
    ensures StringBody("\\u00e9\"", 0, []) == Text(7, [0xC3 as char, 0xA9 as char])
    ensures StringBody("\\u00E9\"", 0, []) == Text(7, [0xC3 as char, 0xA9 as char])
  {
    hide StringBody;
    OneUnit("\\u00e9\"", "00e9", 0xE9);
    OneUnit("\\u00E9\"", "00E9", 0xE9);
    EncodeTwo(3, 0x29);
  }

  lemma OneUnit(t: bytes, w: bytes, cp: nat)
    requires FourDigits(w, cp) && !(0xD800 <= cp < 0xDC00) && t == "\\u" + w + "\""
    ensures StringBody(t, 0, []) == Text(7, Encode(cp))
  {
    hide StringBody, Encode, FourDigits;
    Counted(w, cp);
    var ps := [Unit(w, cp)];
    assert ps[1..] == [] && Spelling(ps) == "\\u" + w && Meaning(ps) == Encode(cp);
    assert t[0..0 + |t|] == t;
    SpellingEnds(t, 0, ps);
  }

  // ---------------------------------------------------------------- what is no spelling

  /** No four digits stand at `pos`. */
  ghost predicate NoDigits(t: bytes, pos: nat) {
    forall v: nat :: !HexAt(t, pos, v)
  }

  /** A high surrogate stands at `pos`. */
  ghost predicate HighAt(t: bytes, pos: nat) {
    exists v: nat :: HexAt(t, pos, v) && 0xD800 <= v < 0xDC00
  }

  ghost predicate LowAt(t: bytes, pos: nat) {
    exists v: nat :: HexAt(t, pos, v) && 0xDC00 <= v < 0xE000
  }

  /** Why no piece and no quotation mark stands at `pos`. */
  ghost predicate Fault(t: bytes, pos: nat, code: ErrorCode) {
    match code
    case StringMissQuotationMark => Peek(t, pos) == '\0'
    case StringEscapeInvalid =>
      || '\0' < Peek(t, pos) < ' '
      || (Peek(t, pos) == '\\' && Peek(t, pos + 1) !in "\"\\/bfnrtu")
    case StringUnicodeEscapeInvalidHex =>
      && Has(t, pos, "\\u")
      && (NoDigits(t, pos + 2) || (HighAt(t, pos + 2) && Has(t, pos + 6, "\\u") && NoDigits(t, pos + 8)))
    case StringUnicodeSurrogateInvalid =>
      && Has(t, pos, "\\u") && HighAt(t, pos + 2)
      && (!Has(t, pos + 6, "\\u") || (!NoDigits(t, pos + 8) && !LowAt(t, pos + 8)))
    case _ => false
  }

  lemma {:induction false} RefusedLater(t: bytes, pos: nat, str: bytes)
    requires pos <= |t| && StringBody(t, pos, str).BadText?
    ensures pos <= StringBody(t, pos, str).offset
    decreases |t| - pos
  {
    hide UnicodeEscape, Encode;
    var c, e := Peek(t, pos), Peek(t, pos + 1);
    if c == '\\' {
      if Unescape(e).Some? {
        RefusedLater(t, pos + 2, str + [Unescape(e).value]);
      } else if e == 'u' && UnicodeEscape(t, pos + 2).Point? {
        RefusedLater(t, UnicodeEscape(t, pos + 2).pos, str + Encode(UnicodeEscape(t, pos + 2).cp));
      }
    } else if c != '"' && c >= ' ' {
      RefusedLater(t, pos + 1, str + [c]);
    }
  }

  lemma FaultHere(t: bytes, pos: nat, str: bytes)
    requires pos <= |t| && StringStops(t, pos, str)
    ensures Fault(t, pos, StringBody(t, pos, str).code)
  {
    hide UnicodeEscape, Encode, Fault;
    var c, e := Peek(t, pos), Peek(t, pos + 1);
    if c == '\\' {
      if Unescape(e).Some? {
        RefusedLater(t, pos + 2, str + [Unescape(e).value]);
        assert false;
      } else if e == 'u' {
        if UnicodeEscape(t, pos + 2).Point? {
          RefusedLater(t, UnicodeEscape(t, pos + 2).pos, str + Encode(UnicodeEscape(t, pos + 2).cp));
          assert false;
        } else {
          EscapeFault(t, pos);
        }
      } else {
        ByteFault(t, pos);
      }
    } else {
      if c != '"' && c >= ' ' {
        RefusedLater(t, pos + 1, str + [c]);
      }
      ByteFault(t, pos);
    }
  }

  lemma ByteFault(t: bytes, pos: nat)
    ensures Peek(t, pos) == '\0' ==> Fault(t, pos, StringMissQuotationMark)
    ensures '\0' < Peek(t, pos) < ' ' ==> Fault(t, pos, StringEscapeInvalid)
    ensures Peek(t, pos) == '\\' && Peek(t, pos + 1) != 'u' && Unescape(Peek(t, pos + 1)).None? ==>
              Fault(t, pos, StringEscapeInvalid)
  {
  }

  lemma EscapeFault(t: bytes, pos: nat)
    requires pos + 2 <= |t| && t[pos] == '\\' && t[pos + 1] == 'u' && UnicodeEscape(t, pos + 2).BadEscape?
    ensures Fault(t, pos, UnicodeEscape(t, pos + 2).code)
  {
    hide Hex, HexAt;
    assert t[pos..pos + 2] == "\\u";
    DigitsOrNot(t, pos + 2);
    DigitsOrNot(t, pos + 8);
    if Has(t, pos + 6, "\\u") {
      HasAt(t, pos + 6, "\\u", 0);
      HasAt(t, pos + 6, "\\u", 1);
    }
  }

  lemma DigitsOrNot(t: bytes, pos: nat)
    ensures NoDigits(t, pos) <==> Hex(t, pos, 4, 0).None?
    ensures HighAt(t, pos) <==> Hex(t, pos, 4, 0).Some? && 0xD800 <= Hex(t, pos, 4, 0).value < 0xDC00
    ensures LowAt(t, pos) <==> Hex(t, pos, 4, 0).Some? && 0xDC00 <= Hex(t, pos, 4, 0).value < 0xE000
  {
    hide Hex, HexAt;
    forall v: nat ensures Hex(t, pos, 4, 0) == Some(v) <==> HexAt(t, pos, v) {
      HexExact(t, pos, v);
    }
    if Hex(t, pos, 4, 0).Some? {
      assert HexAt(t, pos, Hex(t, pos, 4, 0).value);
    }
  }

  /** A string is refused after a spelling, at a place and for a reason that is found there. */
  lemma {:induction false} StringRefused(t: bytes, pos: nat, str: bytes) returns (ps: seq<Piece>)
    requires pos <= |t| && StringBody(t, pos, str).BadText?
    ensures AllFit(ps) && Has(t, pos, Spelling(ps))
    ensures var r := StringBody(t, pos, str); r.offset == pos + |Spelling(ps)| && Fault(t, r.offset, r.code)
    decreases |t| - pos
  {
    hide PieceText, PieceMeans, Fits, UnicodeEscape, Fault;
    var r := StringBody(t, pos, str);
    if StringStops(t, pos, str) {
      ps := [];
      FaultHere(t, pos, str);
    } else {
      var p := NextPiece(t, pos, str);
      var rest := StringRefused(t, pos + |PieceText(p)|, str + PieceMeans(p));
      ps := [p] + rest;
      assert ps[1..] == rest;
      HasConcat(t, pos, PieceText(p), Spelling(rest));
    }
  }
}
