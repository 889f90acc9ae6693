/** The writer with an ASCII target: every code point above 127 is written as one or two unicode escapes. */
module JsonAscii {
  import opened Bytes
  import opened Utf8
  import opened JsonTypes
  import opened JsonScan
  import opened JsonWriter
  import opened JsonRoundTrip

  /** Four hexadecimal digits. */
  function Hex4(n: nat): (r: bytes)
    requires n < 0x10000
    ensures |r| == 4
  {
    [HexDigit(n / 0x1000, true), HexDigit(n / 0x100 % 0x10, true), HexDigit(n / 0x10 % 0x10, true),
     HexDigit(n % 0x10, true)]
  }

  /** The escape of a code point; one beyond the first plane is a surrogate pair. */
  function UnicodeText(cp: nat): bytes
    requires IsScalar(cp)
  {
    if cp < 0x10000 then "\\u" + Hex4(cp)
    else
      var s := cp - 0x10000;
      "\\u" + Hex4(s / 0x400 + 0xD800) + ("\\u" + Hex4(s % 0x400 + 0xDC00))
  }

  /** WriteString between its quotation marks, from byte `i` on; `None` if the bytes are no UTF-8. */
  function AsciiEscaped(s: bytes, i: nat): (r: Option<bytes>)
    requires i <= |s|
    decreases |s| - i
  {
    if i == |s| then Some([])
    else if s[i] as int < 0x80 then
      match AsciiEscaped(s, i + 1)
      case None => None
      case Some(rest) => Some(EscapeByte(s[i]) + rest)
    else
      var d := Decode(s, i);
      if !d.ok then None
      else
        EncodeDecode(s, i);
        EncodeNotEmpty(d.cp);
        match AsciiEscaped(s, d.pos)
        case None => None
        case Some(rest) => Some(UnicodeText(d.cp) + rest)
  }

  lemma Hex4Back(t: bytes, pos: nat, n: nat)
    requires n < 0x10000 && Has(t, pos, Hex4(n))
    ensures Hex(t, pos, 4, 0) == Some(n)
  {
    hide *;
    Hex4Digits(n);
    var ds := HexDigits(n);
    forall k | 0 <= k < 4 ensures HexValue(Peek(t, pos + k)) == Some(ds[k]) {
      HasByte(t, pos, Hex4(n), k);
      HexDigitBack(ds[k]);
    }
    HexFour(t, pos, ds[0], ds[1], ds[2], ds[3]);
  }

  function HexDigits(n: nat): seq<nat> {
    [n / 0x1000, n / 0x100 % 0x10, n / 0x10 % 0x10, n % 0x10]
  }

  lemma Hex4Digits(n: nat)
    requires n < 0x10000
    ensures var ds := HexDigits(n);
            && |ds| == 4 && ((ds[0] * 16 + ds[1]) * 16 + ds[2]) * 16 + ds[3] == n
            && forall k :: 0 <= k < 4 ==> ds[k] < 16 && Hex4(n)[k] == HexDigit(ds[k], true)
  {
    hide HexDigit;
    DigitsAddUp(n);
    var ds := HexDigits(n);
    assert Hex4(n) == [HexDigit(ds[0], true), HexDigit(ds[1], true), HexDigit(ds[2], true), HexDigit(ds[3], true)];
  }

  lemma DigitsAddUp(n: nat)
    requires n < 0x10000
    ensures n / 0x1000 < 0x10
    ensures ((n / 0x1000 * 16 + n / 0x100 % 0x10) * 16 + n / 0x10 % 0x10) * 16 + n % 0x10 == n
  {
    var a, b := n / 0x10, n / 0x100;
    assert a == 16 * b + a % 16;
    assert b == 16 * (n / 0x1000) + b % 16;
  }

  lemma HexFour(t: bytes, pos: nat, a: nat, b: nat, c: nat, d: nat)
    requires HexValue(Peek(t, pos)) == Some(a) && HexValue(Peek(t, pos + 1)) == Some(b)
    requires HexValue(Peek(t, pos + 2)) == Some(c) && HexValue(Peek(t, pos + 3)) == Some(d)
    ensures Hex(t, pos, 4, 0) == Some(((a * 16 + b) * 16 + c) * 16 + d)
  {
    hide HexValue, Peek;
    var n := ((a * 16 + b) * 16 + c) * 16 + d;
    assert Hex(t, pos + 4, 0, n) == Some(n);
    assert Hex(t, pos + 3, 1, (a * 16 + b) * 16 + c) == Some(n);
    assert Hex(t, pos + 2, 2, a * 16 + b) == Some(n);
    assert Hex(t, pos + 1, 3, a) == Some(n);
  }

  lemma HexDigitBack(n: nat)
    requires n < 16
    ensures HexValue(HexDigit(n, true)) == Some(n)
  {
  }

  /** The reader gets the code point back, and with it the same bytes. */
  lemma UnicodeBack(t: bytes, pos: nat, cp: nat, str: bytes)
    requires IsScalar(cp) && Has(t, pos, UnicodeText(cp))
    ensures StringBody(t, pos, str) == StringBody(t, pos + |UnicodeText(cp)|, str + Encode(cp))
  {
    hide Hex, Hex4, Encode, Has;
    if cp < 0x10000 {
      EscapeStart(t, pos, Hex4(cp));
      Hex4Back(t, pos + 2, cp);
    } else {
      var s := cp - 0x10000;
      var high, low := s / 0x400 + 0xD800, s % 0x400 + 0xDC00;
      HasConcat(t, pos, "\\u" + Hex4(high), "\\u" + Hex4(low));
      EscapeStart(t, pos, Hex4(high));
      EscapeStart(t, pos + 6, Hex4(low));
      Hex4Back(t, pos + 2, high);
      Hex4Back(t, pos + 8, low);
      assert (high - 0xD800) * 1024 + (low - 0xDC00) + 0x10000 == cp;
    }
  }

  lemma EscapeStart(t: bytes, pos: nat, digits: bytes)
    requires Has(t, pos, "\\u" + digits)
    ensures Peek(t, pos) == '\\' && Peek(t, pos + 1) == 'u' && pos + 2 <= |t| && Has(t, pos + 2, digits)
  {
    HasConcat(t, pos, "\\u", digits);
    HasByte(t, pos, "\\u", 0);
    HasByte(t, pos, "\\u", 1);
  }

  /** A string that is written in ASCII reads back as the same UTF-8. */
  lemma {:induction false} AsciiBack(t: bytes, pos: nat, s: bytes, i: nat, str: bytes)
    requires i <= |s| && AsciiEscaped(s, i).Some?
    requires Has(t, pos, AsciiEscaped(s, i).value) && Peek(t, pos + |AsciiEscaped(s, i).value|) == '"'
    ensures StringBody(t, pos, str) == Text(pos + |AsciiEscaped(s, i).value| + 1, str + s[i..])
    decreases |s| - i
  {
    hide Decode, Encode, UnicodeText, EscapeByte, StringBody, Has;
    if i == |s| {
      EndBack(t, pos, str);
    } else if s[i] as int < 0x80 {
      var rest := AsciiEscaped(s, i + 1).value;
      HasConcat(t, pos, EscapeByte(s[i]), rest);
      EscapeBack(t, pos, s[i], str);
      AsciiBack(t, pos + |EscapeByte(s[i])|, s, i + 1, str + [s[i]]);
      assert str + [s[i]] + s[i + 1..] == str + s[i..];
    } else {
      var d := Decode(s, i);
      EncodeDecode(s, i);
      EncodeNotEmpty(d.cp);
      var rest := AsciiEscaped(s, d.pos).value;
      HasConcat(t, pos, UnicodeText(d.cp), rest);
      UnicodeBack(t, pos, d.cp, str);
      AsciiBack(t, pos + |UnicodeText(d.cp)|, s, d.pos, str + Encode(d.cp));
      assert Encode(d.cp) + s[d.pos..] == s[i..] by { SliceAt(s, i, Encode(d.cp)); }
      assert str + Encode(d.cp) + s[d.pos..] == str + s[i..];
    }
  }

  lemma SliceAt(s: bytes, i: nat, w: bytes)
    requires Has(s, i, w)
    ensures w + s[i + |w|..] == s[i..]
  {
  }

  /** The writer succeeds exactly on UTF-8, writes ASCII only, and the reader gets the string back. */
  lemma AsciiRoundTrip(s: bytes, log: seq<Event>)
    ensures AsciiEscaped(s, 0).Some? <==> DecodeAll(s, 0).Some?
    ensures AsciiEscaped(s, 0).Some? ==>
              var t := "\"" + AsciiEscaped(s, 0).value + "\"";
              && StringScan(t, 0, log, false) == At(|t|, log + [String(s)])
              && forall k :: 0 <= k < |t| ==> t[k] as int < 0x80
  {
    hide StringBody;
    AsciiExact(s, 0);
    if AsciiEscaped(s, 0).Some? {
      var w := AsciiEscaped(s, 0).value;
      var t := "\"" + w + "\"";
      assert t[1..1 + |w|] == w;
      AsciiBack(t, 1, s, 0, []);
      assert [] + s[0..] == s;
      forall k | 0 <= k < |t| ensures t[k] as int < 0x80 {
        if 0 < k < |t| - 1 {
          assert t[k] == w[k - 1] && w[k - 1] in w;
        }
      }
    }
  }

  lemma {:induction false} AsciiExact(s: bytes, i: nat)
    requires i <= |s|
    ensures AsciiEscaped(s, i).Some? <==> DecodeAll(s, i).Some?
    ensures AsciiEscaped(s, i).Some? ==> forall c :: c in AsciiEscaped(s, i).value ==> c as int < 0x80
    decreases |s| - i
  {
    hide Decode, Encode, UnicodeText, EscapeByte;
    if i < |s| {
      if s[i] as int < 0x80 {
        DecodeOne(s, i);
        AsciiExact(s, i + 1);
        PlainAscii(s[i]);
      } else if Decode(s, i).ok {
        EncodeDecode(s, i);
        EncodeNotEmpty(Decode(s, i).cp);
        AsciiExact(s, Decode(s, i).pos);
        UnicodeAscii(Decode(s, i).cp);
      }
    }
  }

  lemma PlainAscii(c: byte)
    requires c as int < 0x80
    ensures forall k :: k in EscapeByte(c) ==> k as int < 0x80
  {
  }

  lemma UnicodeAscii(cp: nat)
    requires IsScalar(cp)
    ensures forall k :: k in UnicodeText(cp) ==> k as int < 0x80
  {
  }
}
