/** UTF-8 as the `UTF8` encoding does it: encoding code points, and decoding with a table of byte classes. */
module Utf8 {
  import opened Bytes

  predicate HighSurrogate(cp: nat) { 0xD800 <= cp <= 0xDBFF }
  predicate LowSurrogate(cp: nat) { 0xDC00 <= cp <= 0xDFFF }

  /** A Unicode scalar value: a code point that is no surrogate. */
  predicate IsScalar(cp: nat) {
    cp <= 0x10FFFF && !(0xD800 <= cp <= 0xDFFF)
  }

  /** UTF8::Encode. A surrogate that stands alone is encoded like any other code point. */
  function Encode(cp: nat): bytes
    requires cp <= 0x10FFFF
  {
    if cp <= 0x7F then [cp as char]
    else if cp <= 0x7FF then [(0xC0 + cp / 64) as char, Continuation(cp)]
    else if cp <= 0xFFFF then [(0xE0 + cp / 4096) as char, Continuation(cp / 64), Continuation(cp)]
    else [(0xF0 + cp / 262144) as char, Continuation(cp / 4096), Continuation(cp / 64), Continuation(cp)]
  }

  function Continuation(cp: nat): byte {
    (0x80 + cp % 64) as char
  }

  /** GetRange: the class of a byte. Continuation bytes have one of three bits; lead bytes a small number. */
  function GetRange(c: byte): nat {
    var n := c as int;
    if n < 0x80 then 0
    else if n < 0x90 then 0x10
    else if n < 0xA0 then 0x40
    else if n < 0xC0 then 0x20
    else if n < 0xC2 then 8
    else if n < 0xE0 then 2
    else if n == 0xE0 then 10
    else if n == 0xED then 4
    else if n < 0xF0 then 3
    else if n == 0xF0 then 11
    else if n < 0xF4 then 6
    else if n == 0xF4 then 5
    else 8
  }

  /** `is.Take()` at `pos`: a NUL at the end. */
  function At(t: bytes, pos: nat): byte {
    if pos < |t| then t[pos] else '\0'
  }

  /** The code point so far, where the input stands, and whether every byte was in its range. */
  datatype Decoded = Decoded(cp: nat, pos: nat, ok: bool)

  /** The ranges a TRANS can ask for. */
  datatype Range = Any | Below90 | BelowA0 | FromA0 | From90

  /** TRANS: the masks 0x70, 0x10, 0x50, 0x20 and 0x60 on the class of a byte. */
  predicate InRange(c: byte, range: Range) {
    var g := GetRange(c);
    match range
    case Any => g == 0x10 || g == 0x20 || g == 0x40
    case Below90 => g == 0x10
    case BelowA0 => g == 0x10 || g == 0x40
    case FromA0 => g == 0x20
    case From90 => g == 0x20 || g == 0x40
  }

  /** COPY and TRANS. */
  function Tail(t: bytes, d: Decoded, range: Range): Decoded {
    var c := At(t, d.pos);
    Decoded(d.cp * 64 + c as int % 64, d.pos + 1, d.ok && InRange(c, range))
  }

  /** The bits of a lead byte that belong to the code point. */
  function LeadBits(c: byte, kind: nat): nat {
    match kind
    case 2 => c as int % 64
    case 3 => c as int % 32
    case 4 => c as int % 16
    case 5 => c as int % 8
    case 6 => c as int % 4
    case _ => 0
  }

  /** Decode, one code point. */
  function Decode(t: bytes, pos: nat): Decoded {
    var c := At(t, pos);
    var g := GetRange(c);
    var d := Decoded(LeadBits(c, g), pos + 1, true);
    if c as int < 0x80 then Decoded(c as int, pos + 1, true)
    else
      match g
      case 2 => Tail(t, d, Any)
      case 3 => Tail(t, Tail(t, d, Any), Any)
      case 4 => Tail(t, Tail(t, d, BelowA0), Any)
      case 5 => Tail(t, Tail(t, Tail(t, d, Below90), Any), Any)
      case 6 => Tail(t, Tail(t, Tail(t, d, Any), Any), Any)
      case 10 => Tail(t, Tail(t, d, FromA0), Any)
      case 11 => Tail(t, Tail(t, Tail(t, d, From90), Any), Any)
      case _ => d.(ok := false)
  }

  // ---------------------------------------------------------------- one code point

  /** A byte with its top bit set and the next one clear carries six bits. */
  predicate IsContinuation(c: byte) {
    0x80 <= c as int < 0xC0
  }

  lemma RangeBits(c: byte, range: Range)
    ensures InRange(c, Any) <==> IsContinuation(c)
    ensures InRange(c, range) ==> IsContinuation(c)
    ensures InRange(c, BelowA0) <==> 0x80 <= c as int < 0xA0
    ensures InRange(c, Below90) <==> 0x80 <= c as int < 0x90
    ensures InRange(c, FromA0) <==> 0xA0 <= c as int < 0xC0
    ensures InRange(c, From90) <==> 0x90 <= c as int < 0xC0
    ensures IsContinuation(c) ==> c as int % 64 == c as int - 0x80
  {
  }

  lemma DecodeTwo(t: bytes, pos: nat)
    requires 0xC2 <= At(t, pos) as int < 0xE0
    ensures var c, d := At(t, pos) as int, At(t, pos + 1);
            Decode(t, pos).ok <==> IsContinuation(d)
    ensures var c, d := At(t, pos) as int, At(t, pos + 1);
            IsContinuation(d) ==> Decode(t, pos) == Decoded((c - 0xC0) * 64 + (d as int - 0x80), pos + 2, true)
  {
    hide InRange;
    RangeBits(At(t, pos + 1), Any);
  }

  /** Three bytes: the second one is in range if the code point needs three bytes and is no surrogate. */
  lemma DecodeThree(t: bytes, pos: nat)
    requires 0xE0 <= At(t, pos) as int < 0xF0
    ensures var b, c, d := At(t, pos) as int, At(t, pos + 1), At(t, pos + 2);
            var high := (b - 0xE0) * 64 + (c as int - 0x80);
            && (Decode(t, pos).ok <==>
                  IsContinuation(c) && IsContinuation(d) && high >= 0x20 && !(0x360 <= high < 0x380))
            && (Decode(t, pos).ok ==> Decode(t, pos) == Decoded(high * 64 + (d as int - 0x80), pos + 3, true))
  {
    hide InRange;
    RangeBits(At(t, pos + 1), Any);
    RangeBits(At(t, pos + 2), Any);
  }

  /** Four bytes: the second one is in range if the code point needs four bytes and is not past the last one. */
  lemma DecodeFour(t: bytes, pos: nat)
    requires 0xF0 <= At(t, pos) as int < 0xF5
    ensures var b, c, d, e := At(t, pos) as int, At(t, pos + 1), At(t, pos + 2), At(t, pos + 3);
            var high := (b - 0xF0) * 64 + (c as int - 0x80);
            && (Decode(t, pos).ok <==>
                 IsContinuation(c) && IsContinuation(d) && IsContinuation(e) && 0x10 <= high < 0x110)
            && (Decode(t, pos).ok ==>
                 Decode(t, pos) == Decoded((high * 64 + (d as int - 0x80)) * 64 + (e as int - 0x80), pos + 4, true))
  {
    hide InRange;
    RangeBits(At(t, pos + 1), Any);
    RangeBits(At(t, pos + 2), Any);
    RangeBits(At(t, pos + 3), Any);
  }

  /** The encoding of a scalar value decodes to it, whatever follows. */
  lemma DecodeEncode(t: bytes, pos: nat, cp: nat)
    requires IsScalar(cp) && Has(t, pos, Encode(cp))
    ensures Decode(t, pos) == Decoded(cp, pos + |Encode(cp)|, true)
  {
    hide Decode;
    var w := Encode(cp);
    HasAt(t, pos, w, 0);
    if cp <= 0x7F {
      DecodeOne(t, pos);
    } else {
      HasAt(t, pos, w, 1);
      if cp <= 0x7FF {
        DecodeTwo(t, pos);
      } else {
        HasAt(t, pos, w, 2);
        if cp <= 0xFFFF {
          DecodeThree(t, pos);
          Digits(cp);
        } else {
          HasAt(t, pos, w, 3);
          DecodeFour(t, pos);
          Digits(cp);
        }
      }
    }
  }

  lemma DecodeOne(t: bytes, pos: nat)
    requires At(t, pos) as int < 0x80
    ensures Decode(t, pos) == Decoded(At(t, pos) as int, pos + 1, true)
  {
  }

  /** A number by its digits to the base 64. */
  lemma Digits(cp: nat)
    ensures cp == cp / 64 * 64 + cp % 64
    ensures cp / 64 == cp / 4096 * 64 + cp / 64 % 64
    ensures cp / 4096 == cp / 262144 * 64 + cp / 4096 % 64
  {
  }

  lemma EncodeTwo(x: nat, y: nat)
    requires 2 <= x < 32 && y < 64
    ensures Encode(x * 64 + y) == [(0xC0 + x) as char, (0x80 + y) as char]
  {
  }

  lemma EncodeThree(x: nat, y: nat, z: nat)
    requires x < 16 && y < 64 && z < 64 && x * 64 + y >= 0x20
    ensures Encode((x * 64 + y) * 64 + z) == [(0xE0 + x) as char, (0x80 + y) as char, (0x80 + z) as char]
  {
    var cp := (x * 64 + y) * 64 + z;
    assert cp / 64 == x * 64 + y && cp / 4096 == x;
  }

  lemma EncodeFour(x: nat, y: nat, z: nat, u: nat)
    requires x < 8 && y < 64 && z < 64 && u < 64 && 0x10 <= x * 64 + y < 0x110
    ensures Encode(((x * 64 + y) * 64 + z) * 64 + u)
         == [(0xF0 + x) as char, (0x80 + y) as char, (0x80 + z) as char, (0x80 + u) as char]
  {
    var cp := ((x * 64 + y) * 64 + z) * 64 + u;
    assert cp / 64 == (x * 64 + y) * 64 + z && cp / 4096 == x * 64 + y && cp / 262144 == x;
  }

  /** Whatever decodes is the encoding of the scalar value that it decodes to. */
  lemma EncodeDecode(t: bytes, pos: nat)
    requires pos < |t| && Decode(t, pos).ok
    ensures var d := Decode(t, pos); IsScalar(d.cp) && Has(t, pos, Encode(d.cp)) && d.pos == pos + |Encode(d.cp)| <= |t|
  {
    hide Decode, GetRange, Encode;
    var n := At(t, pos) as int;
    LeadByte(t, pos);
    if n < 0x80 {
      DecodeOne(t, pos);
      assert Encode(n) == [t[pos]] by { EncodeOne(n); }
    } else if n < 0xE0 {
      DecodeTwo(t, pos);
      EncodeTwo(n - 0xC0, At(t, pos + 1) as int - 0x80);
    } else if n < 0xF0 {
      DecodeThree(t, pos);
      EncodeThree(n - 0xE0, At(t, pos + 1) as int - 0x80, At(t, pos + 2) as int - 0x80);
    } else {
      DecodeFour(t, pos);
      EncodeFour(n - 0xF0, At(t, pos + 1) as int - 0x80, At(t, pos + 2) as int - 0x80, At(t, pos + 3) as int - 0x80);
    }
  }

  lemma LeadByte(t: bytes, pos: nat)
    requires Decode(t, pos).ok
    ensures var n := At(t, pos) as int; n < 0x80 || 0xC2 <= n < 0xF5
  {
  }

  lemma EncodeOne(n: nat)
    requires n < 0x80
    ensures Encode(n) == [n as char]
  {
  }

  // ---------------------------------------------------------------- strings

  function EncodeAll(cps: seq<nat>): bytes
    requires forall k :: 0 <= k < |cps| ==> IsScalar(cps[k])
  {
    if cps == [] then []
    else
      assert IsScalar(cps[0]);
      Encode(cps[0]) + EncodeAll(cps[1..])
  }

  /** Repeated Decode up to the end of the text. */
  function DecodeAll(t: bytes, pos: nat): (r: Option<seq<nat>>)
    decreases |t| - pos
  {
    if pos >= |t| then (if pos == |t| then Some([]) else None)
    else
      var d := Decode(t, pos);
      if !d.ok || d.pos <= pos || DecodeAll(t, d.pos).None? then None
      else Some([d.cp] + DecodeAll(t, d.pos).value)
  }

  /** Decoding inverts encoding, on every sequence of scalar values. */
  lemma {:induction false} DecodeInvertsEncode(t: bytes, pos: nat, cps: seq<nat>)
    requires forall k :: 0 <= k < |cps| ==> IsScalar(cps[k])
    requires Has(t, pos, EncodeAll(cps)) && pos + |EncodeAll(cps)| == |t|
    ensures DecodeAll(t, pos) == Some(cps)
    decreases |cps|
  {
    hide Decode, Encode;
    if cps != [] {
      HasConcat(t, pos, Encode(cps[0]), EncodeAll(cps[1..]));
      DecodeEncode(t, pos, cps[0]);
      EncodeNotEmpty(cps[0]);
      DecodeInvertsEncode(t, pos + |Encode(cps[0])|, cps[1..]);
      assert [cps[0]] + cps[1..] == cps;
    }
  }

  lemma EncodeNotEmpty(cp: nat)
    requires cp <= 0x10FFFF
    ensures Encode(cp) != []
  {
  }

  /** Exactly the encodings of scalar values are accepted. */
  lemma {:induction false} EncodeInvertsDecode(t: bytes, pos: nat)
    requires pos <= |t| && DecodeAll(t, pos).Some?
    ensures var cps := DecodeAll(t, pos).value;
            (forall k :: 0 <= k < |cps| ==> IsScalar(cps[k])) && EncodeAll(cps) == t[pos..]
    decreases |t| - pos
  {
    hide Decode, Encode, IsScalar;
    if pos < |t| {
      EncodeDecode(t, pos);
      var d := Decode(t, pos);
      EncodeInvertsDecode(t, d.pos);
      var rest := DecodeAll(t, d.pos).value;
      var cps := [d.cp] + rest;
      assert cps[1..] == rest;
      assert t[pos..] == t[pos..d.pos] + t[d.pos..];
    }
  }

  /** A text is the encoding of scalar values exactly if it decodes. */
  lemma Exactness(t: bytes)
    ensures DecodeAll(t, 0).Some? <==>
              exists cps: seq<nat> :: (forall k :: 0 <= k < |cps| ==> IsScalar(cps[k])) && EncodeAll(cps) == t
  {
    if DecodeAll(t, 0).Some? {
      EncodeInvertsDecode(t, 0);
      assert t[0..] == t;
    }
    if cps: seq<nat> :| (forall k :: 0 <= k < |cps| ==> IsScalar(cps[k])) && EncodeAll(cps) == t {
      assert t[0..0 + |t|] == t;
      DecodeInvertsEncode(t, 0, cps);
    }
  }

  // ---------------------------------------------------------------- Validate

  /** The ranges that the bytes after a lead byte are tested for. */
  function Ranges(kind: nat): seq<Range> {
    match kind
    case 2 => [Any]
    case 3 => [Any, Any]
    case 4 => [BelowA0, Any]
    case 5 => [Below90, Any, Any]
    case 6 => [Any, Any, Any]
    case 10 => [FromA0, Any]
    case 11 => [From90, Any, Any]
    case _ => []
  }

  function Tails(t: bytes, d: Decoded, ranges: seq<Range>): Decoded
    decreases |ranges|
  {
    if ranges == [] then d else Tails(t, Tail(t, d, ranges[0]), ranges[1..])
  }

  lemma TailsFew(t: bytes, d: Decoded, a: Range, b: Range, c: Range)
    ensures Tails(t, d, [a]) == Tail(t, d, a)
    ensures Tails(t, d, [a, b]) == Tail(t, Tail(t, d, a), b)
    ensures Tails(t, d, [a, b, c]) == Tail(t, Tail(t, Tail(t, d, a), b), c)
  {
    hide Tail;
    assert [a][1..] == [] && [a, b][1..] == [b] && [a, b, c][1..] == [b, c];
    assert [b][1..] == [] && [b, c][1..] == [c] && [c][1..] == [];
    var e, f := Tail(t, d, a), Tail(t, Tail(t, d, a), b);
    assert Tails(t, e, [b]) == Tail(t, e, b);
    assert Tails(t, f, [c]) == Tail(t, f, c);
    assert Tails(t, e, [b, c]) == Tails(t, f, [c]);
  }

  lemma DecodeTails(t: bytes, pos: nat)
    requires At(t, pos) as int >= 0x80
    ensures var g := GetRange(At(t, pos));
            Decode(t, pos) == if Ranges(g) == [] then Decoded(0, pos + 1, false)
                              else Tails(t, Decoded(LeadBits(At(t, pos), g), pos + 1, true), Ranges(g))
  {
    hide Tails, Tail, GetRange;
    var g := GetRange(At(t, pos));
    var d := Decoded(LeadBits(At(t, pos), g), pos + 1, true);
    TailsFew(t, d, Any, Any, Any);
    TailsFew(t, d, BelowA0, Any, Any);
    TailsFew(t, d, Below90, Any, Any);
    TailsFew(t, d, FromA0, Any, Any);
    TailsFew(t, d, From90, Any, Any);
  }

  lemma {:induction false} TailsOk(t: bytes, d: Decoded, ranges: seq<Range>)
    ensures Tails(t, d, ranges).ok <==>
              d.ok && forall k :: 0 <= k < |ranges| ==> InRange(At(t, d.pos + k), ranges[k])
    decreases |ranges|
  {
    hide InRange;
    if ranges != [] {
      var rest, e := ranges[1..], Tail(t, d, ranges[0]);
      TailsOk(t, e, rest);
      if Tails(t, d, ranges).ok {
        forall k | 0 <= k < |ranges| ensures InRange(At(t, d.pos + k), ranges[k]) {
          if k > 0 {
            assert InRange(At(t, e.pos + (k - 1)), rest[k - 1]);
          }
        }
      }
    }
  }

  /** A sequence of several bytes is accepted exactly if each byte after the lead is in its range. */
  lemma RangesDecide(t: bytes, pos: nat)
    requires At(t, pos) as int >= 0x80
    ensures var ranges := Ranges(GetRange(At(t, pos)));
            Decode(t, pos).ok <==>
              ranges != [] && forall k :: 0 <= k < |ranges| ==> InRange(At(t, pos + 1 + k), ranges[k])
  {
    hide GetRange, Ranges, Decode, Tails, InRange;
    var g := GetRange(At(t, pos));
    DecodeTails(t, pos);
    TailsOk(t, Decoded(LeadBits(At(t, pos), g), pos + 1, true), Ranges(g));
  }

  /** Validate: tests the bytes like Decode, and copies every byte it takes. */
  method Validate(t: bytes, pos: nat) returns (ok: bool, end: nat, copied: bytes)
    requires pos < |t|
    ensures ok <==> Decode(t, pos).ok
    ensures end == Decode(t, pos).pos
    ensures ok ==> end <= |t| && copied == t[pos..end]
  {
    hide GetRange, Decode, Encode;
    var c := t[pos];
    end, copied := pos + 1, [c];
    if c as int < 0x80 {
      DecodeOne(t, pos);
      return true, end, copied;
    }
    var ranges := Ranges(GetRange(c));
    ok := ranges != [];
    DecodeTails(t, pos);
    ghost var d := Decoded(LeadBits(c, GetRange(c)), pos + 1, true);
    ghost var all := Tails(t, d, ranges);
    for k := 0 to |ranges|
      invariant Tails(t, d, ranges[k..]) == all
      invariant d.pos == end == pos + 1 + k && (if ranges == [] then !ok else d.ok == ok)
      invariant |copied| == 1 + k && forall j :: 0 <= j < |copied| ==> copied[j] == At(t, pos + j)
    {
      assert ranges[k..][1..] == ranges[k + 1..];
      d := Tail(t, d, ranges[k]);
      ok := ok && InRange(At(t, end), ranges[k]);
      copied := copied + [At(t, end)];
      end := end + 1;
    }
    assert ranges[|ranges|..] == [] && d == all;
    if ok {
      EncodeDecode(t, pos);
    }
  }
}
