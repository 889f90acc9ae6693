/** Bytes, and the character classes that the parsers share. */
module Bytes {

  /** An octet of an input buffer: a character code below 256. */
  type byte = c: char | c as int < 256 witness ' '

  type bytes = seq<byte>

  datatype Option<T> = None | Some(value: T)

  predicate IsDigit(c: byte) {
    '0' <= c <= '9'
  }

  /** The value of a decimal digit. */
  function DigitValue(c: byte): (d: nat)
    requires IsDigit(c)
    ensures d < 10
  {
    c as int - '0' as int
  }

  /** `m[i]` of a C string literal: its terminating NUL is readable too. */
  function CharAt(m: string, i: nat): char {
    if i < |m| then m[i] else '\0'
  }

  /** A hexadecimal digit, in letters of the case asked for. */
  function HexDigit(d: nat, upper: bool): byte
    requires d < 16
  {
    (if d < 10 then '0' as int + d else if upper then 'A' as int + d - 10 else 'a' as int + d - 10) as char
  }

  function Min(a: nat, b: nat): nat {
    if a < b then a else b
  }

  /** The bytes of a list of buffers, one after the other. */
  function Flatten(buffers: seq<bytes>): bytes {
    if buffers == [] then [] else buffers[0] + Flatten(buffers[1..])
  }

  lemma {:induction false} FlattenConcat(a: seq<bytes>, b: seq<bytes>)
    ensures Flatten(a + b) == Flatten(a) + Flatten(b)
  {
    if a == [] {
      assert a + b == b;
    } else {
      FlattenConcat(a[1..], b);
      assert (a + b)[1..] == a[1..] + b;
    }
  }

  /** The bytes `w` stand at `pos`. */
  predicate Has(t: bytes, pos: nat, w: bytes) {
    pos + |w| <= |t| && t[pos..pos + |w|] == w
  }

  lemma HasConcat(t: bytes, pos: nat, a: bytes, b: bytes)
    ensures Has(t, pos, a + b) <==> Has(t, pos, a) && Has(t, pos + |a|, b)
  {
    if pos + |a| + |b| <= |t| {
      var whole := t[pos..pos + |a| + |b|];
      assert whole == t[pos..pos + |a|] + t[pos + |a|..pos + |a| + |b|];
      if whole == a + b {
        assert whole[..|a|] == a && whole[|a|..] == b;
      }
    }
  }

  lemma HasAt(t: bytes, pos: nat, w: bytes, k: nat)
    requires Has(t, pos, w) && k < |w|
    ensures t[pos + k] == w[k]
  {
    assert t[pos..pos + |w|][k] == w[k];
  }
}
