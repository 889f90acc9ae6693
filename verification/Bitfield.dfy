/** A packed bit array: the first bit of a byte is its highest. */
module Bitfield {
  const UINT32: nat := 0x1_0000_0000

  /** `0x80 >> k`. */
  function Mask(k: nat): bv8
    requires k < 8
  {
    match k
    case 0 => 0x80 case 1 => 0x40 case 2 => 0x20 case 3 => 0x10
    case 4 => 0x08 case 5 => 0x04 case 6 => 0x02 case _ => 0x01
  }

  /** `0xFF << (8 - n)` in eight bits: the first `n` bits of a byte. */
  function High(n: nat): bv8
    requires n <= 8
  {
    match n
    case 0 => 0x00 case 1 => 0x80 case 2 => 0xC0 case 3 => 0xE0 case 4 => 0xF0
    case 5 => 0xF8 case 6 => 0xFC case 7 => 0xFE case _ => 0xFF
  }

  predicate Bit(b: bv8, k: nat)
    requires k < 8
  {
    b & Mask(k) != 0
  }

  predicate BitAt(s: seq<bv8>, i: nat)
    requires i < 8 * |s|
  {
    Bit(s[i / 8], i % 8)
  }

  /** The bits that `n` bits of storage stand for. */
  function Bits(s: seq<bv8>, n: nat): (r: seq<bool>)
    requires n <= 8 * |s|
    ensures |r| == n && forall i :: 0 <= i < n ==> r[i] == BitAt(s, i)
  {
    seq(n, i requires 0 <= i < n => BitAt(s, i))
  }

  /** The bits behind the first `n` are zero. */
  predicate ZeroFrom(s: seq<bv8>, n: nat) {
    forall i :: n <= i < 8 * |s| ==> !BitAt(s, i)
  }

  function ByteSize(bits: nat): nat {
    (bits + 7) / 8
  }

  /** The storage that the code computes, in 32 bits. */
  function ByteSize32(bits: nat): nat {
    (bits + 7) % UINT32 / 8
  }

  /** The storage holds the bits exactly if the sum does not wrap; if it does, there is none. */
  lemma StorageExact(bits: nat)
    requires bits < UINT32
    ensures bits <= 8 * ByteSize32(bits) <==> bits + 7 < UINT32
    ensures if bits + 7 < UINT32 then ByteSize32(bits) == ByteSize(bits) else ByteSize32(bits) == 0
  {
    if bits + 7 >= UINT32 {
      assert (bits + 7) % UINT32 == bits + 7 - UINT32;
    }
  }

  /** `n` more bits find room exactly if neither sum wraps. */
  lemma AppendedStorageExact(bits: nat, n: nat)
    requires bits + 7 < UINT32 && 0 < n < UINT32
    ensures bits + n <= 8 * ByteSize32((bits + n) % UINT32) <==> bits + n + 7 < UINT32
  {
    var sum := (bits + n) % UINT32;
    StorageExact(sum);
    if bits + n >= UINT32 {
      assert sum == bits + n - UINT32;
      StorageWithin(sum);
    }
  }

  lemma StorageWithin(bits: nat)
    requires bits < UINT32
    ensures 8 * ByteSize32(bits) <= bits + 7
  {
    StorageExact(bits);
  }

  function Repeat(v: bool, n: nat): (r: seq<bool>)
    ensures |r| == n
  {
    seq(n, _ => v)
  }

  // ---------------------------------------------------------------- single bytes

  /** `b |= 0x80U >> k`, and `b &= ~(0x80U >> k)`. */
  function One(b: bv8, k: nat): bv8
    requires k < 8
  {
    b | Mask(k)
  }

  function Zero(b: bv8, k: nat): bv8
    requires k < 8
  {
    b & !Mask(k)
  }

  /** The first `n` bits of a byte kept, and the others cleared or set. */
  function Keep(b: bv8, n: nat): bv8
    requires n <= 8
  {
    b & High(n)
  }

  function Fill(b: bv8, n: nat): bv8
    requires n <= 8
  {
    b | !High(n)
  }

  function Weight(bit: bool, w: bv8): bv8 {
    if bit then w else 0
  }

  /** The number with these binary digits, the most significant one first. */
  function Number(a: bool, b: bool, c: bool, d: bool, e: bool, f: bool, g: bool, h: bool): bv8 {
    Weight(a, 128) + Weight(b, 64) + Weight(c, 32) + Weight(d, 16) + Weight(e, 8) + Weight(f, 4) + Weight(g, 2)
    + Weight(h, 1)
  }

  /** The bits of a byte of storage are its binary digits, from the most significant one on. */
  lemma FirstBitHighest(s: seq<bv8>, j: nat)
    requires j < |s|
    ensures s[j] == Number(BitAt(s, 8 * j), BitAt(s, 8 * j + 1), BitAt(s, 8 * j + 2), BitAt(s, 8 * j + 3),
                           BitAt(s, 8 * j + 4), BitAt(s, 8 * j + 5), BitAt(s, 8 * j + 6), BitAt(s, 8 * j + 7))
  {
    hide *;
    BinaryDigits(s[j]);
    BitOfByte(s, j, 0);
    BitOfByte(s, j, 1);
    BitOfByte(s, j, 2);
    BitOfByte(s, j, 3);
    BitOfByte(s, j, 4);
    BitOfByte(s, j, 5);
    BitOfByte(s, j, 6);
    BitOfByte(s, j, 7);
  }

  lemma BitOfByte(s: seq<bv8>, j: nat, k: nat)
    requires j < |s| && k < 8
    ensures BitAt(s, 8 * j + k) == Bit(s[j], k)
  {
    hide Bit;
  }

  lemma BinaryDigits(b: bv8)
    ensures b == Number(Bit(b, 0), Bit(b, 1), Bit(b, 2), Bit(b, 3), Bit(b, 4), Bit(b, 5), Bit(b, 6), Bit(b, 7))
  {
  }

  lemma SetBit(b: bv8, k: nat, j: nat)
    requires k < 8 && j < 8
    ensures Bit(One(b, k), j) <==> j == k || Bit(b, j)
    ensures Bit(Zero(b, k), j) <==> j != k && Bit(b, j)
  {
  }

  lemma KeepBits(b: bv8, n: nat, j: nat)
    requires n <= 8 && j < 8
    ensures Bit(Keep(b, n), j) <==> j < n && Bit(b, j)
    ensures Bit(Fill(b, n), j) <==> j >= n || Bit(b, j)
  {
  }

  // ---------------------------------------------------------------- whole bytes

  predicate AllBits(b: bv8, n: nat, v: bool)
    requires n <= 8
  {
    forall j :: 0 <= j < n ==> Bit(b, j) == v
  }

  /** The first `n` bits of a byte, masked out, are all one or all zero. */
  predicate Masked(b: bv8, n: nat, v: bool)
    requires n <= 8
  {
    Keep(b, n) == if v then High(n) else 0
  }

  lemma {:induction false} BitsOfByte(b: bv8, n: nat, v: bool)
    requires n <= 8
    ensures Masked(b, n, v) <==> AllBits(b, n, v)
  {
    hide Masked, Bit;
    if n == 0 {
      MaskedNone(b, v);
    } else {
      BitsOfByte(b, n - 1, v);
      MaskedStep(b, n - 1, v);
    }
  }

  lemma MaskedNone(b: bv8, v: bool)
    ensures Masked(b, 0, v)
  {
  }

  lemma MaskedStep(b: bv8, n: nat, v: bool)
    requires n < 8
    ensures Masked(b, n + 1, v) <==> Masked(b, n, v) && Bit(b, n) == v
  {
  }

  // ---------------------------------------------------------------- storage

  /** memset. */
  method MemSet(a: array<bv8>, from: nat, v: bv8)
    modifies a
    ensures forall i :: 0 <= i < a.Length ==> a[i] == if i < from then old(a[i]) else v
  {
    var i := from;
    while i < a.Length
      invariant from <= i
      invariant forall j :: 0 <= j < a.Length ==> a[j] == if from <= j < i then v else old(a[j])
    {
      a[i] := v;
      i := i + 1;
    }
  }

  /** memcpy. */
  method MemCpy(a: array<bv8>, from: nat, src: seq<bv8>)
    requires from + |src| <= a.Length
    modifies a
    ensures forall i :: 0 <= i < a.Length ==> a[i] == if from <= i < from + |src| then src[i - from] else old(a[i])
  {
    var i := 0;
    while i < |src|
      invariant i <= |src|
      invariant forall j :: 0 <= j < a.Length ==> a[j] == if from <= j < from + i then src[j - from] else old(a[j])
    {
      a[from + i] := src[i];
      i := i + 1;
    }
  }

  /** `set_bit_1` and `set_bit_0`. */
  method PutBit(a: array<bv8>, i: nat, v: bool)
    requires i < 8 * a.Length
    modifies a
    ensures forall j :: 0 <= j < 8 * a.Length ==> BitAt(a[..], j) == if j == i then v else BitAt(old(a[..]), j)
  {
    hide Bit, One, Zero;
    ghost var s := a[..];
    if v {
      a[i / 8] := One(a[i / 8], i % 8);
    } else {
      a[i / 8] := Zero(a[i / 8], i % 8);
    }
    forall j | 0 <= j < 8 * a.Length ensures BitAt(a[..], j) == if j == i then v else BitAt(s, j) {
      ByteOf(i);
      ByteOf(j);
      SetBit(s[i / 8], i % 8, j % 8);
    }
  }

  /** The slow way to append: bit by bit. */
  method PutBits(a: array<bv8>, from: nat, src: seq<bv8>, n: nat)
    requires from + n <= 8 * a.Length && n <= 8 * |src|
    modifies a
    ensures forall j :: 0 <= j < from ==> BitAt(a[..], j) == BitAt(old(a[..]), j)
    ensures forall j :: 0 <= j < n ==> BitAt(a[..], from + j) == BitAt(src, j)
  {
    hide Bit, BitAt;
    ghost var s := a[..];
    var i := 0;
    while i < n
      invariant i <= n
      invariant forall j :: 0 <= j < from ==> BitAt(a[..], j) == BitAt(s, j)
      invariant forall j :: 0 <= j < i ==> BitAt(a[..], from + j) == BitAt(src, j)
    {
      var bit := src[i / 8] & Mask(i % 8) != 0;
      IsBitAt(src, i);
      PutBit(a, from + i, bit);
      i := i + 1;
    }
  }

  /** Bytes and their bits: what holds of each byte of some kind holds of each of its bits. */
  lemma ByteOf(i: nat)
    ensures i == 8 * (i / 8) + i % 8 && i % 8 < 8
  {
  }

  /** The whole storage from byte `from` on is `v`. */
  predicate Filled(s: seq<bv8>, from: nat, v: bool) {
    forall i :: from <= i < |s| ==> s[i] == if v then 0xFF else 0
  }

  lemma FilledBit(b: bv8, j: nat, v: bool)
    requires j < 8 && b == if v then 0xFF else 0
    ensures Bit(b, j) == v
  {
    FullByte(j);
  }

  lemma FullByte(j: nat)
    requires j < 8
    ensures Bit(0xFF, j) && !Bit(0, j)
  {
  }

  class Bitfield {
    var data: array<bv8>
    var bitSize: nat

    ghost predicate Valid()
      reads this, data
    {
      bitSize + 7 < UINT32 && data.Length == ByteSize(bitSize) && ZeroFrom(data[..], bitSize)
    }

    /** The sequence of booleans that the field stands for. */
    ghost function Contents(): seq<bool>
      requires bitSize <= 8 * data.Length
      reads this, data
    {
      Bits(data[..], bitSize)
    }

    constructor (size: nat, val: bool)
      requires 0 < size && size + 7 < UINT32
      ensures Valid() && fresh(data) && Contents() == Repeat(val, size)
    {
      data := new bv8[ByteSize(size)];
      bitSize := size;
      new;
      MemSet(data, 0, if val then 0xFF else 0);
      ghost var s := data[..];
      assert Filled(s, 0, val);
      forall i | 0 <= i < 8 * |s| ensures BitAt(s, i) == val {
        FilledBit(s[i / 8], i % 8, val);
      }
      if val {
        ClearTrailingBits();
      }
    }

    method ClearTrailingBits()
      requires data.Length == ByteSize(bitSize)
      modifies data
      ensures Contents() == old(Contents()) && ZeroFrom(data[..], bitSize)
    {
      hide Bit, Keep, High;
      var trailing := bitSize % 8;
      ghost var s := data[..];
      if trailing != 0 {
        var last := ByteSize(bitSize) - 1;
        data[last] := Keep(data[last], trailing);
      }
      ghost var t := data[..];
      forall i | 0 <= i < 8 * |s| ensures BitAt(t, i) <==> i < bitSize && BitAt(s, i) {
        ByteOf(i);
        if i / 8 == ByteSize(bitSize) - 1 && trailing != 0 {
          KeepBits(s[i / 8], trailing, i % 8);
        }
      }
    }

    /** realloc: the bytes that fit are kept, and what is behind them is not known. */
    method Realloc(n: nat)
      modifies `data
      ensures fresh(data) && data.Length == n
      ensures forall i :: 0 <= i < n && i < old(data.Length) ==> data[i] == old(data[i])
    {
      var p := new bv8[n];
      var i := 0;
      while i < n && i < data.Length
        invariant i <= n && i <= data.Length
        invariant data == old(data) && data[..] == old(data[..])
        invariant forall j :: 0 <= j < i ==> p[j] == data[j]
      {
        p[i] := data[i];
        i := i + 1;
      }
      data := p;
    }

    /** The storage for another number of bits. */
    method Fit(size: nat)
      modifies this
      ensures data == old(data) || fresh(data)
      ensures bitSize == size && data.Length == ByteSize(size)
      ensures forall i :: 0 <= i < data.Length && i < old(data.Length) ==> data[i] == old(data[i])
      requires data.Length == ByteSize(bitSize)
    {
      if ByteSize(bitSize) != ByteSize(size) {
        Realloc(ByteSize(size));
      }
      bitSize := size;
    }

    method Resize(size: nat, val: bool)
      requires Valid() && size + 7 < UINT32
      modifies this, data
      ensures Valid() && (data == old(data) || fresh(data))
      ensures var was := old(Contents());
              Contents() == if size <= |was| then was[..size] else was + Repeat(val, size - |was|)
    {
      hide Bit, High, BitAt, ResizedBytes;
      ghost var s, oldSize := data[..], bitSize;
      var grown := ByteSize(size) > ByteSize(bitSize);
      ResizeBytes(size, val);
      ghost var t := data[..];
      assert size <= 8 * |t| && oldSize <= 8 * |s|;
      forall i | 0 <= i < size ensures BitAt(t, i) == if i < oldSize then BitAt(s, i) else val {
        ResizedBit(s, t, oldSize, size, val, i);
      }
      if val || !grown {
        ClearTrailingBits();
      } else {
        NewBytesZero(s, t, oldSize, size);
      }
    }

    /** Resizing, up to the trailing bits. */
    method ResizeBytes(size: nat, val: bool)
      requires data.Length == ByteSize(bitSize)
      modifies this, data
      ensures (data == old(data) || fresh(data)) && bitSize == size && data.Length == ByteSize(size)
      ensures ResizedBytes(old(data[..]), data[..], old(bitSize), size, val)
    {
      hide *;
      var trailing, oldSize, oldBytes := bitSize % 8, bitSize, ByteSize(bitSize);
      ghost var s := data[..];
      Fit(size);
      ghost var u := data[..];
      if val && size > oldSize && trailing != 0 {
        TrailingInside(oldSize, size);
        data[oldBytes - 1] := Fill(data[oldBytes - 1], trailing);
      }
      ghost var v := data[..];
      if ByteSize(size) > oldBytes {
        MemSet(data, oldBytes, if val then 0xFF else 0);
      }
      Resized(s, u, v, data[..], oldSize, size, val);
    }

    method Clear()
      modifies this
      ensures Valid() && fresh(data) && Contents() == []
    {
      data := new bv8[0];
      bitSize := 0;
    }

    method SetBit(bit: nat, val: bool)
      requires Valid() && bit < bitSize
      modifies data
      ensures Valid() && Contents() == old(Contents())[bit := val]
    {
      hide Bit, BitAt;
      PutBit(data, bit, val);
    }

    method GetBit(bit: nat) returns (val: bool)
      requires Valid() && bit < bitSize
      ensures val == Contents()[bit]
    {
      val := data[bit / 8] & Mask(bit % 8) != 0;
    }

    /** The storage for another number of bits, its contents not known. */
    method Reset(size: nat)
      requires data.Length == ByteSize(bitSize)
      modifies this
      ensures (data == old(data) || fresh(data)) && bitSize == size && data.Length == ByteSize(size)
    {
      if ByteSize(bitSize) != ByteSize(size) {
        data := new bv8[ByteSize(size)];
      }
      bitSize := size;
    }

    /** A bit for each byte. */
    method AssignBytes(src: seq<bv8>)
      requires Valid() && src != [] && |src| + 7 < UINT32
      modifies this, data
      ensures Valid() && (data == old(data) || fresh(data))
      ensures Contents() == seq(|src|, i requires 0 <= i < |src| => src[i] != 0)
    {
      hide Bit, BitAt;
      Reset(|src|);
      var i := 0;
      while i < |src|
        invariant i <= |src| == bitSize && data.Length == ByteSize(bitSize)
        invariant data == old(data) || fresh(data)
        invariant forall j :: 0 <= j < i ==> BitAt(data[..], j) == (src[j] != 0)
      {
        PutBit(data, i, src[i] != 0);
        i := i + 1;
      }
      ClearTrailingBits();
    }

    /** Packed bits. */
    method AssignBits(src: seq<bv8>, n: nat)
      requires Valid() && 0 < n && n + 7 < UINT32 && ByteSize(n) <= |src|
      modifies this, data
      ensures Valid() && (data == old(data) || fresh(data))
      ensures Contents() == Bits(src, n)
    {
      hide Bit;
      Reset(n);
      MemCpy(data, 0, src[..ByteSize(n)]);
      assert Contents() == Bits(src, n);
      ClearTrailingBits();
    }

    method Append(src: seq<bv8>, n: nat)
      requires Valid() && 0 < n && bitSize + n + 7 < UINT32 && ByteSize(n) <= |src|
      modifies this, data
      ensures Valid() && (data == old(data) || fresh(data))
      ensures Contents() == old(Contents()) + Bits(src, n)
    {
      hide Bit, BitAt;
      ghost var s := data[..];
      var oldSize, oldBytes := bitSize, ByteSize(bitSize);
      Fit(oldSize + n);
      ghost var u := data[..];
      if oldSize % 8 == 0 {
        MemCpy(data, oldBytes, src[..ByteSize(n)]);
        AppendedBytes(s, src, data[..], oldSize, n);
      } else {
        FitKeepsBits(s, u, oldSize);
        PutBits(data, oldSize, src, n);
      }
      assert Contents() == Bits(s, oldSize) + Bits(src, n);
      ClearTrailingBits();
    }

    method All() returns (r: bool)
      requires Valid()
      ensures r <==> forall i :: 0 <= i < bitSize ==> Contents()[i]
    {
      hide Bit, BitAt, High, Keep, Masked;
      ghost var s := data[..];
      var numBytes := bitSize / 8;
      var i := 0;
      while i < numBytes
        invariant i <= numBytes && ByteBits(s, 0, 8 * i, true)
      {
        WholeByte(s[i]);
        ByteRange(s, i, 8, true);
        if data[i] != 0xFF {
          ghost var k :| 8 * i <= k < 8 * i + 8 && !BitAt(s, k);
          assert !Contents()[k];
          return false;
        }
        i := i + 1;
      }
      var rest := bitSize - numBytes * 8;
      var mask := High(rest);
      if rest == 0 {
        return true;
      }
      LastByte(s[numBytes], rest);
      ByteRange(s, numBytes, rest, true);
      r := Keep(data[numBytes], rest) == mask;
      if !r {
        ghost var k :| 8 * numBytes <= k < 8 * numBytes + rest && !BitAt(s, k);
        assert !Contents()[k];
      }
    }

    method Any() returns (r: bool)
      requires Valid()
      ensures r <==> exists i :: 0 <= i < bitSize && Contents()[i]
    {
      hide Bit, BitAt, High, Keep, Masked;
      ghost var s := data[..];
      var numBytes := bitSize / 8;
      var i := 0;
      while i < numBytes
        invariant i <= numBytes && ByteBits(s, 0, 8 * i, false)
      {
        WholeByte(s[i]);
        ByteRange(s, i, 8, false);
        if data[i] != 0x00 {
          ghost var k :| 8 * i <= k < 8 * i + 8 && BitAt(s, k);
          assert Contents()[k];
          return true;
        }
        i := i + 1;
      }
      var rest := bitSize - numBytes * 8;
      if rest > 0 {
        LastByte(s[numBytes], rest);
        ByteRange(s, numBytes, rest, false);
        if Keep(data[numBytes], rest) != 0x00 {
          ghost var k :| 8 * numBytes <= k < 8 * numBytes + rest && BitAt(s, k);
          assert Contents()[k];
          return true;
        }
      }
      r := false;
    }
  }

  /** The bits from `from` up to `to` are all `v`. */
  predicate ByteBits(s: seq<bv8>, from: nat, to: nat, v: bool) {
    to <= 8 * |s| && forall j :: from <= j < to ==> BitAt(s, j) == v
  }

  lemma ByteRange(s: seq<bv8>, i: nat, n: nat, v: bool)
    requires i < |s| && n <= 8
    ensures Masked(s[i], n, v) <==> ByteBits(s, 8 * i, 8 * i + n, v)
  {
    hide Bit, Masked;
    BitsOfByte(s[i], n, v);
    forall j | 8 * i <= j < 8 * i + n ensures BitAt(s, j) == Bit(s[i], j - 8 * i) {
      assert j / 8 == i && j % 8 == j - 8 * i;
    }
    if ByteBits(s, 8 * i, 8 * i + n, v) {
      forall k | 0 <= k < n ensures Bit(s[i], k) == v {
        assert BitAt(s, 8 * i + k) == v;
      }
    }
  }

  lemma WholeByte(b: bv8)
    ensures b == 0xFF <==> Masked(b, 8, true)
    ensures b == 0 <==> Masked(b, 8, false)
  {
  }

  lemma LastByte(b: bv8, n: nat)
    requires n <= 8
    ensures Keep(b, n) == High(n) <==> Masked(b, n, true)
    ensures Keep(b, n) == 0 <==> Masked(b, n, false)
  {
    hide High, Keep;
  }

  lemma IsBitAt(s: seq<bv8>, i: nat)
    requires i < 8 * |s|
    ensures BitAt(s, i) == (s[i / 8] & Mask(i % 8) != 0)
  {
  }

  lemma FitKeepsBits(s: seq<bv8>, u: seq<bv8>, n: nat)
    requires n <= 8 * |s| && n <= 8 * |u| && forall b :: 0 <= b < |s| && b < |u| ==> u[b] == s[b]
    ensures forall j :: 0 <= j < n ==> BitAt(u, j) == BitAt(s, j)
  {
  }

  /** Whole bytes appended to whole bytes are their bits appended. */
  lemma AppendedBytes(s: seq<bv8>, src: seq<bv8>, t: seq<bv8>, oldSize: nat, n: nat)
    requires oldSize % 8 == 0 && |s| == ByteSize(oldSize) && |t| == ByteSize(oldSize + n) && ByteSize(n) <= |src|
    requires forall b :: 0 <= b < |t| ==> t[b] == if b < |s| then s[b] else src[b - |s|]
    ensures forall j :: 0 <= j < oldSize ==> BitAt(t, j) == BitAt(s, j)
    ensures forall j :: 0 <= j < n ==> BitAt(t, oldSize + j) == BitAt(src, j)
  {
    hide Bit;
    forall j | 0 <= j < n ensures BitAt(t, oldSize + j) == BitAt(src, j) {
      assert (oldSize + j) / 8 == |s| + j / 8 && (oldSize + j) % 8 == j % 8;
    }
  }

  lemma TrailingInside(oldSize: nat, size: nat)
    requires size > oldSize && oldSize % 8 != 0
    ensures 0 < ByteSize(oldSize) <= ByteSize(size)
  {
  }

  /** The storage fitted, its last old byte filled up, and its new bytes set. */
  lemma Resized(s: seq<bv8>, u: seq<bv8>, v: seq<bv8>, t: seq<bv8>, oldSize: nat, size: nat, val: bool)
    requires |s| == ByteSize(oldSize) && |u| == |v| == |t| == ByteSize(size)
    requires forall i :: 0 <= i < |u| && i < |s| ==> u[i] == s[i]
    requires if val && size > oldSize && oldSize % 8 != 0
             then 0 < |s| <= |u| && v == u[|s| - 1 := Fill(u[|s| - 1], oldSize % 8)] else v == u
    requires if |t| > |s| then forall i :: 0 <= i < |t| ==> t[i] == if i < |s| then v[i] else if val then 0xFF else 0
             else t == v
    ensures ResizedBytes(s, t, oldSize, size, val)
  {
    hide Fill;
  }

  /** The bytes that resizing leaves, before the trailing bits are cleared. */
  predicate ResizedBytes(s: seq<bv8>, t: seq<bv8>, oldSize: nat, size: nat, val: bool) {
    && |s| == ByteSize(oldSize) && |t| == ByteSize(size)
    && (forall b :: |s| <= b < |t| ==> t[b] == if val then 0xFF else 0)
    && (forall b :: 0 <= b < |s| && b < |t| ==>
          t[b] == if b == |s| - 1 && val && size > oldSize && oldSize % 8 != 0 then Fill(s[b], oldSize % 8) else s[b])
  }

  lemma ResizedBit(s: seq<bv8>, t: seq<bv8>, oldSize: nat, size: nat, val: bool, i: nat)
    requires ResizedBytes(s, t, oldSize, size, val) && ZeroFrom(s, oldSize) && i < size
    ensures BitAt(t, i) == if i < oldSize then BitAt(s, i) else val
  {
    hide Bit, Fill, Keep;
    ByteOf(i);
    var b, j := i / 8, i % 8;
    if b >= |s| {
      FilledBit(t[b], j, val);
    } else {
      KeepBits(s[b], oldSize % 8, j);
      assert BitAt(s, i) == Bit(s[b], j);
    }
  }

  lemma NewBytesZero(s: seq<bv8>, t: seq<bv8>, oldSize: nat, size: nat)
    requires ResizedBytes(s, t, oldSize, size, false) && |t| > |s|
    ensures ZeroFrom(t, size)
  {
    hide Bit, High;
    forall i | size <= i < 8 * |t| ensures !BitAt(t, i) {
      ByteOf(i);
      FilledBit(t[i / 8], i % 8, false);
    }
  }
}
