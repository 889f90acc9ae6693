/** The encoder and the decoder as they run: loops that append to a string, move an iterator and fill containers. */
module BencodingCode {
  import opened Bytes
  import opened Decimals
  import opened Bencoding

  /** bencode_recursive. `into` is the result string on entry, `result` on return. */
  method EncodeRecursive(e: Entry, level: nat, into: bytes) returns (code: EncodeCode, result: bytes)
    ensures Encoding(code, result) == BencodeRecursive(e, level, into)
    decreases e
  {
    result := into;
    var inside := level + 1;
    if inside >= MAX_RECURSION_LEVEL {
      return EncodeRecursionLevel, result;
    }
    match e {
    case Undefined =>
      return EncodeUnsupportedType, result;
    case Integer(n) =>
      result := result + "i";
      result := result + SignedDec(n);
      result := result + "e";
    case Str(s) =>
      result := AppendString(s, result);
    case List(items) =>
      result := result + "l";
      ghost var begun := result;
      for k := 0 to |items|
        invariant BencodeItems(items[k..], inside, result) == BencodeItems(items, inside, begun)
      {
        assert items[k..][1..] == items[k + 1..];
        code, result := EncodeRecursive(items[k], inside, result);
        if code != EncodeOk {
          return;
        }
      }
      result := result + "e";
    case Dictionary(ms) =>
      result := result + "d";
      ghost var begun := result;
      for k := 0 to |ms|
        invariant BencodeMembers(ms[k..], inside, result) == BencodeMembers(ms, inside, begun)
      {
        assert ms[k..][1..] == ms[k + 1..];
        result := AppendString(ms[k].key, result);
        code, result := EncodeRecursive(ms[k].value, inside, result);
        if code != EncodeOk {
          return;
        }
      }
      result := result + "e";
    }
    code := EncodeOk;
  }

  method AppendString(s: bytes, into: bytes) returns (result: bytes)
    ensures result == into + StringText(s)
  {
    result := into + Dec(|s|);
    result := result + ":";
    result := result + s;
  }

  /** bencode. */
  method Bencode(e: Entry) returns (code: EncodeCode, result: bytes)
    ensures code == EncodeOk <==> Fits(e, MAX_RECURSION_LEVEL)
    ensures code == EncodeOk ==> result == Encode(e)
  {
    EncoderExact(e, 0, []);
    assert [] + Encode(e) == Encode(e);
    code, result := EncodeRecursive(e, 0, []);
  }

  /** read_until. */
  method ReadUntil(t: bytes, start: nat, endToken: byte) returns (it: nat, result: bytes)
    requires start <= |t|
    ensures it == Until(t, start, endToken) && result == t[start..it]
  {
    it, result := start, [];
    while it != |t|
      invariant start <= it <= |t| && result == t[start..it]
      invariant Until(t, it, endToken) == Until(t, start, endToken)
      decreases |t| - it
    {
      if t[it] == endToken {
        return;
      }
      result := result + [t[it]];
      it := it + 1;
    }
  }

  datatype Read = Ok | Error(code: DecodeCode)

  /** The outcome of a call as a value. */
  function Outcome(read: Read, it: nat, e: Entry): Decoding {
    match read
    case Ok => Decoded(it, e)
    case Error(code) => Refused(code)
  }

  /** bdecode_recursive. `before` is the result entry on entry, `result` on return;
      `start` and `it` are the iterator. */
  method DecodeRecursive(t: bytes, ps: NumberParsers, start: nat, level: nat, before: Entry)
    returns (read: Read, it: nat, result: Entry)
    requires start <= |t|
    ensures Outcome(read, it, result) == BdecodeRecursive(t, ps, start, level, before)
    decreases |t| - start, 0
  {
    it, result := start, before;
    var inside := level + 1;
    if inside >= MAX_RECURSION_LEVEL {
      return Error(RecursionLevel), it, result;
    }
    if it == |t| {
      return Ok, it, result;
    }
    if t[it] == 'i' {
      read, it, result := DecodeInteger(t, ps, it + 1, before);
    } else if t[it] == 'l' {
      read, it, result := DecodeList(t, ps, it + 1, inside, before);
    } else if t[it] == 'd' {
      read, it, result := DecodeDictionary(t, ps, it + 1, inside, before);
    } else {
      read, it, result := DecodeString(t, ps, it, before);
    }
  }

  method DecodeInteger(t: bytes, ps: NumberParsers, start: nat, before: Entry)
    returns (read: Read, it: nat, result: Entry)
    requires start <= |t|
    ensures Outcome(read, it, result) == BdecodeInteger(t, ps, start)
  {
    result := before;
    var text;
    it, text := ReadUntil(t, start, 'e');
    if it == |t| {
      return Error(NotTerminatedInteger), it, result;
    }
    it := it + 1;
    var value := ps.int64(text);
    if value.None? {
      return Error(BrokenInteger), it, result;
    }
    return Ok, it, Integer(value.value);
  }

  method DecodeString(t: bytes, ps: NumberParsers, start: nat, before: Entry)
    returns (read: Read, it: nat, result: Entry)
    requires start <= |t|
    ensures Outcome(read, it, result) == BdecodeString(t, ps, start)
  {
    result := before;
    var text;
    it, text := ReadUntil(t, start, ':');
    if it == |t| {
      return Error(StringLengthDelimiterNotPresent), it, result;
    }
    it := it + 1;
    var length := ps.long(text);
    if length.None? {
      return Error(BrokenStringLength), it, result;
    }
    if length.value < 0 {
      return Error(NegativeStringLength), it, result;
    }
    var symbolsToEnd := |t| - it;
    if symbolsToEnd < length.value {
      return Error(ShortenedString), it, result;
    }
    var end := it + length.value;
    return Ok, end, Str(t[it..end]);
  }

  method DecodeList(t: bytes, ps: NumberParsers, start: nat, level: nat, before: Entry)
    returns (read: Read, it: nat, result: Entry)
    requires start <= |t|
    ensures Outcome(read, it, result) == BdecodeItems(t, ps, start, level, [])
    decreases |t| - start, 1
  {
    it, result := start, before;
    var items := [];
    while At(t, it) != 'e'
      invariant start <= it <= |t|
      invariant BdecodeItems(t, ps, it, level, items) == BdecodeItems(t, ps, start, level, [])
      decreases |t| - it
    {
      var e;
      read, it, e := DecodeRecursive(t, ps, it, level, Undefined);
      if read != Ok {
        return;
      }
      items := items + [e];
      if it == |t| {
        return Error(NotTerminatedList), it, result;
      }
    }
    return Ok, it + 1, List(items);
  }

  method DecodeDictionary(t: bytes, ps: NumberParsers, start: nat, level: nat, before: Entry)
    returns (read: Read, it: nat, result: Entry)
    requires start <= |t|
    ensures Outcome(read, it, result) == BdecodeMembers(t, ps, start, level, [])
    decreases |t| - start, 1
  {
    it, result := start, before;
    var ms := [];
    while At(t, it) != 'e'
      invariant start <= it <= |t|
      invariant BdecodeMembers(t, ps, it, level, ms) == BdecodeMembers(t, ps, start, level, [])
      decreases |t| - it
    {
      var key, value;
      read, it, key := DecodeRecursive(t, ps, it, level, Undefined);
      if read != Ok {
        return;
      }
      if !key.Str? {
        return Error(DictionaryKeyNotString), it, result;
      }
      read, it, value := DecodeRecursive(t, ps, it, level, Lookup(ms, key.s));
      if read != Ok {
        return;
      }
      ms := Insert(ms, key.s, value);
      if it == |t| {
        return Error(NotTerminatedDictionary), it, result;
      }
    }
    return Ok, it + 1, Dictionary(ms);
  }

  /** bdecode. */
  method Bdecode(t: bytes, ps: NumberParsers, before: Entry) returns (read: Read, result: Entry)
    ensures BdecodeRecursive(t, ps, 0, 0, before).Decoded? <==> read == Ok
    ensures read == Ok ==> BdecodeRecursive(t, ps, 0, 0, before).e == result
    ensures read.Error? ==> BdecodeRecursive(t, ps, 0, 0, before) == Refused(read.code)
  {
    var it;
    read, it, result := DecodeRecursive(t, ps, 0, 0, before);
  }
}
