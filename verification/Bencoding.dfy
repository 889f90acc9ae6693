/** The bencoding of entries: the recursive encoder and the recursive decoder. */
module Bencoding {
  import opened Bytes
  import opened Decimals

  /** A dictionary is the ordered content of a std::map. */
  datatype Entry =
    | Undefined
    | Integer(n: int)
    | Str(s: bytes)
    | List(items: seq<Entry>)
    | Dictionary(members: seq<Member>)

  datatype Member = Member(key: bytes, value: Entry)

  const MAX_RECURSION_LEVEL: nat := 100

  // ---------------------------------------------------------------- dictionaries

  /** The order of std::string: by bytes as unsigned numbers, a prefix first. */
  predicate Less(a: bytes, b: bytes) {
    b != [] && (a == [] || a[0] < b[0] || (a[0] == b[0] && Less(a[1..], b[1..])))
  }

  lemma {:induction false} LessTotal(a: bytes, b: bytes)
    ensures Less(a, b) ==> a != b && !Less(b, a)
    ensures Less(a, b) || a == b || Less(b, a)
  {
    if a != [] && b != [] && a[0] == b[0] {
      LessTotal(a[1..], b[1..]);
      assert a == [a[0]] + a[1..] && b == [b[0]] + b[1..];
    }
  }

  lemma {:induction false} LessTransitive(a: bytes, b: bytes, c: bytes)
    requires Less(a, b) && Less(b, c)
    ensures Less(a, c)
  {
    if a != [] && a[0] == b[0] == c[0] {
      LessTransitive(a[1..], b[1..], c[1..]);
    }
  }

  /** The keys ascend strictly. */
  predicate Ascending(ms: seq<Member>) {
    forall k :: 0 < k < |ms| ==> Less(ms[k - 1].key, ms[k].key)
  }

  /** The value of a key, or a fresh entry: what `operator[]` refers to. */
  function Lookup(ms: seq<Member>, key: bytes): Entry {
    if ms == [] then Undefined
    else if ms[0].key == key then ms[0].value
    else Lookup(ms[1..], key)
  }

  /** The map with a value for a key. */
  function Insert(ms: seq<Member>, key: bytes, value: Entry): seq<Member> {
    if ms == [] || Less(key, ms[0].key) then [Member(key, value)] + ms
    else if ms[0].key == key then [Member(key, value)] + ms[1..]
    else [ms[0]] + Insert(ms[1..], key, value)
  }

  /** A key after all others goes to the end. */
  lemma {:induction false} InsertLast(ms: seq<Member>, key: bytes, value: Entry)
    requires forall k :: 0 <= k < |ms| ==> Less(ms[k].key, key)
    ensures Insert(ms, key, value) == ms + [Member(key, value)]
    decreases |ms|
  {
    if ms != [] {
      LessTotal(ms[0].key, key);
      InsertLast(ms[1..], key, value);
    }
  }

  lemma {:induction false} InsertKeeps(ms: seq<Member>, key: bytes, value: Entry)
    requires Ascending(ms)
    ensures Ascending(Insert(ms, key, value)) && Lookup(Insert(ms, key, value), key) == value
    ensures ms != [] && Less(ms[0].key, key) ==> Insert(ms, key, value)[0] == ms[0]
    decreases |ms|
  {
    if ms != [] {
      LessTotal(ms[0].key, key);
    }
    if ms != [] && !Less(key, ms[0].key) && ms[0].key != key {
      InsertKeeps(ms[1..], key, value);
      var rest := Insert(ms[1..], key, value);
      assert Insert(ms, key, value) == [ms[0]] + rest;
      assert rest[0].key == key || (ms[1..] != [] && rest[0] == ms[1]) by {
        if ms[1..] != [] { LessTotal(ms[1].key, key); }
      }
    }
  }

  lemma {:induction false} InsertOther(ms: seq<Member>, key: bytes, value: Entry, other: bytes)
    requires other != key
    ensures Lookup(Insert(ms, key, value), other) == Lookup(ms, other)
    decreases |ms|
  {
    if ms != [] && !Less(key, ms[0].key) && ms[0].key != key {
      InsertOther(ms[1..], key, value, other);
    }
  }

  // ---------------------------------------------------------------- the encoder

  datatype EncodeCode = EncodeOk | EncodeRecursionLevel | EncodeUnsupportedType

  /** The code, and the result string with what was appended to it. */
  datatype Encoding = Encoding(code: EncodeCode, result: bytes)

  function StringText(s: bytes): bytes {
    Dec(|s|) + ":" + s
  }

  /** bencode_recursive, with what it does to the result string. */
  function BencodeRecursive(e: Entry, level: nat, result: bytes): Encoding
    decreases e
  {
    if level + 1 >= MAX_RECURSION_LEVEL then Encoding(EncodeRecursionLevel, result)
    else
      match e
      case Undefined => Encoding(EncodeUnsupportedType, result)
      case Integer(n) => Encoding(EncodeOk, result + "i" + SignedDec(n) + "e")
      case Str(s) => Encoding(EncodeOk, result + StringText(s))
      case List(items) =>
        var r := BencodeItems(items, level + 1, result + "l");
        if r.code != EncodeOk then r else r.(result := r.result + "e")
      case Dictionary(ms) =>
        var r := BencodeMembers(ms, level + 1, result + "d");
        if r.code != EncodeOk then r else r.(result := r.result + "e")
  }

  /** The list loop, which ends at the first error. */
  function BencodeItems(items: seq<Entry>, level: nat, result: bytes): Encoding
    decreases items
  {
    if items == [] then Encoding(EncodeOk, result)
    else
      var r := BencodeRecursive(items[0], level, result);
      if r.code != EncodeOk then r else BencodeItems(items[1..], level, r.result)
  }

  function BencodeMembers(ms: seq<Member>, level: nat, result: bytes): Encoding
    decreases ms
  {
    if ms == [] then Encoding(EncodeOk, result)
    else
      var r := BencodeRecursive(ms[0].value, level, result + StringText(ms[0].key));
      if r.code != EncodeOk then r else BencodeMembers(ms[1..], level, r.result)
  }

  /** The encoding of an entry without undefined parts. */
  function Encode(e: Entry): bytes
    decreases e
  {
    match e
    case Undefined => []
    case Integer(n) => "i" + SignedDec(n) + "e"
    case Str(s) => StringText(s)
    case List(items) => "l" + EncodeItems(items) + "e"
    case Dictionary(ms) => "d" + EncodeMembers(ms) + "e"
  }

  function EncodeItems(items: seq<Entry>): bytes
    decreases items
  {
    if items == [] then [] else Encode(items[0]) + EncodeItems(items[1..])
  }

  function EncodeMembers(ms: seq<Member>): bytes
    decreases ms
  {
    if ms == [] then [] else StringText(ms[0].key) + Encode(ms[0].value) + EncodeMembers(ms[1..])
  }

  /** The entry is defined throughout and nested less than `depth` deep. */
  predicate Fits(e: Entry, depth: int)
    decreases e
  {
    depth > 1
    && match e
       case Undefined => false
       case List(items) => forall k :: 0 <= k < |items| ==> Fits(items[k], depth - 1)
       case Dictionary(ms) => forall k :: 0 <= k < |ms| ==> Fits(ms[k].value, depth - 1)
       case _ => true
  }

  /** The encoder succeeds exactly on entries that are defined and not nested too deep, and appends their encoding. */
  lemma {:induction false} EncoderExact(e: Entry, level: nat, result: bytes)
    ensures var r := BencodeRecursive(e, level, result);
            && (r.code == EncodeOk <==> Fits(e, MAX_RECURSION_LEVEL - level))
            && (r.code == EncodeOk ==> r.result == result + Encode(e))
    decreases e
  {
    hide BencodeItems, BencodeMembers, EncodeItems, EncodeMembers;
    if level + 1 < MAX_RECURSION_LEVEL {
      match e
      case Undefined =>
      case Integer(n) => Regroup(result, "i", SignedDec(n), "e");
      case Str(s) =>
      case List(items) =>
        ItemsExact(items, level + 1, result + "l");
        Regroup(result, "l", EncodeItems(items), "e");
      case Dictionary(ms) =>
        MembersExact(ms, level + 1, result + "d");
        Regroup(result, "d", EncodeMembers(ms), "e");
    }
  }

  lemma {:induction false} ItemsExact(items: seq<Entry>, level: nat, result: bytes)
    ensures var r := BencodeItems(items, level, result);
            && (r.code == EncodeOk <==> forall k :: 0 <= k < |items| ==> Fits(items[k], MAX_RECURSION_LEVEL - level))
            && (r.code == EncodeOk ==> r.result == result + EncodeItems(items))
    decreases items
  {
    hide Fits, Encode, BencodeRecursive;
    if items == [] {
      assert result + [] == result;
    } else {
      EncoderExact(items[0], level, result);
      var r := BencodeRecursive(items[0], level, result);
      if r.code == EncodeOk {
        ItemsExact(items[1..], level, r.result);
        var first, rest := Encode(items[0]), EncodeItems(items[1..]);
        assert result + first + rest == result + (first + rest);
      }
      assert forall k :: 0 < k < |items| ==> items[k] == items[1..][k - 1];
    }
  }

  lemma {:induction false} MembersExact(ms: seq<Member>, level: nat, result: bytes)
    ensures var r := BencodeMembers(ms, level, result);
            && (r.code == EncodeOk <==> forall k :: 0 <= k < |ms| ==> Fits(ms[k].value, MAX_RECURSION_LEVEL - level))
            && (r.code == EncodeOk ==> r.result == result + EncodeMembers(ms))
    decreases ms
  {
    hide Fits, Encode, BencodeRecursive, StringText;
    if ms == [] {
      assert result + [] == result;
    } else {
      var keyed := result + StringText(ms[0].key);
      EncoderExact(ms[0].value, level, keyed);
      var r := BencodeRecursive(ms[0].value, level, keyed);
      if r.code == EncodeOk {
        MembersExact(ms[1..], level, r.result);
        Regroup(result, StringText(ms[0].key), Encode(ms[0].value), EncodeMembers(ms[1..]));
      }
      assert forall k :: 0 < k < |ms| ==> ms[k] == ms[1..][k - 1];
    }
  }

  lemma Regroup(a: bytes, b: bytes, c: bytes, d: bytes)
    ensures a + b + c + d == a + (b + c + d)
  {
  }

  // ---------------------------------------------------------------- the decoder

  datatype DecodeCode =
    | RecursionLevel
    | NotTerminatedInteger | BrokenInteger
    | NotTerminatedList
    | DictionaryKeyNotString | NotTerminatedDictionary
    | StringLengthDelimiterNotPresent | BrokenStringLength | NegativeStringLength | ShortenedString

  /** Where the iterator stops and what was read, or the error. */
  datatype Decoding = Decoded(pos: nat, e: Entry) | Refused(code: DecodeCode)

  /** The two conversions from text to number, whose code is elsewhere. */
  datatype NumberParsers = NumberParsers(int64: bytes -> Option<int>, long: bytes -> Option<int>)

  /** They read what the encoder prints. */
  ghost predicate ReadDecimals(ps: NumberParsers) {
    && (forall n: int :: -0x8000_0000_0000_0000 <= n < 0x8000_0000_0000_0000 ==> ps.int64(SignedDec(n)) == Some(n))
    && (forall n: nat :: n < 0x8000_0000_0000_0000 ==> ps.long(Dec(n)) == Some(n))
  }

  /** `*it`; at the end of the string there is its terminating NUL. */
  function At(t: bytes, pos: nat): byte {
    if pos < |t| then t[pos] else '\0'
  }

  /** Where read_until stops. */
  function Until(t: bytes, pos: nat, c: byte): (r: nat)
    requires pos <= |t|
    ensures pos <= r <= |t|
    decreases |t| - pos
  {
    if pos == |t| || t[pos] == c then pos else Until(t, pos + 1, c)
  }

  /** bdecode_recursive. `before` is what the result entry holds on entry; it stays when there is nothing to read. */
  function BdecodeRecursive(t: bytes, ps: NumberParsers, pos: nat, level: nat, before: Entry): (r: Decoding)
    requires pos <= |t|
    ensures r.Decoded? ==> pos <= r.pos <= |t| && (pos < |t| ==> pos < r.pos)
    decreases |t| - pos, 0
  {
    if level + 1 >= MAX_RECURSION_LEVEL then Refused(RecursionLevel)
    else if pos == |t| then Decoded(pos, before)
    else if t[pos] == 'i' then BdecodeInteger(t, ps, pos + 1)
    else if t[pos] == 'l' then BdecodeItems(t, ps, pos + 1, level + 1, [])
    else if t[pos] == 'd' then BdecodeMembers(t, ps, pos + 1, level + 1, [])
    else BdecodeString(t, ps, pos)
  }

  function BdecodeInteger(t: bytes, ps: NumberParsers, pos: nat): (r: Decoding)
    requires pos <= |t|
    ensures r.Decoded? ==> pos < r.pos <= |t|
  {
    var q := Until(t, pos, 'e');
    if q == |t| then Refused(NotTerminatedInteger)
    else
      match ps.int64(t[pos..q])
      case None => Refused(BrokenInteger)
      case Some(n) => Decoded(q + 1, Integer(n))
  }

  function BdecodeString(t: bytes, ps: NumberParsers, pos: nat): (r: Decoding)
    requires pos <= |t|
    ensures r.Decoded? ==> pos < r.pos <= |t|
  {
    var q := Until(t, pos, ':');
    if q == |t| then Refused(StringLengthDelimiterNotPresent)
    else
      match ps.long(t[pos..q])
      case None => Refused(BrokenStringLength)
      case Some(n) =>
        if n < 0 then Refused(NegativeStringLength)
        else if |t| - (q + 1) < n then Refused(ShortenedString)
        else Decoded(q + 1 + n, Str(t[q + 1..q + 1 + n]))
  }

  /** The list loop, with the entries read so far. */
  function BdecodeItems(t: bytes, ps: NumberParsers, pos: nat, level: nat, items: seq<Entry>): (r: Decoding)
    requires pos <= |t|
    ensures r.Decoded? ==> pos < r.pos <= |t|
    decreases |t| - pos, 1
  {
    if At(t, pos) == 'e' then Decoded(pos + 1, List(items))
    else
      match BdecodeRecursive(t, ps, pos, level, Undefined)
      case Refused(code) => Refused(code)
      case Decoded(q, e) =>
        if q == |t| then Refused(NotTerminatedList) else BdecodeItems(t, ps, q, level, items + [e])
  }

  /** The dictionary loop, with the members read so far. */
  function BdecodeMembers(t: bytes, ps: NumberParsers, pos: nat, level: nat, ms: seq<Member>): (r: Decoding)
    requires pos <= |t|
    ensures r.Decoded? ==> pos < r.pos <= |t|
    decreases |t| - pos, 1
  {
    if At(t, pos) == 'e' then Decoded(pos + 1, Dictionary(ms))
    else
      match BdecodeRecursive(t, ps, pos, level, Undefined)
      case Refused(code) => Refused(code)
      case Decoded(k, key) =>
        if !key.Str? then Refused(DictionaryKeyNotString)
        else
          match BdecodeRecursive(t, ps, k, level, Lookup(ms, key.s))
          case Refused(code) => Refused(code)
          case Decoded(q, value) =>
            if q == |t| then Refused(NotTerminatedDictionary)
            else BdecodeMembers(t, ps, q, level, Insert(ms, key.s, value))
  }

  // ---------------------------------------------------------------- the decoder inverts the encoder

  /** An entry that the types of the source can hold: 64-bit integers, string lengths in a long, ordered maps. */
  predicate EntryOk(e: Entry)
    decreases e
  {
    match e
    case Undefined => true
    case Integer(n) => -0x8000_0000_0000_0000 <= n < 0x8000_0000_0000_0000
    case Str(s) => |s| < 0x8000_0000_0000_0000
    case List(items) => forall k :: 0 <= k < |items| ==> EntryOk(items[k])
    case Dictionary(ms) =>
      Ascending(ms) && forall k :: 0 <= k < |ms| ==> |ms[k].key| < 0x8000_0000_0000_0000 && EntryOk(ms[k].value)
  }

  lemma {:induction false} UntilBack(t: bytes, pos: nat, w: bytes, c: byte)
    requires Has(t, pos, w + [c]) && c !in w
    ensures Until(t, pos, c) == pos + |w| && pos + |w| < |t| && t[pos..pos + |w|] == w
    decreases |w|
  {
    HasConcat(t, pos, w, [c]);
    HasAt(t, pos, w + [c], 0);
    if w != [] {
      assert w + [c] == [w[0]] + (w[1..] + [c]);
      HasConcat(t, pos, [w[0]], w[1..] + [c]);
      UntilBack(t, pos + 1, w[1..], c);
    }
  }

  lemma IntegerBack(t: bytes, ps: NumberParsers, pos: nat, n: int)
    requires ReadDecimals(ps) && -0x8000_0000_0000_0000 <= n < 0x8000_0000_0000_0000
    requires Has(t, pos, SignedDec(n) + "e")
    ensures BdecodeInteger(t, ps, pos) == Decoded(pos + |SignedDec(n)| + 1, Integer(n))
  {
    UntilBack(t, pos, SignedDec(n), 'e');
  }

  lemma StringBack(t: bytes, ps: NumberParsers, pos: nat, s: bytes)
    requires ReadDecimals(ps) && |s| < 0x8000_0000_0000_0000 && Has(t, pos, StringText(s))
    ensures BdecodeString(t, ps, pos) == Decoded(pos + |StringText(s)|, Str(s))
    ensures IsDigit(At(t, pos))
  {
    HasConcat(t, pos, Dec(|s|) + ":", s);
    UntilBack(t, pos, Dec(|s|), ':');
    HasConcat(t, pos, Dec(|s|), ":");
    HasAt(t, pos, Dec(|s|), 0);
  }

  /**
   * Whenever the encoder succeeds, the decoder reads back an equal entry from its output, whatever bytes
   * follow, stops exactly at its end, and never meets its recursion limit.
   */
  lemma DecoderInvertsEncoder(t: bytes, ps: NumberParsers, e: Entry, level: nat, pos: nat, before: Entry)
    requires ReadDecimals(ps) && EntryOk(e) && BencodeRecursive(e, level, []).code == EncodeOk
    requires Has(t, pos, BencodeRecursive(e, level, []).result)
    ensures BdecodeRecursive(t, ps, pos, level, before) == Decoded(pos + |BencodeRecursive(e, level, []).result|, e)
  {
    hide ReadDecimals, EntryOk, Fits, Encode, BencodeRecursive, BdecodeRecursive;
    EncoderExact(e, level, []);
    assert [] + Encode(e) == Encode(e);
    EntryBack(t, ps, e, level, pos, before);
  }

  lemma {:induction false} EntryBack(t: bytes, ps: NumberParsers, e: Entry, level: nat, pos: nat, before: Entry)
    requires ReadDecimals(ps) && EntryOk(e) && Fits(e, MAX_RECURSION_LEVEL - level) && Has(t, pos, Encode(e))
    ensures BdecodeRecursive(t, ps, pos, level, before) == Decoded(pos + |Encode(e)|, e)
    ensures pos < |t| && t[pos] != 'e'
    decreases e, 1
  {
    hide ReadDecimals, BdecodeRecursive;
    match e
    case Integer(n) => IntegerEntryBack(t, ps, n, level, pos, before);
    case Str(s) => StringEntryBack(t, ps, s, level, pos, before);
    case List(items) => ListBack(t, ps, items, level, pos, before);
    case Dictionary(ms) => DictionaryBack(t, ps, ms, level, pos, before);
  }

  lemma IntegerEntryBack(t: bytes, ps: NumberParsers, n: int, level: nat, pos: nat, before: Entry)
    requires ReadDecimals(ps) && EntryOk(Integer(n))
    requires level + 1 < MAX_RECURSION_LEVEL && Has(t, pos, Encode(Integer(n)))
    ensures BdecodeRecursive(t, ps, pos, level, before) == Decoded(pos + |Encode(Integer(n))|, Integer(n))
    ensures pos < |t| && t[pos] == 'i'
  {
    hide ReadDecimals, BdecodeInteger, SignedDec;
    Opened(t, pos, "i", SignedDec(n));
    IntegerBack(t, ps, pos + 1, n);
  }

  lemma StringEntryBack(t: bytes, ps: NumberParsers, s: bytes, level: nat, pos: nat, before: Entry)
    requires ReadDecimals(ps) && |s| < 0x8000_0000_0000_0000
    requires level + 1 < MAX_RECURSION_LEVEL && Has(t, pos, StringText(s))
    ensures BdecodeRecursive(t, ps, pos, level, before) == Decoded(pos + |StringText(s)|, Str(s))
    ensures pos < |t| && t[pos] != 'e'
  {
    hide ReadDecimals, BdecodeString, StringText;
    StringBack(t, ps, pos, s);
  }

  lemma {:induction false} ListBack(t: bytes, ps: NumberParsers, items: seq<Entry>, level: nat, pos: nat, before: Entry)
    requires ReadDecimals(ps) && EntryOk(List(items)) && Fits(List(items), MAX_RECURSION_LEVEL - level)
    requires Has(t, pos, Encode(List(items)))
    ensures BdecodeRecursive(t, ps, pos, level, before) == Decoded(pos + |Encode(List(items))|, List(items))
    ensures pos < |t| && t[pos] == 'l'
    decreases items, 1
  {
    hide ReadDecimals, BdecodeItems, EncodeItems;
    Opened(t, pos, "l", EncodeItems(items));
    ItemsBack(t, ps, items, level + 1, pos + 1, []);
    assert [] + items == items;
  }

  lemma {:induction false} DictionaryBack(t: bytes, ps: NumberParsers, ms: seq<Member>, level: nat, pos: nat,
                                          before: Entry)
    requires ReadDecimals(ps) && EntryOk(Dictionary(ms)) && Fits(Dictionary(ms), MAX_RECURSION_LEVEL - level)
    requires Has(t, pos, Encode(Dictionary(ms)))
    ensures BdecodeRecursive(t, ps, pos, level, before) == Decoded(pos + |Encode(Dictionary(ms))|, Dictionary(ms))
    ensures pos < |t| && t[pos] == 'd'
    decreases ms, 1
  {
    hide ReadDecimals, BdecodeMembers, EncodeMembers, Ascending;
    Opened(t, pos, "d", EncodeMembers(ms));
    assert ms != [] ==> Fits(ms[0].value, MAX_RECURSION_LEVEL - (level + 1));
    assert [] + ms == ms;
    MembersBack(t, ps, ms, level + 1, pos + 1, []);
  }

  lemma Opened(t: bytes, pos: nat, open: bytes, inside: bytes)
    requires |open| == 1 && Has(t, pos, open + inside + "e")
    ensures pos < |t| && t[pos] == open[0] && Has(t, pos + 1, inside + "e")
  {
    assert open + inside + "e" == open + (inside + "e");
    HasConcat(t, pos, open, inside + "e");
    HasAt(t, pos, open, 0);
  }

  lemma {:induction false} ItemsBack(t: bytes, ps: NumberParsers, items: seq<Entry>, level: nat, pos: nat,
                                     read: seq<Entry>)
    requires ReadDecimals(ps) && Has(t, pos, EncodeItems(items) + "e")
    requires forall k :: 0 <= k < |items| ==> EntryOk(items[k]) && Fits(items[k], MAX_RECURSION_LEVEL - level)
    ensures BdecodeItems(t, ps, pos, level, read) == Decoded(pos + |EncodeItems(items)| + 1, List(read + items))
    decreases items, 0
  {
    hide ReadDecimals, EntryOk, Fits, Encode, BdecodeRecursive;
    if items == [] {
      HasAt(t, pos, "e", 0);
      assert read + [] == read;
    } else {
      var first, rest := Encode(items[0]), EncodeItems(items[1..]);
      assert EncodeItems(items) + "e" == first + (rest + "e");
      HasConcat(t, pos, first, rest + "e");
      EntryBack(t, ps, items[0], level, pos, Undefined);
      ItemsBack(t, ps, items[1..], level, pos + |first|, read + [items[0]]);
      assert read + [items[0]] + items[1..] == read + items;
    }
  }

  lemma {:induction false} MembersBack(t: bytes, ps: NumberParsers, ms: seq<Member>, level: nat, pos: nat,
                                       read: seq<Member>)
    requires ReadDecimals(ps) && Ascending(read + ms) && Has(t, pos, EncodeMembers(ms) + "e")
    requires ms != [] ==> level + 1 < MAX_RECURSION_LEVEL
    requires forall k :: 0 <= k < |ms| ==>
               |ms[k].key| < 0x8000_0000_0000_0000 && EntryOk(ms[k].value)
               && Fits(ms[k].value, MAX_RECURSION_LEVEL - level)
    ensures BdecodeMembers(t, ps, pos, level, read) == Decoded(pos + |EncodeMembers(ms)| + 1, Dictionary(read + ms))
    decreases ms, 0
  {
    hide ReadDecimals, EntryOk, Encode, BdecodeRecursive, StringText, Insert, Ascending, Fits, Lookup, Has;
    if ms == [] {
      assert EncodeMembers(ms) + "e" == "e";
      HasLetter(t, pos);
      assert read + [] == read;
    } else {
      var m, rest := ms[0], EncodeMembers(ms[1..]);
      var key, value := StringText(m.key), Encode(m.value);
      MembersText(ms);
      HasConcat(t, pos, key, value + (rest + "e"));
      HasConcat(t, pos + |key|, value, rest + "e");
      StringEntryBack(t, ps, m.key, level, pos, Undefined);
      EntryBack(t, ps, m.value, level, pos + |key|, Lookup(read, m.key));
      AscendingSplit(read, ms);
      InsertLast(read, m.key, m.value);
      assert read + [m] + ms[1..] == read + ms;
      MembersBack(t, ps, ms[1..], level, pos + |key| + |value|, read + [m]);
    }
  }

  lemma HasLetter(t: bytes, pos: nat)
    requires Has(t, pos, "e")
    ensures At(t, pos) == 'e' && pos < |t|
  {
    HasAt(t, pos, "e", 0);
  }

  lemma MembersText(ms: seq<Member>)
    requires ms != []
    ensures EncodeMembers(ms) + "e"
         == StringText(ms[0].key) + (Encode(ms[0].value) + (EncodeMembers(ms[1..]) + "e"))
  {
    hide StringText, Encode;
    Regroup(StringText(ms[0].key), Encode(ms[0].value), EncodeMembers(ms[1..]), "e");
  }

  /** In an ascending sequence every earlier key is less than a later one. */
  lemma {:induction false} AscendingSplit(read: seq<Member>, ms: seq<Member>)
    requires Ascending(read + ms) && ms != []
    ensures forall k :: 0 <= k < |read| ==> Less(read[k].key, ms[0].key)
    decreases |read|
  {
    var all := read + ms;
    if read != [] {
      var last := |read| - 1;
      assert Less(all[last].key, all[last + 1].key);
      assert read[..last] + ([read[last]] + ms) == all;
      AscendingSplit(read[..last], [read[last]] + ms);
      forall k | 0 <= k < |read| ensures Less(read[k].key, ms[0].key) {
        if k < last {
          assert read[..last][k] == read[k];
          LessTransitive(read[k].key, read[last].key, ms[0].key);
        }
      }
    }
  }

  /** bdecode after bencode. */
  lemma RoundTrip(ps: NumberParsers, e: Entry, before: Entry)
    requires ReadDecimals(ps) && EntryOk(e)
    ensures var r := BencodeRecursive(e, 0, []);
            r.code == EncodeOk ==> BdecodeRecursive(r.result, ps, 0, 0, before) == Decoded(|r.result|, e)
  {
    var r := BencodeRecursive(e, 0, []);
    if r.code == EncodeOk {
      assert Has(r.result, 0, r.result);
      DecoderInvertsEncoder(r.result, ps, e, 0, 0, before);
    }
  }
}
