/** The flat decoder inverts the encoder: it accepts every encoding within its limits, with exactly these tokens. */
module BdecodeRoundTrip {
  import opened Bytes
  import opened Decimals
  import opened Bencoding
  import opened Bdecode
  import opened BdecodeWalk

  // ---------------------------------------------------------------- the tokens of an entry

  /** The tokens for an entry whose encoding starts at `off`. */
  function Tokens(e: Entry, off: nat): seq<Token>
    decreases e
  {
    match e
    case Undefined => []
    case Integer(_) => [Token(off, IntegerToken, 1, 0)]
    case Str(s) => [StringTokenFor(s, off)]
    case List(items) =>
      Enclosed(ListToken, off, ItemTokens(items, off + 1), off + 1 + |EncodeItems(items)|)
    case Dictionary(ms) =>
      Enclosed(DictToken, off, MemberTokens(ms, off + 1), off + 1 + |EncodeMembers(ms)|)
  }

  function StringTokenFor(s: bytes, off: nat): Token {
    Token(off, StringToken, 1, |Dec(|s|)| - 1)
  }

  /** A container's token, what is inside it, and its end token at `end`. */
  function Enclosed(kind: Kind, off: nat, inside: seq<Token>, end: nat): seq<Token> {
    [Token(off, kind, |inside| + 2, 0)] + inside + [Token(end, EndToken, 1, 0)]
  }

  function ItemTokens(items: seq<Entry>, off: nat): seq<Token>
    decreases items
  {
    if items == [] then [] else Tokens(items[0], off) + ItemTokens(items[1..], off + |Encode(items[0])|)
  }

  function MemberTokens(ms: seq<Member>, off: nat): seq<Token>
    decreases ms
  {
    if ms == [] then []
    else
      var value := off + |StringText(ms[0].key)|;
      [StringTokenFor(ms[0].key, off)] + Tokens(ms[0].value, value)
      + MemberTokens(ms[1..], value + |Encode(ms[0].value)|)
  }

  /** Each token stands for at least one byte. */
  lemma {:induction false} TokensFew(e: Entry, off: nat)
    ensures |Tokens(e, off)| <= |Encode(e)|
    decreases e
  {
    match e
    case Undefined =>
    case Integer(n) =>
    case Str(s) =>
    case List(items) => ItemTokensFew(items, off + 1);
    case Dictionary(ms) => MemberTokensFew(ms, off + 1);
  }

  lemma {:induction false} ItemTokensFew(items: seq<Entry>, off: nat)
    ensures |ItemTokens(items, off)| <= |EncodeItems(items)|
    decreases items
  {
    if items != [] {
      TokensFew(items[0], off);
      ItemTokensFew(items[1..], off + |Encode(items[0])|);
    }
  }

  lemma {:induction false} MemberTokensFew(ms: seq<Member>, off: nat)
    ensures |MemberTokens(ms, off)| <= |EncodeMembers(ms)|
    decreases ms
  {
    if ms != [] {
      var value := off + |StringText(ms[0].key)|;
      TokensFew(ms[0].value, value);
      MemberTokensFew(ms[1..], value + |Encode(ms[0].value)|);
    }
  }

  // ---------------------------------------------------------------- what fits the decoder

  /** The entry is defined, and its integers are 64 bits wide. */
  predicate Typed(e: Entry)
    decreases e
  {
    match e
    case Undefined => false
    case Integer(n) => -0x8000_0000_0000_0000 <= n < 0x8000_0000_0000_0000
    case Str(_) => true
    case List(items) => forall k :: 0 <= k < |items| ==> Typed(items[k])
    case Dictionary(ms) => forall k :: 0 <= k < |ms| ==> Typed(ms[k].value)
  }

  const STRING_LIMIT: nat := 100_000_000

  /** Containers nest less than `depth` deep, and the length of every string has at most 8 digits. */
  predicate Suits(e: Entry, depth: int)
    decreases e
  {
    match e
    case Str(s) => depth > 0 && |s| < STRING_LIMIT
    case List(items) => depth > 1 && forall k :: 0 <= k < |items| ==> Suits(items[k], depth - 1)
    case Dictionary(ms) =>
      depth > 1 && forall k :: 0 <= k < |ms| ==> |ms[k].key| < STRING_LIMIT && Suits(ms[k].value, depth - 1)
    case _ => depth > 0
  }

  // ---------------------------------------------------------------- numbers

  function Power10(k: nat): (r: nat)
    ensures r > 0
  {
    if k == 0 then 1 else 10 * Power10(k - 1)
  }

  /** A number has at most `k` digits exactly if it is below the power of ten. */
  lemma {:induction false} DecLength(n: nat, k: nat)
    requires k > 0
    ensures |Dec(n)| <= k <==> n < Power10(k)
    decreases k
  {
    if n >= 10 {
      if k == 1 {
        assert Power10(1) == 10 * Power10(0);
      } else {
        DecLength(n / 10, k - 1);
      }
    } else {
      assert Power10(k) >= 10;
    }
  }

  lemma Powers()
    ensures Power10(8) == STRING_LIMIT && Power10(19) == 10_000_000_000_000_000_000
  {
    assert Power10(4) == 10_000;
    assert Power10(8) == 100_000_000;
    assert Power10(12) == 1_000_000_000_000;
    assert Power10(16) == 10_000_000_000_000_000;
  }

  lemma HasTail(b: bytes, pos: nat, w: bytes, last: byte)
    requires w != [] && Has(b, pos, w + [last])
    ensures Has(b, pos + 1, w[1..] + [last])
  {
    assert w + [last] == [w[0]] + (w[1..] + [last]);
    HasConcat(b, pos, [w[0]], w[1..] + [last]);
  }

  /** parse_int reads digits up to the delimiter, and refuses exactly the numbers beyond 63 bits. */
  lemma {:induction false} ParseIntBack(b: bytes, start: nat, end: nat, w: bytes, delimiter: byte, val: nat)
    requires AllDigits(w) && !IsDigit(delimiter) && Has(b, start, w + [delimiter]) && start + |w| < end <= |b|
    requires val <= MAX_INT64
    ensures delimiter in b[start..end]
    ensures if Decimal(val, w) <= MAX_INT64 then
              ParseInt(b, start, end, delimiter, val) == ParsedInt(start + |w|, Decimal(val, w), None)
            else ParseInt(b, start, end, delimiter, val).error == Some(Overflow)
    decreases |w|
  {
    HasConcat(b, start, w, [delimiter]);
    HasAt(b, start + |w|, [delimiter], 0);
    assert b[start..end][|w|] == delimiter;
    if w != [] {
      HasAt(b, start, w, 0);
      HasTail(b, start, w, delimiter);
      DecimalGrows(val * 10 + DigitValue(w[0]), w[1..]);
      if val * 10 + DigitValue(w[0]) <= MAX_INT64 {
        ParseIntBack(b, start + 1, end, w[1..], delimiter, val * 10 + DigitValue(w[0]));
      }
    }
  }

  lemma {:induction false} CheckDigitsBack(b: bytes, pos: nat, w: bytes, digits: nat)
    requires IsBuffer(b) && w != [] && AllDigits(w) && Has(b, pos, w + "e") && pos + |w| < End(b)
    ensures CheckDigits(b, pos, digits) == CheckedAt(pos + |w|, digits + |w|, None)
    decreases |w|
  {
    HasConcat(b, pos, w, "e");
    HasAt(b, pos, w, 0);
    if |w| == 1 {
      HasAt(b, pos + 1, "e", 0);
    } else {
      HasAt(b, pos, w, 1);
      assert w + "e" == [w[0]] + (w[1..] + "e");
      HasConcat(b, pos, [w[0]], w[1..] + "e");
      CheckDigitsBack(b, pos + 1, w[1..], digits + 1);
    }
  }

  lemma CheckIntegerBack(b: bytes, pos: nat, n: int)
    requires IsBuffer(b) && Has(b, pos, SignedDec(n) + "e") && pos + |SignedDec(n)| < End(b)
    requires -0x8000_0000_0000_0000 <= n < 0x8000_0000_0000_0000
    ensures CheckInteger(b, pos) == Checked(pos + |SignedDec(n)|, None)
  {
    hide CheckDigits, Power10, Dec;
    var m: nat := if n < 0 then -n else n;
    Powers();
    DecLength(m, 19);
    if n < 0 {
      assert SignedDec(n) + "e" == "-" + (Dec(m) + "e");
      HasConcat(b, pos, "-", Dec(m) + "e");
      HasAt(b, pos, "-", 0);
      CheckDigitsBack(b, pos + 1, Dec(m), 0);
    } else {
      HasConcat(b, pos, Dec(m), "e");
      HasAt(b, pos, Dec(m), 0);
      CheckDigitsBack(b, pos, Dec(m), 0);
    }
  }

  // ---------------------------------------------------------------- running over an encoding

  predicate Ready(b: bytes, d: Decoder) {
    IsBuffer(b) && End(b) <= MAX_OFFSET && d.pos <= End(b) && FramesOk(d) && |d.tokens| <= d.pos
  }

  /** The decoder after an entry. */
  function AfterEntry(d: Decoder, e: Entry): Decoder
    requires FramesOk(d)
  {
    var t := Tokens(e, d.pos);
    Decoder(d.pos + |Encode(e)|, d.tokens + t, Toggled(d).stack, d.limit - |t|)
  }

  /** The decoder goes on, unless this was the root. */
  function GoOn(b: bytes, depthLimit: nat, d: Decoder): Result
    requires IsBuffer(b) && d.pos <= End(b) && FramesOk(d)
  {
    if d.stack == [] then Result(Unwind(d.tokens, d.stack, d.pos), d.pos, None, 0) else Run(b, depthLimit, d)
  }

  /** There is room for an entry: the limits allow it, and it is not an empty string at the very end of the buffer. */
  predicate Room(b: bytes, depthLimit: nat, d: Decoder, e: Entry)
    requires IsBuffer(b)
  {
    && Suits(e, depthLimit - |d.stack|) && |Tokens(e, d.pos)| <= d.limit
    && !(e == Str([]) && d.pos + |Encode(e)| >= End(b))
  }

  lemma AfterReady(b: bytes, d: Decoder, e: Entry)
    requires Ready(b, d) && Has(b, d.pos, Encode(e)) && d.pos + |Encode(e)| <= End(b)
    ensures Ready(b, AfterEntry(d, e))
  {
    TokensFew(e, d.pos);
  }

  lemma ToggledFrames(d: Decoder)
    requires FramesOk(d)
    ensures |Toggled(d).stack| == |d.stack|
    ensures forall k :: 0 <= k < |d.stack| ==> Toggled(d).stack[k].token == d.stack[k].token
    ensures Toggled(d).stack == Toggled(d.(limit := d.limit - 1)).stack
  {
  }

  /** The decoder after one token for a string or integer. */
  function AfterScalar(d: Decoder, token: Token, pos: nat): Decoder
    requires FramesOk(d)
  {
    Decoder(pos, d.tokens + [token], Toggled(d).stack, d.limit - 1)
  }

  lemma ScalarRun(b: bytes, depthLimit: nat, d: Decoder, token: Token, pos: nat)
    requires Ready(b, d) && pos <= End(b)
    requires OneToken(b, depthLimit, d) == Scalar(d.(limit := d.limit - 1), token, pos)
    ensures FramesOk(AfterScalar(d, token, pos))
    ensures Run(b, depthLimit, d) == GoOn(b, depthLimit, AfterScalar(d, token, pos))
  {
    hide OneToken, Unwind, Toggled;
    ToggledFrames(d);
  }

  /** The two limits that are tested before any token is read. */
  predicate Admitted(depthLimit: nat, d: Decoder) {
    |d.stack| < depthLimit && d.limit >= 1
  }

  lemma NotAdmitted(b: bytes, depthLimit: nat, d: Decoder)
    requires Ready(b, d) && !Admitted(depthLimit, d)
    ensures Run(b, depthLimit, d).error.Some?
  {
    hide Unwind;
  }

  /** The length of a string, its first digit read already. */
  lemma LengthRead(b: bytes, pos: nat, n: nat)
    requires IsBuffer(b) && Has(b, pos, Dec(n) + ":") && pos + |Dec(n)| < End(b) && n <= MAX_INT64
    ensures IsDigit(b[pos])
    ensures ParseInt(b, pos + 1, End(b), ':', DigitValue(b[pos])) == ParsedInt(pos + |Dec(n)|, n, None)
  {
    hide Dec, ParseInt, Has;
    var w := Dec(n);
    HasConcat(b, pos, w, ":");
    HasAt(b, pos, w, 0);
    var head, rest := [w[0]], w[1..];
    assert w + ":" == head + (rest + ":");
    HasConcat(b, pos, head, rest + ":");
    DecBack(n);
    assert Decimal(0, w) == Decimal(DigitValue(w[0]), rest);
    ParseIntBack(b, pos + 1, End(b), w[1..], ':', DigitValue(w[0]));
  }

  lemma StringRead(b: bytes, d: Decoder, s: bytes)
    requires Ready(b, d) && Has(b, d.pos, StringText(s)) && d.pos + |StringText(s)| <= End(b)
    ensures IsDigit(b[d.pos])
    ensures if |s| < STRING_LIMIT && !(s == [] && d.pos + |StringText(s)| >= End(b))
            then ReadString(b, d) == Scalar(d, StringTokenFor(s, d.pos), d.pos + |StringText(s)|)
            else ReadString(b, d).Failed?
  {
    hide Scalar, ParseInt, Dec, Power10;
    var w := Dec(|s|);
    HasConcat(b, d.pos, w + ":", s);
    LengthRead(b, d.pos, |s|);
    Powers();
    DecLength(|s|, 8);
  }

  /** A string, as a root, an item, a value or a name. */
  lemma StringRun(b: bytes, depthLimit: nat, d: Decoder, s: bytes)
    requires Ready(b, d) && Has(b, d.pos, StringText(s)) && d.pos + |StringText(s)| <= End(b)
    ensures Ready(b, AfterEntry(d, Str(s)))
    ensures if Room(b, depthLimit, d, Str(s)) then Run(b, depthLimit, d) == GoOn(b, depthLimit, AfterEntry(d, Str(s)))
            else Run(b, depthLimit, d).error.Some?
  {
    hide Toggled, ReadString, StringText, Unwind, GoOn, Scalar;
    StringTextLong(s);
    ToggledFrames(d);
    if !Admitted(depthLimit, d) {
      NotAdmitted(b, depthLimit, d);
    } else {
      var e := d.(limit := d.limit - 1);
      StringRead(b, e, s);
      assert OneToken(b, depthLimit, d) == ReadString(b, e);
      if Room(b, depthLimit, d, Str(s)) {
        ScalarRun(b, depthLimit, d, StringTokenFor(s, d.pos), d.pos + |StringText(s)|);
      }
    }
  }

  lemma StringTextLong(s: bytes)
    ensures |StringText(s)| >= 2
  {
  }

  lemma IntegerRun(b: bytes, depthLimit: nat, d: Decoder, n: int)
    requires Ready(b, d) && Typed(Integer(n)) && Has(b, d.pos, Encode(Integer(n)))
    requires d.pos + |Encode(Integer(n))| <= End(b)
    requires InDict(d) ==> Top(d).value
    ensures Ready(b, AfterEntry(d, Integer(n)))
    ensures if Room(b, depthLimit, d, Integer(n))
            then Run(b, depthLimit, d) == GoOn(b, depthLimit, AfterEntry(d, Integer(n)))
            else Run(b, depthLimit, d).error.Some?
  {
    hide Toggled, CheckInteger, SignedDec, Unwind, GoOn, Scalar;
    ToggledFrames(d);
    if !Admitted(depthLimit, d) {
      NotAdmitted(b, depthLimit, d);
    } else {
      var e, text := d.(limit := d.limit - 1), SignedDec(n);
      assert "i" + text + "e" == "i" + (text + "e");
      HasConcat(b, d.pos, "i", text + "e");
      HasAt(b, d.pos, "i", 0);
      CheckIntegerBack(b, d.pos + 1, n);
      assert OneToken(b, depthLimit, d) == ReadInteger(b, e);
      ScalarRun(b, depthLimit, d, Token(d.pos, IntegerToken, 1, 0), d.pos + |Encode(Integer(n))|);
    }
  }

  // Containers: the opening letter, what is inside, and the closing letter.

  lemma OpenRun(b: bytes, depthLimit: nat, d: Decoder, kind: Kind)
    requires Ready(b, d) && d.pos < End(b) && Admitted(depthLimit, d) && (InDict(d) ==> Top(d).value)
    requires (kind == ListToken && b[d.pos] == 'l') || (kind == DictToken && b[d.pos] == 'd')
    ensures var n := Open(d.(limit := d.limit - 1), kind);
            && Ready(b, n) && Run(b, depthLimit, d) == Run(b, depthLimit, n)
            && |n.stack| == |d.stack| + 1 && n.stack[..|d.stack|] == Toggled(d).stack
            && Top(n) == Frame(|d.tokens|, false) && (InDict(n) <==> kind == DictToken)
  {
    hide Toggled, Unwind;
    ToggledFrames(d);
  }

  lemma CloseRun(b: bytes, depthLimit: nat, d: Decoder)
    requires Ready(b, d) && d.pos < End(b) && b[d.pos] == 'e' && d.stack != [] && !(InDict(d) && Top(d).value)
    requires Admitted(depthLimit, d)
    ensures var top, tokens := Top(d).token, d.tokens + [Token(d.pos, EndToken, 1, 0)];
            var n := Decoder(d.pos + 1, Patched(tokens, top, |tokens| - top), d.stack[..|d.stack| - 1], d.limit - 1);
            Ready(b, n) && Run(b, depthLimit, d) == GoOn(b, depthLimit, n)
  {
    hide Unwind;
    var e := d.(limit := d.limit - 1);
    assert OneToken(b, depthLimit, d) == Close(e);
  }

  lemma PatchedEnclosed(tokens: seq<Token>, kind: Kind, off: nat, inside: seq<Token>, end: nat)
    requires |inside| + 2 <= MAX_NEXT_ITEM
    ensures var all := tokens + [Token(off, kind, 0, 0)] + inside + [Token(end, EndToken, 1, 0)];
            |all| == |tokens| + |inside| + 2
            && Patched(all, |tokens|, |inside| + 2) == tokens + Enclosed(kind, off, inside, end)
  {
  }

  /** The decoder inside a container, after some tokens. */
  function Inside(d: Decoder, inside: seq<Token>, length: nat): Decoder {
    Decoder(d.pos + length, d.tokens + inside, d.stack, d.limit - |inside|)
  }

  /** From the opening letter of a container to its end, when running over what is inside gives these tokens. */
  lemma ContainerRun(b: bytes, depthLimit: nat, d: Decoder, kind: Kind, inside: seq<Token>, length: nat)
    requires Ready(b, d) && d.pos + length + 2 <= End(b) && Admitted(depthLimit, d) && (InDict(d) ==> Top(d).value)
    requires (kind == ListToken && b[d.pos] == 'l') || (kind == DictToken && b[d.pos] == 'd')
    requires b[d.pos + 1 + length] == 'e' && |inside| <= length
    requires var n := Open(d.(limit := d.limit - 1), kind);
             FramesOk(n) && FramesOk(Inside(n, inside, length))
             && Run(b, depthLimit, n) == Run(b, depthLimit, Inside(n, inside, length))
    ensures var end := d.pos + 1 + length;
            var after := Decoder(end + 1, d.tokens + Enclosed(kind, d.pos, inside, end), Toggled(d).stack,
                                 d.limit - |inside| - 2);
            && FramesOk(after)
            && if |d.stack| + 1 < depthLimit && |inside| + 2 <= d.limit
               then Run(b, depthLimit, d) == GoOn(b, depthLimit, after)
               else Run(b, depthLimit, d).error.Some?
  {
    hide Toggled, Unwind, Run, Enclosed, GoOn, Open;
    OpenRun(b, depthLimit, d, kind);
    var n := Open(d.(limit := d.limit - 1), kind);
    OpenFields(d, kind);
    var m := Inside(n, inside, length);
    ToggledFrames(d);
    if Admitted(depthLimit, m) {
      CloseRun(b, depthLimit, m);
      PatchedEnclosed(d.tokens, kind, d.pos, inside, m.pos);
    } else {
      NotAdmitted(b, depthLimit, m);
    }
  }

  lemma OpenFields(d: Decoder, kind: Kind)
    requires FramesOk(d)
    ensures var n := Open(d.(limit := d.limit - 1), kind);
            n.pos == d.pos + 1 && n.tokens == d.tokens + [Token(d.pos, kind, 0, 0)] && n.limit == d.limit - 1
  {
  }

  /** An entry, in any place where one may come. */
  lemma {:induction false} EntryRun(b: bytes, depthLimit: nat, d: Decoder, e: Entry)
    requires Ready(b, d) && Typed(e) && Has(b, d.pos, Encode(e)) && d.pos + |Encode(e)| <= End(b)
    requires InDict(d) ==> Top(d).value
    ensures Ready(b, AfterEntry(d, e))
    ensures if Room(b, depthLimit, d, e) then Run(b, depthLimit, d) == GoOn(b, depthLimit, AfterEntry(d, e))
            else Run(b, depthLimit, d).error.Some?
    decreases e, 2
  {
    hide Run, GoOn, Toggled, AfterEntry, Encode, Room;
    match e
    case Integer(n) => IntegerRun(b, depthLimit, d, n);
    case Str(s) =>
      assert Encode(e) == StringText(s) by { EncodeStr(s); }
      StringRun(b, depthLimit, d, s);
    case List(items) => ListRun(b, depthLimit, d, items);
    case Dictionary(ms) => DictRun(b, depthLimit, d, ms);
  }

  lemma EncodeStr(s: bytes)
    ensures Encode(Str(s)) == StringText(s)
  {
  }

  /** What room for a list is, and where the decoder stands after it. */
  lemma ListRoom(b: bytes, depthLimit: nat, d: Decoder, items: seq<Entry>)
    requires Ready(b, d)
    ensures var e, inside := List(items), ItemTokens(items, d.pos + 1);
            && (Room(b, depthLimit, d, e) <==>
                 && |d.stack| + 1 < depthLimit && |inside| + 2 <= d.limit
                 && forall k :: 0 <= k < |items| ==> Suits(items[k], depthLimit - (|d.stack| + 1)))
            && var end := d.pos + 1 + |EncodeItems(items)|;
               AfterEntry(d, e)
               == Decoder(end + 1, d.tokens + Enclosed(ListToken, d.pos, inside, end), Toggled(d).stack,
                          d.limit - |inside| - 2)
  {
    hide Toggled, EncodeItems, ItemTokens;
  }

  lemma {:induction false} ListRun(b: bytes, depthLimit: nat, d: Decoder, items: seq<Entry>)
    requires Ready(b, d) && Typed(List(items))
    requires Has(b, d.pos, Encode(List(items))) && d.pos + |Encode(List(items))| <= End(b)
    requires InDict(d) ==> Top(d).value
    ensures Ready(b, AfterEntry(d, List(items)))
    ensures if Room(b, depthLimit, d, List(items))
            then Run(b, depthLimit, d) == GoOn(b, depthLimit, AfterEntry(d, List(items)))
            else Run(b, depthLimit, d).error.Some?
    decreases items, 1
  {
    hide Run, GoOn, Toggled, Open, EncodeItems, ItemTokens, Enclosed, Room, AfterEntry, Suits;
    var text, e, inside := EncodeItems(items), List(items), ItemTokens(items, d.pos + 1);
    AfterReady(b, d, e);
    ListRoom(b, depthLimit, d, items);
    LettersAround(b, d.pos, "l", text);
    if Admitted(depthLimit, d) {
      OpenRun(b, depthLimit, d, ListToken);
      OpenFields(d, ListToken);
      var n := Open(d.(limit := d.limit - 1), ListToken);
      ItemsRun(b, depthLimit, n, items);
      ItemTokensFew(items, d.pos + 1);
      if n.limit >= |inside| && forall k :: 0 <= k < |items| ==> Suits(items[k], depthLimit - |n.stack|) {
        ContainerRun(b, depthLimit, d, ListToken, inside, |text|);
      }
    } else {
      NotAdmitted(b, depthLimit, d);
    }
  }

  lemma LettersAround(b: bytes, pos: nat, letter: bytes, text: bytes)
    requires |letter| == 1 && Has(b, pos, letter + text + "e")
    ensures pos + |text| + 1 < |b| && b[pos] == letter[0] && Has(b, pos + 1, text) && b[pos + 1 + |text|] == 'e'
  {
    assert letter + text + "e" == letter + (text + "e");
    HasConcat(b, pos, letter, text + "e");
    HasConcat(b, pos + 1, text, "e");
    HasAt(b, pos, letter, 0);
    HasAt(b, pos + 1 + |text|, "e", 0);
  }

  lemma {:induction false} ItemsRun(b: bytes, depthLimit: nat, d: Decoder, items: seq<Entry>)
    requires Ready(b, d) && d.stack != [] && !InDict(d) && forall k :: 0 <= k < |items| ==> Typed(items[k])
    requires Has(b, d.pos, EncodeItems(items)) && d.pos + |EncodeItems(items)| < End(b)
    ensures var n := Inside(d, ItemTokens(items, d.pos), |EncodeItems(items)|);
            && Ready(b, n)
            && if (forall k :: 0 <= k < |items| ==> Suits(items[k], depthLimit - |d.stack|)) && n.limit >= 0 then
                 Run(b, depthLimit, d) == Run(b, depthLimit, n)
               else d.limit >= 0 ==> Run(b, depthLimit, d).error.Some?
    decreases items, 0
  {
    hide Run, Tokens, Encode, Suits;
    if items == [] {
      assert d == Inside(d, [], 0) by { assert d.tokens + [] == d.tokens; }
    } else {
      var first, rest := Encode(items[0]), EncodeItems(items[1..]);
      HasConcat(b, d.pos, first, rest);
      EntryRun(b, depthLimit, d, items[0]);
      var m := AfterEntry(d, items[0]);
      assert m.stack == d.stack;
      ItemsRun(b, depthLimit, m, items[1..]);
      var t, u := Tokens(items[0], d.pos), ItemTokens(items[1..], m.pos);
      assert d.tokens + t + u == d.tokens + (t + u);
      assert forall k :: 0 < k < |items| ==> items[k] == items[1..][k - 1];
    }
  }

  lemma DictRoom(b: bytes, depthLimit: nat, d: Decoder, ms: seq<Member>)
    requires Ready(b, d)
    ensures var e, inside := Dictionary(ms), MemberTokens(ms, d.pos + 1);
            && (Room(b, depthLimit, d, e) <==>
                 && |d.stack| + 1 < depthLimit && |inside| + 2 <= d.limit && AllSuit(ms, depthLimit - (|d.stack| + 1)))
            && var end := d.pos + 1 + |EncodeMembers(ms)|;
               AfterEntry(d, e)
               == Decoder(end + 1, d.tokens + Enclosed(DictToken, d.pos, inside, end), Toggled(d).stack,
                          d.limit - |inside| - 2)
  {
    hide Toggled, EncodeMembers, MemberTokens;
  }

  predicate AllSuit(ms: seq<Member>, depth: int) {
    forall k :: 0 <= k < |ms| ==> |ms[k].key| < STRING_LIMIT && Suits(ms[k].value, depth)
  }

  lemma {:induction false} DictRun(b: bytes, depthLimit: nat, d: Decoder, ms: seq<Member>)
    requires Ready(b, d) && Typed(Dictionary(ms))
    requires Has(b, d.pos, Encode(Dictionary(ms))) && d.pos + |Encode(Dictionary(ms))| <= End(b)
    requires InDict(d) ==> Top(d).value
    ensures Ready(b, AfterEntry(d, Dictionary(ms)))
    ensures if Room(b, depthLimit, d, Dictionary(ms))
            then Run(b, depthLimit, d) == GoOn(b, depthLimit, AfterEntry(d, Dictionary(ms)))
            else Run(b, depthLimit, d).error.Some?
    decreases ms, 1
  {
    hide Run, GoOn, Toggled, Open, EncodeMembers, MemberTokens, Enclosed, Room, AfterEntry, Suits, AllSuit;
    var text, e, inside := EncodeMembers(ms), Dictionary(ms), MemberTokens(ms, d.pos + 1);
    AfterReady(b, d, e);
    DictRoom(b, depthLimit, d, ms);
    LettersAround(b, d.pos, "d", text);
    if Admitted(depthLimit, d) {
      OpenRun(b, depthLimit, d, DictToken);
      OpenFields(d, DictToken);
      var n := Open(d.(limit := d.limit - 1), DictToken);
      MembersRun(b, depthLimit, n, ms);
      MemberTokensFew(ms, d.pos + 1);
      if n.limit >= |inside| && AllSuit(ms, depthLimit - |n.stack|) {
        ContainerRun(b, depthLimit, d, DictToken, inside, |text|);
      }
    } else {
      NotAdmitted(b, depthLimit, d);
    }
  }

  lemma {:induction false} MembersRun(b: bytes, depthLimit: nat, d: Decoder, ms: seq<Member>)
    requires Ready(b, d) && InDict(d) && !Top(d).value && forall k :: 0 <= k < |ms| ==> Typed(ms[k].value)
    requires Has(b, d.pos, EncodeMembers(ms)) && d.pos + |EncodeMembers(ms)| < End(b)
    ensures var n := Inside(d, MemberTokens(ms, d.pos), |EncodeMembers(ms)|);
            && Ready(b, n)
            && if AllSuit(ms, depthLimit - |d.stack|) && n.limit >= 0
               then Run(b, depthLimit, d) == Run(b, depthLimit, n)
               else d.limit >= 0 ==> Run(b, depthLimit, d).error.Some?
    decreases ms, 0
  {
    hide Run, Tokens, Encode, StringText, Suits, Toggled, AllSuit, StringTokenFor;
    if ms == [] {
      assert d == Inside(d, [], 0) by { assert d.tokens + [] == d.tokens; }
      assert AllSuit([], depthLimit - |d.stack|) by { SuitNone(depthLimit - |d.stack|); }
    } else {
      hide EncodeMembers, MemberTokens;
      MembersSplit(b, d, ms);
      MemberRun(b, depthLimit, d, ms[0]);
      MembersRun(b, depthLimit, AfterMember(d, ms[0]), ms[1..]);
      SuitSplit(ms, depthLimit - |d.stack|);
    }
  }

  /** The decoder after a name and its value. */
  function AfterMember(d: Decoder, m: Member): Decoder {
    var value := d.pos + |StringText(m.key)|;
    Inside(d, [StringTokenFor(m.key, d.pos)] + Tokens(m.value, value), |StringText(m.key)| + |Encode(m.value)|)
  }

  lemma MembersSplit(b: bytes, d: Decoder, ms: seq<Member>)
    requires ms != [] && Has(b, d.pos, EncodeMembers(ms))
    ensures var m, n := ms[0], AfterMember(d, ms[0]);
            && Has(b, d.pos, StringText(m.key)) && Has(b, d.pos + |StringText(m.key)|, Encode(m.value))
            && Has(b, n.pos, EncodeMembers(ms[1..]))
            && n.pos + |EncodeMembers(ms[1..])| == d.pos + |EncodeMembers(ms)|
            && Inside(n, MemberTokens(ms[1..], n.pos), |EncodeMembers(ms[1..])|)
               == Inside(d, MemberTokens(ms, d.pos), |EncodeMembers(ms)|)
  {
    hide Tokens, Encode, StringText, StringTokenFor, Has;
    var m, n := ms[0], AfterMember(d, ms[0]);
    var key, first, rest := StringText(m.key), Encode(m.value), EncodeMembers(ms[1..]);
    HasThree(b, d.pos, key, first, rest);
    var t, u := [StringTokenFor(m.key, d.pos)] + Tokens(m.value, d.pos + |key|), MemberTokens(ms[1..], n.pos);
    assert MemberTokens(ms, d.pos) == t + u;
    InsideTwice(d, t, u, |key| + |first|, |rest|);
  }

  lemma HasThree(b: bytes, pos: nat, u: bytes, v: bytes, w: bytes)
    requires Has(b, pos, u + v + w)
    ensures Has(b, pos, u) && Has(b, pos + |u|, v) && Has(b, pos + |u| + |v|, w)
  {
    HasConcat(b, pos, u + v, w);
    HasConcat(b, pos, u, v);
  }

  lemma InsideTwice(d: Decoder, t: seq<Token>, u: seq<Token>, m: nat, n: nat)
    ensures Inside(Inside(d, t, m), u, n) == Inside(d, t + u, m + n)
  {
    assert d.tokens + t + u == d.tokens + (t + u);
  }

  lemma SuitNone(depth: int)
    ensures AllSuit([], depth)
  {
  }

  lemma SuitSplit(ms: seq<Member>, depth: int)
    requires ms != []
    ensures AllSuit(ms, depth) <==> AllSuit([ms[0]], depth) && AllSuit(ms[1..], depth)
  {
    assert forall k :: 0 < k < |ms| ==> ms[k] == ms[1..][k - 1];
    assert [ms[0]][0] == ms[0];
  }

  /** A name and a value. */
  lemma {:induction false} MemberRun(b: bytes, depthLimit: nat, d: Decoder, m: Member)
    requires Ready(b, d) && InDict(d) && !Top(d).value && Typed(m.value)
    requires Has(b, d.pos, StringText(m.key)) && Has(b, d.pos + |StringText(m.key)|, Encode(m.value))
    requires d.pos + |StringText(m.key)| + |Encode(m.value)| < End(b)
    ensures var n := AfterMember(d, m);
            && Ready(b, n)
            && if AllSuit([m], depthLimit - |d.stack|) && n.limit >= 0
               then Run(b, depthLimit, d) == Run(b, depthLimit, n)
               else d.limit >= 0 ==> Run(b, depthLimit, d).error.Some?
    decreases m, 3
  {
    hide Run, Tokens, Toggled, Unwind, StringText, StringTokenFor, Suits;
    var depth, named := depthLimit - |d.stack|, AfterName(d, m.key);
    assert [m][0] == m;
    assert AllSuit([m], depth) <==> |m.key| < STRING_LIMIT && Suits(m.value, depth);
    NameFits(b, depthLimit, d, m);
    StringRun(b, depthLimit, d, m.key);
    ToggledOnce(d);
    assert named == AfterEntry(d, Str(m.key)) by { NameTokens(d, m.key); }
    EntryRun(b, depthLimit, named, m.value);
    ToggledTwice(d, m.key);
    var t, u := [StringTokenFor(m.key, d.pos)], Tokens(m.value, named.pos);
    assert d.tokens + t + u == d.tokens + (t + u);
    EncodeEnough(m.value);
    assert AfterEntry(named, m.value) == Inside(d, t + u, |StringText(m.key)| + |Encode(m.value)|);
  }

  function AfterName(d: Decoder, key: bytes): Decoder
    requires FramesOk(d)
  {
    Decoder(d.pos + |StringText(key)|, d.tokens + [StringTokenFor(key, d.pos)], Toggled(d).stack, d.limit - 1)
  }

  lemma NameTokens(d: Decoder, key: bytes)
    ensures Tokens(Str(key), d.pos) == [StringTokenFor(key, d.pos)] && Encode(Str(key)) == StringText(key)
  {
  }

  lemma ToggledOnce(d: Decoder)
    requires FramesOk(d) && InDict(d)
    ensures Toggled(d).stack != [] && Toggled(d).stack[|d.stack| - 1] == Top(d).(value := !Top(d).value)
    ensures |Toggled(d).stack| == |d.stack|
    ensures forall k :: 0 <= k < |d.stack| ==> Toggled(d).stack[k].token == d.stack[k].token
  {
  }

  lemma ToggledTwice(d: Decoder, key: bytes)
    requires FramesOk(d) && InDict(d) && FramesOk(AfterName(d, key))
    ensures Toggled(AfterName(d, key)).stack == d.stack
  {
  }

  lemma EncodeEnough(e: Entry)
    requires Typed(e)
    ensures Encode(e) != []
  {
  }

  lemma NameFits(b: bytes, depthLimit: nat, d: Decoder, m: Member)
    requires Ready(b, d) && d.pos + |StringText(m.key)| < End(b)
    ensures Room(b, depthLimit, d, Str(m.key)) <==> depthLimit - |d.stack| > 0 && |m.key| < STRING_LIMIT && d.limit >= 1
    ensures forall depth: int :: Suits(m.value, depth) ==> depth > 0
  {
    hide StringText;
  }

  // ---------------------------------------------------------------- whole buffers

  /**
   * The decoder accepts the encoding of an entry, whatever bytes follow, exactly when its limits allow the
   * entry and it is not a bare empty string that ends the buffer; and then it leaves exactly the entry's
   * tokens and a last end token, and stops at the end of the encoding.
   */
  lemma DecoderInverts(b: bytes, e: Entry, depthLimit: nat, tokenLimit: int)
    requires IsBuffer(b) && Typed(e) && Has(b, 0, Encode(e)) && |Encode(e)| <= End(b) <= MAX_OFFSET
    ensures var r := Decode(b, depthLimit, tokenLimit);
            && (r.error.None? <==>
                 Suits(e, depthLimit) && |Tokens(e, 0)| <= tokenLimit && !(e == Str([]) && End(b) == |Encode(e)|))
            && (r.error.None? ==>
                 r.tokens == Tokens(e, 0) + [Token(|Encode(e)|, EndToken, 0, 0)] && r.pos == |Encode(e)|)
  {
    hide Run, Tokens, Encode, Suits;
    EncodeEnough(e);
    var d := Start(tokenLimit);
    EntryRun(b, depthLimit, d, e);
    assert [] + Tokens(e, 0) == Tokens(e, 0);
  }

  /** The shortest counterexample: an empty string at the end of the buffer is an unexpected end of file. */
  lemma EmptyStringRefused(sentinel: byte)
    ensures Encode(Str([])) == "0:"
    ensures Decode("0:" + [sentinel], 100, 1_000_000).error == Some(UnexpectedEof)
  {
    var b := "0:" + [sentinel];
    assert b[0] == '0' && b[1] == ':';
    var d := Start(1_000_000);
    var p := ParseInt(b, 1, 2, ':', 0);
    assert p == ParsedInt(1, 0, None);
    assert OneToken(b, 100, d).Failed? && OneToken(b, 100, d).code == UnexpectedEof;
  }
}
