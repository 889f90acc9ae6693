/** Which buffers the flat decoder accepts, and the tokens it leaves for them. */
module BdecodeGrammar {
  import opened Bytes
  import opened Decimals
  import opened Bdecode
  import opened BdecodeRoundTrip

  /** How an accepted text is made up. Lengths and integers are digits as they stand. */
  datatype Source =
    | Number(minus: bool, digits: bytes)
    | Text(str: Str)
    | Items(items: seq<Source>)
    | Pairs(pairs: seq<Pair>)

  datatype Str = Str(length: bytes, body: bytes)

  datatype Pair = Pair(length: bytes, name: bytes, value: Source)

  function Key(p: Pair): Str {
    Str(p.length, p.name)
  }

  function StrText(s: Str): bytes {
    s.length + ":" + s.body
  }

  function NumberText(minus: bool, digits: bytes): bytes {
    (if minus then "-" else "") + digits
  }

  function Written(s: Source): bytes
    decreases s
  {
    match s
    case Number(minus, digits) => "i" + NumberText(minus, digits) + "e"
    case Text(str) => StrText(str)
    case Items(items) => "l" + WrittenItems(items) + "e"
    case Pairs(pairs) => "d" + WrittenPairs(pairs) + "e"
  }

  function WrittenItems(items: seq<Source>): bytes
    decreases items
  {
    if items == [] then [] else Written(items[0]) + WrittenItems(items[1..])
  }

  function WrittenPairs(pairs: seq<Pair>): bytes
    decreases pairs
  {
    if pairs == [] then []
    else StrText(Key(pairs[0])) + Written(pairs[0].value) + WrittenPairs(pairs[1..])
  }

  /** A length of at most eight digits, which may begin with zeros, and as many bytes. */
  predicate StrOk(s: Str) {
    AllDigits(s.length) && 1 <= |s.length| <= 8 && Decimal(0, s.length) == |s.body|
  }

  /** At most twenty digits, which may begin with zeros. */
  predicate NumberOk(digits: bytes) {
    AllDigits(digits) && 1 <= |digits| <= 20
  }

  /** The parts are in order, and containers nest less than `depth` deep. Names may come in any order, and twice. */
  predicate Fits(s: Source, depth: int)
    decreases s
  {
    match s
    case Number(minus, digits) => depth > 0 && NumberOk(digits)
    case Text(str) => depth > 0 && StrOk(str)
    case Items(items) => depth > 1 && forall k :: 0 <= k < |items| ==> Fits(items[k], depth - 1)
    case Pairs(pairs) =>
      depth > 1 && forall k :: 0 <= k < |pairs| ==> StrOk(Key(pairs[k])) && Fits(pairs[k].value, depth - 1)
  }

  // ---------------------------------------------------------------- the tokens

  /** The tokens for a text that starts at `off`. */
  function SourceTokens(s: Source, off: nat): seq<Token>
    decreases s
  {
    match s
    case Number(_, _) => [Token(off, IntegerToken, 1, 0)]
    case Text(str) => [StrToken(str, off)]
    case Items(items) => Enclosed(ListToken, off, ItemsTokens(items, off + 1), off + 1 + |WrittenItems(items)|)
    case Pairs(pairs) => Enclosed(DictToken, off, PairsTokens(pairs, off + 1), off + 1 + |WrittenPairs(pairs)|)
  }

  function StrToken(s: Str, off: nat): Token {
    Token(off, StringToken, 1, if s.length == [] then 0 else |s.length| - 1)
  }

  function ItemsTokens(items: seq<Source>, off: nat): seq<Token>
    decreases items
  {
    if items == [] then [] else SourceTokens(items[0], off) + ItemsTokens(items[1..], off + |Written(items[0])|)
  }

  function PairsTokens(pairs: seq<Pair>, off: nat): seq<Token>
    decreases pairs
  {
    if pairs == [] then []
    else
      var value := off + |StrText(Key(pairs[0]))|;
      [StrToken(Key(pairs[0]), off)] + SourceTokens(pairs[0].value, value)
      + PairsTokens(pairs[1..], value + |Written(pairs[0].value)|)
  }

  lemma {:induction false} SourceTokensFew(s: Source, off: nat)
    ensures |SourceTokens(s, off)| <= |Written(s)|
    decreases s
  {
    match s
    case Number(_, _) =>
    case Text(_) =>
    case Items(items) => ItemsTokensFew(items, off + 1);
    case Pairs(pairs) => PairsTokensFew(pairs, off + 1);
  }

  lemma {:induction false} ItemsTokensFew(items: seq<Source>, off: nat)
    ensures |ItemsTokens(items, off)| <= |WrittenItems(items)|
    decreases items
  {
    if items != [] {
      SourceTokensFew(items[0], off);
      ItemsTokensFew(items[1..], off + |Written(items[0])|);
    }
  }

  lemma {:induction false} PairsTokensFew(pairs: seq<Pair>, off: nat)
    ensures |PairsTokens(pairs, off)| <= |WrittenPairs(pairs)|
    decreases pairs
  {
    if pairs != [] {
      var value := off + |StrText(Key(pairs[0]))|;
      SourceTokensFew(pairs[0].value, value);
      PairsTokensFew(pairs[1..], value + |Written(pairs[0].value)|);
    }
  }

  // ---------------------------------------------------------------- strings and integers

  /** The digits that parse_int took. */
  lemma {:induction false} ParseIntSource(b: bytes, start: nat, end: nat, delimiter: byte, val: nat) returns (w: bytes)
    requires start <= end <= |b| && (end < |b| || delimiter in b[start..end]) && val <= MAX_INT64
    requires ParseInt(b, start, end, delimiter, val).error.None?
    ensures var r := ParseInt(b, start, end, delimiter, val);
            AllDigits(w) && Has(b, start, w) && r.pos == start + |w| && Decimal(val, w) == r.val
    decreases end - start
  {
    if start == end || b[start] == delimiter {
      w := [];
    } else {
      var rest := ParseIntSource(b, start + 1, end, delimiter, val * 10 + DigitValue(b[start]));
      w := [b[start]] + rest;
      assert w[1..] == rest;
      HasConcat(b, start, [b[start]], rest);
      assert b[start..start + 1] == [b[start]];
    }
  }

  /** A string that is accepted. */
  lemma StrSource(b: bytes, d: Decoder) returns (s: Str)
    requires Ready(b, d) && d.pos < End(b) && !ReadString(b, d).Failed?
    ensures StrOk(s) && Has(b, d.pos, StrText(s)) && d.pos + |StrText(s)| <= End(b)
    ensures s.body == [] ==> d.pos + |StrText(s)| < End(b)
    ensures |StrText(s)| >= 2
  {
    hide ParseInt, Scalar, Decimal;
    var p := ParseInt(b, d.pos + 1, End(b), ':', DigitValue(b[d.pos]));
    var rest := ParseIntSource(b, d.pos + 1, End(b), ':', DigitValue(b[d.pos]));
    var q := p.pos + 1 + p.val;
    s := Str(b[d.pos..p.pos], b[p.pos + 1..q]);
    LengthSplit(b[d.pos], rest);
    assert s.length == [b[d.pos]] + rest;
    assert b[d.pos..q] == StrText(s);
  }

  lemma LengthSplit(c: byte, rest: bytes)
    requires IsDigit(c) && AllDigits(rest)
    ensures AllDigits([c] + rest) && Decimal(0, [c] + rest) == Decimal(DigitValue(c), rest)
  {
    assert ([c] + rest)[1..] == rest;
  }

  /** A length, its first digit apart. */
  lemma LengthRead(b: bytes, pos: nat, length: bytes)
    requires IsBuffer(b) && AllDigits(length) && length != [] && Decimal(0, length) <= MAX_INT64
    requires Has(b, pos, length + ":") && pos + |length| < End(b)
    ensures IsDigit(b[pos])
    ensures ParseInt(b, pos + 1, End(b), ':', DigitValue(b[pos])) == ParsedInt(pos + |length|, Decimal(0, length), None)
  {
    hide ParseInt, Decimal, Has, AllDigits;
    HasConcat(b, pos, length, ":");
    HasAt(b, pos, length, 0);
    var rest := length[1..];
    assert length == [b[pos]] + rest;
    assert length + ":" == [b[pos]] + (rest + ":");
    HasConcat(b, pos, [b[pos]], rest + ":");
    RestDigits(length);
    LengthSplit(b[pos], rest);
    ParseIntBack(b, pos + 1, End(b), rest, ':', DigitValue(b[pos]));
  }

  lemma RestDigits(w: bytes)
    requires AllDigits(w) && w != []
    ensures AllDigits(w[1..]) && IsDigit(w[0])
  {
  }

  /** A string is read. */
  lemma StrRead(b: bytes, d: Decoder, s: Str)
    requires Ready(b, d) && StrOk(s) && Has(b, d.pos, StrText(s)) && d.pos + |StrText(s)| <= End(b)
    requires s.body == [] ==> d.pos + |StrText(s)| < End(b)
    ensures d.pos < End(b) && IsDigit(b[d.pos])
    ensures ReadString(b, d) == Scalar(d, StrToken(s, d.pos), d.pos + |StrText(s)|)
  {
    hide ParseInt, Scalar, Decimal, AllDigits, Has;
    HasConcat(b, d.pos, s.length + ":", s.body);
    LengthRead(b, d.pos, s.length);
  }

  /** The digits that check_integer took. */
  lemma {:induction false} CheckDigitsSource(b: bytes, pos: nat, digits: nat) returns (w: bytes)
    requires IsBuffer(b) && pos < End(b) && CheckDigits(b, pos, digits).error.None?
    ensures AllDigits(w) && w != [] && digits + |w| <= 20 && Has(b, pos, w)
    ensures CheckDigits(b, pos, digits).pos == pos + |w|
    decreases |b| - pos
  {
    if b[pos + 1] == 'e' {
      w := [b[pos]];
    } else {
      var rest := CheckDigitsSource(b, pos + 1, digits + 1);
      w := [b[pos]] + rest;
      assert b[pos..pos + 1] == [b[pos]];
      HasConcat(b, pos, [b[pos]], rest);
    }
  }

  lemma NumberSource(b: bytes, d: Decoder) returns (s: Source)
    requires Ready(b, d) && d.pos < End(b) && b[d.pos] == 'i' && !ReadInteger(b, d).Failed?
    ensures s.Number? && NumberOk(s.digits) && Has(b, d.pos, Written(s)) && d.pos + |Written(s)| <= End(b)
  {
    hide CheckDigits, Scalar;
    var minus := b[d.pos + 1] == '-';
    var p := if minus then d.pos + 2 else d.pos + 1;
    var w := CheckDigitsSource(b, p, 0);
    s := Number(minus, w);
    assert b[d.pos..p + |w| + 1] == Written(s);
  }

  lemma NumberRead(b: bytes, d: Decoder, minus: bool, digits: bytes)
    requires Ready(b, d) && NumberOk(digits) && Has(b, d.pos, Written(Number(minus, digits)))
    requires d.pos + |Written(Number(minus, digits))| <= End(b)
    ensures d.pos < End(b) && b[d.pos] == 'i'
    ensures ReadInteger(b, d)
         == Scalar(d, Token(d.pos, IntegerToken, 1, 0), d.pos + |Written(Number(minus, digits))|)
  {
    hide CheckDigits, Scalar;
    var sign: bytes := if minus then "-" else "";
    var p := d.pos + 1 + |sign|;
    assert Written(Number(minus, digits)) == ("i" + sign) + (digits + "e");
    HasConcat(b, d.pos, "i" + sign, digits + "e");
    HasAt(b, d.pos, "i" + sign, 0);
    if minus {
      HasAt(b, d.pos, "i" + sign, 1);
    }
    HasConcat(b, p, digits, "e");
    HasAt(b, p, digits, 0);
    CheckDigitsBack(b, p, digits, 0);
  }

  // ---------------------------------------------------------------- what is made up like this is accepted

  /** There is room for the text: the limits allow it, and it is not an empty string at the very end of the buffer. */
  predicate SourceRoom(b: bytes, depthLimit: nat, d: Decoder, s: Source)
    requires IsBuffer(b)
  {
    && Fits(s, depthLimit - |d.stack|) && |SourceTokens(s, d.pos)| <= d.limit
    && d.pos + |Written(s)| <= End(b)
    && (s.Text? && s.str.body == [] ==> d.pos + |Written(s)| < End(b))
  }

  /** The decoder after the text. */
  function AfterSource(d: Decoder, s: Source): Decoder
    requires FramesOk(d)
  {
    var t := SourceTokens(s, d.pos);
    Decoder(d.pos + |Written(s)|, d.tokens + t, Toggled(d).stack, d.limit - |t|)
  }

  lemma AfterSourceReady(b: bytes, d: Decoder, s: Source)
    requires Ready(b, d) && d.pos + |Written(s)| <= End(b)
    ensures Ready(b, AfterSource(d, s))
  {
    hide SourceTokens, Written;
    SourceTokensFew(s, d.pos);
    ToggledFrames(d);
  }

  lemma {:induction false} SourceRun(b: bytes, depthLimit: nat, d: Decoder, s: Source)
    requires Ready(b, d) && SourceRoom(b, depthLimit, d, s) && Has(b, d.pos, Written(s))
    requires InDict(d) ==> Top(d).value
    ensures Ready(b, AfterSource(d, s))
    ensures Run(b, depthLimit, d) == GoOn(b, depthLimit, AfterSource(d, s))
    decreases s, 2
  {
    hide Run, GoOn, Toggled, AfterSource, Written, SourceTokens, Fits;
    AfterSourceReady(b, d, s);
    match s
    case Number(minus, digits) => NumberRun(b, depthLimit, d, minus, digits);
    case Text(str) =>
      WrittenText(str);
      StrRun(b, depthLimit, d, str);
    case Items(items) => ListRun(b, depthLimit, d, items);
    case Pairs(pairs) => DictRun(b, depthLimit, d, pairs);
  }

  lemma WrittenText(str: Str)
    ensures Written(Text(str)) == StrText(str)
  {
  }

  lemma NumberRun(b: bytes, depthLimit: nat, d: Decoder, minus: bool, digits: bytes)
    requires Ready(b, d) && SourceRoom(b, depthLimit, d, Number(minus, digits))
    requires Has(b, d.pos, Written(Number(minus, digits))) && (InDict(d) ==> Top(d).value)
    ensures FramesOk(AfterSource(d, Number(minus, digits)))
    ensures AfterSource(d, Number(minus, digits)).pos <= End(b)
    ensures Run(b, depthLimit, d) == GoOn(b, depthLimit, AfterSource(d, Number(minus, digits)))
  {
    hide Toggled, ReadInteger, Unwind, GoOn, Scalar, NumberText;
    ToggledFrames(d);
    var e := d.(limit := d.limit - 1);
    NumberRead(b, e, minus, digits);
    assert OneToken(b, depthLimit, d) == ReadInteger(b, e);
    ScalarRun(b, depthLimit, d, Token(d.pos, IntegerToken, 1, 0), d.pos + |Written(Number(minus, digits))|);
  }

  /** A string, as a root, an item, a value or a name. */
  lemma StrRun(b: bytes, depthLimit: nat, d: Decoder, s: Str)
    requires Ready(b, d) && SourceRoom(b, depthLimit, d, Text(s)) && Has(b, d.pos, StrText(s))
    ensures FramesOk(AfterSource(d, Text(s))) && AfterSource(d, Text(s)).pos <= End(b)
    ensures Run(b, depthLimit, d) == GoOn(b, depthLimit, AfterSource(d, Text(s)))
  {
    hide Toggled, ReadString, Unwind, GoOn, Scalar, StrText;
    ToggledFrames(d);
    var e := d.(limit := d.limit - 1);
    StrRead(b, e, s);
    assert OneToken(b, depthLimit, d) == ReadString(b, e);
    ScalarRun(b, depthLimit, d, StrToken(s, d.pos), d.pos + |StrText(s)|);
  }

  /** What room for a list is, and where the decoder stands after it. */
  lemma ListRoom(b: bytes, depthLimit: nat, d: Decoder, items: seq<Source>)
    requires Ready(b, d)
    ensures var s, inside := Items(items), ItemsTokens(items, d.pos + 1);
            && (SourceRoom(b, depthLimit, d, s) <==>
                 && |d.stack| + 1 < depthLimit && |inside| + 2 <= d.limit && d.pos + |WrittenItems(items)| + 2 <= End(b)
                 && AllFit(items, depthLimit - (|d.stack| + 1)))
            && var end := d.pos + 1 + |WrittenItems(items)|;
               AfterSource(d, s)
               == Decoder(end + 1, d.tokens + Enclosed(ListToken, d.pos, inside, end), Toggled(d).stack,
                          d.limit - |inside| - 2)
  {
    hide Toggled, WrittenItems, ItemsTokens;
  }

  predicate AllFit(items: seq<Source>, depth: int) {
    forall k :: 0 <= k < |items| ==> Fits(items[k], depth)
  }

  lemma {:induction false} ListRun(b: bytes, depthLimit: nat, d: Decoder, items: seq<Source>)
    requires Ready(b, d) && SourceRoom(b, depthLimit, d, Items(items)) && Has(b, d.pos, Written(Items(items)))
    requires InDict(d) ==> Top(d).value
    ensures FramesOk(AfterSource(d, Items(items))) && AfterSource(d, Items(items)).pos <= End(b)
    ensures Run(b, depthLimit, d) == GoOn(b, depthLimit, AfterSource(d, Items(items)))
    decreases items, 1
  {
    hide Run, GoOn, Toggled, Open, WrittenItems, ItemsTokens, Enclosed, SourceRoom, AfterSource, Fits, AllFit;
    var text, inside := WrittenItems(items), ItemsTokens(items, d.pos + 1);
    ListRoom(b, depthLimit, d, items);
    LettersAround(b, d.pos, "l", text);
    OpenRun(b, depthLimit, d, ListToken);
    OpenFields(d, ListToken);
    ItemsRun(b, depthLimit, Open(d.(limit := d.limit - 1), ListToken), items);
    ItemsTokensFew(items, d.pos + 1);
    ContainerRun(b, depthLimit, d, ListToken, inside, |text|);
  }

  lemma {:induction false} ItemsRun(b: bytes, depthLimit: nat, d: Decoder, items: seq<Source>)
    requires Ready(b, d) && d.stack != [] && !InDict(d) && AllFit(items, depthLimit - |d.stack|)
    requires Has(b, d.pos, WrittenItems(items)) && d.pos + |WrittenItems(items)| < End(b)
    requires |ItemsTokens(items, d.pos)| <= d.limit
    ensures var n := Inside(d, ItemsTokens(items, d.pos), |WrittenItems(items)|);
            Ready(b, n) && Run(b, depthLimit, d) == Run(b, depthLimit, n)
    decreases items, 0
  {
    hide Run, SourceTokens, Written, Fits;
    if items == [] {
      assert d == Inside(d, [], 0) by { assert d.tokens + [] == d.tokens; }
    } else {
      var first, rest := Written(items[0]), WrittenItems(items[1..]);
      HasConcat(b, d.pos, first, rest);
      SourceRun(b, depthLimit, d, items[0]);
      var m := AfterSource(d, items[0]);
      assert m.stack == d.stack;
      assert forall k :: 0 < k < |items| ==> items[k] == items[1..][k - 1];
      ItemsRun(b, depthLimit, m, items[1..]);
      var t, u := SourceTokens(items[0], d.pos), ItemsTokens(items[1..], m.pos);
      assert d.tokens + t + u == d.tokens + (t + u);
    }
  }

  lemma DictRoom(b: bytes, depthLimit: nat, d: Decoder, pairs: seq<Pair>)
    requires Ready(b, d)
    ensures var s, inside := Pairs(pairs), PairsTokens(pairs, d.pos + 1);
            && (SourceRoom(b, depthLimit, d, s) <==>
                 && |d.stack| + 1 < depthLimit && |inside| + 2 <= d.limit && d.pos + |WrittenPairs(pairs)| + 2 <= End(b)
                 && PairsFit(pairs, depthLimit - (|d.stack| + 1)))
            && var end := d.pos + 1 + |WrittenPairs(pairs)|;
               AfterSource(d, s)
               == Decoder(end + 1, d.tokens + Enclosed(DictToken, d.pos, inside, end), Toggled(d).stack,
                          d.limit - |inside| - 2)
  {
    hide Toggled, WrittenPairs, PairsTokens, StrOk;
  }

  predicate PairsFit(pairs: seq<Pair>, depth: int) {
    forall k :: 0 <= k < |pairs| ==> StrOk(Key(pairs[k])) && Fits(pairs[k].value, depth)
  }

  lemma {:induction false} DictRun(b: bytes, depthLimit: nat, d: Decoder, pairs: seq<Pair>)
    requires Ready(b, d) && SourceRoom(b, depthLimit, d, Pairs(pairs)) && Has(b, d.pos, Written(Pairs(pairs)))
    requires InDict(d) ==> Top(d).value
    ensures FramesOk(AfterSource(d, Pairs(pairs))) && AfterSource(d, Pairs(pairs)).pos <= End(b)
    ensures Run(b, depthLimit, d) == GoOn(b, depthLimit, AfterSource(d, Pairs(pairs)))
    decreases pairs, 1
  {
    hide Run, GoOn, Toggled, Open, WrittenPairs, PairsTokens, Enclosed, SourceRoom, AfterSource, Fits, PairsFit;
    var text, inside := WrittenPairs(pairs), PairsTokens(pairs, d.pos + 1);
    DictRoom(b, depthLimit, d, pairs);
    LettersAround(b, d.pos, "d", text);
    OpenRun(b, depthLimit, d, DictToken);
    OpenFields(d, DictToken);
    PairsRun(b, depthLimit, Open(d.(limit := d.limit - 1), DictToken), pairs);
    PairsTokensFew(pairs, d.pos + 1);
    ContainerRun(b, depthLimit, d, DictToken, inside, |text|);
  }

  /** The tokens of a pair and its text. */
  function PairTokens(p: Pair, off: nat): seq<Token> {
    [StrToken(Key(p), off)] + SourceTokens(p.value, off + |StrText(Key(p))|)
  }

  function PairText(p: Pair): bytes {
    StrText(Key(p)) + Written(p.value)
  }

  /** The decoder after a name. */
  function AfterKey(d: Decoder, key: Str): Decoder
    requires FramesOk(d)
  {
    Decoder(d.pos + |StrText(key)|, d.tokens + [StrToken(key, d.pos)], Toggled(d).stack, d.limit - 1)
  }

  lemma KeyToggles(d: Decoder, key: Str)
    requires FramesOk(d) && InDict(d) && !Top(d).value
    ensures var n := AfterKey(d, key);
            && FramesOk(n) && |n.stack| == |d.stack| && n.stack != [] && InDict(n) && Top(n).value
            && Toggled(n).stack == d.stack && AfterKey(d, key) == AfterSource(d, Text(key))
  {
  }

  lemma KeyRun(b: bytes, depthLimit: nat, d: Decoder, key: Str)
    requires Ready(b, d) && InDict(d) && !Top(d).value && StrOk(key) && Has(b, d.pos, StrText(key))
    requires d.pos + |StrText(key)| < End(b) && Admitted(depthLimit, d)
    ensures Ready(b, AfterKey(d, key)) && Run(b, depthLimit, d) == Run(b, depthLimit, AfterKey(d, key))
  {
    hide Run, Toggled, StrText, StrOk;
    KeyToggles(d, key);
    AfterSourceReady(b, d, Text(key));
    StrRun(b, depthLimit, d, key);
  }

  /** A name and a value. */
  lemma {:induction false} PairRun(b: bytes, depthLimit: nat, d: Decoder, p: Pair)
    requires Ready(b, d) && InDict(d) && !Top(d).value && StrOk(Key(p)) && Fits(p.value, depthLimit - |d.stack|)
    requires Has(b, d.pos, PairText(p)) && d.pos + |PairText(p)| < End(b) && |PairTokens(p, d.pos)| <= d.limit
    ensures var n := Inside(d, PairTokens(p, d.pos), |PairText(p)|);
            Ready(b, n) && Run(b, depthLimit, d) == Run(b, depthLimit, n)
    decreases p, 3
  {
    hide Run, Toggled, StrText, StrOk, SourceTokens, Written, Fits;
    HasConcat(b, d.pos, StrText(Key(p)), Written(p.value));
    FitsDepth(p.value, depthLimit - |d.stack|);
    KeyRun(b, depthLimit, d, Key(p));
    KeyToggles(d, Key(p));
    var n := AfterKey(d, Key(p));
    SourceRun(b, depthLimit, n, p.value);
    var t, u := [StrToken(Key(p), d.pos)], SourceTokens(p.value, n.pos);
    assert d.tokens + t + u == d.tokens + (t + u);
    assert AfterSource(n, p.value) == Inside(d, PairTokens(p, d.pos), |PairText(p)|);
  }

  lemma FitsDepth(s: Source, depth: int)
    requires Fits(s, depth)
    ensures depth > 0
    ensures Written(s) != []
  {
  }

  lemma {:induction false} PairsRun(b: bytes, depthLimit: nat, d: Decoder, pairs: seq<Pair>)
    requires Ready(b, d) && InDict(d) && !Top(d).value && PairsFit(pairs, depthLimit - |d.stack|)
    requires Has(b, d.pos, WrittenPairs(pairs)) && d.pos + |WrittenPairs(pairs)| < End(b)
    requires |PairsTokens(pairs, d.pos)| <= d.limit
    ensures var n := Inside(d, PairsTokens(pairs, d.pos), |WrittenPairs(pairs)|);
            Ready(b, n) && Run(b, depthLimit, d) == Run(b, depthLimit, n)
    decreases pairs, 0
  {
    hide Run, PairTokens, PairText, Fits, StrOk, SourceTokens, Written, StrText;
    if pairs == [] {
      assert d == Inside(d, [], 0) by { assert d.tokens + [] == d.tokens; }
    } else {
      PairsSplit(pairs, d.pos);
      var p, rest := pairs[0], pairs[1..];
      HasConcat(b, d.pos, PairText(p), WrittenPairs(rest));
      PairRun(b, depthLimit, d, p);
      var m := Inside(d, PairTokens(p, d.pos), |PairText(p)|);
      assert forall k :: 0 < k < |pairs| ==> pairs[k] == rest[k - 1];
      PairsRun(b, depthLimit, m, rest);
      InsideTwice(d, PairTokens(p, d.pos), PairsTokens(rest, m.pos), |PairText(p)|, |WrittenPairs(rest)|);
    }
  }

  lemma PairsSplit(pairs: seq<Pair>, off: nat)
    requires pairs != []
    ensures WrittenPairs(pairs) == PairText(pairs[0]) + WrittenPairs(pairs[1..])
    ensures PairsTokens(pairs, off) == PairTokens(pairs[0], off) + PairsTokens(pairs[1..], off + |PairText(pairs[0])|)
  {
    hide StrText, Written, SourceTokens, StrToken;
  }

  // ---------------------------------------------------------------- what is accepted is made up like this

  /** Nothing is accepted beyond the limits, or at the end of the buffer. */
  lemma Accepted(b: bytes, depthLimit: nat, d: Decoder)
    requires Ready(b, d) && Run(b, depthLimit, d).error.None?
    ensures Admitted(depthLimit, d) && d.pos < End(b)
    ensures !OneToken(b, depthLimit, d).Failed?
  {
    hide Unwind, OneToken;
    OneTokenLimits(b, depthLimit, d);
  }

  lemma OneTokenLimits(b: bytes, depthLimit: nat, d: Decoder)
    requires Ready(b, d)
    ensures !OneToken(b, depthLimit, d).Failed? ==> Admitted(depthLimit, d) && d.pos < End(b)
  {
    hide ReadString, ReadInteger, Close;
  }

  /** What the byte at the decoder's place leads to. */
  lemma OneTokenBy(b: bytes, depthLimit: nat, d: Decoder)
    requires Ready(b, d) && Admitted(depthLimit, d) && d.pos < End(b)
    ensures var e, t := d.(limit := d.limit - 1), b[d.pos];
            && (InDict(d) && !Top(d).value && !IsDigit(t) && t != 'e' ==> OneToken(b, depthLimit, d).Failed?)
            && (InDict(d) && Top(d).value && t == 'e' ==> OneToken(b, depthLimit, d).Failed?)
            && (t == 'i' && (InDict(d) ==> Top(d).value) ==> OneToken(b, depthLimit, d) == ReadInteger(b, e))
            && (IsDigit(t) ==> OneToken(b, depthLimit, d) == ReadString(b, e))
            && (t !in "dlie" && !IsDigit(t) ==> OneToken(b, depthLimit, d).Failed?)
  {
    hide ParseInt, CheckInteger;
  }

  /** A value that was accepted. */
  lemma {:induction false} ValueSource(b: bytes, depthLimit: nat, d: Decoder) returns (s: Source)
    requires Ready(b, d) && Run(b, depthLimit, d).error.None? && (InDict(d) ==> Top(d).value)
    requires d.pos < End(b) && b[d.pos] != 'e'
    ensures SourceRoom(b, depthLimit, d, s) && Has(b, d.pos, Written(s))
    decreases |b| - d.pos, 1
  {
    hide *;
    Accepted(b, depthLimit, d);
    OneTokenBy(b, depthLimit, d);
    InBuffer(b, d);
    var e, t := d.(limit := d.limit - 1), b[d.pos];
    if t == 'd' || t == 'l' {
      s := ContainerSource(b, depthLimit, d);
    } else if t == 'i' {
      ReadyOne(b, d);
      s := NumberSource(b, e);
      NotText(s);
      ScalarRoom(b, depthLimit, d, s);
    } else {
      ReadyOne(b, d);
      AmongLetters(t);
      var str := StrSource(b, e);
      s := Text(str);
      WrittenText(str);
      ScalarRoom(b, depthLimit, d, s);
    }
  }

  lemma InBuffer(b: bytes, d: Decoder)
    requires Ready(b, d)
    ensures IsBuffer(b) && End(b) < |b| && d.pos <= End(b) && FramesOk(d) && FramesOk(d.(limit := d.limit - 1))
  {
  }

  lemma NotText(s: Source)
    requires s.Number?
    ensures !s.Text?
  {
  }

  lemma AmongLetters(t: byte)
    ensures t in "dlie" <==> t == 'd' || t == 'l' || t == 'i' || t == 'e'
  {
  }

  lemma ReadyOne(b: bytes, d: Decoder)
    requires Ready(b, d)
    ensures Ready(b, d.(limit := d.limit - 1))
  {
  }

  lemma ScalarRoom(b: bytes, depthLimit: nat, d: Decoder, s: Source)
    requires IsBuffer(b) && Admitted(depthLimit, d) && d.pos + |Written(s)| <= End(b)
    requires (s.Number? && NumberOk(s.digits)) || (s.Text? && StrOk(s.str))
    requires s.Text? && s.str.body == [] ==> d.pos + |StrText(s.str)| < End(b)
    ensures SourceRoom(b, depthLimit, d, s)
    ensures s.Text? ==> Written(s) == StrText(s.str)
  {
    hide StrOk, NumberOk, StrText, NumberText;
  }

  lemma {:induction false} ContainerSource(b: bytes, depthLimit: nat, d: Decoder) returns (s: Source)
    requires Ready(b, d) && Run(b, depthLimit, d).error.None? && (InDict(d) ==> Top(d).value)
    requires d.pos < End(b) && (b[d.pos] == 'd' || b[d.pos] == 'l')
    ensures SourceRoom(b, depthLimit, d, s) && Has(b, d.pos, Written(s))
    decreases |b| - d.pos, 0
  {
    hide *;
    Accepted(b, depthLimit, d);
    InBuffer(b, d);
    var kind := if b[d.pos] == 'd' then DictToken else ListToken;
    OpenRun(b, depthLimit, d, kind);
    OpenFields(d, kind);
    var n := Open(d.(limit := d.limit - 1), kind);
    if b[d.pos] == 'l' {
      NotEmptyStack(n, |d.stack| + 1);
      var items := ItemsSource(b, depthLimit, n);
      s := Items(items);
      ListRoom(b, depthLimit, d, items);
      WrittenContainer(items, []);
      LettersJoin(b, d.pos, "l", WrittenItems(items));
    } else {
      var pairs := PairsSource(b, depthLimit, n);
      s := Pairs(pairs);
      DictRoom(b, depthLimit, d, pairs);
      WrittenContainer([], pairs);
      LettersJoin(b, d.pos, "d", WrittenPairs(pairs));
    }
  }

  lemma NotEmptyStack(d: Decoder, n: nat)
    requires |d.stack| == n > 0
    ensures d.stack != []
  {
  }

  lemma WrittenContainer(items: seq<Source>, pairs: seq<Pair>)
    ensures Written(Items(items)) == "l" + WrittenItems(items) + "e"
    ensures Written(Pairs(pairs)) == "d" + WrittenPairs(pairs) + "e"
  {
  }

  lemma LettersJoin(b: bytes, pos: nat, letter: bytes, text: bytes)
    requires pos < |b| && |letter| == 1 && b[pos] == letter[0] && Has(b, pos + 1, text + "e")
    ensures Has(b, pos, letter + text + "e")
  {
    assert b[pos..pos + 1] == letter;
    HasConcat(b, pos, letter, text + "e");
    assert letter + (text + "e") == letter + text + "e";
  }

  lemma NoMore(b: bytes, depthLimit: nat, d: Decoder)
    requires Ready(b, d) && Admitted(depthLimit, d) && d.pos < End(b) && b[d.pos] == 'e'
    ensures Has(b, d.pos, WrittenItems([]) + "e") && Has(b, d.pos, WrittenPairs([]) + "e")
    ensures AllFit([], depthLimit - |d.stack|) && PairsFit([], depthLimit - |d.stack|)
    ensures |ItemsTokens([], d.pos)| + 1 <= d.limit && |PairsTokens([], d.pos)| + 1 <= d.limit
    ensures WrittenItems([]) == [] && WrittenPairs([]) == []
    ensures |d.stack| < depthLimit
  {
    assert WrittenItems([]) + "e" == "e" == WrittenPairs([]) + "e";
    assert b[d.pos..d.pos + 1] == "e";
  }

  /** The items of a list that was accepted, up to its closing letter. */
  lemma {:induction false} ItemsSource(b: bytes, depthLimit: nat, d: Decoder) returns (items: seq<Source>)
    requires Ready(b, d) && d.stack != [] && !InDict(d) && Run(b, depthLimit, d).error.None?
    ensures AllFit(items, depthLimit - |d.stack|) && |ItemsTokens(items, d.pos)| + 1 <= d.limit
    ensures Has(b, d.pos, WrittenItems(items) + "e") && d.pos + |WrittenItems(items)| + 1 <= End(b)
    ensures |d.stack| < depthLimit
    decreases |b| - d.pos, 2
  {
    hide *;
    Accepted(b, depthLimit, d);
    InBuffer(b, d);
    if b[d.pos] == 'e' {
      items := [];
      NoMore(b, depthLimit, d);
    } else {
      var s := ValueSource(b, depthLimit, d);
      SourceRun(b, depthLimit, d, s);
      var n := AfterSource(d, s);
      InBuffer(b, n);
      AfterItem(b, depthLimit, d, s);
      var rest := ItemsSource(b, depthLimit, n);
      items := [s] + rest;
      ItemsJoin(s, rest, d.pos, depthLimit - |d.stack|);
      HasConcat(b, d.pos, Written(s), WrittenItems(rest) + "e");
    }
  }

  lemma AfterItem(b: bytes, depthLimit: nat, d: Decoder, s: Source)
    requires Ready(b, d) && d.stack != [] && !InDict(d) && SourceRoom(b, depthLimit, d, s)
    requires FramesOk(AfterSource(d, s)) && AfterSource(d, s).pos <= End(b)
    ensures var n := AfterSource(d, s);
            && n.stack == d.stack && n.stack != [] && !InDict(n) && n.pos == d.pos + |Written(s)| > d.pos
            && n.limit == d.limit - |SourceTokens(s, d.pos)|
            && GoOn(b, depthLimit, n) == Run(b, depthLimit, n)
            && Fits(s, depthLimit - |d.stack|)
  {
    hide Run, SourceTokens, Written, Fits;
    FitsDepth(s, depthLimit - |d.stack|);
  }

  lemma ItemsJoin(s: Source, rest: seq<Source>, off: nat, depth: int)
    ensures var items := [s] + rest;
            && WrittenItems(items) == Written(s) + WrittenItems(rest)
            && WrittenItems(items) + "e" == Written(s) + (WrittenItems(rest) + "e")
            && ItemsTokens(items, off) == SourceTokens(s, off) + ItemsTokens(rest, off + |Written(s)|)
            && (AllFit(items, depth) <==> Fits(s, depth) && AllFit(rest, depth))
  {
    hide Written, SourceTokens, Fits;
    var items := [s] + rest;
    assert items[1..] == rest;
    if AllFit(items, depth) {
      assert Fits(items[0], depth);
      forall k | 0 <= k < |rest| ensures Fits(rest[k], depth) {
        assert Fits(items[k + 1], depth);
      }
    }
  }

  /** The members of a dictionary that was accepted, up to its closing letter. */
  lemma {:induction false} PairsSource(b: bytes, depthLimit: nat, d: Decoder) returns (pairs: seq<Pair>)
    requires Ready(b, d) && InDict(d) && !Top(d).value && Run(b, depthLimit, d).error.None?
    ensures PairsFit(pairs, depthLimit - |d.stack|) && |PairsTokens(pairs, d.pos)| + 1 <= d.limit
    ensures Has(b, d.pos, WrittenPairs(pairs) + "e") && d.pos + |WrittenPairs(pairs)| + 1 <= End(b)
    ensures |d.stack| < depthLimit
    decreases |b| - d.pos, 2
  {
    hide *;
    Accepted(b, depthLimit, d);
    InBuffer(b, d);
    if b[d.pos] == 'e' {
      pairs := [];
      NoMore(b, depthLimit, d);
    } else {
      OneTokenBy(b, depthLimit, d);
      ReadyOne(b, d);
      var key := StrSource(b, d.(limit := d.limit - 1));
      KeyInside(b, depthLimit, d, key);
      KeyRun(b, depthLimit, d, key);
      KeyToggles(d, key);
      var m := AfterKey(d, key);
      InBuffer(b, m);
      KeyFields(d, key);
      Accepted(b, depthLimit, m);
      OneTokenBy(b, depthLimit, m);
      var s := ValueSource(b, depthLimit, m);
      SourceRun(b, depthLimit, m, s);
      var n := AfterSource(m, s);
      InBuffer(b, n);
      AfterPair(b, depthLimit, d, key, s);
      var rest := PairsSource(b, depthLimit, n);
      var p := Pair(key.length, key.body, s);
      pairs := [p] + rest;
      PairsJoin(p, rest, d.pos, depthLimit - |d.stack|);
      HasConcat(b, d.pos, StrText(key), Written(s));
      HasConcat(b, d.pos, PairText(p), WrittenPairs(rest) + "e");
    }
  }

  lemma KeyFields(d: Decoder, key: Str)
    requires FramesOk(d)
    ensures AfterKey(d, key).pos == d.pos + |StrText(key)| && AfterKey(d, key).limit == d.limit - 1
  {
  }

  /** A string in a dictionary does not end the buffer: then its value would be missing. */
  lemma KeyInside(b: bytes, depthLimit: nat, d: Decoder, key: Str)
    requires Ready(b, d) && InDict(d) && !Top(d).value && Run(b, depthLimit, d).error.None?
    requires StrOk(key) && Has(b, d.pos, StrText(key)) && d.pos + |StrText(key)| <= End(b)
    requires key.body == [] ==> d.pos + |StrText(key)| < End(b)
    ensures d.pos + |StrText(key)| < End(b)
  {
    hide *;
    Accepted(b, depthLimit, d);
    InBuffer(b, d);
    TextRoom(b, depthLimit, d, key);
    StrRun(b, depthLimit, d, key);
    KeyToggles(d, key);
    KeyFields(d, key);
    WrittenText(key);
    AfterSourceReady(b, d, Text(key));
    var n := AfterKey(d, key);
    InBuffer(b, n);
    GoesOn(b, depthLimit, n);
    Accepted(b, depthLimit, n);
  }

  lemma GoesOn(b: bytes, depthLimit: nat, d: Decoder)
    requires IsBuffer(b) && d.pos <= End(b) && FramesOk(d) && d.stack != []
    ensures GoOn(b, depthLimit, d) == Run(b, depthLimit, d)
  {
    hide Run;
  }

  lemma TextRoom(b: bytes, depthLimit: nat, d: Decoder, key: Str)
    requires Ready(b, d) && Admitted(depthLimit, d) && StrOk(key) && d.pos + |StrText(key)| <= End(b)
    requires key.body == [] ==> d.pos + |StrText(key)| < End(b)
    ensures SourceRoom(b, depthLimit, d, Text(key))
  {
    hide StrOk, StrText;
  }

  lemma AfterPair(b: bytes, depthLimit: nat, d: Decoder, key: Str, s: Source)
    requires Ready(b, d) && InDict(d) && !Top(d).value && FramesOk(AfterKey(d, key))
    requires SourceRoom(b, depthLimit, AfterKey(d, key), s)
    requires FramesOk(AfterSource(AfterKey(d, key), s)) && AfterSource(AfterKey(d, key), s).pos <= End(b)
    ensures var m, n := AfterKey(d, key), AfterSource(AfterKey(d, key), s);
            && n.stack == d.stack && InDict(n) && !Top(n).value
            && n.pos == d.pos + |StrText(key)| + |Written(s)| > d.pos
            && n.limit == d.limit - 1 - |SourceTokens(s, m.pos)|
            && GoOn(b, depthLimit, n) == Run(b, depthLimit, n)
            && Fits(s, depthLimit - |d.stack|)
  {
    hide Run, SourceTokens, Written, Fits, StrText;
    KeyToggles(d, key);
    FitsDepth(s, depthLimit - |d.stack|);
  }

  lemma PairsJoin(p: Pair, rest: seq<Pair>, off: nat, depth: int)
    ensures var pairs := [p] + rest;
            && PairText(p) == StrText(Str(p.length, p.name)) + Written(p.value)
            && WrittenPairs(pairs) == PairText(p) + WrittenPairs(rest)
            && WrittenPairs(pairs) + "e" == PairText(p) + (WrittenPairs(rest) + "e")
            && |PairsTokens(pairs, off)|
               == 1 + |SourceTokens(p.value, off + |StrText(Str(p.length, p.name))|)|
                  + |PairsTokens(rest, off + |PairText(p)|)|
            && (PairsFit(pairs, depth) <==>
                  StrOk(Str(p.length, p.name)) && Fits(p.value, depth) && PairsFit(rest, depth))
  {
    hide Written, SourceTokens, Fits, StrText, StrOk;
    var pairs := [p] + rest;
    assert pairs[1..] == rest;
    PairsSplit(pairs, off);
    if PairsFit(pairs, depth) {
      assert StrOk(Key(pairs[0])) && Fits(pairs[0].value, depth);
      forall k | 0 <= k < |rest| ensures StrOk(Key(rest[k])) && Fits(rest[k].value, depth) {
        assert pairs[k + 1] == rest[k];
      }
    }
  }

  // ---------------------------------------------------------------- whole buffers

  /** A text stands at the start of the buffer that the limits allow. */
  ghost predicate Begins(b: bytes, s: Source, depthLimit: nat, tokenLimit: int)
    requires IsBuffer(b)
  {
    Has(b, 0, Written(s)) && SourceRoom(b, depthLimit, Start(tokenLimit), s)
  }

  /**
   * Exactly the buffers that begin with such a text are accepted, whatever bytes follow; and then the decoder leaves
   * the tokens of the text and a last end token, and stops at its end.
   */
  lemma DecoderExact(b: bytes, depthLimit: nat, tokenLimit: int)
    requires IsBuffer(b) && 0 < End(b) <= MAX_OFFSET
    ensures Decode(b, depthLimit, tokenLimit).error.None? <==> exists s :: Begins(b, s, depthLimit, tokenLimit)
    ensures forall s :: Begins(b, s, depthLimit, tokenLimit) ==>
                          var r := Decode(b, depthLimit, tokenLimit);
                          && r.tokens == SourceTokens(s, 0) + [Token(|Written(s)|, EndToken, 0, 0)]
                          && r.pos == |Written(s)|
  {
    hide Run, SourceTokens, Written, Fits;
    var d := Start(tokenLimit);
    if Decode(b, depthLimit, tokenLimit).error.None? {
      Accepted(b, depthLimit, d);
      NoEndFirst(b, depthLimit, d);
      var s := ValueSource(b, depthLimit, d);
      assert Begins(b, s, depthLimit, tokenLimit);
    }
    forall s | Begins(b, s, depthLimit, tokenLimit)
      ensures var r := Decode(b, depthLimit, tokenLimit);
              && r.error.None?
              && r.tokens == SourceTokens(s, 0) + [Token(|Written(s)|, EndToken, 0, 0)]
              && r.pos == |Written(s)|
    {
      SourceRun(b, depthLimit, d, s);
      assert [] + SourceTokens(s, 0) == SourceTokens(s, 0);
    }
  }

  lemma NoEndFirst(b: bytes, depthLimit: nat, d: Decoder)
    requires Ready(b, d) && d.stack == [] && d.pos < End(b) && !OneToken(b, depthLimit, d).Failed?
    ensures b[d.pos] != 'e'
  {
  }
}
