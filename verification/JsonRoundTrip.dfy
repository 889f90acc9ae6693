/** What either writer writes, either parser reads back. */
module JsonRoundTrip {
  import opened Bytes
  import opened Decimals
  import opened JsonTypes
  import opened JsonScan
  import opened Utf8
  import opened JsonNumber
  import opened JsonRecursive
  import opened JsonIterative
  import opened JsonEquivalence
  import opened JsonValue
  import opened JsonDocument
  import JsonSound
  import opened JsonWriter

  lemma HasByte(t: bytes, pos: nat, w: bytes, k: nat)
    requires Has(t, pos, w) && k < |w|
    ensures Peek(t, pos + k) == w[k]
  {
    HasAt(t, pos, w, k);
  }

  // ---------------------------------------------------------------- white space

  predicate AllBlank(w: bytes) {
    forall k :: 0 <= k < |w| ==> IsBlank(w[k])
  }

  lemma {:induction false} SkipBlank(t: bytes, pos: nat, w: bytes)
    requires Has(t, pos, w) && AllBlank(w) && !IsBlank(Peek(t, pos + |w|))
    ensures Blank(t, pos) == pos + |w|
    decreases |w|
  {
    if w != [] {
      HasByte(t, pos, w, 0);
      HasConcat(t, pos, w[..1], w[1..]);
      assert w == w[..1] + w[1..];
      SkipBlank(t, pos + 1, w[1..]);
    }
  }

  /** Blanks before anything but a blank or a slash are skipped, whatever the flags. */
  lemma SkipGap(t: bytes, cf: Config, pos: nat, w: bytes, log: seq<Event>)
    requires Has(t, pos, w) && AllBlank(w) && !IsBlank(Peek(t, pos + |w|)) && Peek(t, pos + |w|) != '/'
    ensures GapScan(t, cf, pos, log) == At(pos + |w|, log)
  {
    SkipBlank(t, pos, w);
  }

  lemma SpaceBlank(style: Style, level: Level, depth: nat)
    requires StyleOk(style)
    ensures AllBlank(Space(style, level, depth)) && AllBlank(ClosingSpace(style, level, depth))
  {
  }

  // ---------------------------------------------------------------- strings

  /** A byte of a string comes back from its escape. */
  lemma EscapeBack(t: bytes, pos: nat, c: byte, str: bytes)
    requires Has(t, pos, EscapeByte(c))
    ensures StringBody(t, pos, str) == StringBody(t, pos + |EscapeByte(c)|, str + [c])
  {
    var w := EscapeByte(c);
    HasByte(t, pos, w, 0);
    if |w| > 1 {
      HasByte(t, pos, w, 1);
    }
    if |w| == 6 {
      HasByte(t, pos, w, 2);
      HasByte(t, pos, w, 3);
      HasByte(t, pos, w, 4);
      HasByte(t, pos, w, 5);
      ControlBack(t, pos + 2, c);
      assert Encode(c as int) == [c];
    }
  }

  lemma ControlBack(t: bytes, pos: nat, c: byte)
    requires c < ' ' && Peek(t, pos) == '0' && Peek(t, pos + 1) == '0'
    requires Peek(t, pos + 2) == HexDigit(c as int / 16, true) && Peek(t, pos + 3) == HexDigit(c as int % 16, true)
    requires pos <= |t|
    ensures UnicodeEscape(t, pos) == Point(pos + 4, c as int)
  {
    var high, low := c as int / 16, c as int % 16;
    assert HexValue(HexDigit(high, true)) == Some(high) && HexValue(HexDigit(low, true)) == Some(low);
    assert Hex(t, pos + 4, 0, c as int) == Some(c as int);
    assert Hex(t, pos + 3, 1, high) == Some(c as int);
    assert Hex(t, pos + 2, 2, 0) == Some(c as int);
    assert Hex(t, pos + 1, 3, 0) == Some(c as int);
    assert Hex(t, pos, 4, 0) == Some(c as int);
  }

  lemma EndBack(t: bytes, pos: nat, str: bytes)
    requires Peek(t, pos) == '"'
    ensures pos < |t| && StringBody(t, pos, str) == Text(pos + 1, str + [])
  {
    assert str + [] == str;
  }

  lemma {:induction false} StringBack(t: bytes, pos: nat, s: bytes, str: bytes)
    requires Has(t, pos, Escaped(s)) && Peek(t, pos + |Escaped(s)|) == '"'
    ensures StringBody(t, pos, str) == Text(pos + |Escaped(s)| + 1, str + s)
    decreases |s|
  {
    hide EscapeByte, StringBody, Has;
    if s == [] {
      EndBack(t, pos, str);
    } else {
      HasConcat(t, pos, EscapeByte(s[0]), Escaped(s[1..]));
      EscapeBack(t, pos, s[0], str);
      StringBack(t, pos + |EscapeByte(s[0])|, s[1..], str + [s[0]]);
      assert str + [s[0]] + s[1..] == str + s;
    }
  }

  lemma QuotedBack(t: bytes, pos: nat, s: bytes, log: seq<Event>, isKey: bool)
    requires Has(t, pos, Quoted(s))
    ensures Peek(t, pos) == '"' && pos < |t|
    ensures StringScan(t, pos, log, isKey) == At(pos + |Quoted(s)|, log + [if isKey then Key(s) else String(s)])
  {
    hide Escaped, StringBody;
    HasByte(t, pos, Quoted(s), 0);
    HasConcat(t, pos, "\"" + Escaped(s), "\"");
    HasConcat(t, pos, "\"", Escaped(s));
    HasByte(t, pos + 1 + |Escaped(s)|, "\"", 0);
    StringBack(t, pos + 1, s, []);
    assert [] + s == s;
  }

  // ---------------------------------------------------------------- numbers

  lemma {:induction false} DigitsBack(t: bytes, pos: nat, w: bytes)
    requires Has(t, pos, w) && AllDigits(w) && !IsDigitAt(t, pos + |w|)
    ensures DigitsAt(t, pos) == w && SkipDigits(t, pos) == pos + |w|
    decreases |w|
  {
    if w != [] {
      HasByte(t, pos, w, 0);
      HasConcat(t, pos, w[..1], w[1..]);
      assert w == w[..1] + w[1..];
      DigitsBack(t, pos + 1, w[1..]);
    }
  }

  /** The byte after a number ends it. */
  predicate EndsNumber(c: byte) {
    !IsDigit(c) && c != '.' && !IsE(c)
  }

  lemma NumberBack(t: bytes, cf: Config, pos: nat, n: int, log: seq<Event>)
    requires Has(t, pos, SignedDec(n)) && EndsNumber(Peek(t, pos + |SignedDec(n)|))
    requires -0x8000_0000_0000_0000 <= n < 0x1_0000_0000_0000_0000
    ensures NumberScan(t, cf, pos, log) == At(pos + |SignedDec(n)|, log + [ReadInteger(n)])
    ensures Peek(t, pos) == '-' || IsDigitAt(t, pos)
  {
    hide NumberScan, Dec, Decimal, DigitsAt;
    var m: nat := if n < 0 then -n else n;
    var p := if n < 0 then pos + 1 else pos;
    HasByte(t, pos, SignedDec(n), 0);
    if n < 0 {
      HasConcat(t, pos, "-", Dec(m));
    }
    HasByte(t, p, Dec(m), 0);
    DigitsBack(t, p, Dec(m));
    DecBack(m);
    IntegersExact(t, cf, pos, log);
  }

  /** How the reader reports an integer: negative ones as Int or Int64, the others as Uint or Uint64. */
  function ReadInteger(n: int): Event
    requires -0x8000_0000_0000_0000 <= n < 0x1_0000_0000_0000_0000
  {
    if n < 0 then IntegerFor(true, -n).value else IntegerFor(false, n).value
  }

  /** How the reader reports a leaf that was written from `e`. */
  function ReadLeaf(e: Event): Event {
    if IsInteger(e) && IsLeaf(e) then ReadInteger(IntegerOf(e)) else e
  }

  /** A leaf that is written without conversions of floating-point numbers. */
  predicate Writable(e: Event) {
    IsLeaf(e) && !e.Double?
  }

  lemma LettersBack(t: bytes, pos: nat, w: bytes)
    requires Has(t, pos, w)
    ensures Letters(t, pos, w) == |w|
  {
    forall k: nat | k < |w| ensures Peek(t, pos + k) == w[k] {
      HasByte(t, pos, w, k);
    }
  }

  /** A leaf reads back. */
  lemma LeafBack(t: bytes, cf: Config, pos: nat, e: Event, log: seq<Event>)
    requires Writable(e) && Has(t, pos, LeafText(e)) && EndsNumber(Peek(t, pos + |LeafText(e)|))
    ensures Peek(t, pos) != '{' && Peek(t, pos) != '['
    ensures ScalarScan(t, cf, pos, log) == At(pos + |LeafText(e)|, log + [ReadLeaf(e)])
  {
    hide NumberScan, StringScan, Letters, SignedDec, Dec, Quoted;
    if e.String? {
      QuotedBack(t, pos, e.str, log, false);
    } else if IsInteger(e) {
      UnsignedDec(IntegerOf(e));
      NumberBack(t, cf, pos, IntegerOf(e), log);
    } else {
      HasByte(t, pos, LeafText(e), 0);
      LettersBack(t, pos, LeafText(e));
    }
  }

  lemma UnsignedDec(n: int)
    ensures n >= 0 ==> SignedDec(n) == Dec(n)
  {
  }

  // ---------------------------------------------------------------- containers

  /** A byte that a value starts with. */
  predicate StartsValue(c: byte) {
    !IsBlank(c) && c != '/' && c != ']' && c != '}' && c != ',' && c != ':' && c != '\0'
  }

  lemma RenderStarts(style: Style, depth: nat, v: Value)
    requires All(v, Writable)
    ensures Render(style, depth, v) != [] && StartsValue(Render(style, depth, v)[0])
  {
    hide RenderElements, RenderMembers, ClosingSpace, Escaped;
    if v.Leaf? && IsInteger(v.e) {
      UnsignedDec(IntegerOf(v.e));
    }
  }

  /** What follows an element that is the first of `vs`: the other elements, and the end of the array. */
  function ElementsTail(style: Style, depth: nat, vs: seq<Value>, i: nat, n: nat): bytes {
    RenderElements(style, depth + 1, vs, i) + ClosingSpace(style, Level(n, true), depth) + "]"
  }

  function MembersTail(style: Style, depth: nat, ms: seq<Pair>, i: nat, n: nat): bytes {
    RenderMembers(style, depth + 1, ms, i) + ClosingSpace(style, Level(2 * n, false), depth) + "}"
  }

  /** The value that the reader reports for a value that was written. */
  function ReadValue(v: Value): Value {
    Map(v, ReadLeaf)
  }

  /** The text of a value reads back as the events of the value, whatever the flags. */
  lemma {:induction false} ValueBack(t: bytes, cf: Config, style: Style, depth: nat, pos: nat, v: Value,
                                     log: seq<Event>)
    requires StyleOk(style) && All(v, Writable)
    requires Has(t, pos, Render(style, depth, v)) && EndsNumber(Peek(t, pos + |Render(style, depth, v)|))
    ensures ParseValue(t, cf, pos, log) == At(pos + |Render(style, depth, v)|, log + Events(ReadValue(v)))
    decreases v, 2
  {
    hide ScalarScan, LeafText, ReadLeaf, ParseArray, ParseObject;
    match v
    case Leaf(e) => LeafBack(t, cf, pos, e, log);
    case Array(vs) => ArrayBack(t, cf, style, depth, pos, vs, log);
    case Object(ms) => ObjectBack(t, cf, style, depth, pos, ms, log);
  }

  // The text of a container, taken apart.

  lemma ArrayText(style: Style, depth: nat, vs: seq<Value>)
    ensures Render(style, depth, Array(vs)) == "[" + ElementsTail(style, depth, vs, 0, |vs|)
    ensures vs == [] ==> ElementsTail(style, depth, vs, 0, 0) == "]"
  {
    hide RenderElements, ClosingSpace;
    var inside, space := RenderElements(style, depth + 1, vs, 0), ClosingSpace(style, Level(|vs|, true), depth);
    assert "[" + inside + space + "]" == "[" + (inside + space + "]");
    if vs == [] {
      EmptyInside(style, depth);
    }
  }

  lemma EmptyInside(style: Style, depth: nat)
    ensures RenderElements(style, depth + 1, [], 0) == "" && ClosingSpace(style, Level(0, true), depth) == ""
    ensures RenderMembers(style, depth + 1, [], 0) == "" && ClosingSpace(style, Level(0, false), depth) == ""
  {
  }

  lemma ElementsText(style: Style, depth: nat, vs: seq<Value>, i: nat, n: nat)
    requires vs != []
    ensures ElementsTail(style, depth, vs, i, n)
         == Mark(Level(i, true))
            + (Space(style, Level(i, true), depth + 1)
               + (Render(style, depth + 1, vs[0]) + ElementsTail(style, depth, vs[1..], i + 1, n)))
  {
    hide Render, Mark, Space, ClosingSpace;
    var mark, space := Mark(Level(i, true)), Space(style, Level(i, true), depth + 1);
    var first := Render(style, depth + 1, vs[0]);
    var more, close := RenderElements(style, depth + 1, vs[1..], i + 1), ClosingSpace(style, Level(n, true), depth);
    assert mark + space + first + more + close + "]" == mark + (space + (first + (more + close + "]")));
  }

  /** The end of an array: the space before the bracket is skipped. */
  lemma CloseBack(t: bytes, cf: Config, style: Style, level: Level, depth: nat, pos: nat, bracket: bytes,
                  log: seq<Event>)
    requires StyleOk(style) && (bracket == "]" || bracket == "}")
    requires Has(t, pos, ClosingSpace(style, level, depth) + bracket)
    ensures var p := pos + |ClosingSpace(style, level, depth)|;
            GapScan(t, cf, pos, log) == At(p, log) && Peek(t, p) == bracket[0] && p < |t|
    ensures EndsNumber(Peek(t, pos))
  {
    hide GapScan, ClosingSpace;
    var space := ClosingSpace(style, level, depth);
    HasConcat(t, pos, space, bracket);
    HasByte(t, pos + |space|, bracket, 0);
    SpaceBlank(style, level, depth);
    SkipGap(t, cf, pos, space, log);
    if space != [] {
      HasByte(t, pos, space, 0);
    }
  }

  /** The space before a value is skipped. */
  lemma SpaceBack(t: bytes, cf: Config, style: Style, level: Level, depth: nat, pos: nat, w: bytes, log: seq<Event>)
    requires StyleOk(style) && w != [] && StartsValue(w[0])
    requires Has(t, pos, Space(style, level, depth) + w)
    ensures var p := pos + |Space(style, level, depth)|;
            GapScan(t, cf, pos, log) == At(p, log) && Has(t, p, w) && Peek(t, p) == w[0]
  {
    hide GapScan, Space;
    var space := Space(style, level, depth);
    HasConcat(t, pos, space, w);
    HasByte(t, pos + |space|, w, 0);
    SpaceBlank(style, level, depth);
    SkipGap(t, cf, pos, space, log);
  }

  lemma {:induction false} ArrayBack(t: bytes, cf: Config, style: Style, depth: nat, pos: nat, vs: seq<Value>,
                                     log: seq<Event>)
    requires StyleOk(style) && All(Array(vs), Writable) && Has(t, pos, Render(style, depth, Array(vs)))
    ensures Peek(t, pos) == '[' && pos < |t|
    ensures ParseArray(t, cf, pos, log)
         == At(pos + |Render(style, depth, Array(vs))|, log + Events(ReadValue(Array(vs))))
    decreases vs, 2
  {
    hide GapScan, Elements, ElementsTail, Render, Events, ReadValue;
    var text := ElementsTail(style, depth, vs, 0, |vs|);
    ArrayText(style, depth, vs);
    HasConcat(t, pos, "[", text);
    HasByte(t, pos, "[", 0);
    if vs == [] {
      HasByte(t, pos + 1, "]", 0);
      SkipGap(t, cf, pos + 1, "", log + [StartArray]);
      NoElements(log);
    } else {
      ArrayInsideBack(t, cf, style, depth, pos + 1, vs, log);
    }
  }

  lemma {:induction false} ArrayInsideBack(t: bytes, cf: Config, style: Style, depth: nat, pos: nat, vs: seq<Value>,
                                           log: seq<Event>)
    requires StyleOk(style) && vs != [] && forall k :: 0 <= k < |vs| ==> All(vs[k], Writable)
    requires Has(t, pos, ElementsTail(style, depth, vs, 0, |vs|))
    ensures var s := GapScan(t, cf, pos, log + [StartArray]);
            && s.At? && Peek(t, s.pos) != ']'
            && Elements(t, cf, s.pos, s.log, 0)
               == At(pos + |ElementsTail(style, depth, vs, 0, |vs|)|, log + Events(ReadValue(Array(vs))))
    decreases vs, 1
  {
    hide GapScan, Elements, Space, ElementsTail, Render, Events, ReadValue, All;
    var n, first, started := |vs|, Level(0, true), log + [StartArray];
    var w := Render(style, depth + 1, vs[0]) + ElementsTail(style, depth, vs[1..], 1, n);
    ElementsText(style, depth, vs, 0, n);
    assert Mark(first) + (Space(style, first, depth + 1) + w) == Space(style, first, depth + 1) + w;
    RenderStarts(style, depth + 1, vs[0]);
    SpaceBack(t, cf, style, first, depth + 1, pos, w, started);
    ElementsBack(t, cf, style, depth, pos + |Space(style, first, depth + 1)|, vs, 0, n, started, 0);
    SomeElements(log, vs);
  }

  lemma NoElements(log: seq<Event>)
    ensures log + [StartArray] + [EndArray(0)] == log + Events(ReadValue(Array([])))
    ensures log + [StartObject] + [EndObject(0)] == log + Events(ReadValue(Object([])))
  {
  }

  lemma SomeElements(log: seq<Event>, vs: seq<Value>)
    ensures log + [StartArray] + ElementEvents(MapElements(vs, ReadLeaf)) + [EndArray(Size32(0 + |vs|))]
         == log + Events(ReadValue(Array(vs)))
  {
    hide ElementEvents, MapElements, Size32;
    JsonSound.Enclosed(log, StartArray, ElementEvents(MapElements(vs, ReadLeaf)), EndArray(Size32(|vs|)));
  }

  /** The element loop reads what the writer wrote for the elements, from the first of them on. */
  lemma {:induction false} ElementsBack(t: bytes, cf: Config, style: Style, depth: nat, pos: nat, vs: seq<Value>,
                                        i: nat, n: nat, log: seq<Event>, count: nat)
    requires StyleOk(style) && vs != [] && forall k :: 0 <= k < |vs| ==> All(vs[k], Writable)
    requires count < 0x1_0000_0000
    requires Has(t, pos, Render(style, depth + 1, vs[0]) + ElementsTail(style, depth, vs[1..], i + 1, n))
    ensures Elements(t, cf, pos, log, count)
         == At(pos + |Render(style, depth + 1, vs[0])| + |ElementsTail(style, depth, vs[1..], i + 1, n)|,
               log + ElementEvents(MapElements(vs, ReadLeaf)) + [EndArray(Size32(count + |vs|))])
    decreases vs, 0
  {
    hide GapScan, ElementsAfter, ElementsTail, Render, MapElements, ElementEvents, Size32, All, ParseValue, Map,
      Events, EndsNumber;
    var rest, first := vs[1..], Render(style, depth + 1, vs[0]);
    var tail, q := ElementsTail(style, depth, rest, i + 1, n), pos + |first|;
    HasConcat(t, pos, first, tail);
    TailStarts(t, style, depth, q, rest, i, n);
    ValueBack(t, cf, style, depth + 1, pos, vs[0], log);
    var after := log + Events(ReadValue(vs[0]));
    ElementsRestBack(t, cf, style, depth, q, rest, i, n, after, count);
    ElementsJoin(log, vs, count);
  }

  lemma ElementsJoin(log: seq<Event>, vs: seq<Value>, count: nat)
    requires vs != [] && count < 0x1_0000_0000
    ensures log + Events(ReadValue(vs[0])) + ElementEvents(MapElements(vs[1..], ReadLeaf))
            + [EndArray(Size32(Inc32(count) + |vs| - 1))]
         == log + ElementEvents(MapElements(vs, ReadLeaf)) + [EndArray(Size32(count + |vs|))]
  {
    hide Events, Map, Size32, Inc32, ElementEvents, MapElements;
    JsonSound.CountUp(count, |vs| - 1);
    MapElementEvents(vs, ReadLeaf);
    var first, rest := Events(ReadValue(vs[0])), ElementEvents(MapElements(vs[1..], ReadLeaf));
    assert log + first + rest == log + (first + rest);
  }

  /** What follows an element ends a number. */
  lemma TailStarts(t: bytes, style: Style, depth: nat, pos: nat, rest: seq<Value>, i: nat, n: nat)
    requires StyleOk(style) && Has(t, pos, ElementsTail(style, depth, rest, i + 1, n))
    ensures EndsNumber(Peek(t, pos))
    ensures rest != [] ==> Peek(t, pos) == ','
  {
    hide Render, Space;
    if rest != [] {
      ElementsText(style, depth, rest, i + 1, n);
    } else {
      assert ElementsTail(style, depth, rest, i + 1, n) == ClosingSpace(style, Level(n, true), depth) + "]";
    }
    HasByte(t, pos, ElementsTail(style, depth, rest, i + 1, n), 0);
  }

  /** The element loop from the end of an element on. */
  lemma {:induction false} ElementsRestBack(t: bytes, cf: Config, style: Style, depth: nat, pos: nat, rest: seq<Value>,
                                            i: nat, n: nat, log: seq<Event>, count: nat)
    requires StyleOk(style) && forall k :: 0 <= k < |rest| ==> All(rest[k], Writable)
    requires count < 0x1_0000_0000
    requires Has(t, pos, ElementsTail(style, depth, rest, i + 1, n))
    ensures var s := GapScan(t, cf, pos, log);
            s.At? && ElementsAfter(t, cf, s.pos, s.log, count)
                     == At(pos + |ElementsTail(style, depth, rest, i + 1, n)|,
                           log + ElementEvents(MapElements(rest, ReadLeaf)) + [EndArray(Size32(Inc32(count) + |rest|))])
    decreases rest, 2
  {
    if rest == [] {
      ElementsLast(t, cf, style, depth, pos, i, n, log, count);
    } else {
      ElementsMore(t, cf, style, depth, pos, rest, i, n, log, count);
    }
  }

  lemma ElementsLast(t: bytes, cf: Config, style: Style, depth: nat, pos: nat, i: nat, n: nat, log: seq<Event>,
                     count: nat)
    requires StyleOk(style) && Has(t, pos, ElementsTail(style, depth, [], i + 1, n))
    ensures var s := GapScan(t, cf, pos, log);
            s.At? && ElementsAfter(t, cf, s.pos, s.log, count)
                     == At(pos + |ElementsTail(style, depth, [], i + 1, n)|,
                           log + ElementEvents(MapElements([], ReadLeaf)) + [EndArray(Size32(Inc32(count) + 0))])
  {
    hide GapScan, Elements, Size32, ClosingSpace, Inc32, EndsNumber;
    var level := Level(n, true);
    assert ElementsTail(style, depth, [], i + 1, n) == ClosingSpace(style, level, depth) + "]";
    CloseBack(t, cf, style, level, depth, pos, "]", log);
    CountOnce(count);
    assert log + [] == log;
  }

  lemma {:induction false} ElementsMore(t: bytes, cf: Config, style: Style, depth: nat, pos: nat, rest: seq<Value>,
                                        i: nat, n: nat, log: seq<Event>, count: nat)
    requires StyleOk(style) && rest != [] && forall k :: 0 <= k < |rest| ==> All(rest[k], Writable)
    requires Has(t, pos, ElementsTail(style, depth, rest, i + 1, n))
    ensures var s := GapScan(t, cf, pos, log);
            s.At? && ElementsAfter(t, cf, s.pos, s.log, count)
                     == At(pos + |ElementsTail(style, depth, rest, i + 1, n)|,
                           log + ElementEvents(MapElements(rest, ReadLeaf)) + [EndArray(Size32(Inc32(count) + |rest|))])
    decreases rest, 1
  {
    hide GapScan, Elements, Render, Size32, All, Space, Inc32, EndsNumber, ElementsTail, MapElements, ElementEvents;
    var level := Level(i + 1, true);
    var w := Render(style, depth + 1, rest[0]) + ElementsTail(style, depth, rest[1..], i + 2, n);
    ElementsText(style, depth, rest, i + 1, n);
    HasConcat(t, pos, ",", Space(style, level, depth + 1) + w);
    HasByte(t, pos, ",", 0);
    SkipGap(t, cf, pos, "", log);
    RenderStarts(style, depth + 1, rest[0]);
    SpaceBack(t, cf, style, level, depth + 1, pos + 1, w, log);
    CountOnce(count);
    ElementsBack(t, cf, style, depth, pos + 1 + |Space(style, level, depth + 1)|, rest, i + 1, n, log, Inc32(count));
  }

  lemma CountOnce(count: nat)
    ensures Size32(Inc32(count)) == Inc32(count) && Inc32(count) < 0x1_0000_0000
  {
  }

  lemma ObjectText(style: Style, depth: nat, ms: seq<Pair>)
    ensures Render(style, depth, Object(ms)) == "{" + MembersTail(style, depth, ms, 0, |ms|)
    ensures ms == [] ==> MembersTail(style, depth, ms, 0, 0) == "}"
  {
    hide RenderMembers, ClosingSpace;
    var inside, space := RenderMembers(style, depth + 1, ms, 0), ClosingSpace(style, Level(2 * |ms|, false), depth);
    assert "{" + inside + space + "}" == "{" + (inside + space + "}");
    if ms == [] {
      EmptyInside(style, depth);
    }
  }

  /** A member from its name on, and what follows it. */
  function MembersFrom(style: Style, depth: nat, ms: seq<Pair>, i: nat, n: nat): bytes
    requires ms != []
  {
    Quoted(ms[0].name)
    + (ColonText(style, depth + 1)
       + (Render(style, depth + 1, ms[0].value) + MembersTail(style, depth, ms[1..], i + 1, n)))
  }

  lemma MembersText(style: Style, depth: nat, ms: seq<Pair>, i: nat, n: nat)
    requires ms != []
    ensures MembersTail(style, depth, ms, i, n)
         == Mark(Level(2 * i, false))
            + (Space(style, Level(2 * i, false), depth + 1) + MembersFrom(style, depth, ms, i, n))
  {
    hide Render, Mark, Space, ClosingSpace, Quoted, ColonText;
    var mark, space := Mark(Level(2 * i, false)), Space(style, Level(2 * i, false), depth + 1);
    var name, colon, value := Quoted(ms[0].name), ColonText(style, depth + 1), Render(style, depth + 1, ms[0].value);
    var more, close := RenderMembers(style, depth + 1, ms[1..], i + 1), ClosingSpace(style, Level(2 * n, false), depth);
    assert mark + space + name + colon + value + more + close + "}"
        == mark + (space + (name + (colon + (value + (more + close + "}")))));
  }

  lemma MembersFromStarts(style: Style, depth: nat, ms: seq<Pair>, i: nat, n: nat)
    requires ms != []
    ensures MembersFrom(style, depth, ms, i, n) != [] && MembersFrom(style, depth, ms, i, n)[0] == '"'
  {
    hide Render, MembersTail, ColonText, Escaped;
  }

  lemma {:induction false} ObjectBack(t: bytes, cf: Config, style: Style, depth: nat, pos: nat, ms: seq<Pair>,
                                      log: seq<Event>)
    requires StyleOk(style) && All(Object(ms), Writable) && Has(t, pos, Render(style, depth, Object(ms)))
    ensures Peek(t, pos) == '{' && pos < |t|
    ensures ParseObject(t, cf, pos, log)
         == At(pos + |Render(style, depth, Object(ms))|, log + Events(ReadValue(Object(ms))))
    decreases ms, 2
  {
    hide GapScan, Members, MembersTail, Render, Events, ReadValue;
    var text := MembersTail(style, depth, ms, 0, |ms|);
    ObjectText(style, depth, ms);
    HasConcat(t, pos, "{", text);
    HasByte(t, pos, "{", 0);
    if ms == [] {
      HasByte(t, pos + 1, "}", 0);
      SkipGap(t, cf, pos + 1, "", log + [StartObject]);
      NoElements(log);
    } else {
      ObjectInsideBack(t, cf, style, depth, pos + 1, ms, log);
    }
  }

  lemma {:induction false} ObjectInsideBack(t: bytes, cf: Config, style: Style, depth: nat, pos: nat, ms: seq<Pair>,
                                            log: seq<Event>)
    requires StyleOk(style) && ms != [] && forall k :: 0 <= k < |ms| ==> All(ms[k].value, Writable)
    requires Has(t, pos, MembersTail(style, depth, ms, 0, |ms|))
    ensures var s := GapScan(t, cf, pos, log + [StartObject]);
            && s.At? && Peek(t, s.pos) != '}'
            && Members(t, cf, s.pos, s.log, 0)
               == At(pos + |MembersTail(style, depth, ms, 0, |ms|)|, log + Events(ReadValue(Object(ms))))
    decreases ms, 1
  {
    hide GapScan, Members, Space, MembersTail, Render, Events, ReadValue, All, MembersFrom;
    var n, first, started := |ms|, Level(0, false), log + [StartObject];
    var w := MembersFrom(style, depth, ms, 0, n);
    MembersText(style, depth, ms, 0, n);
    assert Mark(first) + (Space(style, first, depth + 1) + w) == Space(style, first, depth + 1) + w;
    MembersFromStarts(style, depth, ms, 0, n);
    SpaceBack(t, cf, style, first, depth + 1, pos, w, started);
    MembersBack(t, cf, style, depth, pos + |Space(style, first, depth + 1)|, ms, 0, n, started, 0);
    SomeMembers(log, ms);
  }

  lemma SomeMembers(log: seq<Event>, ms: seq<Pair>)
    ensures log + [StartObject] + MemberEvents(MapMembers(ms, ReadLeaf)) + [EndObject(Size32(0 + |ms|))]
         == log + Events(ReadValue(Object(ms)))
  {
    hide MemberEvents, MapMembers, Size32;
    JsonSound.Enclosed(log, StartObject, MemberEvents(MapMembers(ms, ReadLeaf)), EndObject(Size32(|ms|)));
  }

  /** The member loop reads what the writer wrote for the members, from the first name on. */
  lemma {:induction false} MembersBack(t: bytes, cf: Config, style: Style, depth: nat, pos: nat, ms: seq<Pair>, i: nat,
                                       n: nat, log: seq<Event>, count: nat)
    requires StyleOk(style) && ms != [] && forall k :: 0 <= k < |ms| ==> All(ms[k].value, Writable)
    requires count < 0x1_0000_0000
    requires Has(t, pos, MembersFrom(style, depth, ms, i, n))
    ensures Members(t, cf, pos, log, count)
         == At(pos + |MembersFrom(style, depth, ms, i, n)|,
               log + MemberEvents(MapMembers(ms, ReadLeaf)) + [EndObject(Size32(count + |ms|))])
    decreases ms, 0
  {
    hide GapScan, Member, MembersAfter, MembersTail, Render, MapMembers, MemberEvents, Size32, All, Map, Events,
      EndsNumber,
      Quoted, ColonText, Inc32;
    var m, tail := ms[0], MembersTail(style, depth, ms[1..], i + 1, n);
    var text := Quoted(m.name) + (ColonText(style, depth + 1) + Render(style, depth + 1, m.value));
    MemberTextJoin(style, depth, ms, i, n);
    HasConcat(t, pos, text, tail);
    MembersTailStarts(t, style, depth, pos + |text|, ms[1..], i, n);
    MemberBack(t, cf, style, depth + 1, pos, m, log);
    MembersRestBack(t, cf, style, depth, pos + |text|, ms[1..], i, n, log + [Key(m.name)] + Events(ReadValue(m.value)),
                    count);
    MembersJoin(log, ms, count);
  }

  lemma MemberTextJoin(style: Style, depth: nat, ms: seq<Pair>, i: nat, n: nat)
    requires ms != []
    ensures MembersFrom(style, depth, ms, i, n)
         == Quoted(ms[0].name) + (ColonText(style, depth + 1) + Render(style, depth + 1, ms[0].value))
            + MembersTail(style, depth, ms[1..], i + 1, n)
  {
    hide Quoted, ColonText, Render, MembersTail;
  }

  lemma MembersJoin(log: seq<Event>, ms: seq<Pair>, count: nat)
    requires ms != [] && count < 0x1_0000_0000
    ensures log + [Key(ms[0].name)] + Events(ReadValue(ms[0].value)) + MemberEvents(MapMembers(ms[1..], ReadLeaf))
            + [EndObject(Size32(Inc32(count) + |ms| - 1))]
         == log + MemberEvents(MapMembers(ms, ReadLeaf)) + [EndObject(Size32(count + |ms|))]
  {
    hide Events, Map, Size32, Inc32, MemberEvents, MapMembers;
    JsonSound.CountUp(count, |ms| - 1);
    MapMemberEvents(ms, ReadLeaf);
    var key, first := [Key(ms[0].name)], Events(ReadValue(ms[0].value));
    var rest := MemberEvents(MapMembers(ms[1..], ReadLeaf));
    Regroup(log, key, first, rest);
  }

  lemma Regroup(a: seq<Event>, b: seq<Event>, c: seq<Event>, d: seq<Event>)
    ensures a + b + c + d == a + (b + c + d)
  {
  }

  /** A name, the colon and the value read back, up to the gap after them. */
  lemma {:induction false} MemberBack(t: bytes, cf: Config, style: Style, depth: nat, pos: nat, m: Pair,
                                      log: seq<Event>)
    requires StyleOk(style) && All(m.value, Writable)
    requires var w := Quoted(m.name) + (ColonText(style, depth) + Render(style, depth, m.value));
             Has(t, pos, w) && EndsNumber(Peek(t, pos + |w|))
    ensures var w := Quoted(m.name) + (ColonText(style, depth) + Render(style, depth, m.value));
            Member(t, cf, pos, log) == GapScan(t, cf, pos + |w|, log + [Key(m.name)] + Events(ReadValue(m.value)))
    decreases m, 0
  {
    hide GapScan, Render, All, Map, Events, EndsNumber, Quoted, StringScan, ParseValue;
    var name, value := Quoted(m.name), Render(style, depth, m.value);
    HasConcat(t, pos, name, ColonText(style, depth) + value);
    QuotedBack(t, pos, m.name, log, true);
    var p, keyed := pos + |name|, log + [Key(m.name)];
    ColonBack(t, cf, style, depth, p, value, m.value, keyed);
    ValueBack(t, cf, style, depth, p + |ColonText(style, depth)|, m.value, keyed);
  }

  lemma ColonBack(t: bytes, cf: Config, style: Style, depth: nat, pos: nat, w: bytes, v: Value, log: seq<Event>)
    requires w == Render(style, depth, v) && All(v, Writable) && Has(t, pos, ColonText(style, depth) + w)
    ensures var q := pos + |ColonText(style, depth)|;
            && GapScan(t, cf, pos, log) == At(pos, log) && Peek(t, pos) == ':' && pos < |t|
            && GapScan(t, cf, pos + 1, log) == At(q, log) && Has(t, q, w)
  {
    hide GapScan, Render, All;
    RenderStarts(style, depth, v);
    var space := if style.Compact? then "" else " ";
    HasConcat(t, pos, ColonText(style, depth), w);
    HasConcat(t, pos, ":", space);
    HasByte(t, pos, ":", 0);
    HasByte(t, pos + 1 + |space|, w, 0);
    SkipGap(t, cf, pos, "", log);
    SkipGap(t, cf, pos + 1, space, log);
  }

  lemma MembersTailStarts(t: bytes, style: Style, depth: nat, pos: nat, rest: seq<Pair>, i: nat, n: nat)
    requires StyleOk(style) && Has(t, pos, MembersTail(style, depth, rest, i + 1, n))
    ensures EndsNumber(Peek(t, pos))
    ensures rest != [] ==> Peek(t, pos) == ','
  {
    hide MembersFrom, Space;
    if rest != [] {
      MembersText(style, depth, rest, i + 1, n);
    } else {
      assert MembersTail(style, depth, rest, i + 1, n) == ClosingSpace(style, Level(2 * n, false), depth) + "}";
    }
    HasByte(t, pos, MembersTail(style, depth, rest, i + 1, n), 0);
  }

  /** The member loop from the end of a member on. */
  lemma {:induction false} MembersRestBack(t: bytes, cf: Config, style: Style, depth: nat, pos: nat, rest: seq<Pair>,
                                           i: nat, n: nat, log: seq<Event>, count: nat)
    requires StyleOk(style) && forall k :: 0 <= k < |rest| ==> All(rest[k].value, Writable)
    requires count < 0x1_0000_0000
    requires Has(t, pos, MembersTail(style, depth, rest, i + 1, n))
    ensures var s := GapScan(t, cf, pos, log);
            s.At? && MembersAfter(t, cf, s.pos, s.log, count)
                     == At(pos + |MembersTail(style, depth, rest, i + 1, n)|,
                           log + MemberEvents(MapMembers(rest, ReadLeaf)) + [EndObject(Size32(Inc32(count) + |rest|))])
    decreases rest, 2
  {
    if rest == [] {
      MembersLast(t, cf, style, depth, pos, i, n, log, count);
    } else {
      MembersMore(t, cf, style, depth, pos, rest, i, n, log, count);
    }
  }

  lemma MembersLast(t: bytes, cf: Config, style: Style, depth: nat, pos: nat, i: nat, n: nat, log: seq<Event>,
                    count: nat)
    requires StyleOk(style) && Has(t, pos, MembersTail(style, depth, [], i + 1, n))
    ensures var s := GapScan(t, cf, pos, log);
            s.At? && MembersAfter(t, cf, s.pos, s.log, count)
                     == At(pos + |MembersTail(style, depth, [], i + 1, n)|,
                           log + MemberEvents(MapMembers([], ReadLeaf)) + [EndObject(Size32(Inc32(count) + 0))])
  {
    hide GapScan, Members, Size32, ClosingSpace, Inc32, EndsNumber;
    var level := Level(2 * n, false);
    assert MembersTail(style, depth, [], i + 1, n) == ClosingSpace(style, level, depth) + "}";
    CloseBack(t, cf, style, level, depth, pos, "}", log);
    CountOnce(count);
    assert log + [] == log;
  }

  lemma {:induction false} MembersMore(t: bytes, cf: Config, style: Style, depth: nat, pos: nat, rest: seq<Pair>,
                                       i: nat, n: nat, log: seq<Event>, count: nat)
    requires StyleOk(style) && rest != [] && forall k :: 0 <= k < |rest| ==> All(rest[k].value, Writable)
    requires Has(t, pos, MembersTail(style, depth, rest, i + 1, n))
    ensures var s := GapScan(t, cf, pos, log);
            s.At? && MembersAfter(t, cf, s.pos, s.log, count)
                     == At(pos + |MembersTail(style, depth, rest, i + 1, n)|,
                           log + MemberEvents(MapMembers(rest, ReadLeaf)) + [EndObject(Size32(Inc32(count) + |rest|))])
    decreases rest, 1
  {
    hide GapScan, Members, Render, Size32, All, Space, Inc32, EndsNumber, MembersFrom, MembersTail, MapMembers,
      MemberEvents;
    var level := Level(2 * (i + 1), false);
    var w := MembersFrom(style, depth, rest, i + 1, n);
    MembersText(style, depth, rest, i + 1, n);
    HasConcat(t, pos, ",", Space(style, level, depth + 1) + w);
    HasByte(t, pos, ",", 0);
    SkipGap(t, cf, pos, "", log);
    MembersFromStarts(style, depth, rest, i + 1, n);
    SpaceBack(t, cf, style, level, depth + 1, pos + 1, w, log);
    CountOnce(count);
    MembersBack(t, cf, style, depth, pos + 1 + |Space(style, level, depth + 1)|, rest, i + 1, n, log, Inc32(count));
  }

  // ---------------------------------------------------------------- whole documents

  /**
   * Writing a value and parsing the text gives the events of the value back, with integers in the types the
   * reader uses; by either parser, under all flags, in either style.
   */
  lemma WriteThenRead(v: Value, style: Style, cf: Config)
    requires StyleOk(style) && All(v, Writable)
    ensures var o := WriteAll(style, Output([], [], false), Events(v));
            && o.Some? && o.value.levels == []
            && Parse(o.value.text, cf) == At(|o.value.text|, Events(ReadValue(v)))
            && IterativeParse(o.value.text, cf) == At(|o.value.text|, Events(ReadValue(v)))
  {
    hide WriteAll, Events, GapScan, Map, Render, All, ParseValue, IterativeParse;
    WritableOk(v);
    WriteRoot(style, v);
    var t := Render(style, 0, v);
    assert Has(t, 0, t);
    RenderStarts(style, 0, v);
    SkipGap(t, cf, 0, "", []);
    ValueBack(t, cf, style, 0, 0, v, []);
    assert [] + Events(ReadValue(v)) == Events(ReadValue(v));
    SkipGap(t, cf, |t|, "", Events(ReadValue(v)));
    ParsersAgree(t, cf);
  }

  lemma {:induction false} WritableOk(v: Value)
    requires All(v, Writable)
    ensures ValueOk(v)
    decreases v
  {
    match v
    case Leaf(_) =>
    case Array(vs) =>
      forall k | 0 <= k < |vs| ensures All(vs[k], IsLeaf) {
        WritableOk(vs[k]);
      }
    case Object(ms) =>
      forall k | 0 <= k < |ms| ensures All(ms[k].value, IsLeaf) {
        WritableOk(ms[k].value);
      }
  }

  /** A document that is written and read again is the same document. */
  lemma DocumentRoundTrip(v: Value, style: Style, cf: Config)
    requires StyleOk(style) && All(v, Writable) && StoredValue(v) == v
    ensures var o := WriteAll(style, Output([], [], false), Events(v));
            o.Some? && Parse(o.value.text, cf).At? && Replay([], Parse(o.value.text, cf).log) == Some([v])
  {
    hide WriteAll, Events, Map, All, Parse, IterativeParse, Replay;
    WriteThenRead(v, style, cf);
    ReadStored(v);
    Rebuild([], ReadValue(v));
    assert [] + [StoredValue(ReadValue(v))] == [v];
  }

  /** The type in which the reader reports an integer does not matter to a document. */
  lemma {:induction false} ReadStored(v: Value)
    requires All(v, Writable)
    ensures StoredValue(ReadValue(v)) == StoredValue(v) && ValueOk(ReadValue(v))
    decreases v, 1
  {
    match v
    case Leaf(e) => LeafStored(e);
    case Array(vs) => ReadStoredElements(vs);
    case Object(ms) => ReadStoredMembers(ms);
  }

  lemma LeafStored(e: Event)
    requires Writable(e)
    ensures Stored(ReadLeaf(e)) == Stored(e) && IsLeaf(ReadLeaf(e))
  {
  }

  lemma {:induction false} ReadStoredElements(vs: seq<Value>)
    requires forall k :: 0 <= k < |vs| ==> All(vs[k], Writable)
    ensures MapElements(MapElements(vs, ReadLeaf), Stored) == MapElements(vs, Stored)
    ensures forall k :: 0 <= k < |vs| ==> ValueOk(MapElements(vs, ReadLeaf)[k])
    decreases vs, 0
  {
    if vs != [] {
      ReadStored(vs[0]);
      ReadStoredElements(vs[1..]);
      assert MapElements(vs, ReadLeaf)[1..] == MapElements(vs[1..], ReadLeaf);
    }
  }

  lemma {:induction false} ReadStoredMembers(ms: seq<Pair>)
    requires forall k :: 0 <= k < |ms| ==> All(ms[k].value, Writable)
    ensures MapMembers(MapMembers(ms, ReadLeaf), Stored) == MapMembers(ms, Stored)
    ensures forall k :: 0 <= k < |ms| ==> ValueOk(MapMembers(ms, ReadLeaf)[k].value)
    decreases ms, 0
  {
    if ms != [] {
      ReadStored(ms[0].value);
      ReadStoredMembers(ms[1..]);
      assert MapMembers(ms, ReadLeaf)[1..] == MapMembers(ms[1..], ReadLeaf);
    }
  }
}
