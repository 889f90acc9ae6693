/** The grammar of JSON values: whatever the parser accepts is made up as the grammar says, and reported as it means. */
module JsonGrammar {
  import opened Bytes
  import opened JsonTypes
  import opened JsonScan
  import opened JsonRecursive
  import opened JsonValue
  import opened JsonRoundTrip
  import JsonSound
  import opened JsonSpelling
  import opened JsonLexis

  /** How the text of a value is made up. The gap before its first element is kept with the element. */
  datatype Source =
    | Word(e: Event)
    | Quote(pieces: seq<Piece>)
    | Number(n: Numeral)
    | Items(items: seq<Item>, end: End)
    | Fields(fields: seq<Field>, end: End)

  datatype Item = Item(before: seq<Filler>, value: Source, after: seq<Filler>)

  datatype Field = Field(before: seq<Filler>, name: seq<Piece>, middle: seq<Filler>, item: Item)

  /** The end of a container: whether a comma stands before it, and the gap inside the brackets or after that comma. */
  datatype End = End(comma: bool, gap: seq<Filler>)

  function WordText(e: Event): bytes {
    match e
    case Null => "null"
    case Bool(b) => if b then "true" else "false"
    case _ => []
  }

  function QuoteText(ps: seq<Piece>): bytes {
    "\"" + (Spelling(ps) + "\"")
  }

  function Written(s: Source): bytes
    decreases s, 1
  {
    match s
    case Word(e) => WordText(e)
    case Quote(ps) => QuoteText(ps)
    case Number(n) => NumeralText(n)
    case Items(items, end) => "[" + ItemsText(items, end)
    case Fields(fields, end) => "{" + FieldsText(fields, end)
  }

  /** Elements with the gaps before them, from the first one to the closing bracket. */
  function ItemsText(items: seq<Item>, end: End): bytes
    decreases items, 1
  {
    if items == [] then FillingText(end.gap) + "]" else FillingText(items[0].before) + ItemsRest(items, end)
  }

  /** The same, without the gap before the first. */
  function ItemsRest(items: seq<Item>, end: End): bytes
    requires items != []
    decreases items, 0
  {
    Written(items[0].value) + (FillingText(items[0].after) + ItemsTail(items[1..], end))
  }

  function ItemsTail(items: seq<Item>, end: End): bytes
    decreases items, 2
  {
    if items == [] && !end.comma then "]" else "," + ItemsText(items, end)
  }

  function FieldsText(fields: seq<Field>, end: End): bytes
    decreases fields, 1
  {
    if fields == [] then FillingText(end.gap) + "}" else FillingText(fields[0].before) + FieldsRest(fields, end)
  }

  function FieldsRest(fields: seq<Field>, end: End): bytes
    requires fields != []
    decreases fields, 0
  {
    var f := fields[0];
    QuoteText(f.name)
    + (FillingText(f.middle)
       + (":" + (FillingText(f.item.before)
                 + (Written(f.item.value) + (FillingText(f.item.after) + FieldsTail(fields[1..], end))))))
  }

  function FieldsTail(fields: seq<Field>, end: End): bytes
    decreases fields, 2
  {
    if fields == [] && !end.comma then "}" else "," + FieldsText(fields, end)
  }

  predicate EndOk(cf: Config, end: End, some: bool) {
    Filling(end.gap, cf.comments) && (end.comma ==> cf.trailingCommas && some)
  }

  /** The text means the value. */
  ghost predicate Says(cf: Config, s: Source, v: Value)
    decreases s
  {
    match s
    case Word(e) => (e.Null? || e.Bool?) && v == Leaf(e)
    case Quote(ps) => AllFit(ps) && v == Leaf(String(Meaning(ps)))
    case Number(n) => NumeralOk(n) && v == Leaf(NumeralEvent(n))
    case Items(items, end) => v.Array? && EndOk(cf, end, items != []) && AllSay(cf, items, v.elements)
    case Fields(fields, end) => v.Object? && EndOk(cf, end, fields != []) && FieldsSay(cf, fields, v.members)
  }

  ghost predicate AllSay(cf: Config, items: seq<Item>, vs: seq<Value>)
    decreases items
  {
    && |items| == |vs|
    && forall k :: 0 <= k < |items| ==> ItemSays(cf, items[k], vs[k])
  }

  ghost predicate ItemSays(cf: Config, i: Item, v: Value)
    decreases i
  {
    Filling(i.before, cf.comments) && Filling(i.after, cf.comments) && Says(cf, i.value, v)
  }

  ghost predicate FieldsSay(cf: Config, fields: seq<Field>, ms: seq<JsonValue.Pair>)
    decreases fields
  {
    && |fields| == |ms|
    && forall k :: 0 <= k < |fields| ==> FieldSays(cf, fields[k], ms[k])
  }

  ghost predicate FieldSays(cf: Config, f: Field, m: JsonValue.Pair)
    decreases f
  {
    && Filling(f.before, cf.comments) && Filling(f.middle, cf.comments)
    && AllFit(f.name) && m.name == Meaning(f.name) && ItemSays(cf, f.item, m.value)
  }

  // ---------------------------------------------------------------- what is accepted is in the grammar

  /** A gap before a token. */
  lemma TokenGap(t: bytes, cf: Config, pos: nat, log: seq<Event>) returns (fs: seq<Filler>)
    requires pos <= |t| && GapScan(t, cf, pos, log).At? && Peek(t, GapScan(t, cf, pos, log).pos) != '\0'
    ensures Filling(fs, cf.comments) && Has(t, pos, FillingText(fs))
    ensures GapScan(t, cf, pos, log) == At(pos + |FillingText(fs)|, log)
  {
    hide Gap, OpenLine, FillerOk;
    var last;
    fs, last := GapSource(t, cf, pos);
    if last.Some? {
      LineStops(t, cf, pos + |FillingText(fs)|, last.value);
    }
  }

  lemma LineStops(t: bytes, cf: Config, p: nat, body: bytes)
    requires OpenLine(t, cf, p, body)
    ensures Peek(t, p + 2 + |body|) == '\0'
  {
  }

  lemma WordSource(t: bytes, pos: nat, log: seq<Event>, word: string, e: Event)
    requires Literal(t, pos, log, word, e).At? && word != [] && word[|word| - 1] != '\0'
    ensures Has(t, pos, word) && Literal(t, pos, log, word, e) == At(pos + |word|, log + [e])
  {
    var n := Letters(t, pos, word);
    InText(t, pos, word);
    assert t[pos..pos + n] == word;
  }

  /** Letters other than NUL stand within the text. */
  lemma InText(t: bytes, pos: nat, word: string)
    requires Letters(t, pos, word) == |word| && word != []
    requires word[|word| - 1] != '\0'
    ensures pos + |word| <= |t|
  {
    assert Peek(t, pos + (|word| - 1)) == word[|word| - 1];
  }

  lemma QuoteSource(t: bytes, pos: nat, log: seq<Event>, isKey: bool) returns (ps: seq<Piece>)
    requires pos < |t| && t[pos] == '"' && StringScan(t, pos, log, isKey).At?
    ensures AllFit(ps) && Has(t, pos, QuoteText(ps))
    ensures StringScan(t, pos, log, isKey)
         == At(pos + |QuoteText(ps)|, log + [if isKey then Key(Meaning(ps)) else String(Meaning(ps))])
  {
    hide StringBody, Spelling, Meaning, AllFit;
    ps := ReadSpelling(t, pos + 1, []);
    assert [] + Meaning(ps) == Meaning(ps);
    assert t[pos..pos + 1] == "\"";
    HasConcat(t, pos, "\"", Spelling(ps) + "\"");
  }

  lemma ScalarSource(t: bytes, cf: Config, pos: nat, log: seq<Event>) returns (s: Source, v: Value)
    requires pos <= |t| && Peek(t, pos) != '{' && Peek(t, pos) != '[' && ScalarScan(t, cf, pos, log).At?
    ensures Says(cf, s, v) && Has(t, pos, Written(s))
    ensures ScalarScan(t, cf, pos, log) == At(pos + |Written(s)|, log + Events(v))
  {
    hide Literal, NumberScan, StringScan, Spelling, Meaning, AllFit, NumeralText, NumeralEvent, NumeralOk, Has;
    match Peek(t, pos)
    case 'n' =>
      WordSource(t, pos, log, "null", Null);
      s, v := Word(Null), Leaf(Null);
    case 't' =>
      WordSource(t, pos, log, "true", Bool(true));
      s, v := Word(Bool(true)), Leaf(Bool(true));
    case 'f' =>
      WordSource(t, pos, log, "false", Bool(false));
      s, v := Word(Bool(false)), Leaf(Bool(false));
    case '"' =>
      var ps := QuoteSource(t, pos, log, false);
      s, v := Quote(ps), Leaf(String(Meaning(ps)));
    case _ =>
      var n := NumberSource(t, cf, pos, log);
      s, v := Number(n), Leaf(NumeralEvent(n));
  }

  /** A value that was read has a source. */
  lemma {:induction false} ValueSource(t: bytes, cf: Config, pos: nat, log: seq<Event>) returns (s: Source, v: Value)
    requires pos <= |t| && ParseValue(t, cf, pos, log).At?
    ensures Says(cf, s, v) && Has(t, pos, Written(s))
    ensures ParseValue(t, cf, pos, log) == At(pos + |Written(s)|, log + Events(v))
    decreases |t| - pos, 1
  {
    hide ScalarScan, ParseObject, ParseArray, Events, Says, Written;
    if Peek(t, pos) == '{' {
      s, v := ObjectSource(t, cf, pos, log);
    } else if Peek(t, pos) == '[' {
      s, v := ArraySource(t, cf, pos, log);
    } else {
      s, v := ScalarSource(t, cf, pos, log);
    }
  }

  lemma HasLetter(t: bytes, pos: nat, c: byte)
    requires Peek(t, pos) == c != '\0' || (pos < |t| && t[pos] == c)
    ensures pos < |t| && t[pos] == c && Has(t, pos, [c])
  {
  }

  lemma {:induction false} ArraySource(t: bytes, cf: Config, pos: nat, log: seq<Event>) returns (s: Source, v: Value)
    requires pos < |t| && t[pos] == '[' && ParseArray(t, cf, pos, log).At?
    ensures Says(cf, s, v) && Has(t, pos, Written(s))
    ensures ParseArray(t, cf, pos, log) == At(pos + |Written(s)|, log + Events(v))
    decreases |t| - pos, 0
  {
    hide *;
    var started := log + [StartArray];
    var g := GapScan(t, cf, pos + 1, started);
    ArrayStep(t, cf, pos, log);
    var fs := TokenGap(t, cf, pos + 1, started);
    var items, end, vs := [], End(false, fs), [];
    NoneSay(cf);
    EmptyTail(cf, end);
    if Peek(t, g.pos) == ']' {
      HasLetter(t, g.pos, ']');
    } else {
      items, end, vs := ElementsSource(t, cf, g.pos, started, 0, fs);
    }
    s, v := Items(items, end), Array(vs);
    ArrayWritten(items, end, fs);
    HasLetter(t, pos, '[');
    HasConcat(t, pos, "[", ItemsText(items, end));
    HasConcat(t, pos + 1, FillingText(fs), if items == [] then "]" else ItemsRest(items, end));
    ArrayEvents(log, vs);
    SaysArray(cf, items, end, vs);
  }

  /** The array parser by one step. */
  lemma ArrayStep(t: bytes, cf: Config, pos: nat, log: seq<Event>)
    requires pos < |t|
    ensures var g := GapScan(t, cf, pos + 1, log + [StartArray]);
            && (ParseArray(t, cf, pos, log).At? ==> g.At? && Peek(t, g.pos) != '\0')
            && (g.At? ==> g.log == log + [StartArray] && g.pos <= |t|)
            && (g.At? && Peek(t, g.pos) == ']' ==>
                  g.pos < |t| && ParseArray(t, cf, pos, log) == At(g.pos + 1, log + [StartArray] + [EndArray(0)]))
            && (g.At? && Peek(t, g.pos) != ']' ==>
                  ParseArray(t, cf, pos, log) == Elements(t, cf, g.pos, log + [StartArray], 0))
  {
    hide Gap, ElementsAfter;
    var g := GapScan(t, cf, pos + 1, log + [StartArray]);
    if g.At? && Peek(t, g.pos) == '\0' {
      NothingRead(t, cf, g.pos, g.log);
      assert Elements(t, cf, g.pos, g.log, 0).Failed?;
    }
  }

  lemma NothingRead(t: bytes, cf: Config, pos: nat, log: seq<Event>)
    requires pos <= |t| && Peek(t, pos) == '\0'
    ensures ParseValue(t, cf, pos, log).Failed?
  {
  }

  lemma ArrayWritten(items: seq<Item>, end: End, fs: seq<Filler>)
    requires items == [] ==> end.gap == fs
    requires items != [] ==> items[0].before == fs
    ensures Written(Items(items, end)) == "[" + ItemsText(items, end)
    ensures ItemsText(items, end) == FillingText(fs) + if items == [] then "]" else ItemsRest(items, end)
  {
  }

  lemma ArrayEvents(log: seq<Event>, vs: seq<Value>)
    ensures log + [StartArray] + ElementEvents(vs) + [EndArray(Size32(0 + |vs|))] == log + Events(Array(vs))
    ensures vs == [] ==> log + [StartArray] + [EndArray(0)] == log + Events(Array(vs))
  {
    hide Size32;
    JsonSound.Enclosed(log, StartArray, ElementEvents(vs), EndArray(Size32(|vs|)));
  }

  lemma SaysArray(cf: Config, items: seq<Item>, end: End, vs: seq<Value>)
    ensures Says(cf, Items(items, end), Array(vs)) <==> EndOk(cf, end, items != []) && AllSay(cf, items, vs)
  {
  }

  lemma NoneSay(cf: Config)
    ensures AllSay(cf, [], []) && FieldsSay(cf, [], [])
  {
  }

  /** The element loop by one step: an element and the gap after it. */
  lemma ElementsStep(t: bytes, cf: Config, pos: nat, log: seq<Event>, count: nat)
    requires pos <= |t| && Elements(t, cf, pos, log, count).At?
    ensures var v := ParseValue(t, cf, pos, log);
            && v.At? && v.pos <= |t|
            && var g := GapScan(t, cf, v.pos, v.log);
               && g.At? && g.log == v.log && g.pos <= |t| && (Peek(t, g.pos) == ']' || Peek(t, g.pos) == ',')
               && Elements(t, cf, pos, log, count) == ElementsAfter(t, cf, g.pos, v.log, count)
  {
    hide Gap, ParseValue;
  }

  /** What follows an element, by one step. */
  lemma ElementsAfterStep(t: bytes, cf: Config, pos: nat, log: seq<Event>, count: nat)
    requires pos <= |t| && ElementsAfter(t, cf, pos, log, count).At?
    ensures pos < |t| && (t[pos] == ']' || t[pos] == ',')
    ensures t[pos] == ']' ==> ElementsAfter(t, cf, pos, log, count) == At(pos + 1, log + [EndArray(Inc32(count))])
    ensures t[pos] == ',' ==>
              var g := GapScan(t, cf, pos + 1, log);
              && g.At? && g.log == log && pos < g.pos <= |t| && Peek(t, g.pos) != '\0'
              && if cf.trailingCommas && Peek(t, g.pos) == ']' then
                   g.pos < |t| && ElementsAfter(t, cf, pos, log, count) == At(g.pos + 1, log + [EndArray(Inc32(count))])
                 else
                   ElementsAfter(t, cf, pos, log, count) == Elements(t, cf, g.pos, log, Inc32(count))
  {
    hide Gap, ParseValue;
    if t[pos] == ',' {
      var g := GapScan(t, cf, pos + 1, log);
      if g.At? && Peek(t, g.pos) == '\0' {
        NothingRead(t, cf, g.pos, log);
      }
    }
  }

  lemma {:induction false} ElementsSource(t: bytes, cf: Config, pos: nat, log: seq<Event>, count: nat,
                                          before: seq<Filler>)
    returns (items: seq<Item>, end: End, vs: seq<Value>)
    requires pos <= |t| && Elements(t, cf, pos, log, count).At? && count < 0x1_0000_0000
    requires Filling(before, cf.comments)
    ensures items != [] && items[0].before == before && AllSay(cf, items, vs) && EndOk(cf, end, true)
    ensures Has(t, pos, ItemsRest(items, end))
    ensures Elements(t, cf, pos, log, count)
         == At(pos + |ItemsRest(items, end)|, log + ElementEvents(vs) + [EndArray(Size32(count + |vs|))])
    decreases |t| - pos, 2
  {
    hide *;
    ElementsStep(t, cf, pos, log, count);
    var r := ParseValue(t, cf, pos, log);
    var g := GapScan(t, cf, r.pos, r.log);
    var s, v := ValueSource(t, cf, pos, log);
    var after := TokenGap(t, cf, r.pos, r.log);
    var rest, more;
    rest, end, more := TailSource(t, cf, g.pos, r.log, count);
    var first := Item(before, s, after);
    items, vs := [first] + rest, [v] + more;
    FirstItem(cf, first, rest, end, v, more);
    HasConcat(t, r.pos, FillingText(after), ItemsTail(rest, end));
    HasConcat(t, pos, Written(s), FillingText(after) + ItemsTail(rest, end));
    FirstEvents(log, v, more, EndArray(Size32(count + |vs|)));
  }

  lemma FirstItem(cf: Config, first: Item, rest: seq<Item>, end: End, v: Value, more: seq<Value>)
    ensures var items := [first] + rest;
            && items != [] && items[0] == first && items[1..] == rest
            && ItemsRest(items, end) == Written(first.value) + (FillingText(first.after) + ItemsTail(rest, end))
            && (AllSay(cf, items, [v] + more) <==> ItemSays(cf, first, v) && AllSay(cf, rest, more))
    ensures ItemSays(cf, first, v) <==>
              Filling(first.before, cf.comments) && Filling(first.after, cf.comments) && Says(cf, first.value, v)
  {
    hide Written, FillingText, ItemsTail, Says, Filling, ItemSays;
    var items, vs := [first] + rest, [v] + more;
    assert items[1..] == rest;
    ItemSaysExact(cf, first, v);
    if AllSay(cf, items, vs) {
      assert ItemSays(cf, items[0], vs[0]);
      forall k | 0 <= k < |rest| ensures ItemSays(cf, rest[k], more[k]) {
        assert ItemSays(cf, items[k + 1], vs[k + 1]);
      }
    }
  }

  lemma ItemSaysExact(cf: Config, i: Item, v: Value)
    ensures ItemSays(cf, i, v) <==>
              Filling(i.before, cf.comments) && Filling(i.after, cf.comments) && Says(cf, i.value, v)
  {
    hide Filling, Says;
  }

  lemma FirstEvents(log: seq<Event>, v: Value, more: seq<Value>, e: Event)
    ensures log + Events(v) + ElementEvents(more) + [e] == log + ElementEvents([v] + more) + [e]
  {
    hide Events;
    assert ([v] + more)[1..] == more;
    assert log + Events(v) + ElementEvents(more) + [e] == log + (Events(v) + ElementEvents(more)) + [e];
  }

  lemma Counted32(count: nat, n: nat)
    ensures Inc32(count) == Size32(count + 1 + 0)
    ensures count < 0x1_0000_0000 ==> Size32(Inc32(count) + n) == Size32(count + 1 + n)
  {
  }

  /** What follows an element that was read: the other elements, and the end of the array. */
  lemma {:induction false} TailSource(t: bytes, cf: Config, pos: nat, log: seq<Event>, count: nat)
    returns (rest: seq<Item>, end: End, more: seq<Value>)
    requires pos <= |t| && ElementsAfter(t, cf, pos, log, count).At? && count < 0x1_0000_0000
    ensures AllSay(cf, rest, more) && EndOk(cf, end, true) && Has(t, pos, ItemsTail(rest, end))
    ensures ElementsAfter(t, cf, pos, log, count)
         == At(pos + |ItemsTail(rest, end)|, log + ElementEvents(more) + [EndArray(Size32(count + (1 + |more|)))])
    decreases |t| - pos, 3
  {
    hide *;
    ElementsAfterStep(t, cf, pos, log, count);
    rest, end, more := [], End(false, []), [];
    HasLetter(t, pos, t[pos]);
    NoneSay(cf);
    NoEvents(log, EndArray(Inc32(count)));
    Counted32(count, 0);
    if t[pos] == ']' {
      EmptyTail(cf, end);
    } else {
      var g := GapScan(t, cf, pos + 1, log);
      var fs := TokenGap(t, cf, pos + 1, log);
      if cf.trailingCommas && Peek(t, g.pos) == ']' {
        end := End(true, fs);
        EmptyTail(cf, end);
        HasLetter(t, g.pos, ']');
        HasConcat(t, pos + 1, FillingText(fs), "]");
      } else {
        rest, end, more := ElementsSource(t, cf, g.pos, log, Inc32(count), fs);
        Counted32(count, |more|);
        MoreTail(rest, end);
        HasConcat(t, pos + 1, FillingText(fs), ItemsRest(rest, end));
      }
      HasConcat(t, pos, ",", ItemsText(rest, end));
    }
  }

  lemma NoEvents(log: seq<Event>, e: Event)
    ensures log + [e] == log + ElementEvents([]) + [e] == log + MemberEvents([]) + [e]
  {
  }

  lemma EmptyTail(cf: Config, end: End)
    ensures end.comma ==>
              ItemsTail([], end) == "," + ItemsText([], end) && FieldsTail([], end) == "," + FieldsText([], end)
    ensures !end.comma ==> ItemsTail([], end) == "]" && FieldsTail([], end) == "}"
    ensures ItemsText([], end) == FillingText(end.gap) + "]" && FieldsText([], end) == FillingText(end.gap) + "}"
    ensures Filling([], cf.comments)
    ensures EndOk(cf, end, true) <==> Filling(end.gap, cf.comments) && (end.comma ==> cf.trailingCommas)
    ensures EndOk(cf, end, false) <==> Filling(end.gap, cf.comments) && !end.comma
  {
  }

  lemma MoreTail(rest: seq<Item>, end: End)
    requires rest != []
    ensures ItemsTail(rest, end) == "," + ItemsText(rest, end)
    ensures ItemsText(rest, end) == FillingText(rest[0].before) + ItemsRest(rest, end)
  {
  }

  // ---------------------------------------------------------------- the same for objects

  lemma {:induction false} ObjectSource(t: bytes, cf: Config, pos: nat, log: seq<Event>) returns (s: Source, v: Value)
    requires pos < |t| && t[pos] == '{' && ParseObject(t, cf, pos, log).At?
    ensures Says(cf, s, v) && Has(t, pos, Written(s))
    ensures ParseObject(t, cf, pos, log) == At(pos + |Written(s)|, log + Events(v))
    decreases |t| - pos, 0
  {
    hide *;
    var started := log + [StartObject];
    var g := GapScan(t, cf, pos + 1, started);
    ObjectStep(t, cf, pos, log);
    var fs := TokenGap(t, cf, pos + 1, started);
    var fields, end, ms := [], End(false, fs), [];
    NoneSay(cf);
    EmptyTail(cf, end);
    if Peek(t, g.pos) == '}' {
      HasLetter(t, g.pos, '}');
    } else {
      fields, end, ms := MembersSource(t, cf, g.pos, started, 0, fs);
    }
    s, v := Fields(fields, end), Object(ms);
    ObjectWritten(fields, end, fs);
    HasLetter(t, pos, '{');
    HasConcat(t, pos, "{", FieldsText(fields, end));
    HasConcat(t, pos + 1, FillingText(fs), if fields == [] then "}" else FieldsRest(fields, end));
    ObjectEvents(log, ms);
    SaysObject(cf, fields, end, ms);
  }

  lemma ObjectStep(t: bytes, cf: Config, pos: nat, log: seq<Event>)
    requires pos < |t|
    ensures var g := GapScan(t, cf, pos + 1, log + [StartObject]);
            && (ParseObject(t, cf, pos, log).At? ==> g.At? && Peek(t, g.pos) != '\0')
            && (g.At? ==> g.log == log + [StartObject] && g.pos <= |t|)
            && (g.At? && Peek(t, g.pos) == '}' ==>
                  g.pos < |t| && ParseObject(t, cf, pos, log) == At(g.pos + 1, log + [StartObject] + [EndObject(0)]))
            && (g.At? && Peek(t, g.pos) != '}' ==>
                  ParseObject(t, cf, pos, log) == Members(t, cf, g.pos, log + [StartObject], 0))
  {
    hide Gap, MembersAfter;
    var g := GapScan(t, cf, pos + 1, log + [StartObject]);
    if g.At? && Peek(t, g.pos) == '\0' {
      NoMember(t, cf, g.pos, g.log);
      assert Members(t, cf, g.pos, g.log, 0).Failed?;
    }
  }

  lemma ObjectWritten(fields: seq<Field>, end: End, fs: seq<Filler>)
    requires fields == [] ==> end.gap == fs
    requires fields != [] ==> fields[0].before == fs
    ensures Written(Fields(fields, end)) == "{" + FieldsText(fields, end)
    ensures FieldsText(fields, end) == FillingText(fs) + if fields == [] then "}" else FieldsRest(fields, end)
  {
  }

  lemma ObjectEvents(log: seq<Event>, ms: seq<JsonValue.Pair>)
    ensures log + [StartObject] + MemberEvents(ms) + [EndObject(Size32(0 + |ms|))] == log + Events(Object(ms))
    ensures ms == [] ==> log + [StartObject] + [EndObject(0)] == log + Events(Object(ms))
  {
    hide Size32;
    JsonSound.Enclosed(log, StartObject, MemberEvents(ms), EndObject(Size32(|ms|)));
  }

  lemma SaysObject(cf: Config, fields: seq<Field>, end: End, ms: seq<JsonValue.Pair>)
    ensures Says(cf, Fields(fields, end), Object(ms)) <==>
              EndOk(cf, end, fields != []) && FieldsSay(cf, fields, ms)
  {
  }

  /** A member: its name, a colon and its value. */
  lemma MemberStep(t: bytes, cf: Config, pos: nat, log: seq<Event>)
    requires pos <= |t| && Member(t, cf, pos, log).At?
    ensures pos < |t| && t[pos] == '"'
    ensures var key := StringScan(t, pos, log, true);
            && key.At? && key.pos <= |t|
            && var g := GapScan(t, cf, key.pos, key.log);
               && g.At? && g.log == key.log && g.pos < |t| && t[g.pos] == ':'
               && var h := GapScan(t, cf, g.pos + 1, key.log);
                  && h.At? && h.log == key.log && h.pos <= |t| && Peek(t, h.pos) != '\0'
                  && var v := ParseValue(t, cf, h.pos, key.log);
                     && v.At? && v.pos <= |t| && pos < h.pos
                     && Member(t, cf, pos, log) == GapScan(t, cf, v.pos, v.log)
  {
    hide Gap, ParseValue, StringScan;
    var key := StringScan(t, pos, log, true);
    var g := GapScan(t, cf, key.pos, key.log);
    var h := GapScan(t, cf, g.pos + 1, g.log);
    if Peek(t, h.pos) == '\0' {
      NothingRead(t, cf, h.pos, h.log);
    }
  }

  lemma MembersStep(t: bytes, cf: Config, pos: nat, log: seq<Event>, count: nat)
    requires pos <= |t| && Members(t, cf, pos, log, count).At?
    ensures var m := Member(t, cf, pos, log);
            && m.At? && pos < m.pos <= |t| && (Peek(t, m.pos) == '}' || Peek(t, m.pos) == ',')
            && MembersAfter(t, cf, m.pos, m.log, count).At?
            && Members(t, cf, pos, log, count) == MembersAfter(t, cf, m.pos, m.log, count)
  {
    hide Gap, Member;
  }

  lemma MembersAfterStep(t: bytes, cf: Config, pos: nat, log: seq<Event>, count: nat)
    requires pos <= |t| && MembersAfter(t, cf, pos, log, count).At?
    ensures pos < |t| && (t[pos] == '}' || t[pos] == ',')
    ensures t[pos] == '}' ==> MembersAfter(t, cf, pos, log, count) == At(pos + 1, log + [EndObject(Inc32(count))])
    ensures t[pos] == ',' ==>
              var g := GapScan(t, cf, pos + 1, log);
              && g.At? && g.log == log && pos < g.pos <= |t| && Peek(t, g.pos) != '\0'
              && if cf.trailingCommas && Peek(t, g.pos) == '}' then
                   g.pos < |t| && MembersAfter(t, cf, pos, log, count) == At(g.pos + 1, log + [EndObject(Inc32(count))])
                 else
                   MembersAfter(t, cf, pos, log, count) == Members(t, cf, g.pos, log, Inc32(count))
  {
    hide Gap, Member, ParseValue;
    if t[pos] == ',' {
      var g := GapScan(t, cf, pos + 1, log);
      if g.At? && Peek(t, g.pos) == '\0' {
        NoMember(t, cf, g.pos, log);
      }
    }
  }

  lemma NoMember(t: bytes, cf: Config, pos: nat, log: seq<Event>)
    requires pos <= |t| && Peek(t, pos) == '\0'
    ensures Member(t, cf, pos, log).Failed?
  {
  }

  lemma {:induction false} MemberSource(t: bytes, cf: Config, pos: nat, log: seq<Event>, before: seq<Filler>)
    returns (f: Field, m: JsonValue.Pair)
    requires pos <= |t| && Member(t, cf, pos, log).At? && Peek(t, Member(t, cf, pos, log).pos) != '\0'
    requires Filling(before, cf.comments)
    ensures f.before == before && FieldSays(cf, f, m) && Has(t, pos, MemberText(f))
    ensures Member(t, cf, pos, log) == At(pos + |MemberText(f)|, log + [Key(m.name)] + Events(m.value))
    decreases |t| - pos, 0
  {
    hide *;
    MemberStep(t, cf, pos, log);
    var key := StringScan(t, pos, log, true);
    var g := GapScan(t, cf, key.pos, key.log);
    var h := GapScan(t, cf, g.pos + 1, key.log);
    var r := ParseValue(t, cf, h.pos, key.log);
    var name := QuoteSource(t, pos, log, true);
    PeekIs(t, g.pos);
    var middle := TokenGap(t, cf, key.pos, key.log);
    var first := TokenGap(t, cf, g.pos + 1, key.log);
    var s, v := ValueSource(t, cf, h.pos, key.log);
    var after := TokenGap(t, cf, r.pos, r.log);
    f, m := Field(before, name, middle, Item(first, s, after)), JsonValue.Pair(Meaning(name), v);
    HasLetter(t, g.pos, ':');
    FieldSaysExact(cf, f, m);
    ItemSaysExact(cf, f.item, v);
    MemberParts(t, pos, f);
  }

  lemma PeekIs(t: bytes, pos: nat)
    ensures pos < |t| ==> Peek(t, pos) == t[pos]
  {
  }

  lemma FieldSaysExact(cf: Config, f: Field, m: JsonValue.Pair)
    ensures FieldSays(cf, f, m) <==>
              && Filling(f.before, cf.comments) && Filling(f.middle, cf.comments)
              && AllFit(f.name) && m.name == Meaning(f.name) && ItemSays(cf, f.item, m.value)
  {
    hide Filling, AllFit, Meaning, ItemSays;
  }

  /** A member with the gap after it. */
  function MemberText(f: Field): bytes {
    QuoteText(f.name) + (FillingText(f.middle) + (":" + (FillingText(f.item.before) + (Written(f.item.value)
                                                                                        + FillingText(f.item.after)))))
  }

  /** The parts of a member, one after the other. */
  lemma MemberParts(t: bytes, pos: nat, f: Field)
    ensures var a := pos + |QuoteText(f.name)|;
            var b := a + |FillingText(f.middle)|;
            var c := b + 1 + |FillingText(f.item.before)|;
            var d := c + |Written(f.item.value)|;
            && pos + |MemberText(f)| == d + |FillingText(f.item.after)|
            && (Has(t, pos, MemberText(f)) <==>
                  && Has(t, pos, QuoteText(f.name)) && Has(t, a, FillingText(f.middle)) && Has(t, b, ":")
                  && Has(t, b + 1, FillingText(f.item.before)) && Has(t, c, Written(f.item.value))
                  && Has(t, d, FillingText(f.item.after)))
  {
    hide QuoteText, FillingText, Written, Has;
    var name, middle, first := QuoteText(f.name), FillingText(f.middle), FillingText(f.item.before);
    var value, after := Written(f.item.value), FillingText(f.item.after);
    HasConcat(t, pos, name, middle + (":" + (first + (value + after))));
    var a := pos + |name|;
    HasConcat(t, a, middle, ":" + (first + (value + after)));
    var b := a + |middle|;
    HasConcat(t, b, ":", first + (value + after));
    HasConcat(t, b + 1, first, value + after);
    HasConcat(t, b + 1 + |first|, value, after);
  }

  lemma {:induction false} MembersSource(t: bytes, cf: Config, pos: nat, log: seq<Event>, count: nat,
                                         before: seq<Filler>)
    returns (fields: seq<Field>, end: End, ms: seq<JsonValue.Pair>)
    requires pos <= |t| && Members(t, cf, pos, log, count).At? && count < 0x1_0000_0000
    requires Filling(before, cf.comments)
    ensures fields != [] && fields[0].before == before && FieldsSay(cf, fields, ms) && EndOk(cf, end, true)
    ensures Has(t, pos, FieldsRest(fields, end))
    ensures Members(t, cf, pos, log, count)
         == At(pos + |FieldsRest(fields, end)|, log + MemberEvents(ms) + [EndObject(Size32(count + |ms|))])
    decreases |t| - pos, 1
  {
    hide *;
    MembersStep(t, cf, pos, log, count);
    var r := Member(t, cf, pos, log);
    var f, m := MemberSource(t, cf, pos, log, before);
    var rest, more;
    rest, end, more := FieldsTailSource(t, cf, r.pos, r.log, count);
    fields, ms := [f] + rest, [m] + more;
    FirstField(cf, f, rest, end, m, more);
    HasConcat(t, pos, MemberText(f), FieldsTail(rest, end));
    FirstMemberEvents(log, m, more, EndObject(Size32(count + |ms|)));
  }

  lemma FirstField(cf: Config, f: Field, rest: seq<Field>, end: End, m: JsonValue.Pair, more: seq<JsonValue.Pair>)
    ensures var fields := [f] + rest;
            && fields != [] && fields[0] == f && fields[1..] == rest
            && FieldsRest(fields, end) == MemberText(f) + FieldsTail(rest, end)
            && (FieldsSay(cf, fields, [m] + more) <==> FieldSays(cf, f, m) && FieldsSay(cf, rest, more))
  {
    hide Written, FillingText, FieldsTail, QuoteText, FieldSays;
    var fields, ms := [f] + rest, [m] + more;
    assert fields[1..] == rest;
    MemberJoin(f, FieldsTail(rest, end));
    if FieldsSay(cf, fields, ms) {
      assert FieldSays(cf, fields[0], ms[0]);
      forall k | 0 <= k < |rest| ensures FieldSays(cf, rest[k], more[k]) {
        assert FieldSays(cf, fields[k + 1], ms[k + 1]);
      }
    }
  }

  lemma MemberJoin(f: Field, tail: bytes)
    ensures MemberText(f) + tail
         == QuoteText(f.name)
            + (FillingText(f.middle)
               + (":" + (FillingText(f.item.before) + (Written(f.item.value) + (FillingText(f.item.after) + tail)))))
  {
    hide Written, FillingText, QuoteText;
    var name, middle, first := QuoteText(f.name), FillingText(f.middle), FillingText(f.item.before);
    var value, after := Written(f.item.value), FillingText(f.item.after);
    Regroup(value, after, tail);
    Regroup(first, value + after, tail);
    Regroup(":", first + (value + after), tail);
    Regroup(middle, ":" + (first + (value + after)), tail);
    Regroup(name, middle + (":" + (first + (value + after))), tail);
  }

  lemma Regroup(a: bytes, b: bytes, c: bytes)
    ensures a + b + c == a + (b + c)
  {
  }

  lemma FirstMemberEvents(log: seq<Event>, m: JsonValue.Pair, more: seq<JsonValue.Pair>, e: Event)
    ensures log + [Key(m.name)] + Events(m.value) + MemberEvents(more) + [e] == log + MemberEvents([m] + more) + [e]
  {
    hide Events;
    assert ([m] + more)[1..] == more;
    assert log + [Key(m.name)] + Events(m.value) + MemberEvents(more) + [e]
        == log + ([Key(m.name)] + Events(m.value) + MemberEvents(more)) + [e];
  }

  lemma {:induction false} FieldsTailSource(t: bytes, cf: Config, pos: nat, log: seq<Event>, count: nat)
    returns (rest: seq<Field>, end: End, more: seq<JsonValue.Pair>)
    requires pos <= |t| && MembersAfter(t, cf, pos, log, count).At? && count < 0x1_0000_0000
    ensures FieldsSay(cf, rest, more) && EndOk(cf, end, true) && Has(t, pos, FieldsTail(rest, end))
    ensures MembersAfter(t, cf, pos, log, count)
         == At(pos + |FieldsTail(rest, end)|, log + MemberEvents(more) + [EndObject(Size32(count + (1 + |more|)))])
    decreases |t| - pos, 3
  {
    hide *;
    MembersAfterStep(t, cf, pos, log, count);
    rest, end, more := [], End(false, []), [];
    HasLetter(t, pos, t[pos]);
    NoneSay(cf);
    NoEvents(log, EndObject(Inc32(count)));
    Counted32(count, 0);
    if t[pos] == '}' {
      EmptyTail(cf, end);
    } else {
      var g := GapScan(t, cf, pos + 1, log);
      var fs := TokenGap(t, cf, pos + 1, log);
      if cf.trailingCommas && Peek(t, g.pos) == '}' {
        end := End(true, fs);
        EmptyTail(cf, end);
        HasLetter(t, g.pos, '}');
        HasConcat(t, pos + 1, FillingText(fs), "}");
      } else {
        rest, end, more := MembersSource(t, cf, g.pos, log, Inc32(count), fs);
        Counted32(count, |more|);
        MoreFieldsTail(rest, end);
        HasConcat(t, pos + 1, FillingText(fs), FieldsRest(rest, end));
      }
      HasConcat(t, pos, ",", FieldsText(rest, end));
    }
  }

  lemma MoreFieldsTail(rest: seq<Field>, end: End)
    requires rest != []
    ensures FieldsTail(rest, end) == "," + FieldsText(rest, end)
    ensures FieldsText(rest, end) == FillingText(rest[0].before) + FieldsRest(rest, end)
  {
  }
}
