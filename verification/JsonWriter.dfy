/** The writers: a stack of levels, and the text that each event appends. */
module JsonWriter {
  import opened Bytes
  import opened Decimals
  import opened JsonTypes
  import opened JsonScan
  import opened JsonValue

  /** The plain writer, or the pretty writer with its settings. */
  datatype Style = Compact | Pretty(indentChar: byte, indentCharCount: nat, singleLineArray: bool)

  /** SetIndent accepts white space only. */
  predicate StyleOk(style: Style) {
    style.Pretty? ==> IsBlank(style.indentChar)
  }

  datatype Level = Level(valueCount: nat, inArray: bool)

  /** The levels have the innermost first. */
  datatype Output = Output(text: bytes, levels: seq<Level>, hasRoot: bool)

  // ---------------------------------------------------------------- leaves

  /** A byte of a string as it is written. */
  function EscapeByte(c: byte): (r: bytes)
    ensures r != []
  {
    if c == '"' then "\\\""
    else if c == '\\' then "\\\\"
    else if c == 8 as char then "\\b"
    else if c == '\t' then "\\t"
    else if c == '\n' then "\\n"
    else if c == 12 as char then "\\f"
    else if c == '\r' then "\\r"
    else if c < ' ' then "\\u00" + [HexDigit(c as int / 16, true), HexDigit(c as int % 16, true)]
    else [c]
  }

  function Escaped(s: bytes): bytes {
    if s == [] then [] else EscapeByte(s[0]) + Escaped(s[1..])
  }

  function Quoted(s: bytes): bytes {
    "\"" + Escaped(s) + "\""
  }

  /** The text of a leaf. A double stands for the text it was read from. */
  function LeafText(e: Event): bytes {
    match e
    case Bool(b) => if b then "true" else "false"
    case Int(i) => SignedDec(i)
    case Uint(u) => Dec(u)
    case Int64(i) => SignedDec(i)
    case Uint64(u) => Dec(u)
    case Double(literal) => literal
    case String(s) => Quoted(s)
    case _ => "null"
  }

  // ---------------------------------------------------------------- between values

  function Repeat(c: byte, n: nat): bytes {
    seq(n, _ => c)
  }

  /** A new line, indented for `depth` levels. */
  function NewLine(style: Style, depth: nat): bytes
    requires style.Pretty?
  {
    "\n" + Repeat(style.indentChar, depth * style.indentCharCount)
  }

  /** The comma or colon before the next value of a level. */
  function Mark(level: Level): bytes {
    if level.valueCount == 0 then "" else if level.inArray || level.valueCount % 2 == 0 then "," else ":"
  }

  /** The white space before the next value of the innermost of `depth` levels. */
  function Space(style: Style, level: Level, depth: nat): bytes {
    if style.Compact? then ""
    else if level.inArray then
      if !style.singleLineArray then NewLine(style, depth) else if level.valueCount > 0 then " " else ""
    else if level.valueCount % 2 == 0 then NewLine(style, depth)
    else " "
  }

  /** The white space before the closing bracket of a level, when `depth` levels are left. */
  function ClosingSpace(style: Style, level: Level, depth: nat): bytes {
    if style.Compact? || level.valueCount == 0 || (level.inArray && style.singleLineArray) then ""
    else NewLine(style, depth)
  }

  /** The assertions of Prefix: only one root, and a name where a member starts. */
  predicate MayBegin(o: Output, isString: bool) {
    if o.levels == [] then !o.hasRoot
    else o.levels[0].inArray || o.levels[0].valueCount % 2 == 1 || isString
  }

  /** Prefix and PrettyPrefix. */
  function Begin(style: Style, o: Output): Output {
    if o.levels == [] then o.(hasRoot := true)
    else
      var level := o.levels[0];
      Output(o.text + Mark(level) + Space(style, level, |o.levels|),
             [level.(valueCount := level.valueCount + 1)] + o.levels[1..], o.hasRoot)
  }

  function Open(style: Style, o: Output, inArray: bool): Output {
    var b := Begin(style, o);
    Output(b.text + (if inArray then "[" else "{"), [Level(0, inArray)] + b.levels, b.hasRoot)
  }

  function Shut(style: Style, o: Output): Output
    requires o.levels != []
  {
    var level := o.levels[0];
    Output(o.text + ClosingSpace(style, level, |o.levels| - 1) + (if level.inArray then "]" else "}"),
           o.levels[1..], o.hasRoot)
  }

  /** One event; `None` if it would break an assertion. A name is written like a string. */
  function Write(style: Style, o: Output, e: Event): Option<Output> {
    match e
    case StartObject => if MayBegin(o, false) then Some(Open(style, o, false)) else None
    case StartArray => if MayBegin(o, false) then Some(Open(style, o, true)) else None
    case EndObject(_) => if o.levels != [] && !o.levels[0].inArray then Some(Shut(style, o)) else None
    case EndArray(_) => if o.levels != [] && o.levels[0].inArray then Some(Shut(style, o)) else None
    case Key(name) =>
      if MayBegin(o, true) then var b := Begin(style, o); Some(b.(text := b.text + Quoted(name))) else None
    case _ =>
      if MayBegin(o, e.String?) then var b := Begin(style, o); Some(b.(text := b.text + LeafText(e))) else None
  }

  function WriteAll(style: Style, o: Output, evs: seq<Event>): Option<Output>
    decreases |evs|
  {
    if evs == [] then Some(o)
    else if Write(style, o, evs[0]).None? then None
    else WriteAll(style, Write(style, o, evs[0]).value, evs[1..])
  }

  // ---------------------------------------------------------------- the text of a value

  /** The text of a value inside `depth` levels. */
  function Render(style: Style, depth: nat, v: Value): bytes
    decreases v
  {
    match v
    case Leaf(e) => LeafText(e)
    case Array(vs) =>
      "[" + RenderElements(style, depth + 1, vs, 0) + ClosingSpace(style, Level(|vs|, true), depth) + "]"
    case Object(ms) =>
      "{" + RenderMembers(style, depth + 1, ms, 0) + ClosingSpace(style, Level(2 * |ms|, false), depth) + "}"
  }

  /** Elements after `i` others, each with what comes before it. */
  function RenderElements(style: Style, depth: nat, vs: seq<Value>, i: nat): bytes
    decreases vs
  {
    if vs == [] then []
    else
      Mark(Level(i, true)) + Space(style, Level(i, true), depth) + Render(style, depth, vs[0])
      + RenderElements(style, depth, vs[1..], i + 1)
  }

  /** The text between a name and the value after it. */
  function ColonText(style: Style, depth: nat): bytes {
    ":" + if style.Compact? then "" else " "
  }

  function RenderMembers(style: Style, depth: nat, ms: seq<Pair>, i: nat): bytes
    decreases ms
  {
    if ms == [] then []
    else
      Mark(Level(2 * i, false)) + Space(style, Level(2 * i, false), depth)
      + Quoted(ms[0].name) + ColonText(style, depth) + Render(style, depth, ms[0].value)
      + RenderMembers(style, depth, ms[1..], i + 1)
  }

  // ---------------------------------------------------------------- writing the events of a value

  lemma {:induction false} WriteConcat(style: Style, o: Output, a: seq<Event>, b: seq<Event>)
    requires WriteAll(style, o, a).Some?
    ensures WriteAll(style, o, a + b) == WriteAll(style, WriteAll(style, o, a).value, b)
    decreases |a|
  {
    hide Write;
    if a == [] {
      assert a + b == b;
    } else {
      assert (a + b)[1..] == a[1..] + b;
      WriteConcat(style, Write(style, o, a[0]).value, a[1..], b);
    }
  }

  lemma WriteOne(style: Style, o: Output, e: Event)
    ensures WriteAll(style, o, [e]) == Write(style, o, e)
  {
    hide Write;
    if Write(style, o, e).Some? {
      assert WriteAll(style, Write(style, o, e).value, [e][1..]) == Write(style, o, e);
    }
  }

  /** The output with more text at its end. */
  function Append(o: Output, w: bytes): Output {
    o.(text := o.text + w)
  }

  lemma WriteEnclosed(style: Style, o: Output, start: Event, inside: Output, evs: seq<Event>, full: Output, end: Event)
    requires Write(style, o, start) == Some(inside) && WriteAll(style, inside, evs) == Some(full)
    ensures WriteAll(style, o, [start] + evs + [end]) == Write(style, full, end)
  {
    hide Write, WriteAll;
    WriteOne(style, o, start);
    WriteConcat(style, o, [start], evs);
    WriteConcat(style, o, [start] + evs, [end]);
    WriteOne(style, full, end);
  }

  /** Writing the events of a value appends its text, and leaves the levels as they were but for one more value. */
  lemma {:induction false} WriteValue(style: Style, o: Output, v: Value)
    requires ValueOk(v) && MayBegin(o, false)
    ensures WriteAll(style, o, Events(v)) == Some(Append(Begin(style, o), Render(style, |o.levels|, v)))
    decreases v, 0
  {
    hide Begin, Mark, Space, ClosingSpace, WriteAll, RenderElements, RenderMembers, ElementEvents, MemberEvents;
    var b := Begin(style, o);
    BeginDepth(style, o);
    match v
    case Leaf(e) => WriteOne(style, o, e);
    case Array(vs) =>
      var inside := Open(style, o, true);
      WriteElements(style, inside, vs, b.levels);
      var full := WriteAll(style, inside, ElementEvents(vs)).value;
      WriteEnclosed(style, o, StartArray, inside, ElementEvents(vs), full, EndArray(|vs|));
      ShutText(style, b, "[", RenderElements(style, |o.levels| + 1, vs, 0), Level(|vs|, true));
    case Object(ms) =>
      var inside := Open(style, o, false);
      WriteMembers(style, inside, ms, b.levels);
      var full := WriteAll(style, inside, MemberEvents(ms)).value;
      WriteEnclosed(style, o, StartObject, inside, MemberEvents(ms), full, EndObject(|ms|));
      ShutText(style, b, "{", RenderMembers(style, |o.levels| + 1, ms, 0), Level(2 * |ms|, false));
  }

  lemma BeginDepth(style: Style, o: Output)
    ensures |Begin(style, o).levels| == |o.levels|
  {
  }

  lemma ShutText(style: Style, b: Output, open: bytes, inside: bytes, level: Level)
    ensures Shut(style, Output(b.text + open + inside, [level] + b.levels, b.hasRoot))
         == Append(b, open + inside + ClosingSpace(style, level, |b.levels|) + (if level.inArray then "]" else "}"))
  {
    var space, end := ClosingSpace(style, level, |b.levels|), if level.inArray then "]" else "}";
    assert b.text + open + inside + space + end == b.text + (open + inside + space + end);
    assert ([level] + b.levels)[1..] == b.levels;
  }

  /** The text of one element, with what comes before it. */
  function ElementText(style: Style, depth: nat, v: Value, i: nat): bytes {
    Mark(Level(i, true)) + Space(style, Level(i, true), depth) + Render(style, depth, v)
  }

  lemma ElementsText(style: Style, text: bytes, depth: nat, vs: seq<Value>, i: nat)
    requires vs != []
    ensures text + ElementText(style, depth, vs[0], i) + RenderElements(style, depth, vs[1..], i + 1)
         == text + RenderElements(style, depth, vs, i)
  {
    hide Mark, Space, Render;
  }

  lemma {:induction false} WriteElement(style: Style, o: Output, v: Value, below: seq<Level>)
    requires o.levels != [] && o.levels[0].inArray && o.levels[1..] == below && ValueOk(v)
    ensures var i := o.levels[0].valueCount;
            WriteAll(style, o, Events(v))
            == Some(Output(o.text + ElementText(style, |o.levels|, v, i), [Level(i + 1, true)] + below, o.hasRoot))
    decreases v, 1
  {
    hide Mark, Space, All, Render, Events, WriteAll;
    WriteValue(style, o, v);
    var r := Append(Begin(style, o), Render(style, |o.levels|, v));
    assert r.text == o.text + ElementText(style, |o.levels|, v, o.levels[0].valueCount);
  }

  lemma {:induction false} WriteElements(style: Style, o: Output, vs: seq<Value>, below: seq<Level>)
    requires o.levels != [] && o.levels[0].inArray && o.levels[1..] == below
    requires forall k :: 0 <= k < |vs| ==> ValueOk(vs[k])
    ensures var i := o.levels[0].valueCount;
            WriteAll(style, o, ElementEvents(vs))
            == Some(Output(o.text + RenderElements(style, |o.levels|, vs, i), [Level(i + |vs|, true)] + below,
                           o.hasRoot))
    decreases vs
  {
    hide Mark, Space, All, Render, Events, WriteAll, ElementText, RenderElements;
    var i := o.levels[0].valueCount;
    if vs == [] {
      WriteNothing(style, o, i, below);
    } else {
      WriteElement(style, o, vs[0], below);
      var next := WriteAll(style, o, Events(vs[0])).value;
      assert next.levels[1..] == below;
      WriteElements(style, next, vs[1..], below);
      WriteConcat(style, o, Events(vs[0]), ElementEvents(vs[1..]));
      ElementsText(style, o.text, |o.levels|, vs, i);
    }
  }

  lemma WriteNothing(style: Style, o: Output, i: nat, below: seq<Level>)
    requires o.levels != [] && o.levels[0] == Level(i, true) && o.levels[1..] == below
    ensures WriteAll(style, o, ElementEvents([]))
         == Some(Output(o.text + RenderElements(style, |o.levels|, [], i), o.levels, o.hasRoot))
    ensures o.levels == [Level(i, true)] + below
  {
    assert o.text + [] == o.text;
  }

  lemma {:induction false} WriteMembers(style: Style, o: Output, ms: seq<Pair>, below: seq<Level>)
    requires o.levels != [] && !o.levels[0].inArray && o.levels[0].valueCount % 2 == 0 && o.levels[1..] == below
    requires forall k :: 0 <= k < |ms| ==> ValueOk(ms[k].value)
    ensures var n := o.levels[0].valueCount;
            WriteAll(style, o, MemberEvents(ms))
            == Some(Output(o.text + RenderMembers(style, |o.levels|, ms, n / 2),
                           [Level(n + 2 * |ms|, false)] + below, o.hasRoot))
    decreases ms
  {
    hide Mark, Space, All, Render, Events, Write, WriteAll, RenderMembers;
    var n := o.levels[0].valueCount;
    if ms == [] {
      WriteNone(style, o, n, below);
    } else {
      WriteMember(style, o, ms[0], below);
      var next := WriteAll(style, o, [Key(ms[0].name)] + Events(ms[0].value)).value;
      assert next.levels[1..] == below;
      WriteMembers(style, next, ms[1..], below);
      WriteConcat(style, o, [Key(ms[0].name)] + Events(ms[0].value), MemberEvents(ms[1..]));
      MembersText(style, o.text, |o.levels|, ms, n / 2);
    }
  }

  lemma WriteNone(style: Style, o: Output, n: nat, below: seq<Level>)
    requires o.levels != [] && o.levels[0] == Level(n, false) && o.levels[1..] == below
    ensures WriteAll(style, o, MemberEvents([]))
         == Some(Output(o.text + RenderMembers(style, |o.levels|, [], n / 2), o.levels, o.hasRoot))
    ensures o.levels == [Level(n, false)] + below
  {
    assert o.text + [] == o.text;
  }

  /** The text of one member, with what comes before it. */
  function MemberText(style: Style, depth: nat, m: Pair, i: nat): bytes {
    Mark(Level(2 * i, false)) + Space(style, Level(2 * i, false), depth)
    + Quoted(m.name) + ColonText(style, depth) + Render(style, depth, m.value)
  }

  lemma MembersText(style: Style, text: bytes, depth: nat, ms: seq<Pair>, i: nat)
    requires ms != []
    ensures text + MemberText(style, depth, ms[0], i) + RenderMembers(style, depth, ms[1..], i + 1)
         == text + RenderMembers(style, depth, ms, i)
  {
    hide Mark, Space, Quoted, ColonText, Render;
  }

  /** The output after a name. */
  function Named(style: Style, o: Output, name: bytes): Output {
    Append(Begin(style, o), Quoted(name))
  }

  lemma AfterName(style: Style, o: Output, name: bytes, below: seq<Level>)
    requires o.levels != [] && !o.levels[0].inArray && o.levels[0].valueCount % 2 == 0 && o.levels[1..] == below
    ensures Write(style, o, Key(name)) == Some(Named(style, o, name))
    ensures var n, d := o.levels[0].valueCount, |o.levels|;
            var named := Named(style, o, name);
            && MayBegin(named, false) && |named.levels| == d && named.hasRoot == o.hasRoot
            && named.text == o.text + Mark(Level(n, false)) + Space(style, Level(n, false), d) + Quoted(name)
            && Begin(style, named).text == named.text + ColonText(style, d)
            && Begin(style, named).levels == [Level(n + 2, false)] + below
  {
    hide Quoted, NewLine;
    var named := Named(style, o, name);
    assert named.levels[1..] == below;
    if style.Compact? {
      assert ":" + "" == ":";
    }
  }

  lemma {:induction false} WriteMember(style: Style, o: Output, m: Pair, below: seq<Level>)
    requires o.levels != [] && !o.levels[0].inArray && o.levels[0].valueCount % 2 == 0 && o.levels[1..] == below
    requires ValueOk(m.value)
    ensures var n := o.levels[0].valueCount;
            WriteAll(style, o, [Key(m.name)] + Events(m.value))
            == Some(Output(o.text + MemberText(style, |o.levels|, m, n / 2), [Level(n + 2, false)] + below, o.hasRoot))
    decreases m, 0
  {
    hide All, Render, Events, WriteAll, Write, Quoted, Named, Mark, Space, ColonText, MayBegin;
    var n, d := o.levels[0].valueCount, |o.levels|;
    var named := Named(style, o, m.name);
    AfterName(style, o, m.name, below);
    WriteOne(style, o, Key(m.name));
    WriteValue(style, named, m.value);
    WriteConcat(style, o, [Key(m.name)], Events(m.value));
    var name := Mark(Level(n, false)) + Space(style, Level(n, false), d) + Quoted(m.name);
    assert n == 2 * (n / 2) && Level(2 * (n / 2), false) == Level(n, false);
    assert named.text == o.text + name;
    assert o.text + name + ColonText(style, d) + Render(style, d, m.value)
        == o.text + MemberText(style, d, m, n / 2);
  }

  /** The text of a root value. */
  lemma WriteRoot(style: Style, v: Value)
    requires ValueOk(v)
    ensures WriteAll(style, Output([], [], false), Events(v)) == Some(Output(Render(style, 0, v), [], true))
  {
    hide Render, Events, WriteAll, All;
    WriteValue(style, Output([], [], false), v);
    assert [] + Render(style, 0, v) == Render(style, 0, v);
  }
}
