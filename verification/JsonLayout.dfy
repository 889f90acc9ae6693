/** What the text of a value looks like: its lines, its indentation and its blanks. */
module JsonLayout {
  import opened Bytes
  import opened JsonTypes
  import opened JsonValue
  import opened JsonWriter
  import opened JsonSpelling

  /** The start of a line that is indented for `depth` levels. */
  function Line(style: Style, depth: nat): bytes
    requires style.Pretty?
  {
    [10 as char] + seq(depth * style.indentCharCount, _ => style.indentChar)
  }

  /** Texts with a separator between each two of them. */
  function Join(parts: seq<bytes>, separator: bytes): bytes {
    if parts == [] then []
    else if |parts| == 1 then parts[0]
    else parts[0] + separator + Join(parts[1..], separator)
  }

  /** The parts of a container inside its brackets, each on a line of its own; nothing if there are none. */
  function Block(style: Style, depth: nat, parts: seq<bytes>): bytes
    requires style.Pretty?
  {
    if parts == [] then []
    else Line(style, depth + 1) + Join(parts, "," + Line(style, depth + 1)) + Line(style, depth)
  }

  /** The text of a value inside `depth` levels. */
  function Layout(style: Style, depth: nat, v: Value): bytes
    decreases v
  {
    match v
    case Leaf(e) => LeafText(e)
    case Array(vs) =>
      var parts := ElementParts(style, depth + 1, vs);
      "[" + (if style.Compact? then Join(parts, ",")
             else if style.singleLineArray then Join(parts, ", ")
             else Block(style, depth, parts)) + "]"
    case Object(ms) =>
      var parts := MemberParts(style, depth + 1, ms);
      "{" + (if style.Compact? then Join(parts, ",") else Block(style, depth, parts)) + "}"
  }

  function ElementParts(style: Style, depth: nat, vs: seq<Value>): (r: seq<bytes>)
    ensures |r| == |vs|
    decreases vs
  {
    if vs == [] then [] else [Layout(style, depth, vs[0])] + ElementParts(style, depth, vs[1..])
  }

  /** Each member: its name, a colon, a blank when the text is pretty, and its value. */
  function MemberParts(style: Style, depth: nat, ms: seq<JsonValue.Pair>): (r: seq<bytes>)
    ensures |r| == |ms|
    decreases ms
  {
    if ms == [] then []
    else [Quoted(ms[0].name) + (if style.Compact? then ":" else ": ") + Layout(style, depth, ms[0].value)]
         + MemberParts(style, depth, ms[1..])
  }

  // ---------------------------------------------------------------- the writer's text has this layout

  lemma JoinMore(first: bytes, rest: seq<bytes>, separator: bytes)
    ensures Join([first] + rest, separator) == first + if rest == [] then [] else separator + Join(rest, separator)
  {
    assert ([first] + rest)[1..] == rest;
  }

  /** What stands between two elements. */
  function ElementSeparator(style: Style, depth: nat): bytes {
    if style.Compact? then "," else if style.singleLineArray then ", " else "," + Line(style, depth)
  }

  function MemberSeparator(style: Style, depth: nat): bytes {
    if style.Compact? then "," else "," + Line(style, depth)
  }

  lemma SpaceIs(style: Style, depth: nat, i: nat)
    ensures var w := Mark(Level(i, true)) + Space(style, Level(i, true), depth);
            w == if i > 0 then ElementSeparator(style, depth)
                 else if style.Compact? || style.singleLineArray then [] else Line(style, depth)
    ensures var w := Mark(Level(2 * i, false)) + Space(style, Level(2 * i, false), depth);
            w == if i > 0 then MemberSeparator(style, depth) else if style.Compact? then [] else Line(style, depth)
    ensures ColonText(style, depth) == if style.Compact? then ":" else ": "
    ensures style.Pretty? ==> NewLine(style, depth) == Line(style, depth)
  {
  }

  lemma {:induction false} RenderIsLayout(style: Style, depth: nat, v: Value)
    ensures Render(style, depth, v) == Layout(style, depth, v)
    decreases v, 1
  {
    hide *;
    match v
    case Leaf(e) => LeafLaid(style, depth, e);
    case Array(vs) =>
      ElementsLaid(style, depth + 1, vs, 0);
      ArrayLaid(style, depth, vs);
    case Object(ms) =>
      MembersLaid(style, depth + 1, ms, 0);
      ObjectLaid(style, depth, ms);
  }

  lemma LeafLaid(style: Style, depth: nat, e: Event)
    ensures Render(style, depth, Leaf(e)) == Layout(style, depth, Leaf(e)) == LeafText(e)
  {
    hide LeafText;
  }

  /** The text inside the brackets of a container: its parts, which a line or nothing comes before and behind. */
  function Inside(lead: bytes, parts: seq<bytes>, separator: bytes, close: bytes): bytes {
    if parts == [] then [] else lead + Join(parts, separator) + close
  }

  lemma ArrayRendered(style: Style, depth: nat, vs: seq<Value>)
    ensures var alone := style.Pretty? && !style.singleLineArray && vs != [];
            Render(style, depth, Array(vs))
            == "[" + RenderElements(style, depth + 1, vs, 0) + (if alone then NewLine(style, depth) else []) + "]"
  {
    hide RenderElements, NewLine;
  }

  lemma ObjectRendered(style: Style, depth: nat, ms: seq<JsonValue.Pair>)
    ensures var alone := style.Pretty? && ms != [];
            Render(style, depth, Object(ms))
            == "{" + RenderMembers(style, depth + 1, ms, 0) + (if alone then NewLine(style, depth) else []) + "}"
  {
    hide RenderMembers, NewLine;
  }

  lemma ArrayLayout(style: Style, depth: nat, vs: seq<Value>)
    ensures var parts, alone := ElementParts(style, depth + 1, vs), style.Pretty? && !style.singleLineArray;
            Layout(style, depth, Array(vs))
            == "[" + Inside(if alone then Line(style, depth + 1) else [], parts, ElementSeparator(style, depth + 1),
                            if alone then Line(style, depth) else []) + "]"
  {
    hide Join, Line, ElementParts;
    JoinNone();
    var w := Join(ElementParts(style, depth + 1, vs), ElementSeparator(style, depth + 1));
    assert [] + w + [] == w;
  }

  lemma ObjectLayout(style: Style, depth: nat, ms: seq<JsonValue.Pair>)
    ensures var parts := MemberParts(style, depth + 1, ms);
            Layout(style, depth, Object(ms))
            == "{" + Inside(if style.Pretty? then Line(style, depth + 1) else [], parts,
                            MemberSeparator(style, depth + 1), if style.Pretty? then Line(style, depth) else []) + "}"
  {
    hide Join, Line, MemberParts;
    JoinNone();
    var w := Join(MemberParts(style, depth + 1, ms), MemberSeparator(style, depth + 1));
    assert [] + w + [] == w;
  }

  lemma SomeParts(style: Style, depth: nat, vs: seq<Value>, ms: seq<JsonValue.Pair>)
    ensures ElementParts(style, depth, vs) == [] <==> vs == []
    ensures MemberParts(style, depth, ms) == [] <==> ms == []
  {
    hide Layout;
  }

  lemma ArrayLaid(style: Style, depth: nat, vs: seq<Value>)
    requires RenderElements(style, depth + 1, vs, 0)
          == if vs == [] then []
             else Mark(Level(0, true)) + Space(style, Level(0, true), depth + 1)
                  + Join(ElementParts(style, depth + 1, vs), ElementSeparator(style, depth + 1))
    ensures Render(style, depth, Array(vs)) == Layout(style, depth, Array(vs))
  {
    hide *;
    SpaceIs(style, depth + 1, 0);
    SpaceIs(style, depth, 0);
    ArrayRendered(style, depth, vs);
    ArrayLayout(style, depth, vs);
    SomeParts(style, depth + 1, vs, []);
    var alone := style.Pretty? && !style.singleLineArray;
    InsideBrackets("[", if alone then Line(style, depth + 1) else [], ElementParts(style, depth + 1, vs),
                   ElementSeparator(style, depth + 1), if alone then Line(style, depth) else [], "]");
  }

  /** The brackets around the parts. */
  lemma InsideBrackets(open: bytes, lead: bytes, parts: seq<bytes>, separator: bytes, close: bytes, end: bytes)
    ensures open + Inside(lead, parts, separator, close) + end
         == if parts == [] then open + [] + [] + end else open + (lead + Join(parts, separator)) + close + end
  {
    hide Join;
  }

  lemma ObjectLaid(style: Style, depth: nat, ms: seq<JsonValue.Pair>)
    requires RenderMembers(style, depth + 1, ms, 0)
          == if ms == [] then []
             else Mark(Level(2 * 0, false)) + Space(style, Level(2 * 0, false), depth + 1)
                  + Join(MemberParts(style, depth + 1, ms), MemberSeparator(style, depth + 1))
    ensures Render(style, depth, Object(ms)) == Layout(style, depth, Object(ms))
  {
    hide *;
    SpaceIs(style, depth + 1, 0);
    SpaceIs(style, depth, 0);
    ObjectRendered(style, depth, ms);
    ObjectLayout(style, depth, ms);
    SomeParts(style, depth + 1, [], ms);
    InsideBrackets("{", if style.Pretty? then Line(style, depth + 1) else [], MemberParts(style, depth + 1, ms),
                   MemberSeparator(style, depth + 1), if style.Pretty? then Line(style, depth) else [], "}");
  }

  lemma JoinNone()
    ensures forall separator: bytes :: Join([], separator) == []
  {
  }

  lemma {:induction false} ElementsLaid(style: Style, depth: nat, vs: seq<Value>, i: nat)
    ensures RenderElements(style, depth, vs, i)
         == if vs == [] then []
            else Mark(Level(i, true)) + Space(style, Level(i, true), depth)
                 + Join(ElementParts(style, depth, vs), ElementSeparator(style, depth))
    decreases vs, 0
  {
    hide Join, Mark, Space, Layout, Render, ElementSeparator;
    if vs != [] {
      var before := Mark(Level(i, true)) + Space(style, Level(i, true), depth);
      var first, rest := Layout(style, depth, vs[0]), ElementParts(style, depth, vs[1..]);
      RenderIsLayout(style, depth, vs[0]);
      ElementsLaid(style, depth, vs[1..], i + 1);
      SpaceIs(style, depth, i + 1);
      JoinMore(first, rest, ElementSeparator(style, depth));
      assert before + (first + RenderElements(style, depth, vs[1..], i + 1))
          == before + first + RenderElements(style, depth, vs[1..], i + 1);
    }
  }

  lemma {:induction false} MembersLaid(style: Style, depth: nat, ms: seq<JsonValue.Pair>, i: nat)
    ensures RenderMembers(style, depth, ms, i)
         == if ms == [] then []
            else Mark(Level(2 * i, false)) + Space(style, Level(2 * i, false), depth)
                 + Join(MemberParts(style, depth, ms), MemberSeparator(style, depth))
    decreases ms, 0
  {
    hide *;
    NoMembers(style, depth, i);
    if ms != [] {
      var before := Mark(Level(2 * i, false)) + Space(style, Level(2 * i, false), depth);
      var name, colon, value := Quoted(ms[0].name), ColonText(style, depth), Layout(style, depth, ms[0].value);
      var rest, more := MemberParts(style, depth, ms[1..]), RenderMembers(style, depth, ms[1..], i + 1);
      RenderIsLayout(style, depth, ms[0].value);
      MembersLaid(style, depth, ms[1..], i + 1);
      SpaceIs(style, depth, i + 1);
      OneMember(style, depth, ms, i);
      JoinMore(name + colon + value, rest, MemberSeparator(style, depth));
      var separator := MemberSeparator(style, depth);
      assert more == if rest == [] then [] else separator + Join(rest, separator);
      Grouped(before, name, colon, value, more);
    }
  }

  lemma NoMembers(style: Style, depth: nat, i: nat)
    ensures RenderMembers(style, depth, [], i) == []
  {
  }

  lemma OneMember(style: Style, depth: nat, ms: seq<JsonValue.Pair>, i: nat)
    requires ms != []
    ensures RenderMembers(style, depth, ms, i)
         == Mark(Level(2 * i, false)) + Space(style, Level(2 * i, false), depth) + Quoted(ms[0].name)
            + ColonText(style, depth) + Render(style, depth, ms[0].value) + RenderMembers(style, depth, ms[1..], i + 1)
    ensures MemberParts(style, depth, ms)
         == [Quoted(ms[0].name) + ColonText(style, depth) + Layout(style, depth, ms[0].value)]
            + MemberParts(style, depth, ms[1..])
    ensures ms[1..] == [] <==> MemberParts(style, depth, ms[1..]) == []
  {
    hide Mark, Space, Layout, Render, Quoted, ColonText;
    SpaceIs(style, depth, i);
  }

  lemma Grouped(before: bytes, name: bytes, colon: bytes, value: bytes, more: bytes)
    ensures before + (name + colon + value + more) == before + name + colon + value + more
  {
  }

  /** A root value is written with this layout. */
  lemma RootLayout(style: Style, v: Value)
    requires ValueOk(v)
    ensures WriteAll(style, Output([], [], false), Events(v)) == Some(Output(Layout(style, 0, v), [], true))
  {
    hide Render, Layout, WriteAll, Events;
    WriteRoot(style, v);
    RenderIsLayout(style, 0, v);
  }

  // ---------------------------------------------------------------- single parts

  /** The part stands between separators, the first one and the last one at the ends. */
  lemma {:induction false} JoinAt(parts: seq<bytes>, separator: bytes, k: nat) returns (before: bytes, after: bytes)
    requires k < |parts|
    ensures Join(parts, separator) == before + parts[k] + after
    ensures if k == 0 then before == [] else |separator| <= |before| && before[|before| - |separator|..] == separator
    ensures if k == |parts| - 1 then after == [] else |separator| <= |after| && after[..|separator|] == separator
    decreases |parts|
  {
    var first, rest := parts[0], parts[1..];
    assert parts == [first] + rest;
    JoinMore(first, rest, separator);
    if k == 0 {
      before, after := [], if rest == [] then [] else separator + Join(rest, separator);
      assert [] + first + after == first + after;
    } else {
      var b;
      b, after := JoinAt(rest, separator, k - 1);
      before := first + separator + b;
      assert parts[k] == rest[k - 1];
      assert first + (separator + (b + parts[k] + after)) == before + parts[k] + after;
      if k == 1 {
        assert b == [] && before == first + separator;
      }
    }
  }

  /** A part on a line of its own, among the parts of a container. */
  lemma LineAt(style: Style, depth: nat, open: bytes, end: bytes, parts: seq<bytes>, k: nat)
    returns (before: bytes, after: bytes)
    requires style.Pretty? && k < |parts| && |open| == 1
    ensures open + Block(style, depth, parts) + end == before + Line(style, depth + 1) + parts[k] + after
    ensures before != [] && before[|before| - 1] == if k == 0 then open[0] else ','
    ensures if k == |parts| - 1 then after == Line(style, depth) + end else "," + Line(style, depth + 1) <= after
  {
    hide Join, Line;
    var line, close := Line(style, depth + 1), Line(style, depth);
    var b, a := JoinAt(parts, "," + line, k);
    Framed(open, end, line, close, b, parts[k], a);
    after := a + close + end;
    before := open;
    if k > 0 {
      var n := |b| - |"," + line|;
      before := open + line + b[..n] + ",";
      assert b == b[..n] + ("," + line);
      assert before + line == open + line + (b[..n] + ("," + line));
    }
    assert a == [] ==> after == close + end;
    if k < |parts| - 1 {
      assert after[..|"," + line|] == a[..|"," + line|];
    }
  }

  lemma Framed(open: bytes, end: bytes, line: bytes, close: bytes, b: bytes, part: bytes, a: bytes)
    ensures open + (line + (b + part + a) + close) + end == open + line + b + part + (a + close + end)
  {
  }

  /**
   * In a pretty text every member stands on a line of its own, which begins with the indentation of its depth; and
   * what follows it is a comma and another such line, or the line of the closing bracket at the outer depth.
   */
  lemma MemberLine(style: Style, depth: nat, ms: seq<JsonValue.Pair>, k: nat) returns (before: bytes, after: bytes)
    requires style.Pretty? && k < |ms|
    ensures Layout(style, depth, Object(ms))
         == before + Line(style, depth + 1)
            + (Quoted(ms[k].name) + ": " + Layout(style, depth + 1, ms[k].value)) + after
    ensures before != [] && before[|before| - 1] == if k == 0 then '{' else ','
    ensures if k == |ms| - 1 then after == Line(style, depth) + "}" else "," + Line(style, depth + 1) <= after
  {
    hide Block, Line, Quoted, MemberParts;
    MemberPart(style, depth + 1, ms, k);
    before, after := LineAt(style, depth, "{", "}", MemberParts(style, depth + 1, ms), k);
  }

  /** So does every element, unless arrays are kept on a single line. */
  lemma ElementLine(style: Style, depth: nat, vs: seq<Value>, k: nat) returns (before: bytes, after: bytes)
    requires style.Pretty? && !style.singleLineArray && k < |vs|
    ensures Layout(style, depth, Array(vs))
         == before + Line(style, depth + 1) + Layout(style, depth + 1, vs[k]) + after
    ensures before != [] && before[|before| - 1] == if k == 0 then '[' else ','
    ensures if k == |vs| - 1 then after == Line(style, depth) + "]" else "," + Line(style, depth + 1) <= after
  {
    hide Block, Line, ElementParts;
    ElementPart(style, depth + 1, vs, k);
    before, after := LineAt(style, depth, "[", "]", ElementParts(style, depth + 1, vs), k);
  }

  lemma {:induction false} MemberPart(style: Style, depth: nat, ms: seq<JsonValue.Pair>, k: nat)
    requires k < |ms|
    ensures MemberParts(style, depth, ms)[k]
         == Quoted(ms[k].name) + (if style.Compact? then ":" else ": ") + Layout(style, depth, ms[k].value)
    decreases |ms|
  {
    hide Layout, Quoted;
    if k > 0 {
      MemberPart(style, depth, ms[1..], k - 1);
    }
  }

  lemma {:induction false} ElementPart(style: Style, depth: nat, vs: seq<Value>, k: nat)
    requires k < |vs|
    ensures ElementParts(style, depth, vs)[k] == Layout(style, depth, vs[k])
    decreases |vs|
  {
    hide Layout;
    if k > 0 {
      ElementPart(style, depth, vs[1..], k - 1);
    }
  }

  // ---------------------------------------------------------------- blanks

  predicate White(c: byte) {
    c as int == 32 || c as int == 9 || c as int == 10 || c as int == 13
  }

  predicate AllWhite(w: bytes) {
    forall k :: 0 <= k < |w| ==> White(w[k])
  }

  /** The text without the white space outside its strings. */
  function Strip(w: bytes, inString: bool): bytes
    decreases |w|
  {
    if w == [] then []
    else if !inString then
      if White(w[0]) then Strip(w[1..], false) else [w[0]] + Strip(w[1..], w[0] == '"')
    else if w[0] == '\\' && |w| > 1 then w[..2] + Strip(w[2..], true)
    else [w[0]] + Strip(w[1..], w[0] != '"')
  }

  /** Text without white space and quotation marks. */
  predicate Solid(w: bytes) {
    forall k :: 0 <= k < |w| ==> !White(w[k]) && w[k] != '"'
  }

  lemma {:induction false} StripSolid(w: bytes, rest: bytes)
    requires Solid(w)
    ensures Strip(w + rest, false) == w + Strip(rest, false)
    decreases |w|
  {
    if w == [] {
      assert w + rest == rest;
    } else {
      assert (w + rest)[1..] == w[1..] + rest;
      StripSolid(w[1..], rest);
      assert w == [w[0]] + w[1..];
    }
  }

  lemma {:induction false} StripWhite(w: bytes, rest: bytes)
    requires AllWhite(w)
    ensures Strip(w + rest, false) == Strip(rest, false)
    decreases |w|
  {
    if w == [] {
      assert w + rest == rest;
    } else {
      assert (w + rest)[1..] == w[1..] + rest;
      StripWhite(w[1..], rest);
    }
  }

  lemma StripByte(c: byte, rest: bytes)
    ensures Strip(EscapeByte(c) + rest, true) == EscapeByte(c) + Strip(rest, true)
  {
    var w := EscapeByte(c);
    if |w| == 1 {
      assert (w + rest)[1..] == rest;
    } else {
      assert (w + rest)[..2] == w[..2] && (w + rest)[2..] == w[2..] + rest;
      if |w| == 2 {
        assert w[2..] + rest == rest;
      } else {
        StripDigits(w[2..], rest);
        assert w == w[..2] + w[2..];
        assert w[..2] + (w[2..] + Strip(rest, true)) == w + Strip(rest, true);
      }
    }
  }

  lemma {:induction false} StripDigits(w: bytes, rest: bytes)
    requires forall k :: 0 <= k < |w| ==> w[k] != '"' && w[k] != '\\'
    ensures Strip(w + rest, true) == w + Strip(rest, true)
    decreases |w|
  {
    if w == [] {
      assert w + rest == rest;
    } else {
      assert (w + rest)[1..] == w[1..] + rest;
      StripDigits(w[1..], rest);
      assert w == [w[0]] + w[1..];
    }
  }

  lemma {:induction false} StripEscaped(s: bytes, rest: bytes)
    ensures Strip(Escaped(s) + ("\"" + rest), true) == Escaped(s) + ("\"" + Strip(rest, false))
    decreases |s|
  {
    hide EscapeByte;
    if s == [] {
      assert Escaped(s) + ("\"" + rest) == "\"" + rest && ("\"" + rest)[1..] == rest;
    } else {
      var first, more := EscapeByte(s[0]), Escaped(s[1..]);
      assert Escaped(s) + ("\"" + rest) == first + (more + ("\"" + rest));
      StripByte(s[0], more + ("\"" + rest));
      StripEscaped(s[1..], rest);
      assert first + (more + ("\"" + Strip(rest, false))) == Escaped(s) + ("\"" + Strip(rest, false));
    }
  }

  lemma StripQuoted(s: bytes, rest: bytes)
    ensures Strip(Quoted(s) + rest, false) == Quoted(s) + Strip(rest, false)
  {
    hide Escaped;
    var w := Escaped(s) + ("\"" + rest);
    assert Quoted(s) + rest == ['"'] + w;
    assert (['"'] + w)[1..] == w;
    StripEscaped(s, rest);
    assert ['"'] + (Escaped(s) + ("\"" + Strip(rest, false))) == Quoted(s) + Strip(rest, false);
  }

  /** A leaf without white space outside strings; a double stands for the text it was read from. */
  predicate SolidLeaf(e: Event) {
    e.Double? ==> Solid(e.literal)
  }

  lemma StripLeaf(e: Event, rest: bytes)
    requires SolidLeaf(e)
    ensures Strip(LeafText(e) + rest, false) == LeafText(e) + Strip(rest, false)
  {
    hide Strip, Quoted;
    if e.String? {
      StripQuoted(e.str, rest);
    } else {
      StripSolid(LeafText(e), rest);
    }
  }

  lemma WhiteLine(style: Style, depth: nat)
    requires style.Pretty? && White(style.indentChar)
    ensures AllWhite(Line(style, depth))
  {
  }

  lemma AllParts(v: Value)
    requires All(v, SolidLeaf)
    ensures v.Leaf? ==> SolidLeaf(v.e)
    ensures v.Array? ==> forall k :: 0 <= k < |v.elements| ==> All(v.elements[k], SolidLeaf)
    ensures v.Object? ==> forall k :: 0 <= k < |v.members| ==> All(v.members[k].value, SolidLeaf)
  {
    hide SolidLeaf;
  }

  /** The white space inside the brackets of a container. */
  lemma StripBrackets(open: byte, lead: bytes, inside: bytes, short: bytes, close: bytes, end: byte, rest: bytes)
    requires Solid([open, end]) && AllWhite(lead) && AllWhite(close)
    requires Strip(inside + (close + ([end] + rest)), false) == short + Strip(close + ([end] + rest), false)
    ensures Strip([open] + (lead + inside + close) + [end] + rest, false) == [open] + short + [end] + Strip(rest, false)
  {
    hide Strip;
    var after := close + ([end] + rest);
    assert [open] + (lead + inside + close) + [end] + rest == [open] + (lead + (inside + after));
    assert open == [open, end][0] && end == [open, end][1];
    StripSolid([open], lead + (inside + after));
    StripWhite(lead, inside + after);
    StripWhite(close, [end] + rest);
    StripSolid([end], rest);
    assert [open] + (short + ([end] + Strip(rest, false))) == [open] + short + [end] + Strip(rest, false);
  }

  /** The text of a pretty value, without the white space outside its strings, is its compact text. */
  lemma {:induction false} StripLayout(style: Style, depth: nat, v: Value, rest: bytes)
    requires style.Pretty? && White(style.indentChar) && All(v, SolidLeaf)
    ensures Strip(Layout(style, depth, v) + rest, false) == Layout(Compact, depth, v) + Strip(rest, false)
    decreases v, 2
  {
    hide *;
    AllParts(v);
    match v
    case Leaf(e) =>
      LeafLaid(style, depth, e);
      LeafLaid(Compact, depth, e);
      StripLeaf(e, rest);
    case Array(vs) => StripArray(style, depth, vs, rest);
    case Object(ms) => StripObject(style, depth, ms, rest);
  }

  lemma {:induction false} StripArray(style: Style, depth: nat, vs: seq<Value>, rest: bytes)
    requires style.Pretty? && White(style.indentChar) && forall k :: 0 <= k < |vs| ==> All(vs[k], SolidLeaf)
    ensures Strip(Layout(style, depth, Array(vs)) + rest, false)
         == Layout(Compact, depth, Array(vs)) + Strip(rest, false)
    decreases vs, 1
  {
    hide *;
    var single := style.singleLineArray;
    var line, close := Line(style, depth + 1), Line(style, depth);
    WhiteLine(style, depth + 1);
    WhiteLine(style, depth);
    NoWhite();
    var lead, gap := if single || vs == [] then [] else line, if single then " " else line;
    var last := if single || vs == [] then [] else close;
    StripElements(style, depth + 1, vs, gap, last + ("]" + rest));
    var parts, short := ElementParts(style, depth + 1, vs), ElementParts(Compact, depth + 1, vs);
    BracketsArray(style, depth, vs, lead, gap, last);
    StripBrackets('[', lead, Join(parts, "," + gap), Join(short, ","), last, ']', rest);
  }

  lemma NoWhite()
    ensures AllWhite([]) && AllWhite(" ") && Solid(['[', ']']) && Solid(['{', '}'])
  {
  }

  lemma BracketsArray(style: Style, depth: nat, vs: seq<Value>, lead: bytes, gap: bytes, last: bytes)
    requires style.Pretty?
    requires var single := style.singleLineArray;
             && lead == (if single || vs == [] then [] else Line(style, depth + 1))
             && gap == (if single then " " else Line(style, depth + 1))
             && last == (if single || vs == [] then [] else Line(style, depth))
    ensures Layout(style, depth, Array(vs))
         == ['['] + (lead + Join(ElementParts(style, depth + 1, vs), "," + gap) + last) + [']']
    ensures Layout(Compact, depth, Array(vs)) == ['['] + Join(ElementParts(Compact, depth + 1, vs), ",") + [']']
  {
    hide Join, Line, ElementParts;
    JoinNone();
    assert "," + " " == ", ";
    var parts := ElementParts(style, depth + 1, vs);
    assert parts == [] <==> vs == [];
  }

  lemma BracketsObject(style: Style, depth: nat, ms: seq<JsonValue.Pair>, lead: bytes, last: bytes)
    requires style.Pretty?
    requires lead == (if ms == [] then [] else Line(style, depth + 1))
    requires last == (if ms == [] then [] else Line(style, depth))
    ensures Layout(style, depth, Object(ms))
         == ['{'] + (lead + Join(MemberParts(style, depth + 1, ms), "," + Line(style, depth + 1)) + last) + ['}']
    ensures Layout(Compact, depth, Object(ms)) == ['{'] + Join(MemberParts(Compact, depth + 1, ms), ",") + ['}']
  {
    hide Join, Line, MemberParts;
    JoinNone();
    var parts := MemberParts(style, depth + 1, ms);
    assert parts == [] <==> ms == [];
  }

  lemma {:induction false} StripObject(style: Style, depth: nat, ms: seq<JsonValue.Pair>, rest: bytes)
    requires style.Pretty? && White(style.indentChar) && forall k :: 0 <= k < |ms| ==> All(ms[k].value, SolidLeaf)
    ensures Strip(Layout(style, depth, Object(ms)) + rest, false)
         == Layout(Compact, depth, Object(ms)) + Strip(rest, false)
    decreases ms, 1
  {
    hide *;
    var line, close := Line(style, depth + 1), Line(style, depth);
    WhiteLine(style, depth + 1);
    WhiteLine(style, depth);
    NoWhite();
    var lead, last := if ms == [] then [] else line, if ms == [] then [] else close;
    StripMembers(style, depth + 1, ms, line, last + ("}" + rest));
    var parts, short := MemberParts(style, depth + 1, ms), MemberParts(Compact, depth + 1, ms);
    BracketsObject(style, depth, ms, lead, last);
    StripBrackets('{', lead, Join(parts, "," + line), Join(short, ","), last, '}', rest);
  }

  /** One part before the others. */
  lemma StripJoin(first: bytes, more: seq<bytes>, shortFirst: bytes, short: seq<bytes>, gap: bytes, rest: bytes)
    requires AllWhite(gap) && |more| == |short|
    requires forall tail: bytes :: Strip(first + tail, false) == shortFirst + Strip(tail, false)
    requires more != [] ==> Strip(Join(more, "," + gap) + rest, false) == Join(short, ",") + Strip(rest, false)
    ensures Strip(Join([first] + more, "," + gap) + rest, false) == Join([shortFirst] + short, ",") + Strip(rest, false)
  {
    hide Strip, Join;
    JoinMore(first, more, "," + gap);
    JoinMore(shortFirst, short, ",");
    if more == [] {
      assert first + [] + rest == first + rest;
      assert shortFirst + [] == shortFirst;
    } else {
      var others := Join(more, "," + gap);
      assert first + ("," + gap + others) + rest == first + ("," + (gap + (others + rest)));
      StripSolid(",", gap + (others + rest));
      StripWhite(gap, others + rest);
      assert shortFirst + ("," + (Join(short, ",") + Strip(rest, false)))
          == shortFirst + ("," + Join(short, ",")) + Strip(rest, false);
    }
  }

  lemma {:induction false} StripElements(style: Style, depth: nat, vs: seq<Value>, gap: bytes, rest: bytes)
    requires style.Pretty? && White(style.indentChar) && forall k :: 0 <= k < |vs| ==> All(vs[k], SolidLeaf)
    requires AllWhite(gap)
    ensures Strip(Join(ElementParts(style, depth, vs), "," + gap) + rest, false)
         == Join(ElementParts(Compact, depth, vs), ",") + Strip(rest, false)
    decreases vs, 0
  {
    hide Join, Layout, Strip, White, All, AllWhite;
    if vs == [] {
      JoinNone();
      assert [] + rest == rest && [] + Strip(rest, false) == Strip(rest, false);
    } else {
      forall tail: bytes
        ensures Strip(Layout(style, depth, vs[0]) + tail, false) == Layout(Compact, depth, vs[0]) + Strip(tail, false)
      {
        StripLayout(style, depth, vs[0], tail);
      }
      StripElements(style, depth, vs[1..], gap, rest);
      StripJoin(Layout(style, depth, vs[0]), ElementParts(style, depth, vs[1..]),
                Layout(Compact, depth, vs[0]), ElementParts(Compact, depth, vs[1..]), gap, rest);
    }
  }

  lemma StripMember(style: Style, name: bytes, value: bytes, short: bytes, tail: bytes)
    requires style.Pretty? && Strip(value + tail, false) == short + Strip(tail, false)
    ensures Strip(Quoted(name) + ": " + value + tail, false) == Quoted(name) + ":" + short + Strip(tail, false)
  {
    hide Strip, Quoted;
    assert Quoted(name) + ": " + value + tail == Quoted(name) + (":" + (" " + (value + tail)));
    StripQuoted(name, ":" + (" " + (value + tail)));
    StripSolid(":", " " + (value + tail));
    StripWhite(" ", value + tail);
    assert Quoted(name) + (":" + (short + Strip(tail, false))) == Quoted(name) + ":" + short + Strip(tail, false);
  }

  lemma {:induction false} StripMembers(style: Style, depth: nat, ms: seq<JsonValue.Pair>, gap: bytes, rest: bytes)
    requires style.Pretty? && White(style.indentChar) && forall k :: 0 <= k < |ms| ==> All(ms[k].value, SolidLeaf)
    requires AllWhite(gap)
    ensures Strip(Join(MemberParts(style, depth, ms), "," + gap) + rest, false)
         == Join(MemberParts(Compact, depth, ms), ",") + Strip(rest, false)
    decreases ms, 0
  {
    hide Join, Layout, Strip, White, All, AllWhite, Quoted;
    if ms == [] {
      JoinNone();
      assert [] + rest == rest && [] + Strip(rest, false) == Strip(rest, false);
    } else {
      var name, value, short := ms[0].name, Layout(style, depth, ms[0].value), Layout(Compact, depth, ms[0].value);
      forall tail: bytes
        ensures Strip(Quoted(name) + ": " + value + tail, false) == Quoted(name) + ":" + short + Strip(tail, false)
      {
        StripLayout(style, depth, ms[0].value, tail);
        StripMember(style, name, value, short, tail);
      }
      StripMembers(style, depth, ms[1..], gap, rest);
      StripJoin(Quoted(name) + ": " + value, MemberParts(style, depth, ms[1..]),
                Quoted(name) + ":" + short, MemberParts(Compact, depth, ms[1..]), gap, rest);
    }
  }

  lemma StripNothing()
    ensures Strip([], false) == []
  {
  }

  /** The pretty writer adds nothing but white space, and adds it outside strings only. */
  lemma PrettyIsCompact(style: Style, v: Value)
    requires style.Pretty? && StyleOk(style) && All(v, SolidLeaf)
    ensures Strip(Layout(style, 0, v), false) == Layout(Compact, 0, v)
  {
    hide Layout, Strip, All;
    StripLayout(style, 0, v, []);
    assert Layout(style, 0, v) + [] == Layout(style, 0, v);
    StripNothing();
    assert Layout(Compact, 0, v) + [] == Layout(Compact, 0, v);
  }

  // ---------------------------------------------------------------- strings

  /**
   * A byte of a string is written as itself, unless it is a quotation mark, a backslash or a control character: these
   * are written with their letter if they have one, and else with digits, in upper-case letters.
   */
  lemma ByteWritten(c: byte)
    ensures c as int >= 0x20 && c != '"' && c != '\\' ==> EscapeByte(c) == [c]
    ensures c == '"' || c == '\\' || c as int in {8, 9, 10, 12, 13} ==>
              |EscapeByte(c)| == 2 && EscapeByte(c)[0] == '\\' && StandsFor(EscapeByte(c)[1], c)
    ensures c as int < 0x20 && c as int !in {8, 9, 10, 12, 13} ==>
              EscapeByte(c) == "\\u00" + [UPPER[c as int / 16], UPPER[c as int % 16]]
  {
  }
}
