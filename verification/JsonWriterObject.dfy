/** The writer object, and the traversal of a value that calls it. */
module JsonWriterObject {
  import opened Bytes
  import opened JsonTypes
  import opened JsonScan
  import opened JsonValue
  import opened JsonWriter
  import JsonLayout

  class Writer {
    /** Plain, or pretty with its settings. */
    const style: Style
    var text: bytes
    var levels: seq<Level>
    var hasRoot: bool

    constructor (s: Style)
      requires StyleOk(s)
      ensures style == s && Abs() == Output([], [], false)
    {
      style := s;
      text, levels, hasRoot := [], [], false;
    }

    function Abs(): Output
      reads this
    {
      Output(text, levels, hasRoot)
    }

    method Put(w: bytes)
      modifies this`text
      ensures text == old(text) + w
    {
      text := text + w;
    }

    method WriteIndent()
      requires style.Pretty?
      modifies this`text
      ensures text == old(text) + Repeat(style.indentChar, |levels| * style.indentCharCount)
    {
      var count := |levels| * style.indentCharCount;
      for i := 0 to count
        invariant text == old(text) + Repeat(style.indentChar, i)
      {
        assert Repeat(style.indentChar, i + 1) == Repeat(style.indentChar, i) + [style.indentChar];
        Put([style.indentChar]);
      }
    }

    /** A line feed and the indentation. */
    method WriteNewLine()
      requires style.Pretty?
      modifies this`text
      ensures text == old(text) + NewLine(style, |levels|)
    {
      Put("\n");
      WriteIndent();
    }

    /** What PrettyPrefix puts before an element. */
    method ElementPrefix(valueCount: nat)
      requires style.Pretty? && levels != [] && levels[0] == Level(valueCount, true)
      modifies this`text
      ensures text == old(text) + Mark(levels[0]) + Space(style, levels[0], |levels|)
    {
      if valueCount > 0 {
        Put(",");
        if style.singleLineArray {
          Put(" ");
        }
      }
      if !style.singleLineArray {
        WriteNewLine();
      }
    }

    /** What PrettyPrefix puts before a name or the value after it. */
    method MemberPrefix(valueCount: nat)
      requires style.Pretty? && levels != [] && levels[0] == Level(valueCount, false)
      modifies this`text
      ensures text == old(text) + Mark(levels[0]) + Space(style, levels[0], |levels|)
    {
      if valueCount > 0 {
        if valueCount % 2 == 0 {
          Put(",");
          Put("\n");
        } else {
          Put(":");
          Put(" ");
        }
      } else {
        Put("\n");
      }
      if valueCount % 2 == 0 {
        WriteIndent();
      }
    }

    /** Prefix, or PrettyPrefix. */
    method Prefix(ghost isString: bool)
      requires MayBegin(Abs(), isString)
      modifies this
      ensures Abs() == Begin(style, old(Abs()))
    {
      if levels != [] {
        var level := levels[0];
        if style.Pretty? {
          if level.inArray {
            ElementPrefix(level.valueCount);
          } else {
            MemberPrefix(level.valueCount);
          }
        } else if level.valueCount > 0 {
          if level.inArray {
            Put(",");
          } else {
            Put(if level.valueCount % 2 == 0 then "," else ":");
          }
        }
        levels := [level.(valueCount := level.valueCount + 1)] + levels[1..];
      } else {
        hasRoot := true;
      }
    }

    /** WriteString. */
    method WriteString(s: bytes)
      modifies this`text
      ensures text == old(text) + Quoted(s)
    {
      hide EscapeByte;
      Put("\"");
      assert s[0..] == s;
      for i := 0 to |s|
        invariant text + Escaped(s[i..]) == old(text) + "\"" + Escaped(s)
      {
        var c := s[i];
        assert s[i..][1..] == s[i + 1..];
        label before:
        WriteByte(c);
        assert old@before(text) + (EscapeByte(c) + Escaped(s[i + 1..]))
            == old@before(text) + EscapeByte(c) + Escaped(s[i + 1..]);
      }
      assert s[|s|..] == [] && text + [] == text;
      Put("\"");
      assert old(text) + "\"" + Escaped(s) + "\"" == old(text) + Quoted(s);
    }

    /** One byte of a string: itself, a short escape, or a unicode escape. */
    method WriteByte(c: byte)
      modifies this`text
      ensures text == old(text) + EscapeByte(c)
    {
      var escape: char := if c == '"' || c == '\\' then c
                          else if c == 8 as char then 'b'
                          else if c == '\t' then 't'
                          else if c == '\n' then 'n'
                          else if c == 12 as char then 'f'
                          else if c == '\r' then 'r'
                          else if c < ' ' then 'u'
                          else '\0';
      if escape != '\0' {
        Put("\\");
        Put([escape]);
        if escape == 'u' {
          Put("0");
          Put("0");
          Put([HexDigit(c as int / 16, true)]);
          Put([HexDigit(c as int % 16, true)]);
        }
      } else {
        Put([c]);
      }
    }

    /** Null, Bool, Int, Uint, Int64, Uint64, Double and String. */
    method Scalar(e: Event)
      requires IsLeaf(e) && MayBegin(Abs(), e.String?)
      modifies this
      ensures Write(style, old(Abs()), e) == Some(Abs())
    {
      hide Begin, Quoted;
      Prefix(e.String?);
      if e.String? {
        WriteString(e.str);
      } else {
        Put(LeafText(e));
      }
    }

    method Key(name: bytes)
      requires MayBegin(Abs(), true)
      modifies this
      ensures Write(style, old(Abs()), Event.Key(name)) == Some(Abs())
    {
      hide Begin, Quoted;
      Prefix(true);
      WriteString(name);
    }

    method StartObject()
      requires MayBegin(Abs(), false)
      modifies this
      ensures Write(style, old(Abs()), Event.StartObject) == Some(Abs())
    {
      hide Begin;
      Prefix(false);
      levels := [Level(0, false)] + levels;
      Put("{");
    }

    method StartArray()
      requires MayBegin(Abs(), false)
      modifies this
      ensures Write(style, old(Abs()), Event.StartArray) == Some(Abs())
    {
      hide Begin;
      Prefix(false);
      levels := [Level(0, true)] + levels;
      Put("[");
    }

    method EndObject(memberCount: nat)
      requires levels != [] && !levels[0].inArray
      modifies this
      ensures Write(style, old(Abs()), Event.EndObject(memberCount)) == Some(Abs())
    {
      var empty := levels[0].valueCount == 0;
      levels := levels[1..];
      assert text + "" == text;
      if style.Pretty? && !empty {
        WriteNewLine();
      }
      Put("}");
    }

    method EndArray(elementCount: nat)
      requires levels != [] && levels[0].inArray
      modifies this
      ensures Write(style, old(Abs()), Event.EndArray(elementCount)) == Some(Abs())
    {
      var empty := levels[0].valueCount == 0;
      levels := levels[1..];
      assert text + "" == text;
      if style.Pretty? && !empty && !style.singleLineArray {
        WriteNewLine();
      }
      Put("]");
    }
  }

  lemma BeginRoot(style: Style, o: Output)
    ensures o.levels == [] ==> Begin(style, o).text == o.text
  {
  }

  /** Accept: the traversal of a value that makes the calls of `Events`. */
  method Accept(v: Value, w: Writer)
    requires ValueOk(v) && MayBegin(w.Abs(), false)
    modifies w
    ensures WriteAll(w.style, old(w.Abs()), Events(v)) == Some(w.Abs())
    ensures w.Abs() == Append(Begin(w.style, old(w.Abs())), Render(w.style, |old(w.levels)|, v))
    ensures old(w.levels) == [] ==> w.text == old(w.text) + JsonLayout.Layout(w.style, 0, v)
    decreases v
  {
    hide Begin, Render, WriteAll, Write;
    BeginRoot(w.style, w.Abs());
    JsonLayout.RenderIsLayout(w.style, |w.levels|, v);
    WriteValue(w.style, w.Abs(), v);
    match v
    case Leaf(e) =>
      WriteOne(w.style, w.Abs(), e);
      w.Scalar(e);
    case Array(vs) => AcceptElements(vs, w);
    case Object(ms) => AcceptMembers(ms, w);
  }

  /** Beginning a value inside a container leaves every level below alone. */
  lemma BeginInside(style: Style, o: Output, text: bytes)
    requires o.levels != []
    ensures var b := Append(Begin(style, o), text);
            b.levels == [Level(o.levels[0].valueCount + 1, o.levels[0].inArray)] + o.levels[1..]
  {
  }

  method AcceptElements(vs: seq<Value>, w: Writer)
    requires ValueOk(Array(vs)) && MayBegin(w.Abs(), false)
    modifies w
    ensures WriteAll(w.style, old(w.Abs()), Events(Array(vs))) == Some(w.Abs())
    decreases vs
  {
    hide Begin, WriteAll, Write, Render, Events;
    ghost var o := w.Abs();
    w.StartArray();
    ghost var inside := w.Abs();
    OpenLevels(w.style, o, true);
    assert vs[0..] == vs;
    for k := 0 to |vs|
      invariant w.levels != [] && w.levels[0].inArray
      invariant WriteAll(w.style, inside, ElementEvents(vs)) == WriteAll(w.style, w.Abs(), ElementEvents(vs[k..]))
    {
      assert vs[k..][1..] == vs[k + 1..];
      ghost var before := w.Abs();
      Accept(vs[k], w);
      BeginInside(w.style, before, Render(w.style, |before.levels|, vs[k]));
      WriteConcat(w.style, before, Events(vs[k]), ElementEvents(vs[k + 1..]));
    }
    WriteAllNone(w.style, w.Abs());
    ghost var full := w.Abs();
    w.EndArray(|vs|);
    WriteEnclosed(w.style, o, StartArray, inside, ElementEvents(vs), full, EndArray(|vs|));
    EventsOfArray(vs);
  }

  method AcceptMembers(ms: seq<Pair>, w: Writer)
    requires ValueOk(Object(ms)) && MayBegin(w.Abs(), false)
    modifies w
    ensures WriteAll(w.style, old(w.Abs()), Events(Object(ms))) == Some(w.Abs())
    decreases ms
  {
    hide Begin, WriteAll, Write, Render, Events, Named;
    ghost var o := w.Abs();
    w.StartObject();
    ghost var inside := w.Abs();
    OpenLevels(w.style, o, false);
    assert ms[0..] == ms;
    for k := 0 to |ms|
      invariant w.levels != [] && !w.levels[0].inArray && w.levels[0].valueCount % 2 == 0
      invariant WriteAll(w.style, inside, MemberEvents(ms)) == WriteAll(w.style, w.Abs(), MemberEvents(ms[k..]))
    {
      assert ms[k..][1..] == ms[k + 1..];
      ghost var before := w.Abs();
      AfterName(w.style, before, ms[k].name, before.levels[1..]);
      w.Key(ms[k].name);
      ghost var named := w.Abs();
      Accept(ms[k].value, w);
      BeginInside(w.style, named, Render(w.style, |named.levels|, ms[k].value));
      WriteOne(w.style, before, Key(ms[k].name));
      WriteConcat(w.style, before, [Key(ms[k].name)], Events(ms[k].value));
      WriteConcat(w.style, before, [Key(ms[k].name)] + Events(ms[k].value), MemberEvents(ms[k + 1..]));
    }
    WriteAllNone(w.style, w.Abs());
    ghost var full := w.Abs();
    w.EndObject(|ms|);
    WriteEnclosed(w.style, o, StartObject, inside, MemberEvents(ms), full, EndObject(|ms|));
    EventsOfObject(ms);
  }

  lemma OpenLevels(style: Style, o: Output, inArray: bool)
    requires MayBegin(o, false)
    ensures var e := if inArray then StartArray else StartObject;
            Write(style, o, e).Some? && Write(style, o, e).value.levels != []
            && Write(style, o, e).value.levels[0] == Level(0, inArray)
  {
    hide Begin;
  }

  lemma WriteAllNone(style: Style, o: Output)
    ensures WriteAll(style, o, ElementEvents([])) == Some(o) && WriteAll(style, o, MemberEvents([])) == Some(o)
  {
  }

  lemma EventsOfArray(vs: seq<Value>)
    requires |vs| < 0x1_0000_0000
    ensures Events(Array(vs)) == [StartArray] + ElementEvents(vs) + [EndArray(|vs|)]
  {
  }

  lemma EventsOfObject(ms: seq<Pair>)
    requires |ms| < 0x1_0000_0000
    ensures Events(Object(ms)) == [StartObject] + MemberEvents(ms) + [EndObject(|ms|)]
  {
  }
}
