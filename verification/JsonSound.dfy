/** What a successful parse has reported is always exactly one well-formed value. */
module JsonSound {
  import opened Bytes
  import opened JsonTypes
  import opened JsonScan
  import opened JsonNumber
  import opened JsonRecursive
  import opened JsonValue

  /** A value that is no container is reported by one event. */
  lemma ScalarSound(t: bytes, cf: Config, pos: nat, log: seq<Event>) returns (v: Value)
    requires pos <= |t| && Peek(t, pos) != '{' && Peek(t, pos) != '[' && ScalarScan(t, cf, pos, log).At?
    ensures ScalarScan(t, cf, pos, log).log == log + Events(v) && v.Leaf? && IsLeaf(v.e)
  {
    hide Letters, StringBody, WholePart, ExactFraction, RestFraction, ExponentPart;
    var after := ScalarScan(t, cf, pos, log).log;
    if !(Peek(t, pos) in {'n', 't', 'f', '"'}) {
      NumberSound(t, cf, pos, log);
    }
    v := Leaf(after[|log|]);
  }

  lemma NumberSound(t: bytes, cf: Config, pos: nat, log: seq<Event>)
    requires pos <= |t| && NumberScan(t, cf, pos, log).At?
    ensures var after := NumberScan(t, cf, pos, log).log;
            |after| == |log| + 1 && after == log + [after[|log|]] && IsLeaf(after[|log|])
  {
    hide WholePart, ExactFraction, RestFraction, Exponent;
    var minus := Peek(t, pos) == '-';
    WholeRange(t, cf, pos, if minus then pos + 1 else pos, minus);
  }

  lemma CountUp(count: nat, n: nat)
    requires count < 0x1_0000_0000
    ensures Size32(Inc32(count) + n) == Size32(count + 1 + n)
  {
  }

  /** What ParseValue reports are the events of one value. */
  lemma {:induction false} ValueSound(t: bytes, cf: Config, pos: nat, log: seq<Event>) returns (v: Value)
    requires pos <= |t| && ParseValue(t, cf, pos, log).At?
    ensures ParseValue(t, cf, pos, log).log == log + Events(v)
    ensures |t| < 0x1_0000_0000 ==> ValueOk(v)
    decreases |t| - pos, 1
  {
    hide ScalarScan, ParseObject, ParseArray, Events;
    if Peek(t, pos) == '{' {
      v := ObjectSound(t, cf, pos, log);
    } else if Peek(t, pos) == '[' {
      v := ArraySound(t, cf, pos, log);
    } else {
      v := ScalarSound(t, cf, pos, log);
    }
  }

  lemma {:induction false} ObjectSound(t: bytes, cf: Config, pos: nat, log: seq<Event>) returns (v: Value)
    requires pos < |t| && ParseObject(t, cf, pos, log).At?
    ensures ParseObject(t, cf, pos, log).log == log + Events(v)
    ensures |t| < 0x1_0000_0000 ==> ValueOk(v)
    decreases |t| - pos, 0
  {
    hide GapScan, Members;
    var s := GapScan(t, cf, pos + 1, log + [StartObject]);
    var ms := [];
    if Peek(t, s.pos) != '}' {
      ms := MembersSound(t, cf, s.pos, s.log, 0);
    }
    v := Object(ms);
    Enclosed(log, StartObject, MemberEvents(ms), EndObject(Size32(|ms|)));
  }

  lemma {:induction false} ArraySound(t: bytes, cf: Config, pos: nat, log: seq<Event>) returns (v: Value)
    requires pos < |t| && ParseArray(t, cf, pos, log).At?
    ensures ParseArray(t, cf, pos, log).log == log + Events(v)
    ensures |t| < 0x1_0000_0000 ==> ValueOk(v)
    decreases |t| - pos, 0
  {
    hide GapScan, Elements;
    var s := GapScan(t, cf, pos + 1, log + [StartArray]);
    var vs := [];
    if Peek(t, s.pos) != ']' {
      vs := ElementsSound(t, cf, s.pos, s.log, 0);
    }
    v := Array(vs);
    Enclosed(log, StartArray, ElementEvents(vs), EndArray(Size32(|vs|)));
  }

  lemma Enclosed(log: seq<Event>, start: Event, inside: seq<Event>, end: Event)
    ensures log + [start] + inside + [end] == log + ([start] + inside + [end])
    ensures inside == [] ==> log + [start] + [end] == log + ([start] + inside + [end])
  {
  }

  /** The element loop reports the remaining elements and the number of them all. */
  lemma {:induction false} ElementsSound(t: bytes, cf: Config, pos: nat, log: seq<Event>, count: nat)
    returns (vs: seq<Value>)
    requires pos <= |t| && Elements(t, cf, pos, log, count).At? && count < 0x1_0000_0000
    ensures var r := Elements(t, cf, pos, log, count);
            |vs| <= r.pos - pos && r.log == log + ElementEvents(vs) + [EndArray(Size32(count + |vs|))]
    ensures |t| < 0x1_0000_0000 ==> forall k :: 0 <= k < |vs| ==> ValueOk(vs[k])
    decreases |t| - pos, 2
  {
    hide GapScan, ParseValue, Events, Size32, Inc32, All;
    var v := ValueSound(t, cf, pos, log);
    var r := ParseValue(t, cf, pos, log);
    var s := GapScan(t, cf, r.pos, r.log);
    var rest: seq<Value> := [];
    if Peek(t, s.pos) == ',' {
      var g := GapScan(t, cf, s.pos + 1, s.log);
      if !(cf.trailingCommas && Peek(t, g.pos) == ']') {
        rest := ElementsSound(t, cf, g.pos, g.log, Inc32(count));
      }
    }
    vs := [v] + rest;
    assert vs[1..] == rest && ElementEvents(vs) == Events(v) + ElementEvents(rest);
    CountUp(count, |rest|);
    CountedOne(count);
    var end := EndArray(Size32(count + |vs|));
    assert log + Events(v) + ElementEvents(rest) + [end] == log + ElementEvents(vs) + [end];
  }

  lemma CountedOne(count: nat)
    ensures Inc32(count) == Size32(count + 1)
  {
  }

  /** The member loop reports the remaining members and the number of them all. */
  lemma {:induction false} MembersSound(t: bytes, cf: Config, pos: nat, log: seq<Event>, count: nat)
    returns (ms: seq<Pair>)
    requires pos <= |t| && Members(t, cf, pos, log, count).At? && count < 0x1_0000_0000
    ensures var r := Members(t, cf, pos, log, count);
            |ms| <= r.pos - pos && r.log == log + MemberEvents(ms) + [EndObject(Size32(count + |ms|))]
    ensures |t| < 0x1_0000_0000 ==> forall k :: 0 <= k < |ms| ==> ValueOk(ms[k].value)
    decreases |t| - pos, 1
  {
    hide GapScan, Events, Size32, Inc32, All, Member;
    var m := MemberSound(t, cf, pos, log);
    var s := Member(t, cf, pos, log);
    var rest: seq<Pair> := [];
    if Peek(t, s.pos) == ',' {
      var g := GapScan(t, cf, s.pos + 1, s.log);
      if !(cf.trailingCommas && Peek(t, g.pos) == '}') {
        rest := MembersSound(t, cf, g.pos, g.log, Inc32(count));
      }
    }
    ms := [m] + rest;
    assert ms[1..] == rest && MemberEvents(ms) == [Key(m.name)] + Events(m.value) + MemberEvents(rest);
    CountUp(count, |rest|);
    CountedOne(count);
    var end := EndObject(Size32(count + |ms|));
    assert log + [Key(m.name)] + Events(m.value) + MemberEvents(rest) + [end] == log + MemberEvents(ms) + [end];
  }

  lemma {:induction false} MemberSound(t: bytes, cf: Config, pos: nat, log: seq<Event>) returns (m: Pair)
    requires pos <= |t| && Member(t, cf, pos, log).At?
    ensures Member(t, cf, pos, log).log == log + [Key(m.name)] + Events(m.value)
    ensures |t| < 0x1_0000_0000 ==> ValueOk(m.value)
    decreases |t| - pos, 0
  {
    hide GapScan, ParseValue, Events, StringBody, All;
    var key := StringScan(t, pos, log, true);
    var s := GapScan(t, cf, key.pos, key.log);
    var g := GapScan(t, cf, s.pos + 1, s.log);
    var v := ValueSound(t, cf, g.pos, g.log);
    m := Pair(StringBody(t, pos + 1, []).str, v);
  }

  /** A text that parses has been reported as exactly one value; with less than 4 GiB its sizes are the true ones. */
  lemma ParseSound(t: bytes, cf: Config) returns (v: Value)
    requires Parse(t, cf).At?
    ensures Parse(t, cf).log == Events(v)
    ensures |t| < 0x1_0000_0000 ==> ValueOk(v)
  {
    hide GapScan, ParseValue, Events, All;
    var s := GapScan(t, cf, 0, []);
    v := ValueSound(t, cf, s.pos, []);
  }
}
