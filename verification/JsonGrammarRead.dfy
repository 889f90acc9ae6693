/** Whatever is made up as the grammar of JSON values says is accepted, and reported as what it means. */
module JsonGrammarRead {
  import opened Bytes
  import opened JsonTypes
  import opened JsonScan
  import opened JsonRecursive
  import opened JsonValue
  import opened JsonRoundTrip
  import opened JsonSpelling
  import opened JsonLexis
  import opened JsonGrammar

  /** Every number of the value is one that a double surely holds. */
  predicate AllModerate(s: Source)
    decreases s
  {
    match s
    case Number(n) => NumeralOk(n) && Moderate(n)
    case Items(items, end) => ItemsModerate(items)
    case Fields(fields, end) => FieldsModerate(fields)
    case _ => true
  }

  predicate ItemsModerate(items: seq<Item>)
    decreases items
  {
    forall k :: 0 <= k < |items| ==> AllModerate(items[k].value)
  }

  predicate FieldsModerate(fields: seq<Field>)
    decreases fields
  {
    forall k :: 0 <= k < |fields| ==> AllModerate(fields[k].item.value)
  }

  /** The parser has come to `pos` with this log, or has refused a number that is too big. */
  predicate Reads(r: Scan, pos: nat, log: seq<Event>, moderate: bool) {
    r == At(pos, log) || (r.Failed? && r.code == NumberTooBig && !moderate)
  }

  lemma GapRead(t: bytes, cf: Config, pos: nat, fs: seq<Filler>, log: seq<Event>)
    requires Filling(fs, cf.comments) && Has(t, pos, FillingText(fs))
    requires var c := Peek(t, pos + |FillingText(fs)|); !IsBlank(c) && c != '/'
    ensures GapScan(t, cf, pos, log) == At(pos + |FillingText(fs)|, log)
  {
    hide Gap;
    FillingRead(t, cf, pos, fs);
  }

  /** After a value comes a blank, a comment, a comma or a bracket: nothing that continues a number. */
  lemma AfterValue(t: bytes, cf: Config, pos: nat, fs: seq<Filler>, w: bytes)
    requires Filling(fs, cf.comments) && Has(t, pos, FillingText(fs) + w)
    requires w != [] && (w[0] == ',' || w[0] == ']' || w[0] == '}')
    ensures EndsNumber(Peek(t, pos))
    ensures Has(t, pos, FillingText(fs)) && Has(t, pos + |FillingText(fs)|, w)
    ensures Peek(t, pos + |FillingText(fs)|) == w[0]
  {
    HasConcat(t, pos, FillingText(fs), w);
    HasByte(t, pos + |FillingText(fs)|, w, 0);
    if fs != [] {
      FillerFirst(fs[0], cf.comments);
      HasByte(t, pos, FillingText(fs), 0);
    }
  }

  lemma FillerFirst(f: Filler, comments: bool)
    requires FillerOk(f, comments)
    ensures FillerText(f) != [] && EndsNumber(FillerText(f)[0])
  {
  }

  lemma TailFirst(items: seq<Item>, fields: seq<Field>, end: End)
    ensures ItemsTail(items, end) != [] && (ItemsTail(items, end)[0] == ',' || ItemsTail(items, end)[0] == ']')
    ensures FieldsTail(fields, end) != [] && (FieldsTail(fields, end)[0] == ',' || FieldsTail(fields, end)[0] == '}')
  {
    hide ItemsText, FieldsText;
  }

  /** The first byte of a value. */
  lemma WrittenFirst(cf: Config, s: Source, v: Value)
    requires Says(cf, s, v)
    ensures Written(s) != [] && StartsValue(Written(s)[0])
    ensures (Written(s)[0] == '{' <==> s.Fields?) && (Written(s)[0] == '[' <==> s.Items?)
  {
    hide ItemsText, FieldsText, Spelling, AllSay, FieldsSay;
    if s.Number? {
      NumeralFirst(s.n);
    }
  }

  lemma NumeralFirst(n: Numeral)
    requires NumeralOk(n)
    ensures NumeralText(n) != [] && (NumeralText(n)[0] == '-' || IsDigit(NumeralText(n)[0]))
  {
    hide FractionText;
    var w := Sign(n.minus) + n.whole;
    assert w != [] && NumeralText(n)[0] == w[0];
  }

  lemma QuoteRead(t: bytes, pos: nat, ps: seq<Piece>, log: seq<Event>, isKey: bool)
    requires AllFit(ps) && Has(t, pos, QuoteText(ps))
    ensures pos < |t| && t[pos] == '"'
    ensures StringScan(t, pos, log, isKey)
         == At(pos + |QuoteText(ps)|, log + [if isKey then Key(Meaning(ps)) else String(Meaning(ps))])
  {
    hide StringBody, Spelling, Meaning, AllFit;
    HasConcat(t, pos, "\"", Spelling(ps) + "\"");
    HasByte(t, pos, QuoteText(ps), 0);
    SpellingEnds(t, pos + 1, ps);
  }

  lemma WordRead(t: bytes, cf: Config, pos: nat, e: Event, log: seq<Event>)
    requires (e.Null? || e.Bool?) && Has(t, pos, WordText(e))
    ensures ScalarScan(t, cf, pos, log) == At(pos + |WordText(e)|, log + [e])
  {
    hide Letters, StringScan, NumberScan;
    HasByte(t, pos, WordText(e), 0);
    LettersBack(t, pos, WordText(e));
  }

  lemma ScalarRead(t: bytes, cf: Config, pos: nat, s: Source, v: Value, log: seq<Event>)
    requires Says(cf, s, v) && (s.Word? || s.Quote? || s.Number?) && Has(t, pos, Written(s))
    requires s.Number? ==> EndsNumber(Peek(t, pos + |Written(s)|))
    ensures pos <= |t| && Peek(t, pos) != '{' && Peek(t, pos) != '['
    ensures Reads(ScalarScan(t, cf, pos, log), pos + |Written(s)|, log + Events(v), AllModerate(s))
  {
    hide StringScan, NumberScan, NumeralText, NumeralEvent, NumeralOk, Moderate, Literal, Has, QuoteText, WordText;
    WrittenFirst(cf, s, v);
    HasByte(t, pos, Written(s), 0);
    if s.Word? {
      WordRead(t, cf, pos, s.e, log);
    } else if s.Quote? {
      QuoteRead(t, pos, s.pieces, log, false);
    } else {
      NumeralRead(t, cf, pos, s.n, log);
      NumeralScan(t, cf, pos, log);
    }
  }

  lemma NumeralScan(t: bytes, cf: Config, pos: nat, log: seq<Event>)
    requires pos < |t| && (t[pos] == '-' || IsDigit(t[pos]))
    ensures ScalarScan(t, cf, pos, log) == NumberScan(t, cf, pos, log)
  {
    hide NumberScan;
  }

  /** A text that means a value is read as that value, whatever follows. */
  lemma {:induction false} SourceRead(t: bytes, cf: Config, pos: nat, s: Source, v: Value, log: seq<Event>)
    requires Says(cf, s, v) && Has(t, pos, Written(s))
    requires s.Number? ==> EndsNumber(Peek(t, pos + |Written(s)|))
    ensures pos <= |t|
    ensures Reads(ParseValue(t, cf, pos, log), pos + |Written(s)|, log + Events(v), AllModerate(s))
    decreases s, 1
  {
    hide ScalarScan, ParseArray, ParseObject, Written, Says, Events, AllModerate, Reads;
    WrittenFirst(cf, s, v);
    HasByte(t, pos, Written(s), 0);
    if s.Items? {
      ArrayRead(t, cf, pos, s.items, s.end, v, log);
    } else if s.Fields? {
      ObjectRead(t, cf, pos, s.fields, s.end, v, log);
    } else {
      ScalarRead(t, cf, pos, s, v, log);
    }
  }

  lemma {:induction false} ArrayRead(t: bytes, cf: Config, pos: nat, items: seq<Item>, end: End, v: Value,
                                     log: seq<Event>)
    requires Says(cf, Items(items, end), v) && Has(t, pos, Written(Items(items, end))) && pos < |t|
    ensures Reads(ParseArray(t, cf, pos, log), pos + |Written(Items(items, end))|, log + Events(v),
                  AllModerate(Items(items, end)))
    decreases items, 1
  {
    hide *;
    SaysItems(cf, items, end, v);
    var fs := if items == [] then end.gap else items[0].before;
    ArrayWritten(items, end, fs);
    var w := if items == [] then "]" else ItemsRest(items, end);
    HasConcat(t, pos, "[", ItemsText(items, end));
    HasConcat(t, pos + 1, FillingText(fs), w);
    var p := pos + 1 + |FillingText(fs)|;
    EmptyTail(cf, end);
    if items != [] {
      ItemsFirst(cf, items, end, v.elements);
    }
    HasByte(t, p, w, 0);
    PlainByte(w[0]);
    GapRead(t, cf, pos + 1, fs, log + [StartArray]);
    ArrayStep(t, cf, pos, log);
    ArrayEvents(log, v.elements);
    ReadsExact(ParseArray(t, cf, pos, log), pos + |Written(Items(items, end))|, log + Events(v),
               AllModerate(Items(items, end)));
    if items != [] {
      ElementsRead(t, cf, p, items, end, v.elements, log + [StartArray], 0);
    }
  }

  lemma SaysItems(cf: Config, items: seq<Item>, end: End, v: Value)
    requires Says(cf, Items(items, end), v)
    ensures v.Array? && v == Array(v.elements) && EndOk(cf, end, items != []) && AllSay(cf, items, v.elements)
    ensures |items| == |v.elements| && (items == [] <==> v.elements == [])
    ensures AllModerate(Items(items, end)) == ItemsModerate(items)
  {
  }

  lemma PlainByte(c: byte)
    ensures StartsValue(c) || c == ']' || c == '}' || c == ':' || c == ',' ==> !IsBlank(c) && c != '/'
    ensures StartsValue(c) ==> c != ']' && c != '}'
  {
  }

  lemma ReadsExact(r: Scan, pos: nat, log: seq<Event>, moderate: bool)
    ensures Reads(r, pos, log, moderate) <==>
              r == At(pos, log) || (r.Failed? && r.code == NumberTooBig && !moderate)
  {
  }

  /** The first element: what it says, and its first byte. */
  lemma ItemsFirst(cf: Config, items: seq<Item>, end: End, vs: seq<Value>)
    requires items != [] && AllSay(cf, items, vs)
    ensures vs != [] && AllSay(cf, items[1..], vs[1..]) && Says(cf, items[0].value, vs[0])
    ensures Filling(items[0].before, cf.comments) && Filling(items[0].after, cf.comments)
    ensures ItemsRest(items, end)
         == Written(items[0].value) + (FillingText(items[0].after) + ItemsTail(items[1..], end))
    ensures ItemsRest(items, end) != [] && StartsValue(ItemsRest(items, end)[0])
    ensures ItemsModerate(items) <==> AllModerate(items[0].value) && ItemsModerate(items[1..])
  {
    hide Says, Written, FillingText, ItemsTail, Filling, AllModerate, StartsValue;
    var first := items[0];
    assert items == [first] + items[1..] && vs == [vs[0]] + vs[1..];
    FirstItem(cf, first, items[1..], end, vs[0], vs[1..]);
    WrittenFirst(cf, first.value, vs[0]);
    if AllModerate(first.value) && ItemsModerate(items[1..]) {
      forall k | 0 <= k < |items| ensures AllModerate(items[k].value) {
        if k > 0 {
          assert items[k] == items[1..][k - 1];
        }
      }
    }
    if ItemsModerate(items) {
      assert AllModerate(items[0].value);
    }
  }

  /** The element loop by one step, whether it succeeds or not. */
  lemma ElementsUnfold(t: bytes, cf: Config, pos: nat, log: seq<Event>, count: nat)
    requires pos <= |t|
    ensures var v := ParseValue(t, cf, pos, log);
            && (v.Failed? ==> Elements(t, cf, pos, log, count) == v)
            && (v.At? ==>
                  && v.pos <= |t|
                  && var g := GapScan(t, cf, v.pos, v.log);
                     g.At? ==> g.pos <= |t| && g.log == v.log
                               && Elements(t, cf, pos, log, count) == ElementsAfter(t, cf, g.pos, v.log, count))
  {
    hide Gap, ParseValue, ElementsAfter;
  }

  lemma ElementsAfterUnfold(t: bytes, cf: Config, pos: nat, log: seq<Event>, count: nat)
    requires pos < |t|
    ensures t[pos] == ']' ==> ElementsAfter(t, cf, pos, log, count) == At(pos + 1, log + [EndArray(Inc32(count))])
    ensures var g := GapScan(t, cf, pos + 1, log);
            t[pos] == ',' && g.At? ==>
              && g.log == log && g.pos <= |t|
              && ElementsAfter(t, cf, pos, log, count)
                 == if cf.trailingCommas && Peek(t, g.pos) == ']' then At(g.pos + 1, log + [EndArray(Inc32(count))])
                    else Elements(t, cf, g.pos, log, Inc32(count))
  {
    hide Gap, Elements;
  }

  lemma {:induction false} ElementsRead(t: bytes, cf: Config, pos: nat, items: seq<Item>, end: End, vs: seq<Value>,
                                        log: seq<Event>, count: nat)
    requires items != [] && AllSay(cf, items, vs) && EndOk(cf, end, true) && count < 0x1_0000_0000
    requires Has(t, pos, ItemsRest(items, end)) && pos <= |t|
    ensures Reads(Elements(t, cf, pos, log, count), pos + |ItemsRest(items, end)|,
                  log + ElementEvents(vs) + [EndArray(Size32(count + |vs|))], ItemsModerate(items))
    decreases items, 0
  {
    hide *;
    ItemsFirst(cf, items, end, vs);
    var first, tail := items[0], ItemsTail(items[1..], end);
    var p := pos + |Written(first.value)|;
    HasConcat(t, pos, Written(first.value), FillingText(first.after) + tail);
    TailFirst(items[1..], [], end);
    AfterValue(t, cf, p, first.after, tail);
    SourceRead(t, cf, pos, first.value, vs[0], log);
    var r := ParseValue(t, cf, pos, log);
    ReadsExact(r, p, log + Events(vs[0]), AllModerate(first.value));
    ElementsUnfold(t, cf, pos, log, count);
    var all := log + ElementEvents(vs) + [EndArray(Size32(count + |vs|))];
    ReadsExact(Elements(t, cf, pos, log, count), pos + |ItemsRest(items, end)|, all, ItemsModerate(items));
    if r.At? {
      PlainByte(tail[0]);
      GapRead(t, cf, p, first.after, r.log);
      var q := p + |FillingText(first.after)|;
      TailRead(t, cf, q, items[1..], end, vs[1..], r.log, count);
      FirstEvents(log, vs[0], vs[1..], EndArray(Size32(count + |vs|)));
      assert vs == [vs[0]] + vs[1..];
      ReadsExact(ElementsAfter(t, cf, q, r.log, count), q + |tail|, all, ItemsModerate(items[1..]));
    }
  }

  lemma {:induction false} TailRead(t: bytes, cf: Config, pos: nat, rest: seq<Item>, end: End, more: seq<Value>,
                                    log: seq<Event>, count: nat)
    requires AllSay(cf, rest, more) && EndOk(cf, end, true) && count < 0x1_0000_0000
    requires Has(t, pos, ItemsTail(rest, end)) && pos <= |t|
    ensures Reads(ElementsAfter(t, cf, pos, log, count), pos + |ItemsTail(rest, end)|,
                  log + ElementEvents(more) + [EndArray(Size32(count + (1 + |more|)))], ItemsModerate(rest))
    decreases rest, 2
  {
    hide *;
    TailFirst(rest, [], end);
    HasByte(t, pos, ItemsTail(rest, end), 0);
    HasSome(t, pos, ItemsTail(rest, end));
    var all := log + ElementEvents(more) + [EndArray(Size32(count + (1 + |more|)))];
    ReadsExact(ElementsAfter(t, cf, pos, log, count), pos + |ItemsTail(rest, end)|, all, ItemsModerate(rest));
    ElementsAfterUnfold(t, cf, pos, log, count);
    EmptyTail(cf, end);
    SameNumber(cf, rest, more);
    Counted32(count, 0);
    NoEvents(log, EndArray(Inc32(count)));
    if rest == [] {
      if end.comma {
        HasConcat(t, pos, ",", FillingText(end.gap) + "]");
        HasConcat(t, pos + 1, FillingText(end.gap), "]");
        HasByte(t, pos + 1 + |FillingText(end.gap)|, "]", 0);
        PlainByte(']');
        GapRead(t, cf, pos + 1, end.gap, log);
      }
    } else {
      MoreTail(rest, end);
      ItemsFirst(cf, rest, end, more);
      var fs, w := rest[0].before, ItemsRest(rest, end);
      HasConcat(t, pos, ",", FillingText(fs) + w);
      HasConcat(t, pos + 1, FillingText(fs), w);
      var p := pos + 1 + |FillingText(fs)|;
      HasByte(t, p, w, 0);
      HasSome(t, p, w);
      PlainByte(w[0]);
      GapRead(t, cf, pos + 1, fs, log);
      Counted32(count, |more|);
      ElementsRead(t, cf, p, rest, end, more, log, Inc32(count));
      assert Size32(Inc32(count) + |more|) == Size32(count + (1 + |more|));
    }
  }

  lemma HasSome(t: bytes, pos: nat, w: bytes)
    requires Has(t, pos, w) && w != []
    ensures pos < |t| && t[pos] == w[0]
  {
    HasAt(t, pos, w, 0);
  }

  lemma SameNumber(cf: Config, items: seq<Item>, vs: seq<Value>)
    requires AllSay(cf, items, vs)
    ensures |items| == |vs| && (items == [] <==> vs == [])
  {
  }

  lemma {:induction false} ObjectRead(t: bytes, cf: Config, pos: nat, fields: seq<Field>, end: End, v: Value,
                                      log: seq<Event>)
    requires Says(cf, Fields(fields, end), v) && Has(t, pos, Written(Fields(fields, end))) && pos < |t|
    ensures Reads(ParseObject(t, cf, pos, log), pos + |Written(Fields(fields, end))|, log + Events(v),
                  AllModerate(Fields(fields, end)))
    decreases fields, 1
  {
    hide *;
    SaysFields(cf, fields, end, v);
    var fs := if fields == [] then end.gap else fields[0].before;
    ObjectWritten(fields, end, fs);
    var w := if fields == [] then "}" else FieldsRest(fields, end);
    HasConcat(t, pos, "{", FieldsText(fields, end));
    HasConcat(t, pos + 1, FillingText(fs), w);
    var p := pos + 1 + |FillingText(fs)|;
    EmptyTail(cf, end);
    if fields != [] {
      FieldsFirst(cf, fields, end, v.members);
    }
    HasByte(t, p, w, 0);
    PlainByte(w[0]);
    GapRead(t, cf, pos + 1, fs, log + [StartObject]);
    ObjectStep(t, cf, pos, log);
    ObjectEvents(log, v.members);
    ReadsExact(ParseObject(t, cf, pos, log), pos + |Written(Fields(fields, end))|, log + Events(v),
               AllModerate(Fields(fields, end)));
    if fields != [] {
      MembersRead(t, cf, p, fields, end, v.members, log + [StartObject], 0);
    }
  }

  lemma SaysFields(cf: Config, fields: seq<Field>, end: End, v: Value)
    requires Says(cf, Fields(fields, end), v)
    ensures v.Object? && v == Object(v.members) && EndOk(cf, end, fields != []) && FieldsSay(cf, fields, v.members)
    ensures |fields| == |v.members| && (fields == [] <==> v.members == [])
    ensures AllModerate(Fields(fields, end)) == FieldsModerate(fields)
  {
  }

  lemma FieldsFirst(cf: Config, fields: seq<Field>, end: End, ms: seq<JsonValue.Pair>)
    requires fields != [] && FieldsSay(cf, fields, ms)
    ensures ms != [] && FieldsSay(cf, fields[1..], ms[1..]) && FieldSays(cf, fields[0], ms[0])
    ensures Filling(fields[0].before, cf.comments)
    ensures FieldsRest(fields, end) == MemberText(fields[0]) + FieldsTail(fields[1..], end)
    ensures FieldsRest(fields, end) != [] && FieldsRest(fields, end)[0] == '"' && StartsValue('"')
    ensures FieldsModerate(fields) <==> AllModerate(fields[0].item.value) && FieldsModerate(fields[1..])
  {
    hide Written, FillingText, FieldsTail, Filling, AllModerate, Says, MemberText;
    var f := fields[0];
    assert fields == [f] + fields[1..] && ms == [ms[0]] + ms[1..];
    FirstField(cf, f, fields[1..], end, ms[0], ms[1..]);
    NameFirst(f);
    if AllModerate(f.item.value) && FieldsModerate(fields[1..]) {
      forall k | 0 <= k < |fields| ensures AllModerate(fields[k].item.value) {
        if k > 0 {
          assert fields[k] == fields[1..][k - 1];
        }
      }
    }
    if FieldsModerate(fields) {
      assert AllModerate(fields[0].item.value);
    }
  }

  lemma NameFirst(f: Field)
    ensures MemberText(f) != [] && MemberText(f)[0] == '"'
  {
    hide FillingText, Written, Spelling;
    assert QuoteText(f.name) != [] && MemberText(f)[0] == QuoteText(f.name)[0];
  }

  /** A member by its steps, as far as they succeed. */
  lemma MemberUnfold(t: bytes, cf: Config, pos: nat, log: seq<Event>)
    requires pos < |t| && t[pos] == '"' && StringScan(t, pos, log, true).At?
    ensures var key := StringScan(t, pos, log, true);
            && key.pos <= |t|
            && var g := GapScan(t, cf, key.pos, key.log);
               g.At? && g.pos < |t| && t[g.pos] == ':' ==>
                 && g.log == key.log
                 && var h := GapScan(t, cf, g.pos + 1, key.log);
                    h.At? ==>
                      && h.log == key.log && h.pos <= |t|
                      && var v := ParseValue(t, cf, h.pos, key.log);
                         && (v.Failed? ==> Member(t, cf, pos, log) == v)
                         && (v.At? ==> v.pos <= |t| && Member(t, cf, pos, log) == GapScan(t, cf, v.pos, v.log))
  {
    hide Gap, ParseValue, StringScan;
  }

  /** A member before a byte that ends it. */
  lemma {:induction false} MemberRead(t: bytes, cf: Config, pos: nat, f: Field, m: JsonValue.Pair, tail: bytes,
                                      log: seq<Event>)
    requires FieldSays(cf, f, m) && Has(t, pos, MemberText(f)) && Has(t, pos + |MemberText(f)|, tail) && pos <= |t|
    requires tail != [] && (tail[0] == ',' || tail[0] == '}')
    ensures Reads(Member(t, cf, pos, log), pos + |MemberText(f)|, log + [Key(m.name)] + Events(m.value),
                  AllModerate(f.item.value))
    decreases f, 0
  {
    hide *;
    FieldSaysExact(cf, f, m);
    ItemSaysExact(cf, f.item, m.value);
    MemberParts(t, pos, f);
    var a := pos + |QuoteText(f.name)|;
    var b := a + |FillingText(f.middle)|;
    var c := b + 1 + |FillingText(f.item.before)|;
    var d := c + |Written(f.item.value)|;
    QuoteRead(t, pos, f.name, log, true);
    var named := log + [Key(m.name)];
    HasByte(t, b, ":", 0);
    HasSome(t, b, ":");
    PlainByte(':');
    GapRead(t, cf, a, f.middle, named);
    WrittenFirst(cf, f.item.value, m.value);
    HasByte(t, c, Written(f.item.value), 0);
    PlainByte(Written(f.item.value)[0]);
    GapRead(t, cf, b + 1, f.item.before, named);
    HasConcat(t, d, FillingText(f.item.after), tail);
    AfterValue(t, cf, d, f.item.after, tail);
    PlainByte(tail[0]);
    SourceRead(t, cf, c, f.item.value, m.value, named);
    MemberUnfold(t, cf, pos, log);
    var r := ParseValue(t, cf, c, named);
    ReadsExact(r, d, named + Events(m.value), AllModerate(f.item.value));
    ReadsExact(Member(t, cf, pos, log), pos + |MemberText(f)|, log + [Key(m.name)] + Events(m.value),
               AllModerate(f.item.value));
    if r.At? {
      GapRead(t, cf, d, f.item.after, r.log);
    }
  }

  lemma MembersUnfold(t: bytes, cf: Config, pos: nat, log: seq<Event>, count: nat)
    requires pos <= |t|
    ensures var m := Member(t, cf, pos, log);
            && (m.Failed? ==> Members(t, cf, pos, log, count) == m)
            && (m.At? ==> m.pos <= |t|
                          && Members(t, cf, pos, log, count) == MembersAfter(t, cf, m.pos, m.log, count))
  {
    hide Member, MembersAfter;
  }

  lemma MembersAfterUnfold(t: bytes, cf: Config, pos: nat, log: seq<Event>, count: nat)
    requires pos < |t|
    ensures t[pos] == '}' ==> MembersAfter(t, cf, pos, log, count) == At(pos + 1, log + [EndObject(Inc32(count))])
    ensures var g := GapScan(t, cf, pos + 1, log);
            t[pos] == ',' && g.At? ==>
              && g.log == log && g.pos <= |t|
              && MembersAfter(t, cf, pos, log, count)
                 == if cf.trailingCommas && Peek(t, g.pos) == '}' then At(g.pos + 1, log + [EndObject(Inc32(count))])
                    else Members(t, cf, g.pos, log, Inc32(count))
  {
    hide Gap, Members;
  }

  lemma {:induction false} MembersRead(t: bytes, cf: Config, pos: nat, fields: seq<Field>, end: End,
                                       ms: seq<JsonValue.Pair>, log: seq<Event>, count: nat)
    requires fields != [] && FieldsSay(cf, fields, ms) && EndOk(cf, end, true) && count < 0x1_0000_0000
    requires Has(t, pos, FieldsRest(fields, end)) && pos <= |t|
    ensures Reads(Members(t, cf, pos, log, count), pos + |FieldsRest(fields, end)|,
                  log + MemberEvents(ms) + [EndObject(Size32(count + |ms|))], FieldsModerate(fields))
    decreases fields, 0
  {
    hide *;
    FieldsFirst(cf, fields, end, ms);
    var f, tail := fields[0], FieldsTail(fields[1..], end);
    var p := pos + |MemberText(f)|;
    HasConcat(t, pos, MemberText(f), tail);
    TailFirst([], fields[1..], end);
    MemberRead(t, cf, pos, f, ms[0], tail, log);
    var r := Member(t, cf, pos, log);
    ReadsExact(r, p, log + [Key(ms[0].name)] + Events(ms[0].value), AllModerate(f.item.value));
    MembersUnfold(t, cf, pos, log, count);
    var all := log + MemberEvents(ms) + [EndObject(Size32(count + |ms|))];
    ReadsExact(Members(t, cf, pos, log, count), pos + |FieldsRest(fields, end)|, all, FieldsModerate(fields));
    if r.At? {
      FieldsTailRead(t, cf, p, fields[1..], end, ms[1..], r.log, count);
      FirstMemberEvents(log, ms[0], ms[1..], EndObject(Size32(count + |ms|)));
      assert ms == [ms[0]] + ms[1..];
      ReadsExact(MembersAfter(t, cf, p, r.log, count), p + |tail|, all, FieldsModerate(fields[1..]));
    }
  }

  lemma {:induction false} FieldsTailRead(t: bytes, cf: Config, pos: nat, rest: seq<Field>, end: End,
                                          more: seq<JsonValue.Pair>, log: seq<Event>, count: nat)
    requires FieldsSay(cf, rest, more) && EndOk(cf, end, true) && count < 0x1_0000_0000
    requires Has(t, pos, FieldsTail(rest, end)) && pos <= |t|
    ensures Reads(MembersAfter(t, cf, pos, log, count), pos + |FieldsTail(rest, end)|,
                  log + MemberEvents(more) + [EndObject(Size32(count + (1 + |more|)))], FieldsModerate(rest))
    decreases rest, 2
  {
    hide *;
    TailFirst([], rest, end);
    HasByte(t, pos, FieldsTail(rest, end), 0);
    HasSome(t, pos, FieldsTail(rest, end));
    var all := log + MemberEvents(more) + [EndObject(Size32(count + (1 + |more|)))];
    ReadsExact(MembersAfter(t, cf, pos, log, count), pos + |FieldsTail(rest, end)|, all, FieldsModerate(rest));
    MembersAfterUnfold(t, cf, pos, log, count);
    EmptyTail(cf, end);
    SameFields(cf, rest, more);
    Counted32(count, 0);
    NoEvents(log, EndObject(Inc32(count)));
    if rest == [] {
      if end.comma {
        HasConcat(t, pos, ",", FillingText(end.gap) + "}");
        HasConcat(t, pos + 1, FillingText(end.gap), "}");
        HasByte(t, pos + 1 + |FillingText(end.gap)|, "}", 0);
        PlainByte('}');
        GapRead(t, cf, pos + 1, end.gap, log);
      }
    } else {
      MoreFieldsTail(rest, end);
      FieldsFirst(cf, rest, end, more);
      var fs, w := rest[0].before, FieldsRest(rest, end);
      HasConcat(t, pos, ",", FillingText(fs) + w);
      HasConcat(t, pos + 1, FillingText(fs), w);
      var p := pos + 1 + |FillingText(fs)|;
      HasByte(t, p, w, 0);
      HasSome(t, p, w);
      PlainByte(w[0]);
      GapRead(t, cf, pos + 1, fs, log);
      Counted32(count, |more|);
      MembersRead(t, cf, p, rest, end, more, log, Inc32(count));
      assert Size32(Inc32(count) + |more|) == Size32(count + (1 + |more|));
    }
  }

  lemma SameFields(cf: Config, fields: seq<Field>, ms: seq<JsonValue.Pair>)
    requires FieldsSay(cf, fields, ms)
    ensures |fields| == |ms| && (fields == [] <==> ms == [])
  {
  }
}
