/** Which texts the JSON parser accepts, and the value each of them means. */
module JsonTexts {
  import opened Bytes
  import Decimals
  import opened JsonTypes
  import opened JsonScan
  import opened JsonRecursive
  import opened JsonValue
  import opened JsonRoundTrip
  import opened JsonSpelling
  import opened JsonLexis
  import opened JsonGrammar
  import opened JsonGrammarRead

  /** A text: a value between gaps, and a last line comment that no line feed ends. */
  datatype Document = Document(before: seq<Filler>, root: Source, after: seq<Filler>, last: Option<bytes>)

  function DocumentText(d: Document): bytes {
    FillingText(d.before) + (Written(d.root) + (FillingText(d.after) + LastText(d.last)))
  }

  function LastText(last: Option<bytes>): bytes {
    match last case None => [] case Some(body) => "//" + body
  }

  /** The bytes up to the end, or up to a NUL, are this document, which means the value. */
  ghost predicate IsDocument(t: bytes, cf: Config, d: Document, v: Value) {
    && Has(t, 0, DocumentText(d)) && Peek(t, |DocumentText(d)|) == '\0'
    && Filling(d.before, cf.comments) && Says(cf, d.root, v) && Filling(d.after, cf.comments)
    && (d.last.Some? ==> cf.comments && '\0' !in d.last.value && '\n' !in d.last.value)
  }

  /** The last gap of a text. */
  lemma LastGap(t: bytes, cf: Config, pos: nat, log: seq<Event>) returns (fs: seq<Filler>, last: Option<bytes>)
    requires pos <= |t| && GapScan(t, cf, pos, log).At?
    ensures Filling(fs, cf.comments) && Has(t, pos, FillingText(fs) + LastText(last))
    ensures last.Some? ==> cf.comments && '\0' !in last.value && '\n' !in last.value
    ensures GapScan(t, cf, pos, log) == At(pos + |FillingText(fs) + LastText(last)|, log)
  {
    hide Gap, FillerOk, FillingText;
    fs, last := GapSource(t, cf, pos);
    HasConcat(t, pos, FillingText(fs), LastText(last));
  }

  lemma DocumentJoin(t: bytes, d: Document)
    ensures Has(t, 0, DocumentText(d)) <==>
              && Has(t, 0, FillingText(d.before))
              && Has(t, |FillingText(d.before)|, Written(d.root))
              && Has(t, |FillingText(d.before)| + |Written(d.root)|, FillingText(d.after) + LastText(d.last))
    ensures |DocumentText(d)|
         == |FillingText(d.before)| + |Written(d.root)| + |FillingText(d.after) + LastText(d.last)|
  {
    hide FillingText, Written, LastText, Has;
    HasConcat(t, 0, FillingText(d.before), Written(d.root) + (FillingText(d.after) + LastText(d.last)));
    HasConcat(t, |FillingText(d.before)|, Written(d.root), FillingText(d.after) + LastText(d.last));
  }

  /** Parse by its steps. */
  lemma ParseStep(t: bytes, cf: Config)
    ensures var g := GapScan(t, cf, 0, []);
            && (Parse(t, cf).At? ==> g.At? && Peek(t, g.pos) != '\0')
            && (g.At? && Peek(t, g.pos) != '\0' ==>
                  && g.log == [] && g.pos <= |t|
                  && var v := ParseValue(t, cf, g.pos, []);
                     && (v.Failed? ==> Parse(t, cf) == v)
                     && (v.At? ==>
                           && v.pos <= |t|
                           && (cf.stopWhenDone ==> Parse(t, cf) == v)
                           && var e := GapScan(t, cf, v.pos, v.log);
                              && (!cf.stopWhenDone && Parse(t, cf).At? ==>
                                    e.At? && Peek(t, e.pos) == '\0' && Parse(t, cf) == e)
                              && (!cf.stopWhenDone && e.At? && Peek(t, e.pos) == '\0' ==> Parse(t, cf) == e)))
  {
    hide Gap, ParseValue;
  }

  /** A text that parses is a document, and was reported as the value that it means. */
  lemma DocumentSource(t: bytes, cf: Config) returns (d: Document, v: Value)
    requires !cf.stopWhenDone && Parse(t, cf).At?
    ensures IsDocument(t, cf, d, v) && Parse(t, cf) == At(|DocumentText(d)|, Events(v))
  {
    hide *;
    ParseStep(t, cf);
    var g := GapScan(t, cf, 0, []);
    var before := TokenGap(t, cf, 0, []);
    var s;
    s, v := ValueSource(t, cf, g.pos, []);
    var r := ParseValue(t, cf, g.pos, []);
    assert [] + Events(v) == Events(v);
    var after, last := LastGap(t, cf, r.pos, r.log);
    d := Document(before, s, after, last);
    DocumentJoin(t, d);
    IsDocumentExact(t, cf, d, v);
  }

  lemma IsDocumentExact(t: bytes, cf: Config, d: Document, v: Value)
    ensures IsDocument(t, cf, d, v) <==>
              && Has(t, 0, DocumentText(d)) && Peek(t, |DocumentText(d)|) == '\0'
              && Filling(d.before, cf.comments) && Says(cf, d.root, v) && Filling(d.after, cf.comments)
              && (d.last.Some? ==> cf.comments && '\0' !in d.last.value && '\n' !in d.last.value)
  {
    hide DocumentText, Says, Filling;
  }

  lemma LastGapRead(t: bytes, cf: Config, pos: nat, fs: seq<Filler>, last: Option<bytes>, log: seq<Event>)
    requires Filling(fs, cf.comments) && Has(t, pos, FillingText(fs) + LastText(last))
    requires last.Some? ==> cf.comments && '\0' !in last.value && '\n' !in last.value
    requires Peek(t, pos + |FillingText(fs) + LastText(last)|) == '\0'
    ensures GapScan(t, cf, pos, log) == At(pos + |FillingText(fs) + LastText(last)|, log)
    ensures EndsNumber(Peek(t, pos))
  {
    hide Gap, FillingText, FillerText, FillerOk, EndsNumber;
    HasConcat(t, pos, FillingText(fs), LastText(last));
    var p := pos + |FillingText(fs)|;
    FillingSkipped(t, cf, pos, fs);
    if last.Some? {
      OpenLineRead(t, cf, p, last.value);
    } else {
      EndOfGap(t, cf, p);
    }
    EndsHere('/');
    EndsHere('\0');
    NoFillers(fs);
    if fs != [] {
      FillerFirst(fs[0], cf.comments);
      FirstFiller(fs[1..], fs[0]);
      assert fs == [fs[0]] + fs[1..];
      HasByte(t, pos, FillingText(fs), 0);
    }
  }

  lemma EndsHere(c: byte)
    requires c == '/' || c == '\0'
    ensures EndsNumber(c)
  {
  }

  lemma NoFillers(fs: seq<Filler>)
    ensures fs == [] ==> FillingText(fs) == []
  {
  }

  /** A document is parsed, and reported as the value that it means. */
  lemma DocumentRead(t: bytes, cf: Config, d: Document, v: Value)
    requires !cf.stopWhenDone && IsDocument(t, cf, d, v)
    ensures Reads(Parse(t, cf), |DocumentText(d)|, Events(v), AllModerate(d.root))
  {
    hide *;
    IsDocumentExact(t, cf, d, v);
    DocumentJoin(t, d);
    var p := |FillingText(d.before)|;
    var q := p + |Written(d.root)|;
    RootRead(t, cf, d.before, d.root, v);
    LastGapRead(t, cf, q, d.after, d.last, Events(v));
    SourceRead(t, cf, p, d.root, v, []);
    assert [] + Events(v) == Events(v);
    var r := ParseValue(t, cf, p, []);
    ReadsExact(r, q, Events(v), AllModerate(d.root));
    ReadsExact(Parse(t, cf), |DocumentText(d)|, Events(v), AllModerate(d.root));
    ParseStep(t, cf);
  }

  /** The gap before the value. */
  lemma RootRead(t: bytes, cf: Config, before: seq<Filler>, s: Source, v: Value)
    requires Filling(before, cf.comments) && Says(cf, s, v)
    requires Has(t, 0, FillingText(before)) && Has(t, |FillingText(before)|, Written(s))
    ensures GapScan(t, cf, 0, []) == At(|FillingText(before)|, []) && Peek(t, |FillingText(before)|) != '\0'
  {
    hide Written, FillingText, Says, Filling, GapScan, IsBlank;
    WrittenFirst(cf, s, v);
    HasByte(t, |FillingText(before)|, Written(s), 0);
    PlainByte(Written(s)[0]);
    GapRead(t, cf, 0, before, []);
  }

  /**
   * Exactly the documents of the grammar are parsed, each as the value that it means; only a number that is too big
   * may stop the parser.
   */
  lemma ParseExact(t: bytes, cf: Config)
    requires !cf.stopWhenDone
    ensures Parse(t, cf).At? ==>
              exists d, v :: IsDocument(t, cf, d, v) && Parse(t, cf) == At(|DocumentText(d)|, Events(v))
    ensures forall d, v :: IsDocument(t, cf, d, v) ==>
                             Reads(Parse(t, cf), |DocumentText(d)|, Events(v), AllModerate(d.root))
  {
    hide *;
    if Parse(t, cf).At? {
      var d, v := DocumentSource(t, cf);
    }
    forall d, v | IsDocument(t, cf, d, v)
      ensures Reads(Parse(t, cf), |DocumentText(d)|, Events(v), AllModerate(d.root))
    {
      DocumentRead(t, cf, d, v);
    }
  }

  /** A text begins with a value, after a gap. */
  ghost predicate Begins(t: bytes, cf: Config, before: seq<Filler>, s: Source, v: Value) {
    && Filling(before, cf.comments) && Says(cf, s, v)
    && Has(t, 0, FillingText(before)) && Has(t, |FillingText(before)|, Written(s))
  }

  lemma BeginsExact(t: bytes, cf: Config, before: seq<Filler>, s: Source, v: Value)
    ensures Begins(t, cf, before, s, v) <==>
              && Filling(before, cf.comments) && Says(cf, s, v)
              && Has(t, 0, FillingText(before)) && Has(t, |FillingText(before)|, Written(s))
  {
    hide Filling, Says, FillingText, Written;
  }

  /** With the flag to stop after the value, whatever follows it is left alone. */
  lemma PrefixExact(t: bytes, cf: Config)
    requires cf.stopWhenDone
    ensures Parse(t, cf).At? ==>
              exists before, s, v :: Begins(t, cf, before, s, v)
                                     && Parse(t, cf) == At(|FillingText(before)| + |Written(s)|, Events(v))
    ensures forall before, s, v ::
              Begins(t, cf, before, s, v)
              && (s.Number? ==> EndsNumber(Peek(t, |FillingText(before)| + |Written(s)|))) ==>
                Reads(Parse(t, cf), |FillingText(before)| + |Written(s)|, Events(v), AllModerate(s))
  {
    hide *;
    ParseStep(t, cf);
    if Parse(t, cf).At? {
      var g := GapScan(t, cf, 0, []);
      var before := TokenGap(t, cf, 0, []);
      var s, v := ValueSource(t, cf, g.pos, []);
      assert [] + Events(v) == Events(v);
      BeginsExact(t, cf, before, s, v);
    }
    forall before, s, v | Begins(t, cf, before, s, v)
                          && (s.Number? ==> EndsNumber(Peek(t, |FillingText(before)| + |Written(s)|)))
      ensures Reads(Parse(t, cf), |FillingText(before)| + |Written(s)|, Events(v), AllModerate(s))
    {
      BeginsExact(t, cf, before, s, v);
      RootRead(t, cf, before, s, v);
      SourceRead(t, cf, |FillingText(before)|, s, v, []);
      assert [] + Events(v) == Events(v);
      ReadsExact(ParseValue(t, cf, |FillingText(before)|, []), |FillingText(before)| + |Written(s)|, Events(v),
                 AllModerate(s));
      ReadsExact(Parse(t, cf), |FillingText(before)| + |Written(s)|, Events(v), AllModerate(s));
    }
  }

  lemma OneNumber() returns (n: Numeral)
    ensures NumeralOk(n) && NumeralText(n) == "1" && Moderate(n)
  {
    n := Numeral(false, "1", [], [], []);
    assert Decimals.Decimal(0, "1") == Decimals.Decimal(1, "1"[1..]) == 1;
  }

  lemma NoBracket(t: bytes, cf: Config, pos: nat, log: seq<Event>, count: nat)
    requires pos < |t| && t[pos] == ']'
    ensures Elements(t, cf, pos, log, count).Failed?
  {
    hide Gap, ElementsAfter;
    assert ParseValue(t, cf, pos, log).Failed?;
  }

  lemma NoGap(t: bytes, cf: Config, pos: nat, log: seq<Event>)
    requires pos <= |t| && !IsBlank(Peek(t, pos)) && Peek(t, pos) != '/'
    ensures GapScan(t, cf, pos, log) == At(pos, log)
  {
  }

  /** A comma before the closing bracket is accepted with its flag only. */
  lemma CommaAtEnd(cf: Config)
    ensures Parse("[1,]", cf).At? <==> cf.trailingCommas
  {
    hide Parse, ParseValue, ParseArray, Elements, ElementsAfter, GapScan, Says, Written, AllModerate, Events,
      NumeralText, NumeralOk, Moderate, NumeralEvent;
    var t := "[1,]";
    var n := OneNumber();
    var s, v := Number(n), Leaf(NumeralEvent(n));
    OneSays(cf, n);
    assert t[1..1 + 1] == "1";
    SourceRead(t, cf, 1, s, v, [StartArray]);
    assert ParseValue(t, cf, 1, [StartArray]) == At(2, [StartArray] + Events(v));
    var log := [StartArray] + Events(v);
    NoGap(t, cf, 0, []);
    NoGap(t, cf, 1, [] + [StartArray]);
    NoGap(t, cf, 2, log);
    NoGap(t, cf, 3, log);
    NoGap(t, cf, 4, log + [EndArray(Inc32(0))]);
    ArrayStep(t, cf, 0, []);
    assert [] + [StartArray] == [StartArray];
    ElementsUnfold(t, cf, 1, [StartArray], 0);
    ElementsAfterUnfold(t, cf, 2, log, 0);
    NoBracket(t, cf, 3, log, Inc32(0));
    ArrayValue(t, cf, 0, []);
    ParseStep(t, cf);
  }

  lemma OneSays(cf: Config, n: Numeral)
    requires NumeralOk(n) && Moderate(n)
    ensures Says(cf, Number(n), Leaf(NumeralEvent(n))) && AllModerate(Number(n)) && Written(Number(n)) == NumeralText(n)
  {
    hide NumeralOk, Moderate, NumeralText, NumeralEvent;
  }

  lemma ArrayValue(t: bytes, cf: Config, pos: nat, log: seq<Event>)
    requires pos < |t| && t[pos] == '['
    ensures ParseValue(t, cf, pos, log) == ParseArray(t, cf, pos, log)
  {
    hide ParseArray;
  }
}
