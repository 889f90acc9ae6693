/** The grammar of a JSON text below its values: blanks and comments, and numbers. */
module JsonLexis {
  import opened Bytes
  import opened Decimals
  import opened JsonTypes
  import opened JsonScan
  import opened JsonNumber
  import opened JsonRecursive
  import opened JsonRoundTrip

  // ---------------------------------------------------------------- blanks and comments

  datatype Filler = Space(c: byte) | Block(body: bytes) | Line(body: bytes)

  /** A block comment ends with the first star and slash; a line comment with the first line feed. */
  predicate FillerOk(f: Filler, comments: bool) {
    match f
    case Space(c) => c == 32 as char || c == 9 as char || c == 10 as char || c == 13 as char
    case Block(body) =>
      comments && '\0' !in body && forall k :: 0 < k < |body| ==> !(body[k - 1] == '*' && body[k] == '/')
    case Line(body) => comments && '\0' !in body && '\n' !in body
  }

  function FillerText(f: Filler): bytes {
    match f
    case Space(c) => [c]
    case Block(body) => "/*" + (body + "*/")
    case Line(body) => "//" + (body + "\n")
  }

  predicate Filling(fs: seq<Filler>, comments: bool) {
    forall k :: 0 <= k < |fs| ==> FillerOk(fs[k], comments)
  }

  function FillingText(fs: seq<Filler>): bytes {
    if fs == [] then [] else FillerText(fs[0]) + FillingText(fs[1..])
  }

  lemma FirstFiller(fs: seq<Filler>, f: Filler)
    ensures FillingText([f] + fs) == FillerText(f) + FillingText(fs)
  {
    assert ([f] + fs)[1..] == fs;
  }

  /** The gap that begins at `pos`, without regard to blanks and comments before it. */
  lemma GapStep(t: bytes, cf: Config, pos: nat)
    requires pos <= |t|
    ensures IsBlank(Peek(t, pos)) ==> pos < |t| && Gap(t, cf, pos) == Gap(t, cf, pos + 1)
    ensures cf.comments && Peek(t, pos) == '/' ==>
              match Comment(t, pos + 1)
              case BadComment(offset) => Gap(t, cf, pos) == BadComment(offset)
              case Skipped(q) => Gap(t, cf, pos) == Gap(t, cf, q)
    ensures !IsBlank(Peek(t, pos)) && !(cf.comments && Peek(t, pos) == '/') ==> Gap(t, cf, pos) == Skipped(pos)
  {
    hide Comment;
  }

  lemma {:induction false} BlockSource(t: bytes, pos: nat) returns (body: bytes)
    requires pos <= |t| && BlockComment(t, pos).Skipped?
    ensures '\0' !in body && forall k :: 0 < k < |body| ==> !(body[k - 1] == '*' && body[k] == '/')
    ensures Has(t, pos, body + "*/") && BlockComment(t, pos).pos == pos + |body| + 2
    decreases |t| - pos
  {
    if Peek(t, pos) == '*' && Peek(t, pos + 1) == '/' {
      body := [];
      assert t[pos..pos + 2] == "*/" && body + "*/" == "*/";
    } else {
      var rest := BlockSource(t, pos + 1);
      body := [t[pos]] + rest;
      var w := rest + "*/";
      assert w[0] == t[pos + 1] by {
        HasAt(t, pos + 1, w, 0);
      }
      assert body + "*/" == [t[pos]] + w && t[pos..pos + 1] == [t[pos]];
      HasConcat(t, pos, [t[pos]], w);
    }
  }

  lemma {:induction false} BlockRead(t: bytes, pos: nat, body: bytes)
    requires '\0' !in body && forall k :: 0 < k < |body| ==> !(body[k - 1] == '*' && body[k] == '/')
    requires Has(t, pos, body + "*/")
    ensures BlockComment(t, pos) == Skipped(pos + |body| + 2)
    decreases |body|
  {
    var w := body + "*/";
    HasAt(t, pos, w, 0);
    HasAt(t, pos, w, 1);
    if body != [] {
      assert w == [body[0]] + (body[1..] + "*/");
      HasConcat(t, pos, [body[0]], body[1..] + "*/");
      BlockRead(t, pos + 1, body[1..]);
    }
  }

  /** A line comment ends with a line feed, or where the text does. */
  lemma {:induction false} LineSource(t: bytes, pos: nat) returns (body: bytes)
    requires pos <= |t|
    ensures '\0' !in body && '\n' !in body
    ensures var q := LineComment(t, pos);
            || (Has(t, pos, body + "\n") && q == pos + |body| + 1)
            || (Has(t, pos, body) && q == pos + |body| && Peek(t, q) == '\0')
    decreases |t| - pos
  {
    if Peek(t, pos) == '\0' {
      body := [];
    } else if Peek(t, pos) == '\n' {
      body := [];
      assert t[pos..pos + 1] == "\n" && body + "\n" == "\n";
    } else {
      var rest := LineSource(t, pos + 1);
      body := [t[pos]] + rest;
      assert body + "\n" == [t[pos]] + (rest + "\n") && t[pos..pos + 1] == [t[pos]];
      HasConcat(t, pos, [t[pos]], rest + "\n");
      HasConcat(t, pos, [t[pos]], rest);
    }
  }

  lemma {:induction false} LineRead(t: bytes, pos: nat, body: bytes)
    requires pos <= |t| && '\0' !in body && '\n' !in body
    ensures Has(t, pos, body + "\n") ==> LineComment(t, pos) == pos + |body| + 1
    ensures Has(t, pos, body) && Peek(t, pos + |body|) == '\0' ==> LineComment(t, pos) == pos + |body|
    decreases |body|
  {
    if body == [] {
      if Has(t, pos, body + "\n") {
        HasAt(t, pos, body + "\n", 0);
      }
    } else {
      assert body + "\n" == [body[0]] + (body[1..] + "\n") && body == [body[0]] + body[1..];
      HasConcat(t, pos, [body[0]], body[1..] + "\n");
      HasConcat(t, pos, [body[0]], body[1..]);
      if Has(t, pos, [body[0]]) {
        HasAt(t, pos, [body[0]], 0);
        LineRead(t, pos + 1, body[1..]);
      }
    }
  }

  /** A filler is passed over. */
  lemma FillerRead(t: bytes, cf: Config, pos: nat, f: Filler)
    requires FillerOk(f, cf.comments) && Has(t, pos, FillerText(f))
    ensures Gap(t, cf, pos) == Gap(t, cf, pos + |FillerText(f)|)
  {
    hide Gap, BlockComment, LineComment;
    var w := FillerText(f);
    HasAt(t, pos, w, 0);
    GapStep(t, cf, pos);
    match f
    case Space(c) =>
    case Block(body) =>
      HasAt(t, pos, w, 1);
      HasConcat(t, pos, "/*", body + "*/");
      BlockRead(t, pos + 2, body);
    case Line(body) =>
      HasAt(t, pos, w, 1);
      HasConcat(t, pos, "//", body + "\n");
      LineRead(t, pos + 2, body);
  }

  lemma {:induction false} FillingSkipped(t: bytes, cf: Config, pos: nat, fs: seq<Filler>)
    requires Filling(fs, cf.comments) && Has(t, pos, FillingText(fs))
    ensures Gap(t, cf, pos) == Gap(t, cf, pos + |FillingText(fs)|)
    decreases |fs|
  {
    hide Gap, FillerText, FillerOk;
    if fs != [] {
      HasConcat(t, pos, FillerText(fs[0]), FillingText(fs[1..]));
      FillerRead(t, cf, pos, fs[0]);
      FillingSkipped(t, cf, pos + |FillerText(fs[0])|, fs[1..]);
    }
  }

  /** Fillers before a byte that belongs to something else make up a gap. */
  lemma FillingRead(t: bytes, cf: Config, pos: nat, fs: seq<Filler>)
    requires Filling(fs, cf.comments) && Has(t, pos, FillingText(fs))
    requires var c := Peek(t, pos + |FillingText(fs)|); !IsBlank(c) && !(cf.comments && c == '/')
    ensures Gap(t, cf, pos) == Skipped(pos + |FillingText(fs)|)
  {
    hide Gap, FillingText;
    FillingSkipped(t, cf, pos, fs);
    GapStep(t, cf, pos + |FillingText(fs)|);
  }

  lemma OpenLineRead(t: bytes, cf: Config, pos: nat, body: bytes)
    requires OpenLine(t, cf, pos, body)
    ensures Gap(t, cf, pos) == Skipped(pos + 2 + |body|) && Peek(t, pos) == '/'
  {
    hide Gap, LineComment;
    HasByte(t, pos, "//" + body, 0);
    HasByte(t, pos, "//" + body, 1);
    HasConcat(t, pos, "//", body);
    GapStep(t, cf, pos);
    LineRead(t, pos + 2, body);
    EndOfGap(t, cf, pos + 2 + |body|);
  }

  /** A line comment that the end of the text ends. */
  predicate OpenLine(t: bytes, cf: Config, pos: nat, body: bytes) {
    cf.comments && '\0' !in body && '\n' !in body && Has(t, pos, "//" + body) && Peek(t, pos + 2 + |body|) == '\0'
  }

  /** A gap that was passed over is made up of fillers; the last may be a line comment without its line feed. */
  lemma {:induction false} GapSource(t: bytes, cf: Config, pos: nat) returns (fs: seq<Filler>, last: Option<bytes>)
    requires pos <= |t| && Gap(t, cf, pos).Skipped?
    ensures Filling(fs, cf.comments) && Has(t, pos, FillingText(fs))
    ensures var p, q := pos + |FillingText(fs)|, Gap(t, cf, pos).pos;
            match last
            case None => q == p
            case Some(body) => OpenLine(t, cf, p, body) && q == p + 2 + |body|
    decreases |t| - pos
  {
    hide Gap, Comment, FillerText, FillerOk, OpenLine;
    GapStep(t, cf, pos);
    last := None;
    fs := [];
    if IsBlank(Peek(t, pos)) {
      var f := BlankSource(t, cf, pos);
      var rest;
      rest, last := GapSource(t, cf, pos + 1);
      fs := [f] + rest;
      FirstFiller(rest, f);
      HasConcat(t, pos, FillerText(f), FillingText(rest));
    } else if cf.comments && Peek(t, pos) == '/' {
      var f, open := CommentSource(t, cf, pos);
      var q := Comment(t, pos + 1).pos;
      if open {
        EndOfGap(t, cf, q);
        last := Some(f.body);
      } else {
        var rest;
        rest, last := GapSource(t, cf, q);
        fs := [f] + rest;
        FirstFiller(rest, f);
        HasConcat(t, pos, FillerText(f), FillingText(rest));
      }
    }
  }

  lemma EndOfGap(t: bytes, cf: Config, q: nat)
    requires q <= |t| && Peek(t, q) == '\0'
    ensures Gap(t, cf, q) == Skipped(q)
  {
  }

  lemma BlankSource(t: bytes, cf: Config, pos: nat) returns (f: Filler)
    requires IsBlank(Peek(t, pos))
    ensures FillerOk(f, cf.comments) && Has(t, pos, FillerText(f)) && |FillerText(f)| == 1
  {
    f := Space(t[pos]);
  }

  lemma CommentSource(t: bytes, cf: Config, pos: nat) returns (f: Filler, open: bool)
    requires pos < |t| && cf.comments && t[pos] == '/' && Comment(t, pos + 1).Skipped?
    ensures var q := Comment(t, pos + 1).pos;
            if open then f.Line? && OpenLine(t, cf, pos, f.body) && q == pos + 2 + |f.body| && Peek(t, q) == '\0'
            else FillerOk(f, cf.comments) && Has(t, pos, FillerText(f)) && q == pos + |FillerText(f)|
    ensures pos < Comment(t, pos + 1).pos
  {
    hide BlockComment, LineComment;
    open := false;
    if Peek(t, pos + 1) == '*' {
      var body := BlockSource(t, pos + 2);
      f := Block(body);
      assert t[pos..pos + 2] == "/*";
      HasConcat(t, pos, "/*", body + "*/");
    } else {
      var body := LineSource(t, pos + 2);
      f := Line(body);
      assert t[pos..pos + 2] == "//";
      HasConcat(t, pos, "//", body + "\n");
      HasConcat(t, pos, "//", body);
      open := !Has(t, pos, FillerText(f));
    }
  }

  // ---------------------------------------------------------------- numbers

  /** A number: its parts after the point and the exponent's mark are empty when they are missing. */
  datatype Numeral = Numeral(minus: bool, whole: bytes, fraction: bytes, mark: bytes, exponent: bytes)

  predicate NumeralOk(n: Numeral) {
    && AllDigits(n.whole) && n.whole != [] && (|n.whole| > 1 ==> n.whole[0] != '0')
    && AllDigits(n.fraction)
    && (n.mark == [] || IsMark(n.mark))
    && AllDigits(n.exponent) && (n.exponent == [] <==> n.mark == [])
  }

  /** The letter before an exponent, and a sign if there is one. */
  predicate IsMark(mark: bytes) {
    && 1 <= |mark| <= 2 && (mark[0] == 'e' || mark[0] == 'E')
    && (|mark| == 2 ==> mark[1] == '+' || mark[1] == '-')
  }

  predicate Negative(mark: bytes) {
    |mark| == 2 && mark[1] == '-'
  }

  function NumeralText(n: Numeral): bytes {
    Sign(n.minus) + n.whole + (FractionText(n) + (n.mark + n.exponent))
  }

  function Sign(minus: bool): bytes {
    if minus then "-" else []
  }

  function FractionText(n: Numeral): bytes {
    if n.fraction == [] then [] else "." + n.fraction
  }

  predicate IsInteger(n: Numeral) {
    n.fraction == [] && n.mark == []
  }

  /** An integer that fits one of the types is reported as such; any other number by its text. */
  function NumeralEvent(n: Numeral): Event
    requires NumeralOk(n)
  {
    var e := IntegerFor(n.minus, Decimal(0, n.whole));
    if IsInteger(n) && e.Some? then e.value else Double(NumeralText(n))
  }

  /** A number that a double surely holds: its integer part fits 64 bits, its exponent is below zero or small. */
  predicate Moderate(n: Numeral)
    requires NumeralOk(n)
  {
    && IntegerFor(n.minus, Decimal(0, n.whole)).Some?
    && (n.mark == [] || Negative(n.mark) || Decimal(0, n.exponent) <= 308)
  }

  lemma {:induction false} FractionEnds(t: bytes, pos: nat, value: nat, scale: nat, digits: nat)
    requires pos <= |t|
    ensures ExactFraction(t, pos, value, scale, digits).pos == SkipDigits(t, pos)
    decreases |t| - pos
  {
    if IsDigitAt(t, pos) && value <= MAX_SIGNIFICAND {
      var v := value * 10 + DigitValue(Peek(t, pos));
      FractionEnds(t, pos + 1, v, scale + 1, if v != 0 then digits + 1 else digits);
    } else {
      RestEnds(t, pos, value != 0, scale, digits);
    }
  }

  lemma {:induction false} RestEnds(t: bytes, pos: nat, nonzero: bool, scale: nat, digits: nat)
    requires pos <= |t|
    ensures RestFraction(t, pos, nonzero, scale, digits).pos == SkipDigits(t, pos)
    decreases |t| - pos
  {
    if IsDigitAt(t, pos) {
      if digits < 17 {
        var nz := nonzero || Peek(t, pos) != '0';
        RestEnds(t, pos + 1, nz, scale + 1, if nz then digits + 1 else digits);
      } else {
        RestEnds(t, pos + 1, nonzero, scale, digits);
      }
    }
  }

  /** The exponent is read to its end, or overflows; it does not if its value is within the limit. */
  lemma {:induction false} ExponentEnds(t: bytes, pos: nat, exp: nat, max: nat)
    requires pos <= |t|
    ensures var e := Exponent(t, pos, exp, max);
            && (e.Some? ==> e.value == SkipDigits(t, pos))
            && (exp <= max ==> (e.Some? <==> DecimalAt(t, exp, pos) <= max))
    decreases |t| - pos
  {
    hide DecimalAt;
    DecimalStep(t, exp, pos);
    if IsDigitAt(t, pos) {
      var e := exp * 10 + DigitValue(Peek(t, pos));
      if e <= max {
        ExponentEnds(t, pos + 1, e, max);
      }
    }
  }

  /** The digits of the integer part. */
  lemma WholeSource(t: bytes, cf: Config, start: nat, p: nat, minus: bool) returns (whole: bytes)
    requires start <= p <= |t| && WholePart(t, cf, start, p, minus).Whole?
    ensures var w := WholePart(t, cf, start, p, minus);
            && AllDigits(whole) && whole != [] && (|whole| > 1 ==> whole[0] != '0')
            && Has(t, p, whole) && w.pos == p + |whole|
            && match IntegerFor(minus, Decimal(0, whole))
               case Some(e) => IntegerEvent(t, start, minus, w) == e
               case None => IntegerEvent(t, start, minus, w) == Double(t[start..w.pos])
  {
    hide WholePart;
    var w := WholePart(t, cf, start, p, minus);
    if Peek(t, p) == '0' {
      whole := "0";
      ZeroPart(t, cf, start, p, minus);
      assert Decimal(0, whole) == Decimal(0, whole[1..]) == 0;
    } else {
      NonzeroPart(t, cf, start, p, minus);
      whole := DigitsAt(t, p);
      WholeExact(t, cf, start, p, minus);
    }
  }

  lemma ZeroPart(t: bytes, cf: Config, start: nat, p: nat, minus: bool)
    requires start <= p <= |t| && Peek(t, p) == '0'
    ensures WholePart(t, cf, start, p, minus) == Whole(p + 1, W32, 0, 0)
  {
  }

  lemma NonzeroPart(t: bytes, cf: Config, start: nat, p: nat, minus: bool)
    requires start <= p <= |t| && Peek(t, p) != '0' && WholePart(t, cf, start, p, minus).Whole?
    ensures IsDigitAt(t, p)
  {
  }

  /** The fraction, if a point follows the integer part. */
  lemma FractionSource(t: bytes, start: nat, minus: bool, w: Whole, log: seq<Event>) returns (fraction: bytes, end: nat)
    requires w.Whole? && start <= w.pos <= |t| && NumberRest(t, start, minus, w, log).At?
    ensures AllDigits(fraction) && w.pos <= end <= |t|
    ensures if fraction == [] then end == w.pos else Has(t, w.pos, "." + fraction) && end == w.pos + 1 + |fraction|
    ensures NumberRest(t, start, minus, w, log)
         == if IsE(Peek(t, end)) then ExponentPart(t, start, end + 1, FractionScale(t, w), log)
            else if fraction != [] then DoubleScan(t, start, end, log)
            else At(end, log + [IntegerEvent(t, start, minus, w)])
  {
    hide ExactFraction, RestFraction, ExponentPart;
    end := w.pos;
    fraction := [];
    if Peek(t, w.pos) == '.' {
      FractionEnds(t, w.pos + 1, w.value, 0, w.digits);
      RestEnds(t, w.pos + 1, true, 0, w.digits);
      fraction := DigitsAt(t, w.pos + 1);
      end := w.pos + 1 + |fraction|;
      assert t[w.pos..end] == "." + fraction;
    }
  }

  /** How many digits of the fraction scale the significand. */
  function FractionScale(t: bytes, w: Whole): nat
    requires w.Whole? && w.pos <= |t|
  {
    if Peek(t, w.pos) != '.' then 0
    else if w.width == WDouble then RestFraction(t, w.pos + 1, true, 0, w.digits).scale
    else ExactFraction(t, w.pos + 1, w.value, 0, w.digits).scale
  }

  /** The exponent, from the byte of its `e`. */
  lemma ExponentSource(t: bytes, start: nat, pos: nat, scale: nat, log: seq<Event>)
    returns (mark: bytes, exponent: bytes)
    requires start <= pos < |t| && IsE(t[pos]) && ExponentPart(t, start, pos + 1, scale, log).At?
    ensures IsMark(mark) && AllDigits(exponent) && exponent != []
    ensures Has(t, pos, mark) && Has(t, pos + |mark|, exponent)
    ensures ExponentPart(t, start, pos + 1, scale, log) == DoubleScan(t, start, pos + |mark| + |exponent|, log)
  {
    hide Exponent, DecimalAt;
    var signed := Peek(t, pos + 1) == '+' || Peek(t, pos + 1) == '-';
    var p := if signed then pos + 2 else pos + 1;
    mark := t[pos..p];
    exponent := DigitsAt(t, p);
    ExponentEnds(t, p + 1, DigitValue(t[p]), 308 + scale);
  }

  /** A number that was read is a numeral, and is reported as what it means. */
  lemma NumberSource(t: bytes, cf: Config, pos: nat, log: seq<Event>) returns (n: Numeral)
    requires pos <= |t| && NumberScan(t, cf, pos, log).At?
    ensures NumeralOk(n) && Has(t, pos, NumeralText(n))
    ensures NumberScan(t, cf, pos, log) == At(pos + |NumeralText(n)|, log + [NumeralEvent(n)])
  {
    hide *;
    var minus, p, w := NumberBegins(t, cf, pos, log);
    var whole := WholeSource(t, cf, pos, p, minus);
    var fraction, end := FractionSource(t, pos, minus, w, log);
    var mark, exponent: bytes := [], [];
    if IsE(Peek(t, end)) {
      MarkHere(t, end);
      mark, exponent := ExponentSource(t, pos, end, FractionScale(t, w), log);
      MarkSome(mark);
    } else {
      HasNone(t, end);
    }
    n := Numeral(minus, whole, fraction, mark, exponent);
    PartsOk(n);
    SignAt(t, pos, minus);
    SignLength(minus);
    FractionOf(n);
    HasNone(t, w.pos);
    PartsJoin(t, pos, n);
    SliceIs(t, pos, NumeralText(n));
    var q := end + |mark| + |exponent|;
    EventOf(t, pos, w, n, q, log);
  }

  /** The sign and the integer part. */
  lemma NumberBegins(t: bytes, cf: Config, pos: nat, log: seq<Event>) returns (minus: bool, p: nat, w: Whole)
    requires pos <= |t| && NumberScan(t, cf, pos, log).At?
    ensures minus == (Peek(t, pos) == '-') && p == (if minus then pos + 1 else pos) && pos <= p <= |t|
    ensures w == WholePart(t, cf, pos, p, minus) && w.Whole? && p < w.pos <= |t|
    ensures NumberScan(t, cf, pos, log) == NumberRest(t, pos, minus, w, log)
  {
    hide WholePart, NumberRest;
    minus := Peek(t, pos) == '-';
    p := if minus then pos + 1 else pos;
    w := WholePart(t, cf, pos, p, minus);
  }

  lemma MarkHere(t: bytes, pos: nat)
    requires IsE(Peek(t, pos))
    ensures pos < |t| && IsE(t[pos])
  {
  }

  lemma PartsOk(n: Numeral)
    requires AllDigits(n.whole) && n.whole != [] && (|n.whole| > 1 ==> n.whole[0] != '0') && AllDigits(n.fraction)
    requires (n.mark == [] || IsMark(n.mark)) && AllDigits(n.exponent) && (n.exponent == [] <==> n.mark == [])
    ensures NumeralOk(n)
  {
    hide AllDigits, IsMark;
  }

  lemma SignLength(minus: bool)
    ensures |Sign(minus)| == if minus then 1 else 0
  {
  }

  lemma FractionOf(n: Numeral)
    ensures FractionText(n) == if n.fraction == [] then [] else "." + n.fraction
  {
  }

  /** The event for a number whose parts have been read up to `q`. */
  lemma EventOf(t: bytes, pos: nat, w: Whole, n: Numeral, q: nat, log: seq<Event>)
    requires NumeralOk(n) && w.Whole? && pos <= w.pos <= q <= |t| && t[pos..q] == NumeralText(n)
    requires match IntegerFor(n.minus, Decimal(0, n.whole))
             case Some(e) => IntegerEvent(t, pos, n.minus, w) == e
             case None => IntegerEvent(t, pos, n.minus, w) == Double(t[pos..w.pos])
    requires n.fraction == [] && n.mark == [] ==> q == w.pos
    ensures if n.fraction == [] && n.mark == [] then NumeralEvent(n) == IntegerEvent(t, pos, n.minus, w)
            else DoubleScan(t, pos, q, log) == At(q, log + [NumeralEvent(n)])
  {
    hide NumeralOk, Decimal, IntegerFor, IntegerEvent, NumeralText;
  }

  lemma MarkSome(mark: bytes)
    requires IsMark(mark)
    ensures mark != []
  {
  }

  lemma HasNone(t: bytes, pos: nat)
    requires pos <= |t|
    ensures Has(t, pos, []) && AllDigits([])
  {
  }

  /** The parts of a numeral, one after the other. */
  lemma PartsJoin(t: bytes, pos: nat, n: Numeral)
    ensures var p := pos + |Sign(n.minus)|;
            var e := p + |n.whole|;
            var end := e + |FractionText(n)|;
            && pos + |NumeralText(n)| == end + |n.mark| + |n.exponent|
            && (Has(t, pos, NumeralText(n)) <==>
                  && Has(t, pos, Sign(n.minus)) && Has(t, p, n.whole) && Has(t, e, FractionText(n))
                  && Has(t, end, n.mark) && Has(t, end + |n.mark|, n.exponent))
  {
    hide FractionText, Has;
    var p := pos + |Sign(n.minus)|;
    var e := p + |n.whole|;
    HasConcat(t, pos, Sign(n.minus) + n.whole, FractionText(n) + (n.mark + n.exponent));
    HasConcat(t, pos, Sign(n.minus), n.whole);
    HasConcat(t, e, FractionText(n), n.mark + n.exponent);
    HasConcat(t, e + |FractionText(n)|, n.mark, n.exponent);
  }

  lemma SignAt(t: bytes, pos: nat, minus: bool)
    requires pos <= |t|
    ensures Has(t, pos, Sign(minus)) <==> minus ==> Peek(t, pos) == '-'
  {
    if pos < |t| {
      assert t[pos..pos + 1] == [t[pos]];
      assert t[pos..pos + 1][0] == t[pos];
    }
  }

  lemma SliceIs(t: bytes, pos: nat, w: bytes)
    requires Has(t, pos, w)
    ensures pos + |w| <= |t| && t[pos..pos + |w|] == w
  {
  }

  // Numerals are read.

  lemma WholeRead(t: bytes, cf: Config, start: nat, p: nat, n: Numeral)
    requires start <= p <= |t| && NumeralOk(n) && Has(t, p, n.whole) && !IsDigitAt(t, p + |n.whole|)
    ensures var w := WholePart(t, cf, start, p, n.minus);
            && (w.BadWhole? ==> w == BadWhole(NumberTooBig, start) && IntegerFor(n.minus, Decimal(0, n.whole)).None?)
            && (w.Whole? ==> w.pos == p + |n.whole|)
  {
    hide WholePart, Decimal;
    HasByte(t, p, n.whole, 0);
    DigitsBack(t, p, n.whole);
    WholeExact(t, cf, start, p, n.minus);
  }

  lemma WholeReported(t: bytes, cf: Config, start: nat, p: nat, n: Numeral)
    requires start <= p <= |t| && NumeralOk(n) && Has(t, p, n.whole) && !IsDigitAt(t, p + |n.whole|)
    requires WholePart(t, cf, start, p, n.minus).Whole? && IsInteger(n) && Has(t, start, NumeralText(n))
    requires p == if n.minus then start + 1 else start
    ensures var w := WholePart(t, cf, start, p, n.minus);
            w.pos == p + |n.whole| && IntegerEvent(t, start, n.minus, w) == NumeralEvent(n)
  {
    hide WholePart, Decimal;
    HasByte(t, p, n.whole, 0);
    DigitsBack(t, p, n.whole);
    WholeExact(t, cf, start, p, n.minus);
    assert NumeralText(n) == Sign(n.minus) + n.whole;
  }

  lemma FractionRead(t: bytes, start: nat, minus: bool, w: Whole, fraction: bytes, log: seq<Event>)
    requires w.Whole? && start <= w.pos <= |t| && AllDigits(fraction)
    requires fraction != [] ==> Has(t, w.pos, "." + fraction)
    requires var c := Peek(t, w.pos + if fraction == [] then 0 else 1 + |fraction|); !IsDigit(c) && c != '.'
    ensures var end := w.pos + if fraction == [] then 0 else 1 + |fraction|;
            && end <= |t|
            && NumberRest(t, start, minus, w, log)
               == if IsE(Peek(t, end)) then ExponentPart(t, start, end + 1, FractionScale(t, w), log)
                  else if fraction != [] then DoubleScan(t, start, end, log)
                  else At(end, log + [IntegerEvent(t, start, minus, w)])
  {
    hide NumberRest, ExponentPart, FractionScale, DoubleScan, IntegerEvent, SkipDigits, AllDigits, Has, Decimal,
      DecimalAt;
    if fraction == [] {
      NoFraction(t, start, minus, w, log);
    } else {
      HasConcat(t, w.pos, ".", fraction);
      HasByte(t, w.pos, ".", 0);
      DigitsFirst(t, w.pos + 1, fraction);
      SomeFraction(t, start, minus, w, log);
    }
  }

  lemma NoFraction(t: bytes, start: nat, minus: bool, w: Whole, log: seq<Event>)
    requires w.Whole? && start <= w.pos <= |t| && Peek(t, w.pos) != '.'
    ensures NumberRest(t, start, minus, w, log)
         == if IsE(Peek(t, w.pos)) then ExponentPart(t, start, w.pos + 1, FractionScale(t, w), log)
            else At(w.pos, log + [IntegerEvent(t, start, minus, w)])
  {
    hide ExponentPart;
  }

  lemma SomeFraction(t: bytes, start: nat, minus: bool, w: Whole, log: seq<Event>)
    requires w.Whole? && start <= w.pos < |t| && Peek(t, w.pos) == '.' && IsDigitAt(t, w.pos + 1)
    ensures var end := SkipDigits(t, w.pos + 1);
            NumberRest(t, start, minus, w, log)
            == if IsE(Peek(t, end)) then ExponentPart(t, start, end + 1, FractionScale(t, w), log)
               else DoubleScan(t, start, end, log)
  {
    hide ExactFraction, RestFraction, ExponentPart, DoubleScan;
    FractionEnds(t, w.pos + 1, w.value, 0, w.digits);
    RestEnds(t, w.pos + 1, true, 0, w.digits);
  }

  lemma ExponentRead(t: bytes, start: nat, pos: nat, scale: nat, mark: bytes, exponent: bytes, log: seq<Event>)
    requires start <= pos && IsMark(mark) && AllDigits(exponent) && exponent != []
    requires Has(t, pos, mark) && Has(t, pos + |mark|, exponent) && !IsDigitAt(t, pos + |mark| + |exponent|)
    ensures pos < |t| && IsE(Peek(t, pos))
    ensures var r := ExponentPart(t, start, pos + 1, scale, log);
            || r == DoubleScan(t, start, pos + |mark| + |exponent|, log)
            || (r == Failed(log, NumberTooBig, start) && !Negative(mark) && Decimal(0, exponent) > 308)
  {
    hide Exponent, Decimal, AllDigits, DecimalAt, DoubleScan, Has;
    var p := pos + |mark|;
    HasByte(t, pos, mark, 0);
    HasByte(t, p, exponent, 0);
    if |mark| == 2 {
      HasByte(t, pos, mark, 1);
    }
    DigitsFirst(t, p, exponent);
    OnlyDigits(t, p);
    ExponentEnds(t, p + 1, DigitValue(t[p]), 308 + scale);
  }

  lemma OnlyDigits(t: bytes, p: nat)
    ensures IsDigitAt(t, p) ==> p < |t| && Peek(t, p) != '+' && Peek(t, p) != '-'
  {
  }

  lemma DigitsFirst(t: bytes, p: nat, w: bytes)
    requires AllDigits(w) && w != [] && Has(t, p, w) && !IsDigitAt(t, p + |w|)
    ensures IsDigitAt(t, p) && p < |t| && SkipDigits(t, p) == SkipDigits(t, p + 1) == p + |w|
    ensures Decimal(0, w) == DecimalAt(t, DigitValue(t[p]), p + 1)
  {
    HasByte(t, p, w, 0);
    DigitsBack(t, p, w);
    DecimalStep(t, 0, p);
  }

  /** A numeral that nothing continues is read as what it means, unless it is too big. */
  lemma NumeralRead(t: bytes, cf: Config, pos: nat, n: Numeral, log: seq<Event>)
    requires NumeralOk(n) && Has(t, pos, NumeralText(n)) && EndsNumber(Peek(t, pos + |NumeralText(n)|))
    ensures var r := NumberScan(t, cf, pos, log);
            || r == At(pos + |NumeralText(n)|, log + [NumeralEvent(n)])
            || (r == Failed(log, NumberTooBig, pos) && !Moderate(n))
    ensures pos < |t| && (t[pos] == '-' || IsDigit(t[pos]))
  {
    hide WholePart, NumberRest, ExponentPart, FractionScale, IntegerEvent, Decimal, AllDigits, IntegerFor, NumeralText,
      Has, IsMark;
    PartsJoin(t, pos, n);
    var p := pos + |Sign(n.minus)|;
    var e := p + |n.whole|;
    var end := e + |FractionText(n)|;
    NumeralBytes(t, pos, n);
    SliceIs(t, pos, NumeralText(n));
    WholeRead(t, cf, pos, p, n);
    var w := WholePart(t, cf, pos, p, n.minus);
    if w.Whole? {
      FractionRead(t, pos, n.minus, w, n.fraction, log);
      if n.mark != [] {
        ExponentRead(t, pos, end, FractionScale(t, w), n.mark, n.exponent, log);
      } else if n.fraction == [] {
        WholeReported(t, cf, pos, p, n);
      }
    }
  }

  /** The bytes at which the parts of a numeral begin. */
  lemma NumeralBytes(t: bytes, pos: nat, n: Numeral)
    requires NumeralOk(n) && Has(t, pos, NumeralText(n)) && EndsNumber(Peek(t, pos + |NumeralText(n)|))
    ensures pos < |t| && (if n.minus then t[pos] == '-' else IsDigit(t[pos]))
    ensures var e := pos + |Sign(n.minus)| + |n.whole|;
            var end := e + |FractionText(n)|;
            && !IsDigitAt(t, e) && !IsDigitAt(t, end) && Peek(t, end) != '.'
            && (n.mark == [] ==> !IsE(Peek(t, end)))
  {
    hide NumeralText, Has, AllDigits;
    PartsJoin(t, pos, n);
    var p := pos + |Sign(n.minus)|;
    var e := p + |n.whole|;
    var end := e + |FractionText(n)|;
    DigitAt(n.whole, 0);
    HasByte(t, p, n.whole, 0);
    if n.minus {
      HasByte(t, pos, Sign(true), 0);
    }
    if n.mark != [] {
      HasByte(t, end, n.mark, 0);
    }
    if n.fraction != [] {
      HasByte(t, e, FractionText(n), 0);
    }
  }

  lemma DigitAt(w: bytes, k: nat)
    requires AllDigits(w) && k < |w|
    ensures IsDigit(w[k])
  {
  }
}
