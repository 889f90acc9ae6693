/** Integer literals of any length are classified by the value they denote. */
module JsonNumber {
  import opened Bytes
  import opened Decimals
  import opened JsonTypes
  import opened JsonScan

  /** The digits from `pos` on. */
  function DigitsAt(t: bytes, pos: nat): (r: bytes)
    requires pos <= |t|
    ensures AllDigits(r)
    ensures pos + |r| == SkipDigits(t, pos) && r == t[pos..pos + |r|]
    decreases |t| - pos
  {
    if IsDigitAt(t, pos) then [t[pos]] + DigitsAt(t, pos + 1) else []
  }

  /** The number that the digits at `pos` denote when they are written after a number `v`. */
  function DecimalAt(t: bytes, v: nat, pos: nat): nat
    requires pos <= |t|
  {
    Decimal(v, DigitsAt(t, pos))
  }

  lemma DigitsTail(t: bytes, pos: nat)
    requires pos <= |t|
    ensures DigitsAt(t, pos) == if IsDigitAt(t, pos) then [t[pos]] + DigitsAt(t, pos + 1) else []
  {
  }

  lemma DecimalCons(v: nat, digit: byte, rest: bytes)
    requires IsDigit(digit) && AllDigits(rest)
    ensures AllDigits([digit] + rest) && Decimal(v, [digit] + rest) == Decimal(v * 10 + DigitValue(digit), rest)
  {
    assert ([digit] + rest)[1..] == rest;
  }

  lemma DecimalNone(v: nat)
    ensures Decimal(v, []) == v
  {
  }

  lemma DecimalStep(t: bytes, v: nat, pos: nat)
    requires pos <= |t|
    ensures DecimalAt(t, v, pos)
         == if IsDigitAt(t, pos) then DecimalAt(t, v * 10 + DigitValue(t[pos]), pos + 1) else v
    ensures IsDigitAt(t, pos) ==> DecimalAt(t, v, pos) >= v * 10 + DigitValue(t[pos])
  {
    hide DigitsAt, Decimal;
    DigitsTail(t, pos);
    if IsDigitAt(t, pos) {
      var rest := DigitsAt(t, pos + 1);
      DecimalCons(v, t[pos], rest);
      DecimalGrows(v * 10 + DigitValue(t[pos]), rest);
    } else {
      assert Decimal(v, []) == v by { DecimalNone(v); }
    }
  }

  lemma OverflowsExact(value: nat, digit: nat, limit: nat)
    requires digit < 10
    ensures Overflows(value, digit, limit) <==> value * 10 + digit > limit
  {
    assert limit == limit / 10 * 10 + limit % 10;
  }

  /**
   * An integer loop never leaves its width, and stops before the last digit exactly when the number
   * denoted by all of them is past the limit.
   */
  lemma {:induction false} DigitRunExact(t: bytes, pos: nat, value: nat, limit: nat)
    requires pos <= |t| && value <= limit
    ensures var r := DigitRun(t, pos, value, limit);
            && r.value <= limit
            && r.pos <= SkipDigits(t, pos) == SkipDigits(t, r.pos)
            && DecimalAt(t, r.value, r.pos) == DecimalAt(t, value, pos)
            && (IsDigitAt(t, r.pos) <==> DecimalAt(t, value, pos) > limit)
    decreases |t| - pos
  {
    hide Overflows, DecimalAt;
    DecimalStep(t, value, pos);
    if IsDigitAt(t, pos) {
      var v := value * 10 + DigitValue(Peek(t, pos));
      OverflowsExact(value, DigitValue(Peek(t, pos)), limit);
      if !Overflows(value, DigitValue(Peek(t, pos)), limit) {
        DigitRunExact(t, pos + 1, v, limit);
      }
    }
  }

  /** An integer literal stands at `pos`: digits without a superfluous zero, point or exponent. */
  predicate IntegerAt(t: bytes, pos: nat)
    requires pos <= |t|
  {
    && IsDigitAt(t, pos)
    && (Peek(t, pos) == '0' ==> SkipDigits(t, pos) == pos + 1)
    && var e := Peek(t, SkipDigits(t, pos)); e != '.' && !IsE(e)
  }

  /** The event for the integer `v`, when it has one. */
  function IntegerFor(minus: bool, v: nat): Option<Event> {
    if minus then
      if v <= 0x8000_0000 then Some(Int(0 - v))
      else if v <= 0x8000_0000_0000_0000 then Some(Int64(0 - v))
      else None
    else
      if v < 0x1_0000_0000 then Some(Uint(v))
      else if v < 0x1_0000_0000_0000_0000 then Some(Uint64(v))
      else None
  }

  /**
   * The event carries the value the literal denotes, in the first of the integer types that holds it.
   * A literal beyond 64 bits is a double, or is refused; it is never an integer of another value.
   */
  lemma IntegersExact(t: bytes, cf: Config, pos: nat, log: seq<Event>)
    requires pos <= |t|
    requires var p := if Peek(t, pos) == '-' then pos + 1 else pos; IntegerAt(t, p)
    ensures var minus := Peek(t, pos) == '-';
            var p := if minus then pos + 1 else pos;
            var e := SkipDigits(t, p);
            match IntegerFor(minus, DecimalAt(t, 0, p))
            case Some(event) => NumberScan(t, cf, pos, log) == At(e, log + [event])
            case None => NumberScan(t, cf, pos, log) == At(e, log + [Double(t[pos..e])])
                         || NumberScan(t, cf, pos, log) == Failed(log, NumberTooBig, pos)
  {
    hide WholePart, DecimalAt, ExactFraction, RestFraction, ExponentPart;
    var minus := Peek(t, pos) == '-';
    var p := if minus then pos + 1 else pos;
    WholeExact(t, cf, pos, p, minus);
  }

  /** The integer part is held in the narrowest type that holds the number its digits denote. */
  lemma WholeExact(t: bytes, cf: Config, start: nat, p: nat, minus: bool)
    requires start <= p <= |t| && IsDigitAt(t, p) && (Peek(t, p) == '0' ==> SkipDigits(t, p) == p + 1)
    ensures var w := WholePart(t, cf, start, p, minus);
            var v := DecimalAt(t, 0, p);
            && (w.BadWhole? ==> w == BadWhole(NumberTooBig, start) && IntegerFor(minus, v).None?)
            && (w.Whole? ==> w.pos == SkipDigits(t, p)
                             && (w.width == WDouble <==> IntegerFor(minus, v).None?)
                             && (w.width != WDouble ==> w.value == v)
                             && (w.width == W32 <==> v <= if minus then MIN_INT else MAX_UINT))
  {
    hide Overflows, DigitRun, BigDigits, DecimalAt;
    DecimalStep(t, 0, p);
    if Peek(t, p) == '0' {
      DecimalStep(t, 0, p + 1);
    } else {
      var small, wide := if minus then MIN_INT else MAX_UINT, if minus then MIN_INT64 else MAX_UINT64;
      DigitRunExact(t, p + 1, DigitValue(t[p]), small);
      var a := DigitRun(t, p + 1, DigitValue(t[p]), small);
      DecimalStep(t, a.value, a.pos);
      if IsDigitAt(t, a.pos) {
        DigitRunExact(t, a.pos, a.value, wide);
        var b := DigitRun(t, a.pos, a.value, wide);
        DecimalStep(t, b.value, b.pos);
        if IsDigitAt(t, b.pos) {
          BigDigitsEnd(t, cf, p, b.pos);
        }
      }
    }
  }

  lemma {:induction false} BigDigitsEnd(t: bytes, cf: Config, start: nat, pos: nat)
    requires start <= pos <= |t|
    ensures BigDigits(t, cf, start, pos).Some? ==> BigDigits(t, cf, start, pos).value == SkipDigits(t, pos)
    decreases |t| - pos
  {
    if IsDigitAt(t, pos) && !cf.huge(t[start..pos]) {
      BigDigitsEnd(t, cf, start, pos + 1);
    }
  }

  /** The integer part never leaves the range of the type that holds it. */
  lemma WholeRange(t: bytes, cf: Config, start: nat, p: nat, minus: bool)
    requires start <= p <= |t|
    ensures var w := WholePart(t, cf, start, p, minus);
            && (w.Whole? && w.width == W32 ==> w.value <= if minus then MIN_INT else MAX_UINT)
            && (w.Whole? && w.width == W64 ==> w.value <= if minus then MIN_INT64 else MAX_UINT64)
  {
    hide DigitRun, BigDigits, DecimalAt;
    if IsDigitAt(t, p) && Peek(t, p) != '0' {
      var small, wide := if minus then MIN_INT else MAX_UINT, if minus then MIN_INT64 else MAX_UINT64;
      DigitRunExact(t, p + 1, DigitValue(t[p]), small);
      var a := DigitRun(t, p + 1, DigitValue(t[p]), small);
      if IsDigitAt(t, a.pos) {
        DigitRunExact(t, a.pos, a.value, wide);
      }
    }
  }
}
