/** The parsing of a pointer as it runs: names are written into one buffer of the size of the source. */
module JsonPointerCode {
  import opened Bytes
  import opened Decimals
  import opened Utf8
  import opened JsonPointer
  import JsonScan

  /** A token whose name is a stretch of the name buffer. */
  datatype RawToken = RawToken(start: nat, length: nat, index: nat)

  /** A raw token stands for a token; its name and a terminator lie in the used part of the buffer. */
  predicate HoldsToken(buffer: bytes, raw: RawToken, t: Token, used: nat) {
    && raw.index == t.index && raw.length == |t.name| && raw.start + raw.length < used <= |buffer|
    && buffer[raw.start..raw.start + raw.length] == t.name
  }

  /** The first raw tokens stand for these tokens. */
  predicate Holds(buffer: bytes, raws: seq<RawToken>, ts: seq<Token>, used: nat) {
    |ts| <= |raws| && used <= |buffer| && forall k :: 0 <= k < |ts| ==> HoldsToken(buffer, raws[k], ts[k], used)
  }

  /** One token more keeps the others. */
  lemma HoldsMore(buffer: bytes, raws: seq<RawToken>, ts: seq<Token>, used: nat, bufferNow: bytes,
                  rawsNow: seq<RawToken>, t: Token, usedNow: nat)
    requires Holds(buffer, raws, ts, used) && used <= usedNow <= |bufferNow| && |ts| < |rawsNow|
    requires bufferNow[..used] == buffer[..used] && rawsNow[..|ts|] == raws[..|ts|]
    requires HoldsToken(bufferNow, rawsNow[|ts|], t, usedNow)
    ensures Holds(bufferNow, rawsNow, ts + [t], usedNow)
  {
    forall k | 0 <= k < |ts| ensures HoldsToken(bufferNow, rawsNow[k], ts[k], usedNow) {
      var raw := raws[k];
      assert HoldsToken(buffer, raw, ts[k], used);
      assert rawsNow[..|ts|][k] == raws[..|ts|][k];
      assert bufferNow[raw.start..raw.start + raw.length] == bufferNow[..used][raw.start..raw.start + raw.length];
      assert buffer[raw.start..raw.start + raw.length] == buffer[..used][raw.start..raw.start + raw.length];
    }
  }

  // ---------------------------------------------------------------- percent-encoded bytes

  /** PercentDecodeStream::Take: a byte, or 0 from a triplet that is none. */
  method TakeTriplet(source: bytes, src: nat) returns (c: byte, next: nat, valid: bool)
    requires src <= |source|
    ensures src <= next <= |source|
    ensures match PercentByte(source, src)
            case Some(b) => valid && c == b && next == src + 3
            case None => !valid && c == '\0'
  {
    next := src;
    if src + 3 > |source| || source[src] != '%' {
      return '\0', next, false;
    }
    next := next + 1;
    var value: nat := 0;
    for j := 0 to 2
      invariant next == src + 1 + j
      invariant if j == 0 then value == 0
                else if j == 1 then JsonScan.HexValue(source[src + 1]) == Some(value)
                else PercentByte(source, src).Some? && PercentByte(source, src).value as int == value
    {
      var h := JsonScan.HexValue(source[next]);
      if h.None? {
        return '\0', next, false;
      }
      value := value * 16 + h.value;
      next := next + 1;
    }
    c, valid := value as char, true;
  }

  lemma TripletFits(t: bytes, pos: nat)
    ensures PercentByte(t, pos).Some? ==> pos + 3 <= |t|
  {
  }

  lemma {:induction false} TripletsTaken(t: bytes, pos: nat, cs: bytes)
    requires Triplets(t, pos, cs)
    ensures PercentBytes(t, pos, |cs|) == Some(cs)
    decreases |cs|
  {
    hide PercentByte;
    if cs != [] {
      forall j | 0 <= j < |cs| - 1 ensures PercentByte(t, pos + 3 + 3 * j) == Some(cs[1..][j]) {
        assert PercentByte(t, pos + 3 * (j + 1)) == Some(cs[j + 1]);
      }
      TripletsTaken(t, pos + 3, cs[1..]);
      assert PercentByte(t, pos + 3 * 0) == Some(cs[0]);
      assert [cs[0]] + cs[1..] == cs;
    }
  }

  lemma {:induction false} TripletRefused(t: bytes, pos: nat, n: nat, j: nat)
    requires j < n && PercentByte(t, pos + 3 * j).None?
    ensures PercentBytes(t, pos, n).None?
    decreases n
  {
    hide PercentByte;
    if j > 0 {
      TripletRefused(t, pos + 3, n - 1, j - 1);
    }
  }

  /** These bytes are what the triplets from `pos` on stand for. */
  predicate Triplets(t: bytes, pos: nat, cs: bytes) {
    forall j :: 0 <= j < |cs| ==> PercentByte(t, pos + 3 * j) == Some(cs[j])
  }

  /** What the checks of the bytes after the lead decide. */
  predicate Accepted(cs: bytes)
    requires cs != [] && |cs| == |Ranges(GetRange(cs[0]))| + 1
  {
    var ranges := Ranges(GetRange(cs[0]));
    ranges != [] && forall j :: 0 <= j < |ranges| ==> InRange(cs[j + 1], ranges[j])
  }

  lemma SequenceTaken(t: bytes, i: nat, cs: bytes)
    requires cs != [] && cs[0] as int >= 0x80 && |cs| == |Ranges(GetRange(cs[0]))| + 1
    requires PercentByte(t, i) == Some(cs[0])
    requires Triplets(t, i, cs) || exists j :: 0 <= j < |cs| && PercentByte(t, i + 3 * j).None?
    ensures PercentSequence(t, i) == if Triplets(t, i, cs) && Accepted(cs) then Some(cs) else None
  {
    hide PercentByte, GetRange, InRange, Ranges, Decode, PercentBytes;
    if Triplets(t, i, cs) {
      TripletsTaken(t, i, cs);
      RangesDecide(cs, 0);
    } else {
      var j :| 0 <= j < |cs| && PercentByte(t, i + 3 * j).None?;
      TripletRefused(t, i, |cs|, j);
    }
  }

  /** One character of a name. */
  datatype Character = Single(c: byte) | Several(len: nat) | Refused(error: PointerError)

  lemma NameEnds(t: bytes, i: nat, fragment: bool, name: bytes)
    requires i <= |t| && (i < |t| ==> t[i] == '/')
    ensures NameScan(t, i, fragment, name) == Name(i, name)
  {
  }

  lemma RangesFew(lead: byte)
    ensures |Ranges(GetRange(lead))| <= 3
  {
    hide GetRange;
  }

  class GenericPointer {
    var nameBuffer: array<byte>
    var tokens: array<RawToken>
    var tokenCount: nat
    var error: Option<PointerError>
    var errorOffset: nat

    constructor ()
      ensures fresh(nameBuffer) && fresh(tokens) && tokenCount == 0 && error == None
    {
      nameBuffer, tokens, tokenCount := new byte[0], new RawToken[0], 0;
      error, errorOffset := None, 0;
    }

    /**
     * Validate, from a stream of triplets into the name buffer: every byte that is
     * taken is put, whether it is accepted or not.
     */
    method Transcode(source: bytes, i: nat, name: nat) returns (ok: bool, len: nat, next: nat)
      requires i < |source| == nameBuffer.Length && name < i
      modifies nameBuffer
      ensures forall j :: 0 <= j < name ==> nameBuffer[j] == old(nameBuffer[j])
      ensures match PercentSequence(source, i)
              case None => !ok
              case Some(bs) =>
                ok && len == |bs| && next == i + 3 * len && name + len <= nameBuffer.Length
                && nameBuffer[name..name + len] == bs
    {
      hide PercentByte, GetRange, InRange, Decode, Ranges;
      var c, valid;
      c, next, valid := TakeTriplet(source, i);
      nameBuffer[name], len := c, 1;
      if c as int < 0x80 {
        DecodeOne([c], 0);
        if valid {
          TripletsTaken(source, i, [c]);
        }
        return valid, len, next;
      }
      assert PercentByte(source, i) == Some(c) && i + 3 <= |source| by { TripletFits(source, i); }
      ghost var cs;
      ok, len, next, cs := TransTails(source, i, name, c);
      SequenceTaken(source, i, cs);
    }

    /** The bytes after the lead byte, each checked against its range. */
    method TransTails(source: bytes, i: nat, name: nat, lead: byte)
      returns (ok: bool, len: nat, next: nat, ghost cs: bytes)
      requires i + 3 <= |source| == nameBuffer.Length && name < i && nameBuffer[name] == lead
      requires PercentByte(source, i) == Some(lead)
      modifies nameBuffer
      ensures forall j :: 0 <= j < name ==> nameBuffer[j] == old(nameBuffer[j])
      ensures cs != [] && cs[0] == lead && |cs| == len == |Ranges(GetRange(lead))| + 1
      ensures next <= |source| && name + len <= nameBuffer.Length && nameBuffer[name..name + len] == cs
      ensures if Triplets(source, i, cs) then ok == Accepted(cs) && next == i + 3 * len
              else !ok && exists j :: 0 <= j < len && PercentByte(source, i + 3 * j).None?
    {
      hide PercentByte, GetRange, InRange, Ranges;
      var ranges := Ranges(GetRange(lead));
      assert |ranges| <= 3 by { RangesFew(lead); }
      var result, valid := ranges != [], true;
      next, len, cs := i + 3, 1, [lead];
      ghost var refused := 0;
      for k := 0 to |ranges|
        invariant len == k + 1 == |cs| && next <= |source| && cs[0] == lead
        invariant forall j :: 0 <= j < name ==> nameBuffer[j] == old(nameBuffer[j])
        invariant forall j :: 0 <= j < len ==> nameBuffer[name + j] == cs[j]
        invariant result <==> ranges != [] && forall j :: 0 <= j < k ==> InRange(cs[j + 1], ranges[j])
        invariant if valid then next == i + 3 * len && Triplets(source, i, cs)
                  else refused < len && PercentByte(source, i + 3 * refused).None?
      {
        var c, fine;
        c, next, fine := TakeTriplet(source, next);
        if valid && !fine {
          refused := len;
        }
        valid := valid && fine;
        nameBuffer[name + len], len := c, len + 1;
        cs := cs + [c];
        result := result && InRange(c, ranges[k]);
      }
      ok := result && valid;
      if valid {
        assert ok == Accepted(cs);
      } else {
        assert PercentByte(source, i + 3 * refused) != Some(cs[refused]);
      }
    }

    /** `~0` and `~1` stand for a tilde and a solidus. */
    method Unescape(source: bytes, i: nat, c: byte, ghost fragment: bool, ghost sofar: bytes)
      returns (ok: bool, d: byte, next: nat)
      requires i <= |source|
      ensures i <= next <= |source| && next <= i + 1
      ensures Unescaped(source, i, fragment, sofar, c)
              == if ok then NameScan(source, next, fragment, sofar + [d]) else BadName(InvalidEscape, next)
    {
      hide NameScan;
      d, next := c, i;
      if c == '~' {
        if i < |source| && source[i] == '0' {
          d := '~';
        } else if i < |source| && source[i] == '1' {
          d := '/';
        } else {
          return false, d, next;
        }
        next := next + 1;
      }
      ok := true;
    }

    /** The next character of a name: in a fragment it may be several bytes, which are already put. */
    method TakeCharacter(source: bytes, i: nat, fragment: bool, name: nat, ghost sofar: bytes)
      returns (taken: Character, next: nat)
      requires i < |source| == nameBuffer.Length && name < i && source[i] != '/'
      modifies nameBuffer
      ensures forall j :: 0 <= j < name ==> nameBuffer[j] == old(nameBuffer[j])
      ensures match taken
              case Refused(e) => NameScan(source, i, fragment, sofar) == BadName(e, i)
              case Single(c) =>
                && i < next <= |source|
                && NameScan(source, i, fragment, sofar) == Unescaped(source, next, fragment, sofar, c)
              case Several(len) =>
                && i + len < next <= |source| && name + len <= nameBuffer.Length
                && (NameScan(source, i, fragment, sofar)
                    == NameScan(source, next, fragment, sofar + nameBuffer[name..name + len]))
    {
      hide PercentSequence, NeedPercentEncode, Unescaped;
      taken, next := Single(source[i]), i + 1;
      if fragment {
        if source[i] == '%' {
          var ok, len;
          ok, len, next := Transcode(source, i, name);
          if !ok {
            taken := Refused(InvalidPercentEncoding);
          } else if len == 1 {
            assert nameBuffer[name..name + 1][0] == nameBuffer[name];
            taken := Single(nameBuffer[name]);
          } else {
            taken := Several(len);
          }
        } else if NeedPercentEncode(source[i]) {
          taken := Refused(CharacterMustPercentEncode);
        }
      }
    }

    /** A name, from the byte after its solidus, into the buffer from `name` on. */
    method ParseName(source: bytes, start: nat, fragment: bool, name0: nat) returns (i: nat, name: nat)
      requires start <= |source| == nameBuffer.Length && name0 < start
      requires error.None?
      modifies nameBuffer, `error
      ensures nameBuffer[..name0] == old(nameBuffer[..name0])
      ensures match NameScan(source, start, fragment, [])
              case BadName(code, offset) => error == Some(code) && i == offset
              case Name(q, n) => error.None? && i == q && name0 <= name <= name0 + (q - start)
                                 && nameBuffer[name0..name] == n
    {
      hide NameScan, Unescaped;
      i, name := start, name0;
      ghost var all := NameScan(source, start, fragment, []);
      assert nameBuffer[name0..name] == [];
      while i < |source| && source[i] != '/'
        invariant start <= i <= |source| && name0 <= name <= name0 + (i - start) && error.None?
        invariant nameBuffer[..name0] == old(nameBuffer[..name0])
        invariant NameScan(source, i, fragment, nameBuffer[name0..name]) == all
        decreases |source| - i
      {
        ghost var sofar := nameBuffer[name0..name];
        var taken, next := TakeCharacter(source, i, fragment, name, sofar);
        assert nameBuffer[name0..name] == sofar;
        match taken {
          case Refused(e) =>
            error := Some(e);
            return;
          case Several(len) =>
            assert nameBuffer[name0..name + len] == sofar + nameBuffer[name..name + len];
            i, name := next, name + len;
          case Single(ch) =>
            var fine, c;
            fine, c, i := Unescape(source, next, ch, fragment, sofar);
            if !fine {
              error := Some(InvalidEscape);
              return;
            }
            nameBuffer[name] := c;
            assert nameBuffer[name0..name + 1] == sofar + [c];
            name := name + 1;
        }
      }
      NameEnds(source, i, fragment, nameBuffer[name0..name]);
    }

    /** The index of the name that was just written. */
    method Index(name0: nat, name: nat) returns (index: nat)
      requires name0 <= name <= nameBuffer.Length
      ensures index == IndexOf(nameBuffer[name0..name])
    {
      ghost var n := nameBuffer[name0..name];
      var isNumber := name > name0;
      for j := name0 to name
        invariant isNumber <==> n != [] && forall k :: name0 <= k < j ==> IsDigit(nameBuffer[k])
      {
        if !IsDigit(nameBuffer[j]) {
          isNumber := false;
        }
      }
      assert forall k :: 0 <= k < |n| ==> n[k] == nameBuffer[name0 + k];
      assert isNumber <==> n != [] && AllDigits(n) by { DigitsThroughout(name0, name); }
      if isNumber && name - name0 > 1 && nameBuffer[name0] == '0' {
        isNumber := false;
      }
      if !isNumber {
        return INVALID_INDEX;
      }
      index := 0;
      assert n[0..] == n;
      for j := 0 to name - name0
        invariant index < 0x1_0000_0000 && Convert(index, n[j..]) == Convert(0, n)
      {
        assert n[j..][1..] == n[j + 1..] && n[j] == nameBuffer[name0 + j];
        var m := (index * 10 + DigitValue(nameBuffer[name0 + j])) % 0x1_0000_0000;
        if m < index {
          return INVALID_INDEX;
        }
        index := m;
      }
      assert n[|n|..] == [];
    }

    lemma DigitsThroughout(name0: nat, name: nat)
      requires name0 <= name <= nameBuffer.Length
      ensures AllDigits(nameBuffer[name0..name]) <==> forall k :: name0 <= k < name ==> IsDigit(nameBuffer[k])
    {
      if AllDigits(nameBuffer[name0..name]) {
        forall k | name0 <= k < name ensures IsDigit(nameBuffer[k]) {
          assert nameBuffer[name0..name][k - name0] == nameBuffer[k];
        }
      }
    }

    /** One token: its name, a terminator, and its index. */
    method ParseToken(source: bytes, start: nat, fragment: bool, token: nat, name0: nat, ghost ts: seq<Token>)
      returns (i: nat, name: nat)
      requires start <= |source| == nameBuffer.Length && name0 < start && token < tokens.Length && error.None?
      requires token == |ts| && Holds(nameBuffer[..], tokens[..], ts, name0)
      modifies nameBuffer, tokens, `error
      ensures match NameScan(source, start, fragment, [])
              case BadName(code, offset) => error == Some(code) && i == offset
              case Name(q, n) => error.None? && i == q && name <= q
                                 && Holds(nameBuffer[..], tokens[..], ts + [Token(n, IndexOf(n))], name)
    {
      hide NameScan, IndexOf;
      i, name := ParseName(source, start, fragment, name0);
      if error.Some? {
        return;
      }
      ghost var full := nameBuffer[name0..name];
      nameBuffer[name] := '\0';
      assert nameBuffer[name0..name] == full;
      assert nameBuffer[..name0] == old(nameBuffer[..name0]);
      var index := Index(name0, name);
      tokens[token] := RawToken(name0, name - name0, index);
      name := name + 1;
      assert nameBuffer[..][..name0] == old(nameBuffer[..])[..name0];
      assert nameBuffer[..][name0..name - 1] == full;
      HoldsMore(old(nameBuffer[..]), old(tokens[..]), ts, name0, nameBuffer[..], tokens[..], Token(full, index), name);
    }

    /** Parse: on success the tokens hold the names, which together with their terminators fit the buffer. */
    method Parse(source: bytes)
      modifies this
      ensures match JsonPointer.Parse(source)
              case Malformed(code, offset) => error == Some(code) && errorOffset == offset && tokenCount == 0
              case Tokens(ts) => error == None && nameBuffer.Length == |source|
                                 && tokenCount == tokens.Length && |ts| == tokenCount
                                 && exists used :: Holds(nameBuffer[..], tokens[..], ts, used)
    {
      hide NameScan, IndexOf;
      error, errorOffset := None, 0;
      tokenCount := CountSolidi(source);
      tokens := new RawToken[tokenCount](_ => RawToken(0, 0, 0));
      nameBuffer := new byte[|source|](_ => '\0');
      var i := 0;
      var fragment := false;
      if source != [] && source[0] == '#' {
        fragment := true;
        i := 1;
      }
      if i != |source| && source[i] != '/' {
        error, errorOffset, tokenCount := Some(TokenMustBeginWithSolidus), i, 0;
        return;
      }
      var token: nat, name: nat := 0, 0;
      ghost var ts: seq<Token> := [];
      while i < |source|
        invariant i <= |source| && (i < |source| ==> source[i] == '/') && error.None?
        invariant name <= i && nameBuffer.Length == |source| && fresh(nameBuffer) && fresh(tokens)
        invariant tokenCount == tokens.Length == token + Solidi(source, i)
        invariant |ts| == token && Holds(nameBuffer[..], tokens[..], ts, name)
        invariant TokenScan(source, i, fragment, ts) == JsonPointer.Parse(source)
        decreases |source| - i
      {
        NameNoSolidus(source, i + 1, fragment, []);
        ghost var r := NameScan(source, i + 1, fragment, []);
        i, name := ParseToken(source, i + 1, fragment, token, name, ts);
        if error.Some? {
          errorOffset, tokenCount := i, 0;
          return;
        }
        token := token + 1;
        ts := ts + [Token(r.name, IndexOf(r.name))];
      }
      assert Holds(nameBuffer[..], tokens[..], ts, name);
    }
  }

  /** How many solidi there are from `i` on. */
  function Solidi(t: bytes, i: nat): nat
    requires i <= |t|
    decreases |t| - i
  {
    if i == |t| then 0 else (if t[i] == '/' then 1 else 0) + Solidi(t, i + 1)
  }

  method CountSolidi(t: bytes) returns (n: nat)
    ensures n == Solidi(t, 0)
  {
    n := 0;
    var i := 0;
    while i != |t|
      invariant i <= |t| && n + Solidi(t, i) == Solidi(t, 0)
      decreases |t| - i
    {
      if t[i] == '/' {
        n := n + 1;
      }
      i := i + 1;
    }
  }

  /** A name takes no solidus: tokens and solidi are equally many. */
  lemma {:induction false} NameNoSolidus(t: bytes, i: nat, fragment: bool, name: bytes)
    requires i <= |t|
    ensures var r := NameScan(t, i, fragment, name); r.Name? ==> Solidi(t, r.pos) == Solidi(t, i)
    decreases |t| - i, 0
  {
    hide PercentSequence;
    if i < |t| && t[i] != '/' {
      if fragment && t[i] == '%' {
        if PercentSequence(t, i).Some? {
          var bs := PercentSequence(t, i).value;
          PercentNoSolidus(t, i);
          if |bs| > 1 {
            NameNoSolidus(t, i + 3 * |bs|, fragment, name + bs);
          } else {
            CharacterNoSolidus(t, i + 3, fragment, name, bs[0]);
          }
        }
      } else {
        CharacterNoSolidus(t, i + 1, fragment, name, t[i]);
      }
    }
  }

  lemma {:induction false} CharacterNoSolidus(t: bytes, i: nat, fragment: bool, name: bytes, c: byte)
    requires i <= |t|
    ensures var r := Unescaped(t, i, fragment, name, c); r.Name? ==> Solidi(t, r.pos) == Solidi(t, i)
    decreases |t| - i, 1
  {
    if c != '~' {
      NameNoSolidus(t, i, fragment, name + [c]);
    } else if i < |t| && t[i] == '0' {
      NameNoSolidus(t, i + 1, fragment, name + ['~']);
    } else if i < |t| && t[i] == '1' {
      NameNoSolidus(t, i + 1, fragment, name + ['/']);
    }
  }

  lemma PercentNoSolidus(t: bytes, i: nat)
    requires i <= |t| && PercentSequence(t, i).Some?
    ensures Solidi(t, i + 3 * |PercentSequence(t, i).value|) == Solidi(t, i)
  {
    hide Decode, SequenceLength;
    PercentBytesNoSolidus(t, i, SequenceLength(PercentByte(t, i).value));
  }

  lemma {:induction false} PercentBytesNoSolidus(t: bytes, i: nat, n: nat)
    requires i <= |t| && PercentBytes(t, i, n).Some? && i + 3 * n <= |t|
    ensures Solidi(t, i + 3 * n) == Solidi(t, i)
    decreases n
  {
    if n > 0 {
      PercentByteNoSolidus(t, i);
      PercentBytesNoSolidus(t, i + 3, n - 1);
    }
  }

  lemma PercentByteNoSolidus(t: bytes, i: nat)
    requires i + 3 <= |t| && PercentByte(t, i).Some?
    ensures Solidi(t, i + 3) == Solidi(t, i)
  {
    assert Solidi(t, i) == Solidi(t, i + 1);
    assert Solidi(t, i + 1) == Solidi(t, i + 2);
    assert Solidi(t, i + 2) == Solidi(t, i + 3);
  }
}
