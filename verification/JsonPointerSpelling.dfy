/** How JSON pointers may be spelled: which strings are accepted, and the names that they mean. */
module JsonPointerSpelling {
  import opened Bytes
  import opened Utf8
  import opened JsonTypes
  import JsonScan
  import opened JsonSpelling
  import opened JsonPointer

  /** The unreserved characters by their codes (section 2.3 of RFC 3986): digits, letters and four marks. */
  predicate Unreserved(c: byte) {
    var n := c as int;
    0x30 <= n <= 0x39 || 0x41 <= n <= 0x5A || 0x61 <= n <= 0x7A || n == 0x2D || n == 0x2E || n == 0x5F || n == 0x7E
  }

  /** The three bytes of a percent-encoded byte; its letters may be of either case. */
  predicate Triplet(w: bytes, c: byte) {
    |w| == 3 && w[0] == '%' && Worth(w[1], c as int / 16) && Worth(w[2], c as int % 16)
  }

  /** Triplets for the bytes. */
  predicate Triplets(w: bytes, bs: bytes) {
    |w| == 3 * |bs| && forall k :: 0 <= k < |bs| ==> Triplet(w[3 * k..3 * k + 3], bs[k])
  }

  /** A part of a name: a byte that stands for itself, an escape, or a percent-encoded code point. */
  datatype Part =
    | Itself(c: byte)
    | Escape(tilde: bytes, digit: byte)
    | Encoded(triplets: bytes, cp: nat)

  predicate PartOk(p: Part, fragment: bool) {
    match p
    case Itself(c) => c != '~' && c != '/' && (fragment ==> Unreserved(c))
    case Escape(w, digit) => (digit == '0' || digit == '1') && (w == "~" || (fragment && Triplet(w, '~')))
    case Encoded(w, cp) => fragment && IsScalar(cp) && cp != '~' as int && Triplets(w, Encode(cp))
  }

  function PartText(p: Part): bytes {
    match p
    case Itself(c) => [c]
    case Escape(w, digit) => w + [digit]
    case Encoded(w, cp) => w
  }

  function PartMeans(p: Part): bytes
    requires p.Encoded? ==> IsScalar(p.cp)
  {
    match p
    case Itself(c) => [c]
    case Escape(w, digit) => if digit == '0' then "~" else "/"
    case Encoded(w, cp) => Encode(cp)
  }

  predicate PartsOk(ps: seq<Part>, fragment: bool) {
    forall k :: 0 <= k < |ps| ==> PartOk(ps[k], fragment)
  }

  function PartsText(ps: seq<Part>): bytes {
    if ps == [] then [] else PartText(ps[0]) + PartsText(ps[1..])
  }

  function PartsMean(ps: seq<Part>, fragment: bool): bytes
    requires PartsOk(ps, fragment)
  {
    if ps == [] then [] else PartMeans(ps[0]) + PartsMean(ps[1..], fragment)
  }

  // ---------------------------------------------------------------- percent-encoded bytes

  lemma TripletExact(t: bytes, pos: nat, c: byte)
    ensures PercentByte(t, pos) == Some(c) <==> pos + 3 <= |t| && Triplet(t[pos..pos + 3], c)
  {
    hide JsonScan.HexValue, Worth;
    if pos + 3 <= |t| {
      WorthExact(t[pos + 1], c as int / 16);
      WorthExact(t[pos + 2], c as int % 16);
      ValueBelow(t[pos + 1]);
      ValueBelow(t[pos + 2]);
    }
  }

  lemma {:induction false} TripletsExact(t: bytes, pos: nat, bs: bytes)
    ensures PercentBytes(t, pos, |bs|) == Some(bs) <==>
              bs == [] || (pos + 3 * |bs| <= |t| && Triplets(t[pos..pos + 3 * |bs|], bs))
    decreases |bs|
  {
    hide PercentByte, Triplet;
    if bs != [] {
      TripletExact(t, pos, bs[0]);
      TripletsExact(t, pos + 3, bs[1..]);
      var n := |bs|;
      assert bs == [bs[0]] + bs[1..];
      if pos + 3 * n <= |t| {
        TripletsCons(t[pos..pos + 3 * n], bs);
        assert t[pos..pos + 3 * n][..3] == t[pos..pos + 3];
        assert t[pos..pos + 3 * n][3..] == t[pos + 3..pos + 3 + 3 * (n - 1)];
      }
    }
  }

  lemma TripletsCons(w: bytes, bs: bytes)
    requires bs != [] && |w| == 3 * |bs|
    ensures Triplets(w, bs) <==> Triplet(w[..3], bs[0]) && Triplets(w[3..], bs[1..])
  {
    hide Triplet;
    var rest, more := w[3..], bs[1..];
    forall k | 0 <= k < |more|
      ensures rest[3 * k..3 * k + 3] == w[3 * (k + 1)..3 * (k + 1) + 3] && more[k] == bs[k + 1]
    {
    }
    assert w[3 * 0..3 * 0 + 3] == w[..3];
    if Triplets(w, bs) {
      forall k | 0 <= k < |more| ensures Triplet(rest[3 * k..3 * k + 3], more[k]) {
        assert Triplet(w[3 * (k + 1)..3 * (k + 1) + 3], bs[k + 1]);
      }
      assert Triplet(w[3 * 0..3 * 0 + 3], bs[0]);
    }
    if Triplet(w[..3], bs[0]) && Triplets(rest, more) {
      forall k | 0 <= k < |bs| ensures Triplet(w[3 * k..3 * k + 3], bs[k]) {
        if k > 0 {
          assert Triplet(rest[3 * (k - 1)..3 * (k - 1) + 3], more[k - 1]);
        }
      }
    }
  }

  /** Triplets are read together exactly if they encode the UTF-8 of one code point. */
  lemma SequenceExact(t: bytes, pos: nat, bs: bytes)
    ensures PercentSequence(t, pos) == Some(bs) <==>
              pos + 3 * |bs| <= |t| && Triplets(t[pos..pos + 3 * |bs|], bs)
              && exists cp: nat :: IsScalar(cp) && bs == Encode(cp)
  {
    hide PercentByte, PercentBytes, Decode, Encode, Triplets, Ranges, GetRange;
    if PercentSequence(t, pos) == Some(bs) {
      EncodeDecode(bs, 0);
      LengthKnown(bs, 0);
      SequenceCounted(t, pos, bs);
      TripletsExact(t, pos, bs);
      var cp := Decode(bs, 0).cp;
      assert bs[0..0 + |Encode(cp)|] == bs;
    }
    forall cp: nat | IsScalar(cp) && bs == Encode(cp) && pos + 3 * |bs| <= |t| && Triplets(t[pos..pos + 3 * |bs|], bs)
      ensures PercentSequence(t, pos) == Some(bs)
    {
      ScalarEncodes(cp);
      assert bs[0..0 + |bs|] == bs;
      DecodeEncode(bs, 0, cp);
      LengthKnown(bs, 0);
      TripletsExact(t, pos, bs);
      FirstOfTriplets(t, pos, bs);
    }
  }

  lemma SequenceCounted(t: bytes, pos: nat, bs: bytes)
    requires PercentSequence(t, pos) == Some(bs)
    ensures bs != [] && PercentBytes(t, pos, |bs|) == Some(bs) && Decode(bs, 0).ok && |bs| == SequenceLength(bs[0])
  {
    hide Decode, Ranges, GetRange;
    var n := SequenceLength(PercentByte(t, pos).value);
    assert PercentBytes(t, pos, n) == Some(bs);
    FirstOfTriplets(t, pos, bs);
  }

  lemma FirstOfTriplets(t: bytes, pos: nat, bs: bytes)
    requires bs != [] && PercentBytes(t, pos, |bs|) == Some(bs)
    ensures PercentByte(t, pos) == Some(bs[0])
  {
  }

  lemma ScalarEncodes(cp: nat)
    requires IsScalar(cp)
    ensures Encode(cp) != [] && cp <= 0x10FFFF
  {
  }

  // ---------------------------------------------------------------- names

  lemma UnreservedExact(c: byte)
    ensures Unreserved(c) <==> !NeedPercentEncode(c)
  {
  }

  /** A percent sign begins a triplet; it is not unreserved, nor a tilde. */
  lemma SequenceBegins(t: bytes, i: nat, bs: bytes)
    requires PercentSequence(t, i) == Some(bs)
    ensures i + 3 <= |t| && t[i] == '%' && bs != [] && i + 3 * |bs| <= |t|
  {
    hide Decode, PercentBytes, Ranges, GetRange, JsonScan.HexValue;
  }

  lemma TildeCode()
    ensures IsScalar('~' as int) && Encode('~' as int) == "~"
  {
  }

  lemma EncodedOne(cp: nat)
    requires IsScalar(cp)
    ensures |Encode(cp)| == 1 && Encode(cp)[0] == '~' <==> cp == '~' as int
    ensures |Encode(cp)| == 1 ==> Encode(cp) == [Encode(cp)[0]]
  {
  }

  /** A part of a name is read as what it means. */
  lemma PartRead(t: bytes, i: nat, p: Part, fragment: bool, name: bytes)
    requires PartOk(p, fragment) && Has(t, i, PartText(p)) && i <= |t|
    ensures i + |PartText(p)| <= |t| && PartText(p) != []
    ensures NameScan(t, i, fragment, name) == NameScan(t, i + |PartText(p)|, fragment, name + PartMeans(p))
  {
    hide PercentSequence, Encode, NeedPercentEncode, Triplet, Triplets;
    match p
    case Itself(c) =>
      HasAt(t, i, [c], 0);
      UnreservedExact(c);
      PlainPercent();
    case Escape(w, digit) =>
      if w == "~" {
        HasAt(t, i, PartText(p), 0);
        HasAt(t, i, PartText(p), 1);
        PlainPercent();
      } else {
        TripletSize(w, '~');
        HasConcat(t, i, w, [digit]);
        HasAt(t, i + 3, [digit], 0);
        TildeRead(t, i, w);
      }
    case Encoded(w, cp) =>
      EncodedRead(t, i, w, cp);
      EncodedOne(cp);
  }

  lemma PlainPercent()
    ensures NeedPercentEncode('%') && !NeedPercentEncode('~')
  {
  }

  lemma TripletSize(w: bytes, c: byte)
    requires Triplet(w, c)
    ensures |w| == 3
  {
  }

  lemma TildeRead(t: bytes, i: nat, w: bytes)
    requires Triplet(w, '~') && Has(t, i, w)
    ensures PercentSequence(t, i) == Some("~") && i + 3 <= |t| && t[i] == '%'
  {
    hide Triplet, Encode, PercentSequence;
    TripletSize(w, '~');
    TildeCode();
    var bs: bytes := "~";
    assert w[3 * 0..3 * 0 + 3] == w;
    assert Triplets(t[i..i + 3 * |bs|], bs);
    SequenceExact(t, i, bs);
    SequenceBegins(t, i, bs);
  }

  lemma EncodedRead(t: bytes, i: nat, w: bytes, cp: nat)
    requires IsScalar(cp) && Triplets(w, Encode(cp)) && Has(t, i, w)
    ensures |w| == 3 * |Encode(cp)| && PercentSequence(t, i) == Some(Encode(cp))
    ensures i + |w| <= |t| && i < |t| && t[i] == '%' && w != [] && Encode(cp) != []
  {
    hide Triplet, Encode, PercentSequence;
    var bs := Encode(cp);
    SequenceExact(t, i, bs);
    SequenceBegins(t, i, bs);
  }

  /** What is read next in a name is a part. */
  lemma NextPart(t: bytes, i: nat, fragment: bool, name: bytes) returns (p: Part)
    requires i < |t| && t[i] != '/' && NameScan(t, i, fragment, name).Name?
    ensures PartOk(p, fragment) && Has(t, i, PartText(p)) && PartText(p) != []
    ensures NameScan(t, i, fragment, name) == NameScan(t, i + |PartText(p)|, fragment, name + PartMeans(p))
  {
    hide PercentSequence, Encode, NeedPercentEncode, Triplet, Triplets;
    if fragment && t[i] == '%' {
      p := NextEncoded(t, i, name);
    } else {
      UnreservedExact(t[i]);
      if t[i] == '~' {
        p := Escape("~", t[i + 1]);
        assert t[i..i + 2] == PartText(p);
      } else {
        p := Itself(t[i]);
      }
    }
  }

  lemma NextEncoded(t: bytes, i: nat, name: bytes) returns (p: Part)
    requires i < |t| && t[i] == '%' && NameScan(t, i, true, name).Name?
    ensures PartOk(p, true) && Has(t, i, PartText(p)) && PartText(p) != []
    ensures NameScan(t, i, true, name) == NameScan(t, i + |PartText(p)|, true, name + PartMeans(p))
  {
    hide PercentSequence, Encode, NeedPercentEncode, Triplet, Triplets;
    var bs := PercentSequence(t, i).value;
    SequenceBegins(t, i, bs);
    SequenceExact(t, i, bs);
    var cp: nat :| IsScalar(cp) && bs == Encode(cp);
    EncodedOne(cp);
    var w := t[i..i + 3 * |bs|];
    if cp == '~' as int {
      OneTriplet(w, bs);
      p := Escape(w, t[i + 3]);
      assert t[i..i + 4] == PartText(p);
    } else {
      p := Encoded(w, cp);
    }
  }

  lemma OneTriplet(w: bytes, bs: bytes)
    requires Triplets(w, bs) && |bs| == 1
    ensures Triplet(w, bs[0])
  {
    hide Triplet;
    assert Triplet(w[3 * 0..3 * 0 + 3], bs[0]) && w[3 * 0..3 * 0 + 3] == w;
  }

  lemma {:induction false} NameSource(t: bytes, i: nat, fragment: bool, name: bytes) returns (ps: seq<Part>)
    requires i <= |t| && NameScan(t, i, fragment, name).Name?
    ensures PartsOk(ps, fragment) && Has(t, i, PartsText(ps))
    ensures NameScan(t, i, fragment, name) == Name(i + |PartsText(ps)|, name + PartsMean(ps, fragment))
    decreases |t| - i
  {
    hide *;
    if i == |t| || t[i] == '/' {
      ps := [];
      NoParts(t, i, fragment, name);
    } else {
      var p := NextPart(t, i, fragment, name);
      PartFits(p, fragment);
      var rest := NameSource(t, i + |PartText(p)|, fragment, name + PartMeans(p));
      ps := [p] + rest;
      FirstPart(p, rest, fragment, name);
      HasConcat(t, i, PartText(p), PartsText(rest));
    }
  }

  lemma NoParts(t: bytes, i: nat, fragment: bool, name: bytes)
    requires i <= |t| && (i == |t| || t[i] == '/')
    ensures PartsOk([], fragment) && Has(t, i, PartsText([])) && PartsText([]) == []
    ensures NameScan(t, i, fragment, name) == Name(i, name + PartsMean([], fragment))
  {
    assert name + PartsMean([], fragment) == name;
  }

  lemma FirstPart(p: Part, rest: seq<Part>, fragment: bool, name: bytes)
    requires PartOk(p, fragment) && PartsOk(rest, fragment) && (p.Encoded? ==> IsScalar(p.cp))
    ensures PartsOk([p] + rest, fragment) && PartsText([p] + rest) == PartText(p) + PartsText(rest)
    ensures name + PartMeans(p) + PartsMean(rest, fragment) == name + PartsMean([p] + rest, fragment)
  {
    hide PartText, PartMeans, PartOk;
    var ps := [p] + rest;
    assert ps[1..] == rest;
    assert PartsMean(ps, fragment) == PartMeans(p) + PartsMean(rest, fragment);
  }

  lemma PartFits(p: Part, fragment: bool)
    requires PartOk(p, fragment)
    ensures p.Encoded? ==> IsScalar(p.cp)
  {
  }

  lemma {:induction false} NameRead(t: bytes, i: nat, ps: seq<Part>, fragment: bool, name: bytes)
    requires i <= |t| && PartsOk(ps, fragment) && Has(t, i, PartsText(ps))
    requires i + |PartsText(ps)| == |t| || t[i + |PartsText(ps)|] == '/'
    ensures NameScan(t, i, fragment, name) == Name(i + |PartsText(ps)|, name + PartsMean(ps, fragment))
    decreases |ps|
  {
    hide PartText, PartMeans, PartOk;
    if ps == [] {
      assert name + PartsMean(ps, fragment) == name;
    } else {
      HasConcat(t, i, PartText(ps[0]), PartsText(ps[1..]));
      PartFits(ps[0], fragment);
      PartRead(t, i, ps[0], fragment, name);
      NameRead(t, i + |PartText(ps[0])|, ps[1..], fragment, name + PartMeans(ps[0]));
      assert name + PartMeans(ps[0]) + PartsMean(ps[1..], fragment) == name + PartsMean(ps, fragment);
    }
  }

  // ---------------------------------------------------------------- whole pointers

  function NamesText(ns: seq<seq<Part>>): bytes {
    if ns == [] then [] else "/" + PartsText(ns[0]) + NamesText(ns[1..])
  }

  /** The tokens are the names that are spelled, each with its index. */
  predicate TokensSay(tokens: seq<Token>, ns: seq<seq<Part>>, fragment: bool) {
    && |tokens| == |ns|
    && forall k :: 0 <= k < |ns| ==>
         PartsOk(ns[k], fragment) && tokens[k] == Token(PartsMean(ns[k], fragment), IndexOf(PartsMean(ns[k], fragment)))
  }

  lemma {:induction false} TokensSource(t: bytes, i: nat, fragment: bool, before: seq<Token>)
    returns (ns: seq<seq<Part>>, tokens: seq<Token>)
    requires i <= |t| && (i < |t| ==> t[i] == '/') && TokenScan(t, i, fragment, before).Tokens?
    ensures TokensSay(tokens, ns, fragment) && t[i..] == NamesText(ns)
    ensures TokenScan(t, i, fragment, before) == Tokens(before + tokens)
    decreases |t| - i
  {
    hide NameScan, PartsMean, PartsText, IndexOf, PartsOk;
    if i == |t| {
      ns, tokens := [], [];
      assert before + tokens == before;
    } else {
      var ps := NameSource(t, i + 1, fragment, []);
      assert [] + PartsMean(ps, fragment) == PartsMean(ps, fragment);
      var r := NameScan(t, i + 1, fragment, []);
      var first := Token(r.name, IndexOf(r.name));
      var rest, more := TokensSource(t, r.pos, fragment, before + [first]);
      ns, tokens := [ps] + rest, [first] + more;
      assert ns[1..] == rest;
      assert before + [first] + more == before + tokens;
      assert t[i..] == "/" + t[i + 1..r.pos] + t[r.pos..];
    }
  }

  lemma {:induction false} TokensRead(t: bytes, i: nat, ns: seq<seq<Part>>, fragment: bool, before: seq<Token>,
                                      tokens: seq<Token>)
    requires TokensSay(tokens, ns, fragment) && i <= |t| && t[i..] == NamesText(ns)
    ensures i < |t| ==> t[i] == '/'
    ensures TokenScan(t, i, fragment, before) == Tokens(before + tokens)
    decreases |ns|
  {
    hide NameScan, PartsMean, PartsText, IndexOf, PartsOk;
    if ns == [] {
      assert before + tokens == before;
    } else {
      var w, rest := PartsText(ns[0]), NamesText(ns[1..]);
      var q := i + 1 + |w|;
      assert t[i..] == "/" + w + rest;
      assert t[i..][0] == '/';
      assert t[i + 1..q] == t[i..][1..1 + |w|] == w;
      assert t[q..] == t[i..][1 + |w|..] == rest;
      assert tokens == [tokens[0]] + tokens[1..];
      TokensRead(t, q, ns[1..], fragment, before + [tokens[0]], tokens[1..]);
      NameRead(t, i + 1, ns[0], fragment, []);
      assert [] + PartsMean(ns[0], fragment) == PartsMean(ns[0], fragment);
      assert before + [tokens[0]] + tokens[1..] == before + tokens;
    }
  }

  /** A string spells these tokens, as it is or as a URI fragment. */
  ghost predicate Spells(t: bytes, tokens: seq<Token>, fragment: bool) {
    exists ns :: TokensSay(tokens, ns, fragment) && t == (if fragment then "#" else "") + NamesText(ns)
  }

  /** Exactly the spellings of tokens are accepted, each for the tokens it spells. */
  lemma PointerExact(t: bytes, tokens: seq<Token>)
    ensures Parse(t) == Tokens(tokens) <==> Spells(t, tokens, t != [] && t[0] == '#')
    ensures t == [] || t[0] != '#' ==> !Spells(t, tokens, true)
    ensures t != [] && t[0] == '#' ==> !Spells(t, tokens, false)
  {
    hide TokenScan, TokensSay, NamesText;
    var fragment := t != [] && t[0] == '#';
    var i := if fragment then 1 else 0;
    var sharp: bytes := if fragment then "#" else "";
    assert t == sharp + t[i..];
    if Parse(t) == Tokens(tokens) {
      var ns, all := TokensSource(t, i, fragment, []);
      assert [] + all == all;
    }
    forall ns | TokensSay(tokens, ns, fragment) && t == sharp + NamesText(ns) ensures Parse(t) == Tokens(tokens) {
      assert t[i..] == NamesText(ns);
      TokensRead(t, i, ns, fragment, [], tokens);
      assert [] + tokens == tokens;
    }
    forall ns ensures NamesText(ns) == [] || NamesText(ns)[0] == '/' {
      NamesFirst(ns);
    }
  }

  lemma NamesFirst(ns: seq<seq<Part>>)
    ensures NamesText(ns) == [] || NamesText(ns)[0] == '/'
  {
    hide PartsText;
  }

  /** Triplets in letters of either case mean the same name. */
  lemma SmallTriplets()
    ensures Parse("#/%c3%a9") == Parse("#/%C3%A9")
         == Tokens([Token([0xC3 as char, 0xA9 as char], INVALID_INDEX)])
  {
    hide Parse;
    EncodeTwo(3, 0x29);
    TwoTriplets("%c3%a9", 0xC3 as char, 0xA9 as char);
    TwoTriplets("%C3%A9", 0xC3 as char, 0xA9 as char);
    OnePart("#/%c3%a9", "%c3%a9", 0xE9);
    OnePart("#/%C3%A9", "%C3%A9", 0xE9);
  }

  lemma TwoTriplets(w: bytes, a: byte, b: byte)
    requires |w| == 6 && Triplet(w[..3], a) && Triplet(w[3..], b)
    ensures Triplets(w, [a, b])
  {
    hide Triplet;
    assert w[3 * 0..3 * 0 + 3] == w[..3] && w[3 * 1..3 * 1 + 3] == w[3..];
  }

  lemma OnePart(t: bytes, w: bytes, cp: nat)
    requires IsScalar(cp) && cp >= 0x80 && Triplets(w, Encode(cp)) && t == "#/" + w
    ensures Parse(t) == Tokens([Token(Encode(cp), INVALID_INDEX)])
  {
    hide Parse, Encode, Triplets;
    var ps := [Encoded(w, cp)];
    var ns := [ps];
    var name := Encode(cp);
    assert ps[1..] == [] && ns[1..] == [];
    assert PartsText(ps) == w && PartsMean(ps, true) == name;
    assert NamesText(ns) == "/" + w && t == "#" + NamesText(ns);
    HighByte(cp);
    assert TokensSay([Token(name, IndexOf(name))], ns, true);
    PointerExact(t, [Token(name, IndexOf(name))]);
  }

  lemma HighByte(cp: nat)
    requires IsScalar(cp) && cp >= 0x80
    ensures IndexOf(Encode(cp)) == INVALID_INDEX
  {
    assert Encode(cp)[0] as int >= 0x80;
  }
}
