/** What the accessors read from the tokens of an encoding is the entry that was encoded. */
module BdecodeValues {
  import opened Bytes
  import opened Decimals
  import opened Bencoding
  import opened Bdecode
  import opened BdecodeWalk
  import opened BdecodeSpans
  import opened BdecodeNode
  import opened BdecodeRoundTrip

  /** An integer as int_value can return it: the least 64-bit integer reads as 0. */
  function ReadBack(n: int): int {
    if n == -0x8000_0000_0000_0000 then 0 else n
  }

  /**
   * The accessors on token `i` describe the entry: the section of the buffer is its encoding, and the value,
   * or size and members, are those of the entry, all the way down.
   */
  predicate Represents(b: bytes, t: seq<Token>, size: nat, i: nat, e: Entry)
    requires Readable(b, t, size)
    decreases e
  {
    && i < |t|
    && Section(b, t, size, i) == Encode(e)
    && match e
       case Undefined => false
       case Integer(n) => t[i].kind.IntegerToken? && IntValueAt(b, t, size, i) == ReadBack(n)
       case Str(s) => t[i].kind.StringToken? && StringValueAt(b, t, size, i) == s
       case List(items) =>
         && IsListAt(t, i) && ItemCount(t, i) == |items|
         && forall k :: 0 <= k < |items| ==> Represents(b, t, size, ItemToken(t, i, k), items[k])
       case Dictionary(ms) =>
         && IsDictAt(t, i) && ItemCount(t, i) == 2 * |ms|
         && forall k :: 0 <= k < |ms| ==>
              NameAt(b, t, size, i, k) == ms[k].key && Represents(b, t, size, ItemToken(t, i, 2 * k + 1), ms[k].value)
  }

  // ---------------------------------------------------------------- tokens in an array

  /** The tokens `w` stand at `i`. */
  predicate HasTokens(t: seq<Token>, i: nat, w: seq<Token>) {
    i + |w| <= |t| && forall k :: 0 <= k < |w| ==> t[i + k] == w[k]
  }

  lemma HasTokensConcat(t: seq<Token>, i: nat, v: seq<Token>, w: seq<Token>)
    requires HasTokens(t, i, v + w)
    ensures HasTokens(t, i, v) && HasTokens(t, i + |v|, w)
  {
    assert forall k :: 0 <= k < |v| ==> (v + w)[k] == v[k];
    forall k | 0 <= k < |w| ensures t[i + |v| + k] == w[k] {
      assert (v + w)[|v| + k] == w[k];
    }
  }

  lemma FirstToken(e: Entry, off: nat)
    requires Typed(e)
    ensures Tokens(e, off) != []
    ensures var first := Tokens(e, off)[0];
            first.offset == off && first.next == |Tokens(e, off)| && !first.kind.EndToken?
  {
    hide ItemTokens, MemberTokens;
  }

  /** The tokens of an entry, followed by a token that starts where the encoding ends. */
  predicate Placed(b: bytes, t: seq<Token>, i: nat, off: nat, tokens: seq<Token>, text: bytes) {
    HasTokens(t, i, tokens) && Has(b, off, text) && i + |tokens| < |t| && t[i + |tokens|].offset == off + |text|
  }

  // ---------------------------------------------------------------- scalars

  /** The sign and the digits of an integer. */
  lemma IntegerText(b: bytes, off: nat, n: int)
    requires Has(b, off, Encode(Integer(n)))
    ensures var m: nat := if n < 0 then -n else n;
            var from := if n < 0 then off + 2 else off + 1;
            && from + |Dec(m)| + 1 == off + |Encode(Integer(n))| <= |b|
            && Has(b, from, Dec(m) + "e") && (b[off + 1] == '-' <==> n < 0)
  {
    hide Dec, Has;
    var m: nat := if n < 0 then -n else n;
    if n < 0 {
      assert "i" + ("-" + Dec(m)) + "e" == "i" + "-" + (Dec(m) + "e");
      HasThree(b, off, "i", "-", Dec(m) + "e");
      HasAt(b, off + 1, "-", 0);
      HasEnd(b, off + 2, Dec(m) + "e");
    } else {
      assert "i" + Dec(m) + "e" == "i" + (Dec(m) + "e");
      HasConcat(b, off, "i", Dec(m) + "e");
      HasAt(b, off + 1, Dec(m) + "e", 0);
      HasEnd(b, off + 1, Dec(m) + "e");
    }
  }

  lemma HasEnd(b: bytes, pos: nat, w: bytes)
    requires Has(b, pos, w)
    ensures pos + |w| <= |b|
  {
  }

  lemma IntegerReads(b: bytes, t: seq<Token>, size: nat, i: nat, n: int, off: nat)
    requires Readable(b, t, size) && Typed(Integer(n))
    requires Placed(b, t, i, off, Tokens(Integer(n), off), Encode(Integer(n)))
    ensures t[i].kind.IntegerToken? && IntValueAt(b, t, size, i) == ReadBack(n)
  {
    hide ParseInt, Decimal, Dec, Walkable, SpansOk, Has, Encode;
    var m: nat := if n < 0 then -n else n;
    assert t[i + 0] == Tokens(Integer(n), off)[0];
    HasNext(b, t, size, i);
    IntegerText(b, off, n);
    ParseIntBack(b, if n < 0 then off + 2 else off + 1, t[i + 1].offset + 1, Dec(m), 'e', 0);
    DecBack(m);
  }

  lemma StringReads(b: bytes, t: seq<Token>, size: nat, i: nat, s: bytes, off: nat)
    requires Readable(b, t, size)
    requires Placed(b, t, i, off, [StringTokenFor(s, off)], StringText(s))
    ensures t[i].kind.StringToken? && StringValueAt(b, t, size, i) == s
  {
    assert t[i + 0] == [StringTokenFor(s, off)][0];
    HasNext(b, t, size, i);
    HasConcat(b, off, Dec(|s|) + ":", s);
  }

  lemma SectionReads(b: bytes, t: seq<Token>, size: nat, i: nat, e: Entry, off: nat)
    requires Readable(b, t, size) && Typed(e) && Placed(b, t, i, off, Tokens(e, off), Encode(e))
    ensures Section(b, t, size, i) == Encode(e)
  {
    hide Tokens, Encode;
    FirstToken(e, off);
    assert t[i] == Tokens(e, off)[0];
  }

  // ---------------------------------------------------------------- containers

  lemma EnclosedPlaced(b: bytes, t: seq<Token>, i: nat, off: nat, kind: Kind, letter: bytes, inside: seq<Token>,
                       text: bytes)
    requires |letter| == 1
    requires Placed(b, t, i, off, Enclosed(kind, off, inside, off + 1 + |text|), letter + text + "e")
    ensures t[i] == Token(off, kind, |inside| + 2, 0)
    ensures Placed(b, t, i + 1, off + 1, inside, text)
    ensures t[i + 1 + |inside|].kind.EndToken?
  {
    var end := [Token(off + 1 + |text|, EndToken, 1, 0)];
    var first := [Token(off, kind, |inside| + 2, 0)];
    assert Enclosed(kind, off, inside, off + 1 + |text|) == first + (inside + end);
    HasTokensConcat(t, i, first, inside + end);
    HasTokensConcat(t, i + 1, inside, end);
    assert t[i + 0] == first[0];
    assert t[i + 1 + |inside| + 0] == end[0];
    LettersAround(b, off, letter, text);
  }

  lemma {:induction false} EntryReads(b: bytes, t: seq<Token>, size: nat, i: nat, e: Entry, off: nat)
    requires Readable(b, t, size) && Typed(e) && Placed(b, t, i, off, Tokens(e, off), Encode(e))
    ensures Represents(b, t, size, i, e)
    decreases e, 1
  {
    hide Walkable, SpansOk, EncodeItems, EncodeMembers, ItemTokens, MemberTokens, StringValueAt, IntValueAt, Section,
      Placed;
    assert i < |t| by { InRange(b, t, i, off, Tokens(e, off), Encode(e)); }
    SectionReads(b, t, size, i, e, off);
    match e
    case Integer(n) => IntegerReads(b, t, size, i, n, off);
    case Str(s) => StringReads(b, t, size, i, s, off);
    case List(items) =>
      EnclosedPlaced(b, t, i, off, ListToken, "l", ItemTokens(items, off + 1), EncodeItems(items));
      WalksInside(t, i);
      ItemsRead(b, t, size, i + 1, items, off + 1);
    case Dictionary(ms) =>
      EnclosedPlaced(b, t, i, off, DictToken, "d", MemberTokens(ms, off + 1), EncodeMembers(ms));
      WalksInside(t, i);
      MembersRead(b, t, size, i + 1, ms, off + 1);
      MembersRepresented(b, t, size, i, ms);
  }

  lemma MembersRepresented(b: bytes, t: seq<Token>, size: nat, i: nat, ms: seq<Member>)
    requires Readable(b, t, size) && IsDictAt(t, i) && Walks(t, i + 1, true, false)
    requires Count(t, i + 1, true, false) == 2 * |ms|
    requires forall k :: 0 <= k < |ms| ==>
               MemberReads(b, t, size, Nth(t, i + 1, true, false, 2 * k), Nth(t, i + 1, true, false, 2 * k + 1), ms[k])
    ensures ItemCount(t, i) == 2 * |ms|
    ensures forall k :: 0 <= k < |ms| ==>
              NameAt(b, t, size, i, k) == ms[k].key && Represents(b, t, size, ItemToken(t, i, 2 * k + 1), ms[k].value)
  {
    hide Readable, Represents, StringValueAt, Walks, Count, Nth;
    forall k | 0 <= k < |ms|
      ensures NameAt(b, t, size, i, k) == ms[k].key && Represents(b, t, size, ItemToken(t, i, 2 * k + 1), ms[k].value)
    {
      assert MemberReads(b, t, size, Nth(t, i + 1, true, false, 2 * k), Nth(t, i + 1, true, false, 2 * k + 1), ms[k]);
    }
  }

  lemma InRange(b: bytes, t: seq<Token>, i: nat, off: nat, tokens: seq<Token>, text: bytes)
    requires Placed(b, t, i, off, tokens, text)
    ensures i < |t|
  {
  }

  lemma WalksInside(t: seq<Token>, i: nat)
    requires Walkable(t) && i < |t| && IsContainer(t[i])
    ensures Walks(t, i + 1, t[i].kind.DictToken?, false)
  {
    assert ContainerWalks(t, i);
  }

  lemma {:induction false} ItemsRead(b: bytes, t: seq<Token>, size: nat, j: nat, items: seq<Entry>, off: nat)
    requires Readable(b, t, size) && Walks(t, j, false, false) && forall k :: 0 <= k < |items| ==> Typed(items[k])
    requires var w := ItemTokens(items, off); Placed(b, t, j, off, w, EncodeItems(items)) && t[j + |w|].kind.EndToken?
    ensures Count(t, j, false, false) == |items|
    ensures forall k :: 0 <= k < |items| ==> Represents(b, t, size, Nth(t, j, false, false, k), items[k])
    decreases items, 0
  {
    hide Readable, Encode, Tokens, Represents;
    if items != [] {
      var first, rest := Tokens(items[0], off), ItemTokens(items[1..], off + |Encode(items[0])|);
      HasTokensConcat(t, j, first, rest);
      HasConcat(b, off, Encode(items[0]), EncodeItems(items[1..]));
      FirstToken(items[0], off);
      var next := j + |first|;
      assert t[j + 0] == first[0];
      assert t[next].offset == off + |Encode(items[0])| by {
        NextOffset(t, next, items[1..], off + |Encode(items[0])|);
      }
      EntryReads(b, t, size, j, items[0], off);
      ItemsRead(b, t, size, next, items[1..], off + |Encode(items[0])|);
      forall k | 0 <= k < |items| ensures Represents(b, t, size, Nth(t, j, false, false, k), items[k]) {
        if k > 0 {
          assert items[k] == items[1..][k - 1];
        }
      }
    }
  }

  /** The first of the remaining tokens starts where they do. */
  lemma NextOffset(t: seq<Token>, j: nat, items: seq<Entry>, off: nat)
    requires HasTokens(t, j, ItemTokens(items, off)) && forall k :: 0 <= k < |items| ==> Typed(items[k])
    requires j < |t| && (items == [] ==> t[j].offset == off)
    ensures t[j].offset == off
  {
    hide Tokens, Encode;
    if items != [] {
      FirstToken(items[0], off);
      HasTokensConcat(t, j, Tokens(items[0], off), ItemTokens(items[1..], off + |Encode(items[0])|));
      assert t[j + 0] == Tokens(items[0], off)[0];
    }
  }

  /** A name and a value at two tokens are those of a member. */
  predicate MemberReads(b: bytes, t: seq<Token>, size: nat, name: nat, value: nat, m: Member)
    requires Readable(b, t, size)
    decreases m
  {
    && name < |t| && t[name].kind.StringToken? && StringValueAt(b, t, size, name) == m.key
    && Represents(b, t, size, value, m.value)
  }

  lemma NthTwo(t: seq<Token>, j: nat, n: nat)
    requires Walks(t, j, true, false) && 2 <= n <= Count(t, j, true, false)
    ensures var v := j + t[j].next;
            && v < |t| && Walks(t, v + t[v].next, true, false)
            && Count(t, v + t[v].next, true, false) == Count(t, j, true, false) - 2
            && Nth(t, j, true, false, n) == Nth(t, v + t[v].next, true, false, n - 2)
  {
    var v := j + t[j].next;
    assert Walks(t, v, true, true);
    assert Nth(t, j, true, false, n) == Nth(t, v, true, true, n - 1);
  }

  lemma {:induction false} MembersRead(b: bytes, t: seq<Token>, size: nat, j: nat, ms: seq<Member>, off: nat)
    requires Readable(b, t, size) && Walks(t, j, true, false) && forall k :: 0 <= k < |ms| ==> Typed(ms[k].value)
    requires var w := MemberTokens(ms, off); Placed(b, t, j, off, w, EncodeMembers(ms)) && t[j + |w|].kind.EndToken?
    ensures Count(t, j, true, false) == 2 * |ms|
    ensures forall k :: 0 <= k < |ms| ==>
              MemberReads(b, t, size, Nth(t, j, true, false, 2 * k), Nth(t, j, true, false, 2 * k + 1), ms[k])
    decreases ms, 0
  {
    hide Readable, Encode, Tokens, MemberReads, StringText, StringTokenFor;
    if ms != [] {
      MembersPlaced(b, t, j, ms, off);
      var value := off + |StringText(ms[0].key)|;
      var next, after := j + 1 + |Tokens(ms[0].value, value)|, value + |Encode(ms[0].value)|;
      FirstMemberReads(b, t, size, j, ms[0], off);
      assert Walks(t, j + 1, true, true) && Walks(t, next, true, false);
      MembersRead(b, t, size, next, ms[1..], after);
      assert Count(t, j, true, false) == 1 + Count(t, j + 1, true, true) == 2 + Count(t, next, true, false);
      MembersJoin(b, t, size, j, ms);
    }
  }

  lemma MembersJoin(b: bytes, t: seq<Token>, size: nat, j: nat, ms: seq<Member>)
    requires Readable(b, t, size) && Walks(t, j, true, false) && ms != [] && Count(t, j, true, false) == 2 * |ms|
    requires var next := j + t[j].next + t[j + t[j].next].next;
             && j + t[j].next == j + 1 && MemberReads(b, t, size, j, j + 1, ms[0])
             && Walks(t, next, true, false) && Count(t, next, true, false) == 2 * |ms[1..]|
             && forall k :: 0 <= k < |ms[1..]| ==>
                  MemberReads(b, t, size, Nth(t, next, true, false, 2 * k), Nth(t, next, true, false, 2 * k + 1),
                              ms[1..][k])
    ensures forall k :: 0 <= k < |ms| ==>
              MemberReads(b, t, size, Nth(t, j, true, false, 2 * k), Nth(t, j, true, false, 2 * k + 1), ms[k])
  {
    hide Readable, MemberReads, Nth;
    forall k | 0 <= k < |ms|
      ensures MemberReads(b, t, size, Nth(t, j, true, false, 2 * k), Nth(t, j, true, false, 2 * k + 1), ms[k])
    {
      if k > 0 {
        NthTwo(t, j, 2 * k);
        NthTwo(t, j, 2 * k + 1);
        assert ms[k] == ms[1..][k - 1];
      } else {
        NthOne(t, j);
      }
    }
  }

  lemma NthOne(t: seq<Token>, j: nat)
    requires Walks(t, j, true, false) && Count(t, j, true, false) >= 2
    ensures Nth(t, j, true, false, 0) == j && Nth(t, j, true, false, 1) == j + t[j].next
  {
    assert Nth(t, j + t[j].next, true, true, 0) == j + t[j].next;
  }

  /** The first member's name and value, and the members after it. */
  lemma MembersPlaced(b: bytes, t: seq<Token>, j: nat, ms: seq<Member>, off: nat)
    requires ms != [] && (forall k :: 0 <= k < |ms| ==> Typed(ms[k].value))
    requires Placed(b, t, j, off, MemberTokens(ms, off), EncodeMembers(ms))
    ensures var value := off + |StringText(ms[0].key)|;
            var first, after := Tokens(ms[0].value, value), value + |Encode(ms[0].value)|;
            && Placed(b, t, j, off, [StringTokenFor(ms[0].key, off)], StringText(ms[0].key))
            && Placed(b, t, j + 1, value, first, Encode(ms[0].value))
            && Placed(b, t, j + 1 + |first|, after, MemberTokens(ms[1..], after), EncodeMembers(ms[1..]))
            && j + 1 + |first| + |MemberTokens(ms[1..], after)| == j + |MemberTokens(ms, off)|
            && t[j].next == 1 && t[j].kind.StringToken?
            && t[j + 1].next == |first| && !t[j + 1].kind.EndToken?
  {
    hide Encode, Tokens, StringText, Has;
    var key, text, rest := StringText(ms[0].key), Encode(ms[0].value), EncodeMembers(ms[1..]);
    HasThree(b, off, key, text, rest);
    var value := off + |key|;
    var name, first := [StringTokenFor(ms[0].key, off)], Tokens(ms[0].value, value);
    var more := MemberTokens(ms[1..], value + |text|);
    assert name + first + more == name + (first + more);
    HasTokensConcat(t, j, name, first + more);
    HasTokensConcat(t, j + 1, first, more);
    FirstToken(ms[0].value, value);
    assert t[j + 0] == name[0] && t[j + 1 + 0] == first[0];
    NextMemberOffset(t, j + 1 + |first|, ms[1..], value + |text|);
  }

  lemma NextMemberOffset(t: seq<Token>, j: nat, ms: seq<Member>, off: nat)
    requires HasTokens(t, j, MemberTokens(ms, off)) && j < |t| && (ms == [] ==> t[j].offset == off)
    ensures t[j].offset == off
  {
    hide Tokens, Encode, StringText;
    if ms != [] {
      assert t[j + 0] == MemberTokens(ms, off)[0];
    }
  }

  lemma {:induction false} FirstMemberReads(b: bytes, t: seq<Token>, size: nat, j: nat, m: Member, off: nat)
    requires Readable(b, t, size) && Typed(m.value)
    requires Placed(b, t, j, off, [StringTokenFor(m.key, off)], StringText(m.key))
    requires var value := off + |StringText(m.key)|; Placed(b, t, j + 1, value, Tokens(m.value, value), Encode(m.value))
    ensures MemberReads(b, t, size, j, j + 1, m)
    decreases m, 2
  {
    hide Readable, Encode, Tokens, StringText, StringTokenFor, StringValueAt, Represents;
    StringReads(b, t, size, j, m.key, off);
    EntryReads(b, t, size, j + 1, m.value, off + |StringText(m.key)|);
  }

  // ---------------------------------------------------------------- whole buffers

  /** When the decoder accepts the encoding of an entry, the accessors on the root describe that entry. */
  lemma RootReads(b: bytes, e: Entry, depthLimit: nat, tokenLimit: int)
    requires IsBuffer(b) && Typed(e) && Has(b, 0, Encode(e)) && |Encode(e)| <= End(b) <= MAX_OFFSET
    requires Suits(e, depthLimit) && |Tokens(e, 0)| <= tokenLimit && !(e == Str([]) && End(b) == |Encode(e)|)
    ensures var r := Decode(b, depthLimit, tokenLimit);
            r.error.None? && Readable(b, r.tokens, r.pos) && Represents(b, r.tokens, r.pos, 0, e)
  {
    hide Run, Tokens, Encode, Suits, Walkable, Represents, SpansOk;
    var r := Decode(b, depthLimit, tokenLimit);
    DecoderInverts(b, e, depthLimit, tokenLimit);
    EncodeEnough(e);
    LinkedExactly(b, depthLimit, tokenLimit);
    NoSpansYet(b);
    RunSpans(b, depthLimit, Start(tokenLimit));
    assert Placed(b, r.tokens, 0, 0, Tokens(e, 0), Encode(e));
    EntryReads(b, r.tokens, r.pos, 0, e, 0);
  }

  lemma NoSpansYet(b: bytes)
    requires IsBuffer(b)
    ensures SpansOk(b, [], 0)
  {
  }

  /** The least 64-bit integer decodes, but reads as 0. */
  lemma LeastIntegerReadsAsZero(b: bytes)
    requires IsBuffer(b) && Has(b, 0, Encode(Integer(-0x8000_0000_0000_0000)))
    requires End(b) == |Encode(Integer(-0x8000_0000_0000_0000))|
    requires End(b) <= MAX_OFFSET
    ensures var r := Decode(b, 1, 1);
            r.error.None? && Readable(b, r.tokens, r.pos) && r.tokens[0].kind.IntegerToken?
            && IntValueAt(b, r.tokens, r.pos, 0) == 0
  {
    RootReads(b, Integer(-0x8000_0000_0000_0000), 1, 1);
  }
}
