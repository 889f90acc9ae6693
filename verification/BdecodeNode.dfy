/** Nodes: reading the tokens, with caches that never change an answer. */
module BdecodeNode {
  import opened Bytes
  import opened Bdecode
  import opened BdecodeWalk
  import opened BdecodeSpans

  // ---------------------------------------------------------------- items of a container

  /** Whether a walk waits for a value after `n` more items. */
  predicate After(dict: bool, value: bool, n: nat) {
    dict && value != (n % 2 == 1)
  }

  /** How many items a walk passes before its end token. */
  function Count(t: seq<Token>, j: nat, dict: bool, value: bool): nat
    requires Walks(t, j, dict, value)
    decreases |t| - j
  {
    if t[j].kind.EndToken? then 0 else 1 + Count(t, j + t[j].next, dict, dict && !value)
  }

  /** Where a walk stands after `n` items. */
  function Nth(t: seq<Token>, j: nat, dict: bool, value: bool, n: nat): (r: nat)
    requires Walks(t, j, dict, value) && n <= Count(t, j, dict, value) && (!dict ==> !value)
    ensures j <= r < |t| && Walks(t, r, dict, After(dict, value, n))
    ensures Count(t, r, dict, After(dict, value, n)) == Count(t, j, dict, value) - n
    decreases n
  {
    if n == 0 then j else Nth(t, j + t[j].next, dict, dict && !value, n - 1)
  }

  /** One item more. */
  lemma {:induction false} NthNext(t: seq<Token>, j: nat, dict: bool, value: bool, n: nat)
    requires Walks(t, j, dict, value) && n < Count(t, j, dict, value) && (!dict ==> !value)
    ensures var r := Nth(t, j, dict, value, n);
            !t[r].kind.EndToken? && Nth(t, j, dict, value, n + 1) == r + t[r].next
    decreases n
  {
    if n > 0 {
      NthNext(t, j + t[j].next, dict, dict && !value, n - 1);
    }
  }

  /** A dictionary has as many values as names. */
  lemma {:induction false} CountEven(t: seq<Token>, j: nat, value: bool)
    requires Walks(t, j, true, value)
    ensures Count(t, j, true, value) % 2 == if value then 1 else 0
    decreases |t| - j
  {
    if !t[j].kind.EndToken? {
      CountEven(t, j + t[j].next, !value);
    }
  }

  // ---------------------------------------------------------------- the bytes of a node

  /** Tokens that a decoder left for a buffer. */
  predicate Readable(b: bytes, t: seq<Token>, size: nat) {
    IsBuffer(b) && Walkable(t) && SpansOk(b, t, size)
  }

  /** data_section. */
  function Section(b: bytes, t: seq<Token>, size: nat, i: nat): (r: bytes)
    requires Readable(b, t, size) && i < |t|
  {
    var from, to := t[i].offset, t[i + t[i].next].offset;
    OffsetsAscend(b, t, size, i, i + t[i].next);
    b[from..to]
  }

  lemma {:induction false} OffsetsAscend(b: bytes, t: seq<Token>, size: nat, i: nat, j: nat)
    requires IsBuffer(b) && SpansOk(b, t, size) && i <= j < |t|
    ensures t[i].offset <= t[j].offset <= End(b)
    decreases j - i
  {
    assert Spans(b, t[i], EndOf(t, i, size));
    if i < j {
      OffsetsAscend(b, t, size, i + 1, j);
    }
  }

  /** The last token is an end token, so a string or integer has a token after it. */
  lemma HasNext(b: bytes, t: seq<Token>, size: nat, i: nat)
    requires Readable(b, t, size) && i < |t| && !t[i].kind.EndToken?
    ensures i + 1 < |t| && Spans(b, t[i], t[i + 1].offset)
  {
    assert Spans(b, t[i], EndOf(t, i, size));
  }

  /** string_value. */
  function StringValueAt(b: bytes, t: seq<Token>, size: nat, i: nat): bytes
    requires Readable(b, t, size) && i < |t| && t[i].kind.StringToken?
  {
    HasNext(b, t, size, i);
    b[t[i].offset + t[i].header + 2..t[i + 1].offset]
  }

  /** int_value: 0 if the digits do not fit 64 bits. */
  function IntValueAt(b: bytes, t: seq<Token>, size: nat, i: nat): int
    requires Readable(b, t, size) && i < |t| && t[i].kind.IntegerToken?
  {
    HasNext(b, t, size, i);
    var start, end := t[i].offset + 1, t[i + 1].offset + 1;
    var negative := b[start] == '-';
    var from := if negative then start + 1 else start;
    DelimiterIn(b, t[i].offset, t[i + 1].offset);
    var p := ParseInt(b, from, end, 'e', 0);
    if p.error.Some? then 0 else if negative then 0 - p.val else p.val
  }

  lemma DelimiterIn(b: bytes, offset: nat, end: nat)
    requires IsBuffer(b) && offset < end <= End(b) && 'e' in b[offset + 1..end]
    ensures offset + 1 < end && 'e' in b[offset + 1..end + 1]
    ensures b[offset + 1] == '-' ==> offset + 2 <= end && 'e' in b[offset + 2..end + 1]
  {
    var k :| 0 <= k < |b[offset + 1..end]| && b[offset + 1..end][k] == 'e';
    assert b[offset + 1..end + 1][k] == 'e';
    if b[offset + 1] == '-' {
      assert b[offset + 2..end + 1][k - 1] == 'e';
    }
  }

  // ---------------------------------------------------------------- containers

  /** Token `i` is a container in a token array that can be walked. */
  predicate ContainerAt(t: seq<Token>, i: int) {
    0 <= i < |t| && IsContainer(t[i]) && Walkable(t)
  }

  predicate IsDictAt(t: seq<Token>, i: int) {
    ContainerAt(t, i) && t[i].kind.DictToken?
  }

  predicate IsListAt(t: seq<Token>, i: int) {
    ContainerAt(t, i) && t[i].kind.ListToken?
  }

  /** The number of items of a container, names and values counted apart. */
  function ItemCount(t: seq<Token>, i: nat): nat
    requires ContainerAt(t, i)
  {
    assert ContainerWalks(t, i);
    Count(t, i + 1, t[i].kind.DictToken?, false)
  }

  /** The token of an item of a container, names and values counted apart; past the last one, the end token. */
  function ItemToken(t: seq<Token>, i: nat, n: nat): (r: nat)
    requires ContainerAt(t, i) && n <= ItemCount(t, i)
    ensures i < r < |t|
    ensures t[r].kind.EndToken? <==> n == ItemCount(t, i)
  {
    assert ContainerWalks(t, i);
    Nth(t, i + 1, t[i].kind.DictToken?, false, n)
  }

  lemma ItemTokenNext(t: seq<Token>, i: nat, n: nat)
    requires ContainerAt(t, i) && n < ItemCount(t, i)
    ensures ItemToken(t, i, 0) == i + 1
    ensures ItemToken(t, i, n + 1) == ItemToken(t, i, n) + t[ItemToken(t, i, n)].next
    ensures t[ItemToken(t, i, n)].next >= 1
    ensures IsDictAt(t, i) && n % 2 == 0 ==> t[ItemToken(t, i, n)].kind.StringToken?
  {
    assert ContainerWalks(t, i);
    NthNext(t, i + 1, t[i].kind.DictToken?, false, n);
  }

  lemma FirstItem(t: seq<Token>, i: nat)
    requires ContainerAt(t, i)
    ensures ItemToken(t, i, 0) == i + 1
    ensures IsDictAt(t, i) ==> ItemCount(t, i) % 2 == 0
  {
    assert ContainerWalks(t, i);
    if IsDictAt(t, i) {
      CountEven(t, i + 1, false);
    }
  }

  /** The name of member number `k` of a dictionary. */
  function NameAt(b: bytes, t: seq<Token>, size: nat, i: nat, k: nat): bytes
    requires Readable(b, t, size) && IsDictAt(t, i) && 2 * k < ItemCount(t, i)
  {
    NameToken(t, i, k);
    StringValueAt(b, t, size, ItemToken(t, i, 2 * k))
  }

  lemma NameToken(t: seq<Token>, i: nat, k: nat)
    requires IsDictAt(t, i) && 2 * k < ItemCount(t, i)
    ensures t[ItemToken(t, i, 2 * k)].kind.StringToken?
  {
    hide Walkable, ItemCount, ItemToken;
    ItemTokenNext(t, i, 2 * k);
  }

  // ---------------------------------------------------------------- the loops of the accessors

  /** From item number `item` on to item number `target`, `per` tokens' items at a time. */
  method Forward(t: seq<Token>, i: nat, per: nat, item: nat, token: nat, target: nat) returns (r: nat)
    requires ContainerAt(t, i) && per == (if t[i].kind.DictToken? then 2 else 1)
    requires item <= target && per * target < ItemCount(t, i) && token == ItemToken(t, i, per * item)
    ensures r == ItemToken(t, i, per * target)
  {
    hide Walkable, ItemCount, ItemToken;
    r := token;
    var k := item;
    while k < target
      invariant item <= k <= target && r == ItemToken(t, i, per * k)
    {
      ItemTokenNext(t, i, per * k);
      r := r + t[r].next;
      if per == 2 {
        ItemTokenNext(t, i, per * k + 1);
        r := r + t[r].next;
      }
      k := k + 1;
    }
  }

  /** From item number `n` on to the end token, counting. */
  method CountOn(t: seq<Token>, i: nat, n: nat, token: nat) returns (ret: nat)
    requires ContainerAt(t, i) && n <= ItemCount(t, i) && token == ItemToken(t, i, n)
    ensures ret == ItemCount(t, i)
  {
    hide Walkable, ItemCount, ItemToken;
    ret := n;
    var r := token;
    while !t[r].kind.EndToken?
      invariant ret <= ItemCount(t, i) && r == ItemToken(t, i, ret)
      decreases |t| - r
    {
      ItemTokenNext(t, i, ret);
      r := r + t[r].next;
      ret := ret + 1;
    }
  }

  /** The loop of dict_find: the token of the value after the first name that equals `key`. */
  method Search(b: bytes, t: seq<Token>, size: nat, i: nat, key: bytes) returns (found: Option<nat>, ghost k: nat)
    requires Readable(b, t, size) && IsDictAt(t, i)
    ensures 2 * k <= ItemCount(t, i)
    ensures forall m: nat :: m < k ==> NameAt(b, t, size, i, m) != key
    ensures found.None? <==> 2 * k == ItemCount(t, i)
    ensures found.Some? ==>
              NameAt(b, t, size, i, k) == key && 2 * k + 1 < ItemCount(t, i)
              && found.value == ItemToken(t, i, 2 * k + 1)
  {
    hide Walkable, SpansOk, ItemCount, ItemToken, StringValueAt;
    FirstItem(t, i);
    var token := i + 1;
    k := 0;
    while !t[token].kind.EndToken?
      invariant 2 * k <= ItemCount(t, i) && token == ItemToken(t, i, 2 * k)
      invariant forall m: nat :: m < k ==> NameAt(b, t, size, i, m) != key
      decreases |t| - token
    {
      ItemTokenNext(t, i, 2 * k);
      ItemTokenNext(t, i, 2 * k + 1);
      var name := StringValueAt(b, t, size, token);
      token := token + t[token].next;
      if name == key {
        return Some(token), k;
      }
      token := token + t[token].next;
      k := k + 1;
    }
    found := None;
  }

  // ---------------------------------------------------------------- nodes

  /**
   * What the caches of a node hold is true: the token of the item or member looked up last, and the number of
   * items or members. A node that is no container has nothing cached.
   */
  predicate CachesOk(t: seq<Token>, i: int, lastIndex: int, lastToken: int, size: int) {
    if !ContainerAt(t, i) then lastIndex == -1 && size == -1
    else
      var per := if IsDictAt(t, i) then 2 else 1;
      && (lastIndex == -1
          || (lastIndex >= 0 && per * lastIndex < ItemCount(t, i) && lastToken == ItemToken(t, i, per * lastIndex)))
      && (size == -1 || (size >= 0 && ItemCount(t, i) == per * size))
  }

  class Node {
    /** The tokens of the root. */
    var tokens: seq<Token>
    var buffer: bytes
    var bufferSize: nat
    /** The token of this node; -1 for none. */
    var tokenIdx: int
    /** The last item looked up, and its token; -1 for none. */
    var lastIndex: int
    var lastToken: int
    /** The number of items or members, once it was asked for; -1 before. */
    var size: int

    constructor ()
      ensures tokens == [] && tokenIdx == -1 && Valid()
    {
      tokens, buffer, bufferSize, tokenIdx := [], ['\0'], 0, -1;
      lastIndex, lastToken, size := -1, -1, -1;
    }

    /** A node that refers to a token of the root. */
    constructor At(t: seq<Token>, b: bytes, n: nat, i: nat)
      requires Readable(b, t, n) && i < |t|
      ensures Is(t, b, n, i) && Valid()
    {
      tokens, buffer, bufferSize, tokenIdx := t, b, n, i;
      lastIndex, lastToken, size := -1, -1, -1;
    }

    /** The node refers to this token. */
    predicate Is(t: seq<Token>, b: bytes, n: nat, i: nat)
      reads this
    {
      tokens == t && buffer == b && bufferSize == n && tokenIdx == i
    }

    predicate Valid()
      reads this
    {
      && (tokenIdx == -1 || (0 <= tokenIdx < |tokens| && Readable(buffer, tokens, bufferSize)))
      && CachesOk(tokens, tokenIdx, lastIndex, lastToken, size)
    }

    /** list_at: whatever was looked up before, the node of that item. */
    method ListAt(i: nat) returns (n: Node)
      requires Valid() && IsListAt(tokens, tokenIdx) && i < ItemCount(tokens, tokenIdx)
      modifies this`lastIndex, this`lastToken
      ensures Valid()
      ensures fresh(n) && n.Valid() && n.Is(tokens, buffer, bufferSize, ItemToken(tokens, tokenIdx, i))
    {
      hide Walkable, SpansOk, ItemCount, ItemToken;
      FirstItem(tokens, tokenIdx);
      var token, item := tokenIdx + 1, 0;
      if lastIndex <= i && lastIndex != -1 {
        token, item := lastToken, lastIndex;
      }
      token := Forward(tokens, tokenIdx, 1, item, token, i);
      lastToken := token;
      lastIndex := i;
      n := new Node.At(tokens, buffer, bufferSize, token);
    }

    /** list_size. */
    method ListSize() returns (ret: nat)
      requires Valid() && IsListAt(tokens, tokenIdx)
      modifies this`size
      ensures Valid() && ret == ItemCount(tokens, tokenIdx)
    {
      hide Walkable, SpansOk, ItemCount, ItemToken;
      if size != -1 {
        return size;
      }
      FirstItem(tokens, tokenIdx);
      var token, item := tokenIdx + 1, 0;
      if lastIndex != -1 {
        token, item := lastToken, lastIndex;
      }
      ret := CountOn(tokens, tokenIdx, item, token);
      size := ret;
    }

    /** dict_at: name and value of a member. The first member is never cached. */
    method DictAt(i: nat) returns (name: bytes, n: Node)
      requires Valid() && IsDictAt(tokens, tokenIdx) && 2 * i < ItemCount(tokens, tokenIdx)
      modifies this`lastIndex, this`lastToken
      ensures Valid()
      ensures name == NameAt(buffer, tokens, bufferSize, tokenIdx, i)
      ensures 2 * i + 1 < ItemCount(tokens, tokenIdx)
      ensures fresh(n) && n.Valid() && n.Is(tokens, buffer, bufferSize, ItemToken(tokens, tokenIdx, 2 * i + 1))
    {
      hide Walkable, SpansOk, ItemCount, ItemToken, StringValueAt;
      FirstItem(tokens, tokenIdx);
      var token, item := tokenIdx + 1, 0;
      if lastIndex <= i && lastIndex != -1 {
        token, item := lastToken, lastIndex;
      }
      token := Forward(tokens, tokenIdx, 2, item, token, i);
      if i > 0 {
        lastToken := token;
        lastIndex := i;
      }
      ItemTokenNext(tokens, tokenIdx, 2 * i);
      var valueToken := token + tokens[token].next;
      name := StringValueAt(buffer, tokens, bufferSize, token);
      n := new Node.At(tokens, buffer, bufferSize, valueToken);
    }

    /** dict_size: half the items, counted on from the member looked up last. */
    method DictSize() returns (ret: nat)
      requires Valid() && IsDictAt(tokens, tokenIdx)
      modifies this`size
      ensures Valid() && 2 * ret == ItemCount(tokens, tokenIdx)
    {
      hide Walkable, SpansOk, ItemCount, ItemToken;
      if size != -1 {
        return size;
      }
      FirstItem(tokens, tokenIdx);
      var token, item := tokenIdx + 1, 0;
      if lastIndex != -1 {
        token, item := lastToken, lastIndex * 2;
      }
      ret := CountOn(tokens, tokenIdx, item, token);
      assert ret % 2 == 0;
      ret := ret / 2;
      size := ret;
    }

    /** dict_find: the value of the first member with that name, or a node without a token. */
    method DictFind(key: bytes) returns (n: Node, ghost k: nat)
      requires Valid() && IsDictAt(tokens, tokenIdx)
      ensures fresh(n) && n.Valid()
      ensures 2 * k <= ItemCount(tokens, tokenIdx) && (2 * k == ItemCount(tokens, tokenIdx) <==> n.tokenIdx == -1)
      ensures forall m | 0 <= m < k :: NameAt(buffer, tokens, bufferSize, tokenIdx, m) != key
      ensures n.tokenIdx != -1 ==>
                NameAt(buffer, tokens, bufferSize, tokenIdx, k) == key && 2 * k + 1 < ItemCount(tokens, tokenIdx)
      ensures n.tokenIdx != -1 ==> n.Is(tokens, buffer, bufferSize, ItemToken(tokens, tokenIdx, 2 * k + 1))
    {
      hide Walkable, SpansOk, ItemCount, ItemToken, StringValueAt, CachesOk, NameAt;
      var found;
      found, k := Search(buffer, tokens, bufferSize, tokenIdx, key);
      if found.Some? {
        n := new Node.At(tokens, buffer, bufferSize, found.value);
      } else {
        n := new Node();
      }
    }

    /** int_value. */
    method IntValue() returns (val: int)
      requires Valid() && tokenIdx != -1 && tokens[tokenIdx].kind.IntegerToken?
      ensures val == IntValueAt(buffer, tokens, bufferSize, tokenIdx)
    {
      hide CachesOk, ParseInt, Walkable, SpansOk;
      HasNext(buffer, tokens, bufferSize, tokenIdx);
      var start, end := tokens[tokenIdx].offset + 1, tokens[tokenIdx + 1].offset + 1;
      DelimiterIn(buffer, tokens[tokenIdx].offset, tokens[tokenIdx + 1].offset);
      var negative := buffer[start] == '-';
      var from := if negative then start + 1 else start;
      var pos, v, error := ParseDigits(buffer, from, end, 'e', 0);
      if error.Some? {
        return 0;
      }
      val := v;
      if negative {
        val := -val;
      }
    }
  }

  /** parse_int. */
  method ParseDigits(b: bytes, start: nat, end: nat, delimiter: byte, initial: nat)
    returns (pos: nat, val: nat, error: Option<ErrorCode>)
    requires start <= end <= |b| && (end < |b| || delimiter in b[start..end]) && initial <= MAX_INT64
    ensures ParsedInt(pos, val, error) == ParseInt(b, start, end, delimiter, initial)
  {
    pos, val, error := start, initial, None;
    while pos < end && b[pos] != delimiter
      invariant start <= pos <= end && val <= MAX_INT64 && (end < |b| || delimiter in b[pos..end])
      invariant ParseInt(b, pos, end, delimiter, val) == ParseInt(b, start, end, delimiter, initial)
    {
      if !IsDigit(b[pos]) {
        return pos, val, Some(ExpectedDigit);
      }
      if val > MAX_INT64 / 10 {
        return pos, val, Some(Overflow);
      }
      val := val * 10;
      var digit := DigitValue(b[pos]);
      if val > MAX_INT64 - digit {
        return pos, val, Some(Overflow);
      }
      val := val + digit;
      pos := pos + 1;
    }
    if b[pos] != delimiter {
      error := Some(ExpectedColon);
    }
  }
}
