/** What the recursive decoder accepts, and what it makes of it: the grammar of bencoded texts. */
module BencodingGrammar {
  import opened Bytes
  import opened Decimals
  import opened Bencoding

  /** How a text is made up; a member of a dictionary is given with what its value means. */
  datatype Source =
    | Number(digits: bytes)
    | Text(length: bytes, body: bytes)
    | Items(items: seq<Source>)
    | Pairs(pairs: seq<Pair>)

  datatype Pair = Pair(length: bytes, key: bytes, value: Source, means: Entry)

  function Written(s: Source): bytes {
    match s
    case Number(w) => "i" + w + "e"
    case Text(length, body) => length + ":" + body
    case Items(items) => "l" + WrittenItems(items) + "e"
    case Pairs(pairs) => "d" + WrittenPairs(pairs) + "e"
  }

  function WrittenItems(items: seq<Source>): bytes {
    if items == [] then [] else Written(items[0]) + WrittenItems(items[1..])
  }

  function WrittenPairs(pairs: seq<Pair>): bytes {
    if pairs == [] then []
    else pairs[0].length + ":" + pairs[0].key + (Written(pairs[0].value) + WrittenPairs(pairs[1..]))
  }

  /** A length that is read as such: it begins with no letter that means something else. */
  predicate LengthOk(ps: NumberParsers, length: bytes, body: bytes, inside: bool) {
    && ':' !in length && ps.long(length) == Some(|body|)
    && (length != [] ==> length[0] != 'i' && length[0] != 'l' && length[0] != 'd' && (inside ==> length[0] != 'e'))
  }

  /** The members are in order, one for each key that was read, with the value that was read for it last. */
  predicate LastWins(ms: seq<Member>, pairs: seq<Pair>) {
    && Ascending(ms)
    && (forall k :: 0 <= k < |ms| ==> ReadLast(pairs, ms[k].key, ms[k].value))
    && (forall k :: 0 <= k < |pairs| ==> exists j :: 0 <= j < |ms| && ms[j].key == pairs[k].key)
  }

  predicate ReadLast(pairs: seq<Pair>, key: bytes, value: Entry) {
    exists k :: 0 <= k < |pairs| && LastAt(pairs, k, key) && pairs[k].means == value
  }

  /** The last pair with this key. */
  predicate LastAt(pairs: seq<Pair>, k: nat, key: bytes)
    requires k < |pairs|
  {
    pairs[k].key == key && forall j :: k < j < |pairs| ==> pairs[j].key != key
  }

  /** The text means the entry, in a place of this depth; `inside` tells that an `e` would end a container here. */
  predicate Says(ps: NumberParsers, s: Source, e: Entry, level: nat, inside: bool)
    decreases s
  {
    level + 1 < MAX_RECURSION_LEVEL
    && match s
       case Number(w) => 'e' !in w && e.Integer? && ps.int64(w) == Some(e.n)
       case Text(length, body) => e == Str(body) && LengthOk(ps, length, body, inside)
       case Items(items) =>
         && e.List? && |e.items| == |items|
         && forall k :: 0 <= k < |items| ==> Says(ps, items[k], e.items[k], level + 1, true)
       case Pairs(pairs) =>
         && e.Dictionary? && LastWins(e.members, pairs)
         && forall k :: 0 <= k < |pairs| ==>
              && LengthOk(ps, pairs[k].length, pairs[k].key, true)
              && Says(ps, pairs[k].value, pairs[k].means, level + 1, false)
  }

  // ---------------------------------------------------------------- dictionaries that are filled

  /** The map after all pairs. */
  function Filled(ms: seq<Member>, pairs: seq<Pair>): seq<Member>
    decreases |pairs|
  {
    if pairs == [] then ms else Filled(Insert(ms, pairs[0].key, pairs[0].means), pairs[1..])
  }

  lemma {:induction false} FilledLast(ms: seq<Member>, pairs: seq<Pair>, p: Pair)
    ensures Filled(ms, pairs + [p]) == Insert(Filled(ms, pairs), p.key, p.means)
    decreases |pairs|
  {
    if pairs == [] {
      assert pairs + [p] == [p] && [p][1..] == [];
    } else {
      assert (pairs + [p])[1..] == pairs[1..] + [p];
      FilledLast(Insert(ms, pairs[0].key, pairs[0].means), pairs[1..], p);
    }
  }

  /** Which members a map has after an insertion. */
  lemma {:induction false} InsertMembers(ms: seq<Member>, key: bytes, value: Entry, m: Member)
    requires Ascending(ms)
    ensures m in Insert(ms, key, value) <==> m == Member(key, value) || (m in ms && m.key != key)
    decreases |ms|
  {
    if ms != [] {
      LessTotal(ms[0].key, key);
      assert ms == [ms[0]] + ms[1..];
      if !Less(key, ms[0].key) && ms[0].key != key {
        InsertMembers(ms[1..], key, value, m);
      } else if m in ms[1..] {
        FirstIsLeast(ms, m);
        if Less(key, ms[0].key) {
          LessTransitive(key, ms[0].key, m.key);
        }
        LessTotal(key, m.key);
      }
    }
  }

  lemma {:induction false} FirstIsLeast(ms: seq<Member>, m: Member)
    requires Ascending(ms) && ms != [] && m in ms[1..]
    ensures Less(ms[0].key, m.key)
    decreases |ms|
  {
    var rest := ms[1..];
    assert Less(ms[0].key, ms[1].key);
    if m != rest[0] {
      assert rest == [rest[0]] + rest[1..];
      assert Ascending(rest) by {
        forall k | 0 < k < |rest| ensures Less(rest[k - 1].key, rest[k].key) {
          assert Less(ms[k].key, ms[k + 1].key);
        }
      }
      FirstIsLeast(rest, m);
      LessTransitive(ms[0].key, ms[1].key, m.key);
    }
  }

  /** Filling a map gives the members in order, each with its last value. */
  lemma {:induction false} FilledLastWins(pairs: seq<Pair>)
    ensures LastWins(Filled([], pairs), pairs)
    decreases |pairs|
  {
    if pairs != [] {
      var n := |pairs| - 1;
      var before, p := pairs[..n], pairs[n];
      assert pairs == before + [p];
      FilledLast([], before, p);
      FilledLastWins(before);
      OneMore(Filled([], before), before, p);
    }
  }

  lemma OneMore(ms: seq<Member>, pairs: seq<Pair>, p: Pair)
    requires LastWins(ms, pairs)
    ensures LastWins(Insert(ms, p.key, p.means), pairs + [p])
  {
    hide Insert, Less, ReadLast;
    var after, all := Insert(ms, p.key, p.means), pairs + [p];
    InsertKeeps(ms, p.key, p.means);
    forall k | 0 <= k < |after| ensures ReadLast(all, after[k].key, after[k].value) {
      InsertMembers(ms, p.key, p.means, after[k]);
      StillLast(pairs, p, after[k].key, after[k].value);
    }
    InsertMembers(ms, p.key, p.means, Member(p.key, p.means));
    var own := IndexOf(after, Member(p.key, p.means));
    forall k | 0 <= k < |all| ensures exists j :: 0 <= j < |after| && after[j].key == all[k].key {
      if all[k].key == p.key {
        assert after[own].key == all[k].key;
      } else {
        assert all[k] == pairs[k];
        var j :| 0 <= j < |ms| && ms[j].key == pairs[k].key;
        InsertMembers(ms, p.key, p.means, ms[j]);
        var i := IndexOf(after, ms[j]);
        assert after[i].key == all[k].key;
      }
    }
  }

  lemma IndexOf(ms: seq<Member>, m: Member) returns (k: nat)
    requires m in ms
    ensures k < |ms| && ms[k] == m
  {
    k :| 0 <= k < |ms| && ms[k] == m;
  }

  lemma StillLast(pairs: seq<Pair>, p: Pair, key: bytes, value: Entry)
    ensures ReadLast(pairs, key, value) && key != p.key ==> ReadLast(pairs + [p], key, value)
    ensures ReadLast(pairs + [p], p.key, p.means)
  {
    var all := pairs + [p];
    assert LastAt(all, |pairs|, p.key);
    if ReadLast(pairs, key, value) && key != p.key {
      var k :| 0 <= k < |pairs| && LastAt(pairs, k, key) && pairs[k].means == value;
      assert LastAt(all, k, key);
    }
  }

  /** There is one such map only. */
  lemma OnlyOne(ms: seq<Member>, ns: seq<Member>, pairs: seq<Pair>)
    requires LastWins(ms, pairs) && LastWins(ns, pairs)
    ensures ms == ns
  {
    hide Less;
    forall m | m in ms ensures m in ns {
      SameMember(ms, ns, pairs, m);
    }
    forall m | m in ns ensures m in ms {
      SameMember(ns, ms, pairs, m);
    }
    SameOrder(ms, ns);
  }

  lemma SameMember(ms: seq<Member>, ns: seq<Member>, pairs: seq<Pair>, m: Member)
    requires LastWins(ms, pairs) && LastWins(ns, pairs) && m in ms
    ensures m in ns
  {
    hide Less, Ascending, ReadLast;
    var k := LastOf(pairs, m.key, m.value);
    var j :| 0 <= j < |ns| && ns[j].key == pairs[k].key;
    var l := LastOf(pairs, m.key, ns[j].value);
    assert ns[j] == m;
  }

  lemma LastOf(pairs: seq<Pair>, key: bytes, value: Entry) returns (k: nat)
    requires ReadLast(pairs, key, value)
    ensures k < |pairs| && LastAt(pairs, k, key) && pairs[k].means == value
  {
    k :| 0 <= k < |pairs| && LastAt(pairs, k, key) && pairs[k].means == value;
  }

  lemma {:induction false} SameOrder(ms: seq<Member>, ns: seq<Member>)
    requires Ascending(ms) && Ascending(ns) && forall m :: m in ms <==> m in ns
    ensures ms == ns
    decreases |ms|
  {
    hide Less;
    assert ns != [] ==> ns[0] in ns;
    if ms != [] {
      assert ms[0] in ns && ns != [];
      assert ms == [ms[0]] + ms[1..] && ns == [ns[0]] + ns[1..];
      assert ns[0] in ms;
      if ms[0] != ns[0] {
        FirstIsLeast(ms, ns[0]);
        FirstIsLeast(ns, ms[0]);
        LessTotal(ms[0].key, ns[0].key);
      }
      RestAscends(ms);
      RestAscends(ns);
      forall m ensures m in ms[1..] <==> m in ns[1..] {
        assert m in ms <==> m in ns;
        if m == ms[0] {
          FirstOnce(ms);
          FirstOnce(ns);
        }
      }
      SameOrder(ms[1..], ns[1..]);
    }
  }

  lemma RestAscends(ms: seq<Member>)
    requires Ascending(ms) && ms != []
    ensures Ascending(ms[1..])
  {
    hide Less;
    var rest := ms[1..];
    forall k | 0 < k < |rest| ensures Less(rest[k - 1].key, rest[k].key) {
      assert Less(ms[k].key, ms[k + 1].key);
    }
  }

  lemma FirstOnce(ms: seq<Member>)
    requires Ascending(ms) && ms != []
    ensures ms[0] !in ms[1..]
  {
    hide Less;
    if ms[0] in ms[1..] {
      FirstIsLeast(ms, ms[0]);
      LessTotal(ms[0].key, ms[0].key);
    }
  }

  // ---------------------------------------------------------------- what is accepted means what it says

  /** An accepted text is written as something that means the entry. */
  lemma {:induction false} EntrySource(t: bytes, ps: NumberParsers, pos: nat, level: nat, before: Entry, inside: bool)
    returns (s: Source)
    requires pos < |t| && BdecodeRecursive(t, ps, pos, level, before).Decoded? && (inside ==> t[pos] != 'e')
    ensures var r := BdecodeRecursive(t, ps, pos, level, before);
            Says(ps, s, r.e, level, inside) && Has(t, pos, Written(s)) && r.pos == pos + |Written(s)|
    decreases |t| - pos, 0
  {
    hide *;
    RecursiveBy(t, ps, pos, level, before);
    var r := BdecodeRecursive(t, ps, pos, level, before);
    if t[pos] == 'i' {
      s := IntegerSource(t, ps, pos + 1);
      IntegerText(t, pos, s.digits);
      SaysNumber(ps, s, r.e, level, inside);
    } else if t[pos] == 'l' {
      var items := ItemsSource(t, ps, pos + 1, level + 1, []);
      s := Items(items);
      SaysItems(ps, items, [], r.e, level, inside);
      Enclosed(t, pos, "l", WrittenItems(items));
    } else if t[pos] == 'd' {
      var pairs := PairsSource(t, ps, pos + 1, level + 1, []);
      s := Pairs(pairs);
      FilledLastWins(pairs);
      SaysPairs(ps, pairs, r.e, level, inside);
      Enclosed(t, pos, "d", WrittenPairs(pairs));
    } else {
      s := StringSource(t, ps, pos, inside);
      SaysText(ps, s, r.e, level, inside);
    }
  }

  /** What the first byte of an entry leads to. */
  lemma RecursiveBy(t: bytes, ps: NumberParsers, pos: nat, level: nat, before: Entry)
    requires pos < |t| && BdecodeRecursive(t, ps, pos, level, before).Decoded?
    ensures level + 1 < MAX_RECURSION_LEVEL
    ensures BdecodeRecursive(t, ps, pos, level, before)
         == if t[pos] == 'i' then BdecodeInteger(t, ps, pos + 1)
            else if t[pos] == 'l' then BdecodeItems(t, ps, pos + 1, level + 1, [])
            else if t[pos] == 'd' then BdecodeMembers(t, ps, pos + 1, level + 1, [])
            else BdecodeString(t, ps, pos)
  {
    hide BdecodeInteger, BdecodeItems, BdecodeMembers, BdecodeString;
  }

  lemma SaysNumber(ps: NumberParsers, s: Source, e: Entry, level: nat, inside: bool)
    requires level + 1 < MAX_RECURSION_LEVEL && s.Number? && 'e' !in s.digits && e.Integer?
    requires ps.int64(s.digits) == Some(e.n)
    ensures Says(ps, s, e, level, inside) && Written(s) == "i" + s.digits + "e"
  {
  }

  lemma SaysText(ps: NumberParsers, s: Source, e: Entry, level: nat, inside: bool)
    requires level + 1 < MAX_RECURSION_LEVEL && s.Text? && LengthOk(ps, s.length, s.body, inside) && e == Str(s.body)
    ensures Says(ps, s, e, level, inside)
  {
    hide LengthOk;
  }

  lemma SaysItems(ps: NumberParsers, ss: seq<Source>, none: seq<Entry>, e: Entry, level: nat, inside: bool)
    requires level + 1 < MAX_RECURSION_LEVEL && none == [] && e.List? && |e.items| == |none| + |ss|
    requires forall k :: 0 <= k < |ss| ==> Says(ps, ss[k], e.items[|none| + k], level + 1, true)
    ensures Says(ps, Items(ss), e, level, inside) && Written(Items(ss)) == "l" + WrittenItems(ss) + "e"
  {
    hide WrittenItems;
    forall k | 0 <= k < |ss| ensures Says(ps, ss[k], e.items[k], level + 1, true) {
      assert Says(ps, ss[k], e.items[|none| + k], level + 1, true);
    }
  }

  lemma SaysPairs(ps: NumberParsers, pairs: seq<Pair>, e: Entry, level: nat, inside: bool)
    requires level + 1 < MAX_RECURSION_LEVEL && e == Dictionary(Filled([], pairs)) && LastWins(Filled([], pairs), pairs)
    requires forall k :: 0 <= k < |pairs| ==> PairOk(ps, pairs[k], level + 1)
    ensures Says(ps, Pairs(pairs), e, level, inside) && Written(Pairs(pairs)) == "d" + WrittenPairs(pairs) + "e"
  {
    hide WrittenPairs, LastWins, LengthOk, Filled;
    forall k | 0 <= k < |pairs|
      ensures LengthOk(ps, pairs[k].length, pairs[k].key, true)
              && Says(ps, pairs[k].value, pairs[k].means, level + 1, false)
    {
      assert PairOk(ps, pairs[k], level + 1);
    }
  }

  lemma IntegerText(t: bytes, pos: nat, w: bytes)
    requires pos < |t| && t[pos] == 'i' && Has(t, pos + 1, w + "e")
    ensures Has(t, pos, "i" + w + "e")
  {
    Enclosed(t, pos, "i", w);
  }

  lemma Enclosed(t: bytes, pos: nat, open: bytes, inside: bytes)
    requires pos < |t| && |open| == 1 && t[pos] == open[0] && Has(t, pos + 1, inside + "e")
    ensures Has(t, pos, open + inside + "e")
  {
    assert t[pos..pos + 1] == open;
    HasConcat(t, pos, open, inside + "e");
    assert open + (inside + "e") == open + inside + "e";
  }

  lemma {:induction false} UntilText(t: bytes, pos: nat, c: byte)
    requires pos <= |t|
    ensures var q := Until(t, pos, c); c !in t[pos..q] && (q < |t| ==> t[q] == c && Has(t, pos, t[pos..q] + [c]))
    decreases |t| - pos
  {
    var q := Until(t, pos, c);
    if pos < q {
      UntilText(t, pos + 1, c);
      assert t[pos..q] == [t[pos]] + t[pos + 1..q];
    }
    if q < |t| {
      assert t[pos..q + 1] == t[pos..q] + [c];
    }
  }

  lemma IntegerSource(t: bytes, ps: NumberParsers, pos: nat) returns (s: Source)
    requires pos <= |t| && BdecodeInteger(t, ps, pos).Decoded?
    ensures var r := BdecodeInteger(t, ps, pos);
            && s.Number? && 'e' !in s.digits && r.e.Integer? && ps.int64(s.digits) == Some(r.e.n)
            && Has(t, pos, s.digits + "e") && r.pos == pos + |s.digits| + 1
  {
    var q := Until(t, pos, 'e');
    UntilText(t, pos, 'e');
    s := Number(t[pos..q]);
  }

  lemma StringSource(t: bytes, ps: NumberParsers, pos: nat, inside: bool) returns (s: Source)
    requires pos < |t| && BdecodeString(t, ps, pos).Decoded?
    requires t[pos] != 'i' && t[pos] != 'l' && t[pos] != 'd' && (inside ==> t[pos] != 'e')
    ensures var r := BdecodeString(t, ps, pos);
            && s.Text? && LengthOk(ps, s.length, s.body, inside) && r.e == Str(s.body)
            && Has(t, pos, Written(s)) && r.pos == pos + |Written(s)|
  {
    var q := Until(t, pos, ':');
    UntilText(t, pos, ':');
    var r := BdecodeString(t, ps, pos);
    s := Text(t[pos..q], t[q + 1..r.pos]);
    HasConcat(t, pos, s.length + ":", s.body);
    assert s.length != [] ==> s.length[0] == t[pos];
  }

  lemma {:induction false} ItemsSource(t: bytes, ps: NumberParsers, pos: nat, level: nat, items: seq<Entry>)
    returns (ss: seq<Source>)
    requires pos <= |t| && BdecodeItems(t, ps, pos, level, items).Decoded?
    ensures var r := BdecodeItems(t, ps, pos, level, items);
            && r.e.List? && |r.e.items| == |items| + |ss| && r.e.items[..|items|] == items
            && (forall k :: 0 <= k < |ss| ==> Says(ps, ss[k], r.e.items[|items| + k], level, true))
            && Has(t, pos, WrittenItems(ss) + "e") && r.pos == pos + |WrittenItems(ss)| + 1
    decreases |t| - pos, 1
  {
    hide BdecodeRecursive, Says, Written;
    if At(t, pos) == 'e' {
      ss := [];
      assert WrittenItems(ss) + "e" == "e" && t[pos..pos + 1] == "e";
    } else {
      var first := BdecodeRecursive(t, ps, pos, level, Undefined);
      AtEnd(t, ps, pos, level, Undefined);
      var s := EntrySource(t, ps, pos, level, Undefined, true);
      var rest := ItemsSource(t, ps, first.pos, level, items + [first.e]);
      ss := [s] + rest;
      var r := BdecodeItems(t, ps, pos, level, items);
      assert r.e.items[..|items|] == r.e.items[..|items| + 1][..|items|];
      assert r.e.items[|items|] == (items + [first.e])[|items|];
      forall k | 0 <= k < |ss| ensures Says(ps, ss[k], r.e.items[|items| + k], level, true) {
        if k > 0 {
          assert ss[k] == rest[k - 1];
        }
      }
      assert ss[1..] == rest && WrittenItems(ss) + "e" == Written(s) + (WrittenItems(rest) + "e");
      HasConcat(t, pos, Written(s), WrittenItems(rest) + "e");
    }
  }

  /** At the end of the text nothing is read. */
  lemma AtEnd(t: bytes, ps: NumberParsers, pos: nat, level: nat, before: Entry)
    requires pos <= |t|
    ensures var r := BdecodeRecursive(t, ps, pos, level, before); pos == |t| && r.Decoded? ==> r == Decoded(|t|, before)
  {
  }

  lemma {:induction false} PairsSource(t: bytes, ps: NumberParsers, pos: nat, level: nat, ms: seq<Member>)
    returns (pairs: seq<Pair>)
    requires pos <= |t| && BdecodeMembers(t, ps, pos, level, ms).Decoded?
    ensures var r := BdecodeMembers(t, ps, pos, level, ms);
            && r.e == Dictionary(Filled(ms, pairs))
            && (forall k :: 0 <= k < |pairs| ==> PairOk(ps, pairs[k], level))
            && Has(t, pos, WrittenPairs(pairs) + "e") && r.pos == pos + |WrittenPairs(pairs)| + 1
    decreases |t| - pos, 1
  {
    hide BdecodeRecursive, Says, Insert, Lookup, LengthOk, Has, Written, WrittenPairs, Filled;
    if At(t, pos) == 'e' {
      pairs := [];
      NoPairsSource(t, pos, ms);
    } else {
      var name := BdecodeRecursive(t, ps, pos, level, Undefined);
      AtEnd(t, ps, pos, level, Undefined);
      var before := Lookup(ms, name.e.s);
      var value := BdecodeRecursive(t, ps, name.pos, level, before);
      AtEnd(t, ps, name.pos, level, before);
      var key := EntrySource(t, ps, pos, level, Undefined, true);
      NameSource(ps, key, name.e, level);
      var s := EntrySource(t, ps, name.pos, level, before, false);
      var p := Pair(key.length, name.e.s, s, value.e);
      var rest := PairsSource(t, ps, value.pos, level, Insert(ms, name.e.s, value.e));
      pairs := [p] + rest;
      assert pairs[1..] == rest;
      FirstPair(pairs);
      HasConcat(t, pos, Written(key), Written(s) + (WrittenPairs(rest) + "e"));
      HasConcat(t, name.pos, Written(s), WrittenPairs(rest) + "e");
    }
  }

  lemma NoPairsSource(t: bytes, pos: nat, ms: seq<Member>)
    requires At(t, pos) == 'e'
    ensures WrittenPairs([]) == [] && Has(t, pos, WrittenPairs([]) + "e") && Filled(ms, []) == ms
  {
    assert WrittenPairs([]) + "e" == "e" && t[pos..pos + 1] == "e";
  }

  predicate PairOk(ps: NumberParsers, p: Pair, level: nat) {
    LengthOk(ps, p.length, p.key, true) && Says(ps, p.value, p.means, level, false)
  }

  lemma NameSource(ps: NumberParsers, s: Source, e: Entry, level: nat)
    requires Says(ps, s, e, level, true) && e.Str?
    ensures s.Text? && s.body == e.s && LengthOk(ps, s.length, e.s, true)
  {
  }

  // ---------------------------------------------------------------- what means something is accepted

  /** A text that means an entry is decoded to it, whatever follows. */
  lemma {:induction false} SourceDecoded(t: bytes, ps: NumberParsers, s: Source, e: Entry, pos: nat, level: nat,
                                         before: Entry, inside: bool)
    requires Says(ps, s, e, level, inside) && Has(t, pos, Written(s))
    ensures BdecodeRecursive(t, ps, pos, level, before) == Decoded(pos + |Written(s)|, e)
    ensures pos < |t| && (inside ==> t[pos] != 'e')
    decreases s, 1
  {
    hide BdecodeRecursive, Says;
    match s
    case Number(w) => NumberDecoded(t, ps, w, e, pos, level, before, inside);
    case Text(length, body) => TextDecoded(t, ps, length, body, e, pos, level, before, inside);
    case Items(items) => ListDecoded(t, ps, items, e, pos, level, before, inside);
    case Pairs(pairs) => DictionaryDecoded(t, ps, pairs, e, pos, level, before, inside);
  }

  lemma NumberDecoded(t: bytes, ps: NumberParsers, w: bytes, e: Entry, pos: nat, level: nat, before: Entry,
                      inside: bool)
    requires Says(ps, Number(w), e, level, inside) && Has(t, pos, "i" + w + "e")
    ensures BdecodeRecursive(t, ps, pos, level, before) == Decoded(pos + |w| + 2, e)
    ensures pos < |t| && t[pos] == 'i'
  {
    Opened(t, pos, "i", w);
    UntilBack(t, pos + 1, w, 'e');
  }

  lemma TextDecoded(t: bytes, ps: NumberParsers, length: bytes, body: bytes, e: Entry, pos: nat, level: nat,
                    before: Entry, inside: bool)
    requires Says(ps, Text(length, body), e, level, inside) && Has(t, pos, Written(Text(length, body)))
    ensures BdecodeRecursive(t, ps, pos, level, before) == Decoded(pos + |Written(Text(length, body))|, e)
    ensures pos < |t| && (inside ==> t[pos] != 'e')
  {
    hide BdecodeString, Until, Has;
    var w := length + ":";
    HasConcat(t, pos, w, body);
    HasAt(t, pos, w, 0);
    assert w[0] == if length == [] then ':' else length[0];
    LengthRead(t, ps, pos, length, body);
    NotEmpty(t, pos, w);
  }

  lemma NotEmpty(t: bytes, pos: nat, w: bytes)
    requires Has(t, pos, w) && w != []
    ensures pos < |t|
  {
  }

  lemma LengthRead(t: bytes, ps: NumberParsers, pos: nat, length: bytes, body: bytes)
    requires ':' !in length && ps.long(length) == Some(|body|)
    requires Has(t, pos, length + ":") && Has(t, pos + |length + ":"|, body)
    ensures BdecodeString(t, ps, pos) == Decoded(pos + |length + ":" + body|, Str(body))
  {
    UntilBack(t, pos, length, ':');
  }

  lemma {:induction false} ListDecoded(t: bytes, ps: NumberParsers, items: seq<Source>, e: Entry, pos: nat, level: nat,
                                       before: Entry, inside: bool)
    requires Says(ps, Items(items), e, level, inside) && Has(t, pos, Written(Items(items)))
    ensures BdecodeRecursive(t, ps, pos, level, before) == Decoded(pos + |Written(Items(items))|, e)
    ensures pos < |t| && t[pos] == 'l'
    decreases items, 1
  {
    hide BdecodeItems, WrittenItems;
    Opened(t, pos, "l", WrittenItems(items));
    ItemsDecoded(t, ps, items, e.items, pos + 1, level + 1, []);
    assert [] + e.items == e.items;
  }

  lemma {:induction false} ItemsDecoded(t: bytes, ps: NumberParsers, items: seq<Source>, es: seq<Entry>, pos: nat,
                                        level: nat, read: seq<Entry>)
    requires |items| == |es| && forall k :: 0 <= k < |items| ==> Says(ps, items[k], es[k], level, true)
    requires Has(t, pos, WrittenItems(items) + "e")
    ensures BdecodeItems(t, ps, pos, level, read) == Decoded(pos + |WrittenItems(items)| + 1, List(read + es))
    decreases items, 0
  {
    hide Says, BdecodeRecursive;
    if items == [] {
      HasLetter(t, pos);
      assert read + es == read;
    } else {
      var first, rest := Written(items[0]), WrittenItems(items[1..]);
      assert WrittenItems(items) + "e" == first + (rest + "e");
      HasConcat(t, pos, first, rest + "e");
      SourceDecoded(t, ps, items[0], es[0], pos, level, Undefined, true);
      ItemsDecoded(t, ps, items[1..], es[1..], pos + |first|, level, read + [es[0]]);
      assert read + [es[0]] + es[1..] == read + es;
    }
  }

  lemma {:induction false} DictionaryDecoded(t: bytes, ps: NumberParsers, pairs: seq<Pair>, e: Entry, pos: nat,
                                             level: nat, before: Entry, inside: bool)
    requires Says(ps, Pairs(pairs), e, level, inside) && Has(t, pos, Written(Pairs(pairs)))
    ensures BdecodeRecursive(t, ps, pos, level, before) == Decoded(pos + |Written(Pairs(pairs))|, e)
    ensures pos < |t| && t[pos] == 'd'
    decreases pairs, 1
  {
    hide BdecodeMembers, WrittenPairs, LastWins, LengthOk;
    Opened(t, pos, "d", WrittenPairs(pairs));
    PairsDecoded(t, ps, pairs, pos + 1, level + 1, []);
    FilledLastWins(pairs);
    OnlyOne(e.members, Filled([], pairs), pairs);
  }

  lemma {:induction false} PairsDecoded(t: bytes, ps: NumberParsers, pairs: seq<Pair>, pos: nat, level: nat,
                                        read: seq<Member>)
    requires forall k :: 0 <= k < |pairs| ==> PairOk(ps, pairs[k], level)
    requires Has(t, pos, WrittenPairs(pairs) + "e")
    ensures BdecodeMembers(t, ps, pos, level, read)
         == Decoded(pos + |WrittenPairs(pairs)| + 1, Dictionary(Filled(read, pairs)))
    decreases pairs, 0
  {
    hide *;
    if pairs == [] {
      NoPairs(t, ps, pos, level, read);
    } else {
      var p, rest := pairs[0], WrittenPairs(pairs[1..]);
      var name, value := Written(Text(p.length, p.key)), Written(p.value);
      FirstPair(pairs);
      HasConcat(t, pos, name, value + (rest + "e"));
      HasConcat(t, pos + |name|, value, rest + "e");
      NameSays(ps, p, level);
      TextDecoded(t, ps, p.length, p.key, Str(p.key), pos, level, Undefined, true);
      SourceDecoded(t, ps, p.value, p.means, pos + |name|, level, Lookup(read, p.key), false);
      var q := pos + |name| + |value|;
      NotTheEnd(t, q, rest);
      MembersStep(t, ps, pos, level, read, pos + |name|, p.key, q, p.means);
      PairsDecoded(t, ps, pairs[1..], q, level, Insert(read, p.key, p.means));
    }
  }

  lemma NoPairs(t: bytes, ps: NumberParsers, pos: nat, level: nat, read: seq<Member>)
    requires Has(t, pos, WrittenPairs([]) + "e")
    ensures BdecodeMembers(t, ps, pos, level, read)
         == Decoded(pos + |WrittenPairs([])| + 1, Dictionary(Filled(read, [])))
  {
    HasLetter(t, pos);
  }

  lemma NotTheEnd(t: bytes, pos: nat, w: bytes)
    requires Has(t, pos, w + "e")
    ensures pos < |t|
  {
  }

  lemma FirstPair(pairs: seq<Pair>)
    requires pairs != []
    ensures var p := pairs[0];
            WrittenPairs(pairs) + "e"
            == Written(Text(p.length, p.key)) + (Written(p.value) + (WrittenPairs(pairs[1..]) + "e"))
    ensures forall ms :: Filled(ms, pairs) == Filled(Insert(ms, pairs[0].key, pairs[0].means), pairs[1..])
    ensures |WrittenPairs(pairs)|
         == |Written(Text(pairs[0].length, pairs[0].key))| + |Written(pairs[0].value)| + |WrittenPairs(pairs[1..])|
  {
    hide Insert;
  }

  /** One member is read. */
  lemma MembersStep(t: bytes, ps: NumberParsers, pos: nat, level: nat, ms: seq<Member>, k: nat, key: bytes, q: nat,
                    value: Entry)
    requires pos < |t| && t[pos] != 'e' && k <= |t| && q < |t|
    requires BdecodeRecursive(t, ps, pos, level, Undefined) == Decoded(k, Str(key))
    requires BdecodeRecursive(t, ps, k, level, Lookup(ms, key)) == Decoded(q, value)
    ensures BdecodeMembers(t, ps, pos, level, ms) == BdecodeMembers(t, ps, q, level, Insert(ms, key, value))
  {
    hide BdecodeRecursive, Insert, Lookup;
  }

  lemma NameSays(ps: NumberParsers, p: Pair, level: nat)
    requires PairOk(ps, p, level)
    ensures Says(ps, Text(p.length, p.key), Str(p.key), level, true)
    ensures Says(ps, p.value, p.means, level, false)
  {
    assert level + 1 < MAX_RECURSION_LEVEL;
  }

  // ---------------------------------------------------------------- both together

  /**
   * The decoder accepts a text that is not empty exactly if it begins with one
   * that means an entry; it gives that entry and stops where it ends.
   */
  lemma DecoderExact(t: bytes, ps: NumberParsers, before: Entry, q: nat, e: Entry)
    requires t != []
    ensures BdecodeRecursive(t, ps, 0, 0, before) == Decoded(q, e)
        <==> exists s: Source :: Says(ps, s, e, 0, false) && Has(t, 0, Written(s)) && q == |Written(s)|
  {
    hide BdecodeRecursive, Says;
    if BdecodeRecursive(t, ps, 0, 0, before) == Decoded(q, e) {
      var s := EntrySource(t, ps, 0, 0, before, false);
      assert Says(ps, s, e, 0, false);
    }
    if s: Source :| Says(ps, s, e, 0, false) && Has(t, 0, Written(s)) && q == |Written(s)| {
      SourceDecoded(t, ps, s, e, 0, 0, before, false);
    }
  }

  /** Dictionaries are in order, at every depth. */
  predicate InOrder(e: Entry)
    decreases e
  {
    match e
    case List(items) => forall k :: 0 <= k < |items| ==> InOrder(items[k])
    case Dictionary(ms) => Ascending(ms) && forall k :: 0 <= k < |ms| ==> InOrder(ms[k].value)
    case _ => true
  }

  lemma {:induction false} MeaningInOrder(ps: NumberParsers, s: Source, e: Entry, level: nat, inside: bool)
    requires Says(ps, s, e, level, inside)
    ensures InOrder(e)
    decreases s
  {
    match s
    case Items(items) =>
      forall k | 0 <= k < |items| ensures InOrder(e.items[k]) {
        MeaningInOrder(ps, items[k], e.items[k], level + 1, true);
      }
    case Pairs(pairs) =>
      forall k | 0 <= k < |e.members| ensures InOrder(e.members[k].value) {
        hide Says, Ascending;
        var j := LastOf(pairs, e.members[k].key, e.members[k].value);
        PairsSay(ps, pairs, e, level, inside, j);
        MeaningInOrder(ps, pairs[j].value, pairs[j].means, level + 1, false);
      }
    case _ =>
  }

  lemma PairsSay(ps: NumberParsers, pairs: seq<Pair>, e: Entry, level: nat, inside: bool, j: nat)
    requires Says(ps, Pairs(pairs), e, level, inside) && j < |pairs|
    ensures Says(ps, pairs[j].value, pairs[j].means, level + 1, false)
  {
    hide LastWins, LengthOk;
  }

  /** Whatever is accepted, its dictionaries are in order and have each key once. */
  lemma DecodedInOrder(t: bytes, ps: NumberParsers, before: Entry)
    requires t != [] && BdecodeRecursive(t, ps, 0, 0, before).Decoded?
    ensures InOrder(BdecodeRecursive(t, ps, 0, 0, before).e)
  {
    hide BdecodeRecursive, Says;
    var s := EntrySource(t, ps, 0, 0, before, false);
    MeaningInOrder(ps, s, BdecodeRecursive(t, ps, 0, 0, before).e, 0, false);
  }

  /** A dictionary is sorted, and the last value of a key stays. */
  lemma SortedAndReplaced(ps: NumberParsers, before: Entry)
    requires ReadDecimals(ps)
    ensures BdecodeRecursive("d1:bi2e1:ai1ee", ps, 0, 0, before)
         == Decoded(14, Dictionary([Member("a", Integer(1)), Member("b", Integer(2))]))
    ensures BdecodeRecursive("d1:ai1e1:ai2ee", ps, 0, 0, before) == Decoded(14, Dictionary([Member("a", Integer(2))]))
  {
    hide BdecodeRecursive, PairOk, Insert;
    assert Insert([Member("b", Integer(2))], "a", Integer(1)) == [Member("a", Integer(1)), Member("b", Integer(2))] by {
      InsertBefore();
    }
    assert Insert([Member("a", Integer(1))], "a", Integer(2)) == [Member("a", Integer(2))] by { InsertBefore(); }
    SmallPair(ps, "b", 2);
    SmallPair(ps, "a", 1);
    SmallPair(ps, "a", 2);
    TwoDecoded(ps, before, "d1:bi2e1:ai1ee", Small("b", 2), Small("a", 1));
    TwoDecoded(ps, before, "d1:ai1e1:ai2ee", Small("a", 1), Small("a", 2));
  }

  /** A name of one letter and a number of one digit. */
  function Small(name: bytes, n: nat): Pair
    requires n < 10
  {
    Pair("1", name, Number([(n + '0' as int) as char]), Integer(n))
  }

  lemma SmallPair(ps: NumberParsers, name: bytes, n: nat)
    requires ReadDecimals(ps) && n < 10 && |name| == 1
    ensures PairOk(ps, Small(name, n), 1)
  {
    assert SignedDec(n) == [(n + '0' as int) as char] && Dec(1) == "1";
    assert ps.int64(SignedDec(n)) == Some(n) && ps.long(Dec(1)) == Some(1);
  }

  lemma InsertBefore()
    ensures Insert([Member("b", Integer(2))], "a", Integer(1)) == [Member("a", Integer(1)), Member("b", Integer(2))]
    ensures Insert([Member("a", Integer(1))], "a", Integer(2)) == [Member("a", Integer(2))]
  {
    LessTotal("a", "a");
  }

  lemma TwoDecoded(ps: NumberParsers, before: Entry, t: bytes, p: Pair, q: Pair)
    requires PairOk(ps, p, 1) && PairOk(ps, q, 1) && p.value.Number? && q.value.Number?
    requires t == "d" + (p.length + ":" + p.key + ("i" + p.value.digits + "e"))
                  + (q.length + ":" + q.key + ("i" + q.value.digits + "e")) + "e"
    ensures BdecodeRecursive(t, ps, 0, 0, before)
         == Decoded(|t|, Dictionary(Insert([Member(p.key, p.means)], q.key, q.means)))
  {
    hide BdecodeRecursive, PairOk, Says, Insert;
    TwoPairs(ps, p, q);
    assert Has(t, 0, t);
    SourceDecoded(t, ps, Pairs([p, q]), Dictionary(Filled([], [p, q])), 0, 0, before, false);
  }

  lemma InsertFirst(key: bytes, value: Entry)
    ensures Insert([], key, value) == [Member(key, value)]
  {
  }

  lemma TwoPairs(ps: NumberParsers, p: Pair, q: Pair)
    requires PairOk(ps, p, 1) && PairOk(ps, q, 1)
    ensures Says(ps, Pairs([p, q]), Dictionary(Filled([], [p, q])), 0, false)
    ensures Written(Pairs([p, q]))
         == "d" + (p.length + ":" + p.key + Written(p.value)) + (q.length + ":" + q.key + Written(q.value)) + "e"
    ensures Filled([], [p, q]) == Insert([Member(p.key, p.means)], q.key, q.means)
  {
    hide LastWins, LengthOk, Insert;
    FilledLastWins([p, q]);
    assert [p, q][1..] == [q] && [q][1..] == [];
    assert Filled([], [p, q]) == Filled(Insert([], p.key, p.means), [q]);
    assert Insert([], p.key, p.means) == [Member(p.key, p.means)] by { InsertFirst(p.key, p.means); }
    var m := [Member(p.key, p.means)];
    assert Filled(m, [q]) == Filled(Insert(m, q.key, q.means), []);
    assert WrittenPairs([q]) == q.length + ":" + q.key + Written(q.value);
  }
}
