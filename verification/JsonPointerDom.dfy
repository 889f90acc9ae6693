/** Pointers on a document: Get, Create, Set and Erase, and how they relate. */
module JsonPointerDom {
  import opened Bytes
  import opened JsonTypes
  import opened JsonValue
  import opened JsonPointer

  const NULL: Value := Leaf(Null)

  /** A child of a container: an element or the value of a member. */
  datatype Child = Elem(k: nat) | Memb(k: nat)

  predicate HasChild(v: Value, c: Child) {
    match c
    case Elem(k) => v.Array? && k < |v.elements|
    case Memb(k) => v.Object? && k < |v.members|
  }

  function ChildAt(v: Value, c: Child): Value
    requires HasChild(v, c)
  {
    match c case Elem(k) => v.elements[k] case Memb(k) => v.members[k].value
  }

  /** The container with another child in the same place. */
  function WithChild(v: Value, c: Child, x: Value): (r: Value)
    requires HasChild(v, c)
    ensures HasChild(r, c) && ChildAt(r, c) == x
    ensures forall d :: HasChild(v, d) <==> HasChild(r, d)
  {
    match c
    case Elem(k) => Array(v.elements[k := x])
    case Memb(k) => Object(v.members[k := v.members[k].(value := x)])
  }

  lemma OtherChild(v: Value, c: Child, x: Value, d: Child)
    requires HasChild(v, c) && HasChild(v, d) && c != d
    ensures ChildAt(WithChild(v, c, x), d) == ChildAt(v, d)
  {
  }

  /** What a name is when it is passed on as a null-terminated string. */
  function CStr(name: bytes): (r: bytes)
    ensures r <= name && '\0' !in r
    ensures r == name <==> '\0' !in name
  {
    if name == [] || name[0] == '\0' then [] else [name[0]] + CStr(name[1..])
  }

  /** FindMember: the first member with that name. */
  function FindMember(ms: seq<Pair>, name: bytes): (r: Option<nat>)
    ensures r.Some? ==> r.value < |ms| && ms[r.value].name == name
    ensures r.Some? ==> forall k :: 0 <= k < r.value ==> ms[k].name != name
    ensures r.None? ==> forall k :: 0 <= k < |ms| ==> ms[k].name != name
  {
    if ms == [] then None
    else if ms[0].name == name then Some(0)
    else
      match FindMember(ms[1..], name)
      case None => None
      case Some(k) => Some(k + 1)
  }

  lemma FindFirst(ms: seq<Pair>, name: bytes, k: nat)
    requires k < |ms| && ms[k].name == name && forall j :: 0 <= j < k ==> ms[j].name != name
    ensures FindMember(ms, name) == Some(k)
  {
  }

  /**
   * The child that a token names. Members are looked up and erased through the
   * overloads for null-terminated strings, so a name counts up to its first null.
   */
  function Find(v: Value, t: Token): (r: Option<Child>)
    ensures r.Some? ==> HasChild(v, r.value)
  {
    match v
    case Leaf(_) => None
    case Array(vs) => if t.index == INVALID_INDEX || t.index >= |vs| then None else Some(Elem(t.index))
    case Object(ms) =>
      match FindMember(ms, CStr(t.name))
      case None => None
      case Some(k) => Some(Memb(k))
  }

  /** Get. */
  function Get(v: Value, ts: seq<Token>): Option<Value>
    decreases |ts|
  {
    if ts == [] then Some(v)
    else
      match Find(v, ts[0])
      case None => None
      case Some(c) => Get(ChildAt(v, c), ts[1..])
  }

  // ---------------------------------------------------------------- Create

  /** The token `-` on an array: the element after the last. */
  predicate IsDash(v: Value, t: Token) {
    v.Array? && t.name == "-"
  }

  /** The type of the container is not changed for the token. */
  predicate KeepsType(v: Value, t: Token) {
    IsDash(v, t) || (if t.index == INVALID_INDEX then v.Object? else !v.Leaf?)
  }

  /** The value as a container that the token can name a child of; its former content is lost if its type changes. */
  function Coerced(v: Value, t: Token): (r: Value)
    ensures !r.Leaf?
    ensures KeepsType(v, t) && !IsDash(v, t) ==> r == v
  {
    if t.index == INVALID_INDEX then (if v.Object? then v else Object([]))
    else if v.Leaf? then Array([])
    else v
  }

  /** The container with the child that the token names, made if need be. */
  function Made(v: Value, t: Token): Value {
    if IsDash(v, t) then Array(v.elements + [NULL])
    else
      var w := Coerced(v, t);
      if !Missing(v, t) then w
      else if w.Array? then Array(w.elements + seq(t.index + 1 - |w.elements|, _ => NULL))
      else Object(w.members + [Pair(t.name, NULL)])
  }

  /** The child that the token names, as it stands in what was made. */
  function Target(v: Value, t: Token): (c: Child)
    ensures HasChild(Made(v, t), c)
  {
    if IsDash(v, t) then Elem(|v.elements|)
    else
      var w := Coerced(v, t);
      if w.Array? then Elem(t.index)
      else if Missing(v, t) then Memb(|w.members|)
      else Memb(FindMember(w.members, CStr(t.name)).value)
  }

  /** Whether the child has to be made. */
  predicate Missing(v: Value, t: Token) {
    IsDash(v, t)
    || var w := Coerced(v, t);
       if w.Array? then t.index >= |w.elements| else FindMember(w.members, CStr(t.name)).None?
  }

  /** The root afterwards, the way to the value, and whether it had been there. */
  datatype Created = Created(root: Value, path: seq<Child>, exist: bool)

  function Create(v: Value, ts: seq<Token>): Created
    decreases |ts|
  {
    if ts == [] then Created(v, [], true)
    else
      var w, c := Made(v, ts[0]), Target(v, ts[0]);
      var r := Create(ChildAt(w, c), ts[1..]);
      Created(WithChild(w, c, r.root), [c] + r.path, !Missing(v, ts[0]) && r.exist)
  }

  /** There is a value at the end of the way. */
  predicate HasPath(v: Value, path: seq<Child>)
    decreases |path|
  {
    path == [] || (HasChild(v, path[0]) && HasPath(ChildAt(v, path[0]), path[1..]))
  }

  /** Assignment to the value that Create returned a reference to. */
  function Assign(v: Value, path: seq<Child>, x: Value): Value
    requires HasPath(v, path)
    decreases |path|
  {
    if path == [] then x else WithChild(v, path[0], Assign(ChildAt(v, path[0]), path[1..], x))
  }

  lemma {:induction false} CreateHasPath(v: Value, ts: seq<Token>)
    ensures HasPath(Create(v, ts).root, Create(v, ts).path)
    decreases |ts|
  {
    hide Made, Target, Missing;
    if ts != [] {
      var w, c := Made(v, ts[0]), Target(v, ts[0]);
      var r := Create(ChildAt(w, c), ts[1..]);
      CreateHasPath(ChildAt(w, c), ts[1..]);
      assert ([c] + r.path)[1..] == r.path;
    }
  }

  /** Set: create, then assign. */
  function Set(v: Value, ts: seq<Token>, x: Value): Value {
    var r := Create(v, ts);
    CreateHasPath(v, ts);
    Assign(r.root, r.path, x)
  }

  /** Set works on one child of one container at a time. */
  lemma SetStep(v: Value, ts: seq<Token>, x: Value)
    requires ts != []
    ensures var w, c := Made(v, ts[0]), Target(v, ts[0]);
            Set(v, ts, x) == WithChild(w, c, Set(ChildAt(w, c), ts[1..], x))
  {
    hide Made, Target, Missing, Assign;
    var w, c := Made(v, ts[0]), Target(v, ts[0]);
    var r := Create(ChildAt(w, c), ts[1..]);
    CreateHasPath(ChildAt(w, c), ts[1..]);
    CreateHasPath(v, ts);
    assert Create(v, ts).path[1..] == r.path;
    AssignStep(WithChild(w, c, r.root), Create(v, ts).path, x);
    TwiceReplaced(w, c, r.root, Assign(r.root, r.path, x));
  }

  lemma AssignStep(v: Value, path: seq<Child>, x: Value)
    requires path != [] && HasPath(v, path)
    ensures Assign(v, path, x) == WithChild(v, path[0], Assign(ChildAt(v, path[0]), path[1..], x))
  {
  }

  lemma TwiceReplaced(v: Value, c: Child, x: Value, y: Value)
    requires HasChild(v, c)
    ensures WithChild(WithChild(v, c, x), c, y) == WithChild(v, c, y)
  {
  }

  // ---------------------------------------------------------------- the lens laws

  /** Tokens as parsing makes them. */
  predicate TokensOk(ts: seq<Token>) {
    forall k :: 0 <= k < |ts| ==> ts[k].index == IndexOf(ts[k].name)
  }

  /** A child is missing exactly if the token does not name one. */
  lemma MissingExact(v: Value, t: Token)
    requires t.index == IndexOf(t.name)
    ensures Missing(v, t) <==> Find(v, t).None?
    ensures Find(v, t).Some? ==> Made(v, t) == v && Target(v, t) == Find(v, t).value
  {
    assert "-"[0] == '-' && !IsDigit('-');
  }

  /** `alreadyExist` is true exactly if Get resolved before, and then Create changes nothing. */
  lemma {:induction false} CreateExact(v: Value, ts: seq<Token>)
    requires TokensOk(ts)
    ensures Create(v, ts).exist <==> Get(v, ts).Some?
    ensures Get(v, ts).Some? ==> Create(v, ts).root == v
    decreases |ts|
  {
    hide Made, Target, Missing, Find, IndexOf;
    if ts != [] {
      MissingExact(v, ts[0]);
      var w, c := Made(v, ts[0]), Target(v, ts[0]);
      CreateExact(ChildAt(w, c), ts[1..]);
      if Find(v, ts[0]).Some? && Get(v, ts).Some? {
        SameChild(v, c);
      }
    }
  }

  lemma SameChild(v: Value, c: Child)
    requires HasChild(v, c)
    ensures WithChild(v, c, ChildAt(v, c)) == v
  {
  }

  /**
   * What is made for the token has a name by which the token does not find it:
   * none for the element after the last, and one longer than it is read for a
   * new member whose name holds a null.
   */
  predicate Hidden(v: Value, t: Token) {
    IsDash(v, t) || (!Coerced(v, t).Array? && Missing(v, t) && '\0' in t.name)
  }

  /** Create makes such a child on its way. */
  predicate Loses(v: Value, ts: seq<Token>)
    decreases |ts|
  {
    ts != [] && (Hidden(v, ts[0]) || Loses(ChildAt(Made(v, ts[0]), Target(v, ts[0])), ts[1..]))
  }

  /** After the change the token names the child that was made, or it is hidden. */
  lemma FindMade(v: Value, t: Token, x: Value)
    requires t.index == IndexOf(t.name)
    ensures Find(WithChild(Made(v, t), Target(v, t), x), t)
         == if Hidden(v, t) then None else Some(Target(v, t))
  {
    assert "-"[0] == '-' && !IsDigit('-');
    var w, c := Made(v, t), Target(v, t);
    if w.Object? {
      var ms := WithChild(w, c, x).members;
      if Hidden(v, t) {
        assert forall k :: 0 <= k < |ms| ==> ms[k].name != CStr(t.name);
      } else {
        FindFirst(ms, CStr(t.name), c.k);
      }
    }
  }

  /** What was set is what Get gets, exactly if Create made no child that its token does not find. */
  lemma {:induction false} GetSet(v: Value, ts: seq<Token>, x: Value)
    requires TokensOk(ts)
    ensures Get(Set(v, ts, x), ts) == if Loses(v, ts) then None else Some(x)
    decreases |ts|
  {
    hide Made, Target, Find, Set, Hidden, IndexOf;
    if ts == [] {
      SetRoot(v, x);
    } else {
      var w, c := Made(v, ts[0]), Target(v, ts[0]);
      SetStep(v, ts, x);
      FindMade(v, ts[0], Set(ChildAt(w, c), ts[1..], x));
      GetSet(ChildAt(w, c), ts[1..], x);
    }
  }

  /** Setting `/a` with a null and a `b` behind it, on an empty object: the value is not found again. */
  lemma NullInNameLost(x: Value)
    ensures var ts := [Token("a\0b", INVALID_INDEX)];
            TokensOk(ts) && Get(Set(Object([]), ts, x), ts) == None
  {
    var t := Token("a\0b", INVALID_INDEX);
    assert "a\0b"[0] == 'a' && !IsDigit('a') && "a\0b"[1] == '\0';
    assert Missing(Object([]), t);
    GetSet(Object([]), [t], x);
  }

  /** The first member with the name, if there is one. */
  predicate FirstNamed(ms: seq<Pair>, name: bytes, k: nat) {
    k < |ms| && ms[k].name == name && forall j :: 0 <= j < k ==> ms[j].name != name
  }

  /**
   * What Set makes of a value for a single token: an element replaced, or appended behind as many nulls as are
   * missing; a member replaced, or appended; or a new container in the place of a value of another type.
   */
  lemma SetOne(v: Value, t: Token, x: Value)
    requires '\0' !in t.name
    ensures var r, dash, named := Set(v, [t], x), v.Array? && t.name == "-", t.index == INVALID_INDEX;
            && (dash ==> r == Array(v.elements + [x]))
            && (v.Array? && !dash && !named ==>
                  r == if t.index < |v.elements| then Array(v.elements[t.index := x])
                       else Array(v.elements + seq(t.index - |v.elements|, _ => Leaf(Null)) + [x]))
            && (v.Leaf? && !named ==> r == Array(seq(t.index, _ => Leaf(Null)) + [x]))
            && (!v.Object? && !dash && named ==> r == Object([Pair(t.name, x)]))
            && (v.Object? ==>
                  && (forall k: nat :: FirstNamed(v.members, t.name, k) ==>
                                         r == Object(v.members[k := Pair(t.name, x)]))
                  && ((forall k :: 0 <= k < |v.members| ==> v.members[k].name != t.name) ==>
                        r == Object(v.members + [Pair(t.name, x)])))
  {
    hide Set, Create;
    SetStep(v, [t], x);
    assert [t][1..] == [];
    var w, c := Made(v, t), Target(v, t);
    SetNothing(ChildAt(w, c), x);
    assert Set(v, [t], x) == WithChild(w, c, x);
    if v.Object? {
      forall k: nat | FirstNamed(v.members, t.name, k) ensures FindMember(v.members, t.name) == Some(k) {
        FindFirst(v.members, t.name, k);
      }
    }
  }

  lemma SetNothing(v: Value, x: Value)
    ensures Set(v, [], x) == x
  {
  }

  lemma SetRoot(v: Value, x: Value)
    ensures Set(v, [], x) == x
  {
  }

  /** The pointers lead to different children of one container, the way `p` goes keeping its type. */
  predicate Parts(v: Value, p: seq<Token>, q: seq<Token>)
    decreases |q|
  {
    && p != [] && q != [] && KeepsType(v, p[0]) && Find(v, q[0]).Some?
    && var c := Find(v, q[0]).value;
       Target(v, p[0]) != c || Parts(ChildAt(v, c), p[1..], q[1..])
  }

  /** What a token names stays what it names when another child is made or replaced. */
  lemma FindKept(v: Value, t: Token, x: Value, u: Token)
    requires KeepsType(v, t) && Find(v, u).Some?
    ensures HasChild(Made(v, t), Find(v, u).value)
    ensures ChildAt(Made(v, t), Find(v, u).value) == ChildAt(v, Find(v, u).value)
    ensures Find(WithChild(Made(v, t), Target(v, t), x), u) == Find(v, u)
  {
    var w, c := Made(v, t), Target(v, t);
    if v.Object? {
      FindFirst(WithChild(w, c, x).members, CStr(u.name), Find(v, u).value.k);
    }
  }

  /** A pointer that parts from the one that is set keeps its value. */
  lemma {:induction false} SetKeeps(v: Value, p: seq<Token>, x: Value, q: seq<Token>)
    requires Get(v, q).Some? && Parts(v, p, q)
    ensures Get(Set(v, p, x), q) == Get(v, q)
    decreases |q|
  {
    hide Made, Target, Find, Set, KeepsType;
    var w, c := Made(v, p[0]), Target(v, p[0]);
    var d := Find(v, q[0]).value;
    var y := Set(ChildAt(w, c), p[1..], x);
    SetStep(v, p, x);
    FindKept(v, p[0], y, q[0]);
    if c != d {
      OtherChild(w, c, y, d);
    } else {
      SetKeeps(ChildAt(v, c), p[1..], x, q[1..]);
    }
  }

  // ---------------------------------------------------------------- Erase

  /** The container without one child. */
  function WithoutChild(v: Value, c: Child): Value
    requires HasChild(v, c)
  {
    match c
    case Elem(k) => Array(v.elements[..k] + v.elements[k + 1..])
    case Memb(k) => Object(v.members[..k] + v.members[k + 1..])
  }

  datatype Erased = Erased(root: Value, found: bool)

  /** Erase. */
  function Erase(v: Value, ts: seq<Token>): Erased
    decreases |ts|
  {
    if ts == [] then Erased(v, false)
    else
      match Find(v, ts[0])
      case None => Erased(v, false)
      case Some(c) =>
        if |ts| == 1 then Erased(WithoutChild(v, c), true)
        else
          var r := Erase(ChildAt(v, c), ts[1..]);
          Erased(WithChild(v, c, r.root), r.found)
  }

  /** Erase succeeds exactly if the pointer is not the root and Get resolved; otherwise it changes nothing. */
  lemma {:induction false} EraseExact(v: Value, ts: seq<Token>)
    ensures Erase(v, ts).found <==> ts != [] && Get(v, ts).Some?
    ensures !Erase(v, ts).found ==> Erase(v, ts).root == v
    decreases |ts|
  {
    hide Find, WithoutChild;
    if ts != [] && Find(v, ts[0]).Some? {
      var c := Find(v, ts[0]).value;
      if |ts| > 1 {
        EraseExact(ChildAt(v, c), ts[1..]);
        SameChild(v, c);
      } else {
        assert Get(ChildAt(v, c), ts[1..]) == Some(ChildAt(v, c));
      }
    }
  }

  /** The pointers resolve to different children of one container, before the last token of `p`. */
  predicate PartsAbove(v: Value, p: seq<Token>, q: seq<Token>)
    decreases |q|
  {
    && |p| > 1 && q != [] && Find(v, p[0]).Some? && Find(v, q[0]).Some?
    && var c := Find(v, q[0]).value;
       Find(v, p[0]).value != c || PartsAbove(ChildAt(v, c), p[1..], q[1..])
  }

  lemma FindReplaced(v: Value, c: Child, x: Value, u: Token)
    requires HasChild(v, c)
    ensures Find(WithChild(v, c, x), u) == Find(v, u)
  {
    if v.Object? && FindMember(v.members, CStr(u.name)).Some? {
      FindFirst(WithChild(v, c, x).members, CStr(u.name), FindMember(v.members, CStr(u.name)).value);
    }
  }

  /** A pointer that parts above the erased value keeps its value. */
  lemma {:induction false} EraseKeeps(v: Value, p: seq<Token>, q: seq<Token>)
    requires Erase(v, p).found && Get(v, q).Some? && PartsAbove(v, p, q)
    ensures Get(Erase(v, p).root, q) == Get(v, q)
    decreases |q|
  {
    hide Find, WithoutChild;
    var c, d := Find(v, p[0]).value, Find(v, q[0]).value;
    var y := Erase(ChildAt(v, c), p[1..]).root;
    FindReplaced(v, c, y, q[0]);
    if c != d {
      OtherChild(v, c, y, d);
    } else {
      EraseKeeps(ChildAt(v, c), p[1..], q[1..]);
    }
  }

  /** The siblings of an erased child: members keep their names, later elements move down by one. */
  lemma EraseSiblings(v: Value, t: Token, u: Token)
    requires Find(v, t).Some? && Find(v, u).Some? && Find(v, t) != Find(v, u)
    ensures var w, c, d := WithoutChild(v, Find(v, t).value), Find(v, t).value, Find(v, u).value;
            if v.Array? && d.k > c.k then d.k - 1 < |w.elements| && w.elements[d.k - 1] == v.elements[d.k]
            else Find(w, u).Some? && ChildAt(w, Find(w, u).value) == ChildAt(v, d)
  {
    var w, c, d := WithoutChild(v, Find(v, t).value), Find(v, t).value, Find(v, u).value;
    if v.Object? {
      FindFirst(w.members, CStr(u.name), if d.k > c.k then d.k - 1 else d.k);
    }
  }

  // ---------------------------------------------------------------- Get as a loop

  /** Get, which also tells the first token that does not resolve. */
  method Resolve(root: Value, ts: seq<Token>) returns (found: Option<Value>, ghost unresolved: nat)
    ensures found == Get(root, ts)
    ensures found.None? ==>
              unresolved < |ts| && Get(root, ts[..unresolved]).Some? && Get(root, ts[..unresolved + 1]).None?
  {
    var v := root;
    unresolved := 0;
    GetSplit(root, ts, 0);
    for k := 0 to |ts|
      invariant Get(root, ts[..k]) == Some(v) && Get(v, ts[k..]) == Get(root, ts)
    {
      assert ts[k..][1..] == ts[k + 1..];
      GetSplit(root, ts[..k + 1], k);
      assert ts[..k + 1][..k] == ts[..k] && ts[..k + 1][k..] == [ts[k]];
      GetOne(v, ts[k]);
      match Find(v, ts[k])
      case None =>
        unresolved := k;
        return None, k;
      case Some(c) => v := ChildAt(v, c);
    }
    found := Some(v);
  }

  lemma GetOne(v: Value, t: Token)
    ensures Get(v, [t]) == match Find(v, t) case None => None case Some(c) => Some(ChildAt(v, c))
  {
    assert [t][1..] == [];
  }

  lemma {:induction false} GetSplit(v: Value, ts: seq<Token>, k: nat)
    requires k <= |ts|
    ensures Get(v, ts) == match Get(v, ts[..k]) case None => None case Some(w) => Get(w, ts[k..])
    decreases k
  {
    hide Find;
    if k == 0 {
      assert ts[..0] == [] && ts[0..] == ts;
    } else {
      assert ts[..k][1..] == ts[1..][..k - 1] && ts[1..][k - 1..] == ts[k..];
      if Find(v, ts[0]).Some? {
        GetSplit(ChildAt(v, Find(v, ts[0]).value), ts[1..], k - 1);
      }
    }
  }
}
