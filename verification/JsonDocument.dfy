/** The document: the handler that builds a tree of values from events, on a stack of finished values. */
module JsonDocument {
  import opened Bytes
  import opened JsonTypes
  import opened JsonScan
  import opened JsonRecursive
  import opened JsonIterative
  import opened JsonEquivalence
  import opened JsonReader
  import opened JsonValue
  import opened JsonSound

  // ---------------------------------------------------------------- numbers

  /** Which integer types a stored number says it fits. */
  datatype NumberFlags = NumberFlags(isInt: bool, isUint: bool, isInt64: bool, isUint64: bool)

  predicate IsInteger(e: Event) {
    e.Int? || e.Uint? || e.Int64? || e.Uint64?
  }

  function IntegerOf(e: Event): int
    requires IsInteger(e)
  {
    match e case Int(i) => i case Uint(u) => u case Int64(i) => i case Uint64(u) => u
  }

  /** The flags that the constructors of GenericValue set, each for its own argument type. */
  function FlagsOf(e: Event): NumberFlags
    requires IsInteger(e)
  {
    match e
    case Int(i) => NumberFlags(true, i >= 0, true, i >= 0)
    case Uint(u) => NumberFlags(u < 0x8000_0000, true, true, true)
    case Int64(i) =>
      if i >= 0 then NumberFlags(i < 0x8000_0000, i < 0x1_0000_0000, true, true)
      else NumberFlags(i >= -0x8000_0000, false, true, false)
    case Uint64(u) =>
      NumberFlags(u < 0x8000_0000, u < 0x1_0000_0000, u < 0x8000_0000_0000_0000, true)
  }

  /** The event that Accept sends for a stored integer: the first type it fits. */
  function IntegerEventOf(n: int, f: NumberFlags): Event {
    if f.isInt then Int(n)
    else if f.isUint && n >= 0 then Uint(n)
    else if f.isInt64 then Int64(n)
    else if n >= 0 then Uint64(n)
    else Int64(n)
  }

  /** How a document reports a leaf that it was told as `e`. */
  function Stored(e: Event): Event {
    if IsInteger(e) then IntegerEventOf(IntegerOf(e), FlagsOf(e)) else e
  }

  /** What a document stores depends on the integer alone, not on the type it came in. */
  lemma StoredByValue(a: Event, b: Event)
    requires IsLeaf(a) && IsLeaf(b) && IsInteger(a) && IsInteger(b)
    ensures Stored(a) == Stored(b) <==> IntegerOf(a) == IntegerOf(b)
    ensures IsInteger(Stored(a)) && IntegerOf(Stored(a)) == IntegerOf(a) && IsLeaf(Stored(a))
    ensures Stored(Stored(a)) == Stored(a)
  {
  }

  /** The tree with every leaf as a document stores it. */
  function StoredValue(v: Value): Value {
    Map(v, Stored)
  }

  // ---------------------------------------------------------------- the handler

  /** Member arrays and value arrays have the same layout: names and values in turn. */
  function Unpaired(ms: seq<Pair>): (r: seq<Value>)
    ensures |r| == 2 * |ms|
  {
    if ms == [] then [] else [Leaf(String(ms[0].name)), ms[0].value] + Unpaired(ms[1..])
  }

  predicate IsName(v: Value) {
    v.Leaf? && v.e.String?
  }

  /** The values as members, when every other one is a name. */
  function Paired(vs: seq<Value>): Option<seq<Pair>> {
    if vs == [] then Some([])
    else if |vs| == 1 || !IsName(vs[0]) || Paired(vs[2..]).None? then None
    else Some([Pair(vs[0].e.str, vs[1])] + Paired(vs[2..]).value)
  }

  /** The members are popped, and the value below them becomes the object that has them. */
  function CloseObject(stack: seq<Value>, size: nat): Option<seq<Value>> {
    if |stack| < size + 1 then None
    else
      var k := |stack| - size;
      var ms := Paired(stack[k..]);
      if ms.None? then None else Some(stack[..k - 1] + [Object(ms.value)])
  }

  /** One call of a handler function; `None` if it would pop what is not there, or make a member without a name. */
  function Handle(stack: seq<Value>, e: Event): Option<seq<Value>> {
    match e
    case Key(name) => Some(stack + [Leaf(String(name))])
    case StartObject => Some(stack + [Object([])])
    case StartArray => Some(stack + [Array([])])
    case EndArray(n) =>
      if |stack| < n + 1 then None
      else
        var k := |stack| - n;
        Some(stack[..k - 1] + [Array(stack[k..])])
    case EndObject(n) => CloseObject(stack, 2 * n)
    case _ => Some(stack + [Leaf(Stored(e))])
  }

  /** The handler functions called for each event in turn. */
  function Replay(stack: seq<Value>, evs: seq<Event>): Option<seq<Value>>
    decreases |evs|
  {
    if evs == [] then Some(stack)
    else if Handle(stack, evs[0]).None? then None
    else Replay(Handle(stack, evs[0]).value, evs[1..])
  }

  // ---------------------------------------------------------------- replaying a value

  lemma {:induction false} ReplayConcat(stack: seq<Value>, a: seq<Event>, b: seq<Event>)
    requires Replay(stack, a).Some?
    ensures Replay(stack, a + b) == Replay(Replay(stack, a).value, b)
    decreases |a|
  {
    hide Handle;
    if a == [] {
      assert a + b == b;
    } else {
      assert (a + b)[1..] == a[1..] + b;
      ReplayConcat(Handle(stack, a[0]).value, a[1..], b);
    }
  }

  lemma ReplayOne(stack: seq<Value>, e: Event)
    ensures Replay(stack, [e]) == Handle(stack, e)
  {
    hide Handle;
    if Handle(stack, e).Some? {
      assert Replay(Handle(stack, e).value, [e][1..]) == Handle(stack, e);
    }
  }

  lemma {:induction false} PairedUnpaired(ms: seq<Pair>)
    ensures Paired(Unpaired(ms)) == Some(ms)
    decreases |ms|
  {
    if ms != [] {
      var vs := Unpaired(ms);
      assert vs[2..] == Unpaired(ms[1..]);
      PairedUnpaired(ms[1..]);
      assert [Pair(ms[0].name, ms[0].value)] + ms[1..] == ms;
    }
  }

  /** Replaying the events of a value leaves the stack as it was, with exactly that value on top. */
  lemma {:induction false} Rebuild(stack: seq<Value>, v: Value)
    requires ValueOk(v)
    ensures Replay(stack, Events(v)) == Some(stack + [StoredValue(v)])
    decreases v
  {
    hide Handle, Replay, Unpaired;
    match v
    case Leaf(e) =>
      ReplayOne(stack, e);
      LeafHandled(stack, e);
    case Array(vs) =>
      var inside := stack + [Array([])];
      RebuildElements(inside, vs);
      ArrayHandled(stack, MapElements(vs, Stored));
      ReplayEnclosed(stack, StartArray, inside, ElementEvents(vs), inside + MapElements(vs, Stored), EndArray(|vs|));
    case Object(ms) =>
      var inside := stack + [Object([])];
      RebuildMembers(inside, ms);
      ObjectHandled(stack, MapMembers(ms, Stored));
      ReplayEnclosed(stack, StartObject, inside, MemberEvents(ms), inside + Unpaired(MapMembers(ms, Stored)),
                     EndObject(|ms|));
  }

  lemma LeafHandled(stack: seq<Value>, e: Event)
    requires IsLeaf(e)
    ensures Handle(stack, e) == Some(stack + [Leaf(Stored(e))])
  {
  }

  lemma ArrayHandled(stack: seq<Value>, vs: seq<Value>)
    ensures Handle(stack, StartArray) == Some(stack + [Array([])])
    ensures Handle(stack + [Array([])] + vs, EndArray(|vs|)) == Some(stack + [Array(vs)])
  {
    var full := stack + [Array([])] + vs;
    assert full[..|full| - |vs| - 1] == stack && full[|full| - |vs|..] == vs;
  }

  lemma ObjectHandled(stack: seq<Value>, ms: seq<Pair>)
    ensures Handle(stack, StartObject) == Some(stack + [Object([])])
    ensures Handle(stack + [Object([])] + Unpaired(ms), EndObject(|ms|)) == Some(stack + [Object(ms)])
  {
    hide Unpaired, CloseObject;
    ObjectClosed(stack, ms);
  }

  lemma ObjectClosed(stack: seq<Value>, ms: seq<Pair>)
    ensures CloseObject(stack + [Object([])] + Unpaired(ms), 2 * |ms|) == Some(stack + [Object(ms)])
  {
    hide Unpaired, Paired;
    PairedUnpaired(ms);
    var us := Unpaired(ms);
    var full, k := stack + [Object([])] + us, |stack| + 1;
    assert k == |full| - 2 * |ms|;
    assert full[..k - 1] == stack && full[k..] == us;
  }

  lemma ReplayEnclosed(stack: seq<Value>, start: Event, inside: seq<Value>, evs: seq<Event>, full: seq<Value>,
                       end: Event)
    requires Handle(stack, start) == Some(inside) && Replay(inside, evs) == Some(full)
    ensures Replay(stack, [start] + evs + [end]) == Handle(full, end)
  {
    hide Handle, Replay;
    ReplayOne(stack, start);
    ReplayConcat(stack, [start], evs);
    ReplayConcat(stack, [start] + evs, [end]);
    ReplayOne(full, end);
  }

  lemma {:induction false} RebuildElements(stack: seq<Value>, vs: seq<Value>)
    requires forall k :: 0 <= k < |vs| ==> ValueOk(vs[k])
    ensures Replay(stack, ElementEvents(vs)) == Some(stack + MapElements(vs, Stored))
    decreases vs
  {
    hide Handle, Replay, All;
    if vs == [] {
      ReplayNone(stack);
    } else {
      Rebuild(stack, vs[0]);
      var next := stack + [StoredValue(vs[0])];
      RebuildElements(next, vs[1..]);
      ReplayConcat(stack, Events(vs[0]), ElementEvents(vs[1..]));
      assert next + MapElements(vs[1..], Stored) == stack + MapElements(vs, Stored);
    }
  }

  lemma ReplayNone(stack: seq<Value>)
    ensures Replay(stack, []) == Some(stack) && stack + [] == stack
  {
  }

  lemma {:induction false} RebuildMembers(stack: seq<Value>, ms: seq<Pair>)
    requires forall k :: 0 <= k < |ms| ==> ValueOk(ms[k].value)
    ensures Replay(stack, MemberEvents(ms)) == Some(stack + Unpaired(MapMembers(ms, Stored)))
    decreases ms
  {
    hide Handle, Replay, All;
    if ms == [] {
      ReplayNone(stack);
    } else {
      var named := stack + [Leaf(String(ms[0].name))];
      ReplayKey(stack, ms[0].name);
      Rebuild(named, ms[0].value);
      var next := named + [StoredValue(ms[0].value)];
      RebuildMembers(next, ms[1..]);
      ReplayConcat(stack, [Key(ms[0].name)], Events(ms[0].value));
      ReplayConcat(stack, [Key(ms[0].name)] + Events(ms[0].value), MemberEvents(ms[1..]));
      var stored := MapMembers(ms, Stored);
      assert stored[1..] == MapMembers(ms[1..], Stored);
      assert next + Unpaired(stored[1..]) == stack + Unpaired(stored);
    }
  }

  lemma ReplayKey(stack: seq<Value>, name: bytes)
    ensures Replay(stack, [Key(name)]) == Some(stack + [Leaf(String(name))])
  {
    ReplayOne(stack, Key(name));
  }

  // ---------------------------------------------------------------- whole documents

  /** Either parser, on success, leaves the one root that ParseStream asserts, and it is the value that was reported. */
  lemma ParseBuildsOneRoot(t: bytes, cf: Config, iterative: bool) returns (v: Value)
    requires |t| < 0x1_0000_0000
    requires (if iterative then IterativeParse(t, cf) else Parse(t, cf)).At?
    ensures var log := (if iterative then IterativeParse(t, cf) else Parse(t, cf)).log;
            log == Events(v) && Replay([], log) == Some([StoredValue(v)])
  {
    hide Parse, IterativeParse, Replay, Events, All;
    ParsersAgree(t, cf);
    v := ParseSound(t, cf);
    Rebuild([], v);
    assert [] + [StoredValue(v)] == [StoredValue(v)];
  }

  /** A value as it stands in a document: its integers have the type that a document reports them with. */
  ghost predicate InDocument(v: Value) {
    ValueOk(v) && StoredValue(v) == v
  }

  /** A deep copy is equal: it replays what Accept sends into a fresh document and pops the root. */
  lemma DeepCopy(v: Value)
    requires InDocument(v)
    ensures Replay([], Events(v)) == Some([v])
  {
    hide Replay, Events, All;
    Rebuild([], v);
    assert [] + [StoredValue(v)] == [v];
  }

  class GenericDocument {
    var stack: seq<Value>
    /** The document's own value. */
    var root: Value

    constructor ()
      ensures stack == [] && root == Leaf(Null)
    {
      stack, root := [], Leaf(Null);
    }

    method Push(v: Value)
      modifies this`stack
      ensures stack == old(stack) + [v]
    {
      stack := stack + [v];
    }

    method Pop(count: nat) returns (vs: seq<Value>)
      requires count <= |stack|
      modifies this`stack
      ensures stack == old(stack[..|stack| - count]) && vs == old(stack[|stack| - count..])
    {
      vs := stack[|stack| - count..];
      stack := stack[..|stack| - count];
    }

    /** The value on top of the stack becomes `v`. */
    method SetTop(v: Value)
      requires stack != []
      modifies this`stack
      ensures |stack| == |old(stack)| && stack == old(stack)[..|stack| - 1] + [v]
    {
      stack := stack[|stack| - 1 := v];
    }

    /** The handler function for one event. */
    method Call(e: Event)
      requires Handle(stack, e).Some?
      modifies this`stack
      ensures Handle(old(stack), e) == Some(stack)
    {
      if e.Key? {
        Push(Leaf(String(e.name)));
      } else if e.StartObject? {
        Push(Object([]));
      } else if e.StartArray? {
        Push(Array([]));
      } else if e.EndArray? {
        var elements := Pop(e.elementCount);
        SetTop(Array(elements));
        assert stack == old(stack)[..|stack| - 1] + [Array(elements)];
      } else if e.EndObject? {
        var members := Pop(2 * e.memberCount);
        SetTop(Object(Paired(members).value));
        assert stack == old(stack)[..|stack| - 1] + [Object(Paired(members).value)];
      } else {
        Push(Leaf(Stored(e)));
      }
    }

    /** The calls a generator makes, one after the other. */
    method Populate(evs: seq<Event>)
      requires Replay(stack, evs).Some?
      modifies this`stack
      ensures Replay(old(stack), evs) == Some(stack)
    {
      hide Handle;
      for i := 0 to |evs|
        invariant Replay(stack, evs[i..]) == Replay(old(stack), evs)
      {
        assert evs[i..][1..] == evs[i + 1..];
        Call(evs[i]);
      }
    }

    /** ParseStream: on success the document becomes the value that was read, and the stack is empty again. */
    method ParseStream(t: bytes, cf: Config, iterative: bool) returns (ok: bool, ghost v: Value)
      requires stack == [] && |t| < 0x1_0000_0000
      modifies this
      ensures ok <==> (if iterative then IterativeParse(t, cf) else Parse(t, cf)).At?
      ensures ok ==> (if iterative then IterativeParse(t, cf) else Parse(t, cf)).log == Events(v)
      ensures root == if ok then StoredValue(v) else old(root)
      ensures stack == []
    {
      hide Parse, IterativeParse, Replay, Events;
      var reader := new GenericReader(t, cf);
      reader.Parse(iterative);
      ok, v := reader.error.None?, Leaf(Null);
      if ok {
        v := ParseBuildsOneRoot(t, cf, iterative);
        Populate(reader.log);
        var vs := Pop(1);
        root := vs[0];
      }
    }

    /** The deep-copy constructor: a fresh document hears what Accept sends, and its root is taken. */
    method DeepCopyOf(v: Value) returns (copy: Value)
      requires InDocument(v)
      ensures copy == v
    {
      hide Replay, Events, All;
      DeepCopy(v);
      var d := new GenericDocument();
      d.Populate(Events(v));
      var vs := d.Pop(1);
      copy := vs[0];
    }
  }
}
