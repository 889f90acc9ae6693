/** JSON values as trees, and the event sequences that describe them. */
module JsonValue {
  import opened Bytes
  import opened JsonTypes
  import opened JsonScan
  import opened JsonRecursive

  /** A value of the document model. A leaf is kept as the event that reports it. */
  datatype Value =
    | Leaf(e: Event)
    | Array(elements: seq<Value>)
    | Object(members: seq<Pair>)

  datatype Pair = Pair(name: bytes, value: Value)

  /** Events that are values on their own, with integers in the range of their C type. */
  predicate IsLeaf(e: Event) {
    match e
    case Int(i) => -0x8000_0000 <= i < 0x8000_0000
    case Uint(u) => u < 0x1_0000_0000
    case Int64(i) => -0x8000_0000_0000_0000 <= i < 0x8000_0000_0000_0000
    case Uint64(u) => u < 0x1_0000_0000_0000_0000
    case _ => !e.Key? && !e.StartObject? && !e.EndObject? && !e.StartArray? && !e.EndArray?
  }

  /** A container's size as the 32-bit number its end event carries. */
  function Size32(n: nat): (r: nat)
    ensures n < 0x1_0000_0000 ==> r == n
  {
    n % 0x1_0000_0000
  }

  /** What Accept sends for a value. */
  function Events(v: Value): seq<Event>
    decreases v
  {
    match v
    case Leaf(e) => [e]
    case Array(vs) => [StartArray] + ElementEvents(vs) + [EndArray(Size32(|vs|))]
    case Object(ms) => [StartObject] + MemberEvents(ms) + [EndObject(Size32(|ms|))]
  }

  function ElementEvents(vs: seq<Value>): seq<Event>
    decreases vs
  {
    if vs == [] then [] else Events(vs[0]) + ElementEvents(vs[1..])
  }

  function MemberEvents(ms: seq<Pair>): seq<Event>
    decreases ms
  {
    if ms == [] then [] else [Key(ms[0].name)] + Events(ms[0].value) + MemberEvents(ms[1..])
  }

  /** The value with `f` applied to every leaf. */
  function Map(v: Value, f: Event -> Event): Value
    decreases v
  {
    match v
    case Leaf(e) => Leaf(f(e))
    case Array(vs) => Array(MapElements(vs, f))
    case Object(ms) => Object(MapMembers(ms, f))
  }

  function MapElements(vs: seq<Value>, f: Event -> Event): (r: seq<Value>)
    ensures |r| == |vs|
    decreases vs
  {
    if vs == [] then [] else [Map(vs[0], f)] + MapElements(vs[1..], f)
  }

  function MapMembers(ms: seq<Pair>, f: Event -> Event): (r: seq<Pair>)
    ensures |r| == |ms|
    decreases ms
  {
    if ms == [] then [] else [Pair(ms[0].name, Map(ms[0].value, f))] + MapMembers(ms[1..], f)
  }

  lemma MapElementEvents(vs: seq<Value>, f: Event -> Event)
    requires vs != []
    ensures ElementEvents(MapElements(vs, f)) == Events(Map(vs[0], f)) + ElementEvents(MapElements(vs[1..], f))
  {
    hide Map, Events;
    var m := MapElements(vs, f);
    assert m[1..] == MapElements(vs[1..], f);
  }

  lemma MapMemberEvents(ms: seq<Pair>, f: Event -> Event)
    requires ms != []
    ensures MemberEvents(MapMembers(ms, f))
         == [Key(ms[0].name)] + Events(Map(ms[0].value, f)) + MemberEvents(MapMembers(ms[1..], f))
  {
    hide Map, Events;
    var m := MapMembers(ms, f);
    assert m[1..] == MapMembers(ms[1..], f);
  }

  /** Every node of the value satisfies `p`, given a leaf's event, and no container outgrows a SizeType. */
  ghost predicate All(v: Value, p: Event -> bool)
    decreases v
  {
    match v
    case Leaf(e) => p(e)
    case Array(vs) => |vs| < 0x1_0000_0000 && forall k :: 0 <= k < |vs| ==> All(vs[k], p)
    case Object(ms) => |ms| < 0x1_0000_0000 && forall k :: 0 <= k < |ms| ==> All(ms[k].value, p)
  }

  /** A value a document can hold. */
  ghost predicate ValueOk(v: Value) {
    All(v, IsLeaf)
  }
}
