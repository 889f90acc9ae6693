/** The recursive-descent parser: one function for each construct of the grammar. */
module JsonRecursive {
  import opened Bytes
  import opened JsonTypes
  import opened JsonScan

  /** SkipWhitespaceAndComments between two tokens. */
  function GapScan(t: bytes, cf: Config, pos: nat, log: seq<Event>): (r: Scan)
    requires pos <= |t|
    ensures r.At? ==> pos <= r.pos <= |t| && r.log == log
  {
    match Gap(t, cf, pos)
    case BadComment(offset) => Failed(log, UnspecificSyntaxError, offset)
    case Skipped(p) => At(p, log)
  }

  function ParseValue(t: bytes, cf: Config, pos: nat, log: seq<Event>): (r: Scan)
    requires pos <= |t|
    ensures r.At? ==> pos < r.pos <= |t|
    decreases |t| - pos, 1
  {
    if Peek(t, pos) == '{' then ParseObject(t, cf, pos, log)
    else if Peek(t, pos) == '[' then ParseArray(t, cf, pos, log)
    else ScalarScan(t, cf, pos, log)
  }

  function ParseObject(t: bytes, cf: Config, pos: nat, log: seq<Event>): (r: Scan)
    requires pos < |t|
    ensures r.At? ==> pos < r.pos <= |t|
    decreases |t| - pos, 0
  {
    var s := GapScan(t, cf, pos + 1, log + [StartObject]);
    if s.Failed? then s
    else if Peek(t, s.pos) == '}' then At(s.pos + 1, s.log + [EndObject(0)])
    else Members(t, cf, s.pos, s.log, 0)
  }

  /** A name, a colon and a value, with the gap after it. */
  function Member(t: bytes, cf: Config, pos: nat, log: seq<Event>): (r: Scan)
    requires pos <= |t|
    ensures r.At? ==> pos < r.pos <= |t|
    decreases |t| - pos, 0
  {
    if Peek(t, pos) != '"' then Failed(log, ObjectMissName, pos)
    else
      var key := StringScan(t, pos, log, true);
      if key.Failed? then key
      else
        var s := GapScan(t, cf, key.pos, key.log);
        if s.Failed? then s
        else if Peek(t, s.pos) != ':' then Failed(s.log, ObjectMissColon, s.pos)
        else
          var v := GapScan(t, cf, s.pos + 1, s.log);
          if v.Failed? then v
          else
            var r := ParseValue(t, cf, v.pos, v.log);
            if r.Failed? then r else GapScan(t, cf, r.pos, r.log)
  }

  /** The member loop, after `count` members. */
  function Members(t: bytes, cf: Config, pos: nat, log: seq<Event>, count: nat): (r: Scan)
    requires pos <= |t|
    ensures r.At? ==> pos < r.pos <= |t|
    decreases |t| - pos, 1
  {
    var m := Member(t, cf, pos, log);
    if m.Failed? then m else MembersAfter(t, cf, m.pos, m.log, count)
  }

  /** The member loop, after the gap that follows a member. */
  function MembersAfter(t: bytes, cf: Config, pos: nat, log: seq<Event>, count: nat): (r: Scan)
    requires pos <= |t|
    ensures r.At? ==> pos < r.pos <= |t|
    decreases |t| - pos, 2
  {
    if Peek(t, pos) == '}' then At(pos + 1, log + [EndObject(Inc32(count))])
    else if Peek(t, pos) != ',' then Failed(log, ObjectMissCommaOrCurlyBracket, pos)
    else
      var s := GapScan(t, cf, pos + 1, log);
      if s.Failed? then s
      else if cf.trailingCommas && Peek(t, s.pos) == '}' then At(s.pos + 1, s.log + [EndObject(Inc32(count))])
      else Members(t, cf, s.pos, s.log, Inc32(count))
  }

  function ParseArray(t: bytes, cf: Config, pos: nat, log: seq<Event>): (r: Scan)
    requires pos < |t|
    ensures r.At? ==> pos < r.pos <= |t|
    decreases |t| - pos, 0
  {
    var s := GapScan(t, cf, pos + 1, log + [StartArray]);
    if s.Failed? then s
    else if Peek(t, s.pos) == ']' then At(s.pos + 1, s.log + [EndArray(0)])
    else Elements(t, cf, s.pos, s.log, 0)
  }

  /** The element loop, after `count` elements. */
  function Elements(t: bytes, cf: Config, pos: nat, log: seq<Event>, count: nat): (r: Scan)
    requires pos <= |t|
    ensures r.At? ==> pos < r.pos <= |t|
    decreases |t| - pos, 2
  {
    var v := ParseValue(t, cf, pos, log);
    if v.Failed? then v
    else
      var s := GapScan(t, cf, v.pos, v.log);
      if s.Failed? then s else ElementsAfter(t, cf, s.pos, s.log, count)
  }

  /** The element loop, after the gap that follows an element. */
  function ElementsAfter(t: bytes, cf: Config, pos: nat, log: seq<Event>, count: nat): (r: Scan)
    requires pos <= |t|
    ensures r.At? ==> pos < r.pos <= |t|
    decreases |t| - pos, 3
  {
    if Peek(t, pos) == ']' then At(pos + 1, log + [EndArray(Inc32(count))])
    else if Peek(t, pos) != ',' then Failed(log, ArrayMissCommaOrSquareBracket, pos)
    else
      var s := GapScan(t, cf, pos + 1, log);
      if s.Failed? then s
      else if cf.trailingCommas && Peek(t, s.pos) == ']' then At(s.pos + 1, s.log + [EndArray(Inc32(count))])
      else Elements(t, cf, s.pos, s.log, Inc32(count))
  }

  /** Parse, without the iterative flag. */
  function Parse(t: bytes, cf: Config): (r: Scan)
    ensures r.At? ==> r.pos <= |t|
  {
    var s := GapScan(t, cf, 0, []);
    if s.Failed? then s
    else if Peek(t, s.pos) == '\0' then Failed([], DocumentEmpty, s.pos)
    else
      var v := ParseValue(t, cf, s.pos, []);
      if v.Failed? || cf.stopWhenDone then v
      else
        var e := GapScan(t, cf, v.pos, v.log);
        if e.At? && Peek(t, e.pos) != '\0' then Failed(e.log, DocumentRootNotSingular, e.pos) else e
  }
}
