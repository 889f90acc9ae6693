/** The table-driven pushdown parser. */
module JsonIterative {
  import opened Bytes
  import opened JsonTypes
  import opened JsonScan
  import opened JsonRecursive

  datatype State =
    | Start | Finish | Error
    | ObjectInitial | MemberKey | KeyValueDelimiter | MemberValue | MemberDelimiter | ObjectFinish
    | ArrayInitial | Element | ElementDelimiter | ArrayFinish
    | SingleValue

  datatype Token =
    | LeftBracket | RightBracket | LeftCurly | RightCurly | Comma | Colon
    | StringToken | FalseToken | TrueToken | NullToken | NumberToken

  /** The token map. */
  function Tokenize(c: byte): Token {
    match c
    case '[' => LeftBracket case ']' => RightBracket
    case '{' => LeftCurly case '}' => RightCurly
    case ',' => Comma case ':' => Colon
    case '"' => StringToken case 'f' => FalseToken case 't' => TrueToken case 'n' => NullToken
    case _ => NumberToken
  }

  /** The token starts a value that is no container. */
  predicate IsScalar(k: Token) {
    k.StringToken? || k.FalseToken? || k.TrueToken? || k.NullToken? || k.NumberToken?
  }

  /** The row of the transition table for a state that expects a value. */
  function ValueRow(k: Token, scalar: State, close: State): State {
    if k.LeftBracket? then ArrayInitial
    else if k.LeftCurly? then ObjectInitial
    else if k.RightBracket? then close
    else if IsScalar(k) then scalar
    else Error
  }

  /** The transition table: current state and next token to the state to try. */
  function Predict(s: State, k: Token): State {
    match s
    case Start => ValueRow(k, SingleValue, Error)
    case ObjectInitial | MemberDelimiter =>
      if k.RightCurly? then ObjectFinish else if k.StringToken? then MemberKey else Error
    case MemberKey => if k.Colon? then KeyValueDelimiter else Error
    case KeyValueDelimiter => ValueRow(k, MemberValue, Error)
    case MemberValue =>
      if k.RightCurly? then ObjectFinish else if k.Comma? then MemberDelimiter else Error
    case ArrayInitial | ElementDelimiter => ValueRow(k, Element, ArrayFinish)
    case Element =>
      if k.RightBracket? then ArrayFinish else if k.Comma? then ElementDelimiter else Error
    case Finish | Error | ObjectFinish | ArrayFinish | SingleValue => Error
  }

  /** What is pushed for an open container: the state to return to, and the members or elements before a comma. */
  datatype Frame = Frame(back: State, count: nat)

  /** The stack has its top first. */
  datatype Machine = Machine(state: State, pos: nat, log: seq<Event>, stack: seq<Frame>)

  /** A state the main loop can be in. */
  predicate InLoop(s: State) {
    !s.Error? && !s.ObjectFinish? && !s.ArrayFinish? && !s.SingleValue?
  }

  /** The outermost container returns to the start state, every other one to the value it is. */
  predicate StackOk(stack: seq<Frame>)
    decreases |stack|
  {
    stack == []
    || (stack[0].back.Start? && |stack| == 1)
    || ((stack[0].back.MemberValue? || stack[0].back.Element?) && |stack| > 1 && StackOk(stack[1..]))
  }

  /** Every `Top` and `Pop` finds an entry, and the assertions on states hold. */
  predicate MachineOk(m: Machine) {
    InLoop(m.state) && StackOk(m.stack) && ((m.state.Start? || m.state.Finish?) <==> m.stack == [])
  }

  datatype Step = Next(m: Machine) | Fault(log: seq<Event>, code: ErrorCode, offset: nat)

  /** The state to return to from a container opened in state `s`. */
  function Back(s: State): State {
    if s.ArrayInitial? || s.ElementDelimiter? then Element
    else if s.KeyValueDelimiter? then MemberValue
    else s
  }

  /** The state in which the parser goes on after a container that was to return to `back`. */
  function Popped(back: State): State {
    if back.Start? then Finish else back
  }

  /** HandleError: what it means that no transition was possible in a state, or that the text ended in it. */
  function ErrorIn(s: State): ErrorCode {
    match s
    case Start => DocumentEmpty
    case Finish => DocumentRootNotSingular
    case ObjectInitial | MemberDelimiter => ObjectMissName
    case MemberKey => ObjectMissColon
    case MemberValue => ObjectMissCommaOrCurlyBracket
    case KeyValueDelimiter | ArrayInitial | ElementDelimiter => ValueInvalid
    case _ => ArrayMissCommaOrSquareBracket
  }

  function Scanned(r: Scan, s: State, stack: seq<Frame>): Step {
    match r
    case At(pos, log) => Next(Machine(s, pos, log, stack))
    case Failed(log, code, offset) => Fault(log, code, offset)
  }

  /** The end of a container. `last` counts a last member or element that no comma follows. */
  function Close(cf: Config, m: Machine, delimiter: bool, last: bool, missing: ErrorCode, isObject: bool): Step
    requires m.stack != []
  {
    if delimiter && !cf.trailingCommas then Fault(m.log, missing, m.pos)
    else
      var c := if last then Inc32(m.stack[0].count) else m.stack[0].count;
      var e := if isObject then EndObject(c) else EndArray(c);
      Next(Machine(Popped(m.stack[0].back), m.pos + 1, m.log + [e], m.stack[1..]))
  }

  /** Transit, towards the state the table named. */
  function Transit(t: bytes, cf: Config, m: Machine, dst: State): (r: Step)
    requires m.pos < |t| && MachineOk(m) && dst == Predict(m.state, Tokenize(t[m.pos]))
    ensures r.Next? ==> m.pos < r.m.pos <= |t| && MachineOk(r.m)
  {
    match dst
    case ObjectInitial | ArrayInitial =>
      var e := if dst.ObjectInitial? then StartObject else StartArray;
      var stack := [Frame(Back(m.state), 0)] + m.stack;
      assert stack[1..] == m.stack;
      Next(Machine(dst, m.pos + 1, m.log + [e], stack))
    case MemberKey => Scanned(StringScan(t, m.pos, m.log, true), MemberKey, m.stack)
    case KeyValueDelimiter => Next(Machine(dst, m.pos + 1, m.log, m.stack))
    case MemberValue | Element => Scanned(ParseValue(t, cf, m.pos, m.log), dst, m.stack)
    case MemberDelimiter | ElementDelimiter =>
      var top := m.stack[0];
      var stack := [top.(count := Inc32(top.count))] + m.stack[1..];
      assert stack[1..] == m.stack[1..];
      Next(Machine(dst, m.pos + 1, m.log, stack))
    case ObjectFinish => Close(cf, m, m.state.MemberDelimiter?, m.state.MemberValue?, ObjectMissName, true)
    case ArrayFinish => Close(cf, m, m.state.ElementDelimiter?, m.state.Element?, ValueInvalid, false)
    case SingleValue => Scanned(ParseValue(t, cf, m.pos, m.log), Finish, m.stack)
    case _ => Fault(m.log, ErrorIn(m.state), m.pos)
  }

  /** The main loop, at the test of its condition. */
  function Loop(t: bytes, cf: Config, m: Machine): (r: Scan)
    requires m.pos <= |t| && MachineOk(m)
    decreases |t| - m.pos, 0
  {
    if Peek(t, m.pos) == '\0' then
      if m.state.Finish? then At(m.pos, m.log) else Failed(m.log, ErrorIn(m.state), m.pos)
    else
      match Transit(t, cf, m, Predict(m.state, Tokenize(t[m.pos])))
      case Fault(log, code, offset) => Failed(log, code, offset)
      case Next(n) => Continue(t, cf, n)
  }

  /** The main loop, after a transition. */
  function Continue(t: bytes, cf: Config, m: Machine): (r: Scan)
    requires m.pos <= |t| && MachineOk(m)
    decreases |t| - m.pos, 1
  {
    if cf.stopWhenDone && m.state.Finish? then At(m.pos, m.log)
    else
      var s := GapScan(t, cf, m.pos, m.log);
      if s.Failed? then s else Loop(t, cf, m.(pos := s.pos))
  }

  /** IterativeParse. */
  function IterativeParse(t: bytes, cf: Config): Scan {
    var s := GapScan(t, cf, 0, []);
    if s.Failed? then s else Loop(t, cf, Machine(Start, s.pos, [], []))
  }
}
