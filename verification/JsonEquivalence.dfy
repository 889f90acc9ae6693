/** The pushdown parser and the recursive-descent parser are the same parser, but for one error code. */
module JsonEquivalence {
  import opened Bytes
  import opened JsonTypes
  import opened JsonScan
  import opened JsonRecursive
  import opened JsonIterative

  /** A state that expects a value. */
  predicate WantsValue(s: State) {
    s.Start? || s.KeyValueDelimiter? || s.ArrayInitial? || s.ElementDelimiter?
  }

  /** A byte that no value starts with, although it is a token of its own. */
  predicate Stray(c: byte) {
    c == ']' || c == '}' || c == ',' || c == ':'
  }

  /** The pushdown parser goes on in state `s` where the recursive parser has returned from a value. */
  function Resume(t: bytes, cf: Config, r: Scan, s: State, stack: seq<Frame>): Scan
    requires r.At? ==> r.pos <= |t| && MachineOk(Machine(s, r.pos, r.log, stack))
  {
    if r.Failed? then r else Continue(t, cf, Machine(s, r.pos, r.log, stack))
  }

  /** What stands on the stack below the frame of an open container. */
  predicate FrameOk(back: State, stack: seq<Frame>) {
    StackOk(stack) && (if stack == [] then back.Start? else back.MemberValue? || back.Element?)
  }

  lemma FrameFits(back: State, count: nat, stack: seq<Frame>)
    requires FrameOk(back, stack)
    ensures StackOk([Frame(back, count)] + stack) && ([Frame(back, count)] + stack)[1..] == stack
    ensures Popped(back).Finish? <==> stack == []
  {
    assert ([Frame(back, count)] + stack)[1..] == stack;
  }

  lemma {:induction false} ScalarSteps(t: bytes, cf: Config, s: State, pos: nat, log: seq<Event>, stack: seq<Frame>)
    requires pos <= |t| && MachineOk(Machine(s, pos, log, stack)) && WantsValue(s)
    requires Peek(t, pos) != '{' && Peek(t, pos) != '[' && Peek(t, pos) != '\0' && !Stray(Peek(t, pos))
    ensures Loop(t, cf, Machine(s, pos, log, stack))
         == Resume(t, cf, ParseValue(t, cf, pos, log), Popped(Back(s)), stack)
  {
    hide ScalarScan, Continue, StackOk, ParseValue;
    var k := Tokenize(t[pos]);
    assert IsScalar(k);
  }

  /** No value starts here: both parsers fail, and at the same place. */
  lemma NoValue(t: bytes, cf: Config, s: State, pos: nat, log: seq<Event>, stack: seq<Frame>)
    requires pos <= |t| && MachineOk(Machine(s, pos, log, stack)) && WantsValue(s)
    requires Peek(t, pos) == '\0' || Stray(Peek(t, pos))
    requires Peek(t, pos) == ']' ==> s.Start? || s.KeyValueDelimiter? || (s.ElementDelimiter? && !cf.trailingCommas)
    ensures Loop(t, cf, Machine(s, pos, log, stack)) == Failed(log, ErrorIn(s), pos)
    ensures ParseValue(t, cf, pos, log) == Failed(log, ValueInvalid, pos)
  {
    hide StackOk, Continue;
  }

  /** Between two tokens inside a container both parsers skip the same gap. */
  lemma GapSteps(t: bytes, cf: Config, m: Machine)
    requires m.pos <= |t| && MachineOk(m) && !m.state.Finish?
    ensures var s := GapScan(t, cf, m.pos, m.log);
            Continue(t, cf, m) == if s.Failed? then s else Loop(t, cf, m.(pos := s.pos))
  {
    hide GapScan, Loop, StackOk;
  }

  /** From a state that expects a value, the pushdown parser does what ParseValue does and then goes on. */
  lemma {:induction false} ValueSteps(t: bytes, cf: Config, s: State, pos: nat, log: seq<Event>, stack: seq<Frame>)
    requires pos <= |t| && MachineOk(Machine(s, pos, log, stack)) && WantsValue(s)
    requires s.Start? ==> Peek(t, pos) != '\0' && !Stray(Peek(t, pos))
    requires Peek(t, pos) == ']' ==> s.KeyValueDelimiter? || (s.ElementDelimiter? && !cf.trailingCommas)
    ensures Loop(t, cf, Machine(s, pos, log, stack))
         == Resume(t, cf, ParseValue(t, cf, pos, log), Popped(Back(s)), stack)
    decreases |t| - pos, 1
  {
    if Peek(t, pos) == '{' {
      ObjectSteps(t, cf, s, pos, log, stack);
    } else if Peek(t, pos) == '[' {
      ArraySteps(t, cf, s, pos, log, stack);
    } else if Peek(t, pos) == '\0' || Stray(Peek(t, pos)) {
      NoValue(t, cf, s, pos, log, stack);
    } else {
      ScalarSteps(t, cf, s, pos, log, stack);
    }
  }

  lemma {:induction false} ObjectSteps(t: bytes, cf: Config, s: State, pos: nat, log: seq<Event>, stack: seq<Frame>)
    requires pos <= |t| && MachineOk(Machine(s, pos, log, stack)) && WantsValue(s) && Peek(t, pos) == '{'
    ensures Loop(t, cf, Machine(s, pos, log, stack))
         == Resume(t, cf, ParseValue(t, cf, pos, log), Popped(Back(s)), stack)
    decreases |t| - pos, 0
  {
    hide Continue, GapScan, Members, StackOk;
    var back, inside, started := Back(s), [Frame(Back(s), 0)] + stack, log + [StartObject];
    FrameFits(back, 0, stack);
    GapSteps(t, cf, Machine(ObjectInitial, pos + 1, started, inside));
    var g := GapScan(t, cf, pos + 1, started);
    if g.At? {
      if Peek(t, g.pos) == '}' {
        assert inside[1..] == stack;
      } else {
        MembersSteps(t, cf, ObjectInitial, g.pos, started, 0, back, stack);
      }
    }
  }

  /** From a state that expects a name, the pushdown parser does what the member loop does and then goes on. */
  lemma {:induction false} MembersSteps(t: bytes, cf: Config, s: State, pos: nat, log: seq<Event>, count: nat,
                                        back: State, stack: seq<Frame>)
    requires pos <= |t| && (s.ObjectInitial? || s.MemberDelimiter?) && FrameOk(back, stack)
    requires Peek(t, pos) == '}' ==> s.MemberDelimiter? && !cf.trailingCommas
    requires MachineOk(Machine(s, pos, log, [Frame(back, count)] + stack))
    ensures MachineOk(Machine(Popped(back), pos, log, stack))
    ensures Loop(t, cf, Machine(s, pos, log, [Frame(back, count)] + stack))
         == Resume(t, cf, Members(t, cf, pos, log, count), Popped(back), stack)
    decreases |t| - pos, 1
  {
    hide Continue, GapScan, MembersAfter, ParseValue, StackOk, StringScan;
    var inside := [Frame(back, count)] + stack;
    FrameFits(back, count, stack);
    if Peek(t, pos) == '"' {
      var key := StringScan(t, pos, log, true);
      if key.At? {
        GapSteps(t, cf, Machine(MemberKey, key.pos, key.log, inside));
        var g := GapScan(t, cf, key.pos, key.log);
        if g.At? && Peek(t, g.pos) == ':' {
          GapSteps(t, cf, Machine(KeyValueDelimiter, g.pos + 1, g.log, inside));
          var v := GapScan(t, cf, g.pos + 1, g.log);
          if v.At? {
            MemberValueSteps(t, cf, v.pos, v.log, count, back, stack);
          }
        }
      }
    }
  }

  /** From the value of a member to the end of the object. */
  lemma {:induction false} MemberValueSteps(t: bytes, cf: Config, pos: nat, log: seq<Event>, count: nat,
                                            back: State, stack: seq<Frame>)
    requires pos <= |t| && FrameOk(back, stack)
    requires MachineOk(Machine(KeyValueDelimiter, pos, log, [Frame(back, count)] + stack))
    ensures MachineOk(Machine(Popped(back), pos, log, stack))
    ensures Loop(t, cf, Machine(KeyValueDelimiter, pos, log, [Frame(back, count)] + stack))
         == var v := ParseValue(t, cf, pos, log);
            if v.Failed? then v
            else
              var g := GapScan(t, cf, v.pos, v.log);
              if g.Failed? then g
              else Resume(t, cf, MembersAfter(t, cf, g.pos, g.log, count), Popped(back), stack)
    decreases |t| - pos, 2
  {
    hide Continue, GapScan, MembersAfter, ParseValue, StackOk, Loop;
    var inside := [Frame(back, count)] + stack;
    FrameFits(back, count, stack);
    ValueSteps(t, cf, KeyValueDelimiter, pos, log, inside);
    var v := ParseValue(t, cf, pos, log);
    if v.At? {
      GapSteps(t, cf, Machine(MemberValue, v.pos, v.log, inside));
      var g := GapScan(t, cf, v.pos, v.log);
      if g.At? {
        MembersAfterSteps(t, cf, g.pos, g.log, count, back, stack);
      }
    }
  }

  lemma {:induction false} MembersAfterSteps(t: bytes, cf: Config, pos: nat, log: seq<Event>, count: nat,
                                             back: State, stack: seq<Frame>)
    requires pos <= |t| && FrameOk(back, stack)
    requires MachineOk(Machine(MemberValue, pos, log, [Frame(back, count)] + stack))
    ensures MachineOk(Machine(Popped(back), pos, log, stack))
    ensures Loop(t, cf, Machine(MemberValue, pos, log, [Frame(back, count)] + stack))
         == Resume(t, cf, MembersAfter(t, cf, pos, log, count), Popped(back), stack)
    decreases |t| - pos, 2
  {
    hide Continue, GapScan, Members, StackOk;
    var inside, counted := [Frame(back, count)] + stack, [Frame(back, Inc32(count))] + stack;
    FrameFits(back, count, stack);
    FrameFits(back, Inc32(count), stack);
    if Peek(t, pos) == ',' {
      var next := Machine(MemberDelimiter, pos + 1, log, counted);
      assert Loop(t, cf, Machine(MemberValue, pos, log, inside)) == Continue(t, cf, next);
      GapSteps(t, cf, next);
      var g := GapScan(t, cf, pos + 1, log);
      if g.At? && !(Peek(t, g.pos) == '}' && cf.trailingCommas) {
        MembersSteps(t, cf, MemberDelimiter, g.pos, log, Inc32(count), back, stack);
      }
    }
  }

  lemma {:induction false} ArraySteps(t: bytes, cf: Config, s: State, pos: nat, log: seq<Event>, stack: seq<Frame>)
    requires pos <= |t| && MachineOk(Machine(s, pos, log, stack)) && WantsValue(s) && Peek(t, pos) == '['
    ensures Loop(t, cf, Machine(s, pos, log, stack))
         == Resume(t, cf, ParseValue(t, cf, pos, log), Popped(Back(s)), stack)
    decreases |t| - pos, 0
  {
    hide Continue, GapScan, Elements, StackOk;
    var back, inside, started := Back(s), [Frame(Back(s), 0)] + stack, log + [StartArray];
    FrameFits(back, 0, stack);
    GapSteps(t, cf, Machine(ArrayInitial, pos + 1, started, inside));
    var g := GapScan(t, cf, pos + 1, started);
    if g.At? {
      if Peek(t, g.pos) == ']' {
        assert inside[1..] == stack;
      } else {
        ElementsSteps(t, cf, ArrayInitial, g.pos, started, 0, back, stack);
      }
    }
  }

  /** From a state that expects an element, the pushdown parser does what the element loop does and then goes on. */
  lemma {:induction false} ElementsSteps(t: bytes, cf: Config, s: State, pos: nat, log: seq<Event>, count: nat,
                                         back: State, stack: seq<Frame>)
    requires pos <= |t| && (s.ArrayInitial? || s.ElementDelimiter?) && FrameOk(back, stack)
    requires Peek(t, pos) == ']' ==> s.ElementDelimiter? && !cf.trailingCommas
    requires MachineOk(Machine(s, pos, log, [Frame(back, count)] + stack))
    ensures MachineOk(Machine(Popped(back), pos, log, stack))
    ensures Loop(t, cf, Machine(s, pos, log, [Frame(back, count)] + stack))
         == Resume(t, cf, Elements(t, cf, pos, log, count), Popped(back), stack)
    decreases |t| - pos, 2
  {
    hide Continue, GapScan, ElementsAfter, ParseValue, StackOk, Loop;
    var inside := [Frame(back, count)] + stack;
    FrameFits(back, count, stack);
    ValueSteps(t, cf, s, pos, log, inside);
    var v := ParseValue(t, cf, pos, log);
    if v.At? {
      GapSteps(t, cf, Machine(Element, v.pos, v.log, inside));
      var g := GapScan(t, cf, v.pos, v.log);
      if g.At? {
        ElementsAfterSteps(t, cf, g.pos, g.log, count, back, stack);
      }
    }
  }

  lemma {:induction false} ElementsAfterSteps(t: bytes, cf: Config, pos: nat, log: seq<Event>, count: nat,
                                              back: State, stack: seq<Frame>)
    requires pos <= |t| && FrameOk(back, stack)
    requires MachineOk(Machine(Element, pos, log, [Frame(back, count)] + stack))
    ensures MachineOk(Machine(Popped(back), pos, log, stack))
    ensures Loop(t, cf, Machine(Element, pos, log, [Frame(back, count)] + stack))
         == Resume(t, cf, ElementsAfter(t, cf, pos, log, count), Popped(back), stack)
    decreases |t| - pos, 2
  {
    hide Continue, GapScan, Elements, StackOk;
    var inside, counted := [Frame(back, count)] + stack, [Frame(back, Inc32(count))] + stack;
    FrameFits(back, count, stack);
    FrameFits(back, Inc32(count), stack);
    if Peek(t, pos) == ',' {
      var next := Machine(ElementDelimiter, pos + 1, log, counted);
      assert Loop(t, cf, Machine(Element, pos, log, inside)) == Continue(t, cf, next);
      GapSteps(t, cf, next);
      var g := GapScan(t, cf, pos + 1, log);
      if g.At? && !(Peek(t, g.pos) == ']' && cf.trailingCommas) {
        ElementsSteps(t, cf, ElementDelimiter, g.pos, log, Inc32(count), back, stack);
      }
    }
  }

  // ---------------------------------------------------------------- whole texts

  /** The text starts with a `]`, `}`, `,` or `:`, blanks and comments aside. */
  predicate StrayStart(t: bytes, cf: Config) {
    var s := GapScan(t, cf, 0, []);
    s.At? && Stray(Peek(t, s.pos))
  }

  /**
   * The two parsers agree on every text under all flags: the same events, and the same end of the text
   * consumed or the same error at the same offset. The one exception is a stray punctuation mark where
   * the text starts; both report it there, under different codes.
   */
  lemma ParsersAgree(t: bytes, cf: Config)
    ensures !StrayStart(t, cf) ==> IterativeParse(t, cf) == Parse(t, cf)
    ensures StrayStart(t, cf) ==>
              exists pos :: Parse(t, cf) == Failed([], ValueInvalid, pos)
                            && IterativeParse(t, cf) == Failed([], DocumentEmpty, pos)
  {
    hide GapScan, Loop, ParseValue;
    var s := GapScan(t, cf, 0, []);
    if s.At? && Peek(t, s.pos) != '\0' {
      if Stray(Peek(t, s.pos)) {
        NoValue(t, cf, Start, s.pos, [], []);
      } else {
        ValueSteps(t, cf, Start, s.pos, [], []);
        RootEnd(t, cf, ParseValue(t, cf, s.pos, []));
      }
    } else if s.At? {
      EmptyEnd(t, cf, s.pos);
    }
  }

  lemma EmptyEnd(t: bytes, cf: Config, pos: nat)
    requires pos <= |t| && Peek(t, pos) == '\0'
    ensures Loop(t, cf, Machine(Start, pos, [], [])) == Failed([], DocumentEmpty, pos)
  {
  }

  /** After the root value. */
  lemma RootEnd(t: bytes, cf: Config, v: Scan)
    requires v.At? ==> v.pos <= |t|
    ensures Resume(t, cf, v, Finish, [])
         == if v.Failed? || cf.stopWhenDone then v
            else
              var e := GapScan(t, cf, v.pos, v.log);
              if e.At? && Peek(t, e.pos) != '\0' then Failed(e.log, DocumentRootNotSingular, e.pos) else e
  {
    hide GapScan;
    if v.At? && !cf.stopWhenDone {
      var e := GapScan(t, cf, v.pos, v.log);
      if e.At? {
        var m := Machine(Finish, e.pos, e.log, []);
        if Peek(t, e.pos) == '\0' {
          assert Loop(t, cf, m) == At(e.pos, e.log);
        } else {
          assert Transit(t, cf, m, Predict(Finish, Tokenize(t[e.pos]))) == Fault(e.log, DocumentRootNotSingular, e.pos);
          assert Loop(t, cf, m) == Failed(e.log, DocumentRootNotSingular, e.pos);
        }
      }
    }
  }
}
