/** Chunked transfer coding (section 4.1 of RFC 7230): the parser gives back what was encoded. */
module HttpChunked {
  import opened Bytes
  import opened HttpTypes
  import opened HttpStep
  import opened HttpInvariant
  import opened HttpRun
  import opened HttpSplit
  import opened HttpPieces

  function Hex(n: nat, upper: bool): bytes {
    if n < 16 then [HexDigit(n, upper)] else Hex(n / 16, upper) + [HexDigit(n % 16, upper)]
  }

  function EncodeChunk(chunk: bytes, upper: bool): bytes {
    Hex(|chunk|, upper) + CRLF + (chunk + CRLF)
  }

  /** The chunks, the last chunk, and an empty trailer. */
  function Encode(chunks: seq<bytes>, upper: bool): bytes {
    if chunks == [] then Hex(0, upper) + CRLF + CRLF
    else EncodeChunk(chunks[0], upper) + Encode(chunks[1..], upper)
  }

  /** The longest chunk whose length the parser accepts. */
  const MAX_CHUNK: nat := ULLONG_MAX - 16

  predicate Encodable(chunks: seq<bytes>) {
    forall i :: 0 <= i < |chunks| ==> 0 < |chunks[i]| <= MAX_CHUNK
  }

  /** The callbacks that the chunks stand for. */
  function Events(s: Parser, chunks: seq<bytes>): seq<Event> {
    if chunks == [] then
      var e := Ended(s);
      [Notify(OnChunkHeader, e.(state := HeaderFieldStart)), Notify(OnChunkComplete, e.(state := MessageDone)),
       Notify(OnMessageComplete, e)]
    else
      ChunkEvents(s, chunks[0]) + Events(s, chunks[1..])
  }

  function ChunkEvents(s: Parser, chunk: bytes): seq<Event> {
    [Notify(OnChunkHeader, s.(state := ChunkData, contentLength := |chunk|)),
     Data(OnBody, chunk),
     Notify(OnChunkComplete, s.(state := ChunkSizeStart, contentLength := 0))]
  }

  /** The parser after the last byte. */
  function Ended(s: Parser): Parser {
    var e := s.(contentLength := 0, flags := s.flags.(trailing := true), state := MessageDone);
    e.(state := NewMessage(e))
  }

  // ---------------------------------------------------------------- the size of a chunk

  lemma HexDigitValue(d: nat, upper: bool)
    requires d < 16
    ensures Unhex(HexDigit(d, upper)) == d && HexDigit(d, upper) != CR
  {
  }

  /** What the parser takes for digits of a size: every byte from 128 on is one, and stands for 0. */
  lemma SizeDigitsExact(c: byte)
    ensures Unhex(c) >= 0 <==> IsDigit(c) || 'a' <= c <= 'f' || 'A' <= c <= 'F' || c as int >= 128
    ensures c as int >= 128 ==> Unhex(c) == 0
  {
  }

  predicate SizeDigits(w: bytes) {
    forall k :: 0 <= k < |w| ==> Unhex(w[k]) >= 0
  }

  /** The size that digits denote when they are written after those of `n`. */
  function SizeOf(n: nat, w: bytes): nat
    requires SizeDigits(w)
    decreases |w|
  {
    if w == [] then n else SizeOf(n * 16 + Unhex(w[0]), w[1..])
  }

  lemma {:induction false} SizeGrows(n: nat, w: bytes)
    requires SizeDigits(w)
    ensures SizeOf(n, w) >= n
    decreases |w|
  {
    hide Unhex;
    if w != [] {
      SizeGrows(n * 16 + Unhex(w[0]), w[1..]);
    }
  }

  lemma SizeStep(hc: Parser -> HeadersAnswer, s: Parser, ch: byte)
    requires s.state.ChunkSizeStart? || (s.state.ChunkSize? && s.contentLength <= MAX_CHUNK)
    requires Unhex(ch) >= 0
    ensures var n := (if s.state.ChunkSize? then s.contentLength * 16 else 0) + Unhex(ch);
            Step(hc, s, ch, false)
            == (if n <= MAX_CHUNK then StepResult(s.(state := ChunkSize, contentLength := n), [], Go)
                else StepResult(s.(errno := InvalidContentLength), [], Fail))
  {
    assert ch != CR;
    hide Unhex;
  }

  /** A size of any number of digits is taken for what they denote, exactly if it is at most `MAX_CHUNK`. */
  lemma {:induction false} SizeExact(hc: Parser -> HeadersAnswer, s: Parser, t: seq<Event>, w: bytes)
    requires s.state.ChunkSizeStart? || (s.state.ChunkSize? && s.contentLength <= MAX_CHUNK)
    requires w != [] && SizeDigits(w)
    ensures var n := SizeOf(if s.state.ChunkSize? then s.contentLength else 0, w);
            if n <= MAX_CHUNK
            then Leads(hc, Conn(s, t, false), w, Conn(s.(state := ChunkSize, contentLength := n), t, false))
            else RefusedFor(Bytewise(hc, Conn(s, t, false), w, 0), InvalidContentLength)
    decreases |w|
  {
    hide Leads, Bytewise, Step, Unhex, SkipsBadByte;
    var c := Conn(s, t, false);
    var n := (if s.state.ChunkSize? then s.contentLength * 16 else 0) + Unhex(w[0]);
    var s1 := s.(state := ChunkSize, contentLength := n);
    SizeStep(hc, s, w[0]);
    assert [w[0]] + w[1..] == w;
    if n > MAX_CHUNK {
      SizeGrows(n, w[1..]);
      OneByte(hc, c, w[0]);
      BytewiseConcat(hc, c, [w[0]], w[1..], 0);
    } else {
      QuietByte(hc, s, t, false, w[0], s1);
      if |w| == 1 {
        assert w == [w[0]];
      } else {
        SizeExact(hc, s1, t, w[1..]);
        LeadsThen(hc, c, [w[0]], Conn(s1, t, false), w[1..]);
        if SizeOf(n, w[1..]) <= MAX_CHUNK {
          LeadsOn(hc, c, [w[0]], Conn(s1, t, false), w[1..],
                  Conn(s.(state := ChunkSize, contentLength := SizeOf(n, w[1..])), t, false));
        }
      }
    }
  }

  lemma {:induction false} SizeConcat(n: nat, a: bytes, b: bytes)
    requires SizeDigits(a) && SizeDigits(b)
    ensures SizeDigits(a + b) && SizeOf(n, a + b) == SizeOf(SizeOf(n, a), b)
    decreases |a|
  {
    hide Unhex;
    if a == [] {
      assert a + b == b;
    } else {
      assert (a + b)[1..] == a[1..] + b;
      SizeConcat(n * 16 + Unhex(a[0]), a[1..], b);
    }
  }

  /** The hexadecimal digits of a number denote it. */
  lemma {:induction false} HexBack(n: nat, upper: bool)
    ensures SizeDigits(Hex(n, upper)) && SizeOf(0, Hex(n, upper)) == n
    decreases n
  {
    HexDigitValue(n % 16, upper);
    hide Unhex, HexDigit;
    if n >= 16 {
      HexBack(n / 16, upper);
      SizeConcat(0, Hex(n / 16, upper), [HexDigit(n % 16, upper)]);
    }
  }

  /** The digits of a size are read as that size. */
  lemma SizeRead(hc: Parser -> HeadersAnswer, s: Parser, t: seq<Event>, n: nat, upper: bool)
    requires s.state.ChunkSizeStart? && n <= MAX_CHUNK
    ensures Leads(hc, Conn(s, t, false), Hex(n, upper), Conn(s.(state := ChunkSize, contentLength := n), t, false))
  {
    hide Leads, Bytewise, SizeOf, SizeDigits;
    HexBack(n, upper);
    SizeExact(hc, s, t, Hex(n, upper));
  }

  /** What the line of a size leads to. */
  function Sized(s: Parser, n: nat): Parser {
    if n == 0 then s.(state := HeaderFieldStart, contentLength := 0, flags := s.flags.(trailing := true))
    else s.(state := ChunkData, contentLength := n)
  }

  lemma {:induction false} SizeLine(hc: Parser -> HeadersAnswer, s: Parser, t: seq<Event>, n: nat, upper: bool)
    requires s.state.ChunkSizeStart? && n <= MAX_CHUNK
    ensures Leads(hc, Conn(s, t, false), Hex(n, upper) + CRLF,
                  Conn(Sized(s, n), Emit(t, Notify(OnChunkHeader, Sized(s, n))), false))
  {
    hide Bytewise, EmitAll, SkipsBadByte, Emit;
    var a := Conn(s.(state := ChunkSize, contentLength := n), t, false);
    var b := Conn(s.(state := ChunkSizeAlmostDone, contentLength := n), t, false);
    var e := Notify(OnChunkHeader, Sized(s, n));
    SizeRead(hc, s, t, n, upper);
    EmitNone(t);
    EmitOne(t, e);
    OneByte(hc, a, CR);
    OneByte(hc, b, LF);
    LeadsOn(hc, a, [CR], b, [LF], Conn(Sized(s, n), Emit(t, e), false));
    assert [CR] + [LF] == CRLF;
    LeadsOn(hc, Conn(s, t, false), Hex(n, upper), a, CRLF, Conn(Sized(s, n), Emit(t, e), false));
  }

  // ---------------------------------------------------------------- the data of a chunk

  lemma {:induction false} DataRead(hc: Parser -> HeadersAnswer, s: Parser, t: seq<Event>, d: bytes)
    requires s.state.ChunkData? && 0 < |d| == s.contentLength
    ensures Leads(hc, Conn(s, t, false), d,
                  Conn(s.(state := ChunkDataAlmostDone, contentLength := 0), Emit(t, Data(OnBody, d)), false))
    decreases |d|
  {
    hide Bytewise, EmitAll, SkipsBadByte, Emit;
    var c := Conn(s, t, false);
    EmitOne(t, Data(OnBody, [d[0]]));
    OneByte(hc, c, d[0]);
    if |d| == 1 {
      assert d == [d[0]];
    } else {
      var s1, t1 := s.(contentLength := s.contentLength - 1), Emit(t, Data(OnBody, [d[0]]));
      DataRead(hc, s1, t1, d[1..]);
      EmitJoins(t, OnBody, [d[0]], d[1..]);
      assert [d[0]] + d[1..] == d;
      LeadsOn(hc, c, [d[0]], Conn(s1, t1, false), d[1..],
              Conn(s.(state := ChunkDataAlmostDone, contentLength := 0), Emit(t, Data(OnBody, d)), false));
    }
  }

  /** The CR and the LF after the data. */
  lemma AfterData(hc: Parser -> HeadersAnswer, s: Parser)
    requires s.state.ChunkDataAlmostDone?
    ensures Step(hc, s, CR, false) == StepResult(s.(state := ChunkDataDone), [], Go)
    ensures var s1 := s.(state := ChunkSizeStart);
            Step(hc, s.(state := ChunkDataDone), LF, false) == StepResult(s1, [Notify(OnChunkComplete, s1)], Go)
  {
  }

  lemma {:induction false} ChunkRead(hc: Parser -> HeadersAnswer, s: Parser, t: seq<Event>, chunk: bytes, upper: bool)
    requires s.state.ChunkSizeStart? && 0 < |chunk| <= MAX_CHUNK
    ensures Leads(hc, Conn(s, t, false), EncodeChunk(chunk, upper),
                  Conn(s.(contentLength := 0), EmitAll(t, ChunkEvents(s, chunk)), false))
  {
    hide Bytewise, EmitAll, SkipsBadByte, Emit;
    var s1 := Sized(s, |chunk|);
    var t1 := Emit(t, Notify(OnChunkHeader, s1));
    SizeLine(hc, s, t, |chunk|, upper);
    DataRead(hc, s1, t1, chunk);
    var t2 := Emit(t1, Data(OnBody, chunk));
    var s2 := s1.(state := ChunkDataAlmostDone, contentLength := 0);
    var s3 := s2.(state := ChunkDataDone);
    var s4 := s.(contentLength := 0);
    var e := Notify(OnChunkComplete, s4);
    EmitNone(t2);
    EmitOne(t2, e);
    AfterData(hc, s2);
    hide Step, Next;
    OneByte(hc, Conn(s2, t2, false), CR);
    OneByte(hc, Conn(s3, t2, false), LF);
    LeadsOn(hc, Conn(s2, t2, false), [CR], Conn(s3, t2, false), [LF], Conn(s4, Emit(t2, e), false));
    assert [CR] + [LF] == CRLF;
    LeadsOn(hc, Conn(s1, t1, false), chunk, Conn(s2, t2, false), CRLF, Conn(s4, Emit(t2, e), false));
    LeadsOn(hc, Conn(s, t, false), Hex(|chunk|, upper) + CRLF, Conn(s1, t1, false), chunk + CRLF,
            Conn(s4, Emit(t2, e), false));
    assert ChunkEvents(s, chunk) == [Notify(OnChunkHeader, s1), Data(OnBody, chunk)] + [e];
    EmitAllConcat(t, [Notify(OnChunkHeader, s1), Data(OnBody, chunk)], [e]);
    EmitTwo(t, Notify(OnChunkHeader, s1), Data(OnBody, chunk));
  }

  // ---------------------------------------------------------------- the whole body

  /** How the run over a chunked body ends. */
  function Result(c: Conn, chunks: seq<bytes>, upper: bool): RunResult {
    RunResult(Conn(Ended(c.s), EmitAll(c.trace, Events(c.s, chunks)), false), |Encode(chunks, upper)|,
              if c.s.upgrade then Exit else Go)
  }

  /** The last LF of the message. */
  lemma LastLf(hc: Parser -> HeadersAnswer, s: Parser)
    requires s.state.ChunkSizeStart?
    ensures var s1 := Sized(s, 0);
            && Step(hc, s1, CR, false) == StepResult(s1.(state := HeadersAlmostDone), [], Go)
            && Step(hc, s1.(state := HeadersAlmostDone), LF, false)
               == StepResult(Ended(s),
                             [Notify(OnChunkComplete, s1.(state := MessageDone))]
                             + [Notify(OnMessageComplete, Ended(s))],
                             if s.upgrade then Exit else Go)
  {
    hide ShouldKeepAlive;
  }

  lemma {:induction false} LastChunkRead(hc: Parser -> HeadersAnswer, s: Parser, t: seq<Event>, upper: bool)
    requires s.state.ChunkSizeStart?
    ensures Bytewise(hc, Conn(s, t, false), Encode([], upper), 0) == Result(Conn(s, t, false), [], upper)
  {
    hide Bytewise, EmitAll, SkipsBadByte, Emit;
    var s1 := Sized(s, 0);
    var t1 := Emit(t, Notify(OnChunkHeader, s1));
    var s2 := s1.(state := HeadersAlmostDone);
    var e1, e2 := Notify(OnChunkComplete, s1.(state := MessageDone)), Notify(OnMessageComplete, Ended(s));
    SizeLine(hc, s, t, 0, upper);
    EmitNone(t1);
    LastLf(hc, s);
    hide Step, Ended;
    OneByte(hc, Conn(s1, t1, false), CR);
    OneByte(hc, Conn(s2, t1, false), LF);
    LeadsThen(hc, Conn(s1, t1, false), [CR], Conn(s2, t1, false), [LF]);
    assert [CR] + [LF] == CRLF;
    LeadsThen(hc, Conn(s, t, false), Hex(0, upper) + CRLF, Conn(s1, t1, false), CRLF);
    assert Events(s, []) == [Notify(OnChunkHeader, s1)] + ([e1] + [e2]);
    EmitAllConcat(t, [Notify(OnChunkHeader, s1)], [e1] + [e2]);
    EmitOne(t, Notify(OnChunkHeader, s1));
  }

  /** From the start of a chunk, the encoding of `chunks` leads to exactly their callbacks, and the message is
      complete at its last byte. */
  lemma {:induction false} ChunkedBody(hc: Parser -> HeadersAnswer, c: Conn, chunks: seq<bytes>, upper: bool)
    requires c.s.state.ChunkSizeStart? && !c.shadow && Encodable(chunks)
    ensures Bytewise(hc, c, Encode(chunks, upper), 0) == Result(c, chunks, upper)
    decreases |chunks|
  {
    hide Bytewise, EmitAll, SkipsBadByte, Emit;
    if chunks == [] {
      LastChunkRead(hc, c.s, c.trace, upper);
    } else {
      var chunk := chunks[0];
      ChunkRead(hc, c.s, c.trace, chunk, upper);
      var d := Conn(c.s.(contentLength := 0), EmitAll(c.trace, ChunkEvents(c.s, chunk)), false);
      ChunkedBody(hc, d, chunks[1..], upper);
      SameEvents(c.s, chunks[1..]);
      LeadsThen(hc, c, EncodeChunk(chunk, upper), d, Encode(chunks[1..], upper));
      EmitAllConcat(c.trace, ChunkEvents(c.s, chunk), Events(c.s, chunks[1..]));
    }
  }

  lemma {:induction false} SameEvents(s: Parser, chunks: seq<bytes>)
    ensures Events(s.(contentLength := 0), chunks) == Events(s, chunks)
    decreases |chunks|
  {
    if chunks != [] {
      SameEvents(s, chunks[1..]);
    }
  }

  /** Cut into buffers in any way, the body is read the same. */
  lemma {:induction false} ChunkedBodyInBuffers(hc: Parser -> HeadersAnswer, c: Conn, chunks: seq<bytes>, upper: bool,
                                                buffers: seq<bytes>)
    requires c.s.state.ChunkSizeStart? && !c.shadow && Encodable(chunks)
    requires Flatten(buffers) == Encode(chunks, upper)
    ensures Same(Feed(hc, c, buffers), Result(c, chunks, upper))
  {
    hide Bytewise, EmitAll, SkipsBadByte, Emit, RunFrom;
    ChunkedBody(hc, c, chunks, upper);
    if SkipsBadByte(hc, c, Encode(chunks, upper), 0) {
      SkippingFails(hc, c, Encode(chunks, upper), 0);
    }
    FeedIsBytewise(hc, c, c, buffers);
  }

  lemma {:induction false} SkippingFails(hc: Parser -> HeadersAnswer, c: Conn, w: bytes, i: nat)
    requires i <= |w| && SkipsBadByte(hc, c, w, i)
    ensures Bytewise(hc, c, w, i).out.Fail?
    decreases |w| - i
  {
    hide Step, EmitAll;
    var r := Step(hc, c.s, w[i], false);
    if BadValueByte(c.s, w[i]) {
      BadByteFails(hc, c.s, w[i]);
    } else {
      SkippingFails(hc, Next(c, r), w, i + 1);
    }
  }

  // ---------------------------------------------------------------- what the callbacks add up to

  function Bodies(evs: seq<Event>): bytes {
    if evs == [] then []
    else (if evs[0].Data? && evs[0].kind == OnBody then evs[0].run else []) + Bodies(evs[1..])
  }

  function Count(evs: seq<Event>, n: Notification): nat {
    if evs == [] then 0
    else (if evs[0].Notify? && evs[0].what == n then 1 else 0) + Count(evs[1..], n)
  }

  /** The body callbacks add up to the body, each chunk has one header and one end, the last chunk too, and the
      message is completed once. */
  lemma {:induction false} EventsAddUp(s: Parser, chunks: seq<bytes>)
    ensures Bodies(Events(s, chunks)) == Flatten(chunks)
    ensures Count(Events(s, chunks), OnMessageComplete) == 1
    ensures Count(Events(s, chunks), OnChunkHeader) == |chunks| + 1
    ensures Count(Events(s, chunks), OnChunkComplete) == |chunks| + 1
    decreases |chunks|
  {
    if chunks == [] {
      var e := Ended(s);
      var a := Notify(OnChunkHeader, e.(state := HeaderFieldStart));
      var b := Notify(OnChunkComplete, e.(state := MessageDone));
      var d := Notify(OnMessageComplete, e);
      assert Events(s, chunks) == [a] + ([b] + [d]);
      AddUp([a], [b] + [d]);
      AddUp([b], [d]);
      AddUpOne(a);
      AddUpOne(b);
      AddUpOne(d);
    } else {
      var ev := ChunkEvents(s, chunks[0]);
      AddUp(ev, Events(s, chunks[1..]));
      assert ev == [ev[0]] + ([ev[1]] + [ev[2]]);
      AddUp([ev[0]], [ev[1]] + [ev[2]]);
      AddUp([ev[1]], [ev[2]]);
      AddUpOne(ev[0]);
      AddUpOne(ev[1]);
      AddUpOne(ev[2]);
      EventsAddUp(s, chunks[1..]);
      assert [] + (chunks[0] + []) == chunks[0];
    }
  }

  lemma {:induction false} AddUp(a: seq<Event>, b: seq<Event>)
    ensures Bodies(a + b) == Bodies(a) + Bodies(b)
    ensures forall n :: Count(a + b, n) == Count(a, n) + Count(b, n)
    decreases |a|
  {
    forall n ensures Count(a + b, n) == Count(a, n) + Count(b, n) {
      CountsAdd(a, b, n);
    }
    hide Count;
    if a == [] {
      assert a + b == b;
    } else {
      assert (a + b)[1..] == a[1..] + b;
      AddUp(a[1..], b);
    }
  }

  lemma {:induction false} CountsAdd(a: seq<Event>, b: seq<Event>, n: Notification)
    ensures Count(a + b, n) == Count(a, n) + Count(b, n)
    decreases |a|
  {
    if a == [] {
      assert a + b == b;
    } else {
      assert (a + b)[1..] == a[1..] + b;
      CountsAdd(a[1..], b, n);
    }
  }

  lemma AddUpOne(e: Event)
    ensures Bodies([e]) == if e.Data? && e.kind == OnBody then e.run else []
    ensures forall n :: Count([e], n) == if e.Notify? && e.what == n then 1 else 0
  {
    assert [e][1..] == [];
  }
}
