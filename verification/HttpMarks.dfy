/** The marks of `http_parser_execute`: where in the buffer the data callback of a kind will start. */
module HttpMarks {
  import opened Bytes
  import opened HttpTypes
  import opened HttpRun

  type Marks = map<DataKind, nat>

  /** The call that is due for `k` when the buffer has been read up to `p`. */
  function Due(marks: Marks, data: bytes, p: nat, k: DataKind): seq<Event> {
    if k in marks && marks[k] < p <= |data| then [Data(k, data[marks[k]..p])] else []
  }

  /** The calls that are due at `p`, in the order of lines 2077-2081. */
  function AllDue(marks: Marks, data: bytes, p: nat): seq<Event> {
    Due(marks, data, p, OnHeaderField) + Due(marks, data, p, OnHeaderValue) + Due(marks, data, p, OnUrl)
    + Due(marks, data, p, OnBody) + Due(marks, data, p, OnStatus)
  }

  /** The trace of the calls made so far together with those that are due. */
  function TraceAt(log: seq<Event>, marks: Marks, data: bytes, p: nat): seq<Event> {
    EmitAll(Merge(log), AllDue(marks, data, p))
  }

  /** At most the mark of `k` is set, at or before `p`. */
  predicate OnlyMark(marks: Marks, k: DataKind, p: nat) {
    marks.Keys == {k} && marks[k] <= p
  }

  /** At most one mark is set, at or before `p`. */
  predicate OneMark(marks: Marks, p: nat) {
    || marks == map[]
    || OnlyMark(marks, OnHeaderField, p) || OnlyMark(marks, OnHeaderValue, p) || OnlyMark(marks, OnUrl, p)
    || OnlyMark(marks, OnBody, p) || OnlyMark(marks, OnStatus, p)
  }

  /** The mark of `k` is set, and a byte has been read under it unless the buffer is just starting. */
  predicate UnderMark(marks: Marks, k: DataKind, p: nat) {
    OnlyMark(marks, k, p) && (marks[k] < p || p == 0)
  }

  /** The marks that may be set before byte `p` in state `st`; `end` is the length of the buffer. */
  predicate MarksOk(st: State, marks: Marks, p: nat, end: nat) {
    if st.HeaderField? then UnderMark(marks, OnHeaderField, p)
    else if st.HeaderValue? then UnderMark(marks, OnHeaderValue, p)
    else if st.ResStatus? then UnderMark(marks, OnStatus, p)
    else if InUrl(st) then UnderMark(marks, OnUrl, p)
    else
      || marks == map[]
      || (OnlyMark(marks, OnBody, p) && marks[OnBody] < p
          && (st.ChunkDataAlmostDone? || (p == end && (st.ChunkData? || st.BodyIdentity? || st.BodyIdentityEof?))))
  }

  /** At most one mark is set between bytes; line 2071 asserts it of the end of a buffer. */
  lemma AtMostOneMark(st: State, marks: Marks, p: nat, end: nat)
    requires MarksOk(st, marks, p, end)
    ensures OneMark(marks, p)
    ensures p > 0 ==> forall k :: k in marks ==> marks[k] < p
  {
  }

  /** A trace with a call due is a trace of calls and one more run. */
  ghost predicate UpToLastRun(calls: seq<Event>, trace: seq<Event>) {
    calls == trace || exists k, run :: run != [] && trace == Emit(calls, Data(k, run))
  }

  lemma TraceLacksOneRun(log: seq<Event>, marks: Marks, data: bytes, p: nat)
    requires OneMark(marks, p) && p <= |data|
    ensures UpToLastRun(Merge(log), TraceAt(log, marks, data, p))
  {
    hide TraceAt, Merge, Emit, EmitAll;
    if marks == map[] {
      TraceNone(log, data, p);
    } else {
      var k :| k in marks;
      assert OnlyMark(marks, k, p);
      TraceOnly(log, marks, data, p, k);
    }
  }

  lemma DueOnly(marks: Marks, data: bytes, p: nat, k: DataKind)
    requires OnlyMark(marks, k, p)
    ensures AllDue(marks, data, p) == Due(marks, data, p, k)
  {
    assert forall j: DataKind :: j != k ==> j !in marks;
  }

  lemma TraceNone(log: seq<Event>, data: bytes, p: nat)
    ensures TraceAt(log, map[], data, p) == Merge(log)
  {
  }

  lemma TraceStart(log: seq<Event>, marks: Marks, data: bytes)
    ensures TraceAt(log, marks, data, 0) == Merge(log)
  {
  }

  lemma TraceOnly(log: seq<Event>, marks: Marks, data: bytes, p: nat, k: DataKind)
    requires OnlyMark(marks, k, p) && p <= |data|
    ensures TraceAt(log, marks, data, p)
         == if marks[k] == p then Merge(log) else Emit(Merge(log), Data(k, data[marks[k]..p]))
  {
    DueOnly(marks, data, p, k);
    if marks[k] < p {
      EmitOne(Merge(log), Data(k, data[marks[k]..p]));
    }
  }

  /** Bytes read under a mark become part of the run that is due. */
  lemma TraceGrows(log: seq<Event>, marks: Marks, data: bytes, p: nat, q: nat, k: DataKind)
    requires OnlyMark(marks, k, p) && p < q <= |data|
    ensures TraceAt(log, marks, data, q) == Emit(TraceAt(log, marks, data, p), Data(k, data[p..q]))
  {
    hide TraceAt, Merge, Emit, EmitAll;
    TraceOnly(log, marks, data, p, k);
    TraceOnly(log, marks, data, q, k);
    if marks[k] < p {
      EmitJoins(Merge(log), k, data[marks[k]..p], data[p..q]);
      assert data[marks[k]..p] + data[p..q] == data[marks[k]..q];
    }
  }

  /** Making the call that is due closes the run. */
  lemma TraceCloses(log: seq<Event>, marks: Marks, data: bytes, p: nat, k: DataKind)
    requires OnlyMark(marks, k, p) && p <= |data|
    ensures Merge(log + [Data(k, data[marks[k]..p])])
         == Emit(TraceAt(log, marks, data, p), Data(k, []))
  {
    hide TraceAt, Merge, Emit, EmitAll;
    var e := Data(k, data[marks[k]..p]);
    MergeSnoc(log, e);
    TraceOnly(log, marks, data, p, k);
    if marks[k] < p {
      EmitJoins(Merge(log), k, data[marks[k]..p], []);
      assert data[marks[k]..p] + [] == data[marks[k]..p];
    }
  }

  lemma MergeSnoc(log: seq<Event>, e: Event)
    ensures Merge(log + [e]) == Emit(Merge(log), e)
  {
    EmitAllConcat([], log, [e]);
    EmitOne(Merge(log), e);
  }
}
