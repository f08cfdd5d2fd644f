/** Partial runs: how far the machine has got, and what the output buffer then holds. */
module InflateReach {
  import opened Bits
  import opened Lz77
  import opened Chunks
  import opened InflateSpec
  import opened InflateRun

  /** The bits to decode, the output offset and the output buffer. */
  datatype View = View(rest: BitString, offset: nat, data: seq<byte>)

  /** Where a call starts: a decoder that is not suspended starts a new stream. */
  function Entry(fmt: Format, st: State): State {
    if st.Done? then (if fmt == Raw then BlockHeader else ZlibHeader) else st
  }

  /** The run from `st` passes through `st'`, having emitted `emit` into the buffer. */
  ghost predicate Reaches(fmt: Format, st: State, before: View, st': State, emit: seq<Token>, after: View) {
    && Goes(fmt, st, before.rest, before.offset, st', after.rest, emit)
    && after.offset == before.offset + TotalSize(emit)
    && after.data == WriteAll(before.data, before.offset, emit)
  }

  /** The measure by which every jump makes progress. */
  predicate Smaller(st': State, after: View, st: State, before: View) {
    |after.rest| < |before.rest| || (|after.rest| == |before.rest| && Rank(st') < Rank(st))
  }

  lemma ReachesSelf(fmt: Format, st: State, v: View)
    requires Wf(st)
    ensures Reaches(fmt, st, v, st, [], v)
  {
    hide Goes, Wf;
    GoesSelf(fmt, st, v.rest, v.offset);
  }

  lemma ReachesStep(fmt: Format, st: State, before: View)
    requires Wf(st) && Step(fmt, st, before.rest, before.offset).Next?
    ensures var o := Step(fmt, st, before.rest, before.offset);
            var after := View(o.rest, before.offset + TotalSize(o.emit), WriteAll(before.data, before.offset, o.emit));
            Reaches(fmt, st, before, o.st, o.emit, after) && Smaller(o.st, after, st, before)
  {
    hide Goes, Step, Wf, Rank, InRange, TotalSize, WriteAll;
    GoesStep(fmt, st, before.rest, before.offset);
  }

  lemma ReachesTrans(fmt: Format, s1: State, v1: View, s2: State, e1: seq<Token>, v2: View, s3: State, e2: seq<Token>, v3: View)
    requires Reaches(fmt, s1, v1, s2, e1, v2) && Reaches(fmt, s2, v2, s3, e2, v3)
    ensures Reaches(fmt, s1, v1, s3, e1 + e2, v3)
  {
    hide Run, Wf, InRange, TotalSize, WriteAll;
    TotalSizeAppend(e1, e2);
    WriteAllAppend(v1.data, v1.offset, e1, e2);
    hide Goes;
    GoesTrans(fmt, s1, v1.rest, v1.offset, s2, v2.rest, e1, s3, v3.rest, e2);
  }

  lemma FinishedIsDone(fmt: Format, st: State, rest: BitString, offset: nat)
    requires Wf(st) && Step(fmt, st, rest, offset).Finished?
    ensures st.Done?
  {
  }

  lemma BlockedIsNotDone(fmt: Format, st: State, rest: BitString, offset: nat)
    requires Wf(st) && Step(fmt, st, rest, offset).Blocked?
    ensures !st.Done?
  {
  }

  /** One byte of literal data. */
  lemma LiteralStep(fmt: Format, st: State, b: byte, tail: BitString, offset: nat)
    requires Wf(st) && st.LiteralData? && st.remaining > 0
    ensures Step(fmt, st, ByteBits(b) + tail, offset) ==
            Next(LiteralData(st.final, st.remaining - 1), tail, [Literal(b)])
  {
    var rest := ByteBits(b) + tail;
    assert rest[..8] == ByteBits(b) && rest[8..] == tail;
    Powers();
    LsbRoundTrip(b, 8);
  }

  /** A run of literal data, however the input is cut. */
  lemma {:induction false} ReachesLiterals(fmt: Format, st: State, bytes: seq<byte>, before: View, after: View)
    requires Wf(st) && st.LiteralData? && |bytes| <= st.remaining
    requires before.rest == BytesBits(bytes) + after.rest
    requires InRange(Literals(bytes), before.offset)
    requires after.offset == before.offset + |bytes|
    requires after.data == WriteAll(before.data, before.offset, Literals(bytes))
    ensures Reaches(fmt, st, before, LiteralData(st.final, st.remaining - |bytes|), Literals(bytes), after)
    decreases |bytes|
  {
    hide Run, Step, Reaches;
    if bytes == [] {
      assert before.rest == after.rest;
      ReachesSelf(fmt, st, before);
    } else {
      var t, tail := Literal(bytes[0]), BytesBits(bytes[1..]) + after.rest;
      var mid := View(tail, before.offset + 1, Write(before.data, before.offset, t));
      var st' := LiteralData(st.final, st.remaining - 1);
      assert before.rest == ByteBits(bytes[0]) + tail;
      LiteralStep(fmt, st, bytes[0], tail, before.offset);
      ReachesStep(fmt, st, before);
      WriteOne(before.data, before.offset, t);
      assert Literals(bytes)[1..] == Literals(bytes[1..]);
      ReachesLiterals(fmt, st', bytes[1..], mid, after);
      ReachesTrans(fmt, st, before, st', [t], mid,
                   LiteralData(st.final, st.remaining - |bytes|), Literals(bytes[1..]), after);
    }
  }

  /** A literal block that has been read in full is done. */
  lemma ReachesDone(fmt: Format, st: State, before: View, emit: seq<Token>, mid: View, final: bool)
    requires Reaches(fmt, st, before, LiteralData(final, 0), emit, mid)
    ensures Reaches(fmt, st, before, BlockDone(final), emit, mid)
  {
    ReachesStep(fmt, LiteralData(final, 0), mid);
    assert emit + [] == emit;
    ReachesTrans(fmt, st, before, LiteralData(final, 0), emit, mid, BlockDone(final), [], mid);
  }

  lemma RunStops(fmt: Format, st: State, rest: BitString, offset: nat)
    requires Wf(st) && (st.Done? || Step(fmt, st, rest, offset).Blocked?)
    ensures Run(fmt, st, rest, offset) == Result(if st.Done? then Ended else Waiting, st, rest, [], offset)
  {
    if !st.Done? {
      hide Step, Wf, Rank;
    }
  }

  lemma RunFails(fmt: Format, st: State, rest: BitString, offset: nat)
    requires Wf(st) && Step(fmt, st, rest, offset).Failed?
    ensures var o := Step(fmt, st, rest, offset);
            Run(fmt, st, rest, offset) == Result(Error(o.error), st, o.rest, [], offset)
  {
    hide Step, Wf, Rank;
  }

  /** A run that has stopped somewhere has stopped there from the start. */
  lemma ReachesStop(fmt: Format, s1: State, v1: View, st: State, emit: seq<Token>, v: View)
    requires Reaches(fmt, s1, v1, st, emit, v) && (st.Done? || Step(fmt, st, v.rest, v.offset).Blocked?)
    ensures Wf(s1) && InRange(emit, v1.offset) && v.data == WriteAll(v1.data, v1.offset, emit)
    ensures Run(fmt, s1, v1.rest, v1.offset) == Result(if st.Done? then Ended else Waiting, st, v.rest, emit, v.offset)
  {
    hide Run, Step, Wf, InRange, TotalSize, WriteAll;
    RunStops(fmt, st, v.rest, v.offset);
    assert emit + [] == emit;
  }

  lemma ReachesFail(fmt: Format, s1: State, v1: View, st: State, emit: seq<Token>, v: View)
    requires Reaches(fmt, s1, v1, st, emit, v) && Step(fmt, st, v.rest, v.offset).Failed?
    ensures Wf(s1) && InRange(emit, v1.offset) && v.data == WriteAll(v1.data, v1.offset, emit)
    ensures var o := Step(fmt, st, v.rest, v.offset);
            Run(fmt, s1, v1.rest, v1.offset) == Result(Error(o.error), st, o.rest, emit, v.offset)
  {
    hide Run, Step, Wf, InRange, TotalSize, WriteAll;
    RunFails(fmt, st, v.rest, v.offset);
    assert emit + [] == emit;
  }
}
