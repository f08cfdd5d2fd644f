/**
 Whole runs of the decoder, and the proof that cutting the input into chunks is
 invisible.
 */
module InflateRun {
  import opened Bits
  import opened Huffman
  import opened Lz77
  import opened InflateSpec

  datatype Status = Waiting | Ended | Error(error: InflateSpec.Error)

  /** Where a run stops, what it emitted, and the output offset it reached. */
  datatype Result = Result(status: Status, st: State, rest: BitString, tokens: seq<Token>, offset: nat)

  ghost function Run(fmt: Format, st: State, rest: BitString, offset: nat): (r: Result)
    requires Wf(st)
    ensures Wf(r.st)
    ensures InRange(r.tokens, offset) && r.offset == offset + TotalSize(r.tokens)
    decreases |rest|, Rank(st)
  {
    match Step(fmt, st, rest, offset)
    case Blocked => Result(Waiting, st, rest, [], offset)
    case Finished => Result(Ended, st, rest, [], offset)
    case Failed(e, rest') => Result(Error(e), st, rest', [], offset)
    case Next(st', rest', emit) =>
      var r := Run(fmt, st', rest', offset + TotalSize(emit));
      Prepend(emit, r, offset)
  }

  function Prepend(emit: seq<Token>, r: Result, offset: nat): (p: Result)
    requires InRange(emit, offset)
    requires InRange(r.tokens, offset + TotalSize(emit)) && r.offset == offset + TotalSize(emit) + TotalSize(r.tokens)
    ensures InRange(p.tokens, offset) && p.offset == offset + TotalSize(p.tokens)
    ensures p == r.(tokens := emit + r.tokens)
  {
    InRangeAppend(emit, r.tokens, offset);
    TotalSizeAppend(emit, r.tokens);
    r.(tokens := emit + r.tokens)
  }

  // ---------------------------------------------------------------------------
  // Further input never changes a step that could already be taken.

  function Extended(o: Outcome, t: BitString): Outcome {
    match o
    case Next(st, rest, emit) => Next(st, rest + t, emit)
    case Failed(e, rest) => Failed(e, rest + t)
    case Blocked => Blocked
    case Finished => Finished
  }

  lemma SliceAppend(s: BitString, t: BitString, n: nat)
    requires n <= |s|
    ensures (s + t)[..n] == s[..n] && (s + t)[n..] == s[n..] + t
  {
  }

  lemma BoundaryAppend(s: BitString, t: BitString)
    requires |t| % 8 == 0
    ensures ToBoundary(s + t) == ToBoundary(s) + t
  {
    assert (|s| + |t|) % 8 == |s| % 8;
    SliceAppend(s, t, |s| % 8);
  }

  lemma DecodeStep(l: CompleteCode, s: BitString, t: BitString)
    ensures Decode(l, s).Some? ==> Decode(l, s + t) == Decode(l, s)
    ensures Decode(l, s).Some? ==>
              var b := l[Decode(l, s).value];
              b <= |s| && (s + t)[b..] == s[b..] + t
  {
    if Decode(l, s).Some? {
      DecodeSound(l, s);
      DecodeExtends(l, s, t);
    }
  }

  lemma LiteralExtends(st: State, rest: BitString, t: BitString, offset: nat)
    requires Wf(st) && |t| % 8 == 0
    requires st.LiteralBlock? || st.LiteralLen? || st.LiteralNlen? || st.LiteralData?
    requires !StepLiteral(st, rest, offset).Blocked?
    ensures StepLiteral(st, rest + t, offset) == Extended(StepLiteral(st, rest, offset), t)
  {
    match st
    case LiteralBlock(_) => BoundaryAppend(rest, t);
    case LiteralLen(_) => SliceAppend(rest, t, 16);
    case LiteralNlen(_, _) => SliceAppend(rest, t, 16);
    case LiteralData(_, remaining) =>
      if remaining > 0 {
        SliceAppend(rest, t, 8);
      }
  }

  lemma ExtraExtends(st: State, rest: BitString, t: BitString, offset: nat)
    requires Wf(st)
    requires st.DynamicExtra? || st.LitlenExtra? || st.DistanceExtra?
    requires !StepExtra(st, rest, offset).Blocked?
    ensures StepExtra(st, rest + t, offset) == Extended(StepExtra(st, rest, offset), t)
  {
    SliceAppend(rest, t, st.extra);
  }

  lemma StepExtends(fmt: Format, st: State, rest: BitString, t: BitString, offset: nat)
    requires Wf(st) && |t| % 8 == 0
    requires !Step(fmt, st, rest, offset).Blocked?
    ensures Step(fmt, st, rest + t, offset) == Extended(Step(fmt, st, rest, offset), t)
  {
    hide StepLiteral, StepExtra, Wf, Rank, InRange, TotalSize, StepOk;
    match st
    case ZlibHeader => SliceAppend(rest, t, 16);
    case BlockHeader => SliceAppend(rest, t, 3);
    case LiteralBlock(_) => LiteralExtends(st, rest, t, offset);
    case LiteralLen(_) => LiteralExtends(st, rest, t, offset);
    case LiteralNlen(_, _) => LiteralExtends(st, rest, t, offset);
    case LiteralData(_, _) => LiteralExtends(st, rest, t, offset);
    case StaticBlock(_) =>
    case DynamicHeader(_) => SliceAppend(rest, t, 14);
    case DynamicCodelen(_, _, _, target, got) =>
      if |got| < target {
        SliceAppend(rest, t, 3);
      }
    case DynamicSymbol(_, _, _, code, _, _) => DecodeStep(code, rest, t);
    case DynamicExtra(_, _, _, _, _, _, _, _) => ExtraExtends(st, rest, t, offset);
    case Construct(_, _, _, _) =>
    case Litlen(_, lit, _) => DecodeStep(lit, rest, t);
    case LitlenExtra(_, _, _, _, _) => ExtraExtends(st, rest, t, offset);
    case Distance(_, _, dist, _) => DecodeStep(dist, rest, t);
    case DistanceExtra(_, _, _, _, _, _) => ExtraExtends(st, rest, t, offset);
    case BlockDone(_) =>
    case ZlibFooter => BoundaryAppend(rest, t);
    case ZlibAdler32 =>
    case Done =>
  }

  /** Running on after a run: a waiting run continues with the new input, any other has ended. */
  ghost function Continue(fmt: Format, r: Result, t: BitString): Result
    requires Wf(r.st)
  {
    if r.status.Waiting? then
      var r' := Run(fmt, r.st, r.rest + t, r.offset);
      r'.(tokens := r.tokens + r'.tokens)
    else r.(rest := r.rest + t)
  }

  lemma RunNext(fmt: Format, st: State, rest: BitString, offset: nat)
    requires Wf(st) && Step(fmt, st, rest, offset).Next?
    ensures var o := Step(fmt, st, rest, offset);
            var r := Run(fmt, o.st, o.rest, offset + TotalSize(o.emit));
            Run(fmt, st, rest, offset) == r.(tokens := o.emit + r.tokens)
  {
    hide Step, Wf, Rank, InRange, TotalSize;
  }

  lemma ContinueAppend(fmt: Format, r: Result, emit: seq<Token>, t: BitString)
    requires Wf(r.st)
    ensures var c := Continue(fmt, r, t);
            Continue(fmt, r.(tokens := emit + r.tokens), t) == c.(tokens := emit + c.tokens)
  {
    hide Wf, Run;
    if r.status.Waiting? {
      var r' := Run(fmt, r.st, r.rest + t, r.offset);
      assert emit + (r.tokens + r'.tokens) == (emit + r.tokens) + r'.tokens;
    }
  }

  /** A run on more input is the run on the input so far, continued. */
  lemma {:induction false} RunExtends(fmt: Format, st: State, rest: BitString, t: BitString, offset: nat)
    requires Wf(st) && |t| % 8 == 0
    ensures Run(fmt, st, rest + t, offset) == Continue(fmt, Run(fmt, st, rest, offset), t)
    decreases |rest|, Rank(st)
  {
    hide Step, Wf, Rank, InRange, TotalSize;
    var o := Step(fmt, st, rest, offset);
    if o.Blocked? {
      var r' := Run(fmt, st, rest + t, offset);
      assert [] + r'.tokens == r'.tokens;
    } else {
      StepExtends(fmt, st, rest, t, offset);
      if o.Next? {
        NextExtends(fmt, st, rest, t, offset);
      }
    }
  }

  lemma {:induction false} NextExtends(fmt: Format, st: State, rest: BitString, t: BitString, offset: nat)
    requires Wf(st) && |t| % 8 == 0
    requires Step(fmt, st, rest, offset).Next?
    requires Step(fmt, st, rest + t, offset) == Extended(Step(fmt, st, rest, offset), t)
    ensures Run(fmt, st, rest + t, offset) == Continue(fmt, Run(fmt, st, rest, offset), t)
    decreases |rest|, Rank(st), 0
  {
    hide Step, Run, Wf, Rank, InRange, TotalSize, Continue;
    var o := Step(fmt, st, rest, offset);
    var mid := offset + TotalSize(o.emit);
    RunExtends(fmt, o.st, o.rest, t, mid);
    RunNext(fmt, st, rest, offset);
    RunNext(fmt, st, rest + t, offset);
    ContinueAppend(fmt, Run(fmt, o.st, o.rest, mid), o.emit, t);
  }

  // ---------------------------------------------------------------------------
  // Successive calls on successive chunks.

  lemma NoTokens(offset: nat)
    ensures InRange([], offset) && TotalSize([]) == 0
  {
  }

  /** The calls made on a list of chunks, up to the end of the stream or an error. */
  ghost function RunChunks(fmt: Format, st: State, buffered: BitString, chunks: seq<seq<byte>>, offset: nat): (r: Result)
    requires Wf(st)
    ensures InRange(r.tokens, offset) && r.offset == offset + TotalSize(r.tokens)
    decreases |chunks|
  {
    hide Step, Run, BytesBits, Concat, TotalSize, InRange, Prepend;
    if chunks == [] then
      NoTokens(offset);
      Result(Waiting, st, buffered, [], offset)
    else
      var r := Run(fmt, st, buffered + BytesBits(chunks[0]), offset);
      if r.status.Waiting? then
        Prepend(r.tokens, RunChunks(fmt, r.st, r.rest, chunks[1..], r.offset), offset)
      else r.(rest := r.rest + BytesBits(Concat(chunks[1..])))
  }

  /** A call that waits has nothing more to do on the same bits. */
  lemma {:induction false} RunIdle(fmt: Format, st: State, rest: BitString, offset: nat)
    requires Wf(st)
    ensures var r := Run(fmt, st, rest, offset);
            r.status.Waiting? ==> Run(fmt, r.st, r.rest, r.offset) == Result(Waiting, r.st, r.rest, [], r.offset)
    decreases |rest|, Rank(st)
  {
    hide Step, Wf, Rank, InRange, TotalSize;
    var o := Step(fmt, st, rest, offset);
    if o.Next? {
      RunIdle(fmt, o.st, o.rest, offset + TotalSize(o.emit));
    }
  }

  /**
   Chunking is invisible: however the input is cut, the calls give the same status, state,
   output tokens, output offset and remaining bits as one call on the whole input.
   */
  lemma {:induction false} ChunkingInvisible(
      fmt: Format, st: State, buffered: BitString, chunks: seq<seq<byte>>, offset: nat)
    requires Wf(st) && chunks != []
    ensures RunChunks(fmt, st, buffered, chunks, offset) ==
            Run(fmt, st, buffered + BytesBits(Concat(chunks)), offset)
    decreases |chunks|
  {
    hide Run, Wf, InRange, TotalSize, BytesBits;
    var head, tail := BytesBits(chunks[0]), BytesBits(Concat(chunks[1..]));
    BytesBitsAppend(chunks[0], Concat(chunks[1..]));
    assert buffered + BytesBits(Concat(chunks)) == (buffered + head) + tail;
    RunExtends(fmt, st, buffered + head, tail, offset);
    var r := Run(fmt, st, buffered + head, offset);
    if r.status.Waiting? {
      if |chunks| == 1 {
        RunIdle(fmt, st, buffered + head, offset);
        assert r.rest + tail == r.rest;
      } else {
        ChunkingInvisible(fmt, r.st, r.rest, chunks[1..], r.offset);
      }
    }
  }

  /** Two ways of cutting the same input cannot be told apart. */
  lemma AnyTwoCuts(fmt: Format, st: State, a: seq<seq<byte>>, b: seq<seq<byte>>, offset: nat)
    requires Wf(st) && a != [] && b != [] && Concat(a) == Concat(b)
    ensures RunChunks(fmt, st, [], a, offset) == RunChunks(fmt, st, [], b, offset)
  {
    ChunkingInvisible(fmt, st, [], a, offset);
    ChunkingInvisible(fmt, st, [], b, offset);
  }

  // ---------------------------------------------------------------------------
  // Partial runs.

  /** The run from `st` passes through `st'` with `rest'` still to be decoded, having emitted `emit`. */
  ghost predicate Goes(fmt: Format, st: State, rest: BitString, offset: nat, st': State, rest': BitString, emit: seq<Token>) {
    && Wf(st) && Wf(st') && InRange(emit, offset)
    && var r := Run(fmt, st', rest', offset + TotalSize(emit));
       Run(fmt, st, rest, offset) == r.(tokens := emit + r.tokens)
  }

  lemma GoesSelf(fmt: Format, st: State, rest: BitString, offset: nat)
    requires Wf(st)
    ensures Goes(fmt, st, rest, offset, st, rest, [])
  {
    hide Run, Wf;
    var r := Run(fmt, st, rest, offset);
    assert [] + r.tokens == r.tokens;
  }

  lemma GoesStep(fmt: Format, st: State, rest: BitString, offset: nat)
    requires Wf(st) && Step(fmt, st, rest, offset).Next?
    ensures var o := Step(fmt, st, rest, offset);
            Goes(fmt, st, rest, offset, o.st, o.rest, o.emit)
  {
    hide Run, Step, Wf, Rank, InRange, TotalSize;
    RunNext(fmt, st, rest, offset);
  }

  lemma GoesTrans(fmt: Format, s1: State, r1: BitString, o1: nat, s2: State, r2: BitString, e1: seq<Token>,
                  s3: State, r3: BitString, e2: seq<Token>)
    requires Goes(fmt, s1, r1, o1, s2, r2, e1) && Goes(fmt, s2, r2, o1 + TotalSize(e1), s3, r3, e2)
    ensures Goes(fmt, s1, r1, o1, s3, r3, e1 + e2)
  {
    hide Run, Wf;
    InRangeAppend(e1, e2, o1);
    TotalSizeAppend(e1, e2);
    hide InRange, TotalSize;
    var r := Run(fmt, s3, r3, o1 + TotalSize(e1 + e2));
    assert (e1 + e2) + r.tokens == e1 + (e2 + r.tokens);
  }

  lemma GoesTwoSteps(fmt: Format, s1: State, r1: BitString, offset: nat, s2: State, r2: BitString, o: Outcome)
    requires Wf(s1) && Wf(s2)
    requires Step(fmt, s1, r1, offset) == Next(s2, r2, []) && Step(fmt, s2, r2, offset) == o && o.Next?
    ensures Goes(fmt, s1, r1, offset, o.st, o.rest, o.emit)
  {
    hide Goes, Step, Wf;
    GoesStep(fmt, s1, r1, offset);
    GoesStep(fmt, s2, r2, offset);
    GoesTrans(fmt, s1, r1, offset, s2, r2, [], o.st, o.rest, o.emit);
    assert [] + o.emit == o.emit;
  }
}
