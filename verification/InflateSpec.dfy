/**
 The DEFLATE decoder as a machine over a bit stream.

 A state says what is expected next; `Step` takes one step on the bits still to be
 decoded, and `Run` takes steps until the machine finishes, fails or needs more input.
 There are no registers, tables or input chunks here.
 */
module InflateSpec {
  import opened Bits
  import opened Huffman
  import opened Lz77

  datatype Format = Raw | Zlib

  datatype Error = NotSupported | Invalid

  type CompleteCode = l: Lengths | Complete(l) witness PairCode()

  /** Two one-bit code words: the stand-in for a lone distance code. */
  function PairCode(): (l: Lengths)
    ensures Complete(l)
  {
    assert [1, 1][..1] == [1];
    assert Kraft([1]) == Pow2(15);
    Powers();
    [1, 1]
  }

  datatype State =
    | ZlibHeader
    | BlockHeader
    | LiteralBlock(final: bool)
    | LiteralLen(final: bool)
    | LiteralNlen(final: bool, len: nat)
    | LiteralData(final: bool, remaining: nat)
    | StaticBlock(final: bool)
    | DynamicHeader(final: bool)
    | DynamicCodelen(final: bool, nlit: nat, ndist: nat, target: nat, got: seq<nat>)
    | DynamicSymbol(final: bool, nlit: nat, ndist: nat, code: CompleteCode, lens: Lengths, last: nat)
    | DynamicExtra(final: bool, nlit: nat, ndist: nat, code: CompleteCode, lens: Lengths, last: nat, dup: nat, extra: nat)
    | Construct(final: bool, nlit: nat, ndist: nat, lens: Lengths)
    | Litlen(final: bool, lit: CompleteCode, dist: CompleteCode)
    | LitlenExtra(final: bool, lit: CompleteCode, dist: CompleteCode, base: nat, extra: nat)
    | Distance(final: bool, lit: CompleteCode, dist: CompleteCode, length: nat)
    | DistanceExtra(final: bool, lit: CompleteCode, dist: CompleteCode, length: nat, base: nat, extra: nat)
    | BlockDone(final: bool)
    | ZlibFooter
    | ZlibAdler32
    | Done

  predicate CountsOk(nlit: nat, ndist: nat) {
    257 <= nlit <= 288 && 1 <= ndist <= 32
  }

  /** What the fields of a state satisfy in every run. */
  predicate Wf(st: State) {
    match st
    case LiteralNlen(_, len) => len < 0x10000
    case LiteralData(_, remaining) => remaining < 0x10000
    case DynamicCodelen(_, nlit, ndist, target, got) =>
      CountsOk(nlit, ndist) && 4 <= target <= 19 && |got| <= target && forall i :: 0 <= i < |got| ==> got[i] < 8
    case DynamicSymbol(_, nlit, ndist, code, lens, last) =>
      CountsOk(nlit, ndist) && |code| == 19 && |lens| < nlit + ndist && last < 16
    case DynamicExtra(_, nlit, ndist, code, lens, last, dup, extra) =>
      CountsOk(nlit, ndist) && |code| == 19 && |lens| < nlit + ndist && last < 16 && 1 <= dup <= 11 && extra <= 7
    case Construct(_, nlit, ndist, lens) => CountsOk(nlit, ndist) && |lens| == nlit + ndist
    case Litlen(_, lit, dist) => |lit| <= 288 && |dist| <= 32
    case LitlenExtra(_, lit, dist, _, extra) => |lit| <= 288 && |dist| <= 32 && extra <= 5
    case Distance(_, lit, dist, _) => |lit| <= 288 && |dist| <= 32
    case DistanceExtra(_, lit, dist, _, _, extra) => |lit| <= 288 && |dist| <= 32 && extra <= 14
    case _ => true
  }

  /** States with a higher rank may move to lower ones without reading a bit. */
  function Rank(st: State): nat {
    match st
    case LiteralBlock(_) => 1
    case LiteralData(_, _) => 4
    case StaticBlock(_) => 2
    case DynamicCodelen(_, _, _, _, _) => 1
    case DynamicExtra(_, _, _, _, _, _, _, _) => 2
    case Construct(_, _, _, _) => 1
    case LitlenExtra(_, _, _, _, _) => 1
    case DistanceExtra(_, _, _, _, _, _) => 1
    case BlockDone(_) => 3
    case ZlibFooter => 2
    case ZlibAdler32 => 1
    case _ => 0
  }

  // ---------------------------------------------------------------------------
  // Tables of RFC 1951.

  /** Order in which code length code lengths are sent (section 3.2.7). */
  const CODELEN_MAP: seq<nat> := [16, 17, 18, 0, 8, 7, 9, 6, 10, 5, 11, 4, 12, 3, 13, 2, 14, 1, 15]

  /** Base lengths of length codes 257 to 284 (section 3.2.5). */
  const LENGTH_BASE: seq<nat> :=
    [3, 4, 5, 6, 7, 8, 9, 10, 11, 13, 15, 17, 19, 23, 27, 31, 35, 43, 51, 59, 67, 83, 99, 115, 131, 163, 195, 227]

  const LENGTH_EXTRA: seq<nat> :=
    [0, 0, 0, 0, 0, 0, 0, 0, 1, 1, 1, 1, 2, 2, 2, 2, 3, 3, 3, 3, 4, 4, 4, 4, 5, 5, 5, 5]

  /** Base distances of distance codes 0 to 29 (section 3.2.5). */
  const DISTANCE_BASE: seq<nat> :=
    [1, 2, 3, 4, 5, 7, 9, 13, 17, 25, 33, 49, 65, 97, 129, 193, 257, 385, 513, 769, 1025, 1537, 2049, 3073, 4097,
     6145, 8193, 12289, 16385, 24577]

  const DISTANCE_EXTRA: seq<nat> :=
    [0, 0, 0, 0, 1, 1, 2, 2, 3, 3, 4, 4, 5, 5, 6, 6, 7, 7, 8, 8, 9, 9, 10, 10, 11, 11, 12, 12, 13, 13]

  /** Codes above 284 all mean 258. */
  function LengthBase(k: nat): nat {
    if k < 28 then LENGTH_BASE[k] else 258
  }

  function LengthExtra(k: nat): (e: nat)
    ensures e <= 5
  {
    if k < 28 then LENGTH_EXTRA[k] else 0
  }

  /** The undefined codes 30 and 31 get base zero and 14 extra bits. */
  function DistanceBase(k: nat): nat {
    if k < 30 then DISTANCE_BASE[k] else 0
  }

  function DistanceExtraBits(k: nat): (e: nat)
    ensures e <= 14
  {
    if k < 30 then DISTANCE_EXTRA[k] else 14
  }

  function Repeat(v: nat, n: nat): (r: Lengths)
    requires v <= MAX_BITS
    ensures |r| == n && forall i :: 0 <= i < n ==> r[i] == v
  {
    seq(n, i => v)
  }

  /** Code lengths of the fixed code (section 3.2.6). */
  function StaticLengths(): (l: Lengths)
    ensures |l| == 320
  {
    Repeat(8, 144) + Repeat(9, 112) + Repeat(7, 24) + Repeat(8, 8) + Repeat(5, 32)
  }

  /** Which lengths these are, symbol by symbol: 288 literal and length symbols, then 32 distance symbols. */
  lemma FixedLengths(i: nat)
    requires i < 320
    ensures i < 144 ==> StaticLengths()[i] == 8
    ensures 144 <= i < 256 ==> StaticLengths()[i] == 9
    ensures 256 <= i < 280 ==> StaticLengths()[i] == 7
    ensures 280 <= i < 288 ==> StaticLengths()[i] == 8
    ensures 288 <= i ==> StaticLengths()[i] == 5
  {
  }

  /** The lengths that a length symbol stands for start where those of the one before end; the last are all 258. */
  lemma LengthSymbols(k: nat)
    requires k < 31
    ensures k < 4 ==> LengthBase(k) == 3 + k && LengthExtra(k) == 0
    ensures 4 <= k < 28 ==> LengthExtra(k) == k / 4 - 1 && LengthBase(k) == 3 + (4 + k % 4) * Pow2(k / 4 - 1)
    ensures 28 <= k ==> LengthBase(k) == 258 && LengthExtra(k) == 0
  {
    SmallPowers();
    hide Pow2;
  }

  /** So do the distances of a distance symbol. */
  lemma DistanceSymbols(k: nat)
    requires k < 30
    ensures k < 2 ==> DistanceBase(k) == 1 + k && DistanceExtraBits(k) == 0
    ensures 2 <= k ==> DistanceExtraBits(k) == k / 2 - 1 && DistanceBase(k) == 1 + (2 + k % 2) * Pow2(k / 2 - 1)
  {
    SmallPowers();
    hide Pow2;
  }

  lemma SmallPowers()
    ensures Pow2(0) == 1 && Pow2(1) == 2 && Pow2(2) == 4 && Pow2(3) == 8 && Pow2(4) == 16 && Pow2(5) == 32 && Pow2(6) == 64
    ensures Pow2(7) == 128 && Pow2(8) == 256 && Pow2(9) == 512 && Pow2(10) == 1024 && Pow2(11) == 2048
    ensures Pow2(12) == 4096 && Pow2(13) == 8192
  {
  }

  /** Code length code lengths by symbol, from those sent so far. */
  function CodelenLengths(got: seq<nat>): (l: Lengths)
    requires |got| <= 19 && forall i :: 0 <= i < |got| ==> got[i] < 8
    ensures |l| == 19
  {
    if got == [] then Repeat(0, 19)
    else
      var n := |got| - 1;
      CodelenLengths(got[..n])[MapAt(n) := got[n]]
  }

  /** The symbol whose code length is sent as number n. */
  function MapAt(n: nat): (sym: nat)
    requires n < 19
    ensures sym < 19
  {
    CODELEN_MAP[n]
  }

  lemma MapInjective(i: nat, j: nat)
    requires i < 19 && j < 19 && i != j
    ensures MapAt(i) != MapAt(j)
  {
  }

  /** Each symbol gets the length sent for it, or none. */
  lemma {:induction false} CodelenAt(got: seq<nat>, k: nat)
    requires |got| <= 19 && k < 19 && forall i :: 0 <= i < |got| ==> got[i] < 8
    ensures CodelenLengths(got)[MapAt(k)] == if k < |got| then got[k] else 0
  {
    hide MapAt;
    if got != [] {
      var n := |got| - 1;
      CodelenAt(got[..n], k);
      if k != n {
        MapInjective(k, n);
      }
    }
  }

  // ---------------------------------------------------------------------------
  // One step.

  datatype Outcome =
    | Next(st: State, rest: BitString, emit: seq<Token>)
    | Blocked
    | Finished
    | Failed(error: Error, rest: BitString)

  /** Bits to skip to reach the next byte boundary: whole bytes always remain. */
  function ToBoundary(rest: BitString): BitString {
    rest[|rest| % 8..]
  }

  function ParseZlibHeader(h: nat, rest: BitString): Outcome {
    if h % 16 != 8 || (h / 0x2000) % 2 == 1 then Failed(NotSupported, rest) else Next(BlockHeader, rest, [])
  }

  function ParseBlockHeader(h: nat, rest: BitString): Outcome {
    var final := h % 2 == 1;
    if h / 2 == 0 then Next(LiteralBlock(final), rest, [])
    else if h / 2 == 1 then Next(StaticBlock(final), rest, [])
    else if h / 2 == 2 then Next(DynamicHeader(final), rest, [])
    else Failed(NotSupported, rest)
  }

  /** The state that a code length symbol leads to. */
  function CodelenSymbol(st: State, sym: nat): State
    requires st.DynamicSymbol? && sym < 19
  {
    var DynamicSymbol(final, nlit, ndist, code, lens, last) := st;
    if sym < 16 then DynamicExtra(final, nlit, ndist, code, lens, sym, 1, 0)
    else if sym == 16 then DynamicExtra(final, nlit, ndist, code, lens, last, 3, 2)
    else if sym == 17 then DynamicExtra(final, nlit, ndist, code, lens, 0, 3, 3)
    else DynamicExtra(final, nlit, ndist, code, lens, 0, 11, 7)
  }

  /** Appends a run of code lengths, cut off when all have been received. */
  function StoreLengths(st: State, extra: nat): (r: State)
    requires st.DynamicExtra? && Wf(st)
    ensures Wf(r) && (r.DynamicSymbol? || r.Construct?)
  {
    var total := st.nlit + st.ndist;
    var lens: Lengths := st.lens + Repeat(st.last, Min(st.dup + extra, total - |st.lens|));
    if |lens| < total then DynamicSymbol(st.final, st.nlit, st.ndist, st.code, lens, st.last)
    else Construct(st.final, st.nlit, st.ndist, lens)
  }

  function DistanceLengths(nlit: nat, ndist: nat, lens: Lengths): Lengths
    requires nlit + ndist <= |lens|
  {
    if ndist == 1 then PairCode() else lens[nlit..nlit + ndist]
  }

  function LitlenSymbol(st: State, sym: nat, rest: BitString): Outcome
    requires st.Litlen?
  {
    if sym < 256 then Next(st, rest, [Literal(sym)])
    else if sym == 256 then Next(BlockDone(st.final), rest, [])
    else Next(LitlenExtra(st.final, st.lit, st.dist, LengthBase(sym - 257), LengthExtra(sym - 257)), rest, [])
  }

  /** A step reads bits or moves to a lower rank, and stays well formed. */
  predicate StepOk(st: State, rest: BitString, offset: nat, o: Outcome) {
    o.Next? ==>
      && Wf(o.st)
      && (|o.rest| < |rest| || (|o.rest| == |rest| && Rank(o.st) < Rank(st)))
      && InRange(o.emit, offset)
  }

  function StepLiteral(st: State, rest: BitString, offset: nat): (o: Outcome)
    requires Wf(st)
    requires st.LiteralBlock? || st.LiteralLen? || st.LiteralNlen? || st.LiteralData?
    ensures StepOk(st, rest, offset, o)
  {
    Powers();
    match st
    case LiteralBlock(final) => Next(LiteralLen(final), ToBoundary(rest), [])
    case LiteralLen(final) =>
      if |rest| < 16 then Blocked else Next(LiteralNlen(final, Lsb(rest[..16])), rest[16..], [])
    case LiteralNlen(final, len) =>
      if |rest| < 16 then Blocked
      else if Lsb(rest[..16]) != 0xffff - len then Failed(Invalid, rest[16..])
      else Next(LiteralData(final, len), rest[16..], [])
    case LiteralData(final, remaining) =>
      if remaining == 0 then Next(BlockDone(final), rest, [])
      else if |rest| < 8 then Blocked
      else Next(LiteralData(final, remaining - 1), rest[8..], [Literal(Lsb(rest[..8]))])
  }

  /** HLIT, HDIST and HCLEN (section 3.2.7). */
  function NumLit(h: nat): nat {
    h % 32 + 257
  }

  function NumDist(h: nat): nat {
    h / 32 % 32 + 1
  }

  function NumCodelen(h: nat): nat {
    h / 1024 + 4
  }

  function StepDynamicHeader(st: State, rest: BitString, offset: nat): (o: Outcome)
    requires st.DynamicHeader?
    ensures StepOk(st, rest, offset, o)
  {
    if |rest| < 14 then Blocked
    else
      Powers();
      var h := Lsb(rest[..14]);
      Next(DynamicCodelen(st.final, NumLit(h), NumDist(h), NumCodelen(h), []), rest[14..], [])
  }

  function StepCodelen(st: State, rest: BitString, offset: nat): (o: Outcome)
    requires Wf(st) && st.DynamicCodelen?
    ensures StepOk(st, rest, offset, o)
  {
    var DynamicCodelen(final, nlit, ndist, target, got) := st;
    if |got| < target then
      if |rest| < 3 then Blocked
      else
        Powers();
        Next(DynamicCodelen(final, nlit, ndist, target, got + [Lsb(rest[..3])]), rest[3..], [])
    else if Complete(CodelenLengths(got)) then
      Next(DynamicSymbol(final, nlit, ndist, CodelenLengths(got), [], 0), rest, [])
    else Failed(Invalid, rest)
  }

  ghost function StepDynamicSymbol(st: State, rest: BitString, offset: nat): (o: Outcome)
    requires Wf(st) && st.DynamicSymbol?
    ensures StepOk(st, rest, offset, o)
  {
    match Decode(st.code, rest)
    case None => Blocked
    case Some(sym) =>
      DecodeSound(st.code, rest);
      Next(CodelenSymbol(st, sym), rest[st.code[sym]..], [])
  }

  function StepConstruct(st: State, rest: BitString, offset: nat): (o: Outcome)
    requires Wf(st) && st.Construct?
    ensures StepOk(st, rest, offset, o)
  {
    var Construct(final, nlit, ndist, lens) := st;
    if Complete(lens[..nlit]) && Complete(DistanceLengths(nlit, ndist, lens)) then
      Next(Litlen(final, lens[..nlit], DistanceLengths(nlit, ndist, lens)), rest, [])
    else Failed(Invalid, rest)
  }

  ghost function StepLitlen(st: State, rest: BitString, offset: nat): (o: Outcome)
    requires Wf(st) && st.Litlen?
    ensures StepOk(st, rest, offset, o)
  {
    match Decode(st.lit, rest)
    case None => Blocked
    case Some(sym) =>
      DecodeSound(st.lit, rest);
      LitlenSymbol(st, sym, rest[st.lit[sym]..])
  }

  ghost function StepDistance(st: State, rest: BitString, offset: nat): (o: Outcome)
    requires Wf(st) && st.Distance?
    ensures StepOk(st, rest, offset, o)
  {
    match Decode(st.dist, rest)
    case None => Blocked
    case Some(sym) =>
      DecodeSound(st.dist, rest);
      Next(DistanceExtra(st.final, st.lit, st.dist, st.length, DistanceBase(sym), DistanceExtraBits(sym)),
           rest[st.dist[sym]..], [])
  }

  /** The steps that read a field of known width. */
  function StepExtra(st: State, rest: BitString, offset: nat): (o: Outcome)
    requires Wf(st)
    requires st.DynamicExtra? || st.LitlenExtra? || st.DistanceExtra?
    ensures StepOk(st, rest, offset, o)
  {
    if |rest| < st.extra then Blocked
    else
      var extra, rest' := Lsb(rest[..st.extra]), rest[st.extra..];
      match st
      case DynamicExtra(_, _, _, _, _, _, _, _) => Next(StoreLengths(st, extra), rest', [])
      case LitlenExtra(final, lit, dist, base, _) => Next(Distance(final, lit, dist, base + extra), rest', [])
      case DistanceExtra(final, lit, dist, length, base, _) =>
        if base + extra > offset then Failed(Invalid, rest')
        else Next(Litlen(final, lit, dist), rest', [Copy(base + extra, length)])
  }

  /** The steps between blocks. */
  function StepBlock(fmt: Format, st: State, rest: BitString, offset: nat): (o: Outcome)
    requires Wf(st)
    requires st.ZlibHeader? || st.BlockHeader? || st.StaticBlock? || st.BlockDone? || st.ZlibFooter? || st.ZlibAdler32?
             || st.Done?
    ensures StepOk(st, rest, offset, o)
  {
    match st
    case ZlibHeader => if |rest| < 16 then Blocked else ParseZlibHeader(Lsb(rest[..16]), rest[16..])
    case BlockHeader => if |rest| < 3 then Blocked else ParseBlockHeader(Lsb(rest[..3]), rest[3..])
    case StaticBlock(final) => Next(Construct(final, 288, 32, StaticLengths()), rest, [])
    case BlockDone(final) => Next(if !final then BlockHeader else if fmt == Raw then Done else ZlibFooter, rest, [])
    case ZlibFooter => Next(ZlibAdler32, ToBoundary(rest), [])
    case ZlibAdler32 => if |rest| < 32 then Blocked else Next(Done, rest, [])
    case Done => Finished
  }

  ghost function Step(fmt: Format, st: State, rest: BitString, offset: nat): (o: Outcome)
    requires Wf(st)
    ensures StepOk(st, rest, offset, o)
  {
    if st.LiteralBlock? || st.LiteralLen? || st.LiteralNlen? || st.LiteralData? then StepLiteral(st, rest, offset)
    else if st.DynamicHeader? then StepDynamicHeader(st, rest, offset)
    else if st.DynamicCodelen? then StepCodelen(st, rest, offset)
    else if st.DynamicSymbol? then StepDynamicSymbol(st, rest, offset)
    else if st.Construct? then StepConstruct(st, rest, offset)
    else if st.Litlen? then StepLitlen(st, rest, offset)
    else if st.Distance? then StepDistance(st, rest, offset)
    else if st.DynamicExtra? || st.LitlenExtra? || st.DistanceExtra? then StepExtra(st, rest, offset)
    else StepBlock(fmt, st, rest, offset)
  }

  lemma LiteralBlockStep(fmt: Format, st: State, rest: BitString, offset: nat)
    requires st.LiteralBlock?
    ensures Step(fmt, st, rest, offset) == Next(LiteralLen(st.final), ToBoundary(rest), [])
  {
  }

  lemma DistanceSymbolStep(fmt: Format, st: State, rest: BitString, offset: nat)
    requires Wf(st) && st.Distance?
    ensures var d := Decode(st.dist, rest);
            && (d.None? ==> Step(fmt, st, rest, offset) == Blocked)
            && (d.Some? ==>
                  && d.value < |st.dist| && st.dist[d.value] <= |rest|
                  && Step(fmt, st, rest, offset) ==
                     Next(DistanceExtra(st.final, st.lit, st.dist, st.length, DistanceBase(d.value), DistanceExtraBits(d.value)),
                          rest[st.dist[d.value]..], []))
  {
    hide Decode, DistanceBase, DistanceExtraBits;
    if Decode(st.dist, rest).Some? {
      DecodeSound(st.dist, rest);
    }
  }

  lemma MatchStep(fmt: Format, st: State, rest: BitString, offset: nat)
    requires Wf(st) && st.DistanceExtra?
    ensures |rest| < st.extra ==> Step(fmt, st, rest, offset) == Blocked
    ensures |rest| >= st.extra ==>
              var distance := st.base + Lsb(rest[..st.extra]);
              Step(fmt, st, rest, offset) ==
              if distance > offset then Failed(Invalid, rest[st.extra..])
              else Next(Litlen(st.final, st.lit, st.dist), rest[st.extra..], [Copy(distance, st.length)])
  {
    hide Lsb;
  }

  lemma CodelenFieldStep(fmt: Format, st: State, rest: BitString, offset: nat)
    requires Wf(st) && st.DynamicCodelen? && |st.got| < st.target
    ensures |rest| < 3 ==> Step(fmt, st, rest, offset) == Blocked
    ensures |rest| >= 3 ==>
              var c, got := Lsb(rest[..3]), st.got + [Lsb(rest[..3])];
              && c < 8 && |got| <= 19 && (forall i :: 0 <= i < |got| ==> got[i] < 8)
              && Step(fmt, st, rest, offset) == Next(DynamicCodelen(st.final, st.nlit, st.ndist, st.target, got), rest[3..], [])
              && Wf(DynamicCodelen(st.final, st.nlit, st.ndist, st.target, got))
  {
    Powers();
    hide Lsb, Pow2, CodelenLengths, Complete;
  }

  lemma LitlenExtraStep(fmt: Format, st: State, rest: BitString, offset: nat)
    requires Wf(st) && st.LitlenExtra?
    ensures Step(fmt, st, rest, offset) ==
            if |rest| < st.extra then Blocked
            else Next(Distance(st.final, st.lit, st.dist, st.base + Lsb(rest[..st.extra])), rest[st.extra..], [])
  {
    hide Lsb;
  }
}
