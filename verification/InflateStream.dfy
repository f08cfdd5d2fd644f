/**
 Whole streams: every well-formed list of blocks, however it is encoded and however the
 encoded bytes are cut into chunks, decompresses to the data it stands for.
 */
module InflateStream {
  import opened Bits
  import opened Huffman
  import opened Lz77
  import opened Chunks
  import opened InflateSpec
  import opened InflateRun
  import opened InflateReach
  import opened InflateFormat
  import opened InflateBlocks

  datatype Block =
    | Stored(pad: BitString, bytes: seq<byte>)
    | Fixed(es: seq<Element>)
    | Dynamic(nlit: nat, ndist: nat, codelens: seq<nat>, items: seq<Item>, es: seq<Element>)

  // ---------------------------------------------------------------------------
  // The two codes of a compressed block.

  predicate ValidDynamicHeader(b: Block) {
    && b.Dynamic? && CountsOk(b.nlit, b.ndist)
    && 4 <= |b.codelens| <= 19 && SmallLengths(b.codelens) && Complete(CodelenLengths(b.codelens))
    && b.items != [] && ValidItems(b.items, CodelenLengths(b.codelens))
    && ItemsCount(b.items) == b.nlit + b.ndist
  }

  function BlockLengths(b: Block): (l: Lengths)
    requires b.Fixed? || ValidDynamicHeader(b)
    ensures |l| == if b.Fixed? then 320 else b.nlit + b.ndist
  {
    if b.Fixed? then StaticLengths() else ExpandItems(b.items, [], 0)
  }

  function NLit(b: Block): nat {
    if b.Dynamic? then b.nlit else 288
  }

  function NDist(b: Block): nat {
    if b.Dynamic? then b.ndist else 32
  }

  function LitCode(b: Block): Lengths
    requires b.Fixed? || ValidDynamicHeader(b)
  {
    BlockLengths(b)[..NLit(b)]
  }

  function DistCode(b: Block): Lengths
    requires b.Fixed? || ValidDynamicHeader(b)
  {
    DistanceLengths(NLit(b), NDist(b), BlockLengths(b))
  }

  predicate ValidCompressed(b: Block, offset: nat) {
    && (b.Fixed? || ValidDynamicHeader(b))
    && Complete(LitCode(b)) && Complete(DistCode(b)) && LitCode(b)[256] > 0
    && ValidElements(b.es, LitCode(b), DistCode(b), offset)
  }

  /** A block whose first bit is at stream position `pos` and output offset `offset`. */
  predicate ValidBlock(b: Block, pos: nat, offset: nat) {
    if b.Stored? then |b.pad| < 8 && (pos + 3 + |b.pad|) % 8 == 0 && |b.bytes| < 0x10000
    else ValidCompressed(b, offset)
  }

  function BlockType(b: Block): nat {
    match b
    case Stored(_, _) => 0
    case Fixed(_) => 1
    case Dynamic(_, _, _, _, _) => 2
  }

  function HeaderBits(b: Block, final: bool): BitString {
    LsbBits(Bit(final) + 2 * BlockType(b), 3)
  }

  function StoredBits(b: Block): BitString
    requires b.Stored? && |b.bytes| < 0x10000
  {
    b.pad + (LsbBits(|b.bytes|, 16) + (LsbBits(0xffff - |b.bytes|, 16) + BytesBits(b.bytes)))
  }

  function TableBits(b: Block): BitString
    requires b.Fixed? || ValidDynamicHeader(b)
  {
    if b.Fixed? then []
    else DynamicHeaderBits(b.nlit, b.ndist, |b.codelens|)
         + (CodelensBits(b.codelens) + ItemsBits(b.items, CodelenLengths(b.codelens)))
  }

  function BlockBits(b: Block, final: bool, pos: nat, offset: nat): BitString
    requires ValidBlock(b, pos, offset)
  {
    HeaderBits(b, final) +
    if b.Stored? then StoredBits(b)
    else TableBits(b) + (ElementsBits(b.es, LitCode(b), DistCode(b), offset) + CodeBits(LitCode(b), 256))
  }

  function BlockTokens(b: Block, pos: nat, offset: nat): (ts: seq<Token>)
    requires ValidBlock(b, pos, offset)
    ensures InRange(ts, offset)
  {
    if b.Stored? then
      LiteralsInRange(b.bytes, offset);
      Literals(b.bytes)
    else Meanings(b.es, LitCode(b), DistCode(b), offset)
  }

  // ---------------------------------------------------------------------------
  // Decoding a block.

  function AfterHeader(b: Block, final: bool): State {
    match b
    case Stored(_, _) => LiteralBlock(final)
    case Fixed(_) => StaticBlock(final)
    case Dynamic(_, _, _, _, _) => DynamicHeader(final)
  }

  lemma GoesHeader(fmt: Format, b: Block, final: bool, tail: BitString, offset: nat)
    ensures Goes(fmt, BlockHeader, HeaderBits(b, final) + tail, offset, AfterHeader(b, final), tail, [])
  {
    Powers();
    var h := Bit(final) + 2 * BlockType(b);
    FieldFront(h, 3, tail);
    hide Goes, LsbBits, Lsb;
    GoesStep(fmt, BlockHeader, HeaderBits(b, final) + tail, offset);
  }

  lemma StepBoundary(fmt: Format, final: bool, pad: BitString, tail: BitString, offset: nat)
    requires |pad| < 8 && |tail| % 8 == 0
    ensures Step(fmt, LiteralBlock(final), pad + tail, offset) == Next(LiteralLen(final), tail, [])
  {
    assert |pad + tail| % 8 == |pad|;
    TakeFront(pad, tail);
  }

  lemma StepLens(fmt: Format, final: bool, n: nat, tail: BitString, offset: nat)
    requires n < 0x10000
    ensures Step(fmt, LiteralLen(final), LsbBits(n, 16) + tail, offset) == Next(LiteralNlen(final, n), tail, [])
    ensures Step(fmt, LiteralNlen(final, n), LsbBits(0xffff - n, 16) + tail, offset) == Next(LiteralData(final, n), tail, [])
  {
    Powers();
    FieldFront(n, 16, tail);
    FieldFront(0xffff - n, 16, tail);
    hide LsbBits, Lsb, Pow2;
  }

  lemma GoesStored(fmt: Format, b: Block, final: bool, tail: BitString, offset: nat)
    requires b.Stored? && |b.pad| < 8 && |b.bytes| < 0x10000 && |tail| % 8 == 0
    ensures InRange(Literals(b.bytes), offset)
    ensures Goes(fmt, LiteralBlock(final), StoredBits(b) + tail, offset, BlockDone(final), tail, Literals(b.bytes))
  {
    hide Goes, LsbBits, BytesBits, Step, Literals;
    var n, c, none: seq<Token> := |b.bytes|, BytesBits(b.bytes) + tail, [];
    var d := LsbBits(0xffff - n, 16) + c;
    var e := LsbBits(n, 16) + d;
    assert StoredBits(b) + tail == b.pad + e;
    StepBoundary(fmt, final, b.pad, e, offset);
    StepLens(fmt, final, n, d, offset);
    StepLens(fmt, final, n, c, offset);
    GoesTwoSteps(fmt, LiteralBlock(final), b.pad + e, offset, LiteralLen(final), e, Next(LiteralNlen(final, n), d, none));
    GoesStep(fmt, LiteralNlen(final, n), d, offset);
    GoesTrans(fmt, LiteralBlock(final), b.pad + e, offset, LiteralNlen(final, n), d, none, LiteralData(final, n), c, none);
    assert none + none == none;
    LiteralsInRange(b.bytes, offset);
    GoesLiterals(fmt, final, b.bytes, tail, offset);
    GoesTrans(fmt, LiteralBlock(final), b.pad + e, offset, LiteralData(final, n), c, none, BlockDone(final), tail,
              Literals(b.bytes));
    assert none + Literals(b.bytes) == Literals(b.bytes);
  }

  lemma GoesLiterals(fmt: Format, final: bool, bytes: seq<byte>, tail: BitString, offset: nat)
    requires |bytes| < 0x10000
    ensures Goes(fmt, LiteralData(final, |bytes|), BytesBits(bytes) + tail, offset, BlockDone(final), tail, Literals(bytes))
  {
    hide Goes, BytesBits, Literals, Step;
    LiteralsInRange(bytes, offset);
    var st := LiteralData(final, |bytes|);
    var before := View(BytesBits(bytes) + tail, offset, []);
    var after := View(tail, offset + |bytes|, WriteAll([], offset, Literals(bytes)));
    ReachesLiterals(fmt, st, bytes, before, after);
    ReachesDone(fmt, st, before, Literals(bytes), after, final);
  }

  /** The code tables of a compressed block. */
  lemma GoesTables(fmt: Format, b: Block, final: bool, tail: BitString, offset: nat)
    requires b.Fixed? || ValidDynamicHeader(b)
    ensures Goes(fmt, AfterHeader(b, final), TableBits(b) + tail, offset,
                 Construct(final, NLit(b), NDist(b), BlockLengths(b)), tail, [])
  {
    if b.Fixed? {
      assert TableBits(b) + tail == tail;
      hide Goes;
      GoesStep(fmt, StaticBlock(final), tail, offset);
    } else {
      GoesDynamicTables(fmt, b, final, tail, offset);
    }
  }

  lemma StepCodelenDone(fmt: Format, st: State, rest: BitString, offset: nat)
    requires Wf(st) && st.DynamicCodelen? && |st.got| == st.target && Complete(CodelenLengths(st.got))
    ensures Step(fmt, st, rest, offset) == Next(DynamicSymbol(st.final, st.nlit, st.ndist, CodelenLengths(st.got), [], 0), rest, [])
  {
  }

  lemma GoesDynamicTables(fmt: Format, b: Block, final: bool, tail: BitString, offset: nat)
    requires ValidDynamicHeader(b)
    ensures Goes(fmt, DynamicHeader(final), TableBits(b) + tail, offset,
                 Construct(final, b.nlit, b.ndist, ExpandItems(b.items, [], 0)), tail, [])
  {
    hide Goes, Step, DynamicHeaderBits, CodelensBits, ItemsBits, CodelenLengths, Complete, ValidItems, ItemsCount, ExpandItems;
    var code, n, none: seq<Token> := CodelenLengths(b.codelens), |b.codelens|, [];
    var c := ItemsBits(b.items, code) + tail;
    var d := CodelensBits(b.codelens) + c;
    var h := DynamicHeaderBits(b.nlit, b.ndist, n);
    var s1 := DynamicCodelen(final, b.nlit, b.ndist, n, []);
    var s2 := DynamicCodelen(final, b.nlit, b.ndist, n, b.codelens);
    var s3 := DynamicSymbol(final, b.nlit, b.ndist, code, [], 0);
    var s4 := Construct(final, b.nlit, b.ndist, ExpandItems(b.items, [], 0));
    assert TableBits(b) + tail == h + d;
    assert none + none == none && [] + b.codelens == b.codelens;
    StepDynamicHeaderField(fmt, final, b.nlit, b.ndist, n, d, offset);
    GoesStep(fmt, DynamicHeader(final), h + d, offset);
    GoesCodelens(fmt, s1, b.codelens, c, offset);
    GoesTrans(fmt, DynamicHeader(final), h + d, offset, s1, d, none, s2, c, none);
    StepCodelenDone(fmt, s2, c, offset);
    GoesStep(fmt, s2, c, offset);
    GoesTrans(fmt, DynamicHeader(final), h + d, offset, s2, c, none, s3, c, none);
    GoesItems(fmt, s3, b.items, tail, offset);
    GoesTrans(fmt, DynamicHeader(final), h + d, offset, s3, c, none, s4, tail, none);
  }

  lemma CompressedFacts(b: Block, offset: nat)
    requires ValidCompressed(b, offset)
    ensures b.Fixed? || (b.Dynamic? && ValidDynamicHeader(b))
    ensures CountsOk(NLit(b), NDist(b)) && |BlockLengths(b)| == NLit(b) + NDist(b)
    ensures |LitCode(b)| == NLit(b) && |DistCode(b)| <= 32
    ensures LitCode(b)[256] > 0 && Complete(LitCode(b)) && Complete(DistCode(b))
    ensures ValidElements(b.es, LitCode(b), DistCode(b), offset)
  {
  }

  lemma GoesCompressed(fmt: Format, b: Block, final: bool, tail: BitString, offset: nat)
    requires ValidCompressed(b, offset)
    ensures Goes(fmt, AfterHeader(b, final),
                 TableBits(b) + (ElementsBits(b.es, LitCode(b), DistCode(b), offset) + (CodeBits(LitCode(b), 256) + tail)),
                 offset, BlockDone(final), tail, Meanings(b.es, LitCode(b), DistCode(b), offset))
  {
    hide Goes, Step, TableBits, ElementsBits, CodeBits, Meanings, ValidElements, BlockLengths, Complete, ValidDynamicHeader,
         ValidCompressed, DistanceLengths;
    CompressedFacts(b, offset);
    var none: seq<Token> := [];
    var lit, dist := LitCode(b), DistCode(b);
    var ts := Meanings(b.es, lit, dist, offset);
    var d := ElementsBits(b.es, lit, dist, offset) + (CodeBits(lit, 256) + tail);
    var s1 := Construct(final, NLit(b), NDist(b), BlockLengths(b));
    var s2 := Litlen(final, lit, dist);
    GoesTables(fmt, b, final, d, offset);
    StepConstructed(fmt, s1, d, offset);
    GoesStep(fmt, s1, d, offset);
    GoesTrans(fmt, AfterHeader(b, final), TableBits(b) + d, offset, s1, d, none, s2, d, none);
    assert none + none == none && none + ts == ts;
    GoesData(fmt, s2, b.es, tail, offset);
    GoesTrans(fmt, AfterHeader(b, final), TableBits(b) + d, offset, s2, d, none, BlockDone(final), tail, ts);
  }

  lemma StepConstructed(fmt: Format, st: State, rest: BitString, offset: nat)
    requires Wf(st) && st.Construct?
    requires Complete(st.lens[..st.nlit]) && Complete(DistanceLengths(st.nlit, st.ndist, st.lens))
    ensures Step(fmt, st, rest, offset) ==
            Next(Litlen(st.final, st.lens[..st.nlit], DistanceLengths(st.nlit, st.ndist, st.lens)), rest, [])
  {
  }

  /** The decoder reads back a block as exactly the tokens it stands for. */
  lemma GoesBlock(fmt: Format, b: Block, final: bool, pos: nat, tail: BitString, offset: nat)
    requires ValidBlock(b, pos, offset)
    requires (pos + |BlockBits(b, final, pos, offset)| + |tail|) % 8 == 0
    ensures Goes(fmt, BlockHeader, BlockBits(b, final, pos, offset) + tail, offset, BlockDone(final), tail,
                 BlockTokens(b, pos, offset))
  {
    hide Goes, TableBits, ElementsBits, CodeBits, Meanings, ValidDynamicHeader, ValidElements, Literals, StoredBits,
         HeaderBits, BlockLengths, Complete, ValidCompressed, LitCode, DistCode;
    if !b.Stored? {
      CompressedFacts(b, offset);
    }
    var none: seq<Token>, mid := [], AfterHeader(b, final);
    var h, ts := HeaderBits(b, final), BlockTokens(b, pos, offset);
    assert none + ts == ts;
    var rest;
    if b.Stored? {
      rest := StoredBits(b) + tail;
      assert BlockBits(b, final, pos, offset) + tail == h + rest;
      HeaderIsThree(b, final);
      StoredAligned(b, pos, |tail|);
      GoesStored(fmt, b, final, tail, offset);
    } else {
      var c, d, e := TableBits(b), ElementsBits(b.es, LitCode(b), DistCode(b), offset), CodeBits(LitCode(b), 256);
      rest := c + (d + (e + tail));
      assert BlockBits(b, final, pos, offset) + tail == h + rest;
      GoesCompressed(fmt, b, final, tail, offset);
    }
    GoesHeader(fmt, b, final, rest, offset);
    GoesTrans(fmt, BlockHeader, h + rest, offset, mid, rest, none, BlockDone(final), tail, ts);
  }

  lemma HeaderIsThree(b: Block, final: bool)
    ensures |HeaderBits(b, final)| == 3
  {
  }

  lemma StoredAligned(b: Block, pos: nat, k: nat)
    requires b.Stored? && |b.bytes| < 0x10000 && (pos + 3 + |b.pad|) % 8 == 0
    requires (pos + 3 + |StoredBits(b)| + k) % 8 == 0
    ensures k % 8 == 0
  {
    hide LsbBits, BytesBits;
    assert |StoredBits(b)| == |b.pad| + 8 * (4 + |b.bytes|);
    DropBytes(pos + 3 + |b.pad|, 4 + |b.bytes|, k);
  }

  lemma DropBytes(a: nat, m: nat, k: nat)
    requires a % 8 == 0 && (a + 8 * m + k) % 8 == 0
    ensures k % 8 == 0
  {
  }

  // ---------------------------------------------------------------------------
  // Whole streams.

  predicate ValidBlocks(bs: seq<Block>, pos: nat, offset: nat)
    decreases |bs|
  {
    && bs != []
    && ValidBlock(bs[0], pos, offset)
    && (|bs| > 1 ==>
          ValidBlocks(bs[1..], pos + |BlockBits(bs[0], false, pos, offset)|, offset + TotalSize(BlockTokens(bs[0], pos, offset))))
  }

  /** The blocks in order, the last one marked as final. */
  function BlocksBits(bs: seq<Block>, pos: nat, offset: nat): BitString
    requires ValidBlocks(bs, pos, offset)
    decreases |bs|
  {
    hide BlockBits, ValidBlock, BlockTokens, TotalSize;
    if |bs| == 1 then BlockBits(bs[0], true, pos, offset)
    else
      var first := BlockBits(bs[0], false, pos, offset);
      first + BlocksBits(bs[1..], pos + |first|, offset + TotalSize(BlockTokens(bs[0], pos, offset)))
  }

  function BlocksTokens(bs: seq<Block>, pos: nat, offset: nat): seq<Token>
    requires ValidBlocks(bs, pos, offset)
    decreases |bs|
  {
    hide BlockBits, ValidBlock, BlockTokens;
    var first := BlockTokens(bs[0], pos, offset);
    if |bs| == 1 then first
    else first + BlocksTokens(bs[1..], pos + |BlockBits(bs[0], false, pos, offset)|, offset + TotalSize(first))
  }

  lemma {:induction false} GoesBlocks(fmt: Format, bs: seq<Block>, pos: nat, tail: BitString, offset: nat)
    requires ValidBlocks(bs, pos, offset)
    requires (pos + |BlocksBits(bs, pos, offset)| + |tail|) % 8 == 0
    ensures Goes(fmt, BlockHeader, BlocksBits(bs, pos, offset) + tail, offset, BlockDone(true), tail,
                 BlocksTokens(bs, pos, offset))
    decreases |bs|
  {
    hide Goes, BlockBits, BlockTokens, ValidBlock, InRange, TotalSize;
    if |bs| == 1 {
      GoesBlock(fmt, bs[0], true, pos, tail, offset);
    } else {
      var first, ts, none: seq<Token> := BlockBits(bs[0], false, pos, offset), BlockTokens(bs[0], pos, offset), [];
      var pos', offset' := pos + |first|, offset + TotalSize(ts);
      var rest := BlocksBits(bs[1..], pos', offset') + tail;
      assert BlocksBits(bs, pos, offset) + tail == first + rest;
      GoesBlock(fmt, bs[0], false, pos, rest, offset);
      GoesNextBlock(fmt, rest, offset');
      GoesTrans(fmt, BlockHeader, first + rest, offset, BlockDone(false), rest, ts, BlockHeader, rest, none);
      assert ts + none == ts;
      GoesBlocks(fmt, bs[1..], pos', tail, offset');
      GoesTrans(fmt, BlockHeader, first + rest, offset, BlockHeader, rest, ts, BlockDone(true), tail,
                BlocksTokens(bs[1..], pos', offset'));
    }
  }

  lemma GoesNextBlock(fmt: Format, rest: BitString, offset: nat)
    ensures Goes(fmt, BlockDone(false), rest, offset, BlockHeader, rest, [])
  {
    GoesStep(fmt, BlockDone(false), rest, offset);
  }

  /** A raw stream decodes to its tokens, and reading stops right after it. */
  lemma RawRoundTrip(bs: seq<Block>, tail: BitString, offset: nat)
    requires ValidBlocks(bs, 0, offset) && (|BlocksBits(bs, 0, offset)| + |tail|) % 8 == 0
    ensures var ts := BlocksTokens(bs, 0, offset);
            Run(Raw, BlockHeader, BlocksBits(bs, 0, offset) + tail, offset) ==
            Result(Ended, Done, tail, ts, offset + TotalSize(ts))
  {
    hide BlocksBits, BlocksTokens, ValidBlocks, InRange, TotalSize, Goes, Run;
    var ts := BlocksTokens(bs, 0, offset);
    GoesBlocks(Raw, bs, 0, tail, offset);
    RunLastBlock(tail, offset + TotalSize(ts));
    FinishRun(Raw, BlockHeader, BlocksBits(bs, 0, offset) + tail, offset, BlockDone(true), tail, ts, tail);
  }

  lemma RunLastBlock(rest: BitString, offset: nat)
    ensures Run(Raw, BlockDone(true), rest, offset) == Result(Ended, Done, rest, [], offset)
  {
    RunNext(Raw, BlockDone(true), rest, offset);
    RunStops(Raw, Done, rest, offset);
    var none: seq<Token> := [];
    assert none + none == none;
  }

  /** A ZLIB header: compression method 8 and no preset dictionary. */
  predicate ValidZlibHeader(h: nat) {
    h < 0x10000 && h % 16 == 8 && h / 0x2000 % 2 == 0
  }

  /** A ZLIB stream: header, blocks, padding to a byte boundary, and a four-byte checksum. */
  function ZlibBits(h: nat, bs: seq<Block>, pad: BitString, adler: BitString, offset: nat): BitString
    requires ValidBlocks(bs, 16, offset)
  {
    LsbBits(h, 16) + (BlocksBits(bs, 16, offset) + (pad + adler))
  }

  lemma AddBytes(a: nat, m: nat, k: nat)
    requires a % 8 == 0 && k % 8 == 0
    ensures (a + 8 * m + k) % 8 == 0
  {
  }

  lemma NothingSent()
    ensures TotalSize([]) == 0
  {
  }

  lemma ZlibRoundTrip(h: nat, bs: seq<Block>, pad: BitString, adler: BitString, tail: BitString, offset: nat)
    requires ValidZlibHeader(h) && ValidBlocks(bs, 16, offset)
    requires |pad| < 8 && (16 + |BlocksBits(bs, 16, offset)| + |pad|) % 8 == 0 && |adler| == 32 && |tail| % 8 == 0
    ensures var ts := BlocksTokens(bs, 16, offset);
            Run(Zlib, ZlibHeader, ZlibBits(h, bs, pad, adler, offset) + tail, offset) ==
            Result(Ended, Done, adler + tail, ts, offset + TotalSize(ts))
  {
    hide Goes, BlocksBits, BlocksTokens, ValidBlocks, InRange, LsbBits, Run, TotalSize;
    var ts, none: seq<Token> := BlocksTokens(bs, 16, offset), [];
    NothingSent();
    var c := pad + (adler + tail);
    var d := BlocksBits(bs, 16, offset) + c;
    assert ZlibBits(h, bs, pad, adler, offset) + tail == LsbBits(h, 16) + d;
    assert |c| == |pad| + 32 + |tail|;
    AddBytes(16 + |BlocksBits(bs, 16, offset)| + |pad|, 4, |tail|);
    GoesZlibHeader(h, d, offset);
    GoesBlocks(Zlib, bs, 16, c, offset);
    GoesTrans(Zlib, ZlibHeader, LsbBits(h, 16) + d, offset, BlockHeader, d, none, BlockDone(true), c, ts);
    assert none + ts == ts;
    RunFooter(pad, adler + tail, offset + TotalSize(ts));
    FinishRun(Zlib, ZlibHeader, LsbBits(h, 16) + d, offset, BlockDone(true), c, ts, adler + tail);
  }

  lemma FinishRun(fmt: Format, st: State, rest: BitString, offset: nat, st': State, rest': BitString, ts: seq<Token>, left: BitString)
    requires Goes(fmt, st, rest, offset, st', rest', ts)
    requires Run(fmt, st', rest', offset + TotalSize(ts)) == Result(Ended, Done, left, [], offset + TotalSize(ts))
    ensures Run(fmt, st, rest, offset) == Result(Ended, Done, left, ts, offset + TotalSize(ts))
  {
    hide Run, Wf, InRange, TotalSize;
    assert ts + [] == ts;
  }

  lemma GoesZlibHeader(h: nat, tail: BitString, offset: nat)
    requires ValidZlibHeader(h)
    ensures Goes(Zlib, ZlibHeader, LsbBits(h, 16) + tail, offset, BlockHeader, tail, [])
  {
    Powers();
    FieldFront(h, 16, tail);
    hide Goes, LsbBits, Lsb;
    GoesStep(Zlib, ZlibHeader, LsbBits(h, 16) + tail, offset);
  }

  lemma StepFooter(pad: BitString, rest: BitString, offset: nat)
    requires |pad| < 8 && |rest| % 8 == 0 && |rest| >= 32
    ensures Step(Zlib, BlockDone(true), pad + rest, offset) == Next(ZlibFooter, pad + rest, [])
    ensures Step(Zlib, ZlibFooter, pad + rest, offset) == Next(ZlibAdler32, rest, [])
    ensures Step(Zlib, ZlibAdler32, rest, offset) == Next(Done, rest, [])
  {
    assert |pad + rest| % 8 == |pad|;
    TakeFront(pad, rest);
  }

  lemma RunChecksum(rest: BitString, offset: nat)
    requires |rest| >= 32
    ensures Run(Zlib, ZlibAdler32, rest, offset) == Result(Ended, Done, rest, [], offset)
  {
    RunNext(Zlib, ZlibAdler32, rest, offset);
    RunStops(Zlib, Done, rest, offset);
    var none: seq<Token> := [];
    assert none + none == none;
  }

  lemma RunFooter(pad: BitString, rest: BitString, offset: nat)
    requires |pad| < 8 && |rest| % 8 == 0 && |rest| >= 32
    ensures Run(Zlib, BlockDone(true), pad + rest, offset) == Result(Ended, Done, rest, [], offset)
  {
    hide Run, Step, Goes;
    StepFooter(pad, rest, offset);
    GoesTwoSteps(Zlib, BlockDone(true), pad + rest, offset, ZlibFooter, pad + rest, Next(ZlibAdler32, rest, []));
    RunChecksum(rest, offset);
    FinishRun(Zlib, BlockDone(true), pad + rest, offset, ZlibAdler32, rest, [], rest);
  }

  // ---------------------------------------------------------------------------
  // Streams that use no zero distance determine their own output.

  /** Some match uses a reserved distance symbol with a zero in its extra bits. */
  predicate ZeroDistanceIn(es: seq<Element>) {
    exists i :: 0 <= i < |es| && ZeroMatch(es[i])
  }

  predicate ZeroMatch(e: Element) {
    e.Match? && e.distSym >= 30 && e.distExtra == 0
  }

  predicate ZeroDistanceUsed(bs: seq<Block>) {
    exists i :: 0 <= i < |bs| && !bs[i].Stored? && ZeroDistanceIn(bs[i].es)
  }

  /** The format's own distance symbols never stand for zero. */
  lemma StandardDistances(bs: seq<Block>)
    requires forall i, k :: 0 <= i < |bs| && !bs[i].Stored? && 0 <= k < |bs[i].es| && bs[i].es[k].Match? ==> bs[i].es[k].distSym < 30
    ensures !ZeroDistanceUsed(bs)
  {
  }

  lemma DistanceBasePositive(k: nat)
    requires k < 30
    ensures DistanceBase(k) >= 1
  {
  }

  lemma LengthPositive(k: nat)
    ensures LengthBase(k) >= 3
  {
  }

  lemma ZeroDistanceAppend(a: seq<Token>, b: seq<Token>)
    ensures HasZeroDistance(a + b) <==> HasZeroDistance(a) || HasZeroDistance(b)
  {
    if HasZeroDistance(a) {
      var i :| 0 <= i < |a| && a[i].Copy? && a[i].distance == 0 && a[i].length > 0;
      assert (a + b)[i] == a[i];
    }
    if HasZeroDistance(b) {
      var i :| 0 <= i < |b| && b[i].Copy? && b[i].distance == 0 && b[i].length > 0;
      assert (a + b)[|a| + i] == b[i];
    }
  }

  lemma ZeroMatchMeans(e: Element)
    requires e.Match? ==> e.lenSym >= 257
    ensures HasZeroDistance([Meaning(e)]) <==> ZeroMatch(e)
  {
    if e.Match? {
      LengthPositive(e.lenSym - 257);
      if e.distSym < 30 {
        DistanceBasePositive(e.distSym);
      }
      hide LengthBase;
      assert [Meaning(e)][0] == Meaning(e);
    }
  }

  lemma ZeroDistanceCons(es: seq<Element>)
    requires es != []
    ensures ZeroDistanceIn(es) <==> ZeroMatch(es[0]) || ZeroDistanceIn(es[1..])
  {
    if ZeroDistanceIn(es[1..]) {
      var i :| 0 <= i < |es[1..]| && ZeroMatch(es[1..][i]);
      assert ZeroMatch(es[i + 1]);
    }
    if ZeroDistanceIn(es) && !ZeroMatch(es[0]) {
      var i :| 0 <= i < |es| && ZeroMatch(es[i]);
      assert ZeroMatch(es[1..][i - 1]);
    }
  }

  lemma {:induction false} ElementsZero(es: seq<Element>, lit: Lengths, dist: Lengths, offset: nat)
    requires ValidElements(es, lit, dist, offset)
    ensures HasZeroDistance(Meanings(es, lit, dist, offset)) <==> ZeroDistanceIn(es)
    decreases |es|
  {
    hide HasZeroDistance, ZeroMatch, Meaning;
    if es != [] {
      var next := offset + Size(Meaning(es[0]));
      ElementsZero(es[1..], lit, dist, next);
      ZeroDistanceCons(es);
      ZeroMatchMeans(es[0]);
      hide ZeroDistanceIn;
      ZeroDistanceAppend([Meaning(es[0])], Meanings(es[1..], lit, dist, next));
    } else {
      NoZeroDistance();
    }
  }

  lemma NoZeroDistance()
    ensures !HasZeroDistance([])
  {
  }

  lemma {:induction false} LiteralsNonZero(bytes: seq<byte>)
    ensures !HasZeroDistance(Literals(bytes))
  {
    if bytes != [] {
      LiteralsNonZero(bytes[1..]);
      ZeroDistanceAppend([Literal(bytes[0])], Literals(bytes[1..]));
    }
  }

  lemma BlockZero(b: Block, pos: nat, offset: nat)
    requires ValidBlock(b, pos, offset)
    ensures HasZeroDistance(BlockTokens(b, pos, offset)) <==> ZeroDistanceUsed([b])
  {
    hide HasZeroDistance, Meanings, LitCode, DistCode, ValidDynamicHeader, Complete, ValidElements, ZeroDistanceIn;
    assert [b][0] == b;
    if b.Stored? {
      LiteralsNonZero(b.bytes);
    } else {
      ElementsZero(b.es, LitCode(b), DistCode(b), offset);
    }
  }

  lemma ZeroDistanceSplit(bs: seq<Block>)
    requires bs != []
    ensures ZeroDistanceUsed(bs) <==> ZeroDistanceUsed([bs[0]]) || ZeroDistanceUsed(bs[1..])
  {
    hide ZeroDistanceIn;
    if ZeroDistanceUsed([bs[0]]) {
      assert !bs[0].Stored? && ZeroDistanceIn(bs[0].es);
    }
    if ZeroDistanceUsed(bs[1..]) {
      var i :| 0 <= i < |bs[1..]| && !bs[1..][i].Stored? && ZeroDistanceIn(bs[1..][i].es);
      assert !bs[i + 1].Stored? && ZeroDistanceIn(bs[i + 1].es);
    }
    if ZeroDistanceUsed(bs) && !ZeroDistanceUsed([bs[0]]) {
      var i :| 0 <= i < |bs| && !bs[i].Stored? && ZeroDistanceIn(bs[i].es);
      assert i > 0 by {
        assert [bs[0]][0] == bs[0];
      }
      assert bs[1..][i - 1] == bs[i];
    }
  }

  /** The tokens of a stream have a zero distance exactly when one of its matches stands for it. */
  lemma {:induction false} BlocksZero(bs: seq<Block>, pos: nat, offset: nat)
    requires ValidBlocks(bs, pos, offset)
    ensures HasZeroDistance(BlocksTokens(bs, pos, offset)) <==> ZeroDistanceUsed(bs)
    decreases |bs|
  {
    hide BlockBits, BlockTokens, ValidBlock, HasZeroDistance, ZeroDistanceUsed, InRange, TotalSize;
    var b, ts := bs[0], BlockTokens(bs[0], pos, offset);
    BlockZero(b, pos, offset);
    if |bs| > 1 {
      var pos', offset' := pos + |BlockBits(b, false, pos, offset)|, offset + TotalSize(ts);
      BlocksZero(bs[1..], pos', offset');
      ZeroDistanceAppend(ts, BlocksTokens(bs[1..], pos', offset'));
      ZeroDistanceSplit(bs);
    } else {
      assert bs == [b];
    }
  }

  /**
   The output of the decoder on a stream is a function of the stream alone, and not of what
   the buffer held before, exactly when no match uses a reserved distance symbol with a
   zero in its extra bits.
   */
  lemma StreamDetermined(bs: seq<Block>, tail: BitString)
    requires ValidBlocks(bs, 0, 0) && (|BlocksBits(bs, 0, 0)| + |tail|) % 8 == 0
    ensures var ts := Run(Raw, BlockHeader, BlocksBits(bs, 0, 0) + tail, 0).tokens;
            InRange(ts, 0) &&
            ((forall b1: Background, b2: Background :: Expand([], ts, b1) == Expand([], ts, b2)) <==> !ZeroDistanceUsed(bs))
  {
    hide BlocksBits, BlocksTokens, ValidBlocks, Run, InRange, HasZeroDistance, Expand, ZeroDistanceUsed;
    RawRoundTrip(bs, tail, 0);
    BlocksZero(bs, 0, 0);
    OutputDetermined(BlocksTokens(bs, 0, 0));
  }

  /** The data a list of blocks stands for. */
  ghost function Plain(bs: seq<Block>, pos: nat): seq<byte>
    requires ValidBlocks(bs, pos, 0) && InRange(BlocksTokens(bs, pos, 0), 0)
  {
    Expand([], BlocksTokens(bs, pos, 0), i => 0)
  }

  /**
   The format and the decoder agree: for every well-formed raw stream, every way of cutting
   its bytes into chunks and every output buffer, the calls end the stream, leave exactly
   the bytes after it unread, reach the full length, and leave the buffer holding the
   encoded data, as much of it as fits, with every other byte untouched.
   */
  lemma StreamRoundTrip(bs: seq<Block>, chunks: seq<seq<byte>>, tail: BitString, buf: seq<byte>)
    requires ValidBlocks(bs, 0, 0) && !ZeroDistanceUsed(bs) && chunks != []
    requires BytesBits(Concat(chunks)) == BlocksBits(bs, 0, 0) + tail
    ensures InRange(BlocksTokens(bs, 0, 0), 0)
    ensures var r := RunChunks(Raw, BlockHeader, [], chunks, 0);
            && r.status == Ended && r.rest == tail && r.offset == |Plain(bs, 0)|
            && var out := WriteAll(buf, 0, r.tokens);
               && |out| == |buf|
               && forall i :: 0 <= i < |buf| ==> out[i] == if i < |Plain(bs, 0)| then Plain(bs, 0)[i] else buf[i]
  {
    hide BlocksBits, BlocksTokens, ValidBlocks, Run, RunChunks, BytesBits;
    var ts, all := BlocksTokens(bs, 0, 0), BytesBits(Concat(chunks));
    assert [] + all == all;
    ChunkingInvisible(Raw, BlockHeader, [], chunks, 0);
    assert (|BlocksBits(bs, 0, 0)| + |tail|) % 8 == 0 by {
      assert |all| == 8 * |Concat(chunks)|;
    }
    RawRoundTrip(bs, tail, 0);
    assert InRange(ts, 0);
    BlocksZero(bs, 0, 0);
    BufferGetsPlain(ts, buf);
  }

  /** The same for ZLIB streams; the checksum is left unread. */
  lemma ZlibStreamRoundTrip(h: nat, bs: seq<Block>, pad: BitString, adler: BitString, chunks: seq<seq<byte>>, tail: BitString,
                            buf: seq<byte>)
    requires ValidZlibHeader(h) && ValidBlocks(bs, 16, 0) && !ZeroDistanceUsed(bs) && chunks != []
    requires |pad| < 8 && (16 + |BlocksBits(bs, 16, 0)| + |pad|) % 8 == 0 && |adler| == 32
    requires BytesBits(Concat(chunks)) == ZlibBits(h, bs, pad, adler, 0) + tail
    ensures InRange(BlocksTokens(bs, 16, 0), 0)
    ensures var r := RunChunks(Zlib, ZlibHeader, [], chunks, 0);
            && r.status == Ended && r.rest == adler + tail && r.offset == |Plain(bs, 16)|
            && var out := WriteAll(buf, 0, r.tokens);
               && |out| == |buf|
               && forall i :: 0 <= i < |buf| ==> out[i] == if i < |Plain(bs, 16)| then Plain(bs, 16)[i] else buf[i]
  {
    hide BlocksBits, BlocksTokens, ValidBlocks, Run, RunChunks, BytesBits, LsbBits;
    var ts, all := BlocksTokens(bs, 16, 0), BytesBits(Concat(chunks));
    assert [] + all == all;
    ChunkingInvisible(Zlib, ZlibHeader, [], chunks, 0);
    assert |tail| % 8 == 0 by {
      assert |all| == 8 * |Concat(chunks)|;
      DropBytes(16 + |BlocksBits(bs, 16, 0)| + |pad|, 4, |tail|);
    }
    ZlibRoundTrip(h, bs, pad, adler, tail, 0);
    assert InRange(ts, 0);
    BlocksZero(bs, 16, 0);
    BufferGetsPlain(ts, buf);
  }

  lemma BufferGetsPlain(ts: seq<Token>, buf: seq<byte>)
    requires InRange(ts, 0) && !HasZeroDistance(ts)
    ensures var data := Expand([], ts, i => 0);
            var out := WriteAll(buf, 0, ts);
            |data| == TotalSize(ts) && |out| == |buf| &&
            forall i :: 0 <= i < |buf| ==> out[i] == if i < |data| then data[i] else buf[i]
  {
    var bg := (i: nat) => if i < |buf| then buf[i] else 0;
    ExpandIgnoresBackground([], ts, bg, i => 0);
    BufferHoldsPrefix(buf, [], ts, bg);
  }
}
