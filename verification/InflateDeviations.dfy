/** Streams on which the decoder departs from the DEFLATE format, and exactly which they are. */
module InflateDeviations {
  import opened Bits
  import opened Huffman
  import opened Lz77
  import opened InflateSpec
  import opened InflateRun
  import opened InflateReach
  import opened InflateFormat
  import opened InflateBlocks
  import opened InflateStream

  // ---------------------------------------------------------------------------
  // A single distance code.

  /** The code tables of a dynamic block, up to its compressed data. */
  function TablesSent(b: Block, final: bool): BitString
    requires ValidDynamicHeader(b)
  {
    HeaderBits(b, final) + TableBits(b)
  }

  lemma GoesSent(fmt: Format, b: Block, final: bool, tail: BitString, offset: nat)
    requires ValidDynamicHeader(b)
    ensures Goes(fmt, BlockHeader, TablesSent(b, final) + tail, offset,
                 Construct(final, b.nlit, b.ndist, BlockLengths(b)), tail, [])
  {
    hide Goes, HeaderBits, TableBits, ItemsCount, ValidItems, CodelenLengths, SmallLengths, Complete, ExpandItems;
    var none: seq<Token>, mid := [], TableBits(b) + tail;
    assert TablesSent(b, final) + tail == HeaderBits(b, final) + mid;
    GoesHeader(fmt, b, final, mid, offset);
    GoesDynamicTables(fmt, b, final, tail, offset);
    GoesTrans(fmt, BlockHeader, HeaderBits(b, final) + mid, offset, DynamicHeader(final), mid, none,
              Construct(final, b.nlit, b.ndist, BlockLengths(b)), tail, none);
    assert none + none == none;
  }

  /**
   The format lets a block that uses one distance code send it as one bit among any number
   of distance code lengths, leaving half of the code space unused.  The decoder goes on to
   the compressed data exactly when a single length was sent; otherwise the stream fails.
   */
  lemma LoneDistanceStream(fmt: Format, b: Block, final: bool, tail: BitString, offset: nat)
    requires ValidDynamicHeader(b) && Complete(LitCode(b)) && Kraft(BlockLengths(b)[b.nlit..]) == 0x8000
    ensures b.ndist == 1 ==>
              Goes(fmt, BlockHeader, TablesSent(b, final) + tail, offset, Litlen(final, LitCode(b), DistCode(b)), tail, [])
    ensures b.ndist != 1 ==>
              Run(fmt, BlockHeader, TablesSent(b, final) + tail, offset) ==
              Result(Error(Invalid), Construct(final, b.nlit, b.ndist, BlockLengths(b)), tail, [], offset)
  {
    hide Run, TablesSent, ItemsCount, ValidItems, CodelenLengths, SmallLengths, Complete, ExpandItems;
    var none: seq<Token>, st := [], Construct(final, b.nlit, b.ndist, BlockLengths(b));
    GoesSent(fmt, b, final, tail, offset);
    LoneDistanceCode(fmt, st, tail, offset);
    if b.ndist == 1 {
      GoesStep(fmt, st, tail, offset);
      hide Goes, Step;
      GoesTrans(fmt, BlockHeader, TablesSent(b, final) + tail, offset, st, tail, none, Litlen(final, LitCode(b), DistCode(b)), tail, none);
    } else {
      RunFails(fmt, st, tail, offset);
      hide Step;
    }
    assert none + none == none;
  }

  // ---------------------------------------------------------------------------
  // Such a block: two literal codes and one distance code, with two distance code lengths sent.

  const CODELENS: seq<nat> := [0, 0, 2, 2, 0, 0, 0, 0, 0, 0, 0, 0, 0, 0, 0, 0, 0, 1]

  const ITEMS: seq<Item> := [Item(18, 127), Item(18, 106), Item(1, 0), Item(1, 0), Item(1, 0), Item(0, 0)]

  const LONE: Block := Dynamic(257, 2, CODELENS, ITEMS, [])

  lemma {:induction false} KraftZeros(n: nat)
    ensures Kraft(Repeat(0, n)) == 0
  {
    if n > 0 {
      assert Repeat(0, n)[..n - 1] == Repeat(0, n - 1);
      KraftLast(Repeat(0, n));
      hide Kraft;
      KraftZeros(n - 1);
    }
  }

  lemma LoneCodelens()
    ensures SmallLengths(CODELENS) && CodelenLengths(CODELENS) == [2, 1] + Repeat(0, 16) + [2]
    ensures Complete(CodelenLengths(CODELENS))
  {
    var code := CodelenLengths(CODELENS);
    forall k | 0 <= k < 19
      ensures code[MapAt(k)] == if k < 18 then CODELENS[k] else 0
    {
      CodelenAt(CODELENS, k);
    }
    hide CodelenLengths, Kraft;
    LoneCode(code);
    var a, b, c: Lengths := [2, 1], Repeat(0, 16), [2];
    KraftZeros(16);
    KraftAppend(a, b);
    KraftAppend(a + b, c);
    KraftSmall();
  }

  /** The symbols in use are 0, 1 and 18, numbers 3, 17 and 2 in the order of sending. */
  lemma LoneCode(code: Lengths)
    requires |code| == 19 && forall k :: 0 <= k < 19 ==> code[MapAt(k)] == if k < 18 then CODELENS[k] else 0
    ensures code == [2, 1] + Repeat(0, 16) + [2]
  {
    MapValues();
    hide MapAt;
    assert code[0] == CODELENS[3] && code[1] == CODELENS[17] && code[18] == CODELENS[2];
    forall s | 2 <= s < 18
      ensures code[s] == 0
    {
      var k := if s == 2 then 15 else if s == 3 then 13 else if s == 4 then 11 else if s == 5 then 9 else if s == 6 then 7
               else if s == 7 then 5 else if s == 8 then 4 else if s == 9 then 6 else if s == 10 then 8
               else if s == 11 then 10 else if s == 12 then 12 else if s == 13 then 14 else if s == 14 then 16
               else if s == 15 then 18 else if s == 16 then 0 else 1;
      assert code[MapAt(k)] == 0;
    }
  }

  lemma MapValues()
    ensures MapAt(0) == 16 && MapAt(1) == 17 && MapAt(2) == 18 && MapAt(3) == 0 && MapAt(4) == 8 && MapAt(5) == 7
    ensures MapAt(6) == 9 && MapAt(7) == 6 && MapAt(8) == 10 && MapAt(9) == 5 && MapAt(10) == 11 && MapAt(11) == 4
    ensures MapAt(12) == 12 && MapAt(13) == 3 && MapAt(14) == 13 && MapAt(15) == 2 && MapAt(16) == 14 && MapAt(17) == 1
    ensures MapAt(18) == 15
  {
  }

  lemma KraftSmall()
    ensures Kraft([2, 1]) == 0xc000 && Kraft([2]) == 0x4000 && Kraft([1, 1]) == 0x10000 && Kraft([1, 0]) == 0x8000
  {
    Powers();
    assert Pow2(15) == 0x8000;
    KraftOne(2);
    KraftOne(1);
    KraftTwo(2, 1);
    KraftTwo(1, 1);
    KraftTwo(1, 0);
  }

  lemma KraftOne(x: nat)
    requires x <= MAX_BITS
    ensures Kraft([x]) == if x == 0 then 0 else Pow2(16 - x)
  {
    assert [x][..0] == [];
  }

  lemma KraftTwo(x: nat, y: nat)
    requires x <= MAX_BITS && y <= MAX_BITS
    ensures Kraft([x, y]) == Kraft([x]) + if y == 0 then 0 else Pow2(16 - y)
  {
    assert [x, y][..1] == [x];
  }

  lemma ExpandOne(items: seq<Item>, lens: Lengths, last: nat)
    requires items != [] && last < 16
    ensures var v := ItemValue(items[0], last);
            ExpandItems(items, lens, last) == ExpandItems(items[1..], lens + Repeat(v, ItemCount(items[0])), v)
  {
  }

  /** What the items stand for: 255 zeros, two literal code lengths and the two distance code lengths. */
  lemma LoneLengths()
    ensures ExpandItems(ITEMS, [], 0) == Repeat(0, 255) + [1, 1] + [1, 0]
    ensures ItemsCount(ITEMS) == 259
  {
    hide ExpandItems, ItemsCount;
    var i1, i2, i3, i4, i5 := ITEMS[1..], ITEMS[2..], ITEMS[3..], ITEMS[4..], ITEMS[5..];
    assert i1[1..] == i2 && i2[1..] == i3 && i3[1..] == i4 && i4[1..] == i5 && i5[1..] == [];
    var l1, l2 := Repeat(0, 138), Repeat(0, 255);
    assert [] + Repeat(0, 138) == l1 && l1 + Repeat(0, 117) == l2;
    var l3, l4, l5, l6: Lengths := l2 + [1], l2 + [1, 1], l2 + [1, 1, 1], l2 + [1, 1] + [1, 0];
    assert Repeat(1, 1) == [1] && Repeat(0, 1) == [0];
    assert l3 + [1] == l4 && l4 + [1] == l5 && l5 + [0] == l6;
    ExpandOne(ITEMS, [], 0);
    ExpandOne(i1, l1, 0);
    ExpandOne(i2, l2, 0);
    ExpandOne(i3, l3, 1);
    ExpandOne(i4, l4, 1);
    ExpandOne(i5, l5, 1);
    ExpandNone(l6, 0);
  }

  lemma ExpandNone(lens: Lengths, last: nat)
    requires last < 16
    ensures ExpandItems([], lens, last) == lens
  {
  }

  lemma LoneItems()
    ensures ValidItems(ITEMS, [2, 1] + Repeat(0, 16) + [2])
  {
    Powers();
    assert Pow2(0) == 1;
  }

  lemma LoneHeader()
    ensures ValidDynamicHeader(LONE) && BlockLengths(LONE) == Repeat(0, 255) + [1, 1] + [1, 0]
  {
    hide CodelenLengths, ExpandItems, ItemsCount, Complete, ValidItems;
    LoneCodelens();
    LoneItems();
    LoneLengths();
  }

  /** The decoder rejects it, whatever data follow. */
  lemma LoneDistanceRejected(fmt: Format, tail: BitString, offset: nat)
    ensures ValidDynamicHeader(LONE)
    ensures var r := Run(fmt, BlockHeader, TablesSent(LONE, true) + tail, offset);
            r.status == Error(Invalid) && r.tokens == []
  {
    hide ValidDynamicHeader, BlockLengths, Run, TablesSent, Kraft;
    LoneHeader();
    var a, b, c: Lengths := Repeat(0, 255), [1, 1], [1, 0];
    assert BlockLengths(LONE)[..257] == a + b && BlockLengths(LONE)[257..] == c;
    KraftZeros(255);
    KraftAppend(a, b);
    KraftSmall();
    LoneDistanceStream(fmt, LONE, true, tail, offset);
  }

  // ---------------------------------------------------------------------------
  // A zero distance.

  /** A fixed block with one match of three bytes, at distance symbol 30 and with zero extra bits. */
  const ZERO: Block := Fixed([ZERO_MATCH])

  const ZERO_MATCH: Element := Match(257, 0, 30, 0)

  lemma ZeroElement(e: Element, lit: Lengths, dist: Lengths)
    requires e == ZERO_MATCH && |lit| > 257 && lit[257] > 0 && |dist| > 30 && dist[30] > 0
    ensures ValidElement(e, lit, dist, 0) && Meaning(e) == Copy(0, 3)
  {
    hide Pow2, LengthExtra, LengthBase, DistanceExtraBits, DistanceBase, Meaning;
    MatchMeaning(257, 0, 30, 0);
    ZeroFields(e.lenSym - 257, e.distSym);
    Pow2Pos(LengthExtra(e.lenSym - 257));
    Pow2Pos(DistanceExtraBits(e.distSym));
  }

  lemma MatchMeaning(ls: nat, le: nat, ds: nat, de: nat)
    requires ls >= 257
    ensures Meaning(Match(ls, le, ds, de)) == Copy(DistanceBase(ds) + de, LengthBase(ls - 257) + le)
  {
    hide LengthBase, DistanceBase;
  }

  lemma ZeroFields(k: nat, ds: nat)
    requires k == 0 && ds == 30
    ensures LengthBase(k) == 3 && DistanceBase(ds) == 0
  {
  }

  lemma ZeroElements(lit: Lengths, dist: Lengths)
    requires ValidElement(ZERO_MATCH, lit, dist, 0) && Meaning(ZERO_MATCH) == Copy(0, 3)
    ensures ValidElements([ZERO_MATCH], lit, dist, 0) && Meanings([ZERO_MATCH], lit, dist, 0) == [Copy(0, 3)]
  {
    hide ValidElement, Meaning;
    var es := [ZERO_MATCH];
    assert es[1..] == [];
  }

  lemma ZeroCompressed()
    ensures ValidCompressed(ZERO, 0) && BlockTokens(ZERO, 0, 0) == [Copy(0, 3)]
  {
    hide Kraft, StaticLengths, ValidElements, ValidElement, Meanings, Meaning;
    FixedCodes();
    FixedLengths(257);
    FixedLengths(318);
    var lit, dist := LitCode(ZERO), DistCode(ZERO);
    assert lit[257] == 7 && dist[30] == 5;
    ZeroElement(ZERO_MATCH, lit, dist);
    ZeroElements(lit, dist);
  }

  lemma ZeroBlock()
    ensures ValidBlocks([ZERO], 0, 0) && BlocksTokens([ZERO], 0, 0) == [Copy(0, 3)]
  {
    hide ValidCompressed, BlockTokens, BlockBits;
    ZeroCompressed();
  }

  lemma {:induction false} Pow2Pos(n: nat)
    ensures Pow2(n) > 0
  {
    if n > 0 {
      Pow2Pos(n - 1);
    }
  }

  /**
   The decoder accepts it and reports three bytes of output, and the buffer holds in their
   place whatever it held before.
   */
  lemma ZeroDistanceAccepted(tail: BitString, buf: seq<byte>)
    ensures ValidBlocks([ZERO], 0, 0)
    ensures (|BlocksBits([ZERO], 0, 0)| + |tail|) % 8 == 0 ==>
              var r := Run(Raw, BlockHeader, BlocksBits([ZERO], 0, 0) + tail, 0);
              r.status == Ended && r.offset == 3 && WriteAll(buf, 0, r.tokens) == buf
  {
    ZeroBlock();
    hide BlocksBits, ValidBlocks, BlocksTokens, Run;
    if (|BlocksBits([ZERO], 0, 0)| + |tail|) % 8 == 0 {
      RawRoundTrip([ZERO], tail, 0);
    }
    OneToken(Copy(0, 3));
    CopyOntoSelf(buf, 0, Min(3, |buf|));
    assert [Copy(0, 3)][1..] == [];
  }

  lemma {:induction false} CopyOntoSelf(buf: seq<byte>, at: nat, n: nat)
    requires at + n <= |buf|
    ensures CopyWithin(buf, at, at, n) == buf
    decreases n
  {
    if n > 0 {
      assert buf[at := buf[at]] == buf;
      CopyOntoSelf(buf, at + 1, n - 1);
    }
  }
}
