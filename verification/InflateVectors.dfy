/** The fixed code of RFC 1951 word by word, and what streams given byte by byte decode to. */
module InflateVectors {
  import opened Bits
  import opened Huffman
  import opened Lz77
  import opened Chunks
  import opened InflateSpec
  import opened InflateRun
  import opened InflateFormat
  import opened InflateBlocks
  import opened InflateStream

  // ---------------------------------------------------------------------------
  // The code words of the fixed code (the table in section 3.2.6).

  lemma {:induction false} CountAppend(a: seq<nat>, b: seq<nat>, n: nat)
    ensures Count(a + b, n) == Count(a, n) + Count(b, n)
  {
    if b == [] {
      assert a + b == a;
    } else {
      var k := |b| - 1;
      CountAppend(a, b[..k], n);
      assert (a + b)[..|a + b| - 1] == a + b[..k];
    }
  }

  lemma {:induction false} CountRepeat(v: nat, k: nat, n: nat)
    requires v <= MAX_BITS
    ensures Count(Repeat(v, k), n) == if v == n then k else 0
  {
    if k > 0 {
      assert Repeat(v, k)[..k - 1] == Repeat(v, k - 1);
      CountRepeat(v, k - 1, n);
    }
  }

  /** The literal and length code is four runs of equal lengths. */
  lemma FixedRuns()
    ensures StaticLengths()[..288] == Repeat(8, 144) + Repeat(9, 112) + Repeat(7, 24) + Repeat(8, 8)
    ensures StaticLengths()[288..] == Repeat(5, 32)
  {
    forall i | 0 <= i < 320
      ensures StaticLengths()[i] == (Repeat(8, 144) + Repeat(9, 112) + Repeat(7, 24) + Repeat(8, 8) + Repeat(5, 32))[i]
    {
      FixedLengths(i);
    }
  }

  lemma RunsCount(a: nat, b: nat, c: nat, d: nat, n: nat)
    ensures Count(Repeat(8, a) + Repeat(9, b) + Repeat(7, c) + Repeat(8, d), n) ==
            if n == 8 then a + d else if n == 9 then b else if n == 7 then c else 0
  {
    hide Count;
    CountRepeat(8, a, n);
    CountRepeat(9, b, n);
    CountRepeat(7, c, n);
    CountRepeat(8, d, n);
    CountAppend(Repeat(8, a), Repeat(9, b), n);
    CountAppend(Repeat(8, a) + Repeat(9, b), Repeat(7, c), n);
    CountAppend(Repeat(8, a) + Repeat(9, b) + Repeat(7, c), Repeat(8, d), n);
  }

  lemma {:induction false} NoShorter(l: seq<nat>, n: nat)
    requires forall b :: 0 < b < n ==> Count(l, b) == 0
    ensures FirstCode(l, n) == 0
  {
    hide Count;
    if n > 0 {
      NoShorter(l, n - 1);
    }
  }

  lemma FixedFirstCodes()
    ensures var lit := StaticLengths()[..288];
            FirstCode(lit, 7) == 0 && FirstCode(lit, 8) == 0x30 && FirstCode(lit, 9) == 0x190
    ensures FirstCode(StaticLengths()[288..], 5) == 0
  {
    hide Count, FirstCode, StaticLengths;
    FixedRuns();
    var lit, dist := StaticLengths()[..288], StaticLengths()[288..];
    forall b
      ensures Count(lit, b) == if b == 8 then 152 else if b == 9 then 112 else if b == 7 then 24 else 0
      ensures Count(dist, b) == if b == 5 then 32 else 0
    {
      RunsCount(144, 112, 24, 8, b);
      CountRepeat(5, 32, b);
    }
    NoShorter(lit, 7);
    NoShorter(dist, 5);
    NextFirst(lit, 7);
    NextFirst(lit, 8);
  }

  lemma NextFirst(l: seq<nat>, n: nat)
    requires n > 0
    ensures FirstCode(l, n + 1) == 2 * (FirstCode(l, n) + Count(l, n))
  {
  }

  /** The symbols of the same length that come before a symbol. */
  lemma FixedBefore(sym: nat)
    requires sym < 288
    ensures var lit := StaticLengths()[..288];
            Count(lit[..sym], lit[sym]) ==
            if sym < 144 then sym else if sym < 256 then sym - 144 else if sym < 280 then sym - 256 else sym - 136
  {
    hide Count, StaticLengths;
    FixedRuns();
    FixedLengths(sym);
    var lit := StaticLengths()[..288];
    var a, b := if sym < 144 then sym else 144, if sym < 144 then 0 else if sym < 256 then sym - 144 else 112;
    var c, d := if sym < 256 then 0 else if sym < 280 then sym - 256 else 24, if sym < 280 then 0 else sym - 280;
    assert lit[..sym] == Repeat(8, a) + Repeat(9, b) + Repeat(7, c) + Repeat(8, d);
    RunsCount(a, b, c, d, lit[sym]);
  }

  /** The words for literals and lengths. */
  lemma FixedWords(sym: nat)
    requires sym < 288
    ensures var lit := StaticLengths()[..288];
            CodeBits(lit, sym) == if sym < 144 then MsbBits(0x30 + sym, 8)
                                  else if sym < 256 then MsbBits(0x190 + (sym - 144), 9)
                                  else if sym < 280 then MsbBits(sym - 256, 7)
                                  else MsbBits(0xc0 + (sym - 280), 8)
  {
    hide Count, FirstCode, StaticLengths, MsbBits;
    FixedLengths(sym);
    FixedFirstCodes();
    FixedBefore(sym);
  }

  /** The words for distances. */
  lemma FixedDistanceWords(sym: nat)
    requires sym < 32
    ensures CodeBits(StaticLengths()[288..], sym) == MsbBits(sym, 5)
  {
    hide Count, FirstCode, StaticLengths, MsbBits;
    FixedLengths(288 + sym);
    FixedFirstCodes();
    FixedRuns();
    var dist := StaticLengths()[288..];
    assert dist[..sym] == Repeat(5, sym);
    CountRepeat(5, sym, 5);
  }

  // ---------------------------------------------------------------------------
  // A literal and a match in a fixed block: the bytes 4b 04 02 00 are "aaaa".

  const T := true
  const F := false

  const VECTOR: seq<byte> := [0x4b, 0x04, 0x02, 0x00]

  lemma VectorBits()
    ensures BytesBits(VECTOR) == [T, T, F, T, F, F, T, F] + [F, F, T, F, F, F, F, F] + [F, T, F, F, F, F, F, F] + [F, F, F, F, F, F, F, F]
  {
    hide ByteBits;
    ByteIs(0x4b, [T, T, F, T, F, F, T, F]);
    ByteIs(0x04, [F, F, T, F, F, F, F, F]);
    ByteIs(0x02, [F, T, F, F, F, F, F, F]);
    ByteIs(0x00, [F, F, F, F, F, F, F, F]);
    BytesOf(VECTOR);
    BytesOf(VECTOR[1..]);
    BytesOf(VECTOR[2..]);
    BytesOf(VECTOR[3..]);
    assert VECTOR[1..][1..] == VECTOR[2..] && VECTOR[2..][1..] == VECTOR[3..] && VECTOR[3..][1..] == [];
    assert BytesBits([]) == [];
  }

  lemma BytesOf(bytes: seq<byte>)
    requires bytes != []
    ensures BytesBits(bytes) == ByteBits(bytes[0]) + BytesBits(bytes[1..])
  {
  }

  /** The bits of a byte, from the least significant on. */
  lemma ByteIs(b: byte, s: BitString)
    requires |s| == 8
    requires b == Bit(s[0]) + 2 * Bit(s[1]) + 4 * Bit(s[2]) + 8 * Bit(s[3]) + 16 * Bit(s[4]) + 32 * Bit(s[5]) + 64 * Bit(s[6]) + 128 * Bit(s[7])
    ensures ByteBits(b) == s
  {
    hide Lsb, Bit, LsbBits;
    LsbFirst(s);
    LsbFirst(s[1..]);
    LsbFirst(s[2..]);
    LsbFirst(s[3..]);
    LsbFirst(s[4..]);
    LsbFirst(s[5..]);
    LsbFirst(s[6..]);
    LsbFirst(s[7..]);
    assert s[1..][1..] == s[2..] && s[2..][1..] == s[3..] && s[3..][1..] == s[4..] && s[4..][1..] == s[5..];
    assert s[5..][1..] == s[6..] && s[6..][1..] == s[7..] && s[7..][1..] == [];
    LsbInverse(s);
  }

  lemma LsbFirst(s: BitString)
    requires s != []
    ensures Lsb(s) == Bit(s[0]) + 2 * Lsb(s[1..]) && Lsb([]) == 0
  {
  }

  lemma {:induction false} LsbInverse(s: BitString)
    ensures LsbBits(Lsb(s), |s|) == s
  {
    if s != [] {
      LsbInverse(s[1..]);
      LsbFirst(s);
      assert Lsb(s) % 2 == Bit(s[0]) && Lsb(s) / 2 == Lsb(s[1..]);
      assert s == [s[0]] + s[1..];
    }
  }

  /** The words in use, and the value of the block header. */
  lemma VectorWords()
    ensures MsbBits(0x91, 8) == [T, F, F, T, F, F, F, T] && MsbBits(1, 7) == [F, F, F, F, F, F, T]
    ensures MsbBits(0, 5) == [F, F, F, F, F] && MsbBits(0, 7) == [F, F, F, F, F, F, F] && LsbBits(3, 3) == [T, T, F]
  {
    LetterWord();
    LengthWord();
    hide MsbBits;
  }

  lemma LetterWord()
    ensures MsbBits(0x91, 8) == [T, F, F, T, F, F, F, T]
  {
  }

  lemma LengthWord()
    ensures MsbBits(1, 7) == [F, F, F, F, F, F, T]
    ensures MsbBits(0, 5) == [F, F, F, F, F] && MsbBits(0, 7) == [F, F, F, F, F, F, F]
  {
  }

  const ELEMENTS: seq<Element> := [Lit(0x61), Match(257, 0, 0, 0)]

  /** One literal, then three bytes from one byte back. */
  lemma ElementsMean(lit: Lengths, dist: Lengths)
    requires |lit| > 257 && lit[0x61] > 0 && lit[257] > 0 && |dist| > 0 && dist[0] > 0
    ensures ValidElements(ELEMENTS, lit, dist, 0)
    ensures Meanings(ELEMENTS, lit, dist, 0) == [Literal(0x61), Copy(1, 3)]
    ensures ElementsBits(ELEMENTS, lit, dist, 0) == CodeBits(lit, 0x61) + CodeBits(lit, 257) + CodeBits(dist, 0)
  {
    hide CodeBits, ValidElement, Meaning, ElementBits;
    MatchIs(lit, dist);
    var rest := ELEMENTS[1..];
    assert rest == [Match(257, 0, 0, 0)] && rest[1..] == [];
    assert ValidElements(rest, lit, dist, 1) && Meanings(rest, lit, dist, 1) == [Copy(1, 3)];
    assert ElementsBits(rest, lit, dist, 1) == ElementBits(rest[0], lit, dist);
  }

  lemma MatchIs(lit: Lengths, dist: Lengths)
    requires |lit| > 257 && lit[0x61] > 0 && lit[257] > 0 && |dist| > 0 && dist[0] > 0
    ensures ValidElement(Lit(0x61), lit, dist, 0) && Meaning(Lit(0x61)) == Literal(0x61)
    ensures ElementBits(Lit(0x61), lit, dist) == CodeBits(lit, 0x61)
    ensures ValidElement(Match(257, 0, 0, 0), lit, dist, 1) && Meaning(Match(257, 0, 0, 0)) == Copy(1, 3)
    ensures ElementBits(Match(257, 0, 0, 0), lit, dist) == CodeBits(lit, 257) + CodeBits(dist, 0)
  {
    hide CodeBits, Pow2;
    SmallPowers();
  }

  const BLOCK: Block := Fixed(ELEMENTS)

  lemma BlockValid()
    ensures ValidCompressed(BLOCK, 0) && BlockTokens(BLOCK, 0, 0) == [Literal(0x61), Copy(1, 3)]
    ensures LitCode(BLOCK) == StaticLengths()[..288] && DistCode(BLOCK) == StaticLengths()[288..]
    ensures ElementsBits(ELEMENTS, LitCode(BLOCK), DistCode(BLOCK), 0) ==
            [T, F, F, T, F, F, F, T] + [F, F, F, F, F, F, T] + [F, F, F, F, F]
    ensures CodeBits(LitCode(BLOCK), 256) == [F, F, F, F, F, F, F]
  {
    hide Kraft, StaticLengths, ValidElements, Meanings, CodeBits, MsbBits, ElementsBits;
    FixedCodes();
    FixedLengths(0x61);
    FixedLengths(256);
    FixedLengths(257);
    FixedLengths(288);
    var lit, dist := LitCode(BLOCK), DistCode(BLOCK);
    assert lit == StaticLengths()[..288] && dist == StaticLengths()[288..];
    ElementsMean(lit, dist);
    FixedWords(0x61);
    FixedWords(256);
    FixedWords(257);
    FixedDistanceWords(0);
    VectorWords();
  }

  lemma StreamBits()
    ensures ValidBlocks([BLOCK], 0, 0) && BlocksTokens([BLOCK], 0, 0) == [Literal(0x61), Copy(1, 3)]
    ensures BytesBits(VECTOR) == BlocksBits([BLOCK], 0, 0) + [F, F]
  {
    hide ValidCompressed, ElementsBits, CodeBits, LitCode, DistCode, BytesBits, LsbBits, MsbBits, Meanings;
    BlockValid();
    VectorBits();
    VectorWords();
    assert BlocksBits([BLOCK], 0, 0) == BlockBits(BLOCK, true, 0, 0);
    assert HeaderBits(BLOCK, true) == [T, T, F];
    assert BlockBits(BLOCK, true, 0, 0) ==
           [T, T, F] + ([] + ([T, F, F, T, F, F, F, T] + [F, F, F, F, F, F, T] + [F, F, F, F, F] + [F, F, F, F, F, F, F]));
  }

  /** The stream ends, with two bits left over, and a buffer holds four times the letter. */
  lemma VectorDecoded(buf: seq<byte>)
    requires |buf| == 4
    ensures var r := Run(Raw, BlockHeader, BytesBits(VECTOR), 0);
            && r.status == Ended && r.tokens == [Literal(0x61), Copy(1, 3)] && r.offset == 4 && r.rest == [F, F]
            && WriteAll(buf, 0, r.tokens) == [0x61, 0x61, 0x61, 0x61]
  {
    hide Run, BlocksBits, BlocksTokens, ValidBlocks, BytesBits, WriteAll, InRange, TotalSize;
    StreamBits();
    RawRoundTrip([BLOCK], [F, F], 0);
    VectorWritten(buf);
  }

  lemma VectorWritten(buf: seq<byte>)
    requires |buf| == 4
    ensures var ts := [Literal(0x61), Copy(1, 3)];
            && TotalSize(ts) == 4 && InRange(ts, 0) && WriteAll(buf, 0, ts) == [0x61, 0x61, 0x61, 0x61]
  {
    var ts := [Literal(0x61), Copy(1, 3)];
    assert ts[1..] == [Copy(1, 3)] && ts[1..][1..] == [];
  }

  // ---------------------------------------------------------------------------
  // A stored block byte by byte: flags, length, its complement, the data.

  /** A 16-bit field is two bytes, the low one first. */
  lemma WordBits(v: nat)
    requires v < 0x10000
    ensures LsbBits(v, 16) == ByteBits(v % 256) + ByteBits(v / 256)
  {
    hide Lsb, LsbBits, Shl;
    var a, b := ByteBits(v % 256), ByteBits(v / 256);
    Powers();
    LsbRoundTrip(v % 256, 8);
    LsbRoundTrip(v / 256, 8);
    LsbAppend(a, b);
    ShlByEight(v / 256);
    LsbInverse(a + b);
  }

  lemma ShlByEight(x: nat)
    ensures Shl(x, 8) == 256 * x
  {
    ShlByFive(x);
    assert Shl(x, 6) == 2 * Shl(x, 5) && Shl(x, 7) == 2 * Shl(x, 6) && Shl(x, 8) == 2 * Shl(x, 7);
  }

  const PAD: BitString := [F, F, F, F, F]

  lemma FirstByte()
    ensures ByteBits(1) == LsbBits(1, 3) + PAD
  {
    ByteIs(1, [T, F, F, F, F, F, F, F]);
    LsbInverse([T, F, F]);
    LsbFirst([T, F, F]);
    hide ByteBits;
  }

  function StoredStream(bytes: seq<byte>): seq<byte>
    requires |bytes| < 0x10000
  {
    [1, |bytes| % 256, |bytes| / 256, 255 - |bytes| % 256, 255 - |bytes| / 256] + bytes
  }

  lemma StoredStreamBits(bytes: seq<byte>, h: BitString, pad: BitString, w: BitString, x: BitString)
    requires |bytes| < 0x10000 && ByteBits(1) == h + pad
    requires w == LsbBits(|bytes|, 16) && x == LsbBits(0xffff - |bytes|, 16)
    ensures BytesBits(StoredStream(bytes)) == h + (pad + (w + (x + BytesBits(bytes))))
  {
    hide ByteBits, LsbBits, BytesBits;
    var lo, hi := |bytes| % 256, |bytes| / 256;
    StoredFields(|bytes|, lo, hi);
    FiveBytes(1, lo, hi, 255 - lo, 255 - hi, bytes);
    Regroup(h, pad, ByteBits(lo), ByteBits(hi), ByteBits(255 - lo), ByteBits(255 - hi), BytesBits(bytes));
  }

  lemma StoredFields(n: nat, lo: byte, hi: byte)
    requires n < 0x10000 && lo == n % 256 && hi == n / 256
    ensures LsbBits(n, 16) == ByteBits(lo) + ByteBits(hi) && LsbBits(0xffff - n, 16) == ByteBits(255 - lo) + ByteBits(255 - hi)
  {
    hide ByteBits, LsbBits;
    WordBits(n);
    Complement(n);
    WordBits(0xffff - n);
  }

  lemma FiveBytes(a: byte, b: byte, c: byte, d: byte, e: byte, rest: seq<byte>)
    ensures BytesBits([a, b, c, d, e] + rest) ==
            ByteBits(a) + (ByteBits(b) + (ByteBits(c) + (ByteBits(d) + (ByteBits(e) + BytesBits(rest)))))
  {
    hide ByteBits, BytesBits;
    var s := [a, b, c, d, e] + rest;
    BytesOf(s);
    BytesOf(s[1..]);
    BytesOf(s[2..]);
    BytesOf(s[3..]);
    BytesOf(s[4..]);
    assert s[1..][1..] == s[2..] && s[2..][1..] == s[3..] && s[3..][1..] == s[4..] && s[4..][1..] == rest;
  }

  lemma Regroup(a: BitString, b: BitString, c: BitString, d: BitString, e: BitString, f: BitString, g: BitString)
    ensures (a + b) + (c + (d + (e + (f + g)))) == a + (b + ((c + d) + ((e + f) + g)))
  {
  }

  lemma Complement(n: nat)
    requires n < 0x10000
    ensures (0xffff - n) % 256 == 255 - n % 256 && (0xffff - n) / 256 == 255 - n / 256
  {
  }

  /** Every stored block is decoded to its data. */
  lemma StoredDecoded(bytes: seq<byte>)
    requires |bytes| < 0x10000
    ensures var r := Run(Raw, BlockHeader, BytesBits(StoredStream(bytes)), 0);
            && r.status == Ended && r.rest == [] && r.offset == |bytes|
            && |r.tokens| == |bytes| && forall i :: 0 <= i < |bytes| ==> r.tokens[i] == Literal(bytes[i])
  {
    hide Run, LsbBits, BytesBits, StoredStream, Literals;
    var b := Stored(PAD, bytes);
    FirstByte();
    StoredStreamBits(bytes, LsbBits(1, 3), PAD, LsbBits(|bytes|, 16), LsbBits(0xffff - |bytes|, 16));
    assert ValidBlocks([b], 0, 0) && BlocksTokens([b], 0, 0) == Literals(bytes);
    assert BlocksBits([b], 0, 0) == BlockBits(b, true, 0, 0);
    var all := BytesBits(StoredStream(bytes));
    assert all == BlocksBits([b], 0, 0) && all + [] == all;
    hide BlocksBits, BlocksTokens, ValidBlocks;
    RawRoundTrip([b], [], 0);
    LiteralsInRange(bytes, 0);
    LiteralsAt(bytes);
  }

  lemma {:induction false} LiteralsAt(bytes: seq<byte>)
    ensures forall i :: 0 <= i < |bytes| ==> Literals(bytes)[i] == Literal(bytes[i])
  {
    if bytes != [] {
      LiteralsAt(bytes[1..]);
    }
  }

  // ---------------------------------------------------------------------------
  // Block headers.

  /** The first bit says whether the block is the last, the next two what kind it is: there are three. */
  lemma BlockKinds(fmt: Format, final: bool, kind: nat, tail: BitString, offset: nat)
    requires kind < 4
    ensures Step(fmt, BlockHeader, LsbBits(Bit(final) + 2 * kind, 3) + tail, offset) ==
            if kind == 0 then Next(LiteralBlock(final), tail, [])
            else if kind == 1 then Next(StaticBlock(final), tail, [])
            else if kind == 2 then Next(DynamicHeader(final), tail, [])
            else Failed(NotSupported, tail)
  {
    Powers();
    FieldFront(Bit(final) + 2 * kind, 3, tail);
    hide LsbBits, Lsb;
  }

  /** The length of a stored block is accepted if and only if its complement follows. */
  lemma StoredLengthIff(fmt: Format, final: bool, len: nat, nlen: nat, tail: BitString, offset: nat)
    requires len < 0x1_0000 && nlen < 0x1_0000
    ensures Step(fmt, LiteralLen(final), LsbBits(len, 16) + tail, offset) == Next(LiteralNlen(final, len), tail, [])
    ensures Step(fmt, LiteralNlen(final, len), LsbBits(nlen, 16) + tail, offset) ==
            if len + nlen == 0xffff then Next(LiteralData(final, len), tail, []) else Failed(Invalid, tail)
  {
    Powers();
    FieldFront(len, 16, tail);
    FieldFront(nlen, 16, tail);
    hide LsbBits, Lsb, Pow2;
  }

  // ---------------------------------------------------------------------------
  // The ZLIB header, and the repeat codes of a dynamic block.

  /** The first byte must name compression method 8 and the second must not ask for a dictionary. */
  lemma ZlibHeaderBytes(cmf: byte, flg: byte, tail: BitString, offset: nat)
    ensures Step(Zlib, ZlibHeader, ByteBits(cmf) + ByteBits(flg) + tail, offset) ==
            if cmf % 16 == 8 && flg / 32 % 2 == 0 then Next(BlockHeader, tail, []) else Failed(NotSupported, tail)
  {
    hide LsbBits, Lsb, ByteBits;
    var h := cmf + 256 * flg;
    HeaderBytes(cmf, flg);
    WordBits(h);
    Powers();
    hide Pow2;
    LsbRoundTrip(h, 16);
    TakeFront(LsbBits(h, 16), tail);
  }

  lemma HeaderBytes(cmf: byte, flg: byte)
    ensures var h := cmf + 256 * flg;
            && h < 0x10000 && h % 256 == cmf && h / 256 == flg
            && h % 16 == cmf % 16 && h / 0x2000 % 2 == flg / 32 % 2
  {
    var h := cmf + 256 * flg;
    assert h / 0x2000 == flg / 32;
    assert h == 16 * (cmf / 16 + 16 * flg) + cmf % 16;
    RemainderUnique(h, cmf / 16 + 16 * flg, cmf % 16, 16);
  }

  /** Lengths are sent as such, repeated from the last (16) or as shorter and longer runs of zeros (17 and 18). */
  lemma RepeatCodes(lens: Lengths, last: nat, sym: nat, extra: nat)
    requires last < 16 && sym < 19
    ensures var r := ExpandItems([Item(sym, extra)], lens, last);
            && (sym < 16 ==> r == lens + [sym] && ItemExtraBits(sym) == 0)
            && (sym == 16 ==> r == lens + Repeat(last, 3 + extra) && ItemExtraBits(sym) == 2)
            && (sym == 17 ==> r == lens + Repeat(0, 3 + extra) && ItemExtraBits(sym) == 3)
            && (sym == 18 ==> r == lens + Repeat(0, 11 + extra) && ItemExtraBits(sym) == 7)
  {
    var items := [Item(sym, extra)];
    assert items[1..] == [];
    if sym < 16 {
      assert Repeat(sym, 1) == [sym];
    }
  }
}
