/**
 The resumable inflater: bit registers, packed code lengths, decoding tables and the
 computed jumps between labels, proved to follow the machine of `InflateSpec` over the
 bits it has buffered and the bits still in the input chunk.
 */
module Inflate {
  import opened Bits
  import opened Huffman
  import opened HuffmanTable
  import opened Lz77
  import opened Chunks
  import opened InflateSpec
  import opened InflateRun
  import opened InflateReach
  import opened Wrappers

  // ---------------------------------------------------------------------------
  // 32-bit registers, least significant bit first.

  type Word = w: BitString | |w| == 32 witness Zeros(32)

  function ShiftLeft(w: Word, n: nat): Word
    requires n < 32
  {
    Zeros(n) + w[..32 - n]
  }

  function ShiftRight(w: Word, n: nat): Word
    requires n < 32
  {
    w[n..] + Zeros(n)
  }

  function Or(a: Word, b: Word): (w: Word)
    ensures forall i :: 0 <= i < 32 ==> w[i] == (a[i] || b[i])
  {
    seq(32, i requires 0 <= i < 32 => a[i] || b[i])
  }

  function ByteWord(b: byte): Word {
    ByteBits(b) + Zeros(24)
  }

  /** The two registers hold n bits, mirrored, and zeros elsewhere. */
  predicate Mirrored(acc: Word, rev: Word, n: nat) {
    && n <= 32
    && rev == Reversed(acc)
    && forall i :: n <= i < 32 ==> !acc[i]
  }

  /** The byte whose bits are those of b in reverse order. */
  function ReverseByte(b: byte): (r: byte)
    ensures ByteBits(r) == Reversed(ByteBits(b))
  {
    var s := Reversed(ByteBits(b));
    Powers();
    LsbBitsOfLsb(s);
    Lsb(s)
  }

  lemma PushByte(acc: Word, rev: Word, n: nat, b: byte)
    requires Mirrored(acc, rev, n) && n <= 24
    ensures var acc' := Or(acc, ShiftLeft(ByteWord(b), n));
            var rev' := Or(rev, ShiftLeft(ByteWord(ReverseByte(b)), 24 - n));
            Mirrored(acc', rev', n + 8) && acc'[..n + 8] == acc[..n] + ByteBits(b)
  {
    var x, y := ShiftLeft(ByteWord(b), n), ShiftLeft(ByteWord(ReverseByte(b)), 24 - n);
    var acc', rev' := Or(acc, x), Or(rev, y);
    forall i | 0 <= i < 32
      ensures rev'[i] == acc'[31 - i]
    {
      assert y[i] == x[31 - i];
    }
    PushedBits(acc, n, b) by {
      assert forall i :: n <= i < 32 ==> !acc[i];
    }
  }

  lemma PushedBits(acc: Word, n: nat, b: byte)
    requires n <= 24 && forall i :: n <= i < 32 ==> !acc[i]
    ensures Or(acc, ShiftLeft(ByteWord(b), n))[..n + 8] == acc[..n] + ByteBits(b)
  {
    var x := ShiftLeft(ByteWord(b), n);
    var acc', s := Or(acc, x), acc[..n] + ByteBits(b);
    forall i | 0 <= i < n + 8
      ensures acc'[i] == s[i]
    {
      if i >= n {
        assert x[i] == ByteBits(b)[i - n];
      } else {
        assert !x[i];
      }
    }
  }

  lemma CopySize(distance: nat, len: nat)
    ensures TotalSize([Copy(distance, len)]) == len
  {
    assert [Copy(distance, len)][1..] == [];
  }

  lemma MoveByte(front: BitString, tail: seq<byte>)
    requires tail != []
    ensures front + BytesBits(tail) == (front + ByteBits(tail[0])) + BytesBits(tail[1..])
  {
  }

  lemma BoundaryBits(front: BitString, tail: seq<byte>)
    ensures |front + BytesBits(tail)| % 8 == |front| % 8
  {
  }

  lemma NoField(rest: BitString)
    ensures Lsb(rest[..0]) == 0 && rest[0..] == rest
  {
  }

  lemma LessSixteen(n: nat)
    ensures (n - 16) % 8 == n % 8
  {
  }

  lemma NoMoreBytes(tail: seq<byte>)
    requires tail == []
    ensures BytesBits(tail) == []
  {
  }

  lemma DropFront(front: BitString, tail: BitString, n: nat)
    requires n <= |front|
    ensures (front + tail)[..n] == front[..n] && (front + tail)[n..] == front[n..] + tail
  {
  }

  /** Fifteen buffered bits, or all the bits there are, decide the next symbol. */
  lemma DecodeBuffered(l: CompleteCode, front: BitString, tail: seq<byte>)
    requires |front| >= MAX_BITS || tail == []
    ensures Decode(l, front + BytesBits(tail)) == Decode(l, front)
  {
    if |front| >= MAX_BITS {
      DecodeProgress(l, front);
      DecodeExtends(l, front, BytesBits(tail));
    } else {
      assert front + BytesBits(tail) == front;
    }
  }

  lemma PopBits(acc: Word, rev: Word, n: nat, count: nat)
    requires Mirrored(acc, rev, n) && count <= n && count < 32
    ensures Mirrored(ShiftRight(acc, count), ShiftLeft(rev, count), n - count)
    ensures ShiftRight(acc, count)[..n - count] == acc[..n][count..]
  {
  }

  /** The top half of the mirrored register is the decoding window. */
  lemma MirroredWindow(acc: Word, rev: Word, n: nat)
    requires Mirrored(acc, rev, n)
    ensures Lsb(rev[16..]) == Window(acc[..n])
  {
    var s := acc[..n];
    assert (s + Zeros(16))[..16] == acc[..16];
    assert rev[16..] == Reversed(acc[..16]);
    MsbIsLsbReversed(acc[..16]);
  }

  // ---------------------------------------------------------------------------
  // Code length tables.

  /** A cleared table. */
  method Cleared() returns (packed: seq<byte>)
    ensures |packed| == 160
    ensures forall i: nat :: i < 320 ==> Nibble(packed, i) == 0
    ensures forall i :: 0 <= i < 19 ==> CodelenLengths([])[i] == 0
  {
    packed := seq(160, i => 0);
  }

  lemma PackedPair(packed: seq<byte>)
    requires |packed| == 160 && packed[0] == 0x11
    ensures Nibbles(packed, 0, 2) == PairCode()
  {
  }

  lemma LengthExtraFormula(k: nat)
    requires k < 28
    ensures LengthExtra(k) == if k / 4 == 0 then 0 else k / 4 - 1
  {
  }

  lemma DistanceTable(k: nat)
    requires k < 32
    ensures DistanceExtraBits(k) == if k / 2 == 0 then 0 else k / 2 - 1
    ensures (DISTANCE_BASE + [0, 0])[k] == DistanceBase(k)
  {
  }

  lemma LiteralToken(bytes: seq<byte>, offset: nat)
    requires |bytes| == 1
    ensures Literals(bytes) == [Literal(bytes[0])] && TotalSize(Literals(bytes)) == 1
  {
    LiteralsInRange(bytes, offset);
  }

  /** The packed code lengths of the fixed code, as five runs of equal bytes. */
  method StaticFill() returns (packed: seq<byte>)
    ensures |packed| == 160
    ensures forall i: nat :: i < 144 ==> Nibble(packed, i) == 8
    ensures forall i: nat :: 144 <= i < 256 ==> Nibble(packed, i) == 9
    ensures forall i: nat :: 256 <= i < 280 ==> Nibble(packed, i) == 7
    ensures forall i: nat :: 280 <= i < 288 ==> Nibble(packed, i) == 8
    ensures forall i: nat :: 288 <= i < 320 ==> Nibble(packed, i) == 5
    ensures forall i: nat :: i < 320 ==> Nibble(packed, i) == StaticLengths()[i]
  {
    packed := seq(72, i => 0x88) + seq(56, i => 0x99) + seq(12, i => 0x77) + seq(4, i => 0x88) + seq(16, i => 0x55);
  }

  // ---------------------------------------------------------------------------
  // Global tables.

  function Zeroed(n: nat): (s: seq<byte>)
    ensures |s| == n
  {
    seq(n, i => 0)
  }

  /** The byte reversal table, bit by bit. */
  method ReverseTable() returns (t: seq<byte>)
    ensures |t| == 256 && forall i :: 0 <= i < 256 ==> t[i] == ReverseByte(i)
  {
    t := Zeroed(256);
    var i := 255;
    while i > 0
      invariant 0 <= i <= 255 && |t| == 256 && t[0] == 0
      invariant forall k :: i < k < 256 ==> t[k] == ReverseByte(k)
    {
      var b: nat := 0;
      Powers();
      for k := 0 to 8
        invariant b == Msb(ByteBits(i)[..k])
      {
        assert ByteBits(i)[..k + 1][..k] == ByteBits(i)[..k];
        b := 2 * b + Bit(ByteBits(i)[k]);
      }
      assert ByteBits(i)[..8] == ByteBits(i);
      MsbIsLsbReversed(ByteBits(i));
      t := t[i := b];
      i := i - 1;
    }
    ReverseZero();
  }

  lemma ReverseZero()
    ensures ReverseByte(0) == 0
  {
    var s := ByteBits(0);
    assert s == Zeros(8) by {
      forall n: nat
        ensures LsbBits(0, n) == Zeros(n)
      {
        LsbBitsZero(n);
      }
    }
    MsbZeros(8);
    MsbIsLsbReversed(s);
  }

  lemma {:induction false} LsbBitsZero(n: nat)
    ensures LsbBits(0, n) == Zeros(n)
  {
    if n > 0 {
      LsbBitsZero(n - 1);
    }
  }

  /** The base length table, by accumulating the sizes of the earlier codes. */
  method LengthTable() returns (t: seq<nat>)
    ensures t == LENGTH_BASE
  {
    t := [];
    var base := 3;
    for i := 0 to 28
      invariant t == LENGTH_BASE[..i]
      invariant base == if i < 28 then LENGTH_BASE[i] else 259
    {
      var n := i / 4;
      if n > 0 {
        n := n - 1;
      }
      LengthStep(i);
      t := t + [base];
      base := base + Shl(1, n);
    }
  }

  lemma LengthStep(i: nat)
    requires i < 28
    ensures LENGTH_BASE[i] + Shl(1, if i / 4 == 0 then 0 else i / 4 - 1) == if i < 27 then LENGTH_BASE[i + 1] else 259
  {
    Powers();
    assert Shl(1, 1) == 2;
  }

  /** The base distance table; codes 30 and 31 stay zero. */
  method DistanceBaseTable() returns (t: seq<nat>)
    ensures t == DISTANCE_BASE + [0, 0]
  {
    t := [];
    var base := 1;
    for i := 0 to 30
      invariant t == DISTANCE_BASE[..i]
      invariant base == if i < 30 then DISTANCE_BASE[i] else 32769
    {
      var n := i / 2;
      if n > 0 {
        n := n - 1;
      }
      DistanceStep(i);
      t := t + [base];
      base := base + Shl(1, n);
    }
    t := t + [0, 0];
  }

  lemma DistanceStep(i: nat)
    requires i < 30
    ensures DISTANCE_BASE[i] + Shl(1, if i / 2 == 0 then 0 else i / 2 - 1) == if i < 29 then DISTANCE_BASE[i + 1] else 32769
  {
    Powers();
    assert Shl(1, 1) == 2 && Shl(1, 6) == 64 && Shl(1, 9) == 512;
    assert Shl(1, 10) == 1024 && Shl(1, 11) == 2048 && Shl(1, 12) == 4096 && Shl(1, 13) == 8192;
  }

  // ---------------------------------------------------------------------------
  // Labels.

  datatype Label =
    | zlib_header | block_header | literal_block | literal_len | literal_nlen | literal_data | static_block
    | dynamic_header | dynamic_codelen | dynamic_litlen_distance | dynamic_litlen_distance_extra
    | construct_alphabets | lzhuf_litlen | lzhuf_litlen_extra | lzhuf_distance | lzhuf_distance_extra
    | block_done | zlib_footer | zlib_adler32 | finished

  function LabelOf(st: State): Label {
    match st
    case ZlibHeader => zlib_header
    case BlockHeader => block_header
    case LiteralBlock(_) => literal_block
    case LiteralLen(_) => literal_len
    case LiteralNlen(_, _) => literal_nlen
    case LiteralData(_, _) => literal_data
    case StaticBlock(_) => static_block
    case DynamicHeader(_) => dynamic_header
    case DynamicCodelen(_, _, _, _, _) => dynamic_codelen
    case DynamicSymbol(_, _, _, _, _, _) => dynamic_litlen_distance
    case DynamicExtra(_, _, _, _, _, _, _, _) => dynamic_litlen_distance_extra
    case Construct(_, _, _, _) => construct_alphabets
    case Litlen(_, _, _) => lzhuf_litlen
    case LitlenExtra(_, _, _, _, _) => lzhuf_litlen_extra
    case Distance(_, _, _, _) => lzhuf_distance
    case DistanceExtra(_, _, _, _, _, _) => lzhuf_distance_extra
    case BlockDone(_) => block_done
    case ZlibFooter => zlib_footer
    case ZlibAdler32 => zlib_adler32
    case Done => finished
  }

  /** Where control goes after a label. */
  datatype Jump = Goto(target: Label) | Return | Fail(error: InflateSpec.Error)

  class Inflater {
    const format: Format
    /** Label to resume at; none before the first call and once finished. */
    var resume: Option<Label>

    var accumulator: Word
    /** Bit-reversed accumulator. */
    var rotalumucca: Word
    var bits: nat

    /** Current block header. */
    var header: nat
    /** Remaining length of data within a literal block. */
    var remaining: nat
    var lengthIndex: nat
    var lengthTarget: nat
    /** Current length within a set of code lengths. */
    var length: nat
    var extraBits: nat
    var dupLen: nat
    var dupDistance: nat

    var litlen: Alphabet
    var litlenCount: nat
    /** Distance alphabet, also used for the code length alphabet. */
    var distanceCodelen: Alphabet
    var distanceCount: nat
    /** Code lengths, packed two to a byte. */
    var lengths: seq<byte>

    const reverse: seq<byte>
    const lengthBase: seq<nat>
    const distanceBase: seq<nat>

    /** Initialises the decompressor and its tables. */
    constructor (format: Format)
      ensures Valid() && this.format == format && model == Done && bits == 0
    {
      var rev := ReverseTable();
      var lens := LengthTable();
      var dists := DistanceBaseTable();
      this.format := format;
      resume := None;
      accumulator, rotalumucca, bits := Zeros(32), Zeros(32), 0;
      header, remaining, lengthIndex, lengthTarget, length := 0, 0, 0, 0, 0;
      extraBits, dupLen, dupDistance, litlenCount, distanceCount := 0, 0, 0, 0, 0;
      litlen, distanceCodelen := Alphabet([], [], []), Alphabet([], [], []);
      lengths := Zeroed(160);
      reverse, lengthBase, distanceBase := rev, lens, dists;
      model := Done;
    }

    // -------------------------------------------------------------------------
    // Bit buffering.

    ghost predicate Buffered()
      reads `accumulator, `rotalumucca, `bits
    {
      bits <= 32 && Mirrored(accumulator, rotalumucca, bits)
    }

    ghost predicate TablesOk() {
      && |reverse| == 256 && (forall i :: 0 <= i < 256 ==> reverse[i] == ReverseByte(i))
      && lengthBase == LENGTH_BASE
      && distanceBase == DISTANCE_BASE + [0, 0]
    }

    /** The bits still to be decoded: those buffered, then those left in the chunk. */
    ghost function Rest(input: Chunk): BitString
      requires bits <= 32 && input.Readable()
      reads `accumulator, `bits, input, input.data
    {
      accumulator[..bits] + BytesBits(input.data[input.offset..input.len])
    }

    /** Moves one byte from the input to the registers. */
    method AddByte(input: Chunk)
      requires Buffered() && TablesOk() && input.Readable() && input.offset < input.len && bits <= 24
      modifies this`accumulator, this`rotalumucca, this`bits, input`offset
      ensures Buffered() && input.Readable()
      ensures Rest(input) == old(Rest(input))
      ensures bits == old(bits) + 8 && input.offset == old(input.offset) + 1
    {
      var b := input.data[input.offset];
      PushByte(accumulator, rotalumucca, bits, b);
      MoveByte(accumulator[..bits], input.data[input.offset..input.len]);
      assert input.data[input.offset..input.len][1..] == input.data[input.offset + 1..input.len];
      input.offset := input.offset + 1;
      hide *;
      accumulator := Or(accumulator, ShiftLeft(ByteWord(b), bits));
      rotalumucca := Or(rotalumucca, ShiftLeft(ByteWord(reverse[b]), 24 - bits));
      bits := bits + 8;
    }

    /** Accumulates bytes until `target` bits are buffered or the input runs out. */
    method Accumulate(input: Chunk, target: nat) returns (excess: int)
      requires Buffered() && TablesOk() && input.Readable()
      requires target <= 16 || (target == 32 && bits % 8 == 0)
      modifies this`accumulator, this`rotalumucca, this`bits, input`offset
      ensures Buffered() && input.Readable()
      ensures Rest(input) == old(Rest(input))
      ensures excess == bits - target
      ensures excess < 0 ==> input.offset == input.len
      ensures bits % 8 == old(bits) % 8
      ensures if old(bits) >= target then bits == old(bits) else old(bits) <= bits < target + 8
    {
      hide Mirrored, BytesBits;
      while bits < target
        modifies this`accumulator, this`rotalumucca, this`bits, input`offset
        invariant Buffered() && input.Readable()
        invariant Rest(input) == old(Rest(input))
        invariant bits % 8 == old(bits) % 8
        invariant if old(bits) >= target then bits == old(bits) else old(bits) <= bits < target + 8
        decreases input.len - input.offset
      {
        if input.offset >= input.len {
          break;
        }
        AddByte(input);
      }
      excess := bits - target;
    }

    /** Consumes buffered bits. */
    method Consume(count: nat, ghost input: Chunk) returns (data: nat)
      requires Buffered() && input.Readable() && count <= bits && count < 32
      modifies this`accumulator, this`rotalumucca, this`bits
      ensures Buffered()
      ensures bits == old(bits) - count
      ensures count <= |old(Rest(input))| && data == Lsb(old(Rest(input))[..count])
      ensures Rest(input) == old(Rest(input))[count..]
    {
      PopBits(accumulator, rotalumucca, bits, count);
      DropFront(accumulator[..bits], BytesBits(input.data[input.offset..input.len]), count);
      assert accumulator[..count] == accumulator[..bits][..count];
      hide *;
      data := Lsb(accumulator[..count]);
      accumulator := ShiftRight(accumulator, count);
      rotalumucca := ShiftLeft(rotalumucca, count);
      bits := bits - count;
    }

    /** Extracts a field, or returns a negative number when the input is too short. */
    method Extract(input: Chunk, target: nat) returns (data: int)
      requires Buffered() && TablesOk() && input.Readable() && target <= 16
      modifies this`accumulator, this`rotalumucca, this`bits, input`offset
      ensures Buffered() && input.Readable()
      ensures |old(Rest(input))| < target <==> data < 0
      ensures data < 0 ==> Rest(input) == old(Rest(input)) && input.offset == input.len && bits < target
      ensures data >= 0 ==> data == Lsb(old(Rest(input))[..target]) && Rest(input) == old(Rest(input))[target..]
      ensures data >= 0 ==> bits == old(bits) - target || (old(bits) < target && bits < 8)
      ensures target == 16 ==> bits % 8 == old(bits) % 8
    {
      hide Mirrored, BytesBits, Lsb;
      if target == 0 {
        NoField(Rest(input));
        return 0;
      }
      var excess := Accumulate(input, target);
      if excess < 0 {
        NoMoreBytes(input.data[input.offset..input.len]);
        return excess;
      }
      LessSixteen(bits);
      data := Consume(target, input);
    }

    /** Decodes a Huffman-coded symbol, or returns a negative number when none is complete. */
    method DecodeSymbol(input: Chunk, alphabet: Alphabet, ghost l: CompleteCode) returns (code: int)
      requires Buffered() && TablesOk() && input.Readable() && bits <= 22
      requires Represents(alphabet, l)
      modifies this`accumulator, this`rotalumucca, this`bits, input`offset
      ensures Buffered() && input.Readable() && bits <= 22
      ensures Decode(l, old(Rest(input))).None? <==> code < 0
      ensures code < 0 ==> Rest(input) == old(Rest(input)) && input.offset == input.len
      ensures code >= 0 ==>
                && Decode(l, old(Rest(input))) == Some(code)
                && code < |l| && l[code] <= |old(Rest(input))|
                && Rest(input) == old(Rest(input))[l[code]..]
    {
      hide Mirrored, BytesBits, Decode, Kraft, Lsb, Represents, Band;
      var _ := Accumulate(input, MAX_BITS);
      ghost var all := Rest(input);
      ghost var front := accumulator[..bits];
      MirroredWindow(accumulator, rotalumucca, bits);
      var huf := Lsb(rotalumucca[16..]);
      var index := FindSet(alphabet, huf, l);
      SetBits(alphabet, l, index);
      DecodeByBand(l, front, index + 1);
      DecodeBuffered(l, front, input.data[input.offset..input.len]);
      var excess := bits - alphabet.huf[index].bits;
      if excess < 0 {
        return excess;
      }
      var _ := Consume(alphabet.huf[index].bits, input);
      var raw := RawSymbol(alphabet, huf, index, l);
      code := raw;
    }

    // -------------------------------------------------------------------------
    // How the fields represent a state of the machine.

    predicate IsFinal(final: bool)
      reads `header
    {
      (header % 2 == 1) == final
    }

    /** The packed table holds l, followed by zeros. */
    ghost predicate LengthsAre(l: Lengths)
      reads `lengths
    {
      && |lengths| == 160
      && |l| <= 320
      && forall i: nat :: i < 320 ==> Nibble(lengths, i) == if i < |l| then l[i] else 0
    }

    predicate CountsAre(final: bool, nlit: nat, ndist: nat)
      reads `header, `litlenCount, `distanceCount
    {
      IsFinal(final) && litlenCount == nlit && distanceCount == ndist
    }

    ghost predicate ModelsDynamic(st: State)
      reads `header, `litlenCount, `distanceCount, `lengthTarget, `lengthIndex, `lengths, `length, `distanceCodelen, `dupLen,
            `extraBits
    {
      match st
      case DynamicCodelen(final, nlit, ndist, target, got) =>
        && CountsAre(final, nlit, ndist) && lengthTarget == target && lengthIndex == |got|
        && |got| <= 19 && (forall i :: 0 <= i < |got| ==> got[i] < 8) && LengthsAre(CodelenLengths(got))
      case DynamicSymbol(final, nlit, ndist, code, lens, last) =>
        && CountsAre(final, nlit, ndist) && lengthTarget == nlit + ndist && lengthIndex == |lens|
        && LengthsAre(lens) && length == last && Represents(distanceCodelen, code)
      case DynamicExtra(final, nlit, ndist, code, lens, last, dup, extra) =>
        && CountsAre(final, nlit, ndist) && lengthTarget == nlit + ndist && lengthIndex == |lens|
        && LengthsAre(lens) && length == last && Represents(distanceCodelen, code) && dupLen == dup && extraBits == extra
      case Construct(final, nlit, ndist, lens) => CountsAre(final, nlit, ndist) && LengthsAre(lens)
      case _ => true
    }

    ghost predicate ModelsLz(st: State)
      reads `header, `litlen, `distanceCodelen, `dupLen, `dupDistance, `extraBits
    {
      match st
      case Litlen(final, lit, dist) => IsFinal(final) && Represents(litlen, lit) && Represents(distanceCodelen, dist)
      case LitlenExtra(final, lit, dist, base, extra) =>
        IsFinal(final) && Represents(litlen, lit) && Represents(distanceCodelen, dist) && dupLen == base && extraBits == extra
      case Distance(final, lit, dist, len) =>
        IsFinal(final) && Represents(litlen, lit) && Represents(distanceCodelen, dist) && dupLen == len
      case DistanceExtra(final, lit, dist, len, base, extra) =>
        && IsFinal(final) && Represents(litlen, lit) && Represents(distanceCodelen, dist) && dupLen == len
        && dupDistance == base && extraBits == extra
      case _ => true
    }

    ghost predicate ModelsBlock(st: State)
      reads `header, `remaining
    {
      match st
      case LiteralBlock(final) => IsFinal(final)
      case LiteralLen(final) => IsFinal(final)
      case LiteralNlen(final, len) => IsFinal(final) && remaining == len
      case LiteralData(final, rem) => IsFinal(final) && remaining == rem
      case StaticBlock(final) => IsFinal(final)
      case DynamicHeader(final) => IsFinal(final)
      case BlockDone(final) => IsFinal(final)
      case _ => true
    }

    /** How many bits each label may find buffered. */
    ghost predicate BufferFits(st: State)
      reads `bits
    {
      && bits <= (if st.ZlibHeader? || st.ZlibAdler32? || (st.Done? && format == Zlib) then 32 else 22)
      && (st.LiteralLen? || st.LiteralNlen? ==> bits <= 16 && bits % 8 == 0)
      && (st.LiteralData? ==> bits == 0)
      && (st.ZlibAdler32? ==> bits % 8 == 0)
      && (st.ZlibHeader? || st.ZlibFooter? || st.ZlibAdler32? ==> format == Zlib)
    }

    ghost predicate Models(st: State)
      reads `bits, `remaining, `litlen, `dupDistance, `header, `litlenCount, `distanceCount, `lengthTarget, `lengthIndex, `lengths, `length, `distanceCodelen, `dupLen,
            `extraBits
    {
      Wf(st) && ModelsBlock(st) && ModelsDynamic(st) && ModelsLz(st) && BufferFits(st)
    }

    ghost predicate Ready(st: State, input: Chunk, out: Chunk)
      reads `accumulator, `rotalumucca, `bits, `remaining, `litlen, `dupDistance, `header, `litlenCount, `distanceCount, `lengthTarget, `lengthIndex, `lengths, `length, `distanceCodelen, `dupLen,
            `extraBits,
            input
    {
      && Buffered() && TablesOk() && |lengths| == 160 && Models(st)
      && input.Readable() && out.Writable() && input != out && input.data != out.data
    }

    ghost function Look(input: Chunk, out: Chunk): View
      requires Buffered() && input.Readable()
      reads `accumulator, `rotalumucca, `bits, input, input.data, out, out.data
    {
      View(Rest(input), out.offset, out.data[..])
    }

    /** The registers, tables and chunks have followed one step of the machine. */
    ghost predicate Took(st: State, before: View, j: Jump, input: Chunk, out: Chunk)
      requires Wf(st)
      reads this, input, input.data, out, out.data
    {
      && Buffered() && input.Readable()
      && match Step(format, st, before.rest, before.offset)
         case Next(st', rest', emit) =>
           && j == Goto(LabelOf(st')) && Ready(st', input, out)
           && Look(input, out) == View(rest', before.offset + TotalSize(emit), WriteAll(before.data, before.offset, emit))
         case Blocked =>
           && j == Return && Ready(st, input, out) && Look(input, out) == before
           && resume == Some(LabelOf(st)) && input.offset == input.len
         case Finished => j == Return && Ready(st, input, out) && Look(input, out) == before && resume == None
         case Failed(e, rest') => j == Fail(e) && Look(input, out) == before.(rest := rest')
    }

    // -------------------------------------------------------------------------
    // Labels.

    method AtZlibHeader(input: Chunk, ghost out: Chunk) returns (j: Jump)
      requires Ready(ZlibHeader, input, out)
      modifies this, input`offset
      ensures Took(ZlibHeader, old(Look(input, out)), j, input, out)
      ensures !j.Return? ==> resume == old(resume)
    {
      hide Mirrored, BytesBits, Lsb, Represents, CodelenLengths, TablesOk, Decode, Kraft;
      hide StepLiteral, StepDynamicHeader, StepCodelen, StepDynamicSymbol, StepConstruct, StepLitlen, StepDistance, StepExtra;
      var h := Extract(input, 16);
      if h < 0 {
        resume := Some(zlib_header);
        return Return;
      }
      if h % 16 != 8 {
        return Fail(NotSupported);
      }
      if (h / 0x2000) % 2 == 1 {
        return Fail(NotSupported);
      }
      j := Goto(block_header);
    }

    method AtBlockHeader(input: Chunk, ghost out: Chunk) returns (j: Jump)
      requires Ready(BlockHeader, input, out)
      modifies this, input`offset
      ensures Took(BlockHeader, old(Look(input, out)), j, input, out)
      ensures !j.Return? ==> resume == old(resume)
    {
      hide Mirrored, BytesBits, Lsb, Represents, CodelenLengths, TablesOk, Decode, Kraft;
      hide StepLiteral, StepDynamicHeader, StepCodelen, StepDynamicSymbol, StepConstruct, StepLitlen, StepDistance, StepExtra;
      var h := Extract(input, 3);
      if h < 0 {
        resume := Some(block_header);
        return Return;
      }
      header := h;
      var btype := h / 2;
      if btype == 0 {
        j := Goto(literal_block);
      } else if btype == 1 {
        j := Goto(static_block);
      } else if btype == 2 {
        j := Goto(dynamic_header);
      } else {
        j := Fail(NotSupported);
      }
    }

    method AtLiteralBlock(ghost st: State, input: Chunk, ghost out: Chunk) returns (j: Jump)
      requires st.LiteralBlock? && Ready(st, input, out)
      modifies this, input`offset
      ensures Took(st, old(Look(input, out)), j, input, out)
      ensures !j.Return? ==> resume == old(resume)
    {
      hide Mirrored, BytesBits, Lsb, Represents, CodelenLengths, TablesOk, Decode, Kraft;
      hide Step, StepOk;
      LiteralBlockStep(format, st, Rest(input), out.offset);
      BoundaryBits(accumulator[..bits], input.data[input.offset..input.len]);
      var _ := Consume(bits % 8, input);
      j := Goto(literal_len);
    }

    method AtLiteralLen(ghost st: State, input: Chunk, ghost out: Chunk) returns (j: Jump)
      requires st.LiteralLen? && Ready(st, input, out)
      modifies this, input`offset
      ensures Took(st, old(Look(input, out)), j, input, out)
      ensures !j.Return? ==> resume == old(resume)
    {
      hide Mirrored, BytesBits, Lsb, Represents, CodelenLengths, TablesOk, Decode, Kraft;
      hide StepDynamicHeader, StepCodelen, StepDynamicSymbol, StepConstruct, StepLitlen, StepDistance, StepExtra, StepBlock;
      Powers();
      var len := Extract(input, 16);
      if len < 0 {
        resume := Some(literal_len);
        return Return;
      }
      remaining := len;
      j := Goto(literal_nlen);
    }

    method AtLiteralNlen(ghost st: State, input: Chunk, ghost out: Chunk) returns (j: Jump)
      requires st.LiteralNlen? && Ready(st, input, out)
      modifies this, input`offset
      ensures Took(st, old(Look(input, out)), j, input, out)
      ensures !j.Return? ==> resume == old(resume)
    {
      hide Mirrored, BytesBits, Lsb, Represents, CodelenLengths, TablesOk, Decode, Kraft;
      hide StepDynamicHeader, StepCodelen, StepDynamicSymbol, StepConstruct, StepLitlen, StepDistance, StepExtra, StepBlock;
      Powers();
      var nlen := Extract(input, 16);
      if nlen < 0 {
        resume := Some(literal_nlen);
        return Return;
      }
      // The complement of a 16-bit field is its difference from 0xffff.
      if remaining != 0xffff - nlen {
        return Fail(Invalid);
      }
      j := Goto(literal_data);
    }

    method AtStaticBlock(ghost st: State, input: Chunk, ghost out: Chunk) returns (j: Jump)
      requires st.StaticBlock? && Ready(st, input, out)
      modifies this, input`offset
      ensures Took(st, old(Look(input, out)), j, input, out)
      ensures !j.Return? ==> resume == old(resume)
    {
      hide Mirrored, BytesBits, Lsb, Represents, CodelenLengths, TablesOk, Decode, Kraft;
      hide StepLiteral, StepDynamicHeader, StepCodelen, StepDynamicSymbol, StepConstruct, StepLitlen, StepDistance, StepExtra;
      lengths := StaticFill();
      litlenCount := 288;
      distanceCount := 32;
      j := Goto(construct_alphabets);
    }

    /** Unpacks the counts of a dynamic block and clears the code lengths. */
    method PrepareCodelen(h: nat)
      modifies this`litlenCount, this`distanceCount, this`lengthIndex, this`lengthTarget, this`lengths
      ensures litlenCount == NumLit(h) && distanceCount == NumDist(h)
      ensures lengthIndex == 0 && lengthTarget == NumCodelen(h) && LengthsAre(CodelenLengths([]))
    {
      litlenCount := h % 32 + 257;
      distanceCount := h / 32 % 32 + 1;
      lengthIndex := 0;
      lengthTarget := h / 1024 + 4;
      lengths := Cleared();
    }

    method AtDynamicHeader(ghost st: State, input: Chunk, ghost out: Chunk) returns (j: Jump)
      requires st.DynamicHeader? && Ready(st, input, out)
      modifies this, input`offset
      ensures Took(st, old(Look(input, out)), j, input, out)
      ensures !j.Return? ==> resume == old(resume)
    {
      hide Mirrored, BytesBits, Lsb, Represents, CodelenLengths, TablesOk, Decode, Kraft;
      hide StepLiteral, StepCodelen, StepDynamicSymbol, StepConstruct, StepLitlen, StepDistance, StepExtra, StepBlock;
      hide LengthsAre, NumLit, NumDist, NumCodelen;
      var h := Extract(input, 14);
      if h < 0 {
        resume := Some(dynamic_header);
        return Return;
      }
      assert Step(format, st, old(Rest(input)), old(out.offset))
          == Next(DynamicCodelen(st.final, NumLit(h), NumDist(h), NumCodelen(h), []), Rest(input), []);
      hide Step;
      PrepareCodelen(h);
      j := Goto(dynamic_codelen);
    }

    method AtBlockDone(ghost st: State, input: Chunk, ghost out: Chunk) returns (j: Jump)
      requires st.BlockDone? && Ready(st, input, out)
      modifies this, input`offset
      ensures Took(st, old(Look(input, out)), j, input, out)
      ensures !j.Return? ==> resume == old(resume)
    {
      hide Mirrored, BytesBits, Lsb, Represents, CodelenLengths, TablesOk, Decode, Kraft;
      hide StepLiteral, StepDynamicHeader, StepCodelen, StepDynamicSymbol, StepConstruct, StepLitlen, StepDistance, StepExtra;
      if header % 2 == 0 {
        return Goto(block_header);
      }
      match format
      case Raw => j := Goto(finished);
      case Zlib => j := Goto(zlib_footer);
    }

    method AtZlibFooter(input: Chunk, ghost out: Chunk) returns (j: Jump)
      requires Ready(ZlibFooter, input, out)
      modifies this, input`offset
      ensures Took(ZlibFooter, old(Look(input, out)), j, input, out)
      ensures !j.Return? ==> resume == old(resume)
    {
      hide Mirrored, BytesBits, Lsb, Represents, CodelenLengths, TablesOk, Decode, Kraft;
      hide StepLiteral, StepDynamicHeader, StepCodelen, StepDynamicSymbol, StepConstruct, StepLitlen, StepDistance, StepExtra;
      BoundaryBits(accumulator[..bits], input.data[input.offset..input.len]);
      var _ := Consume(bits % 8, input);
      j := Goto(zlib_adler32);
    }

    method AtZlibAdler32(input: Chunk, ghost out: Chunk) returns (j: Jump)
      requires Ready(ZlibAdler32, input, out)
      modifies this, input`offset
      ensures Took(ZlibAdler32, old(Look(input, out)), j, input, out)
      ensures !j.Return? ==> resume == old(resume)
    {
      hide Mirrored, BytesBits, Lsb, Represents, CodelenLengths, TablesOk, Decode, Kraft;
      hide StepLiteral, StepDynamicHeader, StepCodelen, StepDynamicSymbol, StepConstruct, StepLitlen, StepDistance, StepExtra;
      var excess := Accumulate(input, 32);
      if excess < 0 {
        NoMoreBytes(input.data[input.offset..input.len]);
        resume := Some(zlib_adler32);
        return Return;
      }
      j := Goto(finished);
    }

    method AtFinished(input: Chunk, ghost out: Chunk) returns (j: Jump)
      requires Ready(Done, input, out)
      modifies this, input`offset
      ensures Took(Done, old(Look(input, out)), j, input, out)
      ensures !j.Return? ==> resume == old(resume)
    {
      hide Mirrored, BytesBits, Lsb, Represents, CodelenLengths, TablesOk, Decode, Kraft;
      hide StepLiteral, StepDynamicHeader, StepCodelen, StepDynamicSymbol, StepConstruct, StepLitlen, StepDistance, StepExtra;
      resume := None;
      j := Return;
    }

    /** Stores a code length code length. */
    method StoreCodelen(len: nat, ghost got: seq<nat>)
      requires |got| < 19 && (forall i :: 0 <= i < |got| ==> got[i] < 8) && len < 8
      requires lengthIndex == |got| && LengthsAre(CodelenLengths(got))
      modifies `lengthIndex, `lengths
      ensures |lengths| == 160 && lengthIndex == |got| + 1 && LengthsAre(CodelenLengths(got + [len]))
    {
      hide MapAt;
      CodelenAt(got, lengthIndex);
      assert (got + [len])[..|got|] == got;
      var index := MapAt(lengthIndex);
      lengthIndex := lengthIndex + 1;
      lengths := SetLength(lengths, index, len);
    }

    lemma PackedCodelens(got: seq<nat>)
      requires |got| <= 19 && (forall i :: 0 <= i < |got| ==> got[i] < 8) && LengthsAre(CodelenLengths(got))
      ensures |lengths| == 160 && Nibbles(lengths, 0, 19) == CodelenLengths(got)
    {
    }

    /** Builds the code length alphabet and prepares to decode the code lengths proper. */
    method BuildCodelen(ghost got: seq<nat>) returns (ok: bool)
      requires |got| <= 19 && (forall i :: 0 <= i < |got| ==> got[i] < 8) && LengthsAre(CodelenLengths(got))
      modifies `distanceCodelen, `lengths, `lengthIndex, `lengthTarget, `length
      ensures |lengths| == 160
      ensures ok <==> Complete(CodelenLengths(got))
      ensures ok ==> Represents(distanceCodelen, CodelenLengths(got))
      ensures ok ==> lengthIndex == 0 && lengthTarget == litlenCount + distanceCount && length == 0 && LengthsAre([])
    {
      PackedCodelens(got);
      hide Represents, Complete, Nibbles, CodelenLengths;
      var alphabet;
      ok, alphabet := HuffmanTable.Construct(lengths, 19, 0);
      distanceCodelen := alphabet;
      if !ok {
        return;
      }
      lengths := Cleared();
      lengthIndex := 0;
      lengthTarget := litlenCount + distanceCount;
      length := 0;
    }

    /** Reads one more code length code length. */
    method ReadCodelen(ghost st: State, input: Chunk, ghost out: Chunk) returns (j: Jump)
      requires st.DynamicCodelen? && Ready(st, input, out) && |st.got| < st.target
      modifies this, input`offset
      ensures Took(st, old(Look(input, out)), j, input, out)
      ensures !j.Return? ==> resume == old(resume)
    {
      hide Mirrored, BytesBits, Lsb, Represents, CodelenLengths, TablesOk, LengthsAre, Step, StepOk;
      CodelenFieldStep(format, st, Rest(input), out.offset);
      var len := Extract(input, 3);
      if len < 0 {
        resume := Some(dynamic_codelen);
        return Return;
      }
      StoreCodelen(len, st.got);
      return Goto(dynamic_codelen);
    }

    method AtDynamicCodelen(ghost st: State, input: Chunk, ghost out: Chunk) returns (j: Jump)
      requires st.DynamicCodelen? && Ready(st, input, out)
      modifies this, input`offset
      ensures Took(st, old(Look(input, out)), j, input, out)
      ensures !j.Return? ==> resume == old(resume)
    {
      hide Mirrored, BytesBits, Lsb, Represents, CodelenLengths, TablesOk, Decode, Kraft;
      hide StepLiteral, StepDynamicHeader, StepDynamicSymbol, StepConstruct, StepLitlen, StepDistance, StepExtra, StepBlock;
      hide LengthsAre, Complete;
      if lengthIndex < lengthTarget {
        j := ReadCodelen(st, input, out);
        return;
      }
      ghost var o := Step(format, st, old(Rest(input)), old(out.offset));
      assert if Complete(CodelenLengths(st.got))
        then o == Next(DynamicSymbol(st.final, st.nlit, st.ndist, CodelenLengths(st.got), [], 0), Rest(input), [])
        else o == Failed(Invalid, Rest(input));
      hide Step;
      var ok := BuildCodelen(st.got);
      if !ok {
        return Fail(Invalid);
      }
      j := Goto(dynamic_litlen_distance);
    }

    /** Notes how a code length symbol is to be repeated. */
    method ApplyCodelen(sym: nat, ghost st: State)
      requires sym < 19 && st.DynamicSymbol? && ModelsDynamic(st)
      modifies `length, `extraBits, `dupLen
      ensures ModelsDynamic(CodelenSymbol(st, sym))
    {
      hide LengthsAre, Represents;
      if sym < 16 {
        length := sym;
        extraBits := 0;
        dupLen := 1;
      } else {
        var index := sym - 16;
        dupLen := [3, 3, 11][index];
        extraBits := [2, 3, 7][index];
        if index != 0 {
          length := 0;
        }
      }
    }

    method AtDynamicSymbol(ghost st: State, input: Chunk, ghost out: Chunk) returns (j: Jump)
      requires st.DynamicSymbol? && Ready(st, input, out)
      modifies this, input`offset
      ensures Took(st, old(Look(input, out)), j, input, out)
      ensures !j.Return? ==> resume == old(resume)
    {
      hide Mirrored, BytesBits, Lsb, Represents, CodelenLengths, TablesOk, Decode, Kraft;
      hide StepLiteral, StepDynamicHeader, StepCodelen, StepConstruct, StepLitlen, StepDistance, StepExtra, StepBlock;
      hide LengthsAre;
      var sym := DecodeSymbol(input, distanceCodelen, st.code);
      if sym < 0 {
        resume := Some(dynamic_litlen_distance);
        return Return;
      }
      ghost var st' := CodelenSymbol(st, sym);
      assert Step(format, st, old(Rest(input)), old(out.offset)) == Next(st', Rest(input), []);
      assert Wf(st') && st'.DynamicExtra?;
      hide Step, CodelenSymbol, Wf;
      ApplyCodelen(sym, st);
      j := Goto(dynamic_litlen_distance_extra);
    }

    /** Stores a run of equal code lengths, stopping once all have been received. */
    method StoreRun(count: nat, ghost lens: Lengths)
      requires lengthIndex == |lens| <= lengthTarget <= 320 && LengthsAre(lens) && length < 16
      modifies `lengthIndex, `lengths
      ensures var run := Repeat(length, Min(count, lengthTarget - |lens|));
              lengthIndex == |lens + run| && LengthsAre(lens + run)
    {
      var dup := count;
      while lengthIndex < lengthTarget && dup > 0
        modifies `lengthIndex, `lengths
        invariant 0 <= dup <= count && |lens| <= lengthIndex <= lengthTarget
        invariant lengthIndex == |lens| + (count - dup)
        invariant LengthsAre(lens + Repeat(length, count - dup))
        decreases dup
      {
        dup := dup - 1;
        lengths := SetLength(lengths, lengthIndex, length);
        lengthIndex := lengthIndex + 1;
      }
      assert count - dup == Min(count, lengthTarget - |lens|);
    }

    method AtDynamicExtra(ghost st: State, input: Chunk, ghost out: Chunk) returns (j: Jump)
      requires st.DynamicExtra? && Ready(st, input, out)
      modifies this, input`offset
      ensures Took(st, old(Look(input, out)), j, input, out)
      ensures !j.Return? ==> resume == old(resume)
    {
      hide Mirrored, BytesBits, Lsb, Represents, CodelenLengths, TablesOk, Decode, Kraft;
      hide StepLiteral, StepDynamicHeader, StepCodelen, StepDynamicSymbol, StepConstruct, StepLitlen, StepDistance, StepBlock;
      hide LengthsAre;
      var extra := Extract(input, extraBits);
      if extra < 0 {
        resume := Some(dynamic_litlen_distance_extra);
        return Return;
      }
      StoreRun(dupLen + extra, st.lens);
      if lengthIndex < lengthTarget {
        return Goto(dynamic_litlen_distance);
      }
      j := Goto(construct_alphabets);
    }

    lemma PackedLengths(lens: Lengths, offset: nat, count: nat)
      requires LengthsAre(lens) && offset + count <= |lens|
      ensures |lengths| == 160 && Nibbles(lengths, offset, count) == lens[offset..offset + count]
    {
    }

    /** Builds both alphabets of a block; a lone distance code is replaced by a pair. */
    method BuildAlphabets(ghost lens: Lengths) returns (ok: bool)
      requires LengthsAre(lens) && |lens| == litlenCount + distanceCount <= 320 && distanceCount >= 1
      modifies `litlen, `distanceCodelen, `lengths
      ensures |lengths| == 160
      ensures ok <==> Complete(lens[..litlenCount]) && Complete(DistanceLengths(litlenCount, distanceCount, lens))
      ensures ok ==> Represents(litlen, lens[..litlenCount])
      ensures ok ==> Represents(distanceCodelen, DistanceLengths(litlenCount, distanceCount, lens))
    {
      hide LengthsAre, Nibbles, Complete, Represents;
      var distanceOffset, count := litlenCount, distanceCount;
      PackedLengths(lens, 0, litlenCount);
      PackedLengths(lens, litlenCount, distanceCount);
      var alphabet;
      ok, alphabet := HuffmanTable.Construct(lengths, litlenCount, 0);
      litlen := alphabet;
      if !ok {
        return;
      }
      if distanceCount == 1 {
        lengths := lengths[0 := 0x11];
        PackedPair(lengths);
        distanceOffset, count := 0, 2;
      }
      ok, alphabet := HuffmanTable.Construct(lengths, count, distanceOffset);
      distanceCodelen := alphabet;
    }

    method AtConstruct(ghost st: State, input: Chunk, ghost out: Chunk) returns (j: Jump)
      requires st.Construct? && Ready(st, input, out)
      modifies this, input`offset
      ensures Took(st, old(Look(input, out)), j, input, out)
      ensures !j.Return? ==> resume == old(resume)
    {
      hide Mirrored, BytesBits, Lsb, Represents, CodelenLengths, TablesOk, Decode, Kraft;
      hide StepLiteral, StepDynamicHeader, StepCodelen, StepDynamicSymbol, StepLitlen, StepDistance, StepExtra, StepBlock;
      hide LengthsAre, Complete, DistanceLengths;
      var ok := BuildAlphabets(st.lens);
      if !ok {
        return Fail(Invalid);
      }
      j := Goto(lzhuf_litlen);
    }

    /** Looks up a length code. */
    method LookUpLength(extra: nat)
      requires TablesOk()
      modifies `extraBits, `dupLen
      ensures extraBits == LengthExtra(extra) && dupLen == LengthBase(extra)
    {
      if extra < 28 {
        LengthExtraFormula(extra);
        var n := extra / 4;
        if n > 0 {
          n := n - 1;
        }
        extraBits := n;
        dupLen := lengthBase[extra];
      } else {
        extraBits := 0;
        dupLen := 258;
      }
    }

    /** Writes one literal byte. */
    method EmitLiteral(value: byte, out: Chunk)
      requires out.Writable()
      modifies out`offset, out.data
      ensures InRange([Literal(value)], old(out.offset)) && out.offset == old(out.offset) + TotalSize([Literal(value)])
      ensures out.data[..] == WriteAll(old(out.data[..]), old(out.offset), [Literal(value)])
    {
      var literal := new byte[1];
      literal[0] := value;
      LiteralToken(literal[0..1], out.offset);
      CopyOut(out, literal, 0, 1);
    }

    /** Acts on a literal/length symbol. */
    method ApplyLitlen(code: nat, ghost st: State, out: Chunk, ghost rest: BitString) returns (j: Jump)
      requires st.Litlen? && ModelsLz(st) && TablesOk() && out.Writable()
      modifies `extraBits, `dupLen, out`offset, out.data
      ensures var o := LitlenSymbol(st, code, rest);
              && j == Goto(LabelOf(o.st)) && ModelsLz(o.st) && ModelsBlock(o.st)
              && InRange(o.emit, old(out.offset))
              && out.offset == old(out.offset) + TotalSize(o.emit)
              && out.data[..] == WriteAll(old(out.data[..]), old(out.offset), o.emit)
    {
      hide Represents, TablesOk, LengthBase, LengthExtra;
      if code < 256 {
        EmitLiteral(code, out);
        return Goto(lzhuf_litlen);
      } else if code == 256 {
        return Goto(block_done);
      }
      LookUpLength(code - 257);
      j := Goto(lzhuf_litlen_extra);
    }

    method AtLitlen(ghost st: State, input: Chunk, out: Chunk) returns (j: Jump)
      requires st.Litlen? && Ready(st, input, out)
      modifies this, input`offset, out`offset, out.data
      ensures Took(st, old(Look(input, out)), j, input, out)
      ensures !j.Return? ==> resume == old(resume)
    {
      hide Mirrored, BytesBits, Lsb, Represents, CodelenLengths, TablesOk, Decode, Kraft;
      hide StepLiteral, StepDynamicHeader, StepCodelen, StepDynamicSymbol, StepConstruct, StepDistance, StepExtra, StepBlock;
      var code := DecodeSymbol(input, litlen, st.lit);
      if code < 0 {
        resume := Some(lzhuf_litlen);
        return Return;
      }
      ghost var o := LitlenSymbol(st, code, Rest(input));
      assert Step(format, st, old(Rest(input)), old(out.offset)) == o;
      assert o.Next? && Wf(o.st) && o.rest == Rest(input) && (o.st.Litlen? || o.st.BlockDone? || o.st.LitlenExtra?);
      hide Step, LitlenSymbol, Wf;
      j := ApplyLitlen(code, st, out, Rest(input));
    }

    /** Between the symbols of a match no other fields matter. */
    lemma OnlyLz(st: State)
      requires st.LitlenExtra? || st.Distance? || st.DistanceExtra? || st.Litlen?
      ensures ModelsBlock(st) && ModelsDynamic(st)
    {
    }

    method AtLitlenExtra(ghost st: State, input: Chunk, ghost out: Chunk) returns (j: Jump)
      requires st.LitlenExtra? && Ready(st, input, out)
      modifies this, input`offset
      ensures Took(st, old(Look(input, out)), j, input, out)
      ensures !j.Return? ==> resume == old(resume)
    {
      hide Mirrored, BytesBits, Lsb, Represents, CodelenLengths, TablesOk, Decode, Kraft;
      hide Step, StepOk, IsFinal, ModelsBlock, ModelsDynamic;
      OnlyLz(st);
      LitlenExtraStep(format, st, Rest(input), out.offset);
      var extra := Extract(input, extraBits);
      if extra < 0 {
        resume := Some(lzhuf_litlen_extra);
        return Return;
      }
      dupLen := dupLen + extra;
      OnlyLz(Distance(st.final, st.lit, st.dist, dupLen));
      j := Goto(lzhuf_distance);
    }

    /** Looks up a distance code. */
    method LookUpDistance(code: nat)
      requires TablesOk() && code < 32
      modifies `extraBits, `dupDistance
      ensures extraBits == DistanceExtraBits(code) && dupDistance == DistanceBase(code)
    {
      DistanceTable(code);
      var n := code / 2;
      if n > 0 {
        n := n - 1;
      }
      extraBits := n;
      dupDistance := distanceBase[code];
    }

    method AtDistance(ghost st: State, input: Chunk, ghost out: Chunk) returns (j: Jump)
      requires st.Distance? && Ready(st, input, out)
      modifies this, input`offset
      ensures Took(st, old(Look(input, out)), j, input, out)
      ensures !j.Return? ==> resume == old(resume)
    {
      hide Mirrored, BytesBits, Lsb, Represents, CodelenLengths, TablesOk, Decode, Kraft;
      hide Step, StepOk, DistanceBase, DistanceExtraBits, IsFinal, ModelsBlock, ModelsDynamic;
      OnlyLz(st);
      DistanceSymbolStep(format, st, Rest(input), out.offset);
      var code := DecodeSymbol(input, distanceCodelen, st.dist);
      if code < 0 {
        resume := Some(lzhuf_distance);
        return Return;
      }
      LookUpDistance(code);
      OnlyLz(DistanceExtra(st.final, st.lit, st.dist, st.length, dupDistance, extraBits));
      j := Goto(lzhuf_distance_extra);
    }

    lemma LzLabels(st: State, next: State)
      requires st.DistanceExtra? && next.Litlen?
      ensures LabelOf(st) == lzhuf_distance_extra && LabelOf(next) == lzhuf_litlen
    {
    }

    method AtDistanceExtra(ghost st: State, input: Chunk, out: Chunk) returns (j: Jump)
      requires st.DistanceExtra? && Ready(st, input, out)
      modifies this, input`offset, out`offset, out.data
      ensures Took(st, old(Look(input, out)), j, input, out)
      ensures !j.Return? ==> resume == old(resume)
    {
      hide Mirrored, BytesBits, Lsb, Represents, CodelenLengths, TablesOk, Decode, Kraft;
      hide Step, StepOk, WriteAll, InRange, TotalSize, LabelOf, IsFinal, ModelsBlock, ModelsDynamic;
      OnlyLz(st);
      MatchStep(format, st, Rest(input), out.offset);
      LzLabels(st, Litlen(st.final, st.lit, st.dist));
      var extra := Extract(input, extraBits);
      if extra < 0 {
        resume := Some(lzhuf_distance_extra);
        return Return;
      }
      var distance := dupDistance + extra;
      if distance > out.offset {
        return Fail(Invalid);
      }
      CopySize(distance, dupLen);
      CopyOut(out, out.data, out.offset - distance, dupLen);
      OnlyLz(Litlen(st.final, st.lit, st.dist));
      j := Goto(lzhuf_litlen);
    }

    /** Copies as much literal data as the block and the input allow. */
    method AtLiteralData(ghost st: State, input: Chunk, out: Chunk)
      returns (j: Jump, ghost st': State, ghost bytes: seq<byte>)
      requires st.LiteralData? && Ready(st, input, out)
      modifies this, input`offset, out`offset, out.data
      ensures Buffered() && input.Readable() && Ready(st', input, out)
      ensures |bytes| <= st.remaining && st' == LiteralData(st.final, st.remaining - |bytes|)
      ensures InRange(Literals(bytes), old(out.offset))
      ensures old(Rest(input)) == BytesBits(bytes) + Rest(input)
      ensures out.offset == old(out.offset) + |bytes|
      ensures out.data[..] == WriteAll(old(out.data[..]), old(out.offset), Literals(bytes))
      ensures if st'.remaining > 0
                then j == Return && resume == Some(literal_data) && input.offset == input.len
                else j == Goto(block_done) && resume == old(resume)
    {
      hide Mirrored, BytesBits, TablesOk, WriteAll, InRange, TotalSize, Literals, Represents, LengthsAre, CountsAre, CodelenLengths;
      var inRemaining := input.len - input.offset;
      var len := remaining;
      if len > inRemaining {
        len := inRemaining;
      }
      bytes := input.data[input.offset..input.offset + len];
      st' := LiteralData(st.final, st.remaining - |bytes|);
      assert input.data[input.offset..input.len] == bytes + input.data[input.offset + len..input.len];
      BytesBitsAppend(bytes, input.data[input.offset + len..input.len]);
      assert accumulator[..bits] == [];
      LiteralsInRange(bytes, out.offset);
      CopyOut(out, input.data, input.offset, len);
      input.offset := input.offset + len;
      remaining := remaining - len;
      if remaining > 0 {
        resume := Some(literal_data);
        return Return, st', bytes;
      }
      j := Goto(block_done);
    }

    // -------------------------------------------------------------------------
    // The whole call.

    /** The state reached in the stream, between calls. */
    ghost var model: State

    ghost predicate Valid()
      reads this
    {
      && Buffered() && TablesOk() && |lengths| == 160 && Models(model)
      && resume == if model.Done? then None else Some(LabelOf(model))
    }

    /** A call that starts a new stream finds the buffer as a header may find it. */
    lemma EntryModels()
      requires Valid()
      ensures Models(Entry(format, model)) && Wf(Entry(format, model))
      ensures resume.None? <==> model.Done?
      ensures resume.Some? ==> resume.value == LabelOf(Entry(format, model))
      ensures resume.None? ==> LabelOf(Entry(format, model)) == if format == Raw then block_header else zlib_header
    {
    }

    /** What running a label achieves: the machine moves on, and so do registers and chunks. */
    ghost predicate Moved(st: State, before: View, j: Jump, st': State, emit: seq<Token>, input: Chunk, out: Chunk)
      reads this, input, input.data, out, out.data
    {
      && Wf(st) && Buffered() && input.Readable()
      && match j
         case Goto(target) =>
           && Ready(st', input, out) && target == LabelOf(st')
           && Reaches(format, st, before, st', emit, Look(input, out)) && Smaller(st', Look(input, out), st, before)
         case Return =>
           && Ready(st', input, out) && Reaches(format, st, before, st', emit, Look(input, out))
           && (if st'.Done? then resume == None
               else Step(format, st', Rest(input), out.offset).Blocked? && resume == Some(LabelOf(st'))
                    && input.offset == input.len)
         case Fail(e) =>
           && Step(format, st, before.rest, before.offset) == Failed(e, Rest(input))
           && Look(input, out) == before.(rest := Rest(input))
    }

    /** One step of the machine moves it on. */
    lemma TookMoved(st: State, before: View, j: Jump, input: Chunk, out: Chunk) returns (st': State, emit: seq<Token>)
      requires Wf(st) && Took(st, before, j, input, out)
      ensures Moved(st, before, j, st', emit, input, out)
    {
      hide Step, Wf, Rank, InRange, TotalSize, WriteAll, Mirrored, TablesOk, Models, Run, BytesBits, Reaches;
      var o := Step(format, st, before.rest, before.offset);
      if o.Finished? {
        FinishedIsDone(format, st, before.rest, before.offset);
      } else if o.Blocked? {
        BlockedIsNotDone(format, st, before.rest, before.offset);
      }
      if o.Next? {
        st', emit := o.st, o.emit;
        ReachesStep(format, st, before);
      } else {
        st', emit := st, [];
        ReachesSelf(format, st, before);
      }
    }

    /** Jumps to a label. */
    method Dispatch(ghost st: State, target: Label, input: Chunk, out: Chunk)
      returns (j: Jump, ghost st': State, ghost emit: seq<Token>)
      requires target == LabelOf(st) && Ready(st, input, out)
      modifies this, input`offset, out`offset, out.data
      ensures Moved(st, old(Look(input, out)), j, st', emit, input, out)
      ensures !j.Return? ==> resume == old(resume)
    {
      assert Wf(st);
      hide Step, Wf, Rank, InRange, TotalSize, WriteAll, Mirrored, TablesOk, Models, Run, BytesBits, Took, Moved;
      ghost var before := Look(input, out);
      match target {
        case zlib_header => j := AtZlibHeader(input, out);
        case block_header => j := AtBlockHeader(input, out);
        case literal_block => j := AtLiteralBlock(st, input, out);
        case literal_len => j := AtLiteralLen(st, input, out);
        case literal_nlen => j := AtLiteralNlen(st, input, out);
        case literal_data =>
          j, st', emit := RunLiteralData(st, input, out);
          return;
        case static_block => j := AtStaticBlock(st, input, out);
        case dynamic_header => j := AtDynamicHeader(st, input, out);
        case dynamic_codelen => j := AtDynamicCodelen(st, input, out);
        case dynamic_litlen_distance => j := AtDynamicSymbol(st, input, out);
        case dynamic_litlen_distance_extra => j := AtDynamicExtra(st, input, out);
        case construct_alphabets => j := AtConstruct(st, input, out);
        case lzhuf_litlen => j := AtLitlen(st, input, out);
        case lzhuf_litlen_extra => j := AtLitlenExtra(st, input, out);
        case lzhuf_distance => j := AtDistance(st, input, out);
        case lzhuf_distance_extra => j := AtDistanceExtra(st, input, out);
        case block_done => j := AtBlockDone(st, input, out);
        case zlib_footer => j := AtZlibFooter(input, out);
        case zlib_adler32 => j := AtZlibAdler32(input, out);
        case finished => j := AtFinished(input, out);
      }
      st', emit := TookMoved(st, before, j, input, out);
    }

    method RunLiteralData(ghost st: State, input: Chunk, out: Chunk)
      returns (j: Jump, ghost st': State, ghost emit: seq<Token>)
      requires st.LiteralData? && Ready(st, input, out)
      modifies this, input`offset, out`offset, out.data
      ensures Moved(st, old(Look(input, out)), j, st', emit, input, out)
      ensures !j.Return? ==> resume == old(resume)
    {
      hide Mirrored, TablesOk, BytesBits, WriteAll, InRange, TotalSize, Run;
      ghost var before := Look(input, out);
      ghost var bytes;
      j, st', bytes := AtLiteralData(st, input, out);
      emit := Literals(bytes);
      ghost var mid := Look(input, out);
      ReachesLiterals(format, st, bytes, before, mid);
      if st'.remaining > 0 {
        NoMoreBytes(input.data[input.offset..input.len]);
      } else {
        ReachesDone(format, st, before, emit, mid, st.final);
        st' := BlockDone(st.final);
      }
    }

    /** Runs labels until the call returns. */
    method RunLabels(ghost st0: State, start: Label, input: Chunk, out: Chunk)
      returns (rc: Option<InflateSpec.Error>, ghost st': State)
      requires Buffered() && input.Readable() && Wf(st0)
      requires start == LabelOf(st0) && Ready(st0, input, out)
      modifies this, input`offset, out`offset, out.data
      ensures input.Readable() && Buffered()
      ensures var r := old(Run(format, st0, Rest(input), out.offset));
              && out.offset == r.offset
              && out.data[..] == WriteAll(old(out.data[..]), old(out.offset), r.tokens)
              && Rest(input) == r.rest
              && rc == (if r.status.Error? then Some(r.status.error) else None)
              && (r.status.Error? ==> resume == old(resume))
              && (!r.status.Error? ==> Ready(st', input, out) && st' == r.st)
              && (r.status.Waiting? ==> !st'.Done? && resume == Some(LabelOf(st')) && input.offset == input.len)
              && (r.status.Ended? ==> st'.Done? && resume == None)
    {
      hide Mirrored, TablesOk, BytesBits, WriteAll, InRange, TotalSize, Run, Step, Wf, Rank, Reaches, Ready, LabelOf;
      var target := start;
      ghost var st, emitted := st0, [];
      ghost var view0 := Look(input, out);
      ReachesSelf(format, st, view0);
      while true
        invariant Buffered() && input.Readable()
        invariant Ready(st, input, out) && target == LabelOf(st)
        invariant resume == old(resume)
        invariant Reaches(format, st0, view0, st, emitted, Look(input, out))
        decreases |Rest(input)|, Rank(st)
      {
        ghost var view := Look(input, out);
        var j, next, emit := Dispatch(st, target, input, out);
        match j {
          case Goto(label_) =>
            ReachesTrans(format, st0, view0, st, emitted, view, next, emit, Look(input, out));
            st, emitted, target := next, emitted + emit, label_;
          case Return =>
            ReachesTrans(format, st0, view0, st, emitted, view, next, emit, Look(input, out));
            ReachesStop(format, st0, view0, next, emitted + emit, Look(input, out));
            return None, next;
          case Fail(e) =>
            ReachesFail(format, st0, view0, st, emitted, view);
            return Some(e), st;
        }
      }
    }

    /** Where a call starts: at the resumption point, or at the start of the format. */
    method EntryLabel() returns (target: Label)
      requires Valid()
      ensures target == LabelOf(Entry(format, model))
    {
      EntryModels();
      hide *;
      if resume.Some? {
        return resume.value;
      }
      match format
      case Raw => return block_header;
      case Zlib => return zlib_header;
    }

    /**
     Inflates a chunk of input.  The call does exactly what the machine does on the bits
     buffered so far followed by those of the chunk: it ends with the same status, state,
     output and unread bits.
     */
    method Inflate(input: Chunk, out: Chunk) returns (rc: Option<InflateSpec.Error>)
      requires Valid() && input.Readable() && out.Writable() && input != out && input.data != out.data
      modifies this, input`offset, out`offset, out.data
      ensures input.Readable() && Buffered()
      ensures var r := old(Run(format, Entry(format, model), Rest(input), out.offset));
              && out.offset == r.offset
              && out.data[..] == WriteAll(old(out.data[..]), old(out.offset), r.tokens)
              && Rest(input) == r.rest
              && rc == (if r.status.Error? then Some(r.status.error) else None)
              && (r.status.Error? ==> resume == old(resume))
              && (!r.status.Error? ==> Valid() && model == r.st)
              && (r.status.Waiting? ==> !model.Done? && input.offset == input.len)
              && (r.status.Ended? ==> model.Done?)
    {
      EntryModels();
      hide Mirrored, TablesOk, BytesBits, WriteAll, InRange, TotalSize, Run, Step, Wf, Rank, Models, LabelOf, Entry, Rest;
      ghost var st := Entry(format, model);
      var target := EntryLabel();
      rc, st := RunLabels(st, target, input, out);
      if rc.None? {
        model := st;
      }
    }
  }
}
