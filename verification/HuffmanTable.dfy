/**
 Huffman decoding tables: symbol sets by code length, the raw symbol table and the
 quick lookup table, with their construction from packed code lengths.
 */
module HuffmanTable {
  import opened Bits
  import opened Huffman

  /** Quick lookup length (in bits). */
  const QL_BITS: nat := 7

  /** Quick lookup shift. */
  const QL_SHIFT: nat := 16 - QL_BITS

  /** The symbols of one code length; `raw` is an offset into the raw symbol table. */
  datatype HufSymbols = HufSymbols(bits: nat, shift: nat, freq: nat, start: nat, raw: int)

  datatype Alphabet = Alphabet(huf: seq<HufSymbols>, lookup: seq<nat>, raw: seq<nat>)

  // ---------------------------------------------------------------------------
  // Code lengths, packed two to a byte.

  function Nibble(packed: seq<byte>, index: nat): (n: nat)
    requires index < 2 * |packed|
    ensures n <= MAX_BITS
  {
    if index % 2 == 0 then packed[index / 2] % 16 else packed[index / 2] / 16
  }

  function Nibbles(packed: seq<byte>, offset: nat, count: nat): (l: Lengths)
    requires offset + count <= 2 * |packed|
    ensures |l| == count
    ensures forall i :: 0 <= i < count ==> l[i] == Nibble(packed, offset + i)
  {
    if count == 0 then [] else Nibbles(packed, offset, count - 1) + [Nibble(packed, offset + count - 1)]
  }

  /** Sets a code length; the caller has cleared the table beforehand. */
  method SetLength(packed: seq<byte>, index: nat, bits: nat) returns (updated: seq<byte>)
    requires index < 2 * |packed| && bits <= MAX_BITS
    requires Nibble(packed, index) == 0
    ensures |updated| == |packed|
    ensures Nibble(updated, index) == bits
    ensures forall i: nat :: i < 2 * |packed| && i != index ==> Nibble(updated, i) == Nibble(packed, i)
  {
    // The nibble is clear, so or-ing the length in is adding it.
    var shifted := if index % 2 == 0 then bits else 16 * bits;
    updated := packed[index / 2 := packed[index / 2] + shifted];
  }

  // ---------------------------------------------------------------------------
  // What the tables mean.

  /** Number of symbols with code lengths 1 to b - 1. */
  function CumFreq(l: seq<nat>, b: nat): nat {
    if b <= 1 then 0 else CumFreq(l, b - 1) + Count(l, b - 1)
  }

  /** Position of a symbol in the raw table: ordered by length, then by symbol. */
  function Slot(l: seq<nat>, sym: nat): nat
    requires sym < |l|
  {
    CumFreq(l, l[sym]) + Count(l[..sym], l[sym])
  }

  predicate RawOk(l: seq<nat>, raw: seq<nat>, n: nat)
    requires n <= |l|
  {
    forall j :: 0 <= j < n && l[j] > 0 ==> Slot(l, j) < |raw| && raw[Slot(l, j)] == j
  }

  /** Each lookup entry is the longest of the first n lengths starting at or before it. */
  predicate LookupOk(l: seq<nat>, lookup: seq<nat>, n: nat)
    requires n <= MAX_BITS
  {
    && |lookup| == 0x80
    && forall p :: 0 <= p < 0x80 ==>
         && lookup[p] < n
         && Shr(Start(l, lookup[p] + 1), QL_SHIFT) <= p
         && forall b :: lookup[p] + 1 < b <= n ==> p < Shr(Start(l, b), QL_SHIFT)
  }

  predicate SetOk(l: seq<nat>, h: HufSymbols, b: nat)
    requires 1 <= b <= MAX_BITS
  {
    && h.bits == b
    && h.shift == 16 - b
    && h.freq == Count(l, b)
    && h.start == Start(l, b)
  }

  predicate Represents(a: Alphabet, l: Lengths) {
    && |a.huf| == MAX_BITS
    && (forall i :: 0 <= i < MAX_BITS ==>
          SetOk(l, a.huf[i], i + 1) && a.huf[i].raw == CumFreq(l, i + 1) - FirstCode(l, i + 1))
    && LookupOk(l, a.lookup, MAX_BITS)
    && RawOk(l, a.raw, |l|)
  }

  lemma SetBits(a: Alphabet, l: Lengths, index: nat)
    requires Represents(a, l) && index < MAX_BITS
    ensures |a.huf| == MAX_BITS && a.huf[index].bits == index + 1
  {
  }

  lemma {:induction false} CumFreqMonotone(l: seq<nat>, a: nat, b: nat)
    requires 1 <= a < b
    ensures CumFreq(l, a) + Count(l, a) <= CumFreq(l, b)
    decreases b
  {
    if a < b - 1 {
      CumFreqMonotone(l, a, b - 1);
    }
  }

  lemma SlotsDistinct(l: seq<nat>, i: nat, j: nat)
    requires i < j < |l| && l[i] > 0 && l[j] > 0
    ensures Slot(l, i) != Slot(l, j)
  {
    SymbolAtUnique(l, l[i], i);
    SymbolAtUnique(l, l[j], j);
    if l[i] < l[j] {
      CumFreqMonotone(l, l[i], l[j]);
    } else if l[j] < l[i] {
      CumFreqMonotone(l, l[j], l[i]);
    } else {
      CountMonotone(l, i, j, l[i]);
    }
  }

  lemma {:induction false} CumFreqAppend(l: seq<nat>, x: nat, b: nat)
    ensures CumFreq(l + [x], b) == CumFreq(l, b) + if 0 < x < b then 1 else 0
  {
    assert (l + [x])[..|l|] == l;
    if b > 1 {
      CumFreqAppend(l, x, b - 1);
    }
  }

  lemma {:induction false} CumFreqBound(l: seq<nat>, b: nat)
    ensures CumFreq(l, b) <= |l|
  {
    if l == [] {
      CumFreqEmpty(b);
    } else {
      var n := |l| - 1;
      CumFreqBound(l[..n], b);
      CumFreqAppend(l[..n], l[n], b);
      assert l == l[..n] + [l[n]];
    }
  }

  lemma {:induction false} CumFreqEmpty(b: nat)
    ensures CumFreq([], b) == 0
  {
    if b > 1 {
      CumFreqEmpty(b - 1);
    }
  }

  lemma SlotInRange(l: Lengths, sym: nat)
    requires sym < |l| && l[sym] > 0
    ensures Slot(l, sym) < |l|
  {
    SymbolAtUnique(l, l[sym], sym);
    CumFreqMonotone(l, l[sym], 16);
    CumFreqBound(l, 16);
  }

  // ---------------------------------------------------------------------------
  // Construction.

  /** Counts the symbols of each length. */
  method CountLengths(packed: seq<byte>, count: nat, offset: nat) returns (freq: seq<nat>)
    requires offset + count <= 2 * |packed|
    ensures |freq| == MAX_BITS
    ensures forall i :: 0 <= i < MAX_BITS ==> freq[i] == Count(Nibbles(packed, offset, count), i + 1)
  {
    ghost var l := Nibbles(packed, offset, count);
    freq := seq(MAX_BITS, i => 0);
    for raw := 0 to count
      invariant |freq| == MAX_BITS
      invariant forall i :: 0 <= i < MAX_BITS ==> freq[i] == Count(l[..raw], i + 1)
    {
      var bits := Nibble(packed, raw + offset);
      assert l[..raw + 1][..raw] == l[..raw];
      if bits > 0 {
        freq := freq[bits - 1 := freq[bits - 1] + 1];
      }
    }
    assert l[..count] == l;
  }

  /** Too many code words of one length leave no complete code. */
  lemma TooMany(l: Lengths, bits: nat)
    requires 1 <= bits <= MAX_BITS && FirstCode(l, bits) + Count(l, bits) > Shl(1, bits)
    ensures !Complete(l)
  {
    hide Shl, FirstCode, Kraft, Count;
    var code := FirstCode(l, bits) + Count(l, bits);
    StartIsKraft(l);
    Powers();
    StartStep(l, bits);
    ShlAdd(FirstCode(l, bits), Words(l, bits), 16 - bits);
    ShlLess(Shl(1, bits), code, 16 - bits);
    ShlShl(1, bits, 16 - bits);
    StartMonotone(l, bits + 1, 16);
  }

  /** The code is complete when the next code after the longest ones is the end of the code space. */
  lemma LastCode(l: Lengths)
    ensures FirstCode(l, 16) == Shl(1, 16) <==> Complete(l)
  {
    hide FirstCode, Kraft;
    StartIsKraft(l);
    Powers();
  }

  lemma LayOutStep(l: seq<nat>, bits: nat)
    requires 1 <= bits
    ensures FirstCode(l, bits + 1) == 2 * (FirstCode(l, bits) + Count(l, bits))
    ensures CumFreq(l, bits + 1) == CumFreq(l, bits) + Count(l, bits)
  {
  }

  lemma LayOutStart(l: seq<nat>)
    ensures FirstCode(l, 1) == 0 && CumFreq(l, 1) == 0
  {
  }

  /** Lays out the symbol sets; stops with `false` when some length has too many symbols. */
  method LayOut(freq: seq<nat>, ghost l: Lengths) returns (ok: bool, complete: bool, huf: seq<HufSymbols>)
    requires |freq| == MAX_BITS && forall i :: 0 <= i < MAX_BITS ==> freq[i] == Count(l, i + 1)
    ensures (ok && complete) <==> Complete(l)
    ensures ok ==> |huf| == MAX_BITS
    ensures ok ==> forall i :: 0 <= i < MAX_BITS ==> SetOk(l, huf[i], i + 1) && huf[i].raw == CumFreq(l, i + 1)
  {
    hide FirstCode, CumFreq, Count, Kraft, Complete, Shl;
    LayOutStart(l);
    LastCode(l);
    var code, cum_freq := 0, 0;
    huf := [];
    complete := false;
    for bits := 1 to MAX_BITS + 1
      invariant |huf| == bits - 1
      invariant code == FirstCode(l, bits) && cum_freq == CumFreq(l, bits)
      invariant forall i :: 0 <= i < bits - 1 ==> SetOk(l, huf[i], i + 1) && huf[i].raw == CumFreq(l, i + 1)
    {
      huf := huf + [HufSymbols(bits, 16 - bits, freq[bits - 1], Shl(code, 16 - bits), cum_freq)];
      code := code + freq[bits - 1];
      if code > Shl(1, bits) {
        TooMany(l, bits);
        return false, false, huf;
      }
      LayOutStep(l, bits);
      code := 2 * code;
      cum_freq := cum_freq + freq[bits - 1];
    }
    complete := code == Shl(1, 16);
    ok := true;
  }

  lemma RawStep(l: Lengths, raw: seq<nat>, sym: nat)
    requires |raw| == |l| && sym < |l| && l[sym] > 0 && RawOk(l, raw, sym)
    ensures Slot(l, sym) < |l| && RawOk(l, raw[Slot(l, sym) := sym], sym + 1)
  {
    SlotInRange(l, sym);
    forall j | 0 <= j < sym && l[j] > 0
      ensures Slot(l, j) != Slot(l, sym)
    {
      SlotsDistinct(l, j, sym);
    }
  }

  /** After n symbols, where the next symbol of each length goes. */
  predicate NextOk(l: seq<nat>, next: seq<int>, n: nat)
    requires n <= |l|
  {
    |next| == MAX_BITS && forall i :: 0 <= i < MAX_BITS ==> next[i] == CumFreq(l, i + 1) + Count(l[..n], i + 1)
  }

  lemma NextStep(l: Lengths, next: seq<int>, sym: nat)
    requires sym < |l| && NextOk(l, next, sym)
    ensures l[sym] == 0 ==> NextOk(l, next, sym + 1)
    ensures l[sym] > 0 ==> next[l[sym] - 1] == Slot(l, sym)
    ensures l[sym] > 0 ==> NextOk(l, next[l[sym] - 1 := next[l[sym] - 1] + 1], sym + 1)
  {
    assert l[..sym + 1][..sym] == l[..sym];
  }

  /** Fills the raw symbol table. */
  method FillRaw(packed: seq<byte>, count: nat, offset: nat, layout: seq<HufSymbols>, ghost l: Lengths)
    returns (raw: seq<nat>)
    requires offset + count <= 2 * |packed| && |layout| == MAX_BITS
    requires |l| == count && forall i :: 0 <= i < count ==> l[i] == Nibble(packed, offset + i)
    requires forall i :: 0 <= i < MAX_BITS ==> layout[i].raw == CumFreq(l, i + 1)
    ensures RawOk(l, raw, count)
  {
    raw := seq(count, i => 0);
    var next: seq<int> := seq(MAX_BITS, i requires 0 <= i < MAX_BITS => layout[i].raw);
    for sym := 0 to count
      invariant |raw| == count && NextOk(l, next, sym)
      invariant RawOk(l, raw, sym)
    {
      var bits := Nibble(packed, sym + offset);
      assert bits == l[sym];
      NextStep(l, next, sym);
      if bits > 0 {
        RawStep(l, raw, sym);
        raw := raw[next[bits - 1] := sym];
        next := next[bits - 1 := next[bits - 1] + 1];
      }
    }
  }

  /** Populates the quick lookup table. */
  method FillLookup(huf: seq<HufSymbols>, ghost l: Lengths) returns (lookup: seq<nat>)
    requires |huf| == MAX_BITS && forall i :: 0 <= i < MAX_BITS ==> SetOk(l, huf[i], i + 1)
    ensures LookupOk(l, lookup, MAX_BITS)
  {
    lookup := seq(0x80, i => 0);
    FirstStart(l);
    ShrZero(QL_SHIFT);
    for bits := 1 to MAX_BITS + 1
      invariant |lookup| == 0x80
      invariant bits > 1 ==> LookupOk(l, lookup, bits - 1)
    {
      ghost var before := lookup;
      assert SetOk(l, huf[bits - 1], bits);
      var first := Shr(huf[bits - 1].start, QL_SHIFT);
      var prefix := first;
      while prefix < 0x80
        invariant first <= prefix && |lookup| == 0x80
        invariant forall p :: 0 <= p < 0x80 ==> lookup[p] == if first <= p < prefix then bits - 1 else before[p]
      {
        lookup := lookup[prefix := bits - 1];
        prefix := prefix + 1;
      }
      assert LookupOk(l, lookup, bits) by {
        forall p | 0 <= p < 0x80
          ensures lookup[p] < bits && Shr(Start(l, lookup[p] + 1), QL_SHIFT) <= p
          ensures forall b :: lookup[p] + 1 < b <= bits ==> p < Shr(Start(l, b), QL_SHIFT)
        {
          if bits > 1 && p < first {
            assert before[p] < bits - 1;
          }
        }
      }
    }
  }

  lemma FirstStart(l: seq<nat>)
    ensures Start(l, 1) == 0
  {
    assert FirstCode(l, 0) == 0;
    ShlZero(15);
  }

  lemma {:induction false} ShrZero(n: nat)
    ensures Shr(0, n) == 0
  {
    if n > 0 {
      ShrZero(n - 1);
    }
  }

  /** Adjusts the raw offsets so that a code word can be used directly as an index. */
  method AdjustRaw(layout: seq<HufSymbols>, ghost l: Lengths) returns (huf: seq<HufSymbols>)
    requires |layout| == MAX_BITS
    requires forall i :: 0 <= i < MAX_BITS ==> SetOk(l, layout[i], i + 1) && layout[i].raw == CumFreq(l, i + 1)
    ensures |huf| == MAX_BITS
    ensures forall i :: 0 <= i < MAX_BITS ==>
              SetOk(l, huf[i], i + 1) && huf[i].raw == CumFreq(l, i + 1) - FirstCode(l, i + 1)
  {
    huf := layout;
    for i := 0 to MAX_BITS
      invariant |huf| == MAX_BITS
      invariant forall k :: 0 <= k < MAX_BITS ==> SetOk(l, huf[k], k + 1)
      invariant forall k :: i <= k < MAX_BITS ==> huf[k] == layout[k]
      invariant forall k :: 0 <= k < i ==> huf[k].raw == CumFreq(l, k + 1) - FirstCode(l, k + 1)
    {
      StartAdjustment(l, i + 1);
      huf := huf[i := huf[i].(raw := huf[i].raw - Shr(huf[i].start, huf[i].shift))];
    }
  }

  lemma StartAdjustment(l: Lengths, b: nat)
    requires b <= 16
    ensures Shr(Start(l, b), 16 - b) == FirstCode(l, b)
  {
    ShlLess(FirstCode(l, b), FirstCode(l, b) + 1, 16 - b);
    ShrUnique(Start(l, b), FirstCode(l, b), 16 - b);
  }

  /**
   Constructs an alphabet.  It succeeds exactly for complete codes, and the tables then
   represent the code.
   */
  method Construct(packed: seq<byte>, count: nat, offset: nat) returns (ok: bool, alphabet: Alphabet)
    requires offset + count <= 2 * |packed|
    ensures ok <==> Complete(Nibbles(packed, offset, count))
    ensures ok ==> Represents(alphabet, Nibbles(packed, offset, count))
  {
    ghost var l := Nibbles(packed, offset, count);
    var freq := CountLengths(packed, count, offset);
    var complete, huf;
    ok, complete, huf := LayOut(freq, l);
    if !ok {
      return false, Alphabet(huf, [], []);
    }
    var raw := FillRaw(packed, count, offset, huf, l);
    var lookup := FillLookup(huf, l);
    huf := AdjustRaw(huf, l);
    ok, alphabet := complete, Alphabet(huf, lookup, raw);
  }

  // ---------------------------------------------------------------------------
  // Lookup.

  lemma ShrMonotone(x: nat, y: nat, n: nat)
    requires x <= y
    ensures Shr(x, n) <= Shr(y, n)
  {
  }

  /** Quick lookup followed by a backward scan finds the code length. */
  method FindSet(alphabet: Alphabet, x: nat, ghost l: Lengths) returns (index: nat)
    requires Complete(l) && Represents(alphabet, l) && x < 0x10000
    ensures index < MAX_BITS && Band(l, x, index + 1)
  {
    StartIsKraft(l);
    ShrWindow(x);
    index := alphabet.lookup[Shr(x, QL_SHIFT)];
    forall b | index + 1 < b <= MAX_BITS
      ensures x < Start(l, b)
    {
      if Start(l, b) <= x {
        ShrMonotone(Start(l, b), x, QL_SHIFT);
      }
    }
    FirstStart(l);
    while x < alphabet.huf[index].start
      invariant index < MAX_BITS
      invariant alphabet.huf[index].start == Start(l, index + 1)
      invariant forall b :: index + 1 < b <= MAX_BITS ==> x < Start(l, b)
      decreases index
    {
      index := index - 1;
    }
  }

  lemma ShrWindow(x: nat)
    requires x < 0x10000
    ensures Shr(x, QL_SHIFT) < 0x80
  {
    ShrBounds(x, QL_SHIFT);
    Powers();
    ShlShl(1, 7, 9);
    ShlLess(Shr(x, 9), Shl(1, 7), 9);
  }

  /** The raw symbol of window x within its band. */
  method RawSymbol(alphabet: Alphabet, x: nat, index: nat, ghost l: Lengths) returns (sym: nat)
    requires Represents(alphabet, l) && index < MAX_BITS && Band(l, x, index + 1)
    ensures sym == BandSymbol(l, x, index + 1)
  {
    ghost var target := BandSymbol(l, x, index + 1);
    var set_ := alphabet.huf[index];
    assert SetOk(l, set_, index + 1);
    assert set_.raw + Shr(x, set_.shift) == Slot(l, target);
    sym := alphabet.raw[set_.raw + Shr(x, set_.shift)];
  }
}
