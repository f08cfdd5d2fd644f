/**
 Canonical Huffman codes as defined by section 3.2.2 of RFC 1951.

 A code is given by the code length of each symbol (zero for a symbol that is not
 used).  Nothing here mentions decoding tables: `Decode` is the plain statement
 "the symbol whose code word starts the bit string".
 */
module Huffman {
  import opened Bits
  import opened Wrappers

  /** Maximum length of a code word. */
  const MAX_BITS: nat := 15

  type Lengths = l: seq<nat> | forall i :: 0 <= i < |l| ==> l[i] <= MAX_BITS

  /** Number of symbols having code length b. */
  function Count(l: seq<nat>, b: nat): (c: nat)
    ensures c <= |l|
  {
    if l == [] then 0
    else Count(l[..|l| - 1], b) + (if l[|l| - 1] == b then 1 else 0)
  }

  /** Number of code words of b bits. */
  function Words(l: seq<nat>, b: nat): nat {
    if b == 0 then 0 else Count(l, b)
  }

  /** The first code word of b bits (step 2 of the algorithm in section 3.2.2). */
  function FirstCode(l: seq<nat>, b: nat): nat {
    if b == 0 then 0 else 2 * (FirstCode(l, b - 1) + Words(l, b - 1))
  }

  /** The code word of a symbol (step 3): consecutive values in symbol order. */
  function Code(l: Lengths, sym: nat): nat
    requires sym < |l|
  {
    FirstCode(l, l[sym]) + Count(l[..sym], l[sym])
  }

  function CodeBits(l: Lengths, sym: nat): (s: BitString)
    requires sym < |l|
    ensures |s| == l[sym]
  {
    MsbBits(Code(l, sym), l[sym])
  }

  /** The code word of `sym` is a prefix of s. */
  predicate Prefixes(l: Lengths, sym: nat, s: BitString) {
    sym < |l| && 0 < l[sym] <= |s| && s[..l[sym]] == CodeBits(l, sym)
  }

  /** The decoded symbol, if s holds a whole code word. */
  ghost function Decode(l: Lengths, s: BitString): Option<nat> {
    if exists sym :: Prefixes(l, sym, s) then
      var sym :| Prefixes(l, sym, s);
      Some(sym)
    else
      None
  }

  /** The Kraft sum, scaled by 2^16. */
  function Kraft(l: Lengths): nat {
    if l == [] then 0
    else Kraft(l[..|l| - 1]) + (if l[|l| - 1] == 0 then 0 else Pow2(16 - l[|l| - 1]))
  }

  /** Every bit string is either too short or starts with a code word: Kraft sum 1. */
  predicate Complete(l: Lengths) {
    Kraft(l) == 0x10000
  }

  /** First code word of b bits, normalised to 16 bits. */
  function Start(l: seq<nat>, b: nat): nat
    requires b <= 16
  {
    Shl(FirstCode(l, b), 16 - b)
  }

  // ---------------------------------------------------------------------------
  // The code words tile the interval [0, Kraft).

  lemma StartStep(l: seq<nat>, b: nat)
    requires b <= MAX_BITS
    ensures Start(l, b + 1) == Start(l, b) + Shl(Words(l, b), 16 - b)
  {
    var f, w := FirstCode(l, b), Words(l, b);
    ShlDouble(f + w, 15 - b);
    ShlAdd(f, w, 16 - b);
  }

  lemma {:induction false} StartMonotone(l: seq<nat>, a: nat, b: nat)
    requires a <= b <= 16
    ensures Start(l, a) <= Start(l, b)
    decreases b - a
  {
    if a < b {
      StartStep(l, a);
      StartMonotone(l, a + 1, b);
    }
  }

  lemma {:induction false} FirstCodeAppend(l: seq<nat>, x: nat, b: nat)
    requires b <= 16
    ensures Start(l + [x], b) == Start(l, b) + if 0 < x < b then Pow2(16 - x) else 0
  {
    if b > 0 {
      FirstCodeAppend(l, x, b - 1);
      StartStep(l, b - 1);
      StartStep(l + [x], b - 1);
      assert (l + [x])[..|l|] == l;
      ShlAdd(Words(l, b - 1), 1, 16 - (b - 1));
    }
  }

  lemma {:induction false} StartIsKraft(l: Lengths)
    ensures Start(l, 16) == Kraft(l)
  {
    if l == [] {
      EmptyStart(16);
    } else {
      var n := |l| - 1;
      StartIsKraft(l[..n]);
      FirstCodeAppend(l[..n], l[n], 16);
      assert l == l[..n] + [l[n]];
    }
  }

  lemma {:induction false} EmptyStart(b: nat)
    requires b <= 16
    ensures Start([], b) == 0
  {
    ShlZero(16 - b);
    if b > 0 {
      EmptyStart(b - 1);
      StartStep([], b - 1);
      ShlZero(16 - (b - 1));
    }
  }

  // ---------------------------------------------------------------------------
  // Symbols of one length, in order.

  /** The k-th symbol having code length b. */
  function SymbolAt(l: seq<nat>, b: nat, k: nat): (sym: nat)
    requires k < Count(l, b)
    ensures sym < |l| && l[sym] == b && Count(l[..sym], b) == k
  {
    var n := |l| - 1;
    if l[n] == b && Count(l[..n], b) == k then n
    else
      var r := SymbolAt(l[..n], b, k);
      assert l[..n][..r] == l[..r];
      r
  }

  lemma {:induction false} CountMonotone(l: seq<nat>, i: nat, j: nat, b: nat)
    requires i <= j <= |l|
    ensures Count(l[..i], b) <= Count(l[..j], b)
    ensures i < j && l[i] == b ==> Count(l[..i], b) < Count(l[..j], b)
    decreases j - i
  {
    if i < j {
      assert l[..j][..j - 1] == l[..j - 1];
      if i < j - 1 {
        CountMonotone(l, i, j - 1, b);
      }
    }
  }

  lemma SymbolAtUnique(l: seq<nat>, b: nat, sym: nat)
    requires sym < |l| && l[sym] == b
    ensures Count(l[..sym], b) < Count(l, b)
    ensures SymbolAt(l, b, Count(l[..sym], b)) == sym
  {
    CountMonotone(l, sym, |l|, b);
    assert l[..|l|] == l;
    var r := SymbolAt(l, b, Count(l[..sym], b));
    if r < sym {
      CountMonotone(l, r, sym, b);
    } else if sym < r {
      CountMonotone(l, sym, r, b);
    }
  }

  // ---------------------------------------------------------------------------
  // Code words as intervals of 16-bit windows.

  /** The first 16 bits of s as a number, padded with zero bits. */
  function Window(s: BitString): (x: nat)
    ensures x < 0x10000
  {
    Powers();
    Msb((s + Zeros(16))[..16])
  }

  predicate InWord(x: nat, code: nat, b: nat)
    requires b <= 16
  {
    Shl(code, 16 - b) <= x < Shl(code + 1, 16 - b)
  }

  lemma PrefixWindow(s: BitString, b: nat)
    requires b <= 16 && b <= |s|
    ensures InWord(Window(s), Msb(s[..b]), b)
  {
    var w := (s + Zeros(16))[..16];
    MsbAppend(w[..b], w[b..]);
    assert w == w[..b] + w[b..];
    assert w[..b] == s[..b];
    ShlAdd(Msb(s[..b]), 1, 16 - b);
  }

  lemma InWordUnique(x: nat, c: nat, d: nat, b: nat)
    requires b <= 16 && InWord(x, c, b) && InWord(x, d, b)
    ensures c == d
  {
    ShlLess(c, d + 1, 16 - b);
    ShlLess(d, c + 1, 16 - b);
  }

  /** A code word lies in the band of words of its own length. */
  lemma WordBand(l: Lengths, sym: nat, x: nat)
    requires sym < |l| && l[sym] > 0 && InWord(x, Code(l, sym), l[sym])
    ensures Start(l, l[sym]) <= x < Start(l, l[sym] + 1)
  {
    var b := l[sym];
    var f, k := FirstCode(l, b), Count(l[..sym], b);
    SymbolAtUnique(l, b, sym);
    StartStep(l, b);
    ShlLeq(f, f + k, 16 - b);
    ShlLeq(f + k + 1, f + Words(l, b), 16 - b);
    ShlAdd(f, Words(l, b), 16 - b);
  }

  /** Two code words containing the same window are the same: the code is prefix-free. */
  lemma WordsDisjoint(l: Lengths, s1: nat, s2: nat, x: nat)
    requires s1 < |l| && l[s1] > 0 && InWord(x, Code(l, s1), l[s1])
    requires s2 < |l| && l[s2] > 0 && InWord(x, Code(l, s2), l[s2])
    ensures s1 == s2
  {
    WordBand(l, s1, x);
    WordBand(l, s2, x);
    if l[s1] < l[s2] {
      StartMonotone(l, l[s1] + 1, l[s2]);
    } else if l[s2] < l[s1] {
      StartMonotone(l, l[s2] + 1, l[s1]);
    } else {
      InWordUnique(x, Code(l, s1), Code(l, s2), l[s1]);
      SymbolAtUnique(l, l[s1], s1);
      SymbolAtUnique(l, l[s2], s2);
    }
  }

  /** Words of at most 16 bits: a code word that fits below 2^16. */
  lemma CodeFits(l: Lengths, sym: nat)
    requires Kraft(l) <= 0x10000 && sym < |l| && l[sym] > 0
    ensures Code(l, sym) < Pow2(l[sym])
  {
    var b := l[sym];
    var x := Shl(Code(l, sym), 16 - b);
    ShlLess(Code(l, sym), Code(l, sym) + 1, 16 - b);
    WordBand(l, sym, x);
    StartMonotone(l, b + 1, 16);
    StartIsKraft(l);
    Powers();
    ShlShl(1, b, 16 - b);
    ShlLess(Code(l, sym), Pow2(b), 16 - b);
  }

  /** Being a prefix is being in the word's interval, when enough bits are there. */
  lemma PrefixIffInWord(l: Lengths, sym: nat, s: BitString)
    requires Kraft(l) <= 0x10000 && sym < |l| && 0 < l[sym] <= |s|
    ensures Prefixes(l, sym, s) <==> InWord(Window(s), Code(l, sym), l[sym])
  {
    var b := l[sym];
    CodeFits(l, sym);
    MsbRoundTrip(Code(l, sym), b);
    PrefixWindow(s, b);
    if InWord(Window(s), Code(l, sym), b) {
      InWordUnique(Window(s), Code(l, sym), Msb(s[..b]), b);
      MsbInjective(s[..b], CodeBits(l, sym));
    }
  }

  /** Prefix freedom as a statement about bit strings. */
  lemma PrefixFree(l: Lengths, s1: nat, s2: nat, s: BitString)
    requires Kraft(l) <= 0x10000 && Prefixes(l, s1, s) && Prefixes(l, s2, s)
    ensures s1 == s2
  {
    PrefixIffInWord(l, s1, s);
    PrefixIffInWord(l, s2, s);
    WordsDisjoint(l, s1, s2, Window(s));
  }

  // ---------------------------------------------------------------------------
  // Decoding through the window.

  /** b is the code length selected by window x. */
  predicate Band(l: seq<nat>, x: nat, b: nat) {
    1 <= b <= MAX_BITS && Start(l, b) <= x < Start(l, b + 1)
  }

  /** The symbol selected by window x within band b. */
  function BandSymbol(l: seq<nat>, x: nat, b: nat): (sym: nat)
    requires Band(l, x, b)
    ensures sym < |l| && l[sym] == b
    ensures Count(l[..sym], b) == Shr(x, 16 - b) - FirstCode(l, b)
  {
    BandIndex(l, x, b);
    SymbolAt(l, b, Shr(x, 16 - b) - FirstCode(l, b))
  }

  lemma BandIndex(l: seq<nat>, x: nat, b: nat)
    requires Band(l, x, b)
    ensures FirstCode(l, b) <= Shr(x, 16 - b) < FirstCode(l, b) + Count(l, b)
    ensures InWord(x, Shr(x, 16 - b), b)
  {
    var f, c, q := FirstCode(l, b), Count(l, b), Shr(x, 16 - b);
    StartStep(l, b);
    ShlAdd(f, c, 16 - b);
    ShrBounds(x, 16 - b);
    ShlLess(f, q + 1, 16 - b);
    ShlLess(q, f + c, 16 - b);
  }

  lemma BandUnique(l: seq<nat>, x: nat, a: nat, b: nat)
    requires Band(l, x, a) && Band(l, x, b)
    ensures a == b
  {
    if a < b {
      StartMonotone(l, a + 1, b);
    } else if b < a {
      StartMonotone(l, b + 1, a);
    }
  }

  /**
   Decoding through the zero-padded window is decoding: the selected symbol is the
   answer exactly when its code word has been received in full, and otherwise no code
   word has.
   */
  lemma DecodeByBand(l: Lengths, s: BitString, b: nat)
    requires Complete(l) && Band(l, Window(s), b)
    ensures Decode(l, s) == if b <= |s| then Some(BandSymbol(l, Window(s), b)) else None
  {
    var x := Window(s);
    var sym := BandSymbol(l, x, b);
    BandIndex(l, x, b);
    assert Code(l, sym) == Shr(x, 16 - b);
    if b <= |s| {
      PrefixIffInWord(l, sym, s);
    }
    forall other | Prefixes(l, other, s)
      ensures other == sym
    {
      PrefixIffInWord(l, other, s);
      WordsDisjoint(l, other, sym, x);
    }
  }

  lemma {:induction false} FindBand(l: Lengths, x: nat, hi: nat) returns (b: nat)
    requires hi <= 16 && x < Start(l, hi)
    ensures 1 <= b < hi && Start(l, b) <= x < Start(l, b + 1)
    decreases hi
  {
    ShlZero(16);
    if Start(l, hi - 1) <= x {
      b := hi - 1;
      if b == 0 {
        StartStep(l, 0);
      }
    } else {
      b := FindBand(l, x, hi - 1);
    }
  }

  lemma BandExists(l: Lengths, x: nat) returns (b: nat)
    requires Complete(l) && x < 0x10000
    ensures Band(l, x, b)
  {
    StartIsKraft(l);
    b := FindBand(l, x, 16);
  }

  // ---------------------------------------------------------------------------
  // What Decode promises.

  /** A decoded symbol is used, and its code word is what was read. */
  lemma DecodeSound(l: Lengths, s: BitString)
    requires Decode(l, s).Some?
    ensures Prefixes(l, Decode(l, s).value, s)
  {
  }

  /** Decoding inverts encoding, whatever follows. */
  lemma DecodeEncode(l: Lengths, sym: nat, t: BitString)
    requires Complete(l) && sym < |l| && l[sym] > 0
    ensures Decode(l, CodeBits(l, sym) + t) == Some(sym)
  {
    var s := CodeBits(l, sym) + t;
    assert s[..l[sym]] == CodeBits(l, sym);
    assert Prefixes(l, sym, s);
    var other := Decode(l, s).value;
    PrefixFree(l, sym, other, s);
  }

  /** Further input never changes a decoded symbol. */
  lemma DecodeExtends(l: Lengths, s: BitString, t: BitString)
    requires Complete(l) && Decode(l, s).Some?
    ensures Decode(l, s + t) == Decode(l, s)
  {
    var sym := Decode(l, s).value;
    assert (s + t)[..l[sym]] == s[..l[sym]];
    assert Prefixes(l, sym, s + t);
    PrefixFree(l, sym, Decode(l, s + t).value, s + t);
  }

  /** A complete code never needs more than 15 bits to decide. */
  lemma DecodeProgress(l: Lengths, s: BitString)
    requires Complete(l) && |s| >= MAX_BITS
    ensures Decode(l, s).Some?
  {
    var b := BandExists(l, Window(s));
    DecodeByBand(l, s, b);
  }
}
