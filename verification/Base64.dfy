/** Base 64 encoding and decoding, bit by bit. */
module Base64 {
  import opened Bits
  import opened Base64Spec
  import opened Ctype
  import opened Wrappers

  // ---------------------------------------------------------------------------
  // Shifts and disjunction.

  function OrBits(a: nat, b: nat, n: nat): nat {
    if n == 0 then 0 else (if a % 2 == 0 && b % 2 == 0 then 0 else 1) + 2 * OrBits(a / 2, b / 2, n - 1)
  }

  /** Bitwise or of numbers of up to 16 bits. */
  function Or(a: nat, b: nat): nat {
    OrBits(a, b, 16)
  }

  lemma {:induction false} OrZero(a: nat, n: nat)
    requires a < Pow2(n)
    ensures OrBits(a, 0, n) == a
  {
    if n > 0 {
      OrZero(a / 2, n - 1);
    }
  }

  /** Where no bits are shared, or is addition. */
  lemma {:induction false} OrAdds(c: nat, b: nat, k: nat, n: nat)
    requires k <= n && b < Pow2(k) && Shl(c, k) < Pow2(n)
    ensures OrBits(Shl(c, k), b, n) == Shl(c, k) + b
  {
    if k == 0 {
      OrZero(c, n);
    } else {
      assert Shl(c, k) == 2 * Shl(c, k - 1) && Pow2(k) == 2 * Pow2(k - 1) && Pow2(n) == 2 * Pow2(n - 1);
      hide Shl, Pow2;
      OrAdds(c, b / 2, k - 1, n - 1);
      OrEven(Shl(c, k - 1), b, n);
    }
  }

  lemma OrEven(x: nat, b: nat, n: nat)
    requires n > 0
    ensures OrBits(2 * x, b, n) == b % 2 + 2 * OrBits(x, b / 2, n - 1)
  {
    hide OrBits;
    OrStep(2 * x, b, n);
    assert 2 * x / 2 == x && 2 * x % 2 == 0;
  }

  lemma OrStep(a: nat, b: nat, n: nat)
    requires n > 0
    ensures OrBits(a, b, n) == (if a % 2 == 0 && b % 2 == 0 then 0 else 1) + 2 * OrBits(a / 2, b / 2, n - 1)
  {
  }

  lemma ShlCases(x: nat)
    ensures Shl(x, 0) == x && Shl(x, 2) == 4 * x && Shl(x, 4) == 16 * x && Shl(x, 6) == 64 * x && Shl(x, 8) == 256 * x
  {
    assert Shl(x, 1) == 2 * x;
    assert Shl(x, 3) == 8 * x;
    assert Shl(x, 5) == 32 * x;
    assert Shl(x, 7) == 128 * x;
  }

  lemma ShrCases(x: nat)
    ensures Shr(x, 0) == x && Shr(x, 2) == x / 4 && Shr(x, 4) == x / 16 && Shr(x, 6) == x / 64 && Shr(x, 8) == x / 256
  {
    assert Shr(x, 1) == x / 2;
    assert Shr(x, 3) == x / 8;
    assert Shr(x, 5) == x / 32;
    assert Shr(x, 7) == x / 128;
  }

  lemma WordWidth()
    ensures Pow2(16) == 0x1_0000 && Pow2(8) == 0x100 && Pow2(6) == 64 && Pow2(4) == 16 && Pow2(2) == 4 && Pow2(0) == 1
  {
    ShlCases(1);
    ShlCases(256);
    ShlShl(1, 8, 8);
  }

  /** The bits above a multiple of 2^k and those below. */
  lemma OrParts(c: nat, b: nat, k: nat)
    requires k in {0, 2, 4, 6, 8} && b < Pow2(k) && Shl(c, k) < 0x1_0000
    ensures Or(Shl(c, k), b) == Shl(c, k) + b
  {
    WordWidth();
    OrAdds(c, b, k, 16);
  }

  // ---------------------------------------------------------------------------
  // Encoding.

  /** The six bits at an even position, from a byte and the next. */
  function Window(a: byte, b: byte, shift: nat): nat
    requires shift in {0, 2, 4, 6}
  {
    Shr(Or(Shl(a, shift), Shr(b, 8 - shift)), 2) % 64
  }

  lemma WindowIs(a: byte, b: byte, shift: nat)
    requires shift in {0, 2, 4, 6}
    ensures Window(a, b, shift) ==
            if shift == 0 then First(a) else if shift == 2 then Fourth(a) else if shift == 4 then Third(a, b) else Second(a, b)
  {
    hide Or, Shl, Shr;
    WordWidth();
    ShlCases(a);
    ShrCases(b);
    OrParts(a, Shr(b, 8 - shift), shift);
    ShrCases(Shl(a, shift) + Shr(b, 8 - shift));
    WindowArithmetic(a, b);
  }

  lemma FoursMod(a: nat, c: nat)
    requires c < 4
    ensures (4 * a + c) % 64 == a % 16 * 4 + c
  {
    RemainderUnique(4 * a + c, a / 16, a % 16 * 4 + c, 64);
  }

  lemma SixteensMod(a: nat, c: nat)
    requires c < 16
    ensures (16 * a + c) % 64 == a % 4 * 16 + c
  {
    RemainderUnique(16 * a + c, a / 4, a % 4 * 16 + c, 64);
  }

  lemma QuarterOf(a: nat, b: nat)
    ensures (4 * a + b) / 4 == a + b / 4
  {
  }

  lemma WindowArithmetic(a: byte, b: byte)
    ensures (a + b / 256) / 4 % 64 == a / 4
    ensures (4 * a + b / 64) / 4 % 64 == a % 64
    ensures (16 * a + b / 16) / 4 % 64 == a % 16 * 4 + b / 64
    ensures (64 * a + b / 4) / 4 % 64 == a % 4 * 16 + b / 16
  {
    var x: nat, y: nat := a, b;
    QuarterOf(x, y / 64);
    QuarterOf(4 * x, y / 16);
    QuarterOf(16 * x, y / 4);
    FoursMod(x, y / 64);
    SixteensMod(x, y / 16);
  }

  /** Where value number p starts, and what its window shows. */
  lemma WindowAt(raw: seq<byte>, p: nat)
    requires 6 * p < 8 * |raw|
    ensures var i, shift := 6 * p / 8, 6 * p % 8;
            shift in {0, 2, 4, 6} && Window(RawAt(raw, i), RawAt(raw, i + 1), shift) == Cut(raw, p)
  {
    hide Window, First, Second, Third, Fourth, RawAt;
    var q, r := p / 4, p % 4;
    assert p == 4 * q + r;
    var i, shift := 6 * p / 8, 6 * p % 8;
    assert 6 * p == 24 * q + 6 * r;
    assert r == 0 ==> i == 3 * q && shift == 0;
    assert r == 1 ==> i == 3 * q && shift == 6;
    assert r == 2 ==> i == 3 * q + 1 && shift == 4;
    assert r == 3 ==> i == 3 * q + 2 && shift == 2;
    WindowIs(RawAt(raw, i), RawAt(raw, i + 1), shift);
  }

  /** Encodes bytes into a buffer of the right length, with the terminator. */
  method Encode(raw: array<byte>, encoded: array<char>)
    requires encoded.Length == (raw.Length + 2) / 3 * 4 + 1
    modifies encoded
    ensures encoded[..encoded.Length - 1] == Encoded(raw[..]) && encoded[encoded.Length - 1] == '\0'
  {
    hide Window, Cut, Letter;
    ghost var x, ds := raw[..], Sextets(raw[..]);
    SextetCount(x);
    EncodedLength(x);
    LettersAt(ds);
    hide Sextets, Letters;
    var len := raw.Length;
    var bit, at := 0, 0;
    while bit < 8 * len
      invariant bit == 6 * at && at <= |ds|
      invariant encoded[..at] == Letters(ds)[..at]
    {
      var i, shift := bit / 8, bit % 8;
      WindowAt(x, at);
      SextetsCut(x, at);
      var next := if i + 1 < len then raw[i + 1] else 0;
      var tmp := Window(raw[i], next, shift);
      encoded[at] := Letter(tmp);
      at := at + 1;
      bit := bit + 6;
    }
    ghost var letters := at;
    assert encoded[..at] == Letters(ds);
    at := Pad(encoded, len, bit, at);
    encoded[at] := '\0';
    assert encoded[..at] == Letters(ds) + Padding(len);
  }

  /** Writes pad characters up to a whole number of groups. */
  method Pad(encoded: array<char>, len: nat, bits: nat, from: nat) returns (at: nat)
    requires bits == 6 * from && from == (8 * len + 5) / 6 && encoded.Length == (len + 2) / 3 * 4 + 1
    modifies encoded
    ensures at == encoded.Length - 1 && from <= at && encoded[..at] == old(encoded[..from]) + Padding(len)
  {
    ghost var letters := encoded[..from];
    PadRange(len);
    PadIs(len);
    hide Padding;
    at := from;
    var bit := bits;
    PadSteps(len, at);
    while bit % 8 != 0
      invariant bit == 6 * at && from <= at <= encoded.Length - 1
      invariant encoded[..from] == letters && forall k :: from <= k < at ==> encoded[k] == '='
      invariant bit % 8 == 0 <==> at == encoded.Length - 1
      decreases encoded.Length - at
    {
      encoded[at] := '=';
      at := at + 1;
      bit := bit + 6;
      PadSteps(len, at);
    }
  }

  lemma EightsDrop(q: int, r: int)
    ensures (8 * q + r) % 8 == r % 8
  {
  }

  lemma FoursDrop(q: int, r: int)
    ensures (4 * q + r) % 4 == r % 4
  {
  }

  /** The number of characters before and with padding. */
  lemma PadRange(len: nat)
    ensures var letters, total := (8 * len + 5) / 6, (len + 2) / 3 * 4; letters <= total <= letters + 2
  {
    var q, r := len / 3, len % 3;
    GroupCounts(q, r);
  }

  /** Whole groups, and what is left over. */
  lemma GroupCounts(q: nat, r: nat)
    requires r < 3
    ensures var len := 3 * q + r;
            && (8 * len + 5) / 6 == 4 * q + (if r == 0 then 0 else r + 1)
            && (len + 2) / 3 == q + (if r == 0 then 0 else 1)
            && len % 3 == r
  {
    var len := 3 * q + r;
    assert 8 * len + 5 == 6 * (4 * q) + (8 * r + 5) && len + 2 == 3 * q + (r + 2);
    SixthsOf(4 * q, 8 * r + 5);
    ThirdsOf(q, r + 2);
    ThirdsOf(q, r);
  }

  lemma SixthsOf(q: nat, r: nat)
    ensures (6 * q + r) / 6 == q + r / 6
  {
  }

  lemma ThirdsOf(q: nat, r: nat)
    ensures (3 * q + r) / 3 == q + r / 3 && (3 * q + r) % 3 == r % 3
  {
  }

  /** Padding stops at the next multiple of four characters. */
  lemma PadSteps(len: nat, at: nat)
    requires (8 * len + 5) / 6 <= at <= (len + 2) / 3 * 4
    ensures 6 * at % 8 == 0 <==> at == (len + 2) / 3 * 4
  {
    PadRange(len);
    var t := (len + 2) / 3;
    var k := 4 * t - at;
    assert 6 * at == 8 * (3 * t) - 6 * k;
    EightsDrop(3 * t, -6 * k);
  }

  lemma PadIs(len: nat)
    ensures |Padding(len)| == (len + 2) / 3 * 4 - (8 * len + 5) / 6
    ensures forall k :: 0 <= k < |Padding(len)| ==> Padding(len)[k] == '='
  {
    var q, r := len / 3, len % 3;
    GroupCounts(q, r);
  }

  // ---------------------------------------------------------------------------
  // Decoding.

  /** A character that decoding is defined for. */
  predicate Known(c: char) {
    IsSpace(c) || c == '=' || IsLetter(c)
  }

  predicate AllKnown(s: string) {
    forall i :: 0 <= i < |s| ==> Known(s[i])
  }

  /** The values and the number of pad characters so far; nothing after an error. */
  function Scan(s: string): (r: Option<(seq<sextet>, nat)>)
    requires AllKnown(s)
    ensures r.Some? ==> r.value.1 <= 2
  {
    if s == "" then Some(([], 0))
    else
      var before, c := Scan(s[..|s| - 1]), s[|s| - 1];
      if before.None? || IsSpace(c) then before
      else if c == '=' then
        if before.value.1 >= 2 then None else Some((before.value.0, before.value.1 + 1))
      else if before.value.1 > 0 then None
      else Some((before.value.0 + [Position(c)], 0))
  }

  function Bytes(ds: seq<sextet>, n: nat): (r: seq<byte>)
    ensures |r| == n && forall j :: 0 <= j < n ==> r[j] == ByteAt(ds, j)
  {
    if n == 0 then [] else Bytes(ds, n - 1) + [ByteAt(ds, n - 1)]
  }

  /** What a string decodes to, if to anything. */
  function Decoded(s: string): Option<seq<byte>>
    requires AllKnown(s)
  {
    var r := Scan(s);
    if r.None? then None
    else
      var bits := 6 * |r.value.0| - 2 * r.value.1;
      if bits % 8 != 0 then None else if bits < 0 then None else Some(Bytes(r.value.0, bits / 8))
  }

  /** Exactly the properly padded strings are decoded. */
  lemma DecodedIff(s: string)
    requires AllKnown(s)
    ensures Decoded(s).Some? <==>
            var r := Scan(s);
            r.Some? && (|r.value.0| + r.value.1) % 4 == 0 && |r.value.0| % 4 != 1
  {
    var r := Scan(s);
    hide Scan;
    if r.Some? {
      PadCases(|r.value.0|, r.value.1);
    }
  }

  lemma PadCases(n: nat, p: nat)
    requires p <= 2
    ensures (6 * n - 2 * p) % 8 == 0 && 6 * n - 2 * p >= 0 <==> (n + p) % 4 == 0 && n % 4 != 1
  {
    var q, m := n / 4, n % 4;
    assert n == 4 * q + m;
    EightsDrop(3 * q, 6 * m - 2 * p);
    FoursDrop(q, m + p);
    assert 6 * n - 2 * p == 8 * (3 * q) + (6 * m - 2 * p) && n + p == 4 * q + (m + p);
    SmallPadCases(m, p);
  }

  lemma SmallPadCases(m: nat, p: nat)
    requires p <= 2 && m < 4
    ensures (6 * m - 2 * p) % 8 == 0 <==> (m + p) % 4 == 0 && m != 1
    ensures (6 * m - 2 * p) % 8 == 0 ==> 6 * m - 2 * p >= 0
  {
  }

  // ---------------------------------------------------------------------------
  // Round trip.

  /** Without white space. */
  function Strip(s: string): string {
    if s == "" then ""
    else
      var rest, c := Strip(s[..|s| - 1]), s[|s| - 1];
      if IsSpace(c) then rest else rest + [c]
  }

  /** White space is ignored wherever it is. */
  lemma {:induction false} ScanStrip(s: string)
    requires AllKnown(s)
    ensures AllKnown(Strip(s)) && Scan(Strip(s)) == Scan(s)
  {
    if s != "" {
      var k := |s| - 1;
      ScanStrip(s[..k]);
      var t := Strip(s);
      if !IsSpace(s[k]) {
        assert t[..|t| - 1] == Strip(s[..k]);
      }
    }
  }

  lemma {:induction false} ScanLetters(ds: seq<sextet>)
    ensures AllKnown(Letters(ds)) && Scan(Letters(ds)) == Some((ds, 0))
  {
    LettersAt(ds);
    forall i | 0 <= i < |ds|
      ensures Known(Letters(ds)[i])
    {
      PositionOfLetter(ds[i]);
    }
    if ds != [] {
      var k := |ds| - 1;
      ScanLetters(ds[..k]);
      LettersAt(ds[..k]);
      assert Letters(ds)[..k] == Letters(ds[..k]);
      PositionOfLetter(ds[k]);
      LetterNotSpecial(ds[k]);
      assert ds == ds[..k] + [ds[k]];
    }
  }

  lemma LetterNotSpecial(d: sextet)
    ensures !IsSpace(Letter(d)) && Letter(d) != '='
  {
  }

  lemma ScanPad(s: string)
    requires AllKnown(s)
    ensures AllKnown(s + "=")
    ensures Scan(s).Some? && Scan(s).value.1 < 2 ==> Scan(s + "=") == Some((Scan(s).value.0, Scan(s).value.1 + 1))
  {
    assert (s + "=")[..|s|] == s;
  }

  lemma ScanEncoded(raw: seq<byte>)
    ensures AllKnown(Encoded(raw)) && Scan(Encoded(raw)) == Some((Sextets(raw), |Padding(|raw|)|))
  {
    hide Scan;
    var letters := Letters(Sextets(raw));
    ScanLetters(Sextets(raw));
    hide Sextets, Letters;
    ScanPad(letters);
    ScanPad(letters + "=");
    assert letters + "" == letters;
    assert letters + "=" + "=" == letters + "==";
  }

  /** Whatever white space is put into an encoding, it decodes to what was encoded. */
  lemma RoundTrip(raw: seq<byte>, s: string)
    requires AllKnown(s) && Strip(s) == Encoded(raw)
    ensures Decoded(s) == Some(raw)
  {
    hide Scan, ByteAt, Sextets, Padding, Encoded, Strip, Bytes, Decoded;
    ScanStrip(s);
    ScanEncoded(raw);
    SextetCount(raw);
    PadBits(|raw|);
    DecodedWhole(s, |raw|);
    forall j | 0 <= j < |raw|
      ensures ByteAt(Sextets(raw), j) == raw[j]
    {
      SextetsBack(raw, j);
    }
    assert Bytes(Sextets(raw), |raw|) == raw;
  }

  lemma DecodedWhole(s: string, len: nat)
    requires AllKnown(s) && Scan(s).Some?
    requires 6 * |Scan(s).value.0| - 2 * Scan(s).value.1 == 8 * len
    ensures Decoded(s) == Some(Bytes(Scan(s).value.0, len))
  {
    hide Scan, Bytes;
  }

  lemma PadBits(len: nat)
    ensures 6 * ((8 * len + 5) / 6) - 2 * |Padding(len)| == 8 * len
  {
    var q, r := len / 3, len % 3;
    GroupCounts(q, r);
  }

  /** An encoding as it stands decodes to what was encoded. */
  lemma PlainRoundTrip(raw: seq<byte>)
    ensures AllKnown(Encoded(raw)) && Decoded(Encoded(raw)) == Some(raw)
  {
    hide Scan, Sextets, Letters;
    ScanEncoded(raw);
    var ds, s := Sextets(raw), Encoded(raw);
    LettersAt(ds);
    forall i | 0 <= i < |s|
      ensures !IsSpace(s[i])
    {
      if i < |ds| {
        LetterNotSpecial(ds[i]);
      }
    }
    StripNothing(s);
    RoundTrip(raw, s);
  }

  lemma {:induction false} StripNothing(s: string)
    requires forall i :: 0 <= i < |s| ==> !IsSpace(s[i])
    ensures Strip(s) == s
  {
    if s != "" {
      StripNothing(s[..|s| - 1]);
    }
  }
}
