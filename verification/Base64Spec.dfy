/** Base 64 as in section 4 of RFC 4648: three bytes are four characters. */
module Base64Spec {
  import opened Bits

  type sextet = x: int | 0 <= x < 64

  /** The character of a value: the upper-case letters, the lower-case ones, the digits, + and /. */
  function Letter(d: sextet): char {
    if d < 26 then (d + 'A' as int) as char
    else if d < 52 then (d - 26 + 'a' as int) as char
    else if d < 62 then (d - 52 + '0' as int) as char
    else if d == 62 then '+' else '/'
  }

  /** The alphabet: three runs of consecutive characters and two more. */
  lemma Alphabet(d: sextet)
    ensures Letter(0) == 'A' && Letter(25) == 'Z' && Letter(26) == 'a' && Letter(51) == 'z'
    ensures Letter(52) == '0' && Letter(61) == '9' && Letter(62) == '+' && Letter(63) == '/'
    ensures d < 61 && d != 25 && d != 51 ==> Letter(d + 1) as int == Letter(d) as int + 1
  {
  }

  predicate IsLetter(c: char) {
    'A' <= c <= 'Z' || 'a' <= c <= 'z' || '0' <= c <= '9' || c == '+' || c == '/'
  }

  function Position(c: char): (d: sextet)
    requires IsLetter(c)
    ensures Letter(d) == c
  {
    if 'A' <= c <= 'Z' then c as int - 'A' as int
    else if 'a' <= c <= 'z' then c as int - 'a' as int + 26
    else if '0' <= c <= '9' then c as int - '0' as int + 52
    else if c == '+' then 62 else 63
  }

  lemma PositionOfLetter(d: sextet)
    ensures IsLetter(Letter(d)) && Position(Letter(d)) == d
  {
  }

  // ---------------------------------------------------------------------------
  // Encoding by groups.

  function First(a: byte): sextet {
    a / 4
  }

  function Second(a: byte, b: byte): sextet {
    a % 4 * 16 + b / 16
  }

  function Third(b: byte, c: byte): sextet {
    b % 16 * 4 + c / 64
  }

  function Fourth(c: byte): sextet {
    c % 64
  }

  function Letters(ds: seq<sextet>): string {
    if ds == [] then "" else [Letter(ds[0])] + Letters(ds[1..])
  }

  /** The values that the bytes are cut up into. */
  function Sextets(raw: seq<byte>): seq<sextet> {
    if raw == [] then []
    else if |raw| == 1 then [First(raw[0]), Second(raw[0], 0)]
    else if |raw| == 2 then [First(raw[0]), Second(raw[0], raw[1]), Third(raw[1], 0)]
    else [First(raw[0]), Second(raw[0], raw[1]), Third(raw[1], raw[2]), Fourth(raw[2])] + Sextets(raw[3..])
  }

  function Padding(n: nat): string {
    if n % 3 == 1 then "==" else if n % 3 == 2 then "=" else ""
  }

  function Encoded(raw: seq<byte>): string {
    Letters(Sextets(raw)) + Padding(|raw|)
  }

  lemma {:induction false} SextetCount(raw: seq<byte>)
    ensures |Sextets(raw)| == (8 * |raw| + 5) / 6
    ensures |Sextets(raw)| + |Padding(|raw|)| == (|raw| + 2) / 3 * 4
  {
    hide Sextets, Padding;
    if |raw| < 3 {
      FewSextets(raw);
    } else {
      MoreSextets(raw);
      SamePadding(|raw|);
      SextetCount(raw[3..]);
    }
  }

  lemma FewSextets(raw: seq<byte>)
    requires |raw| < 3
    ensures |Sextets(raw)| == (8 * |raw| + 5) / 6
    ensures |Sextets(raw)| + |Padding(|raw|)| == (|raw| + 2) / 3 * 4
  {
    hide First, Second, Third, Fourth;
  }

  lemma MoreSextets(raw: seq<byte>)
    requires |raw| >= 3
    ensures |Sextets(raw)| == 4 + |Sextets(raw[3..])|
  {
    hide First, Second, Third, Fourth;
  }

  lemma SamePadding(n: nat)
    requires n >= 3
    ensures Padding(n) == Padding(n - 3)
  {
  }

  lemma {:induction false} LettersAt(ds: seq<sextet>)
    ensures |Letters(ds)| == |ds| && forall k :: 0 <= k < |ds| ==> Letters(ds)[k] == Letter(ds[k])
  {
    if ds != [] {
      LettersAt(ds[1..]);
    }
  }

  /** The encoding is four characters for every three bytes begun. */
  lemma EncodedLength(raw: seq<byte>)
    ensures |Encoded(raw)| == (|raw| + 2) / 3 * 4
  {
    SextetCount(raw);
    LettersAt(Sextets(raw));
  }

  /** The examples of section 10 of RFC 4648. */
  lemma EncodedExamples()
    ensures Encoded([0x66]) == "Zg==" && Encoded([0x66, 0x6f]) == "Zm8=" && Encoded([0x66, 0x6f, 0x6f]) == "Zm9v"
  {
    ExampleSextets();
    hide Sextets;
    LettersAt([25, 32]);
    LettersAt([25, 38, 60]);
    LettersAt([25, 38, 61, 47]);
    hide Letters;
    assert Letters([25, 32]) == "Zg" && Letters([25, 38, 60]) == "Zm8" && Letters([25, 38, 61, 47]) == "Zm9v";
  }

  lemma ExampleSextets()
    ensures Sextets([0x66]) == [25, 32] && Sextets([0x66, 0x6f]) == [25, 38, 60] && Sextets([0x66, 0x6f, 0x6f]) == [25, 38, 61, 47]
  {
    var three: seq<byte> := [0x66, 0x6f, 0x6f];
    assert three[3..] == [];
  }

  // ---------------------------------------------------------------------------
  // Bytes out of values.

  function At(ds: seq<sextet>, k: nat): sextet {
    if k < |ds| then ds[k] else 0
  }

  /** Byte j of the bits of the values, with zeros after the last. */
  function ByteAt(ds: seq<sextet>, j: nat): byte {
    var k := j / 3 * 4;
    if j % 3 == 0 then At(ds, k) * 4 + At(ds, k + 1) / 16
    else if j % 3 == 1 then At(ds, k + 1) % 16 * 16 + At(ds, k + 2) / 4
    else At(ds, k + 2) % 4 * 64 + At(ds, k + 3)
  }

  lemma GroupBytes(a: byte, b: byte, c: byte)
    ensures First(a) * 4 + Second(a, b) / 16 == a
    ensures Second(a, b) % 16 * 16 + Third(b, c) / 4 == b
    ensures Third(b, c) % 4 * 64 + Fourth(c) == c
  {
  }

  lemma ByteShift(g: seq<sextet>, es: seq<sextet>, j: nat)
    requires |g| == 4 && j >= 3
    ensures ByteAt(g + es, j) == ByteAt(es, j - 3)
  {
    var ds, k := g + es, (j - 3) / 3 * 4;
    assert j / 3 * 4 == k + 4 && j % 3 == (j - 3) % 3;
    assert forall m: nat :: At(ds, m + 4) == At(es, m);
    assert At(ds, k + 4) == At(es, k) && At(ds, k + 5) == At(es, k + 1) && At(ds, k + 6) == At(es, k + 2) && At(ds, k + 7) == At(es, k + 3);
  }

  /** The bytes come out of their values again. */
  lemma {:induction false} SextetsBack(raw: seq<byte>, j: nat)
    requires j < |raw|
    ensures ByteAt(Sextets(raw), j) == raw[j]
  {
    hide First, Second, Third, Fourth;
    GroupBytes(raw[0], if |raw| > 1 then raw[1] else 0, if |raw| > 2 then raw[2] else 0);
    if j >= 3 {
      SextetsBack(raw[3..], j - 3);
      var g := [First(raw[0]), Second(raw[0], raw[1]), Third(raw[1], raw[2]), Fourth(raw[2])];
      ByteShift(g, Sextets(raw[3..]), j);
    }
  }

  function RawAt(raw: seq<byte>, i: nat): byte {
    if i < |raw| then raw[i] else 0
  }

  /** Value number p of the bytes, by its place in its group. */
  function Cut(raw: seq<byte>, p: nat): sextet {
    var i := p / 4 * 3;
    if p % 4 == 0 then First(RawAt(raw, i))
    else if p % 4 == 1 then Second(RawAt(raw, i), RawAt(raw, i + 1))
    else if p % 4 == 2 then Third(RawAt(raw, i + 1), RawAt(raw, i + 2))
    else Fourth(RawAt(raw, i + 2))
  }

  lemma {:induction false} SextetsCut(raw: seq<byte>, p: nat)
    requires p < |Sextets(raw)|
    ensures Sextets(raw)[p] == Cut(raw, p)
  {
    hide First, Second, Third, Fourth;
    if |raw| >= 3 && p >= 4 {
      var rest := raw[3..];
      SextetsCut(rest, p - 4);
      var i := (p - 4) / 4 * 3;
      assert p / 4 * 3 == i + 3 && p % 4 == (p - 4) % 4;
      assert forall m: nat :: RawAt(raw, m + 3) == RawAt(rest, m);
      assert RawAt(raw, i + 3) == RawAt(rest, i) && RawAt(raw, i + 4) == RawAt(rest, i + 1) && RawAt(raw, i + 5) == RawAt(rest, i + 2);
    }
  }
}
