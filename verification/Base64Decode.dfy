/** Decoding base 64 into a buffer, or-ing in six bits at a time. */
module Base64Decode {
  import opened Bits
  import opened Base64Spec
  import opened Base64
  import opened Ctype
  import opened Wrappers

  lemma AtAppend(ds: seq<sextet>, d: sextet, k: nat)
    ensures At(ds + [d], k) == if k == |ds| then d else At(ds, k)
  {
  }

  /** The bytes that value number n has bits in. */
  lemma Touched(ds: seq<sextet>, d: sextet, j: nat)
    ensures var n := |ds|; j != 6 * n / 8 && j != 6 * n / 8 + 1 ==> ByteAt(ds + [d], j) == ByteAt(ds, j)
  {
    var n, k := |ds|, j / 3 * 4;
    AtAppend(ds, d, k);
    AtAppend(ds, d, k + 1);
    AtAppend(ds, d, k + 2);
    AtAppend(ds, d, k + 3);
    hide At;
    var q, r := n / 4, n % 4;
    assert n == 4 * q + r;
    Place(q, r);
  }

  /** Where value number 4q + r starts. */
  lemma Place(q: nat, r: nat)
    requires r < 4
    ensures var n := 4 * q + r;
            && 6 * n / 8 == 3 * q + (if r == 0 || r == 1 then 0 else r - 1)
            && 6 * n % 8 == (if r == 0 then 0 else 8 - 2 * r)
  {
    var n, e := 4 * q + r, 6 * r;
    assert 6 * n == 8 * (3 * q) + e;
    EightsDrop(3 * q, e);
  }

  /** What is or-ed into the two bytes. */
  lemma OrIn(ds: seq<sextet>, d: sextet)
    ensures var i, shift := 6 * |ds| / 8, 6 * |ds| % 8;
            && shift in {0, 2, 4, 6}
            && ByteAt(ds + [d], i) == Or(ByteAt(ds, i), Shr(Shl(d, 2), shift))
            && ByteAt(ds + [d], i + 1) == Or(ByteAt(ds, i + 1), Shl(Shl(d, 2), 8 - shift) % 256)
  {
    var q, r := |ds| / 4, |ds| % 4;
    assert |ds| == 4 * q + r;
    Place(q, r);
    OrInGroup(ds, d, q, r);
    hide Or, Shl, Shr, ByteAt;
  }

  lemma OrInGroup(ds: seq<sextet>, d: sextet, q: nat, r: nat)
    requires r < 4 && |ds| == 4 * q + r
    ensures var i, shift := 3 * q + (if r == 0 || r == 1 then 0 else r - 1), if r == 0 then 0 else 8 - 2 * r;
            && ByteAt(ds + [d], i) == Or(ByteAt(ds, i), Shr(Shl(d, 2), shift))
            && ByteAt(ds + [d], i + 1) == Or(ByteAt(ds, i + 1), Shl(Shl(d, 2), 8 - shift) % 256)
  {
    hide Or, Shl, Shr, ByteAt, At;
    BytesAppend(ds, d, q, r);
    BytesBefore(ds, d, q, r);
    ShiftForms(d);
  }

  /** The two parts of a value shifted to its place. */
  lemma ShiftForms(d: sextet)
    ensures var x := Shl(d, 2);
            && Shr(x, 0) == 4 * d && Shr(x, 6) == d / 16 && Shr(x, 4) == d / 4 && Shr(x, 2) == d
            && Shl(x, 8) % 256 == 0 && Shl(x, 2) % 256 == 16 * d % 256 && Shl(x, 4) % 256 == 64 * d % 256
            && Shl(x, 6) % 256 == 0
  {
    hide Shl, Shr;
    ShlCases(d);
    ShlCases(4 * d);
    ShrCases(4 * d);
  }

  /** Or-ing in adds, since the bits are still clear. */
  lemma BytesBefore(ds: seq<sextet>, d: sextet, q: nat, r: nat)
    requires r < 4 && |ds| == 4 * q + r
    ensures r == 0 ==> Or(ByteAt(ds, 3 * q), 4 * d) == 4 * d && Or(ByteAt(ds, 3 * q + 1), 0) == 0
    ensures r == 1 ==> Or(ByteAt(ds, 3 * q), d / 16) == ByteAt(ds, 3 * q) + d / 16 && Or(ByteAt(ds, 3 * q + 1), 16 * d % 256) == d % 16 * 16
    ensures r == 2 ==> Or(ByteAt(ds, 3 * q + 1), d / 4) == ByteAt(ds, 3 * q + 1) + d / 4 && Or(ByteAt(ds, 3 * q + 2), 64 * d % 256) == d % 4 * 64
    ensures r == 3 ==> Or(ByteAt(ds, 3 * q + 2), d) == ByteAt(ds, 3 * q + 2) + d && Or(ByteAt(ds, 3 * q + 3), 0) == 0
    ensures 256 * d % 256 == 0
  {
    hide Or, ByteAt, At;
    ByteForms(ds, q);
    AtBeyond(ds, 4 * q + r);
    OrPieces(At(ds, 4 * q), At(ds, 4 * q + 1), At(ds, 4 * q + 2), d);
  }

  /** The two bytes before and after a value is appended. */
  lemma BytesAppend(ds: seq<sextet>, d: sextet, q: nat, r: nat)
    requires r < 4 && |ds| == 4 * q + r
    ensures var es := ds + [d];
            && (r == 0 ==> ByteAt(es, 3 * q) == 4 * d && ByteAt(es, 3 * q + 1) == 0)
            && (r == 1 ==> ByteAt(es, 3 * q) == ByteAt(ds, 3 * q) + d / 16 && ByteAt(es, 3 * q + 1) == d % 16 * 16)
            && (r == 2 ==> ByteAt(es, 3 * q + 1) == ByteAt(ds, 3 * q + 1) + d / 4 && ByteAt(es, 3 * q + 2) == d % 4 * 64)
            && (r == 3 ==> ByteAt(es, 3 * q + 2) == ByteAt(ds, 3 * q + 2) + d && ByteAt(es, 3 * q + 3) == 0)
  {
    hide ByteAt, At;
    var k, es := 4 * q, ds + [d];
    ByteForms(ds, q);
    ByteForms(es, q);
    AtAppend(ds, d, k);
    AtAppend(ds, d, k + 1);
    AtAppend(ds, d, k + 2);
    AtAppend(ds, d, k + 3);
    AtAppend(ds, d, k + 4);
    AtAppend(ds, d, k + 5);
    AtBeyond(ds, k + r);
  }

  lemma AtBeyond(ds: seq<sextet>, n: nat)
    requires n >= |ds|
    ensures At(ds, n) == 0 && At(ds, n + 1) == 0 && At(ds, n + 2) == 0 && At(ds, n + 3) == 0 && At(ds, n + 4) == 0 && At(ds, n + 5) == 0
  {
  }

  lemma ByteForms(ds: seq<sextet>, q: nat)
    ensures ByteAt(ds, 3 * q) == At(ds, 4 * q) * 4 + At(ds, 4 * q + 1) / 16
    ensures ByteAt(ds, 3 * q + 1) == At(ds, 4 * q + 1) % 16 * 16 + At(ds, 4 * q + 2) / 4
    ensures ByteAt(ds, 3 * q + 2) == At(ds, 4 * q + 2) % 4 * 64 + At(ds, 4 * q + 3)
    ensures ByteAt(ds, 3 * q + 3) == At(ds, 4 * q + 4) * 4 + At(ds, 4 * q + 5) / 16
  {
    hide At;
    assert (3 * q) / 3 == q && (3 * q + 1) / 3 == q && (3 * q + 2) / 3 == q && (3 * q + 3) / 3 == q + 1;
    assert (3 * q) % 3 == 0 && (3 * q + 1) % 3 == 1 && (3 * q + 2) % 3 == 2 && (3 * q + 3) % 3 == 0;
  }

  lemma OrNothing(x: nat)
    requires x < 256
    ensures Or(0, x) == x
  {
    WordWidth();
    ShlCases(0);
    OrParts(0, x, 8);
  }

  lemma OrPieces(a: sextet, b: sextet, c: sextet, d: sextet)
    ensures Or(0, 4 * d) == 4 * d && Or(0, 0) == 0
    ensures Or(a * 4, d / 16) == a * 4 + d / 16 && Or(0, 16 * d % 256) == d % 16 * 16
    ensures Or(b % 16 * 16, d / 4) == b % 16 * 16 + d / 4 && Or(0, 64 * d % 256) == d % 4 * 64
    ensures Or(c % 4 * 64, d) == c % 4 * 64 + d && 256 * d % 256 == 0
  {
    hide Or;
    WordWidth();
    OrNothing(4 * d);
    OrNothing(0);
    RemainderUnique(16 * d, d / 16, d % 16 * 16, 256);
    RemainderUnique(64 * d, d / 4, d % 4 * 64, 256);
    OrNothing(16 * d % 256);
    OrNothing(64 * d % 256);
    ShlCases(a);
    ShlCases(b % 16);
    ShlCases(c % 4);
    OrParts(a, d / 16, 2);
    OrParts(b % 16, d / 4, 4);
    OrParts(c % 4, d, 6);
  }

  // ---------------------------------------------------------------------------

  /** A 32-bit unsigned number. */
  function Wrapped(x: int): nat {
    x % 0x1_0000_0000
  }

  function MaxLen(encoded: string): nat {
    (|encoded| + 3) / 4 * 3
  }

  /** The bytes so far are those of the values so far. */
  ghost predicate Holds(raw: seq<byte>, n: nat, ds: seq<sextet>) {
    n <= |raw| && forall j :: 0 <= j < n ==> raw[j] == ByteAt(ds, j)
  }

  lemma NoBytes(raw: seq<byte>, n: nat)
    requires n <= |raw| && forall j :: 0 <= j < n ==> raw[j] == 0
    ensures Holds(raw, n, [])
  {
  }

  /** An error stays an error. */
  lemma {:induction false} ScanFails(s: string, i: nat)
    requires AllKnown(s) && i <= |s| && Scan(s[..i]).None?
    ensures Scan(s).None?
  {
    if i < |s| {
      var t := s[..|s| - 1];
      assert t[..i] == s[..i];
      ScanFails(t, i);
    } else {
      assert s[..i] == s;
    }
  }

  /** There is room for the bytes that a value has bits in. */
  lemma RoomFor(n: nat, m: nat)
    requires n < m
    ensures 6 * n / 8 < (m + 3) / 4 * 3 && 6 * n / 8 + 1 <= (m + 3) / 4 * 3
  {
    var q, r := n / 4, n % 4;
    Place(q, r);
    assert (m + 3) / 4 >= q + 1;
  }

  lemma {:induction false} OrBelow(a: nat, b: nat, k: nat, n: nat)
    requires a < Pow2(k) && b < Pow2(k)
    ensures OrBits(a, b, n) < Pow2(k)
  {
    if n > 0 && k > 0 {
      OrBelow(a / 2, b / 2, k - 1, n - 1);
    } else if n > 0 {
      NoBits(n);
    } else {
      ShlLess(0, 1, k);
      ShlZero(k);
    }
  }

  lemma {:induction false} NoBits(n: nat)
    ensures OrBits(0, 0, n) == 0
  {
    if n > 0 {
      NoBits(n - 1);
    }
  }

  lemma OrByte(a: byte, b: byte)
    ensures Or(a, b) < 256
  {
    WordWidth();
    OrBelow(a, b, 8, 16);
  }

  /** A value whose second byte would start another group has no bits for it. */
  lemma SpareByte(n: nat, d: sextet)
    requires (6 * n / 8 + 1) % 3 == 0
    ensures 6 * n % 8 == 2 && Shl(Shl(d, 2), 6) % 256 == 0
  {
    var q, r := n / 4, n % 4;
    assert n == 4 * q + r;
    Place(q, r);
    ShlCases(d);
    ShlCases(4 * d);
  }

  /** Or-s a value in at its place. */
  method AddValue(raw: array<byte>, max: nat, bit: nat, ghost ds: seq<sextet>, d: sextet)
    requires Holds(raw[..], max, ds) && bit == 6 * |ds| && max % 3 == 0 && bit / 8 + 1 <= max <= raw.Length
    requires bit / 8 + 1 < raw.Length
    modifies raw
    ensures Holds(raw[..], max, ds + [d]) && raw[max..] == old(raw[max..])
  {
    hide Or, Shl, Shr, ByteAt;
    OrIn(ds, d);
    ghost var was := raw[..];
    var i, shift := bit / 8, bit % 8;
    var decoded := Shl(d, 2);
    raw[i] := Or(raw[i], Shr(decoded, shift));
    OrByte(raw[i + 1], Shl(decoded, 8 - shift) % 256);
    if i + 1 == max {
      SpareByte(|ds|, d);
      OrZeroByte(raw[i + 1]);
    }
    raw[i + 1] := Or(raw[i + 1], Shl(decoded, 8 - shift) % 256);
    forall j | 0 <= j < max
      ensures raw[j] == ByteAt(ds + [d], j)
    {
      assert was[j] == ByteAt(ds, j);
      Touched(ds, d, j);
    }
    assert was[max..] == old(raw[max..]);
  }

  lemma OrZeroByte(x: byte)
    ensures Or(x, 0) == x
  {
    WordWidth();
    OrZero(x, 16);
  }

  // ---------------------------------------------------------------------------
  // The byte after the buffer.

  predicate AllLetters(s: string) {
    forall i :: 0 <= i < |s| ==> IsLetter(s[i])
  }

  /** Nothing but letters, in whole groups. */
  predicate Full(s: string) {
    s != "" && |s| % 4 == 0 && AllLetters(s)
  }

  /** Character i is or-ed in, into the bytes that value number n has bits in. */
  predicate OredIn(s: string, i: nat, n: nat)
    requires AllKnown(s)
  {
    && i < |s| && IsLetter(s[i])
    && var r := Scan(s[..i]);
       r.Some? && r.value.1 == 0 && n == |r.value.0|
  }

  /** Some character is or-ed into a byte after the documented buffer. */
  ghost predicate ReachesPast(s: string)
    requires AllKnown(s)
  {
    exists i: nat, n: nat :: OredIn(s, i, n) && 6 * n / 8 + 1 >= MaxLen(s)
  }

  /** There are at most as many values as characters, and as many only if all are letters. */
  lemma {:induction false} LetterCount(s: string)
    requires AllKnown(s)
    ensures Scan(s).Some? ==> |Scan(s).value.0| <= |s| && (|Scan(s).value.0| == |s| ==> AllLetters(s))
    ensures AllLetters(s) ==> Scan(s).Some? && Scan(s).value.1 == 0 && |Scan(s).value.0| == |s|
  {
    if s != "" {
      var t := s[..|s| - 1];
      LetterCount(t);
      LetterOnly(s[|s| - 1]);
      if AllLetters(s) {
        assert AllLetters(t);
      }
    }
  }

  lemma LetterOnly(c: char)
    ensures IsLetter(c) ==> !IsSpace(c) && c != '='
  {
  }

  lemma PastIff(n: nat, m: nat)
    requires n < m
    ensures 6 * n / 8 + 1 >= (m + 3) / 4 * 3 <==> n + 1 == m && m % 4 == 0
  {
    var q, r := n / 4, n % 4;
    Place(q, r);
    var p, e := m / 4, m % 4;
    assert m == 4 * p + e && (m + 3) / 4 == p + (if e == 0 then 0 else 1);
  }

  /**
   The documented buffer has room for all the bytes that can come out, but the last character
   is also or-ed into the byte after it, without changing it, exactly when the string is
   nothing but letters in whole groups.
   */
  lemma ReachesPastIff(s: string)
    requires AllKnown(s)
    ensures ReachesPast(s) <==> Full(s)
  {
    hide Scan;
    if ReachesPast(s) {
      var i: nat, n: nat :| OredIn(s, i, n) && 6 * n / 8 + 1 >= MaxLen(s);
      LetterCount(s[..i]);
      PastIff(n, |s|);
      assert s == s[..i] + [s[i]];
    }
    if Full(s) {
      var i := |s| - 1;
      LetterCount(s[..i]);
      PastIff(i, |s|);
      assert OredIn(s, i, i);
    }
  }

  /** One group of letters does it. */
  lemma ReachesPastExample()
    ensures AllKnown("AAAA") && MaxLen("AAAA") == 3 && ReachesPast("AAAA")
  {
    ReachesPastIff("AAAA");
  }

  /**
   Decodes a string; the result is the number of bytes, or -1 for an improper string.  The
   documented buffer is enough unless the string is full; then it takes one byte more.
   */
  method Decode(encoded: string, raw: array<byte>) returns (len: int)
    requires AllKnown(encoded) && 6 * |encoded| < 0x1_0000_0000
    requires raw.Length >= if Full(encoded) then MaxLen(encoded) + 1 else MaxLen(encoded)
    modifies raw
    ensures match Decoded(encoded) {
              case Some(bytes) => len == |bytes| && len <= MaxLen(encoded) && raw[..len] == bytes
              case None => len == -1
            }
    ensures raw[MaxLen(encoded)..] == old(raw[MaxLen(encoded)..])
  {
    hide Scan, Holds, Wrapped, Position, Bytes, Full, ReachesPast;
    ReachesPastIff(encoded);
    var max := MaxLen(encoded);
    Clear(raw, max);
    ghost var ds: seq<sextet> := [];
    var bit, pads := 0, 0;
    var i := 0;
    ScanNothing(encoded);
    WrapSmall(0);
    while i < |encoded|
      invariant 0 <= i <= |encoded| && Scan(encoded[..i]) == Some((ds, pads)) && |ds| <= i && pads <= 2
      invariant bit == Wrapped(6 * |ds| - 2 * pads) && (pads == 0 ==> bit == 6 * |ds|)
      invariant Holds(raw[..], max, ds) && raw[max..] == old(raw[max..])
    {
      var c := encoded[i];
      ScanStep(encoded, i);
      i := i + 1;
      if IsSpace(c) {
        continue;
      }
      if c == '=' {
        if pads >= 2 {
          ScanFails(encoded, i);
          return -1;
        }
        pads := pads + 1;
        WrapStep(6 * |ds| - 2 * (pads - 1));
        bit := Wrapped(bit as int - 2);
        continue;
      }
      if pads > 0 {
        ScanFails(encoded, i);
        return -1;
      }
      var d := Position(c);
      RoomFor(|ds|, |encoded|);
      NotPast(encoded, i - 1, ds);
      AddValue(raw, max, bit, ds, d);
      ds := ds + [d];
      bit := bit + 6;
      WrapSmall(bit);
    }
    assert encoded[..i] == encoded;
    BitCount(|ds|, pads, bit);
    if bit % 8 != 0 {
      return -1;
    }
    len := bit / 8;
    RoomAll(|ds|, |encoded|);
    HoldsBytes(raw[..], max, ds, len);
    assert raw[..][..len] == raw[..len];
  }

  lemma NotPast(s: string, i: nat, ds: seq<sextet>)
    requires AllKnown(s) && i < |s| && IsLetter(s[i]) && Scan(s[..i]) == Some((ds, 0))
    ensures !ReachesPast(s) ==> 6 * |ds| / 8 + 1 < MaxLen(s)
  {
    assert OredIn(s, i, |ds|);
  }

  method Clear(raw: array<byte>, n: nat)
    requires n <= raw.Length
    modifies raw
    ensures Holds(raw[..], n, []) && raw[n..] == old(raw[n..])
  {
    var z := 0;
    while z < n
      invariant 0 <= z <= n && (forall j :: 0 <= j < z ==> raw[j] == 0) && raw[n..] == old(raw[n..])
    {
      raw[z] := 0;
      z := z + 1;
    }
    NoBytes(raw[..], n);
  }

  lemma ScanNothing(s: string)
    ensures Scan(s[..0]) == Some(([], 0))
  {
  }

  lemma ScanStep(s: string, i: nat)
    requires AllKnown(s) && i < |s| && Scan(s[..i]).Some?
    ensures var r, c := Scan(s[..i]).value, s[i];
            Scan(s[..i + 1]) ==
            if IsSpace(c) then Some(r)
            else if c == '=' then if r.1 >= 2 then None else Some((r.0, r.1 + 1))
            else if r.1 > 0 then None else Some((r.0 + [Position(c)], 0))
  {
    assert s[..i + 1][..i] == s[..i];
  }

  lemma WrapStep(x: int)
    ensures Wrapped(Wrapped(x) - 2) == Wrapped(x - 2)
  {
  }

  lemma WrapSmall(x: nat)
    requires x < 0x1_0000_0000
    ensures Wrapped(x) == x
  {
  }

  /** The wrapped bit count is a multiple of eight just when the real one is, which is then not negative. */
  lemma BitCount(n: nat, p: nat, bit: int)
    requires p <= 2 && 6 * n < 0x1_0000_0000 && bit == Wrapped(6 * n - 2 * p)
    ensures bit % 8 == 0 <==> (6 * n - 2 * p) % 8 == 0
    ensures bit % 8 == 0 ==> bit == 6 * n - 2 * p
  {
    if 6 * n < 2 * p {
      assert bit == 0x1_0000_0000 + (6 * n - 2 * p);
    }
  }

  lemma RoomAll(n: nat, m: nat)
    requires n <= m
    ensures 6 * n / 8 <= (m + 3) / 4 * 3
  {
    if n > 0 {
      RoomFor(n - 1, m);
    }
  }

  lemma HoldsBytes(raw: seq<byte>, max: nat, ds: seq<sextet>, n: nat)
    requires Holds(raw, max, ds) && n <= max
    ensures raw[..n] == Bytes(ds, n)
  {
  }
}
