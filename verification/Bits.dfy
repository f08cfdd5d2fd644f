/**
 Bit strings, and machine words as bit strings.

 A bit string is a `seq<bool>` read in stream order.  The same bit string has two
 numeric readings: `Lsb`, which takes the first bit as the least significant (the
 reading of every fixed-width DEFLATE field), and `Msb`, which takes the first bit as
 the most significant (the reading of every Huffman code).
 */
module Bits {

  type byte = x: int | 0 <= x < 256

  type BitString = seq<bool>

  /** x << n, unbounded. */
  function Shl(x: nat, n: nat): nat {
    if n == 0 then x else 2 * Shl(x, n - 1)
  }

  /** x >> n. */
  function Shr(x: nat, n: nat): nat {
    if n == 0 then x else Shr(x, n - 1) / 2
  }

  function Pow2(n: nat): nat {
    Shl(1, n)
  }

  function Bit(b: bool): nat {
    if b then 1 else 0
  }

  /** The value of a bit string whose first bit is least significant. */
  function Lsb(s: BitString): (v: nat)
    ensures v < Pow2(|s|)
  {
    if s == [] then 0 else Bit(s[0]) + 2 * Lsb(s[1..])
  }

  /** The value of a bit string whose first bit is most significant. */
  function Msb(s: BitString): (v: nat)
    ensures v < Pow2(|s|)
  {
    if s == [] then 0 else 2 * Msb(s[..|s| - 1]) + Bit(s[|s| - 1])
  }

  /** The low n bits of v, least significant first. */
  function LsbBits(v: nat, n: nat): (s: BitString)
    ensures |s| == n
  {
    if n == 0 then [] else [v % 2 == 1] + LsbBits(v / 2, n - 1)
  }

  /** The low n bits of v, most significant first. */
  function MsbBits(v: nat, n: nat): (s: BitString)
    ensures |s| == n
  {
    if n == 0 then [] else MsbBits(v / 2, n - 1) + [v % 2 == 1]
  }

  function Zeros(n: nat): (s: BitString)
    ensures |s| == n
    ensures forall i :: 0 <= i < n ==> !s[i]
  {
    seq(n, i => false)
  }

  function Reversed(s: BitString): (r: BitString)
    ensures |r| == |s|
    ensures forall i :: 0 <= i < |s| ==> r[i] == s[|s| - 1 - i]
  {
    seq(|s|, i requires 0 <= i < |s| => s[|s| - 1 - i])
  }

  function ByteBits(b: byte): (s: BitString)
    ensures |s| == 8
  {
    LsbBits(b, 8)
  }

  /** The bits of a byte string, in stream order. */
  function BytesBits(bytes: seq<byte>): (s: BitString)
    ensures |s| == 8 * |bytes|
  {
    if bytes == [] then [] else ByteBits(bytes[0]) + BytesBits(bytes[1..])
  }

  /** The concatenation of a list of byte strings. */
  function Concat(chunks: seq<seq<byte>>): seq<byte> {
    if chunks == [] then [] else chunks[0] + Concat(chunks[1..])
  }

  lemma {:induction false} ShlAdd(x: nat, y: nat, n: nat)
    ensures Shl(x + y, n) == Shl(x, n) + Shl(y, n)
  {
    if n > 0 {
      ShlAdd(x, y, n - 1);
    }
  }

  lemma {:induction false} ShlZero(n: nat)
    ensures Shl(0, n) == 0
  {
    if n > 0 {
      ShlZero(n - 1);
    }
  }

  lemma {:induction false} ShlLess(x: nat, y: nat, n: nat)
    ensures x < y <==> Shl(x, n) < Shl(y, n)
  {
    if n > 0 {
      ShlLess(x, y, n - 1);
    }
  }

  lemma ShlLeq(x: nat, y: nat, n: nat)
    ensures x <= y <==> Shl(x, n) <= Shl(y, n)
  {
    ShlLess(y, x, n);
  }

  lemma {:induction false} ShlDouble(x: nat, n: nat)
    ensures Shl(2 * x, n) == Shl(x, n + 1)
  {
    if n > 0 {
      ShlDouble(x, n - 1);
    }
  }

  lemma {:induction false} ShlShl(x: nat, m: nat, n: nat)
    ensures Shl(Shl(x, m), n) == Shl(x, m + n)
  {
    if n > 0 {
      ShlShl(x, m, n - 1);
    }
  }

  /** Shifting right is the inverse of shifting left, rounding down. */
  lemma {:induction false} ShrBounds(x: nat, n: nat)
    ensures Shl(Shr(x, n), n) <= x < Shl(Shr(x, n) + 1, n)
  {
    if n > 0 {
      ShrBounds(x, n - 1);
      var q := Shr(x, n - 1);
      ShlDouble(q / 2, n - 1);
      ShlDouble(q / 2 + 1, n - 1);
      ShlLeq(2 * (q / 2), q, n - 1);
      ShlLeq(q + 1, 2 * (q / 2 + 1), n - 1);
    }
  }

  lemma ShrUnique(x: nat, q: nat, n: nat)
    requires Shl(q, n) <= x < Shl(q + 1, n)
    ensures Shr(x, n) == q
  {
    ShrBounds(x, n);
    ShlLess(q, Shr(x, n) + 1, n);
    ShlLess(Shr(x, n), q + 1, n);
  }

  lemma Powers()
    ensures Pow2(2) == 4 && Pow2(3) == 8 && Pow2(4) == 16 && Pow2(5) == 32 && Pow2(7) == 128 && Pow2(8) == 256
    ensures Pow2(14) == 0x4000 && Pow2(16) == 0x10000
  {
    assert Pow2(4) == 16;
    assert Pow2(6) == 64;
    assert Pow2(8) == 256;
    assert Pow2(10) == 0x400;
    assert Pow2(12) == 0x1000;
    assert Pow2(14) == 0x4000;
  }

  lemma {:induction false} LsbRoundTrip(v: nat, n: nat)
    requires v < Pow2(n)
    ensures Lsb(LsbBits(v, n)) == v
  {
    if n == 0 {
    } else {
      LsbRoundTrip(v / 2, n - 1);
      assert LsbBits(v, n)[1..] == LsbBits(v / 2, n - 1);
    }
  }

  lemma {:induction false} LsbBitsOfLsb(s: BitString)
    ensures LsbBits(Lsb(s), |s|) == s
  {
    if s == [] {
    } else {
      LsbBitsOfLsb(s[1..]);
      assert Lsb(s) % 2 == Bit(s[0]);
      assert Lsb(s) / 2 == Lsb(s[1..]);
      assert s == [s[0]] + s[1..];
    }
  }

  lemma {:induction false} MsbRoundTrip(v: nat, n: nat)
    requires v < Pow2(n)
    ensures Msb(MsbBits(v, n)) == v
  {
    if n == 0 {
    } else {
      MsbRoundTrip(v / 2, n - 1);
      var s := MsbBits(v, n);
      assert s[..n - 1] == MsbBits(v / 2, n - 1);
    }
  }

  /** A word read backwards as a bit string has the other numeric reading. */
  lemma {:induction false} MsbIsLsbReversed(s: BitString)
    ensures Msb(s) == Lsb(Reversed(s))
  {
    if s == [] {
    } else {
      MsbIsLsbReversed(s[..|s| - 1]);
      assert Reversed(s)[1..] == Reversed(s[..|s| - 1]);
    }
  }

  /** Msb is positional: the value of a concatenation. */
  lemma {:induction false} MsbAppend(a: BitString, b: BitString)
    ensures Msb(a + b) == Shl(Msb(a), |b|) + Msb(b)
  {
    if b == [] {
      assert a + b == a;
    } else {
      var b' := b[..|b| - 1];
      MsbAppend(a, b');
      assert (a + b)[..|a + b| - 1] == a + b';
    }
  }

  lemma MsbLast(s: BitString)
    requires s != []
    ensures Msb(s[..|s| - 1]) == Msb(s) / 2 && s[|s| - 1] == (Msb(s) % 2 == 1)
  {
  }

  lemma {:induction false} MsbInjective(a: BitString, b: BitString)
    requires |a| == |b| && Msb(a) == Msb(b)
    ensures a == b
  {
    hide Msb;
    if a == [] {
    } else {
      var n := |a| - 1;
      MsbLast(a);
      MsbLast(b);
      MsbInjective(a[..n], b[..n]);
      assert a == a[..n] + [a[n]] && b == b[..n] + [b[n]];
    }
  }

  lemma {:induction false} MsbZeros(n: nat)
    ensures Msb(Zeros(n)) == 0
  {
    if n > 0 {
      assert Zeros(n)[..n - 1] == Zeros(n - 1);
      MsbZeros(n - 1);
    }
  }

  lemma {:induction false} BytesBitsAppend(a: seq<byte>, b: seq<byte>)
    ensures BytesBits(a + b) == BytesBits(a) + BytesBits(b)
  {
    if a == [] {
      assert a + b == b;
    } else {
      BytesBitsAppend(a[1..], b);
      assert (a + b)[1..] == a[1..] + b;
      calc {
        BytesBits(a + b);
        ByteBits(a[0]) + (BytesBits(a[1..]) + BytesBits(b));
        BytesBits(a) + BytesBits(b);
      }
    }
  }

  /** Division with remainder is unique. */
  lemma RemainderUnique(a: int, q: int, r: int, m: nat)
    requires m > 0 && a == q * m + r && 0 <= r < m
    ensures a % m == r
  {
    var q', r' := a / m, a % m;
    var d := q - q';
    assert d * m == r' - r;
  }
}
