/** Key wrapping as a function: six passes over the blocks, each step invertible. */
module AesWrapSpec {
  import opened Bits

  /** A cipher block. */
  type Block16 = s: seq<byte> | |s| == 16 witness [0, 0, 0, 0, 0, 0, 0, 0, 0, 0, 0, 0, 0, 0, 0, 0]

  type Cipher = Block16 -> Block16

  /** The two directions of a cipher undo each other. */
  ghost predicate Inverse(enc: Cipher, dec: Cipher) {
    && (forall b: Block16 :: dec(enc(b)) == b)
    && (forall b: Block16 :: enc(dec(b)) == b)
  }

  // ---------------------------------------------------------------------------
  // Exclusive or.

  function XorBit(a: nat, b: nat): nat {
    if a % 2 == b % 2 then 0 else 1
  }

  function XorBits(a: nat, b: nat, n: nat): (r: nat)
    ensures r < Pow2(n)
  {
    if n == 0 then 0 else XorBit(a, b) + 2 * XorBits(a / 2, b / 2, n - 1)
  }

  function Xor(a: byte, b: byte): (r: byte) {
    ByteWidth();
    XorBits(a, b, 8)
  }

  lemma ByteWidth()
    ensures Pow2(8) == 256
  {
    assert Pow2(2) == 4;
    assert Pow2(4) == 16;
    assert Pow2(6) == 64;
  }

  lemma {:induction false} XorBitsBack(a: nat, b: nat, n: nat)
    requires a < Pow2(n)
    ensures XorBits(XorBits(a, b, n), b, n) == a
  {
    if n > 0 {
      XorBitsBack(a / 2, b / 2, n - 1);
      var x, r := XorBits(a / 2, b / 2, n - 1), XorBits(a, b, n);
      assert r / 2 == x && r % 2 == XorBit(a, b);
      assert XorBit(r, b) == a % 2;
    }
  }

  lemma XorBack(a: byte, b: byte)
    ensures Xor(Xor(a, b), b) == a
  {
    ByteWidth();
    XorBitsBack(a, b, 8);
  }

  lemma {:induction false} XorBitsZero(a: nat, n: nat)
    requires a < Pow2(n)
    ensures XorBits(a, 0, n) == a
  {
    if n > 0 {
      XorBitsZero(a / 2, n - 1);
    }
  }

  lemma XorZero(a: byte)
    ensures Xor(a, 0) == a
  {
    ByteWidth();
    XorBitsZero(a, 8);
  }

  lemma {:induction false} XorBitsCommutes(a: nat, b: nat, n: nat)
    ensures XorBits(a, b, n) == XorBits(b, a, n)
  {
    if n > 0 {
      XorBitsCommutes(a / 2, b / 2, n - 1);
    }
  }

  /** Different masks give different results. */
  lemma XorInjective(a: byte, b: byte, c: byte)
    requires Xor(a, b) == Xor(a, c)
    ensures b == c
  {
    XorBitsCommutes(a, b, 8);
    XorBitsCommutes(a, c, 8);
    XorBack(b, a);
    XorBack(c, a);
  }

  // ---------------------------------------------------------------------------
  // Steps.  The check value is the first block of the data, the key data are the others.

  function Put(d: seq<byte>, p: nat, x: seq<byte>): (r: seq<byte>)
    requires p + |x| <= |d|
    ensures |r| == |d|
  {
    d[..p] + x + d[p + |x|..]
  }

  function MaskLast(a: seq<byte>, t: nat): (r: seq<byte>)
    requires |a| == 8
    ensures |r| == 8
  {
    a[7 := Xor(a[7], t % 256)]
  }

  predicate BlockIn(d: seq<byte>, i: nat) {
    i >= 1 && 8 * i + 8 <= |d|
  }

  /** One step with block i and counter t, of which only the last byte is used. */
  function Step(enc: Cipher, i: nat, t: nat, d: seq<byte>): (r: seq<byte>)
    requires BlockIn(d, i)
    ensures |r| == |d|
  {
    var b := enc(d[..8] + d[8 * i..8 * i + 8]);
    Put(Put(d, 0, MaskLast(b[..8], t)), 8 * i, b[8..])
  }

  function Unstep(dec: Cipher, i: nat, t: nat, d: seq<byte>): (r: seq<byte>)
    requires BlockIn(d, i)
    ensures |r| == |d|
  {
    var b := dec(MaskLast(d[..8], t) + d[8 * i..8 * i + 8]);
    Put(Put(d, 0, b[..8]), 8 * i, b[8..])
  }

  lemma MaskBack(a: seq<byte>, t: nat)
    requires |a| == 8
    ensures MaskLast(MaskLast(a, t), t) == a
  {
    XorBack(a[7], t % 256);
  }

  /** Two blocks put in can be read out again, and putting others over them forgets them. */
  lemma TwoPuts(d: seq<byte>, i: nat, x: seq<byte>, y: seq<byte>)
    requires BlockIn(d, i) && |x| == 8 && |y| == 8
    ensures var r := Put(Put(d, 0, x), 8 * i, y);
            && r[..8] == x && r[8 * i..8 * i + 8] == y
            && Put(Put(r, 0, d[..8]), 8 * i, d[8 * i..8 * i + 8]) == d
  {
    var p := 8 * i;
    var r := Put(Put(d, 0, x), p, y);
    var back := Put(Put(r, 0, d[..8]), p, d[p..p + 8]);
    forall k | 0 <= k < |d|
      ensures back[k] == d[k]
    {
      if k < 8 {
        assert back[k] == d[..8][k];
      } else if p <= k < p + 8 {
        assert back[k] == d[p..p + 8][k - p];
      } else {
        assert r[k] == d[k];
      }
    }
  }

  lemma UnstepStep(enc: Cipher, dec: Cipher, i: nat, t: nat, d: seq<byte>)
    requires Inverse(enc, dec) && BlockIn(d, i)
    ensures Unstep(dec, i, t, Step(enc, i, t, d)) == d
  {
    var whole: Block16 := d[..8] + d[8 * i..8 * i + 8];
    var b := enc(whole);
    TwoPuts(d, i, MaskLast(b[..8], t), b[8..]);
    MaskBack(b[..8], t);
    hide Put, MaskLast;
    assert b[..8] + b[8..] == b && dec(b) == whole;
    assert whole[..8] == d[..8] && whole[8..] == d[8 * i..8 * i + 8];
  }

  lemma StepUnstep(enc: Cipher, dec: Cipher, i: nat, t: nat, d: seq<byte>)
    requires Inverse(enc, dec) && BlockIn(d, i)
    ensures Step(enc, i, t, Unstep(dec, i, t, d)) == d
  {
    var whole: Block16 := MaskLast(d[..8], t) + d[8 * i..8 * i + 8];
    var b := dec(whole);
    TwoPuts(d, i, b[..8], b[8..]);
    MaskBack(d[..8], t);
    hide Put, MaskLast;
    assert b[..8] + b[8..] == b && enc(b) == whole;
    assert whole[..8] == MaskLast(d[..8], t) && whole[8..] == d[8 * i..8 * i + 8];
  }

  // ---------------------------------------------------------------------------
  // Passes.

  function Counter(n: nat, j: nat, i: nat): nat {
    n * j + i
  }

  lemma CounterGrows(n: nat, j: nat, i: nat)
    requires i <= n
    ensures Counter(n, j, i) <= Counter(n, j, n)
  {
  }

  /** The first i steps of pass j. */
  function Row(enc: Cipher, n: nat, j: nat, i: nat, d: seq<byte>): (r: seq<byte>)
    requires i <= n && |d| == 8 * n + 8
    ensures |r| == |d|
  {
    if i == 0 then d else Step(enc, i, Counter(n, j, i), Row(enc, n, j, i - 1, d))
  }

  function Unrow(dec: Cipher, n: nat, j: nat, i: nat, d: seq<byte>): (r: seq<byte>)
    requires i <= n && |d| == 8 * n + 8
    ensures |r| == |d|
  {
    if i == 0 then d else Unrow(dec, n, j, i - 1, Unstep(dec, i, Counter(n, j, i), d))
  }

  /** The first j passes. */
  function Passes(enc: Cipher, n: nat, j: nat, d: seq<byte>): (r: seq<byte>)
    requires |d| == 8 * n + 8
    ensures |r| == |d|
  {
    if j == 0 then d else Row(enc, n, j - 1, n, Passes(enc, n, j - 1, d))
  }

  function Unpasses(dec: Cipher, n: nat, j: nat, d: seq<byte>): (r: seq<byte>)
    requires |d| == 8 * n + 8
    ensures |r| == |d|
  {
    if j == 0 then d else Unpasses(dec, n, j - 1, Unrow(dec, n, j - 1, n, d))
  }

  lemma {:induction false} UnrowRow(enc: Cipher, dec: Cipher, n: nat, j: nat, i: nat, d: seq<byte>)
    requires Inverse(enc, dec) && i <= n && |d| == 8 * n + 8
    ensures Unrow(dec, n, j, i, Row(enc, n, j, i, d)) == d
  {
    hide Step, Unstep, Inverse, Counter;
    if i > 0 {
      var x := Row(enc, n, j, i - 1, d);
      UnstepStep(enc, dec, i, Counter(n, j, i), x);
      UnrowRow(enc, dec, n, j, i - 1, d);
    }
  }

  lemma {:induction false} RowUnrow(enc: Cipher, dec: Cipher, n: nat, j: nat, i: nat, d: seq<byte>)
    requires Inverse(enc, dec) && i <= n && |d| == 8 * n + 8
    ensures Row(enc, n, j, i, Unrow(dec, n, j, i, d)) == d
  {
    hide Step, Unstep, Inverse, Counter;
    if i > 0 {
      var x := Unstep(dec, i, Counter(n, j, i), d);
      RowUnrow(enc, dec, n, j, i - 1, x);
      StepUnstep(enc, dec, i, Counter(n, j, i), d);
    }
  }

  lemma {:induction false} UnpassesPasses(enc: Cipher, dec: Cipher, n: nat, j: nat, d: seq<byte>)
    requires Inverse(enc, dec) && |d| == 8 * n + 8
    ensures Unpasses(dec, n, j, Passes(enc, n, j, d)) == d
  {
    hide Row, Unrow, Inverse;
    if j > 0 {
      UnrowRow(enc, dec, n, j - 1, n, Passes(enc, n, j - 1, d));
      UnpassesPasses(enc, dec, n, j - 1, d);
    }
  }

  lemma {:induction false} PassesUnpasses(enc: Cipher, dec: Cipher, n: nat, j: nat, d: seq<byte>)
    requires Inverse(enc, dec) && |d| == 8 * n + 8
    ensures Passes(enc, n, j, Unpasses(dec, n, j, d)) == d
  {
    hide Row, Unrow, Inverse;
    if j > 0 {
      PassesUnpasses(enc, dec, n, j - 1, Unrow(dec, n, j - 1, n, d));
      RowUnrow(enc, dec, n, j - 1, n, d);
    }
  }

  // ---------------------------------------------------------------------------
  // Wrapping and unwrapping.

  /** The check value. */
  const IV: seq<byte> := [0xa6, 0xa6, 0xa6, 0xa6, 0xa6, 0xa6, 0xa6, 0xa6]

  /** Eight bytes of 0xa6. */
  lemma CheckValue(i: nat)
    requires i < 8
    ensures |IV| == 8 && IV[i] == 0xa6
  {
  }

  function Wrapped(enc: Cipher, n: nat, key: seq<byte>): (r: seq<byte>)
    requires |key| == 8 * n
    ensures |r| == 8 * n + 8
  {
    Passes(enc, n, 6, IV + key)
  }

  /** The key data, and whether the check value came out. */
  function Unwrapped(dec: Cipher, n: nat, data: seq<byte>): (r: (bool, seq<byte>))
    requires |data| == 8 * n + 8
    ensures |r.1| == 8 * n
  {
    var d := Unpasses(dec, n, 6, data);
    (d[..8] == IV, d[8..])
  }

  /** Unwrapping gives back what was wrapped, for any number of blocks. */
  lemma UnwrapWrap(enc: Cipher, dec: Cipher, n: nat, key: seq<byte>)
    requires Inverse(enc, dec) && |key| == 8 * n
    ensures Unwrapped(dec, n, Wrapped(enc, n, key)) == (true, key)
  {
    UnpassesPasses(enc, dec, n, 6, IV + key);
  }

  /** The check succeeds for nothing but the wrapping of the key it returns. */
  lemma CheckIff(enc: Cipher, dec: Cipher, n: nat, data: seq<byte>)
    requires Inverse(enc, dec) && |data| == 8 * n + 8
    ensures var r := Unwrapped(dec, n, data); r.0 <==> data == Wrapped(enc, n, r.1)
  {
    var d := Unpasses(dec, n, 6, data);
    PassesUnpasses(enc, dec, n, 6, data);
    if d[..8] == IV {
      assert d == IV + d[8..];
    }
    UnpassesPasses(enc, dec, n, 6, IV + d[8..]);
  }

  // ---------------------------------------------------------------------------
  // Section 2.2.1 of RFC 3394, where the counter is 64 bits long.

  /** The counter as eight bytes, most significant first. */
  function CounterBytes(t: nat, k: nat): (r: seq<byte>)
    ensures |r| == k
  {
    if k == 0 then [] else CounterBytes(t / 256, k - 1) + [t % 256]
  }

  function MaskAll(a: seq<byte>, m: seq<byte>): (r: seq<byte>)
    requires |a| == |m|
    ensures |r| == |a|
  {
    if a == [] then [] else [Xor(a[0], m[0])] + MaskAll(a[1..], m[1..])
  }

  function RfcStep(enc: Cipher, i: nat, t: nat, d: seq<byte>): (r: seq<byte>)
    requires BlockIn(d, i)
    ensures |r| == |d|
  {
    var b := enc(d[..8] + d[8 * i..8 * i + 8]);
    Put(Put(d, 0, MaskAll(b[..8], CounterBytes(t, 8))), 8 * i, b[8..])
  }

  function RfcRow(enc: Cipher, n: nat, j: nat, i: nat, d: seq<byte>): (r: seq<byte>)
    requires i <= n && |d| == 8 * n + 8
    ensures |r| == |d|
  {
    if i == 0 then d else RfcStep(enc, i, Counter(n, j, i), RfcRow(enc, n, j, i - 1, d))
  }

  function RfcPasses(enc: Cipher, n: nat, j: nat, d: seq<byte>): (r: seq<byte>)
    requires |d| == 8 * n + 8
    ensures |r| == |d|
  {
    if j == 0 then d else RfcRow(enc, n, j - 1, n, RfcPasses(enc, n, j - 1, d))
  }

  lemma {:induction false} MaskAllAt(a: seq<byte>, m: seq<byte>, k: nat)
    requires |a| == |m| && k < |a|
    ensures MaskAll(a, m)[k] == Xor(a[k], m[k])
  {
    if k > 0 {
      MaskAllAt(a[1..], m[1..], k - 1);
    }
  }

  lemma {:induction false} SmallCounter(t: nat, k: nat)
    requires k > 0
    ensures CounterBytes(t, k)[k - 1] == t % 256
    ensures t < 256 ==> forall x :: 0 <= x < k - 1 ==> CounterBytes(t, k)[x] == 0
  {
    if t < 256 && k > 1 {
      SmallCounter(0, k - 1);
      assert CounterBytes(0, k - 1)[k - 2] == 0;
    }
  }

  lemma {:induction false} LargeCounter(t: nat, k: nat)
    requires 0 < t < Pow2(8 * k)
    ensures exists x :: 0 <= x < k && CounterBytes(t, k)[x] != 0
  {
    if k > 0 {
      if t % 256 != 0 {
        assert CounterBytes(t, k)[k - 1] != 0;
      } else {
        CounterWidth(k);
        LargeCounter(t / 256, k - 1);
        var x :| 0 <= x < k - 1 && CounterBytes(t / 256, k - 1)[x] != 0;
        assert CounterBytes(t, k)[x] != 0;
      }
    }
  }

  lemma CounterWidth(k: nat)
    requires k > 0
    ensures Pow2(8 * k) == 256 * Pow2(8 * (k - 1))
  {
    var n := 8 * (k - 1);
    assert Pow2(n + 1) == 2 * Pow2(n);
    assert Pow2(n + 2) == 4 * Pow2(n);
    assert Pow2(n + 3) == 8 * Pow2(n);
    assert Pow2(n + 4) == 16 * Pow2(n);
    assert Pow2(n + 5) == 32 * Pow2(n);
    assert Pow2(n + 6) == 64 * Pow2(n);
    assert Pow2(n + 7) == 128 * Pow2(n);
  }

  /** Using only the last byte of the counter is the same exactly while the counter fits it. */
  lemma MaskIff(a: seq<byte>, t: nat)
    requires |a| == 8 && t < Pow2(64)
    ensures MaskLast(a, t) == MaskAll(a, CounterBytes(t, 8)) <==> t < 256
  {
    var m := CounterBytes(t, 8);
    SmallCounter(t, 8);
    forall k | 0 <= k < 8
      ensures MaskAll(a, m)[k] == Xor(a[k], m[k])
    {
      MaskAllAt(a, m, k);
    }
    if t < 256 {
      forall k | 0 <= k < 8
        ensures MaskLast(a, t)[k] == MaskAll(a, m)[k]
      {
        XorZero(a[k]);
      }
    } else {
      CounterWidth(8);
      LargeCounter(t / 256, 7);
      var x :| 0 <= x < 7 && CounterBytes(t / 256, 7)[x] != 0;
      assert m[x] != 0;
      if MaskLast(a, t)[x] == MaskAll(a, m)[x] {
        XorZero(a[x]);
        XorInjective(a[x], m[x], 0);
      }
    }
  }

  lemma StepIsRfc(enc: Cipher, i: nat, t: nat, d: seq<byte>)
    requires BlockIn(d, i) && t < 256
    ensures Step(enc, i, t, d) == RfcStep(enc, i, t, d)
  {
    SmallPow64();
    MaskIff(enc(d[..8] + d[8 * i..8 * i + 8])[..8], t);
    hide Put, MaskLast, MaskAll;
  }

  lemma {:induction false} RowIsRfc(enc: Cipher, n: nat, j: nat, i: nat, d: seq<byte>)
    requires i <= n && |d| == 8 * n + 8 && Counter(n, j, n) <= 255
    ensures Row(enc, n, j, i, d) == RfcRow(enc, n, j, i, d)
  {
    hide Step, RfcStep, Counter;
    if i > 0 {
      CounterGrows(n, j, i);
      RowIsRfc(enc, n, j, i - 1, d);
      StepIsRfc(enc, i, Counter(n, j, i), Row(enc, n, j, i - 1, d));
    }
  }

  lemma SmallPow64()
    ensures 256 <= Pow2(64)
  {
    ShlByteUp(56);
  }

  lemma {:induction false} ShlByteUp(n: nat)
    ensures Pow2(n + 8) >= 256
  {
    if n == 0 {
      ByteWidth();
    } else {
      ShlByteUp(n - 1);
    }
  }

  lemma {:induction false} PassesAreRfc(enc: Cipher, n: nat, j: nat, d: seq<byte>)
    requires j <= 6 && |d| == 8 * n + 8 && 6 * n <= 255
    ensures Passes(enc, n, j, d) == RfcPasses(enc, n, j, d)
  {
    hide Row, RfcRow, Counter;
    if j > 0 {
      PassesAreRfc(enc, n, j - 1, d);
      RowWithin(n, j - 1);
      RowIsRfc(enc, n, j - 1, n, Passes(enc, n, j - 1, d));
    }
  }

  lemma RowWithin(n: nat, j: nat)
    requires j < 6 && 6 * n <= 255
    ensures Counter(n, j, n) <= 255
  {
  }

  /** Up to 42 blocks the result is that of RFC 3394. */
  lemma WrapIsRfc(enc: Cipher, n: nat, key: seq<byte>)
    requires |key| == 8 * n && 6 * n <= 255
    ensures Wrapped(enc, n, key) == RfcPasses(enc, n, 6, IV + key)
  {
    PassesAreRfc(enc, n, 6, IV + key);
  }

  // ---------------------------------------------------------------------------
  // Beyond 42 blocks the result differs for the identity cipher: the key data pass through
  // unchanged, and of the check value the standard changes bytes that the code never does.

  const IDENTITY: Cipher := b => b

  /** The mask of the first seven bytes after counters 1 to t: that of t if t is even, none if it is odd. */
  function HighMask(t: nat, x: nat): byte
    requires x < 7
  {
    if t % 2 == 0 then CounterBytes(t, 8)[x] else 0
  }

  predicate HighBytes(d: seq<byte>, t: nat) {
    |d| >= 8 && forall x :: 0 <= x < 7 ==> d[x] == Xor(IV[x], HighMask(t, x))
  }

  /** An even counter and the next one differ in the last byte only. */
  lemma EvenCounter(t: nat, x: nat)
    requires t % 2 == 0 && x < 7
    ensures CounterBytes(t + 1, 8)[x] == CounterBytes(t, 8)[x]
  {
    assert (t + 1) / 256 == t / 256;
  }

  lemma NextMask(t: nat, x: nat)
    requires x < 7
    ensures Xor(Xor(IV[x], HighMask(t, x)), CounterBytes(t + 1, 8)[x]) == Xor(IV[x], HighMask(t + 1, x))
  {
    hide Xor, CounterBytes;
    XorZero(IV[x]);
    if t % 2 == 0 {
      EvenCounter(t, x);
      XorBack(IV[x], CounterBytes(t, 8)[x]);
    }
  }

  lemma IdentityRfcStep(i: nat, t: nat, d: seq<byte>, x: nat)
    requires BlockIn(d, i) && x < 7
    ensures RfcStep(IDENTITY, i, t, d)[x] == Xor(d[x], CounterBytes(t, 8)[x])
  {
    hide Xor, CounterBytes;
    var b: Block16 := d[..8] + d[8 * i..8 * i + 8];
    assert b[..8] == d[..8];
    MaskAllAt(d[..8], CounterBytes(t, 8), x);
    hide MaskAll;
  }

  lemma IdentityStep(i: nat, t: nat, d: seq<byte>, x: nat)
    requires BlockIn(d, i) && x < 7
    ensures Step(IDENTITY, i, t, d)[x] == d[x]
  {
    hide Xor;
    var b: Block16 := d[..8] + d[8 * i..8 * i + 8];
    assert b[..8] == d[..8];
  }

  lemma {:induction false} RfcRowHigh(n: nat, j: nat, i: nat, d: seq<byte>)
    requires i <= n && |d| == 8 * n + 8 && HighBytes(d, Counter(n, j, 0))
    ensures HighBytes(RfcRow(IDENTITY, n, j, i, d), Counter(n, j, i))
  {
    hide RfcStep, Xor, HighMask, CounterBytes;
    if i > 0 {
      RfcRowHigh(n, j, i - 1, d);
      var r, t := RfcRow(IDENTITY, n, j, i - 1, d), Counter(n, j, i - 1);
      forall x | 0 <= x < 7
        ensures RfcStep(IDENTITY, i, t + 1, r)[x] == Xor(IV[x], HighMask(t + 1, x))
      {
        IdentityRfcStep(i, t + 1, r, x);
        NextMask(t, x);
      }
    }
  }

  lemma {:induction false} RfcPassesHigh(n: nat, j: nat, key: seq<byte>)
    requires |key| == 8 * n
    ensures HighBytes(RfcPasses(IDENTITY, n, j, IV + key), Counter(n, j, 0))
  {
    hide RfcRow, Xor, CounterBytes;
    if j == 0 {
      forall x | 0 <= x < 7
        ensures IV[x] == Xor(IV[x], HighMask(0, x))
      {
        SmallCounter(0, 8);
        XorZero(IV[x]);
      }
    } else {
      hide HighBytes;
      RfcPassesHigh(n, j - 1, key);
      RfcRowHigh(n, j - 1, n, RfcPasses(IDENTITY, n, j - 1, IV + key));
      NextPass(n, j);
    }
  }

  lemma NextPass(n: nat, j: nat)
    requires j > 0
    ensures Counter(n, j - 1, n) == Counter(n, j, 0)
  {
  }

  lemma {:induction false} RowLow(n: nat, j: nat, i: nat, d: seq<byte>, x: nat)
    requires i <= n && |d| == 8 * n + 8 && x < 7
    ensures Row(IDENTITY, n, j, i, d)[x] == d[x]
  {
    hide Step;
    if i > 0 {
      RowLow(n, j, i - 1, d, x);
      IdentityStep(i, Counter(n, j, i), Row(IDENTITY, n, j, i - 1, d), x);
    }
  }

  lemma {:induction false} PassesLow(n: nat, j: nat, d: seq<byte>, x: nat)
    requires |d| == 8 * n + 8 && x < 7
    ensures Passes(IDENTITY, n, j, d)[x] == d[x]
  {
    hide Row;
    if j > 0 {
      PassesLow(n, j - 1, d, x);
      RowLow(n, j - 1, n, Passes(IDENTITY, n, j - 1, d), x);
    }
  }

  /** A counter that does not fit a byte has another byte that is not zero. */
  lemma HighByte(t: nat) returns (x: nat)
    requires 256 <= t < Pow2(64)
    ensures x < 7 && CounterBytes(t, 8)[x] != 0
  {
    CounterWidth(8);
    hide Pow2;
    LargeCounter(t / 256, 7);
    x :| 0 <= x < 7 && CounterBytes(t / 256, 7)[x] != 0;
  }

  /** With the identity cipher every longer key is wrapped differently. */
  lemma WrapDiffers(n: nat, key: seq<byte>)
    requires |key| == 8 * n && 255 < 6 * n < Pow2(64)
    ensures Wrapped(IDENTITY, n, key) != RfcPasses(IDENTITY, n, 6, IV + key)
  {
    hide Passes, RfcPasses, Xor, Pow2, CounterBytes;
    var t := 6 * n;
    assert Counter(n, 6, 0) == t;
    RfcPassesHigh(n, 6, key);
    var x := HighByte(t);
    assert HighMask(t, x) != 0;
    PassesLow(n, 6, IV + key, x);
    XorZero(IV[x]);
    if Xor(IV[x], HighMask(t, x)) == IV[x] {
      XorInjective(IV[x], HighMask(t, x), 0);
    }
  }

  /** The shortest such key: 43 blocks. */
  lemma WrapDiffersExample()
    ensures var key: seq<byte> := seq(344, _ => 0);
            Wrapped(IDENTITY, 43, key) != RfcPasses(IDENTITY, 43, 6, IV + key)
  {
    hide Wrapped, RfcPasses, Pow2;
    CounterWidth(8);
    ShlByteUp(48);
    WrapDiffers(43, seq(344, _ => 0));
  }

  /**
   The wrapping is that of RFC 3394, for every cipher and key, exactly for up to 42 blocks.
   The standard's own counter has 64 bits.
   */
  lemma WrapIsRfcIff(n: nat)
    requires 6 * n < Pow2(64)
    ensures (forall enc: Cipher, dec: Cipher, key: seq<byte> ::
               Inverse(enc, dec) && |key| == 8 * n ==> Wrapped(enc, n, key) == RfcPasses(enc, n, 6, IV + key))
            <==> 6 * n <= 255
  {
    hide Wrapped, RfcPasses, Pow2;
    if 6 * n <= 255 {
      forall enc: Cipher, dec: Cipher, key: seq<byte> | Inverse(enc, dec) && |key| == 8 * n
        ensures Wrapped(enc, n, key) == RfcPasses(enc, n, 6, IV + key)
      {
        WrapIsRfc(enc, n, key);
      }
    } else {
      var key: seq<byte> := seq(8 * n, _ => 0);
      WrapDiffers(n, key);
      assert Inverse(IDENTITY, IDENTITY);
    }
  }

  // ---------------------------------------------------------------------------
  // One block wrapped by a cipher that exchanges the halves of its block.

  const SWAP: Cipher := b => b[8..] + b[..8]

  /** A step makes the key block the check value, masked, and the check value the key block. */
  lemma SwapStep(t: nat, a: seq<byte>, r: seq<byte>)
    requires |a| == 8 && |r| == 8
    ensures Step(SWAP, 1, t, a + r) == MaskLast(r, t) + a
  {
    hide MaskLast;
    var d := a + r;
    var whole: Block16 := d[..8] + d[8..16];
    assert d[..8] == a && d[8..16] == r && whole == d;
    var b := SWAP(whole);
    assert b[..8] == r && b[8..] == a;
    var first := Put(d, 0, MaskLast(r, t));
    assert first == MaskLast(r, t) + r;
    assert Put(first, 8, a) == MaskLast(r, t) + a;
  }

  lemma OneRow(enc: Cipher, j: nat, d: seq<byte>)
    requires |d| == 16
    ensures Row(enc, 1, j, 1, d) == Step(enc, 1, j + 1, d)
  {
    hide Step;
    assert Row(enc, 1, j, 0, d) == d;
  }

  lemma PassStep(enc: Cipher, j: nat, d: seq<byte>)
    requires |d| == 16
    ensures Passes(enc, 1, j + 1, d) == Step(enc, 1, j + 1, Passes(enc, 1, j, d))
  {
    hide Step, Row;
    OneRow(enc, j, Passes(enc, 1, j, d));
  }

  /** The masks of the two blocks: 2, 4 and 6 cancel out, 1, 3 and 5 leave 7. */
  lemma Masks(a: seq<byte>)
    requires |a| == 8
    ensures MaskLast(MaskLast(MaskLast(a, 2), 4), 6) == a
    ensures MaskLast(MaskLast(MaskLast(a, 1), 3), 5) == MaskLast(a, 7)
  {
    hide Xor;
    MaskBytes(a[7]);
  }

  lemma {:induction false} XorBitsAssociates(a: nat, b: nat, c: nat, n: nat)
    ensures XorBits(XorBits(a, b, n), c, n) == XorBits(a, XorBits(b, c, n), n)
  {
    if n > 0 {
      XorBitsAssociates(a / 2, b / 2, c / 2, n - 1);
      XorBitsParts(a, b, n);
      XorBitsParts(b, c, n);
      XorBitsParts(XorBits(a, b, n), c, n);
      XorBitsParts(a, XorBits(b, c, n), n);
      hide XorBits;
    }
  }

  lemma XorBitsParts(a: nat, b: nat, n: nat)
    requires n > 0
    ensures var r := XorBits(a, b, n);
            r == XorBit(a, b) + 2 * XorBits(a / 2, b / 2, n - 1) && r % 2 == XorBit(a, b) && r / 2 == XorBits(a / 2, b / 2, n - 1)
  {
  }

  lemma XorAssociates(a: byte, b: byte, c: byte)
    ensures Xor(Xor(a, b), c) == Xor(a, Xor(b, c))
  {
    XorBitsAssociates(a, b, c, 8);
  }

  lemma MaskBytes(x: byte)
    ensures Xor(Xor(Xor(x, 2), 4), 6) == x && Xor(Xor(Xor(x, 1), 3), 5) == Xor(x, 7)
  {
    hide Xor;
    MaskSums();
    XorAssociates(x, 2, 4);
    XorAssociates(x, 1, 3);
    XorAssociates(x, 2, 5);
    XorBack(x, 6);
  }

  lemma MaskSums()
    ensures Xor(2, 4) == 6 && Xor(1, 3) == 2 && Xor(2, 5) == 7
  {
  }

  /** The wrapping of one block: the check value as it was, and the block with its last byte masked by 7. */
  lemma SwapWrapped(key: seq<byte>)
    requires |key| == 8
    ensures Wrapped(SWAP, 1, key) ==
            [0xa6, 0xa6, 0xa6, 0xa6, 0xa6, 0xa6, 0xa6, 0xa6] + key[7 := Xor(key[7], 7)]
  {
    hide Step, Row, MaskLast;
    var a, k1 := IV, MaskLast(key, 1);
    var a2, k3 := MaskLast(a, 2), MaskLast(k1, 3);
    var a4, k5 := MaskLast(a2, 4), MaskLast(k3, 5);
    PassNone(SWAP, a + key);
    PassStep(SWAP, 0, a + key);
    PassStep(SWAP, 1, a + key);
    PassStep(SWAP, 2, a + key);
    PassStep(SWAP, 3, a + key);
    PassStep(SWAP, 4, a + key);
    PassStep(SWAP, 5, a + key);
    hide Passes;
    SwapStep(1, a, key);
    SwapStep(2, k1, a);
    SwapStep(3, a2, k1);
    SwapStep(4, k3, a2);
    SwapStep(5, a4, k3);
    SwapStep(6, k5, a4);
    Masks(a);
    Masks(key);
    MaskSeven(key);
  }

  lemma PassNone(enc: Cipher, d: seq<byte>)
    requires |d| == 16
    ensures Passes(enc, 1, 0, d) == d
  {
  }

  lemma MaskSeven(key: seq<byte>)
    requires |key| == 8
    ensures MaskLast(key, 7) == key[7 := Xor(key[7], 7)]
  {
  }
}
