/** Big integers as sequences of 32-bit elements, least significant first, and their values. */
module Limbs {
  import opened Bits

  const RADIX: nat := 0x1_0000_0000

  type limb = x: int | 0 <= x < 0x1_0000_0000

  /** A carry or borrow. */
  type carry = x: int | 0 <= x < 2

  function Value(s: seq<limb>): nat {
    if s == [] then 0 else s[0] + RADIX * Value(s[1..])
  }

  /** RADIX to the power n. */
  function Power(n: nat): (p: nat)
    ensures p > 0
  {
    if n == 0 then 1 else RADIX * Power(n - 1)
  }

  function Weighted(c: carry, n: nat): nat {
    if c == 1 then Power(n) else 0
  }

  lemma {:induction false} ValueBound(s: seq<limb>)
    ensures Value(s) < Power(|s|)
  {
    if s != [] {
      ValueBound(s[1..]);
    }
  }

  lemma {:induction false} ValueZero(s: seq<limb>)
    ensures Value(s) == 0 <==> forall i :: 0 <= i < |s| ==> s[i] == 0
  {
    if s != [] {
      ValueZero(s[1..]);
      assert forall i :: 0 < i < |s| ==> s[i] == s[1..][i - 1];
      if Value(s) != 0 && s[0] == 0 {
        var i :| 0 <= i < |s[1..]| && s[1..][i] != 0;
        assert s[i + 1] != 0;
      }
    }
  }

  // ---------------------------------------------------------------------------
  // Doubling, halving and subtraction with carry.

  function Double(s: seq<limb>, c: carry): (r: seq<limb>)
    ensures |r| == |s|
  {
    if s == [] then [] else [(2 * s[0] + c) % RADIX] + Double(s[1..], (2 * s[0] + c) / RADIX)
  }

  lemma DoubleStep(s: seq<limb>, c: carry)
    requires s != []
    ensures Double(s, c) == [(2 * s[0] + c) % RADIX] + Double(s[1..], (2 * s[0] + c) / RADIX)
  {
  }

  function DoubleCarry(s: seq<limb>, c: carry): carry {
    if s == [] then c else DoubleCarry(s[1..], (2 * s[0] + c) / RADIX)
  }

  lemma {:induction false} DoubleValue(s: seq<limb>, c: carry)
    ensures Value(Double(s, c)) + Weighted(DoubleCarry(s, c), |s|) == 2 * Value(s) + c
  {
    if s != [] {
      var c' := (2 * s[0] + c) / RADIX;
      DoubleValue(s[1..], c');
      assert Double(s, c)[1..] == Double(s[1..], c');
      assert Weighted(DoubleCarry(s, c), |s|) == RADIX * Weighted(DoubleCarry(s[1..], c'), |s| - 1);
    }
  }

  /** Doubling is exact when the result fits. */
  lemma DoubleExact(s: seq<limb>)
    requires 2 * Value(s) < Power(|s|)
    ensures Value(Double(s, 0)) == 2 * Value(s)
  {
    DoubleValue(s, 0);
  }

  /** The carry out of an element, going down. */
  function LowBit(s: seq<limb>): carry {
    if s == [] then 0 else s[0] % 2
  }

  function Half(s: seq<limb>): (r: seq<limb>)
    ensures |r| == |s|
  {
    if s == [] then [] else [LowBit(s[1..]) * 0x8000_0000 + s[0] / 2] + Half(s[1..])
  }

  lemma {:induction false} HalfValue(s: seq<limb>)
    ensures Value(Half(s)) == Value(s) / 2 && Value(s) % 2 == LowBit(s)
  {
    if s != [] {
      HalfValue(s[1..]);
      assert Half(s)[1..] == Half(s[1..]);
      var v := Value(s[1..]);
      assert v == 2 * (v / 2) + LowBit(s[1..]);
      assert Value(s) == 2 * (s[0] / 2 + 0x8000_0000 * v) + s[0] % 2;
    }
  }

  function Less(s: limb, t: limb, b: carry): carry {
    if s < t + b then 1 else 0
  }

  function Difference(s: seq<limb>, t: seq<limb>, b: carry): (r: seq<limb>)
    requires |s| == |t|
    ensures |r| == |s|
  {
    if s == [] then []
    else [s[0] - t[0] - b + Less(s[0], t[0], b) * RADIX] + Difference(s[1..], t[1..], Less(s[0], t[0], b))
  }

  lemma DifferenceStep(s: seq<limb>, t: seq<limb>, b: carry)
    requires |s| == |t| > 0
    ensures 0 <= s[0] - t[0] - b + Less(s[0], t[0], b) * RADIX < RADIX
    ensures Difference(s, t, b) ==
            [s[0] - t[0] - b + Less(s[0], t[0], b) * RADIX] + Difference(s[1..], t[1..], Less(s[0], t[0], b))
  {
  }

  function Borrow(s: seq<limb>, t: seq<limb>, b: carry): carry
    requires |s| == |t|
  {
    if s == [] then b else Borrow(s[1..], t[1..], Less(s[0], t[0], b))
  }

  lemma {:induction false} DifferenceValue(s: seq<limb>, t: seq<limb>, b: carry)
    requires |s| == |t|
    ensures Value(Difference(s, t, b)) + Value(t) + b == Value(s) + Weighted(Borrow(s, t, b), |s|)
  {
    if s != [] {
      var b' := Less(s[0], t[0], b);
      DifferenceValue(s[1..], t[1..], b');
      assert Difference(s, t, b)[1..] == Difference(s[1..], t[1..], b');
      assert Weighted(Borrow(s, t, b), |s|) == RADIX * Weighted(Borrow(s[1..], t[1..], b'), |s| - 1);
    }
  }

  /** Subtracting no more than there is leaves the difference. */
  lemma DifferenceExact(s: seq<limb>, t: seq<limb>)
    requires |s| == |t| && Value(t) <= Value(s)
    ensures Value(Difference(s, t, 0)) == Value(s) - Value(t)
  {
    DifferenceValue(s, t, 0);
    ValueBound(Difference(s, t, 0));
  }

  // ---------------------------------------------------------------------------
  // Comparison, and the highest bit set.

  /** The most significant element in which two integers differ decides. */
  lemma {:induction false} TopDecides(s: seq<limb>, t: seq<limb>, i: nat)
    requires |s| == |t| && i <= |s|
    ensures Value(s[i..]) > Value(t[i..]) ==> Value(s) > Value(t)
  {
    if i > 0 {
      TopDecides(s[1..], t[1..], i - 1);
      assert s[1..][i - 1..] == s[i..] && t[1..][i - 1..] == t[i..];
    } else {
      assert s[0..] == s && t[0..] == t;
    }
  }

  lemma ElementDecides(s: seq<limb>, t: seq<limb>, i: nat)
    requires |s| == |t| && i < |s| && s[i + 1..] == t[i + 1..] && s[i] > t[i]
    ensures Value(s) > Value(t)
  {
    assert s[i..][1..] == s[i + 1..] && t[i..][1..] == t[i + 1..];
    TopDecides(s, t, i);
  }

  function BitLength(n: nat): nat {
    if n == 0 then 0 else 1 + BitLength(n / 2)
  }

  lemma {:induction false} BitLengthBounds(n: nat)
    ensures n < Pow2(BitLength(n)) && (n > 0 ==> Pow2(BitLength(n)) <= 2 * n)
  {
    if n > 0 {
      BitLengthBounds(n / 2);
    }
  }

  lemma {:induction false} BitLengthIs(n: nat, k: nat)
    requires n < Pow2(k) <= 2 * n
    ensures BitLength(n) == k
  {
    if k > 0 && n > 1 {
      BitLengthIs(n / 2, k - 1);
    } else if k > 1 {
      PowGe2(k);
    }
  }

  lemma {:induction false} PowGe2(k: nat)
    requires k > 1
    ensures Pow2(k) >= 4
  {
    if k > 2 {
      PowGe2(k - 1);
    }
  }

  lemma ShlByte(x: nat)
    ensures Shl(x, 8) == 0x100 * x
  {
    assert Shl(x, 1) == 2 * x;
    assert Shl(x, 2) == 4 * x;
    assert Shl(x, 4) == 16 * x;
    assert Shl(x, 6) == 64 * x;
  }

  lemma {:induction false} PowerOfTwo(k: nat)
    ensures Pow2(k + 32) == RADIX * Pow2(k)
  {
    if k == 0 {
      ShlByte(1);
      ShlByte(0x100);
      ShlByte(0x1_0000);
      ShlByte(0x100_0000);
      ShlShl(1, 8, 8);
      ShlShl(1, 16, 8);
      ShlShl(1, 24, 8);
    } else {
      PowerOfTwo(k - 1);
    }
  }

  lemma BitLengthUp(low: limb, v: nat)
    requires v > 0
    ensures BitLength(low + RADIX * v) == 32 + BitLength(v)
  {
    BitLengthBounds(v);
    PowerOfTwo(BitLength(v));
    BitLengthIs(low + RADIX * v, BitLength(v) + 32);
  }

  /** The highest bit set is in the highest element that is not zero. */
  lemma {:induction false} TopBit(s: seq<limb>, i: nat)
    requires i < |s| && s[i] > 0 && forall k :: i < k < |s| ==> s[k] == 0
    ensures BitLength(Value(s)) == 32 * i + BitLength(s[i])
  {
    if i == 0 {
      ValueZero(s[1..]);
    } else {
      TopBit(s[1..], i - 1);
      ValueZero(s[1..]);
      assert s[1..][i - 1] > 0;
      BitLengthUp(s[0], Value(s[1..]));
    }
  }
}
