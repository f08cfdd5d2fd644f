/** Big integer arithmetic in place, up to modular multiplication and exponentiation. */
module BigInt {
  import opened Bits
  import opened Limbs
  import opened LimbProduct

  // ---------------------------------------------------------------------------
  // Operations on one element after another.

  /** Shifts left by one bit. */
  method Rol(value: array<limb>)
    modifies value
    ensures value[..] == Double(old(value[..]), 0)
  {
    hide Double;
    ghost var was := value[..];
    var c: carry := 0;
    var i := 0;
    while i < value.Length
      invariant 0 <= i <= value.Length && value[i..] == was[i..]
      invariant value[..i] + Double(was[i..], c) == Double(was, 0)
    {
      assert was[i..][0] == value[i] && was[i..][1..] == was[i + 1..];
      ghost var before := value[..i];
      DoubleStep(was[i..], c);
      var x := 2 * value[i] as int + c;
      value[i] := x % RADIX;
      c := x / RADIX;
      i := i + 1;
      assert value[..i] == before + [value[i - 1]];
    }
    assert value[..] == value[..i] + Double(was[i..], c);
  }

  /** Shifts right by one bit. */
  method Ror(value: array<limb>)
    modifies value
    ensures value[..] == Half(old(value[..]))
  {
    ghost var was := value[..];
    var c: carry := 0;
    var i := value.Length;
    while i > 0
      invariant 0 <= i <= value.Length && value[..i] == was[..i]
      invariant value[i..] == Half(was[i..]) && c == LowBit(was[i..])
    {
      i := i - 1;
      assert value[i] == was[..i + 1][i];
      assert was[i..][0] == was[i] && was[i..][1..] == was[i + 1..];
      ghost var after := value[i + 1..];
      var x := value[i];
      value[i] := c * 0x8000_0000 + x / 2;
      c := x % 2;
      assert value[i..] == [value[i]] + after;
    }
  }

  method Subtract(subtrahend: array<limb>, value: array<limb>)
    requires subtrahend.Length == value.Length && subtrahend != value
    modifies value
    ensures value[..] == Difference(old(value[..]), subtrahend[..], 0)
  {
    hide Difference, Less;
    ghost var was, t := value[..], subtrahend[..];
    var b: carry := 0;
    var i := 0;
    while i < value.Length
      invariant 0 <= i <= value.Length && value[i..] == was[i..]
      invariant value[..i] + Difference(was[i..], t[i..], b) == Difference(was, t, 0)
    {
      assert was[i..][0] == value[i] && was[i..][1..] == was[i + 1..];
      assert t[i..][0] == subtrahend[i] && t[i..][1..] == t[i + 1..];
      ghost var before := value[..i];
      DifferenceStep(was[i..], t[i..], b);
      var x, y := value[i], subtrahend[i];
      value[i] := x - y - b + Less(x, y, b) * RADIX;
      b := Less(x, y, b);
      i := i + 1;
      assert value[..i] == before + [value[i - 1]];
    }
    assert value[..] == value[..i] + Difference(was[i..], t[i..], b);
  }

  method IsZero(value: array<limb>) returns (zero: bool)
    ensures zero <==> Value(value[..]) == 0
  {
    ValueZero(value[..]);
    var i := 0;
    while i < value.Length
      invariant 0 <= i <= value.Length && forall k :: 0 <= k < i ==> value[k] == 0
    {
      if value[i] != 0 {
        assert value[..][i] != 0;
        return false;
      }
      i := i + 1;
    }
    return true;
  }

  method IsGeq(value: array<limb>, reference: array<limb>) returns (geq: bool)
    requires value.Length == reference.Length
    ensures geq <==> Value(value[..]) >= Value(reference[..])
  {
    ghost var s, t := value[..], reference[..];
    var i := value.Length;
    while i > 0
      invariant 0 <= i <= value.Length && s[i..] == t[i..]
    {
      i := i - 1;
      if value[i] != reference[i] {
        if value[i] > reference[i] {
          ElementDecides(s, t, i);
        } else {
          ElementDecides(t, s, i);
        }
        return value[i] > reference[i];
      }
      assert s[i..] == [s[i]] + s[i + 1..] && t[i..] == [t[i]] + t[i + 1..];
    }
    assert s == s[0..] && t == t[0..];
    return true;
  }

  /** One more than the position of the highest bit set, or zero if there is none. */
  method MaxSetBit(value: array<limb>) returns (n: nat)
    ensures n == BitLength(Value(value[..]))
  {
    var i := value.Length;
    while i > 0
      invariant 0 <= i <= value.Length && forall k :: i <= k < value.Length ==> value[k] == 0
    {
      i := i - 1;
      if value[i] != 0 {
        TopBit(value[..], i);
        return 32 * i + BitLength(value[i]);
      }
    }
    ValueZero(value[..]);
    return 0;
  }

  /** Copies into a longer integer, padding with zeros. */
  method Grow(source: array<limb>, dest: array<limb>)
    requires source.Length <= dest.Length && source != dest
    modifies dest
    ensures Value(dest[..]) == Value(source[..])
  {
    var n := source.Length;
    var i := 0;
    while i < dest.Length
      invariant 0 <= i <= dest.Length
      invariant forall k :: 0 <= k < i ==> dest[k] == if k < n then source[k] else 0
    {
      dest[i] := if i < n then source[i] else 0;
      i := i + 1;
    }
    assert dest[..] == source[..] + dest[n..];
    ValueAppend(source[..], dest[n..]);
    ValueZero(dest[n..]);
  }

  /** Copies as many elements as the destination has. */
  method Shrink(source: array<limb>, dest: array<limb>)
    requires source.Length >= dest.Length && source != dest
    modifies dest
    ensures dest[..] == source[..dest.Length]
  {
    var i := 0;
    while i < dest.Length
      invariant 0 <= i <= dest.Length && dest[..i] == source[..i]
    {
      dest[i] := source[i];
      i := i + 1;
    }
  }

  /** Adds a product into the result at a position, carrying as far as necessary. */
  method AddProduct(result: array<limb>, at: nat, x: limb, y: limb)
    requires at + 2 <= result.Length
    requires Value(result[at..]) + Times(x, y) < Power(result.Length - at)
    modifies result
    ensures result[..] == old(result[..at]) + AddIn(old(result[at..]), Times(x, y))
  {
    hide Value, Power, Times, AddIn;
    ghost var was := result[..];
    var v := Times(x, y);
    ghost var goal := was[..at] + AddIn(was[at..], v);
    assert was[at..] == result[at..] && was[..at] == result[..at];
    var i := at;
    while v != 0
      invariant at <= i <= result.Length && 0 <= v
      invariant Value(result[i..]) + v < Power(result.Length - i)
      invariant result[..i] + AddIn(result[i..], v) == goal
      decreases result.Length - i
    {
      ghost var s := result[..];
      assert result[i..] == s[i..];
      AddStep(s[i..], v);
      assert s[i..][0] == s[i] && s[i..][1..] == s[i + 1..];
      var sum := result[i] + v;
      result[i] := sum % RADIX;
      v := sum / RADIX;
      i := i + 1;
      assert result[i..] == s[i..] && result[..i] == s[..i - 1] + [result[i - 1]];
    }
    AddInNothing(result[i..]);
    assert result[..] == result[..i] + result[i..];
  }

  lemma AddStep(s: seq<limb>, v: nat)
    requires Value(s) + v < Power(|s|) && v > 0
    ensures s != [] && Value(s[1..]) + (s[0] + v) / RADIX < Power(|s| - 1)
    ensures AddIn(s, v) == [(s[0] + v) % RADIX] + AddIn(s[1..], (s[0] + v) / RADIX)
  {
    if s == [] {
      assert false;
    }
    var v' := (s[0] + v) / RADIX;
    assert s[0] + v == RADIX * v' + (s[0] + v) % RADIX;
  }

  method Multiply(multiplicand: array<limb>, multiplier: array<limb>, result: array<limb>)
    requires multiplicand.Length == multiplier.Length && result.Length == 2 * multiplicand.Length
    requires result != multiplicand && result != multiplier
    modifies result
    ensures Value(result[..]) == Value(multiplicand[..]) * Value(multiplier[..])
  {
    ghost var a, b := multiplicand[..], multiplier[..];
    var n := multiplicand.Length;
    var k := 0;
    while k < result.Length
      invariant 0 <= k <= result.Length && forall m :: 0 <= m < k ==> result[m] == 0
    {
      result[k] := 0;
      k := k + 1;
    }
    ValueZero(result[..]);
    hide Partial, Value, Times;
    EmptySum(b);
    assert a[..0] == [];
    var i := 0;
    while i < n
      invariant 0 <= i <= n && Value(result[..]) == Value(a[..i]) * Value(b)
    {
      RowStart(a, b, i);
      var j := 0;
      while j < n
        invariant 0 <= j <= n && Value(result[..]) == Partial(a, b, i, j)
      {
        ghost var r := result[..];
        ProductStep(r, a, b, i, j);
        assert r[i + j..] == result[i + j..] && r[..i + j] == result[..i + j];
        AddProduct(result, i + j, multiplicand[i], multiplier[j]);
        j := j + 1;
      }
      PartialRow(a, b, i);
      i := i + 1;
    }
    assert a[..n] == a;
  }

  lemma EmptySum(b: seq<limb>)
    ensures Value([]) == 0 && 0 * Value(b) == 0
  {
  }

  lemma RowStart(a: seq<limb>, b: seq<limb>, i: nat)
    requires i < |a|
    ensures Partial(a, b, i, 0) == Value(a[..i]) * Value(b)
  {
    assert b[..0] == [];
  }

  // ---------------------------------------------------------------------------
  // Modular multiplication.

  lemma {:induction false} ShlIsProduct(x: nat, n: nat)
    ensures Shl(x, n) == Pow2(n) * x
  {
    if n > 0 {
      ShlIsProduct(x, n - 1);
      var y := Pow2(n - 1);
      assert 2 * (y * x) == (2 * y) * x;
    }
  }

  lemma {:induction false} Pow2Monotone(m: nat, n: nat)
    requires m <= n
    ensures Pow2(m) <= Pow2(n)
  {
    if m < n {
      Pow2Monotone(m, n - 1);
    }
  }

  lemma {:induction false} PowerIsPow2(n: nat)
    ensures Power(n) == Pow2(32 * n)
  {
    if n > 0 {
      PowerIsPow2(n - 1);
      PowerOfTwo(32 * (n - 1));
    }
  }

  lemma {:induction false} BitLengthAtMost(v: nat, k: nat)
    requires v < Pow2(k)
    ensures BitLength(v) <= k
  {
    if k > 0 && v > 0 {
      BitLengthAtMost(v / 2, k - 1);
    }
  }

  /** Shifting the modulus up to the length of the product loses no bits. */
  lemma ShiftFits(m: nat, p: nat, i: nat, n: nat)
    requires BitLength(m) + i < BitLength(p) && p < Power(n)
    ensures 2 * Shl(m, i) < Power(n)
  {
    hide BitLength, Power, Shl;
    BitLengthBounds(m);
    PowerIsPow2(n);
    BitLengthAtMost(p, 32 * n);
    ShlLess(m, Pow2(BitLength(m)), i + 1);
    ShlShl(1, BitLength(m), i + 1);
    Pow2Monotone(BitLength(m) + i + 1, 32 * n);
    ShlNext(m, i);
  }

  lemma ShlNext(x: nat, n: nat)
    ensures Shl(x, n + 1) == 2 * Shl(x, n)
  {
  }

  /** A product as long as the shifted modulus is less than twice the shifted modulus. */
  lemma LengthBound(m: nat, p: nat, k: nat)
    requires m > 0 && BitLength(p) == BitLength(m) + k
    ensures p < 2 * Shl(m, k)
  {
    BitLengthBounds(m);
    BitLengthBounds(p);
    ShlShl(1, BitLength(m), k);
    ShlLeq(Pow2(BitLength(m)), 2 * m, k);
    ShlDouble(m, k);
  }

  /** A shorter number is smaller. */
  lemma ShorterIsLess(m: nat, p: nat)
    requires BitLength(p) < BitLength(m)
    ensures p < m
  {
    BitLengthBounds(m);
    BitLengthBounds(p);
    Pow2Monotone(BitLength(p), BitLength(m) - 1);
  }

  lemma NoHighPart(v: nat, low: nat, p: nat, high: nat)
    requires v == low + p * high && v < p
    ensures v == low
  {
    if high > 0 {
      MulMonotone(1, high, p);
    }
  }

  /** An integer that fits fewer elements is in its low elements. */
  lemma LowElements(s: seq<limb>, n: nat)
    requires n <= |s| && Value(s) < Power(n)
    ensures Value(s[..n]) == Value(s)
  {
    hide Value, Power;
    assert s == s[..n] + s[n..];
    ValueAppend(s[..n], s[n..]);
    NoHighPart(Value(s), Value(s[..n]), Power(n), Value(s[n..]));
  }

  lemma SubtractMultiple(p: nat, q: nat, m: nat, r: nat, k: nat)
    requires p == q * m + r && Shl(m, k) <= r
    ensures p == (q + Pow2(k)) * m + (r - Shl(m, k))
  {
    ShlIsProduct(m, k);
    MulDistributes(m, q, Pow2(k));
  }

  /** Shifts the modulus up until it is as long as the product. */
  method Align(modulus: array<limb>, rotation: int, ghost m: nat, ghost p: nat)
    requires Value(modulus[..]) == m && p < Power(modulus.Length)
    requires rotation <= BitLength(p) - BitLength(m)
    modifies modulus
    ensures Value(modulus[..]) == if rotation > 0 then Shl(m, rotation) else m
  {
    hide Value, Power, BitLength;
    var i := 0;
    while i < rotation
      invariant 0 <= i && (i <= rotation || i == 0) && Value(modulus[..]) == Shl(m, i)
    {
      ShiftFits(m, p, i, modulus.Length);
      DoubleExact(modulus[..]);
      Rol(modulus);
      i := i + 1;
    }
  }

  /** Takes multiples of the modulus off the product, from the largest down. */
  method Reduce(result: array<limb>, modulus: array<limb>, rotation: nat, ghost m: nat)
    requires result.Length == modulus.Length && result != modulus && m > 0
    requires Value(modulus[..]) == Shl(m, rotation) && Value(result[..]) < 2 * Shl(m, rotation)
    modifies result, modulus
    ensures Value(result[..]) == old(Value(result[..])) % m
  {
    hide Value;
    ghost var p := Value(result[..]);
    ghost var q := 0;
    var i := 0;
    while i <= rotation
      invariant 0 <= i <= rotation + 1
      invariant i <= rotation ==> Value(modulus[..]) == Shl(m, rotation - i) && Value(result[..]) < 2 * Shl(m, rotation - i)
      invariant i > rotation ==> Value(result[..]) < m
      invariant p == q * m + Value(result[..]) && q >= 0
    {
      var geq := IsGeq(result, modulus);
      if geq {
        DifferenceExact(result[..], modulus[..]);
        SubtractMultiple(p, q, m, Value(result[..]), rotation - i);
        q := q + Pow2(rotation - i);
        Subtract(modulus, result);
      }
      HalfValue(modulus[..]);
      Ror(modulus);
      i := i + 1;
    }
    RemainderUnique(p, q, Value(result[..]), m);
  }

  /** The product modulo the modulus; the result may be one of the factors. */
  method ModMultiply(multiplicand: array<limb>, multiplier: array<limb>, modulus: array<limb>, result: array<limb>)
    requires multiplicand.Length == multiplier.Length == modulus.Length == result.Length
    requires result != modulus && Value(modulus[..]) > 0
    modifies result
    ensures Value(result[..]) == old(Value(multiplicand[..]) * Value(multiplier[..])) % Value(modulus[..])
  {
    hide Value, Power, BitLength;
    var size := modulus.Length;
    var product, scaled := new limb[2 * size], new limb[2 * size];
    Multiply(multiplicand, multiplier, product);
    Grow(modulus, scaled);
    ghost var m, p := Value(modulus[..]), Value(product[..]);
    var top := MaxSetBit(product);
    var modTop := MaxSetBit(scaled);
    var rotation := top as int - modTop as int;
    ValueBound(product[..]);
    Align(scaled, rotation, m, p);
    if rotation >= 0 {
      LengthBound(m, p, rotation);
      Reduce(product, scaled, rotation, m);
    } else {
      ShorterIsLess(m, p);
      RemainderUnique(p, 0, p, m);
    }
    ValueBound(modulus[..]);
    LowElements(product[..], size);
    Shrink(product, result);
    assert product[..][..size] == product[..size];
  }
}
