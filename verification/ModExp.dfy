/** Modular exponentiation by squaring and multiplying. */
module ModExp {
  import opened Bits
  import opened Limbs
  import opened LimbProduct
  import opened BigInt

  function Pow(b: nat, e: nat): nat {
    if e == 0 then 1 else b * Pow(b, e - 1)
  }

  /** Equal remainders. */
  predicate Same(a: int, b: int, m: nat)
    requires m > 0
  {
    a % m == b % m
  }

  lemma SameQuotient(a: int, b: int, q: int, m: nat)
    requires m > 0 && a == b + q * m
    ensures Same(a, b, m)
  {
    var d, r := b / m, b % m;
    MulDistributes(m, d, q);
    RemainderUnique(a, d + q, r, m);
  }

  lemma SameWitness(a: int, b: int, m: nat) returns (q: int)
    requires m > 0 && Same(a, b, m)
    ensures a == b + q * m
  {
    q := a / m - b / m;
    MulDistributes(m, a / m, -(b / m));
    assert (-(b / m)) * m == -((b / m) * m);
  }

  lemma SameProduct(a: int, a': int, b: int, b': int, m: nat)
    requires m > 0 && Same(a, a', m) && Same(b, b', m)
    ensures Same(a * b, a' * b', m)
  {
    var p := SameWitness(a, a', m);
    var q := SameWitness(b, b', m);
    var z := a' * q + p * b;
    assert a * b == a' * b' + z * m by {
      MulDistributes(b, a', p * m);
      MulDistributes(a', b', q * m);
      MulAssoc(a', q, m);
      MulAssoc(b, p, m);
      MulDistributes(m, a' * q, p * b);
      assert b * p == p * b;
    }
    SameQuotient(a * b, a' * b', z, m);
  }

  lemma SameRemainder(a: int, m: nat)
    requires m > 0
    ensures Same(a % m, a, m)
  {
    RemainderUnique(a % m, 0, a % m, m);
  }

  lemma {:induction false} SamePow(a: nat, b: nat, e: nat, m: nat)
    requires m > 0 && Same(a, b, m)
    ensures Same(Pow(a, e), Pow(b, e), m)
  {
    if e > 0 {
      SamePow(a, b, e - 1, m);
      SameProduct(a, b, Pow(a, e - 1), Pow(b, e - 1), m);
    }
  }

  lemma {:induction false} PowSquare(b: nat, k: nat)
    ensures Pow(b, 2 * k) == Pow(b * b, k)
  {
    if k > 0 {
      PowSquare(b, k - 1);
      assert Pow(b, 2 * k) == b * (b * Pow(b, 2 * k - 2));
      MulAssoc(b, b, Pow(b, 2 * k - 2));
    }
  }

  lemma PowSplit(b: nat, e: nat)
    ensures Pow(b, e) == (if e % 2 == 1 then b else 1) * Pow(b * b, e / 2)
  {
    PowSquare(b, e / 2);
  }

  /** One round: with the low bit taken into the result and the base squared, nothing is lost. */
  lemma Round(r: nat, b: nat, e: nat, r': nat, b': nat, m: nat, target: nat)
    requires m > 0 && Same(r * Pow(b, e), target, m)
    requires r' == (if e % 2 == 1 then (r * b) % m else r) && b' == (b * b) % m
    ensures Same(r' * Pow(b', e / 2), target, m)
  {
    var x := if e % 2 == 1 then b else 1;
    var y := Pow(b * b, e / 2);
    PowSplit(b, e);
    MulAssoc(r, x, y);
    SameRemainder(b * b, m);
    SamePow(b', b * b, e / 2, m);
    SameRemainder(r * x, m);
    SameProduct(r', r * x, Pow(b', e / 2), y, m);
  }

  /** Multiplies the base in if the lowest bit of the exponent is set, and squares it. */
  method Step(base: array<limb>, exponent: array<limb>, modulus: array<limb>, result: array<limb>)
    requires base.Length == modulus.Length == result.Length
    requires modulus != result && modulus != base && modulus != exponent
    requires result != base && result != exponent && base != exponent
    requires Value(modulus[..]) > 0 && Value(exponent[..]) > 0
    modifies base, exponent, result
    ensures Value(exponent[..]) == old(Value(exponent[..])) / 2
    ensures Value(base[..]) == old(Value(base[..]) * Value(base[..])) % Value(modulus[..])
    ensures Value(result[..]) == if old(Value(exponent[..])) % 2 == 1
                                 then old(Value(result[..]) * Value(base[..])) % Value(modulus[..])
                                 else old(Value(result[..]))
    ensures old(Value(exponent[..])) % 2 == 1 ==> Value(result[..]) < Value(modulus[..])
  {
    HalfValue(exponent[..]);
    var odd := BitIsSet(exponent);
    hide Value;
    if odd {
      ModMultiply(result, base, modulus, result);
    }
    Ror(exponent);
    ModMultiply(base, base, modulus, base);
  }

  /** Works through the bits of the exponent, which ends up zero. */
  method SquareAndMultiply(base: array<limb>, exponent: array<limb>, modulus: array<limb>, result: array<limb>)
    requires base.Length == modulus.Length == result.Length
    requires modulus != result && modulus != base && modulus != exponent
    requires result != base && result != exponent && base != exponent
    requires Value(modulus[..]) > 0 && Value(result[..]) == 1
    modifies base, exponent, result
    ensures var e := old(Value(exponent[..]));
            Value(result[..]) == if e == 0 then 1 else old(Pow(Value(base[..]), e)) % Value(modulus[..])
  {
    hide Value, Pow, Same;
    ghost var e0, m := Value(exponent[..]), Value(modulus[..]);
    ghost var target := Pow(Value(base[..]), e0);
    SameStart(target, m);
    ghost var started := false;
    var zero := IsZero(exponent);
    while !zero
      invariant zero == (Value(exponent[..]) == 0)
      invariant Same(Value(result[..]) * Pow(Value(base[..]), Value(exponent[..])), target, m)
      invariant started ==> e0 > 0 && Value(result[..]) < m
      invariant !started ==> Value(result[..]) == 1 && (zero <==> e0 == 0)
      decreases Value(exponent[..])
    {
      ghost var r, b, e := Value(result[..]), Value(base[..]), Value(exponent[..]);
      Step(base, exponent, modulus, result);
      started := started || e % 2 == 1;
      Round(r, b, e, Value(result[..]), Value(base[..]), m, target);
      zero := IsZero(exponent);
    }
    Finish(Value(result[..]), Value(base[..]), target, m);
  }

  /**
   The base to the power of the exponent modulo the modulus; the result may be the base or
   the exponent.  For a zero exponent the result is 1 whatever the modulus.
   */
  method ModExp(base: array<limb>, modulus: array<limb>, exponent: array<limb>, result: array<limb>)
    requires base.Length == modulus.Length == result.Length
    requires result != modulus && Value(modulus[..]) > 0
    modifies result
    ensures var e := old(Value(exponent[..]));
            Value(result[..]) == if e == 0 then 1 else old(Pow(Value(base[..]), e)) % Value(modulus[..])
  {
    assert modulus.Length > 0;
    hide Value, Pow, Same;
    var tbase, texp := new limb[base.Length], new limb[exponent.Length];
    Shrink(base, tbase);
    Shrink(exponent, texp);
    assert tbase[..] == base[..] && texp[..] == exponent[..];
    SetOne(result, modulus);
    SquareAndMultiply(tbase, texp, modulus, result);
  }

  lemma SameStart(target: nat, m: nat)
    requires m > 0
    ensures Same(1 * target, target, m)
  {
  }

  lemma Finish(r: nat, b: nat, target: nat, m: nat)
    requires m > 0 && Same(r * Pow(b, 0), target, m)
    ensures r < m ==> r == target % m
  {
    if r < m {
      RemainderUnique(r, 0, r, m);
    }
  }

  /** The lowest bit. */
  method BitIsSet(value: array<limb>) returns (isSet: bool)
    requires value.Length > 0
    ensures isSet <==> LowBit(value[..]) == 1
  {
    isSet := value[0] % 2 == 1;
  }

  method SetOne(value: array<limb>, ghost modulus: array<limb>)
    requires value.Length > 0 && value != modulus
    modifies value
    ensures Value(value[..]) == 1
  {
    value[0] := 1;
    var i := 1;
    while i < value.Length
      invariant 1 <= i <= value.Length && value[0] == 1 && forall k :: 1 <= k < i ==> value[k] == 0
    {
      value[i] := 0;
      i := i + 1;
    }
    ValueZero(value[1..]);
    assert value[..][1..] == value[1..];
  }

  /** The result is the mathematical remainder in every case but one: exponent 0, modulus 1. */
  lemma ExactRemainder(b: nat, e: nat, m: nat)
    requires m > 0
    ensures (if e == 0 then 1 else Pow(b, e) % m) == Pow(b, e) % m <==> e > 0 || m > 1
  {
    if e == 0 && m > 1 {
      RemainderUnique(1, 0, 1, m);
    }
  }
}
