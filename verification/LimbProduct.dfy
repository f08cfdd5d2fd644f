/** Multiplying big integers one pair of elements at a time. */
module LimbProduct {
  import opened Limbs

  // ---------------------------------------------------------------------------
  // Products.

  lemma MulAssoc(a: int, b: int, c: int)
    ensures a * (b * c) == (a * b) * c
  {
  }

  lemma MulDistributes(a: int, b: int, c: int)
    ensures a * (b + c) == a * b + a * c && (b + c) * a == b * a + c * a
  {
  }

  lemma MulMonotone(a: nat, b: nat, c: nat)
    requires a <= b
    ensures a * c <= b * c && c * a <= c * b
  {
  }

  lemma MulLess(a: nat, b: nat, c: nat, d: nat)
    requires a < c && b < d
    ensures a * b < c * d
  {
    MulMonotone(a, c, b);
    MulMonotone(b + 1, d, c);
    MulDistributes(c, b, 1);
  }

  lemma MulCancel(p: nat, a: nat, b: nat)
    requires p > 0 && p * a < p * b
    ensures a < b
  {
    if b <= a {
      MulMonotone(b, a, p);
    }
  }

  lemma {:induction false} PowerAdd(m: nat, n: nat)
    ensures Power(m + n) == Power(m) * Power(n)
  {
    if m > 0 {
      PowerAdd(m - 1, n);
      MulAssoc(RADIX, Power(m - 1), Power(n));
    }
  }

  lemma {:induction false} ValueAppend(s: seq<limb>, t: seq<limb>)
    ensures Value(s + t) == Value(s) + Power(|s|) * Value(t)
  {
    if s == [] {
      assert s + t == t;
    } else {
      ValueAppend(s[1..], t);
      assert (s + t)[1..] == s[1..] + t;
      MulAssoc(RADIX, Power(|s| - 1), Value(t));
    }
  }

  lemma ValuePrefix(s: seq<limb>, i: nat)
    requires i < |s|
    ensures Value(s[..i + 1]) == Value(s[..i]) + Power(i) * s[i]
    ensures Value(s[..i + 1]) <= Value(s)
  {
    assert s[..i + 1] == s[..i] + [s[i]] && s == s[..i + 1] + s[i + 1..];
    ValueAppend(s[..i], [s[i]]);
    ValueAppend(s[..i + 1], s[i + 1..]);
    assert Value([s[i]]) == s[i];
    MulMonotone(0, Value(s[i + 1..]), Power(i + 1));
  }

  /** The product of two elements, which takes two elements to hold. */
  function Times(x: limb, y: limb): (p: nat)
    ensures p / RADIX <= RADIX - 2
  {
    var m, n: nat := x, y;
    MulMonotone(m, RADIX - 1, n);
    MulMonotone(n, RADIX - 1, RADIX - 1);
    MulMonotone(0, m, n);
    m * n
  }

  // ---------------------------------------------------------------------------
  // Adding in at a position.

  /** The elements after adding v, which may itself be larger than an element. */
  function AddIn(s: seq<limb>, v: nat): (r: seq<limb>)
    ensures |r| == |s|
  {
    if s == [] then [] else [(s[0] + v) % RADIX] + AddIn(s[1..], (s[0] + v) / RADIX)
  }

  lemma {:induction false} AddInValue(s: seq<limb>, v: nat)
    requires Value(s) + v < Power(|s|)
    ensures Value(AddIn(s, v)) == Value(s) + v
  {
    if s != [] {
      var v' := (s[0] + v) / RADIX;
      assert s[0] + v == RADIX * v' + (s[0] + v) % RADIX;
      AddInValue(s[1..], v');
      assert AddIn(s, v)[1..] == AddIn(s[1..], v');
    }
  }

  lemma {:induction false} AddInNothing(s: seq<limb>)
    ensures AddIn(s, 0) == s
  {
    if s != [] {
      AddInNothing(s[1..]);
    }
  }

  lemma AddAtValue(s: seq<limb>, at: nat, v: nat)
    requires at <= |s| && Value(s[at..]) + v < Power(|s| - at)
    ensures Value(s[..at] + AddIn(s[at..], v)) == Value(s) + Power(at) * v
  {
    assert s == s[..at] + s[at..];
    ValueAppend(s[..at], s[at..]);
    ValueAppend(s[..at], AddIn(s[at..], v));
    AddInValue(s[at..], v);
    MulDistributes(Power(at), Value(s[at..]), v);
  }

  /** There is room for what is added as long as the sum stays within the whole. */
  lemma RoomAt(s: seq<limb>, at: nat, v: nat)
    requires at <= |s| && Value(s) + Power(at) * v < Power(|s|)
    ensures Value(s[at..]) + v < Power(|s| - at)
  {
    assert s == s[..at] + s[at..];
    ValueAppend(s[..at], s[at..]);
    PowerAdd(at, |s| - at);
    MulDistributes(Power(at), Value(s[at..]), v);
    MulCancel(Power(at), Value(s[at..]) + v, Power(|s| - at));
  }

  // ---------------------------------------------------------------------------
  // The schoolbook sum.

  /** Rows before i in full, and of row i the first j products. */
  function Partial(a: seq<limb>, b: seq<limb>, i: nat, j: nat): int
    requires i < |a| && j <= |b|
  {
    Value(a[..i]) * Value(b) + Power(i) * (a[i] as int * Value(b[..j]))
  }

  lemma PartialNext(a: seq<limb>, b: seq<limb>, i: nat, j: nat)
    requires i < |a| && j < |b|
    ensures Partial(a, b, i, j + 1) == Partial(a, b, i, j) + Power(i + j) * (Times(a[i], b[j]))
  {
    ValuePrefix(b, j);
    MulDistributes(a[i], Value(b[..j]), Power(j) * b[j]);
    MulDistributes(Power(i), a[i] * Value(b[..j]), a[i] * (Power(j) * b[j]));
    PowerAdd(i, j);
    RearrangeFour(Power(i), a[i], Power(j), b[j]);
  }

  lemma RearrangeFour(p: int, x: int, q: int, y: int)
    ensures p * (x * (q * y)) == (p * q) * (x * y)
  {
    MulAssoc(x, q, y);
    MulAssoc(q, x, y);
    MulAssoc(p, q, x * y);
    assert x * q == q * x;
  }

  lemma PartialRow(a: seq<limb>, b: seq<limb>, i: nat)
    requires i < |a|
    ensures Partial(a, b, i, |b|) == Value(a[..i + 1]) * Value(b)
  {
    ValuePrefix(a, i);
    assert b[..|b|] == b;
    MulDistributes(Value(b), Value(a[..i]), Power(i) * a[i]);
    MulAssoc(Power(i), a[i], Value(b));
  }

  lemma PartialGrows(a: seq<limb>, b: seq<limb>, i: nat, j: nat)
    requires i < |a| && j <= |b|
    ensures Partial(a, b, i, j) <= Partial(a, b, i, |b|)
  {
    assert b[..|b|] == b && b == b[..j] + b[j..];
    ValueAppend(b[..j], b[j..]);
    MulMonotone(0, Value(b[j..]), Power(j));
    MulMonotone(Value(b[..j]), Value(b), a[i]);
    MulMonotone(a[i] * Value(b[..j]), a[i] * Value(b), Power(i));
  }

  lemma PartialBound(a: seq<limb>, b: seq<limb>, i: nat, j: nat)
    requires |a| == |b| && i < |a| && j <= |b|
    ensures Partial(a, b, i, j) < Power(2 * |a|)
  {
    PartialGrows(a, b, i, j);
    PartialRow(a, b, i);
    ValuePrefix(a, i);
    MulMonotone(Value(a[..i + 1]), Value(a), Value(b));
    ValueBound(a);
    ValueBound(b);
    MulLess(Value(a), Value(b), Power(|a|), Power(|b|));
    PowerAdd(|a|, |a|);
  }

  /** Adding one more product keeps the sum in step, and never carries out of the result. */
  lemma ProductStep(r: seq<limb>, a: seq<limb>, b: seq<limb>, i: nat, j: nat)
    requires |a| == |b| && |r| == 2 * |a| && i < |a| && j < |b| && Value(r) == Partial(a, b, i, j)
    ensures Value(r[i + j..]) + Times(a[i], b[j]) < Power(|r| - (i + j))
    ensures Value(r[..i + j] + AddIn(r[i + j..], Times(a[i], b[j]))) == Partial(a, b, i, j + 1)
  {
    hide Partial, Value, Power, AddIn;
    PartialNext(a, b, i, j);
    PartialBound(a, b, i, j + 1);
    RoomAt(r, i + j, Times(a[i], b[j]));
    AddAtValue(r, i + j, Times(a[i], b[j]));
  }
}
