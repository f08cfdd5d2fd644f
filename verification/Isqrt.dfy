/** Integer square root, one bit at a time. */
module Isqrt {
  import opened Bits

  lemma SquareOfSum(r: int, b: int)
    ensures (r + b) * (r + b) == r * r + 2 * (r * b) + b * b
  {
  }

  lemma SquareOfDouble(b: int)
    ensures (2 * b) * (2 * b) == 4 * (b * b)
  {
  }

  lemma TimesDouble(r: int, b: int)
    ensures r * (2 * b) == 2 * (r * b)
  {
  }

  lemma SquareLess(a: nat, b: nat)
    requires a < b
    ensures a * a < b * b
  {
    SquareOfSum(a, b - a);
  }

  /**
   The state of the search: the root so far is r, the next bit to try is b, whose square is
   `bit`; what is left of the value and the doubled product are kept instead of r.
   */
  ghost predicate Searching(value: nat, left: nat, result: nat, bit: nat, r: nat, b: nat, top: nat) {
    && bit == b * b && result == 2 * (r * b) && left + r * r == value
    && value < (r + 2 * b) * (r + 2 * b) && r + 2 * b <= top
  }

  /** Trying a bit computes nothing larger than the square of the top. */
  lemma TrySmall(value: nat, left: nat, result: nat, bit: nat, r: nat, b: nat, top: nat)
    requires Searching(value, left, result, bit, r, b, top) && b > 0
    ensures result + bit < top * top
  {
    SquareOfSum(r, b);
    SquareLess(r + b, top);
  }

  lemma TakeBit(value: nat, left: nat, result: nat, bit: nat, r: nat, h: nat, top: nat)
    requires Searching(value, left, result, bit, r, 2 * h, top) && left >= result + bit
    ensures Searching(value, left - (result + bit), result / 2 + bit, bit / 4, r + 2 * h, h, top)
  {
    SquareOfSum(r, 2 * h);
    SquareOfDouble(h);
    TimesDouble(r, h);
    assert (r + 2 * h) * h == r * h + 2 * (h * h);
    assert (r + 2 * h) + 2 * h == r + 2 * (2 * h);
  }

  lemma LeaveBit(value: nat, left: nat, result: nat, bit: nat, r: nat, h: nat, top: nat)
    requires Searching(value, left, result, bit, r, 2 * h, top) && left < result + bit
    ensures Searching(value, left, result / 2, bit / 4, r, h, top)
  {
    SquareOfSum(r, 2 * h);
    SquareOfDouble(h);
    TimesDouble(r, h);
  }

  /** The last bit: what was the doubled product becomes the root itself. */
  lemma LastBit(value: nat, left: nat, result: nat, bit: nat, r: nat, top: nat)
    requires Searching(value, left, result, bit, r, 1, top)
    ensures var root := if left >= result + bit then result / 2 + bit else result / 2;
            root * root <= value < (root + 1) * (root + 1) && root < top
  {
    SquareOfSum(r, 1);
    SquareOfSum(r, 2);
    SquareOfSum(r + 1, 1);
  }

  function Square(b: nat): nat {
    b * b
  }

  /** The largest integer whose square is at most the value. */
  predicate IsRoot(root: nat, value: nat) {
    root * root <= value < (root + 1) * (root + 1)
  }

  /** Addition of machine words of which there are `words`. */
  function Add(a: nat, b: nat, words: nat): nat
    requires words > 0
  {
    (a + b) % words
  }

  lemma AddExact(a: nat, b: nat, words: nat)
    requires a + b < words
    ensures Add(a, b, words) == a + b
  {
    RemainderUnique(a + b, 0, a + b, words);
  }

  /** The square root, for words of twice `half` bits. */
  method SquareRoot(value: nat, half: nat) returns (result: nat)
    requires half > 0 && value < Square(Pow2(half))
    ensures IsRoot(result, value) && result < Pow2(half)
  {
    hide Searching, Pow2, Square;
    ghost var top := Pow2(half);
    var k: nat := half - 1;
    var bit: nat := Square(Pow2(k));
    StartSearch(value, k, half);
    while bit > value
      invariant bit > 0 ==> bit == Square(Pow2(k)) && Searching(value, value, 0, bit, 0, Pow2(k), top)
      invariant bit == 0 ==> value == 0
      decreases bit
    {
      ShrinkSearch(value, bit, k, top);
      bit := bit / 4;
      k := if k > 0 then k - 1 else 0;
    }
    if bit == 0 {
      PowPositive(half);
      return 0;
    }
    result := Bitwise(value, bit, k, Square(Pow2(half)), top);
  }

  /**
   Tries the bits of the root from the highest, adding machine words: the result is the root
   although the bit and the doubled product of the root so far share one word.
   */
  method Bitwise(value: nat, start: nat, first: nat, words: nat, ghost top: nat) returns (result: nat)
    requires words == Square(top) > 0
    requires start == Square(Pow2(first)) > 0 && Searching(value, value, 0, start, 0, Pow2(first), top)
    ensures IsRoot(result, value) && result < top
  {
    hide Searching, Pow2, Square, IsRoot, Add;
    result := 0;
    var left: nat, bit: nat, k: nat := value, start, first;
    ghost var r: nat := 0;
    while bit > 0
      invariant bit > 0 ==> bit == Square(Pow2(k)) && Searching(value, left, result, bit, r, Pow2(k), top)
      invariant bit == 0 ==> IsRoot(result, value) && result < top
      decreases bit
    {
      NextBit(value, left, result, bit, r, k, top);
      AddExact(result, bit, words);
      AddExact(result / 2, bit, words);
      if left >= Add(result, bit, words) {
        left := left - Add(result, bit, words);
        result := Add(result / 2, bit, words);
        r := r + Pow2(k);
      } else {
        result := result / 2;
      }
      bit := bit / 4;
      k := if k > 0 then k - 1 else 0;
    }
  }

  lemma {:induction false} PowPositive(k: nat)
    ensures Pow2(k) > 0
  {
    if k > 0 {
      PowPositive(k - 1);
    }
  }

  lemma StartSearch(value: nat, k: nat, half: nat)
    requires half == k + 1 && value < Square(Pow2(half))
    ensures Square(Pow2(k)) > 0 && Searching(value, value, 0, Square(Pow2(k)), 0, Pow2(k), Pow2(half))
  {
    PowPositive(k);
    SquareLess(0, Pow2(k));
  }

  /** A bit too large for the value is skipped. */
  lemma ShrinkSearch(value: nat, bit: nat, k: nat, top: nat)
    requires bit == Square(Pow2(k)) > value && Searching(value, value, 0, bit, 0, Pow2(k), top)
    ensures k > 0 ==> bit / 4 == Square(Pow2(k - 1)) > 0 && Searching(value, value, 0, bit / 4, 0, Pow2(k - 1), top)
    ensures k == 0 ==> bit / 4 == 0 && value == 0
  {
    if k > 0 {
      var h := Pow2(k - 1);
      PowPositive(k - 1);
      SquareLess(0, h);
      SquareOfDouble(h);
    }
  }

  lemma NextBit(value: nat, left: nat, result: nat, bit: nat, r: nat, k: nat, top: nat)
    requires bit == Square(Pow2(k)) && Searching(value, left, result, bit, r, Pow2(k), top)
    ensures result + bit < Square(top)
    ensures var taken := left >= result + bit;
            var left' := if taken then left - (result + bit) else left;
            var result' := if taken then result / 2 + bit else result / 2;
            var r' := if taken then r + Pow2(k) else r;
            && (k > 0 ==> bit / 4 == Square(Pow2(k - 1)) > 0 && Searching(value, left', result', bit / 4, r', Pow2(k - 1), top))
            && (k == 0 ==> bit / 4 == 0 && IsRoot(result', value) && result' < top)
  {
    PowPositive(k);
    TrySmall(value, left, result, bit, r, Pow2(k), top);
    if k == 0 {
      LastBit(value, left, result, bit, r, top);
    } else {
      var h := Pow2(k - 1);
      PowPositive(k - 1);
      SquareLess(0, h);
      SquareOfDouble(h);
      if left >= result + bit {
        TakeBit(value, left, result, bit, r, h, top);
      } else {
        LeaveBit(value, left, result, bit, r, h, top);
      }
      hide Searching;
    }
  }
}
