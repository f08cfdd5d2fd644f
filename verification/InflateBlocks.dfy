/**
 Blocks and whole streams of the DEFLATE format (sections 3.2.3 to 3.2.7 of RFC 1951)
 and of its ZLIB wrapper (section 2.2 of RFC 1950), encoded and decoded again.
 */
module InflateBlocks {
  import opened Bits
  import opened Huffman
  import opened Lz77
  import opened InflateSpec
  import opened InflateRun
  import opened InflateFormat

  // ---------------------------------------------------------------------------
  // Run-length coded code lengths.

  datatype Item = Item(sym: nat, extra: nat)

  function ItemExtraBits(sym: nat): nat {
    if sym < 16 then 0 else if sym == 16 then 2 else if sym == 17 then 3 else 7
  }

  function ItemCount(it: Item): (n: nat) {
    if it.sym < 16 then 1 else if it.sym < 18 then 3 + it.extra else 11 + it.extra
  }

  /** The length an item stands for, given the previous one. */
  function ItemValue(it: Item, last: nat): (v: nat)
    requires last < 16
    ensures v < 16
  {
    if it.sym < 16 then it.sym else if it.sym == 16 then last else 0
  }

  predicate ValidItem(it: Item, code: Lengths) {
    it.sym < 19 && it.sym < |code| && code[it.sym] > 0 && it.extra < Pow2(ItemExtraBits(it.sym))
  }

  function ItemBits(it: Item, code: Lengths): BitString
    requires it.sym < |code|
  {
    CodeBits(code, it.sym) + LsbBits(it.extra, ItemExtraBits(it.sym))
  }

  predicate ValidItems(items: seq<Item>, code: Lengths) {
    forall i :: 0 <= i < |items| ==> ValidItem(items[i], code)
  }

  function ItemsBits(items: seq<Item>, code: Lengths): BitString
    requires ValidItems(items, code)
  {
    if items == [] then [] else ItemBits(items[0], code) + ItemsBits(items[1..], code)
  }

  function ItemsCount(items: seq<Item>): nat {
    if items == [] then 0 else ItemCount(items[0]) + ItemsCount(items[1..])
  }

  /** The code lengths that a list of items stands for. */
  function ExpandItems(items: seq<Item>, lens: Lengths, last: nat): (r: Lengths)
    requires last < 16
    ensures |r| == |lens| + ItemsCount(items)
    decreases |items|
  {
    if items == [] then lens
    else
      var v := ItemValue(items[0], last);
      ExpandItems(items[1..], lens + Repeat(v, ItemCount(items[0])), v)
  }

  lemma StepItemCode(fmt: Format, st: State, sym: nat, tail: BitString, offset: nat)
    requires Wf(st) && st.DynamicSymbol? && sym < 19 && st.code[sym] > 0
    ensures Step(fmt, st, CodeBits(st.code, sym) + tail, offset) == Next(CodelenSymbol(st, sym), tail, [])
  {
    hide Decode, CodelenSymbol;
    CodeFront(st.code, sym, tail);
  }

  lemma StoreItem(st: State, it: Item)
    requires Wf(st) && st.DynamicSymbol? && ValidItem(it, st.code)
    requires |st.lens| + ItemCount(it) <= st.nlit + st.ndist
    ensures var mid := CodelenSymbol(st, it.sym);
            var v := ItemValue(it, st.last);
            var lens := st.lens + Repeat(v, ItemCount(it));
            && Wf(mid) && mid.DynamicExtra? && mid.extra == ItemExtraBits(it.sym)
            && StoreLengths(mid, it.extra) ==
               if |lens| < st.nlit + st.ndist then DynamicSymbol(st.final, st.nlit, st.ndist, st.code, lens, v)
               else Construct(st.final, st.nlit, st.ndist, lens)
  {
  }

  lemma GoesItem(fmt: Format, st: State, it: Item, tail: BitString, offset: nat)
    requires Wf(st) && st.DynamicSymbol? && ValidItem(it, st.code)
    requires Wf(CodelenSymbol(st, it.sym)) && CodelenSymbol(st, it.sym).extra == ItemExtraBits(it.sym)
    ensures Goes(fmt, st, ItemBits(it, st.code) + tail, offset, StoreLengths(CodelenSymbol(st, it.sym), it.extra), tail, [])
  {
    hide Goes, Step, CodeBits, LsbBits, Pow2, StoreLengths, ItemExtraBits, ItemCount;
    var mid := CodelenSymbol(st, it.sym);
    var rest := LsbBits(it.extra, mid.extra) + tail;
    assert ItemBits(it, st.code) + tail == CodeBits(st.code, it.sym) + rest;
    StepItemCode(fmt, st, it.sym, rest, offset);
    StepField(fmt, mid, it.extra, tail, offset);
    GoesTwoSteps(fmt, st, CodeBits(st.code, it.sym) + rest, offset, mid, rest, Next(StoreLengths(mid, it.extra), tail, []));
  }

  lemma ItemsCountPositive(items: seq<Item>)
    requires items != []
    ensures ItemsCount(items) >= 1 && ItemsCount(items) == ItemCount(items[0]) + ItemsCount(items[1..])
  {
  }

  lemma {:induction false} GoesItems(fmt: Format, st: State, items: seq<Item>, tail: BitString, offset: nat)
    requires Wf(st) && st.DynamicSymbol? && items != [] && ValidItems(items, st.code)
    requires |st.lens| + ItemsCount(items) == st.nlit + st.ndist
    ensures Goes(fmt, st, ItemsBits(items, st.code) + tail, offset,
                 Construct(st.final, st.nlit, st.ndist, ExpandItems(items, st.lens, st.last)), tail, [])
    decreases |items|
  {
    hide Goes, ItemBits, ItemCount, ItemValue, ItemExtraBits, Pow2, CodelenSymbol, StoreLengths;
    var it, rest := items[0], ItemsBits(items[1..], st.code) + tail;
    ItemsCountPositive(items);
    assert ItemsBits(items, st.code) + tail == ItemBits(it, st.code) + rest;
    StoreItem(st, it);
    GoesItem(fmt, st, it, rest, offset);
    var v := ItemValue(it, st.last);
    var lens := st.lens + Repeat(v, ItemCount(it));
    if items[1..] == [] {
      assert rest == tail;
    } else {
      ItemsCountPositive(items[1..]);
      var next := DynamicSymbol(st.final, st.nlit, st.ndist, st.code, lens, v);
      GoesItems(fmt, next, items[1..], tail, offset);
      GoesTrans(fmt, st, ItemBits(it, st.code) + rest, offset, next, rest, [],
                Construct(st.final, st.nlit, st.ndist, ExpandItems(items[1..], lens, v)), tail, []);
      var none: seq<Token> := [];
      assert none + none == none;
    }
  }

  // ---------------------------------------------------------------------------
  // Code length code lengths and the dynamic block header.

  function CodelensBits(cs: seq<nat>): BitString {
    if cs == [] then [] else LsbBits(cs[0], 3) + CodelensBits(cs[1..])
  }

  predicate SmallLengths(cs: seq<nat>) {
    forall i :: 0 <= i < |cs| ==> cs[i] < 8
  }

  lemma StepCodelenField(fmt: Format, st: State, c: nat, tail: BitString, offset: nat)
    requires Wf(st) && st.DynamicCodelen? && |st.got| < st.target && c < 8
    ensures Step(fmt, st, LsbBits(c, 3) + tail, offset) ==
            Next(DynamicCodelen(st.final, st.nlit, st.ndist, st.target, st.got + [c]), tail, [])
  {
    Powers();
    FieldFront(c, 3, tail);
    hide Lsb, LsbBits, Pow2;
  }

  lemma {:induction false} GoesCodelens(fmt: Format, st: State, cs: seq<nat>, tail: BitString, offset: nat)
    requires Wf(st) && st.DynamicCodelen? && |st.got| + |cs| == st.target && SmallLengths(cs)
    ensures Goes(fmt, st, CodelensBits(cs) + tail, offset,
                 DynamicCodelen(st.final, st.nlit, st.ndist, st.target, st.got + cs), tail, [])
    decreases |cs|
  {
    hide Goes, Step, LsbBits;
    if cs == [] {
      assert st.got + cs == st.got && CodelensBits(cs) + tail == tail;
      GoesSelf(fmt, st, tail, offset);
    } else {
      var rest := CodelensBits(cs[1..]) + tail;
      assert CodelensBits(cs) + tail == LsbBits(cs[0], 3) + rest;
      var next := DynamicCodelen(st.final, st.nlit, st.ndist, st.target, st.got + [cs[0]]);
      StepCodelenField(fmt, st, cs[0], rest, offset);
      GoesStep(fmt, st, LsbBits(cs[0], 3) + rest, offset);
      GoesCodelens(fmt, next, cs[1..], tail, offset);
      assert (st.got + [cs[0]]) + cs[1..] == st.got + cs;
      GoesTrans(fmt, st, LsbBits(cs[0], 3) + rest, offset, next, rest, [],
                DynamicCodelen(st.final, st.nlit, st.ndist, st.target, st.got + cs), tail, []);
      var none: seq<Token> := [];
      assert none + none == none;
    }
  }

  lemma {:induction false} LsbAppend(a: BitString, b: BitString)
    ensures Lsb(a + b) == Lsb(a) + Shl(Lsb(b), |a|)
  {
    if a == [] {
      assert a + b == b;
    } else {
      LsbAppend(a[1..], b);
      assert (a + b)[1..] == a[1..] + b;
    }
  }

  function DynamicHeaderBits(nlit: nat, ndist: nat, ncodelen: nat): (s: BitString)
    requires CountsOk(nlit, ndist) && 4 <= ncodelen <= 19
    ensures |s| == 14
  {
    LsbBits(nlit - 257, 5) + (LsbBits(ndist - 1, 5) + LsbBits(ncodelen - 4, 4))
  }

  lemma DynamicHeaderValue(nlit: nat, ndist: nat, ncodelen: nat)
    requires CountsOk(nlit, ndist) && 4 <= ncodelen <= 19
    ensures var h := Lsb(DynamicHeaderBits(nlit, ndist, ncodelen));
            NumLit(h) == nlit && NumDist(h) == ndist && NumCodelen(h) == ncodelen
  {
    hide Lsb, LsbBits, Shl, Pow2;
    Powers();
    var a, b, c := LsbBits(nlit - 257, 5), LsbBits(ndist - 1, 5), LsbBits(ncodelen - 4, 4);
    LsbRoundTrip(nlit - 257, 5);
    LsbRoundTrip(ndist - 1, 5);
    LsbRoundTrip(ncodelen - 4, 4);
    LsbAppend(b, c);
    LsbAppend(a, b + c);
    ShlByFive(Lsb(c));
    ShlByFive(Lsb(b + c));
    HeaderArithmetic(nlit - 257, ndist - 1, ncodelen - 4);
  }

  lemma ShlByFive(x: nat)
    ensures Shl(x, 5) == 32 * x
  {
    assert Shl(x, 1) == 2 * x && Shl(x, 2) == 2 * Shl(x, 1);
    assert Shl(x, 3) == 2 * Shl(x, 2) && Shl(x, 4) == 2 * Shl(x, 3);
  }

  lemma HeaderArithmetic(a: nat, b: nat, c: nat)
    requires a < 32 && b < 32
    ensures var h := a + 32 * (b + 32 * c);
            h % 32 == a && h / 32 % 32 == b && h / 1024 == c
  {
    var h := a + 32 * (b + 32 * c);
    assert h / 32 == b + 32 * c;
    assert h / 1024 == h / 32 / 32;
  }

  lemma StepDynamicHeaderField(fmt: Format, final: bool, nlit: nat, ndist: nat, ncodelen: nat, tail: BitString, offset: nat)
    requires CountsOk(nlit, ndist) && 4 <= ncodelen <= 19
    ensures Step(fmt, DynamicHeader(final), DynamicHeaderBits(nlit, ndist, ncodelen) + tail, offset) ==
            Next(DynamicCodelen(final, nlit, ndist, ncodelen, []), tail, [])
  {
    DynamicHeaderValue(nlit, ndist, ncodelen);
    TakeFront(DynamicHeaderBits(nlit, ndist, ncodelen), tail);
    hide DynamicHeaderBits, NumLit, NumDist, NumCodelen, Lsb;
  }

  // ---------------------------------------------------------------------------
  // The fixed code is complete.

  lemma {:induction false} KraftAppend(a: Lengths, b: Lengths)
    ensures Kraft(a + b) == Kraft(a) + Kraft(b)
  {
    if b == [] {
      assert a + b == a;
    } else {
      var n := |b| - 1;
      KraftAppend(a, b[..n]);
      assert (a + b)[..|a + b| - 1] == a + b[..n];
    }
  }

  lemma KraftLast(l: Lengths)
    requires l != []
    ensures Kraft(l) == Kraft(l[..|l| - 1]) + if l[|l| - 1] == 0 then 0 else Pow2(16 - l[|l| - 1])
  {
  }

  lemma OneMore(n: int, p: int)
    ensures (n - 1) * p + p == n * p
  {
  }

  lemma {:induction false} KraftRepeat(v: nat, n: nat)
    requires 0 < v <= MAX_BITS
    ensures Kraft(Repeat(v, n)) == n * Pow2(16 - v)
  {
    if n > 0 {
      assert Repeat(v, n)[..n - 1] == Repeat(v, n - 1);
      KraftLast(Repeat(v, n));
      hide Kraft, Pow2;
      KraftRepeat(v, n - 1);
      OneMore(n, Pow2(16 - v));
    }
  }

  lemma FixedCodes()
    ensures Complete(StaticLengths()[..288]) && Complete(DistanceLengths(288, 32, StaticLengths()))
    ensures StaticLengths()[256] > 0
  {
    Powers();
    assert Pow2(9) == 512 && Pow2(11) == 2048;
    var a, b, c, d, e := Repeat(8, 144), Repeat(9, 112), Repeat(7, 24), Repeat(8, 8), Repeat(5, 32);
    assert StaticLengths() == a + b + c + d + e;
    assert StaticLengths()[..288] == a + b + c + d;
    assert StaticLengths()[288..320] == e;
    KraftRepeat(8, 144);
    KraftRepeat(9, 112);
    KraftRepeat(7, 24);
    KraftRepeat(8, 8);
    KraftRepeat(5, 32);
    KraftAppend(a, b);
    KraftAppend(a + b, c);
    KraftAppend(a + b + c, d);
  }

  /**
   A distance code with a single one-bit word leaves half of the code space unused.  The
   format allows it for any number of distance code lengths; the decoder accepts it exactly
   when only one length was sent, which it then replaces by a pair.
   */
  lemma LoneDistanceCode(fmt: Format, st: State, rest: BitString, offset: nat)
    requires Wf(st) && st.Construct? && Complete(st.lens[..st.nlit]) && Kraft(st.lens[st.nlit..]) == 0x8000
    ensures Step(fmt, st, rest, offset).Next? <==> st.ndist == 1
  {
    assert st.lens[st.nlit..st.nlit + st.ndist] == st.lens[st.nlit..];
  }
}
