/**
 The DEFLATE data format as an encoder, following RFC 1951 (and RFC 1950 for the ZLIB
 wrapper), and the proof that the decoder recovers exactly what was encoded.
 */
module InflateFormat {
  import opened Bits
  import opened Huffman
  import opened Lz77
  import opened InflateSpec
  import opened InflateRun
  import opened Wrappers

  // ---------------------------------------------------------------------------
  // Compressed data: literal symbols, and length/distance pairs with their extra bits.

  datatype Element = Lit(value: byte) | Match(lenSym: nat, lenExtra: nat, distSym: nat, distExtra: nat)

  /** An element that the decoder can read: the format reserves distance symbols 30 and 31. */
  predicate ValidElement(e: Element, lit: Lengths, dist: Lengths, offset: nat) {
    match e
    case Lit(v) => v < |lit| && lit[v] > 0
    case Match(ls, le, ds, de) =>
      && 257 <= ls <= 285 && ls < |lit| && lit[ls] > 0 && le < Pow2(LengthExtra(ls - 257))
      && ds < |dist| && dist[ds] > 0 && de < Pow2(DistanceExtraBits(ds))
      && DistanceBase(ds) + de <= offset
  }

  function ElementBits(e: Element, lit: Lengths, dist: Lengths): BitString
    requires match e case Lit(v) => v < |lit| case Match(ls, _, ds, _) => 257 <= ls < |lit| && ds < |dist|
  {
    match e
    case Lit(v) => CodeBits(lit, v)
    case Match(ls, le, ds, de) =>
      CodeBits(lit, ls) + (LsbBits(le, LengthExtra(ls - 257)) + (CodeBits(dist, ds) + LsbBits(de, DistanceExtraBits(ds))))
  }

  function Meaning(e: Element): Token
    requires e.Match? ==> e.lenSym >= 257
  {
    match e
    case Lit(v) => Literal(v)
    case Match(ls, le, ds, de) => Copy(DistanceBase(ds) + de, LengthBase(ls - 257) + le)
  }

  predicate ValidElements(es: seq<Element>, lit: Lengths, dist: Lengths, offset: nat) {
    es == [] || (ValidElement(es[0], lit, dist, offset)
                 && ValidElements(es[1..], lit, dist, offset + Size(Meaning(es[0]))))
  }

  function ElementsBits(es: seq<Element>, lit: Lengths, dist: Lengths, offset: nat): BitString
    requires ValidElements(es, lit, dist, offset)
    decreases |es|
  {
    if es == [] then []
    else ElementBits(es[0], lit, dist) + ElementsBits(es[1..], lit, dist, offset + Size(Meaning(es[0])))
  }

  function Meanings(es: seq<Element>, lit: Lengths, dist: Lengths, offset: nat): (ts: seq<Token>)
    requires ValidElements(es, lit, dist, offset)
    ensures InRange(ts, offset)
    decreases |es|
  {
    if es == [] then []
    else [Meaning(es[0])] + Meanings(es[1..], lit, dist, offset + Size(Meaning(es[0])))
  }

  // ---------------------------------------------------------------------------
  // Decoding one field of each kind.

  lemma TakeFront(front: BitString, tail: BitString)
    ensures (front + tail)[..|front|] == front && (front + tail)[|front|..] == tail
  {
  }

  lemma FieldFront(v: nat, n: nat, tail: BitString)
    requires v < Pow2(n)
    ensures var rest := LsbBits(v, n) + tail;
            |rest| >= n && Lsb(rest[..n]) == v && rest[n..] == tail
  {
    LsbRoundTrip(v, n);
    TakeFront(LsbBits(v, n), tail);
  }

  lemma CodeFront(l: CompleteCode, sym: nat, tail: BitString)
    requires sym < |l| && l[sym] > 0
    ensures var rest := CodeBits(l, sym) + tail;
            Decode(l, rest) == Some(sym) && l[sym] <= |rest| && rest[l[sym]..] == tail
  {
    DecodeEncode(l, sym, tail);
    TakeFront(CodeBits(l, sym), tail);
  }

  lemma StepLitlenCode(fmt: Format, st: State, sym: nat, tail: BitString, offset: nat)
    requires Wf(st) && st.Litlen? && sym < |st.lit| && st.lit[sym] > 0
    ensures Step(fmt, st, CodeBits(st.lit, sym) + tail, offset) == LitlenSymbol(st, sym, tail)
  {
    hide Decode, LitlenSymbol;
    CodeFront(st.lit, sym, tail);
  }

  lemma StepDistanceCode(fmt: Format, st: State, sym: nat, tail: BitString, offset: nat)
    requires Wf(st) && st.Distance? && sym < |st.dist| && st.dist[sym] > 0
    ensures Step(fmt, st, CodeBits(st.dist, sym) + tail, offset) ==
            Next(DistanceExtra(st.final, st.lit, st.dist, st.length, DistanceBase(sym), DistanceExtraBits(sym)), tail, [])
  {
    hide Decode, DistanceBase, DistanceExtraBits;
    CodeFront(st.dist, sym, tail);
  }

  lemma StepField(fmt: Format, st: State, v: nat, tail: BitString, offset: nat)
    requires Wf(st) && (st.LitlenExtra? || st.DistanceExtra? || st.DynamicExtra?) && v < Pow2(st.extra)
    requires st.DistanceExtra? ==> st.base + v <= offset
    ensures Step(fmt, st, LsbBits(v, st.extra) + tail, offset) ==
            match st
            case LitlenExtra(final, lit, dist, base, _) => Next(Distance(final, lit, dist, base + v), tail, [])
            case DistanceExtra(final, lit, dist, len, base, _) => Next(Litlen(final, lit, dist), tail, [Copy(base + v, len)])
            case DynamicExtra(_, _, _, _, _, _, _, _) => Next(StoreLengths(st, v), tail, [])
  {
    FieldFront(v, st.extra, tail);
    hide Lsb, LsbBits, StoreLengths, Pow2;
  }

  lemma GoesLength(fmt: Format, st: State, ls: nat, le: nat, tail: BitString, offset: nat)
    requires Wf(st) && st.Litlen? && 257 <= ls < |st.lit| && st.lit[ls] > 0 && le < Pow2(LengthExtra(ls - 257))
    ensures Goes(fmt, st, CodeBits(st.lit, ls) + (LsbBits(le, LengthExtra(ls - 257)) + tail), offset,
                 Distance(st.final, st.lit, st.dist, LengthBase(ls - 257) + le), tail, [])
  {
    hide Goes, Step, Pow2, LsbBits, CodeBits, LengthBase, LengthExtra;
    var base, n := LengthBase(ls - 257), LengthExtra(ls - 257);
    var rest := LsbBits(le, n) + tail;
    var mid := LitlenExtra(st.final, st.lit, st.dist, base, n);
    StepLitlenCode(fmt, st, ls, rest, offset);
    StepField(fmt, mid, le, tail, offset);
    GoesTwoSteps(fmt, st, CodeBits(st.lit, ls) + rest, offset, mid, rest,
                 Next(Distance(st.final, st.lit, st.dist, base + le), tail, []));
  }

  lemma GoesDistance(fmt: Format, st: State, ds: nat, de: nat, tail: BitString, offset: nat)
    requires Wf(st) && st.Distance? && ds < |st.dist| && st.dist[ds] > 0 && de < Pow2(DistanceExtraBits(ds))
    requires DistanceBase(ds) + de <= offset
    ensures Goes(fmt, st, CodeBits(st.dist, ds) + (LsbBits(de, DistanceExtraBits(ds)) + tail), offset,
                 Litlen(st.final, st.lit, st.dist), tail, [Copy(DistanceBase(ds) + de, st.length)])
  {
    hide Goes, Step, Pow2, LsbBits, CodeBits, DistanceBase, DistanceExtraBits;
    var base, n := DistanceBase(ds), DistanceExtraBits(ds);
    var rest := LsbBits(de, n) + tail;
    var mid := DistanceExtra(st.final, st.lit, st.dist, st.length, base, n);
    StepDistanceCode(fmt, st, ds, rest, offset);
    StepField(fmt, mid, de, tail, offset);
    GoesTwoSteps(fmt, st, CodeBits(st.dist, ds) + rest, offset, mid, rest,
                 Next(Litlen(st.final, st.lit, st.dist), tail, [Copy(base + de, st.length)]));
  }

  lemma GoesMatch(fmt: Format, st: State, e: Element, tail: BitString, offset: nat)
    requires Wf(st) && st.Litlen? && e.Match? && ValidElement(e, st.lit, st.dist, offset)
    ensures Goes(fmt, st, ElementBits(e, st.lit, st.dist) + tail, offset, st, tail, [Meaning(e)])
  {
    hide Goes, Pow2, LsbBits, CodeBits, LengthBase, LengthExtra, DistanceBase, DistanceExtraBits;
    var Match(ls, le, ds, de) := e;
    var a, b := CodeBits(st.lit, ls), LsbBits(le, LengthExtra(ls - 257));
    var c, d := CodeBits(st.dist, ds), LsbBits(de, DistanceExtraBits(ds));
    assert ElementBits(e, st.lit, st.dist) + tail == a + (b + (c + (d + tail)));
    var mid := Distance(st.final, st.lit, st.dist, LengthBase(ls - 257) + le);
    GoesLength(fmt, st, ls, le, c + (d + tail), offset);
    GoesDistance(fmt, mid, ds, de, tail, offset);
    GoesTrans(fmt, st, a + (b + (c + (d + tail))), offset, mid, c + (d + tail), [], st, tail, [Meaning(e)]);
    assert [] + [Meaning(e)] == [Meaning(e)];
  }

  lemma GoesElement(fmt: Format, st: State, e: Element, tail: BitString, offset: nat)
    requires Wf(st) && st.Litlen? && ValidElement(e, st.lit, st.dist, offset)
    ensures Goes(fmt, st, ElementBits(e, st.lit, st.dist) + tail, offset, st, tail, [Meaning(e)])
  {
    hide Goes, Step, CodeBits;
    if e.Match? {
      GoesMatch(fmt, st, e, tail, offset);
    } else {
      StepLitlenCode(fmt, st, e.value, tail, offset);
      GoesStep(fmt, st, CodeBits(st.lit, e.value) + tail, offset);
    }
  }

  lemma {:induction false} GoesElements(fmt: Format, st: State, es: seq<Element>, tail: BitString, offset: nat)
    requires Wf(st) && st.Litlen? && ValidElements(es, st.lit, st.dist, offset)
    ensures Goes(fmt, st, ElementsBits(es, st.lit, st.dist, offset) + tail, offset, st, tail,
                 Meanings(es, st.lit, st.dist, offset))
    decreases |es|
  {
    hide Goes, Wf, ElementBits, Meaning;
    if es == [] {
      assert [] + tail == tail;
      GoesSelf(fmt, st, tail, offset);
    } else {
      var e, next := es[0], offset + Size(Meaning(es[0]));
      var rest := ElementsBits(es[1..], st.lit, st.dist, next) + tail;
      assert ElementsBits(es, st.lit, st.dist, offset) + tail == ElementBits(e, st.lit, st.dist) + rest;
      GoesElement(fmt, st, e, rest, offset);
      GoesElements(fmt, st, es[1..], tail, next);
      OneToken(Meaning(e));
      GoesTrans(fmt, st, ElementBits(e, st.lit, st.dist) + rest, offset, st, rest, [Meaning(e)],
                st, tail, Meanings(es[1..], st.lit, st.dist, next));
    }
  }

  lemma OneToken(t: Token)
    ensures TotalSize([t]) == Size(t)
  {
  }

  /** A block's compressed data, closed by the end-of-block symbol. */
  lemma GoesData(fmt: Format, st: State, es: seq<Element>, tail: BitString, offset: nat)
    requires Wf(st) && st.Litlen? && ValidElements(es, st.lit, st.dist, offset)
    requires 256 < |st.lit| && st.lit[256] > 0
    ensures Goes(fmt, st, ElementsBits(es, st.lit, st.dist, offset) + (CodeBits(st.lit, 256) + tail), offset,
                 BlockDone(st.final), tail, Meanings(es, st.lit, st.dist, offset))
  {
    hide Goes, Step, CodeBits, ElementsBits, Meanings, ValidElements;
    var ts := Meanings(es, st.lit, st.dist, offset);
    var mid := CodeBits(st.lit, 256) + tail;
    GoesElements(fmt, st, es, mid, offset);
    StepLitlenCode(fmt, st, 256, tail, offset + TotalSize(ts));
    GoesStep(fmt, st, mid, offset + TotalSize(ts));
    GoesTrans(fmt, st, ElementsBits(es, st.lit, st.dist, offset) + mid, offset, st, mid, ts, BlockDone(st.final), tail, []);
    assert ts + [] == ts;
  }
}
