/** Runs of the allocator: any legal sequence of allocations, frees and population. */
module HeapRun {
  import opened Bits
  import opened HeapSpec
  import opened HeapLedger
  import opened Wrappers

  // ---------------------------------------------------------------------------
  // Arithmetic modulo a power of two.  Masking with 2^k - 1 is reducing modulo 2^k.

  lemma MulMod(q: int, m: nat)
    requires m > 0
    ensures (q * m) % m == 0
  {
    RemainderUnique(q * m, q, 0, m);
  }

  lemma Quotient(a: int, m: nat) returns (q: int)
    requires m > 0
    ensures a == q * m + a % m
  {
    q := a / m;
  }

  lemma MultipleAdd(a: int, b: int, m: nat)
    requires m > 0 && a % m == 0 && b % m == 0
    ensures (a + b) % m == 0 && (a - b) % m == 0
  {
    var p := Quotient(a, m);
    var q := Quotient(b, m);
    assert a + b == (p + q) * m && a - b == (p - q) * m;
    MulMod(p + q, m);
    MulMod(p - q, m);
  }

  lemma RemainderMultiple(a: int, m: nat)
    requires m > 0
    ensures (a - a % m) % m == 0
  {
    var q := Quotient(a, m);
    MulMod(q, m);
  }

  lemma SmallMultiple(a: int, m: nat)
    requires m > 0 && a % m == 0 && 0 <= a < m
    ensures a == 0
  {
  }

  lemma MultipleOfMultiple(a: int, m: nat, n: nat)
    requires m > 0 && n > 0 && a % (m * n) == 0
    ensures a % m == 0
  {
    var q := Quotient(a, m * n);
    assert a == (q * n) * m;
    MulMod(q * n, m);
  }

  lemma DoubleProduct(x: int, y: int)
    ensures x * (2 * y) == 2 * (x * y)
  {
  }

  lemma {:induction false} Pow2Split(a: nat, b: nat)
    ensures Pow2(a + b) == Pow2(a) * Pow2(b)
  {
    if b > 0 {
      assert Pow2(b) == 2 * Pow2(b - 1) && Pow2(a + b) == 2 * Pow2(a + b - 1);
      hide Pow2;
      Pow2Split(a, b - 1);
      DoubleProduct(Pow2(a), Pow2(b - 1));
    }
  }

  lemma {:induction false} Pow2Positive(n: nat)
    ensures Pow2(n) > 0
  {
    if n > 0 {
      Pow2Positive(n - 1);
    }
  }

  /** A multiple of a power of two is a multiple of every smaller one. */
  lemma Pow2Multiple(a: int, small: nat, big: nat)
    requires small <= big && Pow2(big) > 0 && a % Pow2(big) == 0
    ensures Pow2(small) > 0 && a % Pow2(small) == 0
  {
    Pow2Split(small, big - small);
    Pow2Positive(small);
    Pow2Positive(big - small);
    MultipleOfMultiple(a, Pow2(small), Pow2(big - small));
  }

  // ---------------------------------------------------------------------------
  // Sizes and alignment.

  /** The minimum block size is 2^minBits; physical addresses are virtual ones plus `phys`. */
  datatype Config = Config(minBits: nat, phys: int)

  function Min(cfg: Config): (m: nat)
    ensures m > 0
  {
    Pow2Positive(cfg.minBits);
    Pow2(cfg.minBits)
  }

  function RoundUp(cfg: Config, size: int): int {
    size + Min(cfg) - 1 - (size + Min(cfg) - 1) % Min(cfg)
  }

  function RoundDown(cfg: Config, len: int): int {
    len - len % Min(cfg)
  }

  lemma RoundUpFacts(cfg: Config, size: int)
    ensures size <= RoundUp(cfg, size) < size + Min(cfg) && RoundUp(cfg, size) % Min(cfg) == 0
    ensures size > 0 ==> RoundUp(cfg, size) >= Min(cfg)
  {
    var m := Min(cfg);
    RemainderMultiple(size + m - 1, m);
    if size > 0 && RoundUp(cfg, size) < m {
      SmallMultiple(RoundUp(cfg, size), m);
    }
  }

  /** The alignment used: the larger of the requested one and the minimum block size. */
  function Modulus(cfg: Config, alignBits: nat): (m: nat)
    ensures m > 0
  {
    Pow2Positive(alignBits);
    if alignBits > cfg.minBits then Pow2(alignBits) else Min(cfg)
  }

  /** Bytes to skip at the start of a block to reach the requested alignment. */
  function PreSize(cfg: Config, b: Block, modulus: nat, offset: int): int
    requires modulus > 0
  {
    (offset - (b.addr + cfg.phys)) % modulus
  }

  lemma Aligned(cfg: Config, b: Block, alignBits: nat, offset: int)
    ensures var m := Modulus(cfg, alignBits);
            && 0 <= PreSize(cfg, b, m, offset) < m
            && (b.addr + PreSize(cfg, b, m, offset) + cfg.phys - offset) % m == 0
            && Pow2(alignBits) > 0
            && (b.addr + PreSize(cfg, b, m, offset) + cfg.phys - offset) % Pow2(alignBits) == 0
  {
    var m, d := Modulus(cfg, alignBits), offset - (b.addr + cfg.phys);
    var q := Quotient(d, m);
    MulMod(-q, m);
    assert d % m - d == (-q) * m;
    if alignBits > cfg.minBits {
      Pow2Multiple(d % m - d, alignBits, alignBits);
    } else {
      Pow2Multiple(d % m - d, alignBits, cfg.minBits);
    }
  }

  predicate Multiple(a: int, bits: nat) {
    Pow2(bits) > 0 && a % Pow2(bits) == 0
  }

  /** A block may be allocated at this address: it has the alignment asked for and that of the smallest block. */
  predicate Suits(cfg: Config, a: int, alignBits: nat, offset: int) {
    Multiple(a + cfg.phys - offset, alignBits) && Multiple(a + cfg.phys - offset, cfg.minBits)
  }

  lemma Congruence(d: int, p: int, m: nat)
    requires m > 0 && p >= 0 && (p - d) % m == 0
    ensures d % m <= p
  {
    var q := Quotient(d, m);
    var s := Quotient(p - d, m);
    var r := d % m;
    assert p - r == q * m + s * m;
    SumTimes(q, s, m);
    hide *;
    NegativeMultiple(q + s, m);
  }

  lemma SumTimes(q: int, s: int, m: int)
    ensures q * m + s * m == (q + s) * m
  {
  }

  lemma NegativeMultiple(k: int, m: int)
    requires m >= 0
    ensures k * m >= 0 || k * m <= -m
  {
    if k < 0 {
      SumTimes(k + 1, -1, m);
      assert (k + 1) * m <= 0;
    } else {
      assert k * m >= 0;
    }
  }

  /** The skip leads to the first address in the block that suits. */
  lemma LeastSkip(cfg: Config, b: Block, alignBits: nat, offset: int, p: int)
    ensures var pre := PreSize(cfg, b, Modulus(cfg, alignBits), offset);
            Suits(cfg, b.addr + pre, alignBits, offset) && (p >= 0 && Suits(cfg, b.addr + p, alignBits, offset) ==> pre <= p)
  {
    var m, d := Modulus(cfg, alignBits), offset - (b.addr + cfg.phys);
    Aligned(cfg, b, alignBits, offset);
    Pow2Positive(cfg.minBits);
    if alignBits > cfg.minBits {
      Pow2Multiple(b.addr + d % m + cfg.phys - offset, cfg.minBits, alignBits);
    }
    if p >= 0 && Suits(cfg, b.addr + p, alignBits, offset) {
      assert b.addr + p + cfg.phys - offset == p - d;
      Congruence(d, p, m);
    }
  }

  predicate CanHold(cfg: Config, b: Block, size: int, modulus: nat, offset: int)
    requires modulus > 0
  {
    PreSize(cfg, b, modulus, offset) + size <= b.size
  }

  /** The first block that can hold the request. */
  function FirstFit(cfg: Config, bs: seq<Block>, size: int, modulus: nat, offset: int, from: nat): (r: Option<nat>)
    requires modulus > 0 && from <= |bs|
    ensures r.Some? ==> from <= r.value < |bs| && CanHold(cfg, bs[r.value], size, modulus, offset)
    ensures r.Some? ==> forall j :: from <= j < r.value ==> !CanHold(cfg, bs[j], size, modulus, offset)
    ensures r.None? ==> forall j :: from <= j < |bs| ==> !CanHold(cfg, bs[j], size, modulus, offset)
    decreases |bs| - from
  {
    if from == |bs| then None
    else if CanHold(cfg, bs[from], size, modulus, offset) then Some(from)
    else FirstFit(cfg, bs, size, modulus, offset, from + 1)
  }

  /** There is room for a block at this address. */
  ghost predicate Room(cfg: Config, free: seq<Block>, a: int, size: int, alignBits: nat, offset: int) {
    Suits(cfg, a, alignBits, offset) && forall x :: a <= x < a + size ==> Covers(free, x)
  }

  /** Free addresses in a row are in one block, since blocks are never adjacent. */
  lemma InsideOne(bs: seq<Block>, min: nat, a: int, size: int) returns (i: nat)
    requires min > 0 && Ordered(bs, min) && size > 0 && forall x :: a <= x < a + size ==> Covers(bs, x)
    ensures i < |bs| && bs[i].addr <= a && a + size <= End(bs[i])
  {
    assert Covers(bs, a);
    i :| 0 <= i < |bs| && In(a, bs[i]);
    GapNotCovered(bs, min, i);
  }

  /** Where there is room, the block around it can hold the request. */
  lemma RoomCanHold(cfg: Config, bs: seq<Block>, a: int, size: int, alignBits: nat, offset: int) returns (i: nat)
    requires Ordered(bs, Min(cfg)) && size > 0 && Room(cfg, bs, a, size, alignBits, offset)
    ensures i < |bs| && CanHold(cfg, bs[i], size, Modulus(cfg, alignBits), offset)
    ensures bs[i].addr + PreSize(cfg, bs[i], Modulus(cfg, alignBits), offset) <= a
  {
    hide Suits, PreSize, Min, Covers, Modulus;
    i := InsideOne(bs, Min(cfg), a, size);
    LeastSkip(cfg, bs[i], alignBits, offset, a - bs[i].addr);
  }

  lemma HoldsRoom(cfg: Config, bs: seq<Block>, i: nat, size: int, alignBits: nat, offset: int)
    requires i < |bs| && size > 0 && CanHold(cfg, bs[i], size, Modulus(cfg, alignBits), offset)
    ensures Room(cfg, bs, bs[i].addr + PreSize(cfg, bs[i], Modulus(cfg, alignBits), offset), size, alignBits, offset)
  {
    hide Suits;
    var m := Modulus(cfg, alignBits);
    LeastSkip(cfg, bs[i], alignBits, offset, 0);
    hide Modulus, Min;
    var a := bs[i].addr + PreSize(cfg, bs[i], m, offset);
    forall x | a <= x < a + size
      ensures Covers(bs, x)
    {
      assert In(x, bs[i]);
    }
  }

  /** The first fit is at the lowest address where there is room, and there is none only if there is no room. */
  lemma FirstFitLowest(cfg: Config, bs: seq<Block>, size: int, alignBits: nat, offset: int)
    requires Ordered(bs, Min(cfg)) && size > 0
    ensures var m := Modulus(cfg, alignBits);
            var r := FirstFit(cfg, bs, size, m, offset, 0);
            && (r.None? ==> forall a :: !Room(cfg, bs, a, size, alignBits, offset))
            && (r.Some? ==>
                  var at := bs[r.value].addr + PreSize(cfg, bs[r.value], m, offset);
                  Room(cfg, bs, at, size, alignBits, offset)
                  && forall a :: Room(cfg, bs, a, size, alignBits, offset) ==> at <= a)
  {
    hide Room, Modulus, Min;
    var m := Modulus(cfg, alignBits);
    var r := FirstFit(cfg, bs, size, m, offset, 0);
    if r.Some? {
      HoldsRoom(cfg, bs, r.value, size, alignBits, offset);
    }
    forall a | Room(cfg, bs, a, size, alignBits, offset)
      ensures r.Some? && bs[r.value].addr + PreSize(cfg, bs[r.value], m, offset) <= a
    {
      var j := RoomCanHold(cfg, bs, a, size, alignBits, offset);
      hide FirstFit;
      assert r.Some? && r.value <= j;
      if r.value < j {
        assert End(bs[r.value]) < bs[j].addr;
      }
    }
  }

  // ---------------------------------------------------------------------------
  // Runs.

  datatype Op =
    | Alloc(size: nat, alignBits: nat, offset: int)
    | Free(k: nat)
    | Populate(addr: int, len: nat)

  ghost predicate Legal(cfg: Config, l: Ledger, op: Op) {
    match op
    case Alloc(size, _, _) => size > 0
    case Free(k) => k < |l.live|
    case Populate(addr, len) => len >= Min(cfg) && Separate([Block(addr, RoundDown(cfg, len))], l.pool)
  }

  ghost function Apply(cfg: Config, l: Ledger, op: Op): Ledger
    requires Legal(cfg, l, op)
  {
    match op
    case Alloc(size, alignBits, offset) =>
      var m, rounded := Modulus(cfg, alignBits), RoundUp(cfg, size);
      (match FirstFit(cfg, l.free, rounded, m, offset, 0)
       case Some(i) => Allocated(l, i, PreSize(cfg, l.free[i], m, offset), rounded, Min(cfg))
       case None => l)
    case Free(k) => Freed(l, k)
    case Populate(addr, len) => Populated(l, Block(addr, RoundDown(cfg, len)))
  }

  /** What holds between operations: the ledger balances and allocated sizes are rounded. */
  ghost predicate Good(cfg: Config, l: Ledger) {
    && Inv(l, Min(cfg))
    && forall i :: 0 <= i < |l.live| ==> l.live[i].size >= Min(cfg) && l.live[i].size % Min(cfg) == 0
  }

  lemma EmptyGood(cfg: Config)
    ensures Good(cfg, EMPTY)
  {
    hide Min;
    EmptyInv(Min(cfg));
  }

  lemma RoundDownFacts(cfg: Config, len: nat)
    ensures 0 <= RoundDown(cfg, len) <= len && RoundDown(cfg, len) % Min(cfg) == 0
    ensures len - Min(cfg) < RoundDown(cfg, len)
    ensures len >= Min(cfg) ==> RoundDown(cfg, len) >= Min(cfg)
  {
    hide Min;
    var m := Min(cfg);
    RemainderMultiple(len, m);
    if len >= m && RoundDown(cfg, len) < m {
      SmallMultiple(RoundDown(cfg, len), m);
    }
  }

  lemma AllocGood(cfg: Config, l: Ledger, size: nat, alignBits: nat, offset: int)
    requires Good(cfg, l) && size > 0
    ensures Good(cfg, Apply(cfg, l, Alloc(size, alignBits, offset)))
  {
    hide Inv, Carve, Modulus, PreSize, RoundUp, Min;
    var m, rounded := Modulus(cfg, alignBits), RoundUp(cfg, size);
    RoundUpFacts(cfg, size);
    var r := FirstFit(cfg, l.free, rounded, m, offset, 0);
    if r.Some? {
      Aligned(cfg, l.free[r.value], alignBits, offset);
      AllocatedInv(l, r.value, PreSize(cfg, l.free[r.value], m, offset), rounded, Min(cfg));
    }
  }

  lemma FreeGood(cfg: Config, l: Ledger, k: nat)
    requires Good(cfg, l) && k < |l.live|
    ensures Good(cfg, Freed(l, k))
  {
    hide Inv, Insert, Min;
    FreedInv(l, k, Min(cfg));
  }

  lemma PopulateGood(cfg: Config, l: Ledger, addr: int, len: nat)
    requires Good(cfg, l) && Legal(cfg, l, Populate(addr, len))
    ensures Good(cfg, Apply(cfg, l, Populate(addr, len)))
  {
    hide Inv, Insert, Min, Separate, RoundDown;
    RoundDownFacts(cfg, len);
    PopulatedInv(l, Block(addr, RoundDown(cfg, len)), Min(cfg));
  }

  /** Populating adds exactly the whole blocks of the region to the pool. */
  lemma PopulatePool(cfg: Config, l: Ledger, start: int, len: nat, x: int)
    requires Legal(cfg, l, Populate(start, len))
    ensures Covers(Apply(cfg, l, Populate(start, len)).pool, x) <==>
            Covers(l.pool, x) || start <= x < start + len - len % Min(cfg)
  {
    hide Insert, Min;
    var b := Block(start, RoundDown(cfg, len));
    CoversAppend(l.pool, [b], x);
    CoversOne(b, x);
  }

  /** And to what is free. */
  lemma PopulateFree(cfg: Config, l: Ledger, start: int, len: nat, x: int)
    requires Good(cfg, l) && Legal(cfg, l, Populate(start, len))
    ensures Covers(Apply(cfg, l, Populate(start, len)).free, x) <==>
            Covers(l.free, x) || start <= x < start + len - len % Min(cfg)
  {
    hide Insert, Min;
    RoundDownFacts(cfg, len);
    InsertCovers(l.free, Block(start, RoundDown(cfg, len)), x);
  }

  lemma PopulateCovers(cfg: Config, l: Ledger, start: int, len: nat)
    requires Good(cfg, l) && Legal(cfg, l, Populate(start, len))
    ensures var n := Apply(cfg, l, Populate(start, len));
            && (forall x :: Covers(n.pool, x) <==> Covers(l.pool, x) || start <= x < start + len - len % Min(cfg))
            && (forall x :: Covers(n.free, x) <==> Covers(l.free, x) || start <= x < start + len - len % Min(cfg))
  {
    hide Covers, Apply, Min, Good, Legal;
    var n := Apply(cfg, l, Populate(start, len));
    forall x
      ensures Covers(n.pool, x) <==> Covers(l.pool, x) || start <= x < start + len - len % Min(cfg)
      ensures Covers(n.free, x) <==> Covers(l.free, x) || start <= x < start + len - len % Min(cfg)
    {
      PopulatePool(cfg, l, start, len, x);
      PopulateFree(cfg, l, start, len, x);
    }
  }

  /** Every operation keeps the ledger. */
  lemma ApplyGood(cfg: Config, l: Ledger, op: Op)
    requires Good(cfg, l) && Legal(cfg, l, op)
    ensures Good(cfg, Apply(cfg, l, op))
  {
    hide Good, Insert, Carve, FirstFit;
    match op
    case Alloc(size, alignBits, offset) => AllocGood(cfg, l, size, alignBits, offset);
    case Free(k) => FreeGood(cfg, l, k);
    case Populate(addr, len) => PopulateGood(cfg, l, addr, len);
  }

  ghost predicate LegalRun(cfg: Config, l: Ledger, ops: seq<Op>)
    decreases |ops|
  {
    ops == [] || (Legal(cfg, l, ops[0]) && LegalRun(cfg, Apply(cfg, l, ops[0]), ops[1..]))
  }

  ghost function Run(cfg: Config, l: Ledger, ops: seq<Op>): Ledger
    requires LegalRun(cfg, l, ops)
    decreases |ops|
  {
    if ops == [] then l else Run(cfg, Apply(cfg, l, ops[0]), ops[1..])
  }

  lemma {:induction false} RunGoodFrom(cfg: Config, l: Ledger, ops: seq<Op>)
    requires Good(cfg, l) && LegalRun(cfg, l, ops)
    ensures Good(cfg, Run(cfg, l, ops))
    decreases |ops|
  {
    hide Good, Apply, Legal;
    if ops != [] {
      ApplyGood(cfg, l, ops[0]);
      RunGoodFrom(cfg, Apply(cfg, l, ops[0]), ops[1..]);
    }
  }

  /**
   In every run that starts with an empty pool, the free list stays strictly ordered, never
   adjacent and apart from all allocated blocks, and free memory is the populated bytes
   less the rounded allocated sizes.
   */
  lemma RunGood(cfg: Config, ops: seq<Op>)
    requires LegalRun(cfg, EMPTY, ops)
    ensures var l := Run(cfg, EMPTY, ops);
            && Ordered(l.free, Min(cfg)) && Pairwise(l.live)
            && Separate(l.free, l.live)
            && l.freemem == Total(l.pool) - Total(l.live)
            && Total(l.free) <= l.freemem
  {
    hide Min;
    EmptyGood(cfg);
    RunGoodFrom(cfg, EMPTY, ops);
    TotalNonNegative(Run(cfg, EMPTY, ops).leaked);
  }

  lemma {:induction false} TotalNonNegative(bs: seq<Block>)
    requires Positive(bs)
    ensures Total(bs) >= 0
  {
    if bs != [] {
      TotalNonNegative(bs[1..]);
    }
  }

  // ---------------------------------------------------------------------------
  // Runs in which nothing leaks.

  predicate OnGrid(cfg: Config, b: Block, c: int) {
    (b.addr - c) % Min(cfg) == 0 && b.size % Min(cfg) == 0
  }

  predicate AllOnGrid(cfg: Config, bs: seq<Block>, c: int) {
    forall i :: 0 <= i < |bs| ==> OnGrid(cfg, bs[i], c)
  }

  /** Nothing has leaked, and every block starts at c modulo the minimum size. */
  ghost predicate Lossless(cfg: Config, l: Ledger, c: int) {
    Good(cfg, l) && AllOnGrid(cfg, l.free, c) && AllOnGrid(cfg, l.live, c) && l.leaked == []
  }

  /** Requests and regions congruent to c modulo the minimum block size. */
  predicate OpOnGrid(cfg: Config, op: Op, c: int) {
    match op
    case Alloc(_, _, offset) => (offset - cfg.phys - c) % Min(cfg) == 0
    case Free(_) => true
    case Populate(addr, _) => (addr - c) % Min(cfg) == 0
  }

  lemma {:induction false} InsertOnGrid(cfg: Config, bs: seq<Block>, b: Block, c: int)
    requires AllOnGrid(cfg, bs, c) && OnGrid(cfg, b, c)
    ensures AllOnGrid(cfg, Insert(bs, b), c)
    decreases |bs|
  {
    if bs != [] {
      assert OnGrid(cfg, bs[0], c) && AllOnGrid(cfg, bs[1..], c);
      MultipleAdd(b.size, bs[0].size, Min(cfg));
      var d, e := Block(bs[0].addr, bs[0].size + b.size), Block(b.addr, b.size + bs[0].size);
      assert OnGrid(cfg, d, c) && OnGrid(cfg, e, c);
      hide OnGrid, Min;
      if End(b) < bs[0].addr || End(b) == bs[0].addr {
      } else if End(bs[0]) == b.addr {
        InsertOnGrid(cfg, bs[1..], d, c);
      } else {
        InsertOnGrid(cfg, bs[1..], b, c);
      }
    }
  }

  /** On the grid the skipped bytes are whole blocks. */
  lemma PreOnGrid(cfg: Config, b: Block, alignBits: nat, offset: int, c: int)
    requires OnGrid(cfg, b, c) && (offset - cfg.phys - c) % Min(cfg) == 0
    ensures PreSize(cfg, b, Modulus(cfg, alignBits), offset) % Min(cfg) == 0
  {
    var m, n := Modulus(cfg, alignBits), Min(cfg);
    var d := offset - (b.addr + cfg.phys);
    MultipleAdd(offset - cfg.phys - c, b.addr - c, n);
    assert d == (offset - cfg.phys - c) - (b.addr - c);
    RemainderMultiple(d, m);
    if alignBits > cfg.minBits {
      Pow2Multiple(d - d % m, cfg.minBits, alignBits);
    }
    MultipleAdd(d, d - d % m, n);
  }

  lemma AllocLossless(cfg: Config, l: Ledger, size: nat, alignBits: nat, offset: int, c: int)
    requires Lossless(cfg, l, c) && size > 0 && (offset - cfg.phys - c) % Min(cfg) == 0
    ensures Lossless(cfg, Apply(cfg, l, Alloc(size, alignBits, offset)), c)
  {
    hide Inv, Modulus, PreSize, RoundUp, Min, Carve, Leaked;
    AllocGood(cfg, l, size, alignBits, offset);
    var m, rounded := Modulus(cfg, alignBits), RoundUp(cfg, size);
    var r := FirstFit(cfg, l.free, rounded, m, offset, 0);
    if r.Some? {
      var i, pre := r.value, PreSize(cfg, l.free[r.value], m, offset);
      PreOnGrid(cfg, l.free[i], alignBits, offset, c);
      Aligned(cfg, l.free[i], alignBits, offset);
      RoundUpFacts(cfg, size);
      CarveOnGrid(cfg, l.free, i, pre, rounded, c);
    }
  }

  lemma CarveOnGrid(cfg: Config, bs: seq<Block>, i: nat, pre: int, size: int, c: int)
    requires AllOnGrid(cfg, bs, c) && i < |bs| && Fits(bs[i], pre, size)
    requires pre % Min(cfg) == 0 && size % Min(cfg) == 0
    ensures AllOnGrid(cfg, Carve(bs, i, pre, size, Min(cfg)), c) && Leaked(bs[i], pre, size, Min(cfg)) == []
    ensures OnGrid(cfg, Block(bs[i].addr + pre, size), c)
  {
    var b, n := bs[i], Min(cfg);
    var f, r := Front(b, pre), Back(b, pre, size);
    assert OnGrid(cfg, b, c);
    MultipleAdd(b.addr - c, pre, n);
    MultipleAdd(b.addr - c + pre, size, n);
    MultipleAdd(b.size, pre, n);
    MultipleAdd(b.size - pre, size, n);
    assert b.addr + pre - c == b.addr - c + pre && b.addr + pre + size - c == b.addr - c + pre + size;
    assert OnGrid(cfg, f, c) && OnGrid(cfg, r, c);
    if pre < n {
      SmallMultiple(pre, n);
    }
    if r.size < n {
      SmallMultiple(r.size, n);
    }
    hide OnGrid, Min;
  }

  lemma {:induction false} RunLosslessFrom(cfg: Config, l: Ledger, ops: seq<Op>, c: int)
    requires Lossless(cfg, l, c) && LegalRun(cfg, l, ops)
    requires forall i :: 0 <= i < |ops| ==> OpOnGrid(cfg, ops[i], c)
    ensures Lossless(cfg, Run(cfg, l, ops), c)
    decreases |ops|
  {
    if ops != [] {
      hide Apply, Legal, Lossless;
      var op, rest := ops[0], ops[1..];
      assert OpOnGrid(cfg, op, c);
      assert forall i :: 0 <= i < |rest| ==> OpOnGrid(cfg, rest[i], c) by {
        assert forall i :: 0 <= i < |rest| ==> rest[i] == ops[i + 1];
      }
      ApplyLossless(cfg, l, op, c);
      RunLosslessFrom(cfg, Apply(cfg, l, op), rest, c);
    }
  }

  lemma ApplyLossless(cfg: Config, l: Ledger, op: Op, c: int)
    requires Lossless(cfg, l, c) && Legal(cfg, l, op) && OpOnGrid(cfg, op, c)
    ensures Lossless(cfg, Apply(cfg, l, op), c)
  {
    hide Inv, Insert, Carve, FirstFit, Min, OnGrid, Separate, RoundDown;
    match op
    case Alloc(size, alignBits, offset) => AllocLossless(cfg, l, size, alignBits, offset, c);
    case Free(k) =>
      FreeGood(cfg, l, k);
      InsertOnGrid(cfg, l.free, l.live[k], c);
    case Populate(addr, len) =>
      PopulateGood(cfg, l, addr, len);
      RegionOnGrid(cfg, addr, len, c);
      InsertOnGrid(cfg, l.free, Block(addr, RoundDown(cfg, len)), c);
  }

  lemma RegionOnGrid(cfg: Config, addr: int, len: nat, c: int)
    requires (addr - c) % Min(cfg) == 0
    ensures OnGrid(cfg, Block(addr, RoundDown(cfg, len)), c)
  {
    RoundDownFacts(cfg, len);
  }

  /** With nothing allocated and nothing leaked, the free bytes are the bytes of the pool. */
  lemma AllFree(l: Ledger, min: nat)
    requires Inv(l, min) && l.live == [] && l.leaked == []
    ensures forall x :: Covers(l.free, x) <==> Covers(l.pool, x)
  {
    forall x
      ensures Covers(l.free, x) <==> Covers(l.pool, x)
    {
      CoversNone(x);
    }
  }

  /** A free list with the bytes of a single region is that region. */
  lemma OneRegion(l: Ledger, min: nat)
    requires Inv(l, min) && l.live == [] && l.leaked == [] && |l.pool| == 1 && l.pool[0].size > 0
    ensures l.free == l.pool
  {
    var b := l.pool[0];
    assert l.pool == [b];
    AllFree(l, min);
    forall x
      ensures Covers(l.free, x) <==> b.addr <= x < End(b)
    {
      CoversOne(b, x);
    }
    WholeInterval(l.free, min, b.addr, End(b));
  }

  /**
   No byte is ever lost when everything is congruent modulo the minimum block size: free
   memory is then exactly the free list, and once everything has been freed the free bytes
   are those of the pool.  A pool of one region is then again the single block populated.
   */
  lemma RunLossless(cfg: Config, ops: seq<Op>, c: int)
    requires LegalRun(cfg, EMPTY, ops)
    requires forall i :: 0 <= i < |ops| ==> OpOnGrid(cfg, ops[i], c)
    ensures var l := Run(cfg, EMPTY, ops);
            && l.leaked == [] && l.freemem == Total(l.free)
            && (l.live == [] ==> forall x :: Covers(l.free, x) <==> Covers(l.pool, x))
            && (l.live == [] && |l.pool| == 1 && l.pool[0].size > 0 ==> l.free == l.pool)
  {
    hide Min, OnGrid;
    EmptyGood(cfg);
    RunLosslessFrom(cfg, EMPTY, ops, c);
    var l := Run(cfg, EMPTY, ops);
    hide LegalRun, Run;
    if l.live == [] {
      AllFree(l, Min(cfg));
      if |l.pool| == 1 && l.pool[0].size > 0 {
        OneRegion(l, Min(cfg));
      }
    }
  }
}
