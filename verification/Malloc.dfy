/** The dynamic memory allocator: first-fit allocation and address-ordered coalescing. */
module Malloc {
  import opened Bits
  import opened HeapSpec
  import opened HeapLedger
  import opened HeapRun
  import opened Wrappers

  /** A difference of two machine addresses read as a signed number. */
  function Signed(x: int, space: nat): int
    requires space > 0
  {
    var m := x % space;
    if m < space / 2 then m else m - space
  }

  lemma SignedExact(x: int, space: nat)
    requires space > 0 && space % 2 == 0 && -(space / 2) <= x < space / 2
    ensures Signed(x, space) == x
  {
    if x >= 0 {
      RemainderUnique(x, 0, x, space);
    } else {
      RemainderUnique(x, -1, x + space, space);
    }
  }

  /**
   The test "block size minus the bytes needed is not negative", done in machine arithmetic,
   is right exactly when the bytes needed exceed the block by at most half the address space.
   */
  lemma FitTestExact(have: nat, need: nat, space: nat)
    requires space > 0 && space % 2 == 0 && have < space / 2 && need < space
    ensures (Signed(have - need, space) >= 0 <==> need <= have) <==> need <= have + space / 2
  {
    var d := have - need;
    if d >= -(space / 2) {
      SignedExact(d, space);
    } else {
      RemainderUnique(d, -1, d + space, space);
    }
  }

  /** The machine's test of a block against a request. */
  predicate Passes(cfg: Config, b: Block, size: int, modulus: nat, offset: int, space: nat)
    requires modulus > 0 && space > 0
  {
    Signed(b.size - PreSize(cfg, b, modulus, offset) - size, space) >= 0
  }

  /** A list and request for which it is wrong: 2 GB less a page, aligned to 2 GB, from a 512 kB block. */
  lemma FitTestWraps(cfg: Config)
    requires cfg.phys == 0
    ensures var b, size, modulus, offset := Block(0x1000, 0x80000), 0x7fff_f000, 0x8000_0000, 0xfff;
            && Passes(cfg, b, size, modulus, offset, 0x1_0000_0000)
            && FirstFit(cfg, [b], size, modulus, offset, 0) == None
  {
    var b := Block(0x1000, 0x80000);
    RemainderUnique(0xfff - (b.addr + cfg.phys), -1, 0x7fff_ffff, 0x8000_0000);
    FitTestExact(0x80000, 0x7fff_ffff + 0x7fff_f000, 0x1_0000_0000);
    assert [b][0] == b;
  }

  /** Requests of less than half the address space are tested rightly. */
  lemma PassesIsCanHold(cfg: Config, b: Block, size: int, modulus: nat, offset: int, space: nat)
    requires modulus > 0 && space > 0 && space % 2 == 0
    requires 0 <= b.size <= space / 2 && size > 0 && size + modulus <= space / 2
    ensures Passes(cfg, b, size, modulus, offset, space) <==> CanHold(cfg, b, size, modulus, offset)
  {
    SignedExact(b.size - PreSize(cfg, b, modulus, offset) - size, space);
  }

  /** The first block to pass the test is then the first that can hold the request. */
  lemma FirstPassing(cfg: Config, bs: seq<Block>, size: int, modulus: nat, offset: int, space: nat, r: Option<nat>)
    requires modulus > 0 && space > 0 && space % 2 == 0 && size > 0 && size + modulus <= space / 2
    requires forall i :: 0 <= i < |bs| ==> 0 <= bs[i].size <= space / 2
    requires FoundFirst(cfg, bs, size, modulus, offset, space, r)
    ensures r == FirstFit(cfg, bs, size, modulus, offset, 0)
  {
    forall i | 0 <= i < |bs|
      ensures Passes(cfg, bs[i], size, modulus, offset, space) <==> CanHold(cfg, bs[i], size, modulus, offset)
    {
      PassesIsCanHold(cfg, bs[i], size, modulus, offset, space);
    }
    hide Passes, CanHold;
    var f := FirstFit(cfg, bs, size, modulus, offset, 0);
    assert r.Some? ==> CanHold(cfg, bs[r.value], size, modulus, offset);
    assert f.Some? ==> Passes(cfg, bs[f.value], size, modulus, offset, space);
    hide FirstFit;
  }

  /** The result of a search: the first block that passes, or that none does. */
  predicate FoundFirst(cfg: Config, bs: seq<Block>, size: int, modulus: nat, offset: int, space: nat, r: Option<nat>)
    requires modulus > 0 && space > 0
  {
    var upTo := if r.Some? then r.value else |bs|;
    && (r.Some? ==> upTo < |bs| && Passes(cfg, bs[upTo], size, modulus, offset, space))
    && forall j :: 0 <= j < upTo && j < |bs| ==> !Passes(cfg, bs[j], size, modulus, offset, space)
  }

  // ---------------------------------------------------------------------------
  // The free list while a block is being merged into it.

  predicate InRange(b: Block, lo: int, hi: int) {
    lo <= b.addr && End(b) <= hi
  }

  /** The list is ordered and lies within [lo, hi). */
  predicate ListOk(bs: seq<Block>, min: nat, lo: int, hi: int) {
    Ordered(bs, min) && forall i :: 0 <= i < |bs| ==> InRange(bs[i], lo, hi)
  }

  /** Block b, not on the list, that may still have to be merged with what follows position i. */
  predicate Loose(bs: seq<Block>, i: nat, b: Block, min: nat, lo: int, hi: int) {
    i <= |bs| && ListOk(bs, min, lo, hi) && b.size >= min && InRange(b, lo, hi) && DisjointFrom(b, bs[i..])
  }

  /**
   The test "the gap from the end of b to the start of c is not negative", done in machine
   arithmetic, is right exactly when the two are less than half the address space apart.
   */
  lemma GapTestExact(b: Block, c: Block, space: nat)
    requires space > 0 && space % 2 == 0
    requires b.size > 0 && c.size > 0 && InRange(b, 0, space) && InRange(c, 0, space)
    ensures var gap := c.addr - End(b);
            (Signed(gap, space) >= 0 <==> gap >= 0) <==> -(space / 2) <= gap < space / 2
  {
    var gap := c.addr - End(b);
    if gap >= space / 2 {
      RemainderUnique(gap, 0, gap, space);
    } else if gap >= -(space / 2) {
      SignedExact(gap, space);
    } else {
      RemainderUnique(gap, -1, gap + space, space);
    }
  }

  /** Blocks for which it is wrong: one near the top of 4 GB is taken to end before one near the bottom. */
  lemma GapTestWraps()
    ensures var low, high := Block(0x1000, 0x1000), Block(0xf000_0000, 0x1000);
            low.addr < End(high) && Signed(low.addr - End(high), 0x1_0000_0000) > 0
  {
    RemainderUnique(0x1000 - 0xf000_1000, -1, 0x1000_0000, 0x1_0000_0000);
  }

  /** Machine gaps between blocks within one half of the address space are the true gaps. */
  lemma TrueGaps(b: Block, c: Block, space: nat, lo: int)
    requires space > 0 && space % 2 == 0 && b.size > 0 && c.size > 0
    requires InRange(b, lo, lo + space / 2) && InRange(c, lo, lo + space / 2)
    ensures Signed(c.addr - End(b), space) == c.addr - End(b)
    ensures Signed(b.addr - End(c), space) == b.addr - End(c)
  {
    SignedExact(c.addr - End(b), space);
    SignedExact(b.addr - End(c), space);
  }

  lemma LooseFacts(bs: seq<Block>, i: nat, b: Block, min: nat, lo: int, hi: int)
    requires min > 0 && Loose(bs, i, b, min, lo, hi) && i < |bs|
    ensures bs[i].size >= min && InRange(bs[i], lo, hi) && InRange(b, lo, hi) && b.size >= min && Disjoint(b, bs[i])
  {
    assert bs[i..][0] == bs[i];
  }

  lemma InsertSkips(tail: seq<Block>, b: Block)
    requires tail != [] && End(tail[0]) != b.addr && tail[0].addr < End(b)
    ensures Insert(tail, b) == [tail[0]] + Insert(tail[1..], b)
  {
  }

  lemma InsertMerges(tail: seq<Block>, b: Block, list: seq<Block>)
    requires tail != [] && End(tail[0]) == b.addr && tail[0].addr < End(b)
    requires list == Insert(tail[1..], Block(tail[0].addr, tail[0].size + b.size))
    ensures Insert(tail, b) == list
  {
  }

  lemma LooseTail(bs: seq<Block>, i: nat, b: Block, min: nat, lo: int, hi: int)
    requires Loose(bs, i, b, min, lo, hi) && i < |bs|
    ensures Loose(bs, i + 1, b, min, lo, hi)
  {
    hide ListOk, Disjoint;
    var tail, rest := bs[i..], bs[i + 1..];
    assert forall k :: 0 <= k < |rest| ==> rest[k] == tail[k + 1];
  }

  lemma SkipBlock(bs: seq<Block>, i: nat, b: Block, min: nat, lo: int, hi: int)
    requires min > 0 && Loose(bs, i, b, min, lo, hi) && i < |bs|
    requires End(bs[i]) != b.addr && bs[i].addr < End(b)
    ensures bs[..i + 1] + Insert(bs[i + 1..], b) == bs[..i] + Insert(bs[i..], b)
    ensures Loose(bs, i + 1, b, min, lo, hi)
  {
    hide Insert, Loose;
    LooseTail(bs, i, b, min, lo, hi);
    var tail := bs[i..];
    assert tail[0] == bs[i] && tail[1..] == bs[i + 1..] && bs[..i + 1] == bs[..i] + [bs[i]];
    InsertSkips(tail, b);
  }

  lemma OrderedSlice(bs: seq<Block>, i: nat, min: nat)
    requires i < |bs| && Ordered(bs, min)
    ensures Ordered(bs[i..], min) && Ordered(bs[..i] + bs[i + 1..], min)
  {
  }

  lemma WithoutInRange(bs: seq<Block>, i: nat, lo: int, hi: int)
    requires i < |bs| && forall k :: 0 <= k < |bs| ==> InRange(bs[k], lo, hi)
    ensures var list := bs[..i] + bs[i + 1..];
            forall k :: 0 <= k < |list| ==> InRange(list[k], lo, hi)
  {
    hide InRange;
  }

  /** A block is merged with at most one predecessor: the size added is the freed one. */
  lemma MergeBlock(bs: seq<Block>, i: nat, b: Block, rounded: int, min: nat, lo: int, hi: int)
    requires min > 0 && Loose(bs, i, b, min, lo, hi) && i < |bs| && End(bs[i]) == b.addr
    requires b.size == rounded || After(bs[i..], b.addr)
    ensures var merged, list := Block(bs[i].addr, bs[i].size + rounded), bs[..i] + bs[i + 1..];
            && list[..i] + Insert(list[i..], merged) == bs[..i] + Insert(bs[i..], b)
            && Loose(list, i, merged, min, lo, hi) && After(list[i..], merged.addr)
  {
    hide Insert, DisjointFrom, Ordered;
    var tail, list := bs[i..], bs[..i] + bs[i + 1..];
    assert tail[0] == bs[i] && tail[1..] == bs[i + 1..];
    assert list[..i] == bs[..i] && list[i..] == tail[1..];
    LooseFacts(bs, i, b, min, lo, hi);
    assert b.size == rounded;
    OrderedSlice(bs, i, min);
    WithoutInRange(bs, i, lo, hi);
    MergeTail(tail, b, min);
    hide After;
  }

  lemma MergeTail(tail: seq<Block>, b: Block, min: nat)
    requires min > 0 && tail != [] && Ordered(tail, min) && DisjointFrom(b, tail) && b.size > 0 && End(tail[0]) == b.addr
    ensures var merged := Block(tail[0].addr, tail[0].size + b.size);
            && Insert(tail, b) == Insert(tail[1..], merged)
            && DisjointFrom(merged, tail[1..]) && After(tail[1..], merged.addr)
  {
    hide Insert;
    InsertMerges(tail, b, Insert(tail[1..], Block(tail[0].addr, tail[0].size + b.size)));
    TailFacts(tail, b, min, tail[0].addr - 1);
  }

  lemma InsertHere(bs: seq<Block>, i: nat, b: Block)
    requires i <= |bs|
    requires i < |bs| ==> End(b) <= bs[i].addr
    ensures bs[..i] + Insert(bs[i..], b) ==
            if i < |bs| && End(b) == bs[i].addr
            then bs[..i] + [Block(b.addr, b.size + bs[i].size)] + bs[i + 1..]
            else bs[..i] + [b] + bs[i..]
  {
    if i < |bs| {
      assert bs[i..][0] == bs[i] && bs[i..][1..] == bs[i + 1..];
    }
  }

  lemma RelinkNext(bs: seq<Block>, i: nat, b: Block)
    requires i < |bs|
    ensures var list := bs[..i] + [b] + bs[i..];
            && list[i + 1] == bs[i]
            && forall m :: list[..i] + [m] + list[i + 2..] == bs[..i] + [m] + bs[i + 1..]
  {
    var list := bs[..i] + [b] + bs[i..];
    assert list[..i] == bs[..i] && list[i + 2..] == bs[i + 1..];
  }

  class Heap {
    const cfg: Config
    /** Number of addresses in the address space. */
    const space: nat
    /** All memory ever populated lies within half the address space from here. */
    ghost const base: int

    /** The free list. */
    var blocks: seq<Block>
    var freemem: int
    /** Allocated blocks that the cache discarders can give back, cheapest first. */
    var cached: seq<Block>
    ghost var ledger: Ledger

    ghost predicate Fitting(bs: seq<Block>) {
      space > 0 && space % 2 == 0 && ListOk(bs, Min(cfg), base, base + space / 2)
    }

    /** Inserts a block into the free list, merging it with its neighbours. */
    method FreeMemblock(ptr: Option<int>, size: nat)
      requires Fitting(blocks)
      requires ptr.Some? ==>
                 Loose(blocks, 0, Block(ptr.value, RoundUp(cfg, size)), Min(cfg), base, base + space / 2)
      modifies `blocks, `freemem
      ensures ptr.None? ==> blocks == old(blocks) && freemem == old(freemem)
      ensures ptr.Some? ==>
                && blocks == Insert(old(blocks), Block(ptr.value, RoundUp(cfg, size)))
                && freemem == old(freemem) + RoundUp(cfg, size)
    {
      hide Insert, Loose, Min, RoundUp, Signed, ListOk;
      if ptr.None? {
        return;
      }
      var rounded := RoundUp(cfg, size);
      var freeing := Block(ptr.value, rounded);
      ghost var min, hi := Min(cfg), base + space / 2;
      ghost var target := Insert(blocks, freeing);
      assert blocks[..0] + Insert(blocks[0..], freeing) == target by {
        assert blocks[0..] == blocks;
      }
      var list := blocks;
      var gapAfter := -1;
      var i := 0;
      while i < |list|
        invariant 0 <= i <= |list| && Loose(list, i, freeing, min, base, hi)
        invariant list[..i] + Insert(list[i..], freeing) == target
        invariant freeing.size == rounded || After(list[i..], freeing.addr)
        invariant gapAfter < 0 && freemem == old(freemem)
        decreases |list| - i
      {
        var block := list[i];
        LooseFacts(list, i, freeing, min, base, hi);
        TrueGaps(block, freeing, space, base);
        var gapBefore := Signed(freeing.addr - End(block), space);
        gapAfter := Signed(block.addr - End(freeing), space);
        if gapBefore == 0 {
          MergeBlock(list, i, freeing, rounded, min, base, hi);
          list := list[..i] + list[i + 1..];
          freeing := Block(block.addr, block.size + rounded);
        }
        if gapAfter >= 0 {
          break;
        }
        if gapBefore != 0 {
          SkipBlock(list, i, freeing, min, base, hi);
          i := i + 1;
        }
      }
      InsertHere(list, i, freeing);
      ghost var found := list;
      list := list[..i] + [freeing] + list[i..];
      if gapAfter == 0 {
        RelinkNext(found, i, freeing);
        freeing := Block(freeing.addr, freeing.size + list[i + 1].size);
        list := list[..i] + [freeing] + list[i + 2..];
      }
      blocks := list;
      freemem := freemem + rounded;
    }

    /** Cached blocks are distinct allocated blocks. */
    ghost predicate CachesOk()
      reads `cached, `ledger
    {
      && (forall i :: 0 <= i < |cached| ==> cached[i] in ledger.live)
      && (forall i, j :: 0 <= i < j < |cached| ==> cached[i] != cached[j])
    }

    ghost predicate Valid()
      reads this
    {
      && Fitting(blocks) && Good(cfg, ledger) && blocks == ledger.free && freemem == ledger.freemem
      && CachesOk() && InWindow(ledger.pool)
    }

    /** Everything in the pool lies within half the address space. */
    ghost predicate InWindow(bs: seq<Block>) {
      forall x :: Covers(bs, x) ==> base <= x < base + space / 2
    }

    constructor (cfg: Config, space: nat, ghost base: int)
      requires space > 0 && space % 2 == 0
      ensures Valid() && ledger == EMPTY && cached == [] && this.cfg == cfg && this.space == space && this.base == base
    {
      this.cfg, this.space, this.base := cfg, space, base;
      blocks, freemem, cached, ledger := [], 0, [], EMPTY;
      EmptyGood(cfg);
      new;
      hide Min;
    }

    /** The whole of a covered block is in the window. */
    lemma CoveredInRange(bs: seq<Block>, b: Block)
      requires InWindow(bs) && b.size > 0 && forall x :: In(x, b) ==> Covers(bs, x)
      ensures InRange(b, base, base + space / 2)
    {
      assert In(b.addr, b) && In(End(b) - 1, b);
    }

    lemma FreeListFits(l: Ledger)
      requires Good(cfg, l) && InWindow(l.pool) && space > 0 && space % 2 == 0
      ensures Fitting(l.free)
    {
      hide Min;
      forall i | 0 <= i < |l.free|
        ensures InRange(l.free[i], base, base + space / 2)
      {
        forall x | In(x, l.free[i])
          ensures Covers(l.pool, x)
        {
          assert Covers(l.free, x);
        }
        CoveredInRange(l.pool, l.free[i]);
      }
    }

    lemma LiveIsLoose(l: Ledger, k: nat)
      requires Good(cfg, l) && InWindow(l.pool) && space > 0 && space % 2 == 0 && k < |l.live|
      ensures RoundUp(cfg, l.live[k].size) == l.live[k].size
      ensures Loose(l.free, 0, l.live[k], Min(cfg), base, base + space / 2)
    {
      var b := l.live[k];
      RoundUpExact(cfg, b.size);
      hide Min, RoundUp;
      FreeListFits(l);
      forall x | In(x, b)
        ensures Covers(l.pool, x) && !Covers(l.free, x)
      {
        assert Covers(l.live, x);
      }
      CoveredInRange(l.pool, b);
      OutsideIsDisjoint(b, l.free);
      assert l.free[0..] == l.free;
    }

    /** Frees an allocated block, under any size that rounds up to its own. */
    method Free(ptr: int, size: nat, ghost k: nat)
      requires Valid() && k < |ledger.live| && ledger.live[k] == Block(ptr, RoundUp(cfg, size))
      requires ledger.live[k] !in cached
      modifies `blocks, `freemem, `ledger
      ensures Valid() && ledger == old(Apply(cfg, ledger, HeapRun.Free(k)))
    {
      LiveIsLoose(ledger, k);
      FreeGood(cfg, ledger, k);
      CachedRemain(ledger.live, k);
      FreeMemblock(Some(ptr), size);
      ledger := Freed(ledger, k);
      FreeListFits(ledger);
    }

    /** Adds a region to the pool, less the bytes that do not make up a whole block. */
    method Mpopulate(start: int, len: nat)
      requires Valid() && Legal(cfg, ledger, Populate(start, len))
      requires InRange(Block(start, RoundDown(cfg, len)), base, base + space / 2)
      modifies `blocks, `freemem, `ledger
      ensures Valid() && ledger == old(Apply(cfg, ledger, Populate(start, len)))
      ensures forall x :: Covers(ledger.pool, x) <==> old(Covers(ledger.pool, x)) || start <= x < start + len - len % Min(cfg)
      ensures forall x :: Covers(blocks, x) <==> old(Covers(blocks, x)) || start <= x < start + len - len % Min(cfg)
    {
      PopulateCovers(cfg, ledger, start, len);
      ghost var region := Block(start, RoundDown(cfg, len));
      RegionIsLoose(ledger, start, len);
      PopulateGood(cfg, ledger, start, len);
      FreeMemblock(Some(start), RoundDown(cfg, len));
      ghost var pool := ledger.pool;
      ledger := Populated(ledger, region);
      PopulatedWindow(pool, region);
      FreeListFits(ledger);
    }

    lemma PopulatedWindow(pool: seq<Block>, b: Block)
      requires InWindow(pool) && InRange(b, base, base + space / 2)
      ensures InWindow(pool + [b])
    {
      forall x | Covers(pool + [b], x)
        ensures base <= x < base + space / 2
      {
        CoversAppend(pool, [b], x);
        CoversOne(b, x);
      }
    }

    lemma RegionIsLoose(l: Ledger, start: int, len: nat)
      requires Good(cfg, l) && InWindow(l.pool) && space > 0 && space % 2 == 0 && Legal(cfg, l, Populate(start, len))
      requires InRange(Block(start, RoundDown(cfg, len)), base, base + space / 2)
      ensures RoundDown(cfg, len) >= 0 && RoundUp(cfg, RoundDown(cfg, len)) == RoundDown(cfg, len)
      ensures Loose(l.free, 0, Block(start, RoundDown(cfg, len)), Min(cfg), base, base + space / 2)
    {
      var b := Block(start, RoundDown(cfg, len));
      RoundDownFacts(cfg, len);
      RoundUpExact(cfg, b.size);
      hide Min, RoundUp, RoundDown;
      FreeListFits(l);
      forall x | In(x, b)
        ensures !Covers(l.free, x)
      {
        CoversOne(b, x);
      }
      OutsideIsDisjoint(b, l.free);
      assert l.free[0..] == l.free;
    }

    /** Offers an allocated block to be discarded when memory runs out. */
    method Cache(b: Block)
      requires Valid() && b in ledger.live && b !in cached
      modifies `cached
      ensures Valid() && cached == old(cached) + [b]
    {
      cached := cached + [b];
    }

    /** Gives back the cheapest cached block, if there is one. */
    method DiscardCache() returns (discarded: bool)
      requires Valid()
      modifies this
      ensures Valid() && discarded == (old(cached) != [])
      ensures discarded ==> cached == old(cached[1..]) && ledger == old(Freed(ledger, IndexOf(ledger.live, cached[0])))
      ensures !discarded ==> cached == [] && ledger == old(ledger)
    {
      if cached == [] {
        return false;
      }
      var b := cached[0];
      assert b in ledger.live;
      ghost var k := IndexOf(ledger.live, b);
      LiveIsLoose(ledger, k);
      cached := cached[1..];
      Free(b.addr, b.size, k);
      return true;
    }

    /** The first block that passes the machine's fit test. */
    method Search(size: nat, modulus: nat, offset: int) returns (r: Option<nat>)
      requires modulus > 0 && space > 0
      ensures FoundFirst(cfg, blocks, size, modulus, offset, space, r)
    {
      var i := 0;
      while i < |blocks|
        invariant 0 <= i <= |blocks|
        invariant forall j :: 0 <= j < i ==> !Passes(cfg, blocks[j], size, modulus, offset, space)
      {
        var pre := PreSize(cfg, blocks[i], modulus, offset);
        var post := Signed(blocks[i].size - pre - size, space);
        if post >= 0 {
          return Some(i);
        }
        i := i + 1;
      }
      return None;
    }

    /** On the heap's own list, what a search finds is the first fit. */
    lemma SearchIsFirstFit(size: nat, modulus: nat, offset: int, r: Option<nat>)
      requires Fitting(blocks) && size > 0 && modulus > 0 && size + modulus <= space / 2
      requires FoundFirst(cfg, blocks, size, modulus, offset, space, r)
      ensures r == FirstFit(cfg, blocks, size, modulus, offset, 0)
    {
      hide FoundFirst, Min;
      forall i | 0 <= i < |blocks|
        ensures 0 <= blocks[i].size <= space / 2
      {
        assert InRange(blocks[i], base, base + space / 2);
      }
      FirstPassing(cfg, blocks, size, modulus, offset, space, r);
    }

    lemma LowestRoom(size: nat, alignBits: nat, offset: int)
      requires Valid() && size > 0
      ensures var m := Modulus(cfg, alignBits);
              var r := FirstFit(cfg, blocks, size, m, offset, 0);
              && (r.None? ==> forall a :: !Room(cfg, blocks, a, size, alignBits, offset))
              && (r.Some? ==>
                    var at := blocks[r.value].addr + PreSize(cfg, blocks[r.value], m, offset);
                    && Room(cfg, blocks, at, size, alignBits, offset)
                    && forall a :: Room(cfg, blocks, a, size, alignBits, offset) ==> at <= a)
    {
      hide Room, Min, Modulus, FirstFit, PreSize;
      FirstFitLowest(cfg, blocks, size, alignBits, offset);
    }

    /** Takes `size` bytes out of block i, keeping what is left over as blocks of their own. */
    method Split(i: nat, pre: int, size: nat)
      requires i < |blocks| && Fits(blocks[i], pre, size)
      modifies `blocks
      ensures blocks == Carve(old(blocks), i, pre, size, Min(cfg))
    {
      var block := blocks[i];
      var post := block.size - pre - size;
      var list := blocks;
      if post >= Min(cfg) {
        list := list[..i + 1] + [Block(block.addr + pre + size, post)] + list[i + 1..];
      }
      list := list[i := Block(block.addr, pre)];
      if pre < Min(cfg) {
        list := list[..i] + list[i + 1..];
      }
      blocks := list;
    }

    /** Splits the request out of block i, where it fits. */
    method Take(i: nat, size: nat, alignBits: nat, offset: int) returns (ptr: int)
      requires Valid() && size > 0
      requires FirstFit(cfg, blocks, RoundUp(cfg, size), Modulus(cfg, alignBits), offset, 0) == Some(i)
      modifies `blocks, `freemem, `ledger
      ensures Valid() && ledger == old(Apply(cfg, ledger, Alloc(size, alignBits, offset)))
      ensures ledger.live == old(ledger.live) + [Block(ptr, RoundUp(cfg, size))]
      ensures Pow2(alignBits) > 0 && (ptr + cfg.phys - offset) % Pow2(alignBits) == 0
      ensures ptr == old(blocks)[i].addr + PreSize(cfg, old(blocks)[i], Modulus(cfg, alignBits), offset)
    {
      hide FirstFit, Min, RoundUp, Modulus, PreSize, Carve, Leaked, ListOk, Inv;
      var rounded, modulus := RoundUp(cfg, size), Modulus(cfg, alignBits);
      var pre := PreSize(cfg, blocks[i], modulus, offset);
      ptr := blocks[i].addr + pre;
      RoundUpFacts(cfg, size);
      Aligned(cfg, blocks[i], alignBits, offset);
      AllocGood(cfg, ledger, size, alignBits, offset);
      Split(i, pre, rounded);
      freemem := freemem - rounded;
      ledger := Allocated(ledger, i, pre, rounded, Min(cfg));
      FreeListFits(ledger);
    }

    /** Allocates from the first block that fits, discarding cached data until one does. */
    method AllocMemblock(size: nat, alignBits: nat, offset: int) returns (ptr: Option<int>, ghost n: nat)
      requires Valid() && size > 0 && RoundUp(cfg, size) + Modulus(cfg, alignBits) <= space / 2
      modifies this
      ensures Valid()
      ensures n <= |old(cached)| && cached == old(cached)[n..]
      ensures var m, rounded := Modulus(cfg, alignBits), RoundUp(cfg, size);
              forall j :: 0 <= j < n ==>
                FirstFit(cfg, Shed(old(ledger), old(cached), j).free, rounded, m, offset, 0).None?
      ensures ledger == Apply(cfg, Shed(old(ledger), old(cached), n), Alloc(size, alignBits, offset))
      ensures ptr.None? ==> n == |old(cached)| && ledger == Shed(old(ledger), old(cached), n)
      ensures ptr.Some? ==>
                && ledger.live == Shed(old(ledger), old(cached), n).live + [Block(ptr.value, RoundUp(cfg, size))]
                && Pow2(alignBits) > 0 && (ptr.value + cfg.phys - offset) % Pow2(alignBits) == 0
      ensures var free, rounded := Shed(old(ledger), old(cached), n).free, RoundUp(cfg, size);
              && (ptr.None? ==> forall a :: !Room(cfg, free, a, rounded, alignBits, offset))
              && (ptr.Some? ==>
                    && Room(cfg, free, ptr.value, rounded, alignBits, offset)
                    && forall a :: Room(cfg, free, a, rounded, alignBits, offset) ==> ptr.value <= a)
    {
      hide Good, FirstFit, Min, RoundUp, Modulus, PreSize, Insert, Carve, Fitting, CachesOk, InWindow, Shed, Leaked, Room;
      var rounded, modulus := RoundUp(cfg, size), Modulus(cfg, alignBits);
      RoundUpFacts(cfg, size);
      n := 0;
      ghost var l0, c0 := ledger, cached;
      assert ledger == Shed(l0, c0, 0) by {
        ShedNone(l0, c0);
      }
      while true
        invariant Valid() && n <= |c0| && cached == c0[n..] && ledger == Shed(l0, c0, n)
        invariant forall j :: 0 <= j < n ==> FirstFit(cfg, Shed(l0, c0, j).free, rounded, modulus, offset, 0).None?
        decreases |cached|
      {
        var r := Search(rounded, modulus, offset);
        SearchIsFirstFit(rounded, modulus, offset, r);
        LowestRoom(rounded, alignBits, offset);
        if r.Some? {
          var p := Take(r.value, size, alignBits, offset);
          return Some(p), n;
        }
        var discarded := DiscardCache();
        if !discarded {
          return None, n;
        }
        assert c0[n] == c0[n..][0] && c0[n..][1..] == c0[n + 1..];
        ShedStep(l0, c0, n);
        n := n + 1;
      }
    }
  }

  function IndexOf(bs: seq<Block>, b: Block): (k: nat)
    requires b in bs
    ensures k < |bs| && bs[k] == b
  {
    if bs[0] == b then 0 else 1 + IndexOf(bs[1..], b)
  }

  lemma CachedRemain(live: seq<Block>, k: nat)
    requires k < |live|
    ensures forall b :: b in live && b != live[k] ==> b in Without(live, k)
  {
    forall b | b in live && b != live[k]
      ensures b in Without(live, k)
    {
      var i :| 0 <= i < |live| && live[i] == b;
      if i < k {
        assert Without(live, k)[i] == b;
      } else {
        assert Without(live, k)[i - 1] == b;
      }
    }
  }

  /** The ledger once the first n of the cached blocks have been given back. */
  function Shed(l: Ledger, cs: seq<Block>, n: nat): Ledger
    requires n <= |cs|
  {
    if n == 0 then l
    else
      var m := Shed(l, cs, n - 1);
      if cs[n - 1] in m.live then Freed(m, IndexOf(m.live, cs[n - 1])) else m
  }

  /** The region given starts just where a free block ends. */
  predicate Touches(bs: seq<Block>, start: int) {
    exists i :: 0 <= i < |bs| && End(bs[i]) == start
  }

  /** Merging an empty block either changes nothing or leaves the empty block on the list. */
  lemma {:induction false} InsertEmpty(bs: seq<Block>, start: int, min: nat)
    requires min > 0 && Ordered(bs, min) && DisjointFrom(Block(start, 1), bs)
    ensures Touches(bs, start) ==> Insert(bs, Block(start, 0)) == bs
    ensures !Touches(bs, start) ==> Block(start, 0) in Insert(bs, Block(start, 0))
    decreases |bs|
  {
    hide Insert;
    if bs == [] || start <= bs[0].addr {
      EmptyFirst(bs, start, min);
    } else {
      TailFacts(bs, Block(start, 1), min, bs[0].addr - 1);
      hide Ordered;
      if End(bs[0]) == start {
        PutBack(bs, min);
        InsertMerges(bs, Block(start, 0), bs);
      } else {
        TouchesTail(bs, start);
        hide DisjointFrom, Touches;
        InsertEmpty(bs[1..], start, min);
        InsertSkips(bs, Block(start, 0));
        assert bs == [bs[0]] + bs[1..];
      }
    }
  }

  lemma PutBack(bs: seq<Block>, min: nat)
    requires bs != [] && Ordered(bs, min)
    ensures Insert(bs[1..], bs[0]) == bs
  {
    assert bs == [bs[0]] + bs[1..];
  }

  lemma TouchesTail(bs: seq<Block>, start: int)
    requires bs != [] && End(bs[0]) != start
    ensures Touches(bs, start) <==> Touches(bs[1..], start)
  {
    if Touches(bs, start) {
      var i :| 0 <= i < |bs| && End(bs[i]) == start;
      assert End(bs[1..][i - 1]) == start;
    }
    if Touches(bs[1..], start) {
      var i :| 0 <= i < |bs[1..]| && End(bs[1..][i]) == start;
      assert End(bs[i + 1]) == start;
    }
  }

  lemma EmptyFirst(bs: seq<Block>, start: int, min: nat)
    requires min > 0 && Ordered(bs, min) && DisjointFrom(Block(start, 1), bs)
    requires bs == [] || start <= bs[0].addr
    ensures !Touches(bs, start) && Block(start, 0) in Insert(bs, Block(start, 0))
  {
    if bs != [] {
      assert Disjoint(Block(start, 1), bs[0]);
      assert ([Block(start, 0)] + bs)[0] == Block(start, 0);
    }
  }

  /**
   Populating fewer bytes than the minimum block still links a block, an empty one: a new
   region leaves a well-formed free list exactly when it holds a whole block or starts just
   where a free block ends.
   */
  lemma RegionOrdered(cfg: Config, bs: seq<Block>, start: int, len: nat)
    requires Ordered(bs, Min(cfg)) && len > 0 && DisjointFrom(Block(start, len), bs)
    ensures Ordered(Insert(bs, Block(start, RoundUp(cfg, RoundDown(cfg, len)))), Min(cfg)) <==>
            len >= Min(cfg) || Touches(bs, start)
  {
    RoundDownFacts(cfg, len);
    RoundUpExact(cfg, RoundDown(cfg, len));
    var min, b := Min(cfg), Block(start, RoundDown(cfg, len));
    if len >= min {
      hide Insert, RoundUp, RoundDown, Min;
      assert DisjointFrom(b, bs) by {
        Smaller(Block(start, len), b.size, bs);
      }
      InsertKeepsOrder(bs, b, min);
    } else {
      SmallMultiple(b.size, min);
      hide Insert, RoundUp, RoundDown, Min;
      Smaller(Block(start, len), 1, bs);
      InsertEmpty(bs, start, min);
      if !Touches(bs, start) {
        var list := Insert(bs, b);
        var i :| 0 <= i < |list| && list[i] == b;
        assert list[i].size < min;
      }
    }
  }

  /** The start of a block is disjoint from what the block is disjoint from. */
  lemma Smaller(b: Block, size: int, bs: seq<Block>)
    requires DisjointFrom(b, bs) && size <= b.size
    ensures DisjointFrom(Block(b.addr, size), bs)
  {
    forall i | 0 <= i < |bs|
      ensures Disjoint(Block(b.addr, size), bs[i])
    {
      assert Disjoint(b, bs[i]);
    }
  }

  lemma ShedNone(l: Ledger, cs: seq<Block>)
    ensures Shed(l, cs, 0) == l
  {
  }

  lemma ShedStep(l: Ledger, cs: seq<Block>, n: nat)
    requires n < |cs| && cs[n] in Shed(l, cs, n).live
    ensures Shed(l, cs, n + 1) == Freed(Shed(l, cs, n), IndexOf(Shed(l, cs, n).live, cs[n]))
  {
  }

  lemma RoundUpExact(cfg: Config, size: int)
    requires size % Min(cfg) == 0
    ensures RoundUp(cfg, size) == size
  {
    var m := Min(cfg);
    RemainderUnique(size + m - 1, size / m, m - 1, m);
  }
}
