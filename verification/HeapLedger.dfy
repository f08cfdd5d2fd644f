/**
 The allocator's bookkeeping over whole runs: at every moment each byte ever given to the
 pool is free, allocated, or leaked, and in exactly one of these states.
 */
module HeapLedger {
  import opened HeapSpec

  datatype Ledger = Ledger(free: seq<Block>, live: seq<Block>, leaked: seq<Block>, pool: seq<Block>, freemem: int)

  predicate Positive(bs: seq<Block>) {
    forall i :: 0 <= i < |bs| ==> bs[i].size > 0
  }

  predicate Pairwise(bs: seq<Block>) {
    forall i, j :: 0 <= i < j < |bs| ==> Disjoint(bs[i], bs[j])
  }

  /** No address belongs to both lists. */
  ghost predicate Separate(a: seq<Block>, b: seq<Block>) {
    forall x :: !(Covers(a, x) && Covers(b, x))
  }

  /** The pool is made up of the free, allocated and leaked bytes. */
  ghost predicate MadeUpOf(l: Ledger) {
    forall x :: Covers(l.pool, x) <==> Covers(l.free, x) || Covers(l.live, x) || Covers(l.leaked, x)
  }

  ghost predicate Inv(l: Ledger, min: nat) {
    && min > 0
    && Ordered(l.free, min)
    && Positive(l.live) && Pairwise(l.live)
    && Positive(l.leaked) && Pairwise(l.leaked)
    && Separate(l.free, l.live) && Separate(l.free, l.leaked) && Separate(l.live, l.leaked)
    && MadeUpOf(l)
    && l.freemem == Total(l.free) + Total(l.leaked)
    && l.freemem + Total(l.live) == Total(l.pool)
  }

  const EMPTY := Ledger([], [], [], [], 0)

  // ---------------------------------------------------------------------------
  // List facts.

  lemma PairwiseAppend(bs: seq<Block>, b: Block)
    requires Pairwise(bs) && DisjointFrom(b, bs)
    ensures Pairwise(bs + [b])
  {
    forall i, j | 0 <= i < j < |bs + [b]|
      ensures Disjoint((bs + [b])[i], (bs + [b])[j])
    {
      if j == |bs| {
        assert Disjoint(b, bs[i]);
      }
    }
  }

  lemma OutsideIsDisjoint(b: Block, bs: seq<Block>)
    requires b.size > 0 && Positive(bs)
    requires forall x :: !(In(x, b) && Covers(bs, x))
    ensures DisjointFrom(b, bs)
  {
    forall i | 0 <= i < |bs|
      ensures Disjoint(b, bs[i])
    {
      if !Disjoint(b, bs[i]) {
        var x := if b.addr >= bs[i].addr then b.addr else bs[i].addr;
        assert In(x, b) && In(x, bs[i]);
        assert Covers(bs, x);
      }
    }
  }

  function Without(bs: seq<Block>, k: nat): seq<Block>
    requires k < |bs|
  {
    bs[..k] + bs[k + 1..]
  }

  lemma WithoutTotal(bs: seq<Block>, k: nat)
    requires k < |bs|
    ensures Total(bs) == Total(Without(bs, k)) + bs[k].size
  {
    hide Total;
    assert bs == bs[..k] + [bs[k]] + bs[k + 1..];
    TotalAppend(bs[..k], [bs[k]]);
    TotalAppend(bs[..k] + [bs[k]], bs[k + 1..]);
    TotalAppend(bs[..k], bs[k + 1..]);
    TotalOne(bs[k]);
  }

  lemma WithoutCovers(bs: seq<Block>, k: nat, x: int)
    requires k < |bs| && Positive(bs) && Pairwise(bs)
    ensures Covers(bs, x) <==> Covers(Without(bs, k), x) || In(x, bs[k])
    ensures !(Covers(Without(bs, k), x) && In(x, bs[k]))
  {
    SplitCovers(bs, k, [], x);
    CoversAppend(bs[..k], bs[k + 1..], x);
    CoversNone(x);
    if In(x, bs[k]) {
      assert !Covers(bs[..k], x) && !Covers(bs[k + 1..], x) by {
        hide Total;
      }
    }
    hide Covers, In, Pairwise, Positive;
  }

  lemma WithoutApart(bs: seq<Block>, k: nat)
    requires k < |bs| && Positive(bs) && Pairwise(bs)
    ensures Positive(Without(bs, k)) && Pairwise(Without(bs, k))
  {
    var rs := Without(bs, k);
    assert forall m :: 0 <= m < |rs| ==> rs[m] == bs[if m < k then m else m + 1];
    hide Disjoint;
  }

  lemma WithoutFacts(bs: seq<Block>, k: nat)
    requires k < |bs| && Positive(bs) && Pairwise(bs)
    ensures Positive(Without(bs, k)) && Pairwise(Without(bs, k))
    ensures Total(bs) == Total(Without(bs, k)) + bs[k].size
    ensures forall x :: Covers(bs, x) <==> Covers(Without(bs, k), x) || In(x, bs[k])
    ensures forall x :: !(Covers(Without(bs, k), x) && In(x, bs[k]))
  {
    hide Covers, In, Pairwise, Positive, Total, Without;
    WithoutTotal(bs, k);
    WithoutApart(bs, k);
    forall x
      ensures Covers(bs, x) <==> Covers(Without(bs, k), x) || In(x, bs[k])
      ensures !(Covers(Without(bs, k), x) && In(x, bs[k]))
    {
      WithoutCovers(bs, k, x);
    }
  }

  // ---------------------------------------------------------------------------
  // Operations.

  /** Cuts a block out of free block i. */
  function Allocated(l: Ledger, i: nat, pre: int, size: int, min: nat): Ledger
    requires i < |l.free|
  {
    l.(free := Carve(l.free, i, pre, size, min),
       live := l.live + [Block(l.free[i].addr + pre, size)],
       leaked := l.leaked + Leaked(l.free[i], pre, size, min),
       freemem := l.freemem - size)
  }

  /** Returns allocated block k to the free list. */
  function Freed(l: Ledger, k: nat): Ledger
    requires k < |l.live|
  {
    l.(free := Insert(l.free, l.live[k]), live := Without(l.live, k), freemem := l.freemem + l.live[k].size)
  }

  /** Adds a region to the pool. */
  function Populated(l: Ledger, b: Block): Ledger {
    l.(free := Insert(l.free, b), pool := l.pool + [b], freemem := l.freemem + b.size)
  }

  lemma LeakedFacts(b: Block, pre: int, size: int, min: nat)
    requires Fits(b, pre, size)
    ensures var lp := Leaked(b, pre, size, min);
            && Positive(lp) && Pairwise(lp)
            && forall k :: 0 <= k < |lp| ==> b.addr <= lp[k].addr && End(lp[k]) <= End(b)
  {
  }

  lemma AllocatedSeparate(l: Ledger, i: nat, pre: int, size: int, min: nat)
    requires Inv(l, min) && i < |l.free| && Fits(l.free[i], pre, size)
    ensures var n := Allocated(l, i, pre, size, min);
            && Separate(n.free, n.live) && Separate(n.free, n.leaked) && Separate(n.live, n.leaked) && MadeUpOf(n)
  {
    hide Covers, In, Carve, Leaked, Ordered, Total, Positive, Pairwise, Fits;
    var n := Allocated(l, i, pre, size, min);
    var p, lp := Block(l.free[i].addr + pre, size), Leaked(l.free[i], pre, size, min);
    forall x
      ensures !(Covers(n.free, x) && Covers(n.live, x)) && !(Covers(n.free, x) && Covers(n.leaked, x))
      ensures !(Covers(n.live, x) && Covers(n.leaked, x))
      ensures Covers(n.pool, x) <==> Covers(n.free, x) || Covers(n.live, x) || Covers(n.leaked, x)
    {
      CarveCovers(l.free, i, pre, size, min, x);
      PieceApart(l.free, i, pre, size, min, x);
      CoversAppend(l.live, [p], x);
      CoversOne(p, x);
      CoversAppend(l.leaked, lp, x);
    }
  }

  /** A leaked byte is neither allocated nor free. */
  lemma PieceApart(bs: seq<Block>, i: nat, pre: int, size: int, min: nat, x: int)
    requires Ordered(bs, min) && i < |bs| && Fits(bs[i], pre, size)
    ensures Covers(Leaked(bs[i], pre, size, min), x) ==>
              !Covers(Carve(bs, i, pre, size, min), x) && !In(x, Block(bs[i].addr + pre, size)) && In(x, bs[i])
  {
    var f, r := Front(bs[i], pre), Back(bs[i], pre, size);
    CoversAppend(Lose(f, min), Lose(r, min), x);
    CoversAppend(Keep(f, min), Keep(r, min), x);
    SplitCovers(bs, i, Keep(f, min) + Keep(r, min), x);
    CoversOne(f, x);
    CoversOne(r, x);
    if Covers(Leaked(bs[i], pre, size, min), x) {
      OnlyOne(bs, min, i, x);
    }
    hide Covers;
  }

  /** Allocation keeps the ledger. */
  lemma AllocatedInv(l: Ledger, i: nat, pre: int, size: int, min: nat)
    requires Inv(l, min) && i < |l.free| && Fits(l.free[i], pre, size)
    ensures Inv(Allocated(l, i, pre, size, min), min)
  {
    var n := Allocated(l, i, pre, size, min);
    var p, lp := Block(l.free[i].addr + pre, size), Leaked(l.free[i], pre, size, min);
    AllocatedSeparate(l, i, pre, size, min);
    AllocatedLists(l, i, pre, size, min);
    CarveOrdered(l.free, i, pre, size, min);
    CarveTotal(l.free, i, pre, size, min);
    TotalAppend(l.live, [p]);
    TotalAppend(l.leaked, lp);
    TotalOne(p);
    hide Covers, Separate, MadeUpOf, Ordered, Total, Carve, Leaked, Positive, Pairwise;
  }

  lemma AllocatedLists(l: Ledger, i: nat, pre: int, size: int, min: nat)
    requires Inv(l, min) && i < |l.free| && Fits(l.free[i], pre, size)
    ensures var n := Allocated(l, i, pre, size, min);
            Positive(n.live) && Pairwise(n.live) && Positive(n.leaked) && Pairwise(n.leaked)
  {
    hide Carve, Total, MadeUpOf, Leaked, Separate, Pairwise, DisjointFrom;
    var b := l.free[i];
    var p, lp := Block(b.addr + pre, size), Leaked(b, pre, size, min);
    LeakedFacts(b, pre, size, min);
    InsideFree(l.free, l.live, i, p);
    PairwiseAppend(l.live, p);
    forall k | 0 <= k < |lp|
      ensures DisjointFrom(lp[k], l.leaked)
    {
      InsideFree(l.free, l.leaked, i, lp[k]);
    }
    PairwiseConcat(l.leaked, lp);
  }

  lemma PairwiseConcat(a: seq<Block>, b: seq<Block>)
    requires Pairwise(a) && Pairwise(b) && forall k :: 0 <= k < |b| ==> DisjointFrom(b[k], a)
    ensures Pairwise(a + b)
  {
    forall i, j | 0 <= i < j < |a + b|
      ensures Disjoint((a + b)[i], (a + b)[j])
    {
      if i < |a| <= j {
        assert Disjoint(b[j - |a|], a[i]);
      }
    }
  }

  /** A block inside a free block is disjoint from every list separate from the free list. */
  lemma InsideFree(free: seq<Block>, other: seq<Block>, i: nat, p: Block)
    requires i < |free| && Separate(free, other) && Positive(other)
    requires p.size > 0 && free[i].addr <= p.addr && End(p) <= End(free[i])
    ensures DisjointFrom(p, other)
  {
    forall x
      ensures !(In(x, p) && Covers(other, x))
    {
      if In(x, p) {
        assert In(x, free[i]);
        assert Covers(free, x);
      }
    }
    OutsideIsDisjoint(p, other);
  }

  /** A lower bound for everything in the list and for b. */
  function Floor(bs: seq<Block>, b: Block): int {
    if bs == [] || b.addr < bs[0].addr then b.addr - 1 else bs[0].addr - 1
  }

  lemma InsertKeepsOrder(bs: seq<Block>, b: Block, min: nat)
    requires min > 0 && Ordered(bs, min) && b.size >= min && DisjointFrom(b, bs)
    ensures Ordered(Insert(bs, b), min)
  {
    InsertOrdered(bs, b, min, Floor(bs, b));
  }

  /** Freeing keeps the ledger. */
  lemma FreedInv(l: Ledger, k: nat, min: nat)
    requires Inv(l, min) && k < |l.live| && l.live[k].size >= min
    ensures Inv(Freed(l, k), min)
  {
    var n, b := Freed(l, k), l.live[k];
    assert Positive(l.free);
    assert forall x :: !(In(x, b) && Covers(l.free, x)) by {
      forall x
        ensures !(In(x, b) && Covers(l.free, x))
      {
        if In(x, b) {
          assert Covers(l.live, x);
        }
      }
    }
    OutsideIsDisjoint(b, l.free);
    InsertKeepsOrder(l.free, b, min);
    InsertTotal(l.free, b);
    WithoutFacts(l.live, k);
    hide Covers, Insert, Ordered, Total, Without, Pairwise;
    forall x
      ensures !(Covers(n.free, x) && Covers(n.live, x)) && !(Covers(n.free, x) && Covers(n.leaked, x))
      ensures !(Covers(n.live, x) && Covers(n.leaked, x))
      ensures Covers(n.pool, x) <==> Covers(n.free, x) || Covers(n.live, x) || Covers(n.leaked, x)
    {
      InsertCovers(l.free, b, x);
    }
  }

  /** Populating keeps the ledger, for a region not yet in the pool. */
  lemma PopulatedInv(l: Ledger, b: Block, min: nat)
    requires Inv(l, min) && b.size >= min && Separate([b], l.pool)
    ensures Inv(Populated(l, b), min)
  {
    var n := Populated(l, b);
    assert Positive(l.free);
    forall x
      ensures !(In(x, b) && Covers(l.free, x))
    {
      CoversOne(b, x);
    }
    OutsideIsDisjoint(b, l.free);
    InsertKeepsOrder(l.free, b, min);
    InsertTotal(l.free, b);
    TotalAppend(l.pool, [b]);
    TotalOne(b);
    hide Covers, Insert, Ordered, Total;
    forall x
      ensures !(Covers(n.free, x) && Covers(n.live, x)) && !(Covers(n.free, x) && Covers(n.leaked, x))
      ensures Covers(n.pool, x) <==> Covers(n.free, x) || Covers(n.live, x) || Covers(n.leaked, x)
    {
      InsertCovers(l.free, b, x);
      CoversOne(b, x);
      CoversAppend(l.pool, [b], x);
    }
  }

  lemma EmptyInv(min: nat)
    requires min > 0
    ensures Inv(EMPTY, min)
  {
  }
}
