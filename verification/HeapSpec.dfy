/**
 The free list of the memory allocator as a value: which addresses are free, how a block is
 carved out of the list and how a freed block is merged back.
 */
module HeapSpec {

  /** A block of memory [addr, addr + size). */
  datatype Block = Block(addr: int, size: int)

  function End(b: Block): int {
    b.addr + b.size
  }

  predicate In(a: int, b: Block) {
    b.addr <= a < End(b)
  }

  /** Address a belongs to some block of the list. */
  predicate Covers(bs: seq<Block>, a: int) {
    exists i :: 0 <= i < |bs| && In(a, bs[i])
  }

  function Total(bs: seq<Block>): int {
    if bs == [] then 0 else bs[0].size + Total(bs[1..])
  }

  /** Strictly address-ordered, never adjacent, and no block smaller than the minimum. */
  predicate Ordered(bs: seq<Block>, min: nat) {
    && (forall i :: 0 <= i < |bs| ==> bs[i].size >= min)
    && (forall i, j :: 0 <= i < j < |bs| ==> End(bs[i]) < bs[j].addr)
  }

  predicate Disjoint(b: Block, c: Block) {
    End(b) <= c.addr || End(c) <= b.addr
  }

  predicate DisjointFrom(b: Block, bs: seq<Block>) {
    forall i :: 0 <= i < |bs| ==> Disjoint(b, bs[i])
  }

  // ---------------------------------------------------------------------------
  // Coverage of lists.

  lemma CoversAppend(a: seq<Block>, b: seq<Block>, x: int)
    ensures Covers(a + b, x) <==> Covers(a, x) || Covers(b, x)
  {
    if Covers(a, x) {
      var i :| 0 <= i < |a| && In(x, a[i]);
      assert In(x, (a + b)[i]);
    }
    if Covers(b, x) {
      var i :| 0 <= i < |b| && In(x, b[i]);
      assert In(x, (a + b)[|a| + i]);
    }
  }

  lemma CoversOne(b: Block, x: int)
    ensures Covers([b], x) <==> In(x, b)
  {
    if In(x, b) {
      assert In(x, [b][0]);
    }
  }

  lemma CoversNone(x: int)
    ensures !Covers([], x)
  {
  }

  lemma {:induction false} TotalAppend(a: seq<Block>, b: seq<Block>)
    ensures Total(a + b) == Total(a) + Total(b)
  {
    if a == [] {
      assert a + b == b;
    } else {
      TotalAppend(a[1..], b);
      assert (a + b)[1..] == a[1..] + b;
    }
  }

  // ---------------------------------------------------------------------------
  // Freeing.

  /** Merges a block into the list: with its predecessor, its successor, both or neither. */
  function Insert(bs: seq<Block>, b: Block): seq<Block> {
    if bs == [] then [b]
    else if End(b) < bs[0].addr then [b] + bs
    else if End(b) == bs[0].addr then [Block(b.addr, b.size + bs[0].size)] + bs[1..]
    else if End(bs[0]) == b.addr then Insert(bs[1..], Block(bs[0].addr, bs[0].size + b.size))
    else [bs[0]] + Insert(bs[1..], b)
  }

  /** Everything in the list starts after address lo. */
  predicate After(bs: seq<Block>, lo: int) {
    forall i :: 0 <= i < |bs| ==> lo < bs[i].addr
  }

  lemma OrderedCons(b: Block, bs: seq<Block>, min: nat, lo: int)
    requires min > 0 && Ordered(bs, min) && b.size >= min && lo < b.addr
    requires bs == [] || End(b) < bs[0].addr
    ensures Ordered([b] + bs, min) && After([b] + bs, lo)
  {
  }

  lemma TailFacts(bs: seq<Block>, b: Block, min: nat, lo: int)
    requires Ordered(bs, min) && bs != [] && DisjointFrom(b, bs) && b.size > 0 && After(bs, lo)
    ensures bs[0].size >= min && lo < bs[0].addr && Disjoint(b, bs[0])
    ensures Ordered(bs[1..], min) && After(bs[1..], lo) && After(bs[1..], End(bs[0])) && DisjointFrom(b, bs[1..])
    ensures End(bs[0]) == b.addr ==> DisjointFrom(Block(bs[0].addr, bs[0].size + b.size), bs[1..])
  {
    forall i | 0 <= i < |bs[1..]|
      ensures Disjoint(b, bs[1..][i])
      ensures End(bs[0]) == b.addr ==> Disjoint(Block(bs[0].addr, bs[0].size + b.size), bs[1..][i])
    {
      assert bs[1..][i] == bs[i + 1] && Disjoint(b, bs[i + 1]);
    }
  }

  lemma {:induction false} InsertOrdered(bs: seq<Block>, b: Block, min: nat, lo: int)
    requires min > 0 && Ordered(bs, min) && b.size >= min && DisjointFrom(b, bs)
    requires After(bs, lo) && lo < b.addr
    ensures Ordered(Insert(bs, b), min) && After(Insert(bs, b), lo)
    decreases |bs|
  {
    hide Ordered, DisjointFrom;
    if bs == [] {
      OrderedCons(b, bs, min, lo);
      assert [b] + bs == [b];
    } else {
      TailFacts(bs, b, min, lo);
      if End(b) < bs[0].addr {
        OrderedCons(b, bs, min, lo);
      } else if End(b) == bs[0].addr {
        OrderedCons(Block(b.addr, b.size + bs[0].size), bs[1..], min, lo);
      } else if End(bs[0]) == b.addr {
        InsertOrdered(bs[1..], Block(bs[0].addr, bs[0].size + b.size), min, lo);
      } else {
        InsertOrdered(bs[1..], b, min, End(bs[0]));
        OrderedCons(bs[0], Insert(bs[1..], b), min, lo);
      }
    }
  }

  /** Freeing adds exactly the addresses of the freed block to the free ones. */
  lemma {:induction false} InsertCovers(bs: seq<Block>, b: Block, x: int)
    requires b.size >= 0 && forall i :: 0 <= i < |bs| ==> bs[i].size >= 0
    ensures Covers(Insert(bs, b), x) <==> Covers(bs, x) || In(x, b)
    decreases |bs|
  {
    if bs == [] {
      CoversOne(b, x);
    } else {
      assert bs == [bs[0]] + bs[1..];
      CoversAppend([bs[0]], bs[1..], x);
      CoversOne(bs[0], x);
      if End(b) < bs[0].addr {
        CoversAppend([b], bs, x);
        CoversOne(b, x);
      } else if End(b) == bs[0].addr {
        var c := Block(b.addr, b.size + bs[0].size);
        CoversAppend([c], bs[1..], x);
        CoversOne(c, x);
      } else if End(bs[0]) == b.addr {
        InsertCovers(bs[1..], Block(bs[0].addr, bs[0].size + b.size), x);
      } else {
        InsertCovers(bs[1..], b, x);
        CoversAppend([bs[0]], Insert(bs[1..], b), x);
      }
    }
  }

  /** No byte is lost or gained by merging. */
  lemma {:induction false} InsertTotal(bs: seq<Block>, b: Block)
    ensures Total(Insert(bs, b)) == Total(bs) + b.size
    decreases |bs|
  {
    if bs != [] && End(b) >= bs[0].addr {
      if End(b) != bs[0].addr && End(bs[0]) == b.addr {
        InsertTotal(bs[1..], Block(bs[0].addr, bs[0].size + b.size));
      } else if End(b) != bs[0].addr {
        InsertTotal(bs[1..], b);
      }
    }
  }

  // ---------------------------------------------------------------------------
  // Allocating.

  function Keep(b: Block, min: nat): seq<Block> {
    if b.size < min then [] else [b]
  }

  function Lose(b: Block, min: nat): seq<Block> {
    if 0 < b.size < min then [b] else []
  }

  function Front(b: Block, pre: int): Block {
    Block(b.addr, pre)
  }

  function Back(b: Block, pre: int, size: int): Block {
    Block(b.addr + pre + size, b.size - pre - size)
  }

  /** The list after cutting `size` bytes out of block i, `pre` bytes from its start. */
  function Carve(bs: seq<Block>, i: nat, pre: int, size: int, min: nat): seq<Block>
    requires i < |bs|
  {
    bs[..i] + (Keep(Front(bs[i], pre), min) + Keep(Back(bs[i], pre, size), min)) + bs[i + 1..]
  }

  /** The bytes too few to be kept as a block of their own. */
  function Leaked(b: Block, pre: int, size: int, min: nat): seq<Block> {
    Lose(Front(b, pre), min) + Lose(Back(b, pre, size), min)
  }

  predicate Fits(b: Block, pre: int, size: int) {
    pre >= 0 && size > 0 && pre + size <= b.size
  }

  lemma CarveOrdered(bs: seq<Block>, i: nat, pre: int, size: int, min: nat)
    requires min > 0 && Ordered(bs, min) && i < |bs| && Fits(bs[i], pre, size)
    ensures Ordered(Carve(bs, i, pre, size, min), min)
  {
    var mid := Keep(Front(bs[i], pre), min) + Keep(Back(bs[i], pre, size), min);
    var rs, d := Carve(bs, i, pre, size, min), |mid| - 1;
    forall k | 0 <= k < |rs|
      ensures rs[k].size >= min
      ensures k < i ==> rs[k] == bs[k]
      ensures i <= k < i + |mid| ==> rs[k] == mid[k - i] && bs[i].addr <= rs[k].addr && End(rs[k]) <= End(bs[i])
      ensures k >= i + |mid| ==> rs[k] == bs[k - d]
    {
    }
    forall k, m | 0 <= k < m < |rs|
      ensures End(rs[k]) < rs[m].addr
    {
    }
  }

  lemma SplitCovers(bs: seq<Block>, i: nat, mid: seq<Block>, x: int)
    requires i < |bs|
    ensures Covers(bs, x) <==> Covers(bs[..i], x) || In(x, bs[i]) || Covers(bs[i + 1..], x)
    ensures Covers(bs[..i] + mid + bs[i + 1..], x) <==> Covers(bs[..i], x) || Covers(mid, x) || Covers(bs[i + 1..], x)
  {
    hide In;
    assert bs == bs[..i] + [bs[i]] + bs[i + 1..];
    CoversAppend(bs[..i], [bs[i]], x);
    CoversAppend(bs[..i] + [bs[i]], bs[i + 1..], x);
    CoversOne(bs[i], x);
    CoversAppend(bs[..i], mid, x);
    CoversAppend(bs[..i] + mid, bs[i + 1..], x);
    hide Covers;
  }

  lemma PieceCovers(b: Block, min: nat, x: int)
    requires b.size >= 0
    ensures In(x, b) <==> Covers(Keep(b, min), x) || Covers(Lose(b, min), x)
    ensures Covers(Keep(b, min), x) ==> In(x, b)
  {
    CoversOne(b, x);
  }

  lemma PiecesCovers(b: Block, pre: int, size: int, min: nat, x: int)
    requires Fits(b, pre, size)
    ensures var p, f, r := Block(b.addr + pre, size), Front(b, pre), Back(b, pre, size);
            && (In(x, b) <==> Covers(Keep(f, min) + Keep(r, min), x) || In(x, p) || Covers(Leaked(b, pre, size, min), x))
            && !(Covers(Keep(f, min) + Keep(r, min), x) && In(x, p))
  {
    var f, r := Front(b, pre), Back(b, pre, size);
    PieceCovers(f, min, x);
    PieceCovers(r, min, x);
    CoversAppend(Keep(f, min), Keep(r, min), x);
    CoversAppend(Lose(f, min), Lose(r, min), x);
    hide Covers, Keep, Lose;
  }

  /** Every byte of the carved block is allocated, still free, or leaked, and an allocated byte is not free. */
  lemma CarveCovers(bs: seq<Block>, i: nat, pre: int, size: int, min: nat, x: int)
    requires Ordered(bs, min) && i < |bs| && Fits(bs[i], pre, size)
    ensures var p := Block(bs[i].addr + pre, size);
            && (Covers(bs, x) <==> Covers(Carve(bs, i, pre, size, min), x) || In(x, p) || Covers(Leaked(bs[i], pre, size, min), x))
            && !(Covers(Carve(bs, i, pre, size, min), x) && In(x, p))
  {
    var mid := Keep(Front(bs[i], pre), min) + Keep(Back(bs[i], pre, size), min);
    PiecesCovers(bs[i], pre, size, min, x);
    SplitCovers(bs, i, mid, x);
    if In(x, bs[i]) {
      OnlyOne(bs, min, i, x);
    }
    hide Covers, Leaked, Keep, Ordered;
  }

  lemma OnlyOne(bs: seq<Block>, min: nat, i: nat, x: int)
    requires Ordered(bs, min) && i < |bs| && In(x, bs[i])
    ensures !Covers(bs[..i], x) && !Covers(bs[i + 1..], x)
  {
  }

  lemma CarveTotal(bs: seq<Block>, i: nat, pre: int, size: int, min: nat)
    requires i < |bs| && Fits(bs[i], pre, size)
    ensures Total(bs) == Total(Carve(bs, i, pre, size, min)) + size + Total(Leaked(bs[i], pre, size, min))
  {
    var b, f, r := bs[i], Front(bs[i], pre), Back(bs[i], pre, size);
    assert bs == bs[..i] + [b] + bs[i + 1..];
    TotalAppend(bs[..i], [b]);
    TotalAppend(bs[..i] + [b], bs[i + 1..]);
    TotalAppend(Keep(f, min), Keep(r, min));
    TotalAppend(Lose(f, min), Lose(r, min));
    TotalAppend(bs[..i], Keep(f, min) + Keep(r, min));
    TotalAppend(bs[..i] + (Keep(f, min) + Keep(r, min)), bs[i + 1..]);
    KeepLose(f, min);
    KeepLose(r, min);
    TotalOne(b);
    hide Total, Keep, Lose;
  }

  lemma TotalOne(b: Block)
    ensures Total([b]) == b.size
  {
  }

  lemma KeepLose(b: Block, min: nat)
    requires b.size >= 0
    ensures Total(Keep(b, min)) + Total(Lose(b, min)) == b.size
  {
  }

  // ---------------------------------------------------------------------------
  // A list that covers an interval is that interval.

  lemma WholeInterval(bs: seq<Block>, min: nat, lo: int, hi: int)
    requires min > 0 && Ordered(bs, min) && lo < hi
    requires forall x :: Covers(bs, x) <==> lo <= x < hi
    ensures bs == [Block(lo, hi - lo)]
  {
    assert Covers(bs, lo);
    var i :| 0 <= i < |bs| && In(lo, bs[i]);
    if i > 0 {
      assert In(bs[0].addr, bs[0]) && Covers(bs, bs[0].addr);
    }
    GapNotCovered(bs, min, 0);
    if |bs| > 1 {
      assert In(bs[1].addr, bs[1]) && Covers(bs, bs[1].addr);
    }
    GapNotCovered(bs, min, 0);
    assert In(End(bs[0]) - 1, bs[0]) && Covers(bs, End(bs[0]) - 1);
    assert In(bs[0].addr, bs[0]) && Covers(bs, bs[0].addr);
  }

  /** The address just past a free block is never free. */
  lemma GapNotCovered(bs: seq<Block>, min: nat, i: nat)
    requires min > 0 && Ordered(bs, min) && i < |bs|
    ensures !Covers(bs, End(bs[i]))
  {
  }
}
