/** The allocator object over whole runs of requests, with cached blocks discarded on demand. */
module HeapDriver {
  import opened Bits
  import opened HeapSpec
  import opened HeapLedger
  import opened HeapRun
  import opened Malloc
  import opened Wrappers

  /** A request to the allocator, or an allocated block being offered to the discarders. */
  datatype Request =
    | Do(op: Op)
    | Offer(k: nat)

  /** The ledger and the blocks that can be discarded, cheapest first. */
  datatype Store = Store(ledger: Ledger, cached: seq<Block>)

  /** How many cached blocks must go before the request fits: all of them if it never does. */
  function Needed(cfg: Config, s: Store, size: int, modulus: nat, offset: int, from: nat): (n: nat)
    requires modulus > 0 && from <= |s.cached|
    ensures from <= n <= |s.cached|
    ensures forall j :: from <= j < n ==> FirstFit(cfg, Shed(s.ledger, s.cached, j).free, size, modulus, offset, 0).None?
    ensures n < |s.cached| ==> FirstFit(cfg, Shed(s.ledger, s.cached, n).free, size, modulus, offset, 0).Some?
    decreases |s.cached| - from
  {
    if from == |s.cached| || FirstFit(cfg, Shed(s.ledger, s.cached, from).free, size, modulus, offset, 0).Some? then from
    else Needed(cfg, s, size, modulus, offset, from + 1)
  }

  ghost predicate Allowed(cfg: Config, s: Store, r: Request) {
    match r
    case Do(op) => Legal(cfg, s.ledger, op) && (op.Free? ==> s.ledger.live[op.k] !in s.cached)
    case Offer(k) => k < |s.ledger.live| && s.ledger.live[k] !in s.cached
  }

  /** The number of cached blocks discarded by a request: an allocation discards what it needs. */
  ghost function Discards(cfg: Config, s: Store, r: Request): (n: nat)
    ensures n <= |s.cached|
  {
    if r.Do? && r.op.Alloc? then
      Needed(cfg, s, RoundUp(cfg, r.op.size), Modulus(cfg, r.op.alignBits), r.op.offset, 0)
    else 0
  }

  /** The store after a request. */
  ghost function Serve(cfg: Config, s: Store, r: Request): Store
    requires Allowed(cfg, s, r)
  {
    match r
    case Do(op) =>
      var n := Discards(cfg, s, r);
      Store(Apply(cfg, Shed(s.ledger, s.cached, n), op), s.cached[n..])
    case Offer(k) => Store(s.ledger, s.cached + [s.ledger.live[k]])
  }

  ghost predicate AllAllowed(cfg: Config, s: Store, rs: seq<Request>)
    decreases |rs|
  {
    rs == [] || (Allowed(cfg, s, rs[0]) && AllAllowed(cfg, Serve(cfg, s, rs[0]), rs[1..]))
  }

  ghost function ServeAll(cfg: Config, s: Store, rs: seq<Request>): Store
    requires AllAllowed(cfg, s, rs)
    decreases |rs|
  {
    if rs == [] then s else ServeAll(cfg, Serve(cfg, s, rs[0]), rs[1..])
  }

  // ---------------------------------------------------------------------------
  // Discarding is freeing: whatever is requested, the ledger goes through a legal run.

  /** The frees by which the first n cached blocks are given back. */
  ghost function DiscardOps(l: Ledger, cs: seq<Block>, n: nat): seq<Op>
    requires n <= |cs|
  {
    if n == 0 then []
    else
      var m := Shed(l, cs, n - 1);
      DiscardOps(l, cs, n - 1) + if cs[n - 1] in m.live then [Free(IndexOf(m.live, cs[n - 1]))] else []
  }

  ghost function OpsOf(cfg: Config, s: Store, r: Request): seq<Op> {
    DiscardOps(s.ledger, s.cached, Discards(cfg, s, r)) + if r.Do? then [r.op] else []
  }

  ghost function Trace(cfg: Config, s: Store, rs: seq<Request>): seq<Op>
    requires AllAllowed(cfg, s, rs)
    decreases |rs|
  {
    if rs == [] then [] else OpsOf(cfg, s, rs[0]) + Trace(cfg, Serve(cfg, s, rs[0]), rs[1..])
  }

  lemma {:induction false} RunAppend(cfg: Config, l: Ledger, a: seq<Op>, b: seq<Op>)
    requires LegalRun(cfg, l, a) && LegalRun(cfg, Run(cfg, l, a), b)
    ensures LegalRun(cfg, l, a + b) && Run(cfg, l, a + b) == Run(cfg, Run(cfg, l, a), b)
    decreases |a|
  {
    hide Legal, Apply;
    if a == [] {
      assert a + b == b;
    } else {
      RunAppend(cfg, Apply(cfg, l, a[0]), a[1..], b);
      assert (a + b)[0] == a[0] && (a + b)[1..] == a[1..] + b;
    }
  }

  lemma RunOne(cfg: Config, l: Ledger, op: Op)
    requires Legal(cfg, l, op)
    ensures LegalRun(cfg, l, [op]) && Run(cfg, l, [op]) == Apply(cfg, l, op)
  {
    hide Legal, Apply;
    assert [op][1..] == [];
  }

  lemma {:induction false} ShedRuns(cfg: Config, l: Ledger, cs: seq<Block>, n: nat)
    requires n <= |cs|
    ensures LegalRun(cfg, l, DiscardOps(l, cs, n)) && Run(cfg, l, DiscardOps(l, cs, n)) == Shed(l, cs, n)
  {
    hide LegalRun, Run, Freed;
    if n == 0 {
      RunNone(cfg, l);
    } else {
      ShedRuns(cfg, l, cs, n - 1);
      var m, ops := Shed(l, cs, n - 1), DiscardOps(l, cs, n - 1);
      if cs[n - 1] in m.live {
        var op := Free(IndexOf(m.live, cs[n - 1]));
        RunOne(cfg, m, op);
        RunAppend(cfg, l, ops, [op]);
      } else {
        assert ops + [] == ops;
      }
    }
  }

  lemma RunNone(cfg: Config, l: Ledger)
    ensures LegalRun(cfg, l, []) && Run(cfg, l, []) == l
  {
  }

  lemma ServeRuns(cfg: Config, s: Store, r: Request)
    requires Allowed(cfg, s, r)
    ensures LegalRun(cfg, s.ledger, OpsOf(cfg, s, r)) && Run(cfg, s.ledger, OpsOf(cfg, s, r)) == Serve(cfg, s, r).ledger
  {
    hide LegalRun, Run, Needed, FirstFit, RoundUp, Modulus, Apply;
    var n := Discards(cfg, s, r);
    ShedRuns(cfg, s.ledger, s.cached, n);
    var shed := Shed(s.ledger, s.cached, n);
    if r.Do? {
      RunOne(cfg, shed, r.op);
      RunAppend(cfg, s.ledger, DiscardOps(s.ledger, s.cached, n), [r.op]);
    } else {
      assert OpsOf(cfg, s, r) == DiscardOps(s.ledger, s.cached, n);
    }
  }

  /**
   Every sequence of requests takes the ledger through a legal run, in which an allocation
   that does not fit is preceded by frees of cached blocks.  All that holds of runs holds here.
   */
  lemma {:induction false} ServeAllRuns(cfg: Config, s: Store, rs: seq<Request>)
    requires AllAllowed(cfg, s, rs)
    ensures LegalRun(cfg, s.ledger, Trace(cfg, s, rs))
    ensures Run(cfg, s.ledger, Trace(cfg, s, rs)) == ServeAll(cfg, s, rs).ledger
    decreases |rs|
  {
    hide LegalRun, Run, OpsOf, Serve, Allowed;
    if rs == [] {
      RunNone(cfg, s.ledger);
    } else {
      var next := Serve(cfg, s, rs[0]);
      ServeRuns(cfg, s, rs[0]);
      ServeAllRuns(cfg, next, rs[1..]);
      RunAppend(cfg, s.ledger, OpsOf(cfg, s, rs[0]), Trace(cfg, next, rs[1..]));
    }
  }

  // ---------------------------------------------------------------------------
  // What the pool is made of.

  /** The request adds address x to the pool. */
  predicate Populates(cfg: Config, r: Request, x: int) {
    r.Do? && r.op.Populate? && r.op.addr <= x < r.op.addr + r.op.len - r.op.len % Min(cfg)
  }

  lemma {:induction false} ShedPool(l: Ledger, cs: seq<Block>, n: nat)
    requires n <= |cs|
    ensures Shed(l, cs, n).pool == l.pool
  {
    hide Insert;
    if n > 0 {
      ShedPool(l, cs, n - 1);
    }
  }

  lemma AllocPool(cfg: Config, l: Ledger, size: nat, alignBits: nat, offset: int)
    requires size > 0
    ensures Apply(cfg, l, Alloc(size, alignBits, offset)).pool == l.pool
  {
    hide Carve, Leaked, FirstFit, PreSize, RoundUp, Modulus;
  }

  lemma ServePool(cfg: Config, s: Store, r: Request, x: int)
    requires Allowed(cfg, s, r)
    ensures Covers(Serve(cfg, s, r).ledger.pool, x) <==> Covers(s.ledger.pool, x) || Populates(cfg, r, x)
  {
    hide Needed, FirstFit, RoundUp, Modulus, Apply, Covers, Min, Shed;
    if r.Do? {
      var n := Discards(cfg, s, r);
      ShedPool(s.ledger, s.cached, n);
      var shed := Shed(s.ledger, s.cached, n);
      match r.op
      case Alloc(size, alignBits, offset) => AllocPool(cfg, shed, size, alignBits, offset);
      case Free(k) =>
        ShedNone(s.ledger, s.cached);
        FreePool(cfg, shed, k);
      case Populate(addr, len) =>
        ShedNone(s.ledger, s.cached);
        PopulatePool(cfg, shed, addr, len, x);
    }
  }

  lemma FreePool(cfg: Config, l: Ledger, k: nat)
    requires k < |l.live|
    ensures Apply(cfg, l, Free(k)).pool == l.pool
  {
    hide Insert;
  }

  lemma {:induction false} ServeAllPool(cfg: Config, s: Store, rs: seq<Request>, x: int)
    requires AllAllowed(cfg, s, rs)
    ensures Covers(ServeAll(cfg, s, rs).ledger.pool, x) <==>
            Covers(s.ledger.pool, x) || exists i :: 0 <= i < |rs| && Populates(cfg, rs[i], x)
    decreases |rs|
  {
    hide Serve, Allowed, Covers, Populates;
    if rs != [] {
      ServePool(cfg, s, rs[0], x);
      ServeAllPool(cfg, Serve(cfg, s, rs[0]), rs[1..], x);
      if i :| 0 <= i < |rs[1..]| && Populates(cfg, rs[1..][i], x) {
        assert Populates(cfg, rs[i + 1], x);
      }
      if i :| 0 < i < |rs| && Populates(cfg, rs[i], x) {
        assert Populates(cfg, rs[1..][i - 1], x);
      }
    }
  }

  // ---------------------------------------------------------------------------
  // The object.

  /** Requests below half the address space, and regions within the heap's half of it. */
  ghost predicate Modest(heap: Heap, r: Request) {
    r.Do? ==>
      match r.op
      case Alloc(size, alignBits, _) => RoundUp(heap.cfg, size) + Modulus(heap.cfg, alignBits) <= heap.space / 2
      case Free(_) => true
      case Populate(addr, len) => InRange(Block(addr, RoundDown(heap.cfg, len)), heap.base, heap.base + heap.space / 2)
  }

  /** An address returned is congruent to the offset asked for. */
  predicate Congruent(heap: Heap, r: Request, result: Option<int>) {
    r.Do? && r.op.Alloc? && result.Some? ==>
      Pow2(r.op.alignBits) > 0 && (result.value + heap.cfg.phys - r.op.offset) % Pow2(r.op.alignBits) == 0
  }

  ghost function Held(heap: Heap): Store
    reads heap
  {
    Store(heap.ledger, heap.cached)
  }

  /** The allocated blocks once the first n of the cached ones have been given back. */
  function ShedLive(live: seq<Block>, cs: seq<Block>, n: nat): seq<Block>
    requires n <= |cs|
  {
    if n == 0 then live
    else
      var m := ShedLive(live, cs, n - 1);
      if cs[n - 1] in m then Without(m, IndexOf(m, cs[n - 1])) else m
  }

  lemma {:induction false} ShedLiveIs(l: Ledger, cs: seq<Block>, n: nat)
    requires n <= |cs|
    ensures Shed(l, cs, n).live == ShedLive(l.live, cs, n)
  {
    hide Insert;
    if n > 0 {
      ShedLiveIs(l, cs, n - 1);
    }
  }

  /**
   Carries out a sequence of requests: the object goes through exactly the specified stores,
   and every address returned is congruent to the offset asked for.
   */
  method Perform(heap: Heap, rs: seq<Request>, live0: seq<Block>) returns (live: seq<Block>, results: seq<Option<int>>)
    requires heap.Valid() && live0 == heap.ledger.live && AllAllowed(heap.cfg, Held(heap), rs)
    requires forall i :: 0 <= i < |rs| ==> Modest(heap, rs[i])
    modifies heap
    ensures heap.Valid() && live == heap.ledger.live && Held(heap) == old(ServeAll(heap.cfg, Held(heap), rs))
    ensures |results| == |rs| && forall i :: 0 <= i < |rs| ==> Congruent(heap, rs[i], results[i])
    ensures forall x :: Covers(heap.ledger.pool, x) <==>
                        old(Covers(heap.ledger.pool, x)) || exists i :: 0 <= i < |rs| && Populates(heap.cfg, rs[i], x)
  {
    hide Serve, Allowed, Heap.Valid, Modest, Congruent, Covers, Populates;
    forall x
      ensures Covers(ServeAll(heap.cfg, Held(heap), rs).ledger.pool, x) <==>
              Covers(heap.ledger.pool, x) || exists i :: 0 <= i < |rs| && Populates(heap.cfg, rs[i], x)
    {
      ServeAllPool(heap.cfg, Held(heap), rs, x);
    }
    live, results := live0, [];
    var i := 0;
    assert rs[0..] == rs;
    while i < |rs|
      invariant 0 <= i <= |rs| && heap.Valid() && live == heap.ledger.live && AllAllowed(heap.cfg, Held(heap), rs[i..])
      invariant ServeAll(heap.cfg, Held(heap), rs[i..]) == old(ServeAll(heap.cfg, Held(heap), rs))
      invariant |results| == i && forall k :: 0 <= k < i ==> Congruent(heap, rs[k], results[k])
    {
      assert rs[i..][0] == rs[i] && rs[i..][1..] == rs[i + 1..];
      var result;
      live, result := PerformOne(heap, rs[i], live);
      results := results + [result];
      i := i + 1;
    }
  }

  method PerformOne(heap: Heap, r: Request, live0: seq<Block>) returns (live: seq<Block>, result: Option<int>)
    requires heap.Valid() && live0 == heap.ledger.live && Allowed(heap.cfg, Held(heap), r) && Modest(heap, r)
    modifies heap
    ensures heap.Valid() && live == heap.ledger.live && Held(heap) == old(Serve(heap.cfg, Held(heap), r))
    ensures Congruent(heap, r, result)
  {
    hide FirstFit, Insert, Min, RoundUp, RoundDown, Modulus, Good, Apply, Shed, Needed;
    match r {
      case Do(Alloc(size, alignBits, offset)) =>
        live, result := Allocate(heap, size, alignBits, offset, live0);
      case Do(Free(k)) =>
        ghost var l := heap.ledger;
        heap.LiveIsLoose(l, k);
        heap.Free(live0[k].addr, live0[k].size, k);
        live, result := Without(live0, k), None;
        FreeLive(heap.cfg, l, k);
        ShedNone(l, heap.cached);
      case Do(Populate(addr, len)) =>
        ghost var l := heap.ledger;
        heap.Mpopulate(addr, len);
        live, result := live0, None;
        PopulateLive(heap.cfg, l, addr, len);
        ShedNone(l, heap.cached);
      case Offer(k) =>
        heap.Cache(live0[k]);
        live, result := live0, None;
    }
  }

  lemma FreeLive(cfg: Config, l: Ledger, k: nat)
    requires k < |l.live|
    ensures Apply(cfg, l, Free(k)).live == Without(l.live, k)
  {
    hide Insert;
  }

  lemma PopulateLive(cfg: Config, l: Ledger, addr: int, len: nat)
    requires Legal(cfg, l, Populate(addr, len))
    ensures Apply(cfg, l, Populate(addr, len)).live == l.live
  {
    hide Insert;
  }

  lemma AllocLive(cfg: Config, l: Ledger, size: nat, alignBits: nat, offset: int)
    requires size > 0
    ensures var fit := FirstFit(cfg, l.free, RoundUp(cfg, size), Modulus(cfg, alignBits), offset, 0);
            |Apply(cfg, l, Alloc(size, alignBits, offset)).live| == |l.live| + (if fit.Some? then 1 else 0)
  {
    hide Carve, Leaked, FirstFit, PreSize, RoundUp, Modulus;
  }

  /** Allocates, and forgets the blocks that were discarded on the way. */
  method Allocate(heap: Heap, size: nat, alignBits: nat, offset: int, live0: seq<Block>)
    returns (live: seq<Block>, result: Option<int>)
    requires heap.Valid() && live0 == heap.ledger.live && size > 0
    requires RoundUp(heap.cfg, size) + Modulus(heap.cfg, alignBits) <= heap.space / 2
    modifies heap
    ensures heap.Valid() && live == heap.ledger.live
    ensures Held(heap) == old(Serve(heap.cfg, Held(heap), Do(Alloc(size, alignBits, offset))))
    ensures Congruent(heap, Do(Alloc(size, alignBits, offset)), result)
  {
    hide FirstFit, Insert, Min, RoundUp, Modulus, Good, Apply, Shed, Heap.Valid, ShedLive;
    ghost var s, m, rounded := Held(heap), Modulus(heap.cfg, alignBits), RoundUp(heap.cfg, size);
    var cached := heap.cached;
    ghost var n;
    result, n := heap.AllocMemblock(size, alignBits, offset);
    var discarded := |cached| - |heap.cached|;
    assert discarded == n;
    ShedLiveIs(s.ledger, cached, n);
    live := ShedLive(live0, cached, discarded);
    ghost var shed := Shed(s.ledger, cached, n);
    AllocLive(heap.cfg, shed, size, alignBits, offset);
    NeededIs(heap.cfg, s, rounded, m, offset, 0, n);
    if result.Some? {
      live := live + [Block(result.value, RoundUp(heap.cfg, size))];
    }
  }

  lemma {:induction false} NeededIs(cfg: Config, s: Store, size: int, modulus: nat, offset: int, from: nat, n: nat)
    requires modulus > 0 && from <= n <= |s.cached|
    requires forall j :: from <= j < n ==> FirstFit(cfg, Shed(s.ledger, s.cached, j).free, size, modulus, offset, 0).None?
    requires n < |s.cached| ==> FirstFit(cfg, Shed(s.ledger, s.cached, n).free, size, modulus, offset, 0).Some?
    ensures Needed(cfg, s, size, modulus, offset, from) == n
    decreases n - from
  {
    hide FirstFit, Shed;
    if from < n {
      NeededIs(cfg, s, size, modulus, offset, from + 1, n);
    }
  }
}
