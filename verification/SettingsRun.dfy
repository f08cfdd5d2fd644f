/** Runs of registering settings blocks and storing settings. */
module SettingsRun {
  import opened SettingsSpec
  import opened Wrappers

  // ---------------------------------------------------------------------------
  // Sibling names.

  predicate DistinctNames(ts: seq<Block>) {
    forall i, j :: 0 <= i < j < |ts| ==> ts[i].name != ts[j].name
  }

  /** No two siblings anywhere have the same name. */
  predicate Named(t: Block) {
    DistinctNames(t.kids) && forall k :: 0 <= k < |t.kids| ==> Named(t.kids[k])
  }

  lemma NamedKids(t: Block)
    requires DistinctNames(t.kids) && forall k :: 0 <= k < |t.kids| ==> Named(t.kids[k])
    ensures Named(t)
  {
  }

  lemma PlaceNames(ts: seq<Block>, i: nat, c: Block)
    requires i < |ts| && DistinctNames(ts) && c.name == ts[i].name
    ensures DistinctNames(Place(RemoveAt(ts, i), c))
  {
    var rest := RemoveAt(ts, i);
    assert forall m :: 0 <= m < |rest| ==> rest[m] == ts[if m < i then m else m + 1];
    assert DistinctNames(rest);
    assert forall m :: 0 <= m < |rest| ==> rest[m].name != c.name;
    InsertNames(rest, PlaceIndex(rest, Priority(c)), c);
  }

  lemma InsertNames(ts: seq<Block>, k: nat, c: Block)
    requires k <= |ts| && DistinctNames(ts) && forall m :: 0 <= m < |ts| ==> ts[m].name != c.name
    ensures DistinctNames(InsertAt(ts, k, c))
  {
    var rs := InsertAt(ts, k, c);
    forall m | 0 <= m < |rs|
      ensures rs[m] == if m < k then ts[m] else if m == k then c else ts[m - 1]
    {
    }
  }

  lemma {:induction false} RepairNamed(t: Block, p: seq<nat>)
    requires IsPath(t, p) && Named(t)
    ensures Named(Repair(t, p)) && Repair(t, p).name == t.name && Repair(t, p).id == t.id
    decreases |p|
  {
    if p != [] {
      RepairNamed(t.kids[p[0]], p[1..]);
      var rest, c := RemoveAt(t.kids, p[0]), Repair(t.kids[p[0]], p[1..]);
      PlaceNames(t.kids, p[0], c);
      var r := t.(kids := Place(rest, c));
      hide DistinctNames, Priority;
      forall k | 0 <= k < |r.kids|
        ensures Named(r.kids[k])
      {
        PlacedFrom(t.kids, p[0], c, k);
      }
      NamedKids(r);
    }
  }

  lemma {:induction false} ReplaceNamed(t: Block, p: seq<nat>, s: Block)
    requires IsPath(t, p) && Named(t) && Named(s) && s.name == At(t, p).name
    ensures Named(Replace(t, p, s)) && Replace(t, p, s).name == t.name
    decreases |p|
  {
    if p != [] {
      ReplaceNamed(t.kids[p[0]], p[1..], s);
    }
  }

  // ---------------------------------------------------------------------------
  // Operations.

  function Stored(t: Block, key: string, value: Option<int>): Block {
    t.(values := if value.Some? then t.values[key := value.value] else t.values - {key})
  }

  /** Stores or deletes a setting of the block at position p. */
  function Store(t: Block, p: seq<nat>, key: string, value: Option<int>): Block
    requires IsPath(t, p)
  {
    var r := Replace(t, p, Stored(At(t, p), key, value));
    if key == PRIORITY then
      StoredPath(t, p, key, value);
      Repair(r, p)
    else r
  }

  lemma StoredPath(t: Block, p: seq<nat>, key: string, value: Option<int>)
    requires IsPath(t, p)
    ensures IsPath(Replace(t, p, Stored(At(t, p), key, value)), p)
  {
    ReplacePath(t, p, Stored(At(t, p), key, value), []);
    assert p + [] == p;
  }

  /** The child of that name, or the number of children. */
  function NameIndex(ts: seq<Block>, name: string): (k: nat)
    ensures k <= |ts| && (k < |ts| ==> ts[k].name == name)
    ensures forall j :: 0 <= j < k ==> ts[j].name != name
  {
    if ts == [] || ts[0].name == name then 0
    else
      var k := NameIndex(ts[1..], name);
      assert forall j :: 0 < j <= k ==> j < |ts| ==> ts[j] == ts[1..][j - 1];
      k + 1
  }

  /** The children once any of that name has been unregistered. */
  function Evicted(ts: seq<Block>, name: string): seq<Block> {
    var k := NameIndex(ts, name);
    if k < |ts| then RemoveAt(ts, k) else ts
  }

  function Adopted(t: Block, s: Block): Block {
    t.(kids := Evicted(t.kids, s.name) + [s])
  }

  function LastKid(t: Block, s: Block): seq<nat> {
    [|Evicted(t.kids, s.name)|]
  }

  /** Registers block s as a child of the block at position p, replacing any of the same name. */
  function Register(t: Block, p: seq<nat>, s: Block): Block
    requires IsPath(t, p)
  {
    var parent := At(t, p);
    ReplacePath(t, p, Adopted(parent, s), LastKid(parent, s));
    Repair(Replace(t, p, Adopted(parent, s)), p + LastKid(parent, s))
  }

  // ---------------------------------------------------------------------------
  // What the operations keep.

  lemma {:induction false} AtOrdered(t: Block, p: seq<nat>)
    requires IsPath(t, p) && Ordered(t)
    ensures Ordered(At(t, p))
    decreases |p|
  {
    if p != [] {
      AtOrdered(t.kids[p[0]], p[1..]);
    }
  }

  lemma {:induction false} AtNamed(t: Block, p: seq<nat>)
    requires IsPath(t, p) && Named(t)
    ensures Named(At(t, p))
    decreases |p|
  {
    if p != [] {
      AtNamed(t.kids[p[0]], p[1..]);
    }
  }

  lemma AdoptedNearly(t: Block, s: Block)
    requires Ordered(t) && Ordered(s)
    ensures IsPath(Adopted(t, s), LastKid(t, s)) && NearlyOrdered(Adopted(t, s), LastKid(t, s))
  {
    hide Found;
    var kids := Evicted(t.kids, s.name);
    var k := NameIndex(t.kids, s.name);
    if k < |t.kids| {
      RemoveSorted(t.kids, k);
      assert forall m :: 0 <= m < |kids| ==> kids[m] == t.kids[if m < k then m else m + 1];
    }
    assert RemoveAt(kids + [s], |kids|) == kids;
    assert LastKid(t, s)[1..] == [];
  }

  lemma AdoptedNamed(t: Block, s: Block)
    requires Named(t) && Named(s)
    ensures Named(Adopted(t, s))
  {
    var kids := Evicted(t.kids, s.name);
    var k := NameIndex(t.kids, s.name);
    if k < |t.kids| {
      assert forall m :: 0 <= m < |kids| ==> kids[m] == t.kids[if m < k then m else m + 1];
    }
    NamedKids(Adopted(t, s));
  }

  lemma RegisterOrdered(t: Block, p: seq<nat>, s: Block)
    requires IsPath(t, p) && Ordered(t) && Ordered(s) && Named(t) && Named(s)
    ensures Ordered(Register(t, p, s)) && Named(Register(t, p, s))
  {
    var parent := At(t, p);
    AtOrdered(t, p);
    AtNamed(t, p);
    AdoptedNearly(parent, s);
    AdoptedNamed(parent, s);
    ReplaceNearly(t, p, Adopted(parent, s), LastKid(parent, s));
    ReplaceNamed(t, p, Adopted(parent, s));
    RepairOrdered(Replace(t, p, Adopted(parent, s)), p + LastKid(parent, s));
    RepairNamed(Replace(t, p, Adopted(parent, s)), p + LastKid(parent, s));
  }

  /** A change that leaves the priority found as it was leaves the order as it was. */
  lemma {:induction false} ReplaceKeeps(t: Block, p: seq<nat>, s: Block)
    requires IsPath(t, p) && Ordered(t) && Ordered(s) && Found(s, PRIORITY) == Found(At(t, p), PRIORITY)
    ensures Ordered(Replace(t, p, s)) && Found(Replace(t, p, s), PRIORITY) == Found(t, PRIORITY)
    decreases |p|
  {
    if p != [] {
      var i, c := p[0], Replace(t.kids[p[0]], p[1..], s);
      ReplaceKeeps(t.kids[i], p[1..], s);
      FirstFoundUpdate(t.kids, i, c, PRIORITY);
    }
  }

  lemma {:induction false} FirstFoundUpdate(ts: seq<Block>, i: nat, c: Block, key: string)
    requires i < |ts| && Found(c, key) == Found(ts[i], key)
    ensures FirstFound(ts[i := c], key) == FirstFound(ts, key)
    decreases i
  {
    if i > 0 {
      FirstFoundUpdate(ts[1..], i - 1, c, key);
      assert ts[i := c][1..] == ts[1..][i - 1 := c];
    } else {
      assert ts[i := c][1..] == ts[1..];
    }
  }

  lemma StoreOrdered(t: Block, p: seq<nat>, key: string, value: Option<int>)
    requires IsPath(t, p) && Ordered(t) && Named(t)
    ensures Ordered(Store(t, p, key, value)) && Named(Store(t, p, key, value))
  {
    var s := Stored(At(t, p), key, value);
    AtOrdered(t, p);
    AtNamed(t, p);
    NamedKids(s);
    OrderedKids(s);
    ReplaceNamed(t, p, s);
    StoredPath(t, p, key, value);
    if key == PRIORITY {
      ReplaceNearly(t, p, s, []);
      assert p + [] == p;
      RepairOrdered(Replace(t, p, s), p);
      RepairNamed(Replace(t, p, s), p);
    } else {
      ReplaceKeeps(t, p, s);
    }
  }

  // ---------------------------------------------------------------------------
  // Runs.

  datatype Op =
    | StoreOp(path: seq<nat>, key: string, value: Option<int>)
    | RegisterOp(path: seq<nat>, block: Block)

  /** A block is named and in order within itself when it is registered. */
  predicate Legal(t: Block, op: Op) {
    IsPath(t, op.path) && (op.RegisterOp? ==> op.block.name != "" && Ordered(op.block) && Named(op.block))
  }

  function Apply(t: Block, op: Op): Block
    requires Legal(t, op)
  {
    match op
    case StoreOp(p, key, value) => Store(t, p, key, value)
    case RegisterOp(p, s) => Register(t, p, s)
  }

  predicate LegalRun(t: Block, ops: seq<Op>)
    decreases |ops|
  {
    ops == [] || (Legal(t, ops[0]) && LegalRun(Apply(t, ops[0]), ops[1..]))
  }

  function Run(t: Block, ops: seq<Op>): Block
    requires LegalRun(t, ops)
    decreases |ops|
  {
    if ops == [] then t else Run(Apply(t, ops[0]), ops[1..])
  }

  /** In every run, every sibling list stays in order of priority, without repeated names. */
  lemma {:induction false} RunOrdered(t: Block, ops: seq<Op>)
    requires Ordered(t) && Named(t) && LegalRun(t, ops)
    ensures Ordered(Run(t, ops)) && Named(Run(t, ops))
    decreases |ops|
  {
    hide Ordered, Named, Store, Register;
    if ops != [] {
      match ops[0] {
        case StoreOp(p, key, value) => StoreOrdered(t, p, key, value);
        case RegisterOp(p, s) => RegisterOrdered(t, p, s);
      }
      RunOrdered(Apply(t, ops[0]), ops[1..]);
    }
  }
}
