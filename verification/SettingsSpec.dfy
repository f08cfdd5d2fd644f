/**
 The tree of settings blocks as a value.  Siblings are kept in order of a priority that is
 itself a setting, looked for in the whole subtree.
 */
module SettingsSpec {
  import opened Wrappers

  /** A settings block; a block that cannot fetch hides its children too. */
  datatype Block = Block(id: nat, name: string, fetches: bool, values: map<string, int>, kids: seq<Block>)

  const PRIORITY := "priority"

  // ---------------------------------------------------------------------------
  // Fetching.

  /** The value in this block, else the first found in its children in their order. */
  function Found(t: Block, key: string): Option<int> {
    if !t.fetches then None
    else if key in t.values then Some(t.values[key])
    else FirstFound(t.kids, key)
  }

  function FirstFound(ts: seq<Block>, key: string): Option<int> {
    if ts == [] then None
    else if Found(ts[0], key).Some? then Found(ts[0], key)
    else FirstFound(ts[1..], key)
  }

  function Priority(t: Block): int {
    if Found(t, PRIORITY).Some? then Found(t, PRIORITY).value else 0
  }

  /** The priority is the setting of that name, wherever in the subtree it is found, and otherwise zero. */
  lemma DefaultPriority(t: Block)
    ensures Found(t, "priority") == None ==> Priority(t) == 0
    ensures Found(t, "priority") != None ==> Found(t, "priority") == Some(Priority(t))
  {
  }

  // ---------------------------------------------------------------------------
  // Order.

  predicate Sorted(ts: seq<Block>) {
    forall i, j :: 0 <= i < j < |ts| ==> Priority(ts[i]) >= Priority(ts[j])
  }

  /** Every sibling list in the tree is in order. */
  predicate Ordered(t: Block) {
    Sorted(t.kids) && forall k :: 0 <= k < |t.kids| ==> Ordered(t.kids[k])
  }

  /** The children in which the search for a setting ends have the highest priority of those that have it. */
  lemma FetchHighest(t: Block, key: string)
    requires Ordered(t) && t.fetches && key !in t.values && Found(t, key).Some?
    ensures exists k :: 0 <= k < |t.kids| && Found(t.kids[k], key) == Found(t, key)
                        && forall j :: 0 <= j < |t.kids| && Found(t.kids[j], key).Some? ==> Priority(t.kids[j]) <= Priority(t.kids[k])
  {
    var k := FirstIndex(t.kids, key);
    assert Found(t.kids[k], key) == Found(t, key);
    forall j | 0 <= j < |t.kids| && Found(t.kids[j], key).Some?
      ensures Priority(t.kids[j]) <= Priority(t.kids[k])
    {
    }
  }

  lemma {:induction false} FirstIndex(ts: seq<Block>, key: string) returns (k: nat)
    requires FirstFound(ts, key).Some?
    ensures k < |ts| && Found(ts[k], key) == FirstFound(ts, key)
    ensures forall j :: 0 <= j < k ==> Found(ts[j], key).None?
  {
    if Found(ts[0], key).Some? {
      k := 0;
    } else {
      var i := FirstIndex(ts[1..], key);
      k := i + 1;
      forall j | 0 <= j < k
        ensures Found(ts[j], key).None?
      {
        if j > 0 {
          assert ts[j] == ts[1..][j - 1];
        }
      }
    }
  }

  // ---------------------------------------------------------------------------
  // Placing a block among its siblings.

  /** Before the first block of lower priority: after all others of the same priority. */
  function PlaceIndex(ts: seq<Block>, priority: int): (k: nat)
    ensures k <= |ts| && (k < |ts| ==> priority > Priority(ts[k]))
    ensures forall j :: 0 <= j < k ==> priority <= Priority(ts[j])
  {
    if ts == [] || priority > Priority(ts[0]) then 0
    else
      var k := PlaceIndex(ts[1..], priority);
      assert forall j :: 0 < j <= k ==> ts[j] == ts[1..][j - 1];
      k + 1
  }

  function InsertAt(ts: seq<Block>, k: nat, t: Block): seq<Block>
    requires k <= |ts|
  {
    ts[..k] + [t] + ts[k..]
  }

  function RemoveAt(ts: seq<Block>, k: nat): seq<Block>
    requires k < |ts|
  {
    ts[..k] + ts[k + 1..]
  }

  function Place(ts: seq<Block>, t: Block): seq<Block> {
    InsertAt(ts, PlaceIndex(ts, Priority(t)), t)
  }

  lemma PlaceSorted(ts: seq<Block>, t: Block)
    requires Sorted(ts)
    ensures Sorted(Place(ts, t))
  {
    hide Found;
    var k := PlaceIndex(ts, Priority(t));
    var rs := Place(ts, t);
    forall i, j | 0 <= i < j < |rs|
      ensures Priority(rs[i]) >= Priority(rs[j])
    {
      if j > k && i <= k {
        assert rs[j] == ts[j - 1] && Priority(ts[k]) >= Priority(ts[j - 1]);
      }
    }
  }

  lemma RemoveSorted(ts: seq<Block>, k: nat)
    requires k < |ts| && Sorted(ts)
    ensures Sorted(RemoveAt(ts, k))
  {
  }

  /** Placing moves nothing else, and puts the block behind those it ties with. */
  lemma PlaceIs(ts: seq<Block>, t: Block)
    requires Sorted(ts)
    ensures var rs, k := Place(ts, t), PlaceIndex(ts, Priority(t));
            && |rs| == |ts| + 1 && rs[k] == t && RemoveAt(rs, k) == ts
            && (forall j :: 0 <= j < k ==> Priority(rs[j]) >= Priority(t))
            && (forall j :: k < j < |rs| ==> Priority(rs[j]) < Priority(t))
  {
    hide Priority;
    var rs, k := Place(ts, t), PlaceIndex(ts, Priority(t));
    hide PlaceIndex;
    assert rs[..k] == ts[..k] && rs[k + 1..] == ts[k..];
    assert ts[..k] + ts[k..] == ts;
    forall j | k < j < |rs|
      ensures Priority(rs[j]) < Priority(t)
    {
      assert rs[j] == ts[j - 1];
    }
  }

  // ---------------------------------------------------------------------------
  // Positions in the tree.

  /** A position: which child to go to at each level. */
  predicate IsPath(t: Block, p: seq<nat>)
    decreases |p|
  {
    p == [] || (p[0] < |t.kids| && IsPath(t.kids[p[0]], p[1..]))
  }

  function At(t: Block, p: seq<nat>): Block
    requires IsPath(t, p)
    decreases |p|
  {
    if p == [] then t else At(t.kids[p[0]], p[1..])
  }

  function Replace(t: Block, p: seq<nat>, s: Block): Block
    requires IsPath(t, p)
    decreases |p|
  {
    if p == [] then s else t.(kids := t.kids[p[0] := Replace(t.kids[p[0]], p[1..], s)])
  }

  lemma {:induction false} ReplacePath(t: Block, p: seq<nat>, s: Block, q: seq<nat>)
    requires IsPath(t, p) && IsPath(s, q)
    ensures IsPath(Replace(t, p, s), p + q)
    decreases |p|
  {
    if p == [] {
      assert p + q == q;
    } else {
      ReplacePath(t.kids[p[0]], p[1..], s, q);
      assert (p + q)[1..] == p[1..] + q;
    }
  }

  // ---------------------------------------------------------------------------
  // Repair.

  /** Moves every block on the way from position p up to the root to its place among its siblings. */
  function Repair(t: Block, p: seq<nat>): Block
    requires IsPath(t, p)
    decreases |p|
  {
    if p == [] then t
    else t.(kids := Place(RemoveAt(t.kids, p[0]), Repair(t.kids[p[0]], p[1..])))
  }

  /** In order, but for the places of the blocks on the way to position p. */
  predicate NearlyOrdered(t: Block, p: seq<nat>)
    requires IsPath(t, p)
    decreases |p|
  {
    if p == [] then Ordered(t)
    else
      && Sorted(RemoveAt(t.kids, p[0]))
      && (forall k :: 0 <= k < |t.kids| && k != p[0] ==> Ordered(t.kids[k]))
      && NearlyOrdered(t.kids[p[0]], p[1..])
  }

  lemma OrderedKids(t: Block)
    requires Sorted(t.kids) && forall k :: 0 <= k < |t.kids| ==> Ordered(t.kids[k])
    ensures Ordered(t)
  {
  }

  lemma {:induction false} RepairOrdered(t: Block, p: seq<nat>)
    requires IsPath(t, p) && NearlyOrdered(t, p)
    ensures Ordered(Repair(t, p))
    decreases |p|
  {
    if p != [] {
      RepairOrdered(t.kids[p[0]], p[1..]);
      var rest, c := RemoveAt(t.kids, p[0]), Repair(t.kids[p[0]], p[1..]);
      PlaceSorted(rest, c);
      var r := t.(kids := Place(rest, c));
      hide Sorted, Found;
      forall k | 0 <= k < |r.kids|
        ensures Ordered(r.kids[k])
      {
        PlacedFrom(t.kids, p[0], c, k);
      }
      OrderedKids(r);
    }
  }

  /** A placed list holds the new block and the others, no more. */
  lemma PlacedFrom(ts: seq<Block>, i: nat, c: Block, k: nat)
    requires i < |ts| && k < |Place(RemoveAt(ts, i), c)|
    ensures var x := Place(RemoveAt(ts, i), c)[k];
            x == c || exists j :: 0 <= j < |ts| && j != i && x == ts[j]
  {
    hide Found;
    var rest := RemoveAt(ts, i);
    var at := PlaceIndex(rest, Priority(c));
    if k != at {
      var m := if k < at then k else k - 1;
      assert Place(rest, c)[k] == rest[m];
      assert rest[m] == ts[if m < i then m else m + 1];
    }
  }

  /** Changing what is at a position disturbs only the order on the way there. */
  lemma {:induction false} ReplaceNearly(t: Block, p: seq<nat>, s: Block, q: seq<nat>)
    requires Ordered(t) && IsPath(t, p) && IsPath(s, q) && NearlyOrdered(s, q)
    ensures IsPath(Replace(t, p, s), p + q) && NearlyOrdered(Replace(t, p, s), p + q)
    decreases |p|
  {
    ReplacePath(t, p, s, q);
    if p == [] {
      assert p + q == q;
    } else {
      ReplaceNearly(t.kids[p[0]], p[1..], s, q);
      assert (p + q)[1..] == p[1..] + q;
      RemoveSorted(t.kids, p[0]);
      var r := Replace(t, p, s);
      assert RemoveAt(r.kids, p[0]) == RemoveAt(t.kids, p[0]);
    }
  }
}
