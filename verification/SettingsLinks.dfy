/** Settings blocks linked by identity: how the links represent a tree. */
module SettingsLinks {
  import opened SettingsSpec
  import opened Wrappers

  /** A block as linked: its children in order, and its parent. */
  datatype Node = Node(name: string, fetches: bool, values: map<string, int>, children: seq<nat>, parent: Option<nat>)

  type Links = map<nat, Node>

  // ---------------------------------------------------------------------------
  // Identities.

  function Ids(t: Block): set<nat> {
    {t.id} + IdsOf(t.kids)
  }

  function IdsOf(ts: seq<Block>): set<nat> {
    if ts == [] then {} else Ids(ts[0]) + IdsOf(ts[1..])
  }

  predicate Apart(ts: seq<Block>) {
    forall i, j :: 0 <= i < j < |ts| ==> Ids(ts[i]) !! Ids(ts[j])
  }

  /** No block occurs twice. */
  predicate Unique(t: Block) {
    t.id !in IdsOf(t.kids) && Apart(t.kids) && forall k :: 0 <= k < |t.kids| ==> Unique(t.kids[k])
  }

  lemma {:induction false} IdsOfMember(ts: seq<Block>, x: nat)
    ensures x in IdsOf(ts) <==> exists k :: 0 <= k < |ts| && x in Ids(ts[k])
  {
    if ts != [] {
      IdsOfMember(ts[1..], x);
      if x in IdsOf(ts[1..]) {
        var k :| 0 <= k < |ts[1..]| && x in Ids(ts[1..][k]);
        assert x in Ids(ts[k + 1]);
      }
      if k :| 0 <= k < |ts| && x in Ids(ts[k]) && k > 0 {
        assert x in Ids(ts[1..][k - 1]);
      }
    }
  }

  // ---------------------------------------------------------------------------
  // Representation.

  /** The links from t.id on are those of tree t, below the given parent. */
  predicate Rep(links: Links, t: Block, parent: Option<nat>) {
    && t.id in links
    && var n := links[t.id];
    && n.name == t.name && n.fetches == t.fetches && n.values == t.values && n.parent == parent
    && |n.children| == |t.kids|
    && (forall k :: 0 <= k < |t.kids| ==> n.children[k] == t.kids[k].id)
    && (forall k :: 0 <= k < |t.kids| ==> Rep(links, t.kids[k], Some(t.id)))
  }

  /** Only the links of the blocks of a tree matter to it. */
  lemma {:induction false} RepFrame(links: Links, links': Links, t: Block, parent: Option<nat>)
    requires Rep(links, t, parent)
    requires forall x :: x in Ids(t) && x in links ==> x in links' && links'[x] == links[x]
    ensures Rep(links', t, parent)
    decreases t
  {
    assert t.id in Ids(t);
    forall k | 0 <= k < |t.kids|
      ensures Rep(links', t.kids[k], Some(t.id))
    {
      forall x | x in Ids(t.kids[k]) && x in links
        ensures x in links' && links'[x] == links[x]
      {
        IdsOfMember(t.kids, x);
        assert x in Ids(t);
      }
      RepFrame(links, links', t.kids[k], Some(t.id));
    }
  }

  /** The links of all other blocks are as before. */
  predicate SameBut(links: Links, links': Links, ids: set<nat>) {
    forall x :: x in links && x !in ids ==> x in links' && links'[x] == links[x]
  }

  /** Who the parent of the block at position p is. */
  function ParentAt(t: Block, p: seq<nat>, parent: Option<nat>): Option<nat>
    requires IsPath(t, p)
    decreases |p|
  {
    if p == [] then parent else ParentAt(t.kids[p[0]], p[1..], Some(t.id))
  }

  lemma {:induction false} RepAt(links: Links, t: Block, p: seq<nat>, parent: Option<nat>)
    requires Rep(links, t, parent) && IsPath(t, p)
    ensures Rep(links, At(t, p), ParentAt(t, p, parent))
    decreases |p|
  {
    if p != [] {
      RepAt(links, t.kids[p[0]], p[1..], Some(t.id));
    }
  }

  lemma {:induction false} AtIds(t: Block, p: seq<nat>)
    requires IsPath(t, p)
    ensures Ids(At(t, p)) <= Ids(t) && (Unique(t) ==> Unique(At(t, p)))
    decreases |p|
  {
    if p != [] {
      AtIds(t.kids[p[0]], p[1..]);
      forall x | x in Ids(t.kids[p[0]])
        ensures x in Ids(t)
      {
        IdsOfMember(t.kids, x);
      }
    }
  }

  /** Relinking only blocks at and below position p gives the tree with that position replaced. */
  lemma {:induction false} RepReplace(links: Links, links': Links, t: Block, p: seq<nat>, s: Block, parent: Option<nat>)
    requires Rep(links, t, parent) && Unique(t) && IsPath(t, p)
    requires Rep(links', s, ParentAt(t, p, parent)) && s.id == At(t, p).id
    requires SameBut(links, links', Ids(At(t, p)) + (Ids(s) - Ids(t)))
    ensures Rep(links', Replace(t, p, s), parent)
    decreases |p|
  {
    if p != [] {
      var i, rest := p[0], p[1..];
      AtIds(t.kids[i], rest);
      var changed := Ids(At(t, p)) + (Ids(s) - Ids(t));
      KidIds(t, i);
      RepReplace(links, links', t.kids[i], rest, s, Some(t.id));
      var r := Replace(t, p, s);
      ReplaceId(t.kids[i], rest, s);
      forall k | 0 <= k < |t.kids| && k != i
        ensures Rep(links', t.kids[k], Some(t.id))
      {
        KidIds(t, k);
        KidsApart(t, i, k);
        RepFrame(links, links', t.kids[k], Some(t.id));
      }
      assert t.id !in changed;
    }
  }

  lemma IdIn(t: Block)
    ensures t.id in Ids(t)
  {
  }

  lemma KidIds(t: Block, k: nat)
    requires k < |t.kids|
    ensures Ids(t.kids[k]) <= Ids(t) && (Unique(t) ==> t.id !in Ids(t.kids[k]))
  {
    forall x | x in Ids(t.kids[k])
      ensures x in IdsOf(t.kids)
    {
      IdsOfMember(t.kids, x);
    }
  }

  lemma KidsApart(t: Block, i: nat, k: nat)
    requires Unique(t) && i < |t.kids| && k < |t.kids| && i != k
    ensures Ids(t.kids[i]) !! Ids(t.kids[k])
  {
    if i < k {
      assert Ids(t.kids[i]) !! Ids(t.kids[k]);
    } else {
      assert Ids(t.kids[k]) !! Ids(t.kids[i]);
    }
  }

  lemma ReplaceId(t: Block, p: seq<nat>, s: Block)
    requires IsPath(t, p) && s.id == At(t, p).id
    ensures Replace(t, p, s).id == t.id
  {
  }

  // ---------------------------------------------------------------------------
  // Uniqueness after a change.

  lemma {:induction false} UniqueReplace(t: Block, p: seq<nat>, s: Block)
    requires IsPath(t, p) && Unique(t) && Unique(s)
    requires Ids(s) * Ids(t) <= Ids(At(t, p))
    ensures Unique(Replace(t, p, s)) && Ids(Replace(t, p, s)) <= Ids(t) + Ids(s)
    ensures p != [] ==> Ids(Replace(t, p, s)) * Ids(t) <= Ids(t)
    decreases |p|
  {
    if p != [] {
      var i, rest := p[0], p[1..];
      AtIds(t.kids[i], rest);
      KidIds(t, i);
      UniqueReplace(t.kids[i], rest, s);
      var c, r := Replace(t.kids[i], rest, s), Replace(t, p, s);
      forall k | 0 <= k < |t.kids| && k != i
        ensures Ids(t.kids[k]) !! Ids(c) && t.id !in Ids(t.kids[k]) && Ids(t.kids[k]) <= Ids(t)
      {
        KidIds(t, k);
        KidsApart(t, i, k);
      }
      assert t.id !in Ids(c);
      forall x
        ensures x in IdsOf(r.kids) ==> x in Ids(t) + Ids(s) && x != t.id
      {
        IdsOfMember(r.kids, x);
      }
      UniqueKids(r);
    }
  }

  lemma UniqueKids(t: Block)
    requires t.id !in IdsOf(t.kids)
    requires forall k :: 0 <= k < |t.kids| ==> Unique(t.kids[k])
    requires forall i, j :: 0 <= i < j < |t.kids| ==> Ids(t.kids[i]) !! Ids(t.kids[j])
    ensures Unique(t)
  {
  }

  // ---------------------------------------------------------------------------
  // Moving one child among the others.

  /** Where the element at m comes from when element i is taken out and put in at k. */
  function Source(i: nat, k: nat, m: nat): nat {
    if m == k then i
    else
      var x := if m < k then m else m - 1;
      if x < i then x else x + 1
  }

  function Shifted<T>(xs: seq<T>, i: nat, k: nat): (rs: seq<T>)
    requires i < |xs| && k < |xs|
    ensures |rs| == |xs| && forall m :: 0 <= m < |xs| ==> rs[m] == xs[Source(i, k, m)]
  {
    var rest := xs[..i] + xs[i + 1..];
    rest[..k] + [xs[i]] + rest[k..]
  }

  lemma SourceFacts(i: nat, k: nat, n: nat, j: nat)
    requires i < n && k < n && j < n
    ensures Source(i, k, j) < n && exists m :: 0 <= m < n && Source(i, k, m) == j
    ensures forall m :: 0 <= m < n && Source(i, k, m) == Source(i, k, j) ==> m == j
  {
    var m := if j == i then k else if j < i then (if j < k then j else j + 1) else (if j - 1 < k then j - 1 else j);
    assert Source(i, k, m) == j;
  }

  /** The block with child i moved to its place. */
  function Moved(t: Block, i: nat): Block
    requires i < |t.kids|
  {
    t.(kids := Place(RemoveAt(t.kids, i), t.kids[i]))
  }

  function MoveTarget(t: Block, i: nat): nat
    requires i < |t.kids|
  {
    PlaceIndex(RemoveAt(t.kids, i), Priority(t.kids[i]))
  }

  lemma MovedKids(t: Block, i: nat)
    requires i < |t.kids|
    ensures MoveTarget(t, i) < |t.kids| && Moved(t, i).kids == Shifted(t.kids, i, MoveTarget(t, i))
  {
  }

  lemma ShiftedIds(ts: seq<Block>, i: nat, k: nat)
    requires i < |ts| && k < |ts|
    ensures IdsOf(Shifted(ts, i, k)) == IdsOf(ts)
  {
    hide Source, Ids;
    var rs, n := Shifted(ts, i, k), |ts|;
    hide Shifted;
    forall x
      ensures x in IdsOf(rs) <==> x in IdsOf(ts)
    {
      IdsOfMember(rs, x);
      IdsOfMember(ts, x);
      hide IdsOf;
      if x in IdsOf(ts) {
        var j :| 0 <= j < n && x in Ids(ts[j]);
        SourceFacts(i, k, n, j);
        var m :| 0 <= m < n && Source(i, k, m) == j;
        assert x in Ids(rs[m]);
      }
      if x in IdsOf(rs) {
        var m :| 0 <= m < n && x in Ids(rs[m]);
        SourceFacts(i, k, n, m);
        assert x in Ids(ts[Source(i, k, m)]);
      }
    }
  }

  lemma ShiftedApart(t: Block, i: nat, k: nat)
    requires i < |t.kids| && k < |t.kids| && Unique(t)
    ensures Apart(Shifted(t.kids, i, k)) && forall m :: 0 <= m < |t.kids| ==> Unique(Shifted(t.kids, i, k)[m])
  {
    hide Source, Ids;
    var rs, n := Shifted(t.kids, i, k), |t.kids|;
    hide Shifted;
    forall a, b | 0 <= a < b < n
      ensures Ids(rs[a]) !! Ids(rs[b])
    {
      SourceFacts(i, k, n, a);
      SourceFacts(i, k, n, b);
      KidsApart(t, Source(i, k, a), Source(i, k, b));
    }
    forall m | 0 <= m < n
      ensures Unique(rs[m])
    {
      SourceFacts(i, k, n, m);
    }
  }

  lemma MovedUnique(t: Block, i: nat)
    requires i < |t.kids| && Unique(t)
    ensures Unique(Moved(t, i)) && Ids(Moved(t, i)) == Ids(t)
  {
    hide Priority, Shifted, Source;
    MovedKids(t, i);
    ShiftedIds(t.kids, i, MoveTarget(t, i));
    ShiftedApart(t, i, MoveTarget(t, i));
  }

  lemma MovedRep(links: Links, t: Block, i: nat, parent: Option<nat>)
    requires i < |t.kids| && Unique(t) && Rep(links, t, parent)
    ensures |links[t.id].children| == |t.kids|
    ensures MoveTarget(t, i) < |t.kids|
    ensures var n := links[t.id];
            Rep(links[t.id := n.(children := Shifted(n.children, i, MoveTarget(t, i)))], Moved(t, i), parent)
  {
    hide Priority;
    MovedKids(t, i);
    var k, n := MoveTarget(t, i), links[t.id];
    var links' := links[t.id := n.(children := Shifted(n.children, i, k))];
    var r := Moved(t, i);
    forall m | 0 <= m < |r.kids|
      ensures links'[t.id].children[m] == r.kids[m].id && Rep(links', r.kids[m], Some(t.id))
    {
      SourceFacts(i, k, |t.kids|, m);
      var j := Source(i, k, m);
      KidIds(t, j);
      RepFrame(links, links', t.kids[j], Some(t.id));
    }
  }

  /** Repairing from a position is moving the block there and repairing from its parent's. */
  lemma {:induction false} RepairUp(t: Block, q: seq<nat>, i: nat)
    requires IsPath(t, q) && i < |At(t, q).kids|
    ensures IsPath(t, q + [i]) && IsPath(Replace(t, q, Moved(At(t, q), i)), q)
    ensures Repair(t, q + [i]) == Repair(Replace(t, q, Moved(At(t, q), i)), q)
    decreases |q|
  {
    hide Priority;
    var s := Moved(At(t, q), i);
    ReplacePath(t, q, s, []);
    assert q + [] == q;
    if q == [] {
      assert q + [i] == [i] && [i][1..] == [];
      assert Repair(t.kids[i], []) == t.kids[i];
    } else {
      var a, rest := q[0], q[1..];
      RepairUp(t.kids[a], rest, i);
      assert (q + [i])[1..] == rest + [i];
      var r := Replace(t, q, s);
      assert RemoveAt(r.kids, a) == RemoveAt(t.kids, a);
    }
  }

  lemma {:induction false} PathUp(t: Block, p: seq<nat>, parent: Option<nat>)
    requires IsPath(t, p) && p != []
    ensures var q, i := p[..|p| - 1], p[|p| - 1];
            && IsPath(t, q) && i < |At(t, q).kids| && At(t, p) == At(t, q).kids[i] && p == q + [i]
            && ParentAt(t, p, parent) == Some(At(t, q).id)
    decreases |p|
  {
    var q, i := p[..|p| - 1], p[|p| - 1];
    assert p == q + [i];
    if |p| == 1 {
      assert p[1..] == [] && q == [];
    } else {
      var kid, rest := t.kids[p[0]], p[1..];
      PathUp(kid, rest, Some(t.id));
      assert rest[..|rest| - 1] == q[1..] && q[0] == p[0];
      assert At(t, p) == At(kid, rest) && At(t, q) == At(kid, q[1..]);
    }
  }
}
