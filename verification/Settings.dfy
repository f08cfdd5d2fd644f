/** Settings blocks linked in place: fetching, storing, registering and keeping siblings in order. */
module Settings {
  import opened SettingsSpec
  import opened SettingsRun
  import opened SettingsLinks
  import opened Wrappers

  /** At most the order of children has changed. */
  predicate Relinked(was: Links, now: Links) {
    now.Keys == was.Keys && forall x :: x in now ==> now[x] == was[x].(children := now[x].children)
  }

  lemma OneRelinked(was: Links, id: nat, children: seq<nat>)
    requires id in was
    ensures Relinked(was, was[id := was[id].(children := children)])
  {
  }

  lemma ReorderedAll(was: Links, now: Links)
    requires Relinked(was, now)
    ensures now.Keys == was.Keys && forall x :: x in now ==> now[x] == was[x].(children := now[x].children)
  {
  }

  lemma StoredRep(was: Links, now: Links, t: Block, key: string, value: Option<int>, above: Option<nat>)
    requires Rep(was, t, above) && Unique(t)
    requires now == was[t.id := was[t.id].(values := Stored(t, key, value).values)]
    ensures Rep(now, Stored(t, key, value), above)
  {
    hide Ids;
    forall k | 0 <= k < |t.kids|
      ensures Rep(now, t.kids[k], Some(t.id))
    {
      KidIds(t, k);
      RepFrame(was, now, t.kids[k], Some(t.id));
    }
  }

  function IndexOf(xs: seq<nat>, x: nat): (k: nat)
    requires x in xs
    ensures k < |xs| && xs[k] == x && forall j :: 0 <= j < k ==> xs[j] != x
  {
    if xs[0] == x then 0
    else
      assert forall j :: 0 < j < |xs| ==> xs[j] == xs[1..][j - 1];
      1 + IndexOf(xs[1..], x)
  }

  class Settings {
    var links: Links
    /** The tree of registered blocks. */
    ghost var tree: Block

    ghost predicate Valid()
      reads this
    {
      Rep(links, tree, None) && Unique(tree)
    }

    /** Only the root block, without settings. */
    constructor ()
      ensures Valid() && tree == Block(0, "", true, map[], []) && Ordered(tree) && Named(tree)
    {
      links := map[0 := Node("", true, map[], [], None)];
      tree := Block(0, "", true, map[], []);
    }

    /** A new block, not registered yet. */
    method Create(id: nat, fetches: bool, values: map<string, int>) returns (ghost s: Block)
      requires Valid() && id !in links
      modifies `links
      ensures Valid() && s == Block(id, "", fetches, values, []) && Rep(links, s, None) && Unique(s)
      ensures id !in Ids(tree)
    {
      RepIds(links, tree, None);
      ghost var before := links;
      links := links[id := Node("", fetches, values, [], None)];
      RepFrame(before, links, tree, None);
      s := Block(id, "", fetches, values, []);
    }

    /** The setting as found in a block or below it. */
    method FetchSetting(id: nat, key: string, ghost t: Block, ghost parent: Option<nat>) returns (r: Option<int>)
      requires Rep(links, t, parent) && t.id == id
      ensures r == Found(t, key)
      decreases t
    {
      var node := links[id];
      if !node.fetches {
        return None;
      }
      if key in node.values {
        return Some(node.values[key]);
      }
      var i := 0;
      assert t.kids[0..] == t.kids;
      while i < |node.children|
        invariant 0 <= i <= |node.children| && FirstFound(t.kids, key) == FirstFound(t.kids[i..], key)
      {
        assert t.kids[i..][0] == t.kids[i] && t.kids[i..][1..] == t.kids[i + 1..];
        r := FetchSetting(node.children[i], key, t.kids[i], Some(id));
        if r.Some? {
          return;
        }
        i := i + 1;
      }
      return None;
    }

    method FetchPriority(id: nat, ghost t: Block, ghost parent: Option<nat>) returns (n: int)
      requires Rep(links, t, parent) && t.id == id
      ensures n == Priority(t)
    {
      var r := FetchSetting(id, PRIORITY, t, parent);
      return if r.Some? then r.value else 0;
    }

    /** Where among its siblings a block of this priority belongs. */
    method FindPlace(siblings: seq<nat>, priority: int, ghost ts: seq<Block>, ghost parent: Option<nat>) returns (k: nat)
      requires |siblings| == |ts|
      requires forall j :: 0 <= j < |ts| ==> siblings[j] == ts[j].id && Rep(links, ts[j], parent)
      ensures k == PlaceIndex(ts, priority)
    {
      hide Rep, Priority;
      k := 0;
      assert ts[0..] == ts;
      while k < |siblings|
        invariant 0 <= k <= |siblings| && PlaceIndex(ts, priority) == k + PlaceIndex(ts[k..], priority)
      {
        assert ts[k..][0] == ts[k] && ts[k..][1..] == ts[k + 1..];
        var p := FetchPriority(siblings[k], ts[k], parent);
        if priority > p {
          return;
        }
        k := k + 1;
      }
    }

    /** Moves a block to its place among its siblings, and then its parent, and so on up. */
    method Reprioritise(id: nat, ghost p: seq<nat>)
      requires Valid() && IsPath(tree, p) && At(tree, p).id == id
      modifies this
      ensures Valid() && tree == Repair(old(tree), p) && Relinked(old(links), links)
      decreases |p|
    {
      RepAt(links, tree, p, None);
      var node := links[id];
      if node.parent.None? {
        if p != [] {
          PathUp(tree, p, None);
        }
        return;
      }
      var parent := node.parent.value;
      PathUp(tree, p, None);
      ghost var q, i := p[..|p| - 1], p[|p| - 1];
      Relink(id, parent, q, i);
      RepairUp(old(tree), q, i);
      ReplaceAt(old(tree), q, Moved(At(old(tree), q), i));
      Reprioritise(parent, q);
    }

    /** Takes a block out of its parent's list and puts it back in at its place. */
    method Relink(id: nat, parent: nat, ghost q: seq<nat>, ghost i: nat)
      requires Valid() && IsPath(tree, q) && At(tree, q).id == parent
      requires i < |At(tree, q).kids| && At(tree, q).kids[i].id == id
      modifies this
      ensures Valid() && tree == Replace(old(tree), q, Moved(At(old(tree), q), i)) && Relinked(old(links), links)
    {
      hide Priority, Ids, IdsOf, Rep, Unique, Relinked;
      ghost var t, above := At(tree, q), ParentAt(tree, q, None);
      RepAt(links, tree, q, None);
      AtIds(tree, q);
      Siblings(links, t, above, i);
      var node := links[parent];
      var priority := FetchPriority(id, t.kids[i], Some(parent));
      var at := IndexOf(node.children, id);
      var siblings := node.children[..at] + node.children[at + 1..];
      var k := FindPlace(siblings, priority, RemoveAt(t.kids, i), Some(parent));
      MovedRep(links, t, i, above);
      MovedUnique(t, i);
      ghost var before := links;
      links := links[parent := node.(children := siblings[..k] + [id] + siblings[k..])];
      assert links[parent].children == Shifted(node.children, i, k);
      RepReplace(before, links, tree, q, Moved(t, i), None) by {
        IdIn(t);
      }
      UniqueReplace(tree, q, Moved(t, i));
      tree := Replace(tree, q, Moved(t, i));
      OneRelinked(before, parent, siblings[..k] + [id] + siblings[k..]);
    }

    /** Puts a setting into a block, or deletes it. */
    method Put(id: nat, key: string, value: Option<int>, ghost p: seq<nat>)
      requires Valid() && IsPath(tree, p) && At(tree, p).id == id
      modifies this
      ensures Valid() && tree == Replace(old(tree), p, Stored(At(old(tree), p), key, value))
      ensures id in old(links) && id in links && links == old(links)[id := old(links)[id].(values := links[id].values)]
      ensures var was, now := old(links)[id].values, links[id].values;
              now == if value.Some? then was[key := value.value] else was - {key}
    {
      hide Priority, Ids, IdsOf, Rep, Unique;
      ghost var t, s := At(tree, p), Stored(At(tree, p), key, value);
      RepAt(links, tree, p, None);
      AtIds(tree, p);
      StoredIds(t, key, value);
      ChildAt(links, t, 0, ParentAt(tree, p, None));
      ghost var before := links;
      var node := links[id];
      var values := if value.Some? then node.values[key := value.value] else node.values - {key};
      links := links[id := node.(values := values)];
      StoredRep(before, links, t, key, value, ParentAt(tree, p, None));
      IdIn(t);
      RepReplace(before, links, tree, p, s, None);
      UniqueReplace(tree, p, s);
      tree := Replace(tree, p, s);
    }

    /** Stores a setting in a block, or deletes it; a new priority moves the block. */
    method StoreSetting(id: nat, key: string, value: Option<int>, ghost p: seq<nat>)
      requires Valid() && IsPath(tree, p) && At(tree, p).id == id
      modifies this
      ensures Valid() && tree == Store(old(tree), p, key, value)
      ensures links.Keys == old(links.Keys) && id in links
      ensures forall x :: x in links && x != id ==> links[x] == old(links)[x].(children := links[x].children)
      ensures links[id] == old(links)[id].(children := links[id].children, values := links[id].values)
      ensures var was, now := old(links)[id].values, links[id].values;
              && (key in now <==> value.Some?) && (value.Some? ==> now[key] == value.value)
              && (forall k :: k != key ==> (k in now <==> k in was))
              && (forall k :: k != key && k in now ==> now[k] == was[k])
    {
      hide Priority, Ids, IdsOf, Rep, Unique, Relinked, Replace, At;
      StoredPath(tree, p, key, value);
      ReplaceAt(tree, p, Stored(At(tree, p), key, value));
      Put(id, key, value, p);
      ghost var mid := links;
      if key == PRIORITY {
        Reprioritise(id, p);
        ReorderedAll(mid, links);
      }
    }

    /** Takes a block and everything below it out of the tree, block by block. */
    method Unregister(id: nat, parent: nat, ghost t: Block)
      requires Rep(links, t, Some(parent)) && Unique(t) && t.id == id
      requires parent in links && parent !in Ids(t) && id in links[parent].children
      modifies `links
      ensures SameBut(old(links), links, Ids(t) + {parent}) && parent in links
      ensures links[parent] == WithoutChild(old(links)[parent], id)
      ensures Detached(links, Ids(t))
      decreases t
    {
      hide Ids, IdsOf, Unique, Remaining, DetachedKids, SameBut, WithoutChild, Rep;
      StartRemaining(links, t, Some(parent));
      ghost var before := links;
      ghost var j := 0;
      while links[id].children != []
        invariant j <= |t.kids| && id in links && Remaining(links, t, j) && DetachedKids(links, t, j)
        invariant SameBut(before, links, Ids(t))
        decreases |t.kids| - j
      {
        RemainingFirst(links, t, j);
        var child := links[id].children[0];
        ghost var at := links;
        Unregister(child, id, t.kids[j]);
        AfterChild(before, at, links, t, j);
        j := j + 1;
      }
      RemainingNone(links, t, j);
      ParentKept(before, links, t, parent);
      ghost var cleared := links;
      links := links[parent := WithoutChild(links[parent], id)];
      links := links[id := links[id].(parent := None)];
      LastOut(before, cleared, links, t, parent);
    }

    /** The child of that name, or the number of children. */
    method FindChild(parent: nat, name: string, ghost t: Block, ghost above: Option<nat>) returns (k: nat)
      requires Rep(links, t, above) && t.id == parent
      ensures k == NameIndex(t.kids, name)
    {
      var children := links[parent].children;
      k := 0;
      assert t.kids[0..] == t.kids;
      while k < |children|
        invariant 0 <= k <= |children| && NameIndex(t.kids, name) == k + NameIndex(t.kids[k..], name)
      {
        assert t.kids[k..][0] == t.kids[k] && t.kids[k..][1..] == t.kids[k + 1..];
        assert Rep(links, t.kids[k], Some(parent));
        if links[children[k]].name == name {
          return;
        }
        k := k + 1;
      }
    }

    /** Unregisters any child of that name. */
    method Evict(parent: nat, name: string, ghost p: seq<nat>)
      requires Valid() && IsPath(tree, p) && At(tree, p).id == parent
      modifies this
      ensures Valid() && tree == Replace(old(tree), p, Keeping(At(old(tree), p), name))
      ensures SameBut(old(links), links, Ids(old(tree))) && Ids(tree) <= Ids(old(tree))
    {
      hide Ids, IdsOf, Unique, Rep, SameBut, WithoutChild, Evicted;
      ghost var t, above := At(tree, p), ParentAt(tree, p, None);
      RepAt(links, tree, p, None);
      AtIds(tree, p);
      var k := FindChild(parent, name, t, above);
      ChildAt(links, t, k, above);
      if k < |links[parent].children| {
        ghost var before := links;
        Unregister(links[parent].children[k], parent, t.kids[k]);
        EvictedRep(before, links, t, name, above);
        EvictedTree(before, links, tree, p, name);
        tree := Replace(tree, p, Keeping(t, name));
      } else {
        ReplaceSame(tree, p);
        KeepingAll(t, name);
        SameButSelf(links, Ids(tree));
      }
    }

    /** Links a block in as the last child. */
    method Adopt(id: nat, parent: nat, ghost p: seq<nat>, ghost s: Block)
      requires Valid() && IsPath(tree, p) && At(tree, p).id == parent
      requires Rep(links, s, None) && s.id == id && Unique(s) && Ids(s) !! Ids(tree)
      modifies this
      ensures Valid() && tree == Replace(old(tree), p, With(At(old(tree), p), s))
    {
      hide Ids, IdsOf, Unique, Rep, SameBut;
      ghost var t, above := At(tree, p), ParentAt(tree, p, None);
      RepAt(links, tree, p, None);
      AtIds(tree, p);
      ChildAt(links, t, 0, above);
      ChildAt(links, s, 0, None);
      IdIn(t);
      IdIn(s);
      ghost var before := links;
      links := links[id := links[id].(parent := Some(parent))];
      links := links[parent := links[parent].(children := links[parent].children + [id])];
      WithRep(before, links, t, s, above);
      WithTree(before, links, tree, p, s);
      tree := Replace(tree, p, With(t, s));
    }

    /** Registers a block below a parent, in place of any of the same name. */
    method RegisterSettings(id: nat, parent: nat, name: string, ghost p: seq<nat>, ghost s: Block)
      requires Valid() && IsPath(tree, p) && At(tree, p).id == parent
      requires Rep(links, s, None) && s.id == id && Unique(s) && Ids(s) !! Ids(tree) && name != ""
      modifies this
      ensures Valid() && tree == Register(old(tree), p, s.(name := name))
    {
      hide Ids, IdsOf, Unique, Rep, SameBut, Repair, Evicted;
      ghost var t0, t, s' := tree, At(tree, p), s.(name := name);
      ghost var before := links;
      IdIn(s);
      ChildAt(links, s, 0, None);
      links := links[id := links[id].(name := name)];
      RenameRep(before, links, s, name, tree);
      ghost var renamed := links;
      Evict(parent, name, p);
      RepOutside(renamed, links, s', None, Ids(t0));
      ReplacePath(t0, p, Keeping(t, name), []);
      ReplaceAt(t0, p, Keeping(t, name));
      assert p + [] == p;
      Adopt(id, parent, p, s');
      ReplaceTwice(t0, p, Keeping(t, name), With(Keeping(t, name), s'));
      ReplacePath(t0, p, Adopted(t, s'), LastKid(t, s'));
      AdoptedAt(t0, p, s');
      Reprioritise(id, p + LastKid(t, s'));
    }
  }

  function With(t: Block, s: Block): Block {
    t.(kids := t.kids + [s])
  }

  lemma AdoptedAt(t: Block, p: seq<nat>, s: Block)
    requires IsPath(t, p)
    ensures var parent := At(t, p);
            && Adopted(parent, s) == With(Keeping(parent, s.name), s)
            && IsPath(Replace(t, p, Adopted(parent, s)), p + LastKid(parent, s))
            && At(Replace(t, p, Adopted(parent, s)), p + LastKid(parent, s)) == s
  {
    var parent := At(t, p);
    ReplacePath(t, p, Adopted(parent, s), LastKid(parent, s));
    ReplaceAtBelow(t, p, Adopted(parent, s), LastKid(parent, s));
    assert LastKid(parent, s)[1..] == [];
  }

  lemma {:induction false} ReplaceAtBelow(t: Block, p: seq<nat>, s: Block, q: seq<nat>)
    requires IsPath(t, p) && IsPath(s, q) && IsPath(Replace(t, p, s), p + q)
    ensures At(Replace(t, p, s), p + q) == At(s, q)
    decreases |p|
  {
    if p == [] {
      assert p + q == q;
    } else {
      assert (p + q)[1..] == p[1..] + q;
      ReplaceAtBelow(t.kids[p[0]], p[1..], s, q);
    }
  }

  lemma {:induction false} ReplaceTwice(t: Block, p: seq<nat>, a: Block, b: Block)
    requires IsPath(t, p)
    ensures IsPath(Replace(t, p, a), p) && Replace(Replace(t, p, a), p, b) == Replace(t, p, b)
    decreases |p|
  {
    if p != [] {
      ReplaceTwice(t.kids[p[0]], p[1..], a, b);
      var i, c := p[0], Replace(t.kids[p[0]], p[1..], a);
      assert t.kids[i := c][i := Replace(c, p[1..], b)] == t.kids[i := Replace(c, p[1..], b)];
    }
  }

  lemma RepOutside(links: Links, links': Links, t: Block, above: Option<nat>, ids: set<nat>)
    requires Rep(links, t, above) && SameBut(links, links', ids) && Ids(t) !! ids
    ensures Rep(links', t, above)
  {
    hide Ids;
    RepFrame(links, links', t, above);
  }

  /** Naming a block that is not in the tree changes nothing in the tree. */
  lemma RenameRep(links: Links, links': Links, s: Block, name: string, tree: Block)
    requires Rep(links, s, None) && Unique(s) && links' == links[s.id := links[s.id].(name := name)]
    requires Rep(links, tree, None) && Ids(s) !! Ids(tree)
    ensures var s' := s.(name := name);
            Rep(links', s', None) && Unique(s') && Ids(s') == Ids(s) && Rep(links', tree, None)
  {
    hide IdsOf;
    assert s.id in Ids(s);
    forall k | 0 <= k < |s.kids|
      ensures Rep(links', s.kids[k], Some(s.id))
    {
      KidIds(s, k);
      RepFrame(links, links', s.kids[k], Some(s.id));
    }
    RepFrame(links, links', tree, None);
  }

  lemma WithRep(links: Links, links': Links, t: Block, s: Block, above: Option<nat>)
    requires Rep(links, t, above) && Rep(links, s, None) && Unique(t) && Unique(s) && Ids(s) !! Ids(t)
    requires t.id != s.id
    requires links' == links[s.id := links[s.id].(parent := Some(t.id))][t.id := links[t.id].(children := links[t.id].children + [s.id])]
    ensures Rep(links', With(t, s), above)
  {
    hide IdsOf;
    var r := With(t, s);
    IdIn(t);
    IdIn(s);
    forall k | 0 <= k < |t.kids|
      ensures Rep(links', t.kids[k], Some(t.id))
    {
      KidIds(t, k);
      RepFrame(links, links', t.kids[k], Some(t.id));
    }
    forall k | 0 <= k < |s.kids|
      ensures Rep(links', s.kids[k], Some(s.id))
    {
      KidIds(s, k);
      RepFrame(links, links', s.kids[k], Some(s.id));
    }
    assert Rep(links', s, Some(t.id));
  }

  lemma WithIds(t: Block, s: Block)
    requires Unique(t) && Unique(s) && Ids(s) !! Ids(t)
    ensures Unique(With(t, s)) && Ids(With(t, s)) == Ids(t) + Ids(s)
  {
    var r := With(t, s);
    forall x
      ensures x in IdsOf(r.kids) <==> x in IdsOf(t.kids) || x in Ids(s)
    {
      IdsOfMember(r.kids, x);
      IdsOfMember(t.kids, x);
      hide Ids, IdsOf;
      if k :| 0 <= k < |t.kids| && x in Ids(t.kids[k]) {
        assert x in Ids(r.kids[k]);
      }
      if x in Ids(s) {
        assert x in Ids(r.kids[|t.kids|]);
      }
    }
    forall k | 0 <= k < |t.kids|
      ensures Ids(t.kids[k]) !! Ids(s)
    {
      KidIds(t, k);
    }
    hide IdsOf;
    UniqueKids(r);
  }

  lemma WithTree(links: Links, links': Links, t: Block, p: seq<nat>, s: Block)
    requires Rep(links, t, None) && Unique(t) && Unique(s) && IsPath(t, p) && Ids(s) !! Ids(t)
    requires Rep(links', With(At(t, p), s), ParentAt(t, p, None)) && s.id in links && At(t, p).id in links
    requires links' == links[s.id := links[s.id].(parent := Some(At(t, p).id))][At(t, p).id := links[At(t, p).id].(children := links[At(t, p).id].children + [s.id])]
    ensures var r := Replace(t, p, With(At(t, p), s)); Rep(links', r, None) && Unique(r)
  {
    hide Ids, IdsOf, Rep;
    var a := At(t, p);
    AtIds(t, p);
    WithIds(a, s);
    IdIn(a);
    IdIn(s);
    RepReplace(links, links', t, p, With(a, s), None);
    UniqueReplace(t, p, With(a, s));
  }

  /** The block without any child of that name. */
  function Keeping(t: Block, name: string): Block {
    t.(kids := Evicted(t.kids, name))
  }

  lemma KeepingAll(t: Block, name: string)
    requires NameIndex(t.kids, name) == |t.kids|
    ensures Keeping(t, name) == t
  {
  }

  lemma SameButSelf(links: Links, ids: set<nat>)
    ensures SameBut(links, links, ids)
  {
  }

  lemma {:induction false} ReplaceSame(t: Block, p: seq<nat>)
    requires IsPath(t, p)
    ensures Replace(t, p, At(t, p)) == t
    decreases |p|
  {
    if p != [] {
      ReplaceSame(t.kids[p[0]], p[1..]);
    }
  }

  lemma ChildAt(links: Links, t: Block, k: nat, above: Option<nat>)
    requires Rep(links, t, above) && Unique(t)
    ensures t.id in links && |links[t.id].children| == |t.kids|
    ensures k < |t.kids| ==>
              && links[t.id].children[k] == t.kids[k].id && Rep(links, t.kids[k], Some(t.id))
              && Unique(t.kids[k]) && t.id !in Ids(t.kids[k])
  {
    if k < |t.kids| {
      KidIds(t, k);
    }
  }

  lemma KeepingIds(t: Block, name: string)
    requires Unique(t)
    ensures Unique(Keeping(t, name)) && Ids(Keeping(t, name)) <= Ids(t)
  {
    hide Ids, IdsOf;
    var k, r := NameIndex(t.kids, name), Keeping(t, name);
    if k < |t.kids| {
      assert forall m :: 0 <= m < |r.kids| ==> r.kids[m] == t.kids[if m < k then m else m + 1];
      FewerIds(r.kids, t.kids, k);
      forall a, b | 0 <= a < b < |r.kids|
        ensures Ids(r.kids[a]) !! Ids(r.kids[b])
      {
        KidsApart(t, if a < k then a else a + 1, if b < k then b else b + 1);
      }
      UniqueKids(r);
      SubsetIds(r, t);
    }
  }

  lemma FewerIds(rs: seq<Block>, ts: seq<Block>, k: nat)
    requires |rs| + 1 == |ts| && forall m :: 0 <= m < |rs| ==> rs[m] == ts[if m < k then m else m + 1]
    ensures IdsOf(rs) <= IdsOf(ts)
  {
    hide Ids, IdsOf;
    forall x | x in IdsOf(rs)
      ensures x in IdsOf(ts)
    {
      IdsOfMember(rs, x);
      IdsOfMember(ts, x);
      var m :| 0 <= m < |rs| && x in Ids(rs[m]);
      assert x in Ids(ts[if m < k then m else m + 1]);
    }
  }

  lemma SubsetIds(r: Block, t: Block)
    requires r.id == t.id && IdsOf(r.kids) <= IdsOf(t.kids)
    ensures Ids(r) <= Ids(t)
  {
  }

  lemma EvictedRep(links: Links, links': Links, t: Block, name: string, above: Option<nat>)
    requires Rep(links, t, above) && Unique(t)
    requires var k := NameIndex(t.kids, name);
             && k < |t.kids| && t.kids[k].id in links[t.id].children && t.id in links'
             && links'[t.id] == WithoutChild(links[t.id], t.kids[k].id)
             && SameBut(links, links', Ids(t.kids[k]) + {t.id})
    ensures Rep(links', Keeping(t, name), above)
  {
    hide Ids, IdsOf;
    var k, r, n := NameIndex(t.kids, name), Keeping(t, name), links[t.id];
    KidIdsDiffer(t, k);
    assert IndexOf(n.children, t.kids[k].id) == k;
    forall m | 0 <= m < |r.kids|
      ensures links'[t.id].children[m] == r.kids[m].id && Rep(links', r.kids[m], Some(t.id))
    {
      var j := if m < k then m else m + 1;
      KidsApart(t, k, j);
      KidIds(t, j);
      RepFrame(links, links', t.kids[j], Some(t.id));
    }
  }

  lemma EvictedTree(links: Links, links': Links, t: Block, p: seq<nat>, name: string)
    requires Rep(links, t, None) && Unique(t) && IsPath(t, p)
    requires var s := At(t, p); var k := NameIndex(s.kids, name);
             && k < |s.kids| && SameBut(links, links', Ids(s.kids[k]) + {s.id})
             && Rep(links', Keeping(s, name), ParentAt(t, p, None))
    ensures var r := Replace(t, p, Keeping(At(t, p), name));
            Rep(links', r, None) && Unique(r) && Ids(r) <= Ids(t) && SameBut(links, links', Ids(t))
  {
    hide Ids, IdsOf, Rep;
    var s := At(t, p);
    AtIds(t, p);
    KeepingIds(s, name);
    KidIds(s, NameIndex(s.kids, name));
    IdIn(s);
    RepReplace(links, links', t, p, Keeping(s, name), None);
    UniqueReplace(t, p, Keeping(s, name));
  }

  function WithoutChild(n: Node, id: nat): Node
    requires id in n.children
  {
    var k := IndexOf(n.children, id);
    n.(children := n.children[..k] + n.children[k + 1..])
  }

  /** On its own: no parent and no children. */
  predicate Alone(links: Links, x: nat) {
    x in links && links[x].parent.None? && links[x].children == []
  }

  predicate Detached(links: Links, ids: set<nat>) {
    forall x :: x in ids ==> Alone(links, x)
  }

  predicate DetachedKids(links: Links, t: Block, j: nat) {
    forall k :: 0 <= k < j && k < |t.kids| ==> Detached(links, Ids(t.kids[k]))
  }

  /** The children from j on are still linked. */
  predicate Remaining(links: Links, t: Block, j: nat) {
    && j <= |t.kids| && t.id in links && |links[t.id].children| == |t.kids| - j
    && (forall k :: j <= k < |t.kids| ==> links[t.id].children[k - j] == t.kids[k].id)
    && (forall k :: j <= k < |t.kids| ==> Rep(links, t.kids[k], Some(t.id)))
  }

  lemma StartRemaining(links: Links, t: Block, parent: Option<nat>)
    requires Rep(links, t, parent)
    ensures t.id in links && Remaining(links, t, 0) && DetachedKids(links, t, 0) && SameBut(links, links, Ids(t))
  {
  }

  lemma RemainingFirst(links: Links, t: Block, j: nat)
    requires Remaining(links, t, j) && Unique(t) && links[t.id].children != []
    ensures j < |t.kids| && links[t.id].children[0] == t.kids[j].id && Rep(links, t.kids[j], Some(t.id))
    ensures Unique(t.kids[j]) && t.id !in Ids(t.kids[j])
  {
    KidIds(t, j);
  }

  lemma AfterChild(before: Links, links: Links, links': Links, t: Block, j: nat)
    requires Unique(t) && Remaining(links, t, j) && j < |t.kids| && DetachedKids(links, t, j)
    requires SameBut(before, links, Ids(t)) && SameBut(links, links', Ids(t.kids[j]) + {t.id})
    requires t.id in links' && links[t.id].children != [] && links[t.id].children[0] == t.kids[j].id
    requires links'[t.id] == WithoutChild(links[t.id], t.kids[j].id) && Detached(links', Ids(t.kids[j]))
    ensures Remaining(links', t, j + 1) && DetachedKids(links', t, j + 1) && SameBut(before, links', Ids(t))
  {
    hide Ids, IdsOf, Rep;
    KidIds(t, j);
    IdIn(t);
    assert links'[t.id].children == links[t.id].children[1..];
    forall k | 0 <= k < |t.kids| && k != j
      ensures Ids(t.kids[k]) !! Ids(t.kids[j]) + {t.id}
      ensures k > j ==> Rep(links', t.kids[k], Some(t.id))
    {
      KidIds(t, k);
      KidsApart(t, j, k);
      if k > j {
        RepFrame(links, links', t.kids[k], Some(t.id));
      }
    }
    forall k | 0 <= k < j
      ensures Detached(links', Ids(t.kids[k]))
    {
      forall x | x in Ids(t.kids[k])
        ensures Alone(links', x)
      {
        assert Detached(links, Ids(t.kids[k])) && Alone(links, x);
      }
    }
  }

  lemma RemainingNone(links: Links, t: Block, j: nat)
    requires Remaining(links, t, j) && links[t.id].children == [] && DetachedKids(links, t, j)
    ensures DetachedKids(links, t, |t.kids|)
  {
  }

  lemma ParentKept(before: Links, links: Links, t: Block, parent: nat)
    requires parent in before && parent !in Ids(t) && SameBut(before, links, Ids(t))
    ensures parent in links && links[parent] == before[parent] && parent != t.id
  {
  }

  lemma LastOut(before: Links, links: Links, links': Links, t: Block, parent: nat)
    requires parent in links && t.id in links && links[t.id].children == [] && parent != t.id && parent !in Ids(t)
    requires SameBut(before, links, Ids(t)) && DetachedKids(links, t, |t.kids|) && t.id in links[parent].children
    requires links' == links[parent := WithoutChild(links[parent], t.id)][t.id := links[t.id].(parent := None)]
    ensures SameBut(before, links', Ids(t) + {parent}) && Detached(links', Ids(t))
  {
    hide IdsOf;
    forall x | x in Ids(t)
      ensures Alone(links', x)
    {
      if x != t.id {
        KidOf(t, x);
        var m :| 0 <= m < |t.kids| && x in Ids(t.kids[m]);
        assert Detached(links, Ids(t.kids[m])) && Alone(links, x);
      }
    }
  }

  lemma KidOf(t: Block, x: nat)
    requires x in Ids(t) && x != t.id
    ensures exists m :: 0 <= m < |t.kids| && x in Ids(t.kids[m])
  {
    IdsOfMember(t.kids, x);
  }

  lemma StoredIds(t: Block, key: string, value: Option<int>)
    ensures var s := Stored(t, key, value); Ids(s) == Ids(t) && (Unique(t) ==> Unique(s))
  {
  }

  lemma {:induction false} RepIds(links: Links, t: Block, parent: Option<nat>)
    requires Rep(links, t, parent)
    ensures forall x :: x in Ids(t) ==> x in links
    decreases t
  {
    forall x | x in Ids(t)
      ensures x in links
    {
      if x != t.id {
        KidOf(t, x);
        var m :| 0 <= m < |t.kids| && x in Ids(t.kids[m]);
        RepIds(links, t.kids[m], Some(t.id));
      }
    }
  }

  /** The other children of a parent, in the links and in the tree. */
  lemma Siblings(links: Links, t: Block, above: Option<nat>, i: nat)
    requires Rep(links, t, above) && Unique(t) && i < |t.kids|
    ensures t.id in links && |links[t.id].children| == |t.kids| && links[t.id].children[i] == t.kids[i].id
    ensures Rep(links, t.kids[i], Some(t.id))
    ensures var cs, ts := links[t.id].children, RemoveAt(t.kids, i);
            && (forall j :: 0 <= j < |cs| && j != i ==> cs[j] != cs[i])
            && forall j :: 0 <= j < |ts| ==> (cs[..i] + cs[i + 1..])[j] == ts[j].id && Rep(links, ts[j], Some(t.id))
  {
    KidIdsDiffer(t, i);
    hide Unique, Ids;
    var cs, ts := links[t.id].children, RemoveAt(t.kids, i);
    forall j | 0 <= j < |ts|
      ensures (cs[..i] + cs[i + 1..])[j] == ts[j].id && Rep(links, ts[j], Some(t.id))
    {
      assert ts[j] == t.kids[if j < i then j else j + 1];
    }
  }

  lemma KidIdsDiffer(t: Block, i: nat)
    requires Unique(t) && i < |t.kids|
    ensures forall j :: 0 <= j < |t.kids| && j != i ==> t.kids[j].id != t.kids[i].id
  {
    forall j | 0 <= j < |t.kids| && j != i
      ensures t.kids[j].id != t.kids[i].id
    {
      KidsApart(t, i, j);
      IdIn(t.kids[i]);
      IdIn(t.kids[j]);
    }
  }

  lemma {:induction false} ReplaceAt(t: Block, p: seq<nat>, s: Block)
    requires IsPath(t, p)
    ensures IsPath(Replace(t, p, s), p) && At(Replace(t, p, s), p) == s
    decreases |p|
  {
    if p != [] {
      ReplaceAt(t.kids[p[0]], p[1..], s);
    }
  }
}
