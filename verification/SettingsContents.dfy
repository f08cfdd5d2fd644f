/** What storing and registering do to the blocks of the tree, wherever they end up among their siblings. */
module SettingsContents {
  import opened SettingsSpec
  import opened SettingsRun
  import opened SettingsLinks
  import opened Wrappers

  /** A block without its place among its siblings: what it is, its settings, and whose child it is. */
  datatype Card = Card(id: nat, name: string, fetches: bool, values: map<string, int>, parent: Option<nat>)

  /** All the blocks of a tree. */
  function Cards(t: Block, parent: Option<nat>): multiset<Card> {
    multiset{Card(t.id, t.name, t.fetches, t.values, parent)} + CardsOf(t.kids, Some(t.id))
  }

  function CardsOf(ts: seq<Block>, parent: Option<nat>): multiset<Card> {
    if ts == [] then multiset{} else Cards(ts[0], parent) + CardsOf(ts[1..], parent)
  }

  // ---------------------------------------------------------------------------
  // Lists of blocks.

  lemma {:induction false} CardsAppend(a: seq<Block>, b: seq<Block>, parent: Option<nat>)
    ensures CardsOf(a + b, parent) == CardsOf(a, parent) + CardsOf(b, parent)
  {
    hide Cards;
    if a == [] {
      assert a + b == b;
    } else {
      CardsAppend(a[1..], b, parent);
      assert (a + b)[1..] == a[1..] + b;
    }
  }

  lemma CardsOne(t: Block, parent: Option<nat>)
    ensures CardsOf([t], parent) == Cards(t, parent)
  {
    hide Cards;
    assert [t][1..] == [];
    assert CardsOf([], parent) == multiset{};
  }

  /** The blocks of a list are those of one of its members and those of the others. */
  lemma CardsRemove(ts: seq<Block>, k: nat, parent: Option<nat>)
    requires k < |ts|
    ensures CardsOf(ts, parent) == CardsOf(RemoveAt(ts, k), parent) + Cards(ts[k], parent)
  {
    hide CardsOf, Cards;
    assert ts == ts[..k] + ([ts[k]] + ts[k + 1..]);
    CardsAppend(ts[..k], [ts[k]] + ts[k + 1..], parent);
    CardsAppend([ts[k]], ts[k + 1..], parent);
    CardsOne(ts[k], parent);
    CardsAppend(ts[..k], ts[k + 1..], parent);
  }

  lemma CardsInsert(ts: seq<Block>, k: nat, t: Block, parent: Option<nat>)
    requires k <= |ts|
    ensures CardsOf(InsertAt(ts, k, t), parent) == CardsOf(ts, parent) + Cards(t, parent)
  {
    hide CardsOf, Cards;
    var rs := InsertAt(ts, k, t);
    CardsRemove(rs, k, parent);
    assert RemoveAt(rs, k) == ts;
  }

  lemma CardsUpdate(ts: seq<Block>, k: nat, c: Block, parent: Option<nat>)
    requires k < |ts|
    ensures CardsOf(ts[k := c], parent) + Cards(ts[k], parent) == CardsOf(ts, parent) + Cards(c, parent)
  {
    hide CardsOf, Cards;
    CardsRemove(ts, k, parent);
    CardsRemove(ts[k := c], k, parent);
    assert RemoveAt(ts[k := c], k) == RemoveAt(ts, k);
  }

  // ---------------------------------------------------------------------------
  // Trees.

  /** Repairing the order moves blocks among their siblings and does nothing else. */
  lemma {:induction false} RepairCards(t: Block, p: seq<nat>, above: Option<nat>)
    requires IsPath(t, p)
    ensures Cards(Repair(t, p), above) == Cards(t, above)
    decreases |p|
  {
    hide CardsOf, Place, Priority;
    if p != [] {
      var i, c, me := p[0], Repair(t.kids[p[0]], p[1..]), Some(t.id);
      RepairCards(t.kids[i], p[1..], me);
      hide Cards;
      CardsRemove(t.kids, i, me);
      CardsPlace(RemoveAt(t.kids, i), c, me);
      CardsKids(t, Place(RemoveAt(t.kids, i), c), above);
    }
  }

  lemma CardsPlace(ts: seq<Block>, c: Block, parent: Option<nat>)
    ensures CardsOf(Place(ts, c), parent) == CardsOf(ts, parent) + Cards(c, parent)
  {
    hide CardsOf, Cards, Priority;
    CardsInsert(ts, PlaceIndex(ts, Priority(c)), c, parent);
  }

  lemma CardsKids(t: Block, kids: seq<Block>, above: Option<nat>)
    requires CardsOf(kids, Some(t.id)) == CardsOf(t.kids, Some(t.id))
    ensures Cards(t.(kids := kids), above) == Cards(t, above)
  {
    hide CardsOf;
  }

  /** Putting a block in place of another exchanges their blocks. */
  lemma {:induction false} ReplaceCards(t: Block, p: seq<nat>, s: Block, above: Option<nat>)
    requires IsPath(t, p)
    ensures Cards(Replace(t, p, s), above) + Cards(At(t, p), ParentAt(t, p, above)) ==
            Cards(t, above) + Cards(s, ParentAt(t, p, above))
    decreases |p|
  {
    if p != [] {
      hide CardsOf;
      var i, c, me := p[0], Replace(t.kids[p[0]], p[1..], s), Some(t.id);
      ReplaceCards(t.kids[i], p[1..], s, me);
      CardsUpdate(t.kids, i, c, me);
      var at, parent := At(t, p), ParentAt(t, p, above);
      Substitute(multiset{Card(t.id, t.name, t.fetches, t.values, above)}, CardsOf(t.kids[i := c], me), CardsOf(t.kids, me),
                 Cards(c, me), Cards(t.kids[i], me), Cards(at, parent), Cards(s, parent));
    }
  }

  lemma Substitute(m: multiset<Card>, r: multiset<Card>, k: multiset<Card>, c': multiset<Card>, c: multiset<Card>,
                   a: multiset<Card>, s: multiset<Card>)
    requires c' + a == c + s && r + c == k + c'
    ensures (m + r) + a == (m + k) + s
  {
    forall x
      ensures ((m + r) + a)[x] == ((m + k) + s)[x]
    {
      assert (c' + a)[x] == (c + s)[x] && (r + c)[x] == (k + c')[x];
    }
  }

  // ---------------------------------------------------------------------------
  // Storing.

  /** The setting is as stored, or absent, and all others are as they were. */
  ghost predicate SetIn(was: map<string, int>, now: map<string, int>, key: string, value: Option<int>) {
    && (key in now <==> value.Some?) && (value.Some? && key in now ==> now[key] == value.value)
    && (forall k :: k != key ==> (k in now <==> k in was))
    && (forall k :: k != key && k in was && k in now ==> now[k] == was[k])
  }

  /**
   Storing changes the settings of one block, by the setting stored.  No block is lost or
   added, and every other is what it was, with the settings and the parent that it had.
   */
  lemma StoreCards(t: Block, p: seq<nat>, key: string, value: Option<int>, above: Option<nat>) returns (now: map<string, int>)
    requires IsPath(t, p)
    ensures var b, parent := At(t, p), ParentAt(t, p, above);
            && SetIn(b.values, now, key, value)
            && Card(b.id, b.name, b.fetches, b.values, parent) in Cards(t, above)
            && Cards(Store(t, p, key, value), above) ==
               Cards(t, above) - multiset{Card(b.id, b.name, b.fetches, b.values, parent)}
               + multiset{Card(b.id, b.name, b.fetches, now, parent)}
  {
    hide CardsOf, Store;
    var b, s, parent := At(t, p), Stored(At(t, p), key, value), ParentAt(t, p, above);
    now := s.values;
    StoreReplaces(t, p, key, value, above);
    AtCards(t, p, above);
    var x, y := Card(b.id, b.name, b.fetches, b.values, parent), Card(b.id, b.name, b.fetches, now, parent);
    var rest := CardsOf(b.kids, Some(b.id));
    assert Cards(b, parent) == multiset{x} + rest && Cards(s, parent) == multiset{y} + rest;
    hide Cards;
    assert x in multiset{x} + rest;
    Exchange(Cards(Store(t, p, key, value), above), Cards(t, above), rest, x, y);
  }

  lemma StoreReplaces(t: Block, p: seq<nat>, key: string, value: Option<int>, above: Option<nat>)
    requires IsPath(t, p)
    ensures var parent := ParentAt(t, p, above);
            Cards(Store(t, p, key, value), above) + Cards(At(t, p), parent) ==
            Cards(t, above) + Cards(Stored(At(t, p), key, value), parent)
  {
    hide Cards;
    var s := Stored(At(t, p), key, value);
    ReplaceCards(t, p, s, above);
    if key == PRIORITY {
      StoredPath(t, p, key, value);
      RepairCards(Replace(t, p, s), p, above);
    }
  }

  lemma Exchange(a: multiset<Card>, b: multiset<Card>, rest: multiset<Card>, x: Card, y: Card)
    requires a + (multiset{x} + rest) == b + (multiset{y} + rest) && x in b
    ensures a == b - multiset{x} + multiset{y}
  {
    forall c
      ensures a[c] == (b - multiset{x} + multiset{y})[c]
    {
      assert (a + (multiset{x} + rest))[c] == (b + (multiset{y} + rest))[c];
    }
  }

  lemma {:induction false} AtCards(t: Block, p: seq<nat>, above: Option<nat>)
    requires IsPath(t, p)
    ensures Cards(At(t, p), ParentAt(t, p, above)) <= Cards(t, above)
    decreases |p|
  {
    if p != [] {
      hide CardsOf;
      AtCards(t.kids[p[0]], p[1..], Some(t.id));
      CardsRemove(t.kids, p[0], Some(t.id));
    }
  }

  // ---------------------------------------------------------------------------
  // The same by the identity of the block.

  lemma {:induction false} CardsIds(t: Block, parent: Option<nat>)
    ensures forall c :: c in Cards(t, parent) ==> c.id in Ids(t)
    decreases t, 0
  {
    CardsOfIds(t.kids, Some(t.id));
  }

  lemma {:induction false} CardsOfIds(ts: seq<Block>, parent: Option<nat>)
    ensures forall c :: c in CardsOf(ts, parent) ==> c.id in IdsOf(ts)
    decreases ts, |ts|
  {
    if ts != [] {
      CardsIds(ts[0], parent);
      CardsOfIds(ts[1..], parent);
      hide Cards, Ids;
    }
  }

  lemma OthersIds(t: Block, i: nat)
    requires Unique(t) && i < |t.kids|
    ensures IdsOf(RemoveAt(t.kids, i)) !! Ids(t.kids[i]) && t.id !in Ids(t.kids[i])
  {
    hide Ids, IdsOf;
    KidIds(t, i);
    var rest := RemoveAt(t.kids, i);
    forall x | x in IdsOf(rest)
      ensures x !in Ids(t.kids[i])
    {
      IdsOfMember(rest, x);
      var m :| 0 <= m < |rest| && x in Ids(rest[m]);
      var j := if m < i then m else m + 1;
      assert rest[m] == t.kids[j];
      KidsApart(t, i, j);
    }
  }

  /** No other block has the identity of the one at position p. */
  lemma {:induction false} OneCard(t: Block, p: seq<nat>, above: Option<nat>)
    requires IsPath(t, p) && Unique(t)
    ensures var b, all := At(t, p), Cards(t, above);
            var x := Card(b.id, b.name, b.fetches, b.values, ParentAt(t, p, above));
            all[x] == 1 && forall c :: c in all && c.id == b.id ==> c == x
    decreases |p|
  {
    hide Ids, IdsOf, CardsOf;
    if p == [] {
      CardsOfIds(t.kids, Some(t.id));
    } else {
      var i, me := p[0], Some(t.id);
      KidUnique(t, i);
      OneCard(t.kids[i], p[1..], me);
      AtIds(t.kids[i], p[1..]);
      IdIn(At(t, p));
      OthersIds(t, i);
      CardsOfIds(RemoveAt(t.kids, i), me);
      CardsRemove(t.kids, i, me);
    }
  }

  lemma KidUnique(t: Block, i: nat)
    requires Unique(t) && i < |t.kids|
    ensures Unique(t.kids[i])
  {
  }

  /**
   In a tree without repeated identities, the block stored into has the setting as stored
   and its others as before, and every other block is exactly what it was.
   */
  lemma StoreById(t: Block, p: seq<nat>, key: string, value: Option<int>, above: Option<nat>)
    requires IsPath(t, p) && Unique(t)
    ensures var b, all, after := At(t, p), Cards(t, above), Cards(Store(t, p, key, value), above);
            && |after| == |all|
            && (forall c: Card :: c.id != b.id ==> after[c] == all[c])
            && (exists c :: c in after && c.id == b.id)
            && (forall c :: c in after && c.id == b.id ==>
                  && c.name == b.name && c.fetches == b.fetches && c.parent == ParentAt(t, p, above)
                  && SetIn(b.values, c.values, key, value))
  {
    hide Cards, Store, SetIn;
    var now := StoreCards(t, p, key, value, above);
    OneCard(t, p, above);
    var b, all, after := At(t, p), Cards(t, above), Cards(Store(t, p, key, value), above);
    var x := Card(b.id, b.name, b.fetches, b.values, ParentAt(t, p, above));
    var y := x.(values := now);
    hide At, ParentAt;
    assert after == all - multiset{x} + multiset{y};
    assert y in after;
    forall c | c in after && c.id == b.id
      ensures c == y
    {
      assert (all - multiset{x})[x] == 0;
    }
  }

  // ---------------------------------------------------------------------------
  // Fetching what was stored.

  /** A repaired tree still has the block, with everything below it, at some position. */
  lemma {:induction false} RepairAt(t: Block, p: seq<nat>) returns (q: seq<nat>)
    requires IsPath(t, p)
    ensures IsPath(Repair(t, p), q) && At(Repair(t, p), q) == At(t, p)
    decreases |p|
  {
    hide Priority, Found;
    if p == [] {
      q := [];
    } else {
      var i, c := p[0], Repair(t.kids[p[0]], p[1..]);
      var rest := RepairAt(t.kids[i], p[1..]);
      var k := PlaceIndex(RemoveAt(t.kids, i), Priority(c));
      q := [k] + rest;
      assert Repair(t, p).kids[k] == c && q[1..] == rest;
    }
  }

  lemma {:induction false} ReplacedAt(t: Block, p: seq<nat>, s: Block)
    requires IsPath(t, p)
    ensures IsPath(Replace(t, p, s), p) && At(Replace(t, p, s), p) == s
    decreases |p|
  {
    if p != [] {
      ReplacedAt(t.kids[p[0]], p[1..], s);
    }
  }

  /**
   A block that fetches then gives the value stored, or what its children give if the
   setting was deleted, and for other settings what it gave before.
   */
  lemma StoreFetch(t: Block, p: seq<nat>, key: string, value: Option<int>) returns (q: seq<nat>)
    requires IsPath(t, p)
    ensures IsPath(Store(t, p, key, value), q)
    ensures var was, now := At(t, p), At(Store(t, p, key, value), q);
            && now.id == was.id && now.name == was.name && now.fetches == was.fetches && now.kids == was.kids
            && (was.fetches && value.Some? ==> Found(now, key) == value)
            && (was.fetches && value.None? ==> Found(now, key) == FirstFound(was.kids, key))
            && (!was.fetches ==> Found(now, key) == None)
            && forall k :: k != key ==> Found(now, k) == Found(was, k)
  {
    var s := Stored(At(t, p), key, value);
    ReplacedAt(t, p, s);
    q := p;
    if key == PRIORITY {
      q := RepairAt(Replace(t, p, s), p);
    }
    assert At(Store(t, p, key, value), q) == s;
    hide Store, Replace, Repair, FirstFound;
  }

  // ---------------------------------------------------------------------------
  // Registering.

  /**
   The blocks afterwards are those of before and of the registered block, which has become
   a child of the block at position p, less those of the child that had the same name.
   */
  lemma RegisterCards(t: Block, p: seq<nat>, s: Block, above: Option<nat>)
    requires IsPath(t, p)
    ensures var b := At(t, p);
            && ((forall k :: 0 <= k < |b.kids| ==> b.kids[k].name != s.name) ==>
                  Cards(Register(t, p, s), above) == Cards(t, above) + Cards(s, Some(b.id)))
            && forall k :: 0 <= k < |b.kids| && b.kids[k].name == s.name && DistinctNames(b.kids) ==>
                 Cards(Register(t, p, s), above) + Cards(b.kids[k], Some(b.id)) == Cards(t, above) + Cards(s, Some(b.id))
  {
    hide Cards, Register, Adopted;
    var b, parent := At(t, p), ParentAt(t, p, above);
    var r, all, added := Cards(Register(t, p, s), above), Cards(t, above), Cards(s, Some(b.id));
    RegisterReplaces(t, p, s, above);
    AdoptedCards(b, s, parent);
    var i := NameIndex(b.kids, s.name);
    var gone := if i < |b.kids| then Cards(b.kids[i], Some(b.id)) else multiset{};
    Settle(r, all, Cards(b, parent), Cards(Adopted(b, s), parent), gone, added);
    if i == |b.kids| {
      assert r + multiset{} == r;
    }
    forall k | 0 <= k < |b.kids| && b.kids[k].name == s.name && DistinctNames(b.kids)
      ensures r + Cards(b.kids[k], Some(b.id)) == all + added
    {
      assert k == i;
    }
  }

  lemma RegisterReplaces(t: Block, p: seq<nat>, s: Block, above: Option<nat>)
    requires IsPath(t, p)
    ensures var parent := ParentAt(t, p, above);
            Cards(Register(t, p, s), above) + Cards(At(t, p), parent) == Cards(t, above) + Cards(Adopted(At(t, p), s), parent)
  {
    hide Cards, Adopted;
    var b, adopted := At(t, p), Adopted(At(t, p), s);
    LastKidPath(b, s);
    ReplacePath(t, p, adopted, LastKid(b, s));
    RepairCards(Replace(t, p, adopted), p + LastKid(b, s), above);
    ReplaceCards(t, p, adopted, above);
  }

  lemma LastKidPath(b: Block, s: Block)
    ensures IsPath(Adopted(b, s), LastKid(b, s))
  {
  }

  lemma Settle(r: multiset<Card>, all: multiset<Card>, b: multiset<Card>, adopted: multiset<Card>, gone: multiset<Card>,
               added: multiset<Card>)
    requires r + b == all + adopted && adopted + gone == b + added
    ensures r + gone == all + added
  {
    forall x
      ensures (r + gone)[x] == (all + added)[x]
    {
      assert (r + b)[x] == (all + adopted)[x] && (adopted + gone)[x] == (b + added)[x];
    }
  }

  lemma AdoptedCards(b: Block, s: Block, parent: Option<nat>)
    ensures var k := NameIndex(b.kids, s.name);
            Cards(Adopted(b, s), parent) + (if k < |b.kids| then Cards(b.kids[k], Some(b.id)) else multiset{}) ==
            Cards(b, parent) + Cards(s, Some(b.id))
  {
    hide CardsOf;
    var k, kids, me := NameIndex(b.kids, s.name), Evicted(b.kids, s.name), Some(b.id);
    CardsAppend(kids, [s], me);
    CardsOne(s, me);
    if k < |b.kids| {
      CardsRemove(b.kids, k, me);
    }
  }
}
