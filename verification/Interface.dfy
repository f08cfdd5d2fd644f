/** Object interfaces: plugging, and the mutual recursion of close, shutdown and restart. */
module Interface {
  import opened RefCount
  import opened Wrappers

  /**
   What an interface does when what is plugged into it closes: nothing, because it has been
   nullified; nothing, by its own handler; shut itself down; restart itself; or, having no
   handler, the default.
   */
  datatype Desc = Null | Ignore | ShutsDown | Restarts | Default

  /** Closing towards an interface with this descriptor shuts that interface down. */
  predicate Active(d: Desc) {
    d.ShutsDown? || d.Restarts? || d.Default?
  }

  function ActiveCount(desc: seq<Desc>): nat {
    if desc == [] then 0
    else ActiveCount(desc[..|desc| - 1]) + One(Active(desc[|desc| - 1]))
  }

  lemma {:induction false} NullifyCount(desc: seq<Desc>, i: nat)
    requires i < |desc|
    ensures ActiveCount(desc[i := Null]) == ActiveCount(desc) - One(Active(desc[i]))
  {
    var k := |desc| - 1;
    if i == k {
      assert desc[i := Null][..k] == desc[..k];
    } else {
      NullifyCount(desc[..k], i);
      assert desc[i := Null][..k] == desc[..k][i := Null];
    }
  }

  predicate Graph(dest: seq<nat>, desc: seq<Desc>) {
    |dest| == |desc| && forall i :: 0 <= i < |dest| ==> dest[i] < |desc|
  }

  /**
   The interfaces a shutdown of interface i reaches: i, and then whatever each is plugged
   into, for as long as that would itself shut down and has not been reached before.
   */
  ghost function Chain(dest: seq<nat>, desc: seq<Desc>, i: nat): (c: seq<nat>)
    requires Graph(dest, desc) && i < |dest|
    ensures c != [] && c[0] == i && forall k :: 0 <= k < |c| ==> c[k] < |dest|
    decreases ActiveCount(desc[i := Null])
  {
    NullifyCount(desc, i);
    var blocked, d := desc[i := Null], dest[i];
    NullifyCount(blocked, d);
    [i] + if Active(blocked[d]) then Chain(dest, blocked, d) else []
  }

  lemma ChainStep(dest: seq<nat>, desc: seq<Desc>, i: nat)
    requires Graph(dest, desc) && i < |dest|
    ensures var blocked, d := desc[i := Null], dest[i];
            Chain(dest, desc, i) == [i] + if Active(blocked[d]) then Chain(dest, blocked, d) else []
  {
  }

  /** A path along the plugs that visits nothing twice and goes on only through active interfaces. */
  ghost predicate Path(dest: seq<nat>, desc: seq<Desc>, c: seq<nat>) {
    && Graph(dest, desc)
    && (forall k :: 0 <= k < |c| ==> c[k] < |dest|)
    && (forall k :: 0 < k < |c| ==> Active(desc[c[k]]))
    && (forall k :: 0 < k < |c| ==> c[k] == dest[c[k - 1]])
    && (forall j, k :: 0 <= j < k < |c| ==> c[j] != c[k])
  }

  lemma PathCons(dest: seq<nat>, desc: seq<Desc>, i: nat, rest: seq<nat>)
    requires Graph(dest, desc) && i < |dest| && rest != []
    requires Path(dest, desc[i := Null], rest) && rest[0] == dest[i] && Active(desc[i := Null][rest[0]])
    ensures Path(dest, desc, [i] + rest)
  {
    var c, blocked := [i] + rest, desc[i := Null];
    forall k | 0 <= k < |rest|
      ensures rest[k] != i && Active(desc[rest[k]])
    {
      assert Active(blocked[rest[k]]);
    }
    forall k | 0 < k < |c|
      ensures c[k] == rest[k - 1] && c[k] == dest[c[k - 1]]
    {
    }
    hide Active;
  }

  /** A shutdown visits nothing twice, and goes on only through active interfaces. */
  lemma {:induction false} ChainIsPath(dest: seq<nat>, desc: seq<Desc>, i: nat)
    requires Graph(dest, desc) && i < |dest|
    ensures Path(dest, desc, Chain(dest, desc, i))
    decreases ActiveCount(desc[i := Null])
  {
    NullifyCount(desc, i);
    var blocked, d := desc[i := Null], dest[i];
    NullifyCount(blocked, d);
    ChainStep(dest, desc, i);
    if Active(blocked[d]) {
      ChainIsPath(dest, blocked, d);
      PathCons(dest, desc, i, Chain(dest, blocked, d));
    }
  }

  /** Of two interfaces plugged into each other, shutting down one unplugs exactly both. */
  lemma PairChain(dest: seq<nat>, desc: seq<Desc>, a: nat, b: nat)
    requires Graph(dest, desc) && a < |dest| && b < |dest| && a != b
    requires dest[a] == b && dest[b] == a && Active(desc[b])
    ensures Chain(dest, desc, a) == [a, b]
  {
    ChainStep(dest, desc, a);
    ChainStep(dest, desc[a := Null], b);
  }

  /** Every interface reached is unplugged; the others keep their destinations. */
  ghost predicate Unplugged(before: seq<nat>, after: seq<nat>, chain: seq<nat>) {
    |after| == |before| && forall j :: 0 <= j < |before| ==> after[j] == if j in chain then 0 else before[j]
  }

  /** The interfaces reached that shut down for good are nullified; the others are as before. */
  ghost predicate Closed(before: seq<Desc>, after: seq<Desc>, chain: seq<nat>) {
    && |after| == |before|
    && forall j :: 0 <= j < |before| ==> after[j] == if j in chain && before[j].ShutsDown? then Null else before[j]
  }

  /** What closing interface i does to the plugs and descriptors. */
  ghost predicate CloseEffect(dest: seq<nat>, desc: seq<Desc>, dest': seq<nat>, desc': seq<Desc>, i: nat)
    requires Graph(dest, desc) && i < |dest|
  {
    var d := dest[i];
    if Active(desc[d]) then
      Unplugged(dest, dest', Chain(dest, desc, d)) && Closed(desc, desc', Chain(dest, desc, d))
    else
      dest' == dest && desc' == desc
  }

  ghost predicate ShutdownEffect(dest: seq<nat>, desc: seq<Desc>, dest': seq<nat>, desc': seq<Desc>, i: nat)
    requires Graph(dest, desc) && i < |dest|
  {
    Unplugged(dest, dest', Chain(dest, desc, i)) && Closed(desc[i := Null], desc', Chain(dest, desc, i))
  }

  lemma ShutdownFromClose(dest: seq<nat>, desc: seq<Desc>, dest': seq<nat>, desc': seq<Desc>, i: nat)
    requires Graph(dest, desc) && i < |dest| == |dest'|
    requires CloseEffect(dest, desc[i := Null], dest', desc', i)
    ensures ShutdownEffect(dest, desc, dest'[i := 0], desc', i)
  {
    ChainStep(dest, desc, i);
    hide Chain;
  }

  lemma CloseFromShutdown(dest: seq<nat>, desc: seq<Desc>, dest': seq<nat>, desc': seq<Desc>, i: nat)
    requires Graph(dest, desc) && i < |dest| && desc[dest[i]].ShutsDown?
    requires ShutdownEffect(dest, desc, dest', desc', dest[i])
    ensures CloseEffect(dest, desc, dest', desc', i)
  {
    hide Chain;
    var d := dest[i];
    assert Chain(dest, desc, d)[0] == d;
  }

  lemma CloseFromRestart(dest: seq<nat>, desc: seq<Desc>, dest': seq<nat>, desc': seq<Desc>, i: nat)
    requires Graph(dest, desc) && i < |dest| && |desc'| == |desc|
    requires desc[dest[i]].Restarts? || desc[dest[i]].Default?
    requires ShutdownEffect(dest, desc, dest', desc'[dest[i] := Null], dest[i]) && desc'[dest[i]] == desc[dest[i]]
    ensures CloseEffect(dest, desc, dest', desc', i)
  {
    hide Chain;
    var d, chain := dest[i], Chain(dest, desc, dest[i]);
    forall j | 0 <= j < |desc|
      ensures desc'[j] == if j in chain && desc[j].ShutsDown? then Null else desc[j]
    {
      if j != d {
        assert desc'[j] == desc'[d := Null][j] && desc[j] == desc[d := Null][j];
      }
    }
  }

  class World {
    /** The counter of the object that interface i is part of; interface 0 is the null interface. */
    const owner: Owners

    var dest: seq<nat>
    var desc: seq<Desc>
    var count: seq<int>
    var freed: seq<nat>
    /** References of owners, and references held by calls in progress. */
    ghost var owned: seq<int>
    ghost var holds: seq<int>

    ghost predicate Valid()
      reads this
    {
      && |count| == |freed| == |owned| == |holds| && InScope(owner, dest, |count|)
      && (forall o :: 0 <= o < |holds| ==> holds[o] >= 0)
      && Balanced(owner, dest, count, freed, owned, holds)
      && |desc| == |dest| && desc[0] == Null && dest[0] == 0 && owner[0] == None
    }

    /** New objects, each with one owner; every interface is plugged into the null interface. */
    constructor (owner: Owners, desc: seq<Desc>, objects: nat)
      requires |owner| == |desc| > 0 && owner[0] == None && desc[0] == Null
      requires forall i :: 0 <= i < |owner| && owner[i].Some? ==> owner[i].value < objects
      ensures Valid() && this.owner == owner && this.desc == desc
      ensures |count| == objects && forall o :: 0 <= o < objects ==> owned[o] == 1 && holds[o] == 0
    {
      this.owner, this.desc := owner, desc;
      dest := seq(|owner|, _ => 0);
      count, freed := seq(objects, _ => 0), seq(objects, _ => 0);
      owned, holds := seq(objects, _ => 1), seq(objects, _ => 0);
      NothingPlugged(owner, |owner|);
    }

    // -------------------------------------------------------------------------
    // Memory of an interface is touched only while its object has not been freed.

    method GetDest(i: nat) returns (d: nat)
      requires Alive(owner, freed, i) && i < |dest|
      ensures d == dest[i]
    {
      d := dest[i];
    }

    method SetDest(i: nat, d: nat)
      requires Alive(owner, freed, i) && i < |dest|
      modifies `dest
      ensures dest == old(dest)[i := d]
    {
      dest := dest[i := d];
    }

    method GetDesc(i: nat) returns (d: Desc)
      requires Alive(owner, freed, i) && i < |desc|
      ensures d == desc[i]
    {
      d := desc[i];
    }

    method SetDesc(i: nat, d: Desc)
      requires Alive(owner, freed, i) && i < |desc|
      modifies `desc
      ensures desc == old(desc)[i := d]
    {
      desc := desc[i := d];
    }

    // -------------------------------------------------------------------------
    // Reference counters.

    method RefIncrement(o: Option<nat>)
      requires |count| == |freed| && (o.Some? ==> o.value < |count| && freed[o.value] == 0)
      modifies `count
      ensures count == Bump(old(count), o, 1)
    {
      if o.Some? {
        count := count[o.value := count[o.value] + 1];
      }
    }

    /** Frees the object when the last reference goes, and never again after that. */
    method RefDecrement(o: Option<nat>)
      requires |count| == |freed| && (o.Some? ==> o.value < |count|)
      modifies `count, `freed
      ensures count == Bump(old(count), o, -1) && freed == Released(old(count), old(freed), o)
    {
      if o.None? {
        return;
      }
      count := count[o.value := count[o.value] - 1];
      if count[o.value] >= 0 {
        return;
      }
      if count[o.value] < -1 {
        return;
      }
      freed := freed[o.value := freed[o.value] + 1];
    }

    /** An owner drops its reference. */
    method Release(o: nat)
      requires Valid() && o < |count| && owned[o] >= 1
      modifies `count, `freed, `owned
      ensures Valid() && owned == Bump(old(owned), Some(o), -1)
      ensures freed[o] == One(owned[o] + Plugged(owner, dest, o) + holds[o] == 0)
    {
      DropBalanced(owner, dest, count, freed, owned, holds, o);
      RefDecrement(Some(o));
      owned := Bump(owned, Some(o), -1);
    }

    // -------------------------------------------------------------------------
    // Plugging.

    /** Plugs interface i into interface d; d's object must be alive, i's must be held. */
    method Plug(i: nat, d: nat)
      requires Valid() && i < |dest| && d < |dest| && (i == 0 ==> d == 0) && Alive(owner, freed, d)
      requires Held(owner, owned, holds, i)
      modifies `dest, `count, `freed
      ensures Valid() && dest == old(dest)[i := d]
    {
      hide Balanced;
      ghost var holds0 := holds;
      AliveCount(owner, dest, count, freed, owned, holds, d);
      GetBalanced(owner, dest, count, freed, owned, holds, owner[d]);
      RefIncrement(owner[d]);
      MoveBalanced(owner, dest, count, freed, owned, holds, i, d);
      HeldAlive(owner, dest, old(count), freed, owned, holds, i);
      var was := GetDest(i);
      PutBalanced(owner, dest[i := d], count, freed, owned, Bump(holds, owner[was], 1), owner[was]);
      BumpBack(holds, owner[was]);
      RefDecrement(owner[was]);
      HeldAlive(owner, dest[i := d], count, freed, owned, holds, i);
      SetDest(i, d);
    }

    /** Plugs two interfaces into each other. */
    method PlugPlug(a: nat, b: nat)
      requires Valid() && 0 < a < |dest| && 0 < b < |dest|
      requires Held(owner, owned, holds, a) && Held(owner, owned, holds, b)
      modifies `dest, `count, `freed
      ensures Valid() && dest == old(dest)[a := b][b := a]
    {
      HeldAlive(owner, dest, count, freed, owned, holds, b);
      Plug(a, b);
      HeldAlive(owner, dest, count, freed, owned, holds, a);
      Plug(b, a);
    }

    method Unplug(i: nat)
      requires Valid() && i < |dest| && Held(owner, owned, holds, i)
      modifies `dest, `count, `freed
      ensures Valid() && dest == old(dest)[i := 0]
    {
      Plug(i, 0);
    }

    /** Ignores all further operations on an interface. */
    method Nullify(i: nat)
      requires Valid() && i < |dest| && Held(owner, owned, holds, i)
      modifies `desc
      ensures Valid() && desc == old(desc)[i := Null]
    {
      HeldAlive(owner, dest, count, freed, owned, holds, i);
      SetDesc(i, Null);
    }

    // -------------------------------------------------------------------------
    // Closing.

    /** Holds the object of interface d for the duration of a call. */
    method Get(d: nat)
      requires Valid() && d < |dest| && Alive(owner, freed, d)
      modifies `count, `holds
      ensures Valid() && holds == Bump(old(holds), owner[d], 1)
      ensures Held(owner, owned, holds, d) && Alive(owner, freed, d)
    {
      AliveCount(owner, dest, count, freed, owned, holds, d);
      GetBalanced(owner, dest, count, freed, owned, holds, owner[d]);
      RefIncrement(owner[d]);
      holds := Bump(holds, owner[d], 1);
    }

    /** Ends a hold on the object of interface d. */
    method Put(d: nat, ghost before: seq<int>)
      requires Valid() && d < |dest| && |before| == |holds| && holds == Bump(before, owner[d], 1)
      requires forall o :: 0 <= o < |before| ==> before[o] >= 0
      modifies `count, `freed, `holds
      ensures Valid() && holds == before
    {
      PutBalanced(owner, dest, count, freed, owned, holds, owner[d]);
      BumpBack(before, owner[d]);
      RefDecrement(owner[d]);
      holds := before;
    }

    /** Tells the destination of interface i that it is being closed. */
    method Close(i: nat)
      requires Valid() && i < |dest| && Held(owner, owned, holds, i)
      modifies `dest, `desc, `count, `freed, `holds
      ensures Valid() && holds == old(holds)
      ensures CloseEffect(old(dest), old(desc), dest, desc, i)
      decreases ActiveCount(desc), 0
    {
      hide Balanced, Chain, ActiveCount, Unplugged, Closed, Plugged, Bump;
      HeldAlive(owner, dest, count, freed, owned, holds, i);
      var d := GetDest(i);
      DestAlive(owner, dest, count, freed, owned, holds, i);
      Get(d);
      NullifyCount(desc, d);
      var handler := GetDesc(d);
      match handler {
        case Null =>
        case Ignore =>
        case ShutsDown =>
          Shutdown(d);
          CloseFromShutdown(old(dest), old(desc), dest, desc, i);
        case Restarts =>
          Restart(d);
          CloseFromRestart(old(dest), old(desc), dest, desc, i);
        case Default =>
          Restart(d);
          CloseFromRestart(old(dest), old(desc), dest, desc, i);
      }
      Put(d, old(holds));
    }

    /** Blocks further operations on interface i, tells its destination, and unplugs it. */
    method Shutdown(i: nat)
      requires Valid() && i < |dest| && Held(owner, owned, holds, i)
      modifies `dest, `desc, `count, `freed, `holds
      ensures Valid() && holds == old(holds)
      ensures ShutdownEffect(old(dest), old(desc), dest, desc, i)
      decreases ActiveCount(desc[i := Null]), 1
    {
      hide Balanced, Chain, ActiveCount, Unplugged, Closed, Plugged;
      Nullify(i);
      Close(i);
      ShutdownFromClose(old(dest), old(desc), dest, desc, i);
      Unplug(i);
    }

    /** Shuts interface i down and then lets it receive operations again. */
    method Restart(i: nat)
      requires Valid() && i < |dest| && Held(owner, owned, holds, i)
      modifies `dest, `desc, `count, `freed, `holds
      ensures Valid() && holds == old(holds)
      ensures ShutdownEffect(old(dest), old(desc), dest, desc[i := Null], i) && desc[i] == old(desc)[i]
      decreases ActiveCount(desc[i := Null]), 2
    {
      hide Balanced, Chain, ActiveCount, Plugged;
      HeldAlive(owner, dest, count, freed, owned, holds, i);
      var saved := GetDesc(i);
      Shutdown(i);
      HeldAlive(owner, dest, count, freed, owned, holds, i);
      assert desc[i] == Null;
      assert desc[i := Null] == desc;
      SetDesc(i, saved);
    }
  }

  lemma {:induction false} NothingPlugged(owner: Owners, n: nat)
    requires owner != [] && owner[0] == None
    ensures var none := seq(n, _ => 0); forall o :: Plugged(owner, none, o) == 0
  {
    if n > 0 {
      NothingPlugged(owner, n - 1);
      assert seq(n, _ => 0)[..n - 1] == seq(n - 1, _ => 0);
    }
  }

  lemma AliveCount(owner: Owners, dest: seq<nat>, count: seq<int>, freed: seq<nat>, owned: seq<int>, holds: seq<int>, i: nat)
    requires Balanced(owner, dest, count, freed, owned, holds) && Alive(owner, freed, i)
    ensures |count| == |freed| == |holds| && InScope(owner, dest, |count|)
    ensures forall o :: 0 <= o < |holds| ==> holds[o] >= 0
    ensures owner[i].Some? ==> owner[i].value < |count| && count[owner[i].value] >= 0
  {
  }
}
