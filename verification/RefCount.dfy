/** Reference counts: who holds how many references on an object, and when it is freed. */
module RefCount {
  import opened Wrappers

  /** Interfaces are numbered; interface i belongs to the object with counter owner[i], if any. */
  type Owners = seq<Option<nat>>

  predicate OwnedBy(owner: Owners, i: nat, o: nat) {
    i < |owner| && owner[i] == Some(o)
  }

  function One(b: bool): nat {
    if b then 1 else 0
  }

  /** How many interfaces are plugged into an interface of object o. */
  function Plugged(owner: Owners, dest: seq<nat>, o: nat): nat {
    if dest == [] then 0
    else
      var k := |dest| - 1;
      Plugged(owner, dest[..k], o) + One(OwnedBy(owner, dest[k], o))
  }

  lemma {:induction false} PluggedUpdate(owner: Owners, dest: seq<nat>, i: nat, d: nat, o: nat)
    requires i < |dest|
    ensures Plugged(owner, dest[i := d], o) ==
            Plugged(owner, dest, o) - One(OwnedBy(owner, dest[i], o)) + One(OwnedBy(owner, d, o))
    ensures OwnedBy(owner, dest[i], o) ==> Plugged(owner, dest, o) >= 1
  {
    var k := |dest| - 1;
    if i == k {
      assert dest[i := d][..k] == dest[..k];
    } else {
      PluggedUpdate(owner, dest[..k], i, d, o);
      assert dest[i := d][..k] == dest[..k][i := d];
    }
  }

  /** Adds k to the counter of an object that has one. */
  function Bump(s: seq<int>, o: Option<nat>, k: int): (r: seq<int>)
    requires o.Some? ==> o.value < |s|
    ensures |r| == |s|
  {
    if o.Some? then s[o.value := s[o.value] + k] else s
  }

  lemma BumpBack(s: seq<int>, o: Option<nat>)
    requires o.Some? ==> o.value < |s|
    ensures Bump(Bump(s, o, 1), o, -1) == s
  {
  }

  predicate InScope(owner: Owners, dest: seq<nat>, objects: nat) {
    && |dest| == |owner| > 0
    && (forall i :: 0 <= i < |dest| ==> dest[i] < |owner|)
    && (forall i :: 0 <= i < |owner| && owner[i].Some? ==> owner[i].value < objects)
  }

  /**
   The stored count plus one is the number of references: those of owners, one for every
   interface plugged in, and those held while a call is in progress.  An object has been
   freed once if it has no references left, and otherwise not at all.
   */
  ghost predicate Balanced(owner: Owners, dest: seq<nat>, count: seq<int>, freed: seq<nat>, owned: seq<int>, holds: seq<int>) {
    && |count| == |freed| == |owned| == |holds|
    && InScope(owner, dest, |count|)
    && (forall o :: 0 <= o < |count| ==> owned[o] >= 0 && holds[o] >= 0)
    && (forall o :: 0 <= o < |count| ==> count[o] + 1 == owned[o] + Plugged(owner, dest, o) + holds[o])
    && (forall o :: 0 <= o < |count| ==> freed[o] == One(count[o] < 0))
  }

  /** Interface i does not belong to a freed object. */
  predicate Alive(owner: Owners, freed: seq<nat>, i: nat) {
    i < |owner| && (owner[i].Some? ==> owner[i].value < |freed| && freed[owner[i].value] == 0)
  }

  /** Somebody other than a plugged interface keeps the object of interface i. */
  predicate Held(owner: Owners, owned: seq<int>, holds: seq<int>, i: nat) {
    && i < |owner|
    && (owner[i].Some? ==>
          && owner[i].value < |owned| && owner[i].value < |holds|
          && owned[owner[i].value] + holds[owner[i].value] >= 1)
  }

  lemma HeldAlive(owner: Owners, dest: seq<nat>, count: seq<int>, freed: seq<nat>, owned: seq<int>, holds: seq<int>, i: nat)
    requires Balanced(owner, dest, count, freed, owned, holds) && Held(owner, owned, holds, i)
    ensures Alive(owner, freed, i)
  {
  }

  /** What an interface is plugged into is kept alive by it. */
  lemma DestAlive(owner: Owners, dest: seq<nat>, count: seq<int>, freed: seq<nat>, owned: seq<int>, holds: seq<int>, i: nat)
    requires Balanced(owner, dest, count, freed, owned, holds) && i < |dest|
    ensures Alive(owner, freed, dest[i])
    ensures owner[dest[i]].Some? ==> count[owner[dest[i]].value] >= 0
  {
    if owner[dest[i]].Some? {
      PluggedUpdate(owner, dest, i, dest[i], owner[dest[i]].value);
    }
  }

  /** The free counts after a reference to o has been dropped. */
  function Released(count: seq<int>, freed: seq<nat>, o: Option<nat>): (r: seq<nat>)
    requires |count| == |freed| && (o.Some? ==> o.value < |count|)
    ensures |r| == |freed|
  {
    if o.Some? && count[o.value] == 0 then freed[o.value := freed[o.value] + 1] else freed
  }

  lemma GetBalanced(owner: Owners, dest: seq<nat>, count: seq<int>, freed: seq<nat>, owned: seq<int>, holds: seq<int>, o: Option<nat>)
    requires Balanced(owner, dest, count, freed, owned, holds)
    requires o.Some? ==> o.value < |count| && count[o.value] >= 0
    ensures Balanced(owner, dest, Bump(count, o, 1), freed, owned, Bump(holds, o, 1))
  {
  }

  lemma PutBalanced(owner: Owners, dest: seq<nat>, count: seq<int>, freed: seq<nat>, owned: seq<int>, holds: seq<int>, o: Option<nat>)
    requires Balanced(owner, dest, count, freed, owned, holds)
    requires o.Some? ==> o.value < |count| && holds[o.value] >= 1
    ensures Balanced(owner, dest, Bump(count, o, -1), Released(count, freed, o), owned, Bump(holds, o, -1))
  {
  }

  lemma DropBalanced(owner: Owners, dest: seq<nat>, count: seq<int>, freed: seq<nat>, owned: seq<int>, holds: seq<int>, o: nat)
    requires Balanced(owner, dest, count, freed, owned, holds)
    requires o < |count| && owned[o] >= 1
    ensures Balanced(owner, dest, Bump(count, Some(o), -1), Released(count, freed, Some(o)), Bump(owned, Some(o), -1), holds)
  {
  }

  /** A reference just taken on d becomes that of interface i, whose old one becomes a hold. */
  lemma MoveBalanced(owner: Owners, dest: seq<nat>, count: seq<int>, freed: seq<nat>, owned: seq<int>, holds: seq<int>, i: nat, d: nat)
    requires |count| == |holds| && InScope(owner, dest, |count|) && i < |dest| && d < |owner|
    requires Balanced(owner, dest, count, freed, owned, Bump(holds, owner[d], 1))
    requires forall o :: 0 <= o < |holds| ==> holds[o] >= 0
    ensures Balanced(owner, dest[i := d], count, freed, owned, Bump(holds, owner[dest[i]], 1))
  {
    forall o: nat | o < |count|
      ensures count[o] + 1 == owned[o] + Plugged(owner, dest[i := d], o) + Bump(holds, owner[dest[i]], 1)[o]
    {
      PluggedUpdate(owner, dest, i, d, o);
    }
  }
}
