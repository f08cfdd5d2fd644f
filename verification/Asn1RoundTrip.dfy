/** What a builder puts together, a cursor takes apart. */
module Asn1RoundTrip {
  import opened Bits
  import opened Asn1Spec
  import opened Asn1Cursor
  import opened Asn1Builder

  /** The path leads to an object: which one at each level, going down into constructed ones. */
  ghost predicate HasObject(os: seq<Object>, path: seq<nat>)
    decreases |path|
  {
    && path != [] && path[0] < |os|
    && (|path| > 1 ==> os[path[0]].Constructed? && HasObject(os[path[0]].items, path[1..]))
  }

  ghost function ObjectAt(os: seq<Object>, path: seq<nat>): Object
    requires HasObject(os, path)
    decreases |path|
  {
    if |path| == 1 then os[path[0]] else ObjectAt(os[path[0]].items, path[1..])
  }

  lemma {:induction false} ItemEncodable(os: seq<Object>, k: nat)
    requires AllEncodable(os) && k < |os|
    ensures Encodable(os[k])
    ensures os[k].Constructed? ==> AllEncodable(os[k].items) && Body(os[k]) == EncodeAll(os[k].items)
  {
    if k > 0 {
      ItemEncodable(os[1..], k - 1);
    }
  }

  lemma {:induction false} ObjectEncodable(os: seq<Object>, path: seq<nat>)
    requires AllEncodable(os) && HasObject(os, path)
    ensures Encodable(ObjectAt(os, path))
    decreases |path|
  {
    ItemEncodable(os, path[0]);
    if |path| > 1 {
      ObjectEncodable(os[path[0]].items, path[1..]);
    }
  }

  /** Skipping and entering reaches the body of an object at any depth. */
  method ReadAt(cursor: Cursor, ghost os: seq<Object>, path: seq<nat>)
    requires cursor.Valid() && AllEncodable(os) && HasObject(os, path) && cursor.View() == EncodeAll(os)
    modifies cursor
    ensures cursor.Valid() && Encodable(ObjectAt(os, path)) && cursor.View() == Body(ObjectAt(os, path))
    decreases |path|
  {
    hide Encodable, EncodeAll, Body, AllEncodable;
    ghost var k := path[0];
    SkipTo(cursor, os, path[0]);
    ItemEncodable(os, k);
    var rc := EnterObject(cursor, os[k..], ASN1_ANY);
    assert os[k..][0] == os[k];
    if |path| > 1 {
      ReadAt(cursor, os[k].items, path[1..]);
    }
  }

  /** Builds objects by any sequence of operations, and reads the body of any object in them back. */
  method BuildAndRead(ops: seq<Op>, raw: seq<seq<byte>>, granted: nat -> bool, path: seq<nat>)
    returns (ok: bool, body: seq<byte>)
    requires LegalOps(ops) && |raw| == |ops| && HasObject(BuiltAll(ops), path)
    requires forall n :: 0 <= n < |ops| && ops[n].RawOp? ==> AllEncodable(ops[n].objects) && raw[n] == EncodeAll(ops[n].objects)
    ensures (forall n :: 0 <= n < |ops| ==> granted(n)) ==> ok
    ensures ok ==>
              && AllEncodable(BuiltAll(ops)) && Encodable(ObjectAt(BuiltAll(ops), path))
              && body == Body(ObjectAt(BuiltAll(ops), path))
  {
    hide Encodable, EncodeAll, Body;
    var builder, built := Build(ops, raw, granted);
    if !built {
      return false, [];
    }
    var bytes := if builder.data == null then [] else builder.data[..];
    var cursor := new Cursor(bytes);
    ReadAt(cursor, BuiltAll(ops), path);
    return true, cursor.memory[cursor.data..cursor.data + cursor.len];
  }
}
