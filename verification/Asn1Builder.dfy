/** Builders that put encoded objects together from the end. */
module Asn1Builder {
  import opened Bits
  import opened Asn1Spec

  /** The largest number of length octets: one, and those of a size_t. */
  const MAX_LEN_LEN: nat := 9

  method CountOctets(len: nat) returns (n: nat)
    ensures n == OctetCount(len)
  {
    n := 0;
    var temp := len;
    while temp > 0
      invariant OctetCount(len) == n + OctetCount(temp)
    {
      n := n + 1;
      temp := temp / 256;
    }
  }

  /** Writes the octets of a length from the last to the first. */
  method FillOctets(length: array<byte>, len: nat, n: nat)
    requires n == OctetCount(len) && n < length.Length
    modifies length
    ensures length[0] == old(length[0]) && length[1..n + 1] == Octets(len)
  {
    hide Octets, OctetCount;
    var temp, k := len, n;
    assert length[n + 1..n + 1] == [];
    while temp > 0
      invariant 0 <= k <= n && k == OctetCount(temp) && length[0] == old(length[0])
      invariant Octets(len) == Octets(temp) + length[k + 1..n + 1]
    {
      OctetsStep(temp);
      ghost var after := length[k + 1..n + 1];
      length[k] := temp % 256;
      assert length[k..n + 1] == [temp % 256] + after;
      temp := temp / 256;
      k := k - 1;
    }
    OctetsNone();
  }

  lemma OctetsStep(n: nat)
    requires n > 0
    ensures OctetCount(n) == 1 + OctetCount(n / 256) && Octets(n) == Octets(n / 256) + [n % 256]
  {
  }

  lemma OctetsNone()
    ensures Octets(0) == [] && OctetCount(0) == 0
  {
  }

  /** Type and length octets of an object. */
  method MakeHeader(tag: byte, len: nat) returns (h: seq<byte>)
    requires len < 0x1_0000_0000
    ensures h == Header(tag, len)
  {
    hide Octets, OctetCount;
    SmallLength(len);
    var length := new byte[MAX_LEN_LEN];
    if len < 0x80 {
      length[0] := len;
      return [tag] + length[..1];
    }
    var n := CountOctets(len);
    length[0] := 0x80 + n;
    FillOctets(length, len, n);
    h := [tag] + length[..n + 1];
    assert length[..n + 1] == [length[0]] + length[1..n + 1];
  }

  lemma TwoCopies(was: seq<byte>, first: seq<byte>, second: seq<byte>, a: seq<byte>, b: seq<byte>)
    requires |a| + |b| <= |was| && first == was[..0] + a + was[0 + |a|..]
    requires second == first[..|a|] + b + first[|a| + |b|..]
    ensures second == a + b + was[|a| + |b|..]
  {
    assert first[..|a|] == a && first[|a| + |b|..] == was[|a| + |b|..];
  }

  class Builder {
    /** The bytes so far; no bytes but a length means that memory ran out. */
    var data: array?<byte>
    var len: nat

    ghost predicate Valid()
      reads this
    {
      data != null ==> data.Length == len
    }

    /** Memory ran out while there was something to lose. */
    ghost predicate Broken()
      reads this
    {
      data == null && len != 0
    }

    ghost function Contents(): seq<byte>
      reads this, data
    {
      if data == null then [] else data[..]
    }

    constructor ()
      ensures Valid() && !Broken() && Contents() == [] && data == null
    {
      data, len := null, 0;
    }

    /** Makes room for `extra` bytes in front; `granted` says whether memory could be had. */
    method Grow(extra: nat, granted: bool) returns (ok: bool)
      requires Valid()
      modifies this
      ensures Valid()
      ensures ok == (granted && !old(Broken()))
      ensures ok ==> data != null && fresh(data) && len == old(len) + extra && data[extra..] == old(Contents())
      ensures !ok ==> data == null && len == old(len)
    {
      if len != 0 && data == null {
        return false;
      }
      if !granted {
        data := null;
        return false;
      }
      var newLen := len + extra;
      var bytes := new byte[newLen];
      if data != null {
        var i := len;
        while i > 0
          invariant 0 <= i <= len && data != null && data.Length == len && data == old(data)
          invariant bytes.Length == newLen && bytes[extra + i..] == data[i..]
        {
          i := i - 1;
          ghost var after := bytes[extra + i + 1..];
          bytes[extra + i] := data[i];
          assert bytes[extra + i..] == [data[i]] + after && data[i..] == [data[i]] + data[i + 1..];
        }
        assert data[0..] == data[..];
      }
      data := bytes;
      len := newLen;
      return true;
    }

    method CopyIn(at: nat, s: seq<byte>)
      requires data != null && at + |s| <= data.Length
      modifies data
      ensures data[..] == old(data[..])[..at] + s + old(data[..])[at + |s|..]
    {
      ghost var was := data[..];
      var i := 0;
      while i < |s|
        invariant 0 <= i <= |s|
        invariant data[..] == was[..at] + s[..i] + was[at + i..]
      {
        data[at + i] := s[i];
        i := i + 1;
      }
    }

    method PrependRaw(bytes: seq<byte>, granted: bool) returns (ok: bool)
      requires Valid()
      modifies this, data
      ensures Valid() && ok == (granted && !old(Broken()))
      ensures ok ==> !Broken() && data != null && fresh(data) && Contents() == bytes + old(Contents())
      ensures !ok ==> data == null && len == old(len)
    {
      ok := Grow(|bytes|, granted);
      if !ok {
        return;
      }
      CopyIn(0, bytes);
    }

    method Prepend(tag: byte, body: seq<byte>, granted: bool) returns (ok: bool)
      requires Valid() && |body| < 0x8000_0000
      modifies this, data
      ensures Valid() && ok == (granted && !old(Broken()))
      ensures ok ==> !Broken() && data != null && fresh(data) && Contents() == Header(tag, |body|) + body + old(Contents())
      ensures !ok ==> data == null && len == old(len)
    {
      hide Header;
      var header := MakeHeader(tag, |body|);
      ok := Grow(|header| + |body|, granted);
      if !ok {
        return;
      }
      ghost var was := data[..];
      assert data[|header| + |body|..] == was[|header| + |body|..];
      CopyIn(0, header);
      ghost var first := data[..];
      CopyIn(|header|, body);
      TwoCopies(was, first, data[..], header, body);
    }

    /** Puts what there is into one object. */
    method Wrap(tag: byte, granted: bool) returns (ok: bool)
      requires Valid() && len < 0x8000_0000
      modifies this, data
      ensures Valid() && ok == (granted && !old(Broken()))
      ensures ok ==> !Broken() && data != null && fresh(data) && Contents() == Header(tag, old(len)) + old(Contents())
      ensures !ok ==> data == null && len == old(len)
    {
      hide Header;
      var header := MakeHeader(tag, len);
      ok := Grow(|header|, granted);
      if !ok {
        return;
      }
      CopyIn(0, header);
    }
  }

  // ---------------------------------------------------------------------------
  // Whole constructions.

  datatype Op = PrependOp(tag: byte, body: seq<byte>) | RawOp(objects: seq<Object>) | WrapOp(tag: byte)

  /** The objects in the builder after one more operation. */
  function Built(os: seq<Object>, op: Op): seq<Object> {
    match op
    case PrependOp(tag, body) => [Primitive(tag, body)] + os
    case RawOp(objects) => objects + os
    case WrapOp(tag) => [Constructed(tag, os)]
  }

  function BuiltAll(ops: seq<Op>): seq<Object> {
    if ops == [] then [] else Built(BuiltAll(ops[..|ops| - 1]), ops[|ops| - 1])
  }

  /** All the objects on the way stay below 2^31 bytes. */
  ghost predicate Fits(os: seq<Object>) {
    AllEncodable(os) && |EncodeAll(os)| < 0x8000_0000
  }

  lemma {:induction false} EncodeAppend(a: seq<Object>, b: seq<Object>)
    requires AllEncodable(a) && AllEncodable(b)
    ensures AllEncodable(a + b) && EncodeAll(a + b) == EncodeAll(a) + EncodeAll(b)
  {
    hide Encode, Encodable, EncodeAll, AllEncodable;
    if a == [] {
      EncodeNone();
      assert a + b == b && [] + EncodeAll(b) == EncodeAll(b);
    } else {
      assert a == [a[0]] + a[1..] && a + b == [a[0]] + (a[1..] + b);
      EncodeCons(a[0], a[1..]);
      EncodeAppend(a[1..], b);
      EncodeCons(a[0], a[1..] + b);
      assert (Encode(a[0]) + EncodeAll(a[1..])) + EncodeAll(b) == Encode(a[0]) + (EncodeAll(a[1..]) + EncodeAll(b));
    }
  }

  lemma EncodeNone()
    ensures AllEncodable([]) && EncodeAll([]) == []
  {
  }

  lemma EncodeCons(o: Object, os: seq<Object>)
    ensures AllEncodable([o] + os) <==> Encodable(o) && AllEncodable(os)
    ensures AllEncodable([o] + os) ==> EncodeAll([o] + os) == Encode(o) + EncodeAll(os)
  {
    hide Encode, Encodable;
    assert ([o] + os)[0] == o && ([o] + os)[1..] == os;
  }

  lemma EncodeOne(o: Object)
    requires Encodable(o)
    ensures AllEncodable([o]) && EncodeAll([o]) == Encode(o)
  {
    assert [o][1..] == [];
  }

  ghost predicate LegalOp(op: Op) {
    (op.PrependOp? ==> |op.body| < 0x8000_0000) && (op.RawOp? ==> AllEncodable(op.objects))
  }

  /** The bytes in the builder after one more operation. */
  ghost function Written(bytes: seq<byte>, op: Op): seq<byte>
    requires LegalOp(op) && |bytes| < 0x8000_0000
  {
    if op.PrependOp? then Header(op.tag, |op.body|) + op.body + bytes
    else if op.RawOp? then EncodeAll(op.objects) + bytes
    else Header(op.tag, |bytes|) + bytes
  }

  /** Each operation writes the encoding of the objects it describes. */
  lemma BuiltEncodes(os: seq<Object>, op: Op)
    requires Fits(os) && LegalOp(op)
    ensures AllEncodable(Built(os, op)) && EncodeAll(Built(os, op)) == Written(EncodeAll(os), op)
  {
    match op
    case PrependOp(tag, body) =>
      EncodeOne(Primitive(tag, body));
      EncodeAppend([Primitive(tag, body)], os);
    case RawOp(objects) =>
      EncodeAppend(objects, os);
    case WrapOp(tag) =>
      EncodeOne(Constructed(tag, os));
  }

  ghost predicate LegalOps(ops: seq<Op>) {
    forall n :: 0 <= n <= |ops| ==> Fits(BuiltAll(ops[..n])) && (n < |ops| ==> LegalOp(ops[n]))
  }

  /** One operation; `raw` are the bytes of objects added raw. */
  method BuildOne(builder: Builder, op: Op, raw: seq<byte>, granted: bool, ghost os: seq<Object>) returns (ok: bool)
    requires builder.Valid() && !builder.Broken() && Fits(os) && builder.Contents() == EncodeAll(os)
    requires LegalOp(op) && (op.RawOp? ==> raw == EncodeAll(op.objects))
    modifies builder, builder.data
    ensures builder.Valid() && ok == granted
    ensures ok ==> !builder.Broken() && builder.data != null && fresh(builder.data)
    ensures ok ==> AllEncodable(Built(os, op)) && builder.Contents() == EncodeAll(Built(os, op))
    ensures !ok ==> builder.data == null
  {
    hide AllEncodable, EncodeAll, Header, Built;
    BuiltEncodes(os, op);
    match op {
      case PrependOp(tag, body) => ok := builder.Prepend(tag, body, granted);
      case RawOp(_) => ok := builder.PrependRaw(raw, granted);
      case WrapOp(tag) => ok := builder.Wrap(tag, granted);
    }
  }

  lemma BuiltNext(ops: seq<Op>, n: nat)
    requires n < |ops|
    ensures BuiltAll(ops[..n + 1]) == Built(BuiltAll(ops[..n]), ops[n])
  {
    hide Built;
    assert ops[..n + 1][..n] == ops[..n];
  }

  /**
   Any sequence of operations leaves the encoding of the objects it describes, unless memory
   runs out; `raw` are the bytes of the objects added raw.
   */
  method Build(ops: seq<Op>, raw: seq<seq<byte>>, granted: nat -> bool) returns (builder: Builder, ok: bool)
    requires LegalOps(ops) && |raw| == |ops|
    requires forall n :: 0 <= n < |ops| && ops[n].RawOp? ==> AllEncodable(ops[n].objects) && raw[n] == EncodeAll(ops[n].objects)
    ensures builder.Valid()
    ensures ok ==> AllEncodable(BuiltAll(ops)) && builder.Contents() == EncodeAll(BuiltAll(ops)) && !builder.Broken()
    ensures !ok ==> builder.Contents() == [] && exists n :: 0 <= n < |ops| && !granted(n)
  {
    hide AllEncodable, EncodeAll, Built, BuiltAll, LegalOp;
    builder := new Builder();
    ok := true;
    var n := 0;
    assert ops[..0] == [];
    EmptyForest();
    while n < |ops|
      invariant 0 <= n <= |ops| && builder.Valid() && !builder.Broken() && fresh(builder) && (builder.data != null ==> fresh(builder.data))
      invariant Fits(BuiltAll(ops[..n])) && builder.Contents() == EncodeAll(BuiltAll(ops[..n]))
    {
      BuiltNext(ops, n);
      ok := BuildOne(builder, ops[n], raw[n], granted(n), BuiltAll(ops[..n]));
      if !ok {
        return;
      }
      n := n + 1;
      assert Fits(BuiltAll(ops[..n]));
    }
    assert ops[..n] == ops;
  }

  lemma EmptyForest()
    ensures BuiltAll([]) == [] && Fits([]) && EncodeAll([]) == []
  {
  }

  /**
   Errors are meant to be permanent.  A builder that ran out of memory refuses to grow from
   then on exactly when it was not empty at the time.
   */
  method GrowAgain(builder: Builder, extra: nat, more: nat) returns (ok: bool)
    requires builder.Valid() && !builder.Broken()
    modifies builder
    ensures !ok <==> old(builder.len) > 0
  {
    var first := builder.Grow(extra, false);
    ok := builder.Grow(more, true);
  }
}
