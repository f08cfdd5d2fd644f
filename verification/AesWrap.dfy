/** Key wrapping and unwrapping over buffers. */
module AesWrap {
  import opened Bits
  import opened AesWrapSpec

  method WriteBytes(dest: array<byte>, p: nat, x: seq<byte>)
    requires p + |x| <= dest.Length
    modifies dest
    ensures dest[..] == Put(old(dest[..]), p, x)
  {
    ghost var was := dest[..];
    var i := 0;
    while i < |x|
      invariant 0 <= i <= |x| && dest[..] == was[..p] + x[..i] + was[p + i..]
    {
      dest[p + i] := x[i];
      i := i + 1;
    }
  }

  /** The source as the passes see it: in place, the check value has overwritten its first block. */
  function Source(key: seq<byte>, inPlace: bool): (r: seq<byte>)
    ensures |r| == |key|
  {
    if inPlace && |key| >= 8 then IV + key[8..] else key
  }

  /** Wraps n blocks; `granted` says whether memory for the cipher could be had. */
  method Wrap(enc: Cipher, src: array<byte>, dest: array<byte>, n: nat, granted: bool) returns (rc: int)
    requires 8 * n <= src.Length && dest.Length == 8 * n + 8
    modifies dest
    ensures !granted ==> rc == -1 && dest[..] == old(dest[..])
    ensures granted ==> rc == 0 && dest[..] == Wrapped(enc, n, Source(old(src[..8 * n]), src == dest))
  {
    if !granted {
      return -1;
    }
    ghost var key := src[..8 * n];
    WriteBytes(dest, 0, IV);
    var data := src[..8 * n];
    SourceIs(key, data, src == dest) by {
      if src == dest && n > 0 {
        assert dest[..8 * n] == dest[..][..8 * n];
      }
    }
    WriteBytes(dest, 8, data);
    ghost var d := IV + data;
    assert dest[..] == d;
    var j := 0;
    while j < 6
      invariant 0 <= j <= 6 && dest[..] == Passes(enc, n, j, d)
    {
      WrapPass(enc, dest, n, j);
      j := j + 1;
    }
    rc := 0;
  }

  lemma SourceIs(key: seq<byte>, data: seq<byte>, inPlace: bool)
    requires |key| == |data| && |key| % 8 == 0
    requires if inPlace && |key| >= 8 then data == IV + key[8..] else data == key
    ensures data == Source(key, inPlace)
  {
  }

  /** One pass over the blocks, upwards. */
  method WrapPass(enc: Cipher, dest: array<byte>, n: nat, j: nat)
    requires dest.Length == 8 * n + 8
    modifies dest
    ensures dest[..] == Row(enc, n, j, n, old(dest[..]))
  {
    hide Step, Counter;
    ghost var d := dest[..];
    var i := 1;
    while i <= n
      invariant 1 <= i <= n + 1 && dest[..] == Row(enc, n, j, i - 1, d)
    {
      WrapStep(enc, dest, i, Counter(n, j, i));
      i := i + 1;
    }
  }

  method WrapStep(enc: Cipher, dest: array<byte>, i: nat, t: nat)
    requires BlockIn(dest[..], i)
    modifies dest
    ensures dest[..] == Step(enc, i, t, old(dest[..]))
  {
    ghost var d := dest[..];
    assert dest[..8] == d[..8] && dest[8 * i..8 * i + 8] == d[8 * i..8 * i + 8];
    var b := enc(dest[..8] + dest[8 * i..8 * i + 8]);
    WriteBytes(dest, 0, MaskLast(b[..8], t));
    WriteBytes(dest, 8 * i, b[8..]);
  }

  /** Unwraps n blocks; zero is returned if the check value comes out. */
  method Unwrap(dec: Cipher, src: array<byte>, dest: array<byte>, n: nat, granted: bool) returns (rc: int)
    requires src.Length == 8 * n + 8 && 8 * n <= dest.Length
    modifies dest
    ensures !granted ==> rc == -1 && dest[..] == old(dest[..])
    ensures granted ==>
              var r := Unwrapped(dec, n, old(src[..]));
              dest[..8 * n] == r.1 && rc == if r.0 then 0 else -1
  {
    if !granted {
      return -1;
    }
    ghost var d := src[..];
    var a := src[..8];
    var data := src[8..];
    WriteBytes(dest, 0, data);
    assert dest[..8 * n] == dest[..][..8 * n] == data;
    assert d == a + dest[..8 * n];
    a := UnwrapPasses(dec, a, dest, n);
    ghost var e := a + dest[..8 * n];
    assert e[..8] == a && e[8..] == dest[..8 * n];
    rc := if a == IV then 0 else -1;
  }

  /** All six passes, the last first. */
  method UnwrapPasses(dec: Cipher, a0: seq<byte>, dest: array<byte>, n: nat) returns (a: seq<byte>)
    requires |a0| == 8 && 8 * n <= dest.Length
    modifies dest
    ensures |a| == 8 && a + dest[..8 * n] == Unpasses(dec, n, 6, a0 + old(dest[..8 * n]))
  {
    hide Unrow;
    a := a0;
    ghost var d := a0 + dest[..8 * n];
    ghost var e := d;
    var j := 6;
    while j > 0
      invariant 0 <= j <= 6 && |a| == 8 && |e| == 8 * n + 8
      invariant e == a + dest[..8 * n] && Unpasses(dec, n, j, e) == Unpasses(dec, n, 6, d)
    {
      j := j - 1;
      ghost var f := Unrow(dec, n, j, n, e);
      a := UnwrapPass(dec, a, dest, n, j);
      e := f;
    }
  }

  /** One pass over the blocks, downwards. */
  method UnwrapPass(dec: Cipher, a0: seq<byte>, dest: array<byte>, n: nat, j: nat) returns (a: seq<byte>)
    requires |a0| == 8 && 8 * n <= dest.Length
    modifies dest
    ensures |a| == 8 && a + dest[..8 * n] == Unrow(dec, n, j, n, a0 + old(dest[..8 * n]))
  {
    hide Unstep, Counter;
    a := a0;
    ghost var d := a0 + dest[..8 * n];
    ghost var e := d;
    var i := n;
    while i > 0
      invariant 0 <= i <= n && |a| == 8 && |e| == 8 * n + 8
      invariant e == a + dest[..8 * n] && Unrow(dec, n, j, i, e) == Unrow(dec, n, j, n, d)
    {
      ghost var f := Unstep(dec, i, Counter(n, j, i), e);
      a := UnwrapStep(dec, a, dest, n, i, Counter(n, j, i));
      e := f;
      i := i - 1;
    }
  }

  method UnwrapStep(dec: Cipher, a0: seq<byte>, dest: array<byte>, n: nat, i: nat, t: nat) returns (a: seq<byte>)
    requires |a0| == 8 && 1 <= i <= n && 8 * n <= dest.Length
    modifies dest
    ensures |a| == 8 && a + dest[..8 * n] == Unstep(dec, i, t, a0 + old(dest[..8 * n]))
  {
    ghost var r, whole := dest[..8 * n], dest[..];
    var p := 8 * (i - 1);
    assert dest[p..p + 8] == r[p..p + 8];
    var b := dec(MaskLast(a0, t) + dest[p..p + 8]);
    a := b[..8];
    WriteBytes(dest, p, b[8..]);
    PutPrefix(whole, p, b[8..], 8 * n);
    assert dest[..8 * n] == dest[..][..8 * n];
    UnstepSplit(dec, i, t, a0, r);
  }

  lemma PutPrefix(d: seq<byte>, p: nat, x: seq<byte>, n: nat)
    requires p + |x| <= n <= |d|
    ensures Put(d, p, x)[..n] == Put(d[..n], p, x)
  {
  }

  /** A step of unwrapping, with the check value kept apart from the key data. */
  lemma UnstepSplit(dec: Cipher, i: nat, t: nat, a: seq<byte>, r: seq<byte>)
    requires |a| == 8 && 1 <= i && 8 * i <= |r|
    ensures var p := 8 * (i - 1);
            var b := dec(MaskLast(a, t) + r[p..p + 8]);
            Unstep(dec, i, t, a + r) == b[..8] + Put(r, p, b[8..])
  {
    var p, d := 8 * (i - 1), a + r;
    assert d[..8] == a && d[8 * i..8 * i + 8] == r[p..p + 8];
    var b := dec(MaskLast(a, t) + r[p..p + 8]);
    assert Put(d, 0, b[..8]) == b[..8] + r;
  }

  /**
   The documentation allows wrapping in place.  In place, the result is right exactly when the
   first block of the key happens to be the check value.
   */
  lemma InPlaceIff(enc: Cipher, dec: Cipher, n: nat, key: seq<byte>)
    requires Inverse(enc, dec) && |key| == 8 * n && n > 0
    ensures Wrapped(enc, n, Source(key, true)) == Wrapped(enc, n, key) <==> key[..8] == IV
  {
    UnwrapWrap(enc, dec, n, key);
    UnwrapWrap(enc, dec, n, Source(key, true));
    hide Wrapped, Unwrapped;
    if key[..8] == IV {
      assert key == key[..8] + key[8..];
    }
    if Source(key, true) == key {
      assert key[..8] == Source(key, true)[..8];
    }
  }
}
