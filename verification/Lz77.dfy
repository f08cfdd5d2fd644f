/**
 The output side of DEFLATE: literal bytes and back-references, written into an output
 buffer that may be too short for the decompressed data.
 */
module Lz77 {
  import opened Bits

  datatype Token = Literal(value: byte) | Copy(distance: nat, length: nat)

  function Size(t: Token): nat {
    if t.Literal? then 1 else t.length
  }

  function TotalSize(ts: seq<Token>): nat {
    if ts == [] then 0 else Size(ts[0]) + TotalSize(ts[1..])
  }

  /** No back-reference reaches before the start of the output. */
  predicate InRange(ts: seq<Token>, offset: nat) {
    ts == [] || ((ts[0].Copy? ==> ts[0].distance <= offset) && InRange(ts[1..], offset + Size(ts[0])))
  }

  // ---------------------------------------------------------------------------
  // Writing into a buffer: bytes that do not fit are dropped.

  /** A byte-at-a-time copy of n bytes within a buffer; the ranges may overlap. */
  function CopyWithin(buf: seq<byte>, dst: nat, src: nat, n: nat): (r: seq<byte>)
    requires src <= dst && dst + n <= |buf|
    ensures |r| == |buf|
    decreases n
  {
    if n == 0 then buf else CopyWithin(buf[dst := buf[src]], dst + 1, src + 1, n - 1)
  }

  function Min(a: nat, b: nat): nat {
    if a < b then a else b
  }

  function Write(buf: seq<byte>, offset: nat, t: Token): (r: seq<byte>)
    requires t.Copy? ==> t.distance <= offset
    ensures |r| == |buf|
  {
    if offset >= |buf| then buf
    else match t
      case Literal(b) => buf[offset := b]
      case Copy(d, n) => CopyWithin(buf, offset, offset - d, Min(n, |buf| - offset))
  }

  function WriteAll(buf: seq<byte>, offset: nat, ts: seq<Token>): (r: seq<byte>)
    requires InRange(ts, offset)
    ensures |r| == |buf|
    decreases |ts|
  {
    if ts == [] then buf
    else WriteAll(Write(buf, offset, ts[0]), offset + Size(ts[0]), ts[1..])
  }

  lemma {:induction false} TotalSizeAppend(a: seq<Token>, b: seq<Token>)
    ensures TotalSize(a + b) == TotalSize(a) + TotalSize(b)
  {
    if a == [] {
      assert a + b == b;
    } else {
      TotalSizeAppend(a[1..], b);
      assert (a + b)[1..] == a[1..] + b;
    }
  }

  lemma {:induction false} InRangeAppend(a: seq<Token>, b: seq<Token>, offset: nat)
    ensures InRange(a + b, offset) <==> InRange(a, offset) && InRange(b, offset + TotalSize(a))
    decreases |a|
  {
    if a == [] {
      assert a + b == b;
    } else {
      InRangeAppend(a[1..], b, offset + Size(a[0]));
      assert (a + b)[1..] == a[1..] + b;
    }
  }

  lemma {:induction false} WriteAllAppend(buf: seq<byte>, offset: nat, a: seq<Token>, b: seq<Token>)
    requires InRange(a, offset) && InRange(b, offset + TotalSize(a))
    ensures InRange(a + b, offset)
    ensures WriteAll(buf, offset, a + b) == WriteAll(WriteAll(buf, offset, a), offset + TotalSize(a), b)
    decreases |a|
  {
    InRangeAppend(a, b, offset);
    if a == [] {
      assert a + b == b;
    } else {
      WriteAllAppend(Write(buf, offset, a[0]), offset + Size(a[0]), a[1..], b);
      assert (a + b)[1..] == a[1..] + b;
    }
  }

  // ---------------------------------------------------------------------------
  // The decompressed data, independent of any buffer.

  /** Byte i of the memory behind the output, before anything is written. */
  type Background = nat -> byte

  /** n further bytes repeating the data `distance` bytes back. */
  function Extend(out: seq<byte>, distance: nat, n: nat, bg: Background): (r: seq<byte>)
    requires distance <= |out|
    ensures |r| == |out| + n && r[..|out|] == out
    decreases n
  {
    if n == 0 then out
    else
      var next := if distance == 0 then bg(|out|) else out[|out| - distance];
      Extend(out + [next], distance, n - 1, bg)
  }

  /** From `from` on, each byte is the one `distance` before it. */
  predicate Repeats(s: seq<byte>, from: nat, distance: nat)
    requires distance <= from
  {
    forall i :: from <= i < |s| ==> s[i] == s[i - distance]
  }

  /** So it is with copied bytes, those copied from copied ones included. */
  lemma {:induction false} ExtendRepeats(out: seq<byte>, distance: nat, n: nat, bg: Background)
    requires 0 < distance <= |out|
    ensures Repeats(Extend(out, distance, n, bg), |out|, distance)
    decreases n
  {
    if n > 0 {
      var longer := out + [out[|out| - distance]];
      ExtendRepeats(longer, distance, n - 1, bg);
      var r := Extend(longer, distance, n - 1, bg);
      assert r[|out|] == r[..|longer|][|out|] && r[|out| - distance] == r[..|longer|][|out| - distance];
    }
  }

  function Append(out: seq<byte>, t: Token, bg: Background): (r: seq<byte>)
    requires t.Copy? ==> t.distance <= |out|
    ensures |r| == |out| + Size(t) && r[..|out|] == out
  {
    match t
    case Literal(b) => out + [b]
    case Copy(d, n) => Extend(out, d, n, bg)
  }

  function Expand(out: seq<byte>, ts: seq<Token>, bg: Background): (r: seq<byte>)
    requires InRange(ts, |out|)
    ensures |r| == |out| + TotalSize(ts) && r[..|out|] == out
    decreases |ts|
  {
    if ts == [] then out
    else
      var r := Expand(Append(out, ts[0], bg), ts[1..], bg);
      assert r[..|out|] == r[..|Append(out, ts[0], bg)|][..|out|];
      r
  }

  /** The buffer holds the decompressed data so far, as much as fits, and is otherwise untouched. */
  predicate Holds(buf: seq<byte>, out: seq<byte>, bg: Background) {
    forall i :: 0 <= i < |buf| ==> buf[i] == if i < |out| then out[i] else bg(i)
  }

  lemma {:induction false} CopyHolds(buf: seq<byte>, out: seq<byte>, d: nat, n: nat, m: nat, bg: Background)
    requires d <= |out| <= |buf| && Holds(buf, out, bg)
    requires m == Min(n, |buf| - |out|)
    ensures Holds(CopyWithin(buf, |out|, |out| - d, m), Extend(out, d, n, bg), bg)
    decreases n
  {
    if n == 0 {
    } else if |out| < |buf| {
      var next := if d == 0 then bg(|out|) else out[|out| - d];
      assert buf[|out| - d] == next;
      CopyHolds(buf[|out| := next], out + [next], d, n - 1, m - 1, bg);
    } else {
      ExtendPrefix(buf, out, d, n, bg);
    }
  }

  lemma ExtendPrefix(buf: seq<byte>, out: seq<byte>, d: nat, n: nat, bg: Background)
    requires d <= |out| && |buf| <= |out| && Holds(buf, out, bg)
    ensures Holds(buf, Extend(out, d, n, bg), bg)
  {
    var r := Extend(out, d, n, bg);
    assert forall i :: 0 <= i < |out| ==> r[i] == r[..|out|][i];
  }

  /** One write keeps the buffer holding exactly the prefix that fits. */
  lemma WriteHolds(buf: seq<byte>, out: seq<byte>, t: Token, bg: Background)
    requires t.Copy? ==> t.distance <= |out|
    requires Holds(buf, out, bg)
    ensures Holds(Write(buf, |out|, t), Append(out, t, bg), bg)
  {
    if t.Copy? {
      if |out| < |buf| {
        CopyHolds(buf, out, t.distance, t.length, Min(t.length, |buf| - |out|), bg);
      } else {
        ExtendPrefix(buf, out, t.distance, t.length, bg);
      }
    }
  }

  /**
   For every buffer length, the bytes written are exactly the prefix of the decompressed
   data that fits, and no other byte of the buffer changes.
   */
  lemma {:induction false} BufferHoldsPrefix(buf: seq<byte>, out: seq<byte>, ts: seq<Token>, bg: Background)
    requires InRange(ts, |out|) && Holds(buf, out, bg)
    ensures Holds(WriteAll(buf, |out|, ts), Expand(out, ts, bg), bg)
    decreases |ts|
  {
    if ts != [] {
      WriteHolds(buf, out, ts[0], bg);
      BufferHoldsPrefix(Write(buf, |out|, ts[0]), Append(out, ts[0], bg), ts[1..], bg);
    }
  }

  // ---------------------------------------------------------------------------
  // Which token lists determine their own output.

  /** Some back-reference has distance zero (distance codes 30 and 31 can produce it). */
  predicate HasZeroDistance(ts: seq<Token>) {
    exists i :: 0 <= i < |ts| && ts[i].Copy? && ts[i].distance == 0 && ts[i].length > 0
  }

  lemma {:induction false} ExtendIgnoresBackground(out: seq<byte>, d: nat, n: nat, b1: Background, b2: Background)
    requires d <= |out| && (d > 0 || n == 0)
    ensures Extend(out, d, n, b1) == Extend(out, d, n, b2)
    decreases n
  {
    if n > 0 {
      ExtendIgnoresBackground(out + [out[|out| - d]], d, n - 1, b1, b2);
    }
  }

  lemma {:induction false} ExpandIgnoresBackground(out: seq<byte>, ts: seq<Token>, b1: Background, b2: Background)
    requires InRange(ts, |out|) && !HasZeroDistance(ts)
    ensures Expand(out, ts, b1) == Expand(out, ts, b2)
    decreases |ts|
  {
    if ts != [] {
      var t := ts[0];
      if t.Copy? {
        ExtendIgnoresBackground(out, t.distance, t.length, b1, b2);
      }
      assert !HasZeroDistance(ts[1..]) by {
        assert forall i :: 0 <= i < |ts[1..]| ==> ts[1..][i] == ts[i + 1];
      }
      ExpandIgnoresBackground(Append(out, t, b1), ts[1..], b1, b2);
    }
  }

  /** The byte produced first by a zero distance is whatever the memory held. */
  lemma ZeroDistanceByte(out: seq<byte>, n: nat, bg: Background)
    requires n > 0
    ensures Extend(out, 0, n, bg)[|out|] == bg(|out|)
  {
    var out' := out + [bg(|out|)];
    var r := Extend(out', 0, n - 1, bg);
    assert r[|out|] == r[..|out'|][|out|];
  }

  lemma {:induction false} ZeroDistanceLeaks(out: seq<byte>, ts: seq<Token>, b1: Background, b2: Background)
    requires InRange(ts, |out|) && HasZeroDistance(ts)
    requires forall i :: b1(i) != b2(i)
    ensures Expand(out, ts, b1) != Expand(out, ts, b2)
    decreases |ts|
  {
    var t := ts[0];
    var a1, a2 := Append(out, t, b1), Append(out, t, b2);
    var e1, e2 := Expand(a1, ts[1..], b1), Expand(a2, ts[1..], b2);
    if t.Copy? && t.distance == 0 && t.length > 0 {
      ZeroDistanceByte(out, t.length, b1);
      ZeroDistanceByte(out, t.length, b2);
      assert e1[..|a1|] == a1 && e2[..|a2|] == a2;
      assert e1[|out|] == a1[|out|] && e2[|out|] == a2[|out|];
    } else {
      if t.Copy? {
        ExtendIgnoresBackground(out, t.distance, t.length, b1, b2);
      }
      assert HasZeroDistance(ts[1..]) by {
        var i :| 0 <= i < |ts| && ts[i].Copy? && ts[i].distance == 0 && ts[i].length > 0;
        assert ts[1..][i - 1] == ts[i];
      }
      ZeroDistanceLeaks(a1, ts[1..], b1, b2);
    }
  }

  /** The output is a function of the tokens alone exactly when no distance is zero. */
  lemma OutputDetermined(ts: seq<Token>)
    requires InRange(ts, 0)
    ensures (forall b1: Background, b2: Background :: Expand([], ts, b1) == Expand([], ts, b2)) <==> !HasZeroDistance(ts)
  {
    if HasZeroDistance(ts) {
      ZeroDistanceLeaks([], ts, i => 0, i => 1);
    } else {
      forall b1: Background, b2: Background
        ensures Expand([], ts, b1) == Expand([], ts, b2)
      {
        ExpandIgnoresBackground([], ts, b1, b2);
      }
    }
  }
}
