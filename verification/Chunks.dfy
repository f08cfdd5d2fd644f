/** Chunks of input and output data, and the byte-at-a-time copy into the output. */
module Chunks {
  import opened Bits
  import opened Lz77

  class Chunk {
    const data: array<byte>
    const len: nat
    var offset: nat

    constructor (data: array<byte>, offset: nat, len: nat)
      ensures this.data == data && this.len == len && this.offset == offset
    {
      this.data := data;
      this.len := len;
      this.offset := offset;
    }

    ghost predicate Readable()
      reads this
    {
      offset <= len <= data.Length
    }

    /** An output chunk covers its whole buffer. */
    predicate Writable() {
      len == data.Length
    }
  }

  function Literals(bytes: seq<byte>): (ts: seq<Token>)
    ensures |ts| == |bytes|
  {
    if bytes == [] then [] else [Literal(bytes[0])] + Literals(bytes[1..])
  }

  lemma {:induction false} LiteralsInRange(bytes: seq<byte>, offset: nat)
    ensures InRange(Literals(bytes), offset) && TotalSize(Literals(bytes)) == |bytes|
    decreases |bytes|
  {
    if bytes != [] {
      LiteralsInRange(bytes[1..], offset + 1);
    }
  }

  /** Literal bytes land one after the other, as far as they fit. */
  lemma {:induction false} WriteLiterals(buf: seq<byte>, offset: nat, bytes: seq<byte>)
    ensures InRange(Literals(bytes), offset)
    ensures forall i :: 0 <= i < |buf| ==>
              WriteAll(buf, offset, Literals(bytes))[i] == if offset <= i < offset + |bytes| then bytes[i - offset] else buf[i]
    decreases |bytes|
  {
    LiteralsInRange(bytes, offset);
    if bytes != [] {
      var buf' := Write(buf, offset, Literal(bytes[0]));
      WriteLiterals(buf', offset + 1, bytes[1..]);
      assert Literals(bytes)[1..] == Literals(bytes[1..]);
      assert WriteAll(buf, offset, Literals(bytes)) == WriteAll(buf', offset + 1, Literals(bytes[1..]));
    }
  }

  lemma WriteOne(buf: seq<byte>, offset: nat, t: Token)
    requires t.Copy? ==> t.distance <= offset
    ensures InRange([t], offset) && WriteAll(buf, offset, [t]) == Write(buf, offset, t)
  {
  }

  /** What a copy from `start` amounts to: literal bytes, or a back-reference into the output itself. */
  ghost function CopyToken(out: Chunk, start: array<byte>, offset: nat, len: nat): seq<Token>
    requires start != out.data ==> offset + len <= start.Length
    requires start == out.data ==> offset <= out.offset
    reads out, start
  {
    if start == out.data then [Copy(out.offset - offset, len)] else Literals(start[offset..offset + len])
  }

  /**
   Copies to the output one byte at a time, from a separate source or from earlier output.
   Nothing is written past the end of the output, and the output offset advances
   regardless.
   */
  method CopyOut(out: Chunk, start: array<byte>, offset: nat, len: nat)
    requires out.Writable()
    requires start != out.data ==> offset + len <= start.Length
    requires start == out.data ==> offset <= out.offset
    modifies out`offset, out.data
    ensures out.offset == old(out.offset) + len
    ensures InRange(old(CopyToken(out, start, offset, len)), old(out.offset))
    ensures out.data[..] == WriteAll(old(out.data[..]), old(out.offset), old(CopyToken(out, start, offset, len)))
  {
    hide WriteAll, InRange, Literals, TotalSize;
    ghost var before := out.data[..];
    var outOffset, copied := out.offset, 0;
    if start != out.data {
      WriteLiterals(before, outOffset, start[offset..offset + len]);
    } else {
      WriteOne(before, outOffset, Copy(outOffset - offset, len));
    }
    if outOffset < out.len {
      var copyLen := out.len - outOffset;
      if copyLen > len {
        copyLen := len;
      }
      while copied < copyLen
        modifies out.data
        invariant 0 <= copied <= copyLen
        invariant start == out.data ==>
                    CopyWithin(out.data[..], outOffset + copied, offset + copied, copyLen - copied)
                    == CopyWithin(before, outOffset, offset, copyLen)
        invariant start != out.data ==>
                    && start[..] == old(start[..])
                    && forall i :: 0 <= i < out.len ==>
                         out.data[i] == if outOffset <= i < outOffset + copied then start[offset + i - outOffset] else before[i]
      {
        ghost var now := out.data[..];
        out.data[outOffset + copied] := start[offset + copied];
        assert start == out.data ==> out.data[..] == now[outOffset + copied := now[offset + copied]];
        copied := copied + 1;
      }
    }
    out.offset := out.offset + len;
  }
}
