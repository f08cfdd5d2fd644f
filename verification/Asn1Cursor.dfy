/** Cursors that walk over encoded objects. */
module Asn1Cursor {
  import opened Bits
  import opened Asn1Spec

  /** Error returns; zero is success. */
  datatype Result = Success | Failed(status: Status) | NoEntry

  class Cursor {
    /** What the cursor points into, where, and how many bytes from there belong to it. */
    var memory: seq<byte>
    var data: nat
    var len: nat

    ghost predicate Valid()
      reads this
    {
      data + len <= |memory|
    }

    /** The bytes under the cursor. */
    ghost function View(): seq<byte>
      requires Valid()
      reads this
    {
      memory[data..data + len]
    }

    /** The cursor lies within the given bytes of a memory, or is empty. */
    ghost predicate Within(span: seq<byte>, from: nat, to: nat)
      reads this
    {
      len == 0 || (memory == span && from <= data && data + len <= to)
    }

    constructor (memory: seq<byte>)
      ensures Valid() && View() == memory && this.memory == memory && data == 0 && len == |memory|
    {
      this.memory, data, len := memory, 0, |memory|;
    }

    /** Points the cursor at an empty object. */
    method Invalidate()
      modifies this
      ensures Valid() && len == 0
    {
      memory, data, len := [0, 0], 0, 0;
    }

    method Advance()
      requires Valid() && len > 0
      modifies `data, `len
      ensures Valid() && data == old(data) + 1 && len == old(len) - 1
    {
      data := data + 1;
      len := len - 1;
    }

    /** Shifts the length octets into a 32-bit register. */
    method ReadLength(count: nat) returns (n: nat)
      requires Valid() && count <= len
      modifies `data, `len
      ensures Valid() && data == old(data) + count && len == old(len) - count
      ensures n == Accumulated(old(View())[..count])
    {
      ghost var s := View();
      n := 0;
      var left := count;
      while left > 0
        invariant 0 <= left <= count && Valid()
        invariant data == old(data) + (count - left) && len == old(len) - (count - left)
        invariant n == Accumulated(s[..count - left])
      {
        ghost var k := count - left;
        assert s[..k + 1][..k] == s[..k] && memory[data] == s[k];
        n := (n * 256 + memory[data]) % 0x1_0000_0000;
        Advance();
        left := left - 1;
      }
    }

    /** Moves to the body of an object; on an error, the cursor may have moved part of the way. */
    method StartObject(tag: nat) returns (status: Status, bodyLen: nat)
      requires Valid()
      modifies `data, `len
      ensures Valid()
      ensures var r := ReadStart(old(View()), tag);
              && status == r.status && data == old(data) + r.used && len == old(len) - r.used
              && (status == Ok ==> bodyLen == r.len && bodyLen <= len)
    {
      hide Accumulated;
      ghost var s := View();
      bodyLen := 0;
      if len < 2 {
        return Empty, 0;
      }
      if tag != ASN1_ANY && tag != memory[data] {
        return Mismatch, 0;
      }
      Advance();
      var count: nat := memory[data];
      assert count == s[1];
      if count >= 0x80 {
        count := count - 0x80;
        Advance();
      } else {
        count := 1;
      }
      if len < count {
        return BadLengthLength, 0;
      }
      ghost var skip := data - old(data);
      assert View() == s[skip..] && s[skip..][..count] == s[skip..skip + count];
      var n := ReadLength(count);
      if len < n {
        return BadLength, 0;
      }
      if n >= 0x8000_0000 {
        return Overflow, 0;
      }
      return Ok, n;
    }

    /** Moves into the body of the current object. */
    method Enter(tag: nat) returns (rc: Result)
      requires Valid()
      modifies this
      ensures Valid()
      ensures var r := ReadStart(old(View()), tag);
              if r.status == Ok
              then rc == Success && memory == old(memory) && data == old(data) + r.used && len == r.len
              else rc == Failed(r.status) && len == 0
    {
      hide ReadStart;
      var status, n := StartObject(tag);
      if status != Ok {
        Invalidate();
        return Failed(status);
      }
      len := n;
      return Success;
    }

    /** Moves past the current object, if it is of the type. */
    method SkipIfExists(tag: nat) returns (rc: Result)
      requires Valid()
      modifies `data, `len
      ensures Valid()
      ensures var r := ReadStart(old(View()), tag);
              if r.status == Ok
              then data == old(data) + r.used + r.len && len == old(len) - r.used - r.len
                   && rc == (if len == 0 then NoEntry else Success)
              else rc == Failed(r.status) && data == old(data) + r.used && len == old(len) - r.used
    {
      hide ReadStart;
      var status, n := StartObject(tag);
      if status != Ok {
        return Failed(status);
      }
      data := data + n;
      len := len - n;
      if len == 0 {
        return NoEntry;
      }
      return Success;
    }

    /** Moves past the current object; a cursor with nothing left is invalidated. */
    method Skip(tag: nat) returns (rc: Result)
      requires Valid()
      modifies this
      ensures Valid()
      ensures var r := ReadStart(old(View()), tag);
              if r.status == Ok && r.used + r.len < old(len)
              then rc == Success && memory == old(memory)
                   && data == old(data) + r.used + r.len && len == old(len) - r.used - r.len
              else rc == (if r.status == Ok then NoEntry else Failed(r.status)) && len == 0
    {
      hide ReadStart;
      rc := SkipIfExists(tag);
      if rc != Success {
        Invalidate();
      }
    }

    /** Cuts the cursor down to the current object, header included. */
    method Shrink(tag: nat) returns (rc: Result)
      requires Valid()
      modifies this
      ensures Valid()
      ensures var r := ReadStart(old(View()), tag);
              if r.status == Ok
              then rc == Success && memory == old(memory) && data == old(data) && len == r.used + r.len
              else rc == Failed(r.status) && len == 0
    {
      hide ReadStart;
      var temp := new Cursor(memory);
      temp.data, temp.len := data, len;
      var status, n := temp.StartObject(tag);
      if status != Ok {
        Invalidate();
        return Failed(status);
      }
      var end := temp.data + n;
      len := end - data;
      return Success;
    }
  }

  // ---------------------------------------------------------------------------
  // Whole walks.

  datatype Move = EnterMove(tag: nat) | SkipMove(tag: nat) | SkipIfExistsMove(tag: nat) | ShrinkMove(tag: nat)

  /** On any bytes at all, no sequence of moves takes the cursor outside where it started. */
  method Walk(cursor: Cursor, moves: seq<Move>) returns (results: seq<Result>)
    requires cursor.Valid()
    modifies cursor
    ensures cursor.Valid() && |results| == |moves|
    ensures cursor.Within(old(cursor.memory), old(cursor.data), old(cursor.data) + old(cursor.len))
  {
    hide ReadStart;
    results := [];
    var i := 0;
    while i < |moves|
      invariant 0 <= i <= |moves| && cursor.Valid() && |results| == i
      invariant cursor.Within(old(cursor.memory), old(cursor.data), old(cursor.data) + old(cursor.len))
    {
      var rc;
      match moves[i] {
        case EnterMove(tag) => rc := cursor.Enter(tag);
        case SkipMove(tag) => rc := cursor.Skip(tag);
        case SkipIfExistsMove(tag) => rc := cursor.SkipIfExists(tag);
        case ShrinkMove(tag) => rc := cursor.Shrink(tag);
      }
      results := results + [rc];
      i := i + 1;
    }
  }

  /** Skipping takes a cursor from object to object, in order, up to the last. */
  method SkipTo(cursor: Cursor, ghost os: seq<Object>, k: nat)
    requires cursor.Valid() && AllEncodable(os) && k < |os| && cursor.View() == EncodeAll(os)
    modifies cursor
    ensures cursor.Valid() && AllEncodable(os[k..]) && cursor.View() == EncodeAll(os[k..])
  {
    hide ReadStart, Header, Encodable;
    var i := 0;
    assert os[0..] == os;
    while i < k
      invariant 0 <= i <= k && cursor.Valid() && AllEncodable(os[i..]) && cursor.View() == EncodeAll(os[i..])
    {
      assert os[i..][1..] == os[i + 1..];
      ReadObject(os[i..], ASN1_ANY);
      RestNotEmpty(os[i..]);
      ghost var s, at, mem := cursor.View(), cursor.data, cursor.memory;
      var rc := cursor.Skip(ASN1_ANY);
      assert cursor.View() == s[cursor.data - at..];
      i := i + 1;
    }
  }

  lemma SubSlice(m: seq<byte>, at: nat, n: nat, a: nat, b: nat)
    requires at + n <= |m| && a <= b <= n
    ensures m[at..at + n][a..b] == m[at + a..at + b]
  {
    var x, y := m[at..at + n][a..b], m[at + a..at + b];
    forall k | 0 <= k < b - a
      ensures x[k] == y[k]
    {
      assert x[k] == m[at..at + n][a + k] == m[at + (a + k)];
    }
  }

  lemma RestNotEmpty(os: seq<Object>)
    requires AllEncodable(os) && |os| > 1
    ensures |EncodeAll(os[1..])| > 0
  {
  }

  /** Entering an object of the right type gives exactly its body. */
  method EnterObject(cursor: Cursor, ghost os: seq<Object>, tag: nat) returns (rc: Result)
    requires cursor.Valid() && AllEncodable(os) && os != [] && cursor.View() == EncodeAll(os)
    modifies cursor
    ensures cursor.Valid()
    ensures tag == ASN1_ANY || tag == os[0].tag ==> rc == Success && cursor.View() == Body(os[0])
    ensures !(tag == ASN1_ANY || tag == os[0].tag) ==> rc == Failed(Mismatch) && cursor.len == 0
  {
    hide ReadStart, Header, EncodeAll;
    ghost var s, at, mem := cursor.View(), cursor.data, cursor.memory;
    ghost var r := ReadStart(s, tag);
    if tag == ASN1_ANY || tag == os[0].tag {
      ReadObject(os, tag);
    } else {
      ReadMismatch(os, tag);
    }
    rc := cursor.Enter(tag);
    if rc == Success {
      assert r.used + r.len <= |s|;
      SubSlice(mem, at, |s|, r.used, r.used + r.len);
    }
  }

  /**
   The documentation of skip-if-exists says that the cursor is not modified on any error.  It
   is left alone exactly when there is no whole header or the type does not match: any error
   in the length, and the end of the data, leave it further on.
   */
  lemma SkipErrorMoves(s: seq<byte>, tag: nat)
    requires var r := ReadStart(s, tag); r.status != Ok || r.used + r.len == |s|
    ensures var r := ReadStart(s, tag);
            var moved := if r.status == Ok then r.used + r.len else r.used;
            moved == 0 <==> |s| < 2 || (tag != ASN1_ANY && tag != s[0])
  {
  }

  /** A length field that promises more than there is. */
  lemma SkipErrorExample()
    ensures ReadStart([0x30, 5, 0], ASN1_ANY) == Start(BadLength, 2, 5)
  {
    AccumulatedOne(5);
    assert [0x30, 5, 0][1..2] == [5];
  }
}
