/** The distinguished encoding of objects, and what reading the start of one finds. */
module Asn1Spec {
  import opened Bits

  const ASN1_ANY: nat := 0xffff_ffff

  // ---------------------------------------------------------------------------
  // Length octets (sections 8.1.3 and 10.1 of X.690).

  /** How many octets a number takes. */
  function OctetCount(n: nat): nat {
    if n == 0 then 0 else 1 + OctetCount(n / 256)
  }

  /** The octets of a number, most significant first. */
  function Octets(n: nat): (s: seq<byte>)
    ensures |s| == OctetCount(n)
  {
    if n == 0 then [] else Octets(n / 256) + [n % 256]
  }

  function LengthOctets(n: nat): (s: seq<byte>)
    requires OctetCount(n) < 0x80
    ensures |s| >= 1
  {
    if n < 0x80 then [n] else [0x80 + OctetCount(n)] + Octets(n)
  }

  /** The number a 32-bit register holds after the octets have been shifted in. */
  function Accumulated(s: seq<byte>): (n: nat)
    ensures n < 0x1_0000_0000
  {
    if s == [] then 0
    else
      var k := |s| - 1;
      (Accumulated(s[..k]) * 256 + s[k]) % 0x1_0000_0000
  }

  lemma {:induction false} OctetsRoundTrip(n: nat)
    requires n < 0x1_0000_0000
    ensures Accumulated(Octets(n)) == n
  {
    if n > 0 {
      OctetsRoundTrip(n / 256);
      var s := Octets(n);
      assert s[..|s| - 1] == Octets(n / 256);
    }
  }

  /** The shortest form: no leading zero octet. */
  lemma {:induction false} OctetsShortest(n: nat)
    requires n > 0
    ensures Octets(n)[0] != 0
  {
    if n >= 256 {
      OctetsShortest(n / 256);
    }
  }

  /** Lengths below 2^31 take at most four octets. */
  lemma SmallLength(n: nat)
    requires n < 0x1_0000_0000
    ensures OctetCount(n) <= 4
  {
    var a := n / 256;
    var b := a / 256;
    var c := b / 256;
    assert c < 256;
    assert OctetCount(c) <= 1;
    assert OctetCount(b) <= 2;
    assert OctetCount(a) <= 3;
  }

  lemma {:induction false} OctetCountMonotone(m: nat, n: nat)
    requires m <= n
    ensures OctetCount(m) <= OctetCount(n)
  {
    if m > 0 {
      OctetCountMonotone(m / 256, n / 256);
    }
  }

  lemma AccumulateStep(a: nat, b: byte)
    ensures ((a * 256 + b) % 0x1_0000_0000) / 256 <= a
  {
    var q, r := a / 0x100_0000, a % 0x100_0000;
    RemainderUnique(a * 256 + b, q, r * 256 + b, 0x1_0000_0000);
  }

  lemma {:induction false} AccumulatedCount(s: seq<byte>)
    ensures OctetCount(Accumulated(s)) <= |s|
  {
    if s != [] {
      var k := |s| - 1;
      AccumulatedCount(s[..k]);
      AccumulateStep(Accumulated(s[..k]), s[k]);
      OctetCountMonotone(Accumulated(s) / 256, Accumulated(s[..k]));
    }
  }

  /** Nothing shorter stands for the same length. */
  lemma LengthShortest(n: nat, s: seq<byte>)
    requires n < 0x1_0000_0000 && Accumulated(s) == n
    ensures OctetCount(n) <= 4 && |LengthOctets(n)| <= 1 + |s|
    ensures n < 0x80 ==> |LengthOctets(n)| == 1
  {
    SmallLength(n);
    AccumulatedCount(s);
  }

  // ---------------------------------------------------------------------------
  // Objects.

  function Header(tag: byte, len: nat): (s: seq<byte>)
    requires len < 0x1_0000_0000
    ensures |s| >= 2
  {
    SmallLength(len);
    [tag] + LengthOctets(len)
  }

  /** The header by the size of the length: short form, then one to four octets, the most significant first. */
  lemma HeaderForms(tag: byte, len: nat)
    requires len < 0x1_0000_0000
    ensures len < 0x80 ==> Header(tag, len) == [tag, len]
    ensures 0x80 <= len < 0x100 ==> Header(tag, len) == [tag, 0x81, len]
    ensures 0x100 <= len < 0x1_0000 ==> Header(tag, len) == [tag, 0x82, len / 0x100, len % 0x100]
    ensures 0x1_0000 <= len < 0x100_0000 ==>
              Header(tag, len) == [tag, 0x83, len / 0x1_0000, len / 0x100 % 0x100, len % 0x100]
    ensures 0x100_0000 <= len ==>
              Header(tag, len) == [tag, 0x84, len / 0x100_0000, len / 0x1_0000 % 0x100, len / 0x100 % 0x100, len % 0x100]
  {
    hide Octets, OctetCount;
    SmallLength(len);
    if len >= 0x80 {
      OctetsStep(len);
      OctetsStep(len / 0x100);
      OctetsStep(len / 0x100 / 0x100);
      OctetsStep(len / 0x100 / 0x100 / 0x100);
      OctetsStep(len / 0x100 / 0x100 / 0x100 / 0x100);
      assert len / 0x100 / 0x100 == len / 0x1_0000 && len / 0x1_0000 / 0x100 == len / 0x100_0000;
      assert len / 0x100_0000 / 0x100 == 0;
    }
  }

  lemma OctetsStep(n: nat)
    ensures n == 0 ==> Octets(n) == [] && OctetCount(n) == 0
    ensures n > 0 ==> Octets(n) == Octets(n / 0x100) + [n % 0x100] && OctetCount(n) == 1 + OctetCount(n / 0x100)
  {
  }

  /** An object whose body is bytes, or other objects. */
  datatype Object = Primitive(tag: byte, body: seq<byte>) | Constructed(tag: byte, items: seq<Object>)

  ghost predicate Encodable(o: Object)
    decreases o, 1
  {
    match o
    case Primitive(_, body) => |body| < 0x8000_0000
    case Constructed(_, items) => AllEncodable(items) && |EncodeAll(items)| < 0x8000_0000
  }

  ghost predicate AllEncodable(os: seq<Object>)
    decreases os, 0
  {
    os == [] || (Encodable(os[0]) && AllEncodable(os[1..]))
  }

  ghost function Body(o: Object): (s: seq<byte>)
    requires Encodable(o)
    ensures |s| < 0x8000_0000
    decreases o, 2
  {
    match o
    case Primitive(_, body) => body
    case Constructed(_, items) => EncodeAll(items)
  }

  ghost function Encode(o: Object): (s: seq<byte>)
    requires Encodable(o)
    ensures |s| >= 2
    decreases o, 3
  {
    Header(o.tag, |Body(o)|) + Body(o)
  }

  ghost function EncodeAll(os: seq<Object>): (s: seq<byte>)
    requires AllEncodable(os)
    ensures os != [] ==> |s| >= 2
    decreases os, 1
  {
    if os == [] then [] else Encode(os[0]) + EncodeAll(os[1..])
  }

  // ---------------------------------------------------------------------------
  // Reading the start of an object.

  datatype Status = Ok | Empty | Mismatch | BadLengthLength | BadLength | Overflow

  /** Whether an object starts here, how many bytes were passed over and the length of the body. */
  datatype Start = Start(status: Status, used: nat, len: nat)

  function ReadStart(s: seq<byte>, tag: nat): (r: Start)
    ensures r.used <= |s| && (r.status == Ok ==> r.used >= 2 && r.used + r.len <= |s|)
    ensures r.status == Empty || r.status == Mismatch ==> r.used == 0
  {
    if |s| < 2 then Start(Empty, 0, 0)
    else if tag != ASN1_ANY && tag != s[0] then Start(Mismatch, 0, 0)
    else
      var long := s[1] >= 0x80;
      var skip, count := if long then 2 else 1, if long then s[1] - 0x80 else 1;
      if |s| - skip < count then Start(BadLengthLength, skip, 0)
      else
        var len, used := Accumulated(s[skip..skip + count]), skip + count;
        if |s| - used < len then Start(BadLength, used, len)
        else if len >= 0x8000_0000 then Start(Overflow, used, len)
        else Start(Ok, used, len)
  }

  /** Too short for an object, for its length octets, and for its body; and an object of five bytes with one to follow. */
  lemma ReadExamples()
    ensures ReadStart([0x30], 0x30) == Start(Empty, 0, 0)
    ensures ReadStart([0x30, 0x82, 0x01], 0x30) == Start(BadLengthLength, 2, 0)
    ensures ReadStart([0x30, 0x02, 0x05], 0x30) == Start(BadLength, 2, 2)
    ensures ReadStart([0x30, 0x82, 0x00, 0x01, 0x05, 0x06], 0xffff_ffff) == Start(Ok, 4, 1)
  {
    AccumulatedOne(0x02);
    var s: seq<byte> := [0x30, 0x02, 0x05];
    assert s[1..2] == [0x02];
    var t: seq<byte> := [0x30, 0x82, 0x00, 0x01, 0x05, 0x06];
    assert t[2..4] == [0x00, 0x01];
    AccumulatedTwo(0x00, 0x01);
    hide Accumulated;
  }

  lemma AccumulatedTwo(a: byte, b: byte)
    ensures Accumulated([a, b]) == 256 * a + b
  {
    AccumulatedOne(a);
    assert [a, b][..1] == [a];
  }

  lemma AccumulatedOne(b: byte)
    ensures Accumulated([b]) == b
  {
    assert [b][..0] == [];
  }

  /** What the two forms of length octets are read as. */
  lemma ReadForms(s: seq<byte>, want: nat, n: nat)
    requires |s| >= 2 && (want == ASN1_ANY || want == s[0]) && n < 0x8000_0000
    ensures s[1] == n < 0x80 && |s| >= 2 + n ==> ReadStart(s, want) == Start(Ok, 2, n)
    ensures var k := s[1] as int - 0x80;
            k >= 0 && |s| >= 2 + k + n && Accumulated(s[2..2 + k]) == n ==> ReadStart(s, want) == Start(Ok, 2 + k, n)
  {
    AccumulatedOne(s[1]);
    assert s[1..2] == [s[1]];
    hide Accumulated;
  }

  /** Reading back what was encoded, whatever follows. */
  lemma ReadHeader(tag: byte, body: seq<byte>, rest: seq<byte>, want: nat)
    requires |body| < 0x8000_0000 && (want == ASN1_ANY || want == tag)
    ensures ReadStart(Header(tag, |body|) + body + rest, want) == Start(Ok, |Header(tag, |body|)|, |body|)
  {
    hide Accumulated, ReadStart, Octets;
    var n, h := |body|, Header(tag, |body|);
    var s := h + body + rest;
    SmallLength(n);
    OctetsRoundTrip(n);
    ReadForms(s, want, n);
    if n >= 0x80 {
      assert s[1] == 0x80 + OctetCount(n);
      assert s[2..2 + OctetCount(n)] == Octets(n);
    }
  }

  lemma ReadObject(os: seq<Object>, want: nat)
    requires os != [] && AllEncodable(os) && (want == ASN1_ANY || want == os[0].tag)
    ensures var s, h := EncodeAll(os), |Header(os[0].tag, |Body(os[0])|)|;
            && ReadStart(s, want) == Start(Ok, h, |Body(os[0])|)
            && s[h..h + |Body(os[0])|] == Body(os[0])
            && s[h + |Body(os[0])|..] == EncodeAll(os[1..])
            && s[..h + |Body(os[0])|] == Encode(os[0])
  {
    var body, rest := Body(os[0]), EncodeAll(os[1..]);
    var h := Header(os[0].tag, |body|);
    assert EncodeAll(os) == h + body + rest;
    ReadHeader(os[0].tag, body, rest, want);
  }

  /** An object of another type is not taken for it. */
  lemma ReadMismatch(os: seq<Object>, want: nat)
    requires os != [] && AllEncodable(os) && want != ASN1_ANY && want != os[0].tag
    ensures ReadStart(EncodeAll(os), want) == Start(Mismatch, 0, 0)
  {
  }
}
