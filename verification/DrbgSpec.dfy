/** The HMAC_DRBG mechanism and its reseeding protocol as functions on values. */
module DrbgSpec {
  import opened Bits
  import opened Wrappers

  const OUT_LEN: nat := 32
  const RESEED_INTERVAL: nat := 1024
  const MAX_INPUT_LEN: nat := 0xffff_ffff
  const MAX_GENERATED_LEN: nat := 0xffff

  type Digest = s: seq<byte> | |s| == 32
    witness [0, 0, 0, 0, 0, 0, 0, 0, 0, 0, 0, 0, 0, 0, 0, 0, 0, 0, 0, 0, 0, 0, 0, 0, 0, 0, 0, 0, 0, 0, 0, 0]

  /** A keyed hash. */
  type Hmac = (Digest, seq<byte>) -> Digest

  function Filled(b: byte): Digest {
    [b, b, b, b, b, b, b, b, b, b, b, b, b, b, b, b, b, b, b, b, b, b, b, b, b, b, b, b, b, b, b, b]
  }

  /** Key, value and reseed counter. */
  datatype Working = Working(key: Digest, value: Digest, counter: nat)

  // ---------------------------------------------------------------------------
  // Section 10.1.2 of NIST SP 800-90.

  function UpdateOnce(hmac: Hmac, w: Working, single: byte, data: seq<byte>): Working {
    var key := hmac(w.key, w.value + [single] + data);
    Working(key, hmac(key, w.value), w.counter)
  }

  function Update(hmac: Hmac, w: Working, data: seq<byte>): Working {
    var once := UpdateOnce(hmac, w, 0x00, data);
    if data == [] then once else UpdateOnce(hmac, once, 0x01, data)
  }

  function Seeded(hmac: Hmac, w: Working, material: seq<byte>): Working {
    Update(hmac, w, material).(counter := 1)
  }

  function Initial(hmac: Hmac, material: seq<byte>): Working {
    Seeded(hmac, Working(Filled(0x00), Filled(0x01), 0), material)
  }

  /** Values are appended until there are enough bytes. */
  function Stretch(hmac: Hmac, key: Digest, value: Digest, temp: seq<byte>, len: nat): (r: (seq<byte>, Digest))
    ensures |r.0| >= len && temp <= r.0
    decreases len - |temp|
  {
    if |temp| >= len then (temp, value)
    else
      var v := hmac(key, value);
      Stretch(hmac, key, v, temp + v, len)
  }

  function Generated(hmac: Hmac, w: Working, additional: seq<byte>, len: nat): (r: (Working, seq<byte>))
    ensures |r.1| == len
  {
    var w1 := if additional == [] then w else Update(hmac, w, additional);
    var out := Stretch(hmac, w1.key, w1.value, [], len);
    (Update(hmac, w1.(value := out.1), additional).(counter := w1.counter + 1), out.0[..len])
  }

  lemma GeneratedCounter(hmac: Hmac, w: Working, additional: seq<byte>, len: nat)
    ensures Generated(hmac, w, additional, len).0.counter == w.counter + 1
  {
  }

  lemma SeededCounter(hmac: Hmac, w: Working, material: seq<byte>)
    ensures Seeded(hmac, w, material).counter == 1 && Initial(hmac, material).counter == 1
  {
  }

  // ---------------------------------------------------------------------------
  // The values, one after the other.

  /** The value after n applications of the keyed hash. */
  function Nth(hmac: Hmac, key: Digest, value: Digest, n: nat): Digest {
    if n == 0 then value else hmac(key, Nth(hmac, key, value, n - 1))
  }

  /** Byte i is byte i mod 32 of value i / 32 + 1. */
  predicate OfChain(hmac: Hmac, key: Digest, v: Digest, s: seq<byte>) {
    forall i :: 0 <= i < |s| ==> s[i] == Nth(hmac, key, v, i / 32 + 1)[i % 32]
  }

  lemma {:induction false} StretchIsChain(hmac: Hmac, key: Digest, v0: Digest, n: nat, temp: seq<byte>, len: nat)
    requires |temp| == 32 * n && OfChain(hmac, key, v0, temp)
    ensures OfChain(hmac, key, v0, Stretch(hmac, key, Nth(hmac, key, v0, n), temp, len).0)
    decreases len - |temp|
  {
    hide Nth;
    if |temp| < len {
      var v := hmac(key, Nth(hmac, key, v0, n));
      NthStep(hmac, key, v0, n);
      var longer := temp + v;
      forall i | 0 <= i < |longer|
        ensures longer[i] == Nth(hmac, key, v0, i / 32 + 1)[i % 32]
      {
        if i >= 32 * n {
          assert i / 32 == n && i % 32 == i - 32 * n;
        }
      }
      hide OfChain;
      StretchIsChain(hmac, key, v0, n + 1, longer, len);
    }
  }

  lemma NthStep(hmac: Hmac, key: Digest, v: Digest, n: nat)
    ensures Nth(hmac, key, v, n + 1) == hmac(key, Nth(hmac, key, v, n))
  {
  }

  /** The output is the leftmost bytes of the chain of values (section 10.1.2.5). */
  lemma OutputIsChain(hmac: Hmac, w: Working, additional: seq<byte>, len: nat)
    ensures var w1 := if additional == [] then w else Update(hmac, w, additional);
            var out := Generated(hmac, w, additional, len).1;
            |out| == len && OfChain(hmac, w1.key, w1.value, out)
  {
    hide Update;
    var w1 := if additional == [] then w else Update(hmac, w, additional);
    assert Nth(hmac, w1.key, w1.value, 0) == w1.value;
    StretchIsChain(hmac, w1.key, w1.value, 0, [], len);
    var all, out := Stretch(hmac, w1.key, w1.value, [], len).0, Generated(hmac, w, additional, len).1;
    assert forall i :: 0 <= i < len ==> out[i] == all[i];
  }

  // ---------------------------------------------------------------------------
  // The states that remain, written out.

  /** The last value is the number of whole blocks of output on in the chain. */
  lemma {:induction false} StretchValue(hmac: Hmac, key: Digest, v0: Digest, n: nat, temp: seq<byte>, len: nat)
    requires |temp| == 32 * n && 32 * n < len + 32
    ensures Stretch(hmac, key, Nth(hmac, key, v0, n), temp, len).1 == Nth(hmac, key, v0, (len + 31) / 32)
    decreases len - |temp|
  {
    hide Nth;
    if |temp| < len {
      NthStep(hmac, key, v0, n);
      StretchValue(hmac, key, v0, n + 1, temp + hmac(key, Nth(hmac, key, v0, n)), len);
    } else {
      assert (len + 31) / 32 == n;
    }
  }

  /** What an update leaves: one round with the byte 0x00, and one with 0x01 if there is input. */
  lemma UpdateForm(hmac: Hmac, w: Working, data: seq<byte>)
    ensures var k0 := hmac(w.key, w.value + [0x00] + data);
            var v0 := hmac(k0, w.value);
            var k1 := hmac(k0, v0 + [0x01] + data);
            Update(hmac, w, data) ==
            if data == [] then Working(k0, v0, w.counter) else Working(k1, hmac(k1, v0), w.counter)
  {
  }

  /**
   Seeding starts from a key of zeros and a value of ones, or from the key and value there
   are, and takes in the entropy and the input that follows it.
   */
  lemma SeedForm(hmac: Hmac, w: Working, entropy: seq<byte>, more: seq<byte>)
    requires entropy != []
    ensures var s := entropy + more;
            var k0 := hmac(w.key, w.value + [0x00] + s);
            var v0 := hmac(k0, w.value);
            var k1 := hmac(k0, v0 + [0x01] + s);
            Seeded(hmac, w, s) == Working(k1, hmac(k1, v0), 1)
    ensures var s := entropy + more;
            var zeros: Digest, ones: Digest := seq(32, _ => 0), seq(32, _ => 1);
            var k0 := hmac(zeros, ones + [0x00] + s);
            var v0 := hmac(k0, ones);
            var k1 := hmac(k0, v0 + [0x01] + s);
            Initial(hmac, s) == Working(k1, hmac(k1, v0), 1)
  {
    FilledIs(0);
    FilledIs(1);
    hide Filled;
  }

  lemma FilledIs(b: byte)
    ensures Filled(b) == seq(32, _ => b)
  {
  }

  /** After generating without input: one round on the last value put out. */
  lemma PlainGenerated(hmac: Hmac, w: Working, len: nat)
    ensures var x := Nth(hmac, w.key, w.value, (len + 31) / 32);
            var key := hmac(w.key, x + [0x00]);
            Generated(hmac, w, [], len).0 == Working(key, hmac(key, x), w.counter + 1)
  {
    hide Stretch, Nth;
    var x := Nth(hmac, w.key, w.value, (len + 31) / 32);
    NthNone(hmac, w.key, w.value);
    StretchValue(hmac, w.key, w.value, 0, [], len);
    assert x + [0x00] + [] == x + [0x00];
  }

  /** With input: two rounds on it, then the output, then two rounds on it again. */
  lemma AddedGenerated(hmac: Hmac, w: Working, additional: seq<byte>, len: nat)
    requires additional != []
    ensures var k0 := hmac(w.key, w.value + [0x00] + additional);
            var v0 := hmac(k0, w.value);
            var k1 := hmac(k0, v0 + [0x01] + additional);
            var v1 := hmac(k1, v0);
            var x := Nth(hmac, k1, v1, (len + 31) / 32);
            var k2 := hmac(k1, x + [0x00] + additional);
            var v2 := hmac(k2, x);
            var k3 := hmac(k2, v2 + [0x01] + additional);
            && Generated(hmac, w, additional, len).0 == Working(k3, hmac(k3, v2), w.counter + 1)
            && OfChain(hmac, k1, v1, Generated(hmac, w, additional, len).1)
  {
    hide Stretch, Nth, Update, OfChain;
    var w1 := Update(hmac, w, additional);
    UpdateForm(hmac, w, additional);
    NthNone(hmac, w1.key, w1.value);
    StretchValue(hmac, w1.key, w1.value, 0, [], len);
    UpdateForm(hmac, w1.(value := Nth(hmac, w1.key, w1.value, (len + 31) / 32)), additional);
    OutputIsChain(hmac, w, additional, len);
  }

  lemma NthNone(hmac: Hmac, key: Digest, v: Digest)
    ensures Nth(hmac, key, v, 0) == v
  {
  }

  // ---------------------------------------------------------------------------
  // The protocol (section 9 of NIST SP 800-90).

  datatype State = State(working: Working, reseedRequired: bool, valid: bool)

  const ERASED := State(Working(Filled(0), Filled(0), 0), false, false)

  datatype Status = Success | OutOfRange | Invalid | NoEntropy

  /** A request, with the entropy that could be had for it. */
  datatype Op =
    | Instantiate(personal: seq<byte>, entropy: Option<seq<byte>>)
    | Reseed(additional: seq<byte>, entropy: Option<seq<byte>>)
    | Generate(additional: seq<byte>, predict: bool, len: nat, entropy: Option<seq<byte>>)
    | Uninstantiate

  /** What a request has done: seeded the generator, put out bytes. */
  datatype Event = Seed | Output(bytes: seq<byte>)

  datatype Reply = Reply(status: Status, state: State, events: seq<Event>)

  /** A reseed is due before anything more can be generated. */
  predicate Due(s: State) {
    s.working.counter > RESEED_INTERVAL
  }

  function Perform(hmac: Hmac, s: State, op: Op): Reply {
    match op
    case Instantiate(personal, entropy) =>
      if |personal| > MAX_INPUT_LEN then Reply(OutOfRange, s, [])
      else if entropy.None? then Reply(NoEntropy, s, [])
      else Reply(Success, State(Initial(hmac, entropy.value + personal), false, true), [Seed])
    case Reseed(additional, entropy) =>
      if !s.valid then Reply(Invalid, s, [])
      else if |additional| > MAX_INPUT_LEN then Reply(OutOfRange, s, [])
      else if entropy.None? then Reply(NoEntropy, s, [])
      else Reply(Success, s.(working := Seeded(hmac, s.working, entropy.value + additional)), [Seed])
    case Generate(additional, predict, len, entropy) =>
      if !s.valid then Reply(Invalid, s, [])
      else if len > MAX_GENERATED_LEN || |additional| > MAX_INPUT_LEN then Reply(OutOfRange, s, [])
      else if predict || Due(s) then
        if entropy.None? then Reply(NoEntropy, s.(reseedRequired := !predict), [])
        else
          var g := Generated(hmac, Seeded(hmac, s.working, entropy.value + additional), [], len);
          Reply(Success, State(g.0, false, true), [Seed, Output(g.1)])
      else
        var g := Generated(hmac, s.working, additional, len);
        Reply(Success, State(g.0, false, true), [Output(g.1)])
    case Uninstantiate => Reply(Success, ERASED, [])
  }

  /** Without a source of entropy, bytes can be had exactly within the limits and up to 1024 times. */
  lemma GenerateIff(hmac: Hmac, s: State, additional: seq<byte>, len: nat)
    ensures Perform(hmac, s, Generate(additional, false, len, None)).status == Success <==>
            s.valid && len <= 0xffff && |additional| <= 0xffff_ffff && s.working.counter <= 1024
  {
    hide Generated;
  }

  /** Input given when seeding is as good as entropy that comes after the entropy. */
  lemma EntropyFirst(hmac: Hmac, s: State, entropy: seq<byte>, input: seq<byte>)
    requires |input| <= 0xffff_ffff
    ensures Perform(hmac, s, Instantiate(input, Some(entropy))) == Perform(hmac, s, Instantiate([], Some(entropy + input)))
    ensures Perform(hmac, s, Reseed(input, Some(entropy))) == Perform(hmac, s, Reseed([], Some(entropy + input)))
  {
    hide Seeded, Initial;
    assert entropy + input + [] == entropy + input;
  }

  /** Resistance to prediction is a reseed with the input, then bytes without it. */
  lemma PredictionReseeds(hmac: Hmac, s: State, additional: seq<byte>, len: nat, entropy: seq<byte>)
    requires s.valid && len <= 0xffff && |additional| <= 0xffff_ffff
    ensures var seeded := Perform(hmac, s, Reseed(additional, Some(entropy)));
            var bytes := Perform(hmac, seeded.state, Generate([], false, len, None));
            var both := Perform(hmac, s, Generate(additional, true, len, Some(entropy)));
            && seeded.status == Success && bytes.status == Success
            && both == Reply(Success, bytes.state, seeded.events + bytes.events)
  {
    hide Seeded, Generated;
    SeededCounter(hmac, s.working, entropy + additional);
  }

  /** A request that fails puts out nothing and leaves key, value and counter as they were. */
  lemma FailureKeeps(hmac: Hmac, s: State, op: Op)
    ensures var r := Perform(hmac, s, op);
            r.status != Success ==> r.events == [] && r.state.working == s.working && r.state.valid == s.valid
  {
    hide Seeded, Initial, Generated;
  }

  /** A generator given up holds nothing but zeros, and gives nothing until it is instantiated again. */
  lemma Erased(hmac: Hmac, s: State, op: Op)
    ensures var r := Perform(hmac, s, Uninstantiate).state;
            && (forall i :: 0 <= i < 32 ==> r.working.key[i] == 0 && r.working.value[i] == 0) && r.working.counter == 0
            && (op.Generate? || op.Reseed? ==> Perform(hmac, r, op) == Reply(Invalid, r, []))
  {
    FilledIs(0);
    hide Filled;
  }

  /** How many outputs there have been since the last seed. */
  function SinceSeed(events: seq<Event>): nat {
    if events == [] then 0
    else
      var k := |events| - 1;
      if events[k].Seed? then 0 else SinceSeed(events[..k]) + 1
  }

  /** The counter keeps the count. */
  predicate InStep(s: State, events: seq<Event>) {
    s.valid ==> s.working.counter == SinceSeed(events) + 1
  }

  lemma SinceSeedOne(events: seq<Event>, e: Event)
    ensures SinceSeed(events + [e]) == if e.Seed? then 0 else SinceSeed(events) + 1
  {
    assert (events + [e])[..|events|] == events;
  }

  lemma PerformInStep(hmac: Hmac, s: State, op: Op, events: seq<Event>)
    requires InStep(s, events)
    ensures var r := Perform(hmac, s, op);
            && InStep(r.state, events + r.events)
            && (forall k :: 0 <= k < |r.events| && r.events[k].Output? ==>
                  s.valid && SinceSeed(events + r.events[..k + 1]) <= RESEED_INTERVAL)
  {
    hide Seeded, Initial, Generated;
    var r := Perform(hmac, s, op);
    assert events + [] == events;
    SinceSeedOne(events, Seed);
    match op
    case Instantiate(personal, entropy) =>
      if entropy.Some? {
        SeededCounter(hmac, s.working, entropy.value + personal);
      }
    case Reseed(additional, entropy) =>
      if entropy.Some? {
        SeededCounter(hmac, s.working, entropy.value + additional);
      }
    case Generate(additional, predict, len, entropy) =>
      if r.status == Success {
        if predict || Due(s) {
          var w := Seeded(hmac, s.working, entropy.value + additional);
          SeededCounter(hmac, s.working, entropy.value + additional);
          GeneratedCounter(hmac, w, [], len);
          SinceSeedOne(events + [Seed], r.events[1]);
          assert r.events == [Seed, r.events[1]];
          assert events + r.events == events + [Seed] + [r.events[1]];
          assert r.events[..2] == r.events;
        } else {
          GeneratedCounter(hmac, s.working, additional, len);
          SinceSeedOne(events, r.events[0]);
          assert r.events[..1] == r.events;
        }
      }
    case Uninstantiate =>
  }

  /** The replies to a sequence of requests. */
  function Run(hmac: Hmac, s: State, ops: seq<Op>): (State, seq<Event>)
    decreases |ops|
  {
    if ops == [] then (s, [])
    else
      var k := |ops| - 1;
      var before := Run(hmac, s, ops[..k]);
      var r := Perform(hmac, before.0, ops[k]);
      (r.state, before.1 + r.events)
  }

  predicate HasSeed(events: seq<Event>) {
    exists j :: 0 <= j < |events| && events[j].Seed?
  }

  /** Bytes are put out only after a seed, and never more often than the interval without another. */
  predicate WellSeeded(events: seq<Event>) {
    forall k :: 0 <= k < |events| && events[k].Output? ==>
      HasSeed(events[..k]) && SinceSeed(events[..k + 1]) <= RESEED_INTERVAL
  }

  lemma ExtendWellSeeded(events: seq<Event>, more: seq<Event>)
    requires WellSeeded(events)
    requires forall k :: 0 <= k < |more| && more[k].Output? ==>
               HasSeed(events + more[..k]) && SinceSeed(events + more[..k + 1]) <= RESEED_INTERVAL
    ensures WellSeeded(events + more)
  {
    hide HasSeed, SinceSeed;
    var all, n := events + more, |events|;
    forall k | 0 <= k < |all| && all[k].Output?
      ensures HasSeed(all[..k]) && SinceSeed(all[..k + 1]) <= RESEED_INTERVAL
    {
      if k < n {
        assert all[..k] == events[..k] && all[..k + 1] == events[..k + 1];
      } else {
        assert all[..k] == events + more[..k - n] && all[..k + 1] == events + more[..k - n + 1];
      }
    }
  }

  lemma HasSeedAppend(a: seq<Event>, b: seq<Event>)
    ensures HasSeed(a + b) <==> HasSeed(a) || HasSeed(b)
  {
    if HasSeed(a) {
      var j :| 0 <= j < |a| && a[j].Seed?;
      assert (a + b)[j].Seed?;
    }
    if HasSeed(b) {
      var j :| 0 <= j < |b| && b[j].Seed?;
      assert (a + b)[|a| + j].Seed?;
    }
  }

  /** A generator is valid only after it has been seeded. */
  lemma PerformSeeds(hmac: Hmac, s: State, op: Op, events: seq<Event>)
    requires s.valid ==> HasSeed(events)
    ensures var r := Perform(hmac, s, op);
            && (r.state.valid ==> HasSeed(events + r.events))
            && (forall k :: 0 <= k < |r.events| && r.events[k].Output? ==> HasSeed(events + r.events[..k]))
  {
    hide Seeded, Initial, Generated, HasSeed;
    var r := Perform(hmac, s, op);
    HasSeedAppend(events, r.events);
    SeedIn(r.events);
    forall k | 0 <= k < |r.events| && r.events[k].Output?
      ensures HasSeed(events + r.events[..k])
    {
      HasSeedAppend(events, r.events[..k]);
    }
  }

  lemma SeedIn(events: seq<Event>)
    ensures events != [] && events[0].Seed? ==> HasSeed(events)
  {
  }

  /** What holds of every run from the start. */
  lemma {:induction false} RunWellSeeded(hmac: Hmac, ops: seq<Op>)
    ensures var r := Run(hmac, ERASED, ops);
            WellSeeded(r.1) && InStep(r.0, r.1) && (r.0.valid ==> HasSeed(r.1))
    decreases |ops|
  {
    hide Perform, HasSeed, SinceSeed;
    if ops != [] {
      var k := |ops| - 1;
      RunWellSeeded(hmac, ops[..k]);
      var before := Run(hmac, ERASED, ops[..k]);
      PerformInStep(hmac, before.0, ops[k], before.1);
      PerformSeeds(hmac, before.0, ops[k], before.1);
      ExtendWellSeeded(before.1, Perform(hmac, before.0, ops[k]).events);
    }
  }
}
