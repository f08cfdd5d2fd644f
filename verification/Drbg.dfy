/** The deterministic random bit generator, with its state updated in place. */
module Drbg {
  import opened Bits
  import opened DrbgSpec
  import opened Wrappers

  class Drbg {
    /** The keyed hash underneath. */
    const hmac: Hmac
    var key: Digest
    var value: Digest
    var reseedCounter: nat
    var reseedRequired: bool
    var valid: bool

    ghost function Inner(): Working
      reads this
    {
      Working(key, value, reseedCounter)
    }

    ghost function Now(): State
      reads this
    {
      State(Inner(), reseedRequired, valid)
    }

    /** A state that has been zeroed. */
    constructor (hmac: Hmac)
      ensures Now() == ERASED && this.hmac == hmac
    {
      this.hmac := hmac;
      key, value, reseedCounter, reseedRequired, valid := Filled(0), Filled(0), 0, false, false;
    }

    // -------------------------------------------------------------------------
    // The mechanism.

    method UpdateKey(data: seq<byte>, single: byte)
      modifies `key
      ensures key == hmac(old(key), value + [single] + data)
    {
      key := hmac(key, value + [single] + data);
    }

    method UpdateValue()
      modifies `value
      ensures value == hmac(key, old(value))
    {
      value := hmac(key, value);
    }

    method UpdateState(data: seq<byte>)
      modifies `key, `value
      ensures Inner() == Update(hmac, old(Inner()), data)
    {
      UpdateKey(data, 0x00);
      UpdateValue();
      if |data| == 0 {
        return;
      }
      UpdateKey(data, 0x01);
      UpdateValue();
    }

    method ReseedAlgorithm(entropy: seq<byte>, additional: seq<byte>)
      modifies `key, `value, `reseedCounter
      ensures Inner() == Seeded(hmac, old(Inner()), entropy + additional)
    {
      hide Update;
      UpdateState(entropy + additional);
      reseedCounter := 1;
    }

    method InstantiateAlgorithm(entropy: seq<byte>, personal: seq<byte>)
      modifies `key, `value, `reseedCounter
      ensures Inner() == Initial(hmac, entropy + personal)
    {
      hide Update;
      key := Filled(0x00);
      value := Filled(0x01);
      ghost var w := Inner();
      ReseedAlgorithm(entropy, personal);
      SeededIgnoresCounter(hmac, w, Working(Filled(0x00), Filled(0x01), 0), entropy + personal);
    }

    /** Fills the buffer, one value after another. */
    method Fill(data: array<byte>)
      modifies `value, data
      ensures var r := Stretch(hmac, key, old(value), [], data.Length);
              data[..] == r.0[..data.Length] && value == r.1
    {
      ghost var v0 := value;
      ghost var temp: seq<byte> := [];
      var at := 0;
      while at < data.Length
        invariant at == (if |temp| < data.Length then |temp| else data.Length)
        invariant data[..at] == temp[..at]
        invariant Stretch(hmac, key, value, temp, data.Length) == Stretch(hmac, key, v0, [], data.Length)
      {
        UpdateValue();
        var left := data.Length - at;
        var frag := if left > OUT_LEN then OUT_LEN else left;
        ghost var before := data[..at];
        CopyIn(data, at, value[..frag]);
        temp := temp + value;
        at := at + frag;
        assert data[..at] == before + value[..frag];
      }
    }

    method CopyIn(data: array<byte>, at: nat, s: seq<byte>)
      requires at + |s| <= data.Length
      modifies data
      ensures data[..at] == old(data[..at]) && data[at..at + |s|] == s
    {
      var i := 0;
      while i < |s|
        invariant 0 <= i <= |s| && data[..at] == old(data[..at]) && data[at..at + i] == s[..i]
      {
        data[at + i] := s[i];
        i := i + 1;
      }
    }

    /** Generates, unless a reseed is due. */
    method GenerateAlgorithm(additional: seq<byte>, data: array<byte>) returns (ok: bool)
      modifies `key, `value, `reseedCounter, data
      ensures ok == !Due(old(Now()))
      ensures !ok ==> Inner() == old(Inner()) && data[..] == old(data[..])
      ensures ok ==> (Inner(), data[..]) == Generated(hmac, old(Inner()), additional, data.Length)
    {
      hide Update;
      if reseedCounter > RESEED_INTERVAL {
        return false;
      }
      if |additional| > 0 {
        UpdateState(additional);
      }
      Fill(data);
      UpdateState(additional);
      UpdateKeepsCounter(hmac);
      reseedCounter := reseedCounter + 1;
      return true;
    }

    // -------------------------------------------------------------------------
    // The protocol.

    method InstantiateDrbg(personal: seq<byte>, entropy: Option<seq<byte>>) returns (status: Status)
      modifies this
      ensures var r := Perform(hmac, old(Now()), Instantiate(personal, entropy));
              status == r.status && Now() == r.state
    {
      hide Initial;
      if |personal| > MAX_INPUT_LEN {
        return OutOfRange;
      }
      if entropy.None? {
        return NoEntropy;
      }
      InstantiateAlgorithm(entropy.value, personal);
      reseedRequired := false;
      valid := true;
      return Success;
    }

    method ReseedDrbg(additional: seq<byte>, entropy: Option<seq<byte>>) returns (status: Status)
      modifies `key, `value, `reseedCounter
      ensures var r := Perform(hmac, old(Now()), Reseed(additional, entropy));
              status == r.status && Now() == r.state
    {
      hide Seeded;
      if !valid {
        return Invalid;
      }
      if |additional| > MAX_INPUT_LEN {
        return OutOfRange;
      }
      if entropy.None? {
        return NoEntropy;
      }
      ReseedAlgorithm(entropy.value, additional);
      return Success;
    }

    /** Generates bytes, reseeding first if need be; the algorithm is tried at most twice. */
    method GenerateDrbg(additional: seq<byte>, predict: bool, data: array<byte>, entropy: Option<seq<byte>>)
      returns (status: Status, attempts: nat)
      modifies this, data
      ensures var r := Perform(hmac, old(Now()), Generate(additional, predict, data.Length, entropy));
              && status == r.status && Now() == r.state
              && data[..] == (if status == Success then Last(r.events) else old(data[..]))
      ensures attempts <= 2 && (attempts == 2 ==> !predict && Due(old(Now())))
    {
      hide Seeded, Generated;
      attempts := 0;
      if !valid {
        return Invalid, 0;
      }
      if data.Length > MAX_GENERATED_LEN {
        return OutOfRange, 0;
      }
      if |additional| > MAX_INPUT_LEN {
        return OutOfRange, 0;
      }
      reseedRequired := false;
      ghost var s := old(Now());
      var input, resist := additional, predict;
      while true
        invariant attempts <= 1 && input == additional && data[..] == old(data[..])
        invariant attempts == 0 ==> Now() == s.(reseedRequired := false) && resist == predict
        invariant attempts == 1 ==> Now() == s.(reseedRequired := true) && resist && !predict && Due(s)
        decreases 1 - attempts
      {
        if reseedRequired || resist {
          ghost var before := Now();
          status := ReseedDrbg(input, entropy);
          if status != Success {
            return;
          }
          SeededCounter(hmac, before.working, entropy.value + additional);
          input := [];
          reseedRequired := false;
        }
        attempts := attempts + 1;
        var ok := GenerateAlgorithm(input, data);
        if ok {
          return Success, attempts;
        }
        reseedRequired := true;
        resist := true;
      }
    }

    method UninstantiateDrbg()
      modifies this
      ensures Now() == Perform(hmac, old(Now()), Uninstantiate).state
    {
      key, value, reseedCounter, reseedRequired, valid := Filled(0), Filled(0), 0, false, false;
    }
  }

  /** The bytes put out last. */
  function Last(events: seq<Event>): seq<byte> {
    if events == [] || events[|events| - 1].Seed? then [] else events[|events| - 1].bytes
  }

  lemma SeededIgnoresCounter(hmac: Hmac, w: Working, x: Working, material: seq<byte>)
    requires w.key == x.key && w.value == x.value
    ensures Seeded(hmac, w, material) == Seeded(hmac, x, material)
  {
  }

  lemma UpdateKeepsCounter(hmac: Hmac)
    ensures forall w, data :: Update(hmac, w, data).counter == w.counter
  {
  }
}
