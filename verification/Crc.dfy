/** CRC-32C (section 12.1 of RFC 3720) as the running checksum of a byte stream. */
module Crc {
  import opened Prelude

  const POLYNOMIAL: u32 := 0x82f6_3b78

  function Pow2(n: nat): (r: nat)
    ensures r >= 1
  {
    if n == 0 then 1 else 2 * Pow2(n - 1)
  }

  /** Exclusive or of the low `bits` bits. */
  function Xor(a: nat, b: nat, bits: nat): (r: nat)
    ensures r < Pow2(bits)
  {
    if bits == 0 then 0
    else (a % 2 + b % 2) % 2 + 2 * Xor(a / 2, b / 2, bits - 1)
  }

  lemma Pow32()
    ensures Pow2(32) == 0x1_0000_0000
  {
    assert Pow2(8) == 256;
    assert Pow2(16) == 0x1_0000;
    assert Pow2(24) == 0x100_0000;
  }

  function Xor32(a: u32, b: u32): u32 {
    Pow32();
    Xor(a, b, 32)
  }

  function Shift(state: u32, rounds: nat): u32
    decreases rounds
  {
    if rounds == 0 then state
    else Shift(if state % 2 == 1 then Xor32(state / 2, POLYNOMIAL) else state / 2, rounds - 1)
  }

  function Absorb(state: u32, b: byte): u32 {
    Shift(Xor32(state, b), 8)
  }

  /** Feed a byte string to the running state. */
  function Update(state: u32, bytes: Bytes): u32
    decreases |bytes|
  {
    if bytes == [] then state else Update(Absorb(state, bytes[0]), bytes[1..])
  }

  const START: u32 := 0xffff_ffff

  function Finish(state: u32): u32 {
    0xffff_ffff - state
  }

  function Crc32c(bytes: Bytes): u32 {
    Finish(Update(START, bytes))
  }

  /** Feeding two pieces in turn is feeding their concatenation. */
  lemma {:induction false} UpdateConcat(state: u32, a: Bytes, b: Bytes)
    ensures Update(state, a + b) == Update(Update(state, a), b)
    decreases |a|
  {
    hide Absorb;
    if a == [] {
      assert a + b == b;
    } else {
      UpdateConcat(Absorb(state, a[0]), a[1..], b);
      assert (a + b)[1..] == a[1..] + b;
    }
  }
}
