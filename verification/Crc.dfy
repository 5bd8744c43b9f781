/**
 The four checks of the CRC service, bit by bit: a register that is shifted once for every message bit, the
 generator being subtracted whenever a one falls out of it. CRC-32 and CRC-8 add each byte at the top of the register
 before shifting, CRC-16 adds it at the bottom afterwards, and the serial link's byte sum does not shift at all.
 */
module Crc {
  import opened WordBits
  import opened CrcTables

  const BYTE_BITS: nat := 8

  function Shifts32(s: bv32, n: nat): bv32
    decreases n
  {
    if n == 0 then s else Shifts32(Shift32(s), n - 1)
  }

  function Shifts16(s: bv16, n: nat): bv16
    decreases n
  {
    if n == 0 then s else Shifts16(Shift16(s), n - 1)
  }

  function Shifts8(s: bv8, n: nat): bv8
    decreases n
  {
    if n == 0 then s else Shifts8(Shift8(s), n - 1)
  }

  function Step32(s: bv32, b: Byte): bv32 {
    Shifts32(s ^ Wide8(b), BYTE_BITS)
  }

  function AddByte16(s: bv16, b: Byte): bv16 {
    s ^ (b as bv16)
  }

  function Step16(s: bv16, b: Byte): bv16 {
    AddByte16(Shifts16(s, BYTE_BITS), b)
  }

  function Step8(s: bv8, b: Byte): bv8 {
    Shifts8(s ^ b, BYTE_BITS)
  }

  function Crc32(m: seq<Byte>, init: bv32): bv32 {
    if m == [] then init else Crc32(m[1..], Step32(init, m[0]))
  }

  function Crc16(m: seq<Byte>, init: bv16): bv16 {
    if m == [] then init else Crc16(m[1..], Step16(init, m[0]))
  }

  function Crc8(m: seq<Byte>, init: bv8): bv8 {
    if m == [] then init else Crc8(m[1..], Step8(init, m[0]))
  }

  function ByteSum(m: seq<Byte>, init: bv8): bv8 {
    if m == [] then init else ByteSum(m[1..], init ^ m[0])
  }

  /** A check may be carried over from one part of a message to the next. */
  lemma {:induction false} Crc32Concat(a: seq<Byte>, b: seq<Byte>, init: bv32)
    ensures Crc32(a + b, init) == Crc32(b, Crc32(a, init))
    decreases |a|
  {
    if a == [] {
      assert a + b == b;
    } else {
      assert (a + b)[1..] == a[1..] + b;
      Crc32Concat(a[1..], b, Step32(init, a[0]));
    }
  }

  lemma {:induction false} Crc8Concat(a: seq<Byte>, b: seq<Byte>, init: bv8)
    ensures Crc8(a + b, init) == Crc8(b, Crc8(a, init))
    decreases |a|
  {
    if a == [] {
      assert a + b == b;
    } else {
      assert (a + b)[1..] == a[1..] + b;
      Crc8Concat(a[1..], b, Step8(init, a[0]));
    }
  }
}
