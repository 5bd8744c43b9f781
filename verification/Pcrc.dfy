/**
 The CRC service: the configured subnetwork address (SNA), the two checks of it that are kept ready,
 and the calculation by header type.
 */
module Pcrc {
  import opened Gf2
  import opened ShiftRegisters
  import opened WordBits
  import opened Crc
  import opened CrcDivision
  import opened CrcLoops

  const SNA_SIZE: nat := 6
  const PROMOTION_LENGTH: nat := 13
  const BEACON_PRIME14: bv32 := 0x0001_0400
  const CRC_INVALID: bv32 := 0xFFFF_FFFF

  const HT_GENERIC: bv8 := 0
  const HT_PROMOTION: bv8 := 1
  const HT_BEACON: bv8 := 2
  const HT_USI: bv8 := 3

  const TYPE_8: bv8 := 0
  const TYPE_16: bv8 := 1
  const TYPE_32: bv8 := 3

  /** The check of a message on the serial link, which does not depend on the SNA. */
  function UsiCheck(m: seq<Byte>, crcType: bv8): bv32 {
    if crcType == TYPE_8 then ByteSum(m, 0) as bv32
    else if crcType == TYPE_16 then Crc16(m, 0) as bv32
    else if crcType == TYPE_32 then Crc32(m, 0)
    else CRC_INVALID
  }

  method CalcUsi(buf: array<Byte>, from: nat, len: nat, crcType: bv8) returns (crc: bv32)
    requires from + len <= buf.Length
    ensures crc == UsiCheck(buf[from..from + len], crcType)
  {
    if crcType == TYPE_8 {
      var c := EvalCrc8Usi(buf, from, len, 0);
      crc := c as bv32;
    } else if crcType == TYPE_16 {
      var c := EvalCrc16(buf, from, len, 0);
      crc := c as bv32;
    } else if crcType == TYPE_32 {
      crc := EvalCrc32(buf, from, len, 0);
    } else {
      crc := CRC_INVALID;
    }
  }

  /** The check of part of a firmware image, carried on from the value of the parts before it. */
  method CalcFu(buf: array<Byte>, from: nat, len: nat, init: bv32) returns (crc: bv32)
    requires from + len <= buf.Length
    ensures crc == Crc32(buf[from..from + len], init)
  {
    crc := EvalCrc32(buf, from, len, init);
  }

  class Service {
    const sna: array<Byte>
    var snaCrc8: bv8
    var snaCrc32: bv32

    /** The two stored values are the checks of the stored address. */
    ghost predicate Valid()
      reads this, sna
    {
      && sna.Length == SNA_SIZE
      && snaCrc8 == Crc8(sna[..], 0)
      && snaCrc32 == Crc32(sna[..], 0)
    }

    constructor ()
      ensures Valid() && fresh(sna)
      ensures sna[..] == [0, 0, 0, 0, 0, 0]
    {
      sna := new Byte[SNA_SIZE](_ => 0);
      snaCrc8 := 0;
      snaCrc32 := 0;
      new;
      assert sna[..] == [0, 0, 0, 0, 0, 0];
      ZeroMessage(sna[..]);
    }

    method ConfigSna(address: array<Byte>)
      requires Valid() && address.Length >= SNA_SIZE && address != sna
      modifies this, sna
      ensures Valid()
      ensures sna[..] == address[..SNA_SIZE]
    {
      for i := 0 to SNA_SIZE
        invariant sna[..i] == address[..i]
      {
        sna[i] := address[i];
      }
      snaCrc8 := EvalCrc8(sna, 0, SNA_SIZE, 0);
      snaCrc32 := EvalCrc32(sna, 0, SNA_SIZE, 0);
      assert sna[..] == sna[0..0 + SNA_SIZE];
    }

    /**
     The calculation by header type. A generic packet is checked together with the configured address in front of it,
     although only the packet is read; a promotion packet is always thirteen bytes.
     */
    method Calc(buf: array<Byte>, from: nat, len: nat, headerType: bv8, crcType: bv8, v14: bool) returns (crc: bv32)
      requires Valid() && from + len <= buf.Length
      requires headerType == HT_PROMOTION ==> from + PROMOTION_LENGTH <= buf.Length
      ensures headerType == HT_GENERIC && crcType == TYPE_8 ==>
                crc == Crc8(sna[..] + buf[from..from + len], 0) as bv32
      ensures headerType == HT_GENERIC && crcType == TYPE_16 ==> crc == Crc16(buf[from..from + len], 0) as bv32
      ensures headerType == HT_GENERIC && crcType == TYPE_32 ==>
                crc == Crc32(sna[..] + buf[from..from + len], 0)
      ensures headerType == HT_GENERIC && crcType !in {TYPE_8, TYPE_16, TYPE_32} ==> crc == CRC_INVALID
      ensures headerType == HT_PROMOTION ==> crc == Crc8(buf[from..from + PROMOTION_LENGTH], 0) as bv32
      ensures headerType == HT_BEACON ==>
                crc == Crc32(buf[from..from + len], if v14 then BEACON_PRIME14 else 0)
      ensures headerType == HT_USI ==> crc == UsiCheck(buf[from..from + len], crcType)
      ensures headerType !in {HT_GENERIC, HT_PROMOTION, HT_BEACON, HT_USI} ==> crc == CRC_INVALID
    {
      if headerType == HT_BEACON {
        crc := EvalCrc32(buf, from, len, if v14 then BEACON_PRIME14 else 0);
      } else if headerType == HT_GENERIC {
        crc := CalcGeneric(buf, from, len, crcType);
      } else if headerType == HT_PROMOTION {
        var c := EvalCrc8(buf, from, PROMOTION_LENGTH, 0);
        crc := c as bv32;
      } else if headerType == HT_USI {
        crc := CalcUsi(buf, from, len, crcType);
      } else {
        crc := CRC_INVALID;
      }
    }

    method CalcGeneric(buf: array<Byte>, from: nat, len: nat, crcType: bv8) returns (crc: bv32)
      requires Valid() && from + len <= buf.Length
      ensures crcType == TYPE_8 ==> crc == Crc8(sna[..] + buf[from..from + len], 0) as bv32
      ensures crcType == TYPE_16 ==> crc == Crc16(buf[from..from + len], 0) as bv32
      ensures crcType == TYPE_32 ==> crc == Crc32(sna[..] + buf[from..from + len], 0)
      ensures crcType !in {TYPE_8, TYPE_16, TYPE_32} ==> crc == CRC_INVALID
    {
      if crcType == TYPE_8 {
        var c := GenericCrc8(buf, from, len);
        crc := c as bv32;
      } else if crcType == TYPE_16 {
        var c := EvalCrc16(buf, from, len, 0);
        crc := c as bv32;
      } else if crcType == TYPE_32 {
        crc := GenericCrc32(buf, from, len);
      } else {
        crc := CRC_INVALID;
      }
    }

    method GenericCrc8(buf: array<Byte>, from: nat, len: nat) returns (crc: bv8)
      requires Valid() && from + len <= buf.Length
      ensures crc == Crc8(sna[..] + buf[from..from + len], 0)
    {
      Narrow8(snaCrc8);
      crc := EvalCrc8(buf, from, len, snaCrc8 as bv32);
      Crc8Concat(sna[..], buf[from..from + len], 0);
    }

    method GenericCrc32(buf: array<Byte>, from: nat, len: nat) returns (crc: bv32)
      requires Valid() && from + len <= buf.Length
      ensures crc == Crc32(sna[..] + buf[from..from + len], 0)
    {
      crc := EvalCrc32(buf, from, len, snaCrc32);
      Crc32Concat(sna[..], buf[from..from + len], 0);
    }
  }

  /** The all-zero address has zero checks, so the initial values agree before anything is configured. */
  lemma {:induction false} ZeroMessage(m: seq<Byte>)
    requires forall i :: 0 <= i < |m| ==> m[i] == 0
    ensures Crc8(m, 0) == 0 && Crc32(m, 0) == 0
    decreases |m|
  {
    if m != [] {
      ZeroStep(Step8(0, 0), Step32(0, 0));
      ZeroMessage(m[1..]);
    }
  }

  lemma ZeroStep(s8: bv8, s32: bv32)
    requires s8 == Step8(0, 0) && s32 == Step32(0, 0)
    ensures s8 == 0 && s32 == 0
  {
    Generators();
    Step8IsTopFed(0, 0);
    Step32IsTopFed(0, 0);
    ZeroBits();
    ZeroStaysZero(GEN8, 8);
    ZeroStaysZero(GEN32, 8);
    Bits8Injective(s8, 0);
    Bits32Injective(s32, 0);
  }

  // ---------- a non-zero initial value ----------

  function XorBytes(a: seq<Byte>, b: seq<Byte>): (c: seq<Byte>)
    requires |a| == |b|
    ensures |c| == |a|
  {
    if a == [] then [] else [a[0] ^ b[0]] + XorBytes(a[1..], b[1..])
  }

  lemma {:induction false} XorBytesBits(a: seq<Byte>, b: seq<Byte>)
    requires |a| == |b|
    ensures MsgBits(XorBytes(a, b)) == Xor(MsgBits(a), MsgBits(b))
    decreases |a|
  {
    if a != [] {
      XorBytesBits(a[1..], b[1..]);
      XorHead(a[0], MsgBits(a[1..]), b[0], MsgBits(b[1..]));
    }
  }

  lemma XorHead(x: Byte, a: Bits, y: Byte, b: Bits)
    requires |a| == |b|
    ensures Xor(Bits8(x) + a, Bits8(y) + b) == Bits8(x ^ y) + Xor(a, b)
  {
    Xor8(x, y);
    XorConcat(Bits8(x), a, Bits8(y), b);
  }

  /** CRC-32 adds up: in the message and in the initial value at once. */
  lemma Crc32Linear(a: seq<Byte>, b: seq<Byte>, i: bv32, j: bv32, x: bv32, y: bv32, sum: bv32)
    requires |a| == |b| && x == Crc32(a, i) && y == Crc32(b, j) && sum == Crc32(XorBytes(a, b), i ^ j)
    ensures sum == x ^ y
  {
    Crc32IsTopFed(a, i);
    Crc32IsTopFed(b, j);
    Crc32IsTopFed(XorBytes(a, b), i ^ j);
    XorBytesBits(a, b);
    TopBitsXor(i, j, 32);
    TopBitsXor(x, y, 32);
    TopFedLinear(GEN32, Bits32(i), Bits32(j), MsgBits(a), MsgBits(b));
    Bits32Injective(sum, x ^ y);
  }

  lemma Crc8Linear(a: seq<Byte>, b: seq<Byte>, i: bv8, j: bv8, x: bv8, y: bv8, sum: bv8)
    requires |a| == |b| && x == Crc8(a, i) && y == Crc8(b, j) && sum == Crc8(XorBytes(a, b), i ^ j)
    ensures sum == x ^ y
  {
    Crc8IsTopFed(a, i);
    Crc8IsTopFed(b, j);
    Crc8IsTopFed(XorBytes(a, b), i ^ j);
    XorBytesBits(a, b);
    Xor8(i, j);
    Xor8(x, y);
    TopFedLinear(GEN8, Bits8(i), Bits8(j), MsgBits(a), MsgBits(b));
    Bits8Injective(sum, x ^ y);
  }

  /** Starting from a value is the same as adding it to the first four bytes of the message and starting from zero. */
  lemma InitialValueIsPrefix(m: seq<Byte>, init: bv32)
    requires |m| >= 4
    ensures Crc32(m, init) == Crc32(XorBytes(m[..4], BigEndian32(init)) + m[4..], 0)
  {
    var head := XorBytes(m[..4], BigEndian32(init));
    assert m == m[..4] + m[4..];
    Crc32Concat(m[..4], m[4..], init);
    Crc32Concat(head, m[4..], 0);
    SameFirstFour(m[..4], init, head);
  }

  lemma SameFirstFour(a: seq<Byte>, init: bv32, head: seq<Byte>)
    requires |a| == 4 && head == XorBytes(a, BigEndian32(init))
    ensures Crc32(a, init) == Crc32(head, 0)
  {
    Generators();
    Crc32IsTopFed(a, init);
    Crc32IsTopFed(head, 0);
    BigEndian32Bits(init);
    XorBytesBits(a, BigEndian32(init));
    ZeroBits();
    AbsorbWhole(GEN32, Bits32(init), MsgBits(a), Bits32(Crc32(a, init)), Bits32(Crc32(head, 0)));
    Bits32Injective(Crc32(a, init), Crc32(head, 0));
  }

  lemma AbsorbWhole(g: Bits, s: Bits, m: Bits, r: Bits, r': Bits)
    requires IsCheckGenerator(g) && |s| == |m| == |g| - 1
    requires r == TopFed(g, s, m) && r' == TopFed(g, Zeros(|s|), Xor(m, s))
    ensures r == r'
  {
    var z, x := Zeros(|s|), Xor(m, s);
    FromZero(s, m);
    TopFedAbsorbs(g, s, m);
    TopFedAbsorbs(g, z, x);
  }

  lemma FromZero(s: Bits, m: Bits)
    requires |s| == |m|
    ensures m + Zeros(0) == m && Xor(m, s) + Zeros(0) == Xor(m, s)
    ensures Xor(Zeros(|s|), Xor(m, s)) == Xor(s, m)
  {
  }

  lemma Narrow8(x: bv8)
    ensures ((x as bv32) & 0xFF) as bv8 == x
  {
  }
}
