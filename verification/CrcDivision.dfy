/**
 What the checks compute. Each table step is eight steps of a shift register, so each check is the remainder of
 the message, as a polynomial, on division by its generator.
 */
module CrcDivision {
  import opened Gf2
  import opened ShiftRegisters
  import opened WordBits
  import opened CrcTables
  import opened Crc

  ghost const GEN32: Bits := [true] + Bits32(0x04C1_1DB7)
  ghost const GEN16: Bits := [true] + Bits16(0x1021)
  ghost const GEN8: Bits := [true] + Bits8(0x07)

  /** The byte sum is a CRC too: its generator is x^8 + 1. */
  ghost const GENSUM: Bits := [true] + Bits8(0x01)

  lemma Generators()
    ensures |GEN32| == 33 && IsCheckGenerator(GEN32)
    ensures |GEN16| == 17 && IsCheckGenerator(GEN16)
    ensures |GEN8| == 9 && IsCheckGenerator(GEN8)
    ensures |GENSUM| == 9 && IsCheckGenerator(GENSUM)
  {
    BitShl8(0x04C1_1DB7, 23);
    BitShl8(0xC11D_B700, 15);
    BitShl8(0x1DB7_0000, 7);
    assert Bit(0xB700_0000, 7);
    BitShl8(0x1021_0000, 7);
    assert Bit(0x2100_0000, 7);
    assert Bit(Wide8(0x07), 7);
    assert Bit(Wide8(0x01), 7);
  }

  // ---------- one shift, eight shifts ----------

  lemma ShiftHigh32(s: bv32)
    requires s & 0x8000_0000 != 0
    ensures High(s) && Shift32(s) == (s << 1) ^ 0x04C1_1DB7
  {
  }

  lemma ShiftLow32(s: bv32)
    requires s & 0x8000_0000 == 0
    ensures !High(s) && Shift32(s) == s << 1
  {
  }

  lemma ShiftIsStep32(s: bv32)
    ensures |GEN32| == 33 && IsCheckGenerator(GEN32)
    ensures Bits32(Shift32(s)) == TopFedStep(GEN32, Bits32(s), false)
  {
    Generators();
    Shl32(s);
    if s & 0x8000_0000 != 0 {
      ShiftHigh32(s);
      TopBitsXor(s << 1, 0x04C1_1DB7, 32);
      assert Scale(true, GEN32[1..]) == Bits32(0x04C1_1DB7);
    } else {
      ShiftLow32(s);
      assert Bits32(s << 1) == Xor(Bits32(s << 1), Scale(false, GEN32[1..]));
    }
  }

  lemma ShiftHigh16(s: bv16)
    requires s & 0x8000 != 0
    ensures High(Wide16(s)) && Shift16(s) == (s << 1) ^ 0x1021
  {
  }

  lemma ShiftLow16(s: bv16)
    requires s & 0x8000 == 0
    ensures !High(Wide16(s)) && Shift16(s) == s << 1
  {
  }

  lemma ShiftIsStep16(s: bv16)
    ensures |GEN16| == 17 && IsCheckGenerator(GEN16)
    ensures Bits16(Shift16(s)) == TopFedStep(GEN16, Bits16(s), false)
  {
    Generators();
    Shl16(s);
    if s & 0x8000 != 0 {
      ShiftHigh16(s);
      Xor16(s << 1, 0x1021);
      assert Scale(true, GEN16[1..]) == Bits16(0x1021);
    } else {
      ShiftLow16(s);
      assert Bits16(s << 1) == Xor(Bits16(s << 1), Scale(false, GEN16[1..]));
    }
  }

  lemma ShiftHigh8(s: bv8)
    requires s & 0x80 != 0
    ensures High(Wide8(s)) && Shift8(s) == (s << 1) ^ 0x07
  {
  }

  lemma ShiftLow8(s: bv8)
    requires s & 0x80 == 0
    ensures !High(Wide8(s)) && Shift8(s) == s << 1
  {
  }

  lemma ShiftIsStep8(s: bv8)
    ensures |GEN8| == 9 && IsCheckGenerator(GEN8)
    ensures Bits8(Shift8(s)) == TopFedStep(GEN8, Bits8(s), false)
  {
    Generators();
    Shl8(s);
    if s & 0x80 != 0 {
      ShiftHigh8(s);
      Xor8(s << 1, 0x07);
      assert Scale(true, GEN8[1..]) == Bits8(0x07);
    } else {
      ShiftLow8(s);
      assert Bits8(s << 1) == Xor(Bits8(s << 1), Scale(false, GEN8[1..]));
    }
  }

  lemma {:induction false} ShiftsAreZeros32(s: bv32, n: nat)
    ensures |GEN32| == 33 && IsCheckGenerator(GEN32)
    ensures Bits32(Shifts32(s, n)) == TopFed(GEN32, Bits32(s), Zeros(n))
    decreases n
  {
    Generators();
    if n == 0 {
      assert Zeros(n) == [];
    } else {
      ShiftIsStep32(s);
      MoreZeros(GEN32, Bits32(s), n - 1);
      ShiftsAreZeros32(Shift32(s), n - 1);
    }
  }

  lemma {:induction false} ShiftsAreZeros16(s: bv16, n: nat)
    ensures |GEN16| == 17 && IsCheckGenerator(GEN16)
    ensures Bits16(Shifts16(s, n)) == TopFed(GEN16, Bits16(s), Zeros(n))
    decreases n
  {
    Generators();
    if n == 0 {
      assert Zeros(n) == [];
    } else {
      ShiftIsStep16(s);
      MoreZeros(GEN16, Bits16(s), n - 1);
      ShiftsAreZeros16(Shift16(s), n - 1);
    }
  }

  lemma {:induction false} ShiftsAreZeros8(s: bv8, n: nat)
    ensures |GEN8| == 9 && IsCheckGenerator(GEN8)
    ensures Bits8(Shifts8(s, n)) == TopFed(GEN8, Bits8(s), Zeros(n))
    decreases n
  {
    Generators();
    if n == 0 {
      assert Zeros(n) == [];
    } else {
      ShiftIsStep8(s);
      MoreZeros(GEN8, Bits8(s), n - 1);
      ShiftsAreZeros8(Shift8(s), n - 1);
    }
  }

  lemma MoreZeros(g: Bits, s: Bits, n: nat)
    requires IsCheckGenerator(g) && |s| == |g| - 1
    ensures TopFed(g, s, Zeros(n + 1)) == TopFed(g, TopFedStep(g, s, false), Zeros(n))
  {
    assert Zeros(n + 1)[1..] == Zeros(n);
  }

  // ---------- one byte ----------

  lemma Step32IsTopFed(s: bv32, b: Byte)
    ensures |GEN32| == 33 && IsCheckGenerator(GEN32)
    ensures Bits32(Step32(s, b)) == TopFed(GEN32, Bits32(s), Bits8(b))
  {
    ShiftsAreZeros32(s ^ Wide8(b), BYTE_BITS);
    TopByteFed32(GEN32, s, b);
  }

  lemma TopByteFed32(g: Bits, s: bv32, b: Byte)
    requires |g| == 33 && IsCheckGenerator(g)
    ensures TopFed(g, Bits32(s ^ Wide8(b)), Zeros(8)) == TopFed(g, Bits32(s), Bits8(b))
  {
    TopBitsXor(s, Wide8(b), 32);
    Bits32OfWide8(b);
    TopFedAbsorbs(g, Bits32(s), Bits8(b));
  }

  lemma Bits32OfWide8(b: Byte)
    ensures Bits32(Wide8(b)) == Bits8(b) + Zeros(24)
  {
    forall i | 8 <= i < 32
      ensures !Bit(Wide8(b), i)
    {
      BitShl8(Wide8(b), i - 8);
      assert Wide8(b) << 8 == 0;
      BitOfZero(i - 8);
    }
  }

  lemma Step8IsTopFed(s: bv8, b: Byte)
    ensures |GEN8| == 9 && IsCheckGenerator(GEN8)
    ensures Bits8(Step8(s, b)) == TopFed(GEN8, Bits8(s), Bits8(b))
  {
    ShiftsAreZeros8(s ^ b, BYTE_BITS);
    TopByteFed8(GEN8, s, b);
  }

  lemma TopByteFed8(g: Bits, s: bv8, b: Byte)
    requires |g| == 9 && IsCheckGenerator(g)
    ensures TopFed(g, Bits8(s ^ b), Zeros(8)) == TopFed(g, Bits8(s), Bits8(b))
  {
    Xor8(s, b);
    assert Bits8(b) + Zeros(0) == Bits8(b);
    TopFedAbsorbs(g, Bits8(s), Bits8(b));
  }

  lemma Step16IsLowFed(s: bv16, b: Byte)
    ensures |GEN16| == 17 && IsCheckGenerator(GEN16)
    ensures Bits16(Step16(s, b)) == LowFed(GEN16, Bits16(s), Bits8(b))
  {
    ShiftsAreZeros16(s, BYTE_BITS);
    LowByteFed16(GEN16, s, b, Shifts16(s, BYTE_BITS), LowFed(GEN16, Bits16(s), Bits8(b)));
  }

  lemma LowByteFed16(g: Bits, s: bv16, b: Byte, r: bv16, next: Bits)
    requires |g| == 17 && IsCheckGenerator(g)
    requires Bits16(r) == TopFed(g, Bits16(s), Zeros(8))
    requires next == LowFed(g, Bits16(s), Bits8(b))
    ensures Bits16(AddByte16(r, b)) == next
  {
    AddLowByte16(r, b);
    LowFedAdds(g, Bits16(s), Bits8(b));
  }

  lemma AddLowByte16(r: bv16, b: Byte)
    ensures Bits16(AddByte16(r, b)) == Xor(Bits16(r), Zeros(8) + Bits8(b))
  {
    Bits16OfByte(b);
    AddWord16(r, b as bv16, AddByte16(r, b), Zeros(8) + Bits8(b));
  }

  lemma AddWord16(r: bv16, w: bv16, x: bv16, bits: Bits)
    requires x == r ^ w && bits == Bits16(w)
    ensures Bits16(x) == Xor(Bits16(r), bits)
  {
    Xor16(r, w);
  }

  lemma Bits16OfByte(b: Byte)
    ensures Bits16(b as bv16) == Zeros(8) + Bits8(b)
  {
    var w := Wide16(b as bv16);
    assert w << 8 == Wide8(b);
    TopByteClear(w);
    forall i | 0 <= i < 8
      ensures !Bit(w, i) && Bit(w, i + 8) == Bit(Wide8(b), i)
    {
      TopClearBits(w, 8, i);
      BitShl8(w, i);
    }
  }

  lemma ByteSumStepIsLowFed(s: bv8, b: Byte)
    ensures |GENSUM| == 9 && IsCheckGenerator(GENSUM)
    ensures Bits8(s ^ b) == LowFed(GENSUM, Bits8(s), Bits8(b))
  {
    Generators();
    Xor8(s, b);
    LowFedAdds(GENSUM, Bits8(s), Bits8(b));
    Rotates(Bits8(s), 8);
    assert Zeros(0) + Bits8(b) == Bits8(b);
  }

  /** Division by x^8 + 1 only rotates the register. */
  lemma {:induction false} Rotates(s: Bits, n: nat)
    requires |s| == 8 && n <= 8
    ensures |GENSUM| == 9 && IsCheckGenerator(GENSUM)
    ensures TopFed(GENSUM, s, Zeros(n)) == s[n..] + s[..n]
  {
    Generators();
    SumGenerator();
    if n == 0 {
      assert Zeros(0) == [];
    } else {
      Rotates(s, n - 1);
      var r := s[n - 1..] + s[..n - 1];
      assert Zeros(n) == Zeros(n - 1) + [false];
      TopFedConcat(GENSUM, s, Zeros(n - 1), [false]);
      assert TopFedStep(GENSUM, r, false) == s[n..] + s[..n];
    }
  }

  lemma SumGenerator()
    ensures GENSUM == [true] + Zeros(7) + [true]
  {
    assert Bit(Wide8(0x01), 7) && !Bit(Wide8(0x01), 6) && !Bit(Wide8(0x01), 5) && !Bit(Wide8(0x01), 4);
    assert !Bit(Wide8(0x01), 3) && !Bit(Wide8(0x01), 2) && !Bit(Wide8(0x01), 1) && !Bit(Wide8(0x01), 0);
  }

  // ---------- messages ----------

  lemma {:induction false} Crc32IsTopFed(m: seq<Byte>, init: bv32)
    ensures |GEN32| == 33 && IsCheckGenerator(GEN32)
    ensures Bits32(Crc32(m, init)) == TopFed(GEN32, Bits32(init), MsgBits(m))
    decreases |m|
  {
    Generators();
    if m != [] {
      Step32IsTopFed(init, m[0]);
      Crc32IsTopFed(m[1..], Step32(init, m[0]));
      TopFedConcat(GEN32, Bits32(init), Bits8(m[0]), MsgBits(m[1..]));
    }
  }

  lemma {:induction false} Crc8IsTopFed(m: seq<Byte>, init: bv8)
    ensures |GEN8| == 9 && IsCheckGenerator(GEN8)
    ensures Bits8(Crc8(m, init)) == TopFed(GEN8, Bits8(init), MsgBits(m))
    decreases |m|
  {
    Generators();
    if m != [] {
      Step8IsTopFed(init, m[0]);
      Crc8IsTopFed(m[1..], Step8(init, m[0]));
      TopFedConcat(GEN8, Bits8(init), Bits8(m[0]), MsgBits(m[1..]));
    }
  }

  lemma {:induction false} Crc16IsLowFed(m: seq<Byte>, init: bv16)
    ensures |GEN16| == 17 && IsCheckGenerator(GEN16)
    ensures Bits16(Crc16(m, init)) == LowFed(GEN16, Bits16(init), MsgBits(m))
    decreases |m|
  {
    Generators();
    if m == [] {
      assert Bits16(init) + [] == Bits16(init);
    } else {
      Step16IsLowFed(init, m[0]);
      Crc16IsLowFed(m[1..], Step16(init, m[0]));
      LowFedConcat(GEN16, Bits16(init), Bits8(m[0]), MsgBits(m[1..]));
    }
  }

  lemma {:induction false} ByteSumIsLowFed(m: seq<Byte>, init: bv8)
    ensures |GENSUM| == 9 && IsCheckGenerator(GENSUM)
    ensures Bits8(ByteSum(m, init)) == LowFed(GENSUM, Bits8(init), MsgBits(m))
    decreases |m|
  {
    Generators();
    if m == [] {
      assert Bits8(init) + [] == Bits8(init);
    } else {
      ByteSumStepIsLowFed(init, m[0]);
      ByteSumIsLowFed(m[1..], init ^ m[0]);
      LowFedConcat(GENSUM, Bits8(init), Bits8(m[0]), MsgBits(m[1..]));
    }
  }

  /**
   CRC-32 is polynomial division: of m(x) * x^32 with the initial value added to its first 32 bits,
   by the generator; and it is the only remainder.
   */
  lemma Crc32IsRemainder(m: seq<Byte>, init: bv32, r: Bits)
    ensures |GEN32| == 33 && IsCheckGenerator(GEN32)
    ensures IsRemainder(GEN32, TopFedDividend(Bits32(init), MsgBits(m)), r) <==> r == Bits32(Crc32(m, init))
  {
    Crc32IsTopFed(m, init);
    TopFedIsRemainder(GEN32, Bits32(init), MsgBits(m));
    RemainderIsTheRemainder(GEN32, TopFedDividend(Bits32(init), MsgBits(m)), r);
  }

  lemma Crc8IsRemainder(m: seq<Byte>, init: bv8, r: Bits)
    ensures |GEN8| == 9 && IsCheckGenerator(GEN8)
    ensures IsRemainder(GEN8, TopFedDividend(Bits8(init), MsgBits(m)), r) <==> r == Bits8(Crc8(m, init))
  {
    Crc8IsTopFed(m, init);
    TopFedIsRemainder(GEN8, Bits8(init), MsgBits(m));
    RemainderIsTheRemainder(GEN8, TopFedDividend(Bits8(init), MsgBits(m)), r);
  }

  /** CRC-16 divides the message itself: it is not moved up, the initial value stands in front of it. */
  lemma Crc16IsRemainder(m: seq<Byte>, init: bv16, r: Bits)
    ensures |GEN16| == 17 && IsCheckGenerator(GEN16)
    ensures IsRemainder(GEN16, Bits16(init) + MsgBits(m), r) <==> r == Bits16(Crc16(m, init))
  {
    Crc16IsLowFed(m, init);
    RemainderIsTheRemainder(GEN16, Bits16(init) + MsgBits(m), r);
  }

  /** From zero, two more zero bytes turn it into the conventional CRC-16, which divides m(x) * x^16. */
  lemma Crc16ThenTwoZeros(m: seq<Byte>, r: Bits)
    ensures |GEN16| == 17 && IsCheckGenerator(GEN16)
    ensures IsRemainder(GEN16, MsgBits(m) + Zeros(16), r) <==> r == Bits16(Crc16(m + [0, 0], 0))
    ensures Bits16(Crc16(m + [0, 0], 0)) == TopFed(GEN16, Zeros(16), MsgBits(m))
  {
    Crc16IsLowFed(m + [0, 0], 0);
    MsgBitsConcat(m, [0, 0]);
    ZeroBits();
    assert MsgBits([0, 0]) == Bits8(0) + (Bits8(0) + []) == Zeros(16);
    LowFedThenZeros(GEN16, MsgBits(m));
    RemainderLeadingZeros(GEN16, 16, MsgBits(m) + Zeros(16));
    RemainderIsTheRemainder(GEN16, MsgBits(m) + Zeros(16), r);
  }

  // ---------- error detection ----------

  /** Messages that differ only within 32 consecutive bits, wherever those lie, have different CRC-32 values. */
  lemma Crc32DetectsBursts(m1: seq<Byte>, m2: seq<Byte>, init: bv32, from: nat)
    requires m1 != m2
    requires SameOutside(MsgBits(m1), MsgBits(m2), from, 32)
    ensures Crc32(m1, init) != Crc32(m2, init)
  {
    Crc32IsTopFed(m1, init);
    Crc32IsTopFed(m2, init);
    if Crc32(m1, init) == Crc32(m2, init) {
      TopFedWindow(GEN32, Bits32(init), MsgBits(m1), MsgBits(m2), from);
      MsgBitsInjective(m1, m2);
    }
  }

  lemma Crc16DetectsBursts(m1: seq<Byte>, m2: seq<Byte>, init: bv16, from: nat)
    requires m1 != m2
    requires SameOutside(MsgBits(m1), MsgBits(m2), from, 16)
    ensures Crc16(m1, init) != Crc16(m2, init)
  {
    Crc16IsLowFed(m1, init);
    Crc16IsLowFed(m2, init);
    if Crc16(m1, init) == Crc16(m2, init) {
      LowFedWindow(GEN16, Bits16(init), MsgBits(m1), MsgBits(m2), from);
      MsgBitsInjective(m1, m2);
    }
  }

  /** A window of whole bytes is a window of bits. */
  lemma ByteWindow(m1: seq<Byte>, m2: seq<Byte>, from: nat, width: nat)
    requires |m1| == |m2|
    requires forall i :: 0 <= i < |m1| && !(from <= i < from + width) ==> m1[i] == m2[i]
    ensures SameOutside(MsgBits(m1), MsgBits(m2), 8 * from, 8 * width)
  {
    forall k | 0 <= k < 8 * |m1| && !(8 * from <= k < 8 * from + 8 * width)
      ensures MsgBits(m1)[k] == MsgBits(m2)[k]
    {
      MsgBitsAt(m1, k);
      MsgBitsAt(m2, k);
    }
  }

  /** The message with its own check after it, high byte first, leaves zero; no other trailer does. */
  lemma Crc32Residue(m: seq<Byte>, init: bv32, trailer: bv32)
    ensures Crc32(m + BigEndian32(trailer), init) == 0 <==> trailer == Crc32(m, init)
  {
    var whole := m + BigEndian32(trailer);
    Crc32IsTopFed(m, init);
    Crc32IsTopFed(whole, init);
    MsgBitsConcat(m, BigEndian32(trailer));
    BigEndian32Bits(trailer);
    TopFedResidue(GEN32, Bits32(init), MsgBits(m), Bits32(trailer));
    ZeroBits();
    if Bits32(Crc32(whole, init)) == Bits32(0) {
      Bits32Injective(Crc32(whole, init), 0);
    }
    if Bits32(trailer) == Bits32(Crc32(m, init)) {
      Bits32Injective(trailer, Crc32(m, init));
    }
  }
}
