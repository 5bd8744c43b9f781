/**
 The loops of the CRC service, which look a table entry up for every byte, against the bit-by-bit checks of `Crc`.
 */
module CrcLoops {
  import opened Gf2
  import opened ShiftRegisters
  import opened WordBits
  import opened CrcTables
  import opened Crc
  import opened CrcDivision

  // ---------- a table entry is eight zero bits ----------

  lemma EightShifts32Unrolled(s: bv32)
    ensures EightShifts32(s) == Shifts32(s, 8)
  {
  }

  lemma EightShifts16Unrolled(s: bv16)
    ensures EightShifts16(s) == Shifts16(s, 8)
  {
  }

  lemma EightShifts8Unrolled(s: bv8)
    ensures EightShifts8(s) == Shifts8(s, 8)
  {
  }

  lemma Entry32(i: Byte)
    ensures |GEN32| == 33 && IsCheckGenerator(GEN32)
    ensures Bits32(Lookup32(i)) == TopFed(GEN32, Bits32(Wide8(i)), Zeros(8))
  {
    Table32IsEightShifts(i);
    EightShifts32Unrolled(Wide8(i));
    ShiftsAreZeros32(Wide8(i), 8);
  }

  lemma Entry16(i: Byte)
    ensures |GEN16| == 17 && IsCheckGenerator(GEN16)
    ensures Bits16(Lookup16(i)) == TopFed(GEN16, Bits16((i as bv16) << 8), Zeros(8))
  {
    Table16IsEightShifts(i);
    EightShifts16Unrolled((i as bv16) << 8);
    ShiftsAreZeros16((i as bv16) << 8, 8);
  }

  lemma Entry8(i: Byte, run: Bits)
    requires |GEN8| == 9 && IsCheckGenerator(GEN8)
    requires run == TopFed(GEN8, Bits8(i), Zeros(8))
    ensures Bits8(Lookup8(i)) == run
  {
    FirstColumn8(i & 0xF0);
    FirstRow8(i & 0x0F);
    RowPlusColumn8(i);
    Entry8Sum(i, Lookup8(i & 0xF0), Lookup8(i & 0x0F), run);
  }

  lemma Entry8Sum(i: Byte, column: bv8, row: bv8, run: Bits)
    requires |GEN8| == 9 && IsCheckGenerator(GEN8)
    requires column == EightShifts8(i & 0xF0) && row == EightShifts8(i & 0x0F)
    requires run == TopFed(GEN8, Bits8(i), Zeros(8))
    ensures Bits8(column ^ row) == run
  {
    EightShifts8Unrolled(i & 0xF0);
    EightShifts8Unrolled(i & 0x0F);
    ShiftsAreZeros8(i & 0xF0, 8);
    ShiftsAreZeros8(i & 0x0F, 8);
    SumOfRuns8(GEN8, i, Bits8(column), Bits8(row), run);
    Xor8(column, row);
  }

  lemma SumOfRuns8(g: Bits, i: Byte, column: Bits, row: Bits, run: Bits)
    requires |g| == 9 && IsCheckGenerator(g)
    requires column == TopFed(g, Bits8(i & 0xF0), Zeros(8)) && row == TopFed(g, Bits8(i & 0x0F), Zeros(8))
    requires run == TopFed(g, Bits8(i), Zeros(8))
    ensures Xor(column, row) == run
  {
    SplitStates8(i);
    TopFedFromParts(g, Bits8(i & 0xF0), Bits8(i & 0x0F), Bits8(i), Zeros(8), column, row, run);
  }

  lemma SplitStates8(i: Byte)
    ensures Xor(Bits8(i & 0xF0), Bits8(i & 0x0F)) == Xor(Bits8(i), Zeros(8) + Zeros(0))
  {
    Split8(i);
    Xor8(i & 0xF0, i & 0x0F);
    assert Xor(Bits8(i), Zeros(8) + Zeros(0)) == Bits8(i);
  }

  lemma Split8(i: Byte)
    ensures (i & 0xF0) ^ (i & 0x0F) == i
  {
  }

  method ReadTable32(i: Byte) returns (e: bv32)
    ensures |GEN32| == 33 && IsCheckGenerator(GEN32)
    ensures Bits32(e) == TopFed(GEN32, Bits32(Wide8(i)), Zeros(8))
  {
    Entry32(i);
    e := Lookup32(i);
  }

  method ReadTable16(i: Byte) returns (e: bv16)
    ensures |GEN16| == 17 && IsCheckGenerator(GEN16)
    ensures Bits16(e) == TopFed(GEN16, Bits16((i as bv16) << 8), Zeros(8))
  {
    Entry16(i);
    e := Lookup16(i);
  }

  method ReadTable8(i: Byte) returns (e: bv8)
    ensures |GEN8| == 9 && IsCheckGenerator(GEN8)
    ensures Bits8(e) == TopFed(GEN8, Bits8(i), Zeros(8))
  {
    Generators();
    Entry8(i, TopFed(GEN8, Bits8(i), Zeros(8)));
    e := Lookup8(i);
  }

  // ---------- one table step is one byte of the message ----------

  lemma SplitTop32(s: bv32, b: Byte)
    ensures (s & 0x00FF_FFFF) ^ Wide8(((s >> 24) as bv8) ^ b) == s ^ Wide8(b)
    ensures (s & 0x00FF_FFFF) & 0xFF00_0000 == 0
    ensures (s & 0x00FF_FFFF) << 8 == s << 8
  {
  }

  lemma LowPart32(g: Bits, low: bv32)
    requires low & 0xFF00_0000 == 0
    requires |g| == 33 && IsCheckGenerator(g)
    ensures Bits32(low << 8) == TopFed(g, Bits32(low), Zeros(8))
  {
    TopByteClear(low);
    forall i | 0 <= i < 8
      ensures !Bits32(low)[i]
    {
      TopClearBits(low, 8, i);
    }
    TopFedShifts(g, Bits32(low), 8);
    Shl8Bits32(low);
  }

  lemma LowRun32(g: Bits, s: bv32, run: Bits)
    requires |g| == 33 && IsCheckGenerator(g)
    requires run == TopFed(g, Bits32(s & 0x00FF_FFFF), Zeros(8))
    ensures Bits32(s << 8) == run
  {
    SplitTop32(s, 0);
    LowPart32(g, s & 0x00FF_FFFF);
  }

  lemma TableStep32(g: Bits, s: bv32, b: Byte, e: bv32, sh: bv32, next: Bits)
    requires |g| == 33 && IsCheckGenerator(g)
    requires Bits32(e) == TopFed(g, Bits32(Wide8(((s >> 24) as bv8) ^ b)), Zeros(8))
    requires sh == s << 8
    requires next == TopFed(g, Bits32(s), Bits8(b))
    ensures Bits32(sh ^ e) == next
  {
    SumOfRuns32(g, s, b, Bits32(e), Bits32(sh), next);
    Sum32(sh, e, next);
  }

  lemma Sum32(x: bv32, y: bv32, sum: Bits)
    requires sum == Xor(Bits32(x), Bits32(y))
    ensures Bits32(x ^ y) == sum
  {
    TopBitsXor(x, y, 32);
  }

  lemma SumOfRuns32(g: Bits, s: bv32, b: Byte, e: Bits, sh: Bits, next: Bits)
    requires |g| == 33 && IsCheckGenerator(g)
    requires e == TopFed(g, Bits32(Wide8(((s >> 24) as bv8) ^ b)), Zeros(8))
    requires next == TopFed(g, Bits32(s), Bits8(b))
    requires sh == Bits32(s << 8)
    ensures Xor(sh, e) == next
  {
    var low, top := Bits32(s & 0x00FF_FFFF), Bits32(Wide8(((s >> 24) as bv8) ^ b));
    LowRun32(g, s, TopFed(g, low, Zeros(8)));
    SplitStates32(s, b);
    TopFedFromParts(g, low, top, Bits32(s), Bits8(b), sh, e, next);
  }

  lemma SplitStates32(s: bv32, b: Byte)
    ensures Xor(Bits32(s & 0x00FF_FFFF), Bits32(Wide8(((s >> 24) as bv8) ^ b)))
            == Xor(Bits32(s), Bits8(b) + Zeros(24))
  {
    SplitTop32(s, b);
    TopBitsXor(s & 0x00FF_FFFF, Wide8(((s >> 24) as bv8) ^ b), 32);
    TopBitsXor(s, Wide8(b), 32);
    Bits32OfWide8(b);
  }

  lemma SplitTop16(s: bv16)
    ensures (((s >> 8) as bv8) as bv16 << 8) ^ (s & 0x00FF) == s
    ensures Wide16(s & 0x00FF) & 0xFF00_0000 == 0
    ensures (s & 0x00FF) << 8 == s << 8
  {
  }

  lemma LowPart16(g: Bits, low: bv16)
    requires Wide16(low) & 0xFF00_0000 == 0
    requires |g| == 17 && IsCheckGenerator(g)
    ensures Bits16(low << 8) == TopFed(g, Bits16(low), Zeros(8))
  {
    TopByteClear(Wide16(low));
    forall i | 0 <= i < 8
      ensures !Bits16(low)[i]
    {
      TopClearBits(Wide16(low), 8, i);
    }
    TopFedShifts(g, Bits16(low), 8);
    Shl8Bits16(low);
  }

  lemma TableStep16(g: Bits, s: bv16, b: Byte, e: bv16, sh: bv16, next: Bits)
    requires |g| == 17 && IsCheckGenerator(g)
    requires Bits16(e) == TopFed(g, Bits16((((s >> 8) as bv8) as bv16) << 8), Zeros(8))
    requires sh == s << 8
    requires next == LowFed(g, Bits16(s), Bits8(b))
    ensures Bits16(AddByte16(e ^ sh, b)) == next
  {
    var r := TopFed(g, Bits16(s), Zeros(8));
    SumOfRuns16(g, s, Bits16(e), Bits16(sh), r);
    Sum16(e, sh, r);
    LowByteFed16(g, s, b, e ^ sh, next);
  }

  lemma Sum16(x: bv16, y: bv16, sum: Bits)
    requires sum == Xor(Bits16(x), Bits16(y))
    ensures Bits16(x ^ y) == sum
  {
    Xor16(x, y);
  }

  lemma SumOfRuns16(g: Bits, s: bv16, e: Bits, sh: Bits, r: Bits)
    requires |g| == 17 && IsCheckGenerator(g)
    requires e == TopFed(g, Bits16((((s >> 8) as bv8) as bv16) << 8), Zeros(8))
    requires r == TopFed(g, Bits16(s), Zeros(8))
    requires sh == Bits16(s << 8)
    ensures Xor(e, sh) == r
  {
    var top, low := Bits16((((s >> 8) as bv8) as bv16) << 8), Bits16(s & 0x00FF);
    LowRun16(g, s, TopFed(g, low, Zeros(8)));
    SplitStates16(s);
    TopFedFromParts(g, top, low, Bits16(s), Zeros(8), e, sh, r);
  }

  lemma LowRun16(g: Bits, s: bv16, run: Bits)
    requires |g| == 17 && IsCheckGenerator(g)
    requires run == TopFed(g, Bits16(s & 0x00FF), Zeros(8))
    ensures Bits16(s << 8) == run
  {
    SplitTop16(s);
    LowPart16(g, s & 0x00FF);
  }

  lemma SplitStates16(s: bv16)
    ensures Xor(Bits16((((s >> 8) as bv8) as bv16) << 8), Bits16(s & 0x00FF)) == Xor(Bits16(s), Zeros(8) + Zeros(8))
  {
    SplitTop16(s);
    Xor16((((s >> 8) as bv8) as bv16) << 8, s & 0x00FF);
    assert Xor(Bits16(s), Zeros(8) + Zeros(8)) == Bits16(s);
  }

  // ---------- the loops ----------

  method EvalCrc32(buf: array<Byte>, from: nat, len: nat, init: bv32) returns (crc: bv32)
    requires from + len <= buf.Length
    ensures crc == Crc32(buf[from..from + len], init)
  {
    crc := init;
    ghost var m := buf[from..from + len];
    Generators();
    var i := 0;
    while i < len
      invariant 0 <= i <= len
      invariant TopFed(GEN32, Bits32(crc), MsgBits(m[i..])) == TopFed(GEN32, Bits32(init), MsgBits(m))
    {
      var b := buf[from + i];
      var e := ReadTable32(((crc >> 24) as bv8) ^ b);
      var sh := crc << 8;
      TableStep32(GEN32, crc, b, e, sh, TopFed(GEN32, Bits32(crc), Bits8(b)));
      TopFedConcat(GEN32, Bits32(crc), Bits8(b), MsgBits(m[i + 1..]));
      assert m[i..][0] == b && m[i..][1..] == m[i + 1..];
      crc := sh ^ e;
      i := i + 1;
    }
    Crc32IsTopFed(m, init);
    Bits32Injective(crc, Crc32(m, init));
  }

  method EvalCrc16(buf: array<Byte>, from: nat, len: nat, init: bv32) returns (crc: bv16)
    requires from + len <= buf.Length
    ensures crc == Crc16(buf[from..from + len], (init & 0xFFFF) as bv16)
  {
    ghost var m := buf[from..from + len];
    crc := (init & 0xFFFF) as bv16;
    ghost var first := crc;
    Generators();
    var i := 0;
    while i < len
      invariant 0 <= i <= len
      invariant LowFed(GEN16, Bits16(crc), MsgBits(m[i..])) == LowFed(GEN16, Bits16(first), MsgBits(m))
    {
      var b := buf[from + i];
      var e := ReadTable16((crc >> 8) as bv8);
      var sh := crc << 8;
      TableStep16(GEN16, crc, b, e, sh, LowFed(GEN16, Bits16(crc), Bits8(b)));
      LowFedConcat(GEN16, Bits16(crc), Bits8(b), MsgBits(m[i + 1..]));
      assert m[i..][0] == b && m[i..][1..] == m[i + 1..];
      crc := AddByte16(e ^ sh, b);
      i := i + 1;
    }
    assert Bits16(crc) + [] == Bits16(crc);
    Crc16IsLowFed(m, first);
    Bits16Injective(crc, Crc16(m, first));
  }

  method EvalCrc8(buf: array<Byte>, from: nat, len: nat, init: bv32) returns (crc: bv8)
    requires from + len <= buf.Length
    ensures crc == Crc8(buf[from..from + len], (init & 0xFF) as bv8)
  {
    ghost var m := buf[from..from + len];
    crc := (init & 0xFF) as bv8;
    ghost var first := crc;
    Generators();
    var i := 0;
    while i < len
      invariant 0 <= i <= len
      invariant TopFed(GEN8, Bits8(crc), MsgBits(m[i..])) == TopFed(GEN8, Bits8(first), MsgBits(m))
    {
      var b := buf[from + i];
      TopByteFed8(GEN8, crc, b);
      TopFedConcat(GEN8, Bits8(crc), Bits8(b), MsgBits(m[i + 1..]));
      assert m[i..][0] == b && m[i..][1..] == m[i + 1..];
      crc := ReadTable8(crc ^ b);
      i := i + 1;
    }
    Crc8IsTopFed(m, first);
    Bits8Injective(crc, Crc8(m, first));
  }

  method EvalCrc8Usi(buf: array<Byte>, from: nat, len: nat, init: bv32) returns (crc: bv8)
    requires from + len <= buf.Length
    ensures crc == ByteSum(buf[from..from + len], (init & 0xFF) as bv8)
  {
    ghost var m := buf[from..from + len];
    crc := (init & 0xFF) as bv8;
    ghost var first := crc;
    var i := 0;
    while i < len
      invariant 0 <= i <= len
      invariant ByteSum(m[i..], crc) == ByteSum(m, first)
    {
      crc := crc ^ buf[from + i];
      assert m[i..][1..] == m[i + 1..];
      i := i + 1;
    }
  }
}
