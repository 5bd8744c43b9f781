/**
 Generators with an even number of ones. Every message with its check then has an even number of ones too, so an odd
 number of flipped bits is noticed wherever they lie. CRC-16 and the byte sum have such generators, CRC-32 does not.
 */
module OddErrors {
  import opened Gf2
  import opened ShiftRegisters
  import opened WordBits
  import opened Crc
  import opened CrcDivision

  function Ones(b: Bits): nat {
    if b == [] then 0 else Ones(b[1..]) + if b[0] then 1 else 0
  }

  ghost predicate Even(b: Bits) {
    Ones(b) % 2 == 0
  }

  lemma {:induction false} OnesConcat(a: Bits, b: Bits)
    ensures Ones(a + b) == Ones(a) + Ones(b)
    decreases |a|
  {
    if a == [] {
      assert a + b == b;
    } else {
      assert (a + b)[1..] == a[1..] + b;
      OnesConcat(a[1..], b);
    }
  }

  lemma {:induction false} EvenXor(a: Bits, b: Bits)
    requires |a| == |b|
    ensures Even(Xor(a, b)) <==> (Even(a) <==> Even(b))
    decreases |a|
  {
    if a != [] {
      assert Xor(a, b)[1..] == Xor(a[1..], b[1..]);
      EvenXor(a[1..], b[1..]);
    }
  }

  lemma {:induction false} NoOnes(n: nat)
    ensures Ones(Zeros(n)) == 0
    decreases n
  {
    if n > 0 {
      assert Zeros(n)[1..] == Zeros(n - 1);
      NoOnes(n - 1);
    }
  }

  lemma EvenConcat(a: Bits, b: Bits)
    ensures Even(a + b) <==> (Even(a) <==> Even(b))
  {
    OnesConcat(a, b);
  }

  lemma EvenScale(c: bool, g: Bits)
    requires Even(g)
    ensures Even(Scale(c, g))
  {
    if c {
      assert Scale(c, g) == g;
    } else {
      assert Scale(c, g) == Zeros(|g|);
      NoOnes(|g|);
    }
  }

  lemma EvenTail(a: Bits)
    requires a != [] && !a[0]
    ensures Even(a[1..]) <==> Even(a)
  {
  }

  lemma RowKeepsEven(g: Bits, d: Bits)
    requires IsGenerator(g) && |d| >= |g| && Even(g)
    ensures Even(DivisionRow(g, d)) <==> Even(d)
  {
    var front := Xor(d[..|g|], Scale(d[0], g));
    EvenScale(d[0], g);
    EvenXor(d[..|g|], Scale(d[0], g));
    EvenTail(front);
    EvenConcat(front[1..], d[|g|..]);
    assert d == d[..|g|] + d[|g|..];
    EvenConcat(d[..|g|], d[|g|..]);
  }

  /** Division by a generator with an even number of ones keeps whether their number is even. */
  lemma {:induction false} RemainderKeepsEven(g: Bits, d: Bits)
    requires IsGenerator(g) && |d| >= |g| - 1 && Even(g)
    ensures Even(Remainder(g, d)) <==> Even(d)
    decreases |d|
  {
    if |d| >= |g| {
      RowKeepsEven(g, d);
      RemainderKeepsEven(g, DivisionRow(g, d));
    }
  }

  /** A message with its check, from zero, has an even number of ones. */
  lemma LowFedEven(g: Bits, s: Bits, m: Bits, t: Bits)
    requires IsCheckGenerator(g) && Even(g) && |s| == |g| - 1 && Even(s) && t == LowFed(g, s, m)
    ensures Even(m + t)
  {
    RemainderKeepsEven(g, s + m);
    EvenConcat(s, m);
    EvenConcat(m, t);
  }

  // ---------- the generators ----------

  lemma EvenGenerators()
    ensures |GEN16| == 17 && IsCheckGenerator(GEN16) && Even(GEN16)
    ensures |GENSUM| == 9 && IsCheckGenerator(GENSUM) && Even(GENSUM)
  {
    Generators();
    SumGenerator();
    OneMore(Bits16(0x1021));
    Ones16();
    OnesOfSum(GENSUM);
  }

  lemma OneMore(b: Bits)
    ensures Ones([true] + b) == Ones(b) + 1
  {
    One();
    OnesConcat([true], b);
  }

  lemma OnesOfSum(g: Bits)
    requires g == [true] + Zeros(7) + [true]
    ensures Ones(g) == 2
  {
    One();
    NoOnes(7);
    OneMore(Zeros(7));
    OnesConcat([true] + Zeros(7), [true]);
  }

  lemma One()
    ensures Ones([true]) == 1
  {
    assert [true][1..] == [];
  }

  lemma Ones16()
    ensures Ones(Bits16(0x1021)) == 3
  {
    Pattern16();
    NoOnes(3);
    NoOnes(6);
    NoOnes(4);
    One();
    OnesConcat(Zeros(3), [true]);
    OnesConcat(Zeros(3) + [true], Zeros(6));
    OnesConcat(Zeros(3) + [true] + Zeros(6), [true]);
    OnesConcat(Zeros(3) + [true] + Zeros(6) + [true], Zeros(4));
    OnesConcat(Zeros(3) + [true] + Zeros(6) + [true] + Zeros(4), [true]);
  }

  lemma Pattern16()
    ensures Bits16(0x1021) == Zeros(3) + [true] + Zeros(6) + [true] + Zeros(4) + [true]
  {
    var w := Wide16(0x1021);
    assert w == 0x1021_0000;
    assert !Bit(w, 0) && !Bit(w, 1) && !Bit(w, 2) && Bit(w, 3);
    assert !Bit(w, 4) && !Bit(w, 5) && !Bit(w, 6) && !Bit(w, 7);
    assert w << 8 == 0x2100_0000;
    forall i | 8 <= i < 16
      ensures Bit(w, i) == Bit(0x2100_0000, i - 8)
    {
      BitShl8(w, i - 8);
    }
    assert !Bit(0x2100_0000, 0) && !Bit(0x2100_0000, 1) && Bit(0x2100_0000, 2) && !Bit(0x2100_0000, 3);
    assert !Bit(0x2100_0000, 4) && !Bit(0x2100_0000, 5) && !Bit(0x2100_0000, 6) && Bit(0x2100_0000, 7);
  }

  // ---------- messages ----------

  lemma Even16(m: seq<Byte>)
    ensures Even(MsgBits(m) + Bits16(Crc16(m, 0)))
  {
    EvenGenerators();
    Crc16IsLowFed(m, 0);
    ZeroBits();
    NoOnes(16);
    LowFedEven(GEN16, Bits16(0), MsgBits(m), Bits16(Crc16(m, 0)));
  }

  lemma EvenSum(m: seq<Byte>)
    ensures Even(MsgBits(m) + Bits8(ByteSum(m, 0)))
  {
    EvenGenerators();
    ByteSumIsLowFed(m, 0);
    ZeroBits();
    NoOnes(8);
    LowFedEven(GENSUM, Bits8(0), MsgBits(m), Bits8(ByteSum(m, 0)));
  }
}
