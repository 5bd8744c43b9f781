/**
 The bits of bytes and of 16- and 32-bit words, most significant first. Bytes and half words are read
 as the top of a 32-bit word, so one recursion serves all three.
 */
module WordBits {
  import opened Gf2

  type Byte = bv8

  predicate High(x: bv32) {
    x & 0x8000_0000 != 0
  }

  /** Bit i of the word, counted from the top. */
  function Bit(x: bv32, i: nat): bool
    decreases i
  {
    if i == 0 then High(x) else Bit(x << 1, i - 1)
  }

  function TopBits(x: bv32, n: nat): (b: Bits)
    ensures |b| == n
  {
    seq(n, i requires 0 <= i < n => Bit(x, i))
  }

  function Wide16(x: bv16): bv32 { (x as bv32) << 16 }

  function Wide8(x: Byte): bv32 { (x as bv32) << 24 }

  function Bits32(x: bv32): (b: Bits)
    ensures |b| == 32
  {
    TopBits(x, 32)
  }

  function Bits16(x: bv16): (b: Bits)
    ensures |b| == 16
  {
    TopBits(Wide16(x), 16)
  }

  function Bits8(x: Byte): (b: Bits)
    ensures |b| == 8
  {
    TopBits(Wide8(x), 8)
  }

  /** The bits of a message in the order they are fed to a register. */
  function MsgBits(m: seq<Byte>): (b: Bits)
    ensures |b| == 8 * |m|
  {
    if m == [] then [] else Bits8(m[0]) + MsgBits(m[1..])
  }

  lemma HighXor(x: bv32, y: bv32)
    ensures High(x ^ y) == (High(x) != High(y))
  {
  }

  lemma ShlXor(x: bv32, y: bv32)
    ensures (x ^ y) << 1 == (x << 1) ^ (y << 1)
  {
  }

  lemma {:induction false} BitXor(x: bv32, y: bv32, i: nat)
    ensures Bit(x ^ y, i) == (Bit(x, i) != Bit(y, i))
    decreases i
  {
    HighXor(x, y);
    ShlXor(x, y);
    if i > 0 {
      BitXor(x << 1, y << 1, i - 1);
    }
  }

  lemma {:induction false} BitOfZero(i: nat)
    ensures !Bit(0, i)
    decreases i
  {
    if i > 0 {
      assert (0 as bv32) << 1 == 0;
      BitOfZero(i - 1);
    }
  }

  function Shl(x: bv32, n: nat): bv32
    decreases n
  {
    if n == 0 then x else Shl(x << 1, n - 1)
  }

  lemma {:induction false} BitShl(x: bv32, n: nat, i: nat)
    ensures Bit(Shl(x, n), i) == Bit(x, n + i)
    decreases n
  {
    if n > 0 {
      BitShl(x << 1, n - 1, i);
    }
  }

  lemma ShlByEight(x: bv32)
    ensures Shl(x, 8) == x << 8
  {
    assert Shl(x, 8) == Shl(x << 1, 7) == Shl((x << 1) << 1, 6);
    assert (x << 1) << 1 == x << 2;
    assert Shl(x << 2, 6) == Shl((x << 2) << 1, 5);
    assert (x << 2) << 1 == x << 3;
    assert Shl(x << 3, 5) == Shl((x << 3) << 1, 4);
    assert (x << 3) << 1 == x << 4;
    assert Shl(x << 4, 4) == Shl((x << 4) << 1, 3);
    assert (x << 4) << 1 == x << 5;
    assert Shl(x << 5, 3) == Shl((x << 5) << 1, 2);
    assert (x << 5) << 1 == x << 6;
    assert Shl(x << 6, 2) == Shl((x << 6) << 1, 1);
    assert (x << 6) << 1 == x << 7;
    assert Shl(x << 7, 1) == (x << 7) << 1;
  }

  lemma BitShl8(x: bv32, i: nat)
    ensures Bit(x << 8, i) == Bit(x, i + 8)
  {
    ShlByEight(x);
    BitShl(x, 8, i);
  }

  /** There are no bits below the thirty-second. */
  lemma BitBeyond(x: bv32, i: nat)
    ensures !Bit(x, i + 32)
  {
    BitShl8(x, i + 24);
    BitShl8(x << 8, i + 16);
    BitShl8(x << 16, i + 8);
    BitShl8(x << 24, i);
    assert (x << 8) << 8 == x << 16 && (x << 16) << 8 == x << 24 && (x << 24) << 8 == 0;
    BitOfZero(i);
  }

  predicate TopClear(x: bv32, n: nat)
    decreases n
  {
    n == 0 || (!High(x) && TopClear(x << 1, n - 1))
  }

  lemma {:induction false} TopClearBits(x: bv32, n: nat, i: nat)
    requires TopClear(x, n) && i < n
    ensures !Bit(x, i)
    decreases n
  {
    if i > 0 {
      TopClearBits(x << 1, n - 1, i - 1);
    }
  }

  lemma TopByteClear(x: bv32)
    requires x & 0xFF00_0000 == 0
    ensures TopClear(x, 8)
  {
    assert !High(x) && !High(x << 1) && !High(x << 2) && !High(x << 3);
    assert !High(x << 4) && !High(x << 5) && !High(x << 6) && !High(x << 7);
    assert (x << 6) << 1 == x << 7 && TopClear(x << 7, 1);
    assert (x << 5) << 1 == x << 6 && TopClear(x << 6, 2);
    assert (x << 4) << 1 == x << 5 && TopClear(x << 5, 3);
    assert (x << 3) << 1 == x << 4 && TopClear(x << 4, 4);
    assert (x << 2) << 1 == x << 3 && TopClear(x << 3, 5);
    assert (x << 1) << 1 == x << 2 && TopClear(x << 2, 6);
    assert TopClear(x << 1, 7);
  }

  lemma TopBitsXor(x: bv32, y: bv32, n: nat)
    ensures TopBits(x ^ y, n) == Xor(TopBits(x, n), TopBits(y, n))
  {
    forall i | 0 <= i < n
      ensures TopBits(x ^ y, n)[i] == Xor(TopBits(x, n), TopBits(y, n))[i]
    {
      BitXor(x, y, i);
    }
  }

  lemma Xor16(x: bv16, y: bv16)
    ensures Bits16(x ^ y) == Xor(Bits16(x), Bits16(y))
  {
    assert Wide16(x ^ y) == Wide16(x) ^ Wide16(y);
    TopBitsXor(Wide16(x), Wide16(y), 16);
  }

  lemma Xor8(x: Byte, y: Byte)
    ensures Bits8(x ^ y) == Xor(Bits8(x), Bits8(y))
  {
    assert Wide8(x ^ y) == Wide8(x) ^ Wide8(y);
    TopBitsXor(Wide8(x), Wide8(y), 8);
  }

  lemma TopBitsShl(x: bv32, n: nat)
    requires n > 0 && !Bit(x, n)
    ensures TopBits(x << 1, n) == TopBits(x, n)[1..] + [false]
  {
    forall i | 0 <= i < n
      ensures TopBits(x << 1, n)[i] == (TopBits(x, n)[1..] + [false])[i]
    {
      assert Bit(x << 1, i) == Bit(x, i + 1);
    }
  }

  lemma Shl32(x: bv32)
    ensures Bits32(x << 1) == Bits32(x)[1..] + [false]
  {
    BitBeyond(x, 0);
    TopBitsShl(x, 32);
  }

  lemma Shl16(x: bv16)
    ensures Bits16(x << 1) == Bits16(x)[1..] + [false]
  {
    Beyond16(x);
    WideShl16(x);
    TopBitsShl(Wide16(x), 16);
  }

  lemma WideShl16(x: bv16)
    ensures Wide16(x << 1) == Wide16(x) << 1
  {
  }

  lemma Beyond16(x: bv16)
    ensures !Bit(Wide16(x), 16)
  {
    BitShl8(Wide16(x), 8);
    BitShl8(Wide16(x) << 8, 0);
    assert (Wide16(x) << 8) << 8 == 0;
  }

  lemma Shl8(x: Byte)
    ensures Bits8(x << 1) == Bits8(x)[1..] + [false]
  {
    var w := Wide8(x);
    assert Wide8(x << 1) == w << 1;
    BitShl8(w, 0);
    assert w << 8 == 0;
    TopBitsShl(w, 8);
  }

  lemma ZeroBits()
    ensures Bits32(0) == Zeros(32)
    ensures Bits16(0) == Zeros(16)
    ensures Bits8(0) == Zeros(8)
  {
    assert Wide16(0) == 0 && Wide8(0) == 0;
    forall i | 0 <= i < 32
      ensures !Bit(0, i)
    {
      BitOfZero(i);
    }
  }

  // ---------- words are their bits ----------

  lemma AllBitsClear8(x: bv32)
    requires forall i :: 0 <= i < 8 ==> !Bit(x, i)
    ensures x & 0xFF00_0000 == 0
  {
    TopBitsClear(x, 8);
    TopClearByte(x);
  }

  lemma {:induction false} TopBitsClear(x: bv32, n: nat)
    requires forall i :: 0 <= i < n ==> !Bit(x, i)
    ensures TopClear(x, n)
    decreases n
  {
    if n > 0 {
      assert !Bit(x, 0);
      var y := x << 1;
      forall i | 0 <= i < n - 1
        ensures !Bit(y, i)
      {
        assert !Bit(x, i + 1);
      }
      TopBitsClear(y, n - 1);
    }
  }

  lemma TopClearByte(x: bv32)
    requires TopClear(x, 8)
    ensures x & 0xFF00_0000 == 0
  {
    assert (x << 1) << 1 == x << 2 && (x << 2) << 1 == x << 3 && (x << 3) << 1 == x << 4;
    assert (x << 4) << 1 == x << 5 && (x << 5) << 1 == x << 6 && (x << 6) << 1 == x << 7;
    assert !High(x) && TopClear(x << 1, 7);
    assert !High(x << 1) && TopClear(x << 2, 6);
    assert !High(x << 2) && TopClear(x << 3, 5);
    assert !High(x << 3) && TopClear(x << 4, 4);
    assert !High(x << 4) && TopClear(x << 5, 3);
    assert !High(x << 5) && TopClear(x << 6, 2);
    assert !High(x << 6) && TopClear(x << 7, 1);
    assert !High(x << 7);
    EightHighs(x);
  }

  lemma EightHighs(x: bv32)
    requires !High(x) && !High(x << 1) && !High(x << 2) && !High(x << 3)
    requires !High(x << 4) && !High(x << 5) && !High(x << 6) && !High(x << 7)
    ensures x & 0xFF00_0000 == 0
  {
  }

  lemma SameTopByte(x: bv32, y: bv32, n: nat)
    requires TopBits(x, n) == TopBits(y, n) && n >= 8
    ensures x & 0xFF00_0000 == y & 0xFF00_0000
  {
    DifferenceClear(x, y, n);
    MaskedEqual(x, y);
  }

  lemma DifferenceClear(x: bv32, y: bv32, n: nat)
    requires TopBits(x, n) == TopBits(y, n) && n >= 8
    ensures (x ^ y) & 0xFF00_0000 == 0
  {
    var z := x ^ y;
    forall i | 0 <= i < 8
      ensures !Bit(z, i)
    {
      BitXor(x, y, i);
      assert TopBits(x, n)[i] == TopBits(y, n)[i];
    }
    AllBitsClear8(z);
  }

  lemma MaskedEqual(x: bv32, y: bv32)
    requires (x ^ y) & 0xFF00_0000 == 0
    ensures x & 0xFF00_0000 == y & 0xFF00_0000
  {
  }

  lemma SameShiftedBits(x: bv32, y: bv32, n: nat)
    requires TopBits(x, n) == TopBits(y, n) && n >= 8
    ensures TopBits(x << 8, n - 8) == TopBits(y << 8, n - 8)
  {
    var x', y' := x << 8, y << 8;
    forall i | 0 <= i < n - 8
      ensures Bit(x', i) == Bit(y', i)
    {
      BitShl8(x, i);
      BitShl8(y, i);
      assert TopBits(x, n)[i + 8] == TopBits(y, n)[i + 8];
    }
  }

  predicate SameBytes(x: bv32, y: bv32, n: nat)
    decreases n
  {
    n == 0 || (x & 0xFF00_0000 == y & 0xFF00_0000 && SameBytes(x << 8, y << 8, n - 1))
  }

  lemma {:induction false} SameTopBytes(x: bv32, y: bv32, n: nat)
    requires TopBits(x, 8 * n) == TopBits(y, 8 * n)
    ensures SameBytes(x, y, n)
    decreases n
  {
    if n > 0 {
      SameTopByte(x, y, 8 * n);
      SameShiftedBits(x, y, 8 * n);
      SameTopBytes(x << 8, y << 8, n - 1);
    }
  }

  lemma SameFourBytes(x: bv32, y: bv32)
    requires SameBytes(x, y, 4)
    ensures x == y
  {
    assert SameBytes(x << 8, y << 8, 3);
    assert SameBytes((x << 8) << 8, (y << 8) << 8, 2);
    assert SameBytes(((x << 8) << 8) << 8, ((y << 8) << 8) << 8, 1);
    FourBytes(x, y);
  }

  lemma FourBytes(x: bv32, y: bv32)
    requires x & 0xFF00_0000 == y & 0xFF00_0000
    requires (x << 8) & 0xFF00_0000 == (y << 8) & 0xFF00_0000
    requires ((x << 8) << 8) & 0xFF00_0000 == ((y << 8) << 8) & 0xFF00_0000
    requires (((x << 8) << 8) << 8) & 0xFF00_0000 == (((y << 8) << 8) << 8) & 0xFF00_0000
    ensures x == y
  {
  }

  lemma Bits32Injective(x: bv32, y: bv32)
    requires Bits32(x) == Bits32(y)
    ensures x == y
  {
    SameTopBytes(x, y, 4);
    SameFourBytes(x, y);
  }

  lemma Bits8Injective(x: Byte, y: Byte)
    requires Bits8(x) == Bits8(y)
    ensures x == y
  {
    SameTopByte(Wide8(x), Wide8(y), 8);
    Wide8Masked(x, y);
  }

  lemma Wide8Masked(x: Byte, y: Byte)
    requires Wide8(x) & 0xFF00_0000 == Wide8(y) & 0xFF00_0000
    ensures x == y
  {
  }

  lemma Bits16Injective(x: bv16, y: bv16)
    requires Bits16(x) == Bits16(y)
    ensures x == y
  {
    SameTopBytes(Wide16(x), Wide16(y), 2);
    SameTwoBytes(x, y);
  }

  lemma SameTwoBytes(x: bv16, y: bv16)
    requires SameBytes(Wide16(x), Wide16(y), 2)
    ensures x == y
  {
    assert SameBytes(Wide16(x) << 8, Wide16(y) << 8, 1);
    Wide16Masked(x, y);
  }

  lemma Wide16Masked(x: bv16, y: bv16)
    requires Wide16(x) & 0xFF00_0000 == Wide16(y) & 0xFF00_0000
    requires (Wide16(x) << 8) & 0xFF00_0000 == (Wide16(y) << 8) & 0xFF00_0000
    ensures x == y
  {
  }

  lemma {:induction false} MsgBitsInjective(a: seq<Byte>, b: seq<Byte>)
    requires MsgBits(a) == MsgBits(b)
    ensures a == b
    decreases |a|
  {
    if a != [] {
      assert Bits8(a[0]) == MsgBits(a)[..8] && Bits8(b[0]) == MsgBits(b)[..8];
      assert MsgBits(a[1..]) == MsgBits(a)[8..] && MsgBits(b[1..]) == MsgBits(b)[8..];
      Bits8Injective(a[0], b[0]);
      MsgBitsInjective(a[1..], b[1..]);
      assert a == [a[0]] + a[1..] && b == [b[0]] + b[1..];
    }
  }

  lemma {:induction false} MsgBitsConcat(a: seq<Byte>, b: seq<Byte>)
    ensures MsgBits(a + b) == MsgBits(a) + MsgBits(b)
    decreases |a|
  {
    if a == [] {
      assert a + b == b;
    } else {
      assert (a + b)[1..] == a[1..] + b;
      MsgBitsConcat(a[1..], b);
    }
  }

  lemma {:induction false} MsgBitsAt(m: seq<Byte>, k: nat)
    requires k < 8 * |m|
    ensures MsgBits(m)[k] == Bits8(m[k / 8])[k % 8]
    decreases |m|
  {
    if k >= 8 {
      MsgBitsAt(m[1..], k - 8);
    }
  }

  // ---------- words as bytes, high byte first ----------

  function BigEndian32(x: bv32): (b: seq<Byte>)
    ensures |b| == 4
  {
    [(x >> 24) as bv8, ((x >> 16) & 0xFF) as bv8, ((x >> 8) & 0xFF) as bv8, (x & 0xFF) as bv8]
  }

  function BigEndian16(x: bv16): (b: seq<Byte>)
    ensures |b| == 2
  {
    [(x >> 8) as bv8, (x & 0xFF) as bv8]
  }

  lemma TopByteBits(x: bv32, n: nat)
    requires n >= 8
    ensures TopBits(x, n) == Bits8((x >> 24) as bv8) + TopBits(x << 8, n - 8)
  {
    TopEight(x);
    var top, rest := Wide8((x >> 24) as bv8), x << 8;
    forall i | 8 <= i < n
      ensures Bit(x, i) == Bit(rest, i - 8)
    {
      BitShl8(x, i - 8);
    }
  }

  lemma TopEight(x: bv32)
    ensures TopBits(x, 8) == Bits8((x >> 24) as bv8)
  {
    var top := Wide8((x >> 24) as bv8);
    TopByteSplit(x);
    SameTopEight(x, top, x ^ top);
  }

  lemma SameTopEight(x: bv32, y: bv32, z: bv32)
    requires z == x ^ y && z & 0xFF00_0000 == 0
    ensures TopBits(x, 8) == TopBits(y, 8)
  {
    TopByteClear(z);
    forall i | 0 <= i < 8
      ensures Bit(x, i) == Bit(y, i)
    {
      TopClearBits(z, 8, i);
      BitXor(x, y, i);
    }
  }

  lemma TopByteSplit(x: bv32)
    ensures (x ^ Wide8((x >> 24) as bv8)) & 0xFF00_0000 == 0
  {
  }

  /** The bytes of the first n quarters of a word. */
  function TopBytes(x: bv32, n: nat): seq<Byte>
    decreases n
  {
    if n == 0 then [] else [(x >> 24) as bv8] + TopBytes(x << 8, n - 1)
  }

  lemma {:induction false} TopBytesBits(x: bv32, n: nat)
    ensures MsgBits(TopBytes(x, n)) == TopBits(x, 8 * n)
    decreases n
  {
    if n > 0 {
      TopByteBits(x, 8 * n);
      TopBytesBits(x << 8, n - 1);
    }
  }

  lemma BigEndian32Bits(x: bv32)
    ensures MsgBits(BigEndian32(x)) == Bits32(x)
  {
    TopBytesBits(x, 4);
    assert TopBytes(x, 4) == [(x >> 24) as bv8] + TopBytes(x << 8, 3);
    assert TopBytes(x << 8, 3) == [((x << 8) >> 24) as bv8] + TopBytes((x << 8) << 8, 2);
    assert TopBytes((x << 8) << 8, 2) == [(((x << 8) << 8) >> 24) as bv8] + TopBytes(((x << 8) << 8) << 8, 1);
    assert TopBytes(((x << 8) << 8) << 8, 1) == [((((x << 8) << 8) << 8) >> 24) as bv8];
    FourShifts(x);
    assert TopBytes(x, 4) == BigEndian32(x);
  }

  lemma FourShifts(x: bv32)
    ensures ((x << 8) >> 24) as bv8 == BigEndian32(x)[1]
    ensures (((x << 8) << 8) >> 24) as bv8 == BigEndian32(x)[2]
    ensures ((((x << 8) << 8) << 8) >> 24) as bv8 == BigEndian32(x)[3]
  {
  }

  lemma BigEndian16Bits(x: bv16)
    ensures MsgBits(BigEndian16(x)) == Bits16(x)
  {
    TopBytesBits(Wide16(x), 2);
    TopBytes16(x);
  }

  lemma TopBytes16(x: bv16)
    ensures TopBytes(Wide16(x), 2) == BigEndian16(x)
  {
    TwoTopBytes(Wide16(x));
    TwoShifts(x);
  }

  lemma TwoTopBytes(w: bv32)
    ensures TopBytes(w, 2) == [(w >> 24) as bv8, ((w << 8) >> 24) as bv8]
  {
    assert TopBytes(w << 8, 1) == [((w << 8) >> 24) as bv8];
  }

  lemma TwoShifts(x: bv16)
    ensures (Wide16(x) >> 24) as bv8 == BigEndian16(x)[0]
    ensures ((Wide16(x) << 8) >> 24) as bv8 == BigEndian16(x)[1]
  {
  }

  lemma Shl8Bits32(x: bv32)
    ensures Bits32(x << 8) == Bits32(x)[8..] + Zeros(8)
  {
    var y := x << 8;
    forall i | 0 <= i < 32
      ensures Bit(y, i) == (Bits32(x)[8..] + Zeros(8))[i]
    {
      BitShl8(x, i);
      if i >= 24 {
        BitBeyond(x, i - 24);
      }
    }
  }

  lemma Shl8Bits16(x: bv16)
    ensures Bits16(x << 8) == Bits16(x)[8..] + Zeros(8)
  {
    Shl8Wide16(x);
    Shl8Top16(Wide16(x));
  }

  lemma Shl8Wide16(x: bv16)
    ensures Wide16(x << 8) == Wide16(x) << 8 && (Wide16(x) << 8) << 8 == 0
  {
  }

  lemma Shl8Top16(w: bv32)
    requires (w << 8) << 8 == 0
    ensures TopBits(w << 8, 16) == TopBits(w, 16)[8..] + Zeros(8)
  {
    var y := w << 8;
    forall i | 0 <= i < 16
      ensures Bit(y, i) == (TopBits(w, 16)[8..] + Zeros(8))[i]
    {
      BitShl8(w, i);
      if i >= 8 {
        BitShl8(y, i - 8);
        BitOfZero(i - 8);
      }
    }
  }
}
