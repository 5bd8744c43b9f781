/** The check of a frame as the link layer handles it: a number from the CRC service, and bytes in the buffer. */
module Checks {
  import opened WordBits
  import opened Crc
  import opened Pcrc
  import opened Framing

  /** The kind of calculation that is asked of the CRC service. */
  function CrcType(c: Check): bv8 {
    match c
    case Cyclic32 => TYPE_32
    case Cyclic16 => TYPE_16
    case Sum => TYPE_8
  }

  /** The bytes of a number, high byte first, as many as the check has. */
  function NumberBytes(c: Check, x: bv32): (t: seq<Byte>)
    ensures |t| == CheckSize(c)
  {
    match c
    case Cyclic32 => [(x >> 24) as bv8, ((x >> 16) & 0xFF) as bv8, ((x >> 8) & 0xFF) as bv8, (x & 0xFF) as bv8]
    case Cyclic16 => [((x >> 8) & 0xFF) as bv8, (x & 0xFF) as bv8]
    case Sum => [(x & 0xFF) as bv8]
  }

  /** The number that some bytes are read as. */
  function BytesNumber(t: seq<Byte>): bv32 {
    if |t| == 4 then
      (t[0] as bv32 << 24) | (t[1] as bv32 << 16) | (t[2] as bv32 << 8) | t[3] as bv32
    else if |t| == 2 then
      (t[0] as bv32 << 8) | t[1] as bv32
    else if |t| == 1 then
      t[0] as bv32
    else
      0
  }

  lemma Bytes4(a: Byte, b: Byte, c: Byte, d: Byte, x: bv32)
    requires x == (a as bv32 << 24) | (b as bv32 << 16) | (c as bv32 << 8) | d as bv32
    ensures (x >> 24) as bv8 == a && ((x >> 16) & 0xFF) as bv8 == b
    ensures ((x >> 8) & 0xFF) as bv8 == c && (x & 0xFF) as bv8 == d
  {
  }

  lemma Number4(x: bv32)
    ensures ((x >> 24) as bv8 as bv32 << 24) | (((x >> 16) & 0xFF) as bv8 as bv32 << 16)
            | (((x >> 8) & 0xFF) as bv8 as bv32 << 8) | (x & 0xFF) as bv8 as bv32 == x
  {
  }

  lemma Bytes2(a: Byte, b: Byte, x: bv32)
    requires x == (a as bv32 << 8) | b as bv32
    ensures ((x >> 8) & 0xFF) as bv8 == a && (x & 0xFF) as bv8 == b
  {
  }

  lemma Number2(y: bv16, x: bv32)
    requires x == y as bv32
    ensures (((x >> 8) & 0xFF) as bv8 as bv32 << 8) | (x & 0xFF) as bv8 as bv32 == x
    ensures ((x >> 8) & 0xFF) as bv8 == (y >> 8) as bv8 && (x & 0xFF) as bv8 == (y & 0xFF) as bv8
  {
  }

  lemma Bytes1(a: Byte)
    ensures (a as bv32 & 0xFF) as bv8 == a
  {
  }

  lemma Spelled32(x: bv32)
    ensures NumberBytes(Cyclic32, x) == BigEndian32(x)
    ensures BytesNumber(BigEndian32(x)) == x
  {
    Number4(x);
  }

  lemma Spelled16(y: bv16, x: bv32)
    requires x == y as bv32
    ensures NumberBytes(Cyclic16, x) == BigEndian16(y)
    ensures BytesNumber(BigEndian16(y)) == x
  {
    Number2(y, x);
  }

  lemma SpelledSum(y: bv8, x: bv32)
    requires x == y as bv32
    ensures NumberBytes(Sum, x) == [y]
    ensures BytesNumber([y]) == x
  {
    Bytes1(y);
  }

  lemma Respelled32(a: Byte, b: Byte, c: Byte, d: Byte, x: bv32)
    requires x == BytesNumber([a, b, c, d])
    ensures NumberBytes(Cyclic32, x) == [a, b, c, d]
  {
    Bytes4(a, b, c, d, x);
  }

  lemma Respelled16(a: Byte, b: Byte, x: bv32)
    requires x == BytesNumber([a, b])
    ensures NumberBytes(Cyclic16, x) == [a, b]
  {
    Bytes2(a, b, x);
  }

  lemma RespelledSum(a: Byte, x: bv32)
    requires x == BytesNumber([a])
    ensures NumberBytes(Sum, x) == [a]
  {
    Bytes1(a);
  }

  lemma Spread<T>(t: seq<T>)
    ensures |t| == 4 ==> t == [t[0], t[1], t[2], t[3]]
    ensures |t| == 2 ==> t == [t[0], t[1]]
    ensures |t| == 1 ==> t == [t[0]]
  {
  }

  lemma Respelled(c: Check, t: seq<Byte>, x: bv32, b: seq<Byte>)
    requires |t| == CheckSize(c) && x == BytesNumber(t) && b == NumberBytes(c, x)
    ensures b == t
  {
    Spread(t);
    match c
    case Cyclic32 => Respelled32(t[0], t[1], t[2], t[3], x);
    case Cyclic16 => Respelled16(t[0], t[1], x);
    case Sum => RespelledSum(t[0], x);
  }

  lemma UsiCheckCases(c: Check, head: seq<Byte>, crc: bv32)
    requires crc == UsiCheck(head, CrcType(c))
    ensures c == Cyclic32 ==> crc == Crc32(head, 0)
    ensures c == Cyclic16 ==> crc == Crc16(head, 0) as bv32
    ensures c == Sum ==> crc == ByteSum(head, 0) as bv32
  {
  }

  /** The number of the service, spelled out, is the check that belongs after the head, and reads back as that number. */
  lemma TrailerIsCheck(c: Check, head: seq<Byte>, crc: bv32)
    requires crc == UsiCheck(head, CrcType(c))
    ensures NumberBytes(c, crc) == CheckBytes(c, head)
    ensures BytesNumber(CheckBytes(c, head)) == crc
  {
    UsiCheckCases(c, head, crc);
    match c
    case Cyclic32 => Spelled32(crc);
    case Cyclic16 => Spelled16(Crc16(head, 0), crc);
    case Sum => SpelledSum(ByteSum(head, 0), crc);
  }

  /** Comparing the numbers is comparing the bytes. */
  lemma SameNumberIffSameBytes(c: Check, head: seq<Byte>, trailer: seq<Byte>, x: bv32, crc: bv32)
    requires |trailer| == CheckSize(c) && x == BytesNumber(trailer)
    requires crc == UsiCheck(head, CrcType(c))
    ensures x == crc <==> trailer == CheckBytes(c, head)
  {
    TrailerIsCheck(c, head, crc);
    Respelled(c, trailer, x, NumberBytes(c, x));
  }
}
