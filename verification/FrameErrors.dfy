/**
 What the check of a frame is for: a body that is damaged in one burst no longer than its check, or for the shorter checks
 in an odd number of bits, is never delivered, as long as the receiver reads the kind of check and the length as they
 were sent. `WireErrors` carries this over to the bytes on the wire.
 */
module FrameErrors {
  import opened Wrappers
  import opened Gf2
  import opened ShiftRegisters
  import opened WordBits
  import opened Crc
  import opened CrcDivision
  import opened OddErrors
  import opened Stuffing
  import opened Framing
  import opened Reception

  lemma Burst32(head: seq<Byte>, head': seq<Byte>, crc: bv32, crc': bv32, from: nat)
    requires |head| == |head'| && crc == Crc32(head, 0) && crc' == Crc32(head', 0)
    requires SameOutside(MsgBits(head) + Bits32(crc), MsgBits(head') + Bits32(crc'), from, 32)
    ensures head == head'
  {
    Crc32IsTopFed(head, 0);
    Crc32IsTopFed(head', 0);
    TopFedTrailerBurst(GEN32, Bits32(0), MsgBits(head), Bits32(crc), MsgBits(head'), Bits32(crc'), from);
    MsgBitsInjective(head, head');
  }

  lemma Burst16(head: seq<Byte>, head': seq<Byte>, crc: bv16, crc': bv16, from: nat)
    requires |head| == |head'| && crc == Crc16(head, 0) && crc' == Crc16(head', 0)
    requires SameOutside(MsgBits(head) + Bits16(crc), MsgBits(head') + Bits16(crc'), from, 16)
    ensures head == head'
  {
    Crc16IsLowFed(head, 0);
    Crc16IsLowFed(head', 0);
    LowFedTrailerBurst(GEN16, Bits16(0), MsgBits(head), Bits16(crc), MsgBits(head'), Bits16(crc'), from);
    MsgBitsInjective(head, head');
  }

  lemma BurstSum(head: seq<Byte>, head': seq<Byte>, sum: bv8, sum': bv8, from: nat)
    requires |head| == |head'| && sum == ByteSum(head, 0) && sum' == ByteSum(head', 0)
    requires SameOutside(MsgBits(head) + Bits8(sum), MsgBits(head') + Bits8(sum'), from, 8)
    ensures head == head'
  {
    ByteSumIsLowFed(head, 0);
    ByteSumIsLowFed(head', 0);
    LowFedTrailerBurst(GENSUM, Bits8(0), MsgBits(head), Bits8(sum), MsgBits(head'), Bits8(sum'), from);
    MsgBitsInjective(head, head');
  }

  /** The bits of a check as they stand after the head. */
  lemma CheckBits(c: Check, head: seq<Byte>)
    ensures c == Cyclic32 ==> MsgBits(CheckBytes(c, head)) == Bits32(Crc32(head, 0))
    ensures c == Cyclic16 ==> MsgBits(CheckBytes(c, head)) == Bits16(Crc16(head, 0))
    ensures c == Sum ==> MsgBits(CheckBytes(c, head)) == Bits8(ByteSum(head, 0))
  {
    match c
    case Cyclic32 => BigEndian32Bits(Crc32(head, 0));
    case Cyclic16 => BigEndian16Bits(Crc16(head, 0));
    case Sum => OneByte(ByteSum(head, 0));
  }

  lemma OneByte(b: Byte)
    ensures MsgBits([b]) == Bits8(b)
  {
    assert [b][1..] == [];
    assert Bits8(b) + [] == Bits8(b);
  }

  /** Two bodies that carry their own checks and are alike outside a window as wide as the check are the same body. */
  lemma CheckedBurst(c: Check, head: seq<Byte>, head': seq<Byte>, from: nat)
    requires |head| == |head'|
    requires SameOutside(MsgBits(head + CheckBytes(c, head)), MsgBits(head' + CheckBytes(c, head')), from,
                         8 * CheckSize(c))
    ensures head == head'
  {
    MsgBitsConcat(head, CheckBytes(c, head));
    MsgBitsConcat(head', CheckBytes(c, head'));
    CheckBits(c, head);
    CheckBits(c, head');
    match c
    case Cyclic32 => Burst32(head, head', Crc32(head, 0), Crc32(head', 0), from);
    case Cyclic16 => Burst16(head, head', Crc16(head, 0), Crc16(head', 0), from);
    case Sum => BurstSum(head, head', ByteSum(head, 0), ByteSum(head', 0), from);
  }

  /** The type that is read still has the same kind of check, or none at all. */
  predicate KindKept(m: Msg, mem: seq<Byte>) {
    RxCheck(TypeAt(mem)) == Some(TxCheck(m.ptype)) || RxCheck(TypeAt(mem)) == None
  }

  /** And the length that is read is the one that was sent. */
  predicate SameReading(m: Msg, mem: seq<Byte>) {
    KindKept(m, mem) && DeclaredLen(mem) == |m.payload|
  }

  // ---------- damage to the bytes of a body ----------

  /** The bits that differ lie within a window as wide as the check. */
  ghost predicate Burst(m: Msg, body': seq<Byte>, from: nat)
    requires m.payload != []
  {
    SameOutside(MsgBits(Body(m)), MsgBits(body'), from, 8 * CheckSize(TxCheck(m.ptype)))
  }

  /** An odd number of bits differ, and the check is not the one of 32 bits. */
  ghost predicate OddlyMany(m: Msg, body': seq<Byte>)
    requires m.payload != [] && |body'| == |Body(m)|
  {
    TxCheck(m.ptype) != Cyclic32 && !Even(Xor(MsgBits(Body(m)), MsgBits(body')))
  }

  /** A body with its own check has an even number of ones, but for CRC-32. */
  lemma CheckedEven(c: Check, head: seq<Byte>)
    requires c != Cyclic32
    ensures Even(MsgBits(head + CheckBytes(c, head)))
  {
    MsgBitsConcat(head, CheckBytes(c, head));
    CheckBits(c, head);
    if c == Cyclic16 {
      Even16(head);
    } else {
      EvenSum(head);
    }
  }

  lemma CheckedOdd(c: Check, head: seq<Byte>, head': seq<Byte>)
    requires |head| == |head'| && c != Cyclic32
    ensures Even(Xor(MsgBits(head + CheckBytes(c, head)), MsgBits(head' + CheckBytes(c, head'))))
  {
    CheckedEven(c, head);
    CheckedEven(c, head');
    EvenXor(MsgBits(head + CheckBytes(c, head)), MsgBits(head' + CheckBytes(c, head')));
  }

  lemma CheckMeans(mem: seq<Byte>, size: nat, c: Check, n: nat, trailer: seq<Byte>)
    requires size == n + CheckSize(c) <= |mem|
    requires RxCheck(TypeAt(mem)) == Some(c) && DeclaredLen(mem) + 2 == n
    requires trailer == mem[n..size] && CheckAgrees(mem, size)
    ensures trailer == CheckBytes(c, Window(mem, n))
  {
  }

  /** The check of the receiver fails on every damaged body. */
  lemma BurstDetected(m: Msg, body': seq<Byte>, mem: seq<Byte>, from: nat)
    requires m.payload != [] && SameReading(m, mem)
    requires |body'| == |Body(m)| && body' != Body(m) && body' <= mem
    requires Burst(m, body', from)
    ensures !CheckAgrees(mem, |body'|)
  {
    if CheckAgrees(mem, |body'|) {
      var head' := PassingBody(m, body', mem);
      CheckedBurst(TxCheck(m.ptype), Head(m), head', from);
    }
  }

  /** CRC-16 and the byte sum fail whenever an odd number of bits is damaged, wherever they lie. */
  lemma OddDetected(m: Msg, body': seq<Byte>, mem: seq<Byte>)
    requires m.payload != [] && SameReading(m, mem)
    requires |body'| == |Body(m)| && body' <= mem && OddlyMany(m, body')
    ensures !CheckAgrees(mem, |body'|)
  {
    if CheckAgrees(mem, |body'|) {
      var head' := PassingBody(m, body', mem);
      CheckedOdd(TxCheck(m.ptype), Head(m), head');
    }
  }

  /** A body that passes carries its own check. */
  lemma PassingBody(m: Msg, body': seq<Byte>, mem: seq<Byte>) returns (head': seq<Byte>)
    requires m.payload != [] && SameReading(m, mem)
    requires |body'| == |Body(m)| && body' <= mem && CheckAgrees(mem, |body'|)
    ensures |head'| == |Head(m)| && body' == head' + CheckBytes(TxCheck(m.ptype), head')
  {
    KnownCheck(mem, |body'|);
    head' := PassingParts(body', mem, TxCheck(m.ptype), |m.payload| + 2);
  }

  lemma KnownCheck(mem: seq<Byte>, size: nat)
    requires size <= |mem| && CheckAgrees(mem, size)
    ensures RxCheck(TypeAt(mem)) != None
  {
  }

  lemma PassingParts(body': seq<Byte>, mem: seq<Byte>, c: Check, n: nat) returns (head': seq<Byte>)
    requires |body'| == n + CheckSize(c) && body' <= mem && CheckAgrees(mem, |body'|)
    requires RxCheck(TypeAt(mem)) == Some(c) && DeclaredLen(mem) + 2 == n
    ensures |head'| == n && body' == head' + CheckBytes(c, head')
  {
    head' := body'[..n];
    PrefixParts(body', mem, n);
    TwoParts(body', n);
    CheckMeans(mem, |body'|, c, n, body'[n..]);
  }

  lemma PrefixParts(body: seq<Byte>, mem: seq<Byte>, n: nat)
    requires body <= mem && n <= |body|
    ensures mem[n..|body|] == body[n..] && Window(mem, n) == body[..n]
  {
  }

  lemma TwoParts<T>(s: seq<T>, n: nat)
    requires n <= |s|
    ensures s == s[..n] + s[n..]
  {
  }

  /** What a delivery means: the check agrees, and with the flag up the length too. */
  lemma DeliveredOnlyIf(s: RxState, chunk: seq<Byte>, first: nat, last: nat, mem: seq<Byte>, body: seq<Byte>,
                        registered: set<nat>, r: RxStep)
    requires Scan(s.pending + chunk) == TwoMarks(first, last)
    requires Unstuff((s.pending + chunk)[first + 1..last]) == Some(body) && body != []
    requires mem == DecodedMemory(s.pending + chunk, first, last) && r == ProcessStep(s, chunk, registered)
    ensures body <= mem
    ensures r.out != [] ==> CheckAgrees(mem, |body|) && (s.checkLen ==> LengthAgrees(mem, |body|))
  {
    var all := s.pending + chunk;
    UnstuffLength(all[first + 1..last]);
    SpanFound(s, chunk, registered, all, first, last, r, CompleteSpan(all, s.checkLen, first, last, registered));
  }

  /** A length that agrees with a body as long as the one that was sent is the length that was sent. */
  lemma LengthChecked(m: Msg, mem: seq<Byte>, size: nat)
    requires m.payload != [] && LengthAgrees(mem, size) && KindKept(m, mem)
    ensures size == |Body(m)| <==> DeclaredLen(mem) == |m.payload|
  {
  }

  /**
   No call of the receiver that completes a span which decodes to a damaged body of the same size delivers anything,
   wherever the span lies. While the flag is up the length may be damaged too.
   */
  lemma DamagedBodyNotDelivered(m: Msg, body': seq<Byte>, from: nat, s: RxState, chunk: seq<Byte>, first: nat, last: nat,
                                registered: set<nat>, r: RxStep)
    requires m.payload != [] && |body'| == |Body(m)| && body' != Body(m)
    requires Burst(m, body', from) || OddlyMany(m, body')
    requires KindKept(m, body') && (s.checkLen || DeclaredLen(body') == |m.payload|)
    requires Scan(s.pending + chunk) == TwoMarks(first, last)
    requires Unstuff((s.pending + chunk)[first + 1..last]) == Some(body')
    requires r == ProcessStep(s, chunk, registered)
    ensures r.out == []
  {
    var mem := DecodedMemory(s.pending + chunk, first, last);
    DeliveredOnlyIf(s, chunk, first, last, mem, body', registered, r);
    if r.out != [] {
      HeaderOfPrefix(body', mem);
      if s.checkLen {
        LengthChecked(m, mem, |body'|);
      }
      DamageDetected(m, body', mem, from);
    }
  }

  lemma DamageDetected(m: Msg, body': seq<Byte>, mem: seq<Byte>, from: nat)
    requires m.payload != [] && SameReading(m, mem)
    requires |body'| == |Body(m)| && body' != Body(m) && body' <= mem
    requires Burst(m, body', from) || OddlyMany(m, body')
    ensures !CheckAgrees(mem, |body'|)
  {
    if Burst(m, body', from) {
      BurstDetected(m, body', mem, from);
    } else {
      OddDetected(m, body', mem);
    }
  }

  lemma HeaderOfPrefix(body: seq<Byte>, mem: seq<Byte>)
    requires |body| >= 3 && body <= mem
    ensures TypeAt(body) == TypeAt(mem) && DeclaredLen(body) == DeclaredLen(mem)
  {
    assert body[0] == mem[0] && body[1] == mem[1] && body[2] == mem[2];
  }
}
