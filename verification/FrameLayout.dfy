/**
 The bytes of a frame in figures: where the length and the type stand, which check follows, and what the receiver makes of a
 header that declares no payload.
 */
module FrameLayout {
  import opened Wrappers
  import opened Gf2
  import opened ShiftRegisters
  import opened WordBits
  import opened Crc
  import opened CrcDivision
  import opened Stuffing
  import opened Framing
  import opened Reception
  import opened FrameErrors
  import Protocols

  // ---------- the header ----------

  lemma MaskedType(t: Byte)
    ensures (t & 0x3F) as nat == (t as nat) % 64
  {
  }

  lemma MaskedCommand(c: Byte)
    ensures (c & 0x7F) as nat == (c as nat) % 128
    ensures c & 0x80 != 0 <==> c as nat >= 128
  {
  }

  lemma TopTwoBits(lo: Byte)
    ensures (lo >> 6) as nat == (lo as nat) / 64
  {
  }

  lemma LowByte(x: bv8, t: bv8)
    requires x < 4 && t < 64
    ensures ((x << 6) + t) as nat == 64 * (x as nat) + t as nat
  {
  }

  lemma MaskedIsSmall(t: Byte)
    ensures t & 0x3F < 64
  {
  }

  lemma FirstByte(t: Byte, c: Byte, extra: Byte)
    requires extra == 0x80 || extra == 0x00
    ensures (extra + (c & 0x7F)) as nat == (if extra == 0x80 then 128 else 0) + (c & 0x7F) as nat
  {
  }

  /** What is built: length bits 9 to 2, then length bits 1 and 0 above the type; and bit 10 above the first byte. */
  lemma BuiltHeader(n: nat, t: Byte, c: Byte)
    ensures LenHigh(n) as nat == (n / 4) % 256
    ensures (LenLow(n) + TypeBits(t)) as nat == 64 * (n % 4) + (t as nat) % 64
    ensures (LenExtra(n) + CmdBits(c)) as nat == (if (n / 1024) % 2 == 1 then 128 else 0) + (c as nat) % 128
  {
    ByteOfNat((n / 4) % 256);
    ByteOfNat(n % 4);
    SmallByte(n % 4);
    MaskedIsSmall(t);
    LowByte((n % 4) as bv8, t & 0x3F);
    MaskedType(t);
    MaskedCommand(c);
    FirstByte(t, c, LenExtra(n));
  }

  /** What is read: the same bits, and the eleventh only for the PRIME API. */
  lemma ReadHeader(hi: Byte, lo: Byte, extra: Byte)
    ensures TypeBits(lo) as nat == (lo as nat) % 64
    ensures Len(hi, lo) == 4 * (hi as nat) + (lo as nat) / 64
    ensures HeaderLen(hi, lo, extra) ==
              Len(hi, lo) + if (lo as nat) % 64 == 0x30 && extra as nat >= 128 then 1024 else 0
  {
    MaskedType(lo);
    MaskedCommand(extra);
    TopTwoBits(lo);
    ApiType(TypeBits(lo));
  }

  lemma ApiType(t: Byte)
    ensures t == 0x30 <==> t as nat == 0x30
  {
  }

  // ---------- the frame ----------

  /** The bits of a trailer are the remainder of the head: CRC-32, CRC-16 or byte sum, by type. */
  ghost predicate Checked(t: Byte, head: seq<Byte>, trailer: seq<Byte>) {
    && |GEN32| == 33 && IsCheckGenerator(GEN32) && |GEN16| == 17 && IsCheckGenerator(GEN16)
    && if t <= 0x07 then IsRemainder(GEN32, MsgBits(head) + Zeros(32), MsgBits(trailer))
       else if t in {0x13, 0x22, 0xFE} then IsRemainder(GEN16, Zeros(16) + MsgBits(head), MsgBits(trailer))
       else trailer == [ByteSum(head, 0)]
  }

  lemma Trailer32(head: seq<Byte>, trailer: seq<Byte>)
    requires trailer == CheckBytes(Cyclic32, head)
    ensures |GEN32| == 33 && IsCheckGenerator(GEN32)
    ensures IsRemainder(GEN32, MsgBits(head) + Zeros(32), MsgBits(trailer))
  {
    CheckBits(Cyclic32, head);
    Crc32IsRemainder(head, 0, MsgBits(trailer));
    ZeroBits();
    DividendFromZero(32, MsgBits(head));
  }

  lemma Trailer16(head: seq<Byte>, trailer: seq<Byte>)
    requires trailer == CheckBytes(Cyclic16, head)
    ensures |GEN16| == 17 && IsCheckGenerator(GEN16)
    ensures IsRemainder(GEN16, Zeros(16) + MsgBits(head), MsgBits(trailer))
  {
    CheckBits(Cyclic16, head);
    Crc16IsRemainder(head, 0, MsgBits(trailer));
    ZeroBits();
  }

  lemma TrailerOf(t: Byte, head: seq<Byte>, trailer: seq<Byte>)
    requires trailer == CheckBytes(TxCheck(t), head)
    ensures Checked(t, head, trailer)
  {
    Crc32IsRemainder(head, 0, []);
    Crc16IsRemainder(head, 0, []);
    if t <= 0x07 {
      Trailer32(head, trailer);
    } else if t in {0x13, 0x22, 0xFE} {
      Trailer16(head, trailer);
    }
  }

  lemma PayloadBytes(m: Msg, p: seq<Byte>, n: nat)
    requires m.payload != [] && p == WirePayload(m) && n == |m.payload|
    ensures m.ptype != 0x30 ==> p[0] == m.payload[0]
    ensures m.ptype == 0x30 ==> p[0] as nat == (if (n / 1024) % 2 == 1 then 128 else 0) + (m.payload[0] as nat) % 128
    ensures forall i :: 1 <= i < n ==> p[i] == m.payload[i]
  {
    BuiltHeader(n, m.ptype, m.payload[0]);
  }

  /** The head of a frame, byte by byte: the header in figures, and the payload but for the top bit of an API command. */
  lemma HeadLayout(m: Msg, h: seq<Byte>, n: nat)
    requires m.payload != [] && h == Head(m) && n == |m.payload|
    ensures h[0] as nat == (n / 4) % 256 && h[1] as nat == 64 * (n % 4) + (m.ptype as nat) % 64
    ensures m.ptype != 0x30 ==> h[2] == m.payload[0]
    ensures m.ptype == 0x30 ==> h[2] as nat == (if (n / 1024) % 2 == 1 then 128 else 0) + (m.payload[0] as nat) % 128
    ensures forall i :: 1 <= i < n ==> h[2 + i] == m.payload[i]
  {
    var p := WirePayload(m);
    BuiltHeader(n, m.ptype, m.payload[0]);
    PayloadBytes(m, p, n);
    Pieces(Header(m), p, h);
  }

  lemma Pieces<T>(h: seq<T>, p: seq<T>, head: seq<T>)
    requires |h| == 2 && head == h + p
    ensures head[0] == h[0] && head[1] == h[1] && forall i :: 0 <= i < |p| ==> head[2 + i] == p[i]
  {
  }

  /** The trailer is the head's remainder, four, two or one bytes long by the type. */
  lemma TrailerLayout(m: Msg, b: seq<Byte>, n: nat)
    requires m.payload != [] && b == Body(m) && n == |m.payload|
    ensures |b| == n + 2 + if m.ptype <= 0x07 then 4 else if m.ptype in {0x13, 0x22, 0xFE} then 2 else 1
    ensures b[..n + 2] == Head(m) && Checked(m.ptype, b[..n + 2], b[n + 2..])
  {
    TrailerOf(m.ptype, Head(m), CheckBytes(TxCheck(m.ptype), Head(m)));
    Protocols.CheckOf(m.ptype);
    TwoParts(b, n + 2);
  }

  /** Between its marks a frame has its body with each 0x7E and 0x7D as 0x7D and the byte with bit 5 flipped. */
  lemma EscapedByte(b: Byte)
    ensures StuffByte(b) == if b == 0x7E || b == 0x7D then [0x7D, b ^ 0x20] else [b]
  {
  }

  // ---------- spans that declare no payload ----------

  /** The one kind of message that may be empty: a reset or a reboot, and its check. */
  ghost predicate EmptyPasses(mem: seq<Byte>, n: nat)
    requires n <= |mem|
  {
    n >= 4 && TypeAt(mem) in {0x03, 0x04} && mem[n - 4..n] == BigEndian32(Crc32([At(mem, 0), At(mem, 1)], 0))
  }

  /**
   A span whose header declares a length of zero: the handler of the management protocol is called with the two header bytes
   if it is a reset or a reboot with its CRC-32; and while the flag is up, if it has no other bytes. No other is delivered.
   */
  lemma EmptySpan(all: seq<Byte>, checkLen: bool, first: nat, last: nat, mem: seq<Byte>, n: nat, registered: set<nat>,
                  c: RxStep)
    requires first < last < |all| && n == DecodedSize(all[first + 1..last]) && mem == DecodedMemory(all, first, last)
    requires Len(At(mem, 0), At(mem, 1)) == 0
    requires c == CompleteSpan(all, checkLen, first, last, registered)
    ensures c.out == if EmptyPasses(mem, n) && (checkLen ==> n == 6) && 0 in registered
                     then [Delivery(0, [At(mem, 0), At(mem, 1)])] else []
  {
    EmptyTests(mem, n, registered);
  }

  lemma EmptyTests(mem: seq<Byte>, n: nat, registered: set<nat>)
    requires n <= |mem| && Len(At(mem, 0), At(mem, 1)) == 0
    ensures CheckAgrees(mem, n) <==> EmptyPasses(mem, n)
    ensures EmptyPasses(mem, n) ==> (LengthAgrees(mem, n) <==> n == 6)
    ensures EmptyPasses(mem, n) ==>
              Dispatch(mem, registered) == if 0 in registered then [Delivery(0, [At(mem, 0), At(mem, 1)])] else []
  {
    ResetOrReboot(TypeAt(mem));
    FirstTwo(mem);
    if TypeAt(mem) in {0x03, 0x04} {
      assert DeclaredLen(mem) == 0;
      assert Window(mem, 2)[0..] == Window(mem, 2);
    }
  }

  lemma ResetOrReboot(t: Byte)
    ensures t in {0x03, 0x04} ==> t != PRIME_API && t <= MNGP_LAST && HandlerOf(t) == Some(0)
    ensures t in {0x03, 0x04} <==> LengthAllowed(0, t)
    ensures t in {0x03, 0x04} ==> RxCheck(t) == Some(Cyclic32)
  {
  }

  lemma FirstTwo(mem: seq<Byte>)
    ensures Window(mem, 2) == [At(mem, 0), At(mem, 1)]
  {
  }

  /** The frame of an empty reset or reboot in front of the receiver. */
  lemma EmptyFrameDelivered(t: Byte, head: seq<Byte>, body: seq<Byte>, tail: seq<Byte>, s: RxState, chunk: seq<Byte>,
                            registered: set<nat>, r: RxStep)
    requires t in {0x03, 0x04} && head == [0x00, t] && body == head + BigEndian32(Crc32(head, 0))
    requires s.pending + chunk == [MARK] + Stuff(body) + [MARK] + tail
    requires r == ProcessStep(s, chunk, registered)
    ensures r.out == if 0 in registered then [Delivery(0, head)] else []
    ensures r.state == RxState(tail, false)
  {
    var all, last := s.pending + chunk, |Stuff(body)| + 1;
    StuffIsClean(body);
    SpanMarks(Stuff(body), tail, all);
    var c := CompleteSpan(all, s.checkLen, 0, last, registered);
    SpanFound(s, chunk, registered, all, 0, last, r, c);
    UnstuffStuff(body);
    var mem := DecodedMemory(all, 0, last);
    EmptyHeader(t, body, mem, head);
    EmptySpan(all, s.checkLen, 0, last, mem, |body|, registered, c);
    EmptyTests(mem, |body|, registered);
    After(Stuff(body), tail, all);
  }

  lemma After<T>(stuffed: seq<T>, tail: seq<T>, all: seq<T>)
    requires exists x, y :: all == [x] + stuffed + [y] + tail
    ensures |all| == |stuffed| + 2 + |tail| && all[|stuffed| + 2..] == tail
  {
  }

  lemma EmptyHeader(t: Byte, body: seq<Byte>, mem: seq<Byte>, head: seq<Byte>)
    requires t in {0x03, 0x04} && head == [0x00, t] && body == head + BigEndian32(Crc32(head, 0)) && body <= mem
    ensures At(mem, 0) == 0x00 && At(mem, 1) == t && TypeAt(mem) == t && Len(At(mem, 0), At(mem, 1)) == 0
    ensures |body| == 6 && EmptyPasses(mem, 6)
  {
    assert mem[..|body|] == body;
    assert mem[0] == body[0] && mem[1] == body[1];
    assert mem[2..6] == body[2..6] == BigEndian32(Crc32(head, 0));
  }

  /** A span of fewer than four bytes is never delivered; while the flag is up its second mark stays. */
  lemma ShortSpan(all: seq<Byte>, checkLen: bool, first: nat, last: nat, registered: set<nat>, c: RxStep)
    requires first < last < |all| && DecodedSize(all[first + 1..last]) < 4
    requires c == CompleteSpan(all, checkLen, first, last, registered)
    ensures c == RxStep(RxState(if checkLen then all[last..] else all[last + 1..], false), [])
  {
  }

  /** No handler is ever called with nothing. */
  lemma NeverNothing(all: seq<Byte>, checkLen: bool, first: nat, last: nat, registered: set<nat>, c: RxStep)
    requires first < last < |all| && c == CompleteSpan(all, checkLen, first, last, registered)
    ensures |c.out| <= 1 && forall i :: 0 <= i < |c.out| ==> c.out[i].data != []
  {
  }
}
