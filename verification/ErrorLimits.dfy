/**
 Damage that is not noticed: what happens when one of the conditions of `WireErrors` fails. The first three are single
 damaged bytes of PRIME API messages, whose check is one byte wide; the last is a burst in a frame with a CRC-32.
 */
module ErrorLimits {
  import opened Wrappers
  import opened WordBits
  import opened CrcTables
  import opened Crc
  import opened CrcLoops
  import opened Stuffing
  import opened Framing
  import opened Reception
  import opened Resync
  import opened Recovery
  import opened FrameErrors
  import opened WireErrors

  // ---------- spans without escapes ----------

  lemma AgreesOfPrefix(w: seq<Byte>, mem: seq<Byte>, c: Check)
    requires w <= mem && |w| >= 4 && RxCheck(TypeAt(w)) == Some(c) && DeclaredLen(w) + 2 <= |w|
    ensures CheckAgrees(mem, |w|) == CheckAgrees(w, |w|) && LengthAgrees(mem, |w|) == LengthAgrees(w, |w|)
    ensures Window(mem, DeclaredLen(mem) + 2) == w[..DeclaredLen(w) + 2]
  {
    HeaderOfPrefix(w, mem);
    PrefixBytes(w, mem);
    var n := DeclaredLen(w) + 2;
    WindowIsPrefix(w[..n], mem);
    WindowIsPrefix(w[..n], w);
    SameTrailer(w, mem, |w| - CheckSize(c));
  }

  lemma PrefixBytes(w: seq<Byte>, mem: seq<Byte>)
    requires w <= mem && |w| >= 2
    ensures At(mem, 0) == At(w, 0) && At(mem, 1) == At(w, 1)
    ensures forall n: nat :: n <= |w| ==> w[..n] <= mem && w[..n] <= w
  {
    assert mem[..|w|] == w;
  }

  lemma SameTrailer<T>(w: seq<T>, mem: seq<T>, n: nat)
    requires w <= mem && n <= |w|
    ensures mem[n..|w|] == w[n..|w|]
  {
    assert mem[..|w|] == w;
  }

  /** A receiver in front of a span without escapes, whose check agrees, delivers what its header declares. */
  lemma PlainSpanDelivered(w: seq<Byte>, s: RxState, chunk: seq<Byte>, all: seq<Byte>, c: Check, h: nat,
                           registered: set<nat>, r: RxStep)
    requires (forall i :: 0 <= i < |w| ==> !Special(w[i])) && |w| >= 4
    requires all == s.pending + chunk && all == [MARK] + w + [MARK] && r == ProcessStep(s, chunk, registered)
    requires CheckAgrees(w, |w|) && (s.checkLen ==> LengthAgrees(w, |w|))
    requires RxCheck(TypeAt(w)) == Some(c) && 0 < DeclaredLen(w) && DeclaredLen(w) + 2 <= |w|
    requires HandlerOf(TypeAt(w)) == Some(h) && h in registered && TypeAt(w) > MNGP_LAST
    ensures r.out == [Delivery(h, w[2..DeclaredLen(w) + 2])]
  {
    assert [MARK] + w + [MARK] + [] == all;
    SpanMarks(w, [], all);
    StuffPlain(w);
    UnstuffStuff(w);
    var mem := DecodedMemory(all, 0, |w| + 1);
    var step := CompleteSpan(all, s.checkLen, 0, |w| + 1, registered);
    SpanFound(s, chunk, registered, all, 0, |w| + 1, r, step);
    AgreesOfPrefix(w, mem, c);
    PlainDispatch(w, mem, c, h, registered);
  }

  lemma PlainDelivered(w: seq<Byte>, s: RxState, all: seq<Byte>, c: Check, h: nat, registered: set<nat>, r: RxStep)
    requires (forall i :: 0 <= i < |w| ==> !Special(w[i])) && |w| >= 4
    requires s.pending == [] && all == [MARK] + w + [MARK] && r == ProcessStep(s, all, registered)
    requires CheckAgrees(w, |w|) && (s.checkLen ==> LengthAgrees(w, |w|))
    requires RxCheck(TypeAt(w)) == Some(c) && 0 < DeclaredLen(w) && DeclaredLen(w) + 2 <= |w|
    requires HandlerOf(TypeAt(w)) == Some(h) && h in registered && TypeAt(w) > MNGP_LAST
    ensures r.out == [Delivery(h, w[2..DeclaredLen(w) + 2])]
  {
    assert s.pending + all == all;
    PlainSpanDelivered(w, s, all, all, c, h, registered, r);
  }

  lemma PlainDispatch(w: seq<Byte>, mem: seq<Byte>, c: Check, h: nat, registered: set<nat>)
    requires w <= mem && |w| >= 4
    requires RxCheck(TypeAt(w)) == Some(c) && 0 < DeclaredLen(w) && DeclaredLen(w) + 2 <= |w|
    requires HandlerOf(TypeAt(w)) == Some(h) && h in registered && TypeAt(w) > MNGP_LAST
    ensures Dispatch(mem, registered) == [Delivery(h, w[2..DeclaredLen(w) + 2])]
  {
    AgreesOfPrefix(w, mem, c);
    HeaderOfPrefix(w, mem);
    DispatchIs(mem, registered, TypeAt(w), DeclaredLen(w), w[..DeclaredLen(w) + 2]);
    SlicedTwice(w, DeclaredLen(w) + 2);
  }

  lemma SlicedTwice<T>(w: seq<T>, n: nat)
    requires 2 <= n <= |w|
    ensures w[..n][2..] == w[2..n]
  {
  }

  // ---------- sums and bodies ----------

  lemma SumStep(x: Byte, rest: seq<Byte>, init: Byte, sum: Byte)
    requires sum == init ^ x
    ensures ByteSum([x] + rest, init) == ByteSum(rest, sum)
  {
    assert ([x] + rest)[1..] == rest;
  }

  lemma SumOfThree(a: Byte, b: Byte, c: Byte, rest: seq<Byte>, init: Byte, x: Byte, y: Byte, sum: Byte)
    requires x == init ^ a && y == x ^ b && sum == y ^ c
    ensures ByteSum([a, b, c] + rest, init) == ByteSum(rest, sum)
  {
    assert [a, b, c] + rest == [a] + ([b] + ([c] + rest));
    SumStep(a, [b] + ([c] + rest), init, x);
    SumStep(b, [c] + rest, x, y);
    SumStep(c, rest, y, sum);
  }

  lemma BodyIs(m: Msg, head: seq<Byte>, sum: Byte, body: seq<Byte>)
    requires m.payload != [] && TxCheck(m.ptype) == Sum
    requires head == Head(m) && sum == ByteSum(head, 0) && body == head + [sum]
    ensures body == Body(m)
  {
  }

  lemma PlainFrame(m: Msg, head: seq<Byte>, sum: Byte, body: seq<Byte>)
    requires m.payload != [] && TxCheck(m.ptype) == Sum
    requires head == Head(m) && sum == ByteSum(head, 0) && body == head + [sum]
    requires forall i :: 0 <= i < |body| ==> !Special(body[i])
    ensures body == Stuff(Body(m))
  {
    BodyIs(m, head, sum, body);
    StuffPlain(body);
  }

  lemma BurstIs(m: Msg, stuffed: seq<Byte>, w: seq<Byte>, from: nat)
    requires m.payload != [] && TxCheck(m.ptype) == Sum
    requires stuffed == Stuff(Body(m)) && AlikeOutside(stuffed, w, from, 1)
    ensures WireBurst(m, w, from)
  {
  }

  lemma SumAgrees(w: seq<Byte>, head: seq<Byte>, tail: seq<Byte>, sum: Byte)
    requires w == head + tail && |tail| >= 1 && tail[|tail| - 1] == sum && |w| >= 4
    requires TypeAt(w) == PRIME_API && DeclaredLen(w) + 2 == |head| && sum == ByteSum(head, 0)
    requires Len(At(w, 0), At(w, 1)) != 0
    ensures CheckAgrees(w, |w|)
  {
    WindowIsPrefix(head, w);
    LastOne(w, sum);
  }

  lemma LastOne<T>(w: seq<T>, x: T)
    requires w != [] && w[|w| - 1] == x
    ensures w[|w| - 1..|w|] == [x]
  {
  }

  // ---------- a damaged length ----------

  const LENGTH_MSG: Msg := Msg(PRIME_API, [0x00, 0x00, 0x00, 0x00, 0x40])

  /** One bit of its length is cleared. */
  const LENGTH_WIRE: seq<Byte> := [0x01, 0x30, 0x00, 0x00, 0x00, 0x00, 0x40, 0x31]

  lemma LengthSums()
    ensures ByteSum([0x01, 0x70, 0x00, 0x00, 0x00, 0x00, 0x40], 0) == 0x31
    ensures ByteSum([0x01, 0x30, 0x00, 0x00, 0x00, 0x00], 0) == 0x31
  {
    assert [0x01, 0x70, 0x00, 0x00, 0x00, 0x00, 0x40] == [0x01, 0x70, 0x00] + ([0x00, 0x00, 0x00] + ([0x40] + []));
    SumOfThree(0x01, 0x70, 0x00, [0x00, 0x00, 0x00] + ([0x40] + []), 0, 0x01, 0x71, 0x71);
    SumOfThree(0x00, 0x00, 0x00, [0x40] + [], 0x71, 0x71, 0x71, 0x71);
    SumStep(0x40, [], 0x71, 0x31);
    assert [0x01, 0x30, 0x00, 0x00, 0x00, 0x00] == [0x01, 0x30, 0x00] + ([0x00, 0x00, 0x00] + []);
    SumOfThree(0x01, 0x30, 0x00, [0x00, 0x00, 0x00] + [], 0, 0x01, 0x31, 0x31);
    SumOfThree(0x00, 0x00, 0x00, [], 0x31, 0x31, 0x31, 0x31);
  }

  lemma LengthHead(head: seq<Byte>)
    requires head == Head(LENGTH_MSG)
    ensures head == [0x01, 0x70, 0x00, 0x00, 0x00, 0x00, 0x40]
  {
  }

  lemma LengthAlike(stuffed: seq<Byte>, w: seq<Byte>)
    requires stuffed == [0x01, 0x70, 0x00, 0x00, 0x00, 0x00, 0x40, 0x31] && w == LENGTH_WIRE
    ensures AlikeOutside(stuffed, w, 1, 1) && SameEscapes(stuffed, w)
    ensures forall i :: 0 <= i < |stuffed| ==> !Special(stuffed[i])
  {
  }

  lemma LengthFrame(w: seq<Byte>) returns (stuffed: seq<Byte>)
    requires w == LENGTH_WIRE
    ensures stuffed == Stuff(Body(LENGTH_MSG)) && AlikeOutside(stuffed, w, 1, 1) && SameEscapes(stuffed, w)
  {
    stuffed := [0x01, 0x70, 0x00, 0x00, 0x00, 0x00, 0x40, 0x31];
    LengthAlike(stuffed, w);
    LengthHead(Head(LENGTH_MSG));
    LengthSums();
    PlainFrame(LENGTH_MSG, [0x01, 0x70, 0x00, 0x00, 0x00, 0x00, 0x40], 0x31, stuffed);
  }

  lemma LengthWire(w: seq<Byte>)
    requires w == LENGTH_WIRE
    ensures TypeAt(w) == PRIME_API && DeclaredLen(w) == 4 && CheckAgrees(w, |w|)
    ensures forall i :: 0 <= i < |w| ==> !Special(w[i])
    ensures w[2..6] == [0x00, 0x00, 0x00, 0x00]
  {
    LengthSums();
    SumAgrees(w, [0x01, 0x30, 0x00, 0x00, 0x00, 0x00], [0x40, 0x31], 0x31);
  }

  /** With the flag down, a message whose length is damaged may be cut short: the check of fewer bytes happens to agree. */
  lemma LengthDamageDelivered(s: RxState, w: seq<Byte>, all: seq<Byte>, registered: set<nat>, r: RxStep)
    requires s == RxState([], false) && 4 in registered && w == LENGTH_WIRE && all == [MARK] + w + [MARK]
    requires r == ProcessStep(s, all, registered)
    ensures WireBurst(LENGTH_MSG, w, 1) && SameEscapes(Stuff(Body(LENGTH_MSG)), w)
    ensures r.out == [Delivery(4, [0x00, 0x00, 0x00, 0x00])]
  {
    var stuffed := LengthFrame(w);
    BurstIs(LENGTH_MSG, stuffed, w, 1);
    LengthWire(w);
    PlainDelivered(w, s, all, Sum, 4, registered, r);
  }

  // ---------- a broken escape ----------

  const ESCAPE_MSG: Msg := Msg(PRIME_API, [0x00, 0x7E, 0x5C])

  /** One bit of its only escape is flipped. */
  const ESCAPE_WIRE: seq<Byte> := [0x00, 0xF0, 0x00, 0x7C, 0x5E, 0x5C, 0xD2]

  lemma EscapeSums()
    ensures ByteSum([0x00, 0xF0, 0x00, 0x7E, 0x5C], 0) == 0xD2
    ensures ByteSum([0x00, 0xF0, 0x00, 0x7C, 0x5E], 0) == 0xD2
  {
    assert [0x00, 0xF0, 0x00, 0x7E, 0x5C] == [0x00, 0xF0, 0x00] + ([0x7E] + ([0x5C] + []));
    SumOfThree(0x00, 0xF0, 0x00, [0x7E] + ([0x5C] + []), 0, 0, 0xF0, 0xF0);
    SumStep(0x7E, [0x5C] + [], 0xF0, 0x8E);
    SumStep(0x5C, [], 0x8E, 0xD2);
    assert [0x00, 0xF0, 0x00, 0x7C, 0x5E] == [0x00, 0xF0, 0x00] + ([0x7C] + ([0x5E] + []));
    SumOfThree(0x00, 0xF0, 0x00, [0x7C] + ([0x5E] + []), 0, 0, 0xF0, 0xF0);
    SumStep(0x7C, [0x5E] + [], 0xF0, 0x8C);
    SumStep(0x5E, [], 0x8C, 0xD2);
  }

  lemma EscapeHead(head: seq<Byte>)
    requires head == Head(ESCAPE_MSG)
    ensures head == [0x00, 0xF0, 0x00, 0x7E, 0x5C]
  {
    EscapeHeader();
    assert WirePayload(ESCAPE_MSG) == [0x00, 0x7E, 0x5C];
  }

  lemma EscapeHeader()
    ensures LenHigh(3) == 0x00 && LenLow(3) + TypeBits(PRIME_API) == 0xF0
    ensures LenExtra(3) + CmdBits(0x00) == 0x00
  {
  }

  lemma EscapeStuffed(body: seq<Byte>, stuffed: seq<Byte>, end: seq<Byte>)
    requires body == [0x00, 0xF0, 0x00, 0x7E, 0x5C, 0xD2] && end == [0x5C, 0xD2]
    requires stuffed == [0x00, 0xF0, 0x00, 0x7D, 0x5E, 0x5C, 0xD2]
    ensures Stuff(body) == stuffed
  {
    StuffPlain(end);
    assert body == [0x00, 0xF0, 0x00] + ([0x7E] + end);
    StuffFirstSpecial([0x00, 0xF0, 0x00], 0x7E, end);
  }

  lemma EscapeFrame(w: seq<Byte>) returns (stuffed: seq<Byte>)
    requires w == ESCAPE_WIRE
    ensures stuffed == Stuff(Body(ESCAPE_MSG)) && AlikeOutside(stuffed, w, 3, 1)
  {
    stuffed := [0x00, 0xF0, 0x00, 0x7D, 0x5E, 0x5C, 0xD2];
    EscapeHead(Head(ESCAPE_MSG));
    EscapeSums();
    BodyIs(ESCAPE_MSG, [0x00, 0xF0, 0x00, 0x7E, 0x5C], 0xD2, [0x00, 0xF0, 0x00, 0x7E, 0x5C, 0xD2]);
    EscapeStuffed([0x00, 0xF0, 0x00, 0x7E, 0x5C, 0xD2], stuffed, [0x5C, 0xD2]);
  }

  lemma EscapeWire(w: seq<Byte>)
    requires w == ESCAPE_WIRE
    ensures TypeAt(w) == PRIME_API && DeclaredLen(w) == 3 && CheckAgrees(w, |w|)
    ensures forall i :: 0 <= i < |w| ==> !Special(w[i])
    ensures w[2..5] == [0x00, 0x7C, 0x5E]
  {
    EscapeSums();
    SumAgrees(w, [0x00, 0xF0, 0x00, 0x7C, 0x5E], [0x5C, 0xD2], 0xD2);
  }

  lemma PlainReading(m: Msg, w: seq<Byte>)
    requires forall i :: 0 <= i < |w| ==> !Special(w[i])
    requires TypeAt(w) == m.ptype == PRIME_API && DeclaredLen(w) == |m.payload|
    ensures Unstuff(w) == Some(w) && SameReading(m, w)
  {
    StuffPlain(w);
    UnstuffStuff(w);
  }

  /**
   With the flag down, one bit that breaks an escape goes unnoticed although type and length are read as they were sent:
   the bytes move up by one, and the check is still found at their end.
   */
  lemma EscapeDamageDelivered(s: RxState, w: seq<Byte>, all: seq<Byte>, registered: set<nat>, r: RxStep)
    requires s == RxState([], false) && 4 in registered && w == ESCAPE_WIRE && all == [MARK] + w + [MARK]
    requires r == ProcessStep(s, all, registered)
    ensures WireBurst(ESCAPE_MSG, w, 3) && Unstuff(w) == Some(w) && SameReading(ESCAPE_MSG, w)
    ensures r.out == [Delivery(4, [0x00, 0x7C, 0x5E])]
  {
    var stuffed := EscapeFrame(w);
    BurstIs(ESCAPE_MSG, stuffed, w, 3);
    EscapeWire(w);
    PlainReading(ESCAPE_MSG, w);
    PlainDelivered(w, s, all, Sum, 4, registered, r);
  }

  // ---------- another kind of check ----------

  const KIND_MSG: Msg := Msg(PRIME_API, [0x00, 0x61, 0x00, 0x00, 0x10])

  /** Its type becomes one with a check of two bytes, and its length less by one. */
  const KIND_WIRE: seq<Byte> := [0x01, 0x13, 0x00, 0x61, 0x00, 0x00, 0x10, 0x00]

  lemma KindSum()
    ensures ByteSum([0x01, 0x70, 0x00, 0x61, 0x00, 0x00, 0x10], 0) == 0x00
  {
    assert [0x01, 0x70, 0x00, 0x61, 0x00, 0x00, 0x10] == [0x01, 0x70, 0x00] + ([0x61, 0x00, 0x00] + ([0x10] + []));
    SumOfThree(0x01, 0x70, 0x00, [0x61, 0x00, 0x00] + ([0x10] + []), 0, 0x01, 0x71, 0x71);
    SumOfThree(0x61, 0x00, 0x00, [0x10] + [], 0x71, 0x10, 0x10, 0x10);
    SumStep(0x10, [], 0x10, 0x00);
  }

  lemma CrcStep(x: Byte, rest: seq<Byte>, s: bv16, shifted: bv16, t: bv16)
    requires shifted == Shifts16(s, BYTE_BITS) && t == AddByte16(shifted, x)
    ensures Crc16([x] + rest, s) == Crc16(rest, t)
  {
    assert ([x] + rest)[1..] == rest;
  }

  lemma ShiftedStates()
    ensures EightShifts16(0x0000) == 0x0000 && EightShifts16(0x0001) == 0x0100
    ensures EightShifts16(0x0113) == 0x0321 && EightShifts16(0x0321) == 0x1163
    ensures EightShifts16(0x1102) == 0x0010 && EightShifts16(0x0010) == 0x1000
  {
  }

  lemma ShiftedBy(s: bv16, t: bv16)
    requires EightShifts16(s) == t
    ensures Shifts16(s, BYTE_BITS) == t
  {
    EightShifts16Unrolled(s);
  }

  lemma AddedBytes()
    ensures AddByte16(0x0000, 0x01) == 0x0001 && AddByte16(0x0100, 0x13) == 0x0113
    ensures AddByte16(0x0321, 0x00) == 0x0321 && AddByte16(0x1163, 0x61) == 0x1102
    ensures AddByte16(0x0010, 0x00) == 0x0010 && AddByte16(0x1000, 0x00) == 0x1000
  {
  }

  lemma KindCrc()
    ensures Crc16([0x01, 0x13, 0x00, 0x61, 0x00, 0x00], 0) == 0x1000
  {
    ShiftedStates();
    AddedBytes();
    ShiftedBy(0x0000, 0x0000);
    ShiftedBy(0x0001, 0x0100);
    ShiftedBy(0x0113, 0x0321);
    ShiftedBy(0x0321, 0x1163);
    ShiftedBy(0x1102, 0x0010);
    ShiftedBy(0x0010, 0x1000);
    KindCrcSteps();
  }

  lemma KindCrcSteps()
    requires Shifts16(0x0000, BYTE_BITS) == 0x0000 && Shifts16(0x0001, BYTE_BITS) == 0x0100
    requires Shifts16(0x0113, BYTE_BITS) == 0x0321 && Shifts16(0x0321, BYTE_BITS) == 0x1163
    requires Shifts16(0x1102, BYTE_BITS) == 0x0010 && Shifts16(0x0010, BYTE_BITS) == 0x1000
    ensures Crc16([0x01, 0x13, 0x00, 0x61, 0x00, 0x00], 0) == 0x1000
  {
    AddedBytes();
    assert [0x01, 0x13, 0x00, 0x61, 0x00, 0x00] == [0x01] + ([0x13] + ([0x00] + ([0x61] + ([0x00] + ([0x00] + [])))));
    CrcStep(0x01, [0x13] + ([0x00] + ([0x61] + ([0x00] + ([0x00] + [])))), 0x0000, 0x0000, 0x0001);
    CrcStep(0x13, [0x00] + ([0x61] + ([0x00] + ([0x00] + []))), 0x0001, 0x0100, 0x0113);
    CrcStep(0x00, [0x61] + ([0x00] + ([0x00] + [])), 0x0113, 0x0321, 0x0321);
    CrcStep(0x61, [0x00] + ([0x00] + []), 0x0321, 0x1163, 0x1102);
    CrcStep(0x00, [0x00] + [], 0x1102, 0x0010, 0x0010);
    CrcStep(0x00, [], 0x0010, 0x1000, 0x1000);
  }

  lemma KindHead(head: seq<Byte>)
    requires head == Head(KIND_MSG)
    ensures head == [0x01, 0x70, 0x00, 0x61, 0x00, 0x00, 0x10]
  {
  }

  lemma KindAlike(stuffed: seq<Byte>, w: seq<Byte>)
    requires stuffed == [0x01, 0x70, 0x00, 0x61, 0x00, 0x00, 0x10, 0x00] && w == KIND_WIRE
    ensures AlikeOutside(stuffed, w, 1, 1) && SameEscapes(stuffed, w)
    ensures forall i :: 0 <= i < |stuffed| ==> !Special(stuffed[i]) && !Special(w[i])
  {
  }

  lemma KindFrame(w: seq<Byte>) returns (stuffed: seq<Byte>)
    requires w == KIND_WIRE
    ensures stuffed == Stuff(Body(KIND_MSG)) && AlikeOutside(stuffed, w, 1, 1) && SameEscapes(stuffed, w)
  {
    stuffed := [0x01, 0x70, 0x00, 0x61, 0x00, 0x00, 0x10, 0x00];
    KindAlike(stuffed, w);
    KindHead(Head(KIND_MSG));
    KindSum();
    PlainFrame(KIND_MSG, [0x01, 0x70, 0x00, 0x61, 0x00, 0x00, 0x10], 0x00, stuffed);
  }

  lemma CrcAgrees(w: seq<Byte>, head: seq<Byte>, tail: seq<Byte>)
    requires w == head + tail && |tail| == 2 && |w| >= 4
    requires RxCheck(TypeAt(w)) == Some(Cyclic16) && DeclaredLen(w) + 2 == |head|
    requires tail == CheckBytes(Cyclic16, head) && Len(At(w, 0), At(w, 1)) != 0
    ensures CheckAgrees(w, |w|) && LengthAgrees(w, |w|)
  {
    WindowIsPrefix(head, w);
  }

  lemma KindTail(tail: seq<Byte>)
    requires tail == BigEndian16(0x1000)
    ensures tail == [0x10, 0x00]
  {
  }

  lemma KindWire(w: seq<Byte>)
    requires w == KIND_WIRE
    ensures TypeAt(w) == SNIF_PRIME && DeclaredLen(w) == 4 && CheckAgrees(w, |w|) && LengthAgrees(w, |w|)
    ensures forall i :: 0 <= i < |w| ==> !Special(w[i])
    ensures w[2..6] == [0x00, 0x61, 0x00, 0x00]
  {
    KindCrc();
    KindTail(BigEndian16(0x1000));
    CrcAgrees(w, [0x01, 0x13, 0x00, 0x61, 0x00, 0x00], [0x10, 0x00]);
  }

  lemma KindDelivered(s: RxState, w: seq<Byte>, all: seq<Byte>, registered: set<nat>, r: RxStep)
    requires s.pending == [] && 1 in registered && w == KIND_WIRE && all == [MARK] + w + [MARK]
    requires r == ProcessStep(s, all, registered)
    ensures r.out == [Delivery(1, [0x00, 0x61, 0x00, 0x00])]
  {
    KindWire(w);
    PlainDelivered(w, s, all, Cyclic16, 1, registered, r);
  }

  /** Whatever the flag, damage to the type may turn a message into one with another kind of check that agrees. */
  lemma KindDamageDelivered(s: RxState, w: seq<Byte>, all: seq<Byte>, registered: set<nat>, r: RxStep)
    requires s.pending == [] && 1 in registered && w == KIND_WIRE && all == [MARK] + w + [MARK]
    requires r == ProcessStep(s, all, registered)
    ensures WireBurst(KIND_MSG, w, 1) && SameEscapes(Stuff(Body(KIND_MSG)), w)
    ensures r.out == [Delivery(1, [0x00, 0x61, 0x00, 0x00])]
  {
    var stuffed := KindFrame(w);
    BurstIs(KIND_MSG, stuffed, w, 1);
    KindDelivered(s, w, all, registered, r);
  }

  // ---------- length and size damaged alike ----------

  const MANY: nat := 86

  const SIZE_MSG: Msg := Msg(0x00, [0x97, 0x96, 0xBC] + ZeroBytes(MANY))

  /** One byte shorter; with its escape the frame is as long on the wire. */
  const SIZE_OTHER: Msg := Msg(0x00, [0x00, 0x7E] + ZeroBytes(MANY))

  lemma Shifted(s: bv32, t: bv32)
    requires EightShifts32(s) == t
    ensures Shifts32(s, BYTE_BITS) == t
  {
    EightShifts32Unrolled(s);
  }

  lemma ShiftedWords()
    ensures EightShifts32(0x1600_0000) == 0x5697_96C2 && EightShifts32(0x1697_96C2) == 0xC101_54C2
    ensures EightShifts32(0x5601_54C2) == 0x6345_24B5 && EightShifts32(0xF545_24B5) == 0xDB59_2362
    ensures EightShifts32(0x6759_2362) == 0xEBC1_F492
    ensures EightShifts32(0x5697_96C2) == 0xF587_24B5 && EightShifts32(0xF587_24B5) == 0x1959_2362
  {
  }

  /** A byte at the top of the register. */
  function AddByte32(s: bv32, b: Byte): bv32 {
    s ^ Wide8(b)
  }

  lemma AddedWords()
    ensures AddByte32(0x0000_0000, 0x16) == 0x1600_0000 && AddByte32(0x5697_96C2, 0x40) == 0x1697_96C2
    ensures AddByte32(0xC101_54C2, 0x97) == 0x5601_54C2 && AddByte32(0x6345_24B5, 0x96) == 0xF545_24B5
    ensures AddByte32(0xDB59_2362, 0xBC) == 0x6759_2362
    ensures AddByte32(0x5697_96C2, 0x00) == 0x5697_96C2 && AddByte32(0xF587_24B5, 0x00) == 0xF587_24B5
    ensures AddByte32(0x1959_2362, 0x7E) == 0x6759_2362
  {
  }

  lemma WordStep(x: Byte, rest: seq<Byte>, s: bv32, added: bv32, t: bv32)
    requires added == AddByte32(s, x) && t == Shifts32(added, BYTE_BITS)
    ensures Crc32([x] + rest, s) == Crc32(rest, t)
  {
    assert ([x] + rest)[1..] == rest;
  }

  lemma SizeShifts()
    ensures Shifts32(0x1600_0000, BYTE_BITS) == 0x5697_96C2 && Shifts32(0x1697_96C2, BYTE_BITS) == 0xC101_54C2
    ensures Shifts32(0x5601_54C2, BYTE_BITS) == 0x6345_24B5 && Shifts32(0xF545_24B5, BYTE_BITS) == 0xDB59_2362
    ensures Shifts32(0x6759_2362, BYTE_BITS) == 0xEBC1_F492
    ensures Shifts32(0x5697_96C2, BYTE_BITS) == 0xF587_24B5 && Shifts32(0xF587_24B5, BYTE_BITS) == 0x1959_2362
  {
    ShiftedWords();
    Shifted(0x1600_0000, 0x5697_96C2);
    Shifted(0x1697_96C2, 0xC101_54C2);
    Shifted(0x5601_54C2, 0x6345_24B5);
    Shifted(0xF545_24B5, 0xDB59_2362);
    Shifted(0x6759_2362, 0xEBC1_F492);
    Shifted(0x5697_96C2, 0xF587_24B5);
    Shifted(0xF587_24B5, 0x1959_2362);
  }

  lemma LongerCrc()
    ensures Crc32([0x16, 0x40, 0x97, 0x96, 0xBC], 0) == 0xEBC1_F492
  {
    SizeShifts();
    AddedWords();
    assert [0x16, 0x40, 0x97, 0x96, 0xBC] == [0x16] + ([0x40] + ([0x97] + ([0x96] + ([0xBC] + []))));
    WordStep(0x16, [0x40] + ([0x97] + ([0x96] + ([0xBC] + []))), 0x0000_0000, 0x1600_0000, 0x5697_96C2);
    WordStep(0x40, [0x97] + ([0x96] + ([0xBC] + [])), 0x5697_96C2, 0x1697_96C2, 0xC101_54C2);
    WordStep(0x97, [0x96] + ([0xBC] + []), 0xC101_54C2, 0x5601_54C2, 0x6345_24B5);
    WordStep(0x96, [0xBC] + [], 0x6345_24B5, 0xF545_24B5, 0xDB59_2362);
    WordStep(0xBC, [], 0xDB59_2362, 0x6759_2362, 0xEBC1_F492);
  }

  lemma ShorterCrc()
    ensures Crc32([0x16, 0x00, 0x00, 0x7E], 0) == 0xEBC1_F492
  {
    SizeShifts();
    AddedWords();
    assert [0x16, 0x00, 0x00, 0x7E] == [0x16] + ([0x00] + ([0x00] + ([0x7E] + [])));
    WordStep(0x16, [0x00] + ([0x00] + ([0x7E] + [])), 0x0000_0000, 0x1600_0000, 0x5697_96C2);
    WordStep(0x00, [0x00] + ([0x7E] + []), 0x5697_96C2, 0x5697_96C2, 0xF587_24B5);
    WordStep(0x00, [0x7E] + [], 0xF587_24B5, 0xF587_24B5, 0x1959_2362);
    WordStep(0x7E, [], 0x1959_2362, 0x6759_2362, 0xEBC1_F492);
  }

  lemma SizeHeads(z: seq<Byte>)
    requires z == ZeroBytes(MANY)
    ensures Head(SIZE_MSG) == [0x16, 0x40, 0x97, 0x96, 0xBC] + z
    ensures Head(SIZE_OTHER) == [0x16, 0x00, 0x00, 0x7E] + z
  {
    SizeHeaders();
    assert [0x16, 0x40] + ([0x97, 0x96, 0xBC] + z) == [0x16, 0x40, 0x97, 0x96, 0xBC] + z;
    assert [0x16, 0x00] + ([0x00, 0x7E] + z) == [0x16, 0x00, 0x00, 0x7E] + z;
  }

  lemma SizeHeaders()
    ensures LenHigh(89) == 0x16 && LenLow(89) + TypeBits(0x00) == 0x40
    ensures LenHigh(88) == 0x16 && LenLow(88) + TypeBits(0x00) == 0x00
  {
  }

  /** Both bodies go on in the same way, check included. */
  lemma SizeBodies() returns (rest: seq<Byte>)
    ensures Body(SIZE_MSG) == [0x16, 0x40, 0x97, 0x96, 0xBC] + rest
    ensures Body(SIZE_OTHER) == [0x16, 0x00, 0x00, 0x7E] + rest
  {
    var z := ZeroBytes(MANY);
    SizeHeads(z);
    LongerCrc();
    ShorterCrc();
    Crc32Concat([0x16, 0x40, 0x97, 0x96, 0xBC], z, 0);
    Crc32Concat([0x16, 0x00, 0x00, 0x7E], z, 0);
    var t := BigEndian32(Crc32(z, 0xEBC1_F492));
    rest := z + t;
    Parts([0x16, 0x40, 0x97, 0x96, 0xBC], z, t);
    Parts([0x16, 0x00, 0x00, 0x7E], z, t);
  }

  lemma Parts<T>(a: seq<T>, b: seq<T>, c: seq<T>)
    ensures (a + b) + c == a + (b + c)
  {
  }

  lemma LongerStuffed(front: seq<Byte>, rest: seq<Byte>, stuffed: seq<Byte>)
    requires front == [0x16, 0x40, 0x97, 0x96, 0xBC] && stuffed == Stuff(rest)
    ensures Stuff(front + rest) == front + stuffed
  {
    StuffConcat(front, rest);
    StuffPlain(front);
  }

  lemma ShorterStuffed(front: seq<Byte>, rest: seq<Byte>, stuffed: seq<Byte>)
    requires front == [0x16, 0x00, 0x00] && stuffed == Stuff(rest)
    ensures Stuff([0x16, 0x00, 0x00, 0x7E] + rest) == [0x16, 0x00, 0x00, 0x7D, 0x5E] + stuffed
  {
    assert [0x16, 0x00, 0x00, 0x7E] + rest == front + ([0x7E] + rest);
    StuffFirstSpecial(front, 0x7E, rest);
    assert front + ([0x7D, 0x5E] + stuffed) == [0x16, 0x00, 0x00, 0x7D, 0x5E] + stuffed;
  }

  lemma SameKind(b: seq<Byte>)
    requires |b| >= 2 && b[1] == 0x00
    ensures KindKept(SIZE_MSG, b)
  {
  }

  lemma SizeBurst(stuffed: seq<Byte>)
    ensures AlikeOutside([0x16, 0x40, 0x97, 0x96, 0xBC] + stuffed, [0x16, 0x00, 0x00, 0x7D, 0x5E] + stuffed, 1, 4)
  {
  }

  lemma SizeOnWire(w: seq<Byte>)
    requires w == Stuff(Body(SIZE_OTHER))
    ensures WireBurst(SIZE_MSG, w, 1) && KindKept(SIZE_MSG, Body(SIZE_OTHER))
  {
    var rest := SizeBodies();
    var stuffed := Stuff(rest);
    LongerStuffed([0x16, 0x40, 0x97, 0x96, 0xBC], rest, stuffed);
    ShorterStuffed([0x16, 0x00, 0x00], rest, stuffed);
    SizeBurst(stuffed);
    SameKind(Body(SIZE_OTHER));
  }

  lemma OtherDelivered(m: Msg, s: RxState, all: seq<Byte>, registered: set<nat>, r: RxStep)
    requires Sendable(m) && HandlerOf(m.ptype) == Some(0) && 0 in registered
    requires s.pending == [] && all == [MARK] + Stuff(Body(m)) + [MARK] && r == ProcessStep(s, all, registered)
    ensures r.out == Expected(m, registered) != []
  {
    assert s.pending + all == all && all == Frame(m) + [];
    FrameStep(m, [], s, all, registered, r);
  }

  /**
   Whatever the flag, a burst as wide as a CRC-32 may change the length and, with an escape that it makes, the size
   alike, so that another message is delivered.
   */
  lemma SizeDamageDelivered(s: RxState, w: seq<Byte>, all: seq<Byte>, registered: set<nat>, r: RxStep)
    requires s.pending == [] && 0 in registered && w == Stuff(Body(SIZE_OTHER)) && all == [MARK] + w + [MARK]
    requires r == ProcessStep(s, all, registered)
    ensures WireBurst(SIZE_MSG, w, 1)
    ensures Unstuff(w) == Some(Body(SIZE_OTHER)) && KindKept(SIZE_MSG, Body(SIZE_OTHER))
    ensures r.out == Expected(SIZE_OTHER, registered) != []
  {
    SizeOnWire(w);
    UnstuffStuff(Body(SIZE_OTHER));
    StuffLength(Body(SIZE_OTHER));
    OtherDelivered(SIZE_OTHER, s, all, registered, r);
  }

  // ---------- a mark that is made ----------

  const MARK_MSG: Msg := Msg(PRIME_API, [0x00, 0x71, 0x00, 0x70, 0x00])

  /** Its fourth byte becomes a mark. */
  const MARK_WIRE: seq<Byte> := [0x01, 0x70, 0x00, 0x7E, 0x00, 0x70, 0x00, 0x70]

  /** What lies behind that mark is the body of another message. */
  const MARK_REST: seq<Byte> := [0x00, 0x70, 0x00, 0x70]

  lemma MarkSums()
    ensures ByteSum([0x01, 0x70, 0x00, 0x71, 0x00, 0x70, 0x00], 0) == 0x70
    ensures ByteSum([0x00, 0x70, 0x00], 0) == 0x70
  {
    assert [0x01, 0x70, 0x00, 0x71, 0x00, 0x70, 0x00] == [0x01, 0x70, 0x00] + ([0x71, 0x00, 0x70] + ([0x00] + []));
    SumOfThree(0x01, 0x70, 0x00, [0x71, 0x00, 0x70] + ([0x00] + []), 0, 0x01, 0x71, 0x71);
    SumOfThree(0x71, 0x00, 0x70, [0x00] + [], 0x71, 0x00, 0x00, 0x70);
    SumStep(0x00, [], 0x70, 0x70);
    assert [0x00, 0x70, 0x00] == [0x00, 0x70, 0x00] + [];
    SumOfThree(0x00, 0x70, 0x00, [], 0, 0x00, 0x70, 0x70);
  }

  lemma MarkHead(head: seq<Byte>)
    requires head == Head(MARK_MSG)
    ensures head == [0x01, 0x70, 0x00, 0x71, 0x00, 0x70, 0x00]
  {
  }

  lemma MarkAlike(stuffed: seq<Byte>, w: seq<Byte>)
    requires stuffed == [0x01, 0x70, 0x00, 0x71, 0x00, 0x70, 0x00, 0x70] && w == MARK_WIRE
    ensures AlikeOutside(stuffed, w, 3, 1)
    ensures forall i :: 0 <= i < |stuffed| ==> !Special(stuffed[i])
  {
  }

  lemma MarkFrame(w: seq<Byte>) returns (stuffed: seq<Byte>)
    requires w == MARK_WIRE
    ensures stuffed == Stuff(Body(MARK_MSG)) && AlikeOutside(stuffed, w, 3, 1)
  {
    stuffed := [0x01, 0x70, 0x00, 0x71, 0x00, 0x70, 0x00, 0x70];
    MarkAlike(stuffed, w);
    MarkHead(Head(MARK_MSG));
    MarkSums();
    PlainFrame(MARK_MSG, [0x01, 0x70, 0x00, 0x71, 0x00, 0x70, 0x00], 0x70, stuffed);
  }

  lemma TooShort(w: seq<Byte>)
    requires |w| == 3 && forall i :: 0 <= i < |w| ==> !Special(w[i])
    ensures MARK !in w && !SpanAgrees(w)
  {
    StuffPlain(w);
    UnstuffStuff(w);
  }

  /** With the flag up a span that is refused leaves its second mark in front. */
  lemma Refused(s: RxState, w: seq<Byte>, rest: seq<Byte>, all: seq<Byte>, registered: set<nat>, r: RxStep)
    requires s == RxState([], true) && MARK !in w && !SpanAgrees(w) && all == [] + ([MARK] + (w + ([MARK] + rest)))
    requires r == ProcessStep(s, all, registered)
    ensures r == RxStep(RxState([MARK] + rest, false), [])
  {
    assert s.pending + all == all;
    SpanStep(s, all, [], w, rest, registered, r);
  }

  lemma MarkParts(all: seq<Byte>, front: seq<Byte>, rest: seq<Byte>)
    requires all == [MARK] + MARK_WIRE + [MARK] && front == [0x01, 0x70, 0x00] && rest == MARK_REST + [MARK]
    ensures all == [] + ([MARK] + (front + ([MARK] + rest)))
    ensures forall i :: 0 <= i < |front| ==> !Special(front[i])
  {
  }

  /** The first call finds the bytes before that mark too short, and keeps it. */
  lemma MarkFirst(s: RxState, all: seq<Byte>, rest: seq<Byte>, registered: set<nat>, r: RxStep)
    requires s == RxState([], true) && all == [MARK] + MARK_WIRE + [MARK] && rest == MARK_REST + [MARK]
    requires r == ProcessStep(s, all, registered)
    ensures r == RxStep(RxState([MARK] + rest, false), [])
  {
    MarkParts(all, [0x01, 0x70, 0x00], rest);
    TooShort([0x01, 0x70, 0x00]);
    Refused(s, [0x01, 0x70, 0x00], rest, all, registered, r);
  }

  lemma MarkRest(w: seq<Byte>)
    requires w == MARK_REST
    ensures TypeAt(w) == PRIME_API && DeclaredLen(w) == 1 && CheckAgrees(w, |w|)
    ensures forall i :: 0 <= i < |w| ==> !Special(w[i])
    ensures w[2..3] == [0x00]
  {
    MarkSums();
    SumAgrees(w, [0x00, 0x70, 0x00], [0x70], 0x70);
  }

  lemma MarkSecond(s: RxState, w: seq<Byte>, registered: set<nat>, r: RxStep)
    requires s == RxState([MARK] + w + [MARK], false) && w == MARK_REST && 4 in registered
    requires r == ProcessStep(s, [], registered)
    ensures r.out == [Delivery(4, [0x00])]
  {
    MarkRest(w);
    assert s.pending + [] == s.pending;
    PlainSpanDelivered(w, s, [], s.pending, Sum, 4, registered, r);
  }

  /**
   A burst that makes a mark cuts a frame in two. Even with the flag up, which refuses the first part, the next call
   delivers the second part as a message that was never sent, if it happens to look like one.
   */
  lemma MarkDamageDelivered(s: RxState, w: seq<Byte>, all: seq<Byte>, registered: set<nat>, r: RxStep, next: RxStep)
    requires s == RxState([], true) && 4 in registered && w == MARK_WIRE && all == [MARK] + w + [MARK]
    requires r == ProcessStep(s, all, registered) && next == ProcessStep(r.state, [], registered)
    ensures WireBurst(MARK_MSG, w, 3)
    ensures r.out == [] && next.out == [Delivery(4, [0x00])]
  {
    var stuffed := MarkFrame(w);
    BurstIs(MARK_MSG, stuffed, w, 3);
    MarkFirst(s, all, MARK_REST + [MARK], registered, r);
    assert [MARK] + (MARK_REST + [MARK]) == [MARK] + MARK_REST + [MARK];
    MarkSecond(r.state, MARK_REST, registered, next);
  }
}
