/**
 The protocol types of the link, written out: what the transmitter answers for each message, and whose handler is called
 for a frame.
 */
module Protocols {
  import opened Wrappers
  import opened WordBits
  import opened Stuffing
  import opened Framing
  import opened Reception
  import opened Reassembly
  import opened Transmission

  /** A message of one of these types is sent. */
  predicate AcceptedType(t: Byte) {
    t in {0x00, 0x01, 0x02, 0x03, 0x04, 0x05, 0x06, 0x07, 0x13, 0x22, 0x30, 0x3F, 0xFE}
  }

  /** A frame of one of these types can be delivered. */
  predicate DeliveredType(t: Byte) {
    t in {0x00, 0x01, 0x02, 0x03, 0x04, 0x05, 0x06, 0x07, 0x13, 0x22, 0x30}
  }

  /** The types of the management protocol share one handler. */
  predicate SameProtocol(t: Byte, u: Byte) {
    t == u || (t <= 0x07 && u <= 0x07)
  }

  lemma SmallTypes(t: Byte)
    ensures t <= 0x07 <==> t in {0x00, 0x01, 0x02, 0x03, 0x04, 0x05, 0x06, 0x07}
  {
  }

  lemma RowOfType(t: Byte)
    ensures ProtocolIndex(t).Some? <==> AcceptedType(t)
    ensures HandlerOf(t).Some? <==> DeliveredType(t)
    ensures HandlerOf(t).Some? ==> HandlerOf(t) == ProtocolIndex(t)
  {
    SmallTypes(t);
  }

  /** Types have the same row exactly if they belong to the same protocol. */
  lemma SameRow(t: Byte, u: Byte)
    requires AcceptedType(t) && AcceptedType(u)
    ensures ProtocolIndex(t) == ProtocolIndex(u) <==> SameProtocol(t, u)
  {
    SmallTypes(t);
    SmallTypes(u);
  }

  // ---------- what the transmitter answers ----------

  /** How many bytes need an escape. */
  function Escapes(s: seq<Byte>): nat {
    if s == [] then 0 else (if s[0] == 0x7E || s[0] == 0x7D then 1 else 0) + Escapes(s[1..])
  }

  lemma {:induction false} StuffedSize(s: seq<Byte>)
    ensures |Stuff(s)| == |s| + Escapes(s)
    decreases |s|
  {
    if s != [] {
      StuffedSize(s[1..]);
    }
  }

  lemma CheckOf(t: Byte)
    ensures CheckSize(TxCheck(t)) == if t <= 0x07 then 4 else if t in {0x13, 0x22, 0xFE} then 2 else 1
  {
  }

  lemma FrameSize(m: Msg)
    requires m.payload != []
    ensures |Frame(m)| ==
              |m.payload| + 4 + (if m.ptype <= 0x07 then 4 else if m.ptype in {0x13, 0x22, 0xFE} then 2 else 1)
              + Escapes(Body(m))
  {
    CheckOf(m.ptype);
    StuffedSize(Body(m));
  }

  /** Whatever the device takes: the exact conditions under which a message is refused. */
  lemma RefusedIff(m: Msg, writes: seq<int>, status: Status)
    requires WritesFor(m, writes) && status == Transmit(m, writes).status
    ensures status == FormatError <==> m.payload == []
    ensures status == ProtocolNotFound <==> m.payload != [] && !AcceptedType(m.ptype)
    ensures status == RxBufferOverflow <==> m.payload != [] && AcceptedType(m.ptype) && |m.payload| + 5 > 1000
    ensures status == TxBufferOverflow <==>
              m.payload != [] && AcceptedType(m.ptype) && |m.payload| + 5 <= 1000 && |Frame(m)| > 1000
  {
    RowOfType(m.ptype);
    if m.payload != [] {
      WriteStatus(Frame(m), |Frame(m)|, writes);
    }
  }

  /** A device that takes frames whole: what is accepted is sent if the device takes it. */
  lemma SentIff(c: SendCall, r: Sent<Byte>)
    requires Whole(c) && r == Transmit(c.m, c.writes)
    ensures r.status == OK <==>
              && c.m.payload != [] && AcceptedType(c.m.ptype) && |Frame(c.m)| <= 1000
              && c.writes != [] && c.writes[0] > 0
    ensures r.status == UartError <==>
              && c.m.payload != [] && AcceptedType(c.m.ptype) && |Frame(c.m)| <= 1000
              && (c.writes == [] || c.writes[0] <= 0)
  {
    RowOfType(c.m.ptype);
    RefusedIff(c.m, c.writes, r.status);
    WholeWrite(c, r);
    if c.m.payload != [] {
      OverflowOf(c.m, c.writes);
    }
  }

  lemma OverflowOf(m: Msg, writes: seq<int>)
    requires m.payload != [] && WritesFor(m, writes)
    ensures AcceptedType(m.ptype) && |Frame(m)| <= 1000 ==> |m.payload| + 5 <= 1000
  {
    RowOfType(m.ptype);
    if AcceptedType(m.ptype) {
      OverflowIffTooLong(m, writes);
    }
  }

  /** The tests before anything is built refuse what a whole call would. */
  lemma RefusalIs(m: Msg, writes: seq<int>, status: Status)
    requires WritesFor(m, writes) && status == Transmit(m, writes).status
    ensures Refusal(m, 0) == if status in {FormatError, ProtocolNotFound, RxBufferOverflow} then Some(status) else None
  {
    if m.payload != [] {
      WriteStatus(Frame(m), |Frame(m)|, writes);
    }
  }

  /** An index that an error left behind only takes room away, and one above the size of the buffer wraps round. */
  lemma RefusalBehind(m: Msg, idx: nat)
    requires idx < 65536
    ensures Refusal(m, idx) == Some(FormatError) <==> m.payload == []
    ensures Refusal(m, idx) == Some(ProtocolNotFound) <==> m.payload != [] && !AcceptedType(m.ptype)
    ensures Refusal(m, idx) == Some(RxBufferOverflow) <==>
              && m.payload != [] && AcceptedType(m.ptype)
              && |m.payload| + 5 > if idx <= 1000 then 1000 - idx else 65536 + 1000 - idx
  {
    RowOfType(m.ptype);
  }

  // ---------- whose handler is called ----------

  /** The rows with a handler after the calls, from none. */
  function RegisteredAfter(calls: seq<Callback>): set<nat>
    decreases |calls|
  {
    if calls == [] then {}
    else Register(RegisteredAfter(calls[..|calls| - 1]), calls[|calls| - 1])
  }

  /** The last call for a type's protocol, if there was one, set a handler. */
  predicate Listening(t: Byte, calls: seq<Callback>)
    decreases |calls|
  {
    calls != [] &&
    var last := calls[|calls| - 1];
    if SameProtocol(last.t, t) then last.present else Listening(t, calls[..|calls| - 1])
  }

  lemma {:induction false} ListeningIff(t: Byte, calls: seq<Callback>)
    requires DeliveredType(t)
    ensures HandlerOf(t).Some? && (HandlerOf(t).value in RegisteredAfter(calls) <==> Listening(t, calls))
    decreases |calls|
  {
    RowOfType(t);
    if calls != [] {
      var last := calls[|calls| - 1];
      ListeningIff(t, calls[..|calls| - 1]);
      RowOfType(last.t);
      LastCall(t, last);
    }
  }

  lemma LastCall(t: Byte, c: Callback)
    requires DeliveredType(t)
    ensures ProtocolIndex(t).Some?
    ensures SameProtocol(c.t, t) ==> ProtocolIndex(c.t) == ProtocolIndex(t)
    ensures !SameProtocol(c.t, t) ==> ProtocolIndex(c.t) != ProtocolIndex(t)
  {
    RowOfType(t);
    RowOfType(c.t);
    SmallTypes(t);
    SmallTypes(c.t);
    if ProtocolIndex(c.t).Some? {
      SameRow(c.t, t);
    }
  }

  /** What the frame of a message delivers, by the calls that set the handlers. */
  lemma ExpectedIs(m: Msg, calls: seq<Callback>)
    requires m.payload != []
    ensures DeliveredType(m.ptype) && Listening(m.ptype, calls) ==>
              && ProtocolIndex(m.ptype).Some?
              && Expected(m, RegisteredAfter(calls)) ==
                 [Delivery(ProtocolIndex(m.ptype).value,
                           if m.ptype <= 0x07 then Header(m) + WirePayload(m) else WirePayload(m))]
    ensures !(DeliveredType(m.ptype) && Listening(m.ptype, calls)) ==> Expected(m, RegisteredAfter(calls)) == []
  {
    RowOfType(m.ptype);
    if DeliveredType(m.ptype) {
      ListeningIff(m.ptype, calls);
    }
  }

  /**
   From registration to delivery: a frame in front of the receiver is delivered exactly if its type is one that can be and the
   last call for its protocol set a handler; and it is that protocol's row whose handler is called.
   */
  lemma DeliveredIff(m: Msg, tail: seq<Byte>, s: RxState, chunk: seq<Byte>, calls: seq<Callback>, r: RxStep)
    requires Sendable(m) && s.pending + chunk == Frame(m) + tail
    requires r == ProcessStep(s, chunk, RegisteredAfter(calls))
    ensures r.out != [] <==> DeliveredType(m.ptype) && Listening(m.ptype, calls)
    ensures r.out != [] ==> ProtocolIndex(m.ptype) == Some(r.out[0].handler)
  {
    FrameStep(m, tail, s, chunk, RegisteredAfter(calls), r);
    ExpectedIs(m, calls);
  }

  /** Where only one type was registered, the frames of its protocol are delivered and no others. */
  lemma OnlyOneRegistered(m: Msg, tail: seq<Byte>, s: RxState, chunk: seq<Byte>, u: Byte, r: RxStep)
    requires Sendable(m) && DeliveredType(m.ptype) && s.pending + chunk == Frame(m) + tail
    requires r == ProcessStep(s, chunk, Register({}, Callback(u, true)))
    ensures r.out != [] <==> SameProtocol(m.ptype, u)
  {
    var calls := [Callback(u, true)];
    assert calls[..|calls| - 1] == [];
    assert RegisteredAfter([]) == {};
    DeliveredIff(m, tail, s, chunk, calls, r);
  }
}
