/**
 One call of the receiver, on the bytes that are pending and the flag that asks for the next frame's length to be
 checked, and what it does with frames that the transmitter built.
 */
module Reception {
  import opened Wrappers
  import opened WordBits
  import opened Stuffing
  import opened Framing

  datatype RxState = RxState(pending: seq<Byte>, checkLen: bool)

  datatype RxStep = RxStep(state: RxState, out: seq<Delivery>)

  /** The place of the first mark at or after from, or the length if there is none. */
  function FindMark(s: seq<Byte>, from: nat): (i: nat)
    requires from <= |s|
    ensures from <= i <= |s|
    decreases |s| - from
  {
    if from == |s| || s[from] == MARK then from else FindMark(s, from + 1)
  }

  function ZeroBytes(n: nat): (z: seq<Byte>)
    ensures |z| == n
  {
    seq(n, _ => 0)
  }

  /** Memory from the byte after the first mark on, once what is between the two marks has been decoded in place. */
  function DecodedMemory(all: seq<Byte>, first: nat, last: nat): (mem: seq<Byte>)
    requires first < last < |all|
    ensures DecodedSize(all[first + 1..last]) <= |mem|
  {
    var body := all[first + 1..last];
    var n := DecodedSize(body);
    if n == 0 then all[last..]
    else Unstuff(body).value + ZeroBytes(|body| - n) + all[last..]
  }

  /** A span between two marks is complete: check its length if asked to, deliver it if its check agrees, drop it. */
  function CompleteSpan(all: seq<Byte>, checkLen: bool, first: nat, last: nat, registered: set<nat>): RxStep
    requires first < last < |all|
  {
    var n := DecodedSize(all[first + 1..last]);
    var mem := DecodedMemory(all, first, last);
    if checkLen && !LengthAgrees(mem, n) then RxStep(RxState(all[last..], false), [])
    else
      RxStep(RxState(all[last + 1..], false), if CheckAgrees(mem, n) then Dispatch(mem, registered) else [])
  }

  /** How many of the first two marks are there, and where. */
  datatype Marks = NoMark | OneMark | TwoMarks(first: nat, last: nat)

  function Scan(all: seq<Byte>): (m: Marks)
    ensures m.TwoMarks? ==> m.first < m.last < |all|
  {
    var first := FindMark(all, 0);
    if first == |all| then NoMark
    else
      var last := FindMark(all, first + 1);
      if last == |all| then OneMark else TwoMarks(first, last)
  }

  function ProcessStep(s: RxState, chunk: seq<Byte>, registered: set<nat>): RxStep {
    var all := s.pending + chunk;
    if all == [] then RxStep(s, [])
    else match Scan(all)
      case NoMark => RxStep(RxState([], s.checkLen), [])
      case OneMark => RxStep(RxState(all, true), [])
      case TwoMarks(first, last) => CompleteSpan(all, s.checkLen, first, last, registered)
  }

  // ---------- one frame ----------

  /** What the frame of a message should deliver. */
  function Expected(m: Msg, registered: set<nat>): seq<Delivery>
    requires m.payload != []
  {
    if HandlerOf(m.ptype) == None || HandlerOf(m.ptype).value !in registered then []
    else [Delivery(HandlerOf(m.ptype).value, if m.ptype <= MNGP_LAST then Head(m) else WirePayload(m))]
  }

  /** A message that the transmitter accepts and whose frame fits. */
  ghost predicate Sendable(m: Msg) {
    && m.payload != []
    && ProtocolIndex(m.ptype).Some?
    && |Frame(m)| <= BUFFER_SIZE
  }

  lemma {:induction false} FindMarkIs(s: seq<Byte>, from: nat, at: nat)
    requires from <= at <= |s|
    requires forall i :: from <= i < at ==> s[i] != MARK
    requires at < |s| ==> s[at] == MARK
    ensures FindMark(s, from) == at
    decreases at - from
  {
    if from < at {
      FindMarkIs(s, from + 1, at);
    }
  }

  lemma SpanParts<T>(x: T, body: seq<T>, tail: seq<T>, all: seq<T>)
    requires all == [x] + body + [x] + tail
    ensures |all| == |body| + 2 + |tail| && all[0] == x && all[|body| + 1] == x
    ensures all[1..|body| + 1] == body
    ensures forall i :: 1 <= i < |body| + 1 ==> all[i] == body[i - 1]
  {
  }

  /** A span without marks between two marks. */
  lemma SpanMarks(body: seq<Byte>, tail: seq<Byte>, all: seq<Byte>)
    requires MARK !in body && all == [MARK] + body + [MARK] + tail
    ensures Scan(all) == TwoMarks(0, |body| + 1)
    ensures all[1..|body| + 1] == body
  {
    SpanParts(MARK, body, tail, all);
    FindMarkIs(all, 0, 0);
    FindMarkIs(all, 1, |body| + 1);
  }

  /** Where a frame at the front of the pending bytes begins and ends. */
  lemma FrameMarks(m: Msg, tail: seq<Byte>)
    requires m.payload != []
    ensures Scan(Frame(m) + tail) == TwoMarks(0, |Frame(m)| - 1)
    ensures (Frame(m) + tail)[1..|Frame(m)| - 1] == Stuff(Body(m))
  {
    StuffIsClean(Body(m));
    SpanMarks(Stuff(Body(m)), tail, Frame(m) + tail);
  }

  lemma SendableLength(m: Msg)
    requires Sendable(m)
    ensures |m.payload| < 1024 && |Body(m)| == |m.payload| + 2 + CheckSize(TxCheck(m.ptype)) <= BUFFER_SIZE - 2
  {
    StuffLength(Body(m));
  }

  lemma KnownTypes(t: Byte)
    requires ProtocolIndex(t).Some?
    ensures HandlerOf(t).Some? <==> t != USER_DEFINED && t != INTERNAL
    ensures HandlerOf(t).Some? ==> TypeBits(t) == t && RxCheck(t) == Some(TxCheck(t))
    ensures HandlerOf(t).None? ==> RxCheck(TypeBits(t)) == None
    ensures TypeBits(t) == PRIME_API <==> t == PRIME_API
  {
  }

  lemma ReadLength(t: Byte, n: nat, hi: Byte, lo: Byte, extra: Byte)
    requires ProtocolIndex(t).Some? && TypeBits(lo) == TypeBits(t) && Len(hi, lo) == n % 1024 && n < 1024
    requires t == PRIME_API ==> extra & 0x80 == 0
    ensures Len(hi, lo) == n && HeaderLen(hi, lo, extra) == n
  {
    KnownTypes(t);
  }

  lemma HeaderPair(t: Byte, n: nat, hi: Byte, lo: Byte)
    requires hi == LenHigh(n) && lo == LenLow(n) + TypeBits(t)
    ensures TypeBits(lo) == TypeBits(t) && Len(hi, lo) == n % 1024
  {
    HeaderRoundTrip(n, t);
  }

  /** The header bytes of a message, read back. */
  lemma HeaderBytes(t: Byte, n: nat, hi: Byte, lo: Byte, extra: Byte)
    requires ProtocolIndex(t).Some? && n < 1024 && hi == LenHigh(n) && lo == LenLow(n) + TypeBits(t)
    requires t == PRIME_API ==> extra & 0x80 == 0
    ensures TypeBits(lo) == TypeBits(t) && Len(hi, lo) == n && HeaderLen(hi, lo, extra) == n
  {
    HeaderPair(t, n, hi, lo);
    ReadLength(t, n, hi, lo, extra);
  }

  /** Below 1024 the extra length bit is not used. */
  lemma NoExtraBit(m: Msg)
    requires m.payload != [] && |m.payload| < 1024
    ensures m.ptype == PRIME_API ==> WirePayload(m)[0] & 0x80 == 0
  {
    ExtraBit(LenExtra(|m.payload|), m.payload[0]);
  }

  lemma TopBitCleared(c: Byte)
    ensures 0x00 + CmdBits(c) == c <==> c & 0x80 == 0
  {
  }

  /**
   The payload travels as it was given, but that a PRIME API message loses the top bit of its first byte: that is where
   the extra length bit goes.
   */
  lemma PayloadArrives(m: Msg)
    requires m.payload != [] && |m.payload| < 1024
    ensures WirePayload(m) == m.payload <==> m.ptype != PRIME_API || m.payload[0] & 0x80 == 0
    ensures WirePayload(m)[1..] == m.payload[1..]
  {
    if m.ptype == PRIME_API {
      var first := LenExtra(|m.payload|) + CmdBits(m.payload[0]);
      TopBitCleared(m.payload[0]);
      SameHead(first, m.payload[0], m.payload);
    }
  }

  lemma SameHead<T>(x: T, y: T, s: seq<T>)
    requires s != [] && s[0] == y
    ensures [x] + s[1..] == s <==> x == y
    ensures ([x] + s[1..])[1..] == s[1..]
  {
    assert ([x] + s[1..])[0] == x;
  }

  lemma FirstThree<T>(h: seq<T>, p: seq<T>, t: seq<T>, mem: seq<T>)
    requires |h| == 2 && p != [] && h + p + t <= mem
    ensures |mem| >= 3 && mem[0] == h[0] && mem[1] == h[1] && mem[2] == p[0]
  {
    assert mem[..|h + p + t|] == h + p + t;
    assert mem[0] == (h + p + t)[0] && mem[1] == (h + p + t)[1] && mem[2] == (h + p + t)[2];
  }

  /** The decoded header of a frame, whatever bytes follow. */
  lemma DecodedHeader(m: Msg, mem: seq<Byte>, trailer: seq<Byte>)
    requires Sendable(m) && Head(m) + trailer <= mem
    ensures |mem| >= 3
    ensures TypeAt(mem) == TypeBits(m.ptype)
    ensures DeclaredLen(mem) == |m.payload|
    ensures Len(At(mem, 0), At(mem, 1)) == |m.payload|
  {
    SendableLength(m);
    FirstThree(Header(m), WirePayload(m), trailer, mem);
    NoExtraBit(m);
    HeaderBytes(m.ptype, |m.payload|, mem[0], mem[1], mem[2]);
  }

  lemma WindowIsPrefix(p: seq<Byte>, mem: seq<Byte>)
    requires p <= mem
    ensures Window(mem, |p|) == p
  {
  }

  lemma HeadAndTrailer<T>(head: seq<T>, trailer: seq<T>, mem: seq<T>)
    requires head + trailer <= mem
    ensures head <= mem
    ensures |mem| >= |head| + |trailer| && mem[|head|..|head| + |trailer|] == trailer
  {
    assert mem[..|head + trailer|] == head + trailer;
    assert mem[..|head|] == (head + trailer)[..|head|];
  }

  /** The two tests of the receiver on a head and some trailer: the lengths agree, and the trailer must be the check. */
  lemma HeadWithTrailer(m: Msg, mem: seq<Byte>, trailer: seq<Byte>, size: nat)
    requires Sendable(m) && HandlerOf(m.ptype).Some?
    requires |trailer| == CheckSize(TxCheck(m.ptype)) && Head(m) + trailer <= mem
    requires size == |Head(m)| + |trailer|
    ensures LengthAgrees(mem, size)
    ensures size <= |mem|
    ensures CheckAgrees(mem, size) <==> trailer == CheckBytes(TxCheck(m.ptype), Head(m))
  {
    var c, head := TxCheck(m.ptype), Head(m);
    DecodedHeader(m, mem, trailer);
    KnownTypes(m.ptype);
    HeadAndTrailer(head, trailer, mem);
    WindowIsPrefix(head, mem);
    LengthIs(mem, size, c, |m.payload|);
    CheckIs(mem, size, c, trailer, CheckBytes(c, head));
  }

  lemma LengthIs(mem: seq<Byte>, size: nat, c: Check, len: nat)
    requires RxCheck(TypeAt(mem)) == Some(c) && DeclaredLen(mem) == len > 0
    requires size == len + 2 + CheckSize(c)
    ensures LengthAgrees(mem, size)
  {
  }

  lemma CheckIs(mem: seq<Byte>, size: nat, c: Check, trailer: seq<Byte>, check: seq<Byte>)
    requires 4 <= size <= |mem| && CheckSize(c) <= size
    requires Len(At(mem, 0), At(mem, 1)) != 0
    requires RxCheck(TypeAt(mem)) == Some(c)
    requires trailer == mem[size - CheckSize(c)..size]
    requires check == CheckBytes(c, Window(mem, DeclaredLen(mem) + 2))
    ensures CheckAgrees(mem, size) <==> trailer == check
  {
  }

  lemma UnknownType(m: Msg, mem: seq<Byte>, trailer: seq<Byte>, size: nat)
    requires Sendable(m) && HandlerOf(m.ptype).None? && Head(m) + trailer <= mem && size <= |mem|
    ensures !LengthAgrees(mem, size) && !CheckAgrees(mem, size)
  {
    DecodedHeader(m, mem, trailer);
    KnownTypes(m.ptype);
  }

  lemma IntactDispatch(m: Msg, mem: seq<Byte>, trailer: seq<Byte>, registered: set<nat>)
    requires Sendable(m) && Head(m) + trailer <= mem && HandlerOf(m.ptype).Some?
    ensures Dispatch(mem, registered) == Expected(m, registered)
  {
    var head := Head(m);
    DecodedHeader(m, mem, trailer);
    KnownTypes(m.ptype);
    HeadAndTrailer(head, trailer, mem);
    WindowIsPrefix(head, mem);
    DataOf(Header(m), WirePayload(m), head);
    DispatchIs(mem, registered, m.ptype, |m.payload|, head);
  }

  lemma DataOf<T>(h: seq<T>, p: seq<T>, head: seq<T>)
    requires |h| == 2 && head == h + p
    ensures head[0..] == head && head[2..] == p
  {
  }

  lemma DispatchIs(mem: seq<Byte>, registered: set<nat>, t: Byte, len: nat, head: seq<Byte>)
    requires TypeAt(mem) == t && DeclaredLen(mem) == len > 0 && HandlerOf(t).Some?
    requires head == Window(mem, len + 2)
    ensures Dispatch(mem, registered) ==
              if HandlerOf(t).value in registered
              then [Delivery(HandlerOf(t).value, head[if t <= MNGP_LAST then 0 else 2..])]
              else []
  {
  }

  /** A complete span that decodes to a message's head and check. */
  lemma IntactSpan(m: Msg, all: seq<Byte>, checkLen: bool, last: nat, mem: seq<Byte>, registered: set<nat>, c: RxStep)
    requires Sendable(m) && 0 < last < |all|
    requires DecodedSize(all[1..last]) == |Body(m)|
    requires mem == DecodedMemory(all, 0, last) && Body(m) <= mem
    requires c == CompleteSpan(all, checkLen, 0, last, registered)
    ensures c.out == Expected(m, registered)
    ensures c.state == RxState(if HandlerOf(m.ptype).Some? || !checkLen then all[last + 1..] else all[last..], false)
  {
    var trailer := CheckBytes(TxCheck(m.ptype), Head(m));
    if HandlerOf(m.ptype).Some? {
      HeadWithTrailer(m, mem, trailer, |Body(m)|);
      IntactDispatch(m, mem, trailer, registered);
    } else {
      UnknownType(m, mem, trailer, |Body(m)|);
    }
  }

  lemma FrameDecodes(m: Msg, tail: seq<Byte>, all: seq<Byte>, last: nat, mem: seq<Byte>)
    requires m.payload != [] && all == Frame(m) + tail && last == |Frame(m)| - 1
    requires mem == DecodedMemory(all, 0, last)
    ensures DecodedSize(all[1..last]) == |Body(m)|
    ensures Body(m) <= mem
  {
    FrameMarks(m, tail);
    UnstuffStuff(Body(m));
    StuffLength(Body(m));
  }

  /**
   One call with a whole frame in front. A type that the receiver knows is delivered and the frame is taken off, whatever
   the flag. A type that it does not know is never delivered, and is taken off whole only while the flag is down.
   */
  lemma FrameStep(m: Msg, tail: seq<Byte>, s: RxState, chunk: seq<Byte>, registered: set<nat>, r: RxStep)
    requires Sendable(m) && s.pending + chunk == Frame(m) + tail
    requires r == ProcessStep(s, chunk, registered)
    ensures r.out == Expected(m, registered)
    ensures r.state == RxState(if HandlerOf(m.ptype).Some? || !s.checkLen then tail else [MARK] + tail, false)
  {
    var all, last := s.pending + chunk, |Frame(m)| - 1;
    FrameMarks(m, tail);
    var c := CompleteSpan(all, s.checkLen, 0, last, registered);
    SpanFound(s, chunk, registered, all, 0, last, r, c);
    var mem := DecodedMemory(all, 0, last);
    FrameDecodes(m, tail, all, last, mem);
    IntactSpan(m, all, s.checkLen, last, mem, registered, c);
    FrameEnds(m, tail);
  }

  lemma SpanFound(s: RxState, chunk: seq<Byte>, registered: set<nat>, all: seq<Byte>, first: nat, last: nat,
                  r: RxStep, c: RxStep)
    requires all == s.pending + chunk && first < last < |all|
    requires Scan(all) == TwoMarks(first, last)
    requires r == ProcessStep(s, chunk, registered)
    requires c == CompleteSpan(all, s.checkLen, first, last, registered)
    ensures r == c
  {
  }

  lemma FrameEnds(m: Msg, tail: seq<Byte>)
    requires m.payload != []
    ensures (Frame(m) + tail)[|Frame(m)|..] == tail
    ensures (Frame(m) + tail)[|Frame(m)| - 1..] == [MARK] + tail
  {
  }
}
