/** The transmitter: it builds each frame in its buffer, stuffs it there, and offers it to the device. */
module Transmitter {
  import opened Seqs
  import opened WordBits
  import opened Pcrc
  import opened Stuffing
  import opened StuffingLoops
  import opened Framing
  import opened Checks
  import opened Transmission
  import opened Protocols

  /** The largest payload with the largest check is stored before it is found not to fit. */
  const OVERRUN: nat := 2

  class UsiTx {
    const buf: array<Byte>
    var idxIn: nat

    predicate Valid()
      reads this
    {
      buf.Length == BUFFER_SIZE + OVERRUN && idxIn < WORD
    }

    constructor ()
      ensures Valid() && idxIn == 0 && fresh(buf)
    {
      buf := new Byte[BUFFER_SIZE + OVERRUN](_ => 0);
      idxIn := 0;
    }

    /**
     Sends a message; afterwards the state is that of the specification, whatever the device said. With an index that an
     error has left behind only a call that is refused stays within the buffer; it changes nothing.
     */
    method Send(m: Msg, writes: seq<int>) returns (status: Status, wire: seq<Byte>)
      requires Valid() && WritesFor(m, writes)
      requires idxIn == 0 || Refusal(m, idxIn).Some?
      modifies this`idxIn, buf
      ensures Valid()
      ensures old(idxIn) == 0 ==> Sent(status, wire, idxIn) == Transmit(m, writes)
      ensures status == FormatError <==> m.payload == []
      ensures status == ProtocolNotFound <==> m.payload != [] && !AcceptedType(m.ptype)
      ensures Refusal(m, old(idxIn)).Some? ==>
                status == Refusal(m, old(idxIn)).value && wire == [] && idxIn == old(idxIn) && buf[..] == old(buf[..])
    {
      RefusedIff(m, writes, Transmit(m, writes).status);
      RefusalBehind(m, idxIn);
      if m.payload == [] {
        return FormatError, [];
      }
      if ProtocolIndex(m.ptype).None? {
        return ProtocolNotFound, [];
      }
      if (BUFFER_SIZE - idxIn) % WORD < |m.payload| + MIN_OVERHEAD {
        return RxBufferOverflow, [];
      }
      var ok, n := Encode(m);
      if !ok {
        return TxBufferOverflow, [];
      }
      idxIn := n;
      status, wire := WriteOut(n, writes);
    }

    /** The stuffed frame in the buffer, if there is room for it. */
    method Encode(m: Msg) returns (ok: bool, n: nat)
      requires Valid() && m.payload != [] && |m.payload| + MIN_OVERHEAD <= BUFFER_SIZE
      modifies buf
      ensures ok <==> |Frame(m)| <= BUFFER_SIZE
      ensures ok ==> n == |Frame(m)| && buf[..n] == Frame(m)
    {
      var len := StoreBody(m);
      StuffLength(Body(m));
      if len + 2 > BUFFER_SIZE {
        return false, 0;
      }
      var end;
      ok, end := StuffInPlace(buf, len, BUFFER_SIZE);
      if !ok {
        return false, 0;
      }
      buf[end] := MARK;
      n := end + 1;
      FrameInBuffer(buf[..n], Stuff(Body(m)));
    }

    /** The opening mark and the body as it is before stuffing. */
    method StoreBody(m: Msg) returns (len: nat)
      requires Valid() && m.payload != [] && |m.payload| + MIN_OVERHEAD <= BUFFER_SIZE
      modifies buf
      ensures len == |Body(m)| < buf.Length
      ensures buf[0] == MARK && buf[1..1 + len] == Body(m)
    {
      StoreHead(m);
      len := StoreCheck(|m.payload| + 2, TxCheck(m.ptype), Head(m));
    }

    /** The check of the n bytes after the opening mark. */
    method StoreCheck(n: nat, c: Check, ghost head: seq<Byte>) returns (len: nat)
      requires 1 + n + CheckSize(c) <= buf.Length && head == buf[1..1 + n]
      modifies buf
      ensures len == n + CheckSize(c)
      ensures buf[0] == old(buf[0]) && buf[1..1 + len] == head + CheckBytes(c, head)
    {
      var crc := CalcUsi(buf, 1, n, CrcType(c));
      TrailerIsCheck(c, head, crc);
      CopyIn(1 + n, NumberBytes(c, crc));
      len := n + CheckSize(c);
      assert buf[1..1 + n] == head;
      Join(buf[..], 1, 1 + n, 1 + len);
    }

    /** The opening mark, the header, and the payload with the extra length bit where it belongs. */
    method StoreHead(m: Msg)
      requires Valid() && m.payload != [] && |m.payload| + MIN_OVERHEAD <= BUFFER_SIZE
      modifies buf
      ensures buf[0] == MARK && buf[1..1 + (|m.payload| + 2)] == Head(m)
    {
      var len := |m.payload|;
      buf[0] := MARK;
      buf[1] := LenHigh(len);
      buf[2] := LenLow(len) + TypeBits(m.ptype);
      assert buf[1..3] == Header(m);
      StorePayload(m);
      assert buf[0] == buf[..3][0] && buf[1..3] == buf[..3][1..];
      Join(buf[..], 1, 3, 3 + len);
    }

    method StorePayload(m: Msg)
      requires Valid() && m.payload != [] && |m.payload| + MIN_OVERHEAD <= BUFFER_SIZE
      modifies buf
      ensures buf[..3] == old(buf[..3])
      ensures buf[3..3 + |m.payload|] == WirePayload(m)
    {
      CopyIn(3, m.payload);
      if m.ptype == PRIME_API {
        buf[3] := LenExtra(|m.payload|) + CmdBits(m.payload[0]);
      }
    }

    method CopyIn(at: nat, t: seq<Byte>)
      requires at + |t| <= buf.Length
      modifies buf
      ensures buf[at..at + |t|] == t
      ensures forall k :: 0 <= k < buf.Length && !(at <= k < at + |t|) ==> buf[k] == old(buf[k])
    {
      for i := 0 to |t|
        invariant buf[at..at + i] == t[..i]
        invariant forall k :: 0 <= k < buf.Length && !(at <= k < at + i) ==> buf[k] == old(buf[k])
      {
        buf[at + i] := t[i];
      }
    }

    /** Offers the frame until the index is down to zero; each write starts at the front of the buffer again. */
    method WriteOut(n: nat, writes: seq<int>) returns (status: Status, wire: seq<Byte>)
      requires Valid() && n <= buf.Length && forall i :: 0 <= i < |writes| ==> writes[i] <= n
      modifies this`idxIn
      ensures Valid()
      ensures Sent(status, wire, idxIn) == WriteAll(buf[..n], old(idxIn), writes)
    {
      wire := [];
      var next := 0;
      var frame := buf[..n];
      ghost var goal := WriteAll(frame, idxIn, writes);
      WriteFirst(frame, idxIn, writes, goal);
      while idxIn != 0
        invariant Valid() && 0 <= next <= |writes| && frame == buf[..n]
        invariant WritesLeft(frame, idxIn, writes, next, wire, goal)
        decreases |writes| - next
      {
        WriteNext(frame, idxIn, writes, next, wire, goal);
        if next == |writes| || writes[next] <= 0 {
          idxIn := (idxIn - n) % WORD;
          return UartError, wire;
        }
        wire := wire + frame[..writes[next]];
        idxIn := (idxIn - writes[next]) % WORD;
        next := next + 1;
      }
      WritesDone(frame, writes, next, wire, goal);
      return OK, wire;
    }
  }

  lemma FrameInBuffer(b: seq<Byte>, body: seq<Byte>)
    requires |b| == |body| + 2 && b[0] == MARK && b[1..|b| - 1] == body && b[|b| - 1] == MARK
    ensures b == [MARK] + body + [MARK]
  {
  }

  /** The writes still to come, after those on the wire, make up the whole of them. */
  ghost predicate WritesLeft<T>(f: seq<T>, idx: nat, writes: seq<int>, next: nat, wire: seq<T>, goal: Sent<T>)
    requires next <= |writes| && forall i :: 0 <= i < |writes| ==> writes[i] <= |f|
  {
    var r := WriteAll(f, idx, writes[next..]);
    goal == Sent(r.status, wire + r.wire, r.idx)
  }

  lemma WriteNext<T>(f: seq<T>, idx: nat, writes: seq<int>, next: nat, wire: seq<T>, goal: Sent<T>)
    requires next <= |writes| && forall i :: 0 <= i < |writes| ==> writes[i] <= |f|
    requires idx != 0 && WritesLeft(f, idx, writes, next, wire, goal)
    ensures next == |writes| || writes[next] <= 0 ==> goal == Sent(UartError, wire, (idx - |f|) % WORD)
    ensures next < |writes| && writes[next] > 0 ==>
              WritesLeft(f, (idx - writes[next]) % WORD, writes, next + 1, wire + f[..writes[next]], goal)
  {
    if next == |writes| || writes[next] <= 0 {
      assert wire + [] == wire;
    } else {
      var rest := WriteAll(f, (idx - writes[next]) % WORD, writes[next + 1..]);
      assert writes[next..][1..] == writes[next + 1..];
      assert wire + (f[..writes[next]] + rest.wire) == wire + f[..writes[next]] + rest.wire;
    }
  }

  lemma WriteFirst<T>(f: seq<T>, idx: nat, writes: seq<int>, goal: Sent<T>)
    requires forall i :: 0 <= i < |writes| ==> writes[i] <= |f|
    requires goal == WriteAll(f, idx, writes)
    ensures WritesLeft(f, idx, writes, 0, [], goal)
  {
    assert writes[0..] == writes && [] + goal.wire == goal.wire;
  }

  lemma WritesDone<T>(f: seq<T>, writes: seq<int>, next: nat, wire: seq<T>, goal: Sent<T>)
    requires next <= |writes| && forall i :: 0 <= i < |writes| ==> writes[i] <= |f|
    requires WritesLeft(f, 0, writes, next, wire, goal)
    ensures goal == Sent(OK, wire, 0)
  {
    assert wire + [] == wire;
  }
}
