/**
 What one call of the transmitter puts on the wire, given what the device says to each write, and what whole runs of
 such calls put there.
 */
module Transmission {
  import opened Wrappers
  import opened WordBits
  import opened Stuffing
  import opened Framing
  import opened Reception
  import opened Reassembly

  datatype Status = OK | FormatError | ProtocolNotFound | RxBufferOverflow | TxBufferOverflow | UartError

  /** The result of a call, the bytes that the device took, and the index that stays behind. */
  datatype Sent<T> = Sent(status: Status, wire: seq<T>, idx: nat)

  const WORD: nat := 0x1_0000

  /**
   The write loop. Each write offers the whole frame again and takes a first part of it; zero or less is an error, and so
   is a write that never comes back. The index is sixteen bits wide.
   */
  function WriteAll<T>(frame: seq<T>, idx: nat, writes: seq<int>): (r: Sent<T>)
    requires forall i :: 0 <= i < |writes| ==> writes[i] <= |frame|
    decreases |writes|
  {
    if idx == 0 then Sent(OK, [], 0)
    else if writes == [] || writes[0] <= 0 then Sent(UartError, [], (idx - |frame|) % WORD)
    else
      var rest := WriteAll(frame, (idx - writes[0]) % WORD, writes[1..]);
      Sent(rest.status, frame[..writes[0]] + rest.wire, rest.idx)
  }

  /** The device never takes more than it is offered. */
  ghost predicate WritesFor(m: Msg, writes: seq<int>) {
    m.payload != [] ==> forall i :: 0 <= i < |writes| ==> writes[i] <= |Frame(m)|
  }

  function Transmit(m: Msg, writes: seq<int>): Sent<Byte>
    requires WritesFor(m, writes)
  {
    if m.payload == [] then Sent(FormatError, [], 0)
    else if ProtocolIndex(m.ptype).None? then Sent(ProtocolNotFound, [], 0)
    else if |m.payload| + MIN_OVERHEAD > BUFFER_SIZE then Sent(RxBufferOverflow, [], 0)
    else if |Frame(m)| > BUFFER_SIZE then Sent(TxBufferOverflow, [], 0)
    else WriteAll(Frame(m), |Frame(m)|, writes)
  }

  /** The tests before anything is built, in sixteen bits, for whatever index an earlier call left behind. */
  function Refusal(m: Msg, idx: nat): Option<Status> {
    if m.payload == [] then Some(FormatError)
    else if ProtocolIndex(m.ptype).None? then Some(ProtocolNotFound)
    else if (BUFFER_SIZE - idx) % WORD < |m.payload| + MIN_OVERHEAD then Some(RxBufferOverflow)
    else None
  }

  /** A call fails for want of room exactly when the frame of a proper message does not fit. */
  lemma OverflowIffTooLong(m: Msg, writes: seq<int>)
    requires WritesFor(m, writes) && m.payload != [] && ProtocolIndex(m.ptype).Some?
    ensures Transmit(m, writes).status in {RxBufferOverflow, TxBufferOverflow} <==> |Frame(m)| > BUFFER_SIZE
    ensures |m.payload| + MIN_OVERHEAD > BUFFER_SIZE ==> |Frame(m)| > BUFFER_SIZE
  {
    StuffLength(Body(m));
    WriteStatus(Frame(m), |Frame(m)|, writes);
  }

  lemma {:induction false} WriteStatus<T>(frame: seq<T>, idx: nat, writes: seq<int>)
    requires forall i :: 0 <= i < |writes| ==> writes[i] <= |frame|
    ensures WriteAll(frame, idx, writes).status in {OK, UartError}
    decreases |writes|
  {
    if idx != 0 && writes != [] && writes[0] > 0 {
      WriteStatus(frame, (idx - writes[0]) % WORD, writes[1..]);
    }
  }

  lemma SubMod(a: int, b: int)
    ensures ((a % WORD) - b) % WORD == (a - b) % WORD
  {
    assert a == a / WORD * WORD + a % WORD;
    ModPlus(a % WORD - b, a / WORD);
  }

  lemma ModPlus(a: int, k: int)
    ensures (a + k * WORD) % WORD == a % WORD
  {
  }

  /** The loop succeeds when the bytes taken come to the frame's length, modulo 2^16; otherwise the rest stays behind. */
  lemma {:induction false} WriteTotals<T>(frame: seq<T>, idx: nat, writes: seq<int>, r: Sent<T>)
    requires idx < WORD && forall i :: 0 <= i < |writes| ==> writes[i] <= |frame|
    requires r == WriteAll(frame, idx, writes)
    ensures r.status == OK ==> |r.wire| % WORD == idx && r.idx == 0
    ensures r.status != OK ==> r.idx == (idx - |r.wire| - |frame|) % WORD
    decreases |writes|
  {
    if idx != 0 && writes != [] && writes[0] > 0 {
      var w := writes[0];
      var idx' := (idx - w) % WORD;
      var rest := WriteAll(frame, idx', writes[1..]);
      WriteTotals(frame, idx', writes[1..], rest);
      assert |r.wire| == w + |rest.wire|;
      if rest.status == OK {
        WrappedSum(idx, w, |rest.wire|);
      } else {
        SubMod(idx - w, |rest.wire| + |frame|);
      }
    }
  }

  lemma WrappedSum(idx: nat, w: nat, rest: nat)
    requires idx < WORD && rest % WORD == (idx - w) % WORD
    ensures (w + rest) % WORD == idx
  {
    var q, p := rest / WORD, (idx - w) / WORD;
    assert rest == q * WORD + rest % WORD && idx - w == p * WORD + (idx - w) % WORD;
    ModPlus(idx, q - p);
  }

  /** After an error the index is back at zero exactly when the bytes taken come to a multiple of 2^16. */
  lemma IndexAfterError(m: Msg, writes: seq<int>, r: Sent<Byte>)
    requires WritesFor(m, writes) && r == Transmit(m, writes) && r.status == UartError
    ensures r.idx == 0 <==> |r.wire| % WORD == 0
  {
    WriteTotals(Frame(m), |Frame(m)|, writes, r);
    NegMod(|r.wire|, |Frame(m)| - |r.wire| - |Frame(m)|);
  }

  lemma NegMod(n: int, m: int)
    requires m == -n
    ensures m % WORD == 0 <==> n % WORD == 0
  {
    var p, q := m / WORD, n / WORD;
    assert m == p * WORD + m % WORD && n == q * WORD + n % WORD;
    if (-n) % WORD == 0 {
      ModPlus(0, -p);
    }
    if n % WORD == 0 {
      ModPlus(0, -q);
    }
  }

  /**
   Starting over after a partial write is only harmless when nothing but the closing mark was left. The wire carries
   exactly the frame if and only if the first write takes all of it, or all but one byte and the next write takes one.
   */
  lemma FrameSentIff(m: Msg, writes: seq<int>, r: Sent<Byte>)
    requires WritesFor(m, writes) && Sendable(m) && r == Transmit(m, writes)
    ensures r.status == OK && r.wire == Frame(m) <==>
              || (writes != [] && writes[0] == |Frame(m)|)
              || (|writes| >= 2 && writes[0] == |Frame(m)| - 1 && writes[1] == 1)
  {
    var f, body := Frame(m), Stuff(Body(m));
    SendableLength(m);
    StuffIsClean(Body(m));
    StuffLength(Body(m));
    assert r == WriteAll(f, |f|, writes);
    FrameMarksEnds(f, body);
    WireIff(f, writes, r, r.status == OK && r.wire == f);
  }

  /** The first byte comes again at the end only. */
  ghost predicate MarksEndsOnly<T>(f: seq<T>) {
    f != [] && forall k :: 0 < k < |f| ==> (f[k] == f[0] <==> k == |f| - 1)
  }

  lemma FrameMarksEnds(f: seq<Byte>, body: seq<Byte>)
    requires f == [MARK] + body + [MARK] && MARK !in body
    ensures MarksEndsOnly(f)
  {
    assert forall k :: 0 < k < |f| - 1 ==> f[k] == body[k - 1];
  }

  lemma StartedOver<T>(f: seq<T>, k: nat, j: nat, more: seq<T>)
    requires 0 < k < |f| && 0 < j <= |f|
    ensures f == f[..k] + (f[..j] + more) ==> f[k] == f[0] && j <= |f| - k
    ensures k == |f| - 1 && j == 1 && more == [] && f[k] == f[0] ==> f == f[..k] + (f[..j] + more)
  {
    var all := f[..k] + (f[..j] + more);
    assert all[k] == f[0] && |all| == k + j + |more|;
  }

  lemma WriteOnce<T>(f: seq<T>, idx: nat, writes: seq<int>, r: Sent<T>) returns (rest: Sent<T>)
    requires forall i :: 0 <= i < |writes| ==> writes[i] <= |f|
    requires writes != [] && 0 < writes[0] <= idx < WORD && r == WriteAll(f, idx, writes)
    ensures rest == WriteAll(f, idx - writes[0], writes[1..])
    ensures r == Sent(rest.status, f[..writes[0]] + rest.wire, rest.idx)
    ensures writes[0] == idx ==> rest == Sent(OK, [], 0)
  {
    rest := WriteAll(f, (idx - writes[0]) % WORD, writes[1..]);
    assert (idx - writes[0]) % WORD == idx - writes[0];
  }

  lemma NoWrite<T>(f: seq<T>, idx: nat, writes: seq<int>, r: Sent<T>)
    requires forall i :: 0 <= i < |writes| ==> writes[i] <= |f|
    requires idx > 0 && (writes == [] || writes[0] <= 0) && r == WriteAll(f, idx, writes)
    ensures r == Sent(UartError, [], (idx - |f|) % WORD)
  {
  }

  lemma TookTooMuch<T>(f: seq<T>, k: nat, writes: seq<int>, rest: Sent<T>)
    requires forall i :: 0 <= i < |writes| ==> writes[i] <= |f|
    requires 0 < k < |f| && writes != [] && |f| - k < writes[0]
    requires rest == WriteAll(f, |f| - k, writes)
    ensures f != f[..k] + rest.wire
  {
    assert |rest.wire| >= writes[0];
    assert |f[..k] + rest.wire| > |f|;
  }

  /** What the second write makes of a wire that holds the first k bytes. */
  lemma SecondWrite<T>(f: seq<T>, k: nat, writes: seq<int>, rest: Sent<T>, good: bool)
    requires MarksEndsOnly(f) && 0 < k < |f| <= BUFFER_SIZE
    requires forall i :: 0 <= i < |writes| ==> writes[i] <= |f|
    requires rest == WriteAll(f, |f| - k, writes)
    requires good <==> rest.status == OK && f[..k] + rest.wire == f
    ensures writes == [] || writes[0] <= 0 ==> !good
    ensures writes != [] && writes[0] > 0 ==> (good <==> k == |f| - 1 && writes[0] == 1)
  {
    if writes == [] || writes[0] <= 0 {
      NoWrite(f, |f| - k, writes, rest);
    } else if writes[0] > |f| - k {
      TookTooMuch(f, k, writes, rest);
    } else {
      TookPart(f, k, writes, rest, good);
    }
  }

  lemma TookPart<T>(f: seq<T>, k: nat, writes: seq<int>, rest: Sent<T>, good: bool)
    requires MarksEndsOnly(f) && 0 < k < |f| <= BUFFER_SIZE
    requires forall i :: 0 <= i < |writes| ==> writes[i] <= |f|
    requires writes != [] && 0 < writes[0] <= |f| - k
    requires rest == WriteAll(f, |f| - k, writes)
    requires good <==> rest.status == OK && f[..k] + rest.wire == f
    ensures good <==> k == |f| - 1 && writes[0] == 1
  {
    var rest' := WriteOnce(f, |f| - k, writes, rest);
    StartedOver(f, k, writes[0], rest'.wire);
  }

  lemma FirstWrite<T>(f: seq<T>, k: nat, more: seq<int>, r: Sent<T>, rest: Sent<T>, good: bool)
    requires MarksEndsOnly(f) && 0 < k <= |f| <= BUFFER_SIZE
    requires forall i :: 0 <= i < |more| ==> more[i] <= |f|
    requires rest == WriteAll(f, |f| - k, more) && r == Sent(rest.status, f[..k] + rest.wire, rest.idx)
    requires good <==> r.status == OK && r.wire == f
    ensures good <==> k == |f| || (k == |f| - 1 && more != [] && more[0] == 1)
  {
    if k == |f| {
      assert f[..k] + [] == f;
    } else {
      SecondWrite(f, k, more, rest, good);
    }
  }

  lemma SomeWritten<T>(f: seq<T>, writes: seq<int>, more: seq<int>, r: Sent<T>, good: bool)
    requires MarksEndsOnly(f) && 1 < |f| <= BUFFER_SIZE
    requires forall i :: 0 <= i < |writes| ==> writes[i] <= |f|
    requires writes != [] && writes[0] > 0 && more == writes[1..]
    requires r == WriteAll(f, |f|, writes)
    requires good <==> r.status == OK && r.wire == f
    ensures good <==> writes[0] == |f| || (writes[0] == |f| - 1 && more != [] && more[0] == 1)
  {
    var rest := WriteOnce(f, |f|, writes, r);
    FirstWrite(f, writes[0], more, r, rest, good);
  }

  lemma WireIff<T>(f: seq<T>, writes: seq<int>, r: Sent<T>, good: bool)
    requires MarksEndsOnly(f) && 1 < |f| <= BUFFER_SIZE
    requires forall i :: 0 <= i < |writes| ==> writes[i] <= |f|
    requires r == WriteAll(f, |f|, writes)
    requires good <==> r.status == OK && r.wire == f
    ensures good <==>
              || (writes != [] && writes[0] == |f|)
              || (|writes| >= 2 && writes[0] == |f| - 1 && writes[1] == 1)
  {
    if writes == [] || writes[0] <= 0 {
      NoWrite(f, |f|, writes, r);
    } else {
      SomeWritten(f, writes, writes[1..], r, good);
    }
  }

  // ---------- whole runs ----------

  datatype SendCall = SendCall(m: Msg, writes: seq<int>)

  /** A device that takes a frame whole or not at all. */
  ghost predicate WholeWrites(calls: seq<SendCall>) {
    forall i :: 0 <= i < |calls| ==> Whole(calls[i])
  }

  ghost predicate Whole(c: SendCall) {
    c.m.payload != [] ==> forall j :: 0 <= j < |c.writes| ==> c.writes[j] <= 0 || c.writes[j] == |Frame(c.m)|
  }

  lemma WholeFrame<T>(f: seq<T>, writes: seq<int>, r: Sent<T>)
    requires 0 < |f| <= BUFFER_SIZE && forall j :: 0 <= j < |writes| ==> writes[j] <= 0 || writes[j] == |f|
    requires r == WriteAll(f, |f|, writes)
    ensures r == if writes != [] && writes[0] > 0 then Sent(OK, f, 0) else Sent(UartError, [], 0)
  {
    if writes != [] && writes[0] > 0 {
      var rest := WriteOnce(f, |f|, writes, r);
      assert f[..|f|] + [] == f;
    } else {
      NoWrite(f, |f|, writes, r);
      assert (|f| - |f|) % WORD == 0;
    }
  }

  /** With whole writes the index is zero after every call, however it ends, and nothing but whole frames gets out. */
  lemma WholeWrite(c: SendCall, r: Sent<Byte>)
    requires Whole(c) && r == Transmit(c.m, c.writes)
    ensures r.idx == 0
    ensures r.status == OK <==> Sendable(c.m) && c.writes != [] && c.writes[0] > 0
    ensures r.wire == if r.status == OK then Frame(c.m) else []
  {
    if c.m.payload != [] && ProtocolIndex(c.m.ptype).Some? {
      OverflowIffTooLong(c.m, c.writes);
      if |Frame(c.m)| <= BUFFER_SIZE {
        WholeFrame(Frame(c.m), c.writes, r);
      }
    }
  }

  /** The bytes on the wire after the calls. */
  function Wire(calls: seq<SendCall>): seq<Byte>
    requires WholeWrites(calls)
  {
    if calls == [] then []
    else assert Whole(calls[0]); Transmit(calls[0].m, calls[0].writes).wire + Wire(calls[1..])
  }

  /** The messages of the calls that reported success. */
  function Accepted(calls: seq<SendCall>): (ms: seq<Msg>)
    requires WholeWrites(calls)
    ensures forall i :: 0 <= i < |ms| ==> ms[i].payload != []
  {
    if calls == [] then []
    else
      assert Whole(calls[0]);
      var rest := Accepted(calls[1..]);
      if Transmit(calls[0].m, calls[0].writes).status == OK then [calls[0].m] + rest else rest
  }

  lemma {:induction false} WireIsFrames(calls: seq<SendCall>)
    requires WholeWrites(calls)
    ensures forall i :: 0 <= i < |Accepted(calls)| ==> Sendable(Accepted(calls)[i])
    ensures Wire(calls) == Frames(Accepted(calls))
    decreases |calls|
  {
    if calls != [] {
      var c := calls[0];
      assert Whole(c);
      var r := Transmit(c.m, c.writes);
      WholeWrite(c, r);
      WireIsFrames(calls[1..]);
      if r.status == OK {
        OneMore(c.m, Accepted(calls[1..]));
      }
    }
  }

  lemma OneMore(m: Msg, ms: seq<Msg>)
    requires m.payload != [] && forall i :: 0 <= i < |ms| ==> ms[i].payload != []
    ensures Frames([m] + ms) == Frame(m) + Frames(ms)
  {
    var all := [m] + ms;
    FramesSplit(all, 1);
    OneFrame(all);
    assert all[1..] == ms;
  }

  /**
   End to end: whatever was offered to the transmitter, and however its bytes reach the receiver, each message whose
   call reported success is delivered, in order, once, with nothing left over.
   */
  lemma EndToEnd(calls: seq<SendCall>, ms: seq<Msg>, s: RxState, polled: seq<ReadResult>, n: nat, registered: set<nat>,
                 r: RxStep)
    requires WholeWrites(calls) && ms == Accepted(calls)
    requires forall i :: 0 <= i < |ms| ==> HandlerOf(ms[i].ptype).Some?
    requires s.pending == [] && Stream(polled) == Wire(calls)
    requires n >= |ms| && r == Run(s, polled + Polls(n), registered)
    ensures r.out == ExpectedAll(ms, registered) && r.state.pending == []
  {
    WireIsFrames(calls);
    assert [] + Stream(polled) == Stream(polled);
    AllDelivered(s, polled, ms, n, registered, r);
  }
}
