/**
 Whole runs of the receiver: the bytes of many frames arrive in chunks of any sizes, some reads fail, some bring nothing.
 */
module Reassembly {
  import opened Seqs
  import opened WordBits
  import opened Stuffing
  import opened Framing
  import opened Reception

  datatype ReadResult = Failed | Got(bytes: seq<Byte>)

  function Run(s: RxState, calls: seq<ReadResult>, registered: set<nat>): RxStep
    decreases |calls|
  {
    if calls == [] then RxStep(s, [])
    else if calls[0].Failed? then Run(s, calls[1..], registered)
    else
      var r := ProcessStep(s, calls[0].bytes, registered);
      var rest := Run(r.state, calls[1..], registered);
      RxStep(rest.state, r.out + rest.out)
  }

  function Stream(calls: seq<ReadResult>): seq<Byte> {
    if calls == [] then []
    else if calls[0].Failed? then Stream(calls[1..])
    else calls[0].bytes + Stream(calls[1..])
  }

  /** Messages that the transmitter can send and the receiver knows. */
  ghost predicate Carried(ms: seq<Msg>) {
    forall i :: 0 <= i < |ms| ==> Sendable(ms[i]) && HandlerOf(ms[i].ptype).Some?
  }

  function FrameList(ms: seq<Msg>): (fs: seq<seq<Byte>>)
    requires forall i :: 0 <= i < |ms| ==> ms[i].payload != []
    ensures |fs| == |ms|
  {
    seq(|ms|, i requires 0 <= i < |ms| => Frame(ms[i]))
  }

  function DeliveryList(ms: seq<Msg>, registered: set<nat>): (ds: seq<seq<Delivery>>)
    requires forall i :: 0 <= i < |ms| ==> ms[i].payload != []
    ensures |ds| == |ms|
  {
    seq(|ms|, i requires 0 <= i < |ms| => Expected(ms[i], registered))
  }

  /** The bytes of all the frames on the wire, and what they should deliver. */
  function Frames(ms: seq<Msg>): seq<Byte>
    requires forall i :: 0 <= i < |ms| ==> ms[i].payload != []
  {
    Flatten(FrameList(ms))
  }

  function ExpectedAll(ms: seq<Msg>, registered: set<nat>): seq<Delivery>
    requires forall i :: 0 <= i < |ms| ==> ms[i].payload != []
  {
    Flatten(DeliveryList(ms, registered))
  }

  lemma FramesSplit(ms: seq<Msg>, j: nat)
    requires forall i :: 0 <= i < |ms| ==> ms[i].payload != []
    requires j <= |ms|
    ensures Frames(ms) == Frames(ms[..j]) + Frames(ms[j..])
  {
    assert FrameList(ms)[..j] == FrameList(ms[..j]) && FrameList(ms)[j..] == FrameList(ms[j..]);
    FlattenSplit(FrameList(ms), j);
  }

  lemma ExpectedSplit(ms: seq<Msg>, j: nat, registered: set<nat>)
    requires forall i :: 0 <= i < |ms| ==> ms[i].payload != []
    requires j <= |ms|
    ensures ExpectedAll(ms, registered) == ExpectedAll(ms[..j], registered) + ExpectedAll(ms[j..], registered)
  {
    assert DeliveryList(ms, registered)[..j] == DeliveryList(ms[..j], registered);
    assert DeliveryList(ms, registered)[j..] == DeliveryList(ms[j..], registered);
    FlattenSplit(DeliveryList(ms, registered), j);
  }

  lemma OneFrame(ms: seq<Msg>)
    requires ms != [] && forall i :: 0 <= i < |ms| ==> ms[i].payload != []
    ensures Frames(ms[..1]) == Frame(ms[0])
  {
    assert FrameList(ms[..1]) == [Frame(ms[0])];
    FlattenOne(Frame(ms[0]));
  }

  lemma OneExpected(ms: seq<Msg>, registered: set<nat>)
    requires ms != [] && forall i :: 0 <= i < |ms| ==> ms[i].payload != []
    ensures ExpectedAll(ms[..1], registered) == Expected(ms[0], registered)
  {
    assert DeliveryList(ms[..1], registered) == [Expected(ms[0], registered)];
    FlattenOne(Expected(ms[0], registered));
  }

  /** n calls that find nothing new to read. */
  function Polls(n: nat): seq<ReadResult> {
    if n == 0 then [] else [Got([])] + Polls(n - 1)
  }

  // ---------- one call on an aligned receiver ----------

  /** Part of a frame: one mark, which is the first byte. */
  lemma PartOfFrame(m: Msg, all: seq<Byte>)
    requires m.payload != [] && all != [] && all <= Frame(m) && |all| < |Frame(m)|
    ensures Scan(all) == OneMark
  {
    var body := Stuff(Body(m));
    StuffIsClean(Body(m));
    FindMarkIs(all, 0, 0);
    assert forall i :: 1 <= i < |all| ==> all[i] == body[i - 1] && body[i - 1] in body;
    FindMarkIs(all, 1, |all|);
  }

  lemma PartialStep(m: Msg, s: RxState, chunk: seq<Byte>, all: seq<Byte>, registered: set<nat>, r: RxStep)
    requires m.payload != [] && all == s.pending + chunk
    requires all <= Frame(m) && |all| < |Frame(m)|
    requires r == ProcessStep(s, chunk, registered)
    ensures r.out == [] && r.state.pending == all
    ensures r.state.checkLen == (if all == [] then s.checkLen else true)
  {
    if all == [] {
      assert s.pending == [];
    } else {
      PartOfFrame(m, all);
      OneMarkStep(s, chunk, all, registered, r);
    }
  }

  /** With one mark only, the bytes are kept and the flag goes up. */
  lemma OneMarkStep(s: RxState, chunk: seq<Byte>, all: seq<Byte>, registered: set<nat>, r: RxStep)
    requires all == s.pending + chunk && all != [] && Scan(all) == OneMark
    requires r == ProcessStep(s, chunk, registered)
    ensures r == RxStep(RxState(all, true), [])
  {
  }

  /** What follows a whole frame taken from the front. */
  lemma FrameInFront(f: seq<Byte>, rest: seq<Byte>, all: seq<Byte>)
    requires all <= f + rest && |all| >= |f|
    ensures all == f + all[|f|..] && all[|f|..] <= rest
  {
    assert (f + rest)[..|all|] == all;
    assert all[..|f|] == f;
    assert rest[..|all| - |f|] == (f + rest)[|f|..|all|];
  }

  lemma LessThanFrame(f: seq<Byte>, rest: seq<Byte>, all: seq<Byte>)
    requires all <= f + rest && |all| < |f|
    ensures all <= f
  {
    assert (f + rest)[..|all|] == f[..|all|];
  }

  /**
   One call while the pending bytes start at a frame: if a whole frame is there it is delivered and taken off,
   otherwise nothing changes but that the new bytes are kept.
   */
  lemma AlignedStep(s: RxState, chunk: seq<Byte>, ms: seq<Msg>, registered: set<nat>, r: RxStep) returns (k: nat)
    requires Carried(ms) && s.pending + chunk <= Frames(ms)
    requires r == ProcessStep(s, chunk, registered)
    ensures k <= 1 && k <= |ms|
    ensures k == 1 <==> ms != [] && |s.pending + chunk| >= |Frame(ms[0])|
    ensures r.out == ExpectedAll(ms[..k], registered)
    ensures s.pending + chunk == Frames(ms[..k]) + r.state.pending
    ensures r.state.pending <= Frames(ms[k..])
  {
    var all := s.pending + chunk;
    if ms == [] {
      assert all == [];
      assert s.pending == [];
      k := 0;
    } else if |all| < |Frame(ms[0])| {
      FramesSplit(ms, 1);
      OneFrame(ms);
      LessThanFrame(Frame(ms[0]), Frames(ms[1..]), all);
      PartialStep(ms[0], s, chunk, all, registered, r);
      assert ms[0..] == ms;
      k := 0;
    } else {
      var tail := all[|Frame(ms[0])|..];
      FramesSplit(ms, 1);
      OneFrame(ms);
      OneExpected(ms, registered);
      FrameInFront(Frame(ms[0]), Frames(ms[1..]), all);
      FrameStep(ms[0], tail, s, chunk, registered, r);
      k := 1;
    }
  }

  // ---------- whole runs ----------

  /** After j frames have been taken off, what is pending and still to come is the rest of the frames. */
  lemma LaterBytes(ms: seq<Msg>, j: nat, all: seq<Byte>, later: seq<Byte>, pending: seq<Byte>)
    requires Carried(ms) && j <= |ms|
    requires all == Frames(ms[..j]) + pending
    requires all + later <= Frames(ms)
    ensures pending + later <= Frames(ms[j..])
  {
    FramesSplit(ms, j);
    Reassociate(Frames(ms[..j]), pending, later, all);
    DropCommonPrefix(Frames(ms[..j]), pending + later, Frames(ms[j..]));
  }

  lemma Compose(ms: seq<Msg>, j: nat, k: nat, registered: set<nat>, all: seq<Byte>, later: seq<Byte>,
                pending: seq<Byte>, last: seq<Byte>)
    requires Carried(ms) && j <= |ms| && k <= |ms| - j
    requires all == Frames(ms[..j]) + pending
    requires pending + later == Frames(ms[j..][..k]) + last
    ensures all + later == Frames(ms[..j + k]) + last
    ensures ExpectedAll(ms[..j + k], registered) ==
              ExpectedAll(ms[..j], registered) + ExpectedAll(ms[j..][..k], registered)
  {
    TakeTwice(ms, j, k);
    FramesSplit(ms[..j + k], j);
    ExpectedSplit(ms[..j + k], j, registered);
    Reassociate(Frames(ms[..j]), pending, later, all);
    Reassociate(Frames(ms[..j]), Frames(ms[j..][..k]), last, Frames(ms[..j + k]));
  }

  lemma RunGot(s: RxState, calls: seq<ReadResult>, registered: set<nat>, r: RxStep, step: RxStep, rest: RxStep)
    requires calls != [] && calls[0].Got?
    requires r == Run(s, calls, registered)
    requires step == ProcessStep(s, calls[0].bytes, registered)
    requires rest == Run(step.state, calls[1..], registered)
    ensures r == RxStep(rest.state, step.out + rest.out)
  {
  }

  lemma SkipFailed(s: RxState, calls: seq<ReadResult>, registered: set<nat>, total: seq<Byte>, r: RxStep, rest: RxStep)
    requires calls != [] && calls[0].Failed?
    requires total == s.pending + Stream(calls)
    requires r == Run(s, calls, registered) && rest == Run(s, calls[1..], registered)
    ensures total == s.pending + Stream(calls[1..]) && r == rest
  {
  }

  lemma StreamGot(calls: seq<ReadResult>, pending: seq<Byte>, total: seq<Byte>)
    requires calls != [] && calls[0].Got? && total == pending + Stream(calls)
    ensures total == (pending + calls[0].bytes) + Stream(calls[1..])
  {
    assert pending + (calls[0].bytes + Stream(calls[1..])) == (pending + calls[0].bytes) + Stream(calls[1..]);
  }

  /**
   The result of a run that has taken in the bytes of total: the first k messages have been delivered, in order and once
   each, and what is pending is exactly what came after the first k frames.
   */
  ghost predicate DeliveredFirst(k: nat, ms: seq<Msg>, registered: set<nat>, total: seq<Byte>, r: RxStep)
    requires Carried(ms)
  {
    && k <= |ms|
    && r.out == ExpectedAll(ms[..k], registered)
    && total == Frames(ms[..k]) + r.state.pending
  }

  /** The run of the later calls, put after the first one. */
  lemma FirstThenRest(s: RxState, calls: seq<ReadResult>, ms: seq<Msg>, registered: set<nat>, total: seq<Byte>,
                      later: seq<Byte>, r: RxStep, step: RxStep, rest: RxStep, j: nat, k: nat)
    returns (n: nat)
    requires Carried(ms) && j <= |ms|
    requires calls != [] && calls[0].Got?
    requires total == (s.pending + calls[0].bytes) + later
    requires r == RxStep(rest.state, step.out + rest.out)
    requires DeliveredFirst(j, ms, registered, s.pending + calls[0].bytes, step)
    requires DeliveredFirst(k, ms[j..], registered, step.state.pending + later, rest)
    ensures DeliveredFirst(n, ms, registered, total, r)
  {
    n := j + k;
    Compose(ms, j, k, registered, s.pending + calls[0].bytes, later, step.state.pending, rest.state.pending);
  }

  /** However the bytes of the frames are split over the calls, some first messages are delivered in order. */
  lemma {:induction false} InOrder(s: RxState, calls: seq<ReadResult>, ms: seq<Msg>, registered: set<nat>,
                                   total: seq<Byte>, r: RxStep)
    returns (k: nat)
    requires Carried(ms) && total == s.pending + Stream(calls) && total <= Frames(ms)
    requires r == Run(s, calls, registered)
    ensures DeliveredFirst(k, ms, registered, total, r)
    decreases |calls|
  {
    if calls == [] {
      NothingYet(s, ms, registered, total, r);
      return 0;
    }
    if calls[0].Failed? {
      var rest := Run(s, calls[1..], registered);
      SkipFailed(s, calls, registered, total, r, rest);
      k := InOrder(s, calls[1..], ms, registered, total, rest);
      return;
    }
    var all, later := s.pending + calls[0].bytes, Stream(calls[1..]);
    StreamGot(calls, s.pending, total);
    PrefixOfPrefix(all, later, Frames(ms));
    var step := ProcessStep(s, calls[0].bytes, registered);
    var j := AlignedStep(s, calls[0].bytes, ms, registered, step);
    LaterBytes(ms, j, all, later, step.state.pending);
    var rest := Run(step.state, calls[1..], registered);
    var k' := InOrder(step.state, calls[1..], ms[j..], registered, step.state.pending + later, rest);
    RunGot(s, calls, registered, r, step, rest);
    k := FirstThenRest(s, calls, ms, registered, total, later, r, step, rest, j, k');
  }

  lemma NothingYet(s: RxState, ms: seq<Msg>, registered: set<nat>, total: seq<Byte>, r: RxStep)
    requires Carried(ms) && total == s.pending + Stream([])
    requires r == Run(s, [], registered)
    ensures DeliveredFirst(0, ms, registered, total, r)
  {
    assert s.pending + [] == s.pending;
  }

  // ---------- nothing is left behind ----------

  lemma FirstPoll(s: RxState, n: nat, registered: set<nat>, r: RxStep, step: RxStep, rest: RxStep)
    requires n > 0 && r == Run(s, Polls(n), registered)
    requires step == ProcessStep(s, [], registered) && rest == Run(step.state, Polls(n - 1), registered)
    ensures r == RxStep(rest.state, step.out + rest.out)
  {
    assert Polls(n)[1..] == Polls(n - 1);
    RunGot(s, Polls(n), registered, r, step, rest);
  }

  /** A whole frame that is already pending is delivered by the next call, whether it brings anything or not. */
  lemma WholeFramePending(s: RxState, chunk: seq<Byte>, ms: seq<Msg>, registered: set<nat>, r: RxStep)
    requires Carried(ms) && ms != [] && s.pending + chunk <= Frames(ms)
    requires |s.pending + chunk| >= |Frame(ms[0])|
    requires r == ProcessStep(s, chunk, registered)
    ensures r.out == Expected(ms[0], registered)
    ensures s.pending + chunk == Frame(ms[0]) + r.state.pending
    ensures r.state.pending <= Frames(ms[1..])
  {
    var k := AlignedStep(s, chunk, ms, registered, r);
    OneFrame(ms);
    OneExpected(ms, registered);
  }

  /** A full buffer always holds a whole frame, so the next call makes progress even though it can read nothing. */
  lemma FullBufferProgress(s: RxState, ms: seq<Msg>, registered: set<nat>, r: RxStep)
    requires Carried(ms) && s.pending <= Frames(ms) && |s.pending| == BUFFER_SIZE
    requires r == ProcessStep(s, [], registered)
    ensures ms != [] && r.out == Expected(ms[0], registered)
    ensures |r.state.pending| == BUFFER_SIZE - |Frame(ms[0])| < BUFFER_SIZE
  {
    assert s.pending + [] == s.pending;
    WholeFramePending(s, [], ms, registered, r);
  }

  /** Once all the bytes have arrived, one call for each message still pending delivers them. */
  lemma {:induction false} Drain(s: RxState, ms: seq<Msg>, n: nat, registered: set<nat>, r: RxStep)
    requires Carried(ms) && s.pending == Frames(ms) && n >= |ms|
    requires r == Run(s, Polls(n), registered)
    ensures r.out == ExpectedAll(ms, registered) && r.state.pending == []
    decreases n
  {
    if n > 0 {
      var step := ProcessStep(s, [], registered);
      var rest := Run(step.state, Polls(n - 1), registered);
      FirstPoll(s, n, registered, r, step, rest);
      assert s.pending + [] == s.pending;
      if ms == [] {
        Drain(step.state, ms, n - 1, registered, rest);
      } else {
        DrainStep(s, ms, registered, step);
        Drain(step.state, ms[1..], n - 1, registered, rest);
        ExpectedSplit(ms, 1, registered);
        OneExpected(ms, registered);
      }
    }
  }

  lemma DrainStep(s: RxState, ms: seq<Msg>, registered: set<nat>, step: RxStep)
    requires Carried(ms) && ms != [] && s.pending == Frames(ms)
    requires step == ProcessStep(s, [], registered)
    ensures step.out == Expected(ms[0], registered) && step.state.pending == Frames(ms[1..])
  {
    FramesSplit(ms, 1);
    OneFrame(ms);
    assert s.pending + [] == s.pending;
    WholeFramePending(s, [], ms, registered, step);
    SameFirst(Frame(ms[0]), step.state.pending, Frames(ms[1..]));
  }

  lemma SameFirst<T>(f: seq<T>, a: seq<T>, b: seq<T>)
    requires f + a == f + b
    ensures a == b
  {
    assert a == (f + a)[|f|..] && b == (f + b)[|f|..];
  }

  lemma {:induction false} RunConcat(s: RxState, a: seq<ReadResult>, b: seq<ReadResult>, registered: set<nat>,
                                     r: RxStep, ra: RxStep, rb: RxStep)
    requires r == Run(s, a + b, registered) && ra == Run(s, a, registered) && rb == Run(ra.state, b, registered)
    ensures r == RxStep(rb.state, ra.out + rb.out)
    decreases |a|
  {
    if a == [] {
      assert a + b == b;
      NoOutput(rb);
    } else {
      HeadTail(a, b);
      if a[0].Failed? {
        var rest, resta := Run(s, a[1..] + b, registered), Run(s, a[1..], registered);
        RunFailed(s, a + b, registered, r, rest);
        RunFailed(s, a, registered, ra, resta);
        RunConcat(s, a[1..], b, registered, rest, resta, rb);
      } else {
        var step := ProcessStep(s, a[0].bytes, registered);
        var rest, resta := Run(step.state, a[1..] + b, registered), Run(step.state, a[1..], registered);
        RunGot(s, a + b, registered, r, step, rest);
        RunGot(s, a, registered, ra, step, resta);
        RunConcat(step.state, a[1..], b, registered, rest, resta, rb);
        Reassociate(step.out, resta.out, rb.out, ra.out);
      }
    }
  }

  lemma NoOutput(r: RxStep)
    ensures r == RxStep(r.state, [] + r.out)
  {
    assert [] + r.out == r.out;
  }

  lemma HeadTail<T>(a: seq<T>, b: seq<T>)
    requires a != []
    ensures (a + b)[0] == a[0] && (a + b)[1..] == a[1..] + b
  {
  }

  lemma RunFailed(s: RxState, calls: seq<ReadResult>, registered: set<nat>, r: RxStep, rest: RxStep)
    requires calls != [] && calls[0].Failed?
    requires r == Run(s, calls, registered) && rest == Run(s, calls[1..], registered)
    ensures r == rest
  {
  }

  /**
   Reassembly: when the calls together have read all the frames, as many more calls as there are messages deliver
   every message, in order, once, and leave nothing pending; how the bytes were split does not matter.
   */
  lemma AllDelivered(s: RxState, calls: seq<ReadResult>, ms: seq<Msg>, n: nat, registered: set<nat>, r: RxStep)
    requires Carried(ms) && s.pending + Stream(calls) == Frames(ms) && n >= |ms|
    requires r == Run(s, calls + Polls(n), registered)
    ensures r.out == ExpectedAll(ms, registered) && r.state.pending == []
  {
    var total := s.pending + Stream(calls);
    var first := Run(s, calls, registered);
    var last := Run(first.state, Polls(n), registered);
    var k := InOrder(s, calls, ms, registered, total, first);
    FramesSplit(ms, k);
    ExpectedSplit(ms, k, registered);
    SameFirst(Frames(ms[..k]), first.state.pending, Frames(ms[k..]));
    Drain(first.state, ms[k..], n, registered, last);
    RunConcat(s, calls, Polls(n), registered, r, first, last);
  }
}
