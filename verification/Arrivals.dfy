/**
 When nothing is lost although types are sent that the receiver does not know: the exact condition on what is sent, and the
 split of the bytes that loses a message when it fails.
 */
module Arrivals {
  import opened WordBits
  import opened Stuffing
  import opened Framing
  import opened Reception
  import opened Reassembly
  import opened Resync
  import opened MixedRuns

  function KnownFlags(ms: seq<Msg>): (k: seq<bool>)
    ensures |k| == |ms|
  {
    seq(|ms|, i requires 0 <= i < |ms| => Known(ms[i]))
  }

  /** No known message comes directly after an unknown one. */
  predicate NoKnownAfterUnknown(ms: seq<Msg>) {
    forall i :: 0 < i < |ms| && Known(ms[i]) ==> Known(ms[i - 1])
  }

  function RunFromEmpty(calls: seq<ReadResult>, n: nat, registered: set<nat>): RxStep {
    Run(RxState([], false), calls + Polls(n), registered)
  }

  /** However the bytes are split, all the known messages arrive. */
  ghost predicate ArrivesAlways(ms: seq<Msg>, registered: set<nat>)
    requires AllSendable(ms)
  {
    forall calls: seq<ReadResult>, n: nat :: Stream(calls) == Frames(ms) && n > |ms| ==>
      RunFromEmpty(calls, n, registered).out == Kept(ms, KnownFlags(ms), registered)
  }

  lemma {:induction false} FairKeeps(ms: seq<Msg>, kept: seq<bool>, i: nat)
    requires |kept| == |ms| && FairLosses(AtFrame, ms, kept) && NoKnownAfterUnknown(ms) && i < |ms|
    ensures kept[i] == Known(ms[i])
    decreases i
  {
    assert FairAt(AtFrame, ms[i], kept, i);
    if i > 0 {
      FairKeeps(ms, kept, i - 1);
    }
  }

  /** A sender that never sends a known type right after an unknown one loses nothing, for every split of the bytes. */
  lemma NothingLost(s: RxState, calls: seq<ReadResult>, n: nat, ms: seq<Msg>, registered: set<nat>, r: RxStep)
    requires AllSendable(ms) && NoKnownAfterUnknown(ms) && n > |ms|
    requires s.pending == [] && Stream(calls) == Frames(ms) && r == Run(s, calls + Polls(n), registered)
    ensures r.out == Kept(ms, KnownFlags(ms), registered)
  {
    assert [] + Stream(calls) == Stream(calls);
    var kept := MixedRun(s, AtFrame, calls, n, ms, registered, r);
    forall i | 0 <= i < |ms|
      ensures kept[i] == KnownFlags(ms)[i]
    {
      FairKeeps(ms, kept, i);
    }
    assert kept == KnownFlags(ms);
  }

  // ---------- a split that loses a message ----------

  /** Every frame in one read. */
  function FrameReads(ms: seq<Msg>): seq<ReadResult>
    requires forall i :: 0 <= i < |ms| ==> ms[i].payload != []
  {
    if ms == [] then [] else [Got(Frame(ms[0]))] + FrameReads(ms[1..])
  }

  lemma {:induction false} StreamConcat(a: seq<ReadResult>, b: seq<ReadResult>)
    ensures Stream(a + b) == Stream(a) + Stream(b)
    decreases |a|
  {
    if a == [] {
      assert a + b == b;
    } else {
      HeadTail(a, b);
      StreamConcat(a[1..], b);
    }
  }

  lemma OneRead(c: seq<Byte>, calls: seq<ReadResult>)
    ensures Stream([Got(c)] + calls) == c + Stream(calls)
  {
    assert ([Got(c)] + calls)[1..] == calls;
  }

  lemma {:induction false} FrameReadsStream(ms: seq<Msg>)
    requires forall i :: 0 <= i < |ms| ==> ms[i].payload != []
    ensures Stream(FrameReads(ms)) == Frames(ms)
    decreases |ms|
  {
    if ms != [] {
      FrameReadsStream(ms[1..]);
      OneRead(Frame(ms[0]), FrameReads(ms[1..]));
      FramesSplit(ms, 1);
      OneFrame(ms);
    }
  }

  lemma RunOneRead(s: RxState, c: seq<Byte>, calls: seq<ReadResult>, registered: set<nat>, r: RxStep, step: RxStep,
                   rest: RxStep)
    requires r == Run(s, [Got(c)] + calls, registered) && step == ProcessStep(s, c, registered)
    requires rest == Run(step.state, calls, registered)
    ensures r == RxStep(rest.state, step.out + rest.out)
  {
    assert ([Got(c)] + calls)[1..] == calls;
    RunGot(s, [Got(c)] + calls, registered, r, step, rest);
  }

  lemma NothingRead(s: RxState, registered: set<nat>)
    ensures Run(s, [], registered) == RxStep(s, [])
  {
  }

  /** Read frame by frame, with the flag down, every known message arrives. */
  lemma {:induction false} FrameByFrame(s: RxState, ms: seq<Msg>, registered: set<nat>, r: RxStep)
    requires AllSendable(ms) && s == RxState([], false) && r == Run(s, FrameReads(ms), registered)
    ensures r.state == s && r.out == Kept(ms, KnownFlags(ms), registered)
    decreases |ms|
  {
    if ms == [] {
      NothingRead(s, registered);
    } else {
      var step := ProcessStep(s, Frame(ms[0]), registered);
      var rest := Run(step.state, FrameReads(ms[1..]), registered);
      RunOneRead(s, Frame(ms[0]), FrameReads(ms[1..]), registered, r, step, rest);
      ReadWhole(s, ms[0], registered, step);
      FrameByFrame(step.state, ms[1..], registered, rest);
      KeptFirst(ms, registered);
    }
  }

  lemma ReadWhole(s: RxState, m: Msg, registered: set<nat>, r: RxStep)
    requires Sendable(m) && s == RxState([], false) && r == ProcessStep(s, Frame(m), registered)
    ensures r == RxStep(s, Expected(m, registered))
  {
    assert s.pending + Frame(m) == Frame(m) + [];
    FrameStep(m, [], s, Frame(m), registered, r);
  }

  lemma KeptFirst(ms: seq<Msg>, registered: set<nat>)
    requires ms != [] && forall i :: 0 <= i < |ms| ==> ms[i].payload != []
    ensures Kept(ms, KnownFlags(ms), registered) ==
              Expected(ms[0], registered) + Kept(ms[1..], KnownFlags(ms[1..]), registered)
  {
    assert KnownFlags(ms)[1..] == KnownFlags(ms[1..]);
  }

  /** Read frame by frame behind a stray mark, with the flag down, none does. */
  lemma {:induction false} LostFrameByFrame(s: RxState, junk: seq<Byte>, ms: seq<Msg>, registered: set<nat>, r: RxStep)
    returns (junk': seq<Byte>)
    requires AllSendable(ms) && MARK !in junk && s == RxState(Misaligned(junk, []), false)
    requires r == Run(s, FrameReads(ms), registered)
    ensures r.out == [] && MARK !in junk' && r.state == RxState(Misaligned(junk', []), false)
    decreases |ms|
  {
    if ms == [] {
      NothingRead(s, registered);
      junk' := junk;
    } else {
      var step := ProcessStep(s, Frame(ms[0]), registered);
      var rest := Run(step.state, FrameReads(ms[1..]), registered);
      RunOneRead(s, Frame(ms[0]), FrameReads(ms[1..]), registered, r, step, rest);
      ReadBehind(s, junk, ms[0], registered, step);
      junk' := LostFrameByFrame(step.state, Stuff(Body(ms[0])), ms[1..], registered, rest);
    }
  }

  lemma ReadBehind(s: RxState, junk: seq<Byte>, m: Msg, registered: set<nat>, r: RxStep)
    requires m.payload != [] && MARK !in junk && s == RxState(Misaligned(junk, []), false)
    requires r == ProcessStep(s, Frame(m), registered)
    ensures MARK !in Stuff(Body(m)) && r == RxStep(RxState(Misaligned(Stuff(Body(m)), []), false), [])
  {
    BehindAll(junk, MARK, Frame(m), s.pending);
    RealignedIffFlag(s, Frame(m), junk, m, [], registered, r);
    StuffIsClean(Body(m));
  }

  lemma BehindAll<T>(junk: seq<T>, x: T, f: seq<T>, pending: seq<T>)
    requires pending == junk + ([x] + [])
    ensures pending + f == junk + ([x] + (f + []))
  {
  }

  /** A frame of an unknown type in two reads, the first of one byte. */
  function SplitRead(u: Msg): seq<ReadResult>
    requires u.payload != []
  {
    [Got([MARK]), Got(Stuff(Body(u)) + [MARK])]
  }

  lemma SplitReadRuns(s: RxState, u: Msg, registered: set<nat>, r: RxStep)
    requires Sendable(u) && !Known(u) && s == RxState([], false) && r == Run(s, SplitRead(u), registered)
    ensures r == RxStep(RxState(Misaligned([], []), false), [])
    ensures Stream(SplitRead(u)) == Frame(u)
  {
    var a, b := [MARK], Stuff(Body(u)) + [MARK];
    var first := ProcessStep(s, a, registered);
    var second := ProcessStep(first.state, b, registered);
    assert SplitRead(u) == [Got(a)] + ([Got(b)] + []);
    var rest, last := Run(first.state, [Got(b)] + [], registered), Run(second.state, [], registered);
    RunOneRead(s, a, [Got(b)] + [], registered, r, first, rest);
    RunOneRead(first.state, b, [], registered, rest, second, last);
    NothingRead(second.state, registered);
    LoneMark(s, a, registered, first);
    TwoReads(MARK, Stuff(Body(u)), Frame(u));
    FrameStep(u, [], first.state, b, registered, second);
    OneRead(a, [Got(b)] + []);
    OneRead(b, []);
  }

  lemma LoneMark(s: RxState, chunk: seq<Byte>, registered: set<nat>, r: RxStep)
    requires s == RxState([], false) && chunk == [MARK] && r == ProcessStep(s, chunk, registered)
    ensures r == RxStep(RxState([MARK], true), [])
  {
    assert s.pending + chunk == [MARK] == Misaligned([], []);
    ScanOneMark([], [MARK]);
    OneMarkStep(s, chunk, [MARK], registered, r);
  }

  lemma TwoReads<T>(x: T, body: seq<T>, f: seq<T>)
    requires f == [x] + body + [x]
    ensures [x] + (body + [x]) == f + [] && [x] + (body + [x] + []) == f
  {
  }

  /** The split that loses message i: all frames in one read each, but for the one before it. */
  function LosingReads(ms: seq<Msg>, i: nat): seq<ReadResult>
    requires 0 < i < |ms| && forall j :: 0 <= j < |ms| ==> ms[j].payload != []
  {
    FrameReads(ms[..i - 1]) + (SplitRead(ms[i - 1]) + FrameReads(ms[i..]))
  }

  lemma FramesAround(ms: seq<Msg>, i: nat)
    requires 0 < i < |ms| && forall j :: 0 <= j < |ms| ==> ms[j].payload != []
    ensures Frames(ms) == Frames(ms[..i - 1]) + (Frame(ms[i - 1]) + Frames(ms[i..]))
  {
    var after := ms[i - 1..];
    FramesSplit(ms, i - 1);
    FramesSplit(after, 1);
    OneFrame(after);
    assert after[0] == ms[i - 1] && after[1..] == ms[i..];
  }

  lemma LosingStream(ms: seq<Msg>, i: nat)
    requires AllSendable(ms) && 0 < i < |ms| && Stream(SplitRead(ms[i - 1])) == Frame(ms[i - 1])
    ensures Stream(LosingReads(ms, i)) == Frames(ms)
  {
    var a, b, c := FrameReads(ms[..i - 1]), SplitRead(ms[i - 1]), FrameReads(ms[i..]);
    StreamConcat(a, b + c);
    StreamConcat(b, c);
    FrameReadsStream(ms[..i - 1]);
    FrameReadsStream(ms[i..]);
    FramesAround(ms, i);
  }

  /** From the split on nothing arrives any more. */
  lemma AfterSplit(s: RxState, u: Msg, later: seq<Msg>, n: nat, registered: set<nat>, r: RxStep)
    requires Sendable(u) && !Known(u) && AllSendable(later) && s == RxState([], false)
    requires r == Run(s, SplitRead(u) + (FrameReads(later) + Polls(n)), registered)
    ensures r.out == []
  {
    var a := Run(s, SplitRead(u), registered);
    var rest := Run(a.state, FrameReads(later) + Polls(n), registered);
    SplitReadRuns(s, u, registered, a);
    RunConcat(s, SplitRead(u), FrameReads(later) + Polls(n), registered, r, a, rest);
    var b := Run(a.state, FrameReads(later), registered);
    var c := Run(b.state, Polls(n), registered);
    RunConcat(a.state, FrameReads(later), Polls(n), registered, rest, b, c);
    var junk := LostFrameByFrame(a.state, [], later, registered, b);
    StrayPolled(b.state, junk, n, registered, c);
  }

  lemma LosingRun(ms: seq<Msg>, i: nat, n: nat, registered: set<nat>, r: RxStep)
    requires AllSendable(ms) && 0 < i < |ms| && !Known(ms[i - 1])
    requires r == RunFromEmpty(LosingReads(ms, i), n, registered)
    ensures r.out == Kept(ms[..i - 1], KnownFlags(ms[..i - 1]), registered)
  {
    var s, before, tail := RxState([], false), FrameReads(ms[..i - 1]), FrameReads(ms[i..]);
    var rest := SplitRead(ms[i - 1]) + (tail + Polls(n));
    ThreeParts(before, SplitRead(ms[i - 1]), tail, Polls(n));
    var a := Run(s, before, registered);
    var b := Run(a.state, rest, registered);
    RunConcat(s, before, rest, registered, r, a, b);
    FrameByFrame(s, ms[..i - 1], registered, a);
    AfterSplit(a.state, ms[i - 1], ms[i..], n, registered, b);
    assert a.out + [] == a.out;
  }

  lemma ThreeParts<T>(a: seq<T>, b: seq<T>, c: seq<T>, d: seq<T>)
    ensures (a + (b + c)) + d == a + (b + (c + d))
  {
  }

  lemma KeptOfPrefix(ms: seq<Msg>, j: nat, registered: set<nat>)
    requires 0 < j <= |ms| && forall k :: 0 <= k < |ms| ==> ms[k].payload != []
    ensures Kept(ms[..j], KnownFlags(ms[..j]), registered) ==
              Expected(ms[0], registered) + Kept(ms[1..][..j - 1], KnownFlags(ms[1..][..j - 1]), registered)
  {
    KeptFirst(ms[..j], registered);
    assert ms[..j][1..] == ms[1..][..j - 1];
  }

  /** Up to message i there is less to deliver than in all, if its own handler is there. */
  lemma {:induction false} OneLess(ms: seq<Msg>, j: nat, i: nat, registered: set<nat>, part: seq<Delivery>,
                                   all: seq<Delivery>)
    requires forall k :: 0 <= k < |ms| ==> ms[k].payload != []
    requires j <= i < |ms| && Expected(ms[i], registered) != []
    requires part == Kept(ms[..j], KnownFlags(ms[..j]), registered) && all == Kept(ms, KnownFlags(ms), registered)
    ensures |part| < |all|
    decreases |ms|
  {
    KeptFirst(ms, registered);
    var tail := Kept(ms[1..], KnownFlags(ms[1..]), registered);
    if j > 0 {
      KeptOfPrefix(ms, j, registered);
      OneLess(ms[1..], j - 1, i - 1, registered, Kept(ms[1..][..j - 1], KnownFlags(ms[1..][..j - 1]), registered), tail);
    } else {
      assert part == [];
      if i > 0 {
        OneLess(ms[1..], 0, i - 1, registered, [], tail);
      }
    }
  }

  lemma ArrivesIfNone(ms: seq<Msg>, registered: set<nat>)
    requires AllSendable(ms) && NoKnownAfterUnknown(ms)
    ensures ArrivesAlways(ms, registered)
  {
    forall calls: seq<ReadResult>, n: nat | Stream(calls) == Frames(ms) && n > |ms|
      ensures RunFromEmpty(calls, n, registered).out == Kept(ms, KnownFlags(ms), registered)
    {
      NothingLost(RxState([], false), calls, n, ms, registered, RunFromEmpty(calls, n, registered));
    }
  }

  /** A known message after an unknown one is lost for some split of the bytes. */
  lemma LostForSomeSplit(ms: seq<Msg>, i: nat, n: nat, registered: set<nat>, calls: seq<ReadResult>, r: RxStep,
                         all: seq<Delivery>)
    requires AllSendable(ms) && 0 < i < |ms| && Expected(ms[i], registered) != [] && !Known(ms[i - 1])
    requires calls == LosingReads(ms, i) && r == RunFromEmpty(calls, n, registered)
    requires all == Kept(ms, KnownFlags(ms), registered)
    ensures Stream(calls) == Frames(ms) && r.out != all
  {
    var s, u := RxState([], false), ms[i - 1];
    SplitReadRuns(s, u, registered, Run(s, SplitRead(u), registered));
    LosingStream(ms, i);
    LosingRun(ms, i, n, registered, r);
    OneLess(ms, i - 1, i, registered, r.out, all);
  }

  lemma NotAlways(ms: seq<Msg>, calls: seq<ReadResult>, n: nat, registered: set<nat>)
    requires AllSendable(ms) && Stream(calls) == Frames(ms) && n > |ms|
    requires RunFromEmpty(calls, n, registered).out != Kept(ms, KnownFlags(ms), registered)
    ensures !ArrivesAlways(ms, registered)
  {
  }

  lemma KnownIsExpected(m: Msg, registered: set<nat>)
    requires m.payload != [] && Known(m) && HandlerOf(m.ptype).value in registered
    ensures Expected(m, registered) != []
  {
  }

  lemma ArrivesNoMore(ms: seq<Msg>, i: nat, registered: set<nat>)
    requires AllSendable(ms) && 0 < i < |ms| && Expected(ms[i], registered) != [] && !Known(ms[i - 1])
    ensures !ArrivesAlways(ms, registered)
  {
    var calls, n := LosingReads(ms, i), |ms| + 1;
    LostForSomeSplit(ms, i, n, registered, calls, RunFromEmpty(calls, n, registered),
                     Kept(ms, KnownFlags(ms), registered));
    NotAlways(ms, calls, n, registered);
  }

  ghost predicate AllHandled(ms: seq<Msg>, registered: set<nat>) {
    forall i :: 0 <= i < |ms| && Known(ms[i]) ==> HandlerOf(ms[i].ptype).value in registered
  }

  lemma ArrivesOnlyIf(ms: seq<Msg>, registered: set<nat>)
    requires AllSendable(ms) && AllHandled(ms, registered) && !NoKnownAfterUnknown(ms)
    ensures !ArrivesAlways(ms, registered)
  {
    var i := Offender(ms);
    KnownIsExpected(ms[i], registered);
    ArrivesNoMore(ms, i, registered);
  }

  lemma Offender(ms: seq<Msg>) returns (i: nat)
    requires !NoKnownAfterUnknown(ms)
    ensures 0 < i < |ms| && Known(ms[i]) && !Known(ms[i - 1])
  {
    i :| 0 < i < |ms| && Known(ms[i]) && !Known(ms[i - 1]);
  }

  /**
   The sender's exact condition: all known messages arrive, for every split of the bytes, if and only if none of them is
   sent directly after an unknown one.
   */
  lemma ArrivesIff(ms: seq<Msg>, registered: set<nat>)
    requires AllSendable(ms) && AllHandled(ms, registered)
    ensures ArrivesAlways(ms, registered) <==> NoKnownAfterUnknown(ms)
  {
    if NoKnownAfterUnknown(ms) {
      ArrivesIfNone(ms, registered);
    } else {
      ArrivesOnlyIf(ms, registered);
    }
  }
}
