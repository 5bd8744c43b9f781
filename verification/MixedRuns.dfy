/**
 Runs in which the transmitter also sends types that the receiver does not know. Their frames are never delivered, and
 one that is dropped with the flag up takes the receiver out of its place.
 */
module MixedRuns {
  import opened WordBits
  import opened Stuffing
  import opened Framing
  import opened Reception
  import opened Reassembly
  import opened Resync
  import opened Recovery
  import opened Transmission

  /** Where the receiver stands: at the first byte of a frame, or behind bytes without marks and a stray mark. */
  datatype Place = AtFrame | Behind(junk: seq<Byte>)

  ghost predicate AllSendable(ms: seq<Msg>) {
    forall i :: 0 <= i < |ms| ==> Sendable(ms[i])
  }

  ghost predicate Clean(p: Place) {
    p.Behind? ==> MARK !in p.junk
  }

  /** The bytes in front of the receiver. */
  function Ahead(p: Place, ms: seq<Msg>): seq<Byte>
    requires forall i :: 0 <= i < |ms| ==> ms[i].payload != []
  {
    match p
    case AtFrame => Frames(ms)
    case Behind(junk) => Misaligned(junk, Frames(ms))
  }

  predicate Known(m: Msg) {
    HandlerOf(m.ptype).Some?
  }

  /** The deliveries of those messages that are kept. */
  function Kept(ms: seq<Msg>, kept: seq<bool>, registered: set<nat>): seq<Delivery>
    requires |kept| == |ms| && forall i :: 0 <= i < |ms| ==> ms[i].payload != []
  {
    if ms == [] then []
    else (if kept[0] then Expected(ms[0], registered) else []) + Kept(ms[1..], kept[1..], registered)
  }

  /**
   The rule of losses: no unknown message is kept, and a known one is lost only if the one just before it was not kept,
   or if it is the first and the receiver had lost its place before.
   */
  ghost predicate FairLosses(p: Place, ms: seq<Msg>, kept: seq<bool>) {
    |kept| <= |ms| && forall i :: 0 <= i < |kept| ==> FairAt(p, ms[i], kept, i)
  }

  ghost predicate FairAt(p: Place, m: Msg, kept: seq<bool>, i: nat)
    requires i < |kept|
  {
    && (kept[i] ==> Known(m))
    && (Known(m) && !kept[i] ==> if i == 0 then p.Behind? else !kept[i - 1])
  }

  // ---------- one call ----------

  /** What one call does: some messages, one at most, are dealt with, and the receiver stands before the others. */
  ghost predicate Dealt(p: Place, ms: seq<Msg>, later: seq<Byte>, registered: set<nat>, r: RxStep, p': Place,
                        kept: seq<bool>)
    requires AllSendable(ms)
  {
    && |kept| <= 1 && FairLosses(p, ms, kept)
    && r.out == Kept(ms[..|kept|], kept, registered)
    && Clean(p') && r.state.pending + later == Ahead(p', ms[|kept|..])
    && (p'.Behind? ==> if kept == [] then p.Behind? else !kept[0])
  }

  lemma KeptNone(ms: seq<Msg>, registered: set<nat>)
    requires forall i :: 0 <= i < |ms| ==> ms[i].payload != []
    ensures Kept(ms[..0], [], registered) == [] && ms[0..] == ms
  {
  }

  lemma KeptOne(ms: seq<Msg>, k: bool, registered: set<nat>)
    requires ms != [] && forall i :: 0 <= i < |ms| ==> ms[i].payload != []
    ensures Kept(ms[..1], [k], registered) == if k then Expected(ms[0], registered) else []
  {
    assert ms[..1][1..] == [] && [k][1..] == [];
    assert Kept([], [], registered) == [];
    assert (if k then Expected(ms[0], registered) else []) + [] == if k then Expected(ms[0], registered) else [];
  }

  /** A message that is dealt with while the receiver keeps its place. */
  lemma DealtInPlace(ms: seq<Msg>, tail: seq<Byte>, later: seq<Byte>, registered: set<nat>, r: RxStep)
    requires AllSendable(ms) && ms != [] && tail + later == Frames(ms[1..])
    requires r == RxStep(RxState(tail, false), Expected(ms[0], registered))
    ensures Dealt(AtFrame, ms, later, registered, r, AtFrame, [Known(ms[0])])
  {
    KeptOne(ms, Known(ms[0]), registered);
  }

  /** An unknown type with the flag up: its closing mark stays. */
  lemma DealtOutOfPlace(ms: seq<Msg>, tail: seq<Byte>, later: seq<Byte>, registered: set<nat>, r: RxStep)
    requires AllSendable(ms) && ms != [] && tail + later == Frames(ms[1..]) && !Known(ms[0])
    requires r == RxStep(RxState([MARK] + tail, false), [])
    ensures Dealt(AtFrame, ms, later, registered, r, Behind([]), [false])
  {
    KeptOne(ms, false, registered);
    StrayThenRest(MARK, tail, later, Frames(ms[1..]));
  }

  lemma StrayThenRest<T>(x: T, tail: seq<T>, later: seq<T>, rest: seq<T>)
    requires tail + later == rest
    ensures ([x] + tail) + later == [] + ([x] + rest)
  {
  }

  /** A whole frame in front. */
  lemma DealtFrame(s: RxState, chunk: seq<Byte>, tail: seq<Byte>, later: seq<Byte>, ms: seq<Msg>, registered: set<nat>,
                   r: RxStep)
    returns (p: Place, kept: seq<bool>)
    requires AllSendable(ms) && ms != [] && s.pending + chunk == Frame(ms[0]) + tail && tail + later == Frames(ms[1..])
    requires r == ProcessStep(s, chunk, registered)
    ensures Dealt(AtFrame, ms, later, registered, r, p, kept) && |kept| == 1 && !r.state.checkLen
  {
    FrameStep(ms[0], tail, s, chunk, registered, r);
    if Known(ms[0]) || !s.checkLen {
      DealtInPlace(ms, tail, later, registered, r);
      p, kept := AtFrame, [Known(ms[0])];
    } else {
      DealtOutOfPlace(ms, tail, later, registered, r);
      p, kept := Behind([]), [false];
    }
  }

  lemma AtFrameStep(s: RxState, chunk: seq<Byte>, later: seq<Byte>, ms: seq<Msg>, registered: set<nat>, r: RxStep)
    returns (p: Place, kept: seq<bool>)
    requires AllSendable(ms) && (s.pending + chunk) + later == Frames(ms)
    requires r == ProcessStep(s, chunk, registered)
    ensures Dealt(AtFrame, ms, later, registered, r, p, kept)
    ensures kept == [] ==> p == AtFrame && (ms != [] ==> |s.pending + chunk| < |Frames(ms)|)
    ensures kept != [] ==> !r.state.checkLen
  {
    var all := s.pending + chunk;
    assert all <= Frames(ms) by {
      assert Frames(ms)[..|all|] == all;
    }
    KeptNone(ms, registered);
    if ms == [] {
      assert all == [] && s.pending == [];
      p, kept := AtFrame, [];
      return;
    }
    FramesSplit(ms, 1);
    OneFrame(ms);
    if |all| < |Frame(ms[0])| {
      LessThanFrame(Frame(ms[0]), Frames(ms[1..]), all);
      PartialStep(ms[0], s, chunk, all, registered, r);
      p, kept := AtFrame, [];
    } else {
      FrameInFront(Frame(ms[0]), Frames(ms[1..]), all);
      var tail := all[|Frame(ms[0])|..];
      RestOfFrames(Frame(ms[0]), tail, later, Frames(ms[1..]));
      p, kept := DealtFrame(s, chunk, tail, later, ms, registered, r);
    }
  }

  lemma RestOfFrames<T>(f: seq<T>, tail: seq<T>, later: seq<T>, rest: seq<T>)
    requires (f + tail) + later == f + rest
    ensures tail + later == rest
  {
    assert ((f + tail) + later)[|f|..] == tail + later;
    assert (f + rest)[|f|..] == rest;
  }

  lemma BehindStep(s: RxState, chunk: seq<Byte>, later: seq<Byte>, junk: seq<Byte>, ms: seq<Msg>, registered: set<nat>,
                   r: RxStep)
    returns (p: Place, kept: seq<bool>)
    requires AllSendable(ms) && MARK !in junk && (s.pending + chunk) + later == Misaligned(junk, Frames(ms))
    requires r == ProcessStep(s, chunk, registered)
    ensures Dealt(Behind(junk), ms, later, registered, r, p, kept)
    ensures later == [] && ms != [] ==> !r.state.checkLen && (s.checkLen ==> p == AtFrame) && (!s.checkLen ==> kept != [])
  {
    KeptNone(ms, registered);
    if ms == [] {
      var junk' := StrayStep(s, chunk, later, junk, registered, r);
      p, kept := Behind(junk'), [];
    } else if s.checkLen {
      var aligned, junk' := FlaggedStep(s, chunk, later, junk, ms, registered, r);
      p, kept := if aligned then AtFrame else Behind(junk'), [];
      if later == [] {
        AllThere(s.pending + chunk, junk, MARK, Frames(ms));
        FlagAfterMarks(s, chunk, junk, ms, registered, r);
      }
    } else {
      p, kept := BehindUnflagged(s, chunk, later, junk, ms, registered, r);
    }
  }

  lemma AllThere<T>(all: seq<T>, junk: seq<T>, x: T, frames: seq<T>)
    requires all + [] == junk + ([x] + frames)
    ensures all == junk + ([x] + frames) && |all| == |junk| + 1 + |frames|
  {
    assert all + [] == all;
  }

  lemma FlagAfterMarks(s: RxState, chunk: seq<Byte>, junk: seq<Byte>, ms: seq<Msg>, registered: set<nat>, r: RxStep)
    requires AllSendable(ms) && ms != [] && MARK !in junk && s.pending + chunk == Misaligned(junk, Frames(ms))
    requires r == ProcessStep(s, chunk, registered)
    ensures !r.state.checkLen && |Frames(ms)| > 0
  {
    FramesStartWithMark(ms);
    MisalignedStep(s, chunk, junk, Frames(ms), registered, r);
  }

  lemma DealtLost(p: Place, ms: seq<Msg>, later: seq<Byte>, registered: set<nat>, r: RxStep)
    requires AllSendable(ms) && ms != [] && p.Behind? && r.out == []
    requires r.state.pending + later == Misaligned(Stuff(Body(ms[0])), Frames(ms[1..]))
    ensures Dealt(p, ms, later, registered, r, Behind(Stuff(Body(ms[0]))), [false])
  {
    KeptOne(ms, false, registered);
    StuffIsClean(Body(ms[0]));
  }

  lemma BehindUnflagged(s: RxState, chunk: seq<Byte>, later: seq<Byte>, junk: seq<Byte>, ms: seq<Msg>,
                        registered: set<nat>, r: RxStep)
    returns (p: Place, kept: seq<bool>)
    requires AllSendable(ms) && ms != [] && MARK !in junk && !s.checkLen
    requires (s.pending + chunk) + later == Misaligned(junk, Frames(ms))
    requires r == ProcessStep(s, chunk, registered)
    ensures Dealt(Behind(junk), ms, later, registered, r, p, kept)
    ensures later == [] ==> !r.state.checkLen && kept != []
  {
    var o := UnflaggedStep(s, chunk, later, junk, ms, registered, r);
    if later == [] {
      AllThere(s.pending + chunk, junk, MARK, Frames(ms));
      FramesStartWithMark(ms);
      ScanEmptySpan(junk, Frames(ms), s.pending + chunk);
    }
    if o.Lost? {
      DealtLost(Behind(junk), ms, later, registered, r);
      p, kept := Behind(Stuff(Body(ms[0]))), [false];
    } else {
      KeptNone(ms, registered);
      p, kept := Behind(if o.Alone? then junk else o.junk), [];
    }
  }

  // ---------- whole runs ----------

  lemma KeptMore(ms: seq<Msg>, a: seq<bool>, b: seq<bool>, registered: set<nat>)
    requires |a| <= 1 && |a| + |b| == |ms| && forall i :: 0 <= i < |ms| ==> ms[i].payload != []
    ensures Kept(ms, a + b, registered) == Kept(ms[..|a|], a, registered) + Kept(ms[|a|..], b, registered)
  {
    if a == [] {
      assert a + b == b && ms[0..] == ms;
      KeptNone(ms, registered);
    } else {
      KeptOne(ms, a[0], registered);
      assert a == [a[0]] && (a + b)[1..] == b;
    }
  }

  lemma FairMore(p: Place, ms: seq<Msg>, a: seq<bool>, p': Place, b: seq<bool>)
    requires |a| <= 1 && |a| + |b| == |ms| && FairLosses(p, ms, a) && FairLosses(p', ms[|a|..], b)
    requires p'.Behind? ==> if a == [] then p.Behind? else !a[0]
    ensures FairLosses(p, ms, a + b)
  {
    forall i | 0 <= i < |a + b|
      ensures FairAt(p, ms[i], a + b, i)
    {
      if i < |a| {
        assert FairAt(p, ms[i], a, i) && (a + b)[i] == a[i];
      } else {
        var j := i - |a|;
        assert FairAt(p', ms[|a|..][j], b, j) && (a + b)[i] == b[j];
        assert j > 0 ==> (a + b)[i - 1] == b[j - 1];
      }
    }
  }

  /** One call and what the calls after it do. */
  lemma Together(p: Place, ms: seq<Msg>, later: seq<Byte>, registered: set<nat>, step: RxStep, p': Place, a: seq<bool>,
                 b: seq<bool>, rest: RxStep, r: RxStep)
    requires AllSendable(ms) && Dealt(p, ms, later, registered, step, p', a) && |a| + |b| == |ms|
    requires FairLosses(p', ms[|a|..], b) && rest.out == Kept(ms[|a|..], b, registered)
    requires r == RxStep(rest.state, step.out + rest.out)
    ensures FairLosses(p, ms, a + b) && r.out == Kept(ms, a + b, registered)
  {
    KeptMore(ms, a, b, registered);
    FairMore(p, ms, a, p', b);
  }

  lemma OneCallOf(s: RxState, chunk: seq<Byte>, later: seq<Byte>, p: Place, ms: seq<Msg>, registered: set<nat>, r: RxStep)
    returns (p': Place, kept: seq<bool>)
    requires AllSendable(ms) && Clean(p) && (s.pending + chunk) + later == Ahead(p, ms)
    requires r == ProcessStep(s, chunk, registered)
    ensures Dealt(p, ms, later, registered, r, p', kept)
    ensures later == [] && ms != [] ==>
              !r.state.checkLen && (kept != [] || (p.Behind? && s.checkLen && p' == AtFrame))
  {
    if p.AtFrame? {
      p', kept := AtFrameStep(s, chunk, later, ms, registered, r);
      assert later == [] ==> (s.pending + chunk) + later == s.pending + chunk;
    } else {
      p', kept := BehindStep(s, chunk, later, p.junk, ms, registered, r);
    }
  }

  lemma NothingAhead(s: RxState, p: Place, n: nat, registered: set<nat>, r: RxStep)
    requires Clean(p) && s.pending == Ahead(p, []) && r == Run(s, Polls(n), registered)
    ensures r.out == Kept([], [], registered)
  {
    if p.AtFrame? {
      Drain(s, [], n, registered, r);
    } else {
      StrayPolled(s, p.junk, n, registered, r);
    }
  }

  /** With all the bytes there, each poll deals with a message, but for one that may be needed to find the place. */
  lemma {:induction false} MixedPolls(s: RxState, p: Place, n: nat, ms: seq<Msg>, registered: set<nat>, r: RxStep)
    returns (kept: seq<bool>)
    requires AllSendable(ms) && Clean(p) && s.pending == Ahead(p, ms) && n >= |ms|
    requires n > |ms| || p.AtFrame? || !s.checkLen
    requires r == Run(s, Polls(n), registered)
    ensures |kept| == |ms| && FairLosses(p, ms, kept) && r.out == Kept(ms, kept, registered)
    decreases n
  {
    if ms == [] {
      NothingAhead(s, p, n, registered, r);
      return [];
    }
    var step := ProcessStep(s, [], registered);
    var rest, polls := AfterFirstPoll(s, n, registered, r, step);
    assert (s.pending + []) + [] == s.pending && step.state.pending + [] == step.state.pending;
    var p', a := OneCallOf(s, [], [], p, ms, registered, step);
    var b := MixedPolls(step.state, p', polls, ms[|a|..], registered, rest);
    Together(p, ms, [], registered, step, p', a, b, rest, r);
    kept := a + b;
  }

  /**
   Every run in which all the frames of sendable messages are read, of known and unknown types in any mixture: what is
   delivered is what is kept of the messages, in order and once each; and a known message is lost only if the one just
   before it was not kept. So the losses form blocks, and each begins with a message of an unknown type.
   */
  lemma {:induction false} MixedRun(s: RxState, p: Place, calls: seq<ReadResult>, n: nat, ms: seq<Msg>,
                                    registered: set<nat>, r: RxStep)
    returns (kept: seq<bool>)
    requires AllSendable(ms) && Clean(p) && s.pending + Stream(calls) == Ahead(p, ms) && n > |ms|
    requires r == Run(s, calls + Polls(n), registered)
    ensures |kept| == |ms| && FairLosses(p, ms, kept) && r.out == Kept(ms, kept, registered)
    decreases |calls|
  {
    if calls == [] {
      assert [] + Polls(n) == Polls(n) && s.pending + [] == s.pending;
      kept := MixedPolls(s, p, n, ms, registered, r);
      return;
    }
    HeadTail(calls, Polls(n));
    if calls[0].Failed? {
      var rest := Run(s, calls[1..] + Polls(n), registered);
      RunFailed(s, calls + Polls(n), registered, r, rest);
      kept := MixedRun(s, p, calls[1..], n, ms, registered, rest);
      return;
    }
    var step := ProcessStep(s, calls[0].bytes, registered);
    var rest := Run(step.state, calls[1..] + Polls(n), registered);
    RunGot(s, calls + Polls(n), registered, r, step, rest);
    StreamGot(calls, s.pending, s.pending + Stream(calls));
    var p', a := OneCallOf(s, calls[0].bytes, Stream(calls[1..]), p, ms, registered, step);
    var b := MixedRun(step.state, p', calls[1..], n, ms[|a|..], registered, rest);
    Together(p, ms, Stream(calls[1..]), registered, step, p', a, b, rest, r);
    kept := a + b;
  }

  /**
   End to end with any types: of the messages whose call reported success, all that are known are delivered, in order
   and once each, but for blocks of losses that begin with an unknown type.
   */
  lemma EndToEndAnyTypes(calls: seq<SendCall>, ms: seq<Msg>, s: RxState, polled: seq<ReadResult>, n: nat,
                         registered: set<nat>, r: RxStep)
    returns (kept: seq<bool>)
    requires WholeWrites(calls) && ms == Accepted(calls)
    requires s.pending == [] && Stream(polled) == Wire(calls)
    requires n > |ms| && r == Run(s, polled + Polls(n), registered)
    ensures |kept| == |ms| && FairLosses(AtFrame, ms, kept) && r.out == Kept(ms, kept, registered)
  {
    WireIsFrames(calls);
    assert [] + Stream(polled) == Stream(polled);
    kept := MixedRun(s, AtFrame, polled, n, ms, registered, r);
  }
}
