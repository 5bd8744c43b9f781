/**
 A receiver that has lost its place. After garbage, the first mark it sees may be the closing mark of a frame it missed;
 it then takes each closing mark together with the next opening mark for a frame. The flag that asks for the length to
 be checked takes it out of that; `Recovery` says what else the flag does.
 */
module Resync {
  import opened WordBits
  import opened Stuffing
  import opened Framing
  import opened Reception
  import opened Reassembly

  /** Garbage without marks, the mark that ends it, and the bytes of whole frames from there on. */
  function Misaligned(junk: seq<Byte>, rest: seq<Byte>): seq<Byte> {
    junk + ([MARK] + rest)
  }

  lemma ScanJunk(all: seq<Byte>)
    requires MARK !in all
    ensures Scan(all) == NoMark
  {
    FindMarkIs(all, 0, |all|);
  }

  lemma ScanOneMark(junk: seq<Byte>, all: seq<Byte>)
    requires MARK !in junk && all == Misaligned(junk, [])
    ensures Scan(all) == OneMark
  {
    FindMarkIs(all, 0, |junk|);
    FindMarkIs(all, |junk| + 1, |all|);
  }

  lemma ScanEmptySpan(junk: seq<Byte>, rest: seq<Byte>, all: seq<Byte>)
    requires MARK !in junk && rest != [] && rest[0] == MARK && all == Misaligned(junk, rest)
    ensures Scan(all) == TwoMarks(|junk|, |junk| + 1)
    ensures all[|junk| + 1..] == rest && all[|junk| + 2..] == rest[1..]
  {
    FindMarkIs(all, 0, |junk|);
    FindMarkIs(all, |junk| + 1, |junk| + 1);
  }

  lemma EmptySpan(all: seq<Byte>, checkLen: bool, first: nat, registered: set<nat>, c: RxStep)
    requires first + 1 < |all|
    requires c == CompleteSpan(all, checkLen, first, first + 1, registered)
    ensures c.out == []
    ensures c.state == RxState(if checkLen then all[first + 1..] else all[first + 2..], false)
  {
    assert all[first + 1..first + 1] == [];
  }

  /**
   One call that finds two marks next to each other delivers nothing; it leaves the second mark in place exactly when the
   flag was up.
   */
  lemma MisalignedStep(s: RxState, chunk: seq<Byte>, junk: seq<Byte>, rest: seq<Byte>, registered: set<nat>, r: RxStep)
    requires MARK !in junk && rest != [] && rest[0] == MARK
    requires s.pending + chunk == Misaligned(junk, rest)
    requires r == ProcessStep(s, chunk, registered)
    ensures r.out == []
    ensures r.state == RxState(if s.checkLen then rest else rest[1..], false)
  {
    var all := s.pending + chunk;
    ScanEmptySpan(junk, rest, all);
    var c := CompleteSpan(all, s.checkLen, |junk|, |junk| + 1, registered);
    SpanFound(s, chunk, registered, all, |junk|, |junk| + 1, r, c);
    EmptySpan(all, s.checkLen, |junk|, registered, c);
  }

  lemma WithoutFirst<T>(open: seq<T>, body: seq<T>, close: seq<T>, tail: seq<T>, f: seq<T>)
    requires |open| == 1 && f == open + body + close
    ensures f + tail != [] && (f + tail)[0] == open[0]
    ensures (f + tail)[1..] == body + (close + tail)
    ensures (f + tail)[1..] != f + tail
  {
    assert |(f + tail)[1..]| < |f + tail|;
  }

  /** With a whole frame waiting behind the stray mark, the next call puts the receiver at its start iff the flag is up. */
  lemma RealignedIffFlag(s: RxState, chunk: seq<Byte>, junk: seq<Byte>, m: Msg, tail: seq<Byte>, registered: set<nat>,
                         r: RxStep)
    requires MARK !in junk && m.payload != []
    requires s.pending + chunk == Misaligned(junk, Frame(m) + tail)
    requires r == ProcessStep(s, chunk, registered)
    ensures r.state.pending == Frame(m) + tail <==> s.checkLen
    ensures !s.checkLen ==> r.out == [] && r.state == RxState(Misaligned(Stuff(Body(m)), tail), false)
  {
    WithoutFirst([MARK], Stuff(Body(m)), [MARK], tail, Frame(m));
    MisalignedStep(s, chunk, junk, Frame(m) + tail, registered, r);
  }

  lemma FramesStartWithMark(ms: seq<Msg>)
    requires ms != [] && forall i :: 0 <= i < |ms| ==> ms[i].payload != []
    ensures Frames(ms) != [] && Frames(ms)[0] == MARK
    ensures Frames(ms) == Frame(ms[0]) + Frames(ms[1..])
  {
    FramesSplit(ms, 1);
    OneFrame(ms);
  }

  /** A stray mark with nothing behind it: no call delivers anything, whatever it reads of these bytes. */
  lemma {:induction false} OnlyStray(s: RxState, calls: seq<ReadResult>, junk: seq<Byte>, registered: set<nat>, r: RxStep)
    requires MARK !in junk && s.pending + Stream(calls) == Misaligned(junk, [])
    requires r == Run(s, calls, registered)
    ensures r.out == []
    decreases |calls|
  {
    if calls == [] {
      return;
    }
    var rest;
    if calls[0].Failed? {
      rest := Run(s, calls[1..], registered);
      RunFailed(s, calls, registered, r, rest);
      OnlyStray(s, calls[1..], junk, registered, rest);
      return;
    }
    var step := ProcessStep(s, calls[0].bytes, registered);
    rest := Run(step.state, calls[1..], registered);
    RunGot(s, calls, registered, r, step, rest);
    StreamGot(calls, s.pending, s.pending + Stream(calls));
    var junk' := StrayStep(s, calls[0].bytes, Stream(calls[1..]), junk, registered, step);
    OnlyStray(step.state, calls[1..], junk', registered, rest);
  }

  lemma StrayStep(s: RxState, chunk: seq<Byte>, later: seq<Byte>, junk: seq<Byte>, registered: set<nat>, r: RxStep)
    returns (junk': seq<Byte>)
    requires MARK !in junk && (s.pending + chunk) + later == Misaligned(junk, [])
    requires r == ProcessStep(s, chunk, registered)
    ensures r.out == [] && MARK !in junk' && r.state.pending + later == Misaligned(junk', [])
  {
    var all := s.pending + chunk;
    CutMisaligned(all, later, junk, []);
    if |all| == |junk| + 1 {
      ScanOneMark(junk, all);
      OneMarkStep(s, chunk, all, registered, r);
      junk' := junk;
    } else {
      assert |all + later| == |junk| + 1;
      ScanJunk(all);
      JunkStep(s, chunk, all, registered, r);
      junk' := junk[|all|..];
      assert [] + later == later;
    }
  }

  /**
   Without the flag every message that is waiting is lost: each call takes a closing mark and the next opening mark for
   a frame, and throws both away.
   */
  lemma {:induction false} LostWithoutFlag(s: RxState, junk: seq<Byte>, ms: seq<Msg>, n: nat, registered: set<nat>,
                                           r: RxStep)
    requires MARK !in junk && forall i :: 0 <= i < |ms| ==> ms[i].payload != []
    requires !s.checkLen && s.pending == Misaligned(junk, Frames(ms))
    requires r == Run(s, Polls(n), registered)
    ensures r.out == []
    decreases n
  {
    if ms == [] {
      StrayPolled(s, junk, n, registered, r);
    } else if n > 0 {
      var step := ProcessStep(s, [], registered);
      var rest, polls := AfterFirstPoll(s, n, registered, r, step);
      PollLoses(s, junk, ms, registered, step);
      LostWithoutFlag(step.state, Stuff(Body(ms[0])), ms[1..], polls, registered, rest);
    }
  }

  lemma PollLoses(s: RxState, junk: seq<Byte>, ms: seq<Msg>, registered: set<nat>, step: RxStep)
    requires MARK !in junk && ms != [] && forall i :: 0 <= i < |ms| ==> ms[i].payload != []
    requires !s.checkLen && s.pending == Misaligned(junk, Frames(ms)) && step == ProcessStep(s, [], registered)
    ensures MARK !in Stuff(Body(ms[0])) && step.out == []
    ensures step.state == RxState(Misaligned(Stuff(Body(ms[0])), Frames(ms[1..])), false)
  {
    FramesStartWithMark(ms);
    assert s.pending + [] == s.pending;
    RealignedIffFlag(s, [], junk, ms[0], Frames(ms[1..]), registered, step);
    StuffIsClean(Body(ms[0]));
  }

  lemma StrayPolled(s: RxState, junk: seq<Byte>, n: nat, registered: set<nat>, r: RxStep)
    requires MARK !in junk && s.pending == Misaligned(junk, Frames([])) && r == Run(s, Polls(n), registered)
    ensures r.out == []
  {
    PollsStream(n);
    assert s.pending + [] == s.pending;
    OnlyStray(s, Polls(n), junk, registered, r);
  }

  lemma PollsStream(n: nat)
    ensures Stream(Polls(n)) == []
  {
    if n > 0 {
      assert Polls(n)[1..] == Polls(n - 1);
      PollsStream(n - 1);
    }
  }

  // ---------- types that the receiver does not know ----------

  lemma TwoPolls(s: RxState, registered: set<nat>, r: RxStep, step: RxStep, step': RxStep)
    requires r == Run(s, Polls(2), registered)
    requires step == ProcessStep(s, [], registered) && step' == ProcessStep(step.state, [], registered)
    ensures r == RxStep(step'.state, step.out + step'.out)
  {
    var rest, last := Run(step.state, Polls(1), registered), Run(step'.state, Polls(0), registered);
    FirstPoll(s, 2, registered, r, step, rest);
    FirstPoll(step.state, 1, registered, rest, step', last);
    assert step'.out + [] == step'.out;
  }

  /**
   The transmitter also sends types that the receiver gives up on. With the flag down such a frame is dropped and the
   next one is delivered; with the flag up the closing mark stays behind, and the next message is lost with it.
   */
  lemma UnknownTypeThenKnown(s: RxState, u: Msg, m: Msg, tail: seq<Byte>, registered: set<nat>, r: RxStep)
    requires Sendable(u) && HandlerOf(u.ptype).None? && Sendable(m) && HandlerOf(m.ptype).Some?
    requires s.pending == Frame(u) + (Frame(m) + tail) && r == Run(s, Polls(2), registered)
    ensures !s.checkLen ==> r == RxStep(RxState(tail, false), Expected(m, registered))
    ensures s.checkLen ==> r == RxStep(RxState(Misaligned(Stuff(Body(m)), tail), false), [])
  {
    var step := ProcessStep(s, [], registered);
    var step' := ProcessStep(step.state, [], registered);
    TwoPolls(s, registered, r, step, step');
    assert s.pending + [] == s.pending;
    FrameStep(u, Frame(m) + tail, s, [], registered, step);
    KnownTypes(u.ptype);
    AfterUnknown(step.state, m, tail, registered, step', s.checkLen);
  }

  lemma AfterUnknown(s: RxState, m: Msg, tail: seq<Byte>, registered: set<nat>, r: RxStep, left: bool)
    requires Sendable(m) && HandlerOf(m.ptype).Some? && r == ProcessStep(s, [], registered)
    requires s == RxState(if left then [MARK] + (Frame(m) + tail) else Frame(m) + tail, false)
    ensures !left ==> r == RxStep(RxState(tail, false), Expected(m, registered))
    ensures left ==> r == RxStep(RxState(Misaligned(Stuff(Body(m)), tail), false), [])
  {
    assert s.pending + [] == s.pending;
    if left {
      assert s.pending == Misaligned([], Frame(m) + tail);
      RealignedIffFlag(s, [], [], m, tail, registered, r);
    } else {
      FrameStep(m, tail, s, [], registered, r);
    }
  }

  // ---------- with the flag up ----------

  lemma CutMisaligned(all: seq<Byte>, later: seq<Byte>, junk: seq<Byte>, rest: seq<Byte>)
    requires all + later == Misaligned(junk, rest)
    ensures |all| <= |junk| ==> all == junk[..|all|] && later == Misaligned(junk[|all|..], rest)
    ensures |all| == |junk| + 1 ==> all == Misaligned(junk, []) && later == rest
    ensures |all| > |junk| + 1 ==>
              all == Misaligned(junk, all[|junk| + 1..]) && all[|junk| + 1..] + later == rest
  {
    var whole := Misaligned(junk, rest);
    assert all == whole[..|all|] && later == whole[|all|..];
  }

  /** One call of a receiver that is out of place with the flag up. */
  lemma FlaggedStep(s: RxState, chunk: seq<Byte>, later: seq<Byte>, junk: seq<Byte>, ms: seq<Msg>, registered: set<nat>,
                    r: RxStep)
    returns (aligned: bool, junk': seq<Byte>)
    requires MARK !in junk && ms != [] && s.checkLen && forall i :: 0 <= i < |ms| ==> ms[i].payload != []
    requires (s.pending + chunk) + later == Misaligned(junk, Frames(ms))
    requires r == ProcessStep(s, chunk, registered)
    ensures r.out == []
    ensures aligned ==> r.state.pending + later == Frames(ms)
    ensures !aligned ==> MARK !in junk' && r.state.checkLen
                         && r.state.pending + later == Misaligned(junk', Frames(ms))
    ensures aligned <==> |s.pending + chunk| > |junk| + 1
  {
    var all := s.pending + chunk;
    CutMisaligned(all, later, junk, Frames(ms));
    FramesStartWithMark(ms);
    aligned := |all| > |junk| + 1;
    if aligned {
      junk' := [];
      MisalignedStep(s, chunk, junk, all[|junk| + 1..], registered, r);
    } else if |all| == |junk| + 1 {
      junk' := junk;
      ScanOneMark(junk, all);
      OneMarkStep(s, chunk, all, registered, r);
      assert all + later == Misaligned(junk, Frames(ms));
    } else {
      junk' := junk[|all|..];
      ScanJunk(all);
      JunkStep(s, chunk, all, registered, r);
      assert [] + later == later;
    }
  }

  lemma JunkStep(s: RxState, chunk: seq<Byte>, all: seq<Byte>, registered: set<nat>, r: RxStep)
    requires all == s.pending + chunk && Scan(all) == NoMark
    requires r == ProcessStep(s, chunk, registered)
    ensures r == RxStep(RxState([], s.checkLen), [])
  {
    if all == [] {
      assert s.pending == [];
    }
  }

  /**
   A receiver with the flag up, in front of which there are bytes without marks and one stray mark, loses nothing that
   comes after that mark. All the frames are delivered, in order and once, however their bytes are split.
   */
  lemma {:induction false} Recovers(s: RxState, calls: seq<ReadResult>, junk: seq<Byte>, ms: seq<Msg>, n: nat,
                                    registered: set<nat>, r: RxStep)
    requires MARK !in junk && ms != [] && Carried(ms) && s.checkLen && n > |ms|
    requires s.pending + Stream(calls) == Misaligned(junk, Frames(ms))
    requires r == Run(s, calls + Polls(n), registered)
    ensures r.out == ExpectedAll(ms, registered) && r.state.pending == []
    decreases |calls|
  {
    if calls == [] {
      assert [] + Polls(n) == Polls(n);
      RecoverByPolling(s, junk, ms, n, registered, r);
      return;
    }
    HeadTail(calls, Polls(n));
    if calls[0].Failed? {
      var rest := Run(s, calls[1..] + Polls(n), registered);
      RunFailed(s, calls + Polls(n), registered, r, rest);
      Recovers(s, calls[1..], junk, ms, n, registered, rest);
      return;
    }
    var step := ProcessStep(s, calls[0].bytes, registered);
    var rest := Run(step.state, calls[1..] + Polls(n), registered);
    RunGot(s, calls + Polls(n), registered, r, step, rest);
    StreamGot(calls, s.pending, s.pending + Stream(calls));
    var aligned, junk' := FlaggedStep(s, calls[0].bytes, Stream(calls[1..]), junk, ms, registered, step);
    if aligned {
      AllDelivered(step.state, calls[1..], ms, n, registered, rest);
    } else {
      Recovers(step.state, calls[1..], junk', ms, n, registered, rest);
    }
    NoOutput(rest);
  }

  lemma RecoverByPolling(s: RxState, junk: seq<Byte>, ms: seq<Msg>, n: nat, registered: set<nat>, r: RxStep)
    requires MARK !in junk && ms != [] && Carried(ms) && s.checkLen && n > |ms|
    requires s.pending + Stream([]) == Misaligned(junk, Frames(ms))
    requires r == Run(s, Polls(n), registered)
    ensures r.out == ExpectedAll(ms, registered) && r.state.pending == []
  {
    assert s.pending + [] == s.pending;
    var step := ProcessStep(s, [], registered);
    PollRealigns(s, junk, ms, registered, step);
    var rest, polls := AfterFirstPoll(s, n, registered, r, step);
    Drain(step.state, ms, polls, registered, rest);
    NoOutput(rest);
  }

  lemma AfterFirstPoll(s: RxState, n: nat, registered: set<nat>, r: RxStep, step: RxStep)
    returns (rest: RxStep, polls: nat)
    requires n > 0 && r == Run(s, Polls(n), registered) && step == ProcessStep(s, [], registered)
    ensures polls == n - 1 && rest == Run(step.state, Polls(polls), registered)
    ensures r == RxStep(rest.state, step.out + rest.out)
  {
    polls := n - 1;
    rest := Run(step.state, Polls(n - 1), registered);
    FirstPoll(s, n, registered, r, step, rest);
  }

  lemma PollRealigns(s: RxState, junk: seq<Byte>, ms: seq<Msg>, registered: set<nat>, step: RxStep)
    requires MARK !in junk && ms != [] && Carried(ms) && s.checkLen
    requires s.pending == Misaligned(junk, Frames(ms))
    requires step == ProcessStep(s, [], registered)
    ensures step.out == [] && step.state.pending == Frames(ms)
  {
    FramesStartWithMark(ms);
    assert s.pending + [] == s.pending;
    MisalignedStep(s, [], junk, Frames(ms), registered, step);
  }

  // ---------- a full buffer ----------

  /**
   A full buffer can read nothing, so only the call itself can make room. It does so unless there is exactly one mark in
   it; then nothing changes any more but the flag.
   */
  lemma RoomIffNotOneMark(s: RxState, registered: set<nat>, r: RxStep)
    requires |s.pending| == BUFFER_SIZE && r == ProcessStep(s, [], registered)
    ensures |r.state.pending| < BUFFER_SIZE <==> Scan(s.pending) != OneMark
    ensures Scan(s.pending) == OneMark ==> r == RxStep(RxState(s.pending, true), [])
  {
    assert s.pending + [] == s.pending;
    match Scan(s.pending)
    case NoMark =>
    case OneMark =>
    case TwoMarks(first, last) =>
      SpanFound(s, [], registered, s.pending, first, last, r, CompleteSpan(s.pending, s.checkLen, first, last, registered));
  }
}
