/**
 Losing the place and finding it again. A span of bytes in front of good frames either leaves the receiver at the first of
 them or just inside it; and from there it comes back at the first call that finds a mark alone.
 */
module Recovery {
  import opened WordBits
  import opened Stuffing
  import opened Framing
  import opened Reception
  import opened Reassembly
  import opened Resync

  // ---------- one span ----------

  /** The bytes between two marks decode to something whose length agrees with its header. */
  predicate SpanAgrees(w: seq<Byte>) {
    Unstuff(w).Some? && LengthAgrees(Unstuff(w).value, |Unstuff(w).value|)
  }

  lemma LengthOfPrefix(v: seq<Byte>, mem: seq<Byte>)
    requires v <= mem
    ensures LengthAgrees(mem, |v|) == LengthAgrees(v, |v|)
  {
    if |v| >= 4 {
      assert v[0] == mem[0] && v[1] == mem[1] && v[2] == mem[2];
    }
  }

  /** The length test looks at nothing but the span. */
  lemma AgreesIsOfSpan(all: seq<Byte>, first: nat, last: nat, w: seq<Byte>, mem: seq<Byte>)
    requires first < last < |all| && w == all[first + 1..last] && mem == DecodedMemory(all, first, last)
    ensures LengthAgrees(mem, DecodedSize(w)) == SpanAgrees(w)
  {
    if DecodedSize(w) > 0 {
      LengthOfPrefix(Unstuff(w).value, mem);
    }
  }

  lemma SpanCut<T>(junk: seq<T>, x: T, w: seq<T>, rest: seq<T>, all: seq<T>)
    requires all == junk + ([x] + (w + ([x] + rest)))
    ensures |junk| + 1 + |w| < |all| && all[|junk| + 1..|junk| + 1 + |w|] == w
    ensures all[|junk|] == x && all[|junk| + 1 + |w|] == x
    ensures all[|junk| + 1 + |w|..] == [x] + rest && all[|junk| + 1 + |w| + 1..] == rest
    ensures forall i :: 0 <= i < |junk| ==> all[i] == junk[i]
    ensures forall i :: |junk| + 1 <= i < |junk| + 1 + |w| ==> all[i] == w[i - |junk| - 1]
  {
    var tail := w + ([x] + rest);
    assert all[|junk| + 1..] == tail;
    assert all[|junk| + 1..|junk| + 1 + |w|] == tail[..|w|];
    assert all[|junk| + 1 + |w|..] == tail[|w|..];
    assert all[|junk| + 1 + |w| + 1..] == tail[|w| + 1..];
  }

  /** The marks around a span, and what lies behind each of them. */
  lemma SpanScan(junk: seq<Byte>, w: seq<Byte>, rest: seq<Byte>, all: seq<Byte>, first: nat, last: nat)
    requires MARK !in junk && MARK !in w && all == Misaligned(junk, w + ([MARK] + rest))
    requires first == |junk| && last == first + 1 + |w|
    ensures first < last < |all| && Scan(all) == TwoMarks(first, last) && all[first + 1..last] == w
    ensures all[last..] == [MARK] + rest && all[last + 1..] == rest
  {
    SpanCut(junk, MARK, w, rest, all);
    FindMarkIs(all, 0, first);
    FindMarkIs(all, first + 1, last);
  }

  lemma SpanCompleted(all: seq<Byte>, checkLen: bool, first: nat, last: nat, w: seq<Byte>, registered: set<nat>, c: RxStep)
    requires first < last < |all| && w == all[first + 1..last]
    requires c == CompleteSpan(all, checkLen, first, last, registered)
    ensures c.state == RxState(if checkLen && !SpanAgrees(w) then all[last..] else all[last + 1..], false)
    ensures checkLen && !SpanAgrees(w) ==> c.out == []
  {
    AgreesIsOfSpan(all, first, last, w, DecodedMemory(all, first, last));
  }

  lemma LongerByOne<T>(x: T, rest: seq<T>)
    ensures [x] + rest != rest
  {
    assert |[x] + rest| == |rest| + 1;
  }

  /**
   One call on a span of any bytes: it leaves what follows the span, unless the flag is up and the length of the span
   disagrees with its header. Then the second mark stays in front.
   */
  lemma SpanStep(s: RxState, chunk: seq<Byte>, junk: seq<Byte>, w: seq<Byte>, rest: seq<Byte>, registered: set<nat>,
                 r: RxStep)
    requires MARK !in junk && MARK !in w
    requires s.pending + chunk == Misaligned(junk, w + ([MARK] + rest))
    requires r == ProcessStep(s, chunk, registered)
    ensures r.state == RxState(if s.checkLen && !SpanAgrees(w) then [MARK] + rest else rest, false)
    ensures s.checkLen && !SpanAgrees(w) ==> r.out == []
    ensures r.state.pending == rest <==> !s.checkLen || SpanAgrees(w)
  {
    SpanStepOf(s, chunk, s.pending + chunk, junk, w, rest, registered, r);
    LongerByOne(MARK, rest);
  }

  lemma SpanStepOf(s: RxState, chunk: seq<Byte>, all: seq<Byte>, junk: seq<Byte>, w: seq<Byte>, rest: seq<Byte>,
                   registered: set<nat>, r: RxStep)
    requires MARK !in junk && MARK !in w && all == s.pending + chunk
    requires all == Misaligned(junk, w + ([MARK] + rest))
    requires r == ProcessStep(s, chunk, registered)
    ensures r.state == RxState(if s.checkLen && !SpanAgrees(w) then [MARK] + rest else rest, false)
    ensures s.checkLen && !SpanAgrees(w) ==> r.out == []
  {
    var first, last := |junk|, |junk| + 1 + |w|;
    SpanScan(junk, w, rest, all, first, last);
    var c := CompleteSpan(all, s.checkLen, first, last, registered);
    SpanFound(s, chunk, registered, all, first, last, r, c);
    SpanCompleted(all, s.checkLen, first, last, w, registered, c);
  }

  /**
   A span in front of good frames that are all there. After it the receiver stands at the first of them if and only if
   the flag was down or the length of the span agrees with its header; and then it delivers them all. Otherwise it
   delivers none.
   */
  lemma SpanBeforeFrames(s: RxState, junk: seq<Byte>, w: seq<Byte>, ms: seq<Msg>, registered: set<nat>, step: RxStep,
                         r: RxStep)
    requires MARK !in junk && MARK !in w && Carried(ms)
    requires s.pending == Misaligned(junk, w + ([MARK] + Frames(ms)))
    requires step == ProcessStep(s, [], registered) && r == Run(s, Polls(|ms| + 1), registered)
    ensures step.state.pending == Frames(ms) <==> !s.checkLen || SpanAgrees(w)
    ensures r.out == if !s.checkLen || SpanAgrees(w) then step.out + ExpectedAll(ms, registered) else []
  {
    assert s.pending + [] == s.pending;
    SpanStep(s, [], junk, w, Frames(ms), registered, step);
    var rest, polls := AfterFirstPoll(s, |ms| + 1, registered, r, step);
    AfterSpan(step.state, ms, polls, registered, rest);
    NoOutput(rest);
  }

  lemma AfterSpan(s: RxState, ms: seq<Msg>, n: nat, registered: set<nat>, r: RxStep)
    requires Carried(ms) && n == |ms| && r == Run(s, Polls(n), registered)
    ensures s.pending == Frames(ms) ==> r.out == ExpectedAll(ms, registered)
    ensures s == RxState([MARK] + Frames(ms), false) ==> r.out == []
  {
    if s.pending == Frames(ms) {
      Drain(s, ms, n, registered, r);
    }
    if s == RxState([MARK] + Frames(ms), false) {
      assert s.pending == Misaligned([], Frames(ms));
      LostWithoutFlag(s, [], ms, n, registered, r);
    }
  }

  // ---------- whole runs of a receiver that has lost its place ----------

  /** The call finds exactly one mark. */
  predicate FindsOne(s: RxState, call: ReadResult) {
    call.Got? && Scan(s.pending + call.bytes) == OneMark
  }

  /** The state after a call. */
  function After(s: RxState, call: ReadResult, registered: set<nat>): RxState {
    if call.Failed? then s else ProcessStep(s, call.bytes, registered).state
  }

  /** Is there a call that finds exactly one mark? */
  predicate SomeFindsOne(s: RxState, calls: seq<ReadResult>, registered: set<nat>)
    decreases |calls|
  {
    calls != [] && (FindsOne(s, calls[0]) || SomeFindsOne(After(s, calls[0], registered), calls[1..], registered))
  }

  /** How many calls before the first of those find two marks. */
  function Losses(s: RxState, calls: seq<ReadResult>, registered: set<nat>): nat
    decreases |calls|
  {
    if calls == [] || FindsOne(s, calls[0]) then 0
    else
      (if calls[0].Got? && Scan(s.pending + calls[0].bytes).TwoMarks? then 1 else 0)
      + Losses(After(s, calls[0], registered), calls[1..], registered)
  }

  /** Where a call leaves a receiver that is out of place with the flag down. */
  datatype Outcome = Nearer(junk: seq<Byte>) | Alone | Lost

  ghost predicate StepIs(o: Outcome, s: RxState, chunk: seq<Byte>, later: seq<Byte>, junk: seq<Byte>, ms: seq<Msg>,
                         r: RxStep)
    requires forall i :: 0 <= i < |ms| ==> ms[i].payload != []
  {
    && r.out == []
    && match o
       case Nearer(junk') =>
         && Scan(s.pending + chunk) == NoMark && MARK !in junk'
         && !r.state.checkLen && r.state.pending + later == Misaligned(junk', Frames(ms))
       case Alone =>
         && Scan(s.pending + chunk) == OneMark
         && r.state.checkLen && r.state.pending + later == Misaligned(junk, Frames(ms))
       case Lost =>
         && Scan(s.pending + chunk).TwoMarks? && ms != []
         && !r.state.checkLen && r.state.pending + later == Misaligned(Stuff(Body(ms[0])), Frames(ms[1..]))
  }

  lemma NothingBehind<T>(all: seq<T>, later: seq<T>, junk: seq<T>, x: T)
    requires all + later == junk + ([x] + [])
    ensures |all| <= |junk| + 1
  {
    assert |all + later| == |junk| + 1;
  }

  lemma UnflaggedStep(s: RxState, chunk: seq<Byte>, later: seq<Byte>, junk: seq<Byte>, ms: seq<Msg>, registered: set<nat>,
                      r: RxStep)
    returns (o: Outcome)
    requires MARK !in junk && !s.checkLen && forall i :: 0 <= i < |ms| ==> ms[i].payload != []
    requires (s.pending + chunk) + later == Misaligned(junk, Frames(ms))
    requires r == ProcessStep(s, chunk, registered)
    ensures StepIs(o, s, chunk, later, junk, ms, r)
  {
    var all := s.pending + chunk;
    CutMisaligned(all, later, junk, Frames(ms));
    if |all| <= |junk| {
      ScanJunk(all);
      JunkStep(s, chunk, all, registered, r);
      o := Nearer(junk[|all|..]);
      assert [] + later == later;
    } else if |all| == |junk| + 1 {
      ScanOneMark(junk, all);
      OneMarkStep(s, chunk, all, registered, r);
      o := Alone;
    } else {
      assert ms != [] by {
        if ms == [] {
          NothingBehind(all, later, junk, MARK);
        }
      }
      LosingStep(s, chunk, later, junk, ms, all[|junk| + 1..], registered, r);
      o := Lost;
    }
  }

  lemma DropFirst<T>(a: seq<T>, b: seq<T>, c: seq<T>)
    requires a != [] && a + b == c
    ensures c != [] && a[0] == c[0] && a[1..] + b == c[1..]
  {
  }

  lemma LosingStep(s: RxState, chunk: seq<Byte>, later: seq<Byte>, junk: seq<Byte>, ms: seq<Msg>, front: seq<Byte>,
                   registered: set<nat>, r: RxStep)
    requires MARK !in junk && ms != [] && !s.checkLen && front != []
    requires forall i :: 0 <= i < |ms| ==> ms[i].payload != []
    requires s.pending + chunk == Misaligned(junk, front) && front + later == Frames(ms)
    requires r == ProcessStep(s, chunk, registered)
    ensures StepIs(Lost, s, chunk, later, junk, ms, r)
  {
    FramesStartWithMark(ms);
    DropFirst(front, later, Frames(ms));
    ScanEmptySpan(junk, front, s.pending + chunk);
    MisalignedStep(s, chunk, junk, front, registered, r);
    WithoutFirst([MARK], Stuff(Body(ms[0])), [MARK], Frames(ms[1..]), Frame(ms[0]));
  }

  lemma FromOneMark(s: RxState, calls: seq<ReadResult>, junk: seq<Byte>, ms: seq<Msg>, n: nat, registered: set<nat>, r: RxStep)
    requires MARK !in junk && Carried(ms) && s.checkLen && n > |ms|
    requires s.pending + Stream(calls) == Misaligned(junk, Frames(ms))
    requires r == Run(s, calls + Polls(n), registered)
    ensures r.out == ExpectedAll(ms, registered)
  {
    if ms == [] {
      StreamPolled(calls, n);
      OnlyStray(s, calls + Polls(n), junk, registered, r);
    } else {
      Recovers(s, calls, junk, ms, n, registered, r);
    }
  }

  lemma {:induction false} StreamPolled(calls: seq<ReadResult>, n: nat)
    ensures Stream(calls + Polls(n)) == Stream(calls)
    decreases |calls|
  {
    if calls == [] {
      PollsStream(n);
      assert [] + Polls(n) == Polls(n);
    } else {
      HeadTail(calls, Polls(n));
      StreamPolled(calls[1..], n);
    }
  }

  /**
   A receiver behind a stray mark with the flag down loses an initial block of the messages, and nothing else: one for
   each call that finds two marks, up to the first call that finds exactly one. If there is no such call before all the
   bytes have been read it loses them all.
   */
  lemma {:induction false} LosesInitialBlock(s: RxState, calls: seq<ReadResult>, junk: seq<Byte>, ms: seq<Msg>, n: nat,
                                             registered: set<nat>, r: RxStep)
    returns (lost: nat)
    requires MARK !in junk && Carried(ms) && !s.checkLen && n > |ms|
    requires s.pending + Stream(calls) == Misaligned(junk, Frames(ms))
    requires r == Run(s, calls + Polls(n), registered)
    ensures lost <= |ms| && r.out == ExpectedAll(ms[lost..], registered)
    ensures lost == if SomeFindsOne(s, calls, registered) then Losses(s, calls, registered) else |ms|
    decreases |calls|
  {
    if calls == [] {
      assert [] + Polls(n) == Polls(n);
      assert s.pending + [] == s.pending;
      LostWithoutFlag(s, junk, ms, n, registered, r);
      return |ms|;
    }
    HeadTail(calls, Polls(n));
    if calls[0].Failed? {
      var rest := Run(s, calls[1..] + Polls(n), registered);
      RunFailed(s, calls + Polls(n), registered, r, rest);
      lost := LosesInitialBlock(s, calls[1..], junk, ms, n, registered, rest);
      return;
    }
    var step := ProcessStep(s, calls[0].bytes, registered);
    var rest := Run(step.state, calls[1..] + Polls(n), registered);
    RunGot(s, calls + Polls(n), registered, r, step, rest);
    StreamGot(calls, s.pending, s.pending + Stream(calls));
    var o := UnflaggedStep(s, calls[0].bytes, Stream(calls[1..]), junk, ms, registered, step);
    match o {
      case Nearer(junk') =>
        lost := LosesInitialBlock(step.state, calls[1..], junk', ms, n, registered, rest);
      case Alone =>
        FromOneMark(step.state, calls[1..], junk, ms, n, registered, rest);
        lost := 0;
      case Lost =>
        StuffIsClean(Body(ms[0]));
        var more := LosesInitialBlock(step.state, calls[1..], Stuff(Body(ms[0])), ms[1..], n, registered, rest);
        lost := more + 1;
    }
    NoOutput(rest);
  }
}
