/**
 Any bytes in front of good frames. Whatever they are, and however they and the frames are split, the receiver gets past
 them: it delivers no more from them than they have marks, and comes to stand at the first good frame or just inside it.
 */
module Garbage {
  import opened Seqs
  import opened WordBits
  import opened Stuffing
  import opened Framing
  import opened Reception
  import opened Reassembly
  import opened Resync
  import opened Recovery

  // ---------- bytes without marks ----------

  /** What is made of a span depends on the span and on what follows it. */
  lemma SameSpan(all: seq<Byte>, f: nat, l: nat, from: seq<Byte>, f': nat, l': nat, checkLen: bool, registered: set<nat>)
    requires f < l < |all| && f' < l' < |from|
    requires all[f + 1..l] == from[f' + 1..l'] && all[l..] == from[l'..] && all[l + 1..] == from[l' + 1..]
    ensures CompleteSpan(all, checkLen, f, l, registered) == CompleteSpan(from, checkLen, f', l', registered)
  {
    assert DecodedMemory(all, f, l) == DecodedMemory(from, f', l');
  }

  /** So what is in front of the first mark makes no difference. */
  lemma ShiftedSpan(all: seq<Byte>, junk: seq<Byte>, from: seq<Byte>, checkLen: bool, last: nat, l: nat,
                    registered: set<nat>, c: RxStep, d: RxStep)
    requires all == junk + from && 0 < last < |from| && l == |junk| + last
    requires c == CompleteSpan(from, checkLen, 0, last, registered)
    requires d == CompleteSpan(all, checkLen, |junk|, l, registered)
    ensures c == d
  {
    SameSlices(all, junk, from, last);
    SameSpan(all, |junk|, l, from, 0, last, checkLen, registered);
  }

  lemma SameSlices<T>(all: seq<T>, junk: seq<T>, from: seq<T>, last: nat)
    requires all == junk + from && 0 < last < |from|
    ensures all[|junk| + 1..|junk| + last] == from[1..last]
    ensures all[|junk| + last..] == from[last..] && all[|junk| + last + 1..] == from[last + 1..]
  {
  }

  lemma JunkMarks(junk: seq<Byte>, from: seq<Byte>, all: seq<Byte>, last: nat, l: nat)
    requires MARK !in junk && all == junk + from && Scan(from) == TwoMarks(0, last) && l == |junk| + last
    ensures |junk| < l < |all| && Scan(all) == TwoMarks(|junk|, l)
  {
    FindMarkFinds(from, 1);
    FindMarkIs(all, 0, |junk|);
    FindMarkIs(all, |junk| + 1, l);
  }

  lemma {:induction false} FindMarkFinds(s: seq<Byte>, from: nat)
    requires from <= |s|
    ensures FindMark(s, from) < |s| ==> s[FindMark(s, from)] == MARK
    ensures forall i :: from <= i < FindMark(s, from) ==> s[i] != MARK
    decreases |s| - from
  {
    if from < |s| && s[from] != MARK {
      FindMarkFinds(s, from + 1);
    }
  }

  /** A call on bytes without marks and a span is a call on the span. */
  lemma JunkSpan(s: RxState, chunk: seq<Byte>, all: seq<Byte>, junk: seq<Byte>, from: seq<Byte>, last: nat,
                 registered: set<nat>, c: RxStep, r: RxStep)
    requires MARK !in junk && all == s.pending + chunk && all == junk + from && Scan(from) == TwoMarks(0, last)
    requires c == CompleteSpan(from, s.checkLen, 0, last, registered) && r == ProcessStep(s, chunk, registered)
    ensures r == c
  {
    var first, l := |junk|, |junk| + last;
    JunkMarks(junk, from, all, last, l);
    var d := CompleteSpan(all, s.checkLen, first, l, registered);
    ShiftedSpan(all, junk, from, s.checkLen, last, l, registered, c, d);
    SpanFound(s, chunk, registered, all, first, l, r, d);
  }

  /** A whole frame behind bytes without marks is delivered like one in front. */
  lemma JunkFrameStep(s: RxState, chunk: seq<Byte>, junk: seq<Byte>, m: Msg, tail: seq<Byte>, registered: set<nat>,
                      r: RxStep)
    requires MARK !in junk && Sendable(m) && HandlerOf(m.ptype).Some?
    requires s.pending + chunk == junk + (Frame(m) + tail) && r == ProcessStep(s, chunk, registered)
    ensures r == RxStep(RxState(tail, false), Expected(m, registered))
  {
    var c := FrontSpan(m, tail, Frame(m) + tail, s.checkLen, registered);
    JunkSpan(s, chunk, s.pending + chunk, junk, Frame(m) + tail, |Frame(m)| - 1, registered, c, r);
  }

  lemma FrontSpan(m: Msg, tail: seq<Byte>, from: seq<Byte>, checkLen: bool, registered: set<nat>) returns (c: RxStep)
    requires Sendable(m) && HandlerOf(m.ptype).Some? && from == Frame(m) + tail
    ensures Scan(from) == TwoMarks(0, |Frame(m)| - 1)
    ensures c == CompleteSpan(from, checkLen, 0, |Frame(m)| - 1, registered)
    ensures c == RxStep(RxState(tail, false), Expected(m, registered))
  {
    var s, last := RxState([], checkLen), |Frame(m)| - 1;
    var r := ProcessStep(s, from, registered);
    assert s.pending + from == from;
    FrameMarks(m, tail);
    c := CompleteSpan(from, checkLen, 0, last, registered);
    SpanFound(s, from, registered, from, 0, last, r, c);
    FrameStep(m, tail, s, from, registered, r);
  }

  lemma JunkThenPart(m: Msg, junk: seq<Byte>, part: seq<Byte>, all: seq<Byte>)
    requires m.payload != [] && MARK !in junk && part != [] && part <= Frame(m) && |part| < |Frame(m)|
    requires all == junk + part
    ensures Scan(all) == OneMark
  {
    var body := Stuff(Body(m));
    StuffIsClean(Body(m));
    assert forall i :: 1 <= i < |part| ==> part[i] == body[i - 1] && body[i - 1] in body;
    assert forall i :: 0 <= i < |part| ==> all[|junk| + i] == part[i];
    FindMarkIs(all, 0, |junk|);
    FindMarkIs(all, |junk| + 1, |all|);
  }

  lemma CutPrefix<T>(all: seq<T>, later: seq<T>, junk: seq<T>, rest: seq<T>)
    requires all + later == junk + rest
    ensures |all| <= |junk| ==> all == junk[..|all|] && later == junk[|all|..] + rest
    ensures |all| > |junk| ==> all == junk + all[|junk|..] && all[|junk|..] + later == rest
  {
    var whole := junk + rest;
    assert all == whole[..|all|] && later == whole[|all|..];
    if |all| > |junk| {
      assert whole[..|all|][..|junk|] == junk;
      assert (all + later)[|junk|..] == all[|junk|..] + later;
      assert whole[|junk|..] == rest;
    }
  }

  /** Part of a sequence that starts with a frame: less than the frame, or the frame and something after it. */
  lemma FrontPart<T>(part: seq<T>, later: seq<T>, f: seq<T>, rest: seq<T>)
    requires part + later == f + rest
    ensures |part| < |f| ==> part <= f
    ensures |part| >= |f| ==> part == f + part[|f|..] && part[|f|..] + later == rest
  {
    CutPrefix(part, later, f, rest);
    if |part| == |f| {
      assert part == f[..|part|] && part[|f|..] == [] && [] + rest == rest && [] + later == later;
      assert part + [] == part && f[|part|..] + rest == rest;
    } else if |part| < |f| {
      assert f[..|part|] <= f;
    }
  }

  /** One call with bytes without marks in front of good frames. */
  datatype Front = Before(junk: seq<Byte>) | Delivered

  lemma JunkFramesStep(s: RxState, chunk: seq<Byte>, later: seq<Byte>, junk: seq<Byte>, ms: seq<Msg>, registered: set<nat>,
                       r: RxStep)
    returns (f: Front)
    requires MARK !in junk && Carried(ms) && ms != [] && (s.pending + chunk) + later == junk + Frames(ms)
    requires r == ProcessStep(s, chunk, registered)
    ensures f.Before? ==> r.out == [] && MARK !in f.junk && r.state.pending + later == f.junk + Frames(ms)
    ensures f == Delivered ==> r.out == Expected(ms[0], registered) && r.state.pending + later == Frames(ms[1..])
    ensures later == [] ==> f == Delivered
  {
    var all := s.pending + chunk;
    CutPrefix(all, later, junk, Frames(ms));
    FramesSplit(ms, 1);
    OneFrame(ms);
    if |all| <= |junk| {
      ScanJunk(all);
      JunkStep(s, chunk, all, registered, r);
      f := Before(junk[|all|..]);
      assert [] + later == later;
    } else {
      var part := all[|junk|..];
      FrontPart(part, later, Frame(ms[0]), Frames(ms[1..]));
      if |part| < |Frame(ms[0])| {
        JunkThenPart(ms[0], junk, part, all);
        OneMarkStep(s, chunk, all, registered, r);
        f := Before(junk);
      } else {
        JunkFrameStep(s, chunk, junk, ms[0], part[|Frame(ms[0])|..], registered, r);
        f := Delivered;
      }
    }
  }

  /** Bytes without marks in front of good frames cost nothing. */
  lemma {:induction false} JunkThenFrames(s: RxState, calls: seq<ReadResult>, junk: seq<Byte>, ms: seq<Msg>, n: nat,
                                          registered: set<nat>, r: RxStep)
    requires MARK !in junk && Carried(ms) && ms != [] && n >= |ms|
    requires s.pending + Stream(calls) == junk + Frames(ms) && r == Run(s, calls + Polls(n), registered)
    ensures r.out == ExpectedAll(ms, registered)
    decreases |calls|
  {
    if calls == [] {
      NoMore(s.pending);
      NoMore(Polls(n));
      JunkPolled(s, junk, ms, n, registered, r);
      return;
    }
    HeadTail(calls, Polls(n));
    if calls[0].Failed? {
      var rest := Run(s, calls[1..] + Polls(n), registered);
      RunFailed(s, calls + Polls(n), registered, r, rest);
      JunkThenFrames(s, calls[1..], junk, ms, n, registered, rest);
      return;
    }
    var step := ProcessStep(s, calls[0].bytes, registered);
    var rest := Run(step.state, calls[1..] + Polls(n), registered);
    RunGot(s, calls + Polls(n), registered, r, step, rest);
    StreamGot(calls, s.pending, s.pending + Stream(calls));
    var f := JunkFramesStep(s, calls[0].bytes, Stream(calls[1..]), junk, ms, registered, step);
    if f == Delivered {
      AllDelivered(step.state, calls[1..], ms[1..], n, registered, rest);
      ExpectedSplit(ms, 1, registered);
      OneExpected(ms, registered);
    } else {
      JunkThenFrames(step.state, calls[1..], f.junk, ms, n, registered, rest);
      NoOutput(rest);
    }
  }

  lemma NoMore<T>(a: seq<T>)
    ensures a + [] == a && [] + a == a
  {
  }

  lemma JunkPolled(s: RxState, junk: seq<Byte>, ms: seq<Msg>, n: nat, registered: set<nat>, r: RxStep)
    requires MARK !in junk && Carried(ms) && ms != [] && n >= |ms|
    requires s.pending == junk + Frames(ms) && r == Run(s, Polls(n), registered)
    ensures r.out == ExpectedAll(ms, registered)
  {
    var step := ProcessStep(s, [], registered);
    var rest, polls := AfterFirstPoll(s, n, registered, r, step);
    PollDelivers(s, junk, ms, registered, step);
    Drain(step.state, ms[1..], polls, registered, rest);
    ExpectedSplit(ms, 1, registered);
    OneExpected(ms, registered);
  }

  lemma PollDelivers(s: RxState, junk: seq<Byte>, ms: seq<Msg>, registered: set<nat>, step: RxStep)
    requires MARK !in junk && Carried(ms) && ms != [] && s.pending == junk + Frames(ms)
    requires step == ProcessStep(s, [], registered)
    ensures step.out == Expected(ms[0], registered) && step.state.pending == Frames(ms[1..])
  {
    NoMore(s.pending);
    var f := JunkFramesStep(s, [], [], junk, ms, registered, step);
    NoMore(step.state.pending);
  }

  // ---------- any bytes ----------

  function Marks(g: seq<Byte>): nat {
    if g == [] then 0 else Marks(g[1..]) + if g[0] == MARK then 1 else 0
  }

  lemma {:induction false} MarksConcat(a: seq<Byte>, b: seq<Byte>)
    ensures Marks(a + b) == Marks(a) + Marks(b)
    decreases |a|
  {
    if a == [] {
      assert a + b == b;
    } else {
      assert (a + b)[1..] == a[1..] + b;
      MarksConcat(a[1..], b);
    }
  }

  lemma {:induction false} NoMarks(g: seq<Byte>)
    requires MARK !in g
    ensures Marks(g) == 0
    decreases |g|
  {
    if g != [] {
      NoMarks(g[1..]);
    }
  }

  lemma MarksAround(a: seq<Byte>, b: seq<Byte>)
    requires MARK !in a
    ensures Marks(a + ([MARK] + b)) == 1 + Marks(b)
  {
    MarksConcat(a, [MARK] + b);
    NoMarks(a);
    assert ([MARK] + b)[1..] == b;
  }

  lemma FirstMark(g: seq<Byte>) returns (a: seq<Byte>, b: seq<Byte>)
    requires MARK in g
    ensures MARK !in a && g == a + ([MARK] + b) && Marks(g) == 1 + Marks(b)
  {
    var i := FindMark(g, 0);
    FindMarkFinds(g, 0);
    a, b := g[..i], g[i + 1..];
    assert g == a + ([MARK] + b);
    MarksAround(a, b);
  }

  /** The first span: its second mark is one of the bytes too, or the opening mark of the first frame. */
  datatype Second = Within(w: seq<Byte>, d: seq<Byte>) | Opening(w: seq<Byte>)

  lemma SecondMark(b: seq<Byte>) returns (m: Second)
    ensures MARK !in m.w
    ensures m.Within? ==> b == m.w + ([MARK] + m.d) && Marks(b) == 1 + Marks(m.d)
    ensures m.Opening? ==> b == m.w
  {
    if MARK in b {
      var w, d := FirstMark(b);
      m := Within(w, d);
    } else {
      m := Opening(b);
    }
  }

  lemma OnlyOneMark(a: seq<Byte>, x: seq<Byte>, all: seq<Byte>)
    requires MARK !in a && MARK !in x && all == a + ([MARK] + x)
    ensures Scan(all) == OneMark
  {
    assert forall i :: |a| + 1 <= i < |all| ==> all[i] == x[i - |a| - 1];
    FindMarkIs(all, 0, |a|);
    FindMarkIs(all, |a| + 1, |all|);
  }

  /** How far the bytes at hand reach into a span and what follows it. */
  datatype Reach = Short | Half(x: seq<Byte>) | Full(x: seq<Byte>)

  lemma HowFar(all: seq<Byte>, later: seq<Byte>, a: seq<Byte>, w: seq<Byte>, rest: seq<Byte>) returns (h: Reach)
    requires all + later == a + ([MARK] + (w + ([MARK] + rest)))
    ensures h == Short ==> |all| <= |a| && all == a[..|all|] && later == a[|all|..] + ([MARK] + (w + ([MARK] + rest)))
    ensures h.Half? ==> all == a + ([MARK] + h.x) && h.x <= w
    ensures h.Full? ==> all == a + ([MARK] + (w + ([MARK] + h.x))) && h.x + later == rest
    ensures later == [] ==> h.Full?
  {
    CutPrefix(all, later, a, [MARK] + (w + ([MARK] + rest)));
    if |all| <= |a| {
      h := Short;
      assert |all + later| > |all|;
    } else {
      var y := all[|a|..];
      HeadOf(y, later, MARK, w + ([MARK] + rest));
      var z := y[1..];
      CutPrefix(z, later, w, [MARK] + rest);
      if |z| <= |w| {
        h := Half(z);
        assert |z + later| > |z|;
        assert w[..|z|] <= w;
      } else {
        var v := z[|w|..];
        HeadOf(v, later, MARK, rest);
        h := Full(v[1..]);
      }
    }
  }

  lemma HeadOf<T>(y: seq<T>, later: seq<T>, x: T, rest: seq<T>)
    requires y != [] && y + later == [x] + rest
    ensures y == [x] + y[1..] && y[1..] + later == rest
  {
    assert (y + later)[0] == x && (y + later)[1..] == y[1..] + later;
    assert ([x] + rest)[1..] == rest;
  }

  /** At most one delivery for a span. */
  lemma OneDelivery(s: RxState, chunk: seq<Byte>, registered: set<nat>, r: RxStep)
    requires r == ProcessStep(s, chunk, registered)
    ensures |r.out| <= 1
  {
  }

  /** What one call leaves of the bytes in front of the good frames. */
  datatype Past = Still(g: seq<Byte>) | Inside

  ghost predicate IsPast(o: Past, g: seq<Byte>, ms: seq<Msg>, later: seq<Byte>, r: RxStep)
    requires Carried(ms) && ms != []
  {
    match o
    case Still(g') =>
      && r.state.pending + later == g' + Frames(ms)
      && |r.out| + Marks(g') <= Marks(g) && |g'| <= |g| && (later == [] ==> |g'| < |g|)
    case Inside =>
      && !r.state.checkLen && |r.out| <= 1
      && r.state.pending + later == Misaligned(Stuff(Body(ms[0])), Frames(ms[1..]))
  }

  /** The span ends within the bytes. */
  lemma WithinStep(s: RxState, chunk: seq<Byte>, later: seq<Byte>, a: seq<Byte>, w: seq<Byte>, d: seq<Byte>, x: seq<Byte>,
                   g: seq<Byte>, ms: seq<Msg>, registered: set<nat>, r: RxStep)
    returns (o: Past)
    requires MARK !in a && MARK !in w && Carried(ms) && ms != []
    requires |g| == |a| + |w| + |d| + 2 && Marks(g) == 2 + Marks(d)
    requires s.pending + chunk == Misaligned(a, w + ([MARK] + x)) && x + later == d + Frames(ms)
    requires r == ProcessStep(s, chunk, registered)
    ensures IsPast(o, g, ms, later, r)
  {
    SpanStep(s, chunk, a, w, x, registered, r);
    OneDelivery(s, chunk, registered, r);
    if s.checkLen && !SpanAgrees(w) {
      o := Still([MARK] + d);
      MarksAround([], d);
      assert [] + ([MARK] + d) == [MARK] + d;
      assert ([MARK] + x) + later == ([MARK] + d) + Frames(ms) by {
        Grouped(MARK, x, later, d, Frames(ms));
      }
    } else {
      o := Still(d);
    }
  }

  lemma Grouped<T>(m: T, x: seq<T>, later: seq<T>, d: seq<T>, f: seq<T>)
    requires x + later == d + f
    ensures ([m] + x) + later == ([m] + d) + f
  {
    assert ([m] + x) + later == [m] + (x + later);
    assert ([m] + d) + f == [m] + (d + f);
  }

  /** The span ends with the opening mark of the first frame. */
  lemma OpeningStep(s: RxState, chunk: seq<Byte>, later: seq<Byte>, a: seq<Byte>, w: seq<Byte>, x: seq<Byte>,
                    g: seq<Byte>, ms: seq<Msg>, registered: set<nat>, r: RxStep)
    returns (o: Past)
    requires MARK !in a && MARK !in w && Carried(ms) && ms != []
    requires |g| == |a| + |w| + 1 && Marks(g) >= 1
    requires s.pending + chunk == Misaligned(a, w + ([MARK] + x)) && [MARK] + (x + later) == Frames(ms)
    requires r == ProcessStep(s, chunk, registered)
    ensures IsPast(o, g, ms, later, r)
  {
    SpanStep(s, chunk, a, w, x, registered, r);
    OneDelivery(s, chunk, registered, r);
    if s.checkLen && !SpanAgrees(w) {
      o := Still([]);
      NothingBefore(MARK, x + later, Frames(ms));
      Grouped(MARK, x, later, [], x + later);
    } else {
      o := Inside;
      InsideFrame(x + later, ms);
    }
  }

  lemma NothingBefore<T>(m: T, x: seq<T>, f: seq<T>)
    requires [m] + x == f
    ensures ([m] + []) + x == [] + f && [] + x == x
  {
  }

  /** Without its first mark a frame is its body, its closing mark, and what follows. */
  lemma InsideFrame(x: seq<Byte>, ms: seq<Msg>)
    requires Carried(ms) && ms != [] && [MARK] + x == Frames(ms)
    ensures x == Misaligned(Stuff(Body(ms[0])), Frames(ms[1..]))
  {
    FramesStartWithMark(ms);
    WithoutFirst([MARK], Stuff(Body(ms[0])), [MARK], Frames(ms[1..]), Frame(ms[0]));
    assert ([MARK] + x)[1..] == x;
  }

  lemma LongerBytes(g: seq<Byte>, a: seq<Byte>, b: seq<Byte>)
    requires g == a + ([MARK] + b)
    ensures |g| == |a| + 1 + |b|
  {
  }

  /** One call with any bytes in front of good frames that hold a mark. */
  lemma GarbageStep(s: RxState, chunk: seq<Byte>, later: seq<Byte>, g: seq<Byte>, ms: seq<Msg>, registered: set<nat>,
                    r: RxStep)
    returns (o: Past)
    requires MARK in g && Carried(ms) && ms != [] && (s.pending + chunk) + later == g + Frames(ms)
    requires r == ProcessStep(s, chunk, registered)
    ensures IsPast(o, g, ms, later, r)
  {
    var a, b := FirstMark(g);
    var m := SecondMark(b);
    FramesStartWithMark(ms);
    var f := Frames(ms);
    var rest := if m.Within? then m.d + f else f[1..];
    Spread(g, a, b, m, f);
    var h := HowFar(s.pending + chunk, later, a, m.w, rest);
    match h
    case Short =>
      BeforeMark(s, chunk, later, a, b, g, ms, registered, r);
      o := Still(g[|s.pending + chunk|..]);
    case Half(x) =>
      OnlyOneMark(a, x, s.pending + chunk);
      OneMarkStep(s, chunk, s.pending + chunk, registered, r);
      o := Still(g);
    case Full(x) =>
      o := FullStep(s, chunk, later, a, b, m, x, g, ms, f, registered, r);
  }

  /** The whole span is there. */
  lemma FullStep(s: RxState, chunk: seq<Byte>, later: seq<Byte>, a: seq<Byte>, b: seq<Byte>, m: Second, x: seq<Byte>,
                 g: seq<Byte>, ms: seq<Msg>, f: seq<Byte>, registered: set<nat>, r: RxStep)
    returns (o: Past)
    requires MARK !in a && MARK !in m.w && Carried(ms) && ms != [] && f == Frames(ms) && f != [] && f[0] == MARK
    requires g == a + ([MARK] + b) && Marks(g) == 1 + Marks(b)
    requires if m.Within? then b == m.w + ([MARK] + m.d) && Marks(b) == 1 + Marks(m.d) else b == m.w
    requires s.pending + chunk == Misaligned(a, m.w + ([MARK] + x))
    requires x + later == if m.Within? then m.d + f else f[1..]
    requires r == ProcessStep(s, chunk, registered)
    ensures IsPast(o, g, ms, later, r)
  {
    LongerBytes(g, a, b);
    if m.Within? {
      LongerBytes(b, m.w, m.d);
      o := WithinStep(s, chunk, later, a, m.w, m.d, x, g, ms, registered, r);
    } else {
      assert [MARK] + f[1..] == f;
      o := OpeningStep(s, chunk, later, a, m.w, x, g, ms, registered, r);
    }
  }

  lemma Spread(g: seq<Byte>, a: seq<Byte>, b: seq<Byte>, m: Second, f: seq<Byte>)
    requires g == a + ([MARK] + b) && f != [] && f[0] == MARK
    requires if m.Within? then b == m.w + ([MARK] + m.d) else b == m.w
    ensures g + f == a + ([MARK] + (m.w + ([MARK] + if m.Within? then m.d + f else f[1..])))
  {
    if m.Within? {
      Regrouped(a, MARK, m.w, m.d, f);
    } else {
      assert [MARK] + f[1..] == f;
      assert (a + ([MARK] + m.w)) + f == a + ([MARK] + (m.w + f));
    }
  }

  lemma Regrouped<T>(a: seq<T>, x: T, w: seq<T>, d: seq<T>, f: seq<T>)
    ensures (a + ([x] + (w + ([x] + d)))) + f == a + ([x] + (w + ([x] + (d + f))))
  {
  }

  /** The bytes at hand end before the first mark. */
  lemma BeforeMark(s: RxState, chunk: seq<Byte>, later: seq<Byte>, a: seq<Byte>, b: seq<Byte>, g: seq<Byte>, ms: seq<Msg>,
                   registered: set<nat>, r: RxStep)
    requires MARK !in a && g == a + ([MARK] + b) && Carried(ms) && ms != []
    requires |s.pending + chunk| <= |a| && s.pending + chunk == a[..|s.pending + chunk|] && later != []
    requires (s.pending + chunk) + later == g + Frames(ms) && r == ProcessStep(s, chunk, registered)
    ensures IsPast(Still(g[|s.pending + chunk|..]), g, ms, later, r)
  {
    var all, g' := s.pending + chunk, g[|s.pending + chunk|..];
    ScanJunk(all);
    JunkStep(s, chunk, all, registered, r);
    CutPrefix(all, later, g, Frames(ms));
    assert g == g[..|all|] + g' && g[..|all|] == all;
    MarksConcat(all, g');
    assert [] + later == later;
  }

  // ---------- whole runs ----------

  /** Just inside the first good frame, with the flag down: an initial block of the messages is lost. */
  ghost predicate LosesFrom(s: RxState, calls: seq<ReadResult>, ms: seq<Msg>, lost: nat, registered: set<nat>)
    requires Carried(ms)
  {
    && ms != [] && !s.checkLen
    && s.pending + Stream(calls) == Misaligned(Stuff(Body(ms[0])), Frames(ms[1..]))
    && lost == 1 + if SomeFindsOne(s, calls, registered) then Losses(s, calls, registered) else |ms| - 1
  }

  /**
   The first k calls get past the bytes, and deliver no more than these have marks. From there on all the good messages
   are delivered, but for an initial block if that point lies inside the first frame.
   */
  ghost predicate GetsPast(s: RxState, calls: seq<ReadResult>, all: seq<ReadResult>, g: seq<Byte>, ms: seq<Msg>,
                           registered: set<nat>, r: RxStep, k: nat, lost: nat)
    requires Carried(ms)
  {
    && k <= |all| && lost <= |ms|
    && var a := Run(s, all[..k], registered);
       && |a.out| <= Marks(g)
       && r.out == a.out + ExpectedAll(ms[lost..], registered)
       && (lost > 0 ==> LosesFrom(a.state, if k <= |calls| then calls[k..] else [], ms, lost, registered))
  }

  lemma NoCalls(s: RxState, all: seq<ReadResult>, registered: set<nat>)
    ensures Run(s, all[..0], registered) == RxStep(s, [])
  {
  }

  lemma OneMoreCall(s: RxState, all: seq<ReadResult>, k: nat, registered: set<nat>, step: RxStep, a: RxStep, a': RxStep)
    requires all != [] && all[0].Got? && k < |all| && step == ProcessStep(s, all[0].bytes, registered)
    requires a == Run(s, all[..k + 1], registered) && a' == Run(step.state, all[1..][..k], registered)
    ensures a == RxStep(a'.state, step.out + a'.out)
  {
    assert all[..k + 1][1..] == all[1..][..k];
    RunGot(s, all[..k + 1], registered, a, step, a');
  }

  lemma OneMoreFailed(s: RxState, all: seq<ReadResult>, k: nat, registered: set<nat>, a: RxStep, a': RxStep)
    requires all != [] && all[0].Failed? && k < |all|
    requires a == Run(s, all[..k + 1], registered) && a' == Run(s, all[1..][..k], registered)
    ensures a == a'
  {
    assert all[..k + 1][1..] == all[1..][..k];
    RunFailed(s, all[..k + 1], registered, a, a');
  }

  /** The point that a later call gets to, counted from the first call. */
  lemma LaterPoint(s: RxState, calls: seq<ReadResult>, all: seq<ReadResult>, calls': seq<ReadResult>, g: seq<Byte>,
                   g': seq<Byte>, ms: seq<Msg>, registered: set<nat>, step: RxStep, rest: RxStep, r: RxStep, k: nat,
                   lost: nat)
    requires Carried(ms) && all != [] && all[0].Got? && step == ProcessStep(s, all[0].bytes, registered)
    requires calls' == if calls == [] then [] else calls[1..]
    requires r == RxStep(rest.state, step.out + rest.out) && |step.out| + Marks(g') <= Marks(g)
    requires GetsPast(step.state, calls', all[1..], g', ms, registered, rest, k, lost)
    ensures GetsPast(s, calls, all, g, ms, registered, r, k + 1, lost)
  {
    var a, a' := Run(s, all[..k + 1], registered), Run(step.state, all[1..][..k], registered);
    OneMoreCall(s, all, k, registered, step, a, a');
    Reassociate(step.out, a'.out, ExpectedAll(ms[lost..], registered), a.out);
    if calls != [] && k <= |calls'| {
      assert calls'[k..] == calls[k + 1..];
    }
  }

  lemma LaterPointFailed(s: RxState, calls: seq<ReadResult>, all: seq<ReadResult>, g: seq<Byte>, ms: seq<Msg>,
                         registered: set<nat>, r: RxStep, k: nat, lost: nat)
    requires Carried(ms) && calls != [] && all != [] && all[0].Failed?
    requires GetsPast(s, calls[1..], all[1..], g, ms, registered, r, k, lost)
    ensures GetsPast(s, calls, all, g, ms, registered, r, k + 1, lost)
  {
    OneMoreFailed(s, all, k, registered, Run(s, all[..k + 1], registered), Run(s, all[1..][..k], registered));
    if k <= |calls[1..]| {
      assert calls[1..][k..] == calls[k + 1..];
    }
  }

  /** A call that leaves the receiver just inside the first frame. */
  lemma InsidePoint(s: RxState, calls: seq<ReadResult>, all: seq<ReadResult>, calls': seq<ReadResult>, n: nat,
                    g: seq<Byte>, ms: seq<Msg>, registered: set<nat>, step: RxStep, rest: RxStep, r: RxStep)
    returns (lost: nat)
    requires Carried(ms) && ms != [] && n >= |ms| && MARK in g
    requires all != [] && all[0].Got? && step == ProcessStep(s, all[0].bytes, registered)
    requires calls' == (if calls == [] then [] else calls[1..]) && IsPast(Inside, g, ms, Stream(calls'), step)
    requires rest == Run(step.state, calls' + Polls(n), registered) && r == RxStep(rest.state, step.out + rest.out)
    ensures GetsPast(s, calls, all, g, ms, registered, r, 1, lost)
  {
    StuffIsClean(Body(ms[0]));
    var more := LosesInitialBlock(step.state, calls', Stuff(Body(ms[0])), ms[1..], n, registered, rest);
    lost := more + 1;
    var a, a' := Run(s, all[..1], registered), Run(step.state, all[1..][..0], registered);
    NoCalls(step.state, all[1..], registered);
    OneMoreCall(s, all, 0, registered, step, a, a');
    assert ms[1..][more..] == ms[lost..] && step.out + [] == step.out;
    var _, b := FirstMark(g);
  }

  lemma PointZero(s: RxState, calls: seq<ReadResult>, all: seq<ReadResult>, g: seq<Byte>, ms: seq<Msg>,
                  registered: set<nat>, r: RxStep)
    requires Carried(ms) && r.out == ExpectedAll(ms, registered)
    ensures GetsPast(s, calls, all, g, ms, registered, r, 0, 0)
  {
    NoCalls(s, all, registered);
    NoOutput(r);
    assert ms[0..] == ms;
  }

  /**
   Any bytes in front of good frames, split in any way: the receiver gets past them, and after that loses an initial
   block of the good messages at most.
   */
  lemma {:induction false} AnyBytes(s: RxState, calls: seq<ReadResult>, n: nat, all: seq<ReadResult>, g: seq<Byte>,
                                    ms: seq<Msg>, registered: set<nat>, r: RxStep)
    returns (k: nat, lost: nat)
    requires Carried(ms) && ms != [] && n > |g| + |ms| && all == calls + Polls(n)
    requires s.pending + Stream(calls) == g + Frames(ms) && r == Run(s, all, registered)
    ensures GetsPast(s, calls, all, g, ms, registered, r, k, lost)
    decreases |calls|, n
  {
    if MARK !in g {
      JunkThenFrames(s, calls, g, ms, n, registered, r);
      PointZero(s, calls, all, g, ms, registered, r);
      return 0, 0;
    }
    var calls', n' := FirstCall(s, calls, n, all);
    if all[0].Failed? {
      var rest := Run(s, all[1..], registered);
      RunFailed(s, all, registered, r, rest);
      k, lost := AnyBytes(s, calls', n', all[1..], g, ms, registered, rest);
      LaterPointFailed(s, calls, all, g, ms, registered, r, k, lost);
      k := k + 1;
      return;
    }
    var step := ProcessStep(s, all[0].bytes, registered);
    var rest := Run(step.state, all[1..], registered);
    RunGot(s, all, registered, r, step, rest);
    var o := GarbageStep(s, all[0].bytes, Stream(calls'), g, ms, registered, step);
    if o.Inside? {
      lost := InsidePoint(s, calls, all, calls', n', g, ms, registered, step, rest, r);
      k := 1;
    } else {
      k, lost := AnyBytes(step.state, calls', n', all[1..], o.g, ms, registered, rest);
      LaterPoint(s, calls, all, calls', g, o.g, ms, registered, step, rest, r, k, lost);
      k := k + 1;
    }
  }

  /** The first of the calls, or of the polls that follow them. */
  lemma FirstCall(s: RxState, calls: seq<ReadResult>, n: nat, all: seq<ReadResult>)
    returns (calls': seq<ReadResult>, n': nat)
    requires n > 0 && all == calls + Polls(n)
    ensures calls' == if calls == [] then [] else calls[1..]
    ensures n' == if calls == [] then n - 1 else n
    ensures all != [] && all[1..] == calls' + Polls(n') && (all[0].Failed? ==> calls != [])
    ensures all[0].Got? ==> (s.pending + all[0].bytes) + Stream(calls') == s.pending + Stream(calls)
    ensures all[0].Failed? ==> Stream(calls') == Stream(calls)
    ensures calls == [] ==> Stream(calls') == []
  {
    if calls == [] {
      calls', n' := [], n - 1;
      assert all == Polls(n) && Polls(n)[1..] == Polls(n - 1) && [] + Polls(n - 1) == Polls(n - 1);
      assert s.pending + [] == s.pending;
    } else {
      calls', n' := calls[1..], n;
      HeadTail(calls, Polls(n));
      if calls[0].Got? {
        StreamGot(calls, s.pending, s.pending + Stream(calls));
      }
    }
  }
}
