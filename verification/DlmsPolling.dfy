/** Which nodes are polled: how a dialogue's end decides who is next, and a whole cycle in which nothing goes wrong. */
module DlmsPolling {
  import opened Dlms
  import opened DlmsRuns

  /** Every timer that goes off has been started before. */
  ghost predicate AllRunning(s: Sched, events: seq<Event>)
    requires Inv(s) && forall i :: 0 <= i < |events| ==> Admissible(events[i])
    decreases |events|
  {
    events != [] ==>
      && (events[0].Fired? ==> events[0].timer in s.timers)
      && (KeepsInv(s, events[0]); AllRunning(Next(s, events[0]), events[1..]))
  }

  /** Every timer that goes off is the only one that is due. */
  ghost predicate AllAlone(s: Sched, events: seq<Event>)
    requires Inv(s) && forall i :: 0 <= i < |events| ==> Admissible(events[i])
    decreases |events|
  {
    events != [] ==>
      && (events[0].Fired? ==> s.timers == {events[0].timer})
      && (KeepsInv(s, events[0]); AllAlone(Next(s, events[0]), events[1..]))
  }

  /** One event more in front. */
  lemma Before(s: Sched, e: Event, events: seq<Event>, next: Sched)
    requires Inv(s) && Admissible(e) && forall i :: 0 <= i < |events| ==> Admissible(events[i])
    requires next == Next(s, e)
    ensures Inv(next)
    ensures RunEvents(s, [e] + events) == RunEvents(next, events)
    ensures AllRunning(s, [e] + events) <==> (e.Fired? ==> e.timer in s.timers) && AllRunning(next, events)
    ensures AllAlone(s, [e] + events) <==> (e.Fired? ==> s.timers == {e.timer}) && AllAlone(next, events)
  {
    KeepsInv(s, e);
    assert ([e] + events)[1..] == events;
  }

  lemma NoEvents(s: Sched)
    requires Inv(s)
    ensures RunEvents(s, []) == s && AllRunning(s, []) && AllAlone(s, [])
  {
  }

  lemma {:induction false} RunThenRun(s: Sched, a: seq<Event>, b: seq<Event>, between: Sched)
    requires Inv(s) && forall i :: 0 <= i < |a| ==> Admissible(a[i])
    requires forall i :: 0 <= i < |b| ==> Admissible(b[i])
    requires between == RunEvents(s, a)
    ensures RunEvents(s, a + b) == RunEvents(between, b)
    ensures AllRunning(s, a) && AllRunning(between, b) ==> AllRunning(s, a + b)
    ensures AllAlone(s, a) && AllAlone(between, b) ==> AllAlone(s, a + b)
    decreases |a|
  {
    if a == [] {
      assert a + b == b;
    } else {
      var next := Next(s, a[0]);
      assert a == [a[0]] + a[1..] && a + b == [a[0]] + (a[1..] + b);
      Before(s, a[0], a[1..], next);
      Before(s, a[0], a[1..] + b, next);
      RunThenRun(next, a[1..], b, between);
    }
  }

  // ---------- how a dialogue ends ----------

  datatype Ending = GoodAnswer | BadAnswer | FailedConfirm | NoAnswer

  /** What follows the last request of a dialogue, with the timers that this starts. */
  function EndingEvents(e: Ending): seq<Event> {
    match e
    case GoodAnswer => [Confirmed(Success), Indicated(true), Fired(NextStepTimer), Fired(NextNodeTimer)]
    case BadAnswer => [Confirmed(Success), Indicated(false), Fired(NextNodeTimer)]
    case FailedConfirm => [Confirmed(Failure), Fired(NextNodeTimer)]
    case NoAnswer => [Confirmed(Success), Fired(TimeoutTimer)]
  }

  lemma TwoEvents(s: Sched, a: Event, b: Event)
    requires Inv(s) && Admissible(a) && Admissible(b)
    ensures Inv(Next(s, a)) && RunEvents(s, [a, b]) == Next(Next(s, a), b)
    ensures AllRunning(s, [a, b]) <==>
              (a.Fired? ==> a.timer in s.timers) && (b.Fired? ==> b.timer in Next(s, a).timers)
    ensures AllAlone(s, [a, b]) <==>
              (a.Fired? ==> s.timers == {a.timer}) && (b.Fired? ==> Next(s, a).timers == {b.timer})
  {
    assert [a, b] == [a] + ([b] + []);
    Before(s, a, [b] + [], Next(s, a));
    Before(Next(s, a), b, [], Next(Next(s, a), b));
    NoEvents(Next(Next(s, a), b));
  }

  lemma RunOfThree(s: Sched, a: Event, b: Event, c: Event)
    requires Inv(s) && Admissible(a) && Admissible(b) && Admissible(c)
    ensures Inv(Next(s, a)) && Inv(Next(Next(s, a), b))
    ensures RunEvents(s, [a, b, c]) == Next(Next(Next(s, a), b), c)
    ensures AllRunning(s, [a, b, c]) <==>
              && (a.Fired? ==> a.timer in s.timers)
              && (b.Fired? ==> b.timer in Next(s, a).timers)
              && (c.Fired? ==> c.timer in Next(Next(s, a), b).timers)
    ensures AllAlone(s, [a, b, c]) <==>
              && (a.Fired? ==> s.timers == {a.timer})
              && (b.Fired? ==> Next(s, a).timers == {b.timer})
              && (c.Fired? ==> Next(Next(s, a), b).timers == {c.timer})
  {
    assert [a, b, c] == [a] + [b, c];
    Before(s, a, [b, c], Next(s, a));
    KeepsInv(Next(s, a), b);
    TwoEvents(Next(s, a), b, c);
  }

  /**
   After a good answer to its release, the scheduler moves on when the step timer goes off and again when the node timer
   does: the next connected node is passed over, and the one after it is polled, if there is one.
   */
  lemma ReleaseSkipsNode(s: Sched, n1: nat, n2: nat, t: Sched)
    requires Inv(s) && s.node < NODES && s.step == Release
    requires IsNextConnected(s.connected, s.node, n1) && n1 < NODES && IsNextConnected(s.connected, n1, n2)
    requires t == RunEvents(s, [Indicated(true), Fired(NextStepTimer), Fired(NextNodeTimer)])
    ensures t.node == n2 && AllRunning(s, [Indicated(true), Fired(NextStepTimer), Fired(NextNodeTimer)])
    ensures s.timers == {TimeoutTimer} ==>
              && AllAlone(s, [Indicated(true), Fired(NextStepTimer), Fired(NextNodeTimer)])
              && t.timers == if n2 < NODES then {} else {NextCycleTimer}
    ensures t.log == s.log + if n2 < NODES then [Request(n2, Association, 0)] else []
  {
    SearchIsExact(s, s.node, n1);
    SearchIsExact(s, n1, n2);
    RunOfThree(s, Indicated(true), Fired(NextStepTimer), Fired(NextNodeTimer));
    var s2 := Next(Next(s, Indicated(true)), Fired(NextStepTimer));
    ReleaseAdvances(s, n1, s2);
    Advance(s2.(timers := s2.timers - {NextNodeTimer}), t);
  }

  lemma ReleaseAdvances(s: Sched, n1: nat, t: Sched)
    requires Inv(s) && s.step == Release
    requires n1 == GetNext(s.connected, s.max, s.node)
    requires t == Next(Next(s, Indicated(true)), Fired(NextStepTimer))
    ensures t == s.(node := n1, timers := t.timers)
    ensures NextStepTimer in Next(s, Indicated(true)).timers
    ensures (if n1 < NODES then NextNodeTimer else NextCycleTimer) in t.timers
    ensures s.timers == {TimeoutTimer} ==>
              && Next(s, Indicated(true)).timers == {NextStepTimer}
              && t.timers == {if n1 < NODES then NextNodeTimer else NextCycleTimer}
  {
  }

  /** Whatever timer sends the scheduler on to the next node, that node gets the first request. */
  lemma MoveOnRuns(s: Sched, started: Event, timer: Timer, s1: Sched, n1: nat, t: Sched)
    requires Inv(s) && s.node < NODES && (timer == NextNodeTimer || timer == TimeoutTimer)
    requires Admissible(started) && !started.Fired? && s1 == Next(s, started)
    requires s1 == s.(timers := s1.timers) && timer in s1.timers
    requires IsNextConnected(s.connected, s.node, n1) && n1 < NODES
    requires t == RunEvents(s, [started, Fired(timer)])
    ensures AllRunning(s, [started, Fired(timer)])
    ensures s1.timers == {timer} ==> AllAlone(s, [started, Fired(timer)]) && t.timers == {}
    ensures t.log == s.log + [Request(n1, Association, 0)]
  {
    TwoEvents(s, started, Fired(timer));
    MoveOnStep(s1, timer, n1, t);
  }

  lemma MoveOnStep(s: Sched, timer: Timer, n1: nat, t: Sched)
    requires Inv(s) && s.node < NODES && (timer == NextNodeTimer || timer == TimeoutTimer)
    requires IsNextConnected(s.connected, s.node, n1) && n1 < NODES
    requires t == Next(s, Fired(timer))
    ensures t.log == s.log + [Request(n1, Association, 0)] && t.timers == s.timers - {timer}
  {
    SearchIsExact(s, s.node, n1);
    Advance(s.(timers := s.timers - {timer}), t);
  }

  /** A good answer to a release: both timers that follow move the scheduler on. */
  lemma GoodAnswerRuns(s: Sched, n1: nat, n2: nat, t: Sched)
    requires Inv(s) && s.node < NODES && s.step == Release
    requires IsNextConnected(s.connected, s.node, n1) && n1 < NODES && IsNextConnected(s.connected, n1, n2)
    requires t == RunEvents(s, EndingEvents(GoodAnswer))
    ensures AllRunning(s, EndingEvents(GoodAnswer))
    ensures s.timers == {} ==>
              AllAlone(s, EndingEvents(GoodAnswer)) && t.timers == if n2 < NODES then {} else {NextCycleTimer}
    ensures t.log == s.log + if n2 < NODES then [Request(n2, Association, 0)] else []
  {
    var rest := [Indicated(true), Fired(NextStepTimer), Fired(NextNodeTimer)];
    var s1 := Next(s, Confirmed(Success));
    assert EndingEvents(GoodAnswer) == [Confirmed(Success)] + rest;
    Before(s, Confirmed(Success), rest, s1);
    ReleaseSkipsNode(s1, n1, n2, t);
  }

  /**
   However a dialogue ends, with every timer that this starts going off: a good answer ends one only at its release. The
   next request goes to the next connected node if and only if the answer was not a good one. After a good one it goes to
   the node after that, if there is one.
   */
  lemma NextPolledIff(s: Sched, e: Ending, n1: nat, n2: nat, t: Sched)
    requires Inv(s) && s.node < NODES && (e == GoodAnswer ==> s.step == Release)
    requires IsNextConnected(s.connected, s.node, n1) && n1 < NODES && IsNextConnected(s.connected, n1, n2)
    requires t == RunEvents(s, EndingEvents(e))
    ensures AllRunning(s, EndingEvents(e))
    ensures s.timers == {} ==>
              && AllAlone(s, EndingEvents(e))
              && t.timers == if e == GoodAnswer && n2 == NODES then {NextCycleTimer} else {}
    ensures t.log == s.log + [Request(n1, Association, 0)] <==> e != GoodAnswer
    ensures e == GoodAnswer ==> t.log == s.log + if n2 < NODES then [Request(n2, Association, 0)] else []
  {
    match e
    case GoodAnswer =>
      GoodAnswerRuns(s, n1, n2, t);
      assert (s.log + [Request(n1, Association, 0)])[|s.log|].node == n1;
      assert n2 < NODES ==> t.log[|s.log|].node == n2;
    case BadAnswer =>
      var s1 := Next(s, Confirmed(Success));
      var rest := [Indicated(false), Fired(NextNodeTimer)];
      assert EndingEvents(e) == [Confirmed(Success)] + rest;
      Before(s, Confirmed(Success), rest, s1);
      MoveOnRuns(s1, Indicated(false), NextNodeTimer, Next(s1, Indicated(false)), n1, t);
    case FailedConfirm =>
      MoveOnRuns(s, Confirmed(Failure), NextNodeTimer, Next(s, Confirmed(Failure)), n1, t);
    case NoAnswer =>
      MoveOnRuns(s, Confirmed(Success), TimeoutTimer, Next(s, Confirmed(Success)), n1, t);
  }

  // ---------- every interleaving ----------

  /** The step timer goes off when the release has been answered: the scheduler moves on without sending. */
  predicate ReleaseStep(s: Sched, e: Event) {
    e == Fired(NextStepTimer) && s.step == Release
  }

  /** What an event within a cycle makes of the node. */
  datatype NodeChange = Stays(sent: seq<Request>) | Passes | MovesOn

  ghost predicate ChangeIs(c: NodeChange, s: Sched, e: Event, t: Sched)
    requires s.Valid()
  {
    match c
    case Stays(sent) =>
      && t.node == s.node && t.log == s.log + sent && |sent| <= 1
      && (sent == [] && s.node < NODES ==> t.step == s.step)
      && (sent != [] ==> s.node < NODES && s.step != Release && sent[0].node == s.node)
    case Passes =>
      && ReleaseStep(s, e) && IsNextConnected(s.connected, s.node, t.node)
      && t.log == s.log && t.step == Release
    case MovesOn =>
      && !ReleaseStep(s, e) && IsNextConnected(s.connected, s.node, t.node)
      && t.log == if t.node < NODES then s.log + [Request(t.node, Association, 0)] else s.log
  }

  lemma MovesOnIs(s: Sched, e: Event, s': Sched, t: Sched)
    requires Inv(s) && s'.Valid() && !ReleaseStep(s, e) && t == CycleNextNode(s')
    requires s'.node == s.node && s'.connected == s.connected && s'.max == s.max && s'.log == s.log
    ensures ChangeIs(MovesOn, s, e, t)
  {
    SearchIsExact(s, s.node, GetNext(s.connected, s.max, s.node));
    Advance(s', t);
  }

  lemma SendIs(s: Sched, e: Event, s': Sched, t: Sched) returns (c: NodeChange)
    requires Inv(s) && s'.Valid() && s.step != Release && t == Send(s')
    requires s'.node == s.node && s'.connected == s.connected && s'.max == s.max && s'.log == s.log
    ensures ChangeIs(c, s, e, t) && c != Passes
  {
    if s'.Connected(s'.node) {
      Sends(s', t);
      c := Stays([t.log[|s.log|]]);
    } else {
      MovesOnIs(s, e, s', t);
      c := MovesOn;
    }
  }

  lemma NextStepIs(s: Sched, e: Event, s': Sched, t: Sched) returns (c: NodeChange)
    requires Inv(s) && s' == s.(timers := s'.timers) && e == Fired(NextStepTimer) && t == NextStep(s')
    ensures ChangeIs(c, s, e, t) && (c == Passes <==> ReleaseStep(s, e))
  {
    match s.step
    case Association => c := SendIs(s, e, s'.(step := Date, block := 0), t);
    case Date => c := SendIs(s, e, s'.(step := So2), t);
    case So2 => c := SendIs(s, e, s'.(step := NextBlock, block := 0), t);
    case NextBlock =>
      var block := (s.block + 1) % COUNTER;
      c := SendIs(s, e, if block > BLOCKS then s'.(step := Release, block := 0) else s'.(block := block), t);
    case Release =>
      SearchIsExact(s, s.node, GetNext(s.connected, s.max, s.node));
      c := Passes;
  }

  /**
   Under every interleaving: an event within a cycle leaves the node alone, or goes on to the next connected one. Unless
   it is the step timer at a release, the node that it goes on to has just got its first request.
   */
  lemma EventChanges(s: Sched, e: Event, t: Sched) returns (c: NodeChange)
    requires Inv(s) && Admissible(e) && WithinCycle(e) && t == Next(s, e)
    ensures ChangeIs(c, s, e, t) && (c == Passes <==> ReleaseStep(s, e))
  {
    match e
    case Fired(timer) =>
      var s' := s.(timers := s.timers - {timer});
      if timer == NextStepTimer {
        c := NextStepIs(s, e, s', t);
      } else {
        MovesOnIs(s, e, s', t);
        c := MovesOn;
      }
    case Listed(addresses, _) =>
      JoinAllKeeps(s, addresses);
      c := Stays([]);
    case _ =>
      c := Stays([]);
  }

  ghost predicate AllWithin(events: seq<Event>) {
    forall i :: 0 <= i < |events| ==> Admissible(events[i]) && WithinCycle(events[i])
  }

  /** The table stays as it is through all the events. */
  ghost predicate TableStays(s: Sched, events: seq<Event>)
    requires Inv(s) && AllWithin(events)
    decreases |events|
  {
    events != [] ==>
      (KeepsInv(s, events[0]); Next(s, events[0]).connected == s.connected && TableStays(Next(s, events[0]), events[1..]))
  }

  /** How many of the events are step timers at a release. */
  ghost function ReleaseSteps(s: Sched, events: seq<Event>): nat
    requires Inv(s) && AllWithin(events)
    decreases |events|
  {
    if events == [] then 0
    else
      KeepsInv(s, events[0]);
      (if ReleaseStep(s, events[0]) then 1 else 0) + ReleaseSteps(Next(s, events[0]), events[1..])
  }

  lemma {:induction false} LogGrows(s: Sched, events: seq<Event>)
    requires Inv(s) && AllWithin(events)
    ensures |RunEvents(s, events).log| >= |s.log|
    decreases |events|
  {
    if events != [] {
      var next := Next(s, events[0]);
      var c := EventChanges(s, events[0], next);
      KeepsInv(s, events[0]);
      LogGrows(next, events[1..]);
    }
  }

  lemma {:induction false} NobodyLeft(s: Sched, events: seq<Event>)
    requires Inv(s) && AllWithin(events) && s.node == NODES
    ensures RunEvents(s, events).node == NODES && RunEvents(s, events).log == s.log
    decreases |events|
  {
    if events != [] {
      var next := Next(s, events[0]);
      var c := EventChanges(s, events[0], next);
      KeepsInv(s, events[0]);
      assert next.log == s.log + [] || next.log == s.log;
      NobodyLeft(next, events[1..]);
    }
  }

  lemma OrdinalOfConnected(connected: seq<bool>, from: nat, n: nat)
    requires IsNextConnected(connected, from, n) && n < NODES
    ensures Ordinal(connected, n) == Ordinal(connected, from) + 1
  {
    OrdinalOfNext(connected, from, n, n);
  }

  /**
   Whatever events come between two requests of a cycle, while the table stays as it is: if the second goes to another
   node, exactly as many connected rows lie between the two nodes as step timers went off at a release in between.
   */
  lemma {:induction false} PassedOver(s: Sched, events: seq<Event>, last: Event, t: Sched, u: Sched, q: Request)
    requires Inv(s) && s.node < NODES && AllWithin(events) && TableStays(s, events)
    requires t == RunEvents(s, events) && t.log == s.log
    requires Admissible(last) && WithinCycle(last) && u == Next(t, last) && u.log == t.log + [q] && q.node < NODES
    ensures q.node == s.node ==> ReleaseSteps(s, events) == 0 && s.step != Release
    ensures q.node != s.node ==>
              q.node > s.node && Ordinal(s.connected, q.node) == Ordinal(s.connected, s.node) + 1 + ReleaseSteps(s, events)
    decreases |events|
  {
    if events == [] {
      var c := EventChanges(s, last, u);
      LastOf(s.log, q, u.log, c);
      if c.MovesOn? {
        OrdinalOfConnected(s.connected, s.node, u.node);
      }
    } else {
      var next := Next(s, events[0]);
      var c := EventChanges(s, events[0], next);
      KeepsInv(s, events[0]);
      LogGrows(next, events[1..]);
      if next.node == NODES {
        NobodyLeft(next, events[1..]);
        NobodySends(t, last, u);
      } else {
        PassedOver(next, events[1..], last, t, u, q);
        if c == Passes {
          OrdinalOfConnected(s.connected, s.node, next.node);
        }
      }
    }
  }

  lemma LastOf(log: seq<Request>, q: Request, log': seq<Request>, c: NodeChange)
    requires log' == log + [q]
    ensures log'[|log|] == q && log' != log
    ensures c.Stays? && log' == log + c.sent ==> c.sent == [q]
  {
    if c.Stays? && log' == log + c.sent {
      assert log'[|log|..] == c.sent && log'[|log|..] == [q];
    }
  }

  lemma NobodySends(s: Sched, e: Event, t: Sched)
    requires Inv(s) && s.node == NODES && Admissible(e) && WithinCycle(e) && t == Next(s, e)
    ensures |t.log| == |s.log|
  {
    var c := EventChanges(s, e, t);
  }

  // ---------- a cycle in which nothing goes wrong ----------

  /** A request is confirmed and answered well, and the step timer goes off. */
  function Round(): seq<Event> {
    [Confirmed(Success), Indicated(true), Fired(NextStepTimer)]
  }

  function Rounds(k: nat): (events: seq<Event>)
    ensures forall i :: 0 <= i < |events| ==> Admissible(events[i])
  {
    if k == 0 then [] else Round() + Rounds(k - 1)
  }

  /** How far the current dialogue has come. */
  function Place(s: Sched): nat {
    Position(Request(s.node, s.step, s.block))
  }

  lemma AnsweredWell(s: Sched, s1: Sched, s2: Sched)
    requires Inv(s) && s1 == Next(s, Confirmed(Success)) && s2 == Next(s1, Indicated(true))
    ensures Inv(s1) && Inv(s2) && NextStepTimer in s2.timers && (s.timers == {} ==> s2.timers == {NextStepTimer})
    ensures s2 == s.(timers := s2.timers)
  {
  }

  lemma RoundRuns(s: Sched, s2: Sched, t: Sched)
    requires Inv(s) && t == RunEvents(s, Round())
    requires s2 == Next(Next(s, Confirmed(Success)), Indicated(true))
    ensures Inv(t) && AllRunning(s, Round())
    ensures s.timers == {} ==> AllAlone(s, Round()) && s2.timers == {NextStepTimer}
    ensures s2 == s.(timers := s2.timers) && t == NextStep(s2.(timers := s2.timers - {NextStepTimer}))
  {
    AnsweredWell(s, Next(s, Confirmed(Success)), s2);
    RunOfThree(s, Confirmed(Success), Indicated(true), Fired(NextStepTimer));
    StepTimer(s2, t);
    KeepsInv(s2, Fired(NextStepTimer));
  }

  lemma StepTimer(s: Sched, t: Sched)
    requires Inv(s) && t == Next(s, Fired(NextStepTimer))
    ensures t == NextStep(s.(timers := s.timers - {NextStepTimer}))
  {
  }

  /** Within a dialogue a round sends the next request of it. */
  lemma RoundMoves(s: Sched, t: Sched) returns (q: Request)
    requires Inv(s) && s.Connected(s.node) && s.step != Release && t == RunEvents(s, Round())
    ensures Inv(t) && AllRunning(s, Round())
    ensures s.timers == {} ==> AllAlone(s, Round()) && t.timers == {}
    ensures t == s.(step := t.step, block := t.block, timers := t.timers, log := s.log + [q])
    ensures q.node == s.node && Place(t) == Place(s) + 1
  {
    var s2 := Next(Next(s, Confirmed(Success)), Indicated(true));
    RoundRuns(s, s2, t);
    q := NextStepSends(s2.(timers := s2.timers - {NextStepTimer}), t);
  }

  lemma NextStepSends(s: Sched, t: Sched) returns (q: Request)
    requires Inv(s) && s.Connected(s.node) && s.step != Release && t == NextStep(s)
    ensures t == s.(step := t.step, block := t.block, log := s.log + [q])
    ensures q.node == s.node && Place(t) == Place(s) + 1
  {
    match s.step {
      case Association => Sends(s.(step := Date, block := 0), t);
      case Date => Sends(s.(step := So2), t);
      case So2 => Sends(s.(step := NextBlock, block := 0), t);
      case NextBlock =>
        var block := (s.block + 1) % COUNTER;
        Sends(if block > BLOCKS then s.(step := Release, block := 0) else s.(block := block), t);
    }
    q := t.log[|s.log|];
  }

  /** The rest of a dialogue, up to its release. */
  lemma {:induction false} DialogueRuns(s: Sched, k: nat, t: Sched) returns (sent: seq<Request>)
    requires Inv(s) && s.Connected(s.node) && k == DIALOGUE - 1 - Place(s)
    requires t == RunEvents(s, Rounds(k))
    ensures AllRunning(s, Rounds(k))
    ensures s.timers == {} ==> AllAlone(s, Rounds(k)) && t.timers == {}
    ensures t == s.(step := Release, block := t.block, timers := t.timers, log := s.log + sent)
    ensures forall i :: 0 <= i < |sent| ==> sent[i].node == s.node
    decreases k
  {
    PlaceOfRelease(s);
    if k == 0 {
      NoEvents(s);
      sent := [];
    } else {
      var next := RunEvents(s, Round());
      RunThenRun(s, Round(), Rounds(k - 1), next);
      var q := RoundMoves(s, next);
      var rest := DialogueRuns(next, k - 1, t);
      sent := [q] + rest;
      assert s.log + sent == s.log + [q] + rest;
    }
  }

  lemma PlaceOfRelease(s: Sched)
    requires Inv(s) && s.node < NODES
    ensures Place(s) <= DIALOGUE - 1 && (Place(s) == DIALOGUE - 1 <==> s.step == Release)
  {
  }

  /**
   What follows an association that has been sent to node n when every answer is good: its whole dialogue, and the node
   timer if another node is connected; and so on from the node that is polled next.
   */
  function Faultless(connected: seq<bool>, max: nat, n: nat): (events: seq<Event>)
    requires max <= |connected| == NODES && n < NODES
    ensures forall i :: 0 <= i < |events| ==> Admissible(events[i])
    decreases NODES - n
  {
    var n1 := GetNext(connected, max, n);
    if n1 == NODES then Rounds(DIALOGUE)
    else
      var n2 := GetNext(connected, max, n1);
      Rounds(DIALOGUE) + ([Fired(NextNodeTimer)] + if n2 == NODES then [] else Faultless(connected, max, n2))
  }

  ghost predicate Polled(sent: seq<Request>, n: nat) {
    exists i :: 0 <= i < |sent| && sent[i].node == n
  }

  /** How many rows from 1 to n are connected. */
  function Ordinal(connected: seq<bool>, n: nat): nat
    requires n < |connected|
  {
    if n == 0 then 0 else Ordinal(connected, n - 1) + if connected[n] then 1 else 0
  }

  lemma {:induction false} OrdinalOfNext(connected: seq<bool>, from: nat, n: nat, x: nat)
    requires IsNextConnected(connected, from, n) && from <= x < NODES && x <= n
    ensures Ordinal(connected, x) == Ordinal(connected, from) + if x == n then 1 else 0
    decreases x
  {
    if from < x {
      OrdinalOfNext(connected, from, n, x - 1);
    }
  }

  /** All eleven rounds of a node, and where they leave the scheduler. */
  lemma WholeDialogue(s: Sched, t: Sched, n1: nat) returns (sent: seq<Request>)
    requires Inv(s) && s.Connected(s.node) && s.step == Association && t == RunEvents(s, Rounds(DIALOGUE))
    requires n1 == GetNext(s.connected, s.max, s.node)
    ensures Inv(t) && AllRunning(s, Rounds(DIALOGUE))
    ensures t == s.(node := n1, step := Release, block := t.block, timers := t.timers, log := s.log + sent)
    ensures (if n1 < NODES then NextNodeTimer else NextCycleTimer) in t.timers
    ensures s.timers == {} ==>
              AllAlone(s, Rounds(DIALOGUE)) && t.timers == {if n1 < NODES then NextNodeTimer else NextCycleTimer}
    ensures forall i :: 0 <= i < |sent| ==> sent[i].node == s.node
  {
    RoundsAdd(DIALOGUE - 1);
    var atRelease := RunEvents(s, Rounds(DIALOGUE - 1));
    sent := DialogueRuns(s, DIALOGUE - 1, atRelease);
    RunThenRun(s, Rounds(DIALOGUE - 1), Round(), atRelease);
    RoundRuns(atRelease, Next(Next(atRelease, Confirmed(Success)), Indicated(true)), t);
  }

  lemma {:induction false} RoundsAdd(k: nat)
    ensures Rounds(k + 1) == Rounds(k) + Round()
    decreases k
  {
    if k == 0 {
      assert Rounds(1) == Round() + Rounds(0);
    } else {
      RoundsAdd(k - 1);
      assert Rounds(k + 1) == Round() + (Rounds(k - 1) + Round());
    }
  }

  /** The row after from that is polled next is two connected rows on. */
  lemma BetweenPolls(connected: seq<bool>, from: nat, n1: nat, n2: nat, x: nat)
    requires IsNextConnected(connected, from, n1)
    requires if n1 < NODES then IsNextConnected(connected, n1, n2) else n2 == NODES
    requires from < x < NODES && x <= n2
    ensures connected[x] && (Ordinal(connected, x) - Ordinal(connected, from)) % 2 == 0 <==> x == n2
    ensures x == n2 ==> Ordinal(connected, x) == Ordinal(connected, from) + 2
  {
    if x <= n1 {
      OrdinalOfNext(connected, from, n1, x);
    } else {
      OrdinalOfNext(connected, from, n1, n1);
      OrdinalOfNext(connected, n1, n2, x);
    }
  }

  /** Within a faultless cycle, from a node that has just got its first request: every second connected row is polled. */
  ghost predicate EverySecond(connected: seq<bool>, from: nat, sent: seq<Request>)
    requires |connected| == NODES && from < NODES
  {
    && (forall i :: 0 <= i < |sent| ==> sent[i].node >= from)
    && (forall x :: from < x < NODES ==>
          (Polled(sent, x) <==> connected[x] && (Ordinal(connected, x) - Ordinal(connected, from)) % 2 == 0))
  }

  lemma LastPolled(connected: seq<bool>, from: nat, n1: nat, own: seq<Request>)
    requires IsNextConnected(connected, from, n1) && from < NODES
    requires n1 < NODES ==> IsNextConnected(connected, n1, NODES)
    requires forall i :: 0 <= i < |own| ==> own[i].node == from
    ensures EverySecond(connected, from, own)
  {
    forall x | from < x < NODES
      ensures Polled(own, x) <==> connected[x] && (Ordinal(connected, x) - Ordinal(connected, from)) % 2 == 0
    {
      BetweenPolls(connected, from, n1, NODES, x);
    }
  }

  lemma PolledParts(own: seq<Request>, r: Request, later: seq<Request>, x: nat)
    ensures Polled(own + ([r] + later), x) <==> Polled(own, x) || r.node == x || Polled(later, x)
  {
    var all := own + ([r] + later);
    assert forall i :: 0 <= i < |own| ==> all[i] == own[i];
    assert all[|own|] == r;
    assert forall i :: 0 <= i < |later| ==> all[|own| + 1 + i] == later[i];
  }

  lemma MorePolled(connected: seq<bool>, from: nat, n1: nat, n2: nat, own: seq<Request>, r: Request, later: seq<Request>)
    requires IsNextConnected(connected, from, n1) && n1 < NODES && IsNextConnected(connected, n1, n2) && n2 < NODES
    requires forall i :: 0 <= i < |own| ==> own[i].node == from
    requires r.node == n2 && EverySecond(connected, n2, later)
    ensures EverySecond(connected, from, own + ([r] + later))
  {
    forall x | from < x < NODES
      ensures Polled(own + ([r] + later), x) <==>
                connected[x] && (Ordinal(connected, x) - Ordinal(connected, from)) % 2 == 0
    {
      PolledParts(own, r, later, x);
      BetweenPolls(connected, from, n1, n2, if x <= n2 then x else n2);
    }
  }

  /** The node timer takes the scheduler on: to the next node's first request, or to the end of the cycle. */
  lemma NodeTimerMoves(s: Sched, next: Sched, n2: nat, r: Request)
    requires Inv(s) && next == Next(s, Fired(NextNodeTimer)) && n2 == GetNext(s.connected, s.max, s.node)
    requires r == Request(n2, Association, 0)
    ensures Inv(next) && next.connected == s.connected && next.max == s.max && next.node == n2
    ensures n2 < NODES ==> next.Connected(n2) && next.step == Association && next.log == s.log + [r]
    ensures n2 == NODES ==> NextCycleTimer in next.timers && next.log == s.log
    ensures s.timers == {NextNodeTimer} ==> next.timers == if n2 < NODES then {} else {NextCycleTimer}
  {
    KeepsInv(s, Fired(NextNodeTimer));
    Advance(s.(timers := s.timers - {NextNodeTimer}), next);
  }

  lemma FaultlessIs(connected: seq<bool>, max: nat, n: nat, n1: nat, n2: nat, tail: seq<Event>)
    requires max <= |connected| == NODES && n < NODES
    requires n1 == GetNext(connected, max, n) && n1 < NODES && n2 == GetNext(connected, max, n1)
    requires tail == if n2 == NODES then [] else Faultless(connected, max, n2)
    ensures Faultless(connected, max, n) == Rounds(DIALOGUE) + ([Fired(NextNodeTimer)] + tail)
  {
  }

  /** After a node's dialogue, the events that follow the node timer. */
  lemma ThenNodeTimer(s: Sched, mid: Sched, next: Sched, tail: seq<Event>, events: seq<Event>)
    requires Inv(s) && mid == RunEvents(s, Rounds(DIALOGUE)) && AllRunning(s, Rounds(DIALOGUE))
    requires forall i :: 0 <= i < |tail| ==> Admissible(tail[i])
    requires NextNodeTimer in mid.timers && next == Next(mid, Fired(NextNodeTimer))
    requires events == Rounds(DIALOGUE) + ([Fired(NextNodeTimer)] + tail)
    ensures Inv(next) && RunEvents(s, events) == RunEvents(next, tail)
    ensures AllRunning(next, tail) ==> AllRunning(s, events)
    ensures AllAlone(s, Rounds(DIALOGUE)) && mid.timers == {NextNodeTimer} && AllAlone(next, tail) ==> AllAlone(s, events)
  {
    RunThenRun(s, Rounds(DIALOGUE), [Fired(NextNodeTimer)] + tail, mid);
    Before(mid, Fired(NextNodeTimer), tail, next);
  }

  lemma LogParts(log: seq<Request>, own: seq<Request>, r: Request, later: seq<Request>)
    ensures log + own + [r] + later == log + (own + ([r] + later))
  {
  }

  lemma {:induction false} FaultlessPolls(s: Sched, events: seq<Event>, t: Sched) returns (sent: seq<Request>)
    requires Inv(s) && s.Connected(s.node) && s.step == Association
    requires events == Faultless(s.connected, s.max, s.node) && t == RunEvents(s, events)
    ensures AllRunning(s, events) && NextCycleTimer in t.timers
    ensures s.timers == {} ==> AllAlone(s, events) && t.timers == {NextCycleTimer}
    ensures t.log == s.log + sent && EverySecond(s.connected, s.node, sent)
    decreases NODES - s.node, 1
  {
    var n1 := GetNext(s.connected, s.max, s.node);
    var mid := RunEvents(s, Rounds(DIALOGUE));
    SearchIsExact(s, s.node, n1);
    var own := WholeDialogue(s, mid, n1);
    if n1 == NODES {
      LastPolled(s.connected, s.node, n1, own);
      sent := own;
    } else {
      var n2 := GetNext(s.connected, s.max, n1);
      SearchIsExact(s, n1, n2);
      sent := AfterDialogue(s, mid, n1, n2, own, events, t);
    }
  }

  lemma {:induction false} AfterDialogue(s: Sched, mid: Sched, n1: nat, n2: nat, own: seq<Request>, events: seq<Event>,
                                         t: Sched)
    returns (sent: seq<Request>)
    requires Inv(s) && s.node < NODES && mid == RunEvents(s, Rounds(DIALOGUE)) && AllRunning(s, Rounds(DIALOGUE))
    requires mid == s.(node := n1, step := Release, block := mid.block, timers := mid.timers, log := s.log + own)
    requires NextNodeTimer in mid.timers && forall i :: 0 <= i < |own| ==> own[i].node == s.node
    requires s.timers == {} ==> AllAlone(s, Rounds(DIALOGUE)) && mid.timers == {NextNodeTimer}
    requires n1 == GetNext(s.connected, s.max, s.node) && n1 < NODES && n2 == GetNext(s.connected, s.max, n1)
    requires IsNextConnected(s.connected, s.node, n1) && IsNextConnected(s.connected, n1, n2)
    requires events == Faultless(s.connected, s.max, s.node) && t == RunEvents(s, events)
    ensures AllRunning(s, events) && NextCycleTimer in t.timers
    ensures s.timers == {} ==> AllAlone(s, events) && t.timers == {NextCycleTimer}
    ensures t.log == s.log + sent && EverySecond(s.connected, s.node, sent)
    decreases NODES - s.node, 0
  {
    var tail := if n2 == NODES then [] else Faultless(s.connected, s.max, n2);
    var next, r := Next(mid, Fired(NextNodeTimer)), Request(n2, Association, 0);
    FaultlessIs(s.connected, s.max, s.node, n1, n2, tail);
    ThenNodeTimer(s, mid, next, tail, events);
    NodeTimerMoves(mid, next, n2, r);
    if n2 == NODES {
      NoEvents(next);
      LastPolled(s.connected, s.node, n1, own);
      sent := own;
    } else {
      var later := FaultlessPolls(next, tail, t);
      MorePolled(s.connected, s.node, n1, n2, own, r, later);
      LogParts(s.log, own, r, later);
      sent := own + ([r] + later);
    }
  }

  /** Where the start of a cycle leaves the scheduler. */
  lemma CycleStarts(s: Sched, s1: Sched, n: nat) returns (first: Request)
    requires Inv(s) && 0 < n < NODES && s.connected[n] && s1 == Next(s, Fired(NextCycleTimer))
    ensures Inv(s1) && s1.connected == s.connected && s1.Connected(s1.node) && s1.step == Association
    ensures IsNextConnected(s.connected, 0, s1.node) && first.node == s1.node && s1.log == s.log + [first]
    ensures s1.timers == s.timers - {NextCycleTimer}
  {
    var sent := StartMoves(s.(timers := s.timers - {NextCycleTimer}), s1);
    first := sent[0];
  }

  /**
   A cycle in which every answer is good and every timer that is started goes off in turn: of the connected rows above the
   first of the table, exactly the first, the third, the fifth and so on are polled. Then the next cycle is due. If nothing
   else was due at the start, each timer that goes off is the only one that is due, and so is the next cycle at the end.
   */
  lemma FaultlessCycle(s: Sched, n: nat, s1: Sched, events: seq<Event>, t: Sched) returns (sent: seq<Request>)
    requires Inv(s) && 0 < n < NODES && s.connected[n]
    requires s1 == Next(s, Fired(NextCycleTimer)) && s1.Valid() && s1.node < NODES
    requires events == Faultless(s1.connected, s1.max, s1.node)
    requires Inv(s1) && t == RunEvents(s1, events)
    ensures AllRunning(s1, events) && NextCycleTimer in t.timers
    ensures s.timers == {NextCycleTimer} ==> AllAlone(s1, events) && t.timers == {NextCycleTimer}
    ensures t.log == s.log + sent
    ensures forall x :: 0 < x < NODES ==> (Polled(sent, x) <==> s.connected[x] && Ordinal(s.connected, x) % 2 == 1)
  {
    var first := CycleStarts(s, s1, n);
    var later := FaultlessPolls(s1, events, t);
    sent := [first] + later;
    FirstPolled(s.connected, s1.node, first, later);
    LogParts(s.log, [], first, later);
    assert s.log + [] == s.log && [] + sent == sent;
  }

  lemma FirstPolled(connected: seq<bool>, n: nat, r: Request, later: seq<Request>)
    requires IsNextConnected(connected, 0, n) && n < NODES && r.node == n && EverySecond(connected, n, later)
    ensures forall x :: 0 < x < NODES ==> (Polled([r] + later, x) <==> connected[x] && Ordinal(connected, x) % 2 == 1)
  {
    forall x | 0 < x < NODES
      ensures Polled([r] + later, x) <==> connected[x] && Ordinal(connected, x) % 2 == 1
    {
      assert [] + ([r] + later) == [r] + later;
      PolledParts([], r, later, x);
      OrdinalOfNext(connected, 0, n, if x <= n then x else n);
    }
  }
}
