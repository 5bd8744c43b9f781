/**
 How a cycle is begun and stopped, which timer is due at any moment, and who is in the table, over all runs of the polling
 scheduler.
 */
module DlmsEvents {
  import opened Dlms
  import opened DlmsRuns
  import opened DlmsPolling

  // ---------- the start of a cycle ----------

  /** What a start makes of the state: the least connected row above the first gets an association, if there is one. */
  ghost predicate Started(s: Sched, t: Sched, n: nat) {
    && t.log == (if n < NODES then s.log + [Request(n, Association, 0)] else s.log)
    && t.timers == s.timers && t.connected == s.connected
    && t.node == (if true in s.connected then n else s.node)
    && (n < NODES ==> t.step == Association)
  }

  lemma StartIs(s: Sched, t: Sched, n: nat)
    requires Inv(s) && t == StartCycle(s) && IsNextConnected(s.connected, 0, n)
    ensures Started(s, t, n)
  {
    if true in s.connected {
      RecountIsExact(s.connected, s.max);
      var max := Recount(s.connected, s.max);
      GetNextIsNext(s.connected, max, 0);
      assert n == GetNext(s.connected, max, 0);
      if n < NODES {
        Sends(s.(max := max, node := n, step := Association), t);
      }
    } else {
      assert forall i :: 0 <= i < NODES ==> !s.connected[i];
    }
  }

  /** A complete list joins its rows to the table and starts a cycle, whatever was going on. */
  lemma ListStarts(s: Sched, addresses: seq<nat>, t: Sched, n: nat)
    requires Inv(s) && Admissible(Listed(addresses, true)) && t == Next(s, Listed(addresses, true))
    requires IsNextConnected(t.connected, 0, n)
    ensures forall i :: 0 <= i < NODES ==> (t.connected[i] <==> s.connected[i] || i in addresses)
    ensures t.log == if n < NODES then s.log + [Request(n, Association, 0)] else s.log
    ensures t.timers == s.timers && t.node == (if true in t.connected then n else s.node)
  {
    JoinAllKeeps(s, addresses);
    var s' := JoinAll(s, addresses);
    var sent := StartMoves(s', t);
    StartIs(s', t, n);
  }

  lemma ListRequest(s: Sched, e: Event, t: Sched)
    requires Inv(s) && Admissible(e) && t == Next(s, e)
    ensures e.Listed? && e.complete ==>
              forall n: nat :: IsNextConnected(t.connected, 0, n) ==>
                            t.log == s.log + if n < NODES then [Request(n, Association, 0)] else []
  {
    if e.Listed? && e.complete {
      forall n: nat | IsNextConnected(t.connected, 0, n)
        ensures t.log == s.log + if n < NODES then [Request(n, Association, 0)] else []
      {
        ListStarts(s, e.addresses, t, n);
      }
    }
  }

  /** A list that is not complete only joins its rows. */
  lemma ListContinues(s: Sched, addresses: seq<nat>, t: Sched)
    requires Inv(s) && Admissible(Listed(addresses, false)) && t == Next(s, Listed(addresses, false))
    ensures forall i :: 0 <= i < NODES ==> (t.connected[i] <==> s.connected[i] || i in addresses)
    ensures t.log == s.log && t.timers == s.timers && t.node == s.node && t.step == s.step
  {
    JoinAllKeeps(s, addresses);
  }

  // ---------- which timer is due ----------

  /** No two timers are due at the same time. */
  ghost predicate Calm(s: Sched) {
    forall x, y :: x in s.timers && y in s.timers ==> x == y
  }

  /**
   A layer below that confirms a request once and answers only what it has confirmed: a confirm while no timer runs, an
   answer while the timeout does, and no timer goes off that is not running. Neither lists nor stops interfere.
   */
  predicate Behaved(s: Sched, e: Event) {
    match e
    case Fired(timer) => timer in s.timers
    case Confirmed(_) => s.timers == {}
    case Indicated(_) => TimeoutTimer in s.timers
    case Listed(_, complete) => !complete
    case Stopped => false
    case _ => true
  }

  /**
   What is due after an event: a request that was sent waits for its confirm and nothing else; a confirm starts the timeout
   and its failure the node timer; an answer stops the timeout; and when nothing is sent on moving on, the next node or the
   next cycle is due.
   */
  ghost function Due(s: Sched, e: Event, t: Sched): set<Timer> {
    match e
    case Confirmed(Success) => {TimeoutTimer}
    case Confirmed(Failure) => {NextNodeTimer}
    case Indicated(valid) => {if valid then NextStepTimer else NextNodeTimer}
    case Fired(timer) =>
      if t.log != s.log || timer == NextCycleTimer then {}
      else if t.node < NODES then {NextNodeTimer} else {NextCycleTimer}
    case _ => s.timers
  }

  lemma Only(timers: set<Timer>, x: Timer)
    requires x in timers && forall y, z :: y in timers && z in timers ==> y == z
    ensures timers == {x} && timers - {x} == {}
  {
  }

  lemma OneTimer(s: Sched, e: Event, t: Sched)
    requires Inv(s) && Calm(s) && Admissible(e) && Behaved(s, e) && t == Next(s, e)
    ensures t.timers == Due(s, e, t) && Calm(t)
  {
    match e
    case Fired(timer) =>
      Only(s.timers, timer);
      FiredTimers(s, timer, s.(timers := {}), t);
    case Indicated(_) =>
      Only(s.timers, TimeoutTimer);
    case Listed(addresses, _) =>
      JoinAllKeeps(s, addresses);
    case _ =>
  }

  lemma FiredTimers(s: Sched, timer: Timer, s': Sched, t: Sched)
    requires Inv(s) && s.timers == {timer} && s' == s.(timers := {}) && t == Next(s, Fired(timer))
    ensures t.timers == Due(s, Fired(timer), t)
  {
    assert s.timers - {timer} == {};
    match timer
    case NextCycleTimer =>
      var n := NextOfTable(s.connected, 0);
      StartIs(s', t, n);
    case NextStepTimer =>
      StepTimers(s', t);
    case _ =>
      Advance(s', t);
      assert t.node < NODES ==> |t.log| == |s.log| + 1;
  }

  /** There is always a next connected row, or none in the whole table. */
  lemma NextOfTable(connected: seq<bool>, from: nat) returns (n: nat)
    requires |connected| == NODES && from <= NODES
    ensures IsNextConnected(connected, from, n)
  {
    GetNextIsNext(connected, NODES, from);
    n := GetNext(connected, NODES, from);
  }

  lemma StepTimers(s: Sched, t: Sched)
    requires Inv(s) && s.timers == {} && t == NextStep(s)
    ensures t.timers == if t.log != s.log then {} else if t.node < NODES then {NextNodeTimer} else {NextCycleTimer}
  {
    match s.step
    case Association => SendTimers(s.(step := Date, block := 0), t);
    case Date => SendTimers(s.(step := So2), t);
    case So2 => SendTimers(s.(step := NextBlock, block := 0), t);
    case NextBlock =>
      var block := (s.block + 1) % COUNTER;
      SendTimers(if block > BLOCKS then s.(step := Release, block := 0) else s.(block := block), t);
    case Release =>
  }

  lemma SendTimers(s: Sched, t: Sched)
    requires s.Valid() && s.timers == {} && t == Send(s)
    ensures t.timers == if t.log != s.log then {} else {NextCycleTimer}
    ensures t.log == s.log ==> t.node == NODES
  {
    if s.Connected(s.node) {
      Sends(s, t);
      assert |t.log| == |s.log| + 1;
    } else {
      Advance(s, t);
      assert t.node < NODES ==> |t.log| == |s.log| + 1;
    }
  }

  ghost predicate AllBehaved(s: Sched, events: seq<Event>)
    requires Inv(s) && forall i :: 0 <= i < |events| ==> Admissible(events[i])
    decreases |events|
  {
    events != [] ==>
      Behaved(s, events[0]) && (KeepsInv(s, events[0]); AllBehaved(Next(s, events[0]), events[1..]))
  }

  /**
   Whatever is answered, and whoever joins and leaves: over a layer that behaves every timer that goes off is the only one
   that is due.
   */
  lemma {:induction false} NeverTwoTimers(s: Sched, events: seq<Event>, t: Sched)
    requires Inv(s) && Calm(s) && forall i :: 0 <= i < |events| ==> Admissible(events[i])
    requires AllBehaved(s, events) && t == RunEvents(s, events)
    ensures Calm(t) && AllAlone(s, events)
    decreases |events|
  {
    if events != [] {
      var next := Next(s, events[0]);
      KeepsInv(s, events[0]);
      OneTimer(s, events[0], next);
      if events[0].Fired? {
        Only(s.timers, events[0].timer);
      }
      NeverTwoTimers(next, events[1..], t);
    }
  }

  /** A complete list stops no timer: while the next cycle is due it starts another one, and then two timers are due. */
  lemma ListBetweenCycles(s: Sched, addresses: seq<nat>, t: Sched)
    requires Inv(s) && s.timers == {NextCycleTimer} && Admissible(Listed(addresses, true))
    requires t == RunEvents(s, [Listed(addresses, true), Confirmed(Success)])
    ensures t.timers == {NextCycleTimer, TimeoutTimer}
  {
    var s1 := Next(s, Listed(addresses, true));
    TwoEvents(s, Listed(addresses, true), Confirmed(Success));
    var n := NextOfTable(s1.connected, 0);
    ListStarts(s, addresses, s1, n);
  }

  // ---------- after a stop ----------

  /** What can start a timer again: a confirm, an answer, or a complete list. */
  predicate Wakes(e: Event) {
    e.Confirmed? || e.Indicated? || (e.Listed? && e.complete)
  }

  lemma {:induction false} Asleep(s: Sched, events: seq<Event>, t: Sched)
    requires Inv(s) && s.timers == {} && forall i :: 0 <= i < |events| ==> Admissible(events[i]) && !Wakes(events[i])
    requires AllRunning(s, events) && t == RunEvents(s, events)
    ensures t.log == s.log && t.timers == {}
    decreases |events|
  {
    if events != [] {
      KeepsInv(s, events[0]);
      if events[0].Listed? {
        JoinAllKeeps(s, events[0].addresses);
      }
      Asleep(Next(s, events[0]), events[1..], t);
    }
  }

  /**
   After a stop nothing is sent any more and no timer runs, whoever joins, leaves or is listed, until a request that was out
   is confirmed or answered or a complete list comes.
   */
  lemma StopIsQuiet(s: Sched, s1: Sched, events: seq<Event>, t: Sched)
    requires Inv(s) && s1 == Next(s, Stopped) && Inv(s1)
    requires forall i :: 0 <= i < |events| ==> Admissible(events[i]) && !Wakes(events[i])
    requires AllRunning(s1, events) && t == RunEvents(s1, events)
    ensures t.log == s.log && t.timers == {}
  {
    Asleep(s1, events, t);
  }

  /** A confirm that comes after the stop does start polling again, with the next connected row. */
  lemma ConfirmWakes(s: Sched, s1: Sched, n: nat, t: Sched)
    requires Inv(s) && s.node < NODES && s1 == Next(s, Stopped) && Inv(s1)
    requires IsNextConnected(s.connected, s.node, n) && n < NODES
    requires t == RunEvents(s1, [Confirmed(Success), Fired(TimeoutTimer)])
    ensures AllRunning(s1, [Confirmed(Success), Fired(TimeoutTimer)])
    ensures t.log == s.log + [Request(n, Association, 0)]
  {
    MoveOnRuns(s1, Confirmed(Success), TimeoutTimer, Next(s1, Confirmed(Success)), n, t);
  }

  /** So does a good answer: the node whose dialogue was stopped is asked for its date. */
  lemma AnswerWakes(s: Sched, s1: Sched, t: Sched)
    requires Inv(s) && s.Connected(s.node) && s1 == Next(s, Stopped) && Inv(s1)
    requires t == RunEvents(s1, [Indicated(true), Fired(NextStepTimer)])
    ensures AllRunning(s1, [Indicated(true), Fired(NextStepTimer)])
    ensures t.log == s.log + [Request(s.node, Date, 0)]
  {
    TwoEvents(s1, Indicated(true), Fired(NextStepTimer));
    var s2 := Next(s1, Indicated(true));
    var s3 := s2.(timers := s2.timers - {NextStepTimer}, step := Date, block := 0);
    StepTimer(s2, t);
    Sends(s3, t);
  }

  // ---------- who is in the table ----------

  predicate Brings(e: Event, a: nat) {
    e == Joined(a) || (e.Listed? && a in e.addresses)
  }

  predicate InTableNext(before: bool, a: nat, e: Event) {
    Brings(e, a) || (before && e != Left(a))
  }

  /** Whether a row is connected after some events: it was brought in and has not left since. */
  predicate InTable(before: bool, a: nat, events: seq<Event>)
    decreases |events|
  {
    if events == [] then before else InTable(InTableNext(before, a, events[0]), a, events[1..])
  }

  /** An event sends one request at most, and only to a row that is connected. */
  ghost predicate SendsConnected(s: Sched, t: Sched, sent: seq<Request>) {
    t.log == s.log + sent && forall i :: 0 <= i < |sent| ==> t.Connected(sent[i].node)
  }

  lemma SendConnected(s: Sched, t: Sched) returns (sent: seq<Request>)
    requires s.Valid() && t == Send(s)
    ensures SendsConnected(s, t, sent) && t.connected == s.connected
  {
    if s.Connected(s.node) {
      Sends(s, t);
      sent := [t.log[|s.log|]];
    } else {
      sent := AdvanceConnected(s, t);
    }
  }

  lemma AdvanceConnected(s: Sched, t: Sched) returns (sent: seq<Request>)
    requires s.Valid() && t == CycleNextNode(s)
    ensures SendsConnected(s, t, sent) && t.connected == s.connected
  {
    Advance(s, t);
    sent := if t.node < NODES then [Request(t.node, Association, 0)] else [];
  }

  lemma StepConnected(s: Sched, t: Sched) returns (sent: seq<Request>)
    requires s.Valid() && t == NextStep(s)
    ensures SendsConnected(s, t, sent) && t.connected == s.connected
  {
    match s.step
    case Association => sent := SendConnected(s.(step := Date, block := 0), t);
    case Date => sent := SendConnected(s.(step := So2), t);
    case So2 => sent := SendConnected(s.(step := NextBlock, block := 0), t);
    case NextBlock =>
      var block := (s.block + 1) % COUNTER;
      sent := SendConnected(if block > BLOCKS then s.(step := Release, block := 0) else s.(block := block), t);
    case Release => sent := [];
  }

  lemma StartConnected(s: Sched, t: Sched) returns (sent: seq<Request>)
    requires Inv(s) && t == StartCycle(s)
    ensures SendsConnected(s, t, sent) && t.connected == s.connected
  {
    var n := NextOfTable(s.connected, 0);
    StartIs(s, t, n);
    sent := if n < NODES then [Request(n, Association, 0)] else [];
  }

  lemma EventConnected(s: Sched, e: Event, t: Sched) returns (sent: seq<Request>)
    requires Inv(s) && Admissible(e) && t == Next(s, e)
    ensures SendsConnected(s, t, sent) && |t.connected| == NODES
    ensures forall a: nat :: a < NODES ==> (t.connected[a] <==> InTableNext(s.connected[a], a, e))
  {
    sent := [];
    match e
    case Fired(timer) =>
      var s' := s.(timers := s.timers - {timer});
      match timer {
        case NextCycleTimer => sent := StartConnected(s', t);
        case NextStepTimer => sent := StepConnected(s', t);
        case _ => sent := AdvanceConnected(s', t);
      }
    case Listed(addresses, complete) =>
      JoinAllKeeps(s, addresses);
      if complete {
        sent := StartConnected(JoinAll(s, addresses), t);
      }
    case _ =>
  }

  /**
   Over all runs, with starts and stops: a row is connected exactly if it was brought in by a join or a list and has not left
   since.
   */
  lemma {:induction false} TableAfter(s: Sched, events: seq<Event>, a: nat, t: Sched)
    requires Inv(s) && a < NODES && forall i :: 0 <= i < |events| ==> Admissible(events[i])
    requires t == RunEvents(s, events)
    ensures t.connected[a] <==> InTable(s.connected[a], a, events)
    decreases |events|
  {
    if events != [] {
      var next := Next(s, events[0]);
      var _ := EventConnected(s, events[0], next);
      KeepsInv(s, events[0]);
      TableAfter(next, events[1..], a, t);
    }
  }

  /** Nothing is sent to a row that is not in the table, over all runs that do not bring it in. */
  lemma {:induction false} AwayGetsNothing(s: Sched, events: seq<Event>, a: nat, t: Sched) returns (q: seq<Request>)
    requires Inv(s) && a < NODES && !s.connected[a]
    requires forall i :: 0 <= i < |events| ==> Admissible(events[i]) && !Brings(events[i], a)
    requires t == RunEvents(s, events)
    ensures t.log == s.log + q && forall i :: 0 <= i < |q| ==> q[i].node != a
    decreases |events|
  {
    if events == [] {
      q := [];
    } else {
      var next := Next(s, events[0]);
      var sent := EventConnected(s, events[0], next);
      KeepsInv(s, events[0]);
      var rest := AwayGetsNothing(next, events[1..], a, t);
      q := sent + rest;
      assert t.log == (s.log + sent) + rest;
    }
  }

  /** A row that has left gets no request until it joins or is listed again. */
  lemma LeftGetsNothing(s: Sched, a: nat, s1: Sched, events: seq<Event>, t: Sched) returns (q: seq<Request>)
    requires Inv(s) && a < NODES && s1 == Next(s, Left(a)) && Inv(s1)
    requires forall i :: 0 <= i < |events| ==> Admissible(events[i]) && !Brings(events[i], a)
    requires t == RunEvents(s1, events)
    ensures t.log == s.log + q && forall i :: 0 <= i < |q| ==> q[i].node != a
  {
    q := AwayGetsNothing(s1, events, a, t);
  }
}
