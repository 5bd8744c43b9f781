/** Whole runs of the polling scheduler. */
module DlmsRuns {
  import opened Dlms

  // ---------- the high-water mark ----------

  /** Every connected index lies below the mark. */
  ghost predicate HighWater(s: Sched) {
    s.Valid() && AllBelow(s.connected, s.max)
  }

  ghost predicate AllBelow(connected: seq<bool>, max: nat) {
    forall i :: max <= i < |connected| ==> !connected[i]
  }

  /** The least connected index above from in the whole table, or 16. */
  ghost predicate IsNextConnected(connected: seq<bool>, from: nat, n: nat) {
    && |connected| == NODES && from <= NODES && n <= NODES
    && (n < NODES ==> from < n && connected[n])
    && forall i :: from < i < n ==> !connected[i]
  }

  lemma {:induction false} GetNextIsNext(connected: seq<bool>, max: nat, from: nat)
    requires max <= |connected| == NODES && from <= NODES
    requires AllBelow(connected, max)
    ensures IsNextConnected(connected, from, GetNext(connected, max, from))
    decreases NODES - from
  {
    if from + 1 < max && !connected[from + 1] {
      GetNextIsNext(connected, max, from + 1);
    }
  }

  /** Under the mark the bounded search answers for the whole table. */
  lemma SearchIsExact(s: Sched, from: nat, n: nat)
    requires HighWater(s) && from <= NODES
    ensures n == GetNext(s.connected, s.max, from) <==> IsNextConnected(s.connected, from, n)
  {
    GetNextIsNext(s.connected, s.max, from);
  }

  lemma {:induction false} RecountIsExact(connected: seq<bool>, max: nat)
    requires true in connected
    ensures 1 <= Recount(connected, max) <= |connected|
    ensures connected[Recount(connected, max) - 1]
    ensures AllBelow(connected, Recount(connected, max))
    decreases |connected|
  {
    if !connected[|connected| - 1] {
      var front := connected[..|connected| - 1];
      assert connected == front + [false];
      RecountIsExact(front, max);
    }
  }

  // ---------- one event ----------

  /** The table is right, and while a node is in its blocks the number last asked for is an odd one. */
  ghost predicate Inv(s: Sched) {
    HighWater(s) && (s.node < NODES && s.step == NextBlock ==> s.block % 2 == 1 && s.block <= BLOCKS + 1)
  }

  /** Moving on: the next connected node gets the first request of a dialogue, if there is one. */
  lemma Advance(s: Sched, t: Sched)
    requires s.Valid() && t == CycleNextNode(s)
    ensures var n := GetNext(s.connected, s.max, s.node);
            t == if n < NODES
                 then s.(node := n, step := Association, log := s.log + [Request(n, Association, 0)])
                 else s.(node := n, timers := s.timers + {NextCycleTimer})
  {
    var n := GetNext(s.connected, s.max, s.node);
    if n < NODES {
      assert Send(s.(node := n, step := Association)) == Generate(s.(node := n, step := Association));
    }
  }

  /** How far a dialogue has come with a request: association, date, profile, seven blocks, release. */
  function Position(r: Request): nat {
    match r.step
    case Association => 0
    case Date => 1
    case So2 => 2
    case NextBlock => 3 + r.block / 2
    case Release => DIALOGUE - 1
  }

  /** Association, date and profile, the blocks 1, 3, ..., 13, and the release. */
  const DIALOGUE: nat := 11

  ghost predicate Proper(r: Request) {
    && 1 <= r.node < NODES
    && if r.step == NextBlock then r.block % 2 == 1 && r.block <= BLOCKS + 1 else r.block == 0
  }

  /** The next request of the same dialogue, or the first one of a later node's. */
  ghost predicate Follows(q: Request, r: Request) {
    || (r.node > q.node && r.step == Association)
    || (r.node == q.node && Position(r) == Position(q) + 1)
  }

  /** The state has not moved since r was sent, or it has left r's node for good. */
  ghost predicate Since(s: Sched, r: Request) {
    || (s.node == r.node && s.step == r.step && (s.step == NextBlock ==> s.block == r.block))
    || (s.node > r.node && (s.step == Release || s.node == NODES))
  }

  /** Events within a cycle: anything but the start of one, and the command to stop. */
  predicate WithinCycle(e: Event) {
    match e
    case Fired(timer) => timer != NextCycleTimer
    case Listed(_, complete) => !complete
    case Stopped => false
    case _ => true
  }

  /** What sending may do: one request at most, and it follows the last. */
  ghost predicate Moved(s: Sched, t: Sched, r: Request, sent: seq<Request>) {
    && t.log == s.log + sent
    && match |sent|
       case 0 => Since(t, r)
       case 1 => Proper(sent[0]) && Follows(r, sent[0]) && Since(t, sent[0])
       case _ => false
  }

  lemma AdvanceMoves(s: Sched, t: Sched, r: Request) returns (sent: seq<Request>)
    requires Inv(s) && Proper(r) && s.node >= r.node && t == CycleNextNode(s)
    ensures Inv(t) && Moved(s, t, r, sent)
  {
    Advance(s, t);
    var n := GetNext(s.connected, s.max, s.node);
    sent := if n < NODES then [Request(n, Association, 0)] else [];
  }

  /** The step that is due is sent, or the node is gone and the scheduler moves on. */
  lemma SendMoves(s: Sched, t: Sched, r: Request, due: Request) returns (sent: seq<Request>)
    requires HighWater(s) && Proper(r) && s.node >= r.node && t == Send(s)
    requires s.node < NODES && s.step != Association ==> Proper(due) && Follows(r, due)
    requires s.step != Association
    requires due == Request(s.node, s.step, if s.step == NextBlock then s.block + 1 else 0)
    ensures Inv(t) && Moved(s, t, r, sent)
  {
    if s.Connected(s.node) {
      sent := [due];
    } else {
      Advance(s, t);
      var n := GetNext(s.connected, s.max, s.node);
      sent := if n < NODES then [Request(n, Association, 0)] else [];
    }
  }

  lemma NextStepMoves(s: Sched, t: Sched, r: Request) returns (sent: seq<Request>)
    requires Inv(s) && Proper(r) && Since(s, r) && t == NextStep(s)
    ensures Inv(t) && Moved(s, t, r, sent)
  {
    match s.step
    case Association =>
      sent := SendMoves(s.(step := Date, block := 0), t, r, Request(s.node, Date, 0));
    case Date =>
      sent := SendMoves(s.(step := So2), t, r, Request(s.node, So2, 0));
    case So2 =>
      sent := SendMoves(s.(step := NextBlock, block := 0), t, r, Request(s.node, NextBlock, 1));
    case NextBlock =>
      sent := NextBlockMoves(s, t, r);
    case Release =>
      sent := [];
  }

  lemma NextBlockMoves(s: Sched, t: Sched, r: Request) returns (sent: seq<Request>)
    requires Inv(s) && Proper(r) && Since(s, r) && s.step == NextBlock && t == NextStep(s)
    ensures Inv(t) && Moved(s, t, r, sent)
  {
    var block := (s.block + 1) % COUNTER;
    if s.node < NODES {
      AfterBlock(s.block, block);
    }
    if block > BLOCKS {
      sent := SendMoves(s.(step := Release, block := 0), t, r, Request(s.node, Release, 0));
    } else {
      sent := SendMoves(s.(block := block), t, r, Request(s.node, NextBlock, block + 1));
    }
  }

  /** After the odd number that was asked for last: the next odd one, or the end of the blocks. */
  lemma AfterBlock(last: nat, block: nat)
    requires last % 2 == 1 && last <= BLOCKS + 1 && block == (last + 1) % COUNTER
    ensures block == last + 1 && (block + 1) % 2 == 1
    ensures block > BLOCKS <==> last == BLOCKS + 1
    ensures 3 + (block + 1) / 2 == 3 + last / 2 + 1 && 3 + (BLOCKS + 1) / 2 + 1 == DIALOGUE - 1
  {
  }

  lemma {:induction false} JoinAllKeeps(s: Sched, addresses: seq<nat>)
    requires Inv(s)
    requires forall i :: 0 <= i < |addresses| ==> addresses[i] < 16 || addresses[i] >= 0x0FFE
    ensures var t := JoinAll(s, addresses);
            Inv(t) && t == s.(connected := t.connected, max := t.max)
    ensures forall i :: 0 <= i < NODES ==> (JoinAll(s, addresses).connected[i] <==> s.connected[i] || i in addresses)
    decreases |addresses|
  {
    if addresses != [] {
      var s' := if addresses[0] < NODES then Join(s, addresses[0]) else s;
      JoinAllKeeps(s', addresses[1..]);
      assert forall i :: i in addresses <==> i == addresses[0] || i in addresses[1..];
    }
  }

  /** One event within a cycle sends one request at most, the next in order. */
  lemma EventMoves(s: Sched, e: Event, t: Sched, r: Request) returns (sent: seq<Request>)
    requires Inv(s) && Admissible(e) && WithinCycle(e)
    requires Proper(r) && Since(s, r) && t == Next(s, e)
    ensures Inv(t) && Moved(s, t, r, sent)
  {
    sent := [];
    match e
    case Fired(timer) =>
      var s' := s.(timers := s.timers - {timer});
      if timer == NextStepTimer {
        sent := NextStepMoves(s', t, r);
      } else {
        sent := AdvanceMoves(s', t, r);
      }
    case Listed(addresses, _) =>
      JoinAllKeeps(s, addresses);
    case _ =>
  }

  /** A cycle starts exactly when some node other than the first row is connected, with the least of them. */
  lemma StartMoves(s: Sched, t: Sched) returns (sent: seq<Request>)
    requires Inv(s) && t == StartCycle(s)
    ensures Inv(t) && t.log == s.log + sent && t.connected == s.connected && t.timers == s.timers
    ensures sent == [] <==> forall i :: 0 < i < NODES ==> !s.connected[i]
    ensures sent != [] ==>
              && sent == [Request(t.node, Association, 0)]
              && IsNextConnected(s.connected, 0, t.node)
              && Proper(sent[0]) && Since(t, sent[0])
  {
    sent := [];
    if true in s.connected {
      RecountIsExact(s.connected, s.max);
      var max := Recount(s.connected, s.max);
      var n := GetNext(s.connected, max, 0);
      GetNextIsNext(s.connected, max, 0);
      if n < NODES {
        sent := [Request(n, Association, 0)];
        Sends(s.(max := max, node := n, step := Association), t);
      }
    }
  }

  lemma Sends(s: Sched, t: Sched)
    requires s.Valid() && s.Connected(s.node) && t == Send(s)
    ensures t == Generate(s)
  {
  }

  // ---------- all runs ----------

  function RunEvents(s: Sched, events: seq<Event>): (t: Sched)
    requires Inv(s) && forall i :: 0 <= i < |events| ==> Admissible(events[i])
    ensures Inv(t)
    decreases |events|
  {
    if events == [] then s
    else
      KeepsInv(s, events[0]);
      RunEvents(Next(s, events[0]), events[1..])
  }

  /** Every event keeps the mark above all the connected nodes. */
  lemma KeepsInv(s: Sched, e: Event)
    requires Inv(s) && Admissible(e)
    ensures Inv(Next(s, e))
  {
    match e
    case Fired(timer) =>
      var s' := s.(timers := s.timers - {timer});
      match timer {
        case NextCycleTimer =>
          var _ := StartMoves(s', StartCycle(s'));
        case NextStepTimer =>
          NextStepKeeps(s', NextStep(s'));
        case _ =>
          Advance(s', CycleNextNode(s'));
      }
    case Listed(addresses, complete) =>
      JoinAllKeeps(s, addresses);
      if complete {
        var s' := JoinAll(s, addresses);
        var _ := StartMoves(s', StartCycle(s'));
      }
    case _ =>
  }

  lemma NextStepKeeps(s: Sched, t: Sched)
    requires Inv(s) && t == NextStep(s)
    ensures Inv(t)
  {
    match s.step
    case Association => SendKeeps(s.(step := Date, block := 0), t);
    case Date => SendKeeps(s.(step := So2), t);
    case So2 => SendKeeps(s.(step := NextBlock, block := 0), t);
    case NextBlock =>
      var block := (s.block + 1) % COUNTER;
      SendKeeps(if block > BLOCKS then s.(step := Release, block := 0) else s.(block := block), t);
    case Release =>
  }

  lemma SendKeeps(s: Sched, t: Sched)
    requires HighWater(s) && t == Send(s)
    requires s.node < NODES && s.step == NextBlock ==> s.block % 2 == 0 && s.block <= BLOCKS
    ensures Inv(t)
  {
    if s.Connected(s.node) {
      if s.node < NODES && s.step == NextBlock {
        NextIsOdd(s.block);
      }
      Sends(s, t);
    } else {
      Advance(s, t);
    }
  }

  lemma NextIsOdd(block: nat)
    requires block % 2 == 0 && block <= BLOCKS
    ensures (block + 1) % COUNTER == block + 1 && (block + 1) % 2 == 1
  {
  }

  /** Whatever happens, in whatever order: the search for the next node is exact. */
  lemma AlwaysExact(events: seq<Event>, from: nat, n: nat)
    requires forall i :: 0 <= i < |events| ==> Admissible(events[i])
    requires from <= NODES
    ensures Inv(Init())
    ensures var t := RunEvents(Init(), events);
            t.Valid() && (n == GetNext(t.connected, t.max, from) <==> IsNextConnected(t.connected, from, n))
  {
    SearchIsExact(RunEvents(Init(), events), from, n);
  }

  // ---------- one cycle ----------

  /** Each request is proper and follows the one before it. */
  ghost predicate Chain(q: seq<Request>) {
    && (forall i :: 0 <= i < |q| ==> Proper(q[i]))
    && (forall i :: 0 < i < |q| ==> Follows(q[i - 1], q[i]))
  }

  lemma Link(r: Request, sent: seq<Request>, q: seq<Request>)
    requires Proper(r) && |sent| <= 1 && (|sent| == 1 ==> Proper(sent[0]) && Follows(r, sent[0]))
    requires Chain([if |sent| == 1 then sent[0] else r] + q)
    ensures Chain([r] + (sent + q))
  {
    var rest := [if |sent| == 1 then sent[0] else r] + q;
    if |sent| == 1 {
      assert [r] + (sent + q) == [r] + rest;
    } else {
      assert [r] + (sent + q) == rest;
    }
  }

  /** The requests of a run within a cycle form a chain from the last one before it. */
  lemma {:induction false} CycleRun(s: Sched, events: seq<Event>, r: Request, t: Sched) returns (q: seq<Request>)
    requires Inv(s) && Proper(r) && Since(s, r)
    requires forall i :: 0 <= i < |events| ==> Admissible(events[i]) && WithinCycle(events[i])
    requires t == RunEvents(s, events)
    ensures t.log == s.log + q && Chain([r] + q)
    decreases |events|
  {
    if events == [] {
      q := [];
    } else {
      var s' := Next(s, events[0]);
      var sent := EventMoves(s, events[0], s', r);
      var r' := if |sent| == 1 then sent[0] else r;
      var rest := CycleRun(s', events[1..], r', t);
      q := sent + rest;
      Link(r, sent, rest);
    }
  }

  /**
   A cycle, from the event that starts it to the next start or stop: under every interleaving of timers, confirms,
   indications, joins and leaves the requests form one chain, which begins with an association.
   */
  lemma Cycle(s: Sched, start: Event, events: seq<Event>, t: Sched) returns (q: seq<Request>)
    requires Inv(s) && Admissible(start)
    requires start == Fired(NextCycleTimer) || (start.Listed? && start.complete)
    requires forall i :: 0 <= i < |events| ==> Admissible(events[i]) && WithinCycle(events[i])
    requires Inv(Next(s, start)) && Next(s, start).log != s.log
    requires t == RunEvents(Next(s, start), events)
    ensures t.log == s.log + q && q != []
    ensures Chain(q) && q[0].step == Association
    ensures |q| <= 15 * 11
  {
    var first := StartEvent(s, start, Next(s, start));
    var rest := CycleRun(Next(s, start), events, first[0], t);
    q := first + rest;
    assert [first[0]] + rest == q;
    ChainBound(q);
  }

  lemma StartEvent(s: Sched, start: Event, t: Sched) returns (first: seq<Request>)
    requires Inv(s) && Admissible(start) && t == Next(s, start) && t.log != s.log
    requires start == Fired(NextCycleTimer) || (start.Listed? && start.complete)
    ensures |first| == 1 && t.log == s.log + first
    ensures Proper(first[0]) && first[0].step == Association && Since(t, first[0])
  {
    var s' := if start.Listed? then JoinAll(s, start.addresses) else s.(timers := s.timers - {NextCycleTimer});
    if start.Listed? {
      JoinAllKeeps(s, start.addresses);
    }
    first := StartMoves(s', t);
    assert first == [] ==> s.log + first == s.log;
  }

  // ---------- what a chain is ----------

  function Rank(r: Request): nat {
    DIALOGUE * r.node + Position(r)
  }

  lemma ProperPosition(r: Request)
    requires Proper(r)
    ensures Position(r) < DIALOGUE
    ensures Position(r) == 0 <==> r.step == Association
    ensures Position(r) == DIALOGUE - 1 <==> r.step == Release
  {
  }

  /** Requests never go back: each is strictly later, by node and then by its place in the dialogue. */
  lemma {:induction false} ChainGrows(q: seq<Request>, i: nat, j: nat)
    requires Chain(q) && i <= j < |q|
    ensures Rank(q[j]) >= Rank(q[i]) + (j - i)
    decreases j - i
  {
    if i < j {
      ChainGrows(q, i, j - 1);
      RankGrows(q[j - 1], q[j]);
    }
  }

  lemma RankGrows(q: Request, r: Request)
    requires Proper(q) && Proper(r) && Follows(q, r)
    ensures Rank(r) > Rank(q)
  {
    ProperPosition(q);
    ProperPosition(r);
  }

  lemma RankRange(r: Request)
    requires Proper(r)
    ensures DIALOGUE <= Rank(r) < DIALOGUE * NODES
  {
    ProperPosition(r);
  }

  lemma ChainBound(q: seq<Request>)
    requires Chain(q)
    ensures |q| <= 15 * 11
  {
    if q != [] {
      ChainGrows(q, 0, |q| - 1);
      RankRange(q[0]);
      RankRange(q[|q| - 1]);
    }
  }

  /** The requests to one node stand together, and none is left out between them. */
  lemma {:induction false} DialogueContiguous(q: seq<Request>, i: nat, j: nat)
    requires Chain(q) && i <= j < |q| && q[i].node == q[j].node
    ensures Position(q[j]) == Position(q[i]) + (j - i)
    ensures forall k :: i <= k <= j ==> q[k].node == q[i].node
    decreases j - i
  {
    if i < j {
      assert Follows(q[j - 1], q[j]);
      NodesGrow(q, i, j - 1);
      DialogueContiguous(q, i, j - 1);
    }
  }

  lemma {:induction false} NodesGrow(q: seq<Request>, i: nat, j: nat)
    requires Chain(q) && i <= j < |q|
    ensures q[i].node <= q[j].node
    decreases j - i
  {
    if i < j {
      assert Follows(q[j - 1], q[j]);
      NodesGrow(q, i, j - 1);
    }
  }

  /** A node is released only after its whole dialogue, all eleven requests one after the other. */
  lemma ReleaseEndsDialogue(q: seq<Request>, j: nat)
    requires Chain(q) && j < |q| && q[0].step == Association && q[j].step == Release
    ensures j >= DIALOGUE - 1
    ensures forall i :: j - (DIALOGUE - 1) <= i <= j ==>
                          q[i].node == q[j].node && Position(q[i]) == i - (j - (DIALOGUE - 1))
  {
    BackInDialogue(q, j, DIALOGUE - 1);
  }

  /** Going back from a request, the whole of its dialogue so far is found. */
  lemma {:induction false} BackInDialogue(q: seq<Request>, j: nat, n: nat)
    requires Chain(q) && j < |q| && q[0].step == Association && n <= Position(q[j])
    ensures n <= j
    ensures forall i :: j - n <= i <= j ==> q[i].node == q[j].node && Position(q[i]) == Position(q[j]) - (j - i)
    decreases n
  {
    if n > 0 {
      BackInDialogue(q, j, n - 1);
      var i := j - (n - 1);
      ProperPosition(q[i]);
      ProperPosition(q[0]);
      assert i > 0;
      assert Follows(q[i - 1], q[i]);
    }
  }
}
