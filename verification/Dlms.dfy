/**
 The polling scheduler for DLMS meters: one dialogue after the other with the nodes that are connected, driven by
 timers, by confirms and indications of the layer below, and by nodes that join and leave.
 */
module Dlms {
  /** The table has a row for each address below 16; the value 16 stands for no node, and is never connected. */
  const NODES: nat := 16
  const BLOCKS: nat := 12
  const BROADCAST: nat := 0x0FFE
  const COUNTER: nat := 256

  datatype Step = Association | Date | So2 | NextBlock | Release

  datatype Timer = TimeoutTimer | NextCycleTimer | NextNodeTimer | NextStepTimer

  /** A request that went out; only a next-block request carries a block number. */
  datatype Request = Request(node: nat, step: Step, block: nat)

  datatype Sched = Sched(connected: seq<bool>, max: nat, node: nat, step: Step, block: nat, timers: set<Timer>,
                         log: seq<Request>)
  {
    ghost predicate Valid() {
      |connected| == NODES && 1 <= max <= NODES && node <= NODES && block < COUNTER
    }

    predicate Connected(i: nat) {
      i < |connected| && connected[i]
    }
  }

  datatype Confirmation = Success | Failure | Unexpected

  datatype Event =
    | Fired(timer: Timer)
    | Confirmed(status: Confirmation)
    | Indicated(valid: bool)
    | Joined(address: nat)
    | Left(address: nat)
    | Listed(addresses: seq<nat>, complete: bool)
    | Stopped

  function Init(): Sched {
    Sched(seq(NODES, _ => false), 1, 0, Association, 0, {}, [])
  }

  /** The first connected index above from and below max. */
  function GetNext(connected: seq<bool>, max: nat, from: nat): (n: nat)
    requires max <= |connected| == NODES && from <= NODES
    ensures n == NODES || (from < n < max && connected[n])
    decreases NODES - from
  {
    if from + 1 >= max then NODES
    else if connected[from + 1] then from + 1
    else GetNext(connected, max, from + 1)
  }

  /** Builds the request of the current step and hands it over. */
  function Generate(s: Sched): Sched {
    var block :=
      match s.step
      case So2 => 1
      case NextBlock => (s.block + 1) % COUNTER
      case _ => s.block;
    s.(block := block, log := s.log + [Request(s.node, s.step, if s.step == NextBlock then block else 0)])
  }

  /** The request of the current step, if the node is still there; otherwise the next node's first. */
  function Send(s: Sched): Sched
    requires s.Valid()
    decreases NODES - s.node, 1
  {
    if s.Connected(s.node) then Generate(s) else CycleNextNode(s)
  }

  function CycleNextNode(s: Sched): Sched
    requires s.Valid()
    decreases NODES - s.node, 0
  {
    var node := GetNext(s.connected, s.max, s.node);
    if node < NODES then Send(s.(node := node, step := Association))
    else s.(node := node, timers := s.timers + {NextCycleTimer})
  }

  function NextStep(s: Sched): Sched
    requires s.Valid()
  {
    match s.step
    case Association => Send(s.(step := Date, block := 0))
    case Date => Send(s.(step := So2))
    case So2 => Send(s.(step := NextBlock, block := 0))
    case NextBlock =>
      var block := (s.block + 1) % COUNTER;
      Send(if block > BLOCKS then s.(step := Release, block := 0) else s.(block := block))
    case Release =>
      var node := GetNext(s.connected, s.max, s.node);
      s.(node := node, timers := s.timers + {if node < NODES then NextNodeTimer else NextCycleTimer})
  }

  /** The index above the last connected one, if there is one. */
  function Recount(connected: seq<bool>, max: nat): (m: nat)
    decreases |connected|
  {
    if connected == [] then max
    else if connected[|connected| - 1] then |connected|
    else Recount(connected[..|connected| - 1], max)
  }

  function StartCycle(s: Sched): Sched
    requires s.Valid()
  {
    if true !in s.connected then s
    else
      RecountBound(s.connected, s.max);
      var max := Recount(s.connected, s.max);
      var node := GetNext(s.connected, max, 0);
      var s' := s.(max := max, node := node);
      if node < NODES then Send(s'.(step := Association)) else s'
  }

  lemma {:induction false} RecountBound(connected: seq<bool>, max: nat)
    ensures Recount(connected, max) <= |connected| || Recount(connected, max) == max
    ensures true in connected ==> 1 <= Recount(connected, max) <= |connected|
    decreases |connected|
  {
    if connected != [] && !connected[|connected| - 1] {
      var front := connected[..|connected| - 1];
      assert connected == front + [false];
      RecountBound(front, max);
    }
  }

  function Join(s: Sched, address: nat): Sched
    requires s.Valid() && address < NODES
  {
    s.(connected := s.connected[address := true], max := if address >= s.max then address + 1 else s.max)
  }

  function JoinAll(s: Sched, addresses: seq<nat>): (r: Sched)
    requires s.Valid() && forall i :: 0 <= i < |addresses| ==> addresses[i] < NODES || addresses[i] >= BROADCAST
    ensures r.Valid()
    decreases |addresses|
  {
    if addresses == [] then s
    else JoinAll(if addresses[0] < NODES then Join(s, addresses[0]) else s, addresses[1..])
  }

  /** Addresses that the table has room for; a list may also hold broadcast addresses. */
  predicate Admissible(e: Event) {
    match e
    case Joined(address) => address < NODES
    case Left(address) => address < NODES
    case Listed(addresses, _) => forall i :: 0 <= i < |addresses| ==> addresses[i] < NODES || addresses[i] >= BROADCAST
    case _ => true
  }

  /** What one event makes of the state. A timer may go off whether or not it is running. */
  function Next(s: Sched, e: Event): Sched
    requires s.Valid() && Admissible(e)
  {
    match e
    case Fired(timer) =>
      var s' := s.(timers := s.timers - {timer});
      (match timer
       case TimeoutTimer => CycleNextNode(s')
       case NextCycleTimer => StartCycle(s')
       case NextNodeTimer => CycleNextNode(s')
       case NextStepTimer => NextStep(s'))
    case Confirmed(status) =>
      (match status
       case Success => s.(timers := s.timers + {TimeoutTimer})
       case Failure => s.(timers := s.timers + {NextNodeTimer})
       case Unexpected => s)
    case Indicated(valid) =>
      s.(timers := s.timers - {TimeoutTimer} + {if valid then NextStepTimer else NextNodeTimer})
    case Joined(address) => Join(s, address)
    case Left(address) => s.(connected := s.connected[address := false])
    case Listed(addresses, complete) =>
      var s' := JoinAll(s, addresses);
      if complete then StartCycle(s') else s'
    case Stopped => s.(timers := {}, step := Association)
  }
}
