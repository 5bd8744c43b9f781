/** The scheduler itself: handlers that change one state, called one at a time. */
module DlmsScheduler {
  import opened Dlms
  import opened DlmsRuns
  import opened DlmsEvents

  class Scheduler {
    const nodes: array<bool>
    var max: nat
    var node: nat
    var step: Step
    var block: nat
    var timers: set<Timer>
    var log: seq<Request>

    function State(): Sched
      reads this, nodes
    {
      Sched(nodes[..], max, node, step, block, timers, log)
    }

    constructor ()
      ensures State() == Init() && Inv(State()) && fresh(nodes)
    {
      nodes := new bool[NODES](_ => false);
      max, node, step, block, timers, log := 1, 0, Association, 0, {}, [];
      new;
      assert nodes[..] == Init().connected;
    }

    /** Whatever the event, the state becomes what the specification says, and the table stays right. */
    method Handle(e: Event)
      requires Inv(State()) && Admissible(e)
      modifies this, nodes
      ensures State() == Next(old(State()), e) && Inv(State())
      ensures e.Indicated? ==> TimeoutTimer !in timers
      ensures e.Stopped? ==> timers == {} && log == old(log)
      ensures e.Left? ==> !nodes[e.address]
      ensures e.Listed? && e.complete ==>
                forall n: nat :: IsNextConnected(nodes[..], 0, n) ==>
                              log == old(log) + if n < NODES then [Request(n, Association, 0)] else []
    {
      KeepsInv(State(), e);
      ListRequest(State(), e, Next(State(), e));
      match e
      case Fired(timer) =>
        GoOff(timer);
      case Confirmed(status) =>
        match status {
          case Success => StartTimer(TimeoutTimer);
          case Failure => StartTimer(NextNodeTimer);
          case Unexpected =>
        }
      case Indicated(valid) =>
        StopTimer(TimeoutTimer);
        StartTimer(if valid then NextStepTimer else NextNodeTimer);
      case Joined(address) =>
        AddNode(address);
      case Left(address) =>
        nodes[address] := false;
      case Listed(addresses, complete) =>
        AddNodes(addresses);
        if complete {
          StartNewCycle();
        }
      case Stopped =>
        timers, step := {}, Association;
    }

    method GoOff(timer: Timer)
      requires State().Valid()
      modifies this
      ensures State() == Next(old(State()), Fired(timer))
    {
      StopTimer(timer);
      match timer
      case TimeoutTimer => MoveOn();
      case NextCycleTimer => StartNewCycle();
      case NextNodeTimer => MoveOn();
      case NextStepTimer => TakeNextStep();
    }

    method StartTimer(timer: Timer)
      modifies this`timers
      ensures timers == old(timers) + {timer}
    {
      timers := timers + {timer};
    }

    method StopTimer(timer: Timer)
      modifies this`timers
      ensures timers == old(timers) - {timer}
    {
      timers := timers - {timer};
    }

    method AddNode(address: nat)
      requires State().Valid() && address < NODES
      modifies this`max, nodes
      ensures State() == Join(old(State()), address)
    {
      if address >= max {
        max := address + 1;
      }
      nodes[address] := true;
    }

    method AddNodes(addresses: seq<nat>)
      requires State().Valid()
      requires forall i :: 0 <= i < |addresses| ==> addresses[i] < NODES || addresses[i] >= BROADCAST
      modifies this`max, nodes
      ensures State() == JoinAll(old(State()), addresses)
    {
      var i := 0;
      assert addresses[0..] == addresses;
      while i < |addresses|
        invariant 0 <= i <= |addresses| && State().Valid()
        invariant JoinAll(State(), addresses[i..]) == JoinAll(old(State()), addresses)
      {
        assert addresses[i..][1..] == addresses[i + 1..];
        if addresses[i] < BROADCAST {
          AddNode(addresses[i]);
        }
        i := i + 1;
      }
    }

    /** The number of connected nodes; on the way the mark is set above the last of them. */
    method CountNodes() returns (count: nat)
      requires State().Valid()
      modifies this`max
      ensures count == 0 <==> true !in nodes[..]
      ensures max == if count == 0 then old(max) else Recount(nodes[..], old(max))
    {
      count := 0;
      var i := 0;
      while i < NODES
        invariant 0 <= i <= NODES
        invariant count == 0 <==> true !in nodes[..i]
        invariant max == if count == 0 then old(max) else Recount(nodes[..i], old(max))
      {
        assert nodes[..i + 1] == nodes[..i] + [nodes[i]];
        if nodes[i] {
          count := count + 1;
          max := i + 1;
        }
        i := i + 1;
      }
      assert nodes[..i] == nodes[..];
    }

    method FindNext(from: nat) returns (next: nat)
      requires State().Valid() && from <= NODES
      ensures next == GetNext(nodes[..], max, from)
    {
      next := from + 1;
      while next < max
        invariant from < next && (next > max ==> next == from + 1)
        invariant next <= NODES ==> GetNext(nodes[..], max, next - 1) == GetNext(nodes[..], max, from)
      {
        if nodes[next] {
          return;
        }
        next := next + 1;
      }
      next := NODES;
    }

    method StartNewCycle()
      requires State().Valid()
      modifies this
      ensures State() == StartCycle(old(State()))
    {
      RecountBound(nodes[..], max);
      var count := CountNodes();
      if count != 0 {
        node := FindNext(0);
        if node < NODES {
          step := Association;
          SendRequest();
        }
      }
    }

    method MoveOn()
      requires State().Valid()
      modifies this
      ensures State() == CycleNextNode(old(State()))
      decreases NODES - node, 0
    {
      node := FindNext(node);
      if node < NODES {
        step := Association;
        SendRequest();
      } else {
        StartTimer(NextCycleTimer);
      }
    }

    /** Sends the request of the current step, if the node is still connected. */
    method SendRequest()
      requires State().Valid()
      modifies this
      ensures State() == Send(old(State()))
      decreases NODES - node, 1
    {
      if node < NODES && nodes[node] {
        GenerateRequest();
      } else {
        MoveOn();
      }
    }

    method GenerateRequest()
      requires State().Valid()
      modifies this`block, this`log
      ensures State() == Generate(old(State()))
    {
      if step == So2 {
        block := 1;
      } else if step == NextBlock {
        block := (block + 1) % COUNTER;
      }
      log := log + [Request(node, step, if step == NextBlock then block else 0)];
    }

    method TakeNextStep()
      requires State().Valid()
      modifies this
      ensures State() == NextStep(old(State()))
    {
      match step
      case Association =>
        step, block := Date, 0;
        SendRequest();
      case Date =>
        step := So2;
        SendRequest();
      case So2 =>
        step, block := NextBlock, 0;
        SendRequest();
      case NextBlock =>
        block := (block + 1) % COUNTER;
        if block > BLOCKS {
          step, block := Release, 0;
        }
        SendRequest();
      case Release =>
        node := FindNext(node);
        StartTimer(if node < NODES then NextNodeTimer else NextCycleTimer);
    }
  }
}
