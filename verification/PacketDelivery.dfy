/** Whole packets, from the requests of the planner to the memory that executing them leaves. */
module PacketDelivery {
  import opened Canonical
  import opened Execution
  import opened Planner
  import opened SpaceState
  import opened Submission

  /** A finished packet: the requests it was asked for, in the address space they were planned in,
      and the steps they became. */
  datatype Packet = Packet(space: Space, requests: seq<Request>, steps: seq<Step>)

  ghost predicate PacketsOk(packets: seq<Packet>) {
    forall i :: 0 <= i < |packets| ==> PlanOk(packets[i].space, packets[i].steps, packets[i].requests)
  }

  function AllSteps(packets: seq<Packet>): seq<Step>
    decreases |packets|
  {
    if packets == [] then [] else AllSteps(packets[..|packets| - 1]) + packets[|packets| - 1].steps
  }

  /** Performs the requests of every packet at once and in order, one write per word. The history
      of the steps gives their times. */
  ghost function RunPackets(device: Device, m: Memory, packets: seq<Packet>, h: seq<Executed>): Memory
    requires |h| == |AllSteps(packets)|
    decreases |packets|
  {
    if packets == [] then m
    else
      var n := |packets| - 1;
      var last, k := packets[n], |AllSteps(packets[..n])|;
      RunRequests(device, last.space.mappings, RunPackets(device, m, packets[..n], h[..k]), last.requests, Stamps(h[k..]))
  }

  lemma {:induction false} RunMemorySplit(device: Device, m: Memory, x: seq<Executed>, y: seq<Executed>)
    requires AllDeliverable(x) && AllDeliverable(y)
    ensures AllDeliverable(x + y)
    ensures RunMemory(device, m, x + y) == RunMemory(device, RunMemory(device, m, x), y)
    decreases |y|
  {
    hide Deliverable, Apply;
    if y == [] {
      assert x + y == x;
    } else {
      var n := |y| - 1;
      assert x + y == x + y[..n] + [y[n]];
      RunMemorySplit(device, m, x, y[..n]);
      RunStep(device, m, x + y[..n], y[n]);
    }
  }

  /** Performing the steps of all packets does what their requests ask. */
  lemma {:induction false} PacketsRun(device: Device, m: Memory, packets: seq<Packet>, h: seq<Executed>)
    requires PacketsOk(packets) && StepsOf(h) == AllSteps(packets)
    ensures AllDeliverable(h)
    ensures RunMemory(device, m, h) == RunPackets(device, m, packets, h)
    decreases |packets|
  {
    hide Deliverable, RunMemory, RunRequests, Stamps, StepsReady;
    if packets == [] {
      NothingRun(device, m, h);
    } else {
      var n := |packets| - 1;
      var last, k := packets[n], |AllSteps(packets[..n])|;
      var x, y := h[..k], h[k..];
      assert h == x + y;
      assert StepsOf(x) == StepsOf(h)[..k] == AllSteps(packets[..n]);
      assert StepsOf(y) == StepsOf(h)[k..] == last.steps;
      PacketsRun(device, m, packets[..n], x);
      assert PlanOk(last.space, last.steps, last.requests);
      assert Serves(last.space.mappings, last.steps, last.requests, device, RunMemory(device, m, x), y);
      RunMemorySplit(device, m, x, y);
    }
  }

  lemma NothingRun(device: Device, m: Memory, h: seq<Executed>)
    requires h == []
    ensures AllDeliverable(h) && RunMemory(device, m, h) == m
  {
  }

  /** Whatever the delivery of the packets looked like — how it was cut into segments, which uploads
      the device performed, when each command was executed — once everything is executed memory is
      what the requests ask for, word by word. */
  lemma DeliveredPackets(x: MaxwellBackendExecution, packets: seq<Packet>)
    requires x.Valid() && x.finished && x.queue == [] && x.handed == []
    requires PacketsOk(packets) && x.appended == AllSteps(packets)
    ensures |x.history| == |AllSteps(packets)|
    ensures x.memory.bytes == RunPackets(x.device, x.initial, packets, x.history)
  {
    ExecutedDelivery(x);
    hide MaxwellBackendExecution.Valid, RunMemory, RunPackets, PacketsOk;
    assert |StepsOf(x.history)| == |x.history|;
    PacketsRun(x.device, x.initial, packets, x.history);
  }

  /** Ends the packet and hands its steps to an open delivery of the packets before it. */
  method HandOver(planner: MaxwellSubmissionPlanner, x: MaxwellBackendExecution, ghost packets: seq<Packet>)
    returns (ghost all: seq<Packet>)
    requires planner.Valid() && x.Valid() && !x.sealed && !x.finished
    requires PacketsOk(packets) && x.appended == AllSteps(packets)
    modifies planner, x`steps, x`remaining, x`appended
    ensures planner.Valid() && planner.steps == [] && x.Valid()
    ensures PacketsOk(all) && x.appended == AllSteps(all)
    ensures |all| == |packets| + 1 && all[..|packets|] == packets
    ensures all[|packets|] == Packet(planner.space.View(), old(planner.requests), old(planner.steps))
  {
    hide MaxwellBackendExecution.Valid, MaxwellSubmissionPlanner.Valid, PlanOk;
    ghost var space, requests := planner.space.View(), planner.requests;
    var steps := planner.FinishPacket();
    PlanIsValid(space, steps, requests);
    x.AppendSteps(steps);
    all := packets + [Packet(space, requests, steps)];
    assert all[..|packets|] == packets;
  }

  lemma PlanIsValid(s: Space, steps: seq<Step>, requests: seq<Request>)
    requires PlanOk(s, steps, requests)
    ensures StepsValid(steps)
  {
    hide Step.Valid, Step.Accepted, Fits, Serves, InlineOk;
    forall i | 0 <= i < |steps| ensures steps[i].Valid() {
      assert Ready(steps[i]);
    }
  }

  lemma {:induction false} PacketStepsReady(packets: seq<Packet>)
    requires PacketsOk(packets)
    ensures forall i :: 0 <= i < |AllSteps(packets)| ==> Ready(AllSteps(packets)[i])
    decreases |packets|
  {
    hide Ready, Serves, InlineOk;
    if packets != [] {
      var n := |packets| - 1;
      PacketStepsReady(packets[..n]);
      var last := packets[n];
      assert PlanOk(last.space, last.steps, last.requests);
    }
  }

  lemma RemainingStep(h: seq<Executed>, steps: seq<Step>, nextStep: nat, appended: seq<Step>, k: nat)
    requires Ledger(h, steps, nextStep, appended) && nextStep <= k < |steps|
    ensures |h| + k - nextStep < |appended| && steps[k] == appended[|h| + k - nextStep]
  {
    assert steps[nextStep..][k - nextStep] == steps[k];
  }

  /** At any point of the delivery of finished packets the next segment can be asked for and is not
      refused, whatever is device owned by then. */
  lemma PacketsAreAccepted(x: MaxwellBackendExecution, packets: seq<Packet>, owned: seq<bool>, timestamp: U64)
    requires x.Valid() && PacketsOk(packets) && x.appended == AllSteps(packets) && |owned| == |x.steps|
    ensures AllDeviceWritesFit(x.steps, x.nextStep, owned, timestamp) && AllAccepted(x.steps, x.nextStep, owned)
  {
    hide Step.Valid, Step.Accepted, Deliverable, PacketsOk, InStep, Dispatched, Numbered, Pending, Ledger, StepsValid;
    PacketStepsReady(packets);
    forall k | x.nextStep <= k < |x.steps|
      ensures Deliverable(Executed(x.steps[k], owned[k], timestamp)) && x.steps[k].Accepted()
    {
      RemainingStep(x.history, x.steps, x.nextStep, x.appended, k);
      assert Ready(x.steps[k]);
    }
  }
}
