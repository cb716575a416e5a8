/** Resumable execution of submission steps: CPU writes are deferred into a write batch, device
    commands are cut into numbered segments, and program order is kept between them. */
module Execution {
  import opened Canonical
  import opened MemoryCopy
  import opened RangeAccess
  import opened Resolution
  import opened Submission
  import opened WriteBatch

  datatype ExecutionError = Inline(inline: InlineError) | Copy(copy: CopyError) | TooManySubmissionSegments

  datatype Segment = Segment(number: U32, last: bool, commands: seq<Command>)

  /** All commands handed over, in order. */
  function SegmentCommands(emissions: seq<Segment>): seq<Command>
    decreases |emissions|
  {
    if emissions == [] then []
    else SegmentCommands(emissions[..|emissions| - 1]) + emissions[|emissions| - 1].commands
  }

  function CommandsIn(deliveries: seq<Delivery>): seq<Command> {
    seq(|deliveries|, i requires 0 <= i < |deliveries| => deliveries[i].command)
  }

  /** Every command handed over was executed, waits for the device or waits for acceptance. */
  ghost predicate Dispatched(
    emissions: seq<Segment>, executed: seq<Delivery>, queue: seq<Command>, handed: seq<Command>)
  {
    SegmentCommands(emissions) == CommandsIn(executed) + queue + handed
  }

  lemma DispatchedEmit(
    emissions: seq<Segment>, executed: seq<Delivery>, queue: seq<Command>, segment: Segment)
    requires Dispatched(emissions, executed, queue, [])
    ensures Dispatched(emissions + [segment], executed, queue, segment.commands)
  {
    assert (emissions + [segment])[..|emissions|] == emissions;
    assert CommandsIn(executed) + queue + [] == CommandsIn(executed) + queue;
  }

  lemma DispatchedAccept(emissions: seq<Segment>, executed: seq<Delivery>, queue: seq<Command>, handed: seq<Command>)
    requires Dispatched(emissions, executed, queue, handed)
    ensures Dispatched(emissions, executed, queue + handed, [])
  {
    assert CommandsIn(executed) + (queue + handed) + [] == CommandsIn(executed) + queue + handed;
  }

  lemma DispatchedExecute(
    emissions: seq<Segment>, executed: seq<Delivery>, queue: seq<Command>, handed: seq<Command>, d: Delivery)
    requires Dispatched(emissions, executed, queue, handed) && queue != [] && d.command == queue[0]
    ensures Dispatched(emissions, executed + [d], queue[1..], handed)
  {
    assert CommandsIn(executed + [d]) == CommandsIn(executed) + [d.command];
    assert queue == [queue[0]] + queue[1..];
    assert CommandsIn(executed) + [queue[0]] + queue[1..] == CommandsIn(executed) + queue;
  }

  /** What the device has yet to execute. */
  function Pending(queue: seq<Command>, handed: seq<Command>, batch: seq<Command>): seq<Command> {
    queue + handed + batch
  }

  lemma PendingMoves(queue: seq<Command>, handed: seq<Command>, batch: seq<Command>)
    ensures Pending(queue, batch, []) == Pending(queue, [], batch)
    ensures Pending(queue + handed, [], batch) == Pending(queue, handed, batch)
  {
    assert queue + batch + [] == queue + [] + batch;
    assert queue + handed + [] == queue + handed;
  }

  lemma PendingExecutes(queue: seq<Command>, handed: seq<Command>, batch: seq<Command>)
    requires queue != []
    ensures Pending(queue, handed, batch) != [] && Pending(queue, handed, batch)[0] == queue[0]
    ensures Pending(queue, handed, batch)[1..] == Pending(queue[1..], handed, batch)
  {
  }

  lemma PendingAppend(queue: seq<Command>, handed: seq<Command>, batch: seq<Command>, more: seq<Command>)
    ensures Pending(queue, handed, batch + more) == Pending(queue, handed, batch) + more
  {
    assert queue + handed + (batch + more) == queue + handed + batch + more;
  }

  function Emitting(steps: seq<Step>): nat {
    if steps == [] then 0 else (if steps[0].Emits() then 1 else 0) + Emitting(steps[1..])
  }

  lemma {:induction false} EmittingAppend(steps: seq<Step>, step: Step)
    ensures Emitting(steps + [step]) == Emitting(steps) + if step.Emits() then 1 else 0
  {
    if steps != [] {
      EmittingAppend(steps[1..], step);
      assert (steps + [step])[1..] == steps[1..] + [step];
    }
  }

  lemma EmittingTail(steps: seq<Step>, i: nat)
    requires i < |steps|
    ensures Emitting(steps[i..]) == (if steps[i].Emits() then 1 else 0) + Emitting(steps[i + 1..])
  {
    assert steps[i..][1..] == steps[i + 1..];
  }

  /** Segments are numbered from zero, and only the last can be marked. */
  ghost predicate Numbered(emissions: seq<Segment>, next: int, finalEmitted: bool) {
    && (forall i :: 0 <= i < |emissions| ==> emissions[i].number == i)
    && (forall i :: 0 <= i < |emissions| ==> (emissions[i].last <==> finalEmitted && i == |emissions| - 1))
    && (finalEmitted ==> emissions != [])
    && next == |emissions| - if finalEmitted then 1 else 0
  }

  lemma NumberedNext(emissions: seq<Segment>, next: int, e: Segment, final: bool)
    requires Numbered(emissions, next, false) && e.number == next && e.last == final
    ensures Numbered(emissions + [e], if final then next else next + 1, final)
  {
  }

  ghost predicate StepsValid(steps: seq<Step>) {
    forall i :: 0 <= i < |steps| ==> steps[i].Valid()
  }

  /** `consumed` records steps `from..to` as this call met them. */
  ghost predicate Consumed(
    consumed: seq<Executed>, steps: seq<Step>, from: nat, to: nat, deviceOwned: seq<bool>, timestamp: U64)
  {
    && from <= to <= |steps| == |deviceOwned|
    && |consumed| == to - from
    && forall k :: from <= k < to ==> consumed[k - from] == Executed(steps[k], deviceOwned[k], timestamp)
  }

  ghost predicate AllDeviceWritesFit(steps: seq<Step>, from: nat, deviceOwned: seq<bool>, timestamp: U64) {
    && |deviceOwned| == |steps|
    && forall k :: from <= k < |steps| ==> Deliverable(Executed(steps[k], deviceOwned[k], timestamp))
  }

  ghost predicate AllAccepted(steps: seq<Step>, from: nat, deviceOwned: seq<bool>) {
    && |deviceOwned| == |steps|
    && forall k :: from <= k < |steps| ==> steps[k].Accepted() || (steps[k].InlineWrite? && deviceOwned[k])
  }

  lemma UsableIsWellFormed(range: ResolvedRange)
    requires Usable(range)
    ensures range.WellFormed()
  {
  }

  lemma CpuOnly(e: Executed)
    requires Deliverable(e) && !DeviceOnly(e)
    ensures Commands(e) == []
    ensures forall m :: ApplyCpu(m, e) == ApplyCpu(m, e.(deviceOwned := false))
  {
  }

  /** Consumed and pending steps together are every step ever appended, in order. */
  ghost predicate Ledger(h: seq<Executed>, steps: seq<Step>, nextStep: nat, appended: seq<Step>) {
    nextStep <= |steps| && StepsOf(h) + steps[nextStep..] == appended
  }

  lemma LedgerAdvance(h: seq<Executed>, steps: seq<Step>, nextStep: nat, appended: seq<Step>, e: Executed)
    requires Ledger(h, steps, nextStep, appended) && nextStep < |steps| && e.step == steps[nextStep]
    ensures Ledger(h + [e], steps, nextStep + 1, appended)
  {
    assert StepsOf(h + [e]) == StepsOf(h) + [e.step];
    assert steps[nextStep..] == [steps[nextStep]] + steps[nextStep + 1..];
    assert StepsOf(h) + [e.step] + steps[nextStep + 1..] == StepsOf(h) + ([e.step] + steps[nextStep + 1..]);
  }

  lemma LedgerAppend(h: seq<Executed>, steps: seq<Step>, nextStep: nat, appended: seq<Step>, step: Step)
    requires Ledger(h, steps, nextStep, appended)
    ensures Ledger(h, steps + [step], nextStep, appended + [step])
  {
    assert (steps + [step])[nextStep..] == steps[nextStep..] + [step];
    assert StepsOf(h) + (steps[nextStep..] + [step]) == StepsOf(h) + steps[nextStep..] + [step];
  }

  lemma LedgerRetire(h: seq<Executed>, steps: seq<Step>, nextStep: nat, appended: seq<Step>)
    requires Ledger(h, steps, nextStep, appended)
    ensures Ledger(h, steps[nextStep..], 0, appended)
  {
    assert steps[nextStep..][0..] == steps[nextStep..];
  }

  ghost predicate NonePublish(steps: seq<Step>, from: int, to: int) {
    forall k :: 0 <= from <= k < to <= |steps| ==> !steps[k].Publishes()
  }

  /** `batch` holds the commands of the steps that this call consumed. */
  ghost predicate Recorded(consumed: seq<Executed>, batch: seq<Command>) {
    AllDeliverable(consumed) && batch == RunCommands(consumed)
  }

  lemma RecordedStep(consumed: seq<Executed>, batch: seq<Command>, e: Executed)
    requires Recorded(consumed, batch) && Deliverable(e)
    ensures Recorded(consumed + [e], batch + Commands(e))
  {
    assert (consumed + [e])[..|consumed|] == consumed;
  }

  /** This call has consumed steps `from..to` and recorded their commands. */
  ghost predicate Progress(
    before: seq<Executed>, now: seq<Executed>, consumed: seq<Executed>, batch: seq<Command>,
    steps: seq<Step>, from: nat, to: nat, deviceOwned: seq<bool>, timestamp: U64)
  {
    && now == before + consumed
    && Recorded(consumed, batch)
    && Consumed(consumed, steps, from, to, deviceOwned, timestamp)
    && AllDeviceWritesFit(steps, from, deviceOwned, timestamp)
    && NonePublish(steps, from, to - 1)
  }

  lemma ProgressStart(history: seq<Executed>, steps: seq<Step>, from: nat, deviceOwned: seq<bool>, timestamp: U64)
    requires from <= |steps| && AllDeviceWritesFit(steps, from, deviceOwned, timestamp)
    ensures Progress(history, history, [], [], steps, from, from, deviceOwned, timestamp)
    ensures NonePublish(steps, from, from)
  {
    var none: seq<Executed> := [];
    assert history + none == history;
  }

  lemma ProgressStep(
    before: seq<Executed>, now: seq<Executed>, consumed: seq<Executed>, batch: seq<Command>,
    steps: seq<Step>, from: nat, to: nat, deviceOwned: seq<bool>, timestamp: U64) returns (e: Executed)
    requires Progress(before, now, consumed, batch, steps, from, to, deviceOwned, timestamp)
    requires NonePublish(steps, from, to) && to < |steps| && StepsValid(steps)
    ensures |deviceOwned| == |steps| && e == Executed(steps[to], deviceOwned[to], timestamp) && Deliverable(e)
    ensures steps[to].Publishes() ==> Commands(e) != []
    ensures Progress(before, now + [e], consumed + [e], batch + Commands(e), steps, from, to + 1, deviceOwned, timestamp)
    ensures !steps[to].Publishes() ==> NonePublish(steps, from, to + 1)
    ensures AllAccepted(steps, from, deviceOwned) ==> steps[to].Accepted() || (steps[to].InlineWrite? && deviceOwned[to])
  {
    e := Executed(steps[to], deviceOwned[to], timestamp);
    hide RunCommands, Deliverable, Commands, Step.Valid, Step.Accepted;
    RecordedStep(consumed, batch, e);
    PublishingEmits(e);
    assert now + [e] == before + (consumed + [e]);
  }

  lemma NoStepsLeft(steps: seq<Step>)
    ensures Emitting(steps[|steps|..]) == 0
  {
  }

  lemma PublishingEmits(e: Executed)
    requires Deliverable(e) && e.step.Valid()
    ensures e.step.Publishes() ==> Commands(e) != []
  {
  }

  lemma InStepExclusive(
    device: Device, initial: Memory, h: seq<Executed>, bytes: Memory, overlay: Memory, executed: seq<Delivery>,
    pending: seq<Command>)
    requires InStep(device, initial, h, bytes, overlay, executed, pending) && pending != []
    ensures overlay == map[]
  {
  }

  lemma PendingRecorded(queue: seq<Command>, handed: seq<Command>, batch: seq<Command>)
    requires batch != []
    ensures Pending(queue, handed, batch) != []
  {
  }

  lemma NothingPending()
    ensures Pending([], [], []) == []
  {
  }

  lemma NumberedNone(emissions: seq<Segment>, next: int, finalEmitted: bool)
    requires Numbered(emissions, next, finalEmitted)
    ensures next == 0 && !finalEmitted ==> emissions == []
  {
  }

  lemma EmptyOverlay(batch: CanonicalWriteBatch)
    requires batch.pages == map[]
    ensures batch.Valid() && Overlay(batch.pages) == map[]
  {
  }

  lemma InStepStart(device: Device, initial: Memory)
    ensures InStep(device, initial, [], initial, map[], [], Pending([], [], []))
  {
    var none: Memory := map[];
    assert initial + none == initial;
  }

  function DeviceWrite(segment: ResolvedMapping, bytes: seq<U8>, afterPrior: bool): Command {
    WriteMemory(segment.mapping.backing, segment.backingOffset, bytes, afterPrior)
  }

  lemma NoDeviceWrites(segments: seq<ResolvedMapping>, bytes: seq<U8>, afterPrior: bool)
    requires segments == []
    ensures SegmentBytes(segments) <= |bytes| && DeviceWrites(segments, bytes, afterPrior) == []
  {
  }

  lemma DeviceWriteFirst(segments: seq<ResolvedMapping>, i: nat, bytes: seq<U8>, at: nat, end: nat, afterPrior: bool)
    requires i < |segments| && at <= |bytes| && SegmentBytes(segments[i..]) <= |bytes| - at
    requires end == at + segments[i].size
    ensures end <= |bytes| && SegmentBytes(segments[i + 1..]) <= |bytes| - end
    ensures DeviceWrites(segments[i..], bytes[at..], afterPrior) ==
            [DeviceWrite(segments[i], bytes[at..end], afterPrior)] + DeviceWrites(segments[i + 1..], bytes[end..], afterPrior)
  {
    var rest := segments[i..];
    assert rest[1..] == segments[i + 1..] && bytes[at..][segments[i].size..] == bytes[end..];
    assert bytes[at..][..segments[i].size] == bytes[at..end];
  }

  class MaxwellBackendExecution {
    const memory: CanonicalMemory
    const preWrites: CanonicalWriteBatch
    const device: Device
    var steps: seq<Step>
    var nextStep: nat
    var batch: seq<Command>
    var handed: seq<Command>
    var queue: seq<Command>
    var next: U32
    var remaining: nat
    var awaiting: bool
    var finished: bool
    var sealed: bool
    var finalEmitted: bool
    ghost const initial: Memory
    ghost var appended: seq<Step>
    ghost var history: seq<Executed>
    ghost var emissions: seq<Segment>
    ghost var executed: seq<Delivery>

    /** What holds between the steps of one call. */
    ghost predicate Running()
      reads this, memory, preWrites
    {
      && preWrites.Valid()
      && nextStep <= |steps|
      && StepsValid(steps)
      && Ledger(history, steps, nextStep, appended)
      && remaining == Emitting(steps[nextStep..])
      && InStep(device, initial, history, memory.bytes, Overlay(preWrites.pages), executed, Pending(queue, handed, batch))
      && Dispatched(emissions, executed, queue, handed)
      && Numbered(emissions, next, finalEmitted)
      && (finalEmitted ==> sealed && remaining == 0 && batch == [])
      && (!awaiting ==> handed == [])
    }

    /** Between calls nothing is staged and nothing is recorded. */
    ghost predicate Valid()
      reads this, memory, preWrites
    {
      && Running()
      && Overlay(preWrites.pages) == map[]
      && batch == []
      && (finished ==> sealed && nextStep == |steps| && (emissions != [] ==> finalEmitted))
    }

    constructor (memory: CanonicalMemory, device: Device)
      ensures Valid() && this.memory == memory && initial == memory.bytes && this.device == device
      ensures steps == [] && !awaiting && !finished && !sealed && appended == [] && history == [] && emissions == []
      ensures executed == [] && queue == []
    {
      this.memory, this.device := memory, device;
      initial := memory.bytes;
      preWrites := new CanonicalWriteBatch();
      steps, nextStep, batch, handed, queue, next, remaining := [], 0, [], [], [], 0, 0;
      awaiting, finished, sealed, finalEmitted := false, false, false, false;
      appended, history, emissions, executed := [], [], [], [];
      new;
      EmptyOverlay(preWrites);
      InStepStart(device, initial);
    }

    /** Adds steps to an open delivery. */
    method AppendSteps(more: seq<Step>)
      requires Valid() && !sealed && !finished && StepsValid(more)
      modifies this`steps, this`remaining, this`appended
      ensures Valid() && steps == old(steps) + more && appended == old(appended) + more
    {
      hide InStep, Ledger, Numbered, Dispatched, Pending, Overlay, PagesValid;
      var i := 0;
      while i < |more|
        invariant i <= |more| && Valid() && steps == old(steps) + more[..i] && appended == old(appended) + more[..i]
      {
        AppendStep(more[i]);
        i := i + 1;
      }
    }

    method AppendStep(step: Step)
      requires Valid() && !sealed && !finished && step.Valid()
      modifies this`steps, this`remaining, this`appended
      ensures Valid() && steps == old(steps) + [step] && appended == old(appended) + [step]
    {
      hide InStep, Ledger, Numbered, Dispatched, Pending, Overlay, PagesValid, Step.Valid;
      EmittingAppend(steps[nextStep..], step);
      LedgerAppend(history, steps, nextStep, appended, step);
      assert (steps + [step])[nextStep..] == steps[nextStep..] + [step];
      remaining := remaining + if step.Emits() then 1 else 0;
      steps, appended := steps + [step], appended + [step];
    }

    /** Forgets consumed steps. */
    method RetireConsumedSteps() returns (consumed: nat)
      requires Valid()
      modifies this`steps, this`nextStep
      ensures Valid() && consumed == old(nextStep) && nextStep == 0 && steps == old(steps[nextStep..])
    {
      hide InStep, Ledger, Numbered, Dispatched, Pending, Overlay, PagesValid, Emitting;
      consumed := nextStep;
      LedgerRetire(history, steps, nextStep, appended);
      steps := steps[consumed..];
      nextStep := 0;
      assert steps[0..] == steps;
    }

    method Seal()
      requires Valid() && !sealed
      modifies this`sealed
      ensures Valid() && sealed
    {
      hide InStep, Ledger, Numbered, Dispatched, Pending, Overlay, PagesValid, Emitting, StepsValid;
      sealed := true;
    }

    /** The pending segment is accepted: its commands join what the device has to execute. */
    method AcceptSegment()
      requires Valid() && awaiting
      modifies this`awaiting, this`handed, this`queue
      ensures Valid() && !awaiting && queue == old(queue) + old(handed)
    {
      hide InStep, Ledger, Numbered, Dispatched, Pending, Overlay, PagesValid, Emitting, StepsValid;
      PendingMoves(queue, handed, batch);
      DispatchedAccept(emissions, executed, queue, handed);
      awaiting := false;
      queue, handed := queue + handed, [];
    }

    /** The device executes the next accepted command, at any time it likes. */
    method DeviceExecutes()
      requires Running() && queue != []
      modifies this`queue, this`executed, memory
      ensures Running() && queue == old(queue)[1..]
      ensures old(Valid()) ==> Valid()
      ensures memory.bytes == PerformOne(device, old(memory.bytes), old(queue)[0])
      ensures executed == old(executed) + [Delivery(old(queue)[0], old(memory.bytes))]
    {
      hide InStep, Ledger, Numbered, Dispatched, Pending, Overlay, PagesValid, Emitting, StepsValid;
      PendingExecutes(queue, handed, batch);
      InStepExclusive(device, initial, history, memory.bytes, Overlay(preWrites.pages), executed,
                      Pending(queue, handed, batch));
      InStepExecute(device, initial, history, memory.bytes, executed, Pending(queue, handed, batch));
      DispatchedExecute(emissions, executed, queue, handed, Delivery(queue[0], memory.bytes));
      executed := executed + [Delivery(queue[0], memory.bytes)];
      memory.bytes := PerformOne(device, memory.bytes, queue[0]);
      queue := queue[1..];
    }

    /** Makes accepted device work visible to the CPU. */
    method MakeCpuVisible()
      requires Running()
      modifies this`queue, this`executed, memory
      ensures Running() && queue == []
      ensures memory.bytes == Perform(device, old(memory.bytes), old(queue))
      ensures executed == old(executed) + Executions(device, old(memory.bytes), old(queue))
    {
      hide InStep, Ledger, Numbered, Dispatched, Pending, Overlay, PagesValid, Emitting, StepsValid, PerformOne;
      while queue != []
        invariant Running()
        invariant Perform(device, memory.bytes, queue) == Perform(device, old(memory.bytes), old(queue))
        invariant executed + Executions(device, memory.bytes, queue) ==
                  old(executed) + Executions(device, old(memory.bytes), old(queue))
        decreases |queue|
      {
        ghost var first, rest := Delivery(queue[0], memory.bytes),
                                 Executions(device, PerformOne(device, memory.bytes, queue[0]), queue[1..]);
        assert executed + ([first] + rest) == executed + [first] + rest;
        DeviceExecutes();
      }
      assert executed + [] == executed;
    }

    predicate WaitingForInput()
      reads this
    {
      !sealed && nextStep == |steps|
    }

    /** Hands the recorded commands over as the segment `number`. */
    method Emit(number: U32, final: bool) returns (segment: Segment)
      requires Running() && !awaiting && number == next && !finalEmitted && (final ==> sealed && remaining == 0)
      requires final || next < U32_LIMIT - 1
      modifies this`batch, this`handed, this`next, this`awaiting, this`finalEmitted, this`emissions
      ensures Running() && batch == [] && awaiting && finalEmitted == final
      ensures segment == Segment(number, final, old(batch)) && handed == old(batch)
      ensures emissions == old(emissions) + [segment]
    {
      hide InStep, Ledger, Numbered, Dispatched, Pending, Overlay, PagesValid, Emitting, StepsValid;
      segment := Segment(number, final, batch);
      PendingMoves(queue, [], batch);
      DispatchedEmit(emissions, executed, queue, segment);
      NumberedNext(emissions, number, segment, final);
      finalEmitted := final;
      if !final { next := next + 1; }
      emissions := emissions + [segment];
      handed, batch := batch, [];
      awaiting := true;
    }

    /** Cuts a segment from the recorded commands. The last one is cut even when nothing is
        recorded, unless no segment came before it. */
    method TakeSegment() returns (r: Result<Option<Segment>, ExecutionError>)
      requires Running() && Overlay(preWrites.pages) == map[] && !awaiting
      modifies this`batch, this`handed, this`next, this`awaiting, this`finalEmitted, this`emissions
      ensures old(next) < U32_LIMIT - 1 ==> r.Ok?
      ensures r.Ok? ==> Running() && batch == []
      ensures r.Ok? ==> (r.value.Some? <==>
        old(batch) != [] || (sealed && remaining == 0 && old(next) != 0 && !old(finalEmitted)))
      ensures r.Ok? && r.value.Some? ==>
        && awaiting
        && r.value.value.commands == old(batch) == handed
        && emissions == old(emissions) + [r.value.value]
        && (finalEmitted <==> sealed && remaining == 0)
      ensures r.Ok? && r.value.None? ==>
        emissions == old(emissions) && !awaiting && next == old(next) && finalEmitted == old(finalEmitted)
    {
      hide InStep, Ledger, Numbered, Dispatched, Pending, Overlay, PagesValid, Emitting, StepsValid;
      var final := sealed && remaining == 0;
      if finalEmitted || (batch == [] && !(final && next != 0)) {
        return Ok(None);
      }
      if !final && next == U32_LIMIT - 1 {
        finalEmitted := final;
        return Err(TooManySubmissionSegments);
      }
      var segment := Emit(next, final);
      r := Ok(Some(segment));
    }

    /** Commits the staged writes. */
    method CommitPending()
      requires Running()
      modifies memory, preWrites
      ensures Running() && Overlay(preWrites.pages) == map[]
    {
      InStepCommit(device, initial, history, memory.bytes, Overlay(preWrites.pages), executed, Pending(queue, handed, batch));
      hide InStep, Ledger, Numbered, Dispatched, Pending, Emitting, StepsValid;
      preWrites.CommitOrdered(memory);
      preWrites.pages := map[];
      EmptyOverlay(preWrites);
    }

    /** Records the write of `bytes` over `target`, one command per segment. */
    method AppendDeviceWrite(target: ResolvedRange, bytes: seq<U8>, afterPrior: bool)
      requires SegmentBytes(target.segments) <= |bytes|
      modifies this`batch
      ensures batch == old(batch) + DeviceWrites(target.segments, bytes, afterPrior)
    {
      hide DeviceWrites, SegmentBytes;
      var copied: nat := 0;
      assert target.segments[0..] == target.segments && bytes[0..] == bytes;
      for i := 0 to |target.segments|
        invariant copied <= |bytes| && SegmentBytes(target.segments[i..]) <= |bytes| - copied
        invariant batch + DeviceWrites(target.segments[i..], bytes[copied..], afterPrior) ==
                  old(batch) + DeviceWrites(target.segments, bytes, afterPrior)
      {
        var m := target.segments[i];
        DeviceWriteFirst(target.segments, i, bytes, copied, copied + m.size, afterPrior);
        ghost var first, rest := DeviceWrite(m, bytes[copied..copied + m.size], afterPrior),
                                 DeviceWrites(target.segments[i + 1..], bytes[copied + m.size..], afterPrior);
        assert batch + ([first] + rest) == batch + [first] + rest;
        batch := batch + [WriteMemory(m.mapping.backing, m.backingOffset, bytes[copied..copied + m.size], afterPrior)];
        copied := copied + m.size;
      }
      NoDeviceWrites(target.segments[|target.segments|..], bytes[copied..], afterPrior);
      assert batch + [] == batch;
    }

    /** Counts a step as performed. */
    method Advance(ghost e: Executed)
      modifies this`nextStep, this`remaining, this`history
      requires nextStep < |steps| && e.step == steps[nextStep] && remaining == Emitting(steps[nextStep..])
      requires Ledger(history, steps, nextStep, appended)
      ensures Ledger(history, steps, nextStep, appended)
      ensures nextStep == old(nextStep) + 1 && remaining == Emitting(steps[nextStep..])
      ensures remaining <= old(remaining) && history == old(history) + [e]
    {
      EmittingTail(steps, nextStep);
      LedgerAdvance(history, steps, nextStep, appended, e);
      if steps[nextStep].Emits() { remaining := remaining - 1; }
      nextStep := nextStep + 1;
      history := history + [e];
    }

    /** Records the device commands of a step. */
    method RecordCommands(step: Step, deviceOwned: bool, timestamp: U64)
      requires DeviceOnly(Executed(step, deviceOwned, timestamp)) && Deliverable(Executed(step, deviceOwned, timestamp))
      modifies this`batch
      ensures batch == old(batch) + Commands(Executed(step, deviceOwned, timestamp))
    {
      hide DeviceWrites;
      match step
      case NotificationWrite(target) => AppendDeviceWrite(target, NotificationBytes(timestamp), true);
      case WaitForIdle => batch := batch + [Idle];
      case SemaphoreRelease(target, payload, short) =>
        AppendDeviceWrite(target, ReleaseBytes(payload, timestamp, short), true);
      case InlineWrite(target, value) => AppendDeviceWrite(target, value, false);
      case Maintain(operation) => batch := batch + [Maintenance(operation)];
      case Gpu(work) => batch := batch + [Command.Execute(work)];
    }

    /** Stages what a step does to canonical memory. */
    method StageWrites(step: Step, ghost timestamp: U64) returns (r: Result<(), ExecutionError>)
      requires preWrites.Valid() && step.Valid() && step.TouchesMemory()
      modifies preWrites
      ensures preWrites.Valid()
      ensures step.Accepted() ==> r.Ok?
      ensures r.Ok? ==> memory.bytes + Overlay(preWrites.pages) ==
                        ApplyCpu(memory.bytes + old(Overlay(preWrites.pages)), Executed(step, false, timestamp))
    {
      hide Overlay, PagesValid, PutAll, CopyNow, CopyOverlay, Usable;
      ghost var before := Overlay(preWrites.pages);
      match step
      case InlineWrite(target, value) =>
        var staged := StageInline(preWrites, target, value, memory.bytes);
        if staged.Err? { return Err(Inline(staged.error)); }
        assert target.WellFormed() by { UsableIsWellFormed(target); }
        PutAllOver(memory.bytes, before, target.Bytes(), value);
        r := Ok(());
      case CopyMemory(sourceSize, regions, source, destination) =>
        var staged := StageMemoryCopy(preWrites, sourceSize, regions, source, destination, memory.bytes);
        if staged.Err? { return Err(Copy(staged.error)); }
        UsableIsWellFormed(source);
        UsableIsWellFormed(destination);
        StagedCopyIsCopyNow(memory.bytes, before, source.Bytes(), destination.Bytes(), regions);
        r := Ok(());
    }

    /** Performs the next step: device steps are recorded after earlier writes are committed,
        CPU writes are staged. */
    method ExecuteStep(deviceOwned: bool, timestamp: U64) returns (r: Result<(), ExecutionError>)
      requires Running() && !awaiting && nextStep < |steps| && (steps[nextStep].TouchesMemory() ==> batch == [])
      requires Deliverable(Executed(steps[nextStep], deviceOwned, timestamp))
      modifies this`batch, this`nextStep, this`remaining, this`history, this`queue, this`executed, memory, preWrites
      ensures r.Ok? ==> Running() && nextStep == old(nextStep) + 1
      ensures r.Ok? ==> history == old(history) + [Executed(old(steps[nextStep]), deviceOwned, timestamp)]
      ensures r.Ok? ==> batch == old(batch) + Commands(Executed(old(steps[nextStep]), deviceOwned, timestamp))
      ensures r.Ok? && !old(steps[nextStep]).TouchesMemory() ==> Overlay(preWrites.pages) == map[]
      ensures old(steps[nextStep]).Accepted() || (old(steps[nextStep]).InlineWrite? && deviceOwned) ==> r.Ok?
    {
      hide InStep, Ledger, Numbered, Dispatched, Pending, Overlay, PagesValid, Commands, Deliverable, ApplyCpu,
           Step.Valid, Step.Accepted;
      var step := steps[nextStep];
      ghost var e := Executed(step, deviceOwned, timestamp);
      EmittingTail(steps, nextStep);
      if !step.TouchesMemory() || (step.InlineWrite? && deviceOwned) {
        CommitPending();
        PendingAppend(queue, handed, batch, Commands(e));
        InStepDevice(device, initial, history, memory.bytes, executed, Pending(queue, handed, batch), e,
                     Pending(queue, handed, batch + Commands(e)));
        RecordCommands(step, deviceOwned, timestamp);
      } else {
        MakeCpuVisible();
        NothingPending();
        ghost var before := Overlay(preWrites.pages);
        r := StageWrites(step, timestamp);
        if r.Err? { return; }
        CpuOnly(e);
        InStepCpu(device, initial, history, memory.bytes, before, Overlay(preWrites.pages), executed, e);
      }
      Advance(e);
      r := Ok(());
    }

    /** Consumes steps until the recorded commands must be handed over or none are left. */
    method ConsumeSteps(timestamp: U64, deviceOwned: seq<bool>)
      returns (r: Result<bool, ExecutionError>, ghost consumed: seq<Executed>)
      requires Valid() && !finished && !awaiting && AllDeviceWritesFit(steps, nextStep, deviceOwned, timestamp)
      modifies this`nextStep, this`batch, this`remaining, this`history, this`queue, this`executed, memory, preWrites
      ensures AllAccepted(steps, old(nextStep), deviceOwned) ==> r.Ok?
      ensures r.Ok? ==> Running()
      ensures r.Ok? ==>
        Progress(old(history), history, consumed, batch, steps, old(nextStep), nextStep, deviceOwned, timestamp)
      ensures r.Ok? && r.value ==> Overlay(preWrites.pages) == map[] && batch != []
      ensures r.Ok? && !r.value ==> nextStep == |steps|
    {
      hide InStep, Ledger, Numbered, Dispatched, Pending, Overlay, PagesValid, RunCommands, Deliverable, Step.Valid, Step.Accepted,
           Emitting, Consumed, NonePublish, AllDeviceWritesFit, AllAccepted, StepsValid, Recorded;
      consumed := [];
      ProgressStart(history, steps, nextStep, deviceOwned, timestamp);
      while nextStep < |steps|
        invariant Running()
        invariant Progress(old(history), history, consumed, batch, steps, old(nextStep), nextStep, deviceOwned, timestamp)
        invariant NonePublish(steps, old(nextStep), nextStep)
      {
        if batch != [] && steps[nextStep].TouchesMemory() {
          PendingRecorded(queue, handed, batch);
          InStepExclusive(device, initial, history, memory.bytes, Overlay(preWrites.pages), executed,
                          Pending(queue, handed, batch));
          return Ok(true), consumed;
        }
        var publishes := steps[nextStep].Publishes();
        ghost var e := ProgressStep(old(history), history, consumed, batch, steps, old(nextStep), nextStep, deviceOwned, timestamp);
        var step := ExecuteStep(deviceOwned[nextStep], timestamp);
        if step.Err? { return Err(step.error), consumed; }
        consumed := consumed + [e];
        if publishes { return Ok(true), consumed; }
      }
      r := Ok(false);
    }

    /** Consumes steps until a segment is cut or none are left. The segment holds exactly the
        commands of the steps this call consumed, and a step that publishes is the last. */
    method NextSegment(timestamp: U64, deviceOwned: seq<bool>)
      returns (r: Result<Option<Segment>, ExecutionError>, ghost consumed: seq<Executed>)
      requires Valid() && !awaiting && AllDeviceWritesFit(steps, nextStep, deviceOwned, timestamp)
      modifies this`nextStep, this`batch, this`handed, this`queue, this`next, this`remaining, this`awaiting,
               this`finished, this`finalEmitted, this`history, this`emissions, this`executed, memory, preWrites
      ensures AllAccepted(steps, old(nextStep), deviceOwned) && old(next) < U32_LIMIT - 1 ==> r.Ok?
      ensures r.Ok? ==> Valid() && history == old(history) + consumed
      ensures r.Ok? ==> Consumed(consumed, steps, old(nextStep), nextStep, deviceOwned, timestamp)
      ensures r.Ok? ==> NonePublish(steps, old(nextStep), nextStep - 1)
      ensures r.Ok? && r.value.Some? ==>
        && awaiting
        && emissions == old(emissions) + [r.value.value]
        && Recorded(consumed, r.value.value.commands)
      ensures r.Ok? && r.value.None? ==>
        && !awaiting
        && emissions == old(emissions)
        && nextStep == |steps|
        && Recorded(consumed, [])
        && (finished <==> sealed)
    {
      hide InStep, Ledger, Numbered, Dispatched, Pending, Overlay, PagesValid, RunCommands, Deliverable, Step.Valid, Step.Accepted,
           Emitting, Consumed, NonePublish, AllDeviceWritesFit, AllAccepted, StepsValid, Recorded;
      consumed := [];
      if finished {
        ProgressStart(history, steps, nextStep, deviceOwned, timestamp);
        return Ok(None), consumed;
      }
      var cut;
      cut, consumed := ConsumeSteps(timestamp, deviceOwned);
      if cut.Err? { return Err(cut.error), consumed; }
      if !cut.value { CommitPending(); }
      r := TakeSegment();
      if r.Err? || r.value.Some? || !sealed { return; }
      NoStepsLeft(steps);
      NumberedNone(emissions, next, finalEmitted);
      finished := true;
    }
  }

  /** A finished delivery: every appended step was performed in order. Executed commands, and those
      the device has yet to execute, are the commands of the run, each on the memory that everything
      before it leaves; memory is what performing each step at once leaves; every command was handed
      over in one segment, and the last segment alone is marked. */
  lemma FinishedDelivery(x: MaxwellBackendExecution)
    requires x.Valid() && x.finished
    ensures StepsOf(x.history) == x.appended && AllDeliverable(x.history)
    ensures x.executed + Executions(x.device, x.memory.bytes, x.queue + x.handed) ==
            RunDeliveries(x.device, x.initial, x.history)
    ensures Perform(x.device, x.memory.bytes, x.queue + x.handed) == RunMemory(x.device, x.initial, x.history)
    ensures SegmentCommands(x.emissions) == CommandsIn(x.executed) + x.queue + x.handed
    ensures forall i :: 0 <= i < |x.emissions| ==>
      x.emissions[i].number == i && (x.emissions[i].last <==> i == |x.emissions| - 1)
  {
    var none: Memory := map[];
    assert x.memory.bytes + none == x.memory.bytes;
    assert Pending(x.queue, x.handed, x.batch) == x.queue + x.handed;
    assert x.steps[x.nextStep..] == [];
    assert StepsOf(x.history) + [] == StepsOf(x.history);
  }

  /** Once the device has executed everything, nothing separates the delivery from its meaning. */
  lemma ExecutedDelivery(x: MaxwellBackendExecution)
    requires x.Valid() && x.finished && x.queue == [] && x.handed == []
    ensures StepsOf(x.history) == x.appended && AllDeliverable(x.history)
    ensures x.executed == RunDeliveries(x.device, x.initial, x.history)
    ensures x.memory.bytes == RunMemory(x.device, x.initial, x.history)
  {
    FinishedDelivery(x);
    assert x.queue + x.handed == [];
    assert x.executed + [] == x.executed;
  }
}
