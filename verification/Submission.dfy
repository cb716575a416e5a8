/** Ordered submission steps, the device commands they become, and the meaning of a run that
    performs each step at once and in order. */
module Submission {
  import opened ByteOrder
  import opened Canonical
  import opened MemoryCopy
  import opened RangeAccess
  import opened Resolution
  import opened WriteBatch

  /** Opaque payloads that only the device interprets. */
  type Maintenance = nat
  type Work = nat

  datatype Step =
    | NotificationWrite(target: ResolvedRange)
    | WaitForIdle
    | SemaphoreRelease(target: ResolvedRange, payload: U32, short: bool)
    | InlineWrite(target: ResolvedRange, value: seq<U8>)
    | CopyMemory(sourceSize: nat, regions: seq<CopyRegion>, source: ResolvedRange, destination: ResolvedRange)
    | Maintain(operation: Maintenance)
    | Gpu(work: Work)
  {
    /** Counted as an operation when it is appended. */
    predicate Emits() {
      !CopyMemory?
    }

    /** Closes the segment it lands in. */
    predicate Publishes() {
      NotificationWrite? || SemaphoreRelease?
    }

    /** May change canonical bytes from the CPU. */
    predicate TouchesMemory() {
      InlineWrite? || CopyMemory?
    }

    /** What the planner hands over: resolved ranges, and regions inside them. */
    ghost predicate Valid() {
      match this
      case NotificationWrite(target) => Usable(target)
      case SemaphoreRelease(target, payload, short) => Usable(target)
      case InlineWrite(target, value) => Usable(target)
      case CopyMemory(sourceSize, regions, source, destination) =>
        Usable(source) && Usable(destination) && RegionsOk(regions, sourceSize, destination.size)
      case _ => true
    }

    /** The CPU side of the step cannot be refused. */
    ghost predicate Accepted() {
      match this
      case InlineWrite(target, value) => CheckInline(target, value).Ok? && Granted(target, Write)
      case CopyMemory(sourceSize, regions, source, destination) =>
        && sourceSize == source.size
        && Granted(source, Read)
        && Granted(destination, Read)
        && Granted(destination, Write)
      case _ => true
    }
  }

  datatype Command =
    | Idle
    | WriteMemory(backing: Backing, offset: nat, bytes: seq<U8>, afterPrior: bool)
    | Maintenance(operation: Maintenance)
    | Execute(work: Work)

  // ----- device writes -----

  /** One command per segment, each with its part of the bytes. */
  function DeviceWrites(segments: seq<ResolvedMapping>, bytes: seq<U8>, afterPrior: bool): (c: seq<Command>)
    requires SegmentBytes(segments) <= |bytes|
    ensures |c| == |segments|
  {
    if segments == [] then []
    else
      var size := segments[0].size;
      [WriteMemory(segments[0].mapping.backing, segments[0].backingOffset, bytes[..size], afterPrior)]
      + DeviceWrites(segments[1..], bytes[size..], afterPrior)
  }

  /** What the device makes of memory when it executes work or maintenance; any function. */
  type Device = (Memory, Command) -> Memory

  /** What executing one command does to canonical bytes. */
  function PerformOne(device: Device, m: Memory, c: Command): Memory {
    match c
    case Idle => m
    case WriteMemory(backing, offset, bytes, _) =>
      if offset + |bytes| <= backing.Size() then PutAll(m, backing.Span(offset, |bytes|), bytes) else m
    case Maintenance(_) => device(m, c)
    case Execute(_) => device(m, c)
  }

  /** The device executes its commands in order. */
  function Perform(device: Device, m: Memory, commands: seq<Command>): Memory
    decreases |commands|
  {
    if commands == [] then m else Perform(device, PerformOne(device, m, commands[0]), commands[1..])
  }

  lemma {:induction false} PerformAppend(device: Device, m: Memory, x: seq<Command>, y: seq<Command>)
    ensures Perform(device, m, x + y) == Perform(device, Perform(device, m, x), y)
    decreases |x|
  {
    if x == [] {
      assert x + y == y;
    } else {
      assert (x + y)[1..] == x[1..] + y;
      PerformAppend(device, PerformOne(device, m, x[0]), x[1..], y);
    }
  }

  /** A device write stores its bytes over exactly the resolved segments. */
  lemma {:induction false} DeviceWritesMean(
    device: Device, m: Memory, segments: seq<ResolvedMapping>, bytes: seq<U8>, afterPrior: bool, n: nat)
    requires AllBacked(segments) && n == SegmentBytes(segments) <= |bytes|
    ensures Perform(device, m, DeviceWrites(segments, bytes, afterPrior)) ==
            PutAll(m, SegmentLocations(segments), bytes[..n])
    decreases |segments|
  {
    if segments != [] {
      var size, rest := segments[0].size, SegmentBytes(segments[1..]);
      var head, tail := segments[0].Bytes(), SegmentLocations(segments[1..]);
      var all, written := SegmentLocations(segments), bytes[..n];
      assert |head| == size && |tail| == rest && n == size + rest && all == head + tail;
      var first, second := bytes[..size], bytes[size..][..rest];
      assert written == first + second;
      DeviceWritesStep(device, m, segments, bytes, afterPrior);
      assert AllBacked(segments[1..]);
      hide PutAll, Perform, DeviceWrites, SegmentLocations, SegmentBytes, AllBacked;
      DeviceWritesMean(device, PutAll(m, head, first), segments[1..], bytes[size..], afterPrior, rest);
      PutBoth(m, head, first, tail, second, all, written);
    }
  }

  lemma PutBoth(
    m: Memory, head: seq<Location>, first: seq<U8>, tail: seq<Location>, second: seq<U8>,
    all: seq<Location>, bytes: seq<U8>)
    requires |head| == |first| && |tail| == |second| && all == head + tail && bytes == first + second
    ensures PutAll(PutAll(m, head, first), tail, second) == PutAll(m, all, bytes)
  {
    PutAllAppend(m, head, first, tail, second);
  }

  lemma DeviceWritesStep(device: Device, m: Memory, segments: seq<ResolvedMapping>, bytes: seq<U8>, afterPrior: bool)
    requires AllBacked(segments) && segments != [] && SegmentBytes(segments) <= |bytes|
    ensures Perform(device, m, DeviceWrites(segments, bytes, afterPrior)) ==
            Perform(device, PutAll(m, segments[0].Bytes(), bytes[..segments[0].size]),
                    DeviceWrites(segments[1..], bytes[segments[0].size..], afterPrior))
  {
    var all := DeviceWrites(segments, bytes, afterPrior);
    assert all[1..] == DeviceWrites(segments[1..], bytes[segments[0].size..], afterPrior);
  }

  /** Timestamp, then cleared information and status fields. */
  function NotificationBytes(timestamp: U64): (bytes: seq<U8>)
    ensures |bytes| == 16
    ensures FromLittleEndian(bytes[..8]) == timestamp && forall i :: 8 <= i < 16 ==> bytes[i] == 0
  {
    assert Power256(8) == U64_LIMIT;
    StoredValue(timestamp, 8);
    var bytes := ToLittleEndian(timestamp, 8) + [0, 0, 0, 0, 0, 0, 0, 0];
    assert bytes[..8] == ToLittleEndian(timestamp, 8);
    bytes
  }

  /** Payload, four cleared bytes and a timestamp; the short form is the payload alone. */
  function ReleaseBytes(payload: U32, timestamp: U64, short: bool): (bytes: seq<U8>)
    ensures |bytes| == if short then 4 else 16
    ensures FromLittleEndian(bytes[..4]) == payload
    ensures !short ==> FromLittleEndian(bytes[8..]) == timestamp && bytes[4..8] == [0, 0, 0, 0]
  {
    assert Power256(8) == U64_LIMIT && Power256(4) == U32_LIMIT;
    StoredValue(payload, 4);
    StoredValue(timestamp, 8);
    var head := ToLittleEndian(payload, 4);
    if short then
      assert head[..4] == head;
      head
    else
      var bytes := head + [0, 0, 0, 0] + ToLittleEndian(timestamp, 8);
      assert bytes[..4] == head && bytes[8..] == ToLittleEndian(timestamp, 8);
      bytes
  }

  // ----- the meaning of a run -----

  /** A consumed step, with what was observed when it was reached. */
  datatype Executed = Executed(step: Step, deviceOwned: bool, timestamp: U64)

  function StepsOf(h: seq<Executed>): seq<Step> {
    seq(|h|, i requires 0 <= i < |h| => h[i].step)
  }

  /** The device commands of a step. */
  function Commands(e: Executed): seq<Command>
    requires Deliverable(e)
  {
    match e.step
    case NotificationWrite(target) => DeviceWrites(target.segments, NotificationBytes(e.timestamp), true)
    case WaitForIdle => [Idle]
    case SemaphoreRelease(target, payload, short) =>
      DeviceWrites(target.segments, ReleaseBytes(payload, e.timestamp, short), true)
    case InlineWrite(target, value) => if e.deviceOwned then DeviceWrites(target.segments, value, false) else []
    case CopyMemory(_, _, _, _) => []
    case Maintain(operation) => [Maintenance(operation)]
    case Gpu(work) => [Command.Execute(work)]
  }

  /** The bytes of a device write cover its target. */
  predicate Deliverable(e: Executed) {
    match e.step
    case NotificationWrite(target) => SegmentBytes(target.segments) <= 16
    case SemaphoreRelease(target, payload, short) => SegmentBytes(target.segments) <= (if short then 4 else 16)
    case InlineWrite(target, value) => e.deviceOwned ==> SegmentBytes(target.segments) <= |value|
    case _ => true
  }

  ghost predicate AllDeliverable(h: seq<Executed>) {
    forall i :: 0 <= i < |h| ==> Deliverable(h[i])
  }

  /** What the CPU does to canonical memory for a step that is performed at once. */
  ghost function ApplyCpu(m: Memory, e: Executed): Memory {
    match e.step
    case InlineWrite(target, value) =>
      if !e.deviceOwned && target.WellFormed() && target.size == |value| then PutAll(m, target.Bytes(), value) else m
    case CopyMemory(sourceSize, regions, source, destination) =>
      if source.WellFormed() && destination.WellFormed() && RegionsOk(regions, source.size, destination.size)
      then CopyNow(m, source.Bytes(), destination.Bytes(), regions)
      else m
    case _ => m
  }

  /** A step performed at once, by the CPU or by the device. */
  ghost function Apply(device: Device, m: Memory, e: Executed): Memory
    requires Deliverable(e)
  {
    Perform(device, ApplyCpu(m, e), Commands(e))
  }

  /** Memory after performing every step at once, in order. */
  ghost function RunMemory(device: Device, m: Memory, h: seq<Executed>): Memory
    requires AllDeliverable(h)
    decreases |h|
  {
    if h == [] then m else Apply(device, RunMemory(device, m, h[..|h| - 1]), h[|h| - 1])
  }

  /** A device command and the canonical memory it is executed on. */
  datatype Delivery = Delivery(command: Command, memory: Memory)

  ghost function Executions(device: Device, m: Memory, commands: seq<Command>): (d: seq<Delivery>)
    ensures |d| == |commands|
    decreases |commands|
  {
    if commands == [] then []
    else [Delivery(commands[0], m)] + Executions(device, PerformOne(device, m, commands[0]), commands[1..])
  }

  /** The device commands of a run, each with the memory that everything before it leaves. */
  ghost function RunDeliveries(device: Device, m: Memory, h: seq<Executed>): seq<Delivery>
    requires AllDeliverable(h)
    decreases |h|
  {
    if h == [] then []
    else
      var n := |h| - 1;
      RunDeliveries(device, m, h[..n]) + Executions(device, ApplyCpu(RunMemory(device, m, h[..n]), h[n]), Commands(h[n]))
  }

  /** All device commands of a run. */
  function RunCommands(h: seq<Executed>): seq<Command>
    requires forall i :: 0 <= i < |h| ==> Deliverable(h[i])
    decreases |h|
  {
    if h == [] then [] else RunCommands(h[..|h| - 1]) + Commands(h[|h| - 1])
  }

  lemma {:induction false} ExecutionsAppend(device: Device, m: Memory, x: seq<Command>, y: seq<Command>)
    ensures Executions(device, m, x + y) ==
            Executions(device, m, x) + Executions(device, Perform(device, m, x), y)
    decreases |x|
  {
    if x == [] {
      assert x + y == y;
    } else {
      assert (x + y)[1..] == x[1..] + y;
      ExecutionsAppend(device, PerformOne(device, m, x[0]), x[1..], y);
    }
  }

  // ----- deferred execution against the meaning -----

  /** The staged writes `overlay` and the commands that the device has yet to execute are what
      separates canonical memory and the executed commands from the meaning of the consumed steps,
      and one of them is empty. */
  ghost predicate InStep(
    device: Device, initial: Memory, h: seq<Executed>, bytes: Memory, overlay: Memory, executed: seq<Delivery>,
    pending: seq<Command>)
  {
    && AllDeliverable(h)
    && (pending != [] ==> overlay == map[])
    && Perform(device, bytes + overlay, pending) == RunMemory(device, initial, h)
    && executed + Executions(device, bytes + overlay, pending) == RunDeliveries(device, initial, h)
  }

  lemma RunStep(device: Device, initial: Memory, h: seq<Executed>, e: Executed)
    requires AllDeliverable(h) && Deliverable(e)
    ensures AllDeliverable(h + [e])
    ensures RunMemory(device, initial, h + [e]) == Apply(device, RunMemory(device, initial, h), e)
    ensures RunDeliveries(device, initial, h + [e]) ==
            RunDeliveries(device, initial, h)
            + Executions(device, ApplyCpu(RunMemory(device, initial, h), e), Commands(e))
  {
    assert (h + [e])[..|h|] == h;
  }

  /** Committing staged writes. */
  lemma InStepCommit(
    device: Device, initial: Memory, h: seq<Executed>, bytes: Memory, overlay: Memory, executed: seq<Delivery>,
    pending: seq<Command>)
    requires InStep(device, initial, h, bytes, overlay, executed, pending)
    ensures InStep(device, initial, h, bytes + overlay, map[], executed, pending)
  {
    hide Perform, Executions, RunMemory, RunDeliveries;
    var none: Memory := map[];
    assert bytes + overlay + none == bytes + overlay;
  }

  /** The step does nothing to canonical memory from the CPU. */
  predicate DeviceOnly(e: Executed) {
    !e.step.TouchesMemory() || (e.step.InlineWrite? && e.deviceOwned)
  }

  /** Recording the commands of a device step. */
  lemma InStepDevice(
    device: Device, initial: Memory, h: seq<Executed>, bytes: Memory, executed: seq<Delivery>, pending: seq<Command>,
    e: Executed, after: seq<Command>)
    requires InStep(device, initial, h, bytes, map[], executed, pending) && Deliverable(e) && DeviceOnly(e)
    requires after == pending + Commands(e)
    ensures InStep(device, initial, h + [e], bytes, map[], executed, after)
  {
    hide Perform, Executions, RunMemory, RunDeliveries, Commands, Deliverable;
    var none: Memory := map[];
    var m := bytes + none;
    RunStep(device, initial, h, e);
    PerformAppend(device, m, pending, Commands(e));
    ExecutionsAppend(device, m, pending, Commands(e));
    var x, y := Executions(device, m, pending), Executions(device, Perform(device, m, pending), Commands(e));
    assert executed + (x + y) == executed + x + y;
  }

  /** Staging a CPU step while the device has nothing to do. */
  lemma InStepCpu(
    device: Device, initial: Memory, h: seq<Executed>, bytes: Memory, overlay: Memory, after: Memory,
    executed: seq<Delivery>, e: Executed)
    requires InStep(device, initial, h, bytes, overlay, executed, []) && Deliverable(e) && Commands(e) == []
    requires bytes + after == ApplyCpu(bytes + overlay, e)
    ensures InStep(device, initial, h + [e], bytes, after, executed, [])
  {
    hide ApplyCpu, Commands, Deliverable;
    RunStep(device, initial, h, e);
  }

  /** The device executes the next command. */
  lemma InStepExecute(
    device: Device, initial: Memory, h: seq<Executed>, bytes: Memory, executed: seq<Delivery>, pending: seq<Command>)
    requires InStep(device, initial, h, bytes, map[], executed, pending) && pending != []
    ensures InStep(device, initial, h, PerformOne(device, bytes, pending[0]), map[],
                   executed + [Delivery(pending[0], bytes)], pending[1..])
  {
    hide RunMemory, RunDeliveries, PerformOne;
    var none: Memory := map[];
    var next := PerformOne(device, bytes, pending[0]);
    assert bytes + none == bytes && next + none == next;
    var rest := Executions(device, next, pending[1..]);
    assert executed + ([Delivery(pending[0], bytes)] + rest) == executed + [Delivery(pending[0], bytes)] + rest;
  }

  lemma ChainedWhole(range: ResolvedRange)
    requires range.WellFormed()
    ensures SegmentBytes(range.segments) == range.size
  {
    ChainedSize(range.segments, range.offset, range.offset + range.size);
  }

  lemma InlineFits(e: Executed)
    requires e.step.InlineWrite? && e.step.target.WellFormed() && e.step.target.size == |e.step.value|
    ensures Deliverable(e) && SegmentBytes(e.step.target.segments) == |e.step.value|
  {
    ChainedWhole(e.step.target);
  }

  lemma WellFormedIsBacked(range: ResolvedRange)
    requires range.WellFormed()
    ensures AllBacked(range.segments) && range.Bytes() == SegmentLocations(range.segments)
  {
  }

  /** An inline write of the right size stores its bytes over the target, whoever performs it. */
  lemma InlineIsOneWrite(device: Device, m: Memory, e: Executed)
    requires e.step.InlineWrite? && e.step.target.WellFormed() && e.step.target.size == |e.step.value|
    ensures Deliverable(e)
    ensures Apply(device, m, e) == PutAll(m, e.step.target.Bytes(), e.step.value)
  {
    hide PutAll, SegmentLocations, SegmentBytes, AllBacked, ResolvedRange.WellFormed, ResolvedRange.Bytes, DeviceWrites;
    var target, value := e.step.target, e.step.value;
    InlineFits(e);
    WellFormedIsBacked(target);
    assert value[..|value|] == value;
    if e.deviceOwned {
      DeviceWritesMean(device, m, target.segments, value, false, |value|);
    }
  }

  /** The bytes that a completion write stores. */
  function CompletionBytes(e: Executed): seq<U8>
    requires e.step.Publishes()
  {
    match e.step
    case NotificationWrite(_) => NotificationBytes(e.timestamp)
    case SemaphoreRelease(_, payload, short) => ReleaseBytes(payload, e.timestamp, short)
  }

  /** A completion write stores its bytes over the target, so that a later copy from there reads them. */
  lemma CompletionIsOneWrite(device: Device, m: Memory, e: Executed)
    requires e.step.Publishes() && e.step.target.WellFormed() && e.step.target.size == |CompletionBytes(e)|
    ensures Deliverable(e)
    ensures Apply(device, m, e) == PutAll(m, e.step.target.Bytes(), CompletionBytes(e))
  {
    hide PutAll, SegmentLocations, SegmentBytes, AllBacked, ResolvedRange.WellFormed, ResolvedRange.Bytes, DeviceWrites,
         NotificationBytes, ReleaseBytes;
    var target, bytes := e.step.target, CompletionBytes(e);
    ChainedWhole(target);
    WellFormedIsBacked(target);
    assert bytes[..|bytes|] == bytes;
    DeviceWritesMean(device, m, target.segments, bytes, true, |bytes|);
  }
}
