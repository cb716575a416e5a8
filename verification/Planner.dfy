/** Inline uploads in the submission planner: adjacent words are coalesced into one resolved
    write without a new lookup. */
module Planner {
  import opened AddressSpace
  import opened ByteOrder
  import opened Canonical
  import opened MappingTable
  import RangeAccess
  import opened Resolution
  import opened SpaceState
  import opened Submission
  import opened WriteBatch

  datatype PlanError = InlineAddress(error: AccessError) | AddressOverflow

  // ----- the bytes behind a range of addresses -----

  ghost function LocationAt(t: Table, a: int): Location {
    if TableOk(t) && Lookup(t, a).Some? then ByteBehind(t, a) else Location(0, 0)
  }

  ghost function LocationsAt(t: Table, a: int, n: nat): (l: seq<Location>)
    ensures |l| == n
  {
    seq(n, i => LocationAt(t, a + i))
  }

  lemma LocationsAppend(t: Table, a: int, n: nat, b: int, m: nat)
    requires b == a + n
    ensures LocationsAt(t, a, n + m) == LocationsAt(t, a, n) + LocationsAt(t, b, m)
  {
  }

  lemma ResolvedByte(s: Space, range: ResolvedRange, i: nat, a: nat)
    requires TableOk(s.mappings) && Resolves(s, range) && i < range.size && a == range.offset + i
    ensures range.Bytes()[i] == LocationAt(s.mappings, a)
  {
    ResolvedMeans(s, range, a);
    hide TableOk, Resolves, ByteBehind, ResolvedRange.WellFormed, ResolvedRange.Bytes, Lookup;
    assert a - range.offset == i;
  }

  /** A resolved range holds the bytes behind its addresses, however it was put together. */
  lemma ResolvedLocations(s: Space, range: ResolvedRange)
    requires TableOk(s.mappings) && Resolves(s, range)
    ensures range.Bytes() == LocationsAt(s.mappings, range.offset, range.size)
  {
    hide LocationAt, SegmentsOk, Chained;
    var bytes, goal := range.Bytes(), LocationsAt(s.mappings, range.offset, range.size);
    forall i | 0 <= i < range.size ensures bytes[i] == goal[i] {
      ResolvedByte(s, range, i, range.offset + i);
    }
  }

  // ----- appending in place -----

  /** `size` more bytes at `address` continue the range inside its only mapping. */
  predicate Appendable(target: ResolvedRange, address: nat, size: nat) {
    && target.offset + target.size == address
    && |target.segments| == 1
    && address + size <= target.segments[0].mapping.End()
  }

  function Appended(target: ResolvedRange, size: nat): ResolvedRange
    requires |target.segments| == 1
  {
    target.(size := target.size + size, segments := [target.segments[0].(size := target.segments[0].size + size)])
  }

  predicate SameExtent(x: ResolvedRange, y: ResolvedRange) {
    x.offset == y.offset && x.size == y.size && x.permissions == y.permissions
  }

  /** Appending in place gives what resolving the longer range again would give. */
  lemma AppendedIsResolved(s: Space, target: ResolvedRange, address: nat, size: nat)
    requires TableOk(s.mappings) && Resolves(s, target) && Appendable(target, address, size)
    ensures Resolves(s, Appended(target, size))
    ensures forall again :: Resolves(s, again) && SameExtent(again, Appended(target, size)) ==>
      again == Appended(target, size)
  {
    var segment := target.segments[0];
    var m := segment.mapping;
    assert SegmentOk(s.mappings, segment, target.offset + target.size, target.permissions);
    assert EntryOk(m.offset, m);
    var longer := Appended(target, size);
    assert SegmentOk(s.mappings, longer.segments[0], longer.offset + longer.size, longer.permissions);
    assert longer.segments[0].Backed();
    forall again | Resolves(s, again) && SameExtent(again, longer) ensures again == longer {
      ResolutionIsUnique(s, again, longer);
    }
  }

  // ----- one resolved write per word -----

  function WordBytes(words: seq<U32>): (bytes: seq<U8>)
    ensures |bytes| == 4 * |words|
  {
    if words == [] then [] else ToLittleEndian(words[0], 4) + WordBytes(words[1..])
  }

  /** Writes each word at once, at its own address. */
  ghost function WriteWords(t: Table, m: Memory, a: int, words: seq<U32>): Memory
    decreases |words|
  {
    if words == [] then m
    else WriteWords(t, PutAll(m, LocationsAt(t, a, 4), ToLittleEndian(words[0], 4)), a + 4, words[1..])
  }

  /** One write of the whole run stores what a write per word stores. */
  lemma {:induction false} WordsAreOneWrite(t: Table, m: Memory, a: int, words: seq<U32>, n: nat)
    requires n == 4 * |words|
    ensures WriteWords(t, m, a, words) == PutAll(m, LocationsAt(t, a, n), WordBytes(words))
    decreases |words|
  {
    if words == [] {
      assert LocationsAt(t, a, n) == [];
    } else {
      var head, rest := LocationsAt(t, a, 4), LocationsAt(t, a + 4, n - 4);
      var first := ToLittleEndian(words[0], 4);
      WordsAreOneWrite(t, PutAll(m, head, first), a + 4, words[1..], n - 4);
      LocationsAppend(t, a, 4, a + 4, n - 4);
      PutBoth(m, head, first, rest, WordBytes(words[1..]), LocationsAt(t, a, n), WordBytes(words));
    }
  }

  /** What was asked of the planner. */
  datatype Request = Words(address: nat, words: seq<U32>) | Other(step: Step)

  /** The times at which the steps other than inline writes are performed. */
  ghost function Stamps(h: seq<Executed>): seq<U64>
    decreases |h|
  {
    if h == [] then []
    else Stamps(h[..|h| - 1]) + if h[|h| - 1].step.InlineWrite? then [] else [h[|h| - 1].timestamp]
  }

  ghost function ApplyStep(device: Device, m: Memory, e: Executed): Memory {
    if Deliverable(e) then Apply(device, m, e) else m
  }

  /** Performs every request at once and in order, one write per word. Each step takes its time
      from `stamps`. */
  ghost function RunRequests(device: Device, t: Table, m: Memory, requests: seq<Request>, stamps: seq<U64>): Memory
    decreases |requests|
  {
    if requests == [] then m
    else
      var n, k := |requests| - 1, |stamps| - 1;
      match requests[n]
      case Words(address, words) => WriteWords(t, RunRequests(device, t, m, requests[..n], stamps), address, words)
      case Other(step) =>
        if stamps == [] then m
        else ApplyStep(device, RunRequests(device, t, m, requests[..n], stamps[..k]), Executed(step, false, stamps[k]))
  }

  lemma RunWords(
    device: Device, t: Table, m: Memory, requests: seq<Request>, stamps: seq<U64>, address: nat, words: seq<U32>)
    ensures RunRequests(device, t, m, requests + [Words(address, words)], stamps) ==
            WriteWords(t, RunRequests(device, t, m, requests, stamps), address, words)
  {
    assert (requests + [Words(address, words)])[..|requests|] == requests;
  }

  lemma RunOther(
    device: Device, t: Table, m: Memory, requests: seq<Request>, stamps: seq<U64>, step: Step, stamp: U64)
    ensures RunRequests(device, t, m, requests + [Other(step)], stamps + [stamp]) ==
            ApplyStep(device, RunRequests(device, t, m, requests, stamps), Executed(step, false, stamp))
  {
    assert (requests + [Other(step)])[..|requests|] == requests;
    assert (stamps + [stamp])[..|stamps|] == stamps;
  }

  /** An inline step of a plan: a resolved target and as many bytes. */
  ghost predicate InlineOk(s: Space, step: Step) {
    step.InlineWrite? ==> Resolves(s, step.target) && step.target.permissions == {Write} && step.target.size == |step.value|
  }

  /** The bytes of a step cover its target, whoever performs it and whenever. */
  ghost predicate Fits(step: Step) {
    forall owned: bool, stamp: U64 :: Deliverable(Executed(step, owned, stamp))
  }

  /** What execution demands of a step: resolved ranges, rights and sizes. */
  ghost predicate Ready(step: Step) {
    step.Valid() && step.Accepted() && Fits(step)
  }

  /** Performing the steps, at any time and by the CPU or the device, does what was requested. */
  ghost predicate Serves(t: Table, steps: seq<Step>, requests: seq<Request>, device: Device, m: Memory, h: seq<Executed>) {
    StepsOf(h) == steps ==> AllDeliverable(h) && RunMemory(device, m, h) == RunRequests(device, t, m, requests, Stamps(h))
  }

  ghost predicate StepsReady(s: Space, steps: seq<Step>) {
    forall i :: 0 <= i < |steps| ==> InlineOk(s, steps[i]) && Ready(steps[i])
  }

  ghost predicate PlanOk(s: Space, steps: seq<Step>, requests: seq<Request>) {
    StepsReady(s, steps) && forall device, m, h :: Serves(s.mappings, steps, requests, device, m, h)
  }

  lemma PlanStart(s: Space)
    ensures PlanOk(s, [], [])
  {
  }

  lemma InlineApply(s: Space, device: Device, m: Memory, e: Executed)
    requires TableOk(s.mappings) && e.step.InlineWrite? && InlineOk(s, e.step)
    ensures Deliverable(e)
    ensures Apply(device, m, e) ==
            PutAll(m, LocationsAt(s.mappings, e.step.target.offset, |e.step.value|), e.step.value)
  {
    hide Apply, Deliverable, ResolvedRange.Bytes, LocationAt, LocationsAt, PutAll;
    InlineIsOneWrite(device, m, e);
    ResolvedLocations(s, e.step.target);
  }

  /** The last entry of a history of `steps + [step]`. */
  lemma LastPerformed(h: seq<Executed>, steps: seq<Step>, step: Step) returns (before: seq<Executed>, e: Executed)
    requires StepsOf(h) == steps + [step]
    ensures h == before + [e] && StepsOf(before) == steps && e.step == step
    ensures Stamps(h) == Stamps(before) + if step.InlineWrite? then [] else [e.timestamp]
  {
    var n := |steps|;
    assert |h| == n + 1;
    before, e := h[..n], h[n];
    assert h[n].step == StepsOf(h)[n];
    assert StepsOf(before) == StepsOf(h)[..n] == steps;
  }

  lemma ServesNewWords(
    s: Space, steps: seq<Step>, requests: seq<Request>, step: Step, words: seq<U32>, device: Device, m: Memory,
    h: seq<Executed>)
    requires TableOk(s.mappings) && PlanOk(s, steps, requests)
    requires step.InlineWrite? && InlineOk(s, step) && step.value == WordBytes(words)
    ensures Serves(s.mappings, steps + [step], requests + [Words(step.target.offset, words)], device, m, h)
  {
    hide InlineOk, StepsReady, RunMemory, RunRequests, StepsOf, Stamps, Apply, Deliverable, WriteWords, WordBytes,
         TableOk;
    if StepsOf(h) == steps + [step] {
      var before, e := LastPerformed(h, steps, step);
      assert Serves(s.mappings, steps, requests, device, m, before);
      var now := RunMemory(device, m, before);
      InlineApply(s, device, now, e);
      RunStep(device, m, before, e);
      RunWords(device, s.mappings, m, requests, Stamps(h), step.target.offset, words);
      WordsAreOneWrite(s.mappings, now, step.target.offset, words, |step.value|);
      assert Stamps(before) + [] == Stamps(before);
    }
  }

  lemma PlanNewWords(s: Space, steps: seq<Step>, requests: seq<Request>, step: Step, words: seq<U32>)
    requires TableOk(s.mappings) && PlanOk(s, steps, requests)
    requires step.InlineWrite? && InlineOk(s, step) && Ready(step) && step.value == WordBytes(words)
    ensures PlanOk(s, steps + [step], requests + [Words(step.target.offset, words)])
  {
    hide TableOk, Serves, InlineOk, Ready;
    forall device, m, h
      ensures Serves(s.mappings, steps + [step], requests + [Words(step.target.offset, words)], device, m, h)
    {
      ServesNewWords(s, steps, requests, step, words, device, m, h);
    }
  }

  /** The longer write is the shorter one followed by a write per new word, whoever performs them. */
  lemma CoalescedWrite(
    s: Space, device: Device, before: Memory, last: Executed, address: nat, words: seq<U32>, longer: Executed)
    requires TableOk(s.mappings) && last.step.InlineWrite? && longer.step.InlineWrite?
    requires InlineOk(s, last.step) && InlineOk(s, longer.step)
    requires last.step.target.offset == longer.step.target.offset
    requires last.step.target.offset + last.step.target.size == address
    requires longer.step.value == last.step.value + WordBytes(words)
    ensures Deliverable(last) && Deliverable(longer)
    ensures Apply(device, before, longer) == WriteWords(s.mappings, Apply(device, before, last), address, words)
  {
    hide Resolves, Apply, Deliverable, LocationAt, PutAll, WriteWords, TableOk;
    var t, n, k, a := s.mappings, |last.step.value|, 4 * |words|, last.step.target.offset;
    InlineApply(s, device, before, last);
    InlineApply(s, device, before, longer);
    var head, tail := LocationsAt(t, a, n), LocationsAt(t, address, k);
    LocationsAppend(t, a, n, address, k);
    PutBoth(before, head, last.step.value, tail, WordBytes(words), LocationsAt(t, a, n + k), longer.step.value);
    WordsAreOneWrite(t, PutAll(before, head, last.step.value), address, words, k);
  }

  /** The last inline step of a plan, and the step that takes in more words. */
  ghost predicate Grows(s: Space, last: Step, address: nat, words: seq<U32>, longer: Step) {
    && last.InlineWrite?
    && longer.InlineWrite?
    && InlineOk(s, last)
    && InlineOk(s, longer)
    && last.target.offset == longer.target.offset
    && last.target.offset + last.target.size == address
    && longer.value == last.value + WordBytes(words)
  }

  lemma ServesMoreWords(
    s: Space, steps: seq<Step>, requests: seq<Request>, last: Step, address: nat, words: seq<U32>, longer: Step,
    device: Device, m: Memory, h: seq<Executed>)
    requires TableOk(s.mappings) && PlanOk(s, steps + [last], requests) && Grows(s, last, address, words, longer)
    ensures Serves(s.mappings, steps + [longer], requests + [Words(address, words)], device, m, h)
  {
    hide InlineOk, StepsReady, RunMemory, RunRequests, Stamps, Apply, Deliverable, WriteWords, WordBytes, TableOk;
    if StepsOf(h) == steps + [longer] {
      var before, e := LastPerformed(h, steps, longer);
      var shorter := e.(step := last);
      var was := before + [shorter];
      assert StepsOf(was) == steps + [last];
      assert Serves(s.mappings, steps + [last], requests, device, m, was);
      var again, same := LastPerformed(was, steps, last);
      assert again == was[..|steps|] == before;
      CoalescedWrite(s, device, RunMemory(device, m, before), shorter, address, words, e);
      RunStep(device, m, before, shorter);
      RunStep(device, m, before, e);
      RunWords(device, s.mappings, m, requests, Stamps(h), address, words);
    }
  }

  lemma PlanMoreWords(
    s: Space, steps: seq<Step>, requests: seq<Request>, last: Step, address: nat, words: seq<U32>, longer: Step)
    requires TableOk(s.mappings) && PlanOk(s, steps + [last], requests) && last.InlineWrite?
    requires Appendable(last.target, address, 4 * |words|)
    requires longer == InlineWrite(Appended(last.target, 4 * |words|), last.value + WordBytes(words))
    ensures PlanOk(s, steps + [longer], requests + [Words(address, words)])
  {
    assert (steps + [last])[|steps|] == last;
    assert InlineOk(s, last);
    AppendedIsResolved(s, last.target, address, 4 * |words|);
    assert InlineOk(s, longer);
    AppendedIsReady(s, last, 4 * |words|, WordBytes(words));
    hide TableOk, Serves, InlineOk, Ready, Resolves;
    forall device, m, h
      ensures Serves(s.mappings, steps + [longer], requests + [Words(address, words)], device, m, h)
    {
      ServesMoreWords(s, steps, requests, last, address, words, longer, device, m, h);
    }
    StepsReadyPrefix(s, steps, last, longer);
  }

  lemma StepsReadyPrefix(s: Space, steps: seq<Step>, last: Step, other: Step)
    requires StepsReady(s, steps + [last]) && InlineOk(s, other) && Ready(other)
    ensures StepsReady(s, steps + [other])
  {
    hide InlineOk, Ready;
    forall i | 0 <= i < |steps| ensures InlineOk(s, steps[i]) && Ready(steps[i]) {
      assert (steps + [last])[i] == steps[i];
    }
  }

  // ----- what execution demands of an inline step -----

  /** Canonical backings never leave a page, which their construction guarantees. */
  ghost predicate TableInPages(t: Table) {
    forall k :: k in t ==> InPages(t[k].backing.segments)
  }

  lemma ResolvedIsUsable(s: Space, range: ResolvedRange)
    requires TableOk(s.mappings) && TableInPages(s.mappings) && Resolves(s, range)
    ensures RangeAccess.Usable(range)
  {
    forall i | 0 <= i < |range.segments| ensures InPages(range.segments[i].mapping.backing.segments) {
      assert SegmentOk(s.mappings, range.segments[i], range.offset + range.size, range.permissions);
    }
  }

  lemma InlineIsReady(s: Space, step: Step)
    requires TableOk(s.mappings) && step.InlineWrite? && InlineOk(s, step) && RangeAccess.Usable(step.target)
    ensures Ready(step)
  {
    ResolvedGrants(s, step.target, Write);
    assert step.Accepted();
    hide Resolves, RangeAccess.Usable, Granted, TableOk;
    assert step.target.WellFormed();
    forall owned: bool, stamp: U64 ensures Deliverable(Executed(step, owned, stamp)) {
      InlineFits(Executed(step, owned, stamp));
    }
  }

  lemma AppendedIsReady(s: Space, last: Step, size: nat, more: seq<U8>)
    requires TableOk(s.mappings) && last.InlineWrite? && last.Valid() && |last.target.segments| == 1
    requires InlineOk(s, InlineWrite(Appended(last.target, size), last.value + more))
    ensures Ready(InlineWrite(Appended(last.target, size), last.value + more))
  {
    var longer := InlineWrite(Appended(last.target, size), last.value + more);
    assert RangeAccess.Usable(longer.target) by {
      assert last.target.segments[0].mapping == longer.target.segments[0].mapping;
    }
    InlineIsReady(s, longer);
  }

  lemma NotInlineIsNotOwned(device: Device, m: Memory, e: Executed)
    requires Deliverable(e) && !e.step.InlineWrite?
    ensures Apply(device, m, e) == ApplyStep(device, m, Executed(e.step, false, e.timestamp))
  {
    hide Perform, DeviceWrites, PutAll;
  }

  lemma ServesOther(
    s: Space, steps: seq<Step>, requests: seq<Request>, step: Step, device: Device, m: Memory, h: seq<Executed>)
    requires PlanOk(s, steps, requests) && !step.InlineWrite? && Fits(step)
    ensures Serves(s.mappings, steps + [step], requests + [Other(step)], device, m, h)
  {
    hide InlineOk, StepsReady, RunMemory, RunRequests, StepsOf, Stamps, Apply, Deliverable, ApplyStep;
    if StepsOf(h) == steps + [step] {
      var before, e := LastPerformed(h, steps, step);
      assert Serves(s.mappings, steps, requests, device, m, before);
      assert Deliverable(Executed(step, e.deviceOwned, e.timestamp));
      RunStep(device, m, before, e);
      NotInlineIsNotOwned(device, RunMemory(device, m, before), e);
      RunOther(device, s.mappings, m, requests, Stamps(before), step, e.timestamp);
    }
  }

  lemma PlanOther(s: Space, steps: seq<Step>, requests: seq<Request>, step: Step)
    requires PlanOk(s, steps, requests) && !step.InlineWrite? && Ready(step)
    ensures PlanOk(s, steps + [step], requests + [Other(step)])
  {
    assert InlineOk(s, step) && Fits(step);
    hide Serves, InlineOk, Ready, Fits;
    forall device, m, h ensures Serves(s.mappings, steps + [step], requests + [Other(step)], device, m, h) {
      ServesOther(s, steps, requests, step, device, m, h);
    }
  }

  lemma AppendableBelow(s: Space, steps: seq<Step>, address: nat, size: nat)
    requires StepsReady(s, steps) && steps != [] && steps[|steps| - 1].InlineWrite?
    requires Appendable(steps[|steps| - 1].target, address, size)
    ensures address <= ADDRESS_LIMIT
  {
    hide Ready;
    assert InlineOk(s, steps[|steps| - 1]);
  }

  class MaxwellSubmissionPlanner {
    const space: MaxwellGpuAddressSpace
    var steps: seq<Step>
    var inlinePending: bool
    ghost var requests: seq<Request>

    /** The plan does what the requests since the last hand-over ask, word by word. */
    ghost predicate Valid()
      reads this, space
    {
      space.View().Valid() && TableInPages(space.mappings) && PlanOk(space.View(), steps, requests)
    }

    constructor (space: MaxwellGpuAddressSpace)
      requires space.View().Valid() && TableInPages(space.mappings)
      ensures Valid() && this.space == space && steps == [] && requests == []
    {
      this.space := space;
      steps, inlinePending, requests := [], false, [];
      PlanStart(space.View());
    }

    /** Whether a run of words continues the last inline write. */
    predicate Continues(address: nat, size: nat)
      reads this
    {
      && steps != []
      && steps[|steps| - 1].InlineWrite?
      && Appendable(steps[|steps| - 1].target, address, size)
    }

    method Extend(address: nat, words: seq<U32>)
      requires Valid() && Continues(address, 4 * |words|)
      modifies this
      ensures Valid() && |steps| == |old(steps)| && steps[..|steps| - 1] == old(steps[..|steps| - 1])
      ensures requests == old(requests) + [Words(address, words)]
    {
      assert TableOk(space.mappings);
      hide TableOk, Space.Valid, TableInPages, PlanOk, WordBytes;
      var n := |steps| - 1;
      var last := steps[n];
      var longer := InlineWrite(Appended(last.target, 4 * |words|), last.value + WordBytes(words));
      assert steps[..n] + [last] == steps;
      PlanMoreWords(space.View(), steps[..n], requests, last, address, words, longer);
      steps := steps[..n] + [longer];
      requests := requests + [Words(address, words)];
      inlinePending := true;
    }

    method PushResolved(address: Address, words: seq<U32>) returns (r: Result<(), PlanError>)
      requires Valid() && 4 * |words| < U64_LIMIT
      modifies this
      ensures Valid()
      ensures r.Ok? <==> Resolvable(space.View(), address, 4 * |words|, {Write})
      ensures r.Ok? ==> |steps| == |old(steps)| + 1 && steps[..|old(steps)|] == old(steps)
      ensures r.Ok? ==> requests == old(requests) + [Words(address, words)]
      ensures r.Err? ==> steps == old(steps) && requests == old(requests)
    {
      inlinePending := false;
      var target := space.ResolveRange(address, 4 * |words|, {Write});
      if target.Err? { return Err(InlineAddress(target.error)); }
      var step := InlineWrite(target.value, WordBytes(words));
      ResolvedIsUsable(space.View(), target.value);
      InlineIsReady(space.View(), step);
      PlanNewWords(space.View(), steps, requests, step, words);
      steps := steps + [step];
      requests := requests + [Words(address, words)];
      inlinePending := true;
      r := Ok(());
    }

    /** Adds a run of words. */
    method PushInlineWords(base: U64, offset: U32, words: seq<U32>) returns (r: Result<(), PlanError>)
      requires Valid() && 4 * |words| < U64_LIMIT
      modifies this
      ensures Valid()
      ensures r.Ok? <==> old(Continues(base + offset, 4 * |words|)) ||
                         (base + offset < ADDRESS_LIMIT && Resolvable(space.View(), base + offset, 4 * |words|, {Write}))
      ensures r.Ok? ==> requests == old(requests) + [Words(base + offset, words)]
      ensures r.Ok? ==> |steps| == |old(steps)| + if old(Continues(base + offset, 4 * |words|)) then 0 else 1
      ensures r.Err? ==> steps == old(steps) && requests == old(requests)
    {
      hide StepsReady, Serves, TableInPages, Space.Valid, Resolvable;
      if Continues(base + offset, 4 * |words|) {
        AppendableBelow(space.View(), steps, base + offset, 4 * |words|);
      }
      if U64_LIMIT <= base + offset { return Err(AddressOverflow); }
      if Continues(base + offset, 4 * |words|) {
        Extend(base + offset, words);
        return Ok(());
      }
      inlinePending := false;
      if ADDRESS_LIMIT <= base + offset { return Err(InlineAddress(AddressOutOfRange)); }
      r := PushResolved(base + offset, words);
    }

    /** Adds one word. */
    method PushInlineWrite(base: U64, offset: U32, word: U32) returns (r: Result<(), PlanError>)
      requires Valid()
      modifies this
      ensures Valid()
      ensures r.Ok? <==> old(Continues(base + offset, 4)) ||
                         (base + offset < ADDRESS_LIMIT && Resolvable(space.View(), base + offset, 4, {Write}))
      ensures r.Ok? ==> requests == old(requests) + [Words(base + offset, [word])]
      ensures r.Ok? ==> |steps| == |old(steps)| + if old(Continues(base + offset, 4)) then 0 else 1
      ensures r.Err? ==> steps == old(steps) && requests == old(requests)
    {
      hide PlanOk, TableInPages, Space.Valid, Resolvable;
      if Continues(base + offset, 4) {
        Extend(base + offset, [word]);
        return Ok(());
      }
      inlinePending := false;
      if ADDRESS_LIMIT <= base || ADDRESS_LIMIT <= base + offset { return Err(InlineAddress(AddressOutOfRange)); }
      r := PushResolved(base + offset, [word]);
    }

    /** Adds a step that is not an inline write. */
    method PushStep(step: Step)
      requires Valid() && !step.InlineWrite? && Ready(step)
      modifies this`steps, this`requests
      ensures Valid() && steps == old(steps) + [step] && requests == old(requests) + [Other(step)]
    {
      PlanOther(space.View(), steps, requests, step);
      steps := steps + [step];
      requests := requests + [Other(step)];
    }

    /** Hands over the planned steps unless an upload may still grow. */
    method TakeReadySteps() returns (ready: seq<Step>)
      requires Valid()
      modifies this`steps, this`requests
      ensures Valid()
      ensures inlinePending ==> ready == [] && steps == old(steps) && requests == old(requests)
      ensures !inlinePending ==> ready == old(steps) && steps == [] && requests == []
      ensures !inlinePending ==> PlanOk(space.View(), ready, old(requests))
    {
      hide PlanOk, TableInPages, Space.Valid;
      PlanStart(space.View());
      if inlinePending || steps == [] {
        ready := [];
        if !inlinePending { requests := []; }
      } else {
        ready, steps, requests := steps, [], [];
      }
    }

    /** Ends a packet: no later word joins its uploads. The steps are ready for execution and do
        what the requests of the packet ask. */
    method FinishPacket() returns (ready: seq<Step>)
      requires Valid()
      modifies this
      ensures Valid() && ready == old(steps) && steps == [] && requests == []
      ensures PlanOk(space.View(), ready, old(requests))
    {
      inlinePending := false;
      ready := TakeReadySteps();
    }
  }
}
