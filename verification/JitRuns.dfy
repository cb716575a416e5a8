/** Whole runs of one JIT core: memory changes, compilations and synchronisations in any order. */
module JitRuns {
  import opened Canonical
  import opened Coherence
  import opened Control
  import opened InvalidationLog
  import opened JitInvalidation

  datatype Core = Core(log: seq<Kind>, worlds: seq<World>, cursor: nat, acknowledged: nat, blocks: set<Block>) {
    function Now(): World
      requires worlds != []
    {
      worlds[|worlds| - 1]
    }
  }

  /** What can happen: memory changes and logs it, a block is compiled from memory as it is, the
      cache follows the log and acknowledges it, or a synchronisation is refused part way. */
  datatype Event =
    | Change(kind: Kind, world: World)
    | Compile(block: Block)
    | Synchronized(kept: set<Block>)
    | Refused(kept: set<Block>)

  ghost predicate Possible(space: nat, s: Core, e: Event) {
    && s.worlds != []
    && match e
       case Change(kind, world) => Explains(space, kind, s.Now(), world)
       case Compile(block) => block.born == |s.log| && block.CompiledFrom(s.Now())
       case Synchronized(kept) => Synchronizes(space, s.log, s.Now(), s.cursor, s.blocks, kept)
       case Refused(kept) => kept <= s.blocks
  }

  function After(s: Core, e: Event): Core {
    match e
    case Change(kind, world) => s.(log := s.log + [kind], worlds := s.worlds + [world])
    case Compile(block) => s.(blocks := s.blocks + {block})
    case Synchronized(kept) =>
      s.(blocks := kept, cursor := |s.log|, acknowledged := Max(s.acknowledged, |s.log|))
    case Refused(kept) => s.(blocks := kept)
  }

  ghost predicate Sound(space: nat, s: Core) {
    && Cached(space, s.log, s.worlds, s.blocks, s.cursor)
    && s.acknowledged <= s.cursor
  }

  lemma TimelineGrows(space: nat, log: seq<Kind>, worlds: seq<World>, kind: Kind, world: World)
    requires Timeline(space, log, worlds) && Explains(space, kind, worlds[|log|], world)
    ensures Timeline(space, log + [kind], worlds + [world])
  {
    var log', worlds' := log + [kind], worlds + [world];
    forall i, j | 0 <= i < |log'| && j == i + 1 ensures Explains(space, log'[i], worlds'[i], worlds'[j]) {
      if i < |log| {
        assert log'[i] == log[i] && worlds'[i] == worlds[i] && worlds'[j] == worlds[j];
      }
    }
  }

  lemma SoundChange(space: nat, s: Core, kind: Kind, world: World)
    requires Sound(space, s) && Explains(space, kind, s.Now(), world)
    ensures Sound(space, After(s, Change(kind, world)))
  {
    TimelineGrows(space, s.log, s.worlds, kind, world);
    var s' := After(s, Change(kind, world));
    forall b | b in s'.blocks
      ensures b.born <= |s'.log| && b.CompiledFrom(s'.worlds[b.born]) && Unaffected(space, s'.log, b, s'.cursor)
    {
      assert s'.worlds[b.born] == s.worlds[b.born];
      forall i | b.born <= i < s.cursor ensures !Affects(space, s'.log[i], b) {
        assert s'.log[i] == s.log[i];
      }
    }
  }

  lemma SoundSynchronized(space: nat, s: Core, kept: set<Block>, ranges: set<Range>)
    requires Sound(space, s) && Synchronizes(space, s.log, s.Now(), s.cursor, s.blocks, kept)
    requires DroppedRanges(space, s.log[s.cursor..], s.Now().mapping, ranges)
    ensures Sound(space, After(s, Synchronized(kept)))
  {
    if kept != {} {
      CachedSynchronized(space, s.log, s.worlds, s.blocks, kept, s.cursor, ranges);
    }
  }

  /** There are always ranges that the records ask for. */
  lemma RangesExist(space: nat, records: seq<Kind>, mapping: map<nat, nat>) returns (ranges: set<Range>)
    ensures DroppedRanges(space, records, mapping, ranges)
  {
    var changed := set i | 0 <= i < |records| && records[i].MappingChange? && records[i].space == space
                           :: Range(records[i].start, records[i].size);
    var aliases := set page | page in mapping && ChangedPage(records, mapping[page]) :: Range(4096 * page, 4096);
    ranges := changed + aliases;
    forall r | ChangedRange(space, records, r) ensures r in changed {
      var i :| 0 <= i < |records| && records[i] == MappingChange(space, r.start, r.size);
      assert Range(records[i].start, records[i].size) == r;
    }
  }

  lemma SoundStep(space: nat, s: Core, e: Event)
    requires Sound(space, s) && Possible(space, s, e)
    ensures Sound(space, After(s, e))
  {
    match e
    case Change(kind, world) => SoundChange(space, s, kind, world);
    case Compile(block) =>
    case Synchronized(kept) =>
      var ranges := RangesExist(space, s.log[s.cursor..], s.Now().mapping);
      SoundSynchronized(space, s, kept, ranges);
    case Refused(kept) => CachedSubset(space, s.log, s.worlds, s.blocks, kept, s.cursor);
  }

  ghost predicate Run(space: nat, s: Core, events: seq<Event>)
    decreases |events|
  {
    events == [] || (Possible(space, s, events[0]) && Run(space, After(s, events[0]), events[1..]))
  }

  function End(s: Core, events: seq<Event>): Core
    decreases |events|
  {
    if events == [] then s else End(After(s, events[0]), events[1..])
  }

  lemma {:induction false} SoundRun(space: nat, s: Core, events: seq<Event>)
    requires Sound(space, s) && Run(space, s, events)
    ensures Sound(space, End(s, events))
    decreases |events|
  {
    if events != [] {
      SoundStep(space, s, events[0]);
      SoundRun(space, After(s, events[0]), events[1..]);
    }
  }

  /** A core that starts with an empty cache at the end of the log. */
  function Fresh(log: seq<Kind>, worlds: seq<World>): Core {
    Core(log, worlds, |log|, 0, {})
  }

  /** In every run, an acknowledged epoch means that no cached block is concerned by any record up
      to it; and once the whole log is acknowledged every cached block is what memory holds. */
  lemma AcknowledgedMeansCoherent(
    space: nat, log: seq<Kind>, worlds: seq<World>, events: seq<Event>, epoch: nat, b: Block)
    requires Timeline(space, log, worlds) && Run(space, Fresh(log, worlds), events)
    ensures var s := End(Fresh(log, worlds), events);
      epoch <= s.acknowledged && b in s.blocks ==>
        && Unaffected(space, s.log, b, epoch)
        && (epoch == |s.log| ==> s.worlds != [] && b.CompiledFrom(s.Now()))
  {
    SoundRun(space, Fresh(log, worlds), events);
    var s := End(Fresh(log, worlds), events);
    if epoch <= s.acknowledged && b in s.blocks && epoch == |s.log| {
      UnaffectedIsCoherent(space, s.log, s.worlds, b, epoch);
    }
  }

  /** Synchronises and then acknowledges the cursor, as a run allows. */
  method SynchronizeAddressSpace(
    invalidations: Invalidations, control: CpuControl, log: MemoryInvalidationLog, native: NativeCache,
    space: nat, mapping: map<nat, nat>, ghost s: Core)
    returns (ok: bool, ghost e: Event)
    requires log.Valid() && control.Valid() && Sound(space, s) && mapping == s.Now().mapping
    requires s == Core(log.published, s.worlds, invalidations.cursor, control.acknowledgedEpoch, native.blocks)
    modifies invalidations, control, native
    ensures control.Valid() && Possible(space, s, e) && (if ok then e.Synchronized? else e.Refused?)
    ensures After(s, e) ==
            Core(log.published, s.worlds, invalidations.cursor, control.acknowledgedEpoch, native.blocks)
  {
    ok := invalidations.Synchronize(log, native, space, mapping, s.worlds);
    if ok {
      control.AcknowledgeInvalidation(invalidations.cursor);
      e := Synchronized(native.blocks);
    } else {
      e := Refused(native.blocks);
    }
  }
}
