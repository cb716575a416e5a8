/** The code-cache invalidator: it follows the memory log, drops what the log concerns and
    acknowledges no record before the native cache has accepted it. */
module JitInvalidation {
  import opened Canonical
  import opened Coherence
  import opened InvalidationLog

  /** The native code cache. */
  class NativeCache {
    var blocks: set<Block>
    ghost var refusals: nat

    constructor ()
      ensures blocks == {} && refusals == 0
    {
      blocks, refusals := {}, 0;
    }

    /** Drops the blocks that a range touches, or all of them for size zero. The native side may
        refuse. */
    method Invalidate(start: nat, size: nat) returns (accepted: bool)
      modifies this
      ensures blocks <= old(blocks)
      ensures accepted ==> blocks == set b | b in old(blocks) && !Hits(Range(start, size), b)
      ensures refusals == old(refusals) + if accepted then 0 else 1
    {
      accepted := *;
      if accepted {
        blocks := set b | b in blocks && !Hits(Range(start, size), b);
      } else {
        refusals := refusals + 1;
      }
    }
  }

  lemma ChangedRangeStep(space: nat, records: seq<Kind>, i: nat, j: nat, r: Range)
    requires i < |records| && j == i + 1
    ensures ChangedRange(space, records[..j], r) <==>
            ChangedRange(space, records[..i], r) || records[i] == MappingChange(space, r.start, r.size)
  {
    assert records[..j] == records[..i] + [records[i]];
  }

  lemma ChangedPageStep(records: seq<Kind>, i: nat, j: nat, q: nat)
    requires i < |records| && j == i + 1
    ensures ChangedPage(records[..j], q) <==>
            ChangedPage(records[..i], q) ||
            (records[i].ExecutableContent? && (records[i].first == q || records[i].second == Some(q)))
  {
    var long, short := records[..j], records[..i];
    if ChangedPage(short, q) {
      var k :| 0 <= k < |short| && short[k].ExecutableContent? && (short[k].first == q || short[k].second == Some(q));
      assert long[k] == short[k];
    }
    assert long[i] == records[i];
  }

  lemma FlushStep(space: nat, records: seq<Kind>, i: nat, j: nat)
    requires i < |records| && j == i + 1
    ensures FlushesAll(space, records[..j]) <==> FlushesAll(space, records[..i]) || records[i] == InstructionCache(space)
  {
    var long, short := records[..j], records[..i];
    if FlushesAll(space, short) {
      var k :| 0 <= k < |short| && short[k] == InstructionCache(space);
      assert long[k] == short[k];
    }
    assert long[i] == records[i];
  }

  /** What the records read so far ask for. */
  ghost predicate Gathered(space: nat, records: seq<Kind>, ranges: set<Range>, physical: set<nat>) {
    && (forall r :: r in ranges <==> ChangedRange(space, records, r))
    && (forall q: nat :: q in physical <==> ChangedPage(records, q))
    && !FlushesAll(space, records)
  }

  /** Reads the records into ranges and physical pages, unless one asks for everything. */
  method Gather(space: nat, records: seq<Kind>) returns (flush: bool, ranges: set<Range>, physical: set<nat>)
    ensures flush <==> FlushesAll(space, records)
    ensures !flush ==> Gathered(space, records, ranges, physical)
  {
    ranges, physical := {}, {};
    for i := 0 to |records|
      invariant Gathered(space, records[..i], ranges, physical)
    {
      ghost var j := i + 1;
      FlushStep(space, records, i, j);
      forall r ensures ChangedRange(space, records[..j], r) <==>
                       ChangedRange(space, records[..i], r) || records[i] == MappingChange(space, r.start, r.size)
      {
        ChangedRangeStep(space, records, i, j, r);
      }
      forall q: nat
        ensures ChangedPage(records[..j], q) <==>
                ChangedPage(records[..i], q) ||
                (records[i].ExecutableContent? && (records[i].first == q || records[i].second == Some(q)))
      {
        ChangedPageStep(records, i, j, q);
      }
      match records[i]
      case MappingChange(changed, start, size) =>
        if changed == space { ranges := ranges + {Range(start, size)}; }
      case InstructionCache(changed) =>
        if changed == space {
          assert records[i] == InstructionCache(space);
          return true, ranges, physical;
        }
      case ExecutableContent(first, second) =>
        physical := physical + {first} + if second.Some? then {second.value} else {};
    }
    assert records[..|records|] == records;
    flush := false;
  }

  /** Adds the pages that map the given physical pages now. */
  method AppendMappedAliasRanges(mapping: map<nat, nat>, physical: set<nat>, ranges: set<Range>) returns (all: set<Range>)
    ensures forall r :: r in all <==> r in ranges || AliasOf(mapping, physical, r)
  {
    all := ranges;
    var rest := physical;
    while rest != {}
      invariant rest <= physical
      invariant forall r :: r in all <==> r in ranges || AliasOf(mapping, physical - rest, r)
      decreases rest
    {
      var q :| q in rest;
      all := all + set page | page in mapping && mapping[page] == q :: Range(4096 * page, 4096);
      rest := rest - {q};
    }
    assert physical - rest == physical;
  }

  ghost predicate AliasOf(mapping: map<nat, nat>, physical: set<nat>, r: Range) {
    exists page: nat :: page in mapping && mapping[page] in physical && r == Range(4096 * page, 4096)
  }

  lemma GatheredRanges(
    space: nat, records: seq<Kind>, mapping: map<nat, nat>, ranges: set<Range>, physical: set<nat>, all: set<Range>)
    requires Gathered(space, records, ranges, physical)
    requires forall r :: r in all <==> r in ranges || AliasOf(mapping, physical, r)
    ensures DroppedRanges(space, records, mapping, all)
  {
    forall page: nat | page in mapping && ChangedPage(records, mapping[page]) ensures Range(4096 * page, 4096) in all {
      assert AliasOf(mapping, physical, Range(4096 * page, 4096));
    }
  }

  /** Every cached block was compiled from what memory held, and no record up to the cursor
      concerns it. */
  ghost predicate Cached(space: nat, log: seq<Kind>, worlds: seq<World>, blocks: set<Block>, cursor: nat) {
    && Timeline(space, log, worlds)
    && cursor <= |log|
    && forall b :: b in blocks ==>
      && b.born <= |log|
      && b.CompiledFrom(worlds[b.born])
      && Unaffected(space, log, b, cursor)
  }

  lemma CachedSubset(space: nat, log: seq<Kind>, worlds: seq<World>, blocks: set<Block>, fewer: set<Block>, cursor: nat)
    requires Cached(space, log, worlds, blocks, cursor) && fewer <= blocks
    ensures Cached(space, log, worlds, fewer, cursor)
  {
  }

  lemma CachedSynchronized(
    space: nat, log: seq<Kind>, worlds: seq<World>, blocks: set<Block>, kept: set<Block>, cursor: nat, ranges: set<Range>)
    requires Cached(space, log, worlds, blocks, cursor) && !FlushesAll(space, log[cursor..])
    requires DroppedRanges(space, log[cursor..], worlds[|log|].mapping, ranges)
    requires forall b :: b in kept ==> b in blocks && Survives(b, ranges)
    ensures Cached(space, log, worlds, kept, |log|)
  {
    forall b | b in kept ensures Unaffected(space, log, b, |log|) {
      SurvivorIsUnaffected(space, log, worlds, b, cursor, ranges);
    }
  }

  /** Blocks that the records do not concern are kept. */
  ghost predicate KeepsRest(
    space: nat, records: seq<Kind>, mapping: map<nat, nat>, blocks: set<Block>, kept: set<Block>)
  {
    forall ranges :: DroppedRanges(space, records, mapping, ranges) ==>
      kept == set b | b in blocks && Survives(b, ranges)
  }

  /** The cache after following the log from `cursor` to its end: emptied when records are lost
      or instruction caches were flushed, and otherwise rid of exactly what the records concern. */
  ghost predicate Synchronizes(
    space: nat, log: seq<Kind>, now: World, cursor: nat, blocks: set<Block>, kept: set<Block>)
  {
    && cursor <= |log|
    && if CAPACITY < |log| - cursor || FlushesAll(space, log[cursor..]) then kept == {}
       else KeepsRest(space, log[cursor..], now.mapping, blocks, kept)
  }

  lemma DroppedAreKnown(
    space: nat, records: seq<Kind>, mapping: map<nat, nat>, blocks: set<Block>, kept: set<Block>, ranges: set<Range>)
    requires DroppedRanges(space, records, mapping, ranges) && kept == set b | b in blocks && Survives(b, ranges)
    ensures KeepsRest(space, records, mapping, blocks, kept)
  {
    forall other | DroppedRanges(space, records, mapping, other) ensures other == ranges {
      forall r ensures r in other <==> r in ranges {
      }
    }
  }

  lemma NothingDropped(space: nat, mapping: map<nat, nat>, blocks: set<Block>)
    ensures KeepsRest(space, [], mapping, blocks, blocks)
  {
    DroppedAreKnown(space, [], mapping, blocks, blocks, {});
  }

  /** After a successful synchronisation a cached block is the code that memory holds now. */
  lemma SynchronizedIsCoherent(space: nat, log: seq<Kind>, worlds: seq<World>, blocks: set<Block>, b: Block)
    requires Cached(space, log, worlds, blocks, |log|) && b in blocks
    ensures b.CompiledFrom(worlds[|log|])
  {
    UnaffectedIsCoherent(space, log, worlds, b, |log|);
  }

  class Invalidations {
    var cursor: U64

    constructor (cursor: U64)
      ensures this.cursor == cursor
    {
      this.cursor := cursor;
    }

    method DropRanges(native: NativeCache, ranges: set<Range>) returns (accepted: bool)
      modifies native
      ensures native.blocks <= old(native.blocks)
      ensures accepted ==> native.blocks == set b | b in old(native.blocks) && Survives(b, ranges)
      ensures !accepted ==> native.refusals > old(native.refusals)
    {
      var rest := ranges;
      while rest != {}
        invariant rest <= ranges
        invariant native.blocks == set b | b in old(native.blocks) && Survives(b, ranges - rest)
        invariant native.refusals >= old(native.refusals)
        decreases rest
      {
        var r :| r in rest;
        accepted := native.Invalidate(r.start, r.size);
        if !accepted { return; }
        assert ranges - (rest - {r}) == ranges - rest + {r};
        rest := rest - {r};
      }
      assert ranges - rest == ranges;
      accepted := true;
    }

    /** Brings the cache up to the end of the log. `mapping` is the address space while it cannot
        change. A refusal leaves the cursor where it was. */
    method Synchronize(
      log: MemoryInvalidationLog, native: NativeCache, space: nat, mapping: map<nat, nat>, ghost worlds: seq<World>)
      returns (ok: bool)
      requires log.Valid() && Cached(space, log.published, worlds, native.blocks, cursor)
      requires mapping == worlds[|log.published|].mapping
      modifies this, native
      ensures native.blocks <= old(native.blocks)
      ensures Cached(space, log.published, worlds, native.blocks, cursor)
      ensures cursor == if ok then log.latest else old(cursor)
      ensures !ok ==> native.refusals > old(native.refusals)
      ensures ok ==>
        Synchronizes(space, log.published, worlds[|log.published|], old(cursor), old(native.blocks), native.blocks)
    {
      ghost var blocks := native.blocks;
      var read := log.ReadSince(cursor);
      if read.Err? {
        assert read.error.HistoryLost?;
        ok := native.Invalidate(0, 0);
        if ok { cursor := log.latest; }
        CachedSubset(space, log.published, worlds, blocks, native.blocks, old(cursor));
        return;
      }
      if read.value == [] {
        cursor := log.latest;
        NothingDropped(space, mapping, blocks);
        return true;
      }
      var flush, ranges, physical := Gather(space, read.value);
      if flush {
        ok := native.Invalidate(0, 0);
        if ok { cursor := log.latest; }
        CachedSubset(space, log.published, worlds, blocks, native.blocks, old(cursor));
        return;
      }
      var all := AppendMappedAliasRanges(mapping, physical, ranges);
      GatheredRanges(space, read.value, mapping, ranges, physical, all);
      ok := DropRanges(native, all);
      if ok {
        cursor := log.latest;
        CachedSynchronized(space, log.published, worlds, blocks, native.blocks, old(cursor), all);
        DroppedAreKnown(space, read.value, mapping, blocks, native.blocks, all);
      } else {
        CachedSubset(space, log.published, worlds, blocks, native.blocks, old(cursor));
      }
    }
  }
}
