/** Cached code against a changing memory: what the log says about a compiled block, and why a
    block that survives synchronisation is not stale. */
module Coherence {
  import opened Canonical
  import opened InvalidationLog

  /** Virtual to physical pages of one address space, and the contents of physical pages. */
  datatype World = World(mapping: map<nat, nat>, content: map<nat, nat>)

  function Translation(w: World, page: nat): Option<nat> {
    if page in w.mapping then Some(w.mapping[page]) else None
  }

  function Content(w: World, physical: nat): Option<nat> {
    if physical in w.content then Some(w.content[physical]) else None
  }

  datatype Seen = Seen(physical: nat, content: nat)

  /** Code compiled from guest bytes `start..end` when the log was `born` records long, with
      what was found on each of its pages. */
  datatype Block = Block(start: nat, end: nat, born: nat, seen: map<nat, Seen>) {
    predicate OnPage(page: nat) {
      4096 * page < end && start < 4096 * page + 4096
    }

    ghost predicate CompiledFrom(w: World) {
      && start < end
      && forall page: nat :: OnPage(page) ==>
        && page in seen
        && Translation(w, page) == Some(seen[page].physical)
        && Content(w, seen[page].physical) == Some(seen[page].content)
    }
  }

  /** A record accounts for the change from `w` to `w'`. */
  ghost predicate Explains(space: nat, kind: Kind, w: World, w': World) {
    match kind
    case MappingChange(changed, start, size) =>
      && w'.content == w.content
      && forall page: nat :: Translation(w, page) != Translation(w', page) ==>
        changed == space && start <= 4096 * page && 4096 * page + 4096 <= start + size
    case ExecutableContent(first, second) =>
      && w'.mapping == w.mapping
      && forall physical: nat :: physical != first && second != Some(physical) ==>
        Content(w, physical) == Content(w', physical)
    case InstructionCache(_) => w' == w
  }

  /** Every change of memory was logged. */
  ghost predicate Timeline(space: nat, log: seq<Kind>, worlds: seq<World>) {
    && |worlds| == |log| + 1
    && forall i, j :: 0 <= i < |log| && j == i + 1 ==> Explains(space, log[i], worlds[i], worlds[j])
  }

  /** The record concerns the block. */
  ghost predicate Affects(space: nat, kind: Kind, b: Block) {
    match kind
    case MappingChange(changed, start, size) => changed == space && start < b.end && b.start < start + size
    case ExecutableContent(first, second) =>
      exists page: nat :: b.OnPage(page) && page in b.seen
                          && (b.seen[page].physical == first || second == Some(b.seen[page].physical))
    case InstructionCache(changed) => changed == space
  }

  /** No record between the block's compilation and position `upTo` concerns it. */
  ghost predicate Unaffected(space: nat, log: seq<Kind>, b: Block, upTo: nat) {
    forall i :: b.born <= i < upTo && i < |log| ==> !Affects(space, log[i], b)
  }

  lemma UnaffectedStep(space: nat, kind: Kind, w: World, w': World, b: Block)
    requires Explains(space, kind, w, w') && b.CompiledFrom(w) && !Affects(space, kind, b)
    ensures b.CompiledFrom(w')
  {
  }

  /** An unaffected block is the code that memory holds now. */
  lemma {:induction false} UnaffectedIsCoherent(space: nat, log: seq<Kind>, worlds: seq<World>, b: Block, upTo: nat)
    requires Timeline(space, log, worlds) && b.born <= upTo <= |log|
    requires b.CompiledFrom(worlds[b.born]) && Unaffected(space, log, b, upTo)
    ensures b.CompiledFrom(worlds[upTo])
    decreases upTo
  {
    if b.born < upTo {
      UnaffectedIsCoherent(space, log, worlds, b, upTo - 1);
      UnaffectedStep(space, log[upTo - 1], worlds[upTo - 1], worlds[upTo], b);
    }
  }

  // ----- what synchronisation drops -----

  datatype Range = Range(start: nat, size: nat)

  /** Size zero stands for everything. */
  predicate Hits(r: Range, b: Block) {
    r.size == 0 || (r.start < b.end && b.start < r.start + r.size)
  }

  predicate Survives(b: Block, ranges: set<Range>) {
    forall r :: r in ranges ==> !Hits(r, b)
  }

  predicate FlushesAll(space: nat, records: seq<Kind>) {
    exists i :: 0 <= i < |records| && records[i] == InstructionCache(space)
  }

  predicate ChangedPage(records: seq<Kind>, physical: nat) {
    exists i :: 0 <= i < |records| && records[i].ExecutableContent?
                && (records[i].first == physical || records[i].second == Some(physical))
  }

  predicate ChangedRange(space: nat, records: seq<Kind>, r: Range) {
    MappingChange(space, r.start, r.size) in records
  }

  /** The historical ranges of mapping changes, and the pages that map changed contents now. */
  ghost predicate DroppedRanges(space: nat, records: seq<Kind>, mapping: map<nat, nat>, ranges: set<Range>) {
    && (forall r :: r in ranges ==>
          ChangedRange(space, records, r) ||
          exists page: nat :: page in mapping && ChangedPage(records, mapping[page]) && r == Range(4096 * page, 4096))
    && (forall r :: ChangedRange(space, records, r) ==> r in ranges)
    && (forall page: nat :: page in mapping && ChangedPage(records, mapping[page]) ==> Range(4096 * page, 4096) in ranges)
  }

  /** If a page translates differently in two states, a record between them covers the page. */
  lemma {:induction false} FindMappingChange(space: nat, log: seq<Kind>, worlds: seq<World>, from: nat, until: nat, page: nat)
    returns (i: nat)
    requires Timeline(space, log, worlds) && from <= until <= |log|
    requires Translation(worlds[from], page) != Translation(worlds[until], page)
    ensures from <= i < until && log[i].MappingChange? && log[i].space == space
    ensures log[i].start <= 4096 * page && 4096 * page + 4096 <= log[i].start + log[i].size
    decreases until
  {
    assert Explains(space, log[until - 1], worlds[until - 1], worlds[until]);
    if Translation(worlds[until - 1], page) != Translation(worlds[until], page) {
      i := until - 1;
    } else {
      i := FindMappingChange(space, log, worlds, from, until - 1, page);
    }
  }

  /** A changed page that a surviving block was compiled from: the page still maps those
      contents and is dropped, or it was remapped since and the remapping drops it. */
  lemma ContentChangeIsCaught(
    space: nat, log: seq<Kind>, worlds: seq<World>, b: Block, cursor: nat, from: nat, ranges: set<Range>, page: nat)
    requires Timeline(space, log, worlds) && cursor <= from <= |log| && b.CompiledFrom(worlds[from])
    requires DroppedRanges(space, log[cursor..], worlds[|log|].mapping, ranges)
    requires b.OnPage(page) && ChangedPage(log[cursor..], b.seen[page].physical)
    ensures !Survives(b, ranges)
  {
    var w := worlds[|log|];
    if Translation(w, page) == Some(b.seen[page].physical) {
      assert Range(4096 * page, 4096) in ranges && Hits(Range(4096 * page, 4096), b);
    } else {
      var i := FindMappingChange(space, log, worlds, from, |log|, page);
      var r := Range(log[i].start, log[i].size);
      assert log[cursor..][i - cursor] == MappingChange(space, r.start, r.size);
      assert ChangedRange(space, log[cursor..], r) && Hits(r, b);
    }
  }

  /** A block that survives synchronisation is concerned by no record so far. */
  lemma SurvivorIsUnaffected(space: nat, log: seq<Kind>, worlds: seq<World>, b: Block, cursor: nat, ranges: set<Range>)
    requires Timeline(space, log, worlds) && cursor <= |log| && b.born <= |log|
    requires b.CompiledFrom(worlds[b.born]) && Unaffected(space, log, b, cursor)
    requires DroppedRanges(space, log[cursor..], worlds[|log|].mapping, ranges)
    requires !FlushesAll(space, log[cursor..]) && Survives(b, ranges)
    ensures Unaffected(space, log, b, |log|)
  {
    var from := if b.born < cursor then cursor else b.born;
    UnaffectedIsCoherent(space, log, worlds, b, from);
    forall i | b.born <= i < |log| ensures !Affects(space, log[i], b) {
      if cursor <= i {
        assert log[cursor..][i - cursor] == log[i];
        match log[i]
        case MappingChange(changed, start, size) =>
          if changed == space { assert ChangedRange(space, log[cursor..], Range(start, size)); }
        case ExecutableContent(first, second) =>
          if Affects(space, log[i], b) {
            var page: nat :| b.OnPage(page) && page in b.seen
                             && (b.seen[page].physical == first || second == Some(b.seen[page].physical));
            assert ChangedPage(log[cursor..], b.seen[page].physical);
            ContentChangeIsCaught(space, log, worlds, b, cursor, from, ranges, page);
          }
        case InstructionCache(changed) =>
      }
    }
  }
}
