/** Reading and staging the bytes of resolved ranges through a write batch, one backing
    piece at a time. */
module RangeAccess {
  import opened Canonical
  import opened Resolution
  import opened WriteBatch

  // ----- the pieces of a resolved range -----

  ghost predicate SegmentsInPages(segments: seq<ResolvedMapping>) {
    forall i :: 0 <= i < |segments| ==> InPages(segments[i].mapping.backing.segments)
  }

  ghost predicate Usable(range: ResolvedRange) {
    range.WellFormed() && SegmentsInPages(range.segments)
  }

  /** Bytes `from..from + count` of a resolved range, inside one backing. */
  datatype Part = Part(backing: Backing, backingOffset: nat, from: nat, count: nat)

  function PartOf(segment: ResolvedMapping, begin: nat, lo: nat, hi: nat): seq<Part> {
    var start, stop := Max(lo, begin), Min(hi, begin + segment.size);
    if start < stop
    then [Part(segment.mapping.backing, segment.backingOffset + (start - begin), start, stop - start)]
    else []
  }

  function Parts(segments: seq<ResolvedMapping>, begin: nat, lo: nat, hi: nat): seq<Part> {
    if segments == [] then []
    else PartOf(segments[0], begin, lo, hi) + Parts(segments[1..], begin + segments[0].size, lo, hi)
  }

  ghost predicate PartOk(all: seq<Location>, p: Part) {
    && 0 < p.count
    && p.from + p.count <= |all|
    && InPages(p.backing.segments)
    && p.backingOffset + p.count <= p.backing.Size()
    && p.backing.Span(p.backingOffset, p.count) == all[p.from..p.from + p.count]
  }

  /** The parts follow each other over exactly bytes `lo..hi` of `all`. */
  ghost predicate PartsCover(all: seq<Location>, parts: seq<Part>, lo: nat, hi: nat) {
    && (forall i :: 0 <= i < |parts| ==> PartOk(all, parts[i]))
    && (parts == [] <==> hi <= lo)
    && (parts != [] ==> parts[0].from == lo && parts[|parts| - 1].from + parts[|parts| - 1].count == hi)
    && (forall i, j :: 0 <= i < j < |parts| && j == i + 1 ==> parts[i].from + parts[i].count == parts[j].from)
  }

  lemma PartPrepend(all: seq<Location>, p: Part, rest: seq<Part>, hi: nat)
    requires PartOk(all, p) && p.from + p.count <= hi && PartsCover(all, rest, p.from + p.count, hi)
    ensures PartsCover(all, [p] + rest, p.from, hi)
  {
    var parts := [p] + rest;
    forall i, j | 0 <= i < j < |parts| && j == i + 1 ensures parts[i].from + parts[i].count == parts[j].from {
      if i > 0 {
        assert parts[i] == rest[i - 1] && parts[j] == rest[i];
      }
    }
  }

  lemma PartOfHead(all: seq<Location>, segment: ResolvedMapping, begin: nat, lo: nat, hi: nat)
    requires segment.Backed() && InPages(segment.mapping.backing.segments) && begin + segment.size <= |all|
    requires all[begin..begin + segment.size] == segment.Bytes()
    ensures forall i :: 0 <= i < |PartOf(segment, begin, lo, hi)| ==> PartOk(all, PartOf(segment, begin, lo, hi)[i])
  {
    var start, stop := Max(lo, begin), Min(hi, begin + segment.size);
    if start < stop {
      SliceOfSlice(all, begin, begin + segment.size, start - begin, stop - begin);
      SliceOfSlice(Locations(segment.mapping.backing.segments), segment.backingOffset,
                   segment.backingOffset + segment.size, start - begin, stop - begin);
    }
  }

  lemma PartsShift(all: seq<Location>, rest: seq<Part>, lo: nat, lo': nat, hi: nat)
    requires PartsCover(all, rest, lo, hi) && hi <= lo && hi <= lo'
    ensures PartsCover(all, rest, lo', hi)
  {
  }

  lemma PartsCons(all: seq<Location>, segment: ResolvedMapping, begin: nat, rest: seq<Part>, lo: nat, hi: nat)
    requires segment.Backed() && InPages(segment.mapping.backing.segments) && begin + segment.size <= |all|
    requires all[begin..begin + segment.size] == segment.Bytes()
    requires PartsCover(all, rest, Max(lo, begin + segment.size), hi)
    ensures PartsCover(all, PartOf(segment, begin, lo, hi) + rest, Max(lo, begin), hi)
  {
    hide PartOk, PartsCover;
    PartOfHead(all, segment, begin, lo, hi);
    var end := Min(hi, begin + segment.size);
    if Max(lo, begin) < end {
      if hi < begin + segment.size { PartsShift(all, rest, Max(lo, begin + segment.size), end, hi); }
      PartPrepend(all, PartOf(segment, begin, lo, hi)[0], rest, hi);
    } else {
      assert [] + rest == rest;
      if hi <= Max(lo, begin) { PartsShift(all, rest, Max(lo, begin + segment.size), Max(lo, begin), hi); }
    }
  }

  lemma PartsOfNone(all: seq<Location>, lo: nat, hi: nat)
    requires hi <= lo
    ensures PartsCover(all, [], lo, hi)
  {
  }

  lemma {:induction false} PartsAreCovering(
    all: seq<Location>, segments: seq<ResolvedMapping>, begin: nat, lo: nat, hi: nat)
    requires AllBacked(segments) && SegmentsInPages(segments)
    requires begin <= |all| && hi <= |all| && all[begin..] == SegmentLocations(segments)
    ensures PartsCover(all, Parts(segments, begin, lo, hi), Max(lo, begin), hi)
  {
    hide PartsCover;
    if segments == [] {
      PartsOfNone(all, Max(lo, begin), hi);
    } else {
      var head, tail := segments[0].Bytes(), SegmentLocations(segments[1..]);
      var next := begin + segments[0].size;
      SplitTail(all, begin, next, head, tail);
      var rest := Parts(segments[1..], next, lo, hi);
      PartsAreCovering(all, segments[1..], next, lo, hi);
      PartsCons(all, segments[0], begin, rest, lo, hi);
      assert Parts(segments, begin, lo, hi) == PartOf(segments[0], begin, lo, hi) + rest;
    }
  }

  /** The pieces of a sub-range of a resolved range, each inside one backing. */
  function CopySegments(range: ResolvedRange, offset: nat, n: nat): (parts: seq<Part>)
    requires Usable(range) && offset + n <= range.size
    ensures PartsCover(range.Bytes(), parts, offset, offset + n)
  {
    assert range.Bytes()[0..] == SegmentLocations(range.segments);
    PartsAreCovering(range.Bytes(), range.segments, 0, offset, offset + n);
    Parts(range.segments, 0, offset, offset + n)
  }

  lemma {:induction false} PartsOrder(all: seq<Location>, parts: seq<Part>, lo: nat, hi: nat, i: nat)
    requires PartsCover(all, parts, lo, hi) && i < |parts|
    ensures parts[i].from + parts[i].count <= hi
    ensures i < |parts| - 1 ==> parts[i].from + parts[i].count == parts[i + 1].from
    ensures i == |parts| - 1 ==> parts[i].from + parts[i].count == hi
    decreases |parts| - i
  {
    if i < |parts| - 1 {
      PartsOrder(all, parts, lo, hi, i + 1);
    }
  }

  // ----- rights -----

  ghost predicate PartsGrant(parts: seq<Part>, access: Access) {
    forall i :: 0 <= i < |parts| ==> parts[i].backing.Grants({access})
  }

  lemma {:induction false} PartsAreGranted(segments: seq<ResolvedMapping>, begin: nat, lo: nat, hi: nat, access: Access)
    requires forall i :: 0 <= i < |segments| ==> segments[i].mapping.backing.Grants({access})
    ensures PartsGrant(Parts(segments, begin, lo, hi), access)
  {
    if segments != [] {
      PartsAreGranted(segments[1..], begin + segments[0].size, lo, hi, access);
    }
  }

  lemma SubrangeGrants(range: ResolvedRange, offset: nat, n: nat, access: Access)
    requires Usable(range) && offset + n <= range.size
    ensures Granted(range, access) ==> PartsGrant(CopySegments(range, offset, n), access)
  {
    if Granted(range, access) {
      PartsAreGranted(range.segments, 0, offset, offset + n, access);
    }
  }

  lemma {:induction false} ClipsGrant(segments: seq<BackingSegment>, logical: nat, lo: nat, hi: nat, access: Access)
    requires forall i :: 0 <= i < |segments| ==> access in segments[i].permissions
    ensures Grants(Clips(segments, logical, lo, hi), access)
  {
    if segments != [] {
      ClipsGrant(segments[1..], logical + segments[0].size, lo, hi, access);
    }
  }

  lemma PartGrants(p: Part, access: Access)
    requires p.backing.Grants({access})
    ensures Grants(Clips(p.backing.segments, 0, p.backingOffset, p.backingOffset + p.count), access)
  {
    forall i | 0 <= i < |p.backing.segments| ensures access in p.backing.segments[i].permissions {
      assert {access} <= p.backing.segments[i].permissions;
    }
    ClipsGrant(p.backing.segments, 0, p.backingOffset, p.backingOffset + p.count, access);
  }

  // ----- reading and staging sub-ranges -----

  /** `output` holds what `view` has at bytes `lo..hi`. */
  ghost predicate Loaded(output: seq<U8>, view: Memory, all: seq<Location>, lo: nat, hi: nat) {
    lo <= hi <= |all| && output == Load(view, all[lo..hi])
  }

  lemma ReadPartStep(
    view: Memory, all: seq<Location>, lo: nat, p: Part, output: seq<U8>, part: seq<U8>, at: nat)
    requires PartOk(all, p) && Loaded(output, view, all, lo, p.from) && at == p.from + p.count
    requires part == Load(view, p.backing.Span(p.backingOffset, p.count))
    ensures Loaded(output + part, view, all, lo, at)
  {
    LoadSlices(view, all, lo, p.from, at);
  }

  /** The bytes for `lo..at` have been written. */
  ghost predicate PutTo(before: Memory, after: Memory, all: seq<Location>, lo: nat, bytes: seq<U8>, at: nat) {
    lo <= at <= lo + |bytes| <= |all| && after == PutAll(before, all[lo..at], bytes[..at - lo])
  }

  lemma StagePartStep(before: Memory, mid: Memory, after: Memory, all: seq<Location>, lo: nat, bytes: seq<U8>, p: Part, at: nat)
    requires PartOk(all, p) && PutTo(before, mid, all, lo, bytes, p.from) && p.from + p.count == at <= lo + |bytes|
    requires after == PutAll(mid, p.backing.Span(p.backingOffset, p.count), bytes[p.from - lo..p.from + p.count - lo])
    ensures PutTo(before, after, all, lo, bytes, at)
  {
    PutSlices(before, all, lo, bytes, p.from, p.from + p.count);
  }

  /** Reads part of a resolved range through the staged writes. */
  method ReadSubrange(batch: CanonicalWriteBatch, range: ResolvedRange, offset: nat, n: nat, memory: Memory)
    returns (r: Result<seq<U8>, BatchError>)
    requires batch.Valid() && Usable(range) && offset + n <= range.size
    ensures Granted(range, Read) ==> r.Ok?
    ensures r.Ok? ==> Loaded(r.value, memory + Overlay(batch.pages), range.Bytes(), offset, offset + n)
  {
    var parts := CopySegments(range, offset, n);
    SubrangeGrants(range, offset, n, Read);
    r := ReadParts(batch, range.Bytes(), parts, offset, offset + n, memory);
  }

  method ReadParts(batch: CanonicalWriteBatch, ghost all: seq<Location>, parts: seq<Part>, lo: nat, hi: nat, memory: Memory)
    returns (r: Result<seq<U8>, BatchError>)
    requires batch.Valid() && lo <= hi <= |all| && PartsCover(all, parts, lo, hi)
    ensures PartsGrant(parts, Read) ==> r.Ok?
    ensures r.Ok? ==> Loaded(r.value, memory + Overlay(batch.pages), all, lo, hi)
  {
    hide Overlay, PagesValid;
    var output: seq<U8> := [];
    ghost var at := lo;
    for i := 0 to |parts|
      invariant at == if i == |parts| then hi else parts[i].from
      invariant Loaded(output, memory + Overlay(batch.pages), all, lo, at)
    {
      var p := parts[i];
      PartsOrder(all, parts, lo, hi, i);
      if PartsGrant(parts, Read) { PartGrants(p, Read); }
      var part := batch.ReadOverlay(p.backing, p.backingOffset, p.count, memory);
      if part.Err? { return Err(part.error); }
      ReadPartStep(memory + Overlay(batch.pages), all, lo, p, output, part.value, p.from + p.count);
      output := output + part.value;
      at := p.from + p.count;
    }
    r := Ok(output);
  }

  /** Stages bytes over part of a resolved range, piece by piece. */
  method StageSubrange(batch: CanonicalWriteBatch, range: ResolvedRange, offset: nat, bytes: seq<U8>, memory: Memory)
    returns (r: Result<(), BatchError>)
    requires batch.Valid() && Usable(range) && offset + |bytes| <= range.size
    modifies batch
    ensures batch.Valid()
    ensures Granted(range, Write) ==> r.Ok?
    ensures r.Ok? ==> Overlay(batch.pages) ==
                      PutAll(old(Overlay(batch.pages)), range.Bytes()[offset..offset + |bytes|], bytes)
  {
    var parts := CopySegments(range, offset, |bytes|);
    SubrangeGrants(range, offset, |bytes|, Write);
    r := StageParts(batch, range.Bytes(), parts, offset, bytes, memory);
  }

  method StageParts(batch: CanonicalWriteBatch, ghost all: seq<Location>, parts: seq<Part>, lo: nat, bytes: seq<U8>, memory: Memory)
    returns (r: Result<(), BatchError>)
    requires batch.Valid() && lo + |bytes| <= |all| && PartsCover(all, parts, lo, lo + |bytes|)
    modifies batch
    ensures batch.Valid()
    ensures PartsGrant(parts, Write) ==> r.Ok?
    ensures r.Ok? ==> Overlay(batch.pages) == PutAll(old(Overlay(batch.pages)), all[lo..lo + |bytes|], bytes)
  {
    hide Overlay, PutAll, PagesValid;
    var at := lo;
    ghost var before := Overlay(batch.pages);
    PutNothing(before, all, lo, bytes);
    for i := 0 to |parts|
      invariant batch.Valid()
      invariant at == if i == |parts| then lo + |bytes| else parts[i].from
      invariant PutTo(before, Overlay(batch.pages), all, lo, bytes, at)
    {
      var p := parts[i];
      PartsOrder(all, parts, lo, lo + |bytes|, i);
      ghost var mid := Overlay(batch.pages);
      if PartsGrant(parts, Write) { PartGrants(p, Write); }
      r := batch.Stage(p.backing, p.backingOffset, bytes[p.from - lo..p.from + p.count - lo], memory);
      if r.Err? { return; }
      at := p.from + p.count;
      StagePartStep(before, mid, Overlay(batch.pages), all, lo, bytes, p, at);
    }
    assert bytes[..at - lo] == bytes;
    r := Ok(());
  }

  // ----- inline writes -----

  datatype InlineError = StaleInlineTarget(access: AccessError) | InlineWrite(batch: BatchError)

  /** What an inline write demands of its resolved target. */
  function CheckInline(target: ResolvedRange, bytes: seq<U8>): (r: Result<(), InlineError>)
    ensures r.Ok? <==> Write in target.permissions && target.size == |bytes|
  {
    if Write !in target.permissions then
      Err(StaleInlineTarget(PermissionDenied(target.offset, {Write}, target.permissions)))
    else if target.size != |bytes| then
      Err(StaleInlineTarget(OutputSizeMismatch(target.size, |bytes|)))
    else Ok(())
  }

  /** Where segment `i` starts in the range, or the size of the range after the last one. */
  function StartOf(target: ResolvedRange, i: nat): int
    requires i <= |target.segments|
  {
    if i == |target.segments| then target.size else target.segments[i].gpuOffset - target.offset
  }

  lemma NextStart(target: ResolvedRange, i: nat)
    requires target.WellFormed() && i < |target.segments|
    ensures StartOf(target, i + 1) == StartOf(target, i) + target.segments[i].size
    ensures 0 <= StartOf(target, i) && StartOf(target, i + 1) <= target.size
    ensures target.segments[i].Bytes() == target.Bytes()[StartOf(target, i)..StartOf(target, i + 1)]
  {
    SegmentSlice(target.segments, target.offset, target.offset + target.size, i);
  }

  lemma InlineStep(before: Memory, mid: Memory, after: Memory, all: seq<Location>, bytes: seq<U8>, at: nat, end: nat)
    requires |all| == |bytes| && at <= end <= |bytes| && PutTo(before, mid, all, 0, bytes, at)
    requires after == PutAll(mid, all[at..end], bytes[at..end])
    ensures PutTo(before, after, all, 0, bytes, end)
  {
    PutSlices(before, all, 0, bytes, at, end);
  }

  /** Stages an inline write, segment by segment. */
  method StageInline(batch: CanonicalWriteBatch, target: ResolvedRange, bytes: seq<U8>, memory: Memory)
    returns (r: Result<(), InlineError>)
    requires batch.Valid() && Usable(target)
    modifies batch
    ensures batch.Valid()
    ensures CheckInline(target, bytes).Err? ==> r == CheckInline(target, bytes) && batch.pages == old(batch.pages)
    ensures CheckInline(target, bytes).Ok? && Granted(target, Write) ==> r.Ok?
    ensures r.Ok? ==> CheckInline(target, bytes).Ok?
    ensures r.Ok? ==> Overlay(batch.pages) == PutAll(old(Overlay(batch.pages)), target.Bytes(), bytes)
  {
    r := CheckInline(target, bytes);
    if r.Err? { return; }
    var staged := StageSegments(batch, target, bytes, memory);
    assert target.Bytes()[0..|bytes|] == target.Bytes() && bytes[..|bytes| - 0] == bytes;
    r := if staged.Ok? then Ok(()) else Err(InlineWrite(staged.error));
  }

  method StageSegments(batch: CanonicalWriteBatch, target: ResolvedRange, bytes: seq<U8>, memory: Memory)
    returns (r: Result<(), BatchError>)
    requires batch.Valid() && Usable(target) && target.size == |bytes|
    modifies batch
    ensures batch.Valid()
    ensures Granted(target, Write) ==> r.Ok?
    ensures r.Ok? ==> PutTo(old(Overlay(batch.pages)), Overlay(batch.pages), target.Bytes(), 0, bytes, |bytes|)
  {
    var copied := 0;
    ghost var before := Overlay(batch.pages);
    assert target.Bytes()[0..0] == [] && bytes[..0] == [];
    for i := 0 to |target.segments|
      invariant batch.Valid() && copied == StartOf(target, i)
      invariant PutTo(before, Overlay(batch.pages), target.Bytes(), 0, bytes, copied)
    {
      ghost var mid := Overlay(batch.pages);
      var end;
      r, end := StageSegment(batch, target, i, copied, bytes, memory);
      if r.Err? { return; }
      InlineStep(before, mid, Overlay(batch.pages), target.Bytes(), bytes, copied, end);
      copied := end;
    }
    r := Ok(());
  }

  method StageSegment(batch: CanonicalWriteBatch, target: ResolvedRange, i: nat, copied: nat, bytes: seq<U8>, memory: Memory)
    returns (r: Result<(), BatchError>, end: nat)
    requires batch.Valid() && Usable(target) && target.size == |bytes|
    requires i < |target.segments| && copied == StartOf(target, i)
    modifies batch
    ensures batch.Valid()
    ensures Granted(target, Write) ==> r.Ok?
    ensures copied <= end <= |bytes| && end == StartOf(target, i + 1)
    ensures r.Ok? ==> Overlay(batch.pages) ==
                      PutAll(old(Overlay(batch.pages)), target.Bytes()[copied..end], bytes[copied..end])
  {
    hide Overlay, PutAll, PagesValid, SegmentLocations;
    var segment := target.segments[i];
    end := copied + segment.size;
    NextStart(target, i);
    if Granted(target, Write) {
      PartGrants(Part(segment.mapping.backing, segment.backingOffset, copied, segment.size), Write);
    }
    r := batch.Stage(segment.mapping.backing, segment.backingOffset, bytes[copied..end], memory);
  }
}
