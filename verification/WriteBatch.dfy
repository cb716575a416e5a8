/** Deferred canonical writes: staged pages with dirty ranges, and the ordered list of byte
    writes that they stand for. */
module WriteBatch {
  import opened Canonical
  import opened Ordering

  const PAGE_BYTES: nat := 4096

  // ----- ordered byte writes -----

  /** Writes bytes to locations in order, so the last write to a location wins. */
  function PutAll(memory: Memory, at: seq<Location>, bytes: seq<U8>): Memory
    requires |at| == |bytes|
    decreases |at|
  {
    if at == [] then memory
    else PutAll(memory, at[..|at| - 1], bytes[..|bytes| - 1])[at[|at| - 1] := bytes[|bytes| - 1]]
  }

  lemma {:induction false} PutAllAppend(memory: Memory, at: seq<Location>, bytes: seq<U8>, at': seq<Location>, bytes': seq<U8>)
    requires |at| == |bytes| && |at'| == |bytes'|
    ensures PutAll(memory, at + at', bytes + bytes') == PutAll(PutAll(memory, at, bytes), at', bytes')
    decreases |at'|
  {
    var n := |at'|;
    if n == 0 {
      assert at + at' == at && bytes + bytes' == bytes;
    } else {
      PutAllAppend(memory, at, bytes, at'[..n - 1], bytes'[..n - 1]);
      assert (at + at')[..|at + at'| - 1] == at + at'[..n - 1];
      assert (bytes + bytes')[..|bytes + bytes'| - 1] == bytes + bytes'[..n - 1];
    }
  }

  /** Overlaying is putting: a deferred list of writes commutes with the memory beneath it. */
  lemma {:induction false} PutAllOver(memory: Memory, overlay: Memory, at: seq<Location>, bytes: seq<U8>)
    requires |at| == |bytes|
    ensures memory + PutAll(overlay, at, bytes) == PutAll(memory + overlay, at, bytes)
    decreases |at|
  {
    if at != [] {
      PutAllOver(memory, overlay, at[..|at| - 1], bytes[..|bytes| - 1]);
    }
  }

  lemma {:induction false} PutRun(memory: Memory, page: nat, offset: nat, bytes: seq<U8>, l: Location)
    ensures var after := PutAll(memory, PageRun(page, offset, |bytes|), bytes);
      if l.page == page && offset <= l.offset < offset + |bytes|
      then l in after && after[l] == bytes[l.offset - offset]
      else (l in after <==> l in memory) && (l in after ==> after[l] == memory[l])
    decreases |bytes|
  {
    if bytes != [] {
      var run := PageRun(page, offset, |bytes|);
      assert run[..|bytes| - 1] == PageRun(page, offset, |bytes| - 1);
      PutRun(memory, page, offset, bytes[..|bytes| - 1], l);
    }
  }

  // ----- staged pages -----

  type DirtyRange = r: (nat, nat) | r.0 <= r.1 witness (0, 0)

  datatype PendingPage = PendingPage(bytes: seq<U8>, dirty: seq<DirtyRange>) {
    predicate Valid() {
      |bytes| == PAGE_BYTES && forall i :: 0 <= i < |dirty| ==> dirty[i].1 <= PAGE_BYTES
    }

    predicate Dirty(o: nat) {
      exists i :: 0 <= i < |dirty| && dirty[i].0 <= o < dirty[i].1
    }
  }

  /** Extends the last dirty range when the new one touches it, and starts another otherwise. */
  function RecordDirtyRange(dirty: seq<DirtyRange>, lo: nat, hi: nat): seq<DirtyRange>
    requires lo <= hi
  {
    if dirty != [] && lo <= dirty[|dirty| - 1].1 && dirty[|dirty| - 1].0 <= hi then
      var last := dirty[|dirty| - 1];
      dirty[..|dirty| - 1] + [(if lo < last.0 then lo else last.0, if last.1 < hi then hi else last.1)]
    else
      dirty + [(lo, hi)]
  }

  lemma RecordedDirty(p: PendingPage, bytes: seq<U8>, lo: nat, hi: nat, o: nat)
    requires lo < hi
    ensures PendingPage(bytes, RecordDirtyRange(p.dirty, lo, hi)).Dirty(o) <==> p.Dirty(o) || lo <= o < hi
  {
    var d, d' := p.dirty, RecordDirtyRange(p.dirty, lo, hi);
    var n := |d| - 1;
    if p.Dirty(o) {
      var i :| 0 <= i < |d| && d[i].0 <= o < d[i].1;
      assert i < n ==> d'[i] == d[i];
      assert d'[i].0 <= o < d'[i].1;
    }
    if lo <= o < hi {
      var i := |d'| - 1;
      assert d'[i].0 <= o < d'[i].1;
    }
  }

  type Pages = map<nat, PendingPage>

  ghost predicate PagesValid(pages: Pages) {
    forall p :: p in pages ==> pages[p].Valid()
  }

  predicate Staged(pages: Pages, l: Location) {
    l.page in pages && l.offset < PAGE_BYTES && pages[l.page].Dirty(l.offset)
  }

  /** The writes a batch stands for: its dirty bytes. */
  ghost function Overlay(pages: Pages): Memory
    requires PagesValid(pages)
  {
    map p, o | p in pages && 0 <= o < PAGE_BYTES && pages[p].Dirty(o) :: Location(p, o) := pages[p].bytes[o]
  }

  lemma OverlayAt(pages: Pages, l: Location)
    requires PagesValid(pages)
    ensures l in Overlay(pages) <==> Staged(pages, l)
    ensures Staged(pages, l) ==> Overlay(pages)[l] == pages[l.page].bytes[l.offset]
  {
    if Staged(pages, l) {
      assert Location(l.page, l.offset) in Overlay(pages);
    }
  }

  /** Capturing a page stages nothing. */
  lemma CaptureOverlay(pages: Pages, page: nat, bytes: seq<U8>)
    requires PagesValid(pages) && page !in pages && |bytes| == PAGE_BYTES
    ensures PagesValid(pages[page := PendingPage(bytes, [])])
    ensures Overlay(pages[page := PendingPage(bytes, [])]) == Overlay(pages)
  {
    var pages' := pages[page := PendingPage(bytes, [])];
    forall l: Location
      ensures l in Overlay(pages') <==> l in Overlay(pages)
      ensures l in Overlay(pages) ==> Overlay(pages')[l] == Overlay(pages)[l]
    {
      OverlayAt(pages, l);
      OverlayAt(pages', l);
    }
  }

  function WriteRun(p: PendingPage, offset: nat, bytes: seq<U8>): PendingPage
    requires p.Valid() && offset + |bytes| <= PAGE_BYTES
  {
    PendingPage(p.bytes[..offset] + bytes + p.bytes[offset + |bytes|..],
                RecordDirtyRange(p.dirty, offset, offset + |bytes|))
  }

  lemma WriteRunValid(p: PendingPage, offset: nat, bytes: seq<U8>)
    requires p.Valid() && offset + |bytes| <= PAGE_BYTES
    ensures WriteRun(p, offset, bytes).Valid()
  {
  }

  lemma WriteRunAt(pages: Pages, page: nat, offset: nat, bytes: seq<U8>, l: Location)
    requires PagesValid(pages) && page in pages && offset + |bytes| <= PAGE_BYTES && bytes != []
    ensures var pages' := pages[page := WriteRun(pages[page], offset, bytes)];
      if l.page == page && offset <= l.offset < offset + |bytes|
      then Staged(pages', l) && pages'[page].bytes[l.offset] == bytes[l.offset - offset]
      else (Staged(pages', l) <==> Staged(pages, l))
           && (Staged(pages, l) ==> pages'[l.page].bytes[l.offset] == pages[l.page].bytes[l.offset])
  {
    if l.page == page {
      RecordedDirty(pages[page], WriteRun(pages[page], offset, bytes).bytes, offset, offset + |bytes|, l.offset);
    }
  }

  lemma WriteRunPagesValid(pages: Pages, page: nat, offset: nat, bytes: seq<U8>)
    requires PagesValid(pages) && page in pages && offset + |bytes| <= PAGE_BYTES
    ensures PagesValid(pages[page := WriteRun(pages[page], offset, bytes)])
  {
    WriteRunValid(pages[page], offset, bytes);
  }

  /** Writing a run into a staged page is the ordered write of its bytes. */
  lemma WriteRunOverlay(pages: Pages, page: nat, offset: nat, bytes: seq<U8>)
    requires PagesValid(pages) && page in pages && offset + |bytes| <= PAGE_BYTES && bytes != []
    requires PagesValid(pages[page := WriteRun(pages[page], offset, bytes)])
    ensures Overlay(pages[page := WriteRun(pages[page], offset, bytes)]) ==
            PutAll(Overlay(pages), PageRun(page, offset, |bytes|), bytes)
  {
    forall l: Location {
      WriteRunStep(pages, page, offset, bytes, l);
    }
  }

  lemma WriteRunStep(pages: Pages, page: nat, offset: nat, bytes: seq<U8>, l: Location)
    requires PagesValid(pages) && page in pages && offset + |bytes| <= PAGE_BYTES && bytes != []
    requires PagesValid(pages[page := WriteRun(pages[page], offset, bytes)])
    ensures var o, o' := Overlay(pages[page := WriteRun(pages[page], offset, bytes)]),
                         PutAll(Overlay(pages), PageRun(page, offset, |bytes|), bytes);
      (l in o <==> l in o') && (l in o ==> o[l] == o'[l])
  {
    OverlayAt(pages, l);
    OverlayAt(pages[page := WriteRun(pages[page], offset, bytes)], l);
    PutRun(Overlay(pages), page, offset, bytes, l);
    WriteRunAt(pages, page, offset, bytes, l);
  }

  // ----- the parts of a backing that a sub-range touches -----

  /** A run of one page that holds logical bytes `from..from + count` of a backing. */
  datatype Clip = Clip(page: nat, offset: nat, from: nat, count: nat, permissions: Permissions)

  function ClipOf(segment: BackingSegment, logical: nat, lo: nat, hi: nat): seq<Clip> {
    var start, stop := Max(lo, logical), Min(hi, logical + segment.size);
    if start < stop
    then [Clip(segment.page, segment.offset + (start - logical), start, stop - start, segment.permissions)]
    else []
  }

  function Clips(segments: seq<BackingSegment>, logical: nat, lo: nat, hi: nat): seq<Clip> {
    if segments == [] then []
    else ClipOf(segments[0], logical, lo, hi) + Clips(segments[1..], logical + segments[0].size, lo, hi)
  }

  predicate InPages(segments: seq<BackingSegment>) {
    forall i :: 0 <= i < |segments| ==> segments[i].offset + segments[i].size <= PAGE_BYTES
  }

  ghost predicate ClipOk(all: seq<Location>, c: Clip) {
    && 0 < c.count
    && c.offset + c.count <= PAGE_BYTES
    && c.from + c.count <= |all|
    && all[c.from..c.from + c.count] == PageRun(c.page, c.offset, c.count)
  }

  /** The clips follow each other over exactly bytes `lo..hi` of `all`. */
  ghost predicate ClipsCover(all: seq<Location>, clips: seq<Clip>, lo: nat, hi: nat) {
    && (forall i :: 0 <= i < |clips| ==> ClipOk(all, clips[i]))
    && (clips == [] <==> hi <= lo)
    && (clips != [] ==> clips[0].from == lo && clips[|clips| - 1].from + clips[|clips| - 1].count == hi)
    && (forall i, j :: 0 <= i < j < |clips| && j == i + 1 ==> clips[i].from + clips[i].count == clips[j].from)
  }

  lemma CoverPrepend(all: seq<Location>, head: Clip, rest: seq<Clip>, hi: nat)
    requires ClipOk(all, head) && head.from + head.count <= hi
    requires ClipsCover(all, rest, head.from + head.count, hi)
    ensures ClipsCover(all, [head] + rest, head.from, hi)
  {
    var clips := [head] + rest;
    forall i, j | 0 <= i < j < |clips| && j == i + 1 ensures clips[i].from + clips[i].count == clips[j].from {
      if i > 0 {
        assert clips[i] == rest[i - 1] && clips[j] == rest[i];
      }
    }
  }

  lemma ClipOfHead(all: seq<Location>, segment: BackingSegment, logical: nat, lo: nat, hi: nat)
    requires segment.offset + segment.size <= PAGE_BYTES && logical + segment.size <= |all|
    requires all[logical..logical + segment.size] == PageRun(segment.page, segment.offset, segment.size)
    ensures forall i :: 0 <= i < |ClipOf(segment, logical, lo, hi)| ==> ClipOk(all, ClipOf(segment, logical, lo, hi)[i])
  {
    var start, stop := Max(lo, logical), Min(hi, logical + segment.size);
    if start < stop {
      var run := PageRun(segment.page, segment.offset, segment.size);
      SliceOfSlice(all, logical, logical + segment.size, start - logical, stop - logical);
      assert run[start - logical..stop - logical] ==
             PageRun(segment.page, segment.offset + (start - logical), stop - start);
    }
  }

  /** Nothing covers an empty stretch, wherever it starts. */
  lemma CoverShift(all: seq<Location>, rest: seq<Clip>, lo: nat, lo': nat, hi: nat)
    requires ClipsCover(all, rest, lo, hi) && hi <= lo && hi <= lo'
    ensures ClipsCover(all, rest, lo', hi)
  {
  }

  lemma CoverCons(all: seq<Location>, segment: BackingSegment, logical: nat, rest: seq<Clip>, lo: nat, hi: nat)
    requires segment.offset + segment.size <= PAGE_BYTES && logical + segment.size <= |all|
    requires all[logical..logical + segment.size] == PageRun(segment.page, segment.offset, segment.size)
    requires ClipsCover(all, rest, Max(lo, logical + segment.size), hi)
    ensures ClipsCover(all, ClipOf(segment, logical, lo, hi) + rest, Max(lo, logical), hi)
  {
    hide PageRun, ClipOk, ClipsCover;
    ClipOfHead(all, segment, logical, lo, hi);
    var end := Min(hi, logical + segment.size);
    if Max(lo, logical) < end {
      if hi < logical + segment.size { CoverShift(all, rest, Max(lo, logical + segment.size), end, hi); }
      CoverPrepend(all, ClipOf(segment, logical, lo, hi)[0], rest, hi);
    } else {
      assert [] + rest == rest;
      if hi <= Max(lo, logical) { CoverShift(all, rest, Max(lo, logical + segment.size), Max(lo, logical), hi); }
    }
  }

  lemma {:induction false} ClipsAreCovering(
    all: seq<Location>, segments: seq<BackingSegment>, logical: nat, lo: nat, hi: nat)
    requires InPages(segments) && logical <= |all| && hi <= |all| && all[logical..] == Locations(segments)
    ensures ClipsCover(all, Clips(segments, logical, lo, hi), Max(lo, logical), hi)
  {
    if segments != [] {
      var segment := segments[0];
      var next := logical + segment.size;
      var run := PageRun(segment.page, segment.offset, segment.size);
      assert all[logical..next] == (run + Locations(segments[1..]))[..segment.size] == run;
      assert all[next..] == (run + Locations(segments[1..]))[segment.size..] == Locations(segments[1..]);
      var rest := Clips(segments[1..], next, lo, hi);
      ClipsAreCovering(all, segments[1..], next, lo, hi);
      CoverCons(all, segment, logical, rest, lo, hi);
      assert Clips(segments, logical, lo, hi) == ClipOf(segment, logical, lo, hi) + rest;
    }
  }

  lemma BackingClips(backing: Backing, lo: nat, hi: nat)
    requires InPages(backing.segments) && hi <= backing.Size()
    ensures ClipsCover(Locations(backing.segments), Clips(backing.segments, 0, lo, hi), lo, hi)
  {
    var all := Locations(backing.segments);
    assert all[0..] == all;
    ClipsAreCovering(all, backing.segments, 0, lo, hi);
  }

  // ----- the batch -----

  datatype BatchError = OutOfBounds | WriteDenied(page: nat) | ReadDenied(page: nat)

  function Snapshot(memory: Memory, page: nat): seq<U8> {
    seq(PAGE_BYTES, o requires 0 <= o => ByteAt(memory, Location(page, o)))
  }

  /** Every segment that the sub-range touches grants the access. */
  predicate Grants(clips: seq<Clip>, access: Access) {
    forall i :: 0 <= i < |clips| ==> access in clips[i].permissions
  }

  method FirstDenied(clips: seq<Clip>, access: Access) returns (page: Option<nat>)
    ensures page.None? <==> Grants(clips, access)
  {
    for i := 0 to |clips|
      invariant forall j :: 0 <= j < i ==> access in clips[j].permissions
    {
      if access !in clips[i].permissions { return Some(clips[i].page); }
    }
    page := None;
  }

  /** Canonical storage. */
  class CanonicalMemory {
    var bytes: Memory

    constructor (bytes: Memory)
      ensures this.bytes == bytes
    {
      this.bytes := bytes;
    }
  }

  class CanonicalWriteBatch {
    var pages: Pages

    ghost predicate Valid()
      reads this
    {
      PagesValid(pages)
    }

    constructor ()
      ensures pages == map[] && Valid()
    {
      pages := map[];
    }

    /** Stages one logical write: the batch then stands for its earlier writes followed by
        the bytes of this one, in order. */
    method Stage(backing: Backing, offset: nat, bytes: seq<U8>, memory: Memory) returns (r: Result<(), BatchError>)
      requires Valid() && InPages(backing.segments)
      modifies this
      ensures Valid()
      ensures r.Ok? <==> offset + |bytes| <= backing.Size()
                         && Grants(Clips(backing.segments, 0, offset, offset + |bytes|), Write)
      ensures r.Ok? ==> Overlay(pages) == PutAll(old(Overlay(pages)), backing.Span(offset, |bytes|), bytes)
      ensures r.Err? ==> pages == old(pages)
    {
      hide Overlay, PutAll, Clips, ClipsCover, Grants;
      if backing.Size() < offset + |bytes| { return Err(OutOfBounds); }
      var clips := Clips(backing.segments, 0, offset, offset + |bytes|);
      BackingClips(backing, offset, offset + |bytes|);
      var denied := FirstDenied(clips, Write);
      if denied.Some? { return Err(WriteDenied(denied.value)); }
      Capture(clips, memory);
      WriteClips(Locations(backing.segments), clips, offset, bytes);
      r := Ok(());
    }

    method Capture(clips: seq<Clip>, memory: Memory)
      requires Valid()
      modifies this
      ensures Valid() && Overlay(pages) == old(Overlay(pages))
      ensures forall i :: 0 <= i < |clips| ==> clips[i].page in pages
    {
      for i := 0 to |clips|
        invariant Valid() && Overlay(pages) == old(Overlay(pages))
        invariant forall j :: 0 <= j < i ==> clips[j].page in pages
      {
        var page := clips[i].page;
        if page !in pages {
          CaptureOverlay(pages, page, Snapshot(memory, page));
          pages := pages[page := PendingPage(Snapshot(memory, page), [])];
        }
      }
    }

    method WriteClips(ghost all: seq<Location>, clips: seq<Clip>, offset: nat, bytes: seq<U8>)
      requires Valid() && offset + |bytes| <= |all|
      requires ClipsCover(all, clips, offset, offset + |bytes|)
      requires forall i :: 0 <= i < |clips| ==> clips[i].page in pages
      modifies this
      ensures Valid()
      ensures Overlay(pages) == PutAll(old(Overlay(pages)), all[offset..offset + |bytes|], bytes)
    {
      hide Overlay, PutAll, WriteRun;
      var at := offset;
      ghost var before := Overlay(pages);
      assert PutAll(before, all[offset..offset], bytes[..0]) == before by { PutNothing(before, all, offset, bytes); }
      for i := 0 to |clips|
        invariant Valid()
        invariant forall j :: 0 <= j < |clips| ==> clips[j].page in pages
        invariant offset <= at <= offset + |bytes|
        invariant at == if i == |clips| then offset + |bytes| else clips[i].from
        invariant Overlay(pages) == PutAll(before, all[offset..at], bytes[..at - offset])
      {
        var c := clips[i];
        ClipsOrder(all, clips, offset, offset + |bytes|, i);
        var run := bytes[c.from - offset..c.from + c.count - offset];
        WriteClipStep(before, pages, all, offset, bytes, c);
        at, pages := c.from + c.count, pages[c.page := WriteRun(pages[c.page], c.offset, run)];
      }
      assert bytes[..at - offset] == bytes;
    }

    /** Reads current canonical bytes with the staged writes laid over them. */
    method ReadOverlay(backing: Backing, offset: nat, n: nat, memory: Memory) returns (r: Result<seq<U8>, BatchError>)
      requires Valid() && InPages(backing.segments)
      ensures r.Ok? <==> offset + n <= backing.Size() && Grants(Clips(backing.segments, 0, offset, offset + n), Read)
      ensures r.Ok? ==> r.value == Load(memory + Overlay(pages), backing.Span(offset, n))
    {
      hide Overlay, Load, Clips, ClipsCover, Grants;
      if backing.Size() < offset + n { return Err(OutOfBounds); }
      var clips := Clips(backing.segments, 0, offset, offset + n);
      BackingClips(backing, offset, offset + n);
      var denied := FirstDenied(clips, Read);
      if denied.Some? { return Err(ReadDenied(denied.value)); }
      var output := ReadClips(Locations(backing.segments), clips, offset, n, memory);
      r := Ok(output);
    }

    /** When one dirty range holds every run, only staged bytes are read. */
    method ReadClips(ghost all: seq<Location>, clips: seq<Clip>, offset: nat, n: nat, memory: Memory)
      returns (output: seq<U8>)
      requires Valid() && offset + n <= |all|
      requires ClipsCover(all, clips, offset, offset + n)
      ensures output == Load(memory + Overlay(pages), all[offset..offset + n])
    {
      var covered := forall i :: 0 <= i < |clips| ==> WhollyDirty(pages, clips[i]);
      output := [];
      ghost var at := offset;
      for i := 0 to |clips|
        invariant offset <= at <= offset + n
        invariant at == if i == |clips| then offset + n else clips[i].from
        invariant output == Load(memory + Overlay(pages), all[offset..at])
      {
        var c := clips[i];
        ClipsOrder(all, clips, offset, offset + n, i);
        var run := ReadClip(covered, c, memory);
        ReadClipStep(memory + Overlay(pages), all, offset, c, output, run);
        output := output + run;
        at := c.from + c.count;
      }
    }

    method ReadClip(covered: bool, c: Clip, memory: Memory) returns (run: seq<U8>)
      requires Valid() && c.offset + c.count <= PAGE_BYTES && (covered ==> WhollyDirty(pages, c))
      ensures run == Load(memory + Overlay(pages), PageRun(c.page, c.offset, c.count))
    {
      if covered {
        WhollyDirtyLoad(pages, memory, c);
        run := pages[c.page].bytes[c.offset..c.offset + c.count];
      } else {
        run := PatchedRun(c, memory);
      }
    }

    /** The canonical bytes of one run, with every dirty range of its page patched in. */
    method PatchedRun(c: Clip, memory: Memory) returns (run: seq<U8>)
      requires Valid() && c.offset + c.count <= PAGE_BYTES
      ensures run == Load(memory + Overlay(pages), PageRun(c.page, c.offset, c.count))
    {
      run := Load(memory, PageRun(c.page, c.offset, c.count));
      if c.page in pages {
        var pending := pages[c.page];
        for i := 0 to |pending.dirty|
          invariant |run| == c.count
          invariant forall o :: 0 <= o < c.count ==>
            run[o] == if DirtyBefore(pending, i, c.offset + o) then pending.bytes[c.offset + o]
                      else ByteAt(memory, Location(c.page, c.offset + o))
        {
          var lo, hi := Max(c.offset, pending.dirty[i].0), Min(c.offset + c.count, pending.dirty[i].1);
          ghost var before := run;
          if lo < hi {
            run := run[..lo - c.offset] + pending.bytes[lo..hi] + run[hi - c.offset..];
          }
          forall o | 0 <= o < c.count
            ensures run[o] == if lo <= c.offset + o < hi then pending.bytes[c.offset + o] else before[o]
          {
          }
        }
      }
      PatchedLoad(pages, memory, c, run);
    }

    /** Publishes exactly the dirty bytes onto whatever memory then holds. */
    method CommitOrdered(memory: CanonicalMemory)
      requires Valid()
      modifies memory
      ensures memory.bytes == old(memory.bytes) + Overlay(pages)
    {
      var ks := Ascending(set p | p in pages :: p as int);
      ghost var before := memory.bytes;
      for i := 0 to |ks|
        invariant forall l :: CommittedAt(before, memory.bytes, pages, ks[..i], l)
      {
        var page := ks[i];
        var bytes := StorePage(memory.bytes, page, pages[page]);
        assert ks[..i + 1] == ks[..i] + [page];
        forall l: Location {
          CommitStep(before, memory.bytes, bytes, pages, ks[..i], page, l);
        }
        memory.bytes := bytes;
      }
      CommittedAll(before, memory.bytes, pages, ks);
    }
  }

  /** Stores the dirty ranges of one page. */
  method StorePage(memory: Memory, page: nat, pending: PendingPage) returns (after: Memory)
    requires pending.Valid()
    ensures forall l :: StoredAt(memory, after, page, pending, |pending.dirty|, l)
  {
    after := memory;
    for i := 0 to |pending.dirty|
      invariant forall l :: StoredAt(memory, after, page, pending, i, l)
    {
      var (lo, hi) := pending.dirty[i];
      var next := PutAll(after, PageRun(page, lo, hi - lo), pending.bytes[lo..hi]);
      ghost var j := i + 1;
      forall l: Location {
        StoreStep(memory, after, next, page, pending, i, j, l);
      }
      after := next;
    }
  }

  predicate DirtyBefore(pending: PendingPage, i: int, o: nat)
    requires 0 <= i <= |pending.dirty|
  {
    exists j :: 0 <= j < i && pending.dirty[j].0 <= o < pending.dirty[j].1
  }

  ghost predicate StoredAt(before: Memory, after: Memory, page: nat, pending: PendingPage, i: int, l: Location)
    requires pending.Valid() && 0 <= i <= |pending.dirty|
  {
    if l.page == page && l.offset < PAGE_BYTES && DirtyBefore(pending, i, l.offset)
    then l in after && after[l] == pending.bytes[l.offset]
    else (l in after <==> l in before) && (l in before ==> after[l] == before[l])
  }

  ghost predicate CommittedAt(before: Memory, after: Memory, pages: Pages, done: seq<int>, l: Location)
    requires PagesValid(pages)
  {
    if l.page in done && Staged(pages, l)
    then l in after && after[l] == pages[l.page].bytes[l.offset]
    else (l in after <==> l in before) && (l in before ==> after[l] == before[l])
  }

  lemma StoreStep(before: Memory, mid: Memory, after: Memory, page: nat, pending: PendingPage, i: nat, j: nat, l: Location)
    requires pending.Valid() && i < |pending.dirty| && j == i + 1 && StoredAt(before, mid, page, pending, i, l)
    requires var (lo, hi) := pending.dirty[i];
      after == PutAll(mid, PageRun(page, lo, hi - lo), pending.bytes[lo..hi])
    ensures StoredAt(before, after, page, pending, j, l)
  {
    var (lo, hi) := pending.dirty[i];
    PutRun(mid, page, lo, pending.bytes[lo..hi], l);
    assert DirtyBefore(pending, j, l.offset) <==> DirtyBefore(pending, i, l.offset) || lo <= l.offset < hi;
  }

  lemma CommitStep(before: Memory, mid: Memory, after: Memory, pages: Pages, done: seq<int>, page: nat, l: Location)
    requires PagesValid(pages) && page in pages && CommittedAt(before, mid, pages, done, l)
    requires StoredAt(mid, after, page, pages[page], |pages[page].dirty|, l)
    ensures CommittedAt(before, after, pages, done + [page], l)
  {
    assert pages[page].Dirty(l.offset) <==> DirtyBefore(pages[page], |pages[page].dirty|, l.offset);
  }

  lemma CommittedAll(before: Memory, after: Memory, pages: Pages, ks: seq<int>)
    requires PagesValid(pages) && forall p: nat :: p in pages ==> p in ks
    requires forall l :: CommittedAt(before, after, pages, ks[..|ks|], l)
    ensures after == before + Overlay(pages)
  {
    assert ks[..|ks|] == ks;
    var goal := before + Overlay(pages);
    forall l: Location ensures (l in after <==> l in goal) && (l in after ==> after[l] == goal[l]) {
      OverlayAt(pages, l);
      assert CommittedAt(before, after, pages, ks[..|ks|], l);
    }
  }

  /** The bytes at a list of locations. */
  function Load(memory: Memory, at: seq<Location>): seq<U8> {
    seq(|at|, i requires 0 <= i < |at| => ByteAt(memory, at[i]))
  }

  lemma LoadAppend(memory: Memory, x: seq<Location>, y: seq<Location>)
    ensures Load(memory, x + y) == Load(memory, x) + Load(memory, y)
  {
  }

  lemma LoadSlices(memory: Memory, all: seq<Location>, lo: nat, mid: nat, hi: nat)
    requires lo <= mid <= hi <= |all|
    ensures Load(memory, all[lo..mid]) + Load(memory, all[mid..hi]) == Load(memory, all[lo..hi])
  {
    LoadAppend(memory, all[lo..mid], all[mid..hi]);
    JoinSlices(all, lo, mid, hi);
  }

  lemma ReadClipStep(view: Memory, all: seq<Location>, lo: nat, c: Clip, output: seq<U8>, run: seq<U8>)
    requires ClipOk(all, c) && lo <= c.from && output == Load(view, all[lo..c.from])
    requires run == Load(view, PageRun(c.page, c.offset, c.count))
    ensures output + run == Load(view, all[lo..c.from + c.count])
  {
    LoadSlices(view, all, lo, c.from, c.from + c.count);
  }

  /** One dirty range holds the whole run. */
  predicate WhollyDirty(pages: Pages, c: Clip) {
    c.page in pages &&
    exists i :: 0 <= i < |pages[c.page].dirty|
                && pages[c.page].dirty[i].0 <= c.offset && c.offset + c.count <= pages[c.page].dirty[i].1
  }

  lemma WhollyDirtyLoad(pages: Pages, memory: Memory, c: Clip)
    requires PagesValid(pages) && WhollyDirty(pages, c) && c.offset + c.count <= PAGE_BYTES
    ensures pages[c.page].bytes[c.offset..c.offset + c.count] ==
            Load(memory + Overlay(pages), PageRun(c.page, c.offset, c.count))
  {
    var run := PageRun(c.page, c.offset, c.count);
    forall o | 0 <= o < c.count
      ensures pages[c.page].bytes[c.offset + o] == ByteAt(memory + Overlay(pages), run[o])
    {
      OverlayAt(pages, run[o]);
    }
  }

  lemma PatchedByte(pages: Pages, memory: Memory, page: nat, o: nat, b: U8)
    requires PagesValid(pages) && o < PAGE_BYTES
    requires b == if page in pages && pages[page].Dirty(o) then pages[page].bytes[o] else ByteAt(memory, Location(page, o))
    ensures b == ByteAt(memory + Overlay(pages), Location(page, o))
  {
    OverlayAt(pages, Location(page, o));
    hide Overlay, PendingPage.Dirty;
  }

  lemma PatchedLoad(pages: Pages, memory: Memory, c: Clip, run: seq<U8>)
    requires PagesValid(pages) && c.offset + c.count <= PAGE_BYTES && |run| == c.count
    requires forall o :: 0 <= o < c.count ==>
      run[o] == if c.page in pages && pages[c.page].Dirty(c.offset + o) then pages[c.page].bytes[c.offset + o]
                else ByteAt(memory, Location(c.page, c.offset + o))
    ensures run == Load(memory + Overlay(pages), PageRun(c.page, c.offset, c.count))
  {
    hide Overlay, ByteAt, PendingPage.Dirty;
    forall o | 0 <= o < c.count
      ensures run[o] == ByteAt(memory + Overlay(pages), Location(c.page, c.offset + o))
    {
      PatchedByte(pages, memory, c.page, c.offset + o, run[o]);
    }
  }

  lemma PutNothing(m: Memory, all: seq<Location>, lo: nat, bytes: seq<U8>)
    requires lo <= |all|
    ensures PutAll(m, all[lo..lo], bytes[..0]) == m
  {
  }

  lemma WriteClipStep(before: Memory, pages: Pages, all: seq<Location>, lo: nat, bytes: seq<U8>, c: Clip)
    requires PagesValid(pages) && c.page in pages && ClipOk(all, c)
    requires lo <= c.from && c.from + c.count <= lo + |bytes| <= |all|
    requires Overlay(pages) == PutAll(before, all[lo..c.from], bytes[..c.from - lo])
    ensures PagesValid(pages[c.page := WriteRun(pages[c.page], c.offset, bytes[c.from - lo..c.from + c.count - lo])])
    ensures Overlay(pages[c.page := WriteRun(pages[c.page], c.offset, bytes[c.from - lo..c.from + c.count - lo])]) ==
            PutAll(before, all[lo..c.from + c.count], bytes[..c.from + c.count - lo])
  {
    hide Overlay, PutAll, WriteRun;
    var run := bytes[c.from - lo..c.from + c.count - lo];
    WriteRunPagesValid(pages, c.page, c.offset, run);
    WriteRunOverlay(pages, c.page, c.offset, run);
    PutSlices(before, all, lo, bytes, c.from, c.from + c.count);
  }

  /** Writing a further slice extends the written slice. */
  lemma PutSlices(m: Memory, all: seq<Location>, lo: nat, bytes: seq<U8>, mid: nat, hi: nat)
    requires lo <= mid <= hi <= lo + |bytes| <= |all|
    ensures PutAll(PutAll(m, all[lo..mid], bytes[..mid - lo]), all[mid..hi], bytes[mid - lo..hi - lo]) ==
            PutAll(m, all[lo..hi], bytes[..hi - lo])
  {
    PutAllAppend(m, all[lo..mid], bytes[..mid - lo], all[mid..hi], bytes[mid - lo..hi - lo]);
    JoinSlices(all, lo, mid, hi);
    JoinSlices(bytes, 0, mid - lo, hi - lo);
  }

  lemma {:induction false} ClipsOrder(all: seq<Location>, clips: seq<Clip>, lo: nat, hi: nat, i: nat)
    requires ClipsCover(all, clips, lo, hi) && i < |clips|
    ensures clips[i].from + clips[i].count <= hi
    ensures i < |clips| - 1 ==> clips[i].from + clips[i].count == clips[i + 1].from
    ensures i == |clips| - 1 ==> clips[i].from + clips[i].count == hi
    decreases |clips| - i
  {
    if i < |clips| - 1 {
      ClipsOrder(all, clips, lo, hi, i + 1);
    }
  }
}
