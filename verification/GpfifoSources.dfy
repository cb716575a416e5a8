/** Retained command sources: every entry of a submission is resolved before any is used, and
    every retained mapping is checked again before a command word is read. */
module GpfifoSources {
  import opened AddressSpace
  import opened Canonical
  import opened Gpfifo
  import opened MappingTable
  import opened Resolution
  import opened SpaceHistory
  import opened SpaceState

  datatype Pushbuffer = Pushbuffer(entry: Entry, source: ResolvedRange) {
    /** The source covers exactly the words of the entry. */
    ghost predicate Valid() {
      && entry.Valid()
      && source.WellFormed()
      && source.offset == entry.address
      && source.size == entry.ByteCount()
      && source.permissions == {Read}
    }
  }

  datatype Submission = Submission(addressSpace: U64, pushbuffers: seq<Pushbuffer>) {
    ghost predicate Valid() {
      forall i :: 0 <= i < |pushbuffers| ==>
        pushbuffers[i].Valid() && pushbuffers[i].source.addressSpace == addressSpace
    }

    /** What resolving every entry in `s` returns. */
    ghost predicate ResolvedIn(s: Space) {
      && addressSpace == s.id
      && forall i :: 0 <= i < |pushbuffers| ==> Resolves(s, pushbuffers[i].source)
    }

    predicate AllSourcesCurrent(t: Table) {
      forall i :: 0 <= i < |pushbuffers| ==> AllCurrent(t, pushbuffers[i].source)
    }
  }

  datatype SourceError =
    | ChannelAddressSpaceUnbound
    | WrongSpace(expected: U64, actual: U64)
    | UnknownEntry(index: nat)
    | UnknownWord(index: nat, word: nat, count: nat)
    | Unresolved(index: nat, error: AccessError)
    | StaleSource(index: nat, segment: nat)
    | Access(error: AccessError)

  predicate ResolvableEntries(entries: seq<Entry>) {
    forall i :: 0 <= i < |entries| ==> entries[i].Valid()
  }

  ghost predicate EntryResolvable(s: Space, e: Entry) {
    Resolvable(s, e.address, e.ByteCount(), {Read})
  }

  // ----- words and segments -----

  lemma WholePages(x: nat, k: nat)
    requires x % 4096 == 0 && k == x / 4096
    ensures x == 4096 * k
  {
  }

  lemma WholeWords(k: nat)
    ensures (4 * k) % 4 == 0
  {
  }

  lemma PageEndsAtWord(offset: nat, size: nat)
    requires offset % SMALL_PAGE == 0 && size % SMALL_PAGE == 0
    ensures (offset + size) % 4 == 0
  {
    var i, j := offset / 4096, size / 4096;
    WholePages(offset, i);
    WholePages(size, j);
    var k := 1024 * i + 1024 * j;
    WholeWords(k);
    assert offset + size == 4 * k;
  }

  lemma SegmentEndsAtWord(t: Table, segment: ResolvedMapping, hi: nat, permissions: Permissions)
    requires TableOk(t) && SegmentOk(t, segment, hi, permissions) && hi % 4 == 0
    ensures segment.End() % 4 == 0
  {
    var m := segment.mapping;
    assert EntryOk(m.offset, m);
    PageEndsAtWord(m.offset, m.size);
    assert segment.End() == m.End() || segment.End() == hi;
  }

  /** Segments of a word-aligned range start and end at words, so no command word straddles
      two of them. */
  lemma SegmentsKeepWords(s: Space, range: ResolvedRange, i: nat)
    requires TableOk(s.mappings) && Resolves(s, range) && range.offset % 4 == 0 && range.size % 4 == 0
    requires i < |range.segments|
    ensures range.segments[i].gpuOffset % 4 == 0 && range.segments[i].End() % 4 == 0
  {
    hide SegmentOk, TableOk;
    var hi := range.offset + range.size;
    SegmentEndsAtWord(s.mappings, range.segments[i], hi, range.permissions);
    if 0 < i {
      SegmentEndsAtWord(s.mappings, range.segments[i - 1], hi, range.permissions);
      assert range.segments[i - 1].End() == range.segments[i].gpuOffset;
    }
  }

  /** The first segment that holds an address. */
  method SegmentAt(segments: seq<ResolvedMapping>, address: nat) returns (found: Option<nat>)
    ensures found.Some? ==> found.value < |segments|
                            && segments[found.value].gpuOffset <= address < segments[found.value].End()
    ensures found.None? ==> forall i :: 0 <= i < |segments| ==> !(segments[i].gpuOffset <= address < segments[i].End())
  {
    for i := 0 to |segments|
      invariant forall j :: 0 <= j < i ==> !(segments[j].gpuOffset <= address < segments[j].End())
    {
      if segments[i].gpuOffset <= address < segments[i].End() { return Some(i); }
    }
    found := None;
  }

  /** Where a command word comes from: the retained mapping and the word's address. */
  datatype WordSource = WordSource(mapping: Mapping, address: nat, segment: ResolvedMapping)

  ghost predicate Names(p: Pushbuffer, word: nat, source: WordSource) {
    && source.segment in p.source.segments
    && source.mapping == source.segment.mapping
    && source.address == p.entry.address + 4 * word
    && source.segment.gpuOffset <= source.address < source.segment.End()
  }

  /** The retained source of a command word. */
  method WordLocation(submission: Submission, index: nat, word: nat) returns (r: Result<WordSource, SourceError>)
    requires submission.Valid()
    ensures r.Ok? <==> index < |submission.pushbuffers| && word < submission.pushbuffers[index].entry.wordCount
    ensures r.Ok? ==> Names(submission.pushbuffers[index], word, r.value)
    ensures r.Err? ==> r.error.UnknownEntry? || r.error.UnknownWord?
  {
    if |submission.pushbuffers| <= index { return Err(UnknownEntry(index)); }
    var p := submission.pushbuffers[index];
    if p.entry.wordCount <= word { return Err(UnknownWord(index, word, p.entry.wordCount)); }
    var address := p.entry.address + 4 * word;
    ghost var j := FindSegment(p.source.segments, p.source.offset, p.source.offset + p.source.size, address);
    var found := SegmentAt(p.source.segments, address);
    var segment := p.source.segments[found.value];
    r := Ok(WordSource(segment.mapping, address, segment));
  }

  /** The named mapping is the one that translates the whole word, and its bytes are the four
      bytes behind the word's address. */
  lemma NamedMappingTranslates(s: Space, p: Pushbuffer, word: nat, source: WordSource)
    requires TableOk(s.mappings) && p.Valid() && Resolves(s, p.source) && word < p.entry.wordCount
    requires Names(p, word, source)
    ensures source.address + 4 <= source.segment.End()
    ensures forall a :: source.address <= a < source.address + 4 ==>
      && source.mapping.offset in s.mappings
      && s.mappings[source.mapping.offset] == source.mapping
      && Lookup(s.mappings, a) == Some(source.mapping.At(a))
  {
    hide TableOk, Lookup, Mapping.At;
    var i :| 0 <= i < |p.source.segments| && p.source.segments[i] == source.segment;
    assert p.source.offset % 4 == 0 && p.source.size % 4 == 0 && source.address % 4 == 0;
    SegmentsKeepWords(s, p.source, i);
    WordInside(source.address, source.segment.End());
    var hi := p.source.offset + p.source.size;
    assert SegmentOk(s.mappings, source.segment, hi, p.source.permissions);
    forall a | source.address <= a < source.address + 4 ensures Lookup(s.mappings, a) == Some(source.mapping.At(a)) {
      SegmentLookup(s.mappings, source.segment, hi, p.source.permissions, a);
    }
  }

  lemma WordInside(address: nat, end: nat)
    requires address % 4 == 0 && end % 4 == 0 && address < end
    ensures address + 4 <= end
  {
  }

  lemma SegmentLookup(t: Table, segment: ResolvedMapping, hi: int, permissions: Permissions, a: int)
    requires TableOk(t) && SegmentOk(t, segment, hi, permissions) && segment.gpuOffset <= a < segment.End()
    ensures Lookup(t, a) == Some(segment.mapping.At(a))
  {
    LookupAt(t, segment.mapping.offset, a);
  }

  // ----- validation and reading -----

  /** Checks every retained mapping of a submission. */
  method ValidateSources(submission: Submission, space: MaxwellGpuAddressSpace) returns (r: Result<(), SourceError>)
    ensures r.Ok? <==> space.id == submission.addressSpace && submission.AllSourcesCurrent(space.mappings)
    ensures space.id != submission.addressSpace ==> r == Err(WrongSpace(submission.addressSpace, space.id))
  {
    if space.id != submission.addressSpace { return Err(WrongSpace(submission.addressSpace, space.id)); }
    for i := 0 to |submission.pushbuffers|
      invariant forall k :: 0 <= k < i ==> AllCurrent(space.mappings, submission.pushbuffers[k].source)
    {
      var segments := submission.pushbuffers[i].source.segments;
      for j := 0 to |segments|
        invariant forall k :: 0 <= k < j ==> IsCurrent(space.mappings, segments[k].mapping)
      {
        if !IsCurrent(space.mappings, segments[j].mapping) { return Err(StaleSource(i, j)); }
      }
    }
    r := Ok(());
  }

  /** A resolved submission passes validation in the state it was resolved in. */
  lemma FreshSourcesAreCurrent(s: Space, submission: Submission)
    requires submission.ResolvedIn(s)
    ensures submission.AllSourcesCurrent(s.mappings)
  {
    forall i | 0 <= i < |submission.pushbuffers| ensures AllCurrent(s.mappings, submission.pushbuffers[i].source) {
      var range := submission.pushbuffers[i].source;
      forall j | 0 <= j < |range.segments| ensures IsCurrent(s.mappings, range.segments[j].mapping) {
        assert SegmentOk(s.mappings, range.segments[j], range.offset + range.size, range.permissions);
      }
    }
  }

  /** Resolves every entry or none. A failure names the first entry that cannot be read. */
  method ResolveSubmission(bound: Option<U64>, entries: seq<Entry>, space: MaxwellGpuAddressSpace)
    returns (r: Result<Submission, SourceError>)
    requires space.View().Valid() && ResolvableEntries(entries)
    ensures r.Ok? <==> bound == Some(space.id) && forall i :: 0 <= i < |entries| ==> EntryResolvable(space.View(), entries[i])
    ensures r.Ok? ==> r.value.Valid() && r.value.ResolvedIn(space.View())
    ensures r.Ok? ==> |r.value.pushbuffers| == |entries|
                      && forall i :: 0 <= i < |entries| ==> r.value.pushbuffers[i].entry == entries[i]
    ensures r.Err? && r.error.Unresolved? ==>
      && r.error.index < |entries|
      && !EntryResolvable(space.View(), entries[r.error.index])
      && forall i :: 0 <= i < r.error.index ==> EntryResolvable(space.View(), entries[i])
  {
    if bound.None? { return Err(ChannelAddressSpaceUnbound); }
    if bound.value != space.id { return Err(WrongSpace(bound.value, space.id)); }
    var pushbuffers: seq<Pushbuffer> := [];
    for i := 0 to |entries|
      invariant |pushbuffers| == i
      invariant forall j :: 0 <= j < i ==>
        && EntryResolvable(space.View(), entries[j])
        && pushbuffers[j].entry == entries[j]
        && pushbuffers[j].Valid()
        && Resolves(space.View(), pushbuffers[j].source)
    {
      var source := space.ResolveRange(entries[i].address, entries[i].ByteCount(), {Read});
      if source.Err? { return Err(Unresolved(i, source.error)); }
      pushbuffers := pushbuffers + [Pushbuffer(entries[i], source.value)];
    }
    var submission := Submission(space.id, pushbuffers);
    FreshSourcesAreCurrent(space.View(), submission);
    var validated := ValidateSources(submission, space);
    assert validated.Ok?;
    r := Ok(submission);
  }

  /** Reads one entry after checking every source of the submission. */
  method ReadPushbuffer(
    submission: Submission, space: MaxwellGpuAddressSpace, index: nat, memory: Memory, output: array<U8>)
    returns (r: Result<(), SourceError>)
    requires submission.Valid()
    modifies output
    ensures r.Err? ==> output[..] == old(output[..])
    ensures r.Ok? <==> && space.id == submission.addressSpace
                       && submission.AllSourcesCurrent(space.mappings)
                       && index < |submission.pushbuffers|
                       && output.Length == submission.pushbuffers[index].source.size
    ensures r.Ok? ==> output[..] == RetainedBytes(memory, submission.pushbuffers[index].source)
  {
    r := ValidateSources(submission, space);
    if r.Err? { return; }
    if |submission.pushbuffers| <= index { return Err(UnknownEntry(index)); }
    var read := space.ReadResolved(submission.pushbuffers[index].source, memory, output);
    r := if read.Ok? then Ok(()) else Err(Access(read.error));
  }

  lemma HistoryValid(h: seq<Space>, j: nat)
    requires History(h) && j < |h|
    ensures h[j].Valid() && TableOk(h[j].mappings)
  {
  }

  /** A submission resolved in one state that passes validation in a later one is what resolving
      its entries again would give, and its words read what a fresh access would read. */
  lemma RetainedSubmissionIsFresh(h: seq<Space>, i: nat, j: nat, submission: Submission, index: nat, memory: Memory)
    requires History(h) && i <= j < |h| && submission.Valid() && submission.ResolvedIn(h[i])
    requires submission.AllSourcesCurrent(h[j].mappings) && index < |submission.pushbuffers|
    ensures submission.ResolvedIn(h[j])
    ensures var range := submission.pushbuffers[index].source;
      forall n :: 0 <= n < range.size ==>
        RetainedBytes(memory, range)[n] == FreshByte(h[j].mappings, memory, range.offset + n)
  {
    hide Resolves, History, RetainedBytes, FreshByte;
    assert h[j].Valid() by { HistoryValid(h, j); }
    CountersGrow(h, i, j);
    forall k | 0 <= k < |submission.pushbuffers| ensures Resolves(h[j], submission.pushbuffers[k].source) {
      RetainedRangeIsFresh(h, i, j, submission.pushbuffers[k].source);
    }
    RetainedBytesAreFresh(h[j], memory, submission.pushbuffers[index].source);
  }
}
