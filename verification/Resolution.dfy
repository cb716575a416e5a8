/** Resolved GPU ranges: the retained mapping segments that a range was translated to, and
    the four-field check that later accesses repeat. */
module Resolution {
  import opened Canonical
  import opened MappingTable
  import opened Ordering
  import opened SpaceState

  datatype AccessError =
    | Uninitialized
    | EmptyRange
    | InvalidPermissions
    | AddressOutOfRange
    | WrongAddressSpace(owner: U64, space: U64)
    | UnmappedAddress(address: Address)
    | PermissionDenied(address: Address, required: Permissions, available: Permissions)
    | OutputSizeMismatch(expected: nat, actual: nat)
    | StaleMapping(mapping: U64, generation: U64)

  /** A contiguous part of one retained mapping. */
  datatype ResolvedMapping = ResolvedMapping(gpuOffset: Address, size: nat, backingOffset: nat, mapping: Mapping) {
    function End(): nat {
      gpuOffset + size
    }

    /** The bytes lie inside the retained canonical backing. */
    predicate Backed() {
      0 < size && backingOffset + size <= mapping.backing.Size()
    }

    /** The canonical bytes of the segment. */
    function Bytes(): seq<Location>
      requires Backed()
    {
      mapping.backing.Span(backingOffset, size)
    }

    function At(i: nat): Location
      requires Backed() && i < size
    {
      mapping.backing.At(backingOffset + i)
    }
  }

  datatype ResolvedRange = ResolvedRange(
    addressSpace: U64, offset: Address, size: nat, permissions: Permissions, segments: seq<ResolvedMapping>)
  {
    /** The segments follow each other over exactly the range. */
    ghost predicate WellFormed() {
      && 0 < size
      && offset + size <= ADDRESS_LIMIT
      && Chained(segments, offset, offset + size)
    }

    /** The canonical bytes behind the range, in order. */
    function Bytes(): (l: seq<Location>)
      requires WellFormed()
      ensures |l| == size
    {
      ChainedSize(segments, offset, offset + size);
      SegmentLocations(segments)
    }

    function At(i: nat): Location
      requires WellFormed() && i < size
    {
      Bytes()[i]
    }
  }

  predicate AllBacked(segments: seq<ResolvedMapping>) {
    forall i :: 0 <= i < |segments| ==> segments[i].Backed()
  }

  /** The segments are laid end to end from `lo` to `hi`. */
  ghost predicate Chained(segments: seq<ResolvedMapping>, lo: int, hi: int) {
    && AllBacked(segments)
    && (segments == [] ==> lo == hi)
    && (segments != [] ==> segments[0].gpuOffset == lo && segments[|segments| - 1].End() == hi)
    && (forall i, j :: 0 <= i < j < |segments| && j == i + 1 ==> segments[i].End() == segments[j].gpuOffset)
  }

  function SegmentBytes(segments: seq<ResolvedMapping>): nat {
    if segments == [] then 0 else segments[0].size + SegmentBytes(segments[1..])
  }

  function SegmentLocations(segments: seq<ResolvedMapping>): (l: seq<Location>)
    requires AllBacked(segments)
    ensures |l| == SegmentBytes(segments)
  {
    if segments == [] then [] else segments[0].Bytes() + SegmentLocations(segments[1..])
  }

  lemma ChainedTail(segments: seq<ResolvedMapping>, lo: int, hi: int)
    requires Chained(segments, lo, hi) && segments != []
    ensures Chained(segments[1..], lo + segments[0].size, hi)
  {
    var tail := segments[1..];
    forall i, j | 0 <= i < j < |tail| && j == i + 1 ensures tail[i].End() == tail[j].gpuOffset {
      assert segments[i + 1].End() == segments[j + 1].gpuOffset;
    }
  }

  lemma {:induction false} ChainedSize(segments: seq<ResolvedMapping>, lo: int, hi: int)
    requires Chained(segments, lo, hi)
    ensures SegmentBytes(segments) == hi - lo
  {
    if segments != [] {
      ChainedTail(segments, lo, hi);
      ChainedSize(segments[1..], lo + segments[0].size, hi);
    }
  }

  lemma {:induction false} ChainedLow(segments: seq<ResolvedMapping>, lo: int, hi: int, i: int)
    requires Chained(segments, lo, hi) && 0 <= i < |segments|
    ensures lo <= segments[i].gpuOffset
  {
    if 0 < i {
      ChainedLow(segments, lo, hi, i - 1);
      assert segments[i - 1].End() == segments[i].gpuOffset;
    }
  }

  lemma {:induction false} ChainedHigh(segments: seq<ResolvedMapping>, lo: int, hi: int, i: int)
    requires Chained(segments, lo, hi) && 0 <= i < |segments|
    ensures segments[i].End() <= hi
    decreases |segments| - i
  {
    if i < |segments| - 1 {
      ChainedHigh(segments, lo, hi, i + 1);
      assert segments[i].End() == segments[i + 1].gpuOffset;
    }
  }

  /** Every address of a chained range lies in one segment. */
  lemma {:induction false} FindSegment(segments: seq<ResolvedMapping>, lo: int, hi: int, a: int) returns (i: nat)
    requires Chained(segments, lo, hi) && lo <= a < hi
    ensures i < |segments| && segments[i].gpuOffset <= a < segments[i].End()
  {
    if a < segments[0].End() {
      i := 0;
    } else {
      ChainedTail(segments, lo, hi);
      i := FindSegment(segments[1..], segments[0].End(), hi, a);
      i := i + 1;
    }
  }

  lemma HeadLocations(segments: seq<ResolvedMapping>, lo: int, hi: int, all: seq<Location>, head: seq<Location>)
    requires Chained(segments, lo, hi) && segments != []
    requires all == SegmentLocations(segments) && head == segments[0].Bytes()
    ensures all == head + SegmentLocations(segments[1..]) && |head| == segments[0].size
    ensures segments[0].gpuOffset == lo && |all| == hi - lo
  {
    ChainedSize(segments, lo, hi);
  }

  /** The bytes between two addresses of a chained range. */
  ghost predicate BytesBetween(all: seq<Location>, lo: int, from: int, end: int, part: seq<Location>) {
    0 <= from - lo <= end - lo <= |all| && all[from - lo..end - lo] == part
  }

  lemma BetweenHead(all: seq<Location>, head: seq<Location>, rest: seq<Location>, lo: int, end: int)
    requires all == head + rest && |head| == end - lo
    ensures BytesBetween(all, lo, lo, end, head)
  {
  }

  lemma BetweenRest(
    all: seq<Location>, head: seq<Location>, rest: seq<Location>, lo: int, mid: int, from: int, end: int,
    part: seq<Location>)
    requires all == head + rest && |head| == mid - lo && BytesBetween(rest, mid, from, end, part)
    ensures BytesBetween(all, lo, from, end, part)
  {
    assert all[from - lo..end - lo] == rest[from - mid..end - mid];
  }

  lemma {:induction false} SegmentBetween(segments: seq<ResolvedMapping>, lo: int, hi: int, i: nat)
    requires Chained(segments, lo, hi) && i < |segments|
    ensures BytesBetween(SegmentLocations(segments), lo, segments[i].gpuOffset, segments[i].End(), segments[i].Bytes())
  {
    ChainedTail(segments, lo, hi);
    hide SegmentLocations, ResolvedMapping.Bytes, BytesBetween;
    var all, head, rest := SegmentLocations(segments), segments[0].Bytes(), SegmentLocations(segments[1..]);
    HeadLocations(segments, lo, hi, all, head);
    var mid := segments[0].End();
    if i == 0 {
      BetweenHead(all, head, rest, lo, mid);
    } else {
      SegmentBetween(segments[1..], mid, hi, i - 1);
      assert segments[1..][i - 1] == segments[i];
      BetweenRest(all, head, rest, lo, mid, segments[i].gpuOffset, segments[i].End(), segments[i].Bytes());
    }
  }

  /** The bytes of segment `i` are where its address puts them. */
  lemma SegmentSlice(segments: seq<ResolvedMapping>, lo: int, hi: int, i: nat)
    requires Chained(segments, lo, hi) && i < |segments|
    ensures lo <= segments[i].gpuOffset && segments[i].End() <= hi && SegmentBytes(segments) == hi - lo
    ensures SegmentLocations(segments)[segments[i].gpuOffset - lo..segments[i].End() - lo] == segments[i].Bytes()
  {
    ChainedSize(segments, lo, hi);
    SegmentBetween(segments, lo, hi, i);
  }

  // ----- resolution against a table -----

  lemma GreatestExists(keys: set<int>)
    requires keys != {}
    ensures exists k :: k in keys && forall j :: j in keys ==> j <= k
  {
    var k := Greatest(keys);
  }

  /** The last entry that starts at or before `a`. */
  function Predecessor(t: Table, a: int): (k: Option<int>)
    ensures k.None? ==> forall j :: j in t ==> a < j
    ensures k.Some? ==> k.value in t && k.value <= a && forall j :: j in t && j <= a ==> j <= k.value
  {
    var below := set j | j in t && j <= a;
    if below == {} then
      assert forall j :: j in t && j <= a ==> j in below;
      None
    else
      GreatestExists(below);
      var k :| k in below && forall j :: j in below ==> j <= k;
      assert forall j :: j in t && j <= a ==> j in below;
      Some(k)
  }

  /** Looking only at the predecessor agrees with scanning every mapping. */
  lemma PredecessorAgrees(t: Table, a: int)
    requires TableOk(t)
    ensures Mapped(t, a) <==> Predecessor(t, a).Some? && t[Predecessor(t, a).value].Covers(a)
  {
    if Mapped(t, a) {
      var k :| k in t && t[k].Covers(a);
      assert EntryOk(k, t[k]);
    }
  }

  ghost predicate Accessible(t: Table, a: int, permissions: Permissions) {
    Lookup(t, a).Some? && permissions <= Lookup(t, a).value.permissions
  }

  /** A segment is the longest part of a live mapping that starts at its address and stays
      below `hi`. */
  ghost predicate SegmentOk(t: Table, segment: ResolvedMapping, hi: int, permissions: Permissions) {
    var m := segment.mapping;
    && m.offset in t && t[m.offset] == m
    && m.Covers(segment.gpuOffset)
    && segment.backingOffset == m.backingOffset + (segment.gpuOffset - m.offset)
    && segment.size == Min(m.End(), hi) - segment.gpuOffset
    && permissions <= m.permissions
  }

  ghost predicate SegmentsOk(t: Table, segments: seq<ResolvedMapping>, hi: int, permissions: Permissions) {
    forall i :: 0 <= i < |segments| ==> SegmentOk(t, segments[i], hi, permissions)
  }

  /** `range` is what resolving its own extent in `s` returns. */
  ghost predicate Resolves(s: Space, range: ResolvedRange) {
    && range.addressSpace == s.id
    && range.WellFormed()
    && range.permissions != {}
    && SegmentsOk(s.mappings, range.segments, range.offset + range.size, range.permissions)
  }

  lemma SegmentBacked(t: Table, segment: ResolvedMapping, hi: int, permissions: Permissions)
    requires TableOk(t) && SegmentOk(t, segment, hi, permissions) && segment.gpuOffset < hi
    ensures segment.Backed() && segment.End() <= segment.mapping.End()
  {
    assert EntryOk(segment.mapping.offset, segment.mapping);
  }

  lemma SegmentIsUnique(t: Table, x: ResolvedMapping, y: ResolvedMapping, hi: int, permissions: Permissions)
    requires TableOk(t) && SegmentOk(t, x, hi, permissions) && SegmentOk(t, y, hi, permissions)
    requires x.gpuOffset == y.gpuOffset
    ensures x == y
  {
    CoverIsUnique(t, x.mapping.offset, y.mapping.offset, x.gpuOffset);
  }

  lemma {:induction false} PrefixIsUnique(
    t: Table, x: seq<ResolvedMapping>, y: seq<ResolvedMapping>, lo: int, hi: int, permissions: Permissions, i: nat)
    requires TableOk(t) && Chained(x, lo, hi) && Chained(y, lo, hi)
    requires SegmentsOk(t, x, hi, permissions) && SegmentsOk(t, y, hi, permissions)
    requires i < |x| && i < |y|
    ensures x[i] == y[i]
  {
    if 0 < i {
      PrefixIsUnique(t, x, y, lo, hi, permissions, i - 1);
      assert x[i - 1].End() == x[i].gpuOffset && y[i - 1].End() == y[i].gpuOffset;
    }
    SegmentIsUnique(t, x[i], y[i], hi, permissions);
  }

  lemma NoLongerTiling(
    t: Table, x: seq<ResolvedMapping>, y: seq<ResolvedMapping>, lo: int, hi: int, permissions: Permissions)
    requires TableOk(t) && Chained(x, lo, hi) && Chained(y, lo, hi) && lo < hi
    requires SegmentsOk(t, x, hi, permissions) && SegmentsOk(t, y, hi, permissions)
    ensures |y| <= |x|
  {
    if |x| < |y| {
      PrefixIsUnique(t, x, y, lo, hi, permissions, |x| - 1);
      assert y[|x| - 1].End() == y[|x|].gpuOffset;
      ChainedHigh(y, lo, hi, |x|);
    }
  }

  /** A table resolves a range in one way only. */
  lemma ResolutionIsUnique(s: Space, x: ResolvedRange, y: ResolvedRange)
    requires TableOk(s.mappings) && Resolves(s, x) && Resolves(s, y)
    requires x.offset == y.offset && x.size == y.size && x.permissions == y.permissions
    ensures x == y
  {
    hide TableOk, Chained, SegmentsOk;
    var lo, hi := x.offset, x.offset + x.size;
    NoLongerTiling(s.mappings, x.segments, y.segments, lo, hi, x.permissions);
    NoLongerTiling(s.mappings, y.segments, x.segments, lo, hi, x.permissions);
    forall i | 0 <= i < |x.segments| ensures x.segments[i] == y.segments[i] {
      PrefixIsUnique(s.mappings, x.segments, y.segments, lo, hi, x.permissions, i);
    }
  }

  /** The canonical byte behind a mapped address. */
  ghost function ByteBehind(t: Table, a: int): Location
    requires TableOk(t) && Lookup(t, a).Some?
  {
    TranslationInBounds(t, a);
    Lookup(t, a).value.backing.At(Lookup(t, a).value.byte)
  }

  /** What an access through the table reads at a mapped address. */
  ghost function FreshByte(t: Table, memory: Memory, a: int): U8 {
    if TableOk(t) && Lookup(t, a).Some? then ByteAt(memory, ByteBehind(t, a)) else 0
  }

  lemma TranslationInBounds(t: Table, a: int)
    requires TableOk(t) && Lookup(t, a).Some?
    ensures 0 <= Lookup(t, a).value.byte < Lookup(t, a).value.backing.Size()
  {
    var k :| k in t && t[k].Covers(a);
    LookupAt(t, k, a);
    assert EntryOk(k, t[k]);
  }

  lemma SegmentMeans(t: Table, segment: ResolvedMapping, hi: int, permissions: Permissions, a: int)
    requires TableOk(t) && SegmentOk(t, segment, hi, permissions) && segment.Backed()
    requires segment.gpuOffset <= a < segment.End()
    ensures Accessible(t, a, permissions)
    ensures ByteBehind(t, a) == segment.At(a - segment.gpuOffset)
  {
    LookupAt(t, segment.mapping.offset, a);
  }

  lemma ResolvedAccess(s: Space, range: ResolvedRange, a: int)
    requires TableOk(s.mappings) && Resolves(s, range) && range.offset <= a < range.offset + range.size
    ensures Accessible(s.mappings, a, range.permissions)
  {
    var j := FindSegment(range.segments, range.offset, range.offset + range.size, a);
    var segment := range.segments[j];
    assert SegmentOk(s.mappings, segment, range.offset + range.size, range.permissions);
    SegmentMeans(s.mappings, segment, range.offset + range.size, range.permissions, a);
  }

  /** A resolved range gives every address the byte and the rights that the table gives it. */
  lemma ResolvedMeans(s: Space, range: ResolvedRange, a: int)
    requires TableOk(s.mappings) && Resolves(s, range) && range.offset <= a < range.offset + range.size
    ensures Accessible(s.mappings, a, range.permissions)
    ensures range.At(a - range.offset) == ByteBehind(s.mappings, a)
  {
    hide TableOk, Chained, SegmentLocations;
    ResolvedAccess(s, range, a);
    var j := RangeByte(range, a - range.offset);
    var segment := range.segments[j];
    assert SegmentOk(s.mappings, segment, range.offset + range.size, range.permissions);
    SegmentMeans(s.mappings, segment, range.offset + range.size, range.permissions, a);
  }

  lemma RangeByte(range: ResolvedRange, i: nat) returns (j: nat)
    requires range.WellFormed() && i < range.size
    ensures j < |range.segments| && range.segments[j].Backed()
    ensures range.segments[j].gpuOffset <= range.offset + i < range.segments[j].End()
    ensures range.At(i) == range.segments[j].At(range.offset + i - range.segments[j].gpuOffset)
  {
    j := FindSegment(range.segments, range.offset, range.offset + range.size, range.offset + i);
    SegmentByte(range, j, range.offset + i - range.segments[j].gpuOffset);
  }

  /** Byte `n` of segment `i`, counted from the start of the range. */
  lemma SegmentByte(range: ResolvedRange, i: nat, n: nat)
    requires range.WellFormed() && i < |range.segments| && n < range.segments[i].size
    ensures 0 <= range.segments[i].gpuOffset - range.offset
    ensures range.segments[i].End() <= range.offset + range.size
    ensures range.At(range.segments[i].gpuOffset - range.offset + n) == range.segments[i].At(n)
  {
    SegmentSlice(range.segments, range.offset, range.offset + range.size, i);
    SliceAt(range.Bytes(), range.segments[i].gpuOffset - range.offset, range.segments[i].End() - range.offset, n);
  }

  ghost predicate FailsAt(t: Table, error: AccessError, a: int, permissions: Permissions) {
    match error
    case UnmappedAddress(address) => address == a && Lookup(t, a).None?
    case PermissionDenied(address, required, available) =>
      && address == a && required == permissions
      && Lookup(t, a).Some? && available == Lookup(t, a).value.permissions && !(permissions <= available)
    case _ => false
  }

  /** The longest suffix of a live mapping that starts at `offset`. */
  function ResolveMaximal(s: Space, offset: Address, permissions: Permissions): (r: Result<ResolvedMapping, AccessError>)
    requires TableOk(s.mappings)
    ensures r.Ok? <==> s.regions.Some? && permissions != {} && Accessible(s.mappings, offset, permissions)
    ensures r.Ok? ==> r.value.gpuOffset == offset
                      && SegmentOk(s.mappings, r.value, r.value.mapping.End(), permissions)
    ensures r.Err? && s.regions.Some? && permissions != {} ==> FailsAt(s.mappings, r.error, offset, permissions)
  {
    if s.regions.None? then Err(Uninitialized)
    else if permissions == {} then Err(InvalidPermissions)
    else
      var k := Predecessor(s.mappings, offset);
      PredecessorAgrees(s.mappings, offset);
      if k.None? || !s.mappings[k.value].Covers(offset) then Err(UnmappedAddress(offset))
      else
        LookupAt(s.mappings, k.value, offset);
        assert EntryOk(k.value, s.mappings[k.value]);
        var m := s.mappings[k.value];
        if !(permissions <= m.permissions) then Err(PermissionDenied(offset, permissions, m.permissions))
        else Ok(ResolvedMapping(offset, m.End() - offset, m.backingOffset + (offset - m.offset), m))
  }

  /** Exactly when a whole range resolves. */
  ghost predicate Resolvable(s: Space, offset: int, size: int, permissions: Permissions) {
    && s.regions.Some?
    && permissions != {}
    && 0 < size
    && offset + size <= ADDRESS_LIMIT
    && forall a :: offset <= a < offset + size ==> Accessible(s.mappings, a, permissions)
  }

  /** The error names the least address of the range that is unmapped or denied. */
  ghost predicate LeastFailure(s: Space, offset: int, size: int, permissions: Permissions, error: AccessError) {
    exists a :: && offset <= a < offset + size
                && FailsAt(s.mappings, error, a, permissions)
                && forall b :: offset <= b < a ==> Accessible(s.mappings, b, permissions)
  }

  /** Cutting a maximal segment at `hi`. */
  lemma ClippedSegment(t: Table, segment: ResolvedMapping, hi: int, permissions: Permissions)
    requires TableOk(t) && SegmentOk(t, segment, segment.mapping.End(), permissions) && segment.gpuOffset < hi
    ensures var cut := segment.(size := Min(segment.size, hi - segment.gpuOffset));
      && SegmentOk(t, cut, hi, permissions) && cut.Backed() && cut.End() <= hi
      && (forall a :: cut.gpuOffset <= a < cut.End() ==> Accessible(t, a, permissions))
  {
    var cut := segment.(size := Min(segment.size, hi - segment.gpuOffset));
    SegmentBacked(t, cut, hi, permissions);
    forall a | cut.gpuOffset <= a < cut.End() ensures Accessible(t, a, permissions) {
      SegmentMeans(t, cut, hi, permissions, a);
    }
  }

  lemma ChainedAppend(segments: seq<ResolvedMapping>, lo: int, hi: int, segment: ResolvedMapping)
    requires Chained(segments, lo, hi) && segment.gpuOffset == hi && segment.Backed()
    ensures Chained(segments + [segment], lo, segment.End())
  {
  }

  /** The part of the range below `at` has been resolved. */
  ghost predicate Resolving(t: Table, segments: seq<ResolvedMapping>, lo: int, at: int, hi: int, permissions: Permissions) {
    && lo <= at <= hi
    && Chained(segments, lo, at)
    && SegmentsOk(t, segments, hi, permissions)
    && forall a :: lo <= a < at ==> Accessible(t, a, permissions)
  }

  lemma ResolveStep(
    t: Table, segments: seq<ResolvedMapping>, lo: int, at: int, hi: int, permissions: Permissions, maximal: ResolvedMapping)
    requires TableOk(t) && Resolving(t, segments, lo, at, hi, permissions) && at < hi
    requires maximal.gpuOffset == at && SegmentOk(t, maximal, maximal.mapping.End(), permissions)
    ensures var cut := maximal.(size := Min(maximal.size, hi - at));
      at < cut.End() && Resolving(t, segments + [cut], lo, cut.End(), hi, permissions)
  {
    ClippedSegment(t, maximal, hi, permissions);
    ChainedAppend(segments, lo, at, maximal.(size := Min(maximal.size, hi - at)));
  }

  function CheckRange(s: Space, offset: Address, size: U64, permissions: Permissions): Result<(), AccessError> {
    if s.regions.None? then Err(Uninitialized)
    else if permissions == {} then Err(InvalidPermissions)
    else if size == 0 then Err(EmptyRange)
    else if ADDRESS_LIMIT < offset + size then Err(AddressOutOfRange)
    else Ok(())
  }

  // ----- rights -----

  /** Every backing behind the range grants the access. */
  ghost predicate Granted(range: ResolvedRange, access: Access) {
    forall i :: 0 <= i < |range.segments| ==> range.segments[i].mapping.backing.Grants({access})
  }

  /** A range resolved with a right may use it. */
  lemma ResolvedGrants(s: Space, range: ResolvedRange, access: Access)
    requires TableOk(s.mappings) && Resolves(s, range) && access in range.permissions
    ensures Granted(range, access)
  {
    forall i | 0 <= i < |range.segments| ensures range.segments[i].mapping.backing.Grants({access}) {
      var m := range.segments[i].mapping;
      assert SegmentOk(s.mappings, range.segments[i], range.offset + range.size, range.permissions);
      assert EntryOk(m.offset, m);
    }
  }

  // ----- revalidation -----

  /** The check repeated before every access through a retained mapping. */
  predicate IsCurrent(t: Table, retained: Mapping) {
    && retained.offset in t
    && t[retained.offset].id == retained.id
    && t[retained.offset].generation == retained.generation
    && t[retained.offset].offset == retained.offset
    && t[retained.offset].size == retained.size
  }

  predicate AllCurrent(t: Table, range: ResolvedRange) {
    forall i :: 0 <= i < |range.segments| ==> IsCurrent(t, range.segments[i].mapping)
  }

  /** The bytes a retained range reads, through the backing it retained. */
  function RetainedBytes(memory: Memory, range: ResolvedRange): seq<U8>
    requires range.WellFormed()
  {
    seq(range.size, i requires 0 <= i < range.size => ByteAt(memory, range.At(i)))
  }

  lemma RetainedBytesAreFresh(s: Space, memory: Memory, range: ResolvedRange)
    requires TableOk(s.mappings) && Resolves(s, range)
    ensures forall n :: 0 <= n < range.size ==>
      RetainedBytes(memory, range)[n] == FreshByte(s.mappings, memory, range.offset + n)
  {
    hide TableOk, Chained, SegmentsOk, ByteBehind;
    forall n | 0 <= n < range.size
      ensures RetainedBytes(memory, range)[n] == FreshByte(s.mappings, memory, range.offset + n)
    {
      ResolvedMeans(s, range, range.offset + n);
    }
  }
}
