/** The Maxwell GPU address space: allocation of address ranges, the mapping operations
    and the resolution of GPU ranges into retained mapping segments. */
module AddressSpace {
  import opened Canonical
  import opened MappingTable
  import opened Ordering
  import opened SpaceState
  import opened TableEdits
  import opened SpaceOperations
  import opened SparseRemap
  import opened Resolution

  class MaxwellGpuAddressSpace {
    const id: U64
    var regions: Option<Regions>
    var reservations: Reservations
    var mappings: Table
    var nextMappingId: U64
    var mappingGeneration: U64

    function View(): Space
      reads this
    {
      Space(id, regions, reservations, mappings, nextMappingId, mappingGeneration)
    }

    constructor (id: U64)
      ensures View() == Space(id, None, map[], map[], 1, 0) && View().Valid()
    {
      this.id := id;
      regions := None;
      reservations := map[];
      mappings := map[];
      nextMappingId := 1;
      mappingGeneration := 0;
    }

    /** Establishes the small-page and big-page regions, once. */
    method Initialize(request: Initialization) returns (r: Result<(), SpaceError>)
      requires View().Valid()
      modifies this
      ensures View().Valid() && Evolves(old(View()), View())
      ensures r.Err? ==> View() == old(View())
      ensures r.Ok? <==> old(regions).None? && request.Acceptable()
      ensures r.Ok? ==> View() == old(View()).(regions := regions) && request.Selects(regions)
    {
      if regions.Some? { return Err(AlreadyInitialized); }
      var big := request.BigPage();
      if big != 0x10000 && big != 0x20000 { return Err(InvalidBigPageSize(big)); }
      var start, split, end := request.start, request.split, request.end;
      if !request.Explicit() {
        start, split, end := big * 1024, DEFAULT_VA_SPLIT, DEFAULT_VA_END;
      }
      if split <= start || end <= split || start % SMALL_PAGE != 0
         || !PageAligned(split, big) || !PageAligned(end, big) || ADDRESS_LIMIT < end {
        return Err(InvalidGeometry);
      }
      regions := Some(Regions(Region(start, SMALL_PAGE, split - start), Region(split, big, end - split)));
      r := Ok(());
    }

    /** The greatest end of the reservations that meet `lo..hi`. */
    method ReservedEnd(lo: int, hi: int) returns (end: Option<U64>)
      requires View().Valid()
      ensures end.None? ==> OutsideReservations(reservations, lo, hi)
      ensures end.Some? ==> end.value <= ADDRESS_LIMIT && Blocked(View(), lo, hi, end.value)
      ensures end.Some? ==> ReservationsEndBy(reservations, lo, hi, end.value)
    {
      end := None;
      hide Space.Valid, Blocked;
      var rs := Ascending(reservations.Keys);
      for i := 0 to |rs|
        invariant end.None? ==> forall j :: 0 <= j < i ==> !reservations[rs[j]].Overlaps(lo, hi)
        invariant end.Some? ==> end.value <= ADDRESS_LIMIT && Blocked(View(), lo, hi, end.value)
        invariant end.Some? ==>
          forall j :: 0 <= j < i && reservations[rs[j]].Overlaps(lo, hi) ==> reservations[rs[j]].End() <= end.value
      {
        var r := reservations[rs[i]];
        if r.Overlaps(lo, hi) {
          OccupiedEnd(View(), rs[i], lo, hi);
          end := Some(if end.None? then r.End() else Max(end.value, r.End()));
        }
      }
    }

    /** The greatest end of the mappings that meet `lo..hi`. */
    method MappedEnd(lo: int, hi: int) returns (end: Option<U64>)
      requires View().Valid()
      ensures end.None? ==> MappingTable.Free(mappings, lo, hi)
      ensures end.Some? ==> end.value <= ADDRESS_LIMIT && Blocked(View(), lo, hi, end.value)
      ensures end.Some? ==> MappingsEndBy(mappings, lo, hi, end.value)
    {
      end := None;
      hide Space.Valid, Blocked;
      var ms := Ascending(mappings.Keys);
      for i := 0 to |ms|
        invariant end.None? ==> forall j :: 0 <= j < i ==> !mappings[ms[j]].Overlaps(lo, hi)
        invariant end.Some? ==> end.value <= ADDRESS_LIMIT && Blocked(View(), lo, hi, end.value)
        invariant end.Some? ==>
          forall j :: 0 <= j < i && mappings[ms[j]].Overlaps(lo, hi) ==> mappings[ms[j]].End() <= end.value
      {
        var m := mappings[ms[i]];
        if m.Overlaps(lo, hi) {
          OccupiedEnd(View(), ms[i], lo, hi);
          end := Some(if end.None? then m.End() else Max(end.value, m.End()));
        }
      }
    }

    /** The greatest end of the occupied ranges that meet `lo..hi`. */
    method OverlappingEnd(lo: int, hi: int) returns (end: Option<U64>)
      requires View().Valid()
      ensures end.None? ==> Unoccupied(View(), lo, hi)
      ensures end.Some? ==> end.value <= ADDRESS_LIMIT && Blocked(View(), lo, hi, end.value)
      ensures end.Some? ==>
        ReservationsEndBy(reservations, lo, hi, end.value) && MappingsEndBy(mappings, lo, hi, end.value)
    {
      hide Space.Valid, Blocked;
      var reserved := ReservedEnd(lo, hi);
      var mapped := MappedEnd(lo, hi);
      if reserved.None? {
        end := mapped;
      } else if mapped.None? {
        end := reserved;
      } else {
        end := Some(Max(reserved.value, mapped.value));
      }
    }

    /** First fit is exact: the least aligned address whose whole range lies in the region
        and avoids every reservation and mapping, and nothing only when there is none. */
    method FindFirstFit(region: Region, size: U64, alignment: U64) returns (r: Result<Option<U64>, SpaceError>)
      requires View().Valid() && regions.Some? && regions.value.Has(region)
      requires 0 < size && 0 < alignment
      ensures r.Ok? && r.value.Some? ==> LeastFit(View(), region, size, alignment, r.value.value)
      ensures r.Err? || r.value.None? ==> !HasFit(View(), region, size, alignment)
      ensures r.Err? ==> r.error == ArithmeticOverflow
    {
      var first := AlignUp(region.offset, alignment);
      if first.Err? {
        NoFitPast(View(), region, size, alignment, region.offset);
        return Err(ArithmeticOverflow);
      }
      NoFitBelow(View(), region, size, alignment, region.offset);
      var candidate := first.value;
      while true
        invariant region.offset <= candidate && candidate % alignment == 0
        invariant forall c :: Fits(View(), region, size, alignment, c) ==> candidate <= c
        decreases Max(0, region.End() - candidate)
      {
        if U64_LIMIT <= candidate + size { return Err(ArithmeticOverflow); }
        if region.End() < candidate + size { return Ok(None); }
        var end := OverlappingEnd(candidate, candidate + size);
        if end.None? {
          return Ok(Some(candidate));
        }
        NoFitAcross(View(), region, size, alignment, candidate, end.value);
        var next := AlignUp(end.value, alignment);
        if next.Err? {
          NoFitPast(View(), region, size, alignment, end.value);
          return Err(ArithmeticOverflow);
        }
        candidate := next.value;
      }
    }

    /** The fixed offset asked for, or the first fit. */
    method PlaceReservation(region: Region, size: U64, pageSize: U32, fixed: bool, at: U64)
      returns (r: Result<U64, SpaceError>)
      requires View().Valid() && regions.Some? && PageSize(pageSize) && RegionFor(regions.value, pageSize) == Some(region)
      requires 0 < size
      ensures r.Ok? <==>
        if fixed then Fits(View(), region, size, pageSize, at)
        else && IsPowerOfTwo(Max(at, pageSize))
             && Max(at, pageSize) % pageSize == 0
             && HasFit(View(), region, size, Max(at, pageSize))
      ensures r.Ok? ==> Fits(View(), region, size, pageSize, r.value)
      ensures r.Ok? ==> if fixed then r.value == at else LeastFit(View(), region, size, Max(at, pageSize), r.value)
    {
      hide TableOk, ReservationsOk, Settled, OneLifetimePerId, Counted, EntryOk, IsPowerOfTwo;
      if fixed {
        PageRemainder(at, pageSize);
        if !PageAligned(at, pageSize) { return Err(MisalignedAddress(at, pageSize)); }
        if U64_LIMIT <= at + size { return Err(ArithmeticOverflow); }
        if !region.Contains(at, at + size) { return Err(OutsideVaRegion); }
        if !Unoccupied(View(), at, at + size) { return Err(OverlappingReservation); }
        return Ok(at);
      }
      var alignment := Max(at, pageSize);
      if !IsPowerOfTwo(alignment) || alignment % pageSize != 0 { return Err(InvalidAlignment(alignment)); }
      var fit := FindFirstFit(region, size, alignment);
      if fit.Err? { return Err(fit.error); }
      if fit.value.None? { return Err(InsufficientAddressSpace); }
      AlignedTo(fit.value.value, alignment, pageSize);
      r := Ok(fit.value.value);
    }

    /** Reserves a fixed or first-fit GPU virtual range. */
    method Reserve(pages: U32, pageSize: U32, flags: U32, alignOrOffset: U64)
      returns (r: Result<Reservation, SpaceError>)
      requires View().Valid()
      modifies this
      ensures View().Valid() && Evolves(old(View()), View())
      ensures r.Err? ==> View() == old(View())
      ensures r.Ok? <==> ReserveAllowed(old(View()), pages, pageSize, flags, alignOrOffset)
      ensures r.Ok? ==> Reserved(old(View()), View(), r.value, pages, pageSize, flags, alignOrOffset)
    {
      hide TableOk, ReservationsOk, Settled, OneLifetimePerId, Counted, Evolves, EntryOk, IsPowerOfTwo;
      StandsStill(View());
      if regions.None? { return Err(NotInitialized); }
      if pages == 0 { return Err(InvalidPageCount); }
      if 4 <= flags { return Err(InvalidReservationFlags(flags)); }
      var found := RegionFor(regions.value, pageSize);
      if found.None? { return Err(InvalidPageSize(pageSize)); }
      var region := found.value;
      var sparse := flags / 2 == 1;
      if sparse && pageSize != regions.value.big.pageSize { return Err(SparseSmallPagesUnsupported); }
      var size := SpanOf(pages, pageSize);
      var place := PlaceReservation(region, size, pageSize, flags % 2 == 1, alignOrOffset);
      if place.Err? { return Err(place.error); }
      var offset := place.value;
      var reservation := Reservation(offset, pages, pageSize, size, sparse);
      ReserveKeepsValid(View(), reservation);
      ReserveEvolves(View(), reservation);
      reservations := reservations[offset := reservation];
      r := Ok(reservation);
    }

    /** Releases exactly one reservation and every mapping inside it: afterwards no address
        of the released range is mapped, and every other address keeps its translation. */
    method Free(offset: Address, pages: U32, pageSize: U32) returns (r: Result<Reservation, SpaceError>)
      requires View().Valid()
      modifies this
      ensures View().Valid() && Evolves(old(View()), View())
      ensures r.Err? ==> View() == old(View()) && CheckFree(View(), offset, pages, pageSize) == Err(r.error)
      ensures r.Ok? ==> Released(old(View()), View(), offset, r.value)
      ensures r.Ok? <==> FreeAllowed(old(View()), offset, pages, pageSize)
    {
      hide TableOk, ReservationsOk, Settled, OneLifetimePerId, Counted, Evolves, Lookup, CheckFree, Inside;
      StandsStill(View());
      var check := CheckFree(View(), offset, pages, pageSize);
      if check.Err? { return Err(check.error); }
      var reservation := reservations[offset];
      var released := Inside(View(), offset);
      ReleaseEvolves(View(), offset, if released != {} then mappingGeneration + 1 else mappingGeneration);
      reservations, mappings := reservations - {offset}, mappings - released;
      if released != {} {
        mappingGeneration := mappingGeneration + 1;
      }
      r := Ok(reservation);
    }

    method Place(request: MapRequest, page: U32) returns (r: Result<Address, SpaceError>)
      requires View().Valid() && MapFormAllowed(View(), request) && page == ChoosePage(regions.value, request)
      requires PageSize(page)
      ensures r.Ok? ==> Placed(View(), request, page, r.value)
      ensures r.Ok? <==> Placeable(View(), request, page)
    {
      if request.fixedOffset.Some? {
        var check := CheckFixed(View(), request.fixedOffset.value, request.size, page);
        if check.Err? { return Err(check.error); }
        r := Ok(request.fixedOffset.value);
      } else {
        var fit := FindFirstFit(RegionFor(regions.value, page).value, request.size, page);
        if fit.Err? { return Err(fit.error); }
        if fit.value.None? { return Err(InsufficientAddressSpace); }
        PlacedOk(View(), request, page, fit.value.value);
        r := Ok(fit.value.value);
      }
    }

    /** Maps retained canonical bytes at a fixed or allocated GPU address. */
    method Map(request: MapRequest) returns (r: Result<Mapping, SpaceError>)
      requires View().Valid()
      modifies this
      ensures View().Valid() && Evolves(old(View()), View())
      ensures r.Err? ==> View() == old(View())
      ensures r.Ok? <==> MapAllowed(old(View()), request)
      ensures r.Ok? ==> Installed(old(View()), View(), request, r.value)
    {
      hide TableOk, ReservationsOk, Settled, OneLifetimePerId, Counted, Evolves, Lookup, MapFormAllowed, Placed,
           Placeable, CheckMap;
      StandsStill(View());
      var page := CheckMap(View(), request);
      if page.Err? { return Err(page.error); }
      var offset := Place(request, page.value);
      if offset.Err? { return Err(offset.error); }
      if mappingGeneration + 1 == U64_LIMIT { return Err(GenerationExhausted); }
      if nextMappingId + 1 == U64_LIMIT { return Err(MappingIdentityExhausted); }
      var mapping := NewMapping(View(), request, offset.value, page.value);
      InstallEvolves(View(), request, page.value, offset.value);
      mappings, nextMappingId, mappingGeneration :=
        mappings[offset.value := mapping], nextMappingId + 1, mappingGeneration + 1;
      r := Ok(mapping);
    }

    /** The lowest piece made at `unmapOffset`. Pieces of two lifetimes can share that
        offset once a sparse remap has overwritten the head of the older one. */
    method FindByUnmapOffset(unmapOffset: Address) returns (m: Option<Mapping>)
      requires View().Valid()
      ensures m.None? ==> forall k :: k in mappings ==> mappings[k].unmapOffset != unmapOffset
      ensures m.Some? ==> Picks(mappings, unmapOffset, m.value)
    {
      var ks := Ascending(mappings.Keys);
      for i := 0 to |ks|
        invariant forall j :: 0 <= j < i ==> mappings[ks[j]].unmapOffset != unmapOffset
      {
        if mappings[ks[i]].unmapOffset == unmapOffset {
          forall j | j in mappings && j < ks[i] ensures mappings[j].unmapOffset != unmapOffset {
            var n :| 0 <= n < |ks| && ks[n] == j;
            assert n < i;
          }
          return Some(mappings[ks[i]]);
        }
      }
      m := None;
    }

    /** Removes every piece of the lifetime mapped at `unmapOffset`; an unknown offset is a
        successful no-op. */
    method Unmap(unmapOffset: Address) returns (r: Result<seq<Mapping>, SpaceError>)
      requires View().Valid()
      modifies this
      ensures View().Valid() && Evolves(old(View()), View())
      ensures r.Err? ==> View() == old(View())
      ensures r.Ok? <==> UnmapAllowed(old(View()), unmapOffset)
      ensures r.Ok? ==> UnmapResult(old(View()), View(), unmapOffset, r.value)
    {
      hide TableOk, ReservationsOk, Settled, OneLifetimePerId, Counted, Evolves, Lookup, Unmapped, Fetch;
      StandsStill(View());
      if regions.None? { return Err(NotInitialized); }
      var picked := FindByUnmapOffset(unmapOffset);
      if picked.None? { return Ok([]); }
      if mappingGeneration + 1 == U64_LIMIT { return Err(GenerationExhausted); }
      var keys := OfLifetime(mappings, picked.value.id);
      var ks := Ascending(keys);
      var removed := Fetch(mappings, ks);
      UnmapEvolves(View(), picked.value.id, ks);
      mappings, mappingGeneration := mappings - keys, mappingGeneration + 1;
      r := Ok(removed);
    }

    /** Replaces big-page subranges of sparse reservations, all of them or none. */
    method RemapSparse(requests: seq<RemapRequest>) returns (r: Result<(), SpaceError>)
      requires View().Valid()
      modifies this
      ensures View().Valid() && Evolves(old(View()), View())
      ensures r.Err? ==> View() == old(View())
      ensures r.Ok? <==> RemapAllowed(old(View()), requests)
      ensures r.Ok? ==> Remapped(old(View()), View(), requests)
    {
      hide TableOk, ReservationsOk, Settled, OneLifetimePerId, Counted, Evolves, Lookup, RemappedTo, RemapsOnly,
           ListAllowed;
      StandsStill(View());
      if regions.None? { return Err(NotInitialized); }
      if requests == [] { return Err(EmptyRemap); }
      var page := regions.value.big.pageSize;
      var check := ValidateList(View(), requests, page);
      if check.Err? { return Err(check.error); }
      if mappingGeneration + 1 == U64_LIMIT { return Err(GenerationExhausted); }
      if !IdsRemain(View(), requests) { return Err(MappingIdentityExhausted); }
      var table := ApplyList(View(), requests, page);
      mappings, nextMappingId, mappingGeneration :=
        table, nextMappingId + CountMapped(requests), mappingGeneration + 1;
      assert View() == Partial(old(View()), table, nextMappingId, mappingGeneration);
      StampedEvolves(old(View()), View());
      r := Ok(());
    }

    /** Changes the kind and cacheability of a sub-range of one mapping. */
    method ModifyMapping(unmapOffset: Address, within: U64, size: U64, kind: U8, cacheable: bool)
      returns (r: Result<(), SpaceError>)
      requires View().Valid()
      modifies this
      ensures View().Valid() && Evolves(old(View()), View())
      ensures r.Err? ==> View() == old(View())
      ensures r.Ok? <==> ModifyAllowed(old(View()), unmapOffset, within, size, kind)
      ensures r.Ok? ==>
        Modified(old(View()), View(), unmapOffset + within, unmapOffset + within + size, kind, cacheable)
    {
      hide TableOk, ReservationsOk, Settled, OneLifetimePerId, Counted, Evolves, Lookup, EditsOnly, Covered, Picks,
           EntryOk, PageRange, Descends, PageSize;
      StandsStill(View());
      if regions.None? { return Err(NotInitialized); }
      if kind == INVALID_PTE_KIND { return Err(InvalidKind(kind)); }
      if size == 0 { return Err(EmptyMapping); }
      var range := ModifyTarget(unmapOffset, within, size);
      if range.Err? { return Err(range.error); }
      if mappingGeneration + 1 == U64_LIMIT { return Err(GenerationExhausted); }
      var lo, hi := unmapOffset + within, unmapOffset + within + size;
      CoveredRange(mappings, range.value, lo, size);
      var table := PaintMappingRange(mappings, range.value.id, lo, hi, mappingGeneration + 1, kind, cacheable);
      ModifyEvolves(View(), table);
      mappings, mappingGeneration := table, mappingGeneration + 1;
      r := Ok(());
    }

    /** The mapping to modify, once its whole requested range is known to belong to it. */
    method ModifyTarget(unmapOffset: Address, within: U64, size: U64) returns (r: Result<Mapping, SpaceError>)
      requires View().Valid() && 0 < size
      ensures r.Ok? ==> Picks(mappings, unmapOffset, r.value) && EntryOk(r.value.offset, r.value)
                        && Covered(mappings, r.value, unmapOffset + within, size)
      ensures r.Err? ==> forall m :: Picks(mappings, unmapOffset, m) && EntryOk(m.offset, m) ==>
                           !Covered(mappings, m, unmapOffset + within, size)
    {
      var picked := FindByUnmapOffset(unmapOffset);
      if picked.None? { return Err(UnknownMapping); }
      var m := picked.value;
      assert EntryOk(m.offset, m);
      forall n | Picks(mappings, unmapOffset, n) ensures n == m {
        PicksIsUnique(mappings, unmapOffset, m, n);
      }
      var lo := unmapOffset + within;
      if U64_LIMIT <= lo + size {
        if Covered(mappings, m, lo, size) {
          CoveredRange(mappings, m, lo, size);
        }
        return Err(ArithmeticOverflow);
      }
      if !PageAligned(lo, m.pageSize) || !PageAligned(size, m.pageSize) {
        return Err(MisalignedAddress(lo, m.pageSize));
      }
      var covered := RangeBelongsTo(mappings, m.id, lo, lo + size);
      if !covered { return Err(PartialMapping); }
      r := Ok(m);
    }

    /** Resolves a whole range into the segments that tile it, or reports the least address
        that cannot be accessed. */
    method ResolveRange(offset: Address, size: U64, permissions: Permissions)
      returns (r: Result<ResolvedRange, AccessError>)
      requires View().Valid()
      ensures r.Ok? <==> Resolvable(View(), offset, size, permissions)
      ensures r.Ok? ==> Resolves(View(), r.value) && r.value.offset == offset && r.value.size == size
                        && r.value.permissions == permissions
      ensures r.Err? ==> CheckRange(View(), offset, size, permissions) == Err(r.error)
                         || LeastFailure(View(), offset, size, permissions, r.error)
    {
      var check := CheckRange(View(), offset, size, permissions);
      if check.Err? { return Err(check.error); }
      var cursor, end := offset, offset + size;
      var segments: seq<ResolvedMapping> := [];
      while cursor < end
        invariant Resolving(mappings, segments, offset, cursor, end, permissions)
      {
        var maximal := ResolveMaximal(View(), cursor, permissions);
        if maximal.Err? {
          return Err(maximal.error);
        }
        ResolveStep(mappings, segments, offset, cursor, end, permissions, maximal.value);
        var segment := maximal.value.(size := Min(maximal.value.size, end - cursor));
        segments := segments + [segment];
        cursor := segment.End();
      }
      r := Ok(ResolvedRange(id, offset, size, permissions, segments));
    }

    /** Copies a retained range out of canonical memory. Every mapping is revalidated before
        the first byte is copied, so a failing read leaves the output alone. */
    method ReadResolved(range: ResolvedRange, memory: Memory, output: array<U8>)
      returns (r: Result<(), AccessError>)
      requires range.WellFormed()
      modifies output
      ensures r.Err? ==> output[..] == old(output[..])
      ensures r.Ok? <==> range.addressSpace == id && Read in range.permissions
                         && output.Length == range.size && AllCurrent(mappings, range)
      ensures r.Ok? ==> output[..] == RetainedBytes(memory, range)
      ensures r.Err? && r.error.StaleMapping? ==> !AllCurrent(mappings, range)
    {
      hide ByteAt, SegmentLocations;
      if range.addressSpace != id { return Err(WrongAddressSpace(range.addressSpace, id)); }
      if Read !in range.permissions {
        return Err(PermissionDenied(range.offset, {Read}, range.permissions));
      }
      if output.Length != range.size { return Err(OutputSizeMismatch(range.size, output.Length)); }
      for i := 0 to |range.segments|
        invariant forall j :: 0 <= j < i ==> IsCurrent(mappings, range.segments[j].mapping)
      {
        var retained := range.segments[i].mapping;
        if !IsCurrent(mappings, retained) { return Err(StaleMapping(retained.id, retained.generation)); }
      }
      var copied := 0;
      for i := 0 to |range.segments|
        invariant copied == if i == |range.segments| then range.size else range.segments[i].gpuOffset - range.offset
        invariant 0 <= copied <= range.size
        invariant forall n :: 0 <= n < copied ==> output[n] == ByteAt(memory, range.At(n))
      {
        var segment := range.segments[i];
        SegmentByte(range, i, 0);
        for j := 0 to segment.size
          invariant forall n :: 0 <= n < copied + j ==> output[n] == ByteAt(memory, range.At(n))
        {
          SegmentByte(range, i, j);
          output[copied + j] := ByteAt(memory, segment.At(j));
        }
        copied := copied + segment.size;
      }
      r := Ok(());
    }
  }
}
