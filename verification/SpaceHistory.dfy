/** What holds along a whole linear history of one address space: retained mappings are
    never confused with later ones, and a retained range reads what a fresh one would. */
module SpaceHistory {
  import opened Canonical
  import opened MappingTable
  import opened SpaceState
  import opened SpaceOperations
  import opened SparseRemap
  import opened Resolution
  import opened AddressSpace

  /** The states before and after each operation of one run. */
  ghost predicate History(h: seq<Space>) {
    && |h| > 0
    && (forall i :: 0 <= i < |h| ==> h[i].Valid())
    && (forall i, j :: 0 <= i < j < |h| && j == i + 1 ==> Evolves(h[i], h[j]))
  }

  ghost predicate Held(s: Space, m: Mapping) {
    m.offset in s.mappings && s.mappings[m.offset] == m
  }

  lemma {:induction false} CountersGrow(h: seq<Space>, i: nat, j: nat)
    requires History(h) && i <= j < |h|
    ensures h[i].generation <= h[j].generation && h[i].id == h[j].id
  {
    if i < j {
      CountersGrow(h, i, j - 1);
      assert Evolves(h[j - 1], h[j]);
    }
  }

  /** An entry that is current after one operation and no newer than the state before it was there
      before, in the same words. */
  lemma CurrentWasThere(s: Space, s': Space, m: Mapping)
    requires Evolves(s, s') && m.generation <= s.generation && IsCurrent(s'.mappings, m)
    ensures IsCurrent(s.mappings, m) && s.mappings[m.offset] == s'.mappings[m.offset]
  {
  }

  lemma HeldIsOld(s: Space, m: Mapping)
    requires s.Valid() && Held(s, m)
    ensures m.generation <= s.generation
  {
  }

  /** No ABA: a mapping taken from state `i` that passes the four-field check in state `j`
      is the live entry in every field, and has been in every state between. */
  lemma {:induction false} CurrentWasNeverReplaced(h: seq<Space>, i: nat, j: nat, m: Mapping)
    requires History(h) && i <= j < |h|
    requires Held(h[i], m) && IsCurrent(h[j].mappings, m)
    ensures forall n :: i <= n <= j ==> Held(h[n], m)
    decreases j
  {
    hide Space.Valid, Evolves, IsCurrent;
    if i < j {
      var before, after := h[j - 1], h[j];
      assert Evolves(before, after);
      CountersGrow(h, i, j - 1);
      HeldIsOld(h[i], m);
      CurrentWasThere(before, after, m);
      CurrentWasNeverReplaced(h, i, j - 1, m);
      assert Held(before, m);
      CurrentIsThere(after, m);
    }
  }

  lemma CurrentIsThere(s: Space, m: Mapping)
    requires IsCurrent(s.mappings, m)
    ensures m.offset in s.mappings
  {
  }

  /** Once a retained mapping stops being current it never becomes current again. */
  lemma StaleStaysStale(h: seq<Space>, i: nat, j: nat, k: nat, m: Mapping)
    requires History(h) && i <= j <= k < |h| && Held(h[i], m)
    requires !IsCurrent(h[j].mappings, m)
    ensures !IsCurrent(h[k].mappings, m)
  {
    if IsCurrent(h[k].mappings, m) {
      CurrentWasNeverReplaced(h, i, k, m);
    }
  }

  /** A range resolved in one state whose mappings are all current in a later one is exactly
      what a fresh resolution in the later state returns. */
  lemma RetainedRangeIsFresh(h: seq<Space>, i: nat, j: nat, range: ResolvedRange)
    requires History(h) && i <= j < |h|
    requires Resolves(h[i], range) && AllCurrent(h[j].mappings, range)
    ensures Resolves(h[j], range)
    ensures Resolvable(h[j], range.offset, range.size, range.permissions)
  {
    hide Space.Valid, Evolves, IsCurrent, Chained;
    CountersGrow(h, i, j);
    var hi := range.offset + range.size;
    forall n | 0 <= n < |range.segments| ensures SegmentOk(h[j].mappings, range.segments[n], hi, range.permissions) {
      var segment := range.segments[n];
      assert SegmentOk(h[i].mappings, segment, hi, range.permissions);
      assert IsCurrent(h[j].mappings, segment.mapping);
      CurrentWasNeverReplaced(h, i, j, segment.mapping);
      assert Held(h[j], segment.mapping);
    }
    ResolvesResolvable(h[j], range);
  }

  lemma ResolvesResolvable(s: Space, range: ResolvedRange)
    requires s.Valid() && Resolves(s, range)
    ensures Resolvable(s, range.offset, range.size, range.permissions)
  {
    forall a | range.offset <= a < range.offset + range.size
      ensures Accessible(s.mappings, a, range.permissions)
    {
      ResolvedAccess(s, range, a);
    }
    assert Accessible(s.mappings, range.offset, range.permissions);
    assert s.mappings != map[];
  }

  // ----- runs of the real operations are histories -----

  datatype Operation =
    | DoInitialize(geometry: Initialization)
    | DoReserve(pages: U32, pageSize: U32, flags: U32, alignOrOffset: U64)
    | DoFree(offset: Address, pages: U32, pageSize: U32)
    | DoMap(request: MapRequest)
    | DoUnmap(offset: Address)
    | DoRemap(requests: seq<RemapRequest>)
    | DoModify(offset: Address, within: U64, size: U64, kind: U8, cacheable: bool)

  /** The operation is carried out and edits or removes the mapping. */
  ghost predicate Touches(s: Space, operation: Operation, m: Mapping)
    requires s.Valid()
  {
    match operation
    case DoFree(offset, pages, pageSize) =>
      FreeAllowed(s, offset, pages, pageSize) && s.reservations[offset].Contains(m.offset, m.End())
    case DoUnmap(offset) =>
      UnmapAllowed(s, offset) && exists picked :: Picks(s.mappings, offset, picked) && picked.id == m.id
    case DoRemap(requests) => RemapAllowed(s, requests) && Meets(requests, |requests|, m)
    case DoModify(offset, within, size, kind, cacheable) =>
      ModifyAllowed(s, offset, within, size, kind) && m.Overlaps(offset + within, offset + within + size)
    case _ => false
  }

  /** Exactly the mappings that the operation touches stop being current. */
  ghost predicate Spares(s: Space, s': Space, operation: Operation)
    requires s.Valid()
  {
    forall m :: Held(s, m) ==> (IsCurrent(s'.mappings, m) <==> !Touches(s, operation, m))
  }

  lemma KeptIsCurrent(s: Space, s': Space, m: Mapping, touched: bool)
    requires s.Valid() && Held(s, m)
    requires !touched ==> m.offset in s'.mappings && s'.mappings[m.offset] == m
    requires touched && m.offset in s'.mappings ==> s.generation < s'.mappings[m.offset].generation
    ensures IsCurrent(s'.mappings, m) <==> !touched
  {
    assert EntryOk(m.offset, m) && m.generation <= s.generation;
  }

  lemma UneditedSpares(s: Space, s': Space, operation: Operation)
    requires s.Valid() && forall m :: !Touches(s, operation, m)
    requires forall k :: k in s.mappings ==> k in s'.mappings && s'.mappings[k] == s.mappings[k]
    ensures Spares(s, s', operation)
  {
    forall m | Held(s, m) ensures IsCurrent(s'.mappings, m) {
      KeptIsCurrent(s, s', m, false);
    }
  }

  lemma FreeSpares(s: Space, s': Space, offset: Address, pages: U32, pageSize: U32, r: Reservation)
    requires s.Valid() && FreeAllowed(s, offset, pages, pageSize) && Released(s, s', offset, r)
    ensures Spares(s, s', DoFree(offset, pages, pageSize))
  {
    hide Space.Valid;
    forall m | Held(s, m)
      ensures IsCurrent(s'.mappings, m) <==> !Touches(s, DoFree(offset, pages, pageSize), m)
    {
      KeptIsCurrent(s, s', m, s.reservations[offset].Contains(m.offset, m.End()));
    }
  }

  lemma UnmapSpares(s: Space, s': Space, offset: Address, removed: seq<Mapping>)
    requires s.Valid() && UnmapAllowed(s, offset) && UnmapResult(s, s', offset, removed)
    ensures Spares(s, s', DoUnmap(offset))
  {
    hide Space.Valid, Lookup;
    if Known(s.mappings, offset) {
      var picked :| Picks(s.mappings, offset, picked) && Unmapped(s, s', picked.id, removed);
      forall m | Held(s, m) ensures IsCurrent(s'.mappings, m) <==> !Touches(s, DoUnmap(offset), m) {
        forall other | Picks(s.mappings, offset, other) ensures other == picked {
          PicksIsUnique(s.mappings, offset, picked, other);
        }
        KeptIsCurrent(s, s', m, m.id == picked.id);
      }
    } else {
      forall m ensures !Touches(s, DoUnmap(offset), m) {
      }
      UneditedSpares(s, s', DoUnmap(offset));
    }
  }

  lemma RemapSpares(s: Space, s': Space, requests: seq<RemapRequest>)
    requires s.Valid() && RemapAllowed(s, requests) && Remapped(s, s', requests)
    ensures Spares(s, s', DoRemap(requests))
  {
    hide Space.Valid, RemappedTo, RemapAllowed, Meets;
    forall m | Held(s, m) ensures IsCurrent(s'.mappings, m) <==> !Touches(s, DoRemap(requests), m) {
      KeptIsCurrent(s, s', m, Meets(requests, |requests|, m));
    }
  }

  lemma ModifySpares(s: Space, s': Space, offset: Address, within: U64, size: U64, kind: U8, cacheable: bool)
    requires s.Valid() && ModifyAllowed(s, offset, within, size, kind)
    requires Modified(s, s', offset + within, offset + within + size, kind, cacheable)
    ensures Spares(s, s', DoModify(offset, within, size, kind, cacheable))
  {
    hide Space.Valid, ModifyAllowed, Lookup;
    var lo, hi := offset + within, offset + within + size;
    forall m | Held(s, m)
      ensures IsCurrent(s'.mappings, m) <==> !Touches(s, DoModify(offset, within, size, kind, cacheable), m)
    {
      KeptIsCurrent(s, s', m, m.Overlaps(lo, hi));
    }
  }

  lemma MapSpares(s: Space, s': Space, request: MapRequest, m: Mapping)
    requires s.Valid() && MapAllowed(s, request) && Installed(s, s', request, m)
    ensures Spares(s, s', DoMap(request))
  {
    PlacedOk(s, request, ChoosePage(s.regions.value, request), m.offset);
    FreeStart(s.mappings, m.offset, m.offset + request.size);
    UneditedSpares(s, s', DoMap(request));
  }

  method Perform(space: MaxwellGpuAddressSpace, operation: Operation)
    requires space.View().Valid()
    modifies space
    ensures space.View().Valid() && Evolves(old(space.View()), space.View())
    ensures Spares(old(space.View()), space.View(), operation)
  {
    hide Space.Valid, Evolves, Spares, Released, UnmapResult, Remapped, Modified, Installed, Reserved,
         FreeAllowed, UnmapAllowed, RemapAllowed, ModifyAllowed, MapAllowed, ReserveAllowed;
    ghost var s := space.View();
    match operation {
      case DoInitialize(geometry) =>
        var _ := space.Initialize(geometry);
        UneditedSpares(s, space.View(), operation);
      case DoReserve(pages, pageSize, flags, at) =>
        var r := space.Reserve(pages, pageSize, flags, at);
        ReserveKeepsMappings(s, space.View(), r, pages, pageSize, flags, at);
        UneditedSpares(s, space.View(), operation);
      case DoFree(offset, pages, pageSize) =>
        var r := space.Free(offset, pages, pageSize);
        if r.Ok? {
          FreeSpares(s, space.View(), offset, pages, pageSize, r.value);
        } else {
          UneditedSpares(s, space.View(), operation);
        }
      case DoMap(request) =>
        var r := space.Map(request);
        if r.Ok? {
          MapSpares(s, space.View(), request, r.value);
        } else {
          UneditedSpares(s, space.View(), operation);
        }
      case DoUnmap(offset) =>
        var r := space.Unmap(offset);
        if r.Ok? {
          UnmapSpares(s, space.View(), offset, r.value);
        } else {
          UneditedSpares(s, space.View(), operation);
        }
      case DoRemap(requests) =>
        var r := space.RemapSparse(requests);
        if r.Ok? {
          RemapSpares(s, space.View(), requests);
        } else {
          UneditedSpares(s, space.View(), operation);
        }
      case DoModify(offset, within, size, kind, cacheable) =>
        var r := space.ModifyMapping(offset, within, size, kind, cacheable);
        if r.Ok? {
          ModifySpares(s, space.View(), offset, within, size, kind, cacheable);
        } else {
          UneditedSpares(s, space.View(), operation);
        }
    }
  }

  lemma ReserveKeepsMappings(
    s: Space, s': Space, r: Result<Reservation, SpaceError>, pages: U32, pageSize: U32, flags: U32, at: U64)
    requires r.Err? ==> s' == s
    requires r.Ok? ==> ReserveAllowed(s, pages, pageSize, flags, at)
    requires r.Ok? ==> Reserved(s, s', r.value, pages, pageSize, flags, at)
    ensures s'.mappings == s.mappings
  {
  }

  /** The states that a sequence of operations, failing ones included, goes through. */
  ghost predicate Traces(h: seq<Space>, operations: seq<Operation>) {
    && History(h)
    && |h| == |operations| + 1
    && forall i, j :: 0 <= i < |operations| && j == i + 1 ==> h[i].Valid() && Spares(h[i], h[j], operations[i])
  }

  /** None of the first `n` operations touches the mapping when its turn comes. */
  ghost predicate Untouched(h: seq<Space>, operations: seq<Operation>, n: nat, m: Mapping)
    requires Traces(h, operations)
  {
    forall i :: 0 <= i < n && i < |operations| ==> !Touches(h[i], operations[i], m)
  }

  lemma TracesAppend(h: seq<Space>, operations: seq<Operation>, s: Space, operation: Operation)
    requires Traces(h, operations) && s.Valid() && Evolves(h[|operations|], s) && Spares(h[|operations|], s, operation)
    ensures Traces(h + [s], operations + [operation])
  {
    hide Evolves, Spares, Space.Valid;
    var h', operations' := h + [s], operations + [operation];
    forall i, j | 0 <= i < j < |h'| && j == i + 1 ensures Evolves(h'[i], h'[j]) {
      if j < |h| { assert h'[i] == h[i] && h'[j] == h[j]; }
    }
    forall i, j | 0 <= i < |operations'| && j == i + 1 ensures h'[i].Valid() && Spares(h'[i], h'[j], operations'[i]) {
      if i < |operations| { assert h'[i] == h[i] && h'[j] == h[j] && operations'[i] == operations[i]; }
    }
  }

  lemma HeldIsCurrent(s: Space, m: Mapping)
    requires s.Valid() && Held(s, m)
    ensures IsCurrent(s.mappings, m)
  {
  }

  /** Staleness is exact: a mapping held at the start is current after `n` operations if and only
      if none of them touched it. */
  lemma {:induction false} CurrentIffUntouched(h: seq<Space>, operations: seq<Operation>, n: nat, m: Mapping)
    requires Traces(h, operations) && n <= |operations| && Held(h[0], m)
    ensures IsCurrent(h[n].mappings, m) <==> Untouched(h, operations, n, m)
    decreases n
  {
    hide Touches, Space.Valid, Evolves, IsCurrent;
    if n == 0 {
      HeldIsCurrent(h[0], m);
    } else {
      var i := n - 1;
      assert Spares(h[i], h[n], operations[i]);
      CurrentIffUntouched(h, operations, i, m);
      if IsCurrent(h[n].mappings, m) {
        CurrentWasNeverReplaced(h, 0, n, m);
        HeldIsCurrent(h[i], m);
      } else if Untouched(h, operations, i, m) {
        CurrentWasNeverReplaced(h, 0, i, m);
      }
    }
  }

  /** Any sequence of operations, failing ones included, traces out a history. */
  method Run(space: MaxwellGpuAddressSpace, operations: seq<Operation>) returns (ghost h: seq<Space>)
    requires space.View().Valid()
    modifies space
    ensures Traces(h, operations) && space.View().Valid()
    ensures h[0] == old(space.View()) && h[|operations|] == space.View()
  {
    hide Evolves, Spares, Space.Valid;
    h := [space.View()];
    for i := 0 to |operations|
      invariant Traces(h, operations[..i]) && space.View().Valid()
      invariant h[0] == old(space.View()) && h[i] == space.View()
    {
      Perform(space, operations[i]);
      TracesAppend(h, operations[..i], space.View(), operations[i]);
      assert operations[..i] + [operations[i]] == operations[..i + 1];
      h := h + [space.View()];
    }
    assert operations[..|operations|] == operations;
  }

  lemma ValidTable(s: Space)
    requires s.Valid()
    ensures TableOk(s.mappings)
  {
  }

  lemma RangeIsHeld(s: Space, range: ResolvedRange, j: nat)
    requires s.Valid() && Resolves(s, range) && j < |range.segments|
    ensures Held(s, range.segments[j].mapping)
  {
    assert SegmentOk(s.mappings, range.segments[j], range.offset + range.size, range.permissions);
  }

  /** Resolve, let any operations run, then read. The read succeeds if and only if no operation
      touched a mapping of the range; it then returns the bytes that the table in force translates
      to, and otherwise it is refused as stale before a byte is copied. */
  method ReadAfter(space: MaxwellGpuAddressSpace, range: ResolvedRange, operations: seq<Operation>,
                   memory: Memory, output: array<U8>) returns (r: Result<(), AccessError>, ghost h: seq<Space>)
    requires space.View().Valid() && Resolves(space.View(), range) && Read in range.permissions
    requires output.Length == range.size
    modifies space, output
    ensures space.View().Valid() && Traces(h, operations) && h[0] == old(space.View())
    ensures r.Ok? <==>
      forall j :: 0 <= j < |range.segments| ==> Untouched(h, operations, |operations|, range.segments[j].mapping)
    ensures r.Err? ==> output[..] == old(output[..]) && !AllCurrent(space.mappings, range)
    ensures r.Ok? ==>
      && Resolves(space.View(), range)
      && Resolvable(space.View(), range.offset, range.size, range.permissions)
      && forall n :: 0 <= n < range.size ==> output[n] == FreshByte(space.mappings, memory, range.offset + n)
  {
    hide Space.Valid, Evolves, Spares, Untouched, IsCurrent, FreshByte, Resolvable;
    ghost var s := space.View();
    h := Run(space, operations);
    forall j | 0 <= j < |range.segments|
      ensures IsCurrent(space.mappings, range.segments[j].mapping) <==>
              Untouched(h, operations, |operations|, range.segments[j].mapping)
    {
      RangeIsHeld(s, range, j);
      CurrentIffUntouched(h, operations, |operations|, range.segments[j].mapping);
    }
    r := space.ReadResolved(range, memory, output);
    if r.Ok? {
      ValidTable(space.View());
      RetainedRangeIsFresh(h, 0, |operations|, range);
      RetainedBytesAreFresh(space.View(), memory, range);
      forall n | 0 <= n < range.size ensures output[n] == FreshByte(space.mappings, memory, range.offset + n) {
        assert output[n] == output[..][n];
      }
    }
  }
}
