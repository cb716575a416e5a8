/** The requests a GPU address space serves: when each is granted, what it does to the
    translation of every address, and why it keeps the invariant. */
module SpaceOperations {
  import opened Canonical
  import opened MappingTable
  import opened SpaceState

  datatype SpaceError =
    | AlreadyInitialized
    | NotInitialized
    | InvalidBigPageSize(pageSize: U32)
    | InvalidGeometry
    | InvalidPageCount
    | InvalidPageSize(pageSize: U32)
    | InvalidReservationFlags(flags: U32)
    | InvalidAlignment(alignment: U64)
    | MisalignedAddress(address: U64, alignment: U64)
    | OutsideVaRegion
    | OutsideReservation
    | OverlappingReservation
    | OverlappingMapping
    | OverlappingRemapEntries
    | UnknownReservation
    | ReservationShapeMismatch
    | SparseSmallPagesUnsupported
    | NonSparseReservation
    | EmptyRemap
    | EmptyMapping
    | UnknownMapping
    | PartialMapping
    | InvalidBackingRange
    | InvalidMappingPermissions
    | InvalidKind(kind: U8)
    | MisalignedBackingRange(offset: U64, size: U64, alignment: U64)
    | InsufficientAddressSpace
    | MappingIdentityExhausted
    | ArithmeticOverflow
    | GenerationExhausted

  /** A guest's choice of geometry; all zeroes selects the default one. */
  datatype Initialization = Initialization(bigPageSize: U32, start: U64, split: U64, end: U64) {
    predicate Explicit() {
      start != 0 || split != 0 || end != 0
    }

    function BigPage(): U32 {
      if bigPageSize == 0 then DEFAULT_BIG_PAGE else bigPageSize
    }

    predicate Acceptable() {
      && (BigPage() == 0x10000 || BigPage() == 0x20000)
      && (Explicit() ==> && start < split < end <= ADDRESS_LIMIT
                         && start % SMALL_PAGE == 0
                         && PageAligned(split, BigPage())
                         && PageAligned(end, BigPage()))
    }

    predicate Selects(regions: Option<Regions>) {
      && regions.Some?
      && regions.value.big.pageSize == BigPage()
      && regions.value.small.offset == (if Explicit() then start else BigPage() * 1024)
      && regions.value.big.offset == (if Explicit() then split else DEFAULT_VA_SPLIT)
      && regions.value.big.End() == (if Explicit() then end else DEFAULT_VA_END)
    }
  }

  const DEFAULT_BIG_PAGE: U32 := 0x20000
  const DEFAULT_VA_SPLIT: U64 := 0x4_0000_0000
  const DEFAULT_VA_END: U64 := 0x20_0000_0000

  datatype MapRequest = MapRequest(
    allocation: U64, backing: Backing, backingOffset: U64, size: U64, allocationAlignment: U32,
    pageSize: U32, kind: U8, cacheable: bool, permissions: Permissions, fixedOffset: Option<Address>)

  datatype SparseMapping = SparseMapping(
    allocation: U64, backing: Backing, backingOffset: U64, kind: U8, cacheable: bool, permissions: Permissions)

  datatype RemapRequest = RemapRequest(offset: Address, size: U64, mapping: Option<SparseMapping>) {
    function End(): nat {
      offset + size
    }

    predicate Covers(a: int) {
      offset <= a < End()
    }
  }

  predicate IsPowerOfTwo(n: nat) {
    n == 1 || (0 < n && n % 2 == 0 && IsPowerOfTwo(n / 2))
  }

  function ValidateBacking(backing: Backing, offset: U64, size: U64, permissions: Permissions): Result<(), SpaceError> {
    if size == 0 then Err(EmptyMapping)
    else if U64_LIMIT <= offset + size then Err(ArithmeticOverflow)
    else if backing.Size() < offset + size then Err(InvalidBackingRange)
    else if permissions == {} || !backing.Grants(permissions) then Err(InvalidMappingPermissions)
    else Ok(())
  }

  // ----- first fit -----

  function RoundUp(value: nat, alignment: nat): nat
    requires 0 < alignment
  {
    (value + alignment - 1) / alignment * alignment
  }

  lemma QuotientBounds(x: nat, n: nat, q: nat)
    requires 0 < n && q == x / n
    ensures q * n <= x < q * n + n
  {
    assert x == n * q + x % n;
    assert n * q == q * n;
  }

  lemma WholeQuotient(c: nat, n: nat, d: nat)
    requires 0 < n && c % n == 0 && d == c / n
    ensures c == d * n
  {
    assert c == n * d + c % n;
    assert n * d == d * n;
  }

  lemma MulStep(d: nat, q: nat, n: nat)
    requires d < q
    ensures d * n + n <= q * n
  {
    MulMono(d + 1, q, n);
    assert (d + 1) * n == d * n + n;
  }

  lemma RoundUpBelow(value: nat, n: nat, q: nat, d: nat)
    requires q * n <= value + n - 1 && value <= d * n
    ensures q * n <= d * n
  {
    if d < q { MulStep(d, q, n); } else { MulMono(q, d, n); }
  }

  /** `RoundUp` is the least multiple of the alignment that is not below the value. */
  lemma RoundUpLeast(value: nat, alignment: nat, c: nat)
    requires 0 < alignment
    ensures value <= RoundUp(value, alignment) <= value + alignment - 1
    ensures RoundUp(value, alignment) % alignment == 0
    ensures c % alignment == 0 && value <= c ==> RoundUp(value, alignment) <= c
  {
    var q := (value + alignment - 1) / alignment;
    assert RoundUp(value, alignment) == q * alignment;
    hide RoundUp;
    QuotientBounds(value + alignment - 1, alignment, q);
    MultipleOf(q, alignment);
    if c % alignment == 0 && value <= c {
      var d := c / alignment;
      WholeQuotient(c, alignment, d);
      RoundUpBelow(value, alignment, q, d);
    }
  }

  lemma {:induction false} MultipleOf(q: nat, n: nat)
    requires 0 < n
    ensures (q * n) % n == 0
  {
    var d := (q * n) / n;
    if d < q {
      MulMono(d + 1, q, n);
    } else if q < d {
      assert (q + 1) * n == q * n + n;
      MulMono(q + 1, d, n);
    }
  }

  lemma MulMono(x: int, y: int, n: nat)
    ensures x <= y ==> x * n <= y * n
  {
  }

  function AlignUp(value: U64, alignment: U64): Result<U64, SpaceError>
    requires 0 < alignment
  {
    if U64_LIMIT <= value + alignment - 1 then Err(ArithmeticOverflow)
    else
      RoundUpLeast(value, alignment, 0);
      Ok(RoundUp(value, alignment))
  }

  predicate Unoccupied(s: Space, lo: int, hi: int) {
    OutsideReservations(s.reservations, lo, hi) && Free(s.mappings, lo, hi)
  }

  lemma AlignedTo(c: nat, alignment: nat, p: nat)
    requires 0 < p && 0 < alignment && alignment % p == 0 && c % alignment == 0
    ensures c % p == 0
  {
    var i, j := c / alignment, alignment / p;
    WholeQuotient(c, alignment, i);
    WholeQuotient(alignment, p, j);
    assert i * (j * p) == (i * j) * p;
    MultipleOf(i * j, p);
  }

  predicate Fits(s: Space, region: Region, size: int, alignment: int, c: int)
    requires 0 < alignment
  {
    region.Contains(c, c + size) && c % alignment == 0 && Unoccupied(s, c, c + size)
  }

  // ----- unmap -----

  ghost predicate Picks(t: Table, unmapOffset: int, m: Mapping) {
    && m.unmapOffset == unmapOffset
    && m.offset in t && t[m.offset] == m
    && forall j :: j in t && j < m.offset ==> t[j].unmapOffset != unmapOffset
  }

  function OfLifetime(t: Table, id: U64): set<int> {
    set k | k in t && t[k].id == id
  }

  ghost predicate Known(t: Table, unmapOffset: int) {
    exists k :: k in t && t[k].unmapOffset == unmapOffset
  }

  ghost predicate UnmapAllowed(s: Space, unmapOffset: int) {
    s.regions.Some? && (Known(s.mappings, unmapOffset) ==> s.generation + 1 < U64_LIMIT)
  }

  ghost predicate UnmapResult(s: Space, s': Space, unmapOffset: int, removed: seq<Mapping>) {
    if Known(s.mappings, unmapOffset)
    then exists m :: Picks(s.mappings, unmapOffset, m) && Unmapped(s, s', m.id, removed)
    else removed == [] && s' == s
  }

  function Fetch(t: Table, ks: seq<int>): seq<Mapping>
    requires forall i :: 0 <= i < |ks| ==> ks[i] in t
  {
    seq(|ks|, i requires 0 <= i < |ks| => t[ks[i]])
  }

  predicate BelongsTo(tr: Option<Translation>, id: U64) {
    tr.Some? && tr.value.id == id
  }

  /** The addresses of lifetime `id`, and no others, lose their translation. */
  ghost predicate LosesLifetime(t: Table, u: Table, id: U64) {
    forall a :: Lookup(u, a) == if BelongsTo(Lookup(t, a), id) then None else Lookup(t, a)
  }

  /** The pieces of every other lifetime are kept as they are. */
  ghost predicate KeepsOthers(t: Table, u: Table, id: U64) {
    && (forall k :: k in u <==> k in t && t[k].id != id)
    && (forall k :: k in u ==> u[k] == t[k])
  }

  /** All pieces of the lifetime, in address order. */
  ghost predicate PiecesOf(t: Table, id: U64, removed: seq<Mapping>) {
    && (forall i :: 0 <= i < |removed| ==>
          removed[i].id == id && removed[i].offset in t && t[removed[i].offset] == removed[i])
    && (forall k :: k in t && t[k].id == id ==> t[k] in removed)
    && (forall i, j :: 0 <= i < j < |removed| ==> removed[i].offset < removed[j].offset)
  }

  /** Exactly the addresses of lifetime `id` become unmapped, the pieces of every other lifetime are
      kept as they are, and the removed pieces are returned in address order. */
  ghost predicate Unmapped(s: Space, s': Space, id: U64, removed: seq<Mapping>) {
    && s' == s.(mappings := s'.mappings, generation := s'.generation)
    && s'.generation == s.generation + 1
    && LosesLifetime(s.mappings, s'.mappings, id)
    && KeepsOthers(s.mappings, s'.mappings, id)
    && PiecesOf(s.mappings, id, removed)
  }

  lemma UnmapLookup(t: Table, id: U64, a: int)
    requires TableOk(t)
    ensures Lookup(t - OfLifetime(t, id), a) == if BelongsTo(Lookup(t, a), id) then None else Lookup(t, a)
  {
    RemoveLookup(t, OfLifetime(t, id), a);
    if Mapped(t, a) {
      var k :| k in t && t[k].Covers(a);
      LookupAt(t, k, a);
      forall j | j in t && t[j].Covers(a) ensures j == k {
        CoverIsUnique(t, j, k, a);
      }
    }
  }

  lemma UnmapKeepsValid(s: Space, keys: set<int>, g: U64)
    requires s.Valid() && s.regions.Some? && g == s.generation + 1
    ensures s.(mappings := s.mappings - keys, generation := g).Valid()
    ensures Evolves(s, s.(mappings := s.mappings - keys, generation := g))
  {
    hide TableOk, Lookup;
    RemovalKeepsValid(s, keys);
    AdvanceKeepsValid(s.(mappings := s.mappings - keys), g);
  }

  lemma UnmapLoses(t: Table, id: U64)
    requires TableOk(t)
    ensures LosesLifetime(t, t - OfLifetime(t, id), id)
  {
    hide Lookup, TableOk, OfLifetime, BelongsTo;
    forall a {
      UnmapLookup(t, id, a);
    }
  }

  lemma UnmapKeeps(t: Table, id: U64)
    ensures KeepsOthers(t, t - OfLifetime(t, id), id)
  {
  }

  lemma FetchedPieces(t: Table, id: U64, ks: seq<int>, removed: seq<Mapping>)
    requires TableOk(t)
    requires forall i :: 0 <= i < |ks| ==> ks[i] in t && t[ks[i]].id == id
    requires forall k :: k in t && t[k].id == id ==> k in ks
    requires forall i, j :: 0 <= i < j < |ks| ==> ks[i] < ks[j]
    requires removed == Fetch(t, ks)
    ensures PiecesOf(t, id, removed)
  {
    forall i | 0 <= i < |ks| ensures removed[i] == t[ks[i]] && removed[i].offset == ks[i] {
      assert EntryOk(ks[i], t[ks[i]]);
    }
    hide TableOk, Fetch;
    forall k | k in t && t[k].id == id ensures t[k] in removed {
      var i :| 0 <= i < |ks| && ks[i] == k;
      assert removed[i] == t[k];
    }
  }

  lemma UnmapEvolves(s: Space, id: U64, ks: seq<int>)
    requires s.Valid() && s.regions.Some? && s.generation + 1 < U64_LIMIT
    requires forall i :: 0 <= i < |ks| ==> ks[i] in OfLifetime(s.mappings, id)
    requires forall k :: k in OfLifetime(s.mappings, id) ==> k in ks
    requires forall i, j :: 0 <= i < j < |ks| ==> ks[i] < ks[j]
    ensures var s' := s.(mappings := s.mappings - OfLifetime(s.mappings, id), generation := s.generation + 1);
      s'.Valid() && Evolves(s, s')
      && Unmapped(s, s', id, Fetch(s.mappings, ks))
  {
    hide Evolves, Lookup, TableOk, Fetch, LosesLifetime, KeepsOthers, PiecesOf, ReservationsOk, Settled, OneLifetimePerId,
         Counted;
    UnmapKeepsValid(s, OfLifetime(s.mappings, id), s.generation + 1);
    UnmapLoses(s.mappings, id);
    UnmapKeeps(s.mappings, id);
    FetchedPieces(s.mappings, id, ks, Fetch(s.mappings, ks));
  }

  // ----- map -----

  /** A request of page size zero takes big pages when alignment and extent allow it. */
  function ChoosePage(regions: Regions, request: MapRequest): U32
    requires regions.Valid()
  {
    if request.pageSize != 0 then request.pageSize
    else if && regions.big.pageSize <= request.allocationAlignment
            && PageAligned(request.backingOffset, regions.big.pageSize)
            && PageAligned(request.size, regions.big.pageSize)
    then regions.big.pageSize
    else regions.small.pageSize
  }

  function CheckMap(s: Space, request: MapRequest): (r: Result<U32, SpaceError>)
    requires s.Valid()
    ensures r.Ok? ==> s.regions.Some? && r.value == ChoosePage(s.regions.value, request)
                      && PageSize(r.value) && RegionFor(s.regions.value, r.value).Some?
    ensures r.Ok? <==> MapFormAllowed(s, request)
  {
    if s.regions.None? then Err(NotInitialized)
    else
      var backing := ValidateBacking(request.backing, request.backingOffset, request.size, request.permissions);
      if backing.Err? then Err(backing.error)
      else if request.kind == INVALID_PTE_KIND then Err(InvalidKind(request.kind))
      else if !IsPowerOfTwo(request.allocationAlignment) then Err(InvalidAlignment(request.allocationAlignment))
      else
        var page := ChoosePage(s.regions.value, request);
        if RegionFor(s.regions.value, page).None? then Err(InvalidPageSize(page))
        else if !PageAligned(request.backingOffset, page) || !PageAligned(request.size, page)
        then Err(MisalignedBackingRange(request.backingOffset, request.size, page))
        else Ok(page)
  }

  predicate MapFormAllowed(s: Space, request: MapRequest)
    requires s.Valid()
  {
    && s.regions.Some?
    && 0 < request.size
    && request.backingOffset + request.size <= request.backing.Size()
    && request.backingOffset + request.size < U64_LIMIT
    && request.permissions != {}
    && request.backing.Grants(request.permissions)
    && request.kind != INVALID_PTE_KIND
    && IsPowerOfTwo(request.allocationAlignment)
    && (var page := ChoosePage(s.regions.value, request);
        && RegionFor(s.regions.value, page).Some?
        && PageAligned(request.backingOffset, page)
        && PageAligned(request.size, page))
  }

  /** A fixed mapping needs one reservation around it and no mapping in its way. */
  predicate FixedAllowed(s: Space, offset: int, size: int, page: nat)
    requires PageSize(page)
  {
    && PageAligned(offset, page)
    && (exists k :: k in s.reservations && s.reservations[k].Contains(offset, offset + size))
    && Free(s.mappings, offset, offset + size)
  }

  function CheckFixed(s: Space, offset: Address, size: U64, page: U32): (r: Result<(), SpaceError>)
    requires s.Valid() && PageSize(page)
    ensures r.Ok? <==> FixedAllowed(s, offset, size, page)
  {
    if !PageAligned(offset, page) then Err(MisalignedAddress(offset, page))
    else if U64_LIMIT <= offset + size then
      ReservationBound(s, offset, offset + size);
      Err(ArithmeticOverflow)
    else if !exists k :: k in s.reservations && s.reservations[k].Contains(offset, offset + size)
    then Err(OutsideReservation)
    else if !Free(s.mappings, offset, offset + size) then Err(OverlappingMapping)
    else Ok(())
  }

  lemma ReservationBound(s: Space, lo: int, hi: int)
    requires s.Valid()
    ensures forall k :: k in s.reservations && s.reservations[k].Contains(lo, hi) ==> hi <= ADDRESS_LIMIT
  {
    forall k | k in s.reservations && s.reservations[k].Contains(lo, hi) ensures hi <= ADDRESS_LIMIT {
      assert ReservationOk(s.regions, k, s.reservations[k]);
    }
  }

  predicate SparseAt(rs: Reservations, lo: int, hi: int) {
    exists k :: k in rs && rs[k].Contains(lo, hi) && rs[k].sparse
  }

  function NewMapping(s: Space, request: MapRequest, offset: Address, page: U32): Mapping
    requires s.generation + 1 < U64_LIMIT
  {
    Mapping(s.nextMappingId, offset, offset, request.size, request.allocation, request.backing,
            request.backingOffset, request.permissions, page, request.kind, request.cacheable,
            s.generation + 1, request.fixedOffset.Some?, SparseAt(s.reservations, offset, offset + request.size))
  }

  ghost predicate Placed(s: Space, request: MapRequest, page: U32, offset: int)
    requires s.regions.Some? && PageSize(page)
  {
    if request.fixedOffset.Some? then
      offset == request.fixedOffset.value && FixedAllowed(s, offset, request.size, page)
    else
      RegionFor(s.regions.value, page).Some?
      && LeastFit(s, RegionFor(s.regions.value, page).value, request.size, page, offset)
  }

  ghost predicate Placeable(s: Space, request: MapRequest, page: U32)
    requires s.regions.Some? && PageSize(page) && RegionFor(s.regions.value, page).Some?
  {
    if request.fixedOffset.Some? then FixedAllowed(s, request.fixedOffset.value, request.size, page)
    else HasFit(s, RegionFor(s.regions.value, page).value, request.size, page)
  }

  /** Exactly when a mapping is made. */
  ghost predicate MapAllowed(s: Space, request: MapRequest)
    requires s.Valid()
  {
    && MapFormAllowed(s, request)
    && Placeable(s, request, ChoosePage(s.regions.value, request))
    && s.generation + 1 < U64_LIMIT
    && s.nextMappingId + 1 < U64_LIMIT
  }

  /** A new mapping is the pointwise update of its own range with a fresh identity and a
      fresh generation. */
  ghost predicate Installed(s: Space, s': Space, request: MapRequest, m: Mapping)
    requires s.Valid() && MapFormAllowed(s, request) && s.generation + 1 < U64_LIMIT
  {
    && Placed(s, request, ChoosePage(s.regions.value, request), m.offset)
    && m == NewMapping(s, request, m.offset, ChoosePage(s.regions.value, request))
    && s' == s.(mappings := s.mappings[m.offset := m], nextMappingId := s'.nextMappingId, generation := m.generation)
    && s'.nextMappingId == m.id + 1
    && forall a ::
         Lookup(s'.mappings, a) == if m.Covers(a) then Some(m.At(a)) else Lookup(s.mappings, a)
  }

  lemma PlacedOk(s: Space, request: MapRequest, page: U32, offset: int)
    requires s.Valid() && MapFormAllowed(s, request) && page == ChoosePage(s.regions.value, request)
    requires PageSize(page) && Placed(s, request, page, offset)
    ensures 0 <= offset && offset + request.size <= ADDRESS_LIMIT && offset % SMALL_PAGE == 0
    ensures Free(s.mappings, offset, offset + request.size)
    ensures request.fixedOffset.None? ==> OutsideReservations(s.reservations, offset, offset + request.size)
  {
    PageMultiple(offset, page);
    PageRemainder(offset, page);
    ReservationBound(s, offset, offset + request.size);
  }

  lemma NewMappingOk(s: Space, request: MapRequest, page: U32, offset: Address)
    requires s.Valid() && MapFormAllowed(s, request) && page == ChoosePage(s.regions.value, request)
    requires PageSize(page) && Placed(s, request, page, offset) && s.generation + 1 < U64_LIMIT
    ensures EntryOk(offset, NewMapping(s, request, offset, page))
    ensures Resident(s.reservations, NewMapping(s, request, offset, page))
  {
    var m := NewMapping(s, request, offset, page);
    PlacedOk(s, request, page, offset);
    PageMultiple(request.size, page);
    if request.fixedOffset.Some? {
      var k :| k in s.reservations && s.reservations[k].Contains(m.offset, m.End());
      forall j | j in s.reservations && s.reservations[j].Contains(m.offset, m.End()) ensures j == k {
      }
      assert m.sparse == s.reservations[k].sparse;
    } else {
      forall k | k in s.reservations ensures !s.reservations[k].Contains(m.offset, m.End()) {
        assert !s.reservations[k].Overlaps(m.offset, m.End());
      }
    }
  }

  lemma InstallEvolves(s: Space, request: MapRequest, page: U32, offset: Address)
    requires s.Valid() && MapFormAllowed(s, request) && page == ChoosePage(s.regions.value, request)
    requires PageSize(page) && Placed(s, request, page, offset)
    requires s.generation + 1 < U64_LIMIT && s.nextMappingId + 1 < U64_LIMIT
    ensures var m := NewMapping(s, request, offset, page);
      var s' := s.(mappings := s.mappings[offset := m], nextMappingId := m.id + 1, generation := m.generation);
      s'.Valid() && Evolves(s, s') && Installed(s, s', request, m)
  {
    var m := NewMapping(s, request, offset, page);
    PlacedOk(s, request, page, offset);
    NewMappingOk(s, request, page, offset);
    AdvanceKeepsValid(s, m.generation);
    InsertKeepsValid(s.(generation := m.generation), m);
    forall a ensures Lookup(s.mappings[m.offset := m], a) ==
      if m.Covers(a) then Some(m.At(a)) else Lookup(s.mappings, a)
    {
      InsertLookup(s.mappings, m, a);
    }
  }

  // ----- reserve and free -----

  function RegionFor(regions: Regions, pageSize: U32): Option<Region> {
    if regions.small.pageSize == pageSize then Some(regions.small)
    else if regions.big.pageSize == pageSize then Some(regions.big)
    else None
  }

  function SpanOf(pages: U32, pageSize: nat): (size: U64)
    requires PageSize(pageSize)
    ensures size == pages * pageSize
  {
    if pageSize == 0x1000 then pages * 0x1000
    else if pageSize == 0x10000 then pages * 0x10000
    else pages * 0x20000
  }

  /** Exactly when a reservation is granted. Bit 0 of the flags asks for a fixed offset
      and bit 1 for a sparse reservation. */
  ghost predicate ReserveAllowed(s: Space, pages: U32, pageSize: U32, flags: U32, at: U64) {
    && s.regions.Some?
    && 0 < pages
    && flags < 4
    && RegionFor(s.regions.value, pageSize).Some?
    && 0 < pageSize
    && (flags / 2 == 1 ==> pageSize == s.regions.value.big.pageSize)
    && (var region := RegionFor(s.regions.value, pageSize).value;
        if flags % 2 == 1 then
          Fits(s, region, pages * pageSize, pageSize, at)
        else
          && IsPowerOfTwo(Max(at, pageSize))
          && Max(at, pageSize) % pageSize == 0
          && HasFit(s, region, pages * pageSize, Max(at, pageSize)))
  }

  /** What a granted reservation is: the fixed offset asked for, or the least fit. */
  ghost predicate Reserved(s: Space, s': Space, r: Reservation, pages: U32, pageSize: U32, flags: U32, at: U64)
    requires ReserveAllowed(s, pages, pageSize, flags, at)
  {
    && s' == s.(reservations := s.reservations[r.offset := r])
    && r == Reservation(r.offset, pages, pageSize, r.size, flags / 2 == 1)
    && r.size == pages * pageSize
    && (if flags % 2 == 1 then r.offset == at
        else LeastFit(s, RegionFor(s.regions.value, pageSize).value, r.size, Max(at, pageSize), r.offset))
  }

  /** The mappings that lie inside a reservation. */
  function Inside(s: Space, k: int): set<int>
    requires k in s.reservations
  {
    set j | j in s.mappings && s.reservations[k].Contains(j, s.mappings[j].End())
  }

  predicate FreeAllowed(s: Space, offset: Address, pages: U32, pageSize: U32) {
    && s.regions.Some?
    && offset in s.reservations
    && s.reservations[offset].pages == pages
    && s.reservations[offset].pageSize == pageSize
    && (s.generation + 1 < U64_LIMIT || Inside(s, offset) == {})
  }

  function CheckFree(s: Space, offset: Address, pages: U32, pageSize: U32): (r: Result<(), SpaceError>)
    ensures r.Ok? <==> FreeAllowed(s, offset, pages, pageSize)
  {
    if s.regions.None? then Err(NotInitialized)
    else if offset !in s.reservations then Err(UnknownReservation)
    else if s.reservations[offset].pages != pages || s.reservations[offset].pageSize != pageSize
    then Err(ReservationShapeMismatch)
    else if Inside(s, offset) != {} && s.generation + 1 == U64_LIMIT then Err(GenerationExhausted)
    else Ok(())
  }

  /** Exactly the released range becomes unmapped, mappings elsewhere are kept as they are, and the
      generation advances exactly when a mapping went. */
  ghost predicate Released(s: Space, s': Space, offset: int, r: Reservation) {
    && offset in s.reservations && r == s.reservations[offset]
    && s' == s.(reservations := s.reservations - {offset}, mappings := s'.mappings, generation := s'.generation)
    && s'.generation == s.generation + (if Inside(s, offset) != {} then 1 else 0)
    && (forall k :: k in s'.mappings <==> k in s.mappings && !r.Contains(k, s.mappings[k].End()))
    && (forall k :: k in s'.mappings ==> s'.mappings[k] == s.mappings[k])
    && forall a ::
         Lookup(s'.mappings, a) == if offset <= a < r.End() then None else Lookup(s.mappings, a)
  }

  lemma ReleaseEvolves(s: Space, k: int, g: U64)
    requires s.Valid() && k in s.reservations && g == s.generation + (if Inside(s, k) != {} then 1 else 0)
    ensures var s' := s.(reservations := s.reservations - {k}, mappings := s.mappings - Inside(s, k), generation := g);
      s'.Valid() && Evolves(s, s') && Released(s, s', k, s.reservations[k])
  {
    var keys := Inside(s, k);
    ReleaseKeepsValid(s, k, keys);
    AdvanceKeepsValid(s.(reservations := s.reservations - {k}, mappings := s.mappings - keys), g);
    ReleaseLookup(s, k);
  }

  lemma ReleaseLookup(s: Space, k: int)
    requires s.Valid() && k in s.reservations
    ensures forall a ::
      Lookup(s.mappings - Inside(s, k), a) == if k <= a < s.reservations[k].End() then None else Lookup(s.mappings, a)
  {
    var keys := Inside(s, k);
    ReleaseKeepsValid(s, k, keys);
    forall a ensures Lookup(s.mappings - keys, a) ==
      if k <= a < s.reservations[k].End() then None else Lookup(s.mappings, a)
    {
      RemoveLookup(s.mappings, keys, a);
      if k <= a < s.reservations[k].End() {
        var u := s.mappings - keys;
        forall j | j in u ensures !u[j].Covers(a) {
          assert !u[j].Overlaps(k, s.reservations[k].End());
        }
      }
    }
  }

  /** Some occupied range meets `lo..hi` and ends at `end`. */
  predicate Blocked(s: Space, lo: int, hi: int, end: int) {
    || (exists k :: k in s.reservations && s.reservations[k].Overlaps(lo, hi) && s.reservations[k].End() == end)
    || (exists k :: k in s.mappings && s.mappings[k].Overlaps(lo, hi) && s.mappings[k].End() == end)
  }

  /** No reservation that meets `lo..hi` ends past `end`. */
  predicate ReservationsEndBy(rs: Reservations, lo: int, hi: int, end: int) {
    forall k :: k in rs && rs[k].Overlaps(lo, hi) ==> rs[k].End() <= end
  }

  predicate MappingsEndBy(t: Table, lo: int, hi: int, end: int) {
    forall k :: k in t && t[k].Overlaps(lo, hi) ==> t[k].End() <= end
  }

  lemma OccupiedEnd(s: Space, k: int, lo: int, hi: int)
    requires s.Valid()
    ensures k in s.reservations && s.reservations[k].Overlaps(lo, hi) ==>
      s.reservations[k].End() <= ADDRESS_LIMIT && Blocked(s, lo, hi, s.reservations[k].End())
    ensures k in s.mappings && s.mappings[k].Overlaps(lo, hi) ==>
      s.mappings[k].End() <= ADDRESS_LIMIT && Blocked(s, lo, hi, s.mappings[k].End())
  {
    if k in s.reservations { assert ReservationOk(s.regions, k, s.reservations[k]); }
    if k in s.mappings { assert EntryOk(k, s.mappings[k]); }
  }

  ghost predicate HasFit(s: Space, region: Region, size: int, alignment: int)
    requires 0 < alignment
  {
    exists c :: Fits(s, region, size, alignment, c)
  }

  ghost predicate LeastFit(s: Space, region: Region, size: int, alignment: int, c: int)
    requires 0 < alignment
  {
    && Fits(s, region, size, alignment, c)
    && forall d :: Fits(s, region, size, alignment, d) ==> c <= d
  }

  /** No fit lies below the rounded-up value when none lies below the value itself. */
  lemma NoFitBelow(s: Space, region: Region, size: int, alignment: nat, value: nat)
    requires 0 < alignment
    requires forall c :: Fits(s, region, size, alignment, c) ==> value <= c
    ensures value <= RoundUp(value, alignment) && RoundUp(value, alignment) % alignment == 0
    ensures forall c :: Fits(s, region, size, alignment, c) ==> RoundUp(value, alignment) <= c
  {
    RoundUpLeast(value, alignment, 0);
    forall c | Fits(s, region, size, alignment, c) ensures RoundUp(value, alignment) <= c {
      RoundUpLeast(value, alignment, c);
    }
  }

  /** An alignment too large to round `value` up leaves no fit at or above it. */
  lemma NoFitPast(s: Space, region: Region, size: int, alignment: U64, value: U64)
    requires 0 < size && region.End() <= ADDRESS_LIMIT && value <= ADDRESS_LIMIT
    requires U64_LIMIT <= value + alignment - 1
    requires forall c :: Fits(s, region, size, alignment, c) ==> value <= c
    ensures !HasFit(s, region, size, alignment)
  {
    forall c | Fits(s, region, size, alignment, c) ensures false {
      assert 0 < c < alignment;
      SmallRemainder(c, alignment);
    }
  }

  lemma SmallRemainder(c: nat, n: nat)
    requires c < n
    ensures c % n == c
  {
  }

  lemma StillBlocked(s: Space, candidate: int, c: int, size: int, end: int)
    requires Blocked(s, candidate, candidate + size, end) && candidate <= c
    ensures c < end ==> !Unoccupied(s, c, c + size)
  {
  }

  /** A range blocking the candidate blocks every start up to the end of that range. */
  lemma NoFitAcross(s: Space, region: Region, size: int, alignment: nat, candidate: nat, end: nat)
    requires 0 < alignment && 0 < size && Blocked(s, candidate, candidate + size, end)
    requires forall c :: Fits(s, region, size, alignment, c) ==> candidate <= c
    ensures candidate < end <= RoundUp(end, alignment) && RoundUp(end, alignment) % alignment == 0
    ensures forall c :: Fits(s, region, size, alignment, c) ==> end <= c
    ensures forall c :: Fits(s, region, size, alignment, c) ==> RoundUp(end, alignment) <= c
  {
    forall c | Fits(s, region, size, alignment, c) ensures end <= c {
      StillBlocked(s, candidate, c, size, end);
    }
    NoFitBelow(s, region, size, alignment, end);
  }
}
