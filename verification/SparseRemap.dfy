/** Sparse remap: an atomic list of big-page replacements inside sparse reservations, and
    the modification of part of one mapping. */
module SparseRemap {
  import opened Canonical
  import opened MappingTable
  import opened SpaceState
  import opened TableEdits
  import opened SpaceOperations

  // ----- which lists are accepted -----

  predicate InsideSparse(rs: Reservations, request: RemapRequest) {
    exists k :: k in rs && rs[k].Contains(request.offset, request.End()) && rs[k].sparse
  }

  predicate SourceAllowed(source: SparseMapping, size: U64, page: nat)
    requires PageSize(page)
  {
    && source.kind != INVALID_PTE_KIND
    && source.backingOffset + size <= source.backing.Size()
    && source.backingOffset + size < U64_LIMIT
    && source.permissions != {}
    && source.backing.Grants(source.permissions)
    && PageAligned(source.backingOffset, page)
  }

  predicate EntryAllowed(s: Space, request: RemapRequest, page: nat)
    requires PageSize(page)
  {
    && 0 < request.size
    && PageAligned(request.offset, page)
    && PageAligned(request.size, page)
    && InsideSparse(s.reservations, request)
    && (request.mapping.Some? ==> SourceAllowed(request.mapping.value, request.size, page))
  }

  function CheckSource(source: SparseMapping, size: U64, page: U32): (r: Result<(), SpaceError>)
    requires PageSize(page) && 0 < size
    ensures r.Ok? <==> SourceAllowed(source, size, page)
  {
    var backing := ValidateBacking(source.backing, source.backingOffset, size, source.permissions);
    if source.kind == INVALID_PTE_KIND then Err(InvalidKind(source.kind))
    else if backing.Err? then Err(backing.error)
    else if !PageAligned(source.backingOffset, page)
    then Err(MisalignedBackingRange(source.backingOffset, size, page))
    else Ok(())
  }

  function CheckEntry(s: Space, request: RemapRequest, page: U32): (r: Result<(), SpaceError>)
    requires s.Valid() && PageSize(page)
    ensures r.Ok? <==> EntryAllowed(s, request, page)
  {
    if request.size == 0 then Err(EmptyMapping)
    else if !PageAligned(request.offset, page) || !PageAligned(request.size, page)
    then Err(MisalignedAddress(request.offset, page))
    else if U64_LIMIT <= request.End() then
      ReservationBound(s, request.offset, request.End());
      Err(ArithmeticOverflow)
    else if !exists k :: k in s.reservations && s.reservations[k].Contains(request.offset, request.End())
    then Err(OutsideReservation)
    else if !InsideSparse(s.reservations, request) then Err(NonSparseReservation)
    else if request.mapping.None? then Ok(())
    else CheckSource(request.mapping.value, request.size, page)
  }

  predicate Apart(x: RemapRequest, y: RemapRequest) {
    x.End() <= y.offset || y.End() <= x.offset
  }

  predicate ListAllowed(s: Space, requests: seq<RemapRequest>, page: nat)
    requires PageSize(page)
  {
    && (forall i :: 0 <= i < |requests| ==> EntryAllowed(s, requests[i], page))
    && (forall i, j :: 0 <= i < j < |requests| ==> Apart(requests[i], requests[j]))
  }

  /** Checks every entry, and against every earlier one, before anything changes. */
  method ValidateList(s: Space, requests: seq<RemapRequest>, page: U32) returns (r: Result<(), SpaceError>)
    requires s.Valid() && PageSize(page)
    ensures r.Ok? <==> ListAllowed(s, requests, page)
  {
    hide EntryAllowed, CheckEntry, Apart;
    for i := 0 to |requests|
      invariant ListAllowed(s, requests[..i], page)
    {
      var check := CheckEntry(s, requests[i], page);
      if check.Err? {
        assert !EntryAllowed(s, requests[i], page);
        return Err(check.error);
      }
      for j := 0 to i
        invariant forall n :: 0 <= n < j ==> Apart(requests[n], requests[i])
      {
        if !Apart(requests[j], requests[i]) {
          return Err(OverlappingRemapEntries);
        }
      }
    }
    assert requests[..|requests|] == requests;
    r := Ok(());
  }

  // ----- what an accepted list does -----

  function CountMapped(requests: seq<RemapRequest>): nat {
    if requests == [] then 0
    else CountMapped(requests[..|requests| - 1]) + (if requests[|requests| - 1].mapping.Some? then 1 else 0)
  }

  /** The mapping a remap entry installs: identities are dealt in request order. */
  function SparseEntry(request: RemapRequest, id: U64, page: nat, g: U64): Mapping
    requires request.mapping.Some?
  {
    var source := request.mapping.value;
    Mapping(id, request.offset, request.offset, request.size, source.allocation, source.backing,
            source.backingOffset, source.permissions, page, source.kind, source.cacheable, g, true, true)
  }

  predicate IdsRemain(s: Space, requests: seq<RemapRequest>) {
    s.nextMappingId + CountMapped(requests) < U64_LIMIT
  }

  lemma CountPrefix(requests: seq<RemapRequest>, i: nat)
    requires i <= |requests|
    ensures CountMapped(requests[..i]) <= CountMapped(requests)
    ensures i < |requests| ==> CountMapped(requests[..i + 1]) ==
                               CountMapped(requests[..i]) + (if requests[i].mapping.Some? then 1 else 0)
    decreases |requests| - i
  {
    if i < |requests| {
      assert requests[..i + 1][..i] == requests[..i];
      CountPrefix(requests, i + 1);
    } else {
      assert requests[..i] == requests;
    }
  }

  ghost function EntryTranslation(s: Space, requests: seq<RemapRequest>, i: nat, page: nat, a: int): Option<Translation>
    requires i < |requests| && IdsRemain(s, requests)
  {
    CountPrefix(requests, i);
    if requests[i].mapping.None? then None
    else Some(SparseEntry(requests[i], s.nextMappingId + CountMapped(requests[..i]), page, 0).At(a))
  }

  /** The first `i` entries have been applied. */
  ghost predicate RemappedTo(s: Space, u: Table, requests: seq<RemapRequest>, i: nat, page: nat)
    requires i <= |requests| && IdsRemain(s, requests)
  {
    && (forall j, a :: 0 <= j < i && requests[j].Covers(a) ==>
          Lookup(u, a) == EntryTranslation(s, requests, j, page, a))
    && (forall a :: (forall j :: 0 <= j < i ==> !requests[j].Covers(a)) ==> Lookup(u, a) == Lookup(s.mappings, a))
  }

  /** The mapping meets one of the first `i` entries. */
  ghost predicate Meets(requests: seq<RemapRequest>, i: nat, m: Mapping) {
    exists j :: 0 <= j < i && j < |requests| && m.Overlaps(requests[j].offset, requests[j].End())
  }

  /** Only entries that meet a request are edited: the others are kept as they are, and whatever is
      not one of those carries generation `g`. */
  ghost predicate RemapsOnly(u: Table, t: Table, requests: seq<RemapRequest>, i: nat, g: int) {
    && (forall k :: k in t && !Meets(requests, i, t[k]) ==> k in u && u[k] == t[k])
    && (forall k :: k in u ==> u[k].generation == g || (k in t && u[k] == t[k] && !Meets(requests, i, t[k])))
  }

  lemma MeetsStep(requests: seq<RemapRequest>, i: nat, m: Mapping)
    requires i < |requests|
    ensures Meets(requests, i + 1, m) <==>
            Meets(requests, i, m) || m.Overlaps(requests[i].offset, requests[i].End())
  {
  }

  lemma RemapsOnlyErased(u: Table, v: Table, t: Table, requests: seq<RemapRequest>, i: nat, g: int)
    requires i < |requests| && RemapsOnly(u, t, requests, i, g)
    requires EditsOnly(v, u, requests[i].offset, requests[i].End(), g)
    ensures RemapsOnly(v, t, requests, i + 1, g)
  {
    forall k | k in t ensures Meets(requests, i + 1, t[k]) <==>
      Meets(requests, i, t[k]) || t[k].Overlaps(requests[i].offset, requests[i].End())
    {
      MeetsStep(requests, i, t[k]);
    }
  }

  lemma RemapsOnlyInserted(v: Table, t: Table, requests: seq<RemapRequest>, i: nat, g: int, m: Mapping)
    requires RemapsOnly(v, t, requests, i, g) && m.generation == g && m.offset !in v
    ensures RemapsOnly(v[m.offset := m], t, requests, i, g)
  {
  }

  /** The state of a remap in progress. */
  ghost function Partial(s: Space, u: Table, id: U64, g: U64): Space {
    s.(mappings := u, nextMappingId := id, generation := g)
  }

  ghost predicate Applying(s: Space, u: Table, id: U64, requests: seq<RemapRequest>, i: nat, page: nat, g: U64)
    requires i <= |requests| && IdsRemain(s, requests)
  {
    && Partial(s, u, id, g).Valid()
    && Stamped(u, s.mappings, g)
    && id == s.nextMappingId + CountMapped(requests[..i])
    && RemappedTo(s, u, requests, i, page)
    && RemapsOnly(u, s.mappings, requests, i, g)
  }

  lemma SparseEntryOk(s: Space, request: RemapRequest, id: U64, page: nat, g: U64)
    requires s.Valid() && PageSize(page) && EntryAllowed(s, request, page) && request.mapping.Some?
    ensures EntryOk(request.offset, SparseEntry(request, id, page, g))
    ensures Resident(s.reservations, SparseEntry(request, id, page, g))
  {
    PageMultiple(request.offset, page);
    PageMultiple(request.size, page);
    ReservationBound(s, request.offset, request.End());
    var m := SparseEntry(request, id, page, g);
    assert InReservation(s.reservations, m);
  }

  lemma StampedTransitive(v: Table, u: Table, t: Table, g: int)
    requires Stamped(v, u, g) && Stamped(u, t, g)
    ensures Stamped(v, t, g)
  {
  }

  /** One more entry: first the range is erased, then the new mapping is put in. */
  lemma ApplyErased(s: Space, u: Table, v: Table, id: U64, g: U64)
    requires s.regions.Some? && Partial(s, u, id, g).Valid() && Stamped(u, s.mappings, g)
    requires TableOk(v) && Descends(v, u, g)
    ensures Partial(s, v, id, g).Valid() && Stamped(v, s.mappings, g)
  {
    EditKeepsValid(Partial(s, u, id, g), v);
    DescendsStamped(v, u, g);
    StampedTransitive(v, u, s.mappings, g);
  }

  lemma ApplyInserted(s: Space, v: Table, request: RemapRequest, id: U64, page: nat, g: U64)
    requires s.Valid() && s.regions.Some? && PageSize(page) && EntryAllowed(s, request, page) && request.mapping.Some?
    requires Partial(s, v, id, g).Valid() && Stamped(v, s.mappings, g)
    requires MappingTable.Free(v, request.offset, request.End()) && id + 1 < U64_LIMIT
    ensures var w := v[request.offset := SparseEntry(request, id, page, g)];
      && Partial(s, w, id + 1, g).Valid() && Stamped(w, s.mappings, g)
      && forall a ::
           Lookup(w, a) == if request.Covers(a) then Some(SparseEntry(request, id, page, g).At(a)) else Lookup(v, a)
  {
    var m := SparseEntry(request, id, page, g);
    SparseEntryOk(s, request, id, page, g);
    InsertKeepsValid(Partial(s, v, id, g), m);
    forall a {
      InsertLookup(v, m, a);
    }
  }

  lemma RemapStep(s: Space, u: Table, w: Table, requests: seq<RemapRequest>, i: nat, page: nat)
    requires i < |requests| && IdsRemain(s, requests) && RemappedTo(s, u, requests, i, page)
    requires forall j :: 0 <= j < i ==> Apart(requests[j], requests[i])
    requires forall a ::
      Lookup(w, a) == if requests[i].Covers(a) then EntryTranslation(s, requests, i, page, a) else Lookup(u, a)
    ensures RemappedTo(s, w, requests, i + 1, page)
  {
  }

  lemma ApplyingStart(s: Space, requests: seq<RemapRequest>, page: nat, g: U64)
    requires s.Valid() && s.regions.Some? && IdsRemain(s, requests) && g == s.generation + 1
    ensures Applying(s, s.mappings, s.nextMappingId, requests, 0, page, g)
  {
    hide TableOk, Lookup;
    AdvanceKeepsValid(s, g);
  }

  lemma ApplyingEnd(s: Space, u: Table, id: U64, requests: seq<RemapRequest>, page: nat, g: U64)
    requires IdsRemain(s, requests) && Applying(s, u, id, requests, |requests|, page, g)
    ensures id == s.nextMappingId + CountMapped(requests)
  {
    hide Space.Valid, Stamped, RemappedTo, RemapsOnly;
    assert requests[..|requests|] == requests;
  }

  /** Applies an accepted list to a copy of the table, in order. */
  method ApplyList(s: Space, requests: seq<RemapRequest>, page: U32) returns (u: Table)
    requires s.Valid() && s.regions.Some? && PageSize(page) && ListAllowed(s, requests, page)
    requires IdsRemain(s, requests) && s.generation + 1 < U64_LIMIT
    ensures Applying(s, u, s.nextMappingId + CountMapped(requests), requests, |requests|, page, s.generation + 1)
  {
    hide Applying, Space.Valid, ListAllowed, CountMapped, IdsRemain;
    var g := s.generation + 1;
    var id := s.nextMappingId;
    u := s.mappings;
    ApplyingStart(s, requests, page, g);
    for i := 0 to |requests|
      invariant Applying(s, u, id, requests, i, page, g)
    {
      u, id := ApplyEntry(s, u, id, requests, i, page);
    }
    ApplyingEnd(s, u, id, requests, page, g);
  }

  lemma EntryTranslationIs(s: Space, requests: seq<RemapRequest>, i: nat, page: nat, id: U64, g: U64)
    requires i < |requests| && IdsRemain(s, requests) && requests[i].mapping.Some?
    requires id == s.nextMappingId + CountMapped(requests[..i])
    ensures forall a :: EntryTranslation(s, requests, i, page, a) == Some(SparseEntry(requests[i], id, page, g).At(a))
  {
  }

  ghost predicate Erased(u: Table, v: Table, request: RemapRequest, g: U64) {
    && TableOk(v) && Descends(v, u, g)
    && (forall a :: Lookup(v, a) == if request.Covers(a) then None else Lookup(u, a))
    && MappingTable.Free(v, request.offset, request.End())
    && EditsOnly(v, u, request.offset, request.End(), g)
  }

  lemma FreeStart(v: Table, lo: int, hi: int)
    requires TableOk(v) && MappingTable.Free(v, lo, hi) && lo < hi
    ensures lo !in v
  {
  }

  lemma AppliedUnmap(s: Space, u: Table, v: Table, id: U64, requests: seq<RemapRequest>, i: nat, page: nat, g: U64)
    requires s.regions.Some? && PageSize(page) && ListAllowed(s, requests, page) && IdsRemain(s, requests)
    requires i < |requests| && requests[i].mapping.None? && Applying(s, u, id, requests, i, page, g)
    requires Erased(u, v, requests[i], g)
    ensures Applying(s, v, id, requests, i + 1, page, g)
  {
    hide TableOk, Lookup, Descends, EntryAllowed, EditsOnly, RemapsOnly, Stamped;
    CountPrefix(requests, i);
    ApplyErased(s, u, v, id, g);
    RemapsOnlyErased(u, v, s.mappings, requests, i, g);
    RemapStep(s, u, v, requests, i, page);
  }

  lemma AppliedMap(s: Space, u: Table, v: Table, id: U64, requests: seq<RemapRequest>, i: nat, page: nat, g: U64)
    requires s.Valid() && s.regions.Some? && PageSize(page) && ListAllowed(s, requests, page) && IdsRemain(s, requests)
    requires i < |requests| && requests[i].mapping.Some? && Applying(s, u, id, requests, i, page, g)
    requires Erased(u, v, requests[i], g) && id + 1 < U64_LIMIT
    ensures Applying(s, v[requests[i].offset := SparseEntry(requests[i], id, page, g)], id + 1, requests, i + 1, page, g)
  {
    assert 0 < requests[i].size;
    hide TableOk, Lookup, Descends, EntryAllowed, EditsOnly, RemapsOnly, Stamped, MappingTable.Free;
    var w := v[requests[i].offset := SparseEntry(requests[i], id, page, g)];
    CountPrefix(requests, i);
    ApplyErased(s, u, v, id, g);
    ApplyInserted(s, v, requests[i], id, page, g);
    FreeStart(v, requests[i].offset, requests[i].End());
    RemapsOnlyErased(u, v, s.mappings, requests, i, g);
    RemapsOnlyInserted(v, s.mappings, requests, i + 1, g, SparseEntry(requests[i], id, page, g));
    EntryTranslationIs(s, requests, i, page, id, g);
    RemapStep(s, u, w, requests, i, page);
  }

  lemma ErasedBy(t: Table, v: Table, request: RemapRequest, g: U64)
    requires TableOk(v) && Descends(v, t, g) && EditsOnly(v, t, request.offset, request.End(), g)
    requires MappingTable.Free(v, request.offset, request.End())
    requires forall a :: Lookup(v, a) == if request.offset <= a < request.End() then None else Lookup(t, a)
    ensures Erased(t, v, request, g)
  {
    hide TableOk, Descends, EditsOnly, Lookup, MappingTable.Free;
  }

  lemma ApplyingTable(s: Space, u: Table, id: U64, requests: seq<RemapRequest>, i: nat, page: nat, g: U64)
    requires PageSize(page) && ListAllowed(s, requests, page) && IdsRemain(s, requests) && i < |requests|
    requires Applying(s, u, id, requests, i, page, g)
    ensures TableOk(u) && PageRange(requests[i].offset, requests[i].End())
  {
    hide TableOk, Stamped, RemappedTo, RemapsOnly, PageRange;
    AlignedRange(requests[i].offset, requests[i].size, page);
  }

  lemma IdRemains(s: Space, u: Table, id: U64, requests: seq<RemapRequest>, i: nat, page: nat, g: U64)
    requires i < |requests| && IdsRemain(s, requests) && requests[i].mapping.Some?
    requires Applying(s, u, id, requests, i, page, g)
    ensures id + 1 < U64_LIMIT
  {
    hide Space.Valid, Stamped, RemappedTo, RemapsOnly;
    CountPrefix(requests, i);
    CountPrefix(requests, i + 1);
  }

  method ApplyEntry(s: Space, t: Table, id: U64, requests: seq<RemapRequest>, i: nat, page: U32)
    returns (u: Table, nextId: U64)
    requires s.Valid() && s.regions.Some? && PageSize(page) && ListAllowed(s, requests, page)
    requires IdsRemain(s, requests) && s.generation + 1 < U64_LIMIT && i < |requests|
    requires Applying(s, t, id, requests, i, page, s.generation + 1)
    ensures Applying(s, u, nextId, requests, i + 1, page, s.generation + 1)
  {
    hide Applying, Space.Valid, ListAllowed, CountMapped, IdsRemain, Erased, TableOk, Lookup, Descends, EditsOnly,
         MappingTable.Free, SparseEntry, PageRange;
    var g, request := s.generation + 1, requests[i];
    ApplyingTable(s, t, id, requests, i, page, g);
    var erased := ReplaceMappingRange(t, request.offset, request.End(), g);
    ErasedBy(t, erased, request, g);
    if request.mapping.Some? {
      IdRemains(s, t, id, requests, i, page, g);
      AppliedMap(s, t, erased, id, requests, i, page, g);
      return erased[request.offset := SparseEntry(request, id, page, g)], id + 1;
    }
    AppliedUnmap(s, t, erased, id, requests, i, page, g);
    return erased, id;
  }

  /** Exactly when a remap list is applied. */
  predicate RemapAllowed(s: Space, requests: seq<RemapRequest>)
    requires s.Valid()
  {
    && s.regions.Some?
    && requests != []
    && ListAllowed(s, requests, s.regions.value.big.pageSize)
    && s.generation + 1 < U64_LIMIT
    && IdsRemain(s, requests)
  }

  /** A remap is one pointwise update: inside an entry its new mapping or nothing, everywhere
      else the old translation. Mappings that meet no entry are kept as they are. */
  ghost predicate Remapped(s: Space, s': Space, requests: seq<RemapRequest>)
    requires s.Valid() && RemapAllowed(s, requests)
  {
    && s' == s.(mappings := s'.mappings, nextMappingId := s'.nextMappingId, generation := s'.generation)
    && s'.nextMappingId == s.nextMappingId + CountMapped(requests)
    && s'.generation == s.generation + 1
    && RemappedTo(s, s'.mappings, requests, |requests|, s.regions.value.big.pageSize)
    && RemapsOnly(s'.mappings, s.mappings, requests, |requests|, s'.generation)
  }

  // ----- modification of a sub-range -----

  /** The range is page aligned and every address in it belongs to the lifetime of `m`. */
  ghost predicate Covered(t: Table, m: Mapping, lo: int, size: int)
    requires PageSize(m.pageSize)
  {
    && PageAligned(lo, m.pageSize)
    && PageAligned(size, m.pageSize)
    && forall a :: lo <= a < lo + size ==> BelongsTo(Lookup(t, a), m.id)
  }

  /** Exactly when a modification is applied. */
  ghost predicate ModifyAllowed(s: Space, unmapOffset: int, within: int, size: int, kind: U8)
    requires s.Valid()
  {
    && s.regions.Some?
    && kind != INVALID_PTE_KIND
    && 0 < size
    && (exists m :: Picks(s.mappings, unmapOffset, m) && EntryOk(m.offset, m)
                    && Covered(s.mappings, m, unmapOffset + within, size))
    && s.generation + 1 < U64_LIMIT
  }

  /** Only kind and cacheability change, and only inside the range; mappings that do not meet the
      range are kept as they are, and the pieces of the others carry the new generation. */
  ghost predicate Modified(s: Space, s': Space, lo: int, hi: int, kind: U8, cacheable: bool) {
    && s' == s.(mappings := s'.mappings, generation := s'.generation)
    && s'.generation == s.generation + 1
    && EditsOnly(s'.mappings, s.mappings, lo, hi, s'.generation)
    && forall a ::
         Lookup(s'.mappings, a) ==
         if lo <= a < hi then Paint(kind, cacheable).Apply(Lookup(s.mappings, a)) else Lookup(s.mappings, a)
  }

  lemma PicksIsUnique(t: Table, unmapOffset: int, m: Mapping, n: Mapping)
    requires Picks(t, unmapOffset, m) && Picks(t, unmapOffset, n)
    ensures m == n
  {
  }

  lemma BelongsInside(t: Table, id: U64, a: int)
    requires TableOk(t) && BelongsTo(Lookup(t, a), id)
    ensures 0 <= a < ADDRESS_LIMIT
  {
    var k :| k in t && t[k].Covers(a);
    assert EntryOk(k, t[k]);
  }

  lemma OverlapsBelong(t: Table, id: U64, lo: int, hi: int)
    requires TableOk(t) && forall a :: lo <= a < hi ==> BelongsTo(Lookup(t, a), id)
    ensures forall k :: k in t && t[k].Overlaps(lo, hi) && lo < hi ==> t[k].id == id
  {
    forall k | k in t && t[k].Overlaps(lo, hi) && lo < hi ensures t[k].id == id {
      LookupAt(t, k, Max(k, lo));
      assert BelongsTo(Lookup(t, Max(k, lo)), id);
    }
  }

  lemma CoveredRange(t: Table, m: Mapping, lo: int, size: int)
    requires TableOk(t) && EntryOk(m.offset, m) && 0 < size && Covered(t, m, lo, size)
    ensures PageRange(lo, lo + size) && lo + size <= ADDRESS_LIMIT
    ensures forall k :: k in t && t[k].Overlaps(lo, lo + size) ==> t[k].id == m.id
  {
    AlignedRange(lo, size, m.pageSize);
    assert BelongsTo(Lookup(t, lo + size - 1), m.id);
    BelongsInside(t, m.id, lo + size - 1);
    OverlapsBelong(t, m.id, lo, lo + size);
  }

  lemma ModifyEvolves(s: Space, u: Table)
    requires s.Valid() && s.regions.Some? && s.generation + 1 < U64_LIMIT
    requires TableOk(u) && Descends(u, s.mappings, s.generation + 1)
    ensures s.(mappings := u, generation := s.generation + 1).Valid()
    ensures Evolves(s, s.(mappings := u, generation := s.generation + 1))
  {
    AdvanceKeepsValid(s, s.generation + 1);
    EditKeepsValid(s.(generation := s.generation + 1), u);
    DescendsStamped(u, s.mappings, s.generation + 1);
  }
}
