/** The state of one Maxwell GPU address space as a value: regions, reservations,
    the mapping table and the two counters, with the invariant every operation keeps. */
module SpaceState {
  import opened Canonical
  import opened MappingTable

  /** One page-size-specific allocator region. */
  datatype Region = Region(offset: Address, pageSize: nat, size: nat) {
    function End(): nat {
      offset + size
    }

    predicate Contains(lo: int, hi: int) {
      offset <= lo && hi <= End()
    }
  }

  datatype Regions = Regions(small: Region, big: Region) {
    predicate Valid() {
      && small.pageSize == SMALL_PAGE
      && (big.pageSize == 0x10000 || big.pageSize == 0x20000)
      && small.End() == big.offset
      && big.End() <= ADDRESS_LIMIT
    }

    predicate Has(region: Region) {
      region == small || region == big
    }
  }

  /** Reserved address space; `size` is `pages * pageSize`. */
  datatype Reservation = Reservation(offset: Address, pages: U32, pageSize: U32, size: nat, sparse: bool) {
    function End(): nat {
      offset + size
    }

    predicate Contains(lo: int, hi: int) {
      offset <= lo && hi <= End()
    }

    predicate Overlaps(lo: int, hi: int) {
      lo < End() && offset < hi
    }
  }

  type Reservations = map<int, Reservation>

  datatype Space = Space(
    id: U64, regions: Option<Regions>, reservations: Reservations, mappings: Table,
    nextMappingId: U64, generation: U64)
  {
    /** Holds after every operation on every history. */
    ghost predicate Valid() {
      && (regions.Some? ==> regions.value.Valid())
      && (regions.None? ==> reservations == map[] && mappings == map[])
      && ReservationsOk(regions, reservations)
      && TableOk(mappings)
      && Settled(reservations, mappings)
      && OneLifetimePerId(mappings)
      && Counted(mappings, nextMappingId, generation)
    }
  }

  /** Reservations are keyed by start, disjoint, and inside the region of their page size. */
  ghost predicate ReservationsOk(regions: Option<Regions>, rs: Reservations) {
    && (forall k :: k in rs ==> ReservationOk(regions, k, rs[k]))
    && (forall j, k :: j in rs && k in rs && j < k ==> rs[j].End() <= k)
  }

  predicate ReservationOk(regions: Option<Regions>, k: int, r: Reservation) {
    && r.offset == k
    && r.size == r.pages * r.pageSize
    && 0 < r.size
    && regions.Some?
    && InRegion(regions.value, r)
    && (r.sparse ==> r.pageSize == regions.value.big.pageSize)
  }

  predicate InRegion(regions: Regions, r: Reservation) {
    || (r.pageSize == regions.small.pageSize && regions.small.Contains(r.offset, r.End()))
    || (r.pageSize == regions.big.pageSize && regions.big.Contains(r.offset, r.End()))
  }

  ghost predicate InReservation(rs: Reservations, m: Mapping) {
    exists k :: k in rs && rs[k].Contains(m.offset, m.End()) && m.sparse == rs[k].sparse
  }

  predicate OutsideReservations(rs: Reservations, lo: int, hi: int) {
    forall k :: k in rs ==> !rs[k].Overlaps(lo, hi)
  }

  /** A mapping lies wholly inside one reservation, whose sparseness it carries, or
      touches none. */
  ghost predicate Resident(rs: Reservations, m: Mapping) {
    InReservation(rs, m) || (OutsideReservations(rs, m.offset, m.End()) && !m.sparse)
  }

  ghost predicate Settled(rs: Reservations, t: Table) {
    forall k :: k in t ==> Resident(rs, t[k])
  }

  /** What every piece of one mapping lifetime shares. */
  predicate SameLifetime(m: Mapping, n: Mapping) {
    && m.backingOffset - m.offset == n.backingOffset - n.offset
    && m.backing == n.backing
    && m.allocation == n.allocation
    && m.unmapOffset == n.unmapOffset
    && m.permissions == n.permissions
    && m.pageSize == n.pageSize
    && m.fixed == n.fixed
    && m.sparse == n.sparse
  }

  ghost predicate OneLifetimePerId(t: Table) {
    forall j, k :: j in t && k in t && t[j].id == t[k].id ==> SameLifetime(t[j], t[k])
  }

  ghost predicate Counted(t: Table, nextMappingId: int, generation: int) {
    forall k :: k in t ==> t[k].id < nextMappingId && t[k].generation <= generation
  }

  /** One operation of a linear history. Identities and generations never go back, and
      an entry that is not exactly an old one carries a generation newer than any before. */
  ghost predicate Evolves(s: Space, s': Space) {
    && s'.id == s.id
    && s.generation <= s'.generation
    && s.nextMappingId <= s'.nextMappingId
    && (forall k :: k in s'.mappings ==>
          (k in s.mappings && s'.mappings[k] == s.mappings[k])
          || s.generation < s'.mappings[k].generation)
  }

  /** A refused operation is a step of a history too. */
  lemma StandsStill(s: Space)
    ensures Evolves(s, s)
  {
  }

  lemma ReserveEvolves(s: Space, r: Reservation)
    requires s.Valid()
    ensures Evolves(s, s.(reservations := s.reservations[r.offset := r]))
  {
  }

  // ----- how edits keep the invariant -----

  lemma PieceResident(rs: Reservations, p: Mapping, m: Mapping, g: int)
    requires PieceOf(p, m, g) && Resident(rs, m)
    ensures Resident(rs, p)
  {
    PieceExtent(p, m, g);
    if InReservation(rs, m) {
      var k :| k in rs && rs[k].Contains(m.offset, m.End()) && m.sparse == rs[k].sparse;
      assert rs[k].Contains(p.offset, p.End());
    }
  }

  lemma PieceLifetime(p: Mapping, m: Mapping, g: int)
    requires PieceOf(p, m, g)
    ensures SameLifetime(p, m) && p.id == m.id
  {
  }

  lemma DescendsLifetimes(u: Table, t: Table, g: int)
    requires Descends(u, t, g) && OneLifetimePerId(t)
    ensures OneLifetimePerId(u)
  {
    forall i, j | i in u && j in u && u[i].id == u[j].id ensures SameLifetime(u[i], u[j]) {
      assert HasParent(t, u[i], g) && HasParent(t, u[j], g);
      var ki :| ki in t && PieceOf(u[i], t[ki], g);
      var kj :| kj in t && PieceOf(u[j], t[kj], g);
      PieceLifetime(u[i], t[ki], g);
      PieceLifetime(u[j], t[kj], g);
    }
  }

  /** Replacing entries by pieces of them, stamped with the current generation. */
  lemma EditKeepsValid(s: Space, u: Table)
    requires s.Valid() && s.regions.Some?
    requires TableOk(u) && Descends(u, s.mappings, s.generation)
    ensures s.(mappings := u).Valid()
  {
    DescendsLifetimes(u, s.mappings, s.generation);
    forall j | j in u
      ensures Resident(s.reservations, u[j]) && u[j].id < s.nextMappingId && u[j].generation <= s.generation
    {
      assert HasParent(s.mappings, u[j], s.generation);
      var k :| k in s.mappings && PieceOf(u[j], s.mappings[k], s.generation);
      PieceResident(s.reservations, u[j], s.mappings[k], s.generation);
    }
  }

  lemma RemovalKeepsValid(s: Space, keys: set<int>)
    requires s.Valid() && s.regions.Some?
    ensures s.(mappings := s.mappings - keys).Valid()
  {
    var u := s.mappings - keys;
    forall j | j in u ensures HasParent(s.mappings, u[j], s.generation) {
      assert PieceOf(u[j], s.mappings[j], s.generation);
    }
    RemoveLookup(s.mappings, keys, 0);
    EditKeepsValid(s, u);
  }

  /** Adding a mapping of a fresh identity over unmapped addresses. */
  lemma InsertKeepsValid(s: Space, m: Mapping)
    requires s.Valid() && s.regions.Some?
    requires EntryOk(m.offset, m) && Free(s.mappings, m.offset, m.End())
    requires Resident(s.reservations, m)
    requires m.id == s.nextMappingId && m.id + 1 < U64_LIMIT && m.generation <= s.generation
    ensures s.(mappings := s.mappings[m.offset := m], nextMappingId := m.id + 1).Valid()
  {
    InsertOk(s.mappings, m);
  }

  lemma AdvanceKeepsValid(s: Space, g: U64)
    requires s.Valid() && s.generation <= g
    ensures s.(generation := g).Valid()
  {
  }

  lemma ReserveKeepsResident(rs: Reservations, r: Reservation, m: Mapping)
    requires r.offset !in rs && Resident(rs, m) && !m.Overlaps(r.offset, r.End())
    ensures Resident(rs[r.offset := r], m)
  {
    var rs' := rs[r.offset := r];
    if InReservation(rs, m) {
      var j :| j in rs && rs[j].Contains(m.offset, m.End()) && m.sparse == rs[j].sparse;
      assert rs'[j] == rs[j];
    }
  }

  /** Adding a reservation over addresses that nothing occupies. */
  lemma ReserveKeepsValid(s: Space, r: Reservation)
    requires s.Valid() && ReservationOk(s.regions, r.offset, r)
    requires OutsideReservations(s.reservations, r.offset, r.End())
    requires Free(s.mappings, r.offset, r.End())
    ensures s.(reservations := s.reservations[r.offset := r]).Valid()
  {
    var rs := s.reservations[r.offset := r];
    assert r.offset !in s.reservations;
    assert ReservationsOk(s.regions, rs);
    forall k | k in s.mappings ensures Resident(rs, s.mappings[k]) {
      ReserveKeepsResident(s.reservations, r, s.mappings[k]);
    }
  }

  lemma ReleaseKeepsResident(regions: Option<Regions>, rs: Reservations, k: int, m: Mapping)
    requires ReservationsOk(regions, rs) && 0 < m.size && k in rs && Resident(rs, m) && !rs[k].Contains(m.offset, m.End())
    ensures Resident(rs - {k}, m) && !rs[k].Overlaps(m.offset, m.End())
  {
    if InReservation(rs, m) {
      var i :| i in rs && rs[i].Contains(m.offset, m.End()) && m.sparse == rs[i].sparse;
      assert i != k;
      assert (rs - {k})[i] == rs[i];
    }
  }

  /** Dropping a reservation together with the mappings inside it. */
  lemma ReleaseKeepsValid(s: Space, k: int, keys: set<int>)
    requires s.Valid() && k in s.reservations
    requires forall j :: j in keys <==>
      j in s.mappings && s.reservations[k].Contains(j, s.mappings[j].End())
    ensures s.(reservations := s.reservations - {k}, mappings := s.mappings - keys).Valid()
    ensures Free(s.mappings - keys, k, s.reservations[k].End())
  {
    RemovalKeepsValid(s, keys);
    var rs := s.reservations - {k};
    forall j | j in s.mappings && j !in keys
      ensures Resident(rs, s.mappings[j]) && !s.mappings[j].Overlaps(k, s.reservations[k].End())
    {
      assert EntryOk(j, s.mappings[j]);
      ReleaseKeepsResident(s.regions, s.reservations, k, s.mappings[j]);
    }
  }

  // ----- stamps -----

  lemma DescendsStamped(u: Table, t: Table, g: int)
    requires TableOk(u) && TableOk(t) && Descends(u, t, g)
    ensures Stamped(u, t, g)
  {
    forall j | j in u ensures (j in t && u[j] == t[j]) || u[j].generation == g {
      assert HasParent(t, u[j], g);
      var k :| k in t && PieceOf(u[j], t[k], g);
      assert t[k].offset == k;
    }
  }

  lemma StampedEvolves(s: Space, s': Space)
    requires Stamped(s'.mappings, s.mappings, s'.generation)
    requires s'.id == s.id && s.generation < s'.generation && s.nextMappingId <= s'.nextMappingId
    ensures Evolves(s, s')
  {
  }
}
