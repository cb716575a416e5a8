/** The interval table of a GPU address space and the per-address function it
    stands for. Keys are start addresses, so `j < k` orders two entries. */
module MappingTable {
  import opened Canonical

  /** Everything an access learns about one GPU address. */
  datatype Translation = Translation(
    id: U64, unmapOffset: Address, allocation: U64, backing: Backing, byte: int,
    permissions: Permissions, pageSize: nat, kind: U8, cacheable: bool, fixed: bool, sparse: bool)

  /** One active interval. `generation` and the extent are not part of the translation. */
  datatype Mapping = Mapping(
    id: U64, unmapOffset: Address, offset: Address, size: nat, allocation: U64,
    backing: Backing, backingOffset: nat, permissions: Permissions, pageSize: nat,
    kind: U8, cacheable: bool, generation: U64, fixed: bool, sparse: bool)
  {
    function End(): nat {
      offset + size
    }

    predicate Covers(a: int) {
      offset <= a < End()
    }

    predicate Overlaps(lo: int, hi: int) {
      lo < End() && offset < hi
    }

    function At(a: int): Translation {
      Translation(id, unmapOffset, allocation, backing, backingOffset + (a - offset),
                  permissions, pageSize, kind, cacheable, fixed, sparse)
    }
  }

  type Table = map<int, Mapping>

  const SMALL_PAGE: nat := 0x1000
  const INVALID_PTE_KIND: U8 := 0xff

  predicate PageSize(p: int) {
    p == 0x1000 || p == 0x10000 || p == 0x20000
  }

  /** `n` is a multiple of page size `p`. */
  predicate PageAligned(n: int, p: int)
    requires PageSize(p)
  {
    if p == 0x1000 then n % 0x1000 == 0
    else if p == 0x10000 then n % 0x10000 == 0
    else n % 0x20000 == 0
  }

  lemma PageMultiple(n: int, p: int)
    requires PageSize(p)
    ensures PageAligned(n, p) ==> n % SMALL_PAGE == 0
  {
  }

  lemma PageRemainder(n: int, p: int)
    requires PageSize(p)
    ensures PageAligned(n, p) <==> n % p == 0
  {
  }

  predicate EntryOk(k: int, m: Mapping) {
    && m.offset == k
    && 0 < m.size
    && m.End() <= ADDRESS_LIMIT
    && m.offset % SMALL_PAGE == 0
    && m.size % SMALL_PAGE == 0
    && m.backingOffset + m.size <= m.backing.Size()
    && m.backing.Grants(m.permissions)
    && m.permissions != {}
    && PageSize(m.pageSize)
    && m.kind != INVALID_PTE_KIND
  }

  /** Entries are keyed by start and pairwise disjoint. */
  ghost predicate TableOk(t: Table) {
    && (forall k :: k in t ==> EntryOk(k, t[k]))
    && (forall j, k :: j in t && k in t && j < k ==> t[j].End() <= k)
  }

  ghost predicate Mapped(t: Table, a: int) {
    exists k :: k in t && t[k].Covers(a)
  }

  /** The meaning of a table: what each GPU address translates to. */
  ghost function Lookup(t: Table, a: int): Option<Translation> {
    if Mapped(t, a) then
      var k :| k in t && t[k].Covers(a);
      Some(t[k].At(a))
    else
      None
  }

  lemma CoverIsUnique(t: Table, j: int, k: int, a: int)
    requires TableOk(t)
    requires j in t && k in t && t[j].Covers(a) && t[k].Covers(a)
    ensures j == k
  {
  }

  lemma LookupAt(t: Table, k: int, a: int)
    requires TableOk(t) && k in t && t[k].Covers(a)
    ensures Lookup(t, a) == Some(t[k].At(a))
  {
    var j :| j in t && t[j].Covers(a) && Lookup(t, a) == Some(t[j].At(a));
    CoverIsUnique(t, j, k, a);
  }

  lemma LookupNone(t: Table, a: int)
    requires forall k :: k in t ==> !t[k].Covers(a)
    ensures Lookup(t, a) == None
  {
  }

  // ----- pieces -----

  /** `p` is a part of `m`, or `m` itself, after an edit of generation `g`: the
      canonical byte behind every address of `p` is the one `m` gave it. */
  predicate PieceOf(p: Mapping, m: Mapping, g: int) {
    p == m ||
    (&& p.generation == g
     && m.offset <= p.offset
     && p.End() <= m.End()
     && p.backingOffset - p.offset == m.backingOffset - m.offset
     && p == m.(offset := p.offset, size := p.size, backingOffset := p.backingOffset,
                kind := p.kind, cacheable := p.cacheable, generation := p.generation))
  }

  ghost predicate HasParent(t: Table, p: Mapping, g: int) {
    exists k :: k in t && PieceOf(p, t[k], g)
  }

  /** Every entry of `u` is a piece of an entry of `t`. */
  ghost predicate Descends(u: Table, t: Table, g: int) {
    forall j :: j in u ==> HasParent(t, u[j], g)
  }

  lemma DescendsReflexive(t: Table, g: int)
    ensures Descends(t, t, g)
  {
    forall k | k in t ensures HasParent(t, t[k], g) {
      assert PieceOf(t[k], t[k], g);
    }
  }

  lemma DescendsTransitive(v: Table, u: Table, t: Table, g: int)
    requires Descends(v, u, g) && Descends(u, t, g)
    ensures Descends(v, t, g)
  {
    forall j | j in v ensures HasParent(t, v[j], g) {
      assert HasParent(u, v[j], g);
      var i :| i in u && PieceOf(v[j], u[i], g);
      assert HasParent(t, u[i], g);
      var k :| k in t && PieceOf(u[i], t[k], g);
      assert PieceOf(v[j], t[k], g);
    }
  }

  /** Entry `k` is cut into the pieces `p`. */
  function Cut(t: Table, k: int, p: Table): Table {
    (t - {k}) + p
  }

  ghost predicate PiecesOk(t: Table, k: int, p: Table, g: int) {
    && TableOk(t) && k in t
    && TableOk(p)
    && (forall j :: j in p ==> PieceOf(p[j], t[k], g))
  }

  lemma CutEntry(t: Table, k: int, p: Table, g: int, j: int)
    requires PiecesOk(t, k, p, g) && j in Cut(t, k, p)
    ensures EntryOk(j, Cut(t, k, p)[j]) && HasParent(t, Cut(t, k, p)[j], g)
  {
    if j in p {
      assert PieceOf(p[j], t[k], g);
    } else {
      assert PieceOf(t[j], t[j], g);
    }
  }

  lemma PieceExtent(p: Mapping, m: Mapping, g: int)
    requires PieceOf(p, m, g)
    ensures m.offset <= p.offset && p.End() <= m.End()
  {
  }

  lemma PieceAt(p: Mapping, m: Mapping, g: int, a: int)
    requires PieceOf(p, m, g)
    ensures p.At(a) == m.At(a).(kind := p.kind, cacheable := p.cacheable)
  {
  }

  /** Two tables, one wholly before the other. */
  lemma JoinOk(p: Table, q: Table)
    requires TableOk(p) && TableOk(q)
    requires forall i, j :: i in p && j in q ==> p[i].End() <= j
    ensures TableOk(p + q)
  {
  }

  lemma SingleOk(k: int, m: Mapping)
    requires EntryOk(k, m)
    ensures TableOk(map[k := m])
  {
  }

  lemma CutOrder(t: Table, k: int, p: Table, g: int, i: int, j: int)
    requires PiecesOk(t, k, p, g) && i in Cut(t, k, p) && j in Cut(t, k, p) && i < j
    ensures Cut(t, k, p)[i].End() <= j
  {
    if i in p && j !in p {
      assert j in t && j != k;
      PieceExtent(p[i], t[k], g);
    } else if i !in p && j in p {
      assert i in t && i != k;
      PieceExtent(p[j], t[k], g);
    }
  }

  lemma CutOk(t: Table, k: int, p: Table, g: int)
    requires PiecesOk(t, k, p, g)
    ensures TableOk(Cut(t, k, p))
    ensures Descends(Cut(t, k, p), t, g)
  {
    var u := Cut(t, k, p);
    forall j | j in u ensures EntryOk(j, u[j]) && HasParent(t, u[j], g) {
      CutEntry(t, k, p, g, j);
    }
    forall i, j | i in u && j in u && i < j ensures u[i].End() <= j {
      CutOrder(t, k, p, g, i, j);
    }
  }

  lemma CutLookup(t: Table, k: int, p: Table, g: int, a: int)
    requires PiecesOk(t, k, p, g)
    ensures Lookup(Cut(t, k, p), a) == if t[k].Covers(a) then Lookup(p, a) else Lookup(t, a)
  {
    hide TableOk, EntryOk, PieceOf, Mapping.At;
    var u := Cut(t, k, p);
    CutOk(t, k, p, g);
    if Mapped(p, a) {
      var j :| j in p && p[j].Covers(a);
      PieceExtent(p[j], t[k], g);
      assert u[j] == p[j];
      LookupAt(u, j, a);
      LookupAt(p, j, a);
    } else if Mapped(u, a) {
      var j :| j in u && u[j].Covers(a);
      assert j in t && j != k && u[j] == t[j];
      if t[k].Covers(a) { CoverIsUnique(t, j, k, a); }
      LookupAt(u, j, a);
      LookupAt(t, j, a);
    } else if Mapped(t, a) {
      var j :| j in t && t[j].Covers(a);
      if j != k { CutKeeps(t, k, p, g, j); }
    }
  }

  lemma CutKeeps(t: Table, k: int, p: Table, g: int, j: int)
    requires PiecesOk(t, k, p, g) && j in t && j != k
    ensures j in Cut(t, k, p) && Cut(t, k, p)[j] == t[j]
  {
    if j in p { PieceExtent(p[j], t[k], g); }
  }

  // ----- insertion and removal -----

  predicate Free(t: Table, lo: int, hi: int) {
    forall k :: k in t ==> !t[k].Overlaps(lo, hi)
  }

  lemma InsertOk(t: Table, m: Mapping)
    requires TableOk(t) && EntryOk(m.offset, m) && Free(t, m.offset, m.End())
    ensures m.offset !in t && TableOk(t[m.offset := m])
  {
  }

  lemma InsertLookup(t: Table, m: Mapping, a: int)
    requires TableOk(t) && EntryOk(m.offset, m) && Free(t, m.offset, m.End())
    ensures Lookup(t[m.offset := m], a) == if m.Covers(a) then Some(m.At(a)) else Lookup(t, a)
  {
    var u := t[m.offset := m];
    InsertOk(t, m);
    if m.Covers(a) {
      LookupAt(u, m.offset, a);
    } else if Mapped(t, a) {
      var k :| k in t && t[k].Covers(a);
      assert u[k] == t[k];
      LookupAt(u, k, a);
      LookupAt(t, k, a);
    }
  }

  lemma RemoveLookup(t: Table, keys: set<int>, a: int)
    requires TableOk(t)
    ensures TableOk(t - keys)
    ensures Lookup(t - keys, a) ==
            if exists k :: k in t && t[k].Covers(a) && k in keys then None else Lookup(t, a)
  {
    var u := t - keys;
    if k :| k in t && t[k].Covers(a) && k in keys {
      forall j | j in u && u[j].Covers(a) ensures false {
        CoverIsUnique(t, j, k, a);
      }
    } else if Mapped(t, a) {
      var k :| k in t && t[k].Covers(a);
      assert u[k] == t[k];
      LookupAt(u, k, a);
      LookupAt(t, k, a);
    }
  }

  /** Only entries that meet `lo..hi` are edited: the others are kept as they are, and whatever is
      not one of those carries generation `g`. */
  ghost predicate EditsOnly(u: Table, t: Table, lo: int, hi: int, g: int) {
    && (forall k :: k in t && !t[k].Overlaps(lo, hi) ==> k in u && u[k] == t[k])
    && (forall k :: k in u ==> u[k].generation == g || (k in t && u[k] == t[k] && !t[k].Overlaps(lo, hi)))
  }

  /** A generation change to a table, as retained resolutions see it: every entry
      is untouched or carries the new generation. */
  ghost predicate Stamped(u: Table, t: Table, g: int) {
    forall k :: k in u ==> (k in t && u[k] == t[k]) || u[k].generation == g
  }
}
