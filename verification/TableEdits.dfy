/** The two in-place edits that split intervals: erasing a range for a sparse remap and
    repainting a range of one mapping with another kind and cacheability. */
module TableEdits {
  import opened Canonical
  import opened MappingTable
  import opened Ordering

  datatype Edit = Erase | Paint(kind: U8, cacheable: bool) {
    predicate Valid() {
      Paint? ==> kind != INVALID_PTE_KIND
    }

    /** What the edit does to the translation of an address inside its range. */
    function Apply(tr: Option<Translation>): Option<Translation> {
      if Erase? || tr.None? then None else Some(tr.value.(kind := kind, cacheable := cacheable))
    }
  }

  predicate PageRange(lo: int, hi: int) {
    lo < hi && lo % SMALL_PAGE == 0 && hi % SMALL_PAGE == 0
  }

  lemma AlignedSum(x: int, y: int)
    requires x % 4096 == 0 && y % 4096 == 0
    ensures (x + y) % 4096 == 0
  {
    var i, j := x / 4096, y / 4096;
    assert x + y == 4096 * (i + j);
  }

  lemma AlignedRange(lo: int, size: int, p: int)
    requires PageSize(p) && 0 < size && PageAligned(lo, p) && PageAligned(size, p)
    ensures PageRange(lo, lo + size)
  {
    hide PageSize, PageAligned;
    PageMultiple(lo, p);
    PageMultiple(size, p);
    AlignedSum(lo, size);
  }

  function LeftPiece(m: Mapping, at: int, g: U64): Mapping
    requires m.offset < at
  {
    m.(size := at - m.offset, generation := g)
  }

  function RightPiece(m: Mapping, at: Address, g: U64): Mapping
    requires m.offset <= at < m.End()
  {
    m.(offset := at, size := m.End() - at, backingOffset := m.backingOffset + (at - m.offset), generation := g)
  }

  /** The part of `m` inside `lo..hi`, repainted. */
  function MiddlePiece(m: Mapping, lo: Address, hi: int, g: U64, edit: Edit): Mapping
    requires m.offset <= lo < hi <= m.End() && edit.Paint?
  {
    m.(offset := lo, size := hi - lo, backingOffset := m.backingOffset + (lo - m.offset),
       kind := edit.kind, cacheable := edit.cacheable, generation := g)
  }

  lemma LeftOk(m: Mapping, at: int, g: U64)
    requires EntryOk(m.offset, m) && m.offset < at < m.End() && at % SMALL_PAGE == 0
    ensures EntryOk(m.offset, LeftPiece(m, at, g)) && PieceOf(LeftPiece(m, at, g), m, g)
  {
  }

  lemma RightOk(m: Mapping, at: Address, g: U64)
    requires EntryOk(m.offset, m) && m.offset <= at < m.End() && at % SMALL_PAGE == 0
    ensures EntryOk(at, RightPiece(m, at, g)) && PieceOf(RightPiece(m, at, g), m, g)
  {
  }

  lemma MiddleOk(m: Mapping, lo: Address, hi: int, g: U64, edit: Edit)
    requires EntryOk(m.offset, m) && m.offset <= lo < hi <= m.End() && edit.Paint? && edit.Valid()
    requires lo % SMALL_PAGE == 0 && hi % SMALL_PAGE == 0
    ensures EntryOk(lo, MiddlePiece(m, lo, hi, g, edit)) && PieceOf(MiddlePiece(m, lo, hi, g, edit), m, g)
  {
  }

  predicate Cuts(m: Mapping, lo: int, hi: int, edit: Edit) {
    EntryOk(m.offset, m) && m.Overlaps(lo, hi) && PageRange(lo, hi) && edit.Valid()
  }

  function Before(m: Mapping, lo: int, hi: int, g: U64): Table {
    if m.offset < lo then map[m.offset := LeftPiece(m, lo, g)] else map[]
  }

  function Within(m: Mapping, lo: int, hi: int, g: U64, edit: Edit): Table
    requires Cuts(m, lo, hi, edit)
  {
    if edit.Paint?
    then map[Max(m.offset, lo) := MiddlePiece(m, Max(m.offset, lo), Min(m.End(), hi), g, edit)]
    else map[]
  }

  function After(m: Mapping, lo: int, hi: int, g: U64, edit: Edit): Table
    requires Cuts(m, lo, hi, edit)
  {
    if hi < m.End() then map[hi := RightPiece(m, hi, g)] else map[]
  }

  /** What an overlapping entry `m` becomes. */
  function Pieces(m: Mapping, lo: int, hi: int, g: U64, edit: Edit): Table
    requires Cuts(m, lo, hi, edit)
  {
    Before(m, lo, hi, g) + Within(m, lo, hi, g, edit) + After(m, lo, hi, g, edit)
  }

  /** A table of pieces of `m` between two bounds. */
  ghost predicate Part(p: Table, m: Mapping, g: U64, lo: int, hi: int) {
    && TableOk(p)
    && forall j :: j in p ==> lo <= j && p[j].End() <= hi && PieceOf(p[j], m, g) && p[j].generation == g
  }

  lemma EmptyPart(m: Mapping, g: U64, lo: int, hi: int)
    ensures Part(map[], m, g, lo, hi)
  {
  }

  lemma SinglePart(k: Address, piece: Mapping, m: Mapping, g: U64, lo: int, hi: int)
    requires EntryOk(k, piece) && PieceOf(piece, m, g) && piece.generation == g && lo <= k && piece.End() <= hi
    ensures Part(map[k := piece], m, g, lo, hi)
  {
    SingleOk(k, piece);
  }

  lemma JoinParts(p: Table, q: Table, m: Mapping, g: U64, lo: int, mid: int, hi: int)
    requires Part(p, m, g, lo, mid) && Part(q, m, g, mid, hi) && lo <= mid <= hi
    ensures Part(p + q, m, g, lo, hi)
  {
    JoinOk(p, q);
    hide TableOk, PieceOf;
  }

  lemma BeforeOk(m: Mapping, lo: int, hi: int, g: U64, edit: Edit)
    requires Cuts(m, lo, hi, edit)
    ensures Part(Before(m, lo, hi, g), m, g, Min(m.offset, lo), lo)
  {
    hide Part;
    if m.offset < lo {
      LeftOk(m, lo, g);
      SinglePart(m.offset, LeftPiece(m, lo, g), m, g, m.offset, lo);
    } else {
      EmptyPart(m, g, lo, lo);
    }
  }

  lemma WithinOk(m: Mapping, lo: int, hi: int, g: U64, edit: Edit)
    requires Cuts(m, lo, hi, edit)
    ensures Part(Within(m, lo, hi, g, edit), m, g, lo, hi)
  {
    hide Part;
    if edit.Paint? {
      var at := Max(m.offset, lo);
      MiddleOk(m, at, Min(m.End(), hi), g, edit);
      SinglePart(at, MiddlePiece(m, at, Min(m.End(), hi), g, edit), m, g, lo, hi);
    } else {
      EmptyPart(m, g, lo, hi);
    }
  }

  lemma AfterOk(m: Mapping, lo: int, hi: int, g: U64, edit: Edit)
    requires Cuts(m, lo, hi, edit)
    ensures Part(After(m, lo, hi, g, edit), m, g, hi, Max(hi, m.End()))
  {
    hide Part;
    if hi < m.End() {
      RightOk(m, hi, g);
      SinglePart(hi, RightPiece(m, hi, g), m, g, hi, m.End());
    } else {
      EmptyPart(m, g, hi, hi);
    }
  }

  lemma PiecesArePart(m: Mapping, lo: int, hi: int, g: U64, edit: Edit)
    requires Cuts(m, lo, hi, edit)
    ensures Part(Pieces(m, lo, hi, g, edit), m, g, Min(m.offset, lo), Max(hi, m.End()))
  {
    assert lo < hi;
    hide Part, Before, Within, After, Cuts;
    BeforeOk(m, lo, hi, g, edit);
    WithinOk(m, lo, hi, g, edit);
    AfterOk(m, lo, hi, g, edit);
    JoinParts(Before(m, lo, hi, g), Within(m, lo, hi, g, edit), m, g, Min(m.offset, lo), lo, hi);
    JoinParts(Before(m, lo, hi, g) + Within(m, lo, hi, g, edit), After(m, lo, hi, g, edit), m, g,
              Min(m.offset, lo), hi, Max(hi, m.End()));
  }

  lemma PiecesAreOk(m: Mapping, lo: int, hi: int, g: U64, edit: Edit)
    requires Cuts(m, lo, hi, edit)
    ensures TableOk(Pieces(m, lo, hi, g, edit))
    ensures forall j :: j in Pieces(m, lo, hi, g, edit) ==>
      PieceOf(Pieces(m, lo, hi, g, edit)[j], m, g) && Pieces(m, lo, hi, g, edit)[j].generation == g
  {
    hide TableOk, Pieces, Cuts, PieceOf;
    PiecesArePart(m, lo, hi, g, edit);
  }

  lemma PieceLookup(p: Table, k: int, m: Mapping, g: int, a: int)
    requires TableOk(p) && k in p && PieceOf(p[k], m, g) && p[k].Covers(a)
    ensures Lookup(p, a) == Some(m.At(a).(kind := p[k].kind, cacheable := p[k].cacheable))
  {
    LookupAt(p, k, a);
    PieceAt(p[k], m, g, a);
  }

  /** The pieces one by one: left of the range, right of it, and repainted inside it. */
  lemma PiecesAre(m: Mapping, lo: int, hi: int, g: U64, edit: Edit)
    requires Cuts(m, lo, hi, edit)
    ensures var p := Pieces(m, lo, hi, g, edit);
      && (m.offset < lo ==> m.offset in p && p[m.offset] == LeftPiece(m, lo, g))
      && (hi < m.End() ==> hi in p && p[hi] == RightPiece(m, hi, g))
      && (edit.Paint? ==> Max(m.offset, lo) in p
                          && p[Max(m.offset, lo)] == MiddlePiece(m, Max(m.offset, lo), Min(m.End(), hi), g, edit))
      && forall j :: j in p ==>
           (m.offset < lo && j == m.offset) || (hi < m.End() && j == hi) || (edit.Paint? && j == Max(m.offset, lo))
  {
    var p := Before(m, lo, hi, g) + Within(m, lo, hi, g, edit);
    if m.offset < lo { assert m.offset in p; }
  }

  lemma PiecesLookup(m: Mapping, lo: int, hi: int, g: U64, edit: Edit, a: int)
    requires Cuts(m, lo, hi, edit) && m.Covers(a)
    ensures Lookup(Pieces(m, lo, hi, g, edit), a) ==
            if lo <= a < hi then edit.Apply(Some(m.At(a))) else Some(m.At(a))
  {
    hide TableOk, EntryOk, Lookup, PieceOf, Pieces;
    var p := Pieces(m, lo, hi, g, edit);
    PiecesAreOk(m, lo, hi, g, edit);
    PiecesAre(m, lo, hi, g, edit);
    if a < lo {
      PieceLookup(p, m.offset, m, g, a);
    } else if hi <= a {
      PieceLookup(p, hi, m, g, a);
    } else if edit.Paint? {
      PieceLookup(p, Max(m.offset, lo), m, g, a);
    } else {
      LookupNone(p, a);
    }
  }

  ghost predicate Listed(t: Table, ks: seq<int>) {
    && (forall j :: 0 <= j < |ks| ==> ks[j] in t)
    && (forall i, j :: 0 <= i < j < |ks| ==> ks[i] < ks[j])
  }

  ghost predicate Handled(t: Table, ks: seq<int>, i: int, a: int)
    requires 0 <= i <= |ks| && Listed(t, ks)
  {
    exists j :: 0 <= j < i && t[ks[j]].Covers(a)
  }

  ghost function EditedAt(t: Table, ks: seq<int>, i: int, lo: int, hi: int, edit: Edit, a: int): Option<Translation>
    requires 0 <= i <= |ks| && Listed(t, ks)
  {
    if lo <= a < hi && Handled(t, ks, i, a) then edit.Apply(Lookup(t, a)) else Lookup(t, a)
  }

  /** Entries not among the first `i` of `ks` are kept, and all others carry generation `g`. */
  ghost predicate Framed(t: Table, u: Table, ks: seq<int>, i: int, g: int)
    requires 0 <= i <= |ks|
  {
    && (forall k :: k in t && k !in ks[..i] ==> k in u && u[k] == t[k])
    && (forall k :: k in u ==> u[k].generation == g || (k in t && u[k] == t[k] && k !in ks[..i]))
  }

  /** The table after the first `i` of the overlapping entries `ks` have been cut. */
  ghost predicate Editing(t: Table, u: Table, ks: seq<int>, i: int, lo: int, hi: int, g: int, edit: Edit)
    requires 0 <= i <= |ks| && Listed(t, ks)
  {
    && TableOk(u) && Descends(u, t, g)
    && Framed(t, u, ks, i, g)
    && (forall a :: Lookup(u, a) == EditedAt(t, ks, i, lo, hi, edit, a))
  }

  lemma NotYetCut(t: Table, ks: seq<int>, i: int)
    requires 0 <= i < |ks| && Listed(t, ks)
    ensures ks[i] !in ks[..i]
  {
  }

  lemma FramedStep(t: Table, u: Table, ks: seq<int>, i: int, j: int, g: int, p: Table)
    requires 0 <= i < |ks| && j == i + 1 && Framed(t, u, ks, i, g) && PiecesOk(u, ks[i], p, g)
    requires forall k :: k in p ==> p[k].generation == g
    ensures Framed(t, Cut(u, ks[i], p), ks, j, g)
  {
    hide TableOk, PieceOf;
    var v := Cut(u, ks[i], p);
    assert ks[..j] == ks[..i] + [ks[i]];
    forall k | k in t && k !in ks[..j] ensures k in v && v[k] == t[k] {
      CutKeeps(u, ks[i], p, g, k);
    }
  }

  lemma EditStart(t: Table, ks: seq<int>, lo: int, hi: int, g: int, edit: Edit)
    requires TableOk(t) && Listed(t, ks)
    ensures Editing(t, t, ks, 0, lo, hi, g, edit)
  {
    DescendsReflexive(t, g);
    forall a ensures Lookup(t, a) == EditedAt(t, ks, 0, lo, hi, edit, a) {
      assert !Handled(t, ks, 0, a);
    }
  }

  lemma EditStep(t: Table, u: Table, ks: seq<int>, i: int, lo: int, hi: int, g: U64, edit: Edit)
    requires TableOk(t) && Listed(t, ks) && PageRange(lo, hi) && edit.Valid()
    requires 0 <= i < |ks| && Editing(t, u, ks, i, lo, hi, g, edit) && t[ks[i]].Overlaps(lo, hi)
    ensures Editing(t, Cut(u, ks[i], Pieces(u[ks[i]], lo, hi, g, edit)), ks, i + 1, lo, hi, g, edit)
  {
    var k := ks[i];
    NotYetCut(t, ks, i);
    assert EntryOk(k, t[k]) && Cuts(t[k], lo, hi, edit);
    hide TableOk, EntryOk, Lookup, Descends, Pieces, EditedAt;
    var p := Pieces(t[k], lo, hi, g, edit);
    var v := Cut(u, k, p);
    PiecesAreOk(t[k], lo, hi, g, edit);
    CutOk(u, k, p, g);
    DescendsTransitive(v, u, t, g);
    FramedStep(t, u, ks, i, i + 1, g, p);
    forall a ensures Lookup(v, a) == EditedAt(t, ks, i + 1, lo, hi, edit, a) {
      EditStepAt(t, u, ks, i, lo, hi, g, edit, a);
    }
  }

  lemma EditStepAt(t: Table, u: Table, ks: seq<int>, i: int, lo: int, hi: int, g: U64, edit: Edit, a: int)
    requires TableOk(t) && Listed(t, ks) && PageRange(lo, hi) && edit.Valid() && 0 <= i < |ks|
    requires TableOk(u) && ks[i] in u && u[ks[i]] == t[ks[i]] && t[ks[i]].Overlaps(lo, hi)
    requires Lookup(u, a) == EditedAt(t, ks, i, lo, hi, edit, a)
    ensures Lookup(Cut(u, ks[i], Pieces(u[ks[i]], lo, hi, g, edit)), a) == EditedAt(t, ks, i + 1, lo, hi, edit, a)
  {
    var k := ks[i];
    PiecesAreOk(t[k], lo, hi, g, edit);
    CutLookup(u, k, Pieces(t[k], lo, hi, g, edit), g, a);
    HandledStep(t, ks, i, a);
    if t[k].Covers(a) {
      PiecesLookup(t[k], lo, hi, g, edit, a);
      LookupAt(t, k, a);
    }
  }

  lemma HandledStep(t: Table, ks: seq<int>, i: int, a: int)
    requires 0 <= i < |ks| && Listed(t, ks)
    ensures Handled(t, ks, i + 1, a) <==> Handled(t, ks, i, a) || t[ks[i]].Covers(a)
  {
  }

  /** The next entry to cut is still there. */
  lemma EditEntry(t: Table, u: Table, ks: seq<int>, i: int, lo: int, hi: int, g: U64, edit: Edit)
    requires TableOk(t) && Listed(t, ks) && PageRange(lo, hi) && edit.Valid()
    requires 0 <= i < |ks| && Editing(t, u, ks, i, lo, hi, g, edit) && t[ks[i]].Overlaps(lo, hi)
    ensures ks[i] in u && u[ks[i]] == t[ks[i]] && Cuts(u[ks[i]], lo, hi, edit)
  {
    NotYetCut(t, ks, i);
    assert EntryOk(ks[i], t[ks[i]]);
  }

  lemma HandledLast(t: Table, ks: seq<int>, lo: int, hi: int, a: int)
    requires Listed(t, ks) && lo <= a < hi && Mapped(t, a)
    requires forall k :: k in t && t[k].Overlaps(lo, hi) ==> k in ks
    ensures Handled(t, ks, |ks|, a)
  {
    var k :| k in t && t[k].Covers(a);
    assert k in ks;
  }

  /** Once every overlapping entry is cut, the edit is a pointwise update of the range. */
  lemma EditDone(t: Table, u: Table, ks: seq<int>, lo: int, hi: int, g: int, edit: Edit)
    requires TableOk(t) && Listed(t, ks)
    requires forall k :: k in t && t[k].Overlaps(lo, hi) ==> k in ks
    requires Editing(t, u, ks, |ks|, lo, hi, g, edit)
    requires forall j :: 0 <= j < |ks| ==> t[ks[j]].Overlaps(lo, hi)
    ensures forall a :: Lookup(u, a) == if lo <= a < hi then edit.Apply(Lookup(t, a)) else Lookup(t, a)
    ensures TableOk(u) && Descends(u, t, g) && EditsOnly(u, t, lo, hi, g)
  {
    assert ks[..|ks|] == ks;
    forall a | lo <= a < hi ensures Lookup(u, a) == edit.Apply(Lookup(t, a)) {
      if Mapped(t, a) {
        HandledLast(t, ks, lo, hi, a);
      } else {
        LookupNone(t, a);
      }
    }
  }

  lemma FreeFromLookup(u: Table, lo: int, hi: int)
    requires TableOk(u) && lo < hi
    requires forall a :: lo <= a < hi ==> Lookup(u, a) == None
    ensures Free(u, lo, hi)
  {
    forall k | k in u ensures !u[k].Overlaps(lo, hi) {
      if u[k].Overlaps(lo, hi) {
        LookupAt(u, k, Max(k, lo));
      }
    }
  }

  /** Erases `lo..hi`: every address inside becomes unmapped, every other address keeps
      its translation, and the pieces left of a split mapping carry generation `g`. */
  method ReplaceMappingRange(t: Table, lo: int, hi: int, g: U64) returns (u: Table)
    requires TableOk(t) && PageRange(lo, hi)
    ensures TableOk(u) && Descends(u, t, g)
    ensures forall a :: Lookup(u, a) == if lo <= a < hi then None else Lookup(t, a)
    ensures Free(u, lo, hi) && EditsOnly(u, t, lo, hi, g)
  {
    hide Editing, TableOk, Lookup, Descends, EditsOnly, Pieces, Cuts;
    var ks := Ascending(set k | k in t && t[k].Overlaps(lo, hi));
    u := t;
    EditStart(t, ks, lo, hi, g, Erase);
    for i := 0 to |ks|
      invariant Editing(t, u, ks, i, lo, hi, g, Erase)
    {
      EditEntry(t, u, ks, i, lo, hi, g, Erase);
      EditStep(t, u, ks, i, lo, hi, g, Erase);
      u := Cut(u, ks[i], Pieces(u[ks[i]], lo, hi, g, Erase));
    }
    EditDone(t, u, ks, lo, hi, g, Erase);
    FreeFromLookup(u, lo, hi);
  }

  /** Repaints `lo..hi`, all of which mapping `id` covers: only kind and cacheability
      inside the range change, and the pieces of a split mapping carry generation `g`. */
  method PaintMappingRange(t: Table, id: U64, lo: int, hi: int, g: U64, kind: U8, cacheable: bool)
    returns (u: Table)
    requires TableOk(t) && PageRange(lo, hi) && kind != INVALID_PTE_KIND
    requires forall k :: k in t && t[k].Overlaps(lo, hi) ==> t[k].id == id
    ensures TableOk(u) && Descends(u, t, g)
    ensures forall a ::
      Lookup(u, a) == if lo <= a < hi then Paint(kind, cacheable).Apply(Lookup(t, a)) else Lookup(t, a)
    ensures EditsOnly(u, t, lo, hi, g)
  {
    hide Editing, TableOk, Lookup, Descends, EditsOnly, Pieces, Cuts;
    var edit := Paint(kind, cacheable);
    var ks := Ascending(set k | k in t && t[k].id == id && t[k].Overlaps(lo, hi));
    u := t;
    EditStart(t, ks, lo, hi, g, edit);
    for i := 0 to |ks|
      invariant Editing(t, u, ks, i, lo, hi, g, edit)
    {
      EditEntry(t, u, ks, i, lo, hi, g, edit);
      EditStep(t, u, ks, i, lo, hi, g, edit);
      u := Cut(u, ks[i], Pieces(u[ks[i]], lo, hi, g, edit));
    }
    EditDone(t, u, ks, lo, hi, g, edit);
  }

  ghost predicate Owned(t: Table, id: U64, lo: int, hi: int) {
    forall a :: lo <= a < hi ==> Lookup(t, a).Some? && Lookup(t, a).value.id == id
  }

  /** The pieces before `i` own `lo..at` and reach no further into the range. */
  ghost predicate Walked(t: Table, group: seq<int>, i: int, id: U64, lo: int, at: int, hi: int) {
    && 0 <= i <= |group| && Listed(t, group)
    && (forall k :: k in t && t[k].id == id <==> k in group)
    && lo <= at < hi
    && Owned(t, id, lo, at)
    && forall j :: 0 <= j < i ==> t[group[j]].End() <= at || hi <= group[j]
  }

  /** Nobody of the group covers `at` when the next piece starts after it. */
  lemma WalkEnds(t: Table, group: seq<int>, i: int, id: U64, lo: int, at: int, hi: int)
    requires TableOk(t) && Walked(t, group, i, id, lo, at, hi)
    requires i < |group| ==> at < group[i]
    ensures !Owned(t, id, lo, hi)
  {
    forall j | 0 <= j < |group| ensures !t[group[j]].Covers(at) {
      assert EntryOk(group[j], t[group[j]]);
      if i <= j { assert group[i] <= group[j]; }
    }
    GapIsForeign(t, group, id, at);
  }

  lemma WalkOver(t: Table, group: seq<int>, i: int, id: U64, lo: int, at: int, hi: int, next: int)
    requires TableOk(t) && Walked(t, group, i, id, lo, at, hi) && i < |group|
    requires group[i] <= at < t[group[i]].End() && next == Min(t[group[i]].End(), hi)
    ensures Owned(t, id, lo, next)
    ensures next < hi ==> Walked(t, group, i + 1, id, lo, next, hi)
  {
    var m := t[group[i]];
    assert EntryOk(group[i], m);
    forall a | lo <= a < next ensures Lookup(t, a).Some? && Lookup(t, a).value.id == id {
      if at <= a { LookupAt(t, group[i], a); }
    }
  }

  /** Walks the pieces of mapping `id` in address order: the range is covered exactly
      when every address in it belongs to that mapping. */
  method RangeBelongsTo(t: Table, id: U64, lo: int, hi: int) returns (covered: bool)
    requires TableOk(t) && lo < hi
    ensures covered <==> Owned(t, id, lo, hi)
  {
    hide Lookup, TableOk, Owned;
    var group := Ascending(set k | k in t && t[k].id == id);
    var at := lo;
    OwnsNothing(t, id, lo);
    for i := 0 to |group|
      invariant Walked(t, group, i, id, lo, at, hi)
    {
      KeyIsOffset(t, group[i]);
      var m := t[group[i]];
      if at < m.End() && m.offset < hi {
        if at < m.offset {
          WalkEnds(t, group, i, id, lo, at, hi);
          return false;
        }
        var next := Min(m.End(), hi);
        WalkOver(t, group, i, id, lo, at, hi, next);
        at := next;
        if at == hi { return true; }
      }
    }
    WalkEnds(t, group, |group|, id, lo, at, hi);
    return false;
  }

  lemma OwnsNothing(t: Table, id: U64, lo: int)
    ensures Owned(t, id, lo, lo)
  {
  }

  lemma KeyIsOffset(t: Table, k: int)
    requires TableOk(t) && k in t
    ensures t[k].offset == k
  {
  }

  lemma GapIsForeign(t: Table, group: seq<int>, id: U64, at: int)
    requires TableOk(t) && Listed(t, group)
    requires forall k :: k in t && t[k].id == id ==> k in group
    requires forall j :: 0 <= j < |group| ==> !t[group[j]].Covers(at)
    ensures Lookup(t, at).Some? ==> Lookup(t, at).value.id != id
  {
    if Mapped(t, at) {
      var k :| k in t && t[k].Covers(at);
      LookupAt(t, k, at);
      assert k !in group;
    }
  }
}
