/** The page-cached memory copy: regions are copied from a source snapshot into cached
    destination pages, and only touched pages are staged. */
module MemoryCopy {
  import opened Canonical
  import opened Ordering
  import opened Resolution
  import opened WriteBatch
  import opened RangeAccess

  /** `count` bytes from source offset `src` to destination offset `dst`. */
  datatype CopyRegion = CopyRegion(src: nat, dst: nat, count: nat)

  predicate RegionOk(r: CopyRegion, sourceSize: nat, destinationSize: nat) {
    r.src + r.count <= sourceSize && r.dst + r.count <= destinationSize
  }

  predicate RegionsOk(regions: seq<CopyRegion>, sourceSize: nat, destinationSize: nat) {
    forall i :: 0 <= i < |regions| ==> RegionOk(regions[i], sourceSize, destinationSize)
  }

  // ----- the flat copy -----

  function CopyRun(d: seq<U8>, s: seq<U8>, src: nat, dst: nat, n: nat): (f: seq<U8>)
    requires src + n <= |s| && dst + n <= |d|
    ensures |f| == |d|
  {
    d[..dst] + s[src..src + n] + d[dst + n..]
  }

  /** Copies every region, in order, from a source snapshot onto the flat destination. */
  function FlatCopy(d: seq<U8>, s: seq<U8>, regions: seq<CopyRegion>): (f: seq<U8>)
    requires RegionsOk(regions, |s|, |d|)
    ensures |f| == |d|
    decreases |regions|
  {
    if regions == [] then d
    else
      var r := regions[|regions| - 1];
      CopyRun(FlatCopy(d, s, regions[..|regions| - 1]), s, r.src, r.dst, r.count)
  }

  lemma CopyRunAt(d: seq<U8>, s: seq<U8>, src: nat, dst: nat, n: nat, i: nat)
    requires src + n <= |s| && dst + n <= |d| && i < |d|
    ensures CopyRun(d, s, src, dst, n)[i] == if dst <= i < dst + n then s[src + (i - dst)] else d[i]
  {
    if dst <= i < dst + n {
      assert s[src..src + n][i - dst] == s[src + (i - dst)];
    }
  }

  lemma CopyRunExtend(
    d: seq<U8>, s: seq<U8>, src: nat, dst: nat, n: nat, src': nat, dst': nat, m: nat, end: nat)
    requires src' == src + n && dst' == dst + n && end == n + m && src' + m <= |s| && dst' + m <= |d|
    ensures CopyRun(CopyRun(d, s, src, dst, n), s, src', dst', m) == CopyRun(d, s, src, dst, end)
  {
    var x, y := CopyRun(CopyRun(d, s, src, dst, n), s, src', dst', m), CopyRun(d, s, src, dst, end);
    forall i | 0 <= i < |d| ensures x[i] == y[i] {
      CopyRunAt(d, s, src, dst, n, i);
      CopyRunAt(CopyRun(d, s, src, dst, n), s, src', dst', m, i);
      CopyRunAt(d, s, src, dst, end, i);
    }
  }

  // ----- pages -----

  function BaseOf(d: nat): (b: nat)
    ensures b <= d < b + 4096 && b % 4096 == 0
  {
    d - d % 4096
  }

  function PageEnd(b: nat, size: nat): nat {
    Min(b + 4096, size)
  }

  lemma BaseIsUnique(d: nat, b: nat)
    requires b % 4096 == 0 && b <= d < b + 4096
    ensures BaseOf(d) == b
  {
  }

  /** Page `b` holds one of the `n` bytes from `dst` on. */
  predicate Touches(b: int, dst: nat, n: nat) {
    b % 4096 == 0 && b < dst + n && dst < b + 4096 && 0 < n
  }

  ghost predicate Touched(b: int, regions: seq<CopyRegion>) {
    exists i :: 0 <= i < |regions| && Touches(b, regions[i].dst, regions[i].count)
  }

  type PageCache = map<int, seq<U8>>

  /** The cache holds the flat copy `f` of the pages it has, and the others are untouched. */
  ghost predicate CacheOk(cache: PageCache, f: seq<U8>, d: seq<U8>) {
    && |f| == |d|
    && (forall b :: b in cache ==>
          0 <= b < |d| && b % 4096 == 0 && cache[b] == f[b..PageEnd(b, |d|)])
    && (forall i :: 0 <= i < |d| && BaseOf(i) !in cache ==> f[i] == d[i])
  }

  lemma UntouchedPage(cache: PageCache, f: seq<U8>, d: seq<U8>, b: nat)
    requires CacheOk(cache, f, d) && b < |d| && b % 4096 == 0 && b !in cache
    ensures f[b..PageEnd(b, |d|)] == d[b..PageEnd(b, |d|)]
  {
    forall i | b <= i < PageEnd(b, |d|) ensures f[i] == d[i] {
      BaseIsUnique(i, b);
    }
  }

  lemma CacheAdd(cache: PageCache, f: seq<U8>, d: seq<U8>, b: nat)
    requires CacheOk(cache, f, d) && b < |d| && b % 4096 == 0
    ensures CacheOk(cache[b := f[b..PageEnd(b, |d|)]], f, d)
  {
  }

  /** Copying a run that stays inside page `b` updates that page of the cache. */
  lemma CacheCopy(cache: PageCache, f: seq<U8>, d: seq<U8>, s: seq<U8>, b: nat, src: nat, dst: nat, n: nat)
    requires CacheOk(cache, f, d) && b in cache && b <= dst && dst + n <= PageEnd(b, |d|) && src + n <= |s|
    ensures CacheOk(cache[b := CopyRun(cache[b], s, src, dst - b, n)], CopyRun(f, s, src, dst, n), d)
  {
    var f', page := CopyRun(f, s, src, dst, n), CopyRun(cache[b], s, src, dst - b, n);
    var cache' := cache[b := page];
    forall c | c in cache' ensures 0 <= c < |d| && c % 4096 == 0 && cache'[c] == f'[c..PageEnd(c, |d|)] {
      if c == b {
        PageOfRun(f, s, b, PageEnd(b, |d|), src, dst, n);
      } else {
        OtherPage(f, s, b, c, |d|, src, dst, n);
      }
    }
    forall i | 0 <= i < |d| && BaseOf(i) !in cache' ensures f'[i] == d[i] {
      if dst <= i < dst + n { BaseIsUnique(i, b); }
    }
  }

  lemma PageOfRun(f: seq<U8>, s: seq<U8>, b: nat, e: nat, src: nat, dst: nat, n: nat)
    requires b <= dst && dst + n <= e <= |f| && src + n <= |s|
    ensures CopyRun(f[b..e], s, src, dst - b, n) == CopyRun(f, s, src, dst, n)[b..e]
  {
    var x, y := CopyRun(f[b..e], s, src, dst - b, n), CopyRun(f, s, src, dst, n)[b..e];
    forall i | 0 <= i < e - b ensures x[i] == y[i] {
      CopyRunAt(f[b..e], s, src, dst - b, n, i);
      CopyRunAt(f, s, src, dst, n, b + i);
    }
  }

  lemma OtherPage(f: seq<U8>, s: seq<U8>, b: nat, c: nat, size: nat, src: nat, dst: nat, n: nat)
    requires |f| == size && b % 4096 == 0 && c % 4096 == 0 && b != c && c < size
    requires b <= dst && dst + n <= PageEnd(b, size) && src + n <= |s|
    ensures CopyRun(f, s, src, dst, n)[c..PageEnd(c, size)] == f[c..PageEnd(c, size)]
  {
    var x, y := CopyRun(f, s, src, dst, n)[c..PageEnd(c, size)], f[c..PageEnd(c, size)];
    assert c + 4096 <= b || b + 4096 <= c;
    forall i | 0 <= i < |x| ensures x[i] == y[i] {
      CopyRunAt(f, s, src, dst, n, c + i);
    }
  }

  lemma TouchesExtend(b: int, dst: nat, n: nat, end: nat, base: nat)
    requires base % 4096 == 0 && base <= dst + n && dst + end <= base + 4096 && n < end
    ensures Touches(b, dst, end) <==> Touches(b, dst, n) || b == base
  {
    if b % 4096 == 0 && b != base {
      assert b + 4096 <= base || base + 4096 <= b;
    }
  }

  // ----- what the flat copy computes -----

  predicate Writes(r: CopyRegion, d: int) {
    r.dst <= d < r.dst + r.count
  }

  /** Region `i` is the last to write offset `at`. */
  ghost predicate LastOver(regions: seq<CopyRegion>, i: int, at: nat) {
    && 0 <= i < |regions|
    && Writes(regions[i], at)
    && forall j :: i < j < |regions| ==> !Writes(regions[j], at)
  }

  /** The source offset that ends up at destination offset `at`, if any region writes it. */
  ghost function LastSource(regions: seq<CopyRegion>, at: nat): (source: Option<nat>)
    ensures source.None? ==> forall j :: 0 <= j < |regions| ==> !Writes(regions[j], at)
    ensures source.Some? ==>
      exists i :: LastOver(regions, i, at) && source.value == regions[i].src + (at - regions[i].dst)
    decreases |regions|
  {
    var n := |regions| - 1;
    if regions == [] then None
    else if Writes(regions[n], at) then
      assert LastOver(regions, n, at);
      Some(regions[n].src + (at - regions[n].dst))
    else
      var source := LastSource(regions[..n], at);
      if source.Some? then
        var i :| LastOver(regions[..n], i, at) && source.value == regions[..n][i].src + (at - regions[..n][i].dst);
        assert LastOver(regions, i, at);
        source
      else source
  }

  lemma LastSourceInBounds(regions: seq<CopyRegion>, at: nat, sourceSize: nat, size: nat)
    requires RegionsOk(regions, sourceSize, size) && LastSource(regions, at).Some?
    ensures LastSource(regions, at).value < sourceSize
  {
    var i :| LastOver(regions, i, at) && LastSource(regions, at).value == regions[i].src + (at - regions[i].dst);
    assert RegionOk(regions[i], sourceSize, size);
  }

  /** What the flat copy leaves at an offset, given the source offset that ends up there. */
  ghost function CopiedByte(d: seq<U8>, s: seq<U8>, at: nat, source: Option<nat>): U8
    requires at < |d| && (source.Some? ==> source.value < |s|)
  {
    if source.Some? then s[source.value] else d[at]
  }

  /** Each destination byte is the one the last region over it copies, or is unchanged. */
  lemma {:induction false} LastRegionWins(d: seq<U8>, s: seq<U8>, regions: seq<CopyRegion>, at: nat)
    requires RegionsOk(regions, |s|, |d|) && at < |d|
    ensures LastSource(regions, at).Some? ==> LastSource(regions, at).value < |s|
    ensures FlatCopy(d, s, regions)[at] == CopiedByte(d, s, at, LastSource(regions, at))
    decreases |regions|
  {
    hide LastSource, FlatCopy, CopyRun;
    LastSourceStep(regions, at);
    if regions == [] {
      FlatCopyNone(d, s);
    } else {
      var n := |regions| - 1;
      assert RegionOk(regions[n], |s|, |d|);
      LastRegionWins(d, s, regions[..n], at);
      FlatCopyLast(d, s, regions);
      CopyRunAt(FlatCopy(d, s, regions[..n]), s, regions[n].src, regions[n].dst, regions[n].count, at);
    }
  }

  lemma FlatCopyNone(d: seq<U8>, s: seq<U8>)
    ensures FlatCopy(d, s, []) == d
  {
  }

  lemma FlatCopyLast(d: seq<U8>, s: seq<U8>, regions: seq<CopyRegion>)
    requires RegionsOk(regions, |s|, |d|) && regions != []
    ensures var r := regions[|regions| - 1];
      RegionOk(r, |s|, |d|) &&
      FlatCopy(d, s, regions) == CopyRun(FlatCopy(d, s, regions[..|regions| - 1]), s, r.src, r.dst, r.count)
  {
  }

  lemma LastSourceStep(regions: seq<CopyRegion>, at: nat)
    ensures regions == [] ==> LastSource(regions, at).None?
    ensures regions != [] ==>
      var n := |regions| - 1;
      LastSource(regions, at) ==
      if Writes(regions[n], at) then Some(regions[n].src + (at - regions[n].dst)) else LastSource(regions[..n], at)
  {
  }

  lemma CopiedIsTouched(regions: seq<CopyRegion>, at: nat)
    ensures LastSource(regions, at).Some? ==> Touched(BaseOf(at), regions)
  {
    if LastSource(regions, at).Some? {
      var i :| LastOver(regions, i, at);
      assert Touches(BaseOf(at), regions[i].dst, regions[i].count);
    }
  }

  // ----- staging the touched pages -----

  ghost function TouchedPages(regions: seq<CopyRegion>, size: nat): set<int> {
    set b | 0 <= b < size && Touched(b, regions)
  }

  ghost predicate PagesIn(ks: seq<int>, size: nat) {
    forall i :: 0 <= i < |ks| ==> 0 <= ks[i] < size
  }

  /** Stores the listed pages of `f` at the listed places of `all`, in order. */
  ghost function PutPages(m: Memory, all: seq<Location>, f: seq<U8>, ks: seq<int>): Memory
    requires |f| == |all| && PagesIn(ks, |f|)
    decreases |ks|
  {
    if ks == [] then m
    else
      var b := ks[|ks| - 1];
      PutAll(PutPages(m, all, f, ks[..|ks| - 1]), all[b..PageEnd(b, |f|)], f[b..PageEnd(b, |f|)])
  }

  lemma PutPagesStep(m: Memory, all: seq<Location>, f: seq<U8>, ks: seq<int>, i: nat, j: nat)
    requires |f| == |all| && PagesIn(ks, |f|) && i < |ks| && j == i + 1
    ensures PutPages(m, all, f, ks[..j]) ==
            PutAll(PutPages(m, all, f, ks[..i]), all[ks[i]..PageEnd(ks[i], |f|)], f[ks[i]..PageEnd(ks[i], |f|)])
  {
    assert ks[..j][..i] == ks[..i];
  }

  predicate Listed(ks: seq<int>, d: int) {
    exists i :: 0 <= i < |ks| && ks[i] <= d < ks[i] + 4096
  }

  lemma ListedAppend(ks: seq<int>, b: int, d: int)
    ensures Listed(ks + [b], d) <==> Listed(ks, d) || b <= d < b + 4096
  {
    var ks' := ks + [b];
    if b <= d < b + 4096 { assert ks'[|ks|] <= d < ks'[|ks|] + 4096; }
    if Listed(ks, d) {
      var i :| 0 <= i < |ks| && ks[i] <= d < ks[i] + 4096;
      assert ks'[i] <= d < ks'[i] + 4096;
    }
  }

  /** `l` holds byte `d` of `f`, or, with no `d`, what it held before. */
  ghost predicate Holds(m: Memory, m': Memory, all: seq<Location>, f: seq<U8>, l: Location, d: Option<nat>)
    requires |f| == |all|
  {
    match d
    case Some(i) => i < |all| && all[i] == l && l in m' && m'[l] == f[i]
    case None => (l in m' <==> l in m) && ByteAt(m', l) == ByteAt(m, l)
  }

  /** A place that is written holds one of the bytes written there; others are unchanged. */
  lemma {:induction false} PutSource(m: Memory, at: seq<Location>, bytes: seq<U8>, l: Location) returns (d: Option<nat>)
    requires |at| == |bytes|
    ensures Holds(m, PutAll(m, at, bytes), at, bytes, l, d)
    ensures d.None? ==> l !in at
    decreases |at|
  {
    if at == [] {
      d := None;
    } else {
      var n := |at| - 1;
      if at[n] == l {
        d := Some(n);
      } else {
        d := PutSource(m, at[..n], bytes[..n], l);
        assert at == at[..n] + [at[n]];
      }
    }
  }

  /** The same for the listed pages. */
  lemma {:induction false} PutPagesSource(m: Memory, all: seq<Location>, f: seq<U8>, ks: seq<int>, l: Location)
    returns (d: Option<nat>)
    requires |f| == |all| && PagesIn(ks, |f|)
    ensures Holds(m, PutPages(m, all, f, ks), all, f, l, d)
    ensures d.Some? ==> Listed(ks, d.value)
    ensures d.None? ==> forall i :: 0 <= i < |all| && Listed(ks, i) ==> all[i] != l
    decreases |ks|
  {
    if ks == [] {
      d := None;
    } else {
      hide PutAll;
      var n := |ks| - 1;
      var b, e := ks[n], PageEnd(ks[n], |f|);
      assert ks == ks[..n] + [b];
      var before := PutPages(m, all, f, ks[..n]);
      var page := PutSource(before, all[b..e], f[b..e], l);
      if page.Some? {
        d := Some(b + page.value);
        ListedAppend(ks[..n], b, d.value);
      } else {
        d := PutPagesSource(m, all, f, ks[..n], l);
        if d.Some? { ListedAppend(ks[..n], b, d.value); }
        forall i | d.None? && 0 <= i < |all| && Listed(ks, i) ensures all[i] != l {
          ListedAppend(ks[..n], b, i);
          if b <= i < e { assert all[b..e][i - b] == all[i]; }
        }
      }
    }
  }

  lemma ListedIsTouched(regions: seq<CopyRegion>, size: nat, ks: seq<int>, d: nat)
    requires Lists(ks, TouchedPages(regions, size)) && d < size
    ensures Listed(ks, d) <==> Touched(BaseOf(d), regions)
  {
    var b := BaseOf(d);
    if Touched(b, regions) {
      assert b in TouchedPages(regions, size);
      ListsMember(ks, TouchedPages(regions, size), b);
    }
    if Listed(ks, d) {
      var i :| 0 <= i < |ks| && ks[i] <= d < ks[i] + 4096;
      assert ks[i] in TouchedPages(regions, size);
      BaseIsUnique(d, ks[i]);
    }
  }

  /** The staged writes after a copy from snapshot `s`, given those before it. */
  ghost function CopyOverlay(
    memory: Memory, overlay: Memory, s: seq<U8>, all: seq<Location>, regions: seq<CopyRegion>): Memory
    requires RegionsOk(regions, |s|, |all|)
  {
    PutPages(overlay, all, FlatCopy(Load(memory + overlay, all), s, regions), SortedList(TouchedPages(regions, |all|)))
  }

  /** A copy performed at once on memory `m`. */
  ghost function CopyNow(m: Memory, source: seq<Location>, all: seq<Location>, regions: seq<CopyRegion>): Memory
    requires RegionsOk(regions, |source|, |all|)
  {
    PutPages(m, all, FlatCopy(Load(m, all), Load(m, source), regions), SortedList(TouchedPages(regions, |all|)))
  }

  lemma {:induction false} PutPagesOver(memory: Memory, overlay: Memory, all: seq<Location>, f: seq<U8>, ks: seq<int>)
    requires |f| == |all| && PagesIn(ks, |f|)
    ensures memory + PutPages(overlay, all, f, ks) == PutPages(memory + overlay, all, f, ks)
    decreases |ks|
  {
    if ks != [] {
      var n := |ks| - 1;
      var b, e := ks[n], PageEnd(ks[n], |f|);
      PutPagesOver(memory, overlay, all, f, ks[..n]);
      PutAllOver(memory, PutPages(overlay, all, f, ks[..n]), all[b..e], f[b..e]);
    }
  }

  /** A staged copy, seen through the staged writes, is the copy performed at once. */
  lemma StagedCopyIsCopyNow(
    memory: Memory, overlay: Memory, source: seq<Location>, all: seq<Location>, regions: seq<CopyRegion>)
    requires RegionsOk(regions, |source|, |all|)
    ensures memory + CopyOverlay(memory, overlay, Load(memory + overlay, source), all, regions) ==
            CopyNow(memory + overlay, source, all, regions)
  {
    var view := memory + overlay;
    var f := FlatCopy(Load(view, all), Load(view, source), regions);
    PutPagesOver(memory, overlay, all, f, SortedList(TouchedPages(regions, |all|)));
  }

  /** Destination offsets that are the same byte take it from the same place. */
  ghost predicate AliasesAgree(all: seq<Location>, regions: seq<CopyRegion>) {
    forall i, j :: 0 <= i < |all| && 0 <= j < |all| && all[i] == all[j] ==> LastSource(regions, i) == LastSource(regions, j)
  }

  ghost predicate Distinct(all: seq<Location>) {
    forall i, j :: 0 <= i < j < |all| ==> all[i] != all[j]
  }

  lemma DistinctAgrees(all: seq<Location>, regions: seq<CopyRegion>)
    requires Distinct(all)
    ensures AliasesAgree(all, regions)
  {
    forall i, j | 0 <= i < |all| && 0 <= j < |all| && all[i] == all[j] ensures i == j {
    }
  }

  lemma CopiedAlias(d: seq<U8>, s: seq<U8>, all: seq<Location>, regions: seq<CopyRegion>, i: nat, j: nat)
    requires |d| == |all| && RegionsOk(regions, |s|, |d|) && AliasesAgree(all, regions)
    requires i < |all| && j < |all| && all[i] == all[j] && d[i] == d[j]
    ensures FlatCopy(d, s, regions)[i] == FlatCopy(d, s, regions)[j]
  {
    LastRegionWins(d, s, regions, i);
    LastRegionWins(d, s, regions, j);
  }

  /** The byte that the page-cached copy leaves at destination offset `i`. */
  lemma CopiedAt(memory: Memory, overlay: Memory, s: seq<U8>, all: seq<Location>, regions: seq<CopyRegion>, i: nat)
    requires RegionsOk(regions, |s|, |all|) && AliasesAgree(all, regions) && i < |all|
    ensures ByteAt(memory + CopyOverlay(memory, overlay, s, all, regions), all[i]) ==
            FlatCopy(Load(memory + overlay, all), s, regions)[i]
  {
    var d := Load(memory + overlay, all);
    var f := FlatCopy(d, s, regions);
    var ks := SortedList(TouchedPages(regions, |all|));
    hide PutPages;
    var from := PutPagesSource(overlay, all, f, ks, all[i]);
    if from.Some? {
      CopiedAlias(d, s, all, regions, from.value, i);
    } else {
      ListedIsTouched(regions, |all|, ks, i);
      CopiedIsTouched(regions, i);
      LastRegionWins(d, s, regions, i);
    }
  }

  /** Where aliases agree, the page-cached copy is the flat copy from the source snapshot, and
      it stages only touched pages. */
  lemma PageCopyIsFlatCopy(memory: Memory, overlay: Memory, s: seq<U8>, all: seq<Location>, regions: seq<CopyRegion>)
    requires RegionsOk(regions, |s|, |all|) && AliasesAgree(all, regions)
    ensures var after := CopyOverlay(memory, overlay, s, all, regions);
      && Load(memory + after, all) == FlatCopy(Load(memory + overlay, all), s, regions)
      && forall l :: UntouchedPlace(all, regions, l) ==>
        (l in after <==> l in overlay) && ByteAt(memory + after, l) == ByteAt(memory + overlay, l)
  {
    var f := FlatCopy(Load(memory + overlay, all), s, regions);
    var ks := SortedList(TouchedPages(regions, |all|));
    var after := CopyOverlay(memory, overlay, s, all, regions);
    forall i | 0 <= i < |all| ensures ByteAt(memory + after, all[i]) == f[i] {
      CopiedAt(memory, overlay, s, all, regions, i);
    }
    assert Load(memory + after, all) == f;
    hide PutPages;
    forall l | UntouchedPlace(all, regions, l)
      ensures (l in after <==> l in overlay) && ByteAt(memory + after, l) == ByteAt(memory + overlay, l)
    {
      var from := PutPagesSource(overlay, all, f, ks, l);
      if from.Some? { ListedIsTouched(regions, |all|, ks, from.value); }
    }
  }

  /** No offset on a touched page is this place. */
  ghost predicate UntouchedPlace(all: seq<Location>, regions: seq<CopyRegion>, l: Location) {
    forall i: nat :: i < |all| && all[i] == l ==> !Touched(BaseOf(i), regions)
  }

  /** Where aliases disagree, the page-cached copy is not the flat copy for some contents. */
  lemma AliasedCopyDiffers(all: seq<Location>, regions: seq<CopyRegion>, n: nat, i: nat, j: nat)
    returns (memory: Memory, s: seq<U8>)
    requires RegionsOk(regions, n, |all|) && i < |all| && j < |all| && all[i] == all[j]
    requires LastSource(regions, i) != LastSource(regions, j) && LastSource(regions, i).Some?
    ensures |s| == n
    ensures Load(memory + CopyOverlay(memory, map[], s, all, regions), all) !=
            FlatCopy(Load(memory + map[], all), s, regions)
  {
    LastSourceInBounds(regions, i, n, |all|);
    memory := map[];
    s := seq(n, k => if k == LastSource(regions, i).value then 1 else 0);
    var d := Load(memory + map[], all);
    LastRegionWins(d, s, regions, i);
    LastRegionWins(d, s, regions, j);
    var after := memory + CopyOverlay(memory, map[], s, all, regions);
    assert Load(after, all)[i] == Load(after, all)[j];
  }

  // ----- the copy -----

  datatype CopyError = RangeSizeMismatch | Transaction(error: BatchError)

  /** The first `done` bytes of a region have been copied into the cache. */
  ghost predicate Copying(
    cache: PageCache, cached: PageCache, f: seq<U8>, s: seq<U8>, d: seq<U8>, region: CopyRegion, done: nat)
  {
    && |f| == |d|
    && RegionOk(region, |s|, |d|)
    && done <= region.count
    && CacheOk(cache, CopyRun(f, s, region.src, region.dst, done), d)
    && forall b :: b in cache <==> b in cached || Touches(b, region.dst, done)
  }

  lemma CopyingStart(cached: PageCache, f: seq<U8>, s: seq<U8>, d: seq<U8>, region: CopyRegion)
    requires CacheOk(cached, f, d) && RegionOk(region, |s|, |d|)
    ensures Copying(cached, cached, f, s, d, region, 0)
  {
    assert CopyRun(f, s, region.src, region.dst, 0) == f;
  }

  /** A page that is read on first use, as the cache must hold it. */
  lemma FetchedPage(cache: PageCache, f: seq<U8>, d: seq<U8>, base: nat, page: seq<U8>)
    requires CacheOk(cache, f, d) && base < |d| && base % 4096 == 0
    requires base !in cache && page == d[base..PageEnd(base, |d|)]
    ensures CacheOk(cache[base := page], f, d)
  {
    UntouchedPage(cache, f, d, base);
    CacheAdd(cache, f, d, base);
  }

  lemma CopyingStep(
    cache: PageCache, fetched: PageCache, cached: PageCache, f: seq<U8>, s: seq<U8>, d: seq<U8>, region: CopyRegion,
    done: nat, base: nat, size: nat, src: nat, dst: nat, after: PageCache, end: nat)
    requires Copying(cache, cached, f, s, d, region, done)
    requires CacheOk(fetched, CopyRun(f, s, region.src, region.dst, done), d)
    requires base in fetched && fetched.Keys == cache.Keys + {base}
    requires src == region.src + done && dst == region.dst + done
    requires base <= dst && dst + size <= PageEnd(base, |d|) && 0 < size && done + size == end <= region.count
    requires after == fetched[base := CopyRun(fetched[base], s, src, dst - base, size)]
    ensures Copying(after, cached, f, s, d, region, end)
  {
    var now := CopyRun(f, s, region.src, region.dst, done);
    CacheCopy(fetched, now, d, s, base, src, dst, size);
    CopyRunExtend(f, s, region.src, region.dst, done, src, dst, size, end);
    assert CacheOk(after, CopyRun(f, s, region.src, region.dst, end), d);
    CopyingPages(cache, fetched, cached, region, done, base, end);
  }

  lemma CopyingPages(
    cache: PageCache, fetched: PageCache, cached: PageCache, region: CopyRegion, done: nat, base: nat, end: nat)
    requires forall b :: b in cache <==> b in cached || Touches(b, region.dst, done)
    requires base % 4096 == 0 && base <= region.dst + done && region.dst + end <= base + 4096 && done < end
    requires fetched.Keys == cache.Keys + {base}
    ensures forall b :: b in fetched <==> b in cached || Touches(b, region.dst, end)
  {
    forall b ensures b in fetched <==> b in cached || Touches(b, region.dst, end) {
      TouchesExtend(b, region.dst, done, end, base);
      assert b in fetched.Keys <==> b in cache.Keys || b == base;
    }
  }

  /** Reads one page of the destination. */
  method ReadPage(batch: CanonicalWriteBatch, destination: ResolvedRange, base: nat, memory: Memory)
    returns (r: Result<seq<U8>, BatchError>)
    requires batch.Valid() && Usable(destination) && base < destination.size
    ensures Granted(destination, Read) ==> r.Ok?
    ensures r.Ok? ==>
      r.value == Load(memory + Overlay(batch.pages), destination.Bytes())[base..PageEnd(base, destination.size)]
  {
    var end := PageEnd(base, destination.size);
    r := ReadSubrange(batch, destination, base, end - base, memory);
    LoadSlice(memory + Overlay(batch.pages), destination.Bytes(), base, end);
  }

  /** The cached page at `base`, read from the destination on first use. */
  method FetchPage(
    batch: CanonicalWriteBatch, destination: ResolvedRange, base: nat, cache: PageCache, memory: Memory,
    ghost f: seq<U8>, ghost d: seq<U8>)
    returns (r: Result<PageCache, BatchError>)
    requires batch.Valid() && Usable(destination) && base < destination.size && base % 4096 == 0
    requires d == Load(memory + Overlay(batch.pages), destination.Bytes()) && CacheOk(cache, f, d)
    ensures Granted(destination, Read) ==> r.Ok?
    ensures r.Ok? ==> CacheOk(r.value, f, d) && base in r.value && r.value.Keys == cache.Keys + {base}
  {
    if base in cache { return Ok(cache); }
    var page := ReadPage(batch, destination, base, memory);
    if page.Err? { return Err(page.error); }
    FetchedPage(cache, f, d, base, page.value);
    r := Ok(cache[base := page.value]);
  }

  /** Copies the part of a region from `done` on that lies in one page. */
  method CopyOnePage(
    batch: CanonicalWriteBatch, destination: ResolvedRange, s: seq<U8>, region: CopyRegion, cache: PageCache, done: nat,
    memory: Memory, ghost cached: PageCache, ghost f: seq<U8>, ghost d: seq<U8>)
    returns (r: Result<(), BatchError>, next: PageCache, end: nat)
    requires batch.Valid() && Usable(destination)
    requires d == Load(memory + Overlay(batch.pages), destination.Bytes())
    requires Copying(cache, cached, f, s, d, region, done) && done < region.count
    ensures Granted(destination, Read) ==> r.Ok?
    ensures r.Ok? ==> done < end && Copying(next, cached, f, s, d, region, end)
  {
    next, end := cache, done;
    var src, dst := region.src + done, region.dst + done;
    var base := BaseOf(dst);
    ghost var now := CopyRun(f, s, region.src, region.dst, done);
    var fetched := FetchPage(batch, destination, base, cache, memory, now, d);
    if fetched.Err? { return Err(fetched.error), next, end; }
    var pages := fetched.value;
    assert |pages[base]| == PageEnd(base, |d|) - base;
    var size := Min(region.count - done, |pages[base]| - (dst - base));
    next := pages[base := CopyRun(pages[base], s, src, dst - base, size)];
    end := done + size;
    CopyingStep(cache, pages, cached, f, s, d, region, done, base, size, src, dst, next, end);
    r := Ok(());
  }

  /** Copies one region into the cache, page by page. */
  method CopyRegionPages(
    batch: CanonicalWriteBatch, destination: ResolvedRange, s: seq<U8>, region: CopyRegion, cached: PageCache,
    memory: Memory, ghost f: seq<U8>, ghost d: seq<U8>)
    returns (r: Result<PageCache, BatchError>)
    requires batch.Valid() && Usable(destination) && RegionOk(region, |s|, destination.size)
    requires d == Load(memory + Overlay(batch.pages), destination.Bytes()) && CacheOk(cached, f, d)
    ensures Granted(destination, Read) ==> r.Ok?
    ensures r.Ok? ==> Copying(r.value, cached, f, s, d, region, region.count)
  {
    var cache, done := cached, 0;
    CopyingStart(cached, f, s, d, region);
    while done < region.count
      invariant Copying(cache, cached, f, s, d, region, done)
    {
      var step, next, end := CopyOnePage(batch, destination, s, region, cache, done, memory, cached, f, d);
      if step.Err? { return Err(step.error); }
      cache, done := next, end;
    }
    r := Ok(cache);
  }

  lemma LoadSlice(memory: Memory, all: seq<Location>, lo: nat, hi: nat)
    requires lo <= hi <= |all|
    ensures Load(memory, all[lo..hi]) == Load(memory, all)[lo..hi]
  {
  }

  lemma TouchedPrefix(regions: seq<CopyRegion>, i: nat, j: nat, b: int)
    requires i < |regions| && j == i + 1
    ensures Touched(b, regions[..j]) <==> Touched(b, regions[..i]) || Touches(b, regions[i].dst, regions[i].count)
  {
    var long, short := regions[..j], regions[..i];
    if Touches(b, regions[i].dst, regions[i].count) { assert Touches(b, long[i].dst, long[i].count); }
    if Touched(b, short) {
      var k :| 0 <= k < |short| && Touches(b, short[k].dst, short[k].count);
      assert Touches(b, long[k].dst, long[k].count);
    }
  }

  lemma FlatCopyStep(d: seq<U8>, s: seq<U8>, regions: seq<CopyRegion>, i: nat, j: nat)
    requires RegionsOk(regions, |s|, |d|) && i < |regions| && j == i + 1
    ensures FlatCopy(d, s, regions[..j]) ==
            CopyRun(FlatCopy(d, s, regions[..i]), s, regions[i].src, regions[i].dst, regions[i].count)
  {
    assert regions[..j][..i] == regions[..i];
  }

  /** Copies every region into cached destination pages. */
  method CopyToPages(
    batch: CanonicalWriteBatch, destination: ResolvedRange, s: seq<U8>, regions: seq<CopyRegion>, memory: Memory)
    returns (r: Result<PageCache, BatchError>)
    requires batch.Valid() && Usable(destination) && RegionsOk(regions, |s|, destination.size)
    ensures Granted(destination, Read) ==> r.Ok?
    ensures var d := Load(memory + Overlay(batch.pages), destination.Bytes());
      r.Ok? ==> CacheOk(r.value, FlatCopy(d, s, regions), d)
    ensures r.Ok? ==> r.value.Keys == TouchedPages(regions, destination.size)
  {
    ghost var d := Load(memory + Overlay(batch.pages), destination.Bytes());
    var cache: PageCache := map[];
    for i := 0 to |regions|
      invariant CacheOk(cache, FlatCopy(d, s, regions[..i]), d)
      invariant forall b :: b in cache <==> Touched(b, regions[..i])
    {
      ghost var j := i + 1;
      FlatCopyStep(d, s, regions, i, j);
      forall b ensures Touched(b, regions[..j]) <==> Touched(b, regions[..i]) || Touches(b, regions[i].dst, regions[i].count) {
        TouchedPrefix(regions, i, j, b);
      }
      var next := CopyRegionPages(batch, destination, s, regions[i], cache, memory, FlatCopy(d, s, regions[..i]), d);
      if next.Err? { return Err(next.error); }
      cache := next.value;
    }
    assert regions[..|regions|] == regions;
    r := Ok(cache);
  }

  /** The first `i` pages have been staged. */
  ghost predicate Staging(before: Memory, now: Memory, all: seq<Location>, f: seq<U8>, ks: seq<int>, i: nat) {
    && |f| == |all| && PagesIn(ks, |f|) && i <= |ks|
    && now == PutPages(before, all, f, ks[..i])
  }

  lemma StagingStep(before: Memory, now: Memory, after: Memory, all: seq<Location>, f: seq<U8>, ks: seq<int>, i: nat, b: nat, e: nat)
    requires Staging(before, now, all, f, ks, i) && i < |ks| && b == ks[i] && e == PageEnd(b, |f|)
    requires after == PutAll(now, all[b..e], f[b..e])
    ensures Staging(before, after, all, f, ks, i + 1)
  {
    PutPagesStep(before, all, f, ks, i, i + 1);
  }

  /** Stages cached pages in ascending order. */
  method StagePages(
    batch: CanonicalWriteBatch, destination: ResolvedRange, ks: seq<int>, cache: PageCache, memory: Memory,
    ghost f: seq<U8>, ghost d: seq<U8>)
    returns (r: Result<(), BatchError>)
    requires batch.Valid() && Usable(destination) && |d| == destination.size && CacheOk(cache, f, d)
    requires forall i :: 0 <= i < |ks| ==> ks[i] in cache
    modifies batch
    ensures batch.Valid()
    ensures Granted(destination, Write) ==> r.Ok?
    ensures r.Ok? ==> Staging(old(Overlay(batch.pages)), Overlay(batch.pages), destination.Bytes(), f, ks, |ks|)
  {
    hide Overlay, PutAll, PagesValid;
    ghost var before := Overlay(batch.pages);
    for i := 0 to |ks|
      invariant batch.Valid()
      invariant Staging(before, Overlay(batch.pages), destination.Bytes(), f, ks, i)
    {
      ghost var now := Overlay(batch.pages);
      var page := cache[ks[i]];
      r := StageSubrange(batch, destination, ks[i], page, memory);
      if r.Err? { return; }
      StagingStep(before, now, Overlay(batch.pages), destination.Bytes(), f, ks, i, ks[i], ks[i] + |page|);
    }
    r := Ok(());
  }

  lemma StagedCopy(
    memory: Memory, overlay: Memory, after: Memory, s: seq<U8>, all: seq<Location>,
    regions: seq<CopyRegion>, d: seq<U8>, f: seq<U8>, ks: seq<int>)
    requires RegionsOk(regions, |s|, |all|) && Lists(ks, TouchedPages(regions, |all|))
    requires d == Load(memory + overlay, all) && f == FlatCopy(d, s, regions)
    requires Staging(overlay, after, all, f, ks, |ks|)
    ensures after == CopyOverlay(memory, overlay, s, all, regions)
  {
    ListIsUnique(ks, SortedList(TouchedPages(regions, |all|)), TouchedPages(regions, |all|));
    assert ks[..|ks|] == ks;
  }

  /** Copies every region of the source snapshot `s` and stages the touched pages. */
  method StageRegions(
    batch: CanonicalWriteBatch, s: seq<U8>, regions: seq<CopyRegion>, destination: ResolvedRange, memory: Memory)
    returns (r: Result<(), BatchError>)
    requires batch.Valid() && Usable(destination) && RegionsOk(regions, |s|, destination.size)
    modifies batch
    ensures batch.Valid()
    ensures Granted(destination, Read) && Granted(destination, Write) ==> r.Ok?
    ensures r.Ok? ==> Overlay(batch.pages) ==
                      CopyOverlay(memory, old(Overlay(batch.pages)), s, destination.Bytes(), regions)
  {
    ghost var before := Overlay(batch.pages);
    ghost var d := Load(memory + before, destination.Bytes());
    var cache := CopyToPages(batch, destination, s, regions, memory);
    if cache.Err? { return Err(cache.error); }
    var ks := Ascending(cache.value.Keys);
    ghost var f := FlatCopy(d, s, regions);
    r := StagePages(batch, destination, ks, cache.value, memory, f, d);
    if r.Ok? {
      StagedCopy(memory, before, Overlay(batch.pages), s, destination.Bytes(), regions, d, f, ks);
    }
  }

  /** Stages a memory copy: the source is read first, then regions are copied into cached
      destination pages, and touched pages are staged. */
  method StageMemoryCopy(
    batch: CanonicalWriteBatch, sourceSize: nat, regions: seq<CopyRegion>,
    source: ResolvedRange, destination: ResolvedRange, memory: Memory)
    returns (r: Result<(), CopyError>)
    requires batch.Valid() && Usable(source) && Usable(destination)
    requires RegionsOk(regions, sourceSize, destination.size)
    modifies batch
    ensures batch.Valid()
    ensures sourceSize != source.size ==> r == Err(RangeSizeMismatch) && batch.pages == old(batch.pages)
    ensures
      && sourceSize == source.size
      && Granted(source, Read)
      && Granted(destination, Read)
      && Granted(destination, Write)
      ==> r.Ok?
    ensures r.Ok? ==> sourceSize == source.size && Overlay(batch.pages) ==
                      CopyOverlay(
                        memory, old(Overlay(batch.pages)), Load(memory + old(Overlay(batch.pages)), source.Bytes()),
                        destination.Bytes(), regions)
  {
    if sourceSize != source.size { return Err(RangeSizeMismatch); }
    var s := ReadSubrange(batch, source, 0, sourceSize, memory);
    if s.Err? { return Err(Transaction(s.error)); }
    assert source.Bytes()[0..sourceSize] == source.Bytes();
    var staged := StageRegions(batch, s.value, regions, destination, memory);
    r := if staged.Ok? then Ok(()) else Err(Transaction(staged.error));
  }
}
