/** Values shared by the GPU components: machine integers, permissions and the
    canonical bytes that GPU mappings retain. */
module Canonical {

  datatype Option<+T> = None | Some(value: T)

  datatype Result<+T, +E> = Ok(value: T) | Err(error: E)

  function Max(x: int, y: int): int { if x < y then y else x }

  function Min(x: int, y: int): int { if x < y then x else y }

  lemma SliceOfSlice<T>(s: seq<T>, a: nat, b: nat, i: nat, j: nat)
    requires a <= b <= |s| && i <= j <= b - a
    ensures s[a..b][i..j] == s[a + i..a + j]
  {
    var x, y := s[a..b][i..j], s[a + i..a + j];
    assert |x| == |y|;
    forall n | 0 <= n < |x| ensures x[n] == y[n] {
    }
  }

  lemma SliceAt<T>(s: seq<T>, a: nat, b: nat, n: nat)
    requires a <= b <= |s| && n < b - a
    ensures s[a..b][n] == s[a + n]
  {
  }

  lemma JoinSlices<T>(s: seq<T>, a: nat, b: nat, c: nat)
    requires a <= b <= c <= |s|
    ensures s[a..b] + s[b..c] == s[a..c]
  {
  }

  const U32_LIMIT: int := 0x1_0000_0000
  const U64_LIMIT: int := 0x1_0000_0000_0000_0000

  type U8 = n: int | 0 <= n < 0x100
  type U32 = n: int | 0 <= n < 0x1_0000_0000
  type U64 = n: int | 0 <= n < 0x1_0000_0000_0000_0000

  /** A GPU virtual address of the GM20B profile, which is 40 bits wide. */
  const ADDRESS_LIMIT: int := 0x100_0000_0000
  type Address = a: int | 0 <= a < 0x100_0000_0000

  datatype Access = Read | Write | Execute

  /** A permission set; `p <= q` is "q contains p" and `{}` is NONE. */
  type Permissions = set<Access>

  /** One byte of canonical storage. */
  datatype Location = Location(page: nat, offset: nat)

  type Memory = map<Location, U8>

  /** Bytes never written read as zero. */
  function ByteAt(memory: Memory, at: Location): U8 {
    if at in memory then memory[at] else 0
  }

  /** A run of consecutive bytes of one canonical page. */
  datatype BackingSegment = BackingSegment(page: nat, offset: nat, size: nat, permissions: Permissions)

  function TotalSize(segments: seq<BackingSegment>): nat {
    if segments == [] then 0 else segments[0].size + TotalSize(segments[1..])
  }

  /** Consecutive bytes of one page. */
  function PageRun(page: nat, offset: nat, n: nat): seq<Location> {
    seq(n, i requires 0 <= i => Location(page, offset + i))
  }

  /** The canonical bytes that a list of segments denotes, in logical order. */
  function Locations(segments: seq<BackingSegment>): (l: seq<Location>)
    ensures |l| == TotalSize(segments)
  {
    if segments == [] then []
    else PageRun(segments[0].page, segments[0].offset, segments[0].size) + Locations(segments[1..])
  }

  /** A retained scatter list of canonical pages. */
  datatype Backing = Backing(segments: seq<BackingSegment>) {
    function Size(): nat {
      TotalSize(segments)
    }

    predicate Grants(permissions: Permissions) {
      forall i :: 0 <= i < |segments| ==> permissions <= segments[i].permissions
    }

    /** The canonical bytes behind logical bytes `offset..offset + n`. */
    function Span(offset: nat, n: nat): seq<Location>
      requires offset + n <= Size()
    {
      Locations(segments)[offset..offset + n]
    }

    function At(i: nat): Location
      requires i < Size()
    {
      Locations(segments)[i]
    }
  }

  lemma SplitTail<T>(all: seq<T>, begin: nat, next: nat, head: seq<T>, tail: seq<T>)
    requires begin <= |all| && all[begin..] == head + tail && next == begin + |head|
    ensures next <= |all| && all[begin..next] == head && all[next..] == tail
  {
    assert all[begin..next] == (head + tail)[..|head|];
    assert all[next..] == (head + tail)[|head|..];
  }
}
