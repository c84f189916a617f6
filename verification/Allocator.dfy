/** First-fit allocation of contiguous blocks: `find_free_blocks` (kernel/fs.c). */
module Allocator {
  import opened Bytes
  import opened Directory

  datatype Region = Region(start: U64, count: U64)

  // ---- what first fit means ----

  /** The block run `[b, b + n)` meets the run reserved by slot `i`. */
  predicate Touches(dir: Dir, i: int, b: int, n: int)
    requires 0 <= i < SLOTS
  {
    dir[i].start < b + n && b < dir[i].start + dir[i].reserved
  }

  ghost predicate Fits(dir: Dir, b: int, n: int) {
    forall i | Live(dir, i) :: !Touches(dir, i, b, n)
  }

  /** `b` is the lowest block from 1 on where `n` blocks fit between the files. */
  ghost predicate LowestFit(dir: Dir, n: int, b: int) {
    && 1 <= b
    && Fits(dir, b, n)
    && forall c | 1 <= c < b :: !Fits(dir, c, n)
  }

  /** Every file reserves at least one block and ends below 2^64. */
  ghost predicate SaneExtents(dir: Dir) {
    forall i | Live(dir, i) :: dir[i].reserved >= 1 && dir[i].start + dir[i].reserved < TWO_TO_64
  }

  /**
   * The answer for `n` blocks: the lowest fit, or, when no run of `n` blocks with
   * a 64-bit end is free, some block whose run is not addressable either.
   */
  ghost predicate Allocates(dir: Dir, n: int, b: int) {
    if b + n < TWO_TO_64 then LowestFit(dir, n, b)
    else b >= 1 && forall c | 1 <= c && c + n < TWO_TO_64 :: !Fits(dir, c, n)
  }

  // ---- regions and their order ----

  ghost predicate RegionOf(dir: Dir, i: int, r: Region) {
    Live(dir, i) && r.start == dir[i].start && r.count == dir[i].reserved
  }

  /** `rs` lists the extents of the live slots below `n`, in slot order. */
  function Regions(dir: Dir, n: nat): (rs: seq<Region>)
    requires n <= SLOTS
  {
    if n == 0 then [] else
      var rs := Regions(dir, n - 1);
      if dir[n - 1].name[0] == DELETED then rs else rs + [Region(dir[n - 1].start, dir[n - 1].reserved)]
  }

  predicate Ordered(rs: seq<Region>) {
    forall i, j | 0 <= i < j < |rs| :: rs[i].start <= rs[j].start
  }

  function Insert(rs: seq<Region>, r: Region): (out: seq<Region>)
    ensures |out| == |rs| + 1
  {
    if rs == [] || rs[|rs| - 1].start <= r.start then rs + [r]
    else Insert(rs[..|rs| - 1], r) + [rs[|rs| - 1]]
  }

  function Sorted(rs: seq<Region>): (out: seq<Region>)
    ensures |out| == |rs|
  {
    if rs == [] then [] else Insert(Sorted(rs[..|rs| - 1]), rs[|rs| - 1])
  }

  lemma {:induction false} InsertPermutes(rs: seq<Region>, r: Region)
    ensures multiset(Insert(rs, r)) == multiset(rs) + multiset{r}
  {
    if rs != [] && rs[|rs| - 1].start > r.start {
      InsertPermutes(rs[..|rs| - 1], r);
      assert rs == rs[..|rs| - 1] + [rs[|rs| - 1]];
    }
  }

  lemma {:induction false} InsertOrders(rs: seq<Region>, r: Region, bound: int)
    requires Ordered(rs)
    requires r.start <= bound && forall k | 0 <= k < |rs| :: rs[k].start <= bound
    ensures Ordered(Insert(rs, r))
    ensures forall k | 0 <= k <= |rs| :: Insert(rs, r)[k].start <= bound
  {
    if rs != [] && rs[|rs| - 1].start > r.start {
      InsertOrders(rs[..|rs| - 1], r, rs[|rs| - 1].start);
    }
  }

  /** Insertion sort yields an ordered permutation. */
  lemma {:induction false} SortedIsOrderedPermutation(rs: seq<Region>)
    ensures Ordered(Sorted(rs))
    ensures multiset(Sorted(rs)) == multiset(rs)
  {
    if rs != [] {
      var init, last := rs[..|rs| - 1], rs[|rs| - 1];
      SortedIsOrderedPermutation(init);
      InsertPermutes(Sorted(init), last);
      InsertOrders(Sorted(init), last, TWO_TO_64);
      assert rs == init + [last];
    }
  }

  /** Where `Insert` puts its argument. */
  lemma {:induction false} InsertAt(rs: seq<Region>, r: Region, k: nat)
    requires k <= |rs|
    requires forall i | k <= i < |rs| :: rs[i].start > r.start
    requires k > 0 ==> rs[k - 1].start <= r.start
    ensures forall m {:trigger Insert(rs, r)[m]} | 0 <= m <= |rs| ::
              Insert(rs, r)[m] == if m < k then rs[m] else if m == k then r else rs[m - 1]
  {
    if k < |rs| {
      var init, last := rs[..|rs| - 1], rs[|rs| - 1];
      InsertAt(init, r, k);
      assert Insert(rs, r) == Insert(init, r) + [last];
    }
  }

  // ---- the regions stand for the files ----

  /** `rs` holds the extent of every file, and nothing else. */
  ghost predicate Lists(dir: Dir, rs: seq<Region>) {
    && (forall i | Live(dir, i) :: Region(dir[i].start, dir[i].reserved) in rs)
    && (forall r | r in rs :: exists i :: RegionOf(dir, i, r))
  }

  lemma {:induction false} RegionsBelow(dir: Dir, n: nat, upTo: nat)
    requires n <= upTo <= SLOTS && Scanned(dir, upTo)
    ensures forall i | 0 <= i < n && dir[i].name[0] != DELETED ::
              Region(dir[i].start, dir[i].reserved) in Regions(dir, n)
    ensures forall r | r in Regions(dir, n) :: exists i :: RegionOf(dir, i, r)
  {
    if n > 0 {
      RegionsBelow(dir, n - 1, upTo);
      if dir[n - 1].name[0] != DELETED {
        assert RegionOf(dir, n - 1, Region(dir[n - 1].start, dir[n - 1].reserved));
      }
    }
  }

  lemma SortedRegionsList(dir: Dir, upTo: nat)
    requires upTo <= SLOTS && Scanned(dir, upTo)
    ensures Lists(dir, Sorted(Regions(dir, upTo)))
  {
    var rs := Regions(dir, upTo);
    RegionsBelow(dir, upTo, upTo);
    SortedIsOrderedPermutation(rs);
    assert forall r :: r in Sorted(rs) <==> r in multiset(Sorted(rs));
    assert forall r :: r in rs <==> r in multiset(rs);
    assert forall i | Live(dir, i) :: i < upTo;
  }

  predicate Meets(r: Region, b: int, n: int) {
    r.start < b + n && b < r.start + r.count
  }

  lemma FitsBetween(dir: Dir, rs: seq<Region>, b: int, n: int)
    requires Lists(dir, rs)
    ensures Fits(dir, b, n) <==> forall k | 0 <= k < |rs| :: !Meets(rs[k], b, n)
  {
    if Fits(dir, b, n) {
      forall k | 0 <= k < |rs| ensures !Meets(rs[k], b, n) {
        assert rs[k] in rs;
        var i :| RegionOf(dir, i, rs[k]);
      }
    }
    if forall k | 0 <= k < |rs| :: !Meets(rs[k], b, n) {
      forall i | Live(dir, i) ensures !Touches(dir, i, b, n) {
        assert Region(dir[i].start, dir[i].reserved) in rs;
      }
    }
  }

  // ---- the three loops ----

  /** Collects the extents of the files in slot order. */
  method Collect(dir: array<Entry>, regions: array<Region>) returns (n: nat)
    requires dir.Length == SLOTS && regions.Length == SLOTS
    modifies regions
    ensures n <= SLOTS
    ensures exists upTo: nat :: upTo <= SLOTS && Scanned(dir[..], upTo) && regions[..n] == Regions(dir[..], upTo)
  {
    n := 0;
    var i := 0;
    while i < SLOTS && dir[i].name[0] != END
      invariant 0 <= n <= i <= SLOTS
      invariant forall j | 0 <= j < i :: !EndAt(dir[..], j)
      invariant regions[..n] == Regions(dir[..], i)
    {
      if dir[i].name[0] != DELETED {
        regions[n] := Region(dir[i].start, dir[i].reserved);
        n := n + 1;
      }
      i := i + 1;
    }
    assert Scanned(dir[..], i);
  }

  /** The slots below `upTo` are those before the end marker. */
  ghost predicate Scanned(dir: Dir, upTo: nat)
    requires upTo <= SLOTS
  {
    && (forall j | 0 <= j < upTo :: !EndAt(dir, j))
    && (upTo < SLOTS ==> EndAt(dir, upTo))
  }

  /** In-place insertion sort of the first `n` regions. */
  method InsertionSort(regions: array<Region>, n: nat)
    requires n <= regions.Length
    modifies regions
    ensures regions[..n] == Sorted(old(regions[..n]))
  {
    ghost var was := regions[..n];
    var i := Min(1, n);
    assert i == 1 ==> was[..1] == [was[0]] && Sorted([was[0]]) == [was[0]];
    while i < n
      invariant Min(1, n) <= i <= n
      invariant regions[..i] == Sorted(was[..i])
      invariant forall k | i <= k < n :: regions[k] == was[k]
    {
      InsertOne(regions, i);
      assert was[..i + 1] == was[..i] + [was[i]];
      assert was[..i + 1][..i] == was[..i];
      i := i + 1;
    }
    assert was[..n] == was;
  }

  /** Moves element `i` down to its place among the elements before it. */
  method InsertOne(regions: array<Region>, i: nat)
    requires i < regions.Length
    modifies regions
    ensures regions[..i + 1] == Insert(old(regions[..i]), old(regions[i]))
    ensures forall k | i < k < regions.Length :: regions[k] == old(regions[k])
  {
    ghost var was := regions[..i];
    var tmp := regions[i];
    var j := i - 1;
    while j >= 0 && regions[j].start > tmp.start
      invariant -1 <= j < i
      invariant forall k | 0 <= k <= j :: regions[k] == was[k]
      invariant forall k | j + 1 < k <= i :: regions[k] == was[k - 1]
      invariant forall k | j < k < i :: was[k].start > tmp.start
      invariant forall k | i < k < regions.Length :: regions[k] == old(regions[k])
    {
      regions[j + 1] := regions[j];
      j := j - 1;
    }
    regions[j + 1] := tmp;
    InsertAt(was, tmp, j + 1);
    assert forall m | 0 <= m <= i :: regions[m] == Insert(was, tmp)[m];
  }

  /** No addressable run of `n` blocks starts below `limit`. */
  ghost predicate NoneBelow(dir: Dir, n: int, limit: int) {
    forall c | 1 <= c < limit && c + n < TWO_TO_64 :: !Fits(dir, c, n)
  }

  /** Passing region `r` moves the candidate past blocks that `r` occupies. */
  lemma PassRegion(dir: Dir, rs: seq<Region>, k: nat, n: int, candidate: int, next: int)
    requires Lists(dir, rs) && k < |rs| && NoneBelow(dir, n, candidate)
    requires rs[k].start < candidate + n || candidate + n >= TWO_TO_64
    requires next == Max(candidate, rs[k].start + rs[k].count)
    ensures NoneBelow(dir, n, next)
  {
    forall c | candidate <= c < next && c + n < TWO_TO_64 ensures !Fits(dir, c, n) {
      assert Meets(rs[k], c, n);
      FitsBetween(dir, rs, c, n);
    }
  }

  /** Stopping before region `k` leaves a run clear of every region. */
  lemma GapIsFree(dir: Dir, rs: seq<Region>, k: nat, n: int, candidate: int)
    requires Lists(dir, rs) && Ordered(rs) && k <= |rs|
    requires forall i | 0 <= i < k :: rs[i].start + rs[i].count <= candidate
    requires k < |rs| ==> rs[k].start >= candidate + n
    ensures Fits(dir, candidate, n)
  {
    forall i | 0 <= i < |rs| ensures !Meets(rs[i], candidate, n) {
    }
    FitsBetween(dir, rs, candidate, n);
  }

  /** The gap scan over ordered regions; sums are taken modulo 2^64. */
  method GapScan(regions: array<Region>, n: nat, needed: U64, ghost dir: Dir) returns (block: U64)
    requires n <= regions.Length && needed >= 1
    requires Ordered(regions[..n]) && Lists(dir, regions[..n])
    ensures block >= 1
    ensures SaneExtents(dir) ==> Allocates(dir, needed, block)
  {
    ghost var rs := regions[..n];
    ghost var sane := SaneExtents(dir);
    var candidate: U64 := 1;
    var i := 0;
    while i < n
      invariant 0 <= i <= n && candidate >= 1
      invariant sane ==> forall k | 0 <= k < i :: rs[k].start + rs[k].count <= candidate
      invariant sane ==> NoneBelow(dir, needed, candidate)
    {
      if regions[i].start >= (candidate + needed) % TWO_TO_64 {
        if sane && candidate + needed < TWO_TO_64 {
          GapIsFree(dir, rs, i, needed, candidate);
        }
        return candidate;
      }
      var end := (regions[i].start + regions[i].count) % TWO_TO_64;
      if sane {
        assert rs[i] in rs;
        PassRegion(dir, rs, i, needed, candidate, Max(candidate, end));
      }
      if end > candidate {
        candidate := end;
      }
      i := i + 1;
    }
    if sane {
      GapIsFree(dir, rs, n, needed, candidate);
    }
    return candidate;
  }

  /** `find_free_blocks`: collect, sort, scan. */
  method FindFreeBlocks(dir: array<Entry>, needed: U64) returns (block: U64)
    requires dir.Length == SLOTS && needed >= 1
    ensures block >= 1
    ensures SaneExtents(dir[..]) ==> Allocates(dir[..], needed, block)
  {
    var regions := new Region[SLOTS](_ => Region(0, 0));
    var n := Collect(dir, regions);
    ghost var upTo: nat :| upTo <= SLOTS && Scanned(dir[..], upTo) && regions[..n] == Regions(dir[..], upTo);
    InsertionSort(regions, n);
    SortedIsOrderedPermutation(Regions(dir[..], upTo));
    SortedRegionsList(dir[..], upTo);
    block := GapScan(regions, n, needed, dir[..]);
  }
}
