/** Floor regions as the flood fills find them, the row-major scan that
    collects them, the size sort that picks the main region, and the
    size filter that turns regions into rooms. */
module Regions {
  import opened Tiles

  /** A list of cells, in the order a flood fill appended them. */
  type Region = seq<Pos>

  /** Rooms are regions with MORE than this many cells. */
  const MIN_ROOM_SIZE := 20

  /** The 4-connected floor component of the region's first cell, each cell once. */
  ghost predicate IsRegion(g: Grid, r: Region) {
    && |r| > 0
    && NoDup(r)
    && forall c :: c in r <==> Reachable(g, r[0], c)
  }

  ghost predicate InSome(regions: seq<Region>, c: Pos) {
    exists i :: 0 <= i < |regions| && c in regions[i]
  }

  /** The regions are components, pairwise disjoint, each listed from its
      row-major-first cell, and in row-major order of those first cells. */
  ghost predicate RegionsInOrder(g: Grid, regions: seq<Region>) {
    && (forall i :: 0 <= i < |regions| ==> IsRegion(g, regions[i]))
    && (forall i, j, c :: 0 <= i < j < |regions| && c in regions[i] ==> c !in regions[j])
    && (forall i, c :: 0 <= i < |regions| && c in regions[i] ==> !Before(c, regions[i][0]))
    && (forall i, j :: 0 <= i < j < |regions| ==> Before(regions[i][0], regions[j][0]))
  }

  /** What a complete scan of the grid finds: every floor cell lies in one of the regions. */
  ghost predicate RegionsOf(g: Grid, regions: seq<Region>) {
    RegionsInOrder(g, regions) && forall c :: Floor(g, c) ==> InSome(regions, c)
  }

  // ---------------------------------------------------------------------
  // Flood fill: a closed set of cells holds the whole component

  lemma {:induction false} UnmarkedAlongPath(g: Grid, v: seq<seq<bool>>, p: seq<Pos>)
    requires VisitedClosed(g, v) && IsPath(g, p) && !Marked(v, p[0])
    ensures forall j :: 0 <= j < |p| ==> !Marked(v, p[j])
    decreases |p|
  {
    if |p| > 1 {
      var q := p[..|p| - 1];
      assert IsPath(g, q);
      UnmarkedAlongPath(g, v, q);
      var n := |p| - 1;
      assert !Marked(v, p[n - 1]) && Adjacent(p[n - 1], p[n]);
      assert Adjacent(p[n], p[n - 1]);
    }
  }

  /** A closed visited matrix holds whole components: what an unmarked cell
      reaches is unmarked too. */
  lemma ReachableUnmarked(g: Grid, v: seq<seq<bool>>, s: Pos, c: Pos)
    requires VisitedClosed(g, v) && !Marked(v, s) && Reachable(g, s, c)
    ensures !Marked(v, c)
  {
    var p :| IsPath(g, p) && p[0] == s && p[|p| - 1] == c;
    UnmarkedAlongPath(g, v, p);
  }

  lemma {:induction false} PathInClosedSet(g: Grid, v: seq<seq<bool>>, cells: seq<Pos>, p: seq<Pos>)
    requires IsPath(g, p) && p[0] in cells
    requires forall j :: 0 <= j < |p| ==> !Marked(v, p[j])
    requires forall c, n :: c in cells && Adjacent(c, n) && Floor(g, n) ==> Marked(v, n) || n in cells
    ensures forall j :: 0 <= j < |p| ==> p[j] in cells
    decreases |p|
  {
    if |p| > 1 {
      var q := p[..|p| - 1];
      assert IsPath(g, q);
      PathInClosedSet(g, v, cells, q);
      var n := |p| - 1;
      assert p[n - 1] in cells && Adjacent(p[n - 1], p[n]) && Floor(g, p[n]);
    }
  }

  /** The heart of both flood fills: once the work queue is empty, every floor
      neighbour of a found cell is found or was visited before, and that is
      enough for the found cells to hold the seed's whole component. */
  lemma ClosedSetHoldsComponent(g: Grid, v: seq<seq<bool>>, cells: seq<Pos>, s: Pos)
    requires VisitedClosed(g, v) && !Marked(v, s) && s in cells
    requires forall c, n :: c in cells && Adjacent(c, n) && Floor(g, n) ==> Marked(v, n) || n in cells
    ensures forall c :: Reachable(g, s, c) ==> c in cells
  {
    forall c | Reachable(g, s, c)
      ensures c in cells
    {
      var p :| IsPath(g, p) && p[0] == s && p[|p| - 1] == c;
      UnmarkedAlongPath(g, v, p);
      PathInClosedSet(g, v, cells, p);
    }
  }

  // ---------------------------------------------------------------------
  // The row-major scan `for y in range(h): for x in range(w):`

  /** The visited cells are exactly those of the regions, which are in order. */
  ghost predicate VisitedHoldsRegions(g: Grid, v: seq<seq<bool>>, regions: seq<Region>) {
    && VisitedClosed(g, v)
    && RegionsInOrder(g, regions)
    && (forall c :: Marked(v, c) <==> InSome(regions, c))
  }

  /** The scan has reached `cur`: every floor cell before it is visited, the
      visited cells are exactly those of the regions found so far, and the
      regions are in order and all start before `cur`. */
  ghost predicate Scanned(g: Grid, v: seq<seq<bool>>, regions: seq<Region>, cur: Pos) {
    && VisitedHoldsRegions(g, v, regions)
    && FloorMarkedBefore(g, v, cur)
    && HeadsBefore(regions, cur)
  }

  /** Every floor cell before `cur` is visited. */
  ghost predicate FloorMarkedBefore(g: Grid, v: seq<seq<bool>>, cur: Pos) {
    forall c :: Floor(g, c) && Before(c, cur) ==> Marked(v, c)
  }

  /** Every region starts before `cur`. */
  ghost predicate HeadsBefore(regions: seq<Region>, cur: Pos) {
    forall i :: 0 <= i < |regions| ==> |regions[i]| > 0 && Before(regions[i][0], cur)
  }

  lemma ScanStart(g: Grid, v: seq<seq<bool>>)
    requires forall c :: !Marked(v, c)
    ensures Scanned(g, v, [], (0, 0))
  {
  }

  /** Moving the cursor one cell right keeps the cursor facts when the cell
      under it is visited or not floor. */
  lemma CursorSkip(g: Grid, v: seq<seq<bool>>, regions: seq<Region>, x: int, y: int)
    requires FloorMarkedBefore(g, v, (x, y)) && HeadsBefore(regions, (x, y))
    requires Marked(v, (x, y)) || !Floor(g, (x, y))
    ensures FloorMarkedBefore(g, v, (x + 1, y)) && HeadsBefore(regions, (x + 1, y))
  {
    forall c | Floor(g, c) && Before(c, (x + 1, y))
      ensures Marked(v, c)
    {
      if c != (x, y) {
        assert Before(c, (x, y));
      }
    }
  }

  /** A cell that is not an unvisited floor cell starts no region. */
  lemma ScanSkip(g: Grid, v: seq<seq<bool>>, regions: seq<Region>, x: int, y: int)
    requires Scanned(g, v, regions, (x, y))
    requires Marked(v, (x, y)) || !Floor(g, (x, y))
    ensures Scanned(g, v, regions, (x + 1, y))
  {
    CursorSkip(g, v, regions, x, y);
  }

  /** The cells of a component that starts at an unvisited cell are unvisited floor. */
  lemma RegionUnvisited(g: Grid, v: seq<seq<bool>>, region: Region)
    requires VisitedClosed(g, v) && IsRegion(g, region) && !Marked(v, region[0])
    ensures forall c :: c in region ==> !Marked(v, c) && Floor(g, c)
  {
    forall c | c in region
      ensures !Marked(v, c) && Floor(g, c)
    {
      ReachableUnmarked(g, v, region[0], c);
      ReachableEnds(g, region[0], c);
    }
  }

  /** Visiting a whole component keeps the visited matrix closed. */
  lemma VisitComponentClosed(g: Grid, v: seq<seq<bool>>, v': seq<seq<bool>>, region: Region)
    requires VisitedClosed(g, v) && IsRegion(g, region)
    requires forall c :: c in region ==> Floor(g, c)
    requires forall c :: Marked(v', c) <==> Marked(v, c) || c in region
    ensures VisitedClosed(g, v')
  {
    forall p, q | Marked(v', p) && Adjacent(p, q) && Floor(g, q)
      ensures Marked(v', q)
    {
      if p in region {
        ReachableStep(g, region[0], p, q);
      }
    }
  }

  /** A new region after the others, disjoint from them and headed by a later
      cell, keeps the list in order. */
  lemma AppendInOrder(g: Grid, regions: seq<Region>, region: Region)
    requires RegionsInOrder(g, regions) && IsRegion(g, region)
    requires forall i, c :: 0 <= i < |regions| && c in regions[i] ==> c !in region
    requires forall c :: c in region ==> !Before(c, region[0])
    requires forall i :: 0 <= i < |regions| ==> Before(regions[i][0], region[0])
    ensures RegionsInOrder(g, regions + [region])
  {
    var rs := regions + [region];
    assert forall i :: 0 <= i < |regions| ==> rs[i] == regions[i];
    assert rs[|regions|] == region;
  }

  lemma InSomeAppend(regions: seq<Region>, region: Region)
    ensures forall c :: InSome(regions + [region], c) <==> InSome(regions, c) || c in region
  {
    var rs := regions + [region];
    forall c | InSome(rs, c)
      ensures InSome(regions, c) || c in region
    {
      var i :| 0 <= i < |rs| && c in rs[i];
      if i < |regions| {
        assert c in regions[i];
      }
    }
    forall c | InSome(regions, c)
      ensures InSome(rs, c)
    {
      var i :| 0 <= i < |regions| && c in regions[i];
      assert c in rs[i];
    }
    forall c | c in region
      ensures InSome(rs, c)
    {
      assert c in rs[|regions|];
    }
  }

  /** The cursor facts after a flood fill from the cell under the cursor. */
  lemma CursorAdd(g: Grid, v: seq<seq<bool>>, v': seq<seq<bool>>, regions: seq<Region>, region: Region, x: int, y: int)
    requires FloorMarkedBefore(g, v, (x, y)) && HeadsBefore(regions, (x, y))
    requires |region| > 0 && region[0] == (x, y)
    requires forall c :: Marked(v', c) <==> Marked(v, c) || c in region
    ensures FloorMarkedBefore(g, v', (x + 1, y)) && HeadsBefore(regions + [region], (x + 1, y))
  {
    forall c | Floor(g, c) && Before(c, (x + 1, y))
      ensures Marked(v', c)
    {
      if c != (x, y) {
        assert Before(c, (x, y));
      }
    }
    var rs := regions + [region];
    forall i | 0 <= i < |rs|
      ensures |rs[i]| > 0 && Before(rs[i][0], (x + 1, y))
    {
      if i < |regions| {
        assert rs[i] == regions[i];
      }
    }
  }

  /** A flood fill from the unvisited floor cell at the cursor adds its whole
      component as a new region. */
  lemma ScanAdd(g: Grid, v: seq<seq<bool>>, v': seq<seq<bool>>, regions: seq<Region>, region: Region, x: int, y: int)
    requires Scanned(g, v, regions, (x, y))
    requires Floor(g, (x, y)) && !Marked(v, (x, y))
    requires IsRegion(g, region) && region[0] == (x, y)
    requires forall c :: Marked(v', c) <==> Marked(v, c) || c in region
    ensures Scanned(g, v', regions + [region], (x + 1, y))
  {
    HoldsAppend(g, v, v', regions, region, x, y);
    CursorAdd(g, v, v', regions, region, x, y);
  }

  /** The regions-and-visited part of ScanAdd. */
  lemma HoldsAppend(g: Grid, v: seq<seq<bool>>, v': seq<seq<bool>>, regions: seq<Region>, region: Region, x: int, y: int)
    requires VisitedHoldsRegions(g, v, regions)
    requires FloorMarkedBefore(g, v, (x, y)) && HeadsBefore(regions, (x, y))
    requires !Marked(v, (x, y))
    requires IsRegion(g, region) && region[0] == (x, y)
    requires forall c :: Marked(v', c) <==> Marked(v, c) || c in region
    ensures VisitedHoldsRegions(g, v', regions + [region])
  {
    RegionUnvisited(g, v, region);
    VisitComponentClosed(g, v, v', region);
    NewRegionFits(g, v, regions, region, x, y);
    AppendInOrder(g, regions, region);
    InSomeAppend(regions, region);
  }

  /** A region of unvisited cells starting at the cursor is disjoint from the
      visited regions and starts at its own row-major-first cell. */
  lemma NewRegionFits(g: Grid, v: seq<seq<bool>>, regions: seq<Region>, region: Region, x: int, y: int)
    requires forall c :: InSome(regions, c) ==> Marked(v, c)
    requires FloorMarkedBefore(g, v, (x, y))
    requires forall c :: c in region ==> !Marked(v, c) && Floor(g, c)
    requires |region| > 0 && region[0] == (x, y)
    ensures forall i, c :: 0 <= i < |regions| && c in regions[i] ==> c !in region
    ensures forall c :: c in region ==> !Before(c, region[0])
  {
    forall i, c | 0 <= i < |regions| && c in regions[i]
      ensures c !in region
    {
      assert InSome(regions, c);
    }
  }

  /** At the end of a row the scan continues at the start of the next. */
  lemma ScanNextRow(g: Grid, w: nat, v: seq<seq<bool>>, regions: seq<Region>, y: int)
    requires IsGrid(g, w, |g|) && Scanned(g, v, regions, (w, y))
    ensures Scanned(g, v, regions, (0, y + 1))
  {
    forall c | Floor(g, c) && Before(c, (0, y + 1))
      ensures Marked(v, c)
    {
      assert Before(c, (w, y));
    }
    forall i | 0 <= i < |regions|
      ensures Before(regions[i][0], (0, y + 1))
    {
      assert regions[i][0] in regions[i];
      assert Reachable(g, regions[i][0], regions[i][0]);
      ReachableEnds(g, regions[i][0], regions[i][0]);
    }
  }

  /** A scan past the last row has found every floor cell. */
  lemma ScanDone(g: Grid, v: seq<seq<bool>>, regions: seq<Region>)
    requires Scanned(g, v, regions, (0, |g|))
    ensures RegionsOf(g, regions)
  {
    forall c | Floor(g, c)
      ensures InSome(regions, c)
    {
      assert Before(c, (0, |g|));
    }
  }

  /** Two regions of a grid whose floor is one component cannot both exist. */
  lemma ConnectedHasOneRegion(g: Grid, regions: seq<Region>)
    requires RegionsInOrder(g, regions) && FloorConnected(g)
    ensures |regions| <= 1
  {
    if |regions| > 1 {
      var a, b := regions[0][0], regions[1][0];
      assert a in regions[0] && b in regions[1];
      ReachableEnds(g, a, a);
      ReachableEnds(g, b, b);
      assert false;
    }
  }

  // ---------------------------------------------------------------------
  // `regions.sort(key=len, reverse=True)`: a stable sort, largest first

  ghost predicate SortedBySize(rs: seq<Region>) {
    forall i, j :: 0 <= i < j < |rs| ==> |rs[i]| >= |rs[j]|
  }

  /** The index of the first region of greatest size. */
  function FirstLargest(rs: seq<Region>): (k: nat)
    requires |rs| > 0
    ensures k < |rs|
    ensures forall i :: 0 <= i < |rs| ==> |rs[i]| <= |rs[k]|
    ensures forall i :: 0 <= i < k ==> |rs[i]| < |rs[k]|
  {
    if |rs| == 1 then 0
    else
      var k := FirstLargest(rs[..|rs| - 1]);
      assert forall i :: 0 <= i < |rs| - 1 ==> rs[..|rs| - 1][i] == rs[i];
      if |rs[|rs| - 1]| > |rs[k]| then |rs| - 1 else k
  }

  /** How many regions at the front of `sorted` are at least as large as `r`:
      the place where `r` goes. */
  function InsertIndex(sorted: seq<Region>, r: Region): (k: nat)
    ensures k <= |sorted|
    ensures forall i :: 0 <= i < k ==> |sorted[i]| >= |r|
    ensures k < |sorted| ==> |sorted[k]| < |r|
  {
    if sorted == [] || |sorted[0]| < |r| then 0 else 1 + InsertIndex(sorted[1..], r)
  }

  /** Places `r` after every region at least as large, so equal sizes keep their order. */
  function InsertBySize(sorted: seq<Region>, r: Region): (res: seq<Region>)
    ensures multiset(res) == multiset(sorted) + multiset{r} && |res| == |sorted| + 1
    ensures forall k :: 0 <= k < |res| ==> res[k] == r || res[k] in sorted
    ensures sorted != [] && |sorted[0]| >= |r| ==> res[0] == sorted[0]
    ensures (sorted == [] || |sorted[0]| < |r|) ==> res[0] == r
  {
    if sorted == [] then [r]
    else if |sorted[0]| >= |r| then
      assert sorted == [sorted[0]] + sorted[1..];
      [sorted[0]] + InsertBySize(sorted[1..], r)
    else [r] + sorted
  }

  /** `res` is `sorted` with `r` put in at index `k`, behind every region at
      least as large and in front of the first smaller one. */
  predicate SplitAt(sorted: seq<Region>, r: Region, res: seq<Region>, k: nat)
  {
    && k <= |sorted| && res == sorted[..k] + [r] + sorted[k..]
    && (forall i :: 0 <= i < k ==> |sorted[i]| >= |r|)
    && (k < |sorted| ==> |sorted[k]| < |r|)
  }

  /** Insertion puts `r` behind the leading regions at least as large as it. */
  lemma {:induction false} InsertBySizeSplits(sorted: seq<Region>, r: Region)
    ensures SplitAt(sorted, r, InsertBySize(sorted, r), InsertIndex(sorted, r))
  {
    if sorted != [] && |sorted[0]| >= |r| {
      var tail := sorted[1..];
      InsertBySizeSplits(tail, r);
      assert sorted == [sorted[0]] + tail;
      SplitCons(sorted[0], tail, r, InsertBySize(tail, r), InsertIndex(tail, r));
    } else {
      assert sorted[..0] == [] && sorted[0..] == sorted;
    }
  }

  lemma SplitCons(h: Region, tail: seq<Region>, r: Region, rest: seq<Region>, k: nat)
    requires SplitAt(tail, r, rest, k) && |h| >= |r|
    ensures SplitAt([h] + tail, r, [h] + rest, k + 1)
  {
    var sorted := [h] + tail;
    assert [h] + tail[..k] == sorted[..k + 1];
    assert tail[k..] == sorted[k + 1..];
    forall i | 0 < i < k + 1
      ensures |sorted[i]| >= |r|
    {
      assert sorted[i] == tail[i - 1];
    }
    assert k + 1 < |sorted| ==> sorted[k + 1] == tail[k];
  }

  /** A region no smaller than any of a sorted list may go in front of it. */
  lemma ConsSorted(h: Region, rest: seq<Region>)
    requires SortedBySize(rest)
    requires forall k :: 0 <= k < |rest| ==> |rest[k]| <= |h|
    ensures SortedBySize([h] + rest)
  {
    var res := [h] + rest;
    forall i, j | 0 <= i < j < |res|
      ensures |res[i]| >= |res[j]|
    {
      assert res[j] == rest[j - 1];
      if i > 0 {
        assert res[i] == rest[i - 1];
      }
    }
  }

  lemma {:induction false} InsertKeepsSorted(sorted: seq<Region>, r: Region)
    requires SortedBySize(sorted)
    ensures SortedBySize(InsertBySize(sorted, r))
  {
    if sorted == [] {
    } else if |sorted[0]| >= |r| {
      var tail := sorted[1..];
      InsertKeepsSorted(tail, r);
      var rest := InsertBySize(tail, r);
      forall k | 0 <= k < |rest|
        ensures |rest[k]| <= |sorted[0]|
      {
        if rest[k] != r {
          var i :| 0 <= i < |tail| && tail[i] == rest[k];
          assert sorted[i + 1] == rest[k];
        }
      }
      ConsSorted(sorted[0], rest);
    } else {
      forall k | 0 <= k < |sorted|
        ensures |sorted[k]| <= |r|
      {
        assert |sorted[0]| >= |sorted[k]|;
      }
      ConsSorted(r, sorted);
    }
  }

  /** The regions of size `n`, in list order. */
  function OfSize(rs: seq<Region>, n: nat): seq<Region>
  {
    if rs == [] then [] else (if |rs[0]| == n then [rs[0]] else []) + OfSize(rs[1..], n)
  }

  lemma {:induction false} OfSizeAppend(a: seq<Region>, b: seq<Region>, n: nat)
    ensures OfSize(a + b, n) == OfSize(a, n) + OfSize(b, n)
  {
    if a == [] {
      assert a + b == b;
    } else {
      var head := if |a[0]| == n then [a[0]] else [];
      assert (a + b)[0] == a[0] && (a + b)[1..] == a[1..] + b;
      assert OfSize(a + b, n) == head + OfSize(a[1..] + b, n);
      OfSizeAppend(a[1..], b, n);
      assert head + (OfSize(a[1..], n) + OfSize(b, n)) == (head + OfSize(a[1..], n)) + OfSize(b, n);
    }
  }

  /** Inserting `r` into a sorted list appends it to the regions of its size
      and leaves the other sizes alone. */
  lemma InsertStable(sorted: seq<Region>, r: Region, n: nat)
    requires SortedBySize(sorted)
    ensures OfSize(InsertBySize(sorted, r), n) == OfSize(sorted, n) + (if |r| == n then [r] else [])
  {
    var k := InsertIndex(sorted, r);
    InsertBySizeSplits(sorted, r);
    SmallerBehind(sorted, r, k);
    SpliceOfSize(sorted[..k], sorted[k..], r, n);
    assert sorted == sorted[..k] + sorted[k..];
  }

  lemma SmallerBehind(sorted: seq<Region>, r: Region, k: nat)
    requires SortedBySize(sorted) && k <= |sorted| && (k < |sorted| ==> |sorted[k]| < |r|)
    ensures forall i :: 0 <= i < |sorted[k..]| ==> |sorted[k..][i]| < |r|
  {
    forall i | 0 <= i < |sorted[k..]|
      ensures |sorted[k..][i]| < |r|
    {
      assert sorted[k..][i] == sorted[k + i];
    }
  }

  lemma SpliceOfSize(front: seq<Region>, back: seq<Region>, r: Region, n: nat)
    requires forall k :: 0 <= k < |back| ==> |back[k]| < |r|
    ensures OfSize(front + [r] + back, n) == OfSize(front + back, n) + (if |r| == n then [r] else [])
  {
    OfSizeAppend(front + [r], back, n);
    OfSizeAppend(front, [r], n);
    OfSizeAppend(front, back, n);
    OfSizeSingle(r, n);
    if |r| == n {
      NoneOfSize(back, n);
    }
  }

  lemma OfSizeSingle(r: Region, n: nat)
    ensures OfSize([r], n) == if |r| == n then [r] else []
  {
    assert [r][1..] == [];
  }

  lemma {:induction false} NoneOfSize(rs: seq<Region>, n: nat)
    requires forall k :: 0 <= k < |rs| ==> |rs[k]| < n
    ensures OfSize(rs, n) == []
  {
    if rs != [] {
      NoneOfSize(rs[1..], n);
    }
  }

  /** The list sort: insertion of each region, in list order, into the sorted prefix. */
  function SortBySize(rs: seq<Region>): (res: seq<Region>)
    ensures multiset(res) == multiset(rs) && |res| == |rs|
    ensures SortedBySize(res)
  {
    if rs == [] then []
    else
      var s := SortBySize(rs[..|rs| - 1]);
      InsertKeepsSorted(s, rs[|rs| - 1]);
      assert rs == rs[..|rs| - 1] + [rs[|rs| - 1]];
      InsertBySize(s, rs[|rs| - 1])
  }

  /** Like Python's `sort(key=len, reverse=True)` the sort is stable: the
      regions of any one size come out in the order they went in. */
  lemma {:induction false} SortBySizeStable(rs: seq<Region>, n: nat)
    ensures OfSize(SortBySize(rs), n) == OfSize(rs, n)
  {
    if rs != [] {
      SortBySizeStable(rs[..|rs| - 1], n);
      StableStep(rs, SortBySize(rs[..|rs| - 1]), n);
    }
  }

  lemma StableStep(rs: seq<Region>, s: seq<Region>, n: nat)
    requires rs != [] && SortedBySize(s) && OfSize(s, n) == OfSize(rs[..|rs| - 1], n)
    ensures OfSize(InsertBySize(s, rs[|rs| - 1]), n) == OfSize(rs, n)
  {
    var pre, last := rs[..|rs| - 1], rs[|rs| - 1];
    InsertStable(s, last, n);
    OfSizeAppend(pre, [last], n);
    OfSizeSingle(last, n);
    assert rs == pre + [last];
  }

  /** The main region the connector keeps is the first region of greatest size. */
  lemma {:induction false} SortPutsFirstLargestFirst(rs: seq<Region>)
    requires |rs| > 0
    ensures SortBySize(rs)[0] == rs[FirstLargest(rs)]
  {
    if |rs| > 1 {
      var pre := rs[..|rs| - 1];
      SortPutsFirstLargestFirst(pre);
      var k := FirstLargest(pre);
      assert pre[k] == rs[k];
      var s := SortBySize(pre);
      assert s[0] in multiset(pre);
      assert |s[0]| == |pre[k]| by {
        var i :| 0 <= i < |pre| && pre[i] == s[0];
        assert |pre[i]| <= |pre[k]|;
      }
    }
  }

  // ---------------------------------------------------------------------
  // Rooms: `if len(room) > 20: rooms.append(room)`

  function BigOnly(rs: seq<Region>): (res: seq<Region>)
    ensures forall r :: r in res <==> r in rs && |r| > MIN_ROOM_SIZE
    ensures |res| <= |rs|
  {
    if rs == [] then []
    else
      var last := rs[|rs| - 1];
      assert rs == rs[..|rs| - 1] + [last];
      BigOnly(rs[..|rs| - 1]) + (if |last| > MIN_ROOM_SIZE then [last] else [])
  }

  /** Keeping only the rooms keeps the regions' order and disjointness. */
  lemma {:induction false} BigOnlyInOrder(g: Grid, rs: seq<Region>)
    requires RegionsInOrder(g, rs)
    ensures RegionsInOrder(g, BigOnly(rs))
  {
    if rs != [] {
      var pre, last := rs[..|rs| - 1], rs[|rs| - 1];
      assert forall i :: 0 <= i < |pre| ==> pre[i] == rs[i];
      BigOnlyInOrder(g, pre);
      var b := BigOnly(pre);
      if |last| > MIN_ROOM_SIZE {
        forall i | 0 <= i < |b|
          ensures (forall c :: c in b[i] ==> c !in last) && Before(b[i][0], last[0])
        {
          assert b[i] in b;
          var k :| 0 <= k < |pre| && pre[k] == b[i];
        }
        AppendInOrder(g, b, last);
        assert BigOnly(rs) == b + [last];
      } else {
        assert BigOnly(rs) == b;
      }
    }
  }

  lemma BigOnlyAppend(rs: seq<Region>, r: Region)
    ensures BigOnly(rs + [r]) == BigOnly(rs) + (if |r| > MIN_ROOM_SIZE then [r] else [])
  {
    assert (rs + [r])[..|rs|] == rs;
  }

  /** A region has as many cells as the component of any of its cells. */
  lemma RegionSize(g: Grid, r: Region, c: Pos)
    requires IsRegion(g, r) && c in r
    ensures |r| == |Component(g, c)|
  {
    var cells := set x | x in r;
    assert Reachable(g, r[0], c);
    forall x
      ensures x in cells <==> x in Component(g, c)
    {
      if x in r {
        ReachableSym(g, r[0], c);
        ReachableTrans(g, c, r[0], x);
      }
      if Reachable(g, c, x) {
        ReachableTrans(g, r[0], c, x);
      }
    }
    assert cells == Component(g, c);
    NoDupCard(r);
  }

  /** Disjoint regions: a cell lies in one region of the list at most. */
  lemma OneRegionPerCell(g: Grid, rs: seq<Region>, i: int, j: int, c: Pos)
    requires RegionsInOrder(g, rs) && 0 <= i < |rs| && 0 <= j < |rs| && c in rs[i] && c in rs[j]
    ensures i == j
  {
  }

  /** A cell of region `i` is in a room exactly when region `i` is large enough. */
  lemma BigOnlyCell(g: Grid, rs: seq<Region>, i: int, c: Pos)
    requires RegionsInOrder(g, rs) && 0 <= i < |rs| && c in rs[i]
    ensures InSome(BigOnly(rs), c) <==> |rs[i]| > MIN_ROOM_SIZE
  {
    var b := BigOnly(rs);
    forall k | 0 <= k < |b| && c in b[k]
      ensures |rs[i]| > MIN_ROOM_SIZE
    {
      assert b[k] in b;
      var i' :| 0 <= i' < |rs| && rs[i'] == b[k];
      OneRegionPerCell(g, rs, i, i', c);
    }
    if |rs[i]| > MIN_ROOM_SIZE {
      assert rs[i] in b;
      var k :| 0 <= k < |b| && b[k] == rs[i];
    }
  }

  /** Of a complete scan, the rooms hold exactly the floor cells whose
      component has more than MIN_ROOM_SIZE cells. */
  lemma BigOnlyComponents(g: Grid, rs: seq<Region>)
    requires RegionsOf(g, rs)
    ensures forall c :: Floor(g, c) ==> (InSome(BigOnly(rs), c) <==> |Component(g, c)| > MIN_ROOM_SIZE)
  {
    forall c | Floor(g, c)
      ensures InSome(BigOnly(rs), c) <==> |Component(g, c)| > MIN_ROOM_SIZE
    {
      assert InSome(rs, c);
      var i :| 0 <= i < |rs| && c in rs[i];
      RegionSize(g, rs[i], c);
      BigOnlyCell(g, rs, i, c);
    }
  }
}
