/** Why `_connect_regions` leaves one floor component: each tunnel joins the
    next region of the size order to the main region, and a tunnel only ever
    adds floor. */
module Joining {
  import opened Tiles
  import opened Tunnels
  import opened Regions

  /** Every floor cell is reachable from `hub`, or lies in a region still to be joined. */
  ghost predicate Joined(g: Grid, hub: Pos, rest: seq<Region>) {
    forall c :: Floor(g, c) ==> Reachable(g, hub, c) || InSome(rest, c)
  }

  /** Every cell of a region is a floor cell, so it is in bounds of any grid of the same shape. */
  lemma RegionInBounds(g0: Grid, g: Grid, w: nat, r: Region)
    requires IsGrid(g0, w, |g0|) && IsGrid(g, w, |g0|) && IsRegion(g0, r)
    ensures forall c :: c in r ==> Floor(g0, c) && InBounds(g, c)
  {
    forall c | c in r
      ensures Floor(g0, c) && InBounds(g, c)
    {
      ReachableEnds(g0, r[0], c);
    }
  }

  /** The sorted list holds the same regions, so each is a region of the grid. */
  lemma SortedAreRegions(g: Grid, regions: seq<Region>, sorted: seq<Region>)
    requires RegionsInOrder(g, regions) && multiset(sorted) == multiset(regions)
    ensures forall k :: 0 <= k < |sorted| ==> IsRegion(g, sorted[k])
  {
    forall k | 0 <= k < |sorted|
      ensures IsRegion(g, sorted[k])
    {
      assert sorted[k] in multiset(regions);
      var i :| 0 <= i < |regions| && regions[i] == sorted[k];
    }
  }

  /** Before any tunnel: the main region's cells are reachable from its first
      cell, and every other floor cell lies in one of the other regions. */
  lemma JoinStart(g: Grid, regions: seq<Region>, sorted: seq<Region>)
    requires RegionsOf(g, regions) && multiset(sorted) == multiset(regions) && |sorted| > 0 && |sorted[0]| > 0
    ensures Joined(g, sorted[0][0], sorted[1..])
  {
    SortedAreRegions(g, regions, sorted);
    forall c | Floor(g, c)
      ensures Reachable(g, sorted[0][0], c) || InSome(sorted[1..], c)
    {
      var i :| 0 <= i < |regions| && c in regions[i];
      assert regions[i] in multiset(sorted);
      var m :| 0 <= m < |sorted| && sorted[m] == regions[i];
      if m > 0 {
        assert sorted[1..][m - 1] == sorted[m];
      }
    }
  }

  /** The tunnel from `p1`, a cell of the main region, to `p2`, a cell of the
      next region, makes that whole region reachable from the hub, and keeps
      every floor cell, the border and the two-valued cells. */
  lemma JoinStep(g0: Grid, g: Grid, w: nat, main: Region, rest: seq<Region>, p1: Pos, p2: Pos, horizontalFirst: bool)
    requires IsGrid(g0, w, |g0|) && IsGrid(g, w, |g0|) && FloorsKept(g0, g)
    requires IsRegion(g0, main) && p1 in main
    requires rest != [] && IsRegion(g0, rest[0]) && p2 in rest[0]
    requires Joined(g, main[0], rest)
    ensures InBounds(g, p1) && InBounds(g, p2)
    ensures FloorsKept(g0, LTunnel(g, w, p1, p2, horizontalFirst))
    ensures Joined(LTunnel(g, w, p1, p2, horizontalFirst), main[0], rest[1..])
    ensures IsBinary(g) ==> IsBinary(LTunnel(g, w, p1, p2, horizontalFirst))
    ensures BorderWalled(g0) && BorderWalled(g) ==> BorderWalled(LTunnel(g, w, p1, p2, horizontalFirst))
  {
    RegionInBounds(g0, g, w, main);
    RegionInBounds(g0, g, w, rest[0]);
    var g' := LTunnel(g, w, p1, p2, horizontalFirst);
    var hub, head := main[0], rest[0][0];
    TunnelKeepsFloor(g, w, p1, p2, horizontalFirst);
    assert FloorsKept(g0, g') by {
      forall c | Floor(g0, c)
        ensures Floor(g', c)
      {
        assert Floor(g, c);
      }
    }
    // hub -> p1 in the main region, p1 -> p2 along the tunnel.
    ReachableKept(g0, g', hub, p1);
    TunnelConnects(g, w, p1, p2, horizontalFirst);
    ReachableTrans(g', hub, p1, p2);
    // p2 -> head inside the joined region.
    ReachableKept(g0, g', head, p2);
    ReachableSym(g', head, p2);
    ReachableTrans(g', hub, p2, head);
    JoinedThroughTunnel(g0, g, w, hub, rest, p1, p2, horizontalFirst);
    if BorderWalled(g0) && BorderWalled(g) {
      FloorIsInterior(g0, p1);
      FloorIsInterior(g0, p2);
      TunnelKeepsBorder(g, w, p1, p2, horizontalFirst);
    }
  }

  /** The floor-cell case split of JoinStep: an old floor cell was reachable
      from the hub or lies in one of the regions still to be joined, and a new
      one lies on the tunnel. */
  lemma JoinedThroughTunnel(g0: Grid, g: Grid, w: nat, hub: Pos, rest: seq<Region>, p1: Pos, p2: Pos, horizontalFirst: bool)
    requires IsGrid(g, w, |g|) && InBounds(g, p1) && InBounds(g, p2)
    requires rest != [] && IsRegion(g0, rest[0]) && Joined(g, hub, rest)
    requires FloorsKept(g, LTunnel(g, w, p1, p2, horizontalFirst)) && FloorsKept(g0, LTunnel(g, w, p1, p2, horizontalFirst))
    requires Reachable(LTunnel(g, w, p1, p2, horizontalFirst), hub, p1)
    requires Reachable(LTunnel(g, w, p1, p2, horizontalFirst), hub, rest[0][0])
    ensures Joined(LTunnel(g, w, p1, p2, horizontalFirst), hub, rest[1..])
  {
    var g' := LTunnel(g, w, p1, p2, horizontalFirst);
    var head := rest[0][0];
    forall c | Floor(g', c)
      ensures Reachable(g', hub, c) || InSome(rest[1..], c)
    {
      if Floor(g, c) {
        if Reachable(g, hub, c) {
          ReachableKept(g, g', hub, c);
        } else {
          var i :| 0 <= i < |rest| && c in rest[i];
          if i == 0 {
            ReachableKept(g0, g', head, c);
            ReachableTrans(g', hub, head, c);
          } else {
            assert rest[1..][i - 1] == rest[i];
          }
        }
      } else {
        assert OnTunnel(c, p1, p2, horizontalFirst);
        TunnelReach(g, w, p1, p2, horizontalFirst, c);
        ReachableTrans(g', hub, p1, c);
      }
    }
  }

  /** With at most one region the floor is already a single component. */
  lemma OneRegionConnected(g: Grid, regions: seq<Region>)
    requires RegionsOf(g, regions) && |regions| <= 1
    ensures FloorConnected(g)
  {
    if |regions| == 1 {
      forall c | Floor(g, c)
        ensures Reachable(g, regions[0][0], c)
      {
        assert c in regions[0];
      }
      HubConnects(g, regions[0][0]);
    }
  }
}
