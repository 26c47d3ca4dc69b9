/** Tunnel carving: straight runs of floor along a row or a column, and the
    L-shaped tunnel made of one of each. */
module Tunnels {
  import opened Tiles

  /** `v` lies between `a` and `b`, both included, whichever is smaller. */
  predicate Between(v: int, a: int, b: int) {
    Min(a, b) <= v <= Max(a, b)
  }

  /** Row `y`, columns from min(x1, x2) to max(x1, x2): the cells a horizontal tunnel sets. */
  predicate OnRowRun(c: Pos, x1: int, x2: int, y: int) {
    c.1 == y && Between(c.0, x1, x2)
  }

  /** Column `x`, rows from min(y1, y2) to max(y1, y2): the cells a vertical tunnel sets. */
  predicate OnColumnRun(c: Pos, y1: int, y2: int, x: int) {
    c.0 == x && Between(c.1, y1, y2)
  }

  /** The grid after a horizontal tunnel: exactly the run becomes floor. */
  function HCarve(g: Grid, w: nat, x1: int, x2: int, y: int): (r: Grid)
    requires IsGrid(g, w, |g|) && 0 <= y < |g| && 0 <= Min(x1, x2) && Max(x1, x2) < w
    ensures IsGrid(r, w, |g|)
    ensures forall c :: InBounds(g, c) ==>
      r[c.1][c.0] == if OnRowRun(c, x1, x2, y) then FLOOR else g[c.1][c.0]
  {
    g[y := seq(w, x requires 0 <= x < w => if Between(x, x1, x2) then FLOOR else g[y][x])]
  }

  /** The grid after a vertical tunnel: exactly the run becomes floor. */
  function VCarve(g: Grid, w: nat, y1: int, y2: int, x: int): (r: Grid)
    requires IsGrid(g, w, |g|) && 0 <= x < w && 0 <= Min(y1, y2) && Max(y1, y2) < |g|
    ensures IsGrid(r, w, |g|)
    ensures forall c :: InBounds(g, c) ==>
      r[c.1][c.0] == if OnColumnRun(c, y1, y2, x) then FLOOR else g[c.1][c.0]
  {
    seq(|g|, y requires 0 <= y < |g| => if Between(y, y1, y2) then g[y][x := FLOOR] else g[y])
  }

  /** The cells of the L-shaped tunnel from `p1` to `p2`: along row y1 and then
      column x2, or along column x1 and then row y2. */
  predicate OnTunnel(c: Pos, p1: Pos, p2: Pos, horizontalFirst: bool) {
    if horizontalFirst then OnRowRun(c, p1.0, p2.0, p1.1) || OnColumnRun(c, p1.1, p2.1, p2.0)
    else OnColumnRun(c, p1.1, p2.1, p1.0) || OnRowRun(c, p1.0, p2.0, p2.1)
  }

  /** `_create_tunnel(pos1, pos2)` with its coin given as `horizontalFirst`. */
  function LTunnel(g: Grid, w: nat, p1: Pos, p2: Pos, horizontalFirst: bool): (r: Grid)
    requires IsGrid(g, w, |g|) && InBounds(g, p1) && InBounds(g, p2)
    ensures IsGrid(r, w, |g|)
    ensures forall c :: InBounds(g, c) ==>
      r[c.1][c.0] == if OnTunnel(c, p1, p2, horizontalFirst) then FLOOR else g[c.1][c.0]
  {
    if horizontalFirst then VCarve(HCarve(g, w, p1.0, p2.0, p1.1), w, p1.1, p2.1, p2.0)
    else HCarve(VCarve(g, w, p1.1, p2.1, p1.0), w, p1.0, p2.0, p2.1)
  }

  // ---------------------------------------------------------------------
  // What a tunnel guarantees

  /** A row whose cells between `xa` and `xb` are floor joins its two ends. */
  lemma RowRunReach(g: Grid, y: int, xa: int, xb: int)
    requires forall x :: Between(x, xa, xb) ==> Floor(g, (x, y))
    ensures Reachable(g, (xa, y), (xb, y))
  {
    var n := Abs(xb - xa) + 1;
    var p := seq(n, i requires 0 <= i < n => (if xa <= xb then xa + i else xa - i, y));
    forall i | 0 <= i < n
      ensures Floor(g, p[i])
    {
      assert Between(p[i].0, xa, xb);
    }
    assert forall i :: 0 <= i < n - 1 ==> Adjacent(p[i], p[i + 1]);
    assert IsPath(g, p) && p[0] == (xa, y) && p[n - 1] == (xb, y);
  }

  /** A column whose cells between `ya` and `yb` are floor joins its two ends. */
  lemma ColumnRunReach(g: Grid, x: int, ya: int, yb: int)
    requires forall y :: Between(y, ya, yb) ==> Floor(g, (x, y))
    ensures Reachable(g, (x, ya), (x, yb))
  {
    var n := Abs(yb - ya) + 1;
    var p := seq(n, i requires 0 <= i < n => (x, if ya <= yb then ya + i else ya - i));
    forall i | 0 <= i < n
      ensures Floor(g, p[i])
    {
      assert Between(p[i].1, ya, yb);
    }
    assert forall i :: 0 <= i < n - 1 ==> Adjacent(p[i], p[i + 1]);
    assert IsPath(g, p) && p[0] == (x, ya) && p[n - 1] == (x, yb);
  }

  /** Every cell of the tunnel, `p2` included, is reachable from `p1` after carving. */
  lemma TunnelReach(g: Grid, w: nat, p1: Pos, p2: Pos, horizontalFirst: bool, c: Pos)
    requires IsGrid(g, w, |g|) && InBounds(g, p1) && InBounds(g, p2)
    requires OnTunnel(c, p1, p2, horizontalFirst)
    ensures Reachable(LTunnel(g, w, p1, p2, horizontalFirst), p1, c)
  {
    if horizontalFirst {
      RowFirstReach(g, w, p1, p2, c);
    } else {
      ColumnFirstReach(g, w, p1, p2, c);
    }
  }

  /** TunnelReach for the tunnel along row y1 and then column x2. */
  lemma RowFirstReach(g: Grid, w: nat, p1: Pos, p2: Pos, c: Pos)
    requires IsGrid(g, w, |g|) && InBounds(g, p1) && InBounds(g, p2)
    requires OnTunnel(c, p1, p2, true)
    ensures Reachable(LTunnel(g, w, p1, p2, true), p1, c)
  {
    var r := LTunnel(g, w, p1, p2, true);
    var (x1, y1) := p1;
    var (x2, y2) := p2;
    assert forall x :: Between(x, x1, x2) ==> Floor(r, (x, y1)) by {
      forall x | Between(x, x1, x2) ensures Floor(r, (x, y1)) {
        assert InBounds(g, (x, y1)) && OnTunnel((x, y1), p1, p2, true);
      }
    }
    if OnRowRun(c, x1, x2, y1) {
      RowRunReach(r, y1, x1, c.0);
    } else {
      assert forall y :: Between(y, y1, y2) ==> Floor(r, (x2, y)) by {
        forall y | Between(y, y1, y2) ensures Floor(r, (x2, y)) {
          assert InBounds(g, (x2, y)) && OnTunnel((x2, y), p1, p2, true);
        }
      }
      RowRunReach(r, y1, x1, x2);
      ColumnRunReach(r, x2, y1, c.1);
      ReachableTrans(r, p1, (x2, y1), c);
    }
  }

  /** TunnelReach for the tunnel along column x1 and then row y2. */
  lemma ColumnFirstReach(g: Grid, w: nat, p1: Pos, p2: Pos, c: Pos)
    requires IsGrid(g, w, |g|) && InBounds(g, p1) && InBounds(g, p2)
    requires OnTunnel(c, p1, p2, false)
    ensures Reachable(LTunnel(g, w, p1, p2, false), p1, c)
  {
    var r := LTunnel(g, w, p1, p2, false);
    var (x1, y1) := p1;
    var (x2, y2) := p2;
    assert forall y :: Between(y, y1, y2) ==> Floor(r, (x1, y)) by {
      forall y | Between(y, y1, y2) ensures Floor(r, (x1, y)) {
        assert InBounds(g, (x1, y)) && OnTunnel((x1, y), p1, p2, false);
      }
    }
    if OnColumnRun(c, y1, y2, x1) {
      ColumnRunReach(r, x1, y1, c.1);
    } else {
      assert forall x :: Between(x, x1, x2) ==> Floor(r, (x, y2)) by {
        forall x | Between(x, x1, x2) ensures Floor(r, (x, y2)) {
          assert InBounds(g, (x, y2)) && OnTunnel((x, y2), p1, p2, false);
        }
      }
      ColumnRunReach(r, x1, y1, y2);
      RowRunReach(r, y2, x1, c.0);
      ReachableTrans(r, p1, (x1, y2), c);
    }
  }

  /** Either way round, the tunnel is a floor path from `p1` to `p2`. */
  lemma TunnelConnects(g: Grid, w: nat, p1: Pos, p2: Pos, horizontalFirst: bool)
    requires IsGrid(g, w, |g|) && InBounds(g, p1) && InBounds(g, p2)
    ensures Reachable(LTunnel(g, w, p1, p2, horizontalFirst), p1, p2)
  {
    TunnelReach(g, w, p1, p2, horizontalFirst, p2);
  }

  /** Carving never turns floor into wall, and keeps a 0/1 grid 0/1. */
  lemma TunnelKeepsFloor(g: Grid, w: nat, p1: Pos, p2: Pos, horizontalFirst: bool)
    requires IsGrid(g, w, |g|) && InBounds(g, p1) && InBounds(g, p2)
    ensures FloorsKept(g, LTunnel(g, w, p1, p2, horizontalFirst))
    ensures IsBinary(g) ==> IsBinary(LTunnel(g, w, p1, p2, horizontalFirst))
  {
    var r := LTunnel(g, w, p1, p2, horizontalFirst);
    assert forall c :: Floor(g, c) ==> Floor(r, c) by {
      forall c | Floor(g, c) ensures Floor(r, c) {
        assert r[c.1][c.0] == FLOOR;
      }
    }
    if IsBinary(g) {
      forall y, x | 0 <= y < |r| && 0 <= x < |r[y]|
        ensures r[y][x] == WALL || r[y][x] == FLOOR
      {
        assert InBounds(g, (x, y));
      }
    }
  }

  /** A tunnel between two interior cells runs in the interior, so the border
      is left as it was. */
  lemma TunnelKeepsBorder(g: Grid, w: nat, p1: Pos, p2: Pos, horizontalFirst: bool)
    requires IsGrid(g, w, |g|) && Interior(g, p1) && Interior(g, p2)
    ensures BorderWalled(g) ==> BorderWalled(LTunnel(g, w, p1, p2, horizontalFirst))
  {
    var r := LTunnel(g, w, p1, p2, horizontalFirst);
    if BorderWalled(g) {
      forall y, x | 0 <= y < |r| && 0 <= x < |r[y]| && OnBorder(r, (x, y))
        ensures r[y][x] == WALL
      {
        assert InBounds(g, (x, y)) && OnBorder(g, (x, y));
        assert !OnTunnel((x, y), p1, p2, horizontalFirst);
      }
    }
  }
}
