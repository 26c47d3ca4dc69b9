/** The tile grid every stage of the dungeon generator works on, and the
    vocabulary the other modules state their contracts in: floor cells,
    4-adjacency, paths through floor, reachability, visited matrices. */
module Tiles {

  /** A grid cell, written (x, y) with the column first, as the generator writes it. */
  type Pos = (int, int)

  /** The dungeon map, indexed `g[y][x]`; 1 is a wall and 0 is floor. */
  type Grid = seq<seq<int>>

  const WALL := 1
  const FLOOR := 0

  /** `g` has `h` rows of `w` cells each. */
  predicate IsGrid(g: Grid, w: nat, h: nat) {
    |g| == h && forall y :: 0 <= y < h ==> |g[y]| == w
  }

  /** Every cell is a wall or floor. */
  predicate IsBinary(g: Grid) {
    forall y, x :: 0 <= y < |g| && 0 <= x < |g[y]| ==> g[y][x] == WALL || g[y][x] == FLOOR
  }

  predicate InBounds(g: Grid, p: Pos) {
    0 <= p.1 < |g| && 0 <= p.0 < |g[p.1]|
  }

  predicate Floor(g: Grid, p: Pos) {
    InBounds(g, p) && g[p.1][p.0] == FLOOR
  }

  function Max(a: int, b: int): int { if a < b then b else a }
  function Min(a: int, b: int): int { if a < b then a else b }

  function Abs(n: int): nat {
    if n < 0 then -n else n
  }

  function Manhattan(a: Pos, b: Pos): nat {
    Abs(b.0 - a.0) + Abs(b.1 - a.1)
  }

  /** The 4-neighbourhood: a step of one cell left, right, up or down. */
  predicate Adjacent(a: Pos, b: Pos) {
    Manhattan(a, b) == 1
  }

  lemma AdjacentCases(a: Pos, b: Pos)
    ensures Adjacent(a, b) <==>
      b == (a.0, a.1 + 1) || b == (a.0 + 1, a.1) || b == (a.0, a.1 - 1) || b == (a.0 - 1, a.1)
  {
  }

  /** A non-empty walk through floor cells, each step to a 4-neighbour. */
  ghost predicate IsPath(g: Grid, p: seq<Pos>) {
    && |p| > 0
    && (forall i :: 0 <= i < |p| ==> Floor(g, p[i]))
    && (forall i :: 0 <= i < |p| - 1 ==> Adjacent(p[i], p[i + 1]))
  }

  /** `b` can be reached from `a` by walking over floor, which makes both floor. */
  ghost predicate Reachable(g: Grid, a: Pos, b: Pos) {
    exists p :: IsPath(g, p) && p[0] == a && p[|p| - 1] == b
  }

  /** All floor cells form a single 4-connected component. */
  ghost predicate FloorConnected(g: Grid) {
    forall a, b :: Floor(g, a) && Floor(g, b) ==> Reachable(g, a, b)
  }

  /** Every floor cell of `g` is still floor in `g'`. */
  ghost predicate FloorsKept(g: Grid, g': Grid) {
    forall p :: Floor(g, p) ==> Floor(g', p)
  }

  lemma ReachableEnds(g: Grid, a: Pos, b: Pos)
    requires Reachable(g, a, b)
    ensures Floor(g, a) && Floor(g, b)
  {
    var p :| IsPath(g, p) && p[0] == a && p[|p| - 1] == b;
    assert Floor(g, p[0]) && Floor(g, p[|p| - 1]);
  }

  lemma ReachableRefl(g: Grid, a: Pos)
    requires Floor(g, a)
    ensures Reachable(g, a, a)
  {
    assert IsPath(g, [a]);
  }

  /** One more step to a floor neighbour. */
  lemma ReachableStep(g: Grid, a: Pos, b: Pos, c: Pos)
    requires Reachable(g, a, b) && Adjacent(b, c) && Floor(g, c)
    ensures Reachable(g, a, c)
  {
    var p :| IsPath(g, p) && p[0] == a && p[|p| - 1] == b;
    var q := p + [c];
    assert forall i :: 0 <= i < |p| ==> q[i] == p[i];
    assert IsPath(g, q) && q[0] == a && q[|q| - 1] == c;
  }

  lemma ReachableSym(g: Grid, a: Pos, b: Pos)
    requires Reachable(g, a, b)
    ensures Reachable(g, b, a)
  {
    var p :| IsPath(g, p) && p[0] == a && p[|p| - 1] == b;
    var n := |p|;
    var q := seq(n, i requires 0 <= i < n => p[n - 1 - i]);
    forall i | 0 <= i < n - 1
      ensures Adjacent(q[i], q[i + 1])
    {
      assert Adjacent(p[n - 2 - i], p[n - 1 - i]);
    }
    assert IsPath(g, q) && q[0] == b && q[n - 1] == a;
  }

  lemma ReachableTrans(g: Grid, a: Pos, b: Pos, c: Pos)
    requires Reachable(g, a, b) && Reachable(g, b, c)
    ensures Reachable(g, a, c)
  {
    var p :| IsPath(g, p) && p[0] == a && p[|p| - 1] == b;
    var q :| IsPath(g, q) && q[0] == b && q[|q| - 1] == c;
    var r := p + q[1..];
    assert forall i :: 0 <= i < |p| ==> r[i] == p[i];
    assert forall i :: |p| <= i < |r| ==> r[i] == q[i - |p| + 1];
    forall i | 0 <= i < |r| - 1
      ensures Adjacent(r[i], r[i + 1])
    {
      if i < |p| - 1 {
        assert Adjacent(p[i], p[i + 1]);
      } else {
        assert Adjacent(q[i - |p| + 1], q[i - |p| + 2]);
      }
    }
    assert IsPath(g, r) && r[0] == a && r[|r| - 1] == c;
  }

  /** Reachability survives any change that keeps every floor cell floor. */
  lemma ReachableKept(g: Grid, g': Grid, a: Pos, b: Pos)
    requires FloorsKept(g, g') && Reachable(g, a, b)
    ensures Reachable(g', a, b)
  {
    var p :| IsPath(g, p) && p[0] == a && p[|p| - 1] == b;
    assert IsPath(g', p);
  }

  /** Every floor cell reachable from a common hub makes the floor one component. */
  lemma HubConnects(g: Grid, hub: Pos)
    requires forall c :: Floor(g, c) ==> Reachable(g, hub, c)
    ensures FloorConnected(g)
  {
    forall a, b | Floor(g, a) && Floor(g, b)
      ensures Reachable(g, a, b)
    {
      ReachableSym(g, hub, a);
      ReachableTrans(g, a, hub, b);
    }
  }

  /** The cells reachable from `s`: its 4-connected floor component. */
  ghost function Component(g: Grid, s: Pos): (r: set<Pos>)
    ensures forall p :: p in r <==> Reachable(g, s, p)
  {
    var r := set y, x | 0 <= y < |g| && 0 <= x < |g[y]| && Reachable(g, s, (x, y)) :: (x, y);
    assert forall p :: Reachable(g, s, p) ==> p in r by {
      forall p | Reachable(g, s, p)
        ensures p in r
      {
        ReachableEnds(g, s, p);
      }
    }
    r
  }

  // ---------------------------------------------------------------------
  // Row-major scan order and visited matrices

  /** `a` comes before `b` in the scan `for y: for x:`. */
  predicate Before(a: Pos, b: Pos) {
    a.1 < b.1 || (a.1 == b.1 && a.0 < b.0)
  }

  /** A visited matrix of `h` rows of `w` flags. */
  predicate IsMatrix(v: seq<seq<bool>>, w: nat, h: nat) {
    |v| == h && forall y :: 0 <= y < h ==> |v[y]| == w
  }

  predicate Marked(v: seq<seq<bool>>, p: Pos) {
    0 <= p.1 < |v| && 0 <= p.0 < |v[p.1]| && v[p.1][p.0]
  }

  /** A visited matrix holds whole floor components: only floor is marked,
      and a marked cell's floor neighbours are marked too. */
  ghost predicate VisitedClosed(g: Grid, v: seq<seq<bool>>) {
    && (forall p :: Marked(v, p) ==> Floor(g, p))
    && (forall p, q {:trigger Adjacent(p, q), Marked(v, p)} :: Marked(v, p) && Adjacent(p, q) && Floor(g, q) ==> Marked(v, q))
  }

  ghost function Unmarked(v: seq<seq<bool>>): set<Pos> {
    set y, x | 0 <= y < |v| && 0 <= x < |v[y]| && !v[y][x] :: (x, y)
  }

  /** `visited[y][x] = True`. */
  function Mark(v: seq<seq<bool>>, p: Pos): (r: seq<seq<bool>>)
    requires 0 <= p.1 < |v| && 0 <= p.0 < |v[p.1]|
    ensures |r| == |v| && forall y :: 0 <= y < |v| ==> |r[y]| == |v[y]|
    ensures forall q :: Marked(r, q) <==> Marked(v, q) || q == p
  {
    v[p.1 := v[p.1][p.0 := true]]
  }

  lemma MarkShrinks(v: seq<seq<bool>>, p: Pos)
    requires 0 <= p.1 < |v| && 0 <= p.0 < |v[p.1]| && !Marked(v, p)
    ensures |Unmarked(Mark(v, p))| == |Unmarked(v)| - 1
  {
    var r := Mark(v, p);
    assert p in Unmarked(v);
    assert Unmarked(r) == Unmarked(v) - {p} by {
      forall q | q in Unmarked(r)
        ensures q in Unmarked(v) - {p}
      {
        assert !Marked(r, q);
      }
      forall q | q in Unmarked(v) - {p}
        ensures q in Unmarked(r)
      {
        assert !Marked(v, q);
      }
    }
  }

  // ---------------------------------------------------------------------
  // Sequences of cells

  ghost predicate NoDup<T>(s: seq<T>) {
    forall i, j :: 0 <= i < j < |s| ==> s[i] != s[j]
  }

  lemma NoDupAppend<T>(s: seq<T>, x: T)
    requires NoDup(s) && x !in s
    ensures NoDup(s + [x])
  {
    var t := s + [x];
    forall i, j | 0 <= i < j < |t|
      ensures t[i] != t[j]
    {
      if j == |s| {
        assert t[i] == s[i];
      } else {
        assert t[i] == s[i] && t[j] == s[j];
      }
    }
  }

  lemma {:induction false} NoDupCard<T>(s: seq<T>)
    requires NoDup(s)
    ensures |(set x | x in s)| == |s|
  {
    if s != [] {
      var t := s[..|s| - 1];
      assert NoDup(t);
      NoDupCard(t);
      assert (set x | x in s) == (set x | x in t) + {s[|s| - 1]} by {
        assert forall x :: x in s <==> x in t || x == s[|s| - 1] by {
          assert s == t + [s[|s| - 1]];
        }
      }
      assert s[|s| - 1] !in t;
    }
  }

  // ---------------------------------------------------------------------
  // Border

  /** Row 0, the last row, column 0 and the last column. */
  predicate OnBorder(g: Grid, p: Pos)
    requires InBounds(g, p)
  {
    p.1 == 0 || p.1 == |g| - 1 || p.0 == 0 || p.0 == |g[p.1]| - 1
  }

  predicate BorderWalled(g: Grid) {
    forall y, x :: 0 <= y < |g| && 0 <= x < |g[y]| && OnBorder(g, (x, y)) ==> g[y][x] == WALL
  }

  predicate Interior(g: Grid, p: Pos) {
    1 <= p.1 < |g| - 1 && 1 <= p.0 < |g[p.1]| - 1
  }

  lemma FloorIsInterior(g: Grid, p: Pos)
    requires BorderWalled(g) && Floor(g, p)
    ensures Interior(g, p)
  {
    assert !OnBorder(g, p);
  }
}
