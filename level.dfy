/** The dungeon generator: a grid `grid[y][x]` of walls (1) and floor (0),
    rewritten in place by the stages of `generate_dungeon`, and the spawn
    queries run on the finished grid. */
module Level {
  import opened Tiles
  import opened CellularAutomaton
  import opened Tunnels
  import opened Regions
  import opened Joining
  import opened Items

  datatype Option<T> = None | Some(value: T)

  /** The three enemy kinds `random.choice` picks from. */
  datatype EnemyKind = Slime | Ghost | Spider

  /** What `Enemy(x, y, size, kind)` is given: its pixel position, size and kind. */
  datatype EnemySpawn = EnemySpawn(x: int, y: int, size: int, kind: EnemyKind)

  /** What `Item(x, y, size, item_type)` is given. */
  datatype ItemSpawn = ItemSpawn(x: int, y: int, size: int, kind: ItemType)

  /** The result of one generation: the render map and the pixel positions of
      the start and the exit. */
  datatype Generation = Generation(levelMap: seq<seq<int>>, start: (int, int), exit: (int, int))

  const ENEMY_KINDS: seq<EnemyKind> := [Slime, Ghost, Spider]
  const ITEM_TYPES: seq<ItemType> := [Health, Speed, Damage]

  /** The four neighbour offsets, in the order the source lists them. */
  const DIRS: seq<Pos> := [(0, 1), (1, 0), (0, -1), (-1, 0)]

  /** Enemies spawn only where the squared grid distance to the player exceeds this. */
  const SAFE_DIST_SQ := 25

  /** Placement tries per enemy before the slot is given up. */
  const MAX_ATTEMPTS := 50

  /** Stages of the automaton in `generate_dungeon`. */
  const SMOOTH_STEPS := 5

  /** The noise level above which the initial cell is a wall. */
  const WALL_CHANCE := 0.45

  function Step(c: Pos, d: Pos): Pos {
    (c.0 + d.0, c.1 + d.1)
  }

  /** Python's `a // b`, which rounds toward minus infinity. */
  function FloorDiv(a: int, b: int): (q: int)
    requires b != 0
    ensures b > 0 ==> q * b <= a < q * b + b
    ensures b < 0 ==> q * b >= a > q * b + b
  {
    if b > 0 then a / b else (-a) / (-b)
  }

  /** A grid cell scaled to pixels. */
  function Scale(c: Pos, tileSize: int): (int, int) {
    (c.0 * tileSize, c.1 * tileSize)
  }

  function DistSq(a: Pos, b: Pos): int {
    (a.0 - b.0) * (a.0 - b.0) + (a.1 - b.1) * (a.1 - b.1)
  }

  // ---------------------------------------------------------------------
  // Border walls

  /** The grid with its first and last rows and columns turned to wall. */
  function Bordered(g: Grid): (r: Grid)
    ensures |r| == |g| && forall y :: 0 <= y < |g| ==> |r[y]| == |g[y]|
    ensures forall y, x :: 0 <= y < |g| && 0 <= x < |g[y]| ==>
      r[y][x] == if OnBorder(g, (x, y)) then WALL else g[y][x]
  {
    seq(|g|, y requires 0 <= y < |g| =>
      seq(|g[y]|, x requires 0 <= x < |g[y]| => if OnBorder(g, (x, y)) then WALL else g[y][x]))
  }

  /** Bordering walls the border and keeps every interior cell. */
  lemma BorderedWalls(g: Grid)
    ensures BorderWalled(Bordered(g))
    ensures forall p :: Interior(g, p) ==> Bordered(g)[p.1][p.0] == g[p.1][p.0]
  {
    var r := Bordered(g);
    forall y, x | 0 <= y < |r| && 0 <= x < |r[y]| && OnBorder(r, (x, y))
      ensures r[y][x] == WALL
    {
      assert OnBorder(g, (x, y));
    }
  }

  /** Applying the border twice is applying it once. */
  lemma BorderedIdempotent(g: Grid)
    ensures Bordered(Bordered(g)) == Bordered(g)
  {
    var r := Bordered(g);
    var rr := Bordered(r);
    forall y | 0 <= y < |g|
      ensures rr[y] == r[y]
    {
      forall x | 0 <= x < |g[y]|
        ensures rr[y][x] == r[y][x]
      {
        assert OnBorder(r, (x, y)) == OnBorder(g, (x, y));
      }
    }
  }

  // ---------------------------------------------------------------------
  // Room cells and open cells

  /** All four neighbours are in bounds and floor. */
  predicate Open(g: Grid, c: Pos) {
    forall d :: 0 <= d < |DIRS| ==> Floor(g, Step(c, DIRS[d]))
  }

  /** The open cells of a room, in room order: `valid_positions`. */
  function OpenCells(g: Grid, room: seq<Pos>): (r: seq<Pos>)
    ensures forall c :: c in r <==> c in room && Open(g, c)
    ensures |r| <= |room|
  {
    if room == [] then []
    else
      var pre := room[..|room| - 1];
      var last := room[|room| - 1];
      assert room == pre + [last];
      OpenCells(g, pre) + (if Open(g, last) then [last] else [])
  }

  /** The cell `_find_valid_position` returns when the value it draws, if it
      draws one, is `rng(k)`: a drawn open cell, or the first cell when the
      room has none. */
  function ValidPosition(g: Grid, room: seq<Pos>, rng: nat -> nat, k: nat): (p: Pos)
    requires room != []
    ensures p in room
    ensures (exists c :: c in room && Open(g, c)) ==> Open(g, p)
  {
    var open := OpenCells(g, room);
    if open == [] then room[0]
    else
      var p := open[rng(k) % |open|];
      assert p in open;
      p
  }

  /** How many values `_find_valid_position` draws: one exactly when the room has an open cell. */
  function PositionDraws(g: Grid, room: seq<Pos>): nat {
    if OpenCells(g, room) == [] then 0 else 1
  }

  /** The draws of the start and the exit. */
  function EndDraws(g: Grid, first: Region, last: Region): nat {
    PositionDraws(g, first) + PositionDraws(g, last)
  }

  /** The cells `_identify_rooms` reports: floor whose component has more than 20 cells. */
  ghost predicate RoomCell(g: Grid, c: Pos) {
    Floor(g, c) && |Component(g, c)| > MIN_ROOM_SIZE
  }

  /** The value the render map holds for a grid value. */
  function LevelCell(v: int): (r: int)
    ensures r == 1 <==> v == WALL
    ensures r == 2 <==> v == FLOOR
    ensures r == 0 <==> v != WALL && v != FLOOR
  {
    if v == WALL then 1 else if v == FLOOR then 2 else 0
  }

  /** The initial cell at (x, y): a wall where the noise exceeds the chance. */
  function NoiseCell(pnoise: (real, real, int) -> real, wallChance: real, x: int, y: int, seed: int): (r: int)
    ensures r == WALL <==> pnoise(x as real / 10.0, y as real / 10.0, seed) > wallChance
    ensures r == FLOOR <==> r != WALL
  {
    if pnoise(x as real / 10.0, y as real / 10.0, seed) > wallChance then WALL else FLOOR
  }

  /** The grid `_initialize_random` fills in for a seed. */
  function NoiseGrid(pnoise: (real, real, int) -> real, wallChance: real, w: nat, h: nat, seed: int): (r: Grid)
    ensures IsGrid(r, w, h) && IsBinary(r)
  {
    seq(h, y => seq(w, x => NoiseCell(pnoise, wallChance, x, y, seed)))
  }

  /** The grid before `_connect_regions`: the noise for `seed`, smoothed
      `SMOOTH_STEPS` times, with its border walled. */
  function CavedGrid(pnoise: (real, real, int) -> real, w: nat, h: nat, seed: int): (r: Grid)
    ensures IsGrid(r, w, h) && IsBinary(r) && BorderWalled(r)
  {
    var smoothed := SmoothN(NoiseGrid(pnoise, WALL_CHANCE, w, h, seed), w, SMOOTH_STEPS);
    BorderedWalls(smoothed);
    Bordered(smoothed)
  }

  class DungeonGenerator {
    const width: nat
    const height: nat
    const tileSize: int
    /** The random stream: the `k`-th call of `random` sees `rng(k)`. */
    const rng: nat -> nat
    /** `self.map`. */
    var grid: Grid
    /** How many random values have been drawn. */
    var draws: nat

    ghost predicate Valid()
      reads this
    {
      IsGrid(grid, width, height)
    }

    /** `random.choice(xs)`: one draw, reduced to an index. */
    method Choose<T>(xs: seq<T>) returns (x: T)
      requires |xs| > 0
      modifies this`draws
      ensures x == xs[rng(old(draws)) % |xs|] && draws == old(draws) + 1
    {
      x := xs[rng(draws) % |xs|];
      draws := draws + 1;
    }

    /** `random.random() < 0.5`. */
    method Coin() returns (heads: bool)
      modifies this`draws
      ensures heads == (rng(old(draws)) % 2 == 0) && draws == old(draws) + 1
    {
      heads := rng(draws) % 2 == 0;
      draws := draws + 1;
    }

    /** A map of the given size, all floor. */
    constructor (width: nat, height: nat, tileSize: int, rng: nat -> nat)
      ensures this.width == width && this.height == height && this.tileSize == tileSize && this.rng == rng
      ensures Valid() && draws == 0
      ensures forall y, x :: 0 <= y < height && 0 <= x < width ==> grid[y][x] == FLOOR
    {
      this.width := width;
      this.height := height;
      this.tileSize := tileSize;
      this.rng := rng;
      grid := seq(height, _ => seq(width, _ => FLOOR));
      draws := 0;
    }

    /** `random.randint(lo, hi)`: one draw, reduced to the closed range. */
    method RandInt(lo: int, hi: int) returns (n: int)
      requires lo <= hi
      modifies this`draws
      ensures n == lo + rng(old(draws)) % (hi - lo + 1) && lo <= n <= hi
      ensures draws == old(draws) + 1
    {
      n := lo + rng(draws) % (hi - lo + 1);
      draws := draws + 1;
    }

    /** `_initialize_random`: a seed is drawn, and a cell is a wall wherever
        the noise at (x / 10, y / 10) for that seed is above `wallChance`. */
    method InitializeRandom(pnoise: (real, real, int) -> real, wallChance: real)
      requires Valid()
      modifies this`grid, this`draws
      ensures Valid() && IsBinary(grid) && draws == old(draws) + 1
      ensures forall y, x :: 0 <= y < height && 0 <= x < width ==>
        grid[y][x] == NoiseCell(pnoise, wallChance, x, y, rng(old(draws)) % 10001)
      ensures grid == NoiseGrid(pnoise, wallChance, width, height, rng(old(draws)) % 10001)
    {
      var seed := RandInt(0, 10000);
      var y := 0;
      while y < height
        invariant 0 <= y <= height && Valid() && draws == old(draws) + 1
        invariant forall yy, x :: 0 <= yy < y && 0 <= x < width ==>
          grid[yy][x] == NoiseCell(pnoise, wallChance, x, yy, seed)
      {
        var x := 0;
        while x < width
          invariant 0 <= x <= width && Valid() && draws == old(draws) + 1
          invariant forall yy, xx :: 0 <= yy < y && 0 <= xx < width ==>
            grid[yy][xx] == NoiseCell(pnoise, wallChance, xx, yy, seed)
          invariant forall xx :: 0 <= xx < x ==>
            grid[y][xx] == NoiseCell(pnoise, wallChance, xx, y, seed)
        {
          var v := if pnoise(x as real / 10.0, y as real / 10.0, seed) > wallChance then WALL else FLOOR;
          grid := grid[y := grid[y][x := v]];
          x := x + 1;
        }
        y := y + 1;
      }
      ghost var noise := NoiseGrid(pnoise, wallChance, width, height, seed);
      forall yy | 0 <= yy < height
        ensures grid[yy] == noise[yy]
      {
      }
    }

    /** The wall count of the clipped 3x3 block around (x, y). */
    method CountWalls(x: nat, y: nat) returns (n: nat)
      requires Valid() && x < width && y < height
      ensures n == WallCount(grid, width, x, y)
    {
      var ylo, yhi := Max(0, y - 1), Min(height, y + 2);
      var xlo, xhi := Max(0, x - 1), Min(width, x + 2);
      n := 0;
      var ny := ylo;
      while ny < yhi
        invariant ylo <= ny <= yhi
        invariant n == BlockWalls(grid, width, ylo, ny, xlo, xhi)
      {
        var nx := xlo;
        var rowCount := 0;
        while nx < xhi
          invariant xlo <= nx <= xhi
          invariant rowCount == RowWalls(grid[ny], xlo, nx)
        {
          if grid[ny][nx] == WALL {
            rowCount := rowCount + 1;
          }
          nx := nx + 1;
        }
        n := n + rowCount;
        ny := ny + 1;
      }
    }

    /** `self.map[y][x] = v`. */
    method SetCell(x: int, y: int, v: int)
      requires Valid() && 0 <= x < width && 0 <= y < height
      modifies this`grid
      ensures Valid()
      ensures forall yy, xx :: 0 <= yy < height && 0 <= xx < width ==>
        grid[yy][xx] == if xx == x && yy == y then v else old(grid)[yy][xx]
    {
      grid := grid[y := grid[y][x := v]];
    }

    /** `_apply_cellular_automata`: one smoothing step into a fresh map. */
    method ApplyCellularAutomata()
      requires Valid()
      modifies this`grid
      ensures Valid() && IsBinary(grid)
      ensures grid == Smooth(old(grid), width)
    {
      var newMap: Grid := seq(height, _ => seq(width, _ => FLOOR));
      var y := 0;
      while y < height
        invariant 0 <= y <= height && IsGrid(newMap, width, height) && grid == old(grid) && Valid()
        invariant forall yy, xx :: 0 <= yy < y && 0 <= xx < width ==>
          newMap[yy][xx] == NextCell(grid[yy][xx], WallCount(grid, width, xx, yy))
      {
        var row := newMap[y];
        var x := 0;
        while x < width
          invariant 0 <= x <= width && |row| == width && grid == old(grid)
          invariant forall xx :: 0 <= xx < x ==> row[xx] == NextCell(grid[y][xx], WallCount(grid, width, xx, y))
        {
          var walls := CountWalls(x, y);
          var v := if grid[y][x] == WALL then (if walls >= 4 then WALL else FLOOR)
                   else (if walls >= 5 then WALL else FLOOR);
          row := row[x := v];
          x := x + 1;
        }
        newMap := newMap[y := row];
        y := y + 1;
      }
      ghost var target := Smooth(grid, width);
      assert forall yy :: 0 <= yy < height ==> newMap[yy] == target[yy];
      grid := newMap;
    }

    /** `_add_border_walls`. The source indexes row 0 and column 0, so rows
        exist exactly when columns do. */
    method AddBorderWalls()
      requires Valid() && (width == 0 <==> height == 0)
      modifies this`grid
      ensures Valid() && grid == Bordered(old(grid))
      ensures BorderWalled(grid)
    {
      ghost var g0 := grid;
      WallTopAndBottom();
      WallSides();
      ghost var target := Bordered(g0);
      forall yy | 0 <= yy < height
        ensures grid[yy] == target[yy]
      {
        forall xx | 0 <= xx < width
          ensures grid[yy][xx] == target[yy][xx]
        {
          assert OnBorder(g0, (xx, yy)) <==> yy == 0 || yy == height - 1 || xx == 0 || xx == width - 1;
        }
      }
      BorderedWalls(g0);
    }

    /** The first loop of `_add_border_walls`: the top and bottom rows become
        walls. It indexes row 0 for every column, so columns need rows. */
    method WallTopAndBottom()
      requires Valid() && (width > 0 ==> height > 0)
      modifies this`grid
      ensures Valid()
      ensures forall yy, xx :: 0 <= yy < height && 0 <= xx < width ==>
        grid[yy][xx] == if yy == 0 || yy == height - 1 then WALL else old(grid)[yy][xx]
    {
      var x := 0;
      while x < width
        invariant 0 <= x <= width && Valid()
        invariant forall yy, xx :: 0 <= yy < height && 0 <= xx < width ==>
          grid[yy][xx] == if (yy == 0 || yy == height - 1) && xx < x then WALL else old(grid)[yy][xx]
      {
        SetCell(x, 0, WALL);
        SetCell(x, height - 1, WALL);
        x := x + 1;
      }
    }

    /** The second loop of `_add_border_walls`: the first and last columns
        become walls. It indexes column 0 of every row, so rows need columns. */
    method WallSides()
      requires Valid() && (height > 0 ==> width > 0)
      modifies this`grid
      ensures Valid()
      ensures forall yy, xx :: 0 <= yy < height && 0 <= xx < width ==>
        grid[yy][xx] == if xx == 0 || xx == width - 1 then WALL else old(grid)[yy][xx]
    {
      var y := 0;
      while y < height
        invariant 0 <= y <= height && Valid()
        invariant forall yy, xx :: 0 <= yy < height && 0 <= xx < width ==>
          grid[yy][xx] == if (xx == 0 || xx == width - 1) && yy < y then WALL else old(grid)[yy][xx]
      {
        SetCell(0, y, WALL);
        SetCell(width - 1, y, WALL);
        y := y + 1;
      }
    }

    /** `_create_horizontal_tunnel(x1, x2, y)`. */
    method CreateHorizontalTunnel(x1: int, x2: int, y: int)
      requires Valid() && 0 <= y < height && 0 <= Min(x1, x2) && Max(x1, x2) < width
      modifies this`grid
      ensures Valid() && grid == HCarve(old(grid), width, x1, x2, y)
    {
      ghost var g0 := grid;
      var x := Min(x1, x2);
      while x < Max(x1, x2) + 1
        invariant Min(x1, x2) <= x <= Max(x1, x2) + 1 && Valid()
        invariant forall yy, xx :: 0 <= yy < height && 0 <= xx < width ==>
          grid[yy][xx] == if yy == y && Min(x1, x2) <= xx < x then FLOOR else g0[yy][xx]
      {
        SetCell(x, y, FLOOR);
        x := x + 1;
      }
      ghost var target := HCarve(g0, width, x1, x2, y);
      forall yy | 0 <= yy < height
        ensures grid[yy] == target[yy]
      {
        assert forall xx :: 0 <= xx < width ==> InBounds(g0, (xx, yy));
      }
    }

    /** `_create_vertical_tunnel(y1, y2, x)`. */
    method CreateVerticalTunnel(y1: int, y2: int, x: int)
      requires Valid() && 0 <= x < width && 0 <= Min(y1, y2) && Max(y1, y2) < height
      modifies this`grid
      ensures Valid() && grid == VCarve(old(grid), width, y1, y2, x)
    {
      ghost var g0 := grid;
      var y := Min(y1, y2);
      while y < Max(y1, y2) + 1
        invariant Min(y1, y2) <= y <= Max(y1, y2) + 1 && Valid()
        invariant forall yy, xx :: 0 <= yy < height && 0 <= xx < width ==>
          grid[yy][xx] == if xx == x && Min(y1, y2) <= yy < y then FLOOR else g0[yy][xx]
      {
        SetCell(x, y, FLOOR);
        y := y + 1;
      }
      ghost var target := VCarve(g0, width, y1, y2, x);
      forall yy | 0 <= yy < height
        ensures grid[yy] == target[yy]
      {
        assert forall xx :: 0 <= xx < width ==> InBounds(g0, (xx, yy));
      }
    }

    /** `_create_tunnel(pos1, pos2)`: one coin picks which leg of the L comes first. */
    method CreateTunnel(p1: Pos, p2: Pos)
      requires Valid() && InBounds(grid, p1) && InBounds(grid, p2)
      modifies this
      ensures Valid() && draws == old(draws) + 1
      ensures grid == LTunnel(old(grid), width, p1, p2, rng(old(draws)) % 2 == 0)
    {
      var (x1, y1) := p1;
      var (x2, y2) := p2;
      var horizontalFirst := Coin();
      if horizontalFirst {
        CreateHorizontalTunnel(x1, x2, y1);
        CreateVerticalTunnel(y1, y2, x2);
      } else {
        CreateVerticalTunnel(y1, y2, x1);
        CreateHorizontalTunnel(x1, x2, y2);
      }
    }

    /** `_flood_fill(x, y, visited, region)` with an empty `region`: the queue
        takes every neighbour, and a cell is checked and visited when it is
        taken off the queue. The new visited matrix and the region are returned. */
    method FloodFill(x: int, y: int, visited: seq<seq<bool>>) returns (seen: seq<seq<bool>>, region: Region)
      requires Valid() && IsMatrix(visited, width, height)
      ensures IsMatrix(seen, width, height)
      ensures forall c :: Marked(seen, c) <==> Marked(visited, c) || c in region
      ensures !Floor(grid, (x, y)) || Marked(visited, (x, y)) ==> region == []
      ensures Floor(grid, (x, y)) && !Marked(visited, (x, y)) ==>
        region != [] && region[0] == (x, y) && NoDup(region) &&
        forall c :: c in region ==> Reachable(grid, (x, y), c)
      ensures VisitedClosed(grid, visited) && Floor(grid, (x, y)) && !Marked(visited, (x, y)) ==>
        IsRegion(grid, region)
    {
      var s := (x, y);
      var queue: seq<Pos> := [s];
      seen, region := visited, [];
      while queue != []
        invariant IsMatrix(seen, width, height)
        invariant FillInv(grid, visited, s, seen, region, queue)
        decreases |Unmarked(seen)|, |queue|
      {
        var c := queue[0];
        var (cx, cy) := c;
        if cx < 0 || cy < 0 || cx >= width || cy >= height || seen[cy][cx] || grid[cy][cx] != FLOOR {
          FillSkip(grid, visited, s, seen, region, queue);
          queue := queue[1..];
          continue;
        }
        FillVisit(grid, visited, s, seen, region, queue);
        MarkShrinks(seen, c);
        seen := Mark(seen, c);
        region := region + [c];
        queue := queue[1..] + Neighbours(c);
      }
      if VisitedClosed(grid, visited) && Floor(grid, s) && !Marked(visited, s) {
        ClosedSetHoldsComponent(grid, visited, region, s);
      }
    }

    /** The breadth-first search inside `_identify_rooms`, started from an
        unvisited floor cell: a cell is visited when it is queued, and
        appended to the room when it is taken off the queue. */
    method ExploreRoom(x: int, y: int, visited: seq<seq<bool>>) returns (seen: seq<seq<bool>>, room: Region)
      requires Valid() && IsMatrix(visited, width, height)
      requires Floor(grid, (x, y)) && !Marked(visited, (x, y))
      ensures IsMatrix(seen, width, height)
      ensures forall c :: Marked(seen, c) <==> Marked(visited, c) || c in room
      ensures room != [] && room[0] == (x, y) && NoDup(room)
      ensures forall c :: c in room ==> Reachable(grid, (x, y), c)
      ensures VisitedClosed(grid, visited) ==> IsRegion(grid, room)
    {
      var s := (x, y);
      ReachableRefl(grid, s);
      MarkShrinks(visited, s);
      seen := Mark(visited, s);
      var queue: seq<Pos> := [s];
      room := [];
      while queue != []
        invariant IsMatrix(seen, width, height)
        invariant RoomCells(grid, visited, s, seen, room, queue)
        invariant RoomClosed(grid, seen, room)
        decreases 2 * |Unmarked(seen)| + |queue|
      {
        var c := queue[0];
        RoomPop(grid, visited, s, seen, room, queue);
        queue := queue[1..];
        room := room + [c];
        seen, queue := QueueNeighbours(visited, s, seen, room, queue);
      }
      assert room + queue == room;
      if VisitedClosed(grid, visited) {
        ClosedSetHoldsComponent(grid, visited, room, s);
      }
    }

    /** The `for dx, dy in ...` loop of `_identify_rooms`: every in-bounds,
        unvisited floor neighbour of the last room cell is visited and queued. */
    method QueueNeighbours(ghost visited: seq<seq<bool>>, ghost s: Pos, seen: seq<seq<bool>>, room: Region, queue: seq<Pos>)
      returns (seen': seq<seq<bool>>, queue': seq<Pos>)
      requires Valid() && IsMatrix(seen, width, height) && room != []
      requires RoomCells(grid, visited, s, seen, room, queue)
      requires RoomClosed(grid, seen, room[..|room| - 1])
      ensures IsMatrix(seen', width, height)
      ensures RoomCells(grid, visited, s, seen', room, queue')
      ensures RoomClosed(grid, seen', room)
      ensures 2 * |Unmarked(seen')| + |queue'| <= 2 * |Unmarked(seen)| + |queue|
    {
      var c := room[|room| - 1];
      seen', queue' := seen, queue;
      for d := 0 to 4
        invariant IsMatrix(seen', width, height)
        invariant RoomCells(grid, visited, s, seen', room, queue')
        invariant RoomClosed(grid, seen', room[..|room| - 1])
        invariant DirsMarked(grid, seen', c, d)
        invariant 2 * |Unmarked(seen')| + |queue'| <= 2 * |Unmarked(seen)| + |queue|
      {
        var n := Step(c, DIRS[d]);
        var (nx, ny) := n;
        if 0 <= nx < width && 0 <= ny < height && !seen'[ny][nx] && grid[ny][nx] == FLOOR {
          RoomPush(grid, visited, s, seen', room, queue', n);
          MarkKeepsRoomClosed(grid, seen', room[..|room| - 1], c, d, n);
          MarkShrinks(seen', n);
          seen' := Mark(seen', n);
          queue' := queue' + [n];
        }
      }
      RoomCloseLast(grid, seen', room);
    }

    /** `_identify_rooms`: a row-major scan that explores every unvisited floor
        cell's component and keeps those with more than 20 cells, in scan order. */
    method IdentifyRooms() returns (rooms: seq<Region>)
      requires Valid()
      ensures RegionsInOrder(grid, rooms)
      ensures forall i :: 0 <= i < |rooms| ==> |rooms[i]| > MIN_ROOM_SIZE
      ensures forall c :: Floor(grid, c) ==> (InSome(rooms, c) <==> |Component(grid, c)| > MIN_ROOM_SIZE)
    {
      var visited := seq(height, _ => seq(width, _ => false));
      rooms := [];
      ghost var regions: seq<Region> := [];
      ScanStart(grid, visited);
      for y := 0 to height
        invariant IsMatrix(visited, width, height)
        invariant Scanned(grid, visited, regions, (0, y)) && rooms == BigOnly(regions)
      {
        visited, regions, rooms := IdentifyRoomsInRow(y, visited, regions, rooms);
        ScanNextRow(grid, width, visited, regions, y);
      }
      ScanDone(grid, visited, regions);
      BigOnlyInOrder(grid, regions);
      BigOnlyComponents(grid, regions);
    }

    /** One row of the scan of `_identify_rooms`. */
    method IdentifyRoomsInRow(y: int, visited: seq<seq<bool>>, ghost regions: seq<Region>, rooms: seq<Region>)
      returns (visited': seq<seq<bool>>, ghost regions': seq<Region>, rooms': seq<Region>)
      requires Valid() && 0 <= y < height && IsMatrix(visited, width, height)
      requires Scanned(grid, visited, regions, (0, y)) && rooms == BigOnly(regions)
      ensures IsMatrix(visited', width, height)
      ensures Scanned(grid, visited', regions', (width, y)) && rooms' == BigOnly(regions')
    {
      visited', regions', rooms' := visited, regions, rooms;
      for x := 0 to width
        invariant IsMatrix(visited', width, height)
        invariant Scanned(grid, visited', regions', (x, y)) && rooms' == BigOnly(regions')
      {
        visited', regions', rooms' := IdentifyRoomAt(x, y, visited', regions', rooms');
      }
    }

    /** One cell of the scan of `_identify_rooms`: an unvisited floor cell
        starts a new region, kept as a room when it is big enough. */
    method IdentifyRoomAt(x: int, y: int, visited: seq<seq<bool>>, ghost regions: seq<Region>, rooms: seq<Region>)
      returns (visited': seq<seq<bool>>, ghost regions': seq<Region>, rooms': seq<Region>)
      requires Valid() && 0 <= x < width && 0 <= y < height && IsMatrix(visited, width, height)
      requires Scanned(grid, visited, regions, (x, y)) && rooms == BigOnly(regions)
      ensures IsMatrix(visited', width, height)
      ensures Scanned(grid, visited', regions', (x + 1, y)) && rooms' == BigOnly(regions')
    {
      if !visited[y][x] && grid[y][x] == FLOOR {
        var seen, room := ExploreRoom(x, y, visited);
        ScanAdd(grid, visited, seen, regions, room, x, y);
        BigOnlyAppend(regions, room);
        visited', regions' := seen, regions + [room];
        rooms' := if |room| > MIN_ROOM_SIZE then rooms + [room] else rooms;
      } else {
        ScanSkip(grid, visited, regions, x, y);
        visited', regions', rooms' := visited, regions, rooms;
      }
    }

    /** `_connect_two_regions`: a tunnel between the closest pair, if there is one. */
    method ConnectTwoRegions(region1: Region, region2: Region)
      requires Valid() && CellsIn(region1, width, height) && CellsIn(region2, width, height)
      modifies this
      ensures Valid()
      ensures region1 == [] || region2 == [] ==> grid == old(grid) && draws == old(draws)
      ensures region1 != [] && region2 != [] ==> draws == old(draws) + 1
      ensures region1 != [] && region2 != [] ==>
        exists i, j :: 0 <= i < |region1| && 0 <= j < |region2| && FirstClosest(region1, region2, i, j) &&
          grid == LTunnel(old(grid), width, region1[i], region2[j], rng(old(draws)) % 2 == 0)
      ensures grid == Tunnelled(old(grid), width, region1, region2, rng(old(draws)) % 2 == 0)
    {
      var pair := ClosestPair(region1, region2);
      if pair.Some? {
        CreateTunnel(pair.value.0, pair.value.1);
      }
    }

    /** The scan of `_connect_regions`: a flood fill from every unvisited floor
        cell, in row-major order, collects every floor region once. */
    method CollectRegions() returns (regions: seq<Region>)
      requires Valid()
      ensures RegionsOf(grid, regions)
    {
      var visited := seq(height, _ => seq(width, _ => false));
      regions := [];
      ScanStart(grid, visited);
      for y := 0 to height
        invariant IsMatrix(visited, width, height) && Scanned(grid, visited, regions, (0, y))
      {
        visited, regions := CollectRegionsInRow(y, visited, regions);
        ScanNextRow(grid, width, visited, regions, y);
      }
      ScanDone(grid, visited, regions);
    }

    /** One row of the scan of `_connect_regions`. */
    method CollectRegionsInRow(y: int, visited: seq<seq<bool>>, regions: seq<Region>)
      returns (visited': seq<seq<bool>>, regions': seq<Region>)
      requires Valid() && 0 <= y < height && IsMatrix(visited, width, height)
      requires Scanned(grid, visited, regions, (0, y))
      ensures IsMatrix(visited', width, height) && Scanned(grid, visited', regions', (width, y))
    {
      visited', regions' := visited, regions;
      for x := 0 to width
        invariant IsMatrix(visited', width, height) && Scanned(grid, visited', regions', (x, y))
      {
        visited', regions' := CollectRegionAt(x, y, visited', regions');
      }
    }

    /** One cell of the scan of `_connect_regions`. */
    method CollectRegionAt(x: int, y: int, visited: seq<seq<bool>>, regions: seq<Region>)
      returns (visited': seq<seq<bool>>, regions': seq<Region>)
      requires Valid() && 0 <= x < width && 0 <= y < height && IsMatrix(visited, width, height)
      requires Scanned(grid, visited, regions, (x, y))
      ensures IsMatrix(visited', width, height) && Scanned(grid, visited', regions', (x + 1, y))
    {
      if !visited[y][x] && grid[y][x] == FLOOR {
        var seen, region := FloodFill(x, y, visited);
        ScanAdd(grid, visited, seen, regions, region, x, y);
        visited', regions' := seen, regions + [region];
      } else {
        ScanSkip(grid, visited, regions, x, y);
        visited', regions' := visited, regions;
      }
    }

    /** One pass of the loop of `_connect_regions`: `_connect_two_regions(main_region, rest[0])`,
        which joins the whole of `rest[0]` to the main region. */
    method ConnectToMain(main: Region, rest: seq<Region>, ghost g0: Grid)
      requires Valid() && IsGrid(g0, width, height) && FloorsKept(g0, grid)
      requires IsRegion(g0, main) && rest != [] && IsRegion(g0, rest[0])
      requires CellsIn(main, width, height) && forall k :: 0 <= k < |rest| ==> CellsIn(rest[k], width, height)
      requires Joined(grid, main[0], rest)
      modifies this
      ensures Valid() && draws == old(draws) + 1
      ensures grid == Tunnelled(old(grid), width, main, rest[0], rng(old(draws)) % 2 == 0)
      ensures JoinAll(grid, width, main, rest[1..], rng, draws) == JoinAll(old(grid), width, main, rest, rng, old(draws))
      ensures FloorsKept(g0, grid) && Joined(grid, main[0], rest[1..])
      ensures IsBinary(old(grid)) ==> IsBinary(grid)
      ensures BorderWalled(g0) && BorderWalled(old(grid)) ==> BorderWalled(grid)
    {
      RegionInBounds(g0, grid, width, main);
      RegionInBounds(g0, grid, width, rest[0]);
      ghost var g := grid;
      ConnectTwoRegions(main, rest[0]);
      ghost var i, j :| 0 <= i < |main| && 0 <= j < |rest[0]| &&
        grid == LTunnel(g, width, main[i], rest[0][j], rng(old(draws)) % 2 == 0);
      JoinStep(g0, g, width, main, rest, main[i], rest[0][j], rng(old(draws)) % 2 == 0);
      JoinAllStep(g, grid, width, main, rest, rng, old(draws));
    }

    /** `_connect_regions`: with more than one region, the regions are sorted
        largest first and each later one is tunnelled to the first. The floor
        ends up one component; no floor cell is lost, and a walled border and
        a grid of walls and floor stay so. `regions` is what the scan found. */
    method ConnectRegions() returns (ghost regions: seq<Region>)
      requires Valid()
      modifies this
      ensures Valid() && RegionsOf(old(grid), regions) && AllCellsIn(regions, width, height)
      ensures grid == ConnectAll(old(grid), width, regions, rng, old(draws))
      ensures |regions| <= 1 ==> grid == old(grid) && draws == old(draws)
      ensures |regions| > 1 ==> draws == old(draws) + |regions| - 1
      ensures FloorConnected(grid) && FloorsKept(old(grid), grid)
      ensures IsBinary(old(grid)) ==> IsBinary(grid)
      ensures BorderWalled(old(grid)) ==> BorderWalled(grid)
    {
      var found := CollectRegions();
      regions := found;
      RegionsCellsIn(grid, width, found);
      if |found| > 1 {
        JoinRegions(found);
      } else {
        OneRegionConnected(grid, found);
      }
    }

    /** `_connect_regions` with more than one region: sort them largest
        first and tunnel each later one to the first. */
    method JoinRegions(found: seq<Region>)
      requires Valid() && RegionsOf(grid, found) && AllCellsIn(found, width, height) && |found| > 1
      modifies this
      ensures Valid() && grid == ConnectAll(old(grid), width, found, rng, old(draws))
      ensures draws == old(draws) + |found| - 1
      ensures FloorConnected(grid) && FloorsKept(old(grid), grid)
      ensures IsBinary(old(grid)) ==> IsBinary(grid)
      ensures BorderWalled(old(grid)) ==> BorderWalled(grid)
    {
      var sorted := SortBySize(found);
      SortedAreRegions(grid, found, sorted);
      SortedCellsIn(found, sorted, width, height);
      JoinStart(grid, found, sorted);
      JoinSorted(sorted[0], sorted[1..]);
    }

    /** `for region in regions[1:]: _connect_two_regions(main_region, region)`.
        Every floor cell outside `rest` is reachable from the main region at
        the start, and all floor is at the end. */
    method JoinSorted(main: Region, rest: seq<Region>)
      requires Valid() && IsRegion(grid, main) && forall k :: 0 <= k < |rest| ==> IsRegion(grid, rest[k])
      requires CellsIn(main, width, height) && forall k :: 0 <= k < |rest| ==> CellsIn(rest[k], width, height)
      requires Joined(grid, main[0], rest)
      modifies this
      ensures Valid() && grid == JoinAll(old(grid), width, main, rest, rng, old(draws))
      ensures draws == old(draws) + |rest|
      ensures FloorConnected(grid) && FloorsKept(old(grid), grid)
      ensures IsBinary(old(grid)) ==> IsBinary(grid)
      ensures BorderWalled(old(grid)) ==> BorderWalled(grid)
    {
      ghost var g0 := grid;
      ghost var target := JoinAll(grid, width, main, rest, rng, draws);
      for k := 0 to |rest|
        invariant Valid() && draws == old(draws) + k
        invariant JoinAll(grid, width, main, rest[k..], rng, draws) == target
        invariant FloorsKept(g0, grid) && Joined(grid, main[0], rest[k..])
        invariant IsBinary(g0) ==> IsBinary(grid)
        invariant BorderWalled(g0) ==> BorderWalled(grid)
      {
        ConnectToMain(main, rest[k..], g0);
        assert rest[k..][1..] == rest[k + 1..];
      }
      assert rest[|rest|..] == [];
      HubConnects(grid, main[0]);
    }

    /** The neighbour test inside `_find_valid_position`: it stops at the
        first direction whose neighbour is out of bounds or a wall. */
    method IsOpen(c: Pos) returns (isValid: bool)
      requires Valid()
      ensures isValid == Open(grid, c)
    {
      var (x, y) := c;
      isValid := true;
      for d := 0 to |DIRS|
        invariant isValid && forall e :: 0 <= e < d ==> Floor(grid, Step(c, DIRS[e]))
      {
        var (dx, dy) := DIRS[d];
        var nx, ny := x + dx, y + dy;
        if !(0 <= nx < width && 0 <= ny < height && grid[ny][nx] == FLOOR) {
          assert !Floor(grid, Step(c, DIRS[d]));
          isValid := false;
          break;
        }
      }
    }

    /** `_find_valid_position`: a random open cell of the room (all four
        neighbours in bounds and floor), or `room[0]` when the room has none. */
    method FindValidPosition(room: seq<Pos>) returns (pos: Pos)
      requires Valid() && room != []
      modifies this`draws
      ensures pos in room
      ensures OpenCells(grid, room) != [] ==>
        Open(grid, pos) && draws == old(draws) + 1 &&
        pos == OpenCells(grid, room)[rng(old(draws)) % |OpenCells(grid, room)|]
      ensures OpenCells(grid, room) == [] ==> pos == room[0] && draws == old(draws)
      ensures (exists c :: c in room && Open(grid, c)) ==> Open(grid, pos)
      ensures pos == ValidPosition(grid, room, rng, old(draws)) && draws == old(draws) + PositionDraws(grid, room)
    {
      var validPositions: seq<Pos> := [];
      for i := 0 to |room|
        invariant validPositions == OpenCells(grid, room[..i]) && draws == old(draws)
      {
        var isValid := IsOpen(room[i]);
        assert room[..i + 1] == room[..i] + [room[i]];
        if isValid {
          validPositions := validPositions + [room[i]];
        }
      }
      assert room[..|room|] == room;
      ghost var opens := OpenCells(grid, room);
      if validPositions != [] {
        pos := Choose(validPositions);
        assert pos in opens;
      } else {
        pos := room[0];
        assert forall c :: c in room ==> !Open(grid, c) by {
          forall c | c in room
            ensures !Open(grid, c)
          {
            assert c !in opens;
          }
        }
      }
    }

    /** The conversion at the end of `generate_dungeon`: 1 for a wall, 2 for
        floor, and 0 for any other value. */
    method RenderMap() returns (levelMap: seq<seq<int>>)
      requires Valid()
      ensures IsGrid(levelMap, width, height)
      ensures forall y, x :: 0 <= y < height && 0 <= x < width ==> levelMap[y][x] == LevelCell(grid[y][x])
      ensures IsBinary(grid) ==> forall y, x :: 0 <= y < height && 0 <= x < width ==>
        levelMap[y][x] == 1 || levelMap[y][x] == 2
    {
      levelMap := seq(height, _ => seq(width, _ => 0));
      for y := 0 to height
        invariant IsGrid(levelMap, width, height)
        invariant forall yy, x :: 0 <= yy < y && 0 <= x < width ==> levelMap[yy][x] == LevelCell(grid[yy][x])
        invariant forall yy, x :: y <= yy < height && 0 <= x < width ==> levelMap[yy][x] == 0
      {
        var row := levelMap[y];
        for x := 0 to width
          invariant |row| == width
          invariant forall xx :: 0 <= xx < x ==> row[xx] == LevelCell(grid[y][xx])
          invariant forall xx :: x <= xx < width ==> row[xx] == 0
        {
          if grid[y][x] == WALL {
            row := row[x := 1];
          } else if grid[y][x] == FLOOR {
            row := row[x := 2];
          }
        }
        levelMap := levelMap[y := row];
      }
    }

    /** The grid stages of `generate_dungeon`: noise, five smoothing steps,
        border walls and region connection. */
    method CarveCaves(pnoise: (real, real, int) -> real) returns (ghost regions: seq<Region>)
      requires Valid() && (width == 0 <==> height == 0)
      modifies this
      ensures Valid() && IsBinary(grid) && BorderWalled(grid) && FloorConnected(grid)
      ensures Carved(grid, pnoise, width, height, rng, old(draws), regions)
      ensures draws == old(draws) + Max(1, |regions|)
    {
      InitializeRandom(pnoise, WALL_CHANCE);
      ghost var noise := grid;
      for i := 0 to SMOOTH_STEPS
        invariant Valid() && IsBinary(grid) && draws == old(draws) + 1
        invariant grid == SmoothN(noise, width, i)
      {
        ApplyCellularAutomata();
      }
      AddBorderWalls();
      assert grid == CavedGrid(pnoise, width, height, rng(old(draws)) % 10001);
      regions := ConnectRegions();
    }

    /** One pass of `generate_dungeon` with the noise function given: noise,
        five smoothing steps, border, connection, rooms; no rooms reports
        `None`, where the source starts over. The floor of the finished grid
        is one component inside a walled border, the start lies in the first
        room and the exit in the last, and that is the only room. */
    method GenerateAttempt(pnoise: (real, real, int) -> real)
      returns (res: Option<Generation>, ghost rooms: seq<Region>, ghost regions: seq<Region>, ghost pickDraw: nat)
      requires Valid() && (width == 0 <==> height == 0)
      modifies this
      ensures Valid() && IsBinary(grid) && BorderWalled(grid) && FloorConnected(grid)
      ensures Carved(grid, pnoise, width, height, rng, old(draws), regions) && old(draws) < draws
      ensures RegionsInOrder(grid, rooms) && forall c :: Floor(grid, c) ==> (InSome(rooms, c) <==> RoomCell(grid, c))
      ensures res.None? <==> rooms == []
      ensures pickDraw == old(draws) + Max(1, |regions|)
      ensures res.None? ==> draws == pickDraw && forall c :: !RoomCell(grid, c)
      ensures res.Some? ==> |rooms| == 1 && Rendered(grid, width, height, tileSize, rooms[0], rooms[|rooms| - 1], rng, pickDraw, res.value)
      ensures res.Some? ==> draws == pickDraw + EndDraws(grid, rooms[0], rooms[|rooms| - 1])
    {
      regions := CarveCaves(pnoise);
      pickDraw := draws;
      res, rooms := FinishLevel();
    }

    /** The stages of `generate_dungeon` after the grid is done: the rooms,
        and when there is one, the start, the exit and the render map. */
    method FinishLevel() returns (res: Option<Generation>, ghost rooms: seq<Region>)
      requires Valid() && FloorConnected(grid)
      modifies this`draws
      ensures RegionsInOrder(grid, rooms) && forall c :: Floor(grid, c) ==> (InSome(rooms, c) <==> RoomCell(grid, c))
      ensures res.None? <==> rooms == []
      ensures res.None? ==> draws == old(draws) && forall c :: !RoomCell(grid, c)
      ensures res.Some? ==> |rooms| == 1 && Rendered(grid, width, height, tileSize, rooms[0], rooms[|rooms| - 1], rng, old(draws), res.value)
      ensures res.Some? ==> draws == old(draws) + EndDraws(grid, rooms[0], rooms[|rooms| - 1])
    {
      var found := IdentifyRooms();
      rooms := found;
      RoomsHoldRoomCells(grid, found);
      ConnectedHasOneRegion(grid, found);
      if found == [] {
        res := None;
      } else {
        var gen := Render(found);
        res := Some(gen);
      }
    }

    /** The end of `generate_dungeon` once rooms exist: the start in the first
        room, the exit in the last, and the render map. */
    method Render(rooms: seq<Region>) returns (gen: Generation)
      requires Valid() && rooms != [] && RoomsCells(grid, rooms) && FloorConnected(grid)
      modifies this`draws
      ensures Rendered(grid, width, height, tileSize, rooms[0], rooms[|rooms| - 1], rng, old(draws), gen)
      ensures draws == old(draws) + EndDraws(grid, rooms[0], rooms[|rooms| - 1])
    {
      ghost var d := draws;
      var startPos, exitPos := PlaceEnds(rooms[0], rooms[|rooms| - 1]);
      var levelMap := RenderMap();
      gen := Generation(levelMap, Scale(startPos, tileSize), Scale(exitPos, tileSize));
      assert StartAndExit(grid, tileSize, rooms[0], rooms[|rooms| - 1], rng, d, gen, startPos, exitPos);
    }

    /** `start_pos` from the first room and `exit_pos` from the last. */
    method PlaceEnds(first: Region, last: Region) returns (startPos: Pos, exitPos: Pos)
      requires Valid() && RoomsCells(grid, [first, last]) && FloorConnected(grid)
      modifies this`draws
      ensures EndCells(grid, first, last, rng, old(draws), startPos, exitPos)
      ensures draws == old(draws) + EndDraws(grid, first, last)
    {
      assert first == [first, last][0] && last == [first, last][1];
      startPos := FindValidPosition(first);
      ghost var d1 := draws;
      exitPos := FindValidPosition(last);
      assert RoomCell(grid, startPos) && RoomCell(grid, exitPos);
      EndCellsPicked(grid, first, last, rng, old(draws), d1, startPos, exitPos);
    }

    /** `generate_dungeon` with its retry made explicit: passes follow one
        another while none finds a room, up to `attempts` of them. `passes` is
        how many ran, each using at least one draw, and `seedDraw` is the seed
        draw of the last one. The ghost `history` records every pass: all
        but the last found no room. */
    method GenerateDungeon(pnoise: (real, real, int) -> real, attempts: nat)
      returns (res: Option<Generation>, ghost rooms: seq<Region>, ghost regions: seq<Region>,
               ghost seedDraw: nat, ghost pickDraw: nat, passes: nat, ghost history: seq<Pass>)
      requires Valid() && (width == 0 <==> height == 0)
      modifies this
      ensures Valid() && passes <= attempts && old(draws) + passes <= draws
      ensures attempts == 0 ==> passes == 0 && res.None? && grid == old(grid) && draws == old(draws)
      ensures attempts > 0 ==> 1 <= passes && old(draws) + passes - 1 <= seedDraw
      ensures res.None? ==> passes == attempts
      ensures attempts > 0 ==> IsBinary(grid) && BorderWalled(grid) && FloorConnected(grid)
      ensures attempts > 0 ==> Carved(grid, pnoise, width, height, rng, seedDraw, regions)
      ensures attempts > 0 ==> pickDraw == seedDraw + Max(1, |regions|)
      ensures res.None? && attempts > 0 ==> draws == pickDraw && forall c :: !RoomCell(grid, c)
      ensures res.Some? ==> |rooms| == 1 && Rendered(grid, width, height, tileSize, rooms[0], rooms[0], rng, pickDraw, res.value)
      ensures res.Some? ==> draws == pickDraw + EndDraws(grid, rooms[0], rooms[0])
      ensures |history| == passes && Passes(pnoise, width, height, rng, old(draws), history)
      ensures passes > 0 ==> history[passes - 1] == Pass(seedDraw, grid, regions)
    {
      res, rooms, regions, seedDraw, pickDraw := None, [], [], draws, draws;
      passes := 0;
      ghost var failed: seq<Pass> := [];
      FailedPassesStart(pnoise, width, height, rng, draws);
      while passes < attempts && res.None?
        invariant passes <= attempts && Valid() && old(draws) + passes <= draws
        invariant passes == 0 ==> res.None? && grid == old(grid) && draws == old(draws)
        invariant passes > 0 ==> old(draws) + passes - 1 <= seedDraw
        invariant passes > 0 ==> IsBinary(grid) && BorderWalled(grid) && FloorConnected(grid)
        invariant passes > 0 ==> Carved(grid, pnoise, width, height, rng, seedDraw, regions)
        invariant passes > 0 ==> pickDraw == seedDraw + Max(1, |regions|)
        invariant res.None? && passes > 0 ==> draws == pickDraw && forall c :: !RoomCell(grid, c)
        invariant res.Some? ==> |rooms| == 1 && Rendered(grid, width, height, tileSize, rooms[0], rooms[0], rng, pickDraw, res.value)
        invariant res.Some? ==> draws == pickDraw + EndDraws(grid, rooms[0], rooms[0])
        invariant passes == 0 ==> failed == [] && FailedPasses(pnoise, width, height, rng, old(draws), failed, draws)
        invariant passes > 0 ==> |failed| == passes - 1 && FailedPasses(pnoise, width, height, rng, old(draws), failed, seedDraw)
      {
        if passes > 0 {
          assert NoRoomCell(grid);
          FailedPassesExtend(pnoise, width, height, rng, old(draws), failed, seedDraw, grid, regions);
          failed := failed + [Pass(seedDraw, grid, regions)];
        }
        seedDraw := draws;
        res, rooms, regions, pickDraw := GenerateAttempt(pnoise);
        passes := passes + 1;
      }
      if passes > 0 {
        FailedPassesClose(pnoise, width, height, rng, old(draws), failed, seedDraw, grid, regions);
        history := failed + [Pass(seedDraw, grid, regions)];
      } else {
        history := [];
      }
    }

    /** The `while attempts < 50` loop of `spawn_enemies`: up to 50 random
        cells of the room are tried, and the first one farther than 5 cells
        from the player gets an enemy of a random kind. */
    method PlaceEnemy(room: Region, player: Pos) returns (enemy: Option<EnemySpawn>)
      requires room != []
      modifies this`draws
      ensures (enemy, draws) == TryEnemy(room, player, tileSize, rng, old(draws))
      ensures enemy.None? <==> forall a :: 0 <= a < MAX_ATTEMPTS ==> !FarTry(room, player, rng, old(draws), a)
      ensures enemy.None? ==> draws == old(draws) + MAX_ATTEMPTS
      ensures enemy.Some? ==> FirstFarTry(room, player, rng, old(draws), FirstFar(room, player, rng, old(draws), 0))
      ensures old(draws) < draws <= old(draws) + MAX_ATTEMPTS + 1
      ensures enemy.Some? ==> EnemyFar(room, player, tileSize, enemy.value)
    {
      ghost var d := draws;
      enemy := None;
      var attempts := 0;
      while attempts < MAX_ATTEMPTS
        invariant 0 <= attempts <= MAX_ATTEMPTS && enemy.None? && draws == d + attempts
        invariant forall b :: 0 <= b < attempts ==> !FarTry(room, player, rng, d, b)
      {
        var pos := Choose(room);
        assert pos == TryCell(room, rng, d, attempts);
        if DistSq(pos, player) > SAFE_DIST_SQ {
          var kind := Choose(ENEMY_KINDS);
          assert kind == ENEMY_KINDS[rng(d + attempts + 1) % |ENEMY_KINDS|];
          enemy := Some(EnemySpawn(pos.0 * tileSize, pos.1 * tileSize, tileSize, kind));
          break;
        }
        attempts := attempts + 1;
      }
      TriesPlace(room, player, tileSize, rng, d, attempts, enemy, draws);
      TryEnemyFacts(room, player, tileSize, rng, d);
    }

    /** `spawn_enemies`: for each of `numEnemies` slots a random room and up
        to 50 tries for a cell far enough from the player's grid cell, the
        player's pixel centre floor-divided by the tile size. `rooms` are the
        rooms `_identify_rooms` finds. */
    method SpawnEnemies(numEnemies: nat, playerCenter: (int, int)) returns (enemies: seq<EnemySpawn>, ghost rooms: seq<Region>)
      requires Valid() && tileSize != 0
      modifies this`draws
      ensures RegionsInOrder(grid, rooms) && RoomsCells(grid, rooms)
      ensures forall c :: Floor(grid, c) ==> (InSome(rooms, c) <==> RoomCell(grid, c))
      ensures rooms == [] <==> forall c :: !RoomCell(grid, c)
      ensures rooms != [] ==> (enemies, draws) == EnemiesSpawned(rooms, numEnemies, PlayerCell(playerCenter, tileSize), tileSize, rng, old(draws))
      ensures |enemies| <= numEnemies
      ensures (forall c :: !RoomCell(grid, c)) ==> enemies == [] && draws == old(draws)
      ensures forall k :: 0 <= k < |enemies| ==>
        enemies[k].size == tileSize && EnemyCellOk(grid, PlayerCell(playerCenter, tileSize), enemies[k].x, enemies[k].y, tileSize)
      ensures draws <= old(draws) + 52 * numEnemies
    {
      var found := IdentifyRooms();
      rooms := found;
      if found == [] {
        enemies := [];
      } else {
        enemies := PlaceEnemies(found, numEnemies, PlayerCell(playerCenter, tileSize));
      }
      RoomsHoldRoomCells(grid, found);
      FarEnemiesOk(grid, found, PlayerCell(playerCenter, tileSize), tileSize, enemies);
    }

    /** One pass of the `for _ in range(num_enemies)` loop of
        `spawn_enemies`: a random room, and at most one enemy in it. */
    method PlaceSlot(rooms: seq<Region>, player: Pos) returns (enemy: Option<EnemySpawn>)
      requires rooms != [] && forall i :: 0 <= i < |rooms| ==> rooms[i] != []
      modifies this`draws
      ensures (enemy, draws) == EnemySlot(rooms, player, tileSize, rng, old(draws))
    {
      ghost var d := draws;
      var room := Choose(rooms);
      enemy := PlaceEnemy(room, player);
      EnemySlotIs(rooms, player, tileSize, rng, d);
    }

    /** The `for _ in range(num_enemies)` loop of `spawn_enemies`: a random
        room per slot, and at most one enemy in it, of tile size at a cell of
        one of the rooms far from the player. */
    method PlaceEnemies(rooms: seq<Region>, numEnemies: nat, player: Pos) returns (enemies: seq<EnemySpawn>)
      requires rooms != [] && forall i :: 0 <= i < |rooms| ==> rooms[i] != []
      modifies this`draws
      ensures (enemies, draws) == EnemiesSpawned(rooms, numEnemies, player, tileSize, rng, old(draws))
      ensures |enemies| <= numEnemies
      ensures EnemiesFar(rooms, player, tileSize, enemies)
      ensures old(draws) + 2 * numEnemies <= draws <= old(draws) + 52 * numEnemies
    {
      enemies := [];
      ghost var d0 := draws;
      for n := 0 to numEnemies
        invariant (enemies, draws) == EnemiesSpawned(rooms, n, player, tileSize, rng, d0)
      {
        ghost var before, d := enemies, draws;
        var enemy := PlaceSlot(rooms, player);
        if enemy.Some? {
          enemies := enemies + [enemy.value];
        }
        EnemiesSpawnedStep(rooms, n, player, tileSize, rng, d0, before, d, enemy, draws, enemies);
      }
      EnemiesSpawnedDraws(rooms, numEnemies, player, tileSize, rng, d0);
      EnemiesSpawnedFar(rooms, numEnemies, player, tileSize, rng, d0);
    }

    /** `spawn_items`: one item per slot, each in a random cell of a random
        room, half a tile in size, of a random kind; none without rooms.
        `rooms` are the rooms `_identify_rooms` finds. */
    method SpawnItems(numItems: nat) returns (items: seq<ItemSpawn>, ghost rooms: seq<Region>)
      requires Valid()
      modifies this`draws
      ensures RegionsInOrder(grid, rooms) && RoomsCells(grid, rooms)
      ensures forall c :: Floor(grid, c) ==> (InSome(rooms, c) <==> RoomCell(grid, c))
      ensures rooms == [] <==> forall c :: !RoomCell(grid, c)
      ensures rooms != [] ==> |items| == numItems && forall k :: 0 <= k < |items| ==> items[k] == ItemDrawn(rooms, tileSize, rng, old(draws), k)
      ensures (forall c :: !RoomCell(grid, c)) ==> items == [] && draws == old(draws)
      ensures (exists c :: RoomCell(grid, c)) ==> |items| == numItems && draws == old(draws) + 3 * numItems
      ensures forall k :: 0 <= k < |items| ==>
        items[k].size == FloorDiv(tileSize, 2) && ItemCellOk(grid, items[k].x, items[k].y, tileSize)
    {
      var found := IdentifyRooms();
      rooms := found;
      if found == [] {
        items := [];
      } else {
        items := PlaceItems(found, numItems);
      }
      RoomsHoldRoomCells(grid, found);
      RoomItemsOk(grid, found, tileSize, items);
    }

    /** The `for _ in range(num_items)` loop of `spawn_items`: three draws per
        item, for its room, its cell and its kind. */
    method PlaceItems(rooms: seq<Region>, numItems: nat) returns (items: seq<ItemSpawn>)
      requires rooms != [] && forall i :: 0 <= i < |rooms| ==> rooms[i] != []
      modifies this`draws
      ensures |items| == numItems && draws == old(draws) + 3 * numItems
      ensures forall k :: 0 <= k < |items| ==> items[k] == ItemDrawn(rooms, tileSize, rng, old(draws), k)
      ensures ItemsInRooms(rooms, tileSize, items)
    {
      items := [];
      ghost var d0 := draws;
      for n := 0 to numItems
        invariant |items| == n && draws == d0 + 3 * n
        invariant forall k :: 0 <= k < |items| ==> items[k] == ItemDrawn(rooms, tileSize, rng, d0, k)
      {
        ghost var d := draws;
        var room := Choose(rooms);
        var pos := Choose(room);
        var kind := Choose(ITEM_TYPES);
        ItemDrawnIs(rooms, tileSize, rng, d0, n, d, room, pos, kind);
        items := items + [ItemSpawn(pos.0 * tileSize, pos.1 * tileSize, FloorDiv(tileSize, 2), kind)];
      }
      ItemsDrawnIn(rooms, tileSize, rng, d0, items);
    }
  }

  /** `s` and `e` are what `_find_valid_position` picks in `first` and then
      in `last` when the draws start at `d`: each is open when its room has an
      open cell and is the room's first cell when it has none; both are room
      cells, and `e` is reachable from `s`. */
  ghost predicate EndCells(g: Grid, first: Region, last: Region, rng: nat -> nat, d: nat, s: Pos, e: Pos) {
    && first != [] && last != []
    && s == ValidPosition(g, first, rng, d) && e == ValidPosition(g, last, rng, d + PositionDraws(g, first))
    && s in first && e in last
    && ((exists c :: c in first && Open(g, c)) ==> Open(g, s))
    && ((exists c :: c in last && Open(g, c)) ==> Open(g, e))
    && (OpenCells(g, first) == [] ==> s == first[0]) && (OpenCells(g, last) == [] ==> e == last[0])
    && RoomCell(g, s) && RoomCell(g, e) && Reachable(g, s, e)
  }

  /** The cells picked with draws `d` and then `d1` are end cells when
      `d1` follows the first pick's draws. */
  lemma EndCellsPicked(g: Grid, first: Region, last: Region, rng: nat -> nat, d: nat, d1: nat, s: Pos, e: Pos)
    requires first != [] && last != [] && d1 == d + PositionDraws(g, first)
    requires s == ValidPosition(g, first, rng, d) && e == ValidPosition(g, last, rng, d1)
    requires RoomCell(g, s) && RoomCell(g, e) && FloorConnected(g)
    ensures EndCells(g, first, last, rng, d, s, e)
  {
    assert Reachable(g, s, e);
  }

  /** The start and exit of `gen` are the end cells `s` and `e`, scaled. */
  ghost predicate StartAndExit(g: Grid, tileSize: int, first: Region, last: Region, rng: nat -> nat, d: nat, gen: Generation, s: Pos, e: Pos) {
    && EndCells(g, first, last, rng, d, s, e)
    && gen.start == Scale(s, tileSize) && gen.exit == Scale(e, tileSize)
  }

  /** What `generate_dungeon` returns for the grid `g`: the render map of `g`,
      and the start in `first` and the exit in `last` picked with the draws
      from `d` on, which are joined by floor. */
  ghost predicate Rendered(g: Grid, w: nat, h: nat, tileSize: int, first: Region, last: Region, rng: nat -> nat, d: nat, gen: Generation) {
    && IsGrid(g, w, h) && IsGrid(gen.levelMap, w, h)
    && (forall y, x :: 0 <= y < h && 0 <= x < w ==> gen.levelMap[y][x] == LevelCell(g[y][x]))
    && exists s, e :: StartAndExit(g, tileSize, first, last, rng, d, gen, s, e)
  }

  /** Every room is non-empty and made of room cells. */
  ghost predicate RoomsCells(g: Grid, rooms: seq<Region>) {
    forall i :: 0 <= i < |rooms| ==> rooms[i] != [] && forall c :: c in rooms[i] ==> RoomCell(g, c)
  }

  /** Pixel position (x, y) is grid cell `c`, scaled, and `c` is farther than
      5 cells from the player's cell. */
  predicate SafeSpawnCell(c: Pos, player: Pos, x: int, y: int, tileSize: int) {
    DistSq(c, player) > SAFE_DIST_SQ && x == c.0 * tileSize && y == c.1 * tileSize
  }

  /** Pixel position (x, y) is a scaled room cell far enough from the player. */
  ghost predicate EnemyCellOk(g: Grid, player: Pos, x: int, y: int, tileSize: int) {
    exists c :: RoomCell(g, c) && SafeSpawnCell(c, player, x, y, tileSize)
  }

  /** Pixel position (x, y) is a scaled room cell. */
  ghost predicate ItemCellOk(g: Grid, x: int, y: int, tileSize: int) {
    exists c :: RoomCell(g, c) && x == c.0 * tileSize && y == c.1 * tileSize
  }

  /** The cell try `a` of the `while attempts < 50` loop of `spawn_enemies`
      draws when its first try draws `rng(d)`. */
  function TryCell(room: Region, rng: nat -> nat, d: nat, a: nat): Pos
    requires room != []
  {
    room[rng(d + a) % |room|]
  }

  /** Try `a` draws a cell farther than 5 cells from the player. */
  predicate FarTry(room: Region, player: Pos, rng: nat -> nat, d: nat, a: nat)
    requires room != []
  {
    DistSq(TryCell(room, rng, d, a), player) > SAFE_DIST_SQ
  }

  /** Try `a` is the first of the 50 whose cell is far enough. */
  predicate FirstFarTry(room: Region, player: Pos, rng: nat -> nat, d: nat, a: nat)
    requires room != []
  {
    a < MAX_ATTEMPTS && FarTry(room, player, rng, d, a) &&
    forall b :: 0 <= b < a ==> !FarTry(room, player, rng, d, b)
  }

  /** The first of tries `a` to 49 that is far enough, or 50 when none is.
      (An empty room has none here; `random.choice` would fail on it, and no
      room is empty.) */
  function FirstFar(room: Region, player: Pos, rng: nat -> nat, d: nat, a: nat): nat
    decreases MAX_ATTEMPTS - a
  {
    if room == [] || a >= MAX_ATTEMPTS then MAX_ATTEMPTS
    else if FarTry(room, player, rng, d, a) then a
    else FirstFar(room, player, rng, d, a + 1)
  }

  /** `FirstFar` is what its name says: with tries before `a` all too close,
      it is the first far try when there is one and 50 exactly when no try
      is far enough. */
  lemma {:induction false} FirstFarIsFirst(room: Region, player: Pos, rng: nat -> nat, d: nat, a: nat)
    requires room != [] && a <= MAX_ATTEMPTS
    requires forall b :: 0 <= b < a ==> !FarTry(room, player, rng, d, b)
    ensures a <= FirstFar(room, player, rng, d, a) <= MAX_ATTEMPTS
    ensures FirstFar(room, player, rng, d, a) < MAX_ATTEMPTS ==> FirstFarTry(room, player, rng, d, FirstFar(room, player, rng, d, a))
    ensures FirstFar(room, player, rng, d, a) == MAX_ATTEMPTS <==> forall b :: 0 <= b < MAX_ATTEMPTS ==> !FarTry(room, player, rng, d, b)
    decreases MAX_ATTEMPTS - a
  {
    if a < MAX_ATTEMPTS && !FarTry(room, player, rng, d, a) {
      FirstFarIsFirst(room, player, rng, d, a + 1);
    }
  }

  /** Tries that are all too close do not change where `FirstFar` stops. */
  lemma {:induction false} FirstFarSkips(room: Region, player: Pos, rng: nat -> nat, d: nat, a: nat)
    requires room != [] && a <= MAX_ATTEMPTS
    requires forall b :: 0 <= b < a ==> !FarTry(room, player, rng, d, b)
    ensures FirstFar(room, player, rng, d, 0) == FirstFar(room, player, rng, d, a)
  {
    if a > 0 {
      FirstFarSkips(room, player, rng, d, a - 1);
      assert !FarTry(room, player, rng, d, a - 1);
    }
  }

  /** What the inner loop of `spawn_enemies` ends with, once it has stopped
      at try `attempts` with `enemy` and the next draw `dEnd`, is `TryEnemy`. */
  lemma TriesPlace(room: Region, player: Pos, tileSize: int, rng: nat -> nat, d: nat, attempts: nat, enemy: Option<EnemySpawn>, dEnd: nat)
    requires room != [] && attempts <= MAX_ATTEMPTS
    requires forall b :: 0 <= b < attempts ==> !FarTry(room, player, rng, d, b)
    requires enemy.None? ==> attempts == MAX_ATTEMPTS && dEnd == d + MAX_ATTEMPTS
    requires enemy.Some? ==> attempts < MAX_ATTEMPTS && FarTry(room, player, rng, d, attempts) && dEnd == d + attempts + 2
    requires enemy.Some? ==> enemy.value == EnemyFromTry(room, tileSize, rng, d, attempts)
    ensures (enemy, dEnd) == TryEnemy(room, player, tileSize, rng, d)
  {
    FirstFarSkips(room, player, rng, d, attempts);
    if enemy.Some? {
      assert FirstFar(room, player, rng, d, attempts) == attempts;
    }
  }

  /** `TryEnemy` places nothing exactly when none of the tries is far enough;
      otherwise it stops at the first far try, inside the room and away from
      the player, having used between one and `MAX_ATTEMPTS + 1` draws. */
  lemma TryEnemyFacts(room: Region, player: Pos, tileSize: int, rng: nat -> nat, d: nat)
    requires room != []
    ensures TryEnemy(room, player, tileSize, rng, d).0.None? <==> forall a :: 0 <= a < MAX_ATTEMPTS ==> !FarTry(room, player, rng, d, a)
    ensures TryEnemy(room, player, tileSize, rng, d).0.Some? ==> FirstFarTry(room, player, rng, d, FirstFar(room, player, rng, d, 0))
    ensures d < TryEnemy(room, player, tileSize, rng, d).1 <= d + MAX_ATTEMPTS + 1
    ensures TryEnemy(room, player, tileSize, rng, d).0.None? ==> TryEnemy(room, player, tileSize, rng, d).1 == d + MAX_ATTEMPTS
    ensures TryEnemy(room, player, tileSize, rng, d).0.Some? ==> EnemyFar(room, player, tileSize, TryEnemy(room, player, tileSize, rng, d).0.value)
  {
    FirstFarIsFirst(room, player, rng, d, 0);
    var a := FirstFar(room, player, rng, d, 0);
    if a < MAX_ATTEMPTS {
      assert TryCell(room, rng, d, a) in room;
    }
  }

  /** The enemy try `a` makes: at its cell, scaled, of the kind the next draw
      picks. */
  function EnemyFromTry(room: Region, tileSize: int, rng: nat -> nat, d: nat, a: nat): EnemySpawn
    requires room != []
  {
    var c := TryCell(room, rng, d, a);
    EnemySpawn(c.0 * tileSize, c.1 * tileSize, tileSize, ENEMY_KINDS[rng(d + a + 1) % |ENEMY_KINDS|])
  }

  /** The inner loop of `spawn_enemies` when its first try draws `rng(d)`:
      the enemy of the first far try, or none, and the next unused draw. */
  function TryEnemy(room: Region, player: Pos, tileSize: int, rng: nat -> nat, d: nat): (Option<EnemySpawn>, nat) {
    var a := FirstFar(room, player, rng, d, 0);
    if room != [] && a < MAX_ATTEMPTS then (Some(EnemyFromTry(room, tileSize, rng, d, a)), d + a + 2)
    else (None, d + MAX_ATTEMPTS)
  }

  /** One slot of `spawn_enemies` from draw `d`: a room, then the tries in it. */
  function EnemySlot(rooms: seq<Region>, player: Pos, tileSize: int, rng: nat -> nat, d: nat): (Option<EnemySpawn>, nat) {
    if rooms == [] then (None, d) else TryEnemy(rooms[rng(d) % |rooms|], player, tileSize, rng, d + 1)
  }

  function OptionSeq<T>(o: Option<T>): seq<T> {
    if o.Some? then [o.value] else []
  }

  /** The first `n` slots of `spawn_enemies` from draw `d`: the enemies in
      slot order and the next unused draw. */
  function EnemiesSpawned(rooms: seq<Region>, n: nat, player: Pos, tileSize: int, rng: nat -> nat, d: nat): (seq<EnemySpawn>, nat) {
    if n == 0 then ([], d)
    else
      var prev := EnemiesSpawned(rooms, n - 1, player, tileSize, rng, d);
      var slot := EnemySlot(rooms, player, tileSize, rng, prev.1);
      (prev.0 + OptionSeq(slot.0), slot.1)
  }

  lemma EnemySlotIs(rooms: seq<Region>, player: Pos, tileSize: int, rng: nat -> nat, d: nat)
    requires rooms != []
    ensures EnemySlot(rooms, player, tileSize, rng, d) == TryEnemy(rooms[rng(d) % |rooms|], player, tileSize, rng, d + 1)
  {
  }

  /** One more slot, from the draws the earlier ones left, appends its
      enemy, if any. */
  lemma EnemiesSpawnedStep(rooms: seq<Region>, n: nat, player: Pos, tileSize: int, rng: nat -> nat, d0: nat, es: seq<EnemySpawn>, d: nat, enemy: Option<EnemySpawn>, dEnd: nat, es': seq<EnemySpawn>)
    requires (es, d) == EnemiesSpawned(rooms, n, player, tileSize, rng, d0)
    requires (enemy, dEnd) == EnemySlot(rooms, player, tileSize, rng, d)
    requires es' == if enemy.Some? then es + [enemy.value] else es
    ensures (es', dEnd) == EnemiesSpawned(rooms, n + 1, player, tileSize, rng, d0)
  {
    assert es' == es + OptionSeq(enemy);
  }

  /** The enemy is of tile size at a cell of `room` far from the player. */
  ghost predicate EnemyFar(room: Region, player: Pos, tileSize: int, e: EnemySpawn) {
    e.size == tileSize && exists c :: c in room && SafeSpawnCell(c, player, e.x, e.y, tileSize)
  }

  /** Every enemy is of tile size at a cell of one of the rooms far from the
      player. */
  ghost predicate EnemiesFar(rooms: seq<Region>, player: Pos, tileSize: int, enemies: seq<EnemySpawn>) {
    forall k :: 0 <= k < |enemies| ==> exists i :: 0 <= i < |rooms| && EnemyFar(rooms[i], player, tileSize, enemies[k])
  }

  lemma EnemiesFarAppend(rooms: seq<Region>, player: Pos, tileSize: int, enemies: seq<EnemySpawn>, i: int, e: EnemySpawn)
    requires 0 <= i < |rooms| && EnemiesFar(rooms, player, tileSize, enemies) && EnemyFar(rooms[i], player, tileSize, e)
    ensures EnemiesFar(rooms, player, tileSize, enemies + [e])
  {
  }

  /** One slot uses its room draw and one to 51 more. */
  lemma SlotDraws(rooms: seq<Region>, player: Pos, tileSize: int, rng: nat -> nat, dn: nat)
    requires rooms != [] && forall i :: 0 <= i < |rooms| ==> rooms[i] != []
    ensures dn + 2 <= EnemySlot(rooms, player, tileSize, rng, dn).1 <= dn + MAX_ATTEMPTS + 2
  {
    TryEnemyFacts(rooms[rng(dn) % |rooms|], player, tileSize, rng, dn + 1);
  }

  /** The enemy a slot places, if any, is far from the player in a room. */
  lemma SlotFar(rooms: seq<Region>, player: Pos, tileSize: int, rng: nat -> nat, dn: nat, es: seq<EnemySpawn>)
    requires rooms != [] && forall i :: 0 <= i < |rooms| ==> rooms[i] != []
    requires EnemiesFar(rooms, player, tileSize, es)
    ensures EnemiesFar(rooms, player, tileSize, es + OptionSeq(EnemySlot(rooms, player, tileSize, rng, dn).0))
  {
    var i := rng(dn) % |rooms|;
    var slot := TryEnemy(rooms[i], player, tileSize, rng, dn + 1);
    assert EnemySlot(rooms, player, tileSize, rng, dn) == slot;
    TryEnemyFacts(rooms[i], player, tileSize, rng, dn + 1);
    if slot.0.Some? {
      EnemiesFarAppend(rooms, player, tileSize, es, i, slot.0.value);
    } else {
      assert es + OptionSeq(slot.0) == es;
    }
  }

  /** `n` slots place at most `n` enemies and use two to 52 draws each. */
  lemma {:induction false} EnemiesSpawnedDraws(rooms: seq<Region>, n: nat, player: Pos, tileSize: int, rng: nat -> nat, d: nat)
    requires rooms != [] && forall i :: 0 <= i < |rooms| ==> rooms[i] != []
    ensures |EnemiesSpawned(rooms, n, player, tileSize, rng, d).0| <= n
    ensures d + 2 * n <= EnemiesSpawned(rooms, n, player, tileSize, rng, d).1 <= d + 52 * n
  {
    if n > 0 {
      EnemiesSpawnedDraws(rooms, n - 1, player, tileSize, rng, d);
      var prev := EnemiesSpawned(rooms, n - 1, player, tileSize, rng, d);
      SlotDraws(rooms, player, tileSize, rng, prev.1);
    }
  }

  /** Every enemy `n` slots place is far from the player in a room. */
  lemma {:induction false} EnemiesSpawnedFar(rooms: seq<Region>, n: nat, player: Pos, tileSize: int, rng: nat -> nat, d: nat)
    requires rooms != [] && forall i :: 0 <= i < |rooms| ==> rooms[i] != []
    ensures EnemiesFar(rooms, player, tileSize, EnemiesSpawned(rooms, n, player, tileSize, rng, d).0)
  {
    if n > 0 {
      EnemiesSpawnedFar(rooms, n - 1, player, tileSize, rng, d);
      var prev := EnemiesSpawned(rooms, n - 1, player, tileSize, rng, d);
      SlotFar(rooms, player, tileSize, rng, prev.1, prev.0);
    }
  }

  /** Every enemy is of tile size at a far room cell. */
  ghost predicate EnemiesOk(g: Grid, player: Pos, tileSize: int, enemies: seq<EnemySpawn>) {
    forall k :: 0 <= k < |enemies| ==> enemies[k].size == tileSize && EnemyCellOk(g, player, enemies[k].x, enemies[k].y, tileSize)
  }

  /** Enemies at far cells of rooms whose cells are room cells are placed
      where `spawn_enemies` may place them. */
  lemma FarEnemiesOk(g: Grid, rooms: seq<Region>, player: Pos, tileSize: int, enemies: seq<EnemySpawn>)
    requires RoomsCells(g, rooms) && EnemiesFar(rooms, player, tileSize, enemies)
    ensures EnemiesOk(g, player, tileSize, enemies)
  {
    forall k | 0 <= k < |enemies|
      ensures EnemyCellOk(g, player, enemies[k].x, enemies[k].y, tileSize)
    {
      var i :| 0 <= i < |rooms| && EnemyFar(rooms[i], player, tileSize, enemies[k]);
      var c :| c in rooms[i] && SafeSpawnCell(c, player, enemies[k].x, enemies[k].y, tileSize);
      assert RoomCell(g, c);
    }
  }

  /** When every room cell is far from the player, every slot places an
      enemy, at three draws a slot. */
  lemma {:induction false} AllFarAllPlaced(rooms: seq<Region>, n: nat, player: Pos, tileSize: int, rng: nat -> nat, d: nat)
    requires rooms != [] && forall i :: 0 <= i < |rooms| ==> rooms[i] != []
    requires forall i, c :: 0 <= i < |rooms| && c in rooms[i] ==> DistSq(c, player) > SAFE_DIST_SQ
    ensures |EnemiesSpawned(rooms, n, player, tileSize, rng, d).0| == n
    ensures EnemiesSpawned(rooms, n, player, tileSize, rng, d).1 == d + 3 * n
  {
    if n > 0 {
      AllFarAllPlaced(rooms, n - 1, player, tileSize, rng, d);
      var prev := EnemiesSpawned(rooms, n - 1, player, tileSize, rng, d);
      var room := rooms[rng(prev.1) % |rooms|];
      assert TryCell(room, rng, prev.1 + 1, 0) in room;
      assert FirstFar(room, player, rng, prev.1 + 1, 0) == 0;
    }
  }

  /** In a room with no far cell every try fails: all 50 are used. */
  lemma NoFarTry(room: Region, player: Pos, tileSize: int, rng: nat -> nat, d: nat)
    requires room != [] && forall c :: c in room ==> DistSq(c, player) <= SAFE_DIST_SQ
    ensures TryEnemy(room, player, tileSize, rng, d) == (None, d + MAX_ATTEMPTS)
  {
    forall b | 0 <= b < MAX_ATTEMPTS
      ensures !FarTry(room, player, rng, d, b)
    {
      assert TryCell(room, rng, d, b) in room;
    }
    TryEnemyFacts(room, player, tileSize, rng, d);
  }

  /** When every slot, from any draw, places nothing and uses 51 draws, so
      do the first `n` slots together. */
  lemma {:induction false} EmptySlotsNonePlaced(rooms: seq<Region>, n: nat, player: Pos, tileSize: int, rng: nat -> nat, d: nat)
    requires forall dn :: EnemySlot(rooms, player, tileSize, rng, dn) == (None, dn + 51)
    ensures EnemiesSpawned(rooms, n, player, tileSize, rng, d) == ([], d + 51 * n)
  {
    if n > 0 {
      EmptySlotsNonePlaced(rooms, n - 1, player, tileSize, rng, d);
      var prev := EnemiesSpawned(rooms, n - 1, player, tileSize, rng, d);
      var slot := EnemySlot(rooms, player, tileSize, rng, prev.1);
      assert slot == (None, prev.1 + 51);
      assert OptionSeq(slot.0) == [];
      assert prev.0 == [];
      assert prev.0 + OptionSeq(slot.0) == prev.0;
    }
  }

  /** When no room cell is far from the player, no slot places an enemy, and
      each uses its room draw and all 50 tries. */
  lemma NoneFarNonePlaced(rooms: seq<Region>, n: nat, player: Pos, tileSize: int, rng: nat -> nat, d: nat)
    requires rooms != [] && forall i :: 0 <= i < |rooms| ==> rooms[i] != []
    requires forall i, c :: 0 <= i < |rooms| && c in rooms[i] ==> DistSq(c, player) <= SAFE_DIST_SQ
    ensures EnemiesSpawned(rooms, n, player, tileSize, rng, d).0 == []
    ensures EnemiesSpawned(rooms, n, player, tileSize, rng, d).1 == d + 51 * n
  {
    forall dn: nat
      ensures EnemySlot(rooms, player, tileSize, rng, dn) == (None, dn + 51)
    {
      NoFarTry(rooms[rng(dn) % |rooms|], player, tileSize, rng, dn + 1);
      EnemySlotIs(rooms, player, tileSize, rng, dn);
    }
    EmptySlotsNonePlaced(rooms, n, player, tileSize, rng, d);
  }


  /** Item `k` of `spawn_items` when item 0's room draw is `rng(d)`: three
      draws, for its room, its cell in that room and its kind. */
  function ItemDrawn(rooms: seq<Region>, tileSize: int, rng: nat -> nat, d: nat, k: nat): ItemSpawn
    requires rooms != [] && forall i :: 0 <= i < |rooms| ==> rooms[i] != []
  {
    var di := d + 3 * k;
    var room := rooms[rng(di) % |rooms|];
    var c := room[rng(di + 1) % |room|];
    ItemSpawn(c.0 * tileSize, c.1 * tileSize, FloorDiv(tileSize, 2), ITEM_TYPES[rng(di + 2) % |ITEM_TYPES|])
  }

  /** The three draws from `d` pick `room`, `pos` in it and `kind`, which
      is item `n` when the items before it used three draws each from `d0`. */
  lemma ItemDrawnIs(rooms: seq<Region>, tileSize: int, rng: nat -> nat, d0: nat, n: nat, d: nat, room: Region, pos: Pos, kind: ItemType)
    requires rooms != [] && forall i :: 0 <= i < |rooms| ==> rooms[i] != []
    requires d == d0 + 3 * n && room == rooms[rng(d) % |rooms|]
    requires pos == room[rng(d + 1) % |room|] && kind == ITEM_TYPES[rng(d + 2) % |ITEM_TYPES|]
    ensures ItemDrawn(rooms, tileSize, rng, d0, n) == ItemSpawn(pos.0 * tileSize, pos.1 * tileSize, FloorDiv(tileSize, 2), kind)
  {
  }

  /** Every item is half a tile in size at a scaled cell of one of the
      rooms. */
  ghost predicate ItemsInRooms(rooms: seq<Region>, tileSize: int, items: seq<ItemSpawn>) {
    forall k :: 0 <= k < |items| ==>
      items[k].size == FloorDiv(tileSize, 2) && exists i :: 0 <= i < |rooms| && ItemInRoom(rooms[i], tileSize, items[k])
  }

  /** The item is at a scaled cell of `room`. */
  ghost predicate ItemInRoom(room: Region, tileSize: int, item: ItemSpawn) {
    exists c :: c in room && item.x == c.0 * tileSize && item.y == c.1 * tileSize
  }

  /** The drawn items lie in the rooms. */
  lemma ItemsDrawnIn(rooms: seq<Region>, tileSize: int, rng: nat -> nat, d: nat, items: seq<ItemSpawn>)
    requires rooms != [] && forall i :: 0 <= i < |rooms| ==> rooms[i] != []
    requires forall k :: 0 <= k < |items| ==> items[k] == ItemDrawn(rooms, tileSize, rng, d, k)
    ensures ItemsInRooms(rooms, tileSize, items)
  {
    forall k | 0 <= k < |items|
      ensures exists i :: 0 <= i < |rooms| && ItemInRoom(rooms[i], tileSize, items[k])
    {
      var di := d + 3 * k;
      var i := rng(di) % |rooms|;
      assert rooms[i][rng(di + 1) % |rooms[i]|] in rooms[i];
      assert ItemInRoom(rooms[i], tileSize, items[k]);
    }
  }

  /** Items in rooms of room cells are where `spawn_items` may place them. */
  lemma RoomItemsOk(g: Grid, rooms: seq<Region>, tileSize: int, items: seq<ItemSpawn>)
    requires RoomsCells(g, rooms) && ItemsInRooms(rooms, tileSize, items)
    ensures forall k :: 0 <= k < |items| ==> ItemCellOk(g, items[k].x, items[k].y, tileSize)
  {
    forall k | 0 <= k < |items|
      ensures ItemCellOk(g, items[k].x, items[k].y, tileSize)
    {
      var i :| 0 <= i < |rooms| && ItemInRoom(rooms[i], tileSize, items[k]);
      var c :| c in rooms[i] && items[k].x == c.0 * tileSize && items[k].y == c.1 * tileSize;
      assert RoomCell(g, c);
    }
  }

  /** The player's grid cell: `rect.centerx // tile_size`, `rect.centery // tile_size`. */
  function PlayerCell(center: (int, int), tileSize: int): (r: Pos)
    requires tileSize != 0
    ensures tileSize > 0 ==> r.0 * tileSize <= center.0 < r.0 * tileSize + tileSize
    ensures tileSize > 0 ==> r.1 * tileSize <= center.1 < r.1 * tileSize + tileSize
    ensures tileSize < 0 ==> r.0 * tileSize >= center.0 > r.0 * tileSize + tileSize
    ensures tileSize < 0 ==> r.1 * tileSize >= center.1 > r.1 * tileSize + tileSize
  {
    (FloorDiv(center.0, tileSize), FloorDiv(center.1, tileSize))
  }

  /** What `_identify_rooms` promises, read cell by cell: there are rooms
      exactly when some cell is a room cell, and every cell of a room is one. */
  lemma RoomsHoldRoomCells(g: Grid, rooms: seq<Region>)
    requires RegionsInOrder(g, rooms)
    requires forall c :: Floor(g, c) ==> (InSome(rooms, c) <==> |Component(g, c)| > MIN_ROOM_SIZE)
    ensures RoomsCells(g, rooms)
    ensures forall c :: Floor(g, c) ==> (InSome(rooms, c) <==> RoomCell(g, c))
    ensures rooms == [] <==> forall c :: !RoomCell(g, c)
    ensures rooms != [] ==> rooms[0] != [] && RoomCell(g, rooms[0][0])
  {
    forall i, c | 0 <= i < |rooms| && c in rooms[i]
      ensures RoomCell(g, c)
    {
      ReachableEnds(g, rooms[i][0], c);
    }
    if rooms != [] {
      assert rooms[0][0] in rooms[0];
      assert RoomCell(g, rooms[0][0]);
    }
  }

  /** The visited cells are the old ones and the region's, and the region
      holds distinct cells reachable from `s`, starting at `s`. */
  ghost predicate FillCells(g: Grid, visited: seq<seq<bool>>, s: Pos, seen: seq<seq<bool>>, region: Region) {
    && (forall c :: Marked(seen, c) <==> Marked(visited, c) || c in region)
    && NoDup(region)
    && (forall c :: c in region ==> Reachable(g, s, c))
    && (region != [] ==> region[0] == s)
    && (!Floor(g, s) || Marked(visited, s) ==> region == [])
  }

  /** Every queued cell is the seed or a neighbour of a region cell. */
  ghost predicate QueueNearRegion(s: Pos, region: Region, queue: seq<Pos>) {
    forall i :: 0 <= i < |queue| ==>
      queue[i] == s || exists j :: 0 <= j < |region| && Adjacent(region[j], queue[i])
  }

  /** Every floor neighbour of a region cell is visited or still queued. */
  ghost predicate FrontierQueued(g: Grid, seen: seq<seq<bool>>, region: Region, queue: seq<Pos>) {
    forall c, n :: c in region && Adjacent(c, n) && Floor(g, n) ==> Marked(seen, n) || n in queue
  }

  /** What the flood fill from `s` keeps while its queue is worked off. */
  ghost predicate FillInv(g: Grid, visited: seq<seq<bool>>, s: Pos, seen: seq<seq<bool>>, region: Region, queue: seq<Pos>) {
    && FillCells(g, visited, s, seen, region)
    && (Floor(g, s) && !Marked(visited, s) ==> region != [] || s in queue)
    && QueueNearRegion(s, region, queue)
    && FrontierQueued(g, seen, region, queue)
  }

  /** A queued cell that is visited or not floor is dropped. */
  lemma FillSkip(g: Grid, visited: seq<seq<bool>>, s: Pos, seen: seq<seq<bool>>, region: Region, queue: seq<Pos>)
    requires FillInv(g, visited, s, seen, region, queue) && queue != []
    requires Marked(seen, queue[0]) || !Floor(g, queue[0])
    ensures FillInv(g, visited, s, seen, region, queue[1..])
  {
    var q := queue[1..];
    assert forall i :: 0 <= i < |q| ==> q[i] == queue[i + 1];
    forall c, n | c in region && Adjacent(c, n) && Floor(g, n)
      ensures Marked(seen, n) || n in q
    {
      if n != queue[0] && !Marked(seen, n) {
        var i :| 0 <= i < |queue| && queue[i] == n;
        assert q[i - 1] == n;
      }
    }
  }

  /** The four cells `_flood_fill` queues after visiting `c`, in its order. */
  function Neighbours(c: Pos): seq<Pos> {
    [(c.0 + 1, c.1), (c.0 - 1, c.1), (c.0, c.1 + 1), (c.0, c.1 - 1)]
  }

  lemma VisitCells(g: Grid, visited: seq<seq<bool>>, s: Pos, seen: seq<seq<bool>>, region: Region, c: Pos)
    requires FillCells(g, visited, s, seen, region) && QueueNearRegion(s, region, [c])
    requires Floor(g, c) && !Marked(seen, c) && 0 <= c.1 < |seen| && 0 <= c.0 < |seen[c.1]|
    ensures FillCells(g, visited, s, Mark(seen, c), region + [c])
  {
    assert [c][0] == c;
    FillStep(g, s, region, c);
    NoDupAppend(region, c);
    assert region == [] ==> c == s;
  }

  lemma VisitQueue(s: Pos, region: Region, queue: seq<Pos>)
    requires QueueNearRegion(s, region, queue) && queue != []
    ensures QueueNearRegion(s, region + [queue[0]], queue[1..] + Neighbours(queue[0]))
  {
    var c := queue[0];
    var region' := region + [c];
    var queue' := queue[1..] + Neighbours(c);
    assert forall j :: 0 <= j < |region| ==> region'[j] == region[j];
    forall i | 0 <= i < |queue'|
      ensures queue'[i] == s || exists j :: 0 <= j < |region'| && Adjacent(region'[j], queue'[i])
    {
      if i < |queue| - 1 {
        assert queue'[i] == queue[i + 1];
      } else {
        assert Adjacent(region'[|region|], queue'[i]);
      }
    }
  }

  lemma VisitFrontier(g: Grid, seen: seq<seq<bool>>, region: Region, queue: seq<Pos>)
    requires FrontierQueued(g, seen, region, queue) && queue != []
    requires 0 <= queue[0].1 < |seen| && 0 <= queue[0].0 < |seen[queue[0].1]|
    ensures FrontierQueued(g, Mark(seen, queue[0]), region + [queue[0]], queue[1..] + Neighbours(queue[0]))
  {
    var c := queue[0];
    var seen' := Mark(seen, c);
    var queue' := queue[1..] + Neighbours(c);
    forall c', n | c' in region + [c] && Adjacent(c', n) && Floor(g, n)
      ensures Marked(seen', n) || n in queue'
    {
      if c' == c {
        AdjacentCases(c, n);
        assert n in Neighbours(c);
      } else if n != c && !Marked(seen, n) {
        var i :| 0 <= i < |queue| && queue[i] == n;
        assert queue'[i - 1] == n;
      }
    }
  }

  /** A queued cell that is unvisited floor joins the region, and its four
      neighbours join the queue. */
  lemma FillVisit(g: Grid, visited: seq<seq<bool>>, s: Pos, seen: seq<seq<bool>>, region: Region, queue: seq<Pos>)
    requires FillInv(g, visited, s, seen, region, queue) && queue != []
    requires Floor(g, queue[0]) && !Marked(seen, queue[0])
    requires 0 <= queue[0].1 < |seen| && 0 <= queue[0].0 < |seen[queue[0].1]|
    ensures FillInv(g, visited, s, Mark(seen, queue[0]), region + [queue[0]], queue[1..] + Neighbours(queue[0]))
  {
    assert QueueNearRegion(s, region, [queue[0]]);
    VisitCells(g, visited, s, seen, region, queue[0]);
    VisitQueue(s, region, queue);
    VisitFrontier(g, seen, region, queue);
  }

  /** What the search of `_identify_rooms` keeps: the visited cells are the
      old ones, the room's and the queued ones; room and queue hold distinct
      cells reachable from `s`; the room starts at `s`. */
  ghost predicate RoomCells(g: Grid, visited: seq<seq<bool>>, s: Pos, seen: seq<seq<bool>>, room: Region, queue: seq<Pos>) {
    && (forall c :: Marked(seen, c) <==> Marked(visited, c) || c in room || c in queue)
    && NoDup(room + queue)
    && (forall c :: c in room + queue ==> Reachable(g, s, c))
    && (room == [] ==> queue == [s])
    && (room != [] ==> room[0] == s)
  }

  /** Every floor neighbour of a room cell is visited. */
  ghost predicate RoomClosed(g: Grid, seen: seq<seq<bool>>, room: Region) {
    forall c, n :: c in room && Adjacent(c, n) && Floor(g, n) ==> Marked(seen, n)
  }

  /** The first `d` neighbours of `c`, in DIRS order, are visited if they are floor. */
  ghost predicate DirsMarked(g: Grid, seen: seq<seq<bool>>, c: Pos, d: int) {
    forall e :: 0 <= e < d && e < |DIRS| ==> Floor(g, Step(c, DIRS[e])) ==> Marked(seen, Step(c, DIRS[e]))
  }

  /** Taking the head of the queue into the room keeps the room-and-queue facts. */
  lemma RoomPop(g: Grid, visited: seq<seq<bool>>, s: Pos, seen: seq<seq<bool>>, room: Region, queue: seq<Pos>)
    requires RoomCells(g, visited, s, seen, room, queue) && RoomClosed(g, seen, room) && queue != []
    ensures RoomCells(g, visited, s, seen, room + [queue[0]], queue[1..])
    ensures RoomClosed(g, seen, (room + [queue[0]])[..|room|])
  {
    assert room + queue == (room + [queue[0]]) + queue[1..];
    assert (room + [queue[0]])[..|room|] == room;
    assert room == [] ==> queue[0] == s;
    forall c | c in room + [queue[0]] || c in queue[1..]
      ensures c in room + queue
    {
    }
    forall c | c in room + queue
      ensures c in room + [queue[0]] || c in queue[1..]
    {
    }
  }

  /** Queuing an unvisited floor neighbour of a room cell. */
  lemma RoomPush(g: Grid, visited: seq<seq<bool>>, s: Pos, seen: seq<seq<bool>>, room: Region, queue: seq<Pos>, n: Pos)
    requires RoomCells(g, visited, s, seen, room, queue) && room != []
    requires Floor(g, n) && !Marked(seen, n) && Adjacent(room[|room| - 1], n)
    requires 0 <= n.1 < |seen| && 0 <= n.0 < |seen[n.1]|
    ensures RoomCells(g, visited, s, Mark(seen, n), room, queue + [n])
  {
    var c := room[|room| - 1];
    assert c in room + queue;
    ReachableStep(g, s, c, n);
    assert n !in room + queue;
    NoDupAppend(room + queue, n);
    assert room + (queue + [n]) == (room + queue) + [n];
  }

  /** Visiting one more cell keeps the visited facts. */
  lemma MarkKeepsRoomClosed(g: Grid, seen: seq<seq<bool>>, room: Region, c: Pos, d: int, n: Pos)
    requires RoomClosed(g, seen, room) && DirsMarked(g, seen, c, d)
    requires 0 <= d < |DIRS| && n == Step(c, DIRS[d])
    requires 0 <= n.1 < |seen| && 0 <= n.0 < |seen[n.1]|
    ensures RoomClosed(g, Mark(seen, n), room) && DirsMarked(g, Mark(seen, n), c, d + 1)
  {
  }

  /** Once all four neighbours of the last room cell are handled, the whole room is closed. */
  lemma RoomCloseLast(g: Grid, seen: seq<seq<bool>>, room: Region)
    requires room != [] && RoomClosed(g, seen, room[..|room| - 1]) && DirsMarked(g, seen, room[|room| - 1], 4)
    ensures RoomClosed(g, seen, room)
  {
    var c := room[|room| - 1];
    forall c', n | c' in room && Adjacent(c', n) && Floor(g, n)
      ensures Marked(seen, n)
    {
      if c' == c {
        AdjacentCases(c, n);
        assert n == Step(c, DIRS[0]) || n == Step(c, DIRS[1]) || n == Step(c, DIRS[2]) || n == Step(c, DIRS[3]);
      } else {
        assert room == room[..|room| - 1] + [c];
        assert c' in room[..|room| - 1];
      }
    }
  }

  /** A cell taken off the flood-fill queue that is unvisited floor is
      reachable from the seed: it is the seed itself or a neighbour of a
      region cell. */
  lemma FillStep(g: Grid, s: Pos, region: Region, c: Pos)
    requires Floor(g, c)
    requires forall c' :: c' in region ==> Reachable(g, s, c')
    requires c == s || exists j :: 0 <= j < |region| && Adjacent(region[j], c)
    ensures Reachable(g, s, c)
  {
    if c == s {
      ReachableRefl(g, s);
    } else {
      var j :| 0 <= j < |region| && Adjacent(region[j], c);
      ReachableStep(g, s, region[j], c);
    }
  }

  /** Pair (i, j) comes before pair (i', j') in the double loop over region1 x region2. */
  predicate PairBefore(i: int, j: int, i': int, j': int) {
    i < i' || (i == i' && j < j')
  }

  /** Every pair met before (i, j) is at least `d` apart, or, `strict`, more than `d`. */
  ghost predicate PairsBeforeFarther(region1: Region, region2: Region, d: nat, i: int, j: int, strict: bool) {
    forall i', j' :: 0 <= i' < |region1| && 0 <= j' < |region2| && PairBefore(i', j', i, j) ==>
      if strict then d < Manhattan(region1[i'], region2[j']) else d <= Manhattan(region1[i'], region2[j'])
  }

  /** (region1[i], region2[j]) is the pair the double loop settles on: no pair is
      closer, and every pair met earlier is strictly farther. */
  ghost predicate FirstClosest(region1: Region, region2: Region, i: int, j: int)
    requires 0 <= i < |region1| && 0 <= j < |region2|
  {
    var d := Manhattan(region1[i], region2[j]);
    && PairsBeforeFarther(region1, region2, d, |region1|, 0, false)
    && PairsBeforeFarther(region1, region2, d, i, j, true)
  }

  /** One more pair in scan order keeps the bound when that pair obeys it. */
  lemma FartherNext(region1: Region, region2: Region, d: nat, i: int, j: int, strict: bool)
    requires 0 <= i < |region1| && 0 <= j < |region2|
    requires PairsBeforeFarther(region1, region2, d, i, j, strict)
    requires if strict then d < Manhattan(region1[i], region2[j]) else d <= Manhattan(region1[i], region2[j])
    ensures PairsBeforeFarther(region1, region2, d, i, j + 1, strict)
  {
  }

  /** Past the end of a row, the scan continues at the start of the next one. */
  lemma FartherRowEnd(region1: Region, region2: Region, d: nat, i: int)
    requires PairsBeforeFarther(region1, region2, d, i, |region2|, false)
    ensures PairsBeforeFarther(region1, region2, d, i + 1, 0, false)
  {
  }

  /** Pairs at least `d` apart are strictly farther than any smaller distance. */
  lemma FartherThanCloser(region1: Region, region2: Region, d: nat, d': nat, i: int, j: int)
    requires d' < d && PairsBeforeFarther(region1, region2, d, i, j, false)
    ensures PairsBeforeFarther(region1, region2, d', i, j, true)
  {
  }

  /** The index pair the double loop of `_connect_two_regions` settles on when
      it resumes at pair (i, j) holding `best`: a pair replaces the best only
      when strictly closer, so the first of equally close pairs stays. */
  function ClosestFrom(region1: Region, region2: Region, i: nat, j: nat, best: Option<(nat, nat)>): (r: Option<(nat, nat)>)
    requires j <= |region2|
    requires best.Some? ==> best.value.0 < |region1| && best.value.1 < |region2|
    ensures r.Some? ==> r.value.0 < |region1| && r.value.1 < |region2|
    ensures best.Some? ==> r.Some?
    decreases |region1| - i, |region2| - j
  {
    if i >= |region1| then best
    else if j == |region2| then ClosestFrom(region1, region2, i + 1, 0, best)
    else
      var d := Manhattan(region1[i], region2[j]);
      var closer := best.None? || d < Manhattan(region1[best.value.0], region2[best.value.1]);
      ClosestFrom(region1, region2, i, j + 1, if closer then Some((i, j)) else best)
  }

  /** The indices of the pair the search of `_connect_two_regions` picks. */
  function ClosestIndices(region1: Region, region2: Region): (r: Option<(nat, nat)>)
    ensures r.Some? ==> r.value.0 < |region1| && r.value.1 < |region2|
  {
    ClosestFrom(region1, region2, 0, 0, None)
  }

  /** The cells at the picked indices: the pair `_connect_two_regions` tunnels between. */
  function ClosestCells(region1: Region, region2: Region): (r: Option<(Pos, Pos)>)
    ensures r.Some? ==> r.value.0 in region1 && r.value.1 in region2
  {
    CellsAt(region1, region2, ClosestIndices(region1, region2))
  }

  function CellsAt(region1: Region, region2: Region, ij: Option<(nat, nat)>): Option<(Pos, Pos)>
    requires ij.Some? ==> ij.value.0 < |region1| && ij.value.1 < |region2|
  {
    match ij
    case None => None
    case Some((i, j)) => Some((region1[i], region2[j]))
  }

  /** The search picks a pair exactly when both regions have cells, and the
      pair it picks is the first closest one. */
  lemma ClosestIndicesFirst(region1: Region, region2: Region)
    ensures ClosestIndices(region1, region2).None? <==> region1 == [] || region2 == []
    ensures ClosestIndices(region1, region2).Some? ==>
      FirstClosest(region1, region2, ClosestIndices(region1, region2).value.0, ClosestIndices(region1, region2).value.1)
  {
    if region2 == [] {
      NoColumnsNoPair(region1, region2, 0);
    } else if region1 != [] {
      assert ClosestIndices(region1, region2) == ClosestFrom(region1, region2, 0, 1, Some((0, 0)));
      ClosestFromFirst(region1, region2, 0, 1, 0, 0);
    }
  }

  lemma {:induction false} NoColumnsNoPair(region1: Region, region2: Region, i: nat)
    requires region2 == []
    ensures ClosestFrom(region1, region2, i, 0, None).None?
    decreases |region1| - i
  {
    if i < |region1| {
      NoColumnsNoPair(region1, region2, i + 1);
    }
  }

  /** Resuming at (i, j) with a best pair that is strictly closer than every
      earlier pair and no farther than any pair before (i, j), the search ends
      on the first closest pair. */
  lemma {:induction false} ClosestFromFirst(region1: Region, region2: Region, i: nat, j: nat, bi: nat, bj: nat)
    requires bi < |region1| && bj < |region2| && i <= |region1| && j <= |region2| && (i == |region1| ==> j == 0)
    requires PairsBeforeFarther(region1, region2, Manhattan(region1[bi], region2[bj]), i, j, false)
    requires PairsBeforeFarther(region1, region2, Manhattan(region1[bi], region2[bj]), bi, bj, true)
    ensures ClosestFrom(region1, region2, i, j, Some((bi, bj))).Some?
    ensures FirstClosest(region1, region2, ClosestFrom(region1, region2, i, j, Some((bi, bj))).value.0,
      ClosestFrom(region1, region2, i, j, Some((bi, bj))).value.1)
    decreases |region1| - i, |region2| - j
  {
    var d := Manhattan(region1[bi], region2[bj]);
    if i == |region1| {
    } else if j == |region2| {
      FartherRowEnd(region1, region2, d, i);
      ClosestFromFirst(region1, region2, i + 1, 0, bi, bj);
    } else {
      var e := Manhattan(region1[i], region2[j]);
      if e < d {
        FartherThanCloser(region1, region2, d, e, i, j);
        StrictlyFarther(region1, region2, e, i, j);
        FartherNext(region1, region2, e, i, j, false);
        ClosestFromFirst(region1, region2, i, j + 1, i, j);
      } else {
        FartherNext(region1, region2, d, i, j, false);
        ClosestFromFirst(region1, region2, i, j + 1, bi, bj);
      }
    }
  }

  /** Pairs more than `d` apart are at least `d` apart. */
  lemma StrictlyFarther(region1: Region, region2: Region, d: nat, i: int, j: int)
    requires PairsBeforeFarther(region1, region2, d, i, j, true)
    ensures PairsBeforeFarther(region1, region2, d, i, j, false)
  {
  }

  /** The search of `_connect_two_regions`: a pair minimising the Manhattan
      distance, the first found on a tie, or none when a region is empty. */
  method ClosestPair(region1: Region, region2: Region) returns (pair: Option<(Pos, Pos)>)
    ensures pair == ClosestCells(region1, region2)
    ensures pair.None? <==> region1 == [] || region2 == []
    ensures pair.Some? ==>
      exists i, j :: 0 <= i < |region1| && 0 <= j < |region2| &&
        pair.value == (region1[i], region2[j]) && FirstClosest(region1, region2, i, j)
  {
    pair := None;
    var minDistance: nat := 0;
    ghost var best: Option<(nat, nat)> := None;
    var i := 0;
    while i < |region1|
      invariant 0 <= i <= |region1|
      invariant best.Some? ==> best.value.0 < |region1| && best.value.1 < |region2|
      invariant best.Some? ==> minDistance == Manhattan(region1[best.value.0], region2[best.value.1])
      invariant pair == CellsAt(region1, region2, best)
      invariant ClosestFrom(region1, region2, i, 0, best) == ClosestIndices(region1, region2)
    {
      var j := 0;
      while j < |region2|
        invariant 0 <= j <= |region2|
        invariant best.Some? ==> best.value.0 < |region1| && best.value.1 < |region2|
        invariant best.Some? ==> minDistance == Manhattan(region1[best.value.0], region2[best.value.1])
        invariant pair == CellsAt(region1, region2, best)
        invariant ClosestFrom(region1, region2, i, j, best) == ClosestIndices(region1, region2)
      {
        var distance := Manhattan(region1[i], region2[j]);
        if pair.None? || distance < minDistance {
          minDistance := distance;
          pair := Some((region1[i], region2[j]));
          best := Some((i, j));
        }
        j := j + 1;
      }
      i := i + 1;
    }
    ClosestIndicesFirst(region1, region2);
  }

  // ---------------------------------------------------------------------
  // The grid after region connection

  /** Every cell of `r` lies on a `w` by `h` grid. */
  predicate CellsIn(r: Region, w: int, h: int) {
    forall c :: c in r ==> 0 <= c.0 < w && 0 <= c.1 < h
  }

  predicate AllCellsIn(regions: seq<Region>, w: int, h: int) {
    forall r :: r in regions ==> CellsIn(r, w, h)
  }

  /** The regions of a scan lie on the grid. */
  lemma RegionsCellsIn(g: Grid, w: nat, regions: seq<Region>)
    requires IsGrid(g, w, |g|) && RegionsInOrder(g, regions)
    ensures AllCellsIn(regions, w, |g|)
  {
    forall r | r in regions
      ensures CellsIn(r, w, |g|)
    {
      var i :| 0 <= i < |regions| && regions[i] == r;
      RegionInBounds(g, g, w, r);
    }
  }

  lemma SortedCellsIn(regions: seq<Region>, sorted: seq<Region>, w: int, h: int)
    requires AllCellsIn(regions, w, h) && multiset(sorted) == multiset(regions)
    ensures forall k :: 0 <= k < |sorted| ==> CellsIn(sorted[k], w, h)
  {
    forall k | 0 <= k < |sorted|
      ensures CellsIn(sorted[k], w, h)
    {
      assert sorted[k] in multiset(regions);
    }
  }

  /** How many random values `_connect_two_regions` draws. */
  function TunnelDraws(region1: Region, region2: Region): nat {
    if region1 != [] && region2 != [] then 1 else 0
  }

  /** The grid `_connect_two_regions` leaves: the L-shaped tunnel between the
      closest pair, horizontal leg first when the coin says so, or the grid as
      it was when a region is empty. (The pair lies on the grid whenever the
      regions do; the bounds test only makes the function total.) */
  function Tunnelled(g: Grid, w: nat, region1: Region, region2: Region, horizontalFirst: bool): (r: Grid)
    ensures IsGrid(g, w, |g|) ==> IsGrid(r, w, |g|)
  {
    match ClosestCells(region1, region2)
    case None => g
    case Some((p1, p2)) =>
      if IsGrid(g, w, |g|) && InBounds(g, p1) && InBounds(g, p2) then LTunnel(g, w, p1, p2, horizontalFirst) else g
  }

  /** The grid after `_connect_two_regions(main, region)` for each region of
      `rest` in turn, the coin of each tunnel being the next draw from `d` on. */
  function JoinAll(g: Grid, w: nat, main: Region, rest: seq<Region>, rng: nat -> nat, d: nat): (r: Grid)
    ensures IsGrid(g, w, |g|) ==> IsGrid(r, w, |g|)
    decreases |rest|
  {
    if rest == [] then g
    else
      var g' := Tunnelled(g, w, main, rest[0], rng(d) % 2 == 0);
      JoinAll(g', w, main, rest[1..], rng, d + TunnelDraws(main, rest[0]))
  }

  /** One step of the fold: the first tunnel, then the rest. */
  lemma JoinAllStep(g: Grid, g': Grid, w: nat, main: Region, rest: seq<Region>, rng: nat -> nat, d: nat)
    requires main != [] && rest != [] && rest[0] != []
    requires g' == Tunnelled(g, w, main, rest[0], rng(d) % 2 == 0)
    ensures JoinAll(g, w, main, rest, rng, d) == JoinAll(g', w, main, rest[1..], rng, d + 1)
  {
  }

  /** The grid `_connect_regions` leaves, given the regions its scan found:
      with more than one, the largest (the first of those) is the main region
      and every other one, in sorted order, is tunnelled to it. */
  function ConnectAll(g: Grid, w: nat, regions: seq<Region>, rng: nat -> nat, d: nat): (r: Grid)
    ensures IsGrid(g, w, |g|) ==> IsGrid(r, w, |g|)
  {
    if |regions| <= 1 then g
    else
      var sorted := SortBySize(regions);
      JoinAll(g, w, sorted[0], sorted[1..], rng, d)
  }

  /** The grid has no room cell: `_identify_rooms` finds no room in it. */
  ghost predicate NoRoomCell(g: Grid) {
    forall c :: !RoomCell(g, c)
  }

  /** One pass of the `generate_dungeon` loop: the draw of its seed, the
      grid it carves and the regions the scan finds in its caves. */
  datatype Pass = Pass(seed: nat, grid: Grid, regions: seq<Region>)

  /** A chain of passes from draw `d`: each pass is `carved`, the first seed
      is draw `d`, and every pass but the last has a `failed` grid and hands
      the next pass the draw after its `Max(1, |regions|)` draws. */
  ghost predicate PassChain(carved: Pass -> bool, failed: Grid -> bool, d: nat, ps: seq<Pass>) {
    && (ps != [] ==> ps[0].seed == d)
    && (forall p :: p in ps ==> carved(p))
    && (forall k :: 0 <= k < |ps| - 1 ==> failed(ps[k].grid) && ps[k + 1].seed == ps[k].seed + Max(1, |ps[k].regions|))
  }

  /** Failed passes from draw `d`, all `carved` and `failed`, chained as in
      `PassChain`, after which the next seed is drawn at `next`. */
  ghost predicate FailedChain(carved: Pass -> bool, failed: Grid -> bool, d: nat, ps: seq<Pass>, next: nat) {
    && PassChain(carved, failed, d, ps)
    && (forall p :: p in ps ==> failed(p.grid))
    && next == (if ps == [] then d else ps[|ps| - 1].seed + Max(1, |ps[|ps| - 1].regions|))
  }

  /** A further failed pass, seeded at `next`, extends the failed ones. */
  lemma FailedChainExtend(carved: Pass -> bool, failed: Grid -> bool, d: nat, ps: seq<Pass>, next: nat, p: Pass)
    requires FailedChain(carved, failed, d, ps, next) && p.seed == next && carved(p) && failed(p.grid)
    ensures FailedChain(carved, failed, d, ps + [p], p.seed + Max(1, |p.regions|))
  {
    var ps' := ps + [p];
    forall k | 0 <= k < |ps'| - 1
      ensures failed(ps'[k].grid) && ps'[k + 1].seed == ps'[k].seed + Max(1, |ps'[k].regions|)
    {
      assert ps'[k] == ps[k];
      if k + 1 < |ps| {
        assert ps'[k + 1] == ps[k + 1];
      } else {
        assert ps'[k + 1] == p;
      }
    }
  }

  /** A last pass, seeded at `next`, closes the failed ones into a chain. */
  lemma FailedChainClose(carved: Pass -> bool, failed: Grid -> bool, d: nat, ps: seq<Pass>, next: nat, p: Pass)
    requires FailedChain(carved, failed, d, ps, next) && p.seed == next && carved(p)
    ensures PassChain(carved, failed, d, ps + [p])
  {
    var ps' := ps + [p];
    forall k | 0 <= k < |ps'| - 1
      ensures failed(ps'[k].grid) && ps'[k + 1].seed == ps'[k].seed + Max(1, |ps'[k].regions|)
    {
      assert ps'[k] == ps[k] && ps'[k] in ps;
      if k + 1 < |ps| {
        assert ps'[k + 1] == ps[k + 1];
      } else {
        assert ps'[k + 1] == p;
      }
    }
  }

  /** Pass `p` was carved from its seed. */
  ghost predicate CarvedPass(pnoise: (real, real, int) -> real, w: nat, h: nat, rng: nat -> nat, p: Pass) {
    Carved(p.grid, pnoise, w, h, rng, p.seed, p.regions)
  }

  /** The passes of `generate_dungeon` from draw `d`: each carves its grid
      from the seed drawn at its `seed`; the first seed is draw `d`, and
      every pass but the last finds no room and leaves the next seed right
      after its tunnel coins. */
  ghost predicate Passes(pnoise: (real, real, int) -> real, w: nat, h: nat, rng: nat -> nat, d: nat, ps: seq<Pass>) {
    PassChain((p: Pass) => CarvedPass(pnoise, w, h, rng, p), NoRoomCell, d, ps)
  }

  /** The failed passes of `generate_dungeon` from draw `d`, after which
      the next seed is drawn at `next`. */
  ghost predicate FailedPasses(pnoise: (real, real, int) -> real, w: nat, h: nat, rng: nat -> nat, d: nat, ps: seq<Pass>, next: nat) {
    FailedChain((p: Pass) => CarvedPass(pnoise, w, h, rng, p), NoRoomCell, d, ps, next)
  }

  /** Pass `k` of a chain was carved, and it failed unless it is the last. */
  lemma PassChainAt(carved: Pass -> bool, failed: Grid -> bool, d: nat, ps: seq<Pass>, k: nat)
    requires PassChain(carved, failed, d, ps) && k < |ps|
    ensures carved(ps[k])
    ensures k + 1 < |ps| ==> failed(ps[k].grid) && ps[k + 1].seed == ps[k].seed + Max(1, |ps[k].regions|)
  {
    assert ps[k] in ps;
  }

  /** Reading `Passes` pass by pass: the first seed is draw `d`; pass `k`
      carves its grid from its seed; every pass before the last finds no
      room, and the next seed follows its tunnel coins. */
  lemma PassesAt(pnoise: (real, real, int) -> real, w: nat, h: nat, rng: nat -> nat, d: nat, ps: seq<Pass>, k: nat)
    requires Passes(pnoise, w, h, rng, d, ps) && k < |ps|
    ensures ps[0].seed == d
    ensures Carved(ps[k].grid, pnoise, w, h, rng, ps[k].seed, ps[k].regions)
    ensures k + 1 < |ps| ==> NoRoomCell(ps[k].grid) && ps[k + 1].seed == ps[k].seed + Max(1, |ps[k].regions|)
  {
    PassChainAt((p: Pass) => CarvedPass(pnoise, w, h, rng, p), NoRoomCell, d, ps, k);
  }

  lemma FailedPassesStart(pnoise: (real, real, int) -> real, w: nat, h: nat, rng: nat -> nat, d: nat)
    ensures FailedPasses(pnoise, w, h, rng, d, [], d)
  {
  }

  /** A pass seeded at `next` that finds no room is one more failed pass. */
  lemma FailedPassesExtend(pnoise: (real, real, int) -> real, w: nat, h: nat, rng: nat -> nat, d: nat, ps: seq<Pass>,
                           next: nat, g: Grid, r: seq<Region>)
    requires FailedPasses(pnoise, w, h, rng, d, ps, next)
    requires Carved(g, pnoise, w, h, rng, next, r) && NoRoomCell(g)
    ensures FailedPasses(pnoise, w, h, rng, d, ps + [Pass(next, g, r)], next + Max(1, |r|))
  {
    FailedChainExtend((p: Pass) => CarvedPass(pnoise, w, h, rng, p), NoRoomCell, d, ps, next, Pass(next, g, r));
  }

  /** The pass seeded at `next` after the failed ones is the last. */
  lemma FailedPassesClose(pnoise: (real, real, int) -> real, w: nat, h: nat, rng: nat -> nat, d: nat, ps: seq<Pass>,
                          next: nat, g: Grid, r: seq<Region>)
    requires FailedPasses(pnoise, w, h, rng, d, ps, next)
    requires Carved(g, pnoise, w, h, rng, next, r)
    ensures Passes(pnoise, w, h, rng, d, ps + [Pass(next, g, r)])
  {
    FailedChainClose((p: Pass) => CarvedPass(pnoise, w, h, rng, p), NoRoomCell, d, ps, next, Pass(next, g, r));
  }






  /** `g` is what the grid stages of `generate_dungeon` make when the seed is
      draw `d`: the caves of that seed, with `regions` (the regions the scan
      finds in them, in scan order) connected by tunnels whose coins are the
      draws after `d`. */
  ghost predicate Carved(g: Grid, pnoise: (real, real, int) -> real, w: nat, h: nat, rng: nat -> nat, d: nat, regions: seq<Region>)
  {
    var caves := CavedGrid(pnoise, w, h, rng(d) % 10001);
    && RegionsOf(caves, regions) && AllCellsIn(regions, w, h)
    && g == ConnectAll(caves, w, regions, rng, d + 1)
  }
}
