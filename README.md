# Dungeon generation and item pick-up, modelled in Dafny

This project models the level generator of a small top-down dungeon game, plus the effect of picking up an item.

`DungeonGenerator` works on a `height` × `width` grid of walls (1) and floor (0). It builds the grid in stages:

1. It seeds the grid from Perlin noise.
2. It smooths the grid five times with a cellular automaton. A wall stays a wall when its edge-clamped 3×3 block holds at least 4 walls. Any other cell becomes a wall when the block holds at least 5.
3. It walls the border.
4. It flood-fills the floor into regions and sorts them largest first. It then digs an L-shaped tunnel from the largest region to every other one, between the closest pair of cells (Manhattan distance, first pair found wins on a tie).

Two queries then run on the finished grid:
- Rooms are the floor components with more than 20 cells.
- Start and exit cells are picked from the first and last room. A cell all of whose four neighbours are floor is preferred; otherwise the room's first cell is used.

The level map turns walls into 1 and floor into 2. `spawn_enemies` and `spawn_items` scatter enemies and items over random room cells. Enemies keep a squared distance of more than 25 cells from the player, with at most 50 tries per enemy.

`Item.collect` marks the item as collected. It then applies the item's effect:
- health: +25, capped at the maximum;
- speed: +50;
- attack power: +10.

It also records the item in the inventory and adds 50 to the score.

The model is imperative where the source is. The generator is a class whose `grid` field each stage rewrites in place, and every loop of the source is a loop with invariants. Each method is proved against a specification function:
- the noise grid `NoiseGrid`;
- the cellular-automaton step `Smooth` and its repetition `SmoothN`;
- the tunnels `HCarve`, `VCarve` and `LTunnel`;
- the border `Bordered`, and `CavedGrid`, the grid these stages make from a seed;
- the closest pair `ClosestCells`, the tunnel between two regions `Tunnelled`, the fold of those tunnels `JoinAll`, and `ConnectAll`, the whole of `_connect_regions`;
- `Carved`, the grid stages of `generate_dungeon` together;
- the size sort `SortBySize`;
- the room filter `BigOnly`;
- the open cells `OpenCells`.

The properties promised by the source and its design are proved about those functions:
- After `_connect_regions` the floor is a single 4-connected component.
- No floor cell is ever lost, and the border stays walled.
- Rooms are exactly the floor cells of components larger than 20 cells.
- The exit is reachable from the start.

One consequence, proved in `GenerateAttempt`: once the regions are connected there is at most one region, so there is at most one room. Whenever a level is produced, start and exit are taken from that single room.

Random numbers are a stream `rng: nat -> nat` fixed when the generator is built. A counter `draws` counts how many values the methods have used:
- `random.choice(xs)` is `xs[rng(k) % |xs|]`;
- `random.random() < 0.5` is `rng(k) % 2 == 0`;
- `random.randint(0, 10000)` is `rng(k) % 10001`.

The noise function `noise.pnoise2` is a parameter `pnoise` of the generation methods.

Modules:
- `Tiles` (tiles.dfy) defines grids, floor, adjacency, paths, reachability, the scan order, visited matrices and the border.
- `CellularAutomaton` (automaton.dfy) holds the smoothing step.
- `Tunnels` (tunnels.dfy) holds straight and L-shaped tunnels.
- `Regions` (regions.dfy) holds flood-fill regions, the row-major scan, the size sort and the room filter.
- `Joining` (joining.dfy) explains why connecting leaves one component.
- `Level` (level.dfy) is the generator class.
- `Items` (item.dfy) holds the item and the stats it changes.

## Model

| member | source | states |
|---|---|---|
| Level.DungeonGenerator.constructor | level.py:8-12 | the grid has `height` rows of `width` cells, all 0 |
| Level.DungeonGenerator.Choose | level.py:248 | `random.choice` returns the element at the drawn value modulo the length and uses one draw |
| Level.DungeonGenerator.Coin | level.py:195 | `random.random() < 0.5` is one draw read as a fair coin |
| Level.DungeonGenerator.RandInt | level.py:55 | `random.randint(lo, hi)` lies in the closed range and uses one draw |
| Level.NoiseCell | level.py:59-62 | a cell is a wall exactly when the noise at (x/10, y/10) for the seed is above the wall chance, and floor otherwise |
| Level.DungeonGenerator.InitializeRandom | level.py:53-62 | one seed in 0..10000 is drawn, and every cell is set from the noise at that seed (the grid is `NoiseGrid` of the seed); the grid holds only walls and floor |
| Level.DungeonGenerator.CountWalls | level.py:70-75 | the double loop counts the walls of the 3×3 block clipped at the grid edges (`WallCount`) |
| CellularAutomaton.SmoothN | level.py:19-21 | any number of steps keeps the grid's shape, and after at least one step the grid holds only walls and floor |
| CellularAutomaton.NextCell | level.py:77-83 | the result is a wall exactly when a wall has at least 4 walls in its block, or another cell has at least 5 |
| Level.DungeonGenerator.ApplyCellularAutomata | level.py:64-85 | the new grid is the rule applied to every cell of the OLD grid (`Smooth`), so updates never see each other |
| CellularAutomaton.SmoothMonotone | level.py:64-85 | a grid with walls wherever another has them keeps that relation after a step |
| CellularAutomaton.OpenGridStable | level.py:64-85 | a grid without walls is unchanged by a step |
| CellularAutomaton.SolidGridStable | level.py:64-85 | an all-wall grid at least 2×2 is unchanged, because even a clipped corner block holds 4 walls |
| CellularAutomaton.NarrowGridOpens | level.py:72-83 | in a grid one cell wide every block holds at most 3 cells, so one step turns every cell to floor |
| CellularAutomaton.WallCountAtMostNine | level.py:72-75 | the clipped block count is at most 9 |
| Level.DungeonGenerator.AddBorderWalls | level.py:87-95 | the grid becomes `Bordered` of the old grid: every border cell is a wall, and nothing else changes |
| Level.DungeonGenerator.WallTopAndBottom | level.py:89-91 | exactly the cells of the top and bottom rows become walls; it needs a row whenever there is a column |
| Level.DungeonGenerator.WallSides | level.py:93-95 | exactly the cells of the first and last columns become walls; it needs a column whenever there is a row |
| Level.CavedGrid | level.py:16-24 | the grid before connection (noise for the seed, five steps, border) has the map's shape, only walls and floor, and a walled border |
| Level.BorderedWalls | level.py:87-95 | after bordering, the border is walled and every interior cell keeps its value |
| Level.BorderedIdempotent | level.py:87-95 | walling the border twice gives the same grid as once |
| Level.DungeonGenerator.CreateHorizontalTunnel | level.py:204-207 | exactly the cells of row y between min(x1, x2) and max(x1, x2) become floor (`HCarve`) |
| Level.DungeonGenerator.CreateVerticalTunnel | level.py:209-212 | exactly the cells of column x between min(y1, y2) and max(y1, y2) become floor (`VCarve`) |
| Level.DungeonGenerator.CreateTunnel | level.py:189-202 | one coin draw chooses row-then-column or column-then-row, and the grid becomes that L tunnel (`LTunnel`) |
| Tunnels.TunnelReach | level.py:189-212 | every tunnel cell is reachable from pos1 over floor after carving |
| Tunnels.TunnelConnects | level.py:189-202 | either way round, pos2 is reachable from pos1 after carving |
| Tunnels.TunnelKeepsFloor | level.py:204-212 | carving never turns floor into wall, and keeps a grid of walls and floor so |
| Tunnels.TunnelKeepsBorder | level.py:189-212 | a tunnel between two interior cells leaves a walled border walled |
| Level.DungeonGenerator.FloodFill | level.py:150-170 | from an unvisited floor cell, the region starts at that cell, holds distinct cells reachable from it, and is its whole component; from any other cell the region is empty; visited cells are the old ones plus the region |
| Level.DungeonGenerator.ExploreRoom | level.py:105-120 | the breadth-first search from an unvisited floor cell returns that cell first, distinct cells, and exactly its component; the visited cells are the old ones plus the room |
| Level.DungeonGenerator.QueueNeighbours | level.py:114-120 | every in-bounds unvisited floor neighbour of the last room cell is marked and queued |
| Level.DungeonGenerator.IdentifyRooms | level.py:97-125 | the rooms are disjoint components in row-major order of their first cells, each first cell row-major-first in its room, each with more than 20 cells; a floor cell lies in a room exactly when its component has more than 20 cells |
| Level.DungeonGenerator.IdentifyRoomsInRow | level.py:103-123 | one row of the scan keeps the scan invariant, and the rooms are the large regions found so far |
| Level.DungeonGenerator.IdentifyRoomAt | level.py:104-123 | an unvisited floor cell adds its component as a region, and as a room when it has more than 20 cells |
| Regions.ScanAdd | level.py:104-123 | a flood fill from the unvisited floor cell at the cursor adds a disjoint, later-headed region and moves the cursor on |
| Regions.ScanDone | level.py:102-125 | a scan past the last row has found every floor cell |
| Regions.BigOnlyInOrder | level.py:122-123 | keeping only the large regions keeps them disjoint and in scan order |
| Regions.BigOnlyComponents | level.py:122-125 | of a complete scan, the kept regions hold exactly the floor cells whose component has more than 20 cells |
| Regions.RegionSize | level.py:122 | a region has as many cells as the component of any of its cells |
| Regions.ConnectedHasOneRegion | level.py:27-30 | when the floor is one component, a scan finds at most one region |
| Level.DungeonGenerator.CollectRegions | level.py:129-138 | the scan of `_connect_regions` lists every floor component once, disjoint, in row-major order of their first cells |
| Level.DungeonGenerator.CollectRegionsInRow | level.py:133-138 | one row of that scan keeps the scan invariant |
| Level.DungeonGenerator.CollectRegionAt | level.py:135-138 | one cell of that scan adds a new region or leaves the list alone |
| Regions.SortBySize | level.py:143 | the sorted list is a permutation of the regions, in non-increasing size |
| Regions.InsertBySize | level.py:143 | insertion adds exactly the one region to the list; it goes first when the list is empty or its head is smaller, and otherwise the head stays first |
| Regions.InsertBySizeSplits | level.py:143 | insertion splices the region in at one index: every region before it is at least as large, the one after it is smaller, and the list is otherwise unchanged |
| Regions.InsertStable | level.py:143 | inserting into a sorted list appends the region to the regions of its size and leaves the regions of every other size as they were |
| Regions.SortBySizeStable | level.py:143 | for every size, the sorted list holds the regions of that size in their scan order, as Python's stable `sorted` does |
| Regions.FirstLargest | level.py:143-146 | the index of the first region of greatest size |
| Regions.SortPutsFirstLargestFirst | level.py:143-146 | the main region is the first region of greatest size, as the stable descending sort gives |
| Level.ClosestIndicesFirst | level.py:174-185 | the scan over all pairs, written as a function, finds no pair exactly when a region is empty, and otherwise the first pair of least Manhattan distance |
| Level.ClosestPair | level.py:174-185 | the loops compute `ClosestCells`; no pair is found exactly when a region is empty; otherwise the pair minimises the Manhattan distance, and every pair met earlier is strictly farther |
| Level.DungeonGenerator.ConnectTwoRegions | level.py:172-187 | with both regions non-empty, one draw is used and an L tunnel is dug between the first closest pair; otherwise nothing changes; the new grid is `Tunnelled` of the old one with that coin |
| Joining.JoinStart | level.py:141-146 | before any tunnel, every floor cell is reachable from the main region's first cell or lies in a later region |
| Joining.JoinStep | level.py:147-148 | the tunnel to the next region makes all of it reachable from the main region, loses no floor, and keeps the border and the two values |
| Joining.JoinedThroughTunnel | level.py:147-148 | after the tunnel every floor cell is reachable from the hub or lies in a region still to be joined |
| Joining.OneRegionConnected | level.py:141 | with at most one region the floor is already one component |
| Level.DungeonGenerator.ConnectToMain | level.py:147-148 | one pass of the loop digs the tunnel to the next region (`Tunnelled`) with one draw, makes that region reachable from the main one, and advances the fold `JoinAll` of the remaining tunnels by one step |
| Level.DungeonGenerator.ConnectRegions | level.py:127-148 | the regions are the scan's; the new grid is `ConnectAll` of them: with one region or none nothing changes, otherwise the tunnels from the first of the sorted list to each later one, in order, one draw each; the floor ends up one component, no floor cell is lost, and the border and the two values are kept |
| Level.DungeonGenerator.JoinRegions | level.py:141-148 | with more than one region, sorting and tunnelling give `ConnectAll` of the regions, one draw per extra region, and connected floor |
| Level.DungeonGenerator.JoinSorted | level.py:147-148 | the loop leaves exactly `JoinAll`, the tunnels to each region of the rest in order, one draw each, and all floor reachable from the main region |
| Level.OpenCells | level.py:217-226 | `valid_positions`: the cells of the room whose four neighbours are in-bounds floor, in room order |
| Level.DungeonGenerator.IsOpen | level.py:219-224 | the direction loop with its early exit decides the open property |
| Level.ValidPosition | level.py:214-230 | the cell `_find_valid_position` returns for a given draw lies in the room, and is open whenever the room has an open cell |
| Level.DungeonGenerator.FindValidPosition | level.py:214-230 | the position is in the room; with open cells it is the drawn one of them (one draw), and with none it is `room[0]` (no draw); it is open whenever the room has an open cell; it is `ValidPosition` at the current draw, and `PositionDraws` values are used |
| Level.LevelCell | level.py:46-49 | the map value is 1 exactly for a wall, 2 exactly for floor, and 0 for anything else |
| Level.DungeonGenerator.RenderMap | level.py:42-49 | the level map has the grid's shape, holds each cell's `LevelCell`, and holds no 0 on a grid of walls and floor |
| Level.DungeonGenerator.CarveCaves | level.py:16-27 | the grid is `Carved` from the seed draw: `CavedGrid` of that seed with the scan's regions tunnelled by `ConnectAll`, using one draw for the seed and one per region after the first; it holds walls and floor only, with a walled border and connected floor |
| Level.DungeonGenerator.PlaceEnds | level.py:36-40 | the start is `ValidPosition` of the first room at the current draw and the exit that of the last room at the draw after the start's; each is open when its room has an open cell and is the room's first cell when it has none; both are room cells and the exit is reachable from the start; one draw per room with an open cell is used |
| Level.EndCellsPicked | level.py:36-40 | the two picks, the second at the draw following the first's, on a connected grid are end cells |
| Level.DungeonGenerator.Render | level.py:36-51 | the level map is the grid's render, and start and exit are the end cells picked from the current draw on, scaled by the tile size; the draws used are those of the two picks |
| Level.DungeonGenerator.GenerateAttempt | level.py:14-51 | one pass gives the `Carved` grid of its first draw, walled, two-valued and connected; the rooms are its large components; `None` exactly when there are none, after the grid's draws; otherwise there is exactly one room, which holds the start and the exit picked with the draws after the grid's, and those picks' draws are used |
| Level.DungeonGenerator.FinishLevel | level.py:29-51 | on a connected grid the rooms are its large components; `None` exactly when there are none, with no draw; otherwise the one room holds the start and the exit of the render, picked from the current draw on, and only their draws are used |
| Level.DungeonGenerator.GenerateDungeon | level.py:14-34 | `passes` passes run, at least one when any is allowed and at most `attempts`; `None` only after all `attempts` have run; every pass uses at least one draw; the ghost `history` lists the passes, each the `Carved` grid of its own seed draw, the first seed at the first draw, every pass but the last without a room cell and followed by the next seed right after its tunnel coins (`Passes`), so the loop stops at the first pass that finds a room; the last pass is the grid, seed and regions returned, and a result comes with one room holding the start and exit picked after that grid's draws |
| Level.PassesAt | level.py:14-34 | read pass by pass, the history starts at the first draw, each pass is carved from its own seed, and each pass before the last has no room cell and hands on to the next seed |
| Level.FailedPassesExtend | level.py:30-34 | a pass that finds no room, seeded where the failed ones left off, is one more failed pass |
| Level.FailedPassesClose | level.py:14-34 | the pass after the failed ones closes the history of `generate_dungeon` |
| Level.FloorDiv | level.py:242-243 | Python's `//`: the quotient rounds toward minus infinity |
| Level.PlayerCell | level.py:242-243 | the player's grid cell is the one whose span of pixels at the tile size holds the centre, for either sign of the tile size |
| Level.DungeonGenerator.PlaceEnemy | level.py:251-267 | the loop ends with `TryEnemy` of the room at the current draw: no enemy exactly when none of the 50 drawn cells is farther than 5 cells from the player, and then all 50 draws are used; otherwise the enemy of the first far try, at that scaled cell with the tile size and the kind the next draw picks, after that try's draws and one for the kind |
| Level.DungeonGenerator.PlaceSlot | level.py:248-267 | one slot of the outer loop is `EnemySlot`: the room drawn first, then the tries in it |
| Level.TriesPlace | level.py:251-267 | a loop stopped at try `attempts`, after tries that were all too close, with the enemy of that far try or with none after all 50, has computed `TryEnemy` |
| Level.TryEnemyFacts | level.py:251-267 | `TryEnemy` places nothing exactly when no try is far, otherwise stops at the first far try with an enemy far from the player on a room cell, and uses 1 to 51 draws, all 50 when it places nothing |
| Level.FirstFarIsFirst | level.py:252-265 | the try the loop stops at is the first far one, and there is none exactly when all 50 are too close |
| Level.FirstFarSkips | level.py:252-267 | tries that are all too close do not move the first far try |
| Level.DungeonGenerator.PlaceEnemies | level.py:245-269 | the enemies and the next draw are `EnemiesSpawned`, the slots run in order; at most one enemy per slot; each enemy has the tile size and sits on a scaled cell of one of the rooms farther than 5 cells from the player; each slot uses 2 to 52 draws |
| Level.EnemiesSpawnedDraws | level.py:246-267 | `n` slots place at most `n` enemies and use between 2 and 52 draws each |
| Level.EnemiesSpawnedFar | level.py:246-265 | every enemy the slots place is of the tile size on a scaled room cell far from the player |
| Level.AllFarAllPlaced | level.py:246-265 | when every room cell is far from the player, every slot places an enemy with its first try, three draws a slot |
| Level.NoneFarNonePlaced | level.py:246-267 | when no room cell is far from the player, no enemy is placed and each slot uses 51 draws |
| Level.FarEnemiesOk | level.py:236-265 | enemies far from the player on cells of the identified rooms stand on room cells of the grid far from the player |
| Level.DungeonGenerator.SpawnEnemies | level.py:232-269 | the ghost rooms are `_identify_rooms`' (in order, exactly the large components' cells); no rooms gives no enemies and no draws; otherwise the enemies and draws are `EnemiesSpawned` over those rooms from the player's cell, at most `numEnemies`, each of the tile size on a scaled room cell with squared distance over 25 from the player's cell, at most 52 draws per slot |
| Level.DungeonGenerator.PlaceItems | level.py:280-298 | exactly one item per slot, three draws each: item `k` is `ItemDrawn`, the room, the cell in it and the kind picked by draws `3k` to `3k + 2`; each is of half the tile size (floor division) on a scaled cell of one of the rooms |
| Level.ItemDrawnIs | level.py:283-296 | the room, cell and kind the three draws of slot `n` pick make item `n` |
| Level.ItemsDrawnIn | level.py:283-296 | the items drawn slot by slot are of half the tile size on scaled cells of the rooms |
| Level.RoomItemsOk | level.py:276-296 | items on cells of the identified rooms stand on room cells of the grid |
| Level.DungeonGenerator.SpawnItems | level.py:271-298 | the ghost rooms are `_identify_rooms`'; no rooms gives no items and no draws; otherwise exactly `numItems` items, item `k` the `ItemDrawn` of draws `3k` to `3k + 2` over those rooms, each of half the tile size on a scaled room cell |
| Items.EffectValue | item.py:23-31 | the effect table: health 25, speed 50, damage 10, all positive |
| Items.Item.constructor | item.py:6-31 | position, size and kind as given, not collected, the effect value from the table |
| Items.AfterCollect | item.py:81-96 | the matching stat gets the effect value (health capped at the maximum), the kind joins the inventory, the score gains 50, and nothing else changes |
| Items.Item.Collect | item.py:81-96 | the item is collected and the player's stats become `AfterCollect` of the old stats |
| Items.OnlyMatchingStatChanges | item.py:85-90 | only the stat matching the kind changes: health to min(max, health + 25), speed + 50, attack + 10 |
| Items.HealthStaysBounded | item.py:86 | health at or below the maximum stays there and never drops |
| Items.HealCapsExcessHealth | item.py:86 | health above the maximum is cut down to the maximum by a heal |
| Items.AfterCollectAll | item.py:81-96 | a run of pick-ups appends the kinds in order, adds 50 per item to the score, and keeps the maximum |
| Items.CollectAllHealthBounded | item.py:86 | any run of pick-ups keeps health within the maximum once it is there |

## Left out

- `noise.pnoise2` is foreign numeric code. It is the parameter `pnoise`, and no property of Perlin noise is assumed. Floating point is Dafny's `real`.
- Randomness is a fixed stream `rng` read through the `draws` counter. Which values Python's generator returns is not modelled, and neither is `random.random()` as a float; the coin is `rng(k) % 2 == 0`.
- GenerateDungeon: the source retries by calling itself until some room exists, with no bound. The model makes at most `attempts` passes. With no room after them it returns `None` rather than running on.
- The pygame objects are out of scope: `Enemy`, `Item.rect` (twice the size), colours, animation, particles, `update` and `draw`. Spawns are the arguments the constructors receive.
- SpawnEnemies: requires `tileSize != 0`. The source divides by the tile size only when rooms exist, so with no rooms and a zero tile size it would return `[]`. The game always passes 32 (main.py:18).
- SpawnEnemies: the player is given as its pixel centre; the rest of the `Player` object is not modelled.
- Items.ItemType: the item kind is a closed set of three kinds, since `spawn_items` only creates those. An `Item` built from any other string (no effect value, no stat change in `collect`) is not modelled.
- AddBorderWalls: requires that the width is 0 exactly when the height is. With neither rows nor columns the source's loops do nothing. With columns but no rows the first loop indexes a row that does not exist, and with rows but no columns the second loop indexes a column that does not exist; both fail.
- Level.DungeonGenerator.FloodFill: the caller's `visited` matrix and `region` list are not mutated through aliasing. The method returns the updated matrix and the region, and the scans thread them through. The same holds for ExploreRoom.
- The order of the cells inside each region after the first is not modelled. The regions are the ghost `regions` result of ConnectRegions, CarveCaves and GenerateAttempt. `RegionsOf` fixes each region's set of cells, that it has no repeats, its first cell, and the order of the regions, but not the order of a region's other cells, which the flood fill decides. That order picks the winner of a tie in the closest pair, so when two pairs are equally close `Carved` admits the tunnel of either. The same holds for the rooms of IdentifyRooms, the ghost `rooms` results: their cell order decides which cell `ValidPosition` picks in PlaceEnds, FinishLevel and GenerateDungeon, and which cells the spawn draws pick, so start, exit and spawn positions are pinned only relative to those ghost rooms.
- Level.Tunnelled: when the closest pair is off the grid the function returns the grid unchanged. This only makes it total; every caller passes regions that lie on the grid, where the source's tunnel is the one modelled.
- The queue is a sequence, popped from the front as `deque.popleft` does.
- Negative coordinates that Python would read from the other end of a list are not reachable here. Every index the source uses is in bounds, and FloodFill rejects negatives explicitly, as the source does.
- PlaceEnemies, PlaceItems: require non-empty rooms, as `random.choice` raises on an empty list. The rooms they are given are the identified ones, which always hold more than 20 cells. `EnemySlot` and `TryEnemy` are total: with no rooms, or an empty room, they place nothing.
