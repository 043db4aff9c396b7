# SambreMaze grid engine, in Dafny

A model of the grid engine behind the SambreMaze game, with proofs. The player moves
through a procedurally generated maze whose walls are invisible. Walls show up only
through two sensors:

- a white "locator" ray that marks the first wall or exit it meets;
- a red "detector" cone that reveals hidden danger ("red") zones.

The repository holds several near-duplicate versions of this engine. All of them are
modelled, each in its own module, and the differences between them are kept.

| module | file | models |
|---|---|---|
| `Builtins` | builtins.dfy | Python built-ins: `int()`, `//`, `range`, `abs`, `list.reverse`, `random.sample` |
| `Grid` | grid.dfy | grids as lists of rows; pixel-to-cell mapping; row-major comprehensions |
| `Utils` | utils.dfy | src/utils.py |
| `MazeQueries` | maze_queries.dfy | the `Maze` record of src/maze/maze.py |
| `Carving` | carving.dfy | what the three generators share: start block, depth-first carving, exit, border walls, red-zone count |
| `ModelMaze` | model_maze.dfy | `MazeGenerator.generate_maze` of src/model/maze.py |
| `MazeGen` | maze_generator.dfy | `MazeGenerator` of src/maze/generator.py |
| `MainMaze` | main_maze.dfy | `generate_maze` of src/main.py |
| `Motion` | player.dfy | `Player` of src/model/player.py and src/entities/player.py |
| `Sensing` | sensing.dfy | the locator's march, the wall normal, the scattered hit point |
| `ModelScanner` | model_scanner.dfy | `LocatorScanner` and `DetectorScanner` of src/model/scanner.py |
| `EntityScanner` | entity_scanner.dfy | `Scanner` of src/entities/scanner.py |
| `PathFinder` | path_finder.dfy | A* of src/model/path_finder.py, shared by src/model/game_model.py |
| `Points` | points.dfy | timestamped points and their expiry |
| `Status` | status.dfy | the end-of-game rule |
| `ModelGame` | game_model.dfy | `GameModel` of src/model/game_model.py |
| `Game` | game.dfy | `ScannerGame` of src/game.py |

## How the source is modelled

- Grids and point lists are Dafny sequences.
  - The generators are methods with nested loops that write a local grid cell by cell.
  - Depth-first carving is a `while` loop over an explicit stack.
- Objects whose fields the source updates in place are classes with `modifies` frames:
  `Player`, the scanners, `GameModel`, `ScannerGame`.
- Positions are reals.
  - `int(x) // cs` is truncation followed by floor division (`Grid.PixelCell`).
  - `int(x // cs)` in `_check_game_status` floors directly (`ModelGame.StatusCell`).
  - The two differ for pixels in (-1, 0); `ModelGame.StatusCellFloors` shows one such pixel.
- Randomness is an oracle:
  - `random.choice` is an index function;
  - `randint` is a drawn value that meets `randint`'s bounds;
  - `random.sample` is a removal loop driven by an index function;
  - each `uniform` draw is a real parameter, and the member that takes it requires it to lie within the bounds `uniform` was given: `[-LOCATOR_HIT_VARIATION, LOCATOR_HIT_VARIATION]` (the parameter `variation`), `[-2, 2]`, or `[0, scan_distance]`.
- The clock is one `now` parameter per call.
- Trigonometry is abstracted. A ray is a function from a distance, or from an angle offset and a distance, to a sample point.
- Settings the shown `Config` does not define become parameters, such as `START_ZONE_SIZE` and `DANGER_ZONE_RATIO`. A ratio is a rational `num/den`; src/main.py uses 3/10.

Several behaviours of the code are easy to misread. The model follows the code in each case:

- **No maze variant carves a passage to the exit.** Reachability of the exit is not a property of the generators. A* reports "no path" when there is none: `PathFinder.FindPath` returns `[]` exactly when the exit cannot be reached, and otherwise a shortest walk to it.
- **Movement does not slide along walls.** If any corner of the candidate position is on a thin wall, the whole move is cancelled. `Motion.NoSlide` exhibits a move that one axis alone would allow and that is still refused.
- **The model-view detector stops on any value-1 cell.** Red zones from src/model/maze.py are such cells, so each ray reports at most one danger hit (`ModelScanner.OneHitPerRay`).
- **The generators treat red zones differently in the thin-wall mask.**
  - src/maze/generator.py makes red zones thin walls as well (`MazeGen.Generate`).
  - src/model/maze.py and src/main.py leave red zones out of the mask.
  - Only src/maze/generator.py and src/main.py keep red zones away from the exit, and only from cells close to it on both axes.
- **A start block of radius 2 or more leaves the search nothing to carve.** With `START_ZONE_SIZE >= 2`, every lattice neighbour of the centre is already clear. The maze is then the cleared block in solid wall, plus the exit (`Carving.CarveFromCentre`, `ModelMaze.GenerateMaze`).

## Model

| member | source | states |
|---|---|---|
| Builtins.RAbs | src/game.py:84-89 | `abs` of a float is non-negative and equals x or -x |
| Builtins.TruncSpec | src/model/player.py:25-26 | `int(x)` truncates toward zero: it is within one of x, at or below x for x ≥ 0, and at or above x for x < 0 |
| Builtins.FloorDivSpec | src/maze/maze.py:11-12 | `a // b` is the floor of a / b: for b > 0, `q*b <= a < q*b + b`, and the mirror image for b < 0 |
| Builtins.RangeLength | src/game.py:165 | `len(range(start, stop, step))` for a positive step is the least n with `start + n*step >= stop`, and 0 for an empty range |
| Builtins.RangeBounds | src/game.py:106 | `range` starts at start, advances by step and stays in [start, stop) |
| Builtins.Reverse | src/model/path_finder.py:116 | `list.reverse` mirrors the indices |
| Builtins.Sample | src/model/maze.py:59 | `random.sample(population, k)` returns k elements drawn from the population without replacement, and no duplicates from a duplicate-free population |
| Grid.PixelCellSquare | src/model/scanner.py:18-20 | for a non-negative pixel, `(int(x)//cs, int(y)//cs)` is the cell whose cs×cs square contains it |
| Grid.PixelCellTruncates | src/game.py:233 | truncation comes first: a pixel at x = -0.5 maps to column 0, not -1 |
| Grid.Filled | src/model/maze.py:15-16 | the list comprehension has rows × cols entries, all equal to v |
| Grid.Set | src/model/maze.py:37-38 | `grid[y][x] = v` changes that entry and no other |
| Grid.WallsSet | src/model/maze.py:37-38 | clearing a wall cell lowers the number of wall cells by one; clearing any other cell leaves it unchanged |
| Grid.WhereSpec | src/model/maze.py:56-57 | a row-major comprehension holds exactly the in-bounds cells that pass the test, in row-major order |
| Grid.WhereDistinct | src/model/maze.py:56-57 | such a comprehension has no duplicates |
| Utils.IsValidCell | src/utils.py:17-20 | `is_valid_cell` holds iff `0 <= x < len(maze[0])` and `0 <= y < len(maze)` |
| Utils.NormalizeColor | src/utils.py:11-15 | a 4-component colour is returned unchanged; any other keeps its first (at most three) components and gets `alpha` appended; a 3-component colour becomes colour + [alpha] |
| Utils.CenterText | src/utils.py:4-9 | the corner is within one pixel of centring the text on each axis, and centres it exactly when both sizes are even |
| MazeQueries.CellOfSquare | src/maze/maze.py:10-12 | with a positive cell size, a pixel belongs to cell c iff it lies in c's square |
| MazeQueries.CheckExitSquare | src/maze/maze.py:22-26 | `check_exit` holds exactly on the exit cell's square of pixels |
| MazeQueries.NegativeNeverWall | src/maze/maze.py:10-15 | a pixel left of or above the grid is never a wall |
| MazeQueries.RedZoneIsWall | src/maze/maze.py:10-20 | when every red zone is a thin wall, as src/maze/generator.py guarantees, `is_red_zone` implies `is_wall` |
| Carving.ClearStartZone | src/model/maze.py:19-23 | the block of the given radius around the centre is set to 0 and every other cell is kept |
| Carving.UnvisitedNeighborsSpec | src/model/maze.py:29-33 | the candidates are exactly the in-bounds cells two steps away on one axis that are still walls, in the order left, right, up, down |
| Carving.FindUnvisitedNeighbors | src/maze/generator.py:65-74 | `_find_unvisited_neighbors` returns exactly those candidates |
| Carving.GuardedNeighbors | src/main.py:54-63 | the guards `x > 1`, `x < cols - 2`, `y > 1` and `y < rows - 2` select the same candidates as an explicit bounds check |
| Carving.CarveStep | src/model/maze.py:36-39 | a carving step clears the chosen cell and the midpoint, lowers the number of walls, changes only walls into passages, and keeps the chosen cell on the centre's even lattice |
| Carving.StepRemovesWalls | src/model/maze.py:36-38 | the two writes strictly lower the number of walls, which is why the stack loop ends |
| Carving.NoNeighborsStay | src/model/maze.py:40-41 | a popped cell gets no candidates back, because carving only removes walls |
| Carving.Carve | src/model/maze.py:26-41 | the search only turns walls into passages, never clears a cell at odd offsets from the centre on both axes, and ends with no candidates left at any visited cell; with no candidate at the centre it changes nothing |
| Carving.CarveFromCentre | src/model/maze.py:15-41 | the result holds only 0 and 1, the start block is clear, and cells at odd offsets on both axes outside it are walls; with a start radius of 2 or more the grid is exactly the cleared block |
| Carving.PlaceExit | src/model/maze.py:52-53 | writing 2 at the exit makes it the only 2 and keeps every other property of the carved grid |
| Carving.IsBorderCellSpec | src/model/maze.py:71-76 | `_is_border_cell` holds iff some in-bounds 4-neighbour is exactly 0, so an adjacent exit does not count |
| Carving.BorderWallsSpec | src/model/maze.py:56-57 | `wall_cells` holds exactly the walls touching a passage, without duplicates |
| Carving.RedZoneCandidatesSpec | src/maze/generator.py:42-49 | a border wall is a candidate iff it is more than d from the exit on at least one axis; the list has no duplicates and is in row-major order |
| Carving.ExitCell | src/maze/generator.py:76-89 | every valid draw gives an in-bounds, non-corner border cell |
| Carving.ExitCellOnto | src/maze/generator.py:76-89 | every non-corner border cell is produced by some valid draw |
| Carving.RedZoneCount | src/maze/generator.py:53 | `int(n * ratio)` is never more than n |
| Carving.RedZoneCountFloor | src/maze/generator.py:53 | `int(n * num/den)` is the floor: `k*den <= n*num < k*den + den` |
| ModelMaze.DictExit | src/model/maze.py:44-51 | the dictionary of four drawn cells yields an in-bounds, non-corner border cell |
| ModelMaze.MarkThinWalls | src/model/maze.py:62-66 | a cell is marked iff it is a wall, not a red zone, and a border cell; every other entry is kept |
| ModelMaze.ThinWallsOfMask | src/model/maze.py:62-66 | the mask is 1 exactly on border walls that are not red zones, so red zones and thin walls are disjoint |
| ModelMaze.LayMaze | src/model/maze.py:15-53 | the grid holds 0, 1 and a single 2 at the exit; the start block is clear but for the exit; cells at odd offsets on both axes outside it are walls |
| ModelMaze.GenerateMaze | src/model/maze.py:9-68 | the grids are cols × rows with cols = width // cell size; the maze is laid as above; red zones are `int(n * ratio)` distinct border walls, n the number of border walls; thin walls are the border walls that are not red zones |
| MazeGen.NewMazeGenerator | src/maze/generator.py:6-9 | cols and rows are `width // cell_size` and `height // cell_size` |
| MazeGen.CreateExit | src/maze/generator.py:76-92 | `_create_exit` writes 2 at the cell it returns, a non-corner border cell, and changes nothing else |
| MazeGen.ExitOverLaid | src/maze/generator.py:91 | writing the exit over a carved grid makes it the only 2 and keeps the carved grid's properties |
| MazeGen.ClassifyWalls | src/maze/generator.py:41-50 | the candidates are exactly the border walls not near the exit on both axes, in row-major order; every border wall, red zones included, becomes a thin wall |
| MazeGen.Generate | src/maze/generator.py:11-63 | the `Maze` has cols × rows grids; its exit is the drawn cell and the only 2; the 3×3 start block is clear; thin walls are exactly the border walls; red zones are `int(n * red_zone_percent)` distinct candidates and are therefore thin walls |
| MainMaze.CollectCandidates | src/main.py:90-100 | the candidates are exactly the border walls more than 2 from the exit on some axis, in row-major order |
| MainMaze.MarkThinWalls | src/main.py:106-114 | red-zone walls get 0, other border walls get 1, and every other entry is kept |
| MainMaze.GenerateMaze | src/main.py:34-116 | the grids are cols × rows; the exit is the drawn cell and the only 2; the 3×3 start block is clear; red zones are `int(0.3 n)` distinct candidates; thin walls are the border walls that are not red zones; the wall thickness is 2 |
| Motion.BlocksIsWall | src/model/player.py:25-28 | the per-axis test blocks a pixel exactly when the scanner's `_is_wall` holds for its cell, so out-of-grid cells never block |
| Motion.AxisStepSpec | src/model/player.py:22-37 | a zero dx or dy leaves that coordinate; the x step is taken iff (new x, old y) is not on a thin wall; the y step is taken iff (new x, new y) is not; each step is taken whole or not at all |
| Motion.ResolveMoveSpec | src/model/player.py:39-56 | a finished game does not move; otherwise the candidate is taken iff all four corners are clear, and the position is left entirely unchanged otherwise |
| Motion.ClearStaysClear | src/model/player.py:47-56 | a player whose corners are clear still has clear corners after any move |
| Motion.NoSlide | src/model/player.py:55-56 | a diagonal move whose x step alone would be clear is refused whole: there is no slide retry |
| Motion.GlowDecay | src/model/player.py:58-59 | `max(0, glow - 5 dt)` is non-negative, is 0 or glow - 5 dt, and never increases glow for dt ≥ 0 |
| Motion.Player.constructor | src/entities/player.py:10-21 | the player starts at the screen centre, with radius 10 and speed 3.5 unless set, a diagonal speed of speed × 0.7071 and no glow |
| Motion.Player.UpdatePosition | src/entities/player.py:24-71 | the new position is the resolved move from the old one |
| Motion.Player.UpdateGlow | src/entities/player.py:94-101 | glow decays as `max(0, glow - 5 dt)` |
| Sensing.NearestSide | src/game.py:84-91 | `min(dists, key=...)` picks a nearest edge, and the first of left, right, top, bottom on ties |
| Sensing.WallNormalNearest | src/game.py:77-96 | `get_wall_normal` is an axis unit vector, the normal of the nearest edge with ties to the earliest side; src/model/game_model.py:118-136 is the same code |
| Sensing.FirstStopFromSpec | src/game.py:106-116 | the march finds nothing iff no sample stops it; otherwise it returns the first sample whose in-grid cell is a thin wall or the exit |
| Sensing.FirstStopSpec | src/model/scanner.py:49-59 | the locator's loop finds the first stopping sample, or none when no sample stops it |
| Sensing.FirstStopInRange | src/model/scanner.py:49 | a hit lies at a distance `5 + i*step` below the scan length |
| Sensing.March | src/model/scanner.py:46-59 | the loop with its `break` computes that first stop |
| Sensing.Scatter | src/model/scanner.py:61-68 | the reported point carries the current time, moves along one axis only, and by no more than the jitter |
| Sensing.LocatorPoints | src/model/scanner.py:61-69 | the scan returns one point iff there was a hit, and none otherwise |
| ModelScanner.RayFrom | src/model/scanner.py:84-100 | a detector ray appends no more points than it has samples |
| ModelScanner.RaySpec | src/model/scanner.py:84-100 | each ray point is the next in-grid sample stamped with the time; each hit is a red-zone sample that was also appended |
| ModelScanner.RayEnds | src/model/scanner.py:89-100 | a ray stops at its first out-of-grid sample, which is not appended, or at its first thin-wall or value-1 cell, which is appended |
| ModelScanner.OneHitPerRay | src/model/scanner.py:94-100 | when every red zone is a value-1 cell, as src/model/maze.py makes them, each ray reports at most one hit |
| ModelScanner.Samples | src/model/scanner.py:84-86 | the k-th sample of a ray is at the k-th distance |
| ModelScanner.WaveSpec | src/model/scanner.py:81-102 | every wave point carries the current time, and every hit is a red-zone sample that is also a wave point |
| ModelScanner.WaveHits | src/model/scanner.py:81-100 | a wave reports at most one hit per ray |
| ModelScanner.CastRay | src/model/scanner.py:84-100 | the loop with its two `break`s computes the ray |
| ModelScanner.LocatorScanner.constructor | src/model/scanner.py:10-12 | a new scanner has `last_scan_time` 0 |
| ModelScanner.LocatorScanner.Scan | src/model/scanner.py:38-69 | inside the cooldown it returns [] and keeps the time; otherwise it sets the time to now and returns the scattered first stop over `range(5, length, step)`, off the hit along one axis by at most `LOCATOR_HIT_VARIATION` |
| ModelScanner.DetectorScanner.constructor | src/model/scanner.py:10-12 | a new scanner has `last_scan_time` 0 |
| ModelScanner.DetectorScanner.Scan | src/model/scanner.py:72-102 | inside the cooldown it returns ([], []) and keeps the time; otherwise it sets the time to now and returns the wave over the angle and distance ranges |
| EntityScanner.RedFanSize | src/entities/scanner.py:33-35 | the fan has 2·spread // step + 1 rays, from -spread to at most spread |
| EntityScanner.Scanner.constructor | src/entities/scanner.py:11-15 | a new scanner has no points and a lifetime of 10 000 |
| EntityScanner.Scanner.WhiteScan | src/entities/scanner.py:17-27 | `white_scan_points_per_frame` points, the i-th at the i-th drawn distance, all stamped with the current time; each lies on the ray within `scan_distance` |
| EntityScanner.Scanner.RedScan | src/entities/scanner.py:29-42 | one point per offset of the fan, at the scan distance along that ray, stamped with the current time |
| EntityScanner.Scanner.CleanOldPoints | src/entities/scanner.py:44-46 | both lists keep exactly their live points, in order |
| PathFinder.Heuristic | src/model/path_finder.py:86-96 | the Manhattan distance is 0 iff the cells are equal |
| PathFinder.HeuristicSymmetric | src/model/path_finder.py:86-96 | the Manhattan distance is symmetric |
| PathFinder.HeuristicAdmissible | src/model/path_finder.py:86-96 | no walk of n unit steps covers more than Manhattan distance n, so the heuristic never overestimates |
| PathFinder.AdjacentStep | src/model/path_finder.py:50-51 | the four offsets reach exactly the cells at Manhattan distance 1 |
| PathFinder.PopMin | src/model/path_finder.py:44 | `heappop` takes an entry with the least (f, cell) |
| PathFinder.ProcessNeighborSpec | src/model/game_model.py:187-197 | an unseen or strictly improved neighbour gets g = g[current] + 1, f = g + h, current as predecessor and one heap entry; otherwise nothing changes |
| PathFinder.StepTree | src/model/path_finder.py:63-67 | every predecessor has a strictly lower g and is a 4-neighbour, so the predecessor links always form a tree of walks from the start |
| PathFinder.StepMeasure | src/model/path_finder.py:60-67 | each relaxation either sets a new cell or lowers a g, so the search ends |
| PathFinder.ChainIsWalk | src/model/path_finder.py:99-116 | following predecessors gives a duplicate-free walk from the start, without the start, ending at the cell; it is empty iff the cell is the start |
| PathFinder.ClosedUnreachable | src/model/path_finder.py:42-69 | when every reached cell has had its neighbours relaxed, an unreached cell cannot be reached at all |
| PathFinder.Expand | src/model/path_finder.py:50-67 | expanding a cell keeps the predecessor tree and the frontier invariant, and makes progress |
| PathFinder.ChainLength | src/model/path_finder.py:99-116 | the predecessor chain of a cell is no longer than the cell's g |
| PathFinder.FrontierOnWalk | src/model/path_finder.py:42-67 | along any walk from the start to the exit, some heap entry has f at most the walk's length: the first cell not expanded at its current g is queued with f ≤ g + h, its g is at most the steps walked and h at most the steps left |
| PathFinder.PopOptimal | src/model/path_finder.py:44-47 | when the exit is popped as a least entry, its g is no larger than the length of any walk from the start to it |
| PathFinder.Search | src/model/path_finder.py:33-69 | the loop ends; it reports the exit found, with a g no walk to the exit undercuts, or that the exit is not the start and cannot be reached |
| PathFinder.ReconstructPath | src/model/path_finder.py:99-116 | the loop and the reverse give the predecessor chain in start-to-goal order |
| PathFinder.FindPath | src/model/path_finder.py:15-69 | the result is a shortest walk: a duplicate-free walk of passable 4-adjacent cells from the start, without the start, ending at the exit, and no walk to the exit has fewer steps; it is [] iff the start is the exit or the exit is unreachable |
| Points.ExpireMembers | src/model/game_model.py:112-116 | the filter keeps exactly the points with `now - t < lifetime` |
| Points.ExpireAppend | src/game.py:248-249 | filtering works point by point: filtering a concatenation filters each part |
| Points.ExpireAllAlive | src/game.py:248-249 | a list of live points is kept whole |
| Points.ExpireIdempotent | src/entities/scanner.py:44-46 | cleaning twice at the same time is cleaning once |
| Points.ExpireLater | src/game.py:248-249 | a later filter removes whatever an earlier one did |
| Points.FilterAlive | src/model/game_model.py:113-116 | the comprehension computes the filter |
| Status.Check | src/model/game_model.py:85-94 | flags only go from false to true; the game ends exactly on an in-grid danger zone; it is won on the in-grid exit unless a danger zone just ended it; outside the grid nothing changes |
| Status.CheckAllSpec | src/game.py:233-241 | over any run of frames the flags are never cleared, the game is over iff some frame stood on a danger zone, and it is won only if some frame stood on the exit |
| Status.DangerFirst | src/game.py:235-236 | the danger zone is checked before the exit |
| ModelGame.StatusCellSquare | src/model/game_model.py:87-88 | `int(x // cs)` is the cell whose square contains the pixel, for any sign |
| ModelGame.StatusCellFloors | src/model/game_model.py:87-88 | at x = -0.5 the status check floors to column -1 while the scanners truncate to column 0 |
| ModelGame.KeyAxis | src/model/game_model.py:73-74 | `keys[d] - keys[a]` is 0 iff both or neither are pressed, and ±1 otherwise |
| ModelGame.FirstExitUnique | src/model/game_model.py:153-159 | the first 2 in row-major order is unique, and there is none in a grid without a 2 |
| ModelGame.GameModel.constructor | src/model/game_model.py:16-41 | the grids come from the generator, all point lists and the path are empty, the flags are false and the scanner's time is 0 |
| ModelGame.GameModel.HandleLocatorScan | src/model/game_model.py:52-61 | without the mouse held nothing is scanned; otherwise the locator's cooldown rule applies; the points are extended by at most one, within `LOCATOR_HIT_VARIATION` of its hit, and a hit raises glow to `min(MAX_GLOW, glow + GLOW_INCREASE)` |
| ModelGame.GameModel.HandlePlayerMovement | src/model/game_model.py:71-83 | the player moves by the unit key axes through the resolver |
| ModelGame.GameModel.CheckGameStatus | src/model/game_model.py:85-98 | the flags become the end-of-game rule applied at the floored centre cell |
| ModelGame.GameModel.UpdatePoints | src/model/game_model.py:107-116 | glow decays and both point lists keep their live points |
| ModelGame.GameModel.ScanAndMove | src/model/game_model.py:47-48 | the locator's point, if it fires, is appended and raises the glow; the scanner's time follows the cooldown rule; the player moves by the resolved key axes |
| ModelGame.GameModel.Settle | src/model/game_model.py:49-50 | the flags follow the end-of-game rule at the new position; glow decays; both point lists keep exactly their live points |
| ModelGame.GameModel.Update | src/model/game_model.py:43-50 | the locator points become the live points of the old list plus this frame's scan; glow becomes the decay of the raised or kept glow; the scanner's time follows the cooldown rule; the move is the resolved key step; the flags are never cleared and follow the end-of-game rule; the detector points are filtered; the player's radius and speeds do not change |
| ModelGame.GameModel.FindExitPosition | src/model/game_model.py:153-159 | the first 2 in row-major order, or None when there is none |
| ModelGame.GameModel.FindPathToExit | src/model/game_model.py:142-180 | with no exit, or an unreachable one, the path is unchanged; on the exit cell it becomes []; otherwise it becomes a shortest duplicate-free walk from the player's cell to the exit |
| Game.RedRayFrom | src/game.py:136-145 | a red ray reports at most one hit, and appends every sample when it reports none |
| Game.RedRaySpec | src/game.py:136-145 | every sample is appended, in or out of the grid, until the first in-grid red zone, which is the last point and the one hit; a hit is reported iff some sample is such a red zone |
| Game.CastRedRay | src/game.py:136-145 | the loop with its `break` computes the red ray |
| Game.RedWaveBounds | src/game.py:134-146 | a wave has at most one hit per ray and at most (rays × distances) points |
| Game.RedScanRanges | src/game.py:134-136 | the cone has 46 rays and each ray 67 distances |
| Game.RedScanBounds | src/game.py:128-146 | `add_red_scan_wave` reports at most 46 hits and at most 46 × 67 points |
| Game.AddRedScanWave | src/game.py:128-146 | the nested loops compute the wave over `range(-45, 46, 2)` and `range(0, 200, 3)` |
| Game.Boundary | src/game.py:165-172 | a boundary ray has `len(range(0, fog_radius, 3))` points, all stamped with the current time |
| Game.BoundaryRays | src/game.py:163-172 | the loop builds both boundary rays |
| Game.PreciseWhiteScan | src/game.py:98-126 | the scan is the scattered first stop over `range(5, 200, 1)` |
| Game.PreciseWhiteScanSpec | src/game.py:98-126 | at most one point, present iff some distance in [5, 200) meets an in-grid thin wall or the exit; the point carries the time and is off the hit along one axis only, by at most 2 |
| Game.MoveDelta | src/game.py:221-227 | a diagonal uses the diagonal speed on both axes, otherwise the plain speed; a zero axis stays zero |
| Game.StampAll | src/game.py:184-185 | each hit becomes one red point stamped with the current time |
| Game.StampHits | src/game.py:184-185 | the loop computes those red points |
| Game.OnEventsSpec | src/game.py:148-191 | over the events of a frame, red points and scan lines only grow; the red timer is kept or set to now with the cooldown strictly passed; without a right click nothing red changes; at most one scan line is added, and only with the timer set to now |
| Game.ScannerGame.constructor | src/game.py:27-37 | the settings are stored; lists are empty, flags false and both timers 0 |
| Game.ScannerGame.ResetGame | src/game.py:53-74 | the player is back at the centre with no glow; all point lists and scan lines are empty; the flags and the mouse flag are false; both timers are 0; the new grids are in place |
| Game.ScannerGame.FireRedScan | src/game.py:158-185 | a red scan sets the timer, records a scan line and adds one stamped red point per hit |
| Game.ScannerGame.HandleEvents | src/game.py:148-191 | it returns False iff a Quit arrives, and the state is then that after the events before the first Quit; otherwise it is that after all events |
| Game.ScannerGame.WhiteScanStep | src/game.py:200-207 | the white scan fires only with the mouse held and the cooldown strictly passed; it then sets the timer, appends its point and raises glow to `min(10, glow + 1)` on a hit |
| Game.ScannerGame.MoveStep | src/game.py:216-230 | the player moves by the speed-scaled key axes through the resolver, and not at all once the game is over or won |
| Game.ScannerGame.CheckStatus | src/game.py:232-241 | the flags become the end-of-game rule applied at the truncated centre cell |
| Game.ScannerGame.ExpireStep | src/game.py:243-249 | glow decays and both point lists keep their live points |
| Game.ScannerGame.Play | src/game.py:198-230 | while the game is on, the white scan's point is appended, the glow raised on a hit, the timer set under the strict cooldown, and the player moved by the speed-scaled keys; a finished game keeps all of these |
| Game.ScannerGame.Settle | src/game.py:232-249 | the flags follow the end-of-game rule at the new position; glow decays; both point lists keep exactly their live points |
| Game.ScannerGame.Update | src/game.py:193-249 | the white points become the live points of the old list plus the running frame's scan; glow becomes the decay of the raised or kept glow; a finished game neither scans nor moves, a running one moves by the resolved speed-scaled keys; the white timer follows the strict cooldown rule; the flags follow the end-of-game rule; the red points are filtered |

## Left out

- Rendering, fonts, menus, particles, sound and the event-loop orchestration are not part of this model. They are pygame drawing and widget handling.
- Trigonometry is not computed: a ray is a given function from distance (and angle offset) to a point. `math.atan2`, `cos`, `sin` and `radians` are not part of this model.
- Floats are modelled as exact reals; rounding is not modelled.
- The clock is read once per call as `now`. `add_red_scan_wave` reads `pygame.time.get_ticks()` per point; the model stamps every point of one call with the same time.
- Randomness is an oracle; the distributions of `random.choice`, `randint`, `sample` and `uniform` are not modelled.
- Game.ScannerGame.constructor: it takes its settings and grids as parameters. `apply_settings` evaluates `default['white_scan_cooldown']` eagerly, and the shown `DEFAULT_SETTINGS` has no such key, so src/game.py:36-37 would raise KeyError.
- Game.ScannerGame.ResetGame: the new grids are parameters. src/game.py:74 calls `MazeGenerator.generate_maze()` on the class of src/maze/generator.py, which defines no such method.
- ModelGame.GameModel.constructor: it states the grid shape and the empty lists; the generator's properties are stated by `ModelMaze.GenerateMaze`.
- The `hit_revealed` flags and the `duration` of a red scan line are not modelled; they only drive drawing.
- The `ValueError` that `range` raises for a zero step is not modelled. Where the step is a setting, a `requires` excludes zero: `ModelScanner.LocatorScanner.Scan`, `ModelScanner.DetectorScanner.Scan` and `EntityScanner.Scanner.RedScan`.
- Exit reachability is not promised by any generator and is not asserted.
- Carving.Carve: the carved passages are not shown to form a spanning tree of the lattice; the source does not promise it.
