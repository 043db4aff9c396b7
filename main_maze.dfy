/** `generate_maze(width, height, cell_size=30)` of the standalone script src/main.py: a
    3 × 3 start block, depth-first carving with guarded neighbour tests, an exit on the
    border, red zones drawn from the walls touching a passage at more than two cells from
    the exit on some axis, and thin walls on the remaining such walls. */
module MainMaze {
  import opened Builtins
  import opened Grid
  import opened Carving
  import opened MazeGen

  const MainRedZoneNum := 3
  const MainRedZoneDen := 10
  const MainExitDistance := 2
  const MainWallThickness := 2

  /** The candidate pass: walls touching a passage, not within two cells of the exit on
      both axes, in row-major order. */
  method CollectCandidates(maze: seq<seq<int>>, cols: nat, rows: nat, e: Cell) returns (candidates: seq<Cell>)
    requires rows > 0 && IsGrid(maze, cols, rows)
    ensures candidates == RedZoneCandidates(maze, cols, rows, e, MainExitDistance)
  {
    ghost var p := c => RedZoneCandidate(maze, cols, rows, e, MainExitDistance, c);
    candidates := [];
    for y := 0 to rows
      invariant candidates == Where(p, cols, y)
    {
      for x := 0 to cols
        invariant candidates == Where(p, cols, y) + WhereRow(p, y, x)
      {
        if maze[y][x] == Wall {
          if IsBorderCell(maze, x, y) {
            if Abs(x - e.0) > 2 || Abs(y - e.1) > 2 {
              candidates := candidates + [(x, y)];
            }
          }
        }
      }
    }
  }

  /** The thin-wall pass: a red-zone wall is cleared to 0, any other wall touching a
      passage becomes 1, every other entry keeps its value. */
  method MarkThinWalls(maze: seq<seq<int>>, thin0: seq<seq<int>>, cols: nat, rows: nat, redZones: seq<Cell>)
    returns (thin: seq<seq<int>>)
    requires rows > 0 && IsGrid(maze, cols, rows) && IsGrid(thin0, cols, rows)
    ensures IsGrid(thin, cols, rows)
    ensures forall y, x | 0 <= y < rows && 0 <= x < cols ::
      thin[y][x] == if maze[y][x] == Wall && (x, y) in redZones then 0
                    else if BorderWall(maze, cols, rows, (x, y)) then 1
                    else thin0[y][x]
  {
    thin := thin0;
    for y := 0 to rows
      invariant IsGrid(thin, cols, rows)
      invariant forall yy, xx | 0 <= yy < rows && 0 <= xx < cols ::
        thin[yy][xx] == if yy < y && maze[yy][xx] == Wall && (xx, yy) in redZones then 0
                        else if yy < y && BorderWall(maze, cols, rows, (xx, yy)) then 1
                        else thin0[yy][xx]
    {
      for x := 0 to cols
        invariant IsGrid(thin, cols, rows)
        invariant forall yy, xx | 0 <= yy < rows && 0 <= xx < cols ::
          thin[yy][xx] == if (yy < y || (yy == y && xx < x)) && maze[yy][xx] == Wall && (xx, yy) in redZones then 0
                          else if (yy < y || (yy == y && xx < x)) && BorderWall(maze, cols, rows, (xx, yy)) then 1
                          else thin0[yy][xx]
      {
        if maze[y][x] == Wall {
          if (x, y) in redZones {
            thin := Set(thin, x, y, 0);
          } else if IsBorderCell(maze, x, y) {
            thin := Set(thin, x, y, 1);
          }
        }
      }
    }
  }

  /** `generate_maze`, with `random.choice` as `pick`, the exit's randint calls as `draw`
      and `random.sample` as `samplePick`. Returns
      (thin_walls, maze, red_zones, cell_size, wall_thickness). */
  method GenerateMaze(width: int, height: int, cellSize: int, pick: nat -> nat, draw: ExitDraw, samplePick: nat -> nat)
    returns (thinWalls: seq<seq<int>>, maze: seq<seq<int>>, redZones: seq<Cell>, cs: int, wallThickness: int)
    requires cellSize > 0
    requires width / cellSize >= 1 && height / cellSize >= 1
    requires ValidExitDraw(draw, width / cellSize, height / cellSize)
    ensures var cols, rows := width / cellSize, height / cellSize;
      IsGrid(maze, cols, rows) && IsGrid(thinWalls, cols, rows)
    ensures cs == cellSize && wallThickness == MainWallThickness
    // the exit is the drawn non-corner border cell and the only 2; the 3 × 3 start block
    // is clear but for the exit; cells at odd offsets from the centre on both axes outside
    // it are walls
    ensures var cols, rows := width / cellSize, height / cellSize;
      LaidWithExit(maze, cols, rows, 1, ExitCell(draw, cols, rows))
    // red zones: int(0.3 * n) distinct walls touching a passage, none within two cells of
    // the exit on both axes
    ensures var cols, rows := width / cellSize, height / cellSize;
      var e := ExitCell(draw, cols, rows);
      Distinct(redZones)
      && (forall r | r in redZones :: BorderWall(maze, cols, rows, r) && !NearExit(r, e, MainExitDistance))
      && |redZones| == RedZoneCount(|RedZoneCandidates(maze, cols, rows, e, MainExitDistance)|,
                                    MainRedZoneNum, MainRedZoneDen)
    // thin walls: the walls touching a passage that are not red zones
    ensures var cols, rows := width / cellSize, height / cellSize;
      forall y, x | 0 <= y < rows && 0 <= x < cols ::
        thinWalls[y][x] == if BorderWall(maze, cols, rows, (x, y)) && (x, y) !in redZones then 1 else 0
  {
    var cols, rows: nat := width / cellSize, height / cellSize;
    var laid := CarveFromCentre(cols, rows, 1, pick);
    thinWalls := Filled(cols, rows, Passage);
    var exitPos;
    maze, exitPos := CreateExit(laid, cols, rows, draw);
    ExitOverLaid(laid, maze, cols, rows, 1, exitPos);
    var candidates := CollectCandidates(maze, cols, rows, exitPos);
    RedZoneCandidatesSpec(maze, cols, rows, exitPos, MainExitDistance);
    redZones := Sample(candidates, RedZoneCount(|candidates|, MainRedZoneNum, MainRedZoneDen), samplePick);
    thinWalls := MarkThinWalls(maze, thinWalls, cols, rows, redZones);
    cs, wallThickness := cellSize, MainWallThickness;
  }
}
