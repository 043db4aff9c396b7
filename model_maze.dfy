/** The canonical maze generator, `MazeGenerator.generate_maze` of src/model/maze.py: a
    grid of walls, a cleared start block of radius `START_ZONE_SIZE`, depth-first carving,
    an exit on the border, red zones sampled from the border walls and a thin-wall mask
    that leaves the red zones out. */
module ModelMaze {
  import opened Builtins
  import opened Grid
  import opened Utils
  import opened Carving

  /** The exit draw of this variant. The exit table is a dict literal, so all four
      `randint` calls run before `exit_pos[exit_side]` picks one. */
  datatype DictExitDraw = DictExitDraw(side: int, top: int, right: int, bottom: int, left: int)

  /** What the five randint calls return; each range must be non-empty, so the grid has
      at least three columns and three rows. */
  predicate ValidDictExitDraw(d: DictExitDraw, cols: int, rows: int) {
    0 <= d.side <= 3 && 1 <= d.top <= cols - 2 && 1 <= d.right <= rows - 2
    && 1 <= d.bottom <= cols - 2 && 1 <= d.left <= rows - 2
  }

  /** `exit_pos[exit_side]`. */
  function DictExit(d: DictExitDraw, cols: int, rows: int): (c: Cell)
    requires ValidDictExitDraw(d, cols, rows)
    ensures InBounds(c, cols, rows) && NonCornerBorder(c, cols, rows)
  {
    [(d.top, 0), (cols - 1, d.right), (d.bottom, rows - 1), (0, d.left)][d.side]
  }

  /** The thin-wall loops: a wall touching a passage that is not a red zone becomes a
      thin wall; every other entry keeps its value. */
  method MarkThinWalls(maze: seq<seq<int>>, thin0: seq<seq<int>>, cols: nat, rows: nat, redZones: seq<Cell>)
    returns (thin: seq<seq<int>>)
    requires rows > 0 && IsGrid(maze, cols, rows) && IsGrid(thin0, cols, rows)
    ensures IsGrid(thin, cols, rows)
    ensures forall y, x | 0 <= y < rows && 0 <= x < cols ::
      thin[y][x] == if maze[y][x] == Wall && (x, y) !in redZones && IsBorderCell(maze, x, y) then 1 else thin0[y][x]
  {
    thin := thin0;
    for y := 0 to rows
      invariant IsGrid(thin, cols, rows)
      invariant forall yy, xx | 0 <= yy < rows && 0 <= xx < cols ::
        thin[yy][xx] == if yy < y && maze[yy][xx] == Wall && (xx, yy) !in redZones && IsBorderCell(maze, xx, yy)
                        then 1 else thin0[yy][xx]
    {
      for x := 0 to cols
        invariant IsGrid(thin, cols, rows)
        invariant forall yy, xx | 0 <= yy < rows && 0 <= xx < cols ::
          thin[yy][xx] == if (yy < y || (yy == y && xx < x)) && maze[yy][xx] == Wall && (xx, yy) !in redZones
                             && IsBorderCell(maze, xx, yy)
                          then 1 else thin0[yy][xx]
      {
        if maze[y][x] == Wall && (x, y) !in redZones {
          if IsBorderCell(maze, x, y) {
            thin := Set(thin, x, y, 1);
          }
        }
      }
    }
  }

  /** `generate_maze()`, with the configuration constants as parameters, the danger-zone
      ratio as num/den, and the random draws as oracles: `pick` for `random.choice`,
      `exitDraw` for the exit's randint calls, `samplePick` for `random.sample`. */
  method GenerateMaze(width: int, height: int, cellSize: int, startZoneSize: int, ratioNum: nat, ratioDen: nat,
                      pick: nat -> nat, exitDraw: DictExitDraw, samplePick: nat -> nat)
    returns (thinWalls: seq<seq<int>>, maze: seq<seq<int>>, redZones: seq<Cell>, cs: int)
    requires cellSize > 0
    requires ValidDictExitDraw(exitDraw, width / cellSize, height / cellSize)
    requires 0 < ratioDen && ratioNum <= ratioDen
    ensures var cols, rows := width / cellSize, height / cellSize;
      IsGrid(maze, cols, rows) && IsGrid(thinWalls, cols, rows) && cs == cellSize
    // 2 only at the exit, a non-corner border cell; the start block clear but for the exit;
    // the cells at odd offsets from the centre on both axes outside it still walls
    ensures var cols, rows := width / cellSize, height / cellSize;
      var e := DictExit(exitDraw, cols, rows);
      NonCornerBorder(e, cols, rows) && LaidWithExit(maze, cols, rows, startZoneSize, e)
    // a start block of radius 2 or more leaves nothing for the search to carve
    ensures var cols, rows := width / cellSize, height / cellSize;
      var e := DictExit(exitDraw, cols, rows);
      startZoneSize >= 2 ==> forall y, x | 0 <= y < rows && 0 <= x < cols && (x, y) != e ::
        maze[y][x] == if InZone((x, y), cols / 2, rows / 2, startZoneSize) then Passage else Wall
    // red zones: distinct border walls, int(len(wall_cells) * ratio) of them
    ensures var cols, rows := width / cellSize, height / cellSize;
      Distinct(redZones) && (forall r | r in redZones :: BorderWall(maze, cols, rows, r))
      && |redZones| == RedZoneCount(|BorderWalls(maze, cols, rows)|, ratioNum, ratioDen)
    // thin walls: the border walls that are not red zones
    ensures var cols, rows := width / cellSize, height / cellSize;
      forall y, x | 0 <= y < rows && 0 <= x < cols ::
        thinWalls[y][x] == if BorderWall(maze, cols, rows, (x, y)) && (x, y) !in redZones then 1 else 0
    ensures forall r | r in redZones :: thinWalls[r.1][r.0] == 0
  {
    var cols, rows := width / cellSize, height / cellSize;
    thinWalls := Filled(cols, rows, Passage);
    maze := LayMaze(cols, rows, startZoneSize, pick, exitDraw);
    var wallCells := BorderWalls(maze, cols, rows);
    BorderWallsSpec(maze, cols, rows);
    redZones := Sample(wallCells, RedZoneCount(|wallCells|, ratioNum, ratioDen), samplePick);
    thinWalls := MarkThinWalls(maze, thinWalls, cols, rows, redZones);
    ThinWallsOfMask(maze, thinWalls, cols, rows, redZones);
    cs := cellSize;
  }

  /** Marking a zero mask leaves 1 exactly on the border walls that are not red zones, so
      the red zones, being border walls, read 0. */
  lemma ThinWallsOfMask(maze: seq<seq<int>>, thin: seq<seq<int>>, cols: nat, rows: nat, redZones: seq<Cell>)
    requires rows > 0 && IsGrid(maze, cols, rows) && IsGrid(thin, cols, rows)
    requires forall y, x | 0 <= y < rows && 0 <= x < cols ::
      thin[y][x] == if maze[y][x] == Wall && (x, y) !in redZones && IsBorderCell(maze, x, y)
                    then 1 else Filled(cols, rows, Passage)[y][x]
    requires forall r | r in redZones :: BorderWall(maze, cols, rows, r)
    ensures forall y, x | 0 <= y < rows && 0 <= x < cols ::
      thin[y][x] == if BorderWall(maze, cols, rows, (x, y)) && (x, y) !in redZones then 1 else 0
    ensures forall r | r in redZones :: InBounds(r, cols, rows) && thin[r.1][r.0] == 0
  {
  }

  /** The maze grid of `generate_maze()`: walls, the start block, the carving, then the
      exit written at the drawn border cell. */
  method LayMaze(cols: nat, rows: nat, startZoneSize: int, pick: nat -> nat, exitDraw: DictExitDraw)
    returns (maze: seq<seq<int>>)
    requires ValidDictExitDraw(exitDraw, cols, rows)
    ensures var e := DictExit(exitDraw, cols, rows);
      NonCornerBorder(e, cols, rows) && LaidWithExit(maze, cols, rows, startZoneSize, e)
    ensures var e := DictExit(exitDraw, cols, rows);
      startZoneSize >= 2 ==> forall y, x | 0 <= y < rows && 0 <= x < cols && (x, y) != e ::
        maze[y][x] == if InZone((x, y), cols / 2, rows / 2, startZoneSize) then Passage else Wall
  {
    maze := CarveFromCentre(cols, rows, startZoneSize, pick);
    var (ex, ey) := DictExit(exitDraw, cols, rows);
    PlaceExit(maze, cols, rows, startZoneSize, (ex, ey));
    if IsValidCell(ex, ey, maze) {
      maze := Set(maze, ex, ey, Exit);
    }
  }
}
