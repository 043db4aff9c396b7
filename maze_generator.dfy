/** The `MazeGenerator` class of src/maze/generator.py: a 3 × 3 start block, depth-first
    carving, an exit on the border, thin walls on every wall touching a passage, and red
    zones sampled from those thin walls that are not close to the exit. */
module MazeGen {
  import opened Builtins
  import opened Grid
  import opened Carving
  import opened MazeQueries

  /** The configuration fields the generator reads; `red_zone_percent` is the fraction
      redZoneNum / redZoneDen. */
  datatype Config = Config(width: int, height: int, cellSize: int, wallThickness: int,
                           minRedZoneDistanceFromExit: int, redZoneNum: nat, redZoneDen: nat)

  datatype MazeGenerator = MazeGenerator(config: Config, cols: int, rows: int)

  /** `__init__`: as many whole cells as fit in the window on each axis. */
  function NewMazeGenerator(config: Config): (gen: MazeGenerator)
    requires config.cellSize != 0
    ensures gen.config == config
    ensures config.cellSize > 0 ==>
      gen.cols * config.cellSize <= config.width < (gen.cols + 1) * config.cellSize
      && gen.rows * config.cellSize <= config.height < (gen.rows + 1) * config.cellSize
  {
    MazeGenerator(config, FloorDiv(config.width, config.cellSize), FloorDiv(config.height, config.cellSize))
  }

  /** `_create_exit`: writes 2 at the drawn border cell, whatever was there, and returns it. */
  method CreateExit(maze: seq<seq<int>>, cols: int, rows: int, draw: ExitDraw)
    returns (out: seq<seq<int>>, exitPos: Cell)
    requires cols >= 1 && rows >= 1 && IsGrid(maze, cols, rows) && ValidExitDraw(draw, cols, rows)
    ensures exitPos == ExitCell(draw, cols, rows) && NonCornerBorder(exitPos, cols, rows)
    ensures IsGrid(out, cols, rows) && out[exitPos.1][exitPos.0] == Exit
    ensures forall y, x | 0 <= y < rows && 0 <= x < cols && (x, y) != exitPos :: out[y][x] == maze[y][x]
  {
    var exitX, exitY;
    if draw.side == 0 {
      exitX, exitY := draw.offset, 0;
    } else if draw.side == 1 {
      exitX, exitY := cols - 1, draw.offset;
    } else if draw.side == 2 {
      exitX, exitY := draw.offset, rows - 1;
    } else {
      exitX, exitY := 0, draw.offset;
    }
    out := Set(maze, exitX, exitY, Exit);
    exitPos := (exitX, exitY);
  }

  lemma ExitOverLaid(g: seq<seq<int>>, out: seq<seq<int>>, cols: nat, rows: nat, size: int, e: Cell)
    requires Laid(g, cols, rows, size) && InBounds(e, cols, rows)
    requires IsGrid(out, cols, rows) && out[e.1][e.0] == Exit
    requires forall y, x | 0 <= y < rows && 0 <= x < cols && (x, y) != e :: out[y][x] == g[y][x]
    ensures LaidWithExit(out, cols, rows, size, e)
  {
  }

  /** The mask after the wall pass has reached cell (x, y): every border wall before it in
      row-major order is marked 1, every other entry is as it was. */
  predicate MarkedUpTo(maze: seq<seq<int>>, thin0: seq<seq<int>>, thin: seq<seq<int>>, cols: nat, rows: nat,
                       y: int, x: int)
    requires IsGrid(thin0, cols, rows)
  {
    IsGrid(thin, cols, rows)
    && forall yy, xx | 0 <= yy < rows && 0 <= xx < cols ::
         thin[yy][xx] == if (yy < y || (yy == y && xx < x)) && BorderWall(maze, cols, rows, (xx, yy))
                         then 1 else thin0[yy][xx]
  }

  lemma MarkNext(maze: seq<seq<int>>, thin0: seq<seq<int>>, thin: seq<seq<int>>, cols: nat, rows: nat, y: int, x: int)
    requires IsGrid(thin0, cols, rows) && 0 <= y < rows && 0 <= x < cols
    requires MarkedUpTo(maze, thin0, thin, cols, rows, y, x)
    ensures MarkedUpTo(maze, thin0, if BorderWall(maze, cols, rows, (x, y)) then Set(thin, x, y, 1) else thin,
                       cols, rows, y, x + 1)
  {
  }

  lemma MarkNextRow(maze: seq<seq<int>>, thin0: seq<seq<int>>, thin: seq<seq<int>>, cols: nat, rows: nat, y: int)
    requires IsGrid(thin0, cols, rows)
    requires MarkedUpTo(maze, thin0, thin, cols, rows, y, cols)
    ensures MarkedUpTo(maze, thin0, thin, cols, rows, y + 1, 0)
  {
  }

  /** The candidates once the wall pass has reached cell (x, y). */
  function CandidatesUpTo(maze: seq<seq<int>>, cols: nat, rows: nat, e: Cell, d: int, y: nat, x: nat): seq<Cell> {
    Where(c => RedZoneCandidate(maze, cols, rows, e, d, c), cols, y)
    + WhereRow(c => RedZoneCandidate(maze, cols, rows, e, d, c), y, x)
  }

  lemma CandidatesNext(maze: seq<seq<int>>, cols: nat, rows: nat, e: Cell, d: int, y: nat, x: nat)
    ensures CandidatesUpTo(maze, cols, rows, e, d, y, x + 1)
      == CandidatesUpTo(maze, cols, rows, e, d, y, x)
         + if RedZoneCandidate(maze, cols, rows, e, d, (x, y)) then [(x, y)] else []
  {
    var p := c => RedZoneCandidate(maze, cols, rows, e, d, c);
    assert WhereRow(p, y, x + 1) == WhereRow(p, y, x) + if p((x, y)) then [(x, y)] else [];
  }

  lemma CandidatesNextRow(maze: seq<seq<int>>, cols: nat, rows: nat, e: Cell, d: int, y: nat)
    ensures CandidatesUpTo(maze, cols, rows, e, d, y, cols) == CandidatesUpTo(maze, cols, rows, e, d, y + 1, 0)
  {
  }

  /** The wall pass of `generate`: in row-major order, every wall touching a passage becomes
      a thin wall, and those not within d of the exit on both axes become candidates. */
  method ClassifyWalls(maze: seq<seq<int>>, thin0: seq<seq<int>>, cols: nat, rows: nat, e: Cell, d: int)
    returns (candidates: seq<Cell>, thin: seq<seq<int>>)
    requires rows > 0 && IsGrid(maze, cols, rows) && IsGrid(thin0, cols, rows)
    ensures candidates == RedZoneCandidates(maze, cols, rows, e, d)
    ensures IsGrid(thin, cols, rows)
    ensures forall y, x | 0 <= y < rows && 0 <= x < cols ::
      thin[y][x] == if BorderWall(maze, cols, rows, (x, y)) then 1 else thin0[y][x]
  {
    candidates, thin := [], thin0;
    for y := 0 to rows
      invariant candidates == CandidatesUpTo(maze, cols, rows, e, d, y, 0)
      invariant MarkedUpTo(maze, thin0, thin, cols, rows, y, 0)
    {
      for x := 0 to cols
        invariant candidates == CandidatesUpTo(maze, cols, rows, e, d, y, x)
        invariant MarkedUpTo(maze, thin0, thin, cols, rows, y, x)
      {
        CandidatesNext(maze, cols, rows, e, d, y, x);
        MarkNext(maze, thin0, thin, cols, rows, y, x);
        if maze[y][x] == Wall {
          if IsBorderCell(maze, x, y) {
            if Abs(x - e.0) > d || Abs(y - e.1) > d {
              candidates := candidates + [(x, y)];
            }
            thin := Set(thin, x, y, 1);
          }
        }
      }
      CandidatesNextRow(maze, cols, rows, e, d, y);
      MarkNextRow(maze, thin0, thin, cols, rows, y);
    }
  }

  /** `generate`, with `random.choice` as `pick`, the exit's randint calls as `draw` and
      `random.sample` as `samplePick`. */
  method Generate(gen: MazeGenerator, pick: nat -> nat, draw: ExitDraw, samplePick: nat -> nat)
    returns (m: Maze)
    requires gen.config.cellSize != 0
    requires gen.cols >= 1 && gen.rows >= 1 && ValidExitDraw(draw, gen.cols, gen.rows)
    requires 0 < gen.config.redZoneDen && gen.config.redZoneNum <= gen.config.redZoneDen
    ensures WellFormed(m) && Cols(m) == gen.cols && Rows(m) == gen.rows
    ensures m.cellSize == gen.config.cellSize && m.wallThickness == gen.config.wallThickness
    // the exit is the drawn non-corner border cell and the only 2; the 3 × 3 start block is
    // clear but for the exit; cells at odd offsets from the centre on both axes outside it
    // are walls
    ensures m.exitPos == ExitCell(draw, gen.cols, gen.rows)
    ensures LaidWithExit(m.fullMaze, gen.cols, gen.rows, 1, m.exitPos)
    // thin walls: exactly the walls touching a passage
    ensures forall y, x | 0 <= y < gen.rows && 0 <= x < gen.cols ::
      m.thinWalls[y][x] == if BorderWall(m.fullMaze, gen.cols, gen.rows, (x, y)) then 1 else 0
    // red zones: int(n * red_zone_percent) distinct thin walls, none within the minimum
    // distance of the exit on both axes
    ensures Distinct(m.redZones)
    ensures forall r | r in m.redZones ::
      BorderWall(m.fullMaze, gen.cols, gen.rows, r) && !NearExit(r, m.exitPos, gen.config.minRedZoneDistanceFromExit)
    ensures |m.redZones| == RedZoneCount(
      |RedZoneCandidates(m.fullMaze, gen.cols, gen.rows, m.exitPos, gen.config.minRedZoneDistanceFromExit)|,
      gen.config.redZoneNum, gen.config.redZoneDen)
    ensures RedZonesAreThinWalls(m)
  {
    var cols, rows: nat := gen.cols, gen.rows;
    var laid := CarveFromCentre(cols, rows, 1, pick);
    var thinWalls := Filled(cols, rows, Passage);
    var maze, exitPos := CreateExit(laid, cols, rows, draw);
    ExitOverLaid(laid, maze, cols, rows, 1, exitPos);
    var candidates;
    var d := gen.config.minRedZoneDistanceFromExit;
    candidates, thinWalls := ClassifyWalls(maze, thinWalls, cols, rows, exitPos, d);
    RedZoneCandidatesSpec(maze, cols, rows, exitPos, d);
    var redZones := Sample(candidates, RedZoneCount(|candidates|, gen.config.redZoneNum, gen.config.redZoneDen),
                           samplePick);
    m := Maze(thinWalls, maze, redZones, exitPos, gen.config.cellSize, gen.config.wallThickness);
  }
}
