/** The `Maze` record of src/maze/maze.py and its three pixel queries. Pixel coordinates
    become cells by Python's floor division `//`, so negative coordinates fall into
    negative cells. */
module MazeQueries {
  import opened Builtins
  import opened Grid

  datatype Maze = Maze(thinWalls: seq<seq<int>>, fullMaze: seq<seq<int>>, redZones: seq<Cell>,
                       exitPos: Cell, cellSize: int, wallThickness: int)

  /** The width is read from the first row of the full grid and the thin-wall grid has the
      same shape; a zero cell size raises ZeroDivisionError. */
  predicate WellFormed(m: Maze) {
    |m.fullMaze| > 0 && IsGrid(m.fullMaze, |m.fullMaze[0]|, |m.fullMaze|)
    && IsGrid(m.thinWalls, |m.fullMaze[0]|, |m.fullMaze|) && m.cellSize != 0
  }

  function Cols(m: Maze): int requires |m.fullMaze| > 0 { |m.fullMaze[0]| }

  function Rows(m: Maze): int { |m.fullMaze| }

  /** `(x // cell_size, y // cell_size)`. */
  function CellOf(m: Maze, x: int, y: int): Cell
    requires m.cellSize != 0
  {
    (FloorDiv(x, m.cellSize), FloorDiv(y, m.cellSize))
  }

  /** `is_wall`: a thin wall of the grid; a cell outside the grid is never a wall. */
  predicate IsWall(m: Maze, x: int, y: int)
    requires WellFormed(m)
  {
    var (cx, cy) := CellOf(m, x, y);
    if 0 <= cx < Cols(m) && 0 <= cy < Rows(m) then m.thinWalls[cy][cx] == 1 else false
  }

  /** `is_red_zone`: plain membership of the cell, with no bounds check. */
  predicate IsRedZone(m: Maze, x: int, y: int)
    requires m.cellSize != 0
  {
    CellOf(m, x, y) in m.redZones
  }

  /** `check_exit`. */
  predicate CheckExit(m: Maze, x: int, y: int)
    requires m.cellSize != 0
  {
    var (cx, cy) := CellOf(m, x, y);
    var (ex, ey) := m.exitPos;
    cx == ex && cy == ey
  }

  /** The pixels of cell c: a square of side cell_size with its top-left corner at
      (c.0 * cell_size, c.1 * cell_size). */
  predicate InSquare(c: Cell, cs: int, x: int, y: int) {
    c.0 * cs <= x < c.0 * cs + cs && c.1 * cs <= y < c.1 * cs + cs
  }

  /** Floor division finds the one q with q * b <= a < q * b + b. */
  lemma FloorDivUnique(a: int, b: int, q: int)
    requires b > 0 && q * b <= a < q * b + b
    ensures FloorDiv(a, b) == q
  {
    var r := FloorDiv(a, b);
    FloorDivSpec(a, b);
    if r < q {
      MulMono(r + 1, q, b);
    } else if r > q {
      MulMono(q + 1, r, b);
    }
  }

  /** With a positive cell size, a pixel lies in the cell CellOf names and in no other. */
  lemma CellOfSquare(m: Maze, x: int, y: int, c: Cell)
    requires m.cellSize > 0
    ensures CellOf(m, x, y) == c <==> InSquare(c, m.cellSize, x, y)
  {
    if InSquare(c, m.cellSize, x, y) {
      FloorDivUnique(x, m.cellSize, c.0);
      FloorDivUnique(y, m.cellSize, c.1);
    }
  }

  /** `check_exit` holds exactly on the exit cell's square of pixels. */
  lemma CheckExitSquare(m: Maze, x: int, y: int)
    requires m.cellSize > 0
    ensures CheckExit(m, x, y) <==> InSquare(m.exitPos, m.cellSize, x, y)
  {
    CellOfSquare(m, x, y, m.exitPos);
  }

  /** Pixels left of or above the grid are never walls: floor division sends them to a
      negative cell (truncation would have sent (-1, 5) to column 0). */
  lemma NegativeNeverWall(m: Maze, x: int, y: int)
    requires WellFormed(m) && m.cellSize > 0 && (x < 0 || y < 0)
    ensures !IsWall(m, x, y)
  {
    var (cx, cy) := CellOf(m, x, y);
    FloorDivSpec(x, m.cellSize);
    FloorDivSpec(y, m.cellSize);
    if x < 0 && cx >= 0 {
      MulMono(0, cx, m.cellSize);
    }
    if y < 0 && cy >= 0 {
      MulMono(0, cy, m.cellSize);
    }
  }

  /** What the generator of src/maze/generator.py guarantees: every red zone is a thin
      wall of the grid. */
  predicate RedZonesAreThinWalls(m: Maze)
    requires WellFormed(m)
  {
    forall r | r in m.redZones :: InBounds(r, Cols(m), Rows(m)) && m.thinWalls[r.1][r.0] == 1
  }

  /** With that guarantee, a pixel in a red zone is also a wall pixel. */
  lemma RedZoneIsWall(m: Maze, x: int, y: int)
    requires WellFormed(m) && RedZonesAreThinWalls(m) && IsRedZone(m, x, y)
    ensures IsWall(m, x, y)
  {
    var c := CellOf(m, x, y);
    assert c in m.redZones;
  }
}
