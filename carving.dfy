/** The steps the three maze generators share: clearing the start block, the randomized
    depth-first carving on the lattice of cells at even offsets from the centre, the
    border-cell test, the exit draw and the red-zone count. */
module Carving {
  import opened Builtins
  import opened Grid

  /** The square of cells within `size` of the centre on both axes (Python's
      `range(c - size, c + size + 1)` on each axis). */
  predicate InZone(c: Cell, cx: int, cy: int, size: int) {
    cx - size <= c.0 <= cx + size && cy - size <= c.1 <= cy + size
  }

  /** The start-zone loops: every in-bounds cell of the block becomes a passage, nothing
      else changes. */
  method ClearStartZone(g0: seq<seq<int>>, cols: int, rows: int, cx: int, cy: int, size: int)
    returns (g: seq<seq<int>>)
    requires IsGrid(g0, cols, rows)
    ensures IsGrid(g, cols, rows)
    ensures forall y, x | 0 <= y < rows && 0 <= x < cols ::
      g[y][x] == if InZone((x, y), cx, cy, size) then Passage else g0[y][x]
  {
    g := g0;
    var y := cy - size;
    while y <= cy + size
      invariant cy - size <= y
      invariant IsGrid(g, cols, rows)
      invariant forall yy, xx | 0 <= yy < rows && 0 <= xx < cols ::
        g[yy][xx] == if InZone((xx, yy), cx, cy, size) && yy < y then Passage else g0[yy][xx]
    {
      var x := cx - size;
      while x <= cx + size
        invariant cx - size <= x
        invariant IsGrid(g, cols, rows)
        invariant forall yy, xx | 0 <= yy < rows && 0 <= xx < cols ::
          g[yy][xx] == if InZone((xx, yy), cx, cy, size) && (yy < y || (yy == y && xx < x))
                       then Passage else g0[yy][xx]
      {
        if 0 <= x < cols && 0 <= y < rows {
          g := Set(g, x, y, Passage);
        }
        x := x + 1;
      }
      y := y + 1;
    }
  }

  /** The k-th carving direction from (x, y), in the order the source lists them:
      (-2, 0), (2, 0), (0, -2), (0, 2), that is left, right, up, down. */
  function DirectionCell(x: int, y: int, k: int): Cell {
    if k == 0 then (x - 2, y) else if k == 1 then (x + 2, y)
    else if k == 2 then (x, y - 2) else (x, y + 2)
  }

  /** A cell the depth-first search may step to: inside the grid and still a wall. */
  predicate Unvisited(g: seq<seq<int>>, cols: int, rows: int, c: Cell)
    requires IsGrid(g, cols, rows)
  {
    InBounds(c, cols, rows) && g[c.1][c.0] == Wall
  }

  function Keep(g: seq<seq<int>>, cols: int, rows: int, c: Cell): seq<Cell>
    requires IsGrid(g, cols, rows)
  {
    if Unvisited(g, cols, rows, c) then [c] else []
  }

  /** The lattice neighbours of (x, y) that the search may still carve into, in direction
      order. */
  function UnvisitedNeighbors(g: seq<seq<int>>, cols: int, rows: int, x: int, y: int): seq<Cell>
    requires IsGrid(g, cols, rows)
  {
    Keep(g, cols, rows, (x - 2, y)) + Keep(g, cols, rows, (x + 2, y))
    + Keep(g, cols, rows, (x, y - 2)) + Keep(g, cols, rows, (x, y + 2))
  }

  /** The candidates among the first k directions. */
  function NeighborsUpTo(g: seq<seq<int>>, cols: int, rows: int, x: int, y: int, k: nat): seq<Cell>
    requires IsGrid(g, cols, rows)
  {
    if k == 0 then [] else NeighborsUpTo(g, cols, rows, x, y, k - 1) + Keep(g, cols, rows, DirectionCell(x, y, k - 1))
  }

  /** Position of a lattice neighbour in the direction list; 4 for any other cell. */
  function DirectionRank(x: int, y: int, c: Cell): int {
    if c == (x - 2, y) then 0 else if c == (x + 2, y) then 1
    else if c == (x, y - 2) then 2 else if c == (x, y + 2) then 3 else 4
  }

  /** The candidates are exactly the in-bounds cells two steps away along one axis that
      are still walls, listed left, right, up, down. */
  lemma UnvisitedNeighborsSpec(g: seq<seq<int>>, cols: int, rows: int, x: int, y: int)
    requires IsGrid(g, cols, rows)
    ensures forall c :: c in UnvisitedNeighbors(g, cols, rows, x, y) <==>
      (c == (x - 2, y) || c == (x + 2, y) || c == (x, y - 2) || c == (x, y + 2))
      && InBounds(c, cols, rows) && g[c.1][c.0] == Wall
    ensures RankIncreasing(x, y, UnvisitedNeighbors(g, cols, rows, x, y))
  {
    var k0 := Keep(g, cols, rows, (x - 2, y));
    var k1 := Keep(g, cols, rows, (x + 2, y));
    var k2 := Keep(g, cols, rows, (x, y - 2));
    var k3 := Keep(g, cols, rows, (x, y + 2));
    KeepRank(g, cols, rows, x, y, 0);
    KeepRank(g, cols, rows, x, y, 1);
    KeepRank(g, cols, rows, x, y, 2);
    KeepRank(g, cols, rows, x, y, 3);
    IncreasingConcat(x, y, k0, k1);
    IncreasingConcat(x, y, k0 + k1, k2);
    IncreasingConcat(x, y, k0 + k1 + k2, k3);
  }

  lemma KeepRank(g: seq<seq<int>>, cols: int, rows: int, x: int, y: int, k: int)
    requires IsGrid(g, cols, rows) && 0 <= k < 4
    ensures |Keep(g, cols, rows, DirectionCell(x, y, k))| <= 1
    ensures forall c | c in Keep(g, cols, rows, DirectionCell(x, y, k)) :: DirectionRank(x, y, c) == k
  {
  }

  predicate RankIncreasing(x: int, y: int, s: seq<Cell>) {
    forall i, j | 0 <= i < j < |s| :: DirectionRank(x, y, s[i]) < DirectionRank(x, y, s[j])
  }

  lemma IncreasingConcat(x: int, y: int, s: seq<Cell>, t: seq<Cell>)
    requires RankIncreasing(x, y, s) && |t| <= 1
    requires forall a, b | a in s && b in t :: DirectionRank(x, y, a) < DirectionRank(x, y, b)
    ensures RankIncreasing(x, y, s + t)
  {
    forall i, j | 0 <= i < j < |s + t|
      ensures DirectionRank(x, y, (s + t)[i]) < DirectionRank(x, y, (s + t)[j])
    {
      if j >= |s| {
        assert (s + t)[i] == s[i] && s[i] in s;
        assert (s + t)[j] == t[j - |s|] && t[j - |s|] in t;
      }
    }
  }

  /** `_find_unvisited_neighbors` (and the same loop written inline in the other
      generators). */
  method FindUnvisitedNeighbors(g: seq<seq<int>>, cols: int, rows: int, x: int, y: int)
    returns (neighbors: seq<Cell>)
    requires IsGrid(g, cols, rows)
    ensures neighbors == UnvisitedNeighbors(g, cols, rows, x, y)
  {
    neighbors := [];
    for k := 0 to 4
      invariant neighbors == NeighborsUpTo(g, cols, rows, x, y, k)
    {
      var (nx, ny) := DirectionCell(x, y, k);
      if 0 <= nx < cols && 0 <= ny < rows && g[ny][nx] == Wall {
        neighbors := neighbors + [(nx, ny)];
      }
    }
    assert NeighborsUpTo(g, cols, rows, x, y, 1) == Keep(g, cols, rows, (x - 2, y));
    assert NeighborsUpTo(g, cols, rows, x, y, 2) == NeighborsUpTo(g, cols, rows, x, y, 1) + Keep(g, cols, rows, (x + 2, y));
    assert NeighborsUpTo(g, cols, rows, x, y, 3) == NeighborsUpTo(g, cols, rows, x, y, 2) + Keep(g, cols, rows, (x, y - 2));
    assert NeighborsUpTo(g, cols, rows, x, y, 4) == NeighborsUpTo(g, cols, rows, x, y, 3) + Keep(g, cols, rows, (x, y + 2));
  }

  /** The neighbour tests of the 3×3-block variant, written with the guards `x > 1`,
      `x < cols - 2`, `y > 1`, `y < rows - 2` instead of a bounds check: the guards keep
      every index inside the grid and select the same candidates in the same order. */
  function GuardedNeighbors(g: seq<seq<int>>, cols: int, rows: int, x: int, y: int): (r: seq<Cell>)
    requires IsGrid(g, cols, rows) && InBounds((x, y), cols, rows)
    ensures r == UnvisitedNeighbors(g, cols, rows, x, y)
  {
    (if x > 1 && g[y][x - 2] == Wall then [(x - 2, y)] else [])
    + (if x < cols - 2 && g[y][x + 2] == Wall then [(x + 2, y)] else [])
    + (if y > 1 && g[y - 2][x] == Wall then [(x, y - 2)] else [])
    + (if y < rows - 2 && g[y + 2][x] == Wall then [(x, y + 2)] else [])
  }

  /** g differs from g0 only in cells that became passages. */
  predicate OnlyCarved(g0: seq<seq<int>>, g: seq<seq<int>>, cols: int, rows: int)
    requires IsGrid(g0, cols, rows) && IsGrid(g, cols, rows)
  {
    forall y, x | 0 <= y < rows && 0 <= x < cols :: g[y][x] == g0[y][x] || g[y][x] == Passage
  }

  /** The depth-first search's nodes: even offsets from the centre on both axes. */
  predicate OnLattice(c: Cell, cx: int, cy: int) {
    (c.0 - cx) % 2 == 0 && (c.1 - cy) % 2 == 0
  }

  /** Cells at an odd offset from the centre on both axes are never carved. */
  predicate OddCellsKept(g0: seq<seq<int>>, g: seq<seq<int>>, cols: int, rows: int, cx: int, cy: int)
    requires IsGrid(g0, cols, rows) && IsGrid(g, cols, rows)
  {
    forall y, x | 0 <= y < rows && 0 <= x < cols && (x - cx) % 2 == 1 && (y - cy) % 2 == 1 ::
      g[y][x] == g0[y][x]
  }

  /** A cell with no candidate keeps having none once more walls are carved. */
  lemma NoNeighborsStay(g: seq<seq<int>>, g': seq<seq<int>>, cols: int, rows: int, x: int, y: int)
    requires IsGrid(g, cols, rows) && IsGrid(g', cols, rows) && OnlyCarved(g, g', cols, rows)
    requires UnvisitedNeighbors(g, cols, rows, x, y) == []
    ensures UnvisitedNeighbors(g', cols, rows, x, y) == []
  {
    UnvisitedNeighborsSpec(g, cols, rows, x, y);
    UnvisitedNeighborsSpec(g', cols, rows, x, y);
  }

  /** One carving step from (x, y) to its candidate (nx, ny): the candidate and the cell
      between them become passages. A wall disappears, only passages are made, and no cell
      at an odd offset on both axes is touched. */
  function CarveStep(g: seq<seq<int>>, cols: int, rows: int, cx: int, cy: int, x: int, y: int, nx: int, ny: int)
    : (r: seq<seq<int>>)
    requires IsGrid(g, cols, rows) && InBounds((x, y), cols, rows) && OnLattice((x, y), cx, cy)
    requires (nx, ny) in UnvisitedNeighbors(g, cols, rows, x, y)
    ensures IsGrid(r, cols, rows) && OnlyCarved(g, r, cols, rows) && OddCellsKept(g, r, cols, rows, cx, cy)
    ensures Walls(r) < Walls(g)
    ensures InBounds((nx, ny), cols, rows) && OnLattice((nx, ny), cx, cy)
    ensures r[ny][nx] == Passage && r[(ny + y) / 2][(nx + x) / 2] == Passage
  {
    StepCells(g, cols, rows, cx, cy, x, y, nx, ny);
    StepCarves(g, cols, rows, cx, cy, x, y, nx, ny);
    StepRemovesWalls(g, cols, rows, cx, cy, x, y, nx, ny);
    Set(Set(g, nx, ny, Passage), (nx + x) / 2, (ny + y) / 2, Passage)
  }

  /** The candidate is a lattice cell inside the grid, the midpoint too, and the midpoint
      is at an even offset on some axis. */
  lemma StepCells(g: seq<seq<int>>, cols: int, rows: int, cx: int, cy: int, x: int, y: int, nx: int, ny: int)
    requires IsGrid(g, cols, rows) && InBounds((x, y), cols, rows) && OnLattice((x, y), cx, cy)
    requires (nx, ny) in UnvisitedNeighbors(g, cols, rows, x, y)
    ensures InBounds((nx, ny), cols, rows) && OnLattice((nx, ny), cx, cy) && g[ny][nx] == Wall
    ensures InBounds(((nx + x) / 2, (ny + y) / 2), cols, rows) && ((nx + x) / 2, (ny + y) / 2) != (nx, ny)
    ensures ((nx + x) / 2 - cx) % 2 == 0 || ((ny + y) / 2 - cy) % 2 == 0
  {
    CandidateStep(g, cols, rows, x, y, (nx, ny));
    LatticeStep(cols, rows, cx, cy, x, y, nx, ny);
  }

  lemma StepCarves(g: seq<seq<int>>, cols: int, rows: int, cx: int, cy: int, x: int, y: int, nx: int, ny: int)
    requires IsGrid(g, cols, rows) && InBounds((x, y), cols, rows) && OnLattice((x, y), cx, cy)
    requires (nx, ny) in UnvisitedNeighbors(g, cols, rows, x, y)
    ensures InBounds((nx, ny), cols, rows) && InBounds(((nx + x) / 2, (ny + y) / 2), cols, rows)
    ensures var r := Set(Set(g, nx, ny, Passage), (nx + x) / 2, (ny + y) / 2, Passage);
      IsGrid(r, cols, rows) && OnlyCarved(g, r, cols, rows) && OddCellsKept(g, r, cols, rows, cx, cy)
      && r[ny][nx] == Passage && r[(ny + y) / 2][(nx + x) / 2] == Passage
  {
    StepCells(g, cols, rows, cx, cy, x, y, nx, ny);
    var g1 := Set(g, nx, ny, Passage);
    SetPassage(g, cols, rows, cx, cy, nx, ny);
    SetPassage(g1, cols, rows, cx, cy, (nx + x) / 2, (ny + y) / 2);
    CarvedTrans(g, g1, Set(g1, (nx + x) / 2, (ny + y) / 2, Passage), cols, rows, cx, cy);
  }

  lemma StepRemovesWalls(g: seq<seq<int>>, cols: int, rows: int, cx: int, cy: int, x: int, y: int, nx: int, ny: int)
    requires IsGrid(g, cols, rows) && InBounds((x, y), cols, rows) && OnLattice((x, y), cx, cy)
    requires (nx, ny) in UnvisitedNeighbors(g, cols, rows, x, y)
    ensures InBounds((nx, ny), cols, rows) && InBounds(((nx + x) / 2, (ny + y) / 2), cols, rows)
    ensures Walls(Set(Set(g, nx, ny, Passage), (nx + x) / 2, (ny + y) / 2, Passage)) < Walls(g)
  {
    StepCells(g, cols, rows, cx, cy, x, y, nx, ny);
    var g1 := Set(g, nx, ny, Passage);
    WallsSet(g, nx, ny, Passage);
    WallsSet(g1, (nx + x) / 2, (ny + y) / 2, Passage);
  }

  /** A candidate is an in-bounds wall two cells away along one axis. */
  lemma CandidateStep(g: seq<seq<int>>, cols: int, rows: int, x: int, y: int, n: Cell)
    requires IsGrid(g, cols, rows) && n in UnvisitedNeighbors(g, cols, rows, x, y)
    ensures InBounds(n, cols, rows) && g[n.1][n.0] == Wall
    ensures n == (x - 2, y) || n == (x + 2, y) || n == (x, y - 2) || n == (x, y + 2)
  {
    UnvisitedNeighborsSpec(g, cols, rows, x, y);
  }

  lemma LatticeStep(cols: int, rows: int, cx: int, cy: int, x: int, y: int, nx: int, ny: int)
    requires OnLattice((x, y), cx, cy) && InBounds((x, y), cols, rows) && InBounds((nx, ny), cols, rows)
    requires (nx, ny) == (x - 2, y) || (nx, ny) == (x + 2, y) || (nx, ny) == (x, y - 2) || (nx, ny) == (x, y + 2)
    ensures OnLattice((nx, ny), cx, cy)
    ensures InBounds(((nx + x) / 2, (ny + y) / 2), cols, rows)
    ensures ((nx + x) / 2 - cx) % 2 == 0 || ((ny + y) / 2 - cy) % 2 == 0
  {
    if nx == x - 2 { assert (nx + x) / 2 == x - 1 && (ny + y) / 2 == y; }
    else if nx == x + 2 { assert (nx + x) / 2 == x + 1 && (ny + y) / 2 == y; }
    else if ny == y - 2 { assert (nx + x) / 2 == x && (ny + y) / 2 == y - 1; }
    else { assert (nx + x) / 2 == x && (ny + y) / 2 == y + 1; }
  }

  lemma SetPassage(g: seq<seq<int>>, cols: int, rows: int, cx: int, cy: int, x: int, y: int)
    requires IsGrid(g, cols, rows) && InBounds((x, y), cols, rows)
    requires (x - cx) % 2 == 0 || (y - cy) % 2 == 0
    ensures IsGrid(Set(g, x, y, Passage), cols, rows)
    ensures OnlyCarved(g, Set(g, x, y, Passage), cols, rows)
    ensures OddCellsKept(g, Set(g, x, y, Passage), cols, rows, cx, cy)
  {
  }

  lemma CarvedTrans(g0: seq<seq<int>>, g1: seq<seq<int>>, g2: seq<seq<int>>, cols: int, rows: int, cx: int, cy: int)
    requires IsGrid(g0, cols, rows) && IsGrid(g1, cols, rows) && IsGrid(g2, cols, rows)
    requires OnlyCarved(g0, g1, cols, rows) && OnlyCarved(g1, g2, cols, rows)
    requires OddCellsKept(g0, g1, cols, rows, cx, cy) && OddCellsKept(g1, g2, cols, rows, cx, cy)
    ensures OnlyCarved(g0, g2, cols, rows) && OddCellsKept(g0, g2, cols, rows, cx, cy)
  {
  }

  /** A carving step keeps what the loop knows of the grid: only passages made since the
      start, odd cells untouched, and no candidate at any visited cell. */
  lemma StepKeeps(g0: seq<seq<int>>, g1: seq<seq<int>>, g2: seq<seq<int>>, cols: int, rows: int, cx: int, cy: int,
                  visited: set<Cell>)
    requires IsGrid(g0, cols, rows) && IsGrid(g1, cols, rows) && IsGrid(g2, cols, rows)
    requires OnlyCarved(g0, g1, cols, rows) && OnlyCarved(g1, g2, cols, rows)
    requires OddCellsKept(g0, g1, cols, rows, cx, cy) && OddCellsKept(g1, g2, cols, rows, cx, cy)
    requires forall v | v in visited :: UnvisitedNeighbors(g1, cols, rows, v.0, v.1) == []
    ensures OnlyCarved(g0, g2, cols, rows) && OddCellsKept(g0, g2, cols, rows, cx, cy)
    ensures forall v | v in visited :: UnvisitedNeighbors(g2, cols, rows, v.0, v.1) == []
  {
    CarvedTrans(g0, g1, g2, cols, rows, cx, cy);
    forall v | v in visited
      ensures UnvisitedNeighbors(g2, cols, rows, v.0, v.1) == []
    {
      NoNeighborsStay(g1, g2, cols, rows, v.0, v.1);
    }
  }

  /** What the carving loop keeps: the grid only gains passages and keeps its odd cells;
      the stack holds lattice cells, the centre at the bottom; the visited cells have no
      candidates left; and a centre without candidates means nothing was carved and
      nothing pushed. */
  predicate CarveInv(g0: seq<seq<int>>, g: seq<seq<int>>, cols: int, rows: int, cx: int, cy: int,
                     stack: seq<Cell>, visited: set<Cell>)
    requires IsGrid(g0, cols, rows) && IsGrid(g, cols, rows)
  {
    OnlyCarved(g0, g, cols, rows)
    && OddCellsKept(g0, g, cols, rows, cx, cy)
    && (forall i | 0 <= i < |stack| :: InBounds(stack[i], cols, rows) && OnLattice(stack[i], cx, cy))
    && (stack != [] ==> stack[0] == (cx, cy))
    && (stack == [] ==> (cx, cy) in visited)
    && (forall v | v in visited ::
          (InBounds(v, cols, rows) && OnLattice(v, cx, cy) && UnvisitedNeighbors(g, cols, rows, v.0, v.1) == []))
    && (g != g0 ==> UnvisitedNeighbors(g0, cols, rows, cx, cy) != [])
    && (g == g0 ==> |stack| <= 1)
  }

  /** Pushing the candidate carved from the top of the stack keeps the loop's invariant. */
  lemma PushKeeps(g0: seq<seq<int>>, g: seq<seq<int>>, cols: int, rows: int, cx: int, cy: int,
                  stack: seq<Cell>, visited: set<Cell>, n: Cell)
    requires IsGrid(g0, cols, rows) && IsGrid(g, cols, rows) && stack != []
    requires CarveInv(g0, g, cols, rows, cx, cy, stack, visited)
    requires n in UnvisitedNeighbors(g, cols, rows, stack[|stack| - 1].0, stack[|stack| - 1].1)
    ensures var (x, y) := stack[|stack| - 1];
      var g' := CarveStep(g, cols, rows, cx, cy, x, y, n.0, n.1);
      CarveInv(g0, g', cols, rows, cx, cy, stack + [n], visited)
  {
    var (x, y) := stack[|stack| - 1];
    var g' := CarveStep(g, cols, rows, cx, cy, x, y, n.0, n.1);
    StepKeeps(g0, g, g', cols, rows, cx, cy, visited);
    StepCells(g, cols, rows, cx, cy, x, y, n.0, n.1);
    CarvedDiffers(g0, g, g', cols, rows, n);
    if g == g0 {
      assert stack == [(cx, cy)];
    }
    PushLattice(stack, n, cols, rows, cx, cy);
  }

  /** A wall that only carving turned into a passage shows the grid has changed. */
  lemma CarvedDiffers(g0: seq<seq<int>>, g: seq<seq<int>>, g': seq<seq<int>>, cols: int, rows: int, n: Cell)
    requires IsGrid(g0, cols, rows) && IsGrid(g, cols, rows) && IsGrid(g', cols, rows)
    requires OnlyCarved(g0, g, cols, rows) && InBounds(n, cols, rows)
    requires g[n.1][n.0] == Wall && g'[n.1][n.0] == Passage
    ensures g' != g0
  {
    assert g0[n.1][n.0] == Wall;
  }

  lemma PushLattice(stack: seq<Cell>, n: Cell, cols: int, rows: int, cx: int, cy: int)
    requires forall i | 0 <= i < |stack| :: InBounds(stack[i], cols, rows) && OnLattice(stack[i], cx, cy)
    requires InBounds(n, cols, rows) && OnLattice(n, cx, cy)
    ensures forall i | 0 <= i < |stack + [n]| :: InBounds((stack + [n])[i], cols, rows) && OnLattice((stack + [n])[i], cx, cy)
  {
    var s' := stack + [n];
    assert forall i | 0 <= i < |stack| :: s'[i] == stack[i];
  }

  /** Popping a cell without candidates keeps the loop's invariant. */
  lemma PopKeeps(g0: seq<seq<int>>, g: seq<seq<int>>, cols: int, rows: int, cx: int, cy: int,
                 stack: seq<Cell>, visited: set<Cell>)
    requires IsGrid(g0, cols, rows) && IsGrid(g, cols, rows) && stack != []
    requires CarveInv(g0, g, cols, rows, cx, cy, stack, visited)
    requires UnvisitedNeighbors(g, cols, rows, stack[|stack| - 1].0, stack[|stack| - 1].1) == []
    ensures CarveInv(g0, g, cols, rows, cx, cy, stack[..|stack| - 1], visited + {stack[|stack| - 1]})
  {
    var top := stack[|stack| - 1];
    var s' := stack[..|stack| - 1];
    assert InBounds(top, cols, rows) && OnLattice(top, cx, cy);
    assert forall i | 0 <= i < |s'| :: s'[i] == stack[i];
    assert s' == [] ==> top == (cx, cy);
  }

  /** The carving loop: the top of the stack steps to a randomly chosen candidate
      (`random.choice`, the oracle `pick` numbering the draws), making it and the midpoint
      passages, or is popped when it has none. Every step carves one wall, so the loop
      ends. Afterwards every cell the search visited, the centre first among them, has no
      candidate left; no cell became anything but a passage; cells at odd offsets on both
      axes are untouched; and a centre without candidates leaves the grid as it was. */
  method Carve(g0: seq<seq<int>>, cols: int, rows: int, cx: int, cy: int, pick: nat -> nat)
    returns (g: seq<seq<int>>, ghost visited: set<Cell>)
    requires IsGrid(g0, cols, rows) && InBounds((cx, cy), cols, rows)
    ensures IsGrid(g, cols, rows)
    ensures OnlyCarved(g0, g, cols, rows)
    ensures OddCellsKept(g0, g, cols, rows, cx, cy)
    ensures (cx, cy) in visited
    ensures forall v | v in visited ::
      (InBounds(v, cols, rows) && OnLattice(v, cx, cy) && UnvisitedNeighbors(g, cols, rows, v.0, v.1) == [])
    ensures UnvisitedNeighbors(g0, cols, rows, cx, cy) == [] ==> g == g0
  {
    g := g0;
    var stack := [(cx, cy)];
    var draws := 0;
    visited := {};
    while stack != []
      invariant IsGrid(g, cols, rows)
      invariant CarveInv(g0, g, cols, rows, cx, cy, stack, visited)
      decreases Walls(g), |stack|
    {
      var (x, y) := stack[|stack| - 1];
      var neighbors := FindUnvisitedNeighbors(g, cols, rows, x, y);
      if neighbors != [] {
        var (nx, ny) := neighbors[pick(draws) % |neighbors|];
        draws := draws + 1;
        assert (nx, ny) in neighbors;
        PushKeeps(g0, g, cols, rows, cx, cy, stack, visited, (nx, ny));
        g := CarveStep(g, cols, rows, cx, cy, x, y, nx, ny);
        stack := stack + [(nx, ny)];
      } else {
        PopKeeps(g0, g, cols, rows, cx, cy, stack, visited);
        visited := visited + {(x, y)};
        stack := stack[..|stack| - 1];
      }
    }
  }

  /** The grid every generator builds before placing the exit: all walls, the start block
      of radius `size` around (cols // 2, rows // 2) cleared, then carved from the centre. */
  method CarveFromCentre(cols: nat, rows: nat, size: int, pick: nat -> nat) returns (g: seq<seq<int>>)
    requires cols >= 1 && rows >= 1
    ensures Laid(g, cols, rows, size)
    // a start block of radius 2 or more already clears the centre's lattice neighbours,
    // so the search finds no candidate and carves nothing
    ensures size >= 2 ==> forall y, x | 0 <= y < rows && 0 <= x < cols ::
      g[y][x] == if InZone((x, y), cols / 2, rows / 2, size) then Passage else Wall
  {
    var cx, cy := cols / 2, rows / 2;
    var g0 := Filled(cols, rows, Wall);
    var zoned := ClearStartZone(g0, cols, rows, cx, cy, size);
    ghost var visited;
    if size >= 2 {
      ZoneHasNoCandidates(zoned, cols, rows, size);
    }
    g, visited := Carve(zoned, cols, rows, cx, cy, pick);
    CarvedIsLaid(zoned, g, cols, rows, size);
  }

  /** A start block of radius 2 or more holds the centre's four lattice neighbours, or
      they lie outside the grid. */
  lemma ZoneHasNoCandidates(zoned: seq<seq<int>>, cols: nat, rows: nat, size: int)
    requires IsGrid(zoned, cols, rows) && size >= 2
    requires forall y, x | 0 <= y < rows && 0 <= x < cols ::
      zoned[y][x] == if InZone((x, y), cols / 2, rows / 2, size) then Passage else Wall
    ensures UnvisitedNeighbors(zoned, cols, rows, cols / 2, rows / 2) == []
  {
  }

  lemma CarvedIsLaid(zoned: seq<seq<int>>, g: seq<seq<int>>, cols: nat, rows: nat, size: int)
    requires IsGrid(zoned, cols, rows) && IsGrid(g, cols, rows)
    requires forall y, x | 0 <= y < rows && 0 <= x < cols ::
      zoned[y][x] == if InZone((x, y), cols / 2, rows / 2, size) then Passage else Wall
    requires OnlyCarved(zoned, g, cols, rows) && OddCellsKept(zoned, g, cols, rows, cols / 2, rows / 2)
    ensures Laid(g, cols, rows, size)
  {
  }

  /** What the walls, the start block and the carving leave: only passages and walls; the
      block clear; the cells at odd offsets from the centre on both axes outside the block
      still walls. */
  predicate Laid(g: seq<seq<int>>, cols: nat, rows: nat, size: int) {
    IsGrid(g, cols, rows)
    && (forall y, x | 0 <= y < rows && 0 <= x < cols :: g[y][x] == Passage || g[y][x] == Wall)
    && (forall y, x | 0 <= y < rows && 0 <= x < cols && InZone((x, y), cols / 2, rows / 2, size) ::
          g[y][x] == Passage)
    && (forall y, x | 0 <= y < rows && 0 <= x < cols && (x - cols / 2) % 2 == 1 && (y - rows / 2) % 2 == 1
          && !InZone((x, y), cols / 2, rows / 2, size) :: g[y][x] == Wall)
  }

  /** The generated grid once the exit e is written into a laid grid. */
  predicate LaidWithExit(g: seq<seq<int>>, cols: nat, rows: nat, size: int, e: Cell) {
    IsGrid(g, cols, rows)
    && (forall y, x | 0 <= y < rows && 0 <= x < cols :: Passage <= g[y][x] <= Exit)
    && (forall y, x | 0 <= y < rows && 0 <= x < cols :: g[y][x] == Exit <==> (x, y) == e)
    && (forall y, x | 0 <= y < rows && 0 <= x < cols && InZone((x, y), cols / 2, rows / 2, size) ::
          g[y][x] == Passage || (x, y) == e)
    && (forall y, x | 0 <= y < rows && 0 <= x < cols && (x - cols / 2) % 2 == 1 && (y - rows / 2) % 2 == 1
          && !InZone((x, y), cols / 2, rows / 2, size) && (x, y) != e :: g[y][x] == Wall)
  }

  lemma PlaceExit(g: seq<seq<int>>, cols: nat, rows: nat, size: int, e: Cell)
    requires Laid(g, cols, rows, size) && InBounds(e, cols, rows)
    ensures LaidWithExit(Set(g, e.0, e.1, Exit), cols, rows, size, e)
  {
  }

  /** Whether a cell touches a passage: some in-bounds 4-neighbour holds exactly 0 (an
      adjacent exit, 2, does not count). The source reads the width from the first row. */
  predicate IsBorderCell(g: seq<seq<int>>, x: int, y: int)
    requires |g| > 0 && IsGrid(g, |g[0]|, |g|) && InBounds((x, y), |g[0]|, |g|)
  {
    (x > 0 && g[y][x - 1] == Passage) || (x < |g[0]| - 1 && g[y][x + 1] == Passage)
    || (y > 0 && g[y - 1][x] == Passage) || (y < |g| - 1 && g[y + 1][x] == Passage)
  }

  function Adjacent4(x: int, y: int): seq<Cell> {
    [(x - 1, y), (x + 1, y), (x, y - 1), (x, y + 1)]
  }

  lemma IsBorderCellSpec(g: seq<seq<int>>, x: int, y: int)
    requires |g| > 0 && IsGrid(g, |g[0]|, |g|) && InBounds((x, y), |g[0]|, |g|)
    ensures IsBorderCell(g, x, y) <==>
      exists n :: n in Adjacent4(x, y) && InBounds(n, |g[0]|, |g|) && g[n.1][n.0] == Passage
  {
    var ns := Adjacent4(x, y);
    if IsBorderCell(g, x, y) {
      if x > 0 && g[y][x - 1] == Passage { assert ns[0] in ns; }
      else if x < |g[0]| - 1 && g[y][x + 1] == Passage { assert ns[1] in ns; }
      else if y > 0 && g[y - 1][x] == Passage { assert ns[2] in ns; }
      else { assert ns[3] in ns; }
    }
  }

  /** A wall cell next to a passage: the cells the generators turn into thin walls and
      draw red zones from. */
  predicate BorderWall(g: seq<seq<int>>, cols: int, rows: int, c: Cell) {
    rows > 0 && IsGrid(g, cols, rows) && InBounds(c, cols, rows)
    && g[c.1][c.0] == Wall && IsBorderCell(g, c.0, c.1)
  }

  /** The border walls in row-major order: the list the red zones are drawn from in the
      variant without an exit-distance rule. */
  function BorderWalls(g: seq<seq<int>>, cols: nat, rows: nat): seq<Cell> {
    Where(c => BorderWall(g, cols, rows, c), cols, rows)
  }

  /** The border walls are listed each once, and a cell is listed exactly when it is a
      border wall. */
  lemma BorderWallsSpec(g: seq<seq<int>>, cols: nat, rows: nat)
    ensures forall c :: c in BorderWalls(g, cols, rows) <==> BorderWall(g, cols, rows, c)
    ensures Distinct(BorderWalls(g, cols, rows))
  {
    WhereSpec(c => BorderWall(g, cols, rows, c), cols, rows);
    WhereDistinct(c => BorderWall(g, cols, rows, c), cols, rows);
  }

  /** Within d of the exit on both axes: the cells the exit-distance rule excludes. */
  predicate NearExit(c: Cell, e: Cell, d: int) {
    Abs(c.0 - e.0) <= d && Abs(c.1 - e.1) <= d
  }

  predicate RedZoneCandidate(g: seq<seq<int>>, cols: int, rows: int, e: Cell, d: int, c: Cell) {
    BorderWall(g, cols, rows, c) && (Abs(c.0 - e.0) > d || Abs(c.1 - e.1) > d)
  }

  /** The border walls not near the exit, in row-major order. */
  function RedZoneCandidates(g: seq<seq<int>>, cols: nat, rows: nat, e: Cell, d: int): seq<Cell> {
    Where(c => RedZoneCandidate(g, cols, rows, e, d, c), cols, rows)
  }

  /** A cell is a red-zone candidate exactly when it is a border wall that is not within d
      of the exit on both axes; the candidates come in row-major order, each once. */
  lemma RedZoneCandidatesSpec(g: seq<seq<int>>, cols: nat, rows: nat, e: Cell, d: int)
    ensures forall c :: c in RedZoneCandidates(g, cols, rows, e, d) <==>
      BorderWall(g, cols, rows, c) && !NearExit(c, e, d)
    ensures Distinct(RedZoneCandidates(g, cols, rows, e, d))
    ensures forall i, j | 0 <= i < j < |RedZoneCandidates(g, cols, rows, e, d)| ::
      RowMajorBefore(RedZoneCandidates(g, cols, rows, e, d)[i], RedZoneCandidates(g, cols, rows, e, d)[j])
  {
    WhereSpec(c => RedZoneCandidate(g, cols, rows, e, d, c), cols, rows);
    WhereDistinct(c => RedZoneCandidate(g, cols, rows, e, d, c), cols, rows);
  }

  /** The exit draw `randint(0, 3)` for the side, then `randint(1, n - 2)` along it. */
  datatype ExitDraw = ExitDraw(side: int, offset: int)

  /** What randint can return: a side in 0..3 and an offset inside the chosen border. */
  predicate ValidExitDraw(d: ExitDraw, cols: int, rows: int) {
    0 <= d.side <= 3
    && (d.side % 2 == 0 ==> 1 <= d.offset <= cols - 2)
    && (d.side % 2 == 1 ==> 1 <= d.offset <= rows - 2)
  }

  /** On the grid's border but not in a corner. */
  predicate NonCornerBorder(c: Cell, cols: int, rows: int) {
    ((c.1 == 0 || c.1 == rows - 1) && 1 <= c.0 <= cols - 2)
    || ((c.0 == 0 || c.0 == cols - 1) && 1 <= c.1 <= rows - 2)
  }

  /** Sides 0..3 are top, right, bottom, left. */
  function ExitCell(d: ExitDraw, cols: int, rows: int): (c: Cell)
    requires ValidExitDraw(d, cols, rows) && cols >= 1 && rows >= 1
    ensures InBounds(c, cols, rows) && NonCornerBorder(c, cols, rows)
  {
    if d.side == 0 then (d.offset, 0)
    else if d.side == 1 then (cols - 1, d.offset)
    else if d.side == 2 then (d.offset, rows - 1)
    else (0, d.offset)
  }

  /** Every non-corner border cell is the exit for some draw. */
  lemma ExitCellOnto(c: Cell, cols: int, rows: int)
    requires InBounds(c, cols, rows) && NonCornerBorder(c, cols, rows)
    ensures exists d :: ValidExitDraw(d, cols, rows) && ExitCell(d, cols, rows) == c
  {
    var d := if c.1 == 0 && 1 <= c.0 <= cols - 2 then ExitDraw(0, c.0)
      else if c.1 == rows - 1 && 1 <= c.0 <= cols - 2 then ExitDraw(2, c.0)
      else if c.0 == cols - 1 then ExitDraw(1, c.1)
      else ExitDraw(3, c.1);
    assert ValidExitDraw(d, cols, rows) && ExitCell(d, cols, rows) == c;
  }

  /** `int(n * ratio)` for a ratio num/den in [0, 1]: never more than the n candidates,
      so `random.sample` accepts it. */
  function RedZoneCount(n: nat, num: nat, den: nat): (k: nat)
    requires 0 < den && num <= den
    ensures k <= n
  {
    MulLeDen(n, num, den);
    (n * num) / den
  }

  /** The count is the floor of n * num / den: the largest k with k * den <= n * num. */
  lemma RedZoneCountFloor(n: nat, num: nat, den: nat)
    requires 0 < den && num <= den
    ensures var k := RedZoneCount(n, num, den);
      k * den <= n * num < k * den + den
  {
  }

  lemma MulLeDen(n: nat, num: nat, den: nat)
    requires 0 < den && num <= den
    ensures (n * num) / den <= n
  {
    assert n * num <= n * den;
  }
}
