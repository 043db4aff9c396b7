/** The maze grids: Python lists of rows, indexed `grid[y][x]`, with the cell values
    0 (passage), 1 (wall) and 2 (exit), and the row-major enumerations the generators
    build with nested loops over `range(rows)` and `range(cols)`. */
module Grid {
  import opened Builtins

  /** A cell `(x, y)`: column first, row second, as the source's tuples. */
  type Cell = (int, int)

  const Passage := 0
  const Wall := 1
  const Exit := 2

  /** `rows` rows of `cols` entries each. */
  predicate IsGrid(g: seq<seq<int>>, cols: int, rows: int) {
    |g| == rows && forall y | 0 <= y < rows :: |g[y]| == cols
  }

  predicate InBounds(c: Cell, cols: int, rows: int) {
    0 <= c.0 < cols && 0 <= c.1 < rows
  }

  /** A grid whose width is read from its first row, as `len(grid[0])` does. */
  predicate Rect(g: seq<seq<int>>) {
    |g| > 0 && IsGrid(g, |g[0]|, |g|)
  }

  /** The cell holding a pixel: `int(x) // cell_size` on each axis, truncation toward
      zero first, floor division second. */
  function PixelCell(p: (real, real), cs: int): Cell
    requires cs != 0
  {
    (FloorDiv(Trunc(p.0), cs), FloorDiv(Trunc(p.1), cs))
  }

  /** For pixels right of and below the origin, the cell is the square of side cs that
      holds the pixel, as `floor(x / cs)` would give. */
  lemma PixelCellSquare(p: (real, real), cs: int)
    requires cs > 0 && p.0 >= 0.0 && p.1 >= 0.0
    ensures var c := PixelCell(p, cs);
      (c.0 * cs) as real <= p.0 < (c.0 * cs + cs) as real
      && (c.1 * cs) as real <= p.1 < (c.1 * cs + cs) as real
  {
    TruncSpec(p.0);
    TruncSpec(p.1);
    FloorDivSpec(Trunc(p.0), cs);
    FloorDivSpec(Trunc(p.1), cs);
  }

  /** Truncation first: a pixel just left of the grid, at x in (-1, 0), falls into
      column 0, not column -1. */
  lemma PixelCellTruncates()
    ensures PixelCell((-0.5, 3.0), 30) == (0, 0)
  {
  }

  /** `[[v for _ in range(cols)] for _ in range(rows)]`. */
  function Filled(cols: nat, rows: nat, v: int): (g: seq<seq<int>>)
    ensures IsGrid(g, cols, rows)
    ensures forall y, x | 0 <= y < rows && 0 <= x < cols :: g[y][x] == v
  {
    seq(rows, _ => seq(cols, _ => v))
  }

  /** `g[y][x] = v` on a copy of the grid. */
  function Set(g: seq<seq<int>>, x: int, y: int, v: int): (r: seq<seq<int>>)
    requires 0 <= y < |g| && 0 <= x < |g[y]|
    ensures |r| == |g| && forall k | 0 <= k < |g| :: |r[k]| == |g[k]|
    ensures r[y][x] == v
    ensures forall k, j | 0 <= k < |g| && 0 <= j < |g[k]| && (k != y || j != x) :: r[k][j] == g[k][j]
  {
    g[y := g[y][x := v]]
  }

  /** Number of wall entries in a row, and in a grid: the carving loops' termination measure. */
  function RowWalls(r: seq<int>): nat {
    if r == [] then 0 else RowWalls(r[..|r| - 1]) + (if r[|r| - 1] == Wall then 1 else 0)
  }

  function Walls(g: seq<seq<int>>): nat {
    if g == [] then 0 else Walls(g[..|g| - 1]) + RowWalls(g[|g| - 1])
  }

  lemma {:induction false} RowWallsSet(r: seq<int>, x: int, v: int)
    requires 0 <= x < |r| && v != Wall
    ensures RowWalls(r[x := v]) == RowWalls(r) - (if r[x] == Wall then 1 else 0)
    decreases |r|
  {
    var n := |r| - 1;
    var s := r[x := v];
    assert s[..n] == if x < n then r[..n][x := v] else r[..n];
    if x < n {
      RowWallsSet(r[..n], x, v);
    }
  }

  lemma {:induction false} WallsSet(g: seq<seq<int>>, x: int, y: int, v: int)
    requires 0 <= y < |g| && 0 <= x < |g[y]| && v != Wall
    ensures Walls(Set(g, x, y, v)) == Walls(g) - (if g[y][x] == Wall then 1 else 0)
    decreases |g|
  {
    var n := |g| - 1;
    var s := Set(g, x, y, v);
    if y < n {
      assert s[..n] == Set(g[..n], x, y, v);
      assert s[n] == g[n];
      WallsSet(g[..n], x, y, v);
    } else {
      assert s[..n] == g[..n];
      RowWallsSet(g[n], x, v);
    }
  }

  /** Row-major order: the order of `for y in range(rows): for x in range(cols)`. */
  predicate RowMajorBefore(a: Cell, b: Cell) {
    a.1 < b.1 || (a.1 == b.1 && a.0 < b.0)
  }

  /** The cells `(x, y)` with `x < n` of row y satisfying p, in increasing x. */
  function WhereRow(p: Cell -> bool, y: int, n: nat): seq<Cell> {
    if n == 0 then [] else WhereRow(p, y, n - 1) + (if p((n - 1, y)) then [(n - 1, y)] else [])
  }

  /** `[(x, y) for y in range(rows) for x in range(cols) if p((x, y))]`. */
  function Where(p: Cell -> bool, cols: nat, rows: nat): seq<Cell> {
    if rows == 0 then [] else Where(p, cols, rows - 1) + WhereRow(p, rows - 1, cols)
  }

  lemma {:induction false} WhereRowSpec(p: Cell -> bool, y: int, n: nat)
    ensures forall c :: c in WhereRow(p, y, n) <==> c.1 == y && 0 <= c.0 < n && p(c)
    ensures forall i, j | 0 <= i < j < |WhereRow(p, y, n)| ::
      WhereRow(p, y, n)[i].0 < WhereRow(p, y, n)[j].0
  {
    if n > 0 {
      WhereRowSpec(p, y, n - 1);
    }
  }

  /** The comprehension holds exactly the in-bounds cells satisfying p, in row-major order. */
  lemma WhereSpec(p: Cell -> bool, cols: nat, rows: nat)
    ensures forall c :: c in Where(p, cols, rows) <==> InBounds(c, cols, rows) && p(c)
    ensures forall i, j | 0 <= i < j < |Where(p, cols, rows)| ::
      RowMajorBefore(Where(p, cols, rows)[i], Where(p, cols, rows)[j])
  {
    WhereMembers(p, cols, rows);
    WhereOrdered(p, cols, rows);
  }

  lemma WhereMembers(p: Cell -> bool, cols: nat, rows: nat)
    ensures forall c :: c in Where(p, cols, rows) <==> InBounds(c, cols, rows) && p(c)
  {
    forall c ensures c in Where(p, cols, rows) <==> InBounds(c, cols, rows) && p(c) {
      WhereMember(p, cols, rows, c);
    }
  }

  lemma {:induction false} WhereMember(p: Cell -> bool, cols: nat, rows: nat, c: Cell)
    ensures c in Where(p, cols, rows) <==> InBounds(c, cols, rows) && p(c)
  {
    if rows > 0 {
      WhereMember(p, cols, rows - 1, c);
      WhereRowMember(p, rows - 1, cols, c);
      var a := Where(p, cols, rows - 1);
      var b := WhereRow(p, rows - 1, cols);
      assert Where(p, cols, rows) == a + b;
      ConcatMember(a, b, c);
      if c.1 == rows - 1 {
        assert !InBounds(c, cols, rows - 1);
      } else {
        assert c !in b;
      }
    }
  }

  lemma ConcatMember<T>(a: seq<T>, b: seq<T>, x: T)
    ensures x in a + b <==> x in a || x in b
  {
  }

  lemma {:induction false} WhereRowMember(p: Cell -> bool, y: int, n: nat, c: Cell)
    ensures c in WhereRow(p, y, n) <==> c.1 == y && 0 <= c.0 < n && p(c)
  {
    if n > 0 {
      WhereRowMember(p, y, n - 1, c);
      var a := WhereRow(p, y, n - 1);
      var b := if p((n - 1, y)) then [(n - 1, y)] else [];
      assert WhereRow(p, y, n) == a + b;
      assert c in a + b <==> c in a || c in b;
    }
  }

  lemma {:induction false} WhereOrdered(p: Cell -> bool, cols: nat, rows: nat)
    ensures forall i, j | 0 <= i < j < |Where(p, cols, rows)| ::
      RowMajorBefore(Where(p, cols, rows)[i], Where(p, cols, rows)[j])
  {
    if rows > 0 {
      WhereOrdered(p, cols, rows - 1);
      WhereRowSpec(p, rows - 1, cols);
      var a := Where(p, cols, rows - 1);
      var b := WhereRow(p, rows - 1, cols);
      forall i | 0 <= i < |a| ensures a[i].1 < rows - 1 {
        assert a[i] in a;
        WhereMember(p, cols, rows - 1, a[i]);
      }
      forall i | 0 <= i < |b| ensures b[i].1 == rows - 1 {
        assert b[i] in b;
      }
      ConcatOrdered(a, b, rows - 1);
      assert Where(p, cols, rows) == a + b;
    }
  }

  /** A row-major run of rows above y followed by cells of row y in increasing x is
      row-major. */
  lemma ConcatOrdered(a: seq<Cell>, b: seq<Cell>, y: int)
    requires forall i, j | 0 <= i < j < |a| :: RowMajorBefore(a[i], a[j])
    requires forall i, j | 0 <= i < j < |b| :: b[i].0 < b[j].0
    requires forall i | 0 <= i < |a| :: a[i].1 < y
    requires forall i | 0 <= i < |b| :: b[i].1 == y
    ensures forall i, j | 0 <= i < j < |a + b| :: RowMajorBefore((a + b)[i], (a + b)[j])
  {
    forall i, j | 0 <= i < j < |a + b| ensures RowMajorBefore((a + b)[i], (a + b)[j]) {
      if j < |a| {
        assert (a + b)[i] == a[i] && (a + b)[j] == a[j];
      } else if i >= |a| {
        assert (a + b)[i] == b[i - |a|] && (a + b)[j] == b[j - |a|];
      } else {
        assert (a + b)[i] == a[i] && (a + b)[j] == b[j - |a|];
      }
    }
  }

  lemma WhereDistinct(p: Cell -> bool, cols: nat, rows: nat)
    ensures Distinct(Where(p, cols, rows))
  {
    WhereSpec(p, cols, rows);
  }
}
