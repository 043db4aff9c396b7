/** The A* search of src/model/path_finder.py (repeated in src/model/game_model.py): a
    4-connected search with unit steps and the Manhattan heuristic, over a binary heap of
    (f, cell) entries and the `came_from`, `g_score` and `f_score` dictionaries, followed
    by the walk back along the predecessors. The heap is a sequence from which the least
    entry, in Python's tuple order, is removed; stale entries are kept, as in the source. */
module PathFinder {
  import opened Builtins
  import opened Grid
  import opened Utils

  /** `heuristic`: the Manhattan distance. */
  function Heuristic(a: Cell, b: Cell): (h: nat)
    ensures h == 0 <==> a == b
  {
    Abs(a.0 - b.0) + Abs(a.1 - b.1)
  }

  lemma HeuristicSymmetric(a: Cell, b: Cell)
    ensures Heuristic(a, b) == Heuristic(b, a)
  {
  }

  /** One of the four unit steps, in the order (0, 1), (1, 0), (0, -1), (-1, 0). */
  function Step(c: Cell, k: int): Cell {
    if k == 0 then (c.0, c.1 + 1)
    else if k == 1 then (c.0 + 1, c.1)
    else if k == 2 then (c.0, c.1 - 1)
    else (c.0 - 1, c.1)
  }

  predicate Adjacent(a: Cell, b: Cell) {
    Heuristic(a, b) == 1
  }

  /** The four steps reach exactly the four adjacent cells. */
  lemma AdjacentStep(a: Cell, b: Cell)
    ensures Adjacent(a, b) <==> exists k :: 0 <= k < 4 && b == Step(a, k)
  {
    if Adjacent(a, b) {
      var k := if b.1 == a.1 + 1 then 0 else if b.0 == a.0 + 1 then 1 else if b.1 == a.1 - 1 then 2 else 3;
      assert b == Step(a, k);
    }
  }

  /** `_is_valid_neighbor`, and the two `continue` tests of `find_path`: inside the grid
      and not a wall; an exit (2) is passable. */
  predicate Passable(maze: seq<seq<int>>, c: Cell)
    requires Rect(maze)
  {
    IsValidCell(c.0, c.1, maze) && maze[c.1][c.0] != Wall
  }

  /** A walk from `start`: passable cells, each adjacent to the one before it, the first
      adjacent to `start` (which is not part of the walk). */
  predicate IsWalk(maze: seq<seq<int>>, start: Cell, p: seq<Cell>)
    requires Rect(maze)
  {
    (forall i | 0 <= i < |p| :: Passable(maze, p[i]))
    && (|p| > 0 ==> Adjacent(start, p[0]))
    && (forall i | 0 <= i < |p| - 1 :: Adjacent(p[i], p[i + 1]))
  }

  ghost predicate Reaches(maze: seq<seq<int>>, start: Cell, goal: Cell)
    requires Rect(maze)
  {
    exists p :: IsWalk(maze, start, p) && |p| > 0 && p[|p| - 1] == goal
  }

  /** The heuristic never overestimates: every walk from a to b has at least
      Heuristic(a, b) steps. */
  lemma {:induction false} HeuristicAdmissible(maze: seq<seq<int>>, a: Cell, p: seq<Cell>)
    requires Rect(maze) && IsWalk(maze, a, p) && |p| > 0
    ensures Heuristic(a, p[|p| - 1]) <= |p|
    decreases |p|
  {
    if |p| > 1 {
      var q := p[..|p| - 1];
      assert IsWalk(maze, a, q);
      HeuristicAdmissible(maze, a, q);
      assert Adjacent(q[|q| - 1], p[|p| - 1]);
    }
  }

  /** A heap entry `(f, cell)`. */
  datatype Entry = Entry(f: int, cell: Cell)

  /** Python's order on `(f, (x, y))` tuples. */
  predicate EntryLe(a: Entry, b: Entry) {
    a.f < b.f || (a.f == b.f && (a.cell.0 < b.cell.0 || (a.cell.0 == b.cell.0 && a.cell.1 <= b.cell.1)))
  }

  /** `heapq.heappop`: the position of a least entry. */
  method PopMin(open: seq<Entry>) returns (i: nat)
    requires |open| > 0
    ensures i < |open| && forall j | 0 <= j < |open| :: EntryLe(open[i], open[j])
  {
    i := 0;
    for k := 1 to |open|
      invariant i < k
      invariant forall j | 0 <= j < k :: EntryLe(open[i], open[j])
    {
      if !EntryLe(open[i], open[k]) {
        i := k;
      }
    }
  }

  /** The search's dictionaries and heap. */
  datatype State = State(open: seq<Entry>, cameFrom: map<Cell, Cell>, g: map<Cell, nat>, f: map<Cell, int>)

  predicate Improves(s: State, current: Cell, neighbor: Cell)
    requires current in s.g
  {
    neighbor !in s.g || s.g[current] + 1 < s.g[neighbor]
  }

  /** `_process_neighbor`: relax the step from current to neighbor. */
  function ProcessNeighbor(s: State, current: Cell, neighbor: Cell, exit: Cell): State
    requires current in s.g
  {
    var tentative := s.g[current] + 1;
    if neighbor !in s.g || tentative < s.g[neighbor] then
      var f := tentative + Heuristic(neighbor, exit);
      State(s.open + [Entry(f, neighbor)], s.cameFrom[neighbor := current], s.g[neighbor := tentative],
            s.f[neighbor := f])
    else
      s
  }

  /** The costs rank the predecessors: each predecessor has a strictly smaller cost. */
  lemma ProcessNeighborSpec(s: State, current: Cell, neighbor: Cell, exit: Cell)
    requires current in s.g
    ensures var r := ProcessNeighbor(s, current, neighbor, exit);
      // the neighbour's cost becomes the least of its old cost and one step past current
      neighbor in r.g
      && r.g[neighbor] == (if neighbor in s.g then Min(s.g[neighbor], s.g[current] + 1) else s.g[current] + 1)
      // an improvement records current as the predecessor, sets f = g + h and pushes one entry
      && (Improves(s, current, neighbor) ==>
            r.cameFrom == s.cameFrom[neighbor := current]
            && r.g == s.g[neighbor := s.g[current] + 1]
            && r.f == s.f[neighbor := r.g[neighbor] + Heuristic(neighbor, exit)]
            && r.open == s.open + [Entry(r.f[neighbor], neighbor)])
      // otherwise nothing changes
      && (!Improves(s, current, neighbor) ==> r == s)
      // no other cost changes
      && r.g.Keys == s.g.Keys + {neighbor}
      && (forall c | c in s.g && c != neighbor :: r.g[c] == s.g[c])
  {
  }

  predicate Ranked(cameFrom: map<Cell, Cell>, g: map<Cell, nat>) {
    forall c | c in cameFrom :: c in g && cameFrom[c] in g && g[cameFrom[c]] < g[c]
  }

  /** c is the root or has a predecessor. */
  predicate Rooted(start: Cell, cameFrom: map<Cell, Cell>, c: Cell) {
    c == start || c in cameFrom
  }

  /** What the search keeps of its dictionaries: start costs 0 and has no predecessor;
      every other costed cell has one, is passable and adjacent to it. (The trigger keeps
      the solver from following predecessor chains on its own.) */
  predicate Tree(maze: seq<seq<int>>, start: Cell, cameFrom: map<Cell, Cell>, g: map<Cell, nat>)
    requires Rect(maze)
  {
    start in g && g[start] == 0 && start !in cameFrom && Ranked(cameFrom, g)
    && (forall c {:trigger Rooted(start, cameFrom, c)} | c in g :: Rooted(start, cameFrom, c))
    && (forall c | c in cameFrom :: Passable(maze, c) && Adjacent(cameFrom[c], c))
  }

  /** The predecessor chain ending at c, from the cell after the root to c. */
  function Chain(cameFrom: map<Cell, Cell>, g: map<Cell, nat>, c: Cell): seq<Cell>
    requires Ranked(cameFrom, g) && c in g
    decreases g[c]
  {
    if c in cameFrom then Chain(cameFrom, g, cameFrom[c]) + [c] else []
  }

  /** The chain to a costed cell c is a duplicate-free walk from start to c that does not
      contain start; it is empty exactly when c is start. */
  lemma {:induction false} ChainIsWalk(maze: seq<seq<int>>, start: Cell, cameFrom: map<Cell, Cell>,
                                        g: map<Cell, nat>, c: Cell)
    requires Rect(maze) && Tree(maze, start, cameFrom, g) && c in g
    ensures var p := Chain(cameFrom, g, c);
      IsWalk(maze, start, p) && Distinct(p) && start !in p
      && (p == [] <==> c == start) && (p != [] ==> p[|p| - 1] == c)
      && forall x | x in p :: x in g && g[x] <= g[c]
    decreases g[c]
  {
    assert Rooted(start, cameFrom, c);
    if c in cameFrom {
      var b := cameFrom[c];
      ChainIsWalk(maze, start, cameFrom, g, b);
      var q := Chain(cameFrom, g, b);
      var p := q + [c];
      assert p == Chain(cameFrom, g, c);
      assert c !in q;
      forall i, j | 0 <= i < j < |p| ensures p[i] != p[j] {
        if j == |p| - 1 {
          assert p[i] in q;
        } else {
          assert p[i] == q[i] && p[j] == q[j];
        }
      }
      forall i | 0 <= i < |p| - 1 ensures Adjacent(p[i], p[i + 1]) {
        if i < |p| - 2 {
          assert p[i] == q[i] && p[i + 1] == q[i + 1];
        }
      }
    }
  }

  /** The cells of the grid, in row-major order: the range of the search's measure. */
  predicate AnyCell(c: Cell) { true }

  function AllCells(maze: seq<seq<int>>): seq<Cell>
    requires Rect(maze)
  {
    Where(AnyCell, |maze[0]|, |maze|)
  }

  lemma AllCellsSpec(maze: seq<seq<int>>)
    requires Rect(maze)
    ensures forall c | Passable(maze, c) :: c in AllCells(maze)
  {
    WhereSpec(AnyCell, |maze[0]|, |maze|);
  }

  /** How many of the listed cells have no cost yet, and the sum of the costs they have. */
  function Unset(g: map<Cell, nat>, cells: seq<Cell>): nat {
    if cells == [] then 0 else (if cells[0] in g then 0 else 1) + Unset(g, cells[1..])
  }

  function SumG(g: map<Cell, nat>, cells: seq<Cell>): nat {
    if cells == [] then 0 else (if cells[0] in g then g[cells[0]] else 0) + SumG(g, cells[1..])
  }

  /** Costing a new cell never raises the unset count, and lowers it for a listed cell. */
  lemma {:induction false} UnsetAdd(g: map<Cell, nat>, cells: seq<Cell>, c: Cell, v: nat)
    ensures Unset(g[c := v], cells) <= Unset(g, cells)
    ensures c !in g && c in cells ==> Unset(g[c := v], cells) < Unset(g, cells)
  {
    if cells != [] {
      UnsetAdd(g, cells[1..], c, v);
    }
  }

  /** Lowering a cost of the same cells never raises the sum, and lowers it for a listed cell. */
  lemma {:induction false} SumGLower(g: map<Cell, nat>, cells: seq<Cell>, c: Cell, v: nat)
    requires c in g && v < g[c]
    ensures Unset(g[c := v], cells) == Unset(g, cells)
    ensures SumG(g[c := v], cells) <= SumG(g, cells)
    ensures c in cells ==> SumG(g[c := v], cells) < SumG(g, cells)
  {
    if cells != [] {
      SumGLower(g, cells[1..], c, v);
    }
  }

  /** c has a heap entry whose f is at most bound. */
  predicate Queued(open: seq<Entry>, c: Cell, bound: int) {
    exists i | 0 <= i < |open| :: open[i].cell == c && open[i].f <= bound
  }

  /** c has a heap entry whose f is at most its current cost plus the heuristic. */
  predicate Fresh(open: seq<Entry>, g: map<Cell, nat>, exit: Cell, c: Cell)
    requires c in g
  {
    Queued(open, c, g[c] + Heuristic(c, exit))
  }

  /** Every passable neighbour of c is costed at most one more than c. */
  predicate Relaxed(maze: seq<seq<int>>, g: map<Cell, nat>, c: Cell)
    requires Rect(maze) && c in g
  {
    RelaxedUpTo(maze, g, c, 4)
  }

  /** The same for the first k of the four steps. */
  predicate RelaxedUpTo(maze: seq<seq<int>>, g: map<Cell, nat>, c: Cell, k: int)
    requires Rect(maze) && c in g
  {
    forall kk | 0 <= kk < k :: Passable(maze, Step(c, kk)) ==> Step(c, kk) in g && g[Step(c, kk)] <= g[c] + 1
  }

  lemma RelaxedUpToNext(maze: seq<seq<int>>, g: map<Cell, nat>, g': map<Cell, nat>, c: Cell, k: int)
    requires Rect(maze) && c in g && Lowered(g, g') && g'[c] == g[c] && RelaxedUpTo(maze, g, c, k)
    requires Passable(maze, Step(c, k)) ==> Step(c, k) in g' && g'[Step(c, k)] <= g'[c] + 1
    ensures RelaxedUpTo(maze, g', c, k + 1)
  {
    forall kk | 0 <= kk < k + 1 && Passable(maze, Step(c, kk))
      ensures Step(c, kk) in g' && g'[Step(c, kk)] <= g'[c] + 1
    {
      if kk < k {
        assert Step(c, kk) in g;
      }
    }
  }

  /** Every costed cell is in the heap with an entry no larger than its cost plus the
      heuristic, or is not the exit and has been expanded with its current cost. */
  predicate Frontier(maze: seq<seq<int>>, exit: Cell, open: seq<Entry>, g: map<Cell, nat>)
    requires Rect(maze)
  {
    forall c | c in g :: Fresh(open, g, exit, c) || (c != exit && Relaxed(maze, g, c))
  }

  /** Every heap entry names a costed cell, and its f is at least that cell's cost. */
  predicate OpenCosted(open: seq<Entry>, g: map<Cell, nat>) {
    forall i | 0 <= i < |open| :: open[i].cell in g && g[open[i].cell] <= open[i].f
  }

  /** g' keeps every cost of g, possibly lowered, and costs possibly more cells. */
  predicate Lowered(g: map<Cell, nat>, g': map<Cell, nat>) {
    g.Keys <= g'.Keys && forall c | c in g :: g'[c] <= g[c]
  }

  lemma RelaxedLowered(maze: seq<seq<int>>, g: map<Cell, nat>, g': map<Cell, nat>, c: Cell)
    requires Rect(maze) && c in g && Lowered(g, g') && g'[c] == g[c] && Relaxed(maze, g, c)
    ensures Relaxed(maze, g', c)
  {
    forall k | 0 <= k < 4 && Passable(maze, Step(c, k))
      ensures Step(c, k) in g' && g'[Step(c, k)] <= g'[c] + 1
    {
      assert Step(c, k) in g;
    }
    assert RelaxedUpTo(maze, g', c, 4);
  }

  lemma QueuedRemove(open: seq<Entry>, i: int, c: Cell, bound: int)
    requires 0 <= i < |open| && Queued(open, c, bound) && open[i].cell != c
    ensures Queued(open[..i] + open[i + 1..], c, bound)
  {
    var j :| 0 <= j < |open| && open[j].cell == c && open[j].f <= bound;
    var rest := open[..i] + open[i + 1..];
    if j < i {
      assert rest[j] == open[j];
    } else {
      assert rest[j - 1] == open[j];
    }
  }

  lemma QueuedGrow(open: seq<Entry>, e: Entry, c: Cell, bound: int)
    requires Queued(open, c, bound)
    ensures Queued(open + [e], c, bound)
  {
    var j :| 0 <= j < |open| && open[j].cell == c && open[j].f <= bound;
    assert (open + [e])[j] == open[j];
  }

  /** If the costed cells are closed under passable steps, contain start and not the
      goal, no walk from start reaches the goal. */
  lemma WalkInside(maze: seq<seq<int>>, g: map<Cell, nat>, start: Cell, p: seq<Cell>)
    requires Rect(maze) && start in g && IsWalk(maze, start, p)
    requires forall c | c in g :: Relaxed(maze, g, c)
    ensures forall i | 0 <= i < |p| :: p[i] in g
  {
    var i := 0;
    while i < |p|
      invariant 0 <= i <= |p|
      invariant forall j | 0 <= j < i :: p[j] in g
    {
      var prev := if i == 0 then start else p[i - 1];
      assert Adjacent(prev, p[i]);
      AdjacentStep(prev, p[i]);
      var k :| 0 <= k < 4 && p[i] == Step(prev, k);
      assert Relaxed(maze, g, prev);
      i := i + 1;
    }
  }

  lemma ClosedUnreachable(maze: seq<seq<int>>, g: map<Cell, nat>, start: Cell, goal: Cell)
    requires Rect(maze) && start in g && goal !in g
    requires forall c | c in g :: Relaxed(maze, g, c)
    ensures !Reaches(maze, start, goal)
  {
    forall p | IsWalk(maze, start, p) && |p| > 0
      ensures p[|p| - 1] != goal
    {
      WalkInside(maze, g, start, p);
    }
  }

  /** Relaxing a step to a passable neighbour keeps the predecessor tree and the heap's
      cells costed. */
  lemma StepTree(maze: seq<seq<int>>, start: Cell, exit: Cell, s: State, current: Cell, n: Cell)
    requires Rect(maze) && current in s.g && Passable(maze, n) && Adjacent(current, n)
    requires Tree(maze, start, s.cameFrom, s.g) && OpenCosted(s.open, s.g)
    ensures var r := ProcessNeighbor(s, current, n, exit);
      Tree(maze, start, r.cameFrom, r.g) && OpenCosted(r.open, r.g)
  {
    if Improves(s, current, n) {
      var v := s.g[current] + 1;
      var e := Entry(v + Heuristic(n, exit), n);
      assert ProcessNeighbor(s, current, n, exit)
        == State(s.open + [e], s.cameFrom[n := current], s.g[n := v], s.f[n := e.f]);
      StepTreeMaps(maze, start, s.cameFrom, s.g, current, n);
      StepOpenCosted(s.open, s.g, n, v, e);
    }
  }

  lemma StepTreeMaps(maze: seq<seq<int>>, start: Cell, cameFrom: map<Cell, Cell>, g: map<Cell, nat>, current: Cell, n: Cell)
    requires Rect(maze) && current in g && Passable(maze, n) && Adjacent(current, n)
    requires Tree(maze, start, cameFrom, g) && (n in g ==> g[current] + 1 < g[n])
    ensures Tree(maze, start, cameFrom[n := current], g[n := g[current] + 1])
  {
    StepRanked(cameFrom, g, current, n);
    assert n != start;
    var cf := cameFrom[n := current];
    forall c | c in cf ensures Passable(maze, c) && Adjacent(cf[c], c) {
      if c != n {
        assert cf[c] == cameFrom[c];
      }
    }
    forall c | c in g[n := g[current] + 1] ensures Rooted(start, cf, c) {
      if c != n {
        assert Rooted(start, cameFrom, c);
      }
    }
  }

  lemma StepRanked(cameFrom: map<Cell, Cell>, g: map<Cell, nat>, current: Cell, n: Cell)
    requires Ranked(cameFrom, g) && current in g && (n in g ==> g[current] + 1 < g[n])
    ensures Ranked(cameFrom[n := current], g[n := g[current] + 1])
  {
    var cf, g' := cameFrom[n := current], g[n := g[current] + 1];
    forall c | c in cf ensures c in g' && cf[c] in g' && g'[cf[c]] < g'[c] {
      if c != n {
        assert c in cameFrom && cf[c] == cameFrom[c];
      }
    }
  }

  lemma StepOpenCosted(open: seq<Entry>, g: map<Cell, nat>, n: Cell, v: nat, e: Entry)
    requires OpenCosted(open, g) && e.cell == n && v <= e.f && (n in g ==> v <= g[n])
    ensures OpenCosted(open + [e], g[n := v])
  {
    forall i | 0 <= i < |open + [e]|
      ensures (open + [e])[i].cell in g[n := v] && g[n := v][(open + [e])[i].cell] <= (open + [e])[i].f
    {
      if i < |open| { assert (open + [e])[i] == open[i]; }
    }
  }

  /** Relaxing a step keeps every costed cell other than current queued or expanded, and
      keeps current queued if it was. */
  lemma StepFrontier(maze: seq<seq<int>>, exit: Cell, s: State, current: Cell, n: Cell)
    requires Rect(maze) && current in s.g && n != current
    requires forall c | c in s.g && c != current :: Fresh(s.open, s.g, exit, c) || (c != exit && Relaxed(maze, s.g, c))
    ensures var r := ProcessNeighbor(s, current, n, exit);
      (forall c | c in r.g && c != current :: Fresh(r.open, r.g, exit, c) || (c != exit && Relaxed(maze, r.g, c)))
      && (Fresh(s.open, s.g, exit, current) ==> Fresh(r.open, r.g, exit, current))
  {
    var r := ProcessNeighbor(s, current, n, exit);
    if Improves(s, current, n) {
      var e := Entry(r.f[n], n);
      assert r.open == s.open + [e];
      assert r.g == s.g[n := s.g[current] + 1];
      assert Lowered(s.g, r.g);
      forall c | c in r.g && c != current
        ensures Fresh(r.open, r.g, exit, c) || (c != exit && Relaxed(maze, r.g, c))
      {
        if c == n {
          assert r.open[|r.open| - 1] == Entry(r.g[n] + Heuristic(n, exit), n);
        } else if Fresh(s.open, s.g, exit, c) {
          QueuedGrow(s.open, e, c, s.g[c] + Heuristic(c, exit));
        } else {
          RelaxedLowered(maze, s.g, r.g, c);
        }
      }
      if Fresh(s.open, s.g, exit, current) {
        QueuedGrow(s.open, e, current, s.g[current] + Heuristic(current, exit));
      }
    }
  }

  /** The measure of the search went down from (g0, open0) to (g, open), or nothing but
      the heap changed and it shrank to `open`. */
  predicate Progress(g0: map<Cell, nat>, open0: seq<Entry>, g: map<Cell, nat>, open: seq<Entry>, cells: seq<Cell>) {
    Lowered(g0, g)
    && Unset(g, cells) <= Unset(g0, cells)
    && (g.Keys == g0.Keys ==> SumG(g, cells) <= SumG(g0, cells))
    && ((g == g0 && open == open0)
        || Unset(g, cells) < Unset(g0, cells)
        || (g.Keys == g0.Keys && SumG(g, cells) < SumG(g0, cells)))
  }

  /** Relaxing a step to a passable neighbour lowers the search's measure, the unset
      count first and the sum of costs second, or changes nothing. */
  lemma StepMeasure(maze: seq<seq<int>>, exit: Cell, s: State, current: Cell, n: Cell)
    requires Rect(maze) && current in s.g && Passable(maze, n)
    ensures var r := ProcessNeighbor(s, current, n, exit);
      Progress(s.g, s.open, r.g, r.open, AllCells(maze))
  {
    var r := ProcessNeighbor(s, current, n, exit);
    AllCellsSpec(maze);
    if Improves(s, current, n) {
      var v := s.g[current] + 1;
      assert r.g == s.g[n := v];
      UnsetAdd(s.g, AllCells(maze), n, v);
      if n in s.g {
        SumGLower(s.g, AllCells(maze), n, v);
      }
    }
  }

  lemma ProgressTrans(g0: map<Cell, nat>, open0: seq<Entry>, g1: map<Cell, nat>, open1: seq<Entry>,
                      g2: map<Cell, nat>, open2: seq<Entry>, cells: seq<Cell>)
    requires Progress(g0, open0, g1, open1, cells) && Progress(g1, open1, g2, open2, cells)
    ensures Progress(g0, open0, g2, open2, cells)
  {
  }

  /** Removing the heap entry at i keeps every other costed cell queued or expanded. */
  lemma PopKeeps(maze: seq<seq<int>>, exit: Cell, s: State, i: int)
    requires Rect(maze) && 0 <= i < |s.open| && OpenCosted(s.open, s.g) && Frontier(maze, exit, s.open, s.g)
    ensures var rest := s.open[..i] + s.open[i + 1..];
      OpenCosted(rest, s.g)
      && forall c | c in s.g && c != s.open[i].cell :: Fresh(rest, s.g, exit, c) || (c != exit && Relaxed(maze, s.g, c))
  {
    var rest := s.open[..i] + s.open[i + 1..];
    forall c | c in s.g && c != s.open[i].cell
      ensures Fresh(rest, s.g, exit, c) || (c != exit && Relaxed(maze, s.g, c))
    {
      if Fresh(s.open, s.g, exit, c) {
        QueuedRemove(s.open, i, c, s.g[c] + Heuristic(c, exit));
      }
    }
    forall j | 0 <= j < |rest| ensures rest[j].cell in s.g && s.g[rest[j].cell] <= rest[j].f {
      if j < i { assert rest[j] == s.open[j]; } else { assert rest[j] == s.open[j + 1]; }
    }
  }

  /** What holds after the first k neighbour steps of the expansion of current, started
      from state s0. */
  predicate Expanding(maze: seq<seq<int>>, start: Cell, exit: Cell, s0: State, s: State, current: Cell, k: int)
    requires Rect(maze)
  {
    Tree(maze, start, s.cameFrom, s.g) && OpenCosted(s.open, s.g)
    && current in s.g && current in s0.g && s.g[current] == s0.g[current] && current != exit
    && (forall c | c in s.g && c != current :: Fresh(s.open, s.g, exit, c) || (c != exit && Relaxed(maze, s.g, c)))
    && (Fresh(s.open, s.g, exit, current) || RelaxedUpTo(maze, s.g, current, k))
    && Progress(s0.g, s0.open, s.g, s.open, AllCells(maze))
  }

  lemma ExpandingStep(maze: seq<seq<int>>, start: Cell, exit: Cell, s0: State, s: State, current: Cell, k: int)
    requires Rect(maze) && 0 <= k < 4 && Expanding(maze, start, exit, s0, s, current, k)
    ensures var n := Step(current, k);
      Expanding(maze, start, exit, s0, if Passable(maze, n) then ProcessNeighbor(s, current, n, exit) else s,
                current, k + 1)
  {
    var n := Step(current, k);
    if Passable(maze, n) {
      ExpandingRelax(maze, start, exit, s0, s, current, k);
    } else if !Fresh(s.open, s.g, exit, current) {
      RelaxedUpToNext(maze, s.g, s.g, current, k);
    }
  }

  lemma ExpandingRelax(maze: seq<seq<int>>, start: Cell, exit: Cell, s0: State, s: State, current: Cell, k: int)
    requires Rect(maze) && 0 <= k < 4 && Expanding(maze, start, exit, s0, s, current, k)
    requires Passable(maze, Step(current, k))
    ensures Expanding(maze, start, exit, s0, ProcessNeighbor(s, current, Step(current, k), exit), current, k + 1)
  {
    var n := Step(current, k);
    assert Adjacent(current, n);
    ProcessNeighborSpec(s, current, n, exit);
    StepTree(maze, start, exit, s, current, n);
    StepFrontier(maze, exit, s, current, n);
    StepMeasure(maze, exit, s, current, n);
    var r := ProcessNeighbor(s, current, n, exit);
    ProgressTrans(s0.g, s0.open, s.g, s.open, r.g, r.open, AllCells(maze));
    if !Fresh(r.open, r.g, exit, current) {
      RelaxedUpToNext(maze, s.g, r.g, current, k);
    }
  }

  /** The expansion of current: `_process_neighbor` for each passable neighbour, in the
      order (0, 1), (1, 0), (0, -1), (-1, 0). Afterwards current is expanded or queued
      again, and the search's measure has gone down or nothing has changed. */
  method Expand(maze: seq<seq<int>>, start: Cell, exit: Cell, s0: State, current: Cell) returns (s: State)
    requires Rect(maze) && current in s0.g && current != exit
    requires Tree(maze, start, s0.cameFrom, s0.g) && OpenCosted(s0.open, s0.g)
    requires forall c | c in s0.g && c != current :: Fresh(s0.open, s0.g, exit, c) || (c != exit && Relaxed(maze, s0.g, c))
    ensures Tree(maze, start, s.cameFrom, s.g) && OpenCosted(s.open, s.g)
    ensures Frontier(maze, exit, s.open, s.g)
    ensures Progress(s0.g, s0.open, s.g, s.open, AllCells(maze))
  {
    s := s0;
    assert Expanding(maze, start, exit, s0, s, current, 0);
    for k := 0 to 4
      invariant Expanding(maze, start, exit, s0, s, current, k)
    {
      ExpandingStep(maze, start, exit, s0, s, current, k);
      var neighbor := Step(current, k);
      if IsValidCell(neighbor.0, neighbor.1, maze) && maze[neighbor.1][neighbor.0] != Wall {
        s := ProcessNeighbor(s, current, neighbor, exit);
      }
    }
  }

  /** No walk from start to goal takes fewer than n steps. */
  ghost predicate NoShorter(maze: seq<seq<int>>, start: Cell, goal: Cell, n: int)
    requires Rect(maze)
  {
    forall q | IsWalk(maze, start, q) && |q| > 0 && q[|q| - 1] == goal :: n <= |q|
  }

  /** A predecessor chain is no longer than the cost of its last cell. */
  lemma {:induction false} ChainLength(cameFrom: map<Cell, Cell>, g: map<Cell, nat>, c: Cell)
    requires Ranked(cameFrom, g) && c in g
    ensures |Chain(cameFrom, g, c)| <= g[c]
    decreases g[c]
  {
    if c in cameFrom {
      ChainLength(cameFrom, g, cameFrom[c]);
    }
  }

  /** Along any walk from start to the exit, the first cell that has not been expanded
      with its current cost has a heap entry no larger than the walk's length: the cost
      of that cell is at most the steps walked so far, and the heuristic at most the
      steps still to go. */
  lemma FrontierOnWalk(maze: seq<seq<int>>, start: Cell, exit: Cell, open: seq<Entry>, g: map<Cell, nat>, p: seq<Cell>)
    requires Rect(maze) && start in g && g[start] == 0 && Frontier(maze, exit, open, g)
    requires IsWalk(maze, start, p) && |p| > 0 && p[|p| - 1] == exit
    ensures exists i | 0 <= i < |open| :: open[i].f <= |p|
  {
    var j, w := 0, start;
    while !Fresh(open, g, exit, w)
      invariant 0 <= j <= |p| && w == (if j == 0 then start else p[j - 1])
      invariant w in g && g[w] <= j
      decreases |p| - j
    {
      assert w != exit && Relaxed(maze, g, w);
      AdjacentStep(w, p[j]);
      var k :| 0 <= k < 4 && p[j] == Step(w, k);
      assert RelaxedUpTo(maze, g, w, 4);
      w, j := p[j], j + 1;
    }
    var i :| 0 <= i < |open| && open[i].cell == w && open[i].f <= g[w] + Heuristic(w, exit);
    if j < |p| {
      assert IsWalk(maze, w, p[j..]);
      HeuristicAdmissible(maze, w, p[j..]);
    }
    assert open[i].f <= |p|;
  }

  /** When the exit leaves the heap as a least entry, no walk to it is cheaper than its
      cost: A* with an admissible heuristic. */
  lemma PopOptimal(maze: seq<seq<int>>, start: Cell, exit: Cell, s: State, i: int)
    requires Rect(maze) && Tree(maze, start, s.cameFrom, s.g) && OpenCosted(s.open, s.g)
    requires Frontier(maze, exit, s.open, s.g)
    requires 0 <= i < |s.open| && s.open[i].cell == exit
    requires forall j | 0 <= j < |s.open| :: EntryLe(s.open[i], s.open[j])
    ensures exit in s.g && NoShorter(maze, start, exit, s.g[exit])
  {
    forall q | IsWalk(maze, start, q) && |q| > 0 && q[|q| - 1] == exit
      ensures s.g[exit] <= |q|
    {
      FrontierOnWalk(maze, start, exit, s.open, s.g, q);
    }
  }

  /** The search of `find_path` and `_run_a_star_algorithm`: it stops with `found` when
      the exit leaves the heap, and without it when the heap runs empty. It returns the
      predecessors and, as a ghost, the costs that rank them. */
  method Search(start: Cell, exit: Cell, maze: seq<seq<int>>)
    returns (found: bool, cameFrom: map<Cell, Cell>, ghost g: map<Cell, nat>)
    requires Rect(maze)
    ensures Tree(maze, start, cameFrom, g)
    ensures found ==> exit in g && NoShorter(maze, start, exit, g[exit])
    ensures !found ==> start != exit && !Reaches(maze, start, exit)
  {
    var s := State([Entry(0, start)], map[], map[start := 0], map[start := Heuristic(start, exit)]);
    ghost var cells := AllCells(maze);
    assert s.open[0].cell == start;
    while |s.open| > 0
      invariant Tree(maze, start, s.cameFrom, s.g) && OpenCosted(s.open, s.g)
      invariant Frontier(maze, exit, s.open, s.g)
      decreases Unset(s.g, cells), SumG(s.g, cells), |s.open|
    {
      var i := PopMin(s.open);
      var current := s.open[i].cell;
      if current == exit {
        PopOptimal(maze, start, exit, s, i);
        return true, s.cameFrom, s.g;
      }
      PopKeeps(maze, exit, s, i);
      var rest := s.open[..i] + s.open[i + 1..];
      s := Expand(maze, start, exit, s.(open := rest), current);
    }
    ClosedUnreachable(maze, s.g, start, exit);
    return false, s.cameFrom, s.g;
  }

  /** `reconstruct_path`: follows the predecessors back from current, then reverses. */
  method ReconstructPath(cameFrom: map<Cell, Cell>, current: Cell, ghost g: map<Cell, nat>)
    returns (path: seq<Cell>)
    requires Ranked(cameFrom, g) && current in g
    ensures path == Chain(cameFrom, g, current)
  {
    var rev := [];
    var cur := current;
    while cur in cameFrom
      invariant cur in g
      invariant Chain(cameFrom, g, cur) + Reverse(rev) == Chain(cameFrom, g, current)
      decreases g[cur]
    {
      ReverseSnoc(rev, cur);
      rev := rev + [cur];
      cur := cameFrom[cur];
    }
    path := Reverse(rev);
  }

  /** `find_path`: a shortest-path search from start to exit. The result is a
      duplicate-free walk of passable cells from start (excluded) to the exit, no walk
      to the exit is shorter, and it is empty exactly when start is the exit or no walk
      reaches the exit. */
  method FindPath(start: Cell, exit: Cell, maze: seq<seq<int>>) returns (path: seq<Cell>)
    requires Rect(maze)
    ensures IsWalk(maze, start, path) && Distinct(path) && start !in path
    ensures path != [] ==> path[|path| - 1] == exit
    ensures path == [] <==> start == exit || !Reaches(maze, start, exit)
    ensures NoShorter(maze, start, exit, |path|)
  {
    var found, cameFrom;
    ghost var g;
    found, cameFrom, g := Search(start, exit, maze);
    if found {
      path := ReconstructPath(cameFrom, exit, g);
      ChainIsWalk(maze, start, cameFrom, g, exit);
      ChainLength(cameFrom, g, exit);
    } else {
      path := [];
    }
  }
}
