/** What both sensors share: the grid queries of the `Scanner` helpers in
    src/model/scanner.py, the nearest-edge wall normal (`get_wall_normal`, written twice,
    in src/model/game_model.py and src/game.py), and the locator's march along a ray
    with the scatter of its one hit point (`LocatorScanner.scan` and
    `precise_white_scan`). A ray is given by its sample points, one per distance: the
    angle, its random jitter and the trigonometry that place them are outside the
    model. */
module Sensing {
  import opened Builtins
  import opened Grid
  import opened Points

  type Point = (real, real)

  /** What a scanner reads of the game: the cell size, the cell grid (0 passage, 1 wall,
      2 exit), the thin-wall mask and the danger zones. */
  datatype View = View(cellSize: int, maze: seq<seq<int>>, thinWalls: seq<seq<int>>, dangerZones: seq<Cell>)

  /** Both grids have the shape of the cell grid, whose width is read from its first
      row; a zero cell size raises ZeroDivisionError. */
  predicate ViewOk(v: View) {
    v.cellSize != 0 && Rect(v.maze) && IsGrid(v.thinWalls, |v.maze[0]|, |v.maze|)
  }

  /** `_is_valid_cell`. */
  predicate ValidCell(v: View, c: Cell)
    requires Rect(v.maze)
  {
    InBounds(c, |v.maze[0]|, |v.maze|)
  }

  /** `_is_wall`: a cell outside the grid is never a wall; inside, the thin-wall mask
      decides. */
  predicate IsWall(v: View, c: Cell)
    requires ViewOk(v)
  {
    ValidCell(v, c) && v.thinWalls[c.1][c.0] == 1
  }

  /** `_is_danger_zone`: plain membership, with no bounds check. */
  predicate IsDanger(v: View, c: Cell) {
    c in v.dangerZones
  }

  /** The cell edges, in the order the distance dictionary lists them. */
  datatype Side = Left | Right | Top | Bottom

  function SideRank(s: Side): nat {
    match s
    case Left => 0
    case Right => 1
    case Top => 2
    case Bottom => 3
  }

  /** `abs(hit - edge)` for the edge s of the cell (cx, cy). */
  function EdgeDistance(cx: int, cy: int, cs: int, hit: Point, s: Side): real {
    match s
    case Left => RAbs(hit.0 - (cx * cs) as real)
    case Right => RAbs(hit.0 - ((cx + 1) * cs) as real)
    case Top => RAbs(hit.1 - (cy * cs) as real)
    case Bottom => RAbs(hit.1 - ((cy + 1) * cs) as real)
  }

  /** `min(dists, key=dists.get)`: the nearest edge; on a tie the one listed first wins,
      since `min` keeps its first least element. */
  function NearestSide(cx: int, cy: int, cs: int, hit: Point): (s: Side)
    ensures forall o: Side :: EdgeDistance(cx, cy, cs, hit, s) <= EdgeDistance(cx, cy, cs, hit, o)
    ensures forall o: Side :: SideRank(o) < SideRank(s) ==>
      EdgeDistance(cx, cy, cs, hit, o) > EdgeDistance(cx, cy, cs, hit, s)
  {
    var l, r := EdgeDistance(cx, cy, cs, hit, Left), EdgeDistance(cx, cy, cs, hit, Right);
    var t, b := EdgeDistance(cx, cy, cs, hit, Top), EdgeDistance(cx, cy, cs, hit, Bottom);
    if l <= r && l <= t && l <= b then Left
    else if r <= t && r <= b then Right
    else if t <= b then Top
    else Bottom
  }

  /** The outward unit normal of each edge. */
  function Normal(s: Side): (int, int) {
    match s
    case Left => (1, 0)
    case Right => (-1, 0)
    case Top => (0, 1)
    case Bottom => (0, -1)
  }

  /** `get_wall_normal(cell_x, cell_y, hit_x, hit_y)`. */
  function WallNormal(cx: int, cy: int, cs: int, hit: Point): (int, int) {
    Normal(NearestSide(cx, cy, cs, hit))
  }

  /** The normal is an axis unit vector and belongs to an edge nearest the hit, the
      first such edge in the order left, right, top, bottom. */
  lemma WallNormalNearest(cx: int, cy: int, cs: int, hit: Point)
    ensures var n := WallNormal(cx, cy, cs, hit);
      (n.0 == 0 || n.1 == 0) && Abs(n.0) + Abs(n.1) == 1
    ensures exists s: Side ::
      (WallNormal(cx, cy, cs, hit) == Normal(s)
       && (forall o: Side :: EdgeDistance(cx, cy, cs, hit, s) <= EdgeDistance(cx, cy, cs, hit, o))
       && (forall o: Side :: SideRank(o) < SideRank(s) ==>
             EdgeDistance(cx, cy, cs, hit, o) > EdgeDistance(cx, cy, cs, hit, s)))
  {
    var s := NearestSide(cx, cy, cs, hit);
    assert WallNormal(cx, cy, cs, hit) == Normal(s);
  }

  /** Where the locator stops: an in-grid cell that is a thin wall or the exit. */
  predicate LocatorStop(v: View, c: Cell)
    requires ViewOk(v)
  {
    ValidCell(v, c) && (IsWall(v, c) || v.maze[c.1][c.0] == Exit)
  }

  /** The sample taken at the i-th distance: the distance, the point and its cell. */
  datatype Hit = Hit(index: nat, dist: int, at: Point, cell: Cell)

  function SampleAt(v: View, ray: int -> Point, dists: seq<int>, i: nat): Hit
    requires ViewOk(v) && i < |dists|
  {
    Hit(i, dists[i], ray(dists[i]), PixelCell(ray(dists[i]), v.cellSize))
  }

  /** The first sample from the i-th distance on whose cell stops the locator. */
  function FirstStopFrom(v: View, ray: int -> Point, dists: seq<int>, i: nat): Option<Hit>
    requires ViewOk(v)
    decreases |dists| - i
  {
    if i >= |dists| then None
    else if LocatorStop(v, SampleAt(v, ray, dists, i).cell) then Some(SampleAt(v, ray, dists, i))
    else FirstStopFrom(v, ray, dists, i + 1)
  }

  /** The locator's march: the first sample, in the order of `dists`, whose cell stops it. */
  function FirstStop(v: View, ray: int -> Point, dists: seq<int>): Option<Hit>
    requires ViewOk(v)
  {
    FirstStopFrom(v, ray, dists, 0)
  }

  /** The march finds nothing exactly when no sample stops it, and otherwise the sample
      of the first distance that does. */
  lemma {:induction false} FirstStopFromSpec(v: View, ray: int -> Point, dists: seq<int>, i: nat)
    requires ViewOk(v)
    ensures var h := FirstStopFrom(v, ray, dists, i);
      (h.None? <==> forall j | i <= j < |dists| :: !LocatorStop(v, SampleAt(v, ray, dists, j).cell))
      && (h.Some? ==>
            i <= h.value.index < |dists| && h.value == SampleAt(v, ray, dists, h.value.index)
            && LocatorStop(v, h.value.cell)
            && forall j | i <= j < h.value.index :: !LocatorStop(v, SampleAt(v, ray, dists, j).cell))
    decreases |dists| - i
  {
    if i < |dists| && !LocatorStop(v, SampleAt(v, ray, dists, i).cell) {
      FirstStopFromSpec(v, ray, dists, i + 1);
    }
  }

  lemma FirstStopSpec(v: View, ray: int -> Point, dists: seq<int>)
    requires ViewOk(v)
    ensures var h := FirstStop(v, ray, dists);
      (h.None? <==> forall j | 0 <= j < |dists| :: !LocatorStop(v, SampleAt(v, ray, dists, j).cell))
      && (h.Some? ==>
            h.value.index < |dists| && h.value == SampleAt(v, ray, dists, h.value.index)
            && LocatorStop(v, h.value.cell)
            && forall j | 0 <= j < h.value.index :: !LocatorStop(v, SampleAt(v, ray, dists, j).cell))
  {
    FirstStopFromSpec(v, ray, dists, 0);
  }

  /** On `range(5, length, step)` with a positive step, a hit lies at a distance from 5
      up to, not including, the scan length. */
  lemma FirstStopInRange(v: View, ray: int -> Point, length: int, step: int)
    requires ViewOk(v) && step > 0
    ensures var h := FirstStop(v, ray, Range(5, length, step));
      h.Some? ==> 5 <= h.value.dist < length && h.value.dist == 5 + h.value.index * step
  {
    var dists := Range(5, length, step);
    FirstStopSpec(v, ray, dists);
    var h := FirstStop(v, ray, dists);
    if h.Some? {
      var k := h.value.index;
      RangeBounds(5, length, step);
      assert dists[k] < length;
    }
  }

  /** The march as the scans run it: distances in order, `break` at the first stop. */
  method March(v: View, ray: int -> Point, dists: seq<int>) returns (hit: Option<Hit>)
    requires ViewOk(v)
    ensures hit == FirstStop(v, ray, dists)
  {
    hit := None;
    var i := 0;
    while i < |dists|
      invariant 0 <= i <= |dists|
      invariant FirstStopFrom(v, ray, dists, i) == FirstStop(v, ray, dists)
    {
      var p := ray(dists[i]);
      var c := PixelCell(p, v.cellSize);
      if ValidCell(v, c) && (IsWall(v, c) || v.maze[c.1][c.0] == Exit) {
        hit := Some(Hit(i, dists[i], p, c));
        return;
      }
      i := i + 1;
    }
  }

  /** The emitted point: the hit moved along the wall normal by the two draws
      `random.uniform(-variation, variation)` (one per axis; the one on the axis the
      normal does not use is multiplied by 0), stamped with the current time. */
  function Scatter(h: Hit, cs: int, u1: real, u2: real, now: int): (p: TimedPoint)
    ensures p.t == now
    ensures p.x == h.at.0 || p.y == h.at.1
    ensures RAbs(p.x - h.at.0) <= RAbs(u1) && RAbs(p.y - h.at.1) <= RAbs(u2)
  {
    var n := WallNormal(h.cell.0, h.cell.1, cs, h.at);
    TimedPoint(h.at.0 + n.0 as real * u1, h.at.1 + n.1 as real * u2, now)
  }

  /** p lies on one axis through the hit, at most `variation` away from it. */
  predicate Near(p: TimedPoint, hit: Option<Hit>, variation: real) {
    hit.Some? && (p.x == hit.value.at.0 || p.y == hit.value.at.1)
    && RAbs(p.x - hit.value.at.0) <= variation && RAbs(p.y - hit.value.at.1) <= variation
  }

  /** The locator's result: one scattered point for a hit, none for a miss. */
  function LocatorPoints(hit: Option<Hit>, cs: int, u1: real, u2: real, now: int): (r: seq<TimedPoint>)
    ensures |r| <= 1
    ensures |r| == 1 <==> hit.Some?
  {
    if hit.Some? then [Scatter(hit.value, cs, u1, u2, now)] else []
  }
}
