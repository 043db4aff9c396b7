/** `ScannerGame` of src/game.py: the single-class version of the game. The white scan
    marches one ray and scatters its hit point; the red scan casts a cone of 46 rays
    that reveal danger zones, and draws its two boundary rays; `update` scans, moves,
    checks the end-of-game rule and drops expired points. Rays are given by their
    sample points, as in the other scanners. */
module Game {
  import opened Builtins
  import opened Grid
  import opened Points
  import opened Sensing
  import opened ModelScanner
  import opened Motion
  import opened Status
  import opened ModelGame

  /** A red-scan sample that stops its ray: inside the grid (as the maze measures it)
      and in a red zone. */
  predicate RedHit(v: View, p: Point)
    requires ViewOk(v)
  {
    InGrid(v, p) && IsDanger(v, PixelCell(p, v.cellSize))
  }

  /** One red-scan ray from its i-th sample on: every sample is appended to the wave,
      inside the grid or not, until the first red-zone sample, which is also the one
      hit and ends the ray. */
  function RedRayFrom(v: View, samples: seq<Point>, i: nat, now: int): (r: (seq<TimedPoint>, seq<Point>))
    requires ViewOk(v) && i <= |samples|
    ensures |r.1| <= 1 && |r.0| <= |samples| - i
    ensures r.1 == [] ==> |r.0| == |samples| - i
    decreases |samples| - i
  {
    if i == |samples| then ([], [])
    else if RedHit(v, samples[i]) then ([Stamp(samples[i], now)], [samples[i]])
    else
      var rest := RedRayFrom(v, samples, i + 1, now);
      ([Stamp(samples[i], now)] + rest.0, rest.1)
  }

  /** The wave of a red ray is its samples from i on, stamped, up to and including the
      first red-zone sample; there is a hit exactly when some sample lies in a red zone,
      and then it is that first one. */
  lemma {:induction false} RedRaySpec(v: View, samples: seq<Point>, i: nat, now: int)
    requires ViewOk(v) && i <= |samples|
    ensures var r := RedRayFrom(v, samples, i, now);
      (forall k | 0 <= k < |r.0| :: r.0[k] == Stamp(samples[i + k], now))
      && (forall k | i <= k < i + |r.0| - 1 :: !RedHit(v, samples[k]))
      && (r.1 != [] <==> exists k | i <= k < |samples| :: RedHit(v, samples[k]))
      && (r.1 != [] ==> |r.0| > 0 && r.1[0] == samples[i + |r.0| - 1] && RedHit(v, r.1[0]))
    decreases |samples| - i
  {
    if i < |samples| && !RedHit(v, samples[i]) {
      RedRaySpec(v, samples, i + 1, now);
      var rest := RedRayFrom(v, samples, i + 1, now);
      var r := RedRayFrom(v, samples, i, now);
      assert r == ([Stamp(samples[i], now)] + rest.0, rest.1);
      forall k | 1 <= k < |r.0| ensures r.0[k] == Stamp(samples[i + k], now) {
        assert r.0[k] == rest.0[k - 1];
      }
      if exists k | i <= k < |samples| :: RedHit(v, samples[k]) {
        var k :| i <= k < |samples| && RedHit(v, samples[k]);
        assert k != i;
      }
    }
  }

  /** The red sweep: the rays of the offsets in `deltas`, in order, their wave points and
      hits concatenated. */
  function RedWave(v: View, ray: (int, int) -> Point, deltas: seq<int>, dists: seq<int>, now: int)
    : (r: (seq<TimedPoint>, seq<Point>))
    requires ViewOk(v)
    decreases |deltas|
  {
    if deltas == [] then ([], [])
    else
      var n := |deltas| - 1;
      var prev := RedWave(v, ray, deltas[..n], dists, now);
      var last := RedRayFrom(v, Samples(ray, deltas[n], dists), 0, now);
      (prev.0 + last.0, prev.1 + last.1)
  }

  /** A sweep has at most one hit per ray and at most one wave point per ray and
      distance. */
  lemma {:induction false} RedWaveBounds(v: View, ray: (int, int) -> Point, deltas: seq<int>, dists: seq<int>, now: int)
    requires ViewOk(v)
    ensures |RedWave(v, ray, deltas, dists, now).1| <= |deltas|
    ensures |RedWave(v, ray, deltas, dists, now).0| <= |deltas| * |dists|
    decreases |deltas|
  {
    if deltas != [] {
      var n := |deltas| - 1;
      RedWaveBounds(v, ray, deltas[..n], dists, now);
      var prev := RedWave(v, ray, deltas[..n], dists, now);
      var last := RedRayFrom(v, Samples(ray, deltas[n], dists), 0, now);
      assert RedWave(v, ray, deltas, dists, now) == (prev.0 + last.0, prev.1 + last.1);
      MulSucc(n, |dists|);
    }
  }

  lemma MulSucc(n: int, m: int)
    ensures (n + 1) * m == n * m + m
  {
  }

  /** `range(-45, 46, 2)` has 46 offsets and `range(0, 200, 3)` has 67 distances. */
  lemma RedScanRanges()
    ensures |Range(-45, 46, 2)| == 46 && |Range(0, 200, 3)| == 67
  {
    RangeLength(-45, 46, 2);
    RangeLength(0, 200, 3);
  }

  /** The red scan of `add_red_scan_wave`: at most 46 hits, and at most 46 · 67 wave
      points, all stamped with the scan's time; every hit is a red-zone sample. */
  lemma RedScanBounds(v: View, ray: (int, int) -> Point, now: int)
    requires ViewOk(v)
    ensures var r := RedWave(v, ray, Range(-45, 46, 2), Range(0, 200, 3), now);
      |r.1| <= 46 && |r.0| <= 46 * 67
  {
    RedScanRanges();
    RedWaveBounds(v, ray, Range(-45, 46, 2), Range(0, 200, 3), now);
  }

  /** One ray of the red scan's loop over distances: append, then `break` on an
      in-grid red-zone sample after recording the hit. */
  method CastRedRay(v: View, ray: (int, int) -> Point, delta: int, dists: seq<int>, now: int)
    returns (w: seq<TimedPoint>, h: seq<Point>)
    requires ViewOk(v)
    ensures (w, h) == RedRayFrom(v, Samples(ray, delta, dists), 0, now)
  {
    ghost var samples := Samples(ray, delta, dists);
    w, h := [], [];
    var j := 0;
    assert w + RedRayFrom(v, samples, 0, now).0 == RedRayFrom(v, samples, 0, now).0;
    while j < |dists|
      invariant 0 <= j <= |dists| && h == []
      invariant RedRayFrom(v, samples, 0, now) == (w + RedRayFrom(v, samples, j, now).0, RedRayFrom(v, samples, j, now).1)
    {
      var p := ray(delta, dists[j]);
      assert p == samples[j];
      RedRayStep(v, samples, j, now, w);
      w := w + [Stamp(p, now)];
      var c := PixelCell(p, v.cellSize);
      if 0 <= c.0 < |v.maze[0]| && 0 <= c.1 < |v.maze| {
        if c in v.dangerZones {
          assert RedHit(v, samples[j]);
          h := h + [p];
          assert h == [samples[j]] == RedRayFrom(v, samples, j, now).1;
          assert w + [] == w;
          assert RedRayFrom(v, samples, 0, now).0 == w;
          assert RedRayFrom(v, samples, 0, now) == (w, h);
          return;
        }
      }
      assert !RedHit(v, samples[j]);
      j := j + 1;
    }
    assert w + [] == w;
  }

  /** One step of the red ray: the sample is appended, and the ray goes on from the next
      sample unless this one was a hit. */
  lemma RedRayStep(v: View, samples: seq<Point>, j: nat, now: int, w: seq<TimedPoint>)
    requires ViewOk(v) && j < |samples|
    ensures w + RedRayFrom(v, samples, j, now).0
      == (w + [Stamp(samples[j], now)]) + (if RedHit(v, samples[j]) then [] else RedRayFrom(v, samples, j + 1, now).0)
    ensures RedRayFrom(v, samples, j, now).1
      == if RedHit(v, samples[j]) then [samples[j]] else RedRayFrom(v, samples, j + 1, now).1
  {
    if RedHit(v, samples[j]) {
      assert (w + [Stamp(samples[j], now)]) + [] == w + [Stamp(samples[j], now)];
    } else {
      assert w + ([Stamp(samples[j], now)] + RedRayFrom(v, samples, j + 1, now).0)
        == (w + [Stamp(samples[j], now)]) + RedRayFrom(v, samples, j + 1, now).0;
    }
  }

  /** `add_red_scan_wave(start_pos, angle)`: the rays at offsets `range(-45, 46, 2)`
      degrees, sampled at `range(0, 200, 3)`. */
  method AddRedScanWave(v: View, ray: (int, int) -> Point, now: int)
    returns (wavePoints: seq<TimedPoint>, hitPositions: seq<Point>)
    requires ViewOk(v)
    ensures (wavePoints, hitPositions) == RedWave(v, ray, Range(-45, 46, 2), Range(0, 200, 3), now)
  {
    var deltas := Range(-45, 46, 2);
    var dists := Range(0, 200, 3);
    wavePoints, hitPositions := [], [];
    for d := 0 to |deltas|
      invariant (wavePoints, hitPositions) == RedWave(v, ray, deltas[..d], dists, now)
    {
      var w, h := CastRedRay(v, ray, deltas[d], dists, now);
      wavePoints, hitPositions := wavePoints + w, hitPositions + h;
      assert deltas[..d + 1][..d] == deltas[..d];
    }
    assert deltas[..|deltas|] == deltas;
  }

  /** A boundary ray of the red scan: one point per distance of `range(0, fog_radius, 3)`,
      stamped with the scan's time. */
  function Boundary(ray: int -> Point, fogRadius: int, now: int): (b: seq<TimedPoint>)
    ensures |b| == |Range(0, fogRadius, 3)|
    ensures forall k | 0 <= k < |b| :: b[k].t == now
  {
    var ds := Range(0, fogRadius, 3);
    seq(|ds|, k requires 0 <= k < |ds| => Stamp(ray(ds[k]), now))
  }

  /** The loop that builds both boundary rays side by side. */
  method BoundaryRays(leftRay: int -> Point, rightRay: int -> Point, fogRadius: int, now: int)
    returns (leftBound: seq<TimedPoint>, rightBound: seq<TimedPoint>)
    ensures leftBound == Boundary(leftRay, fogRadius, now)
    ensures rightBound == Boundary(rightRay, fogRadius, now)
  {
    var ds := Range(0, fogRadius, 3);
    leftBound, rightBound := [], [];
    for k := 0 to |ds|
      invariant |leftBound| == |rightBound| == k
      invariant forall j | 0 <= j < k :: leftBound[j] == Stamp(leftRay(ds[j]), now)
      invariant forall j | 0 <= j < k :: rightBound[j] == Stamp(rightRay(ds[j]), now)
    {
      leftBound := leftBound + [Stamp(leftRay(ds[k]), now)];
      rightBound := rightBound + [Stamp(rightRay(ds[k]), now)];
    }
  }

  /** The white scan's result: the first stop over `range(5, 200)`, scattered by the
      draws u1, u2. `PreciseWhiteScanSpec` states what it is. */
  function WhitePoints(v: View, ray: int -> Point, u1: real, u2: real, now: int): seq<TimedPoint>
    requires ViewOk(v)
  {
    LocatorPoints(FirstStop(v, ray, Range(5, 200, 1)), v.cellSize, u1, u2, now)
  }

  /** `precise_white_scan(start_pos, angle)`: the locator's march over `range(5, 200)`
      and the hit scattered by `uniform(-2, 2)` draws. */
  method PreciseWhiteScan(v: View, ray: int -> Point, u1: real, u2: real, now: int) returns (points: seq<TimedPoint>)
    requires ViewOk(v) && -2.0 <= u1 <= 2.0 && -2.0 <= u2 <= 2.0
    ensures points == WhitePoints(v, ray, u1, u2, now)
  {
    var hit := March(v, ray, Range(5, 200, 1));
    if hit.Some? {
      points := [Scatter(hit.value, v.cellSize, u1, u2, now)];
    } else {
      points := [];
    }
  }

  /** What the white scan returns: nothing, or one point from the first sample in
      [5, 200) whose in-grid cell is a thin wall or the exit, moved by at most 2 along one
      axis only, stamped now. */
  lemma PreciseWhiteScanSpec(v: View, ray: int -> Point, u1: real, u2: real, now: int)
    requires ViewOk(v) && -2.0 <= u1 <= 2.0 && -2.0 <= u2 <= 2.0
    ensures var h := FirstStop(v, ray, Range(5, 200, 1));
      var p := LocatorPoints(h, v.cellSize, u1, u2, now);
      (|p| == 1 <==> h.Some?) && |p| <= 1
      && (h.Some? ==>
            5 <= h.value.dist < 200 && LocatorStop(v, h.value.cell)
            && h.value.cell == PixelCell(ray(h.value.dist), v.cellSize)
            && p[0].t == now && (p[0].x == h.value.at.0 || p[0].y == h.value.at.1)
            && RAbs(p[0].x - h.value.at.0) <= 2.0 && RAbs(p[0].y - h.value.at.1) <= 2.0)
  {
    FirstStopInRange(v, ray, 200, 1);
    FirstStopSpec(v, ray, Range(5, 200, 1));
  }

  /** What a diagonal key press moves by: the diagonal speed on both axes, otherwise
      the plain speed on the one axis pressed. */
  function MoveDelta(moveX: real, moveY: real, speed: real, speedDiagonal: real): (d: (real, real))
    ensures moveX != 0.0 && moveY != 0.0 ==> d == (moveX * speedDiagonal, moveY * speedDiagonal)
    ensures moveX == 0.0 || moveY == 0.0 ==> d == (moveX * speed, moveY * speed)
    ensures moveX == 0.0 ==> d.0 == 0.0
    ensures moveY == 0.0 ==> d.1 == 0.0
  {
    if moveX != 0.0 && moveY != 0.0 then (moveX * speedDiagonal, moveY * speedDiagonal)
    else (moveX * speed, moveY * speed)
  }

  /** What the centre cell `int(x) // cell_size` is, the grid measured by the maze. */
  function GameProbe(maze: seq<seq<int>>, redZones: seq<Cell>, cs: int, p: Pos): Probe
    requires Rect(maze) && cs != 0
  {
    var c := PixelCell(p, cs);
    var inGrid := InBounds(c, |maze[0]|, |maze|);
    Probe(inGrid, c in redZones, inGrid && maze[c.1][c.0] == Exit)
  }

  /** A `pygame` event as the game reads it. */
  datatype Event = Quit | MouseDown(button: int) | MouseUp(button: int) | Other

  /** An entry of `red_scan_lines`: the wave, its two boundary rays, its start time and
      its hits. */
  datatype RedScanLine = RedScanLine(points: seq<TimedPoint>, leftBound: seq<TimedPoint>,
                                     rightBound: seq<TimedPoint>, startTime: int, hitPositions: seq<Point>)

  /** `(*pos, current_time)` for each hit. */
  function StampAll(ps: seq<Point>, now: int): (r: seq<TimedPoint>)
    ensures |r| == |ps| && forall k | 0 <= k < |ps| :: r[k] == Stamp(ps[k], now)
  {
    seq(|ps|, k requires 0 <= k < |ps| => Stamp(ps[k], now))
  }

  /** The loop `for pos in hit_positions: red_points.append((*pos, current_time))`. */
  method StampHits(hits: seq<Point>, now: int) returns (added: seq<TimedPoint>)
    ensures added == StampAll(hits, now)
  {
    added := [];
    for k := 0 to |hits|
      invariant added == StampAll(hits[..k], now)
    {
      assert StampAll(hits[..k + 1], now) == added + [Stamp(hits[k], now)];
      added := added + [Stamp(hits[k], now)];
    }
    assert hits[..|hits|] == hits;
  }

  /** The rays a red scan is cast along: the sweep (offset, distance), and the two
      boundaries at 45 degrees either side, by distance. */
  datatype RedAim = RedAim(ray: (int, int) -> Point, leftRay: int -> Point, rightRay: int -> Point)

  /** The part of the game the event handler changes. */
  datatype InputState = InputState(leftMouseDown: bool, lastRedScanTime: int,
                                   redPoints: seq<TimedPoint>, redScanLines: seq<RedScanLine>)

  /** A red scan fired at `now`: the time is recorded, the wave and its boundaries are
      kept as a scan line, and each hit becomes a red point. */
  function RedScanEffect(s: InputState, v: View, fogRadius: int, now: int, aim: RedAim): InputState
    requires ViewOk(v)
  {
    var r := RedWave(v, aim.ray, Range(-45, 46, 2), Range(0, 200, 3), now);
    InputState(s.leftMouseDown, now, s.redPoints + StampAll(r.1, now),
               s.redScanLines + [RedScanLine(r.0, Boundary(aim.leftRay, fogRadius, now),
                                             Boundary(aim.rightRay, fogRadius, now), now, r.1)])
  }

  /** One event other than a quit: button 1 sets or clears the held flag; a press of
      button 3 fires a red scan when strictly more than the cooldown has passed. */
  function OnEvent(s: InputState, e: Event, v: View, fogRadius: int, cooldown: int, now: int, aim: RedAim): InputState
    requires ViewOk(v)
  {
    match e
    case MouseDown(b) =>
      if b == 1 then s.(leftMouseDown := true)
      else if b == 3 && now - s.lastRedScanTime > cooldown then RedScanEffect(s, v, fogRadius, now, aim)
      else s
    case MouseUp(b) => if b == 1 then s.(leftMouseDown := false) else s
    case _ => s
  }

  /** The events of a frame, in order. */
  function OnEvents(s: InputState, es: seq<Event>, v: View, fogRadius: int, cooldown: int, now: int, aim: RedAim)
    : InputState
    requires ViewOk(v)
    decreases |es|
  {
    if es == [] then s
    else OnEvent(OnEvents(s, es[..|es| - 1], v, fogRadius, cooldown, now, aim), es[|es| - 1], v, fogRadius, cooldown, now, aim)
  }

  ghost predicate IsPrefix<T>(a: seq<T>, b: seq<T>) {
    |a| <= |b| && b[..|a|] == a
  }

  lemma PrefixTrans<T>(a: seq<T>, b: seq<T>, c: seq<T>)
    requires IsPrefix(a, b) && IsPrefix(b, c)
    ensures IsPrefix(a, c)
  {
    assert c[..|a|] == c[..|b|][..|a|];
  }

  /** Over a frame's events, the red points and the scan lines only grow; the scan time
      moves only to `now`, and only when the cooldown had passed; without a button-3
      press nothing red changes; and with a cooldown that is not negative, at most one
      red scan fires per frame. */
  lemma {:induction false} OnEventsSpec(s: InputState, es: seq<Event>, v: View, fogRadius: int, cooldown: int,
                                        now: int, aim: RedAim)
    requires ViewOk(v)
    ensures var r := OnEvents(s, es, v, fogRadius, cooldown, now, aim);
      IsPrefix(s.redPoints, r.redPoints) && IsPrefix(s.redScanLines, r.redScanLines)
      && (r.lastRedScanTime == s.lastRedScanTime || (r.lastRedScanTime == now && now - s.lastRedScanTime > cooldown))
      && ((forall k | 0 <= k < |es| :: es[k] != MouseDown(3)) ==>
            r.lastRedScanTime == s.lastRedScanTime && r.redPoints == s.redPoints && r.redScanLines == s.redScanLines)
      && (cooldown >= 0 ==> |r.redScanLines| <= |s.redScanLines| + 1)
      && (|r.redScanLines| == |s.redScanLines| + 1 ==> r.lastRedScanTime == now)
      && (|r.redScanLines| == |s.redScanLines| ==> r.lastRedScanTime == s.lastRedScanTime && r.redPoints == s.redPoints)
    decreases |es|
  {
    if es != [] {
      var n := |es| - 1;
      OnEventsSpec(s, es[..n], v, fogRadius, cooldown, now, aim);
      var p := OnEvents(s, es[..n], v, fogRadius, cooldown, now, aim);
      var r := OnEvent(p, es[n], v, fogRadius, cooldown, now, aim);
      assert r == OnEvents(s, es, v, fogRadius, cooldown, now, aim);
      if es[n] == MouseDown(3) && now - p.lastRedScanTime > cooldown {
        var w := RedWave(v, aim.ray, Range(-45, 46, 2), Range(0, 200, 3), now);
        assert r.redPoints == p.redPoints + StampAll(w.1, now);
        assert r.redPoints[..|p.redPoints|] == p.redPoints;
        assert r.redScanLines[..|p.redScanLines|] == p.redScanLines;
        PrefixTrans(s.redPoints, p.redPoints, r.redPoints);
        PrefixTrans(s.redScanLines, p.redScanLines, r.redScanLines);
      } else {
        assert r.redPoints == p.redPoints && r.redScanLines == p.redScanLines && r.lastRedScanTime == p.lastRedScanTime;
      }
      if forall k | 0 <= k < |es| :: es[k] != MouseDown(3) {
        assert forall k | 0 <= k < n :: es[..n][k] == es[k];
      }
    }
  }

  class ScannerGame {
    var player: Player
    var maze: seq<seq<int>>
    var thinWalls: seq<seq<int>>
    var redZones: seq<Cell>
    var cellSize: int
    var fogRadius: int
    var pointLifetime: int
    var whiteScanCooldown: int
    var redScanCooldown: int
    var whitePoints: seq<TimedPoint>
    var redPoints: seq<TimedPoint>
    var redScanLines: seq<RedScanLine>
    var gameWon: bool
    var gameOver: bool
    var lastWhiteScanTime: int
    var lastRedScanTime: int
    var leftMouseDown: bool

    function Sight(): View
      reads this`cellSize, this`maze, this`thinWalls, this`redZones
    {
      View(cellSize, maze, thinWalls, redZones)
    }

    predicate Valid()
      reads this`cellSize, this`maze, this`thinWalls, this`redZones
    {
      ViewOk(Sight())
    }

    function Input(): InputState
      reads this`leftMouseDown, this`lastRedScanTime, this`redPoints, this`redScanLines
    {
      InputState(leftMouseDown, lastRedScanTime, redPoints, redScanLines)
    }

    /** `apply_settings` with the settings' values given, followed by `reset_game` with
        the grid given. */
    constructor (width: int, height: int, playerRadius: Option<real>, playerSpeed: Option<real>,
                 fog: int, lifetime: int, whiteCooldown: int, redCooldown: int,
                 thin: seq<seq<int>>, grid: seq<seq<int>>, zones: seq<Cell>, cs: int)
      requires ViewOk(View(cs, grid, thin, zones))
      ensures Valid() && fresh(player)
      ensures fogRadius == fog && pointLifetime == lifetime
      ensures whiteScanCooldown == whiteCooldown && redScanCooldown == redCooldown
      ensures whitePoints == [] && redPoints == [] && redScanLines == []
      ensures !gameWon && !gameOver && !leftMouseDown && lastWhiteScanTime == 0 && lastRedScanTime == 0
    {
      player := new Player(width, height, playerRadius, playerSpeed);
      fogRadius, pointLifetime := fog, lifetime;
      whiteScanCooldown, redScanCooldown := whiteCooldown, redCooldown;
      whitePoints, redPoints, redScanLines := [], [], [];
      gameWon, gameOver := false, false;
      lastWhiteScanTime, lastRedScanTime, leftMouseDown := 0, 0, false;
      thinWalls, maze, redZones, cellSize := thin, grid, zones, cs;
    }

    /** `reset_game`: the player back at the centre without glow, no points or scan
        lines, neither flag, both scan timers at 0, and a new grid. */
    method ResetGame(width: int, height: int, thin: seq<seq<int>>, grid: seq<seq<int>>, zones: seq<Cell>, cs: int)
      requires ViewOk(View(cs, grid, thin, zones))
      modifies this`whitePoints, this`redPoints, this`redScanLines, this`gameWon, this`gameOver,
               this`lastWhiteScanTime, this`lastRedScanTime, this`leftMouseDown,
               this`thinWalls, this`maze, this`redZones, this`cellSize, player`pos, player`glow
      ensures Valid()
      ensures player.pos == ((width / 2) as real, (height / 2) as real) && player.glow == 0.0
      ensures whitePoints == [] && redPoints == [] && redScanLines == []
      ensures !gameWon && !gameOver && !leftMouseDown && lastWhiteScanTime == 0 && lastRedScanTime == 0
      ensures thinWalls == thin && maze == grid && redZones == zones && cellSize == cs
    {
      player.pos := ((width / 2) as real, (height / 2) as real);
      player.glow := 0.0;
      whitePoints, redPoints, redScanLines := [], [], [];
      gameWon, gameOver := false, false;
      lastWhiteScanTime, lastRedScanTime, leftMouseDown := 0, 0, false;
      thinWalls, maze, redZones, cellSize := thin, grid, zones, cs;
    }

    /** The right-click branch of `handle_events`, once the cooldown has passed: the
        time is recorded, the red wave and its boundary rays are added as a scan line,
        and each hit becomes a red point stamped now. */
    method FireRedScan(now: int, aim: RedAim)
      requires Valid()
      modifies this`lastRedScanTime, this`redPoints, this`redScanLines
      ensures Input() == RedScanEffect(old(Input()), Sight(), fogRadius, now, aim)
    {
      var v := Sight();
      var wavePoints, hitPositions := AddRedScanWave(v, aim.ray, now);
      var leftBound, rightBound := BoundaryRays(aim.leftRay, aim.rightRay, fogRadius, now);
      var added := StampHits(hitPositions, now);
      lastRedScanTime, redPoints := now, redPoints + added;
      redScanLines := redScanLines + [RedScanLine(wavePoints, leftBound, rightBound, now, hitPositions)];
      assert Sight() == v;
    }

    /** `handle_events`: the events of one frame in order. A left press or release sets
        `left_mouse_down`; a right press fires the red scan when strictly more than
        `red_scan_cooldown` has passed since the last one; a quit stops the game at once. */
    method HandleEvents(events: seq<Event>, now: int, aim: RedAim) returns (running: bool)
      requires Valid()
      modifies this`leftMouseDown, this`lastRedScanTime, this`redPoints, this`redScanLines
      ensures running <==> Quit !in events
      ensures running ==> Input() == OnEvents(old(Input()), events, Sight(), fogRadius, redScanCooldown, now, aim)
      ensures !running ==> exists k | 0 <= k < |events| ::
        events[k] == Quit && Quit !in events[..k]
        && Input() == OnEvents(old(Input()), events[..k], Sight(), fogRadius, redScanCooldown, now, aim)
    {
      ghost var s0 := Input();
      for i := 0 to |events|
        invariant Quit !in events[..i]
        invariant Input() == OnEvents(s0, events[..i], Sight(), fogRadius, redScanCooldown, now, aim)
      {
        assert events[..i + 1][..i] == events[..i];
        match events[i]
        case Quit =>
          return false;
        case MouseDown(b) =>
          if b == 1 {
            leftMouseDown := true;
          } else if b == 3 && now - lastRedScanTime > redScanCooldown {
            FireRedScan(now, aim);
          }
        case MouseUp(b) =>
          if b == 1 {
            leftMouseDown := false;
          }
        case Other =>
      }
      assert events[..|events|] == events;
      return true;
    }

    /** The white scan of `update`: when strictly more than `white_scan_cooldown` has
        passed, the time is recorded and a hit adds its point and raises the glow to
        `min(10, glow + 1)`; a miss adds nothing and leaves the glow alone. The draws
        u1, u2 are `uniform(-2, 2)`. */
    method WhiteScanStep(now: int, ray: int -> Point, u1: real, u2: real)
      requires Valid() && -2.0 <= u1 <= 2.0 && -2.0 <= u2 <= 2.0
      modifies this`whitePoints, this`lastWhiteScanTime, player`glow
      ensures var fired := leftMouseDown && now - old(lastWhiteScanTime) > whiteScanCooldown;
        var p := if fired then WhitePoints(Sight(), ray, u1, u2, now) else [];
        lastWhiteScanTime == (if fired then now else old(lastWhiteScanTime))
        && whitePoints == old(whitePoints) + p
        && player.glow == (if p != [] then RMin(10.0, old(player.glow) + 1.0) else old(player.glow))
    {
      if leftMouseDown && now - lastWhiteScanTime > whiteScanCooldown {
        lastWhiteScanTime := now;
        var newPoints := PreciseWhiteScan(Sight(), ray, u1, u2, now);
        if newPoints != [] {
          whitePoints := whitePoints + newPoints;
          player.glow := RMin(10.0, player.glow + 1.0);
        } else {
          assert whitePoints == whitePoints + newPoints;
        }
      }
    }

    /** The movement of `update`: the key axes, scaled by `MoveDelta`, resolved against
        the thin walls. */
    method MoveStep(right: bool, left: bool, down: bool, up: bool)
      requires Valid()
      modifies player`pos
      ensures var d := MoveDelta(KeyAxis(right, left), KeyAxis(down, up), player.speed, player.speedDiagonal);
        player.pos == ResolveMove(thinWalls, cellSize, player.radius, old(player.pos), d.0, d.1, gameOver || gameWon)
    {
      var d := MoveDelta(KeyAxis(right, left), KeyAxis(down, up), player.speed, player.speedDiagonal);
      player.UpdatePosition(d.0, d.1, gameOver, gameWon, thinWalls, cellSize);
    }

    /** The status block of `update`, on the cell `int(x) // cell_size` of the centre. */
    method CheckStatus()
      requires Valid()
      modifies this`gameOver, this`gameWon
      ensures Flags(gameOver, gameWon)
              == Check(Flags(old(gameOver), old(gameWon)), GameProbe(maze, redZones, cellSize, player.pos))
    {
      var c := PixelCell(player.pos, cellSize);
      if 0 <= c.0 < |maze[0]| && 0 <= c.1 < |maze| {
        if c in redZones && !gameOver {
          gameOver := true;
        } else if maze[c.1][c.0] == Exit && !gameWon {
          gameWon := true;
        }
      }
    }

    /** The end of `update`: the glow decays and both lists keep their live points. */
    method ExpireStep(dt: real, now: int)
      modifies this`whitePoints, this`redPoints, player`glow
      ensures player.glow == GlowDecay(old(player.glow), dt)
      ensures whitePoints == Expire(old(whitePoints), now, pointLifetime)
      ensures redPoints == Expire(old(redPoints), now, pointLifetime)
    {
      player.UpdateGlow(dt);
      whitePoints := FilterAlive(whitePoints, now, pointLifetime);
      redPoints := FilterAlive(redPoints, now, pointLifetime);
    }

    /** The white scan of a running frame, or nothing once the game is over. */
    function FrameScan(ray: int -> Point, u1: real, u2: real, now: int): seq<TimedPoint>
      requires Valid()
      reads this`cellSize, this`maze, this`thinWalls, this`redZones, this`gameOver, this`gameWon,
            this`leftMouseDown, this`lastWhiteScanTime, this`whiteScanCooldown
    {
      if !gameOver && !gameWon && leftMouseDown && now - lastWhiteScanTime > whiteScanCooldown
      then WhitePoints(Sight(), ray, u1, u2, now) else []
    }

    /** The part of `update` that runs only while the game is on: the white scan, then
        the move. */
    method Play(now: int, ray: int -> Point, u1: real, u2: real, right: bool, left: bool, down: bool, up: bool)
      requires Valid() && -2.0 <= u1 <= 2.0 && -2.0 <= u2 <= 2.0
      modifies this`whitePoints, this`lastWhiteScanTime, player`pos, player`glow
      ensures var p := old(FrameScan(ray, u1, u2, now));
        whitePoints == old(whitePoints) + p
        && player.glow == (if p != [] then RMin(10.0, old(player.glow) + 1.0) else old(player.glow))
      ensures lastWhiteScanTime ==
        if !gameOver && !gameWon && leftMouseDown && now - old(lastWhiteScanTime) > whiteScanCooldown
        then now else old(lastWhiteScanTime)
      ensures !gameOver && !gameWon ==>
        var d := MoveDelta(KeyAxis(right, left), KeyAxis(down, up), player.speed, player.speedDiagonal);
        player.pos == ResolveMove(thinWalls, cellSize, player.radius, old(player.pos), d.0, d.1, false)
      ensures gameOver || gameWon ==> player.pos == old(player.pos)
    {
      if !gameOver && !gameWon {
        WhiteScanStep(now, ray, u1, u2);
        MoveStep(right, left, down, up);
      }
    }

    /** The part of `update` that runs whatever the state: the status check at the new
        position, the glow decay and the expiry of old points. */
    method Settle(dt: real, now: int)
      requires Valid()
      modifies this`whitePoints, this`redPoints, this`gameOver, this`gameWon, player`glow
      ensures Flags(gameOver, gameWon)
              == Check(Flags(old(gameOver), old(gameWon)), GameProbe(maze, redZones, cellSize, player.pos))
      ensures player.glow == GlowDecay(old(player.glow), dt)
      ensures whitePoints == Expire(old(whitePoints), now, pointLifetime)
      ensures redPoints == Expire(old(redPoints), now, pointLifetime)
      ensures forall p | p in whitePoints :: Alive(p, now, pointLifetime)
    {
      CheckStatus();
      ghost var scanned := whitePoints;
      ExpireStep(dt, now);
      ExpireMembers(scanned, now, pointLifetime);
    }

    /** `update(dt)`: while the game is on, the white scan and the move; then, whatever
        the state, the status check, the glow decay and the expiry of old points. The
        white point, if any, is added before the expiry. */
    method Update(dt: real, now: int, ray: int -> Point, u1: real, u2: real,
                  right: bool, left: bool, down: bool, up: bool)
      requires Valid() && -2.0 <= u1 <= 2.0 && -2.0 <= u2 <= 2.0
      modifies this`whitePoints, this`redPoints, this`gameOver, this`gameWon, this`lastWhiteScanTime,
               player`pos, player`glow
      ensures Flags(gameOver, gameWon)
              == Check(Flags(old(gameOver), old(gameWon)), GameProbe(maze, redZones, cellSize, player.pos))
      ensures lastWhiteScanTime ==
        if !old(gameOver) && !old(gameWon) && leftMouseDown && now - old(lastWhiteScanTime) > whiteScanCooldown
        then now else old(lastWhiteScanTime)
      ensures var p := old(FrameScan(ray, u1, u2, now));
        whitePoints == Expire(old(whitePoints) + p, now, pointLifetime)
        && player.glow == GlowDecay(if p != [] then RMin(10.0, old(player.glow) + 1.0) else old(player.glow), dt)
      ensures !old(gameOver) && !old(gameWon) ==>
        var d := MoveDelta(KeyAxis(right, left), KeyAxis(down, up), player.speed, player.speedDiagonal);
        player.pos == ResolveMove(thinWalls, cellSize, player.radius, old(player.pos), d.0, d.1, false)
      ensures old(gameOver) || old(gameWon) ==> player.pos == old(player.pos)
      ensures forall p | p in whitePoints :: Alive(p, now, pointLifetime)
      ensures redPoints == Expire(old(redPoints), now, pointLifetime)
      ensures player.glow >= 0.0
    {
      Play(now, ray, u1, u2, right, left, down, up);
      Settle(dt, now);
    }
  }
}
