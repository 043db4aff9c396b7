/** The two scanners of src/model/scanner.py. Each keeps the time of its last scan and
    refuses to fire again within its cooldown. The locator marches one ray and returns
    at most one scattered point; the detector sweeps a cone of rays, appending every
    in-grid sample to the wave and every danger-zone sample to the hits, and ends a ray
    at the first sample outside the grid (not appended) or on a thin wall or wall cell
    (appended). A ray is given as a function from (angle offset, distance) to the point
    sampled there. */
module ModelScanner {
  import opened Builtins
  import opened Grid
  import opened Points
  import opened Sensing

  /** A sample stamped with the scan's time: `(x, y, current_time)`. */
  function Stamp(p: Point, now: int): TimedPoint {
    TimedPoint(p.0, p.1, now)
  }

  /** Where a detector ray stops once it has appended the sample: a thin wall, or a cell
      of the grid whose value is 1. */
  predicate DetectorStop(v: View, c: Cell)
    requires ViewOk(v) && ValidCell(v, c)
  {
    IsWall(v, c) || v.maze[c.1][c.0] == Wall
  }

  /** One detector ray from its i-th sample on: the wave points and the danger hits. */
  function RayFrom(v: View, samples: seq<Point>, i: nat, now: int): (r: (seq<TimedPoint>, seq<Point>))
    requires ViewOk(v) && i <= |samples|
    ensures |r.0| <= |samples| - i
    decreases |samples| - i
  {
    if i == |samples| then ([], [])
    else
      var p := samples[i];
      var c := PixelCell(p, v.cellSize);
      if !ValidCell(v, c) then ([], [])
      else
        var hit := if IsDanger(v, c) then [p] else [];
        if DetectorStop(v, c) then ([Stamp(p, now)], hit)
        else
          var rest := RayFrom(v, samples, i + 1, now);
          ([Stamp(p, now)] + rest.0, hit + rest.1)
  }

  /** The wave of a ray is the stamped run of its samples from i on, all inside the
      grid, and every hit is a danger-zone sample that is also a wave point. */
  lemma {:induction false} RaySpec(v: View, samples: seq<Point>, i: nat, now: int)
    requires ViewOk(v) && i <= |samples|
    ensures var r := RayFrom(v, samples, i, now);
      forall k | 0 <= k < |r.0| :: r.0[k] == Stamp(samples[i + k], now) && InGrid(v, samples[i + k])
    ensures var r := RayFrom(v, samples, i, now);
      forall p | p in r.1 :: Stamp(p, now) in r.0 && IsDanger(v, PixelCell(p, v.cellSize))
    decreases |samples| - i
  {
    if i < |samples| {
      var c := PixelCell(samples[i], v.cellSize);
      if ValidCell(v, c) && !DetectorStop(v, c) {
        RaySpec(v, samples, i + 1, now);
        var rest := RayFrom(v, samples, i + 1, now);
        var r := RayFrom(v, samples, i, now);
        assert r.0 == [Stamp(samples[i], now)] + rest.0;
        forall k | 1 <= k < |r.0|
          ensures r.0[k] == Stamp(samples[i + k], now) && InGrid(v, samples[i + k])
        {
          assert r.0[k] == rest.0[k - 1];
          assert i + k == (i + 1) + (k - 1);
        }
      }
    }
  }

  /** The sample lies in a cell of the grid. */
  predicate InGrid(v: View, p: Point)
    requires ViewOk(v)
  {
    ValidCell(v, PixelCell(p, v.cellSize))
  }

  /** The sample lies in a cell of the grid that stops the ray. */
  predicate Stops(v: View, p: Point)
    requires ViewOk(v)
  {
    InGrid(v, p) && DetectorStop(v, PixelCell(p, v.cellSize))
  }

  /** Where a ray ends: every appended sample but the last is in the grid and went on;
      if samples remain after the last appended one, then that one stopped the ray or
      the next sample is outside the grid. */
  lemma {:induction false} RayEnds(v: View, samples: seq<Point>, i: nat, now: int)
    requires ViewOk(v) && i <= |samples|
    ensures var n := |RayFrom(v, samples, i, now).0|;
      forall k | i <= k < i + n - 1 :: InGrid(v, samples[k]) && !Stops(v, samples[k])
    ensures var n := |RayFrom(v, samples, i, now).0|;
      i + n < |samples| ==> (n > 0 && Stops(v, samples[i + n - 1])) || !InGrid(v, samples[i + n])
    decreases |samples| - i
  {
    if i < |samples| {
      var c := PixelCell(samples[i], v.cellSize);
      if ValidCell(v, c) && !DetectorStop(v, c) {
        RayEnds(v, samples, i + 1, now);
      }
    }
  }

  /** Every danger zone inside the grid is a wall cell (value 1): what the generator of
      src/model/maze.py guarantees, since it draws red zones from the wall cells. */
  predicate DangerZonesAreWalls(v: View)
    requires ViewOk(v)
  {
    forall d | d in v.dangerZones && ValidCell(v, d) :: v.maze[d.1][d.0] == Wall
  }

  /** Then a ray stops at its first danger hit, so it yields at most one. */
  lemma {:induction false} OneHitPerRay(v: View, samples: seq<Point>, i: nat, now: int)
    requires ViewOk(v) && i <= |samples| && DangerZonesAreWalls(v)
    ensures |RayFrom(v, samples, i, now).1| <= 1
    decreases |samples| - i
  {
    if i < |samples| {
      var c := PixelCell(samples[i], v.cellSize);
      if ValidCell(v, c) && !DetectorStop(v, c) {
        assert !IsDanger(v, c);
        OneHitPerRay(v, samples, i + 1, now);
      }
    }
  }

  /** The samples of the ray at angle offset delta, one per distance. */
  function Samples(ray: (int, int) -> Point, delta: int, dists: seq<int>): (s: seq<Point>)
    ensures |s| == |dists| && forall k | 0 <= k < |dists| :: s[k] == ray(delta, dists[k])
  {
    seq(|dists|, k requires 0 <= k < |dists| => ray(delta, dists[k]))
  }

  /** The detector's sweep: the rays of the offsets in `deltas`, in order, their wave
      points and hits concatenated. */
  function Wave(v: View, ray: (int, int) -> Point, deltas: seq<int>, dists: seq<int>, now: int)
    : (r: (seq<TimedPoint>, seq<Point>))
    requires ViewOk(v)
    decreases |deltas|
  {
    if deltas == [] then ([], [])
    else
      var n := |deltas| - 1;
      var prev := Wave(v, ray, deltas[..n], dists, now);
      var last := RayFrom(v, Samples(ray, deltas[n], dists), 0, now);
      (prev.0 + last.0, prev.1 + last.1)
  }

  /** Every point of a sweep is stamped with the scan's time, and every hit is a
      danger-zone sample that is also a wave point. */
  lemma {:induction false} WaveSpec(v: View, ray: (int, int) -> Point, deltas: seq<int>, dists: seq<int>, now: int)
    requires ViewOk(v)
    ensures var r := Wave(v, ray, deltas, dists, now);
      forall q | q in r.0 :: q.t == now
    ensures var r := Wave(v, ray, deltas, dists, now);
      forall p | p in r.1 :: Stamp(p, now) in r.0 && IsDanger(v, PixelCell(p, v.cellSize))
    decreases |deltas|
  {
    if deltas != [] {
      var n := |deltas| - 1;
      WaveSpec(v, ray, deltas[..n], dists, now);
      RaySpec(v, Samples(ray, deltas[n], dists), 0, now);
      var last := RayFrom(v, Samples(ray, deltas[n], dists), 0, now);
      assert forall q | q in last.0 :: q.t == now by {
        forall q | q in last.0 ensures q.t == now {
          var k :| 0 <= k < |last.0| && last.0[k] == q;
        }
      }
    }
  }

  /** With danger zones on wall cells, a sweep reports at most one hit per ray. */
  lemma {:induction false} WaveHits(v: View, ray: (int, int) -> Point, deltas: seq<int>, dists: seq<int>, now: int)
    requires ViewOk(v) && DangerZonesAreWalls(v)
    ensures |Wave(v, ray, deltas, dists, now).1| <= |deltas|
    decreases |deltas|
  {
    if deltas != [] {
      var n := |deltas| - 1;
      WaveHits(v, ray, deltas[..n], dists, now);
      OneHitPerRay(v, Samples(ray, deltas[n], dists), 0, now);
    }
  }

  /** One ray of the detector's loop over distances, as the scan runs it: append, then
      `break` on a sample outside the grid (before appending) or on a stop (after). */
  method CastRay(v: View, ray: (int, int) -> Point, delta: int, dists: seq<int>, now: int)
    returns (w: seq<TimedPoint>, h: seq<Point>)
    requires ViewOk(v)
    ensures (w, h) == RayFrom(v, Samples(ray, delta, dists), 0, now)
  {
    ghost var samples := Samples(ray, delta, dists);
    w, h := [], [];
    var j := 0;
    assert w + RayFrom(v, samples, 0, now).0 == RayFrom(v, samples, 0, now).0;
    assert h + RayFrom(v, samples, 0, now).1 == RayFrom(v, samples, 0, now).1;
    while j < |dists|
      invariant 0 <= j <= |dists|
      invariant RayFrom(v, samples, 0, now) == (w + RayFrom(v, samples, j, now).0, h + RayFrom(v, samples, j, now).1)
    {
      var p := ray(delta, dists[j]);
      assert p == samples[j];
      var c := PixelCell(p, v.cellSize);
      if !ValidCell(v, c) {
        assert RayFrom(v, samples, j, now) == ([], []);
        assert w + [] == w && h + [] == h;
        return;
      }
      RayStep(v, samples, j, now, w, h);
      w := w + [Stamp(p, now)];
      if IsDanger(v, c) {
        h := h + [p];
      }
      if IsWall(v, c) || v.maze[c.1][c.0] == Wall {
        return;
      }
      j := j + 1;
    }
    assert w + [] == w && h + [] == h;
  }

  /** One step of the ray: an in-grid sample is appended (to the hits too when it is in a
      danger zone) and the ray goes on from the next sample unless that one stopped it. */
  lemma RayStep(v: View, samples: seq<Point>, j: nat, now: int, w: seq<TimedPoint>, h: seq<Point>)
    requires ViewOk(v) && j < |samples| && InGrid(v, samples[j])
    ensures var c := PixelCell(samples[j], v.cellSize);
      var w' := w + [Stamp(samples[j], now)];
      var h' := if IsDanger(v, c) then h + [samples[j]] else h;
      (w + RayFrom(v, samples, j, now).0, h + RayFrom(v, samples, j, now).1)
      == if DetectorStop(v, c) then (w', h')
         else (w' + RayFrom(v, samples, j + 1, now).0, h' + RayFrom(v, samples, j + 1, now).1)
  {
    var c := PixelCell(samples[j], v.cellSize);
    var hit := if IsDanger(v, c) then [samples[j]] else [];
    var rest := RayFrom(v, samples, j + 1, now);
    var h' := if IsDanger(v, c) then h + [samples[j]] else h;
    assert h' == h + hit;
    if !DetectorStop(v, c) {
      assert w + ([Stamp(samples[j], now)] + rest.0) == w + [Stamp(samples[j], now)] + rest.0;
      assert h + (hit + rest.1) == h + hit + rest.1;
    }
  }

  /** `LocatorScanner`: the narrow scanner. */
  class LocatorScanner {
    var lastScanTime: int

    /** `Scanner.__init__`. */
    constructor ()
      ensures lastScanTime == 0
    {
      lastScanTime := 0;
    }

    /** `scan`: refuses within `locator_cooldown` of the last scan, leaving the time as it
        was; otherwise records the time and marches `ray` over
        `range(5, LOCATOR_SCAN_LENGTH, LOCATOR_SCAN_STEP)`, returning the first thin-wall
        or exit hit moved along its wall normal by the draws u1, u2 of
        `uniform(-LOCATOR_HIT_VARIATION, LOCATOR_HIT_VARIATION)`, so by at most `variation`. */
    method Scan(v: View, cooldown: int, ray: int -> Point, scanLength: int, scanStep: int,
                variation: real, u1: real, u2: real, now: int) returns (points: seq<TimedPoint>)
      requires ViewOk(v) && scanStep != 0
      requires RAbs(u1) <= variation && RAbs(u2) <= variation
      modifies this
      ensures now - old(lastScanTime) < cooldown ==> points == [] && lastScanTime == old(lastScanTime)
      ensures now - old(lastScanTime) >= cooldown ==>
        lastScanTime == now
        && points == LocatorPoints(FirstStop(v, ray, Range(5, scanLength, scanStep)), v.cellSize, u1, u2, now)
      ensures points != [] ==> Near(points[0], FirstStop(v, ray, Range(5, scanLength, scanStep)), variation)
    {
      if now - lastScanTime < cooldown {
        return [];
      }
      lastScanTime := now;
      var hit := March(v, ray, Range(5, scanLength, scanStep));
      if hit.Some? {
        points := [Scatter(hit.value, v.cellSize, u1, u2, now)];
      } else {
        points := [];
      }
    }
  }

  /** `DetectorScanner`: the wide scanner. */
  class DetectorScanner {
    var lastScanTime: int

    /** `Scanner.__init__`. */
    constructor ()
      ensures lastScanTime == 0
    {
      lastScanTime := 0;
    }

    /** `scan`: refuses within `detector_cooldown` of the last scan, leaving the time as
        it was; otherwise records the time and sweeps the rays of
        `range(DETECTOR_ANGLE_MIN, DETECTOR_ANGLE_MAX, DETECTOR_ANGLE_STEP)` over the
        distances `range(0, DETECTOR_SCAN_LENGTH, DETECTOR_SCAN_STEP)`. */
    method Scan(v: View, cooldown: int, ray: (int, int) -> Point, angleMin: int, angleMax: int, angleStep: int,
                scanLength: int, scanStep: int, now: int)
      returns (wavePoints: seq<TimedPoint>, hitPositions: seq<Point>)
      requires ViewOk(v) && angleStep != 0 && scanStep != 0
      modifies this
      ensures now - old(lastScanTime) < cooldown ==>
        wavePoints == [] && hitPositions == [] && lastScanTime == old(lastScanTime)
      ensures now - old(lastScanTime) >= cooldown ==>
        lastScanTime == now
        && (wavePoints, hitPositions)
           == Wave(v, ray, Range(angleMin, angleMax, angleStep), Range(0, scanLength, scanStep), now)
    {
      if now - lastScanTime < cooldown {
        return [], [];
      }
      lastScanTime := now;
      var deltas := Range(angleMin, angleMax, angleStep);
      var dists := Range(0, scanLength, scanStep);
      wavePoints, hitPositions := [], [];
      for d := 0 to |deltas|
        invariant lastScanTime == now
        invariant (wavePoints, hitPositions) == Wave(v, ray, deltas[..d], dists, now)
      {
        var w, h := CastRay(v, ray, deltas[d], dists, now);
        wavePoints, hitPositions := wavePoints + w, hitPositions + h;
        assert deltas[..d + 1][..d] == deltas[..d];
      }
      assert deltas[..|deltas|] == deltas;
    }
  }
}
