/** `Scanner` of src/entities/scanner.py: the point generators of the entity version of
    the game. A white scan drops points at random distances along one ray; a red scan
    drops one point at the scan distance on each ray of a fan; old points expire. The
    ray through the mouse and its trigonometry are given as functions, the uniform
    draws as an oracle. */
module EntityScanner {
  import opened Builtins
  import opened Points
  import opened Sensing
  import opened ModelScanner

  /** The scanner's settings object. */
  datatype ScanConfig = ScanConfig(whiteScanPointsPerFrame: int, scanDistance: real,
                                   redScanAngleSpread: int, redScanAngleStep: int)

  /** For a spread that is not negative and a positive step,
      `range(-spread, spread + 1, step)` has 2·spread / step + 1 offsets, the first
      -spread and the last at most spread. */
  lemma RedFanSize(spread: int, step: int)
    requires spread >= 0 && step > 0
    ensures var ds := Range(-spread, spread + 1, step);
      |ds| == 2 * spread / step + 1 && ds[0] == -spread && ds[|ds| - 1] <= spread
  {
    RangeBounds(-spread, spread + 1, step);
  }

  class Scanner {
    var config: ScanConfig
    var whitePoints: seq<TimedPoint>
    var redPoints: seq<TimedPoint>
    var pointLifetime: int

    /** `Scanner.__init__`: no points yet, and a lifetime of 10 000 ms. */
    constructor (cfg: ScanConfig)
      ensures config == cfg && whitePoints == [] && redPoints == [] && pointLifetime == 10000
    {
      config := cfg;
      whitePoints, redPoints := [], [];
      pointLifetime := 10000;
    }

    /** `white_scan`: one point per iteration of `range(white_scan_points_per_frame)`,
        the i-th at the distance drawn i-th by `uniform(0, scan_distance)` along the ray,
        each stamped with the current time. */
    method WhiteScan(ray: real -> Point, draw: int -> real, now: int) returns (points: seq<TimedPoint>)
      requires forall i :: 0.0 <= draw(i) <= config.scanDistance
      ensures forall q | q in points :: exists d: real | 0.0 <= d <= config.scanDistance :: q == Stamp(ray(d), now)
      ensures |points| == |Range(0, config.whiteScanPointsPerFrame, 1)|
      ensures config.whiteScanPointsPerFrame >= 0 ==> |points| == config.whiteScanPointsPerFrame
      ensures forall i | 0 <= i < |points| :: points[i] == Stamp(ray(draw(i)), now)
    {
      points := [];
      var n := config.whiteScanPointsPerFrame;
      RangeLength(0, n, 1);
      for i := 0 to |Range(0, n, 1)|
        invariant |points| == i
        invariant forall j | 0 <= j < i :: points[j] == Stamp(ray(draw(j)), now)
      {
        var dist := draw(i);
        points := points + [Stamp(ray(dist), now)];
      }
    }

    /** `red_scan`: one point per offset of
        `range(-red_scan_angle_spread, red_scan_angle_spread + 1, red_scan_angle_step)`,
        at the scan distance along that ray, stamped with the current time. A zero step
        raises ValueError. */
    method RedScan(ray: int -> Point, now: int) returns (points: seq<TimedPoint>)
      requires config.redScanAngleStep != 0
      ensures var ds := Range(-config.redScanAngleSpread, config.redScanAngleSpread + 1, config.redScanAngleStep);
        |points| == |ds| && forall k | 0 <= k < |ds| :: points[k] == Stamp(ray(ds[k]), now)
    {
      var ds := Range(-config.redScanAngleSpread, config.redScanAngleSpread + 1, config.redScanAngleStep);
      points := [];
      for k := 0 to |ds|
        invariant |points| == k
        invariant forall j | 0 <= j < k :: points[j] == Stamp(ray(ds[j]), now)
      {
        points := points + [Stamp(ray(ds[k]), now)];
      }
    }

    /** `clean_old_points`: both lists keep exactly their live points, in order. */
    method CleanOldPoints(now: int)
      modifies this`whitePoints, this`redPoints
      ensures whitePoints == Expire(old(whitePoints), now, pointLifetime)
      ensures redPoints == Expire(old(redPoints), now, pointLifetime)
    {
      whitePoints := FilterAlive(whitePoints, now, pointLifetime);
      redPoints := FilterAlive(redPoints, now, pointLifetime);
    }
  }
}
