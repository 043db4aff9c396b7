/** `GameModel` of src/model/game_model.py: the game state behind the model-view
    version of the game. A frame runs the locator scan, moves the player by the pressed
    keys, checks the end-of-game rule and drops expired points; on request it searches
    for a path from the player's cell to the exit. */
module ModelGame {
  import opened Builtins
  import opened Grid
  import opened Utils
  import opened Points
  import opened Sensing
  import opened ModelScanner
  import opened PathFinder
  import opened Motion
  import opened Status
  import opened Carving
  import opened ModelMaze

  /** `int(x // cell_size)` on each axis: the floor of the quotient, with no truncation
      of x first. */
  function StatusCell(p: Pos, cs: int): Cell
    requires cs > 0
  {
    ((p.0 / cs as real).Floor, (p.1 / cs as real).Floor)
  }

  /** The status cell is the square of side cs that holds the point, on either side of
      the origin. */
  lemma StatusCellSquare(p: Pos, cs: int)
    requires cs > 0
    ensures var c := StatusCell(p, cs);
      (c.0 * cs) as real <= p.0 < ((c.0 + 1) * cs) as real
      && (c.1 * cs) as real <= p.1 < ((c.1 + 1) * cs) as real
  {
    FloorScaled(p.0, cs);
    FloorScaled(p.1, cs);
  }

  lemma FloorScaled(x: real, cs: int)
    requires cs > 0
    ensures var f := (x / cs as real).Floor;
      (f * cs) as real <= x < ((f + 1) * cs) as real
  {
    var k := cs as real;
    var q := x / k;
    var f := q.Floor;
    assert f as real <= q < f as real + 1.0;
    assert q * k == x;
    ScaleLe(f as real, q, k);
    ScaleLt(q, f as real + 1.0, k);
    assert (f * cs) as real == f as real * k;
    assert ((f + 1) * cs) as real == (f as real + 1.0) * k;
    assert f == (x / cs as real).Floor;
    assert (f * cs) as real <= x;
    assert x < ((f + 1) * cs) as real;
  }

  lemma ScaleLe(a: real, b: real, k: real)
    requires a <= b && k > 0.0
    ensures a * k <= b * k
  {
  }

  lemma ScaleLt(a: real, b: real, k: real)
    requires a < b && k > 0.0
    ensures a * k < b * k
  {
  }

  /** The status check floors the quotient and the scanners truncate first: for a
      point just left of the grid the two disagree on the column. */
  lemma StatusCellFloors()
    ensures StatusCell((-0.5, 3.0), 30) == (-1, 0)
    ensures PixelCell((-0.5, 3.0), 30) == (0, 0)
  {
  }

  /** `keys[plus] - keys[minus]`: the booleans subtract as 1 and 0. */
  function KeyAxis(plus: bool, minus: bool): (d: real)
    ensures d == 0.0 <==> plus == minus
    ensures d == 1.0 <==> plus && !minus
    ensures d == -1.0 <==> minus && !plus
  {
    (if plus then 1.0 else 0.0) - (if minus then 1.0 else 0.0)
  }

  /** The exit found by `_find_exit_position`: a cell holding 2 with no such cell before
      it in row-major order. */
  ghost predicate IsFirstExit(maze: seq<seq<int>>, e: Cell)
    requires Rect(maze)
  {
    InBounds(e, |maze[0]|, |maze|) && maze[e.1][e.0] == Exit
    && forall c | InBounds(c, |maze[0]|, |maze|) && RowMajorBefore(c, e) :: maze[c.1][c.0] != Exit
  }

  ghost predicate NoExit(maze: seq<seq<int>>)
    requires Rect(maze)
  {
    forall c | InBounds(c, |maze[0]|, |maze|) :: maze[c.1][c.0] != Exit
  }

  /** There is at most one first exit, and none when no cell holds 2. */
  lemma FirstExitUnique(maze: seq<seq<int>>, e1: Cell, e2: Cell)
    requires Rect(maze)
    ensures IsFirstExit(maze, e1) && IsFirstExit(maze, e2) ==> e1 == e2
    ensures NoExit(maze) ==> !IsFirstExit(maze, e1)
  {
  }

  /** What the cell `int(pos // cell_size)` under the player is. */
  function ProbeAt(maze: seq<seq<int>>, dangerZones: seq<Cell>, cs: int, p: Pos): Probe
    requires Rect(maze) && cs > 0
  {
    var c := StatusCell(p, cs);
    var inGrid := IsValidCell(c.0, c.1, maze);
    Probe(inGrid, c in dangerZones, inGrid && maze[c.1][c.0] == Exit)
  }

  class GameModel {
    var maze: seq<seq<int>>
    var thinWalls: seq<seq<int>>
    var dangerZones: seq<Cell>
    var cellSize: int
    var player: Player
    var locatorScanner: LocatorScanner
    var locatorPoints: seq<TimedPoint>
    var detectorPoints: seq<TimedPoint>
    var gameWon: bool
    var gameOver: bool
    var leftMouseDown: bool
    var showPath: bool
    var path: seq<Cell>
    // `settings['point_lifetime']` and `settings['locator_cooldown']`
    var pointLifetime: int
    var locatorCooldown: int

    /** What the scanners read of the model. */
    function Sight(): View
      reads this`cellSize, this`maze, this`thinWalls, this`dangerZones
    {
      View(cellSize, maze, thinWalls, dangerZones)
    }

    /** The generator's output: a rectangular grid, a mask of its shape, a positive
        cell size. */
    predicate Valid()
      reads this`cellSize, this`maze, this`thinWalls, this`dangerZones
    {
      cellSize > 0 && ViewOk(Sight())
    }

    /** `__init__` and `reset`: a new player and scanners, a new maze from
        `MazeGenerator.generate_maze()`, no points, no path, neither flag set. */
    constructor (width: int, height: int, playerRadius: Option<real>, playerSpeed: Option<real>,
                 lifetime: int, cooldown: int,
                 cs: int, startZoneSize: int, ratioNum: nat, ratioDen: nat,
                 pick: nat -> nat, exitDraw: DictExitDraw, samplePick: nat -> nat)
      requires cs > 0 && ValidDictExitDraw(exitDraw, width / cs, height / cs)
      requires 0 < ratioDen && ratioNum <= ratioDen
      ensures Valid() && fresh(player) && fresh(locatorScanner)
      ensures locatorPoints == [] && detectorPoints == [] && path == []
      ensures !gameWon && !gameOver && !leftMouseDown && !showPath
      ensures IsGrid(maze, width / cs, height / cs) && locatorScanner.lastScanTime == 0
    {
      player := new Player(width, height, playerRadius, playerSpeed);
      var tw, mz, dz, c := GenerateMaze(width, height, cs, startZoneSize, ratioNum, ratioDen,
                                        pick, exitDraw, samplePick);
      thinWalls, maze, dangerZones, cellSize := tw, mz, dz, c;
      locatorPoints, detectorPoints := [], [];
      gameWon, gameOver := false, false;
      leftMouseDown, showPath, path := false, false, [];
      locatorScanner := new LocatorScanner();
      pointLifetime, locatorCooldown := lifetime, cooldown;
    }

    /** `_handle_locator_scan`: while the left button is held the locator fires (subject
        to its cooldown); a hit adds its point and raises the glow to
        `min(MAX_GLOW, glow + GLOW_INCREASE)`. The new points are returned as well; the
        draws u1, u2 are within `LOCATOR_HIT_VARIATION`, and so is a new point of its hit. */
    method HandleLocatorScan(now: int, ray: int -> Point, variation: real, u1: real, u2: real,
                             scanLength: int, scanStep: int, maxGlow: real, glowIncrease: real)
      returns (newPoints: seq<TimedPoint>)
      requires Valid() && scanStep != 0
      requires RAbs(u1) <= variation && RAbs(u2) <= variation
      modifies this`locatorPoints, locatorScanner, player`glow
      ensures |newPoints| <= 1 && locatorPoints == old(locatorPoints) + newPoints
      ensures !leftMouseDown ==> newPoints == [] && unchanged(locatorScanner)
      ensures leftMouseDown && now - old(locatorScanner.lastScanTime) >= locatorCooldown ==>
        locatorScanner.lastScanTime == now
        && newPoints == LocatorPoints(FirstStop(Sight(), ray, Range(5, scanLength, scanStep)), cellSize, u1, u2, now)
      ensures leftMouseDown && now - old(locatorScanner.lastScanTime) < locatorCooldown ==>
        newPoints == [] && locatorScanner.lastScanTime == old(locatorScanner.lastScanTime)
      ensures player.glow == if newPoints != [] then RMin(maxGlow, old(player.glow) + glowIncrease) else old(player.glow)
      ensures newPoints != [] ==> Near(newPoints[0], FirstStop(Sight(), ray, Range(5, scanLength, scanStep)), variation)
    {
      newPoints := [];
      if leftMouseDown {
        newPoints := locatorScanner.Scan(Sight(), locatorCooldown, ray, scanLength, scanStep, variation, u1, u2, now);
        if newPoints != [] {
          locatorPoints := locatorPoints + newPoints;
          player.glow := RMin(maxGlow, player.glow + glowIncrease);
        }
      }
    }

    /** `_handle_player_movement`: the keys give a step of -1, 0 or 1 on each axis (the
        player's speed is not applied here), resolved against the thin walls. */
    method HandlePlayerMovement(right: bool, left: bool, down: bool, up: bool)
      requires Valid()
      modifies player`pos
      ensures player.pos == ResolveMove(thinWalls, cellSize, player.radius, old(player.pos),
                                        KeyAxis(right, left), KeyAxis(down, up), gameOver || gameWon)
    {
      var moveX := KeyAxis(right, left);
      var moveY := KeyAxis(down, up);
      player.UpdatePosition(moveX, moveY, gameOver, gameWon, thinWalls, cellSize);
    }

    /** `_check_game_status`. */
    method CheckGameStatus()
      requires Valid()
      modifies this`gameOver, this`gameWon
      ensures Flags(gameOver, gameWon) == Check(Flags(old(gameOver), old(gameWon)), ProbeAt(maze, dangerZones, cellSize, player.pos))
    {
      var c := StatusCell(player.pos, cellSize);
      if IsValidCell(c.0, c.1, maze) {
        if c in dangerZones && !gameOver {
          gameOver := true;
        } else if maze[c.1][c.0] == Exit && !gameWon {
          gameWon := true;
        }
      }
    }

    /** `_update_particles_and_points`, without the particles: the glow decays and
        both point lists keep their live points. */
    method UpdatePoints(dt: real, now: int)
      modifies this`locatorPoints, this`detectorPoints, player`glow
      ensures player.glow == GlowDecay(old(player.glow), dt)
      ensures locatorPoints == Expire(old(locatorPoints), now, pointLifetime)
      ensures detectorPoints == Expire(old(detectorPoints), now, pointLifetime)
    {
      player.UpdateGlow(dt);
      locatorPoints := FilterAlive(locatorPoints, now, pointLifetime);
      detectorPoints := FilterAlive(detectorPoints, now, pointLifetime);
    }

    /** What the locator adds in a frame: while the left button is held and the cooldown
        has passed, the scattered first stop; otherwise nothing. */
    function FrameScan(ray: int -> Point, u1: real, u2: real, scanLength: int, scanStep: int, now: int)
      : seq<TimedPoint>
      requires Valid() && scanStep != 0
      reads this`cellSize, this`maze, this`thinWalls, this`dangerZones, this`leftMouseDown,
            this`locatorScanner, locatorScanner`lastScanTime, this`locatorCooldown
    {
      if leftMouseDown && now - locatorScanner.lastScanTime >= locatorCooldown
      then LocatorPoints(FirstStop(Sight(), ray, Range(5, scanLength, scanStep)), cellSize, u1, u2, now)
      else []
    }

    /** The first half of `update`: the locator scan, then the move. */
    method ScanAndMove(now: int, ray: int -> Point, variation: real, u1: real, u2: real,
                       scanLength: int, scanStep: int, maxGlow: real, glowIncrease: real,
                       right: bool, left: bool, down: bool, up: bool)
      requires Valid() && scanStep != 0
      requires RAbs(u1) <= variation && RAbs(u2) <= variation
      modifies this`locatorPoints, locatorScanner, player`pos, player`glow
      ensures var p := old(FrameScan(ray, u1, u2, scanLength, scanStep, now));
        locatorPoints == old(locatorPoints) + p
        && player.glow == (if p != [] then RMin(maxGlow, old(player.glow) + glowIncrease) else old(player.glow))
      ensures locatorScanner.lastScanTime ==
        if leftMouseDown && now - old(locatorScanner.lastScanTime) >= locatorCooldown
        then now else old(locatorScanner.lastScanTime)
      ensures player.pos == ResolveMove(thinWalls, cellSize, player.radius, old(player.pos),
                                        KeyAxis(right, left), KeyAxis(down, up), gameOver || gameWon)
    {
      var _ := HandleLocatorScan(now, ray, variation, u1, u2, scanLength, scanStep, maxGlow, glowIncrease);
      HandlePlayerMovement(right, left, down, up);
    }

    /** The second half of `update`: the status check at the new position, then the
        expiry of old points and the glow decay. */
    method Settle(dt: real, now: int)
      requires Valid()
      modifies this`locatorPoints, this`detectorPoints, this`gameOver, this`gameWon, player`glow
      ensures Flags(gameOver, gameWon) == Check(Flags(old(gameOver), old(gameWon)), ProbeAt(maze, dangerZones, cellSize, player.pos))
      ensures player.glow == GlowDecay(old(player.glow), dt)
      ensures locatorPoints == Expire(old(locatorPoints), now, pointLifetime)
      ensures detectorPoints == Expire(old(detectorPoints), now, pointLifetime)
      ensures forall p | p in locatorPoints :: Alive(p, now, pointLifetime)
    {
      CheckGameStatus();
      ghost var scanned := locatorPoints;
      UpdatePoints(dt, now);
      ExpireMembers(scanned, now, pointLifetime);
    }

    /** `update(dt, ...)`: scan, move, check, expire, in that order. The locator's point,
        if any, is added before the expiry; the move is resolved from the old position
        with the flags as they were; the status is checked at the new position. */
    method Update(dt: real, now: int, ray: int -> Point, variation: real, u1: real, u2: real,
                  scanLength: int, scanStep: int, maxGlow: real, glowIncrease: real,
                  right: bool, left: bool, down: bool, up: bool)
      requires Valid() && scanStep != 0
      requires RAbs(u1) <= variation && RAbs(u2) <= variation
      modifies this`locatorPoints, this`detectorPoints, this`gameOver, this`gameWon, locatorScanner,
               player`pos, player`glow
      ensures var p := old(FrameScan(ray, u1, u2, scanLength, scanStep, now));
        locatorPoints == Expire(old(locatorPoints) + p, now, pointLifetime)
        && player.glow == GlowDecay(if p != [] then RMin(maxGlow, old(player.glow) + glowIncrease) else old(player.glow), dt)
      ensures locatorScanner.lastScanTime ==
        if leftMouseDown && now - old(locatorScanner.lastScanTime) >= locatorCooldown
        then now else old(locatorScanner.lastScanTime)
      ensures player.pos == ResolveMove(thinWalls, cellSize, player.radius, old(player.pos),
                                        KeyAxis(right, left), KeyAxis(down, up), old(gameOver) || old(gameWon))
      ensures old(gameOver) ==> gameOver
      ensures old(gameWon) ==> gameWon
      ensures Flags(gameOver, gameWon) == Check(Flags(old(gameOver), old(gameWon)), ProbeAt(maze, dangerZones, cellSize, player.pos))
      ensures forall p | p in locatorPoints :: Alive(p, now, pointLifetime)
      ensures detectorPoints == Expire(old(detectorPoints), now, pointLifetime)
    {
      ScanAndMove(now, ray, variation, u1, u2, scanLength, scanStep, maxGlow, glowIncrease, right, left, down, up);
      Settle(dt, now);
    }

    /** `_find_exit_position`: the first cell holding 2, scanning rows top to bottom
        and each row left to right. */
    method FindExitPosition() returns (r: Option<Cell>)
      requires Valid()
      ensures r.None? ==> NoExit(maze)
      ensures r.Some? ==> IsFirstExit(maze, r.value)
    {
      var cols := |maze[0]|;
      for y := 0 to |maze|
        invariant forall c | InBounds(c, cols, y) :: maze[c.1][c.0] != Exit
      {
        for x := 0 to cols
          invariant forall c | InBounds(c, cols, y) :: maze[c.1][c.0] != Exit
          invariant forall x' | 0 <= x' < x :: maze[y][x'] != Exit
        {
          if maze[y][x] == Exit {
            return Some((x, y));
          }
        }
      }
      return None;
    }

    /** `find_path_to_exit`: A* from the player's cell to the first exit. The path is
        replaced only when the search reaches the exit: by the walk to it, or by [] when
        the player already stands on it. No walk to the exit is shorter than the path. */
    method FindPathToExit()
      requires Valid()
      modifies this`path
      ensures NoExit(maze) ==> path == old(path)
      ensures forall e | IsFirstExit(maze, e) ::
        var s := StatusCell(player.pos, cellSize);
        (s == e ==> path == [])
        && (s != e && !Reaches(maze, s, e) ==> path == old(path))
        && (s != e && Reaches(maze, s, e) ==>
              IsWalk(maze, s, path) && Distinct(path) && s !in path && path != [] && path[|path| - 1] == e
              && NoShorter(maze, s, e, |path|))
    {
      var start := StatusCell(player.pos, cellSize);
      var exitPos := FindExitPosition();
      if exitPos.None? {
        return;
      }
      var e := exitPos.value;
      var found, cameFrom;
      ghost var g;
      found, cameFrom, g := Search(start, e, maze);
      if found {
        path := ReconstructPath(cameFrom, e, g);
        ChainIsWalk(maze, start, cameFrom, g, e);
        ChainLength(cameFrom, g, e);
        if start != e {
          assert IsWalk(maze, start, path) && |path| > 0 && path[|path| - 1] == e;
        }
      }
      forall e' | IsFirstExit(maze, e') ensures e' == e {
        FirstExitUnique(maze, e, e');
      }
    }
  }
}
