/** The player of src/model/player.py and src/entities/player.py (the two classes share
    their movement and glow code): a position, a radius, two speeds and a glow level.
    A move is resolved in two stages: a centre-cell check per axis that takes back the
    step on that axis when it lands on a thin wall, then a check of the four corners of
    the bounding square that cancels the whole move when any corner lands on one. There
    is no further attempt to slide along a single axis. */
module Motion {
  import opened Builtins
  import opened Grid
  import opened Sensing

  type Pos = (real, real)

  /** Whether a point is stopped by the thin-wall mask: its cell, `int(x) // cell_size`
      on each axis, lies inside the mask (whose width is read from its first row) and
      holds 1. A cell outside the mask never stops anything. */
  predicate Blocks(thin: seq<seq<int>>, cs: int, p: Pos)
    requires Rect(thin) && cs != 0
  {
    var c := PixelCell(p, cs);
    InBounds(c, |thin[0]|, |thin|) && thin[c.1][c.0] == 1
  }

  /** The blocking test of the player is the scanners' `_is_wall` on the cell of the
      point, when the mask has the shape of the maze. */
  lemma BlocksIsWall(v: View, p: Pos)
    requires ViewOk(v)
    ensures Blocks(v.thinWalls, v.cellSize, p) <==> IsWall(v, PixelCell(p, v.cellSize))
  {
    assert |v.thinWalls[0]| == |v.maze[0]|;
  }

  /** The candidate after the centre checks: the x step is taken back when the cell of
      (new x, old y) is a thin wall, then the y step when the cell of (new x, new y) is
      one. A zero step leaves its coordinate alone and tests nothing. */
  function AxisStep(thin: seq<seq<int>>, cs: int, pos: Pos, dx: real, dy: real): Pos
    requires Rect(thin) && cs != 0
  {
    var x := if dx != 0.0 && !Blocks(thin, cs, (pos.0 + dx, pos.1)) then pos.0 + dx else pos.0;
    var y := if dy != 0.0 && !Blocks(thin, cs, (x, pos.1 + dy)) then pos.1 + dy else pos.1;
    (x, y)
  }

  /** Each axis either takes its whole step or none of it, and takes it exactly when the
      step is nonzero and its target cell (x first, then y from the new x) is clear. */
  lemma AxisStepSpec(thin: seq<seq<int>>, cs: int, pos: Pos, dx: real, dy: real)
    requires Rect(thin) && cs != 0
    ensures var q := AxisStep(thin, cs, pos, dx, dy);
      (dx == 0.0 ==> q.0 == pos.0)
      && (dx != 0.0 ==> (q.0 == pos.0 + dx <==> !Blocks(thin, cs, (pos.0 + dx, pos.1))))
      && (q.0 == pos.0 || q.0 == pos.0 + dx)
      && (dy == 0.0 ==> q.1 == pos.1)
      && (dy != 0.0 ==> (q.1 == pos.1 + dy <==> !Blocks(thin, cs, (q.0, pos.1 + dy))))
      && (q.1 == pos.1 || q.1 == pos.1 + dy)
  {
  }

  /** The corners of the bounding square, in the order the source lists them. */
  function Corners(p: Pos, r: real): seq<Pos> {
    [(p.0 - r, p.1 - r), (p.0 + r, p.1 + r), (p.0 - r, p.1 + r), (p.0 + r, p.1 - r)]
  }

  predicate CornersClear(thin: seq<seq<int>>, cs: int, p: Pos, r: real)
    requires Rect(thin) && cs != 0
  {
    forall k | 0 <= k < 4 :: !Blocks(thin, cs, Corners(p, r)[k])
  }

  /** `update_position`: the position after one move. */
  function ResolveMove(thin: seq<seq<int>>, cs: int, r: real, pos: Pos, dx: real, dy: real, ended: bool): Pos
    requires Rect(thin) && cs != 0
  {
    if ended then pos
    else
      var cand := AxisStep(thin, cs, pos, dx, dy);
      if CornersClear(thin, cs, cand, r) then cand else pos
  }

  /** Nothing moves once the game is over or won; otherwise the position becomes the
      axis-checked candidate if all four of its corners are clear, and stays where it
      was if any corner is blocked. */
  lemma ResolveMoveSpec(thin: seq<seq<int>>, cs: int, r: real, pos: Pos, dx: real, dy: real, ended: bool)
    requires Rect(thin) && cs != 0
    ensures var q := ResolveMove(thin, cs, r, pos, dx, dy, ended);
      var cand := AxisStep(thin, cs, pos, dx, dy);
      (ended ==> q == pos)
      && (q == pos || (q == cand && CornersClear(thin, cs, q, r)))
      && (!ended && CornersClear(thin, cs, cand, r) ==> q == cand)
      && (!ended && !CornersClear(thin, cs, cand, r) ==> q == pos)
  {
  }

  /** A player whose corners are clear keeps them clear: a move never carries any
      corner onto a thin wall. */
  lemma ClearStaysClear(thin: seq<seq<int>>, cs: int, r: real, pos: Pos, dx: real, dy: real, ended: bool)
    requires Rect(thin) && cs != 0 && CornersClear(thin, cs, pos, r)
    ensures CornersClear(thin, cs, ResolveMove(thin, cs, r, pos, dx, dy, ended), r)
  {
    ResolveMoveSpec(thin, cs, r, pos, dx, dy, ended);
  }

  /** No slide: at (15, 15) with radius 4 in cells of 10, a diagonal step towards the
      single thin wall at cell (2, 2) passes both centre checks, but the corner (20, 20)
      lands on the wall, so the player stays put, although the x step alone would have
      left every corner clear. */
  lemma NoSlide()
    ensures var thin := [[0, 0, 0], [0, 0, 0], [0, 0, 1]];
      AxisStep(thin, 10, (15.0, 15.0), 1.0, 1.0) == (16.0, 16.0)
      && ResolveMove(thin, 10, 4.0, (15.0, 15.0), 1.0, 1.0, false) == (15.0, 15.0)
      && CornersClear(thin, 10, (16.0, 15.0), 4.0)
  {
    var thin := [[0, 0, 0], [0, 0, 0], [0, 0, 1]];
    assert Rect(thin);
    assert PixelCell((20.0, 20.0), 10) == (2, 2);
    assert Blocks(thin, 10, Corners((16.0, 16.0), 4.0)[1]);
    assert PixelCell((12.0, 11.0), 10) == (1, 1);
    assert PixelCell((20.0, 19.0), 10) == (2, 1);
    assert PixelCell((12.0, 19.0), 10) == (1, 1);
    assert PixelCell((20.0, 11.0), 10) == (2, 1);
  }

  /** `update_glow`: `max(0, glow - dt * 5)`. */
  function GlowDecay(glow: real, dt: real): (g: real)
    ensures g >= 0.0 && g >= glow - dt * 5.0
    ensures g == 0.0 || g == glow - dt * 5.0
    ensures dt >= 0.0 && glow >= 0.0 ==> g <= glow
  {
    RMax(0.0, glow - dt * 5.0)
  }

  class Player {
    var pos: Pos
    var radius: real
    var speed: real
    var speedDiagonal: real
    var glow: real

    /** `Player.__init__`: the centre of a width × height screen, the radius and speed
        from the settings (10 and 3.5 when absent), the diagonal speed `speed * 0.7071`
        and no glow. */
    constructor (width: int, height: int, playerRadius: Option<real>, playerSpeed: Option<real>)
      ensures pos == ((width / 2) as real, (height / 2) as real)
      ensures radius == (if playerRadius.Some? then playerRadius.value else 10.0)
      ensures speed == (if playerSpeed.Some? then playerSpeed.value else 3.5)
      ensures speedDiagonal == speed * 0.7071 && glow == 0.0
    {
      pos := ((width / 2) as real, (height / 2) as real);
      radius := if playerRadius.Some? then playerRadius.value else 10.0;
      var v := if playerSpeed.Some? then playerSpeed.value else 3.5;
      speed := v;
      speedDiagonal := v * 0.7071;
      glow := 0.0;
    }

    /** `update_position(dx, dy, ...)`, step by step on a copy of the position. */
    method UpdatePosition(dx: real, dy: real, gameOver: bool, gameWon: bool, thin: seq<seq<int>>, cs: int)
      requires Rect(thin) && cs != 0
      modifies this`pos
      ensures pos == ResolveMove(thin, cs, radius, old(pos), dx, dy, gameOver || gameWon)
    {
      if gameOver || gameWon {
        return;
      }
      ghost var cand := AxisStep(thin, cs, pos, dx, dy);
      AxisStepSpec(thin, cs, pos, dx, dy);
      var newPos := pos;
      if dx != 0.0 {
        newPos := (newPos.0 + dx, newPos.1);
        var c := PixelCell((newPos.0, pos.1), cs);
        if 0 <= c.0 < |thin[0]| && 0 <= c.1 < |thin| {
          if thin[c.1][c.0] == 1 {
            newPos := (pos.0, newPos.1);
          }
        }
      }
      assert newPos == (cand.0, pos.1);
      if dy != 0.0 {
        newPos := (newPos.0, newPos.1 + dy);
        var c := PixelCell(newPos, cs);
        if 0 <= c.0 < |thin[0]| && 0 <= c.1 < |thin| {
          if thin[c.1][c.0] == 1 {
            newPos := (newPos.0, pos.1);
          }
        }
      }
      assert newPos == cand;
      var corners := Corners(newPos, radius);
      var canMove := true;
      var k := 0;
      while k < 4
        invariant 0 <= k <= 4
        invariant canMove && forall j | 0 <= j < k :: !Blocks(thin, cs, corners[j])
      {
        var c := PixelCell(corners[k], cs);
        if 0 <= c.0 < |thin[0]| && 0 <= c.1 < |thin| {
          if thin[c.1][c.0] == 1 {
            canMove := false;
            break;
          }
        }
        k := k + 1;
      }
      if canMove {
        pos := newPos;
      }
    }

    /** `update_glow(dt)`. */
    method UpdateGlow(dt: real)
      modifies this`glow
      ensures glow == GlowDecay(old(glow), dt)
    {
      glow := RMax(0.0, glow - dt * 5.0);
    }
  }
}
