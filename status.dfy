/** The end-of-game rule shared by `_check_game_status` in src/model/game_model.py and
    the status block of `ScannerGame.update` in src/game.py: the cell under the player's
    centre is tested, when it lies inside the grid, first for a danger zone (game over)
    and only then for the exit (game won). Neither flag is ever cleared. */
module Status {

  /** `game_over` and `game_won`. */
  datatype Flags = Flags(over: bool, won: bool)

  /** What the centre cell is: inside the grid, a danger zone, the exit. */
  datatype Probe = Probe(inGrid: bool, danger: bool, exit: bool)

  /** One status check. */
  function Check(f: Flags, p: Probe): (r: Flags)
    // the flags only go from false to true
    ensures f.over ==> r.over
    ensures f.won ==> r.won
    // the game ends exactly on an in-grid danger zone
    ensures r.over <==> f.over || (p.inGrid && p.danger)
    // it is won on the in-grid exit, unless that cell is a danger zone that just ended it
    ensures r.won <==> f.won || (p.inGrid && p.exit && (f.over || !p.danger))
    // outside the grid nothing changes
    ensures !p.inGrid ==> r == f
  {
    if !p.inGrid then f
    else if p.danger && !f.over then Flags(true, f.won)
    else if p.exit && !f.won then Flags(f.over, true)
    else f
  }

  /** The checks of successive frames, in order. */
  function CheckAll(f: Flags, ps: seq<Probe>): Flags
    decreases |ps|
  {
    if ps == [] then f else CheckAll(Check(f, ps[0]), ps[1..])
  }

  /** Over any run of frames the flags are never cleared, the game is over only if some
      frame stood on an in-grid danger zone, and won only if some frame stood on the
      in-grid exit. */
  lemma {:induction false} CheckAllSpec(f: Flags, ps: seq<Probe>)
    ensures var r := CheckAll(f, ps);
      (f.over ==> r.over) && (f.won ==> r.won)
      && (r.over <==> f.over || exists i | 0 <= i < |ps| :: ps[i].inGrid && ps[i].danger)
      && (r.won ==> f.won || exists i | 0 <= i < |ps| :: ps[i].inGrid && ps[i].exit)
    decreases |ps|
  {
    if ps != [] {
      var g := Check(f, ps[0]);
      CheckAllSpec(g, ps[1..]);
      var r := CheckAll(f, ps);
      if exists i | 0 <= i < |ps[1..]| :: ps[1..][i].inGrid && ps[1..][i].danger {
        var i :| 0 <= i < |ps[1..]| && ps[1..][i].inGrid && ps[1..][i].danger;
        assert ps[i + 1] == ps[1..][i];
      }
      if exists i | 0 <= i < |ps| :: ps[i].inGrid && ps[i].danger {
        var i :| 0 <= i < |ps| && ps[i].inGrid && ps[i].danger;
        if i > 0 {
          assert ps[1..][i - 1] == ps[i];
        }
      }
      if r.won && !g.won {
        var i :| 0 <= i < |ps[1..]| && ps[1..][i].inGrid && ps[1..][i].exit;
        assert ps[i + 1] == ps[1..][i];
      }
    }
  }

  /** A danger zone comes first: stepping onto one while the game is on ends it and
      leaves `game_won` as it was, even when that cell is also the exit. */
  lemma DangerFirst(f: Flags, p: Probe)
    requires !f.over && p.inGrid && p.danger
    ensures Check(f, p) == Flags(true, f.won)
  {
  }
}
