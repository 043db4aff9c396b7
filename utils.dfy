/** The shared helpers of src/utils.py: the grid bounds test, colour normalisation and
    text centring. */
module Utils {
  import opened Grid

  /** `is_valid_cell`: the width is read from the first row, so the grid must have one. */
  function IsValidCell(x: int, y: int, maze: seq<seq<int>>): (b: bool)
    requires |maze| > 0
    ensures b <==> InBounds((x, y), |maze[0]|, |maze|)
  {
    0 <= x < |maze[0]| && 0 <= y < |maze|
  }

  /** `normalize_color`: a four-component colour is kept; any other colour keeps its first
      (at most three) components and gets `alpha` appended. Lists and tuples are both
      sequences here. */
  function NormalizeColor(color: seq<int>, alpha: int): (r: seq<int>)
    ensures |color| == 4 ==> r == color
    ensures |color| != 4 ==> |r| == (if |color| < 3 then |color| else 3) + 1 && r[|r| - 1] == alpha
    ensures |color| != 4 ==> r[..|r| - 1] == color[..|r| - 1]
    ensures |color| == 3 ==> r == color + [alpha]
  {
    if |color| == 4 then color
    else color[..if |color| < 3 then |color| else 3] + [alpha]
  }

  /** `center_text`: the top-left corner that centres a w × h surface on a W × H surface. */
  function CenterText(surfaceW: int, surfaceH: int, textW: int, textH: int): (r: (int, int))
    ensures -1 <= 2 * r.0 + textW - surfaceW <= 1
    ensures -1 <= 2 * r.1 + textH - surfaceH <= 1
    ensures surfaceW % 2 == 0 && textW % 2 == 0 ==> 2 * r.0 + textW == surfaceW
    ensures surfaceH % 2 == 0 && textH % 2 == 0 ==> 2 * r.1 + textH == surfaceH
  {
    (surfaceW / 2 - textW / 2, surfaceH / 2 - textH / 2)
  }
}
