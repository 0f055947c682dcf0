/**
 * The terminal preview: seven text rows, one per weekday, with one
 * character per week column showing how lit each cell will be.
 */
module Preview {
  import opened Common

  /** The three visual levels: blank, partial and full. */
  function Shade(v: Byte): (c: char)
    ensures c == ' ' <==> v == 0
    ensures c == '░' <==> 0 < v < 255
    ensures c == '█' <==> v == 255
  {
    if v <= 0 then ' ' else if v < 255 then '░' else '█'
  }

  /**
   * `rows` picture the grid: one row per weekday, one character per whole
   * week column, each the shade of its cell.
   */
  ghost predicate Shows(rows: seq<string>, grid: seq<Byte>) {
    && |rows| == 7
    && (forall y :: 0 <= y < 7 ==> |rows[y]| == GridWidth(grid))
    && (forall x, y :: 0 <= x < GridWidth(grid) && 0 <= y < 7 ==> rows[y][x] == Shade(grid[x * 7 + y]))
  }

  /**
   * Builds the preview rows. Only whole columns are shown, so every index
   * read lies inside the grid.
   */
  method RenderPreview(grid: seq<Byte>) returns (rows: seq<string>)
    ensures Shows(rows, grid)
  {
    var width := |grid| / 7;
    rows := [];
    for y := 0 to 7
      invariant |rows| == y
      invariant forall j :: 0 <= j < y ==> |rows[j]| == width
      invariant forall x, j :: 0 <= x < width && 0 <= j < y ==> rows[j][x] == Shade(grid[x * 7 + j])
    {
      var row := "";
      for x := 0 to width
        invariant |row| == x
        invariant forall i :: 0 <= i < x ==> row[i] == Shade(grid[i * 7 + y])
      {
        var val := grid[x * 7 + y];
        if val <= 0 {
          row := row + " ";
        } else if val < 255 {
          row := row + "░";
        } else {
          row := row + "█";
        }
      }
      rows := rows + [row];
    }
  }
}
