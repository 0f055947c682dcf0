/**
 * Image mode: the alpha channel of a bitmap of at most 52 x 7 pixels becomes
 * a column-major intensity grid, each column padded to 7 cells with 0.
 */
module ImageExtract {
  import opened Common

  /** The intensity of cell (x, y): the pixel's alpha inside the image, 0 below it. */
  function AlphaOrPad(img: Image, x: nat, y: nat): Byte
    requires img.Valid() && x < img.width
  {
    if y < |img.rows| then img.rows[y][x].alpha else 0
  }

  /**
   * Rejects images wider than 52 or taller than 7; otherwise appends, column
   * by column and top to bottom, 7 values per column.
   */
  method ExtractImage(img: Image) returns (res: Result<seq<Byte>>)
    requires img.Valid()
    ensures res.Err? <==> img.width > 52 || |img.rows| > 7
    ensures res.Err? ==> res.error == ImageTooLarge
    ensures res.Ok? ==> |res.value| == img.width * 7 && GridWidth(res.value) == img.width
    ensures res.Ok? ==> forall x, y :: 0 <= x < img.width && 0 <= y < 7 ==>
              res.value[x * 7 + y] == AlphaOrPad(img, x, y)
  {
    if img.width > 52 || |img.rows| > 7 {
      return Err(ImageTooLarge);
    }
    var grid: seq<Byte> := [];
    var x := 0;
    while x < img.width
      invariant 0 <= x <= img.width
      invariant |grid| == x * 7
      invariant forall i, j :: 0 <= i < x && 0 <= j < 7 ==> grid[i * 7 + j] == AlphaOrPad(img, i, j)
    {
      var y := 0;
      while y < 7
        invariant 0 <= y <= 7
        invariant |grid| == x * 7 + y
        invariant forall i, j :: 0 <= i < x && 0 <= j < 7 ==> grid[i * 7 + j] == AlphaOrPad(img, i, j)
        invariant forall j :: 0 <= j < y ==> grid[x * 7 + j] == AlphaOrPad(img, x, j)
      {
        if y < |img.rows| {
          grid := grid + [img.rows[y][x].alpha];
        } else {
          grid := grid + [0];
        }
        y := y + 1;
      }
      x := x + 1;
    }
    return Ok(grid);
  }
}
