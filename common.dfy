/**
 * Shared vocabulary of the activity-graph generator: pixel bytes, decoded
 * bitmaps, the intensity grid, the errors that stop a run and the abstract
 * side effects a run performs.
 */
module Common {

  /** One 8-bit channel value (red or alpha) as the image library returns it. */
  type Byte = v: int | 0 <= v < 256

  /** The two channels of an RGBA pixel the generator looks at. */
  datatype Pixel = Pixel(red: Byte, alpha: Byte)

  /**
   * A decoded bitmap: `width` columns and one entry of `rows` per pixel row,
   * so the pixel at (x, y) is `rows[y][x]` and the height is `|rows|`.
   */
  datatype Image = Image(width: nat, rows: seq<seq<Pixel>>) {
    ghost predicate Valid() {
      forall y :: 0 <= y < |rows| ==> |rows[y]| == width
    }
  }

  /** Why a run stops before it prints its final summary. */
  datatype Error =
    | ImageTooLarge            // image wider than 52 or taller than 7
    | TextTooWide              // composed text grid wider than 52 columns
    | CharsetExhausted         // a sentinel met after every character was bound
    | PathExists               // output is a plain directory and force is off
    | WorkingDirectoryMissing  // force removed the output, then it was entered
    | ProgressDivisionByZero   // progress ratio with an aggregate total of 0

  datatype Result<T> = Ok(value: T) | Err(error: Error)

  /**
   * Number of whole week columns in a column-major grid of 7-day columns;
   * cells past the last whole column are never read.
   */
  function GridWidth(grid: seq<Byte>): (w: nat)
    ensures w * 7 <= |grid| < w * 7 + 7
  {
    |grid| / 7
  }

  /** One planned empty commit: its cell, its day ordinal, and i of count. */
  datatype Commit = Commit(cell: nat, date: int, index: nat, count: nat)

  /** The steps a run takes on disk and in git, in the order it takes them. */
  datatype Action =
    | MakeDirs
    | RemoveTree
    | ChangeDir
    | GitInit
    | SetName(name: string)
    | SetEmail(email: string)
    | MakeCommit(commit: Commit)  // write activity.txt, stage it, commit with the date
}
