# gitactgen in Dafny

A verified model of `gitactgen.py`, a script that draws an image or a line
of text on a public contribution-activity graph. It does this by making
empty, back-dated commits in a git repository.

With the image library, git, the terminal and the calendar taken out, the
script is a deterministic integer pipeline:

- **Image mode** (`image_extract.dfy`). The alpha channel of a bitmap of at
  most 52 x 7 pixels becomes a column-major intensity grid. Each column is
  padded to 7 cells with 0.
- **Text mode** (`glyphs.dfy`). A reference bitmap is scanned column by
  column, top to bottom, and cut into glyphs at sentinel pixels (red 255 and
  alpha 255). Glyphs are bound in order to the characters
  space, a-z, 0-9, `!`, `?`. The glyphs of the requested text are then
  concatenated; characters without a glyph are skipped with a warning.
- **Width check and preview** (`common.dfy`, `preview.dfy`). The grid width
  is `len(grid) // 7`. Text wider than 52 columns stops the run. The
  preview shows each cell as blank, `░` or `█`.
- **Output path** (`repository.dfy`). Three facts decide what happens: is
  the output a directory, does it hold `.git`, and is force set. The run
  reuses a repository, creates one, stops, or (with force) removes the
  directory. A small model of the output path's state gives each step its
  effect and says when a step raises.
- **Commit scheduler** (`schedule.dfy`). The anchor is the first Sunday on
  or after 1 January. Cell n gets `v * strength / 255` commits, dated
  anchor + n days. Commits are made cell by cell, with index i from 0.
- **The run** (`script.dfy`). `Script.Run` chains the stages. It returns
  the grid, the preview rows, the trace of steps on disk and in git, and
  the outcome.

Dates are proleptic Gregorian day ordinals, as Python's `date.toordinal()`
numbers them. The weekday of a day follows `date.weekday()` (Monday 0,
Sunday 6).

Four behaviours of the code shape the model:

- `--force` is documented as "overwrite existing files" (`gitactgen.py:10`).
  The code removes the output directory (line 107) and then enters it
  (line 111) without making it again. Entering a missing directory raises,
  so the run stops with `WorkingDirectoryMissing` and the directory is gone.
- The comment at line 53 says a glyph ends on a red pixel. The test at
  line 54 looks only at red and alpha, so opaque white or opaque yellow
  ends a glyph too.
- The glyph scan checks whether every character is bound only at column
  starts (line 48). A further sentinel in the same column indexes past the
  character set (line 56). The model stops such a run with
  `CharsetExhausted`.
- The progress line divides the running counter by
  `floor(sum(grid) / 255 * strength)` (lines 126, 140). This aggregate can
  differ from the number of commits made (`Schedule.RoundingDrift`). When
  it is 0 and the grid has a column, the first progress line divides by
  zero. No commit has been made at that point
  (`Schedule.SumCountsAtMostTotal`). The model stops such a run with
  `ProgressDivisionByZero`.

## Model

| member | source | states |
|---|---|---|
| `ImageExtract.ExtractImage` | gitactgen.py:26-39 | Fails with ImageTooLarge exactly when the width is above 52 or the height above 7. Otherwise the grid has width*7 cells and cell x*7+y is the alpha at (x, y) for y below the height, else 0. |
| `Common.GridWidth` | gitactgen.py:67 | The width is the number of whole 7-cell columns: w*7 <= len < w*7+7. |
| `Glyphs.CharsetDistinct` | gitactgen.py:42 | The character set has 39 entries, all different, so each binding adds a new key. |
| `Glyphs.SplitConcat` | gitactgen.py:51-60 | In the reference segmentation, the glyphs followed by the open buffer are exactly the per-pixel samples: the alpha, or 0 for a sentinel. |
| `Glyphs.SplitLength` | gitactgen.py:51-60 | Every scanned pixel adds exactly one value: total glyph length plus buffer length equals the number of pixels scanned. |
| `Glyphs.SplitShape` | gitactgen.py:53-58 | There is one glyph per sentinel, every glyph ends in 0, and the buffer is empty right after a sentinel. |
| `Glyphs.SplitExtends` | gitactgen.py:56-57 | A glyph once bound is never changed by later pixels, because the buffer is copied and then cleared. |
| `Glyphs.SentinelsBeforeMonotone` | gitactgen.py:47-58 | Scanning more columns never meets fewer sentinels. |
| `Glyphs.NoOverflowPastStop` | gitactgen.py:47-49 | Once the columns scanned hold every glyph, no later column can overflow the character set. |
| `Glyphs.OverflowInColumn` | gitactgen.py:54-56 | A sentinel met with every character bound lies in a column that overflows. |
| `Glyphs.ScanColumn` | gitactgen.py:51-60 | Scanning one column reports an overflow exactly when the column overflows. Otherwise the buffer, counter and table equal the reference segmentation of the columns scanned, with the counter equal to the sentinels met. |
| `Glyphs.BuildGlyphs` | gitactgen.py:43-60 | Fails with CharsetExhausted exactly when some reached column overflows. Otherwise it stops at the first column start with all 39 characters bound, or at the image's end. Its table maps exactly Charset[0..n) to the glyphs of the reference segmentation, in order, with n the sentinels consumed. |
| `Glyphs.BindsUnique` | gitactgen.py:56 | The glyph table is determined by the glyphs met, in order. |
| `Glyphs.ReachedUnique` | gitactgen.py:47-49 | There is only one column where the scan can stop: the end of the image, or the first column start with every character bound. |
| `Glyphs.Compose` | gitactgen.py:61-65 | The grid is the in-order concatenation of the glyphs of the text's mapped characters. The skipped list is the text's unmapped characters, in order. |
| `Glyphs.ComposedAppend` | gitactgen.py:61-65 | Composing a concatenated text is concatenating the compositions, for both the grid and the warnings. |
| `Glyphs.SkipUnmapped` | gitactgen.py:62-64 | A character without a glyph adds nothing to the grid and one warning, and composition goes on. |
| `Glyphs.UnmappedExactly` | gitactgen.py:62-63 | A character is warned about iff it occurs in the text and has no glyph. |
| `Glyphs.ComposedWidth` | gitactgen.py:65-67 | With glyphs of 7 values each, every mapped character adds 7 cells, one column, to the grid. |
| `Preview.Shade` | gitactgen.py:82-87 | Blank iff the value is 0, `░` iff it lies strictly between 0 and 255, `█` iff it is 255. |
| `Preview.RenderPreview` | gitactgen.py:78-88 | There are 7 rows of exactly width characters. Row y, position x shows the shade of cell x*7+y, which is always inside the grid. |
| `Repository.Step` | gitactgen.py:107-118 | Assumed effect of one step on the output path. Only making directories works on a missing path, only removal makes it missing, only `git init` creates a repository, and identity and commit steps need a repository and leave the path as it is. |
| `Repository.Perform` | gitactgen.py:107-138 | Runs steps in order. A raising run names a step of the list. |
| `Repository.PerformRaises` | gitactgen.py:107-138 | A raising run stops at its first failing step: the steps before it complete in the state it reports, and that step cannot run there. |
| `Repository.PerformAppend` | gitactgen.py:111-138 | Running two step lists in turn is running their concatenation. |
| `Repository.CommitsSucceed` | gitactgen.py:134-138 | Commits into a repository all succeed and leave a repository. |
| `Repository.SetupPath` | gitactgen.py:97-118 | The run stops at the path decision iff the output is a directory without `.git`. Going ahead always enters the output. Directories are made iff the output is not a directory, removed iff it is a plain directory and force is set, and `git init`, the author name and the author email steps run iff the output is not a directory, and they carry the name and email of the command line. |
| `Repository.SetupLeavesRepository` | gitactgen.py:97-118 | Whenever the path decision goes ahead, its steps run without raising and leave a repository at the output path. |
| `Repository.ReuseKeepsRepository` | gitactgen.py:98-101 | A directory with `.git` is reused: no init, no identity change, nothing made or removed. |
| `Repository.PlainDirectoryOutcomes` | gitactgen.py:102-111 | A plain directory without force stops with PathExists and no step. With force it is removed, and entering it then raises, leaving the path absent. |
| `Repository.MissingPathIsCreated` | gitactgen.py:108-118 | A missing path is made, entered, initialized with `git init`, and given the author name and then the email of the command line, whatever the `.git` test says. |
| `Schedule.AnchorOffset` | gitactgen.py:121-122 | The offset lies in [0, 6], lands on a Sunday, and no earlier day from 1 January is a Sunday. |
| `Schedule.CommitCount` | gitactgen.py:131 | The count is the floor of v*strength/255. It lies in [0, strength], is 0 for v = 0 and is strength for v = 255. |
| `Schedule.TotalCommits` | gitactgen.py:126 | The aggregate is the floor of sum(grid)*strength/255. |
| `Schedule.ScheduleCommits` | gitactgen.py:124-139 | The commits made are the plan for every cell of every whole column. The counter equals their number and the sum of per-cell counts. The total is the aggregate figure. |
| `Schedule.PlanLength` | gitactgen.py:125-139 | The number of planned commits is the sum of the per-cell counts. |
| `Schedule.PlanEntries` | gitactgen.py:129-138 | Every commit belongs to a scheduled cell and is dated anchor + cell. It is commit i < count of the cell, and count is the cell's commit count. |
| `Schedule.PlanOrdered` | gitactgen.py:127-138 | Commits are made in increasing (cell, index) order, so their dates never decrease. |
| `Schedule.CellWeekday` | gitactgen.py:127-132 | Cell (x, y) falls y days after a Sunday. |
| `Schedule.SumCountsAtMostPrefix` | gitactgen.py:126-139 | Rounding each cell separately gives at most the rounded sum of the same cells. |
| `Schedule.SumCountsAtMostTotal` | gitactgen.py:126-139 | The final counter never exceeds the aggregate total, in exact integer arithmetic. |
| `Schedule.RoundingDrift` | gitactgen.py:126-139 | The two figures can differ: two half-lit cells at strength 1 make 0 commits against a total of 1. |
| `Schedule.OpaqueCells` | gitactgen.py:131 | Fully opaque cells make exactly strength commits each. |
| `Script.MakeGrid` | gitactgen.py:25-73 | The grid stage fails only with ImageTooLarge, TextTooWide or CharsetExhausted, each iff its condition holds. Unless it stops with ImageTooLarge or CharsetExhausted, the grid draws the mode. In image mode that is the alpha channel, column by column and padded to 7 cells. In text mode it is the text composed from the table the glyph scan binds before it stops. A grid it accepts is at most 52 columns wide. |
| `Script.DrawnDetermines` | gitactgen.py:25-67 | An image, or a text with its glyph bitmap, draws exactly one grid. |
| `Script.SetupThenCommits` | gitactgen.py:111-138 | Preparing the path and then committing runs to the end and leaves a repository. |
| `Script.Deliver` | gitactgen.py:75-144 | The preview is shown iff it is not switched off, and it pictures the grid. The run cancels iff the prompt is not skipped and the answer is not yes, and then takes no step. Past the prompt, a refused path stops with the error of the decision, after exactly its steps. With the path ready, the run stops at the progress line iff the aggregate is 0 and a column exists, and then has made no commit. Otherwise it finishes. A finished run makes the setup steps and then exactly the planned commits, reports their number, and leaves a repository. An existing repository is never initialized or given a new identity. |
| `Script.Run` | gitactgen.py:25-144 | Grid errors come before any preview and any step on disk, each iff its condition holds. Otherwise the grid draws the image or the text. Past the grid stage, the preview is shown iff not switched off, and it pictures the grid. The run cancels iff the prompt is declined. A refused path stops after exactly the steps of the decision. With the path ready, a zero aggregate stops the run iff a column exists, with no commit made. Otherwise the run finishes: it makes the setup steps and then exactly the planned commits, reports their number, and leaves a repository. |

## Left out

- Argument parsing (`gitactgen.py:5-23`) is not modelled. The arguments are the `Script.Config` record, and the output path is known only through `Script.Host`.
- Image decoding and `getpixel` are not modelled. A bitmap is a given `Common.Image` of (red, alpha) pixels. Images that are not RGBA, where unpacking four channels fails, are a library concern.
- The calendar is not modelled: converting the year to the ordinal of its 1 January, and `strftime`. `Script.Config.jan1` is that ordinal. A commit's date is a day ordinal; its noon time of day is not modelled.
- Printing is not modelled: messages, the warning text, and the preview's header and footer lines. The header width uses a float `ceil`. Skipped characters are returned by `Glyphs.Compose`, but `Script.MakeGrid` drops them.
- The confirmation prompt (`gitactgen.py:91-95`) is `Script.Host.confirms`: whether the answer lowers to `y`.
- The progress bar (`gitactgen.py:140-142`) is float formatting and is left out. Its one effect on the run is the division by zero described above.
- The content written to `activity.txt` and the commit message are not modelled. A commit is the record (cell, date, index, count) they are built from.
- Filesystem effects are only the state of the output path (absent, plain directory, repository). An output path that exists but is not a directory is treated as absent; the source would fail in `os.makedirs` there.
- Git failures are not modelled. Every git step succeeds when the path state allows it, so a non-zero exit that stops the source mid-run is not captured. Author name, email and messages are passed to a shell without quoting; that is not modelled.
- Years outside 1..9999 are not modelled. `datetime.date` raises for them (`gitactgen.py:121`) after the repository was made and initialized (lines 109-118) when the output path was missing, which leaves an empty repository behind. `Script.Config.jan1` is any day ordinal.
- Dates past 31 December 9999 are not modelled. Day ordinals are unbounded here. In year 9999 the date arithmetic of the source (line 132) overflows at cell 363, after the commits of every earlier cell were made.
- `Schedule.CommitCount`: uses the exact integer floor of v*strength/255. The source computes `floor(val / 255 * strength)` in floating point, which can round below an integer product and give one commit fewer.
- `Schedule.TotalCommits`: the exact integer floor of sum*strength/255. The source computes `floor(sum(grid) / 255 * strength)` in floating point, which can round below an integer product while the per-cell counts stay exact. For example, grid `[255]*8 + [51] + [0]*5` at strength 15 gives a float aggregate of 122 against 123 commits. So `Schedule.SumCountsAtMostTotal` holds for this model, not for the source in every case. The zero-total condition of `ProgressDivisionByZero` is also stated on the exact value.
- `Script.Config`: strength is a natural number. The source accepts a negative strength; it then makes no commits and its counter goes down. That case is not modelled.
- `Glyphs.ComposedWidth`: holds only for glyphs of exactly 7 values. Neither the source nor the model checks glyph heights, so a misplaced sentinel can give a grid whose length is not a multiple of 7; its trailing cells are then never shown or scheduled.
