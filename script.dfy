/**
 * The whole run, from the parsed command line to the last commit: build the
 * grid in image or text mode, check its width, show the preview, ask for
 * confirmation, prepare the output path and make the scheduled commits.
 *
 * What the run does on disk and in git is returned as a trace of actions;
 * the preview is returned as its rows.
 */
module Script {
  import opened Common
  import ImageExtract
  import Glyphs
  import Preview
  import Repository
  import Schedule

  datatype Mode = ImageMode(image: Image) | TextMode(glyphImage: Image, text: string)

  /**
   * The parsed command line. The year is given as `jan1`, the day ordinal of
   * its 1 January; the output path is only known through `Host`.
   */
  datatype Config = Config(
    gitName: string, gitEmail: string, jan1: int, strength: nat,
    force: bool, skipConfirm: bool, noPreview: bool, mode: Mode)
  {
    ghost predicate Valid() {
      match mode
      case ImageMode(img) => img.Valid()
      case TextMode(glyphImage, _) => glyphImage.Valid()
    }
  }

  /** What the run finds: the state of the output path and the user's answer. */
  datatype Host = Host(outputIsDir: bool, outputHasGitDir: bool, confirms: bool)

  datatype Outcome = Done(commits: nat) | Cancelled | Stopped(error: Error)

  /** The commit actions for a list of planned commits. */
  function CommitActions(cs: seq<Commit>): (acts: seq<Action>)
    ensures |acts| == |cs|
    ensures forall i :: 0 <= i < |cs| ==> acts[i] == MakeCommit(cs[i])
  {
    seq(|cs|, i requires 0 <= i < |cs| => MakeCommit(cs[i]))
  }

  /**
   * Preparing the path and then committing runs to the end and leaves a
   * repository; when the path held one already, nothing initializes it or
   * touches its identity.
   */
  lemma SetupThenCommits(isDir: bool, hasGitDir: bool, force: bool, name: string, email: string, cs: seq<Commit>)
    requires Repository.SetupPath(isDir, hasGitDir, force, name, email).Ready?
    ensures Repository.Perform(Repository.DirOf(isDir, hasGitDir),
                               Repository.SetupPath(isDir, hasGitDir, force, name, email).steps + CommitActions(cs))
              == Repository.Completed(Repository.GitRepo)
  {
    var steps := Repository.SetupPath(isDir, hasGitDir, force, name, email).steps;
    Repository.SetupLeavesRepository(isDir, hasGitDir, force, name, email);
    Repository.PerformAppend(Repository.DirOf(isDir, hasGitDir), steps, CommitActions(cs));
    Repository.CommitsSucceed(CommitActions(cs));
  }

  /** Errors found while building or checking the grid. */
  predicate GridError(o: Outcome) {
    o.Stopped? && (o.error == ImageTooLarge || o.error == TextTooWide || o.error == CharsetExhausted)
  }

  /** The plan for the whole grid: every cell of every whole column. */
  function GridPlan(grid: seq<Byte>, cfg: Config): seq<Commit> {
    Schedule.Plan(grid, GridWidth(grid) * 7, cfg.strength, Schedule.Anchor(cfg.jan1))
  }

  /**
   * `grid` draws what the mode asks for: the bitmap's alpha channel, column
   * by column and padded to 7 cells, or the text composed from the glyph
   * table bound in order to the reference segmentation of the columns the
   * glyph scan reaches before it stops.
   */
  ghost predicate Drawn(mode: Mode, grid: seq<Byte>) {
    match mode
    case ImageMode(img) =>
      && img.Valid()
      && |grid| == img.width * 7
      && forall x, y :: 0 <= x < img.width && 0 <= y < 7 ==> grid[x * 7 + y] == ImageExtract.AlphaOrPad(img, x, y)
    case TextMode(glyphImage, text) =>
      && glyphImage.Valid()
      && exists table, cols: nat ::
        && Glyphs.Reached(glyphImage, cols)
        && Glyphs.Binds(table, Glyphs.Split(Glyphs.Scanned(glyphImage, cols)).glyphs)
        && grid == Glyphs.Composed(table, text)
  }

  /** What a mode draws is a single grid. */
  lemma DrawnDetermines(mode: Mode, g1: seq<Byte>, g2: seq<Byte>)
    requires Drawn(mode, g1) && Drawn(mode, g2)
    ensures g1 == g2
  {
    match mode
    case ImageMode(img) =>
      forall k | 0 <= k < |g1|
        ensures g1[k] == g2[k]
      {
        var x, y := k / 7, k % 7;
        assert k == x * 7 + y && x < img.width;
        assert g1[x * 7 + y] == ImageExtract.AlphaOrPad(img, x, y) == g2[x * 7 + y];
      }
    case TextMode(glyphImage, text) =>
      var t1, c1: nat :| && Glyphs.Reached(glyphImage, c1)
                         && Glyphs.Binds(t1, Glyphs.Split(Glyphs.Scanned(glyphImage, c1)).glyphs)
                         && g1 == Glyphs.Composed(t1, text);
      var t2, c2: nat :| && Glyphs.Reached(glyphImage, c2)
                         && Glyphs.Binds(t2, Glyphs.Split(Glyphs.Scanned(glyphImage, c2)).glyphs)
                         && g2 == Glyphs.Composed(t2, text);
      Glyphs.ReachedUnique(glyphImage, c1, c2);
      Glyphs.BindsUnique(t1, t2, Glyphs.Split(Glyphs.Scanned(glyphImage, c1)).glyphs);
  }

  /** Some column of the glyph bitmap meets a sentinel past the character set. */
  ghost predicate GlyphsOverflow(mode: Mode)
    requires mode.TextMode? ==> mode.glyphImage.Valid()
  {
    mode.TextMode? && exists x :: 0 <= x < mode.glyphImage.width && Glyphs.Overflows(mode.glyphImage, x)
  }

  /**
   * The grid stage: image extraction, or glyph table, composition and the
   * width check in text mode. Nothing is shown or done on disk before it
   * succeeds.
   */
  method MakeGrid(mode: Mode) returns (grid: seq<Byte>, res: Result<seq<Byte>>)
    requires mode.ImageMode? ==> mode.image.Valid()
    requires mode.TextMode? ==> mode.glyphImage.Valid()
    ensures res.Ok? ==> res.value == grid && GridWidth(grid) <= 52
    ensures res.Err? ==> res.error == ImageTooLarge || res.error == TextTooWide || res.error == CharsetExhausted
    ensures res != Err(ImageTooLarge) && res != Err(CharsetExhausted) ==> Drawn(mode, grid)
    ensures res == Err(ImageTooLarge) <==>
              mode.ImageMode? && (mode.image.width > 52 || |mode.image.rows| > 7)
    ensures res == Err(CharsetExhausted) <==> GlyphsOverflow(mode)
    ensures res == Err(TextTooWide) <==> mode.TextMode? && !GlyphsOverflow(mode) && GridWidth(grid) > 52
  {
    match mode
    case ImageMode(img) =>
      res := ImageExtract.ExtractImage(img);
      grid := if res.Ok? then res.value else [];
    case TextMode(glyphImage, text) =>
      var table, cols := Glyphs.BuildGlyphs(glyphImage);
      if table.Err? {
        return [], Err(table.error);
      }
      assert Glyphs.Reached(glyphImage, cols);
      var skipped;
      grid, skipped := Glyphs.Compose(table.value, text);
      if |grid| / 7 > 52 {
        return grid, Err(TextTooWide);
      }
      res := Ok(grid);
  }

  /** The run goes past the prompt: it is skipped, or the answer is yes. */
  predicate Confirmed(cfg: Config, host: Host) {
    cfg.skipConfirm || host.confirms
  }

  /** The path decision for this command line and this output path. */
  function PathSetup(cfg: Config, host: Host): Repository.Setup {
    Repository.SetupPath(host.outputIsDir, host.outputHasGitDir, cfg.force, cfg.gitName, cfg.gitEmail)
  }

  /** The progress line divides by an aggregate total of 0 (it is reached once a column exists). */
  predicate ZeroTotal(cfg: Config, grid: seq<Byte>) {
    Schedule.TotalCommits(grid, cfg.strength) == 0 && GridWidth(grid) > 0
  }

  /**
   * Everything after the grid stage: the preview, the confirmation, the
   * output path and the commits.
   */
  method Deliver(cfg: Config, host: Host, grid: seq<Byte>) returns (preview: seq<string>, trace: seq<Action>, outcome: Outcome)
    ensures !GridError(outcome)
    ensures preview == [] <==> cfg.noPreview
    ensures preview != [] ==> Preview.Shows(preview, grid)
    // Declining the prompt cancels before any step on disk.
    ensures outcome == Cancelled <==> !Confirmed(cfg, host)
    ensures outcome == Cancelled ==> trace == []
    // A refused path stops the run after exactly the steps the decision takes.
    ensures Confirmed(cfg, host) && PathSetup(cfg, host).Stopped? ==>
              outcome == Stopped(PathSetup(cfg, host).error) && trace == PathSetup(cfg, host).steps
    ensures outcome == Stopped(PathExists) ==>
              trace == [] && host.outputIsDir && !host.outputHasGitDir && !cfg.force
    ensures outcome == Stopped(WorkingDirectoryMissing) ==>
              trace == [RemoveTree, ChangeDir] && host.outputIsDir && !host.outputHasGitDir && cfg.force
    // An existing repository is neither initialized again nor given a new identity.
    ensures host.outputIsDir && host.outputHasGitDir ==>
              forall a :: a in trace ==> !Repository.Initializes(a) && !a.MakeDirs? && !a.RemoveTree?
    // With the path ready, a zero aggregate total stops at the progress line, with no commit made;
    // otherwise the run finishes.
    ensures Confirmed(cfg, host) && PathSetup(cfg, host).Ready? ==>
              (outcome == Stopped(ProgressDivisionByZero) <==> ZeroTotal(cfg, grid)) &&
              (!ZeroTotal(cfg, grid) ==> outcome.Done?)
    ensures outcome == Stopped(ProgressDivisionByZero) ==>
              ZeroTotal(cfg, grid) && GridPlan(grid, cfg) == [] && trace == PathSetup(cfg, host).steps
    // A finished run makes exactly the planned commits, after preparing the path.
    ensures outcome.Done? ==> trace == PathSetup(cfg, host).steps + CommitActions(GridPlan(grid, cfg))
    ensures outcome.Done? ==>
              outcome.commits == |GridPlan(grid, cfg)| == Schedule.SumCounts(grid, GridWidth(grid) * 7, cfg.strength)
    ensures outcome.Done? ==>
              Repository.Perform(Repository.DirOf(host.outputIsDir, host.outputHasGitDir), trace)
                == Repository.Completed(Repository.GitRepo)
  {
    preview := [];
    if !cfg.noPreview {
      preview := Preview.RenderPreview(grid);
    }

    if !cfg.skipConfirm && !host.confirms {
      return preview, [], Cancelled;
    }

    var setup := Repository.SetupPath(host.outputIsDir, host.outputHasGitDir, cfg.force, cfg.gitName, cfg.gitEmail);
    trace := setup.steps;
    if setup.Stopped? {
      return preview, trace, Stopped(setup.error);
    }

    var commits, counter, total := Schedule.ScheduleCommits(grid, cfg.strength, cfg.jan1);
    trace := trace + CommitActions(commits);
    if total == 0 && |grid| / 7 > 0 {
      Schedule.SumCountsAtMostTotal(grid, GridWidth(grid) * 7, cfg.strength);
      assert commits == [];
      assert trace == setup.steps;
      return preview, trace, Stopped(ProgressDivisionByZero);
    }

    SetupThenCommits(host.outputIsDir, host.outputHasGitDir, cfg.force, cfg.gitName, cfg.gitEmail, commits);
    outcome := Done(counter);
  }

  method Run(cfg: Config, host: Host) returns (grid: seq<Byte>, preview: seq<string>, trace: seq<Action>, outcome: Outcome)
    requires cfg.Valid()
    // Grid errors stop the run before the preview and before any step on disk, each exactly in its case.
    ensures GridError(outcome) ==> preview == [] && trace == []
    ensures outcome == Stopped(ImageTooLarge) <==>
              cfg.mode.ImageMode? && (cfg.mode.image.width > 52 || |cfg.mode.image.rows| > 7)
    ensures outcome == Stopped(CharsetExhausted) <==> GlyphsOverflow(cfg.mode)
    ensures outcome == Stopped(TextTooWide) <==>
              cfg.mode.TextMode? && !GlyphsOverflow(cfg.mode) && GridWidth(grid) > 52
    ensures outcome != Stopped(ImageTooLarge) && outcome != Stopped(CharsetExhausted) ==> Drawn(cfg.mode, grid)
    ensures !GridError(outcome) ==> GridWidth(grid) <= 52
    // Past the grid stage: the preview, the prompt, the path and the commits.
    ensures !GridError(outcome) ==> (preview == [] <==> cfg.noPreview)
    ensures preview != [] ==> Preview.Shows(preview, grid)
    ensures !GridError(outcome) ==> (outcome == Cancelled <==> !Confirmed(cfg, host))
    ensures outcome == Cancelled ==> trace == []
    ensures !GridError(outcome) && Confirmed(cfg, host) && PathSetup(cfg, host).Stopped? ==>
              outcome == Stopped(PathSetup(cfg, host).error) && trace == PathSetup(cfg, host).steps
    ensures outcome == Stopped(PathExists) ==>
              trace == [] && host.outputIsDir && !host.outputHasGitDir && !cfg.force
    ensures outcome == Stopped(WorkingDirectoryMissing) ==>
              trace == [RemoveTree, ChangeDir] && host.outputIsDir && !host.outputHasGitDir && cfg.force
    ensures host.outputIsDir && host.outputHasGitDir ==>
              forall a :: a in trace ==> !Repository.Initializes(a) && !a.MakeDirs? && !a.RemoveTree?
    ensures !GridError(outcome) && Confirmed(cfg, host) && PathSetup(cfg, host).Ready? ==>
              (outcome == Stopped(ProgressDivisionByZero) <==> ZeroTotal(cfg, grid)) &&
              (!ZeroTotal(cfg, grid) ==> outcome.Done?)
    ensures outcome == Stopped(ProgressDivisionByZero) ==>
              ZeroTotal(cfg, grid) && GridPlan(grid, cfg) == [] && trace == PathSetup(cfg, host).steps
    ensures outcome.Done? ==> trace == PathSetup(cfg, host).steps + CommitActions(GridPlan(grid, cfg))
    ensures outcome.Done? ==>
              outcome.commits == |GridPlan(grid, cfg)| == Schedule.SumCounts(grid, GridWidth(grid) * 7, cfg.strength)
    ensures outcome.Done? ==>
              Repository.Perform(Repository.DirOf(host.outputIsDir, host.outputHasGitDir), trace)
                == Repository.Completed(Repository.GitRepo)
  {
    var built;
    grid, built := MakeGrid(cfg.mode);
    if built.Err? {
      return grid, [], [], Stopped(built.error);
    }
    preview, trace, outcome := Deliver(cfg, host, grid);
  }
}
