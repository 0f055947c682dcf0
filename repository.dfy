/**
 * Preparing the output path. Whether the run creates a repository, reuses
 * one, stops, or removes the directory depends only on whether the output
 * is a directory, whether it holds a `.git` directory, and the force flag.
 *
 * The filesystem and git are not modelled beyond the state of the output
 * path itself; `Perform` gives each action its effect on that state and
 * says when the action raises.
 */
module Repository {
  import opened Common

  /** The state of the output path. */
  datatype Dir = Absent | PlainDir | GitRepo

  function DirOf(isDir: bool, hasGitDir: bool): Dir {
    if !isDir then Absent else if hasGitDir then GitRepo else PlainDir
  }

  datatype Option<T> = None | Some(value: T)

  /** The outcome of running actions: all done, or the index that raised. */
  datatype Run = Completed(dir: Dir) | Raised(at: nat, dir: Dir)

  /**
   * The effect of one action on the output path; None when it raises.
   * Only `os.makedirs` works on a missing path, only `shutil.rmtree` makes
   * it missing, only `git init` creates a repository, and the identity and
   * commit steps need one and leave the path as it is.
   */
  function Step(d: Dir, a: Action): (r: Option<Dir>)
    ensures d == Absent ==> (r.Some? <==> a == MakeDirs)
    ensures r == Some(Absent) <==> d != Absent && a == RemoveTree
    ensures r == Some(GitRepo) ==> d == GitRepo || a == GitInit
    ensures a.SetName? || a.SetEmail? || a.MakeCommit? ==> (r.Some? <==> d == GitRepo) && (r.Some? ==> r.value == d)
    ensures a == ChangeDir && r.Some? ==> r.value == d
  {
    match a
    case MakeDirs => if d == Absent then Some(PlainDir) else None
    case RemoveTree => if d != Absent then Some(Absent) else None
    case ChangeDir => if d != Absent then Some(d) else None
    case GitInit => if d != Absent then Some(GitRepo) else None
    case SetName(_) => if d == GitRepo then Some(d) else None
    case SetEmail(_) => if d == GitRepo then Some(d) else None
    case MakeCommit(_) => if d == GitRepo then Some(d) else None
  }

  /** Runs the actions in order and stops at the first one that raises. */
  function Perform(d: Dir, acts: seq<Action>): (r: Run)
    ensures r.Raised? ==> r.at < |acts|
    decreases |acts|
  {
    if acts == [] then Completed(d)
    else match Step(d, acts[0])
      case None => Raised(0, d)
      case Some(d') =>
        match Perform(d', acts[1..])
        case Completed(e) => Completed(e)
        case Raised(k, e) => Raised(k + 1, e)
  }

  /**
   * A run that raises stops at its first failing action: the actions before
   * it complete and leave the state it reports, and that action cannot run
   * in that state.
   */
  lemma {:induction false} PerformRaises(d: Dir, acts: seq<Action>)
    requires Perform(d, acts).Raised?
    ensures Perform(d, acts[..Perform(d, acts).at]) == Completed(Perform(d, acts).dir)
    ensures Step(Perform(d, acts).dir, acts[Perform(d, acts).at]).None?
    decreases |acts|
  {
    if Step(d, acts[0]).Some? {
      var d' := Step(d, acts[0]).value;
      var k := Perform(d', acts[1..]).at;
      PerformRaises(d', acts[1..]);
      assert acts[..k + 1][0] == acts[0];
      assert acts[..k + 1][1..] == acts[1..][..k];
      assert acts[k + 1] == acts[1..][k];
    } else {
      assert acts[..0] == [];
    }
  }

  /** A run of later actions, with the index of a raising action counted from k earlier ones. */
  function After(k: nat, r: Run): Run {
    match r
    case Completed(_) => r
    case Raised(i, e) => Raised(i + k, e)
  }

  /** Running two action lists one after the other. */
  lemma {:induction false} PerformAppend(d: Dir, acts: seq<Action>, more: seq<Action>)
    requires Perform(d, acts).Completed?
    ensures Perform(d, acts + more) == After(|acts|, Perform(Perform(d, acts).dir, more))
    decreases |acts|
  {
    if acts != [] {
      assert (acts + more)[0] == acts[0];
      assert (acts + more)[1..] == acts[1..] + more;
      var d' := Step(d, acts[0]).value;
      assert Perform(d', acts[1..]).Completed?;
      PerformAppend(d', acts[1..], more);
    } else {
      assert acts + more == more;
    }
  }

  /** Commits into a repository all succeed and leave it a repository. */
  lemma {:induction false} CommitsSucceed(acts: seq<Action>)
    requires forall a :: a in acts ==> a.MakeCommit?
    ensures Perform(GitRepo, acts) == Completed(GitRepo)
  {
    if acts != [] {
      assert acts[0] in acts;
      CommitsSucceed(acts[1..]);
    }
  }

  /** The steps the path decision leads to, and why the run stops if it does. */
  datatype Setup = Ready(steps: seq<Action>) | Stopped(steps: seq<Action>, error: Error)

  /**
   * The path decision followed by entering the output directory and, when
   * a repository is to be created, `git init` and the author identity. With
   * force, a plain directory is removed but not made again before it is
   * entered.
   */
  function SetupPath(isDir: bool, hasGitDir: bool, force: bool, name: string, email: string): (s: Setup)
    ensures s.Stopped? <==> isDir && !hasGitDir
    ensures s.Ready? ==> ChangeDir in s.steps
    ensures MakeDirs in s.steps <==> !isDir
    ensures RemoveTree in s.steps <==> isDir && !hasGitDir && force
    ensures GitInit in s.steps <==> !isDir
    ensures SetName(name) in s.steps <==> !isDir
    ensures SetEmail(email) in s.steps <==> !isDir
    ensures forall a :: a in s.steps ==> (a.SetName? ==> a.name == name) && (a.SetEmail? ==> a.email == email)
  {
    if isDir && hasGitDir then
      Ready([ChangeDir])
    else if isDir && !force then
      Stopped([], PathExists)
    else if isDir then
      Stopped([RemoveTree, ChangeDir], WorkingDirectoryMissing)
    else
      Ready([MakeDirs, ChangeDir, GitInit, SetName(name), SetEmail(email)])
  }

  /** Actions that initialize a repository or change its author identity. */
  predicate Initializes(a: Action) {
    a.GitInit? || a.SetName? || a.SetEmail?
  }

  /** Actions that create or delete anything on disk. */
  predicate TouchesDisk(a: Action) {
    a.MakeDirs? || a.RemoveTree? || a.GitInit? || a.SetName? || a.SetEmail? || a.MakeCommit?
  }

  /**
   * Whenever setup is ready, its steps run without raising and leave a
   * repository at the output path.
   */
  lemma SetupLeavesRepository(isDir: bool, hasGitDir: bool, force: bool, name: string, email: string)
    requires SetupPath(isDir, hasGitDir, force, name, email).Ready?
    ensures Perform(DirOf(isDir, hasGitDir), SetupPath(isDir, hasGitDir, force, name, email).steps)
              == Completed(GitRepo)
  {
    var steps := SetupPath(isDir, hasGitDir, force, name, email).steps;
    if isDir {
      assert steps[1..] == [];
    } else {
      assert steps[1..][1..][1..][1..][1..] == [];
      assert Perform(GitRepo, steps[1..][1..][1..][1..]) == Completed(GitRepo);
      assert Perform(GitRepo, steps[1..][1..][1..]) == Completed(GitRepo);
      assert Perform(PlainDir, steps[1..][1..]) == Completed(GitRepo);
      assert Perform(PlainDir, steps[1..]) == Completed(GitRepo);
    }
  }

  /** An existing repository is reused: no init, no identity change, nothing removed. */
  lemma ReuseKeepsRepository(force: bool, name: string, email: string)
    ensures SetupPath(true, true, force, name, email).Ready?
    ensures forall a :: a in SetupPath(true, true, force, name, email).steps ==>
              !Initializes(a) && !TouchesDisk(a)
  {
  }

  /**
   * A plain directory without force stops the run with PathExists before
   * anything is done; with force, the directory is removed and entering it
   * then raises, leaving the output path absent.
   */
  lemma PlainDirectoryOutcomes(force: bool, name: string, email: string)
    ensures !force ==> SetupPath(true, false, force, name, email) == Stopped([], PathExists)
    ensures force ==> SetupPath(true, false, force, name, email).Stopped?
    ensures force ==> Perform(PlainDir, SetupPath(true, false, force, name, email).steps) == Raised(1, Absent)
  {
  }

  /** A missing path is created, entered, initialized, and given the author identity, in that order. */
  lemma MissingPathIsCreated(force: bool, name: string, email: string)
    ensures SetupPath(false, false, force, name, email).Ready?
    ensures SetupPath(false, false, force, name, email).steps
              == [MakeDirs, ChangeDir, GitInit, SetName(name), SetEmail(email)]
    ensures SetupPath(false, true, force, name, email) == SetupPath(false, false, force, name, email)
  {
  }
}
