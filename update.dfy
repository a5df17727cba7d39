/**
 * What one run of the update script does, as a function of the disk before
 * it and of everything it learns from outside: the working directory, the
 * two repository paths, the lines typed at the console, what git prints,
 * and the fixture tree of the language repository.
 */
module Update {
  import opened Optional
  import opened PyStr
  import opened Corpus
  import opened Prompt

  const CorpusDirName := "corpus"
  const CommitFileName := "COMMIT"
  const TestChangesName := "TEST_CHANGES"
  const TestChangesNameOnlyName := "TEST_CHANGES_NAME_ONLY"

  /** `os.path.join(dir, name)` for one component. */
  function PathJoin(dir: string, name: string): (p: string)
    ensures name != [] ==> p != [] && p[|p| - 1] == name[|name| - 1]
  {
    if name != [] && name[0] == '/' then name
    else if dir == [] || dir[|dir| - 1] == '/' then dir + name
    else dir + "/" + name
  }

  /**
   * The joined path ends with `name`; an absolute `name` discards `dir`;
   * otherwise the path is `dir`, then one separator when `dir` is non-empty
   * and does not already end with one, then `name`.
   */
  lemma PathJoinSpec(dir: string, name: string)
    ensures EndsWith(PathJoin(dir, name), name)
    ensures name != [] && name[0] == '/' ==> PathJoin(dir, name) == name
    ensures name == [] || name[0] != '/' ==>
      && StartsWith(PathJoin(dir, name), dir)
      && (PathJoin(dir, name) == dir + name <==> dir == [] || dir[|dir| - 1] == '/')
      && (PathJoin(dir, name) != dir + name ==> PathJoin(dir, name) == dir + "/" + name)
  {
  }

  /** `parser_repo/corpus/official`. */
  function CorpusPath(parserRepo: string): string {
    PathJoin(PathJoin(parserRepo, CorpusDirName), OfficialDirName)
  }

  /** `typst_repo/tests/typ`. */
  function TestsDir(typstRepo: string): string {
    PathJoin(PathJoin(typstRepo, "tests"), "typ")
  }

  /** Where the last converted revision is recorded. */
  function CommitPath(corpus: string): string {
    PathJoin(corpus, CommitFileName)
  }

  /**
   * What the four git commands print on standard output, as the process
   * produced it (the revision check strips it, as `run_shell_command` does),
   * `None` for a command that exits with an error.
   */
  datatype Git = Git(pull: Option<string>, revParse: Option<string>, diff: Option<string>, diffNameOnly: Option<string>)

  /** How the revision check ends: go on converting, or stop the script. */
  datatype Check =
    | Proceed(head: string)
    | Current
    | Changed
    | CommandFailed(command: string)

  datatype CheckRun = CheckRun(check: Check, disk: Disk)

  /**
   * The revision check. Without a recorded revision it hands back the
   * current head; with one, it stops either because nothing changed or after
   * saving the two diffs into the working directory.
   */
  function CheckUpdate(disk: Disk, cwd: string, git: Git, recorded: Option<string>): (r: CheckRun)
    ensures r.check.Proceed? <==> git.pull.Some? && git.revParse.Some? && recorded.None?
    ensures r.check.Proceed? ==> r.check.head == Strip(git.revParse.value)
    ensures r.check.Current? <==> git.pull.Some? && git.revParse.Some? && recorded == Some(Strip(git.revParse.value))
    ensures !r.check.Changed? ==> r.disk == disk
    ensures r.check.Changed? <==>
              && git.pull.Some? && git.revParse.Some? && git.diff.Some? && git.diffNameOnly.Some?
              && recorded.Some? && recorded != Some(Strip(git.revParse.value))
    ensures r.check.Changed? ==>
              && git.diff.Some? && git.diffNameOnly.Some?
              && r.disk.dirs == disk.dirs
              && r.disk.files == disk.files[PathJoin(cwd, TestChangesName) := Strip(git.diff.value)]
                                           [PathJoin(cwd, TestChangesNameOnlyName) := Strip(git.diffNameOnly.value)]
  {
    if git.pull.None? then CheckRun(CommandFailed("git pull"), disk)
    else if git.revParse.None? then CheckRun(CommandFailed("git rev-parse HEAD"), disk)
    else
      var head := Strip(git.revParse.value);
      match recorded
      case None => CheckRun(Proceed(head), disk)
      case Some(commit) =>
        if head == commit then CheckRun(Current, disk)
        else if git.diff.None? then CheckRun(CommandFailed("git diff"), disk)
        else if git.diffNameOnly.None? then CheckRun(CommandFailed("git diff --name-only"), disk)
        else
          var files := disk.files[PathJoin(cwd, TestChangesName) := Strip(git.diff.value)]
                                 [PathJoin(cwd, TestChangesNameOnlyName) := Strip(git.diffNameOnly.value)];
          CheckRun(Changed, Disk(files, disk.dirs))
  }

  /** `p` lies strictly below the directory `root`. */
  predicate Under(p: string, root: string) {
    StartsWith(p, root + "/")
  }

  /** `shutil.rmtree(root)`: the directory and everything below it disappear. */
  function RemoveTree(disk: Disk, root: string): Disk {
    Disk(map k | k in disk.files && !Under(k, root) :: disk.files[k],
         set d | d in disk.dirs && d != root && !Under(d, root))
  }

  /** The corpus directory removed with everything below it, then made again, empty. */
  function Reinitialized(disk: Disk, corpus: string): Disk {
    var cleared := RemoveTree(disk, corpus);
    Disk(cleared.files, cleared.dirs + {corpus})
  }

  /** Everything a run learns from outside the disk. */
  datatype Env = Env(cwd: string, typstRepo: string, parserRepo: string, lines: seq<string>, git: Git, fixtures: seq<Fixture>)

  /** How a run ends. */
  datatype Outcome =
    | NotADirectory(path: string)
    | InputClosed
    | Declined
    | CorpusNotADirectory
    | Stopped(check: Check)
    | WalkAborted(path: string)
    | CommitPathUnbound
    | Completed

  /** The process exit status: a message passed to `sys.exit` and an uncaught exception both give 1. */
  function ExitStatus(o: Outcome): int {
    match o
    case Declined => 0
    case Stopped(Changed) => 0
    case Completed => 0
    case _ => 1
  }

  datatype Run = Run(outcome: Outcome, disk: Disk)

  /**
   * The part of a run after the corpus directory is settled: check the
   * revision, convert every fixture, record the revision. `commitPath` is
   * `None` when the script never bound the name of the revision file.
   */
  function Finish(disk: Disk, env: Env, corpus: string, commitPath: Option<string>, recorded: Option<string>): Run {
    var c := CheckUpdate(disk, env.cwd, env.git, recorded);
    if !c.check.Proceed? then Run(Stopped(c.check), c.disk)
    else
      var w := Walk(c.disk, TestsDir(env.typstRepo), corpus, env.fixtures);
      if w.result.Unreadable? then Run(WalkAborted(w.result.path), w.disk)
      else match commitPath
        case None => Run(CommitPathUnbound, w.disk)
        case Some(p) => Run(Completed, Disk(w.disk.files[p := c.check.head], w.disk.dirs))
  }

  /** One run of the script. */
  function Sync(disk: Disk, env: Env): Run {
    if env.typstRepo !in disk.dirs then Run(NotADirectory(env.typstRepo), disk)
    else if env.parserRepo !in disk.dirs then Run(NotADirectory(env.parserRepo), disk)
    else
      var corpus := CorpusPath(env.parserRepo);
      if corpus !in disk.dirs && corpus !in disk.files then
        match Answer(env.lines)
        case None => Run(InputClosed, disk)
        case Some(false) => Run(Declined, disk)
        case Some(true) => Finish(Disk(disk.files, disk.dirs + {corpus}), env, corpus, None, None)
      else if corpus !in disk.dirs then Run(CorpusNotADirectory, disk)
      else
        var commitPath := CommitPath(corpus);
        if commitPath in disk.files then
          Finish(disk, env, corpus, Some(commitPath), Some(Strip(disk.files[commitPath])))
        else match Answer(env.lines)
          case None => Run(InputClosed, disk)
          case Some(false) => Run(Declined, disk)
          case Some(true) =>
            Finish(Reinitialized(disk, corpus), env, corpus, Some(commitPath), None)
  }

  /**
   * The corpus path ends with the name of the official directory, so never
   * with a separator, and files in it are named `corpus + "/" + name`.
   */
  lemma CorpusPathShape(parserRepo: string)
    ensures var corpus := CorpusPath(parserRepo);
            EndsWith(corpus, OfficialDirName) && CommitPath(corpus) == corpus + "/" + CommitFileName
  {
  }

  /** The revision file is neither an entry nor one of the two diff files. */
  lemma CommitPathIsSpecial(cwd: string, parserRepo: string)
    ensures var corpus := CorpusPath(parserRepo);
            && Under(CommitPath(corpus), corpus)
            && !IsEntryKey(corpus, CommitPath(corpus))
            && CommitPath(corpus) != PathJoin(cwd, TestChangesName)
            && CommitPath(corpus) != PathJoin(cwd, TestChangesNameOnlyName)
  {
    var corpus := CorpusPath(parserRepo);
    CorpusPathShape(parserRepo);
    var p := CommitPath(corpus);
    assert p[..|corpus| + 1] == corpus + "/";
    assert p[|p| - 1] == 'T';
  }

  /** The script can never take its "no" branch: every run goes on or stops for another reason. */
  lemma SyncNeverDeclines(disk: Disk, env: Env)
    ensures Sync(disk, env).outcome != Declined
  {
    AnswerNeverFalse(env.lines);
  }

  /**
   * A run that finds no corpus directory creates it, converts every fixture
   * and then fails on the revision file's unbound name: it never records a
   * revision and always exits with status 1, leaving the entries on disk.
   */
  lemma FreshCorpusNeverCompletes(disk: Disk, env: Env)
    requires env.typstRepo in disk.dirs && env.parserRepo in disk.dirs
    requires CorpusPath(env.parserRepo) !in disk.dirs && CorpusPath(env.parserRepo) !in disk.files
    ensures Sync(disk, env).outcome != Completed
    ensures ExitStatus(Sync(disk, env).outcome) == 1
    ensures var r := Sync(disk, env);
            var corpus := CorpusPath(env.parserRepo);
            r.outcome == CommitPathUnbound ==>
              && AllReadable(env.fixtures)
              && corpus in r.disk.dirs
              && forall k :: k in AllEntries(corpus, env.fixtures) ==>
                   k in r.disk.files && r.disk.files[k] == AllEntries(corpus, env.fixtures)[k]
  {
    AnswerNeverFalse(env.lines);
    var corpus := CorpusPath(env.parserRepo);
    if Answer(env.lines) == Some(true) {
      var made := Disk(disk.files, disk.dirs + {corpus});
      var c := CheckUpdate(made, env.cwd, env.git, None);
      if c.check.Proceed? {
        var testsDir := TestsDir(env.typstRepo);
        WalkAbortsOnUnreadable(made, testsDir, corpus, env.fixtures);
        if AllReadable(env.fixtures) {
          WalkComplete(made, testsDir, corpus, env.fixtures);
        }
      }
    }
  }

  /**
   * A run that finds a recorded revision never converts anything: it stops,
   * as up to date exactly when the recorded revision is the current head,
   * and the only files it may write are the two diff files.
   */
  lemma RecordedRevisionStops(disk: Disk, env: Env)
    requires env.typstRepo in disk.dirs && env.parserRepo in disk.dirs
    requires CorpusPath(env.parserRepo) in disk.dirs
    requires CommitPath(CorpusPath(env.parserRepo)) in disk.files
    ensures Sync(disk, env).outcome.Stopped?
    ensures var recorded := Strip(disk.files[CommitPath(CorpusPath(env.parserRepo))]);
            Sync(disk, env).outcome == Stopped(Current) <==>
              env.git.pull.Some? && env.git.revParse.Some? && recorded == Strip(env.git.revParse.value)
    ensures Sync(disk, env).disk.dirs == disk.dirs
    ensures var after := Sync(disk, env).disk.files;
            forall k :: k != PathJoin(env.cwd, TestChangesName) && k != PathJoin(env.cwd, TestChangesNameOnlyName) ==>
              (k in after <==> k in disk.files) && (k in disk.files ==> after[k] == disk.files[k])
    ensures var r := Sync(disk, env);
            r.outcome == Stopped(Changed) ==>
              && env.git.diff.Some? && env.git.diffNameOnly.Some?
              && r.disk.files[PathJoin(env.cwd, TestChangesName)] == Strip(env.git.diff.value)
              && r.disk.files[PathJoin(env.cwd, TestChangesNameOnlyName)] == Strip(env.git.diffNameOnly.value)
  {
    var corpus := CorpusPath(env.parserRepo);
    var recorded := Some(Strip(disk.files[CommitPath(corpus)]));
    var c := CheckUpdate(disk, env.cwd, env.git, recorded);
    assert Sync(disk, env) == Run(Stopped(c.check), c.disk);
  }

  /**
   * Only a run that had to reinitialise the corpus, was told yes, and could
   * read every fixture completes; the disk it leaves is the reinitialised
   * corpus with every entry written and the current head recorded.
   */
  lemma CompletedOnlyAfterReinit(disk: Disk, env: Env)
    ensures var r := Sync(disk, env);
            var corpus := CorpusPath(env.parserRepo);
            r.outcome == Completed ==>
              && env.typstRepo in disk.dirs && env.parserRepo in disk.dirs
              && corpus in disk.dirs && CommitPath(corpus) !in disk.files
              && Answer(env.lines) == Some(true)
              && env.git.pull.Some? && env.git.revParse.Some?
              && AllReadable(env.fixtures)
              && var base := Reinitialized(disk, corpus);
                 r.disk == Disk((base.files + AllEntries(corpus, env.fixtures))[CommitPath(corpus) := Strip(env.git.revParse.value)],
                                base.dirs + AllOutputDirs(corpus, env.fixtures))
  {
    var corpus := CorpusPath(env.parserRepo);
    AnswerNeverFalse(env.lines);
    if Sync(disk, env).outcome == Completed {
      if corpus !in disk.dirs && corpus !in disk.files {
        FreshCorpusNeverCompletes(disk, env);
      } else if CommitPath(corpus) in disk.files {
        RecordedRevisionStops(disk, env);
      } else {
        var base := Reinitialized(disk, corpus);
        var testsDir := TestsDir(env.typstRepo);
        WalkAbortsOnUnreadable(base, testsDir, corpus, env.fixtures);
        WalkComplete(base, testsDir, corpus, env.fixtures);
      }
    }
  }

  /** A completed run records the head that git reported, stripped. */
  lemma CompletionRecordsHead(disk: Disk, env: Env)
    ensures var r := Sync(disk, env);
            r.outcome == Completed ==>
              && env.git.revParse.Some?
              && CommitPath(CorpusPath(env.parserRepo)) in r.disk.files
              && r.disk.files[CommitPath(CorpusPath(env.parserRepo))] == Strip(env.git.revParse.value)
  {
    CompletedOnlyAfterReinit(disk, env);
  }

  /**
   * After a completed run the corpus directory holds exactly the revision
   * file and the entries of the fixtures, so stale entries are gone, while
   * every file outside the corpus directory is as it was.
   */
  lemma CompletedCorpusIsExactlyTheEntries(disk: Disk, env: Env)
    ensures var r := Sync(disk, env);
            var corpus := CorpusPath(env.parserRepo);
            var entries := AllEntries(corpus, env.fixtures);
            r.outcome == Completed ==>
              && (forall k :: Under(k, corpus) ==> (k in r.disk.files <==> k == CommitPath(corpus) || k in entries))
              && (forall k :: k in entries ==> k in r.disk.files && r.disk.files[k] == entries[k])
              && (forall k :: !Under(k, corpus) ==>
                    (k in r.disk.files <==> k in disk.files) &&
                    (k in disk.files ==> k in r.disk.files && r.disk.files[k] == disk.files[k]))
  {
    var r := Sync(disk, env);
    var corpus := CorpusPath(env.parserRepo);
    var entries := AllEntries(corpus, env.fixtures);
    CompletedOnlyAfterReinit(disk, env);
    if r.outcome == Completed {
      CommitPathIsSpecial(env.cwd, env.parserRepo);
      forall k | k in entries
        ensures IsEntryKey(corpus, k)
      {
        EntriesOnlyForFixtures(corpus, env.fixtures, k);
        var j, i: nat :| 0 <= j < |env.fixtures| && IsFixtureFile(env.fixtures[j]) && k == EntryPath(OutputDir(corpus, env.fixtures[j]), i);
        EntryKeyShape(corpus, env.fixtures[j], i);
      }
    }
  }

  /** Short of completing, the rest of a run writes only entries and the two diff files. */
  lemma FinishKeepsOtherFiles(disk: Disk, env: Env, corpus: string, commitPath: Option<string>, recorded: Option<string>, p: string)
    requires !IsEntryKey(corpus, p)
    requires p != PathJoin(env.cwd, TestChangesName) && p != PathJoin(env.cwd, TestChangesNameOnlyName)
    ensures var r := Finish(disk, env, corpus, commitPath, recorded);
            r.outcome != Completed ==>
              (p in r.disk.files <==> p in disk.files) &&
              (p in disk.files ==> p in r.disk.files && r.disk.files[p] == disk.files[p])
  {
    var c := CheckUpdate(disk, env.cwd, env.git, recorded);
    if c.check.Proceed? {
      WalkKeepsOtherFiles(c.disk, TestsDir(env.typstRepo), corpus, env.fixtures);
    }
  }

  /** A run that does not complete leaves the revision file as it found it. */
  lemma RevisionFileOnlyWrittenOnCompletion(disk: Disk, env: Env)
    ensures var r := Sync(disk, env);
            var p := CommitPath(CorpusPath(env.parserRepo));
            r.outcome != Completed ==>
              (p in r.disk.files <==> p in disk.files) &&
              (p in disk.files ==> p in r.disk.files && r.disk.files[p] == disk.files[p])
  {
    var corpus := CorpusPath(env.parserRepo);
    var p := CommitPath(corpus);
    CommitPathIsSpecial(env.cwd, env.parserRepo);
    AnswerNeverFalse(env.lines);
    if env.typstRepo in disk.dirs && env.parserRepo in disk.dirs {
      if corpus !in disk.dirs && corpus !in disk.files {
        FinishKeepsOtherFiles(Disk(disk.files, disk.dirs + {corpus}), env, corpus, None, None, p);
      } else if corpus in disk.dirs && p in disk.files {
        FinishKeepsOtherFiles(disk, env, corpus, Some(p), Some(Strip(disk.files[p])), p);
      } else if corpus in disk.dirs {
        var base := Reinitialized(disk, corpus);
        assert p !in base.files;
        FinishKeepsOtherFiles(base, env, corpus, Some(p), None, p);
      }
    }
  }
}
