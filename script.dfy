/**
 * The update script as it runs: a workspace holds the files and directories
 * on disk, and each of the script's functions that changes them is a method
 * that does so step by step. `MakeDirs` and `ConvertTestBlock` state their
 * effect on the files and directories outright; the walk, the revision check,
 * `rmtree` and the whole run are proved to do what the matching function of
 * modules Corpus and Update says.
 */
module Script {
  import opened Optional
  import opened PyStr
  import opened Blocks
  import opened Corpus
  import opened Prompt
  import opened Update

  /** The disk: file contents by path, and the set of existing directories. */
  class Workspace {
    var files: map<string, string>
    var dirs: set<string>

    function Snapshot(): Disk
      reads this
    {
      Disk(files, dirs)
    }

    constructor (disk: Disk)
      ensures Snapshot() == disk
    {
      files := disk.files;
      dirs := disk.dirs;
    }

    /** `os.makedirs(path, exist_ok=True)`. */
    method MakeDirs(path: string)
      modifies this
      ensures files == old(files)
      ensures dirs == old(dirs) + {path}
    {
      dirs := dirs + {path};
    }

    /** `shutil.rmtree(root)`. */
    method RemoveTree(root: string)
      modifies this
      ensures Snapshot() == Update.RemoveTree(old(Snapshot()), root)
    {
      files := map k | k in files && !Under(k, root) :: files[k];
      dirs := set d | d in dirs && d != root && !Under(d, root);
    }

    /**
     * Writes one block as the entry numbered `i` in `outDir`: first the bare
     * block, then, over it, the block under its header and followed by the
     * closing separator. Only the second write survives.
     */
    method ConvertTestBlock(corpus: string, block: string, i: nat, outDir: string)
      requires StartsWith(outDir, corpus + "/")
      modifies this
      ensures files == old(files)[EntryPath(outDir, i) := RenderEntry(HeaderDir(outDir, corpus), i, block)]
      ensures dirs == old(dirs)
    {
      var path := EntryPath(outDir, i);
      var relative := HeaderDir(outDir, corpus);
      files := files[path := block];
      var header := Header(relative, i);
      files := files[path := header + block + EntryEnd];
    }

    /** Writes an entry for every substantive block of one fixture, numbered by its position. */
    method ConvertBlocks(corpus: string, outDir: string, blocks: seq<string>)
      requires StartsWith(outDir, corpus + "/")
      modifies this
      ensures files == old(files) + BlockEntries(outDir, HeaderDir(outDir, corpus), blocks, Substantive(blocks), |blocks|)
      ensures dirs == old(dirs)
    {
      var i := 0;
      while i < |blocks|
        invariant 0 <= i <= |blocks|
        invariant dirs == old(dirs)
        invariant files == old(files) + BlockEntries(outDir, HeaderDir(outDir, corpus), blocks, Substantive(blocks), i)
      {
        ghost var entries := BlockEntries(outDir, HeaderDir(outDir, corpus), blocks, Substantive(blocks), i);
        if !IsTestBlockEmpty(blocks[i]) {
          ConvertTestBlock(corpus, blocks[i], i, outDir);
          UnionUpdate(old(files), entries, EntryPath(outDir, i), RenderEntry(HeaderDir(outDir, corpus), i, blocks[i]));
        }
        i := i + 1;
      }
    }

    /**
     * Converts every fixture in the order the walk meets them; the first
     * fixture that cannot be read stops the walk with its path.
     */
    method ParseTypFilesAndConvert(testsDir: string, corpus: string, fixtures: seq<Fixture>) returns (result: WalkResult)
      modifies this
      ensures WalkRun(result, Snapshot()) == Walk(old(Snapshot()), testsDir, corpus, fixtures)
    {
      var j := 0;
      while j < |fixtures|
        invariant 0 <= j <= |fixtures|
        invariant Walk(old(Snapshot()), testsDir, corpus, fixtures) == Walk(Snapshot(), testsDir, corpus, fixtures[j..])
      {
        var f := fixtures[j];
        assert fixtures[j..][1..] == fixtures[j + 1..];
        if EndsWith(f.name, FixtureSuffix) {
          if f.content.None? {
            return Unreadable(FixturePath(testsDir, f));
          }
          var text := f.content.value;
          ghost var before := Snapshot();
          var blocks := SplitBlocks(text);
          var outDir := OutputDir(corpus, f);
          MakeDirs(outDir);
          ConvertBlocks(corpus, outDir, blocks);
          assert Snapshot() == ConvertFixture(before, corpus, f, text);
        }
        j := j + 1;
      }
      return Done;
    }

    /**
     * Checks the language repository for a new revision, saving the two
     * diffs into `cwd` when the recorded revision is behind.
     */
    method CheckTypstRepoUpdate(cwd: string, git: Git, recorded: Option<string>) returns (check: Check)
      modifies this
      ensures CheckRun(check, Snapshot()) == CheckUpdate(old(Snapshot()), cwd, git, recorded)
    {
      if git.pull.None? {
        return CommandFailed("git pull");
      }
      if git.revParse.None? {
        return CommandFailed("git rev-parse HEAD");
      }
      var head := Strip(git.revParse.value);
      if recorded.None? {
        return Proceed(head);
      }
      if head == recorded.value {
        return Current;
      }
      if git.diff.None? {
        return CommandFailed("git diff");
      }
      if git.diffNameOnly.None? {
        return CommandFailed("git diff --name-only");
      }
      files := files[PathJoin(cwd, TestChangesName) := Strip(git.diff.value)];
      files := files[PathJoin(cwd, TestChangesNameOnlyName) := Strip(git.diffNameOnly.value)];
      return Changed;
    }

    /** One run of the script over the two repositories named in `env`. */
    method UpdateOfficialTests(env: Env) returns (outcome: Outcome)
      modifies this
      ensures Run(outcome, Snapshot()) == Sync(old(Snapshot()), env)
    {
      if env.typstRepo !in dirs {
        return NotADirectory(env.typstRepo);
      }
      if env.parserRepo !in dirs {
        return NotADirectory(env.parserRepo);
      }
      AnswerNeverFalse(env.lines);
      var recorded: Option<string> := None;
      var commitPath: Option<string> := None;
      var corpus := CorpusPath(env.parserRepo);
      if corpus !in dirs && corpus !in files {
        var answer, _ := YnQuestion(env.lines);
        if answer.None? {
          return InputClosed;
        }
        if answer == Some(false) {
          // The prompt never answers no, so the script never exits here.
          assert false;
        }
        MakeDirs(corpus);
      } else if corpus !in dirs {
        return CorpusNotADirectory;
      } else {
        var path := CommitPath(corpus);
        commitPath := Some(path);
        if path in files {
          recorded := Some(Strip(files[path]));
        } else {
          var answer, _ := YnQuestion(env.lines);
          if answer.None? {
            return InputClosed;
          }
          if answer == Some(false) {
            assert false;
          }
          RemoveTree(corpus);
          MakeDirs(corpus);
        }
      }
      var check := CheckTypstRepoUpdate(env.cwd, env.git, recorded);
      if !check.Proceed? {
        return Stopped(check);
      }
      var walked := ParseTypFilesAndConvert(TestsDir(env.typstRepo), corpus, env.fixtures);
      if walked.Unreadable? {
        return WalkAborted(walked.path);
      }
      if commitPath.None? {
        return CommitPathUnbound;
      }
      files := files[commitPath.value := check.head];
      return Completed;
    }
  }
}
