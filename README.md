# tree-sitter-typst official test sync, in Dafny

`scripts/update_official_tests.py` keeps the grammar's `corpus/official`
test corpus in step with the test fixtures of the Typst repository. This
project models what that script does and proves what it guarantees.

- It cuts every `.typ` fixture into blocks at each `---`.
- It drops blocks whose lines, once the block is stripped, all start with
  `//` once stripped. This covers blocks of whitespace only and blocks of
  comment lines only, but not comment lines with an empty line between them.
- It writes every other block as a corpus entry `test<i>.scm`. The entry goes
  in a directory that mirrors the fixture's place in the fixture tree, and
  `i` is the block's position in the fixture.
- It uses a `COMMIT` file in the corpus directory to decide whether there is
  anything to do.

## Modules

- `PyStr` (pystr.dfy) holds the Python string operations the script relies on:
  - `strip`, with Python's full `isspace` set;
  - `splitlines`, with all of Python's line breaks, `"\r\n"` counting as one;
  - `split` and `count` on a separator, leftmost and non-overlapping;
  - `join`, `startswith`, `endswith`, `rfind`, `str(int)`, `upper` and `lower`.
- `Blocks` (blocks.dfy) holds the block split and the vacuity test `is_test_block_empty`.
- `Corpus` (corpus.dfy) holds:
  - entry names and entry rendering;
  - `pathlib` stems and the mirrored output directory;
  - the walk over the fixtures, as a function from the disk before to the disk after.
- `Prompt` (prompt.dfy) holds `yn_question`, as a classifier of typed lines and a retry loop.
- `Update` (update.dfy) holds:
  - the revision check `check_typst_repo_update`;
  - one whole run of `main`, as a function of the disk and of everything the run
    learns from outside: the working directory, the two repository paths, the
    typed lines, what git prints, and the fixture tree.
- `Script` (script.dfy) holds class `Workspace`. It keeps the disk as a map
  from path to content plus a set of directories, and it has one method per
  operation of the script that changes the disk:
  - `MakeDirs` and `ConvertTestBlock` state their effect on the files and
    directories directly;
  - `RemoveTree`, `ParseTypFilesAndConvert`, `CheckTypstRepoUpdate` and
    `UpdateOfficialTests` are proved equal to the matching function of
    `Update` or `Corpus`;
  - `yn_question` changes nothing on disk, so it is the method
    `Prompt.YnQuestion` rather than a member of `Workspace`.

## Behaviour kept as the code has it

In four places the script does less than its own prompts, branches and
comments suggest. The model follows the code each time.

- **No answer is ever a no.**
  - The prompt offers `[y/n]` (line 112), and `main` has an `exit(0)` branch
    for a negative answer at both prompts (lines 133-135 and 145-149), so a
    "no" was meant to exist.
  - But `yn_question` compares `input.lower()` with `"N"` (line 116), which is
    never true, so it never returns `False`.
  - Typing `n` asks again, and only the end of input leaves the prompt.
  - Both `exit(0)` branches are dead: `Prompt.AnswerNeverFalse`,
    `Update.SyncNeverDeclines`.
- **Blank lines.**
  - The comment at line 66 says a block is empty when it holds only comments
    or nothing.
  - The code strips the block once (line 67) and then keeps every line that
    does not start with `//` (line 68).
  - An empty line between two comment lines is such a line, so that block is
    converted: `Blocks.BlankBetweenComments`. More generally, any block whose
    stripped text holds an empty line is converted: `Blocks.BlankLineInText`.
- **Up-to-date exit status.** When the recorded revision is the head, line 62
  calls `sys.exit` with a message. Python exits with status 1 in that case:
  `Update.ExitStatus`.
- **Fresh corpus directory.** When no corpus directory exists, `main` never
  binds `commit_file_path`.
  - The run makes the directory, checks the revision and converts every
    fixture.
  - It then fails with a `NameError` on the write of `COMMIT`.
  - The model has an explicit outcome for this, `CommitPathUnbound`.
  - Such a run never completes and always exits with status 1:
    `Update.FreshCorpusNeverCompletes`.
  - So only the path that removes and recreates a corpus without `COMMIT`
    ever records a revision.

## Model

| member | source | states |
|---|---|---|
| `Blocks.SplitBlocks` | scripts/update_official_tests.py:95 | the blocks of a fixture are its pieces between occurrences of `---`, as `str.split` cuts them; `Blocks.SplitBlocksSpec` states what they are |
| `Blocks.SplitBlocksSpec` | scripts/update_official_tests.py:94-95 | splitting on `---` gives one block more than there are separators, joining them with `---` gives the fixture back, and no block contains `---` |
| `Blocks.SplitBlocksSingle` | scripts/update_official_tests.py:95 | a fixture is a single block, the whole text, exactly when it contains no `---` |
| `Blocks.IsTestBlockEmpty` | scripts/update_official_tests.py:65-69 | a block is vacuous when every line of the stripped block, once stripped, starts with `//`; `Blocks.TestBlockEmptyIff` ties this to the comment filter |
| `Blocks.NonCommentLinesEmpty` | scripts/update_official_tests.py:68-69 | the comment filter keeps nothing exactly when every line, once stripped, starts with `//` |
| `Blocks.TestBlockEmptyIff` | scripts/update_official_tests.py:65-69 | a block is vacuous exactly when the comment filter keeps none of the lines of the stripped block |
| `Blocks.WhitespaceOnlyIsEmpty` | scripts/update_official_tests.py:65-69 | a block of whitespace only is vacuous |
| `Blocks.EmptyAgreesOnStrip` | scripts/update_official_tests.py:67 | a block and its strip are vacuous alike |
| `Blocks.BlankLineIsSubstantive` | scripts/update_official_tests.py:67-69 | a blank line among the lines of the stripped block makes the block substantive |
| `Blocks.BlankLineInText` | scripts/update_official_tests.py:65-69 | any block whose stripped text holds two `"\n"` in a row is substantive, whatever comment lines surround the empty line |
| `Blocks.BlankBetweenComments` | scripts/update_official_tests.py:65-69 | `"// a\n\n// b"` is substantive although it holds only comments and a blank line |
| `Corpus.EntryPath` | scripts/update_official_tests.py:74-75 | the entry for block `i` is `test<i>.scm` in the output directory; `Corpus.EntryPathInjective` states that no two blocks share it |
| `Corpus.HeaderDir` | scripts/update_official_tests.py:76 | the directory named in an entry's title is `official/` followed by the output directory relative to the corpus; `Corpus.OutputDirMirrors` states its value |
| `Corpus.Header` | scripts/update_official_tests.py:80 | the header is the rule, the title line `<dir> Test <i>`, the rule again and an empty line; `Corpus.EntryRoundTrip` states what it leaves of an entry |
| `Corpus.RenderEntry` | scripts/update_official_tests.py:82 | an entry is its header, the block and `\n---\n`; `Corpus.EntryRoundTrip` states that the block comes back out |
| `Corpus.EntryPathInjective` | scripts/update_official_tests.py:74-75 | two different block indices never share an entry path |
| `Corpus.EntryRoundTrip` | scripts/update_official_tests.py:80-82 | an entry starts with the rule and the title line `<dir> Test <i>`, and removing the header and the closing `\n---\n` gives the block back verbatim |
| `Corpus.Stem` | scripts/update_official_tests.py:96 | `pathlib`'s stem drops the last `.` suffix unless the dot starts the name; `Corpus.StemOfFixture` states it for `.typ` names |
| `Corpus.StemOfFixture` | scripts/update_official_tests.py:96 | the stem of a `.typ` name is the name without `.typ`, except for the bare name `.typ` |
| `Corpus.OutputDir` | scripts/update_official_tests.py:96 | the output directory of a fixture lies below the corpus directory |
| `Corpus.OutputDirMirrors` | scripts/update_official_tests.py:96 | a fixture in directories d1..dn named f is converted into `corpus/d1/.../dn/stem(f)`, and its headers name `official/d1/.../dn/stem(f)` |
| `Corpus.BlockEntriesNamed` | scripts/update_official_tests.py:99-103 | every entry written for a fixture is named after one of its block indices |
| `Corpus.BlockEntriesPresent` | scripts/update_official_tests.py:99-103 | block `i` has an entry exactly when it is kept |
| `Corpus.BlockEntriesContent` | scripts/update_official_tests.py:99-103 | a kept block's entry holds that block rendered under its own index |
| `Corpus.FixtureEntriesIndexed` | scripts/update_official_tests.py:99-103 | the entries of a fixture are exactly `test<i>.scm` for the substantive blocks `i` among all its blocks, so vacuous blocks leave gaps, and each holds its block verbatim under its header |
| `Corpus.FixtureEntriesAreEntryKeys` | scripts/update_official_tests.py:74-75 | every entry of a fixture is a `.scm` file below the corpus directory |
| `Corpus.Walk` | scripts/update_official_tests.py:85-103 | the walk converts the fixtures in order, skips files that are not `.typ` and aborts on the first unreadable one; the lemmas below state its effect |
| `Corpus.WalkComplete` | scripts/update_official_tests.py:85-103 | over readable fixtures the walk completes and adds the same entries and directories whatever was on disk before |
| `Corpus.WalkConcat` | scripts/update_official_tests.py:87-92 | walking two lists of fixtures one after the other is walking them joined, and an aborted first walk ends the whole walk |
| `Corpus.WalkIdempotent` | scripts/update_official_tests.py:85-103 | walking the same fixtures a second time, over readable and unreadable fixtures alike, leaves the disk and the result as the first walk left them |
| `Corpus.WalkAbortsOnUnreadable` | scripts/update_official_tests.py:89-92 | the walk aborts exactly when some `.typ` fixture cannot be read, and it reports the path of such a fixture |
| `Corpus.FirstUnreadable` | scripts/update_official_tests.py:89-92 | the position of an unreadable `.typ` fixture such that every fixture before it is readable |
| `Corpus.WalkStopsAtFirstUnreadable` | scripts/update_official_tests.py:87-92 | the walk aborts at the first unreadable fixture with its path, and has converted exactly the fixtures before it and none after it |
| `Corpus.WalkKeepsOtherFiles` | scripts/update_official_tests.py:85-103 | a walk, complete or aborted, writes only `.scm` files below the corpus directory and removes no directory |
| `Corpus.EntriesOnlyForFixtures` | scripts/update_official_tests.py:88-96 | every entry of a walk lies in the output directory of a fixture whose name ends in `.typ` |
| `Prompt.Classify` | scripts/update_official_tests.py:114-119 | a typed line reads as yes when it upper-cases to `Y`, as no when it lower-cases to `N`, and as a retry otherwise; `Prompt.ClassifyYesIff` and `Prompt.ClassifyNeverNo` state which lines are which |
| `Prompt.ClassifyNeverNo` | scripts/update_official_tests.py:116 | no typed line is read as a no |
| `Prompt.ClassifyYesIff` | scripts/update_official_tests.py:114 | exactly `y` and `Y` are read as a yes |
| `Prompt.Answer` | scripts/update_official_tests.py:108-120 | the answer is the reading of the first line that is not a retry, or none at the end of input; `Prompt.AnswerYesIff` and `Prompt.AnswerNeverFalse` state it in terms of the lines |
| `Prompt.AnswerNeverFalse` | scripts/update_official_tests.py:108-120 | the prompt ends with yes or with the end of input, never with no |
| `Prompt.AnswerYesIff` | scripts/update_official_tests.py:108-120 | the prompt answers yes exactly when some typed line is `y` or `Y` |
| `Prompt.YnQuestion` | scripts/update_official_tests.py:108-120 | the retry loop returns the answer of `Answer`, every line before the deciding one was a retry, and at the end of input every line was |
| `Update.PathJoin` | scripts/update_official_tests.py:130 | `os.path.join` of a directory and one name; the result ends as the name does, and `Update.PathJoinSpec` states the rest |
| `Update.PathJoinSpec` | scripts/update_official_tests.py:130 | the joined path ends with the name; an absolute name replaces the directory; otherwise the path starts with the directory, and a `/` comes between them exactly when the directory is non-empty and does not end with one |
| `Update.CorpusPath` | scripts/update_official_tests.py:130 | the corpus directory is `corpus/official` below the parser repository; `Update.CorpusPathShape` states its shape |
| `Update.CorpusPathShape` | scripts/update_official_tests.py:130 | the corpus path ends with `official`, and `COMMIT` lies directly inside it |
| `Update.CheckUpdate` | scripts/update_official_tests.py:24-62 | it goes on with the stripped head exactly when git works and no revision is recorded; it is current exactly when the recorded revision is the head; only a changed revision writes files, and then exactly the two diff files, with the stripped diffs |
| `Update.CommitPathIsSpecial` | scripts/update_official_tests.py:139 | the `COMMIT` file lies below the corpus directory, is no entry, and is neither of the diff files |
| `Update.RemoveTree` | scripts/update_official_tests.py:151 | removing a tree drops the directory and every file and directory below it; `Script.Workspace.RemoveTree` is proved against it |
| `Update.Reinitialized` | scripts/update_official_tests.py:151-152 | reinitialising leaves the corpus directory empty; `Update.CompletedCorpusIsExactlyTheEntries` states what a completed run then leaves |
| `Update.Finish` | scripts/update_official_tests.py:155-163 | after the corpus is settled, a run checks the revision, walks the fixtures and writes `COMMIT`; `Update.FinishKeepsOtherFiles` states what it leaves alone |
| `Update.Sync` | scripts/update_official_tests.py:123-163 | one run of `main` from start to finish; the lemmas below state its outcomes and effects |
| `Update.ExitStatus` | scripts/update_official_tests.py:60-62 | the exit status of each outcome: 0 for a changed revision, a completed run and a declined prompt, 1 for a message to `sys.exit`, an exception or end of input |
| `Update.SyncNeverDeclines` | scripts/update_official_tests.py:133-149 | no run takes a decline branch |
| `Update.FreshCorpusNeverCompletes` | scripts/update_official_tests.py:129-163 | without a corpus directory a run never records a revision and exits with status 1; when it fails on the unbound name, the directory exists and every entry has been written |
| `Update.RecordedRevisionStops` | scripts/update_official_tests.py:138-155 | with a recorded revision a run always stops before the walk, as up to date exactly when the recorded revision is the head, and writes nothing but the two diff files |
| `Update.CompletedOnlyAfterReinit` | scripts/update_official_tests.py:143-163 | a run completes only after finding the corpus directory without `COMMIT`, being told yes and reading every fixture; it then leaves the cleared corpus plus every entry plus `COMMIT` |
| `Update.CompletionRecordsHead` | scripts/update_official_tests.py:155-163 | a completed run writes the stripped head into `COMMIT` |
| `Update.CompletedCorpusIsExactlyTheEntries` | scripts/update_official_tests.py:151-163 | after a completed run the corpus holds exactly `COMMIT` and the entries of the fixtures, with their rendered content, and no file outside it changed |
| `Update.FinishKeepsOtherFiles` | scripts/update_official_tests.py:155-163 | short of completing, the revision check and the walk change no file other than entries and the two diff files |
| `Update.RevisionFileOnlyWrittenOnCompletion` | scripts/update_official_tests.py:123-165 | a run that does not complete leaves `COMMIT` as it found it, present or absent |
| `Script.Workspace.MakeDirs` | scripts/update_official_tests.py:97 | the directory is added and no file changes |
| `Script.Workspace.RemoveTree` | scripts/update_official_tests.py:151 | the directory and everything below it are removed |
| `Script.Workspace.ConvertTestBlock` | scripts/update_official_tests.py:72-83 | after both writes the entry holds the header, the block and `\n---\n`; nothing else changes |
| `Script.Workspace.ConvertBlocks` | scripts/update_official_tests.py:99-103 | the loop adds exactly the entries of the substantive blocks, under their original indices |
| `Script.Workspace.ParseTypFilesAndConvert` | scripts/update_official_tests.py:85-103 | the nested loops leave the disk and result that `Walk` gives |
| `Script.Workspace.CheckTypstRepoUpdate` | scripts/update_official_tests.py:24-62 | the method's outcome and writes are those of `CheckUpdate` |
| `Script.Workspace.UpdateOfficialTests` | scripts/update_official_tests.py:123-165 | the run's outcome and disk are those of `Sync` |
| `PyStr.Split` | scripts/update_official_tests.py:95 | `str.split` on a separator, leftmost and without overlap; `PyStr.SplitAtFirst` and `PyStr.SplitWithoutSeparator` together say what its pieces are |
| `PyStr.SplitAtFirst` | scripts/update_official_tests.py:95 | when the separator first occurs at `i`, the first piece is the text before `i` and the other pieces are the split of the text after that occurrence, so `"----"` splits on `---` into `""` and `"-"` |
| `PyStr.SplitFirstPieceClean` | scripts/update_official_tests.py:95 | no occurrence of the separator starts inside the first piece |
| `PyStr.SplitJoin` | scripts/update_official_tests.py:95 | joining the pieces of `split` with the separator gives the text back |
| `PyStr.SplitCount` | scripts/update_official_tests.py:95 | `split` makes one piece more than `count` finds separators |
| `PyStr.SplitWithoutSeparator` | scripts/update_official_tests.py:95 | `split` keeps the text whole exactly when the separator does not occur |
| `PyStr.SplitPiecesSeparatorFree` | scripts/update_official_tests.py:95 | no piece of `split` contains the separator |
| `PyStr.Strip` | scripts/update_official_tests.py:67-68 | `str.strip()` with the whitespace of `str.isspace`; `PyStr.StripEnds` states what it keeps |
| `PyStr.StripEnds` | scripts/update_official_tests.py:67-68 | the stripped string is the part of the string between a leading and a trailing run of whitespace, starts and ends with non-whitespace, and is empty exactly when the string was all whitespace |
| `PyStr.StripIdempotent` | scripts/update_official_tests.py:67-68 | stripping twice is stripping once |
| `PyStr.SplitLines` | scripts/update_official_tests.py:67 | `str.splitlines()` with all of Python's line breaks and `\r\n` as one; `PyStr.SplitLinesStep`, `PyStr.SplitLinesCons`, `PyStr.SplitLinesCrLf` and `PyStr.SplitLinesSingle` say what its lines are |
| `PyStr.SplitLinesBreakFree` | scripts/update_official_tests.py:67 | no line holds a line break, and only the empty string has no lines |
| `PyStr.SplitLinesSingle` | scripts/update_official_tests.py:67 | a string is its own only line exactly when it is non-empty and holds no line break |
| `PyStr.BreakAtFirst` | scripts/update_official_tests.py:67 | the first line ends at the first line-break character |
| `PyStr.SplitLinesStep` | scripts/update_official_tests.py:67 | the first line is the text before the first break, and the remaining lines are the lines of the text after that break, `"\r\n"` counting as one break |
| `PyStr.SplitLinesCons` | scripts/update_official_tests.py:67 | a break-free line followed by one break character, other than a `"\r"` that pairs with a following `"\n"`, is the first line, and the lines of the rest follow |
| `PyStr.SplitLinesCrLf` | scripts/update_official_tests.py:67 | a break-free line followed by `"\r\n"` is the first line, and the lines of the rest follow |
| `PyStr.SplitLinesBlankAt` | scripts/update_official_tests.py:67 | two `"\n"` in a row anywhere in the text give an empty line |
| `PyStr.SplitLinesBlankLine` | scripts/update_official_tests.py:67 | `x + "\n\n" + y` has an empty line, whatever `x` and `y` are |
| `PyStr.StrInjective` | scripts/update_official_tests.py:74 | different numbers print differently |

## Left out

- Git and subprocesses (lines 11-21, 30, 33, 39-44) are left out. What the
  four commands print, or their failure, is an input of type `Update.Git`.
  Which diff git produces is not modelled.
- The console (`input` and `print`) is left out. The typed lines are an input,
  and running out of them is the end of input, which raises `EOFError`
  (`InputClosed`).
- How `os.walk` meets files is left out.
  - The fixture tree is an input sequence, in walk order. Each fixture carries
    its directories, its name and its content, or nothing when it cannot be read.
  - The model does not read the fixtures from the same file map it writes.
- `os.makedirs` adds only the directory it is asked for. It does not add the
  missing directories above it.
- File writes never fail in the model. Errors other than a missing `COMMIT`
  (permissions, a full disk, a directory named `COMMIT`) are left out.
- `Corpus.OutputDir`, `Corpus.EntryPath` and `Corpus.FixturePath` join with a
  single `/`. This is `os.path.join` for the paths the script builds, none of
  which ends with `/`. `Update.PathJoin` models `os.path.join` in full for
  the paths a user passes.
- `Corpus.HeaderDir` models `os.path.relpath` as the suffix after
  `corpus + "/"`. Directory names `.` and `..` and doubled slashes are not
  normalised.
- `PyStr.Upper`: upper-cases ASCII letters only. No other character
  upper-cases to `Y`, so `yn_question` answers alike.
- `PyStr.Lower`: lower-cases ASCII letters only. No character lower-cases to
  `N`, so the result is the same.
- The unused `parse_repo_dir` parameter of `convert_test_block` and
  `parse_typ_files_and_convert` is left out.
- The commented-out `tree-sitter test -u` call at line 106 never runs, so it
  is not modelled.
- Argument parsing (lines 168-175) is left out. `Update.Env` holds the two
  repository paths.
- Exit statuses come from `Update.ExitStatus`, not from process mechanics.
- Concurrent runs and interrupted runs are left out.
