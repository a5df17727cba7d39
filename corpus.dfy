/**
 * Turning fixtures into corpus entries: entry names and contents
 * (`convert_test_block`), mirrored output directories, and what a whole walk
 * over the fixtures leaves on disk (`parse_typ_files_and_convert`).
 */
module Corpus {
  import opened Optional
  import opened PyStr
  import opened Blocks

  /** Name of the corpus sub-directory the entries live in; it also opens every header path. */
  const OfficialDirName := "official"

  /** The rule above and below an entry's title line. */
  const Rule := "=================="

  /** What closes every entry. */
  const EntryEnd := "\n---\n"

  /** Only files with this suffix are fixtures. */
  const FixtureSuffix := ".typ"

  /** `f"test{test_number}.scm"`. */
  function EntryName(i: nat): string {
    "test" + Str(i) + ".scm"
  }

  /** `os.path.join(output_dir, scm_filename)`. */
  function EntryPath(outDir: string, i: nat): string {
    outDir + "/" + EntryName(i)
  }

  /** Two block indices never share an entry file. */
  lemma EntryPathInjective(outDir: string, i: nat, j: nat)
    requires EntryPath(outDir, i) == EntryPath(outDir, j)
    ensures i == j
  {
    var p, q := EntryPath(outDir, i), EntryPath(outDir, j);
    assert p[|outDir| + 5..|p| - 4] == Str(i);
    assert q[|outDir| + 5..|q| - 4] == Str(j);
    StrInjective(i, j);
  }

  /** `os.path.relpath(output_dir, corpus_dir)` for an output directory inside the corpus. */
  function RelPath(outDir: string, corpus: string): string
    requires StartsWith(outDir, corpus + "/")
  {
    outDir[|corpus| + 1..]
  }

  /** `os.path.join(CORPUS_OFFICIAL_DIR_NAME, os.path.relpath(output_dir, corpus_dir))`. */
  function HeaderDir(outDir: string, corpus: string): string
    requires StartsWith(outDir, corpus + "/")
  {
    OfficialDirName + "/" + RelPath(outDir, corpus)
  }

  /** The title block naming the entry's path and block index. */
  function Header(headerDir: string, i: nat): string {
    Rule + "\n" + headerDir + " Test " + Str(i) + "\n" + Rule + "\n\n"
  }

  /** The content the second write of `convert_test_block` leaves in an entry. */
  function RenderEntry(headerDir: string, i: nat, block: string): string {
    Header(headerDir, i) + block + EntryEnd
  }

  /** The block inside an entry with the given header, if the entry has that shape. */
  function EntryBlock(entry: string, header: string): Option<string> {
    if |header| + |EntryEnd| <= |entry| && StartsWith(entry, header) && EndsWith(entry, EntryEnd)
    then Some(entry[|header|..|entry| - |EntryEnd|])
    else None
  }

  /** Removing the header and the closing separator from an entry gives back the block verbatim. */
  lemma EntryRoundTrip(headerDir: string, i: nat, block: string)
    ensures EntryBlock(RenderEntry(headerDir, i, block), Header(headerDir, i)) == Some(block)
    ensures StartsWith(RenderEntry(headerDir, i, block), Rule + "\n" + headerDir + " Test " + Str(i) + "\n")
  {
    var h := Header(headerDir, i);
    var e := RenderEntry(headerDir, i, block);
    assert e[..|h|] == h;
    assert e[|e| - |EntryEnd|..] == EntryEnd;
    assert e[|h|..|e| - |EntryEnd|] == block;
    var title := Rule + "\n" + headerDir + " Test " + Str(i) + "\n";
    assert h == title + Rule + "\n\n";
    assert e[..|title|] == title;
  }

  /** `pathlib.Path(name).stem`: the name without its last suffix; a leading dot starts no suffix. */
  function Stem(name: string): string {
    var dot := RFind(name, '.');
    if 0 < dot < |name| - 1 then name[..dot] else name
  }

  /** The stem of a fixture is its name without ".typ", except for the bare name ".typ". */
  lemma StemOfFixture(name: string)
    requires EndsWith(name, FixtureSuffix)
    ensures Stem(name) == if |name| > 4 then name[..|name| - 4] else name
  {
    assert name[|name| - 4..] == ".typ";
    assert name[|name| - 4] == '.';
    assert name[|name| - 3] == 't' && name[|name| - 2] == 'y' && name[|name| - 1] == 'p';
    assert RFind(name, '.') == |name| - 4;
  }

  /**
   * A file met by the walk: the names of the directories leading to it below
   * the tests root, its own name, and the text `read()` returns for it in text
   * mode, where every line ending, "\r\n" or a lone "\r", has already become
   * "\n" (`None` when it cannot be read).
   */
  datatype Fixture = Fixture(dirs: seq<string>, name: string, content: Option<string>)

  predicate IsFixtureFile(f: Fixture) {
    EndsWith(f.name, FixtureSuffix)
  }

  /** `root[len(tests_dir):]`: empty for the tests root itself, "/d1/.../dn" below it. */
  function SubPath(dirs: seq<string>): (p: string)
    ensures p == [] || p[0] == '/'
  {
    if dirs == [] then "" else "/" + dirs[0] + SubPath(dirs[1..])
  }

  /** `os.path.join(root, file)`. */
  function FixturePath(testsDir: string, f: Fixture): string {
    testsDir + SubPath(f.dirs) + "/" + f.name
  }

  /** `os.path.join(corpus_dir + root[len(tests_dir):], stem)`. */
  function OutputDir(corpus: string, f: Fixture): (d: string)
    ensures StartsWith(d, corpus + "/")
  {
    var tail := SubPath(f.dirs) + "/" + Stem(f.name);
    SlashPrefix(corpus, tail);
    corpus + tail
  }

  lemma SlashPrefix(corpus: string, tail: string)
    requires tail != [] && tail[0] == '/'
    ensures StartsWith(corpus + tail, corpus + "/")
  {
    assert (corpus + tail)[..|corpus| + 1] == corpus + "/";
  }

  lemma {:induction false} SubPathJoin(dirs: seq<string>, last: string)
    ensures SubPath(dirs) + "/" + last == "/" + Join(dirs + [last], "/")
  {
    if dirs != [] {
      SubPathJoin(dirs[1..], last);
      var all := dirs + [last];
      assert all[0] == dirs[0] && all[1..] == dirs[1..] + [last];
      assert Join(all, "/") == dirs[0] + "/" + Join(dirs[1..] + [last], "/");
      calc {
        SubPath(dirs) + "/" + last;
        ("/" + dirs[0] + SubPath(dirs[1..])) + "/" + last;
        "/" + dirs[0] + (SubPath(dirs[1..]) + "/" + last);
        "/" + dirs[0] + ("/" + Join(dirs[1..] + [last], "/"));
        "/" + Join(all, "/");
      }
    }
  }

  /**
   * The output tree mirrors the fixture tree: a fixture at directories d1..dn
   * named `f` gets the directory `corpus/d1/.../dn/stem(f)`, and its headers
   * name `official/d1/.../dn/stem(f)`.
   */
  lemma OutputDirMirrors(corpus: string, f: Fixture)
    ensures OutputDir(corpus, f) == corpus + "/" + Join(f.dirs + [Stem(f.name)], "/")
    ensures HeaderDir(OutputDir(corpus, f), corpus) == "official/" + Join(f.dirs + [Stem(f.name)], "/")
  {
    var joined := Join(f.dirs + [Stem(f.name)], "/");
    SubPathJoin(f.dirs, Stem(f.name));
    var d := OutputDir(corpus, f);
    assert d == corpus + (SubPath(f.dirs) + "/" + Stem(f.name));
    assert d == corpus + "/" + joined;
    assert RelPath(d, corpus) == joined;
  }

  lemma UnionAssociative<K, V>(a: map<K, V>, b: map<K, V>, c: map<K, V>)
    ensures (a + b) + c == a + (b + c)
  {
  }

  lemma UnionUpdate<K, V>(a: map<K, V>, b: map<K, V>, k: K, v: V)
    ensures (a + b)[k := v] == a + b[k := v]
  {
  }

  lemma UnionAbsorbs<K, V>(a: map<K, V>, b: map<K, V>)
    ensures (a + b) + b == a + b
  {
  }

  /** The part of the file system the script touches: file contents by path and the directories that exist. */
  datatype Disk = Disk(files: map<string, string>, dirs: set<string>)

  /** Which blocks are substantive, by position. */
  function Substantive(blocks: seq<string>): (keep: seq<bool>)
    ensures |keep| == |blocks|
  {
    seq(|blocks|, i requires 0 <= i < |blocks| => !IsTestBlockEmpty(blocks[i]))
  }

  /** The entries written for the first `n` blocks of one fixture: the kept ones, each under its own index. */
  function BlockEntries(outDir: string, headerDir: string, blocks: seq<string>, keep: seq<bool>, n: nat): map<string, string>
    requires |keep| == |blocks| && n <= |blocks|
  {
    if n == 0 then map[]
    else
      var m := BlockEntries(outDir, headerDir, blocks, keep, n - 1);
      if !keep[n - 1] then m
      else m[EntryPath(outDir, n - 1) := RenderEntry(headerDir, n - 1, blocks[n - 1])]
  }

  /** The entry for block `n` is named differently from every earlier block's. */
  lemma EarlierEntriesDiffer(outDir: string, n: nat)
    ensures forall i :: 0 <= i < n ==> EntryPath(outDir, i) != EntryPath(outDir, n)
  {
    forall i | 0 <= i < n
      ensures EntryPath(outDir, i) != EntryPath(outDir, n)
    {
      if EntryPath(outDir, i) == EntryPath(outDir, n) {
        EntryPathInjective(outDir, i, n);
      }
    }
  }

  /** Every entry of a fixture is named after one of its block indices. */
  lemma {:induction false} BlockEntriesNamed(outDir: string, headerDir: string, blocks: seq<string>, keep: seq<bool>, n: nat)
    requires |keep| == |blocks| && n <= |blocks|
    ensures forall k :: k in BlockEntries(outDir, headerDir, blocks, keep, n) ==>
              exists i :: 0 <= i < n && k == EntryPath(outDir, i)
  {
    if n > 0 {
      BlockEntriesNamed(outDir, headerDir, blocks, keep, n - 1);
    }
  }

  /** Block `i` has an entry exactly when it is kept. */
  lemma {:induction false} BlockEntriesPresent(outDir: string, headerDir: string, blocks: seq<string>, keep: seq<bool>, n: nat)
    requires |keep| == |blocks| && n <= |blocks|
    ensures forall i :: 0 <= i < n ==>
              (EntryPath(outDir, i) in BlockEntries(outDir, headerDir, blocks, keep, n) <==> keep[i])
  {
    if n > 0 {
      var m := BlockEntries(outDir, headerDir, blocks, keep, n - 1);
      BlockEntriesPresent(outDir, headerDir, blocks, keep, n - 1);
      BlockEntriesNamed(outDir, headerDir, blocks, keep, n - 1);
      EarlierEntriesDiffer(outDir, n - 1);
      assert EntryPath(outDir, n - 1) !in m;
      forall i | 0 <= i < n - 1
        ensures EntryPath(outDir, i) in BlockEntries(outDir, headerDir, blocks, keep, n) <==> keep[i]
      {
        assert EntryPath(outDir, i) != EntryPath(outDir, n - 1);
      }
    }
  }

  /** The entry of a kept block `i` holds that block rendered under index `i`. */
  lemma {:induction false} BlockEntriesContent(outDir: string, headerDir: string, blocks: seq<string>, keep: seq<bool>, n: nat)
    requires |keep| == |blocks| && n <= |blocks|
    ensures forall i :: 0 <= i < n && keep[i] ==>
              EntryPath(outDir, i) in BlockEntries(outDir, headerDir, blocks, keep, n) &&
              BlockEntries(outDir, headerDir, blocks, keep, n)[EntryPath(outDir, i)] == RenderEntry(headerDir, i, blocks[i])
  {
    if n > 0 {
      BlockEntriesContent(outDir, headerDir, blocks, keep, n - 1);
      EarlierEntriesDiffer(outDir, n - 1);
      forall i | 0 <= i < n - 1 && keep[i]
        ensures BlockEntries(outDir, headerDir, blocks, keep, n)[EntryPath(outDir, i)] == RenderEntry(headerDir, i, blocks[i])
      {
        assert EntryPath(outDir, i) != EntryPath(outDir, n - 1);
      }
    }
  }

  /** The entries one readable fixture produces. */
  function FixtureEntries(corpus: string, f: Fixture, text: string): map<string, string> {
    var outDir := OutputDir(corpus, f);
    var blocks := SplitBlocks(text);
    BlockEntries(outDir, HeaderDir(outDir, corpus), blocks, Substantive(blocks), |blocks|)
  }

  /**
   * Index stability: a fixture's entries are named after the positions of its
   * substantive blocks among ALL its blocks, so a vacuous block leaves a gap
   * instead of shifting later names; each entry holds its block verbatim.
   */
  lemma FixtureEntriesIndexed(corpus: string, f: Fixture, text: string)
    ensures var blocks := SplitBlocks(text);
            var outDir := OutputDir(corpus, f);
            var entries := FixtureEntries(corpus, f, text);
            && (forall i :: 0 <= i < |blocks| ==> (EntryPath(outDir, i) in entries <==> !IsTestBlockEmpty(blocks[i])))
            && (forall i :: 0 <= i < |blocks| && !IsTestBlockEmpty(blocks[i]) ==>
                  entries[EntryPath(outDir, i)] == RenderEntry(HeaderDir(outDir, corpus), i, blocks[i]))
            && (forall k :: k in entries ==> exists i :: 0 <= i < |blocks| && k == EntryPath(outDir, i))
  {
    var blocks := SplitBlocks(text);
    var outDir := OutputDir(corpus, f);
    BlockEntriesPresent(outDir, HeaderDir(outDir, corpus), blocks, Substantive(blocks), |blocks|);
    BlockEntriesContent(outDir, HeaderDir(outDir, corpus), blocks, Substantive(blocks), |blocks|);
    BlockEntriesNamed(outDir, HeaderDir(outDir, corpus), blocks, Substantive(blocks), |blocks|);
  }

  /** The disk after one readable fixture has been converted: its directory made, its entries written. */
  function ConvertFixture(disk: Disk, corpus: string, f: Fixture, text: string): Disk {
    Disk(disk.files + FixtureEntries(corpus, f, text), disk.dirs + {OutputDir(corpus, f)})
  }

  datatype WalkResult = Done | Unreadable(path: string)

  datatype WalkRun = WalkRun(result: WalkResult, disk: Disk)

  /**
   * The walk over the fixtures in the order they are met: files that are not
   * fixtures are skipped, and the first unreadable fixture aborts the walk.
   */
  function Walk(disk: Disk, testsDir: string, corpus: string, fixtures: seq<Fixture>): WalkRun
    decreases |fixtures|
  {
    if fixtures == [] then WalkRun(Done, disk)
    else
      var f := fixtures[0];
      if !IsFixtureFile(f) then Walk(disk, testsDir, corpus, fixtures[1..])
      else match f.content
        case None => WalkRun(Unreadable(FixturePath(testsDir, f)), disk)
        case Some(text) => Walk(ConvertFixture(disk, corpus, f, text), testsDir, corpus, fixtures[1..])
  }

  predicate AllReadable(fixtures: seq<Fixture>) {
    forall j :: 0 <= j < |fixtures| && IsFixtureFile(fixtures[j]) ==> fixtures[j].content.Some?
  }

  /** Every entry of every readable fixture, a later fixture's entry winning over an earlier one. */
  function AllEntries(corpus: string, fixtures: seq<Fixture>): map<string, string> {
    if fixtures == [] then map[]
    else
      var f := fixtures[0];
      var mine := if IsFixtureFile(f) && f.content.Some? then FixtureEntries(corpus, f, f.content.value) else map[];
      mine + AllEntries(corpus, fixtures[1..])
  }

  /** The output directory of every readable fixture. */
  function AllOutputDirs(corpus: string, fixtures: seq<Fixture>): set<string> {
    if fixtures == [] then {}
    else
      var f := fixtures[0];
      var mine := if IsFixtureFile(f) && f.content.Some? then {OutputDir(corpus, f)} else {};
      mine + AllOutputDirs(corpus, fixtures[1..])
  }

  /** The effect a walk over readable fixtures has on `disk`. */
  function CompletedWalk(disk: Disk, corpus: string, fixtures: seq<Fixture>): WalkRun {
    WalkRun(Done, Disk(disk.files + AllEntries(corpus, fixtures), disk.dirs + AllOutputDirs(corpus, fixtures)))
  }

  /** One converted fixture followed by the rest of a completed walk is a completed walk. */
  lemma ConvertThenComplete(disk: Disk, testsDir: string, corpus: string, fixtures: seq<Fixture>)
    requires fixtures != [] && IsFixtureFile(fixtures[0]) && fixtures[0].content.Some?
    requires var next := ConvertFixture(disk, corpus, fixtures[0], fixtures[0].content.value);
             Walk(next, testsDir, corpus, fixtures[1..]) == CompletedWalk(next, corpus, fixtures[1..])
    ensures Walk(disk, testsDir, corpus, fixtures) == CompletedWalk(disk, corpus, fixtures)
  {
    var f, rest := fixtures[0], fixtures[1..];
    var e := FixtureEntries(corpus, f, f.content.value);
    var next := ConvertFixture(disk, corpus, f, f.content.value);
    var d := OutputDir(corpus, f);
    assert AllOutputDirs(corpus, fixtures) == {d} + AllOutputDirs(corpus, rest);
    assert next.dirs + AllOutputDirs(corpus, rest) == disk.dirs + AllOutputDirs(corpus, fixtures);
    assert AllEntries(corpus, fixtures) == e + AllEntries(corpus, rest);
    UnionAssociative(disk.files, e, AllEntries(corpus, rest));
    assert Walk(disk, testsDir, corpus, fixtures) == Walk(next, testsDir, corpus, rest);
  }

  /** A skipped file followed by the rest of a completed walk is a completed walk. */
  lemma SkipThenComplete(disk: Disk, testsDir: string, corpus: string, fixtures: seq<Fixture>)
    requires fixtures != [] && !IsFixtureFile(fixtures[0])
    requires Walk(disk, testsDir, corpus, fixtures[1..]) == CompletedWalk(disk, corpus, fixtures[1..])
    ensures Walk(disk, testsDir, corpus, fixtures) == CompletedWalk(disk, corpus, fixtures)
  {
    var rest := fixtures[1..];
    assert AllOutputDirs(corpus, fixtures) == {} + AllOutputDirs(corpus, rest);
    assert {} + AllOutputDirs(corpus, rest) == AllOutputDirs(corpus, rest);
    assert AllEntries(corpus, fixtures) == map[] + AllEntries(corpus, rest);
    assert map[] + AllEntries(corpus, rest) == AllEntries(corpus, rest);
    assert Walk(disk, testsDir, corpus, fixtures) == Walk(disk, testsDir, corpus, rest);
  }

  /**
   * A walk over readable fixtures completes, and its effect does not depend on
   * what was on disk before: it adds the same entries and directories.
   */
  lemma {:induction false} WalkComplete(disk: Disk, testsDir: string, corpus: string, fixtures: seq<Fixture>)
    requires AllReadable(fixtures)
    ensures Walk(disk, testsDir, corpus, fixtures) == CompletedWalk(disk, corpus, fixtures)
    decreases |fixtures|
  {
    if fixtures == [] {
      assert AllEntries(corpus, fixtures) == map[];
      assert AllOutputDirs(corpus, fixtures) == {};
      assert disk.files + map[] == disk.files;
      assert disk.dirs + {} == disk.dirs;
    } else {
      var f, rest := fixtures[0], fixtures[1..];
      assert forall j :: 0 <= j < |rest| ==> rest[j] == fixtures[j + 1];
      if IsFixtureFile(f) {
        WalkComplete(ConvertFixture(disk, corpus, f, f.content.value), testsDir, corpus, rest);
        ConvertThenComplete(disk, testsDir, corpus, fixtures);
      } else {
        WalkComplete(disk, testsDir, corpus, rest);
        SkipThenComplete(disk, testsDir, corpus, fixtures);
      }
    }
  }

  /**
   * Walking `a` and then `b` is walking `a + b`: the second part starts from
   * the disk the first left, unless the first aborted.
   */
  lemma {:induction false} WalkConcat(disk: Disk, testsDir: string, corpus: string, a: seq<Fixture>, b: seq<Fixture>)
    ensures var first := Walk(disk, testsDir, corpus, a);
            Walk(disk, testsDir, corpus, a + b) == if first.result.Done? then Walk(first.disk, testsDir, corpus, b) else first
    decreases |a|
  {
    if a == [] {
      assert a + b == b;
    } else {
      var f := a[0];
      assert (a + b)[0] == f;
      assert (a + b)[1..] == a[1..] + b;
      if !IsFixtureFile(f) {
        WalkConcat(disk, testsDir, corpus, a[1..], b);
      } else if f.content.Some? {
        WalkConcat(ConvertFixture(disk, corpus, f, f.content.value), testsDir, corpus, a[1..], b);
      }
    }
  }

  /** The position of the first fixture that cannot be read. */
  function FirstUnreadable(fixtures: seq<Fixture>): (j: nat)
    requires !AllReadable(fixtures)
    ensures j < |fixtures| && IsFixtureFile(fixtures[j]) && fixtures[j].content.None?
    ensures AllReadable(fixtures[..j])
    decreases |fixtures|
  {
    if IsFixtureFile(fixtures[0]) && fixtures[0].content.None? then
      assert fixtures[..0] == [];
      0
    else
      var rest := fixtures[1..];
      var j := FirstUnreadable(rest);
      assert fixtures[..j + 1] == [fixtures[0]] + rest[..j];
      j + 1
  }

  /**
   * The walk stops at the first unreadable fixture: it has converted exactly
   * the fixtures before it, none after it, and it reports its path.
   */
  lemma WalkStopsAtFirstUnreadable(disk: Disk, testsDir: string, corpus: string, fixtures: seq<Fixture>, j: nat)
    requires j < |fixtures| && IsFixtureFile(fixtures[j]) && fixtures[j].content.None?
    requires AllReadable(fixtures[..j])
    ensures Walk(disk, testsDir, corpus, fixtures) ==
            WalkRun(Unreadable(FixturePath(testsDir, fixtures[j])), CompletedWalk(disk, corpus, fixtures[..j]).disk)
  {
    assert fixtures == fixtures[..j] + fixtures[j..];
    WalkConcat(disk, testsDir, corpus, fixtures[..j], fixtures[j..]);
    WalkComplete(disk, testsDir, corpus, fixtures[..j]);
    assert fixtures[j..][0] == fixtures[j];
  }

  /**
   * Running the walk a second time over the same fixtures leaves the disk as
   * the first run left it, and ends the same way, whether it completes or aborts.
   */
  lemma WalkIdempotent(disk: Disk, testsDir: string, corpus: string, fixtures: seq<Fixture>)
    ensures var once := Walk(disk, testsDir, corpus, fixtures);
            Walk(once.disk, testsDir, corpus, fixtures) == once
  {
    var once := Walk(disk, testsDir, corpus, fixtures);
    if AllReadable(fixtures) {
      WalkComplete(disk, testsDir, corpus, fixtures);
      WalkComplete(once.disk, testsDir, corpus, fixtures);
      UnionAbsorbs(disk.files, AllEntries(corpus, fixtures));
    } else {
      var j := FirstUnreadable(fixtures);
      WalkStopsAtFirstUnreadable(disk, testsDir, corpus, fixtures, j);
      WalkStopsAtFirstUnreadable(once.disk, testsDir, corpus, fixtures, j);
      UnionAbsorbs(disk.files, AllEntries(corpus, fixtures[..j]));
    }
  }

  /** The walk aborts only on an unreadable fixture, and then it names that fixture's path. */
  lemma {:induction false} WalkAbortsOnUnreadable(disk: Disk, testsDir: string, corpus: string, fixtures: seq<Fixture>)
    ensures Walk(disk, testsDir, corpus, fixtures).result.Unreadable? <==> !AllReadable(fixtures)
    ensures Walk(disk, testsDir, corpus, fixtures).result.Unreadable? ==>
              exists j :: 0 <= j < |fixtures| && IsFixtureFile(fixtures[j]) && fixtures[j].content.None? &&
                          Walk(disk, testsDir, corpus, fixtures).result.path == FixturePath(testsDir, fixtures[j])
    decreases |fixtures|
  {
    if fixtures != [] {
      var f, rest := fixtures[0], fixtures[1..];
      assert forall j :: 0 <= j < |rest| ==> rest[j] == fixtures[j + 1];
      if !IsFixtureFile(f) {
        WalkAbortsOnUnreadable(disk, testsDir, corpus, rest);
      } else if f.content.Some? {
        WalkAbortsOnUnreadable(ConvertFixture(disk, corpus, f, f.content.value), testsDir, corpus, rest);
      }
    }
  }

  /** A path the walk may write: a `.scm` file somewhere below the corpus directory. */
  predicate IsEntryKey(corpus: string, key: string) {
    StartsWith(key, corpus + "/") && EndsWith(key, ".scm")
  }

  lemma EntryKeyShape(corpus: string, f: Fixture, i: nat)
    ensures IsEntryKey(corpus, EntryPath(OutputDir(corpus, f), i))
  {
    var d := OutputDir(corpus, f);
    var k := EntryPath(d, i);
    assert k == d + ("/" + EntryName(i));
    assert k[..|corpus| + 1] == d[..|corpus| + 1];
    assert k[|k| - 4..] == EntryName(i)[|EntryName(i)| - 4..];
  }

  /** Every entry a fixture produces is a `.scm` file below the corpus directory. */
  lemma FixtureEntriesAreEntryKeys(corpus: string, f: Fixture, text: string)
    ensures forall k :: k in FixtureEntries(corpus, f, text) ==> IsEntryKey(corpus, k)
  {
    FixtureEntriesIndexed(corpus, f, text);
    forall k | k in FixtureEntries(corpus, f, text)
      ensures IsEntryKey(corpus, k)
    {
      var i :| 0 <= i < |SplitBlocks(text)| && k == EntryPath(OutputDir(corpus, f), i);
      EntryKeyShape(corpus, f, i);
    }
  }

  /**
   * The walk, complete or aborted, writes only `.scm` files below the corpus
   * directory: every other file keeps its presence and its content.
   */
  lemma {:induction false} WalkKeepsOtherFiles(disk: Disk, testsDir: string, corpus: string, fixtures: seq<Fixture>)
    ensures var after := Walk(disk, testsDir, corpus, fixtures).disk;
            forall k :: !IsEntryKey(corpus, k) ==>
              (k in after.files <==> k in disk.files) && (k in disk.files ==> after.files[k] == disk.files[k])
    ensures disk.dirs <= Walk(disk, testsDir, corpus, fixtures).disk.dirs
    decreases |fixtures|
  {
    if fixtures != [] {
      var f := fixtures[0];
      if !IsFixtureFile(f) {
        WalkKeepsOtherFiles(disk, testsDir, corpus, fixtures[1..]);
      } else if f.content.Some? {
        FixtureEntriesAreEntryKeys(corpus, f, f.content.value);
        WalkKeepsOtherFiles(ConvertFixture(disk, corpus, f, f.content.value), testsDir, corpus, fixtures[1..]);
      }
    }
  }

  /** Entries are written only under the output directory of a `.typ` fixture. */
  lemma {:induction false} EntriesOnlyForFixtures(corpus: string, fixtures: seq<Fixture>, key: string)
    requires key in AllEntries(corpus, fixtures)
    ensures exists j, i: nat :: 0 <= j < |fixtures| && IsFixtureFile(fixtures[j]) && key == EntryPath(OutputDir(corpus, fixtures[j]), i)
    decreases |fixtures|
  {
    var f, rest := fixtures[0], fixtures[1..];
    if key in AllEntries(corpus, rest) {
      EntriesOnlyForFixtures(corpus, rest, key);
      var j, i: nat :| 0 <= j < |rest| && IsFixtureFile(rest[j]) && key == EntryPath(OutputDir(corpus, rest[j]), i);
      assert rest[j] == fixtures[j + 1];
    } else {
      var text := f.content.value;
      FixtureEntriesIndexed(corpus, f, text);
      var i :| 0 <= i < |SplitBlocks(text)| && key == EntryPath(OutputDir(corpus, f), i);
      assert 0 <= 0 < |fixtures| && IsFixtureFile(fixtures[0]) && key == EntryPath(OutputDir(corpus, fixtures[0]), i);
    }
  }
}
