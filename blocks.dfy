/**
 * Cutting a fixture into test blocks and deciding which blocks are vacuous
 * (scripts/update_official_tests.py, `is_test_block_empty` and the split in
 * `parse_typ_files_and_convert`).
 */
module Blocks {
  import opened PyStr

  /** Upstream fixtures start each test with this line. */
  const Separator := "---"

  /** Typst line comments start with this marker. */
  const CommentMarker := "//"

  /** `content.split("---")`: the candidate blocks of a fixture, in order. */
  function SplitBlocks(content: string): seq<string> {
    Split(content, Separator)
  }

  /**
   * The blocks of a fixture: one more than the separators in it, joining them
   * back with the separator gives the fixture, and no block holds a separator.
   */
  lemma SplitBlocksSpec(content: string)
    ensures var blocks := SplitBlocks(content);
            && |blocks| == Count(content, Separator) + 1
            && Join(blocks, Separator) == content
            && forall k :: 0 <= k < |blocks| ==> !Contains(blocks[k], Separator)
  {
    SplitCount(content, Separator);
    SplitJoin(content, Separator);
    SplitPiecesSeparatorFree(content, Separator);
  }

  /** A fixture without a separator is a single block holding all of it. */
  lemma SplitBlocksSingle(content: string)
    ensures SplitBlocks(content) == [content] <==> !Contains(content, Separator)
  {
    SplitWithoutSeparator(content, Separator);
  }

  /** A line that, once stripped, starts with `//`. */
  predicate IsCommentLine(line: string) {
    StartsWith(Strip(line), CommentMarker)
  }

  /** The list comprehension keeping the lines that are not comments. */
  function NonCommentLines(lines: seq<string>): seq<string> {
    if lines == [] then []
    else if IsCommentLine(lines[0]) then NonCommentLines(lines[1..])
    else [lines[0]] + NonCommentLines(lines[1..])
  }

  /** Nothing survives the filter exactly when every line is a comment line. */
  lemma {:induction false} NonCommentLinesEmpty(lines: seq<string>)
    ensures NonCommentLines(lines) == [] <==> forall i :: 0 <= i < |lines| ==> IsCommentLine(lines[i])
  {
    if lines != [] {
      NonCommentLinesEmpty(lines[1..]);
      assert forall i :: 1 <= i < |lines| ==> lines[i] == lines[1..][i - 1];
    }
  }

  /** The lines of the stripped block that the filter looks at. */
  function BlockLines(block: string): seq<string> {
    SplitLines(Strip(block))
  }

  /** `is_test_block_empty`: every line of the stripped block is a comment line. */
  predicate IsTestBlockEmpty(block: string) {
    forall i :: 0 <= i < |BlockLines(block)| ==> IsCommentLine(BlockLines(block)[i])
  }

  /** A block is vacuous exactly when the comment filter keeps none of the lines of the stripped block. */
  lemma TestBlockEmptyIff(block: string)
    ensures IsTestBlockEmpty(block) <==> NonCommentLines(BlockLines(block)) == []
  {
    NonCommentLinesEmpty(BlockLines(block));
  }

  /** A whitespace-only block is vacuous. */
  lemma WhitespaceOnlyIsEmpty(block: string)
    requires AllSpace(block)
    ensures IsTestBlockEmpty(block)
  {
    StripEnds(block);
    assert Strip(block) == [];
  }

  /** The filter gives the same answer on a block and on its strip. */
  lemma EmptyAgreesOnStrip(block: string)
    ensures IsTestBlockEmpty(Strip(block)) == IsTestBlockEmpty(block)
  {
    StripIdempotent(block);
    assert BlockLines(Strip(block)) == BlockLines(block);
  }

  /** A blank line inside the stripped block makes the block substantive. */
  lemma BlankLineIsSubstantive(block: string, k: nat)
    requires k < |BlockLines(block)| && AllSpace(BlockLines(block)[k])
    ensures !IsTestBlockEmpty(block)
  {
    StripEnds(BlockLines(block)[k]);
  }

  /**
   * Any block whose stripped text holds an empty line, two "\n" in a row, is
   * substantive, whatever comment lines surround it.
   */
  lemma BlankLineInText(block: string, x: string, y: string)
    requires Strip(block) == x + "\n\n" + y
    ensures !IsTestBlockEmpty(block)
  {
    SplitLinesBlankLine(x, y);
    var k :| 0 <= k < |BlockLines(block)| && BlockLines(block)[k] == "";
    BlankLineIsSubstantive(block, k);
  }

  /** A block with no whitespace at either end is its own strip. */
  lemma StrippedAlready(b: string)
    requires b != [] && !IsSpace(b[0]) && !IsSpace(b[|b| - 1])
    ensures BlockLines(b) == SplitLines(b)
  {
  }

  /** The lines of "\n// b": an empty line, then the comment. */
  lemma OneCommentLine()
    ensures SplitLines("\n// b") == ["", "// b"]
  {
    var c := "\n// b";
    assert BreakAt("// b") == 4;
    assert SplitLines("// b") == ["// b"];
    assert BreakAt(c) == 0 && BreakWidth(c, 0) == 1 && c[1..] == "// b";
  }

  /** The first line of "// a\n\n// b" is "// a", ended by the first "\n". */
  lemma FirstCommentLine()
    ensures SplitLines("// a\n\n// b") == ["// a"] + SplitLines("\n// b")
  {
    var b := "// a\n\n// b";
    assert b[4] == '\n';
    assert BreakAt(b) == 4 && BreakWidth(b, 4) == 1;
    assert b[..4] == "// a" && b[4 + 1..] == "\n// b";
  }

  /** The lines of a block holding two comments around an empty line. */
  lemma BlankBetweenCommentsLines()
    ensures BlockLines("// a\n\n// b") == ["// a", "", "// b"]
  {
    StrippedAlready("// a\n\n// b");
    FirstCommentLine();
    OneCommentLine();
  }

  /** So two comment lines with an empty line between them form a substantive block. */
  lemma BlankBetweenComments()
    ensures !IsTestBlockEmpty("// a\n\n// b")
  {
    BlankBetweenCommentsLines();
    BlankLineIsSubstantive("// a\n\n// b", 1);
  }
}
