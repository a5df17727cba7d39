/**
 * The Python `str` methods the conversion script relies on, on `seq<char>`:
 * `isspace`, `strip`, `splitlines`, `startswith`, `endswith`, `split`,
 * `count`, `upper`, `lower`, `rfind` and `str(int)`.
 */
module PyStr {

  /** `c.isspace()`: the characters Python's argument-less `strip` removes. */
  predicate IsSpace(c: char) {
    || ('\t' <= c <= '\r')
    || ('\U{1C}' <= c <= ' ')
    || c == '\U{85}' || c == '\U{A0}' || c == '\U{1680}'
    || ('\U{2000}' <= c <= '\U{200A}')
    || c == '\U{2028}' || c == '\U{2029}' || c == '\U{202F}' || c == '\U{205F}'
    || c == '\U{3000}'
  }

  /** The characters `str.splitlines` breaks a line at ("\r\n" counts as one break). */
  predicate IsLineBreak(c: char) {
    || ('\n' <= c <= '\r')
    || ('\U{1C}' <= c <= '\U{1E}')
    || c == '\U{85}' || c == '\U{2028}' || c == '\U{2029}'
  }

  predicate AllSpace(s: string) {
    forall i :: 0 <= i < |s| ==> IsSpace(s[i])
  }

  /** `s.lstrip()`: drop leading whitespace. */
  function LStrip(s: string): string {
    if s != [] && IsSpace(s[0]) then LStrip(s[1..]) else s
  }

  /** `s.rstrip()`: drop trailing whitespace. */
  function RStrip(s: string): string {
    if s != [] && IsSpace(s[|s| - 1]) then RStrip(s[..|s| - 1]) else s
  }

  /** `s.strip()`. */
  function Strip(s: string): string {
    RStrip(LStrip(s))
  }

  /** `lstrip` keeps a suffix, starting at a non-space, and drops only whitespace. */
  lemma {:induction false} LStripSpec(s: string)
    ensures var r := LStrip(s);
            && |r| <= |s| && r == s[|s| - |r|..]
            && (r == [] || !IsSpace(r[0]))
            && AllSpace(s[..|s| - |r|])
    decreases |s|
  {
    if s != [] && IsSpace(s[0]) {
      LStripSpec(s[1..]);
      var r := LStrip(s[1..]);
      assert s[1..][..|s[1..]| - |r|] == s[1..|s| - |r|];
    }
  }

  /** `rstrip` keeps a prefix, ending at a non-space, and drops only whitespace. */
  lemma {:induction false} RStripSpec(s: string)
    ensures var r := RStrip(s);
            && |r| <= |s| && r == s[..|r|]
            && (r == [] || !IsSpace(r[|r| - 1]))
            && AllSpace(s[|r|..])
    decreases |s|
  {
    if s != [] && IsSpace(s[|s| - 1]) {
      RStripSpec(s[..|s| - 1]);
      var r := RStrip(s[..|s| - 1]);
      assert forall i :: |r| <= i < |s| - 1 ==> s[i] == s[..|s| - 1][|r|..][i - |r|];
    }
  }

  /**
   * Stripping keeps the middle of `s` between a leading and a trailing run of
   * whitespace, leaves no whitespace at either end, and leaves nothing at all
   * exactly when `s` is all whitespace.
   */
  lemma StripEnds(s: string)
    ensures exists a, b :: 0 <= a <= b <= |s| && Strip(s) == s[a..b] && AllSpace(s[..a]) && AllSpace(s[b..])
    ensures var r := Strip(s); r == [] || (!IsSpace(r[0]) && !IsSpace(r[|r| - 1]))
    ensures Strip(s) == [] <==> AllSpace(s)
  {
    var l := LStrip(s);
    var r := RStrip(l);
    LStripSpec(s);
    RStripSpec(l);
    var a := |s| - |l|;
    var b := a + |r|;
    assert r == s[a..b];
    assert l[|r|..] == s[b..];
    if r == [] {
      assert l[|r|..] == l;
      assert l == [];
      assert s[..a] == s;
    } else {
      assert r[0] == l[0];
      assert r[0] == s[a];
    }
  }

  /** `strip` is idempotent. */
  lemma StripIdempotent(s: string)
    ensures Strip(Strip(s)) == Strip(s)
  {
    StripEnds(s);
    var r := Strip(s);
    assert LStrip(r) == r;
    assert RStrip(r) == r;
  }

  function StartsWith(s: string, prefix: string): bool {
    |prefix| <= |s| && s[..|prefix|] == prefix
  }

  function EndsWith(s: string, suffix: string): bool {
    |suffix| <= |s| && s[|s| - |suffix|..] == suffix
  }

  /** Index of the first line break of `s`, or `|s|` when there is none. */
  function BreakAt(s: string): (k: nat)
    ensures k <= |s|
    ensures k < |s| ==> IsLineBreak(s[k])
    ensures forall i :: 0 <= i < k ==> !IsLineBreak(s[i])
  {
    if s == [] || IsLineBreak(s[0]) then 0 else 1 + BreakAt(s[1..])
  }

  /** Width of the line break at `k`: two for "\r\n", one otherwise. */
  function BreakWidth(s: string, k: nat): nat
    requires k < |s|
  {
    if s[k] == '\r' && k + 1 < |s| && s[k + 1] == '\n' then 2 else 1
  }

  /**
   * `s.splitlines()`: the lines of `s` without their breaks; a final break
   * does not start an extra empty line, and the empty string has no lines.
   */
  function SplitLines(s: string): (lines: seq<string>)
    decreases |s|
  {
    if s == [] then []
    else
      var k := BreakAt(s);
      if k == |s| then [s]
      else [s[..k]] + SplitLines(s[k + BreakWidth(s, k)..])
  }

  predicate NoLineBreak(s: string) {
    forall i :: 0 <= i < |s| ==> !IsLineBreak(s[i])
  }

  /** No line of `splitlines` holds a line break, and only the empty string has no lines. */
  lemma {:induction false} SplitLinesBreakFree(s: string)
    ensures forall k :: 0 <= k < |SplitLines(s)| ==> NoLineBreak(SplitLines(s)[k])
    ensures SplitLines(s) == [] <==> s == []
    decreases |s|
  {
    if s != [] {
      var k := BreakAt(s);
      if k < |s| {
        var rest := s[k + BreakWidth(s, k)..];
        SplitLinesBreakFree(rest);
        var lines := SplitLines(s);
        assert lines == [s[..k]] + SplitLines(rest);
        assert NoLineBreak(s[..k]);
      }
    }
  }

  /** `splitlines` gives the whole string as its one line exactly when it is non-empty and holds no break. */
  lemma SplitLinesSingle(s: string)
    ensures SplitLines(s) == [s] <==> s != [] && NoLineBreak(s)
  {
    if SplitLines(s) == [s] {
      SplitLinesBreakFree(s);
      assert SplitLines(s)[0] == s;
    }
    if s != [] && NoLineBreak(s) {
      assert BreakAt(s) == |s|;
    }
  }

  /** The first line of `s` runs up to its first break, and the lines after that break follow. */
  lemma SplitLinesStep(s: string, k: nat)
    requires k < |s| && IsLineBreak(s[k])
    requires forall j :: 0 <= j < k ==> !IsLineBreak(s[j])
    ensures SplitLines(s) == [s[..k]] + SplitLines(s[k + BreakWidth(s, k)..])
  {
    BreakAtFirst(s, k);
  }

  /** `BreakAt` finds the first line break. */
  lemma {:induction false} BreakAtFirst(s: string, k: nat)
    requires k < |s| && IsLineBreak(s[k])
    requires forall j :: 0 <= j < k ==> !IsLineBreak(s[j])
    ensures BreakAt(s) == k
    decreases k
  {
    if k > 0 {
      assert !IsLineBreak(s[0]);
      forall j | 0 <= j < k - 1
        ensures !IsLineBreak(s[1..][j])
      {
        assert s[1..][j] == s[j + 1];
      }
      BreakAtFirst(s[1..], k - 1);
    }
  }

  /**
   * A line ended by one break character is the first line, and the lines of
   * the rest follow, unless that break is a "\r" that pairs with a "\n".
   */
  lemma SplitLinesCons(a: string, c: char, b: string)
    requires NoLineBreak(a) && IsLineBreak(c)
    requires !(c == '\r' && b != [] && b[0] == '\n')
    ensures SplitLines(a + [c] + b) == [a] + SplitLines(b)
  {
    var s := a + [c] + b;
    assert forall j :: 0 <= j < |a| ==> s[j] == a[j];
    assert s[..|a|] == a && s[|a|] == c && s[|a| + 1..] == b;
    SplitLinesStep(s, |a|);
  }

  /** A line ended by "\r\n" is the first line, and the lines of the rest follow. */
  lemma SplitLinesCrLf(a: string, b: string)
    requires NoLineBreak(a)
    ensures SplitLines(a + "\r\n" + b) == [a] + SplitLines(b)
  {
    var s := a + "\r\n" + b;
    assert forall j :: 0 <= j < |a| ==> s[j] == a[j];
    assert s[..|a|] == a && s[|a|] == '\r' && s[|a| + 1] == '\n' && s[|a| + 2..] == b;
    SplitLinesStep(s, |a|);
  }

  /** Two "\n" in a row, at `i` and `i + 1`, always give an empty line. */
  lemma {:induction false} SplitLinesBlankAt(s: string, i: nat)
    requires i + 1 < |s| && s[i] == '\n' && s[i + 1] == '\n'
    ensures "" in SplitLines(s)
    decreases |s|
  {
    var b := BreakAt(s);
    assert b <= i;
    var w := BreakWidth(s, b);
    assert b + w <= i + 1;
    SplitLinesStep(s, b);
    var rest := s[b + w..];
    if b + w == i + 1 {
      assert rest[0] == '\n';
      SplitLinesStep(rest, 0);
    } else {
      var i' := i - (b + w);
      assert rest[i'] == '\n' && rest[i' + 1] == '\n';
      SplitLinesBlankAt(rest, i');
    }
  }

  /** Two "\n" in a row always give an empty line, whatever comes before and after them. */
  lemma SplitLinesBlankLine(x: string, y: string)
    ensures "" in SplitLines(x + "\n\n" + y)
  {
    var s := x + "\n\n" + y;
    assert s[|x|] == '\n' && s[|x| + 1] == '\n';
    SplitLinesBlankAt(s, |x|);
  }

  /** `sep` occurs in `s` at position `i`. */
  predicate OccursAt(s: string, sep: string, i: nat) {
    i + |sep| <= |s| && s[i..i + |sep|] == sep
  }

  ghost predicate Contains(s: string, sep: string) {
    exists i: nat :: OccursAt(s, sep, i)
  }

  /** `s.split(sep)`: cut at every non-overlapping occurrence, scanning left to right. */
  function Split(s: string, sep: string): (parts: seq<string>)
    requires sep != []
    ensures |parts| >= 1
    ensures parts[0] <= s
    decreases |s|
  {
    if |s| < |sep| then [s]
    else if s[..|sep|] == sep then [""] + Split(s[|sep|..], sep)
    else
      var rest := Split(s[1..], sep);
      [[s[0]] + rest[0]] + rest[1..]
  }

  /** `sep.join(parts)`. */
  function Join(parts: seq<string>, sep: string): string
    requires |parts| >= 1
  {
    if |parts| == 1 then parts[0] else parts[0] + sep + Join(parts[1..], sep)
  }

  /** `s.count(sep)`: non-overlapping occurrences, scanning left to right. */
  function Count(s: string, sep: string): nat
    requires sep != []
    decreases |s|
  {
    if |s| < |sep| then 0
    else if s[..|sep|] == sep then 1 + Count(s[|sep|..], sep)
    else Count(s[1..], sep)
  }

  /** Joining the pieces with the separator gives back the text. */
  lemma {:induction false} SplitJoin(s: string, sep: string)
    requires sep != []
    ensures Join(Split(s, sep), sep) == s
    decreases |s|
  {
    if |s| < |sep| {
    } else if s[..|sep|] == sep {
      var rest := Split(s[|sep|..], sep);
      SplitJoin(s[|sep|..], sep);
      var parts := [""] + rest;
      assert Split(s, sep) == parts;
      assert parts[1..] == rest;
      assert Join(parts, sep) == "" + sep + Join(rest, sep);
      assert s == sep + s[|sep|..];
    } else {
      var rest := Split(s[1..], sep);
      assert Split(s, sep) == [[s[0]] + rest[0]] + rest[1..];
      SplitJoin(s[1..], sep);
      JoinConsFirst(s[0], rest, sep);
      assert s == [s[0]] + s[1..];
    }
  }

  /** Prefixing the first piece prefixes the joined text. */
  lemma JoinConsFirst(c: char, parts: seq<string>, sep: string)
    requires |parts| >= 1
    ensures Join([[c] + parts[0]] + parts[1..], sep) == [c] + Join(parts, sep)
  {
    var parts' := [[c] + parts[0]] + parts[1..];
    assert parts'[1..] == parts[1..];
  }

  /** There is one more piece than there are occurrences of the separator. */
  lemma {:induction false} SplitCount(s: string, sep: string)
    requires sep != []
    ensures |Split(s, sep)| == Count(s, sep) + 1
    decreases |s|
  {
    if |s| < |sep| {
    } else if s[..|sep|] == sep {
      SplitCount(s[|sep|..], sep);
    } else {
      SplitCount(s[1..], sep);
    }
  }

  /** The separator is counted at least once exactly when it occurs. */
  lemma {:induction false} CountPositiveIffContains(s: string, sep: string)
    requires sep != []
    ensures Count(s, sep) > 0 <==> Contains(s, sep)
    decreases |s|
  {
    if |s| < |sep| {
      assert forall i: nat :: !OccursAt(s, sep, i);
    } else if s[..|sep|] == sep {
      assert OccursAt(s, sep, 0);
    } else {
      CountPositiveIffContains(s[1..], sep);
      if Contains(s, sep) {
        var i: nat :| OccursAt(s, sep, i);
        assert i > 0;
        OccursShift(s, sep, i - 1);
      }
      if Contains(s[1..], sep) {
        var i: nat :| OccursAt(s[1..], sep, i);
        OccursShift(s, sep, i);
      }
    }
  }

  /** An occurrence in the tail is an occurrence one place further on in the whole. */
  lemma OccursShift(s: string, sep: string, i: nat)
    requires s != []
    ensures OccursAt(s[1..], sep, i) <==> OccursAt(s, sep, i + 1)
  {
    if i + 1 + |sep| <= |s| {
      assert s[1..][i..i + |sep|] == s[i + 1..i + 1 + |sep|];
    }
  }

  /** The first piece of `split` holds no occurrence of the separator that starts inside it. */
  lemma {:induction false} SplitFirstPieceClean(s: string, sep: string)
    requires sep != []
    ensures forall i :: 0 <= i < |Split(s, sep)[0]| ==> !OccursAt(s, sep, i)
    decreases |s|
  {
    if |s| >= |sep| && s[..|sep|] != sep {
      var rest := Split(s[1..], sep);
      SplitFirstPieceClean(s[1..], sep);
      var first := Split(s, sep)[0];
      assert first == [s[0]] + rest[0];
      assert !OccursAt(s, sep, 0);
      forall i | 0 < i < |first|
        ensures !OccursAt(s, sep, i)
      {
        OccursShift(s, sep, i - 1);
      }
    }
  }

  /**
   * `split` cuts at the leftmost occurrence: when the first occurrence of the
   * separator starts at `i`, the first piece is everything before it and the
   * other pieces are the split of what follows it.
   */
  lemma {:induction false} SplitAtFirst(s: string, sep: string, i: nat)
    requires sep != [] && OccursAt(s, sep, i)
    requires forall j :: 0 <= j < i ==> !OccursAt(s, sep, j)
    ensures Split(s, sep) == [s[..i]] + Split(s[i + |sep|..], sep)
    decreases i
  {
    if i == 0 {
      assert s[..|sep|] == sep;
    } else {
      assert !OccursAt(s, sep, 0);
      OccursShift(s, sep, i - 1);
      forall j | 0 <= j < i - 1
        ensures !OccursAt(s[1..], sep, j)
      {
        OccursShift(s, sep, j);
      }
      SplitAtFirst(s[1..], sep, i - 1);
      TailShift(s, i - 1 + |sep|);
      var rest := Split(s[1..], sep);
      assert rest[0] == s[1..][..i - 1];
      assert [s[0]] + s[1..][..i - 1] == s[..i];
      assert rest[1..] == Split(s[i + |sep|..], sep);
    }
  }

  /** Dropping `m` characters from the tail of `s` drops `m + 1` from `s`. */
  lemma TailShift(s: string, m: nat)
    requires m + 1 <= |s|
    ensures s[1..][m..] == s[m + 1..]
  {
  }

  /** Text without the separator is one piece, the whole text, and only such text is. */
  lemma SplitWithoutSeparator(s: string, sep: string)
    requires sep != []
    ensures Split(s, sep) == [s] <==> !Contains(s, sep)
  {
    SplitCount(s, sep);
    CountPositiveIffContains(s, sep);
    SplitJoin(s, sep);
  }

  /** No piece contains the separator. */
  lemma {:induction false} SplitPiecesSeparatorFree(s: string, sep: string)
    requires sep != []
    ensures forall k :: 0 <= k < |Split(s, sep)| ==> !Contains(Split(s, sep)[k], sep)
    decreases |s|
  {
    var parts := Split(s, sep);
    if |s| < |sep| {
      assert forall i: nat :: !OccursAt(s, sep, i);
    } else if s[..|sep|] == sep {
      SplitPiecesSeparatorFree(s[|sep|..], sep);
      assert parts[1..] == Split(s[|sep|..], sep);
      assert forall i: nat :: !OccursAt(parts[0], sep, i);
    } else {
      var rest := Split(s[1..], sep);
      SplitPiecesSeparatorFree(s[1..], sep);
      assert parts[1..] == rest[1..];
      var head := [s[0]] + rest[0];
      forall i: nat ensures !OccursAt(head, sep, i) {
        if i == 0 {
          if |sep| <= |head| {
            assert head <= s;
            assert head[..|sep|] == s[..|sep|];
          }
        } else if i + |sep| <= |head| {
          assert head[i..i + |sep|] == rest[0][i - 1..i - 1 + |sep|];
          assert !OccursAt(rest[0], sep, i - 1);
        }
      }
    }
  }

  /** The decimal digit for `d`. */
  function Digit(d: nat): char
    requires d < 10
  {
    (('0' as int) + d) as char
  }

  /** `str(n)` for a non-negative integer: its decimal digits, most significant first. */
  function Str(n: nat): (r: string)
    ensures 1 <= |r|
    ensures (|r| == 1) == (n < 10)
    ensures forall i :: 0 <= i < |r| ==> '0' <= r[i] <= '9'
    ensures r[0] == '0' ==> n == 0
  {
    if n < 10 then [Digit(n)] else Str(n / 10) + [Digit(n % 10)]
  }

  /** Different numbers print differently. */
  lemma {:induction false} StrInjective(a: nat, b: nat)
    requires Str(a) == Str(b)
    ensures a == b
    decreases a
  {
    if a >= 10 {
      var sa, sb := Str(a), Str(b);
      assert |sb| > 1;
      assert sa[..|sa| - 1] == Str(a / 10);
      assert sb[..|sb| - 1] == Str(b / 10);
      StrInjective(a / 10, b / 10);
      assert Digit(a % 10) == sa[|sa| - 1] == Digit(b % 10);
    }
  }

  function UpperChar(c: char): char {
    if 'a' <= c <= 'z' then (c as int - 32) as char else c
  }

  function LowerChar(c: char): char {
    if 'A' <= c <= 'Z' then (c as int + 32) as char else c
  }

  /** `s.upper()`, on ASCII letters. */
  function Upper(s: string): (r: string)
    ensures |r| == |s|
    ensures forall i :: 0 <= i < |s| ==> r[i] == UpperChar(s[i])
  {
    if s == [] then [] else [UpperChar(s[0])] + Upper(s[1..])
  }

  /** `s.lower()`, on ASCII letters. */
  function Lower(s: string): (r: string)
    ensures |r| == |s|
    ensures forall i :: 0 <= i < |s| ==> r[i] == LowerChar(s[i])
  {
    if s == [] then [] else [LowerChar(s[0])] + Lower(s[1..])
  }

  /** `s.rfind(c)`: the last index holding `c`, or -1. */
  function RFind(s: string, c: char): (r: int)
    ensures -1 <= r < |s|
    ensures r >= 0 ==> s[r] == c
    ensures forall i :: r < i < |s| ==> s[i] != c
  {
    if s == [] then -1
    else if s[|s| - 1] == c then |s| - 1
    else RFind(s[..|s| - 1], c)
  }
}
